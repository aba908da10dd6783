# glTF loader core: document loading and primitive GPU binding

This project models two sequential pieces of a WebGL glTF 2.0 viewer as pure
Dafny functions over immutable records, and proves properties of them.

- **Document loading** (`src/gltf.js`). `glTF.fromJson` converts the parsed
  JSON into a `Document`. It appends one default material and one default
  sampler, resolves the camera and light back-references of the nodes
  (`addNodeReferences`), and picks the default scene. `getJsonLightsFromExtensions`
  extracts the top-level `KHR_lights_punctual` light list.
- **Primitive GPU binding** (`src/primitive.js`). `gltfPrimitive.initGl` does
  the following:
  - It defaults a missing material to the last (default) one.
  - It runs the `KHR_draco_mesh_compression` splice (`decodeDraco`) when the
    primitive carries that extension.
  - It walks the attribute map against the glTF 2.0 semantic table (section
    3.7.2, "Meshes", of the glTF 2.0 specification). Along the way it assigns
    vertex-attribute slots under the `maxAttributes` budget, pushes shader
    defines and sets the `skip`, `hasJoints` and `hasWeights` flags.
  - It then walks the morph targets under the same budget.

  `getShaderIdentifier` names the one vertex shader.

Modules:

- `Wrappers` defines `Option` and `Result`.
- `Entities` holds the entity records: accessors, buffers, buffer views,
  cameras, lights, materials, samplers, nodes, primitives and the `Document`.
  Attribute maps are `seq<(string, nat)>` in `Object.keys` order.
- `Loader` models `gltf.js`.
- `Attributes` models the two loops of `initGl`.
  - Keys are classified once into the `Semantic` cases of the switch (`Classify`).
  - The main loop has a closed-form reference description: the first
    `Budget` recognised entries (`BoundEntries`).
  - The morph loop has one too: the targets before `Processed`.
- `Draco` models the `decodeDraco` splice.
- `PrimitiveInit` models `initGl` and `getShaderIdentifier`.

Where the original code throws a `TypeError`, the model returns a `Failure`:
- `this.cameras[node.camera]` is undefined;
- `this.lights[...]` is undefined;
- `gltf.accessors[idx]` is undefined for COLOR_0;
- `gltf.bufferViews[...]` or `gltf.buffers[...]` is undefined in `decodeDraco`;
- `status` is undefined for a non-triangular Draco geometry;
- the POSITION accessor is missing after the splice.

Inputs the code reads from its environment are parameters:
- `maxAttributes` stands for `getParameter(MAX_VERTEX_ATTRIBS)`;
- `codec` stands for what the Draco decoder reports: not a triangular mesh, a
  not-ok status, a failed float fetch, or N decoded floats.

The model keeps three behaviours of the code that a reader might not expect:
- **Non-triangular Draco geometry.** `status` stays undefined, and
  `status.ok()` at primitive.js:198 throws. The model returns
  `Failure(UnsupportedGeometry)`, not a clean `false`.
- **Missing POSITION key after a decode.** The new buffer and buffer view
  are pushed at primitive.js:225 and 230 before
  `gltf.accessors[attributes["POSITION"]]` throws at line 232. The model
  returns `Failure(MissingPositionAttribute)`.
- **Default scene.** The rule at gltf.js:63-73 only runs when `json.scenes`
  is present:
  - an explicit `scene` with an empty `scenes` list is kept verbatim;
  - an empty `scenes` list without `scene` gives `undefined`;
  - a `scene` without any `scenes` list is dropped, and the constructor's
    `undefined` (gltf.js:23) stays.

## Model

| member | source | states |
|---|---|---|
| Loader.GetJsonLightsFromExtensions | src/gltf.js:97-108 | a missing extension object or a missing KHR_lights_punctual block gives the empty list; a present block gives its `lights` property exactly, which is absent only when the block lacks it |
| Loader.LoadedLightsAreDeclared | src/gltf.js:55 | the loader's light list, `getJsonLightsFromExtensions` followed by the list conversion, is exactly the light list the extension block declares, and empty without a block |
| Loader.FromJson | src/gltf.js:42-74 | loading succeeds iff every node's camera and light references are in range (the `AddNodeReferences` pass). Materials and samplers are the authored ones followed by exactly one default. The default scene (`DefaultScene`) is 0 when `scenes` is non-empty and `scene` is absent, `json.scene` verbatim otherwise when `scenes` is present, and undefined when `scenes` is absent. Every other array is the JSON's, with an absent one empty |
| Loader.ResolvePrefixSucceeds | src/gltf.js:76-94 | the loop of `AddNodeReferences` over the first k nodes succeeds iff all their references are in range; a failure names the first node whose camera or light reference cannot be written |
| Loader.ResolvePrefixCameras | src/gltf.js:78-84 | last writer wins: a referenced camera's `node` is the largest index of a node referencing it, an unreferenced camera is unchanged, and only `node` fields change |
| Loader.ResolvePrefixLights | src/gltf.js:86-92 | the same last-writer-wins and frame properties for lights referenced through the node-level KHR_lights_punctual `light` property |
| Loader.LoadedBackReferences | src/gltf.js:54-94 | after `fromJson`, the cameras and the extension's lights carry the last-writer back-references of the JSON nodes, and are otherwise as authored |
| Attributes.MainPassFails | src/primitive.js:84-90 | the main loop throws iff a COLOR_0 entry it reaches within the budget names an accessor that does not exist |
| Attributes.MainPassBindsBudgetedPrefix | src/primitive.js:53-113 | the slots the main loop `MainPass` binds are exactly the descriptors of the first `maxAttributes - used` recognised keys in key order, an independent filter-then-take definition; keys after the budget check fires and unknown keys bind nothing |
| Attributes.MainPassPushesBoundDefines | src/primitive.js:64-110 | the defines pushed are those of the bound entries in order: none for POSITION, `"HAS_VERTEX_COLOR_" + type + " 1"` for COLOR_0, the fixed table string for every other recognised semantic, none for unknown keys |
| Attributes.MainPassFlags | src/primitive.js:62-110 | `skip` ends false iff POSITION is bound (or it started false); `hasWeights`/`hasJoints` end true iff WEIGHTS_0/1 or JOINTS_0/1 is bound (or they started true) |
| Attributes.MainPassWithinBudget | src/primitive.js:55-59 | starting within budget, the main loop keeps the existing slots as a prefix and never exceeds `maxAttributes` |
| Attributes.TargetBindingsSound | src/primitive.js:128-147 | every slot target i binds is one of its POSITION, NORMAL or TANGENT keys with that key's accessor and the name `a_Target_<Semantic>` + i, and the define pushed with it is `HAS_TARGET_<SEMANTIC>` + i + `" 1"`; other keys bind nothing |
| Attributes.TargetBindingsComplete | src/primitive.js:128-147 | every POSITION, NORMAL or TANGENT key of target i is bound with its accessor under the name `a_Target_<Semantic>` + i |
| Attributes.MorphPassAppends | src/primitive.js:117-151 | the morph loop `MorphPass` appends exactly the slots and defines of targets j up to `Processed`, in order, and leaves the flags unchanged |
| Attributes.ProcessedHadRoom | src/primitive.js:122-126 | every processed target found `glAttributes.length + 3 <= maxAttributes` at its start; the first unprocessed one did not, and no later target is processed |
| Attributes.TargetBindsAtMostThree | src/primitive.js:130-147 | a target with unique keys binds at most three slots |
| Attributes.MorphPassWithinBudget | src/primitive.js:117-151 | starting within budget, with no target binding more than three slots, the morph loop never exceeds `maxAttributes` |
| Draco.DecodeDraco | src/primitive.js:169-242 | an out-of-range buffer view or buffer, or a non-triangular mesh, throws; a not-ok status or a failed float fetch returns false with the document unchanged. A decode of N floats appends one buffer and one view of 4N bytes, the view over the new buffer, and redirects the POSITION accessor to the new view at offset 0, leaving every other accessor and all older buffers and views unchanged |
| PrimitiveInit.InitGl | src/primitive.js:31-152 | a missing material becomes `materials.length - 1` and a given one is kept; nothing else of the authored primitive changes. With the Draco extension the document is the one `DecodeDraco` returns (the `DracoStep`, whose true/false result is dropped); without it the document is unchanged. The derived fields are what the two loops make of the spliced accessors |
| PrimitiveInit.InitGlFails | src/primitive.js:44-90 | `initGl` throws iff the Draco step (`DracoStep`) throws or a bound COLOR_0 names a missing accessor |
| PrimitiveInit.BindAttributesSlots | src/primitive.js:53-151 | the final slots are the initial ones, then the budgeted main descriptors, then the processed targets' slots |
| PrimitiveInit.BindAttributesDefines | src/primitive.js:53-151 | the final defines are the initial ones, then the bound main entries' defines, then the processed targets' defines |
| PrimitiveInit.BindAttributesFlags | src/primitive.js:62-151 | the flags depend only on the main loop's bound semantics; a morph-target POSITION does not clear `skip` |
| PrimitiveInit.InitGlWithinBudget | src/primitive.js:53-151 | a freshly constructed primitive whose targets have unique keys ends with at most `maxAttributes` slots, and `skip` is false iff its main loop bound POSITION |
| PrimitiveInit.LoadedPrimitiveUsesDefaultMaterial | src/primitive.js:33-36 | after `fromJson`, a primitive without a material is given the index of the appended default material |
| PrimitiveInit.ShaderIdentifier | src/primitive.js:154-157 | the identifier names a vertex-shader file (it ends in `.vert`) |
| PrimitiveInit.ShaderIdentifierIsShared | src/primitive.js:154-157 | any two primitives report the same identifier, `primitive.vert`, whatever their attributes |

## Left out

- `rollup.config.js`: build tooling with no logic of the loader.
- The WebGL context. `maxAttributes` is a parameter. The primitive `mode`
  is an enumeration whose constructor default is `Triangles`.
- `utils.js` is not part of this model. Its `objectsFromJsons` and
  `objectFromJson` are assumed to convert element by element, in order, and
  to map an absent list to the empty list. Entities in the JSON are given
  already converted.
- `initGlForMembers` (the recursive initialisation of the document's
  members), and running `initGl` over every primitive of every mesh. The
  model covers one primitive.
- Draco codec internals are an oracle (`DracoOutcome`). The float-to-byte
  packing is left out because it involves floats; only the 4-bytes-per-float
  length is modelled. So is the `Uint8Array` over the compressed range,
  which can throw a `RangeError` for an out-of-bounds view.
- Native resource destruction in `decodeDraco` is not modelled.
- `decodeDraco`'s boolean result is discarded by `initGl`, as in the code.
- Draco.DecodeDraco: a failure carries no document, so the buffer and
  buffer view already pushed when the POSITION lookup throws are not
  visible in the model.
- Draco.DecodeDraco: the new buffer view's `byteOffset` is taken to be 0,
  the buffer-view constructor default. `buffer_view.js` is not part of this
  model.
- Console logging, `setCentroid` and `getDefines` are left out. Neither of
  the latter two has logic to state.
- Entity fields that the two passes neither read nor write.
- Attribute maps are ordered by `Object.keys`. For the string keys glTF uses
  that order is insertion order, and that is what the model assumes.
- `asset` is treated as present. `json.scene` is treated as absent or a
  natural number.
- PrimitiveInit.InitGlWithinBudget: assumes each morph target has unique
  keys, as a JavaScript object does.
- PrimitiveInit.InitGlWithinBudget: assumes a freshly constructed primitive.
  `initGl` run twice on one primitive keeps appending to the same arrays.
