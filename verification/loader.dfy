/** Document loading (`glTF.fromJson`), the node back-reference pass
    (`glTF.addNodeReferences`) and the top-level light extraction
    (`getJsonLightsFromExtensions`) of src/gltf.js. */
module Loader {
  import opened Wrappers
  import opened Entities

  /** The document-level `KHR_lights_punctual` block; `lights` may be missing. */
  datatype LightsBlock = LightsBlock(lights: Option<seq<Light>>)

  datatype DocExtensions = DocExtensions(lightsPunctual: Option<LightsBlock>)

  /** The parsed JSON document. Every top-level array is optional; entities
      inside an array are given in their converted form. */
  datatype GltfJson = GltfJson(
    asset: Asset,
    cameras: Option<seq<Camera>>,
    accessors: Option<seq<Accessor>>,
    meshes: Option<seq<Mesh>>,
    samplers: Option<seq<SamplerJson>>,
    materials: Option<seq<MaterialJson>>,
    buffers: Option<seq<Buffer>>,
    bufferViews: Option<seq<BufferView>>,
    scenes: Option<seq<Scene>>,
    textures: Option<seq<Texture>>,
    nodes: Option<seq<Node>>,
    extensions: Option<DocExtensions>,
    images: Option<seq<Image>>,
    scene: Option<nat>)

  /** Where `addNodeReferences` throws: writing `.node` on an undefined entry. */
  datatype LoadError =
    | CameraOutOfRange(node: nat, camera: nat)
    | LightMissing(node: nat)
    | LightOutOfRange(node: nat, light: nat)

  /** The list conversion of the loader: an absent list is empty. */
  function OrEmpty<T>(list: Option<seq<T>>): seq<T>
  {
    list.GetOr([])
  }

  function AuthoredMaterials(list: Option<seq<MaterialJson>>): (ms: seq<Material>)
    ensures |ms| == |OrEmpty(list)|
    ensures forall i :: 0 <= i < |ms| ==> ms[i] == AuthoredMaterial(OrEmpty(list)[i])
  {
    var js := OrEmpty(list);
    seq(|js|, i requires 0 <= i < |js| => AuthoredMaterial(js[i]))
  }

  function AuthoredSamplers(list: Option<seq<SamplerJson>>): (ss: seq<Sampler>)
    ensures |ss| == |OrEmpty(list)|
    ensures forall i :: 0 <= i < |ss| ==> ss[i] == AuthoredSampler(OrEmpty(list)[i])
  {
    var js := OrEmpty(list);
    seq(|js|, i requires 0 <= i < |js| => AuthoredSampler(js[i]))
  }

  /** `getJsonLightsFromExtensions`: the light list of the extension block,
      verbatim (possibly itself absent), or the empty list when there is no block. */
  function GetJsonLightsFromExtensions(extensions: Option<DocExtensions>): (r: Option<seq<Light>>)
    // a present block's `lights` property is returned as it is
    ensures extensions.Some? && extensions.value.lightsPunctual.Some? ==>
      r == extensions.value.lightsPunctual.value.lights
    // without a block the list is empty
    ensures !(extensions.Some? && extensions.value.lightsPunctual.Some?) ==> r == Some([])
    // a non-empty list only ever comes from the extension block
    ensures r.Some? && |r.value| > 0 ==>
      extensions.Some? && extensions.value.lightsPunctual.Some? &&
      extensions.value.lightsPunctual.value.lights == r
    // the list is missing only when the block exists without `lights`
    ensures r.None? <==>
      extensions.Some? && extensions.value.lightsPunctual.Some? &&
      extensions.value.lightsPunctual.value.lights.None?
  {
    match extensions
    case None => Some([])
    case Some(ext) =>
      match ext.lightsPunctual
      case None => Some([])
      case Some(block) => block.lights
  }

  /** The lights the extension block of a parsed document declares. */
  function DeclaredLights(json: GltfJson): seq<Light>
  {
    if json.extensions.Some? && json.extensions.value.lightsPunctual.Some?
    then OrEmpty(json.extensions.value.lightsPunctual.value.lights)
    else []
  }

  /** The loader's light list, `getJsonLightsFromExtensions` followed by the
      list conversion, is exactly the list the extension block declares. */
  lemma LoadedLightsAreDeclared(json: GltfJson)
    ensures OrEmpty(GetJsonLightsFromExtensions(json.extensions)) == DeclaredLights(json)
  {
  }

  predicate DeclaresCamera(n: Node, c: nat)
  {
    n.camera == Some(c)
  }

  predicate HasLightExtension(n: Node)
  {
    n.extensions.Some? && n.extensions.value.lightsPunctual.Some?
  }

  /** The `light` property of the node's KHR_lights_punctual object. */
  function LightIndex(n: Node): Option<nat>
    requires HasLightExtension(n)
  {
    n.extensions.value.lightsPunctual.value.light
  }

  predicate DeclaresLight(n: Node, l: nat)
  {
    HasLightExtension(n) && LightIndex(n) == Some(l)
  }

  /** The node's camera and light references can be written without throwing. */
  predicate ReferencesInRange(n: Node, cameraCount: nat, lightCount: nat)
  {
    && (n.camera.Some? ==> n.camera.value < cameraCount)
    && (HasLightExtension(n) ==> LightIndex(n).Some? && LightIndex(n).value < lightCount)
  }

  datatype BackRefs = BackRefs(cameras: seq<Camera>, lights: seq<Light>)

  /** One iteration of the loop of `addNodeReferences`, for node `i`. */
  function ResolveNode(refs: BackRefs, i: nat, n: Node): Result<BackRefs, LoadError>
  {
    match n.camera
    case Some(c) =>
      if c < |refs.cameras|
      then ResolveLight(BackRefs(refs.cameras[c := refs.cameras[c].(node := Some(i))], refs.lights), i, n)
      else Failure(CameraOutOfRange(i, c))
    case None => ResolveLight(refs, i, n)
  }

  function ResolveLight(refs: BackRefs, i: nat, n: Node): Result<BackRefs, LoadError>
  {
    if !HasLightExtension(n) then Success(refs)
    else
      match LightIndex(n)
      case None => Failure(LightMissing(i))
      case Some(l) =>
        if l < |refs.lights|
        then Success(BackRefs(refs.cameras, refs.lights[l := refs.lights[l].(node := Some(i))]))
        else Failure(LightOutOfRange(i, l))
  }

  /** The loop of `addNodeReferences` run over the first `k` nodes. */
  function ResolvePrefix(nodes: seq<Node>, k: nat, refs: BackRefs): Result<BackRefs, LoadError>
    requires k <= |nodes|
    decreases k
  {
    if k == 0 then Success(refs)
    else
      var done :- ResolvePrefix(nodes, k - 1, refs);
      ResolveNode(done, k - 1, nodes[k - 1])
  }

  /** `addNodeReferences`: one pass over all nodes in array order. */
  function AddNodeReferences(nodes: seq<Node>, cameras: seq<Camera>, lights: seq<Light>): Result<BackRefs, LoadError>
  {
    ResolvePrefix(nodes, |nodes|, BackRefs(cameras, lights))
  }

  /** The default-scene rule of `fromJson`; `None` is the constructor's `undefined`. */
  function DefaultScene(scenes: Option<seq<Scene>>, scene: Option<nat>): Option<nat>
  {
    match scenes
    case None => None
    case Some(ss) => if scene.None? && |ss| > 0 then Some(0) else scene
  }

  /** `new glTF(path).fromJson(json)`. */
  function FromJson(path: string, json: GltfJson): (r: Result<Document, LoadError>)
    ensures r.Success? <==>
      forall i :: 0 <= i < |OrEmpty(json.nodes)| ==>
        ReferencesInRange(OrEmpty(json.nodes)[i], |OrEmpty(json.cameras)|, |DeclaredLights(json)|)
    // one default material, appended after the authored ones
    ensures r.Success? ==>
      && |r.value.materials| == |OrEmpty(json.materials)| + 1
      && (forall i :: 0 <= i < |OrEmpty(json.materials)| ==>
            r.value.materials[i] == AuthoredMaterial(OrEmpty(json.materials)[i]))
      && r.value.materials[|r.value.materials| - 1] == DefaultMaterial
    // one default sampler, appended after the authored ones
    ensures r.Success? ==>
      && |r.value.samplers| == |OrEmpty(json.samplers)| + 1
      && (forall i :: 0 <= i < |OrEmpty(json.samplers)| ==>
            r.value.samplers[i] == AuthoredSampler(OrEmpty(json.samplers)[i]))
      && r.value.samplers[|r.value.samplers| - 1] == DefaultSampler
    // the default scene
    ensures r.Success? && json.scenes.Some? && |json.scenes.value| > 0 && json.scene.None? ==>
      r.value.scene == Some(0)
    ensures r.Success? && json.scenes.Some? && (|json.scenes.value| == 0 || json.scene.Some?) ==>
      r.value.scene == json.scene
    ensures r.Success? && json.scenes.None? ==> r.value.scene.None?
    // the other arrays are the document's, an absent one empty
    ensures r.Success? ==>
      && r.value.path == path
      && r.value.asset == json.asset
      && r.value.accessors == OrEmpty(json.accessors)
      && r.value.nodes == OrEmpty(json.nodes)
      && r.value.scenes == OrEmpty(json.scenes)
      && r.value.textures == OrEmpty(json.textures)
      && r.value.images == OrEmpty(json.images)
      && r.value.meshes == OrEmpty(json.meshes)
      && r.value.buffers == OrEmpty(json.buffers)
      && r.value.bufferViews == OrEmpty(json.bufferViews)
      && |r.value.cameras| == |OrEmpty(json.cameras)|
      && |r.value.lights| == |DeclaredLights(json)|
  {
    var nodes := OrEmpty(json.nodes);
    var cameras := OrEmpty(json.cameras);
    var lights := OrEmpty(GetJsonLightsFromExtensions(json.extensions));
    LoadedLightsAreDeclared(json);
    ResolvePrefixSucceeds(nodes, |nodes|, BackRefs(cameras, lights));
    ResolvePrefixCameras(nodes, |nodes|, BackRefs(cameras, lights));
    ResolvePrefixLights(nodes, |nodes|, BackRefs(cameras, lights));
    var refs :- AddNodeReferences(nodes, cameras, lights);
    Success(Document(
      path := path,
      asset := json.asset,
      accessors := OrEmpty(json.accessors),
      nodes := nodes,
      scene := DefaultScene(json.scenes, json.scene),
      scenes := OrEmpty(json.scenes),
      cameras := refs.cameras,
      lights := refs.lights,
      textures := OrEmpty(json.textures),
      images := OrEmpty(json.images),
      samplers := AuthoredSamplers(json.samplers) + [DefaultSampler],
      meshes := OrEmpty(json.meshes),
      buffers := OrEmpty(json.buffers),
      bufferViews := OrEmpty(json.bufferViews),
      materials := AuthoredMaterials(json.materials) + [DefaultMaterial]))
  }

  /** The pass over the first `k` nodes succeeds exactly when all their
      references are in range; otherwise it fails at the first node whose
      reference is not. */
  lemma {:induction false} ResolvePrefixSucceeds(nodes: seq<Node>, k: nat, refs: BackRefs)
    requires k <= |nodes|
    ensures var r := ResolvePrefix(nodes, k, refs);
      && (r.Success? <==>
            forall i :: 0 <= i < k ==> ReferencesInRange(nodes[i], |refs.cameras|, |refs.lights|))
      && (r.Success? ==> |r.value.cameras| == |refs.cameras| && |r.value.lights| == |refs.lights|)
      && (r.Failure? ==>
            && r.error.node < k
            && !ReferencesInRange(nodes[r.error.node], |refs.cameras|, |refs.lights|)
            && forall i :: 0 <= i < r.error.node ==> ReferencesInRange(nodes[i], |refs.cameras|, |refs.lights|))
  {
    if k > 0 {
      ResolvePrefixSucceeds(nodes, k - 1, refs);
    }
  }

  /** Last writer wins for cameras: a camera referenced by some of the first
      `k` nodes has its `node` set to the largest such node index, an
      unreferenced camera is unchanged, and no other camera field changes. */
  lemma {:induction false} ResolvePrefixCameras(nodes: seq<Node>, k: nat, refs: BackRefs)
    requires k <= |nodes|
    ensures var r := ResolvePrefix(nodes, k, refs);
      r.Success? ==>
        && |r.value.cameras| == |refs.cameras|
        && (forall c :: 0 <= c < |refs.cameras| ==>
              r.value.cameras[c] == refs.cameras[c].(node := r.value.cameras[c].node))
        && (forall c :: 0 <= c < |refs.cameras| && (forall i :: 0 <= i < k ==> !DeclaresCamera(nodes[i], c)) ==>
              r.value.cameras[c] == refs.cameras[c])
        && (forall c, i ::
              (&& 0 <= c < |refs.cameras| && 0 <= i < k && DeclaresCamera(nodes[i], c)
               && forall j :: i < j < k ==> !DeclaresCamera(nodes[j], c))
              ==> r.value.cameras[c].node == Some(i))
  {
    if k > 0 {
      ResolvePrefixCameras(nodes, k - 1, refs);
      ResolvePrefixSucceeds(nodes, k - 1, refs);
      match ResolvePrefix(nodes, k - 1, refs)
      case Failure(_) =>
      case Success(done) =>
        if ResolveNode(done, k - 1, nodes[k - 1]).Success? {
          ResolveNodeCameras(done, k - 1, nodes[k - 1]);
        }
    }
  }

  /** One node's step writes only the `node` field of the camera it declares. */
  lemma ResolveNodeCameras(refs: BackRefs, i: nat, n: Node)
    requires ResolveNode(refs, i, n).Success?
    ensures var after := ResolveNode(refs, i, n).value.cameras;
      && |after| == |refs.cameras|
      && (forall c :: 0 <= c < |refs.cameras| && !DeclaresCamera(n, c) ==> after[c] == refs.cameras[c])
      && (forall c :: 0 <= c < |refs.cameras| && DeclaresCamera(n, c) ==>
            after[c] == refs.cameras[c].(node := Some(i)))
  {
  }

  /** Last writer wins for lights referenced through the node-level
      KHR_lights_punctual extension, in the same sense as for cameras. */
  lemma {:induction false} ResolvePrefixLights(nodes: seq<Node>, k: nat, refs: BackRefs)
    requires k <= |nodes|
    ensures var r := ResolvePrefix(nodes, k, refs);
      r.Success? ==>
        && |r.value.lights| == |refs.lights|
        && (forall l :: 0 <= l < |refs.lights| ==>
              r.value.lights[l] == refs.lights[l].(node := r.value.lights[l].node))
        && (forall l :: 0 <= l < |refs.lights| && (forall i :: 0 <= i < k ==> !DeclaresLight(nodes[i], l)) ==>
              r.value.lights[l] == refs.lights[l])
        && (forall l, i ::
              (&& 0 <= l < |refs.lights| && 0 <= i < k && DeclaresLight(nodes[i], l)
               && forall j :: i < j < k ==> !DeclaresLight(nodes[j], l))
              ==> r.value.lights[l].node == Some(i))
  {
    if k > 0 {
      ResolvePrefixLights(nodes, k - 1, refs);
      ResolvePrefixSucceeds(nodes, k - 1, refs);
      match ResolvePrefix(nodes, k - 1, refs)
      case Failure(_) =>
      case Success(done) =>
        if ResolveNode(done, k - 1, nodes[k - 1]).Success? {
          ResolveNodeLights(done, k - 1, nodes[k - 1]);
        }
    }
  }

  /** One node's step writes only the `node` field of the light it declares. */
  lemma ResolveNodeLights(refs: BackRefs, i: nat, n: Node)
    requires ResolveNode(refs, i, n).Success?
    ensures var after := ResolveNode(refs, i, n).value.lights;
      && |after| == |refs.lights|
      && (forall l :: 0 <= l < |refs.lights| && !DeclaresLight(n, l) ==> after[l] == refs.lights[l])
      && (forall l :: 0 <= l < |refs.lights| && DeclaresLight(n, l) ==>
            after[l] == refs.lights[l].(node := Some(i)))
  {
  }

  /** After loading, every camera and light the JSON nodes reference points
      back at the last node referencing it; the others are as authored, and
      no other field of a camera or light differs from the JSON. */
  lemma LoadedBackReferences(path: string, json: GltfJson)
    ensures var r := FromJson(path, json);
      var nodes := OrEmpty(json.nodes);
      var cameras := OrEmpty(json.cameras);
      var lights := DeclaredLights(json);
      r.Success? ==>
        && (forall c :: 0 <= c < |cameras| ==> r.value.cameras[c] == cameras[c].(node := r.value.cameras[c].node))
        && (forall c :: 0 <= c < |cameras| && (forall i :: 0 <= i < |nodes| ==> !DeclaresCamera(nodes[i], c)) ==>
              r.value.cameras[c] == cameras[c])
        && (forall c, i ::
              (&& 0 <= c < |cameras| && 0 <= i < |nodes| && DeclaresCamera(nodes[i], c)
               && forall j :: i < j < |nodes| ==> !DeclaresCamera(nodes[j], c))
              ==> r.value.cameras[c].node == Some(i))
        && (forall l :: 0 <= l < |lights| ==> r.value.lights[l] == lights[l].(node := r.value.lights[l].node))
        && (forall l :: 0 <= l < |lights| && (forall i :: 0 <= i < |nodes| ==> !DeclaresLight(nodes[i], l)) ==>
              r.value.lights[l] == lights[l])
        && (forall l, i ::
              (&& 0 <= l < |lights| && 0 <= i < |nodes| && DeclaresLight(nodes[i], l)
               && forall j :: i < j < |nodes| ==> !DeclaresLight(nodes[j], l))
              ==> r.value.lights[l].node == Some(i))
  {
    var nodes := OrEmpty(json.nodes);
    var refs := BackRefs(OrEmpty(json.cameras), DeclaredLights(json));
    LoadedLightsAreDeclared(json);
    ResolvePrefixCameras(nodes, |nodes|, refs);
    ResolvePrefixLights(nodes, |nodes|, refs);
  }
}
