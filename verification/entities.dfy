/** The resolved glTF entity graph: every entity the loader and the GPU
    initialisation pass touch, reduced to the fields those passes read or
    write. Entities refer to each other by index into the Document's arrays. */
module Entities {
  import opened Wrappers

  /** A glTF attribute map: (semantic, accessor index) pairs in the order
      `Object.keys` yields them. */
  type AttributeMap = seq<(string, nat)>

  /** A JavaScript object cannot hold one key twice. */
  predicate UniqueKeys(m: AttributeMap)
  {
    forall i, j :: 0 <= i < j < |m| ==> m[i].0 != m[j].0
  }

  /** The semantic names of a map, in key order. */
  function Keys(m: AttributeMap): (ks: seq<string>)
    ensures |ks| == |m|
    ensures forall i :: 0 <= i < |m| ==> ks[i] == m[i].0
  {
    if |m| == 0 then [] else [m[0].0] + Keys(m[1..])
  }

  /** Property lookup `m[key]` on an attribute map. */
  function Lookup(m: AttributeMap, key: string): (r: Option<nat>)
    ensures r.None? <==> key !in Keys(m)
    ensures r.Some? ==> (key, r.value) in m
  {
    if |m| == 0 then None
    else if m[0].0 == key then Some(m[0].1)
    else Lookup(m[1..], key)
  }

  datatype Asset = Asset(version: string, generator: string)

  /** `elementType` is the glTF accessor `type` property (SCALAR, VEC3, VEC4, ...). */
  datatype Accessor = Accessor(
    bufferView: Option<nat>,
    byteOffset: nat,
    componentType: nat,
    count: nat,
    elementType: string)

  /** Raw byte storage; only its length is modelled. */
  datatype Buffer = Buffer(byteLength: nat)

  /** A byte range of the buffer with index `buffer`. */
  datatype BufferView = BufferView(buffer: nat, byteOffset: nat, byteLength: nat)

  datatype CameraType = Perspective | Orthographic

  /** `node` is the back-reference written by the reference resolver. */
  datatype Camera = Camera(name: string, kind: CameraType, node: Option<nat>)

  datatype LightType = Directional | Point | Spot

  /** A KHR_lights_punctual light; `node` is the resolver's back-reference. */
  datatype Light = Light(name: string, kind: LightType, node: Option<nat>)

  datatype MaterialJson = MaterialJson(name: string)

  /** A material read from the document, or the synthetic default appended after loading. */
  datatype Material = AuthoredMaterial(json: MaterialJson) | DefaultMaterial

  datatype SamplerJson = SamplerJson(magFilter: Option<nat>, minFilter: Option<nat>, wrapS: nat, wrapT: nat)

  /** A sampler read from the document, or the synthetic default appended after loading. */
  datatype Sampler = AuthoredSampler(json: SamplerJson) | DefaultSampler

  datatype Scene = Scene(nodes: seq<nat>)

  datatype Texture = Texture(sampler: Option<nat>, source: Option<nat>)

  datatype Image = Image(uri: string)

  /** The per-node `KHR_lights_punctual` object; its `light` property may be missing. */
  datatype NodeLightRef = NodeLightRef(light: Option<nat>)

  datatype NodeExtensions = NodeExtensions(lightsPunctual: Option<NodeLightRef>)

  datatype Node = Node(
    camera: Option<nat>,
    mesh: Option<nat>,
    children: seq<nat>,
    extensions: Option<NodeExtensions>)

  /** Primitive topology; the constructor default is Triangles. */
  datatype Mode = Points | Lines | LineLoop | LineStrip | Triangles | TriangleStrip | TriangleFan

  /** The KHR_draco_mesh_compression payload: the compressed bytes' buffer
      view and the codec's per-semantic attribute ids. */
  datatype DracoExtension = DracoExtension(bufferView: nat, attributes: AttributeMap)

  datatype PrimitiveExtensions = PrimitiveExtensions(draco: Option<DracoExtension>)

  /** One vertex-attribute slot: semantic, shader input name, accessor index. */
  datatype GlAttribute = GlAttribute(attribute: string, name: string, accessor: nat)

  /** The fields the GPU initialisation pass derives for a primitive. */
  datatype Derived = Derived(
    glAttributes: seq<GlAttribute>,
    defines: seq<string>,
    skip: bool,
    hasWeights: bool,
    hasJoints: bool)

  /** The derived fields as the primitive constructor leaves them. */
  const InitialDerived := Derived([], [], true, false, false)

  /** `material` is an int: the default index `materials.length - 1` is -1
      for a document without materials. */
  datatype Primitive = Primitive(
    attributes: AttributeMap,
    targets: seq<AttributeMap>,
    indices: Option<nat>,
    material: Option<int>,
    mode: Mode,
    extensions: Option<PrimitiveExtensions>,
    derived: Derived)

  datatype Mesh = Mesh(primitives: seq<Primitive>)

  /** The loaded glTF document; `scene` is the default scene to show. */
  datatype Document = Document(
    path: string,
    asset: Asset,
    accessors: seq<Accessor>,
    nodes: seq<Node>,
    scene: Option<nat>,
    scenes: seq<Scene>,
    cameras: seq<Camera>,
    lights: seq<Light>,
    textures: seq<Texture>,
    images: seq<Image>,
    samplers: seq<Sampler>,
    meshes: seq<Mesh>,
    buffers: seq<Buffer>,
    bufferViews: seq<BufferView>,
    materials: seq<Material>)

  /** Where the original code throws a TypeError while initialising a primitive. */
  datatype InitError =
    | AccessorOutOfRange(index: nat)
    | BufferViewOutOfRange(index: nat)
    | BufferOutOfRange(index: nat)
    | UnsupportedGeometry
    | MissingPositionAttribute
}
