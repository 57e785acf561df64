/**
 * The parts of a parsed glTF document that gltfpack's loader reads, as cgltf
 * delivers them, and gltfpack's own mesh record that it builds from them.
 * Pointers into cgltf's arrays (a primitive's material, a node's mesh and
 * skin) are indices; a null pointer is `None`.
 */
module GltfData {
  import opened Ints
  import opened Options
  import opened Topology

  /** `cgltf_result`. */
  datatype CgltfResult =
    | Success
    | DataTooShort
    | UnknownFormat
    | InvalidJson
    | InvalidGltf
    | InvalidOptions
    | FileNotFound
    | IoError
    | OutOfMemory
    | LegacyGltf

  /** `cgltf_attribute_type`. */
  datatype AttributeType = Invalid | Position | Normal | Tangent | Texcoord | Color | Joints | Weights

  /**
   * A `cgltf_attribute`: its semantic, its set index (the `N` of `TEXCOORD_N`)
   * and the element count of its accessor. The float payload is not modelled.
   */
  datatype Attribute = Attribute(attrType: AttributeType, index: int, count: nat)

  /**
   * A `cgltf_primitive`. `indices` holds what `cgltf_accessor_read_index`
   * returns for each element of the index accessor, or `None` when the
   * primitive has no index accessor; `targets` holds the attributes of each
   * morph target.
   */
  datatype Primitive = Primitive(
    ptype: PrimitiveType,
    indices: Option<seq<nat>>,
    attributes: seq<Attribute>,
    targets: seq<seq<Attribute>>,
    material: Option<nat>)

  /** A `cgltf_mesh`: its primitives, default morph weights and target names. */
  datatype GltfMesh = GltfMesh(primitives: seq<Primitive>, weights: seq<real>, targetNames: seq<string>)

  /** A `cgltf_node`: the mesh and skin it refers to. */
  datatype Node = Node(mesh: Option<nat>, skin: Option<nat>)

  /**
   * The document after parsing: the required-extension names, meshes and
   * nodes. Whether some accessor or image refers to a buffer without data
   * (`needsDummyBuffers`) is given as a flag.
   */
  datatype Document = Document(
    extensionsRequired: seq<string>,
    meshes: seq<GltfMesh>,
    nodes: seq<Node>,
    needsDummyBuffers: bool)

  /**
   * gltfpack's `Stream`: an attribute's semantic and set index, the morph
   * target it belongs to (0 for the base mesh, `t + 1` for target `t`) and the
   * number of elements read from its accessor.
   */
  datatype Stream = Stream(attrType: AttributeType, index: int, target: nat, count: nat)

  /**
   * gltfpack's `Mesh`: one per glTF primitive. `nodes` holds the indices of
   * the nodes that instance it and `skin` their common skin.
   */
  datatype Mesh = Mesh(
    material: Option<nat>,
    ptype: PrimitiveType,
    indices: seq<uint32>,
    streams: seq<Stream>,
    targets: nat,
    targetWeights: seq<real>,
    targetNames: seq<string>,
    nodes: seq<nat>,
    skin: Option<nat>)
}
