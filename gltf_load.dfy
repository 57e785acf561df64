/**
 * `parseGltf`: runs cgltf's parse, buffer load and validation (each only when
 * the previous step succeeded), then reports the first of four problems, in
 * order: a cgltf failure, a required Draco extension, a required
 * `MESHOPT_compression` extension, a buffer without data. Only a document
 * with no problem is turned into meshes. The three cgltf steps are inputs:
 * their result codes and the document they produce.
 */
module GltfLoad {
  import opened Options
  import opened GltfData
  import opened MeshParse
  import opened MeshNodes

  const DracoExtension: string := "KHR_draco_mesh_compression"
  const MeshoptExtension: string := "MESHOPT_compression"

  const DracoMessage: string := "file requires Draco mesh compression support"
  const MeshoptMessage: string := "file has already been compressed using gltfpack"
  const DummyBufferMessage: string := "buffer has no data"

  /** `getError`: the message for a cgltf failure; `hasData` says whether cgltf produced a document. */
  function GetError(result: CgltfResult, hasData: bool): (msg: string)
    ensures msg != []
  {
    match result
    case FileNotFound => if hasData then "resource not found" else "file not found"
    case IoError => "I/O error"
    case InvalidJson => "invalid JSON"
    case InvalidGltf => "invalid GLTF"
    case OutOfMemory => "out of memory"
    case LegacyGltf => "legacy GLTF"
    case DataTooShort => if hasData then "buffer too short" else "not a GLTF file"
    case UnknownFormat => if hasData then "unknown resource format" else "not a GLTF file"
    case _ => "unknown error"
  }

  /** The result codes whose message depends on whether a document exists. */
  predicate DependsOnData(result: CgltfResult)
  {
    result == FileNotFound || result == DataTooShort || result == UnknownFormat
  }

  /** Whether a document was produced changes the message only for a missing file, short data or an unknown format. */
  lemma GetErrorData(result: CgltfResult)
    ensures GetError(result, true) != GetError(result, false) <==> DependsOnData(result)
  {
  }

  /**
   * Without a document, short data and an unknown format both read "not a
   * GLTF file", and nothing else does.
   */
  lemma GetErrorNotGltf(result: CgltfResult, hasData: bool)
    ensures GetError(result, hasData) == "not a GLTF file" <==> !hasData && (result == DataTooShort || result == UnknownFormat)
  {
  }

  /**
   * Two distinct result codes share a message only in two cases: both are
   * "not a GLTF file", or neither is a failure cgltf names ("unknown error").
   */
  lemma GetErrorDistinct(a: CgltfResult, b: CgltfResult, hasData: bool)
    requires a != b && GetError(a, hasData) == GetError(b, hasData)
    ensures (!hasData && {a, b} == {DataTooShort, UnknownFormat}) || {a, b} == {Success, InvalidOptions}
  {
  }

  /** No cgltf message is one of gltfpack's own, so the caller can tell the two apart. */
  lemma GetErrorNotOwn(result: CgltfResult, hasData: bool)
    ensures GetError(result, hasData) != DracoMessage
    ensures GetError(result, hasData) != MeshoptMessage
    ensures GetError(result, hasData) != DummyBufferMessage
  {
  }

  /** `requiresExtension`: a scan of the required-extension names that stops at the first match. */
  method RequiresExtension(extensions: seq<string>, name: string) returns (found: bool)
    ensures found <==> name in extensions
  {
    var i := 0;
    while i < |extensions|
      invariant 0 <= i <= |extensions|
      invariant name !in extensions[..i]
    {
      if extensions[i] == name {
        return true;
      }
      i := i + 1;
    }
    assert extensions[..i] == extensions;
    return false;
  }

  /** The chain of results: parse, then load buffers, then validate, keeping the first failure. */
  function CombinedResult(parse: CgltfResult, load: CgltfResult, validate: CgltfResult): (r: CgltfResult)
  {
    if parse != Success then parse else if load != Success then load else validate
  }

  /** The chain fails exactly when some step fails, and reports the earliest failing step. */
  lemma CombinedResultFirst(parse: CgltfResult, load: CgltfResult, validate: CgltfResult)
    ensures CombinedResult(parse, load, validate) == Success <==> parse == Success && load == Success && validate == Success
    ensures parse != Success ==> CombinedResult(parse, load, validate) == parse
    ensures parse == Success && load != Success ==> CombinedResult(parse, load, validate) == load
    ensures parse == Success && load == Success ==> CombinedResult(parse, load, validate) == validate
  {
  }

  /** The error `parseGltf` sets, `None` for a null error pointer. */
  function LoadError(parse: CgltfResult, load: CgltfResult, validate: CgltfResult, data: Option<Document>): (r: Option<string>)
    requires parse == Success ==> data.Some?
  {
    var result := CombinedResult(parse, load, validate);
    if result != Success then Some(GetError(result, data.Some?))
    else if DracoExtension in data.value.extensionsRequired then Some(DracoMessage)
    else if MeshoptExtension in data.value.extensionsRequired then Some(MeshoptMessage)
    else if data.value.needsDummyBuffers then Some(DummyBufferMessage)
    else None
  }

  /** No error is set exactly when every cgltf step succeeds and none of the three checks fires. */
  lemma LoadErrorNone(parse: CgltfResult, load: CgltfResult, validate: CgltfResult, data: Option<Document>)
    requires parse == Success ==> data.Some?
    ensures LoadError(parse, load, validate, data).None? <==>
      parse == Success && load == Success && validate == Success
      && DracoExtension !in data.value.extensionsRequired
      && MeshoptExtension !in data.value.extensionsRequired
      && !data.value.needsDummyBuffers
  {
    CombinedResultFirst(parse, load, validate);
  }

  /**
   * The first problem wins: a cgltf failure hides the checks; a required
   * Draco extension hides the other two; `MESHOPT_compression` hides the
   * missing buffer data.
   */
  lemma LoadErrorOrder(parse: CgltfResult, load: CgltfResult, validate: CgltfResult, data: Option<Document>)
    requires parse == Success ==> data.Some?
    ensures var e := LoadError(parse, load, validate, data);
      && (parse != Success ==> e == Some(GetError(parse, data.Some?)))
      && (parse == Success && load != Success ==> e == Some(GetError(load, true)))
      && (parse == Success && load == Success && validate != Success ==> e == Some(GetError(validate, true)))
      && (CombinedResult(parse, load, validate) == Success && DracoExtension in data.value.extensionsRequired
          ==> e == Some(DracoMessage))
      && (CombinedResult(parse, load, validate) == Success && DracoExtension !in data.value.extensionsRequired
          && MeshoptExtension in data.value.extensionsRequired
          ==> e == Some(MeshoptMessage))
  {
    CombinedResultFirst(parse, load, validate);
  }

  /**
   * The message names its cause: a cgltf message says the chain failed, and
   * each of gltfpack's own messages says its check fired with every earlier
   * one passed.
   */
  lemma LoadErrorCause(parse: CgltfResult, load: CgltfResult, validate: CgltfResult, data: Option<Document>)
    requires parse == Success ==> data.Some?
    ensures var e := LoadError(parse, load, validate, data); var ok := CombinedResult(parse, load, validate) == Success;
      && (e == Some(DracoMessage) ==> ok && DracoExtension in data.value.extensionsRequired)
      && (e == Some(MeshoptMessage) ==>
            ok && DracoExtension !in data.value.extensionsRequired && MeshoptExtension in data.value.extensionsRequired)
      && (e == Some(DummyBufferMessage) ==>
            ok && DracoExtension !in data.value.extensionsRequired
            && MeshoptExtension !in data.value.extensionsRequired && data.value.needsDummyBuffers)
  {
    var result := CombinedResult(parse, load, validate);
    if result != Success {
      GetErrorNotOwn(result, data.Some?);
    }
  }

  /**
   * A document made into meshes from an empty mesh list ends with every node
   * that instances a mesh attached exactly once, and each mesh's skin is that
   * of all its nodes.
   */
  lemma LoadedNodesAttachedOnce(doc: Document)
    requires MeshesInRange(doc.nodes, |MeshesOf(doc.meshes)|)
    ensures var meshes := MeshNodesOf(MeshesOf(doc.meshes), doc.nodes);
      AttachedOnce(meshes, doc.nodes, |doc.nodes|) && SkinsAgree(meshes, doc.nodes)
  {
    var made := MeshesOf(doc.meshes);
    MeshesOfUnattached(doc.meshes);
    assert forall k :: 0 <= k < |made| ==> made[k] in made;
    MeshNodesOfAttachesOnce(made, doc.nodes);
    MeshNodesOfSkins(made, doc.nodes);
  }

  /**
   * `parseGltf`. Returns the document, or `None` (a null pointer) exactly
   * when an error is set; on error `meshes` is left as it was, otherwise the
   * document's primitives are appended and the nodes attached.
   */
  method ParseGltf(parse: CgltfResult, load: CgltfResult, validate: CgltfResult, data: Option<Document>, meshes: seq<Mesh>)
    returns (doc: Option<Document>, error: Option<string>, meshesOut: seq<Mesh>)
    requires parse == Success ==> data.Some?
    requires LoadError(parse, load, validate, data).None? ==>
      MeshesInRange(data.value.nodes, |meshes| + |MeshesOf(data.value.meshes)|)
    ensures error == LoadError(parse, load, validate, data)
    ensures doc.None? <==> error.Some?
    ensures error.Some? ==> meshesOut == meshes
    ensures error.None? ==>
      doc == data && meshesOut == MeshNodesOf(meshes + MeshesOf(data.value.meshes), data.value.nodes)
  {
    var result := if parse == Success then load else parse;
    result := if result == Success then validate else result;
    error := None;
    if result != Success {
      error := Some(GetError(result, data.Some?));
    } else {
      var draco := RequiresExtension(data.value.extensionsRequired, DracoExtension);
      if draco {
        error := Some(DracoMessage);
      } else {
        var meshopt := RequiresExtension(data.value.extensionsRequired, MeshoptExtension);
        if meshopt {
          error := Some(MeshoptMessage);
        } else if data.value.needsDummyBuffers {
          error := Some(DummyBufferMessage);
        }
      }
    }
    if error.Some? {
      return None, error, meshes;
    }
    meshesOut := ParseMeshes(data.value.meshes, meshes);
    meshesOut := ParseMeshNodes(data.value.nodes, meshesOut);
    doc := data;
  }
}
