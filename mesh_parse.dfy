/**
 * `parseMeshesGltf`: one gltfpack mesh per glTF primitive, in document order.
 * Indexed point primitives are skipped; the index list is read (each value cut
 * to 32 bits), or synthesised as 0, 1, ... for an unindexed primitive that is
 * not a point cloud, and then normalised to a list mode; attributes with an
 * unknown semantic are dropped, and morph-target attributes are tagged with
 * their target number plus one.
 */
module MeshParse {
  import opened Ints
  import opened Options
  import opened Topology
  import opened GltfData

  // Reference definitions.

  /** `unsigned(cgltf_accessor_read_index(...))` for every element. */
  function TruncateAll(v: seq<nat>): (r: seq<uint32>)
    decreases |v|
  {
    if v == [] then [] else TruncateAll(v[..|v| - 1]) + [Truncate32(v[|v| - 1])]
  }

  /** The identity index list `unsigned(0), ..., unsigned(n - 1)`. */
  function Identity(n: nat): (r: seq<uint32>)
  {
    if n == 0 then [] else Identity(n - 1) + [Truncate32(n - 1)]
  }

  /** The vertex count of an unindexed primitive: its first attribute's count, or 0 without attributes. */
  function VertexCount(p: Primitive): (r: nat)
  {
    if |p.attributes| > 0 then p.attributes[0].count else 0
  }

  /** The index list before `fixupIndices`. */
  function InitialIndices(p: Primitive): (r: seq<uint32>)
  {
    match p.indices
    case Some(v) => TruncateAll(v)
    case None => if p.ptype != Points then Identity(VertexCount(p)) else []
  }

  /** The streams of `attrs` with a known semantic, tagged with `target`. */
  function AttributeStreams(attrs: seq<Attribute>, target: nat): (r: seq<Stream>)
    decreases |attrs|
  {
    if attrs == [] then []
    else
      var a := attrs[|attrs| - 1];
      AttributeStreams(attrs[..|attrs| - 1], target)
        + (if a.attrType == Invalid then [] else [Stream(a.attrType, a.index, target, a.count)])
  }

  /** The streams of the morph targets, target `t` tagged `t + 1`. */
  function TargetStreams(targets: seq<seq<Attribute>>): (r: seq<Stream>)
    decreases |targets|
  {
    if targets == [] then []
    else TargetStreams(targets[..|targets| - 1]) + AttributeStreams(targets[|targets| - 1], |targets|)
  }

  function PrimitiveStreams(p: Primitive): (r: seq<Stream>)
  {
    AttributeStreams(p.attributes, 0) + TargetStreams(p.targets)
  }

  /** Indexed point clouds are not supported and are skipped. */
  predicate Skipped(p: Primitive)
  {
    p.ptype == Points && p.indices.Some?
  }

  /** The mesh built for a primitive of mesh `gm` that is not skipped. */
  function ConvertPrimitive(gm: GltfMesh, p: Primitive): (r: Mesh)
    requires !Skipped(p)
  {
    var (indices, ptype) := Normalize(InitialIndices(p), p.ptype);
    Mesh(p.material, ptype, indices, PrimitiveStreams(p), |p.targets|, gm.weights, gm.targetNames, [], None)
  }

  function PrimitiveMeshes(gm: GltfMesh, prims: seq<Primitive>): (r: seq<Mesh>)
    decreases |prims|
  {
    if prims == [] then []
    else
      var p := prims[|prims| - 1];
      PrimitiveMeshes(gm, prims[..|prims| - 1]) + (if Skipped(p) then [] else [ConvertPrimitive(gm, p)])
  }

  /** The meshes `parseMeshesGltf` appends for the document's meshes `gms`. */
  function MeshesOf(gms: seq<GltfMesh>): (r: seq<Mesh>)
    decreases |gms|
  {
    if gms == [] then [] else MeshesOf(gms[..|gms| - 1]) + PrimitiveMeshes(gms[|gms| - 1], gms[|gms| - 1].primitives)
  }

  // Laws.

  lemma {:induction false} TruncateAllAt(v: seq<nat>, i: nat)
    requires i < |v|
    ensures |TruncateAll(v)| == |v| && TruncateAll(v)[i] == Truncate32(v[i])
    decreases |v|
  {
    TruncateAllLength(v[..|v| - 1]);
    if i < |v| - 1 {
      TruncateAllAt(v[..|v| - 1], i);
    }
  }

  lemma {:induction false} TruncateAllLength(v: seq<nat>)
    ensures |TruncateAll(v)| == |v|
    decreases |v|
  {
    if v != [] {
      TruncateAllLength(v[..|v| - 1]);
    }
  }

  lemma {:induction false} IdentityAt(n: nat, i: nat)
    requires i < n
    ensures |Identity(n)| == n && Identity(n)[i] == Truncate32(i)
  {
    IdentityLength(n - 1);
    if i < n - 1 {
      IdentityAt(n - 1, i);
    }
  }

  lemma {:induction false} IdentityLength(n: nat)
    ensures |Identity(n)| == n
  {
    if n > 0 {
      IdentityLength(n - 1);
    }
  }

  /** An indexed primitive keeps its indices, each cut to 32 bits. */
  lemma IndexedIndices(p: Primitive)
    requires p.indices.Some?
    ensures |InitialIndices(p)| == |p.indices.value|
    ensures forall i :: 0 <= i < |p.indices.value| ==> InitialIndices(p)[i] == Truncate32(p.indices.value[i])
  {
    TruncateAllLength(p.indices.value);
    forall i | 0 <= i < |p.indices.value|
      ensures InitialIndices(p)[i] == Truncate32(p.indices.value[i])
    {
      TruncateAllAt(p.indices.value, i);
    }
  }

  /**
   * An unindexed primitive that is not a point cloud gets the indices
   * 0 .. count - 1, where count is the first attribute's element count, or 0.
   */
  lemma UnindexedIndices(p: Primitive)
    requires p.indices.None? && p.ptype != Points
    ensures |InitialIndices(p)| == VertexCount(p)
    ensures forall i :: 0 <= i < VertexCount(p) ==> InitialIndices(p)[i] == Truncate32(i)
  {
    IdentityLength(VertexCount(p));
    forall i | 0 <= i < VertexCount(p)
      ensures InitialIndices(p)[i] == Truncate32(i)
    {
      IdentityAt(VertexCount(p), i);
    }
  }

  /** An unindexed point cloud gets no indices at all, and stays a point cloud. */
  lemma UnindexedPoints(gm: GltfMesh, p: Primitive)
    requires p.indices.None? && p.ptype == Points
    ensures ConvertPrimitive(gm, p).indices == [] && ConvertPrimitive(gm, p).ptype == Points
  {
  }

  /**
   * Every index of an unindexed primitive, after normalisation, names one of
   * its vertices; an index cut to 32 bits is never larger than before.
   */
  lemma UnindexedInBounds(gm: GltfMesh, p: Primitive)
    requires p.indices.None?
    ensures forall v :: v in ConvertPrimitive(gm, p).indices ==> (v as int) < VertexCount(p)
  {
    if p.ptype != Points {
      UnindexedIndices(p);
      forall v | v in InitialIndices(p)
        ensures (v as int) < VertexCount(p)
      {
        var i :| 0 <= i < |InitialIndices(p)| && InitialIndices(p)[i] == v;
      }
    }
    NormalizeInBounds(InitialIndices(p), p.ptype, VertexCount(p));
  }

  /** Every mesh is built in a list mode, with the primitive's material and a target count. */
  lemma ConvertPrimitiveShape(gm: GltfMesh, p: Primitive)
    requires !Skipped(p)
    ensures var m := ConvertPrimitive(gm, p);
      IsListType(m.ptype) && m.material == p.material && m.targets == |p.targets|
      && m.targetWeights == gm.weights && m.targetNames == gm.targetNames && m.nodes == [] && m.skin == None
  {
    NormalizeType(InitialIndices(p), p.ptype);
  }

  /**
   * The streams of a list of attributes are exactly its attributes with a
   * known semantic, each tagged with `target` and with its element count.
   */
  lemma {:induction false} AttributeStreamsFilter(attrs: seq<Attribute>, target: nat)
    ensures forall s :: s in AttributeStreams(attrs, target) ==>
      s.attrType != Invalid && s.target == target && Attribute(s.attrType, s.index, s.count) in attrs
    ensures forall i :: 0 <= i < |attrs| && attrs[i].attrType != Invalid ==>
      Stream(attrs[i].attrType, attrs[i].index, target, attrs[i].count) in AttributeStreams(attrs, target)
    ensures (forall a :: a in attrs ==> a.attrType != Invalid) ==> |AttributeStreams(attrs, target)| == |attrs|
    ensures (forall a :: a in attrs ==> a.attrType == Invalid) ==> AttributeStreams(attrs, target) == []
    decreases |attrs|
  {
    if attrs != [] {
      var init := attrs[..|attrs| - 1];
      AttributeStreamsFilter(init, target);
      assert attrs == init + [attrs[|attrs| - 1]];
    }
    AttributeStreamsComplete(attrs, target);
  }

  lemma {:induction false} AttributeStreamsComplete(attrs: seq<Attribute>, target: nat)
    ensures forall i :: 0 <= i < |attrs| && attrs[i].attrType != Invalid ==>
      Stream(attrs[i].attrType, attrs[i].index, target, attrs[i].count) in AttributeStreams(attrs, target)
    decreases |attrs|
  {
    if attrs != [] {
      var init := attrs[..|attrs| - 1];
      AttributeStreamsComplete(init, target);
      var r := AttributeStreams(attrs, target);
      assert r == AttributeStreams(init, target) + r[|AttributeStreams(init, target)|..];
      forall i | 0 <= i < |attrs| && attrs[i].attrType != Invalid
        ensures Stream(attrs[i].attrType, attrs[i].index, target, attrs[i].count) in r
      {
        if i < |init| {
          assert attrs[i] == init[i];
        }
      }
    }
  }

  /** Morph-target streams carry the number of their target plus one. */
  lemma {:induction false} TargetStreamsNumbered(targets: seq<seq<Attribute>>)
    ensures forall s :: s in TargetStreams(targets) ==> 1 <= s.target <= |targets| && s.attrType != Invalid
    decreases |targets|
  {
    if targets != [] {
      TargetStreamsNumbered(targets[..|targets| - 1]);
      AttributeStreamsFilter(targets[|targets| - 1], |targets|);
    }
  }

  /** A mesh's streams: the base attributes first, tagged 0, then the morph targets'. */
  lemma PrimitiveStreamsTagged(p: Primitive)
    ensures forall s :: s in PrimitiveStreams(p) ==> s.attrType != Invalid && s.target <= |p.targets|
    ensures forall i :: 0 <= i < |AttributeStreams(p.attributes, 0)| ==> PrimitiveStreams(p)[i].target == 0
    ensures forall i :: |AttributeStreams(p.attributes, 0)| <= i < |PrimitiveStreams(p)| ==> PrimitiveStreams(p)[i].target >= 1
  {
    AttributeStreamsFilter(p.attributes, 0);
    TargetStreamsNumbered(p.targets);
    var base := AttributeStreams(p.attributes, 0);
    forall i | 0 <= i < |base|
      ensures PrimitiveStreams(p)[i].target == 0
    {
      assert PrimitiveStreams(p)[i] == base[i];
    }
    forall i | |base| <= i < |PrimitiveStreams(p)|
      ensures PrimitiveStreams(p)[i].target >= 1
    {
      assert PrimitiveStreams(p)[i] == TargetStreams(p.targets)[i - |base|];
    }
  }

  /** A glTF mesh whose primitives are all indexed point clouds contributes no mesh. */
  lemma {:induction false} PrimitiveMeshesAllSkipped(gm: GltfMesh, prims: seq<Primitive>)
    requires forall p :: p in prims ==> Skipped(p)
    ensures PrimitiveMeshes(gm, prims) == []
    decreases |prims|
  {
    if prims != [] {
      var init := prims[..|prims| - 1];
      assert forall p :: p in init ==> p in prims;
      PrimitiveMeshesAllSkipped(gm, init);
    }
  }

  /** Otherwise, with no primitive skipped, it contributes one mesh per primitive, in order. */
  lemma {:induction false} PrimitiveMeshesNoneSkipped(gm: GltfMesh, prims: seq<Primitive>)
    requires forall p :: p in prims ==> !Skipped(p)
    ensures |PrimitiveMeshes(gm, prims)| == |prims|
    ensures forall i :: 0 <= i < |prims| ==> PrimitiveMeshes(gm, prims)[i] == ConvertPrimitive(gm, prims[i])
    decreases |prims|
  {
    if prims != [] {
      var init, last := prims[..|prims| - 1], prims[|prims| - 1];
      assert forall p :: p in init ==> p in prims;
      PrimitiveMeshesNoneSkipped(gm, init);
      var r := PrimitiveMeshes(gm, prims);
      PrimitiveMeshesLast(gm, prims);
      forall i | 0 <= i < |prims|
        ensures r[i] == ConvertPrimitive(gm, prims[i])
      {
        if i < |init| {
          assert prims[i] == init[i];
        }
      }
    }
  }

  lemma PrimitiveMeshesLast(gm: GltfMesh, prims: seq<Primitive>)
    requires prims != [] && !Skipped(prims[|prims| - 1])
    ensures PrimitiveMeshes(gm, prims)
      == PrimitiveMeshes(gm, prims[..|prims| - 1]) + [ConvertPrimitive(gm, prims[|prims| - 1])]
  {
  }

  lemma {:induction false} PrimitiveMeshesUnattached(gm: GltfMesh, prims: seq<Primitive>)
    ensures forall m :: m in PrimitiveMeshes(gm, prims) ==> m.nodes == [] && m.skin == None
    decreases |prims|
  {
    if prims != [] {
      PrimitiveMeshesUnattached(gm, prims[..|prims| - 1]);
    }
  }

  /** The new meshes are not yet attached to any node. */
  lemma {:induction false} MeshesOfUnattached(gms: seq<GltfMesh>)
    ensures forall m :: m in MeshesOf(gms) ==> m.nodes == [] && m.skin == None
    decreases |gms|
  {
    if gms != [] {
      MeshesOfUnattached(gms[..|gms| - 1]);
      PrimitiveMeshesUnattached(gms[|gms| - 1], gms[|gms| - 1].primitives);
    }
  }

  // The loops.

  /** The index read-out of `parseMeshesGltf`: resize, then fill element by element. */
  method ReadIndices(p: Primitive) returns (indices: seq<uint32>)
    ensures indices == InitialIndices(p)
  {
    if p.indices.Some? {
      var v := p.indices.value;
      indices := seq(|v|, _ => 0);
      var i := 0;
      while i < |v|
        invariant 0 <= i <= |v| && |indices| == |v|
        invariant forall k :: 0 <= k < i ==> indices[k] == Truncate32(v[k])
      {
        indices := indices[i := Truncate32(v[i])];
        i := i + 1;
      }
      IndexedIndices(p);
    } else if p.ptype != Points {
      var count := VertexCount(p);
      indices := seq(count, _ => 0);
      var i := 0;
      while i < count
        invariant 0 <= i <= count && |indices| == count
        invariant forall k :: 0 <= k < i ==> indices[k] == Truncate32(k)
      {
        indices := indices[i := Truncate32(i)];
        i := i + 1;
      }
      UnindexedIndices(p);
    } else {
      indices := [];
    }
  }

  /** Appends a stream for every attribute of `attrs` with a known semantic. */
  method AppendStreams(streams: seq<Stream>, attrs: seq<Attribute>, target: nat) returns (result: seq<Stream>)
    ensures result == streams + AttributeStreams(attrs, target)
  {
    result := streams;
    var ai := 0;
    while ai < |attrs|
      invariant 0 <= ai <= |attrs|
      invariant result == streams + AttributeStreams(attrs[..ai], target)
    {
      assert attrs[..ai + 1][..ai] == attrs[..ai];
      var attr := attrs[ai];
      if attr.attrType != Invalid {
        result := result + [Stream(attr.attrType, attr.index, target, attr.count)];
      }
      ai := ai + 1;
    }
    assert attrs[..|attrs|] == attrs;
  }

  method ReadStreams(p: Primitive) returns (streams: seq<Stream>)
    ensures streams == PrimitiveStreams(p)
  {
    streams := AppendStreams([], p.attributes, 0);
    var ti := 0;
    while ti < |p.targets|
      invariant 0 <= ti <= |p.targets|
      invariant streams == AttributeStreams(p.attributes, 0) + TargetStreams(p.targets[..ti])
    {
      assert p.targets[..ti + 1][..ti] == p.targets[..ti];
      streams := AppendStreams(streams, p.targets[ti], ti + 1);
      ti := ti + 1;
    }
    assert p.targets[..|p.targets|] == p.targets;
  }

  /** The body of the primitive loop, for a primitive that is not skipped. */
  method ParsePrimitive(gm: GltfMesh, p: Primitive) returns (m: Mesh)
    requires !Skipped(p)
    ensures m == ConvertPrimitive(gm, p)
  {
    var indices := ReadIndices(p);
    var fixed, fixedType := FixupIndices(indices, p.ptype);
    var streams := ReadStreams(p);
    m := Mesh(p.material, fixedType, fixed, streams, |p.targets|, gm.weights, gm.targetNames, [], None);
  }

  lemma PrimitiveMeshesExtend(meshes: seq<Mesh>, gm: GltfMesh, prims: seq<Primitive>, i: nat,
                              before: seq<Mesh>, after: seq<Mesh>)
    requires i < |prims| && before == meshes + PrimitiveMeshes(gm, prims[..i])
    requires after == before + (if Skipped(prims[i]) then [] else [ConvertPrimitive(gm, prims[i])])
    ensures after == meshes + PrimitiveMeshes(gm, prims[..i + 1])
  {
    assert prims[..i + 1][..i] == prims[..i];
  }

  lemma MeshesOfExtend(meshes: seq<Mesh>, gms: seq<GltfMesh>, i: nat, before: seq<Mesh>, after: seq<Mesh>)
    requires i < |gms| && before == meshes + MeshesOf(gms[..i])
    requires after == before + PrimitiveMeshes(gms[i], gms[i].primitives)
    ensures after == meshes + MeshesOf(gms[..i + 1])
  {
    assert gms[..i + 1][..i] == gms[..i];
    assert MeshesOf(gms[..i + 1]) == MeshesOf(gms[..i]) + PrimitiveMeshes(gms[i], gms[i].primitives);
  }

  /** The primitive loop of `parseMeshesGltf` for one glTF mesh. */
  method AppendPrimitiveMeshes(meshes: seq<Mesh>, mesh: GltfMesh) returns (result: seq<Mesh>)
    ensures result == meshes + PrimitiveMeshes(mesh, mesh.primitives)
  {
    result := meshes;
    var pi := 0;
    while pi < |mesh.primitives|
      invariant 0 <= pi <= |mesh.primitives|
      invariant result == meshes + PrimitiveMeshes(mesh, mesh.primitives[..pi])
    {
      var primitive := mesh.primitives[pi];
      ghost var before := result;
      if Skipped(primitive) {
        PrimitiveMeshesExtend(meshes, mesh, mesh.primitives, pi, before, result);
        pi := pi + 1;
        continue;
      }
      var m := ParsePrimitive(mesh, primitive);
      result := result + [m];
      PrimitiveMeshesExtend(meshes, mesh, mesh.primitives, pi, before, result);
      pi := pi + 1;
    }
    assert mesh.primitives[..|mesh.primitives|] == mesh.primitives;
  }

  /** `parseMeshesGltf`: appends the meshes of the document to `meshes`. */
  method ParseMeshes(gms: seq<GltfMesh>, meshes: seq<Mesh>) returns (result: seq<Mesh>)
    ensures result == meshes + MeshesOf(gms)
  {
    result := meshes;
    var mi := 0;
    while mi < |gms|
      invariant 0 <= mi <= |gms|
      invariant result == meshes + MeshesOf(gms[..mi])
    {
      ghost var before := result;
      result := AppendPrimitiveMeshes(result, gms[mi]);
      MeshesOfExtend(meshes, gms, mi, before, result);
      mi := mi + 1;
    }
    assert gms[..|gms|] == gms;
  }
}
