/**
 * `parseMeshNodesGltf`: attaches every node that instances a mesh to that
 * mesh, duplicating the mesh when the node's skin differs from the skin of the
 * nodes already attached, and then empties the geometry of every mesh no node
 * uses (the rest of gltfpack reads a mesh without nodes as a world-space mesh).
 *
 * A node's `mesh` is the position, in the `meshes` vector, that the source
 * computes as `node.mesh - data->meshes`; a node is identified by its index in
 * the document's node array.
 */
module MeshNodes {
  import opened Options
  import opened GltfData

  /** Every node's mesh position, if any, lies below `count`. */
  predicate MeshesInRange(nodes: seq<Node>, count: nat)
  {
    forall i :: 0 <= i < |nodes| && nodes[i].mesh.Some? ==> nodes[i].mesh.value < count
  }

  /** Attaches node `i` to mesh `m` with the node's skin. */
  function Attach(m: Mesh, i: nat, node: Node): (r: Mesh)
  {
    m.(nodes := m.nodes + [i], skin := node.skin)
  }

  /**
   * The loop body as the source writes it: the duplicate is a copy of the
   * mesh with the nodes it already has, and node `i` after them.
   */
  function AttachNodeAsWritten(meshes: seq<Mesh>, i: nat, node: Node): (r: seq<Mesh>)
    requires node.mesh.Some? ==> node.mesh.value < |meshes|
  {
    if node.mesh.None? then meshes
    else
      var k := node.mesh.value;
      var m := meshes[k];
      if m.nodes == [] || m.skin == node.skin then meshes[k := Attach(m, i, node)]
      else meshes + [Attach(m, i, node)]
  }

  /**
   * The loop body with the duplicate holding node `i` alone: the mesh's
   * geometry is copied, its node list is not.
   */
  function AttachNode(meshes: seq<Mesh>, i: nat, node: Node): (r: seq<Mesh>)
    requires node.mesh.Some? ==> node.mesh.value < |meshes|
  {
    if node.mesh.None? then meshes
    else
      var k := node.mesh.value;
      var m := meshes[k];
      if m.nodes == [] || m.skin == node.skin then meshes[k := Attach(m, i, node)]
      else meshes + [Attach(m.(nodes := []), i, node)]
  }

  /** The attachment loop over the first `n` nodes. */
  function AttachAll(meshes: seq<Mesh>, nodes: seq<Node>, n: nat): (r: seq<Mesh>)
    requires n <= |nodes| && MeshesInRange(nodes, |meshes|)
    ensures |r| >= |meshes|
  {
    if n == 0 then meshes
    else
      var prev := AttachAll(meshes, nodes, n - 1);
      AttachNode(prev, n - 1, nodes[n - 1])
  }

  /** The final pass: a mesh without nodes loses its streams and indices. */
  function Clear(m: Mesh): (r: Mesh)
  {
    if m.nodes == [] then m.(streams := [], indices := []) else m
  }

  function ClearUnused(meshes: seq<Mesh>): (r: seq<Mesh>)
  {
    seq(|meshes|, k requires 0 <= k < |meshes| => Clear(meshes[k]))
  }

  /** What `parseMeshNodesGltf` leaves in `meshes`. */
  function MeshNodesOf(meshes: seq<Mesh>, nodes: seq<Node>): (r: seq<Mesh>)
    requires MeshesInRange(nodes, |meshes|)
  {
    ClearUnused(AttachAll(meshes, nodes, |nodes|))
  }

  // Everything but the node list and skin.
  predicate SameGeometry(a: Mesh, b: Mesh)
  {
    a.(nodes := [], skin := None) == b.(nodes := [], skin := None)
  }

  /** Each mesh's skin is the skin of every node attached to it. */
  predicate SkinsAgree(meshes: seq<Mesh>, nodes: seq<Node>)
  {
    forall k, j :: 0 <= k < |meshes| && 0 <= j < |meshes[k].nodes| ==>
      meshes[k].nodes[j] < |nodes| && nodes[meshes[k].nodes[j]].skin == meshes[k].skin
  }

  // One step of the loop.

  /** A node without a mesh is ignored. */
  lemma AttachNoMesh(meshes: seq<Mesh>, i: nat, node: Node)
    requires node.mesh.None?
    ensures AttachNode(meshes, i, node) == meshes
  {
  }

  /**
   * A node whose mesh has no nodes yet, or the same skin, is appended to that
   * mesh, which takes the node's skin; nothing else changes.
   */
  lemma AttachJoins(meshes: seq<Mesh>, i: nat, node: Node)
    requires node.mesh.Some? && node.mesh.value < |meshes|
    requires var m := meshes[node.mesh.value]; m.nodes == [] || m.skin == node.skin
    ensures var r := AttachNode(meshes, i, node); var k := node.mesh.value;
      |r| == |meshes| && r[k].nodes == meshes[k].nodes + [i] && r[k].skin == node.skin
      && SameGeometry(r[k], meshes[k])
      && forall j :: 0 <= j < |meshes| && j != k ==> r[j] == meshes[j]
  {
  }

  /**
   * Otherwise exactly one mesh is added at the end: a copy of the geometry of
   * the node's mesh, with this node alone and its skin; the others are unchanged.
   */
  lemma AttachDuplicates(meshes: seq<Mesh>, i: nat, node: Node)
    requires node.mesh.Some? && node.mesh.value < |meshes|
    requires var m := meshes[node.mesh.value]; m.nodes != [] && m.skin != node.skin
    ensures var r := AttachNode(meshes, i, node);
      |r| == |meshes| + 1 && r[..|meshes|] == meshes
      && SameGeometry(r[|meshes|], meshes[node.mesh.value])
      && r[|meshes|].nodes == [i] && r[|meshes|].skin == node.skin
  {
    assert (meshes + [Attach(meshes[node.mesh.value].(nodes := []), i, node)])[..|meshes|] == meshes;
  }

  // The whole attachment loop.

  /** Node `x` is attached to some mesh. */
  predicate Placed(meshes: seq<Mesh>, x: nat)
  {
    exists k, j :: 0 <= k < |meshes| && 0 <= j < |meshes[k].nodes| && meshes[k].nodes[j] == x
  }

  /**
   * The attachments after the first `n` nodes: every attached node is one of
   * them and instances a mesh, no node is attached twice (to the same mesh or
   * to two), and every one of them that instances a mesh is attached.
   */
  predicate AttachedOnce(meshes: seq<Mesh>, nodes: seq<Node>, n: nat)
  {
    n <= |nodes|
    && (forall k, j :: 0 <= k < |meshes| && 0 <= j < |meshes[k].nodes| ==>
          meshes[k].nodes[j] < n && nodes[meshes[k].nodes[j]].mesh.Some?)
    && (forall k1, j1, k2, j2 ::
          0 <= k1 < |meshes| && 0 <= j1 < |meshes[k1].nodes| && 0 <= k2 < |meshes| && 0 <= j2 < |meshes[k2].nodes|
          && meshes[k1].nodes[j1] == meshes[k2].nodes[j2]
          ==> k1 == k2 && j1 == j2)
    && (forall x :: 0 <= x < n && nodes[x].mesh.Some? ==> Placed(meshes, x))
  }

  /**
   * A new entry `i` at position (`k`, `p`) of meshes whose other entries are
   * those of `meshes`: the attachments stay exact, now over `i + 1` nodes.
   */
  lemma AddKeepsAttachedOnce(meshes: seq<Mesh>, nodes: seq<Node>, i: nat, r: seq<Mesh>, k: nat, p: nat)
    requires i < |nodes| && nodes[i].mesh.Some? && AttachedOnce(meshes, nodes, i)
    requires k < |r| && |r| >= |meshes| && p < |r[k].nodes| && r[k].nodes[p] == i
    requires forall q, j :: 0 <= q < |r| && 0 <= j < |r[q].nodes| && (q != k || j != p) ==>
      q < |meshes| && j < |meshes[q].nodes| && r[q].nodes[j] == meshes[q].nodes[j]
    requires forall q, j :: 0 <= q < |meshes| && 0 <= j < |meshes[q].nodes| ==>
      q < |r| && j < |r[q].nodes| && r[q].nodes[j] == meshes[q].nodes[j]
    ensures AttachedOnce(r, nodes, i + 1)
  {
    forall q, j | 0 <= q < |r| && 0 <= j < |r[q].nodes|
      ensures r[q].nodes[j] < i + 1 && nodes[r[q].nodes[j]].mesh.Some?
      ensures r[q].nodes[j] == i ==> q == k && j == p
    {
      if q != k || j != p {
        assert r[q].nodes[j] == meshes[q].nodes[j];
      }
    }
    forall k1, j1, k2, j2 | 0 <= k1 < |r| && 0 <= j1 < |r[k1].nodes| && 0 <= k2 < |r| && 0 <= j2 < |r[k2].nodes|
      && r[k1].nodes[j1] == r[k2].nodes[j2]
      ensures k1 == k2 && j1 == j2
    {
      if r[k1].nodes[j1] != i {
        assert r[k1].nodes[j1] == meshes[k1].nodes[j1] && r[k2].nodes[j2] == meshes[k2].nodes[j2];
      }
    }
    forall x | 0 <= x < i + 1 && nodes[x].mesh.Some?
      ensures Placed(r, x)
    {
      if x != i {
        var q, j :| 0 <= q < |meshes| && 0 <= j < |meshes[q].nodes| && meshes[q].nodes[j] == x;
        assert r[q].nodes[j] == x;
      }
    }
  }

  /** One step of the loop keeps the attachments exact. */
  lemma AttachKeepsAttachedOnce(meshes: seq<Mesh>, nodes: seq<Node>, i: nat, r: seq<Mesh>)
    requires i < |nodes| && (nodes[i].mesh.Some? ==> nodes[i].mesh.value < |meshes|)
    requires AttachedOnce(meshes, nodes, i) && r == AttachNode(meshes, i, nodes[i])
    ensures AttachedOnce(r, nodes, i + 1)
  {
    var node := nodes[i];
    if node.mesh.Some? {
      var k := node.mesh.value;
      var m := meshes[k];
      if m.nodes == [] || m.skin == node.skin {
        AddKeepsAttachedOnce(meshes, nodes, i, r, k, |m.nodes|);
      } else {
        AddKeepsAttachedOnce(meshes, nodes, i, r, |meshes|, 0);
      }
    } else {
      forall x | 0 <= x < i + 1 && nodes[x].mesh.Some?
        ensures Placed(r, x)
      {
      }
    }
  }

  /** The attachment loop attaches every node that instances a mesh exactly once. */
  lemma {:induction false} AttachAllOnce(meshes: seq<Mesh>, nodes: seq<Node>, n: nat)
    requires n <= |nodes| && MeshesInRange(nodes, |meshes|)
    requires forall k :: 0 <= k < |meshes| ==> meshes[k].nodes == []
    ensures AttachedOnce(AttachAll(meshes, nodes, n), nodes, n)
  {
    if n > 0 {
      AttachAllOnce(meshes, nodes, n - 1);
      AttachAllOnceStep(meshes, nodes, n);
    } else {
      FreshAttachedOnce(meshes, nodes);
    }
  }

  lemma AttachAllOnceStep(meshes: seq<Mesh>, nodes: seq<Node>, n: nat)
    requires 0 < n <= |nodes| && MeshesInRange(nodes, |meshes|)
    requires AttachedOnce(AttachAll(meshes, nodes, n - 1), nodes, n - 1)
    ensures AttachedOnce(AttachAll(meshes, nodes, n), nodes, n)
  {
    var prev := AttachAll(meshes, nodes, n - 1);
    AttachAllUnfold(meshes, nodes, n);
    AttachKeepsAttachedOnce(prev, nodes, n - 1, AttachAll(meshes, nodes, n));
  }

  lemma AttachAllUnfold(meshes: seq<Mesh>, nodes: seq<Node>, n: nat)
    requires 0 < n <= |nodes| && MeshesInRange(nodes, |meshes|)
    ensures AttachAll(meshes, nodes, n) == AttachNode(AttachAll(meshes, nodes, n - 1), n - 1, nodes[n - 1])
  {
  }

  lemma FreshAttachedOnce(meshes: seq<Mesh>, nodes: seq<Node>)
    requires forall k :: 0 <= k < |meshes| ==> meshes[k].nodes == []
    ensures AttachedOnce(meshes, nodes, 0)
  {
  }

  /** Starting from meshes whose skins agree with their nodes, every step keeps them agreeing. */
  lemma AttachKeepsSkins(meshes: seq<Mesh>, nodes: seq<Node>, i: nat, r: seq<Mesh>)
    requires i < |nodes| && (nodes[i].mesh.Some? ==> nodes[i].mesh.value < |meshes|)
    requires SkinsAgree(meshes, nodes) && r == AttachNode(meshes, i, nodes[i])
    ensures SkinsAgree(r, nodes)
  {
  }

  lemma {:induction false} AttachAllSkins(meshes: seq<Mesh>, nodes: seq<Node>, n: nat)
    requires n <= |nodes| && MeshesInRange(nodes, |meshes|) && SkinsAgree(meshes, nodes)
    ensures SkinsAgree(AttachAll(meshes, nodes, n), nodes)
  {
    if n > 0 {
      AttachAllSkins(meshes, nodes, n - 1);
      AttachAllUnfold(meshes, nodes, n);
      AttachKeepsSkins(AttachAll(meshes, nodes, n - 1), nodes, n - 1, AttachAll(meshes, nodes, n));
    }
  }

  /** The meshes already present keep their geometry; only node lists and skins change. */
  lemma {:induction false} AttachAllGeometry(meshes: seq<Mesh>, nodes: seq<Node>, n: nat)
    requires n <= |nodes| && MeshesInRange(nodes, |meshes|)
    ensures forall k :: 0 <= k < |meshes| ==> SameGeometry(AttachAll(meshes, nodes, n)[k], meshes[k])
  {
    if n > 0 {
      AttachAllGeometry(meshes, nodes, n - 1);
    }
  }

  // The final pass.

  /**
   * After the final pass every mesh without nodes has no streams and no
   * indices, and every other mesh is exactly as before.
   */
  lemma ClearUnusedSpec(meshes: seq<Mesh>)
    ensures |ClearUnused(meshes)| == |meshes|
    ensures forall k :: 0 <= k < |meshes| && meshes[k].nodes == [] ==>
      ClearUnused(meshes)[k].streams == [] && ClearUnused(meshes)[k].indices == []
      && ClearUnused(meshes)[k] == meshes[k].(streams := [], indices := [])
    ensures forall k :: 0 <= k < |meshes| && meshes[k].nodes != [] ==> ClearUnused(meshes)[k] == meshes[k]
  {
  }

  /** Running the final pass again changes nothing. */
  lemma ClearUnusedIdempotent(meshes: seq<Mesh>)
    ensures ClearUnused(ClearUnused(meshes)) == ClearUnused(meshes)
  {
  }

  /** After the whole function every mesh's skin is the skin of all of its nodes. */
  lemma MeshNodesOfSkins(meshes: seq<Mesh>, nodes: seq<Node>)
    requires MeshesInRange(nodes, |meshes|)
    requires forall k :: 0 <= k < |meshes| ==> meshes[k].nodes == []
    ensures SkinsAgree(MeshNodesOf(meshes, nodes), nodes)
  {
    AttachAllSkins(meshes, nodes, |nodes|);
  }

  /**
   * Starting from a document's fresh meshes (no nodes attached), every node
   * with a mesh is attached to exactly one mesh, once, and no other node is.
   */
  lemma MeshNodesOfAttachesOnce(meshes: seq<Mesh>, nodes: seq<Node>)
    requires MeshesInRange(nodes, |meshes|)
    requires forall k :: 0 <= k < |meshes| ==> meshes[k].nodes == []
    ensures AttachedOnce(MeshNodesOf(meshes, nodes), nodes, |nodes|)
  {
    var attached := AttachAll(meshes, nodes, |nodes|);
    AttachAllOnce(meshes, nodes, |nodes|);
    var r := ClearUnused(attached);
    assert forall k :: 0 <= k < |r| ==> r[k].nodes == attached[k].nodes;
    forall x | 0 <= x < |nodes| && nodes[x].mesh.Some?
      ensures Placed(r, x)
    {
      var q, j :| 0 <= q < |attached| && 0 <= j < |attached[q].nodes| && attached[q].nodes[j] == x;
      assert r[q].nodes[j] == x;
    }
  }

  /**
   * As the source writes it, a node whose skin differs from its mesh's makes a
   * copy that still holds the nodes attached before it: node 0 ends up in two
   * meshes, and the copy's skin is not node 0's.
   */
  lemma AsWrittenDuplicatesNodes(m: Mesh)
    requires m.nodes == [] && m.skin == None
    ensures var nodes := [Node(Some(0), Some(1)), Node(Some(0), Some(2))];
      var r := AttachNodeAsWritten(AttachNodeAsWritten([m], 0, nodes[0]), 1, nodes[1]);
      |r| == 2 && r[0].nodes == [0] && r[1].nodes == [0, 1] && r[1].skin != nodes[0].skin
  {
  }

  // The loops.

  /** `parseMeshNodesGltf`, on the caller's `meshes` vector. */
  method ParseMeshNodes(nodes: seq<Node>, meshes: seq<Mesh>) returns (result: seq<Mesh>)
    requires MeshesInRange(nodes, |meshes|)
    ensures result == MeshNodesOf(meshes, nodes)
  {
    result := meshes;
    var i := 0;
    while i < |nodes|
      invariant 0 <= i <= |nodes|
      invariant result == AttachAll(meshes, nodes, i)
    {
      var node := nodes[i];
      if node.mesh.None? {
        i := i + 1;
        continue;
      }
      var k := node.mesh.value;
      var mesh := result[k];
      if mesh.nodes == [] || mesh.skin == node.skin {
        result := result[k := mesh.(nodes := mesh.nodes + [i], skin := node.skin)];
      } else {
        result := result + [mesh.(nodes := [])];
        var last := |result| - 1;
        result := result[last := result[last].(nodes := result[last].nodes + [i], skin := node.skin)];
      }
      i := i + 1;
    }
    ghost var attached := result;
    var j := 0;
    while j < |result|
      invariant 0 <= j <= |result| && |result| == |attached|
      invariant forall k :: 0 <= k < j ==> result[k] == Clear(attached[k])
      invariant forall k :: j <= k < |result| ==> result[k] == attached[k]
    {
      if result[j].nodes == [] {
        result := result[j := result[j].(streams := [], indices := [])];
      }
      j := j + 1;
    }
  }
}
