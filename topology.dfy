/**
 * Primitive topology normalisation of the glTF loader (`fixupIndices`).
 *
 * Line loops and line strips become line lists, triangle strips and fans become
 * triangle lists, following the primitive topologies of the glTF 2.0
 * specification. The other modes are kept as they are.
 */
module Topology {
  import opened Ints

  /** The cgltf primitive modes, in the order of glTF's `mode` values 0 to 6. */
  datatype PrimitiveType = Points | Lines | LineLoop | LineStrip | Triangles | TriangleStrip | TriangleFan

  /** The modes that are already lists and are left untouched. */
  predicate IsListType(t: PrimitiveType)
  {
    t.Points? || t.Lines? || t.Triangles?
  }

  // Reference definitions, each stated recursively on the index list rather
  // than by the indexed loops of the source.

  /** A line strip as a line list: one segment per pair of consecutive vertices. */
  function StripLines(s: seq<uint32>): (r: seq<uint32>)
    decreases |s|
  {
    if |s| < 2 then [] else [s[0], s[1]] + StripLines(s[1..])
  }

  /** A line loop is the line strip that returns to its first vertex. */
  function LoopLines(s: seq<uint32>): (r: seq<uint32>)
  {
    if s == [] then [] else StripLines(s + [s[0]])
  }

  /**
   * A triangle strip as a triangle list: every window of three consecutive
   * vertices is a triangle, and every other one has its first two vertices
   * swapped so that all triangles keep the same winding.
   */
  function StripTriangles(s: seq<uint32>, flipped: bool): (r: seq<uint32>)
    decreases |s|
  {
    if |s| < 3 then []
    else (if flipped then [s[1], s[0], s[2]] else [s[0], s[1], s[2]]) + StripTriangles(s[1..], !flipped)
  }

  /** A triangle fan around `center` with the remaining vertices as its rim. */
  function FanTriangles(center: uint32, rim: seq<uint32>): (r: seq<uint32>)
    decreases |rim|
  {
    if |rim| < 2 then [] else [center, rim[0], rim[1]] + FanTriangles(center, rim[1..])
  }

  /** The index list and mode that `fixupIndices` leaves behind. */
  function Normalize(indices: seq<uint32>, t: PrimitiveType): (r: (seq<uint32>, PrimitiveType))
  {
    match t
    case LineLoop => (LoopLines(indices), Lines)
    case LineStrip => (StripLines(indices), Lines)
    case TriangleStrip => (StripTriangles(indices, false), Triangles)
    case TriangleFan => (if indices == [] then [] else FanTriangles(indices[0], indices[1..]), Triangles)
    case _ => (indices, t)
  }

  // Laws of the reference definitions.

  lemma {:induction false} StripLinesLength(s: seq<uint32>)
    ensures |StripLines(s)| == if s == [] then 0 else 2 * (|s| - 1)
    decreases |s|
  {
    if |s| >= 2 {
      StripLinesLength(s[1..]);
    }
  }

  /** A line strip of n vertices has n - 1 segments; segment k joins vertex k to vertex k + 1. */
  lemma {:induction false} StripLinesAt(s: seq<uint32>, k: nat)
    requires k < |s| - 1
    ensures |StripLines(s)| == 2 * (|s| - 1)
    ensures StripLines(s)[2 * k] == s[k] && StripLines(s)[2 * k + 1] == s[k + 1]
    decreases k
  {
    StripLinesLength(s);
    if k > 0 {
      StripLinesAt(s[1..], k - 1);
    }
  }

  /**
   * A line loop of n vertices has n segments; segment k joins vertex k to
   * vertex (k + 1) mod n, so the last one closes the loop at vertex 0.
   */
  lemma LoopLinesAt(s: seq<uint32>, k: nat)
    requires k < |s|
    ensures |LoopLines(s)| == 2 * |s|
    ensures LoopLines(s)[2 * k] == s[k] && LoopLines(s)[2 * k + 1] == s[(k + 1) % |s|]
  {
    var closed := s + [s[0]];
    StripLinesAt(closed, k);
    NextMod(k, |s|);
    assert closed[k + 1] == s[(k + 1) % |s|];
  }

  lemma NextMod(k: nat, n: nat)
    requires k < n
    ensures (k + 1) % n == if k + 1 < n then k + 1 else 0
  {
  }

  lemma LoopLinesEmpty(s: seq<uint32>)
    requires s == []
    ensures LoopLines(s) == []
  {
  }

  lemma {:induction false} StripTrianglesLength(s: seq<uint32>, flipped: bool)
    ensures |StripTriangles(s, flipped)| == if |s| < 3 then 0 else 3 * (|s| - 2)
    decreases |s|
  {
    if |s| >= 3 {
      StripTrianglesLength(s[1..], !flipped);
    }
  }

  /** Triangle k of a strip starting with winding `flipped` is swapped exactly when its parity differs. */
  lemma {:induction false} StripTrianglesFromAt(s: seq<uint32>, flipped: bool, k: nat)
    requires k + 2 < |s|
    ensures |StripTriangles(s, flipped)| == 3 * (|s| - 2)
    ensures var swap := flipped != (k % 2 == 1);
      && StripTriangles(s, flipped)[3 * k] == (if swap then s[k + 1] else s[k])
      && StripTriangles(s, flipped)[3 * k + 1] == (if swap then s[k] else s[k + 1])
      && StripTriangles(s, flipped)[3 * k + 2] == s[k + 2]
    decreases k
  {
    StripTrianglesLength(s, flipped);
    if k > 0 {
      StripTrianglesFromAt(s[1..], !flipped, k - 1);
    }
  }

  /**
   * A triangle strip of n vertices has max(0, n - 2) triangles. The triangle
   * ending at vertex i is (i - 2, i - 1, i) for even i and (i - 1, i - 2, i)
   * for odd i.
   */
  lemma TriangleStripAt(s: seq<uint32>, i: nat)
    requires 2 <= i < |s|
    ensures |Normalize(s, TriangleStrip).0| == 3 * (|s| - 2)
    ensures var r := Normalize(s, TriangleStrip).0;
      if i % 2 == 0 then r[3 * i - 6] == s[i - 2] && r[3 * i - 5] == s[i - 1] && r[3 * i - 4] == s[i]
      else r[3 * i - 6] == s[i - 1] && r[3 * i - 5] == s[i - 2] && r[3 * i - 4] == s[i]
  {
    StripTrianglesFromAt(s, false, i - 2);
  }

  lemma {:induction false} FanTrianglesLength(c: uint32, rim: seq<uint32>)
    ensures |FanTriangles(c, rim)| == if |rim| < 2 then 0 else 3 * (|rim| - 1)
    decreases |rim|
  {
    if |rim| >= 2 {
      FanTrianglesLength(c, rim[1..]);
    }
  }

  lemma {:induction false} FanTrianglesFromAt(c: uint32, rim: seq<uint32>, k: nat)
    requires k + 1 < |rim|
    ensures |FanTriangles(c, rim)| == 3 * (|rim| - 1)
    ensures FanTriangles(c, rim)[3 * k] == c
    ensures FanTriangles(c, rim)[3 * k + 1] == rim[k] && FanTriangles(c, rim)[3 * k + 2] == rim[k + 1]
    decreases k
  {
    FanTrianglesLength(c, rim);
    if k > 0 {
      FanTrianglesFromAt(c, rim[1..], k - 1);
    }
  }

  /**
   * A triangle fan of n vertices has max(0, n - 2) triangles; the triangle
   * ending at vertex i is (0, i - 1, i).
   */
  lemma TriangleFanAt(s: seq<uint32>, i: nat)
    requires 2 <= i < |s|
    ensures |Normalize(s, TriangleFan).0| == 3 * (|s| - 2)
    ensures var r := Normalize(s, TriangleFan).0;
      r[3 * i - 6] == s[0] && r[3 * i - 5] == s[i - 1] && r[3 * i - 4] == s[i]
  {
    FanTrianglesFromAt(s[0], s[1..], i - 2);
  }

  /** Fewer than three vertices make no strip or fan triangle, fewer than two no strip segment. */
  lemma ShortInputs(s: seq<uint32>)
    ensures |s| < 3 ==> Normalize(s, TriangleStrip).0 == [] && Normalize(s, TriangleFan).0 == []
    ensures |s| < 2 ==> Normalize(s, LineStrip).0 == []
  {
  }

  /**
   * The mode afterwards is always a list mode, loops and strips of lines become
   * lines, strips and fans of triangles become triangles, list modes keep their
   * indices, and normalising twice changes nothing more.
   */
  lemma NormalizeType(indices: seq<uint32>, t: PrimitiveType)
    ensures IsListType(Normalize(indices, t).1)
    ensures (t.LineLoop? || t.LineStrip?) <==> (!t.Lines? && Normalize(indices, t).1.Lines?)
    ensures (t.TriangleStrip? || t.TriangleFan?) <==> (!t.Triangles? && Normalize(indices, t).1.Triangles?)
    ensures IsListType(t) ==> Normalize(indices, t) == (indices, t)
    ensures var (r, rt) := Normalize(indices, t); Normalize(r, rt) == (r, rt)
  {
  }

  lemma {:induction false} StripLinesValues(s: seq<uint32>)
    ensures forall v :: v in StripLines(s) ==> v in s
    decreases |s|
  {
    if |s| >= 2 {
      StripLinesValues(s[1..]);
    }
  }

  lemma {:induction false} StripTrianglesValues(s: seq<uint32>, flipped: bool)
    ensures forall v :: v in StripTriangles(s, flipped) ==> v in s
    decreases |s|
  {
    if |s| >= 3 {
      StripTrianglesValues(s[1..], !flipped);
    }
  }

  lemma {:induction false} FanTrianglesValues(c: uint32, rim: seq<uint32>)
    ensures forall v :: v in FanTriangles(c, rim) ==> v == c || v in rim
    decreases |rim|
  {
    if |rim| >= 2 {
      FanTrianglesValues(c, rim[1..]);
    }
  }

  /** Every index that comes out of the normalisation was one of the input indices. */
  lemma NormalizeValues(indices: seq<uint32>, t: PrimitiveType)
    ensures forall v :: v in Normalize(indices, t).0 ==> v in indices
  {
    match t
    case LineLoop =>
      if indices != [] {
        StripLinesValues(indices + [indices[0]]);
      }
    case LineStrip => StripLinesValues(indices);
    case TriangleStrip => StripTrianglesValues(indices, false);
    case TriangleFan =>
      if indices != [] {
        FanTrianglesValues(indices[0], indices[1..]);
        assert indices == [indices[0]] + indices[1..];
      }
    case _ =>
  }

  /** So a bound "every index is below the vertex count" survives the normalisation. */
  lemma NormalizeInBounds(indices: seq<uint32>, t: PrimitiveType, vertexCount: int)
    requires forall v :: v in indices ==> v as int < vertexCount
    ensures forall v :: v in Normalize(indices, t).0 ==> v as int < vertexCount
  {
    NormalizeValues(indices, t);
  }

  // Appending one vertex to a strip, loop or fan appends exactly one segment
  // or triangle: the step each loop iteration of `fixupIndices` performs.

  lemma {:induction false} StripLinesSnoc(s: seq<uint32>, x: uint32)
    requires s != []
    ensures StripLines(s + [x]) == StripLines(s) + [s[|s| - 1], x]
    decreases |s|
  {
    if |s| >= 2 {
      StripLinesSnoc(s[1..], x);
      assert (s + [x])[1..] == s[1..] + [x];
    }
  }

  lemma {:induction false} StripTrianglesSnoc(s: seq<uint32>, flipped: bool, x: uint32)
    requires |s| >= 2
    ensures var swap := flipped != ((|s| - 2) % 2 == 1);
      StripTriangles(s + [x], flipped) == StripTriangles(s, flipped)
        + (if swap then [s[|s| - 1], s[|s| - 2], x] else [s[|s| - 2], s[|s| - 1], x])
    decreases |s|
  {
    if |s| >= 3 {
      StripTrianglesSnoc(s[1..], !flipped, x);
      assert (s + [x])[1..] == s[1..] + [x];
    }
  }

  /** One iteration of the triangle-strip loop, with `flip == i & 1`. */
  lemma StripTrianglesStep(indices: seq<uint32>, i: nat)
    requires 2 <= i < |indices|
    ensures var flip := i % 2;
      StripTriangles(indices[..i + 1], false)
        == StripTriangles(indices[..i], false) + [indices[i - 2 + flip], indices[i - 1 - flip], indices[i]]
  {
    var pre := indices[..i];
    StripTrianglesSnoc(pre, false, indices[i]);
    assert indices[..i + 1] == pre + [indices[i]];
    assert (i - 2) % 2 == i % 2;
  }

  lemma {:induction false} FanTrianglesSnoc(c: uint32, rim: seq<uint32>, x: uint32)
    requires rim != []
    ensures FanTriangles(c, rim + [x]) == FanTriangles(c, rim) + [c, rim[|rim| - 1], x]
    decreases |rim|
  {
    if |rim| >= 2 {
      FanTrianglesSnoc(c, rim[1..], x);
      assert (rim + [x])[1..] == rim[1..] + [x];
    }
  }

  /** One iteration of the line-loop loop: segment `i` ends at vertex `i % n`. */
  lemma LoopLinesStep(indices: seq<uint32>, i: nat)
    requires 1 <= i <= |indices|
    ensures var closed := indices + [indices[0]];
      StripLines(closed[..i + 1]) == StripLines(closed[..i]) + [indices[i - 1], indices[i % |indices|]]
  {
    var closed := indices + [indices[0]];
    NextMod(i - 1, |indices|);
    assert closed[i] == indices[i % |indices|];
    StripLinesSnoc(closed[..i], closed[i]);
    assert closed[..i + 1] == closed[..i] + [closed[i]];
  }

  /** The line-loop branch of `fixupIndices` (gltf/parsegltf.cpp:66-79). */
  method LoopToLines(indices: seq<uint32>) returns (result: seq<uint32>)
    ensures result == LoopLines(indices)
  {
    var n := |indices|;
    result := [];
    if n == 0 {
      return;
    }
    ghost var closed := indices + [indices[0]];
    var i := 1;
    while i <= n
      invariant 1 <= i <= n + 1
      invariant result == StripLines(closed[..i])
    {
      LoopLinesStep(indices, i);
      result := result + [indices[i - 1], indices[i % n]];
      i := i + 1;
    }
    assert closed[..i] == closed;
  }

  /** The line-strip branch of `fixupIndices`. */
  method StripToLines(indices: seq<uint32>) returns (result: seq<uint32>)
    ensures result == StripLines(indices)
  {
    var n := |indices|;
    result := [];
    var i := 1;
    while i < n
      invariant 1 <= i <= if n == 0 then 1 else n
      invariant result == if n == 0 then [] else StripLines(indices[..i])
    {
      StripLinesSnoc(indices[..i], indices[i]);
      assert indices[..i + 1] == indices[..i] + [indices[i]];
      result := result + [indices[i - 1], indices[i]];
      i := i + 1;
    }
    if n > 0 {
      assert indices[..i] == indices;
    } else {
      assert StripLines(indices) == [];
    }
  }

  /** The triangle-strip branch of `fixupIndices`: `flip` is the parity `i & 1` of the last vertex. */
  method StripToTriangles(indices: seq<uint32>) returns (result: seq<uint32>)
    ensures result == StripTriangles(indices, false)
  {
    var n := |indices|;
    result := [];
    var i := 2;
    while i < n
      invariant 2 <= i <= if n < 2 then 2 else n
      invariant result == if n < 2 then [] else StripTriangles(indices[..i], false)
    {
      var flip := i % 2;
      StripTrianglesStep(indices, i);
      result := result + [indices[i - 2 + flip], indices[i - 1 - flip], indices[i]];
      i := i + 1;
    }
    if n >= 2 {
      assert indices[..i] == indices;
    } else {
      assert StripTriangles(indices, false) == [];
    }
  }

  /** The triangle-fan branch of `fixupIndices`. */
  method FanToTriangles(indices: seq<uint32>) returns (result: seq<uint32>)
    ensures result == Normalize(indices, TriangleFan).0
  {
    var n := |indices|;
    result := [];
    var i := 2;
    while i < n
      invariant 2 <= i <= if n < 2 then 2 else n
      invariant result == if n < 2 then [] else FanTriangles(indices[0], indices[1..i])
    {
      FanTrianglesSnoc(indices[0], indices[1..i], indices[i]);
      assert indices[1..i + 1] == indices[1..i] + [indices[i]];
      result := result + [indices[0], indices[i - 1], indices[i]];
      i := i + 1;
    }
    if n >= 2 {
      assert indices[1..i] == indices[1..];
    } else if n == 1 {
      assert FanTriangles(indices[0], indices[1..]) == [];
    }
  }

  /**
   * `fixupIndices`: converts the caller's index list and mode in place. The two
   * by-reference parameters are the inputs and the two results here.
   */
  method FixupIndices(indices: seq<uint32>, t: PrimitiveType) returns (fixed: seq<uint32>, fixedType: PrimitiveType)
    ensures (fixed, fixedType) == Normalize(indices, t)
  {
    fixed, fixedType := indices, t;
    if t == LineLoop {
      fixed := LoopToLines(indices);
      fixedType := Lines;
    } else if t == LineStrip {
      fixed := StripToLines(indices);
      fixedType := Lines;
    } else if t == TriangleStrip {
      fixed := StripToTriangles(indices);
      fixedType := Triangles;
    } else if t == TriangleFan {
      fixed := FanToTriangles(indices);
      fixedType := Triangles;
    }
  }
}
