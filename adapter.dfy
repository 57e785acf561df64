/**
 * `meshopt_IndexAdapter` and the C++ templates that use it. Every algorithm
 * of the library works on `unsigned int` indices; a template instantiated
 * for another index type `T` copies its input into a fresh 32-bit buffer
 * (widening), lets the algorithm run on that buffer, and copies the buffer
 * back into the caller's array when it is destroyed (narrowing to `T`). When
 * `T` has the size of `unsigned int` the zero-copy specialisation hands the
 * algorithm the caller's own array instead.
 *
 * An array of `T` is an `array<nat>` whose entries are below `Limit(width)`;
 * a null pointer is `null`. The algorithms themselves (vertex cache
 * optimisation, simplification, encoding, ...) are parameters: a function from
 * the 32-bit input they read to the 32-bit output they write, or to the value
 * they return.
 */
module IndexAdapter {
  import opened Ints
  import opened Options

  /** The width of the index type `T`. */
  datatype IndexWidth = Bits8 | Bits16 | Bits32 | Bits64

  /** One more than the largest value of `T`. */
  function Limit(w: IndexWidth): (r: nat)
    ensures r >= 0x100
  {
    match w
    case Bits8 => 0x100
    case Bits16 => 0x1_0000
    case Bits32 => U32
    case Bits64 => 0x1_0000_0000_0000_0000
  }

  /** `sizeof(T) == sizeof(unsigned int)`: the adapter is the zero-copy one. */
  predicate ZeroCopy(w: IndexWidth)
  {
    w == Bits32
  }

  /** Every value fits in `T`. */
  predicate Fits(s: seq<nat>, w: IndexWidth)
  {
    forall i :: 0 <= i < |s| ==> s[i] < Limit(w)
  }

  /** `data[i] = input[i]`: the conversion of each `T` to `unsigned int`. */
  function Widen(s: seq<nat>): (r: seq<nat>)
  {
    seq(|s|, i requires 0 <= i < |s| => s[i] % U32)
  }

  /** `result[i] = data[i]`: the conversion of each `unsigned int` to `T`. */
  function Narrow(s: seq<nat>, w: IndexWidth): (r: seq<nat>)
  {
    var n := Limit(w);
    seq(|s|, i requires 0 <= i < |s| => s[i] % n)
  }

  // Laws of the two conversions.

  /** Widening yields 32-bit values; narrowing yields values of `T`. */
  lemma ConversionsFit(s: seq<nat>, w: IndexWidth)
    ensures |Widen(s)| == |s| && Fits(Widen(s), Bits32)
    ensures |Narrow(s, w)| == |s| && Fits(Narrow(s, w), w)
  {
  }

  /** A type no wider than `unsigned int` keeps every value it holds through the 32-bit buffer. */
  lemma WidenNarrow(s: seq<nat>, w: IndexWidth)
    requires w != Bits64 && Fits(s, w)
    ensures Widen(s) == s
    ensures Narrow(Widen(s), w) == s
  {
    forall i | 0 <= i < |s|
      ensures s[i] < U32
    {
      assert s[i] < Limit(w);
    }
  }

  /** Narrowing to `T` after widening gives back every value that already fitted in 32 bits. */
  lemma WidenNarrow64(s: seq<nat>)
    requires Fits(s, Bits32)
    ensures Narrow(Widen(s), Bits64) == s
  {
    WidenNarrow(s, Bits32);
    forall i | 0 <= i < |s|
      ensures s[i] % Limit(Bits64) == s[i]
    {
      assert s[i] < Limit(Bits32);
    }
  }

  /** With a 64-bit `T` the round trip through the buffer keeps the low 32 bits of every index. */
  lemma Widen64RoundTrip(s: seq<nat>)
    ensures Narrow(Widen(s), Bits64) == seq(|s|, i requires 0 <= i < |s| => s[i] % U32)
  {
  }

  /** For instance, a 64-bit index of 2^32 + 5 comes back as 5. */
  lemma Widen64Truncates()
    ensures Narrow(Widen([U32 + 5]), Bits64) == [5]
  {
    assert Widen([U32 + 5]) == [5];
    assert Narrow([5], Bits64) == [5];
  }

  /** With a 32-bit `T` both conversions are the identity, so aliasing the caller's array changes nothing. */
  lemma ZeroCopyIdentity(s: seq<nat>)
    requires Fits(s, Bits32)
    ensures Widen(s) == s && Narrow(s, Bits32) == s
  {
    WidenNarrow(s, Bits32);
  }

  /** `meshopt_IndexAdapter<T, false>`: a 32-bit copy of `count` indices. */
  class Adapter {
    const width: IndexWidth
    const result: array?<nat>
    const data: array<nat>
    const count: nat

    /**
     * Allocates `count` entries and, when `input` is not null, fills them with
     * its first `count` values widened to 32 bits. Without an input the
     * entries are left as allocated.
     */
    constructor (width: IndexWidth, result: array?<nat>, input: array?<nat>, count: nat)
      requires input != null ==> count <= input.Length
      ensures this.width == width && this.result == result && this.count == count
      ensures fresh(data) && data.Length == count && data != result
      ensures input != null ==> data[..] == Widen(input[..count])
    {
      this.width := width;
      this.result := result;
      this.count := count;
      var buffer := new nat[count];
      if input != null {
        var i := 0;
        while i < count
          invariant 0 <= i <= count
          invariant forall k :: 0 <= k < i ==> buffer[k] == input[k] % U32
        {
          buffer[i] := input[i] % U32;
          i := i + 1;
        }
      }
      data := buffer;
    }

    /**
     * The destructor: with a non-null `result`, its first `count` entries
     * receive the buffer's values narrowed to `T`; with a null one nothing is
     * written.
     */
    method Release()
      requires data.Length == count && data != result
      requires result != null ==> count <= result.Length
      modifies if result != null then {result} else {}
      ensures result != null ==> result[..count] == Narrow(old(data[..]), width)
      ensures result != null ==> result[count..] == old(result[count..])
    {
      if result != null {
        var i := 0;
        while i < count
          invariant 0 <= i <= count
          invariant forall k :: 0 <= k < i ==> result[k] == data[k] % Limit(width)
          invariant result[count..] == old(result[count..])
          invariant data[..] == old(data[..])
        {
          result[i] := data[i] % Limit(width);
          i := i + 1;
        }
      }
    }
  }

  /** `meshopt_IndexAdapter<T, true>`: no copy; `data` is `result` if it is not null, else `input`. */
  class ZeroCopyAdapter {
    const data: array?<nat>

    constructor (result: array?<nat>, input: array?<nat>)
      ensures data == if result != null then result else input
    {
      data := if result != null then result else input;
    }
  }

  /** An algorithm writing its 32-bit `output` into the buffer it was given. */
  method WriteOutput(buffer: array<nat>, output: seq<nat>)
    requires |output| <= buffer.Length
    modifies buffer
    ensures buffer[..|output|] == output
    ensures buffer[|output|..] == old(buffer[|output|..])
  {
    var i := 0;
    while i < |output|
      invariant 0 <= i <= |output|
      invariant buffer[..i] == output[..i]
      invariant buffer[|output|..] == old(buffer[|output|..])
    {
      buffer[i] := output[i];
      i := i + 1;
    }
  }

  // The templates.

  /**
   * An algorithm that only reads indices (`meshopt_encodeIndexBuffer`, the
   * three analyzers): the input adapter has a null result, so the caller's
   * array is never written, and the algorithm sees the widened values.
   */
  method ReadOnly<R>(width: IndexWidth, indices: array<nat>, count: nat, algorithm: seq<nat> -> R) returns (r: R)
    requires count <= indices.Length && Fits(indices[..count], width)
    ensures r == algorithm(Widen(indices[..count]))
  {
    if ZeroCopy(width) {
      var input := new ZeroCopyAdapter(null, indices);
      ZeroCopyIdentity(indices[..count]);
      r := algorithm(input.data[..count]);
    } else {
      var input := new Adapter(width, null, indices, count);
      r := algorithm(input.data[..]);
      input.Release();
    }
  }

  /**
   * `meshopt_generateVertexRemap`: a null `indices` reaches the algorithm as
   * null (the adapter is then built with a count of 0); otherwise it sees the
   * widened values.
   */
  method ReadOptional<R>(width: IndexWidth, indices: array?<nat>, count: nat, algorithm: Option<seq<nat>> -> R)
    returns (r: R)
    requires indices != null ==> count <= indices.Length && Fits(indices[..count], width)
    ensures r == algorithm(if indices == null then None else Some(Widen(indices[..count])))
  {
    var n := if indices != null then count else 0;
    if ZeroCopy(width) {
      var input := new ZeroCopyAdapter(null, indices);
      if indices != null {
        ZeroCopyIdentity(indices[..count]);
        r := algorithm(Some(input.data[..count]));
      } else {
        r := algorithm(None);
      }
    } else {
      var input := new Adapter(width, null, indices, n);
      r := algorithm(if indices != null then Some(input.data[..]) else None);
      input.Release();
    }
  }

  /**
   * An algorithm from indices to indices (`meshopt_optimizeVertexCache`,
   * `meshopt_optimizeOverdraw`, `meshopt_simplify`): `destination` receives
   * the first part of the algorithm's answer, its output narrowed to `T`, and
   * only its first `count` entries change; the second part, the value the
   * algorithm returns (the index count of `meshopt_simplify`, nothing for the
   * other two), is returned. With copies, `destination` may be `indices`
   * itself, since the output is written back only after the algorithm has
   * finished; the zero-copy case hands the algorithm the caller's arrays and
   * is modelled for distinct arrays only.
   */
  method Transform<R>(width: IndexWidth, destination: array<nat>, indices: array<nat>, count: nat,
                      algorithm: seq<nat> -> (seq<nat>, R)) returns (r: R)
    requires count <= destination.Length && count <= indices.Length && Fits(indices[..count], width)
    requires |algorithm(Widen(indices[..count])).0| == count && Fits(algorithm(Widen(indices[..count])).0, Bits32)
    requires ZeroCopy(width) ==> destination != indices
    modifies destination
    ensures destination[..count] == Narrow(algorithm(Widen(old(indices[..count]))).0, width)
    ensures destination[count..] == old(destination[count..])
    ensures destination != indices ==> indices[..] == old(indices[..])
    ensures r == algorithm(Widen(old(indices[..count]))).1
  {
    var answer := algorithm(Widen(indices[..count]));
    var output := answer.0;
    if ZeroCopy(width) {
      var input := new ZeroCopyAdapter(null, indices);
      var out := new ZeroCopyAdapter(destination, null);
      ZeroCopyIdentity(indices[..count]);
      assert answer == algorithm(input.data[..count]);
      WriteOutput(out.data, output);
      ZeroCopyIdentity(output);
    } else {
      var input := new Adapter(width, null, indices, count);
      var out := new Adapter(width, destination, null, count);
      assert answer == algorithm(input.data[..]);
      WriteOutput(out.data, output);
      out.Release();
      input.Release();
    }
    r := answer.1;
  }

  /**
   * `meshopt_remapIndexBuffer`: like `Transform`, except that a null
   * `indices` reaches the algorithm as null.
   */
  method TransformOptional(width: IndexWidth, destination: array<nat>, indices: array?<nat>, count: nat,
                           algorithm: Option<seq<nat>> -> seq<nat>)
    requires count <= destination.Length
    requires indices != null ==> count <= indices.Length && Fits(indices[..count], width)
    requires var input := if indices == null then None else Some(Widen(indices[..count]));
      |algorithm(input)| == count && Fits(algorithm(input), Bits32)
    requires ZeroCopy(width) ==> destination != indices
    modifies destination
    ensures destination[..count] ==
      Narrow(algorithm(if indices == null then None else Some(Widen(old(indices[..count])))), width)
    ensures destination[count..] == old(destination[count..])
    ensures indices != null && destination != indices ==> indices[..] == old(indices[..])
  {
    var output := algorithm(if indices == null then None else Some(Widen(indices[..count])));
    var n := if indices != null then count else 0;
    if ZeroCopy(width) {
      var input := new ZeroCopyAdapter(null, indices);
      var out := new ZeroCopyAdapter(destination, null);
      if indices != null {
        ZeroCopyIdentity(indices[..count]);
        assert output == algorithm(Some(input.data[..count]));
      }
      WriteOutput(out.data, output);
      ZeroCopyIdentity(output);
    } else {
      var input := new Adapter(width, null, indices, n);
      var out := new Adapter(width, destination, null, count);
      assert output == algorithm(if indices != null then Some(input.data[..]) else None);
      WriteOutput(out.data, output);
      out.Release();
      input.Release();
    }
  }

  /**
   * `meshopt_decodeIndexBuffer`: the output adapter has no input; the decoded
   * 32-bit values end up in `destination` narrowed to `T`.
   */
  method WriteOnly(width: IndexWidth, destination: array<nat>, count: nat, decoded: seq<nat>)
    requires count <= destination.Length && |decoded| == count && Fits(decoded, Bits32)
    modifies destination
    ensures destination[..count] == Narrow(decoded, width)
    ensures destination[count..] == old(destination[count..])
  {
    if ZeroCopy(width) {
      var out := new ZeroCopyAdapter(destination, null);
      WriteOutput(out.data, decoded);
      ZeroCopyIdentity(decoded);
    } else {
      var out := new Adapter(width, destination, null, count);
      WriteOutput(out.data, decoded);
      out.Release();
    }
  }

  /**
   * `meshopt_optimizeVertexFetch`: one adapter with `indices` as both input
   * and result, so the caller's indices are rewritten in place with the first
   * part of the algorithm's answer; the second part, the vertex count it
   * returns, is returned.
   */
  method RewriteInPlace<R>(width: IndexWidth, indices: array<nat>, count: nat, algorithm: seq<nat> -> (seq<nat>, R))
    returns (r: R)
    requires count <= indices.Length && Fits(indices[..count], width)
    requires |algorithm(Widen(indices[..count])).0| == count && Fits(algorithm(Widen(indices[..count])).0, Bits32)
    modifies indices
    ensures indices[..count] == Narrow(algorithm(Widen(old(indices[..count]))).0, width)
    ensures indices[count..] == old(indices[count..])
    ensures r == algorithm(Widen(old(indices[..count]))).1
  {
    var answer := algorithm(Widen(indices[..count]));
    var output := answer.0;
    if ZeroCopy(width) {
      var inout := new ZeroCopyAdapter(indices, indices);
      ZeroCopyIdentity(indices[..count]);
      assert answer == algorithm(inout.data[..count]);
      WriteOutput(inout.data, output);
      ZeroCopyIdentity(output);
    } else {
      var inout := new Adapter(width, indices, indices, count);
      assert answer == algorithm(inout.data[..]);
      WriteOutput(inout.data, output);
      inout.Release();
    }
    r := answer.1;
  }
}
