/**
 * The `HyperVector` type of hv/hv.go: a fixed-length vector of `uint8` values
 * together with a lazily computed, memoised norm.
 *
 * The source caches `sqrt(popcount)` as a `float32` and uses -1 for "unset".
 * Here `norm` caches the popcount itself (the square root is left to the score,
 * see module Similarity); -1 still means "unset".
 */
module HV {
  import opened Bits
  import opened Similarity

  class HyperVector {
    var values: seq<Byte>
    var length: int
    var norm: int

    /** The recorded length matches the contents. */
    ghost predicate Valid()
      reads this
    {
      |values| == length
    }

    /** The norm cache is unset or holds the popcount of the current contents. */
    ghost predicate Coherent()
      reads this
    {
      norm == -1 || norm == Weight(values)
    }

    /** `NewHyperVector(dim)`: `dim` zeros, norm unset (`make` rejects a negative `dim`). */
    constructor (dim: nat)
      ensures values == Zeros(dim) && length == dim && norm == -1
      ensures Valid() && Coherent()
    {
      values := Zeros(dim);
      length := dim;
      norm := -1;
    }

    /**
     * `Generate`: replaces the contents with `myutil.Random(length)`, passed in
     * as `bits` (`length` values, each 0 or 1).  The norm cache is not touched.
     */
    method Generate(bits: seq<Byte>)
      requires |bits| == length && Binary(bits)
      modifies this`values
      ensures values == bits
    {
      values := bits;
    }

    /** `NotMuch`: sets positions `0 .. length-1` to 1; nothing else changes, the norm cache included. */
    method NotMuch()
      requires length <= |values|
      modifies this`values
      ensures |values| == |old(values)|
      ensures forall i | 0 <= i < length :: values[i] == 1
      ensures forall i | length <= i < |values| && 0 <= i :: values[i] == old(values)[i]
    {
      var i := 0;
      while i < length
        invariant 0 <= i <= if length < 0 then 0 else length
        invariant |values| == |old(values)|
        invariant forall j | 0 <= j < i && j < length :: values[j] == 1
        invariant forall j | i <= j < |values| && 0 <= j :: values[j] == old(values)[j]
      {
        values := values[i := 1];
        i := i + 1;
      }
    }

    /**
     * `Rotate(num, dim)`: a fresh vector of recorded length `dim` holding the
     * receiver rotated right by `num` places; the receiver is left unchanged.
     */
    method Rotate(num: int, dim: nat) returns (r: HyperVector)
      requires Valid() && CanRotate(values, num)
      ensures fresh(r)
      ensures r.values == Rotated(values, num) && r.length == dim && r.norm == -1
      ensures r.Valid() <==> dim == length
    {
      r := new HyperVector(dim);
      var tmp := length - GoRem(num, length);
      r.values := values[tmp..] + values[..tmp];
    }

    /**
     * `Xor(v2)`: binds `v2` into the receiver in place, position by position
     * over the receiver's length, and clears the norm cache.  `v2` may be the
     * receiver itself.
     */
    method Xor(v2: HyperVector)
      requires |values| <= |v2.values|
      modifies this`values, this`norm
      ensures values == XorSeq(old(values), old(v2.values))
      ensures norm == -1
    {
      var i := 0;
      while i < |values|
        invariant 0 <= i <= |values| == |old(values)|
        invariant v2 == this || v2.values == old(v2.values)
        invariant forall j | 0 <= j < i :: values[j] == old(values)[j] ^ old(v2.values)[j]
        invariant forall j | i <= j < |values| :: values[j] == old(values)[j]
      {
        values := values[i := values[i] ^ v2.values[i]];
        i := i + 1;
      }
      norm := -1;
      assert values == XorSeq(old(values), old(v2.values));
    }

    /**
     * `Add(vs...)`: bundles the inputs into the receiver by strict majority
     * (`thr = n/2 + 1`); with no input nothing changes, with one input the
     * receiver first takes that input's values.  An input may be the receiver
     * itself.  The norm cache is not touched.
     */
    method Add(vs: seq<HyperVector>)
      requires BundleDefined(values, ValuesOf(vs))
      modifies this`values
      ensures values == Bundle(old(values), old(ValuesOf(vs)))
    {
      if |vs| == 0 {
        return;
      }
      ghost var ins := ValuesOf(vs);
      ghost var result := Bundle(values, ins);
      assert result == Bundle(old(values), old(ValuesOf(vs)));
      if |vs| == 1 {
        values := vs[0].values;
      }
      ghost var base := values;
      assert forall k | 0 <= k < |vs| :: |base| <= |ins[k]| && (vs[k] == this ==> ins[k] == base);
      var thr := |vs| / 2 + 1;
      var i := 0;
      while i < |values|
        invariant 0 <= i <= |base| == |result|
        invariant values == result[..i] + base[i..]
        invariant forall k | 0 <= k < |vs| :: vs[k] == this || vs[k].values == ins[k]
      {
        Splice(result, base, i);
        var sum := SumColumn(vs, i, ins);
        if sum >= thr {
          values := values[i := 1];
        } else {
          values := values[i := 0];
        }
        i := i + 1;
      }
      assert values == result[..i] + base[i..];
      assert values == result;
    }

    /** `dot(v2)`: read-only count of the positions of the receiver where both hold a 1 bit. */
    method DotWith(v2: HyperVector) returns (r: int)
      requires |values| <= |v2.values|
      ensures r == Dot(values, v2.values)
    {
      r := 0;
      var i := 0;
      while i < |values|
        invariant 0 <= i <= |values|
        invariant r == Dot(values[..i], v2.values)
      {
        assert values[..i + 1][..i] == values[..i];
        r := r + (values[i] & v2.values[i]) as int;
        i := i + 1;
      }
      assert values[..|values|] == values;
    }

    /**
     * `normCheck`: returns the cached value when the cache is set, and otherwise
     * computes the popcount, caches it and returns it.  The contents never change.
     */
    method NormCheck() returns (r: int)
      modifies this`norm
      ensures old(norm) != -1 ==> r == old(norm) && norm == old(norm)
      ensures old(norm) == -1 ==> r == Weight(values) && norm == r
    {
      if norm != -1 {
        return norm;
      }
      var sum := 0;
      var i := 0;
      while i < |values|
        invariant 0 <= i <= |values|
        invariant sum == Weight(values[..i])
      {
        assert values[..i + 1][..i] == values[..i];
        sum := sum + values[i] as int;
        i := i + 1;
      }
      assert values[..|values|] == values;
      norm := sum;
      r := norm;
    }

    /**
     * `Cosine(v2)`: `dot / (normCheck() * v2.normCheck())`.  On coherent caches
     * the score is the one `CosineOf` defines, and afterwards both caches are
     * filled with the popcounts.
     */
    method Cosine(v2: HyperVector) returns (s: Score)
      requires |values| <= |v2.values|
      requires Coherent() && v2.Coherent()
      modifies this`norm, v2`norm
      ensures s == CosineOf(values, v2.values)
      ensures norm == Weight(values) && v2.norm == Weight(v2.values)
    {
      var d := DotWith(v2);
      var n1 := NormCheck();
      var n2 := v2.NormCheck();
      assert n1 == Weight(values) && n2 == Weight(v2.values);
      if n1 == 0 || n2 == 0 {
        s := NaN;
      } else {
        MulPositive(n1, n2);
        s := Ratio(d, n1 * n2);
      }
    }
  }

  /**
   * The inner loop of `Add`: the sum of `int(vector.values[i])` over the
   * inputs, whose column `i` is that of `ins`.
   */
  method SumColumn(vs: seq<HyperVector>, i: int, ghost ins: seq<seq<Byte>>) returns (sum: int)
    requires |ins| == |vs| && Reaches(ins, i)
    requires forall k | 0 <= k < |vs| :: i < |vs[k].values| && vs[k].values[i] == ins[k][i]
    ensures sum == ColumnSum(ins, i)
  {
    sum := 0;
    var k := 0;
    while k < |vs|
      invariant 0 <= k <= |vs|
      invariant Reaches(ins[..k], i) && sum == ColumnSum(ins[..k], i)
    {
      assert ins[..k + 1][..k] == ins[..k];
      sum := sum + vs[k].values[i] as int;
      k := k + 1;
    }
    assert ins[..|vs|] == ins;
  }

  /** Position `i` of a splice of `done` and `rest`, and the splice one position further. */
  lemma Splice(done: seq<Byte>, rest: seq<Byte>, i: int)
    requires 0 <= i < |done| == |rest|
    ensures (done[..i] + rest[i..])[i] == rest[i]
    ensures (done[..i] + rest[i..])[i := done[i]] == done[..i + 1] + rest[i + 1..]
  {
  }

  /** The contents of a list of vectors, in order. */
  ghost function ValuesOf(vs: seq<HyperVector>): (ins: seq<seq<Byte>>)
    reads vs
    ensures |ins| == |vs| && forall k | 0 <= k < |vs| :: ins[k] == vs[k].values
  {
    seq(|vs|, k requires 0 <= k < |vs| reads vs => vs[k].values)
  }
}
