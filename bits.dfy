/**
 * Value-level algebra of binary hypervectors (hv/hv.go).
 *
 * A hypervector's contents are a sequence of Go `uint8` values that are 0 or 1
 * in every vector the program builds.  The functions here are the
 * specifications that the imperative `HyperVector` methods are proved against:
 * circular rotation, elementwise XOR, strict-majority bundling, the `dot`
 * count and the popcount behind `normCheck`.
 */
module Bits {

  /** One element of a hypervector: Go's `uint8`. */
  type Byte = bv8

  function Zeros(d: nat): seq<Byte> { seq(d, _ => 0) }

  function Ones(d: nat): seq<Byte> { seq(d, _ => 1) }

  predicate Binary(s: seq<Byte>) {
    forall i | 0 <= i < |s| :: s[i] == 0 || s[i] == 1
  }

  // ---------------------------------------------------------------------------
  // Rotation
  // ---------------------------------------------------------------------------

  /** Go's `%` on `int`: truncates toward zero, so the remainder has the sign of the dividend. */
  function GoRem(a: int, b: int): int
    requires b > 0
  {
    if a >= 0 then a % b else -((-a) % b)
  }

  /**
   * `Rotate` computes `tmp := length - num % length` and slices at `tmp`:
   * it divides by zero on an empty vector, and a negative remainder puts the
   * slice bound past the end.  Non-negative amounts and negative multiples of
   * the length are the ones it accepts.
   */
  predicate CanRotate(s: seq<Byte>, num: int) {
    |s| > 0 && GoRem(num, |s|) >= 0
  }

  lemma CanRotateNonNegative(s: seq<Byte>, num: int)
    requires |s| > 0 && num >= 0
    ensures CanRotate(s, num)
  {
  }

  lemma MulAtLeast(z: int, L: int)
    requires z >= 1 && L > 0
    ensures z * L >= L
  {
  }

  /** If `y` lies in `[0, L)` and differs from `x` by a multiple of `L`, then `y` is `x % L`. */
  lemma ModUnique(x: int, y: int, q: int, L: int)
    requires L > 0 && 0 <= y < L && x == y + q * L
    ensures x % L == y
  {
    var r := x % L;
    var m := x / L;
    assert 0 <= r < L;
    assert x == m * L + r;
    var z := m - q;
    assert z * L == m * L - q * L;
    assert z * L == y - r;
    if z >= 1 {
      MulAtLeast(z, L);
    } else if z <= -1 {
      MulAtLeast(-z, L);
    }
  }

  /** The remainder Go computes in `Rotate` is congruent to the amount modulo the length. */
  lemma GoRemCongruent(num: int, L: int) returns (q: int)
    requires L > 0 && GoRem(num, L) >= 0
    ensures num == GoRem(num, L) + q * L
  {
    if num >= 0 {
      q := num / L;
    } else {
      q := -((-num) / L);
    }
  }

  /** Where the element at position `k` of the rotation comes from. */
  lemma RotatedSource(k: int, num: int, L: int)
    requires L > 0 && GoRem(num, L) >= 0 && 0 <= k < L
    ensures var rem := GoRem(num, L);
      (k - num) % L == if k >= rem then k - rem else k - rem + L
  {
    var rem := GoRem(num, L);
    var q := GoRemCongruent(num, L);
    if k >= rem {
      ModUnique(k - num, k - rem, -q, L);
    } else {
      ModUnique(k - num, k - rem + L, -q - 1, L);
    }
  }

  /**
   * The vector `Rotate(num, _)` builds, `v.values[tmp:] ++ v.values[:tmp]`:
   * a circular rotation to the right by `num` places.
   */
  function Rotated(s: seq<Byte>, num: int): (r: seq<Byte>)
    requires CanRotate(s, num)
    ensures |r| == |s|
    ensures forall k | 0 <= k < |s| :: r[k] == s[(k - num) % |s|]
  {
    var tmp := |s| - GoRem(num, |s|);
    var r := s[tmp..] + s[..tmp];
    assert forall k | 0 <= k < |s| :: r[k] == s[(k - num) % |s|] by {
      forall k | 0 <= k < |s| ensures r[k] == s[(k - num) % |s|] {
        RotatedSource(k, num, |s|);
      }
    }
    r
  }

  /** A rotation by any multiple of the length, zero included, reproduces the vector. */
  lemma RotateByMultiple(s: seq<Byte>, num: int)
    requires |s| > 0 && num % |s| == 0
    ensures CanRotate(s, num) && Rotated(s, num) == s
  {
    var L := |s|;
    var m := num / L;
    assert num == m * L;
    assert -num == (-m) * L;
    if num < 0 {
      ModUnique(-num, 0, -m, L);
    }
    assert GoRem(num, L) == 0;
    var r := Rotated(s, num);
    forall k | 0 <= k < L ensures r[k] == s[k] {
      assert k - num == k + (-m) * L;
      ModUnique(k - num, k, -m, L);
    }
  }

  lemma RotateByZero(s: seq<Byte>)
    requires |s| > 0
    ensures CanRotate(s, 0) && Rotated(s, 0) == s
  {
    RotateByMultiple(s, 0);
  }

  /** Rotating by `a` and then by `b` is rotating by `a + b`. */
  lemma RotateCompose(s: seq<Byte>, a: int, b: int)
    requires |s| > 0 && a >= 0 && b >= 0
    ensures CanRotate(s, a) && CanRotate(Rotated(s, a), b) && CanRotate(s, a + b)
    ensures Rotated(Rotated(s, a), b) == Rotated(s, a + b)
  {
    var L := |s|;
    var r1 := Rotated(s, a);
    var r2 := Rotated(r1, b);
    var r := Rotated(s, a + b);
    forall k | 0 <= k < L ensures r2[k] == r[k] {
      var x := (k - b) % L;
      var qx := (k - b) / L;
      assert k - b == qx * L + x;
      var y := (x - a) % L;
      var qy := (x - a) / L;
      assert x - a == qy * L + y;
      ModUnique(k - a - b, y, qx + qy, L);
    }
  }

  /** Rotating by `a` and then by `b = L - a` restores the vector: rotation is a bijection. */
  lemma RotateInverse(s: seq<Byte>, a: int, b: int)
    requires |s| > 0 && 0 <= a && 0 <= b && a + b == |s|
    ensures CanRotate(s, a) && CanRotate(Rotated(s, a), b)
    ensures Rotated(Rotated(s, a), b) == s
  {
    var L := |s|;
    var r1 := Rotated(s, a);
    var r2 := Rotated(r1, b);
    forall k | 0 <= k < L ensures r2[k] == s[k] {
      var x := if k + a >= L then k + a - L else k + a;
      if k + a >= L {
        ModUnique(k - (L - a), x, 0, L);
        ModUnique(x - a, k, -1, L);
      } else {
        ModUnique(k - (L - a), x, -1, L);
        ModUnique(x - a, k, 0, L);
      }
      assert r2[k] == r1[x];
    }
    assert |r2| == L;
    assert r2 == s;
  }

  lemma RotatePreservesBinary(s: seq<Byte>, num: int)
    requires CanRotate(s, num) && Binary(s)
    ensures Binary(Rotated(s, num))
  {
    var r := Rotated(s, num);
    forall k | 0 <= k < |s| ensures r[k] == 0 || r[k] == 1 {
      assert r[k] == s[(k - num) % |s|];
    }
  }

  // ---------------------------------------------------------------------------
  // Binding (XOR)
  // ---------------------------------------------------------------------------

  /** `Xor` over the receiver's positions; the argument may be longer. */
  function XorSeq(a: seq<Byte>, b: seq<Byte>): seq<Byte>
    requires |a| <= |b|
  {
    seq(|a|, i requires 0 <= i < |a| => a[i] ^ b[i])
  }

  /** Binding twice with the same vector restores the original. */
  lemma XorSelfInverse(a: seq<Byte>, b: seq<Byte>)
    requires |a| <= |b|
    ensures XorSeq(XorSeq(a, b), b) == a
  {
  }

  lemma XorPreservesBinary(a: seq<Byte>, b: seq<Byte>)
    requires |a| <= |b| && Binary(a) && Binary(b)
    ensures Binary(XorSeq(a, b))
  {
  }

  lemma XorCommutes(a: seq<Byte>, b: seq<Byte>)
    requires |a| == |b|
    ensures XorSeq(a, b) == XorSeq(b, a)
  {
  }

  // ---------------------------------------------------------------------------
  // Bundling (strict majority)
  // ---------------------------------------------------------------------------

  /** Every input has a position `i`. */
  predicate Reaches(ins: seq<seq<Byte>>, i: int) {
    0 <= i && forall k | 0 <= k < |ins| :: i < |ins[k]|
  }

  /** The sum `Add` accumulates at position `i`: `int(vector.values[i])` over the inputs. */
  function ColumnSum(ins: seq<seq<Byte>>, i: int): int
    requires Reaches(ins, i)
  {
    if |ins| == 0 then 0
    else
      var last := ins[|ins| - 1];
      ColumnSum(ins[..|ins| - 1], i) + last[i] as int
  }

  /** How many inputs hold a 1 at position `i`. */
  function CountOnes(ins: seq<seq<Byte>>, i: int): (c: nat)
    requires Reaches(ins, i)
    ensures c <= |ins|
  {
    if |ins| == 0 then 0
    else
      var last := ins[|ins| - 1];
      CountOnes(ins[..|ins| - 1], i) + (if last[i] == 1 then 1 else 0)
  }

  predicate AllBinary(ins: seq<seq<Byte>>) {
    forall k | 0 <= k < |ins| :: Binary(ins[k])
  }

  /** On 0/1 inputs the byte sum `Add` accumulates is the number of inputs with a 1. */
  lemma {:induction false} ColumnSumCountsOnes(ins: seq<seq<Byte>>, i: int)
    requires Reaches(ins, i) && AllBinary(ins)
    ensures ColumnSum(ins, i) == CountOnes(ins, i)
  {
    if |ins| > 0 {
      ColumnSumCountsOnes(ins[..|ins| - 1], i);
    }
  }

  /**
   * `Add` reads every input at each of the positions it writes: the receiver's
   * positions, or the lone input's own positions when there is one input.
   */
  predicate BundleDefined(recv: seq<Byte>, ins: seq<seq<Byte>>) {
    |ins| < 2 || forall k | 0 <= k < |ins| :: |recv| <= |ins[k]|
  }

  /** Length of the vector `Add` leaves in the receiver. */
  function BundleLength(recv: seq<Byte>, ins: seq<seq<Byte>>): nat {
    if |ins| == 1 then |ins[0]| else |recv|
  }

  /**
   * The receiver's contents after `Add(ins...)`: unchanged for no inputs;
   * otherwise position `i` is 1 exactly when the column sum reaches
   * `thr = n/2 + 1`.  With one input the receiver takes that input's values first.
   */
  function Bundle(recv: seq<Byte>, ins: seq<seq<Byte>>): seq<Byte>
    requires BundleDefined(recv, ins)
  {
    if |ins| == 0 then recv
    else
      var n := BundleLength(recv, ins);
      seq(n, i requires 0 <= i < n => if ColumnSum(ins, i) >= |ins| / 2 + 1 then 1 else 0)
  }

  /**
   * On 0/1 inputs bundling is a strict majority vote: position `i` is 1 iff
   * at least `n/2 + 1` inputs hold a 1 there, and the result is again 0/1.
   */
  lemma BundleIsStrictMajority(recv: seq<Byte>, ins: seq<seq<Byte>>)
    requires |ins| >= 1 && BundleDefined(recv, ins) && AllBinary(ins)
    ensures |Bundle(recv, ins)| == BundleLength(recv, ins)
    ensures Binary(Bundle(recv, ins))
    ensures forall i | 0 <= i < |Bundle(recv, ins)| ::
      Reaches(ins, i) && (Bundle(recv, ins)[i] == 1 <==> CountOnes(ins, i) >= |ins| / 2 + 1)
  {
    var r := Bundle(recv, ins);
    forall i | 0 <= i < |r|
      ensures Reaches(ins, i) && (r[i] == 1 <==> CountOnes(ins, i) >= |ins| / 2 + 1)
    {
      ColumnSumCountsOnes(ins, i);
    }
  }

  /** An exact half-half split of an even number of inputs resolves to 0. */
  lemma BundleTieIsZero(recv: seq<Byte>, ins: seq<seq<Byte>>, i: int)
    requires |ins| >= 2 && |ins| % 2 == 0 && BundleDefined(recv, ins) && AllBinary(ins)
    requires 0 <= i < |recv| && CountOnes(ins, i) == |ins| / 2
    ensures Bundle(recv, ins)[i] == 0
  {
    BundleIsStrictMajority(recv, ins);
  }

  /** On an odd number of 0/1 inputs the vote is never tied: 1 iff ones outnumber zeros. */
  lemma BundleOddIsMajority(recv: seq<Byte>, ins: seq<seq<Byte>>)
    requires |ins| % 2 == 1 && BundleDefined(recv, ins) && AllBinary(ins)
    ensures forall i | 0 <= i < |Bundle(recv, ins)| ::
      Reaches(ins, i) && (Bundle(recv, ins)[i] == 1 <==> 2 * CountOnes(ins, i) > |ins|)
  {
    BundleIsStrictMajority(recv, ins);
  }

  /** Bundling a single 0/1 vector reproduces it, whatever the receiver held. */
  lemma BundleSingle(recv: seq<Byte>, v: seq<Byte>)
    requires Binary(v)
    ensures BundleDefined(recv, [v]) && Bundle(recv, [v]) == v
  {
    var r := Bundle(recv, [v]);
    forall i | 0 <= i < |v| ensures r[i] == v[i] {
      ColumnSumCountsOnes([v], i);
      assert [v][..0] == [];
    }
  }

  lemma {:induction false} CountOnesUnanimous(ins: seq<seq<Byte>>, v: seq<Byte>, i: int)
    requires forall k | 0 <= k < |ins| :: ins[k] == v
    requires 0 <= i < |v|
    ensures Reaches(ins, i)
    ensures CountOnes(ins, i) == if v[i] == 1 then |ins| else 0
  {
    if |ins| > 0 {
      CountOnesUnanimous(ins[..|ins| - 1], v, i);
    }
  }

  /** `n >= 1` identical 0/1 inputs of the receiver's length bundle back to that input. */
  lemma BundleUnanimous(recv: seq<Byte>, ins: seq<seq<Byte>>, v: seq<Byte>)
    requires |ins| >= 1 && (forall k | 0 <= k < |ins| :: ins[k] == v)
    requires Binary(v) && |v| == |recv|
    ensures BundleDefined(recv, ins) && Bundle(recv, ins) == v
  {
    var r := Bundle(recv, ins);
    assert |r| == |v|;
    forall i | 0 <= i < |v| ensures r[i] == v[i] {
      CountOnesUnanimous(ins, v, i);
      ColumnSumCountsOnes(ins, i);
    }
  }

  // ---------------------------------------------------------------------------
  // dot and popcount
  // ---------------------------------------------------------------------------

  /** `dot`: the sum of `a[i] & b[i]` over the positions of `a`. */
  function Dot(a: seq<Byte>, b: seq<Byte>): nat
    requires |a| <= |b|
  {
    if |a| == 0 then 0 else Dot(a[..|a| - 1], b) + (a[|a| - 1] & b[|a| - 1]) as int
  }

  /** The sum `normCheck` accumulates: the popcount of a 0/1 vector. */
  function Weight(a: seq<Byte>): nat
  {
    if |a| == 0 then 0 else Weight(a[..|a| - 1]) + a[|a| - 1] as int
  }

  lemma {:induction false} DotSymmetric(a: seq<Byte>, b: seq<Byte>)
    requires |a| == |b|
    ensures Dot(a, b) == Dot(b, a)
  {
    if |a| > 0 {
      DotSymmetric(a[..|a| - 1], b[..|b| - 1]);
      DotPrefix(a[..|a| - 1], b);
      DotPrefix(b[..|b| - 1], a);
      assert a[|a| - 1] & b[|a| - 1] == b[|a| - 1] & a[|a| - 1];
    }
  }

  /** `dot` only looks at the first `|a|` positions of its second argument. */
  lemma {:induction false} DotPrefix(a: seq<Byte>, b: seq<Byte>)
    requires |a| <= |b|
    ensures Dot(a, b) == Dot(a, b[..|a|])
  {
    if |a| > 0 {
      DotPrefix(a[..|a| - 1], b);
      DotPrefix(a[..|a| - 1], b[..|a|]);
      assert b[..|a|][..|a| - 1] == b[..|a| - 1];
    }
  }

  /** `dot(v, v)` is the popcount that `normCheck` sums. */
  lemma {:induction false} DotSelfIsWeight(a: seq<Byte>)
    ensures Dot(a, a) == Weight(a)
  {
    if |a| > 0 {
      DotSelfIsWeight(a[..|a| - 1]);
      DotPrefix(a[..|a| - 1], a);
      assert a[..|a| - 1][..|a| - 1] == a[..|a| - 1];
      assert a[|a| - 1] & a[|a| - 1] == a[|a| - 1];
    }
  }

  /** The overlap of two 0/1 vectors is at most the popcount of each. */
  lemma {:induction false} DotBounds(a: seq<Byte>, b: seq<Byte>)
    requires |a| == |b| && Binary(a) && Binary(b)
    ensures Dot(a, b) <= Weight(a) && Dot(a, b) <= Weight(b)
  {
    if |a| > 0 {
      var n := |a| - 1;
      DotBounds(a[..n], b[..n]);
      DotPrefix(a[..n], b);
      assert a[n] == 0 || a[n] == 1;
      assert b[n] == 0 || b[n] == 1;
    }
  }

  /** An overlap equal to both popcounts means the two 0/1 vectors are equal. */
  lemma {:induction false} DotTight(a: seq<Byte>, b: seq<Byte>)
    requires |a| == |b| && Binary(a) && Binary(b)
    requires Dot(a, b) == Weight(a) && Dot(a, b) == Weight(b)
    ensures a == b
  {
    if |a| > 0 {
      var n := |a| - 1;
      DotBounds(a[..n], b[..n]);
      DotPrefix(a[..n], b);
      assert a[n] == 0 || a[n] == 1;
      assert b[n] == 0 || b[n] == 1;
      DotTight(a[..n], b[..n]);
      assert a == a[..n] + [a[n]] && b == b[..n] + [b[n]];
    }
  }

  /** The popcount of a 0/1 vector is at most its length. */
  lemma {:induction false} WeightAtMostLength(a: seq<Byte>)
    requires Binary(a)
    ensures Weight(a) <= |a|
  {
    if |a| > 0 {
      WeightAtMostLength(a[..|a| - 1]);
    }
  }

  lemma {:induction false} WeightOfOnes(d: nat)
    ensures Weight(Ones(d)) == d
  {
    if d > 0 {
      WeightOfOnes(d - 1);
      assert Ones(d)[..d - 1] == Ones(d - 1);
    }
  }
}
