/**
 * The text encoding of `makeTextHypervector` (hd/hd.go), as functions of the
 * symbol basis: normalisation, the `ngram`-wide window vectors, the
 * tie-breaker padding and the bundled profile.
 *
 * The basis is given by its contents, `B[code]` for each key of `asciis`, and
 * `d` is the dimension every vector has.
 */
module Text {
  import opened Bits

  // ---------------------------------------------------------------------------
  // Normalisation
  // ---------------------------------------------------------------------------

  /** The characters the pattern `[^a-zA-Z0-9]+` does not match. */
  predicate IsAlnum(c: char) {
    ('a' <= c <= 'z') || ('A' <= c <= 'Z') || ('0' <= c <= '9')
  }

  /** The characters left after normalisation. */
  predicate IsLowerAlnum(c: char) {
    ('a' <= c <= 'z') || ('0' <= c <= '9')
  }

  /** `strings.ToLower` on one ASCII character. */
  function ToLowerChar(c: char): char {
    if 'A' <= c <= 'Z' then (c as int + 32) as char else c
  }

  /** `reg.ReplaceAllString(text, "")` with the pattern `[^a-zA-Z0-9]+`: drops every other character. */
  function Strip(text: string): string {
    if |text| == 0 then ""
    else Strip(text[..|text| - 1]) + (if IsAlnum(text[|text| - 1]) then [text[|text| - 1]] else [])
  }

  /** `strings.ToLower` on an ASCII string. */
  function Lower(s: string): string {
    seq(|s|, i requires 0 <= i < |s| => ToLowerChar(s[i]))
  }

  /** The text `makeTextHypervector` encodes: stripped, then lowercased. */
  function Normalize(text: string): string {
    Lower(Strip(text))
  }

  lemma {:induction false} StripKeepsAlnum(text: string)
    ensures forall i | 0 <= i < |Strip(text)| :: IsAlnum(Strip(text)[i])
  {
    if |text| > 0 {
      StripKeepsAlnum(text[..|text| - 1]);
    }
  }

  /** Normalised text holds only `[a-z0-9]`, so every code is below 127. */
  lemma NormalizedIsLowerAlnum(text: string)
    ensures forall i | 0 <= i < |Normalize(text)| ::
      IsLowerAlnum(Normalize(text)[i]) && 0 <= Normalize(text)[i] as int < 127
  {
    StripKeepsAlnum(text);
  }

  /** Normalisation works character by character: it distributes over concatenation. */
  lemma {:induction false} StripConcat(a: string, b: string)
    ensures Strip(a + b) == Strip(a) + Strip(b)
  {
    if |b| == 0 {
      assert a + b == a;
    } else {
      var b' := b[..|b| - 1];
      assert (a + b)[..|a + b| - 1] == a + b';
      StripConcat(a, b');
    }
  }

  lemma NormalizeConcat(a: string, b: string)
    ensures Normalize(a + b) == Normalize(a) + Normalize(b)
  {
    StripConcat(a, b);
  }

  /** On one character normalisation keeps it, lowercased, exactly when it is in `[A-Za-z0-9]`. */
  lemma NormalizeChar(c: char)
    ensures Normalize([c]) == if IsAlnum(c) then [ToLowerChar(c)] else []
  {
    assert [c][..0] == [];
    assert Strip([c]) == if IsAlnum(c) then [c] else [];
  }

  lemma {:induction false} StripOfAlnum(s: string)
    requires forall i | 0 <= i < |s| :: IsAlnum(s[i])
    ensures Strip(s) == s
  {
    if |s| > 0 {
      StripOfAlnum(s[..|s| - 1]);
    }
  }

  /** Normalising twice changes nothing. */
  lemma NormalizeIdempotent(text: string)
    ensures Normalize(Normalize(text)) == Normalize(text)
  {
    var t := Normalize(text);
    NormalizedIsLowerAlnum(text);
    StripOfAlnum(t);
  }

  /**
   * Normalisation keeps exactly the `[A-Za-z0-9]` characters: a character
   * occurs in the result iff it is the lowercase form of one of them.
   */
  lemma {:induction false} NormalizeMembership(text: string, c: char)
    ensures c in Normalize(text) <==> exists i | 0 <= i < |text| :: IsAlnum(text[i]) && ToLowerChar(text[i]) == c
  {
    if |text| > 0 {
      var n := |text| - 1;
      var init := text[..n];
      NormalizeMembership(init, c);
      assert text == init + [text[n]];
      NormalizeConcat(init, [text[n]]);
      NormalizeChar(text[n]);
      if exists i | 0 <= i < |text| :: IsAlnum(text[i]) && ToLowerChar(text[i]) == c {
        var i :| 0 <= i < |text| && IsAlnum(text[i]) && ToLowerChar(text[i]) == c;
        if i < n {
          assert init[i] == text[i];
        }
      }
      if exists i | 0 <= i < |init| :: IsAlnum(init[i]) && ToLowerChar(init[i]) == c {
        var i :| 0 <= i < |init| && IsAlnum(init[i]) && ToLowerChar(init[i]) == c;
        assert text[i] == init[i];
      }
    }
  }

  // ---------------------------------------------------------------------------
  // Window vectors
  // ---------------------------------------------------------------------------

  /** Every character of `t` has a basis vector of dimension `d`. */
  predicate Covers(B: map<int, seq<Byte>>, t: string, d: nat) {
    d > 0 && forall j | 0 <= j < |t| :: t[j] as int in B && |B[t[j] as int]| == d
  }

  /** The basis `EncodeAsciis` leaves: keys `0 .. 126`, each of dimension `d`. */
  predicate BasisCovers(B: map<int, seq<Byte>>, d: nat) {
    d > 0 && forall k | 0 <= k < 127 :: k in B && |B[k]| == d
  }

  lemma NormalizedIsCovered(B: map<int, seq<Byte>>, d: nat, text: string)
    requires BasisCovers(B, d)
    ensures Covers(B, Normalize(text), d)
  {
    NormalizedIsLowerAlnum(text);
  }

  /**
   * The accumulator after the first `m` characters of the window starting at
   * `i`: the XOR of their basis vectors, character `j` rotated by `n - 1 - j`.
   */
  function Bind(B: map<int, seq<Byte>>, d: nat, t: string, i: nat, n: nat, m: nat): (r: seq<Byte>)
    requires Covers(B, t, d) && 1 <= m <= n && i + n <= |t|
    ensures |r| == d
    decreases m
  {
    var rotated := Rotated(B[t[i + m - 1] as int], n - m);
    if m == 1 then rotated else XorSeq(Bind(B, d, t, i, n, m - 1), rotated)
  }

  /** One more character of a window. */
  lemma BindStep(B: map<int, seq<Byte>>, d: nat, t: string, i: nat, n: nat, m: nat)
    requires Covers(B, t, d) && 1 <= m < n && i + n <= |t|
    ensures Bind(B, d, t, i, n, m + 1) == XorSeq(Bind(B, d, t, i, n, m), Rotated(B[t[i + m] as int], n - m - 1))
  {
  }

  /** The vector of the `n`-character window that starts at `i`. */
  function Window(B: map<int, seq<Byte>>, d: nat, t: string, i: nat, n: nat): seq<Byte>
    requires Covers(B, t, d) && 1 <= n && i + n <= |t|
  {
    Bind(B, d, t, i, n, n)
  }

  /** One window vector per start offset `0 .. |t| - n`. */
  function Windows(B: map<int, seq<Byte>>, d: nat, t: string, n: nat): (ws: seq<seq<Byte>>)
    requires Covers(B, t, d) && 1 <= n && n <= |t| + 1
    ensures |ws| == |t| - n + 1
    ensures forall k | 0 <= k < |ws| :: |ws[k]| == d
  {
    seq(|t| - n + 1, i requires 0 <= i < |t| - n + 1 => Window(B, d, t, i, n))
  }

  /** The list handed to `Add`: the windows, plus the tie-breaker when their number is even. */
  function Padded(ws: seq<seq<Byte>>, tieBreak: seq<Byte>): seq<seq<Byte>> {
    if |ws| % 2 == 0 then ws + [tieBreak] else ws
  }

  /** For unigrams each window vector is a copy of the character's basis vector. */
  lemma UnigramWindowIsBasis(B: map<int, seq<Byte>>, d: nat, t: string, i: nat)
    requires Covers(B, t, d) && i < |t|
    ensures Window(B, d, t, i, 1) == B[t[i] as int]
  {
    RotateByZero(B[t[i] as int]);
  }

  /** The last character of a window is bound without rotation. */
  lemma LastCharacterUnrotated(B: map<int, seq<Byte>>, d: nat, t: string, i: nat, n: nat)
    requires Covers(B, t, d) && 2 <= n && i + n <= |t|
    ensures Window(B, d, t, i, n) == XorSeq(Bind(B, d, t, i, n, n - 1), B[t[i + n - 1] as int])
  {
    RotateByZero(B[t[i + n - 1] as int]);
  }

  predicate BinaryBasis(B: map<int, seq<Byte>>) {
    forall k | k in B :: Binary(B[k])
  }

  lemma {:induction false} BindIsBinary(B: map<int, seq<Byte>>, d: nat, t: string, i: nat, n: nat, m: nat)
    requires Covers(B, t, d) && 1 <= m <= n && i + n <= |t| && BinaryBasis(B)
    ensures Binary(Bind(B, d, t, i, n, m))
    decreases m
  {
    RotatePreservesBinary(B[t[i + m - 1] as int], n - m);
    if m > 1 {
      BindIsBinary(B, d, t, i, n, m - 1);
      XorPreservesBinary(Bind(B, d, t, i, n, m - 1), Rotated(B[t[i + m - 1] as int], n - m));
    }
  }

  /** Over a 0/1 basis every window vector is 0/1. */
  lemma WindowsAreBinary(B: map<int, seq<Byte>>, d: nat, t: string, n: nat)
    requires Covers(B, t, d) && 1 <= n <= |t| + 1 && BinaryBasis(B)
    ensures AllBinary(Windows(B, d, t, n))
  {
    var ws := Windows(B, d, t, n);
    forall k | 0 <= k < |ws| ensures Binary(ws[k]) {
      BindIsBinary(B, d, t, k, n, n);
    }
  }

  // ---------------------------------------------------------------------------
  // The profile vector
  // ---------------------------------------------------------------------------

  datatype Fault =
    | CannotEncode          // `panic("cannot encode")` for `ngram < 1`
    | NegativeSliceLength   // `make` with `numNgram < 0`

  datatype Encoding = Crash(fault: Fault) | Profile(vector: seq<Byte>)

  /**
   * What `makeTextHypervector` stores under `name`, as the code is written:
   * the degenerate-input branches write the all-ones sentinel but fall
   * through, so a text one character short of `n` stores the bundle of the
   * lone tie-breaker, and a shorter one reaches `make` with a negative length.
   */
  function EncodeAsWritten(B: map<int, seq<Byte>>, d: nat, text: string, n: int, tieBreak: seq<Byte>): Encoding
    requires BasisCovers(B, d) && |tieBreak| == d
  {
    if n < 1 then Crash(CannotEncode)
    else
      var t := Normalize(text);
      if |t| - n + 1 < 0 then Crash(NegativeSliceLength)
      else
        NormalizedIsCovered(B, d, text);
        Profile(Bundle(Zeros(d), Padded(Windows(B, d, t, n), tieBreak)))
  }

  /**
   * The encoding with the degenerate-input branches returning after they
   * store the sentinel: a text shorter than `n` is encoded as all ones.
   */
  function EncodeIntended(B: map<int, seq<Byte>>, d: nat, text: string, n: int, tieBreak: seq<Byte>): Encoding
    requires BasisCovers(B, d) && |tieBreak| == d
  {
    if n < 1 then Crash(CannotEncode)
    else if |Normalize(text)| < n then Profile(Ones(d))
    else EncodeAsWritten(B, d, text, n, tieBreak)
  }

  /**
   * Whenever the text is at least `n - 1` characters long the encoding
   * bundles the `|t| - n + 1` windows, padded to an odd number of vectors.
   */
  lemma BundledListIsOdd(B: map<int, seq<Byte>>, d: nat, text: string, n: int, tieBreak: seq<Byte>)
    requires BasisCovers(B, d) && |tieBreak| == d
    requires n >= 1 && |Normalize(text)| >= n - 1
    ensures Covers(B, Normalize(text), d)
    ensures |Padded(Windows(B, d, Normalize(text), n), tieBreak)| % 2 == 1
    ensures EncodeAsWritten(B, d, text, n, tieBreak)
      == Profile(Bundle(Zeros(d), Padded(Windows(B, d, Normalize(text), n), tieBreak)))
  {
    NormalizedIsCovered(B, d, text);
  }

  /**
   * Over a 0/1 basis and tie-breaker the stored profile is a 0/1 vector of
   * dimension `d` whose bit `i` is 1 iff more than half of the bundled
   * vectors have a 1 there; the odd list length rules out ties.
   */
  lemma ProfileIsMajority(B: map<int, seq<Byte>>, d: nat, text: string, n: int, tieBreak: seq<Byte>)
    requires BasisCovers(B, d) && BinaryBasis(B) && |tieBreak| == d && Binary(tieBreak)
    requires EncodeAsWritten(B, d, text, n, tieBreak).Profile?
    ensures n >= 1 && |Normalize(text)| >= n - 1 && Covers(B, Normalize(text), d)
    ensures var v := EncodeAsWritten(B, d, text, n, tieBreak).vector;
      var list := Padded(Windows(B, d, Normalize(text), n), tieBreak);
      |v| == d && Binary(v) &&
      forall i | 0 <= i < d :: Reaches(list, i) && (v[i] == 1 <==> 2 * CountOnes(list, i) > |list|)
  {
    var t := Normalize(text);
    NormalizedIsCovered(B, d, text);
    var ws := Windows(B, d, t, n);
    var list := Padded(ws, tieBreak);
    WindowsAreBinary(B, d, t, n);
    assert AllBinary(list);
    BundleIsStrictMajority(Zeros(d), list);
    BundleOddIsMajority(Zeros(d), list);
  }

  /** A text of exactly `n` characters is encoded as its single window vector. */
  lemma SingleWindowProfile(B: map<int, seq<Byte>>, d: nat, text: string, n: int, tieBreak: seq<Byte>)
    requires BasisCovers(B, d) && BinaryBasis(B) && |tieBreak| == d
    requires n >= 1 && |Normalize(text)| == n
    ensures Covers(B, Normalize(text), d)
    ensures EncodeAsWritten(B, d, text, n, tieBreak) == Profile(Window(B, d, Normalize(text), 0, n))
  {
    var t := Normalize(text);
    NormalizedIsCovered(B, d, text);
    var ws := Windows(B, d, t, n);
    assert ws == [Window(B, d, t, 0, n)];
    BindIsBinary(B, d, t, 0, n, n);
    BundleSingle(Zeros(d), ws[0]);
  }

  // ---------------------------------------------------------------------------
  // The degenerate-input branches
  // ---------------------------------------------------------------------------

  /** As written, a text one character short of `n` stores the tie-breaker, not the sentinel. */
  lemma OneShortStoresTieBreaker(B: map<int, seq<Byte>>, d: nat, text: string, n: int, tieBreak: seq<Byte>)
    requires BasisCovers(B, d) && |tieBreak| == d && Binary(tieBreak)
    requires n >= 1 && |Normalize(text)| == n - 1
    ensures EncodeAsWritten(B, d, text, n, tieBreak) == Profile(tieBreak)
  {
    NormalizedIsCovered(B, d, text);
    assert Windows(B, d, Normalize(text), n) == [];
    BundleSingle(Zeros(d), tieBreak);
  }

  /** As written, a text more than one character short of `n` crashes. */
  lemma TooShortCrashes(B: map<int, seq<Byte>>, d: nat, text: string, n: int, tieBreak: seq<Byte>)
    requires BasisCovers(B, d) && |tieBreak| == d
    requires n >= 1 && |Normalize(text)| < n - 1
    ensures EncodeAsWritten(B, d, text, n, tieBreak) == Crash(NegativeSliceLength)
  {
  }

  /**
   * With the default trigram width an empty document crashes, and a
   * two-character one stores the tie-breaker instead of all ones.
   */
  lemma DegenerateInputsAsWritten(B: map<int, seq<Byte>>, d: nat, tieBreak: seq<Byte>)
    requires BasisCovers(B, d) && |tieBreak| == d && Binary(tieBreak) && tieBreak != Ones(d)
    ensures EncodeAsWritten(B, d, "", 3, tieBreak) == Crash(NegativeSliceLength)
    ensures EncodeAsWritten(B, d, "ab", 3, tieBreak) != Profile(Ones(d))
  {
    assert Normalize("") == "";
    assert Strip("ab") == "ab" by {
      assert "ab"[..1] == "a";
      assert "a"[..0] == "";
    }
    assert |Normalize("ab")| == 2;
    OneShortStoresTieBreaker(B, d, "ab", 3, tieBreak);
  }

  /**
   * The intended encoding never crashes for a valid width, gives every text
   * shorter than the width the all-ones sentinel, and otherwise agrees with
   * the code as written.
   */
  lemma IntendedEncoding(B: map<int, seq<Byte>>, d: nat, text: string, n: int, tieBreak: seq<Byte>)
    requires BasisCovers(B, d) && BinaryBasis(B) && |tieBreak| == d && Binary(tieBreak) && n >= 1
    ensures EncodeIntended(B, d, text, n, tieBreak).Profile?
    ensures |Normalize(text)| < n ==> EncodeIntended(B, d, text, n, tieBreak) == Profile(Ones(d))
    ensures |Normalize(text)| >= n ==> EncodeIntended(B, d, text, n, tieBreak) == EncodeAsWritten(B, d, text, n, tieBreak)
    ensures var v := EncodeIntended(B, d, text, n, tieBreak).vector; |v| == d && Binary(v)
  {
    if |Normalize(text)| >= n {
      ProfileIsMajority(B, d, text, n, tieBreak);
    }
  }
}
