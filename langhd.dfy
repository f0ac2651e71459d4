/**
 * The `langHD` object of hd/hd.go: the symbol basis `asciis`, the language
 * profiles `langs` and the test profiles `tests`, with the operations that
 * fill them and the nearest-profile classification of `Testing`.
 *
 * Random draws, Go's map iteration orders and the printed lines are
 * parameters and results: `EncodeAsciis` takes its 127 draws, the encoding
 * takes its tie-breaker draw, and `Testing` takes the orders in which the
 * maps are visited and returns the lines it would print.
 */
module HD {
  import opened Bits
  import opened Similarity
  import opened Text
  import opened Selection
  import opened HV

  /** How `makeTextHypervector` ends: it stores a profile, or panics. */
  datatype Outcome = Stored | Panicked(fault: Fault)

  /** One line printed by `Testing`. */
  datatype Verdict = NoMatch(test: string) | Language(test: string, language: string)

  /** The line for a test whose scan ended with `match`. */
  function Announce(testName: string, chosen: string): Verdict {
    if chosen == "" then NoMatch(testName) else Language(testName, chosen)
  }

  /** `order` lists every element of `keys` once: an iteration order of a map with these keys. */
  predicate Enumerates(order: seq<string>, keys: set<string>) {
    (forall i, j | 0 <= i < j < |order| :: order[i] != order[j]) &&
    (forall k | 0 <= k < |order| :: order[k] in keys) &&
    (forall key | key in keys :: key in order)
  }

  /** A sequence without repeats has as many distinct elements as entries. */
  lemma {:induction false} DistinctCount(order: seq<string>)
    requires forall i, j | 0 <= i < j < |order| :: order[i] != order[j]
    ensures |set x | x in order| == |order|
  {
    if |order| > 0 {
      var init := order[..|order| - 1];
      var last := order[|order| - 1];
      DistinctCount(init);
      assert (set x | x in order) == (set x | x in init) + {last};
      assert last !in (set x | x in init);
    }
  }

  /** An iteration order of a map visits as many entries as the map has keys. */
  lemma EnumeratesCount(order: seq<string>, keys: set<string>)
    requires Enumerates(order, keys)
    ensures |order| == |keys|
  {
    DistinctCount(order);
    assert (set x | x in order) == keys;
  }

  /** `m` is `m0` with `name` now holding a vector of contents `v`, dimension `d` and no cached norm. */
  ghost predicate Holds(m: map<string, HyperVector>, m0: map<string, HyperVector>, name: string, v: seq<Byte>)
    reads m.Values
  {
    name in m && m == m0[name := m[name]] && m[name].values == v && m[name].length == |v| && m[name].norm == -1
  }

  /** The vector kept under a document's name once the encoding has got past the `ngram` check. */
  function Kept(e: Encoding, d: nat): seq<Byte> {
    if e.Profile? then e.vector else Ones(d)
  }

  class LangHD {
    var asciis: map<int, HyperVector>
    var dim: int
    var ngram: int
    var langs: map<string, HyperVector>
    var tests: map<string, HyperVector>

    /** `NewLangHD(dim, ngram)`: no symbol, language or test vectors yet. */
    constructor (dim: int, ngram: int)
      ensures this.dim == dim && this.ngram == ngram
      ensures asciis == map[] && langs == map[] && tests == map[]
      ensures KeysInRange()
    {
      this.dim := dim;
      this.ngram := ngram;
      asciis := map[];
      langs := map[];
      tests := map[];
    }

    /** The symbol basis only ever has the keys `0 .. 126`. */
    ghost predicate KeysInRange()
      reads this`asciis
    {
      forall k | k in asciis :: 0 <= k < 127
    }

    /** The contents of the symbol vectors. */
    ghost function Basis(): (B: map<int, seq<Byte>>)
      reads this`asciis, asciis.Values
      ensures B.Keys == asciis.Keys && forall k | k in asciis :: B[k] == asciis[k].values
    {
      map k | k in asciis :: asciis[k].values
    }

    /** After `EncodeAsciis`: a 0/1 vector of dimension `dim > 0` for every code `0 .. 126`. */
    ghost predicate BasisReady()
      reads this`asciis, this`dim, asciis.Values
    {
      dim > 0 && (forall k | 0 <= k < 127 :: k in asciis) &&
      forall k | k in asciis :: asciis[k].Valid() && asciis[k].length == dim && Binary(asciis[k].values)
    }

    lemma BasisReadyCovers()
      requires BasisReady()
      ensures BasisCovers(Basis(), dim) && BinaryBasis(Basis())
    {
    }

    /**
     * `EncodeAsciis` without the cache: iteration `i` (1 to 127) stores a
     * fresh vector holding the draw `draws[i-1]` under key `i-1`.
     */
    method EncodeAsciis(draws: seq<seq<Byte>>)
      requires KeysInRange() && dim >= 0 && |draws| == 127
      requires forall k | 0 <= k < 127 :: |draws[k]| == dim && Binary(draws[k])
      modifies this`asciis
      ensures KeysInRange()
      ensures forall k | 0 <= k < 127 :: k in asciis && fresh(asciis[k])
      ensures forall k | 0 <= k < 127 ::
        asciis[k].values == draws[k] && asciis[k].length == dim && asciis[k].norm == -1
      ensures dim > 0 ==> BasisReady()
    {
      var i := 1;
      while i <= 127
        invariant 1 <= i <= 128
        invariant KeysInRange()
        invariant forall k | 0 <= k < i - 1 :: k in asciis && fresh(asciis[k])
        invariant forall k | 0 <= k < i - 1 ::
          asciis[k].values == draws[k] && asciis[k].length == dim && asciis[k].norm == -1
      {
        var hvector := new HyperVector(dim);
        hvector.Generate(draws[i - 1]);
        asciis := asciis[i - 1 := hvector];
        i := i + 1;
      }
    }

    /**
     * `makeTextHypervector(name, text, ngram, flag)`, as written: stores the
     * encoding of `text` under `name` in `tests` (flag set) or `langs`.  The
     * branches for an empty text and for fewer than one window store the
     * all-ones sentinel and fall through; with fewer than zero windows the
     * `make` that follows panics, the sentinel already stored.  `tieBreak` is
     * the draw made when the number of windows is even.  Nothing outside
     * `tests` and `langs` changes, the symbol vectors included.
     */
    method MakeTextHypervector(name: string, text: string, ngram: int, flag: bool, tieBreak: seq<Byte>)
      returns (outcome: Outcome)
      requires BasisReady() && |tieBreak| == dim && Binary(tieBreak)
      modifies this`tests, this`langs
      ensures var e := EncodeAsWritten(old(Basis()), dim, text, ngram, tieBreak);
        (outcome == Stored <==> e.Profile?) && (e.Crash? ==> outcome == Panicked(e.fault))
      ensures ngram < 1 ==> tests == old(tests) && langs == old(langs)
      ensures ngram >= 1 ==>
        StoredUnder(old(tests), old(langs), name, flag, Kept(EncodeAsWritten(old(Basis()), dim, text, ngram, tieBreak), dim)) &&
        fresh(Target(flag)[name])
    {
      if ngram < 1 {
        return Panicked(CannotEncode);
      }
      ghost var B := Basis();
      BasisReadyCovers();
      var t := Normalize(text);
      NormalizedIsCovered(B, dim, text);
      outcome := EncodeNormalized(name, t, ngram, flag, tieBreak);
      if |t| - ngram + 1 < 0 {
        TooShortCrashes(B, dim, text, ngram, tieBreak);
      } else {
        BundledListIsOdd(B, dim, text, ngram, tieBreak);
      }
    }

    /**
     * `makeTextHypervector` from the normalised text on: the sentinel
     * branches, then the panic on a negative window count, or the encoding
     * stored under `name`.
     */
    method EncodeNormalized(name: string, t: string, ngram: nat, flag: bool, tieBreak: seq<Byte>)
      returns (outcome: Outcome)
      requires BasisReady() && Covers(Basis(), t, dim) && 1 <= ngram
      requires |tieBreak| == dim && Binary(tieBreak)
      modifies this`tests, this`langs
      ensures |t| - ngram + 1 < 0 ==>
        outcome == Panicked(NegativeSliceLength) &&
        StoredUnder(old(tests), old(langs), name, flag, Ones(dim)) && fresh(Target(flag)[name])
      ensures |t| - ngram + 1 >= 0 ==>
        outcome == Stored &&
        StoredUnder(old(tests), old(langs), name, flag,
          Bundle(Zeros(dim), Padded(Windows(old(Basis()), dim, t, ngram), tieBreak))) &&
        fresh(Target(flag)[name])
    {
      ghost var B := Basis();
      StoreSentinels(name, t, ngram, flag);
      var numNgram := |t| - ngram + 1;
      if numNgram < 0 {
        return Panicked(NegativeSliceLength);
      }
      assert Basis() == B;
      var r := EncodeText(t, ngram, tieBreak);
      ghost var v := Bundle(Zeros(dim), Padded(Windows(B, dim, t, ngram), tieBreak));
      assert r.values == v;
      ghost var T1, L1 := tests, langs;
      Store(name, r, flag);
      if |t| == 0 || numNgram < 1 {
        if flag {
          UpdateTwice(old(tests), name, T1[name], r);
        } else {
          UpdateTwice(old(langs), name, L1[name], r);
        }
      }
      return Stored;
    }

    /**
     * The two branches that store the all-ones sentinel: for an empty text
     * and for fewer than one window.  Neither returns.
     */
    method StoreSentinels(name: string, t: string, ngram: int, flag: bool)
      requires dim >= 0
      modifies this`tests, this`langs
      ensures (|t| == 0 || |t| - ngram + 1 < 1) ==>
        StoredUnder(old(tests), old(langs), name, flag, Ones(dim)) && fresh(Target(flag)[name])
      ensures !(|t| == 0 || |t| - ngram + 1 < 1) ==> tests == old(tests) && langs == old(langs)
    {
      if |t| == 0 {
        StoreSentinel(name, flag);
      }
      var numNgram := |t| - ngram + 1;
      if numNgram < 1 {
        StoreSentinel(name, flag);
        if flag {
          assert tests == old(tests)[name := tests[name]];
        } else {
          assert langs == old(langs)[name := langs[name]];
        }
      }
    }

    /** The map `makeTextHypervector` writes to: `tests` when `flag` is set, `langs` otherwise. */
    ghost function Target(flag: bool): map<string, HyperVector>
      reads this`tests, this`langs
    {
      if flag then tests else langs
    }

    /** The target map is its old value with `name` holding a vector of contents `v`; the other map is unchanged. */
    ghost predicate StoredUnder(tests0: map<string, HyperVector>, langs0: map<string, HyperVector>, name: string, flag: bool, v: seq<Byte>)
      reads this`tests, this`langs, Target(flag).Values
    {
      if flag then langs == langs0 && Holds(tests, tests0, name, v)
      else tests == tests0 && Holds(langs, langs0, name, v)
    }

    /** `tmp := NewHyperVector(dim); tmp.NotMuch()` stored under `name`: the all-ones sentinel. */
    method StoreSentinel(name: string, flag: bool)
      requires dim >= 0
      modifies this`tests, this`langs
      ensures StoredUnder(old(tests), old(langs), name, flag, Ones(dim)) && fresh(Target(flag)[name])
    {
      var tmp := new HyperVector(dim);
      tmp.NotMuch();
      assert tmp.values == Ones(dim);
      Store(name, tmp, flag);
    }

    /** `h.tests[name] = v` when `flag` is set, `h.langs[name] = v` otherwise. */
    method Store(name: string, v: HyperVector, flag: bool)
      modifies this`tests, this`langs
      ensures flag ==> tests == old(tests)[name := v] && langs == old(langs)
      ensures !flag ==> langs == old(langs)[name := v] && tests == old(tests)
    {
      if flag {
        tests := tests[name := v];
      } else {
        langs := langs[name := v];
      }
    }

    /**
     * The rest of `makeTextHypervector` for a normalised text of at least
     * `n - 1` characters: the window vectors, the tie-breaker appended when
     * their number is even, all bundled into a fresh vector.  Nothing that
     * existed before is changed.
     */
    method EncodeText(t: string, n: nat, tieBreak: seq<Byte>) returns (r: HyperVector)
      requires BasisReady() && Covers(Basis(), t, dim) && 1 <= n <= |t| + 1
      requires |tieBreak| == dim && Binary(tieBreak)
      ensures fresh(r)
      ensures r.values == Bundle(Zeros(dim), Padded(Windows(old(Basis()), dim, t, n), tieBreak))
      ensures r.length == dim && r.norm == -1
    {
      ghost var B := Basis();
      var windows := EncodeWindows(t, n);
      ghost var ws := Windows(B, dim, t, n);
      assert ValuesOf(windows) == ws;
      if |windows| % 2 == 0 {
        var tmp := new HyperVector(dim);
        tmp.Generate(tieBreak);
        assert ValuesOf(windows + [tmp]) == ValuesOf(windows) + [tieBreak];
        windows := windows + [tmp];
      }
      r := new HyperVector(dim);
      ghost var list := ValuesOf(windows);
      assert list == Padded(ws, tieBreak);
      r.Add(windows);
    }

    /** The loop over start offsets: `|t| - n + 1` fresh window vectors, in order. */
    method EncodeWindows(t: string, n: nat) returns (windows: seq<HyperVector>)
      requires BasisReady() && Covers(Basis(), t, dim) && 1 <= n <= |t| + 1
      ensures |windows| == |t| - n + 1
      ensures forall k | 0 <= k < |windows| :: fresh(windows[k])
      ensures forall k | 0 <= k < |windows| :: windows[k].values == Window(old(Basis()), dim, t, k, n)
      ensures forall k | 0 <= k < |windows| :: windows[k].length == dim
    {
      ghost var B := Basis();
      windows := [];
      var i := 0;
      while i < |t|
        invariant 0 <= i <= |t| - n + 1 && |windows| == i
        invariant forall k | 0 <= k < i :: fresh(windows[k])
        invariant forall k | 0 <= k < i :: windows[k].values == Window(B, dim, t, k, n)
        invariant forall k | 0 <= k < i :: windows[k].length == dim
      {
        if |t| - n < i {
          break;
        }
        var w := EncodeWindow(asciis, dim, t, i, n, B);
        windows := windows + [w];
        i := i + 1;
      }
    }

    /** The test and language vectors all have dimension `dim` and coherent norm caches. */
    ghost predicate Scorable()
      reads this`tests, this`langs, this`dim, tests.Values, langs.Values
    {
      (forall n | n in tests :: |tests[n].values| == dim && tests[n].Coherent()) &&
      (forall n | n in langs :: |langs[n].values| == dim && langs[n].Coherent())
    }

    /** The contents of the test vectors, by name. */
    ghost function TestContents(): (T: map<string, seq<Byte>>)
      reads this`tests, tests.Values`values
      ensures T.Keys == tests.Keys && forall n | n in tests :: T[n] == tests[n].values
    {
      map n | n in tests :: tests[n].values
    }

    /** The contents of the language vectors, by name. */
    ghost function LangContents(): (L: map<string, seq<Byte>>)
      reads this`langs, langs.Values`values
      ensures L.Keys == langs.Keys && forall n | n in langs :: L[n] == langs[n].values
    {
      map n | n in langs :: langs[n].values
    }

    /**
     * The inner loop of `Testing` for one test vector: the name of the first
     * language, in `order`, whose score is the strict running maximum from
     * `-2` (Go's `match`), or "" when none is.  `refs` names the contents of
     * the languages in that order.  Only norm caches change.
     */
    method Classify(testVec: HyperVector, order: seq<string>, ghost refs: seq<seq<Byte>>) returns (chosen: string)
      requires Scorable() && |testVec.values| == dim && testVec.Coherent()
      requires |refs| == |order| && forall k | 0 <= k < |order| :: order[k] in langs && langs[order[k]].values == refs[k]
      modifies testVec`norm, langs.Values`norm
      ensures Scorable() && testVec.Coherent()
      ensures chosen == Match(order, Scores(testVec.values, refs))
    {
      ghost var scores := Scores(testVec.values, refs);
      chosen := "";
      var maxCosine := Seed;
      ghost var best := -1;
      var j := 0;
      while j < |order|
        invariant 0 <= j <= |order|
        invariant Scorable() && testVec.Coherent()
        invariant Scan(scores[..j]) == Best(maxCosine, best)
        invariant chosen == if best < 0 then "" else order[best]
      {
        ScanStep(scores, j);
        var trainVec := langs[order[j]];
        var cosine := testVec.Cosine(trainVec);
        assert cosine == scores[j];
        if Greater(cosine, maxCosine) {
          maxCosine := cosine;
          chosen := order[j];
          best := j;
        }
        j := j + 1;
      }
      assert scores[..|order|] == scores;
    }

    /**
     * One pass of the outer loop of `Testing`: the line printed for test
     * `testName`, where `T` and `L` are the test and language contents.
     */
    method TestOne(testName: string, order: seq<string>, ghost T: map<string, seq<Byte>>, ghost L: map<string, seq<Byte>>)
      returns (line: Verdict)
      requires Scorable() && TestContents() == T && LangContents() == L
      requires Comparable(T, L) && testName in T && forall j | 0 <= j < |order| :: order[j] in L
      modifies tests.Values`norm, langs.Values`norm
      ensures Scorable() && TestContents() == T && LangContents() == L
      ensures line == Announce(testName, Match(order, Scores(T[testName], Refs(L, order))))
    {
      var testVec := tests[testName];
      var chosen := Classify(testVec, order, Refs(L, order));
      line := Announce(testName, chosen);
    }

    /**
     * `Testing`: for each test, in `testOrder`, the line it prints, choosing
     * among the languages visited in `langOrders[k]`.  The vectors' contents
     * do not change and their norm caches stay coherent.
     */
    method Testing(testOrder: seq<string>, langOrders: seq<seq<string>>) returns (report: seq<Verdict>)
      requires Scorable()
      requires Enumerates(testOrder, tests.Keys) && |langOrders| == |testOrder|
      requires forall k | 0 <= k < |langOrders| :: Enumerates(langOrders[k], langs.Keys)
      modifies tests.Values`norm, langs.Values`norm
      ensures Scorable() && TestContents() == old(TestContents()) && LangContents() == old(LangContents())
      ensures Within(old(TestContents()), old(LangContents()), testOrder, langOrders)
      ensures report == Report(old(TestContents()), old(LangContents()), testOrder, langOrders)
    {
      ghost var T, L := TestContents(), LangContents();
      assert Within(T, L, testOrder, langOrders);
      report := TestAll(testOrder, langOrders, T, L);
    }

    /** The outer loop of `Testing`, over contents `T` and `L` that it does not change. */
    method TestAll(testOrder: seq<string>, langOrders: seq<seq<string>>, ghost T: map<string, seq<Byte>>, ghost L: map<string, seq<Byte>>)
      returns (report: seq<Verdict>)
      requires Scorable() && TestContents() == T && LangContents() == L
      requires Within(T, L, testOrder, langOrders)
      modifies tests.Values`norm, langs.Values`norm
      ensures Scorable() && TestContents() == T && LangContents() == L
      ensures report == Report(T, L, testOrder, langOrders)
    {
      ghost var R := Report(T, L, testOrder, langOrders);
      report := [];
      var k := 0;
      while k < |testOrder|
        invariant 0 <= k <= |testOrder|
        invariant Scorable() && TestContents() == T && LangContents() == L
        invariant report == R[..k]
      {
        ReportAt(T, L, testOrder, langOrders, k);
        var line := TestOne(testOrder[k], langOrders[k], T, L);
        PrefixStep(R, k);
        assert line == R[k];
        report := report + [line];
        k := k + 1;
      }
      assert report == R;
    }
  }

  /** Storing twice under one name keeps only the second vector. */
  lemma UpdateTwice(m: map<string, HyperVector>, name: string, first: HyperVector, second: HyperVector)
    ensures m[name := first][name := second] == m[name := second]
  {
  }

  /** A prefix one element longer. */
  lemma PrefixStep(s: seq<Verdict>, k: int)
    requires 0 <= k < |s|
    ensures s[..k + 1] == s[..k] + [s[k]]
  {
  }

  /** Line `k` of the report, and what it needs of the orders. */
  lemma ReportAt(T: map<string, seq<Byte>>, L: map<string, seq<Byte>>, testOrder: seq<string>, langOrders: seq<seq<string>>, k: int)
    requires Within(T, L, testOrder, langOrders) && 0 <= k < |testOrder|
    ensures testOrder[k] in T && forall j | 0 <= j < |langOrders[k]| :: langOrders[k][j] in L
    ensures Report(T, L, testOrder, langOrders)[k] ==
      Announce(testOrder[k], Match(langOrders[k], Scores(T[testOrder[k]], Refs(L, langOrders[k]))))
  {
  }

  /** The contents of the references named by `order`, in that order. */
  function Refs(L: map<string, seq<Byte>>, order: seq<string>): seq<seq<Byte>>
    requires forall k | 0 <= k < |order| :: order[k] in L
  {
    seq(|order|, k requires 0 <= k < |order| => L[order[k]])
  }

  /** Every vector of `T` is at most as long as every vector of `L`. */
  predicate Comparable(T: map<string, seq<Byte>>, L: map<string, seq<Byte>>) {
    forall n, m | n in T && m in L :: |T[n]| <= |L[m]|
  }

  /** The orders name only known vectors, one language order per test, and every test can be scored. */
  predicate Within(T: map<string, seq<Byte>>, L: map<string, seq<Byte>>, testOrder: seq<string>, langOrders: seq<seq<string>>) {
    Comparable(T, L) && |langOrders| == |testOrder| &&
    (forall k | 0 <= k < |testOrder| :: testOrder[k] in T) &&
    (forall k | 0 <= k < |langOrders| :: forall j | 0 <= j < |langOrders[k]| :: langOrders[k][j] in L)
  }

  /**
   * What `Testing` prints for test contents `T` and language contents `L`:
   * one line per test in `testOrder`, the language chosen by the scan over
   * `langOrders[k]`.
   */
  function Report(T: map<string, seq<Byte>>, L: map<string, seq<Byte>>, testOrder: seq<string>, langOrders: seq<seq<string>>): seq<Verdict>
    requires Within(T, L, testOrder, langOrders)
  {
    seq(|testOrder|, k requires 0 <= k < |testOrder| =>
      Announce(testOrder[k], Match(langOrders[k], Scores(T[testOrder[k]], Refs(L, langOrders[k])))))
  }

  /**
   * The inner loops of `makeTextHypervector` for the window starting at `i`,
   * over the symbol vectors `asciis` whose contents are `B`: a fresh vector
   * holding the window vector of the text.  The symbol vectors are not changed.
   */
  method EncodeWindow(asciis: map<int, HyperVector>, dim: nat, t: string, i: nat, n: nat,
                      ghost B: map<int, seq<Byte>>)
      returns (result: HyperVector)
    requires 1 <= n && i + n <= |t| && Covers(B, t, dim)
    requires forall k | k in B :: k in asciis && asciis[k].Valid() && asciis[k].values == B[k]
    ensures fresh(result)
    ensures result.values == Window(B, dim, t, i, n)
    ensures result.length == dim && result.norm == -1
  {
    var first := asciis[t[i] as int];
    CanRotateNonNegative(first.values, n - 1);
    result := first.Rotate(n - 1, dim);
    var index := 1;
    while index < n
      invariant 1 <= index <= n
      invariant fresh(result)
      invariant result.values == Bind(B, dim, t, i, n, index)
      invariant result.length == dim && result.norm == -1
    {
      BindCharacter(result, asciis, dim, t, i, n, index, B);
      index := index + 1;
    }
  }

  /**
   * One step of the inner loop over the window starting at `i`: binds
   * character `m` into `result`, rotated by its distance from the window's
   * end (`n - m - 1`), or unrotated for the last character.  The symbol
   * vector is not changed.
   */
  method BindCharacter(result: HyperVector, asciis: map<int, HyperVector>, dim: nat,
                       t: string, i: nat, n: nat, m: nat, ghost B: map<int, seq<Byte>>)
    requires 1 <= m < n && i + n <= |t| && Covers(B, t, dim)
    requires forall k | k in B :: k in asciis && asciis[k].Valid() && asciis[k].values == B[k]
    requires result.values == Bind(B, dim, t, i, n, m)
    modifies result`values, result`norm
    ensures result.values == Bind(B, dim, t, i, n, m + 1) && result.norm == -1
  {
    var next := asciis[t[i + m] as int];
    BindStep(B, dim, t, i, n, m);
    if n - m - 1 != 0 {
      CanRotateNonNegative(next.values, n - m - 1);
      next := next.Rotate(n - m - 1, dim);
    } else {
      RotateByZero(next.values);
    }
    result.Xor(next);
  }

  /** With no language vectors, every test is reported as having no match. */
  lemma NoLanguagesNoMatch(T: map<string, seq<Byte>>, L: map<string, seq<Byte>>, testOrder: seq<string>, langOrders: seq<seq<string>>)
    requires Within(T, L, testOrder, langOrders) && |L| == 0
    requires forall k | 0 <= k < |langOrders| :: Enumerates(langOrders[k], L.Keys)
    ensures forall k | 0 <= k < |testOrder| :: Report(T, L, testOrder, langOrders)[k] == NoMatch(testOrder[k])
  {
    forall k | 0 <= k < |testOrder|
      ensures Report(T, L, testOrder, langOrders)[k] == NoMatch(testOrder[k])
    {
      EnumeratesCount(langOrders[k], L.Keys);
      assert |L.Keys| == 0;
      assert langOrders[k] == [];
    }
  }

  /**
   * Every line of the report names its test, and a reported language is a
   * language vector that was scored; no line names anything else.
   */
  lemma ReportNamesKnownLanguages(T: map<string, seq<Byte>>, L: map<string, seq<Byte>>, testOrder: seq<string>, langOrders: seq<seq<string>>)
    requires Within(T, L, testOrder, langOrders)
    ensures forall k | 0 <= k < |testOrder| :: Report(T, L, testOrder, langOrders)[k].test == testOrder[k]
    ensures forall k | 0 <= k < |testOrder| && Report(T, L, testOrder, langOrders)[k].Language? ::
      Report(T, L, testOrder, langOrders)[k].language in langOrders[k] &&
      Report(T, L, testOrder, langOrders)[k].language in L
  {
    var r := Report(T, L, testOrder, langOrders);
    forall k | 0 <= k < |testOrder| && r[k].Language?
      ensures r[k].language in langOrders[k] && r[k].language in L
    {
      var b := Scan(Scores(T[testOrder[k]], Refs(L, langOrders[k])));
      assert r[k].language == langOrders[k][b.index];
    }
  }

  /**
   * A test whose vector equals one language's, among distinct 0/1 language
   * vectors of its dimension with a set bit, is reported as that language,
   * whatever the iteration order.
   */
  lemma IdenticalProfileIsReported(testName: string, names: seq<string>, test: seq<Byte>, refs: seq<seq<Byte>>, k: int)
    requires |names| == |refs| && 0 <= k < |refs| && refs[k] == test && names[k] != ""
    requires Binary(test) && Weight(test) > 0
    requires forall j | 0 <= j < |refs| :: |refs[j]| == |test| && Binary(refs[j])
    requires forall i, j | 0 <= i < j < |refs| :: refs[i] != refs[j]
    ensures Announce(testName, Match(names, Scores(test, refs))) == Language(testName, names[k])
  {
    SelfProfileWins(test, refs, k);
  }
}
