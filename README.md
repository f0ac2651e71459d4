# langHD in Dafny

langHD identifies the language of a text document by hyperdimensional computing.
Each of the 127 ASCII codes gets a random 0/1 *hypervector* of dimension `dim`; this is the symbol basis.
A document is normalised to lowercase `[a-z0-9]`.
Each `ngram`-character window of the normalised text becomes the XOR of its characters' basis vectors, each rotated by its distance from the window's end.
The window vectors, padded with one random vector to an odd count, are bundled by strict majority vote into the document's profile.
`Testing` then labels every test profile with the language profile of highest cosine similarity.

This project models that core and proves its properties:

| module | file | models |
|---|---|---|
| `Bits` | `bits.dfy` | value-level algebra of hv/hv.go: Go's `%`, rotation, XOR, majority bundling, `dot` and the popcount |
| `Similarity` | `similarity.dfy` | the `Cosine` score, kept exactly, and Go's `>` on it (`NaN` and the `-2` seed included) |
| `HV` | `hypervector.dfy` | the `HyperVector` class: its mutating methods are proved against the `Bits` functions |
| `Text` | `text.dfy` | normalisation, the window vectors and the profile that `makeTextHypervector` stores |
| `Selection` | `selection.dfy` | the strict running arg-max of `Testing` |
| `HD` | `langhd.dfy` | the `langHD` class: `NewLangHD`, `EncodeAsciis`, `makeTextHypervector` and `Testing` |

Some inputs are passed in as parameters:
- the random draws (`myutil.Random`): the 127 basis vectors and the tie-breaking vector;
- Go's unspecified map iteration orders.

`Testing` returns the lines it would print as a sequence of `Verdict`s.

Where the code and its description differ, the model follows the code:
- `makeTextHypervector` does not always store the all-ones sentinel for short texts (see Findings).
- Only `Xor` clears the norm cache. `Add`, `NotMuch` and `Generate` leave it as it was.
- `Testing` seeds its maximum with `-2`, not with the first candidate.
- `NewLangHD` does not reject a non-positive dimension.

## Model

| member | source | states |
|---|---|---|
| Bits.CanRotateNonNegative | hv/hv.go:82-83 | every non-negative amount is a rotation `Rotate` accepts on a non-empty vector |
| Bits.Rotated | hv/hv.go:82-83 | the slice-and-append rotation keeps the length and moves position `k - num (mod L)` to position `k`: a circular right rotation |
| Bits.RotateByMultiple | hv/hv.go:82-83 | rotating by any multiple of the length (zero or negative included) reproduces the vector |
| Bits.RotateByZero | hv/hv.go:82-83 | rotating by 0 is the identity |
| Bits.RotateCompose | hv/hv.go:82-83 | rotating by `a`, then by `b`, is rotating by `a + b` |
| Bits.RotateInverse | hv/hv.go:82-83 | rotating by `a`, then by `L - a`, restores the vector |
| Bits.RotatePreservesBinary | hv/hv.go:82-83 | a rotation of a 0/1 vector is 0/1 |
| Bits.XorSelfInverse | hv/hv.go:91-93 | binding twice with the same vector restores the original |
| Bits.XorPreservesBinary | hv/hv.go:91-93 | XOR of 0/1 vectors is 0/1 |
| Bits.XorCommutes | hv/hv.go:91-93 | XOR of equal-length vectors does not depend on the argument order |
| Bits.ColumnSumCountsOnes | hv/hv.go:112-115 | on 0/1 inputs the byte sum at a position is the number of inputs with a 1 there |
| Bits.BundleIsStrictMajority | hv/hv.go:105-122 | with `n >= 1` 0/1 inputs the result is 0/1 and bit `i` is 1 iff at least `n/2 + 1` inputs have a 1 at `i` |
| Bits.BundleTieIsZero | hv/hv.go:109-121 | an exact half-half split of an even number of inputs gives 0 |
| Bits.BundleOddIsMajority | hv/hv.go:109-121 | with an odd number of inputs bit `i` is 1 iff ones outnumber zeros at `i`; there is no tie |
| Bits.BundleSingle | hv/hv.go:105-122 | a single 0/1 input is reproduced, whatever the receiver held |
| Bits.CountOnesUnanimous | hv/hv.go:112-115 | with identical inputs the count at `i` is all of them or none |
| Bits.BundleUnanimous | hv/hv.go:105-122 | `n >= 1` identical 0/1 inputs of the receiver's length bundle back to that input |
| Bits.DotSymmetric | hv/hv.go:129-135 | `dot` is symmetric for equal-length vectors |
| Bits.DotPrefix | hv/hv.go:131-133 | `dot` reads only the receiver's positions of its argument |
| Bits.DotSelfIsWeight | hv/hv.go:129-135 | `dot(v, v)` is the popcount that `normCheck` sums |
| Bits.DotBounds | hv/hv.go:129-145 | the overlap of two 0/1 vectors is at most each popcount |
| Bits.DotTight | hv/hv.go:129-145 | an overlap equal to both popcounts means the vectors are equal |
| Bits.WeightAtMostLength | hv/hv.go:142-145 | the popcount of a 0/1 vector is at most its length |
| Bits.WeightOfOnes | hv/hv.go:142-145 | the popcount of the all-ones vector is its length |
| Similarity.CosineDefined | hv/hv.go:125-127 | the score is `NaN` exactly when one popcount is zero, and otherwise a ratio with a positive denominator |
| Similarity.CosineSymmetric | hv/hv.go:125-127 | the score is symmetric for equal-length vectors |
| Similarity.CosineSelfIsOne | hv/hv.go:125-127 | a vector with a set bit scores exactly 1 against itself |
| Similarity.ProductBound | hv/hv.go:125-127 | an overlap bounded by both popcounts has a square at most their product, with equality only when all three are equal |
| Similarity.CosineAtMostOne | hv/hv.go:125-127 | no score between 0/1 vectors exceeds 1 |
| Similarity.SelfIsStrictlyMostSimilar | hv/hv.go:125-127 | a different 0/1 vector of the same length scores `NaN` or strictly below self-similarity, and never above it |
| HV.HyperVector.constructor | hv/hv.go:20-29 | `dim` zeros, `length == dim`, norm unset |
| HV.HyperVector.Generate | hv/hv.go:32-39 | the contents become the draw; length and norm cache unchanged |
| HV.HyperVector.NotMuch | hv/hv.go:68-75 | positions `0 .. length-1` become 1 and every other position and field is unchanged |
| HV.HyperVector.Rotate | hv/hv.go:77-85 | a fresh vector with the rotated contents, recorded length `dim` and unset norm; the receiver is unchanged |
| HV.HyperVector.Xor | hv/hv.go:87-95 | the contents become the XOR with the argument's old contents (the argument may be the receiver), and the norm is reset to -1 |
| HV.HyperVector.Add | hv/hv.go:97-123 | the contents become the strict-majority bundle of the inputs' old contents (an input may be the receiver) |
| HV.SumColumn | hv/hv.go:112-115 | the inner loop of `Add` returns the column sum of the inputs at `i` |
| HV.HyperVector.DotWith | hv/hv.go:129-135 | read-only: returns `Dot` of the two contents |
| HV.HyperVector.NormCheck | hv/hv.go:137-149 | a set cache is returned unchanged without recomputation; an unset one is filled with the popcount and returned |
| HV.HyperVector.Cosine | hv/hv.go:125-127 | on coherent caches the result is `CosineOf` of the two contents, and afterwards both norm caches hold the popcounts, as the two `normCheck` calls leave them |
| Text.StripKeepsAlnum | hd/hd.go:144-148 | after stripping only `[A-Za-z0-9]` is left |
| Text.NormalizedIsLowerAlnum | hd/hd.go:144-149 | the normalised text holds only `[a-z0-9]`, all with codes below 127 |
| Text.StripConcat | hd/hd.go:144-148 | stripping distributes over concatenation |
| Text.NormalizeConcat | hd/hd.go:144-149 | normalisation distributes over concatenation |
| Text.NormalizeChar | hd/hd.go:144-149 | a single character is kept, lowercased, exactly when it is in `[A-Za-z0-9]` |
| Text.StripOfAlnum | hd/hd.go:144-148 | stripping leaves a text of `[A-Za-z0-9]` unchanged |
| Text.NormalizeIdempotent | hd/hd.go:144-149 | normalising twice changes nothing |
| Text.NormalizeMembership | hd/hd.go:144-149 | a character occurs in the normalised text iff some alphanumeric input character lowercases to it |
| Text.NormalizedIsCovered | hd/hd.go:46-58 | a basis with keys `0 .. 126` has a vector for every character of any normalised text |
| Text.Bind | hd/hd.go:185-199 | the accumulator after `m` characters of a window has dimension `d` |
| Text.Windows | hd/hd.go:174-202 | exactly `|t| - n + 1` window vectors, each of dimension `d` |
| Text.UnigramWindowIsBasis | hd/hd.go:186-190 | for `ngram == 1` each window vector is the character's basis vector |
| Text.LastCharacterUnrotated | hd/hd.go:194-198 | the last character of a window is bound without rotation |
| Text.BindIsBinary | hd/hd.go:185-199 | over a 0/1 basis every partial window vector is 0/1 |
| Text.WindowsAreBinary | hd/hd.go:174-202 | over a 0/1 basis every window vector is 0/1 |
| Text.BundledListIsOdd | hd/hd.go:204-207 | the list handed to `Add` always has odd length, and the stored profile is its bundle |
| Text.ProfileIsMajority | hd/hd.go:204-215 | a stored profile is a 0/1 vector of dimension `d` whose bit `i` is 1 iff more than half of the bundled vectors have a 1 at `i` |
| Text.SingleWindowProfile | hd/hd.go:174-215 | a text of exactly `n` characters is stored as its single window vector |
| Text.OneShortStoresTieBreaker | hd/hd.go:162-215 | as written, a text one character short of `n` stores the tie-breaker and not the sentinel |
| Text.TooShortCrashes | hd/hd.go:162-174 | as written, a text more than one character short of `n` reaches `make` with a negative length |
| Text.DegenerateInputsAsWritten | hd/hd.go:150-174 | the empty text with `ngram` 3 panics, and a two-character text with `ngram` 3 does not store the sentinel |
| Text.IntendedEncoding | hd/hd.go:150-173 | with the branches returning, every text is encoded, short texts as all ones, and other texts as the code writes them; the profile is 0/1 of dimension `d` |
| Selection.Scan | hd/hd.go:220-228 | the kept position is -1 with the `-2` seed, or a position holding a numeric cosine equal to the kept score |
| Selection.ScanFindsNothingIffNoRatio | hd/hd.go:220-229 | nothing is kept iff every score is `NaN` (in particular when there are no languages) |
| Selection.ScanIsFirstMaximum | hd/hd.go:220-228 | the kept score is strictly above every earlier numeric score and at least every later one, so ties keep the first seen |
| Selection.FirstMaximumUnique | hd/hd.go:220-228 | there is at most one first maximum |
| Selection.ScanFindsFirstMaximum | hd/hd.go:220-228 | whenever a first maximum exists, it is the one kept, in any order |
| Selection.SelfProfileWins | hd/hd.go:218-228 | a test equal to one of several distinct 0/1 references, with a set bit, picks that reference in every order |
| HD.LangHD.constructor | hd/hd.go:28-37 | dimension and `ngram` as given, and no symbol, language or test vectors |
| HD.LangHD.EncodeAsciis | hd/hd.go:46-58 | iteration `i` in `1 .. 127` stores a fresh vector holding draw `i-1` under key `i-1`; only keys `0 .. 126` exist, and with `dim > 0` the basis is complete |
| HD.LangHD.MakeTextHypervector | hd/hd.go:135-216 | panics with `ngram < 1` before touching any map; otherwise it stores `Kept(EncodeAsWritten(...))` under `name` in the map `flag` selects, changes no other key, and leaves the basis unchanged |
| HD.LangHD.EncodeNormalized | hd/hd.go:150-215 | from the normalised text on: the sentinel and a panic with fewer than zero windows, or the bundle of the padded windows |
| HD.LangHD.StoreSentinels | hd/hd.go:150-172 | an empty text or fewer than one window leaves the sentinel under `name`; otherwise nothing changes |
| HD.LangHD.StoreSentinel | hd/hd.go:153-159 | a fresh all-ones vector is stored under `name` in the selected map, and only there |
| HD.LangHD.Store | hd/hd.go:209-215 | `tests[name]` when `flag` is set, `langs[name]` otherwise; the other map is unchanged |
| HD.LangHD.EncodeText | hd/hd.go:174-215 | a fresh vector holding the bundle of the window vectors, padded with the tie-breaker when their count is even |
| HD.LangHD.EncodeWindows | hd/hd.go:174-202 | `|t| - n + 1` fresh vectors, slot `i` holding the window vector at `i` |
| HD.EncodeWindow | hd/hd.go:180-201 | a fresh vector holding the XOR of the window's basis vectors, each rotated by `n - 1 - j` |
| HD.BindCharacter | hd/hd.go:193-198 | one more character of the window is bound into the accumulator |
| HD.EnumeratesCount | hd/hd.go:219-222 | an iteration order of a map visits as many entries as the map has keys |
| HD.LangHD.Classify | hd/hd.go:220-228 | the name chosen is `Match` of the scan over the scores in the given order; only norm caches change, and they stay coherent |
| HD.LangHD.TestOne | hd/hd.go:219-233 | the line for one test; vector contents unchanged |
| HD.LangHD.TestAll | hd/hd.go:219-234 | the lines for all tests in order; vector contents unchanged |
| HD.LangHD.Testing | hd/hd.go:218-235 | `Report` of the contents for the given iteration orders; vector contents unchanged and norm caches coherent |
| HD.NoLanguagesNoMatch | hd/hd.go:222-231 | with no language vectors every test is reported as having no match |
| HD.ReportNamesKnownLanguages | hd/hd.go:219-233 | every line names its test, and a reported language is one of the scored language vectors |
| HD.IdenticalProfileIsReported | hd/hd.go:218-233 | a test profile identical to one of several distinct language profiles is labelled with that language |

## Left out

- Cache I/O is not modelled: `GenerateFromFile`, `WriteCache` and the cache branches of `EncodeAsciis` (hv/hv.go:42-66, hd/hd.go:49-57). These read and write JSON files. A loaded vector's length is never checked. The cache file `characters/i` holds the vector stored under key `i-1`.
- `EncodeTrainingData` and `EncodeTestingData` (hd/hd.go:62-133) are not modelled, because they walk directories and read files. Only their per-document call to `makeTextHypervector` is modelled. They replace `langs` and `tests` with empty maps before use, since `NewLangHD` leaves both maps nil; `HD.LangHD.constructor` starts from those empty maps.
- `myutil.Random`, `MakeCacheDirectry`, `FileExist` and main.go are not modelled. They are a foreign random generator, file-system calls and command-line glue. The draws become parameters constrained to length `dim` and values 0/1.
- Go's map iteration order is unspecified, so it is a parameter: one order of the test map, and one order of the language map for each test.
- The `self`-pointer copy guards are not modelled: Dafny references cannot be copied by value.
- Slice sharing is not modelled. A single-input `Add` makes the receiver share the input's slice, and `append` in `Rotate` may reuse capacity. Contents are value sequences; `Add` writes only fresh vectors in `makeTextHypervector`.
- Output is not printed. `log.Printf` and `fmt.Println` text becomes a `Verdict`: "no match" or the chosen language. The source's no-match line does not name the test.
- HD.LangHD.Testing: compares exact cosines through their squares, not float32 values after `math.Sqrt`, so two nearly equal scores that float32 rounding would tie or reorder are ordered exactly here.
- HV.HyperVector.Rotate: requires `CanRotate` instead of modelling the panics. The source divides by zero on an empty vector and slices out of bounds for a negative amount that is not a multiple of the length. The encoder only passes non-negative amounts.
- HV.HyperVector.constructor: takes a `nat` dimension; `make` panics on a negative one.
- HV.HyperVector.Xor, HV.HyperVector.DotWith, HV.HyperVector.Cosine and HV.HyperVector.Add: require the inputs to be at least as long as the positions read, where Go would panic with an index out of range.
- HD.LangHD.MakeTextHypervector: requires a complete 0/1 basis of dimension `dim > 0`. With `dim == 0`, `Rotate` divides by zero. A missing key would be a nil dereference. The non-cache `EncodeAsciis` always builds such a basis.
- HD.LangHD.Testing: requires all vectors to share the dimension and to have coherent norm caches. `makeTextHypervector` leaves every stored vector in that state.

## Findings

| source | as written | input that shows it | evidently intended | confidence | as-written member | corrected member |
|---|---|---|---|---|---|---|
| hd/hd.go:150-174 | the two "nothing text" branches store the all-ones sentinel but do not return, so execution continues with `numNgram = len(text) - ngram + 1` | the empty text with `ngram` 3 reaches `make` with length -2 and panics; the text "ab" with `ngram` 3 overwrites the sentinel with the bundle of the lone tie-breaker | return after storing the sentinel, so every text shorter than `ngram` is stored as all ones | not executed | Text.EncodeAsWritten, Text.DegenerateInputsAsWritten | Text.EncodeIntended, Text.IntendedEncoding |

The imperative `HD.LangHD.MakeTextHypervector` follows the code as written. `Text.EncodeIntended` is the reference for what the short-text path is meant to store.
