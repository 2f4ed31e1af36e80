# Code-point-safe string helpers of a suffix tree

This project models `com.abahgat.suffixtree.Utils`, the string helpers a
suffix tree over Unicode text is built on. A Java string is a sequence of
UTF-16 code units. A code point above U+FFFF takes two units: a high
surrogate (U+D800..U+DBFF) followed by a low surrogate (U+DC00..U+DFFF), as
in section 3.9 of the Unicode Standard (definition D91) and section 2 of
RFC 2781. The helpers are:

- `lastCodePoint`, `removeLastCodePoint` and `removeFirstCodePoint`. They
  take or remove one code point at the end or the start of a string.
- `normalize`. It lower-cases a string and keeps only `a`..`z` and `0`..`9`.
- `getSubstrings` and its helper `codePointSubstring`. Together they form a
  brute-force oracle: the set of every substring, counted in code points.

Layout:

- `wrappers.dfy` (module `Wrappers`): `Option`, which stands for a Java
  reference that may be `null`.
- `utf16.dfy` (module `Utf16`): code units (`Unit`, 0..0xFFFF) and code
  points (`CodePoint`, 0..0x10FFFF). It also holds stand-ins for the library
  routines the helpers call: `Character.isHighSurrogate` (`IsHigh`),
  `Character.toCodePoint` (`ToCodePoint`), `String.codePointAt`
  (`CodePointAt`), `String.codePoints` (`Decode`) and
  `StringBuilder.appendCodePoint` (`EncodeCodePoint`, `Encode`). Its lemmas
  prove the facts the helpers rely on: re-encoding a decoded string gives it
  back, `Decode` splits at any boundary that does not follow a high
  surrogate, and well-formed text stays well-formed when it is cut between
  code points.
- `utils.dfy` (module `Utils`): the six operations and their properties.

The helpers follow their source's form:

- The three boundary operations are pure branches, so they are functions.
  `removeLastCodePoint` and `removeFirstCodePoint` accept `null` and take an
  `Option`.
- `normalize`, `getSubstrings` and `codePointSubstring` are loops, so they
  are methods. Each one is proved against a specification function:
  `Normalized`, `SubstringSet` and `Encode`.
- `getSubstrings` stores the code points in an `array`, as the source does.
  It adds to a `set` in its two nested loops.

On well-formed input, the boundary operations are also proved against a
reference definition, the decoder `Decode`.

The source decides "two units wide" from one unit only. That unit is the
one at index `len-2` for the last code point, or at index `0` for the first.
The partner unit is never checked to be a low surrogate, and the model keeps
this rule exactly. Properties that need a real surrogate pair carry the
precondition `WellFormed`. The lemma `Utils.UnpairedHighSurrogate` shows
what the rule does with an unpaired high surrogate.

`toLowerCase` is modelled as ASCII lower-casing: `A`..`Z` become `a`..`z`
and every other unit is unchanged (`ToLowerCase`).

## Model

| member | source | states |
|---|---|---|
| `Utf16.ToCodePoint` | src/main/java/com/abahgat/suffixtree/Utils.java:41 | Combines two units as `Character.toCodePoint` does, without checking them; a real high/low pair gives a supplementary code point (0x10000..0x10FFFF) |
| `Utf16.HighSurrogateLeadsPair` | src/main/java/com/abahgat/suffixtree/Utils.java:40 | `Character.isHighSurrogate` (`IsHigh`, U+D800..U+DBFF) holds for the first unit of a scalar value's encoding exactly when the value takes two units, and that unit is never a low surrogate |
| `Utf16.EncodeCodePoint` | src/main/java/com/abahgat/suffixtree/Utils.java:145 | `appendCodePoint` writes one unit for a code point below 0x10000 (the code point itself) and two otherwise: a high and a low surrogate that `ToCodePoint` combines back into the same code point |
| `Utf16.CharCount` | src/main/java/com/abahgat/suffixtree/Utils.java:129 | The number of units a code point takes, as `Character.charCount` gives it, is the length of its encoding |
| `Utf16.Encode` | src/main/java/com/abahgat/suffixtree/Utils.java:144-146 | Appending the code points one by one gives between one and two units per code point; `EncodeAppend` and `DecodeEncode` tie it to concatenation and to the decoder |
| `Utf16.PairRoundTrip` | src/main/java/com/abahgat/suffixtree/Utils.java:41 | Encoding the code point of a high/low pair gives that pair back |
| `Utf16.CodePointAt` | src/main/java/com/abahgat/suffixtree/Utils.java:36 | `codePointAt(i)` is supplementary exactly when a high surrogate at i is followed by a low one, and then it is `ToCodePoint` of that pair; otherwise, and always at the last index, it is the unit itself |
| `Utf16.Decode` | src/main/java/com/abahgat/suffixtree/Utils.java:129 | `codePoints()` yields at most one code point per unit, and none only for the empty string |
| `Utf16.EncodeDecode` | src/main/java/com/abahgat/suffixtree/Utils.java:129 | Re-encoding the decoded code points gives back every unit of any string, including unpaired surrogates |
| `Utf16.DecodeFirst` | src/main/java/com/abahgat/suffixtree/Utils.java:90-95 | The first decoded code point is `codePointAt(0)`, and the rest is the decoding of what follows its one or two units |
| `Utf16.DecodeEncode` | src/main/java/com/abahgat/suffixtree/Utils.java:142-148 | Decoding the units of a canonical code-point sequence gives that sequence back; a canonical sequence has no unpaired high surrogate directly before an unpaired low one |
| `Utf16.DecodeCanonical` | src/main/java/com/abahgat/suffixtree/Utils.java:129 | Decoded code points are always canonical, so slices of them re-encode without fusing |
| `Utf16.DecodeAppend` | src/main/java/com/abahgat/suffixtree/Utils.java:39-44 | Decoding a concatenation splits at a boundary that does not follow a high surrogate |
| `Utf16.EncodeAppend` | src/main/java/com/abahgat/suffixtree/Utils.java:144-146 | Encoding a concatenation of code points is the concatenation of the encodings |
| `Utf16.WellFormedPrefix` | src/main/java/com/abahgat/suffixtree/Utils.java:64-67 | A well-formed string cut just after a non-high unit leaves a well-formed prefix |
| `Utf16.WellFormedSuffix` | src/main/java/com/abahgat/suffixtree/Utils.java:92-95 | A well-formed string cut just before a non-low unit leaves a well-formed suffix |
| `Utf16.WellFormedPairAtEnd` | src/main/java/com/abahgat/suffixtree/Utils.java:39-41 | In well-formed text a high surrogate at `len-2` is followed by a low one and is not itself the second unit of a pair |
| `Utils.LastCodePoint` | src/main/java/com/abahgat/suffixtree/Utils.java:34-45 | A one-unit string gives that unit. When the unit before the last is a high surrogate, the result is `ToCodePoint` of the last two units, and a supplementary code point equal to `codePointAt` of the pair when they really are a pair. Otherwise the result is the last unit |
| `Utils.SplitPairAtEnd` | src/main/java/com/abahgat/suffixtree/Utils.java:39-41 | When the last two units are a high/low pair not preceded by a high surrogate, decoding ends with their `toCodePoint` after the decoding of the rest |
| `Utils.SplitUnitAtEnd` | src/main/java/com/abahgat/suffixtree/Utils.java:44 | When the unit at `len-2` is not a high surrogate, decoding ends with the last unit alone after the decoding of the rest |
| `Utils.LastCodePointIsLastDecoded` | src/main/java/com/abahgat/suffixtree/Utils.java:34-45 | On non-empty well-formed text, the result is the last code point of the decoded string |
| `Utils.RemoveLastCodePoint` | src/main/java/com/abahgat/suffixtree/Utils.java:57-68 | `""` for null and for fewer than two units. Otherwise the result is a prefix of the input, 2 units shorter when the unit at `len-2` is a high surrogate and 1 unit shorter otherwise |
| `Utils.RemoveLastDropsLastDecoded` | src/main/java/com/abahgat/suffixtree/Utils.java:57-68 | On non-empty well-formed text, the result is the encoding of all decoded code points but the last |
| `Utils.RemoveLastRoundTrip` | src/main/java/com/abahgat/suffixtree/Utils.java:34-68 | On non-empty well-formed text, `removeLastCodePoint(s)` followed by the encoding of `lastCodePoint(s)` is `s` again, and that code point is valid |
| `Utils.RemoveFirstCodePoint` | src/main/java/com/abahgat/suffixtree/Utils.java:85-96 | `""` for null and for fewer than two units. Otherwise the result is a proper suffix of the input: `s[2..]` when `s[0]` is a high surrogate and `s[1..]` otherwise |
| `Utils.RemoveFirstDropsFirstDecoded` | src/main/java/com/abahgat/suffixtree/Utils.java:85-96 | On non-empty well-formed text, the result is the encoding of all decoded code points but the first, and the encoding of the first code point followed by the result gives `s` again |
| `Utils.RemovalsKeepWellFormed` | src/main/java/com/abahgat/suffixtree/Utils.java:57-96 | On well-formed text, neither removal leaves half a surrogate pair behind: both results are well-formed |
| `Utils.SingleCodePoint` | src/main/java/com/abahgat/suffixtree/Utils.java:34-96 | A string of one scalar value, supplementary ones included, decodes to one code point. It is its own last code point, and both removals give `""` |
| `Utils.UnpairedHighSurrogate` | src/main/java/com/abahgat/suffixtree/Utils.java:39-41 | On malformed text the source's rule takes the unit after an unpaired high surrogate with it: `lastCodePoint` of U+D800 U+0041 is 0x2441, removing the last code point leaves `""`, and removing the first code point of U+D800 U+0041 U+0042 leaves only U+0042. Decoding keeps these units apart |
| `Utils.ToLowerCase` | src/main/java/com/abahgat/suffixtree/Utils.java:106 | Lower-casing keeps the length |
| `Utils.KeepAlnum` | src/main/java/com/abahgat/suffixtree/Utils.java:107-111 | The filter of the loop: its result is no longer than its input, and every unit of it is in `a`..`z` or `0`..`9` |
| `Utils.Normalized` | src/main/java/com/abahgat/suffixtree/Utils.java:104-114 | What normalize returns: no longer than the input, made only of `a`..`z` and `0`..`9` |
| `Utils.Normalize` | src/main/java/com/abahgat/suffixtree/Utils.java:104-114 | The loop returns `Normalized(input)`. Every unit is in `a`..`z` or `0`..`9`, and the result is no longer than the input |
| `Utils.NormalizedIsKeptSubsequence` | src/main/java/com/abahgat/suffixtree/Utils.java:104-114 | The output of normalize is a subsequence of the lower-cased input made only of `a`..`z` and `0`..`9`. Each such unit occurs as often as in the lower-cased input and every other unit not at all, so the output is exactly those units in their original order. It is no longer than the lower-cased input |
| `Utils.KeepAlnumSubsequence` | src/main/java/com/abahgat/suffixtree/Utils.java:107-111 | The kept units appear in the input in their original order |
| `Utils.KeepAlnumCounts` | src/main/java/com/abahgat/suffixtree/Utils.java:107-111 | Filtering keeps every occurrence of a kept unit and no occurrence of any other unit |
| `Utils.KeepAlnumAppend` | src/main/java/com/abahgat/suffixtree/Utils.java:107-111 | The filter works on each part of a concatenation on its own |
| `Utils.KeepAlnumFixedPoint` | src/main/java/com/abahgat/suffixtree/Utils.java:107-111 | The filter leaves a string unchanged exactly when all its units are kept |
| `Utils.KeepAlnumOfKept` | src/main/java/com/abahgat/suffixtree/Utils.java:107-111 | A string made only of kept units passes the filter unchanged |
| `Utils.NormalizeIdempotent` | src/main/java/com/abahgat/suffixtree/Utils.java:102-110 | `normalize(normalize(s)) == normalize(s)` |
| `Utils.NormalizeExamples` | src/main/java/com/abahgat/suffixtree/Utils.java:104-114 | `normalize("Hello, World! 123")` is `"helloworld123"`; `normalize("")` is `""` |
| `Utils.CodePointSubstring` | src/main/java/com/abahgat/suffixtree/Utils.java:142-148 | The loop returns the units of the code points `codePoints[startIndex..endIndex]`, and `""` when the range is empty |
| `Utils.GetSubstrings` | src/main/java/com/abahgat/suffixtree/Utils.java:123-140 | The nested loops return exactly `SubstringSet(str)`: the encodings of all code-point slices `[i, j)` with `0 <= i < j <= n`. This is the empty set for `""` |
| `Utils.SubstringSet` | src/main/java/com/abahgat/suffixtree/Utils.java:123-140 | The result of getSubstrings as a set of strings: it is empty exactly when the input is `""` |
| `Utils.SubstringSetMembership` | src/main/java/com/abahgat/suffixtree/Utils.java:123-148 | Soundness and completeness: a string is in the set exactly when its code points are a non-empty contiguous slice of the input's code points |
| `Utils.SubstringSetSound` | src/main/java/com/abahgat/suffixtree/Utils.java:132-137 | Every member decodes to a non-empty slice of the input's code points |
| `Utils.SubstringSetComplete` | src/main/java/com/abahgat/suffixtree/Utils.java:132-137 | Every string that decodes to a non-empty slice of the input's code points is a member |
| `Utils.SubstringsAreFactors` | src/main/java/com/abahgat/suffixtree/Utils.java:123-148 | Every member is non-empty and is a run of units of the input |
| `Utils.WholeStringIsSubstring` | src/main/java/com/abahgat/suffixtree/Utils.java:132-137 | A non-empty input is a member of its own substring set |
| `Utils.SubstringSetCardinality` | src/main/java/com/abahgat/suffixtree/Utils.java:132-137 | With `n` code points the set has at most `n*(n+1)/2` members |
| `Utils.SubstringSetEmpty` | src/main/java/com/abahgat/suffixtree/Utils.java:125-127 | The set for `""` is empty |
| `Utils.SubstringsOfAb` | src/main/java/com/abahgat/suffixtree/Utils.java:123-140 | `getSubstrings("ab")` is `{"a", "b", "ab"}` |
| `Utils.SubstringsOfOneCodePoint` | src/main/java/com/abahgat/suffixtree/Utils.java:123-148 | A single scalar value, even one two units wide, has itself as its only substring |

## Left out

- `String.toLowerCase` with Java's full, locale-dependent rules is not modelled. `ToLowerCase` is ASCII lower-casing. Java also maps U+212A (Kelvin sign) to `k`, and U+0130 to `i` followed by U+0307. In a Turkish locale it maps `I` to a dotless `ı`. So `normalize` keeps a `k` or an `i` for such input where the model keeps nothing, and drops an `i` where the model keeps one.
- `lastCodePoint` on an empty string (`Utils.java:27-28`, `39`) throws `StringIndexOutOfBoundsException`. The model does not have this exception; `LastCodePoint` requires a non-empty string instead. A `null` argument to `lastCodePoint`, `normalize` or `getSubstrings` throws a `NullPointerException`; those three take a plain sequence, which cannot be null.
- `HashSet` and `Collections.emptySet()` as objects are not modelled. The empty set is immutable and the `HashSet` is not; the model returns a `set` value for both. There is no iteration order.
- `SubstringSetCardinality`: proves only the upper bound `n*(n+1)/2`. The bound is reached exactly when all code-point slices are distinct; that direction is not proved.
- `CodePointSubstring`: requires `0 <= startIndex` and `endIndex <= codePoints.Length`. Java would also return `""` for a negative `startIndex` that is not below `endIndex`, and for `startIndex >= endIndex > codePoints.Length`; in both cases no element is read. The only caller passes `0 <= start <= start + len <= n`.
- `String.codePoints`, `codePointAt`, `Character.toCodePoint` and `StringBuilder.appendCodePoint` are library calls. They are replaced by the functions of module `Utf16`. `appendCodePoint`'s `IllegalArgumentException` for values above 0x10FFFF cannot occur, because decoding yields only code points up to 0x10FFFF (type `CodePoint`).
- The suffix tree, its edges and the edge bag are not part of this model. Their source is not available, and `EdgeBagTest.java` only exercises them, apart from a `char`/`byte` cast check with nothing to model.
