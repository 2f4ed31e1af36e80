/**
 * The string helpers beneath the suffix tree (class Utils): code-point-safe
 * first/last character extraction and removal, normalisation before
 * indexing, and a brute-force oracle enumerating all substrings.
 *
 * Strings are sequences of UTF-16 code units; a Java `null` string is
 * `None`.
 */
module Utils {

  import opened Wrappers
  import opened Utf16

  // ---------------------------------------------------------------------
  // Boundary operations
  // ---------------------------------------------------------------------

  /**
   * lastCodePoint: the last code point of a non-empty string.  The unit two
   * places from the end alone decides whether the last code point is two
   * units wide; the last unit is not checked to be a low surrogate.
   */
  function LastCodePoint(s: seq<Unit>): (r: int)
    requires |s| >= 1
    ensures |s| >= 2 && IsHigh(s[|s| - 2]) && IsLow(s[|s| - 1]) ==>
              MinSupplementary <= r <= 0x10FFFF && r == CodePointAt(s, |s| - 2)
    ensures |s| >= 2 && IsHigh(s[|s| - 2]) ==> r == ToCodePoint(s[|s| - 2], s[|s| - 1])
    ensures !(|s| >= 2 && IsHigh(s[|s| - 2])) ==> r == s[|s| - 1]
  {
    if |s| == 1 then
      CodePointAt(s, 0)
    else if IsHigh(s[|s| - 2]) then
      ToCodePoint(s[|s| - 2], s[|s| - 1])
    else
      CodePointAt(s, |s| - 1)
  }

  /**
   * removeLastCodePoint: the prefix left once the last code point is cut
   * off; "" for null and for fewer than two units.
   */
  function RemoveLastCodePoint(input: Option<seq<Unit>>): (r: seq<Unit>)
    ensures input.None? || |input.value| < 2 ==> r == []
    ensures input.Some? && |input.value| >= 2 ==>
              var s := input.value;
              r <= s && |s| - |r| == (if IsHigh(s[|s| - 2]) then 2 else 1)
  {
    if input.None? || |input.value| < 2 then []
    else
      var s := input.value;
      if IsHigh(s[|s| - 2]) then s[..|s| - 2] else s[..|s| - 1]
  }

  /**
   * removeFirstCodePoint: the suffix left once the first code point is cut
   * off; "" for null and for fewer than two units.
   */
  function RemoveFirstCodePoint(input: Option<seq<Unit>>): (r: seq<Unit>)
    ensures input.None? || |input.value| < 2 ==> r == []
    ensures input.Some? && |input.value| >= 2 ==>
              var s := input.value;
              |r| < |s| && r == s[|s| - |r|..] && |s| - |r| == (if IsHigh(s[0]) then 2 else 1)
  {
    if input.None? || |input.value| < 2 then []
    else
      var s := input.value;
      if IsHigh(s[0]) then s[2..] else s[1..]
  }

  /** On well-formed text, lastCodePoint is the last decoded code point. */
  lemma LastCodePointIsLastDecoded(s: seq<Unit>)
    requires |s| >= 1 && WellFormed(s)
    ensures var cps := Decode(s); LastCodePoint(s) == cps[|cps| - 1]
  {
    var n := |s|;
    if n >= 2 && IsHigh(s[n - 2]) {
      WellFormedPairAtEnd(s);
      SplitPairAtEnd(s);
    } else {
      SplitUnitAtEnd(s);
    }
  }

  /** On well-formed text, removeLastCodePoint drops exactly the last decoded code point. */
  lemma RemoveLastDropsLastDecoded(s: seq<Unit>)
    requires |s| >= 1 && WellFormed(s)
    ensures var cps := Decode(s); RemoveLastCodePoint(Some(s)) == Encode(cps[..|cps| - 1])
  {
    var n := |s|;
    var cps := Decode(s);
    var p := RemoveLastCodePoint(Some(s));
    if n >= 2 && IsHigh(s[n - 2]) {
      assert p == s[..n - 2];
      WellFormedPairAtEnd(s);
      SplitPairAtEnd(s);
      assert cps[..|cps| - 1] == Decode(p);
      EncodeDecode(p);
    } else {
      assert p == s[..n - 1];
      SplitUnitAtEnd(s);
      assert cps[..|cps| - 1] == Decode(p);
      EncodeDecode(p);
    }
  }

  /** Round trip: the remaining prefix and the removed code point rebuild the string. */
  lemma RemoveLastRoundTrip(s: seq<Unit>)
    requires |s| >= 1 && WellFormed(s)
    ensures 0 <= LastCodePoint(s) <= 0x10FFFF
    ensures RemoveLastCodePoint(Some(s)) + EncodeCodePoint(LastCodePoint(s)) == s
  {
    var n := |s|;
    if n >= 2 && IsHigh(s[n - 2]) {
      WellFormedPairAtEnd(s);
      PairRoundTrip(s[n - 2], s[n - 1]);
      assert s == s[..n - 2] + s[n - 2..];
    } else {
      assert s == s[..n - 1] + [s[n - 1]];
    }
  }

  /** On well-formed text, removeFirstCodePoint drops exactly the first decoded code point. */
  lemma RemoveFirstDropsFirstDecoded(s: seq<Unit>)
    requires |s| >= 1 && WellFormed(s)
    ensures RemoveFirstCodePoint(Some(s)) == Encode(Decode(s)[1..])
    ensures EncodeCodePoint(Decode(s)[0]) + RemoveFirstCodePoint(Some(s)) == s
  {
    var c := CodePointAt(s, 0);
    var w := CharCount(c);
    if |s| >= 2 && IsHigh(s[0]) {
      WellFormedAt(s, 0);
    }
    assert RemoveFirstCodePoint(Some(s)) == s[w..];
    DecodeFirst(s);
    EncodeDecode(s[w..]);
    CodePointAtUnits(s);
    SplitAt(s, w);
  }

  /**
   * Neither removal splits a surrogate pair: on well-formed text both leave
   * well-formed text behind.
   */
  lemma RemovalsKeepWellFormed(s: seq<Unit>)
    requires WellFormed(s)
    ensures WellFormed(RemoveLastCodePoint(Some(s)))
    ensures WellFormed(RemoveFirstCodePoint(Some(s)))
  {
    var n := |s|;
    if n >= 2 {
      if IsHigh(s[n - 2]) {
        WellFormedPairAtEnd(s);
        WellFormedPrefix(s, n - 2);
      } else {
        WellFormedPrefix(s, n - 1);
      }
      WellFormedAt(s, 0);
      WellFormedAt(s, 1);
      if IsHigh(s[0]) {
        if n > 2 {
          WellFormedAt(s, 2);
        }
        WellFormedSuffix(s, 2);
      } else {
        WellFormedSuffix(s, 1);
      }
    }
  }

  /**
   * One code point, even a supplementary one stored in two units, counts
   * as one: it is its own last code point and removing it leaves "".
   */
  lemma SingleCodePoint(c: CodePoint)
    requires IsScalarValue(c)
    ensures Decode(EncodeCodePoint(c)) == [c]
    ensures LastCodePoint(EncodeCodePoint(c)) == c
    ensures RemoveLastCodePoint(Some(EncodeCodePoint(c))) == []
    ensures RemoveFirstCodePoint(Some(EncodeCodePoint(c))) == []
  {
    var u := EncodeCodePoint(c);
    if c >= MinSupplementary {
      assert u[2..] == [];
    }
  }

  /**
   * The rule on text that is not well-formed: an unpaired high surrogate
   * next to the boundary takes its neighbour with it, although decoding
   * keeps the two apart.
   */
  lemma UnpairedHighSurrogate()
    ensures LastCodePoint([0xD800, 0x41]) == 0x2441
    ensures Decode([0xD800, 0x41]) == [0xD800, 0x41]
    ensures RemoveLastCodePoint(Some([0xD800, 0x41])) == []
    ensures RemoveFirstCodePoint(Some([0xD800, 0x41, 0x42])) == [0x42]
    ensures Decode([0xD800, 0x41, 0x42]) == [0xD800, 0x41, 0x42]
  {
  }

  /** A well-formed string ends in a pair: decoding splits it off whole. */
  lemma SplitPairAtEnd(s: seq<Unit>)
    requires |s| >= 2 && IsHigh(s[|s| - 2]) && IsLow(s[|s| - 1])
    requires |s| == 2 || !IsHigh(s[|s| - 3])
    ensures Decode(s) == Decode(s[..|s| - 2]) + [ToCodePoint(s[|s| - 2], s[|s| - 1])]
  {
    var n := |s|;
    assert s == s[..n - 2] + [s[n - 2], s[n - 1]];
    DecodeAppend(s[..n - 2], [s[n - 2], s[n - 1]]);
    DecodePair(s[n - 2], s[n - 1]);
  }

  /** A string whose second-to-last unit is no high surrogate: its last unit decodes alone. */
  lemma SplitUnitAtEnd(s: seq<Unit>)
    requires |s| >= 1 && (|s| == 1 || !IsHigh(s[|s| - 2]))
    ensures Decode(s) == Decode(s[..|s| - 1]) + [s[|s| - 1]]
  {
    PrefixEndsBelowHigh(s);
    DecodeSnoc(s[..|s| - 1], s[|s| - 1]);
    SplitLast(s);
  }

  /** Appending a unit after a prefix that does not end in a high surrogate appends one code point. */
  lemma DecodeSnoc(p: seq<Unit>, u: Unit)
    requires p == [] || !IsHigh(p[|p| - 1])
    ensures Decode(p + [u]) == Decode(p) + [u]
  {
    DecodeAppend(p, [u]);
    DecodeUnit(u);
  }

  /*
   * SplitLast, PrefixEndsBelowHigh, ProducedNothing, ProducedAll and
   * ThreeParts have empty bodies: they state facts Dafny already knows, and
   * a call provides the terms the solver needs in a costly context.
   */
  lemma SplitLast(s: seq<Unit>)
    requires |s| >= 1
    ensures s == s[..|s| - 1] + [s[|s| - 1]]
  {
  }

  lemma PrefixEndsBelowHigh(s: seq<Unit>)
    requires |s| >= 1 && (|s| == 1 || !IsHigh(s[|s| - 2]))
    ensures var p := s[..|s| - 1]; p == [] || !IsHigh(p[|p| - 1])
  {
  }

  // ---------------------------------------------------------------------
  // Normalisation
  // ---------------------------------------------------------------------

  /** ASCII lower-casing of one unit: 'A'..'Z' become 'a'..'z'. */
  function ToLowerUnit(u: Unit): Unit {
    if 'A' as int <= u <= 'Z' as int then u + ('a' as int - 'A' as int) else u
  }

  /** The model of String.toLowerCase: ASCII lower-casing, unit by unit. */
  function ToLowerCase(s: seq<Unit>): (r: seq<Unit>)
    ensures |r| == |s|
  {
    seq(|s|, i requires 0 <= i < |s| => ToLowerUnit(s[i]))
  }

  /** The units normalize keeps: 'a'..'z' and '0'..'9'. */
  predicate IsKept(u: int) {
    'a' as int <= u <= 'z' as int || '0' as int <= u <= '9' as int
  }

  /** The kept units of s, in order. */
  function KeepAlnum(s: seq<Unit>): (r: seq<Unit>)
    ensures |r| <= |s|
    ensures forall i | 0 <= i < |r| :: IsKept(r[i])
  {
    if s == [] then []
    else KeepAlnum(s[..|s| - 1]) + (if IsKept(s[|s| - 1]) then [s[|s| - 1]] else [])
  }

  /** What normalize returns. */
  function Normalized(s: seq<Unit>): (r: seq<Unit>)
    ensures |r| <= |s|
    ensures forall i | 0 <= i < |r| :: IsKept(r[i])
  {
    KeepAlnum(ToLowerCase(s))
  }

  /** normalize: lower-case, then keep only ASCII letters and digits. */
  method Normalize(input: seq<Unit>) returns (r: seq<Unit>)
    ensures r == Normalized(input)
    ensures forall i | 0 <= i < |r| :: IsKept(r[i])
    ensures |r| <= |input|
  {
    var out: seq<Unit> := [];
    var l := ToLowerCase(input);
    for i := 0 to |l|
      invariant out == KeepAlnum(l[..i])
    {
      var c := l[i];
      assert l[..i + 1][..i] == l[..i];
      if 'a' as int <= c <= 'z' as int || '0' as int <= c <= '9' as int {
        out := out + [c];
      }
    }
    assert l[..|l|] == l;
    r := out;
  }

  /** s is a subsequence of t: s is t with some units deleted. */
  predicate IsSubsequence(s: seq<Unit>, t: seq<Unit>)
    decreases |t|
  {
    s == [] ||
    (t != [] &&
     (IsSubsequence(s, t[..|t| - 1]) ||
      (s[|s| - 1] == t[|t| - 1] && IsSubsequence(s[..|s| - 1], t[..|t| - 1]))))
  }

  lemma {:induction false} SubsequenceShorter(s: seq<Unit>, t: seq<Unit>)
    requires IsSubsequence(s, t)
    ensures |s| <= |t|
    decreases |t|
  {
    if s != [] {
      if IsSubsequence(s, t[..|t| - 1]) {
        SubsequenceShorter(s, t[..|t| - 1]);
      } else {
        SubsequenceShorter(s[..|s| - 1], t[..|t| - 1]);
      }
    }
  }

  /** The kept units appear in s in their original order. */
  lemma {:induction false} KeepAlnumSubsequence(s: seq<Unit>)
    ensures IsSubsequence(KeepAlnum(s), s)
  {
    if s != [] {
      var p := s[..|s| - 1];
      KeepAlnumSubsequence(p);
      var k := KeepAlnum(s);
      if IsKept(s[|s| - 1]) {
        assert k == KeepAlnum(p) + [s[|s| - 1]];
        assert k[..|k| - 1] == KeepAlnum(p) && k[|k| - 1] == s[|s| - 1];
        assert s[..|s| - 1] == p;
      } else {
        assert k == KeepAlnum(p);
      }
    }
  }

  /** Nothing kept is lost: each kept unit occurs as often as in s, every other unit not at all. */
  lemma {:induction false} KeepAlnumCounts(s: seq<Unit>, u: Unit)
    ensures multiset(KeepAlnum(s))[u] == if IsKept(u) then multiset(s)[u] else 0
  {
    if s != [] {
      var p := s[..|s| - 1];
      KeepAlnumCounts(p, u);
      assert s == p + [s[|s| - 1]];
    }
  }

  /** A string of kept units only is left as it is. */
  lemma {:induction false} KeepAlnumOfKept(s: seq<Unit>)
    requires forall i | 0 <= i < |s| :: IsKept(s[i])
    ensures KeepAlnum(s) == s
  {
    if s != [] {
      KeepAlnumOfKept(s[..|s| - 1]);
    }
  }

  /** Filtering keeps s unchanged exactly when every unit of s is kept. */
  lemma KeepAlnumFixedPoint(s: seq<Unit>)
    ensures KeepAlnum(s) == s <==> forall i | 0 <= i < |s| :: IsKept(s[i])
  {
    if forall i | 0 <= i < |s| :: IsKept(s[i]) {
      KeepAlnumOfKept(s);
    }
  }

  /** normalize is idempotent. */
  lemma NormalizeIdempotent(s: seq<Unit>)
    ensures Normalized(Normalized(s)) == Normalized(s)
  {
    var r := Normalized(s);
    assert ToLowerCase(r) == r;
    KeepAlnumOfKept(r);
  }

  /** The characterisation of normalize's output in one place. */
  lemma NormalizedIsKeptSubsequence(s: seq<Unit>)
    ensures forall i | 0 <= i < |Normalized(s)| :: IsKept(Normalized(s)[i])
    ensures IsSubsequence(Normalized(s), ToLowerCase(s))
    ensures |Normalized(s)| <= |ToLowerCase(s)|
    ensures forall u: Unit :: multiset(Normalized(s))[u] == if IsKept(u) then multiset(ToLowerCase(s))[u] else 0
  {
    var l: seq<Unit> := ToLowerCase(s);
    KeepAlnumSubsequence(l);
    SubsequenceShorter(Normalized(s), l);
    forall u: Unit ensures multiset(Normalized(s))[u] == if IsKept(u) then multiset(ToLowerCase(s))[u] else 0 {
      KeepAlnumCounts(l, u);
    }
  }

  /** The units of an ASCII string literal. */
  function Ascii(str: string): (r: seq<Unit>)
    requires forall i | 0 <= i < |str| :: str[i] as int < 0x80
    ensures |r| == |str| && forall i | 0 <= i < |str| :: r[i] == str[i] as int
  {
    seq(|str|, i requires 0 <= i < |str| => str[i] as int)
  }

  /** KeepAlnum filters each part of a concatenation on its own. */
  lemma {:induction false} KeepAlnumAppend(a: seq<Unit>, b: seq<Unit>)
    ensures KeepAlnum(a + b) == KeepAlnum(a) + KeepAlnum(b)
    decreases |b|
  {
    if b == [] {
      assert a + b == a;
    } else {
      assert (a + b)[..|a + b| - 1] == a + b[..|b| - 1];
      KeepAlnumAppend(a, b[..|b| - 1]);
    }
  }

  /** normalize("Hello, World! 123") is "helloworld123", and normalize("") is "". */
  lemma NormalizeExamples()
    ensures Normalized(Ascii("Hello, World! 123")) == Ascii("helloworld123")
    ensures Normalized([]) == []
  {
    ExampleLowered();
    ExampleFiltered();
    assert Ascii("helloworld123") == [0x68, 0x65, 0x6C, 0x6C, 0x6F] + [0x77, 0x6F, 0x72, 0x6C, 0x64] + [0x31, 0x32, 0x33];
  }

  lemma ExampleLowered()
    ensures ToLowerCase(Ascii("Hello, World! 123")) ==
              [0x68, 0x65, 0x6C, 0x6C, 0x6F] + [0x2C, 0x20] + [0x77, 0x6F, 0x72, 0x6C, 0x64] + [0x21, 0x20] + [0x31, 0x32, 0x33]
  {
    var hello, comma, world, bang, digits := [0x48, 0x65, 0x6C, 0x6C, 0x6F], [0x2C, 0x20],
      [0x57, 0x6F, 0x72, 0x6C, 0x64], [0x21, 0x20], [0x31, 0x32, 0x33];
    assert Ascii("Hello, World! 123") == hello + comma + world + bang + digits;
    ToLowerCaseAppend(hello, comma);
    ToLowerCaseAppend(hello + comma, world);
    ToLowerCaseAppend(hello + comma + world, bang);
    ToLowerCaseAppend(hello + comma + world + bang, digits);
    assert ToLowerCase(hello) == [0x68, 0x65, 0x6C, 0x6C, 0x6F];
    assert ToLowerCase(world) == [0x77, 0x6F, 0x72, 0x6C, 0x64];
    assert ToLowerCase(comma) == comma && ToLowerCase(bang) == bang && ToLowerCase(digits) == digits;
  }

  lemma ExampleFiltered()
    ensures KeepAlnum([0x68, 0x65, 0x6C, 0x6C, 0x6F] + [0x2C, 0x20] + [0x77, 0x6F, 0x72, 0x6C, 0x64] + [0x21, 0x20] + [0x31, 0x32, 0x33]) ==
              [0x68, 0x65, 0x6C, 0x6C, 0x6F] + [0x77, 0x6F, 0x72, 0x6C, 0x64] + [0x31, 0x32, 0x33]
  {
    var hello, comma, world, bang, digits := [0x68, 0x65, 0x6C, 0x6C, 0x6F], [0x2C, 0x20],
      [0x77, 0x6F, 0x72, 0x6C, 0x64], [0x21, 0x20], [0x31, 0x32, 0x33];
    KeepAlnumAppend(hello, comma);
    KeepAlnumAppend(hello + comma, world);
    KeepAlnumAppend(hello + comma + world, bang);
    KeepAlnumAppend(hello + comma + world + bang, digits);
    KeepAlnumOfKept(hello);
    KeepAlnumOfKept(world);
    KeepAlnumOfKept(digits);
    assert KeepAlnum(comma) == [] && KeepAlnum(bang) == [];
  }

  lemma ToLowerCaseAppend(a: seq<Unit>, b: seq<Unit>)
    ensures ToLowerCase(a + b) == ToLowerCase(a) + ToLowerCase(b)
  {
  }

  // ---------------------------------------------------------------------
  // Substring oracle
  // ---------------------------------------------------------------------

  /** The units of the code points cps[i..j]. */
  function CodePointSlice(cps: seq<CodePoint>, i: int, j: int): seq<Unit>
    requires 0 <= i <= j <= |cps|
  {
    Encode(cps[i..j])
  }

  /**
   * What getSubstrings returns: the re-encoding of every contiguous,
   * non-empty slice of the string's code points.
   */
  function SubstringSet(s: seq<Unit>): (r: set<seq<Unit>>)
    ensures r == {} <==> s == []
  {
    var cps := Decode(s);
    var r := set i, j | 0 <= i < j <= |cps| :: CodePointSlice(cps, i, j);
    EncodeDecode(s);
    assert s != [] ==> s in r by {
      if s != [] {
        assert cps[0..|cps|] == cps;
        assert CodePointSlice(cps, 0, |cps|) in r;
      }
    }
    r
  }

  /**
   * The slices the nested loops of getSubstrings have produced before the
   * iteration with length len and start offset start: all shorter ones,
   * and those of length len that begin before start.
   */
  ghost function Produced(cps: seq<CodePoint>, len: nat, start: nat): set<seq<Unit>> {
    set i, j | 0 <= i < j <= |cps| && (j - i < len || (j - i == len && i < start)) :: CodePointSlice(cps, i, j)
  }

  /** codePointSubstring: the units of the code points in [startIndex, endIndex). */
  method CodePointSubstring(codePoints: array<CodePoint>, startIndex: int, endIndex: int) returns (s: seq<Unit>)
    requires 0 <= startIndex && endIndex <= codePoints.Length
    ensures startIndex <= endIndex ==> s == Encode(codePoints[startIndex..endIndex])
    ensures endIndex < startIndex ==> s == []
  {
    s := [];
    var index := startIndex;
    while index < endIndex
      invariant startIndex <= endIndex ==> startIndex <= index <= endIndex
      invariant startIndex <= endIndex ==> s == Encode(codePoints[startIndex..index])
      invariant endIndex < startIndex ==> index == startIndex && s == []
    {
      EncodeAppend(codePoints[startIndex..index], [codePoints[index]]);
      assert codePoints[startIndex..index + 1] == codePoints[startIndex..index] + [codePoints[index]];
      s := s + EncodeCodePoint(codePoints[index]);
      index := index + 1;
    }
  }

  /** getSubstrings: every substring, counted in code points, as a set. */
  method GetSubstrings(str: seq<Unit>) returns (ret: set<seq<Unit>>)
    ensures ret == SubstringSet(str)
  {
    ret := {};
    if |str| == 0 {
      SubstringSetEmpty();
      return {};
    }
    var cps := Decode(str);
    var codePoints := new CodePoint[|cps|](i requires 0 <= i < |cps| => cps[i]);
    var len := 1;
    ProducedNothing(cps);
    while len <= codePoints.Length
      invariant 1 <= len <= codePoints.Length + 1
      invariant codePoints.Length == |cps| && forall k | 0 <= k < |cps| :: codePoints[k] == cps[k]
      invariant ret == Produced(cps, len, 0)
    {
      var start := 0;
      while start + len <= codePoints.Length
        invariant 0 <= start <= codePoints.Length - len + 1
        invariant forall k | 0 <= k < |cps| :: codePoints[k] == cps[k]
        invariant ret == Produced(cps, len, start)
      {
        var itstr := CodePointSubstring(codePoints, start, start + len);
        assert codePoints[start..start + len] == cps[start..start + len];
        ProducedStep(cps, len, start);
        ret := ret + {itstr};
        start := start + 1;
      }
      ProducedNextLength(cps, len);
      len := len + 1;
    }
    ProducedAll(cps);
  }

  lemma SubstringSetEmpty()
    ensures SubstringSet([]) == {}
  {
    assert Decode([]) == [];
  }

  // Empty body: it only supplies terms to the solver, as SplitLast does.
  lemma ProducedNothing(cps: seq<CodePoint>)
    ensures Produced(cps, 1, 0) == {}
  {
  }

  /** One more iteration of the inner loop adds one slice. */
  lemma ProducedStep(cps: seq<CodePoint>, len: nat, start: nat)
    requires 1 <= len && start + len <= |cps|
    ensures Produced(cps, len, start + 1) == Produced(cps, len, start) + {CodePointSlice(cps, start, start + len)}
  {
    var a := Produced(cps, len, start + 1);
    var before := Produced(cps, len, start);
    var x0 := CodePointSlice(cps, start, start + len);
    forall x | x in a ensures x in before + {x0} {
      var i, j :| 0 <= i < j <= |cps| && (j - i < len || (j - i == len && i < start + 1)) && x == CodePointSlice(cps, i, j);
      if !(j - i == len && i == start) {
        assert x in before;
      }
    }
    forall x | x in before + {x0} ensures x in a {
      if x == x0 {
        assert CodePointSlice(cps, start, start + len) in a;
      } else {
        var i, j :| 0 <= i < j <= |cps| && (j - i < len || (j - i == len && i < start)) && x == CodePointSlice(cps, i, j);
        assert CodePointSlice(cps, i, j) in a;
      }
    }
  }

  /** The end of the inner loop is the start of the next length. */
  lemma ProducedNextLength(cps: seq<CodePoint>, len: nat)
    requires 1 <= len <= |cps|
    ensures Produced(cps, len, |cps| - len + 1) == Produced(cps, len + 1, 0)
  {
  }

  // Empty body: it only supplies terms to the solver, as SplitLast does.
  lemma ProducedAll(cps: seq<CodePoint>)
    ensures Produced(cps, |cps| + 1, 0) == set i, j | 0 <= i < j <= |cps| :: CodePointSlice(cps, i, j)
  {
  }

  /** A slice of a canonical sequence is canonical. */
  lemma CanonicalSlice(cps: seq<CodePoint>, i: int, j: int)
    requires Canonical(cps) && 0 <= i <= j <= |cps|
    ensures Canonical(cps[i..j])
  {
    var t := cps[i..j];
    forall k | 0 <= k < |t| - 1 ensures !(IsHigh(t[k]) && IsLow(t[k + 1])) {
      assert t[k] == cps[i + k] && t[k + 1] == cps[i + k + 1];
    }
  }

  /** Every member of the set decodes to a non-empty slice of the input's code points. */
  lemma SubstringSetSound(s: seq<Unit>, x: seq<Unit>)
    requires x in SubstringSet(s)
    ensures exists i, j | 0 <= i < j <= |Decode(s)| :: Decode(x) == Decode(s)[i..j]
  {
    var cps := Decode(s);
    var i, j :| 0 <= i < j <= |cps| && x == CodePointSlice(cps, i, j);
    DecodeCanonical(s);
    CanonicalSlice(cps, i, j);
    DecodeEncode(cps[i..j]);
    assert Decode(x) == cps[i..j];
  }

  /** Every string whose code points are a non-empty slice of the input's is in the set. */
  lemma SubstringSetComplete(s: seq<Unit>, x: seq<Unit>, i: int, j: int)
    requires 0 <= i < j <= |Decode(s)| && Decode(x) == Decode(s)[i..j]
    ensures x in SubstringSet(s)
  {
    EncodeDecode(x);
    assert x == CodePointSlice(Decode(s), i, j);
  }

  /**
   * getSubstrings is sound and complete: x is in the set exactly when its
   * code points are a non-empty contiguous slice of the string's code points.
   */
  lemma SubstringSetMembership(s: seq<Unit>, x: seq<Unit>)
    ensures x in SubstringSet(s) <==>
            exists i, j | 0 <= i < j <= |Decode(s)| :: Decode(x) == Decode(s)[i..j]
  {
    if x in SubstringSet(s) {
      SubstringSetSound(s, x);
    }
    if exists i, j | 0 <= i < j <= |Decode(s)| :: Decode(x) == Decode(s)[i..j] {
      var i, j :| 0 <= i < j <= |Decode(s)| && Decode(x) == Decode(s)[i..j];
      SubstringSetComplete(s, x, i, j);
    }
  }

  /** Every member is a non-empty run of units of the string itself. */
  lemma SubstringsAreFactors(s: seq<Unit>, x: seq<Unit>)
    requires x in SubstringSet(s)
    ensures x != []
    ensures exists a, b | 0 <= a < b <= |s| :: x == s[a..b]
  {
    var cps := Decode(s);
    var i, j :| 0 <= i < j <= |cps| && x == CodePointSlice(cps, i, j);
    EncodeThreeParts(cps, i, j);
    EncodeDecode(s);
    var before, after := Encode(cps[..i]), Encode(cps[j..]);
    assert s == before + x + after;
    MiddlePart(s, before, x, after);
  }

  /** Encoding a sequence cut in three places. */
  lemma EncodeThreeParts(cps: seq<CodePoint>, i: int, j: int)
    requires 0 <= i <= j <= |cps|
    ensures Encode(cps) == Encode(cps[..i]) + Encode(cps[i..j]) + Encode(cps[j..])
  {
    var l, m, r := cps[..i], cps[i..j], cps[j..];
    EncodeAppend(l + m, r);
    EncodeAppend(l, m);
    ThreeParts(cps, i, j);
  }

  // Empty body: it only supplies terms to the solver, as SplitLast does.
  lemma ThreeParts(cps: seq<CodePoint>, i: int, j: int)
    requires 0 <= i <= j <= |cps|
    ensures cps == cps[..i] + cps[i..j] + cps[j..]
  {
  }

  lemma MiddlePart(s: seq<Unit>, before: seq<Unit>, x: seq<Unit>, after: seq<Unit>)
    requires s == before + x + after && x != []
    ensures exists a, b | 0 <= a < b <= |s| :: x == s[a..b]
  {
    assert s[|before|..|before| + |x|] == x;
  }

  /** A non-empty string is one of its own substrings. */
  lemma WholeStringIsSubstring(s: seq<Unit>)
    requires s != []
    ensures s in SubstringSet(s)
  {
    var cps := Decode(s);
    EncodeDecode(s);
    assert cps[0..|cps|] == cps;
    assert s == CodePointSlice(cps, 0, |cps|);
  }

  /** With n code points there are at most n * (n + 1) / 2 distinct substrings. */
  lemma SubstringSetCardinality(s: seq<Unit>)
    ensures var n := |Decode(s)|; |SubstringSet(s)| <= n * (n + 1) / 2
  {
    var cps := Decode(s);
    var n := |cps|;
    ProducedAll(cps);
    ProducedBound(cps, n + 1, 0);
    assert 2 * |SubstringSet(s)| <= n * (n + 1);
  }

  /** The loops' count so far: every step adds at most one new substring. */
  lemma {:induction false} ProducedBound(cps: seq<CodePoint>, len: nat, start: nat)
    requires 1 <= len <= |cps| + 1 && start + len <= |cps| + 1
    ensures 2 * |Produced(cps, len, start)| <= (len - 1) * (2 * |cps| - len + 2) + 2 * start
    decreases len, start
  {
    var n := |cps|;
    if start > 0 {
      ProducedStep(cps, len, start - 1);
      AddOneBound(Produced(cps, len, start - 1), CodePointSlice(cps, start - 1, start - 1 + len));
      ProducedBound(cps, len, start - 1);
    } else if len > 1 {
      var l := len - 1;
      ProducedNextLength(cps, l);
      ProducedBound(cps, l, n - l + 1);
      LengthBoundStep(n, l);
    } else {
      ProducedNothing(cps);
    }
  }

  lemma AddOneBound(a: set<seq<Unit>>, x: seq<Unit>)
    ensures |a + {x}| <= |a| + 1
  {
    if x in a {
      assert a + {x} == a;
    }
  }

  /** The bound after the last start of one length is the bound at the first start of the next. */
  lemma LengthBoundStep(n: int, l: int)
    ensures (l - 1) * (2 * n - l + 2) + 2 * (n - l + 1) == l * (2 * n - l + 1)
  {
    assert (l - 1) * (2 * n - l + 2) == l * (2 * n - l + 2) - (2 * n - l + 2);
    assert l * (2 * n - l + 2) == l * (2 * n - l + 1) + l;
  }

  /** getSubstrings("ab") is {"a", "b", "ab"}. */
  lemma SubstringsOfAb()
    ensures SubstringSet([0x61, 0x62]) == {[0x61], [0x62], [0x61, 0x62]}
  {
    var s: seq<Unit> := [0x61, 0x62];
    var cps := Decode(s);
    assert cps == [0x61, 0x62];
    assert CodePointSlice(cps, 0, 1) == [0x61];
    assert CodePointSlice(cps, 1, 2) == [0x62];
    assert CodePointSlice(cps, 0, 2) == [0x61, 0x62];
  }

  /** A supplementary code point, two units wide, has itself as its only substring. */
  lemma SubstringsOfOneCodePoint(c: CodePoint)
    requires IsScalarValue(c)
    ensures SubstringSet(EncodeCodePoint(c)) == {EncodeCodePoint(c)}
  {
    SingleCodePoint(c);
    var cps := Decode(EncodeCodePoint(c));
    assert CodePointSlice(cps, 0, 1) == EncodeCodePoint(c);
  }
}
