/**
 * UTF-16 as the Java platform uses it (section 3.9 of the Unicode Standard,
 * definition D91; section 2 of RFC 2781).  A Java string is a sequence of
 * 16-bit code units; a code point above U+FFFF is stored as a high surrogate
 * (U+D800..U+DBFF) followed by a low surrogate (U+DC00..U+DFFF).
 *
 * The members here stand in for the library routines the string helpers
 * call: Character.isHighSurrogate, Character.toCodePoint, String.codePointAt,
 * String.codePoints and StringBuilder.appendCodePoint.
 */
module Utf16 {

  /** One Java `char`. */
  type Unit = u: int | 0 <= u <= 0xFFFF

  /** One Unicode code point (surrogate code points included, as in Java). */
  type CodePoint = c: int | 0 <= c <= 0x10FFFF

  const MinSupplementary := 0x10000

  predicate IsHigh(u: int) { 0xD800 <= u <= 0xDBFF }

  predicate IsLow(u: int) { 0xDC00 <= u <= 0xDFFF }

  /** A code point that is not a surrogate code point. */
  predicate IsScalarValue(c: int) { 0 <= c <= 0x10FFFF && !(0xD800 <= c <= 0xDFFF) }

  /**
   * Character.toCodePoint: combines two units arithmetically, without
   * checking that they really are a high and a low surrogate.
   */
  function ToCodePoint(high: Unit, low: Unit): (r: int)
    ensures IsHigh(high) && IsLow(low) ==> MinSupplementary <= r <= 0x10FFFF
  {
    (high - 0xD800) * 1024 + (low - 0xDC00) + MinSupplementary
  }

  /** Character.toChars / StringBuilder.appendCodePoint: the units of one code point. */
  function EncodeCodePoint(c: CodePoint): (r: seq<Unit>)
    ensures 1 <= |r| <= 2
    ensures |r| == 1 <==> c < MinSupplementary
    ensures c < MinSupplementary ==> r == [c]
    ensures c >= MinSupplementary ==> IsHigh(r[0]) && IsLow(r[1]) && ToCodePoint(r[0], r[1]) == c
  {
    if c < MinSupplementary then [c]
    else [0xD800 + (c - MinSupplementary) / 1024, 0xDC00 + (c - MinSupplementary) % 1024]
  }

  /**
   * Character.isHighSurrogate tells apart the first unit of a scalar value's
   * encoding: it is a high surrogate exactly when the value takes two units.
   */
  lemma HighSurrogateLeadsPair(c: CodePoint)
    requires IsScalarValue(c)
    ensures IsHigh(EncodeCodePoint(c)[0]) <==> c >= MinSupplementary
    ensures !IsLow(EncodeCodePoint(c)[0])
  {
  }

  /** Encoding a surrogate pair's code point gives the pair back. */
  lemma PairRoundTrip(high: Unit, low: Unit)
    requires IsHigh(high) && IsLow(low)
    ensures EncodeCodePoint(ToCodePoint(high, low)) == [high, low]
  {
    var d := ToCodePoint(high, low) - MinSupplementary;
    assert d == (high - 0xD800) * 1024 + (low - 0xDC00);
    assert d / 1024 == high - 0xD800 && d % 1024 == low - 0xDC00;
  }

  /**
   * String.codePointAt: the code point that starts at index i; a high
   * surrogate followed by a low one is combined, any other unit stands
   * for itself.
   */
  function CodePointAt(s: seq<Unit>, i: int): (r: CodePoint)
    requires 0 <= i < |s|
    ensures i == |s| - 1 ==> r == s[i]
    ensures r >= MinSupplementary <==> i + 1 < |s| && IsHigh(s[i]) && IsLow(s[i + 1])
    ensures r < MinSupplementary ==> r == s[i]
    ensures r >= MinSupplementary ==> r == ToCodePoint(s[i], s[i + 1])
  {
    if i + 1 < |s| && IsHigh(s[i]) && IsLow(s[i + 1]) then ToCodePoint(s[i], s[i + 1]) else s[i]
  }

  /** Character.charCount: the number of units a code point takes. */
  function CharCount(c: CodePoint): (r: nat)
    ensures r == |EncodeCodePoint(c)|
  {
    if c >= MinSupplementary then 2 else 1
  }

  /**
   * String.codePoints: the code point at the front, then the code points of
   * what follows it; unpaired surrogates decode to themselves.
   */
  function Decode(s: seq<Unit>): (r: seq<CodePoint>)
    ensures |r| <= |s|
    ensures s != [] ==> r != []
  {
    if s == [] then []
    else
      var c := CodePointAt(s, 0);
      [c] + Decode(s[CharCount(c)..])
  }

  /** The units of a sequence of code points, one after another. */
  function Encode(cps: seq<CodePoint>): (r: seq<Unit>)
    ensures |cps| <= |r| <= 2 * |cps|
  {
    if cps == [] then [] else EncodeCodePoint(cps[0]) + Encode(cps[1..])
  }

  /** The surrogate at index i, if it is one, is half of a high-low pair. */
  predicate PairedAt(s: seq<Unit>, i: int)
    requires 0 <= i < |s|
  {
    (IsHigh(s[i]) ==> i + 1 < |s| && IsLow(s[i + 1])) &&
    (IsLow(s[i]) ==> 0 < i && IsHigh(s[i - 1]))
  }

  /** Well-formed UTF-16: every surrogate is half of a high-low pair. */
  predicate WellFormed(s: seq<Unit>) {
    forall i | 0 <= i < |s| :: PairedAt(s, i)
  }

  /**
   * No unpaired high surrogate code point is directly followed by an
   * unpaired low one: such a sequence re-encodes without two units fusing.
   */
  predicate Canonical(cps: seq<CodePoint>) {
    forall i | 0 <= i < |cps| - 1 :: !(IsHigh(cps[i]) && IsLow(cps[i + 1]))
  }

  lemma {:induction false} EncodeAppend(a: seq<CodePoint>, b: seq<CodePoint>)
    ensures Encode(a + b) == Encode(a) + Encode(b)
  {
    if a == [] {
      assert a + b == b;
    } else {
      DropAppend(a, b, 1);
      EncodeAppend(a[1..], b);
      AppendAssoc(EncodeCodePoint(a[0]), Encode(a[1..]), Encode(b));
    }
  }

  /** Encoding a code point in front of others. */
  lemma EncodeCons(c: CodePoint, cps: seq<CodePoint>)
    ensures Encode([c] + cps) == EncodeCodePoint(c) + Encode(cps)
  {
    ConsParts(c, cps);
  }

  /** The code point at the front of a string is encoded by the units it was read from. */
  lemma CodePointAtUnits(s: seq<Unit>)
    requires s != []
    ensures CharCount(CodePointAt(s, 0)) <= |s|
    ensures EncodeCodePoint(CodePointAt(s, 0)) == s[..CharCount(CodePointAt(s, 0))]
  {
    if |s| >= 2 && IsHigh(s[0]) && IsLow(s[1]) {
      PairRoundTrip(s[0], s[1]);
      assert s[..2] == [s[0], s[1]];
    } else {
      assert s[..1] == [s[0]];
    }
  }

  /** Decoding loses nothing: re-encoding gives back every unit. */
  lemma {:induction false} EncodeDecode(s: seq<Unit>)
    ensures Encode(Decode(s)) == s
  {
    if s != [] {
      var c := CodePointAt(s, 0);
      var w := CharCount(c);
      var t := s[w..];
      CodePointAtUnits(s);
      EncodeDecode(t);
      assert Decode(s) == [c] + Decode(t);
      EncodeCons(c, Decode(t));
      SplitAt(s, w);
    }
  }

  /** The first decoded code point is the one at index 0. */
  lemma DecodeFirst(s: seq<Unit>)
    requires s != []
    ensures Decode(s)[0] == CodePointAt(s, 0)
    ensures Decode(s)[1..] == Decode(s[CharCount(CodePointAt(s, 0))..])
  {
    ConsParts(CodePointAt(s, 0), Decode(s[CharCount(CodePointAt(s, 0))..]));
  }

  /** A code point in front of a canonical sequence keeps it canonical unless the two fuse. */
  lemma CanonicalCons(c: CodePoint, t: seq<CodePoint>)
    requires Canonical(t) && (t == [] || !(IsHigh(c) && IsLow(t[0])))
    ensures Canonical([c] + t)
  {
    var r := [c] + t;
    forall i | 0 <= i < |r| - 1 ensures !(IsHigh(r[i]) && IsLow(r[i + 1])) {
      if i > 0 {
        assert r[i] == t[i - 1] && r[i + 1] == t[i];
      }
    }
  }

  /** What decoding produces never contains two surrogates that would fuse. */
  lemma {:induction false} DecodeCanonical(s: seq<Unit>)
    ensures Canonical(Decode(s))
  {
    if s != [] {
      var c := CodePointAt(s, 0);
      var t := s[CharCount(c)..];
      DecodeCanonical(t);
      if t != [] && IsHigh(c) {
        // c stands alone, so the unit after it is no low surrogate
        DecodeFirst(t);
        assert t[0] == s[1];
      }
      CanonicalCons(c, Decode(t));
    }
  }

  /** Scalar values (and, more generally, canonical sequences) decode back unchanged. */
  lemma {:induction false} DecodeEncode(cps: seq<CodePoint>)
    requires Canonical(cps)
    ensures Decode(Encode(cps)) == cps
  {
    if cps != [] {
      var rest := Encode(cps[1..]);
      assert Canonical(cps[1..]) by {
        forall i | 0 <= i < |cps[1..]| - 1 ensures !(IsHigh(cps[1..][i]) && IsLow(cps[1..][i + 1])) {
          assert cps[1..][i] == cps[i + 1] && cps[1..][i + 1] == cps[i + 2];
        }
      }
      DecodeEncode(cps[1..]);
      var c := cps[0];
      var u := Encode(cps);
      assert u == EncodeCodePoint(c) + rest;
      if c >= MinSupplementary {
        assert u[2..] == rest;
      } else {
        assert u[1..] == rest;
      }
    }
  }

  /**
   * Decoding splits at a boundary that does not follow a high surrogate.
   */
  lemma {:induction false} DecodeAppend(a: seq<Unit>, b: seq<Unit>)
    requires a == [] || !IsHigh(a[|a| - 1])
    ensures Decode(a + b) == Decode(a) + Decode(b)
  {
    if a == [] {
      assert a + b == b;
    } else {
      var c := CodePointAt(a, 0);
      var w := CharCount(c);
      CodePointAtUnits(a);
      var rest := a[w..];
      CodePointAtAppend(a, b);
      DropAppend(a, b, w);
      assert Decode(a + b) == [c] + Decode(rest + b);
      DropKeepsLast(a, w);
      DecodeAppend(rest, b);
      AppendAssoc([c], Decode(rest), Decode(b));
    }
  }

  /** A single unit decodes to itself. */
  lemma DecodeUnit(u: Unit)
    ensures Decode([u]) == [u]
  {
    assert CodePointAt([u], 0) == u;
    assert [u][1..] == [];
  }

  /** A surrogate pair decodes to one supplementary code point. */
  lemma DecodePair(high: Unit, low: Unit)
    requires IsHigh(high) && IsLow(low)
    ensures Decode([high, low]) == [ToCodePoint(high, low)]
  {
    assert CodePointAt([high, low], 0) == ToCodePoint(high, low);
    assert [high, low][2..] == [];
  }

  /** Appending after a unit that is no high surrogate leaves the first code point alone. */
  lemma CodePointAtAppend(a: seq<Unit>, b: seq<Unit>)
    requires a != [] && !IsHigh(a[|a| - 1])
    ensures CodePointAt(a + b, 0) == CodePointAt(a, 0)
  {
    assert (a + b)[0] == a[0];
    if |a| >= 2 {
      assert (a + b)[1] == a[1];
    }
  }

  /** Well-formed text whose last two units are a surrogate pair. */
  lemma WellFormedPairAtEnd(s: seq<Unit>)
    requires WellFormed(s) && |s| >= 2 && IsHigh(s[|s| - 2])
    ensures IsLow(s[|s| - 1])
    ensures |s| == 2 || !IsHigh(s[|s| - 3])
  {
    WellFormedAt(s, |s| - 2);
    if |s| > 2 {
      WellFormedAt(s, |s| - 3);
    }
  }

  /** Well-formedness at one index. */
  lemma WellFormedAt(s: seq<Unit>, i: int)
    requires WellFormed(s) && 0 <= i < |s|
    ensures IsHigh(s[i]) ==> i + 1 < |s| && IsLow(s[i + 1])
    ensures IsLow(s[i]) ==> 0 < i && IsHigh(s[i - 1])
  {
    assert PairedAt(s, i);
  }

  /** Cutting well-formed text where no pair is split leaves a well-formed prefix. */
  lemma WellFormedPrefix(s: seq<Unit>, m: int)
    requires WellFormed(s) && 0 <= m <= |s| && (m == 0 || !IsHigh(s[m - 1]))
    ensures WellFormed(s[..m])
  {
    var p := s[..m];
    forall i | 0 <= i < |p| ensures PairedAt(p, i) {
      assert p[i] == s[i];
      WellFormedAt(s, i);
      if IsHigh(p[i]) {
        assert i + 1 != m;
        assert p[i + 1] == s[i + 1];
      }
      if IsLow(p[i]) {
        assert p[i - 1] == s[i - 1];
      }
    }
  }

  /** Cutting well-formed text where no pair is split leaves a well-formed suffix. */
  lemma WellFormedSuffix(s: seq<Unit>, m: int)
    requires WellFormed(s) && 0 <= m <= |s| && (m == |s| || !IsLow(s[m]))
    ensures WellFormed(s[m..])
  {
    var q := s[m..];
    forall k | 0 <= k < |q| ensures PairedAt(q, k) {
      assert q[k] == s[m + k];
      WellFormedAt(s, m + k);
      if IsHigh(q[k]) {
        assert q[k + 1] == s[m + k + 1];
      }
      if IsLow(q[k]) {
        assert k != 0;
        assert q[k - 1] == s[m + k - 1];
      }
    }
  }

  /*
   * The generic sequence lemmas below have empty bodies: they state facts
   * Dafny already knows, and a call provides the terms that let the solver
   * use them without searching for them in a costly context.
   */
  lemma SplitAt<T>(s: seq<T>, w: int)
    requires 0 <= w <= |s|
    ensures s == s[..w] + s[w..]
  {
  }

  lemma ConsParts<T>(c: T, t: seq<T>)
    ensures ([c] + t)[0] == c && ([c] + t)[1..] == t
  {
  }

  lemma DropAppend<T>(a: seq<T>, b: seq<T>, w: int)
    requires 0 <= w <= |a|
    ensures (a + b)[w..] == a[w..] + b
  {
  }

  lemma AppendAssoc<T>(a: seq<T>, b: seq<T>, c: seq<T>)
    ensures a + (b + c) == (a + b) + c
  {
  }

  lemma DropKeepsLast<T>(a: seq<T>, w: int)
    requires 0 <= w <= |a|
    ensures a[w..] == [] || a[w..][|a[w..]| - 1] == a[|a| - 1]
  {
  }
}
