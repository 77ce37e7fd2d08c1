/** UTF-8 encoding of JavaScript strings. */
module Utf8 {

  /** A UTF-16 code unit and a byte, in the 32-bit integers that bitwise operators work on. */
  type CodeUnit = u: bv32 | u <= 0xFFFF
  type Byte = b: bv32 | b <= 0xFF

  predicate IsHigh(u: CodeUnit) { 0xD800 <= u <= 0xDBFF }

  predicate IsLow(u: CodeUnit) { 0xDC00 <= u <= 0xDFFF }

  predicate StartsPair(s: seq<CodeUnit>) {
    |s| >= 2 && IsHigh(s[0]) && IsLow(s[1])
  }

  /** The code point of a surrogate pair. */
  function Combine(high: CodeUnit, low: CodeUnit): bv32 {
    ((high - 0xD800) << 10) + low - 0xDC00 + 0x10000
  }

  /** The first code point of `s`, and the code units after it. */
  function First(s: seq<CodeUnit>): (r: (bv32, seq<CodeUnit>))
    requires s != []
    ensures |r.1| < |s|
  {
    if StartsPair(s) then (Combine(s[0], s[1]), s[2..]) else (s[0], s[1..])
  }

  function Lead2(c: bv32): Byte { ((c >> 6) & 0x1F) | 0xC0 }

  function Lead3(c: bv32): Byte
    requires c <= 0xFFFF
  {
    (c >> 12) | 0xE0
  }

  function Lead4(c: bv32): Byte { ((c >> 18) & 0x07) | 0xF0 }

  /** The byte that carries the low six bits of `c`. */
  function Trail(c: bv32): Byte { (c & 0x3F) | 0x80 }

  function EncodePoint(c: bv32): seq<Byte> {
    if c <= 0x7F then [c]
    else if c <= 0x7FF then [Lead2(c), Trail(c)]
    else if c <= 0xFFFF then [Lead3(c), Trail(c >> 6), Trail(c)]
    else if c <= 0x1FFFFF then [Lead4(c), Trail(c >> 12), Trail(c >> 6), Trail(c)]
    else []
  }

  function Encode(s: seq<CodeUnit>): seq<Byte> {
    if s == [] then [] else EncodePoint(First(s).0) + Encode(First(s).1)
  }

  method PushPoint(encoded: seq<Byte>, codePoint: bv32) returns (r: seq<Byte>)
    ensures r == encoded + EncodePoint(codePoint)
  {
    if codePoint <= 0x7F {
      r := encoded + [codePoint];
    } else if codePoint <= 0x7FF {
      r := encoded + [Lead2(codePoint), Trail(codePoint)];
    } else if codePoint <= 0xFFFF {
      r := encoded + [Lead3(codePoint), Trail(codePoint >> 6), Trail(codePoint)];
    } else if codePoint <= 0x1FFFFF {
      r := encoded + [Lead4(codePoint), Trail(codePoint >> 12), Trail(codePoint >> 6), Trail(codePoint)];
    } else {
      r := encoded;
    }
  }

  lemma EncodeFirst(s: seq<CodeUnit>)
    requires s != []
    ensures Encode(s) == EncodePoint(First(s).0) + Encode(First(s).1)
  {
  }

  method Utf8Encode(str: seq<CodeUnit>) returns (encoded: seq<Byte>)
    ensures encoded == Encode(str)
  {
    hide Encode, EncodePoint;
    encoded := [];
    var index := 0;
    assert str[0..] == str;
    while index < |str|
      invariant 0 <= index <= |str|
      invariant encoded + Encode(str[index..]) == Encode(str)
    {
      ghost var before, rest := encoded, str[index..];
      var codePoint: bv32 := str[index];
      if 0xD800 <= codePoint <= 0xDBFF && |str| > index + 1 {
        var low := str[index + 1];
        if 0xDC00 <= low <= 0xDFFF {
          index := index + 1;
          codePoint := ((codePoint - 0xD800) << 10) + low - 0xDC00 + 0x10000;
        }
      }
      encoded := PushPoint(encoded, codePoint);
      index := index + 1;
      assert First(rest) == (codePoint, str[index..]);
      EncodeFirst(rest);
      Regroup(before, EncodePoint(codePoint), Encode(str[index..]));
    }
    assert str[index..] == [];
    EncodeNothing();
  }

  lemma EncodeNothing()
    ensures Encode([]) == []
  {
  }

  lemma Regroup(a: seq<Byte>, b: seq<Byte>, c: seq<Byte>)
    ensures (a + b) + c == a + (b + c)
  {
  }

  // ---------- The encoding of section 3 of RFC 3629 ----------

  /** The octets of a character number, by the table of section 3 of RFC 3629. */
  function Octets(c: bv32): seq<bv32> {
    if c < 0x80 then [c]
    else if c < 0x800 then [0xC0 + c / 0x40, 0x80 + c % 0x40]
    else if c < 0x10000 then [0xE0 + c / 0x1000, 0x80 + c / 0x40 % 0x40, 0x80 + c % 0x40]
    else [0xF0 + c / 0x40000, 0x80 + c / 0x1000 % 0x40, 0x80 + c / 0x40 % 0x40, 0x80 + c % 0x40]
  }

  lemma PointIsOctets(c: bv32)
    requires c <= 0x10FFFF
    ensures EncodePoint(c) == Octets(c)
  {
    TrailIsRemainder(c);
    if c > 0x7FF { TrailIsRemainder(c >> 6); }
    if c > 0xFFFF { TrailIsRemainder(c >> 12); }
    ShiftIsDivision(c);
  }

  lemma TrailIsRemainder(c: bv32)
    ensures Trail(c) == 0x80 + c % 0x40
  {
  }

  lemma ShiftIsDivision(c: bv32)
    requires c <= 0x10FFFF
    ensures c >> 6 == c / 0x40 && c >> 12 == c / 0x1000
    ensures c <= 0x7FF ==> Lead2(c) == 0xC0 + c / 0x40
    ensures c <= 0xFFFF ==> Lead3(c) == 0xE0 + c / 0x1000
    ensures Lead4(c) == 0xF0 + c / 0x40000
  {
  }

  /** The value of a pair by section 2.2 of RFC 2781: ten low bits of each unit, plus 0x10000. */
  function PairValue(w1: CodeUnit, w2: CodeUnit): bv32 {
    (((w1 & 0x3FF) << 10) | (w2 & 0x3FF)) + 0x10000
  }

  lemma CombineIsPairValue(w1: CodeUnit, w2: CodeUnit)
    requires IsHigh(w1) && IsLow(w2)
    ensures Combine(w1, w2) == PairValue(w1, w2)
    ensures 0x10000 <= Combine(w1, w2) <= 0x10FFFF
  {
  }

  /** The character numbers of a string; a surrogate without partner counts as one. */
  function Characters(s: seq<CodeUnit>): seq<bv32> {
    if s == [] then []
    else if StartsPair(s) then [PairValue(s[0], s[1])] + Characters(s[2..])
    else [s[0]] + Characters(s[1..])
  }

  function AllOctets(cs: seq<bv32>): seq<bv32> {
    if cs == [] then [] else Octets(cs[0]) + AllOctets(cs[1..])
  }

  lemma FirstBound(s: seq<CodeUnit>)
    requires s != []
    ensures First(s).0 <= 0x10FFFF
  {
    if StartsPair(s) { CombineIsPairValue(s[0], s[1]); }
  }

  /** The output is the octets of the characters, in order. */
  lemma {:induction false} EncodesCharacters(s: seq<CodeUnit>)
    ensures Encode(s) == AllOctets(Characters(s))
  {
    if s != [] {
      FirstBound(s);
      PointIsOctets(First(s).0);
      if StartsPair(s) { CombineIsPairValue(s[0], s[1]); }
      EncodesCharacters(First(s).1);
    }
  }

  /** Every surrogate is part of a pair. */
  predicate WellFormed(s: seq<CodeUnit>) {
    s == [] ||
    (if StartsPair(s) then WellFormed(s[2..]) else !IsHigh(s[0]) && !IsLow(s[0]) && WellFormed(s[1..]))
  }

  predicate IsScalar(c: bv32) {
    c <= 0x10FFFF && !(0xD800 <= c <= 0xDFFF)
  }

  /** The output is legal UTF-8, which excludes surrogates, exactly for well-formed input. */
  lemma {:induction false} ScalarsIffWellFormed(s: seq<CodeUnit>)
    ensures WellFormed(s) <==> forall c :: c in Characters(s) ==> IsScalar(c)
  {
    if s != [] {
      var cs, rest := Characters(s), First(s).1;
      ScalarsIffWellFormed(rest);
      if StartsPair(s) { CombineIsPairValue(s[0], s[1]); }
      assert cs == [cs[0]] + Characters(rest);
      assert forall c :: c in cs <==> c == cs[0] || c in Characters(rest);
      assert cs[0] in cs;
      assert IsScalar(cs[0]) <==> StartsPair(s) || (!IsHigh(s[0]) && !IsLow(s[0]));
      assert !StartsPair(s) ==> rest == s[1..];
    }
  }

  // ---------- Decoding ----------

  /** The number of bytes that a leading byte announces. */
  function Width(lead: Byte): nat {
    if lead < 0x80 then 1 else if lead < 0xE0 then 2 else if lead < 0xF0 then 3 else 4
  }

  function Value2(a: bv32, b: bv32): bv32 { (a - 0xC0) * 0x40 + (b - 0x80) }

  function Value3(a: bv32, b: bv32, c: bv32): bv32 {
    (a - 0xE0) * 0x1000 + (b - 0x80) * 0x40 + (c - 0x80)
  }

  function Value4(a: bv32, b: bv32, c: bv32, d: bv32): bv32 {
    (a - 0xF0) * 0x40000 + (b - 0x80) * 0x1000 + (c - 0x80) * 0x40 + (d - 0x80)
  }

  function DecodePoint(b: seq<Byte>): bv32
    requires 1 <= |b| <= 4
  {
    if |b| == 1 then b[0]
    else if |b| == 2 then Value2(b[0], b[1])
    else if |b| == 3 then Value3(b[0], b[1], b[2])
    else Value4(b[0], b[1], b[2], b[3])
  }

  function Units(c: bv32): seq<CodeUnit> {
    if c <= 0xFFFF then [c]
    else [(((c - 0x10000) >> 10) & 0x3FF) + 0xD800, ((c - 0x10000) & 0x3FF) + 0xDC00]
  }

  function Decode(b: seq<Byte>): seq<CodeUnit> {
    if b == [] || |b| < Width(b[0]) then []
    else Units(DecodePoint(b[..Width(b[0])])) + Decode(b[Width(b[0])..])
  }

  lemma LeadWidths(c: bv32)
    requires c <= 0x10FFFF
    ensures 0xC0 <= Lead2(c) < 0xE0
    ensures c <= 0xFFFF ==> 0xE0 <= Lead3(c) < 0xF0
    ensures 0xF0 <= Lead4(c)
  {
  }

  lemma TwoBytes(c: bv32)
    requires c <= 0x7FF
    ensures Value2(Lead2(c), Trail(c)) == c
  {
  }

  lemma ThreeBytes(c: bv32)
    requires c <= 0xFFFF
    ensures Value3(Lead3(c), Trail(c >> 6), Trail(c)) == c
  {
  }

  lemma FourBytes(c: bv32)
    requires c <= 0x10FFFF
    ensures Value4(Lead4(c), Trail(c >> 12), Trail(c >> 6), Trail(c)) == c
  {
  }

  predicate DecodesTo(b: seq<Byte>, c: bv32) {
    1 <= |b| <= 4 && |b| == Width(b[0]) && DecodePoint(b) == c
  }

  lemma DecodeTwo(l: Byte, t: Byte)
    requires 0xC0 <= l < 0xE0
    ensures DecodesTo([l, t], Value2(l, t))
  {
  }

  lemma DecodeThree(l: Byte, t: Byte, u: Byte)
    requires 0xE0 <= l < 0xF0
    ensures DecodesTo([l, t, u], Value3(l, t, u))
  {
  }

  lemma DecodeFour(l: Byte, t: Byte, u: Byte, v: Byte)
    requires 0xF0 <= l
    ensures DecodesTo([l, t, u, v], Value4(l, t, u, v))
  {
  }

  lemma {:induction false} PointRoundTrip(c: bv32)
    requires c <= 0x10FFFF
    ensures DecodesTo(EncodePoint(c), c)
  {
    if c > 0x7F {
      LeadWidths(c);
      if c <= 0x7FF {
        TwoBytes(c);
        DecodeTwo(Lead2(c), Trail(c));
      } else if c <= 0xFFFF {
        ThreeBytes(c);
        DecodeThree(Lead3(c), Trail(c >> 6), Trail(c));
      } else {
        FourBytes(c);
        DecodeFour(Lead4(c), Trail(c >> 12), Trail(c >> 6), Trail(c));
      }
    }
  }

  lemma PairRoundTrip(h: CodeUnit, l: CodeUnit)
    requires IsHigh(h) && IsLow(l)
    ensures (((Combine(h, l) - 0x10000) >> 10) & 0x3FF) + 0xD800 == h
    ensures ((Combine(h, l) - 0x10000) & 0x3FF) + 0xDC00 == l
  {
  }

  lemma PairIsLarge(h: CodeUnit, l: CodeUnit)
    requires IsHigh(h) && IsLow(l)
    ensures Combine(h, l) > 0xFFFF
  {
    CombineIsPairValue(h, l);
  }

  lemma UnitsOfPair(h: CodeUnit, l: CodeUnit)
    requires IsHigh(h) && IsLow(l)
    ensures Units(Combine(h, l)) == [h, l]
  {
    hide Combine;
    PairIsLarge(h, l);
    PairRoundTrip(h, l);
  }

  lemma {:induction false} UnitsRoundTrip(s: seq<CodeUnit>)
    requires s != []
    ensures Units(First(s).0) + First(s).1 == s
  {
    if StartsPair(s) {
      UnitsOfPair(s[0], s[1]);
      assert s == [s[0], s[1]] + s[2..];
    } else {
      assert s == [s[0]] + s[1..];
    }
  }

  /** No string is lost: decoding the output gives back the input, lone surrogates included. */
  lemma {:induction false} RoundTrip(s: seq<CodeUnit>)
    ensures Decode(Encode(s)) == s
  {
    if s != [] {
      FirstBound(s);
      var b, rest := EncodePoint(First(s).0), Encode(First(s).1);
      PointRoundTrip(First(s).0);
      UnitsRoundTrip(s);
      RoundTrip(First(s).1);
      assert (b + rest)[..|b|] == b && (b + rest)[|b|..] == rest;
    }
  }

  lemma {:induction false} EncodeLength(s: seq<CodeUnit>)
    ensures |s| <= |Encode(s)| <= 3 * |s|
  {
    if s != [] {
      FirstBound(s);
      if StartsPair(s) { CombineIsPairValue(s[0], s[1]); }
      EncodeLength(First(s).1);
    }
  }

  // ---------- Concatenation ----------

  predicate SplitsPair(a: seq<CodeUnit>, b: seq<CodeUnit>) {
    a != [] && b != [] && IsHigh(a[|a| - 1]) && IsLow(b[0])
  }

  lemma {:induction false} EncodeAppend(a: seq<CodeUnit>, b: seq<CodeUnit>)
    requires !SplitsPair(a, b)
    ensures Encode(a + b) == Encode(a) + Encode(b)
    decreases |a|
  {
    if a == [] {
      assert a + b == b;
    } else {
      hide EncodePoint, Encode, Combine;
      var a' := First(a).1;
      FirstOfAppend(a, b);
      EncodeAppend(a', b);
      EncodeFirst(a);
      EncodeFirst(a + b);
      Regroup(EncodePoint(First(a).0), Encode(a'), Encode(b));
    }
  }

  lemma FirstOfAppend(a: seq<CodeUnit>, b: seq<CodeUnit>)
    requires a != [] && !SplitsPair(a, b)
    ensures !SplitsPair(First(a).1, b)
    ensures First(a + b).0 == First(a).0 && First(a + b).1 == First(a).1 + b
  {
    hide Combine;
    if StartsPair(a) {
      assert (a + b)[2..] == a[2..] + b;
    } else {
      assert (a + b)[1..] == a[1..] + b;
    }
  }

  /** The encoding of a concatenation is the concatenation exactly when no pair is cut. */
  lemma AppendIffNoPairCut(a: seq<CodeUnit>, b: seq<CodeUnit>)
    ensures Encode(a + b) == Encode(a) + Encode(b) <==> !SplitsPair(a, b)
  {
    if SplitsPair(a, b) {
      var init, tail := a[..|a| - 1], b[1..];
      assert a == init + [a[|a| - 1]] && b == [b[0]] + tail;
      CutPair(init, a[|a| - 1], b[0], tail);
    } else {
      EncodeAppend(a, b);
    }
  }

  lemma EncodeMiddle(a: seq<CodeUnit>, m: seq<CodeUnit>, b: seq<CodeUnit>)
    requires m != [] && !SplitsPair(a, m) && !SplitsPair(m, b)
    ensures |Encode(a + (m + b))| == |Encode(a)| + |Encode(m)| + |Encode(b)|
  {
    EncodeAppend(m, b);
    EncodeAppend(a, m + b);
  }

  lemma WholePair(init: seq<CodeUnit>, h: CodeUnit, l: CodeUnit, tail: seq<CodeUnit>)
    requires IsHigh(h) && IsLow(l)
    ensures |Encode((init + [h]) + ([l] + tail))| == |Encode(init)| + 4 + |Encode(tail)|
  {
    EncodeMiddle(init, [h, l], tail);
    assert (init + [h]) + ([l] + tail) == init + ([h, l] + tail);
    SurrogateLengths(h, l);
  }

  lemma {:induction false} Halves(init: seq<CodeUnit>, h: CodeUnit, l: CodeUnit, tail: seq<CodeUnit>)
    requires IsHigh(h) && IsLow(l)
    ensures |Encode(init + [h]) + Encode([l] + tail)| == |Encode(init)| + 6 + |Encode(tail)|
  {
    EncodeAppend(init, [h]);
    EncodeAppend([l], tail);
    SurrogateLengths(h, l);
  }

  lemma CutPair(init: seq<CodeUnit>, h: CodeUnit, l: CodeUnit, tail: seq<CodeUnit>)
    requires IsHigh(h) && IsLow(l)
    ensures Encode((init + [h]) + ([l] + tail)) != Encode(init + [h]) + Encode([l] + tail)
  {
    WholePair(init, h, l, tail);
    Halves(init, h, l, tail);
  }

  lemma SurrogateLengths(h: CodeUnit, l: CodeUnit)
    requires IsHigh(h) && IsLow(l)
    ensures |Encode([h])| == 3 && |Encode([l])| == 3 && |Encode([h, l])| == 4
  {
    CombineIsPairValue(h, l);
    assert First([h]) == (h, []) && First([l]) == (l, []);
    assert First([h, l]) == (Combine(h, l), []);
  }
}
