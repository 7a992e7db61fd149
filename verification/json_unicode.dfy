/**
 String content told in characters: a decoder for section 3 of RFC 3629 and the
 characters of section 7 of RFC 8259 by their code points, both written down
 without the automaton or its grammar, and shown to be what those decode.
 */
module JsonUnicode {
  import opened Common
  import opened JsonString

  predicate Surrogate(v: nat) { 0xd800 <= v < 0xe000 }

  /** The Unicode scalar values. */
  predicate ScalarValue(v: nat) { v < 0x110000 && !Surrogate(v) }

  /** Six payload bits. */
  predicate Trails(b: byte) { b as nat / 0x40 == 2 }

  /** The first code point of a byte sequence and what follows it; overlong forms,
      surrogates and values beyond U+10FFFF are refused. */
  function CodePoint(b: Bytes): Option<(nat, Bytes)> {
    if b == [] then None
    else if b[0] < 0x80 then Some((b[0] as nat, b[1..]))
    else if b[0] < 0xc0 then None
    else if b[0] < 0xe0 then
      if |b| < 2 || !Trails(b[1]) then None
      else
        var v := (b[0] as nat - 0xc0) * 0x40 + (b[1] as nat - 0x80);
        if v < 0x80 then None else Some((v, b[2..]))
    else if b[0] < 0xf0 then
      if |b| < 3 || !Trails(b[1]) || !Trails(b[2]) then None
      else
        var v := (b[0] as nat - 0xe0) * 0x1000 + (b[1] as nat - 0x80) * 0x40 + (b[2] as nat - 0x80);
        if v < 0x800 || Surrogate(v) then None else Some((v, b[3..]))
    else if b[0] < 0xf8 then
      if |b| < 4 || !Trails(b[1]) || !Trails(b[2]) || !Trails(b[3]) then None
      else
        var v := (b[0] as nat - 0xf0) * 0x4_0000 + (b[1] as nat - 0x80) * 0x1000
                 + (b[2] as nat - 0x80) * 0x40 + (b[3] as nat - 0x80);
        if v < 0x1_0000 || v >= 0x110000 then None else Some((v, b[4..]))
    else None
  }

  /** All code points of a byte sequence. */
  function CodePoints(b: Bytes): Option<seq<nat>>
    decreases |b|
  {
    if b == [] then Some([])
    else
      match CodePoint(b)
      case None => None
      case Some((v, rest)) =>
        match CodePoints(rest)
        case None => None
        case Some(vs) => Some([v] + vs)
  }

  /** Encodings from their groups of six payload bits. */
  lemma ScalarOfTwo(a: nat, b: nat)
    requires 2 <= a < 0x20 && b < 0x40
    ensures Scalar(a * 0x40 + b) == [(0xc0 + a) as byte, (0x80 + b) as byte]
  {
  }

  lemma ScalarOfThree(a: nat, b: nat, c: nat)
    requires a < 0x10 && b < 0x40 && c < 0x40 && a * 0x1000 + b * 0x40 + c >= 0x800
    ensures Scalar(a * 0x1000 + b * 0x40 + c) == [(0xe0 + a) as byte, (0x80 + b) as byte, (0x80 + c) as byte]
  {
    var v := a * 0x1000 + b * 0x40 + c;
    assert v / 0x40 == a * 0x40 + b;
  }

  lemma ScalarOfFour(a: nat, b: nat, c: nat, d: nat)
    requires b < 0x40 && c < 0x40 && d < 0x40
    requires 0x1_0000 <= a * 0x4_0000 + b * 0x1000 + c * 0x40 + d < 0x11_0000
    ensures a < 8
    ensures Scalar(a * 0x4_0000 + b * 0x1000 + c * 0x40 + d)
         == [(0xf0 + a) as byte, (0x80 + b) as byte, (0x80 + c) as byte, (0x80 + d) as byte]
  {
    var v := a * 0x4_0000 + b * 0x1000 + c * 0x40 + d;
    assert v / 0x40 == a * 0x1000 + b * 0x40 + c;
    assert v / 0x1000 == a * 0x40 + b;
  }

  lemma ReadOfTwo(a: nat, b: nat, rest: Bytes)
    requires 2 <= a < 0x20 && b < 0x40
    ensures CodePoint([(0xc0 + a) as byte, (0x80 + b) as byte] + rest) == Some((a * 0x40 + b, rest))
  {
  }

  lemma ReadOfThree(a: nat, b: nat, c: nat, rest: Bytes)
    requires a < 0x10 && b < 0x40 && c < 0x40 && a * 0x1000 + b * 0x40 + c >= 0x800
    requires !Surrogate(a * 0x1000 + b * 0x40 + c)
    ensures CodePoint([(0xe0 + a) as byte, (0x80 + b) as byte, (0x80 + c) as byte] + rest)
         == Some((a * 0x1000 + b * 0x40 + c, rest))
  {
  }

  lemma ReadOfFour(a: nat, b: nat, c: nat, d: nat, rest: Bytes)
    requires a < 8 && b < 0x40 && c < 0x40 && d < 0x40
    requires 0x1_0000 <= a * 0x4_0000 + b * 0x1000 + c * 0x40 + d < 0x11_0000
    ensures CodePoint([(0xf0 + a) as byte, (0x80 + b) as byte, (0x80 + c) as byte, (0x80 + d) as byte] + rest)
         == Some((a * 0x4_0000 + b * 0x1000 + c * 0x40 + d, rest))
  {
  }

  lemma ThreeIsRead(v: nat, rest: Bytes)
    requires 0x800 <= v < 0x1_0000 && !Surrogate(v)
    ensures CodePoint(Scalar(v) + rest) == Some((v, rest))
  {
    hide Scalar, CodePoint;
    var a, b, c := v / 0x1000, v / 0x40 % 0x40, v % 0x40;
    assert v / 0x40 == a * 0x40 + b;
    ScalarOfThree(a, b, c);
    ReadOfThree(a, b, c, rest);
  }

  lemma FourIsRead(v: nat, rest: Bytes)
    requires 0x1_0000 <= v < 0x11_0000
    ensures CodePoint(Scalar(v) + rest) == Some((v, rest))
  {
    hide Scalar, CodePoint;
    var a, b, c, d := v / 0x4_0000, v / 0x1000 % 0x40, v / 0x40 % 0x40, v % 0x40;
    assert v / 0x1000 == a * 0x40 + b;
    assert v / 0x40 == v / 0x1000 * 0x40 + c;
    ScalarOfFour(a, b, c, d);
    ReadOfFour(a, b, c, d, rest);
  }

  /** The encoder is inverted by the decoder on every scalar value. */
  lemma ScalarIsRead(v: nat, rest: Bytes)
    requires ScalarValue(v)
    ensures CodePoint(Scalar(v) + rest) == Some((v, rest))
  {
    if v < 0x80 {
      assert ([v as byte] + rest)[1..] == rest;
    } else if v < 0x800 {
      hide Scalar, CodePoint;
      ScalarOfTwo(v / 0x40, v % 0x40);
      ReadOfTwo(v / 0x40, v % 0x40, rest);
    } else if v < 0x1_0000 {
      ThreeIsRead(v, rest);
    } else {
      FourIsRead(v, rest);
    }
  }

  /** Nothing else is decoded: there is one encoding of each scalar value, the shortest. */
  lemma ReadIsScalar(b: Bytes)
    requires CodePoint(b).Some?
    ensures var (v, rest) := CodePoint(b).value;
            && ScalarValue(v) && b == Scalar(v) + rest
            && |Scalar(v)| == if v < 0x80 then 1 else if v < 0x800 then 2 else if v < 0x1_0000 then 3 else 4
  {
    if b[0] < 0x80 {
      assert b == [b[0]] + b[1..];
    } else if b[0] < 0xe0 {
      ScalarOfTwo(b[0] as nat - 0xc0, b[1] as nat - 0x80);
      hide Scalar;
      assert b == [b[0], b[1]] + b[2..];
    } else if b[0] < 0xf0 {
      ScalarOfThree(b[0] as nat - 0xe0, b[1] as nat - 0x80, b[2] as nat - 0x80);
      hide Scalar;
      assert b == [b[0], b[1], b[2]] + b[3..];
    } else {
      ScalarOfFour(b[0] as nat - 0xf0, b[1] as nat - 0x80, b[2] as nat - 0x80, b[3] as nat - 0x80);
      hide Scalar;
      assert b == [b[0], b[1], b[2], b[3]] + b[4..];
    }
  }

  /** The table of section 4 of RFC 3629 holds exactly the longer encodings. */
  lemma TableIsDecoder(b: Bytes)
    ensures WellFormed(b) <==> |b| > 1 && CodePoint(b).Some? && CodePoint(b).value.1 == []
  {
  }

  // ------------------------------------------------------- characters

  const LowerDigits := "0123456789abcdef"
  const UpperDigits := "0123456789ABCDEF"

  predicate Digit(b: byte, d: nat) {
    d < 16 && (b as int == LowerDigits[d] as int || b as int == UpperDigits[d] as int)
  }

  /** Four hex digits of value `v`. */
  ghost predicate Hexadecimal(h: Bytes, v: nat) {
    |h| == 4 && exists a: nat, b: nat, c: nat, d: nat ::
      && Digit(h[0], a) && Digit(h[1], b) && Digit(h[2], c) && Digit(h[3], d)
      && v == a * 0x1000 + b * 0x100 + c * 0x10 + d
  }

  /** Quotation mark, reverse solidus, solidus, backspace, form feed, line feed,
      carriage return and tab. */
  const ShortForms := "\"\\/bfnrt"
  const ShortPoints := [0x22, 0x5c, 0x2f, 0x08, 0x0c, 0x0a, 0x0d, 0x09]

  ghost predicate ShortFor(c: byte, v: nat) {
    exists i :: 0 <= i < 8 && c as int == ShortForms[i] as int && v == ShortPoints[i]
  }

  /** `raw` begins with these characters. */
  predicate Starts(raw: Bytes, text: string) {
    |text| <= |raw| && forall i :: 0 <= i < |text| ==> raw[i] as int == text[i] as int
  }

  predicate PlainCharacter(raw: Bytes, v: nat) {
    |raw| == 1 && raw[0] as nat == v && 0x20 <= v < 0x80 && v != '\"' as nat && v != '\\' as nat
  }

  predicate EncodedCharacter(raw: Bytes, v: nat) {
    |raw| > 1 && CodePoint(raw) == Some((v, []))
  }

  ghost predicate ShortCharacter(raw: Bytes, v: nat) {
    |raw| == 2 && Starts(raw, "\\") && ShortFor(raw[1], v)
  }

  ghost predicate CodeCharacter(raw: Bytes, v: nat) {
    |raw| == 6 && Starts(raw, "\\u") && Hexadecimal(raw[2..], v) && !Surrogate(v)
  }

  /** The two code units of UTF-16. */
  function HighUnit(v: nat): nat
    requires v >= 0x1_0000
  {
    0xd800 + (v - 0x1_0000) / 0x400
  }

  function LowUnit(v: nat): nat
    requires v >= 0x1_0000
  {
    0xdc00 + (v - 0x1_0000) % 0x400
  }

  ghost predicate PairCharacter(raw: Bytes, v: nat) {
    && |raw| == 12 && 0x1_0000 <= v < 0x11_0000
    && Starts(raw, "\\u") && Hexadecimal(raw[2..6], HighUnit(v))
    && Starts(raw[6..], "\\u") && Hexadecimal(raw[8..], LowUnit(v))
  }

  /** `raw` writes the character of code point `v` inside a string. */
  ghost predicate Character(raw: Bytes, v: nat) {
    || PlainCharacter(raw, v) || EncodedCharacter(raw, v) || ShortCharacter(raw, v)
    || CodeCharacter(raw, v) || PairCharacter(raw, v)
  }

  /** A surrogate pair is the UTF-16 form of the code point it decodes to. */
  lemma PairIsUtf16(high: nat, low: nat)
    requires HighSurrogate(high) && LowSurrogate(low)
    ensures var v := PairValue(high, low);
            && 0x1_0000 <= v < 0x11_0000
            && HighUnit(v) == high && LowUnit(v) == low
  {
  }

  /** The eight short escapes stand for the characters section 7 names, and no others exist. */
  lemma ShortIsNamed(c: byte, v: nat)
    ensures ShortFor(c, v) <==> ShortEscape(c).Some? && ShortEscape(c).value as nat == v
  {
    if ShortEscape(c).Some? && ShortEscape(c).value as nat == v {
      var i := if c == 0x22 then 0 else if c == 0x5c then 1 else if c == 0x2f then 2 else if c == 0x62 then 3
               else if c == 0x66 then 4 else if c == 0x6e then 5 else if c == 0x72 then 6 else 7;
      assert c as int == ShortForms[i] as int && v == ShortPoints[i];
    }
  }

  lemma DigitByPosition(b: byte, d: nat)
    ensures Digit(b, d) <==> IsHex(b) && HexDigit(b) == d
  {
  }

  /** The value of four digits is positional. */
  lemma HexIsPositional(h: Bytes, v: nat)
    ensures Hexadecimal(h, v) <==> |h| == 4 && AllHex(h) && HexValue(h) == v
  {
    hide Digit, HexDigit;
    if Hexadecimal(h, v) {
      var a: nat, b: nat, c: nat, d: nat :|
        && Digit(h[0], a) && Digit(h[1], b) && Digit(h[2], c) && Digit(h[3], d)
        && v == a * 0x1000 + b * 0x100 + c * 0x10 + d;
      DigitByPosition(h[0], a);
      DigitByPosition(h[1], b);
      DigitByPosition(h[2], c);
      DigitByPosition(h[3], d);
      HexValueFour(h);
    }
    if |h| == 4 && AllHex(h) && HexValue(h) == v {
      HexValueFour(h);
      DigitByPosition(h[0], HexDigit(h[0]));
      DigitByPosition(h[1], HexDigit(h[1]));
      DigitByPosition(h[2], HexDigit(h[2]));
      DigitByPosition(h[3], HexDigit(h[3]));
    }
  }

  // ------------------------------------------------------- both grammars agree

  lemma PairParts(h: Bytes, l: Bytes)
    requires |h| == 4 && |l| == 4
    ensures var raw := [0x5c, 0x75] + h + [0x5c, 0x75] + l;
            && |raw| == 12 && Starts(raw, "\\u") && Starts(raw[6..], "\\u")
            && raw[2..6] == h && raw[8..] == l
  {
    var raw := [0x5c, 0x75] + h + [0x5c, 0x75] + l;
    assert raw[6] == raw[6..][0] && raw[7] == raw[6..][1];
    assert raw[8..] == l;
  }

  lemma PairIsCharacter(h: Bytes, l: Bytes)
    requires ValidUnit(Pair(h, l))
    ensures Character(Written(Pair(h, l)), PairValue(HexValue(h), HexValue(l)))
  {
    HexIsPositional(h, HexValue(h));
    HexIsPositional(l, HexValue(l));
    PairIsUtf16(HexValue(h), HexValue(l));
    PairParts(h, l);
    hide Hexadecimal, PairValue, HighUnit, LowUnit, HexValue, AllHex, Starts;
  }

  lemma CodeIsCharacter(h: Bytes)
    requires ValidUnit(Code(h))
    ensures HexValue(h) < 0x1_0000 && CodeCharacter(Written(Code(h)), HexValue(h)) && ScalarValue(HexValue(h))
  {
    HexValueFour(h);
    HexIsPositional(h, HexValue(h));
    hide Hexadecimal, HexValue, AllHex;
    assert Written(Code(h))[2..] == h;
  }

  /** A unit of the grammar is one character and decodes to its encoding. */
  lemma UnitIsCharacter(u: Unit) returns (v: nat)
    requires ValidUnit(u)
    ensures Character(Written(u), v) && ScalarValue(v) && Meaning(u) == Scalar(v)
  {
    hide CodeCharacter, PairCharacter, HexValue, PairValue;
    match u {
      case Ascii(b) => v := b as nat;
      case Multi(bytes) =>
        TableIsDecoder(bytes);
        ReadIsScalar(bytes);
        v := CodePoint(bytes).value.0;
        assert Scalar(v) + [] == Scalar(v);
      case Short(c) =>
        v := ShortEscape(c).value as nat;
        ShortIsNamed(c, v);
      case Code(h) =>
        CodeIsCharacter(h);
        v := HexValue(h);
      case Pair(h, l) =>
        PairIsCharacter(h, l);
        PairIsUtf16(HexValue(h), HexValue(l));
        v := PairValue(HexValue(h), HexValue(l));
    }
  }

  lemma Utf16IsPair(v: nat)
    requires 0x1_0000 <= v < 0x11_0000
    ensures HighSurrogate(HighUnit(v)) && LowSurrogate(LowUnit(v)) && PairValue(HighUnit(v), LowUnit(v)) == v
  {
  }

  lemma TwelveBytes(raw: Bytes)
    requires |raw| == 12 && Starts(raw, "\\u") && Starts(raw[6..], "\\u")
    ensures raw == [0x5c, 0x75] + raw[2..6] + [0x5c, 0x75] + raw[8..]
  {
    assert raw[6] == raw[6..][0] && raw[7] == raw[6..][1];
  }

  lemma PairFromCharacter(raw: Bytes, v: nat)
    requires PairCharacter(raw, v)
    ensures var u := Pair(raw[2..6], raw[8..]);
            ValidUnit(u) && Written(u) == raw && Meaning(u) == Scalar(v)
  {
    var h, l := raw[2..6], raw[8..];
    HexIsPositional(h, HighUnit(v));
    HexIsPositional(l, LowUnit(v));
    Utf16IsPair(v);
    TwelveBytes(raw);
    hide Hexadecimal, Scalar, PairValue, HighUnit, LowUnit, HighSurrogate, LowSurrogate, HexValue, AllHex, Starts;
  }

  lemma CodeFromCharacter(raw: Bytes, v: nat)
    requires CodeCharacter(raw, v)
    ensures var u := Code(raw[2..]);
            ValidUnit(u) && Written(u) == raw && ScalarValue(v) && Meaning(u) == Scalar(v)
  {
    hide Hexadecimal, Scalar;
    HexIsPositional(raw[2..], v);
    HexValueFour(raw[2..]);
    assert raw == [0x5c, 0x75] + raw[2..];
  }

  /** The unit that writes a character. */
  lemma CharacterIsUnit(raw: Bytes, v: nat) returns (u: Unit)
    requires Character(raw, v)
    ensures ValidUnit(u) && Written(u) == raw && ScalarValue(v) && Meaning(u) == Scalar(v)
  {
    hide PairCharacter, CodeCharacter, ShortFor;
    if PlainCharacter(raw, v) {
      u := Ascii(raw[0]);
    } else if EncodedCharacter(raw, v) {
      TableIsDecoder(raw);
      ReadIsScalar(raw);
      assert Scalar(v) + [] == Scalar(v);
      u := Multi(raw);
    } else if ShortCharacter(raw, v) {
      ShortIsNamed(raw[1], v);
      u := Short(raw[1]);
    } else if CodeCharacter(raw, v) {
      CodeFromCharacter(raw, v);
      u := Code(raw[2..]);
    } else {
      PairFromCharacter(raw, v);
      PairIsScalar(raw, v);
      u := Pair(raw[2..6], raw[8..]);
    }
  }

  lemma PairIsScalar(raw: Bytes, v: nat)
    requires PairCharacter(raw, v)
    ensures |raw| == 12 && ScalarValue(v)
  {
  }

  // ------------------------------------------------------- whole strings

  /** A character as written, and its code point. */
  datatype Char = Char(raw: Bytes, point: nat)

  ghost predicate AllCharacters(cs: seq<Char>) {
    forall i :: 0 <= i < |cs| ==> Character(cs[i].raw, cs[i].point)
  }

  function Raw(cs: seq<Char>): Bytes {
    if cs == [] then [] else Raw(cs[..|cs| - 1]) + cs[|cs| - 1].raw
  }

  function Points(cs: seq<Char>): (vs: seq<nat>) {
    if cs == [] then [] else Points(cs[..|cs| - 1]) + [cs[|cs| - 1].point]
  }

  lemma {:induction false} PointsPush(x: Bytes, v: nat)
    requires CodePoints(x).Some? && ScalarValue(v)
    ensures CodePoints(x + Scalar(v)) == Some(CodePoints(x).value + [v])
    decreases |x|
  {
    if x == [] {
      ScalarIsRead(v, []);
      assert x + Scalar(v) == Scalar(v) + [] == Scalar(v);
      assert [v] + [] == [v] == [] + [v];
    } else {
      ReadIsScalar(x);
      var (u, rest) := CodePoint(x).value;
      PointsPush(rest, v);
      assert x + Scalar(v) == Scalar(u) + (rest + Scalar(v));
      ScalarIsRead(u, rest + Scalar(v));
      var us := CodePoints(rest).value;
      assert [u] + (us + [v]) == [u] + us + [v];
    }
  }

  /** The code points determine the bytes. */
  lemma {:induction false} PointsInjective(x: Bytes, y: Bytes)
    requires CodePoints(x).Some? && CodePoints(x) == CodePoints(y)
    ensures x == y
    decreases |x|
  {
    if x != [] && y != [] {
      ReadIsScalar(x);
      ReadIsScalar(y);
      var (u, v) := (CodePoint(x).value, CodePoint(y).value);
      var us, vs := CodePoints(u.1).value, CodePoints(v.1).value;
      assert ([u.0] + us)[1..] == us && ([v.0] + vs)[1..] == vs;
      PointsInjective(u.1, v.1);
    }
  }

  lemma {:induction false} CharactersOf(ps: seq<Piece>) returns (cs: seq<Char>)
    requires AllUnits(ps)
    ensures AllCharacters(cs) && Raw(cs) == Total(ps).raw
    ensures CodePoints(Total(ps).decoded) == Some(Points(cs))
  {
    hide Character, CodePoint, Scalar;
    cs := [];
    if ps != [] {
      var front, p := ps[..|ps| - 1], ps[|ps| - 1];
      var fore := CharactersOf(front);
      assert IsUnit(p);
      var u :| Spells(u, p);
      var v := UnitIsCharacter(u);
      cs := fore + [Char(p.raw, v)];
      assert cs[..|fore|] == fore;
      hide CodePoints;
      PointsPush(Total(front).decoded, v);
    }
  }

  lemma {:induction false} UnitsOf(cs: seq<Char>) returns (ps: seq<Piece>)
    requires AllCharacters(cs)
    ensures AllUnits(ps) && Raw(cs) == Total(ps).raw
    ensures CodePoints(Total(ps).decoded) == Some(Points(cs))
  {
    hide Character, CodePoint, Scalar;
    ps := [];
    if cs != [] {
      var front, c := cs[..|cs| - 1], cs[|cs| - 1];
      var fore := UnitsOf(front);
      var u := CharacterIsUnit(c.raw, c.point);
      assert Spells(u, Piece(c.raw, Scalar(c.point)));
      hide CodePoints;
      TotalSnoc(fore, Piece(c.raw, Scalar(c.point)));
      ps := fore + [Piece(c.raw, Scalar(c.point))];
      PointsPush(Total(fore).decoded, c.point);
    }
  }

  /** `w` writes, and `x` encodes, the same characters one after the other. */
  ghost predicate SameCharacters(cs: seq<Char>, w: Bytes, x: Bytes) {
    AllCharacters(cs) && Raw(cs) == w && CodePoints(x) == Some(Points(cs))
  }

  /**
   The automaton stands at rest after `w`, having decoded `x`, exactly when `w` is a
   sequence of characters as section 7 writes them and `x` is the UTF-8 of their code points.
   */
  lemma StringsMeanCharacters(w: Bytes, x: Bytes)
    ensures (exists r :: Run(NewString, w) == Some((Rested(r), x))) <==> exists cs :: SameCharacters(cs, w, x)
  {
    StringsAreExact(w, x);
    if Decodes(w, x) {
      var ps :| AllUnits(ps) && Total(ps) == Piece(w, x);
      var cs := CharactersOf(ps);
      assert SameCharacters(cs, w, x);
    }
    if cs :| SameCharacters(cs, w, x) {
      var ps := UnitsOf(cs);
      PointsInjective(x, Total(ps).decoded);
      assert Total(ps) == Piece(w, x);
    }
  }
}
