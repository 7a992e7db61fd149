/**
 The incremental JSON string automaton against a grammar of string units:
 section 7 of RFC 8259 with paired surrogates, over the UTF-8 of RFC 3629.
 */
module JsonString {
  import opened Common

  // ------------------------------------------------------- the automaton

  /** Hex digits still expected, and the 16-bit value read so far. */
  type Count = n: nat | 1 <= n <= 4 witness 1
  type U16 = n: nat | n < 0x1_0000

  datatype Escape =
    | Plain
    | Start
    | Hex(value: U16, left: Count, high: U16)
    | Slash(high: U16)
    | Unicode(high: U16)

  /** Continuation bytes still expected, and the range of the next one. */
  datatype Utf8 = Utf8(left: nat, min: byte, max: byte)

  /** `removed` counts raw bytes that have no decoded counterpart. */
  datatype Str = Str(escape: Escape, utf8: Utf8, removed: int)

  const Settled := Utf8(0, 0x80, 0xbf)
  const NewString := Str(Plain, Settled, 0)

  predicate AtRest(s: Str) {
    s.escape == Plain && s.utf8.left == 0
  }

  predicate IsHex(b: byte) {
    0x30 <= b <= 0x39 || 0x41 <= b <= 0x46 || 0x61 <= b <= 0x66
  }

  function HexDigit(b: byte): (d: nat)
    requires IsHex(b)
    ensures d < 16
  {
    if b <= 0x39 then b as nat - 0x30 else if b <= 0x46 then b as nat - 0x37 else b as nat - 0x57
  }

  /** The branch-free form: low nibble plus nine for a letter. */
  lemma HexDigitBranchFree(b: byte)
    requires IsHex(b)
    ensures HexDigit(b) == b as nat % 16 + 9 * (b as nat / 64)
  {
  }

  /** `(value << 4) | digit` in sixteen bits. */
  function Shifted(value: U16, b: byte): U16
    requires IsHex(b)
  {
    (if value < 0x1000 then value else value % 0x1000) * 16 + HexDigit(b)
  }

  predicate HighSurrogate(v: nat) { 0xd800 <= v <= 0xdbff }
  predicate LowSurrogate(v: nat) { 0xdc00 <= v <= 0xdfff }

  /** The UTF-8 encoding of one scalar value. */
  function Scalar(v: nat): (b: Bytes)
    requires v < 0x110000
    ensures 1 <= |b| <= 4
  {
    if v < 0x80 then [v as byte]
    else if v < 0x800 then [(0xc0 + v / 0x40) as byte, (0x80 + v % 0x40) as byte]
    else if v < 0x1_0000 then
      [(0xe0 + v / 0x1000) as byte, (0x80 + v / 0x40 % 0x40) as byte, (0x80 + v % 0x40) as byte]
    else
      [(0xf0 + v / 0x4_0000) as byte, (0x80 + v / 0x1000 % 0x40) as byte,
       (0x80 + v / 0x40 % 0x40) as byte, (0x80 + v % 0x40) as byte]
  }

  function PairValue(high: nat, low: nat): (v: nat)
    ensures v < 0x110000
  {
    0x10000 + high % 0x400 * 0x400 + low % 0x400
  }

  /** What a first non-ASCII byte announces. */
  function Lead(b: byte): Option<Utf8> {
    if 0xc2 <= b <= 0xdf then Some(Utf8(1, 0x80, 0xbf))
    else if b == 0xe0 then Some(Utf8(2, 0xa0, 0xbf))
    else if 0xe1 <= b <= 0xec || 0xee <= b <= 0xef then Some(Utf8(2, 0x80, 0xbf))
    else if b == 0xed then Some(Utf8(2, 0x80, 0x9f))
    else if b == 0xf0 then Some(Utf8(3, 0x90, 0xbf))
    else if 0xf1 <= b <= 0xf3 then Some(Utf8(3, 0x80, 0xbf))
    else if b == 0xf4 then Some(Utf8(3, 0x80, 0x8f))
    else None
  }

  function ShortEscape(b: byte): Option<byte> {
    if b == 0x22 || b == 0x5c || b == 0x2f then Some(b)
    else if b == 0x62 then Some(0x08)
    else if b == 0x66 then Some(0x0c)
    else if b == 0x6e then Some(0x0a)
    else if b == 0x72 then Some(0x0d)
    else if b == 0x74 then Some(0x09)
    else None
  }

  datatype Stepped = Closed | Rejected | Content(next: Str, decoded: Bytes)

  function Emit(s: Str, escape: Escape, utf8: Utf8, decoded: Bytes): Stepped {
    Content(Str(escape, utf8, s.removed + 1 - |decoded|), decoded)
  }

  /** One byte of a string, after the opening quote. */
  function Step(s: Str, b: byte): Stepped {
    match s.escape
    case Plain => StepPlain(s, b)
    case Start => StepStart(s, b)
    case Hex(value, left, high) =>
      if !IsHex(b) then Rejected
      else if left != 1 then Emit(s, Hex(Shifted(value, b), left - 1, high), s.utf8, [])
      else StepLast(s, Shifted(value, b), high)
    case Slash(high) => if b == 0x5c then Emit(s, Unicode(high), s.utf8, []) else Rejected
    case Unicode(high) => if b == 0x75 then Emit(s, Hex(0, 4, high), s.utf8, []) else Rejected
  }

  function StepPlain(s: Str, b: byte): Stepped {
    if s.utf8.left != 0 then
      if s.utf8.min <= b <= s.utf8.max then Emit(s, Plain, Utf8(s.utf8.left - 1, 0x80, 0xbf), [b]) else Rejected
    else if b == 0x22 then Closed
    else if b == 0x5c then Emit(s, Start, s.utf8, [])
    else if b < 0x80 then if b >= 0x20 then Emit(s, Plain, s.utf8, [b]) else Rejected
    else
      match Lead(b)
      case Some(u) => Emit(s, Plain, u, [b])
      case None => Rejected
  }

  function StepStart(s: Str, b: byte): Stepped {
    if b == 0x75 then Emit(s, Hex(0, 4, 0), s.utf8, [])
    else
      match ShortEscape(b)
      case Some(c) => Emit(s, Plain, s.utf8, [c])
      case None => Rejected
  }

  /** The fourth digit has completed `v`. */
  function StepLast(s: Str, v: U16, high: U16): Stepped {
    if high != 0 then
      if LowSurrogate(v) then Emit(s, Plain, s.utf8, Scalar(PairValue(high, v))) else Rejected
    else if HighSurrogate(v) then Emit(s, Slash(v), s.utf8, [])
    else if LowSurrogate(v) then Rejected
    else Emit(s, Plain, s.utf8, Scalar(v))
  }

  /** Consuming all of `w` as string content, with the decoded bytes. */
  function Run(s: Str, w: Bytes): Option<(Str, Bytes)>
    decreases w
  {
    if w == [] then Some((s, []))
    else
      match Step(s, w[0])
      case Content(next, decoded) =>
        (match Run(next, w[1..])
         case Some((end, rest)) => Some((end, decoded + rest))
         case None => None)
      case _ => None
  }

  lemma {:induction false} RunAppend(s: Str, a: Bytes, b: Bytes)
    ensures var first := Run(s, a);
            && (first.None? ==> Run(s, a + b) == None)
            && (first.Some? ==>
                  var second := Run(first.value.0, b);
                  && (second.None? ==> Run(s, a + b) == None)
                  && (second.Some? ==> Run(s, a + b) == Some((second.value.0, first.value.1 + second.value.1))))
    decreases a
  {
    if a == [] {
      assert a + b == b;
      assert Run(s, b).Some? ==> [] + Run(s, b).value.1 == Run(s, b).value.1;
    } else {
      assert (a + b)[1..] == a[1..] + b && (a + b)[0] == a[0];
      match Step(s, a[0]) {
        case Content(next, decoded) =>
          RunAppend(next, a[1..], b);
          var mid := Run(next, a[1..]);
          if mid.Some? && Run(mid.value.0, b).Some? {
            var c, d := mid.value.1, Run(mid.value.0, b).value.1;
            assert decoded + (c + d) == decoded + c + d;
          }
        case _ =>
      }
    }
  }

  // ------------------------------------------------------- the grammar

  function HexValue(h: Bytes): (v: nat)
    requires forall i :: 0 <= i < |h| ==> IsHex(h[i])
  {
    if h == [] then 0 else 16 * HexValue(h[..|h| - 1]) + HexDigit(h[|h| - 1])
  }

  predicate AllHex(h: Bytes) {
    forall i :: 0 <= i < |h| ==> IsHex(h[i])
  }

  lemma HexValueFour(h: Bytes)
    requires |h| == 4 && AllHex(h)
    ensures HexValue(h) == ((HexDigit(h[0]) * 16 + HexDigit(h[1])) * 16 + HexDigit(h[2])) * 16 + HexDigit(h[3])
    ensures HexValue(h) < 0x1_0000
  {
    assert h[..3][..2][..1][..0] == [];
    assert HexValue(h[..3][..2][..1]) == HexDigit(h[0]);
    assert HexValue(h[..3][..2]) == HexDigit(h[0]) * 16 + HexDigit(h[1]);
    assert HexValue(h[..3]) == (HexDigit(h[0]) * 16 + HexDigit(h[1])) * 16 + HexDigit(h[2]);
  }

  predicate Tail(b: byte) { 0x80 <= b <= 0xbf }

  /** The multi-byte rows of section 4 of RFC 3629. */
  predicate WellFormed(b: Bytes) {
    || (|b| == 2 && 0xc2 <= b[0] <= 0xdf && Tail(b[1]))
    || (|b| == 3 && Tail(b[2]) &&
        (|| (b[0] == 0xe0 && 0xa0 <= b[1] <= 0xbf)
         || (0xe1 <= b[0] <= 0xec && Tail(b[1]))
         || (b[0] == 0xed && 0x80 <= b[1] <= 0x9f)
         || (0xee <= b[0] <= 0xef && Tail(b[1]))))
    || (|b| == 4 && Tail(b[2]) && Tail(b[3]) &&
        (|| (b[0] == 0xf0 && 0x90 <= b[1] <= 0xbf)
         || (0xf1 <= b[0] <= 0xf3 && Tail(b[1]))
         || (b[0] == 0xf4 && 0x80 <= b[1] <= 0x8f)))
  }

  /** One character of a string as written. */
  datatype Unit =
    | Ascii(b: byte)
    | Multi(bytes: Bytes)
    | Short(c: byte)
    | Code(hex: Bytes)
    | Pair(high: Bytes, low: Bytes)

  predicate ValidUnit(u: Unit) {
    match u
    case Ascii(b) => 0x20 <= b < 0x80 && b != 0x22 && b != 0x5c
    case Multi(bytes) => WellFormed(bytes)
    case Short(c) => ShortEscape(c).Some?
    case Code(h) => |h| == 4 && AllHex(h) && !HighSurrogate(HexValue(h)) && !LowSurrogate(HexValue(h))
    case Pair(h, l) =>
      && |h| == 4 && AllHex(h) && HighSurrogate(HexValue(h))
      && |l| == 4 && AllHex(l) && LowSurrogate(HexValue(l))
  }

  function Written(u: Unit): Bytes {
    match u
    case Ascii(b) => [b]
    case Multi(bytes) => bytes
    case Short(c) => [0x5c, c]
    case Code(h) => [0x5c, 0x75] + h
    case Pair(h, l) => [0x5c, 0x75] + h + [0x5c, 0x75] + l
  }

  /** The UTF-8 bytes a unit stands for. */
  function Meaning(u: Unit): Bytes
    requires ValidUnit(u)
  {
    match u
    case Ascii(b) => [b]
    case Multi(bytes) => bytes
    case Short(c) => [ShortEscape(c).value]
    case Code(h) => HexValueFour(h); Scalar(HexValue(h))
    case Pair(h, l) => Scalar(PairValue(HexValue(h), HexValue(l)))
  }

  /** Raw string content and the bytes it decodes to. */
  datatype Piece = Piece(raw: Bytes, decoded: Bytes)

  predicate Spells(u: Unit, p: Piece) {
    ValidUnit(u) && p == Piece(Written(u), Meaning(u))
  }

  ghost predicate IsUnit(p: Piece) {
    exists u :: Spells(u, p)
  }

  ghost predicate AllUnits(ps: seq<Piece>) {
    forall i :: 0 <= i < |ps| ==> IsUnit(ps[i])
  }

  function Total(ps: seq<Piece>): Piece {
    if ps == [] then Piece([], [])
    else
      var front, last := Total(ps[..|ps| - 1]), ps[|ps| - 1];
      Piece(front.raw + last.raw, front.decoded + last.decoded)
  }

  // ------------------------------------------------------- units are accepted

  lemma QuietStep(s: Str, b: byte, next: Str, w: Bytes, end: Str, decoded: Bytes)
    requires Step(s, b) == Content(next, []) && Run(next, w) == Some((end, decoded))
    ensures Run(s, [b] + w) == Some((end, decoded))
  {
    assert ([b] + w)[1..] == w;
    assert [] + decoded == decoded;
  }

  lemma LoudStep(s: Str, b: byte, end: Str, decoded: Bytes)
    requires Step(s, b) == Content(end, decoded)
    ensures Run(s, [b]) == Some((end, decoded))
  {
    assert [b][1..] == [] && decoded + [] == decoded;
  }

  lemma DigitStep(value: U16, left: Count, high: U16, r: int, b: byte)
    requires IsHex(b) && left > 1 && value < 0x1000
    ensures Step(Str(Hex(value, left, high), Settled, r), b)
         == Content(Str(Hex(value * 16 + HexDigit(b), left - 1, high), Settled, r + 1), [])
  {
  }

  /** Four hex digits, the last of which ends at `end`. */
  lemma DigitsRun(h: Bytes, high: U16, removed: int, end: Str, decoded: Bytes)
    requires |h| == 4 && AllHex(h)
    requires var v3 := (HexDigit(h[0]) * 16 + HexDigit(h[1])) * 16 + HexDigit(h[2]);
             Step(Str(Hex(v3, 1, high), Settled, removed + 3), h[3]) == Content(end, decoded)
    ensures Run(Str(Hex(0, 4, high), Settled, removed), h) == Some((end, decoded))
  {
    hide Scalar;
    var v1 := HexDigit(h[0]);
    var v2 := v1 * 16 + HexDigit(h[1]);
    var v3 := v2 * 16 + HexDigit(h[2]);
    DigitStep(0, 4, high, removed, h[0]);
    DigitStep(v1, 3, high, removed + 1, h[1]);
    DigitStep(v2, 2, high, removed + 2, h[2]);
    var s1, s2 := Str(Hex(v1, 3, high), Settled, removed + 1), Str(Hex(v2, 2, high), Settled, removed + 2);
    var s3 := Str(Hex(v3, 1, high), Settled, removed + 3);
    LoudStep(s3, h[3], end, decoded);
    QuietStep(s2, h[2], s3, [h[3]], end, decoded);
    QuietStep(s1, h[1], s2, [h[2]] + [h[3]], end, decoded);
    QuietStep(Str(Hex(0, 4, high), Settled, removed), h[0], s1, [h[1]] + ([h[2]] + [h[3]]), end, decoded);
    assert h == [h[0]] + ([h[1]] + ([h[2]] + [h[3]]));
  }

  function Rested(removed: int): Str {
    Str(Plain, Settled, removed)
  }

  lemma CodeRuns(h: Bytes, r: int)
    requires ValidUnit(Code(h))
    ensures Run(Rested(r), Written(Code(h))) == Some((Rested(r + 6 - |Meaning(Code(h))|), Meaning(Code(h))))
  {
    hide Scalar;
    HexValueFour(h);
    var end, out := Rested(r + 6 - |Meaning(Code(h))|), Meaning(Code(h));
    DigitsRun(h, 0, r + 2, end, out);
    QuietStep(Str(Start, Settled, r + 1), 0x75, Str(Hex(0, 4, 0), Settled, r + 2), h, end, out);
    QuietStep(Rested(r), 0x5c, Str(Start, Settled, r + 1), [0x75] + h, end, out);
    assert Written(Code(h)) == [0x5c] + ([0x75] + h);
  }

  lemma RunJoin(s: Str, a: Bytes, mid: Str, x: Bytes, b: Bytes, end: Str, y: Bytes)
    requires Run(s, a) == Some((mid, x)) && Run(mid, b) == Some((end, y))
    ensures Run(s, a + b) == Some((end, x + y))
  {
    RunAppend(s, a, b);
  }

  /** A high surrogate leaves the automaton waiting for its partner. */
  lemma HighRuns(h: Bytes, r: int)
    requires |h| == 4 && AllHex(h) && HighSurrogate(HexValue(h))
    ensures HexValue(h) < 0x1_0000
    ensures Run(Rested(r), [0x5c] + ([0x75] + h)) == Some((Str(Slash(HexValue(h)), Settled, r + 6), []))
  {
    HexValueFour(h);
    var end := Str(Slash(HexValue(h)), Settled, r + 6);
    DigitsRun(h, 0, r + 2, end, []);
    QuietStep(Str(Start, Settled, r + 1), 0x75, Str(Hex(0, 4, 0), Settled, r + 2), h, end, []);
    QuietStep(Rested(r), 0x5c, Str(Start, Settled, r + 1), [0x75] + h, end, []);
  }

  lemma LowRuns(high: U16, l: Bytes, r: int)
    requires |l| == 4 && AllHex(l) && LowSurrogate(HexValue(l)) && high != 0
    ensures var out := Scalar(PairValue(high, HexValue(l)));
            Run(Str(Slash(high), Settled, r + 6), [0x5c] + ([0x75] + l)) == Some((Rested(r + 12 - |out|), out))
  {
    hide Scalar;
    HexValueFour(l);
    var out := Scalar(PairValue(high, HexValue(l)));
    var end := Rested(r + 12 - |out|);
    DigitsRun(l, high, r + 8, end, out);
    QuietStep(Str(Unicode(high), Settled, r + 7), 0x75, Str(Hex(0, 4, high), Settled, r + 8), l, end, out);
    QuietStep(Str(Slash(high), Settled, r + 6), 0x5c, Str(Unicode(high), Settled, r + 7), [0x75] + l, end, out);
  }

  lemma HalvesJoin(a: Bytes, mid: Str, b: Bytes, r: int, out: Bytes)
    requires Run(Rested(r), a) == Some((mid, [])) && Run(mid, b) == Some((Rested(r + 12 - |out|), out))
    ensures Run(Rested(r), a + b) == Some((Rested(r + 12 - |out|), out))
  {
    RunJoin(Rested(r), a, mid, [], b, Rested(r + 12 - |out|), out);
    assert [] + out == out;
  }

  lemma PairRuns(h: Bytes, l: Bytes, r: int)
    requires ValidUnit(Pair(h, l))
    ensures Run(Rested(r), Written(Pair(h, l))) == Some((Rested(r + 12 - |Meaning(Pair(h, l))|), Meaning(Pair(h, l))))
  {
    hide Scalar;
    HighRuns(h, r);
    var out := Scalar(PairValue(HexValue(h), HexValue(l)));
    LowRuns(HexValue(h), l, r);
    HalvesJoin([0x5c] + ([0x75] + h), Str(Slash(HexValue(h)), Settled, r + 6), [0x5c] + ([0x75] + l), r, out);
    assert [0x5c, 0x75] + h + [0x5c, 0x75] + l == [0x5c] + ([0x75] + h) + ([0x5c] + ([0x75] + l));
  }

  lemma MultiRuns(b: Bytes, r: int)
    requires WellFormed(b)
    ensures Run(Rested(r), b) == Some((Rested(r), b))
  {
    var u := Lead(b[0]).value;
    var s1 := Str(Plain, u, r);
    LoudStep(Rested(r), b[0], s1, [b[0]]);
    var s2 := Str(Plain, Utf8(u.left - 1, 0x80, 0xbf), r);
    LoudStep(s1, b[1], s2, [b[1]]);
    RunAppend(Rested(r), [b[0]], [b[1]]);
    if |b| == 2 {
      assert b == [b[0]] + [b[1]];
    } else {
      var s3 := Str(Plain, Utf8(u.left - 2, 0x80, 0xbf), r);
      LoudStep(s2, b[2], s3, [b[2]]);
      RunAppend(Rested(r), [b[0]] + [b[1]], [b[2]]);
      if |b| == 3 {
        assert b == [b[0]] + [b[1]] + [b[2]];
      } else {
        LoudStep(s3, b[3], Rested(r), [b[3]]);
        RunAppend(Rested(r), [b[0]] + [b[1]] + [b[2]], [b[3]]);
        assert b == [b[0]] + [b[1]] + [b[2]] + [b[3]];
      }
    }
  }

  lemma UnitRuns(u: Unit, r: int)
    requires ValidUnit(u)
    ensures Run(Rested(r), Written(u)) == Some((Rested(r + |Written(u)| - |Meaning(u)|), Meaning(u)))
  {
    hide Scalar;
    match u {
      case Ascii(b) => LoudStep(Rested(r), b, Rested(r), [b]);
      case Multi(b) => MultiRuns(b, r);
      case Short(c) =>
        LoudStep(Str(Start, Settled, r + 1), c, Rested(r + 1), Meaning(u));
        QuietStep(Rested(r), 0x5c, Str(Start, Settled, r + 1), [c], Rested(r + 1), Meaning(u));
        assert Written(u) == [0x5c] + [c];
      case Code(h) => CodeRuns(h, r);
      case Pair(h, l) => PairRuns(h, l, r);
    }
  }

  /** The automaton passes over `p` from rest to rest and decodes it. */
  ghost predicate Reads(p: Piece) {
    forall r :: Run(Rested(r), p.raw) == Some((Rested(r + |p.raw| - |p.decoded|), p.decoded))
  }

  lemma UnitReads(p: Piece)
    requires IsUnit(p)
    ensures Reads(p)
  {
    var u :| Spells(u, p);
    forall r ensures Run(Rested(r), p.raw) == Some((Rested(r + |p.raw| - |p.decoded|), p.decoded)) {
      UnitRuns(u, r);
    }
  }

  lemma ReadsJoin(a: Piece, b: Piece)
    requires Reads(a) && Reads(b)
    ensures Reads(Piece(a.raw + b.raw, a.decoded + b.decoded))
  {
    forall r {
      RunJoin(Rested(r), a.raw, Rested(r + |a.raw| - |a.decoded|), a.decoded, b.raw,
              Rested(r + |a.raw| - |a.decoded| + |b.raw| - |b.decoded|), b.decoded);
    }
  }

  lemma {:induction false} PiecesRead(ps: seq<Piece>)
    requires forall i :: 0 <= i < |ps| ==> Reads(ps[i])
    ensures Reads(Total(ps))
  {
    if ps == [] {
      assert Reads(Piece([], []));
    } else {
      PiecesRead(ps[..|ps| - 1]);
      ReadsJoin(Total(ps[..|ps| - 1]), ps[|ps| - 1]);
    }
  }

  /** Every sequence of units is accepted, with its meaning as the decoded bytes. */
  lemma UnitsRead(ps: seq<Piece>)
    requires AllUnits(ps)
    ensures Reads(Total(ps))
  {
    forall i | 0 <= i < |ps| ensures Reads(ps[i]) {
      UnitReads(ps[i]);
    }
    PiecesRead(ps);
  }

  // ------------------------------------------------------- only units are accepted

  /** A unit broken off in the middle. */
  datatype Fragment =
    | Whole
    | Bytewise(bytes: Bytes)
    | Slashed
    | Digits(hex: Bytes)
    | High(hex: Bytes)
    | HighSlashed(hex: Bytes)
    | LowDigits(hex: Bytes, low: Bytes)

  predicate ValidFragment(f: Fragment) {
    match f
    case Whole | Slashed => true
    case Bytewise(b) =>
      && 1 <= |b| <= 3 && Lead(b[0]).Some? && |b| <= Lead(b[0]).value.left
      && (|b| >= 2 ==> Lead(b[0]).value.min <= b[1] <= Lead(b[0]).value.max)
      && (|b| == 3 ==> Tail(b[2]))
    case Digits(h) => |h| < 4 && AllHex(h)
    case High(h) => |h| == 4 && AllHex(h) && HighSurrogate(HexValue(h))
    case HighSlashed(h) => |h| == 4 && AllHex(h) && HighSurrogate(HexValue(h))
    case LowDigits(h, l) => |h| == 4 && AllHex(h) && HighSurrogate(HexValue(h)) && |l| < 4 && AllHex(l)
  }

  function Seen(f: Fragment): Bytes {
    match f
    case Whole => []
    case Bytewise(b) => b
    case Slashed => [0x5c]
    case Digits(h) => [0x5c, 0x75] + h
    case High(h) => [0x5c, 0x75] + h
    case HighSlashed(h) => [0x5c, 0x75] + h + [0x5c]
    case LowDigits(h, l) => [0x5c, 0x75] + h + [0x5c, 0x75] + l
  }

  /** The part of a fragment that is already decoded. */
  function Shown(f: Fragment): Bytes {
    if f.Bytewise? then f.bytes else []
  }

  lemma FewDigits(h: Bytes)
    requires |h| < 4 && AllHex(h)
    ensures HexValue(h) < 0x1000
  {
    if |h| > 0 {
      assert h[..|h| - 1][..0] == [];
      if |h| > 1 {
        assert h[..|h| - 1][..|h| - 2][..0] == [];
      }
    }
  }

  /** The state in which a fragment leaves the automaton. */
  function At(f: Fragment, r: int): Str
    requires ValidFragment(f)
  {
    match f
    case Whole => Rested(r)
    case Bytewise(b) =>
      var u := Lead(b[0]).value;
      Str(Plain, if |b| == 1 then u else Utf8(u.left + 1 - |b|, 0x80, 0xbf), r)
    case Slashed => Str(Start, Settled, r)
    case Digits(h) => FewDigits(h); Str(Hex(HexValue(h), 4 - |h|, 0), Settled, r)
    case High(h) => Str(Slash(HexValue(h)), Settled, r)
    case HighSlashed(h) => Str(Unicode(HexValue(h)), Settled, r)
    case LowDigits(h, l) => FewDigits(l); Str(Hex(HexValue(l), 4 - |l|, HexValue(h)), Settled, r)
  }

  /** What one more byte makes of a fragment: a longer one, or a unit with nothing left over. */
  datatype Growth = Longer(f: Fragment) | Done(p: Piece)

  ghost predicate Grown(f: Fragment, r: int, b: byte, next: Str, d: Bytes, g: Growth)
  {
    match g
    case Longer(f') =>
      && ValidFragment(f') && next == At(f', r + 1 - |d|)
      && Seen(f') == Seen(f) + [b] && Shown(f') == Shown(f) + d
    case Done(p) =>
      && IsUnit(p) && next == Rested(r + 1 - |d|)
      && p.raw == Seen(f) + [b] && p.decoded == Shown(f) + d
  }

  function Finished(u: Unit): Growth
    requires ValidUnit(u)
  {
    Done(Piece(Written(u), Meaning(u)))
  }

  lemma FinishedIsUnit(u: Unit)
    requires ValidUnit(u)
    ensures IsUnit(Finished(u).p)
  {
    assert Spells(u, Finished(u).p);
  }

  lemma OneMoreDigit(h: Bytes, b: byte)
    requires |h| < 4 && AllHex(h) && IsHex(b)
    ensures AllHex(h + [b]) && HexValue(h) < 0x1000 && HexValue(h + [b]) == Shifted(HexValue(h), b)
  {
    FewDigits(h);
    assert (h + [b])[..|h|] == h;
  }

  lemma DigitGrows(h: Bytes, r: int, b: byte, next: Str, d: Bytes) returns (g: Growth)
    requires ValidFragment(Digits(h)) && Step(At(Digits(h), r), b) == Content(next, d)
    ensures Grown(Digits(h), r, b, next, d, g)
  {
    hide Scalar;
    OneMoreDigit(h, b);
    assert [0x5c, 0x75] + (h + [b]) == [0x5c, 0x75] + h + [b];
    if |h| < 3 {
      g := Longer(Digits(h + [b]));
    } else if HighSurrogate(HexValue(h + [b])) {
      g := Longer(High(h + [b]));
    } else {
      g := Finished(Code(h + [b]));
      FinishedIsUnit(Code(h + [b]));
    }
  }

  lemma LowDigitGrows(h: Bytes, l: Bytes, r: int, b: byte, next: Str, d: Bytes) returns (g: Growth)
    requires ValidFragment(LowDigits(h, l)) && Step(At(LowDigits(h, l), r), b) == Content(next, d)
    ensures Grown(LowDigits(h, l), r, b, next, d, g)
  {
    hide Scalar;
    OneMoreDigit(l, b);
    var front := [0x5c, 0x75] + h + [0x5c, 0x75];
    assert front + (l + [b]) == front + l + [b];
    if |l| < 3 {
      g := Longer(LowDigits(h, l + [b]));
    } else {
      g := Finished(Pair(h, l + [b]));
      FinishedIsUnit(Pair(h, l + [b]));
    }
  }

  lemma BytesGrow(p: Bytes, r: int, b: byte, next: Str, d: Bytes) returns (g: Growth)
    requires ValidFragment(Bytewise(p)) && StepPlain(At(Bytewise(p), r), b) == Content(next, d)
    ensures Grown(Bytewise(p), r, b, next, d, g)
  {
    if |p| == Lead(p[0]).value.left {
      g := Finished(Multi(p + [b]));
      FinishedIsUnit(Multi(p + [b]));
    } else {
      g := Longer(Bytewise(p + [b]));
    }
  }

  lemma PlainGrows(r: int, b: byte, next: Str, d: Bytes) returns (g: Growth)
    requires StepPlain(Rested(r), b) == Content(next, d)
    ensures Grown(Whole, r, b, next, d, g)
  {
    if b == 0x5c {
      g := Longer(Slashed);
    } else if b < 0x80 {
      g := Finished(Ascii(b));
      FinishedIsUnit(Ascii(b));
    } else {
      g := Longer(Bytewise([b]));
    }
  }

  lemma SlashGrows(r: int, b: byte, next: Str, d: Bytes) returns (g: Growth)
    requires StepStart(At(Slashed, r), b) == Content(next, d)
    ensures Grown(Slashed, r, b, next, d, g)
  {
    if b == 0x75 {
      g := Longer(Digits([]));
    } else {
      g := Finished(Short(b));
      FinishedIsUnit(Short(b));
    }
  }

  lemma HighGrows(h: Bytes, r: int, b: byte, next: Str, d: Bytes)
    requires ValidFragment(High(h)) && Step(At(High(h), r), b) == Content(next, d)
    ensures Grown(High(h), r, b, next, d, Longer(HighSlashed(h)))
  {
  }

  lemma HighSlashedGrows(h: Bytes, r: int, b: byte, next: Str, d: Bytes)
    requires ValidFragment(HighSlashed(h)) && Step(At(HighSlashed(h), r), b) == Content(next, d)
    ensures Grown(HighSlashed(h), r, b, next, d, Longer(LowDigits(h, [])))
  {
    assert [0x5c, 0x75] + h + [0x5c, 0x75] == [0x5c, 0x75] + h + [0x5c] + [0x75];
  }

  lemma StepGrows(f: Fragment, r: int, s: Str, b: byte, next: Str, d: Bytes) returns (g: Growth)
    requires ValidFragment(f) && s == At(f, r) && Step(s, b) == Content(next, d)
    ensures Grown(f, r, b, next, d, g)
  {
    match f {
      case Whole => g := PlainGrows(r, b, next, d);
      case Bytewise(p) => g := BytesGrow(p, r, b, next, d);
      case Slashed => g := SlashGrows(r, b, next, d);
      case Digits(h) => g := DigitGrows(h, r, b, next, d);
      case High(h) => HighGrows(h, r, b, next, d); g := Longer(HighSlashed(h));
      case HighSlashed(h) => HighSlashedGrows(h, r, b, next, d); g := Longer(LowDigits(h, []));
      case LowDigits(h, l) => g := LowDigitGrows(h, l, r, b, next, d);
    }
  }

  /** A broken-off run: complete pieces, then one fragment. */
  predicate Splits(w: Bytes, whole: Piece, f: Fragment, end: Str, decoded: Bytes) {
    && ValidFragment(f) && w == whole.raw + Seen(f)
    && decoded == whole.decoded + Shown(f) && end == At(f, |w| - |decoded|)
  }

  lemma TotalSnoc(ps: seq<Piece>, p: Piece)
    ensures Total(ps + [p]) == Piece(Total(ps).raw + p.raw, Total(ps).decoded + p.decoded)
  {
    assert (ps + [p])[..|ps|] == ps;
  }

  lemma Appended(a: Bytes, b: Bytes, c: Bytes, w: Bytes)
    requires w == a + b
    ensures w + c == a + (b + c)
  {
  }

  lemma RunSnoc(w: Bytes, b: byte)
    requires Run(NewString, w + [b]).Some?
    ensures Run(NewString, w).Some?
    ensures var (s, x) := Run(NewString, w).value;
            var c := Step(s, b);
            c.Content? && Run(NewString, w + [b]) == Some((c.next, x + c.decoded))
  {
    RunAppend(NewString, w, [b]);
    var (s, x) := Run(NewString, w).value;
    var c := Step(s, b);
    if c.Content? {
      LoudStep(s, b, c.next, c.decoded);
    }
  }

  lemma WholeIsNothing(r: int)
    ensures ValidFragment(Whole) && Seen(Whole) == [] && Shown(Whole) == [] && At(Whole, r) == Rested(r)
  {
  }

  lemma GrowthSplits(w: Bytes, ps: seq<Piece>, f: Fragment, s: Str, x: Bytes, b: byte, next: Str, d: Bytes, g: Growth)
    returns (qs: seq<Piece>, f': Fragment)
    requires AllUnits(ps) && Splits(w, Total(ps), f, s, x)
    requires Grown(f, |w| - |x|, b, next, d, g)
    ensures AllUnits(qs) && Splits(w + [b], Total(qs), f', next, x + d)
  {
    WholeIsNothing(|w| + 1 - |x + d|);
    hide ValidFragment, Seen, Shown, At;
    Appended(Total(ps).raw, Seen(f), [b], w);
    Appended(Total(ps).decoded, Shown(f), d, x);
    match g {
      case Longer(longer) =>
        qs, f' := ps, longer;
      case Done(p) =>
        qs, f' := ps + [p], Whole;
        TotalSnoc(ps, p);
    }
  }

  lemma StepSplits(w: Bytes, ps: seq<Piece>, f: Fragment, s: Str, x: Bytes, b: byte, next: Str, d: Bytes)
    returns (qs: seq<Piece>, f': Fragment)
    requires AllUnits(ps) && Splits(w, Total(ps), f, s, x) && Step(s, b) == Content(next, d)
    ensures AllUnits(qs) && Splits(w + [b], Total(qs), f', next, x + d)
  {
    hide Scalar;
    var g := StepGrows(f, |w| - |x|, s, b, next, d);
    qs, f' := GrowthSplits(w, ps, f, s, x, b, next, d, g);
  }

  /** Whatever the automaton has passed over splits into units and one fragment. */
  lemma {:induction false} RunSplits(w: Bytes) returns (ps: seq<Piece>, f: Fragment)
    requires Run(NewString, w).Some?
    ensures AllUnits(ps)
    ensures Splits(w, Total(ps), f, Run(NewString, w).value.0, Run(NewString, w).value.1)
    decreases |w|
  {
    if w == [] {
      ps, f := [], Whole;
    } else {
      var v, b := w[..|w| - 1], w[|w| - 1];
      assert w == v + [b];
      RunSnoc(v, b);
      ps, f := RunSplits(v);
      var (s, x) := Run(NewString, v).value;
      var c := Step(s, b);
      ps, f := StepSplits(v, ps, f, s, x, b, c.next, c.decoded);
    }
  }

  /** `w` is string content that decodes to `x`. */
  ghost predicate Decodes(w: Bytes, x: Bytes) {
    exists ps :: AllUnits(ps) && Total(ps) == Piece(w, x)
  }

  lemma OnlyWholeRests(f: Fragment, r: int)
    requires ValidFragment(f) && AtRest(At(f, r))
    ensures f == Whole
  {
  }

  /** The automaton stands at rest after `w` exactly when `w` is a sequence of
      units, and then it has decoded what those units mean. */
  lemma StringsAreExact(w: Bytes, x: Bytes)
    ensures (exists r :: Run(NewString, w) == Some((Rested(r), x))) <==> Decodes(w, x)
  {
    if r :| Run(NewString, w) == Some((Rested(r), x)) {
      var ps, f := RunSplits(w);
      OnlyWholeRests(f, |w| - |x|);
      assert Total(ps) == Piece(w, x);
    }
    if Decodes(w, x) {
      var ps :| AllUnits(ps) && Total(ps) == Piece(w, x);
      UnitsRead(ps);
      assert NewString == Rested(0);
      assert Run(NewString, w) == Some((Rested(|w| - |x|), x));
    }
  }

  lemma RestedAtRest(w: Bytes)
    requires Run(NewString, w).Some? && AtRest(Run(NewString, w).value.0)
    ensures var (s, x) := Run(NewString, w).value;
            s == Rested(|w| - |x|)
  {
    hide Step, Run;
    var ps, f := RunSplits(w);
    var (s, x) := Run(NewString, w).value;
    OnlyWholeRests(f, |w| - |x|);
  }

  /** A unit is copied or loses at least one byte. */
  predicate Shrinks(p: Piece) {
    p.decoded == p.raw || |p.decoded| < |p.raw|
  }

  lemma UnitShrinks(p: Piece)
    requires IsUnit(p)
    ensures Shrinks(p)
  {
  }

  lemma {:induction false} TotalShrinks(ps: seq<Piece>)
    requires forall i :: 0 <= i < |ps| ==> Shrinks(ps[i])
    ensures Shrinks(Total(ps))
  {
    if ps != [] {
      TotalShrinks(ps[..|ps| - 1]);
    }
  }

  /** `removed` is the exact difference of lengths, never negative, and at rest
      it is zero exactly when the content can be borrowed as it stands. */
  lemma RemovedIsExact(w: Bytes)
    requires Run(NewString, w).Some?
    ensures var (s, x) := Run(NewString, w).value;
            && s.removed == |w| - |x| >= 0
            && (AtRest(s) ==> (s.removed == 0 <==> x == w))
  {
    var ps, f := RunSplits(w);
    forall i | 0 <= i < |ps| ensures Shrinks(ps[i]) {
      UnitShrinks(ps[i]);
    }
    TotalShrinks(ps);
    var (s, x) := Run(NewString, w).value;
    if AtRest(s) {
      OnlyWholeRests(f, |w| - |x|);
    }
  }
}
