/**
 The incremental atom automaton against sections 3 and 6 of RFC 8259:
 literals, numbers, and the integer value that is kept along the way.
 */
module JsonAtom {
  import opened Common

  const MAX: nat := 0xffff_ffff_ffff_ffff
  type U64 = n: nat | n <= MAX

  // ------------------------------------------------------- the automaton

  datatype Literal = True | False | Null

  function Spelling(l: Literal): Bytes {
    match l
    case True => [0x74, 0x72, 0x75, 0x65]
    case False => [0x66, 0x61, 0x6c, 0x73, 0x65]
    case Null => [0x6e, 0x75, 0x6c, 0x6c]
  }

  datatype State =
    | Start | Minus | Zero | NegativeZero | Integer | NegativeInteger
    | Dot | Fraction | Exponent | ExponentSign | ExponentDigits

  predicate IsDigit(b: byte) { 0x30 <= b <= 0x39 }
  predicate IsMark(b: byte) { b == 0x65 || b == 0x45 }
  predicate IsSign(b: byte) { b == 0x2b || b == 0x2d }

  function Next(s: State, b: byte): Option<State> {
    match s
    case Start =>
      if b == 0x2d then Some(Minus) else if b == 0x30 then Some(Zero)
      else if IsDigit(b) then Some(Integer) else None
    case Minus =>
      if b == 0x30 then Some(NegativeZero) else if 0x31 <= b <= 0x39 then Some(NegativeInteger) else None
    case Zero => if b == 0x2e then Some(Dot) else if IsMark(b) then Some(Exponent) else None
    case NegativeZero => if b == 0x2e then Some(Dot) else if IsMark(b) then Some(Exponent) else None
    case Integer =>
      if b == 0x2e then Some(Dot) else if IsMark(b) then Some(Exponent)
      else if IsDigit(b) then Some(s) else None
    case NegativeInteger =>
      if b == 0x2e then Some(Dot) else if IsMark(b) then Some(Exponent)
      else if IsDigit(b) then Some(s) else None
    case Dot => if IsDigit(b) then Some(Fraction) else None
    case Fraction => if IsMark(b) then Some(Exponent) else if IsDigit(b) then Some(Fraction) else None
    case Exponent => if IsSign(b) then Some(ExponentSign) else if IsDigit(b) then Some(ExponentDigits) else None
    case ExponentSign => if IsDigit(b) then Some(ExponentDigits) else None
    case ExponentDigits => if IsDigit(b) then Some(ExponentDigits) else None
  }

  predicate Whole(s: State) {
    s == Zero || s == NegativeZero || s == Integer || s == NegativeInteger
  }

  datatype Atom = Word(literal: Literal, matched: nat) | Number(state: State, value: Option<U64>)

  function New(first: byte, retain: bool): Option<Atom> {
    if first == 0x74 then Some(Word(True, 0))
    else if first == 0x66 then Some(Word(False, 0))
    else if first == 0x6e then Some(Word(Null, 0))
    else if first == 0x2d || IsDigit(first) then Some(Number(Start, if retain then Some(0) else None))
    else None
  }

  /** One more decimal digit, or nothing once the value leaves 64 bits. */
  function Push(value: Option<U64>, b: byte): Option<U64>
    requires IsDigit(b)
  {
    if value.Some? && value.value * 10 <= MAX && value.value * 10 + (b as nat - 0x30) <= MAX
    then Some(value.value * 10 + (b as nat - 0x30)) else None
  }

  function Step(a: Atom, b: byte): Option<Atom> {
    match a
    case Word(l, matched) =>
      if matched < |Spelling(l)| && Spelling(l)[matched] == b then Some(Word(l, matched + 1)) else None
    case Number(s, value) =>
      match Next(s, b)
      case None => None
      case Some(next) =>
        Some(Number(next, if Whole(next) then Push(value, b) else if next == Minus then value else None))
  }

  datatype Kind = KTrue | KFalse | KNull | Unsigned(value: U64) | Negative(value: U64) | Decimal

  function Finish(a: Atom): Option<Kind> {
    match a
    case Word(l, matched) =>
      if matched == |Spelling(l)| then Some(match l case True => KTrue case False => KFalse case Null => KNull)
      else None
    case Number(s, value) =>
      if (s == NegativeZero || s == NegativeInteger) && value.Some? then Some(Negative(value.value))
      else if Whole(s) || s == Fraction || s == ExponentDigits then
        Some(if value.Some? then Unsigned(value.value) else Decimal)
      else None
  }

  /** Stepping over all of `w`. */
  function Run(a: Atom, w: Bytes): Option<Atom>
    decreases w
  {
    if w == [] then Some(a)
    else
      match Step(a, w[0])
      case Some(next) => Run(next, w[1..])
      case None => None
  }

  /** `w` taken as one whole atom. */
  function Recognise(w: Bytes, retain: bool): Option<Kind> {
    if w == [] then None
    else
      match New(w[0], retain)
      case None => None
      case Some(a) =>
        match Run(a, w)
        case None => None
        case Some(end) => Finish(end)
  }

  lemma {:induction false} RunAppend(a: Atom, v: Bytes, w: Bytes)
    ensures Run(a, v + w) == match Run(a, v) case Some(mid) => Run(mid, w) case None => None
    decreases v
  {
    if v == [] {
      assert v + w == w;
    } else {
      assert (v + w)[1..] == v[1..] + w;
      match Step(a, v[0]) {
        case Some(next) => RunAppend(next, v[1..], w);
        case None =>
      }
    }
  }

  lemma RunLast(a: Atom, v: Bytes, b: byte)
    ensures Run(a, v + [b]) == match Run(a, v) case Some(mid) => Step(mid, b) case None => None
  {
    RunAppend(a, v, [b]);
    assert forall m: Atom :: Run(m, [b]) == Step(m, b) by {
      assert [b][1..] == [];
    }
  }

  /** Whitespace, a comma and the closing brackets end an atom: none of them is part of one. */
  predicate Delimits(b: byte) {
    b == 0x20 || b == 0x09 || b == 0x0a || b == 0x0d || b == 0x2c || b == 0x7d || b == 0x5d
  }

  lemma DelimitersEndAtoms(a: Atom, b: byte)
    requires Step(a, b).Some?
    ensures !Delimits(b)
  {
  }

  // ------------------------------------------------------- the grammar

  datatype Exp = Exp(mark: byte, sign: Option<byte>, digits: Bytes)
  datatype Num = Num(minus: bool, whole: Bytes, frac: Option<Bytes>, exp: Option<Exp>)

  predicate Digits(w: Bytes) {
    forall i :: 0 <= i < |w| ==> IsDigit(w[i])
  }

  /** A single zero, or digits that do not start with zero. */
  predicate WholePart(w: Bytes) {
    w != [] && Digits(w) && (w[0] == 0x30 ==> |w| == 1)
  }

  predicate ValidExp(e: Exp) {
    IsMark(e.mark) && (e.sign.Some? ==> IsSign(e.sign.value)) && e.digits != [] && Digits(e.digits)
  }

  predicate ValidNum(n: Num) {
    && WholePart(n.whole)
    && (n.frac.Some? ==> n.frac.value != [] && Digits(n.frac.value))
    && (n.exp.Some? ==> ValidExp(n.exp.value))
  }

  function ExpText(e: Exp): Bytes {
    [e.mark] + (if e.sign.Some? then [e.sign.value] else []) + e.digits
  }

  function FrontText(n: Num): Bytes {
    (if n.minus then [0x2d] else []) + n.whole + (if n.frac.Some? then [0x2e] + n.frac.value else [])
  }

  function NumText(n: Num): Bytes {
    FrontText(n) + (if n.exp.Some? then ExpText(n.exp.value) else [])
  }

  function Value(w: Bytes): nat
    requires Digits(w)
  {
    if w == [] then 0 else Value(w[..|w| - 1]) * 10 + (w[|w| - 1] as nat - 0x30)
  }

  /** What a number is reported as: its integer value when that was asked for and fits. */
  function KindOf(n: Num, retain: bool): Kind
    requires ValidNum(n)
  {
    if retain && n.frac == None && n.exp == None && Value(n.whole) <= MAX then
      if n.minus then Negative(Value(n.whole)) else Unsigned(Value(n.whole))
    else Decimal
  }

  // ------------------------------------------------------- states mean partial numbers

  predicate Bare(n: Num) {
    n.frac == None && n.exp == None
  }

  predicate FracReady(n: Num) {
    n.frac.Some? ==> n.frac.value != [] && Digits(n.frac.value)
  }

  /** `n` is what a number read up to state `s` looks like. */
  predicate Partial(s: State, n: Num) {
    match s
    case Start => n == Num(false, [], None, None)
    case Minus => n == Num(true, [], None, None)
    case Zero => n == Num(false, [0x30], None, None)
    case NegativeZero => n == Num(true, [0x30], None, None)
    case Integer => !n.minus && Bare(n) && WholePart(n.whole) && n.whole[0] != 0x30
    case NegativeInteger => n.minus && Bare(n) && WholePart(n.whole) && n.whole[0] != 0x30
    case Dot => WholePart(n.whole) && n.frac == Some([]) && n.exp == None
    case Fraction => WholePart(n.whole) && n.frac.Some? && FracReady(n) && n.exp == None
    case Exponent =>
      WholePart(n.whole) && FracReady(n) && n.exp.Some? && IsMark(n.exp.value.mark)
      && n.exp.value.sign == None && n.exp.value.digits == []
    case ExponentSign =>
      WholePart(n.whole) && FracReady(n) && n.exp.Some? && IsMark(n.exp.value.mark)
      && n.exp.value.sign.Some? && IsSign(n.exp.value.sign.value) && n.exp.value.digits == []
    case ExponentDigits => WholePart(n.whole) && FracReady(n) && n.exp.Some? && ValidExp(n.exp.value)
  }

  /** `n` with the byte that led to state `to`. */
  function Grow(n: Num, to: State, b: byte): Num {
    match to
    case Start => n
    case Minus => n.(minus := true)
    case Zero => n.(whole := n.whole + [b])
    case NegativeZero => n.(whole := n.whole + [b])
    case Integer => n.(whole := n.whole + [b])
    case NegativeInteger => n.(whole := n.whole + [b])
    case Dot => n.(frac := Some([]))
    case Fraction => if n.frac.Some? then n.(frac := Some(n.frac.value + [b])) else n
    case Exponent => n.(exp := Some(Exp(b, None, [])))
    case ExponentSign => if n.exp.Some? then n.(exp := Some(n.exp.value.(sign := Some(b)))) else n
    case ExponentDigits =>
      if n.exp.Some? then n.(exp := Some(n.exp.value.(digits := n.exp.value.digits + [b]))) else n
  }

  predicate InExponent(s: State) {
    s == Exponent || s == ExponentSign || s == ExponentDigits
  }

  lemma ExpTextGrows(e: Exp, b: byte)
    ensures ExpText(e.(digits := e.digits + [b])) == ExpText(e) + [b]
    ensures e.sign == None && e.digits == [] ==> ExpText(e.(sign := Some(b))) == ExpText(e) + [b]
  {
  }

  lemma ExponentTextGrows(s: State, n: Num, b: byte)
    requires Partial(s, n) && Next(s, b).Some? && InExponent(Next(s, b).value)
    ensures NumText(Grow(n, Next(s, b).value, b)) == NumText(n) + [b]
  {
    var g := Grow(n, Next(s, b).value, b);
    assert FrontText(g) == FrontText(n);
    if InExponent(s) {
      ExpTextGrows(n.exp.value, b);
      assert FrontText(n) + (ExpText(n.exp.value) + [b]) == FrontText(n) + ExpText(n.exp.value) + [b];
    }
  }

  lemma SimpleTextGrows(s: State, n: Num, b: byte)
    requires Partial(s, n) && Next(s, b).Some? && !InExponent(Next(s, b).value)
    ensures NumText(Grow(n, Next(s, b).value, b)) == NumText(n) + [b]
  {
  }

  lemma TextGrows(s: State, n: Num, b: byte)
    requires Partial(s, n) && Next(s, b).Some?
    ensures NumText(Grow(n, Next(s, b).value, b)) == NumText(n) + [b]
  {
    if InExponent(Next(s, b).value) { ExponentTextGrows(s, n, b); } else { SimpleTextGrows(s, n, b); }
  }

  lemma StateGrows(s: State, n: Num, b: byte)
    requires Partial(s, n) && Next(s, b).Some?
    ensures Partial(Next(s, b).value, Grow(n, Next(s, b).value, b))
  {
  }

  lemma PartialGrows(s: State, n: Num, b: byte)
    requires Partial(s, n) && Next(s, b).Some?
    ensures var to := Next(s, b).value;
            Partial(to, Grow(n, to, b)) && NumText(Grow(n, to, b)) == NumText(n) + [b]
  {
    TextGrows(s, n, b);
    StateGrows(s, n, b);
  }

  /** `n` without its last byte: the state before it, and the byte. */
  function Peel(s: State, n: Num): (State, Num, byte)
    requires Partial(s, n) && s != Start
  {
    match s
    case Minus => (Start, n.(minus := false), 0x2d)
    case Zero => (Start, n.(whole := []), 0x30)
    case NegativeZero => (Minus, n.(whole := []), 0x30)
    case Integer =>
      (if |n.whole| == 1 then Start else Integer, n.(whole := n.whole[..|n.whole| - 1]), n.whole[|n.whole| - 1])
    case NegativeInteger =>
      (if |n.whole| == 1 then Minus else NegativeInteger, n.(whole := n.whole[..|n.whole| - 1]), n.whole[|n.whole| - 1])
    case Dot => (WholeState(n), n.(frac := None), 0x2e)
    case Fraction =>
      var f := n.frac.value;
      (if |f| == 1 then Dot else Fraction, n.(frac := Some(f[..|f| - 1])), f[|f| - 1])
    case Exponent => (if n.frac.Some? then Fraction else WholeState(n), n.(exp := None), n.exp.value.mark)
    case ExponentSign => (Exponent, n.(exp := Some(n.exp.value.(sign := None))), n.exp.value.sign.value)
    case ExponentDigits =>
      var e := n.exp.value;
      (if |e.digits| > 1 then ExponentDigits else if e.sign.Some? then ExponentSign else Exponent,
       n.(exp := Some(e.(digits := e.digits[..|e.digits| - 1]))), e.digits[|e.digits| - 1])
  }

  function WholeState(n: Num): State
    requires WholePart(n.whole)
  {
    if n.whole[0] == 0x30 then if n.minus then NegativeZero else Zero
    else if n.minus then NegativeInteger else Integer
  }

  lemma SnocOfLast(w: Bytes)
    requires w != []
    ensures w[..|w| - 1] + [w[|w| - 1]] == w
  {
  }

  lemma PeelExponent(s: State, n: Num)
    requires Partial(s, n) && InExponent(s)
    ensures var (from, m, b) := Peel(s, n);
            Partial(from, m) && Next(from, b) == Some(s) && Grow(m, s, b) == n
  {
    if s.ExponentDigits? {
      SnocOfLast(n.exp.value.digits);
    }
  }

  lemma PeelFraction(s: State, n: Num)
    requires Partial(s, n) && (s == Dot || s == Fraction)
    ensures var (from, m, b) := Peel(s, n);
            Partial(from, m) && Next(from, b) == Some(s) && Grow(m, s, b) == n
  {
    if s.Fraction? {
      SnocOfLast(n.frac.value);
    }
  }

  lemma PeelLong(s: State, n: Num)
    requires Partial(s, n) && (s == Integer || s == NegativeInteger)
    ensures var (from, m, b) := Peel(s, n);
            Partial(from, m) && Next(from, b) == Some(s) && Grow(m, s, b) == n
  {
    SnocOfLast(n.whole);
    var rest := n.whole[..|n.whole| - 1];
    assert |n.whole| == 1 ==> rest == [];
    assert |n.whole| > 1 ==> rest[0] == n.whole[0];
  }

  lemma PeelFits(s: State, n: Num)
    requires Partial(s, n) && s != Start
    ensures var (from, m, b) := Peel(s, n);
            Partial(from, m) && Next(from, b) == Some(s) && Grow(m, s, b) == n
  {
    if InExponent(s) { PeelExponent(s, n); }
    else if s == Dot || s == Fraction { PeelFraction(s, n); }
    else if s == Integer || s == NegativeInteger { PeelLong(s, n); }
  }

  /** The value kept in state `s` after reading `n`. */
  function Kept(s: State, n: Num, retain: bool): Option<U64>
    requires Partial(s, n)
  {
    if retain && (s == Start || s == Minus) then Some(0)
    else if retain && Whole(s) && Value(n.whole) <= MAX then Some(Value(n.whole))
    else None
  }

  lemma ValueGrows(w: Bytes, b: byte)
    requires Digits(w) && IsDigit(b)
    ensures Digits(w + [b]) && Value(w + [b]) == Value(w) * 10 + (b as nat - 0x30)
  {
    assert (w + [b])[..|w|] == w;
  }

  lemma PushKeeps(w: Bytes, b: byte, retain: bool)
    requires Digits(w) && IsDigit(b)
    ensures Digits(w + [b])
    ensures Push(if retain && Value(w) <= MAX then Some(Value(w)) else None, b)
         == if retain && Value(w + [b]) <= MAX then Some(Value(w + [b])) else None
  {
    ValueGrows(w, b);
  }

  /** Up to the end of the whole part, the value kept is that of the digits so far. */
  lemma WholeKept(s: State, n: Num, retain: bool)
    requires Partial(s, n) && (Whole(s) || s == Start || s == Minus)
    ensures Digits(n.whole)
    ensures Kept(s, n, retain) == if retain && Value(n.whole) <= MAX then Some(Value(n.whole)) else None
  {
  }

  lemma WholeStep(s: State, value: Option<U64>, b: byte)
    requires Next(s, b).Some? && Whole(Next(s, b).value)
    ensures IsDigit(b) && (Whole(s) || s == Start || s == Minus)
    ensures Step(Number(s, value), b) == Some(Number(Next(s, b).value, Push(value, b)))
  {
  }

  lemma WholeKeptGrows(s: State, n: Num, b: byte, retain: bool)
    requires Partial(s, n) && Next(s, b).Some? && Whole(Next(s, b).value)
    requires Partial(Next(s, b).value, Grow(n, Next(s, b).value, b))
    ensures IsDigit(b)
    ensures Push(Kept(s, n, retain), b) == Kept(Next(s, b).value, Grow(n, Next(s, b).value, b), retain)
  {
    var to := Next(s, b).value;
    WholeStep(s, None, b);
    WholeKept(s, n, retain);
    PushKeeps(n.whole, b, retain);
    assert Grow(n, to, b).whole == n.whole + [b];
    WholeKept(to, Grow(n, to, b), retain);
  }

  lemma OtherKeptGrows(s: State, n: Num, b: byte, retain: bool)
    requires Partial(s, n) && Next(s, b).Some? && !Whole(Next(s, b).value)
    requires Partial(Next(s, b).value, Grow(n, Next(s, b).value, b))
    ensures var to := Next(s, b).value;
            Step(Number(s, Kept(s, n, retain)), b) == Some(Number(to, Kept(to, Grow(n, to, b), retain)))
  {
  }

  lemma KeptGrows(s: State, n: Num, b: byte, retain: bool)
    requires Partial(s, n) && Next(s, b).Some?
    requires Partial(Next(s, b).value, Grow(n, Next(s, b).value, b))
    ensures var to := Next(s, b).value;
            Step(Number(s, Kept(s, n, retain)), b) == Some(Number(to, Kept(to, Grow(n, to, b), retain)))
  {
    if Whole(Next(s, b).value) {
      WholeStep(s, Kept(s, n, retain), b);
      WholeKeptGrows(s, n, b, retain);
    } else {
      OtherKeptGrows(s, n, b, retain);
    }
  }

  function Fresh(retain: bool): Atom {
    Number(Start, if retain then Some(0) else None)
  }

  /** Reading a partial number ends in its state with its value. */
  lemma {:induction false} PartialRuns(s: State, n: Num, retain: bool)
    requires Partial(s, n)
    ensures Run(Fresh(retain), NumText(n)) == Some(Number(s, Kept(s, n, retain)))
    decreases |NumText(n)|
  {
    if s != Start {
      var (from, m, b) := Peel(s, n);
      PeelFits(s, n);
      PartialGrows(from, m, b);
      PartialRuns(from, m, retain);
      RunLast(Fresh(retain), NumText(m), b);
      KeptGrows(from, m, b, retain);
    }
  }

  /** Whatever runs is a partial number. */
  lemma {:induction false} RunsArePartial(w: Bytes, retain: bool) returns (s: State, n: Num)
    requires Run(Fresh(retain), w).Some?
    ensures Partial(s, n) && NumText(n) == w && Run(Fresh(retain), w) == Some(Number(s, Kept(s, n, retain)))
    decreases |w|
  {
    if w == [] {
      s, n := Start, Num(false, [], None, None);
    } else {
      var v, b := w[..|w| - 1], w[|w| - 1];
      assert w == v + [b];
      RunLast(Fresh(retain), v, b);
      s, n := RunsArePartial(v, retain);
      PartialGrows(s, n, b);
      KeptGrows(s, n, b, retain);
      var to := Next(s, b).value;
      s, n := to, Grow(n, to, b);
    }
  }

  /** The states in which a number may end are those of complete numbers. */
  lemma CompleteIsFinal(s: State, n: Num, retain: bool)
    requires Partial(s, n)
    ensures ValidNum(n) <==> Finish(Number(s, Kept(s, n, retain))).Some?
    ensures ValidNum(n) ==> Finish(Number(s, Kept(s, n, retain))) == Some(KindOf(n, retain))
  {
  }

  function FinalState(n: Num): State
    requires ValidNum(n)
    ensures Partial(FinalState(n), n)
  {
    if n.exp.Some? then ExponentDigits else if n.frac.Some? then Fraction else WholeState(n)
  }

  // ------------------------------------------------------- literals

  lemma {:induction false} WordRuns(l: Literal, matched: nat, w: Bytes)
    requires matched <= |Spelling(l)|
    ensures Run(Word(l, matched), w) ==
            (if w <= Spelling(l)[matched..] then Some(Word(l, matched + |w|)) else None)
    decreases w
  {
    var rest := Spelling(l)[matched..];
    if w != [] {
      if rest != [] && rest[0] == w[0] {
        WordRuns(l, matched + 1, w[1..]);
        assert rest[1..] == Spelling(l)[matched + 1..];
        assert w == [w[0]] + w[1..] && rest == [rest[0]] + rest[1..];
      }
    }
  }

  ghost predicate Numeral(w: Bytes, k: Kind, retain: bool) {
    exists n :: ValidNum(n) && NumText(n) == w && KindOf(n, retain) == k
  }

  /** The kind of a whole atom by the grammar. */
  ghost predicate Denotes(w: Bytes, k: Kind, retain: bool) {
    || (w == Spelling(True) && k == KTrue)
    || (w == Spelling(False) && k == KFalse)
    || (w == Spelling(Null) && k == KNull)
    || Numeral(w, k, retain)
  }

  lemma NumeralIsRecognised(n: Num, retain: bool)
    requires ValidNum(n)
    ensures NumText(n) != [] && (NumText(n)[0] == 0x2d || IsDigit(NumText(n)[0]))
    ensures Recognise(NumText(n), retain) == Some(KindOf(n, retain))
  {
    PartialRuns(FinalState(n), n, retain);
    CompleteIsFinal(FinalState(n), n, retain);
  }

  lemma RecognisedIsNumeral(w: Bytes, retain: bool)
    requires Run(Fresh(retain), w).Some? && Finish(Run(Fresh(retain), w).value).Some?
    ensures Numeral(w, Finish(Run(Fresh(retain), w).value).value, retain)
  {
    var s, n := RunsArePartial(w, retain);
    CompleteIsFinal(s, n, retain);
  }

  lemma WordsAreExact(w: Bytes, k: Kind, retain: bool)
    requires w == [] || !(w[0] == 0x2d || IsDigit(w[0]))
    ensures Recognise(w, retain) == Some(k) <==>
            (|| (w == Spelling(True) && k == KTrue)
             || (w == Spelling(False) && k == KFalse)
             || (w == Spelling(Null) && k == KNull))
  {
    WordRuns(True, 0, w);
    WordRuns(False, 0, w);
    WordRuns(Null, 0, w);
  }

  /** An atom is accepted with a kind exactly when the grammar gives it that kind. */
  lemma AtomsAreExact(w: Bytes, k: Kind, retain: bool)
    ensures Recognise(w, retain) == Some(k) <==> Denotes(w, k, retain)
  {
    if Numeral(w, k, retain) {
      var n :| ValidNum(n) && NumText(n) == w && KindOf(n, retain) == k;
      NumeralIsRecognised(n, retain);
    }
    if w == [] || !(w[0] == 0x2d || IsDigit(w[0])) {
      WordsAreExact(w, k, retain);
    } else if Recognise(w, retain) == Some(k) {
      RecognisedIsNumeral(w, retain);
    }
  }
}
