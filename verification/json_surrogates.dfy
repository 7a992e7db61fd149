/**
 Section 7 of RFC 8259 as it stands admits any four hex digits after `\u`.
 Among the strings of that wider grammar, which ones the automaton accepts.
 */
module JsonSurrogates {
  import opened Common
  import opened JsonString

  /** A character of the wider grammar: every escape stands for itself. */
  predicate Loose(u: Unit) {
    match u
    case Pair(_, _) => false
    case Code(h) => |h| == 4 && AllHex(h)
    case _ => ValidUnit(u)
  }

  predicate AllLoose(us: seq<Unit>) {
    forall i :: 0 <= i < |us| ==> Loose(us[i])
  }

  function LooseText(us: seq<Unit>): Bytes {
    if us == [] then [] else LooseText(us[..|us| - 1]) + Written(us[|us| - 1])
  }

  predicate High(u: Unit) {
    u.Code? && AllHex(u.hex) && HighSurrogate(HexValue(u.hex))
  }

  predicate Low(u: Unit) {
    u.Code? && AllHex(u.hex) && LowSurrogate(HexValue(u.hex))
  }

  predicate PairedAt(us: seq<Unit>, i: nat)
    requires i < |us|
  {
    && (High(us[i]) ==> i + 1 < |us| && Low(us[i + 1]))
    && (Low(us[i]) ==> i > 0 && High(us[i - 1]))
  }

  /** Every high surrogate is followed at once by a low one, and there is no other low one. */
  predicate Paired(us: seq<Unit>) {
    forall i :: 0 <= i < |us| ==> PairedAt(us, i)
  }

  lemma PairedBeforeLow(us: seq<Unit>)
    requires us != [] && Low(us[|us| - 1])
    ensures Paired(us) <==> |us| > 1 && High(us[|us| - 2]) && Paired(us[..|us| - 2])
  {
    hide High, Low;
    OneKind(us);
    var k := |us| - 1;
    if Paired(us) {
      assert PairedAt(us, k);
      var front := us[..k - 1];
      forall i | 0 <= i < |front| ensures PairedAt(front, i) {
        assert PairedAt(us, i);
      }
    }
    if k > 0 && High(us[k - 1]) && Paired(us[..k - 1]) {
      forall i | 0 <= i < |us| ensures PairedAt(us, i) {
        if i < k - 1 {
          assert PairedAt(us[..k - 1], i);
        }
      }
    }
  }

  lemma PairedBeforeOther(us: seq<Unit>)
    requires us != [] && !Low(us[|us| - 1])
    ensures Paired(us) <==> !High(us[|us| - 1]) && Paired(us[..|us| - 1])
  {
    hide High, Low;
    var k := |us| - 1;
    if Paired(us) {
      assert PairedAt(us, k);
      var front := us[..k];
      forall i | 0 <= i < |front| ensures PairedAt(front, i) {
        assert PairedAt(us, i);
      }
    }
    if !High(us[k]) && Paired(us[..k]) {
      forall i | 0 <= i < |us| ensures PairedAt(us, i) {
        if i < k {
          assert PairedAt(us[..k], i);
        }
      }
    }
  }

  lemma OneKind(us: seq<Unit>)
    ensures forall i :: 0 <= i < |us| ==> !(High(us[i]) && Low(us[i]))
  {
  }

  // ------------------------------------------------------- standing after a text

  /** Between characters, behind a high surrogate, or refused. */
  datatype Standing = Even | Waiting(high: U16) | Broken

  function After(s: Standing, u: Unit): Standing
    requires Loose(u)
  {
    match s
    case Even =>
      if Low(u) then Broken
      else if High(u) then HexValueFour(u.hex); Waiting(HexValue(u.hex))
      else Even
    case Waiting(_) => if Low(u) then Even else Broken
    case Broken => Broken
  }

  function Stand(us: seq<Unit>): Standing
    requires AllLoose(us)
  {
    if us == [] then Even else After(Stand(us[..|us| - 1]), us[|us| - 1])
  }

  lemma {:induction false} StandMeansPaired(us: seq<Unit>)
    requires AllLoose(us)
    ensures Stand(us) == Even <==> Paired(us)
    ensures Stand(us).Waiting? <==> us != [] && High(us[|us| - 1]) && Paired(us[..|us| - 1])
    decreases |us|
  {
    if us != [] {
      var k := |us| - 1;
      StandMeansPaired(us[..k]);
      OneKind(us);
      if Low(us[k]) {
        PairedBeforeLow(us);
        assert k > 0 ==> us[..k][..k - 1] == us[..k - 1];
      } else {
        PairedBeforeOther(us);
      }
    }
  }

  // ------------------------------------------------------- what the automaton does

  lemma Refuses(s: Str, b: byte, w: Bytes)
    requires !Step(s, b).Content?
    ensures Run(s, [b] + w) == None
  {
    assert ([b] + w)[0] == b;
  }

  lemma QuietThenNone(s: Str, b: byte, next: Str, w: Bytes)
    requires Step(s, b) == Content(next, []) && Run(next, w) == None
    ensures Run(s, [b] + w) == None
  {
    assert ([b] + w)[0] == b && ([b] + w)[1..] == w;
  }

  /** Four digits whose value is refused. */
  lemma DigitsRefused(h: Bytes, high: U16, r: int)
    requires |h| == 4 && AllHex(h)
    requires HexValue(h) < 0x1_0000
    requires if high != 0 then !LowSurrogate(HexValue(h)) else LowSurrogate(HexValue(h))
    ensures Run(Str(Hex(0, 4, high), Settled, r), h) == None
  {
    HexValueFour(h);
    var v1 := HexDigit(h[0]);
    var v2 := v1 * 16 + HexDigit(h[1]);
    var v3 := v2 * 16 + HexDigit(h[2]);
    var s1, s2 := Str(Hex(v1, 3, high), Settled, r + 1), Str(Hex(v2, 2, high), Settled, r + 2);
    var s3 := Str(Hex(v3, 1, high), Settled, r + 3);
    DigitStep(0, 4, high, r, h[0]);
    DigitStep(v1, 3, high, r + 1, h[1]);
    DigitStep(v2, 2, high, r + 2, h[2]);
    LastRefused(v3, high, r + 3, h[3], HexValue(h));
    hide Step, Scalar;
    Refuses(s3, h[3], []);
    QuietThenNone(s2, h[2], s3, [h[3]] + []);
    QuietThenNone(s1, h[1], s2, [h[2]] + ([h[3]] + []));
    QuietThenNone(Str(Hex(0, 4, high), Settled, r), h[0], s1, [h[1]] + ([h[2]] + ([h[3]] + [])));
    assert h == [h[0]] + ([h[1]] + ([h[2]] + ([h[3]] + [])));
  }

  lemma LastRefused(value: U16, high: U16, r: int, b: byte, v: nat)
    requires IsHex(b) && value < 0x1000 && v == value * 16 + HexDigit(b)
    requires if high != 0 then !LowSurrogate(v) else LowSurrogate(v)
    ensures Step(Str(Hex(value, 1, high), Settled, r), b) == Rejected
  {
    hide Scalar;
  }

  lemma CodeText(h: Bytes)
    ensures Written(Code(h)) == [0x5c] + ([0x75] + h)
  {
  }

  /** A lone low surrogate is refused between characters. */
  lemma LowRefused(h: Bytes, r: int)
    requires |h| == 4 && AllHex(h) && LowSurrogate(HexValue(h))
    ensures Run(Rested(r), Written(Code(h))) == None
  {
    HexValueFour(h);
    DigitsRefused(h, 0, r + 2);
    QuietThenNone(Str(Start, Settled, r + 1), 0x75, Str(Hex(0, 4, 0), Settled, r + 2), h);
    QuietThenNone(Rested(r), 0x5c, Str(Start, Settled, r + 1), [0x75] + h);
    CodeText(h);
  }

  /** Behind a high surrogate every character but a low one is refused. */
  lemma OtherRefused(high: U16, u: Unit, r: int)
    requires high != 0 && Loose(u) && !Low(u)
    ensures Run(Str(Slash(high), Settled, r), Written(u)) == None
  {
    var s, t := Str(Slash(high), Settled, r), Str(Unicode(high), Settled, r + 1);
    match u {
      case Ascii(b) => Refuses(s, b, []); assert [b] + [] == [b];
      case Multi(b) => Refuses(s, b[0], b[1..]); assert [b[0]] + b[1..] == b;
      case Short(c) =>
        Refuses(t, c, []);
        QuietThenNone(s, 0x5c, t, [c] + []);
        assert Written(u) == [0x5c] + ([c] + []);
      case Code(h) =>
        HexValueFour(h);
        DigitsRefused(h, high, r + 2);
        QuietThenNone(t, 0x75, Str(Hex(0, 4, high), Settled, r + 2), h);
        QuietThenNone(s, 0x5c, t, [0x75] + h);
        CodeText(h);
    }
  }

  /** The automaton stands after `w` as `s` says. */
  ghost predicate Stands(w: Bytes, s: Standing) {
    match s
    case Even => exists r, x :: Reaches(w, Rested(r), x)
    case Waiting(high) => high != 0 && exists r, x :: Reaches(w, Str(Slash(high), Settled, r), x)
    case Broken => Run(NewString, w) == None
  }

  predicate Reaches(w: Bytes, s: Str, x: Bytes) {
    Run(NewString, w) == Some((s, x))
  }

  lemma Onward(w: Bytes, s: Str, x: Bytes, v: Bytes, t: Str, y: Bytes)
    requires Reaches(w, s, x) && Run(s, v) == Some((t, y))
    ensures Reaches(w + v, t, x + y)
  {
    RunAppend(NewString, w, v);
  }

  lemma NoFurther(w: Bytes, s: Str, x: Bytes, v: Bytes)
    requires Reaches(w, s, x) && Run(s, v) == None
    ensures Run(NewString, w + v) == None
  {
    RunAppend(NewString, w, v);
  }

  lemma EvenGoesOn(w: Bytes, u: Unit)
    requires Stands(w, Even) && Loose(u)
    ensures Stands(w + Written(u), After(Even, u))
  {
    hide Run, Scalar, Meaning;
    var r, x :| Reaches(w, Rested(r), x);
    if Low(u) {
      LowRefused(u.hex, r);
      NoFurther(w, Rested(r), x, Written(u));
    } else if High(u) {
      HighRuns(u.hex, r);
      CodeText(u.hex);
      Onward(w, Rested(r), x, Written(u), Str(Slash(HexValue(u.hex)), Settled, r + 6), []);
    } else {
      UnitRuns(u, r);
      Onward(w, Rested(r), x, Written(u), Rested(r + |Written(u)| - |Meaning(u)|), Meaning(u));
    }
  }

  lemma WaitingGoesOn(w: Bytes, high: U16, u: Unit)
    requires Stands(w, Waiting(high)) && Loose(u)
    ensures Stands(w + Written(u), After(Waiting(high), u))
  {
    hide Run, Scalar, Meaning;
    var r, x :| Reaches(w, Str(Slash(high), Settled, r), x);
    if Low(u) {
      LowRuns(high, u.hex, r - 6);
      CodeText(u.hex);
      var out := Scalar(PairValue(high, HexValue(u.hex)));
      Onward(w, Str(Slash(high), Settled, r), x, Written(u), Rested(r - 6 + 12 - |out|), out);
    } else {
      OtherRefused(high, u, r);
      NoFurther(w, Str(Slash(high), Settled, r), x, Written(u));
    }
  }

  lemma {:induction false} TextStands(us: seq<Unit>)
    requires AllLoose(us)
    ensures Stands(LooseText(us), Stand(us))
    decreases |us|
  {
    if us == [] {
      assert Reaches([], Rested(0), []);
    } else {
      var k := |us| - 1;
      TextStands(us[..k]);
      var w := LooseText(us[..k]);
      match Stand(us[..k]) {
        case Even => EvenGoesOn(w, us[k]);
        case Waiting(high) => WaitingGoesOn(w, high, us[k]);
        case Broken => RunAppend(NewString, w, Written(us[k]));
      }
    }
  }

  ghost predicate Accepted(w: Bytes) {
    exists x :: Decodes(w, x)
  }

  lemma EvenIsAccepted(w: Bytes)
    requires Stands(w, Even)
    ensures Accepted(w)
  {
    var r, x :| Reaches(w, Rested(r), x);
    StringsAreExact(w, x);
  }

  lemma AcceptedIsEven(w: Bytes, s: Standing)
    requires Stands(w, s) && Accepted(w)
    ensures s == Even
  {
    var x :| Decodes(w, x);
    StringsAreExact(w, x);
    var r :| Run(NewString, w) == Some((Rested(r), x));
    OnlyEvenRests(w, s, r, x);
  }

  /** A string of the wider grammar is accepted exactly when its surrogates are paired. */
  lemma LooseIsAcceptedExactly(us: seq<Unit>)
    requires AllLoose(us)
    ensures Accepted(LooseText(us)) <==> Paired(us)
  {
    hide Accepted, Stands, Paired, LooseText;
    TextStands(us);
    StandMeansPaired(us);
    if Stand(us) == Even {
      EvenIsAccepted(LooseText(us));
    }
    if Accepted(LooseText(us)) {
      AcceptedIsEven(LooseText(us), Stand(us));
    }
  }

  lemma OnlyEvenRests(w: Bytes, s: Standing, r: int, x: Bytes)
    requires Stands(w, s) && Run(NewString, w) == Some((Rested(r), x))
    ensures s == Even
  {
    hide Run;
  }

  // ------------------------------------------------------- nothing else is accepted

  lemma LooseSnoc(us: seq<Unit>, u: Unit)
    ensures LooseText(us + [u]) == LooseText(us) + Written(u)
  {
    assert (us + [u])[..|us|] == us;
  }

  lemma PairText(h: Bytes, l: Bytes, w: Bytes)
    ensures w + Written(Pair(h, l)) == w + Written(Code(h)) + Written(Code(l))
  {
  }

  lemma UnitIsLoose(us: seq<Unit>, u: Unit) returns (vs: seq<Unit>)
    requires AllLoose(us) && ValidUnit(u)
    ensures AllLoose(vs) && LooseText(vs) == LooseText(us) + Written(u)
  {
    match u {
      case Pair(h, l) =>
        LooseSnoc(us, Code(h));
        LooseSnoc(us + [Code(h)], Code(l));
        PairText(h, l, LooseText(us));
        vs := us + [Code(h)] + [Code(l)];
      case _ =>
        LooseSnoc(us, u);
        vs := us + [u];
    }
  }

  lemma {:induction false} PiecesAreLoose(ps: seq<Piece>) returns (us: seq<Unit>)
    requires AllUnits(ps)
    ensures AllLoose(us) && LooseText(us) == Total(ps).raw
    decreases |ps|
  {
    hide LooseText, AllLoose, Meaning, Written;
    if ps == [] {
      us := [];
      EmptyIsLoose();
    } else {
      var k := |ps| - 1;
      us := PiecesAreLoose(ps[..k]);
      var u :| Spells(u, ps[k]);
      us := UnitIsLoose(us, u);
    }
  }

  lemma EmptyIsLoose()
    ensures AllLoose([]) && LooseText([]) == []
  {
  }

  /** Whatever is accepted is a string of the wider grammar with paired surrogates. */
  lemma AcceptedIsLoose(w: Bytes, x: Bytes) returns (us: seq<Unit>)
    requires Decodes(w, x)
    ensures AllLoose(us) && LooseText(us) == w && Paired(us)
  {
    var ps :| AllUnits(ps) && Total(ps) == Piece(w, x);
    us := PiecesAreLoose(ps);
    assert Accepted(w);
    LooseIsAcceptedExactly(us);
  }

  /** The wider grammar's `\ud800` is refused. */
  lemma LoneHighRefused()
    ensures AllLoose([Code([0x64, 0x38, 0x30, 0x30])])
    ensures LooseText([Code([0x64, 0x38, 0x30, 0x30])]) == [0x5c, 0x75, 0x64, 0x38, 0x30, 0x30]
    ensures !Accepted([0x5c, 0x75, 0x64, 0x38, 0x30, 0x30])
  {
    var h: Bytes := [0x64, 0x38, 0x30, 0x30];
    var us := [Code(h)];
    HexValueFour(h);
    assert HexValue(h) == 0xd800 && High(us[0]);
    LooseSnoc([], Code(h));
    assert [] + us == us;
    assert LooseText(us) == [0x5c, 0x75, 0x64, 0x38, 0x30, 0x30];
    assert !PairedAt(us, 0);
    LooseIsAcceptedExactly(us);
  }
}
