/**
 The unchecked replay of an admitted document: it counts brackets outside
 strings and keeps two flags, and must stop where the checked tracker stopped.
 */
module JsonReplay {
  import opened Common
  import opened JsonNesting
  import S = JsonString
  import A = JsonAtom

  /** One byte; it wraps where arithmetic is not checked. */
  type U8 = n: nat | n < 0x100

  datatype Replay = Replay(depth: U8, quoted: bool, escaped: bool)

  const Admitted := Replay(1, false, false)

  function StepReplay(r: Replay, b: byte): Replay {
    if r.escaped then r.(escaped := false)
    else if r.quoted then
      if b == 0x5c then r.(escaped := true) else if b == 0x22 then r.(quoted := false) else r
    else if b == 0x22 then r.(quoted := true)
    else if b == 0x7b || b == 0x5b then r.(depth := if r.depth == 0xff then 0 else r.depth + 1)
    else if b == 0x7d || b == 0x5d then r.(depth := if r.depth == 0 then 0xff else r.depth - 1)
    else r
  }

  function RunReplay(r: Replay, w: Bytes): Replay
    decreases w
  {
    if w == [] then r else RunReplay(StepReplay(r, w[0]), w[1..])
  }

  /** The replay state that stands for a checked tracker. */
  function Shadow(t: Tracker): Replay
    requires |t.stack| < 0x100
  {
    Replay(|t.stack|, t.mode.InString?, t.mode.InString? && (t.mode.s.escape.Start? || t.mode.s.escape.Unicode?))
  }

  /** The UTF-8 range of a next byte never contains an ASCII byte. */
  predicate HighRange(t: Tracker) {
    t.mode.InString? ==> t.mode.s.utf8.min >= 0x80
  }

  lemma StringShadow(s: S.Str, b: byte)
    requires s.utf8.min >= 0x80 && S.Step(s, b).Content?
    ensures var next := S.Step(s, b).next;
            && next.utf8.min >= 0x80
            && ((s.escape.Start? || s.escape.Unicode?) ==> !(next.escape.Start? || next.escape.Unicode?))
            && (!(s.escape.Start? || s.escape.Unicode?) ==>
                  b != 0x22 && ((next.escape.Start? || next.escape.Unicode?) <==> b == 0x5c))
  {
  }

  lemma AtomShadow(a: A.Atom, b: byte)
    requires A.Step(a, b).Some?
    ensures b != 0x22 && b != 0x5b && b != 0x7b && b != 0x5d && b != 0x7d
  {
  }

  lemma TransitionShadow(p: Phase, full: bool, b: byte)
    ensures var c := Transition(p, full, b);
            && (c.Become? && c.mode.InString? ==> b == 0x22 && c.mode.s == S.NewString)
            && (c.Become? && !c.mode.InString? ==> b != 0x22 && b != 0x5b && b != 0x7b && b != 0x5d && b != 0x7d)
            && (c.Descend? ==> b == 0x5b || b == 0x7b)
            && (c.Ascend? ==> b == 0x5d || b == 0x7d)
  {
  }

  lemma StepShadow(t: Tracker, b: byte)
    requires Valid(t) && HighRange(t) && Step(t, b).Success?
    ensures Valid(Step(t, b).value) && HighRange(Step(t, b).value)
    ensures StepReplay(Shadow(t), b) == Shadow(Step(t, b).value)
  {
    StepValid(t, b);
    var p, full := Top(t.stack), |t.stack| == t.limit;
    match t.mode {
      case Structural => TransitionShadow(p, full, b);
      case InString(s) =>
        if S.Step(s, b).Content? {
          StringShadow(s, b);
        }
      case InAtom(a) =>
        if EndsAtom(b) {
          TransitionShadow(p, full, b);
        } else {
          AtomShadow(a, b);
        }
    }
  }

  /** Over whatever the checked tracker accepts, the replay holds the same depth. */
  lemma {:induction false} RunShadow(t: Tracker, w: Bytes)
    requires Valid(t) && HighRange(t) && Run(t, w).Success?
    ensures Valid(Run(t, w).value) && RunReplay(Shadow(t), w) == Shadow(Run(t, w).value)
    decreases w
  {
    if w != [] {
      StepShadow(t, w[0]);
      RunShadow(Step(t, w[0]).value, w[1..]);
    }
  }

  lemma {:induction false} RunPrefix(t: Tracker, w: Bytes, k: nat)
    requires k <= |w| && Run(t, w).Success?
    ensures Run(t, w[..k]).Success?
    ensures k < |w| ==> Run(t, w[..k]).value.stack != []
    decreases w
  {
    if k > 0 {
      assert w[..k][1..] == w[1..][..k - 1];
      RunPrefix(Step(t, w[0]).value, w[1..], k - 1);
    }
  }

  /** On a document the checked tracker accepts, the replay reports the checked depth
      after every byte, and completion at the last byte and not before. */
  lemma ReplayAgrees(open: byte, limit: nat, w: Bytes, k: nat)
    requires 1 <= limit <= 128 && (open == 0x7b || open == 0x5b)
    requires CompletesAt(Start(open, limit).value, w) && k <= |w|
    ensures Run(Start(open, limit).value, w[..k]).Success?
    ensures RunReplay(Admitted, w[..k]).depth == |Run(Start(open, limit).value, w[..k]).value.stack|
    ensures RunReplay(Admitted, w[..k]).depth == 0 <==> k == |w|
  {
    var t := Start(open, limit).value;
    RunPrefix(t, w, k);
    RunShadow(t, w[..k]);
    assert w[..|w|] == w;
  }

  /** What a replay skips in one go: inside a string up to a quote or backslash,
      outside up to a quote or bracket. */
  predicate Skippable(r: Replay, b: byte) {
    && !r.escaped
    && if r.quoted then b != 0x22 && b != 0x5c
       else b != 0x22 && b != 0x7b && b != 0x5b && b != 0x7d && b != 0x5d
  }

  lemma {:induction false} SkippedIsQuiet(r: Replay, w: Bytes)
    requires forall i :: 0 <= i < |w| ==> Skippable(r, w[i])
    ensures RunReplay(r, w) == r
    decreases w
  {
    if w != [] {
      assert StepReplay(r, w[0]) == r;
      SkippedIsQuiet(r, w[1..]);
    }
  }
}
