/**
 The tracker as it is stored: four grammar bits per container in eight words.
 */
module JsonPacked {
  import opened Common
  import opened JsonNesting
  import opened JsonGrammar
  import S = JsonString
  import Scan = JsonScan
  import opened JsonReplay

  const MAX_DEPTH: nat := 128
  const PER_WORD: nat := 16
  const WORDS: nat := 8

  // ------------------------------------------------------- one nibble of a word

  type Shift = s: bv7 | s < 64 && s & 3 == 0 witness 0

  const SHIFTS: seq<Shift> := [0, 4, 8, 12, 16, 20, 24, 28, 32, 36, 40, 44, 48, 52, 56, 60]

  function Put(word: bv64, s: Shift, code: bv64): bv64 {
    (word & !(0xf << s)) | (code << s)
  }

  function Get(word: bv64, s: Shift): bv64 {
    (word >> s) & 7
  }

  /** A nibble reads back what was put there; the others keep what they held. */
  lemma PutGet(word: bv64, s: Shift, code: bv64, other: Shift)
    requires code < 8
    ensures Get(Put(word, s, code), other) == if other == s then code else Get(word, other)
  {
  }

  function Code(p: Phase): bv64
  {
    match p
    case ObjectOpen => 0 case ObjectKey => 1 case ObjectColon => 2 case ObjectValue => 3
    case ObjectNext => 4 case ArrayOpen => 5 case ArrayValue => 6 case ArrayNext => 7
  }

  function PhaseOf(code: bv64): Phase {
    if code == 0 then ObjectOpen else if code == 1 then ObjectKey
    else if code == 2 then ObjectColon else if code == 3 then ObjectValue
    else if code == 4 then ObjectNext else if code == 5 then ArrayOpen
    else if code == 6 then ArrayValue else ArrayNext
  }

  lemma CodeInverse(p: Phase)
    ensures Code(p) < 8 && PhaseOf(Code(p)) == p
  {
  }

  /** The phase of the container at `index`, counted from the outermost. */
  function PhaseAt(words: seq<bv64>, index: nat): Phase
    requires |words| == WORDS && index < MAX_DEPTH
  {
    PhaseOf(Get(words[index / PER_WORD], SHIFTS[index % PER_WORD]))
  }

  function Stored(words: seq<bv64>, index: nat, p: Phase): (after: seq<bv64>)
    requires |words| == WORDS && index < MAX_DEPTH
    ensures |after| == WORDS
  {
    words[index / PER_WORD := Put(words[index / PER_WORD], SHIFTS[index % PER_WORD], Code(p))]
  }

  lemma ShiftsDiffer(i: nat, j: nat)
    requires i < 16 && j < 16 && i != j
    ensures SHIFTS[i] != SHIFTS[j]
  {
  }

  /** Storing at one index changes the phase there and nowhere else. */
  lemma StoredAt(words: seq<bv64>, index: nat, p: Phase, other: nat)
    requires |words| == WORDS && index < MAX_DEPTH && other < MAX_DEPTH
    ensures PhaseAt(Stored(words, index, p), other) == if other == index then p else PhaseAt(words, other)
  {
    CodeInverse(p);
    if index / PER_WORD == other / PER_WORD {
      PutGet(words[index / PER_WORD], SHIFTS[index % PER_WORD], Code(p), SHIFTS[other % PER_WORD]);
      if index != other {
        ShiftsDiffer(index % PER_WORD, other % PER_WORD);
      }
    }
  }

  /** The phases of the first `depth` containers. */
  function Unpacked(words: seq<bv64>, depth: nat): (s: seq<Phase>)
    requires |words| == WORDS && depth <= MAX_DEPTH
    ensures |s| == depth && forall i :: 0 <= i < depth ==> s[i] == PhaseAt(words, i)
  {
    seq(depth, i requires 0 <= i < depth => PhaseAt(words, i))
  }

  /** Setting the top nibble replaces the top phase. */
  lemma SetTop(words: seq<bv64>, depth: nat, p: Phase)
    requires |words| == WORDS && 1 <= depth <= MAX_DEPTH
    ensures Unpacked(Stored(words, depth - 1, p), depth) == Unpacked(words, depth - 1) + [p]
  {
    hide PhaseAt, Stored, Unpacked;
    var after, expected := Unpacked(Stored(words, depth - 1, p), depth), Unpacked(words, depth - 1) + [p];
    forall i | 0 <= i < depth ensures after[i] == expected[i] {
      StoredAt(words, depth - 1, p, i);
    }
  }

  lemma UnpackedOuter(words: seq<bv64>, depth: nat)
    requires |words| == WORDS && 1 <= depth <= MAX_DEPTH
    ensures Outer(Unpacked(words, depth)) == Unpacked(words, depth - 1)
    ensures Top(Unpacked(words, depth)) == PhaseAt(words, depth - 1)
  {
  }

  // ------------------------------------------------------- the tracker object

  datatype Held = Checked(mode: Mode) | Replaying(quoted: bool, escaped: bool)

  /** Every byte of `w` leaves the tracker as it is. */
  predicate Quiet(t: Tracker, w: Bytes) {
    forall i :: 0 <= i < |w| ==> Step(t, w[i]) == Success(t)
  }

  class Nesting {
    const stack: array<bv64>
    const limit: nat
    var depth: U8
    var held: Held

    ghost predicate Shaped()
      reads this, stack
    {
      stack.Length == WORDS && 1 <= limit <= MAX_DEPTH && depth <= limit
    }

    /** The sequence of phases the words stand for. */
    ghost function Abs(): Tracker
      requires Shaped() && held.Checked?
      reads this, stack
    {
      Tracker(Unpacked(stack[..], depth), limit, held.mode)
    }

    ghost function State(): Replay
      requires held.Replaying?
      reads this
    {
      Replay(depth, held.quoted, held.escaped)
    }

    ghost predicate Valid()
      reads this, stack
    {
      held.Checked? ==> Shaped() && JsonNesting.Valid(Abs())
    }

    constructor (open: byte, room: nat)
      requires 1 <= room <= MAX_DEPTH && (open == 0x7b || open == 0x5b)
      ensures Valid() && held.Checked? && fresh(stack)
      ensures Abs() == Start(open, room).value
    {
      stack := new bv64[WORDS];
      limit, depth, held := room, 1, Checked(Structural);
      new;
      Set(if open == 0x7b then ObjectOpen else ArrayOpen);
    }

    /** A tracker for what follows `open`, or the refusal of the depth or the byte. */
    static method StartDepth(open: byte, room: nat) returns (r: Result<Nesting, Error>)
      requires room <= MAX_DEPTH
      ensures match Start(open, room)
              case Failure(error) => r == Failure(error)
              case Success(t) =>
                r.Success? && fresh(r.value) && fresh(r.value.stack)
                && r.value.Valid() && r.value.held.Checked? && r.value.Abs() == t
    {
      if room == 0 {
        return Failure(Depth);
      }
      if open != 0x7b && open != 0x5b {
        return Failure(Invalid);
      }
      var nesting := new Nesting(open, room);
      return Success(nesting);
    }

    constructor Admitted()
      ensures Valid() && held.Replaying? && State() == JsonReplay.Admitted
    {
      stack := new bv64[WORDS];
      limit, depth, held := MAX_DEPTH, 1, Replaying(false, false);
    }

    /** The phase of the innermost container; the word index stays inside the stack. */
    method Phase() returns (p: JsonNesting.Phase)
      requires Shaped() && depth >= 1
      ensures p == PhaseAt(stack[..], depth - 1)
    {
      hide Get, PhaseOf;
      var word := stack[(depth - 1) / PER_WORD];
      p := PhaseOf(Get(word, SHIFTS[(depth - 1) % PER_WORD]));
    }

    method Set(p: JsonNesting.Phase)
      requires Shaped() && depth >= 1
      modifies stack
      ensures stack[..] == Stored(old(stack[..]), depth - 1, p)
    {
      hide Put, Get, Code;
      var index := (depth - 1) / PER_WORD;
      Replace(index, Put(stack[index], SHIFTS[(depth - 1) % PER_WORD], Code(p)));
    }

    method Replace(index: nat, word: bv64)
      requires index < stack.Length
      modifies stack
      ensures stack[..] == old(stack[..])[index := word]
    {
      stack[index] := word;
    }

    /** Replaces the innermost phase in place. */
    method SetPhase(p: JsonNesting.Phase)
      requires Shaped() && depth >= 1 && held.Checked?
      modifies stack
      ensures Abs() == old(Abs()).(stack := Outer(old(Abs()).stack) + [p])
    {
      hide Stored, PhaseAt;
      SetTop(stack[..], depth, p);
      UnpackedOuter(stack[..], depth);
      Set(p);
    }

    /** Adds a container whose phase is `p`. */
    method Push(p: JsonNesting.Phase)
      requires Shaped() && depth < limit && held.Checked?
      modifies this`depth, stack
      ensures Shaped() && held == old(held) && Abs() == old(Abs()).(stack := old(Abs()).stack + [p])
    {
      hide Stored, PhaseAt, Unpacked;
      ghost var words := stack[..];
      SetTop(words, depth + 1, p);
      depth := depth + 1;
      Set(p);
      assert Unpacked(stack[..], depth) == Unpacked(words, depth - 1) + [p];
    }

    method Commit(c: Change)
      requires Valid() && held.Checked? && depth >= 1 && !c.Fail?
      requires Apply(Abs(), c).Success? && JsonNesting.Valid(Apply(Abs(), c).value)
      modifies this, stack
      ensures Valid() && held.Checked? && Abs() == Apply(old(Abs()), c).value
    {
      hide Stored, PhaseAt, Unpacked;
      ghost var t := Abs();
      match c {
        case Become(phase, mode) =>
          SetPhase(phase);
          held := Checked(mode);
        case Descend(phase, child) =>
          SetPhase(phase);
          assert Outer(t.stack) + [phase, child] == Outer(t.stack) + [phase] + [child];
          assert depth < limit;
          Push(child);
          held := Checked(Structural);
        case Ascend =>
          UnpackedOuter(stack[..], depth);
          depth := depth - 1;
          held := Checked(Structural);
      }
    }

    /** One byte. A rejected byte leaves every field and word as it was. */
    method Step(b: byte) returns (r: Result<bool, Error>)
      requires Valid()
      modifies this, stack
      ensures Valid() && held.Checked? == old(held.Checked?)
      ensures old(held.Checked?) ==>
                var next := JsonNesting.Step(old(Abs()), b);
                && (next.Success? ==> r == Success(next.value.stack == []) && Abs() == next.value)
                && (next.Failure? ==>
                      && r == Failure(next.error) && stack[..] == old(stack[..])
                      && depth == old(depth) && held == old(held))
      ensures old(held.Replaying?) ==>
                r == Success(depth == 0) && State() == StepReplay(old(State()), b) && stack[..] == old(stack[..])
    {
      hide Stored, PhaseAt, Unpacked, Decide;
      match held {
        case Replaying(quoted, escaped) =>
          if escaped {
            held := Replaying(quoted, false);
          } else if quoted {
            if b == 0x5c { held := Replaying(true, true); }
            else if b == 0x22 { held := Replaying(false, false); }
          } else if b == 0x22 {
            held := Replaying(true, false);
          } else if b == 0x7b || b == 0x5b {
            depth := if depth == 0xff then 0 else depth + 1;
          } else if b == 0x7d || b == 0x5d {
            depth := if depth == 0 then 0xff else depth - 1;
          }
          return Success(depth == 0);
        case Checked(mode) =>
          if depth == 0 {
            return Failure(Invalid);
          }
          UnpackedOuter(stack[..], depth);
          var phase := Phase();
          var c := Decide(mode, phase, depth == limit, b);
          if c.Fail? {
            return Failure(c.error);
          }
          StepValid(Abs(), b);
          Commit(c);
          r := Success(depth == 0);
      }
    }

    /** The run of bytes taken in one go: none of them changes anything, and none closes
        a container. */
    method Skip(chunk: Bytes, load: Bytes -> bv64) returns (n: nat)
      requires Valid() && Scan.Loads(load)
      ensures n <= |chunk|
      ensures held.Checked? && depth > 0 ==> Quiet(Abs(), chunk[..n])
      ensures held.Replaying? ==> RunReplay(State(), chunk[..n]) == State()
      ensures n < |chunk| ==>
                match held
                case Checked(InString(s)) => S.AtRest(s) ==> !Scan.PlainByte(chunk[n], true)
                case Checked(Structural) => !IsSpace(chunk[n])
                case Checked(InAtom(_)) => n == 0
                case Replaying(quoted, escaped) => !Skippable(State(), chunk[n])
    {
      hide Stored, PhaseAt;
      n := 0;
      match held {
        case Checked(InString(s)) =>
          n := Scan.Skip(s, chunk, load);
          if depth > 0 {
            StringQuiet(Abs(), s, chunk[..n]);
          }
        case Checked(Structural) =>
          while n < |chunk| && IsSpace(chunk[n])
            invariant n <= |chunk| && Blank(chunk[..n])
          {
            n := n + 1;
          }
          if depth > 0 {
            BlankQuiet(Abs(), chunk[..n]);
          }
        case Checked(InAtom(_)) =>
        case Replaying(quoted, escaped) =>
          while n < |chunk| && !escaped
            && (if quoted then chunk[n] != 0x22 && chunk[n] != 0x5c
                else chunk[n] != 0x22 && chunk[n] != 0x7b && chunk[n] != 0x5b && chunk[n] != 0x7d && chunk[n] != 0x5d)
            invariant n <= |chunk| && forall i :: 0 <= i < n ==> Skippable(State(), chunk[i])
          {
            n := n + 1;
          }
          SkippedIsQuiet(State(), chunk[..n]);
      }
    }
  }

  lemma BlankQuiet(t: Tracker, w: Bytes)
    requires t.stack != [] && t.mode == Structural && Blank(w)
    ensures Quiet(t, w)
  {
    assert Outer(t.stack) + [Top(t.stack)] == t.stack;
  }

  /** Content that leaves the string automaton as it is leaves the tracker as it is. */
  lemma StringQuiet(t: Tracker, s: S.Str, w: Bytes)
    requires t.stack != [] && t.mode == InString(s) && (w == [] || S.AtRest(s)) && Scan.AllPlain(w, true)
    ensures Quiet(t, w)
  {
    assert Outer(t.stack) + [Top(t.stack)] == t.stack;
    forall i | 0 <= i < |w| ensures Step(t, w[i]) == Success(t) {
      Scan.PlainByteIsQuiet(s, w[i]);
    }
  }
}
