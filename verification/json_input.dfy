/**
 The scanners over one contiguous input: they skip whole runs and stop at a size
 limit, and must find what a byte-at-a-time scan finds.
 */
module JsonInput {
  import opened Common
  import opened JsonGrammar
  import opened JsonNesting
  import S = JsonString
  import A = JsonAtom
  import Scan = JsonScan
  import Packed = JsonPacked

  datatype ScanError = Malformed | TooDeep | TooLong(len: nat, capacity: nat)

  function Of(e: Error): ScanError {
    match e case Invalid => Malformed case Depth => TooDeep
  }

  // ------------------------------------------------------- limits

  /** At most `capacity` bytes after `start`, not counting `overhead` of them. */
  datatype Limit = Limit(start: nat, capacity: nat, overhead: nat)

  function Check(limit: Option<Limit>, end: nat): Option<ScanError> {
    match limit
    case None => None
    case Some(l) =>
      var len := if end <= l.start + l.overhead then 0 else end - l.start - l.overhead;
      if len <= l.capacity then None else Some(TooLong(len, l.capacity))
  }

  function ScanEnd(limit: Option<Limit>, length: nat): nat {
    match limit
    case None => length
    case Some(l) => Min(length, l.start + (l.capacity + l.overhead + 1))
  }

  /** What a limit admits, and what it reports otherwise. */
  lemma LimitsAreExact(l: Limit, end: nat)
    ensures Check(None, end) == None
    ensures Check(Some(l), end) == None <==> end <= l.start + l.overhead + l.capacity
    ensures forall len: nat, capacity: nat :: Check(Some(l), end) == Some(TooLong(len, capacity)) <==>
              len > l.capacity == capacity && l.start + l.overhead + len == end
  {
  }

  /** A position within the limit lies inside the part that is scanned at all. */
  lemma WithinScan(limit: Option<Limit>, next: nat, length: nat)
    requires next <= length && Check(limit, next) == None
    ensures next <= ScanEnd(limit, length) <= length
    ensures next < length ==> next < ScanEnd(limit, length)
  {
  }

  /** No position before a scanned one is over the limit, so checking once at the end
      of a run finds the error that checking after each byte finds. */
  lemma OverrunIsLast(limit: Option<Limit>, mid: nat, next: nat, length: nat)
    requires mid < next <= ScanEnd(limit, length)
    ensures Check(limit, mid) == None
  {
  }

  // ------------------------------------------------------- containers

  /** Byte at a time: step, check the limit, stop when every container is closed. */
  function ScanGroup(input: Bytes, t: Tracker, next: nat, limit: Option<Limit>): Result<nat, ScanError>
    decreases |input| - next
  {
    if next >= |input| then Failure(Malformed)
    else
      match Step(t, input[next])
      case Failure(e) => Failure(Of(e))
      case Success(t') =>
        match Check(limit, next + 1)
        case Some(e) => Failure(e)
        case None => if t'.stack == [] then Success(next + 1) else ScanGroup(input, t', next + 1, limit)
  }

  function GroupSpec(input: Bytes, index: nat, open: byte, limit: Option<Limit>, room: nat): Result<nat, ScanError> {
    if index >= |input| || input[index] != open then Failure(Malformed)
    else
      match Check(limit, index + 1)
      case Some(e) => Failure(e)
      case None =>
        match Start(open, room)
        case Failure(e) => Failure(Of(e))
        case Success(t) => ScanGroup(input, t, index + 1, limit)
  }

  predicate QuietFrom(input: Bytes, t: Tracker, next: nat, end: nat)
    requires next <= end <= |input|
  {
    forall i :: next <= i < end ==> Step(t, input[i]) == Success(t)
  }

  /** Bytes that change nothing can be passed over in one go. */
  lemma {:induction false} SkipGroup(input: Bytes, t: Tracker, next: nat, end: nat, limit: Option<Limit>)
    requires next <= end <= ScanEnd(limit, |input|) && t.stack != [] && QuietFrom(input, t, next, end)
    requires Check(limit, next) == None
    ensures ScanGroup(input, t, next, limit) ==
            match Check(limit, end)
            case Some(e) => Failure(e)
            case None => ScanGroup(input, t, end, limit)
    decreases end - next
  {
    hide Step;
    if next < end {
      assert Step(t, input[next]) == Success(t);
      if next + 1 < end {
        OverrunIsLast(limit, next + 1, end, |input|);
        SkipGroup(input, t, next + 1, end, limit);
      }
    }
  }

  lemma QuietThere(input: Bytes, t: Tracker, next: nat, end: nat, n: nat)
    requires next + n <= end <= |input| && Packed.Quiet(t, input[next..end][..n])
    ensures QuietFrom(input, t, next, next + n)
  {
    var w := input[next..end][..n];
    forall i | next <= i < next + n ensures Step(t, input[i]) == Success(t) {
      assert w[i - next] == input[i];
    }
  }

  /** Passes over a run inside the scanned part; the slice taken is always in range. */
  method PassOver(input: Bytes, nesting: Packed.Nesting, next: nat, limit: Option<Limit>, load: Bytes -> bv64)
    returns (end: nat)
    requires Scan.Loads(load) && next < |input| && Check(limit, next) == None
    requires nesting.Valid() && nesting.held.Checked? && nesting.depth > 0
    ensures next <= end <= |input|
    ensures ScanGroup(input, nesting.Abs(), next, limit) ==
            match Check(limit, end)
            case Some(e) => Failure(e)
            case None => ScanGroup(input, nesting.Abs(), end, limit)
  {
    hide Step, JsonNesting.Valid, Packed.Quiet, QuietFrom, ScanGroup;
    WithinScan(limit, next, |input|);
    var scanEnd := ScanEnd(limit, |input|);
    var n := nesting.Skip(input[next..scanEnd], load);
    QuietThere(input, nesting.Abs(), next, scanEnd, n);
    SkipGroup(input, nesting.Abs(), next, next + n, limit);
    end := next + n;
  }

  /** The main loop: skip a run, check the limit, step, check again. */
  method GroupFrom(input: Bytes, nesting: Packed.Nesting, start: nat, limit: Option<Limit>, load: Bytes -> bv64)
    returns (r: Result<nat, ScanError>)
    requires Scan.Loads(load) && start <= |input| && Check(limit, start) == None
    requires nesting.Valid() && nesting.held.Checked? && nesting.depth > 0
    modifies nesting, nesting.stack
    ensures r == ScanGroup(input, old(nesting.Abs()), start, limit)
  {
    hide Step, JsonNesting.Valid, Check, Packed.Unpacked;
    var next := start;
    while next < |input|
      invariant next <= |input| && Check(limit, next) == None
      invariant nesting.Valid() && nesting.held.Checked? && nesting.depth > 0
      invariant ScanGroup(input, old(nesting.Abs()), start, limit) == ScanGroup(input, nesting.Abs(), next, limit)
    {
      next := PassOver(input, nesting, next, limit, load);
      var over := Check(limit, next);
      if over.Some? {
        return Failure(over.value);
      }
      if next >= |input| {
        break;
      }
      next := next + 1;
      var done := nesting.Step(input[next - 1]);
      if done.Failure? {
        return Failure(Of(done.error));
      }
      over := Check(limit, next);
      if over.Some? {
        return Failure(over.value);
      }
      if done.value {
        return Success(next);
      }
    }
    return Failure(Malformed);
  }

  /** The container that starts with `open` at `index`. */
  method GroupAt(input: Bytes, index: nat, open: byte, limit: Option<Limit>, room: nat, load: Bytes -> bv64)
    returns (r: Result<nat, ScanError>)
    requires Scan.Loads(load) && room <= 128 && (limit.Some? ==> limit.value.start <= index)
    ensures r == GroupSpec(input, index, open, limit, room)
  {
    if index >= |input| || input[index] != open {
      return Failure(Malformed);
    }
    var over := Check(limit, index + 1);
    if over.Some? {
      return Failure(over.value);
    }
    var nesting := Packed.Nesting.StartDepth(open, room);
    if nesting.Failure? {
      return Failure(Of(nesting.error));
    }
    r := GroupFrom(input, nesting.value, index + 1, limit, load);
  }

  lemma RunFrom(t: Tracker, input: Bytes, next: nat, end: nat)
    requires next < end <= |input|
    ensures Run(t, input[next..end]) ==
            match Step(t, input[next])
            case Success(t') => Run(t', input[next + 1..end])
            case Failure(e) => Failure(e)
  {
    hide Step;
    assert input[next..end][0] == input[next] && input[next..end][1..] == input[next + 1..end];
  }

  /** The scan finds the byte that closes every container, if it is within the limit. */
  lemma {:induction false} ScanGroupExact(input: Bytes, t: Tracker, next: nat, limit: Option<Limit>, end: nat)
    requires next <= |input| && t.stack != []
    ensures ScanGroup(input, t, next, limit) == Success(end) <==>
            next < end <= |input| && CompletesAt(t, input[next..end]) && Check(limit, end) == None
    decreases |input| - next
  {
    hide Step;
    if next < |input| {
      var s := Step(t, input[next]);
      if next < end <= |input| {
        RunFrom(t, input, next, end);
        if end > next + 1 && s.Success? && s.value.stack == [] {
          RunFrom(s.value, input, next + 1, end);
          ClosedStops(s.value, input[next + 1]);
        }
        if Check(limit, end) == None {
          EarlierFits(limit, next + 1, end);
        }
      }
      if s.Success? && s.value.stack != [] {
        ScanGroupExact(input, s.value, next + 1, limit, end);
      }
    }
  }

  lemma ClosedStops(t: Tracker, b: byte)
    requires t.stack == []
    ensures Step(t, b).Failure?
  {
  }

  lemma EarlierFits(limit: Option<Limit>, mid: nat, end: nat)
    requires mid <= end && Check(limit, end) == None
    ensures Check(limit, mid) == None
  {
  }

  ghost predicate IsGroup(text: Bytes, room: nat, v: Json) {
    v.Group? && Fits(v, room) && Text(v) == text
  }

  lemma CompletionIsGroup(input: Bytes, index: nat, open: byte, room: nat, end: nat)
    requires 1 <= room <= 128 && (open == 0x7b || open == 0x5b)
    requires index < end <= |input| && input[index] == open
    ensures CompletesAt(Start(open, room).value, input[index + 1..end]) <==>
            exists v :: IsGroup(input[index..end], room, v)
  {
    hide CompletesAt, Fits, Text;
    assert input[index..end] == [open] + input[index + 1..end];
    NestingIsExact(open, room, input[index + 1..end]);
    if v: Json :| v.Group? && Fits(v, room) && Text(v) == [open] + input[index + 1..end] {
      assert IsGroup(input[index..end], room, v);
    }
    if v :| IsGroup(input[index..end], room, v) {
      assert v.Group? && Fits(v, room) && Text(v) == [open] + input[index + 1..end];
    }
  }

  /** A container scan succeeds exactly on an object or array of the grammar that nests
      within the depth and stays within the limit, and ends right after it. */
  lemma GroupsAreExact(input: Bytes, index: nat, open: byte, limit: Option<Limit>, room: nat, end: nat)
    requires room <= 128 && (limit.Some? ==> limit.value.start <= index) && (open == 0x7b || open == 0x5b)
    ensures GroupSpec(input, index, open, limit, room) == Success(end) <==>
            && index < end <= |input| && input[index] == open && Check(limit, end) == None
            && exists v :: IsGroup(input[index..end], room, v)
  {
    hide Step, Text, ScanGroup;
    if index < |input| && input[index] == open && room > 0 {
      var t := Start(open, room).value;
      ScanGroupExact(input, t, index + 1, limit, end);
      if index < end <= |input| {
        CompletionIsGroup(input, index, open, room, end);
        assert CompletesAt(t, []) == false;
        assert end == index + 1 ==> input[index + 1..end] == [];
        if Check(limit, end) == None {
          EarlierFits(limit, index + 1, end);
        }
      }
    }
  }
}
