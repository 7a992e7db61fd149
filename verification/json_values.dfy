/**
 Scanning strings, atoms and whole values of one contiguous input.
 */
module JsonValues {
  import opened Common
  import opened JsonGrammar
  import opened JsonInput
  import N = JsonNesting
  import S = JsonString
  import A = JsonAtom
  import Scan = JsonScan

  // ------------------------------------------------------- strings

  /** Content bounds, whether anything was escaped, and the decoded length. */
  datatype Span = Span(start: nat, end: nat, escaped: bool, decodedLen: int)

  /** Byte at a time: the position of the closing quote and the state before it. */
  function ScanString(input: Bytes, s: S.Str, next: nat, limit: Option<Limit>): Result<(nat, S.Str), ScanError>
    decreases |input| - next
  {
    if next >= |input| then Failure(Malformed)
    else
      var c := S.Step(s, input[next]);
      if c.Rejected? then Failure(Malformed)
      else
        match Check(limit, next + 1)
        case Some(e) => Failure(e)
        case None => if c.Closed? then Success((next, s)) else ScanString(input, c.next, next + 1, limit)
  }

  function SpanOf(start: nat, found: (nat, S.Str)): Span {
    Span(start, found.0, found.1.removed != 0, found.0 - start - found.1.removed)
  }

  function StringSpec(input: Bytes, index: nat, limit: Option<Limit>): Result<(Span, nat), ScanError> {
    if index >= |input| || input[index] != 0x22 then Failure(Malformed)
    else
      match Check(limit, index + 1)
      case Some(e) => Failure(e)
      case None =>
        match ScanString(input, S.NewString, index + 1, limit)
        case Failure(e) => Failure(e)
        case Success(found) => Success((SpanOf(index + 1, found), found.0 + 1))
  }

  predicate PlainFrom(input: Bytes, next: nat, end: nat)
    requires next <= end <= |input|
  {
    forall i :: next <= i < end ==> Scan.PlainByte(input[i], true)
  }

  lemma {:induction false} SkipString(input: Bytes, s: S.Str, next: nat, end: nat, limit: Option<Limit>)
    requires next <= end <= ScanEnd(limit, |input|) && (next < end ==> S.AtRest(s)) && PlainFrom(input, next, end)
    requires Check(limit, next) == None
    ensures ScanString(input, s, next, limit) ==
            match Check(limit, end)
            case Some(e) => Failure(e)
            case None => ScanString(input, s, end, limit)
    decreases end - next
  {
    if next < end {
      Scan.PlainByteIsQuiet(s, input[next]);
      hide S.Step;
      if next + 1 < end {
        OverrunIsLast(limit, next + 1, end, |input|);
        SkipString(input, s, next + 1, end, limit);
      }
    }
  }

  lemma PlainThere(input: Bytes, next: nat, end: nat, n: nat)
    requires next + n <= end <= |input| && Scan.AllPlain(input[next..end][..n], true)
    ensures PlainFrom(input, next, next + n)
  {
    var w := input[next..end][..n];
    forall i | next <= i < next + n ensures Scan.PlainByte(input[i], true) {
      assert w[i - next] == input[i];
    }
  }

  /** The string that starts at `index`: skip a run, check the limit, step, check again. */
  method StringWith(input: Bytes, index: nat, limit: Option<Limit>, load: Bytes -> bv64)
    returns (r: Result<(Span, nat), ScanError>)
    requires Scan.Loads(load) && (limit.Some? ==> limit.value.start <= index)
    ensures r == StringSpec(input, index, limit)
  {
    hide S.Step, Check, ScanEnd;
    if index >= |input| || input[index] != 0x22 {
      return Failure(Malformed);
    }
    var start := index + 1;
    var over := Check(limit, start);
    if over.Some? {
      return Failure(over.value);
    }
    var s, next := S.NewString, start;
    var scanEnd := ScanEnd(limit, |input|);
    while next < |input|
      invariant start <= next <= |input| && Check(limit, next) == None
      invariant ScanString(input, S.NewString, start, limit) == ScanString(input, s, next, limit)
    {
      WithinScan(limit, next, |input|);
      var n := Scan.Skip(s, input[next..scanEnd], load);
      PlainThere(input, next, scanEnd, n);
      SkipString(input, s, next, next + n, limit);
      next := next + n;
      over := Check(limit, next);
      if over.Some? {
        return Failure(over.value);
      }
      if next >= |input| {
        break;
      }
      var c := S.Step(s, input[next]);
      if c.Rejected? {
        return Failure(Malformed);
      }
      over := Check(limit, next + 1);
      if over.Some? {
        return Failure(over.value);
      }
      if c.Closed? {
        return Success((Span(start, next, s.removed != 0, next - start - s.removed), next + 1));
      }
      s, next := c.next, next + 1;
    }
    return Failure(Malformed);
  }

  lemma StringRunFrom(s: S.Str, input: Bytes, next: nat, end: nat)
    requires next < end <= |input|
    ensures N.Closes(s, input[next..end]) <==>
            S.Step(s, input[next]).Content? && N.Closes(S.Step(s, input[next]).next, input[next + 1..end])
  {
    hide S.Step, S.Run;
    assert input[next..end] == [input[next]] + input[next + 1..end];
    N.ClosesStep(s, input[next], input[next + 1..end]);
  }

  /** The scan finds the quote that closes the string, if it is within the limit. */
  lemma {:induction false} ScanStringExact(input: Bytes, s: S.Str, next: nat, limit: Option<Limit>, end: nat)
    requires next <= |input|
    ensures var r := ScanString(input, s, next, limit);
            (r.Success? && r.value.0 == end) <==>
            (&& next <= end < |input| && input[end] == 0x22 && N.Closes(s, input[next..end])
             && Check(limit, end + 1) == None)
    decreases |input| - next
  {
    if next < |input| {
      var c := S.Step(s, input[next]);
      N.QuoteCloses(s, input[next]);
      N.ClosesEmpty(s);
      assert input[next..next] == [];
      hide S.Step, N.Closes;
      if next < end < |input| {
        StringRunFrom(s, input, next, end);
        if Check(limit, end + 1) == None {
          EarlierFits(limit, next + 1, end + 1);
        }
      }
      if c.Content? {
        ScanStringExact(input, c.next, next + 1, limit, end);
      }
    }
  }

  lemma {:induction false} ScanStringState(input: Bytes, s: S.Str, next: nat, limit: Option<Limit>)
    requires ScanString(input, s, next, limit).Success?
    ensures var (end, last) := ScanString(input, s, next, limit).value;
            && next <= end < |input| && S.AtRest(last)
            && S.Run(s, input[next..end]).Some? && S.Run(s, input[next..end]).value.0 == last
    decreases |input| - next
  {
    var c := S.Step(s, input[next]);
    if c.Closed? {
      assert input[next..next] == [];
      N.QuoteCloses(s, input[next]);
    } else {
      hide S.Step;
      ScanStringState(input, c.next, next + 1, limit);
      var end := ScanString(input, s, next, limit).value.0;
      assert input[next..end][1..] == input[next + 1..end];
    }
  }

  /** A string scan succeeds exactly on quoted content of the grammar within the limit. */
  lemma StringsAreScanned(input: Bytes, index: nat, limit: Option<Limit>, end: nat)
    requires limit.Some? ==> limit.value.start <= index
    ensures var r := StringSpec(input, index, limit);
            (r.Success? && r.value.1 == end) <==>
            (&& index + 2 <= end <= |input| && input[index] == 0x22 && input[end - 1] == 0x22
             && StringContent(input[index + 1..end - 1]) && Check(limit, end) == None)
  {
    hide ScanString, N.Closes, StringContent;
    if index < |input| && input[index] == 0x22 {
      if end > 0 {
        ScanStringExact(input, S.NewString, index + 1, limit, end - 1);
      }
      if index + 2 <= end <= |input| {
        N.ContentCloses(input[index + 1..end - 1]);
        if Check(limit, end) == None {
          EarlierFits(limit, index + 1, end);
        }
      }
    }
  }

  /** The span delimits the content; `decodedLen` is the length it decodes to, and
      `escaped` tells exactly whether decoding changes it. */
  lemma SpansAreExact(input: Bytes, index: nat, limit: Option<Limit>)
    requires StringSpec(input, index, limit).Success?
    ensures var (span, end) := StringSpec(input, index, limit).value;
            && span.start == index + 1 <= span.end == end - 1 < |input|
            && exists x :: S.Decodes(input[span.start..span.end], x) && |x| == span.decodedLen
                           && (span.escaped <==> x != input[span.start..span.end])
  {
    ScanStringState(input, S.NewString, index + 1, limit);
    var (end, last) := ScanString(input, S.NewString, index + 1, limit).value;
    var content := input[index + 1..end];
    var x := S.Run(S.NewString, content).value.1;
    S.RemovedIsExact(content);
    S.RestedAtRest(content);
    S.StringsAreExact(content, x);
    assert S.Decodes(content, x);
  }

  // ------------------------------------------------------- atoms

  predicate AtomOver(input: Bytes, next: nat) {
    next >= |input| || N.EndsAtom(input[next])
  }

  predicate Integral(a: A.Atom) {
    a.Number? && a.value.Some?
  }

  /** Byte at a time up to a delimiter; an integer scan also stops once no value is kept. */
  function ScanAtom(input: Bytes, a: A.Atom, next: nat, limit: Option<Limit>, integer: bool)
    : Result<(A.Kind, nat), ScanError>
    decreases |input| - next
  {
    if AtomOver(input, next) then
      match A.Finish(a)
      case None => Failure(Malformed)
      case Some(kind) => Success((kind, next))
    else
      match A.Step(a, input[next])
      case None => Failure(Malformed)
      case Some(a') =>
        if integer && !Integral(a') then Failure(Malformed)
        else
          match Check(limit, next + 1)
          case Some(e) => Failure(e)
          case None => ScanAtom(input, a', next + 1, limit, integer)
  }

  function AtomSpec(input: Bytes, index: nat, limit: Option<Limit>, integer: bool): Result<(A.Kind, nat), ScanError>
    requires index < |input|
  {
    match A.New(input[index], integer)
    case None => Failure(Malformed)
    case Some(a) => ScanAtom(input, a, index, limit, integer)
  }

  method AtomWith(input: Bytes, index: nat, first: byte, limit: Option<Limit>, integer: bool)
    returns (r: Result<(A.Kind, nat), ScanError>)
    requires index < |input| && first == input[index]
    ensures r == AtomSpec(input, index, limit, integer)
  {
    hide A.Step, A.Finish, Check;
    var begun := A.New(first, integer);
    if begun.None? {
      return Failure(Malformed);
    }
    var atom, next := begun.value, index;
    while next < |input| && !N.EndsAtom(input[next])
      invariant index <= next <= |input|
      invariant AtomSpec(input, index, limit, integer) == ScanAtom(input, atom, next, limit, integer)
    {
      var stepped := A.Step(atom, input[next]);
      if stepped.None? {
        return Failure(Malformed);
      }
      atom := stepped.value;
      if integer && !Integral(atom) {
        return Failure(Malformed);
      }
      next := next + 1;
      var over := Check(limit, next);
      if over.Some? {
        return Failure(over.value);
      }
    }
    var kind := A.Finish(atom);
    if kind.None? {
      return Failure(Malformed);
    }
    return Success((kind.value, next));
  }

  predicate Whole(k: A.Kind) {
    k.Unsigned? || k.Negative?
  }

  /** Once the value is lost it stays lost. */
  lemma {:induction false} LostStaysLost(a: A.Atom, w: Bytes)
    requires !Integral(a) && A.Run(a, w).Some? && A.Finish(A.Run(a, w).value).Some?
    ensures !Whole(A.Finish(A.Run(a, w).value).value)
    decreases w
  {
    if w != [] {
      LostStaysLost(A.Step(a, w[0]).value, w[1..]);
    }
  }

  ghost predicate AtomEnds(input: Bytes, a: A.Atom, next: nat, end: nat, k: A.Kind)
    requires next <= end <= |input|
  {
    var last := A.Run(a, input[next..end]);
    last.Some? && A.Finish(last.value) == Some(k)
  }

  lemma AtomRunFrom(input: Bytes, a: A.Atom, next: nat, end: nat, k: A.Kind)
    requires next < end <= |input|
    ensures AtomEnds(input, a, next, end, k) <==>
            A.Step(a, input[next]).Some? && AtomEnds(input, A.Step(a, input[next]).value, next + 1, end, k)
  {
    assert input[next..end][0] == input[next] && input[next..end][1..] == input[next + 1..end];
  }

  lemma {:induction false} ScanAtomExact(input: Bytes, a: A.Atom, next: nat, limit: Option<Limit>, integer: bool,
                                         k: A.Kind, end: nat)
    requires next <= |input| && (integer ==> Integral(a)) && Check(limit, next) == None
    ensures ScanAtom(input, a, next, limit, integer) == Success((k, end)) <==>
            && next <= end <= |input| && AtomOver(input, end) && AtomEnds(input, a, next, end, k)
            && (integer ==> Whole(k)) && Check(limit, end) == None
    decreases |input| - next
  {
    assert input[next..next] == [];
    if !AtomOver(input, next) {
      var s := A.Step(a, input[next]);
      if next < end <= |input| {
        AtomRunFrom(input, a, next, end, k);
        if Check(limit, end) == None {
          EarlierFits(limit, next + 1, end);
        }
        if s.Some? && !Integral(s.value) && AtomEnds(input, s.value, next + 1, end, k) {
          LostStaysLost(s.value, input[next + 1..end]);
        }
      }
      if s.Some? && (integer ==> Integral(s.value)) && Check(limit, next + 1) == None {
        ScanAtomExact(input, s.value, next + 1, limit, integer, k, end);
      }
    } else if next < end <= |input| {
      AtomRunFrom(input, a, next, end, k);
      if A.Step(a, input[next]).Some? {
        A.DelimitersEndAtoms(a, input[next]);
      }
    }
  }

  /** The whole atom of the grammar between `index` and `end`. */
  ghost predicate AtomAt(input: Bytes, index: nat, end: nat, k: A.Kind, integer: bool) {
    && index < end <= |input| && AtomOver(input, end)
    && A.Denotes(input[index..end], k, integer) && (integer ==> Whole(k))
  }

  lemma RecognisedFrom(input: Bytes, index: nat, end: nat, k: A.Kind, integer: bool)
    requires index < end <= |input|
    ensures A.Denotes(input[index..end], k, integer) <==>
            A.New(input[index], integer).Some? && AtomEnds(input, A.New(input[index], integer).value, index, end, k)
  {
    A.AtomsAreExact(input[index..end], k, integer);
    assert input[index..end][0] == input[index];
  }

  lemma WordsHaveNoValue(input: Bytes, index: nat, limit: Option<Limit>, k: A.Kind, end: nat)
    requires index < |input| && A.New(input[index], true).Some? && A.New(input[index], true).value.Word?
    ensures AtomSpec(input, index, limit, true).Failure?
    ensures index <= end <= |input| && AtomEnds(input, A.New(input[index], true).value, index, end, k) ==> !Whole(k)
  {
    var a := A.New(input[index], true).value;
    if index <= end <= |input| && AtomEnds(input, a, index, end, k) {
      LostStaysLost(a, input[index..end]);
    }
  }

  /** An atom scan succeeds exactly on an atom of the grammar that is followed by a
      delimiter or the end and lies within the limit, and reports its kind; an integer
      scan succeeds exactly when that atom is an integer of at most 64 bits. */
  lemma AtomsAreScanned(input: Bytes, index: nat, limit: Option<Limit>, integer: bool, k: A.Kind, end: nat)
    requires index < |input| && Check(limit, index) == None
    ensures AtomSpec(input, index, limit, integer) == Success((k, end)) <==>
            AtomAt(input, index, end, k, integer) && Check(limit, end) == None
  {
    var begun := A.New(input[index], integer);
    if begun.Some? {
      if integer && begun.value.Word? {
        WordsHaveNoValue(input, index, limit, k, end);
      } else {
        ScanAtomExact(input, begun.value, index, limit, integer, k, end);
        assert !AtomOver(input, index);
      }
    }
    if index < end <= |input| {
      RecognisedFrom(input, index, end, k, integer);
    }
  }

  // ------------------------------------------------------- whole values

  predicate StartsAtom(b: byte) {
    b == 0x74 || b == 0x66 || b == 0x6e || b == 0x2d || A.IsDigit(b)
  }

  function EndOf<T>(r: Result<(T, nat), ScanError>): Result<nat, ScanError> {
    match r case Success(found) => Success(found.1) case Failure(e) => Failure(e)
  }

  function ValueSpec(input: Bytes, index: nat, limit: Option<Limit>, room: nat): Result<nat, ScanError> {
    if index >= |input| then Failure(Malformed)
    else if input[index] == 0x22 then EndOf(StringSpec(input, index, limit))
    else if input[index] == 0x7b || input[index] == 0x5b then GroupSpec(input, index, input[index], limit, room)
    else if StartsAtom(input[index]) then EndOf(AtomSpec(input, index, limit, false))
    else Failure(Malformed)
  }

  method ValueWith(input: Bytes, index: nat, limit: Option<Limit>, room: nat, load: Bytes -> bv64)
    returns (r: Result<nat, ScanError>)
    requires Scan.Loads(load) && room <= 128 && (limit.Some? ==> limit.value.start <= index)
    ensures r == ValueSpec(input, index, limit, room)
  {
    if index >= |input| {
      r := Failure(Malformed);
    } else if input[index] == 0x22 {
      var found := StringWith(input, index, limit, load);
      r := EndOf(found);
    } else if input[index] == 0x7b || input[index] == 0x5b {
      r := GroupAt(input, index, input[index], limit, room, load);
    } else if StartsAtom(input[index]) {
      var found := AtomWith(input, index, input[index], limit, false);
      r := EndOf(found);
    } else {
      r := Failure(Malformed);
    }
  }

  ghost predicate ValueIs(input: Bytes, index: nat, end: nat, room: nat, v: Json)
    requires index <= end <= |input|
  {
    Fits(v, room) && Text(v) == input[index..end] && (v.Atomic? ==> AtomOver(input, end))
  }

  /** A value of the grammar stands between `index` and `end`, nested at most `room` deep. */
  ghost predicate ValueAt(input: Bytes, index: nat, end: nat, room: nat) {
    index < end <= |input| && exists v :: ValueIs(input, index, end, room, v)
  }

  lemma FirstByte(v: Json, room: nat)
    requires Fits(v, room)
    ensures Text(v) != []
    ensures v.Quoted? <==> Text(v)[0] == 0x22
    ensures v.Group? <==> Text(v)[0] == 0x7b || Text(v)[0] == 0x5b
    ensures v.Atomic? ==> StartsAtom(Text(v)[0])
  {
    N.TextIsSolid(v, room);
    if v.Atomic? {
      N.AtomRecognised(v.text);
    }
  }

  lemma QuotedText(input: Bytes, index: nat, end: nat)
    requires index + 2 <= end <= |input|
    ensures input[index..end] == [input[index]] + input[index + 1..end - 1] + [input[end - 1]]
  {
  }

  /** Quoted text is a quote, its content and a quote, and only one way. */
  lemma QuotesPeel(content: Bytes, b: byte, inside: Bytes, c: byte)
    requires [0x22] + content + [0x22] == [b] + inside + [c]
    ensures b == c == 0x22 && content == inside
  {
    var x, y := [0x22] + content + [0x22], [b] + inside + [c];
    assert x[0] == 0x22 && y[0] == b && x[|x| - 1] == 0x22 && y[|y| - 1] == c;
    assert x[1..|x| - 1] == content && y[1..|y| - 1] == inside;
  }

  lemma QuotedIsValue(input: Bytes, index: nat, end: nat, room: nat)
    requires index + 2 <= end <= |input| && input[index] == 0x22 && input[end - 1] == 0x22
    requires StringContent(input[index + 1..end - 1])
    ensures ValueAt(input, index, end, room)
  {
    hide StringContent;
    QuotedText(input, index, end);
    assert ValueIs(input, index, end, room, Quoted(input[index + 1..end - 1]));
  }

  lemma ValueIsQuoted(input: Bytes, index: nat, end: nat, room: nat)
    requires ValueAt(input, index, end, room) && input[index] == 0x22
    ensures index + 2 <= end && input[end - 1] == 0x22 && StringContent(input[index + 1..end - 1])
  {
    var v :| ValueIs(input, index, end, room, v);
    FirstByte(v, room);
    assert input[index..end][0] == input[index];
    assert |input[index..end]| == |v.content| + 2;
    QuotedText(input, index, end);
    QuotesPeel(v.content, input[index], input[index + 1..end - 1], input[end - 1]);
  }

  lemma QuotedValue(input: Bytes, index: nat, end: nat, room: nat)
    requires index < end <= |input| && input[index] == 0x22
    ensures ValueAt(input, index, end, room) <==>
            index + 2 <= end && input[end - 1] == 0x22 && StringContent(input[index + 1..end - 1])
  {
    hide ValueAt, StringContent;
    if ValueAt(input, index, end, room) {
      ValueIsQuoted(input, index, end, room);
    }
    if index + 2 <= end && input[end - 1] == 0x22 && StringContent(input[index + 1..end - 1]) {
      QuotedIsValue(input, index, end, room);
    }
  }

  lemma GroupValue(input: Bytes, index: nat, end: nat, room: nat)
    requires index < end <= |input| && (input[index] == 0x7b || input[index] == 0x5b)
    ensures ValueAt(input, index, end, room) <==> exists v :: IsGroup(input[index..end], room, v)
  {
    if v :| ValueIs(input, index, end, room, v) {
      FirstByte(v, room);
      assert Text(v)[0] == input[index];
      assert IsGroup(input[index..end], room, v);
    }
    if v :| IsGroup(input[index..end], room, v) {
      assert ValueIs(input, index, end, room, v);
    }
  }

  lemma AtomValue(input: Bytes, index: nat, end: nat, room: nat)
    requires index < end <= |input| && StartsAtom(input[index])
    ensures ValueAt(input, index, end, room) <==> exists k :: AtomAt(input, index, end, k, false)
  {
    if v :| ValueIs(input, index, end, room, v) {
      FirstByte(v, room);
      assert Text(v)[0] == input[index];
      var k :| A.Denotes(v.text, k, false);
      assert AtomAt(input, index, end, k, false);
    }
    if k :| AtomAt(input, index, end, k, false) {
      assert Text(Atomic(input[index..end])) == input[index..end];
      assert ValueIs(input, index, end, room, Atomic(input[index..end]));
    }
  }

  /** Skipping a value succeeds exactly when a value of RFC 8259 nested within the depth
      starts at `index` and lies within the limit, and it ends right after that value. */
  lemma ValuesAreExact(input: Bytes, index: nat, limit: Option<Limit>, room: nat, end: nat)
    requires room <= 128 && (limit.Some? ==> limit.value.start == index)
    ensures ValueSpec(input, index, limit, room) == Success(end) <==>
            ValueAt(input, index, end, room) && Check(limit, end) == None
  {
    hide ScanGroup, ScanString, ScanAtom, Fits, Text, GroupSpec, StringSpec, AtomSpec;
    if index < |input| {
      var b := input[index];
      if b == 0x22 {
        StringsAreScanned(input, index, limit, end);
        if index < end <= |input| { QuotedValue(input, index, end, room); }
      } else if b == 0x7b || b == 0x5b {
        GroupsAreExact(input, index, b, limit, room, end);
        if index < end <= |input| { GroupValue(input, index, end, room); }
      } else if StartsAtom(b) {
        forall k ensures AtomSpec(input, index, limit, false) == Success((k, end)) <==>
                         AtomAt(input, index, end, k, false) && Check(limit, end) == None {
          AtomsAreScanned(input, index, limit, false, k, end);
        }
        if index < end <= |input| { AtomValue(input, index, end, room); }
      } else if ValueAt(input, index, end, room) {
        NoOtherStart(input, index, end, room);
      }
    }
  }

  lemma NoOtherStart(input: Bytes, index: nat, end: nat, room: nat)
    requires ValueAt(input, index, end, room)
    ensures var b := input[index]; b == 0x22 || b == 0x7b || b == 0x5b || StartsAtom(b)
  {
    var v :| ValueIs(input, index, end, room, v);
    FirstByte(v, room);
    assert Text(v)[0] == input[index];
  }

  // ------------------------------------------------------- entry points

  /** The first position from `index` on that holds no whitespace. */
  method WsAt(input: Bytes, index: nat) returns (next: nat)
    ensures index <= next && (index <= |input| ==> next <= |input| && Blank(input[index..next]))
    ensures next < |input| ==> !IsSpace(input[next])
  {
    next := index;
    while next < |input| && IsSpace(input[next])
      invariant index <= next && (index <= |input| ==> next <= |input| && Blank(input[index..next]))
    {
      assert input[index..next + 1] == input[index..next] + [input[next]];
      next := next + 1;
    }
  }

  /** Leading whitespace and one value; on failure the caller's index stays. */
  method SkipDepth(input: Bytes, index: nat, room: nat, load: Bytes -> bv64)
    returns (r: Option<ScanError>, next: nat)
    requires Scan.Loads(load) && room <= 128 && index <= |input|
    ensures r.Some? ==> next == index
    ensures r.None? <==> exists first: nat, end: nat :: Skips(input, index, first, end, room)
    ensures r.None? ==> exists first: nat :: Skips(input, index, first, next, room)
  {
    var first := WsAt(input, index);
    var found := ValueWith(input, first, None, room, load);
    forall end: nat ensures ValueSpec(input, first, None, room) == Success(end) <==> ValueAt(input, first, end, room) {
      ValuesAreExact(input, first, None, room, end);
    }
    forall first': nat, end: nat | Skips(input, index, first', end, room) ensures first' == first {
      SkipsFrom(input, index, first, first', end, room);
    }
    if found.Failure? {
      return Some(found.error), index;
    }
    assert Skips(input, index, first, found.value, room);
    return None, found.value;
  }

  ghost predicate Skips(input: Bytes, index: nat, first: nat, end: nat, room: nat) {
    index <= first <= |input| && Blank(input[index..first]) && ValueAt(input, first, end, room)
  }

  lemma BlankThere(input: Bytes, index: nat, end: nat, i: nat)
    requires index <= i < end <= |input| && Blank(input[index..end])
    ensures IsSpace(input[i])
  {
    assert input[index..end][i - index] == input[i];
  }

  lemma SkipsFrom(input: Bytes, index: nat, first: nat, first': nat, end: nat, room: nat)
    requires Skips(input, index, first', end, room)
    requires index <= first <= |input| && Blank(input[index..first]) && (first < |input| ==> !IsSpace(input[first]))
    ensures first' == first
  {
    NoOtherStart(input, first', end, room);
    if first < first' {
      BlankThere(input, index, first', first);
    } else if first' < first {
      BlankThere(input, index, first, first');
    }
  }

  /** An unsigned integer of at most 64 bits, exactly. */
  method ParseU64(input: Bytes, index: nat) returns (r: Result<A.U64, ScanError>, next: nat)
    ensures r.Failure? ==> next == index && forall end: nat, v :: !AtomAt(input, index, end, A.Unsigned(v), true)
    ensures r.Success? ==> AtomAt(input, index, next, A.Unsigned(r.value), true)
  {
    if index >= |input| || input[index] == 0x2d {
      forall end: nat, k | AtomAt(input, index, end, k, true) ensures k.Negative? {
        SignedIsNegative(input, index, end, k);
      }
      return Failure(Malformed), index;
    }
    var found := AtomWith(input, index, input[index], None, true);
    forall k, end: nat ensures found == Success((k, end)) <==> AtomAt(input, index, end, k, true) {
      AtomsAreScanned(input, index, None, true, k, end);
    }
    if found.Success? && found.value.0.Unsigned? {
      return Success(found.value.0.value), found.value.1;
    }
    return Failure(Malformed), index;
  }

  lemma MinusFirst(n: A.Num)
    requires A.ValidNum(n)
    ensures A.NumText(n) != [] && (A.NumText(n)[0] == 0x2d <==> n.minus)
  {
  }

  lemma SignedIsNegative(input: Bytes, index: nat, end: nat, k: A.Kind)
    requires index < end <= |input| && input[index] == 0x2d && A.Denotes(input[index..end], k, true) && Whole(k)
    ensures k.Negative?
  {
    var w := input[index..end];
    assert w[0] == 0x2d;
    var n :| A.ValidNum(n) && A.NumText(n) == w && A.KindOf(n, true) == k;
    MinusFirst(n);
  }
}
