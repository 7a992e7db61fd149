/**
 The nesting tracker: one grammar phase per open container and a token mode.
 */
module JsonNesting {
  import opened Common
  import opened JsonGrammar
  import opened Language
  import S = JsonString
  import A = JsonAtom

  // ------------------------------------------------------- the tracker

  datatype Phase =
    | ObjectOpen | ObjectKey | ObjectColon | ObjectValue | ObjectNext
    | ArrayOpen | ArrayValue | ArrayNext

  datatype Mode = Structural | InString(s: S.Str) | InAtom(a: A.Atom)
  datatype Error = Invalid | Depth

  /** What one byte does to the innermost container. */
  datatype Change =
    | Become(phase: Phase, mode: Mode)
    | Descend(phase: Phase, child: Phase)
    | Ascend
    | Fail(error: Error)

  predicate EndsAtom(b: byte) {
    IsSpace(b) || b == 0x2c || b == 0x7d || b == 0x5d
  }

  /** `phase` is where the container will stand after the value; `full` at the depth limit. */
  function Value(phase: Phase, full: bool, b: byte): Change {
    if b == 0x22 then Become(phase, InString(S.NewString))
    else if b == 0x7b || b == 0x5b then
      if full then Fail(Depth) else Descend(phase, if b == 0x7b then ObjectOpen else ArrayOpen)
    else
      match Begin(b)
      case None => Fail(Invalid)
      case Some(a) => Become(phase, InAtom(a))
  }

  /** An atom with its first byte consumed. */
  function Begin(b: byte): Option<A.Atom> {
    match A.New(b, false)
    case None => None
    case Some(a) => A.Step(a, b)
  }

  function Transition(p: Phase, full: bool, b: byte): Change {
    if IsSpace(b) then Become(p, Structural)
    else
      match p
      case ObjectOpen =>
        if b == 0x7d then Ascend else if b == 0x22 then Become(ObjectColon, InString(S.NewString)) else Fail(Invalid)
      case ObjectKey => if b == 0x22 then Become(ObjectColon, InString(S.NewString)) else Fail(Invalid)
      case ObjectColon => if b == 0x3a then Become(ObjectValue, Structural) else Fail(Invalid)
      case ObjectNext =>
        if b == 0x7d then Ascend else if b == 0x2c then Become(ObjectKey, Structural) else Fail(Invalid)
      case ArrayNext =>
        if b == 0x5d then Ascend else if b == 0x2c then Become(ArrayValue, Structural) else Fail(Invalid)
      case ObjectValue => Value(ObjectNext, full, b)
      case ArrayOpen => if b == 0x5d then Ascend else Value(ArrayNext, full, b)
      case ArrayValue => Value(ArrayNext, full, b)
  }

  function Decide(mode: Mode, p: Phase, full: bool, b: byte): Change {
    match mode
    case InString(s) =>
      (match S.Step(s, b)
       case Closed => Become(p, Structural)
       case Rejected => Fail(Invalid)
       case Content(next, _) => Become(p, InString(next)))
    case InAtom(a) =>
      if !EndsAtom(b) then
        match A.Step(a, b)
        case None => Fail(Invalid)
        case Some(next) => Become(p, InAtom(next))
      else if A.Finish(a) == None then Fail(Invalid)
      else Transition(p, full, b)
    case Structural => Transition(p, full, b)
  }

  // ------------------------------------------------------- what completes a container

  /** The texts that complete a container standing in phase `p`. */
  ghost predicate RestOf(p: Phase, room: nat, w: Bytes) {
    match p
    case ObjectOpen => OpenRest(true, room, w)
    case ObjectKey => KeyRest(room, w)
    case ObjectColon => ColonRest(room, w)
    case ObjectValue => ValueRest(true, room, w)
    case ObjectNext => NextRest(true, room, w)
    case ArrayOpen => OpenRest(false, room, w)
    case ArrayValue => ValueRest(false, room, w)
    case ArrayNext => NextRest(false, room, w)
  }

  predicate IsNext(p: Phase) { p == ObjectNext || p == ArrayNext }

  /** Content that brings the string automaton from `s` to rest. */
  predicate Closes(s: S.Str, c: Bytes) {
    var end := S.Run(s, c);
    end.Some? && S.AtRest(end.value.0)
  }

  ghost predicate StrIs(s: S.Str, p: Phase, room: nat, w: Bytes, c: Bytes, y: Bytes) {
    Closes(s, c) && RestOf(p, room, y) && w == c + ([0x22] + y)
  }

  ghost predicate StrThen(s: S.Str, p: Phase, room: nat, w: Bytes) {
    exists c, y :: StrIs(s, p, room, w, c, y)
  }

  predicate Ends(a: A.Atom, c: Bytes) {
    var end := A.Run(a, c);
    end.Some? && A.Finish(end.value).Some?
  }

  ghost predicate AtomIs(a: A.Atom, p: Phase, room: nat, w: Bytes, c: Bytes, y: Bytes) {
    Ends(a, c) && RestOf(p, room, y) && w == c + y
  }

  ghost predicate AtomThen(a: A.Atom, p: Phase, room: nat, w: Bytes) {
    exists c, y :: AtomIs(a, p, room, w, c, y)
  }

  /** The texts that complete the innermost container, token included. */
  ghost predicate Completes(mode: Mode, p: Phase, room: nat, w: Bytes) {
    match mode
    case Structural => RestOf(p, room, w)
    case InString(s) => StrThen(s, p, room, w)
    case InAtom(a) => AtomThen(a, p, room, w)
  }

  ghost predicate DescendIs(phase: Phase, child: Phase, room: nat, w: Bytes, x: Bytes, y: Bytes) {
    room > 0 && RestOf(child, room - 1, x) && RestOf(phase, room, y) && w == x + y
  }

  /** The texts that complete the container after a change. */
  ghost predicate After(change: Change, room: nat, w: Bytes) {
    match change
    case Become(phase, mode) => Completes(mode, phase, room, w)
    case Descend(phase, child) => exists x, y :: DescendIs(phase, child, room, w, x, y)
    case Ascend => w == []
    case Fail(_) => false
  }

  // ------------------------------------------------------- leading whitespace

  predicate Solid(w: Bytes) {
    w != [] && !IsSpace(w[0])
  }

  lemma SpaceMoves(b: byte, u: Bytes, ws: Bytes, x: Bytes)
    requires [b] + u == ws + x && IsSpace(b) && Blank(ws) && Solid(x)
    ensures ws != [] && Blank(ws[1..]) && u == ws[1..] + x
  {
    assert (ws + x)[0] == b && ([b] + u)[1..] == u;
    if ws != [] {
      assert (ws + x)[1..] == ws[1..] + x;
    }
  }

  lemma NoSpace(b: byte, u: Bytes, ws: Bytes, x: Bytes)
    requires [b] + u == ws + x && !IsSpace(b) && Blank(ws)
    ensures ws == [] && x == [b] + u
  {
    assert (ws + x)[0] == b && [] + x == x;
  }

  lemma SpaceAdds(b: byte, u: Bytes, ws: Bytes, x: Bytes)
    requires u == ws + x && IsSpace(b) && Blank(ws)
    ensures [b] + u == ([b] + ws) + x && Blank([b] + ws)
  {
  }

  lemma AtomRecognised(text: Bytes)
    ensures AtomText(text) <==> A.Recognise(text, false).Some?
  {
    forall k ensures A.Denotes(text, k, false) <==> A.Recognise(text, false) == Some(k) {
      A.AtomsAreExact(text, k, false);
    }
    var r := A.Recognise(text, false);
    if r.Some? {
      assert A.Denotes(text, r.value, false);
    }
  }

  /** An atom starts with a byte that starts an atom, and the rest of it ends that atom. */
  lemma AtomSplits(b: byte, c: Bytes)
    ensures AtomText([b] + c) <==> Begin(b).Some? && Ends(Begin(b).value, c)
  {
    AtomRecognised([b] + c);
    assert ([b] + c)[1..] == c;
  }

  lemma AtomBegins(b: byte)
    requires Begin(b).Some?
    ensures !IsSpace(b) && b != 0x22 && b != 0x7b && b != 0x5b
  {
  }

  lemma ContentCloses(c: Bytes)
    ensures StringContent(c) <==> Closes(S.NewString, c)
  {
    forall x ensures S.Decodes(c, x) <==> exists r :: S.Run(S.NewString, c) == Some((S.Rested(r), x)) {
      S.StringsAreExact(c, x);
    }
    var end := S.Run(S.NewString, c);
    if Closes(S.NewString, c) {
      S.RestedAtRest(c);
      assert S.Decodes(c, end.value.1);
    }
  }

  lemma TextIsSolid(v: Json, room: nat)
    requires Fits(v, room)
    ensures Solid(Text(v))
  {
    if v.Atomic? {
      AtomRecognised(v.text);
      assert v.text == [v.text[0]] + v.text[1..];
      AtomSplits(v.text[0], v.text[1..]);
      AtomBegins(v.text[0]);
    }
  }

  lemma NextSpace(keyed: bool, room: nat, b: byte, u: Bytes)
    requires IsSpace(b)
    ensures NextRest(keyed, room, [b] + u) <==> NextRest(keyed, room, u)
  {
    if after, rest :| NextIs(keyed, room, [b] + u, after, rest) {
      SpaceMoves(b, u, after, More(rest) + [Close(keyed)]);
      assert NextIs(keyed, room, u, after[1..], rest);
    }
    if after, rest :| NextIs(keyed, room, u, after, rest) {
      SpaceAdds(b, u, after, More(rest) + [Close(keyed)]);
      assert NextIs(keyed, room, [b] + u, [b] + after, rest);
    }
  }

  lemma ValueSpace(keyed: bool, room: nat, b: byte, u: Bytes)
    requires IsSpace(b)
    ensures ValueRest(keyed, room, [b] + u) <==> ValueRest(keyed, room, u)
  {
    if before, v, y :| ValueIs(keyed, room, [b] + u, before, v, y) {
      TextIsSolid(v, room);
      SpaceMoves(b, u, before, Text(v) + y);
      assert ValueIs(keyed, room, u, before[1..], v, y);
    }
    if before, v, y :| ValueIs(keyed, room, u, before, v, y) {
      SpaceAdds(b, u, before, Text(v) + y);
      assert ValueIs(keyed, room, [b] + u, [b] + before, v, y);
    }
  }

  lemma ColonSpace(room: nat, b: byte, u: Bytes)
    requires IsSpace(b)
    ensures ColonRest(room, [b] + u) <==> ColonRest(room, u)
  {
    if mid: Bytes, y: Bytes :| ColonIs(room, [b] + u, mid, y) {
      SpaceMoves(b, u, mid, [0x3a] + y);
      assert ColonIs(room, u, mid[1..], y);
    }
    if mid, y :| ColonIs(room, u, mid, y) {
      SpaceAdds(b, u, mid, [0x3a] + y);
      assert ColonIs(room, [b] + u, [b] + mid, y);
    }
  }

  lemma KeySpace(room: nat, b: byte, u: Bytes)
    requires IsSpace(b)
    ensures KeyRest(room, [b] + u) <==> KeyRest(room, u)
  {
    if lead, c, y :| KeyIs(room, [b] + u, lead, c, y) {
      SpaceMoves(b, u, lead, [0x22] + (c + ([0x22] + y)));
      assert KeyIs(room, u, lead[1..], c, y);
    }
    if lead, c, y :| KeyIs(room, u, lead, c, y) {
      SpaceAdds(b, u, lead, [0x22] + (c + ([0x22] + y)));
      assert KeyIs(room, [b] + u, [b] + lead, c, y);
    }
  }

  lemma ClosingSpace(keyed: bool, b: byte, u: Bytes)
    requires IsSpace(b)
    ensures ClosingRest(keyed, [b] + u) <==> ClosingRest(keyed, u)
  {
    if blank :| Closing(keyed, [b] + u, blank) {
      SpaceMoves(b, u, blank, [Close(keyed)]);
      assert Closing(keyed, u, blank[1..]);
    }
    if blank :| Closing(keyed, u, blank) {
      SpaceAdds(b, u, blank, [Close(keyed)]);
      assert Closing(keyed, [b] + u, [b] + blank);
    }
  }

  /** Whitespace between tokens changes nothing. */
  lemma SpaceIsQuiet(p: Phase, room: nat, b: byte, u: Bytes)
    requires IsSpace(b)
    ensures RestOf(p, room, [b] + u) <==> RestOf(p, room, u)
  {
    match p {
      case ObjectOpen => ClosingSpace(true, b, u); KeySpace(room, b, u);
      case ObjectKey => KeySpace(room, b, u);
      case ObjectColon => ColonSpace(room, b, u);
      case ObjectValue => ValueSpace(true, room, b, u);
      case ObjectNext => NextSpace(true, room, b, u);
      case ArrayOpen => ClosingSpace(false, b, u); ValueSpace(false, room, b, u);
      case ArrayValue => ValueSpace(false, room, b, u);
      case ArrayNext => NextSpace(false, room, b, u);
    }
  }

  // ------------------------------------------------------- one token at a time

  lemma ClosingByte(keyed: bool, b: byte, u: Bytes)
    requires !IsSpace(b)
    ensures ClosingRest(keyed, [b] + u) <==> b == Close(keyed) && u == []
  {
    if blank :| Closing(keyed, [b] + u, blank) {
      NoSpace(b, u, blank, [Close(keyed)]);
      assert ([b] + u)[0] == b && |[b] + u| == 1;
    }
    if b == Close(keyed) && u == [] {
      assert [b] + u == [] + [Close(keyed)];
      assert Closing(keyed, [b] + u, []);
    }
  }

  lemma NextByte(keyed: bool, room: nat, b: byte, u: Bytes)
    requires !IsSpace(b)
    ensures NextRest(keyed, room, [b] + u) <==>
            (b == Close(keyed) && u == []) || (b == 0x2c && StartRest(keyed, room, u))
  {
    assert ([b] + u)[0] == b && ([b] + u)[1..] == u;
    if NextRest(keyed, room, [b] + u) {
      var after, x := NextElim(keyed, room, [b] + u);
      NoSpace(b, u, after, x);
    }
    if (b == Close(keyed) && u == []) || (b == 0x2c && StartRest(keyed, room, u)) {
      NextMeansMore(keyed, room, [], [b] + u);
      assert [] + ([b] + u) == [b] + u;
    }
  }

  lemma ColonByte(room: nat, b: byte, u: Bytes)
    requires !IsSpace(b)
    ensures ColonRest(room, [b] + u) <==> b == 0x3a && ValueRest(true, room, u)
  {
    if mid: Bytes, y: Bytes :| ColonIs(room, [b] + u, mid, y) {
      NoSpace(b, u, mid, [0x3a] + y);
      assert ([0x3a] + y)[0] == 0x3a && ([0x3a] + y)[1..] == y;
      assert ([b] + u)[0] == b && ([b] + u)[1..] == u;
    }
    if b == 0x3a && ValueRest(true, room, u) {
      assert [b] + u == [] + ([0x3a] + u);
      assert ColonIs(room, [b] + u, [], u);
    }
  }

  lemma KeyByte(room: nat, b: byte, u: Bytes)
    requires !IsSpace(b)
    ensures KeyRest(room, [b] + u) <==> b == 0x22 && StrThen(S.NewString, ObjectColon, room, u)
  {
    assert ([b] + u)[0] == b && ([b] + u)[1..] == u;
    if lead, c, y :| KeyIs(room, [b] + u, lead, c, y) {
      var x := c + ([0x22] + y);
      NoSpace(b, u, lead, [0x22] + x);
      assert ([0x22] + x)[0] == 0x22 && ([0x22] + x)[1..] == x;
      ContentCloses(c);
      assert StrIs(S.NewString, ObjectColon, room, u, c, y);
    }
    if b == 0x22 && StrThen(S.NewString, ObjectColon, room, u) {
      var c: Bytes, y: Bytes :| StrIs(S.NewString, ObjectColon, room, u, c, y);
      ContentCloses(c);
      assert [b] + u == [] + ([0x22] + (c + ([0x22] + y)));
      assert KeyIs(room, [b] + u, [], c, y);
    }
  }

  lemma Prefixed(b: byte, u: Bytes, x: Bytes, y: Bytes)
    requires u == x + y
    ensures [b] + u == [b] + x + y
  {
  }

  /** What may follow the first byte `b` of a value. */
  ghost predicate ValueTail(keyed: bool, room: nat, b: byte, u: Bytes) {
    After(Value(if keyed then ObjectNext else ArrayNext, room == 0, b), room, u)
  }

  function NextOf(keyed: bool): Phase { if keyed then ObjectNext else ArrayNext }
  function OpenOf(keyed: bool): Phase { if keyed then ObjectOpen else ArrayOpen }

  lemma QuotedHead(keyed: bool, room: nat, content: Bytes, b: byte, u: Bytes, y: Bytes)
    requires StringContent(content) && NextRest(keyed, room, y) && [b] + u == Text(Quoted(content)) + y
    ensures b == 0x22 && StrThen(S.NewString, NextOf(keyed), room, u)
  {
    assert Text(Quoted(content)) + y == [0x22] + (content + ([0x22] + y));
    assert ([b] + u)[1..] == u && ([0x22] + (content + ([0x22] + y)))[1..] == content + ([0x22] + y);
    assert ([b] + u)[0] == b;
    ContentCloses(content);
    assert StrIs(S.NewString, NextOf(keyed), room, u, content, y);
  }

  lemma GroupHead(keyed: bool, room: nat, k: bool, blank: Bytes, items: Items, b: byte, u: Bytes, y: Bytes)
    requires Fits(Group(k, blank, items), room) && NextRest(keyed, room, y)
    requires [b] + u == Text(Group(k, blank, items)) + y
    ensures b == Open(k) && After(Descend(NextOf(keyed), OpenOf(k)), room, u)
  {
    var x := blank + ItemsText(items) + [Close(k)];
    assert Text(Group(k, blank, items)) + y == [Open(k)] + (x + y);
    assert ([b] + u)[0] == b && ([b] + u)[1..] == u && ([Open(k)] + (x + y))[1..] == x + y;
    assert Inside(k, room - 1, x, blank, items);
    OpenMeansGroup(k, room - 1, x);
    assert DescendIs(NextOf(keyed), OpenOf(k), room, u, x, y);
  }

  lemma AtomIntro(a: A.Atom, p: Phase, room: nat, w: Bytes, c: Bytes, y: Bytes)
    requires Ends(a, c) && RestOf(p, room, y) && w == c + y
    ensures AtomThen(a, p, room, w)
  {
    assert AtomIs(a, p, room, w, c, y);
  }

  lemma AtomHead(keyed: bool, room: nat, text: Bytes, b: byte, u: Bytes, y: Bytes)
    requires AtomText(text) && text != [] && NextRest(keyed, room, y) && [b] + u == text + y
    ensures Begin(b).Some? && AtomThen(Begin(b).value, NextOf(keyed), room, u)
  {
    var c := text[1..];
    assert (text + y)[0] == b && (text + y)[1..] == c + y && ([b] + u)[1..] == u;
    assert text == [b] + c;
    AtomSplits(b, c);
    AtomIntro(Begin(b).value, NextOf(keyed), room, u, c, y);
  }

  lemma ValueHead(keyed: bool, room: nat, b: byte, u: Bytes)
    requires !IsSpace(b) && ValueRest(keyed, room, [b] + u)
    ensures ValueTail(keyed, room, b, u)
  {
    var before, v, y :| ValueIs(keyed, room, [b] + u, before, v, y);
    NoSpace(b, u, before, Text(v) + y);
    match v {
      case Atomic(text) =>
        TextIsSolid(v, room);
        AtomHead(keyed, room, text, b, u, y);
        AtomBegins(b);
      case Quoted(content) => QuotedHead(keyed, room, content, b, u, y);
      case Group(k, blank, items) => GroupHead(keyed, room, k, blank, items, b, u, y);
    }
  }

  lemma ValueFound(keyed: bool, room: nat, b: byte, u: Bytes, v: Json, y: Bytes)
    requires Fits(v, room) && NextRest(keyed, room, y) && [b] + u == Text(v) + y
    ensures ValueRest(keyed, room, [b] + u)
  {
    assert [] + (Text(v) + y) == Text(v) + y;
    assert ValueIs(keyed, room, [b] + u, [], v, y);
  }

  lemma QuotedTail(keyed: bool, room: nat, u: Bytes)
    requires StrThen(S.NewString, NextOf(keyed), room, u)
    ensures ValueRest(keyed, room, [0x22] + u)
  {
    var c: Bytes, y: Bytes :| StrIs(S.NewString, NextOf(keyed), room, u, c, y);
    ContentCloses(c);
    assert [0x22] + u == Text(Quoted(c)) + y;
    ValueFound(keyed, room, 0x22, u, Quoted(c), y);
  }

  lemma GroupTail(keyed: bool, room: nat, k: bool, u: Bytes)
    requires After(Descend(NextOf(keyed), OpenOf(k)), room, u)
    ensures ValueRest(keyed, room, [Open(k)] + u)
  {
    var x, y :| DescendIs(NextOf(keyed), OpenOf(k), room, u, x, y);
    var v := GroupOf(k, room, x);
    Prefixed(Open(k), u, x, y);
    ValueFound(keyed, room, Open(k), u, v, y);
  }

  lemma GroupOf(k: bool, room: nat, x: Bytes) returns (v: Json)
    requires room > 0 && OpenRest(k, room - 1, x)
    ensures v.Group? && Fits(v, room) && Text(v) == [Open(k)] + x
  {
    OpenMeansGroup(k, room - 1, x);
    var blank, items :| Inside(k, room - 1, x, blank, items);
    v := Group(k, blank, items);
  }

  lemma AtomTail(keyed: bool, room: nat, b: byte, u: Bytes)
    requires Begin(b).Some? && AtomThen(Begin(b).value, NextOf(keyed), room, u)
    ensures ValueRest(keyed, room, [b] + u)
  {
    var c: Bytes, y: Bytes :| AtomIs(Begin(b).value, NextOf(keyed), room, u, c, y);
    AtomSplits(b, c);
    Prefixed(b, u, c, y);
    ValueFound(keyed, room, b, u, Atomic([b] + c), y);
  }

  lemma ValueByte(keyed: bool, room: nat, b: byte, u: Bytes)
    requires !IsSpace(b)
    ensures ValueRest(keyed, room, [b] + u) <==> ValueTail(keyed, room, b, u)
  {
    if ValueRest(keyed, room, [b] + u) {
      ValueHead(keyed, room, b, u);
    }
    if ValueTail(keyed, room, b, u) {
      if b == 0x22 {
        QuotedTail(keyed, room, u);
      } else if b == 0x7b {
        GroupTail(keyed, room, true, u);
      } else if b == 0x5b {
        GroupTail(keyed, room, false, u);
      } else {
        AtomTail(keyed, room, b, u);
      }
    }
  }

  /** A structural byte is taken exactly when something completes the container after it. */
  lemma TransitionExact(p: Phase, room: nat, b: byte, u: Bytes)
    ensures RestOf(p, room, [b] + u) <==> After(Transition(p, room == 0, b), room, u)
  {
    if IsSpace(b) {
      SpaceIsQuiet(p, room, b, u);
    } else {
      match p {
        case ObjectOpen => ClosingByte(true, b, u); KeyByte(room, b, u);
        case ObjectKey => KeyByte(room, b, u);
        case ObjectColon => ColonByte(room, b, u);
        case ObjectValue => ValueByte(true, room, b, u);
        case ObjectNext => NextByte(true, room, b, u);
        case ArrayOpen => ClosingByte(false, b, u); ValueByte(false, room, b, u);
        case ArrayValue => ValueByte(false, room, b, u);
        case ArrayNext => NextByte(false, room, b, u);
      }
    }
  }

  lemma ClosesStep(s: S.Str, b: byte, c: Bytes)
    ensures Closes(s, [b] + c) <==> S.Step(s, b).Content? && Closes(S.Step(s, b).next, c)
  {
    assert ([b] + c)[1..] == c;
  }

  lemma ClosesEmpty(s: S.Str)
    ensures Closes(s, []) <==> S.AtRest(s)
  {
  }

  lemma QuoteCloses(s: S.Str, b: byte)
    ensures S.Step(s, b) == S.Closed <==> b == 0x22 && S.AtRest(s)
  {
  }

  lemma StringTaken(s: S.Str, p: Phase, room: nat, b: byte, u: Bytes)
    requires StrThen(s, p, room, [b] + u)
    ensures After(Decide(InString(s), p, room == 0, b), room, u)
  {
    QuoteCloses(s, b);
    assert ([b] + u)[0] == b && ([b] + u)[1..] == u;
    var c: Bytes, y: Bytes :| StrIs(s, p, room, [b] + u, c, y);
    if c == [] {
      ClosesEmpty(s);
      assert c + ([0x22] + y) == [0x22] + y && ([0x22] + y)[1..] == y;
    } else {
      assert c[0] == b && (c + ([0x22] + y))[1..] == c[1..] + ([0x22] + y);
      assert c == [b] + c[1..];
      ClosesStep(s, b, c[1..]);
      assert StrIs(S.Step(s, b).next, p, room, u, c[1..], y);
    }
  }

  lemma StringFound(s: S.Str, p: Phase, room: nat, b: byte, u: Bytes)
    requires After(Decide(InString(s), p, room == 0, b), room, u)
    ensures StrThen(s, p, room, [b] + u)
  {
    var r := S.Step(s, b);
    if r.Closed? {
      QuoteCloses(s, b);
      ClosesEmpty(s);
      assert [b] + u == [] + ([0x22] + u);
      assert StrIs(s, p, room, [b] + u, [], u);
    } else {
      var c: Bytes, y: Bytes :| StrIs(r.next, p, room, u, c, y);
      ClosesStep(s, b, c);
      Prefixed(b, u, c, [0x22] + y);
      assert StrIs(s, p, room, [b] + u, [b] + c, y);
    }
  }

  lemma StringByte(s: S.Str, p: Phase, room: nat, b: byte, u: Bytes)
    ensures StrThen(s, p, room, [b] + u) <==> After(Decide(InString(s), p, room == 0, b), room, u)
  {
    if StrThen(s, p, room, [b] + u) { StringTaken(s, p, room, b, u); }
    if After(Decide(InString(s), p, room == 0, b), room, u) { StringFound(s, p, room, b, u); }
  }

  lemma EndsStep(a: A.Atom, b: byte, c: Bytes)
    ensures Ends(a, [b] + c) <==> A.Step(a, b).Some? && Ends(A.Step(a, b).value, c)
  {
    assert ([b] + c)[1..] == c;
  }

  lemma EndsEmpty(a: A.Atom)
    ensures Ends(a, []) <==> A.Finish(a).Some?
  {
  }

  /** After an item comes whitespace, a comma or a bracket. */
  lemma NextStarts(p: Phase, room: nat, y: Bytes)
    requires IsNext(p) && RestOf(p, room, y)
    ensures y != [] && EndsAtom(y[0])
  {
    var keyed := p == ObjectNext;
    var after, rest :| NextIs(keyed, room, y, after, rest);
    if after == [] {
      assert y == More(rest) + [Close(keyed)];
    } else {
      assert y[0] == after[0];
    }
  }

  lemma AtomExcludes(a: A.Atom, c: Bytes)
    requires Ends(a, c)
    ensures c == [] || !EndsAtom(c[0])
  {
    if c != [] {
      assert c == [c[0]] + c[1..];
      EndsStep(a, c[0], c[1..]);
      A.DelimitersEndAtoms(a, c[0]);
    }
  }

  lemma AtomHasByte(p: Phase, room: nat, b: byte, u: Bytes, c: Bytes, y: Bytes)
    requires IsNext(p) && !EndsAtom(b) && RestOf(p, room, y) && [b] + u == c + y
    ensures c != [] && c == [b] + c[1..] && u == c[1..] + y
  {
    NextStarts(p, room, y);
    assert ([b] + u)[0] == b && ([b] + u)[1..] == u;
    assert c == [] ==> c + y == y;
    assert (c + y)[0] == c[0] && (c + y)[1..] == c[1..] + y;
  }

  lemma AtomTaken(a: A.Atom, p: Phase, room: nat, b: byte, u: Bytes)
    requires IsNext(p) && !EndsAtom(b) && AtomThen(a, p, room, [b] + u)
    ensures A.Step(a, b).Some? && AtomThen(A.Step(a, b).value, p, room, u)
  {
    var c: Bytes, y: Bytes :| AtomIs(a, p, room, [b] + u, c, y);
    AtomHasByte(p, room, b, u, c, y);
    EndsStep(a, b, c[1..]);
    AtomIntro(A.Step(a, b).value, p, room, u, c[1..], y);
  }

  lemma AtomFound(a: A.Atom, p: Phase, room: nat, b: byte, u: Bytes)
    requires A.Step(a, b).Some? && AtomThen(A.Step(a, b).value, p, room, u)
    ensures AtomThen(a, p, room, [b] + u)
  {
    var c: Bytes, y: Bytes :| AtomIs(A.Step(a, b).value, p, room, u, c, y);
    EndsStep(a, b, c);
    Prefixed(b, u, c, y);
    AtomIntro(a, p, room, [b] + u, [b] + c, y);
  }

  lemma AtomGoesOn(a: A.Atom, p: Phase, room: nat, b: byte, u: Bytes)
    requires IsNext(p) && !EndsAtom(b)
    ensures AtomThen(a, p, room, [b] + u) <==> A.Step(a, b).Some? && AtomThen(A.Step(a, b).value, p, room, u)
  {
    if AtomThen(a, p, room, [b] + u) { AtomTaken(a, p, room, b, u); }
    if A.Step(a, b).Some? && AtomThen(A.Step(a, b).value, p, room, u) { AtomFound(a, p, room, b, u); }
  }

  lemma AtomStops(a: A.Atom, p: Phase, room: nat, b: byte, u: Bytes)
    requires EndsAtom(b)
    ensures AtomThen(a, p, room, [b] + u) <==> A.Finish(a).Some? && RestOf(p, room, [b] + u)
  {
    EndsEmpty(a);
    if c: Bytes, y: Bytes :| AtomIs(a, p, room, [b] + u, c, y) {
      AtomAhead(a, b, u, c, y);
    }
    if A.Finish(a).Some? && RestOf(p, room, [b] + u) {
      assert [] + ([b] + u) == [b] + u;
      AtomIntro(a, p, room, [b] + u, [], [b] + u);
    }
  }

  lemma AtomAhead(a: A.Atom, b: byte, u: Bytes, c: Bytes, y: Bytes)
    requires EndsAtom(b) && Ends(a, c) && [b] + u == c + y
    ensures c == [] && y == [b] + u
  {
    assert c + y == [b] + u && ([b] + u)[0] == b;
    assert c != [] ==> (c + y)[0] == c[0];
    AtomExcludes(a, c);
    assert [] + y == y;
  }

  predicate Fitting(mode: Mode, p: Phase) {
    mode.InAtom? ==> IsNext(p)
  }

  /** One byte of the innermost container, in every mode and phase. */
  lemma ByteExact(mode: Mode, p: Phase, room: nat, b: byte, u: Bytes)
    requires Fitting(mode, p)
    ensures Completes(mode, p, room, [b] + u) <==> After(Decide(mode, p, room == 0, b), room, u)
  {
    match mode {
      case Structural => TransitionExact(p, room, b, u);
      case InString(s) => StringByte(s, p, room, b, u);
      case InAtom(a) =>
        if EndsAtom(b) {
          AtomStops(a, p, room, b, u);
          TransitionExact(p, room, b, u);
        } else {
          AtomGoesOn(a, p, room, b, u);
        }
    }
  }

  lemma RestNotEmpty(p: Phase, room: nat, w: Bytes)
    requires RestOf(p, room, w)
    ensures w != []
  {
  }

  lemma NeverEmpty(mode: Mode, p: Phase, room: nat, w: Bytes)
    requires Completes(mode, p, room, w)
    ensures w != []
  {
    match mode {
      case Structural => RestNotEmpty(p, room, w);
      case InString(s) =>
        var c: Bytes, y: Bytes :| StrIs(s, p, room, w, c, y);
      case InAtom(a) =>
        var c: Bytes, y: Bytes :| AtomIs(a, p, room, w, c, y);
        RestNotEmpty(p, room, y);
    }
  }

  lemma DecideFits(mode: Mode, p: Phase, full: bool, b: byte)
    requires Fitting(mode, p)
    ensures var c := Decide(mode, p, full, b);
            && (c.Become? ==> Fitting(c.mode, c.phase))
            && (c.Descend? ==> !full)
  {
  }

  // ------------------------------------------------------- the stack of containers

  datatype Tracker = Tracker(stack: seq<Phase>, limit: nat, mode: Mode)

  predicate Valid(t: Tracker) {
    && 1 <= t.limit <= 128 && |t.stack| <= t.limit
    && (t.stack != [] ==> Fitting(t.mode, t.stack[|t.stack| - 1]))
  }

  function Outer(stack: seq<Phase>): seq<Phase>
    requires stack != []
  {
    stack[..|stack| - 1]
  }

  function Top(stack: seq<Phase>): Phase
    requires stack != []
  {
    stack[|stack| - 1]
  }

  function Apply(t: Tracker, c: Change): Result<Tracker, Error>
    requires t.stack != []
  {
    match c
    case Become(phase, mode) => Success(t.(stack := Outer(t.stack) + [phase], mode := mode))
    case Descend(phase, child) => Success(t.(stack := Outer(t.stack) + [phase, child], mode := Structural))
    case Ascend => Success(t.(stack := Outer(t.stack), mode := Structural))
    case Fail(error) => Failure(error)
  }

  /** One byte; nothing is accepted once every container is closed. */
  function Step(t: Tracker, b: byte): Result<Tracker, Error> {
    if t.stack == [] then Failure(Invalid)
    else Apply(t, Decide(t.mode, Top(t.stack), |t.stack| == t.limit, b))
  }

  function Start(open: byte, limit: nat): Result<Tracker, Error> {
    if limit == 0 then Failure(Depth)
    else if open == 0x7b then Success(Tracker([ObjectOpen], limit, Structural))
    else if open == 0x5b then Success(Tracker([ArrayOpen], limit, Structural))
    else Failure(Invalid)
  }

  /** A byte is refused as too deep exactly when it would open a container that one more
      level admits; with that exception the depth limit changes nothing. */
  lemma DepthIsExact(t: Tracker, b: byte)
    requires |t.stack| <= t.limit
    ensures var r, s := Step(t, b), Step(t.(limit := t.limit + 1), b);
            && (r == Failure(Depth) <==> |t.stack| == t.limit && s.Success? && |s.value.stack| == |t.stack| + 1)
            && (r != Failure(Depth) ==>
                  r == match s case Success(u) => Success(u.(limit := t.limit)) case Failure(e) => Failure(e))
  {
  }

  /** A container can be begun exactly at a bracket with a level to spare. */
  lemma StartIsExact(open: byte, limit: nat)
    ensures var r := Start(open, limit);
            && (r == Failure(Depth) <==> limit == 0)
            && (r == Failure(Invalid) <==> limit > 0 && open != '{' as byte && open != '[' as byte)
            && (r.Success? ==> |r.value.stack| == 1 && r.value.limit == limit && r.value.mode == Structural)
  {
  }

  lemma StepValid(t: Tracker, b: byte)
    requires Valid(t) && Step(t, b).Success?
    ensures Valid(Step(t, b).value) && Step(t, b).value.limit == t.limit
  {
    DecideFits(t.mode, Top(t.stack), |t.stack| == t.limit, b);
  }

  ghost function Completing(mode: Mode, p: Phase, room: nat): Lang {
    iset w: Bytes | Completes(mode, p, room, w)
  }

  ghost function Remaining(c: Change, room: nat): Lang {
    iset w: Bytes | After(c, room, w)
  }

  /** The texts that complete the containers of `stack`, innermost first. */
  ghost function Rests(stack: seq<Phase>, limit: nat): Lang
    requires |stack| <= limit
    decreases |stack|
  {
    if stack == [] then Unit
    else Then(Completing(Structural, Top(stack), limit - |stack|), Rests(Outer(stack), limit))
  }

  /** The texts that complete every open container of `t`. */
  ghost function Accepted(t: Tracker): Lang
    requires Valid(t)
  {
    if t.stack == [] then Unit
    else Then(Completing(t.mode, Top(t.stack), t.limit - |t.stack|), Rests(Outer(t.stack), t.limit))
  }

  lemma ByteLeaves(mode: Mode, p: Phase, room: nat, b: byte)
    requires Fitting(mode, p)
    ensures [] !in Completing(mode, p, room)
    ensures Quotient(Completing(mode, p, room), b) == Remaining(Decide(mode, p, room == 0, b), room)
  {
    forall w | w in Completing(mode, p, room) ensures w != [] {
      NeverEmpty(mode, p, room, w);
    }
    forall u ensures [b] + u in Completing(mode, p, room) <==> u in Remaining(Decide(mode, p, room == 0, b), room) {
      ByteExact(mode, p, room, b, u);
    }
  }

  lemma RemainingCases(c: Change, room: nat)
    ensures c.Become? ==> Remaining(c, room) == Completing(c.mode, c.phase, room)
    ensures c.Descend? && room > 0 ==>
              Remaining(c, room) ==
              Then(Completing(Structural, c.child, room - 1), Completing(Structural, c.phase, room))
    ensures c.Ascend? ==> Remaining(c, room) == Unit
    ensures c.Fail? ==> Remaining(c, room) == Nothing
  {
    if c.Descend? && room > 0 {
      DescendRemains(c.phase, c.child, room);
    }
  }

  lemma DescendRemains(phase: Phase, child: Phase, room: nat)
    requires room > 0
    ensures Remaining(Descend(phase, child), room) ==
            Then(Completing(Structural, child, room - 1), Completing(Structural, phase, room))
  {
    hide RestOf;
    var a, b := Completing(Structural, child, room - 1), Completing(Structural, phase, room);
    forall w ensures w in Remaining(Descend(phase, child), room) <==> w in Then(a, b) {
      if x, y :| DescendIs(phase, child, room, w, x, y) {
        ThenIntro(a, b, x, y);
      }
      if w in Then(a, b) {
        var x, y := ThenElim(a, b, w);
        assert DescendIs(phase, child, room, w, x, y);
      }
    }
  }

  /** What the containers of `outer` and one more in state `c` still need. */
  ghost function Needed(c: Change, room: nat, outer: seq<Phase>, limit: nat): Lang
    requires |outer| <= limit
  {
    Then(Remaining(c, room), Rests(outer, limit))
  }

  lemma BecomeNeeds(outer: seq<Phase>, limit: nat, phase: Phase, mode: Mode)
    requires Valid(Tracker(outer + [phase], limit, mode))
    ensures Needed(Become(phase, mode), limit - |outer| - 1, outer, limit)
         == Accepted(Tracker(outer + [phase], limit, mode))
  {
    RemainingCases(Become(phase, mode), limit - |outer| - 1);
    assert Outer(outer + [phase]) == outer;
  }

  lemma DescendNeeds(outer: seq<Phase>, limit: nat, phase: Phase, child: Phase)
    requires Valid(Tracker(outer + [phase, child], limit, Structural))
    ensures Needed(Descend(phase, child), limit - |outer| - 1, outer, limit)
         == Accepted(Tracker(outer + [phase, child], limit, Structural))
  {
    var room := limit - |outer| - 1;
    DescendRemains(phase, child, room);
    ThenAssociates(Completing(Structural, child, room - 1), Completing(Structural, phase, room), Rests(outer, limit));
    assert Outer(outer + [phase, child]) == outer + [phase] && Outer(outer + [phase]) == outer;
  }

  lemma AscendNeeds(outer: seq<Phase>, limit: nat, room: nat)
    requires Valid(Tracker(outer, limit, Structural))
    ensures Needed(Ascend, room, outer, limit) == Accepted(Tracker(outer, limit, Structural))
  {
    assert Remaining(Ascend, room) == Unit by { RemainingCases(Ascend, room); }
    UnitThen(Rests(outer, limit));
    assert Rests(outer, limit) == Accepted(Tracker(outer, limit, Structural));
  }

  lemma FailNeeds(error: Error, room: nat, outer: seq<Phase>, limit: nat)
    requires |outer| <= limit
    ensures Needed(Fail(error), room, outer, limit) == Nothing
  {
    RemainingCases(Fail(error), room);
    NothingThen(Rests(outer, limit));
  }

  lemma ByteNeeds(t: Tracker, b: byte)
    requires Valid(t) && t.stack != []
    ensures var room := t.limit - |t.stack|;
            var c := Decide(t.mode, Top(t.stack), room == 0, b);
            Quotient(Accepted(t), b) == Needed(c, room, Outer(t.stack), t.limit)
  {
    var p, room := Top(t.stack), t.limit - |t.stack|;
    ByteLeaves(t.mode, p, room, b);
    hide Decide, Then;
    ThenQuotient(Completing(t.mode, p, room), Rests(Outer(t.stack), t.limit), b);
  }

  lemma ChangeNeeds(c: Change, t: Tracker)
    requires Valid(t) && t.stack != [] && Apply(t, c).Success? && Valid(Apply(t, c).value)
    ensures Needed(c, t.limit - |t.stack|, Outer(t.stack), t.limit) == Accepted(Apply(t, c).value)
  {
    var outer := Outer(t.stack);
    match c {
      case Become(phase, mode) => BecomeNeeds(outer, t.limit, phase, mode);
      case Descend(phase, child) => DescendNeeds(outer, t.limit, phase, child);
      case Ascend => AscendNeeds(outer, t.limit, t.limit - |t.stack|);
      case Fail(_) =>
    }
  }

  /** One step of the tracker is exact: it takes a byte that can be completed, to a
      state that the same texts complete, and fails on every other byte. */
  lemma StepExact(t: Tracker, b: byte)
    requires Valid(t)
    ensures var next := Step(t, b);
            && (next.Success? ==> Valid(next.value) && Quotient(Accepted(t), b) == Accepted(next.value))
            && (next.Failure? ==> Quotient(Accepted(t), b) == Nothing)
  {
    if t.stack == [] {
      forall w: Bytes ensures [b] + w !in Unit {
        assert |[b] + w| > 0;
      }
    } else {
      var room := t.limit - |t.stack|;
      var c := Decide(t.mode, Top(t.stack), room == 0, b);
      ByteNeeds(t, b);
      if Step(t, b).Success? {
        StepValid(t, b);
        ChangeNeeds(c, t);
      } else {
        FailNeeds(c.error, room, Outer(t.stack), t.limit);
      }
    }
  }

  /** Stepping over all of `w`. */
  function Run(t: Tracker, w: Bytes): Result<Tracker, Error>
    decreases w
  {
    if w == [] then Success(t)
    else
      match Step(t, w[0])
      case Success(next) => Run(next, w[1..])
      case Failure(error) => Failure(error)
  }

  /** The last byte of `w`, and no byte before it, closes every container. */
  predicate CompletesAt(t: Tracker, w: Bytes) {
    Run(t, w).Success? && Run(t, w).value.stack == []
  }

  lemma AcceptedNotEmpty(t: Tracker, w: Bytes)
    requires Valid(t) && t.stack != [] && w in Accepted(t)
    ensures w != []
  {
    var p, room := Top(t.stack), t.limit - |t.stack|;
    var u, y := ThenElim(Completing(t.mode, p, room), Rests(Outer(t.stack), t.limit), w);
    NeverEmpty(t.mode, p, room, u);
  }

  lemma {:induction false} RunExact(t: Tracker, w: Bytes)
    requires Valid(t)
    ensures CompletesAt(t, w) <==> w in Accepted(t)
    decreases w
  {
    if w == [] {
      if t.stack != [] {
        forall v | v in Accepted(t) ensures v != [] {
          AcceptedNotEmpty(t, v);
        }
      }
    } else {
      assert w == [w[0]] + w[1..];
      StepExact(t, w[0]);
      assert w in Accepted(t) <==> w[1..] in Quotient(Accepted(t), w[0]);
      if Step(t, w[0]).Success? {
        RunExact(Step(t, w[0]).value, w[1..]);
      }
    }
  }

  lemma OpeningAccepted(k: bool, limit: nat)
    requires 1 <= limit <= 128
    ensures Accepted(Tracker([OpenOf(k)], limit, Structural)) == Completing(Structural, OpenOf(k), limit - 1)
  {
    ThenUnit(Completing(Structural, OpenOf(k), limit - 1));
  }

  lemma GroupsOpen(open: byte, limit: nat, w: Bytes)
    requires 1 <= limit && (open == 0x7b || open == 0x5b)
    ensures OpenRest(open == 0x7b, limit - 1, w) <==>
            exists v: Json :: v.Group? && Fits(v, limit) && Text(v) == [open] + w
  {
    var k := open == 0x7b;
    if OpenRest(k, limit - 1, w) {
      var v := GroupOf(k, limit, w);
    }
    if v: Json :| v.Group? && Fits(v, limit) && Text(v) == [open] + w {
      var x := v.blank + ItemsText(v.items) + [Close(v.keyed)];
      assert Text(v)[0] == Open(v.keyed) && Text(v)[1..] == x && ([open] + w)[1..] == w;
      assert Inside(k, limit - 1, w, v.blank, v.items);
      OpenMeansGroup(k, limit - 1, w);
    }
  }

  /** Fed the bytes after an opening bracket, the tracker reports completion at the last
      byte of `w` exactly when bracket and bytes are one object or array of the grammar
      that nests no deeper than the limit. */
  lemma NestingIsExact(open: byte, limit: nat, w: Bytes)
    requires 1 <= limit <= 128 && (open == 0x7b || open == 0x5b)
    ensures CompletesAt(Start(open, limit).value, w) <==>
            exists v: Json :: v.Group? && Fits(v, limit) && Text(v) == [open] + w
  {
    RunExact(Start(open, limit).value, w);
    OpeningAccepted(open == 0x7b, limit);
    GroupsOpen(open, limit, w);
  }
}
