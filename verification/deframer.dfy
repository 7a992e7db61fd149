/** gRPC length-prefixed messages: framing, and deframing across input chunks. */
module Deframer {
  import opened Common

  const HEADER_LEN := 5

  datatype Compression = Plain | Compressed

  datatype Header = Header(len: nat, mode: Compression)

  datatype Frame = Frame(payload: Bytes, mode: Compression)

  datatype Rejection = Flag(flag: byte) | Length(len: nat)

  datatype Error = BadCompressionFlag(flag: byte) | MessageTooLarge(len: nat, max: nat)

  function ErrorOf(r: Rejection, max: nat): Error {
    match r
    case Flag(flag) => BadCompressionFlag(flag)
    case Length(len) => MessageTooLarge(len, max)
  }

  // ------------------------------------------------------- the wire form

  function ToBigEndian(n: nat): (b: Bytes)
    requires n < 0x1_0000_0000
    ensures |b| == 4 && FromBigEndian(b) == n
  {
    var high, low := n / 0x1_0000, n % 0x1_0000;
    [(high / 0x100) as byte, (high % 0x100) as byte, (low / 0x100) as byte, (low % 0x100) as byte]
  }

  function FromBigEndian(b: Bytes): (n: nat)
    requires |b| == 4
    ensures n < 0x1_0000_0000
  {
    (b[0] as nat * 0x100 + b[1] as nat) * 0x1_0000 + (b[2] as nat * 0x100 + b[3] as nat)
  }

  lemma BigEndianInverse(b: Bytes)
    requires |b| == 4
    ensures ToBigEndian(FromBigEndian(b)) == b
  {
    var n := FromBigEndian(b);
    assert n / 0x1_0000 == b[0] as nat * 0x100 + b[1] as nat;
    assert n % 0x1_0000 == b[2] as nat * 0x100 + b[3] as nat;
  }

  function EncodeHeader(h: Header): (b: Bytes)
    requires h.len < 0x1_0000_0000
    ensures |b| == HEADER_LEN
  {
    [if h.mode == Plain then 0 else 1] + ToBigEndian(h.len)
  }

  function ParseHeader(b: Bytes, max: nat): Result<Header, Rejection>
    requires |b| == HEADER_LEN
  {
    if b[0] > 1 then Failure(Flag(b[0]))
    else
      var len := FromBigEndian(b[1..]);
      if len > max then Failure(Length(len))
      else Success(Header(len, if b[0] == 0 then Plain else Compressed))
  }

  /** A header is admitted exactly when it encodes a length within the limit. */
  lemma HeaderRoundTrip(b: Bytes, h: Header, max: nat)
    requires |b| == HEADER_LEN && h.len < 0x1_0000_0000
    ensures ParseHeader(b, max) == Success(h) <==> b == EncodeHeader(h) && h.len <= max
  {
    assert b == [b[0]] + b[1..];
    assert EncodeHeader(h)[1..] == ToBigEndian(h.len);
    BigEndianInverse(b[1..]);
  }

  /** The wire form in plain numbers: a flag of 0 or 1, then the length, most significant byte first;
      the flag is judged before the length. */
  lemma HeaderIsExact(b: Bytes, max: nat)
    requires |b| == HEADER_LEN
    ensures var r := ParseHeader(b, max);
            var len := 16_777_216 * b[1] as nat + 65_536 * b[2] as nat + 256 * b[3] as nat + b[4] as nat;
            && (r == Failure(Flag(b[0])) <==> b[0] != 0 && b[0] != 1)
            && (r == Failure(Length(len)) <==> (b[0] == 0 || b[0] == 1) && len > max)
            && (r == Success(Header(len, Plain)) <==> b[0] == 0 && len <= max)
            && (r == Success(Header(len, Compressed)) <==> b[0] == 1 && len <= max)
  {
    assert b[1..][0] == b[1] && b[1..][1] == b[2] && b[1..][2] == b[3] && b[1..][3] == b[4];
  }

  function Encode(frames: seq<Frame>): Bytes
    requires Encodable(frames)
  {
    if frames == [] then []
    else EncodeHeader(Header(|frames[0].payload|, frames[0].mode)) + frames[0].payload + Encode(frames[1..])
  }

  predicate Encodable(frames: seq<Frame>) {
    forall f :: f in frames ==> |f.payload| < 0x1_0000_0000
  }

  // ------------------------------------------------------- flat deframing

  /** Frames of a byte string, its unfinished tail, and the header rejection that stopped it. */
  datatype Parsed = Parsed(frames: seq<Frame>, rest: Bytes, rejected: Option<Rejection>) {
    function After(earlier: seq<Frame>): Parsed {
      Parsed(earlier + frames, rest, rejected)
    }

    lemma AfterAfter(a: seq<Frame>, b: seq<Frame>)
      ensures After(b).After(a) == After(a + b)
    {
      assert a + (b + frames) == a + b + frames;
    }
  }

  function Parse(b: Bytes, max: nat): Parsed {
    if |b| < HEADER_LEN then Parsed([], b, None)
    else
      match ParseHeader(b[..HEADER_LEN], max)
      case Failure(r) => Parsed([], b[HEADER_LEN..], Some(r))
      case Success(h) =>
        var end := HEADER_LEN + h.len;
        if |b| < end then Parsed([], b, None)
        else Parse(b[end..], max).After([Frame(b[HEADER_LEN..end], h.mode)])
  }

  lemma ParseFirst(f: Frame, rest: Bytes, max: nat)
    requires |f.payload| < 0x1_0000_0000 && |f.payload| <= max
    ensures Parse(EncodeHeader(Header(|f.payload|, f.mode)) + f.payload + rest, max)
         == Parse(rest, max).After([f])
  {
    var h := Header(|f.payload|, f.mode);
    var b := EncodeHeader(h) + f.payload + rest;
    var end := HEADER_LEN + h.len;
    assert b[..HEADER_LEN] == EncodeHeader(h);
    assert b[HEADER_LEN..end] == f.payload;
    assert b[end..] == rest;
    HeaderRoundTrip(b[..HEADER_LEN], h, max);
  }

  /** Parsing inverts framing, whatever follows the framed messages. */
  lemma {:induction false} ParseInvertsEncode(frames: seq<Frame>, tail: Bytes, max: nat)
    requires Encodable(frames) && forall f :: f in frames ==> |f.payload| <= max
    ensures Parse(Encode(frames) + tail, max)
         == Parse(tail, max).After(frames)
    decreases frames
  {
    hide ToBigEndian, FromBigEndian;
    if frames == [] {
      assert Encode(frames) + tail == tail;
      assert frames + Parse(tail, max).frames == Parse(tail, max).frames;
    } else {
      var f, rest := frames[0], Encode(frames[1..]) + tail;
      assert Encode(frames) + tail == EncodeHeader(Header(|f.payload|, f.mode)) + f.payload + rest;
      ParseFirst(f, rest, max);
      ParseInvertsEncode(frames[1..], tail, max);
      assert frames == [f] + frames[1..];
      Parse(tail, max).AfterAfter([f], frames[1..]);
    }
  }

  // ------------------------------------------------------- one step

  datatype Stage = Head(bytes: Bytes) | Body(header: Header) | Failed(rejection: Rejection)

  datatype Machine = Machine(stage: Stage, body: Option<Bytes>)

  const Idle := Machine(Head([]), None)

  datatype Step = Step(machine: Machine, input: Bytes, result: Result<Option<Frame>, Error>)

  ghost predicate Resting(m: Machine, max: nat) {
    match m.stage
    case Head(bytes) => |bytes| < HEADER_LEN && m.body.None?
    case Body(h) => 0 < h.len <= max && h.len < 0x1_0000_0000 && (m.body.Some? ==> |m.body.value| < h.len)
    case Failed(r) => m.body.None?
  }

  /** Bytes consumed towards the message in progress. */
  function Held(m: Machine): Bytes
    requires m.stage.Body? ==> m.stage.header.len < 0x1_0000_0000
  {
    match m.stage
    case Head(bytes) => bytes
    case Body(h) => EncodeHeader(h) + (if m.body.Some? then m.body.value else [])
    case Failed(_) => []
  }

  function TakeBody(h: Header, body: Option<Bytes>, input: Bytes): (s: Step)
    requires body.Some? ==> |body.value| < h.len
    ensures s.machine == Idle
         || (s.machine.stage == Body(h) && h.len > 0
             && (s.machine.body.Some? ==> |s.machine.body.value| < h.len))
  {
    var held := if body.Some? then body.value else [];
    var left := h.len - |held|;
    if h.len == 0 then Step(Idle, input, Success(Some(Frame([], h.mode))))
    else if |input| >= left then Step(Idle, input[left..], Success(Some(Frame(held + input[..left], h.mode))))
    else Step(Machine(Body(h), if input == [] then body else Some(held + input)), [], Success(None))
  }

  function NextStep(m: Machine, input: Bytes, max: nat): (s: Step)
    requires Resting(m, max)
    ensures Resting(s.machine, max)
  {
    match m.stage
    case Failed(r) => Step(m, input, Failure(ErrorOf(r, max)))
    case Body(h) => TakeBody(h, m.body, input)
    case Head(bytes) =>
      var room := HEADER_LEN - |bytes|;
      if |input| < room then Step(Machine(Head(bytes + input), None), [], Success(None))
      else
        match ParseHeader(bytes + input[..room], max)
        case Failure(r) => Step(Machine(Failed(r), None), input[room..], Failure(ErrorOf(r, max)))
        case Success(h) => TakeBody(h, None, input[room..])
  }

  /** One call either finishes the next frame, absorbs all input, or rejects a header. */
  lemma NextMeansParse(m: Machine, input: Bytes, max: nat)
    requires Resting(m, max)
    ensures var s := NextStep(m, input, max);
            var flat := Parse(Held(m) + input, max);
            && Resting(s.machine, max)
            && match s.result
               case Success(None) =>
                 s.input == [] && Held(s.machine) == Held(m) + input && !s.machine.stage.Failed?
                 && flat == Parsed([], Held(m) + input, None)
               case Success(Some(f)) =>
                 s.machine == Idle && |s.input| < |Held(m) + input|
                 && flat == Parse(s.input, max).After([f])
               case Failure(e) =>
                 && s.machine.stage.Failed? && e == ErrorOf(s.machine.stage.rejection, max)
                 && (m.stage.Failed? ==> s.machine == m && s.input == input)
                 && (!m.stage.Failed? ==> flat == Parsed([], s.input, Some(s.machine.stage.rejection)))
  {
    hide ToBigEndian, FromBigEndian, EncodeHeader;
    match m.stage {
      case Failed(_) =>
      case Body(h) => BodyMeansParse(h, m.body, input, max);
      case Head(bytes) =>
        var room := HEADER_LEN - |bytes|;
        if |input| >= room {
          HeadMeansParse(bytes + input[..room], input[room..], max);
          assert bytes + input == (bytes + input[..room]) + input[room..];
          var parsed := ParseHeader(bytes + input[..room], max);
          if parsed.Success? {
            BodyMeansParse(parsed.value, None, input[room..], max);
          }
        }
    }
  }

  lemma HeadMeansParse(header: Bytes, rest: Bytes, max: nat)
    requires |header| == HEADER_LEN
    ensures var p := ParseHeader(header, max);
            && (p.Failure? ==> Parse(header + rest, max) == Parsed([], rest, Some(p.error)))
            && (p.Success? ==> p.value.len <= max && p.value.len < 0x1_0000_0000
                               && header + rest == EncodeHeader(p.value) + [] + rest)
  {
    hide ToBigEndian, FromBigEndian;
    var parsed := ParseHeader(header, max);
    assert (header + rest)[..HEADER_LEN] == header && (header + rest)[HEADER_LEN..] == rest;
    if parsed.Success? {
      HeaderRoundTrip(header, parsed.value, max);
    }
  }

  lemma BodyFinishes(h: Header, held: Bytes, input: Bytes, max: nat)
    requires h.len < 0x1_0000_0000 && h.len <= max && |held| <= h.len <= |held| + |input|
    ensures var left := h.len - |held|;
            Parse(EncodeHeader(h) + held + input, max)
            == Parse(input[left..], max).After([Frame(held + input[..left], h.mode)])
  {
    hide ToBigEndian, FromBigEndian;
    var left := h.len - |held|;
    var payload := held + input[..left];
    assert EncodeHeader(h) + held + input == EncodeHeader(h) + payload + input[left..];
    ParseFirst(Frame(payload, h.mode), input[left..], max);
  }

  lemma BodyAbsorbs(h: Header, held: Bytes, input: Bytes, max: nat)
    requires h.len < 0x1_0000_0000 && h.len <= max && |held| + |input| < h.len
    ensures var b := EncodeHeader(h) + held + input; Parse(b, max) == Parsed([], b, None)
    ensures EncodeHeader(h) + (held + input) == EncodeHeader(h) + held + input
  {
    hide ToBigEndian, FromBigEndian;
    var b := EncodeHeader(h) + held + input;
    assert b[..HEADER_LEN] == EncodeHeader(h);
    HeaderRoundTrip(b[..HEADER_LEN], h, max);
  }

  lemma BodyMeansParse(h: Header, body: Option<Bytes>, input: Bytes, max: nat)
    requires h.len < 0x1_0000_0000 && h.len <= max && (body.Some? ==> |body.value| < h.len)
    ensures var s := TakeBody(h, body, input);
            var b := EncodeHeader(h) + (if body.Some? then body.value else []) + input;
            match s.result
            case Success(None) => s.input == [] && s.machine.stage == Body(h) && Held(s.machine) == b
                                  && Parse(b, max) == Parsed([], b, None)
            case Success(Some(f)) =>
              s.machine == Idle && |s.input| < |b| && Parse(b, max) == Parse(s.input, max).After([f])
            case Failure(_) => false
  {
    hide ToBigEndian, FromBigEndian, EncodeHeader, Parse, ParseHeader;
    var held := if body.Some? then body.value else [];
    if |held| + |input| >= h.len {
      BodyFinishes(h, held, input, max);
      if h.len == 0 {
        assert held + input[..0] == [] && input[0..] == input;
      }
    } else {
      BodyAbsorbs(h, held, input, max);
      assert input == [] ==> held + input == held;
    }
  }

  // ------------------------------------------------------- whole runs

  datatype Drained = Drained(machine: Machine, input: Bytes, frames: seq<Frame>, rejected: Option<Error>)

  /** Repeats `next` on one input until it absorbs everything or rejects a header. */
  ghost function Drain(m: Machine, input: Bytes, max: nat): (d: Drained)
    requires Resting(m, max)
    ensures Resting(d.machine, max)
    decreases |Held(m) + input|
  {
    NextMeansParse(m, input, max);
    var s := NextStep(m, input, max);
    match s.result
    case Success(None) => Drained(s.machine, s.input, [], None)
    case Failure(e) => Drained(s.machine, s.input, [], Some(e))
    case Success(Some(f)) =>
      var rest := Drain(s.machine, s.input, max);
      rest.(frames := [f] + rest.frames)
  }

  /** A run delivered what the flat parse says, and stands where it stopped. */
  ghost predicate Agrees(d: Drained, p: Parsed, max: nat) {
    && Resting(d.machine, max)
    && d.frames == p.frames
    && d.rejected == (if p.rejected.Some? then Some(ErrorOf(p.rejected.value, max)) else None)
    && (p.rejected.None? ==> Held(d.machine) == p.rest && !d.machine.stage.Failed? && d.input == [])
    && (p.rejected.Some? ==> d.machine == Machine(Failed(p.rejected.value), None))
  }

  lemma {:induction false} DrainMeansParse(m: Machine, input: Bytes, max: nat)
    requires Resting(m, max) && !m.stage.Failed?
    ensures Agrees(Drain(m, input, max), Parse(Held(m) + input, max), max)
    ensures Drain(m, input, max).rejected.Some? ==> Drain(m, input, max).input == Parse(Held(m) + input, max).rest
    decreases |Held(m) + input|
  {
    NextMeansParse(m, input, max);
    var s := NextStep(m, input, max);
    if s.result.Success? && s.result.value.Some? {
      assert Held(s.machine) + s.input == s.input;
      DrainMeansParse(s.machine, s.input, max);
    }
  }

  /** Feeding chunk after chunk, collecting every frame. */
  ghost function Feed(m: Machine, chunks: seq<Bytes>, max: nat): (d: Drained)
    requires Resting(m, max)
    ensures Resting(d.machine, max)
    decreases chunks
  {
    if chunks == [] then Drained(m, [], [], None)
    else
      var first := Drain(m, chunks[0], max);
      Joined(first, if first.rejected.Some? then first else Feed(first.machine, chunks[1..], max))
  }

  /** Parsing a longer string keeps the frames of its prefix and resumes at its tail. */
  lemma {:induction false} ParseResumes(a: Bytes, b: Bytes, max: nat)
    ensures var p := Parse(a, max);
            match p.rejected
            case Some(r) => Parse(a + b, max).frames == p.frames && Parse(a + b, max).rejected == Some(r)
            case None => Parse(a + b, max) == Parse(p.rest + b, max).After(p.frames)
    decreases |a|
  {
    if |a| < HEADER_LEN {
      assert [] + Parse(a + b, max).frames == Parse(a + b, max).frames;
    } else {
      assert (a + b)[..HEADER_LEN] == a[..HEADER_LEN];
      match ParseHeader(a[..HEADER_LEN], max) {
        case Failure(_) =>
        case Success(h) =>
          var end := HEADER_LEN + h.len;
          if |a| < end {
            assert [] + Parse(a + b, max).frames == Parse(a + b, max).frames;
          } else {
            assert (a + b)[HEADER_LEN..end] == a[HEADER_LEN..end];
            assert (a + b)[end..] == a[end..] + b;
            var first, p := [Frame(a[HEADER_LEN..end], h.mode)], Parse(a[end..], max);
            ParseResumes(a[end..], b, max);
            Parse(p.rest + b, max).AfterAfter(first, p.frames);
          }
      }
    }
  }

  function Joined(first: Drained, rest: Drained): Drained {
    if first.rejected.Some? then first else rest.(frames := first.frames + rest.frames)
  }

  lemma JoinedAgrees(first: Drained, rest: Drained, a: Bytes, b: Bytes, max: nat)
    requires Agrees(first, Parse(a, max), max)
    requires first.rejected.None? ==> Agrees(rest, Parse(Held(first.machine) + b, max), max)
    ensures Agrees(Joined(first, rest), Parse(a + b, max), max)
  {
    ParseResumes(a, b, max);
  }

  /** Whatever the chunking, feeding agrees with the flat bytes. */
  lemma {:induction false} ChunkingIsInvisible(m: Machine, chunks: seq<Bytes>, max: nat)
    requires Resting(m, max) && !m.stage.Failed?
    requires Parse(Held(m), max) == Parsed([], Held(m), None)
    ensures Agrees(Feed(m, chunks, max), Parse(Held(m) + Flatten(chunks), max), max)
    decreases chunks
  {
    if chunks == [] {
      assert Held(m) + Flatten(chunks) == Held(m);
    } else {
      var a, b := Held(m) + chunks[0], Flatten(chunks[1..]);
      assert Held(m) + Flatten(chunks) == a + b;
      DrainMeansParse(m, chunks[0], max);
      var first := Drain(m, chunks[0], max);
      var rest := Drained(m, [], [], None);
      if first.rejected.None? {
        TailIsUnfinished(a, max);
        ChunkingIsInvisible(first.machine, chunks[1..], max);
        rest := Feed(first.machine, chunks[1..], max);
      }
      JoinedAgrees(first, rest, a, b, max);
    }
  }

  lemma {:induction false} TailIsUnfinished(b: Bytes, max: nat)
    ensures var p := Parse(b, max); p.rejected.None? ==> Parse(p.rest, max) == Parsed([], p.rest, None)
    decreases |b|
  {
    if |b| >= HEADER_LEN {
      match ParseHeader(b[..HEADER_LEN], max) {
        case Failure(_) =>
        case Success(h) => if |b| >= HEADER_LEN + h.len { TailIsUnfinished(b[HEADER_LEN + h.len..], max); }
      }
    }
  }

  /** Any split of framed messages within the limit is deframed to exactly those messages. */
  lemma DeframeInvertsFrame(frames: seq<Frame>, chunks: seq<Bytes>, max: nat)
    requires Encodable(frames) && forall f :: f in frames ==> |f.payload| <= max
    requires Flatten(chunks) == Encode(frames)
    ensures var d := Feed(Idle, chunks, max);
            d.frames == frames && d.rejected == None && d.machine == Idle
  {
    assert Encode(frames) + [] == Encode(frames);
    assert frames + [] == frames;
    ParseInvertsEncode(frames, [], max);
    assert Held(Idle) + Flatten(chunks) == Flatten(chunks);
    ChunkingIsInvisible(Idle, chunks, max);
  }

  // ------------------------------------------------------- the object

  /** Carrier input, drained by the deframer. */
  class Input {
    var bytes: Bytes

    constructor (bytes: Bytes)
      ensures this.bytes == bytes
    {
      this.bytes := bytes;
    }

    method Take(n: nat) returns (taken: Bytes)
      requires n <= |bytes|
      modifies this
      ensures taken == old(bytes)[..n] && bytes == old(bytes)[n..]
    {
      taken := bytes[..n];
      bytes := bytes[n..];
    }
  }

  class Deframer {
    const max: nat
    var stage: Stage
    var body: Option<Bytes>

    constructor (max: nat)
      ensures this.max == max && Abs() == Idle && Resting(Abs(), max)
    {
      this.max := max;
      stage, body := Head([]), None;
    }

    ghost function Abs(): Machine
      reads this
    {
      Machine(stage, body)
    }

    method Next(input: Input) returns (r: Result<Option<Frame>, Error>)
      requires Resting(Abs(), max)
      modifies this, input
      ensures Step(Abs(), input.bytes, r) == NextStep(old(Abs()), old(input.bytes), max)
      ensures Resting(Abs(), max)
    {
      var header;
      match stage {
        case Failed(rejection) => return Failure(ErrorOf(rejection, max));
        case Body(h) => header := h;
        case Head(bytes) =>
          if input.bytes == [] {
            assert bytes + [] == bytes;
            return Success(None);
          }
          var room := HEADER_LEN - |bytes|;
          var filled := input.Take(if |input.bytes| < room then |input.bytes| else room);
          if |bytes + filled| < HEADER_LEN {
            stage := Head(bytes + filled);
            return Success(None);
          }
          match ParseHeader(bytes + filled, max) {
            case Failure(rejection) =>
              stage := Failed(rejection);
              return Failure(ErrorOf(rejection, max));
            case Success(h) =>
              stage := Body(h);
              header := h;
          }
      }
      var frame := NextBody(header, input);
      return Success(frame);
    }

    /** The part of `next` that runs once the header is known. */
    method NextBody(header: Header, input: Input) returns (r: Option<Frame>)
      requires stage == Body(header) && (body.Some? ==> |body.value| < header.len)
      modifies this, input
      ensures Step(Abs(), input.bytes, Success(r)) == TakeBody(header, old(body), old(input.bytes))
    {
      ghost var given := input.bytes;
      var needed := header.len;
      if needed == 0 {
        var frame := Finish(header, []);
        return Some(frame);
      }
      if input.bytes != [] {
        if body.None? && |input.bytes| >= needed {
          var payload := input.Take(needed);
          assert [] + payload == payload;
          var frame := Finish(header, payload);
          return Some(frame);
        }
        var held := if body.Some? then body.value else [];
        var left := needed - |held|;
        var moved := input.Take(if left < |input.bytes| then left else |input.bytes|);
        body := Some(held + moved);
        if |body.value| == needed {
          assert moved == given[..left] && input.bytes == given[left..];
          var payload := body.value;
          body := None;
          var frame := Finish(header, payload);
          return Some(frame);
        }
        assert moved == given && input.bytes == [];
      }
      return None;
    }

    method Finish(header: Header, payload: Bytes) returns (f: Frame)
      modifies this`stage
      ensures stage == Head([]) && f == Frame(payload, header.mode)
    {
      stage := Head([]);
      f := Frame(payload, header.mode);
    }
  }
}
