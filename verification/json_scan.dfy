/**
 Two fast forms of the string automaton: the word-at-a-time skip over plain
 ASCII, and the unchecked replay of content that was admitted before.
 */
module JsonScan {
  import opened Common
  import opened JsonString

  // ------------------------------------------------------- eight bytes at once

  const HIGH: bv64 := 0x8080_8080_8080_8080
  const ONES: bv64 := 0x0101_0101_0101_0101
  const QUOTES: bv64 := 0x2222_2222_2222_2222
  const SLASHES: bv64 := 0x5c5c_5c5c_5c5c_5c5c
  const SPACES: bv64 := 0x2020_2020_2020_2020

  /** No lane of `word` needs attention; subtractions wrap. */
  predicate PlainWord(word: bv64, ascii: bool) {
    var quote, slash := word ^ QUOTES, word ^ SLASHES;
    (((word - SPACES) & !word) | ((quote - ONES) & !quote) | ((slash - ONES) & !slash)
     | (if ascii then word else 0)) & HIGH == 0
  }

  function Lane(word: bv64, i: nat): bv8
    requires i < 8
  {
    match i
    case 0 => (word & 0xff) as bv8
    case 1 => ((word >> 8) & 0xff) as bv8
    case 2 => ((word >> 16) & 0xff) as bv8
    case 3 => ((word >> 24) & 0xff) as bv8
    case 4 => ((word >> 32) & 0xff) as bv8
    case 5 => ((word >> 40) & 0xff) as bv8
    case 6 => ((word >> 48) & 0xff) as bv8
    case _ => ((word >> 56) & 0xff) as bv8
  }

  predicate PlainLane(b: bv8, ascii: bool) {
    0x20 <= b && b != 0x22 && b != 0x5c && (ascii ==> b < 0x80)
  }

  predicate PlainByte(b: byte, ascii: bool) {
    0x20 <= b && b != 0x22 && b != 0x5c && (ascii ==> b < 0x80)
  }

  predicate AllLanes(word: bv64, ascii: bool) {
    && PlainLane(Lane(word, 0), ascii) && PlainLane(Lane(word, 1), ascii)
    && PlainLane(Lane(word, 2), ascii) && PlainLane(Lane(word, 3), ascii)
    && PlainLane(Lane(word, 4), ascii) && PlainLane(Lane(word, 5), ascii)
    && PlainLane(Lane(word, 6), ascii) && PlainLane(Lane(word, 7), ascii)
  }

  /** Borrows between lanes never change the verdict on the whole word. */
  lemma AsciiWordMeansLanes(word: bv64)
    ensures PlainWord(word, true) <==> AllLanes(word, true)
  {
  }

  lemma WordMeansLanes(word: bv64)
    ensures PlainWord(word, false) <==> AllLanes(word, false)
  {
  }

  lemma LaneMeansByte(b: bv8, ascii: bool)
    ensures PlainLane(b, ascii) <==> PlainByte(b as byte, ascii)
  {
  }

  /** `word` holds the eight bytes of `c`. */
  ghost predicate Packs(word: bv64, c: Bytes) {
    |c| == 8 && forall i :: 0 <= i < 8 ==> Lane(word, i) as byte == c[i]
  }

  /** `load` reads eight bytes of memory as one word; the byte order plays no role. */
  ghost predicate Loads(load: Bytes -> bv64) {
    forall c: Bytes :: |c| == 8 ==> Packs(load(c), c)
  }

  ghost predicate AllPlain(c: Bytes, ascii: bool) {
    forall i :: 0 <= i < |c| ==> PlainByte(c[i], ascii)
  }

  lemma PlainWordMeansBytes(word: bv64, c: Bytes, ascii: bool)
    requires Packs(word, c)
    ensures PlainWord(word, ascii) <==> AllPlain(c, ascii)
  {
    if ascii { AsciiWordMeansLanes(word); } else { WordMeansLanes(word); }
    forall i | 0 <= i < 8 ensures PlainLane(Lane(word, i), ascii) <==> PlainByte(c[i], ascii) {
      LaneMeansByte(Lane(word, i), ascii);
    }
    assert AllLanes(word, ascii) <==> forall i :: 0 <= i < 8 ==> PlainLane(Lane(word, i), ascii);
  }

  // ------------------------------------------------------- skipping

  /** A plain ASCII byte at rest changes nothing and stands for itself. */
  lemma PlainByteIsQuiet(s: Str, b: byte)
    requires AtRest(s)
    ensures PlainByte(b, true) <==> Step(s, b) == Content(s, [b]) && b < 0x80
  {
  }

  lemma {:induction false} PlainRunIsQuiet(s: Str, c: Bytes)
    requires AtRest(s) && AllPlain(c, true)
    ensures Run(s, c) == Some((s, c))
    decreases c
  {
    if c != [] {
      PlainByteIsQuiet(s, c[0]);
      PlainRunIsQuiet(s, c[1..]);
      assert [c[0]] + c[1..] == c;
    }
  }

  /** The longest run that leaves the automaton as it is: whole words first, then bytes. */
  method Skip(s: Str, chunk: Bytes, load: Bytes -> bv64) returns (n: nat)
    requires Loads(load)
    ensures n <= |chunk| && AllPlain(chunk[..n], true)
    ensures Run(s, chunk[..n]) == Some((s, chunk[..n]))
    ensures AtRest(s) && n < |chunk| ==> !PlainByte(chunk[n], true)
    ensures !AtRest(s) ==> n == 0
  {
    if !AtRest(s) {
      return 0;
    }
    n := 0;
    while n + 8 <= |chunk| && PlainWord(load(chunk[n..n + 8]), true)
      invariant n <= |chunk| && AllPlain(chunk[..n], true)
    {
      var c := chunk[n..n + 8];
      PlainWordMeansBytes(load(c), c, true);
      assert chunk[..n + 8] == chunk[..n] + c;
      n := n + 8;
    }
    while n < |chunk| && PlainByte(chunk[n], true)
      invariant n <= |chunk| && AllPlain(chunk[..n], true)
    {
      n := n + 1;
    }
    PlainRunIsQuiet(s, chunk[..n]);
  }

  // ------------------------------------------------------- admitted replay

  function ReplayDigit(b: byte): nat {
    b as nat % 16 + 9 * (b as nat / 64)
  }

  /** One byte of content without validation: UTF-8 state is not kept, and what the
      checked automaton rejects falls through to some value. */
  function Replay(e: Escape, b: byte): (Escape, Bytes) {
    match e
    case Plain => if b == 0x5c then (Start, []) else (Plain, [b])
    case Start =>
      if b == 0x75 then (Hex(0, 4, 0), [])
      else (Plain, [match ShortEscape(b) case Some(c) => c case None => 0])
    case Hex(value, left, high) =>
      var v := value % 0x1000 * 16 + ReplayDigit(b) % 16;
      if left != 1 then (Hex(v, left - 1, high), [])
      else if high != 0 then (Plain, Scalar(PairValue(high, v)))
      else if HighSurrogate(v) then (Slash(v), [])
      else (Plain, Scalar(v))
    case Slash(high) => (Unicode(high), [])
    case Unicode(high) => (Hex(0, 4, high), [])
  }

  /** Consuming all of `w`; a quote outside an escape would close the string. */
  function ReplayRun(e: Escape, w: Bytes): Option<(Escape, Bytes)>
    decreases w
  {
    if w == [] then Some((e, []))
    else if e == Plain && w[0] == 0x22 then None
    else
      var (next, decoded) := Replay(e, w[0]);
      match ReplayRun(next, w[1..])
      case Some((end, rest)) => Some((end, decoded + rest))
      case None => None
  }

  lemma ReplayStep(s: Str, b: byte)
    requires Step(s, b).Content? && s.utf8.min >= 0x80
    ensures var c := Step(s, b);
            && Replay(s.escape, b) == (c.next.escape, c.decoded)
            && !(s.escape == Plain && b == 0x22) && c.next.utf8.min >= 0x80
  {
    if s.escape.Hex? {
      HexDigitBranchFree(b);
    }
  }

  /** On content the checked automaton accepts, the replay decodes the same bytes
      and stands in the same escape. */
  lemma {:induction false} ReplayAgrees(s: Str, w: Bytes)
    requires s.utf8.min >= 0x80 && Run(s, w).Some?
    ensures var (end, decoded) := Run(s, w).value;
            ReplayRun(s.escape, w) == Some((end.escape, decoded))
    decreases w
  {
    if w != [] {
      ReplayStep(s, w[0]);
      ReplayAgrees(Step(s, w[0]).next, w[1..]);
    }
  }
}
