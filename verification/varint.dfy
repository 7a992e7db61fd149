/** Protobuf base-128 integers, written unrolled, and length-delimited fields. */
module Varint {
  import opened Common

  const U64 := 0x1_0000_0000_0000_0000

  /** `value as u8`: the low eight bits. */
  function Low8(value: nat): byte {
    (value % 256) as byte
  }

  /** Bitwise or with 0x80. */
  function More(b: byte): byte {
    if b < 128 then b + 128 else b
  }

  /** The unrolled encoder; shifts by 7, 14, ... are divisions by powers of 128. */
  function New(value: nat): Bytes
    requires value < U64
  {
    if value <= 127 then [Low8(value)]
    else if value <= 16383 then [More(Low8(value)), Low8(value / 0x80)]
    else if value <= 2097151 then [More(Low8(value)), More(Low8(value / 0x80)), Low8(value / 0x4000)]
    else if value <= 268435455 then
      [More(Low8(value)), More(Low8(value / 0x80)), More(Low8(value / 0x4000)), Low8(value / 0x20_0000)]
    else if value <= 34359738367 then
      [More(Low8(value)), More(Low8(value / 0x80)), More(Low8(value / 0x4000)), More(Low8(value / 0x20_0000)),
       Low8(value / 0x1000_0000)]
    else if value <= 4398046511103 then
      [More(Low8(value)), More(Low8(value / 0x80)), More(Low8(value / 0x4000)), More(Low8(value / 0x20_0000)),
       More(Low8(value / 0x1000_0000)), Low8(value / 0x8_0000_0000)]
    else if value <= 562949953421311 then
      [More(Low8(value)), More(Low8(value / 0x80)), More(Low8(value / 0x4000)), More(Low8(value / 0x20_0000)),
       More(Low8(value / 0x1000_0000)), More(Low8(value / 0x8_0000_0000)), Low8(value / 0x400_0000_0000)]
    else if value <= 72057594037927935 then
      [More(Low8(value)), More(Low8(value / 0x80)), More(Low8(value / 0x4000)), More(Low8(value / 0x20_0000)),
       More(Low8(value / 0x1000_0000)), More(Low8(value / 0x8_0000_0000)), More(Low8(value / 0x400_0000_0000)),
       Low8(value / 0x2_0000_0000_0000)]
    else if value <= 9223372036854775807 then
      [More(Low8(value)), More(Low8(value / 0x80)), More(Low8(value / 0x4000)), More(Low8(value / 0x20_0000)),
       More(Low8(value / 0x1000_0000)), More(Low8(value / 0x8_0000_0000)), More(Low8(value / 0x400_0000_0000)),
       More(Low8(value / 0x2_0000_0000_0000)), Low8(value / 0x100_0000_0000_0000)]
    else
      [More(Low8(value)), More(Low8(value / 0x80)), More(Low8(value / 0x4000)), More(Low8(value / 0x20_0000)),
       More(Low8(value / 0x1000_0000)), More(Low8(value / 0x8_0000_0000)), More(Low8(value / 0x400_0000_0000)),
       More(Low8(value / 0x2_0000_0000_0000)), More(Low8(value / 0x100_0000_0000_0000)),
       Low8(value / 0x8000_0000_0000_0000)]
  }

  /** The textbook encoder: seven bits at a time, least significant first. */
  function Groups(value: nat): (b: Bytes)
    ensures b != []
  {
    if value < 128 then [value as byte]
    else [(value % 128 + 128) as byte] + Groups(value / 128)
  }

  /** A textbook decoder: the value and what follows its last group. */
  function Decode(b: Bytes): Option<(nat, Bytes)> {
    if b == [] then None
    else if b[0] < 128 then Some((b[0] as nat, b[1..]))
    else
      match Decode(b[1..])
      case None => None
      case Some((high, rest)) => Some((b[0] as nat - 128 + 128 * high, rest))
  }

  lemma {:induction false} GroupsDecode(value: nat, rest: Bytes)
    ensures Decode(Groups(value) + rest) == Some((value, rest))
  {
    if value < 128 {
      assert (Groups(value) + rest)[1..] == rest;
    } else {
      GroupsDecode(value / 128, rest);
      assert (Groups(value) + rest)[1..] == Groups(value / 128) + rest;
    }
  }

  /** No shorter encoding decodes to the same value. */
  lemma {:induction false} GroupsMinimal(value: nat, b: Bytes)
    requires Decode(b) == Some((value, []))
    ensures |Groups(value)| <= |b|
  {
    if value >= 128 {
      GroupsMinimal(value / 128, b[1..]);
    }
  }

  lemma PeelGroup(value: nat)
    ensures value >= 128 ==> Groups(value) == [More(Low8(value))] + Groups(value / 128)
    ensures value < 128 ==> Groups(value) == [Low8(value)]
  {
    assert value % 256 % 128 == value % 128;
  }

  /** The first five groups of a long value. */
  function FirstFive(value: nat): Bytes {
    [More(Low8(value)), More(Low8(value / 0x80)), More(Low8(value / 0x4000)), More(Low8(value / 0x20_0000)),
     More(Low8(value / 0x1000_0000))]
  }

  lemma UnrolledShort(value: nat)
    requires value < 0x8_0000_0000
    ensures New(value) == Groups(value)
  {
    PeelGroup(value);
    if value >= 0x80 {
      PeelGroup(value / 0x80);
      if value >= 0x4000 {
        PeelGroup(value / 0x4000);
        assert value / 0x80 / 128 == value / 0x4000;
        if value >= 0x20_0000 {
          PeelGroup(value / 0x20_0000);
          assert value / 0x4000 / 128 == value / 0x20_0000;
          PeelGroup(value / 0x1000_0000);
          assert value / 0x20_0000 / 128 == value / 0x1000_0000;
        }
      }
    }
  }

  lemma PeelFive(value: nat)
    requires value >= 0x8_0000_0000
    ensures Groups(value) == FirstFive(value) + Groups(value / 0x8_0000_0000)
  {
    assert value / 0x80 / 128 == value / 0x4000;
    assert value / 0x4000 / 128 == value / 0x20_0000;
    assert value / 0x20_0000 / 128 == value / 0x1000_0000;
    assert value / 0x1000_0000 / 128 == value / 0x8_0000_0000;
    PeelGroup(value);
    PeelGroup(value / 0x80);
    PeelGroup(value / 0x4000);
    PeelGroup(value / 0x20_0000);
    PeelGroup(value / 0x1000_0000);
  }

  lemma UnrolledLong(value: nat)
    requires 0x8_0000_0000 <= value < U64
    ensures New(value) == FirstFive(value) + New(value / 0x8_0000_0000)
  {
    var high := value / 0x8_0000_0000;
    assert high / 0x80 == value / 0x400_0000_0000;
    assert high / 0x4000 == value / 0x2_0000_0000_0000;
    assert high / 0x20_0000 == value / 0x100_0000_0000_0000;
    assert high / 0x1000_0000 == value / 0x8000_0000_0000_0000;
  }

  /** The unrolled encoder writes exactly the textbook groups. */
  lemma UnrolledIsGroups(value: nat)
    requires value < U64
    ensures New(value) == Groups(value)
  {
    if value < 0x8_0000_0000 {
      UnrolledShort(value);
    } else {
      PeelFive(value);
      UnrolledLong(value);
      UnrolledShort(value / 0x8_0000_0000);
    }
  }

  /** Every 64-bit value survives encoding, and its encoding is the shortest one. */
  lemma VarintRoundTrip(value: nat, rest: Bytes)
    requires value < U64
    ensures Decode(New(value) + rest) == Some((value, rest))
    ensures 1 <= |New(value)| <= 10
    ensures forall b :: Decode(b) == Some((value, [])) ==> |New(value)| <= |b|
  {
    UnrolledIsGroups(value);
    GroupsDecode(value, rest);
    forall b | Decode(b) == Some((value, [])) ensures |New(value)| <= |b| {
      GroupsMinimal(value, b);
    }
  }

  // ------------------------------------------------------- fields

  /** The tags a field may carry. */
  predicate AdmittedTag(tag: nat) {
    0 < tag < 0x2000_0000 && !(19000 <= tag < 20000)
  }

  /** A bytes field: nothing when empty, otherwise key, length and value. */
  function WriteField(tag: nat, value: Bytes): Bytes
    requires AdmittedTag(tag) && |value| < U64
  {
    if value == [] then [] else New(tag * 8 + 2) + New(|value|) + value
  }

  /** Reads one length-delimited field: its tag, its value, and what follows. */
  function ReadField(b: Bytes): Option<(nat, Bytes, Bytes)> {
    match Decode(b)
    case None => None
    case Some((key, afterKey)) =>
      if key % 8 != 2 then None
      else
        match Decode(afterKey)
        case None => None
        case Some((len, body)) => if |body| < len then None else Some((key / 8, body[..len], body[len..]))
  }

  lemma ReadsBack(key: Bytes, length: Bytes, tag: nat, value: Bytes, rest: Bytes)
    requires Decode(key + (length + (value + rest))) == Some((tag * 8 + 2, length + (value + rest)))
    requires Decode(length + (value + rest)) == Some((|value|, value + rest))
    ensures ReadField(key + length + value + rest) == Some((tag, value, rest))
  {
    hide Decode;
    assert key + length + value + rest == key + (length + (value + rest));
    assert (value + rest)[..|value|] == value && (value + rest)[|value|..] == rest;
  }

  /** What a reader recovers from a written field followed by anything. */
  lemma FieldRoundTrip(tag: nat, value: Bytes, rest: Bytes)
    requires AdmittedTag(tag) && |value| < U64
    ensures value != [] ==> ReadField(WriteField(tag, value) + rest) == Some((tag, value, rest))
    ensures value == [] ==> WriteField(tag, value) + rest == rest
  {
    if value != [] {
      var afterKey := New(|value|) + (value + rest);
      VarintRoundTrip(tag * 8 + 2, afterKey);
      VarintRoundTrip(|value|, value + rest);
      ReadsBack(New(tag * 8 + 2), New(|value|), tag, value, rest);
    }
  }
}
