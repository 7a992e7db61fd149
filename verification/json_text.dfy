/**
 The string automaton as an object updated in place, and what a rejected byte
 leaves behind in it.
 */
module JsonText {
  import opened Common
  import opened JsonString

  /** The escape state once `b` was consumed or refused. A completed code point leaves
      its escape before it is looked at. */
  function Left(s: Str, b: byte): Escape {
    var c := Step(s, b);
    if c.Content? then c.next.escape
    else if s.escape.Hex? && IsHex(b) && s.escape.left == 1 && s.escape.high == 0 then Plain
    else s.escape
  }

  /** `b` completes a low surrogate that no high surrogate precedes. */
  predicate LoneLow(s: Str, b: byte) {
    && s.escape.Hex? && s.escape.left == 1 && s.escape.high == 0 && IsHex(b)
    && LowSurrogate(Shifted(s.escape.value, b))
  }

  /** A refused byte leaves the automaton as it was unless it completes a lone low surrogate. */
  lemma RefusalKeepsExactly(s: Str, b: byte)
    requires Step(s, b).Rejected?
    ensures Left(s, b) == s.escape <==> !LoneLow(s, b)
  {
  }

  /** The input `\udc00` is refused at its last digit, outside the escape it started. */
  lemma LoneLowForgets()
    ensures var front := [0x5c, 0x75, 0x64, 0x63, 0x30];
            var run := Run(NewString, front);
            && run.Some? && LoneLow(run.value.0, 0x30)
            && Step(run.value.0, 0x30) == Rejected
            && Left(run.value.0, 0x30) == Plain != run.value.0.escape
  {
    var s5 := Str(Hex(0xdc0, 1, 0), Settled, 5);
    LoudStep(Str(Hex(0xdc, 2, 0), Settled, 4), 0x30, s5, []);
    QuietStep(Str(Hex(0xd, 3, 0), Settled, 3), 0x63, Str(Hex(0xdc, 2, 0), Settled, 4), [0x30], s5, []);
    QuietStep(Str(Hex(0, 4, 0), Settled, 2), 0x64, Str(Hex(0xd, 3, 0), Settled, 3), [0x63] + [0x30], s5, []);
    QuietStep(Str(Start, Settled, 1), 0x75, Str(Hex(0, 4, 0), Settled, 2), [0x64] + ([0x63] + [0x30]), s5, []);
    QuietStep(NewString, 0x5c, Str(Start, Settled, 1), [0x75] + ([0x64] + ([0x63] + [0x30])), s5, []);
    assert [0x5c, 0x75, 0x64, 0x63, 0x30] == [0x5c] + ([0x75] + ([0x64] + ([0x63] + [0x30])));
  }

  /** What one call returns: nothing at the closing quote, decoded bytes, or a refusal. */
  datatype Outcome = Ended | Decoded(bytes: Bytes) | Refused

  class Text {
    var escape: Escape
    var utf8: Utf8
    var removed: int

    constructor ()
      ensures Abs() == NewString
    {
      escape, utf8, removed := Plain, Settled, 0;
    }

    function Abs(): Str
      reads this
    {
      Str(escape, utf8, removed)
    }

    method Advance(b: byte) returns (r: Outcome)
      modifies this
      ensures match Step(old(Abs()), b)
              case Closed => r == Ended && Abs() == old(Abs())
              case Content(next, decoded) => r == Decoded(decoded) && Abs() == next
              case Rejected => r == Refused && Abs() == old(Abs()).(escape := Left(old(Abs()), b))
    {
      if escape == Plain && utf8.left == 0 && b == 0x22 {
        return Ended;
      }
      var output := [];
      match escape {
        case Plain =>
          if utf8.left != 0 {
            if !(utf8.min <= b <= utf8.max) {
              return Refused;
            }
            utf8 := Utf8(utf8.left - 1, 0x80, 0xbf);
            output := [b];
          } else if b == 0x5c {
            escape := Start;
          } else if b < 0x80 {
            if b < 0x20 {
              return Refused;
            }
            output := [b];
          } else {
            var lead := Lead(b);
            if lead.None? {
              return Refused;
            }
            utf8, output := lead.value, [b];
          }
        case Start =>
          if b == 0x75 {
            escape := Hex(0, 4, 0);
          } else {
            var short := ShortEscape(b);
            if short.None? {
              return Refused;
            }
            escape, output := Plain, [short.value];
          }
        case Hex(value, left, high) =>
          if !IsHex(b) {
            return Refused;
          }
          var v := Shifted(value, b);
          if left != 1 {
            escape := Hex(v, left - 1, high);
          } else if high != 0 {
            if !LowSurrogate(v) {
              return Refused;
            }
            escape, output := Plain, Scalar(PairValue(high, v));
          } else if HighSurrogate(v) {
            escape := Slash(v);
          } else {
            escape := Plain;
            if LowSurrogate(v) {
              return Refused;
            }
            output := Scalar(v);
          }
        case Slash(high) =>
          if b != 0x5c {
            return Refused;
          }
          escape := Unicode(high);
        case Unicode(high) =>
          if b != 0x75 {
            return Refused;
          }
          escape := Hex(0, 4, high);
      }
      removed := removed + 1 - |output|;
      return Decoded(output);
    }
  }
}
