/** The bytes that the JSON automata and grammars treat alike, named by their characters. */
module JsonCharacters {
  import opened Common
  import A = JsonAtom
  import G = JsonGrammar
  import N = JsonNesting

  function Ascii(text: string): (b: Bytes)
    requires forall i :: 0 <= i < |text| ==> text[i] < 128 as char
    ensures |b| == |text|
  {
    seq(|text|, i requires 0 <= i < |text| => text[i] as byte)
  }

  predicate Among(b: byte, text: string) {
    exists i :: 0 <= i < |text| && text[i] as int == b as int
  }

  /** Whitespace, digits, exponent marks, signs and the characters that may follow an atom. */
  lemma ClassesAreNamed(b: byte)
    ensures G.IsSpace(b) <==> Among(b, " \t\n\r")
    ensures A.IsDigit(b) <==> Among(b, "0123456789")
    ensures A.IsMark(b) <==> Among(b, "eE")
    ensures A.IsSign(b) <==> Among(b, "+-")
    ensures N.EndsAtom(b) <==> Among(b, " \t\n\r,}]")
    ensures A.Delimits(b) <==> N.EndsAtom(b)
  {
    SpacesAreNamed(b);
    DigitsAreNamed(b);
    assert "eE"[0] == 'e' && "eE"[1] == 'E' && "+-"[0] == '+' && "+-"[1] == '-';
    EndsAreNamed(b);
  }

  lemma SpacesAreNamed(b: byte)
    ensures G.IsSpace(b) <==> Among(b, " \t\n\r")
  {
    var text := " \t\n\r";
    assert text[0] == ' ' && text[1] == '\t' && text[2] == '\n' && text[3] == '\r';
  }

  lemma DigitsAreNamed(b: byte)
    ensures A.IsDigit(b) <==> Among(b, "0123456789")
  {
    var text := "0123456789";
    assert forall i :: 0 <= i < 10 ==> text[i] as int == 0x30 + i;
    if A.IsDigit(b) {
      assert text[b as int - 0x30] as int == b as int;
    }
  }

  lemma EndsAreNamed(b: byte)
    ensures N.EndsAtom(b) <==> Among(b, " \t\n\r,}]")
  {
    var text := " \t\n\r,}]";
    assert text[0] == ' ' && text[1] == '\t' && text[2] == '\n' && text[3] == '\r';
    assert text[4] == ',' && text[5] == '}' && text[6] == ']';
  }

  /** The three literals. */
  lemma LiteralsAreNamed()
    ensures A.Spelling(A.True) == Ascii("true")
    ensures A.Spelling(A.False) == Ascii("false")
    ensures A.Spelling(A.Null) == Ascii("null")
  {
  }

  /** Groups, members and strings as section 2 of RFC 8259 writes them. */
  lemma PunctuationIsNamed(blank: Bytes, key: G.Key, items: G.Items)
    ensures G.Text(G.Quoted(blank)) == Ascii("\"") + blank + Ascii("\"")
    ensures G.Text(G.Group(true, blank, items)) == Ascii("{") + blank + G.ItemsText(items) + Ascii("}")
    ensures G.Text(G.Group(false, blank, items)) == Ascii("[") + blank + G.ItemsText(items) + Ascii("]")
    ensures G.KeyText(Some(key)) == key.lead + Ascii("\"") + key.content + Ascii("\"") + key.mid + Ascii(":")
    ensures items.Items? ==> G.More(items) == Ascii(",") + G.ItemsText(items)
  {
    hide Ascii, G.ItemsText;
    Single('\"');
    Single('{');
    Single('}');
    Single('[');
    Single(']');
    Single(',');
    Single(':');
    var open, close := [0x22], [0x22] + (key.mid + [0x3a]);
    assert key.lead + (open + key.content + close) == key.lead + open + key.content + close;
  }

  lemma Single(c: char)
    requires c < 128 as char
    ensures Ascii([c]) == [c as byte]
  {
  }
}
