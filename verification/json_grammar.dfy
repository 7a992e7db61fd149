/**
 The grammar of sections 2, 4 and 5 of RFC 8259 as concrete syntax trees, and
 what may follow inside a container once part of it has been read.
 */
module JsonGrammar {
  import opened Common
  import S = JsonString
  import A = JsonAtom

  predicate IsSpace(b: byte) {
    b == 0x20 || b == 0x09 || b == 0x0a || b == 0x0d
  }

  predicate Blank(w: Bytes) {
    forall i :: 0 <= i < |w| ==> IsSpace(w[i])
  }

  // ------------------------------------------------------- trees

  /** A value as written. `Group` is an object when `keyed`, otherwise an array;
      `blank` is the inside of a group without items. */
  datatype Json =
    | Atomic(text: Bytes)
    | Quoted(content: Bytes)
    | Group(keyed: bool, blank: Bytes, items: Items)

  /** Comma-separated elements or members, with the whitespace around each. */
  datatype Items =
    | NoItems
    | Items(key: Option<Key>, before: Bytes, value: Json, after: Bytes, rest: Items)

  datatype Key = Key(lead: Bytes, content: Bytes, mid: Bytes)

  function Open(keyed: bool): byte { if keyed then 0x7b else 0x5b }
  function Close(keyed: bool): byte { if keyed then 0x7d else 0x5d }

  function KeyText(key: Option<Key>): Bytes {
    match key
    case None => []
    case Some(Key(lead, content, mid)) => lead + ([0x22] + content + [0x22] + (mid + [0x3a]))
  }

  function Text(v: Json): Bytes
    decreases v, 0
  {
    match v
    case Atomic(text) => text
    case Quoted(content) => [0x22] + content + [0x22]
    case Group(keyed, blank, items) => [Open(keyed)] + (blank + ItemsText(items) + [Close(keyed)])
  }

  function ItemsText(items: Items): Bytes
    decreases items, 0
  {
    match items
    case NoItems => []
    case Items(key, before, value, after, rest) =>
      KeyText(key) + (before + (Text(value) + (after + More(rest))))
  }

  /** Further items after one has been read. */
  function More(rest: Items): Bytes
    decreases rest, 1
  {
    match rest
    case NoItems => []
    case Items(_, _, _, _, _) => [0x2c] + ItemsText(rest)
  }

  ghost predicate StringContent(content: Bytes) {
    exists x :: S.Decodes(content, x)
  }

  ghost predicate AtomText(text: Bytes) {
    exists k :: A.Denotes(text, k, false)
  }

  ghost predicate FitsKey(key: Option<Key>, keyed: bool) {
    && (key.Some? <==> keyed)
    && (key.Some? ==> Blank(key.value.lead) && StringContent(key.value.content) && Blank(key.value.mid))
  }

  /** `v` is well formed and nests at most `room` groups. */
  ghost predicate Fits(v: Json, room: nat) {
    match v
    case Atomic(text) => AtomText(text)
    case Quoted(content) => StringContent(content)
    case Group(keyed, blank, items) =>
      room > 0 && Blank(blank) && (items.Items? ==> blank == []) && FitsItems(items, keyed, room - 1)
  }

  ghost predicate FitsItems(items: Items, keyed: bool, room: nat) {
    match items
    case NoItems => true
    case Items(key, before, value, after, rest) =>
      FitsKey(key, keyed) && Blank(before) && Fits(value, room) && Blank(after) && FitsItems(rest, keyed, room)
  }

  // ------------------------------------------------------- what may follow

  // For each point inside a container, the texts that complete the container
  // from there, with `room` levels left for the groups inside it.

  /** After an item. */
  ghost predicate NextIs(keyed: bool, room: nat, w: Bytes, after: Bytes, rest: Items) {
    Blank(after) && FitsItems(rest, keyed, room) && w == after + (More(rest) + [Close(keyed)])
  }

  ghost predicate NextRest(keyed: bool, room: nat, w: Bytes) {
    exists after, rest :: NextIs(keyed, room, w, after, rest)
  }

  /** Before the value of an item. */
  ghost predicate ValueIs(keyed: bool, room: nat, w: Bytes, before: Bytes, v: Json, y: Bytes) {
    Blank(before) && Fits(v, room) && NextRest(keyed, room, y) && w == before + (Text(v) + y)
  }

  ghost predicate ValueRest(keyed: bool, room: nat, w: Bytes) {
    exists before, v, y :: ValueIs(keyed, room, w, before, v, y)
  }

  /** Between a key and its colon. */
  ghost predicate ColonIs(room: nat, w: Bytes, mid: Bytes, y: Bytes) {
    Blank(mid) && ValueRest(true, room, y) && w == mid + ([0x3a] + y)
  }

  ghost predicate ColonRest(room: nat, w: Bytes) {
    exists mid, y :: ColonIs(room, w, mid, y)
  }

  /** Before a key. */
  ghost predicate KeyIs(room: nat, w: Bytes, lead: Bytes, content: Bytes, y: Bytes) {
    Blank(lead) && StringContent(content) && ColonRest(room, y) && w == lead + ([0x22] + (content + ([0x22] + y)))
  }

  ghost predicate KeyRest(room: nat, w: Bytes) {
    exists lead, content, y :: KeyIs(room, w, lead, content, y)
  }

  /** Before an item. */
  ghost predicate StartRest(keyed: bool, room: nat, w: Bytes) {
    if keyed then KeyRest(room, w) else ValueRest(false, room, w)
  }

  ghost predicate Closing(keyed: bool, w: Bytes, blank: Bytes) {
    Blank(blank) && w == blank + [Close(keyed)]
  }

  ghost predicate ClosingRest(keyed: bool, w: Bytes) {
    exists blank :: Closing(keyed, w, blank)
  }

  /** After the opening bracket. */
  ghost predicate OpenRest(keyed: bool, room: nat, w: Bytes) {
    ClosingRest(keyed, w) || StartRest(keyed, room, w)
  }

  // ------------------------------------------------------- items and rests agree

  /** All items of a container, up to and with its closing bracket. */
  ghost predicate Filled(keyed: bool, room: nat, w: Bytes, items: Items) {
    items.Items? && FitsItems(items, keyed, room) && w == ItemsText(items) + [Close(keyed)]
  }

  lemma Regrouped(a: Bytes, b: Bytes, c: Bytes, d: Bytes, e: Bytes, f: Bytes)
    ensures a + (b + (c + (d + e))) + f == a + (b + (c + (d + (e + f))))
  {
    assert d + e + f == d + (e + f);
    assert c + (d + e) + f == c + (d + e + f);
    assert b + (c + (d + e)) + f == b + (c + (d + e) + f);
  }

  lemma KeyTextThen(k: Key, y: Bytes)
    ensures KeyText(Some(k)) + y == k.lead + ([0x22] + (k.content + ([0x22] + (k.mid + ([0x3a] + y)))))
  {
    var q: Bytes := [0x22];
    Regrouped(k.lead, q, k.content, q, k.mid + [0x3a], y);
    assert k.mid + [0x3a] + y == k.mid + ([0x3a] + y);
    assert q + k.content + q + (k.mid + [0x3a]) == q + (k.content + (q + (k.mid + [0x3a])));
  }

  lemma KeyIntro(room: nat, k: Key, y: Bytes)
    requires FitsKey(Some(k), true) && ValueRest(true, room, y)
    ensures KeyRest(room, KeyText(Some(k)) + y)
  {
    hide ValueRest, StringContent, KeyText;
    KeyTextThen(k, y);
    var z := k.mid + ([0x3a] + y);
    assert ColonIs(room, z, k.mid, y);
    assert KeyIs(room, KeyText(Some(k)) + y, k.lead, k.content, z);
  }

  lemma KeyElim(room: nat, w: Bytes) returns (k: Key, y: Bytes)
    requires KeyRest(room, w)
    ensures FitsKey(Some(k), true) && ValueRest(true, room, y) && w == KeyText(Some(k)) + y
  {
    hide ValueRest, StringContent, KeyText;
    var lead, content, z :| KeyIs(room, w, lead, content, z);
    var mid;
    mid, y :| ColonIs(room, z, mid, y);
    k := Key(lead, content, mid);
    KeyTextThen(k, y);
  }

  lemma ItemTextThen(items: Items, end: Bytes)
    requires items.Items?
    ensures ItemsText(items) + end ==
            KeyText(items.key) + (items.before + (Text(items.value) + (items.after + (More(items.rest) + end))))
  {
    Regrouped(KeyText(items.key), items.before, Text(items.value), items.after, More(items.rest), end);
  }

  lemma ItemElim(keyed: bool, room: nat, key: Option<Key>, y: Bytes, w: Bytes) returns (items: Items)
    requires FitsKey(key, keyed) && ValueRest(keyed, room, y) && w == KeyText(key) + y
    ensures Filled(keyed, room, w, items)
  {
    hide ItemsText, Text, More, KeyText;
    var before, v, z :| ValueIs(keyed, room, y, before, v, z);
    var after, rest :| NextIs(keyed, room, z, after, rest);
    items := Items(key, before, v, after, rest);
    ItemTextThen(items, [Close(keyed)]);
  }

  lemma ItemIntro(keyed: bool, room: nat, w: Bytes, items: Items) returns (y: Bytes)
    requires Filled(keyed, room, w, items)
    ensures FitsKey(items.key, keyed) && ValueRest(keyed, room, y) && w == KeyText(items.key) + y
  {
    hide ItemsText, Text, More, KeyText;
    var Items(key, before, v, after, rest) := items;
    var z := after + (More(rest) + [Close(keyed)]);
    assert NextIs(keyed, room, z, after, rest);
    y := before + (Text(v) + z);
    assert ValueIs(keyed, room, y, before, v, z);
    ItemTextThen(items, [Close(keyed)]);
  }

  /** A container ready for an item goes on with items up to its end. */
  lemma StartMeansItems(keyed: bool, room: nat, w: Bytes)
    ensures StartRest(keyed, room, w) <==> exists items :: Filled(keyed, room, w, items)
  {
    if StartRest(keyed, room, w) {
      if keyed {
        var k, y := KeyElim(room, w);
        var items := ItemElim(true, room, Some(k), y, w);
      } else {
        assert w == KeyText(None) + w;
        var items := ItemElim(false, room, None, w, w);
      }
    }
    if items :| Filled(keyed, room, w, items) {
      var y := ItemIntro(keyed, room, w, items);
      if keyed {
        KeyIntro(room, items.key.value, y);
      } else {
        assert KeyText(items.key) == [] && w == y;
      }
    }
  }

  /** After an item comes the closing bracket, or a comma and another item. */
  lemma NextMeansMore(keyed: bool, room: nat, after: Bytes, u: Bytes)
    requires Blank(after)
    ensures u == [Close(keyed)] ==> NextRest(keyed, room, after + u)
    ensures u != [] && u[0] == 0x2c && StartRest(keyed, room, u[1..]) ==> NextRest(keyed, room, after + u)
  {
    if u == [Close(keyed)] {
      assert NextIs(keyed, room, after + u, after, NoItems);
    } else if u != [] && u[0] == 0x2c && StartRest(keyed, room, u[1..]) {
      StartMeansItems(keyed, room, u[1..]);
      var items :| Filled(keyed, room, u[1..], items);
      assert u == [0x2c] + u[1..];
      assert [0x2c] + (ItemsText(items) + [Close(keyed)]) == [0x2c] + ItemsText(items) + [Close(keyed)];
      assert NextIs(keyed, room, after + u, after, items);
    }
  }

  lemma NextElim(keyed: bool, room: nat, w: Bytes) returns (after: Bytes, u: Bytes)
    requires NextRest(keyed, room, w)
    ensures Blank(after) && w == after + u
    ensures u == [Close(keyed)] || (u != [] && u[0] == 0x2c && StartRest(keyed, room, u[1..]))
  {
    var rest;
    after, rest :| NextIs(keyed, room, w, after, rest);
    u := More(rest) + [Close(keyed)];
    if rest.Items? {
      assert u == [0x2c] + (ItemsText(rest) + [Close(keyed)]);
      assert Filled(keyed, room, u[1..], rest);
      StartMeansItems(keyed, room, u[1..]);
    }
  }

  ghost predicate Inside(keyed: bool, room: nat, w: Bytes, blank: Bytes, items: Items) {
    && Blank(blank) && (items.Items? ==> blank == []) && FitsItems(items, keyed, room)
    && w == blank + ItemsText(items) + [Close(keyed)]
  }

  lemma OpenIsGroup(keyed: bool, room: nat, w: Bytes) returns (blank: Bytes, items: Items)
    requires OpenRest(keyed, room, w)
    ensures Inside(keyed, room, w, blank, items)
  {
    hide StartRest, Filled;
    if ClosingRest(keyed, w) {
      items := NoItems;
      blank :| Closing(keyed, w, blank);
      assert blank + ItemsText(items) == blank;
    } else {
      StartMeansItems(keyed, room, w);
      blank := [];
      items :| Filled(keyed, room, w, items);
      FilledIsInside(keyed, room, w, items);
    }
  }

  lemma FilledIsInside(keyed: bool, room: nat, w: Bytes, items: Items)
    ensures Filled(keyed, room, w, items) <==> items.Items? && Inside(keyed, room, w, [], items)
  {
    hide ItemsText, FitsItems;
    assert [] + ItemsText(items) == ItemsText(items);
  }

  lemma GroupIsOpen(keyed: bool, room: nat, w: Bytes, blank: Bytes, items: Items)
    requires Inside(keyed, room, w, blank, items)
    ensures OpenRest(keyed, room, w)
  {
    hide StartRest, Filled;
    if items == NoItems {
      assert blank + ItemsText(items) == blank;
      assert Closing(keyed, w, blank);
    } else {
      assert blank == [];
      FilledIsInside(keyed, room, w, items);
      StartMeansItems(keyed, room, w);
    }
  }

  /** A container just opened goes on with the inside of some group. */
  lemma OpenMeansGroup(keyed: bool, room: nat, w: Bytes)
    ensures OpenRest(keyed, room, w) <==> exists blank, items :: Inside(keyed, room, w, blank, items)
  {
    hide OpenRest, Inside;
    if OpenRest(keyed, room, w) {
      var blank, items := OpenIsGroup(keyed, room, w);
    }
    if blank, items :| Inside(keyed, room, w, blank, items) {
      GroupIsOpen(keyed, room, w, blank, items);
    }
  }
}
