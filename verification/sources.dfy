/**
 HTTP/3 segmented byte sources: cursors, spans and bounded traversals over
 chunks that may be empty or fewer than announced.
 */
module Sources {
  import opened Common

  /** The chunk that `fill` would leave current. */
  function Front(current: Bytes, chunks: seq<Bytes>): Bytes
    decreases chunks
  {
    if current != [] || chunks == [] then current else Front(chunks[0], chunks[1..])
  }

  /** A cloned cursor: iterator state only, no payload. */
  datatype Snapshot = Snapshot(chunks: seq<Bytes>, current: Bytes, remaining: nat) {
    ghost function Data(): Bytes {
      current + Flatten(chunks)
    }
  }

  class Cursor {
    var chunks: seq<Bytes>
    var current: Bytes
    var remaining: nat

    constructor (chunks: seq<Bytes>, left: nat)
      ensures Data() == Flatten(chunks) && remaining == left
    {
      this.chunks, current, remaining := chunks, [], left;
      new;
      assert [] + Flatten(chunks) == Flatten(chunks);
    }

    constructor Clone(from: Snapshot)
      ensures Capture() == from
    {
      chunks, current, remaining := from.chunks, from.current, from.remaining;
    }

    function Capture(): Snapshot
      reads this
    {
      Snapshot(chunks, current, remaining)
    }

    /** The bytes the underlying chunks still hold. */
    ghost function Data(): Bytes
      reads this
    {
      current + Flatten(chunks)
    }

    /** Moves to the next non-empty chunk, or records exhaustion. */
    method Fill()
      modifies this
      ensures Data() == old(Data())
      ensures old(remaining) == 0 ==> Capture() == old(Capture())
      ensures remaining == (if old(Data()) == [] then 0 else old(remaining))
      ensures remaining != 0 ==> current != []
      ensures Front(current, chunks) == old(Front(current, chunks))
      ensures remaining == 0 && old(remaining) != 0 ==> current == [] && chunks == []
    {
      while current == [] && remaining != 0
        invariant Data() == old(Data())
        invariant remaining == old(remaining)
        invariant old(remaining) == 0 ==> Capture() == old(Capture())
        invariant Front(current, chunks) == old(Front(current, chunks))
        decreases |chunks|
      {
        if chunks == [] {
          remaining := 0;
          return;
        }
        assert Flatten(chunks) == chunks[0] + Flatten(chunks[1..]);
        current, chunks := chunks[0], chunks[1..];
      }
    }

    /** Drops `n` bytes of the current chunk. */
    method Consume(n: nat)
      requires n <= |current| && n <= remaining
      modifies this`current, this`remaining
      ensures Data() == old(Data())[n..] && remaining == old(remaining) - n
    {
      assert Data()[n..] == current[n..] + Flatten(chunks);
      current := current[n..];
      remaining := remaining - n;
    }

    method Peek() returns (b: Option<byte>)
      modifies this
      ensures Data() == old(Data())
      ensures old(remaining) > 0 ==> b == if Data() == [] then None else Some(Data()[0])
      ensures old(remaining) > 0 ==> remaining == if Data() == [] then 0 else old(remaining)
      ensures old(remaining) == 0 ==> Capture() == old(Capture())
      ensures old(remaining) == 0 ==> b == if current == [] then None else Some(current[0])
    {
      Fill();
      b := if current == [] then None else Some(current[0]);
    }

    /** All-or-nothing against the announced length; reports what really passed. */
    method Advance(amount: nat) returns (passed: nat)
      modifies this
      ensures amount > old(remaining) ==> passed == 0 && Capture() == old(Capture())
      ensures amount <= old(remaining) ==>
                && passed == Min(amount, |old(Data())|) && Data() == old(Data())[passed..]
                && remaining == (if passed == amount then old(remaining) - amount else 0)
    {
      if amount > remaining {
        return 0;
      }
      ghost var whole := Data();
      var left: nat := amount;
      while left != 0
        invariant left <= amount <= old(remaining)
        invariant amount - left <= |whole| && Data() == whole[amount - left..]
        invariant remaining == old(remaining) - (amount - left)
        decreases left
      {
        Fill();
        if current == [] {
          assert Data() == [];
          return amount - left;
        }
        var consumed := Min(left, |current|);
        Consume(consumed);
        left := left - consumed;
      }
      return amount;
    }

    /** Copies the next bytes into `output`, advancing past them. */
    method CopyInto(output: array<byte>) returns (copied: nat)
      modifies this, output
      ensures output.Length > old(remaining) ==>
                copied == 0 && Capture() == old(Capture()) && output[..] == old(output[..])
      ensures output.Length <= old(remaining) ==>
                && copied == Min(output.Length, |old(Data())|) && Data() == old(Data())[copied..]
                && output[..] == old(Data())[..copied] + old(output[..])[copied..]
                && remaining == (if copied == output.Length then old(remaining) - copied else 0)
    {
      hide Front;
      var required := output.Length;
      if required > remaining {
        return 0;
      }
      ghost var whole, before := Data(), output[..];
      var done: nat := 0;
      while done != required
        invariant done <= required <= old(remaining)
        invariant done <= |whole| && Data() == whole[done..]
        invariant remaining == old(remaining) - done
        invariant output[..] == whole[..done] + before[done..]
        decreases required - done
      {
        Fill();
        if current == [] {
          assert Data() == [];
          return done;
        }
        var n := Min(required - done, |current|);
        Piece(whole, done, current, Flatten(chunks), n);
        Write(output, done, current[..n], whole, before);
        Consume(n);
        done := done + n;
      }
      return required;
    }

    /** Splits off a span of exactly `len` bytes, when they are really there. */
    method Take(len: nat) returns (r: Option<Span>)
      modifies this
      ensures r.Some? <==> len <= old(remaining) && len <= |old(Data())|
      ensures r.Some? ==> r.value.Valid() && r.value.Bytes() == old(Data())[..len] && r.value.len == len
      ensures len > old(remaining) ==> Capture() == old(Capture())
      ensures r.None? && len <= old(remaining) ==> Data() == [] && remaining == 0
      ensures r.Some? ==> Data() == old(Data())[len..] && remaining == old(remaining) - len
    {
      if len > remaining {
        return None;
      }
      var cursor := Capture();
      var passed := Advance(len);
      if passed != len {
        return None;
      }
      return Some(Span(cursor, len));
    }

    /** A span of `len` announced bytes, whether or not the source really holds them. */
    method IntoSpan(len: nat) returns (r: Option<Span>)
      ensures r.Some? <==> len <= remaining
      ensures r.Some? ==> r.value.Valid() && r.value.len == len
      ensures r.Some? ==> r.value.Bytes() == Data()[..Min(len, |Data()|)]
    {
      if len > remaining {
        return None;
      }
      return Some(Span(Capture(), len));
    }
  }

  /** The first `n` bytes of a current chunk, and what is left after them, in the whole. */
  lemma Piece(whole: Bytes, done: nat, current: Bytes, rest: Bytes, n: nat)
    requires done <= |whole| && current + rest == whole[done..] && n <= |current|
    ensures done + n <= |whole| && current[..n] == whole[done..done + n]
    ensures whole[done..][n..] == whole[done + n..]
  {
    assert current[..n] == whole[done..][..n];
  }

  /** Copies `source` into `output` at `at`, extending the copied prefix of `whole`. */
  method Write(output: array<byte>, at: nat, source: Bytes, ghost whole: Bytes, ghost before: Bytes)
    requires at + |source| <= output.Length == |before| && at + |source| <= |whole|
    requires source == whole[at..at + |source|]
    requires output[..] == whole[..at] + before[at..]
    modifies output
    ensures output[..] == whole[..at + |source|] + before[at + |source|..]
  {
    forall i | 0 <= i < |source| {
      output[at + i] := source[i];
    }
  }

  datatype Form = Contiguous(bytes: Bytes) | Segmented

  /** A reusable snapshot of a bounded logical range. */
  datatype Span = Span(cursor: Snapshot, len: nat) {
    ghost predicate Valid() {
      len <= cursor.remaining
    }

    /** The bytes of the range; fewer than `len` when the source falls short. */
    ghost function Bytes(): Common.Bytes {
      cursor.Data()[..Min(len, |cursor.Data()|)]
    }

    method ToForm() returns (f: Form)
      requires Valid()
      ensures f.Contiguous? ==> f.bytes == Bytes() && |f.bytes| == len
      ensures f.Contiguous? <==> len <= |Front(cursor.current, cursor.chunks)| || len == 0
    {
      var c := new Cursor.Clone(cursor);
      c.Fill();
      if len <= |c.current| {
        assert c.Data()[..len] == c.current[..len];
        return Contiguous(c.current[..len]);
      }
      return Segmented;
    }

    /** The complete suffix from `offset`, when the range and its bytes reach that far. */
    method Suffix(offset: nat) returns (r: Option<Span>)
      requires Valid()
      ensures r.Some? <==> offset <= len && offset <= |Bytes()|
      ensures r.Some? ==> r.value.Valid() && r.value.Bytes() == Bytes()[offset..] && r.value.len == len - offset
    {
      if offset > len {
        return None;
      }
      var c := new Cursor.Clone(cursor);
      var passed := c.Advance(offset);
      if passed != offset {
        return None;
      }
      r := Some(Span(c.Capture(), len - offset));
    }

    method Chunks() returns (b: Bounded)
      ensures fresh(b) && b.Left() == Bytes() && b.cursor.remaining == len && fresh(b.cursor)
    {
      b := new Bounded(cursor.(remaining := len));
    }
  }

  /** Traversal of a span, one non-empty chunk at a time. */
  class Bounded {
    const cursor: Cursor

    constructor (from: Snapshot)
      ensures fresh(cursor) && cursor.Capture() == from
    {
      cursor := new Cursor.Clone(from);
    }

    ghost function Left(): Bytes
      reads this, cursor
    {
      cursor.Data()[..Min(cursor.remaining, |cursor.Data()|)]
    }

    method Next() returns (chunk: Option<Bytes>)
      modifies cursor
      ensures chunk.None? <==> old(Left()) == []
      ensures chunk.None? ==> Left() == []
      ensures chunk.Some? ==> chunk.value != [] && old(Left()) == chunk.value + Left()
    {
      if cursor.remaining == 0 {
        return None;
      }
      ghost var whole, bound := cursor.Data(), cursor.remaining;
      cursor.Fill();
      if cursor.current == [] {
        return None;
      }
      var len := Min(cursor.remaining, |cursor.current|);
      chunk := Some(cursor.current[..len]);
      assert whole == cursor.current[..len] + (cursor.current[len..] + Flatten(cursor.chunks));
      cursor.current := cursor.current[len..];
      cursor.remaining := cursor.remaining - len;
    }
  }

  lemma Onward(done: Bytes, chunk: Bytes, left: Bytes)
    ensures done + (chunk + left) == (done + chunk) + left
  {
  }

  /** Visiting every chunk of a span yields exactly its bytes. */
  method Gather(span: Span) returns (bytes: Bytes)
    ensures bytes == span.Bytes()
  {
    var it := span.Chunks();
    bytes := [];
    while true
      invariant bytes + it.Left() == span.Bytes()
      invariant fresh(it.cursor)
      decreases |it.Left()|
    {
      var chunk := it.Next();
      if chunk.None? {
        assert bytes + [] == bytes;
        return;
      }
      Onward(bytes, chunk.value, it.Left());
      bytes := bytes + chunk.value;
    }
  }
}
