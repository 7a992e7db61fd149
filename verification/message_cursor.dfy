/** The gRPC payload cursor over non-empty segments, and payload equality. */
module MessageCursor {
  import opened Common
  import Deframer

  ghost predicate NonEmpty(segments: seq<Bytes>) {
    forall s :: s in segments ==> s != []
  }

  class Cursor {
    var segments: seq<Bytes>
    var current: Bytes
    var remaining: nat

    /** The bytes not yet consumed. */
    ghost function Left(): Bytes
      reads this
    {
      current + Flatten(segments)
    }

    ghost predicate Valid()
      reads this
    {
      NonEmpty(segments) && remaining == |Left()| && (remaining > 0 ==> current != [])
    }

    constructor (payload: seq<Bytes>)
      requires NonEmpty(payload)
      ensures Valid() && Left() == Flatten(payload)
    {
      segments := if payload == [] then [] else payload[1..];
      current := if payload == [] then [] else payload[0];
      remaining := |Flatten(payload)|;
      new;
      if payload == [] {
        assert current + Flatten(segments) == [];
      } else {
        assert payload[0] in payload;
        assert forall s :: s in segments ==> s in payload;
      }
    }

    method NextSegment()
      modifies this`segments, this`current
      ensures current == (if old(segments) == [] then [] else old(segments)[0])
      ensures segments == (if old(segments) == [] then [] else old(segments)[1..])
    {
      if segments == [] {
        current := [];
      } else {
        current, segments := segments[0], segments[1..];
      }
    }

    /** Skips `count` bytes, or all of them when fewer remain. */
    method Advance(count: nat)
      requires Valid()
      modifies this
      ensures Valid()
      ensures Left() == old(Left())[Min(count, |old(Left())|)..]
    {
      ghost var whole := Left();
      var left: nat := Min(count, remaining);
      remaining := remaining - left;
      while left != 0
        invariant NonEmpty(segments)
        invariant left <= |Left()| && Left()[left..] == whole[Min(count, |whole|)..]
        invariant remaining == |Left()| - left
        invariant |Left()| > 0 ==> current != []
        decreases left
      {
        var span := |current|;
        if left < span {
          assert Left()[left..] == current[left..] + Flatten(segments);
          current := current[left..];
          return;
        }
        assert Left()[left..] == Flatten(segments)[left - span..];
        left := left - span;
        assert segments != [] ==> segments[0] in segments && forall s :: s in segments[1..] ==> s in segments;
        NextSegment();
      }
    }

    /** Compares what is left of two cursors, consuming the compared part. */
    method IsEqual(other: Cursor) returns (equal: bool)
      requires Valid() && other.Valid() && this != other
      modifies this, other
      ensures equal == (old(Left()) == old(other.Left()))
    {
      if remaining != other.remaining {
        return false;
      }
      ghost var a, b := Left(), other.Left();
      ghost var done := 0;
      while remaining != 0
        invariant Valid() && other.Valid() && remaining == other.remaining
        invariant done + remaining == |a| == |b|
        invariant Left() == a[done..] && other.Left() == b[done..]
        invariant a[..done] == b[..done]
        decreases remaining
      {
        var len := Min(|current|, |other.current|);
        assert current[..len] == a[done..done + len] && other.current[..len] == b[done..done + len];
        if current[..len] != other.current[..len] {
          return false;
        }
        assert a[..done + len] == a[..done] + a[done..done + len];
        assert b[..done + len] == b[..done] + b[done..done + len];
        Advance(len);
        other.Advance(len);
        done := done + len;
      }
      assert a == a[..done] && b == b[..done];
      return true;
    }
  }

  /** Frames compare by their bytes, however they are segmented. */
  method PayloadsEqual(a: seq<Bytes>, b: seq<Bytes>) returns (equal: bool)
    requires NonEmpty(a) && NonEmpty(b)
    ensures equal <==> Flatten(a) == Flatten(b)
  {
    var left := new Cursor(a);
    var right := new Cursor(b);
    equal := left.IsEqual(right);
  }

  /** Frames from the wire also compare their compression. */
  method WireFramesEqual(a: seq<Bytes>, x: Deframer.Compression, b: seq<Bytes>, y: Deframer.Compression)
    returns (equal: bool)
    requires NonEmpty(a) && NonEmpty(b)
    ensures equal <==> x == y && Flatten(a) == Flatten(b)
  {
    if x != y {
      return false;
    }
    equal := PayloadsEqual(a, b);
  }
}
