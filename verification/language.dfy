/** Sets of byte strings: concatenation, and what is left after a first byte. */
module Language {
  import opened Common

  type Lang = iset<Bytes>

  const Unit: Lang := iset{[]}
  const Nothing: Lang := iset{}

  ghost predicate Joins(a: Lang, b: Lang, w: Bytes, u: Bytes, y: Bytes) {
    u in a && y in b && w == u + y
  }

  ghost predicate Joined(a: Lang, b: Lang, w: Bytes) {
    exists u, y :: Joins(a, b, w, u, y)
  }

  ghost function Then(a: Lang, b: Lang): Lang {
    iset w: Bytes | Joined(a, b, w)
  }

  ghost function Quotient(a: Lang, b: byte): Lang {
    iset w: Bytes | [b] + w in a
  }

  lemma ThenIntro(a: Lang, b: Lang, u: Bytes, y: Bytes)
    requires u in a && y in b
    ensures u + y in Then(a, b)
  {
    assert Joins(a, b, u + y, u, y);
  }

  lemma ThenElim(a: Lang, b: Lang, w: Bytes) returns (u: Bytes, y: Bytes)
    requires w in Then(a, b)
    ensures u in a && y in b && w == u + y
  {
    u, y :| Joins(a, b, w, u, y);
  }

  lemma ThenQuotient(a: Lang, c: Lang, b: byte)
    requires [] !in a
    ensures Quotient(Then(a, c), b) == Then(Quotient(a, b), c)
  {
    forall w ensures w in Quotient(Then(a, c), b) <==> w in Then(Quotient(a, b), c) {
      if [b] + w in Then(a, c) {
        var v, y := ThenElim(a, c, [b] + w);
        assert ([b] + w)[0] == b && ([b] + w)[1..] == w;
        assert v == [b] + v[1..] && (v + y)[1..] == v[1..] + y;
        ThenIntro(Quotient(a, b), c, v[1..], y);
      }
      if w in Then(Quotient(a, b), c) {
        var u, y := ThenElim(Quotient(a, b), c, w);
        assert [b] + w == ([b] + u) + y;
        ThenIntro(a, c, [b] + u, y);
      }
    }
  }

  lemma ThenAssociates(a: Lang, b: Lang, c: Lang)
    ensures Then(Then(a, b), c) == Then(a, Then(b, c))
  {
    forall w ensures w in Then(Then(a, b), c) <==> w in Then(a, Then(b, c)) {
      if w in Then(Then(a, b), c) {
        var v, z := ThenElim(Then(a, b), c, w);
        var x, y := ThenElim(a, b, v);
        ThenIntro(b, c, y, z);
        ThenIntro(a, Then(b, c), x, y + z);
        assert w == x + (y + z);
      }
      if w in Then(a, Then(b, c)) {
        var x, v := ThenElim(a, Then(b, c), w);
        var y, z := ThenElim(b, c, v);
        ThenIntro(a, b, x, y);
        ThenIntro(Then(a, b), c, x + y, z);
        assert w == (x + y) + z;
      }
    }
  }

  lemma UnitThen(a: Lang)
    ensures Then(Unit, a) == a
  {
    forall w ensures w in Then(Unit, a) <==> w in a {
      assert [] + w == w;
      if w in a {
        ThenIntro(Unit, a, [], w);
      }
      if w in Then(Unit, a) {
        var u, y := ThenElim(Unit, a, w);
        assert u + y == y;
      }
    }
  }

  lemma ThenUnit(a: Lang)
    ensures Then(a, Unit) == a
  {
    forall w ensures w in Then(a, Unit) <==> w in a {
      assert w + [] == w;
      if w in a {
        ThenIntro(a, Unit, w, []);
      }
      if w in Then(a, Unit) {
        var u, y := ThenElim(a, Unit, w);
        assert u + y == u;
      }
    }
  }

  lemma NothingThen(a: Lang)
    ensures Then(Nothing, a) == Nothing
  {
  }
}
