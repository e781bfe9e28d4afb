/** Finite sums of integer terms indexed by a finite set of basis keys. The
    sum peels off the least key first, so it is a computable function; the
    lemma `SumRemove` shows that any key can be peeled off instead, which is
    what makes the order of summation irrelevant. */
module Sums {
  import opened Keys

  /** `k` is the least key of `s` in the display order. */
  predicate IsLeast(k: Key, s: set<Key>)
  {
    k in s && forall k' :: k' in s ==> Below(k, k')
  }

  lemma {:induction false} LeastExists(s: set<Key>)
    requires s != {}
    ensures exists k :: IsLeast(k, s)
    decreases s
  {
    var x :| x in s;
    if s == {x} {
      assert IsLeast(x, s);
    } else {
      LeastExists(s - {x});
      var m :| IsLeast(m, s - {x});
      if Below(x, m) {
        forall k' | k' in s ensures Below(x, k') {
          if k' != x { BelowTransitive(x, m, k'); }
        }
        assert IsLeast(x, s);
      } else {
        forall k' | k' in s ensures Below(m, k') {
          if k' == x { BelowTotal(x, m); }
        }
        assert IsLeast(m, s);
      }
    }
  }

  /** The least key of a non-empty set, in the display order. */
  function Least(s: set<Key>): (k: Key)
    requires s != {}
    ensures IsLeast(k, s)
  {
    LeastExists(s);
    var k :| IsLeast(k, s); k
  }

  /** The sum of `f(k)` over the keys `k` of `s`, starting from zero. */
  function SumOver(s: set<Key>, f: Key -> int): int
    decreases s
  {
    if s == {} then 0 else f(Least(s)) + SumOver(s - {Least(s)}, f)
  }

  /** Any key of the set, not only the least, can be taken out of the sum. */
  lemma {:induction false} SumRemove(s: set<Key>, f: Key -> int, x: Key)
    requires x in s
    ensures SumOver(s, f) == f(x) + SumOver(s - {x}, f)
    decreases s
  {
    var k := Least(s);
    if k != x {
      SumRemove(s - {k}, f, x);
      assert k in s - {x};
      BelowAntisymmetric(Least(s - {x}), k);
      assert s - {k} - {x} == s - {x} - {k};
    }
  }

  /** Keys whose term is zero can be added to or dropped from the sum. */
  lemma {:induction false} SumZeroOutside(s: set<Key>, t: set<Key>, f: Key -> int)
    requires s <= t
    requires forall k :: k in t && k !in s ==> f(k) == 0
    ensures SumOver(t, f) == SumOver(s, f)
    decreases t
  {
    if t != s {
      assert !(t <= s);
      var x :| x in t && x !in s;
      SumRemove(t, f, x);
      SumZeroOutside(s, t - {x}, f);
    }
  }

  /** A sum whose terms all vanish except possibly the one at `j`. */
  lemma SumAt(s: set<Key>, f: Key -> int, j: Key)
    requires forall k :: k in s && k != j ==> f(k) == 0
    ensures SumOver(s, f) == if j in s then f(j) else 0
  {
    if j in s {
      SumZeroOutside({j}, s, f);
      assert Least({j}) == j;
      assert {j} - {j} == {};
    } else {
      SumZeroOutside({}, s, f);
    }
  }

  /** Two term functions that agree on the set have the same sum. */
  lemma {:induction false} SumExt(s: set<Key>, f: Key -> int, g: Key -> int)
    requires forall k :: k in s ==> f(k) == g(k)
    ensures SumOver(s, f) == SumOver(s, g)
    decreases s
  {
    if s != {} {
      SumExt(s - {Least(s)}, f, g);
    }
  }

  /** The sum is additive in its terms. */
  lemma {:induction false} SumAdd(s: set<Key>, f: Key -> int, g: Key -> int, h: Key -> int)
    requires forall k :: k in s ==> h(k) == f(k) + g(k)
    ensures SumOver(s, h) == SumOver(s, f) + SumOver(s, g)
    decreases s
  {
    if s != {} {
      SumAdd(s - {Least(s)}, f, g, h);
    }
  }
}
