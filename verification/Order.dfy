/** The orders of query results: `ORDER BY id ASC` over a set of keys, and selections in table order. */
module Order {
  lemma Member<T>(s: set<T>) returns (x: T)
    requires s != {}
    ensures x in s
  {
    x :| x in s;
  }

  lemma {:induction false} LeastExists(s: set<int>)
    requires s != {}
    ensures exists m :: m in s && forall x :: x in s ==> m <= x
  {
    var e := Member(s);
    var rest := s - {e};
    if rest == {} {
      assert forall x :: x in s ==> x == e || x in rest;
    } else {
      LeastExists(rest);
      var m: int :| m in rest && forall x :: x in rest ==> m <= x;
      var least := if e < m then e else m;
      assert forall x :: x in s ==> x == e || x in rest;
      assert least in s && forall x :: x in s ==> least <= x;
    }
  }

  function Least(s: set<int>): (m: int)
    requires s != {}
    ensures m in s && forall x :: x in s ==> m <= x
  {
    LeastExists(s);
    var m :| m in s && forall x :: x in s ==> m <= x;
    m
  }

  predicate StrictlyAscending(q: seq<int>) {
    forall i, j :: 0 <= i < j < |q| ==> q[i] < q[j]
  }

  /** The elements of `s`, each once, in increasing order. */
  function Ascending(s: set<int>): (q: seq<int>)
    ensures StrictlyAscending(q)
    ensures |q| == |s|
    ensures forall x :: x in q <==> x in s
  {
    if s == {} then []
    else
      var m := Least(s);
      [m] + Ascending(s - {m})
  }

  /** A strictly increasing sequence is determined by its elements. */
  lemma {:induction false} AscendingUnique(p: seq<int>, q: seq<int>)
    requires StrictlyAscending(p) && StrictlyAscending(q)
    requires forall x :: x in p <==> x in q
    ensures p == q
  {
    assert q == [] || q[0] in p by {
      if q != [] {
        var x := q[0];
        assert x in q;
      }
    }
    if p == [] {
    } else {
      assert p[0] in p && p[0] in q && q[0] in q && q[0] in p;
      forall x ensures x in p[1..] <==> x in q[1..] {
        assert x in p <==> x == p[0] || x in p[1..];
        assert x in q <==> x == q[0] || x in q[1..];
      }
      AscendingUnique(p[1..], q[1..]);
    }
  }

  // ---- Selections ----

  /** The elements that `keep` accepts, in their order. */
  function Filter<T>(q: seq<T>, keep: T -> bool): seq<T> {
    if q == [] then []
    else (if keep(q[0]) then [q[0]] else []) + Filter(q[1..], keep)
  }

  /** `p` arises from `q` by leaving out elements. */
  predicate Subsequence<T(==)>(p: seq<T>, q: seq<T>)
    decreases |q|
  {
    if p == [] then true
    else if q == [] then false
    else if p[0] == q[0] then Subsequence(p[1..], q[1..])
    else Subsequence(p, q[1..])
  }

  /** A selection keeps the order, and each accepted element as often as it occurs. */
  lemma {:induction false} FilterMeaning<T>(q: seq<T>, keep: T -> bool)
    ensures Subsequence(Filter(q, keep), q)
    ensures forall x :: multiset(Filter(q, keep))[x] == if keep(x) then multiset(q)[x] else 0
    ensures forall x :: x in Filter(q, keep) <==> x in q && keep(x)
    decreases |q|
  {
    if q == [] {
    } else {
      var rest := Filter(q[1..], keep);
      FilterMeaning(q[1..], keep);
      assert q == [q[0]] + q[1..];
      if keep(q[0]) {
        assert ([q[0]] + rest)[1..] == rest;
      } else {
        assert [] + rest == rest;
        SubsequenceOfMore(rest, q);
      }
      forall x ensures x in Filter(q, keep) <==> x in q && keep(x) {
        assert x in Filter(q, keep) <==> multiset(Filter(q, keep))[x] > 0;
        assert x in q <==> multiset(q)[x] > 0;
      }
    }
  }

  lemma {:induction false} SubsequenceOfMore<T>(p: seq<T>, q: seq<T>)
    requires q != [] && Subsequence(p, q[1..])
    ensures Subsequence(p, q)
    decreases |q|, 0
  {
    if p == [] {
    } else if p[0] == q[0] {
      SubsequenceTail(p, q[1..]);
    }
  }

  lemma {:induction false} SubsequenceTail<T>(p: seq<T>, q: seq<T>)
    requires p != [] && Subsequence(p, q)
    ensures Subsequence(p[1..], q)
    decreases |q|, 1
  {
    if p[0] == q[0] {
      SubsequenceOfMore(p[1..], q);
    } else {
      SubsequenceTail(p, q[1..]);
      SubsequenceOfMore(p[1..], q);
    }
  }

  lemma {:induction false} SelectionsCommute<T>(q: seq<T>, f: T -> bool, g: T -> bool)
    ensures Filter(Filter(q, g), f) == Filter(Filter(q, f), g)
  {
    if q == [] {
    } else {
      SelectionsCommute(q[1..], f, g);
      FilterPrefix(q[0], Filter(q[1..], g), f);
      FilterPrefix(q[0], Filter(q[1..], f), g);
    }
  }

  lemma FilterPrefix<T>(x: T, q: seq<T>, keep: T -> bool)
    ensures Filter([x] + q, keep) == (if keep(x) then [x] else []) + Filter(q, keep)
    ensures Filter([] + q, keep) == Filter(q, keep)
  {
    assert ([x] + q)[1..] == q && [] + q == q;
  }
}
