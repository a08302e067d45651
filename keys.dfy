/** Order on finite sets of day keys: least and greatest element, ascending enumeration, sums. */
module Keys {

  /** A set is empty or has a member. */
  lemma SomeKey(s: set<int>)
    ensures s == {} || exists x :: x in s
  {
    if forall x :: x !in s {
      assert s == {};
    }
  }

  predicate IsLeast(m: int, s: set<int>) {
    m in s && forall k :: k in s ==> m <= k
  }

  predicate IsGreatest(m: int, s: set<int>) {
    m in s && forall k :: k in s ==> k <= m
  }

  lemma {:induction false} HasLeast(s: set<int>)
    requires s != {}
    ensures exists m :: IsLeast(m, s)
  {
    SomeKey(s);
    var x :| x in s;
    if !IsLeast(x, s) {
      var y :| y in s && y < x;
      var rest := s - {x};
      assert y in rest;
      HasLeast(rest);
      var m :| IsLeast(m, rest);
      forall k | k in s ensures m <= k {
        if k != x { assert k in rest; }
      }
      assert IsLeast(m, s);
    }
  }

  lemma {:induction false} HasGreatest(s: set<int>)
    requires s != {}
    ensures exists m :: IsGreatest(m, s)
  {
    SomeKey(s);
    var x :| x in s;
    if !IsGreatest(x, s) {
      var y :| y in s && y > x;
      var rest := s - {x};
      assert y in rest;
      HasGreatest(rest);
      var m :| IsGreatest(m, rest);
      forall k | k in s ensures k <= m {
        if k != x { assert k in rest; }
      }
      assert IsGreatest(m, s);
    }
  }

  /** The least key (SQL `MIN`). */
  function Least(s: set<int>): (m: int)
    requires s != {}
    ensures m in s && forall k :: k in s ==> m <= k
  {
    HasLeast(s);
    var m :| IsLeast(m, s);
    m
  }

  /** The greatest key (SQL `MAX`). */
  function Greatest(s: set<int>): (m: int)
    requires s != {}
    ensures m in s && forall k :: k in s ==> k <= m
  {
    HasGreatest(s);
    var m :| IsGreatest(m, s);
    m
  }

  predicate StrictlyAscending(r: seq<int>) {
    forall i, j :: 0 <= i < j < |r| ==> r[i] < r[j]
  }

  /** The keys in ascending order, each once. */
  function Ascending(s: set<int>): (r: seq<int>)
    ensures StrictlyAscending(r)
    ensures forall k :: k in r <==> k in s
    ensures |r| == |s|
    decreases s
  {
    if s == {} then []
    else
      var m := Least(s);
      var rest := Ascending(s - {m});
      assert forall i :: 0 <= i < |rest| ==> rest[i] in s - {m};
      [m] + rest
  }

  /** The keys in descending order, each once. */
  function Descending(s: set<int>): (r: seq<int>)
    ensures forall i, j :: 0 <= i < j < |r| ==> r[i] > r[j]
    ensures forall k :: k in r <==> k in s
    ensures |r| == |s|
    decreases s
  {
    if s == {} then []
    else
      var m := Greatest(s);
      var rest := Descending(s - {m});
      assert forall i :: 0 <= i < |rest| ==> rest[i] in s - {m};
      [m] + rest
  }

  /** The sum of `m[k]` over the keys in `s`, taken in ascending order. */
  function Sum(m: map<int, int>, s: set<int>): int
    requires s <= m.Keys
    decreases s
  {
    if s == {} then 0
    else
      var k := Least(s);
      m[k] + Sum(m, s - {k})
  }

  /** Sums split over key sets that lie wholly below one another. */
  lemma {:induction false} SumSplit(m: map<int, int>, a: set<int>, b: set<int>)
    requires a <= m.Keys && b <= m.Keys
    requires forall x, y :: x in a && y in b ==> x < y
    ensures Sum(m, a + b) == Sum(m, a) + Sum(m, b)
    decreases a
  {
    if a != {} {
      var k := Least(a);
      assert Least(a + b) == k;
      assert (a + b) - {k} == (a - {k}) + b;
      SumSplit(m, a - {k}, b);
    } else {
      assert a + b == b;
    }
  }

  /** The sum over a single key is its value. */
  lemma SumSingle(m: map<int, int>, k: int)
    requires k in m
    ensures Sum(m, {k}) == m[k]
  {
    assert Least({k}) == k;
    assert {k} - {k} == {};
  }

  /** A sum of non-negative values is non-negative. */
  lemma {:induction false} SumNonNegative(m: map<int, int>, s: set<int>)
    requires s <= m.Keys
    ensures (forall k :: k in s ==> m[k] >= 0) ==> Sum(m, s) >= 0
    decreases s
  {
    if s != {} {
      SumNonNegative(m, s - {Least(s)});
    }
  }

  lemma {:induction false} SubsetSize(a: set<int>, b: set<int>)
    requires a <= b
    ensures |a| <= |b|
    decreases b
  {
    if b != {} {
      SomeKey(b);
      var x :| x in b;
      SubsetSize(a - {x}, b - {x});
      if x in a {
        assert |a - {x}| == |a| - 1;
      } else {
        assert a - {x} == a;
      }
    } else {
      assert a == {};
    }
  }
}
