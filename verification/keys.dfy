/** Document ids. Ids are naturals handed out in increasing order, so the
    order in which a collection was filled is the ascending order of its ids;
    a query without a sort stage returns documents in that order. */
module Keys {
  import opened Results

  predicate IsLeast(m: nat, s: set<nat>) {
    m in s && forall x | x in s :: m <= x
  }

  predicate IsGreatest(m: nat, s: set<nat>) {
    m in s && forall x | x in s :: x <= m
  }

  /** Every non-empty finite set of naturals has a least element. */
  lemma {:induction false} LeastExists(s: set<nat>)
    requires s != {}
    ensures exists m :: IsLeast(m, s)
  {
    var y :| y in s;
    var rest := s - {y};
    assert forall x | x in s :: x == y || x in rest;
    if rest == {} {
      assert IsLeast(y, s);
    } else {
      LeastExists(rest);
      var m :| IsLeast(m, rest);
      if y < m {
        assert IsLeast(y, s);
      } else {
        assert IsLeast(m, s);
      }
    }
  }

  /** Every non-empty finite set of naturals has a greatest element. */
  lemma {:induction false} GreatestExists(s: set<nat>)
    requires s != {}
    ensures exists m :: IsGreatest(m, s)
  {
    var y :| y in s;
    var rest := s - {y};
    assert forall x | x in s :: x == y || x in rest;
    if rest == {} {
      assert IsGreatest(y, s);
    } else {
      GreatestExists(rest);
      var m :| IsGreatest(m, rest);
      if m < y {
        assert IsGreatest(y, s);
      } else {
        assert IsGreatest(m, s);
      }
    }
  }

  /** The least element of a non-empty set of ids. */
  function Least(s: set<nat>): (m: nat)
    requires s != {}
    ensures m in s
    ensures forall x | x in s :: m <= x
  {
    LeastExists(s);
    var m: nat :| IsLeast(m, s);
    m
  }

  /** An id that no document in the collection has yet: one past the
      greatest id in use, so it is also larger than every id in use. */
  function Fresh(s: set<nat>): (k: nat)
    ensures k !in s
    ensures forall x | x in s :: x < k
  {
    if s == {} then 0
    else
      GreatestExists(s);
      var m: nat :| IsGreatest(m, s);
      m + 1
  }

  /** The ids of a collection in insertion order: every id exactly once,
      ascending. */
  function Ascending(s: set<nat>): (r: seq<nat>)
    ensures forall i, j | 0 <= i < j < |r| :: r[i] < r[j]
    ensures forall x :: x in r <==> x in s
    decreases s
  {
    if s == {} then []
    else
      var m := Least(s);
      [m] + Ascending(s - {m})
  }

  /** `findOne` without a sort: the first document, in insertion order,
      whose value satisfies `p`, or None when no document does. */
  function FirstKey<V>(m: map<nat, V>, p: V -> bool): (r: Option<nat>)
    ensures r.None? <==> forall k | k in m :: !p(m[k])
    ensures r.Some? ==> r.value in m && p(m[r.value])
    ensures r.Some? ==> forall k | k in m && p(m[k]) :: r.value <= k
  {
    var hits := set k | k in m.Keys && p(m[k]);
    assert forall k | k in m && p(m[k]) :: k in hits;
    if hits == {} then None else Some(Least(hits))
  }

  // -------------------------------------------------------- no repetition

  /** No element occurs twice: a list of likes or shares, or the rows of
      a feed. */
  ghost predicate NoRepeats<T(!new)>(s: seq<T>) {
    forall x :: multiset(s)[x] <= 1
  }

  lemma {:induction false} PairwiseNoRepeats<T(!new)>(s: seq<T>)
    requires forall i, j | 0 <= i < j < |s| :: s[i] != s[j]
    ensures NoRepeats(s)
    decreases |s|
  {
    if |s| > 0 {
      PairwiseNoRepeats(s[1..]);
      assert s == [s[0]] + s[1..];
      assert s[0] !in s[1..];
    }
  }

  lemma CountTwice<T>(s: seq<T>, i: nat, j: nat)
    requires i < j < |s|
    ensures s[i] == s[j] ==> multiset(s)[s[i]] >= 2
  {
    assert s == s[..j] + s[j..];
    assert s[i] in s[..j];
    assert s[j] in s[j..];
  }

  lemma NoRepeatsPairwise<T(!new)>(s: seq<T>)
    requires NoRepeats(s)
    ensures forall i, j | 0 <= i < j < |s| :: s[i] != s[j]
  {
    forall i, j | 0 <= i < j < |s|
      ensures s[i] != s[j]
    {
      CountTwice(s, i, j);
    }
  }
}
