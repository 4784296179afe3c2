/** Document-id sets used as the visit cache's key (KeySet in visitcache.cpp). */
module KeySets {

  /** A local document id; the source stores them as uint32_t. */
  type Lid = x: int | 0 <= x < 0x1_0000_0000

  /** Non-decreasing order, the order std::sort leaves behind. */
  ghost predicate Sorted(s: seq<Lid>) {
    forall i, j | 0 <= i < j < |s| :: s[i] <= s[j]
  }

  /** No id occurs twice; callers of the list constructor promise this. */
  ghost predicate NoDuplicates(s: seq<Lid>) {
    forall i, j | 0 <= i < j < |s| :: s[i] != s[j]
  }

  /** A sorted sequence stays sorted when a lower bound of it is put in front. */
  lemma SortedCons(v: Lid, s: seq<Lid>)
    requires Sorted(s)
    requires forall y | y in s :: v <= y
    ensures Sorted([v] + s)
  {
    var r := [v] + s;
    forall i, j | 0 <= i < j < |r|
      ensures r[i] <= r[j]
    {
      assert r[j] == s[j - 1];
      assert s[j - 1] in s;
      if i > 0 {
        assert r[i] == s[i - 1];
      }
    }
  }

  /** The head of a sorted sequence is its smallest element. */
  lemma SortedHeadIsMin(s: seq<Lid>)
    requires Sorted(s) && s != []
    ensures forall y | y in s :: s[0] <= y
    ensures forall y | y in s[1..] :: s[0] <= y
  {
    assert s == [s[0]] + s[1..];
    forall y | y in s
      ensures s[0] <= y
    {
      var j :| 0 <= j < |s| && s[j] == y;
    }
  }

  /** A lower bound of `t` and of `x` bounds any rearrangement of `t` with `x` added. */
  lemma LowerBoundKept(v: Lid, x: Lid, t: seq<Lid>, r: seq<Lid>)
    requires v <= x
    requires forall y | y in t :: v <= y
    requires multiset(r) == multiset(t) + multiset{x}
    ensures forall y | y in r :: v <= y
  {
    forall y | y in r
      ensures v <= y
    {
      assert y in multiset(r);
      if y != x {
        assert y in multiset(t);
        assert y in t;
      }
    }
  }

  /** Places `x` into an already sorted sequence. */
  function Insert(x: Lid, s: seq<Lid>): (r: seq<Lid>)
    requires Sorted(s)
    ensures Sorted(r)
    ensures multiset(r) == multiset(s) + multiset{x}
  {
    if s == [] || x <= s[0] then
      [x] + s
    else
      var rest := Insert(x, s[1..]);
      SortedHeadIsMin(s);
      LowerBoundKept(s[0], x, s[1..], rest);
      SortedCons(s[0], rest);
      assert s == [s[0]] + s[1..];
      [s[0]] + rest
  }

  /** The ascending sort that the list constructor applies to its ids. */
  function SortAscending(s: seq<Lid>): (r: seq<Lid>)
    ensures Sorted(r)
    ensures multiset(r) == multiset(s)
  {
    if s == [] then
      []
    else
      assert s == [s[0]] + s[1..];
      Insert(s[0], SortAscending(s[1..]))
  }

  /**
   * std::includes over two sorted ranges: walks both in step and fails
   * as soon as the head of `b` is smaller than the head of `a`.
   */
  function Includes(a: seq<Lid>, b: seq<Lid>): (r: bool)
    ensures r ==> multiset(b) <= multiset(a)
  {
    if b == [] then true
    else if a == [] then false
    else if b[0] < a[0] then false
    else
      assert a == [a[0]] + a[1..] && b == [b[0]] + b[1..];
      if a[0] < b[0] then Includes(a[1..], b)
      else Includes(a[1..], b[1..])
  }

  /** The cache key: the requested ids, in ascending order. */
  datatype KeySet = KeySet(keys: seq<Lid>) {

    predicate Empty() {
      keys == []
    }

    /** The first id, which is the smallest one since keys are sorted. */
    function Front(): (r: Lid)
      requires keys != []
      ensures r in keys
      ensures Sorted(keys) ==> forall x | x in keys :: r <= x
    {
      keys[0]
    }

    /** `this` holds every id of `rhs` (as often as `rhs` holds it). */
    predicate Contains(rhs: KeySet): (r: bool)
      ensures r ==> multiset(rhs.keys) <= multiset(keys)
    {
      Includes(keys, rhs.keys)
    }
  }

  /** KeySet(uint32_t key): the set holding exactly one id. */
  function FromLid(lid: Lid): (k: KeySet)
    ensures Sorted(k.keys) && multiset(k.keys) == multiset{lid}
  {
    KeySet([lid])
  }

  /** KeySet(const LidVector &keys): the given ids, sorted ascending. */
  function FromLids(lids: seq<Lid>): (k: KeySet)
    ensures Sorted(k.keys)
    ensures multiset(k.keys) == multiset(lids)
    ensures |k.keys| == |lids|
    ensures k.Empty() <==> lids == []
  {
    assert |multiset(lids)| == |lids|;
    KeySet(SortAscending(lids))
  }

  /** Building from one id or from the one-element list gives the same key. */
  lemma FromLidIsFromLids(lid: Lid)
    ensures FromLid(lid) == FromLids([lid])
    ensures FromLid(lid).Front() == lid
  {
  }

  /** Two sorted sequences with the same elements are equal: the key does not depend on the order of the request. */
  lemma {:induction false} SortedUnique(a: seq<Lid>, b: seq<Lid>)
    requires Sorted(a) && Sorted(b)
    requires multiset(a) == multiset(b)
    ensures a == b
  {
    if a == [] {
      assert |b| == |multiset(b)| == |multiset(a)| == 0;
    } else {
      SameHead(a, b);
      SameTail(a, b);
      SortedTail(a);
      SortedTail(b);
      SortedUnique(a[1..], b[1..]);
      assert a == [a[0]] + a[1..] && b == [b[0]] + b[1..];
    }
  }

  /** Two non-empty sorted sequences with the same elements start with the same (smallest) element. */
  lemma SameHead(a: seq<Lid>, b: seq<Lid>)
    requires Sorted(a) && Sorted(b) && a != []
    requires multiset(a) == multiset(b)
    ensures b != [] && a[0] == b[0]
  {
    assert a[0] in multiset(b);
    assert b != [];
    assert b[0] in multiset(a);
    SortedHeadIsMin(a);
    SortedHeadIsMin(b);
  }

  /** Dropping equal heads keeps the multisets equal. */
  lemma SameTail(a: seq<Lid>, b: seq<Lid>)
    requires a != [] && b != [] && a[0] == b[0]
    requires multiset(a) == multiset(b)
    ensures multiset(a[1..]) == multiset(b[1..])
  {
    assert a == [a[0]] + a[1..] && b == [b[0]] + b[1..];
    assert multiset(a) == multiset{a[0]} + multiset(a[1..]);
    assert multiset(b) == multiset{a[0]} + multiset(b[1..]);
    assert multiset(a[1..]) == multiset(a) - multiset{a[0]};
    assert multiset(b[1..]) == multiset(b) - multiset{a[0]};
  }

  lemma SortedTail(s: seq<Lid>)
    requires Sorted(s) && s != []
    ensures Sorted(s[1..])
  {
  }

  /** Any two orderings of the same ids give the same KeySet. */
  lemma FromLidsIgnoresOrder(lids1: seq<Lid>, lids2: seq<Lid>)
    requires multiset(lids1) == multiset(lids2)
    ensures FromLids(lids1) == FromLids(lids2)
  {
    SortedUnique(FromLids(lids1).keys, FromLids(lids2).keys);
  }

  /** On sorted inputs, std::includes is inclusion of multisets. */
  lemma {:induction false} IncludesIsMultisetInclusion(a: seq<Lid>, b: seq<Lid>)
    requires Sorted(a) && Sorted(b)
    ensures Includes(a, b) <==> multiset(b) <= multiset(a)
  {
    if b == [] {
    } else if a == [] {
      assert b[0] in multiset(b);
    } else {
      SortedHeadIsMin(a);
      SortedHeadIsMin(b);
      if b[0] < a[0] {
        assert b[0] !in a;
        assert b[0] in multiset(b);
      } else if a[0] < b[0] {
        assert a[0] !in b;
        IncludesIsMultisetInclusion(a[1..], b);
        SkipAbsentHead(a, b);
      } else {
        IncludesIsMultisetInclusion(a[1..], b[1..]);
        DropCommonHead(a, b);
      }
    }
  }

  /** A head of `a` that `b` lacks does not matter for multiset inclusion. */
  lemma SkipAbsentHead(a: seq<Lid>, b: seq<Lid>)
    requires a != [] && a[0] !in b
    ensures multiset(b) <= multiset(a) <==> multiset(b) <= multiset(a[1..])
  {
    assert a == [a[0]] + a[1..];
    assert multiset(a) == multiset{a[0]} + multiset(a[1..]);
    assert multiset(b)[a[0]] == 0;
    if multiset(b) <= multiset(a) {
      forall y ensures multiset(b)[y] <= multiset(a[1..])[y] {
        if y != a[0] {
          assert multiset(b)[y] <= multiset(a)[y];
        }
      }
    }
  }

  /** A common head can be dropped from both sides of a multiset inclusion. */
  lemma DropCommonHead(a: seq<Lid>, b: seq<Lid>)
    requires a != [] && b != [] && a[0] == b[0]
    ensures multiset(b) <= multiset(a) <==> multiset(b[1..]) <= multiset(a[1..])
  {
    assert a == [a[0]] + a[1..];
    assert b == [b[0]] + b[1..];
    assert multiset(a) == multiset{a[0]} + multiset(a[1..]);
    assert multiset(b) == multiset{a[0]} + multiset(b[1..]);
    if multiset(b) <= multiset(a) {
      forall y ensures multiset(b[1..])[y] <= multiset(a[1..])[y] {
        assert multiset(b)[y] <= multiset(a)[y];
      }
    }
  }

  /**
   * KeySet::contains: for sets built without duplicate ids (what callers
   * promise), `contains(rhs)` holds iff every id of `rhs` is an id of `this`.
   */
  lemma ContainsIffSuperset(lhs: KeySet, rhs: KeySet)
    requires Sorted(lhs.keys) && Sorted(rhs.keys)
    requires NoDuplicates(rhs.keys)
    ensures lhs.Contains(rhs) <==> forall x | x in rhs.keys :: x in lhs.keys
  {
    IncludesIsMultisetInclusion(lhs.keys, rhs.keys);
    if multiset(rhs.keys) <= multiset(lhs.keys) {
      forall x | x in rhs.keys
        ensures x in lhs.keys
      {
        assert x in multiset(rhs.keys);
        assert x in multiset(lhs.keys);
      }
    }
    if forall x | x in rhs.keys :: x in lhs.keys {
      forall y ensures multiset(rhs.keys)[y] <= multiset(lhs.keys)[y] {
        if y in rhs.keys {
          OccursOnce(rhs.keys, y);
          assert y in multiset(lhs.keys);
        }
      }
    }
  }

  /** In a sequence without duplicates every element occurs exactly once. */
  lemma {:induction false} OccursOnce(s: seq<Lid>, y: Lid)
    requires NoDuplicates(s)
    requires y in s
    ensures multiset(s)[y] == 1
  {
    assert s == [s[0]] + s[1..];
    if s[0] == y {
      assert y !in s[1..];
    } else {
      OccursOnce(s[1..], y);
    }
  }
}
