/** The stable ascending sort by time stamp of the layout step
    (`Array.prototype.sort`, which is stable, with the comparator
    `a.timestamp - b.timestamp`), modelled as an insertion sort. */
module Sorting {
  import opened Events

  /** `a` comes strictly before `b` in a stable sort: earlier time stamp, or
      the same time stamp and an earlier position in the input. */
  predicate Before(a: Annotated, b: Annotated) {
    a.timestamp < b.timestamp || (a.timestamp == b.timestamp && a.originalIndex < b.originalIndex)
  }

  predicate SortedByTimestamp(s: seq<Annotated>) {
    forall i, j :: 0 <= i < j < |s| ==> s[i].timestamp <= s[j].timestamp
  }

  /** Sorted by time stamp, ties in input order. */
  predicate StablySorted(s: seq<Annotated>) {
    forall i, j :: 0 <= i < j < |s| ==> Before(s[i], s[j])
  }

  /** The elements carry their input positions in increasing order, as the
      annotation step produces them. */
  predicate IndicesIncreasing(s: seq<Annotated>) {
    forall i, j :: 0 <= i < j < |s| ==> s[i].originalIndex < s[j].originalIndex
  }

  /** Places `x` in front of the first element whose time stamp is not
      smaller, so `x` precedes the elements it ties with. */
  function Insert(x: Annotated, t: seq<Annotated>): (r: seq<Annotated>)
    ensures multiset(r) == multiset(t) + multiset{x}
    ensures |r| == |t| + 1
  {
    if |t| == 0 || x.timestamp <= t[0].timestamp then [x] + t
    else
      assert t == [t[0]] + t[1..];
      [t[0]] + Insert(x, t[1..])
  }

  /** Every element of `Insert(x, t)` is `x` or an element of `t`. */
  lemma {:induction false} InsertElements(x: Annotated, t: seq<Annotated>)
    ensures forall y :: y in Insert(x, t) ==> y == x || y in t
  {
    forall y | y in Insert(x, t)
      ensures y == x || y in t
    {
      assert y in multiset(Insert(x, t));
    }
  }

  /** Insertion keeps a time-ordered list time-ordered. */
  lemma {:induction false} InsertSorted(x: Annotated, t: seq<Annotated>)
    requires SortedByTimestamp(t)
    ensures SortedByTimestamp(Insert(x, t))
  {
    if |t| == 0 || x.timestamp <= t[0].timestamp {
    } else {
      InsertSorted(x, t[1..]);
      InsertElements(x, t[1..]);
      var rest := Insert(x, t[1..]);
      forall y | y in rest
        ensures t[0].timestamp <= y.timestamp
      {
        if y != x {
          var k :| 0 <= k < |t[1..]| && t[1..][k] == y;
          assert t[k + 1] == y;
        }
      }
    }
  }

  /** Insertion of an element that precedes every element of a stably
      sorted list in input order keeps it stably sorted. */
  lemma {:induction false} InsertStable(x: Annotated, t: seq<Annotated>)
    requires StablySorted(t)
    requires forall y :: y in t ==> x.originalIndex < y.originalIndex
    ensures StablySorted(Insert(x, t))
  {
    if |t| == 0 || x.timestamp <= t[0].timestamp {
      var r := Insert(x, t);
      forall j | 0 < j < |r|
        ensures Before(r[0], r[j])
      {
        assert r[j] == t[j - 1];
        assert t[0].timestamp <= t[j - 1].timestamp by {
          if j > 1 {
            assert Before(t[0], t[j - 1]);
          }
        }
      }
    } else {
      var rest := Insert(x, t[1..]);
      InsertStable(x, t[1..]);
      InsertElements(x, t[1..]);
      forall j | 0 <= j < |rest|
        ensures Before(t[0], rest[j])
      {
        assert rest[j] in rest;
        if rest[j] != x {
          var k :| 0 <= k < |t[1..]| && t[1..][k] == rest[j];
          assert t[k + 1] == rest[j];
        }
      }
      assert Insert(x, t) == [t[0]] + rest;
    }
  }

  /** The stable sort: a time-ordered permutation of its input. */
  function SortByTimestamp(s: seq<Annotated>): (r: seq<Annotated>)
    ensures multiset(r) == multiset(s)
    ensures |r| == |s|
    ensures SortedByTimestamp(r)
  {
    if |s| == 0 then []
    else
      var rest := SortByTimestamp(s[1..]);
      assert s == [s[0]] + s[1..];
      InsertSorted(s[0], rest);
      Insert(s[0], rest)
  }

  /** Stability: when the input carries increasing positions, elements with
      equal time stamps leave the sort in input order. */
  lemma {:induction false} SortIsStable(s: seq<Annotated>)
    requires IndicesIncreasing(s)
    ensures StablySorted(SortByTimestamp(s))
  {
    if |s| > 0 {
      var rest := SortByTimestamp(s[1..]);
      SortIsStable(s[1..]);
      forall y | y in rest
        ensures s[0].originalIndex < y.originalIndex
      {
        assert y in multiset(s[1..]);
        var k :| 0 <= k < |s[1..]| && s[1..][k] == y;
        assert s[k + 1] == y;
      }
      InsertStable(s[0], rest);
    }
  }

  /** Two stably sorted permutations of the same elements start alike. */
  lemma {:induction false} StableHeadsEqual(a: seq<Annotated>, b: seq<Annotated>)
    requires StablySorted(a) && StablySorted(b)
    requires multiset(a) == multiset(b)
    requires |a| > 0
    ensures |b| > 0 && a[0] == b[0]
  {
    assert a[0] in multiset(b);
    assert b[0] in multiset(a);
  }

  /** Removing equal heads from equal multisets leaves equal multisets. */
  lemma {:induction false} MultisetTails(a: seq<Annotated>, b: seq<Annotated>)
    requires |a| > 0 && |b| > 0 && a[0] == b[0]
    requires multiset(a) == multiset(b)
    ensures multiset(a[1..]) == multiset(b[1..])
  {
    assert a == [a[0]] + a[1..];
    assert b == [b[0]] + b[1..];
    assert multiset(a[1..]) == multiset(a) - multiset{a[0]};
    assert multiset(b[1..]) == multiset(b) - multiset{b[0]};
  }

  /** A stable sort has exactly one possible result: two stably sorted
      permutations of the same elements are equal. */
  lemma {:induction false} StableSortUnique(a: seq<Annotated>, b: seq<Annotated>)
    requires StablySorted(a) && StablySorted(b)
    requires multiset(a) == multiset(b)
    ensures a == b
    decreases |a|
  {
    if |a| == 0 {
      assert |b| == |multiset(b)| == 0;
    } else {
      StableHeadsEqual(a, b);
      MultisetTails(a, b);
      StableSortUnique(a[1..], b[1..]);
      assert a == [a[0]] + a[1..];
      assert b == [b[0]] + b[1..];
    }
  }
}
