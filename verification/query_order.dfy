/** Sorting of decoded query parameters, as `sorted()` orders the
    `(key, value)` tuples of a parsed query string. */
module QueryOrder {
  import opened Strings

  /** One decoded query parameter: `(key, value)`. */
  type Pair = (string, string)

  /** Python's tuple comparison `p <= q`: keys first, values break ties. */
  predicate PairLe(p: Pair, q: Pair)
  {
    if p.0 == q.0 then StrLe(p.1, q.1) else StrLe(p.0, q.0)
  }

  lemma PairLeReflexive(p: Pair)
    ensures PairLe(p, p)
  {
    StrLeReflexive(p.1);
  }

  lemma PairLeTotal(p: Pair, q: Pair)
    ensures PairLe(p, q) || PairLe(q, p)
  {
    StrLeTotal(p.0, q.0);
    StrLeTotal(p.1, q.1);
  }

  lemma PairLeAntisymmetric(p: Pair, q: Pair)
    requires PairLe(p, q) && PairLe(q, p)
    ensures p == q
  {
    if p.0 == q.0 {
      StrLeAntisymmetric(p.1, q.1);
    } else {
      StrLeAntisymmetric(p.0, q.0);
    }
  }

  lemma PairLeTransitive(p: Pair, q: Pair, r: Pair)
    requires PairLe(p, q) && PairLe(q, r)
    ensures PairLe(p, r)
  {
    if p.0 == q.0 && q.0 == r.0 {
      StrLeTransitive(p.1, q.1, r.1);
    } else if p.0 == q.0 {
      assert StrLe(q.0, r.0);
    } else if q.0 == r.0 {
      assert StrLe(p.0, q.0);
    } else {
      StrLeTransitive(p.0, q.0, r.0);
      if p.0 == r.0 {
        StrLeAntisymmetric(p.0, q.0);
      }
    }
  }

  predicate Sorted(s: seq<Pair>)
  {
    forall i, j :: 0 <= i < j < |s| ==> PairLe(s[i], s[j])
  }

  /** Places `p` before the first element it does not exceed. */
  function Insert(p: Pair, s: seq<Pair>): (r: seq<Pair>)
    requires Sorted(s)
    ensures Sorted(r)
    ensures multiset(r) == multiset(s) + multiset{p}
  {
    if |s| == 0 then [p]
    else if PairLe(p, s[0]) then
      InsertFront(p, s);
      [p] + s
    else
      var rest := Insert(p, s[1..]);
      InsertBehind(p, s, rest);
      [s[0]] + rest
  }

  /** A pair no greater than the first element goes in front. */
  lemma InsertFront(p: Pair, s: seq<Pair>)
    requires Sorted(s) && |s| > 0 && PairLe(p, s[0])
    ensures Sorted([p] + s)
  {
    assert forall j :: 0 <= j < |s| ==> PairLe(p, s[j]) by {
      forall j | 0 <= j < |s| ensures PairLe(p, s[j]) {
        if j > 0 { PairLeTransitive(p, s[0], s[j]); }
      }
    }
    var r := [p] + s;
    assert forall k :: 1 <= k < |r| ==> r[k] == s[k - 1];
  }

  /** A pair greater than the first element goes into the rest, which
      stays behind that element. */
  lemma InsertBehind(p: Pair, s: seq<Pair>, rest: seq<Pair>)
    requires Sorted(s) && |s| > 0 && !PairLe(p, s[0])
    requires Sorted(rest) && multiset(rest) == multiset(s[1..]) + multiset{p}
    ensures Sorted([s[0]] + rest)
    ensures multiset([s[0]] + rest) == multiset(s) + multiset{p}
  {
    PairLeTotal(p, s[0]);
    assert forall k :: 0 <= k < |rest| ==> PairLe(s[0], rest[k]) by {
      forall k | 0 <= k < |rest| ensures PairLe(s[0], rest[k]) {
        assert rest[k] in multiset(rest);
        if rest[k] != p {
          assert rest[k] in multiset(s[1..]);
          var j :| 0 <= j < |s[1..]| && s[1..][j] == rest[k];
          assert s[j + 1] == rest[k];
        }
      }
    }
    var r := [s[0]] + rest;
    assert forall k :: 1 <= k < |r| ==> r[k] == rest[k - 1];
    assert s == [s[0]] + s[1..];
  }

  /** `sorted()` on query pairs: an ordered permutation of the input. */
  function SortPairs(s: seq<Pair>): (r: seq<Pair>)
    ensures Sorted(r)
    ensures multiset(r) == multiset(s)
  {
    if |s| == 0 then []
    else
      assert s == [s[0]] + s[1..];
      Insert(s[0], SortPairs(s[1..]))
  }

  /** Two sorted sequences holding the same elements are equal: the sorted
      order of a collection of pairs is unique. */
  lemma {:induction false} SortedUnique(a: seq<Pair>, b: seq<Pair>)
    requires Sorted(a) && Sorted(b)
    requires multiset(a) == multiset(b)
    ensures a == b
    decreases |a|
  {
    if |a| == 0 {
      assert |multiset(b)| == 0;
    } else {
      SortedHeadsAgree(a, b);
      SortedTailsAgree(a, b);
      SortedUnique(a[1..], b[1..]);
      assert a == [a[0]] + a[1..] && b == [b[0]] + b[1..];
    }
  }

  /** Two sorted sequences holding the same elements start alike. */
  lemma SortedHeadsAgree(a: seq<Pair>, b: seq<Pair>)
    requires Sorted(a) && Sorted(b) && |a| > 0
    requires multiset(a) == multiset(b)
    ensures |b| > 0 && a[0] == b[0]
  {
    assert a[0] in multiset(b);
    var j :| 0 <= j < |b| && b[j] == a[0];
    if j == 0 { PairLeReflexive(a[0]); }
    assert PairLe(b[0], a[0]);
    assert b[0] in multiset(a);
    var i :| 0 <= i < |a| && a[i] == b[0];
    if i == 0 { PairLeReflexive(b[0]); }
    assert PairLe(a[0], b[0]);
    PairLeAntisymmetric(a[0], b[0]);
  }

  /** ... and, with their first elements gone, still hold the same
      elements. */
  lemma SortedTailsAgree(a: seq<Pair>, b: seq<Pair>)
    requires |a| > 0 && |b| > 0 && a[0] == b[0]
    requires multiset(a) == multiset(b)
    ensures multiset(a[1..]) == multiset(b[1..])
  {
    assert a == [a[0]] + a[1..] && b == [b[0]] + b[1..];
    assert multiset(a) == multiset{a[0]} + multiset(a[1..]);
    assert multiset(b) == multiset{b[0]} + multiset(b[1..]);
    calc {
      multiset(a[1..]);
      multiset(a) - multiset{a[0]};
      multiset(b) - multiset{b[0]};
      multiset(b[1..]);
    }
  }

  /** Sorting is insensitive to the input order: any permutation of the
      parameters sorts to the same sequence. */
  lemma SortPairsPermutationInvariant(s: seq<Pair>, t: seq<Pair>)
    requires multiset(s) == multiset(t)
    ensures SortPairs(s) == SortPairs(t)
  {
    SortedUnique(SortPairs(s), SortPairs(t));
  }

  /** Sorting an already sorted sequence leaves it unchanged. */
  lemma SortPairsOfSorted(s: seq<Pair>)
    requires Sorted(s)
    ensures SortPairs(s) == s
  {
    SortedUnique(SortPairs(s), s);
  }
}
