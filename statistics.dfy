/** The median computed for each ZIP group: the
    middle value of the sorted column, or the mean of the two middle values
    when the group has an even number of rows. */
module Statistics {
  import opened Tables

  predicate Sorted(s: seq<real>)
  {
    forall i, j :: 0 <= i < j < |s| ==> s[i] <= s[j]
  }

  function Insert(x: real, s: seq<real>): (r: seq<real>)
    requires Sorted(s)
    ensures Sorted(r)
    ensures multiset(r) == multiset(s) + multiset{x}
  {
    if s == [] || x <= s[0] then [x] + s
    else
      var rest := Insert(x, s[1..]);
      assert s == [s[0]] + s[1..];
      assert forall i :: 0 <= i < |rest| ==> s[0] <= rest[i] by {
        forall i | 0 <= i < |rest| ensures s[0] <= rest[i] {
          assert rest[i] in multiset(rest);
          assert rest[i] == x || rest[i] in multiset(s[1..]);
        }
      }
      [s[0]] + rest
  }

  /** Insertion sort: an ascending permutation of `s`. */
  function SortAscending(s: seq<real>): (r: seq<real>)
    ensures Sorted(r)
    ensures multiset(r) == multiset(s)
  {
    if s == [] then []
    else
      assert s == [s[0]] + s[1..];
      Insert(s[0], SortAscending(s[1..]))
  }

  /** The middle of an already sorted column. */
  function Middle(t: seq<real>): real
    requires |t| > 0
  {
    var n := |t|;
    if n % 2 == 1 then t[n / 2] else (t[n / 2 - 1] + t[n / 2]) / 2.0
  }

  lemma SortedLength(s: seq<real>)
    ensures |SortAscending(s)| == |s|
  {
    assert |SortAscending(s)| == |multiset(SortAscending(s))| == |multiset(s)| == |s|;
  }

  /** The median of a column: the middle of its ascending arrangement, or
      the mean of the two middle values when the count is even. At least
      half of the values are at most it and at least half are at least it,
      each value counted as often as it occurs. */
  function Median(s: seq<real>): (m: real)
    requires |s| > 0
    ensures 2 * |Where(s, AtMost(m))| >= |s|
    ensures 2 * |Where(s, AtLeast(m))| >= |s|
  {
    MiddleSplitsHalves(s);
    Middle(SortAscending(s))
  }

  // ---------------------------------------------------------------------
  // Properties of the median

  lemma SortedHeadIsLeast(s: seq<real>)
    requires Sorted(s) && s != []
    ensures forall y :: y in multiset(s) ==> s[0] <= y
  {
    forall y | y in multiset(s) ensures s[0] <= y {
      assert y in s;
    }
  }

  /** There is exactly one ascending arrangement of a multiset of values. */
  lemma SortedHeadsAgree(a: seq<real>, b: seq<real>)
    requires Sorted(a) && Sorted(b) && multiset(a) == multiset(b) && a != []
    ensures b != [] && a[0] == b[0]
  {
    assert a[0] in multiset(b);
    SortedHeadIsLeast(a);
    SortedHeadIsLeast(b);
    assert b[0] in multiset(a);
  }

  lemma TailsAgree(a: seq<real>, b: seq<real>)
    requires a != [] && b != [] && a[0] == b[0] && multiset(a) == multiset(b)
    ensures multiset(a[1..]) == multiset(b[1..])
  {
    assert a == [a[0]] + a[1..] && b == [b[0]] + b[1..];
    assert multiset(a[1..]) == multiset(a) - multiset{a[0]};
    assert multiset(b[1..]) == multiset(b) - multiset{b[0]};
  }

  /** There is exactly one ascending arrangement of a multiset of values. */
  lemma {:induction false} SortedPermutationsAreEqual(a: seq<real>, b: seq<real>)
    requires Sorted(a) && Sorted(b) && multiset(a) == multiset(b)
    ensures a == b
  {
    if a == [] {
      assert |b| == |multiset(b)| == 0;
    } else {
      SortedHeadsAgree(a, b);
      TailsAgree(a, b);
      SortedPermutationsAreEqual(a[1..], b[1..]);
      assert a == [a[0]] + a[1..] && b == [b[0]] + b[1..];
    }
  }

  /** The median does not depend on the order of the rows. */
  lemma MedianIgnoresOrder(a: seq<real>, b: seq<real>)
    requires |a| > 0 && multiset(a) == multiset(b)
    ensures |b| > 0 && Median(a) == Median(b)
  {
    assert |a| == |multiset(a)| == |multiset(b)| == |b|;
    SortedPermutationsAreEqual(SortAscending(a), SortAscending(b));
  }

  /** If every row of a segment satisfies `p`, the mask keeps at least that
      many rows. */
  lemma {:induction false} WhereCountsSegment(s: seq<real>, p: real -> bool, lo: nat, hi: nat)
    requires lo <= hi <= |s|
    requires forall i :: lo <= i < hi ==> p(s[i])
    ensures |Where(s, p)| >= hi - lo
  {
    if lo < hi {
      if lo > 0 {
        WhereCountsSegment(s[1..], p, lo - 1, hi - 1);
      } else {
        WhereCountsSegment(s[1..], p, 0, hi - 1);
      }
    }
  }

  /** The number of rows a mask keeps does not depend on the row order. */
  lemma WhereCountIgnoresOrder(a: seq<real>, b: seq<real>, p: real -> bool)
    requires multiset(a) == multiset(b)
    ensures |Where(a, p)| == |Where(b, p)|
  {
    var ra, rb := Where(a, p), Where(b, p);
    forall y ensures multiset(ra)[y] == multiset(rb)[y] {
      if y in a {
        assert y in multiset(b);
      } else {
        assert y !in multiset(b);
        assert y !in ra && y !in rb;
      }
    }
    assert multiset(ra) == multiset(rb);
    assert |ra| == |multiset(ra)| == |multiset(rb)| == |rb|;
  }

  function AtMost(m: real): real -> bool
  {
    x => x <= m
  }

  function AtLeast(m: real): real -> bool
  {
    x => x >= m
  }

  /** Every value up to the middle of a sorted column is at most its
      middle, every value from the middle on is at least its middle. */
  lemma MiddleSplitsSorted(t: seq<real>)
    requires |t| > 0 && Sorted(t)
    ensures forall i :: 0 <= i < (|t| + 1) / 2 ==> t[i] <= Middle(t)
    ensures forall i :: |t| / 2 <= i < |t| ==> Middle(t) <= t[i]
  {
    var n, m := |t|, Middle(t);
    var lo, hi := (n - 1) / 2, n / 2;
    assert (n + 1) / 2 == lo + 1;
    assert t[lo] <= m <= t[hi];
  }

  /** The middle of the sorted column splits the column itself in halves. */
  lemma MiddleSplitsHalves(s: seq<real>)
    requires |s| > 0
    ensures |SortAscending(s)| == |s|
    ensures 2 * |Where(s, AtMost(Middle(SortAscending(s))))| >= |s|
    ensures 2 * |Where(s, AtLeast(Middle(SortAscending(s))))| >= |s|
  {
    SortedLength(s);
    var t := SortAscending(s);
    var m := Middle(t);
    MiddleSplitsSorted(t);
    WhereCountsSegment(t, AtMost(m), 0, (|s| + 1) / 2);
    WhereCountIgnoresOrder(t, s, AtMost(m));
    WhereCountsSegment(t, AtLeast(m), |s| / 2, |s|);
    WhereCountIgnoresOrder(t, s, AtLeast(m));
  }

  lemma MedianOfSorted(s: seq<real>)
    requires |s| > 0
    ensures var t := SortAscending(s);
      && |t| == |s|
      && (forall i :: 0 <= i < (|s| + 1) / 2 ==> t[i] <= Median(s))
      && (forall i :: |s| / 2 <= i < |s| ==> Median(s) <= t[i])
  {
    SortedLength(s);
    MiddleSplitsSorted(SortAscending(s));
  }

  /** The median lies between the smallest and the largest value; when the
      count is odd it is one of the values. */
  lemma MedianWithinValues(s: seq<real>)
    requires |s| > 0
    ensures exists i :: 0 <= i < |s| && s[i] <= Median(s)
    ensures exists j :: 0 <= j < |s| && Median(s) <= s[j]
    ensures |s| % 2 == 1 ==> Median(s) in s
  {
    var t, n := SortAscending(s), |s|;
    MedianOfSorted(s);
    assert t[0] <= Median(s) <= t[n - 1];
    assert t[0] in multiset(s) && t[n - 1] in multiset(s);
    var i :| 0 <= i < n && s[i] == t[0];
    var j :| 0 <= j < n && s[j] == t[n - 1];
    if n % 2 == 1 {
      assert Median(s) == t[n / 2];
      assert t[n / 2] in multiset(s);
    }
  }
}
