/** Whole-table operations the pipeline is built from, written over sequences
    of rows: selection of rows by a boolean mask, first-match lookup by a key
    column, and deduplication on a key column that keeps the first row of
    each key. */
module Tables {

  datatype Option<+T> = None | Some(value: T)

  function MapOption<T, U>(o: Option<T>, f: T -> U): (r: Option<U>)
    ensures r.Some? <==> o.Some?
    ensures r.Some? ==> r.value == f(o.value)
  {
    match o
    case None => None
    case Some(v) => Some(f(v))
  }

  /** `a` is obtained from `b` by deleting rows, without reordering the rest. */
  ghost predicate IsSubsequence<T>(a: seq<T>, b: seq<T>)
    decreases |b|
  {
    a == [] || (b != [] && ((a[0] == b[0] && IsSubsequence(a[1..], b[1..])) || IsSubsequence(a, b[1..])))
  }

  /** The set of values a key column takes. */
  function KeySet<T, K>(s: seq<T>, key: T -> K): set<K>
  {
    set i | 0 <= i < |s| :: key(s[i])
  }

  /** No two rows share a key. */
  predicate UniqueKeys<T, K(==)>(s: seq<T>, key: T -> K)
  {
    forall i, j :: 0 <= i < j < |s| ==> key(s[i]) != key(s[j])
  }

  /** Boolean-mask selection: the rows of `s` for which `p` holds, in their
      original order. */
  function Where<T(==)>(s: seq<T>, p: T -> bool): (r: seq<T>)
    ensures |r| <= |s|
    ensures forall x :: x in r ==> x in s && p(x)
    ensures forall x :: x in s && p(x) ==> x in r
    ensures forall x :: x in s && !p(x) ==> |r| < |s|
    ensures forall x {:trigger multiset(r)[x]} :: x in s ==> multiset(r)[x] == if p(x) then multiset(s)[x] else 0
    ensures IsSubsequence(r, s)
  {
    if s == [] then []
    else
      assert s == [s[0]] + s[1..];
      if p(s[0]) then [s[0]] + Where(s[1..], p)
      else Where(s[1..], p)
  }

  /** Position of the first row whose key is `k`; `|s|` when there is none. */
  function FirstIndex<T, K(==)>(s: seq<T>, key: T -> K, k: K): (i: nat)
    ensures i <= |s|
    ensures forall j :: 0 <= j < i ==> key(s[j]) != k
    ensures i < |s| ==> key(s[i]) == k
  {
    if s == [] then 0
    else if key(s[0]) == k then 0
    else 1 + FirstIndex(s[1..], key, k)
  }

  /** The first row whose key is `k`, if any. */
  function FirstWithKey<T, K(==)>(s: seq<T>, key: T -> K, k: K): (r: Option<T>)
    ensures r.Some? <==> k in KeySet(s, key)
    ensures r.Some? ==> r.value in s && key(r.value) == k
  {
    var i := FirstIndex(s, key, k);
    if i < |s| then Some(s[i]) else None
  }

  /** Scans `s` left to right, keeping a row only when its key is not in
      `seen` and has not been kept before. */
  function KeepFirst<T, K(==)>(s: seq<T>, key: T -> K, seen: set<K>): seq<T>
  {
    if s == [] then []
    else if key(s[0]) in seen then KeepFirst(s[1..], key, seen)
    else [s[0]] + KeepFirst(s[1..], key, seen + {key(s[0])})
  }

  /** Deduplication on one key column keeping the first row of each key:
      the result has unique keys, is obtained by deleting rows only, keeps
      every key, and holds for each key the row a first-match lookup finds
      in the input. */
  function DropDuplicates<T(==), K(==, !new)>(s: seq<T>, key: T -> K): (r: seq<T>)
    ensures UniqueKeys(r, key)
    ensures IsSubsequence(r, s)
    ensures KeySet(r, key) == KeySet(s, key)
    ensures forall k :: FirstWithKey(r, key, k) == FirstWithKey(s, key, k)
  {
    KeepFirstFacts(s, key, {});
    KeepFirst(s, key, {})
  }

  // ---------------------------------------------------------------------
  // Small facts about the definitions above

  lemma KeySetCons<T, K>(x: T, s: seq<T>, key: T -> K)
    ensures KeySet([x] + s, key) == {key(x)} + KeySet(s, key)
  {
    var t := [x] + s;
    forall k | k in KeySet(t, key) ensures k in {key(x)} + KeySet(s, key) {
      var i :| 0 <= i < |t| && key(t[i]) == k;
      if i > 0 { assert key(s[i - 1]) == k; }
    }
    forall k | k in KeySet(s, key) ensures k in KeySet(t, key) {
      var i :| 0 <= i < |s| && key(s[i]) == k;
      assert key(t[i + 1]) == k;
    }
    assert key(t[0]) == key(x);
  }

  lemma KeySetTail<T, K>(s: seq<T>, key: T -> K)
    requires s != []
    ensures KeySet(s, key) == {key(s[0])} + KeySet(s[1..], key)
  {
    assert s == [s[0]] + s[1..];
    KeySetCons(s[0], s[1..], key);
  }

  lemma UniqueKeysCons<T, K>(x: T, s: seq<T>, key: T -> K)
    requires UniqueKeys(s, key) && key(x) !in KeySet(s, key)
    ensures UniqueKeys([x] + s, key)
  {
    var t := [x] + s;
    forall i, j | 0 <= i < j < |t| ensures key(t[i]) != key(t[j]) {
      if i == 0 {
        assert key(t[j]) == key(s[j - 1]) && key(s[j - 1]) in KeySet(s, key);
      } else {
        assert t[i] == s[i - 1] && t[j] == s[j - 1];
      }
    }
  }

  lemma UniqueKeysTail<T, K>(s: seq<T>, key: T -> K)
    requires s != [] && UniqueKeys(s, key)
    ensures UniqueKeys(s[1..], key) && key(s[0]) !in KeySet(s[1..], key)
  {
    forall i | 0 <= i < |s[1..]| ensures key(s[1..][i]) != key(s[0]) {
      assert s[1..][i] == s[i + 1];
    }
  }

  lemma FirstWithKeyTail<T, K>(s: seq<T>, key: T -> K, k: K)
    requires s != []
    ensures FirstWithKey(s, key, k) == if key(s[0]) == k then Some(s[0]) else FirstWithKey(s[1..], key, k)
  {
  }

  lemma FirstWithKeyCons<T, K>(x: T, s: seq<T>, key: T -> K, k: K)
    ensures FirstWithKey([x] + s, key, k) == if key(x) == k then Some(x) else FirstWithKey(s, key, k)
  {
    FirstWithKeyTail([x] + s, key, k);
    assert ([x] + s)[1..] == s;
  }

  lemma {:induction false} SubsequenceMembers<T>(a: seq<T>, b: seq<T>)
    requires IsSubsequence(a, b)
    ensures forall x :: x in a ==> x in b
    decreases |b|
  {
    if a != [] {
      if a[0] == b[0] && IsSubsequence(a[1..], b[1..]) {
        SubsequenceMembers(a[1..], b[1..]);
        assert forall x :: x in a ==> x == a[0] || x in a[1..];
      } else {
        SubsequenceMembers(a, b[1..]);
      }
    }
  }

  lemma {:induction false} KeepFirstFacts<T, K>(s: seq<T>, key: T -> K, seen: set<K>)
    ensures UniqueKeys(KeepFirst(s, key, seen), key)
    ensures KeySet(KeepFirst(s, key, seen), key) == KeySet(s, key) - seen
    ensures IsSubsequence(KeepFirst(s, key, seen), s)
    ensures forall k :: k !in seen ==> FirstWithKey(KeepFirst(s, key, seen), key, k) == FirstWithKey(s, key, k)
  {
    if s != [] {
      var x := s[0];
      KeySetTail(s, key);
      if key(x) in seen {
        KeepFirstFacts(s[1..], key, seen);
        forall k | k !in seen ensures FirstWithKey(KeepFirst(s, key, seen), key, k) == FirstWithKey(s, key, k) {
          FirstWithKeyTail(s, key, k);
        }
      } else {
        var seen' := seen + {key(x)};
        var rest := KeepFirst(s[1..], key, seen');
        KeepFirstFacts(s[1..], key, seen');
        KeySetCons(x, rest, key);
        UniqueKeysCons(x, rest, key);
        forall k | k !in seen ensures FirstWithKey(KeepFirst(s, key, seen), key, k) == FirstWithKey(s, key, k) {
          FirstWithKeyTail(s, key, k);
          FirstWithKeyCons(x, rest, key, k);
        }
      }
    }
  }

  lemma {:induction false} KeepFirstOfUnique<T, K>(s: seq<T>, key: T -> K, seen: set<K>)
    requires UniqueKeys(s, key) && KeySet(s, key) !! seen
    ensures KeepFirst(s, key, seen) == s
  {
    if s != [] {
      KeySetTail(s, key);
      UniqueKeysTail(s, key);
      KeepFirstOfUnique(s[1..], key, seen + {key(s[0])});
    }
  }

  /** Deduplicating a table twice is the same as deduplicating it once. */
  lemma DropDuplicatesIdempotent<T, K(!new)>(s: seq<T>, key: T -> K)
    ensures DropDuplicates(DropDuplicates(s, key), key) == DropDuplicates(s, key)
  {
    KeepFirstOfUnique(DropDuplicates(s, key), key, {});
  }

  /** A table whose keys are already unique is left as it is. */
  lemma DropDuplicatesOfUnique<T, K(!new)>(s: seq<T>, key: T -> K)
    requires UniqueKeys(s, key)
    ensures DropDuplicates(s, key) == s
  {
    KeepFirstOfUnique(s, key, {});
  }

  /** Deleting rows cannot create a duplicate key. */
  lemma {:induction false} SubsequenceKeepsUniqueKeys<T, K>(a: seq<T>, b: seq<T>, key: T -> K)
    requires IsSubsequence(a, b) && UniqueKeys(b, key)
    ensures UniqueKeys(a, key)
    decreases |b|
  {
    if a != [] {
      UniqueKeysTail(b, key);
      if a[0] == b[0] && IsSubsequence(a[1..], b[1..]) {
        SubsequenceKeepsUniqueKeys(a[1..], b[1..], key);
        SubsequenceMembers(a[1..], b[1..]);
        forall i | 0 <= i < |a[1..]| ensures key(a[1..][i]) != key(a[0]) {
          assert a[1..][i] in b[1..];
          var j :| 0 <= j < |b[1..]| && b[1..][j] == a[1..][i];
          assert key(b[1..][j]) in KeySet(b[1..], key);
        }
        assert a == [a[0]] + a[1..];
        UniqueKeysCons(a[0], a[1..], key);
      } else {
        SubsequenceKeepsUniqueKeys(a, b[1..], key);
      }
    }
  }

  /** On a table with unique keys, looking a key up after filtering finds
      the row the unfiltered lookup finds, if the mask keeps it. */
  lemma {:induction false} FirstWithKeyWhere<T, K>(s: seq<T>, p: T -> bool, key: T -> K, k: K)
    requires UniqueKeys(s, key)
    ensures FirstWithKey(Where(s, p), key, k) ==
            match FirstWithKey(s, key, k)
            case Some(x) => if p(x) then Some(x) else None
            case None => None
  {
    if s != [] {
      UniqueKeysTail(s, key);
      FirstWithKeyWhere(s[1..], p, key, k);
      FirstWithKeyTail(s, key, k);
      if p(s[0]) {
        FirstWithKeyCons(s[0], Where(s[1..], p), key, k);
      }
      if key(s[0]) == k {
        // the key occurs nowhere else, so the filtered tail cannot hold it
        assert FirstWithKey(s[1..], key, k) == None;
      }
    }
  }

  /** Two tables whose key columns agree row by row find a key at the same
      position. */
  lemma FirstIndexPointwise<T, U, K>(s: seq<T>, ks: T -> K, t: seq<U>, kt: U -> K, k: K)
    requires |s| == |t|
    requires forall i :: 0 <= i < |s| ==> ks(s[i]) == kt(t[i])
    ensures FirstIndex(s, ks, k) == FirstIndex(t, kt, k)
  {
    var a, b := FirstIndex(s, ks, k), FirstIndex(t, kt, k);
    if b < |t| { assert ks(s[b]) == k; }
    if a < |s| { assert kt(t[a]) == k; }
  }

  lemma UniqueKeysPointwise<T, U, K>(s: seq<T>, ks: T -> K, t: seq<U>, kt: U -> K)
    requires |s| == |t|
    requires forall i :: 0 <= i < |s| ==> ks(s[i]) == kt(t[i])
    requires UniqueKeys(s, ks)
    ensures UniqueKeys(t, kt)
  {
  }

  /** In a table with unique keys, a row is what looking up its own key finds. */
  lemma FirstWithKeyOfMember<T, K>(s: seq<T>, key: T -> K, x: T)
    requires UniqueKeys(s, key) && x in s
    ensures FirstWithKey(s, key, key(x)) == Some(x)
  {
    var i :| 0 <= i < |s| && s[i] == x;
    var f := FirstIndex(s, key, key(x));
    assert f <= i;
  }

  /** Keys strictly increase from row to row. */
  predicate Increasing<T>(s: seq<T>, key: T -> int)
  {
    forall i, j :: 0 <= i < j < |s| ==> key(s[i]) < key(s[j])
  }

  /** Deleting rows keeps the keys in increasing order. */
  lemma {:induction false} SubsequenceKeepsIncreasing<T>(a: seq<T>, b: seq<T>, key: T -> int)
    requires IsSubsequence(a, b) && Increasing(b, key)
    ensures Increasing(a, key)
    decreases |b|
  {
    if a != [] {
      if a[0] == b[0] && IsSubsequence(a[1..], b[1..]) {
        SubsequenceKeepsIncreasing(a[1..], b[1..], key);
        SubsequenceMembers(a[1..], b[1..]);
        forall i | 0 < i < |a| ensures key(a[0]) < key(a[i]) {
          assert a[i] == a[1..][i - 1];
          assert a[i] in b[1..];
          var j :| 0 <= j < |b[1..]| && b[1..][j] == a[i];
          assert b[1..][j] == b[j + 1];
        }
        forall i, j | 0 <= i < j < |a| ensures key(a[i]) < key(a[j]) {
          if i > 0 {
            assert a[i] == a[1..][i - 1] && a[j] == a[1..][j - 1];
          }
        }
      } else {
        SubsequenceKeepsIncreasing(a, b[1..], key);
      }
    }
  }

  /** Applying a mask to rows already filtered by a weaker mask is the same
      as applying it to the unfiltered rows. */
  lemma {:induction false} WhereOfWhere<T>(s: seq<T>, p: T -> bool, q: T -> bool)
    requires forall x :: q(x) ==> p(x)
    ensures Where(Where(s, p), q) == Where(s, q)
  {
    if s != [] {
      WhereOfWhere(s[1..], p, q);
      if p(s[0]) {
        assert Where(s, p) == [s[0]] + Where(s[1..], p);
        assert Where(s, p)[1..] == Where(s[1..], p);
      }
    }
  }
}
