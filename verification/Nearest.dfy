/** Stable sorting by a key, and what "the n nearest of a set" means. Shared by the routing table and the lookup. */
module Nearest {

  /** `x` placed after every element whose key is not larger. */
  function Insert<T>(s: seq<T>, x: T, key: T -> nat): (r: seq<T>)
  {
    if s == [] then [x]
    else if key(x) < key(s[|s| - 1]) then Insert(s[..|s| - 1], x, key) + [s[|s| - 1]]
    else s + [x]
  }

  /** The result of a stable `sort_by` on the key. */
  function SortBy<T>(s: seq<T>, key: T -> nat): (r: seq<T>)
  {
    if s == [] then [] else Insert(SortBy(s[..|s| - 1], key), s[|s| - 1], key)
  }

  function Take<T>(s: seq<T>, n: nat): (r: seq<T>)
    ensures |r| <= n && r <= s
  {
    if |s| <= n then s else s[..n]
  }

  function Elements<T>(s: seq<T>): (r: set<T>)
  {
    set x | x in s
  }

  predicate Ascending<T(!new)>(s: seq<T>, key: T -> nat)
  {
    forall i, j :: 0 <= i < j < |s| ==> key(s[i]) <= key(s[j])
  }

  predicate StrictlyAscending<T(!new)>(s: seq<T>, key: T -> nat)
  {
    forall i, j :: 0 <= i < j < |s| ==> key(s[i]) < key(s[j])
  }

  predicate Injective<T(!new)>(all: set<T>, key: T -> nat)
  {
    forall x, y :: x in all && y in all && key(x) == key(y) ==> x == y
  }

  predicate Distinct<T(==)>(s: seq<T>)
  {
    forall i, j :: 0 <= i < j < |s| ==> s[i] != s[j]
  }

  function Min(a: nat, b: nat): (m: nat)
  {
    if a < b then a else b
  }

  /** `r` lists the `n` elements of `all` with the smallest keys, nearest first. */
  predicate IsNearest<T(!new)>(r: seq<T>, all: set<T>, n: nat, key: T -> nat)
  {
    && StrictlyAscending(r, key)
    && Elements(r) <= all
    && |r| == Min(n, |all|)
    && Closer(r, all, key)
  }

  predicate Closer<T(!new)>(r: seq<T>, all: set<T>, key: T -> nat)
  {
    forall i, y :: 0 <= i < |r| && y in all && y !in r ==> key(r[i]) < key(y)
  }

  // ---------- Sorting ----------

  lemma {:induction false} InsertPermutes<T>(s: seq<T>, x: T, key: T -> nat)
    ensures multiset(Insert(s, x, key)) == multiset(s) + multiset{x}
  {
    if s != [] {
      InsertPermutes(s[..|s| - 1], x, key);
      assert s == s[..|s| - 1] + [s[|s| - 1]];
    }
  }

  lemma {:induction false} InsertBelow<T(!new)>(s: seq<T>, x: T, key: T -> nat, bound: nat)
    requires key(x) <= bound && forall i :: 0 <= i < |s| ==> key(s[i]) <= bound
    ensures forall i :: 0 <= i < |Insert(s, x, key)| ==> key(Insert(s, x, key)[i]) <= bound
  {
    if s != [] {
      InsertBelow(s[..|s| - 1], x, key, bound);
    }
  }

  lemma {:induction false} InsertAscends<T(!new)>(s: seq<T>, x: T, key: T -> nat)
    requires Ascending(s, key)
    ensures Ascending(Insert(s, x, key), key)
  {
    if s != [] && key(x) < key(s[|s| - 1]) {
      InsertAscends(s[..|s| - 1], x, key);
      InsertBelow(s[..|s| - 1], x, key, key(s[|s| - 1]));
    }
  }

  /** The sort yields an ascending permutation. */
  lemma {:induction false} SortBySorts<T(!new)>(s: seq<T>, key: T -> nat)
    ensures multiset(SortBy(s, key)) == multiset(s) && |SortBy(s, key)| == |s|
    ensures Ascending(SortBy(s, key), key)
  {
    if s != [] {
      var t := s[..|s| - 1];
      SortBySorts(t, key);
      InsertPermutes(SortBy(t, key), s[|s| - 1], key);
      InsertAscends(SortBy(t, key), s[|s| - 1], key);
      assert s == t + [s[|s| - 1]];
    }
    assert |multiset(SortBy(s, key))| == |multiset(s)|;
  }

  /** Sorting after one push onto a sorted list is one insertion. */
  lemma SortPushed<T(!new)>(s: seq<T>, x: T, key: T -> nat)
    requires Ascending(s, key)
    ensures SortBy(s + [x], key) == Insert(s, x, key)
  {
    SortSorted(s, key);
    assert (s + [x])[..|s|] == s;
  }

  lemma {:induction false} SortSorted<T(!new)>(s: seq<T>, key: T -> nat)
    requires Ascending(s, key)
    ensures SortBy(s, key) == s
  {
    if s != [] {
      SortSorted(s[..|s| - 1], key);
      assert s == s[..|s| - 1] + [s[|s| - 1]];
    }
  }

  lemma SameElements<T>(s: seq<T>, t: seq<T>)
    requires multiset(s) == multiset(t)
    ensures Elements(s) == Elements(t) && |s| == |t|
  {
    forall x ensures x in s <==> x in t {
      assert x in multiset(s) <==> x in multiset(t);
    }
    assert |multiset(s)| == |multiset(t)|;
  }

  // ---------- Nearest ----------

  lemma {:induction false} DistinctCount<T>(s: seq<T>)
    requires Distinct(s)
    ensures |Elements(s)| == |s|
  {
    if s != [] {
      var n := |s| - 1;
      DistinctCount(s[..n]);
      assert Elements(s) == Elements(s[..n]) + {s[n]};
      assert s[n] !in s[..n];
    }
  }

  lemma StrictIsDistinct<T(!new)>(s: seq<T>, key: T -> nat)
    requires StrictlyAscending(s, key)
    ensures Distinct(s) && |Elements(s)| == |s|
  {
    DistinctCount(s);
  }

  lemma SubsetCount<T>(a: set<T>, b: set<T>)
    requires a <= b
    ensures |a| <= |b| && (|a| == |b| ==> a == b)
  {
    assert b == a + (b - a);
    assert |b| == |a| + |b - a|;
    if |a| == |b| {
      assert b - a == {};
    }
  }

  /** At most one list is the nearest `n` of a set. */
  lemma NearestUnique<T(!new)>(r: seq<T>, s: seq<T>, all: set<T>, n: nat, key: T -> nat)
    requires Injective(all, key) && IsNearest(r, all, n, key) && IsNearest(s, all, n, key)
    ensures r == s
  {
    NearestPrefix(r, s, all, n, key, |r|);
    assert r == r[..|r|] && s == s[..|r|];
  }

  lemma {:induction false} NearestPrefix<T(!new)>(r: seq<T>, s: seq<T>, all: set<T>, n: nat, key: T -> nat, k: nat)
    requires Injective(all, key) && IsNearest(r, all, n, key) && IsNearest(s, all, n, key) && k <= |r|
    ensures r[..k] == s[..k]
  {
    if k > 0 {
      NearestPrefix(r, s, all, n, key, k - 1);
      NotNearer(r, s, all, n, key, k - 1);
      NotNearer(s, r, all, n, key, k - 1);
      assert r[k - 1] in Elements(r) && s[k - 1] in Elements(s);
      assert r[..k] == r[..k - 1] + [r[k - 1]] && s[..k] == s[..k - 1] + [s[k - 1]];
    }
  }

  lemma NotNearer<T(!new)>(r: seq<T>, s: seq<T>, all: set<T>, n: nat, key: T -> nat, k: nat)
    requires IsNearest(r, all, n, key) && IsNearest(s, all, n, key)
    requires k < |r| && r[..k] == s[..k]
    ensures key(s[k]) <= key(r[k])
  {
    forall j | 0 <= j < k ensures s[j] == r[j] {
      assert s[..k][j] == r[..k][j];
    }
    if r[k] in s {
      var j :| 0 <= j < |s| && s[j] == r[k];
    } else {
      assert r[k] in Elements(r);
    }
  }

  /** Sorting distinct elements and keeping the first `n` gives the nearest `n`. */
  lemma SortedPrefixIsNearest<T(!new)>(s: seq<T>, n: nat, key: T -> nat)
    requires Distinct(s) && Injective(Elements(s), key)
    ensures IsNearest(Take(SortBy(s, key), n), Elements(s), n, key)
  {
    var t := SortBy(s, key);
    SortBySorts(s, key);
    SameElements(s, t);
    DistinctCount(s);
    PermutedDistinct(s, t);
    AscendingDistinct(t, key);
    PrefixIsNearest(t, n, key);
  }

  lemma PermutedDistinct<T>(s: seq<T>, t: seq<T>)
    requires Distinct(s) && multiset(s) == multiset(t)
    ensures Distinct(t)
  {
    forall i, j | 0 <= i < j < |t| ensures t[i] != t[j] {
      AtMostOnce(s, t[i]);
      if t[i] == t[j] {
        CountedTwice(t, i, j);
      }
    }
  }

  lemma CountedTwice<T>(t: seq<T>, i: nat, j: nat)
    requires i < j < |t| && t[i] == t[j]
    ensures multiset(t)[t[i]] >= 2
  {
    assert t == t[..i] + [t[i]] + t[i + 1..j] + [t[j]] + t[j + 1..];
  }

  lemma {:induction false} AtMostOnce<T>(s: seq<T>, x: T)
    requires Distinct(s)
    ensures multiset(s)[x] <= 1
  {
    if s != [] {
      var n := |s| - 1;
      AtMostOnce(s[..n], x);
      assert s == s[..n] + [s[n]];
      if x == s[n] {
        assert x !in s[..n];
      }
    }
  }

  lemma AscendingDistinct<T(!new)>(t: seq<T>, key: T -> nat)
    requires Distinct(t) && Ascending(t, key) && Injective(Elements(t), key)
    ensures StrictlyAscending(t, key)
  {
    forall i, j | 0 <= i < j < |t| ensures key(t[i]) < key(t[j]) {
      assert t[i] in Elements(t) && t[j] in Elements(t);
    }
  }

  lemma PrefixIsNearest<T(!new)>(t: seq<T>, n: nat, key: T -> nat)
    requires StrictlyAscending(t, key)
    ensures IsNearest(Take(t, n), Elements(t), n, key)
  {
    StrictIsDistinct(t, key);
    var r := Take(t, n);
    assert forall j :: 0 <= j < |r| ==> t[j] == r[j] && t[j] in r;
    forall i, y | 0 <= i < |r| && y in Elements(t) && y !in r ensures key(r[i]) < key(y) {
      var j :| 0 <= j < |t| && t[j] == y;
    }
  }

  /** A prefix of the nearest `n` is the nearest `m`. */
  lemma NearestTake<T(!new)>(r: seq<T>, all: set<T>, n: nat, m: nat, key: T -> nat)
    requires IsNearest(r, all, n, key) && m <= n
    ensures IsNearest(Take(r, m), all, m, key)
  {
    var t := Take(r, m);
    assert forall j :: 0 <= j < |t| ==> r[j] == t[j] && r[j] in t;
    forall i, y | 0 <= i < |t| && y in all && y !in t ensures key(t[i]) < key(y) {
      if y in r {
        var j :| 0 <= j < |r| && r[j] == y;
      }
    }
  }

  /** Adding one element: inserting it and truncating again keeps the nearest `n`, also for an element that was
      dropped earlier. */
  lemma NearestInsert<T(!new)>(r: seq<T>, all: set<T>, n: nat, x: T, key: T -> nat)
    requires IsNearest(r, all, n, key) && Injective(all + {x}, key) && x !in r
    ensures IsNearest(Take(Insert(r, x, key), n), all + {x}, n, key)
  {
    hide Insert, Injective;
    StrictIsDistinct(r, key);
    assert Ascending(r, key) && Distinct(r);
    assert Injective(Elements(r) + {x}, key) by {
      InjectiveSubset(Elements(r) + {x}, all + {x}, key);
    }
    Inserted(r, x, key);
    var t := Insert(r, x, key);
    PrefixIsNearest(t, n, key);
    TakeIsNearest(Take(t, n), t, r, all, n, x, key);
  }

  lemma InjectiveSubset<T(!new)>(a: set<T>, b: set<T>, key: T -> nat)
    requires a <= b && Injective(b, key)
    ensures Injective(a, key)
  {
  }

  lemma Inserted<T(!new)>(r: seq<T>, x: T, key: T -> nat)
    requires Ascending(r, key) && Distinct(r) && x !in r && Injective(Elements(r) + {x}, key)
    ensures var t := Insert(r, x, key);
            Elements(t) == Elements(r) + {x} && |t| == |r| + 1 && StrictlyAscending(t, key)
  {
    hide Insert, Injective;
    var t := Insert(r, x, key);
    InsertPermutes(r, x, key);
    assert multiset(t) == multiset(r + [x]);
    SameElements(t, r + [x]);
    assert Elements(r + [x]) == Elements(r) + {x};
    InsertAscends(r, x, key);
    PermutedDistinct(r + [x], t);
    AscendingDistinct(t, key);
  }

  lemma TakeIsNearest<T(!new)>(u: seq<T>, t: seq<T>, r: seq<T>, all: set<T>, n: nat, x: T, key: T -> nat)
    requires IsNearest(r, all, n, key) && x !in r && u == Take(t, n)
    requires Elements(t) == Elements(r) + {x} && |t| == |r| + 1 && StrictlyAscending(t, key)
    requires IsNearest(u, Elements(t), n, key) && |Elements(r)| == |r|
    ensures IsNearest(u, all + {x}, n, key)
  {
    forall y | y in u ensures y in all + {x} {
      assert y in Elements(u);
    }
    if |r| < n {
      SubsetCount(Elements(r), all);
      assert all + {x} == Elements(t);
    } else {
      SubsetCount(all, all + {x});
      forall i, y | 0 <= i < |u| && y in all + {x} && y !in u ensures key(u[i]) < key(y) {
        if y in Elements(t) {
        } else {
          Dropped(u, t, r, all, n, x, y, key, i);
        }
      }
    }
  }

  /** An element outside both lists is farther than the one the truncation drops. */
  lemma Dropped<T(!new)>(u: seq<T>, t: seq<T>, r: seq<T>, all: set<T>, n: nat, x: T, y: T, key: T -> nat, i: nat)
    requires IsNearest(r, all, n, key) && |r| == n && i < |u|
    requires Elements(t) == Elements(r) + {x} && |t| == n + 1 && StrictlyAscending(t, key) && u == t[..n]
    requires y in all && y !in Elements(t)
    ensures key(u[i]) < key(y)
  {
    assert u[i] == t[i];
    if t[i] != x {
      InFirst(r, t, i);
    } else {
      InFirst(r, t, i + 1);
    }
  }

  lemma InFirst<T>(r: seq<T>, t: seq<T>, i: nat)
    requires i < |t|
    ensures t[i] in Elements(t) && (t[i] in Elements(r) ==> exists j :: 0 <= j < |r| && r[j] == t[i])
  {
  }
}
