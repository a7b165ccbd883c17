/**
 * The ranking order both hammer games use: `Array.prototype.sort` with the
 * comparator `(a, b) => key(b) - key(a)`, a stable sort by descending key,
 * followed by keeping a fixed number of leading entries.
 */
module Ranking {

  predicate SortedDesc<T>(s: seq<T>, key: T -> real) {
    forall i, j :: 0 <= i < j < |s| ==> key(s[i]) >= key(s[j])
  }

  /** The number of leading entries whose key is at least `k`. */
  function LeadingAtLeast<T>(s: seq<T>, key: T -> real, k: real): (n: nat)
    ensures n <= |s|
    ensures forall i :: 0 <= i < n ==> key(s[i]) >= k
    ensures n < |s| ==> key(s[n]) < k
  {
    if |s| == 0 || key(s[0]) < k then 0 else 1 + LeadingAtLeast(s[1..], key, k)
  }

  /** Inserting into a ranking: the new entry goes after every entry with an equal or higher key. */
  function Insert<T>(s: seq<T>, e: T, key: T -> real): (r: seq<T>)
    ensures |r| == |s| + 1
  {
    if |s| == 0 then [e]
    else if key(s[0]) < key(e) then [e] + s
    else [s[0]] + Insert(s[1..], e, key)
  }

  /** The insertion places the entry after the leading entries whose key is at least its own. */
  lemma {:induction false} InsertShape<T>(s: seq<T>, e: T, key: T -> real)
    ensures var k := LeadingAtLeast(s, key, key(e));
      Insert(s, e, key) == s[..k] + [e] + s[k..]
  {
    if |s| > 0 && key(s[0]) >= key(e) {
      var k' := LeadingAtLeast(s[1..], key, key(e));
      InsertShape(s[1..], e, key);
      assert s[1..][..k'] == s[1..1 + k'];
      assert s[..1 + k'] == [s[0]] + s[1..][..k'];
      assert s[1..][k'..] == s[1 + k'..];
    } else if |s| > 0 {
      assert s[..0] == [] && s[0..] == s;
    }
  }

  /** The stable sort by descending key, as insertion of each entry in turn. */
  function SortDesc<T>(xs: seq<T>, key: T -> real): (r: seq<T>)
    ensures |r| == |xs|
  {
    if |xs| == 0 then [] else Insert(SortDesc(xs[..|xs| - 1], key), xs[|xs| - 1], key)
  }

  function Take<T>(s: seq<T>, n: nat): (r: seq<T>)
    ensures |r| == if |s| <= n then |s| else n
    ensures r == s[..|r|]
  {
    if |s| <= n then s else s[..n]
  }

  /** Where each entry of `s` sits after inserting `e`. */
  lemma InsertIndices<T>(s: seq<T>, e: T, key: T -> real)
    ensures var k := LeadingAtLeast(s, key, key(e)); var r := Insert(s, e, key);
      |r| == |s| + 1 && r[k] == e &&
      (forall i :: 0 <= i < k ==> r[i] == s[i]) &&
      (forall i :: k < i < |r| ==> r[i] == s[i - 1])
  {
    InsertShape(s, e, key);
  }

  lemma InsertSorted<T>(s: seq<T>, e: T, key: T -> real)
    requires SortedDesc(s, key)
    ensures SortedDesc(Insert(s, e, key), key)
  {
    var k := LeadingAtLeast(s, key, key(e));
    var r := Insert(s, e, key);
    InsertIndices(s, e, key);
    forall i, j | 0 <= i < j < |r|
      ensures key(r[i]) >= key(r[j])
    {
      if j < k {
        assert key(s[i]) >= key(s[j]);
      } else if i < k && j > k {
        assert key(s[i]) >= key(s[j - 1]);
      } else if i == k && j > k {
        assert key(s[k]) >= key(s[j - 1]);
      } else if i > k {
        assert key(s[i - 1]) >= key(s[j - 1]);
      }
    }
  }

  lemma InsertMultiset<T>(s: seq<T>, e: T, key: T -> real)
    ensures multiset(Insert(s, e, key)) == multiset(s) + multiset{e}
  {
    var k := LeadingAtLeast(s, key, key(e));
    InsertShape(s, e, key);
    MultisetAround(s, k, e);
  }

  lemma MultisetAround<T>(s: seq<T>, k: nat, e: T)
    requires k <= |s|
    ensures multiset(s[..k] + [e] + s[k..]) == multiset(s) + multiset{e}
  {
    assert s[..k] + s[k..] == s;
    assert multiset(s[..k] + [e] + s[k..]) == multiset(s[..k]) + multiset{e} + multiset(s[k..]);
  }

  /** The sort orders by descending key. */
  lemma {:induction false} SortDescSorted<T>(xs: seq<T>, key: T -> real)
    ensures SortedDesc(SortDesc(xs, key), key)
  {
    if |xs| > 0 {
      SortDescSorted(xs[..|xs| - 1], key);
      InsertSorted(SortDesc(xs[..|xs| - 1], key), xs[|xs| - 1], key);
    }
  }

  /** The sort neither loses nor duplicates an entry. */
  lemma {:induction false} SortDescPermutes<T>(xs: seq<T>, key: T -> real)
    ensures multiset(SortDesc(xs, key)) == multiset(xs)
  {
    if |xs| > 0 {
      var init := xs[..|xs| - 1];
      var last := xs[|xs| - 1];
      assert init + [last] == xs;
      MultisetSnoc(init, last);
      SortDescPermutes(init, key);
      InsertMultiset(SortDesc(init, key), last, key);
    }
  }

  lemma MultisetSnoc<T>(s: seq<T>, x: T)
    ensures multiset(s + [x]) == multiset(s) + multiset{x}
  {
  }

  lemma {:induction false} LeadingAll<T>(s: seq<T>, key: T -> real, k: real)
    requires forall i :: 0 <= i < |s| ==> key(s[i]) >= k
    ensures LeadingAtLeast(s, key, k) == |s|
  {
    if |s| > 0 {
      LeadingAll(s[1..], key, k);
    }
  }

  /** Inserting behind a ranking that is already in order leaves that order alone. */
  lemma InsertAtEnd<T>(s: seq<T>, e: T, key: T -> real)
    requires forall i :: 0 <= i < |s| ==> key(s[i]) >= key(e)
    ensures Insert(s, e, key) == s + [e]
  {
    LeadingAll(s, key, key(e));
    InsertShape(s, e, key);
    assert s[..|s|] == s && s[|s|..] == [];
  }

  /** A ranking already in order is left as it is: the sort is stable. */
  lemma {:induction false} SortDescOfSorted<T>(xs: seq<T>, key: T -> real)
    requires SortedDesc(xs, key)
    ensures SortDesc(xs, key) == xs
  {
    if |xs| > 0 {
      var init := xs[..|xs| - 1];
      SortDescOfSorted(init, key);
      InsertAtEnd(init, xs[|xs| - 1], key);
      assert init + [xs[|xs| - 1]] == xs;
    }
  }

  /** Adding one entry to a ranking in order inserts it after every entry with an equal or higher key. */
  lemma AddToSorted<T>(s: seq<T>, e: T, key: T -> real)
    requires SortedDesc(s, key)
    ensures SortDesc(s + [e], key) == s[..LeadingAtLeast(s, key, key(e))] + [e] + s[LeadingAtLeast(s, key, key(e))..]
  {
    assert (s + [e])[..|s|] == s;
    SortDescOfSorted(s, key);
    InsertShape(s, e, key);
  }

  /** Keeping the leading entries of a ranking in order keeps it in order, and adds nothing. */
  lemma TakeSorted<T>(s: seq<T>, key: T -> real, n: nat)
    requires SortedDesc(s, key)
    ensures SortedDesc(Take(s, n), key)
    ensures multiset(Take(s, n)) <= multiset(s)
  {
    var r := Take(s, n);
    assert s == r + s[|r|..];
    assert multiset(s) == multiset(r) + multiset(s[|r|..]);
  }

  /** Keeping `n` entries of `a + [e] + b`: `e` survives at index `|a|` exactly when `|a| < n`. */
  lemma TakeAround<T>(a: seq<T>, e: T, b: seq<T>, n: nat)
    ensures |a| < n ==> Take(a + [e] + b, n)[..|a|] == a && Take(a + [e] + b, n)[|a|] == e
    ensures |a| >= n ==> Take(a + [e] + b, n) == a[..n]
  {
    var s := a + [e] + b;
    if |a| < n {
      assert s[..|a|] == a;
    } else {
      assert s[..n] == a[..n];
    }
  }

  /** An entry whose key is strictly above every other entry's sorts first. */
  lemma StrictMaxFirst<T>(xs: seq<T>, key: T -> real, i: nat)
    requires i < |xs|
    requires forall j :: 0 <= j < |xs| && j != i ==> key(xs[j]) < key(xs[i])
    ensures |SortDesc(xs, key)| > 0 && SortDesc(xs, key)[0] == xs[i]
  {
    var s := SortDesc(xs, key);
    SortDescSorted(xs, key);
    SortDescPermutes(xs, key);
    assert xs[i] in multiset(s);
    var k :| 0 <= k < |s| && s[k] == xs[i];
    assert s[0] in multiset(xs);
    var m :| 0 <= m < |xs| && xs[m] == s[0];
    assert key(s[0]) >= key(s[k]);
  }
}
