/** The row selection behind a pandas `groupby`: the rows of one group, in
    input order, and the concatenation of all groups. */
module Grouping {
  import opened Ordering

  /** The elements of `s` whose key is `k`, in their input order. */
  function Select<T(!new), K(==)>(s: seq<T>, key: T -> K, k: K): (r: seq<T>)
    ensures |r| <= |s|
    ensures forall x :: x in r <==> x in s && key(x) == k
  {
    if s == [] then []
    else (if key(s[0]) == k then [s[0]] else []) + Select(s[1..], key, k)
  }

  /** The elements of `s` whose key is one of `ks`, in their input order. */
  function SelectIn<T(!new), K(==)>(s: seq<T>, key: T -> K, ks: seq<K>): seq<T>
  {
    if s == [] then []
    else (if key(s[0]) in ks then [s[0]] else []) + SelectIn(s[1..], key, ks)
  }

  /** The groups of `ks`, one after the other. */
  function Gather<T(!new), K(==)>(s: seq<T>, key: T -> K, ks: seq<K>): seq<T>
  {
    if ks == [] then [] else Select(s, key, ks[0]) + Gather(s, key, ks[1..])
  }

  lemma {:induction false} SelectSplit<T(!new), K>(s: seq<T>, key: T -> K, k: K, ks: seq<K>)
    requires k !in ks
    ensures multiset(Select(s, key, k)) + multiset(SelectIn(s, key, ks))
         == multiset(SelectIn(s, key, [k] + ks))
  {
    if s != [] {
      SelectSplit(s[1..], key, k, ks);
    }
  }

  /** Grouping by distinct keys neither drops nor duplicates a row: the
      groups together are a permutation of the rows whose key is listed. */
  lemma {:induction false} GatherIsPermutation<T(!new), K>(s: seq<T>, key: T -> K, ks: seq<K>)
    requires Distinct(ks)
    ensures multiset(Gather(s, key, ks)) == multiset(SelectIn(s, key, ks))
  {
    if ks == [] {
      EmptySelectIn(s, key);
    } else {
      GatherIsPermutation(s, key, ks[1..]);
      SelectSplit(s, key, ks[0], ks[1..]);
      assert [ks[0]] + ks[1..] == ks;
    }
  }

  lemma {:induction false} EmptySelectIn<T(!new), K>(s: seq<T>, key: T -> K)
    ensures SelectIn(s, key, []) == []
  {
    if s != [] {
      EmptySelectIn(s[1..], key);
    }
  }

  /** When every key of `s` is listed, the listed groups cover all of `s`. */
  lemma {:induction false} SelectInAll<T(!new), K>(s: seq<T>, key: T -> K, ks: seq<K>)
    requires forall x :: x in s ==> key(x) in ks
    ensures SelectIn(s, key, ks) == s
  {
    if s != [] {
      SelectInAll(s[1..], key, ks);
      assert [s[0]] + s[1..] == s;
    }
  }

  /** A group taken from a concatenation is the concatenation of the groups. */
  lemma {:induction false} SelectAppend<T(!new), K>(a: seq<T>, b: seq<T>, key: T -> K, k: K)
    ensures Select(a + b, key, k) == Select(a, key, k) + Select(b, key, k)
  {
    if a != [] {
      SelectAppend(a[1..], b, key, k);
      assert (a + b)[1..] == a[1..] + b;
    } else {
      assert a + b == b;
    }
  }
}
