/** Sequence helpers shared by the schema model and the genetic-algorithm engine:
    LINQ's Distinct, Max and SelectMany, duplicate-freedom and occurrence counting. */
module Seqs {

  /** No value occurs twice. */
  predicate NoDuplicates<T(==)>(s: seq<T>) {
    forall i, j :: 0 <= i < j < |s| ==> s[i] != s[j]
  }

  /** The key of every member, in order (LINQ Select). */
  function KeysOf<T, K>(xs: seq<T>, key: T -> K): (ks: seq<K>)
    ensures |ks| == |xs|
    ensures forall i :: 0 <= i < |xs| ==> ks[i] == key(xs[i])
  {
    if xs == [] then [] else KeysOf(xs[..|xs| - 1], key) + [key(xs[|xs| - 1])]
  }

  /** LINQ Distinct under the equality "same key": keeps the first member of every key,
      in the order of first occurrence. */
  function DistinctBy<T, K(==)>(xs: seq<T>, key: T -> K): (r: seq<T>)
    ensures |r| <= |xs|
  {
    if xs == [] then []
    else
      var d := DistinctBy(xs[..|xs| - 1], key);
      if key(xs[|xs| - 1]) in KeysOf(d, key) then d else d + [xs[|xs| - 1]]
  }

  /** LINQ Distinct under the type's own equality: keeps the first occurrence of every
      value, in order. */
  function Distinct<T(==)>(xs: seq<T>): (r: seq<T>)
    ensures |r| <= |xs|
  {
    if xs == [] then []
    else
      var d := Distinct(xs[..|xs| - 1]);
      if xs[|xs| - 1] in d then d else d + [xs[|xs| - 1]]
  }

  /** The position of the first occurrence of `k` in `ks`. */
  function FirstIndex<K(==)>(ks: seq<K>, k: K): (i: nat)
    requires k in ks
    ensures i < |ks| && ks[i] == k
    ensures forall j :: 0 <= j < i ==> ks[j] != k
  {
    if k in ks[..|ks| - 1] then FirstIndex(ks[..|ks| - 1], k) else |ks| - 1
  }

  lemma KeysOfAppend<T, K>(xs: seq<T>, x: T, key: T -> K)
    ensures KeysOf(xs + [x], key) == KeysOf(xs, key) + [key(x)]
  {
    assert (xs + [x])[..|xs + [x]| - 1] == xs;
  }

  /** Deduplication keeps exactly the keys of the input. */
  lemma {:induction false} DistinctByKeys<T, K>(xs: seq<T>, key: T -> K, k: K)
    ensures k in KeysOf(DistinctBy(xs, key), key) <==> k in KeysOf(xs, key)
    decreases |xs|
  {
    if xs != [] {
      var pre, last := xs[..|xs| - 1], xs[|xs| - 1];
      assert xs == pre + [last];
      DistinctByKeys(pre, key, k);
      DistinctByKeys(pre, key, key(last));
      KeysOfAppend(pre, last, key);
      KeysOfAppend(DistinctBy(pre, key), last, key);
    }
  }

  /** The kept members have pairwise different keys. */
  lemma {:induction false} DistinctByUnique<T, K>(xs: seq<T>, key: T -> K)
    ensures NoDuplicates(KeysOf(DistinctBy(xs, key), key))
    decreases |xs|
  {
    if xs != [] {
      var pre, last := xs[..|xs| - 1], xs[|xs| - 1];
      DistinctByUnique(pre, key);
      KeysOfAppend(DistinctBy(pre, key), last, key);
    }
  }

  /** Every kept member is the FIRST member of the input with its key. */
  lemma DistinctByFirstOccurrence<T, K>(xs: seq<T>, key: T -> K)
    ensures forall j :: 0 <= j < |DistinctBy(xs, key)| ==>
      key(DistinctBy(xs, key)[j]) in KeysOf(xs, key) &&
      DistinctBy(xs, key)[j] == xs[FirstIndex(KeysOf(xs, key), key(DistinctBy(xs, key)[j]))]
  {
    forall j | 0 <= j < |DistinctBy(xs, key)| {
      DistinctByFirstAt(xs, key, j);
    }
  }

  /** The kept members appear in the order of their keys' first occurrences. */
  lemma DistinctByOrder<T, K>(xs: seq<T>, key: T -> K)
    ensures forall j, j' :: 0 <= j < j' < |DistinctBy(xs, key)| ==>
      key(DistinctBy(xs, key)[j]) in KeysOf(xs, key) &&
      key(DistinctBy(xs, key)[j']) in KeysOf(xs, key) &&
      FirstIndex(KeysOf(xs, key), key(DistinctBy(xs, key)[j])) <
      FirstIndex(KeysOf(xs, key), key(DistinctBy(xs, key)[j']))
  {
    var r, ks := DistinctBy(xs, key), KeysOf(xs, key);
    forall j, j' | 0 <= j < j' < |r|
      ensures key(r[j]) in ks && key(r[j']) in ks && FirstIndex(ks, key(r[j])) < FirstIndex(ks, key(r[j']))
    {
      DistinctByOrderAt(xs, key, j, j');
    }
  }

  /** The first occurrence of a key of the prefix is found in the prefix. */
  lemma FirstIndexPrefix<K>(ks: seq<K>, k: K)
    requires ks != [] && k in ks[..|ks| - 1]
    ensures k in ks && FirstIndex(ks, k) == FirstIndex(ks[..|ks| - 1], k) < |ks| - 1
  {
  }

  /** A member kept from the prefix has a key of the prefix. */
  lemma DistinctByKeptKey<T, K>(xs: seq<T>, key: T -> K, j: int)
    requires 0 <= j < |DistinctBy(xs, key)|
    ensures key(DistinctBy(xs, key)[j]) in KeysOf(xs, key)
  {
    DistinctByKeys(xs, key, key(DistinctBy(xs, key)[j]));
    assert KeysOf(DistinctBy(xs, key), key)[j] == key(DistinctBy(xs, key)[j]);
  }

  lemma {:induction false} DistinctByFirstAt<T, K>(xs: seq<T>, key: T -> K, j: int)
    requires 0 <= j < |DistinctBy(xs, key)|
    ensures key(DistinctBy(xs, key)[j]) in KeysOf(xs, key)
    ensures DistinctBy(xs, key)[j] == xs[FirstIndex(KeysOf(xs, key), key(DistinctBy(xs, key)[j]))]
    decreases |xs|
  {
    var pre, last := xs[..|xs| - 1], xs[|xs| - 1];
    var d, r := DistinctBy(pre, key), DistinctBy(xs, key);
    var ks := KeysOf(xs, key);
    KeysOfAppend(pre, last, key);
    assert ks[..|ks| - 1] == KeysOf(pre, key);
    DistinctByKeptKey(xs, key, j);
    if j < |d| && r[j] == d[j] {
      DistinctByFirstAt(pre, key, j);
      FirstIndexPrefix(ks, key(d[j]));
    } else {
      DistinctByKeys(pre, key, key(last));
      assert r == d + [last];
      assert key(last) !in ks[..|ks| - 1];
    }
  }

  lemma {:induction false} DistinctByOrderAt<T, K>(xs: seq<T>, key: T -> K, j: int, j': int)
    requires 0 <= j < j' < |DistinctBy(xs, key)|
    ensures key(DistinctBy(xs, key)[j]) in KeysOf(xs, key) && key(DistinctBy(xs, key)[j']) in KeysOf(xs, key)
    ensures FirstIndex(KeysOf(xs, key), key(DistinctBy(xs, key)[j])) <
      FirstIndex(KeysOf(xs, key), key(DistinctBy(xs, key)[j']))
    decreases |xs|
  {
    var pre, last := xs[..|xs| - 1], xs[|xs| - 1];
    var d, r := DistinctBy(pre, key), DistinctBy(xs, key);
    var ks := KeysOf(xs, key);
    KeysOfAppend(pre, last, key);
    assert ks[..|ks| - 1] == KeysOf(pre, key);
    DistinctByKeptKey(xs, key, j);
    DistinctByKeptKey(xs, key, j');
    DistinctByKeptKey(pre, key, j);
    assert r[j] == d[j];
    FirstIndexPrefix(ks, key(d[j]));
    if j' < |d| {
      assert r[j'] == d[j'];
      DistinctByOrderAt(pre, key, j, j');
      DistinctByKeptKey(pre, key, j');
      FirstIndexPrefix(ks, key(d[j']));
    } else {
      DistinctByKeys(pre, key, key(last));
      assert r[j'] == last && key(last) !in ks[..|ks| - 1];
    }
  }

  lemma NoDuplicatesAppend<T>(s: seq<T>, x: T)
    ensures NoDuplicates(s + [x]) <==> NoDuplicates(s) && x !in s
  {
    var t := s + [x];
    if NoDuplicates(t) {
      forall i, j | 0 <= i < j < |s| ensures s[i] != s[j] { assert t[i] == s[i] && t[j] == s[j]; }
      forall i | 0 <= i < |s| ensures s[i] != x { assert t[i] == s[i] && t[|s|] == x; }
    }
    if NoDuplicates(s) && x !in s {
      forall i, j | 0 <= i < j < |t| ensures t[i] != t[j] {
        if j == |s| { assert t[i] == s[i]; }
      }
    }
  }

  /** The dedup-and-count test used by the source's validations: nothing is removed
      exactly when the keys are already pairwise different. */
  lemma {:induction false} DistinctByLength<T, K>(xs: seq<T>, key: T -> K)
    ensures |DistinctBy(xs, key)| == |xs| <==> NoDuplicates(KeysOf(xs, key))
    decreases |xs|
  {
    if xs != [] {
      DistinctByLength(xs[..|xs| - 1], key);
      DistinctByLengthStep(xs, key);
    }
  }

  lemma DistinctByLengthStep<T, K>(xs: seq<T>, key: T -> K)
    requires xs != []
    requires |DistinctBy(xs[..|xs| - 1], key)| == |xs| - 1 <==> NoDuplicates(KeysOf(xs[..|xs| - 1], key))
    ensures |DistinctBy(xs, key)| == |xs| <==> NoDuplicates(KeysOf(xs, key))
  {
    var pre, last := xs[..|xs| - 1], xs[|xs| - 1];
    assert xs == pre + [last];
    DistinctByKeys(pre, key, key(last));
    KeysOfAppend(pre, last, key);
    NoDuplicatesAppend(KeysOf(pre, key), key(last));
  }

  /** The dedup-and-count test under the type's own equality. */
  lemma {:induction false} DistinctLength<T>(xs: seq<T>)
    ensures |Distinct(xs)| == |xs| <==> NoDuplicates(xs)
    decreases |xs|
  {
    if xs != [] {
      var pre, last := xs[..|xs| - 1], xs[|xs| - 1];
      assert xs == pre + [last];
      DistinctLength(pre);
      DistinctSpec(pre);
      NoDuplicatesAppend(pre, last);
    }
  }

  /** Distinct keeps every value of the input once, and nothing else. */
  lemma {:induction false} DistinctSpec<T>(xs: seq<T>)
    ensures NoDuplicates(Distinct(xs))
    ensures forall x :: x in Distinct(xs) <==> x in xs
    decreases |xs|
  {
    if xs != [] {
      var pre, last := xs[..|xs| - 1], xs[|xs| - 1];
      assert xs == pre + [last];
      DistinctSpec(pre);
      NoDuplicatesAppend(Distinct(pre), last);
    }
  }

  lemma DistinctMember<T>(xs: seq<T>, x: T)
    ensures x in Distinct(xs) <==> x in xs
  {
    DistinctSpec(xs);
  }

  /** Distinct over a sequence grown by one value. */
  lemma DistinctAppend<T>(xs: seq<T>, x: T)
    ensures Distinct(xs + [x]) == if x in xs then Distinct(xs) else Distinct(xs) + [x]
  {
    assert (xs + [x])[..|xs|] == xs;
    DistinctSpec(xs);
  }

  /** LINQ Max. */
  function Max(s: seq<int>): (m: int)
    requires |s| > 0
    ensures m in s
    ensures forall i :: 0 <= i < |s| ==> s[i] <= m
  {
    if |s| == 1 then s[0]
    else
      var rest := Max(s[..|s| - 1]);
      if s[|s| - 1] > rest then s[|s| - 1] else rest
  }

  /** LINQ SelectMany with the identity selector. */
  function Flatten<T>(xss: seq<seq<T>>): (r: seq<T>)
    ensures forall k, i :: 0 <= k < |xss| && 0 <= i < |xss[k]| ==> xss[k][i] in r
    ensures forall j :: 0 <= j < |r| ==> exists k, i :: 0 <= k < |xss| && 0 <= i < |xss[k]| && r[j] == xss[k][i]
  {
    if xss == [] then []
    else
      var pre := Flatten(xss[..|xss| - 1]);
      var r := pre + xss[|xss| - 1];
      assert forall j :: |pre| <= j < |r| ==> r[j] == xss[|xss| - 1][j - |pre|];
      r
  }

  /** The positions of `s` holding `v`. */
  function PositionsOf<T(==)>(s: seq<T>, v: T): set<nat> {
    set i: nat | i < |s| && s[i] == v
  }

  /** Counting positions and counting in the multiset agree. */
  lemma {:induction false} PositionsOfCount<T>(s: seq<T>, v: T)
    ensures |PositionsOf(s, v)| == multiset(s)[v]
    decreases |s|
  {
    if s != [] {
      var pre := s[..|s| - 1];
      PositionsOfCount(pre, v);
      assert s == pre + [s[|s| - 1]];
      if s[|s| - 1] == v {
        assert PositionsOf(s, v) == PositionsOf(pre, v) + {|s| - 1};
      } else {
        assert PositionsOf(s, v) == PositionsOf(pre, v);
      }
    }
  }

  /** A sequence without duplicates has every value at most once. */
  lemma {:induction false} NoDuplicatesMultiset<T>(s: seq<T>)
    ensures NoDuplicates(s) <==> forall x :: multiset(s)[x] <= 1
    decreases |s|
  {
    if s != [] {
      var pre, last := s[..|s| - 1], s[|s| - 1];
      assert s == pre + [last];
      NoDuplicatesMultiset(pre);
      NoDuplicatesAppend(pre, last);
      if !NoDuplicates(s) && !NoDuplicates(pre) {
        var x :| multiset(pre)[x] > 1;
        assert multiset(s)[x] >= multiset(pre)[x];
      }
      if !NoDuplicates(s) && last in pre {
        assert multiset(s)[last] == multiset(pre)[last] + 1;
      }
    }
  }

  lemma SubsetCard<T>(a: set<T>, b: set<T>)
    requires a <= b
    ensures |a| <= |b|
  {
    assert b == a + (b - a);
  }

  /** Distinct leaves a sequence without duplicates as it is. */
  lemma {:induction false} DistinctNoDuplicates<T>(xs: seq<T>)
    requires NoDuplicates(xs)
    ensures Distinct(xs) == xs
    decreases |xs|
  {
    if xs != [] {
      var pre, last := xs[..|xs| - 1], xs[|xs| - 1];
      assert xs == pre + [last];
      NoDuplicatesAppend(pre, last);
      DistinctNoDuplicates(pre);
    }
  }
}
