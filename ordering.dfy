/** LINQ's OrderBy, which the engine uses both to rank individuals (by fitness, by
    Hamming distance) and to shuffle (by a fresh random.Next() per item). OrderBy is a
    stable sort: items with equal keys keep their input order. The model sorts items
    tagged with (key, input position) by that pair, which is exactly a stable sort by key. */
module Ordering {
  import opened Seqs

  /** An item with its sort key and its position in the input. */
  datatype Keyed<T> = Keyed(key: int, index: int, value: T)

  /** `a` may precede `b` in a stable ascending order. */
  predicate NotAfter<T>(a: Keyed<T>, b: Keyed<T>) {
    a.key < b.key || (a.key == b.key && a.index <= b.index)
  }

  predicate Sorted<T>(s: seq<Keyed<T>>) {
    forall i, j :: 0 <= i < j < |s| ==> NotAfter(s[i], s[j])
  }

  function Insert<T>(x: Keyed<T>, s: seq<Keyed<T>>): (r: seq<Keyed<T>>)
    ensures |r| == |s| + 1
    ensures multiset(r) == multiset(s) + multiset{x}
  {
    if s == [] || NotAfter(x, s[0]) then [x] + s
    else
      assert s == [s[0]] + s[1..];
      [s[0]] + Insert(x, s[1..])
  }

  /** Insertion sort on (key, position). */
  function SortKeyed<T>(s: seq<Keyed<T>>): (r: seq<Keyed<T>>)
    ensures |r| == |s|
    ensures multiset(r) == multiset(s)
  {
    if s == [] then []
    else
      assert s == [s[0]] + s[1..];
      Insert(s[0], SortKeyed(s[1..]))
  }

  /** Pairs every item with its key and its position. */
  function Tag<T>(xs: seq<T>, keys: seq<int>): (r: seq<Keyed<T>>)
    requires |keys| >= |xs|
    ensures |r| == |xs|
    ensures forall i :: 0 <= i < |xs| ==> r[i] == Keyed(keys[i], i, xs[i])
  {
    seq(|xs|, i requires 0 <= i < |xs| => Keyed(keys[i], i, xs[i]))
  }

  function Values<T>(s: seq<Keyed<T>>): (r: seq<T>)
    ensures |r| == |s|
    ensures forall i :: 0 <= i < |s| ==> r[i] == s[i].value
  {
    seq(|s|, i requires 0 <= i < |s| => s[i].value)
  }

  /** `xs` stably sorted by `keys`: the items ranked by (key, input position). */
  function Ranked<T>(xs: seq<T>, keys: seq<int>): seq<Keyed<T>>
    requires |keys| >= |xs|
  {
    SortKeyed(Tag(xs, keys))
  }

  /** LINQ `xs.OrderBy(x => key(x))` where keys[i] is the key of xs[i]. */
  function OrderBy<T>(xs: seq<T>, keys: seq<int>): seq<T>
    requires |keys| >= |xs|
  {
    Values(Ranked(xs, keys))
  }

  /** The position of the first minimum (LINQ Min followed by a first-match search);
      the independent reference for `OrderBy(...).First()`. */
  function FirstMinIndex(keys: seq<int>): (m: nat)
    requires |keys| > 0
    ensures m < |keys|
    ensures forall i :: 0 <= i < |keys| ==> keys[m] <= keys[i]
    ensures forall i :: 0 <= i < m ==> keys[m] < keys[i]
  {
    if |keys| == 1 then 0
    else
      var m := FirstMinIndex(keys[..|keys| - 1]);
      if keys[|keys| - 1] < keys[m] then |keys| - 1 else m
  }

  lemma {:induction false} InsertSorted<T>(x: Keyed<T>, s: seq<Keyed<T>>)
    requires Sorted(s)
    ensures Sorted(Insert(x, s))
    decreases |s|
  {
    if s != [] && !NotAfter(x, s[0]) {
      var tail := s[1..];
      assert Sorted(tail);
      InsertSorted(x, tail);
      var r := Insert(x, tail);
      forall j | 0 <= j < |r| ensures NotAfter(s[0], r[j]) {
        assert r[j] in multiset(r);
        if r[j] != x {
          assert r[j] in multiset(tail);
          var k :| 0 <= k < |tail| && tail[k] == r[j];
          assert s[k + 1] == r[j];
        }
      }
    }
  }

  lemma {:induction false} SortKeyedSorted<T>(s: seq<Keyed<T>>)
    ensures Sorted(SortKeyed(s))
    decreases |s|
  {
    if s != [] {
      SortKeyedSorted(s[1..]);
      InsertSorted(s[0], SortKeyed(s[1..]));
    }
  }

  /** The values of a non-empty sequence: its head's, then its tail's. */
  lemma ValuesCons<T>(s: seq<Keyed<T>>)
    requires s != []
    ensures Values(s) == [s[0].value] + Values(s[1..])
  {
  }

  lemma {:induction false} InsertValues<T>(x: Keyed<T>, s: seq<Keyed<T>>)
    ensures multiset(Values(Insert(x, s))) == multiset(Values(s)) + multiset{x.value}
    decreases |s|
  {
    if s == [] || NotAfter(x, s[0]) {
      ValuesCons([x] + s);
      assert ([x] + s)[1..] == s;
    } else {
      var r := Insert(x, s[1..]);
      InsertValues(x, s[1..]);
      assert Insert(x, s) == [s[0]] + r;
      ValuesCons([s[0]] + r);
      assert ([s[0]] + r)[1..] == r;
      ValuesCons(s);
    }
  }

  lemma {:induction false} SortKeyedValues<T>(s: seq<Keyed<T>>)
    ensures multiset(Values(SortKeyed(s))) == multiset(Values(s))
    decreases |s|
  {
    if s != [] {
      var t := SortKeyed(s[1..]);
      assert SortKeyed(s) == Insert(s[0], t);
      SortKeyedValues(s[1..]);
      InsertValues(s[0], t);
      ValuesCons(s);
    } else {
      assert SortKeyed(s) == [];
    }
  }

  /** OrderBy only reorders: same length, same multiset of items. */
  lemma OrderByPermutation<T>(xs: seq<T>, keys: seq<int>)
    requires |keys| >= |xs|
    ensures |OrderBy(xs, keys)| == |xs|
    ensures multiset(OrderBy(xs, keys)) == multiset(xs)
  {
    SortKeyedValues(Tag(xs, keys));
    assert Values(Tag(xs, keys)) == xs;
  }

  /** Every ranked entry is the tag of one input position. */
  lemma RankedEntries<T>(xs: seq<T>, keys: seq<int>)
    requires |keys| >= |xs|
    ensures |Ranked(xs, keys)| == |xs|
    ensures forall p :: 0 <= p < |xs| ==>
      var e := Ranked(xs, keys)[p];
      0 <= e.index < |xs| && e.key == keys[e.index] && e.value == xs[e.index]
  {
    var t := Tag(xs, keys);
    var r := Ranked(xs, keys);
    forall p | 0 <= p < |xs|
      ensures 0 <= r[p].index < |xs| && r[p].key == keys[r[p].index] && r[p].value == xs[r[p].index]
    {
      assert r[p] in multiset(t);
    }
  }

  /** No input position is ranked twice. */
  lemma RankedIndicesDistinct<T>(xs: seq<T>, keys: seq<int>)
    requires |keys| >= |xs|
    ensures forall p, q :: 0 <= p < q < |xs| ==>
      Ranked(xs, keys)[p].index != Ranked(xs, keys)[q].index
  {
    var t := Tag(xs, keys);
    var r := Ranked(xs, keys);
    assert NoDuplicates(t) by {
      forall i, j | 0 <= i < j < |t| ensures t[i] != t[j] {
        assert t[i].index != t[j].index;
      }
    }
    forall p, q | 0 <= p < q < |xs| ensures r[p].index != r[q].index {
      if r[p].index == r[q].index {
        RankedEntries(xs, keys);
        assert r[p] == r[q];
        assert multiset(r)[r[p]] >= 2 by {
          assert r == r[..p] + [r[p]] + r[p + 1..q] + [r[q]] + r[q + 1..];
        }
        NoDuplicatesMultiset(t);
        assert false;
      }
    }
  }

  /** The ranking is a permutation of the input positions, ascending by key with ties in
      input order, and OrderBy reads the items off it. */
  lemma RankedSpec<T>(xs: seq<T>, keys: seq<int>)
    requires |keys| >= |xs|
    ensures |Ranked(xs, keys)| == |xs|
    ensures forall p :: 0 <= p < |xs| ==>
      var e := Ranked(xs, keys)[p];
      0 <= e.index < |xs| && e.key == keys[e.index] && e.value == xs[e.index]
    ensures forall p, q :: 0 <= p < q < |xs| ==>
      Ranked(xs, keys)[p].index != Ranked(xs, keys)[q].index
    ensures Sorted(Ranked(xs, keys))
    ensures forall p :: 0 <= p < |xs| ==> OrderBy(xs, keys)[p] == Ranked(xs, keys)[p].value
  {
    RankedEntries(xs, keys);
    RankedIndicesDistinct(xs, keys);
    SortKeyedSorted(Tag(xs, keys));
  }

  /** `OrderBy(...).First()` is the first item, in input order, with the least key. */
  lemma OrderByFirst<T>(xs: seq<T>, keys: seq<int>)
    requires 0 < |xs| <= |keys|
    ensures |OrderBy(xs, keys)| == |xs|
    ensures OrderBy(xs, keys)[0] == xs[FirstMinIndex(keys[..|xs|])]
  {
    RankedFirst(xs, keys);
    RankedEntries(xs, keys);
  }

  /** An item at an earlier rank never has a greater key than one at a later rank. */
  lemma OrderByKeysAscending<T>(xs: seq<T>, keys: seq<int>, p: int, q: int)
    requires |keys| >= |xs|
    requires 0 <= p <= q < |xs|
    ensures Ranked(xs, keys)[p].key <= Ranked(xs, keys)[q].key
  {
    RankedSpec(xs, keys);
  }

  /** The position of the first minimum once position `m` is set aside. */
  function MinIndexExcept(keys: seq<int>, m: nat): (r: nat)
    requires |keys| >= 2 && m < |keys|
    ensures r < |keys| && r != m
    ensures forall i :: 0 <= i < |keys| && i != m ==> keys[r] <= keys[i]
    ensures forall i :: 0 <= i < r && i != m ==> keys[r] < keys[i]
  {
    var last := |keys| - 1;
    if |keys| == 2 then 1 - m
    else if m == last then FirstMinIndex(keys[..last])
    else
      var r := MinIndexExcept(keys[..last], m);
      if keys[last] < keys[r] then last else r
  }

  /** The position of the item a stable ascending sort puts second: the first minimum
      among the positions other than the first minimum. */
  function SecondMinIndex(keys: seq<int>): (r: nat)
    requires |keys| >= 2
    ensures r < |keys| && r != FirstMinIndex(keys)
  {
    MinIndexExcept(keys, FirstMinIndex(keys))
  }

  /** The entry a stable sort ranks first is the first minimum. */
  lemma RankedFirst<T>(xs: seq<T>, keys: seq<int>)
    requires 0 < |xs| <= |keys|
    ensures |Ranked(xs, keys)| == |xs|
    ensures Ranked(xs, keys)[0].index == FirstMinIndex(keys[..|xs|])
  {
    RankedEntries(xs, keys);
    SortKeyedSorted(Tag(xs, keys));
    var t := Tag(xs, keys);
    var r := Ranked(xs, keys);
    var m := FirstMinIndex(keys[..|xs|]);
    assert t[m] in multiset(r);
    var q :| 0 <= q < |r| && r[q] == t[m];
  }

  /** `OrderBy(...).Skip(1).First()` is the item at the second minimum. */
  lemma OrderBySecond<T>(xs: seq<T>, keys: seq<int>)
    requires 2 <= |xs| <= |keys|
    ensures |OrderBy(xs, keys)| == |xs|
    ensures OrderBy(xs, keys)[1] == xs[SecondMinIndex(keys[..|xs|])]
  {
    RankedSpec(xs, keys);
    RankedFirst(xs, keys);
    var t := Tag(xs, keys);
    var r := Ranked(xs, keys);
    var s := SecondMinIndex(keys[..|xs|]);
    assert t[s] in multiset(r);
    var q :| 0 <= q < |r| && r[q] == t[s];
    assert q != 0;
  }

  /** The first `h` items of an ordering never have a greater key than the rest. */
  lemma OrderByTakeNotWorse<T>(xs: seq<T>, keys: seq<int>, h: nat, p: int, q: int)
    requires |keys| >= |xs| && h <= |xs|
    requires 0 <= p < h <= q < |xs|
    ensures |Ranked(xs, keys)| == |xs|
    ensures Ranked(xs, keys)[p].key <= Ranked(xs, keys)[q].key
  {
    RankedSpec(xs, keys);
  }
}
