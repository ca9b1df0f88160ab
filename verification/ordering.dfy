/** `sequenceList`: the series list in presentation order. Ordering is
    presentation only; the cell index never receives the order mode. */
module SeriesOrder {
  import opened Types

  datatype OrderMode = Original | LenAsc | LenDesc

  /** One row of the list: the sequence, its series index and its length. */
  datatype SeriesItem = SeriesItem(values: seq<int>, idx: nat, len: nat)

  /** `data.sequences.map((seq, idx) => ({ seq, idx, len: seq.length }))`. */
  function Items(sequences: seq<seq<int>>): (r: seq<SeriesItem>)
    ensures |r| == |sequences|
    ensures forall p :: 0 <= p < |r| ==>
      r[p] == SeriesItem(sequences[p], p, |sequences[p]|)
  {
    seq(|sequences|, p requires 0 <= p < |sequences| =>
      SeriesItem(sequences[p], p, |sequences[p]|))
  }

  /** The comparator handed to `Array.prototype.sort`: the length
      difference, or when that is zero (falsy) the index difference. It
      orders items lexicographically by (length, index), length ascending
      or descending, and ties only an item with itself. */
  function Compare(mode: OrderMode, a: SeriesItem, b: SeriesItem): (r: int)
    requires mode != Original
    ensures mode == LenAsc ==> (r <= 0 <==> a.len < b.len || (a.len == b.len && a.idx <= b.idx))
    ensures mode == LenDesc ==> (r <= 0 <==> a.len > b.len || (a.len == b.len && a.idx <= b.idx))
    ensures r == 0 <==> a.len == b.len && a.idx == b.idx
  {
    var byLen := if mode == LenAsc then a.len - b.len else b.len - a.len;
    if byLen != 0 then byLen else a.idx - b.idx
  }

  predicate Le(mode: OrderMode, a: SeriesItem, b: SeriesItem)
    requires mode != Original
  {
    Compare(mode, a, b) <= 0
  }

  ghost predicate Sorted(mode: OrderMode, s: seq<SeriesItem>)
    requires mode != Original
  {
    forall i, j :: 0 <= i < j < |s| ==> Le(mode, s[i], s[j])
  }

  /** Swapping the arguments negates the comparator, so any two items
      are ordered one way or the other. */
  lemma CompareSwap(mode: OrderMode, a: SeriesItem, b: SeriesItem)
    requires mode != Original
    ensures Compare(mode, b, a) == -Compare(mode, a, b)
    ensures Le(mode, a, b) || Le(mode, b, a)
  {
  }

  lemma {:induction false} HeadPrecedesAll(mode: OrderMode, x: SeriesItem, s: seq<SeriesItem>)
    requires mode != Original && Sorted(mode, s) && s != [] && Le(mode, x, s[0])
    ensures forall j :: 0 <= j < |s| ==> Le(mode, x, s[j])
  {
    forall j | 0 <= j < |s| ensures Le(mode, x, s[j]) {
      if j > 0 {
        assert Le(mode, s[0], s[j]);
      }
    }
  }

  lemma {:induction false} PrecedesPermutation(mode: OrderMode, h: SeriesItem, x: SeriesItem,
                                               t: seq<SeriesItem>, rest: seq<SeriesItem>)
    requires mode != Original
    requires Le(mode, h, x)
    requires forall j :: 0 <= j < |t| ==> Le(mode, h, t[j])
    requires multiset(rest) == multiset(t) + multiset{x}
    ensures forall j :: 0 <= j < |rest| ==> Le(mode, h, rest[j])
  {
    forall j | 0 <= j < |rest| ensures Le(mode, h, rest[j]) {
      assert rest[j] in multiset(rest);
      if rest[j] != x {
        assert rest[j] in multiset(t);
        var k :| 0 <= k < |t| && t[k] == rest[j];
      }
    }
  }

  /** A head preceding every element of a sorted tail gives a sorted list. */
  lemma ConsSorted(mode: OrderMode, h: SeriesItem, t: seq<SeriesItem>)
    requires mode != Original && Sorted(mode, t)
    requires forall j :: 0 <= j < |t| ==> Le(mode, h, t[j])
    ensures Sorted(mode, [h] + t)
  {
    var r := [h] + t;
    forall i, j | 0 <= i < j < |r|
      ensures Le(mode, r[i], r[j])
    {
      assert r[j] == t[j - 1];
      if i > 0 {
        assert r[i] == t[i - 1];
      }
    }
  }

  /** Places `x` in front of the first element it does not follow. */
  function Insert(mode: OrderMode, x: SeriesItem, s: seq<SeriesItem>): (r: seq<SeriesItem>)
    requires mode != Original && Sorted(mode, s)
    ensures multiset(r) == multiset(s) + multiset{x}
    ensures Sorted(mode, r)
  {
    if s == [] then [x]
    else if Le(mode, x, s[0]) then
      HeadPrecedesAll(mode, x, s);
      ConsSorted(mode, x, s);
      [x] + s
    else
      var t := s[1..];
      assert s == [s[0]] + t;
      var rest := Insert(mode, x, t);
      CompareSwap(mode, x, s[0]);
      PrecedesPermutation(mode, s[0], x, t, rest);
      ConsSorted(mode, s[0], rest);
      [s[0]] + rest
  }

  /** Insertion sort under the comparator. */
  function Sort(mode: OrderMode, s: seq<SeriesItem>): (r: seq<SeriesItem>)
    requires mode != Original
    ensures multiset(r) == multiset(s)
    ensures Sorted(mode, r)
  {
    if s == [] then []
    else
      assert s == [s[0]] + s[1..];
      Insert(mode, s[0], Sort(mode, s[1..]))
  }

  /** A series index occurs at most once. */
  ghost predicate DistinctIdx(s: seq<SeriesItem>)
  {
    forall i, j :: 0 <= i < j < |s| ==> s[i].idx != s[j].idx
  }

  lemma {:induction false} DistinctCount(s: seq<SeriesItem>, x: SeriesItem)
    requires DistinctIdx(s)
    ensures multiset(s)[x] <= 1
  {
    if s != [] {
      assert s == [s[0]] + s[1..];
      DistinctCount(s[1..], x);
      if s[0] == x {
        assert x !in s[1..];
      }
    }
  }

  /** A permutation of a sequence with distinct indices has distinct
      indices. */
  lemma PermutationKeepsDistinct(s: seq<SeriesItem>, r: seq<SeriesItem>)
    requires DistinctIdx(s) && multiset(r) == multiset(s)
    requires forall a, b :: a in multiset(s) && b in multiset(s) && a.idx == b.idx ==> a == b
    ensures DistinctIdx(r)
  {
    forall i, j | 0 <= i < j < |r|
      ensures r[i].idx != r[j].idx
    {
      if r[i].idx == r[j].idx {
        assert r[i] in multiset(s) && r[j] in multiset(s);
        assert r[i] == r[j];
        assert r == r[..i] + [r[i]] + r[i+1..j] + [r[j]] + r[j+1..];
        assert multiset(r)[r[i]] >= 2;
        DistinctCount(s, r[i]);
      }
    }
  }

  /** Every item stands at the position of its own index. */
  lemma ItemsByIdx(sequences: seq<seq<int>>)
    ensures DistinctIdx(Items(sequences))
    ensures forall a: SeriesItem :: a in multiset(Items(sequences)) ==>
      a.idx < |sequences| && a == Items(sequences)[a.idx]
  {
    var arr := Items(sequences);
    forall a: SeriesItem | a in multiset(arr)
      ensures a.idx < |sequences| && a == arr[a.idx]
    {
      assert a in arr;
    }
  }

  /** A sorted permutation of the items lists every series once, with
      its own values and length. */
  lemma SortedItemsContents(mode: OrderMode, sequences: seq<seq<int>>, r: seq<SeriesItem>)
    requires mode != Original && r == Sort(mode, Items(sequences))
    ensures |r| == |sequences|
    ensures DistinctIdx(r)
    ensures forall p :: 0 <= p < |r| ==>
      r[p].idx < |r| && r[p] == SeriesItem(sequences[r[p].idx], r[p].idx, |sequences[r[p].idx]|)
  {
    var arr := Items(sequences);
    assert |r| == |arr| by {
      assert |multiset(r)| == |multiset(arr)|;
    }
    ItemsByIdx(sequences);
    forall p | 0 <= p < |r|
      ensures r[p].idx < |r| && r[p] == arr[r[p].idx]
    {
      assert r[p] in multiset(r);
    }
    PermutationKeepsDistinct(arr, r);
  }

  /** In a sorted list of distinct indices the comparator is strict: the
      keys order the series, and equal keys fall back to index order. */
  lemma SortedStrict(mode: OrderMode, r: seq<SeriesItem>)
    requires mode != Original && Sorted(mode, r) && DistinctIdx(r)
    ensures mode == LenAsc ==> forall p, q :: 0 <= p < q < |r| ==>
      r[p].len < r[q].len || (r[p].len == r[q].len && r[p].idx < r[q].idx)
    ensures mode == LenDesc ==> forall p, q :: 0 <= p < q < |r| ==>
      r[p].len > r[q].len || (r[p].len == r[q].len && r[p].idx < r[q].idx)
  {
    forall p, q | 0 <= p < q < |r|
      ensures Le(mode, r[p], r[q]) && r[p].idx != r[q].idx
    {
    }
  }

  /** `sequenceList`: no response gives the empty list; `original` keeps
      index order; the length orders sort by length (ascending or
      descending) with ties in ascending index. Every order lists each
      series exactly once, with its own values and length. */
  function SequenceList(data: Option<CyclesResponse>, mode: OrderMode): (r: seq<SeriesItem>)
    ensures data.None? ==> r == []
    ensures data.Some? ==> |r| == |data.value.sequences|
    ensures data.Some? ==> forall p :: 0 <= p < |r| ==>
      r[p].idx < |r| && r[p] == SeriesItem(data.value.sequences[r[p].idx], r[p].idx, |data.value.sequences[r[p].idx]|)
    ensures DistinctIdx(r)
    ensures mode == Original ==> forall p :: 0 <= p < |r| ==> r[p].idx == p
    ensures mode == LenAsc ==> forall p, q :: 0 <= p < q < |r| ==>
      r[p].len < r[q].len || (r[p].len == r[q].len && r[p].idx < r[q].idx)
    ensures mode == LenDesc ==> forall p, q :: 0 <= p < q < |r| ==>
      r[p].len > r[q].len || (r[p].len == r[q].len && r[p].idx < r[q].idx)
  {
    if data.None? then []
    else if mode == Original then Items(data.value.sequences)
    else
      var r := Sort(mode, Items(data.value.sequences));
      SortedItemsContents(mode, data.value.sequences, r);
      SortedStrict(mode, r);
      r
  }
}
