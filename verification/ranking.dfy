/** The last two steps of `filter_results` (scripts/chroma_utils.py): the
    merged dict is sorted by distance with Python's stable `sorted`, then cut
    to the first `n_results` entries with `islice` when `n_results` is truthy. */
module Ranking {
  import opened Wrappers
  import opened Dedup
  import StableSort

  /** The sort key, `item[1].get("distance")`. */
  function DistanceOf(it: Item): real {
    it.entry.distance
  }

  /** Ascending by distance. */
  predicate SortedByDistance(d: seq<Item>) {
    StableSort.SortedBy(d, DistanceOf)
  }

  /** `sorted(items, key=distance)`: ascending by distance, and a
      rearrangement of its input. */
  function SortByDistance(d: seq<Item>): (r: seq<Item>)
    ensures |r| == |d|
    ensures multiset(r) == multiset(d)
    ensures SortedByDistance(r)
  {
    StableSort.Sort(d, DistanceOf)
  }

  /** Inserting an item whose id is new keeps the keys unique. */
  lemma {:induction false} InsertDistinct(x: Item, t: seq<Item>)
    requires DistinctIds(t)
    requires forall j :: 0 <= j < |t| ==> t[j].id != x.id
    ensures DistinctIds(StableSort.Insert(x, t, DistanceOf))
    decreases |t|
  {
    if |t| > 0 && x.entry.distance > t[0].entry.distance {
      InsertDistinct(x, t[1..]);
      var rest := StableSort.Insert(x, t[1..], DistanceOf);
      forall j | 0 <= j < |rest| ensures rest[j].id != t[0].id {
        assert rest[j] in rest;
        StableSort.InsertMembers(x, t[1..], DistanceOf, rest[j]);
      }
      assert forall a, b :: 0 < a < b < |rest| + 1 ==>
        ([t[0]] + rest)[a] == rest[a - 1] && ([t[0]] + rest)[b] == rest[b - 1];
    } else if |t| > 0 {
      assert forall a :: 0 < a < |t| + 1 ==> ([x] + t)[a] == t[a - 1];
    }
  }

  /** Sorting keeps the dict keys unique. */
  lemma {:induction false} SortKeepsDistinct(d: seq<Item>)
    requires DistinctIds(d)
    ensures DistinctIds(SortByDistance(d))
    decreases |d|
  {
    if |d| > 0 {
      var t := StableSort.Sort(d[1..], DistanceOf);
      assert DistinctIds(d[1..]);
      SortKeepsDistinct(d[1..]);
      forall j | 0 <= j < |t| ensures t[j].id != d[0].id {
        assert t[j] in t;
        StableSort.SortMembers(d[1..], DistanceOf, t[j]);
      }
      InsertDistinct(d[0], t);
    }
  }

  /** Sorting by distance neither adds nor loses an entry. */
  lemma SortMembers(d: seq<Item>, it: Item)
    ensures it in SortByDistance(d) <==> it in d
  {
    StableSort.SortMembers(d, DistanceOf, it);
  }

  /** Stability of the distance sort: entries at equal distance keep their
      relative order. */
  lemma {:induction false} SortTiesKeepOrder(d: seq<Item>, a: nat, b: nat) returns (a': nat, b': nat)
    requires a < b < |SortByDistance(d)|
    requires SortByDistance(d)[a].entry.distance == SortByDistance(d)[b].entry.distance
    ensures a' < b' < |d| && d[a'] == SortByDistance(d)[a] && d[b'] == SortByDistance(d)[b]
  {
    a', b' := StableSort.SortTiesKeepOrder(d, DistanceOf, a, b);
  }

  /** The `if n_results:` branch: `None` and `0` keep everything; a negative
      count makes `islice` raise `ValueError`; otherwise the first
      `n_results` items are kept. */
  function Truncate(d: seq<Item>, nResults: Option<int>): (r: Result<seq<Item>>)
    ensures r.Err? <==> nResults.Some? && nResults.value < 0
    ensures r.Err? ==> r.raised == ValueError
    ensures r.Ok? ==> |r.value| <= |d| && r.value == d[..|r.value|]
    ensures r.Ok? && (nResults == None || nResults == Some(0)) ==> r.value == d
    ensures r.Ok? && nResults.Some? && nResults.value > 0 ==>
      |r.value| == if nResults.value < |d| then nResults.value else |d|
    ensures r.Ok? && SortedByDistance(d) ==>
      forall a, b :: 0 <= a < |r.value| <= b < |d| ==> r.value[a].entry.distance <= d[b].entry.distance
  {
    match nResults
    case None => Ok(d)
    case Some(n) =>
      if n == 0 then Ok(d)
      else if n < 0 then Err(ValueError)
      else if n < |d| then Ok(d[..n])
      else Ok(d)
  }
}
