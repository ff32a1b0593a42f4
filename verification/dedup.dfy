/** The second step of `filter_results` (scripts/chroma_utils.py): every
    surviving record is stored in a dict keyed by id, batch after batch and
    position after position. A Python dict keeps insertion order: storing an
    id that is already present replaces its value but keeps its first
    position. The dict is modelled as an association list. */
module Dedup {
  import opened Wrappers
  import opened QueryResult

  /** The value stored under an id: `{"document", "distance", "metadata"}`. */
  datatype Entry = Entry(document: string, distance: real, metadata: Metadata)

  /** One key/value pair of the insertion-ordered dict. */
  datatype Item = Item(id: string, entry: Entry)

  function EntryOf(r: Record): Entry {
    Entry(r.document, r.distance, r.metadata)
  }

  function Ids(d: seq<Item>): (ids: seq<string>)
    ensures |ids| == |d|
  {
    seq(|d|, i requires 0 <= i < |d| => d[i].id)
  }

  function RecordIds(rs: seq<Record>): (ids: seq<string>)
    ensures |ids| == |rs|
  {
    seq(|rs|, j requires 0 <= j < |rs| => rs[j].id)
  }

  /** Dict keys are unique. */
  predicate DistinctIds(d: seq<Item>) {
    forall a, b :: 0 <= a < b < |d| ==> d[a].id != d[b].id
  }

  /** The position of `id` in the dict, if it is a key. */
  function IndexOf(d: seq<Item>, id: string): (r: Option<nat>)
    ensures r.Some? ==> r.value < |d| && d[r.value].id == id
    ensures r.None? ==> forall i :: 0 <= i < |d| ==> d[i].id != id
  {
    if |d| == 0 then None
    else if d[0].id == id then Some(0)
    else match IndexOf(d[1..], id)
      case None => None
      case Some(i) => Some(i + 1)
  }

  /** `d.get(id)`. */
  function Lookup(d: seq<Item>, id: string): Option<Entry>
  {
    match IndexOf(d, id)
    case None => None
    case Some(i) => Some(d[i].entry)
  }

  /** With unique keys, the entry at position `i` is what its id looks up. */
  lemma {:induction false} LookupAt(d: seq<Item>, i: nat)
    requires DistinctIds(d) && i < |d|
    ensures Lookup(d, d[i].id) == Some(d[i].entry)
  {
    var r := IndexOf(d, d[i].id);
    assert r.Some?;
  }

  lemma LookupIffKey(d: seq<Item>, id: string)
    ensures Lookup(d, id).Some? <==> id in Ids(d)
  {
    if id in Ids(d) {
      var i :| 0 <= i < |d| && Ids(d)[i] == id;
      assert d[i].id == id;
    }
    match IndexOf(d, id)
    case None =>
    case Some(i) => assert Ids(d)[i] == id;
  }

  /** Overwriting position `i` with a pair of the same id leaves every other
      key's lookup alone. */
  lemma UpdateKeepsOthers(d: seq<Item>, i: nat, e: Entry)
    requires DistinctIds(d) && i < |d|
    ensures DistinctIds(d[i := Item(d[i].id, e)])
    ensures Lookup(d[i := Item(d[i].id, e)], d[i].id) == Some(e)
    ensures forall k :: k != d[i].id ==> Lookup(d[i := Item(d[i].id, e)], k) == Lookup(d, k)
  {
    var d' := d[i := Item(d[i].id, e)];
    LookupAt(d', i);
    forall k | k != d[i].id ensures Lookup(d', k) == Lookup(d, k) {
      match IndexOf(d, k)
      case None =>
      case Some(j) => LookupAt(d', j);
    }
  }

  /** Appending a pair with a fresh id leaves every other key's lookup alone. */
  lemma AppendKeepsOthers(d: seq<Item>, id: string, e: Entry)
    requires DistinctIds(d) && id !in Ids(d)
    ensures DistinctIds(d + [Item(id, e)])
    ensures Lookup(d + [Item(id, e)], id) == Some(e)
    ensures forall k :: k != id ==> Lookup(d + [Item(id, e)], k) == Lookup(d, k)
  {
    var d' := d + [Item(id, e)];
    forall a | 0 <= a < |d| ensures d[a].id != id {
      assert Ids(d)[a] == d[a].id;
    }
    LookupAt(d', |d|);
    forall k | k != id ensures Lookup(d', k) == Lookup(d, k) {
      match IndexOf(d, k)
      case None =>
      case Some(j) => LookupAt(d', j);
    }
  }

  /** `d[id] = e`: an existing key is updated where it stands; a new key is
      appended. */
  function Put(d: seq<Item>, id: string, e: Entry): (d': seq<Item>)
    requires DistinctIds(d)
    ensures DistinctIds(d')
    ensures Lookup(d', id) == Some(e)
    ensures forall k :: k != id ==> Lookup(d', k) == Lookup(d, k)
    ensures id in Ids(d) ==> Ids(d') == Ids(d)
    ensures id !in Ids(d) ==> Ids(d') == Ids(d) + [id]
  {
    match IndexOf(d, id)
    case Some(i) =>
      assert Ids(d)[i] == id;
      UpdateKeepsOthers(d, i, e);
      assert Ids(d[i := Item(id, e)]) == Ids(d);
      d[i := Item(id, e)]
    case None =>
      assert id !in Ids(d);
      AppendKeepsOthers(d, id, e);
      assert Ids(d + [Item(id, e)]) == Ids(d) + [id];
      d + [Item(id, e)]
  }

  /** The merge loop: each record stored under its id, in visiting order. */
  function Merge(rs: seq<Record>): (d: seq<Item>)
    ensures DistinctIds(d)
    ensures |d| <= |rs|
  {
    if |rs| == 0 then []
    else
      var last := rs[|rs| - 1];
      Put(Merge(rs[..|rs| - 1]), last.id, EntryOf(last))
  }

  /** The value of the last record carrying `id`, if any record does. */
  function LastOf(rs: seq<Record>, id: string): Option<Entry>
  {
    if |rs| == 0 then None
    else if rs[|rs| - 1].id == id then Some(EntryOf(rs[|rs| - 1]))
    else LastOf(rs[..|rs| - 1], id)
  }

  lemma {:induction false} LastOfIffPresent(rs: seq<Record>, id: string)
    ensures LastOf(rs, id).Some? <==> id in RecordIds(rs)
    decreases |rs|
  {
    if |rs| > 0 {
      var pre := rs[..|rs| - 1];
      LastOfIffPresent(pre, id);
      assert RecordIds(rs) == RecordIds(pre) + [rs[|rs| - 1].id];
    }
  }

  /** A repeated id keeps the value of its LAST occurrence (not, say, its
      smallest distance): looking an id up in the merged dict gives the value
      of the last record carrying it, and nothing for an absent id. */
  lemma {:induction false} MergeKeepsLastValue(rs: seq<Record>, id: string)
    ensures Lookup(Merge(rs), id) == LastOf(rs, id)
    decreases |rs|
  {
    if |rs| > 0 {
      MergeKeepsLastValue(rs[..|rs| - 1], id);
    }
  }

  /** The merged keys are exactly the ids of the records, each once. */
  lemma MergeKeys(rs: seq<Record>, id: string)
    ensures id in Ids(Merge(rs)) <==> id in RecordIds(rs)
  {
    MergeKeepsLastValue(rs, id);
    LookupIffKey(Merge(rs), id);
    LastOfIffPresent(rs, id);
  }

  /** Where `id` first occurs in `ids`. */
  function FirstIndex(ids: seq<string>, id: string): (i: nat)
    requires id in ids
    ensures i < |ids| && ids[i] == id
    ensures forall j :: 0 <= j < i ==> ids[j] != id
  {
    if ids[0] == id then 0 else 1 + FirstIndex(ids[1..], id)
  }

  lemma FirstIndexUnique(ids: seq<string>, id: string, i: nat)
    requires i < |ids| && ids[i] == id
    requires forall j :: 0 <= j < i ==> ids[j] != id
    ensures FirstIndex(ids, id) == i
  {
  }

  /** `keys` are ids of `ids`, listed in the order of their first occurrence. */
  predicate FirstOccurrenceOrder(keys: seq<string>, ids: seq<string>) {
    && (forall a :: 0 <= a < |keys| ==> keys[a] in ids)
    && (forall a, b :: 0 <= a < b < |keys| ==> FirstIndex(ids, keys[a]) < FirstIndex(ids, keys[b]))
  }

  /** Ids already present first occur where they did before a new record. */
  lemma FirstIndexExtend(ids: seq<string>, x: string, k: string)
    requires k in ids
    ensures FirstIndex(ids + [x], k) == FirstIndex(ids, k)
  {
    FirstIndexUnique(ids + [x], k, FirstIndex(ids, k));
  }

  lemma OrderExtendSame(keys: seq<string>, ids: seq<string>, x: string)
    requires FirstOccurrenceOrder(keys, ids)
    ensures FirstOccurrenceOrder(keys, ids + [x])
  {
    forall a | 0 <= a < |keys| ensures FirstIndex(ids + [x], keys[a]) == FirstIndex(ids, keys[a]) {
      FirstIndexExtend(ids, x, keys[a]);
    }
  }

  lemma OrderExtendNew(keys: seq<string>, ids: seq<string>, x: string)
    requires FirstOccurrenceOrder(keys, ids) && x !in ids
    ensures FirstOccurrenceOrder(keys + [x], ids + [x])
  {
    OrderExtendSame(keys, ids, x);
    FirstIndexUnique(ids + [x], x, |ids|);
    var ks := keys + [x];
    forall a | 0 <= a < |ks| ensures ks[a] in ids + [x] {
      if a < |keys| { assert ks[a] == keys[a]; }
    }
    forall a, b | 0 <= a < b < |ks|
      ensures FirstIndex(ids + [x], ks[a]) < FirstIndex(ids + [x], ks[b])
    {
      assert ks[a] == keys[a];
      if b < |keys| { assert ks[b] == keys[b]; }
    }
  }

  /** The merged keys are listed in the order in which the ids first occur
      among the records. */
  lemma {:induction false} MergeFirstOccurrence(rs: seq<Record>)
    ensures FirstOccurrenceOrder(Ids(Merge(rs)), RecordIds(rs))
    decreases |rs|
  {
    if |rs| > 0 {
      MergeFirstOccurrence(rs[..|rs| - 1]);
      MergeOrderStep(rs);
    }
  }

  /** Storing the last record keeps the first-occurrence order. */
  lemma {:induction false} MergeOrderStep(rs: seq<Record>)
    requires |rs| > 0
    requires FirstOccurrenceOrder(Ids(Merge(rs[..|rs| - 1])), RecordIds(rs[..|rs| - 1]))
    ensures FirstOccurrenceOrder(Ids(Merge(rs)), RecordIds(rs))
  {
    var pre := rs[..|rs| - 1];
    var x := rs[|rs| - 1];
    var m := Merge(pre);
    assert RecordIds(rs) == RecordIds(pre) + [x.id];
    assert Merge(rs) == Put(m, x.id, EntryOf(x));
    if x.id in Ids(m) {
      assert Ids(Merge(rs)) == Ids(m);
      OrderExtendSame(Ids(m), RecordIds(pre), x.id);
    } else {
      assert Ids(Merge(rs)) == Ids(m) + [x.id];
      MergeKeys(pre, x.id);
      OrderExtendNew(Ids(m), RecordIds(pre), x.id);
    }
  }

  /** A key keeps the position of its FIRST insertion: of two merged keys,
      the earlier one is the id that first occurs earlier among the records. */
  lemma {:induction false} MergeKeepsFirstPosition(rs: seq<Record>, a: nat, b: nat)
    requires a < b < |Merge(rs)|
    ensures Merge(rs)[a].id in RecordIds(rs) && Merge(rs)[b].id in RecordIds(rs)
    ensures FirstIndex(RecordIds(rs), Merge(rs)[a].id) < FirstIndex(RecordIds(rs), Merge(rs)[b].id)
  {
    MergeFirstOccurrence(rs);
    var keys := Ids(Merge(rs));
    assert keys[a] == Merge(rs)[a].id && keys[b] == Merge(rs)[b].id;
  }
}
