/** The shape of a vector-store query result as `filter_results` receives it
    (scripts/chroma_utils.py): one batch per query keyword, each holding four
    parallel lists of ids, documents, distances and metadatas. */
module QueryResult {

  /** The metadata fields the pipeline reads from a stored document. */
  datatype Metadata = Metadata(
    orgName: string,
    isPrivate: bool,
    isArchived: bool,
    language: string,
    updatedAt: real)

  /** One query's answer: four lists read position by position. */
  datatype Batch = Batch(
    ids: seq<string>,
    documents: seq<string>,
    distances: seq<real>,
    metadatas: seq<Metadata>)
  {
    /** The four lists have the same length, so position j names one record. */
    predicate Aligned() {
      |ids| == |documents| == |distances| == |metadatas|
    }

    /** The records the batch holds, position j read across all four lists. */
    function Records(): (rs: seq<Record>)
      requires Aligned()
      ensures |rs| == |ids|
    {
      seq(|ids|, j requires 0 <= j < |ids| =>
        Record(ids[j], documents[j], distances[j], metadatas[j]))
    }
  }

  /** A whole query result is well formed when every batch is aligned. */
  predicate WellFormed(q: seq<Batch>) {
    forall i :: 0 <= i < |q| ==> q[i].Aligned()
  }

  /** One retrieved document: the four values found at one position. */
  datatype Record = Record(id: string, document: string, distance: real, metadata: Metadata)

  /** The records at or below the threshold, in their original order. */
  function Within(rs: seq<Record>, thresh: real): seq<Record>
  {
    if |rs| == 0 then []
    else (if rs[0].distance <= thresh then [rs[0]] else []) + Within(rs[1..], thresh)
  }

  /** How many records lie strictly above the threshold. */
  function CountAbove(rs: seq<Record>, thresh: real): nat
  {
    if |rs| == 0 then 0
    else (if rs[0].distance > thresh then 1 else 0) + CountAbove(rs[1..], thresh)
  }

  /** Every record of every batch, batch after batch: the visiting order of
      the merge loop. */
  function Flatten(q: seq<Batch>): seq<Record>
    requires WellFormed(q)
  {
    if |q| == 0 then [] else Flatten(q[..|q| - 1]) + q[|q| - 1].Records()
  }

  /** Flattening one more batch appends its records. */
  lemma FlattenSnoc(q: seq<Batch>, i: nat)
    requires WellFormed(q) && i < |q|
    ensures WellFormed(q[..i]) && WellFormed(q[..i + 1])
    ensures Flatten(q[..i + 1]) == Flatten(q[..i]) + q[i].Records()
  {
    assert q[..i + 1][..i] == q[..i];
  }

  lemma {:induction false} WithinConcat(a: seq<Record>, b: seq<Record>, thresh: real)
    ensures Within(a + b, thresh) == Within(a, thresh) + Within(b, thresh)
    ensures CountAbove(a + b, thresh) == CountAbove(a, thresh) + CountAbove(b, thresh)
    decreases |a|
  {
    if |a| == 0 {
      assert a + b == b;
    } else {
      assert (a + b)[1..] == a[1..] + b;
      WithinConcat(a[1..], b, thresh);
    }
  }

  /** A stretch with nothing above the threshold is kept whole. */
  lemma {:induction false} WithinAllBelow(rs: seq<Record>, thresh: real)
    requires forall j :: 0 <= j < |rs| ==> rs[j].distance <= thresh
    ensures Within(rs, thresh) == rs
    ensures CountAbove(rs, thresh) == 0
    decreases |rs|
  {
    if |rs| > 0 {
      WithinAllBelow(rs[1..], thresh);
    }
  }

  /** The threshold partitions the records: each one is kept or counted. */
  lemma {:induction false} WithinPartition(rs: seq<Record>, thresh: real)
    ensures |Within(rs, thresh)| + CountAbove(rs, thresh) == |rs|
    ensures forall j :: 0 <= j < |Within(rs, thresh)| ==> Within(rs, thresh)[j].distance <= thresh
    decreases |rs|
  {
    if |rs| > 0 {
      WithinPartition(rs[1..], thresh);
      var h: seq<Record> := if rs[0].distance <= thresh then [rs[0]] else [];
      var t := Within(rs[1..], thresh);
      forall j | 0 <= j < |h + t| ensures (h + t)[j].distance <= thresh {
        if j >= |h| { assert (h + t)[j] == t[j - |h|]; }
      }
    }
  }

  /** Membership: a record survives exactly when it was present and lies at
      or below the threshold. */
  lemma {:induction false} WithinMembers(rs: seq<Record>, thresh: real, r: Record)
    ensures r in Within(rs, thresh) <==> r in rs && r.distance <= thresh
    decreases |rs|
  {
    if |rs| > 0 {
      WithinMembers(rs[1..], thresh, r);
      assert rs == [rs[0]] + rs[1..];
    }
  }
}
