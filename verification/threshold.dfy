/** The first step of `filter_results` (scripts/chroma_utils.py): in every
    batch, delete the positions whose distance exceeds the threshold, by
    index and in reverse so that earlier indices stay valid, from all four
    parallel lists, counting each deletion. */
module Threshold {
  import opened QueryResult

  /** `del lst[k]` applied to each of the four lists of a batch. */
  function DeleteAt(b: Batch, k: nat): (b': Batch)
    requires b.Aligned() && k < |b.ids|
    ensures b'.Aligned()
    ensures b'.Records() == b.Records()[..k] + b.Records()[k + 1..]
  {
    var b' := Batch(b.ids[..k] + b.ids[k + 1..],
                    b.documents[..k] + b.documents[k + 1..],
                    b.distances[..k] + b.distances[k + 1..],
                    b.metadatas[..k] + b.metadatas[k + 1..]);
    assert forall j :: 0 <= j < |b'.ids| ==>
      b'.Records()[j] == (b.Records()[..k] + b.Records()[k + 1..])[j];
    b'
  }

  /** `rem` lists, in increasing order, exactly the positions of `ds` above
      the threshold. */
  predicate IsRemoval(rem: seq<nat>, ds: seq<real>, thresh: real) {
    && (forall m :: 0 <= m < |rem| ==> rem[m] < |ds| && ds[rem[m]] > thresh)
    && (forall m, m' :: 0 <= m < m' < |rem| ==> rem[m] < rem[m'])
    && (forall i :: 0 <= i < |ds| && ds[i] > thresh ==> i in rem)
  }

  /** `rem_inds`: the positions above the threshold, in increasing order. */
  method RemovalIndices(ds: seq<real>, thresh: real) returns (rem: seq<nat>)
    ensures IsRemoval(rem, ds, thresh)
  {
    rem := [];
    var j := 0;
    while j < |ds|
      invariant 0 <= j <= |ds|
      invariant forall m :: 0 <= m < |rem| ==> rem[m] < j && ds[rem[m]] > thresh
      invariant forall m, m' :: 0 <= m < m' < |rem| ==> rem[m] < rem[m']
      invariant forall i :: 0 <= i < j && ds[i] > thresh ==> i in rem
    {
      if ds[j] > thresh {
        rem := rem + [j];
      }
      j := j + 1;
    }
  }

  /** Between two consecutive removal indices (or before the first, or after
      the last) every position is at or below the threshold. */
  lemma GapBelow(rem: seq<nat>, ds: seq<real>, thresh: real, k: nat, lo: int, hi: int)
    requires IsRemoval(rem, ds, thresh)
    requires k <= |rem|
    requires lo == if k == 0 then -1 else rem[k - 1]
    requires hi == if k == |rem| then |ds| else rem[k]
    ensures forall i :: lo < i < hi ==> ds[i] <= thresh
  {
    forall i | lo < i < hi ensures ds[i] <= thresh {
      forall m | 0 <= m < |rem| ensures rem[m] != i {
        if m < k {
          assert rem[m] <= rem[k - 1];
        } else {
          assert rem[k] <= rem[m];
        }
      }
    }
  }

  /** Filtering from an above-threshold position `q` drops it and keeps the
      stretch up to `p`, which holds nothing above the threshold. */
  lemma WithinFromRemoval(rs: seq<Record>, thresh: real, q: nat, p: nat)
    requires q < p <= |rs|
    requires rs[q].distance > thresh
    requires forall i :: q < i < p ==> rs[i].distance <= thresh
    ensures Within(rs[q..], thresh) == rs[q + 1..p] + Within(rs[p..], thresh)
    ensures CountAbove(rs[q..], thresh) == 1 + CountAbove(rs[p..], thresh)
  {
    var gap, tail := rs[q + 1..p], rs[p..];
    assert Within(gap, thresh) == gap && CountAbove(gap, thresh) == 0 by {
      forall j | 0 <= j < |gap| ensures gap[j].distance <= thresh {
        assert gap[j] == rs[q + 1 + j];
      }
      WithinAllBelow(gap, thresh);
    }
    assert rs[q + 1..] == gap + tail;
    WithinConcat(gap, tail, thresh);
    var from := rs[q..];
    assert from[0] == rs[q] && from[1..] == rs[q + 1..];
    assert Within(from, thresh) == Within(from[1..], thresh);
    assert CountAbove(from, thresh) == 1 + CountAbove(from[1..], thresh);
  }

  /** Deleting position `q` from a sequence whose first `p > q` entries are
      those of `rs`. */
  lemma DeleteInPrefix<T>(rs: seq<T>, w: seq<T>, q: nat, p: nat)
    requires q < p <= |rs|
    ensures var cur := rs[..p] + w; cur[..q] + cur[q + 1..] == rs[..q] + rs[q + 1..p] + w
  {
    var cur := rs[..p] + w;
    assert cur[..q] == rs[..q];
    assert cur[q + 1..] == rs[q + 1..p] + w;
  }

  /** One deletion of the reverse loop: with the records from `p` on already
      filtered, deleting removal index `rem[k]` extends the filtered part
      down to `rem[k]`. */
  lemma DeleteStep(b: Batch, thresh: real, rem: seq<nat>, k: nat, p: nat, cur: seq<Record>)
    requires b.Aligned() && IsRemoval(rem, b.distances, thresh)
    requires k < |rem| && p == (if k + 1 == |rem| then |b.ids| else rem[k + 1])
    requires cur == b.Records()[..p] + Within(b.Records()[p..], thresh)
    ensures rem[k] < p <= |b.ids| && rem[k] < |cur|
    ensures cur[..rem[k]] + cur[rem[k] + 1..] == b.Records()[..rem[k]] + Within(b.Records()[rem[k]..], thresh)
    ensures CountAbove(b.Records()[rem[k]..], thresh) == 1 + CountAbove(b.Records()[p..], thresh)
  {
    var rs, q := b.Records(), rem[k];
    assert q < p && rs[q].distance > thresh;
    GapBelow(rem, b.distances, thresh, k + 1, q, p);
    WithinFromRemoval(rs, thresh, q, p);
    DeleteInPrefix(rs, Within(rs[p..], thresh), q, p);
  }

  /** When the loop ends, the records before the first removal index are all
      kept, so the whole batch is filtered. */
  lemma DeleteDone(b: Batch, thresh: real, rem: seq<nat>, p: nat)
    requires b.Aligned() && IsRemoval(rem, b.distances, thresh)
    requires p == (if 0 == |rem| then |b.ids| else rem[0])
    ensures p <= |b.ids|
    ensures b.Records()[..p] + Within(b.Records()[p..], thresh) == Within(b.Records(), thresh)
    ensures CountAbove(b.Records()[p..], thresh) == CountAbove(b.Records(), thresh)
  {
    var rs := b.Records();
    var front, back := rs[..p], rs[p..];
    assert Within(front, thresh) == front && CountAbove(front, thresh) == 0 by {
      GapBelow(rem, b.distances, thresh, 0, -1, p);
      WithinAllBelow(front, thresh);
    }
    assert rs == front + back;
    WithinConcat(front, back, thresh);
    assert Within(rs, thresh) == front + Within(back, thresh);
  }

  /** One batch of the threshold pass. The surviving records are exactly the
      ones at or below the threshold, in their original order, and position j
      of each of the four lists still belongs to the same record. */
  method ThresholdBatch(b: Batch, thresh: real) returns (b': Batch, removed: nat)
    requires b.Aligned()
    ensures b'.Aligned()
    ensures b'.Records() == Within(b.Records(), thresh)
    ensures removed == CountAbove(b.Records(), thresh)
    ensures |b'.ids| + removed == |b.ids|
  {
    ghost var rs := b.Records();
    var rem := RemovalIndices(b.distances, thresh);
    // delete from the highest index down, so lower indices do not shift
    b', removed := b, 0;
    var k := |rem|;
    ghost var p := |rs|;
    while k > 0
      invariant 0 <= k <= |rem|
      invariant p == if k == |rem| then |rs| else rem[k]
      invariant b'.Aligned()
      invariant p <= |rs|
      invariant b'.Records() == rs[..p] + Within(rs[p..], thresh)
      invariant removed == CountAbove(rs[p..], thresh)
    {
      k := k - 1;
      DeleteStep(b, thresh, rem, k, p, b'.Records());
      b' := DeleteAt(b', rem[k]);
      removed := removed + 1;
      p := rem[k];
    }
    DeleteDone(b, thresh, rem, p);
    WithinPartition(rs, thresh);
  }

  /** One batch more: appending the filtered batch extends the flattened
      survivors and the count by that batch's share. */
  lemma PassStep(q: seq<Batch>, thresh: real, i: nat, done: seq<Batch>, nb: Batch, removed: nat, n: nat)
    requires WellFormed(q) && i < |q| && |done| == i && WellFormed(done)
    requires Flatten(done) == Within(Flatten(q[..i]), thresh)
    requires removed == CountAbove(Flatten(q[..i]), thresh)
    requires nb.Aligned() && nb.Records() == Within(q[i].Records(), thresh)
    requires n == CountAbove(q[i].Records(), thresh)
    ensures WellFormed(done + [nb])
    ensures Flatten(done + [nb]) == Within(Flatten(q[..i + 1]), thresh)
    ensures removed + n == CountAbove(Flatten(q[..i + 1]), thresh)
  {
    assert (done + [nb])[..i] == done;
    FlattenSnoc(q, i);
    WithinConcat(Flatten(q[..i]), q[i].Records(), thresh);
  }

  lemma {:induction false} PassKeepsBatches(q: seq<Batch>, thresh: real, i: nat, done: seq<Batch>, nb: Batch)
    requires WellFormed(q) && i < |q| && |done| == i && WellFormed(done) && nb.Aligned()
    requires forall m :: 0 <= m < i ==> done[m].Records() == Within(q[m].Records(), thresh)
    requires nb.Records() == Within(q[i].Records(), thresh)
    ensures WellFormed(done + [nb])
    ensures forall m :: 0 <= m < i + 1 ==> (done + [nb])[m].Records() == Within(q[m].Records(), thresh)
  {
    assert forall m :: 0 <= m < i ==> (done + [nb])[m] == done[m];
    forall m | 0 <= m < i + 1 ensures (done + [nb])[m].Records() == Within(q[m].Records(), thresh) {
      if m < i { assert (done + [nb])[m] == done[m]; }
    }
  }

  /** The whole threshold pass of `filter_results`: every batch filtered,
      `total_removed` grown by one per deleted (batch, position) entry. */
  method ThresholdPass(q: seq<Batch>, thresh: real) returns (q': seq<Batch>, removed: nat)
    requires WellFormed(q)
    ensures |q'| == |q| && WellFormed(q')
    ensures forall i :: 0 <= i < |q| ==> q'[i].Records() == Within(q[i].Records(), thresh)
    ensures Flatten(q') == Within(Flatten(q), thresh)
    ensures removed == CountAbove(Flatten(q), thresh)
  {
    // the batches are filtered one after another; `q'` holds those done
    q', removed := [], 0;
    var i := 0;
    while i < |q|
      invariant 0 <= i <= |q| && |q'| == i && WellFormed(q')
      invariant forall m :: 0 <= m < i ==> q'[m].Records() == Within(q[m].Records(), thresh)
      invariant Flatten(q') == Within(Flatten(q[..i]), thresh)
      invariant removed == CountAbove(Flatten(q[..i]), thresh)
    {
      var nb, n := ThresholdBatch(q[i], thresh);
      PassStep(q, thresh, i, q', nb, removed, n);
      PassKeepsBatches(q, thresh, i, q', nb);
      q', removed, i := q' + [nb], removed + n, i + 1;
    }
    assert q[..|q|] == q;
  }
}
