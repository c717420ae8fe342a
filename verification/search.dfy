/**
 The driver (`Optimize`).

 Dimension 0 of [0, 1) is cut into one slice per worker; each worker walks its
 slice with a fresh tracker; the workers' trackers are merged, worker by worker
 and slot by slot, into one more fresh tracker; the merged slots are sorted by
 ascending score and the slots still holding the sentinel are not written out.
 The workers run one after the other here.
 */
module Search {
  import opened Ordinals
  import opened TopK
  import opened Enumerate
  import opened Slices
  import opened Ranking

  /** The merge: a fresh tracker records every slot of every worker's tracker,
      worker by worker. */
  function Merge(k: nat, blank: Point, ts: seq<seq<Entry>>): (m: seq<Entry>)
    requires k >= 1
    ensures |m| == k && SlotZeroMax(m)
    decreases |ts|
  {
    if ts == [] then Fresh(k, blank)
    else Feed(Merge(k, blank, ts[..|ts| - 1]), ts[|ts| - 1])
  }

  /** The workers' trackers laid end to end in worker order. */
  function Concat(ts: seq<seq<Entry>>): seq<Entry>
    decreases |ts|
  {
    if ts == [] then [] else Concat(ts[..|ts| - 1]) + ts[|ts| - 1]
  }

  /** The merge is one run of `ProcessResult` over all the workers' slots in order. */
  lemma {:induction false} MergeFeedsAll(k: nat, blank: Point, ts: seq<seq<Entry>>)
    requires k >= 1
    ensures Merge(k, blank, ts) == Feed(Fresh(k, blank), Concat(ts))
    decreases |ts|
  {
    if ts != [] {
      var init := ts[..|ts| - 1];
      MergeFeedsAll(k, blank, init);
      FeedConcat(Fresh(k, blank), Concat(init), ts[|ts| - 1]);
    }
  }

  /** Everything the final tracker competes over: its own sentinel slots and, for
      each worker, the sentinel slots its tracker started with and every result
      it recorded. */
  ghost function Pool(k: nat, blank: Point, recs: seq<seq<Entry>>): multiset<Entry>
    decreases |recs|
  {
    if recs == [] then multiset(Fresh(k, blank))
    else Pool(k, blank, recs[..|recs| - 1]) + (multiset(Fresh(k, blank)) + multiset(recs[|recs| - 1]))
  }

  /** A merge of fresh sentinels alone keeps them all. */
  lemma SmallestOfItself(m: multiset<Entry>)
    ensures Smallest(m, m)
  {
    assert m - m == multiset{};
  }

  /** The merged tracker holds the lowest-scored entries of the whole pool. */
  lemma {:induction false} MergeKeepsSmallest(k: nat, blank: Point, ts: seq<seq<Entry>>, recs: seq<seq<Entry>>)
    requires k >= 1 && |ts| == |recs|
    requires forall i :: 0 <= i < |ts| ==> ts[i] == Feed(Fresh(k, blank), recs[i])
    ensures Smallest(multiset(Merge(k, blank, ts)), Pool(k, blank, recs))
    decreases |ts|
  {
    if ts == [] {
      SmallestOfItself(multiset(Fresh(k, blank)));
    } else {
      var n := |ts| - 1;
      var ts', recs' := ts[..n], recs[..n];
      MergeKeepsSmallest(k, blank, ts', recs');
      var before, empty := Merge(k, blank, ts'), Fresh(k, blank);
      FeedKeepsSmallest(before, ts[n]);
      FeedKeepsSmallest(empty, recs[n]);
      SmallestOfSmallest(multiset(before), Pool(k, blank, recs'), multiset(ts[n]),
                         multiset(empty) + multiset(recs[n]), multiset(Merge(k, blank, ts)));
    }
  }

  /** Worker `i` of `n` has walked its whole slice and scored every point it recorded. */
  ghost predicate WorkerDone(i: nat, n: nat, d: nat, step: U32, score: Point -> Score, rec: seq<Entry>)
    requires 0 < n <= One && i < n && 1 <= d
  {
    Walk(Inputs(rec), d, SliceStart(i, n), SliceStart(i + 1, n), step) && ScoredBy(rec, score)
  }

  /** Appending the next worker's results keeps every worker done. */
  lemma WorkersAppend(n: nat, d: nat, step: U32, score: Point -> Score, recs: seq<seq<Entry>>, rec: seq<Entry>)
    requires 0 < n <= One && 1 <= d && |recs| < n
    requires forall j :: 0 <= j < |recs| ==> WorkerDone(j, n, d, step, score, recs[j])
    requires WorkerDone(|recs|, n, d, step, score, rec)
    ensures forall j :: 0 <= j < |recs| + 1 ==> WorkerDone(j, n, d, step, score, (recs + [rec])[j])
  {
  }

  /** Runs the `n` workers, each over its own slice with a fresh tracker. Returns each
      worker's recorded results and final tracker. */
  method RunWorkers(n: nat, d: nat, step: U32, k: nat, blank: Point, score: Point -> Score)
    returns (recs: seq<seq<Entry>>, trackers: seq<seq<Entry>>)
    requires 1 <= n <= One && 1 <= d && 0 < step <= Modulus - One && 1 <= k
    ensures |recs| == n && |trackers| == n
    ensures forall i :: 0 <= i < n ==> WorkerDone(i, n, d, step, score, recs[i])
    ensures forall i :: 0 <= i < n ==> trackers[i] == Feed(Fresh(k, blank), recs[i])
  {
    trackers, recs := [], [];
    var i := 0;
    while i < n
      invariant i <= n && |recs| == i && |trackers| == i
      invariant forall j :: 0 <= j < i ==> WorkerDone(j, n, d, step, score, recs[j])
      invariant forall j :: 0 <= j < i ==> trackers[j] == Feed(Fresh(k, blank), recs[j])
    {
      SliceNonEmpty(i, n);
      var rec, t := IterateInput(d, SliceStart(i, n), SliceStart(i + 1, n), step, score, Fresh(k, blank));
      WorkersAppend(n, d, step, score, recs, rec);
      recs, trackers := recs + [rec], trackers + [t];
      i := i + 1;
    }
  }

  /** Searches [0, 1)^d with `n` workers, keeping the `k` lowest scores. Returns each
      worker's recorded results, the merged slots sorted by score, and the rows
      written out. */
  method Optimize(n: nat, d: nat, step: U32, k: nat, blank: Point, score: Point -> Score)
    returns (recs: seq<seq<Entry>>, ranked: seq<Entry>, rows: seq<Entry>)
    requires 1 <= n <= One && 1 <= d && 0 < step <= Modulus - One && 1 <= k
    ensures |recs| == n
    ensures forall i :: 0 <= i < n ==> WorkerDone(i, n, d, step, score, recs[i])
    ensures |ranked| == k && Sorted(ranked)
    ensures Smallest(multiset(ranked), Pool(k, blank, recs))
    ensures |rows| <= |ranked| && rows == ranked[..|rows|]
    ensures forall i :: |rows| <= i < |ranked| ==> ranked[i].score == Unset
    ensures forall e :: e in rows <==> e in ranked && e.score < Unset
  {
    var trackers;
    recs, trackers := RunWorkers(n, d, step, k, blank, score);
    var merged := Merge(k, blank, trackers);
    MergeKeepsSmallest(k, blank, trackers, recs);
    ranked := SortByScore(merged);
    SortPermutes(merged);
    rows := Scored(ranked);
    ScoredSortedPrefix(ranked);
    forall e
      ensures e in rows <==> e in ranked && e.score < Unset
    {
      ScoredMembers(ranked, e);
    }
  }
}
