/**
 Top-K result tracker (`PerThreadData`).

 A tracker is a fixed-length sequence of K result slots. Every slot starts with
 the sentinel score; `ProcessResult` records one (input, score) pair. With more
 than one slot the tracker keeps the largest retained score in slot 0, so a
 worse result is rejected by one comparison.
 */
module TopK {
  import opened Ordinals

  /** The sentinel "unset" score standing in for FLT_MAX; the largest score. */
  const Unset: int := 0x7F7F_FFFF

  /** Scores are modelled as integers ordered as the float scores are, capped by the sentinel. */
  type Score = s: int | s <= Unset

  /** A point of the search space: one ordinal per dimension. */
  type Point = seq<U32>

  /** One result slot: an input point and its score. */
  datatype Entry = Entry(input: Point, score: Score)

  /** Slot 0 holds a maximal score among all slots. */
  ghost predicate SlotZeroMax(t: seq<Entry>)
  {
    |t| > 0 && forall i :: 0 <= i < |t| ==> t[i].score <= t[0].score
  }

  /** Every score in `lo` is at most every score in `hi`. */
  ghost predicate Below(lo: multiset<Entry>, hi: multiset<Entry>)
  {
    forall y, x :: y in lo && x in hi ==> y.score <= x.score
  }

  /** `kept` is a choice of the lowest-scored entries of `pool`: it is drawn from
      the pool and no entry left out scores lower than an entry kept. */
  ghost predicate Smallest(kept: multiset<Entry>, pool: multiset<Entry>)
  {
    kept <= pool && Below(kept, pool - kept)
  }

  /** The constructor: K slots, each holding the sentinel score. The source leaves
      the inputs uninitialised; they are modelled by the caller-chosen `blank`. */
  function Fresh(k: nat, blank: Point): (t: seq<Entry>)
    ensures |t| == k
    ensures forall i :: 0 <= i < k ==> t[i] == Entry(blank, Unset)
    ensures k >= 1 ==> SlotZeroMax(t)
  {
    seq(k, i => Entry(blank, Unset))
  }

  /** The single-slot policy: keep the strict running minimum. */
  function KeepMinimum(t: seq<Entry>, input: Point, score: Score): (r: seq<Entry>)
    requires |t| == 1
    ensures |r| == 1
    ensures r[0].score == if score < t[0].score then score else t[0].score
    ensures r[0] == t[0] || score < t[0].score
    ensures score < t[0].score ==> r[0] == Entry(input, score)
  {
    if score < t[0].score then [Entry(input, score)] else t
  }

  /** The scan for the largest score over slots `i..`, where `best` indexes the
      largest (and first largest) score seen among slots `..i`; a later slot
      replaces `best` only when strictly larger. */
  function ScanForLargest(u: seq<Entry>, i: nat, best: nat): (m: nat)
    requires best < i <= |u|
    requires forall j :: 0 <= j < i ==> u[j].score <= u[best].score
    requires forall j :: 0 <= j < best ==> u[j].score < u[best].score
    ensures m < |u|
    ensures forall j :: 0 <= j < |u| ==> u[j].score <= u[m].score
    ensures forall j :: 0 <= j < m ==> u[j].score < u[m].score
    decreases |u| - i
  {
    if i == |u| then best
    else if u[i].score > u[best].score then ScanForLargest(u, i + 1, i)
    else ScanForLargest(u, i + 1, best)
  }

  /** Exchanges slots `i` and `j`. */
  function Swap(u: seq<Entry>, i: nat, j: nat): (r: seq<Entry>)
    requires i < |u| && j < |u|
    ensures |r| == |u|
    ensures r[i] == u[j] && r[j] == u[i]
    ensures forall k :: 0 <= k < |u| && k != i && k != j ==> r[k] == u[k]
  {
    u[i := u[j]][j := u[i]]
  }

  /** Swapping two slots permutes the tracker. */
  lemma SwapPermutes(u: seq<Entry>, i: nat, j: nat)
    requires i < |u| && j < |u|
    ensures multiset(Swap(u, i, j)) == multiset(u)
  {
  }

  /** The multi-slot policy: a result scoring below slot 0 overwrites slot 0, and
      the largest score is then swapped back into slot 0. */
  function ReplaceLargest(t: seq<Entry>, input: Point, score: Score): (r: seq<Entry>)
    requires |t| >= 1
    ensures |r| == |t|
    ensures score >= t[0].score ==> r == t
    ensures score < t[0].score ==> SlotZeroMax(r)
  {
    if t[0].score > score then
      var u := t[0 := Entry(input, score)];
      var m := ScanForLargest(u, 1, 0);
      if m > 0 then Swap(u, 0, m) else u
    else
      t
  }

  /** An accepted result takes the place of the entry that was in slot 0. */
  lemma {:induction false} ReplaceLargestTrades(t: seq<Entry>, input: Point, score: Score)
    requires |t| >= 1 && score < t[0].score
    ensures multiset(ReplaceLargest(t, input, score))
            == multiset(t) - multiset{t[0]} + multiset{Entry(input, score)}
  {
    var u := t[0 := Entry(input, score)];
    var m := ScanForLargest(u, 1, 0);
    if m > 0 {
      SwapPermutes(u, 0, m);
    }
  }

  /** Records one result, choosing the policy by the number of slots as the source does. */
  function ProcessResult(t: seq<Entry>, input: Point, score: Score): (r: seq<Entry>)
    requires |t| >= 1
    ensures |r| == |t|
    ensures score >= t[0].score ==> r == t
    ensures SlotZeroMax(t) ==> SlotZeroMax(r)
  {
    if |t| == 1 then KeepMinimum(t, input, score) else ReplaceLargest(t, input, score)
  }

  /** With either policy, an accepted result replaces the entry in slot 0 and
      the tracker is otherwise the same multiset. */
  lemma {:induction false} ProcessResultTrades(t: seq<Entry>, input: Point, score: Score)
    requires |t| >= 1 && score < t[0].score
    ensures multiset(ProcessResult(t, input, score))
            == multiset(t) - multiset{t[0]} + multiset{Entry(input, score)}
  {
    if |t| > 1 {
      ReplaceLargestTrades(t, input, score);
    }
  }

  /** The single-slot special case is only a shortcut: the general policy gives the same result. */
  lemma {:induction false} SingleSlotAgrees(t: seq<Entry>, input: Point, score: Score)
    requires |t| == 1
    ensures KeepMinimum(t, input, score) == ReplaceLargest(t, input, score)
  {
  }

  /** Records every entry of `es`, in order. */
  function Feed(t: seq<Entry>, es: seq<Entry>): (r: seq<Entry>)
    requires |t| >= 1
    ensures |r| == |t|
    ensures SlotZeroMax(t) ==> SlotZeroMax(r)
    decreases |es|
  {
    if es == [] then t
    else
      var last := es[|es| - 1];
      ProcessResult(Feed(t, es[..|es| - 1]), last.input, last.score)
  }

  /** Recording two lists one after the other is recording their concatenation. */
  lemma {:induction false} FeedConcat(t: seq<Entry>, a: seq<Entry>, b: seq<Entry>)
    requires |t| >= 1
    ensures Feed(t, a + b) == Feed(Feed(t, a), b)
    decreases |b|
  {
    if b == [] {
      assert a + b == a;
    } else {
      var init := b[..|b| - 1];
      FeedConcat(t, a, init);
      assert (a + b)[..|a + b| - 1] == a + init;
    }
  }

  /** Every retained score is at most the score in slot 0. */
  lemma {:induction false} SlotZeroBoundsAll(t: seq<Entry>)
    requires SlotZeroMax(t)
    ensures forall y :: y in multiset(t) ==> y.score <= t[0].score
  {
    forall y | y in multiset(t)
      ensures y.score <= t[0].score
    {
      assert y in t;
      var i :| 0 <= i < |t| && t[i] == y;
    }
  }

  /** A rejected result joins the entries left out; it scores no lower than any kept one. */
  lemma RejectKeepsSmallest(kept: multiset<Entry>, pool: multiset<Entry>, top: Score, e: Entry)
    requires Smallest(kept, pool)
    requires forall y :: y in kept ==> y.score <= top
    requires top <= e.score
    ensures Smallest(kept, pool + multiset{e})
  {
    var rest := pool - kept;
    assert (pool + multiset{e}) - kept == rest + multiset{e};
    forall y, x | y in kept && x in rest + multiset{e}
      ensures y.score <= x.score
    {
      if x != e {
        assert x in rest;
      }
    }
  }

  /** An accepted result takes the place of the largest kept entry, which joins
      the entries left out. */
  lemma AcceptKeepsSmallest(kept: multiset<Entry>, pool: multiset<Entry>, top: Entry, e: Entry)
    requires Smallest(kept, pool)
    requires top in kept
    requires forall y :: y in kept ==> y.score <= top.score
    requires e.score < top.score
    ensures Smallest(kept - multiset{top} + multiset{e}, pool + multiset{e})
  {
    var rest := pool - kept;
    var kept' := kept - multiset{top} + multiset{e};
    assert (pool + multiset{e}) - kept' == rest + multiset{top};
    forall y, x | y in kept' && x in rest + multiset{top}
      ensures y.score <= x.score
    {
      if y != e {
        assert y in kept;
        if x != top {
          assert x in rest;
        }
      } else if x != top {
        assert x in rest;
      }
    }
  }

  /** One accepted or rejected result keeps the retained slots the lowest-scored of the pool. */
  lemma {:induction false} ProcessResultKeepsSmallest(t: seq<Entry>, pool: multiset<Entry>, e: Entry)
    requires SlotZeroMax(t)
    requires Smallest(multiset(t), pool)
    ensures Smallest(multiset(ProcessResult(t, e.input, e.score)), pool + multiset{e})
  {
    SlotZeroBoundsAll(t);
    if e.score >= t[0].score {
      RejectKeepsSmallest(multiset(t), pool, t[0].score, e);
    } else {
      ProcessResultTrades(t, e.input, e.score);
      AcceptKeepsSmallest(multiset(t), pool, t[0], e);
    }
  }

  /** The pool grows by the entry recorded last. */
  lemma {:induction false} PoolAppend(t: seq<Entry>, es: seq<Entry>)
    requires es != []
    ensures multiset(t) + multiset(es) == multiset(t) + multiset(es[..|es| - 1]) + multiset{es[|es| - 1]}
  {
    assert es == es[..|es| - 1] + [es[|es| - 1]];
  }

  /** After any sequence of calls, the retained slots are the lowest-scored among the
      initial slots and every recorded result. */
  lemma {:induction false} FeedKeepsSmallest(t: seq<Entry>, es: seq<Entry>)
    requires SlotZeroMax(t)
    ensures Smallest(multiset(Feed(t, es)), multiset(t) + multiset(es))
    decreases |es|
  {
    if es == [] {
      assert Smallest(multiset(t), multiset(t) + multiset(es)) by {
        var kept := multiset(t);
        assert kept + multiset(es) == kept;
        assert kept - kept == multiset{};
      }
    } else {
      var init, last := es[..|es| - 1], es[|es| - 1];
      PoolAppend(t, es);
      FeedKeepsSmallest(t, init);
      ProcessResultKeepsSmallest(Feed(t, init), multiset(t) + multiset(init), last);
    }
  }

  /** An entry of the combined pool left out of `c` was left out at one of the two
      levels: by the first tracker, by the second, or by the merge. */
  lemma LeftOutSplit(a: multiset<Entry>, p: multiset<Entry>, b: multiset<Entry>, q: multiset<Entry>,
                     c: multiset<Entry>, x: Entry)
    requires a <= p && b <= q && c <= a + b
    requires x in (p + q) - c
    ensures x in (a + b) - c || x in p - a || x in q - b
  {
  }

  /** An entry the first tracker left out scores no lower than anything the merge kept:
      otherwise every entry of `a` would score below a kept entry and so be kept too,
      filling all of `c` with `a`. */
  lemma Absorbed(a: multiset<Entry>, p: multiset<Entry>, b: multiset<Entry>, c: multiset<Entry>,
                 x: Entry, y: Entry)
    requires Smallest(a, p) && Smallest(c, a + b) && |a| == |c|
    requires x in p - a && y in c
    ensures y.score <= x.score
  {
    if x.score < y.score {
      forall z | z in a
        ensures a[z] <= c[z]
      {
        assert z.score <= x.score;
        if a[z] > c[z] {
          assert false;
        }
      }
      SubsetSameSize(a, c);
      assert false;
    }
  }

  /** A sub-multiset as large as the whole is the whole. */
  lemma SubsetSameSize(a: multiset<Entry>, c: multiset<Entry>)
    requires forall z :: z in a ==> a[z] <= c[z]
    requires |a| == |c|
    ensures a == c
  {
    assert a <= c;
    assert |c - a| == 0;
  }

  /** Keeping the lowest-scored entries composes: if `a` and `b` are the lowest of
      their pools and `c`, of the same size, is the lowest of `a` and `b` together,
      then `c` is the lowest of both pools together. */
  lemma SmallestOfSmallest(a: multiset<Entry>, p: multiset<Entry>, b: multiset<Entry>,
                           q: multiset<Entry>, c: multiset<Entry>)
    requires Smallest(a, p) && Smallest(b, q) && Smallest(c, a + b)
    requires |a| == |c| && |b| == |c|
    ensures Smallest(c, p + q)
  {
    forall y, x | y in c && x in (p + q) - c
      ensures y.score <= x.score
    {
      LeftOutSplit(a, p, b, q, c, x);
      if x in p - a {
        Absorbed(a, p, b, c, x, y);
      } else if x in q - b {
        assert b + a == a + b;
        Absorbed(b, q, a, c, x, y);
      }
    }
  }
}
