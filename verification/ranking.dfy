/**
 Ordering of the final results and the rows written out.

 The merged results are sorted by ascending score, and rows whose score is
 still the sentinel are skipped when writing.
 */
module Ranking {
  import opened TopK

  /** Scores never decrease along `s`. */
  ghost predicate Sorted(s: seq<Entry>)
  {
    forall i, j :: 0 <= i < j < |s| ==> s[i].score <= s[j].score
  }

  /** Inserts `e` into the sorted `s` before the first entry scoring at least as much. */
  function Insert(s: seq<Entry>, e: Entry): (r: seq<Entry>)
    requires Sorted(s)
    ensures |r| == |s| + 1
    ensures Sorted(r)
    ensures r[0] == e || (s != [] && r[0] == s[0])
    decreases |s|
  {
    if s == [] then [e]
    else if e.score <= s[0].score then [e] + s
    else [s[0]] + Insert(s[1..], e)
  }

  /** Insertion adds exactly `e`. */
  lemma {:induction false} InsertAdds(s: seq<Entry>, e: Entry)
    requires Sorted(s)
    ensures multiset(Insert(s, e)) == multiset(s) + multiset{e}
    decreases |s|
  {
    if s != [] && e.score > s[0].score {
      InsertAdds(s[1..], e);
      assert s == [s[0]] + s[1..];
    }
  }

  /** Sorts by ascending score: an insertion sort standing for the library sort. */
  function SortByScore(s: seq<Entry>): (r: seq<Entry>)
    ensures |r| == |s|
    ensures Sorted(r)
    decreases |s|
  {
    if s == [] then []
    else Insert(SortByScore(s[..|s| - 1]), s[|s| - 1])
  }

  /** The sort permutes its input. */
  lemma {:induction false} SortPermutes(s: seq<Entry>)
    ensures multiset(SortByScore(s)) == multiset(s)
    decreases |s|
  {
    if s != [] {
      var init := s[..|s| - 1];
      SortPermutes(init);
      InsertAdds(SortByScore(init), s[|s| - 1]);
      assert s == init + [s[|s| - 1]];
    }
  }

  /** The entries that carry a real score, in order; sentinel-scored ones are dropped. */
  function Scored(es: seq<Entry>): (r: seq<Entry>)
    ensures |r| <= |es|
    ensures forall i :: 0 <= i < |r| ==> r[i].score < Unset
    decreases |es|
  {
    if es == [] then []
    else
      var last := es[|es| - 1];
      Scored(es[..|es| - 1]) + if last.score < Unset then [last] else []
  }

  /** An entry is kept by `Scored` exactly when it carries a real score. */
  lemma {:induction false} ScoredMembers(es: seq<Entry>, e: Entry)
    ensures e in Scored(es) <==> e in es && e.score < Unset
    decreases |es|
  {
    if es != [] {
      var init, last := es[..|es| - 1], es[|es| - 1];
      ScoredMembers(init, e);
      assert es == init + [last];
    }
  }

  /** A sequence with no sentinel score passes the output filter unchanged. */
  lemma {:induction false} ScoredAllReal(es: seq<Entry>)
    requires forall i :: 0 <= i < |es| ==> es[i].score < Unset
    ensures Scored(es) == es
    decreases |es|
  {
    if es != [] {
      var init := es[..|es| - 1];
      ScoredAllReal(init);
      assert es == init + [es[|es| - 1]];
    }
  }

  /** In a sorted sequence the sentinel scores, being the largest, come last, so the
      output filter keeps a prefix and drops only sentinel-scored entries after it. */
  lemma {:induction false} ScoredSortedPrefix(es: seq<Entry>)
    requires Sorted(es)
    ensures Scored(es) == es[..|Scored(es)|]
    ensures forall i :: |Scored(es)| <= i < |es| ==> es[i].score == Unset
    decreases |es|
  {
    if es != [] {
      var init, last := es[..|es| - 1], es[|es| - 1];
      if last.score < Unset {
        ScoredAllReal(init);
        assert init + [last] == es;
      } else {
        ScoredSortedPrefix(init);
        assert Scored(es) == Scored(init);
        assert es[..|Scored(init)|] == init[..|Scored(init)|];
      }
    }
    ScoredDropsSentinels(es);
  }

  /** The entries the output filter drops from a sorted sequence all score the sentinel. */
  lemma {:induction false} ScoredDropsSentinels(es: seq<Entry>)
    requires Sorted(es)
    ensures forall i :: |Scored(es)| <= i < |es| ==> es[i].score == Unset
    decreases |es|
  {
    if es != [] && es[|es| - 1].score == Unset {
      var init := es[..|es| - 1];
      ScoredDropsSentinels(init);
      assert forall i :: 0 <= i < |init| ==> es[i] == init[i];
    } else if es != [] {
      ScoredAllReal(es);
    }
  }
}
