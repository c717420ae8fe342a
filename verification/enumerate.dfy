/**
 Odometer enumeration of one slice of the grid (`IterateInput`).

 A point has one ordinal per dimension. Dimension 0 runs over the slice
 [lo, hi); every other dimension runs over [0, One), i.e. the floats of [0, 1).
 The last dimension moves fastest. After scoring and recording the current
 point, dimensions are advanced from the last towards dimension 0 until one of
 them stays below its bound; when even dimension 0 runs out the slice is done.
 A dimension that runs out is left at its sum reduced modulo its bound, not
 reset to zero.
 */
module Enumerate {
  import opened Ordinals
  import opened TopK

  /** The exclusive bound of dimension `j`: the slice end for dimension 0, 1.0 for the others. */
  function Bound(j: nat, hi: U32): (b: U32)
    ensures 0 < hi ==> 0 < b
    ensures hi <= One ==> b <= One
  {
    if j == 0 then hi else One
  }

  /** Every coordinate lies below its dimension's bound. */
  ghost predicate InBounds(p: Point, hi: U32)
  {
    forall j :: 0 <= j < |p| ==> p[j] < Bound(j, hi)
  }

  /** A point of the slice [lo, hi) x [0, 1)^(d-1). */
  ghost predicate InSlice(p: Point, lo: U32, hi: U32)
  {
    |p| >= 1 && lo <= p[0] && InBounds(p, hi)
  }

  /** Adding the step to a coordinate below the bound `i` does not wrap around 32 bits. */
  ghost predicate NoWrapBelow(p: Point, i: nat, step: U32)
    requires i <= |p|
  {
    forall j :: 0 <= j < i ==> p[j] + step < Modulus
  }

  /** `a` comes strictly before `b` in lexicographic order (dimension 0 most significant). */
  ghost predicate LexLess(a: Point, b: Point)
  {
    |a| == |b| && exists k :: 0 <= k < |a| && a[..k] == b[..k] && a[k] < b[k]
  }

  /** The first point of a slice: dimension 0 at the slice start, every other dimension at 0. */
  function Start(d: nat, lo: U32): (p: Point)
    requires d >= 1
    ensures |p| == d && p[0] == lo
    ensures forall j :: 1 <= j < d ==> p[j] == 0
  {
    [lo] + seq(d - 1, _ => 0)
  }

  /** The point after one pass of the advance loop, and whether the pass succeeded. */
  datatype Carried = Carried(point: Point, hasMore: bool)

  /** The advance loop over dimensions `i-1` down to 0: each dimension is stepped in
      turn; the first that stays below its bound stops the pass with success, and a
      dimension that runs out keeps its reduced sum. */
  function Odometer(p: Point, i: nat, step: U32, hi: U32): (r: Carried)
    requires i <= |p| && 0 < hi
    ensures |r.point| == |p|
    decreases i
  {
    if i == 0 then Carried(p, false)
    else
      var a := AdvanceFloat(p[i - 1], step, Bound(i - 1, hi));
      var q := p[i - 1 := a.ordinal];
      if a.hasMore then Carried(q, true) else Odometer(q, i - 1, step, hi)
  }

  /** A pass keeps every coordinate below its bound. */
  lemma {:induction false} OdometerInBounds(p: Point, i: nat, step: U32, hi: U32)
    requires i <= |p| && 0 < hi && InBounds(p, hi)
    ensures InBounds(Odometer(p, i, step, hi).point, hi)
    decreases i
  {
    if i > 0 {
      var a := AdvanceFloat(p[i - 1], step, Bound(i - 1, hi));
      var q := p[i - 1 := a.ordinal];
      assert InBounds(q, hi);
      if !a.hasMore {
        OdometerInBounds(q, i - 1, step, hi);
      }
    }
  }

  /** A pass fails exactly when none of the dimensions it tries has room for another step. */
  lemma {:induction false} OdometerExhausted(p: Point, i: nat, step: U32, hi: U32)
    requires i <= |p| && 0 < hi && NoWrapBelow(p, i, step)
    ensures !Odometer(p, i, step, hi).hasMore <==> forall j :: 0 <= j < i ==> p[j] + step >= Bound(j, hi)
    decreases i
  {
    if i > 0 {
      var a := AdvanceFloat(p[i - 1], step, Bound(i - 1, hi));
      var q := p[i - 1 := a.ordinal];
      assert forall j :: 0 <= j < i - 1 ==> q[j] == p[j];
      OdometerExhausted(q, i - 1, step, hi);
    }
  }

  /** A successful pass moves strictly forward in lexicographic order, at a
      dimension below `i`. */
  lemma {:induction false} OdometerAdvances(p: Point, i: nat, step: U32, hi: U32)
    requires i <= |p| && 0 < hi && 0 < step
    requires NoWrapBelow(p, i, step)
    ensures var r := Odometer(p, i, step, hi);
            r.hasMore ==> exists k :: 0 <= k < i && r.point[..k] == p[..k] && p[k] < r.point[k]
    decreases i
  {
    if i > 0 {
      var a := AdvanceFloat(p[i - 1], step, Bound(i - 1, hi));
      var q := p[i - 1 := a.ordinal];
      if a.hasMore {
        assert q[..i - 1] == p[..i - 1];
        assert p[i - 1] < q[i - 1];
      } else {
        OdometerAdvances(q, i - 1, step, hi);
        var r := Odometer(q, i - 1, step, hi);
        if r.hasMore {
          var k :| 0 <= k < i - 1 && r.point[..k] == q[..k] && q[k] < r.point[k];
          assert q[..k] == p[..k];
          assert p[k] < r.point[k];
        }
      }
    }
  }

  /** Moving forward never moves dimension 0 backwards. */
  lemma LexLessHead(a: Point, b: Point)
    requires LexLess(a, b)
    ensures a[0] <= b[0]
  {
    var k :| 0 <= k < |a| && a[..k] == b[..k] && a[k] < b[k];
    if k > 0 {
      assert a[..k][0] == a[0] && b[..k][0] == b[0];
    }
  }

  /** `b` to the power `e`. */
  ghost function Pow(b: nat, e: nat): nat
  {
    if e == 0 then 1 else b * Pow(b, e - 1)
  }

  /** The mixed-radix value of a point, dimension 0 most significant, each digit in base One. */
  ghost function Rank(p: Point): nat
    decreases |p|
  {
    if p == [] then 0 else Rank(p[..|p| - 1]) * One + p[|p| - 1]
  }

  /** A point whose digits are all below One ranks below One^|p|. */
  lemma {:induction false} RankBound(p: Point)
    requires forall j :: 0 <= j < |p| ==> p[j] < One
    ensures Rank(p) < Pow(One, |p|)
    decreases |p|
  {
    if p != [] {
      var front := p[..|p| - 1];
      RankBound(front);
      MulGrows(Rank(front) + 1, Pow(One, |front|), One);
    }
  }

  /** Lexicographic order on points with digits below One is order on ranks. */
  lemma {:induction false} RankMonotone(a: Point, b: Point)
    requires LexLess(a, b)
    requires forall j :: 0 <= j < |a| ==> a[j] < One
    ensures Rank(a) < Rank(b)
    decreases |a|
  {
    var k :| 0 <= k < |a| && a[..k] == b[..k] && a[k] < b[k];
    var n := |a|;
    var fa, fb := a[..n - 1], b[..n - 1];
    if k == n - 1 {
      assert fa == fb;
    } else {
      assert fa[..k] == a[..k] && fb[..k] == b[..k];
      assert fa[k] == a[k] && fb[k] == b[k];
      assert LexLess(fa, fb);
      RankMonotone(fa, fb);
      MulGrows(Rank(fa) + 1, Rank(fb), One);
    }
  }

  /** Points of equal length with digits below One and equal rank are equal. */
  lemma {:induction false} RankInjective(a: Point, b: Point)
    requires |a| == |b| && Rank(a) == Rank(b)
    requires forall j :: 0 <= j < |a| ==> a[j] < One
    requires forall j :: 0 <= j < |b| ==> b[j] < One
    ensures a == b
    decreases |a|
  {
    if a != [] {
      var n := |a|;
      var fa, fb := a[..n - 1], b[..n - 1];
      RankInjective(fa, fb);
      assert a == fa + [a[n - 1]] && b == fb + [b[n - 1]];
    }
  }

  /** The converse of `RankMonotone`: order on ranks is lexicographic order. */
  lemma {:induction false} RankOrderIsLex(a: Point, b: Point)
    requires 1 <= |a| == |b| && Rank(a) < Rank(b)
    requires forall j :: 0 <= j < |a| ==> a[j] < One
    requires forall j :: 0 <= j < |b| ==> b[j] < One
    ensures LexLess(a, b)
    decreases |a|
  {
    var n := |a|;
    var fa, fb := a[..n - 1], b[..n - 1];
    if Rank(fb) < Rank(fa) {
      assert false;
    } else if Rank(fa) == Rank(fb) {
      RankInjective(fa, fb);
      assert a[..n - 1] == b[..n - 1] && a[n - 1] < b[n - 1];
    } else {
      assert n > 1;
      RankOrderIsLex(fa, fb);
      var k :| 0 <= k < n - 1 && fa[..k] == fb[..k] && fa[k] < fb[k];
      assert fa[..k] == a[..k] && fb[..k] == b[..k];
      assert a[..k] == b[..k] && a[k] < b[k];
    }
  }

  /** The inputs of a list of results. */
  function Inputs(es: seq<Entry>): (ps: seq<Point>)
    ensures |ps| == |es|
    ensures forall j :: 0 <= j < |es| ==> ps[j] == es[j].input
  {
    seq(|es|, j requires 0 <= j < |es| => es[j].input)
  }

  /** Each point of `ps` has `d` dimensions and is the successful advance of the one
      before it; stated link by link from the end. */
  ghost predicate Chained(ps: seq<Point>, d: nat, step: U32, hi: U32)
    requires 0 < hi
    decreases |ps|
  {
    |ps| == 0
    || (|ps[|ps| - 1]| == d
        && (|ps| >= 2 ==> Chained(ps[..|ps| - 1], d, step, hi)
                          && Odometer(ps[|ps| - 2], d, step, hi) == Carried(ps[|ps| - 1], true)))
  }

  /** `ps` is the complete walk of the slice: it starts at `Start`, each point is the
      successful advance of the one before, and the pass after the last point fails. */
  ghost predicate Walk(ps: seq<Point>, d: nat, lo: U32, hi: U32, step: U32)
    requires d >= 1 && 0 < hi
  {
    |ps| >= 1 && ps[0] == Start(d, lo) && Chained(ps, d, step, hi)
    && !Odometer(ps[|ps| - 1], d, step, hi).hasMore
  }

  /** Every point of a chain has `d` dimensions. */
  lemma {:induction false} ChainedLengths(ps: seq<Point>, d: nat, step: U32, hi: U32)
    requires 0 < hi && Chained(ps, d, step, hi)
    ensures forall j :: 0 <= j < |ps| ==> |ps[j]| == d
    decreases |ps|
  {
    if |ps| >= 2 {
      var front := ps[..|ps| - 1];
      ChainedLengths(front, d, step, hi);
      assert forall j :: 0 <= j < |front| ==> front[j] == ps[j];
    }
  }

  /** Link `j` of a chain: the point after `ps[j]` is `ps[j + 1]`. */
  lemma {:induction false} ChainedLink(ps: seq<Point>, d: nat, step: U32, hi: U32, j: nat)
    requires 0 < hi && Chained(ps, d, step, hi) && j + 1 < |ps|
    ensures d <= |ps[j]| && Odometer(ps[j], d, step, hi) == Carried(ps[j + 1], true)
    decreases |ps|
  {
    var front := ps[..|ps| - 1];
    if j + 2 < |ps| {
      ChainedLink(front, d, step, hi, j);
      assert front[j] == ps[j] && front[j + 1] == ps[j + 1];
    }
  }

  /** A successful pass moves forward in lexicographic order, stays in the slice
      and strictly increases the rank, which stays below One^d: the measure by
      which the enumeration terminates. */
  lemma StepForward(p: Point, q: Point, d: nat, lo: U32, hi: U32, step: U32)
    requires 1 <= d == |p| && lo < hi <= One && 0 < step <= Modulus - One
    requires InSlice(p, lo, hi)
    requires Odometer(p, d, step, hi) == Carried(q, true)
    ensures LexLess(p, q) && InSlice(q, lo, hi) && Rank(p) < Rank(q) < Pow(One, d)
  {
    OdometerInBounds(p, d, step, hi);
    OdometerAdvances(p, d, step, hi);
    assert LexLess(p, q);
    LexLessHead(p, q);
    RankMonotone(p, q);
    RankBound(q);
  }

  /** Every result's score is the scoring function applied to its input. */
  ghost predicate ScoredBy(rs: seq<Entry>, score: Point -> Score)
  {
    forall j :: 0 <= j < |rs| ==> rs[j].score == score(rs[j].input)
  }

  /** Recording a freshly scored result keeps every result scored. */
  lemma ScoredByAppend(rs: seq<Entry>, score: Point -> Score, p: Point)
    requires ScoredBy(rs, score)
    ensures ScoredBy(rs + [Entry(p, score(p))], score)
  {
  }

  /** The inputs of the results recorded so far, followed by the current point. */
  lemma InputsAppend(rs: seq<Entry>, e: Entry)
    ensures Inputs(rs + [e]) == Inputs(rs) + [e.input]
  {
  }

  /** A chain extends by the successful advance of its last point. */
  lemma ChainedAppend(ps: seq<Point>, d: nat, step: U32, hi: U32, q: Point)
    requires 0 < hi && |ps| >= 1 && Chained(ps, d, step, hi) && |q| == d
    requires d <= |ps[|ps| - 1]| && Odometer(ps[|ps| - 1], d, step, hi) == Carried(q, true)
    ensures Chained(ps + [q], d, step, hi)
  {
    assert (ps + [q])[..|ps|] == ps;
  }

  /** Scores and records every point of the slice [lo, hi) x [0, 1)^(d-1) in
      odometer order, starting from tracker `t0`: each point is scored once and the
      result recorded before the next point is formed. Returns the results in the
      order they were recorded and the final tracker. */
  method IterateInput(d: nat, lo: U32, hi: U32, step: U32, score: Point -> Score, t0: seq<Entry>)
    returns (recorded: seq<Entry>, t: seq<Entry>)
    requires 1 <= d && lo < hi <= One
    requires 0 < step <= Modulus - One
    requires |t0| >= 1
    ensures Walk(Inputs(recorded), d, lo, hi, step)
    ensures ScoredBy(recorded, score)
    ensures t == Feed(t0, recorded)
  {
    var p := Start(d, lo);
    recorded, t := [], t0;
    RankBound(p);
    while true
      invariant |p| == d && InSlice(p, lo, hi)
      invariant Rank(p) < Pow(One, d)
      invariant t == Feed(t0, recorded)
      invariant (Inputs(recorded) + [p])[0] == Start(d, lo)
      invariant Chained(Inputs(recorded) + [p], d, step, hi)
      invariant ScoredBy(recorded, score)
      decreases Pow(One, d) - Rank(p)
    {
      var e := Entry(p, score(p));
      ScoredByAppend(recorded, score, p);
      InputsAppend(recorded, e);
      assert (recorded + [e])[..|recorded|] == recorded;
      recorded, t := recorded + [e], ProcessResult(t, e.input, e.score);
      var c := Odometer(p, d, step, hi);
      if !c.hasMore {
        break;
      }
      ChainedAppend(Inputs(recorded), d, step, hi, c.point);
      StepForward(p, c.point, d, lo, hi, step);
      p := c.point;
    }
  }

  /** Every point of a walk lies in the slice. */
  lemma {:induction false} WalkInSlice(ps: seq<Point>, d: nat, lo: U32, hi: U32, step: U32, j: nat)
    requires 1 <= d && lo < hi <= One && 0 < step <= Modulus - One
    requires Walk(ps, d, lo, hi, step) && j < |ps|
    ensures InSlice(ps[j], lo, hi)
    decreases j
  {
    ChainedLengths(ps, d, step, hi);
    if j > 0 {
      WalkInSlice(ps, d, lo, hi, step, j - 1);
      ChainedLink(ps, d, step, hi, j - 1);
      StepForward(ps[j - 1], ps[j], d, lo, hi, step);
    }
  }

  /** Each link of a walk increases the rank. */
  lemma WalkStepRank(ps: seq<Point>, d: nat, lo: U32, hi: U32, step: U32, j: nat)
    requires 1 <= d && lo < hi <= One && 0 < step <= Modulus - One
    requires Walk(ps, d, lo, hi, step) && j + 1 < |ps|
    ensures Rank(ps[j]) < Rank(ps[j + 1])
  {
    ChainedLengths(ps, d, step, hi);
    ChainedLink(ps, d, step, hi, j);
    WalkInSlice(ps, d, lo, hi, step, j);
    StepForward(ps[j], ps[j + 1], d, lo, hi, step);
  }

  /** Ranks strictly increase along a walk. */
  lemma {:induction false} WalkRankIncreasing(ps: seq<Point>, d: nat, lo: U32, hi: U32, step: U32, i: nat, j: nat)
    requires 1 <= d && lo < hi <= One && 0 < step <= Modulus - One
    requires Walk(ps, d, lo, hi, step) && i < j < |ps|
    ensures Rank(ps[i]) < Rank(ps[j])
    decreases j
  {
    WalkStepRank(ps, d, lo, hi, step, j - 1);
    if i < j - 1 {
      WalkRankIncreasing(ps, d, lo, hi, step, i, j - 1);
    }
  }

  /** A walk is strictly increasing in lexicographic order, so no point is visited twice. */
  lemma WalkIncreasing(ps: seq<Point>, d: nat, lo: U32, hi: U32, step: U32, i: nat, j: nat)
    requires 1 <= d && lo < hi <= One && 0 < step <= Modulus - One
    requires Walk(ps, d, lo, hi, step) && i < j < |ps|
    ensures LexLess(ps[i], ps[j])
  {
    ChainedLengths(ps, d, step, hi);
    WalkInSlice(ps, d, lo, hi, step, i);
    WalkInSlice(ps, d, lo, hi, step, j);
    WalkRankIncreasing(ps, d, lo, hi, step, i, j);
    RankOrderIsLex(ps[i], ps[j]);
  }

  /** The walk ends at a point where no dimension can take another step. */
  lemma WalkEndsExhausted(ps: seq<Point>, d: nat, lo: U32, hi: U32, step: U32)
    requires 1 <= d && lo < hi <= One && 0 < step <= Modulus - One
    requires Walk(ps, d, lo, hi, step)
    ensures forall j :: 0 <= j < d ==> ps[|ps| - 1][j] + step >= Bound(j, hi)
  {
    ChainedLengths(ps, d, step, hi);
    WalkInSlice(ps, d, lo, hi, step, |ps| - 1);
    OdometerExhausted(ps[|ps| - 1], d, step, hi);
  }

  /** In one dimension the walk visits lo, lo + step, lo + 2*step, ... */
  lemma {:induction false} WalkOneDimensionalPoints(ps: seq<Point>, lo: U32, hi: U32, step: U32, j: nat)
    requires lo < hi <= One && 0 < step <= Modulus - One
    requires Walk(ps, 1, lo, hi, step)
    requires j < |ps|
    ensures ps[j] == [lo + j * step] && lo + j * step < hi
    decreases j
  {
    if j > 0 {
      WalkOneDimensionalPoints(ps, lo, hi, step, j - 1);
      ChainedLink(ps, 1, step, hi, j - 1);
      var x := lo + (j - 1) * step;
      assert Odometer([x], 1, step, hi) == Carried(ps[j], true);
      OneMoreStep(lo, step, j);
    }
  }

  /** In one dimension the walk stops at the last multiple of the step below the
      slice end: it visits exactly ceil((hi - lo) / step) points. */
  lemma WalkOneDimensionalCount(ps: seq<Point>, lo: U32, hi: U32, step: U32)
    requires lo < hi <= One && 0 < step <= Modulus - One
    requires Walk(ps, 1, lo, hi, step)
    ensures lo + (|ps| - 1) * step < hi <= lo + |ps| * step
    ensures |ps| == (hi - lo + step - 1) / step
  {
    var n := |ps|;
    WalkOneDimensionalPoints(ps, lo, hi, step, n - 1);
    var x := lo + (n - 1) * step;
    assert !Odometer([x], 1, step, hi).hasMore;
    OneMoreStep(lo, step, n);
    CeilingDivision(hi - lo, step, n);
  }

  /** One more step from the (j-1)-th multiple of `step` reaches the j-th. */
  lemma OneMoreStep(lo: nat, step: nat, j: nat)
    requires 1 <= j
    ensures lo + (j - 1) * step + step == lo + j * step
  {
  }

  /** `n` is the ceiling of `x / s` when (n-1)*s < x <= n*s. */
  lemma CeilingDivision(x: nat, s: nat, n: nat)
    requires 0 < s && n >= 1 && (n - 1) * s < x <= n * s
    ensures (x + s - 1) / s == n
  {
    var y := x + s - 1;
    assert n * s <= y < (n + 1) * s;
    var q, r := y / s, y % s;
    assert y == q * s + r && 0 <= r < s;
    if q < n {
      MulGrows(q + 1, n, s);
    } else if q > n {
      MulGrows(n + 1, q, s);
    }
  }

  /** When dimension 0 advances after an inner dimension runs out, the inner
      dimension restarts at its overshoot `(u + step) mod One`, which is zero only
      if the step lands exactly on One. */
  lemma InnerRestartsAtOffset(p: Point, step: U32, hi: U32)
    requires |p| == 2 && 0 < hi <= One && 0 < step <= Modulus - One
    requires p[1] < One && One <= p[1] + step
    requires p[0] + step < hi
    ensures Odometer(p, 2, step, hi) == Carried([p[0] + step, (p[1] + step) % One], true)
  {
    assert p[1 := (p[1] + step) % One][0 := p[0] + step] == [p[0] + step, (p[1] + step) % One];
  }

  /** With two dimensions and a step of 2, the inner dimension that ran out at
      One - 1 restarts at 1, so 0 is never revisited. */
  lemma InnerRestartExample()
    ensures Odometer([0, One - 1], 2, 2, One) == Carried([2, 1], true)
  {
    InnerRestartsAtOffset([0, One - 1], 2, One);
  }
}
