/**
 * The bipartite matcher of one image (matchBBox): a sparse overlap table,
 * a greedy phase that repeatedly assigns the globally best (unmatched prior,
 * pooled ground truth) pair and takes that ground truth out of the pool, and
 * a fill phase that gives every prior still unmatched its best ground truth
 * when that overlap reaches the threshold.
 *
 * Each phase is a method proved equal to a specification function; the
 * properties of the matcher are lemmas about those functions.
 */
module Matcher {
  import opened Geometry

  /** Overlaps at or below this value are not recorded (1e-6 in the source). */
  const OverlapEpsilon: real := 0.000001

  /** Sparse overlap table: prior index to (ground-truth index to overlap). */
  type OverlapTable = map<nat, map<nat, real>>

  // ---------------------------------------------------------------------------
  // The overlap table
  // ---------------------------------------------------------------------------

  /** The recorded overlaps of one prior against the first m ground truths. */
  function Row(prior: NormalizedBBox, gts: seq<NormalizedBBox>, m: nat): map<nat, real>
    requires m <= |gts|
  {
    map j: nat | j < m && JaccardOverlap(prior, gts[j]) > OverlapEpsilon :: JaccardOverlap(prior, gts[j])
  }

  /** The table matchBBox builds: a row for each prior with at least one recorded overlap. */
  function Overlaps(priors: seq<NormalizedBBox>, gts: seq<NormalizedBBox>): (r: OverlapTable)
    ensures forall i :: i in r ==> i < |priors| && r[i] != map[]
    ensures forall i: nat :: i < |priors| && Row(priors[i], gts, |gts|) != map[] ==> i in r
  {
    map i: nat | i < |priors| && Row(priors[i], gts, |gts|) != map[] :: Row(priors[i], gts, |gts|)
  }

  /** The running maximum matchBBox keeps per prior while it fills the table. */
  function MaxOverlap(prior: NormalizedBBox, gts: seq<NormalizedBBox>, m: nat): (r: real)
    requires m <= |gts|
    ensures r >= 0.0
    ensures forall j :: 0 <= j < m && JaccardOverlap(prior, gts[j]) > OverlapEpsilon ==> JaccardOverlap(prior, gts[j]) <= r
    ensures r == 0.0 <==> forall j :: 0 <= j < m ==> JaccardOverlap(prior, gts[j]) <= OverlapEpsilon
    ensures r != 0.0 ==> exists j :: 0 <= j < m && JaccardOverlap(prior, gts[j]) > OverlapEpsilon && JaccardOverlap(prior, gts[j]) == r
  {
    if m == 0 then 0.0
    else
      var overlap := JaccardOverlap(prior, gts[m - 1]);
      if overlap > OverlapEpsilon then Max(MaxOverlap(prior, gts, m - 1), overlap)
      else MaxOverlap(prior, gts, m - 1)
  }

  /** matchOverlaps once the table is built: each prior's maximum recorded overlap, 0 if none. */
  function InitialOverlaps(priors: seq<NormalizedBBox>, gts: seq<NormalizedBBox>): (r: seq<real>)
    ensures |r| == |priors| && forall i :: 0 <= i < |r| ==> r[i] >= 0.0
  {
    seq(|priors|, i requires 0 <= i < |priors| => MaxOverlap(priors[i], gts, |gts|))
  }

  /** Keys are prior indices, row keys ground-truth indices, values above the epsilon. */
  ghost predicate ValidTable(t: OverlapTable, numPriors: nat, numGTs: nat)
  {
    forall i :: i in t ==> i < numPriors && forall j :: j in t[i] ==> j < numGTs && t[i][j] > OverlapEpsilon
  }

  lemma OverlapsValid(priors: seq<NormalizedBBox>, gts: seq<NormalizedBBox>)
    ensures ValidTable(Overlaps(priors, gts), |priors|, |gts|)
  {
  }

  lemma RowStep(prior: NormalizedBBox, gts: seq<NormalizedBBox>, j: nat)
    requires j < |gts|
    ensures JaccardOverlap(prior, gts[j]) > OverlapEpsilon ==>
              Row(prior, gts, j + 1) == Row(prior, gts, j)[j := JaccardOverlap(prior, gts[j])]
    ensures JaccardOverlap(prior, gts[j]) <= OverlapEpsilon ==> Row(prior, gts, j + 1) == Row(prior, gts, j)
  {
  }

  /** The table as far as the first n priors. */
  function TableUpTo(priors: seq<NormalizedBBox>, gts: seq<NormalizedBBox>, n: nat): OverlapTable
    requires n <= |priors|
  {
    map i: nat | i < n && Row(priors[i], gts, |gts|) != map[] :: Row(priors[i], gts, |gts|)
  }

  lemma TableUpToStep(priors: seq<NormalizedBBox>, gts: seq<NormalizedBBox>, n: nat)
    requires n < |priors|
    ensures Row(priors[n], gts, |gts|) != map[] ==>
              TableUpTo(priors, gts, n + 1) == TableUpTo(priors, gts, n)[n := Row(priors[n], gts, |gts|)]
    ensures Row(priors[n], gts, |gts|) == map[] ==> TableUpTo(priors, gts, n + 1) == TableUpTo(priors, gts, n)
  {
  }

  /** The inner loop of matchBBox's table fill: one prior's recorded overlaps and their maximum. */
  method RowOverlaps(prior: NormalizedBBox, gts: seq<NormalizedBBox>) returns (row: map<nat, real>, maxOverlap: real)
    ensures row == Row(prior, gts, |gts|)
    ensures maxOverlap == MaxOverlap(prior, gts, |gts|)
  {
    row, maxOverlap := map[], 0.0;
    for j := 0 to |gts|
      invariant row == Row(prior, gts, j)
      invariant maxOverlap == MaxOverlap(prior, gts, j)
    {
      RowStep(prior, gts, j);
      var overlap := JaccardOverlap(prior, gts[j]);
      if overlap > OverlapEpsilon {
        maxOverlap := Max(maxOverlap, overlap);
        row := row[j := overlap];
      }
    }
  }

  /**
   * The nested loops of matchBBox that fill the table and the running maxima;
   * a prior gets a table row only once it has an entry, as inserting entry by
   * entry leaves it.
   */
  method BuildOverlapTable(priors: seq<NormalizedBBox>, gts: seq<NormalizedBBox>)
    returns (overlaps: OverlapTable, matchOverlaps: seq<real>)
    ensures overlaps == Overlaps(priors, gts)
    ensures matchOverlaps == InitialOverlaps(priors, gts)
  {
    overlaps := map[];
    matchOverlaps := seq(|priors|, _ => 0.0);
    for i := 0 to |priors|
      invariant |matchOverlaps| == |priors|
      invariant forall k :: 0 <= k < i ==> matchOverlaps[k] == MaxOverlap(priors[k], gts, |gts|)
      invariant overlaps == TableUpTo(priors, gts, i)
    {
      var row, maxOverlap := RowOverlaps(priors[i], gts);
      TableUpToStep(priors, gts, i);
      matchOverlaps := matchOverlaps[i := maxOverlap];
      if row != map[] {
        overlaps := overlaps[i := row];
      }
      assert overlaps == TableUpTo(priors, gts, i + 1);
    }
    assert TableUpTo(priors, gts, |priors|) == Overlaps(priors, gts);
    assert matchOverlaps == InitialOverlaps(priors, gts);
  }

  // ---------------------------------------------------------------------------
  // The greedy phase
  // ---------------------------------------------------------------------------

  /** The pool matchBBox starts from: ground truths 0 .. n-1 in ascending order. */
  function Iota(n: nat): (r: seq<nat>)
    ensures |r| == n && forall p :: 0 <= p < n ==> r[p] == p
  {
    if n == 0 then [] else Iota(n - 1) + [n - 1]
  }

  predicate Increasing(s: seq<nat>)
  {
    forall a, b :: 0 <= a < b < |s| ==> s[a] < s[b]
  }

  /** Remove the first occurrence of j from the pool, if there is one. */
  function EraseFirst(pool: seq<nat>, j: nat): (r: seq<nat>)
    ensures |r| == if j in pool then |pool| - 1 else |pool|
    ensures forall x :: x in r ==> x in pool
  {
    if |pool| == 0 then []
    else if pool[0] == j then pool[1..]
    else [pool[0]] + EraseFirst(pool[1..], j)
  }

  /** On an ascending pool, erasing j removes exactly j and keeps the order. */
  lemma {:induction false} EraseFirstIncreasing(pool: seq<nat>, j: nat)
    requires Increasing(pool)
    ensures Increasing(EraseFirst(pool, j)) && j !in EraseFirst(pool, j)
  {
    if |pool| == 0 {
    } else if pool[0] == j {
      forall b | 0 <= b < |pool| - 1 ensures pool[1..][b] != j {
        assert pool[0] < pool[b + 1];
      }
    } else {
      EraseFirstIncreasing(pool[1..], j);
      var rest := EraseFirst(pool[1..], j);
      forall b | 0 <= b < |rest| ensures pool[0] < rest[b] {
        assert rest[b] in pool[1..];
        var c :| 0 <= c < |pool| - 1 && pool[1..][c] == rest[b];
        assert pool[c + 1] == rest[b];
      }
    }
  }

  /** Prior i is unmatched, has a table row, and that row has an entry for pool position p. */
  ghost predicate Candidate(t: OverlapTable, mi: seq<int>, pool: seq<nat>, i: nat, p: nat)
  {
    i in t && i < |mi| && mi[i] == -1 && p < |pool| && pool[p] in t[i]
  }

  /** The scan order: ascending prior index, then ascending pool position. */
  predicate LexBefore(i1: nat, p1: nat, i2: nat, p2: nat)
  {
    i1 < i2 || (i1 == i2 && p1 < p2)
  }

  /**
   * (bi, bp) is what a scan with a strict `>` holds after visiting every pair
   * before (i, p): a pair of maximal overlap, the first such in scan order.
   */
  ghost predicate BestBefore(t: OverlapTable, mi: seq<int>, pool: seq<nat>, i: nat, p: nat, bi: nat, bp: nat)
  {
    && Candidate(t, mi, pool, bi, bp)
    && LexBefore(bi, bp, i, p)
    && forall i': nat, p': nat :: Candidate(t, mi, pool, i', p') && LexBefore(i', p', i, p) ==>
         t[i'][pool[p']] <= t[bi][pool[bp]] && (LexBefore(i', p', bi, bp) ==> t[i'][pool[p']] < t[bi][pool[bp]])
  }

  ghost predicate NoCandidateBefore(t: OverlapTable, mi: seq<int>, pool: seq<nat>, i: nat, p: nat)
  {
    forall i': nat, p': nat :: Candidate(t, mi, pool, i', p') ==> !LexBefore(i', p', i, p)
  }

  /** The pair one greedy iteration assigns. */
  ghost predicate IsBest(t: OverlapTable, mi: seq<int>, pool: seq<nat>, bi: nat, bp: nat)
  {
    BestBefore(t, mi, pool, |mi|, 0, bi, bp)
  }

  lemma BestUnique(t: OverlapTable, mi: seq<int>, pool: seq<nat>)
    ensures forall i1: nat, p1: nat, i2: nat, p2: nat ::
              IsBest(t, mi, pool, i1, p1) && IsBest(t, mi, pool, i2, p2) ==> i1 == i2 && p1 == p2
  {
    forall i1: nat, p1: nat, i2: nat, p2: nat | IsBest(t, mi, pool, i1, p1) && IsBest(t, mi, pool, i2, p2)
      ensures i1 == i2 && p1 == p2
    {
      assert Candidate(t, mi, pool, i2, p2) && LexBefore(i2, p2, |mi|, 0);
      assert Candidate(t, mi, pool, i1, p1) && LexBefore(i1, p1, |mi|, 0);
    }
  }

  /** Whenever some pair comes before (i, p), a best one among them exists. */
  lemma {:induction false} BestExists(t: OverlapTable, mi: seq<int>, pool: seq<nat>, i: nat, p: nat)
    requires !NoCandidateBefore(t, mi, pool, i, p)
    ensures exists bi: nat, bp: nat :: BestBefore(t, mi, pool, i, p, bi, bp)
    decreases i, p
  {
    if p == 0 {
      if i == 0 {
        assert false;
      } else {
        assert forall i': nat, p': nat :: Candidate(t, mi, pool, i', p') ==> (LexBefore(i', p', i, 0) <==> LexBefore(i', p', i - 1, |pool|));
        BestExists(t, mi, pool, i - 1, |pool|);
        var bi: nat, bp: nat :| BestBefore(t, mi, pool, i - 1, |pool|, bi, bp);
        assert BestBefore(t, mi, pool, i, p, bi, bp);
      }
    } else if NoCandidateBefore(t, mi, pool, i, p - 1) {
      assert Candidate(t, mi, pool, i, p - 1);
      assert BestBefore(t, mi, pool, i, p, i, p - 1);
    } else {
      BestExists(t, mi, pool, i, p - 1);
      var bi: nat, bp: nat :| BestBefore(t, mi, pool, i, p - 1, bi, bp);
      if Candidate(t, mi, pool, i, p - 1) && t[i][pool[p - 1]] > t[bi][pool[bp]] {
        assert BestBefore(t, mi, pool, i, p, i, p - 1);
      } else {
        assert BestBefore(t, mi, pool, i, p, bi, bp);
      }
    }
  }

  /** Whenever there is a candidate pair, there is a best one. */
  lemma BestExistsAll(t: OverlapTable, mi: seq<int>, pool: seq<nat>)
    ensures (exists i: nat, p: nat :: Candidate(t, mi, pool, i, p)) ==> exists bi: nat, bp: nat :: IsBest(t, mi, pool, bi, bp)
  {
    if exists i: nat, p: nat :: Candidate(t, mi, pool, i, p) {
      var i: nat, p: nat :| Candidate(t, mi, pool, i, p);
      assert LexBefore(i, p, |mi|, 0);
      BestExists(t, mi, pool, |mi|, 0);
      var bi: nat, bp: nat :| BestBefore(t, mi, pool, |mi|, 0, bi, bp);
      assert IsBest(t, mi, pool, bi, bp);
    }
  }

  /**
   * The greedy phase: while the pool is not empty and some candidate pair
   * remains, assign the best pair and erase its ground truth from the pool.
   */
  ghost function Greedy(t: OverlapTable, mi: seq<int>, mo: seq<real>, pool: seq<nat>): (r: (seq<int>, seq<real>))
    requires |mo| == |mi|
    ensures |r.0| == |mi| && |r.1| == |mi|
    decreases |pool|
  {
    if |pool| == 0 || !(exists i: nat, p: nat :: IsBest(t, mi, pool, i, p)) then (mi, mo)
    else
      var i: nat, p: nat :| IsBest(t, mi, pool, i, p);
      Greedy(t, mi[i := pool[p]], mo[i := t[i][pool[p]]], EraseFirst(pool, pool[p]))
  }

  /** One greedy iteration, for the pair the scan found. */
  lemma GreedyStep(t: OverlapTable, mi: seq<int>, mo: seq<real>, pool: seq<nat>, i: nat, p: nat)
    requires |mo| == |mi| && IsBest(t, mi, pool, i, p)
    ensures Greedy(t, mi, mo, pool) == Greedy(t, mi[i := pool[p]], mo[i := t[i][pool[p]]], EraseFirst(pool, pool[p]))
  {
    BestUnique(t, mi, pool);
  }

  /** The state the scan of one greedy iteration holds before visiting (i, p). */
  ghost predicate ScanState(t: OverlapTable, mi: seq<int>, pool: seq<nat>, i: nat, p: nat,
                            maxPriorIdx: int, maxGTIdx: int, maxOverlap: real, bp: nat)
  {
    if maxPriorIdx == -1 then maxGTIdx == -1 && maxOverlap == -1.0 && NoCandidateBefore(t, mi, pool, i, p)
    else
      && 0 <= maxPriorIdx
      && BestBefore(t, mi, pool, i, p, maxPriorIdx, bp)
      && maxGTIdx == pool[bp] && maxOverlap == t[maxPriorIdx][pool[bp]]
  }

  lemma ScanNextPrior(t: OverlapTable, mi: seq<int>, pool: seq<nat>, i: nat,
                      maxPriorIdx: int, maxGTIdx: int, maxOverlap: real, bp: nat)
    requires ScanState(t, mi, pool, i, |pool|, maxPriorIdx, maxGTIdx, maxOverlap, bp)
    ensures ScanState(t, mi, pool, i + 1, 0, maxPriorIdx, maxGTIdx, maxOverlap, bp)
  {
    assert forall i': nat, p': nat :: Candidate(t, mi, pool, i', p') ==> (LexBefore(i', p', i + 1, 0) <==> LexBefore(i', p', i, |pool|));
  }

  lemma ScanSkipPrior(t: OverlapTable, mi: seq<int>, pool: seq<nat>, i: nat,
                      maxPriorIdx: int, maxGTIdx: int, maxOverlap: real, bp: nat)
    requires ScanState(t, mi, pool, i, 0, maxPriorIdx, maxGTIdx, maxOverlap, bp)
    requires !(i in t && i < |mi| && mi[i] == -1)
    ensures ScanState(t, mi, pool, i + 1, 0, maxPriorIdx, maxGTIdx, maxOverlap, bp)
  {
    assert forall i': nat, p': nat :: Candidate(t, mi, pool, i', p') ==> (LexBefore(i', p', i + 1, 0) <==> LexBefore(i', p', i, 0));
  }

  /**
   * One scan of the greedy loop: the best (unmatched prior, pooled ground
   * truth) pair, or -1 when no candidate pair is left.
   */
  method FindBestPair(t: OverlapTable, mi: seq<int>, pool: seq<nat>)
    returns (maxPriorIdx: int, maxGTIdx: int, maxOverlap: real)
    requires forall i :: i in t ==> i < |mi| && forall j :: j in t[i] ==> t[i][j] > OverlapEpsilon
    ensures maxPriorIdx == -1 ==>
              maxGTIdx == -1 && maxOverlap == -1.0 && forall i: nat, p: nat :: !Candidate(t, mi, pool, i, p)
    ensures maxPriorIdx != -1 ==>
              0 <= maxPriorIdx &&
              exists p: nat :: IsBest(t, mi, pool, maxPriorIdx, p) && maxGTIdx == pool[p] && maxOverlap == t[maxPriorIdx][pool[p]]
  {
    maxPriorIdx, maxGTIdx, maxOverlap := -1, -1, -1.0;
    ghost var bp: nat := 0;
    for i := 0 to |mi|
      invariant ScanState(t, mi, pool, i, 0, maxPriorIdx, maxGTIdx, maxOverlap, bp)
    {
      if i in t && mi[i] == -1 {
        var row := t[i];
        for p := 0 to |pool|
          invariant ScanState(t, mi, pool, i, p, maxPriorIdx, maxGTIdx, maxOverlap, bp)
        {
          var j := pool[p];
          if j in row {
            if row[j] > maxOverlap {
              maxPriorIdx, maxGTIdx, maxOverlap := i, j, row[j];
              bp := p;
            }
          }
        }
        ScanNextPrior(t, mi, pool, i, maxPriorIdx, maxGTIdx, maxOverlap, bp);
      } else {
        ScanSkipPrior(t, mi, pool, i, maxPriorIdx, maxGTIdx, maxOverlap, bp);
      }
    }
  }

  /** The while loop of matchBBox over a shrinking pool of ground truths. */
  method GreedyMatch(t: OverlapTable, numGTs: nat, mi0: seq<int>, mo0: seq<real>)
    returns (matchIndices: seq<int>, matchOverlaps: seq<real>)
    requires |mo0| == |mi0|
    requires ValidTable(t, |mi0|, numGTs)
    ensures (matchIndices, matchOverlaps) == Greedy(t, mi0, mo0, Iota(numGTs))
  {
    var gtPool: seq<nat> := [];
    for i := 0 to numGTs
      invariant gtPool == Iota(i)
    {
      gtPool := gtPool + [i];
    }
    matchIndices, matchOverlaps := mi0, mo0;
    while |gtPool| > 0
      invariant |matchIndices| == |mi0| && |matchOverlaps| == |mi0|
      invariant Greedy(t, matchIndices, matchOverlaps, gtPool) == Greedy(t, mi0, mo0, Iota(numGTs))
      decreases |gtPool|
    {
      var maxPriorIdx, maxGTIdx, maxOverlap := FindBestPair(t, matchIndices, gtPool);
      if maxPriorIdx == -1 {
        assert !exists i: nat, p: nat :: IsBest(t, matchIndices, gtPool, i, p);
        break;
      }
      ghost var p: nat :| IsBest(t, matchIndices, gtPool, maxPriorIdx, p)
                          && maxGTIdx == gtPool[p] && maxOverlap == t[maxPriorIdx][gtPool[p]];
      GreedyStep(t, matchIndices, matchOverlaps, gtPool, maxPriorIdx, p);
      matchIndices := matchIndices[maxPriorIdx := maxGTIdx];
      matchOverlaps := matchOverlaps[maxPriorIdx := maxOverlap];
      gtPool := EraseFirst(gtPool, maxGTIdx);
    }
  }

  // ---------------------------------------------------------------------------
  // The fill phase
  // ---------------------------------------------------------------------------

  ghost predicate Eligible(row: map<nat, real>, thr: real, j: nat)
  {
    j in row && row[j] >= thr
  }

  /** bj is the first ground truth below m of maximal overlap among those reaching thr. */
  ghost predicate FillBestBefore(row: map<nat, real>, thr: real, m: nat, bj: nat)
  {
    && bj < m
    && Eligible(row, thr, bj)
    && forall j: nat :: j < m && Eligible(row, thr, j) ==> row[j] <= row[bj] && (j < bj ==> row[j] < row[bj])
  }

  lemma FillBestUnique(row: map<nat, real>, thr: real, m: nat, a: nat, b: nat)
    requires FillBestBefore(row, thr, m, a) && FillBestBefore(row, thr, m, b)
    ensures a == b
  {
  }

  lemma {:induction false} FillBestExists(row: map<nat, real>, thr: real, m: nat)
    ensures (exists j: nat :: j < m && Eligible(row, thr, j)) ==> exists bj: nat :: FillBestBefore(row, thr, m, bj)
  {
    if m > 0 && exists j: nat :: j < m && Eligible(row, thr, j) {
      if exists j: nat :: j < m - 1 && Eligible(row, thr, j) {
        FillBestExists(row, thr, m - 1);
        var bj: nat :| FillBestBefore(row, thr, m - 1, bj);
        if Eligible(row, thr, m - 1) && row[m - 1] > row[bj] {
          assert FillBestBefore(row, thr, m, m - 1);
        } else {
          assert FillBestBefore(row, thr, m, bj);
        }
      } else {
        assert FillBestBefore(row, thr, m, m - 1);
      }
    }
  }

  /** The ground truth the fill phase gives an unmatched prior with this row, -1 for none. */
  ghost function FillChoice(row: map<nat, real>, thr: real, numGTs: nat): (r: int)
    ensures r == -1 <==> forall j: nat :: j < numGTs ==> !Eligible(row, thr, j)
    ensures r != -1 ==> 0 <= r && FillBestBefore(row, thr, numGTs, r)
  {
    FillBestExists(row, thr, numGTs);
    if exists j: nat :: FillBestBefore(row, thr, numGTs, j) then
      var j: nat :| FillBestBefore(row, thr, numGTs, j); j
    else -1
  }

  /** The fill phase: each unmatched prior with a row takes its fill choice, if any. */
  ghost function Fill(t: OverlapTable, mi: seq<int>, mo: seq<real>, numGTs: nat, thr: real): (r: (seq<int>, seq<real>))
    requires |mo| == |mi|
    ensures |r.0| == |mi| && |r.1| == |mi|
  {
    (seq(|mi|, i requires 0 <= i < |mi| =>
       if i in t && mi[i] == -1 && FillChoice(t[i], thr, numGTs) != -1 then FillChoice(t[i], thr, numGTs) else mi[i]),
     seq(|mi|, i requires 0 <= i < |mi| =>
       if i in t && mi[i] == -1 && FillChoice(t[i], thr, numGTs) != -1 then t[i][FillChoice(t[i], thr, numGTs)] else mo[i]))
  }

  /** The last loop of matchBBox. */
  method FillUnmatched(t: OverlapTable, numGTs: nat, overlapThreshold: real, mi0: seq<int>, mo0: seq<real>)
    returns (matchIndices: seq<int>, matchOverlaps: seq<real>)
    requires |mo0| == |mi0|
    requires ValidTable(t, |mi0|, numGTs)
    ensures (matchIndices, matchOverlaps) == Fill(t, mi0, mo0, numGTs, overlapThreshold)
  {
    ghost var spec := Fill(t, mi0, mo0, numGTs, overlapThreshold);
    matchIndices, matchOverlaps := mi0, mo0;
    for i := 0 to |mi0|
      invariant |matchIndices| == |mi0| && |matchOverlaps| == |mi0|
      invariant forall k :: 0 <= k < i ==> matchIndices[k] == spec.0[k] && matchOverlaps[k] == spec.1[k]
      invariant forall k :: i <= k < |mi0| ==> matchIndices[k] == mi0[k] && matchOverlaps[k] == mo0[k]
    {
      if i in t && matchIndices[i] == -1 {
        var row := t[i];
        var maxGTIdx, maxOverlap := -1, -1.0;
        for j := 0 to numGTs
          invariant maxGTIdx == -1 ==> maxOverlap == -1.0 && forall j': nat :: j' < j ==> !Eligible(row, overlapThreshold, j')
          invariant maxGTIdx != -1 ==>
                      0 <= maxGTIdx && FillBestBefore(row, overlapThreshold, j, maxGTIdx) && maxOverlap == row[maxGTIdx]
        {
          if j in row {
            var overlap := row[j];
            if overlap > maxOverlap && overlap >= overlapThreshold {
              maxGTIdx, maxOverlap := j, overlap;
            }
          }
        }
        if maxGTIdx != -1 {
          FillBestUnique(row, overlapThreshold, numGTs, maxGTIdx, FillChoice(row, overlapThreshold, numGTs));
          matchIndices := matchIndices[i := maxGTIdx];
          matchOverlaps := matchOverlaps[i := maxOverlap];
        }
      }
    }
    assert matchIndices == spec.0 && matchOverlaps == spec.1;
  }

  // ---------------------------------------------------------------------------
  // The whole matcher
  // ---------------------------------------------------------------------------

  /** What matchBBox computes: the fill phase after the greedy phase over the overlap table. */
  ghost function MatchSpec(priors: seq<NormalizedBBox>, gts: seq<NormalizedBBox>, overlapThreshold: real): (r: (seq<int>, seq<real>))
    ensures |r.0| == |priors| && |r.1| == |priors|
  {
    var t := Overlaps(priors, gts);
    var greedy := Greedy(t, seq(|priors|, _ => -1), InitialOverlaps(priors, gts), Iota(|gts|));
    Fill(t, greedy.0, greedy.1, |gts|, overlapThreshold)
  }

  /** matchBBox. */
  method MatchBBox(priorBBoxes: seq<NormalizedBBox>, gtBBoxes: seq<NormalizedBBox>, overlapThreshold: real)
    returns (matchIndices: seq<int>, matchOverlaps: seq<real>)
    ensures (matchIndices, matchOverlaps) == MatchSpec(priorBBoxes, gtBBoxes, overlapThreshold)
    ensures |matchIndices| == |priorBBoxes| && |matchOverlaps| == |priorBBoxes|
    ensures forall i :: 0 <= i < |priorBBoxes| ==> matchIndices[i] == -1 || 0 <= matchIndices[i] < |gtBBoxes|
  {
    matchIndices := seq(|priorBBoxes|, _ => -1);
    var overlaps, initialOverlaps := BuildOverlapTable(priorBBoxes, gtBBoxes);
    OverlapsValid(priorBBoxes, gtBBoxes);
    matchIndices, matchOverlaps := GreedyMatch(overlaps, |gtBBoxes|, matchIndices, initialOverlaps);
    matchIndices, matchOverlaps := FillUnmatched(overlaps, |gtBBoxes|, overlapThreshold, matchIndices, matchOverlaps);
    MatchShape(priorBBoxes, gtBBoxes, overlapThreshold);
  }

  // ---------------------------------------------------------------------------
  // Properties
  // ---------------------------------------------------------------------------

  /**
   * The greedy phase changes an entry only from -1, only for a prior with a
   * table row, and only to a ground truth of that row with its overlap.
   */
  lemma {:induction false} GreedyChanges(t: OverlapTable, mi: seq<int>, mo: seq<real>, pool: seq<nat>)
    requires |mo| == |mi|
    ensures var r := Greedy(t, mi, mo, pool);
            forall i :: 0 <= i < |mi| && (r.0[i] != mi[i] || r.1[i] != mo[i]) ==>
              mi[i] == -1 && i in t && 0 <= r.0[i] && r.0[i] in t[i] && r.1[i] == t[i][r.0[i]]
    decreases |pool|
  {
    if |pool| == 0 || !(exists i: nat, p: nat :: IsBest(t, mi, pool, i, p)) {
    } else {
      var i: nat, p: nat :| IsBest(t, mi, pool, i, p);
      assert Candidate(t, mi, pool, i, p);
      var mi', mo', pool' := mi[i := pool[p]], mo[i := t[i][pool[p]]], EraseFirst(pool, pool[p]);
      GreedyStep(t, mi, mo, pool, i, p);
      GreedyChanges(t, mi', mo', pool');
      var r, r' := Greedy(t, mi, mo, pool), Greedy(t, mi', mo', pool');
      assert r == r';
    }
  }

  /** The greedy phase assigns the best pair of the first iteration, and keeps it. */
  lemma GreedyAssignsBest(t: OverlapTable, mi: seq<int>, mo: seq<real>, pool: seq<nat>, i: nat, p: nat)
    requires |mo| == |mi| && IsBest(t, mi, pool, i, p)
    ensures Greedy(t, mi, mo, pool).0[i] == pool[p] && Greedy(t, mi, mo, pool).1[i] == t[i][pool[p]]
  {
    GreedyStep(t, mi, mo, pool, i, p);
    GreedyChanges(t, mi[i := pool[p]], mo[i := t[i][pool[p]]], EraseFirst(pool, pool[p]));
  }

  /** Each assigned ground truth is assigned once and is no longer in the pool. */
  ghost predicate OneToOne(mi: seq<int>, pool: seq<nat>)
  {
    && (forall a, b :: 0 <= a < b < |mi| && mi[a] != -1 ==> mi[a] != mi[b])
    && (forall a, p :: 0 <= a < |mi| && 0 <= p < |pool| ==> mi[a] != pool[p])
  }

  /** One greedy assignment keeps OneToOne. */
  lemma OneToOneStep(mi: seq<int>, pool: seq<nat>, i: nat, p: nat)
    requires Increasing(pool) && OneToOne(mi, pool) && i < |mi| && mi[i] == -1 && p < |pool|
    ensures OneToOne(mi[i := pool[p]], EraseFirst(pool, pool[p]))
  {
    var mi', pool' := mi[i := pool[p]], EraseFirst(pool, pool[p]);
    EraseFirstIncreasing(pool, pool[p]);
    forall a, b | 0 <= a < b < |mi'| && mi'[a] != -1 ensures mi'[a] != mi'[b] {
      if a == i {
        assert mi[b] != pool[p];
      } else if b == i {
        assert mi[a] != pool[p];
      }
    }
    forall a, q | 0 <= a < |mi'| && 0 <= q < |pool'| ensures mi'[a] != pool'[q] {
      assert pool'[q] in pool' && pool'[q] in pool;
      if a != i {
        var q' :| 0 <= q' < |pool| && pool[q'] == pool'[q];
        assert mi[a] != pool[q'];
      }
    }
  }

  /** No ground truth is assigned to two priors within the greedy phase. */
  lemma {:induction false} GreedyOneToOne(t: OverlapTable, mi: seq<int>, mo: seq<real>, pool: seq<nat>)
    requires |mo| == |mi| && Increasing(pool) && OneToOne(mi, pool)
    ensures var r := Greedy(t, mi, mo, pool);
            forall a, b :: 0 <= a < b < |mi| && r.0[a] != -1 ==> r.0[a] != r.0[b]
    decreases |pool|
  {
    if |pool| == 0 || !(exists i: nat, p: nat :: IsBest(t, mi, pool, i, p)) {
    } else {
      var i: nat, p: nat :| IsBest(t, mi, pool, i, p);
      GreedyStep(t, mi, mo, pool, i, p);
      OneToOneStep(mi, pool, i, p);
      EraseFirstIncreasing(pool, pool[p]);
      GreedyOneToOne(t, mi[i := pool[p]], mo[i := t[i][pool[p]]], EraseFirst(pool, pool[p]));
    }
  }

  /** Every ground truth is still pooled or already assigned to some prior. */
  ghost predicate Accounted(mi: seq<int>, pool: seq<nat>, numGTs: nat)
  {
    forall g: nat :: g < numGTs ==> g in pool || exists k :: 0 <= k < |mi| && mi[k] == g
  }

  /**
   * The greedy phase is exhaustive: a ground truth that overlaps a prior left
   * unmatched has been assigned to some prior.
   */
  lemma {:induction false} GreedyExhaustive(t: OverlapTable, numGTs: nat, mi: seq<int>, mo: seq<real>, pool: seq<nat>)
    requires |mo| == |mi| && ValidTable(t, |mi|, numGTs) && Accounted(mi, pool, numGTs)
    ensures var r := Greedy(t, mi, mo, pool);
            forall i, j :: i in t && i < |mi| && r.0[i] == -1 && j in t[i] ==> exists k :: 0 <= k < |mi| && r.0[k] == j
    decreases |pool|
  {
    var r := Greedy(t, mi, mo, pool);
    if |pool| == 0 || !(exists i: nat, p: nat :: IsBest(t, mi, pool, i, p)) {
      BestExistsAll(t, mi, pool);
      forall i, j | i in t && i < |mi| && r.0[i] == -1 && j in t[i] ensures exists k :: 0 <= k < |mi| && r.0[k] == j {
        assert forall q: nat :: q < |pool| && pool[q] == j ==> Candidate(t, mi, pool, i, q);
        assert j !in pool;
      }
    } else {
      var i: nat, p: nat :| IsBest(t, mi, pool, i, p);
      GreedyStep(t, mi, mo, pool, i, p);
      var mi', pool' := mi[i := pool[p]], EraseFirst(pool, pool[p]);
      assert Accounted(mi', pool', numGTs) by {
        forall g: nat | g < numGTs ensures g in pool' || exists k :: 0 <= k < |mi'| && mi'[k] == g {
          if g == pool[p] {
            assert mi'[i] == g;
          } else if g !in pool {
            var k :| 0 <= k < |mi| && mi[k] == g;
            assert mi[k] != -1;
            assert k != i;
            assert mi'[k] == g;
          } else {
            EraseFirstKeeps(pool, pool[p], g);
          }
        }
      }
      GreedyExhaustive(t, numGTs, mi', mo[i := t[i][pool[p]]], pool');
      GreedyChanges(t, mi', mo[i := t[i][pool[p]]], pool');
    }
  }

  lemma {:induction false} EraseFirstKeeps(pool: seq<nat>, j: nat, g: nat)
    requires g in pool && g != j
    ensures g in EraseFirst(pool, j)
  {
    if pool[0] == g {
    } else if pool[0] == j {
      assert g in pool[1..];
    } else {
      assert g in pool[1..];
      EraseFirstKeeps(pool[1..], j, g);
    }
  }

  /**
   * The fill phase changes an entry only from -1, only for a prior with a
   * table row, only to its fill choice: a ground truth of overlap at least
   * the threshold that is maximal over the row (the first such), and it
   * leaves -1 exactly where no entry of the row reaches the threshold.
   */
  lemma FillChanges(t: OverlapTable, mi: seq<int>, mo: seq<real>, numGTs: nat, thr: real)
    requires |mo| == |mi|
    ensures var r := Fill(t, mi, mo, numGTs, thr);
            && (forall i :: 0 <= i < |mi| && mi[i] != -1 ==> r.0[i] == mi[i] && r.1[i] == mo[i])
            && (forall i :: 0 <= i < |mi| && (r.0[i] != mi[i] || r.1[i] != mo[i]) ==>
                  i in t && mi[i] == -1 && 0 <= r.0[i] && FillBestBefore(t[i], thr, numGTs, r.0[i])
                  && r.1[i] == t[i][r.0[i]] && r.1[i] >= thr)
            && (forall i :: 0 <= i < |mi| && i in t && mi[i] == -1 ==>
                  (r.0[i] == -1 <==> forall j: nat :: j < numGTs ==> !Eligible(t[i], thr, j)))
  {
  }

  /** After matchBBox both vectors cover every prior and every index is -1 or a ground truth. */
  lemma MatchShape(priors: seq<NormalizedBBox>, gts: seq<NormalizedBBox>, thr: real)
    ensures var r := MatchSpec(priors, gts, thr);
            && |r.0| == |priors| && |r.1| == |priors|
            && forall i :: 0 <= i < |priors| ==> r.0[i] == -1 || 0 <= r.0[i] < |gts|
  {
    var t := Overlaps(priors, gts);
    var mi, mo := seq(|priors|, _ => -1), InitialOverlaps(priors, gts);
    GreedyChanges(t, mi, mo, Iota(|gts|));
    var g := Greedy(t, mi, mo, Iota(|gts|));
    FillChanges(t, g.0, g.1, |gts|, thr);
  }

  /** A matched prior records the overlap it achieves with its ground truth, which exceeds the epsilon. */
  lemma MatchedOverlap(priors: seq<NormalizedBBox>, gts: seq<NormalizedBBox>, thr: real)
    ensures var r := MatchSpec(priors, gts, thr);
            forall i :: 0 <= i < |priors| && r.0[i] != -1 ==>
              0 <= r.0[i] < |gts| && r.1[i] == JaccardOverlap(priors[i], gts[r.0[i]]) && r.1[i] > OverlapEpsilon
  {
    var t := Overlaps(priors, gts);
    var mi, mo := seq(|priors|, _ => -1), InitialOverlaps(priors, gts);
    GreedyChanges(t, mi, mo, Iota(|gts|));
    var g := Greedy(t, mi, mo, Iota(|gts|));
    FillChanges(t, g.0, g.1, |gts|, thr);
  }

  /** An unmatched prior records its maximum recorded overlap (0 when it has none). */
  lemma UnmatchedOverlap(priors: seq<NormalizedBBox>, gts: seq<NormalizedBBox>, thr: real)
    ensures var r := MatchSpec(priors, gts, thr);
            forall i :: 0 <= i < |priors| && r.0[i] == -1 ==> r.1[i] == MaxOverlap(priors[i], gts, |gts|)
  {
    var t := Overlaps(priors, gts);
    var mi, mo := seq(|priors|, _ => -1), InitialOverlaps(priors, gts);
    GreedyChanges(t, mi, mo, Iota(|gts|));
    var g := Greedy(t, mi, mo, Iota(|gts|));
    FillChanges(t, g.0, g.1, |gts|, thr);
  }

  /** A prior with no overlap above the epsilon ends unmatched with overlap 0. */
  lemma NoOverlapUnmatched(priors: seq<NormalizedBBox>, gts: seq<NormalizedBBox>, thr: real, i: nat)
    requires i < |priors|
    requires forall j :: 0 <= j < |gts| ==> JaccardOverlap(priors[i], gts[j]) <= OverlapEpsilon
    ensures MatchSpec(priors, gts, thr).0[i] == -1 && MatchSpec(priors, gts, thr).1[i] == 0.0
  {
    var t := Overlaps(priors, gts);
    var mi, mo := seq(|priors|, _ => -1), InitialOverlaps(priors, gts);
    assert Row(priors[i], gts, |gts|) == map[];
    assert i !in t;
    GreedyChanges(t, mi, mo, Iota(|gts|));
    var g := Greedy(t, mi, mo, Iota(|gts|));
    FillChanges(t, g.0, g.1, |gts|, thr);
  }

  /**
   * The greedy phase of matchBBox assigns no ground truth twice, and leaves
   * no ground truth unassigned that overlaps a prior it left unmatched.
   */
  lemma MatchGreedyPhase(priors: seq<NormalizedBBox>, gts: seq<NormalizedBBox>)
    ensures var g := Greedy(Overlaps(priors, gts), seq(|priors|, _ => -1), InitialOverlaps(priors, gts), Iota(|gts|));
            && (forall a, b :: 0 <= a < b < |priors| && g.0[a] != -1 ==> g.0[a] != g.0[b])
            && (forall i, j :: 0 <= i < |priors| && g.0[i] == -1 && 0 <= j < |gts| && JaccardOverlap(priors[i], gts[j]) > OverlapEpsilon ==>
                  exists k :: 0 <= k < |priors| && g.0[k] == j)
  {
    var t := Overlaps(priors, gts);
    var mi, mo, pool := seq(|priors|, _ => -1), InitialOverlaps(priors, gts), Iota(|gts|);
    assert Increasing(pool);
    assert OneToOne(mi, pool);
    GreedyOneToOne(t, mi, mo, pool);
    OverlapsValid(priors, gts);
    assert Accounted(mi, pool, |gts|) by {
      forall g: nat | g < |gts| ensures g in pool {
        assert pool[g] == g;
      }
    }
    GreedyExhaustive(t, |gts|, mi, mo, pool);
    var g := Greedy(t, mi, mo, pool);
    forall i, j | 0 <= i < |priors| && g.0[i] == -1 && 0 <= j < |gts| && JaccardOverlap(priors[i], gts[j]) > OverlapEpsilon
      ensures exists k :: 0 <= k < |priors| && g.0[k] == j
    {
      assert j in Row(priors[i], gts, |gts|);
      assert i in t && j in t[i];
    }
  }
}
