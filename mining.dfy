/**
 * generateMatchIndices: for each image of a batch, match the shared priors
 * against that image's ground truths, count the positives, and keep as hard
 * negatives the highest-scoring unmatched priors of low overlap, at most
 * negPosRatio per positive.
 */
module Mining {
  import Geometry
  import Extraction
  import Matcher

  /** A (confidence score, prior index) pair, as the source's pair<real, size_t>. */
  datatype ScorePair = ScorePair(score: real, index: nat)

  /** sortScorePairDescend: pair1 goes before pair2 when its score is strictly larger. */
  predicate SortScorePairDescend(pair1: ScorePair, pair2: ScorePair)
  {
    pair1.score > pair2.score
  }

  /** No pair is ordered, by sortScorePairDescend, before a pair that precedes it. */
  predicate SortedDescend(s: seq<ScorePair>)
  {
    forall a, b :: 0 <= a < b < |s| ==> !SortScorePairDescend(s[b], s[a])
  }

  /** Neither pair is ordered before the other: their scores are equal. */
  predicate Equivalent(pair1: ScorePair, pair2: ScorePair)
  {
    !SortScorePairDescend(pair1, pair2) && !SortScorePairDescend(pair2, pair1)
  }

  /** sortScorePairDescend is a strict weak ordering, as std::sort requires of its comparator. */
  lemma StrictWeakOrder(x: ScorePair, y: ScorePair, z: ScorePair)
    ensures !SortScorePairDescend(x, x)
    ensures SortScorePairDescend(x, y) ==> !SortScorePairDescend(y, x)
    ensures SortScorePairDescend(x, y) && SortScorePairDescend(y, z) ==> SortScorePairDescend(x, z)
    ensures Equivalent(x, y) && Equivalent(y, z) ==> Equivalent(x, z)
    ensures Equivalent(x, y) <==> x.score == y.score
  {
  }

  // ---------------------------------------------------------------------------
  // std::sort with sortScorePairDescend
  // ---------------------------------------------------------------------------

  lemma SortedTail(s: seq<ScorePair>)
    requires SortedDescend(s) && |s| > 0
    ensures SortedDescend(s[1..])
    ensures forall y :: y in s[1..] ==> !SortScorePairDescend(y, s[0])
  {
    forall y | y in s[1..] ensures !SortScorePairDescend(y, s[0]) {
      var k :| 0 <= k < |s| - 1 && s[1..][k] == y;
      assert s[k + 1] == y;
    }
  }

  /** Insert x before the first pair that does not score strictly above it. */
  function InsertDescend(s: seq<ScorePair>, x: ScorePair): (r: seq<ScorePair>)
    requires SortedDescend(s)
    ensures SortedDescend(r)
    ensures |r| == |s| + 1
    ensures multiset(r) == multiset(s) + multiset{x}
    ensures forall y :: y in r ==> y in s || y == x
  {
    if |s| == 0 || !SortScorePairDescend(s[0], x) then [x] + s
    else
      assert s == [s[0]] + s[1..];
      SortedTail(s);
      var rest := InsertDescend(s[1..], x);
      assert forall k :: 0 <= k < |rest| ==> !SortScorePairDescend(rest[k], s[0]) by {
        forall k | 0 <= k < |rest| ensures !SortScorePairDescend(rest[k], s[0]) {
          assert rest[k] in rest;
        }
      }
      [s[0]] + rest
  }

  /**
   * A sorted permutation of the pairs. std::sort is not stable, so the order
   * it leaves among equal scores is unspecified; the properties below hold of
   * every sorted permutation, whichever one this function picks.
   */
  function SortDescend(s: seq<ScorePair>): (r: seq<ScorePair>)
    ensures SortedDescend(r)
    ensures |r| == |s|
    ensures multiset(r) == multiset(s)
  {
    if |s| == 0 then []
    else
      assert s == [s[0]] + s[1..];
      InsertDescend(SortDescend(s[1..]), s[0])
  }

  // ---------------------------------------------------------------------------
  // Positives and negative candidates of one image
  // ---------------------------------------------------------------------------

  /** The number of matched priors among the first m (the numPos loop). */
  function CountPos(matchIndices: seq<int>, m: nat): (r: nat)
    requires m <= |matchIndices|
    ensures r <= m
    ensures r == 0 <==> forall i :: 0 <= i < m ==> matchIndices[i] == -1
    ensures r == m <==> forall i :: 0 <= i < m ==> matchIndices[i] != -1
  {
    if m == 0 then 0
    else CountPos(matchIndices, m - 1) + (if matchIndices[m - 1] != -1 then 1 else 0)
  }

  /** Prior i may become a negative: unmatched and of overlap below negOverlapThreshold. */
  predicate IsNegCandidate(matchIndices: seq<int>, matchOverlaps: seq<real>, negOverlapThreshold: real, i: int)
    requires |matchOverlaps| == |matchIndices|
  {
    0 <= i < |matchIndices| && matchIndices[i] == -1 && matchOverlaps[i] < negOverlapThreshold
  }

  /** The pairs the candidate loop pushes for the first m priors, in prior order. */
  function NegCandidates(matchIndices: seq<int>, matchOverlaps: seq<real>, scores: seq<real>,
                         negOverlapThreshold: real, m: nat): (r: seq<ScorePair>)
    requires |matchOverlaps| == |matchIndices| && |matchIndices| <= |scores| && m <= |matchIndices|
    ensures forall k :: 0 <= k < |r| ==>
              r[k].index < m && IsNegCandidate(matchIndices, matchOverlaps, negOverlapThreshold, r[k].index)
              && r[k].score == scores[r[k].index]
    ensures forall a, b :: 0 <= a < b < |r| ==> r[a].index < r[b].index
    ensures forall i :: 0 <= i < m && IsNegCandidate(matchIndices, matchOverlaps, negOverlapThreshold, i) ==>
              ScorePair(scores[i], i) in r
  {
    if m == 0 then []
    else
      var prev := NegCandidates(matchIndices, matchOverlaps, scores, negOverlapThreshold, m - 1);
      if IsNegCandidate(matchIndices, matchOverlaps, negOverlapThreshold, m - 1) then
        prev + [ScorePair(scores[m - 1], m - 1)]
      else prev
  }

  /** The number of negatives kept: negPosRatio per positive, capped by the number of candidates. */
  function NumNeg(numPos: nat, negPosRatio: nat, numCandidates: nat): (r: nat)
    ensures r <= numCandidates && r <= numPos * negPosRatio
    ensures r == numCandidates || r == numPos * negPosRatio
  {
    if numCandidates < numPos * negPosRatio then numCandidates else numPos * negPosRatio
  }

  /** The prior indices of a run of pairs. */
  function Indices(s: seq<ScorePair>): seq<int>
  {
    seq(|s|, k requires 0 <= k < |s| => s[k].index as int)
  }

  /** The negatives of one matched image: the first numNeg candidates after sorting. */
  function NegativesOf(matchIndices: seq<int>, matchOverlaps: seq<real>, scores: seq<real>,
                       negOverlapThreshold: real, negPosRatio: nat): (r: seq<int>)
    requires |matchOverlaps| == |matchIndices| && |matchIndices| <= |scores|
    ensures |r| == NumNeg(CountPos(matchIndices, |matchIndices|), negPosRatio,
                          |NegCandidates(matchIndices, matchOverlaps, scores, negOverlapThreshold, |matchIndices|)|)
  {
    var candidates := NegCandidates(matchIndices, matchOverlaps, scores, negOverlapThreshold, |matchIndices|);
    var sorted := SortDescend(candidates);
    Indices(sorted[..NumNeg(CountPos(matchIndices, |matchIndices|), negPosRatio, |candidates|)])
  }

  // ---------------------------------------------------------------------------
  // Hard negative mining, for every sorted permutation of the candidates
  // ---------------------------------------------------------------------------

  lemma MultisetAtLeastTwo(s: seq<ScorePair>, a: nat, b: nat)
    requires a < b < |s| && s[a] == s[b]
    ensures multiset(s)[s[a]] >= 2
  {
    assert s == s[..b] + s[b..];
    assert s[a] in s[..b];
    assert s[b] in s[b..];
  }

  lemma {:induction false} MultisetDistinct(s: seq<ScorePair>)
    requires forall a, b :: 0 <= a < b < |s| ==> s[a].index < s[b].index
    ensures forall x :: multiset(s)[x] <= 1
  {
    if |s| > 0 {
      MultisetDistinct(s[1..]);
      assert s == [s[0]] + s[1..];
      assert s[0] !in s[1..];
    }
  }

  /** A permutation of the candidates: candidate pairs only, each prior once, every candidate present. */
  lemma PermutedCandidates(matchIndices: seq<int>, matchOverlaps: seq<real>, scores: seq<real>,
                           negOverlapThreshold: real, sorted: seq<ScorePair>)
    requires |matchOverlaps| == |matchIndices| && |matchIndices| <= |scores|
    requires multiset(sorted) == multiset(NegCandidates(matchIndices, matchOverlaps, scores, negOverlapThreshold, |matchIndices|))
    ensures |sorted| == |NegCandidates(matchIndices, matchOverlaps, scores, negOverlapThreshold, |matchIndices|)|
    ensures forall k :: 0 <= k < |sorted| ==>
              IsNegCandidate(matchIndices, matchOverlaps, negOverlapThreshold, sorted[k].index)
              && sorted[k].score == scores[sorted[k].index]
    ensures forall a, b :: 0 <= a < b < |sorted| ==> sorted[a].index != sorted[b].index
    ensures forall i :: IsNegCandidate(matchIndices, matchOverlaps, negOverlapThreshold, i) ==>
              exists l :: 0 <= l < |sorted| && sorted[l].index == i
  {
    var candidates := NegCandidates(matchIndices, matchOverlaps, scores, negOverlapThreshold, |matchIndices|);
    assert |multiset(sorted)| == |multiset(candidates)|;
    forall k | 0 <= k < |sorted|
      ensures exists c :: 0 <= c < |candidates| && candidates[c] == sorted[k]
    {
      assert sorted[k] in multiset(sorted);
      assert sorted[k] in candidates;
    }
    MultisetDistinct(candidates);
    forall a, b | 0 <= a < b < |sorted| ensures sorted[a].index != sorted[b].index {
      var ca :| 0 <= ca < |candidates| && candidates[ca] == sorted[a];
      var cb :| 0 <= cb < |candidates| && candidates[cb] == sorted[b];
      if sorted[a].index == sorted[b].index {
        assert ca == cb;
        MultisetAtLeastTwo(sorted, a, b);
        assert false;
      }
    }
    forall i | IsNegCandidate(matchIndices, matchOverlaps, negOverlapThreshold, i)
      ensures exists l :: 0 <= l < |sorted| && sorted[l].index == i
    {
      assert ScorePair(scores[i], i) in multiset(sorted);
      var l :| 0 <= l < |sorted| && sorted[l] == ScorePair(scores[i], i);
    }
  }

  /** The first numNeg pairs of a sorted sequence: in score order, and none below a later pair. */
  lemma PrefixOrder(scores: seq<real>, sorted: seq<ScorePair>, numNeg: nat)
    requires SortedDescend(sorted) && numNeg <= |sorted|
    requires forall k :: 0 <= k < |sorted| ==> sorted[k].index < |scores| && sorted[k].score == scores[sorted[k].index]
    ensures var negs := Indices(sorted[..numNeg]);
            && (forall a, b :: 0 <= a < b < |negs| ==> scores[negs[a]] >= scores[negs[b]])
            && (forall l, k :: numNeg <= l < |sorted| && 0 <= k < |negs| ==> scores[negs[k]] >= scores[sorted[l].index])
  {
    var negs := Indices(sorted[..numNeg]);
    forall a, b | 0 <= a < b < |negs| ensures scores[negs[a]] >= scores[negs[b]] {
      assert !SortScorePairDescend(sorted[b], sorted[a]);
    }
    forall l, k | numNeg <= l < |sorted| && 0 <= k < |negs| ensures scores[negs[k]] >= scores[sorted[l].index] {
      assert !SortScorePairDescend(sorted[l], sorted[k]);
    }
  }

  /**
   * What the source keeps as negatives, for any sorted permutation of the
   * candidates and any count numNeg: numNeg of them, each an unmatched prior
   * of overlap below the threshold, none twice, in non-increasing score order,
   * none scoring below a candidate left out, and all candidates when numNeg
   * is their number.
   */
  lemma HardNegatives(matchIndices: seq<int>, matchOverlaps: seq<real>, scores: seq<real>,
                      negOverlapThreshold: real, sorted: seq<ScorePair>, numNeg: nat)
    requires |matchOverlaps| == |matchIndices| && |matchIndices| <= |scores|
    requires SortedDescend(sorted)
    requires multiset(sorted) == multiset(NegCandidates(matchIndices, matchOverlaps, scores, negOverlapThreshold, |matchIndices|))
    requires numNeg <= |sorted|
    ensures var negs := Indices(sorted[..numNeg]);
            && |negs| == numNeg
            && (forall k :: 0 <= k < |negs| ==> IsNegCandidate(matchIndices, matchOverlaps, negOverlapThreshold, negs[k]))
            && (forall a, b :: 0 <= a < b < |negs| ==> negs[a] != negs[b])
            && (forall a, b :: 0 <= a < b < |negs| ==> scores[negs[a]] >= scores[negs[b]])
            && (forall i :: IsNegCandidate(matchIndices, matchOverlaps, negOverlapThreshold, i) && i !in negs ==>
                  forall k :: 0 <= k < |negs| ==> scores[negs[k]] >= scores[i])
            && (numNeg == |sorted| ==>
                  forall i :: IsNegCandidate(matchIndices, matchOverlaps, negOverlapThreshold, i) ==> i in negs)
  {
    PermutedCandidates(matchIndices, matchOverlaps, scores, negOverlapThreshold, sorted);
    var negs := Indices(sorted[..numNeg]);
    PrefixIndices(sorted, numNeg);
    PrefixOrder(scores, sorted, numNeg);
    forall i | IsNegCandidate(matchIndices, matchOverlaps, negOverlapThreshold, i) && i !in negs
      ensures forall k :: 0 <= k < |negs| ==> scores[negs[k]] >= scores[i]
    {
      var l :| 0 <= l < |sorted| && sorted[l].index == i;
      assert numNeg <= l;
    }
    if numNeg == |sorted| {
      forall i | IsNegCandidate(matchIndices, matchOverlaps, negOverlapThreshold, i)
        ensures i in negs
      {
        var l :| 0 <= l < |sorted| && sorted[l].index == i;
      }
    }
  }

  /** The indices of the first numNeg pairs: one per pair, in order, each pair left out after them. */
  lemma PrefixIndices(sorted: seq<ScorePair>, numNeg: nat)
    requires numNeg <= |sorted|
    requires forall a, b :: 0 <= a < b < |sorted| ==> sorted[a].index != sorted[b].index
    ensures var negs := Indices(sorted[..numNeg]);
            && |negs| == numNeg
            && (forall k :: 0 <= k < numNeg ==> negs[k] == sorted[k].index)
            && (forall a, b :: 0 <= a < b < |negs| ==> negs[a] != negs[b])
            && (forall l :: 0 <= l < numNeg ==> sorted[l].index in negs)
            && (forall l :: numNeg <= l < |sorted| ==> sorted[l].index !in negs)
  {
    var negs := Indices(sorted[..numNeg]);
    forall l | numNeg <= l < |sorted| ensures sorted[l].index !in negs {
      assert forall k :: 0 <= k < |negs| ==> negs[k] == sorted[k].index != sorted[l].index;
    }
    forall l | 0 <= l < numNeg ensures sorted[l].index in negs {
      assert negs[l] == sorted[l].index;
    }
  }

  // ---------------------------------------------------------------------------
  // The batch
  // ---------------------------------------------------------------------------

  /** The inputs generateMatchIndices reads, with the priors already extracted. */
  datatype Batch = Batch(priors: seq<Geometry.NormalizedBBox>, gtValue: seq<real>, gtStartPos: seq<int>, seqNum: nat,
                         maxConfScore: seq<seq<real>>, overlapThreshold: real, negOverlapThreshold: real,
                         negPosRatio: nat)

  /**
   * Image n's ground truths are label records gtStartPos[n] .. gtStartPos[n+1]-1
   * when n < seqNum; the start positions must not decrease, the records must
   * lie in gtValue, and a labelled image needs a score per prior.
   */
  predicate ImageLayout(gtValue: seq<real>, gtStartPos: seq<int>, seqNum: nat, maxConfScore: seq<seq<real>>,
                        numPriors: nat, n: nat)
  {
    n < seqNum ==>
      && n + 1 < |gtStartPos|
      && 0 <= gtStartPos[n] <= gtStartPos[n + 1]
      && (gtStartPos[n] < gtStartPos[n + 1] ==>
            6 * gtStartPos[n + 1] <= |gtValue| + 1 && n < |maxConfScore| && numPriors <= |maxConfScore[n]|)
  }

  predicate BatchLayout(b: Batch, batchSize: nat)
  {
    forall n: nat :: n < batchSize ==> ImageLayout(b.gtValue, b.gtStartPos, b.seqNum, b.maxConfScore, |b.priors|, n)
  }

  /** numGTBBoxes of image n: 0 past seqNum. */
  function NumGT(b: Batch, n: nat): (r: nat)
    requires ImageLayout(b.gtValue, b.gtStartPos, b.seqNum, b.maxConfScore, |b.priors|, n)
    ensures n < b.seqNum ==> b.gtStartPos[n] + r == b.gtStartPos[n + 1]
    ensures n >= b.seqNum ==> r == 0
  {
    if n < b.seqNum then b.gtStartPos[n + 1] - b.gtStartPos[n] else 0
  }

  /** The ground-truth boxes of a labelled image n. */
  function ImageGTs(b: Batch, n: nat): seq<Geometry.NormalizedBBox>
    requires ImageLayout(b.gtValue, b.gtStartPos, b.seqNum, b.maxConfScore, |b.priors|, n) && NumGT(b, n) > 0
  {
    Extraction.LabelBoxes(b.gtValue[6 * b.gtStartPos[n]..], NumGT(b, n))
  }

  /** Image n's match indices and overlaps: all -1 and 0 without ground truths. */
  ghost function ImageMatch(b: Batch, n: nat): (seq<int>, seq<real>)
    requires ImageLayout(b.gtValue, b.gtStartPos, b.seqNum, b.maxConfScore, |b.priors|, n)
  {
    if NumGT(b, n) == 0 then (seq(|b.priors|, _ => -1), seq(|b.priors|, _ => 0.0))
    else Matcher.MatchSpec(b.priors, ImageGTs(b, n), b.overlapThreshold)
  }

  /** Image n's negative indices: none without ground truths. */
  ghost function ImageNegatives(b: Batch, n: nat): seq<int>
    requires ImageLayout(b.gtValue, b.gtStartPos, b.seqNum, b.maxConfScore, |b.priors|, n)
  {
    if NumGT(b, n) == 0 then []
    else
      var r := ImageMatch(b, n);
      Matcher.MatchShape(b.priors, ImageGTs(b, n), b.overlapThreshold);
      NegativesOf(r.0, r.1, b.maxConfScore[n], b.negOverlapThreshold, b.negPosRatio)
  }

  /** Image n's numPos: none without ground truths. */
  ghost function ImagePositives(b: Batch, n: nat): nat
    requires ImageLayout(b.gtValue, b.gtStartPos, b.seqNum, b.maxConfScore, |b.priors|, n)
  {
    if NumGT(b, n) == 0 then 0
    else
      Matcher.MatchShape(b.priors, ImageGTs(b, n), b.overlapThreshold);
      CountPos(ImageMatch(b, n).0, |b.priors|)
  }

  /** totalPos after the first m images. */
  ghost function TotalPos(b: Batch, m: nat): nat
    requires BatchLayout(b, m)
  {
    if m == 0 then 0 else TotalPos(b, m - 1) + ImagePositives(b, m - 1)
  }

  /** totalNeg after the first m images. */
  ghost function TotalNeg(b: Batch, m: nat): nat
    requires BatchLayout(b, m)
  {
    if m == 0 then 0 else TotalNeg(b, m - 1) + |ImageNegatives(b, m - 1)|
  }

  /** The match vectors of the first m images, in image order. */
  ghost function MatchVectors(b: Batch, m: nat): (r: seq<seq<int>>)
    requires BatchLayout(b, m)
    ensures |r| == m
  {
    if m == 0 then [] else MatchVectors(b, m - 1) + [ImageMatch(b, m - 1).0]
  }

  /** The negative vectors of the first m images, in image order. */
  ghost function NegVectors(b: Batch, m: nat): (r: seq<seq<int>>)
    requires BatchLayout(b, m)
    ensures |r| == m
  {
    if m == 0 then [] else NegVectors(b, m - 1) + [ImageNegatives(b, m - 1)]
  }

  /** Entry n of the match vectors is image n's match vector. */
  lemma {:induction false} MatchVectorsAt(b: Batch, m: nat, n: nat)
    requires BatchLayout(b, m) && n < m
    ensures MatchVectors(b, m)[n] == ImageMatch(b, n).0
  {
    var k: nat := m - 1;
    assert BatchLayout(b, k);
    if n < k {
      MatchVectorsAt(b, k, n);
    }
    AppendAt(MatchVectors(b, m), MatchVectors(b, k), ImageMatch(b, k).0, n, ImageMatch(b, n).0);
  }

  /** Entry n of the negative vectors is image n's negatives. */
  lemma {:induction false} NegVectorsAt(b: Batch, m: nat, n: nat)
    requires BatchLayout(b, m) && n < m
    ensures NegVectors(b, m)[n] == ImageNegatives(b, n)
  {
    var k: nat := m - 1;
    assert BatchLayout(b, k);
    if n < k {
      NegVectorsAt(b, k, n);
    }
    AppendAt(NegVectors(b, m), NegVectors(b, k), ImageNegatives(b, k), n, ImageNegatives(b, n));
  }

  /** Entry n of prev + [last] is prev's entry n, or last at the end. */
  lemma AppendAt<T>(whole: seq<T>, prev: seq<T>, last: T, n: nat, v: T)
    requires whole == prev + [last] && n <= |prev|
    requires n < |prev| ==> prev[n] == v
    requires n == |prev| ==> last == v
    ensures |whole| == |prev| + 1 && whole[n] == v
  {
  }

  // ---------------------------------------------------------------------------
  // generateMatchIndices
  // ---------------------------------------------------------------------------

  /**
   * generateMatchIndices. The two output vectors of the source are passed in
   * and returned extended; the pair it returns is (totalPos, totalNeg).
   */
  method GenerateMatchIndices(priorValue: seq<real>, numPriorBBoxes: nat, gtValue: seq<real>, gtStartPos: seq<int>,
                              seqNum: nat, maxConfScore: seq<seq<real>>, batchSize: nat,
                              overlapThreshold: real, negOverlapThreshold: real, negPosRatio: nat,
                              matchIndicesVec: seq<seq<int>>, negIndicesVec: seq<seq<int>>)
    returns (totalPos: nat, totalNeg: nat, matchIndicesVecOut: seq<seq<int>>, negIndicesVecOut: seq<seq<int>>)
    requires 8 * numPriorBBoxes <= |priorValue| + 4
    requires forall n: nat :: n < batchSize ==> ImageLayout(gtValue, gtStartPos, seqNum, maxConfScore, numPriorBBoxes, n)
    ensures var b := Batch(Extraction.PriorBoxes(priorValue, numPriorBBoxes), gtValue, gtStartPos, seqNum, maxConfScore,
                           overlapThreshold, negOverlapThreshold, negPosRatio);
            && matchIndicesVecOut == matchIndicesVec + MatchVectors(b, batchSize)
            && negIndicesVecOut == negIndicesVec + NegVectors(b, batchSize)
            && totalPos == TotalPos(b, batchSize)
            && totalNeg == TotalNeg(b, batchSize)
  {
    var priorBBoxes := Extraction.GetBBoxFromPriorData(priorValue, numPriorBBoxes, []);
    ghost var b := Batch(priorBBoxes, gtValue, gtStartPos, seqNum, maxConfScore,
                         overlapThreshold, negOverlapThreshold, negPosRatio);
    assert priorBBoxes == Extraction.PriorBoxes(priorValue, numPriorBBoxes);
    assert BatchLayout(b, batchSize);
    totalPos, totalNeg := 0, 0;
    matchIndicesVecOut, negIndicesVecOut := matchIndicesVec, negIndicesVec;
    for n := 0 to batchSize
      invariant BatchLayout(b, n)
      invariant matchIndicesVecOut == matchIndicesVec + MatchVectors(b, n)
      invariant negIndicesVecOut == negIndicesVec + NegVectors(b, n)
      invariant totalPos == TotalPos(b, n) && totalNeg == TotalNeg(b, n)
    {
      var matchIndices, negIndices, numPos, numNeg := MatchImage(priorBBoxes, gtValue, gtStartPos, seqNum, maxConfScore,
                                                                 overlapThreshold, negOverlapThreshold, negPosRatio, n);
      assert BatchLayout(b, n + 1);
      BatchStep(b, n, matchIndicesVecOut, matchIndicesVec, negIndicesVecOut, negIndicesVec, totalPos, totalNeg,
                matchIndices, negIndices, numPos, numNeg);
      totalPos := totalPos + numPos;
      totalNeg := totalNeg + numNeg;
      matchIndicesVecOut := matchIndicesVecOut + [matchIndices];
      negIndicesVecOut := negIndicesVecOut + [negIndices];
    }
  }

  /** One turn of generateMatchIndices' loop keeps the outputs equal to the batch's. */
  lemma BatchStep(b: Batch, n: nat, matchOut: seq<seq<int>>, matchVec: seq<seq<int>>,
                  negOut: seq<seq<int>>, negVec: seq<seq<int>>, totalPos: nat, totalNeg: nat,
                  matchIndices: seq<int>, negIndices: seq<int>, numPos: nat, numNeg: nat)
    requires BatchLayout(b, n + 1) && BatchLayout(b, n)
    requires matchOut == matchVec + MatchVectors(b, n) && negOut == negVec + NegVectors(b, n)
    requires totalPos == TotalPos(b, n) && totalNeg == TotalNeg(b, n)
    requires matchIndices == ImageMatch(b, n).0 && negIndices == ImageNegatives(b, n)
    requires numPos == ImagePositives(b, n) && numNeg == |negIndices|
    ensures matchOut + [matchIndices] == matchVec + MatchVectors(b, n + 1)
    ensures negOut + [negIndices] == negVec + NegVectors(b, n + 1)
    ensures totalPos + numPos == TotalPos(b, n + 1) && totalNeg + numNeg == TotalNeg(b, n + 1)
  {
    AppendBoth(matchOut, matchVec, MatchVectors(b, n), matchIndices, MatchVectors(b, n + 1));
    AppendBoth(negOut, negVec, NegVectors(b, n), negIndices, NegVectors(b, n + 1));
  }

  /** Appending x to out == vec + prev appends it to prev. */
  lemma AppendBoth<T>(out: seq<T>, vec: seq<T>, prev: seq<T>, x: T, whole: seq<T>)
    requires out == vec + prev && whole == prev + [x]
    ensures out + [x] == vec + whole
  {
  }

  /** The body of generateMatchIndices' loop over the batch, for image n. */
  method MatchImage(priorBBoxes: seq<Geometry.NormalizedBBox>, gtValue: seq<real>, gtStartPos: seq<int>, seqNum: nat,
                    maxConfScore: seq<seq<real>>, overlapThreshold: real, negOverlapThreshold: real, negPosRatio: nat,
                    n: nat)
    returns (matchIndices: seq<int>, negIndices: seq<int>, numPos: nat, numNeg: nat)
    requires ImageLayout(gtValue, gtStartPos, seqNum, maxConfScore, |priorBBoxes|, n)
    ensures var b := Batch(priorBBoxes, gtValue, gtStartPos, seqNum, maxConfScore,
                           overlapThreshold, negOverlapThreshold, negPosRatio);
            && matchIndices == ImageMatch(b, n).0
            && negIndices == ImageNegatives(b, n)
            && numPos == ImagePositives(b, n)
            && numNeg == |negIndices|
  {
    ghost var b := Batch(priorBBoxes, gtValue, gtStartPos, seqNum, maxConfScore,
                         overlapThreshold, negOverlapThreshold, negPosRatio);
    var numPriors := |priorBBoxes|;
    matchIndices := seq(numPriors, _ => -1);
    negIndices := [];
    var matchOverlaps := seq(numPriors, _ => 0.0);
    var numGTBBoxes := 0;
    if n < seqNum {
      numGTBBoxes := gtStartPos[n + 1] - gtStartPos[n];
    }
    if numGTBBoxes == 0 {
      numPos, numNeg := 0, 0;
      return;
    }
    var gtBBoxes := Extraction.GetBBoxFromLabelData(gtValue[6 * gtStartPos[n]..], numGTBBoxes, []);
    assert gtBBoxes == ImageGTs(b, n);
    matchIndices, matchOverlaps := Matcher.MatchBBox(priorBBoxes, gtBBoxes, overlapThreshold);

    numPos := CountPositives(matchIndices);
    var scoresIndices;
    scoresIndices, numNeg := CollectNegCandidates(matchIndices, matchOverlaps, maxConfScore[n], negOverlapThreshold);
    numNeg := NumNeg(numPos, negPosRatio, numNeg);
    scoresIndices := SortDescend(scoresIndices);
    negIndices := TakeIndices(scoresIndices, numNeg);
  }

  /** The numPos loop of generateMatchIndices. */
  method CountPositives(matchIndices: seq<int>) returns (numPos: nat)
    ensures numPos == CountPos(matchIndices, |matchIndices|)
  {
    numPos := 0;
    for i := 0 to |matchIndices|
      invariant numPos == CountPos(matchIndices, i)
    {
      if matchIndices[i] != -1 {
        numPos := numPos + 1;
      }
    }
  }

  /** The loop of generateMatchIndices that pushes the negative candidates and counts them. */
  method CollectNegCandidates(matchIndices: seq<int>, matchOverlaps: seq<real>, scores: seq<real>, negOverlapThreshold: real)
    returns (scoresIndices: seq<ScorePair>, numNeg: nat)
    requires |matchOverlaps| == |matchIndices| && |matchIndices| <= |scores|
    ensures scoresIndices == NegCandidates(matchIndices, matchOverlaps, scores, negOverlapThreshold, |matchIndices|)
    ensures numNeg == |scoresIndices|
  {
    scoresIndices, numNeg := [], 0;
    for i := 0 to |matchIndices|
      invariant scoresIndices == NegCandidates(matchIndices, matchOverlaps, scores, negOverlapThreshold, i)
      invariant numNeg == |scoresIndices|
    {
      if matchIndices[i] == -1 && matchOverlaps[i] < negOverlapThreshold {
        scoresIndices := scoresIndices + [ScorePair(scores[i], i)];
        numNeg := numNeg + 1;
      }
    }
  }

  /** The loop of generateMatchIndices that copies the indices of the first numNeg sorted pairs. */
  method TakeIndices(scoresIndices: seq<ScorePair>, numNeg: nat) returns (negIndices: seq<int>)
    requires numNeg <= |scoresIndices|
    ensures negIndices == Indices(scoresIndices[..numNeg])
  {
    negIndices := [];
    for i := 0 to numNeg
      invariant negIndices == Indices(scoresIndices[..i])
    {
      negIndices := negIndices + [scoresIndices[i].index];
    }
  }

  // ---------------------------------------------------------------------------
  // Properties
  // ---------------------------------------------------------------------------

  /** An image past seqNum or without ground truths: all -1, no negatives, no positives. */
  lemma ImageWithoutGroundTruths(b: Batch, n: nat)
    requires ImageLayout(b.gtValue, b.gtStartPos, b.seqNum, b.maxConfScore, |b.priors|, n)
    requires n >= b.seqNum || b.gtStartPos[n] == b.gtStartPos[n + 1]
    ensures |ImageMatch(b, n).0| == |b.priors|
    ensures forall i :: 0 <= i < |b.priors| ==> ImageMatch(b, n).0[i] == -1
    ensures ImageNegatives(b, n) == [] && ImagePositives(b, n) == 0
  {
  }

  /**
   * The negatives of a labelled image: min(numPos * negPosRatio, #candidates)
   * of them, with the properties HardNegatives states.
   */
  lemma ImageHardNegatives(b: Batch, n: nat)
    requires ImageLayout(b.gtValue, b.gtStartPos, b.seqNum, b.maxConfScore, |b.priors|, n) && NumGT(b, n) > 0
    ensures var r := ImageMatch(b, n);
            var negs := ImageNegatives(b, n);
            var candidates := NegCandidates(r.0, r.1, b.maxConfScore[n], b.negOverlapThreshold, |b.priors|);
            && |r.0| == |r.1| == |b.priors|
            && |negs| == NumNeg(ImagePositives(b, n), b.negPosRatio, |candidates|)
            && (forall k :: 0 <= k < |negs| ==> IsNegCandidate(r.0, r.1, b.negOverlapThreshold, negs[k]))
            && (forall a, c :: 0 <= a < c < |negs| ==> negs[a] != negs[c])
            && (forall a, c :: 0 <= a < c < |negs| ==> b.maxConfScore[n][negs[a]] >= b.maxConfScore[n][negs[c]])
            && (forall i :: IsNegCandidate(r.0, r.1, b.negOverlapThreshold, i) && i !in negs ==>
                  forall k :: 0 <= k < |negs| ==> b.maxConfScore[n][negs[k]] >= b.maxConfScore[n][i])
            && (|negs| == |candidates| ==> forall i :: IsNegCandidate(r.0, r.1, b.negOverlapThreshold, i) ==> i in negs)
  {
    var r := ImageMatch(b, n);
    Matcher.MatchShape(b.priors, ImageGTs(b, n), b.overlapThreshold);
    var scores := b.maxConfScore[n];
    var candidates := NegCandidates(r.0, r.1, scores, b.negOverlapThreshold, |r.0|);
    var sorted := SortDescend(candidates);
    HardNegatives(r.0, r.1, scores, b.negOverlapThreshold, sorted,
                  NumNeg(CountPos(r.0, |r.0|), b.negPosRatio, |candidates|));
  }

  /** Per image, the negatives kept never exceed negPosRatio per positive. */
  lemma ImageNegativesBound(b: Batch, n: nat)
    requires ImageLayout(b.gtValue, b.gtStartPos, b.seqNum, b.maxConfScore, |b.priors|, n)
    ensures |ImageNegatives(b, n)| <= ImagePositives(b, n) * b.negPosRatio
  {
    if NumGT(b, n) > 0 {
      ImageHardNegatives(b, n);
    }
  }

  lemma BoundAdd(neg: nat, pos: nat, imageNeg: nat, imagePos: nat, ratio: nat, totalNeg: nat, totalPos: nat)
    requires neg <= pos * ratio && imageNeg <= imagePos * ratio
    requires totalNeg == neg + imageNeg && totalPos == pos + imagePos
    ensures totalNeg <= totalPos * ratio
  {
  }

  /** Over the batch, the negatives kept never exceed negPosRatio per positive. */
  lemma {:induction false} TotalNegBound(b: Batch, m: nat)
    requires BatchLayout(b, m)
    ensures TotalNeg(b, m) <= TotalPos(b, m) * b.negPosRatio
  {
    if m > 0 {
      var k: nat := m - 1;
      assert BatchLayout(b, k);
      TotalNegBound(b, k);
      ImageNegativesBound(b, k);
      BoundAdd(TotalNeg(b, k), TotalPos(b, k), |ImageNegatives(b, k)|, ImagePositives(b, k), b.negPosRatio,
               TotalNeg(b, m), TotalPos(b, m));
    }
  }
}
