# Prior-box matching and hard-negative mining (DetectionUtil)

A Dafny model of the box-matching core of PaddlePaddle's multibox / SSD
detection loss. For every image of a batch, the core does the following:

- It reads the shared prior boxes out of a flat prior buffer.
- It reads that image's ground-truth boxes out of a flat label buffer.
- It matches priors to ground truths by Jaccard overlap. A greedy bipartite
  phase comes first, then a threshold fill.
- It counts the positives.
- It picks as hard negatives the highest-scoring unmatched priors of low
  overlap, at most `negPosRatio` per positive.

The project has four modules, one file each:

- `geometry.dfy` (`Geometry`): the normalized box and `jaccardOverlap`, with
  its symmetry, bounds and self-overlap lemmas.
- `extraction.dfy` (`Extraction`): the three buffer readers, as loops that
  grow an output sequence. Each is proved equal to the input followed by
  the records read from the buffer.
- `matcher.dfy` (`Matcher`): `matchBBox`, as methods for the table fill, the
  best-pair scan, the shrinking-pool greedy loop and the fill loop.
  - Each method is proved equal to a specification function: `Overlaps`,
    `Greedy`, `Fill` and their composition `MatchSpec`.
  - Those functions say declaratively what a scan with a strict `>` picks:
    the pair of maximal overlap, and among equals the first in ascending
    prior order, then pool order.
  - The lemmas then prove the matcher's properties about those functions.
- `mining.dfy` (`Mining`): `sortScorePairDescend`, the sort,
  `generateMatchIndices` and its per-image body.
  - The outputs are proved equal to per-image specification functions
    (`ImageMatch`, `ImageNegatives`, `ImagePositives`) and to their batch
    sums.
  - `HardNegatives` proves the hard-negative properties for every sorted
    permutation of the candidates, since `std::sort` is not stable; the
    per-image functions use the permutation the model's sort picks.

`matchBBox` leaves an unmatched prior's maximum recorded overlap in
`matchOverlaps` (`DetectionUtil.cpp:218`), not 0: see
`Matcher.UnmatchedOverlap`. It is 0 only for a prior with no recorded
overlap: see `Matcher.NoOverlapUnmatched`.

## Model

| member | source | states |
|---|---|---|
| Geometry.JaccardOverlap | paddle/gserver/layers/DetectionUtil.cpp:81-100 | the overlap is exactly 0 whenever one of the four separating-axis tests holds |
| Geometry.IoU | paddle/gserver/layers/DetectionUtil.cpp:91-98 | the intersection area over the union area, where the union is the sum of the two sizes minus the intersection; 0 where the union is 0 |
| Geometry.JaccardSymmetric | paddle/gserver/layers/DetectionUtil.cpp:81-100 | the overlap of two boxes does not depend on their order |
| Geometry.JaccardBounds | paddle/gserver/layers/DetectionUtil.cpp:81-100 | for well-formed boxes the overlap lies in [0, 1] |
| Geometry.JaccardSelf | paddle/gserver/layers/DetectionUtil.cpp:81-100 | a well-formed box of positive area overlaps itself with value exactly 1 |
| Extraction.GetBBoxFromPriorData | paddle/gserver/layers/DetectionUtil.cpp:154-167 | the output grows by exactly numBBoxes; the old entries are unchanged; new entry k holds buffer elements 8k .. 8k+3 |
| Extraction.GetBBoxVarFromPriorData | paddle/gserver/layers/DetectionUtil.cpp:169-182 | the output grows by exactly num; the old entries are unchanged; new entry k holds buffer elements 8k+4 .. 8k+7 |
| Extraction.GetBBoxFromLabelData | paddle/gserver/layers/DetectionUtil.cpp:184-197 | the output grows by exactly numBBoxes; the old entries are unchanged; new entry k holds buffer elements 6k+1 .. 6k+4 |
| Matcher.Overlaps | paddle/gserver/layers/DetectionUtil.cpp:214-222 | the sparse table: a row for exactly those priors with a recorded overlap, and every key a prior index |
| Matcher.InitialOverlaps | paddle/gserver/layers/DetectionUtil.cpp:211-222 | matchOverlaps once the table is built: one non-negative entry per prior, its maximum recorded overlap |
| Matcher.MaxOverlap | paddle/gserver/layers/DetectionUtil.cpp:214-222 | a prior's running maximum is non-negative and at least every recorded overlap (one above 1e-6). It is 0 exactly when nothing is recorded, and otherwise equals one of the recorded overlaps |
| Matcher.RowOverlaps | paddle/gserver/layers/DetectionUtil.cpp:215-221 | the inner loop yields the prior's row: the ground truths of overlap above 1e-6 with those overlaps, and their maximum |
| Matcher.BuildOverlapTable | paddle/gserver/layers/DetectionUtil.cpp:214-222 | the nested loops yield the sparse table, which has a row only for priors with a recorded overlap, and each prior's maximum recorded overlap |
| Matcher.OverlapsValid | paddle/gserver/layers/DetectionUtil.cpp:214-222 | table keys are prior indices, row keys are ground-truth indices, and every entry exceeds 1e-6 |
| Matcher.Iota | paddle/gserver/layers/DetectionUtil.cpp:224-227 | the initial pool holds ground truths 0 .. numGTs-1 in ascending order |
| Matcher.EraseFirst | paddle/gserver/layers/DetectionUtil.cpp:260 | erasing a pooled ground truth shrinks the pool by one, which is why the greedy loop terminates; it never adds an element |
| Matcher.EraseFirstIncreasing | paddle/gserver/layers/DetectionUtil.cpp:260 | on an ascending pool, the erased ground truth is gone and the order is kept |
| Matcher.BestUnique | paddle/gserver/layers/DetectionUtil.cpp:233-254 | at most one pair is the first maximal (unmatched prior, pooled ground truth) pair |
| Matcher.BestExists | paddle/gserver/layers/DetectionUtil.cpp:233-254 | whenever a candidate pair precedes a scan position, a first maximal one among them exists |
| Matcher.BestExistsAll | paddle/gserver/layers/DetectionUtil.cpp:233-255 | whenever a candidate pair exists, the best pair exists, so the loop stops only when no candidates are left |
| Matcher.IsBest | paddle/gserver/layers/DetectionUtil.cpp:233-254 | the pair a full scan with a strict `>` keeps: an unmatched prior with an entry for a pooled ground truth, of overlap at least every other such pair's, and strictly above every such pair before it in ascending prior, then pool, order |
| Matcher.FindBestPair | paddle/gserver/layers/DetectionUtil.cpp:229-254 | the scan returns -1 exactly when no unmatched prior has an entry for a pooled ground truth. Otherwise it returns the maximal pair, the first in ascending prior then pool order, with its overlap |
| Matcher.Greedy | paddle/gserver/layers/DetectionUtil.cpp:228-262 | the greedy phase: while the pool is not empty and a best pair exists, assign it and erase its ground truth from the pool. The pool shrinks each time, and both vectors keep their lengths |
| Matcher.GreedyMatch | paddle/gserver/layers/DetectionUtil.cpp:224-262 | the while loop over the shrinking pool computes the greedy specification from the pool 0 .. numGTs-1 |
| Matcher.GreedyStep | paddle/gserver/layers/DetectionUtil.cpp:255-261 | one iteration assigns the best pair's ground truth and overlap to its prior and erases that ground truth from the pool |
| Matcher.GreedyChanges | paddle/gserver/layers/DetectionUtil.cpp:228-262 | the greedy phase changes only priors that were -1 and have a table row, each to a ground truth of that row with its recorded overlap |
| Matcher.GreedyAssignsBest | paddle/gserver/layers/DetectionUtil.cpp:247-259 | the best pair of an iteration is assigned, and later iterations leave it in place |
| Matcher.OneToOneStep | paddle/gserver/layers/DetectionUtil.cpp:258-260 | assigning a pooled ground truth and erasing it keeps every ground truth assigned at most once and out of the pool once assigned |
| Matcher.GreedyOneToOne | paddle/gserver/layers/DetectionUtil.cpp:228-262 | the greedy phase assigns no ground truth to two priors |
| Matcher.GreedyExhaustive | paddle/gserver/layers/DetectionUtil.cpp:228-262 | when the greedy phase ends, each ground truth with an entry for a still-unmatched prior has been assigned to some prior |
| Matcher.FillChoice | paddle/gserver/layers/DetectionUtil.cpp:273-286 | the fill scan over a row yields -1 exactly when no entry reaches the threshold. Otherwise it yields the first ground truth of maximal overlap among those reaching it |
| Matcher.Fill | paddle/gserver/layers/DetectionUtil.cpp:265-291 | the fill phase: each prior still at -1 with a table row takes that row's fill choice, when there is one, with its overlap; both vectors keep their lengths |
| Matcher.FillUnmatched | paddle/gserver/layers/DetectionUtil.cpp:265-291 | the last loop computes the fill specification from the greedy result |
| Matcher.FillChanges | paddle/gserver/layers/DetectionUtil.cpp:265-291 | the fill leaves matched priors unchanged. It changes a -1 only to a ground truth whose overlap reaches the threshold and is maximal over the row, recording that overlap, and it leaves -1 exactly where no row entry reaches the threshold |
| Matcher.MatchSpec | paddle/gserver/layers/DetectionUtil.cpp:199-292 | what matchBBox computes: the fill phase applied to the greedy phase, which starts from all -1, the initial overlaps and the pool 0 .. numGTs-1 on matchBBox's table. Both vectors have numPriors entries |
| Matcher.MatchBBox | paddle/gserver/layers/DetectionUtil.cpp:199-292 | matchBBox computes the fill phase after the greedy phase; both outputs have numPriors entries; each index is -1 or a ground truth |
| Matcher.MatchShape | paddle/gserver/layers/DetectionUtil.cpp:208-211 | the matcher's result covers every prior, and every index is -1 or in [0, numGTs) |
| Matcher.MatchedOverlap | paddle/gserver/layers/DetectionUtil.cpp:258-289 | a matched prior records the Jaccard overlap with its own ground truth, which exceeds 1e-6 |
| Matcher.UnmatchedOverlap | paddle/gserver/layers/DetectionUtil.cpp:214-222 | an unmatched prior keeps as its overlap its maximum recorded overlap |
| Matcher.NoOverlapUnmatched | paddle/gserver/layers/DetectionUtil.cpp:214-237 | a prior with no overlap above 1e-6 against any ground truth ends with index -1 and overlap 0 |
| Matcher.MatchGreedyPhase | paddle/gserver/layers/DetectionUtil.cpp:228-262 | on matchBBox's own table, the greedy phase is one-to-one. Any ground truth overlapping a prior it leaves unmatched has been assigned |
| Mining.SortScorePairDescend | paddle/gserver/layers/DetectionUtil.cpp:385-389 | pair1 goes before pair2 exactly when its score is strictly larger |
| Mining.StrictWeakOrder | paddle/gserver/layers/DetectionUtil.cpp:385-389 | the comparator is irreflexive, asymmetric and transitive, and its equivalence is transitive: a strict weak ordering, as std::sort requires. Two pairs are equivalent exactly when their scores are equal |
| Mining.SortedDescend | paddle/gserver/layers/DetectionUtil.cpp:343-345 | what std::sort with the comparator leaves: no pair is ordered before a pair that precedes it |
| Mining.InsertDescend | paddle/gserver/layers/DetectionUtil.cpp:343-345 | inserting into a score-sorted sequence keeps it sorted and adds exactly the new pair |
| Mining.SortDescend | paddle/gserver/layers/DetectionUtil.cpp:343-345 | the sort returns a permutation of the pairs in which no pair scores strictly above an earlier one |
| Mining.CountPos | paddle/gserver/layers/DetectionUtil.cpp:333-334 | numPos is at most the number of priors. It is 0 exactly when every prior is unmatched, and equals the number of priors exactly when every prior is matched |
| Mining.CountPositives | paddle/gserver/layers/DetectionUtil.cpp:331-334 | the numPos loop computes that count |
| Mining.NegCandidates | paddle/gserver/layers/DetectionUtil.cpp:336-341 | the candidates are exactly the unmatched priors of overlap below negOverlapThreshold, each paired with its score, in ascending prior order |
| Mining.CollectNegCandidates | paddle/gserver/layers/DetectionUtil.cpp:336-341 | the candidate loop pushes those pairs and counts them |
| Mining.NumNeg | paddle/gserver/layers/DetectionUtil.cpp:342 | the kept count is at most the number of candidates and at most numPos * negPosRatio, and equals one of them |
| Mining.NegativesOf | paddle/gserver/layers/DetectionUtil.cpp:336-347 | a labelled image's negatives: the indices of the first NumNeg pairs after sorting the candidates, exactly that many |
| Mining.TakeIndices | paddle/gserver/layers/DetectionUtil.cpp:346-347 | the copy loop yields the prior indices of the first numNeg sorted pairs |
| Mining.PermutedCandidates | paddle/gserver/layers/DetectionUtil.cpp:336-345 | any permutation of the candidates lists every candidate once, with its own score, and nothing else |
| Mining.PrefixOrder | paddle/gserver/layers/DetectionUtil.cpp:343-347 | the first numNeg pairs of a sorted sequence come in non-increasing score order, and none scores below a later pair |
| Mining.PrefixIndices | paddle/gserver/layers/DetectionUtil.cpp:346-347 | the copied indices are those of the first numNeg pairs, distinct, and exclude every later pair |
| Mining.HardNegatives | paddle/gserver/layers/DetectionUtil.cpp:336-347 | for every sorted permutation of the candidates, the kept negatives are numNeg distinct candidates in non-increasing score order. None scores below a candidate left out, and all candidates are kept when numNeg is their number |
| Mining.NumGT | paddle/gserver/layers/DetectionUtil.cpp:317-318 | image n's ground-truth count: the difference of consecutive start positions when n < seqNum, 0 otherwise |
| Mining.ImageGTs | paddle/gserver/layers/DetectionUtil.cpp:324-326 | a labelled image's ground truths: its NumGT label records, read from the label buffer at offset 6 * gtStartPos[n] |
| Mining.ImageMatch | paddle/gserver/layers/DetectionUtil.cpp:315-329 | an image's match indices and overlaps: numPriors entries of -1 and 0 when it has no ground truths, and otherwise what matchBBox computes for the priors and its ground truths |
| Mining.ImagePositives | paddle/gserver/layers/DetectionUtil.cpp:331-334 | an image's numPos: 0 without ground truths, and otherwise the number of matched priors |
| Mining.ImageNegatives | paddle/gserver/layers/DetectionUtil.cpp:313-347 | an image's negative indices: none without ground truths, and otherwise the hard negatives mined from its match result and its scores |
| Mining.TotalPos | paddle/gserver/layers/DetectionUtil.cpp:309-335 | totalPos after the first m images: the sum of their numPos |
| Mining.TotalNeg | paddle/gserver/layers/DetectionUtil.cpp:310-348 | totalNeg after the first m images: the sum of their numbers of negatives |
| Mining.MatchImage | paddle/gserver/layers/DetectionUtil.cpp:312-350 | one image's turn of the loop yields that image's match vector, negatives and numPos, with numNeg the number of negatives |
| Mining.GenerateMatchIndices | paddle/gserver/layers/DetectionUtil.cpp:294-353 | one match vector and one negative vector are appended per image, in image order. The returned totals are the sums over the batch of numPos and numNeg |
| Mining.BatchStep | paddle/gserver/layers/DetectionUtil.cpp:335-350 | one turn of the batch loop extends both vectors and both totals by exactly that image's contribution |
| Mining.MatchVectors | paddle/gserver/layers/DetectionUtil.cpp:320-349 | after m images there are exactly m match vectors |
| Mining.NegVectors | paddle/gserver/layers/DetectionUtil.cpp:321-350 | after m images there are exactly m negative vectors |
| Mining.MatchVectorsAt | paddle/gserver/layers/DetectionUtil.cpp:311-349 | match vector n is image n's match vector |
| Mining.NegVectorsAt | paddle/gserver/layers/DetectionUtil.cpp:311-350 | negative vector n is image n's negatives |
| Mining.ImageWithoutGroundTruths | paddle/gserver/layers/DetectionUtil.cpp:315-323 | an image past seqNum or without ground truths gets numPriors entries of -1, no negatives and no positives |
| Mining.ImageHardNegatives | paddle/gserver/layers/DetectionUtil.cpp:331-347 | a labelled image keeps exactly min(numPos * negPosRatio, #candidates) negatives, with the properties of HardNegatives |
| Mining.ImageNegativesBound | paddle/gserver/layers/DetectionUtil.cpp:342 | an image never keeps more than negPosRatio negatives per positive |
| Mining.TotalNegBound | paddle/gserver/layers/DetectionUtil.cpp:335-348 | over a batch, totalNeg never exceeds totalPos * negPosRatio |

## Left out

- `appendWithPermute` and `decomposeWithPermute` (lines 19-79) are not modelled. They only move data through the matrix library's `create` and `transpose`, which is not part of this model, and stop with `LOG(FATAL)` on an unsupported permute mode (lines 46 and 77).
- `encodeBBoxWithVar` and `decodeBBoxWithVar` (lines 102-152) are not modelled. They are floating-point `log`, `exp` and `fabs` arithmetic, and their round trip would need axioms about those functions.
- `getMaxConfidenceScores` (lines 355-383) is not modelled, because it is a softmax over floats. Its result `maxConfScore` is an input of `Mining.GenerateMatchIndices`.
- `DetectionUtil.h` is not part of this model. `NormalizedBBox` and its `getSize` are modelled from their use in the `.cpp` file, and `getSize` is modelled as width times height.
- `real` scalars are exact Dafny `real`s, with no IEEE rounding. The 1e-6 table epsilon is the constant `Matcher.OverlapEpsilon`.
- `MatrixPtr` data and raw pointers are `seq<real>` buffers. The callers' obligations become preconditions:
  - the prior buffer holds numPriorBBoxes records;
  - the start-position array has an entry past every labelled image, its start positions are non-negative, and it does not decrease;
  - the label records lie in the buffer;
  - each labelled image has a score for every prior.
  The source subtracts the `int` start positions and stores the result in the `size_t` `numGTBBoxes`, so a negative difference would wrap to a huge count there; the model requires that the start positions do not decrease.
- Vectors that the source updates through references or pointers are values. A method returns the whole new value, which is stated in its `ensures`, instead of mutating the caller's vector. This leaves out aliasing and in-place storage only.
- The loops inside `matchBBox` and `generateMatchIndices`, and the body of the batch loop, are methods of their own (the loops `RowOverlaps`, `FindBestPair`, `FillUnmatched`, `CountPositives`, `CollectNegCandidates` and `TakeIndices`; the loop body `MatchImage`), called where the source runs them.
- Geometry.JaccardOverlap: where the union area is 0 and no separating-axis test holds, the source divides by zero. The model returns 0 there.
  - For well-formed boxes this happens only when both boxes have area 0. The intersection is then also 0, so IEEE gives NaN, which is not above 1e-6 and so is never recorded.
  - The model's 0 behaves the same way in the matcher.
- Mining.SortDescend: this is a sort of a sequence value, not the in-place `std::sort` of the source vector.
  - `std::sort` is not stable, so the order it leaves among equal scores is not specified, and the function may pick another one.
  - For that reason `Mining.HardNegatives` is proved for every sorted permutation of the candidates.
  - `Mining.ImageNegatives`, `Mining.ImageHardNegatives` and the batch contract of `Mining.GenerateMatchIndices` use the one permutation `SortDescend` picks. Among equal scores they fix an order that the source leaves open.
- Mining.NumNeg: `numPos * negPosRatio` is an unbounded product. The `size_t` wrap-around of the source is not modelled.
- The `(int)` casts of prior and ground-truth indices in `matchBBox`, and the `size_t` to `int` conversion when line 347 pushes a prior index into `negIndices`, are not modelled as 32-bit; indices are unbounded integers.
