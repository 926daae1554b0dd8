/** Normalized boxes and their Jaccard overlap (intersection over union). */
module Geometry {

  /** An axis-aligned box in the normalized [0,1] image frame. */
  datatype NormalizedBBox = NormalizedBBox(xMin: real, yMin: real, xMax: real, yMax: real)
  {
    function Width(): real { xMax - xMin }

    function Height(): real { yMax - yMin }

    function Size(): real { Width() * Height() }

    /** Callers promise this of every box; nothing checks it. */
    predicate WellFormed() { xMin <= xMax && yMin <= yMax }
  }

  /** std::max: the first argument unless it is smaller than the second. */
  function Max(a: real, b: real): real { if a < b then b else a }

  /** std::min: the first argument unless the second is smaller. */
  function Min(a: real, b: real): real { if b < a then b else a }

  /** One of the four separating-axis tests that make jaccardOverlap return 0 at once. */
  predicate Separated(b1: NormalizedBBox, b2: NormalizedBBox)
  {
    b2.xMin > b1.xMax || b2.xMax < b1.xMin || b2.yMin > b1.yMax || b2.yMax < b1.yMin
  }

  function InterWidth(b1: NormalizedBBox, b2: NormalizedBBox): real
  {
    Min(b1.xMax, b2.xMax) - Max(b1.xMin, b2.xMin)
  }

  function InterHeight(b1: NormalizedBBox, b2: NormalizedBBox): real
  {
    Min(b1.yMax, b2.yMax) - Max(b1.yMin, b2.yMin)
  }

  /**
   * Intersection over union. Where the union area is zero the source divides by
   * zero; the model returns 0 there.
   */
  function JaccardOverlap(b1: NormalizedBBox, b2: NormalizedBBox): (r: real)
    ensures Separated(b1, b2) ==> r == 0.0
  {
    if Separated(b1, b2) then 0.0
    else IoU(InterWidth(b1, b2), InterHeight(b1, b2), b1.Size(), b2.Size())
  }

  /** Intersection area over union area, and 0 where the union area is 0. */
  function IoU(interWidth: real, interHeight: real, size1: real, size2: real): real
  {
    var interSize := interWidth * interHeight;
    var union := size1 + size2 - interSize;
    if union == 0.0 then 0.0 else interSize / union
  }

  /** Both the disjointness test and the formula are symmetric. */
  lemma JaccardSymmetric(b1: NormalizedBBox, b2: NormalizedBBox)
    ensures JaccardOverlap(b1, b2) == JaccardOverlap(b2, b1)
  {
    assert Separated(b1, b2) == Separated(b2, b1);
    assert InterWidth(b1, b2) == InterWidth(b2, b1);
    assert InterHeight(b1, b2) == InterHeight(b2, b1);
  }

  lemma MulMonotone(w: real, h: real, bw: real, bh: real)
    requires 0.0 <= w <= bw && 0.0 <= h <= bh
    ensures 0.0 <= w * h <= bw * bh
  {
    assert w * h <= bw * h;
    assert bw * h <= bw * bh;
  }

  lemma DivFraction(x: real, u: real)
    requires 0.0 <= x <= u && u != 0.0
    ensures 0.0 <= x / u <= 1.0
  {
  }

  lemma InterExtents(b1: NormalizedBBox, b2: NormalizedBBox)
    requires b1.WellFormed() && b2.WellFormed() && !Separated(b1, b2)
    ensures 0.0 <= InterWidth(b1, b2) <= b1.Width() && InterWidth(b1, b2) <= b2.Width()
    ensures 0.0 <= InterHeight(b1, b2) <= b1.Height() && InterHeight(b1, b2) <= b2.Height()
  {
  }

  lemma UnionFraction(w: real, h: real, w1: real, h1: real, w2: real, h2: real, s1: real, s2: real)
    requires 0.0 <= w <= w1 && w <= w2 && 0.0 <= h <= h1 && h <= h2
    requires s1 == w1 * h1 && s2 == w2 * h2
    ensures 0.0 <= IoU(w, h, s1, s2) <= 1.0
  {
    MulMonotone(w, h, w1, h1);
    MulMonotone(w, h, w2, h2);
    var inter, union := w * h, s1 + s2 - w * h;
    if union != 0.0 {
      DivFraction(inter, union);
    }
  }

  /** For well-formed boxes the overlap is a fraction. */
  lemma JaccardBounds(b1: NormalizedBBox, b2: NormalizedBBox)
    requires b1.WellFormed() && b2.WellFormed()
    ensures 0.0 <= JaccardOverlap(b1, b2) <= 1.0
  {
    if !Separated(b1, b2) {
      InterExtents(b1, b2);
      UnionFraction(InterWidth(b1, b2), InterHeight(b1, b2), b1.Width(), b1.Height(), b2.Width(), b2.Height(),
                    b1.Size(), b2.Size());
    }
  }

  /** A box of positive area overlaps itself completely. */
  lemma JaccardSelf(b: NormalizedBBox)
    requires b.WellFormed() && b.Size() > 0.0
    ensures JaccardOverlap(b, b) == 1.0
  {
    assert !Separated(b, b);
    assert InterWidth(b, b) == b.Width() && InterHeight(b, b) == b.Height();
    var size := b.Size();
    assert b.Width() * b.Height() == size;
    assert size + size - size == size;
    assert IoU(b.Width(), b.Height(), size, size) == size / size;
    assert JaccardOverlap(b, b) == IoU(b.Width(), b.Height(), size, size);
    assert size / size == 1.0;
  }
}
