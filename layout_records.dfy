/** The alignment tests of the overlap layout: whether a record says that one
    sequence lies inside the other (a containment) or that the end of one runs
    into the start of the other (a dovetail), in the unstranded and the
    stranded form. */
module LayoutRecords {
  import opened PafRecords

  /** The thresholds a `Layout` is built with. `minAlnId` is a Java `float`
      and is modelled as an exact real. */
  datatype Config = Config(maxEdgeClip: int, minAlnId: real, minOverlapMatches: int)

  /** `numMatch / (float) span >= minAlnId`. A zero span divides by zero:
      a positive count gives +Infinity, which passes; zero gives NaN and a
      negative count -Infinity, which both fail. */
  predicate IdentityAtLeast(numMatch: int, span: int, minAlnId: real) {
    if span == 0 then numMatch > 0
    else numMatch as real / span as real >= minAlnId
  }

  /** Over a positive span the ratio test is the cross-multiplied test. */
  lemma IdentityCrossMultiplied(numMatch: int, span: int, minAlnId: real)
    requires span > 0
    ensures IdentityAtLeast(numMatch, span, minAlnId) <==> numMatch as real >= minAlnId * span as real
  {
    var q := numMatch as real / span as real;
    assert q * span as real == numMatch as real;
    if q >= minAlnId {
      MultiplyMonotone(minAlnId, q, span as real);
    } else {
      MultiplyMonotone(q, minAlnId, span as real);
    }
  }

  lemma MultiplyMonotone(a: real, b: real, c: real)
    requires a <= b && c > 0.0
    ensures a * c <= b * c
  {
  }

  /** Both the query and the target side of the alignment reach `minAlnId`. */
  predicate BothIdentities(c: Config, r: Alignment) {
    IdentityAtLeast(r.numMatch, r.qEnd - r.qStart, c.minAlnId) &&
    IdentityAtLeast(r.numMatch, r.tEnd - r.tStart, c.minAlnId)
  }

  /** The aligned part `[start, end)` of a sequence of length `len` comes
      within `clip` of its start or of its end. */
  predicate ReachesAnEnd(clip: int, start: int, end: int, len: int) {
    start <= clip || end >= len - clip
  }

  /** `isContainmentPafRecord`: both identities pass, and the query or the
      target is aligned to within `maxEdgeClip` of both of its ends, so at
      most `2 * maxEdgeClip` of its bases lie outside the alignment. */
  predicate IsContainment(c: Config, r: Alignment): (b: bool)
    ensures b ==> BothIdentities(c, r)
    ensures b ==> r.qLen - (r.qEnd - r.qStart) <= 2 * c.maxEdgeClip || r.tLen - (r.tEnd - r.tStart) <= 2 * c.maxEdgeClip
  {
    BothIdentities(c, r) &&
    ((r.qStart <= c.maxEdgeClip && r.qLen - r.qEnd <= c.maxEdgeClip) ||
     (r.tStart <= c.maxEdgeClip && r.tLen - r.tEnd <= c.maxEdgeClip))
  }

  /** `isStrandedContainmentPafRecord`: the containment test on forward
      records only. */
  predicate IsStrandedContainment(c: Config, r: Alignment): (b: bool)
    ensures b ==> !r.reverseComplemented && IsContainment(c, r)
    ensures !r.reverseComplemented && IsContainment(c, r) ==> b
  {
    !r.reverseComplemented && IsContainment(c, r)
  }

  /** `isDovetailPafRecord`: enough matches, both identities, and one end of
      each sequence aligned to within `maxEdgeClip`, with the unaligned
      overhangs on opposite sides. The strand decides which ends. */
  predicate IsDovetail(c: Config, r: Alignment): (b: bool)
    ensures b ==> r.numMatch >= c.minOverlapMatches && BothIdentities(c, r)
    ensures b ==> ReachesAnEnd(c.maxEdgeClip, r.qStart, r.qEnd, r.qLen) && ReachesAnEnd(c.maxEdgeClip, r.tStart, r.tEnd, r.tLen)
    ensures b && !r.reverseComplemented ==> r.qStart != r.tStart
  {
    r.numMatch >= c.minOverlapMatches && BothIdentities(c, r) &&
    if r.reverseComplemented then
      (r.qEnd >= r.qLen - c.maxEdgeClip && r.tEnd >= r.tLen - c.maxEdgeClip && r.qStart > r.tLen - r.tEnd) ||
      (r.tStart <= c.maxEdgeClip && r.qStart <= c.maxEdgeClip && r.qLen - r.qStart > r.tStart)
    else
      (r.qEnd >= r.qLen - c.maxEdgeClip && r.tStart <= c.maxEdgeClip && r.qStart > r.tStart) ||
      (r.tEnd >= r.tLen - c.maxEdgeClip && r.qStart <= c.maxEdgeClip && r.tStart > r.qStart)
  }

  /** `isStrandedDovetailPafRecord`: a forward record only, without the
      overhang comparison of the unstranded test. */
  predicate IsStrandedDovetail(c: Config, r: Alignment): (b: bool)
    ensures b ==> !r.reverseComplemented && r.numMatch >= c.minOverlapMatches && BothIdentities(c, r)
    ensures b ==> ReachesAnEnd(c.maxEdgeClip, r.qStart, r.qEnd, r.qLen) && ReachesAnEnd(c.maxEdgeClip, r.tStart, r.tEnd, r.tLen)
  {
    !r.reverseComplemented &&
    r.numMatch >= c.minOverlapMatches && BothIdentities(c, r) &&
    ((r.qEnd >= r.qLen - c.maxEdgeClip && r.tStart <= c.maxEdgeClip) ||
     (r.tEnd >= r.tLen - c.maxEdgeClip && r.qStart <= c.maxEdgeClip))
  }

  /** A dovetail, stranded or not, has at least `minOverlapMatches` matches
      and passes both identity tests. */
  lemma DovetailThresholds(c: Config, r: Alignment)
    ensures IsDovetail(c, r) || IsStrandedDovetail(c, r) ==>
      r.numMatch >= c.minOverlapMatches &&
      IdentityAtLeast(r.numMatch, r.qEnd - r.qStart, c.minAlnId) &&
      IdentityAtLeast(r.numMatch, r.tEnd - r.tStart, c.minAlnId)
  {
  }

  /** Neither stranded test accepts a reverse-complemented record; for a
      forward one the stranded containment test is the unstranded one. */
  lemma StrandedTestsRejectReverse(c: Config, r: Alignment)
    ensures r.reverseComplemented ==> !IsStrandedContainment(c, r) && !IsStrandedDovetail(c, r)
    ensures !r.reverseComplemented ==> (IsStrandedContainment(c, r) <==> IsContainment(c, r))
  {
  }

  /** A forward unstranded dovetail is a stranded dovetail. */
  lemma ForwardDovetailIsStranded(c: Config, r: Alignment)
    requires !r.reverseComplemented && IsDovetail(c, r)
    ensures IsStrandedDovetail(c, r)
  {
  }

  /** The converse fails: the stranded test drops the overhang comparison,
      so a query whose aligned part starts no later than the target's
      passes it but not the unstranded test. */
  lemma StrandedDovetailIsWeaker()
    ensures var c := Config(10, 0.5, 100);
      var r := Alignment("q", 500, 8, 500, false, "t", 1000, 9, 501, 400);
      IsStrandedDovetail(c, r) && !IsDovetail(c, r)
  {
    var c := Config(10, 0.5, 100);
    var r := Alignment("q", 500, 8, 500, false, "t", 1000, 9, 501, 400);
    IdentityCrossMultiplied(400, 492, 0.5);
  }
}
