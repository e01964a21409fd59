/** The size-targeted JPEG quality search (`_encode_with_target_size`): a binary search on the
    quality for the highest one whose encoding fits in TargetMaxBytes, then, when that encoding is
    still under TargetMinBytes, a linear scan upwards. */
module QualitySearch {
  import opened Wrappers
  import opened Codec

  const TargetMinBytes: nat := 1_000_000
  const TargetMaxBytes: nat := 2_000_000
  const QualityMin: int := 40
  const QualityMax: int := 95

  /** The `best` tuple `(size, quality, data)`. */
  datatype Candidate = Candidate(size: nat, quality: int, data: Bytes)

  /** What the search returns: `(data, quality)`. */
  datatype Encoded = Encoded(data: Bytes, quality: int)

  predicate Fits(enc: Encoder, q: int) {
    |enc(q)| <= TargetMaxBytes
  }

  /** The candidate the search records when it encodes at quality `q`. */
  function CandidateAt(enc: Encoder, q: int): Candidate {
    Candidate(|enc(q)|, q, enc(q))
  }

  /** The binary search loop, from the state `(low, high, best)` to the final `best`. */
  function Bisect(enc: Encoder, low: int, high: int, best: Option<Candidate>): (r: Option<Candidate>)
    ensures r == best || (r.Some? && low <= r.value.quality <= high)
    ensures r == best || (r.Some? && r.value == CandidateAt(enc, r.value.quality) && Fits(enc, r.value.quality))
    decreases high - low + 1
  {
    if low > high then best
    else
      var q := (low + high) / 2;
      var data := enc(q);
      if |data| > TargetMaxBytes then Bisect(enc, low, q - 1, best)
      else Bisect(enc, q + 1, high, Some(Candidate(|data|, q, data)))
  }

  /** The number of encodes the binary search loop performs from `(low, high)`. */
  function BisectProbes(enc: Encoder, low: int, high: int): nat
    decreases high - low + 1
  {
    if low > high then 0
    else
      var q := (low + high) / 2;
      1 + (if |enc(q)| > TargetMaxBytes then BisectProbes(enc, low, q - 1) else BisectProbes(enc, q + 1, high))
  }

  /** The refinement loop `for quality in range(next, QualityMax + 1)` from the state where `data`
      is the last accepted encoding and `quality` the loop variable's last value. As in the source,
      a rejected quality is left in `quality` when the loop breaks, and the loop carries on past
      TargetMinBytes. */
  function RefineFrom(enc: Encoder, next: int, data: Bytes, quality: int): (r: Encoded)
    ensures next > QualityMax ==> r == Encoded(data, quality)
    ensures next <= QualityMax ==> next <= r.quality <= QualityMax
    ensures |data| <= TargetMaxBytes ==> |r.data| <= TargetMaxBytes
    decreases QualityMax + 1 - next
  {
    if next > QualityMax then Encoded(data, quality)
    else
      var candidate := enc(next);
      if |candidate| > TargetMaxBytes then Encoded(data, next)
      else RefineFrom(enc, next + 1, candidate, next)
  }

  /** The whole search: binary search, the fallback to QualityMin, and the refinement. */
  function Search(enc: Encoder): (r: Encoded)
    ensures QualityMin <= r.quality <= QualityMax
    ensures |r.data| <= TargetMaxBytes || r == Encoded(enc(QualityMin), QualityMin)
  {
    match Bisect(enc, QualityMin, QualityMax, None)
    case None => Encoded(enc(QualityMin), QualityMin)
    case Some(b) =>
      if b.size < TargetMinBytes && b.quality < QualityMax then RefineFrom(enc, b.quality + 1, b.data, b.quality)
      else Encoded(b.data, b.quality)
  }

  /** The binary search loop of `_encode_with_target_size` (lines 124-136): the best candidate
      found, and (ghost) the number of encodes. */
  method BinarySearchQuality(enc: Encoder) returns (best: Option<Candidate>, ghost probes: nat)
    ensures best == Bisect(enc, QualityMin, QualityMax, None)
    ensures probes == BisectProbes(enc, QualityMin, QualityMax)
  {
    var low := QualityMin;
    var high := QualityMax;
    best := None;
    probes := 0;
    while low <= high
      invariant QualityMin <= low <= high + 1 <= QualityMax + 1
      invariant Bisect(enc, low, high, best) == Bisect(enc, QualityMin, QualityMax, None)
      invariant probes + BisectProbes(enc, low, high) == BisectProbes(enc, QualityMin, QualityMax)
      decreases high - low
    {
      var quality := (low + high) / 2;
      var data := enc(quality);
      probes := probes + 1;
      var size := |data|;
      if size > TargetMaxBytes {
        high := quality - 1;
      } else {
        best := Some(Candidate(size, quality, data));
        low := quality + 1;
      }
    }
  }

  /** The refinement loop of `_encode_with_target_size` (lines 145-152), entered with the accepted
      `data` at `quality`: the returned pair. */
  method RefineQuality(enc: Encoder, data: Bytes, quality: int) returns (data': Bytes, quality': int)
    requires quality < QualityMax
    ensures Encoded(data', quality') == RefineFrom(enc, quality + 1, data, quality)
  {
    data', quality' := data, quality;
    var next := quality + 1;
    while next <= QualityMax
      invariant quality' + 1 == next <= QualityMax + 1
      invariant RefineFrom(enc, next, data', quality') == RefineFrom(enc, quality + 1, data, quality)
      decreases QualityMax + 1 - next
    {
      quality' := next;
      var candidate := enc(quality');
      var candidateSize := |candidate|;
      if candidateSize > TargetMaxBytes {
        break;
      }
      data' := candidate;
      next := next + 1;
    }
  }

  /** `_encode_with_target_size`. */
  method EncodeWithTargetSize(enc: Encoder) returns (data: Bytes, quality: int, ghost probes: nat)
    ensures Encoded(data, quality) == Search(enc)
    ensures QualityMin <= quality <= QualityMax
    ensures |data| > TargetMaxBytes ==> data == enc(QualityMin) && quality == QualityMin
    ensures probes == BisectProbes(enc, QualityMin, QualityMax) && probes <= 6
  {
    var best;
    best, probes := BinarySearchQuality(enc);
    SearchProbesAtMostSix(enc);
    SearchBounds(enc);

    if best.None? {
      quality := QualityMin;
      data := enc(quality);
      return;
    }

    var size := best.value.size;
    data, quality := best.value.data, best.value.quality;
    if size < TargetMinBytes && quality < QualityMax {
      data, quality := RefineQuality(enc, data, quality);
    }
  }

  function Pow2(k: nat): nat {
    if k == 0 then 1 else 2 * Pow2(k - 1)
  }

  /** A binary search over fewer than 2^k qualities encodes at most k times. */
  lemma {:induction false} BisectProbesBound(enc: Encoder, low: int, high: int, k: nat)
    requires high - low + 1 < Pow2(k)
    ensures BisectProbes(enc, low, high) <= k
    decreases high - low + 1
  {
    if low <= high {
      var q := (low + high) / 2;
      assert k > 0;
      if |enc(q)| > TargetMaxBytes {
        BisectProbesBound(enc, low, q - 1, k - 1);
      } else {
        BisectProbesBound(enc, q + 1, high, k - 1);
      }
    }
  }

  /** The search over the 56 qualities 40..95 encodes at most 6 times before any refinement. */
  lemma SearchProbesAtMostSix(enc: Encoder)
    ensures BisectProbes(enc, QualityMin, QualityMax) <= 6
  {
    assert Pow2(6) == 64;
    BisectProbesBound(enc, QualityMin, QualityMax, 6);
  }

  /** What the binary search's result says about the encoder: either nothing was accepted, and then
      QualityMin itself is oversized, or the best candidate is the encoding at its quality, it fits,
      and the quality just above it does not (it was probed and rejected, or it is past QualityMax). */
  ghost predicate Frontier(enc: Encoder, r: Option<Candidate>) {
    match r
    case None => !Fits(enc, QualityMin)
    case Some(c) =>
      && QualityMin <= c.quality <= QualityMax
      && c == CandidateAt(enc, c.quality)
      && Fits(enc, c.quality)
      && (c.quality < QualityMax ==> !Fits(enc, c.quality + 1))
  }

  /** The binary search loop's invariant: everything below `low` that was accepted is in `best`,
      the quality above `high` was rejected. It yields Frontier, for every encoder. */
  lemma {:induction false} BisectFrontier(enc: Encoder, low: int, high: int, best: Option<Candidate>)
    requires QualityMin <= low <= high + 1 <= QualityMax + 1
    requires best == (if low == QualityMin then None else Some(CandidateAt(enc, low - 1)))
    requires low > QualityMin ==> Fits(enc, low - 1)
    requires high < QualityMax ==> !Fits(enc, high + 1)
    ensures Frontier(enc, Bisect(enc, low, high, best))
    decreases high - low + 1
  {
    if low <= high {
      var q := (low + high) / 2;
      if |enc(q)| > TargetMaxBytes {
        BisectFrontier(enc, low, q - 1, best);
      } else {
        BisectFrontier(enc, q + 1, high, Some(CandidateAt(enc, q)));
      }
    }
  }

  /** The refinement loop, started at `next <= QualityMax` from a fitting `data`: every quality it
      passes fits; it stops either at the first quality that does not fit, returning that quality
      with the encoding just below it, or at QualityMax with the encoding at QualityMax. */
  lemma {:induction false} RefineOutcome(enc: Encoder, next: int, data: Bytes, quality: int)
    requires next <= QualityMax && |data| <= TargetMaxBytes
    ensures var r := RefineFrom(enc, next, data, quality);
      && next <= r.quality <= QualityMax
      && |r.data| <= TargetMaxBytes
      && (forall q :: next <= q < r.quality ==> Fits(enc, q))
      && (!Fits(enc, r.quality) ==> r.data == (if r.quality == next then data else enc(r.quality - 1)))
      && (Fits(enc, r.quality) ==> r.quality == QualityMax && r.data == enc(QualityMax))
    decreases QualityMax + 1 - next
  {
    if Fits(enc, next) && next < QualityMax {
      RefineOutcome(enc, next + 1, enc(next), next);
    }
  }

  /** The returned quality is in [40, 95], and only the fallback (nothing fitted at all) returns an
      oversized encoding, which is then the encoding at QualityMin. */
  lemma SearchBounds(enc: Encoder)
    ensures QualityMin <= Search(enc).quality <= QualityMax
    ensures |Search(enc).data| > TargetMaxBytes <==> Bisect(enc, QualityMin, QualityMax, None).None?
    ensures Bisect(enc, QualityMin, QualityMax, None).None? ==> Search(enc) == Encoded(enc(QualityMin), QualityMin)
  {
    BisectFrontier(enc, QualityMin, QualityMax, None);
    match Bisect(enc, QualityMin, QualityMax, None)
    case None =>
    case Some(b) =>
      if b.size < TargetMinBytes && b.quality < QualityMax {
        RefineOutcome(enc, b.quality + 1, b.data, b.quality);
      }
  }

  /** Because encoding is deterministic, the quality just above the binary search's best was
      already rejected, so the refinement breaks on its first step: whenever it runs, the search
      returns the data encoded at the best quality q labelled with quality q + 1, an encoding it
      is not. No monotonicity of sizes is needed. */
  lemma RefinementReturnsRejectedQuality(enc: Encoder)
    requires Bisect(enc, QualityMin, QualityMax, None).Some?
    requires Bisect(enc, QualityMin, QualityMax, None).value.size < TargetMinBytes
    requires Bisect(enc, QualityMin, QualityMax, None).value.quality < QualityMax
    ensures var q := Bisect(enc, QualityMin, QualityMax, None).value.quality;
      Search(enc) == Encoded(enc(q), q + 1)
    ensures Search(enc).data != enc(Search(enc).quality)
  {
    BisectFrontier(enc, QualityMin, QualityMax, None);
  }

  /** Encoded size does not decrease with quality: the assumption the binary search rests on.
      It is a property of the codec that cannot be proved here, so lemmas take it as a hypothesis. */
  ghost predicate Monotone(enc: Encoder) {
    forall a, b :: QualityMin <= a <= b <= QualityMax ==> |enc(a)| <= |enc(b)|
  }

  /** Reference definition by linear scan: the highest quality in [QualityMin, q] that fits. */
  function LargestFitting(enc: Encoder, q: int): (r: Option<int>)
    ensures r.None? ==> forall k :: QualityMin <= k <= q ==> !Fits(enc, k)
    ensures r.Some? ==> QualityMin <= r.value <= q && Fits(enc, r.value)
    ensures r.Some? ==> forall k :: r.value < k <= q ==> !Fits(enc, k)
    decreases q
  {
    if q < QualityMin then None
    else if Fits(enc, q) then Some(q)
    else LargestFitting(enc, q - 1)
  }

  /** With monotone sizes the binary search finds the highest fitting quality, and finds nothing
      exactly when QualityMin is already oversized. */
  lemma BisectFindsLargestFitting(enc: Encoder)
    requires Monotone(enc)
    ensures var b := Bisect(enc, QualityMin, QualityMax, None);
      && (b.None? <==> !Fits(enc, QualityMin))
      && (b.None? <==> LargestFitting(enc, QualityMax).None?)
      && (b.Some? ==> LargestFitting(enc, QualityMax) == Some(b.value.quality))
  {
    BisectFrontier(enc, QualityMin, QualityMax, None);
    var b := Bisect(enc, QualityMin, QualityMax, None);
    var l := LargestFitting(enc, QualityMax);
    if b.Some? {
      var q := b.value.quality;
      assert Fits(enc, QualityMin) by { assert |enc(QualityMin)| <= |enc(q)|; }
      assert forall k :: q < k <= QualityMax ==> !Fits(enc, k) by {
        forall k | q < k <= QualityMax ensures !Fits(enc, k) {
          assert |enc(q + 1)| <= |enc(k)|;
        }
      }
      assert l.Some?;
      if l.value < q {
        assert false;
      } else if l.value > q {
        assert false;
      }
    } else {
      assert forall k :: QualityMin <= k <= QualityMax ==> !Fits(enc, k) by {
        forall k | QualityMin <= k <= QualityMax ensures !Fits(enc, k) {
          assert |enc(QualityMin)| <= |enc(k)|;
        }
      }
    }
  }

  /** With monotone sizes the search is determined by the highest fitting quality q: nothing fits
      gives the QualityMin fallback; an undersized q below QualityMax gives q's data labelled q + 1;
      otherwise q's data labelled q. */
  lemma SearchUnderMonotoneSizes(enc: Encoder)
    requires Monotone(enc)
    ensures Search(enc) ==
      match LargestFitting(enc, QualityMax)
      case None => Encoded(enc(QualityMin), QualityMin)
      case Some(q) =>
        if |enc(q)| < TargetMinBytes && q < QualityMax then Encoded(enc(q), q + 1) else Encoded(enc(q), q)
  {
    BisectFindsLargestFitting(enc);
    BisectFrontier(enc, QualityMin, QualityMax, None);
    var b := Bisect(enc, QualityMin, QualityMax, None);
    if b.Some? && b.value.size < TargetMinBytes && b.value.quality < QualityMax {
      RefinementReturnsRejectedQuality(enc);
    }
  }

  /** With monotone sizes, if some quality lands in the window [TargetMinBytes, TargetMaxBytes],
      the search returns an encoding in the window, at a quality at least as high, labelled with
      the quality it was encoded at. */
  lemma SearchLandsInWindow(enc: Encoder, q: int)
    requires Monotone(enc)
    requires QualityMin <= q <= QualityMax
    requires TargetMinBytes <= |enc(q)| <= TargetMaxBytes
    ensures TargetMinBytes <= |Search(enc).data| <= TargetMaxBytes
    ensures Search(enc).data == enc(Search(enc).quality)
    ensures q <= Search(enc).quality
  {
    SearchUnderMonotoneSizes(enc);
    assert Fits(enc, q);
    var l := LargestFitting(enc, QualityMax);
    assert l.Some?;
    assert q <= l.value;
    assert |enc(q)| <= |enc(l.value)|;
  }
}
