/** Well classification over the fitted intensities of all panels: counts of
    positive (below the threshold) and negative wells, the polarity swap for
    assays whose label marks empty wells, and the positive fraction `pHat`. */
module Classify {
  import opened Outcome

  /** The tallies handed to the concentration estimate. */
  datatype Summary = Summary(npos: nat, nneg: nat, npart: nat, pHat: real)

  /** Assay selector asking for the swap: 1 counts beads, 2 counts bacteria. */
  const Bacteria: int := 2

  /** Number of intensities strictly below the threshold (positive calls). */
  function CountBelow(s: seq<real>, threshold: real): nat
  {
    if s == [] then 0
    else CountBelow(s[..|s| - 1], threshold) + (if s[|s| - 1] < threshold then 1 else 0)
  }

  /** Number of intensities at or above the threshold (negative calls). */
  function CountAtLeast(s: seq<real>, threshold: real): nat
  {
    if s == [] then 0
    else CountAtLeast(s[..|s| - 1], threshold) + (if s[|s| - 1] >= threshold then 1 else 0)
  }

  /** Every intensity is called exactly once: the two counts add up to the number
      of intensities. */
  lemma {:induction false} CountsPartition(s: seq<real>, threshold: real)
    ensures CountBelow(s, threshold) + CountAtLeast(s, threshold) == |s|
  {
    if s != [] {
      CountsPartition(s[..|s| - 1], threshold);
    }
  }

  /** An intensity equal to the threshold is a negative call, not a positive one. */
  lemma ThresholdValueIsNegative(s: seq<real>, threshold: real)
    ensures CountBelow(s + [threshold], threshold) == CountBelow(s, threshold)
    ensures CountAtLeast(s + [threshold], threshold) == CountAtLeast(s, threshold) + 1
  {
    assert (s + [threshold])[..|s|] == s;
  }

  /** Raising the threshold never loses a positive call. */
  lemma {:induction false} CountBelowMonotone(s: seq<real>, t1: real, t2: real)
    requires t1 <= t2
    ensures CountBelow(s, t1) <= CountBelow(s, t2)
    ensures CountAtLeast(s, t2) <= CountAtLeast(s, t1)
  {
    if s != [] {
      CountBelowMonotone(s[..|s| - 1], t1, t2);
    }
  }

  /** `Npos / (Npos + Nneg)`. */
  function PositiveFraction(npos: nat, nneg: nat): (p: real)
    requires npos + nneg > 0
    ensures 0.0 <= p <= 1.0
    ensures p == 0.0 <==> npos == 0
    ensures p == 1.0 <==> nneg == 0
    ensures p * (npos + nneg) as real == npos as real
  {
    npos as real / (npos + nneg) as real
  }

  /** Swapping the roles of the two counts turns `pHat` into `1 - pHat`. */
  lemma SwapComplementsFraction(npos: nat, nneg: nat)
    requires npos + nneg > 0
    ensures PositiveFraction(nneg, npos) == 1.0 - PositiveFraction(npos, nneg)
  {
    var n := (npos + nneg) as real;
    assert (nneg + npos) as real == n;
    assert nneg as real / n + npos as real / n == (nneg as real + npos as real) / n;
    assert (nneg as real + npos as real) / n == 1.0;
  }

  lemma QuotientLe(x: real, y: real, u: real, v: real)
    requires 0.0 < y && 0.0 < v
    requires x * v <= u * y
    ensures x / y <= u / v
  {
    var q1, q2 := x / y, u / v;
    assert x == q1 * y && u == q2 * v;
    assert (q1 * v) * y <= (q2 * v) * y;
    assert q1 * v <= q2 * v;
  }

  /** One more positive call with the negatives unchanged never lowers `pHat`. */
  lemma FractionMonotone(npos: nat, nneg: nat)
    requires npos + nneg > 0
    ensures PositiveFraction(npos, nneg) <= PositiveFraction(npos + 1, nneg)
  {
    var a, b := npos as real, nneg as real;
    assert a * (a + 1.0 + b) <= (a + 1.0) * (a + b);
    QuotientLe(a, a + b, a + 1.0, a + 1.0 + b);
  }

  lemma CountStep(s: seq<real>, i: nat, threshold: real)
    requires i < |s|
    ensures CountBelow(s[..i + 1], threshold) == CountBelow(s[..i], threshold) + (if s[i] < threshold then 1 else 0)
    ensures CountAtLeast(s[..i + 1], threshold) == CountAtLeast(s[..i], threshold) + (if s[i] >= threshold then 1 else 0)
  {
    assert s[..i + 1][..i] == s[..i];
  }

  /** Counts the calls, applies the polarity swap when `beadsOrBacteria == 2`, and
      computes `pHat` and the number of partitions. With no intensity at all the
      fraction is a division by zero and fails. */
  method Summarize(intensities: seq<real>, threshold: real, beadsOrBacteria: int) returns (result: Result<Summary>)
    ensures intensities == [] <==> result == Err(NoPartitions)
    ensures result.Ok? <==> intensities != []
    ensures result.Ok? ==> result.value.npos + result.value.nneg == result.value.npart == |intensities|
    ensures result.Ok? && beadsOrBacteria != Bacteria ==>
              result.value.npos == CountBelow(intensities, threshold)
              && result.value.nneg == CountAtLeast(intensities, threshold)
    ensures result.Ok? && beadsOrBacteria == Bacteria ==>
              result.value.npos == CountAtLeast(intensities, threshold)
              && result.value.nneg == CountBelow(intensities, threshold)
    ensures result.Ok? ==> 0.0 <= result.value.pHat <= 1.0
    ensures result.Ok? ==> result.value.pHat * result.value.npart as real == result.value.npos as real
    ensures result.Ok? ==> result.value.pHat == PositiveFraction(result.value.npos, result.value.nneg)
  {
    var npos: nat := 0;
    var nneg: nat := 0;
    for i := 0 to |intensities|
      invariant npos == CountBelow(intensities[..i], threshold)
      invariant nneg == CountAtLeast(intensities[..i], threshold)
    {
      var x := intensities[i];
      CountStep(intensities, i, threshold);
      if x < threshold {
        npos := npos + 1;
      }
      if x >= threshold {
        nneg := nneg + 1;
      }
    }
    assert intensities[..|intensities|] == intensities;
    CountsPartition(intensities, threshold);
    if beadsOrBacteria == Bacteria {
      var nsave := npos;
      npos := nneg;
      nneg := nsave;
    }
    if npos + nneg == 0 {
      return Err(NoPartitions);
    }
    var pHat := PositiveFraction(npos, nneg);
    var npart := npos + nneg;
    return Ok(Summary(npos, nneg, npart, pHat));
  }
}
