/**
 * The weighted die of `registerPlay`. A player's six weights are normalised
 * by their total and face `i` is the first one whose cumulative normalised
 * weight reaches the sample; a zero total falls back to a uniform draw. The
 * random source is a parameter: the one sample `Math.random()` yields per
 * call, a real in [0, 1). Arithmetic is exact.
 */
module Dice {

  const Faces: nat := 6

  /** `1.0 / 6`, the weight of every face in a default row. */
  const DefaultProb: real := 1.0 / 6.0

  /** Six equal weights, the row inserted for a player who has none. */
  const DefaultWeights: seq<real> := [DefaultProb, DefaultProb, DefaultProb, DefaultProb, DefaultProb, DefaultProb]

  /** The sum of the first `k` weights, folded from the left as `reduce` does. */
  function Cum(ws: seq<real>, k: nat): real
    requires k <= |ws|
  {
    if k == 0 then 0.0 else Cum(ws, k - 1) + ws[k - 1]
  }

  /** `probabilities.reduce((sum, prob) => sum + prob, 0)` */
  function Total(ws: seq<real>): real {
    Cum(ws, |ws|)
  }

  /** `probabilities.map((prob) => prob / total)` */
  function Normalize(ws: seq<real>, t: real): (ns: seq<real>)
    requires t != 0.0
    ensures |ns| == |ws|
    ensures forall i :: 0 <= i < |ws| ==> ns[i] == ws[i] / t
  {
    seq(|ws|, i requires 0 <= i < |ws| => ws[i] / t)
  }

  /** `Math.floor(random * 6) + 1`, the uniform draw for weights that total zero. */
  function UniformFace(random: real): (face: int)
    requires 0.0 <= random < 1.0
    ensures 1 <= face <= Faces
    ensures (face - 1) as real <= random * 6.0 < face as real
  {
    (random * 6.0).Floor + 1
  }

  /**
   * `face` is what the picker answers for `ws` and `random`: the uniform
   * draw when the total is zero; otherwise the first face whose cumulative
   * normalised weight is at least `random`, or the last face when none is.
   */
  ghost predicate PicksFace(ws: seq<real>, random: real, face: int)
    requires |ws| == Faces && 0.0 <= random < 1.0
  {
    var t := Total(ws);
    if t == 0.0 then face == UniformFace(random)
    else
      var ns := Normalize(ws, t);
      && 1 <= face <= Faces
      && (forall j :: 1 <= j < face ==> random > Cum(ns, j))
      && (face < Faces ==> random <= Cum(ns, face))
  }

  /** `getWeightedRandomDice`: accumulate the normalised weights until the sample is reached. */
  method GetWeightedRandomDice(probabilities: seq<real>, random: real) returns (face: int)
    requires |probabilities| == Faces && 0.0 <= random < 1.0
    ensures 1 <= face <= Faces
    ensures PicksFace(probabilities, random, face)
  {
    var total := Total(probabilities);
    if total == 0.0 {
      return UniformFace(random);
    }
    var normalizedProbs := Normalize(probabilities, total);
    var cumulativeProb := 0.0;
    for i := 0 to |normalizedProbs|
      invariant cumulativeProb == Cum(normalizedProbs, i)
      invariant forall j :: 1 <= j <= i ==> random > Cum(normalizedProbs, j)
    {
      cumulativeProb := cumulativeProb + normalizedProbs[i];
      if random <= cumulativeProb {
        return i + 1;
      }
    }
    return Faces;
  }

  /** The picker is a function of its inputs: at most one face satisfies `PicksFace`. */
  lemma PicksFaceUnique(ws: seq<real>, random: real, f1: int, f2: int)
    requires |ws| == Faces && 0.0 <= random < 1.0
    requires PicksFace(ws, random, f1) && PicksFace(ws, random, f2)
    ensures f1 == f2
  {
  }

  /** Normalising divides every prefix sum by the total. */
  lemma {:induction false} CumNormalize(ws: seq<real>, t: real, k: nat)
    requires t != 0.0 && k <= |ws|
    ensures Cum(Normalize(ws, t), k) == Cum(ws, k) / t
  {
    if k > 0 {
      CumNormalize(ws, t, k - 1);
      var ns := Normalize(ws, t);
      calc {
        Cum(ns, k);
        Cum(ns, k - 1) + ns[k - 1];
        Cum(ws, k - 1) / t + ws[k - 1] / t;
        (Cum(ws, k - 1) + ws[k - 1]) / t;
      }
    }
  }

  /** The normalised weights sum to one. */
  lemma NormalizedTotal(ws: seq<real>)
    requires Total(ws) != 0.0
    ensures Total(Normalize(ws, Total(ws))) == 1.0
  {
    var t := Total(ws);
    CumNormalize(ws, t, |ws|);
    assert Total(Normalize(ws, t)) == Cum(ws, |ws|) / t;
  }

  /**
   * For weights of non-zero total the trailing `return 6` is never the
   * reason for the answer: the face returned always has a cumulative
   * normalised weight that reaches the sample.
   */
  lemma FallbackUnreachable(ws: seq<real>, random: real, face: int)
    requires |ws| == Faces && 0.0 <= random < 1.0
    requires Total(ws) != 0.0 && PicksFace(ws, random, face)
    ensures random <= Cum(Normalize(ws, Total(ws)), face)
  {
    NormalizedTotal(ws);
  }

  /** With non-negative weights the prefix sums never decrease. */
  lemma {:induction false} CumMonotone(ws: seq<real>, j: nat, k: nat)
    requires j <= k <= |ws|
    requires forall i :: 0 <= i < |ws| ==> 0.0 <= ws[i]
    ensures Cum(ws, j) <= Cum(ws, k)
  {
    if j < k {
      CumMonotone(ws, j, k - 1);
    }
  }

  /**
   * With non-negative weights of positive total, face `f` is picked exactly
   * when the sample lies in the `f`-th interval of the cumulative weights,
   * `(Cum(f - 1) / t, Cum(f) / t]`, the first interval closed at zero too.
   */
  lemma FaceInterval(ws: seq<real>, random: real, f: int)
    requires |ws| == Faces && 0.0 <= random < 1.0
    requires forall i :: 0 <= i < Faces ==> 0.0 <= ws[i]
    requires Total(ws) > 0.0
    ensures PicksFace(ws, random, f) <==>
      1 <= f <= Faces && (f == 1 || Cum(ws, f - 1) / Total(ws) < random) && random <= Cum(ws, f) / Total(ws)
  {
    var t := Total(ws);
    var ns := Normalize(ws, t);
    NormalizedTotal(ws);
    forall k | 0 <= k <= Faces
      ensures Cum(ns, k) == Cum(ws, k) / t
    {
      CumNormalize(ws, t, k);
    }
    forall j | 0 <= j < |ns|
      ensures 0.0 <= ns[j]
    {
      assert ns[j] == ws[j] / t;
    }
    if 1 <= f <= Faces && (f == 1 || Cum(ns, f - 1) < random) && random <= Cum(ns, f) {
      forall j | 1 <= j < f
        ensures random > Cum(ns, j)
      {
        CumMonotone(ns, j, f - 1);
      }
    }
  }

  /** The width of face `f`'s interval is its weight over the total: its chance of being picked. */
  lemma FaceWidth(ws: seq<real>, f: int)
    requires |ws| == Faces && 1 <= f <= Faces && Total(ws) != 0.0
    ensures Cum(ws, f) / Total(ws) - Cum(ws, f - 1) / Total(ws) == ws[f - 1] / Total(ws)
  {
  }

  /** Weights that total zero give each face the sixth of [0, 1) it floors to. */
  lemma ZeroTotalUniform(ws: seq<real>, random: real, f: int)
    requires |ws| == Faces && 0.0 <= random < 1.0 && Total(ws) == 0.0
    ensures PicksFace(ws, random, f) <==> 1 <= f <= Faces && (f - 1) as real / 6.0 <= random < f as real / 6.0
  {
    if 1 <= f <= Faces && (f - 1) as real / 6.0 <= random < f as real / 6.0 {
      var u := UniformFace(random);
      assert (f - 1) as real <= random * 6.0 < f as real;
      assert u == f;
    }
  }

  /** Equal positive weights make a fair die: face `f` is picked exactly for samples in `((f - 1) / 6, f / 6]`. */
  lemma EqualWeightsAreFair(ws: seq<real>, w: real, random: real, f: int)
    requires |ws| == Faces && 0.0 <= random < 1.0
    requires w > 0.0 && forall i :: 0 <= i < |ws| ==> ws[i] == w
    ensures PicksFace(ws, random, f) <==>
      1 <= f <= Faces && (f == 1 || (f - 1) as real / 6.0 < random) && random <= f as real / 6.0
  {
    EqualShare(ws, w, Faces);
    FaceInterval(ws, random, f);
    if 1 <= f <= Faces {
      EqualShare(ws, w, f - 1);
      EqualShare(ws, w, f);
    }
  }

  /** Under equal positive weights the first `k` faces carry `k / 6` of the total. */
  lemma EqualShare(ws: seq<real>, w: real, k: nat)
    requires |ws| == Faces && k <= Faces
    requires w > 0.0 && forall i :: 0 <= i < |ws| ==> ws[i] == w
    ensures Total(ws) == 6.0 * w
    ensures Cum(ws, k) / Total(ws) == k as real / 6.0
  {
    EqualCum(ws, w, Faces);
    EqualCum(ws, w, k);
    assert (k as real / 6.0) * (6.0 * w) == k as real * w;
  }

  /** The first `k` of equal weights `w` sum to `k * w`. */
  lemma {:induction false} EqualCum(ws: seq<real>, w: real, k: nat)
    requires k <= |ws| && forall i :: 0 <= i < |ws| ==> ws[i] == w
    ensures Cum(ws, k) == k as real * w
  {
    if k > 0 {
      EqualCum(ws, w, k - 1);
    }
  }

  /** The default row is a fair die. */
  lemma DefaultIsFair(random: real, f: int)
    requires 0.0 <= random < 1.0
    ensures PicksFace(DefaultWeights, random, f) <==>
      1 <= f <= Faces && (f == 1 || (f - 1) as real / 6.0 < random) && random <= f as real / 6.0
  {
    EqualWeightsAreFair(DefaultWeights, DefaultProb, random, f);
  }
}
