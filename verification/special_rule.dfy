/** The special rule: cancels every strictly positive zero against its
    nearest pole, one zero per iteration, with a five-way classification of
    the (delay, pole, zero) triple deciding how the model is rewritten. */
module SpecialRule {
  import opened RealSeq
  import opened TransferFunction

  /* ---------------------------------------------------------------------
     Nearest pole
     --------------------------------------------------------------------- */

  /** Initial "best distance" of the nearest-pole scan. */
  const Sentinel: real := 9999.0

  function Dist(zero: real, pole: real): real
  {
    Abs(zero - pole)
  }

  /** Index j is the first pole among poles[..n] at least as near to zero as
      every other pole of poles[..n]. */
  ghost predicate FirstNearest(zero: real, poles: seq<real>, n: nat, j: nat)
    requires n <= |poles|
  {
    && j < n
    && (forall k :: 0 <= k < n ==> Dist(zero, poles[j]) <= Dist(zero, poles[k]))
    && (forall k :: 0 <= k < j ==> Dist(zero, poles[j]) < Dist(zero, poles[k]))
  }

  /** Some pole of poles[..n] is nearer to zero than the sentinel. */
  ghost predicate WithinSentinel(zero: real, poles: seq<real>, n: nat)
    requires n <= |poles|
  {
    exists k :: 0 <= k < n && Dist(zero, poles[k]) < Sentinel
  }

  /** The state of the scan after it has looked at poles[..n]. */
  ghost predicate Scanned(zero: real, poles: seq<real>, n: nat, best: nat, diff: real)
    requires n <= |poles|
  {
    if WithinSentinel(zero, poles, n) then
      FirstNearest(zero, poles, n, best) && diff == Dist(zero, poles[best])
    else
      best == 0 && diff == Sentinel
  }

  function NearestFrom(zero: real, poles: seq<real>, i: nat, best: nat, diff: real): (j: nat)
    requires i <= |poles|
    requires Scanned(zero, poles, i, best, diff)
    ensures WithinSentinel(zero, poles, |poles|) ==> FirstNearest(zero, poles, |poles|, j)
    ensures !WithinSentinel(zero, poles, |poles|) ==> j == 0
    decreases |poles| - i
  {
    if i == |poles| then best
    else
      var d := Dist(zero, poles[i]);
      if d < diff then
        assert WithinSentinel(zero, poles, i + 1) by {
          assert d < Sentinel;
        }
        NearestFrom(zero, poles, i + 1, i, d)
      else
        assert WithinSentinel(zero, poles, i + 1) <==> WithinSentinel(zero, poles, i);
        NearestFrom(zero, poles, i + 1, best, diff)
  }

  /** nearestPoleIndex: the first pole minimising |zero - pole|, found with a
      strict comparison against a running best that starts at the sentinel;
      index 0 when no pole is nearer than the sentinel. */
  function NearestPoleIndex(zero: real, poles: seq<real>): (j: nat)
    ensures |poles| > 0 ==> j < |poles|
    ensures WithinSentinel(zero, poles, |poles|) ==> FirstNearest(zero, poles, |poles|, j)
    ensures !WithinSentinel(zero, poles, |poles|) ==> j == 0
  {
    NearestFrom(zero, poles, 0, 0, Sentinel)
  }

  /* ---------------------------------------------------------------------
     Classification
     --------------------------------------------------------------------- */

  /** The five cancellation rules, plus the fallback newTf keeps for a
      triple none of them accepts. */
  datatype Case = ZPD | ZDP | DZP | PZD | MIN | Unclassified

  /** cZPD: zero >= pole >= delay, so the zero also dominates the delay. */
  function IsZPD(delay: real, pole: real, zero: real): (b: bool)
    ensures b ==> zero >= delay
  {
    zero >= pole && pole >= delay
  }

  /** cZDP: zero >= delay >= pole, so the zero also dominates the pole. */
  function IsZDP(delay: real, pole: real, zero: real): (b: bool)
    ensures b ==> zero >= pole
  {
    zero >= delay && delay >= pole
  }

  /** cDZP: delay >= zero >= pole, so the delay also dominates the pole. */
  function IsDZP(delay: real, pole: real, zero: real): (b: bool)
    ensures b ==> delay >= pole
  {
    delay >= zero && zero >= pole
  }

  /** cPZD: pole >= zero >= 5 delay, so the pole also dominates 5 delay. */
  function IsPZD(delay: real, pole: real, zero: real): (b: bool)
    ensures b ==> pole >= 5.0 * delay
  {
    pole >= zero && zero >= 5.0 * delay
  }

  /** cMin: min(pole, 5 delay) >= zero, that is, the zero lies below both
      the pole and five times the delay. */
  function IsMIN(delay: real, pole: real, zero: real): (b: bool)
    ensures b <==> zero <= pole && zero <= 5.0 * delay
  {
    Min(pole, 5.0 * delay) >= zero
  }

  /** Position of a case in the order newTf tries them. */
  function Priority(c: Case): nat
  {
    match c
    case ZPD => 0
    case ZDP => 1
    case DZP => 2
    case PZD => 3
    case MIN => 4
    case Unclassified => 5
  }

  /** Whether a case's condition accepts the triple. */
  predicate Accepts(c: Case, delay: real, pole: real, zero: real)
  {
    match c
    case ZPD => IsZPD(delay, pole, zero)
    case ZDP => IsZDP(delay, pole, zero)
    case DZP => IsDZP(delay, pole, zero)
    case PZD => IsPZD(delay, pole, zero)
    case MIN => IsMIN(delay, pole, zero)
    case Unclassified => true
  }

  /** The if/else-if chain of newTf: the first case, in priority order, whose
      condition accepts the triple. Over the reals the five conditions cover
      every triple, so the fallback is never chosen, and MIN is only chosen
      when the zero lies strictly below the pole. */
  function Classify(delay: real, pole: real, zero: real): (c: Case)
    ensures Accepts(c, delay, pole, zero)
    ensures forall e: Case :: Priority(e) < Priority(c) ==> !Accepts(e, delay, pole, zero)
    ensures c != Unclassified
    ensures c == MIN ==> zero < pole
  {
    if IsZPD(delay, pole, zero) then ZPD
    else if IsZDP(delay, pole, zero) then ZDP
    else if IsDZP(delay, pole, zero) then DZP
    else if IsPZD(delay, pole, zero) then PZD
    else if IsMIN(delay, pole, zero) then MIN
    else Unclassified
  }

  /* ---------------------------------------------------------------------
     One iteration
     --------------------------------------------------------------------- */

  /** The gain after the rewrite of case c: ZPD and PZD scale it by z / p,
      ZDP by z / delay, MIN by min(p, 5 delay); DZP and the fallback keep it. */
  function CaseGain(c: Case, g: Gain, delay: real, p: real, z: real): (r: Gain)
    ensures r.Finite? <==> g.Finite? && (c == ZPD || c == PZD ==> p != 0.0) && (c == ZDP ==> delay != 0.0)
    ensures (c == ZPD || c == PZD) && r.Finite? ==> r.value * p == g.value * z
    ensures c == ZDP && r.Finite? ==> r.value * delay == g.value * z
    ensures c == MIN && r.Finite? ==> r.value == g.value * Min(p, 5.0 * delay)
    ensures c == DZP || c == Unclassified ==> r == g
  {
    match c
    case ZPD => ScaleRatio(g, z, p)
    case ZDP => ScaleRatio(g, z, delay)
    case DZP => g
    case PZD => ScaleRatio(g, z, p)
    case MIN => Scale(g, Min(p, 5.0 * delay))
    case Unclassified => g
  }

  /** The rewrite each case performs on the model, given the pole index pi,
      the zero index zi and the zero candidate's value z. */
  function Cancel(c: Case, tf: TF, pi: nat, zi: nat, z: real): (r: TF)
    requires pi < |tf.poles| && zi < |tf.zeros|
    ensures r.delay == tf.delay && r.specialRule == tf.specialRule
    ensures r.gain == CaseGain(c, tf.gain, tf.delay, tf.poles[pi], z)
    ensures c != Unclassified ==> r.zeros == RemoveAt(tf.zeros, zi)
    ensures c == ZPD || c == PZD ==> r.gain == ScaleRatio(tf.gain, z, tf.poles[pi])
    ensures c == ZDP ==> r.gain == ScaleRatio(tf.gain, z, tf.delay)
    ensures c == DZP || c == Unclassified ==> r.gain == tf.gain
    ensures c == MIN ==> r.gain == Scale(tf.gain, Min(tf.poles[pi], 5.0 * tf.delay))
    ensures c in {ZPD, ZDP, DZP, PZD} ==> r.poles == RemoveAt(tf.poles, pi)
    ensures c == MIN ==> r.poles == RemoveAt(tf.poles, pi) + [Abs(tf.poles[pi] - z)]
    ensures c == Unclassified ==> r.poles == tf.poles && r.zeros == RemoveAt(tf.zeros, zi)
  {
    var p := tf.poles[pi];
    var scaled := tf.(gain := CaseGain(c, tf.gain, tf.delay, p, z));
    match c
    case MIN => AddToPoles(RemoveZero(RemovePole(scaled, pi), zi), Abs(p - z))
    case Unclassified => RemoveZero(scaled, zi)
    case _ => RemoveZero(RemovePole(scaled, pi), zi)
  }

  /** The zero candidate: the first strictly positive zero, or index 0 and
      value 0 when there is none (the initial values newTf gives them). */
  function ZeroCandidate(zeros: seq<real>): (r: (nat, real))
    ensures HasPositive(zeros) ==> r.0 < |zeros| && r.1 == zeros[r.0] && r.1 > 0.0
    ensures HasPositive(zeros) ==> forall k :: 0 <= k < r.0 ==> zeros[k] <= 0.0
    ensures !HasPositive(zeros) ==> r == (0, 0.0)
  {
    var i := FirstPositive(zeros);
    if i < |zeros| then (i, zeros[i]) else (0, 0.0)
  }

  /** One pass of the loop body of newTf, including the recomputation of the
      flag. Fails where the Java code indexes past the end of a list. */
  function Iterate(tf: TF): (r: Result<TF>)
    ensures r.Success? <==> |tf.poles| > 0 && |tf.zeros| > 0
    ensures r.Success? ==> |r.value.zeros| == |tf.zeros| - 1
    ensures r.Success? ==> r.value.delay == tf.delay
    ensures r.Success? ==> (r.value.specialRule <==> HasPositive(r.value.zeros))
    ensures r.Success? ==> |tf.poles| - 1 <= |r.value.poles| <= |tf.poles|
    ensures r.Success? && SortedDesc(tf.zeros) ==> SortedDesc(r.value.zeros)
  {
    var (zi, z) := ZeroCandidate(tf.zeros);
    if |tf.poles| == 0 || zi >= |tf.zeros| then Failure(IndexOutOfBounds)
    else
      var pi := NearestPoleIndex(z, tf.poles);
      var next := Cancel(Classify(tf.delay, tf.poles[pi], z), tf, pi, zi, z);
      Success(next.(specialRule := HasPositive(next.zeros)))
  }

  /* ---------------------------------------------------------------------
     The loop
     --------------------------------------------------------------------- */

  /** The while loop of newTf, entered with the flag set: each pass removes
      one zero, so the loop ends. */
  function ResolveLoop(tf: TF): (r: Result<TF>)
    ensures r.Success? ==> !r.value.specialRule && !HasPositive(r.value.zeros)
    ensures r.Success? ==> r.value.delay == tf.delay
    ensures r.Success? ==> |r.value.poles| <= |tf.poles|
    ensures r.Success? && SortedDesc(tf.zeros) ==> SortedDesc(r.value.zeros)
    ensures |tf.poles| == 0 ==> r.Failure?
    decreases |tf.zeros|
  {
    match Iterate(tf)
    case Failure(f) => Failure(f)
    case Success(next) =>
      if next.specialRule then ResolveLoop(next) else Success(next.(specialRule := false))
  }

  /** newTf: runs the loop while the stored flag is set, then clears the flag.
      When the flag is set the result has no positive zero left; the delay
      never changes and the pole count never grows. */
  function Resolve(tf: TF): (r: Result<TF>)
    ensures r.Success? ==> !r.value.specialRule
    ensures r.Success? && (tf.specialRule || !HasPositive(tf.zeros)) ==> !HasPositive(r.value.zeros)
    ensures r.Success? ==> r.value.delay == tf.delay
    ensures r.Success? ==> |r.value.poles| <= |tf.poles|
    ensures r.Success? && SortedDesc(tf.zeros) ==> SortedDesc(r.value.zeros)
    ensures tf.specialRule && |tf.poles| == 0 ==> r.Failure?
    ensures !tf.specialRule ==> r == Success(tf)
  {
    if tf.specialRule then ResolveLoop(tf) else Success(tf.(specialRule := false))
  }

  /* ---------------------------------------------------------------------
     Properties of the loop
     --------------------------------------------------------------------- */

  /** With a positive zero and a pole, an iteration is the rewrite of the
      case chosen for the first positive zero and its nearest pole. */
  lemma IterateStep(tf: TF)
    requires HasPositive(tf.zeros) && |tf.poles| > 0
    ensures
      var zi := FirstPositive(tf.zeros);
      var z := tf.zeros[zi];
      var pi := NearestPoleIndex(z, tf.poles);
      var next := Cancel(Classify(tf.delay, tf.poles[pi], z), tf, pi, zi, z);
      Iterate(tf) == Success(next.(specialRule := HasPositive(next.zeros)))
  {
    var zi := FirstPositive(tf.zeros);
    assert ZeroCandidate(tf.zeros) == (zi, tf.zeros[zi]);
  }

  /** One iteration with a positive zero and a pole: the candidate zero is the
      first positive one, the candidate pole the nearest one, and the model
      loses exactly those two, MIN adding back the strictly positive pole
      p - z at the end of the list. */
  lemma CandidateCancellation(tf: TF)
    requires HasPositive(tf.zeros) && |tf.poles| > 0
    ensures
      var zi := FirstPositive(tf.zeros);
      var z := tf.zeros[zi];
      var pi := NearestPoleIndex(z, tf.poles);
      var p := tf.poles[pi];
      var c := Classify(tf.delay, p, z);
      var r := Iterate(tf);
      && z > 0.0
      && r.Success?
      && r.value.zeros == RemoveAt(tf.zeros, zi)
      && (c == MIN ==> p - z > 0.0 && r.value.poles == RemoveAt(tf.poles, pi) + [p - z])
      && (c != MIN ==> r.value.poles == RemoveAt(tf.poles, pi))
  {
    IterateStep(tf);
    var zi := FirstPositive(tf.zeros);
    var z := tf.zeros[zi];
    var pi := NearestPoleIndex(z, tf.poles);
    var c := Classify(tf.delay, tf.poles[pi], z);
    if c == MIN {
      assert Abs(tf.poles[pi] - z) == tf.poles[pi] - z;
    }
  }

  /** Entered with a positive zero and at least as many poles as positive
      zeros, the loop never runs out of poles. */
  lemma {:induction false} LoopSucceeds(tf: TF)
    requires HasPositive(tf.zeros)
    requires |tf.poles| >= CountPositive(tf.zeros)
    ensures ResolveLoop(tf).Success?
    decreases |tf.zeros|
  {
    HasPositiveCount(tf.zeros);
    CandidateCancellation(tf);
    RemoveFirstPositive(tf.zeros);
    var next := Iterate(tf).value;
    if next.specialRule {
      LoopSucceeds(next);
    }
  }

  /** The loop removes exactly the positive zeros, keeping the others in
      order, and each positive zero costs at most one pole. */
  lemma {:induction false} LoopRemovesPositiveZeros(tf: TF)
    requires HasPositive(tf.zeros)
    ensures ResolveLoop(tf).Success? ==> ResolveLoop(tf).value.zeros == NonPositive(tf.zeros)
    ensures ResolveLoop(tf).Success? ==> |ResolveLoop(tf).value.poles| >= |tf.poles| - CountPositive(tf.zeros)
    decreases |tf.zeros|
  {
    if ResolveLoop(tf).Success? {
      CandidateCancellation(tf);
      RemoveFirstPositive(tf.zeros);
      var next := Iterate(tf).value;
      if next.specialRule {
        LoopRemovesPositiveZeros(next);
      } else {
        NoPositiveCount(next.zeros);
      }
    }
  }

  /** newTf on a model whose flag agrees with its zeros (as the constructor
      leaves it): it succeeds when there are at least as many poles as
      positive zeros, keeps exactly the non-positive zeros in order, and
      drops at most one pole per positive zero. */
  lemma ResolveConsistent(tf: TF)
    requires tf.specialRule <==> HasPositive(tf.zeros)
    ensures |tf.poles| >= CountPositive(tf.zeros) ==> Resolve(tf).Success?
    ensures Resolve(tf).Success? ==> Resolve(tf).value.zeros == NonPositive(tf.zeros)
    ensures Resolve(tf).Success? ==>
              |tf.poles| - CountPositive(tf.zeros) <= |Resolve(tf).value.poles| <= |tf.poles|
  {
    if tf.specialRule {
      if |tf.poles| >= CountPositive(tf.zeros) {
        LoopSucceeds(tf);
      }
      LoopRemovesPositiveZeros(tf);
    } else {
      NoPositiveCount(tf.zeros);
    }
  }

  /** a and b have the same sign. */
  predicate SameSign(a: real, b: real)
  {
    (a > 0.0 <==> b > 0.0) && (a < 0.0 <==> b < 0.0)
  }

  /** No division by zero can happen: either the delay is positive, or it is
      zero and every pole is positive. */
  predicate DivisorsNonZero(tf: TF)
  {
    tf.delay > 0.0 || (tf.delay == 0.0 && AllPositive(tf.poles))
  }

  lemma PositiveFactor(g: real, k: real)
    requires k > 0.0
    ensures SameSign(g * k, g)
  {
  }

  /** Without a zero divisor, the case chosen for a positive zero never
      divides by zero, and its gain update keeps a finite gain finite and of
      the same sign. */
  lemma CaseGainKeepsSign(g: real, delay: real, pole: real, zero: real)
    requires zero > 0.0
    requires delay > 0.0 || (delay == 0.0 && pole > 0.0)
    ensures
      var c := Classify(delay, pole, zero);
      var r := CaseGain(c, Finite(g), delay, pole, zero);
      && (c == ZPD || c == PZD ==> pole != 0.0)
      && (c == ZDP ==> delay != 0.0)
      && r.Finite?
      && SameSign(r.value, g)
  {
    match Classify(delay, pole, zero)
    case ZPD =>
      assert zero / pole > 0.0;
      PositiveFactor(g, zero / pole);
    case ZDP =>
      assert zero / delay > 0.0;
      PositiveFactor(g, zero / delay);
    case DZP =>
    case PZD =>
      assert zero / pole > 0.0;
      PositiveFactor(g, zero / pole);
    case MIN =>
      PositiveFactor(g, Min(pole, 5.0 * delay));
  }

  /** Every rewrite of a positive zero scales a finite gain by a positive
      factor, provided no division by zero can happen; the rewritten model
      still rules out division by zero. */
  lemma CancelKeepsGainSign(tf: TF, pi: nat, zi: nat, z: real)
    requires pi < |tf.poles| && zi < |tf.zeros| && z > 0.0
    requires tf.gain.Finite? && DivisorsNonZero(tf)
    ensures
      var r := Cancel(Classify(tf.delay, tf.poles[pi], z), tf, pi, zi, z);
      && r.gain.Finite?
      && SameSign(r.gain.value, tf.gain.value)
      && DivisorsNonZero(r)
  {
    var p := tf.poles[pi];
    var c := Classify(tf.delay, p, z);
    if tf.delay == 0.0 {
      assert p > 0.0;
      AllPositiveRemoveAt(tf.poles, pi);
      assert c != MIN;
    }
    CaseGainKeepsSign(tf.gain.value, tf.delay, p, z);
  }

  lemma IterateKeepsGainSign(tf: TF)
    requires HasPositive(tf.zeros) && |tf.poles| > 0
    requires tf.gain.Finite? && DivisorsNonZero(tf)
    ensures Iterate(tf).Success?
    ensures Iterate(tf).value.gain.Finite?
    ensures SameSign(Iterate(tf).value.gain.value, tf.gain.value)
    ensures DivisorsNonZero(Iterate(tf).value)
  {
    var zi := FirstPositive(tf.zeros);
    var z := tf.zeros[zi];
    CancelKeepsGainSign(tf, NearestPoleIndex(z, tf.poles), zi, z);
  }

  /** When no division by zero can happen, a finite gain stays finite through
      the whole loop and every rewrite scales it by a positive factor, so it
      keeps its sign. */
  lemma {:induction false} LoopKeepsGainSign(tf: TF)
    requires HasPositive(tf.zeros)
    requires tf.gain.Finite? && DivisorsNonZero(tf)
    ensures ResolveLoop(tf).Success? ==> ResolveLoop(tf).value.gain.Finite?
    ensures ResolveLoop(tf).Success? ==> SameSign(ResolveLoop(tf).value.gain.value, tf.gain.value)
    decreases |tf.zeros|
  {
    if ResolveLoop(tf).Success? {
      IterateKeepsGainSign(tf);
      var next := Iterate(tf).value;
      if next.specialRule {
        LoopKeepsGainSign(next);
      }
    }
  }
}
