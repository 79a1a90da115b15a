/** The reductions of TransferFunction: first-order-plus-dead-time models
    (the general method and Skogestad's half rule) and the
    second-order-plus-dead-time model. Each folds the poles it drops, and
    the absolute values of all zeros, into the delay. */
module Approximation {
  import opened RealSeq
  import opened TransferFunction
  import opened SpecialRule

  /** The delay plus every pole plus the absolute value of every zero: the
      total lag a reduction redistributes between delay and poles. */
  function TotalLag(tf: TF): real
  {
    tf.delay + Sum(tf.poles) + SumAbs(tf.zeros)
  }

  /** A model with one pole and no zeros, as the FOPDT reductions return. */
  predicate FirstOrder(tf: TF)
  {
    |tf.poles| == 1 && tf.zeros == [] && !tf.specialRule && tf.delay >= 0.0
  }

  /** fopdtGen: keeps the first pole, adds the others and the absolute values
      of the zeros to the delay. */
  function FopdtGen(tf: TF): (r: Result<TF>)
    ensures r.Success? <==> |tf.poles| > 0
    ensures r.Success? ==> FirstOrder(r.value) && r.value.gain == tf.gain
    ensures r.Success? ==> r.value.poles == [tf.poles[0]]
  {
    if |tf.poles| == 0 then Failure(IndexOutOfBounds)
    else
      var lumped := tf.delay + Sum(tf.poles[1..]) + SumAbs(tf.zeros);
      Success(Construct(tf.gain, lumped, [], [tf.poles[0]]))
  }

  /** fopdtSkotesgad: with two or more poles, half of the second pole moves
      into the first and the other half into the delay, together with the
      remaining poles and the absolute values of the zeros; with fewer poles
      the general method is used. */
  function FopdtSkogestad(tf: TF): (r: Result<TF>)
    ensures |tf.poles| < 2 ==> r == FopdtGen(tf)
    ensures r.Success? <==> |tf.poles| > 0
    ensures r.Success? ==> FirstOrder(r.value) && r.value.gain == tf.gain
    ensures |tf.poles| >= 2 ==> r.Success? && r.value.poles == [tf.poles[0] + tf.poles[1] / 2.0]
  {
    if |tf.poles| < 2 then FopdtGen(tf)
    else
      var half := tf.poles[1] / 2.0;
      var lumped := tf.delay + half + Sum(tf.poles[2..]) + SumAbs(tf.zeros);
      Success(Construct(tf.gain, lumped, [], [tf.poles[0] + half]))
  }

  /** fopdt: resolves the positive zeros first when the flag is set, then
      applies the chosen method. The resolved model has the flag cleared, so
      the recursion is one level deep. */
  function Fopdt(tf: TF, skogestad: bool): (r: Result<TF>)
    ensures r.Success? ==> FirstOrder(r.value)
    ensures !tf.specialRule ==> (r.Success? <==> |tf.poles| > 0)
    ensures !tf.specialRule ==> r.Success? ==> r.value.gain == tf.gain
    ensures r.Success? ==> r.value.delay >= 0.0
    decreases if tf.specialRule then 1 else 0
  {
    if tf.specialRule then
      match Resolve(tf)
      case Failure(f) => Failure(f)
      case Success(resolved) => Fopdt(resolved, skogestad)
    else if skogestad then FopdtSkogestad(tf)
    else FopdtGen(tf)
  }

  /** sopdt: with fewer than three poles, the Skogestad FOPDT; otherwise
      (after resolving positive zeros) the first pole is kept, half of the
      third pole moves into the second and the other half into the delay,
      with the remaining poles and the absolute values of the zeros. The two
      poles are re-sorted by the constructor. */
  function Sopdt(tf: TF): (r: Result<TF>)
    ensures |tf.poles| < 3 ==> r == Fopdt(tf, true)
    ensures r.Success? ==> r.value.zeros == [] && !r.value.specialRule && r.value.delay >= 0.0
    ensures r.Success? ==> 1 <= |r.value.poles| <= 2 && SortedDesc(r.value.poles)
    ensures !tf.specialRule && |tf.poles| >= 3 ==>
              && r.Success?
              && r.value.gain == tf.gain
              && |r.value.poles| == 2
              && multiset(r.value.poles) == multiset{tf.poles[0], tf.poles[1] + tf.poles[2] / 2.0}
    decreases if tf.specialRule then 1 else 0
  {
    if |tf.poles| < 3 then Fopdt(tf, true)
    else if tf.specialRule then
      match Resolve(tf)
      case Failure(f) => Failure(f)
      case Success(resolved) => Sopdt(resolved)
    else
      var half := tf.poles[2] / 2.0;
      var lumped := tf.delay + half + Sum(tf.poles[3..]) + SumAbs(tf.zeros);
      Success(Construct(tf.gain, lumped, [], [tf.poles[0], tf.poles[1] + half]))
  }

  /* ---------------------------------------------------------------------
     Properties
     --------------------------------------------------------------------- */

  lemma SumSingleton(x: real)
    ensures Sum([x]) == x
  {
    assert [x][1..] == [];
  }

  lemma SumTail(s: seq<real>)
    requires |s| > 0
    ensures Sum(s) == s[0] + Sum(s[1..])
  {
  }

  lemma SumFirstThree(p: seq<real>)
    requires |p| >= 3
    ensures Sum(p) == p[0] + p[1] + p[2] + Sum(p[3..])
  {
    SumTail(p);
    SumTail(p[1..]);
    SumTail(p[2..]);
    assert p[1..][1..] == p[2..];
    assert p[2..][1..] == p[3..];
  }

  /** A model built from a single pole and no zeros keeps them as given. */
  lemma ConstructFirstOrder(g: Gain, d: real, p: real)
    requires d >= 0.0
    ensures Construct(g, d, [], [p]) == TF(g, d, [], [p], false)
  {
    var tf := Construct(g, d, [], [p]);
    SortedDescUnique(tf.poles, [p]);
    SortedDescUnique(tf.zeros, []);
  }

  /** The two poles of a second-order model add up to the pair they were
      built from, whichever order the constructor put them in. */
  lemma SumOfSortedPair(t: seq<real>, a: real, b: real)
    requires SortedDesc(t) && multiset(t) == multiset{a, b}
    ensures Sum(t) == a + b
  {
    assert multiset([a, b]) == multiset{a, b};
    assert multiset([b, a]) == multiset{a, b};
    if a >= b {
      SortedDescUnique(t, [a, b]);
    } else {
      SortedDescUnique(t, [b, a]);
    }
    assert Sum([a, b]) == a + Sum([b]);
    assert Sum([b, a]) == b + Sum([a]);
    SumSingleton(a);
    SumSingleton(b);
  }

  /** General method: whatever lag is not in the kept pole ends up in the
      delay (up to the constructor's absolute value); with a non-negative
      delay and non-negative poles the total lag is conserved and the delay
      does not shrink. */
  lemma FopdtGenLag(tf: TF)
    requires |tf.poles| > 0
    ensures FopdtGen(tf).value.delay == Abs(TotalLag(tf) - Sum(FopdtGen(tf).value.poles))
    ensures tf.delay >= 0.0 && AllNonNegative(tf.poles) ==>
              TotalLag(FopdtGen(tf).value) == TotalLag(tf) && FopdtGen(tf).value.delay >= tf.delay
  {
    var r := FopdtGen(tf).value;
    SumSingleton(tf.poles[0]);
    SumTail(tf.poles);
    if tf.delay >= 0.0 && AllNonNegative(tf.poles) {
      SumNonNegative(tf.poles[1..]);
    }
  }

  /** Skogestad's half rule: the same redistribution, with half of the
      second pole kept in the first. */
  lemma FopdtSkogestadLag(tf: TF)
    requires |tf.poles| >= 2
    ensures FopdtSkogestad(tf).value.delay == Abs(TotalLag(tf) - Sum(FopdtSkogestad(tf).value.poles))
    ensures tf.delay >= 0.0 && AllNonNegative(tf.poles) ==>
              && TotalLag(FopdtSkogestad(tf).value) == TotalLag(tf)
              && FopdtSkogestad(tf).value.delay >= tf.delay
  {
    var p := tf.poles;
    SumSingleton(p[0] + p[1] / 2.0);
    SumTail(p);
    SumTail(p[1..]);
    assert p[1..][1..] == p[2..];
    if tf.delay >= 0.0 && AllNonNegative(p) {
      SumNonNegative(p[2..]);
    }
  }

  /** SOPDT: the same redistribution, with half of the third pole kept in
      the second. */
  lemma SopdtLag(tf: TF)
    requires !tf.specialRule && |tf.poles| >= 3
    ensures Sopdt(tf).value.delay == Abs(TotalLag(tf) - Sum(Sopdt(tf).value.poles))
    ensures tf.delay >= 0.0 && AllNonNegative(tf.poles) ==>
              TotalLag(Sopdt(tf).value) == TotalLag(tf) && Sopdt(tf).value.delay >= tf.delay
  {
    var p := tf.poles;
    var r := Sopdt(tf).value;
    SumOfSortedPair(r.poles, p[0], p[1] + p[2] / 2.0);
    SumFirstThree(p);
    if tf.delay >= 0.0 && AllNonNegative(p) {
      SumNonNegative(p[3..]);
    }
  }

  /** Reducing a reduced model again, by either method, changes nothing. */
  lemma FopdtIdempotent(tf: TF, skogestad: bool, again: bool)
    requires Fopdt(tf, skogestad).Success?
    ensures Fopdt(Fopdt(tf, skogestad).value, again) == Fopdt(tf, skogestad)
  {
    var r := Fopdt(tf, skogestad).value;
    assert r.poles[1..] == [];
    ConstructFirstOrder(r.gain, r.delay, r.poles[0]);
    assert r == TF(r.gain, r.delay, [], [r.poles[0]], false);
  }

  /** With at most one pole the two FOPDT methods agree: the special rule
      never adds a pole, so Skogestad's method falls back to the general
      one. */
  lemma SkogestadWithOnePole(tf: TF)
    requires |tf.poles| <= 1
    ensures Fopdt(tf, true) == Fopdt(tf, false)
  {
  }

  /** sopdt on two poles is Skogestad's FOPDT, not the general method: the
      single pole includes half of the second one. */
  lemma SopdtWithTwoPoles(tf: TF)
    requires !tf.specialRule && |tf.poles| == 2
    ensures Sopdt(tf) == FopdtSkogestad(tf)
    ensures Sopdt(tf).value.poles == [tf.poles[0] + tf.poles[1] / 2.0]
    ensures tf.poles[1] != 0.0 ==> Sopdt(tf) != FopdtGen(tf)
  {
  }

  /** A model whose flag agrees with its zeros reduces without failure when
      it has more poles than positive zeros, and the result has no zeros. */
  lemma FopdtSucceeds(tf: TF, skogestad: bool)
    requires tf.specialRule <==> HasPositive(tf.zeros)
    requires |tf.poles| > CountPositive(tf.zeros)
    ensures Fopdt(tf, skogestad).Success?
    ensures Fopdt(tf, skogestad).value.zeros == []
  {
    ResolveConsistent(tf);
  }

  /** With the flag set, both reductions work on the resolver's output, whose
      flag is clear, so they reduce it directly without resolving again; a
      failure of the resolver is the reduction's failure. */
  lemma ResolveOnce(tf: TF, skogestad: bool)
    requires tf.specialRule
    ensures Resolve(tf).Failure? ==> Fopdt(tf, skogestad) == Resolve(tf)
    ensures Resolve(tf).Success? ==>
              var t := Resolve(tf).value;
              && !t.specialRule
              && Fopdt(tf, skogestad) == (if skogestad then FopdtSkogestad(t) else FopdtGen(t))
              && (|tf.poles| >= 3 ==> Sopdt(tf) == Sopdt(t))
  {
  }
}
