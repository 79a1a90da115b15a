/** Concrete models worked through the reductions: the console driver's
    example and a few models that exhibit the less obvious behaviour. The
    lists are passed as parameters pinned by the precondition, which keeps
    the verifier from evaluating the sort on literals; the small facts about
    literals are lemmas of their own. */
module Scenarios {
  import opened RealSeq
  import opened TransferFunction
  import opened SpecialRule
  import opened Approximation
  import opened Builder

  /* ---------------------------------------------------------------------
     The console driver's model: gain 1, delay 5, zeros -1, -6, -3 and
     poles 4, 1, 10, 20
     --------------------------------------------------------------------- */

  lemma MainZerosSorted(zeros: seq<real>)
    requires zeros == [-1.0, -6.0, -3.0]
    ensures multiset([-1.0, -3.0, -6.0]) == multiset(zeros)
    ensures SortedDesc([-1.0, -3.0, -6.0])
    ensures !HasPositive([-1.0, -3.0, -6.0])
  {
  }

  lemma MainPolesSorted(poles: seq<real>)
    requires poles == [4.0, 1.0, 10.0, 20.0]
    ensures multiset([20.0, 10.0, 4.0, 1.0]) == multiset(poles)
    ensures SortedDesc([20.0, 10.0, 4.0, 1.0])
  {
  }

  lemma MainExampleNormalised(zeros: seq<real>, poles: seq<real>)
    requires zeros == [-1.0, -6.0, -3.0] && poles == [4.0, 1.0, 10.0, 20.0]
    ensures Construct(Finite(1.0), 5.0, zeros, poles)
         == TF(Finite(1.0), 5.0, [-1.0, -3.0, -6.0], [20.0, 10.0, 4.0, 1.0], false)
  {
    MainZerosSorted(zeros);
    MainPolesSorted(poles);
    ConstructCanonical(Finite(1.0), 5.0, zeros, poles, [-1.0, -3.0, -6.0], [20.0, 10.0, 4.0, 1.0]);
  }

  lemma MainZerosLag()
    ensures SumAbs([-1.0, -3.0, -6.0]) == 10.0
  {
    assert [-1.0, -3.0, -6.0][1..] == [-3.0, -6.0];
    assert [-3.0, -6.0][1..] == [-6.0];
    assert [-6.0][1..] == [];
  }

  lemma MainTailLag()
    ensures Sum([20.0, 10.0, 4.0, 1.0][1..]) == 15.0
    ensures Sum([20.0, 10.0, 4.0, 1.0][3..]) == 1.0
  {
    SumSingleton(1.0);
    assert [20.0, 10.0, 4.0, 1.0][1..] == [10.0, 4.0, 1.0];
    assert [20.0, 10.0, 4.0, 1.0][3..] == [1.0];
    assert [10.0, 4.0, 1.0][1..] == [4.0, 1.0];
    assert [4.0, 1.0][1..] == [1.0];
  }

  /** General FOPDT of the driver's model: the pole 20 is kept and the delay
      becomes 5 + 10 + 4 + 1 + 1 + 6 + 3 = 30. */
  lemma MainExampleFopdt(zeros: seq<real>, poles: seq<real>)
    requires zeros == [-1.0, -6.0, -3.0] && poles == [4.0, 1.0, 10.0, 20.0]
    ensures Fopdt(Construct(Finite(1.0), 5.0, zeros, poles), false)
         == Success(TF(Finite(1.0), 30.0, [], [20.0], false))
  {
    MainExampleNormalised(zeros, poles);
    MainTailLag();
    MainZerosLag();
    ConstructFirstOrder(Finite(1.0), 30.0, 20.0);
  }

  lemma PairSorted(pair: seq<real>)
    requires pair == [20.0, 12.0]
    ensures multiset(pair) == multiset{20.0, 10.0 + 4.0 / 2.0}
    ensures SortedDesc(pair)
  {
  }

  /** SOPDT of the driver's model: half of the third pole (4) moves into the
      second, so the poles are 20 and 12, and the delay is
      5 + 2 + 1 + 1 + 6 + 3 = 18. */
  lemma MainExampleSopdt(zeros: seq<real>, poles: seq<real>)
    requires zeros == [-1.0, -6.0, -3.0] && poles == [4.0, 1.0, 10.0, 20.0]
    ensures Sopdt(Construct(Finite(1.0), 5.0, zeros, poles))
         == Success(TF(Finite(1.0), 18.0, [], [20.0, 12.0], false))
  {
    MainExampleNormalised(zeros, poles);
    MainTailLag();
    MainZerosLag();
    var pair: seq<real> := [20.0, 12.0];
    PairSorted(pair);
    var none: seq<real> := [];
    var r := Sopdt(TF(Finite(1.0), 5.0, [-1.0, -3.0, -6.0], [20.0, 10.0, 4.0, 1.0], false)).value;
    SortedDescUnique(r.poles, pair);
    SortedDescUnique(r.zeros, none);
  }

  /* ---------------------------------------------------------------------
     The default model
     --------------------------------------------------------------------- */

  /** The default model is already first order: reducing it by either method
      returns it without its zero (which contributes |0| to the delay). */
  lemma DefaultModelFopdt(skogestad: bool)
    ensures Fopdt(BuildTransferFunction(), skogestad) == Success(TF(Finite(1.0), 0.0, [], [1.0], false))
  {
    var tf := BuildTransferFunction();
    assert tf.poles[1..] == [];
    assert tf.zeros[1..] == [];
    ConstructFirstOrder(Finite(1.0), 0.0, 1.0);
  }

  /* ---------------------------------------------------------------------
     A single positive zero 5, delay 0, poles 1, 10, 20, 30
     --------------------------------------------------------------------- */

  lemma SingleZeroSorted(poles: seq<real>)
    requires poles == [1.0, 10.0, 20.0, 30.0]
    ensures multiset([30.0, 20.0, 10.0, 1.0]) == multiset(poles)
    ensures SortedDesc([30.0, 20.0, 10.0, 1.0])
    ensures SortedDesc([5.0]) && HasPositive([5.0])
  {
    assert [5.0][0] > 0.0;
  }

  lemma SingleZeroNearest(sorted: seq<real>)
    requires sorted == [30.0, 20.0, 10.0, 1.0]
    ensures NearestPoleIndex(5.0, sorted) == 3
  {
    assert Dist(5.0, sorted[0]) == 25.0;
    assert Dist(5.0, sorted[1]) == 15.0;
    assert Dist(5.0, sorted[2]) == 5.0;
    assert Dist(5.0, sorted[3]) == 4.0;
    assert WithinSentinel(5.0, sorted, 4);
  }

  lemma SingleZeroRemovals(sorted: seq<real>)
    requires sorted == [30.0, 20.0, 10.0, 1.0]
    ensures RemoveAt(sorted, 3) == [30.0, 20.0, 10.0]
    ensures RemoveAt([5.0], 0) == []
    ensures !HasPositive([])
  {
  }

  /** The nearest pole to 5 is 1, the triple is ZPD (5 >= 1 >= 0), the gain
      becomes 5 / 1, and the zero and the pole 1 are cancelled. */
  lemma SinglePositiveZero(zeros: seq<real>, poles: seq<real>)
    requires zeros == [5.0] && poles == [1.0, 10.0, 20.0, 30.0]
    ensures Resolve(Construct(Finite(1.0), 0.0, zeros, poles))
         == Success(TF(Finite(5.0), 0.0, [], [30.0, 20.0, 10.0], false))
  {
    var sorted: seq<real> := [30.0, 20.0, 10.0, 1.0];
    SingleZeroSorted(poles);
    ConstructCanonical(Finite(1.0), 0.0, zeros, poles, zeros, sorted);
    var tf := TF(Finite(1.0), 0.0, zeros, sorted, true);
    assert ZeroCandidate(tf.zeros) == (0, 5.0);
    SingleZeroNearest(sorted);
    assert Classify(0.0, 1.0, 5.0) == ZPD;
    SingleZeroRemovals(sorted);
    var next := Cancel(ZPD, tf, 3, 0, 5.0);
    assert next.gain == Finite(5.0);
    assert next == TF(Finite(5.0), 0.0, [], [30.0, 20.0, 10.0], true);
    assert Iterate(tf) == Success(next.(specialRule := false));
  }

  /* ---------------------------------------------------------------------
     MIN leaves the poles unsorted: delay 1, zero 4, poles 5, 0.5
     --------------------------------------------------------------------- */

  lemma UnsortedFacts(poles: seq<real>)
    requires poles == [5.0, 0.5]
    ensures SortedDesc(poles) && SortedDesc([4.0]) && HasPositive([4.0])
    ensures NearestPoleIndex(4.0, poles) == 0
    ensures RemoveAt(poles, 0) == [0.5] && RemoveAt([4.0], 0) == []
    ensures [0.5, 1.0][1..] == [1.0]
  {
    assert [4.0][0] > 0.0;
    assert Dist(4.0, poles[0]) == 1.0;
    assert Dist(4.0, poles[1]) == 3.5;
    assert WithinSentinel(4.0, poles, 2);
  }

  lemma UnsortedCancel(tf: TF)
    requires tf == TF(Finite(1.0), 1.0, [4.0], [5.0, 0.5], true)
    ensures Cancel(MIN, tf, 0, 0, 4.0) == TF(Finite(5.0), 1.0, [], [0.5, 1.0], true)
  {
    UnsortedFacts(tf.poles);
    var next := Cancel(MIN, tf, 0, 0, 4.0);
    assert next.gain == Finite(5.0);
    assert next.poles == [0.5] + [1.0];
  }

  lemma UnsortedStep(tf: TF)
    requires tf == TF(Finite(1.0), 1.0, [4.0], [5.0, 0.5], true)
    ensures Resolve(tf) == Success(TF(Finite(5.0), 1.0, [], [0.5, 1.0], false))
  {
    UnsortedFacts(tf.poles);
    assert ZeroCandidate(tf.zeros) == (0, 4.0);
    assert Classify(1.0, 5.0, 4.0) == MIN;
    UnsortedCancel(tf);
    assert Iterate(tf) == Success(TF(Finite(5.0), 1.0, [], [0.5, 1.0], false));
  }

  /** The nearest pole to 4 is 5, MIN applies (min(5, 5) >= 4), the gain
      becomes 1 * 5 and the poles become 0.5, 1: the appended pole comes
      after a smaller one. The general FOPDT then keeps 0.5, not the larger
      1, and moves 1 into the delay. */
  lemma UnsortedReduce(resolved: TF)
    requires resolved == TF(Finite(5.0), 1.0, [], [0.5, 1.0], false)
    ensures FopdtGen(resolved) == Success(TF(Finite(5.0), 2.0, [], [0.5], false))
  {
    assert resolved.poles[1..] == [1.0];
    SumSingleton(1.0);
    ConstructFirstOrder(Finite(5.0), 2.0, 0.5);
  }

  lemma ResolvedPolesMayBeUnsorted(zeros: seq<real>, poles: seq<real>)
    requires zeros == [4.0] && poles == [5.0, 0.5]
    ensures Resolve(Construct(Finite(1.0), 1.0, zeros, poles))
         == Success(TF(Finite(5.0), 1.0, [], [0.5, 1.0], false))
    ensures Fopdt(Construct(Finite(1.0), 1.0, zeros, poles), false)
         == Success(TF(Finite(5.0), 2.0, [], [0.5], false))
  {
    UnsortedFacts(poles);
    ConstructCanonical(Finite(1.0), 1.0, zeros, poles, zeros, poles);
    var tf := TF(Finite(1.0), 1.0, zeros, poles, true);
    UnsortedStep(tf);
    UnsortedReduce(TF(Finite(5.0), 1.0, [], [0.5, 1.0], false));
  }

  /* ---------------------------------------------------------------------
     A negative pole
     --------------------------------------------------------------------- */

  lemma NegativePoleFacts(poles: seq<real>)
    requires poles == [1.0, -4.0]
    ensures SortedDesc(poles) && poles[1..] == [-4.0]
  {
  }

  /** With a negative pole the lumped delay can be smaller than the original
      delay: delay 3 and poles 1, -4 reduce to delay |3 - 4| = 1. */
  lemma NegativePoleShrinksDelay(zeros: seq<real>, poles: seq<real>)
    requires zeros == [] && poles == [1.0, -4.0]
    ensures Fopdt(Construct(Finite(1.0), 3.0, zeros, poles), false)
         == Success(TF(Finite(1.0), 1.0, [], [1.0], false))
  {
    NegativePoleFacts(poles);
    ConstructCanonical(Finite(1.0), 3.0, zeros, poles, zeros, poles);
    SumSingleton(-4.0);
    ConstructFirstOrder(Finite(1.0), 1.0, 1.0);
  }
}
