/** The transfer-function value object: gain, delay, zeros and poles, with
    the normalisation its constructor performs and the element primitives
    the special rule uses to rewrite it. */
module TransferFunction {
  import opened RealSeq

  /** The gain. The Java code keeps it as a double and divides by the delay or
      by a pole without checking for zero; the resulting infinity or NaN is
      represented by NonFinite. Multiplying a non-finite double by anything
      leaves it non-finite, so NonFinite absorbs every later scaling. */
  datatype Gain = Finite(value: real) | NonFinite

  /** gain * k */
  function Scale(g: Gain, k: real): (r: Gain)
    ensures r.Finite? <==> g.Finite?
    ensures r.Finite? ==> r.value == g.value * k
  {
    match g
    case Finite(v) => Finite(v * k)
    case NonFinite => NonFinite
  }

  /** gain * (num / den), with division by zero giving a non-finite gain. */
  function ScaleRatio(g: Gain, num: real, den: real): (r: Gain)
    ensures r.Finite? <==> g.Finite? && den != 0.0
    ensures r.Finite? ==> r.value * den == g.value * num
  {
    if den == 0.0 then NonFinite else Scale(g, num / den)
  }

  /** A transfer function. specialRule is a stored flag, as in the Java class:
      the constructor derives it from the zeros, the special rule rewrites
      it, and nothing recomputes it when the zeros change otherwise. */
  datatype TF = TF(gain: Gain, delay: real, zeros: seq<real>, poles: seq<real>, specialRule: bool)

  /** The only failure the core can raise: java.util.List indexing past the
      end (get(0) on an empty pole list, remove(0) on an empty zero list). */
  datatype Fault = IndexOutOfBounds

  datatype Result<T> = Success(value: T) | Failure(fault: Fault)

  /** What the constructor guarantees. */
  predicate WellFormed(tf: TF)
  {
    && tf.delay >= 0.0
    && SortedDesc(tf.poles)
    && SortedDesc(tf.zeros)
    && (tf.specialRule <==> HasPositive(tf.zeros))
  }

  /** The constructor: delay made non-negative, poles and zeros sorted so the
      largest comes first, and the special-rule flag set when some zero is
      strictly positive. */
  function Construct(gain: Gain, delay: real, zeros: seq<real>, poles: seq<real>): (tf: TF)
    ensures tf.gain == gain
    ensures tf.delay >= 0.0 && (tf.delay == delay || tf.delay == -delay)
    ensures SortedDesc(tf.poles) && multiset(tf.poles) == multiset(poles)
    ensures SortedDesc(tf.zeros) && multiset(tf.zeros) == multiset(zeros)
    ensures tf.specialRule <==> exists i :: 0 <= i < |zeros| && zeros[i] > 0.0
    ensures WellFormed(tf)
  {
    var sortedZeros := SortDesc(zeros);
    HasPositivePermutation(sortedZeros, zeros);
    TF(gain, Abs(delay), sortedZeros, SortDesc(poles), FirstPositive(sortedZeros) < |sortedZeros|)
  }

  /** Any descending arrangement of the same poles and zeros is what the
      constructor produces: sorting leaves no choice. */
  lemma ConstructCanonical(gain: Gain, delay: real, zeros: seq<real>, poles: seq<real>,
                           sortedZeros: seq<real>, sortedPoles: seq<real>)
    requires delay >= 0.0
    requires SortedDesc(sortedZeros) && multiset(sortedZeros) == multiset(zeros)
    requires SortedDesc(sortedPoles) && multiset(sortedPoles) == multiset(poles)
    ensures Construct(gain, delay, zeros, poles)
         == TF(gain, delay, sortedZeros, sortedPoles, HasPositive(sortedZeros))
  {
    var tf := Construct(gain, delay, zeros, poles);
    SortedDescUnique(tf.zeros, sortedZeros);
    SortedDescUnique(tf.poles, sortedPoles);
  }

  /** removeZero: deletes zero i; the flag is left as it was. */
  function RemoveZero(tf: TF, i: nat): (r: TF)
    requires i < |tf.zeros|
    ensures |r.zeros| == |tf.zeros| - 1
    ensures r.zeros[..i] == tf.zeros[..i] && r.zeros[i..] == tf.zeros[i + 1..]
    ensures SortedDesc(tf.zeros) ==> SortedDesc(r.zeros)
    ensures r == tf.(zeros := r.zeros)
  {
    tf.(zeros := RemoveAt(tf.zeros, i))
  }

  /** removePole: deletes pole i. */
  function RemovePole(tf: TF, i: nat): (r: TF)
    requires i < |tf.poles|
    ensures |r.poles| == |tf.poles| - 1
    ensures r.poles[..i] == tf.poles[..i] && r.poles[i..] == tf.poles[i + 1..]
    ensures SortedDesc(tf.poles) ==> SortedDesc(r.poles)
    ensures r == tf.(poles := r.poles)
  {
    tf.(poles := RemoveAt(tf.poles, i))
  }

  /** addToPoles: appends a pole at the end, without re-sorting. */
  function AddToPoles(tf: TF, p: real): (r: TF)
    ensures |r.poles| == |tf.poles| + 1
    ensures r.poles[..|tf.poles|] == tf.poles && r.poles[|tf.poles|] == p
    ensures r == tf.(poles := r.poles)
  {
    tf.(poles := tf.poles + [p])
  }
}
