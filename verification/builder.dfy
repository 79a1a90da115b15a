/** TransferFunctionBuilder: the default model. */
module Builder {
  import opened TransferFunction
  import opened RealSeq

  /** buildTransferFunction: gain 1, delay 0, a single zero at 0 and a single
      pole at 1. Zero is not strictly positive, so the special rule is off. */
  function BuildTransferFunction(): (tf: TF)
    ensures tf.gain == Finite(1.0)
    ensures tf.delay == 0.0
    ensures tf.zeros == [0.0]
    ensures tf.poles == [1.0]
    ensures !tf.specialRule
    ensures WellFormed(tf)
  {
    var tf := Construct(Finite(1.0), 0.0, [0.0], [1.0]);
    SortedDescUnique(tf.zeros, [0.0]);
    SortedDescUnique(tf.poles, [1.0]);
    tf
  }
}
