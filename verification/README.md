# Transfer-function order reduction, modelled in Dafny

This project models the reduction engine of `tf_approximation`. The engine
takes a linear transfer function, given as a gain, a transport delay, a list
of poles and a list of zeros (all time constants). It reduces it to a
first-order-plus-dead-time (FOPDT) or second-order-plus-dead-time (SOPDT)
model. Two FOPDT methods are modelled: the general method and Skogestad's
half rule. Every reduction folds the poles it drops, and the absolute values
of all zeros, into the delay.

A model with a strictly positive zero first goes through the special rule.
The rule cancels positive zeros one per iteration. Each time it takes the
first (largest) positive zero. It picks the pole nearest to that zero. It
classifies the (delay, pole, zero) triple as ZPD, ZDP, DZP, PZD or MIN, and
rewrites gain, poles and zeros according to the case.

Numbers are Dafny `real`s. The model is functional: `TF` is an immutable
datatype, and every Java method that mutates a model becomes a function
that returns a new one.

Modules, in dependency order:

- `RealSeq` (`real_seq.dfy`): descending sort, removal by index, sums, and
  the scans for positive values.
- `TransferFunction` (`transfer_function.dfy`): the `TF` datatype, the
  constructor and the element primitives.
- `SpecialRule` (`special_rule.dfy`): nearest pole, classification, one
  iteration, and the loop.
- `Approximation` (`approximation.dfy`): `fopdt`, `fopdtGen`,
  `fopdtSkotesgad` (named `FopdtSkogestad` here) and `sopdt`.
- `Builder` (`builder.dfy`): the default model.
- `Scenarios` (`scenarios.dfy`): concrete models, worked through.

Modelling choices:

- **Gain.** Java divides by the pole (ZPD, PZD) or by the delay (ZDP)
  without a zero check, which gives an infinity or NaN. The gain is
  therefore `Finite(real) | NonFinite`. Multiplying a non-finite double by
  anything leaves it non-finite, and the gain never feeds a decision. So
  `NonFinite` absorbs later scaling, and poles, zeros and delay are computed
  exactly whatever happens to the gain. `SpecialRule.LoopKeepsGainSign`
  states a condition under which the gain stays finite and keeps its sign:
  the delay is positive, or it is zero and every pole is positive.
- **Index errors.** Where Java would throw `IndexOutOfBoundsException`, the
  model returns `Failure(IndexOutOfBounds)`. This covers `poles.get(0)` on
  an empty pole list, in a reduction or in the special rule. It also covers
  `removeZero(0)` when the flag is set but the zero list is empty.
- **The flag.** `specialRule` is stored, as in Java. `Resolve` has no
  precondition. If the flag is set but no zero is positive, the first
  iteration runs with Java's defaults: zero index 0, zero value 0.
- **Sorting.** `Collections.sort` followed by `Collections.reverse` is
  modelled by an insertion sort into descending order.
  `RealSeq.SortedDescUnique` proves that a descending arrangement of a
  multiset is unique. So any correct sort gives the same list, and
  stability does not matter.

Behaviour of the Java code that the proofs make explicit:

- **Pole order after MIN.** MIN appends the new pole at the end of the
  list, so the poles can be out of order after the special rule. The
  reductions still keep `poles[0]` as the dominant pole, even when it is not
  the largest. `Scenarios.ResolvedPolesMayBeUnsorted` shows this: poles 5
  and 0.5 become 0.5 and 1, and the FOPDT keeps 0.5.
- **A negative pole can shrink the delay.** A reduction is guaranteed not
  to shrink the delay when the delay and the poles are non-negative
  (`Approximation.FopdtGenLag` and its siblings). With a negative pole it
  can: in `Scenarios.NegativePoleShrinksDelay` the delay drops from 3 to 1.
- **The fallback branch is unreachable.** Over the reals the five case
  conditions cover every (delay, pole, zero) triple, so the branch that only
  removes the zero is never taken (`SpecialRule.Classify`).
- **Main's SOPDT.** The console driver's model reduces to delay 18 with
  poles 20 and 12. Its sorted poles are 20, 10, 4, 1, so half of 4 moves
  into 10.

## Model

| member | source | states |
|---|---|---|
| `RealSeq.SortDesc` | src/function/TransferFunction.java:47-54 | the result is in descending order and has the same elements, with multiplicity, as the input |
| `RealSeq.SortedDescUnique` | src/function/TransferFunction.java:47-54 | two descending lists with the same multiset are equal, so the constructor's order is the only possible one |
| `TransferFunction.Construct` | src/function/TransferFunction.java:40-66 | gain kept; delay is the input or its negation and is non-negative; poles and zeros are descending permutations of the inputs; the flag holds exactly when some input zero is strictly positive |
| `TransferFunction.ConstructCanonical` | src/function/TransferFunction.java:42-64 | for a non-negative delay, the constructed model is the given gain and delay with any descending arrangement of the zeros and poles, and the flag says whether one of those zeros is positive |
| `TransferFunction.RemoveZero` | src/function/TransferFunction.java:108-110 | needs an index in range; exactly that zero is deleted, the others keep their order (descending order is preserved); no other field changes, the flag included |
| `TransferFunction.RemovePole` | src/function/TransferFunction.java:117-119 | needs an index in range; exactly that pole is deleted, the others keep their order (descending order is preserved); no other field changes |
| `TransferFunction.AddToPoles` | src/function/TransferFunction.java:126-128 | the pole is appended after the existing ones, which are unchanged; no other field changes |
| `SpecialRule.NearestPoleIndex` | src/function/SpecialRule.java:141-160 | in range for a non-empty pole list; when some pole lies within 9999 of the zero, the first pole whose distance to the zero is minimal; otherwise index 0 |
| `RealSeq.FirstPositive` | src/function/SpecialRule.java:49-58 | the index of the first strictly positive element, every element before it non-positive; the length of the list exactly when no element is positive |
| `SpecialRule.ZeroCandidate` | src/function/SpecialRule.java:40-58 | with a positive zero, the index and value of the first positive zero; otherwise index 0 and value 0, the initial values of the scan |
| `SpecialRule.IsZPD` | src/function/SpecialRule.java:169-171 | an accepted triple has the zero at or above the delay as well |
| `SpecialRule.IsZDP` | src/function/SpecialRule.java:173-175 | an accepted triple has the zero at or above the pole as well |
| `SpecialRule.IsDZP` | src/function/SpecialRule.java:177-179 | an accepted triple has the delay at or above the pole as well |
| `SpecialRule.IsPZD` | src/function/SpecialRule.java:181-183 | an accepted triple has the pole at or above five times the delay as well |
| `SpecialRule.IsMIN` | src/function/SpecialRule.java:185-187 | accepts exactly when the zero lies at or below both the pole and five times the delay |
| `SpecialRule.Classify` | src/function/SpecialRule.java:65-114 | the chosen case accepts the triple and no case before it in the order ZPD, ZDP, DZP, PZD, MIN does; the fallback is never chosen for any real triple; MIN is chosen only when the zero lies strictly below the pole |
| `SpecialRule.CaseGain` | src/function/SpecialRule.java:65-108 | the gain stays finite exactly when it was finite and the case does not divide by zero; when finite, ZPD and PZD give gain' * p = gain * z, ZDP gives gain' * delay = gain * z, MIN multiplies by min(p, 5 delay), DZP and the fallback keep the gain |
| `SpecialRule.Cancel` | src/function/SpecialRule.java:65-114 | per case: ZPD and PZD scale the gain by z/p, ZDP by z/d, MIN by min(p, 5d), DZP leaves it; the four non-MIN cases delete the candidate pole, MIN deletes it and appends abs(p - z); every case deletes the candidate zero, the fallback deletes only it; delay and flag untouched |
| `SpecialRule.Iterate` | src/function/SpecialRule.java:39-123 | succeeds exactly when there is a pole and a zero to remove; one zero fewer, delay unchanged, at most one pole fewer and never more poles; the flag is recomputed as "some zero is positive"; descending zeros stay descending |
| `SpecialRule.CandidateCancellation` | src/function/SpecialRule.java:49-108 | with a positive zero and a pole, the zero removed is the first positive one and the pole removed is the nearest one; MIN adds back exactly p - z, which is strictly positive |
| `SpecialRule.ResolveLoop` | src/function/SpecialRule.java:37-124 | on success no zero is positive and the flag is clear; the delay is unchanged; the pole count never grows; descending zeros stay descending; fails on an empty pole list |
| `SpecialRule.Resolve` | src/function/SpecialRule.java:30-131 | the flag is cleared; if the flag was set, or no zero was positive, no positive zero remains; delay unchanged; pole count never grows; a clear flag returns the model as it was |
| `SpecialRule.LoopSucceeds` | src/function/SpecialRule.java:61-62 | with at least as many poles as positive zeros, no iteration meets an empty pole list |
| `SpecialRule.LoopRemovesPositiveZeros` | src/function/SpecialRule.java:49-113 | the loop removes exactly the positive zeros and keeps the non-positive ones in their order; each positive zero costs at most one pole |
| `SpecialRule.ResolveConsistent` | src/function/SpecialRule.java:30-131 | for a flag that matches the zeros: success when poles are at least as many as positive zeros; the zeros left are exactly the non-positive ones, in order; the pole count drops by at most the number of positive zeros |
| `SpecialRule.CaseGainKeepsSign` | src/function/SpecialRule.java:65-108 | for a positive zero, with a positive delay or a zero delay and a positive pole, the case chosen never divides by zero and its gain update keeps a finite gain finite and of the same sign |
| `SpecialRule.CancelKeepsGainSign` | src/function/SpecialRule.java:65-108 | one rewrite keeps a finite gain finite and of the same sign, and keeps the no-zero-divisor condition |
| `SpecialRule.LoopKeepsGainSign` | src/function/SpecialRule.java:37-124 | when the delay is positive, or zero with every pole positive, a finite gain stays finite and keeps its sign through the whole loop |
| `Approximation.FopdtGen` | src/function/TransferFunction.java:221-244 | succeeds exactly when there is a pole; one pole, equal to the first pole; no zeros; flag clear; gain unchanged; non-negative delay |
| `Approximation.FopdtGenLag` | src/function/TransferFunction.java:224-236 | the new delay is the absolute value of the total lag (delay + all poles + absolute zeros) minus the kept pole; with non-negative delay and poles the total lag is conserved and the delay does not shrink |
| `Approximation.FopdtSkogestad` | src/function/TransferFunction.java:251-280 | with fewer than two poles it is the general method; otherwise a single pole p0 + p1/2, no zeros, gain unchanged, flag clear |
| `Approximation.FopdtSkogestadLag` | src/function/TransferFunction.java:258-272 | the new delay is the absolute value of the total lag minus the new pole (d + p1/2 + the poles from the third on + absolute zeros); conservation and no shrinking for non-negative delay and poles |
| `Approximation.Fopdt` | src/function/TransferFunction.java:198-214 | on success a first-order model: one pole, no zeros, flag clear, non-negative delay; with the flag clear it succeeds exactly when there is a pole and keeps the gain |
| `Approximation.Sopdt` | src/function/TransferFunction.java:290-330 | with fewer than three poles it is the Skogestad FOPDT; with a clear flag and three or more poles it gives exactly two poles, the multiset {p0, p1 + p2/2} in descending order, no zeros, the same gain |
| `Approximation.SopdtLag` | src/function/TransferFunction.java:304-319 | the new delay is the absolute value of the total lag minus the two new poles (d + p2/2 + the poles from the fourth on + absolute zeros); conservation and no shrinking for non-negative delay and poles |
| `Approximation.ResolveOnce` | src/function/TransferFunction.java:200-204 | with the flag set, fopdt reduces the resolver's output directly (its flag is clear), sopdt with three or more poles recurses on it, and a resolver failure is the reduction's failure |
| `Approximation.FopdtIdempotent` | src/function/TransferFunction.java:221-244 | reducing a reduced model again, by either method, returns the same model |
| `Approximation.SkogestadWithOnePole` | src/function/TransferFunction.java:254-256 | with at most one pole, the two FOPDT methods give the same result, also after the special rule |
| `Approximation.SopdtWithTwoPoles` | src/function/TransferFunction.java:292-296 | sopdt on two poles is Skogestad's FOPDT with pole p0 + p1/2, which differs from the general method whenever p1 is not zero |
| `Approximation.FopdtSucceeds` | src/function/TransferFunction.java:198-214 | a model whose flag matches its zeros and which has more poles than positive zeros reduces without failure to a model without zeros |
| `Builder.BuildTransferFunction` | src/function/TransferFunctionBuilder.java:19-29 | the default model: gain 1, delay 0, zeros [0], poles [1], flag clear, and it satisfies the constructor's invariant |
| `Scenarios.DefaultModelFopdt` | src/function/TransferFunctionBuilder.java:19-29 | the default model reduces, by either method, to gain 1, delay 0, pole 1 and no zeros |
| `Scenarios.MainExampleNormalised` | src/function/Main.java:13-24 | the driver's model is stored with zeros -1, -3, -6, poles 20, 10, 4, 1 and the flag clear |
| `Scenarios.MainExampleFopdt` | src/function/Main.java:13-26 | the driver's general FOPDT has delay 30 and the single pole 20 |
| `Scenarios.MainExampleSopdt` | src/function/Main.java:13-27 | the driver's SOPDT has delay 18 and poles 20 and 12 |
| `Scenarios.SinglePositiveZero` | src/function/SpecialRule.java:30-131 | zero 5, delay 0, poles 1, 10, 20, 30: the nearest pole is 1, the case is ZPD, the gain becomes 5 and poles 30, 20, 10 remain |
| `Scenarios.ResolvedPolesMayBeUnsorted` | src/function/SpecialRule.java:97-108 | zero 4, delay 1, poles 5, 0.5: MIN gives gain 5 and poles 0.5, 1, out of order; the general FOPDT then keeps 0.5 and has delay 2 |
| `Scenarios.NegativePoleShrinksDelay` | src/function/TransferFunction.java:221-243 | delay 3 with poles 1, -4 reduces to delay 1, below the original delay |

## Left out

- `toString` and `latex` (src/function/TransferFunction.java:134-190) are
  text formatting with no algorithmic content.
- `Main.java` only prints. Its model appears in `Scenarios` as a concrete
  proof.
- The getters and `setGain` / `setSpecialRule` are field reads and datatype
  updates. `setDelay` is never called by the core.
- Aliasing and in-place mutation are not modelled; the model returns fresh
  values instead. In Java, the constructor sorts the caller's lists in
  place and keeps references to them. `SpecialRule.newTf` rewrites the
  receiver of `fopdt` / `sopdt`, so calling a reduction on a model with a
  positive zero also changes that model.
- IEEE double behaviour is not modelled: rounding, overflow, signed zero,
  NaN or infinite inputs. A division by zero in the special rule is
  represented by `NonFinite`, without the infinity's sign or the
  distinction from NaN.
- `SpecialRule.ResolveConsistent`: the exact number of poles left depends
  on how many iterations take the MIN case, so only the bounds are stated.
