# Mechanics in Dafny

This project models the core of Mechanics, an N-body gravity simulator. It covers the following parts:

- **The Rust kernel `mechanics_fast`:**
  - the pairwise Newtonian law;
  - the per-body and all-body acceleration sums;
  - the semi-implicit ("symplectic") Euler step, which fails on the first non-finite value;
  - the multi-step leap, which ping-pongs between the caller's buffers and a scratch pair.
- **The C# host simulation:**
  - the leap loop;
  - the step counter;
  - merging of overlapping bodies into connected groups;
  - the weighted average.
- **The initial-arrangement helpers:**
  - body IDs;
  - the bounding box;
  - the line arrangement;
  - the physics configuration with its constructor round trip and its summary lines.
- **The integer colour helpers:**
  - hue-table indexing;
  - the spaced sequence;
  - the byte hash;
  - radiance;
  - the colour-spacing search.
- **The console shuffle and benchmark schedule.**
- **The WPF view-model logic:**
  - the validating text box and its step-count parser;
  - seed parsing;
  - the screen perspectives;
  - the nearest-bodies list;
  - the GUI name and help fallbacks.

## Modelling choices

**Vectors and floating point.** Vectors are triples of `real`. The kernel's floating point appears only through a `FloatModel` record of function values, which every caller supplies. It holds:
- the Euclidean norm;
- the finiteness test;
- vector division.

As a result, the step and leap proofs hold for every floating-point behaviour. The laws of exact division are predicates, and only the lemmas that need them require them.

**Buffers.** Rust buffers are sequences threaded through methods. A method returns the new contents of every buffer it writes, so "the input buffers are only read" is a statement about returned values.

**Parallel loops.** `par_iter_mut` and `Parallel.For` are modelled as sequential loops. Every slot depends only on inputs that are read-only during the loop.

**Host simulation.** The per-body physics of the C# step (`Body.ComputeAcceleration`, `Body.ComputeStep`) is a function parameter. It answers either a new position and velocity or a failure message. The overlap test is a function parameter too. A failure leaves `Parallel.For` wrapped in an `AggregateException`, which is the `Aggregate` case of the model's exceptions.

**Bodies.** Bodies are identified by their index in the body list.

**C# integers.** The `int` type is modelled explicitly:
- wrap-around is `Wrap32`;
- the truncating remainder is `CsRem`;
- a bad index straight into an array is an `IndexOutOfRange` error;
- a bad index through an `IReadOnlyList<T>` is an `ArgumentOutOfRange` error.

**.NET text.** The .NET library routines the view models call are modelled in `DotNetText`:
- `int.TryParse` is assumed to run under the invariant culture, with its signs, white-space rule and 32-bit range (the source calls it under the current culture);
- `int.ToString()` prints the decimal form;
- `string.IsNullOrWhiteSpace` uses the Unicode white-space set.

**View models.** The text box view model is a state record. Each setter returns the new state together with the `PropertyChanged` notifications it raised, in order.

## Model

| member | source | states |
|---|---|---|
| Gravity.NewtonLaw | Rust/mechanics_fast/src/lib.rs:116-126 | When division is exact and the distance is non-zero, the pairwise acceleration is `d·(G·m)/|d|³` with `G = 6.67430e-11`. |
| Gravity.CoincidentSourceIsNotFinite | Rust/mechanics_fast/src/lib.rs:116-126 | A zero displacement is not special-cased: a source at the same point gives a non-finite acceleration whenever division by zero is non-finite. |
| Gravity.Accelerations | Rust/mechanics_fast/src/lib.rs:146-154 | The batch has one slot per body, and slot `i` is that body's acceleration from all others. |
| Gravity.ManyOnOne | Rust/mechanics_fast/src/lib.rs:128-144 | The loop over all bodies, skipping `self` by index, computes the reference sum of pairwise contributions in ascending index order. |
| Gravity.ManyOnMany | Rust/mechanics_fast/src/lib.rs:146-154 | Every slot `i` of the written acceleration buffer is overwritten with exactly the acceleration of body `i`. |
| Gravity.OwnMassIsIrrelevant | Rust/mechanics_fast/src/lib.rs:128-144 | Because self is skipped by index, a body's own mass never affects its acceleration. |
| Gravity.TranslationInvariant | Rust/mechanics_fast/src/lib.rs:128-154 | Shifting all positions by one vector leaves every acceleration unchanged, since only displacements enter the law. |
| Gravity.TwoBodies | Rust/mechanics_fast/src/lib.rs:128-144 | With two bodies, each one's acceleration is the pairwise law applied to the other's displacement and mass. |
| Stepper.TryComputeStep | Rust/mechanics_fast/src/lib.rs:156-178 | Success holds exactly when every body's `a`, `v'` and `p'` are finite; on success the next buffers hold the full successor state. On failure only the bodies before the first non-finite one are written, and the current buffers are never changed. |
| Stepper.SymplecticOrder | Rust/mechanics_fast/src/lib.rs:167-170 | The position update uses the updated velocity, so it moves by `dt·v + dt²·a`, not by the classical Euler `dt·v`. |
| Leap.RunFailureIsFinal | Rust/mechanics_fast/src/lib.rs:197-210 | Once a step fails, every longer run fails too, so a failed step ends the leap. |
| Leap.RunOneMore | Rust/mechanics_fast/src/lib.rs:197-210 | A successful run of `k + 1` steps is one more step applied to the state after `k` steps. |
| Leap.PingPong | Rust/mechanics_fast/src/lib.rs:197-210 | Step `i` reads the caller's pair when `i` is even and the scratch pair when odd, never changes the pair it reads, and on success writes the successor into the other pair. |
| Leap.CopyBack | Rust/mechanics_fast/src/lib.rs:212-218 | The final copy makes the caller's buffers equal to the scratch pair, slot for slot. |
| Leap.TryLeap | Rust/mechanics_fast/src/lib.rs:180-221 | The count `k` is at most the request. The caller's buffers hold exactly the state after `k` steps, whatever the parity of `k`. If `k` is short of the request, step `k + 1` fails; `k` equals the request exactly when all requested steps succeed. |
| Leap.CoincidentBodiesMakeNoProgress | Rust/mechanics_fast/src/lib.rs:310-326 | Two unit masses at the origin with three steps requested complete zero steps and keep all-zero positions and velocities. |
| Leap.CoincidentPairFails | Rust/mechanics_fast/src/lib.rs:310-326 | Any two bodies at the same point cannot complete a first step. |
| Lists.Filter | MechanicsCore/Simulation.cs:182-187 | The survivors are exactly the kept elements of the input, none longer than it. |
| Lists.FilterAppend | MechanicsCore/Simulation.cs:182-187 | Filtering distributes over concatenation, so the survivors keep their relative order. |
| Lists.FilterAll | MechanicsCore/Simulation.cs:182-187 | When every element is kept, the list is unchanged. |
| Lists.RemoveRejectedBackward | MechanicsCore/Simulation.cs:182-187 | Removing rejected elements from the back with `RemoveAt` gives the order-preserving filter. |
| Bodies.TotalMassAppend | MechanicsCore/Simulation.cs:205 | The total mass of existing bodies adds up over concatenation. |
| Bodies.TotalMassUpdate | MechanicsCore/Simulation.cs:205-210 | Replacing one body changes the total mass by exactly the difference of their masses. |
| Merging.WeightedAverage | MechanicsCore/Simulation.cs:218-246 | No records gives `ArgumentException`, and one record gives its value exactly. With two or more records, a zero total weight gives `DivideByZeroException`; otherwise the result times the total weight is the weighted sum. |
| Merging.AverageOfEqualValues | MechanicsCore/Simulation.cs:218-246 | Averaging records that all carry the same value gives that value back. |
| Merging.ByteWeightedAverage | MechanicsCore/Simulation.cs:251-279 | The byte overload has the same empty, single and zero-weight cases as the vector one. Otherwise it fails with `OverflowException` exactly when the quotient lies outside [−0.5, 255.5). A result is a byte nearest the exact weighted average, and the even one when the average lies halfway between two bytes. |
| Merging.NonNegativeWeightsFit | MechanicsCore/Simulation.cs:251-279 | Non-negative weights with a non-zero total keep the quotient within [−0.5, 255.5), so the byte average cannot overflow. |
| Merging.MixedWeightsOverflow | MechanicsCore/Simulation.cs:251-279 | Weights 2 and −1 on the bytes 255 and 0 give the quotient 510, so the byte average throws `OverflowException`. |
| Merging.RecordOverlaps | MechanicsCore/Simulation.cs:145-159 | The contact map has an entry for exactly the bodies that overlap another. Each entry lists exactly the bodies it overlaps, in both directions. |
| Merging.Check | MechanicsCore/Simulation.cs:167-177 | The recursive visit removes from the map exactly the bodies it adds to the group. It adds only bodies reachable from the start, and afterwards no neighbour of an added body is left in the map. |
| Merging.CheckAll | MechanicsCore/Simulation.cs:172-175 | Visiting a list of neighbours in turn keeps these guarantees and leaves none of them in the map. |
| Merging.FormGroups | MechanicsCore/Simulation.cs:164-180 | The groups are the connected components of the symmetric contact relation. Every body with a contact lies in exactly one group, and there are no groups when there are no contacts. |
| Merging.Heaviest | MechanicsCore/Simulation.cs:192 | `MaxBy` picks the first member of greatest mass. |
| Merging.Merge | MechanicsCore/Simulation.cs:192-206 | The kept body takes the mass-weighted average position and velocity, the summed mass and volume, and the names joined by " + ". Each colour channel is the byte nearest the mass-weighted average of that channel, the even byte on a tie. It fails exactly when one of the averages throws: `DivideByZeroException` when two or more members have zero total mass, otherwise `OverflowException` when a channel average does not round to a byte. |
| Merging.AverageColor | MechanicsCore/Simulation.cs:200-204 | A single member keeps its colour. Otherwise the colour fails exactly when the group cannot be merged. Each channel of a result is a byte nearest the mass-weighted average of that channel, and the even one on a tie. |
| Merging.NonNegativeMassesMerge | MechanicsCore/Simulation.cs:190-206 | With non-negative masses no colour average overflows, so a group fails to merge exactly when it has two or more members and zero total mass. |
| Merging.MixedMassesOverflow | MechanicsCore/Simulation.cs:190-206 | A body of mass 2 and red 255 merged with one of mass −1 and red 0 throws `OverflowException` from the red average. |
| Merging.TieGoesToEven | MechanicsCore/Simulation.cs:200-204 | Two bodies of equal mass with red 0 and red 1 merge, and the merged red, on the tie at 0.5, is the even byte 0. |
| Merging.MergeSingle | MechanicsCore/Simulation.cs:218-246 | A one-body group is merged into itself unchanged. |
| Merging.CombineBodies | MechanicsCore/Simulation.cs:190-213 | The heaviest member becomes the merged body and every other member is marked non-existent. Bodies outside the group are untouched, and the total existing mass is preserved. It fails exactly when the group cannot be merged, with the exception `Merge` raises. |
| Merging.TotalMassOfLive | MechanicsCore/Simulation.cs:182-187 | Dropping non-existent bodies does not change the total existing mass. |
| Merging.FlattenDisjoint | MechanicsCore/Simulation.cs:164-180 | Groups formed by removing keys from one map are pairwise disjoint. |
| Merging.GroupedAreBodies | MechanicsCore/Simulation.cs:145-180 | Every grouped index names a body of the list. |
| Merging.ContactsSymmetric | MechanicsCore/Simulation.cs:153-156 | Recording each overlapping pair in both directions makes the contact relation symmetric. |
| Merging.CombineOverlappingBodies | MechanicsCore/Simulation.cs:142-188 | With no contacts the bodies are returned unchanged. Otherwise each connected group is combined into its heaviest member, and the result is the still-existing bodies in their original order. It fails exactly when some group cannot be merged, with the exception of the first such group, and the total mass is preserved when all bodies existed. |
| PhysicsConfig.Construct | MechanicsCore/PhysicsConfiguring/PhysicsConfiguration.cs:17-39 | The constructor accepts exactly five arguments of the declared kinds, in order. |
| PhysicsConfig.ConstructorRoundTrip | MechanicsCore/PhysicsConfiguring/PhysicsConfiguration.cs:12-39 | Feeding the reported constructor parameters back to the constructor reproduces the configuration. |
| PhysicsConfig.ParametersRoundTrip | MechanicsCore/PhysicsConfiguring/PhysicsConfiguration.cs:12-39 | Any parameter array the constructor accepts is reported back unchanged. |
| PhysicsConfig.GetConfigLines | MechanicsCore/PhysicsConfiguring/PhysicsConfiguration.cs:56-67 | The step-time, gravity and collision lines are always present, with 3 to 5 lines in order. The buoyant-ratio line is present if and only if gravity is buoyant, and the drag line if and only if collision is drag. |
| PhysicsConfig.LineKinds | MechanicsCore/PhysicsConfiguring/PhysicsConfiguration.cs:56-67 | A buoyant-ratio line appears anywhere exactly for buoyant gravity, and a drag line exactly for drag collisions. |
| Simulation.ComputeStep | MechanicsCore/Simulation.cs:68-121 | Every body moves exactly when the per-body step succeeds for all of them. A failure carries the message of some failing body. |
| Simulation.TryComputeStep | MechanicsCore/Simulation.cs:50-66 | It succeeds exactly when every body's step succeeds. Its `catch (StepFailedException)` never matches, because `Parallel.For` wraps the failure in an `AggregateException`: the wrapper around a failing body's `StepFailedException` escapes, and the simulation, `HasError` included, is left as it was. |
| Simulation.ApplyStep | MechanicsCore/Simulation.cs:123-140 | Bodies are merged only under `Combine`, and a successful apply counts exactly one step. Without merging it only moves the bodies. A merging failure is a `DivideByZeroException` or an `OverflowException` under `Combine`, and the total mass is preserved. |
| Simulation.TryLeap | MechanicsCore/Simulation.cs:289-301 | At most `numSteps` steps are applied, and `ElapsedTime` grows by the applied count times the step time. The result is never false: either every requested step is applied, or the `AggregateException` of a failed compute (or, under `Combine`, a merge exception) escapes. `HasError` and `LatestErrorMessage` never change. Without merging the bodies are the state after the applied steps, and after a failure the next step cannot be computed. |
| Simulation.ElapsedAfter | MechanicsCore/Simulation.cs:17-18 | `ElapsedTime` is the step count times the step time, so `k` more steps add `k` step times. |
| Simulation.Leap | MechanicsCore/Simulation.cs:281-301 | It never throws `new Exception(LatestErrorMessage)`, because `TryLeap` never returns false. Without an exception exactly the requested steps were applied; otherwise it throws what escaped `TryLeap`, an `AggregateException` carrying the failing step's message or a merge exception under `Combine`. |
| Arrangement.NextBodyID | MechanicsCore/Arrangement.cs:11-12 | The counter advances by one with 32-bit wrap-around and returns the new value. |
| Arrangement.IDsCountUp | MechanicsCore/Arrangement.cs:11-12 | Without wrap-around, `n` successive IDs are `prev + 1`, …, `prev + n`. |
| Arrangement.FreshArrangementIDs | MechanicsCore/Arrangement.cs:11-12 | A fresh arrangement hands out 0, 1, 2, … |
| Arrangement.MinOf | MechanicsCore/Arrangement.cs:35-37 | The minimum is at most every body's value and is attained by some body. |
| Arrangement.MaxOf | MechanicsCore/Arrangement.cs:38-40 | The maximum is at least every body's value and is attained by some body. |
| Arrangement.ComputeBoundingBox | MechanicsCore/Arrangement.cs:23-45 | The result is true exactly when there are bodies, and with none the box is (−1,−1,−1)–(1,1,1). Every body's sphere lies within the box, and each face is attained by some body. |
| LineArrangement.Construct | MechanicsCore/Arrangements/Line.cs:31-36 | The constructor accepts exactly an `int` count and two reals, and starts a fresh ID counter. |
| LineArrangement.ConstructorRoundTrip | MechanicsCore/Arrangements/Line.cs:26-36 | The reported parameters are `[numBodies, bodyMass, bodyRadius]` as given, and they rebuild the same line. |
| LineArrangement.GenerateInitialState | MechanicsCore/Arrangements/Line.cs:38-51 | Exactly `numBodies` bodies are produced, and body `i` has the given mass and radius at `((2i+1)·r, 0, 0)` in 32-bit arithmetic. A negative count fails. |
| LineArrangement.FreshLineIDs | MechanicsCore/Arrangements/Line.cs:40-47 | On a fresh line body `i` gets ID `i`. |
| LineArrangement.NeighboursTouch | MechanicsCore/Arrangements/Line.cs:6-8 | Consecutive centres are exactly one diameter apart on the x axis, so each body touches the next. |
| LineArrangement.BodyWithinLine | MechanicsCore/Arrangements/Line.cs:46-50 | Body `i` spans `[2i·r, (2i+2)·r]` along x, inside `[0, 2n·r]`. |
| LineArrangement.BoundsAreBoundingBox | MechanicsCore/Arrangements/Line.cs:49-50 | The display bounds `(0,−r,−r)` and `(2n·r, r, r)` are exactly the bounding box of the bodies. |
| BodyColors.ComputeRadiance | MechanicsCore/BodyColor.cs:3-12 | Radiance lies in [0, 765]; it is 765 only for white and 0 only for black, and 255 per full channel for saturated colours (255 for primaries, 510 for secondaries). |
| BodyColors.GetCloseCyclicColor | MechanicsCore/BodyColors.cs:15-19 | The colour is the table entry at `id mod 256`. A negative id whose C# remainder is negative fails with `ArgumentOutOfRangeException` from the `IReadOnlyList` indexer. |
| BodyColors.CloseCyclicRepeats | MechanicsCore/BodyColors.cs:11-19 | For non-negative ids the colours repeat every 256 ids. |
| BodyColors.GetNextRotated | MechanicsCore/BodyColors.cs:80-88 | Set `setI` yields exactly `2^setI` values, each the earlier value shifted by `0.5/2^setI` modulo 1. |
| BodyColors.GetSpaced01s | MechanicsCore/BodyColors.cs:62-88 | For `n ≥ 2` the array has `n` entries, entry 0 is 0, and entry `k` is the `k`-th value of the base-2 van der Corput sequence (the binary digits of `k` mirrored behind the point). A negative `n` fails at allocation with `OverflowException`. With `n` = 0, reading `precomputed[0]` through `IReadOnlyList` throws `ArgumentOutOfRangeException`; with `n` = 1, writing `result[1]` throws `IndexOutOfRangeException`. |
| BodyColors.FirstSpacedValues | MechanicsCore/BodyColors.cs:62-88 | The spaced sequence starts 0, 1/2, 1/4, 3/4, 1/8, 5/8, 3/8, 7/8. |
| BodyColors.SpacedRange | MechanicsCore/BodyColors.cs:62-88 | Each of the first `2^m` spaced values lies in [0, 1 − 2^−m], so all of them lie in [0, 1). |
| BodyColors.SpacedAt | MechanicsCore/BodyColors.cs:68-86 | The value written at position `2^s + j` (set `s`, item `j`) is the value at `j` rotated by `0.5/2^s` modulo 1, which is the mirrored-digits value of `2^s + j`: the rotation scheme and the reference sequence agree. |
| BodyColors.RotationDoesNotWrap | MechanicsCore/BodyColors.cs:80-88 | Within set `s` the shifted value `0.5/2^s` plus the earlier value stays below 1, so the `% 1` never wraps. |
| BodyColors.ToByte | MechanicsCore/BodyColors.cs:60 | `Convert.ToByte` rounds to the nearest byte, a tie going to the even byte, and fails with `OverflowException` outside [−0.5, 255.5). |
| BodyColors.SpacedBytes | MechanicsCore/BodyColors.cs:60 | The 256 spaced bytes are the rounded spaced values times 256, all of which convert. |
| BodyColors.GetSpacedCyclicColor | MechanicsCore/BodyColors.cs:54-58 | The colour is the table entry of the spaced byte at `id mod 256`, with the same `ArgumentOutOfRangeException` case as the close colours. |
| BodyColors.SpacedCyclicPeriodic | MechanicsCore/BodyColors.cs:50-58 | For non-negative ids the colour depends only on `id mod 256`. |
| BodyColors.Hash8 | MechanicsCore/BodyColors.cs:103-112 | The byte-wrapping sum of `(byte)(b·33149)` equals `(Σ b)·33149 mod 256`. |
| BodyColors.Hash8Permutation | MechanicsCore/BodyColors.cs:103-112 | The hash does not depend on the order of the bytes. |
| BodyColors.GetBytes | MechanicsCore/BodyColors.cs:99 | `BitConverter.GetBytes` gives four little-endian bytes that reassemble to the `int`. |
| BodyColors.GetHashedPseudorandomColor | MechanicsCore/BodyColors.cs:97-101 | The colour is the table entry of the hash, which always indexes in range. |
| ColorSpacing.HitsAllValuesIn256 | MechanicsConsole/ColorSpacing.cs:31-43 | The result is true exactly when the 256 walked values are pairwise distinct. |
| ColorSpacing.WalkClosedForm | MechanicsConsole/ColorSpacing.cs:34-41 | The `k`-th walked value is `spacing·(k+1) mod 256`. |
| ColorSpacing.HitsAllIffOdd | MechanicsConsole/ColorSpacing.cs:31-43 | A spacing hits all 256 values exactly when it is odd. |
| ColorSpacing.GoodSpacings | MechanicsConsole/ColorSpacing.cs:7-14 | The candidate filter keeps exactly the spacings in 1..255 that hit all values: the 128 odd ones, in order. |
| ColorSpacing.CircularDistanceBounds | MechanicsConsole/ColorSpacing.cs:59-61 | The circular distance between two bytes lies in [0, 128]. |
| ColorSpacing.RowsCount | MechanicsConsole/ColorSpacing.cs:55-64 | The pair loops yield `n(n−1)/2` values. |
| ColorSpacing.GetDiffs | MechanicsConsole/ColorSpacing.cs:45-64 | There is one diff per pair `i < j`, namely the circular distance of their walked values, and no other. For spacings that cannot overflow, every diff lies in [0, 128]. |
| ColorSpacing.DiffsAreSmall | MechanicsConsole/ColorSpacing.cs:49-61 | Walked values lie in [0, 255], so their circular distances lie in [0, 128]. |
| ConsoleProgram.Swap | MechanicsConsole/Program.cs:133-135 | The swap exchanges two slots, leaves the others alone and keeps the multiset. |
| ConsoleProgram.Shuffled | MechanicsConsole/Program.cs:125-137 | The shuffle of the first `n` slots is a permutation that leaves the later slots alone. |
| ConsoleProgram.Shuffle | MechanicsConsole/Program.cs:125-137 | Fisher–Yates with partners in `[0, n]` returns a permutation of the list, and a list of at most one element is unchanged. |
| ConsoleProgram.RepeatCounts | MechanicsConsole/Program.cs:95 | `Enumerable.Repeat(x, c)` contains `x` exactly `c` times and nothing else. |
| ConsoleProgram.GroupSchedule | MechanicsConsole/Program.cs:92-96 | Each function index occurs exactly `numGroupsPerFunc` times, the length is their product, and a negative count throws. |
| ConsoleProgram.InitialTimes | MechanicsConsole/Program.cs:99 | There is one zero counter per function index. |
| ConsoleProgram.HeadToHeadSchedule | MechanicsConsole/Program.cs:90-99 | The shuffled schedule still runs each function exactly `numGroupsPerFunc` times, alongside zeroed counters. |
| DotNetText.IntToString | MechanicsUI/ValidationTextBoxViewModel.cs:36 | The printed form starts with a minus sign exactly for negative values. |
| DotNetText.ParseComposed | MechanicsUI/SimulationGroupVM.cs:108 | White space, an optional sign, digits and white space parse as the signed value of the digits, when in range. |
| DotNetText.PaddedRoundTrip | MechanicsUI/SimulationGroupVM.cs:108 | A printed `int` with surrounding number white space parses back to itself. |
| DotNetText.ToStringRoundTrip | MechanicsUI/StepsPerLeapTextBoxViewModel.cs:12 | Parsing what `ToString` printed gives the number back. |
| DotNetText.NoDigitsNoNumber | MechanicsUI/SimulationGroupVM.cs:108 | Text without a digit never parses. |
| TextBox.RejectionTooltip | MechanicsUI/ValidationTextBoxViewModel.cs:120-125 | The tooltip starts with the parser's message when there is one and ends with "Current value remains '…'". |
| TextBox.AssignCurrentValue | MechanicsUI/ValidationTextBoxViewModel.cs:78-98 | The value is stored and shown, and the error and tooltip are cleared even for an unchanged value. The value notification fires exactly when the value differs, and every notification fires once exactly when its field changed. |
| TextBox.AssignTextboxText | MechanicsUI/ValidationTextBoxViewModel.cs:100-127 | The same text changes nothing, and other text is kept as typed. Accepted text becomes the value and clears the error. Rejected text keeps the value and sets the error with the rejection tooltip, and every notification fires once exactly when its field changed. |
| TextBox.NewBoxConsistent | MechanicsUI/ValidationTextBoxViewModel.cs:32-38 | A new box whose initial value reads back is consistent: error exactly for rejected text, accepted text reading as the value. |
| TextBox.TextEditKeepsConsistent | MechanicsUI/ValidationTextBoxViewModel.cs:100-127 | Every text edit keeps the box consistent. |
| TextBox.AssignKeepsConsistent | MechanicsUI/ValidationTextBoxViewModel.cs:78-98 | Assigning a value whose printed form reads back keeps the box consistent. |
| TextBox.SettersKeepErrorHasTooltip | MechanicsUI/ValidationTextBoxViewModel.cs:78-127 | Both setters keep "an error has a tooltip and no error has none". |
| StepsPerLeap.TryParseStepsPerLeap | MechanicsUI/StepsPerLeapTextBoxViewModel.cs:10-20 | Text is accepted exactly when it parses as an `int` above 0, with an empty message. Otherwise the message is "Value must be a positive System.Int32.". |
| StepsPerLeap.NewStepsPerLeap | MechanicsUI/StepsPerLeapTextBoxViewModel.cs:5-8 | The box starts at 1, showing "1", consistent and without error. |
| StepsPerLeap.ReadsBackIffPositive | MechanicsUI/StepsPerLeapTextBoxViewModel.cs:10-20 | A printed `int` reads back through the parser exactly when it is positive. |
| StepsPerLeap.TextEditKeepsPositive | MechanicsUI/StepsPerLeapTextBoxViewModel.cs:10-20 | A text edit never makes a positive value non-positive. |
| StepsPerLeap.TypingKeepsPositive | MechanicsUI/StepsPerLeapTextBoxViewModel.cs:5-20 | Any sequence of text edits keeps the value at least 1 and the box consistent. |
| StepsPerLeap.FromStartStaysPositive | MechanicsUI/StepsPerLeapTextBoxViewModel.cs:5-20 | Starting from a new box, text edits alone keep the value at least 1. |
| StepsPerLeap.AssigningZeroIsInconsistent | MechanicsUI/ValidationTextBoxViewModel.cs:92-97 | Assigning 0 directly shows "0" with no error, although the parser rejects "0". |
| SeedParsing.TryParseSeed | MechanicsUI/SimulationGroupVM.cs:99-118 | Null or blank text gives true with no seed, and an `int` gives true with that value. Anything else gives false with no seed. |
| SeedParsing.Seed | MechanicsUI/SimulationGroupVM.cs:76 | The seed is absent exactly for blank or unparsable text, and otherwise is the parsed value. |
| SeedParsing.SeedRoundTrip | MechanicsUI/SimulationGroupVM.cs:76-113 | A printed `int` is accepted as the seed it prints. |
| SeedParsing.NoDigitsNoSeed | MechanicsUI/SimulationGroupVM.cs:99-118 | Text without digits gives no seed, and is accepted exactly when blank. |
| SeedParsing.NullRuleDiffersFromParser | MechanicsUI/SimulationGroupVM.cs:99-129 | The rule rejects null although the parser accepts it. |
| SeedParsing.ValidateStrings | MechanicsUI/SimulationGroupVM.cs:123-129 | A string passes exactly when it is blank or parses as an `int`. |
| Perspectives.SimToPanel | MechanicsUI/Perspective.cs:41-50 | The three declared perspectives map by the documented axis permutations and preserve squared length; any other value throws `ArgumentOutOfRangeException`. |
| Perspectives.PanelRoundTrip | MechanicsUI/Perspective.cs:14-36 | The documented panel-to-simulation directions invert each mapping. |
| Perspectives.SimToPanelInjective | MechanicsUI/Perspective.cs:45-47 | Distinct simulation points map to distinct panel points. |
| Perspectives.FromAboveInvolution | MechanicsUI/Perspective.cs:45 | Looking from above twice is the identity. |
| Perspectives.PreservesDot | MechanicsUI/Perspective.cs:45-47 | Each declared mapping preserves dot products, so lengths and angles survive. |
| Perspectives.ReversesCross | MechanicsUI/Perspective.cs:45-47 | Each declared mapping reverses orientation: the cross product of the images is the negated image of the cross product. |
| Render.Sort | MechanicsUI/RenderVM.cs:129-141 | The outputs are `{a, b}` in order, `min ≤ max`. |
| Render.SortSymmetric | MechanicsUI/RenderVM.cs:129-141 | Sorting does not depend on the argument order. |
| Render.OrderPositionsSorted | MechanicsUI/RenderVM.cs:100-106 | The stable order by distance lists every position once, by distance and then by original index. |
| Render.SortedUnique | MechanicsUI/RenderVM.cs:100-106 | There is only one stable order of a list, so the specification determines `OrderBy`. |
| Render.NearestPositions | MechanicsUI/RenderVM.cs:100-107 | At most ten positions are taken, in stable distance order, and every position left out comes after every one taken. |
| Render.ComputeByDistance | MechanicsUI/RenderVM.cs:98-109 | At most ten body VMs are shown (all of them when fewer). They are drawn from the list, in non-decreasing distance from the mouse. |
| Render.NearestAreShown | MechanicsUI/RenderVM.cs:98-109 | The shown list is the body VMs at the ten nearest positions. |
| Render.RefreshByDistance | MechanicsUI/RenderVM.cs:83-96 | Without a mouse position the list is empty; otherwise it is the nearest list for the mouse. |
| Render.SetMousePosition | MechanicsUI/RenderVM.cs:58-63 | An unchanged position does nothing, and a new one is stored and refreshes the list. |
| Render.SetMousePositionKeepsUpToDate | MechanicsUI/RenderVM.cs:58-63 | After any mouse move the nearest list matches the bodies and the mouse. |
| Render.RefreshSim | MechanicsUI/RenderVM.cs:65-81 | Exactly the VMs whose body no longer exists are removed, the survivors keep their order, and the nearest list is refreshed. |
| GuiNames.FirstWithText | GuiByReflection.ViewModels/IHasGuiName.cs:21-28 | It finds the first attribute with a non-blank value, skipping nulls. |
| GuiNames.GuiNameOf | GuiByReflection.ViewModels/IHasGuiName.cs:19-31 | The first attribute with non-blank text wins; with none the fallback applies. |
| GuiNames.GuiHelpOf | GuiByReflection.ViewModels/IHasGuiHelp.cs:18-30 | The first non-blank value wins; with none the result is null, and it is never blank. |
| GuiNames.NameOverloadsAgree | GuiByReflection.ViewModels/IHasGuiName.cs:13-31 | The single-attribute name is the one-element-sequence name. |
| GuiNames.HelpOverloadsDifferOnBlank | GuiByReflection.ViewModels/IHasGuiHelp.cs:13-30 | A single blank help attribute gives " ", while a sequence of it gives null. |

## Left out

- FFI glue: the `pub_*` entry points, the fixed-size dispatch, the raw-pointer casts and the `DllImport` wrappers are marshalling with no logic of their own.
- Parallelism: rayon and `Parallel.For` are modelled as sequential loops. Each slot depends only on read-only input, so the order does not matter.
- Floating point: norm, finiteness and division are parameters. Vector addition and scaling are exact reals, so rounding is not modelled.
- `Body.cs` is not part of this model. The per-body acceleration and step of the C# host are a function parameter.
- The `ApplyStep` comment says a merge failure cannot be recovered from. `Simulation.TryLeap` returns the state from before that step's apply, and the partly edited bodies are not modelled.
- Simulation.TryComputeStep: `Parallel.For` can collect several failures in one `AggregateException`. The model carries only the failure of the lowest-indexed failing body and no exceptions other than `StepFailedException`.
- Simulation.ElapsedAfter: `NumStepsPerformed` is a 64-bit `long` and is modelled without its overflow, since 2^63 steps cannot be reached.
- `HueToRGB` is the parameter `hueToRgb`, because its body is floating-point colour math.
- `GetNextRotated` is an iterator over a shared array. The model evaluates it eagerly over the values the array holds when the set starts, and `GetSpaced01s` reads only those.
- `FindBestColorSpacing`: only the candidate filter is modelled. The scoring loop, the grouping and the console output are left out.
- `HeadToHead`: the timing with `Stopwatch`, the function calls and the console output are left out. `Random` is the parameter `pick`.
- DotNetText.ParseInt32 models `int.TryParse` with the invariant culture only, although the source parses under the current culture. The signs are "-" and "+", there are no parentheses, thousands separators or currency symbols, and trailing NUL characters are accepted.
- `BodyVM.Refresh`, `BodyVM.Unhook`, the canvas bounds in `RefreshBounds`, and the WPF notifications of `RenderVM` are left out. The distance from the mouse is the parameter `distance`.
- Render.Sort is stated for real numbers only; the NaN case of `double` comparison is not modelled.
- Render.ComputeByDistance: the distance is a parameter, so the square root and NaN distances are not modelled.
- The `GetConfigLines` overrides of `Arrangement` and `Line`, `DoubleToString` and the other formatting helpers are left out. The number format is the parameter `format`.
- LineArrangement.NeighboursTouch, LineArrangement.BodyWithinLine and LineArrangement.BoundsAreBoundingBox are stated for at most 2^30 − 1 bodies and a non-negative radius. Beyond that, `i * 2 + 1` wraps in 32-bit `int`, which the model reproduces in `CentreX`.
- Merging.FormGroups: each group starts at the earliest-inserted key still in the dictionary. The source reuses one dictionary across steps, so after removals `Keys.First()` depends on the slots earlier steps freed. The source's groups can then come in another order and list their members in another order, which changes the joined name, which of two equally heavy members is kept, and which failing group throws first; the set of grouped bodies is the same.
- Reflection, the GUI attributes' own classes, and the WPF event plumbing (`PropertyChanged` beyond the four text-box notifications) are left out.
