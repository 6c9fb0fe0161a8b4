# uSwift: a verified model of its algorithms

uSwift is a small Swift standard library for microcontrollers. This project models the algorithms in it that
carry state, branching or arithmetic, and proves what they are for. The target is the 16-bit one: `Int` and
`UInt` have 16 bits, plain `+`, `-` and `*` wrap. Integer types are parametric in width and signedness
(`FixedWidth.IntType`), floating-point formats in significand width p and exponent width e
(`BinaryFloat.Format`, of which `Float16` is (10, 5) and `Float` (23, 8)).

| file | what it models |
|---|---|
| `FixedWidth.dfy` | truncation, comparison across types, smart shifts, clamping, distance, binary logarithm |
| `BinaryFloat.dfy` | fields of a bit pattern, values, the total order, `exponent`, `significandWidth`, `nextUp` |
| `FloatConversion.dfy` | integer to float with rounding, float to integer with truncation, both round trips |
| `SipHash.dfy`, `SipHashVectors.dfy`, `Hasher.dfy` | SipHash-1-3 and its known answers, and the tail buffer and combining calls in front of it |
| `RefCounting.dfy` | the runtime's retain and release as a protocol of atomic steps between threads |
| `Random.dfy` | raw draws, the bounded draw, ranges |
| `Shuffle.dfy`, `Partition.dfy`, `MutableCollection.dfy` | in-place shuffle and partitions over `swapAt` |
| `ArrayBuffer.dfy`, `ArrayBuilder.dfy` | slot-level splice, growing builder, `+=` |
| `SequenceSuffix.dfy` | ring-buffer `suffix` and `dropLast` |
| `Flatten.dfy`, `LazyFilter.dfy`, `IndexSteps.dfy` | lazy collections against their eager counterparts |
| `Bitset.dfy` | a bitmap against a finite set |
| `Alignment.dfy`, `BitPatterns.dfy`, `BitCounts.dfy`, `Powers.dfy`, `Optionals.dfy` | shared arithmetic on bits and powers of two |

Conventions: a failed precondition or a nil result is `None`; loops stay loops and in-place updates stay
in-place, each proved against a function or a set whose own properties are proved as lemmas. The random
generator is an arbitrary finite stream of 32-bit draws, and a call that exhausts it returns `None`. A float
is its bit pattern, and its value is an integer count of units of 2^-(bias - 1 + p), the least subnormal.

## What the proofs show about the code

- `isTotallyOrdered` (CoreBinaryFloatingPoint.swift:228) tests `other > self`, which is the test of the line
  before again, so it never fires. The result is right without it.
- `distance(to:)` is documented to fail only when the result does not fit; between unsigned operands, or
  signed ones of different sign, it also fails for a distance of exactly `Int.min`.
- `suffix(_:)` sizes its ring by `underestimatedCount` but fills it up to `maxLength`: it writes out of bounds
  unless `maxLength <= underestimatedCount` or the count is exact. `dropLast(_:)` never traps, but for an
  inexact count it drops more than k elements.
- `isUniquelyReferenced` is false for every stack object, because the do-not-free bit is part of the word it
  compares with 1.
- `swift_release_n_` invokes the destroyer with the count at 0 and leaves the word as it is
  (EmbeddedRuntime.swift:220-222), and `swift_setDeallocating` does nothing. A destroyer that retains and releases
  its own object, as a local or a closure that captures it does, is therefore started again by its own release, and
  the object is freed twice. `RefCounting.SelfRetainDestroysTwice` is such a run; `RefCounting.DestroyedOnce` is
  the exact condition.
- The over-release check of `swift_release_n_` (EmbeddedRuntime.swift:223) looks for a negative number after the
  sign bit has been masked away, so it cannot fire. The protocol is proved for threads that release only what they hold.
- An object retained up to the immortal value is never destroyed; hence the bound on outstanding references.
- A builder that must grow from 2^14 slots or more wraps the doubled capacity to a negative number, allocates one
  slot and moves its elements past the end of it; `ArrayBuilder.Reach` is the length up to which copying works.
- `_UnsafeBitset.isValid` admits the capacity itself, and from 2^11 words on, where the capacity wraps, it
  rejects elements that have a word.

## Model

| member | source | states |
|---|---|---|
| FixedWidth.TruncatingIfNeeded | FixedWidth.swift:131-150 | the word-by-word loop returns the value of the target type congruent to the source modulo 2^width, sign extension included, for every pair of widths and signednesses |
| FixedWidth.EqualIsEquality | BinaryInteger.swift:271-305 | heterogeneous == holds exactly when the two numbers are equal, for all pairs of integer types |
| FixedWidth.LessIsLess | BinaryInteger.swift:317-346 | heterogeneous < holds exactly when the left number is smaller, for all pairs of integer types; with EqualIsEquality, a total order across types |
| FixedWidth.Fits | BinaryInteger.swift:271-346 | when a conversion between types leaves a number unharmed |
| FixedWidth.RoundTripIsIdentity | BinaryInteger.swift:328-346 | a right operand that survives the trip through the left type with its sign was representable there, so comparing in the left type is sound |
| FixedWidth.ShiftsAreExact | FixedWidth.swift:327-417 | both smart shifts multiply by 2^n modulo 2^width or floor-divide by 2^n, for every count of either sign, however far beyond the width |
| FixedWidth.OvershiftRight | FixedWidth.swift:354-366 | shifting right by the width or more is floor division by that power of two: the sign fill of a signed type, zero of an unsigned one |
| FixedWidth.OvershiftLeft | FixedWidth.swift:403-412 | shifting left by the width or more leaves zero |
| FixedWidth.Clamping | FixedWidth.swift:480-488 | the result belongs to the target and no member of the target is nearer to the source |
| FixedWidth.IntExactlyIsPartialIdentity | CoreIntegers.swift:97-109 | Int(exactly:) is the identity on the numbers an Int holds and nil on all others |
| FixedWidth.DistanceIsDifference | BinaryInteger.swift:221-246 | distance(to:) is the difference and is found exactly when it fits an Int, except for Int.min, which is found only between two operands of equal sign of a signed type |
| FixedWidth.DistanceMissesIntMin | BinaryInteger.swift:221-246 | concrete operands whose difference is Int.min: missed between two UInt values, found between two Int32 values |
| FixedWidth.BinaryLogarithm | BinaryInteger.swift:82-102 | skipping zero words from the top finds the index of the highest set bit of every positive value of every type |
| FixedWidth.LeadingZeros | FixedWidth.swift:64-67 | the leading zero count of a non-zero value is width - 1 - log2, so the fixed-width shortcut gives the same logarithm |
| FixedWidth.LeadingWord | BinaryInteger.swift:87-101 | either the topmost word is zero and may be skipped, or the logarithm is its offset plus the logarithm of the word |
| BitCounts.Log2Bounds | FixedWidth.swift:64-67 | the logarithm q of n satisfies 2^q <= n < 2^(q+1) |
| BitCounts.DividesIffTrailingZeros | Float16.swift:477-489 | trailing zeros are the exponent of the largest power of two that divides n |
| Alignment.IsPowerOf2Exactly | CoreFloatingPointFunctions.swift:27-34 | the test x & (x - 1) == 0 accepts exactly the powers of two |
| Alignment.RoundUpIsNextAligned | CoreFloatingPointFunctions.swift:41-50 | rounding up by masking gives an aligned address less than one alignment ahead, even when the 16-bit address space wraps in between |
| BinaryFloat.FieldsOfPack | Float16.swift:95-113 | packing keeps the sign and both fields modulo their widths, so a carried-out leading significand bit is dropped |
| BinaryFloat.PackOfFields | Float16.swift:84-113 | packing the fields read off a bit pattern restores it |
| BinaryFloat.UnitsStep | Float16.swift:84-93 | consecutive magnitudes differ by one ulp, inside a binade, across binades and out of the subnormals |
| BinaryFloat.UnitsStrictlyIncreasing | Float16.swift:288-300 | the value grows strictly with the magnitude pattern |
| BinaryFloat.ClassOfMagnitude | Float16.swift:412-458 | finite, NaN and zero read off the fields are the ranges of magnitude patterns below, above and at the ends |
| BinaryFloat.TotalOrderIsRankOrder | CoreBinaryFloatingPoint.swift:225-246 | isTotallyOrdered decides the order of IEEE 754-2008 section 5.10, given as a rank from -NaN over the negative and positive numbers to +NaN |
| BinaryFloat.IsTotallyOrderedIsATotalOrder | CoreBinaryFloatingPoint.swift:225-246 | reflexive, antisymmetric, transitive and total on all bit patterns of every format |
| BinaryFloat.TotalOrderOnPatterns | CoreBinaryFloatingPoint.swift:225-246 | the order in terms of the bit patterns alone: negative before positive, NaNs included, then by the pattern |
| BinaryFloat.TotalOrderAgreesWithNumericOrder | CoreBinaryFloatingPoint.swift:225-246 | a smaller number comes strictly first; equal numbers of different patterns are the two zeros, with -0 first |
| BinaryFloat.ExponentAndWidthOfValue | Float16.swift:204-213 | for every finite non-zero pattern, subnormals included, `exponent` is the floor of the binary logarithm of the value and `significandWidth` the distance from its leading to its trailing bit |
| BinaryFloat.ExponentAndWidthOfTheRest | Float16.swift:477-489 | zeros, infinities and NaNs, and only they, have no exponent and a significand width of -1 |
| BinaryFloat.NextUpIsNext | Float16.swift:288-300 | below infinity, nextUp is strictly greater and no representable number lies in between, across zero and into infinity |
| BinaryFloat.NextUpSign | Float16.swift:288-300 | below infinity the result is negative exactly for a negative non-zero argument, so the negative least subnormal goes to -0; both zeros go to the positive least subnormal |
| BinaryFloat.NextUpOfTheRest | Float16.swift:288-300 | infinity comes back unchanged and a NaN stays a NaN |
| FloatConversion.RoundingIsUnique | CoreBinaryFloatingPoint.swift:253-307 | at most one pattern is the correct rounding, so the definition determines the result |
| FloatConversion.NearestFromNeighbours | CoreBinaryFloatingPoint.swift:286-306 | beating the two neighbouring magnitudes, ties to even, means beating every finite pattern |
| FloatConversion.ConvertInteger | CoreBinaryFloatingPoint.swift:253-307 | every integer of every type converts to the nearest pattern of every format, ties to even, infinity exactly from half an ulp past the greatest finite value on; `exact` exactly when the value is preserved |
| FloatConversion.FitsExactly | CoreBinaryFloatingPoint.swift:275-284 | a number of at most p + 1 bits is shifted into place with nothing lost |
| FloatConversion.TooLarge | CoreBinaryFloatingPoint.swift:264-270 | an exponent beyond the greatest finite one makes infinity the correct rounding |
| FloatConversion.RoundedDown | CoreBinaryFloatingPoint.swift:287-306 | truncating is the correct rounding below halfway, and at halfway when the significand is even |
| FloatConversion.RoundedUp | CoreBinaryFloatingPoint.swift:292-306 | adding one is the correct rounding above halfway, and at halfway when the significand is odd, also when the carry moves to the next exponent or to infinity |
| FloatConversion.ConvertFloatTruncates | FixedWidth.swift:422-451 | every float converts to its truncation toward zero exactly when the target holds that, Self.min and unsigned sources in (-1, 0) included; `exact` exactly when the float is an integer the target holds |
| FloatConversion.AssembledMagnitude | FixedWidth.swift:429-446 | the leading one joined with the shifted field is the whole part of the value |
| FloatConversion.RangeOfExponent | FixedWidth.swift:427-445 | which whole parts the target holds follows from the exponent alone, except at the minimum |
| FloatConversion.IntegerRoundTrip | FixedWidth.swift:422-451 | an integer that converted exactly to a float comes back, again exactly |
| FloatConversion.IntegerThereAndBack | CoreBinaryFloatingPoint.swift:253-307 | integer to float and back is the identity whenever the first conversion reports it is exact |
| FloatConversion.FloatThereAndBack | FixedWidth.swift:422-451 | float to integer and back is the identity on bit patterns whenever the first conversion reports it is exact, but for -0, which becomes +0 |
| FloatConversion.FloatRoundTrip | CoreBinaryFloatingPoint.swift:253-307 | a float that converted exactly to an integer comes back bit for bit, but for -0, which becomes +0 |
| SipHash.RotationsAgree | Hash.swift:500-502 | the rotation by two shifts is rotation, for each amount a round uses |
| SipHashVectors.EmptyMessage | Hash.swift:505-545 | the published answer of SipHash-1-3 for the empty message |
| SipHashVectors.FifteenBytes | Hash.swift:505-545 | the published answer for fifteen bytes: a whole word, a full tail and the length |
| SipHash.LittleEndianOfBytes | Hash.swift:193-230 | writing a number as bytes and reading it little-endian gives it back |
| SipHash.LittleEndianSplit | Hash.swift:126-156 | cutting a number between two bytes cuts the byte string at the same place |
| SipHash.AbsorbedAppend | Hash.swift:530-535 | absorbing words is compositional: whole words can be absorbed once and for all |
| SipHash.State.constructor | Hash.swift:489-494 | the state starts as the SipHash paper initialises it from the key |
| SipHash.State.Round | Hash.swift:505-520 | the fourteen in-place updates are one SipRound, whose amounts and order the known answers fix |
| SipHash.State.Compress | Hash.swift:530-535 | one round per word, with the word mixed in before and after |
| SipHash.State.Finalize | Hash.swift:537-545 | the last word is compressed and three more rounds give the hash |
| Hasher.TailBuffer.Append | Hash.swift:126-137 | after eight bytes the buffer holds the last word of the longer message, and the word handed on is the next whole word of it |
| Hasher.TailBuffer.AppendPartial | Hash.swift:140-156 | after up to seven bytes the buffer holds the last word of the longer message, and a word is handed on exactly when one became complete; the length wraps modulo 256 |
| Hasher.FieldsOfLastWord | Hash.swift:87-124 | tail and byte count share the word without overlap |
| Hasher.TailAfter | Hash.swift:126-156 | what remains in the tail after a write |
| Hasher.ChunkOf | Hash.swift:126-156 | the word handed on is the tail with as many new bytes as fit above it |
| Hasher.RestOf | Hash.swift:126-156 | the new bytes that do not fit become the tail |
| Hasher.LaidInto | Hash.swift:140-149 | new bytes that fit lie above the tail and below the count |
| Hasher.LoadPartial | Hash.swift:49-78 | the falling-through switch reads its bytes little-endian |
| Hasher.UnalignedCount | Hash.swift:237-252 | either the bytes run out, or the next byte to read is aligned |
| Hasher.Advance | Hash.swift:232-266 | reading n bytes of what remains extends the message by them |
| Hasher.AbsorbAdded | Hash.swift:193-230 | either the added bytes still fit in the tail, or exactly one more word is compressed |
| Hasher.Core.constructor | Hash.swift:168-182 | a new hasher has combined nothing |
| Hasher.Core.Combine64 | Hash.swift:193-196 | appends eight bytes to the message the hasher stands for |
| Hasher.Core.CombinePartial | Hash.swift:222-229 | appends `count` bytes to the message |
| Hasher.Core.Combine32 | Hash.swift:198-204 | appends four bytes |
| Hasher.Core.Combine16 | Hash.swift:206-212 | appends two bytes |
| Hasher.Core.Combine8 | Hash.swift:214-220 | appends one byte |
| Hasher.Core.CombineWord | Hash.swift:184-191 | appends a UInt as eight bytes |
| Hasher.Core.CombineBuffer | Hash.swift:231-266 | appends exactly the bytes of the buffer, whatever its length and alignment |
| Hasher.Core.Finalize | Hash.swift:268-271 | the hash is SipHash-1-3 of all bytes combined, so it depends on the bytes and not on how they were split |
| Hasher.BytesOfLoaded | Hash.swift:49-78 | loading bytes and combining them writes the same bytes |
| Hasher.FinalizeSeeded | Hash.swift:366-375 | a seeded hasher's Int is the truncated SipHash-1-3 of the bytes combined, under the key derived from the seed |
| Hasher.SeedEntersFirstHalf | Hash.swift:554-562 | the seed only changes the first half of the key, by exclusive or, without sign extension |
| Hasher.TruncatedKeepsLowBits | Hash.swift:366-375 | the Int has the low 16 bits of the hash |
| Hasher.HashWord | Hash.swift:377-401 | the one-shot hash of a word is what a hasher with the same seed returns for its eight bytes, key derivation and truncation to Int included |
| Hasher.HashPartial | Hash.swift:403-413 | the one-shot hash of up to seven bytes is what a hasher with the same seed returns for them |
| Hasher.HashBuffer | Hash.swift:415-423 | the one-shot hash of a buffer is what a hasher with the same seed returns for its bytes |
| Hasher.ShortMessage | Hash.swift:377-413 | a message of at most one word is one compression and one last word |
| RefCounting.WordArithmetic | EmbeddedRuntime.swift:173-226 | below the immortal value adding and subtracting references neither wraps nor touches the do-not-free bit |
| RefCounting.HeapObject.Alloc | EmbeddedRuntime.swift:102-125 | a heap object starts with one reference |
| RefCounting.HeapObject.InitStackObject | EmbeddedRuntime.swift:148-153 | a stack object starts with one reference and the do-not-free bit |
| RefCounting.HeapObject.InitStaticObject | EmbeddedRuntime.swift:141-146 | a static object's word stands for any number of references |
| RefCounting.HeapObject.Retain | EmbeddedRuntime.swift:186-195 | any word but the immortal one grows by n modulo the word, for every n and every word; while the count stays below the immortal value that counts n more references |
| RefCounting.HeapObject.Release | EmbeddedRuntime.swift:210-226 | any word but the immortal one shrinks by n modulo the word, over-releases included, and the destroyer is invoked exactly when the masked result is 0; for a release of held references, exactly when none is left |
| RefCounting.HeapObject.IsUniquelyReferenced | EmbeddedRuntime.swift:164-168 | true exactly for a heap object with one reference |
| RefCounting.HeapObject.DeallocClassInstance | EmbeddedRuntime.swift:132-139 | frees everything but stack objects |
| RefCounting.InitiallyInvariant | EmbeddedRuntime.swift:102-153 | every new object satisfies the invariant |
| RefCounting.StepKeepsInvariant | EmbeddedRuntime.swift:132-226 | every atomic step of every thread keeps the invariant, also when a running destroyer retains, releases or gives away its object |
| RefCounting.EveryInterleaving | EmbeddedRuntime.swift:186-226 | in every world the invariant allows, a thread can take a step exactly when its own state allows it, whatever the other threads are in the middle of |
| RefCounting.CallsOverlap | EmbeddedRuntime.swift:186-226 | a run in which two threads both load before either adds, and both load before either subtracts |
| RefCounting.RunKeepsInvariant | EmbeddedRuntime.swift:132-226 | the invariant holds at every moment of every run |
| RefCounting.EveryMomentOfEveryRun | EmbeddedRuntime.swift:132-226 | whatever the destroyer does, the masked word is the number of outstanding references, the top bit tells stack objects, a static word never changes, the destroyer has started when no reference is left, only heap objects are freed, and the word 1 means exactly one reference |
| RefCounting.NothingAfterTheLastRelease | EmbeddedRuntime.swift:210-226 | once the destroyer has started and as long as it lets no reference out, only threads inside it hold references or are inside a call, so only they take late releases |
| RefCounting.DestroyedByTheLastRelease | EmbeddedRuntime.swift:210-226 | the destroyer starts exactly in a release step that gives up every outstanding reference, every time that happens |
| RefCounting.AtMostOneDestroyer | EmbeddedRuntime.swift:210-226 | as long as no release step is taken after the destroyer has started, it has started at most once, in unfinished runs too |
| RefCounting.EmptiedAgain | EmbeddedRuntime.swift:210-226 | each time the references run out again, the destroyer starts once more |
| RefCounting.DestroyedOnce | EmbeddedRuntime.swift:210-226 | in every finished run the destroyer starts exactly once, and a heap object is freed exactly once, if and only if no release step is taken after the destroyer has started |
| RefCounting.DestroyedOnceWhenContained | EmbeddedRuntime.swift:210-226 | when the destroyer lets no reference out, that means: if and only if no thread inside the destroyer performs the release step |
| RefCounting.NothingAfterDeallocation | EmbeddedRuntime.swift:132-139 | under both conditions, after deallocation no thread holds a reference, is inside a call or can take a step on the object |
| RefCounting.SelfRetainDestroysTwice | EmbeddedRuntime.swift:210-226 | a run on every layout whose destroyer retains and releases its own object: the destroyer starts twice and a heap object is freed twice |
| RefCounting.UniqueIsStable | EmbeddedRuntime.swift:164-168 | while one thread holds the only reference, no step of another thread changes the word or that thread |
| RefCounting.UniqueUntilOwnStep | EmbeddedRuntime.swift:164-168 | so a true uniqueness answer stays true, over any number of steps of other threads, until the thread's own next step |
| RefCounting.ImmortalValueSticks | EmbeddedRuntime.swift:186-219 | a word at the immortal value with no call under way is never changed again, over every continuation, bounded or not, and the destroyer never starts |
| RefCounting.UnboundedCountLeaks | EmbeddedRuntime.swift:186-219 | on every layout a path from a new object that retains up to the immortal value and then releases everything without the destroyer: why the bound on references is needed |
| Random.Raw | FixedWidth.swift:243-259 | a raw value is the 32-bit draws joined little-endian, modulo 2^width |
| Random.JoinedAppend | FixedWidth.swift:252-258 | each further draw is added above the earlier ones |
| Random.EnoughDraws | FixedWidth.swift:246-252 | as many draws as the width needs, and at least one |
| Random.RawIsUnbiased | FixedWidth.swift:243-259 | for every width, every raw value is made by the same number of sequences of 32-bit draws |
| Random.DigitsOfJoined | FixedWidth.swift:252-258 | different sequences of draws join to different numbers, below 2^(32 n) |
| Random.JoinedOfDigits | FixedWidth.swift:252-258 | every number below 2^(32 n) is joined from n draws |
| Random.NextBelow | Random.swift:26-40 | the lazily computed threshold returns the first accepted raw value's high half, as the eager rule does, and consumes the same draws |
| Random.DrawReturnsHighHalf | Random.swift:26-40 | in terms of the products alone: a raw value is thrown away exactly when the low half is below 2^width mod bound, and otherwise the result h is the high half, h * 2^width <= r * bound < (h + 1) * 2^width |
| Random.ThresholdIsRemainder | Random.swift:33-34 | the wrapped negation modulo the bound is 2^width modulo the bound |
| Random.AcceptedWindow | Random.swift:30-39 | the raw values accepted with result h are those whose product lies in the last part of the h-th stretch of 2^width |
| Random.DrawIsUnbiased | Random.swift:26-40 | every result below the bound has exactly floor(2^width / bound) accepted raw values |
| Random.FewRejected | Random.swift:26-40 | exactly 2^width mod bound raw values are rejected, fewer than half, and every result is below the bound |
| Random.InRange | CoreFloatingPointFunctions.swift:65-87 | a half-open range yields lower plus the bounded draw, always inside the range, even when upper - lower overflows the type |
| Random.InClosedRange | CoreFloatingPointFunctions.swift:96-127 | a closed range likewise, and the full range of the type takes one raw value |
| Random.WrappingCancels | CoreFloatingPointFunctions.swift:76-86 | the wrapping subtraction, reinterpretation and addition cancel out |
| Random.RangeIsUnbiased | CoreFloatingPointFunctions.swift:65-127 | each member of a range has the same number of accepted raw values |
| Random.FullRangeIsUnbiased | CoreFloatingPointFunctions.swift:107-114 | over the full range each member has exactly one raw value |
| MutableCollection.SwapAt | MutableCollection.swift:69-74 | exchanges two elements, or none when the indices agree |
| MutableCollection.SwappedAt | MutableCollection.swift:69-74 | which element stands where after a swap |
| MutableCollection.SwapKeepsElements | MutableCollection.swift:69-74 | a swap is a permutation |
| Shuffle.ShuffleInPlace | CollectionAlgorithms.swift:206-221 | the loop makes the swaps of its choices, and its choices are the successive bounded draws of the stream |
| Shuffle.ShuffledPermutes | CollectionAlgorithms.swift:206-221 | every run, complete or cut short, permutes the elements |
| Shuffle.ShuffledStep | CollectionAlgorithms.swift:211-220 | one more turn of the loop is one more choice |
| Shuffle.ShuffledIsInjective | CollectionAlgorithms.swift:206-221 | different choices give different arrangements of distinct elements |
| Shuffle.ChoicesFor | CollectionAlgorithms.swift:206-221 | for every permutation there are choices that produce it |
| Shuffle.ShuffleIsABijection | CollectionAlgorithms.swift:206-221 | each permutation of distinct elements is produced by exactly one choice sequence |
| Shuffle.EveryChoiceIsEquallyLikely | CollectionAlgorithms.swift:206-221 | every choice sequence is made by the same number of accepted raw runs |
| Shuffle.ShuffleIsUniform | CollectionAlgorithms.swift:206-221 | so every permutation is produced by the same number of accepted raw runs |
| Shuffle.DrawnFromTheFront | CollectionAlgorithms.swift:212-214 | the first choice is a draw below n, the others are those of a shuffle of n - 1 elements |
| Shuffle.RunMakesChoices | CollectionAlgorithms.swift:212-214 | whatever draws make a counted run for the choices c, rejected draws in between included, the shuffle makes exactly c and uses exactly those draws |
| Shuffle.ChoicesComeFromRun | CollectionAlgorithms.swift:212-214 | whenever the shuffle makes the choices c, its draws made a counted run for c; so the uniformity is that of the shuffle itself |
| Partition.FirstIndex | CollectionAlgorithms.swift:48-59 | the first matching position, or the end |
| Partition.HalfStablePartition | CollectionAlgorithms.swift:112-124 | permutes in place; before the pivot stand the failing elements in their old order, after it the satisfying ones |
| Partition.PartitionTwoEnded | CollectionAlgorithms.swift:146-180 | permutes in place; failing elements before the pivot, satisfying ones after it, the pivot is the count of failing elements, and there is one swap for each misplaced element of the first part |
| Partition.EndsSwap | CollectionAlgorithms.swift:166-176 | a swap settles one misplaced element at each end |
| Partition.HalfStep | CollectionAlgorithms.swift:115-123 | one turn of the half-stable loop keeps the failing elements in order |
| ArrayBuffer.MoveInitialize | UnsafePointer.swift:314-337 | moves a range over uninitialized slots, overlapping either way, never reading a slot already emptied nor initializing a live one |
| ArrayBuffer.MoveAssign | UnsafePointer.swift:361-375 | moves a range over live slots that do not overlap it |
| ArrayBuffer.Deinitialize | UnsafePointer.swift:405-411 | empties exactly the range |
| ArrayBuffer.MovedUp | UnsafePointer.swift:316-325 | front to back, the slot to read is still live and the slot to fill vacant |
| ArrayBuffer.MovedDown | UnsafePointer.swift:326-335 | back to front, the slot to read is still live and the slot to fill vacant |
| ArrayBuffer.Buffer.ReplaceSubrange | ArrayBufferProtocol.swift:103-177 | the buffer then holds old[..lo] + new + old[hi..] in exactly its first `count` slots, in the growing, same-size, long-tail and short-tail cases |
| ArrayBuffer.GrowBegins | ArrayBufferProtocol.swift:122-125 | moving the tail up is legal and leaves the hole for the new values |
| ArrayBuffer.GrowStep | ArrayBufferProtocol.swift:127-137 | assignment meets a live slot and initialization a vacant one |
| ArrayBuffer.GrowEnds | ArrayBufferProtocol.swift:122-139 | the grown buffer is the spliced sequence |
| ArrayBuffer.OverwriteStep | ArrayBufferProtocol.swift:140-149 | the slots assigned in place are live |
| ArrayBuffer.SameSizeEnds | ArrayBufferProtocol.swift:140-154 | without growth the overwritten buffer is the spliced sequence |
| ArrayBuffer.ShrinkMoves | ArrayBufferProtocol.swift:156-175 | the moves and the final deinitialization of both shrinking cases are legal |
| ArrayBuffer.LongTailEnds | ArrayBufferProtocol.swift:158-167 | after the two-part move of a long tail the buffer is the spliced sequence |
| ArrayBuffer.ShortTailEnds | ArrayBufferProtocol.swift:168-175 | after the move of a short tail the buffer is the spliced sequence |
| ArrayBuilder.DoublingIsExactWhen | ArrayShared.swift:132-134 | doubling a capacity on a 16-bit Int is right exactly below 2^14 and negative from there on |
| ArrayBuilder.Builder.constructor | ContiguousArrayBuffer.swift:974-986 | an empty builder with the announced room |
| ArrayBuilder.Builder.Add | ContiguousArrayBuffer.swift:988-1008 | appends one element, doubling full storage; remaining capacity stays capacity minus written, and all moves so far stay below the capacity and below twice the elements; it fails, moving past the end of the new storage, exactly when full storage has 2^14 slots or more |
| ArrayBuilder.Builder.AddWithExistingCapacity | ContiguousArrayBuffer.swift:1010-1019 | appends one element in place |
| ArrayBuilder.Builder.Finish | ContiguousArrayBuffer.swift:1026-1059 | hands over storage that holds exactly the added elements, with the right count |
| ArrayBuilder.CopySequence | ContiguousArrayBuffer.swift:869-892 | the copy equals the sequence for every underestimate, with fewer than 2n moves and none when the estimate is exact; it fails exactly when doubling cannot reach the length |
| ArrayBuilder.LongestUnannounced | ContiguousArrayBuffer.swift:869-892 | with nothing announced, 16384 elements can be copied and 16385 cannot |
| ArrayBuilder.AppendCollection | ContiguousArrayBuffer.swift:802-836 | += yields the concatenation, in place when there is room and otherwise with one move per old element into at least double the storage |
| SequenceSuffix.RingStep | Sequence.swift:355-363 | overwriting the oldest element drops it and appends the new one |
| SequenceSuffix.Suffix | Sequence.swift:341-380 | suffix returns the last min(k, n) elements, and traps exactly unless k <= underestimatedCount or the count is exact |
| SequenceSuffix.SuffixTraps | Sequence.swift:341-380 | one element, none announced, one asked for: a concrete trap |
| SequenceSuffix.Rotated | Sequence.swift:365-376 | the reordered copy starts with the oldest element |
| SequenceSuffix.DropLast | Sequence.swift:388-422 | dropLast returns the first max(0, underestimatedCount - k) elements |
| SequenceSuffix.DropLastIsExactWhen | Sequence.swift:388-422 | that is all but the last k elements exactly when the count is exact or there is nothing to keep |
| Flatten.Iterator.constructor | Flatten.swift:34-36 | everything is still to come |
| Flatten.Iterator.Next | Flatten.swift:44-59 | returns and removes the first element still to come, skipping empty inner collections, or nil when there is none |
| Flatten.OrderIsPositionOrder | Flatten.swift:106-135 | index < and == are < and == of positions in the concatenation |
| Flatten.IndexAt | Flatten.swift:87-135 | every position from 0 to the total has a valid index, so valid indices are order-isomorphic to positions |
| Flatten.SubscriptReadsConcat | Flatten.swift:315-317 | subscripting reads the concatenation at the index's position |
| Flatten.TotalIsLength | Flatten.swift:66-68 | the end index stands at the length of the concatenation |
| Flatten.StartIndex | Flatten.swift:149-161 | the first element, past any empty collections |
| Flatten.IndexAfter | Flatten.swift:169-186 | one position further |
| Flatten.IndexBefore | Flatten.swift:189-204 | one position back |
| Flatten.AfterThenBefore | Flatten.swift:169-204 | before undoes after |
| Flatten.BeforeThenAfter | Flatten.swift:169-204 | after undoes before |
| Flatten.Distance | Flatten.swift:218-244 | the signed difference of positions |
| Flatten.AdvanceIndex | Flatten.swift:248-251 | one position in the direction of the step |
| Flatten.IndexOffsetBy | Flatten.swift:268-276 | the index n positions away, in either direction |
| Flatten.IndexOffsetByLimited | Flatten.swift:284-300 | the index n positions away, nil exactly when the limit would be passed |
| Flatten.FormIndexLimited | Flatten.swift:303-312 | moves by n, or to the limit when that would be passed |
| Flatten.OffsetsCompose | Flatten.swift:268-276 | offsets add up, whatever their signs |
| Flatten.Iterated | Flatten.swift:44-59 | iterating terminates and delivers the concatenation |
| Flatten.Indexed | Flatten.swift:149-186 | walking the indices delivers the concatenation |
| LazyFilter.FilterOfFilter | Filter.swift:277-283 | filtering twice is filtering by the conjunction the source builds |
| LazyFilter.Iterator.constructor | Filter.swift:41-44 | everything that matches is still to come |
| LazyFilter.Iterator.Next | Filter.swift:52-59 | returns and removes the first matching element still to come, or nil |
| LazyFilter.OrderIsRankOrder | Filter.swift:91-105 | the order of valid base indices is the order of their ranks among matching elements |
| LazyFilter.IndexAt | Filter.swift:91-105 | every rank has a valid index, so valid indices are order-isomorphic to the filtered sequence |
| LazyFilter.SubscriptReadsFiltered | Filter.swift:226-228 | subscripting reads the filtered sequence at the index's rank |
| LazyFilter.RankIsLength | Filter.swift:94-105 | the rank is the length of the filtered prefix |
| LazyFilter.StartIndex | Filter.swift:94-100 | the first matching element, or the end |
| LazyFilter.FormIndexAfter | Filter.swift:116-124 | the next matching element, or the end, from any base index |
| LazyFilter.FormIndexBefore | Filter.swift:255-262 | the previous matching element, whenever there is one |
| LazyFilter.AfterThenBefore | Filter.swift:109-262 | before undoes after |
| LazyFilter.BeforeThenAfter | Filter.swift:109-262 | after undoes before |
| LazyFilter.AdvanceIndex | Filter.swift:128-132 | one matching element in the direction of the step |
| LazyFilter.Distance | Filter.swift:149-173 | counts matching elements with sign |
| LazyFilter.IndexOffsetBy | Filter.swift:176-187 | the index n matching elements away, in either direction |
| LazyFilter.IndexOffsetByLimited | Filter.swift:195-211 | likewise, nil exactly when the limit would be passed |
| LazyFilter.FormIndexLimited | Filter.swift:214-223 | moves by n, or to the limit when that would be passed |
| LazyFilter.OffsetsCompose | Filter.swift:176-187 | offsets add up, whatever their signs |
| LazyFilter.Iterated | Filter.swift:52-59 | iterating terminates and delivers the filtered sequence |
| LazyFilter.Indexed | Filter.swift:94-124 | walking the indices delivers the filtered sequence |
| Bitset.WordContains | Bitset.swift:218-221 | membership of a bit in a word |
| Bitset.WordInsert | Bitset.swift:226-232 | adds the bit, and says whether it was absent |
| Bitset.WordRemove | Bitset.swift:237-243 | removes the bit, and says whether it was present |
| Bitset.Complement | Bitset.swift:266-271 | exactly the absent bits |
| Bitset.SubtractingBelow | Bitset.swift:275-279 | the elements from the bit up |
| Bitset.IntersectingBelow | Bitset.swift:283-287 | the elements below the bit |
| Bitset.IntersectingAbove | Bitset.swift:291-295 | the elements above the bit, also for the last bit |
| Bitset.ClearLowest | Bitset.swift:349 | value & (value - 1) clears exactly the lowest set bit |
| Bitset.WordNext | Bitset.swift:346-351 | takes the least element out of the word, nil exactly when it is empty |
| Bitset.NonzeroBitCountIsCount | Bitset.swift:326-328 | the bit count is the number of elements |
| Bitset.SplitJoin | Bitset.swift:44-73 | split and join are inverse to each other on all non-negative Ints |
| Bitset.WordCountIsLeast | Bitset.swift:79-81 | the word count is the least that has room for every element below the capacity, even when the addition wraps |
| Bitset.CapacityOf | Bitset.swift:84-88 | the capacity, wrapped to an Int, for any number of words |
| Bitset.NegativeIsInvalid | Bitset.swift:93-95 | no negative element is valid, every other exactly up to the capacity |
| Bitset.IsValidExactly | Bitset.swift:93-95 | the exact condition, for any number of words, under which isValid agrees with the element having a word |
| Bitset.UnsafeBitset.Contains | Bitset.swift:99-103 | membership |
| Bitset.UnsafeBitset.Insert | Bitset.swift:108-112 | adds exactly the element, and says whether it was absent |
| Bitset.UnsafeBitset.Remove | Bitset.swift:117-121 | removes exactly the element, and says whether it was present |
| Bitset.UnsafeBitset.Clear | Bitset.swift:125-127 | the empty set |
| Bitset.UnsafeBitset.Count | Bitset.swift:135-141 | the cardinality of the set, as an Int |
| Bitset.Iterator.constructor | Bitset.swift:165-169 | the whole set is still to come |
| Bitset.Iterator.Next | Bitset.swift:172-184 | removes the least element still to come and returns it as an Int, or nil when there is none, for any number of words |
| Bitset.Iterated | Bitset.swift:149-184 | iterating terminates and delivers every member once, in strictly ascending order, for any number of words; members beyond the Ints come out wrapped |

## Left out

- SequenceSuffix.Suffix: an out-of-bounds subscript is modelled as a trap; the weak hooks that may redirect it are not part of this model.
- RefCounting.EveryMomentOfEveryRun: atomic operations are sequentially consistent single steps; weak-memory reorderings are not modelled, nor is the payload the destroyer tears down. Freed memory is taken to keep its word, which is all a second destroyer reads of it.
- Random.NextBelow: termination of the rejection loop depends on the generator; the result is proved at the first accepted draw, and a stream without one gives None.
- BinaryFloat.NextUpIsNext: `self + 0` is a builtin addition; its meaning (quiet a NaN, turn -0 into +0, keep the rest) is taken from IEEE 754.
- BinaryFloat.ExponentAndWidthOfValue: `exponent` answers Int.max for non-finite values and Int.min for zeros, which are None here.
- Hasher.Core.CombineBuffer: alignment of UInt64 is a parameter among 1, 2, 4 and 8; pointers are 16-bit addresses.
- Arithmetic, remainder, square root and rounding of floats, and conversion between formats: compiler builtins and C helpers without a visible definition.
- `random(in:)` for floats and `init(sign:exponent:significand:)`: built on builtin multiplication.
- `init(_:)` from a float maps a failed conversion to 0 instead of stopping: a one-branch reading of ConvertFloatTruncates.
- The four reserved fields of the hasher's state, where the process-wide seed comes from (it is a parameter), and AnyHashable.
- The 32-bit target, where `UInt16._lowWord` sign-extends (Integer-32.swift:509-513): widening and the tail buffer's contract do not hold there as stated.
- Masking shifts of `Int8` by 8 or more, which the source masks with 15: no modelled operation makes one.
- `dropLast(0)` and `Array(self)`: the copy is taken to hold the sequence.
- Allocation failure: every allocation succeeds with exactly the requested capacity.
- Predicates and iterators that throw or have side effects: predicates are total functions.
- Spans, Optional, Result, OptionSet, Repeat, CollectionOfOne and the per-type operators: their properties are read off one branch.
- The stubs for AVR arrays and everything marked unavailable: no behaviour to model.
