# Verified models of dlib's numbers, inference, sorting and codecs

A Dafny model of the parts of this dlib tree that do the hardest computing, with proofs of what they promise.
Every algorithm is written the way the C++ is: loops over buffers, records that are changed in place, sets of pending
messages. Each such method is proved against a specification, and what the specification means is proved by lemmas.

* **Arbitrary-precision integers** (`Digits`, `Columns`, `DataRecord`, `Bits`, `Kernels`, `Comparison`, `Shifts`,
  `LongArithmetic`, `ZeroProducts`). Numbers are strings of 16-bit digits, least significant first, in buffers with a count of used
  digits. All kernels are in place and allow the result to be an operand where the operators rely on that. Most loops
  are instances of one thing: carrying (or borrowing) through columns, `Columns.Propagate`.
* **Multiplication by Fourier transform** (`Rings`, `Convolution`, `Fourier`, `FastFourier`, `Complex`, `ByteStrings`,
  `FourierMultiplication`). The transform is proved over any commutative ring with a root of unity and then used over
  complex numbers with real parts.
* **Copy-on-write handles and decimal text** (`Operators`, `Handles`, `HandleLaws`, `Decimal`). `Heap` has the
  pointers from big integer objects to shared records; its methods run the kernels on the buffers of these records, in place where the
  operators do. The reference semantics is a plain map from handles to numbers and to whether their canonical form is
  certain; what its operations compute is stated as laws of arithmetic.
* **Join-tree inference** (`JoinTree`, `Schedule`, `Tables`, `Messages`, `Propagation`, `Calibration`, `Odometer`,
  `Cliques`, `Initialization`, `Totals`, `Growth`, `Elimination`, `ProperNetworks`, `Marginals`, `Posteriors`,
  `BayesNetwork`, `Inference`). From the initial tables over the message scheduler to the posterior distribution of a
  node: the answer of `probability` is the one the definition of a bayesian network asks for, for every network, every join
  tree and every choice the scheduler makes.
* **Introsort** (`Sorting`), **base64** (`Base64`, `Base64Format`), **serialization** (`IntegerFormat`,
  `Serialization`, `SerializedForms`, `Truncation`, `FoundValues`), the **growable array** (`DlibArray`)
  and the **cross-validation folds** built on it (`CrossValidation`).

Integers are unbounded unless a width matters: 16-bit digits, the 32-bit differences whose bit 31 is the borrow, the
64-bit coefficients of the carry loop, the bytes of base64 and the signed and unsigned types of the integer format have
theirs. Bitwise `|` is `Bits.BitOr`; masks and shifts are written as division and remainder. Probabilities and the
parts of complex numbers are exact reals.

Where the code and its comments disagree, the model follows the code:

* `bigint_kernel_1.h` line 33 speaks of base 65535; every kernel computes in base 65536.
* its contract of `short_div` names the product where the quotient is meant, and that of `shift_left` divides the
  amount by 8; the code divides by 16.
* the contract of `long_div` asks for less room than the code uses: while quotient bits are appended the quotient may
  need one digit more than the dividend has, which is what `LongArithmetic.LongDiv` requires and the operators allow.
* the contract of `heapify` names `i/2` and `i/2+1` as the children of `i`; the code uses `2i+1-start` and `2i+2-start`.
* `short_mul` by zero keeps the number of digits and `shift_left` of zero by 16 or more adds some; `Kernels.ShortMul`
  and `Shifts.ShiftLeft` say exactly when the result is canonical. A caller of `operator*` can tell: 65536 times the
  16-bit zero is not equal to zero (`ZeroProducts`).
* a second call of `splitImagesIntoFolds` fills again from fold 0 on (`CrossValidations.Joined`).
* `is_join_tree` does not check that every family of the network lies in some clique, which the algorithm relies on;
  it is a condition of its own here (`Initialization.CoversFamilies`).
* the decoder of base64 counts a pad character, but not as the very first character (`Base64Codec.LeadingPad`).

## Model

| member | source | states |
|---|---|---|
| `Digits.ValAppend` | dlib/bigint/bigint_kernel_1.h:32-44 | a digit string is worth its low part plus its high part times the weight of the split |
| `Digits.ValBound` | dlib/bigint/bigint_kernel_1.h:32-44 | n digits stand for a number from 0 to 65536^n - 1 |
| `Digits.TopDigit` | dlib/bigint/bigint_kernel_1.h:32-44 | the top digit separates what lies below it from its own weight |
| `Digits.ShorterIsSmaller` | dlib/bigint/bigint_kernel_1.cpp:1553-1562 | of two canonical numbers the one with fewer digits is smaller |
| `Columns.PropagateValue` | dlib/bigint/bigint_kernel_1.cpp:984-1010 | carrying columns of any sign into digits keeps the number: digits plus outgoing carry times its weight equal the columns plus the incoming carry |
| `Columns.PropagateFits` | dlib/bigint/bigint_kernel_1.cpp:1000-1010 | if the columns stand for a number that fits, the final carry is zero |
| `Records.DataRecord.constructor` | dlib/bigint/bigint_kernel_1.h:58-69 | a new record is fresh, has one reference and stands for zero in canonical form |
| `Records.DataRecord.Copy` | dlib/bigint/bigint_kernel_1.h:71-94 | a copy is a fresh record with the same digits and room for additional ones |
| `Kernels.LongAdd` | dlib/bigint/bigint_kernel_1.cpp:1162-1236 | the result has the sum of the operands, whichever is longer and also when it is one of them, and is canonical if they are |
| `Kernels.ShortAdd` | dlib/bigint/bigint_kernel_1.cpp:973-1011 | the result has the sum with a 16-bit number, in place or not, canonical if the operand is |
| `Kernels.LongSub` | dlib/bigint/bigint_kernel_1.cpp:1240-1295 | the result has the difference and is always canonical, in place or not, although borrows are found in bit 31 of 32-bit differences |
| `Kernels.SubDigits` | dlib/bigint/bigint_kernel_1.cpp:1255-1271 | 32-bit subtraction with borrow in bit 31 is exactly borrowing in base 65536 |
| `Kernels.ShortSub` | dlib/bigint/bigint_kernel_1.cpp:1015-1060 | the difference with a 16-bit number that is not larger, canonical if the operand is |
| `Kernels.ShortMul` | dlib/bigint/bigint_kernel_1.cpp:1064-1107 | the product with a 16-bit number always; from a canonical operand it is canonical if and only if the factor is not zero or the operand has one digit |
| `Kernels.ShortDiv` | dlib/bigint/bigint_kernel_1.cpp:1111-1158 | operand == value * quotient + remainder with remainder < value, and a canonical quotient from a canonical operand |
| `Kernels.DivideDigits` | dlib/bigint/bigint_kernel_1.cpp:1144-1158 | dividing digit by digit from the top keeps dividend == value * quotient + remainder |
| `Kernels.QuotientSize` | dlib/bigint/bigint_kernel_1.cpp:1130-1142 | the quotient loses its top digit exactly when the top digit of the operand is below the divisor |
| `Kernels.Increment` | dlib/bigint/bigint_kernel_1.cpp:1618-1663 | adds one, in place or not, canonical if the source is |
| `Kernels.Decrement` | dlib/bigint/bigint_kernel_1.cpp:1667-1714 | subtracts one from anything but zero, in place or not, canonical if the source is |
| `Comparison.IsLessThan` | dlib/bigint/bigint_kernel_1.cpp:1546-1581 | on any records the order of digit counts, then of values; on canonical records yes if and only if the left value is smaller |
| `Comparison.IsEqualTo` | dlib/bigint/bigint_kernel_1.cpp:1585-1614 | on any records yes if and only if the digits are the same; on canonical records if and only if the values are equal |
| `Comparison.HighestDifferenceDecides` | dlib/bigint/bigint_kernel_1.cpp:1562-1580 | the highest differing digit decides the order of two equally long numbers |
| `Shifts.ShiftLeft` | dlib/bigint/bigint_kernel_1.cpp:1463-1504 | the result has the operand times 2^amount, in place or not; from a canonical operand it is canonical if and only if the value is not zero or the amount is below 16 |
| `ZeroProducts.CompareProduct` | dlib/bigint/bigint_kernel_1.cpp:644-656 | a product with a 16-bit number, compared with any canonical number: equality is right unless several digits times zero are compared with zero, and less-than unless such a product is compared with a positive number of fewer digits |
| `ZeroProducts.ZeroOfTwoDigits` | dlib/bigint/bigint_kernel_1.cpp:1585-1595 | 65536 times zero is zero, not canonical, not equal to zero and not less than one |
| `ZeroProducts.ShiftedZero` | dlib/bigint/bigint_kernel_1.cpp:1463-1504 | zero shifted by 16 is zero, not canonical and not equal to zero |
| `Shifts.ShiftDigitsValue` | dlib/bigint/bigint_kernel_1.cpp:1491-1497 | the words written by a shift stand for the number times 2^k plus the bits that come in from below |
| `Shifts.ShiftRight` | dlib/bigint/bigint_kernel_1.cpp:1508-1542 | the result has half of the operand rounded down, in place or not, canonical if the operand is |
| `Shifts.HalfDigitsValue` | dlib/bigint/bigint_kernel_1.cpp:1520-1541 | the words written by a right shift stand for the number halved |
| `LongArithmetic.AlignDivisor` | dlib/bigint/bigint_kernel_1.cpp:1320-1362 | whatever the first guess of the shift, aligning ends with rhs * 2^shifts <= lhs < 2 * rhs * 2^shifts |
| `LongArithmetic.DivideStep` | dlib/bigint/bigint_kernel_1.cpp:1364-1398 | one round doubles the quotient and takes the divisor off the remainder exactly if it fits |
| `LongArithmetic.DivideBits` | dlib/bigint/bigint_kernel_1.cpp:1364-1398 | the rounds from an aligned divisor produce quotient and remainder of the original divisor |
| `LongArithmetic.LongDiv` | dlib/bigint/bigint_kernel_1.cpp:1299-1400 | for every lhs and every rhs that is not zero: lhs == result * rhs + remainder, remainder < rhs, both canonical |
| `LongArithmetic.MultiplyDigit` | dlib/bigint/bigint_kernel_1.cpp:1440-1455 | sixteen rounds of deferred shifts and additions add digit * multiplicand, and the deferred shift keeps multiplicand * 2^shift |
| `LongArithmetic.LongMul` | dlib/bigint/bigint_kernel_1.cpp:1404-1459 | shift-and-add multiplication: the product of any operands within the room of both together, canonical if they are |
| `LongArithmetic.GrownStep` | dlib/bigint/bigint_kernel_1.cpp:1463-1486 | shifts add a digit for every 16 bits in all, and one more only for a number that needs it, which is why the room of a product suffices even with leading zeros |
| `Operators.RunLongKernel` | dlib/bigint/bigint_kernel_1.cpp:84-284 | called as the operators call them, also with the result in place, the long kernels compute the operator in the room the operators give them, canonically except for sums and products of operands that are not canonical |
| `Operators.RunShortKernel` | dlib/bigint/bigint_kernel_1.cpp:546-812 | the same for the kernels with a 16-bit operand, multiplying by zero included, and from a canonical operand exactly when the result is canonical |
| `Operators.RunStep` | dlib/bigint/bigint_kernel_1.cpp:881-965 | increment and decrement compute the value and keep the canonical form |
| `Handles.LiveWhileOwned` | dlib/bigint/bigint_kernel_1.cpp:27-66 | in a valid state a record is allocated if and only if some handle is bound to it, and its reference count is the number of its handles |
| `Handles.RebindValid` | dlib/bigint/bigint_kernel_1.cpp:87-111 | leaving a shared or sole record for a new one keeps counts exact, frees the old record with its last handle, and changes one value only |
| `Handles.InPlaceValid` | dlib/bigint/bigint_kernel_1.cpp:96-103 | writing into a record is invisible to others when its count is one |
| `Handles.ShareValid` | dlib/bigint/bigint_kernel_1.cpp:42-50 | a copy shares the record and has its value |
| `Handles.UnbindValid` | dlib/bigint/bigint_kernel_1.cpp:54-66 | a destroyed handle frees its record if and only if it was the last |
| `Handles.AssignValid` | dlib/bigint/bigint_kernel_1.cpp:310-333 | giving up one record and sharing another is assignment |
| `Handles.PostValid` | dlib/bigint/bigint_kernel_1.cpp:911-926 | post-increment hands the old record to its result and gives the operand a new one |
| `Handles.Heap.Release` | dlib/bigint/bigint_kernel_1.cpp:54-66 | giving up a reference deletes the record if it was the last and otherwise only lowers the count |
| `Handles.Heap.Create` | dlib/bigint/bigint_kernel_1.cpp:18-39 | a handle made from a 32-bit number holds that number |
| `Handles.Heap.Copy` | dlib/bigint/bigint_kernel_1.cpp:42-50 | copying adds one handle with the same value |
| `Handles.Heap.Destroy` | dlib/bigint/bigint_kernel_1.cpp:54-66 | destroying removes one handle and nothing else |
| `Handles.Heap.Assign` | dlib/bigint/bigint_kernel_1.cpp:310-333 | assignment changes the left handle only, self-assignment included |
| `Handles.Heap.AssignShort` | dlib/bigint/bigint_kernel_1.cpp:856-877 | assigning a 16-bit number, in place or to a new record, changes one handle only |
| `Handles.Heap.Compound` | dlib/bigint/bigint_kernel_1.cpp:84-284 | +=, -=, *=, /= and %= change the left handle to the result and no other, also when both operands are the same handle |
| `Handles.Heap.CompoundShort` | dlib/bigint/bigint_kernel_1.cpp:546-812 | the same with a 16-bit right-hand side, multiplying by zero included, and from a canonical operand exactly when the result is canonical |
| `Handles.Heap.Step` | dlib/bigint/bigint_kernel_1.cpp:881-947 | ++ and -- change their handle by one and no other |
| `Handles.Heap.PostStep` | dlib/bigint/bigint_kernel_1.cpp:911-965 | post-increment and post-decrement return the old value and change their handle by one |
| `Handles.Heap.Binary` | dlib/bigint/bigint_kernel_1.cpp:70-256 | +, -, *, / and % return a new handle and change none |
| `Handles.Heap.ShortBinary` | dlib/bigint/bigint_kernel_1.cpp:531-786 | the operators with a 16-bit left-hand side, which look at one digit of the other operand at most |
| `Handles.Heap.Run` | dlib/bigint/bigint_kernel_1.cpp:27-965 | copy-on-write is invisible: after any run of operations every handle has the value it would have if each handle held its own number, counts are exact, and records are canonical unless several digits were multiplied by zero |
| `Handles.NextDescribes` | dlib/bigint/bigint_kernel_1.cpp:27-965 | knowing less about canonical form allows fewer operations and never predicts a wrong value or form |
| `HandleLaws.Sums` | dlib/bigint/bigint_kernel_1.cpp:70-111 | all forms of + leave the sum of the two numbers |
| `HandleLaws.Differences` | dlib/bigint/bigint_kernel_1.cpp:132-174 | all forms of - are possible exactly for a subtrahend that is not larger, for a handle also canonical, and adding it again gives the minuend |
| `HandleLaws.Products` | dlib/bigint/bigint_kernel_1.cpp:192-220 | all forms of * leave the product of the two numbers |
| `HandleLaws.Quotients` | dlib/bigint/bigint_kernel_1.cpp:232-286 | what all forms of / and % leave satisfies dividend == quotient * divisor + remainder with remainder < divisor |
| `HandleLaws.Steps` | dlib/bigint/bigint_kernel_1.cpp:881-965 | ++ and -- change the number by one, and behind their operand return what it was |
| `HandleLaws.Moves` | dlib/bigint/bigint_kernel_1.cpp:18-66 | making, copying, destroying and assigning handles changes one handle as expected |
| `HandleLaws.AddThenSubtract` | dlib/bigint/bigint_kernel_1.cpp:87-174 | a run that adds and then subtracts the same number gives every handle its value back |
| `HandleLaws.MultiplyThenDivide` | dlib/bigint/bigint_kernel_1.cpp:209-259 | so does one that multiplies and then divides, by anything but zero |
| `HandleLaws.StepThenBack` | dlib/bigint/bigint_kernel_1.cpp:881-947 | so does ++ and then -- |
| `HandleLaws.Distributes` | dlib/bigint/bigint_kernel_1.cpp:70-220 | x * (y + z) and x * y + x * z, computed by runs, are the same |
| `HandleLaws.StaysCanonical` | dlib/bigint/bigint_kernel_1.cpp:531-965 | unless several digits are multiplied by a 16-bit zero, all numbers stay canonical |
| `Handles.OthersUntouched` | dlib/bigint/bigint_kernel_1.cpp:27-965 | over any run a handle that no operation names as its target keeps its value |
| `Decimals.NumeralValue` | dlib/bigint/bigint_kernel_1.cpp:337-418 | the numeral of a number stands for it |
| `Decimals.NumeralUnique` | dlib/bigint/bigint_kernel_1.cpp:337-418 | it is the only string of digits without a superfluous leading zero that does |
| `Decimals.RoomLeft` | dlib/bigint/bigint_kernel_1.cpp:346-348 | while digits are left to print fewer than five characters a digit have been written |
| `Decimals.PrintGroups` | dlib/bigint/bigint_kernel_1.cpp:350-395 | dividing by 10000 until nothing is left writes groups that stand for the number, inside the buffer of 5 * digits + 10 characters |
| `Decimals.StripThree` | dlib/bigint/bigint_kernel_1.cpp:396-410 | skipping up to three zeros leaves no leading zero |
| `Decimals.Print` | dlib/bigint/bigint_kernel_1.cpp:337-418 | printing yields the numeral of the value, so no leading zero but in 0, and never leaves the buffer |
| `Decimals.ReadGroups` | dlib/bigint/bigint_kernel_1.cpp:440-505 | reading groups of four digits yields the number of the longest run of digits |
| `Decimals.Read` | dlib/bigint/bigint_kernel_1.cpp:423-512 | parsing skips blanks and takes the longest run of digits; without any the target keeps its value |
| `Decimals.ReadingNumeral` | dlib/bigint/bigint_kernel_1.cpp:337-512 | parsing what was printed gives the number back, after blanks and before anything but a digit |
| `Decimals.ReadingNothing` | dlib/bigint/bigint_kernel_1.cpp:430-441 | after spaces, tabs and line feeds the end of the stream or any character but a digit is an error |
| `Decimals.ReadingDigits` | dlib/bigint/bigint_kernel_1.cpp:443-512 | all digits are taken, leading zeros too, the first one the most significant |
| `Decimals.KnownNumerals` | dlib/bigint/bigint_kernel_1.cpp:337-512 | some numerals, and a number read after all kinds of blanks |
| `Decimals.Serialize` | dlib/bigint/bigint_kernel_1.h:507-517 | a serialized number is its numeral and a space |
| `Decimals.Deserialize` | dlib/bigint/bigint_kernel_1.h:519-532 | deserializing gives the number, or zero and an error |
| `Decimals.DeserializingSerialized` | dlib/bigint/bigint_kernel_1.h:507-532 | deserializing undoes serializing and leaves the rest of the stream, whatever it is |
| `Convolution.FoldOfConv` | dlib/bigint/bigint_kernel_2.cpp:1866-1883 | folding a sequence in half turns cyclic convolution into convolution of half the size |
| `Convolution.TwistOfConv` | dlib/bigint/bigint_kernel_2.cpp:1866-1883 | so does the twisted difference of the halves, for a root of unity that goes half way round to -1 |
| `Fourier.TransformOfConv` | dlib/bigint/bigint_kernel_2.cpp:1465-1509 | over any commutative ring with such a root the transform turns cyclic convolution into products entry by entry |
| `Fourier.InverseOfTransform` | dlib/bigint/bigint_kernel_2.cpp:1503-1514 | inverting after transforming multiplies every entry by the length |
| `Fourier.ConvolutionTheorem` | dlib/bigint/bigint_kernel_2.cpp:1497-1514 | transform, scaled products entry by entry, and inverse together are cyclic convolution |
| `FastFourier.StageHalvesBlocks` | dlib/bigint/bigint_kernel_2.cpp:1866-1883 | one stage of butterflies leaves twice as many blocks of half the size to transform |
| `FastFourier.UnstageJoinsBlocks` | dlib/bigint/bigint_kernel_2.cpp:1920-1938 | one inverse stage joins pairs of inverted blocks |
| `FastFourier.Fft` | dlib/bigint/bigint_kernel_2.cpp:1836-1885 | the staged butterflies in place compute the transform, for every power of two |
| `FastFourier.Ifft` | dlib/bigint/bigint_kernel_2.cpp:1889-1940 | the inverse butterflies in place compute the inverse |
| `ComplexNumbers.ComplexLaws` | dlib/bigint/bigint_kernel_2.cpp:1836-1940 | complex numbers over the reals are such a ring |
| `ByteStrings.BytesValue` | dlib/bigint/bigint_kernel_2.cpp:1478-1482 | the bytes of a number stand for it |
| `ByteStrings.PartialConvValue` | dlib/bigint/bigint_kernel_2.cpp:1465-1514 | as long as nothing comes round, cyclic convolution of byte strings multiplies the numbers |
| `ByteStrings.MixBound` | dlib/bigint/bigint_kernel_2.cpp:1522-1528 | every coefficient is at most 65025 times the number of bytes |
| `FourierMultiplication.FourierSize` | dlib/bigint/bigint_kernel_2.cpp:1462-1467 | the size is the power of two from twice to four times the number of digits |
| `FourierMultiplication.ConvolveInPlace` | dlib/bigint/bigint_kernel_2.cpp:1497-1514 | forward transforms, products and inverse leave the exact byte convolution |
| `FourierMultiplication.TwoByteSteps` | dlib/bigint/bigint_kernel_2.cpp:1524-1541 | two byte steps of the carry loop are one step in base 65536 |
| `FourierMultiplication.CarryBytes` | dlib/bigint/bigint_kernel_2.cpp:1516-1553 | the carry loop turns an exact convolution into base-65536 digits and counts the zeros on top |
| `FourierMultiplication.ProductColumns` | dlib/bigint/bigint_kernel_2.cpp:1463-1528 | the size leaves room: the coefficients are small and stand for the product, so no final carry is left |
| `FourierMultiplication.LongMulFourier` | dlib/bigint/bigint_kernel_2.cpp:1460-1569 | the convolution branch gives the canonical product |
| `FourierMultiplication.SmallRoots` | dlib/bigint/bigint_kernel_2.cpp:1836-1850 | -1 and -i are roots of unity of sizes 2 and 4 as the transform needs them |
| `FourierMultiplication.RootOfRoot` | dlib/bigint/bigint_kernel_2.cpp:1836-1850 | a square root on the unit circle of a root for one size is a root for twice the size |
| `FourierMultiplication.LongMulKernel2` | dlib/bigint/bigint_kernel_2.cpp:1405-1571 | both branches give the canonical product, so the fast one refines shift-and-add |
| `JoinTrees.TreeIsRooted` | dlib/graph_utils/graph_utils.h:1176-1180 | a connected graph without cycles hangs from node 0: every edge joins a node to its parent |
| `JoinTrees.PathSimple` | dlib/graph_utils/graph_utils.h:1093-1108 | the path along parents repeats no node |
| `Schedules.FirstGoesUp` | dlib/bayes_utils/bayes_utils.h:1526-1542 | the first message of a node always goes to its parent |
| `Schedules.SendKeeps` | dlib/bayes_utils/bayes_utils.h:1526-1566 | whatever neighbour is picked, a message that the scheduler may send is new and fair: its sender has heard from all its other neighbours |
| `Schedules.FirstCondition` | dlib/bayes_utils/bayes_utils.h:1528-1529 | the sizes of the two sets say exactly that nothing was sent and one message is awaited |
| `Schedules.RestCondition` | dlib/bayes_utils/bayes_utils.h:1544-1545 | and exactly that all messages were received and some are to be sent |
| `Schedules.PendingAfter` | dlib/bayes_utils/bayes_utils.h:1532-1563 | the two sets stay exactly the messages not yet sent and not yet received |
| `Schedules.StuckMeansDone` | dlib/bayes_utils/bayes_utils.h:1497-1569 | no deadlock: when no node may send, every directed edge has had its message |
| `Tables.IsLess` | dlib/bayes_utils/bayes_utils.h:64-89 | the comparison operator decides the order of assignments |
| `Tables.LessTotal` | dlib/bayes_utils/bayes_utils.h:64-89 | of two different assignments exactly one is less than the other |
| `Tables.LessTransitive` | dlib/bayes_utils/bayes_utils.h:64-89 | the order is transitive |
| `Tables.FirstDifference` | dlib/bayes_utils/bayes_utils.h:64-89 | the smaller assignment is less; of equally large ones the first pair that differs decides, by node and then by value |
| `Messages.Project` | dlib/bayes_utils/bayes_utils.h:401-410 | copying the members of a set of variables is restriction |
| `Messages.Marginalize` | dlib/bayes_utils/bayes_utils.h:390-414 | marginalizing enumerates the table once and saturates each sum at one |
| `Messages.MarginalEntry` | dlib/bayes_utils/bayes_utils.h:319-344 | an entry of a marginal is zero if and only if its sum is, and is the sum unless that exceeds one |
| `Propagation.NewSeparatorSupports` | dlib/bayes_utils/bayes_utils.h:1316-1317 | a zero of the new separator forces zeros of the sender |
| `Propagation.MessageKeepsConsistent` | dlib/bayes_utils/bayes_utils.h:1302-1355 | a message keeps all tables complete and not negative, and zero separator entries backed by zeros of both cliques |
| `Propagation.MessageKeepsPart` | dlib/bayes_utils/bayes_utils.h:1302-1355 | a message keeps the product of cliques over separators (0 / 0 is 0) of every part of the tree that contains both its ends or neither |
| `Propagation.MessageKeepsJoint` | dlib/bayes_utils/bayes_utils.h:1302-1355 | in particular the weight of every full assignment, even when sums are saturated |
| `Calibration.ReceiverAgrees` | dlib/bayes_utils/bayes_utils.h:1319-1350 | the second message over an edge leaves the receiver in agreement with the new separator |
| `Calibration.MessageKeepsCalibrated` | dlib/bayes_utils/bayes_utils.h:1302-1355 | if no sum is saturated, every separator stays the marginal of all who have sent over its edge |
| `Odometers.Advance` | dlib/bayes_utils/bayes_utils.h:1472-1489 | the counting loop computes the successor of an assignment |
| `Odometers.NextRank` | dlib/bayes_utils/bayes_utils.h:1472-1489 | the successor has the next rank, and only the last assignment has none |
| `Odometers.RankInjective` | dlib/bayes_utils/bayes_utils.h:1472-1489 | no two assignments have the same rank |
| `Cliques.SetEvidence` | dlib/bayes_utils/bayes_utils.h:1426-1443 | an entry starts as one if every node of the clique with evidence has its known value, and as zero otherwise |
| `Posteriors.WorldWeight` | dlib/bayes_utils/bayes_utils.h:1426-1491 | a full assignment that contradicts the evidence about some node weighs zero, any other the product of its conditional probabilities |
| `Posteriors.JointSteps` | dlib/bayes_utils/bayes_utils.h:1449-1491 | each node contributes the entry of its table for its own value and those of exactly its parents |
| `Posteriors.KnownValue` | dlib/bayes_utils/bayes_utils.h:1426-1443 | all of the probability of the evidence is with the known value of a node |
| `Cliques.MultiplyTables` | dlib/bayes_utils/bayes_utils.h:1446-1470 | every node whose family the clique has, and that no clique before has taken on, is multiplied in and assigned to this clique |
| `Cliques.FillClique` | dlib/bayes_utils/bayes_utils.h:1400-1491 | the table of a clique has an entry for every legal assignment, each set exactly once |
| `Initialization.CliqueFactorAt` | dlib/bayes_utils/bayes_utils.h:1400-1491 | a clique contributes the probabilities of its own nodes, or zero against the evidence |
| `Initialization.AllAccountedFor` | dlib/bayes_utils/bayes_utils.h:1385-1492 | every node of the network is accounted for exactly once when every family lies in some clique |
| `Initialization.InitializeCliques` | dlib/bayes_utils/bayes_utils.h:1378-1492 | the product of the initial tables is the joint distribution restricted to the evidence, at every full assignment |
| `BayesNetworks.Divide` | dlib/bayes_utils/bayes_utils.h:1319-1332 | enumerating both separators in step divides matching entries and leaves those with divisor zero |
| `BayesNetworks.Multiply` | dlib/bayes_utils/bayes_utils.h:1334-1350 | multiplies every entry of the receiver by the factor of its part in the separator |
| `BayesNetworks.BnJoinTree.PassMessage` | dlib/bayes_utils/bayes_utils.h:1302-1355 | the message update as a whole |
| `BayesNetworks.MessageExtendsRun` | dlib/bayes_utils/bayes_utils.h:1497-1569 | every message that may be sent keeps the invariants of a run |
| `BayesNetworks.BnJoinTree.SendFirst` | dlib/bayes_utils/bayes_utils.h:1526-1542 | a first message, with the removal and re-insertion of the receiver |
| `BayesNetworks.BnJoinTree.SendRest` | dlib/bayes_utils/bayes_utils.h:1544-1551 | a later message |
| `BayesNetworks.BnJoinTree.Round` | dlib/bayes_utils/bayes_utils.h:1521-1569 | a round sends something, or nobody may send |
| `BayesNetworks.BnJoinTree.Propagate` | dlib/bayes_utils/bayes_utils.h:1517-1569 | the loop terminates, having sent exactly one message over every directed edge, for every choice of neighbours |
| `BayesNetworks.LogBounded` | dlib/bayes_utils/bayes_utils.h:1517-1569 | a fair schedule sends at most one message over every directed edge |
| `BayesNetworks.CreateJoinTree` | dlib/bayes_utils/bayes_utils.h:1361-1571 | the tables keep the joint distribution and the schedule is complete and fair; for a proper network and a tree with the running intersection property no sum was saturated and every entry of every clique is the probability of its assignment together with the evidence |
| `Totals.TotalNested` | dlib/bayes_utils/bayes_utils.h:390-414 | summing over some variables is summing over the others the sums over the rest |
| `Growth.AttachOne` | dlib/graph_utils/graph_utils.h:1176-1180 | in a tree a node outside a connected part is joined to one node of it at most |
| `Growth.WayOut` | dlib/bayes_utils/bayes_utils.h:1517-1569 | the part a node has heard from has one way out: the edge over which it has yet to hear |
| `Growth.SharedWithAnchor` | dlib/graph_utils/graph_utils.h:1102-1107 | by the running intersection property what a new node shares with a part lies in the node it is attached to |
| `Elimination.RemoveLeaf` | dlib/bayes_utils/bayes_utils.h:1302-1355 | summing out the variables that only an outermost node has takes that node and its separator away |
| `Elimination.SumOut` | dlib/bayes_utils/bayes_utils.h:1302-1355 | summing a calibrated part over all variables but those of one node leaves the table of that node |
| `ProperNetworks.ProductTotal` | dlib/bayes_utils/bayes_utils.h:534-580 | the conditional probabilities of any set of nodes sum up to one over their values |
| `ProperNetworks.StartIsLight` | dlib/bayes_utils/bayes_utils.h:1385-1492 | no part of the initial tree weighs more than one when variables are summed out that only its cliques have |
| `Marginals.NextIsExact` | dlib/bayes_utils/bayes_utils.h:327-332 | in a proper network no message that the scheduler may send saturates a sum |
| `Marginals.FinalTable` | dlib/bayes_utils/bayes_utils.h:1361-1376 | after all messages the table of every clique is the sum of the weights of all full assignments |
| `Marginals.FinalTables` | dlib/bayes_utils/bayes_utils.h:1361-1376 | and therefore the marginal of the joint distribution restricted to the evidence |
| `Inference.SmallestClique` | dlib/bayes_utils/bayes_utils.h:1235-1248 | the first of the smallest cliques with a node |
| `Inference.SumOfMarginals` | dlib/bayes_utils/bayes_utils.h:416-439 | sums of marginals are marginals |
| `Inference.MarginalAtMostOne` | dlib/bayes_utils/bayes_utils.h:319-332 | in a proper network no marginal exceeds one |
| `Inference.Normalize` | dlib/bayes_utils/bayes_utils.h:441-453 | divides every entry by the sum of all; a sum of zero leaves no values |
| `Inference.JoinTreeInference.constructor` | dlib/bayes_utils/bayes_utils.h:1223-1250 | builds the tree and picks a clique for every node |
| `Inference.JoinTreeInference.Probability` | dlib/bayes_utils/bayes_utils.h:1252-1270 | returns the posterior distribution of a node given the evidence, for every network node; undefined exactly if the evidence has probability zero; one for the known value of a node with evidence and zero for its others |
| `Inference.PosteriorIsShare` | dlib/bayes_utils/bayes_utils.h:1252-1270 | the answer for a value is the share of the full assignments with it in the weight of all, where weights are products of conditional probabilities or zero against the evidence |
| `Inference.KnownForCertain` | dlib/bayes_utils/bayes_utils.h:1252-1270 | a node with evidence has its known value with probability one and every other with zero |
| `Sorting.IsortArray` | dlib/sort.h:395-422 | insertion sort orders the range, permutes it and touches nothing else |
| `Sorting.Heapify` | dlib/sort.h:286-339 | sifting down makes the tree rooted at i a heap if its children are heaps, for any start of the range, and touches nothing outside that tree |
| `Sorting.SiftStep` | dlib/sort.h:318-337 | one exchange moves the only violation one level down |
| `Sorting.RootIsGreatest` | dlib/sort.h:286-339 | the root of a heap is at least as large as everything in it |
| `Sorting.BuildHeap` | dlib/sort.h:469-475 | the first loop turns the range into a heap |
| `Sorting.ExtractGreatest` | dlib/sort.h:477-482 | each round of the second loop moves the greatest element behind the heap |
| `Sorting.HsortArray` | dlib/sort.h:451-483 | heapsort orders the range for every left, permutes it and touches nothing else |
| `Sorting.QsortPartition` | dlib/sort.h:184-228 | partitioning returns an index before which everything is less than its element and behind which nothing is, and only permutes the range |
| `Sorting.SidesSorted` | dlib/sort.h:270-275 | sorting both sides of a partition sorts the range |
| `Sorting.LevelsBound` | dlib/sort.h:265-268 | the budget allows at most 2 * (floor(log2 d) + 1) nested partitions |
| `Sorting.Log2Is` | dlib/sort.h:265-268 | the logarithm in that bound is the exponent of the greatest power of two that is not larger |
| `Sorting.SortedMeans` | dlib/sort.h:322-343 | sorted: no element is less than one before it, the range has the same elements, and the rest is untouched |
| `Sorting.QsortArrayMain` | dlib/sort.h:236-278 | the recursion orders the range and permutes it, nesting no more partitions than the budget allows |
| `Sorting.QsortArray` | dlib/sort.h:430-443 | introsort: for every strict weak order and every range the result is ordered, a permutation, unchanged outside, with at most 2 * (floor(log2(right - left)) + 1) nested partitions |
| `Base64Codec.AlphabetSymbols` | dlib/base64/base64_kernel_1.cpp:55-135 | the 64 characters of the encoding table are those of table 1 of RFC 2045, written as ranges |
| `Base64Codec.FillDecodeTable` | dlib/base64/base64_kernel_1.cpp:139-147 | the decoding table inverts the encoding table and marks everything else |
| `Base64Codec.Base64.Encode` | dlib/base64/base64_kernel_1.cpp:162-305 | the streaming encoder computes the encoding: blocks of four with a line ending after every nineteenth |
| `Base64Codec.Base64.Decode` | dlib/base64/base64_kernel_1.cpp:309-396 | the streaming decoder drops fillers, cuts what is kept into fours and decodes each, and what is left over is the error |
| `Base64Codec.Base64.SetLineEnding` | dlib/base64/base64_kernel_1.cpp:25-31 | changes the line ending and nothing else |
| `Base64Codec.BlockRoundTrip` | dlib/base64/base64_kernel_1.cpp:214-298 | one to three bytes survive encoding and decoding of their block |
| `Base64Codec.KeptEncoded` | dlib/base64/base64_kernel_1.cpp:183-211 | the decoder drops the line endings of an encoding and nothing else |
| `Base64Codec.RoundTrip` | dlib/base64/base64_kernel_1.cpp:162-396 | decoding undoes encoding without an error, for every byte sequence and every line ending |
| `Base64Codec.EncodeThenDecode` | dlib/base64/base64_kernel_1.cpp:162-396 | the same of the two methods |
| `Base64Codec.LinesAtMost76` | dlib/base64/base64_kernel_1.cpp:178-212 | in an encoding any 77 consecutive characters contain a line ending, as section 6.8 of RFC 2045 requires |
| `Base64Format.CharactersAre` | dlib/base64/base64_kernel_1.cpp:183-298 | the character at every place: 57 bytes a line and three a group, whose 24 bits are four letters of six bits from the top, with zeros for missing bytes and equals signs in their places |
| `Base64Format.BreakBefore` | dlib/base64/base64_kernel_1.cpp:183-212 | in front of every line but the first, after exactly 76 characters, is the chosen line break |
| `Base64Format.LengthIs` | dlib/base64/base64_kernel_1.cpp:162-305 | an encoding ends with its last group |
| `Base64Format.Man` | dlib/base64/base64_kernel_1.cpp:214-298 | the encodings of Man, Ma and M |
| `Base64Format.DecodedLetters` | dlib/base64/base64_kernel_1.cpp:351-366 | four letters decode to the three bytes with the same 24 bits |
| `Base64Format.DecodedPadded` | dlib/base64/base64_kernel_1.cpp:337-366 | with one or two equals signs at the end they decode to the first 16 or 8 bits |
| `Base64Format.DecodedCount` | dlib/base64/base64_kernel_1.cpp:337-346 | only equals signs in the last places leave out bytes |
| `Base64Format.LettersAreKept` | dlib/base64/base64_kernel_1.cpp:324-384 | the decoder keeps the letters of the alphabet and equals signs, but no equals sign as the very first character |
| `Base64Codec.LeadingPad` | dlib/base64/base64_kernel_1.cpp:324-326 | the decoder keeps exactly the characters that are no filler, except that a pad as the very first character is dropped |
| `IntegerFormat.NumberBytesMinimal` | dlib/serialize.h:207-212 | the bytes written are as few as can hold the number |
| `IntegerFormat.PackSigned` | dlib/serialize.h:178-223 | a value of any signed type, the least one included, is written in the form that does not depend on the type |
| `IntegerFormat.PackUnsigned` | dlib/serialize.h:306-341 | so is a value of any unsigned type |
| `IntegerFormat.UnpackSigned` | dlib/serialize.h:230-299 | the reading loop computes what a signed type finds, with wrap-around |
| `IntegerFormat.UnpackUnsigned` | dlib/serialize.h:348-407 | the reading loop computes what an unsigned type finds |
| `IntegerFormat.UnsignedRoundTrip` | dlib/serialize.h:95-99 | an unsigned type gets back exactly the values in its range and rejects all others, negatives included |
| `IntegerFormat.SignedRoundTrip` | dlib/serialize.h:95-99 | a signed type gets back a value if and only if it is in its range; longer ones are rejected |
| `IntegerFormat.SelfDelimiting` | dlib/serialize.h:34-37 | no serialized integer is a prefix of another, so the rest of the stream is untouched |
| `SerializedForms.PackedBytes` | dlib/serialize.h:110-131 | the control byte has the number of bytes and the sign; the bytes are the digits of the absolute value to the base 256, lowest first and as few as possible |
| `SerializedForms.UnsignedFound` | dlib/serialize.h:348-400 | an unsigned type fails exactly on a sign, on more bytes than it has and on a stream too short, and else reads the number |
| `SerializedForms.SignedFound` | dlib/serialize.h:230-300 | a signed type fails exactly on more bytes than it has and on a stream too short, and else reads the signed number modulo 256 to the power of its width |
| `SerializedForms.BytesAreDigits` | dlib/serialize.h:110-131 | the number read has the bytes as its digits, the first one the lowest |
| `Serialization.Serialize` | dlib/serialize.h:725-1052 | the serializers write the form of a value of any nesting of pairs, maps, vectors and strings |
| `Serialization.Deserialize` | dlib/serialize.h:739-1070 | the deserializers compute what they find at a position, errors included |
| `Serialization.SerializeFlags` | dlib/serialize.h:892-905 | writes a vector of flags as its length and one character a flag |
| `Serialization.DeserializeFlags` | dlib/serialize.h:907-923 | reads any character but 1 as false, and false for flags that the stream no longer has |
| `Serialization.FlagsRoundTrip` | dlib/serialize.h:892-923 | flags come back as they were written |
| `Serialization.FlagsAreLenient` | dlib/serialize.h:907-923 | a vector of flags is read whatever its bytes are; a byte that a single boolean would refuse is false |
| `Serialization.StoredLast` | dlib/serialize.h:831-836 | a map entry read in ascending order is added behind those read before |
| `Serialization.RoundTrip` | dlib/serialize.h:34-37 | deserializing undoes serializing at any position of any stream, for any nesting of types, and leaves the rest |
| `SerializedForms.KnownForms` | dlib/serialize.h:725-1052 | the bytes of a number, a string, a pair with a vector of flags and a map |
| `Truncation.TruncatedFails` | dlib/serialize.h:739-1070 | deserializing from a stream that ends anywhere within the serialized form fails, for any nesting of types without vectors of flags |
| `FoundValues.StringExact` | dlib/serialize.h:1054-1070 | a string is read with exactly the announced number of characters or not at all |
| `FoundValues.FoundHasShape` | dlib/serialize.h:739-1070 | whatever is read from any bytes is a value of the type: numbers in range, vectors of the announced size, maps in the order of their keys |
| `FoundValues.StoredIsAssignment` | dlib/serialize.h:831-836 | storing an entry read is assignment to the map, for a key that comes again too |
| `FoundValues.StoredAscends` | dlib/serialize.h:831-836 | and keeps the entries in the order of their keys |
| `DlibArrays.Pushed` | dlib/array/array_kernel.h:742-765 | pushing appends the item; with default spare elements the caller gets a default back |
| `DlibArrays.PopUndoesPush` | dlib/array/array_kernel.h:698-765 | popping after pushing gives back array and item |
| `DlibArrays.PushLosesNothing` | dlib/array/array_kernel.h:760-764 | pushing into spare room exchanges: array and caller together have what they had |
| `DlibArrays.PushDoubles` | dlib/array/array_kernel.h:746-758 | pushing into a full array of n gives it room for 2n + 1, with defaults in the new places |
| `DlibArrays.PopLosesNothing` | dlib/array/array_kernel.h:698-713 | popping exchanges as well |
| `DlibArrays.ResizeKeeps` | dlib/array/array_kernel.h:628-648 | resizing takes new places only if there are too few |
| `DlibArrays.DlibArray.SetSize` | dlib/array/array_kernel.h:361-382 | changes the number of elements in use and no element |
| `DlibArrays.DlibArray.SetMaxSize` | dlib/array/array_kernel.h:402-435 | empties the array, anew unless the capacity stays |
| `DlibArrays.DlibArray.Clear` | dlib/array/array_kernel.h:293-307 | leaves an empty array without capacity |
| `DlibArrays.DlibArray.Swap` | dlib/array/array_kernel.h:455-481 | exchanges everything, the position of the enumeration included |
| `DlibArrays.DlibArray.PushBack` | dlib/array/array_kernel.h:742-765 | moves the item in and hands the old element to the caller, in place or after doubling |
| `DlibArrays.DlibArray.PopBack` | dlib/array/array_kernel.h:698-713 | moves the last element out |
| `DlibArrays.DlibArray.Resize` | dlib/array/array_kernel.h:628-648 | keeps the elements in use before and after, in place or anew |
| `DlibArrays.DlibArray.MoveNext` | dlib/array/array_kernel.h:568-602 | goes through the elements one by one |
| `DlibArrays.DlibArray.Enumerate` | dlib/array/array_kernel.h:568-602 | until the first no, every element comes up once, in order |
| `CrossValidations.CrossValidation.AddImages` | extern/CrossValidation.cpp:16-29 | adds every image with its boxes to both collections |
| `CrossValidations.ExchangedElements` | extern/CrossValidation.cpp:202-209 | exchanging with a permuted index places exactly the indexed elements |
| `CrossValidations.CrossValidation.ShuffleImages` | extern/CrossValidation.cpp:185-210 | afterwards images and boxes are permuted alike |
| `CrossValidations.CrossValidation.PlaceImage` | extern/CrossValidation.cpp:70-85 | places one image with its boxes, in a new fold when one begins, the array of the caller staying empty |
| `CrossValidations.CrossValidation.SplitImagesIntoFolds` | extern/CrossValidation.cpp:58-86 | adds k + 1 folds and fills, from fold 0 on, k + 1 folds with consecutive stretches of floor(n / (k + 1)) shuffled images, boxes alike; the folds of an earlier split keep their images in front |
| `CrossValidations.FoldElement` | extern/CrossValidation.cpp:70-85 | image j of fold f is the one that the random index names at place f * size + j |
| `CrossValidations.SecondSplit` | extern/CrossValidation.cpp:70-85 | after a second split every fold is its old images followed by the new ones |
| `CrossValidations.JoinedNothing` | extern/CrossValidation.cpp:58-86 | so after the first split the folds are the stretches themselves |
| `CrossValidations.CrossValidation.CombineFoldsIntoTrainingData` | extern/CrossValidation.cpp:220-255 | the training data is folds 1 to k without the skipped one, in order, and the folds are left as they were |
| `CrossValidations.FoldsFollowIndex` | extern/CrossValidation.cpp:70-85 | every fold has exactly the images, and the boxes, that its stretch of the index names |
| `CrossValidations.FoldsDisjoint` | extern/CrossValidation.cpp:70-85 | no image is in two folds |
| `CrossValidations.TrainingTakes` | extern/CrossValidation.cpp:236-254 | the training data takes everything from the folds it takes and nothing else |
| `CrossValidations.TrainingOrder` | extern/CrossValidation.cpp:236-254 | element j of a taken fold comes once, behind the folds taken before it, and the length is the sum of their lengths |
| `CrossValidations.TrainingFollowsIndex` | extern/CrossValidation.cpp:236-254 | place for place, the training data after a split is what the random index names |
| `CrossValidations.TrainingDistinct` | extern/CrossValidation.cpp:236-254 | no image is trained with twice |
| `CrossValidations.NoLeak` | extern/CrossValidation.cpp:220-255 | no image used for training is in the skipped fold or in the one kept for testing |

## Left out

- FourierMultiplication.LongMulKernel2: rounding of floating-point arithmetic. Real and imaginary parts are exact and the root of unity, `std::cos` and `std::sin` in the code, is a parameter with the properties of one.
- Operators.RunLongKernel: the long `-` asks for a canonical right operand, and `/` and `%` for two canonical operands, since `long_sub` reads as many digits of the left operand as the right one has and `long_div` goes by `is_less_than`, which compares digit counts.
- Handles.Heap.Run: so a zero made by multiplying several digits with a 16-bit zero, and what is added to it or multiplied with it, is no such operand until it is assigned to; sums, products, copies, steps, the left side of `-` and all operations with 16-bit numbers but `k / x` and `k % x` (`Handles.Heap.ShortBinary`) go on with it. `swap`, the comparison operators with 16-bit numbers and failing allocations are not among the operations of a run.
- Calibration.MessageKeepsCalibrated: holds as long as no sum is saturated; for proper networks `Marginals.NextIsExact` shows that none is. For tables that are no conditional probabilities the weights are still kept, and nothing is claimed about marginals.
- BayesNetworks.CreateJoinTree: the tree is taken to be connected, without cycles and with every family of the network in some clique; the running intersection property is asked for only where it is used. `create_join_tree` and the checking function `is_join_tree` are not modelled.
- Inference.Normalize: dividing by a sum of zero, not-a-number in the code, is the outcome `Undefined`. The overload of `marginalize` for one variable is the general one with a set of one.
- Messages.Marginalize: the debug assertions that probabilities are at most one.
- Serialization.Deserialize: control bytes that announce no bytes make `unpack_int` run past its buffer; the outcome there is `Undefined` and the method is not called for it. Booleans, also in their own vector overload, are the only scalars besides integers; characters, sets, wide strings, floating-point and complex numbers and C arrays are not modelled.
- Truncation.TruncatedFails: types with vectors of flags are excluded, since the code reads false for flags that the stream does not have any more (`Serialization.FlagsAreLenient`).
- Base64Codec.Base64.Decode: the byte 255, for which the decoding table has no entry, is excluded.
- DlibArrays.DlibArray.MoveNext: must not be called again after it has answered no.
- CrossValidations.CrossValidation.ShuffleImages: the arrays of the class are values here (`DlibArrays.Store`); what pushing does to them is `DlibArrays.Pushed`, which `DlibArrays.DlibArray.PushBack` is proved to do in place.
- CrossValidations.CrossValidation.SplitImagesIntoFolds: asks for no images or at least k + 1, since the code divides by the number of images in a fold. The random index is any permutation; copying an image into one of equal size is a copy.
- 32-bit wrap-around of counters (`digits_used`, `size`, `references`, array sizes) and of the loop bounds of the sorts.
- Stream failure flags, exceptions of the memory manager, and the throwing paths that restore state after them.
- `assignment::operator<` of an object with itself, where both sides share one enumerator.
- The Gibbs sampler, the node editors of `bayes_utils` and the kernels of dlib's map, set, graph and directed graph, which are Dafny maps, sets and sequences here.
- Detector training, image resizing, windows, logging, timers, option parsing and pixel types; `square_root` and `median`.
