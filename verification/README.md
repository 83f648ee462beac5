# Quickstep utilities: a verified model

This project models six components of the Quickstep code base in Dafny and proves what their
interfaces and comments promise.

* **Packed bit vector** (`Words`, `MachineWords`, `BitVectorSpec`, `BitVectorShifts`, `BitVectors`, `TupleIds`).
  An array of 64-bit words, most significant bit first, that has to behave as a plain sequence of
  booleans. Everything rests on one invariant: the bits of the last word past the end are zero. The
  class `BitVectors.BitVector` has the array as its field; every method states the new boolean
  sequence and keeps the invariant. The tuple-id iterator walks over it.
* **Operator graph** (`GraphTheory`, `Scheduling`, `Dags`). Links recorded at both ends, cycle detection by
  depth-first search over two flag arrays, and the two-pass stage scheduler, with sets iterated in
  any order.
* **Prime search** (`NumberTheory`, `Primes`, `WheelThirty`). Wheel and trial division over tables that satisfy
  a stated predicate; a wheel of modulus 30 satisfies it.
* **Predicate trees** (`Predicates`, `PredicateBuilding`, `PredicateProtos`, `PredicateMatching`, `StreamingSelect`).
  Trees are flattened while they are built and cache static results; they are evaluated row by row and
  vectorised over bit vectors; they are serialised and rebuilt; the select operator chains them.
* **Spin reader/writer lock and Bloom filter** (`SpinLock`, `Bloom`, `BloomInterleaving`). The lock is a step
  system over one atomic word. The filter's insert sits on top, interleaved at single loads and stores,
  with any number of calls by each thread.
* **Interval text** (`Decimal`, `Scanner`, `ColonCounts`, `IntervalParser`, `ComplexIntervals`, `IntervalTexts`, `SimpleTexts`,
  `ComplexTexts`, `IntervalTypes`, `IntervalLaws`). The printers fill a character buffer; the parsers run the
  `sscanf` directives of section 7.21.6.2 of ISO C11 and try a simple format before a complex one. Which
  texts each format takes is stated exactly, both ways.

Findings, each stated for all inputs:

* `shiftTailBackward` differs from its documentation exactly when the tail starts on a word boundary, the
  distance is one or more whole words plus a remainder, and tail start plus distance is at most the
  size. One word then keeps its old content (`BitVectorSpec.BackwardShiftMeetsDocumentation`; the class
  models the code as it is).
* An empty disjunction reports the static result true, but adding it to another disjunction loses it:
  flattening means "or" exactly for operands that are not empty disjunctions
  (`PredicateBuilding.OnlyEmptyDisjunctionsAreLost`). Rebuilding from a description can therefore change a meaning
  when a double negation around an empty disjunction cancels (`PredicateProtos.LostOperand`). Among the
  descriptions inside which nothing is lost, those that can be added to every disjunction safely are exactly
  the ones that do not strip to an empty disjunction (`PredicateProtos.SafeExactlyWhenNotVanishing`).
* When tail start plus distance wraps around, both shifts write outside their array, the backward one for every
  vector of at most 2^64 - 64 bits
  (`BitVectorSpec.WrappedForwardShiftLeavesTheArray`, `BitVectorSpec.WrappedBackwardShiftLeavesTheArray`).
* The complex datetime format needs no blank between `days` and the hours, because its scan takes at most four
  characters of the word: "3 days1:02:03" is accepted (`IntervalLaws.DaysNeedNoBlank`).
* `INT64_MIN` is the one interval that the printers cannot negate. All others are printed and parsed back.

`dafny verify dfyconfig.toml` checks the whole project.

## Model

| member | source | states |
|---|---|---|
| `Words.PopulationCount` | `utility/BitManipulation.hpp:38-48` | shifting the word out one bit at a time counts its one bits |
| `Words.LeadingZeroCount` | `utility/BitManipulation.hpp:87-100` | the number of zeros before the first one from the most significant end, 64 for zero |
| `Words.TrailingZeroCount` | `utility/BitManipulation.hpp:139-151` | the number of zeros after the last one, 64 for zero |
| `Words.OnesIsCardinality` | `utility/BitVector.hpp:538-562` | counting ones gives the cardinality of the set of positions that are one |
| `MachineWords.UnpackOperators` | `utility/BitVector.hpp:345-421` | or, and, and complement of unsigned 64-bit integers act place by place on their bits |
| `MachineWords.LeftOperator` | `utility/BitVector.hpp:961-1040` | `<<` on a 64-bit integer, at every distance below 64, moves its bits toward the front and brings in zeros |
| `MachineWords.RightOperator` | `utility/BitVector.hpp:1042-1141` | `>>` on an unsigned 64-bit integer, at every distance below 64, moves its bits toward the back and brings in zeros |
| `MachineWords.UnpackInjective` | `utility/BitVector.hpp:865-884` | 64-bit integers with the same bits are equal, so the bit view loses nothing |
| `BitVectorSpec.BackwardShiftMeetsDocumentation` | `utility/BitVector.hpp:447-469` | the backward shift does what its comment says, for every content, if and only if the tail does not start on a word boundary, or the distance is below a word or whole words, or the tail is moved past the end |
| `BitVectorSpec.BackwardElements` | `utility/BitVector.hpp:1042-1141` | position by position what the code leaves: what stays, what becomes zero, what moves, and the one word that keeps its old bits |
| `BitVectorSpec.ForwardElements` | `utility/BitVector.hpp:961-1040` | position by position what the forward shift leaves |
| `BitVectorSpec.WrappedForwardShiftLeavesTheArray` | `utility/BitVector.hpp:969-1036` | when tail start plus distance wraps around, the zeroing branch is not taken and the last word moved lands past the array |
| `BitVectorSpec.WrappedBackwardShiftLeavesTheArray` | `utility/BitVector.hpp:1051-1132` | the same of the word at which the backward shift starts to write the moved tail |
| `BitVectorSpec.OnesInWords` | `utility/BitVector.hpp:538-562` | because padding is zero, the ones in the words are the ones of the logical sequence |
| `BitVectorSpec.FoundFirst` | `utility/BitVector.hpp:572-615` | the first word with a one, after words without any, holds the first position searched for |
| `BitVectorShifts.Funnel` | `utility/BitVector.hpp:961-1040` | combining two neighbouring words shifted by complementary amounts yields the 64 bits at an unaligned position |
| `BitVectorShifts.ForwardWords` | `utility/BitVector.hpp:961-1040` | words that each equal their shifted description store the documented forward shift and have zero padding |
| `BitVectorShifts.RemainderAssembled` | `utility/BitVector.hpp:1062-1133` | head, gap, first and merged words of a backward shift with a remainder assemble to the moved tail, stale word included |
| `BitVectorShifts.WholeWordsAssembled` | `utility/BitVector.hpp:1042-1141` | the same for a distance of whole words |
| `BitVectors.BitVector.constructor` | `utility/BitVector.hpp:71-91` | a new vector is all zeros and satisfies the padding invariant |
| `BitVectors.BitVector.Clear` | `utility/BitVector.hpp:165-167` | every logical bit becomes zero |
| `BitVectors.BitVector.AssignFrom` | `utility/BitVector.hpp:176-181` | the vector takes the other's content |
| `BitVectors.BitVector.AssignFromLonger` | `utility/BitVector.hpp:192-205` | the vector takes the other's first bits; the tail that came along in the last word is masked off |
| `BitVectors.BitVector.GetBit` | `utility/BitVector.hpp:865-868` | reads the logical bit |
| `BitVectors.BitVector.SetBit` | `utility/BitVector.hpp:876-884` | changes that bit and no other |
| `BitVectors.BitVector.SetBitRange` | `utility/BitVector.hpp:897-946` | sets exactly the bits of the range, for every alignment of both ends |
| `BitVectors.BitVector.SetBitWord` | `utility/BitVector.hpp:297-310` | replaces the 64 bits of one word and re-clears padding in the last |
| `BitVectors.BitVector.FlipBits` | `utility/BitVector.hpp:315-336` | negates every logical bit and leaves padding zero |
| `BitVectors.BitVector.IntersectWith` | `utility/BitVector.hpp:345-367` | pointwise conjunction |
| `BitVectors.BitVector.UnionWith` | `utility/BitVector.hpp:399-421` | pointwise disjunction |
| `BitVectors.BitVector.UnsetFrom` | `utility/BitVector.hpp:378-390` | bits set in the other are cleared, for vectors of different lengths too |
| `BitVectors.BitVector.Any` | `utility/BitVector.hpp:477-496` | true exactly when some logical bit is one |
| `BitVectors.BitVector.All` | `utility/BitVector.hpp:504-531` | true exactly when every logical bit is one, with a partial last word |
| `BitVectors.BitVector.OnesCount` | `utility/BitVector.hpp:538-562` | the number of logical ones |
| `BitVectors.BitVector.FirstOne` | `utility/BitVector.hpp:572-615` | the nearest one at or after the position, or the size |
| `BitVectors.BitVector.FirstZero` | `utility/BitVector.hpp:625-676` | the nearest zero at or after the position, or the size, although padding is zero |
| `BitVectors.BitVector.LastOne` | `utility/BitVector.hpp:688-750` | the nearest one before the position, or the size; the largest position means from the end |
| `BitVectors.BitVector.LastZero` | `utility/BitVector.hpp:762-828` | the nearest zero before the position, or the size |
| `BitVectors.BitVector.ShiftTailForward` | `utility/BitVector.hpp:961-1040` | in place, position by position: bits before the tail stay, the tail moves toward the front, zeros follow; padding stays zero |
| `BitVectors.BitVector.ShiftTailBackward` | `utility/BitVector.hpp:1042-1141` | in place, position by position: bits before the tail stay, zeros open up unless the tail is aligned, the distance is one or more words plus a remainder and the tail still fits, when the first word of the tail keeps its old bits; the tail moves toward the back; padding is re-zeroed |
| `TupleIds.IdsAreTheSetPositions` | `common/TupleIdSequence.hpp:236-238` | the listing has one entry for each one bit, strictly ascending, and misses none |
| `TupleIds.FirstIsNext` | `common/TupleIdSequence.hpp:57-63` | the nearest one after an entry is the next entry, or the end position |
| `TupleIds.LastIsPrevious` | `common/TupleIdSequence.hpp:65-72` | the nearest one before an entry is the previous entry |
| `TupleIds.ConstIterator.Advance` | `common/TupleIdSequence.hpp:57-63` | `++` moves to the next set id, from the wrapping before-begin value too, and stays at the end |
| `TupleIds.ConstIterator.Retreat` | `common/TupleIdSequence.hpp:65-72` | `--` moves to the previous set id, from the first to before-begin, from before-begin to the last |
| `TupleIds.ConstIterator.constructor` | `common/TupleIdSequence.hpp:98-102` | an iterator over a vector at a position |
| `TupleIds.Begin` | `common/TupleIdSequence.hpp:256-258` | `begin()` stands at the first set id, or at the end if there is none |
| `TupleIds.Visit` | `common/TupleIdSequence.hpp:256-280` | going from `begin()` to `end()` visits every set id once, in ascending order |
| `TupleIds.AdvanceThenRetreat` | `common/TupleIdSequence.hpp:57-72` | `--` undoes `++` at every set id and at before-begin |
| `GraphTheory.FinishOrderMeansAcyclic` | `utility/DAG.hpp:467-488` | a graph whose nodes can all be listed after their dependents has no cycle |
| `GraphTheory.AcyclicWalksAreShort` | `utility/DAG.hpp:409-432` | in an acyclic graph no walk has more nodes than the graph |
| `GraphTheory.LayersAreShallow` | `utility/DAG.hpp:409-432` | the layers met by the backward pass die out before the node count, so the pass terminates |
| `GraphTheory.OffsetIsLongest` | `utility/DAG.hpp:417-424` | the highest layer that has a node, plus one, is the number of nodes on its longest walk to a sink |
| `GraphTheory.EveryLengthOccurs` | `utility/DAG.hpp:399-435` | every length up to the longest is the longest walk of some node |
| `Scheduling.OffsetsAreLongestWalks` | `utility/DAG.hpp:399-435` | repeated overwriting ends with the longest-walk offset of every node |
| `Scheduling.EdgesAreOrdered` | `utility/DAG.hpp:437-452` | along each link the dependency finishes before the dependent starts, and a node starts no later than it finishes |
| `Scheduling.StagesAreFilled` | `utility/DAG.hpp:454-464` | every stage has a finishing node and no chain is longer than the number of stages |
| `Scheduling.LayersMakeASchedule` | `utility/DAG.hpp:381-465` | the outcome of the two passes satisfies all laws of a schedule: order, tight starts, latest finishes, no empty stage, least stage count |
| `Dags.ListedExactly` | `utility/DAG.hpp:457-463` | the lists of a stage hold exactly the nodes assigned to it, each once |
| `Dags.Dag.constructor` | `utility/DAG.hpp:361` | a new graph is empty |
| `Dags.Dag.CreateNode` | `utility/DAG.hpp:117-120` | a node without links is appended and its index returned |
| `Dags.Dag.CreateLink` | `utility/DAG.hpp:130-137` | exactly that link is added, both directions stay mirrored, metadata of an existing link is kept |
| `Dags.Dag.HasCycle` | `utility/DAG.hpp:366-379` | true if and only if the links form a directed cycle, self-loops included, for every iteration order |
| `Dags.Dag.HasCycleHelper` | `utility/DAG.hpp:467-488` | a positive answer exhibits a cycle; a negative one finishes the node with all its dependents finished before it |
| `Dags.Dag.FinishOffsets` | `utility/DAG.hpp:399-435` | terminates on acyclic graphs with the offsets and stage count of the layers |
| `Dags.Dag.StartStages` | `utility/DAG.hpp:437-452` | each node starts one stage after the latest finish of its dependencies, 0 without any |
| `Dags.Dag.ComputeStageSequence` | `utility/DAG.hpp:381-465` | each stage lists in ascending order exactly the nodes that start and that finish there, for start and finish stages that make a schedule |
| `NumberTheory.CompositeHasSmallFactor` | `utility/PrimeNumber.cpp:2001-2010` | a composite number has a prime factor up to its square root |
| `NumberTheory.NoSmallFactorMeansPrime` | `utility/PrimeNumber.cpp:2001-2005` | without a prime factor up to the square root a number is prime |
| `NumberTheory.PrimeAtOrAbove` | `utility/PrimeNumber.cpp:1991-2041` | there is a prime at or above every number, so the outer search ends |
| `Primes.WheelTurns` | `utility/PrimeNumber.cpp:1984-1989` | adding whole turns of the wheel changes nothing about divisibility by its primes |
| `Primes.LargePrimesAreOnWheel` | `utility/PrimeNumber.cpp:1981-1983` | every prime above the wheel's own is among the candidates |
| `Primes.NothingBetween` | `utility/PrimeNumber.cpp:2036-2040` | stepping to the next candidate, across the end of a turn too, skips only multiples of the wheel's primes |
| `Primes.PotentialPrimesAreTheWheel` | `utility/PrimeNumber.cpp:2015-2030` | the potential primes, turn after turn, are exactly the numbers on the wheel from the first non-small prime on |
| `Primes.PotentialSteps` | `utility/PrimeNumber.cpp:2017-2030` | each increment leads from one such number to the next, with none in between |
| `Primes.SpokeTried` | `utility/PrimeNumber.cpp:2017-2030` | once a potential prime is tried, no prime below the next one is left untried |
| `Primes.NotBelowFirstNonSmall` | `utility/PrimeNumber.cpp:2120-2127` | stepping back from above the first non-small prime never passes it |
| `Primes.TryDivisor` | `utility/PrimeNumber.cpp:2000-2010` | one quotient decides prime, composite or undecided, without computing a square |
| `Primes.TrialDivision` | `utility/PrimeNumber.cpp:1992-2031` | the two division loops decide primality and terminate |
| `Primes.TryPotentialPrimes` | `utility/PrimeNumber.cpp:2013-2031` | dividing by the potential primes decides primality once no small prime divides |
| `Primes.LowerBound` | `utility/PrimeNumber.cpp:1977-1979` | the first entry of an ascending table at or above the number |
| `Primes.UpperBound` | `utility/PrimeNumber.cpp:2053-2055` | the first entry above the number |
| `Primes.GetNextPrimeNumber` | `utility/PrimeNumber.cpp:1972-2042` | the least prime at or above the number; no candidate tried exceeds the answer |
| `Primes.GetPreviousPrimeNumber` | `utility/PrimeNumber.cpp:2044-2129` | the greatest prime at or below the number, 0 exactly when there is none |
| `Primes.LastCandidateAtOrBelow` | `utility/PrimeNumber.cpp:2057-2073` | the starting candidate is on the wheel, at or below the number, with no prime in between |
| `Primes.PreviousCandidate` | `utility/PrimeNumber.cpp:2120-2127` | the step back reaches a lower candidate, skips no prime, and its turn counter does not go below 0 |
| `WheelThirty.TablesAreGood` | `utility/PrimeNumber.cpp:859-868` | the conditions put on the tables hold of a wheel built from 2, 3 and 5 |
| `SpinLock.InitialHolds` | `threading/SpinSharedMutex.hpp:54-56` | the invariant holds when no thread is inside a call |
| `SpinLock.StepKeeps` | `threading/SpinSharedMutex.hpp:58-130` | every atomic step of every thread keeps the invariant, for fewer than 2^31 threads |
| `SpinLock.RunKeeps` | `threading/SpinSharedMutex.hpp:58-130` | the invariant holds in every reachable state |
| `SpinLock.MutualExclusion` | `threading/SpinSharedMutex.hpp:72-84` | in every reachable state an exclusive holder is the only holder of either kind |
| `SpinLock.WordCounts` | `threading/SpinSharedMutex.hpp:99-106` | the low 31 bits count shared holders plus failed readers not yet undone, and never overflow into the write bit |
| `SpinLock.NoEntryPastWriter` | `threading/SpinSharedMutex.hpp:95-119` | no thread enters shared mode while a writer is active or pending |
| `SpinLock.WordTells` | `threading/SpinSharedMutex.hpp:133-137` | the write bit is set exactly when some thread is an active or pending writer, and the rest is zero exactly when no reader counts |
| `SpinLock.StepAnswers` | `threading/SpinSharedMutex.hpp:58-130` | in every reachable state, by what the other threads do: a first try locks exclusively, waits for readers, or tries again; a waiting writer enters exactly when no reader counts; a reader enters exactly when there is no writer, and otherwise undoes and spins |
| `SpinLock.StepExists` | `threading/SpinSharedMutex.hpp:58-130` | every thread always has a step, outside any call towards either mode |
| `SpinLock.RunsGoOn` | `threading/SpinSharedMutex.hpp:58-130` | every run goes on with a step of any thread |
| `Bloom.BytesAreTheirBits` | `utility/BloomFilter.hpp:299-302` | byte arrays with the same positions set are equal |
| `Bloom.WithBitSets` | `utility/BloomFilter.hpp:226` | or-ing the mask into its byte sets that position and changes no other |
| `Bloom.InsertedSets` | `utility/BloomFilter.hpp:241-251` | inserting a key adds exactly the positions of its hash functions |
| `Bloom.InsertedHashes` | `utility/BloomFilter.hpp:241-251` | a position is set after inserting a key exactly when it was set before or is the value of some hash function of the key modulo the number of bits |
| `Bloom.ContainedHashes` | `utility/BloomFilter.hpp:264-274` | a key is contained exactly when the position of every hash function, taken modulo the number of bits, is set |
| `Bloom.SetBitsShiftDown` | `utility/BloomFilter.hpp:299-302` | a position is set exactly when its byte, shifted down by the position modulo eight, ends in a one |
| `Bloom.InsertedAllSets` | `utility/BloomFilter.hpp:241-251` | after any list of keys the positions set are the old ones and those of the keys, whatever the order |
| `Bloom.ContainedAfterInsert` | `utility/BloomFilter.hpp:264-274` | no false negatives: bytes with at least an insertion's bits contain its key |
| `Bloom.BloomFilter.constructor` | `utility/BloomFilter.hpp:143-147` | a new filter has no position set |
| `Bloom.BloomFilter.InsertUnSafe` | `utility/BloomFilter.hpp:241-251` | sets the positions that the hash functions of the key name, each hash modulo the number of bits, and no other |
| `Bloom.BloomFilter.Insert` | `utility/BloomFilter.hpp:191-231` | run alone, check-then-set sets the same positions as the unsafe insert, and leaves the same bytes |
| `Bloom.BloomFilter.CheckBits` | `utility/BloomFilter.hpp:206-217` | under the read lock, for each hash function whether its position, the hash modulo the number of bits, is set already |
| `Bloom.BloomFilter.Contains` | `utility/BloomFilter.hpp:264-274` | true exactly when for every hash function its position, the hash modulo the number of bits, is set |
| `Bloom.BloomFilter.BitwiseOr` | `utility/BloomFilter.hpp:282-287` | the positions of either filter, so every key of either is contained |
| `BloomInterleaving.StartHolds` | `utility/BloomFilter.hpp:191-203` | the invariant of concurrent insertions holds at the start, with any bits already set and every thread outside a call |
| `BloomInterleaving.StepKeepsSystem` | `utility/BloomFilter.hpp:205-229` | every step keeps it, beginning a call included: what a call saw or set stays set, the keys of calls that have returned stay contained, and a byte loaded under the exclusive lock is still current when it is stored |
| `BloomInterleaving.InvariantReached` | `utility/BloomFilter.hpp:191-231` | it holds in every state of every interleaving |
| `BloomInterleaving.ExecutionGrows` | `utility/BloomFilter.hpp:191-231` | no interleaving ever loses a bit |
| `BloomInterleaving.ContainedForever` | `utility/BloomFilter.hpp:191-231` | once any insert call of any thread has returned, its key is contained in every later state, with any number of calls by each thread |
| `BloomInterleaving.EveryLaterReadFindsItsBit` | `utility/BloomFilter.hpp:253-274` | so an unlocked membership test whose reads are spread over later states answers true |
| `BloomInterleaving.SameAsSequential` | `utility/BloomFilter.hpp:191-251` | whenever no call is under way, the bytes are those of the unsafe insertions of the keys of all calls that have returned, in any order |
| `BloomInterleaving.QuietBits` | `utility/BloomFilter.hpp:191-231` | and then a bit is set exactly when it was at the start or a hash function of a returned key names it |
| `BloomInterleaving.CallReturns` | `utility/BloomFilter.hpp:191-231` | from every reachable state without a call under way, a call of any thread can run to its return and sets exactly the bits that its hash functions name |
| `Predicates.StaticMeansAlways` | `expressions/predicate/PredicateWithList.hpp:46-56` | a cached static result is the predicate's meaning on every row and under every comparison outcome |
| `Predicates.DynamicsDecide` | `expressions/predicate/ConjunctionPredicate.cpp:69-84` | without a static result the dynamic operands alone decide |
| `Predicates.MeaningByClass` | `expressions/predicate/NegationPredicate.cpp:42-49` | what holds on a row: the comparison's outcome, the opposite of the operand, all operands, or some operand |
| `Predicates.MatchesForSingleTuple` | `expressions/predicate/DisjunctionPredicate.cpp:69-84` | the evaluator over cached results and dynamic operands agrees with the cache-free meaning, for every kind of predicate; a comparison answers its outcome and a negation the opposite of its operand |
| `PredicateBuilding.ConjunctionPredicate.constructor` | `expressions/predicate/PredicateWithList.hpp:36-38` | a new conjunction is static true |
| `PredicateBuilding.ConjunctionPredicate.ProcessStaticOperand` | `expressions/predicate/ConjunctionPredicate.cpp:186-191` | the flags stay those recomputed from the operands seen |
| `PredicateBuilding.ConjunctionPredicate.ProcessDynamicOperand` | `expressions/predicate/ConjunctionPredicate.cpp:193-199` | the same when dynamic operands arrive |
| `PredicateBuilding.ConjunctionPredicate.AddPredicate` | `expressions/predicate/ConjunctionPredicate.cpp:149-184` | splices a conjunction's operands after its own, appends anything else to its list, and leaves the flags as recomputed from both lists |
| `PredicateBuilding.DisjunctionPredicate.constructor` | `expressions/predicate/DisjunctionPredicate.hpp:48-50` | a new disjunction is fresh and static true |
| `PredicateBuilding.DisjunctionPredicate.ProcessStaticOperand` | `expressions/predicate/DisjunctionPredicate.cpp:200-210` | the flags stay those recomputed from the operands seen, starting from the fresh state |
| `PredicateBuilding.DisjunctionPredicate.ProcessDynamicOperand` | `expressions/predicate/DisjunctionPredicate.cpp:212-220` | the same when dynamic operands arrive |
| `PredicateBuilding.DisjunctionPredicate.AddPredicate` | `expressions/predicate/DisjunctionPredicate.cpp:163-198` | splices a disjunction's operands after its own, appends anything else to its list, keeps the flags and the fresh mark in step |
| `PredicateBuilding.CachedWhenDecided` | `expressions/predicate/PredicateWithList.hpp:46-56` | a list predicate has a cached result exactly when a static operand decides it or no operand is dynamic, and which result that is |
| `PredicateBuilding.AddingAllKeepsBuilt` | `expressions/predicate/DisjunctionPredicate.cpp:163-220` | after any sequence of additions the cached results are right on every level and no list predicate holds one of its own kind |
| `PredicateBuilding.AddedConjunct` | `expressions/predicate/ConjunctionPredicate.cpp:149-184` | adding an operand to a conjunction means "and" |
| `PredicateBuilding.AddedDisjunct` | `expressions/predicate/DisjunctionPredicate.cpp:163-198` | adding an operand to a disjunction means "or", unless one of them is an empty disjunction |
| `PredicateBuilding.FlattenedConjunction` | `expressions/predicate/ConjunctionPredicate.cpp:149-199` | a flattened conjunction holds exactly when all added operands hold |
| `PredicateBuilding.FlattenedDisjunction` | `expressions/predicate/DisjunctionPredicate.cpp:163-220` | a flattened disjunction holds exactly when some non-empty added operand holds, or all are empty |
| `PredicateBuilding.OnlyEmptyDisjunctionsAreLost` | `expressions/predicate/DisjunctionPredicate.cpp:163-188` | an operand always adds its meaning if and only if it is not an empty disjunction |
| `PredicateBuilding.ConjunctionRebuilds` | `expressions/predicate/ConjunctionPredicate.cpp:51-67` | re-adding a conjunction's static, then dynamic operands gives the same conjunction |
| `PredicateBuilding.DisjunctionRebuilds` | `expressions/predicate/DisjunctionPredicate.cpp:51-67` | the same for a disjunction |
| `PredicateProtos.RebuiltIsBuilt` | `expressions/ExpressionFactories.cpp:55-99` | every valid description rebuilds to a tree with right caches, no same-kind nesting and no double negation |
| `PredicateProtos.VanishingIsEmpty` | `expressions/ExpressionFactories.cpp:73-95` | which descriptions rebuild to an empty disjunction |
| `PredicateProtos.RebuiltDisjunction` | `expressions/ExpressionFactories.cpp:86-95` | on a row a rebuilt disjunction keeps its meaning if and only if nothing vanishes, all vanish, or another operand holds |
| `PredicateProtos.RebuiltMeansTheSame` | `expressions/ExpressionFactories.cpp:55-99` | rebuilding keeps the meaning on every row when no operand vanishes beside one that does not |
| `PredicateProtos.ProtoKeepsMeaning` | `expressions/predicate/NegationPredicate.cpp:30-36` | every predicate's description is valid and says what the predicate means |
| `PredicateProtos.DescribedInOrder` | `expressions/predicate/ConjunctionPredicate.cpp:32-49` | a list predicate is described by its static, then its dynamic operands, each in order |
| `PredicateProtos.ProtoRoundTrip` | `expressions/ExpressionFactories.cpp:55-148` | without double negations, serialising and rebuilding yields the identical predicate, caches included |
| `PredicateProtos.SafeExactlyWhenNotVanishing` | `expressions/ExpressionFactories.cpp:86-95` | a description inside which nothing is lost can be added to any disjunction without rebuilding changing a meaning if and only if it does not strip to the empty disjunction |
| `PredicateProtos.RoundTripExactlyWhenReduced` | `expressions/ExpressionFactories.cpp:55-148` | serialising and rebuilding gives back the same predicate if and only if it has no double negation |
| `PredicateProtos.RebuildingIsIdempotent` | `expressions/ExpressionFactories.cpp:55-99` | one pass of rebuilding reaches a fixed point of serialise-then-rebuild |
| `PredicateProtos.LostOperand` | `expressions/predicate/NegationPredicate.cpp:111-120` | a predicate that rebuilding turns from true to false on every row: double negation around an empty disjunction |
| `PredicateProtos.ReconstructFromProto` | `expressions/ExpressionFactories.cpp:55-99` | the recursive builder computes the rebuilt predicate |
| `PredicateProtos.Clone` | `expressions/predicate/DisjunctionPredicate.cpp:51-67` | a clone equals the original, double negations included |
| `PredicateMatching.GenerateSequenceForStaticResult` | `expressions/predicate/Predicate.cpp:41-58` | all rows of the base set or none |
| `PredicateMatching.GetAllMatches` | `expressions/predicate/Predicate.hpp:147-173` | row by row: the rows of filter and existence map on which the predicate holds, whether or not evaluation short-circuits |
| `PredicateMatching.NegationMatches` | `expressions/predicate/NegationPredicate.cpp:70-92` | inverting the operand's matches and cutting back to filter and existence map gives the negation's matches |
| `PredicateMatching.ConjunctionMatches` | `expressions/predicate/ConjunctionPredicate.cpp:113-147` | narrowing the filter operand by operand, with the early stop, gives the conjunction's matches |
| `PredicateMatching.DisjunctionMatches` | `expressions/predicate/DisjunctionPredicate.cpp:113-161` | the union of the operands' matches, and the same union when matched rows are dropped from the filter |
| `PredicateMatching.WidenedByOne` | `expressions/predicate/DisjunctionPredicate.cpp:137-157` | looking at one more operand on all rows or only on the remaining ones widens the union alike |
| `StreamingSelect.FilteredRows` | `streaming_operators/StreamingSelectOperator.cpp:55-61` | the positions left in the filter are those of the selected rows, in order |
| `StreamingSelect.ChainedByOne` | `streaming_operators/StreamingSelectOperator.cpp:54-57` | passing one predicate's matches as the next one's filter conjoins them |
| `StreamingSelect.Filter` | `streaming_operators/StreamingSelectOperator.cpp:53-61` | the rows reached through the final filter, or all rows without predicates, are the selected rows in input order |
| `StreamingSelect.EmittedValues` | `streaming_operators/StreamingSelectOperator.cpp:53-93` | what is emitted, value by value: a row for each input row on which all predicates hold, in input order, with the attributes or the expressions in the order of the select list |
| `StreamingSelect.Project` | `streaming_operators/StreamingSelectOperator.cpp:66-80` | one output row per selected row, whose value i is attribute attributes[i] of that row |
| `StreamingSelect.Evaluate` | `streaming_operators/StreamingSelectOperator.cpp:81-93` | evaluating expressions column by column and reading across gives each row's values; nothing without expressions |
| `StreamingSelect.StreamingSelectOperator.Open` | `streaming_operators/StreamingSelectOperator.cpp:35-44` | succeeds exactly when closed and given a select specification; otherwise changes nothing |
| `StreamingSelect.StreamingSelectOperator.Close` | `streaming_operators/StreamingSelectOperator.cpp:101-109` | succeeds exactly when open |
| `StreamingSelect.StreamingSelectOperator.Next` | `streaming_operators/StreamingSelectOperator.cpp:46-99` | one output per input, with a row for exactly the input rows on which all predicates hold, ascending: value i is attribute attributes[i] of that row, or expression i evaluated on it; nothing without expressions |
| `Decimal.DigitsReadBack` | `types/DatetimeIntervalType.cpp:84-88` | the digits printed for a number read back as it |
| `Decimal.PaddedReadsBack` | `types/DatetimeIntervalType.cpp:105-116` | a number padded with zeros has the full width and reads back as itself |
| `Scanner.MarksAscend` | `types/IntervalParser.cpp:388-400` | positions reported by `%n` never go back and stay inside the text |
| `Scanner.ScanDigits` | `types/IntervalParser.cpp:107-115` | `%d` takes exactly the digits up to its width or the first other character |
| `Scanner.ScanField` | `types/IntervalParser.cpp:418-423` | `%d` takes white space, an optional sign and the digits after it, as far as its width goes |
| `Scanner.FieldRead` | `types/IntervalParser.cpp:107-115` | whenever `%d` reads a number, the text begins with such a field |
| `ColonCounts.ColonsBehindMarks` | `types/IntervalParser.cpp:107-116` | no position reported by a format of numbers lies past more colons than the format names |
| `IntervalParser.LowerInPlace` | `types/IntervalParser.cpp:140-143` | the buffer is lowered in place, each character once |
| `ComplexIntervals.ParseDatetimeInterval` | `types/IntervalParser.cpp:84-224` | with days, then without; sign, ranges, trailing text and the fraction's scale, as ComplexDatetimeExactly says text by text |
| `ComplexIntervals.Scale` | `types/IntervalParser.cpp:202-210` | repeated multiplication brings a fraction of so many characters to millionths |
| `IntervalTexts.DaysTextParses` | `types/IntervalParser.cpp:84-154` | any "[-]D word H:M:S[.F]", with a word of any length, is accepted exactly when the word is day or days and the fields are in range; DaysTicks gives its value |
| `IntervalTexts.FieldsInLongWordText` | `types/IntervalParser.cpp:107-134` | a word longer than the scan takes is rejected, whatever digits and colons it holds |
| `IntervalTexts.ClockTextParses` | `types/IntervalParser.cpp:154-224` | any "[-]H:M:S[.F]", which the format with days never takes, likewise, with any number of hours; ClockTicks gives its value |
| `IntervalTexts.YearsTextParses` | `types/IntervalParser.cpp:258-325` | any "[-]Y word M word", with words of any length, is accepted exactly when both are units and the months are at most 11, with the value it denotes |
| `SimpleTexts.PlainFields` | `types/IntervalParser.cpp:418-431` | the unquoted simple format yields the signed count and the lowered unit |
| `SimpleTexts.PlainRejects` | `types/IntervalParser.cpp:418-425` | nothing may follow the unit |
| `SimpleTexts.QuotedFields` | `types/IntervalParser.cpp:388-401` | count and unit inside one pair of quotes |
| `SimpleTexts.QuotedCountFields` | `types/IntervalParser.cpp:403-416` | only the count inside quotes; the first pattern does not take it |
| `SimpleTexts.SimpleFieldsExactly` | `types/IntervalParser.cpp:382-435` | the simple format takes exactly the texts "C U", "'C U'" and "'C' U", with white space before the count and between the two, and yields the count and the lowered unit |
| `ComplexTexts.ComplexDatetimeExactly` | `types/IntervalParser.cpp:84-224` | the complex format takes exactly the texts whose parts are fields in range in this order, white space where the scan allows it, and gives them the value of their parts; everything else is rejected |
| `ComplexTexts.ComplexYearMonthExactly` | `types/IntervalParser.cpp:258-325` | the same for years and months |
| `IntervalLaws.ClockTicks` | `types/IntervalParser.cpp:154-224` | "[-]H:M:S[.F]" is worth its seconds times a million plus each digit of the fraction at its own weight |
| `IntervalLaws.DaysTicks` | `types/IntervalParser.cpp:84-224` | so is "[-]D word H:M:S[.F]", when the word is day or days in any case |
| `IntervalLaws.DaysNeedNoBlank` | `types/IntervalParser.cpp:107-134` | a clock right after "days", without a blank, is accepted with the same value |
| `IntervalLaws.ShortFractionsArePadded` | `types/IntervalParser.cpp:202-208` | a fraction of fewer than six digits reads as if padded with zeros on the right |
| `IntervalLaws.ShortFractionsArePaddedAfterDays` | `types/IntervalParser.cpp:202-208` | the same after a number of days |
| `IntervalLaws.PaddingAddsNothing` | `types/IntervalParser.cpp:202-208` | six digits of fraction are worth the number they read as |
| `IntervalLaws.YearsMonths` | `types/IntervalParser.cpp:258-325` | "[-]Y word M word" is worth twelve months a year plus the months, for exactly the listed words |
| `IntervalLaws.DatetimeUnits` | `types/IntervalParser.cpp:41-82` | a count and a unit of time in any case, spacing and quoting is the count times the length of the unit in microseconds |
| `IntervalLaws.YearMonthUnits` | `types/IntervalParser.cpp:226-256` | a count and a unit of months in any case, spacing and quoting is the count times its months |
| `IntervalLaws.UnknownUnits` | `types/IntervalParser.cpp:78-81` | a count and an unknown unit without a colon is rejected |
| `IntervalLaws.LoweredLetters` | `types/IntervalParser.cpp:140-143` | lowering takes each capital to the small letter in its place in the alphabet and leaves everything else |
| `IntervalLaws.DatetimeSpelled` | `types/DatetimeIntervalType.cpp:58-120` | the printed text: sign, days if any with their word, two digits each of hours, minutes and seconds, six of fraction unless they are zero |
| `IntervalLaws.YearMonthSpelled` | `types/YearMonthIntervalType.cpp:57-126` | the printed text: sign, years and months without a part that is 0, and 0 as "0 mons" |
| `IntervalLaws.NoLeadingZero` | `types/DatetimeIntervalType.cpp:84-88` | printed numbers do not begin with a zero |
| `IntervalTypes.ClockAddsUp` | `types/DatetimeIntervalType.cpp:67-71` | splitting ticks into days, hours, minutes, seconds and subseconds loses nothing |
| `IntervalTypes.SimpleLeavesClocks` | `types/DatetimeIntervalType.cpp:130-141` | the simple pass never takes a text with a clock, whatever its digits |
| `IntervalTypes.SimpleLeavesDays` | `types/DatetimeIntervalType.cpp:130-141` | nor one that begins with days |
| `IntervalTypes.DatetimeRoundTrip` | `types/DatetimeIntervalType.cpp:58-150` | parsing a printed datetime interval gives back every tick count but INT64_MIN |
| `IntervalTypes.YearMonthRoundTrip` | `types/YearMonthIntervalType.cpp:57-156` | parsing a printed year-month interval gives back every month count but INT64_MIN, through either format |
| `IntervalTypes.PrintingIsInjective` | `types/DatetimeIntervalType.cpp:58-120` | different values print differently |
| `IntervalTypes.Append` | `types/DatetimeIntervalType.cpp:84-88` | one print into the buffer adds its text after what is there and terminates it |
| `IntervalTypes.PrintDatetime` | `types/DatetimeIntervalType.cpp:58-120` | the buffer of kPrintingChars never truncates and ends up with the specified text |
| `IntervalTypes.PrintYearMonth` | `types/YearMonthIntervalType.cpp:57-126` | the same for year-month intervals |
| `IntervalTypes.ParseDatetimeValue` | `types/DatetimeIntervalType.cpp:130-150` | on the printed form of a value it returns that value |
| `IntervalTypes.ParseYearMonthValue` | `types/YearMonthIntervalType.cpp:136-156` | on the printed form of a value it returns that value |

## Left out

- BitVectors.BitVector.ShiftTailForward: requires that tail start plus distance is a size_t; otherwise the source writes outside its array, as WrappedForwardShiftLeavesTheArray shows, and has no defined result.
- BitVectors.BitVector.ShiftTailBackward: requires the same, for the reason WrappedBackwardShiftLeavesTheArray gives; its contract states what the code does, stale word included, not what its comment says.
- BitVectors.BitVector.SetBitRange: the last read-modify-write, which has an empty mask and an index past the array when the range ends with the array, is skipped.
- PredicateProtos.RebuiltMeansTheSame: its condition is sufficient for a whole tree, where what surrounds a lost operand can mask it, for instance a conjunct that is false; it is exact for one disjunction on a row (RebuiltDisjunction) and for one operand over all disjunctions (SafeExactlyWhenNotVanishing).
- The words of the bit vector are sequences of 64 booleans; MachineWords connects the operators used on them with unsigned 64-bit integers.
- The short version of the bit vector (8, 16 and 32 bits), external storage, allocation and the destructor.
- Payloads, metadata accessors and the in-place link updates of graph nodes beyond creating nodes and links.
- The literal tables of primes, residues and increments (utility/PrimeNumber.cpp:37-1964); the prime search holds for all tables that satisfy the stated conditions.
- Machine-integer overflow in the prime search: numbers are unbounded, and all candidates tried on the way up are shown to be at most the answer.
- Memory orders, fairness and progress of the lock; its steps are sequentially consistent operations on one word.
- The hash functions of the Bloom filter are any function of key and index; element count, reset after use and file storage are not modelled.
- Comparison predicates and scalars: a comparison is any function of the row, its three serialised parts count as one, and it is evaluated row by row.
- Evaluation on joined tuples, index sub-blocks, and the window operator.
- Operands of list predicates are values: ownership, moving the operand lists out of a spliced predicate and deleting it are not modelled.
- `getStaticResult()` on a predicate without one, and an unknown predicate type, are fatal errors in the source and are excluded.
- Interval values read from text are unbounded integers; `sscanf` leaves numbers beyond their type undefined. Texts contain no NUL character, and the locale is "C".
- IntervalTypes.DatetimeRoundTrip: excludes INT64_MIN, whose negation overflows in the printer.
- IntervalTypes.YearMonthRoundTrip: excludes INT64_MIN, whose negation overflows in the printer.
- The field splitter that allows extra white space (types/IntervalParser.cpp:327-380), which the value parsers do not call.
- Padding on file output, coercibility checks and null values of the interval types.
- Datetime and month arithmetic, the catalog, type factories, typed values, pointer containers, string utilities and query plans.
