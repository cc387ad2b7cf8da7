# Verified model of the eBPF analyser's abstract domains and CFG passes

The repository checks eBPF programs by abstract interpretation. A program is an
instruction sequence; it becomes a control-flow graph whose conditional jumps
are turned into assumptions and whose chains of blocks are merged; an analysis
then runs over the graph, block by block, with a machine of 16 registers and a
stack. A register holds sets of possible numbers, offsets into memory regions
and map descriptors. The stack is a list of byte ranges ("cells") with such
values. A second analysis, on top of a numerical domain, keeps arrays as cells.

This project models those parts and proves, for all inputs:

* the value sets compute exactly what their vectors denote, and where they lose
  or misjudge values (`SetDomains`, `Rcp`); arithmetic on tagged words is
  described by its result under an exact, checkable condition
  (`ArithmeticMeaning`, `NarrowWords`, over the digits of `Bits`), and exactly
  which words a result, a restriction or a verdict is about is stated for every
  word (`ExactArithmetic`, `Restrictions`, `LinearBounds`);
* the in-place join, the store and the load of the stack cells are sound, keep
  the cells sorted and disjoint, and fit together as reads and writes should
  (`JoinWalk`, `LoadScan`, `StorePieces`, `MemDom`, `MemTheory`, `MemExact`,
  `MemNegative`);
* one instruction of the machine is sound, assigns exactly the words it should,
  and is refused exactly when it reads an uninitialised register, where reading
  is told from steps on concrete states (`MachineSound`, `TransferExact`,
  `Reading`, `Scope`, `Steps`);
* the worklist visits each block once, after its predecessors; it runs through
  exactly when no ready block meets an instruction that is refused, and its
  result is the same whatever the order of the visits (`Schedule`, `Confluence`,
  `Solutions`, `Worklist`, with `Determined` for the single instructions);
* when it ends, every concrete state that arrives at a block along any run is
  described by the machine stored for that block (`Coverage`, `AnalysisSound`);
* building the graph, replacing jumps by assumptions and merging blocks keep the
  runs of the program, in both directions and with the place of every
  instruction (`Made`, `MadeRuns`, `Nondet`, `NondetEdges`, `Chains`,
  `Contraction`, `Simplified`, `SimplifiedUnique`, `CfgObject`, `Pipeline`);
* so every state with which a program reaches an instruction is described by
  what the analysis computes there, and a constraint marked satisfied there is
  met by all those states (`Verifier`, `Assertions`, `Verdicts`);
* the overlap search of the array cells is exact in spite of its early exits,
  and along any sequence of array operations known cells equal the bytes of the
  array; what is stored or initialised is read back (`ArrayCells`, `OffsetMaps`,
  `ArrayStates`, `ArrayExact`, `ArrayDomain`).

`dafny verify dfyconfig.toml` verifies the whole project.

## How the model is laid out

Objects that the source updates in place are classes (`NumDomSet`,
`OffsetDomSet`, `RcpDomain`, `MemDom`, `MachineState`, `Analysis`, `Cfg`,
`OffsetMap`, `ArrayExpansion`). Each method is proved against a function or a
relation on values, and the properties are lemmas about those functions and
relations. A value the source passes by copy (a cell's contents, a register, a
block) is a datatype.

Concrete memory is a function from addresses to bytes; a byte is part of a
number, part of one tagged pointer, or opaque. A cell describes what a read of
exactly its range yields. Arithmetic is on unbounded integers with the 64-bit
wrap-around and the 32-bit cast written out. The bytes of map values and packets
are parts of numbers: storing anything else there is no step, and reading them
gives numbers. A program starts with the context in r1, the end of a stack of
512 bytes in r10, numbers in r13 and r14, and anything elsewhere
(`Machine.Started`); the machine of the entry block describes exactly these
states (`MachineSound.EntryIff`). `std::sort` may leave cells of
equal offset in any order, and `simplify` may take labels in any order; both
are proved for every order.

The runs of a graph are stated over an arbitrary meaning of the instructions and
the conditions (`CfgRuns.Meaning`): which states an instruction may lead to, and
which conditions hold in a state. A conditional jump goes to its target when its
condition holds and on when the reverse of the condition holds; where comparing
is comparing words (section 4.3 of RFC 9669) exactly one of the two does
(`CfgRuns.OnWordsComplementary`). The analysis uses the meaning on tagged words
(`AnalysisSound.Tagged`), in which neither may hold.

Where code and expectation differ, the code is modelled as it is and the exact
condition is proved:

* `assume` with NE removes every value found on the right. It loses no feasible
  value exactly when the right holds at most one value or shares no known value
  with the left, for one set (`SetDomains.NotEqualLossless`) and for a register
  with all its components (`Rcp.NotEqualLosslessIff`).
* `exec` computes RSH on the signed reading and ARSH on the unsigned one. The two
  right shifts are what the instruction means exactly on words without the sign
  bit, or when nothing is shifted (`SetDomains.ApplyMeansWordOp`).
* 32-bit instructions are computed like 64-bit ones. For one pair of words that is
  what the instruction means exactly under a condition on the halves of the
  words, for most operations that the result fits 32 bits
  (`NarrowWords.NarrowAgreesIff`). For whole operands the result describes the
  meaning of every two words exactly when no meaning of two elements is missing
  from it (`ArithmeticMeaning.DescribesIffCovered`,
  `ArithmeticMeaning.NarrowSumLost`), and for a move exactly when the low half of
  every element is an element (`SetDomains.MoveCoversIff`).
* `satisfied` compares with the most favourable right value. For an order
  comparison its verdict is right for every left operand exactly when the right
  holds one value (`SetDomains.SatisfiedRightIffSingle`).
* The difference of offset sets is emitted in signed order into a vector that is
  later read in unsigned order; it is in order exactly when all differences have
  the same sign (`SetDomains.DifferenceOrderedIff`).
* Adding a number to an offset, or subtracting one, casts the number to 32 bits.
  The moved pointers of a region are described exactly when every moved element
  is in the result (`ArithmeticMeaning.PointerSumsIff`,
  `ArithmeticMeaning.PointerDifferencesIff`); for one pointer and one number that
  is when the number survives the cast or the cast sum is past the limit
  (`Rcp.PointerSumDescribedIff`, `Rcp.PointerDifferenceDescribedIff`).
* A type constraint with a premise counts as satisfied when the premise is not
  certain. That verdict is right exactly when the premise is decided one way or
  the other, or the constraint needs none (`Assertions.TypeVerdictIff`).
* A stack store keeps the value as it was before being cut to the width
  (`MemTheory.StoreSoundIff`, `MemTheory.WideStoreUnsound`), and so does an
  array store (`ArrayStates.StoreSoundIffFitting`).
* The load's scan starts its maximal end at 0, so it does not recognise numeric
  ranges that end below 0 (`MemNegative`).
* The comparator for cell starts in `Cell::split` compares a cell with itself,
  so the first argument always counts as the one that starts first. The walk
  calls it only with cells in that order, which is part of what is proved.
* A conditional jump to its own fallthrough breaks the mirroring of successor
  and predecessor lists (`NondetEdges.MirroredIffNoJumpToFallthrough`), and its
  target is never visited, because its count never becomes full
  (`NondetEdges.FallthroughNeverFull`).
* A block reachable from the entry is never visited when an unreachable block
  feeds it or one of its ancestors (`Coverage.CoversIffNoStray`,
  `Coverage.StrayIsMissed`).

## Model

| member | source | states |
|---|---|---|
| `Syntax.CastsMean` | src/ai_dom_set.cpp:69 | the casts to and from 64-bit words land in their range and differ from the number by a multiple of 2^64 |
| `Syntax.Int32Means` | src/ai_dom_set.cpp:118 | the cast to int lands in the signed 32-bit range and differs from the number by a multiple of 2^32 |
| `Syntax.SetIsCommonBit` | src/asm_syntax.hpp:50-56 | SET holds exactly when the two words have a bit in common |
| `SetDomains.UnionMembers` | src/ai_dom_set.cpp:13-18 | the merged vector has exactly the members of both |
| `SetDomains.UnionSorted` | src/ai_dom_set.cpp:13-18 | merging increasing vectors gives an increasing vector |
| `SetDomains.IntersectionMembers` | src/ai_dom_set.cpp:20-25 | on increasing vectors the walk finds exactly the common members |
| `SetDomains.DifferenceMembers` | src/ai_dom_set.cpp:162-170 | on increasing vectors the walk keeps exactly the members absent from the right |
| `SetDomains.JoinHas` | src/ai_dom_set.cpp:27-33 | a joined set holds a value exactly when an operand does, top included |
| `SetDomains.MeetHas` | src/ai_dom_set.cpp:35-44 | a met set holds a value exactly when both operands do, top included; increasing vectors stay increasing |
| `SetDomains.NumExecExact` | src/ai_dom_set.cpp:46-78 | word arithmetic is the exact image of all pairs, or top when an operand is top; the result vector is increasing |
| `SetDomains.WordBits` | src/ai_dom_set.cpp:66-71 | bit i of OR, AND and XOR is the greater, the lesser and the sum mod 2 of the bits i of the operands |
| `SetDomains.MultiplySteps` | src/ai_dom_set.cpp:63 | MUL by 0 is 0 and MUL by n + 1 adds the left operand once more, mod 2^64 |
| `SetDomains.DivideAndRest` | src/ai_dom_set.cpp:64-65 | DIV and MOD are quotient and remainder of one division |
| `SetDomains.DefinedIff` | src/ai_dom_set.cpp:64-71 | the operations are defined for every right operand but 0 in divisions and 64 or more in shifts |
| `SetDomains.ApplyMeansWordOp` | src/ai_dom_set.cpp:46-78 | what is computed for a pair is what the instruction means (section 4.1 of RFC 9669), except exactly for the right shifts of words with the sign bit |
| `NarrowWords.NarrowAgreesIff` | src/ai_dom_set.cpp:46-78 | what is computed for a pair is what the 32-bit instruction means exactly when the result fits 32 bits, or for divisions and right shifts when the halves of the words agree as stated; all operations, wherever C++ defines them |
| `SetDomains.NumExecCoversIff` | src/ai_dom_set.cpp:46-78 | the result holds the meaning of every two values, 64 or 32 bits wide, if and only if an operand is top or every meaning of two elements is computed for some two elements |
| `SetDomains.WideCovers` | src/ai_dom_set.cpp:46-78 | 64 bits wide that always holds, but for the right shifts |
| `SetDomains.MoveCoversIff` | src/ai.cpp:179 | a 32-bit move, computed as a 64-bit one, holds the low half of every value if and only if the set is top or closed under it |
| `SetDomains.OffsetExecExact` | src/ai_dom_set.cpp:106-130 | offset arithmetic is top exactly when some sum is past the limit, otherwise the exact image of all pairs |
| `SetDomains.OffsetDifferenceSound` | src/ai_dom_set.cpp:132-153 | the difference of two offset sets holds the word of every pair's difference |
| `SetDomains.DifferenceOrderedIff` | src/ai_dom_set.cpp:132-153 | the result is increasing exactly when an operand is top, some difference is past the limit, or no two differences have different signs |
| `SetDomains.BoundDecides` | src/ai_dom_set.cpp:184-235 | comparing with the minimal or maximal right element decides whether some right element compares, signed and unsigned |
| `SetDomains.RestrictExact` | src/ai_dom_set.cpp:155-237 | on non-top increasing vectors assume keeps exactly the values that some right value compares with; for NE exactly those absent from the right |
| `SetDomains.RestrictHas` | src/ai_dom_set.cpp:155-237 | on all operands, top included: EQ and the order comparisons keep exactly the values that some right value compares with, or for which a side is unknown |
| `SetDomains.RestrictShrinks` | src/ai_dom_set.cpp:155-297 | assume never adds a value |
| `SetDomains.OrderLossless` | src/ai_dom_set.cpp:178-236 | EQ and the order comparisons never lose a feasible value |
| `SetDomains.NotEqualLossless` | src/ai_dom_set.cpp:155-170 | NE is lossless if and only if the right is known with at most one value or no known value is common to both |
| `SetDomains.SatisfiedExact` | src/ai_dom_set.hpp:91-98 | what satisfied decides: some right value for each left value, or for NE all pairs |
| `SetDomains.SatisfiedUnknown` | src/ai_dom_set.hpp:91-98 | an empty operand satisfies everything and, otherwise, an unknown one nothing |
| `SetDomains.SingleVerdict` | src/ai_dom_set.hpp:91-98 | with one right value, satisfied holds exactly when every pair satisfies the comparison |
| `SetDomains.WrongVerdict` | src/ai_dom_set.hpp:91-98 | with several right values there is a left operand on which the verdict is wrong |
| `SetDomains.SatisfiedRightIffSingle` | src/ai_dom_set.hpp:91-98 | the verdict is right for all left operands if and only if the right has one value |
| `SetObjects.NumDomSet.JoinWith` | src/ai_dom_set.cpp:27-33 | afterwards the object holds exactly what either held, in order if both were, also when joined with itself; the other is untouched |
| `SetObjects.NumDomSet.MeetWith` | src/ai_dom_set.cpp:35-44 | afterwards the object holds exactly what both held, in order if both were; the other is untouched |
| `SetObjects.NumDomSet.Exec` | src/ai_dom_set.cpp:46-78 | the nested loops insert the image into an ordered set |
| `SetObjects.NumDomSet.Assume` | src/ai_dom_set.cpp:155-237 | the loops of assume leave the restriction, all comparisons |
| `SetObjects.NumDomSet.Satisfied` | src/ai_dom_set.hpp:91-98 | restricting a copy and comparing decides satisfaction, without changing the object |
| `SetObjects.OffsetDomSet.Exec` | src/ai_dom_set.cpp:106-130 | the loops stop at the first sum past the limit |
| `SetObjects.OffsetDomSet.Minus` | src/ai_dom_set.cpp:132-153 | a fresh set of the differences, operands untouched |
| `SetObjects.OffsetDomSet.Assume` | src/ai_dom_set.cpp:239-297 | the restriction of an offset set, for the comparisons that do not abort |
| `Rcp.MustBeNumMeaning` | src/ai_dom_rcp.hpp:151-153 | a value that must be a number only describes numbers |
| `Rcp.MustBeNumIff` | src/ai_dom_rcp.hpp:151-153 | must_be_num holds of exactly the values that describe nothing but numbers |
| `Rcp.JoinExact` | src/ai_dom_rcp.hpp:169-171 | the pointwise join describes exactly what an operand describes, opaque words aside |
| `Rcp.JoinMustBeNum` | src/ai_dom_rcp.hpp:169-171 | a join must be a number exactly when both operands must |
| `Rcp.AddSound` | src/ai_dom_rcp.cpp:12-22 | number plus number, pointer plus number and number plus pointer lie in the sum |
| `Rcp.SubNumHas` | src/ai_dom_rcp.cpp:30-36 | the numbers of a difference are the word differences and the pointer differences of each region, and no others |
| `Rcp.SubSound` | src/ai_dom_rcp.cpp:24-45 | number minus number, pointer minus number and same-region pointer minus pointer lie in the difference |
| `ArithmeticMeaning.PointerSumsIff` | src/ai_dom_rcp.cpp:12-22 | in each region the sum holds every pointer of either operand moved by every number of the other, as 64-bit words, if and only if the result is top or every moved element is computed for some elements |
| `ArithmeticMeaning.PointerDifferencesIff` | src/ai_dom_rcp.cpp:39-44 | the same for pointers moved back by numbers |
| `ArithmeticMeaning.NumbersIff` | src/ai_dom_rcp.cpp:12-45 | the numbers of a result describe the meaning of every two numbers if and only if the meanings of the elements are covered, differences of pointers included |
| `ArithmeticMeaning.WideNumbersCovered` | src/ai_dom_set.cpp:46-78 | 64 bits wide the meanings are covered, but for the right shifts |
| `ArithmeticMeaning.DescribesIffCovered` | src/ai.cpp:177-184 | what is computed describes what the instruction computes from any two described words, pointers included, 64 or 32 bits wide, if and only if a check of finitely many elements finds no meaning missing |
| `ArithmeticMeaning.NarrowSumLost` | src/ai.cpp:180 | the 32-bit sum of 0xFFFFFFFF and 1 is not described |
| `ExactArithmetic.SumIff` | src/ai_dom_rcp.cpp:12-22 | for every word: a sum describes the sums of numbers, the pointers of either side moved by the low 32 bits of the numbers of the other (any pointer past the limit of 2^30), and the descriptors of the left, and nothing else |
| `ExactArithmetic.DifferenceIff` | src/ai_dom_rcp.cpp:24-45 | for every word: a difference describes the differences of numbers and the distances of pointers to one region, the pointers of the left moved back, and the descriptors of the left, and nothing else |
| `ExactArithmetic.OtherResultIff` | src/ai_dom_rcp.hpp:200-202 | for every word: the other operations describe what is computed of the numbers, and the pointers and descriptors of the left |
| `ExactArithmetic.DistancesIff` | src/ai_dom_set.cpp:132-153 | the difference of two offset sets holds exactly the 64-bit distances of their elements, or everything once one is past the limit |
| `Rcp.NotEqualLosslessIff` | src/ai_dom_rcp.cpp:56-61 | NE on tagged values loses no word that differs from some right word if and only if the right describes at most one word or no known component shares a value; both are decidable |
| `Rcp.RestrictSound` | src/ai_dom_rcp.cpp:56-61 | assume on tagged values keeps every word that compares with some right word (for NE under the condition of NotEqualLosslessIff) |
| `Rcp.RestrictNotEqual` | src/ai_dom_rcp.cpp:56-61 | NE takes away exactly the words that both sides know |
| `Restrictions.KeptIff` | src/ai_dom_rcp.hpp:209-214 | EQ and the order comparisons keep a number or pointer exactly when some right word compares with it, its component is unknown on the right, or (but for EQ) on the left |
| `Restrictions.DescriptorsKept` | src/ai_dom_rcp.hpp:209-214 | of the map descriptors EQ keeps the common ones, NE the others, the order comparisons all |
| `Restrictions.MasksKeepAll` | src/ai_dom_set.cpp:172-173 | SET and NSET keep every word |
| `Rcp.OneTypeSatisfied` | src/ai_dom_rcp.cpp:71-79 | on values of a single type, satisfied is that of the component |
| `Rcp.PairsOfOneType` | src/ai_dom_rcp.cpp:71-79 | on values of a single type, all pairs of described words compare exactly when all component pairs do |
| `Rcp.SatisfiedMeaning` | src/ai_dom_rcp.cpp:71-79 | on a non-empty single-type left and a single right value, satisfied holds exactly when every pair compares |
| `Restrictions.SatisfiedIff` | src/ai_dom_rcp.cpp:71-79 | on values of any types: the verdict is yes exactly when some left word is of other types, or the right is of the types too and, type by type, every left word passes against the right, neither side unknown |
| `Restrictions.FdSatisfiedIff` | src/ai_dom_set.hpp:48-55 | on descriptors the verdict is yes exactly when a side is empty, or neither is full and for EQ the left lies in the right, for NE they are disjoint |
| `RcpObject.RcpDomain.JoinWith` | src/ai_dom_rcp.hpp:169-171 | all components joined in place, also with itself |
| `RcpObject.RcpDomain.AddAssign` | src/ai_dom_rcp.cpp:12-22 | the loop over the map regions and the assignments leave the sum, although later assignments read earlier ones' operands |
| `RcpObject.RcpDomain.SubAssign` | src/ai_dom_rcp.cpp:24-45 | the difference, and zero when subtracted from itself |
| `RcpObject.RcpDomain.Assume` | src/ai_dom_rcp.cpp:56-61 | the selected components restricted, the others untouched |
| `Cells.DeadSuffix` | src/ai_dom_mem.cpp:129-130 | in the sorted array the dead slots are exactly the last ones, as many as there are |
| `Cells.OneCover` | src/ai_dom_mem.hpp:13-22 | in a sorted disjoint list a byte belongs to one cell |
| `JoinWalk.MergedInput` | src/ai_dom_mem.cpp:99-110 | the sorted concatenation of two disjoint lists has no byte in three cells, which is what the walk needs |
| `JoinWalk.SplitMiddle` | src/ai_dom_mem.hpp:28-53 | splitting overlapping neighbours gives their common part and a remainder of the cell that ends last |
| `JoinWalk.SplitReady` | src/ai_dom_mem.cpp:115-120 | whenever the walk splits, the current cell starts no later than the next and ends after its start, so no assertion of split fires |
| `JoinWalk.SplitStep` | src/ai_dom_mem.cpp:119-126 | a split keeps the walk's invariant: the remainder never starts after the next cell, visited slots are the overlaps found so far |
| `JoinWalk.SkipStep` | src/ai_dom_mem.cpp:115-118 | giving up a slot loses no overlap and keeps the invariant |
| `JoinWalk.WalkEnds` | src/ai_dom_mem.cpp:111-127 | at the end the counter equals the number of dead slots |
| `JoinWalk.Compaction` | src/ai_dom_mem.cpp:129-130 | sorting and dropping that many slots leaves exactly the overlaps, sorted and disjoint |
| `JoinWalk.PairsAreJoined` | src/ai_dom_mem.cpp:99-131 | those overlaps are the common parts of cells of one operand with cells of the other |
| `LoadScan.TiledIsNumeric` | src/ai_dom_mem.cpp:35-39 | disjoint numeric cells whose widths add up to their hull leave no gap in the range |
| `LoadScan.NumericIsTiled` | src/ai_dom_mem.cpp:35-39 | and when no gap is left the scan sees it, for ranges whose last cell does not end below 0 |
| `LoadScan.ScanDecides` | src/ai_dom_mem.cpp:19-39 | the accumulated hull, width and flag decide the result of the load |
| `StorePieces.PiecesHit` | src/ai_dom_mem.cpp:70-85 | a hit cell leaves at most a lower and an upper piece, and never more than two in all |
| `StorePieces.StoreAssembled` | src/ai_dom_mem.cpp:86-89 | kept cells, pieces and the new cell, sorted, are disjoint and are the stored list |
| `MemDom.MemDom.Load` | src/ai_dom_mem.cpp:12-40 | the exact cell if there is one, otherwise some number if every byte is numeric, otherwise anything |
| `MemDom.MemDom.Store` | src/ai_dom_mem.cpp:60-90 | the new cell, the cells it misses and the leftovers of those it hits, sorted and disjoint; forgets everything for several offsets |
| `MemDom.SplitNeighbours` | src/ai_dom_mem.cpp:111-127 | the walk over the merged array leaves every slot split or given up, and counts the slots given up |
| `MemDom.JoinCells` | src/ai_dom_mem.cpp:99-131 | sorting, walking, sorting and dropping leave exactly the common parts of the two lists, sorted and disjoint |
| `MemDom.MemDom.JoinWith` | src/ai_dom_mem.cpp:92-131 | the in-place walk leaves exactly the common parts, sorted and disjoint, with the early returns |
| `MemTheory.JoinSound` | src/ai_dom_mem.cpp:92-131 | every memory described by either operand is described by the join |
| `MemTheory.JoinCoverage` | src/ai_dom_mem.cpp:92-131 | the join covers exactly the bytes covered by both |
| `MemTheory.LoadOverJoin` | src/ai_dom_mem.cpp:12-40 | loading from a join gives componentwise at least what either operand gives, however the two partitions cut the range |
| `MemTheory.LoadSound` | src/ai_dom_mem.cpp:12-40 | every concrete read of the range lies in the result of load |
| `MemTheory.StoreSound` | src/ai_dom_mem.cpp:60-90 | a store is a sound strong update for values that fit; several offsets soundly give top |
| `MemTheory.StoreDescribesIff` | src/ai_dom_mem.cpp:60-90 | after storing a word the result describes the memory exactly when the stored value describes the word cut to the width |
| `MemTheory.StoreSoundIff` | src/ai_dom_mem.cpp:67 | a store is sound for all words of the value if and only if its numbers are unknown or stay among themselves when cut, and it has no pointer or is 8 bytes wide or knows nothing; a check of finitely many numbers |
| `MemTheory.WideStoreUnsound` | src/ai_dom_mem.cpp:67 | a number of 33 bits stored in 4 bytes is no longer described |
| `MemTheory.StoreCoverage` | src/ai_dom_mem.cpp:60-90 | a store covers exactly the old bytes and the written range |
| `MemTheory.LoadAfterStore` | src/ai_dom_mem.cpp:23-28 | loading the stored range gives exactly the stored value |
| `MemTheory.LoadElsewhere` | src/ai_dom_mem.cpp:12-40 | a load beside the stored range returns exactly what it returned before, cut cells included |
| `MemExact.LoadCellIff` | src/ai_dom_mem.cpp:12-40 | a load of a cell describes exactly what the cell does |
| `MemExact.LoadAcrossIff` | src/ai_dom_mem.cpp:12-40 | a load of any other range describes all numbers, and other words too exactly when some byte is not known to be part of a number or the last cell ends below 0 |
| `MemExact.LoadAnywhere` | src/ai_dom_mem.cpp:14-16 | a load through anything but one offset describes every word |
| `MemExact.LoadJoinedIff` | src/ai_dom_mem.cpp:92-131 | loading a cell of the join describes exactly what loading its bytes from either operand does, whatever cells they lie in there |
| `MemExact.LoadCommonCellIff` | src/ai_dom_mem.cpp:92-131 | where both operands have the cell the join has it too, and describes exactly what either does, wherever it lies |
| `MemExact.NumericAtJoinIff` | src/ai_dom_mem.cpp:92-131 | a byte of the join is known to be part of a number exactly when it is in both operands |
| `MemExact.JoinBottom` | src/ai_dom_mem.cpp:94-95 | a stack that is not reached is neutral |
| `MemNegative.LoadOverJoinIffNotNegative` | src/ai_dom_mem.cpp:21 | load over join holds for all operands if and only if the range does not end below 0 |
| `MemNegative.LoadElsewhereIffNotNegative` | src/ai_dom_mem.cpp:21 | load beside a store is unchanged for all stores if and only if the range does not end below 0 |
| `MachineSound.EntryIff` | src/ai.cpp:62-71 | the entry machine describes exactly the states in which a program starts, written without it |
| `MachineSound.AddressSound` | src/ai.cpp:339 | the abstract address of an access describes the concrete one |
| `MachineSound.HeapReadIsNumber` | src/ai.cpp:324-329 | a read of map or packet memory, whose bytes are parts of numbers, is a number |
| `MachineSound.LoadValueSound` | src/ai.cpp:297-336 | stack, packet and map loads describe the word that the bytes spell |
| `MachineSound.StoredAtSound` | src/ai.cpp:276-295 | a store through a tagged address describes the written memory, also when the address may leave the stack |
| `MachineSound.StepSound` | src/ai.cpp:172-191 | one instruction: the state after the step is described by the machine after the transfer |
| `Reading.ThrowsIffUninitialisedRead` | src/ai.cpp:107-110 | an instruction that can step throws if and only if it reads an uninitialised register, where a register is read when another word in it makes a step impossible or end differently |
| `Reading.SelfComparisonThrows` | src/ai.cpp:188-190 | assuming r == r throws exactly when r is uninitialised, although it does not depend on r |
| `Steps.StoreThenLoadSteps` | src/ai.cpp:338-345 | on concrete states: through a stack pointer any word that fits can be stored, and a load of the same bytes gives it back |
| `Steps.HeapThenLoadSteps` | src/ai.cpp:324-345 | the same in a map value or a packet, for numbers |
| `Steps.NumbersStep` | src/ai.cpp:177-184 | on concrete states: arithmetic on two numbers always has a step, which assigns what the instruction means |
| `Steps.PointersStep` | src/ai_dom_rcp.cpp:12-45 | on concrete states: a pointer is moved by a number, added on either side or subtracted, and two pointers to one region have a distance |
| `Steps.ConditionMeans` | src/asm_syntax.hpp:50-60 | conditions compare numbers as words, pointers to one region by offset, descriptors for equality; of words of different kinds only NE holds |
| `Steps.StepKeeps` | src/ai.cpp:170-186 | on concrete states: only the assigned registers change, and memory only by a store |
| `Steps.StepDetermined` | src/ai.cpp:170-186 | on concrete states: but for packet loads there is at most one step |
| `Steps.StoreKeepsBytes` | src/ai.cpp:338-345 | on concrete states: a store keeps the bytes beside it and those of other regions |
| `Scope.LoadInScopeIff` | src/ai.cpp:331-342 | a load is in scope exactly when its width is 1, 2, 4 or 8, it assigns a register and its base describes no pointer to the context |
| `Scope.StoreInScopeIff` | src/ai.cpp:338-345 | a store is in scope exactly when its width is 1, 2, 4 or 8 |
| `Scope.MoveInScopeIff` | src/ai.cpp:179 | a 64-bit move always is, and a 32-bit one exactly when the numbers moved are closed under cutting |
| `Scope.ComputesIff` | src/ai_dom_set.cpp:64-71 | operands are computed with exactly when no known number is divided by 0 or shifted by 64 or more |
| `Scope.ArithmeticInScopeIff` | src/ai.cpp:177-184 | arithmetic is in scope exactly when it is defined, its result describes what the instruction computes from any two described words, and pointer differences are in order |
| `Scope.AssumeInScopeIff` | src/ai.cpp:188-190 | a condition is in scope exactly when NE loses no word and no signed comparison meets a partly known pointer |
| `Scope.OthersInScopeIff` | src/ai.cpp:170-176 | of the other instructions Exit, jumps, packet loads and loads of an existing map descriptor |
| `TransferExact.MoveIff` | src/ai.cpp:179 | a move assigns exactly the constant or what the other register describes, and nothing else changes |
| `TransferExact.MapFdIff` | src/ai.cpp:172-174 | loading a map descriptor assigns exactly that descriptor |
| `TransferExact.ArithmeticIff` | src/ai.cpp:177-184 | arithmetic assigns exactly the words of ExactArithmetic, and nothing else changes |
| `TransferExact.AssumeIff` | src/ai.cpp:188-190 | assuming a condition keeps exactly the words of the left register that Restrictions says, and nothing else changes |
| `TransferExact.LoadIff` | src/ai.cpp:297-342 | a load assigns what the stack says if the address may lie there, any number if it may lie in a map value or packet, and nothing else |
| `TransferExact.StoreIs` | src/ai.cpp:276-295 | a store leaves the registers alone, the stack too if the address cannot lie there, and forgets the stack if the address may be several offsets or lie elsewhere |
| `TransferExact.StoreThenLoadIff` | src/ai.cpp:338-345 | a store through one stack pointer, then a load of the same bytes, assigns exactly what was stored |
| `TransferExact.StoreBesideLoadIff` | src/ai.cpp:338-345 | a store through one stack pointer leaves a load of other bytes exactly as it was |
| `TransferExact.AddressOfPointer` | src/ai.cpp:339 | a base that is one stack pointer gives an address that is one offset, up to the limit of 2^30 |
| `TransferExact.OnlyStackIff` | src/ai.cpp:281 | the test for a stack address holds of exactly the values that describe nothing but stack pointers |
| `TransferExact.MapOrPacketIff` | src/ai.cpp:324-329 | the test for a map or packet address holds of exactly the values that describe such a pointer |
| `TransferExact.PacketIff` | src/ai.cpp:270-274 | a packet load assigns any number to r0, takes r1 to r5 away and keeps the rest |
| `TransferExact.OthersKeep` | src/ai.cpp:232-234 | Exit and jumps change nothing |
| `MachineSound.MachineJoinSound` | src/ai.cpp:81-88 | the joined machine describes what either machine describes |
| `TransferExact.JoinedRegisterIff` | src/ai.cpp:81-88 | a joined register holds a value exactly when both do, and then describes exactly the words that either does |
| `TransferExact.UnreachedIsNeutral` | src/ai.cpp:46-48 | joining the machine of a block that is not reached changes neither what a register nor what the stack describes |
| `MachineSound.MachineJoinSane` | src/ai.cpp:157-160 | the join keeps stack cells sorted and disjoint and value vectors increasing |
| `MachineSound.TransferSane` | src/ai.cpp:177-191 | so does every instruction, and a reached stack stays reached |
| `MachineObject.MachineState.JoinWith` | src/ai.cpp:157-160 | registers and stack joined in place |
| `MachineObject.MachineState.Visit` | src/ai.cpp:172-191 | the effect of an instruction on the object, and exactly when it throws |
| `MachineObject.MachineState.VisitMem` | src/ai.cpp:338-345 | loads and stores through a register plus offset |
| `Determined.JoinedUnique` | src/ai_dom_mem.cpp:92-131 | the shape of the joined cells leaves no choice, whatever order the sort leaves equal starts in |
| `Determined.TransferUnique` | src/ai.cpp:172-191 | an instruction has one effect on a machine |
| `Analyzer.Analysis.constructor` | src/ai.cpp:358-364 | every machine unreached but the one before the entry |
| `Analyzer.Analysis.JoinPredecessors` | src/ai.cpp:383-394 | the block's pre joined with the posts of its predecessors, no other pre changed |
| `Analyzer.Analysis.Recompute` | src/ai.cpp:366-381 | the block's post is the effect of its instructions on its pre and says whether it changed; it stops exactly when the instructions before some one run through and that one throws or is outside the fragment |
| `Analyzer.RanNeverStops` | src/ai.cpp:366-381 | a machine on which the instructions run through is none on which they stop |
| `Schedule.CountBounded` | src/ai.cpp:408-411 | a block's count never exceeds the number of its predecessor entries |
| `Schedule.FullIsReady` | src/ai.cpp:408-411 | the blocks whose count becomes full are exactly those that become ready |
| `Solutions.ReadyIsReached` | src/ai.cpp:406-407 | a ready block's joined pre has a reached stack, so its first visit changes its post |
| `Schedule.OrdersNested` | src/ai.cpp:397-416 | every order of visits stays within any exhausted one |
| `Confluence.SolutionIsUnique` | src/ai.cpp:397-416 | for any single-valued join and effect, two exhausted schedules of a graph without cycles visit the same blocks with the same values |
| `Solutions.ResultIsUnique` | src/ai.cpp:397-416 | two completed analyses visit the same blocks and end with the same machines, before and after every block |
| `Solutions.CompleteNeverStuck` | src/ai.cpp:397-416 | if the analysis can be completed in one order, no order of visits meets a refused instruction |
| `Worklist.CountSuccessors` | src/ai.cpp:408-412 | counting the edges out keeps the list: the ready blocks not visited yet, each once |
| `Worklist.VisitBlock` | src/ai.cpp:403-407 | a first visit always changes the post and solves the block's equations without disturbing the others, or stops exactly when an instruction is refused |
| `Worklist.Run` | src/ai.cpp:397-416 | terminates; each block is recomputed once, after all its predecessors; it runs through exactly when no ready block meets a refused instruction, and then every visited block's equations hold |
| `AnalysisSound.RunSound` | src/ai.cpp:366-381 | a block's post describes every state in which the block can end |
| `AnalysisSound.RunSoundInside` | src/ai.cpp:366-381 | the machine before an instruction of a block describes every state there |
| `AnalysisSound.JoinedSound` | src/ai.cpp:383-394 | a joined pre describes what the initial machine or any predecessor's post describes |
| `AnalysisSound.AnalysedInductive` | src/ai.cpp:383-394 | the solved equations are inductive along every edge between visited blocks |
| `AnalysisSound.ArrivalsDescribed` | src/ai.cpp:397-416 | every state that arrives at a visited block along any run from the entry is described by its pre |
| `Coverage.HoldsAtArrivals` | src/ai.cpp:397-416 | for any meaning of instructions: what the blocks keep along edges between visited blocks, and holds at the entry, holds at every arrival |
| `Coverage.CoversIffNoStray` | src/ai.cpp:410-411 | all reachable blocks are visited if and only if no unreachable block feeds a reachable one |
| `Coverage.StrayIsMissed` | src/ai.cpp:410-411 | on three blocks, two of which lead to the third and one of these two from nowhere, the third is reachable and no schedule visits it |
| `AnalysisSound.AnalysisIsSound` | src/ai.cpp:397-416 | then every state that arrives at any block along any run from the entry is described by that block's pre |
| `AnalysisSound.InsideIsSound` | src/ai.cpp:397-416 | and every state before any instruction inside a block by its pre run through the instructions before it |
| `AnalysisSound.NotVisitedDescribesNothing` | src/ai.cpp:358-364 | the pre of a block that is never visited describes no state at all |
| `CfgRuns.ReverseIsComplement` | src/asm_cfg.cpp:72-94 | the reversed comparison holds exactly when the comparison does not, on all words, SET included |
| `CfgRuns.ChoosesOne` | src/asm_cfg.cpp:58-66 | where reversing is complementing, a conditional jump takes its first successor when the condition holds and the second otherwise |
| `Nondet.BodyRuns` | src/asm_cfg.cpp:194-198 | dropping jumps, and expanding LockAdd where it means its expansion, keeps what a block computes |
| `Nondet.MidInjective` | src/asm_cfg.cpp:210-217 | labels without ':' give each edge a label of its own |
| `Nondet.MidPasses` | src/asm_cfg.cpp:212-224 | an assumption block can be passed exactly when the conditional jump chooses its successor |
| `Nondet.RunEmbeds` | src/asm_cfg.cpp:187-231 | every run of the graph with jumps is, through the assumption blocks, a run of the new graph |
| `Nondet.RunProjects` | src/asm_cfg.cpp:187-231 | every run of the new graph between old labels is the embedding of a run of the graph with jumps |
| `Nondet.ProjectEmbeds` | src/asm_cfg.cpp:187-231 | projecting an embedded run gives it back, so the correspondence is one to one |
| `NondetEdges.OldToOld` | src/asm_cfg.cpp:200-206 | how often each list of the new graph names an edge between old blocks |
| `NondetEdges.OldToMid` | src/asm_cfg.cpp:216-225 | exactly one edge leads into an assumption block, from the block it belongs to |
| `NondetEdges.MidToOld` | src/asm_cfg.cpp:200-224 | the edge out of an assumption block is listed by its successor as often as it exists |
| `NondetEdges.FallthroughBreaks` | src/asm_cfg.cpp:207-208 | a jump to its own fallthrough is listed twice by the successor and once by the block |
| `NondetEdges.MirroredIffNoJumpToFallthrough` | src/asm_cfg.cpp:187-231 | the new lists mirror each other if and only if no block jumps to its own fallthrough |
| `NondetEdges.FallthroughNeverFull` | src/ai.cpp:408-411 | the target of a jump to its own fallthrough has more predecessor entries than edges lead into it from any blocks, so its count never becomes full |
| `LockAddMeaning.ExpansionAdds` | src/asm_cfg.cpp:110-129 | the three instructions add to memory exactly as LockAdd does (section 5.3 of RFC 9669) and leave the sum in register 11, nothing else changed |
| `LockAddMeaning.SumIsRead` | src/asm_cfg.cpp:110-129 | the number then found in memory is the sum cut to the width |
| `Made.LinkMirrors` | src/asm_cfg.cpp:45-48 | adding an edge keeps successor and predecessor lists mirrored with multiplicity |
| `Made.MadeStep` | src/asm_cfg.cpp:55-66 | one more live instruction extends the graph of the instructions so far |
| `Made.FallsNext` | src/asm_cfg.cpp:49-63 | after a live instruction only that one can still fall |
| `MadeRuns.ConditionalSuccessors` | src/asm_cfg.cpp:58-66 | a conditional jump's successors are its target and then its fallthrough |
| `MadeRuns.PassesOne` | src/asm_cfg.cpp:58-66 | where reversing is complementing, a conditional jump passes to its target when the condition holds and falls otherwise |
| `MadeRuns.ChoosesIffPasses` | src/asm_cfg.cpp:43-70 | a block chooses a label exactly when control passes to that instruction |
| `MadeRuns.RunsAgree` | src/asm_cfg.cpp:43-70 | the graph runs exactly as the instruction sequence with Undefined slots skipped |
| `MadeRuns.RunFound` | src/asm_cfg.cpp:43-70 | every run of the graph is one of the instruction sequence |
| `MadeRuns.MadeIsTwoWay` | src/asm_cfg.cpp:43-70 | the graph of a plainly labelled program is fit for to_nondet |
| `Chains.WalkShortens` | src/asm_cfg.cpp:157-169 | a walk of the graph before a merge is a walk of the merged graph that has done the same and at most the merged block more |
| `Chains.WalkLengthens` | src/asm_cfg.cpp:157-169 | a walk of the merged graph is a walk of the graph before with the same events |
| `Chains.MergeKeepsTraces` | src/asm_cfg.cpp:157-176 | from every remaining block the same instruction traces, with the choices made, are observed, unfinished and finished |
| `Contraction.MergeContracts` | src/asm_cfg.cpp:157-176 | a merge joins two chains: every block of the new graph is a chain of old blocks, every old block stands in exactly one |
| `Contraction.SameArrivals` | src/asm_cfg.cpp:152-185 | for any meaning: the old graph arrives at a block in a state exactly when the new graph gets to the block that holds it and through the instructions before it |
| `Simplified.MergeMirrors` | src/asm_cfg.cpp:170-175 | after reconnection the lists mirror each other with multiplicity |
| `Simplified.MergeCounts` | src/asm_cfg.cpp:163-168 | a merge moves instructions and neither drops nor copies any |
| `Simplified.MergeNumbers` | src/asm_cfg.cpp:157-176 | a merge keeps the graph without cycles |
| `Simplified.MergeSettles` | src/asm_cfg.cpp:157-162 | a block with nothing to merge stays so when others are merged |
| `Simplified.MergeAfter` | src/asm_cfg.cpp:154-177 | all of this holds after one more merge |
| `Simplified.MergesKeep` | src/asm_cfg.cpp:152-185 | any number of merges keeps edges, traces, chains, instructions, joins and numberings |
| `SimplifiedUnique.RemainsIff` | src/asm_cfg.cpp:152-185 | the blocks that remain are exactly those that are not the only successor of their only predecessor |
| `SimplifiedUnique.SimplifiedOnce` | src/asm_cfg.cpp:152-185 | in whatever order a graph without cycles is merged until nothing is left to merge, the same graph remains |
| `Simplified.EntrySurvives` | src/asm_cfg.cpp:160-162 | a block without predecessors survives with every trace from it |
| `CfgObject.Cfg.Make` | src/asm_cfg.cpp:43-70 | fails exactly when the last instruction falls through; edges mirrored for any labels; the graph of the program for distinct ones |
| `CfgObject.Cfg.ToNondet` | src/asm_cfg.cpp:187-231 | builds the graph with assumptions and its labels in order |
| `CfgObject.Cfg.Absorb` | src/asm_cfg.cpp:158-175 | copying, erasing and reconnecting amount to one merge |
| `CfgObject.Cfg.MergeChain` | src/asm_cfg.cpp:157-176 | merges until nothing is left to merge; no label on the worklist is ever erased |
| `CfgObject.Cfg.Simplify` | src/asm_cfg.cpp:152-185 | terminates for every order of labels, keeps edges, traces, instructions and joins, leaves no mergeable listed block, and filters the labels |
| `CfgSteps.NondetLabelsAre` | src/asm_cfg.cpp:189-219 | the listed labels are the old ones and one for each edge out of a two-way block |
| `Pipeline.Prepare` | src/main_check.cpp:137-141 | fails exactly when the program falls off its end; each pass delivers what the next one needs; if the program only jumps forward the final graph has no cycle and its labels begin with the first instruction |
| `Pipeline.NondetNumbers` | src/asm_cfg.cpp:187-231 | replacing jumps keeps a graph without cycles |
| `Pipeline.FirstHasNoPredecessor` | src/asm_cfg.cpp:43-70 | if the program only jumps forward, nothing leads to its first instruction, so its block is never merged away |
| `Pipeline.ProgramIsContracted` | src/main_check.cpp:137-141 | for any meaning: the program gets from a kept slot to another, with its states, if and only if the final graph gets to the block that holds the slot and through the instructions before it |
| `Pipeline.SlotStands` | src/main_check.cpp:137-141 | what stands at that place is the slot's own instruction, unless it is a jump |
| `Verifier.Analyze` | src/ai.cpp:418-420 | a fresh analysis of any graph without cycles and with mirrored edges; it ends in a solution exactly when no ready block meets a refused instruction |
| `Verifier.Verify` | src/main_check.cpp:137-156 | the prepared graph of a program that only jumps forward is one that the analysis accepts; it succeeds exactly when the program has an instruction, does not fall off its end and no ready block of its graph meets a refused instruction |
| `Verifier.VerifierIsSound` | src/main_check.cpp:137-156 | every state with which the program reaches a slot is described by the pre of the block that holds the slot's instruction, run through the instructions before it |
| `Assertions.OfTypesIff` | src/ai_dom_rcp.hpp:58-61 | a value is of the types exactly when every tagged word it describes is |
| `Assertions.TypeVerdictIff` | src/ai_dom_rcp.cpp:63-65 | a satisfied verdict on a type constraint with a premise is right if and only if the premise is decided or not needed |
| `Assertions.MarkedIff` | src/ai.cpp:219-229 | a type constraint is marked satisfied exactly when every tagged word of the register is of the types, or some tagged word of the premise is not of its |
| `LinearBounds.OneBoundHolds` | src/ai_dom_rcp.cpp:71-79 | a satisfied verdict on a value of any types, against one bound in each, holds of every word the value describes |
| `LinearBounds.BoundDescribes` | src/ai.cpp:216 | the bound holds, in every type that the register has, v - width - offset for all described numbers v and width, cut to 64 bits for numbers and to 32 for offsets |
| `Assertions.LinearMarkedIff` | src/ai.cpp:213-218 | a linear constraint is marked exactly when the register is of other types, or the bound is of the types and, type by type, every word passes |
| `Assertions.ConstantMarkedIff` | src/ai.cpp:213-218 | against constants: exactly when in every type all that the register holds is known and compares with v - width - offset, cut, and that is no offset past 2^30 |
| `Assertions.LinearMarkedMeets` | src/ai.cpp:213-218 | a marked constraint with one bound in each type is met by every described state, on concrete words |
| `Verdicts.VerdictHolds` | src/ai.cpp:418-433 | a type constraint marked satisfied at an instruction, its premise decided, is met by every state with which the program reaches it |
| `Verdicts.LinearVerdictHolds` | src/ai.cpp:418-433 | a linear constraint marked satisfied at an instruction, with one bound in each type, is met by every state with which the program reaches it: the word of the register has one of the types and compares with v - width - offset, cut |
| `ArrayCells.OverlapMeaning` | src/array_expansion.hpp:145-153 | the interval test holds exactly when there is a common byte |
| `ArrayCells.SameUnique` | src/array_expansion.hpp:128-141 | two cells of the map with equal offset and size are the same cell |
| `OffsetMaps.InsertedHas` | src/array_expansion.hpp:333-349 | insertion adds exactly the cell and keeps offsets and sizes ordered |
| `OffsetMaps.RemovedLacks` | src/array_expansion.hpp:321-331 | removal takes away exactly the cells of that offset and size |
| `OffsetMaps.EarlierMiss` | src/array_expansion.hpp:498-522 | below an offset none of whose cells overlaps, no disjoint cell overlaps: the downward exit is safe |
| `OffsetMaps.LaterMiss` | src/array_expansion.hpp:526-542 | above such an offset none overlaps: the upward exit is safe |
| `OffsetMaps.ScanDown` | src/array_expansion.hpp:485-523 | the downward loop collects all hits at and below the offset |
| `OffsetMaps.ScanUp` | src/array_expansion.hpp:525-542 | the upward loop completes them |
| `OffsetMaps.ScanAgain` | src/array_expansion.hpp:544-563 | the last loop adds nothing |
| `OffsetMaps.OffsetMap.RemoveCell` | src/array_expansion.hpp:321-331 | removal on the object |
| `OffsetMaps.OffsetMap.InsertCell` | src/array_expansion.hpp:333-349 | insertion on the object, and when it is refused |
| `OffsetMaps.OffsetMap.MkCell` | src/array_expansion.hpp:397-422 | the cell of an offset and size, created with its own scalar if it is not there |
| `OffsetMaps.OffsetMap.GetOverlapCells` | src/array_expansion.hpp:473-584 | without duplicates exactly the other cells that meet the range, the map's cells as before |
| `ArrayStates.StoredGood` | src/array_expansion.hpp:1301-1317 | a store keeps the cells disjoint and leaves no scalar known without its cell |
| `ArrayStates.StoredDescribes` | src/array_expansion.hpp:1301-1317 | after a store known scalars spell the bytes of their cells |
| `ArrayStates.StoreSoundIffFitting` | src/array_expansion.hpp:1313-1317 | a store is sound if and only if the value, when known, fits its bytes |
| `ArrayStates.LoadedDescribes` | src/array_expansion.hpp:1222-1277 | after a load the loaded variable, if known, has the value of the bytes |
| `ArrayStates.InitOpSound` | src/array_expansion.hpp:1202-1220 | initialising a fresh array is sound, also when the range is ignored |
| `ArrayStates.NothingKnown` | src/array_expansion.hpp:240-262 | an array map without cells describes every byte array |
| `ArrayStates.ArrayRunSound` | src/array_expansion.hpp:1202-1394 | along any sequence of operations on an array of which nothing is known, cells stay disjoint and known scalars equal the bytes of the array |
| `ArrayExact.EvalKnownIff` | src/array_expansion.hpp:1202-1220 | an expression has a known value exactly when all its variables do |
| `ArrayExact.IndexableIff` | src/array_expansion.hpp:1279-1317 | the bytes from an index do not wrap around exactly when they end at 0 at the latest for a negative one, at 2^64 for another |
| `ArrayExact.ElementsIff` | src/array_expansion.hpp:1381-1392 | a range is in scope exactly when every element is |
| `ArrayExact.StoreThenLoad` | src/array_expansion.hpp:1222-1317 | a load of the stored element assigns what was stored |
| `ArrayExact.StoreBesideLoad` | src/array_expansion.hpp:1222-1317 | a load beside the stored element assigns what it would have assigned before |
| `ArrayExact.LoadTwice` | src/array_expansion.hpp:1222-1277 | a second load of an element assigns the same and changes nothing |
| `ArrayExact.InitThenLoad` | src/array_expansion.hpp:1202-1220 | a load of any element of an array just initialised, of at most 512 indices, assigns the initial value |
| `ArrayExact.InitForgets` | src/array_expansion.hpp:1202-1220 | with unknown bounds or more indices the array is only emptied: nothing is known of it |
| `ArrayDomain.KillsClashes` | src/array_expansion.hpp:750-765 | killing the cells found removes exactly the clashing extents and forgets exactly their scalars |
| `ArrayDomain.ArrayExpansion.KillCells` | src/array_expansion.hpp:750-765 | the scalars of the cells are forgotten, then the cells removed |
| `ArrayDomain.ArrayExpansion.ArrayStore` | src/array_expansion.hpp:1279-1317 | a store at a constant index, read as a 64-bit offset, on the object |
| `ArrayDomain.ArrayExpansion.ArrayLoad` | src/array_expansion.hpp:1222-1277 | a load on the object: exact, or unknown when cells overlap or the index is not constant |
| `ArrayDomain.ArrayExpansion.ArrayStoreRange` | src/array_expansion.hpp:1346-1394 | one store for each element, or nothing when a bound is unknown or there are more than 512 |
| `ArrayDomain.ArrayExpansion.ArrayInit` | src/array_expansion.hpp:1202-1220 | all cells die, then the elements are stored |

## Left out

Operations that are not modelled:

- `store_dynamic` (src/ai_dom_mem.cpp:42-58): with several offsets it stores strongly at the least and greatest one, which is no sound weak update.
- SET and NSET in `assume` change nothing, and are modelled as doing nothing (`Restrictions.MasksKeepAll`).
- `Call`, `Assert`, `Un`, `LockAdd` and context loads of the abstract machine (src/ai.cpp:176, 192-270, 304-322, 347): table lookups, or no effect at all although the instruction has one. `Coverage.HoldsAtArrivals` and `Confluence.SolutionIsUnique` do not depend on the set of instructions.
- Assertions in the analysed graph: the verdicts of `Verdicts` are about the machines computed without assuming the assertions before them.
- The meet of machines and of stacks (`operator&=`), printing, statistics, and reading object files.
- Non-constant array indices in stores, several arrays at once, the array map shared between program points, backward array operations, joins of array states, Boolean and real arrays.
- The numerical domain under the arrays is a map from variables to known values; the patricia tree is a sorted list of bindings.
- The Crab library, the Linux back end and the command line.

Where a member requires or promises less than the source:

- SetDomains.NumExecExact: no division by 0 and no shift by 64 or more, which the source leaves undefined.
- SetDomains.NumExecCoversIff: the same operands.
- ArithmeticMeaning.DescribesIffCovered: the same operands.
- SetObjects.NumDomSet.Exec: the same operands as `SetDomains.NumExecExact`.
- SetObjects.NumDomSet.Assume: the operand is a different object; an object compared with itself reads the vector it is clearing.
- SetObjects.OffsetDomSet.Assume: signed comparisons abort in the source and are excluded, unless the right operand is top or empty.
- Rcp.RestrictSound: NE only where it loses nothing; `Rcp.NotEqualLosslessIff` shows that exactly these operands qualify.
- Rcp.SatisfiedMeaning: stated for values of a single type; `Restrictions.SatisfiedIff` says what the verdict decides in general.
- Restrictions.SatisfiedIff: types other than the map descriptors', which `Restrictions.FdSatisfiedIff` treats by themselves.
- MemTheory.LoadOverJoin: ranges that end below 0 are excluded; `MemNegative.LoadOverJoinIffNotNegative` shows that exactly these fail.
- MemTheory.LoadElsewhere: the same ranges, with `MemNegative.LoadElsewhereIffNotNegative`.
- MemDom.MemDom.Store: the end of the stored range does not exceed the greatest 64-bit signed number; beyond it the source overflows.
- MachineSound.LoadValueSound: the address does not point into the context, and map and packet memory holds numbers.
- MachineSound.StepSound: the instructions and operands of `Machine.InScope`. Outside are NE that loses values, signed comparisons of pointers (which abort), arithmetic whose result misses a meaning (`ArithmeticMeaning.DescribesIffCovered` shows that exactly these operands fail), differences whose words come out unordered, context loads, and the instructions listed above.
- MachineSound.StepSound: a concrete step needs a defined tagged meaning; arithmetic on mixtures, a stack store that cuts its value, and a store of anything but a number outside the stack are no steps.
- Reading.ThrowsIffUninitialisedRead: instructions that have no step from any state, such as assuming r != r or storing a pointer through itself in fewer than 8 bytes, read nothing in its sense and are excluded; assuming r == r is `Reading.SelfComparisonThrows`.
- TransferExact.ArithmeticIff: mixtures of bytes are left aside here and in the other exact statements; a value describes them exactly when all its numbers and offsets are unknown, by definition.
- MemExact.LoadJoinedIff: cells that end below 0 are excluded, as in `MemTheory.LoadOverJoin`.
- MachineSound.TransferSane: the instructions and operands of `Machine.InScope`.
- MachineObject.MachineState.Visit: the instructions and operands of `Machine.InScope`.
- MachineObject.MachineState.VisitMem: the address does not point into the context.
- Worklist.Run: the graph has no cycle, as the source itself requires, and its edges are mirrored; an analysis with an instruction that throws or is outside `Machine.InScope` counts as stopped.
- AnalysisSound.AnalysisIsSound: no unreachable block feeds a reachable one; `Coverage.CoversIffNoStray` shows that exactly then all reachable blocks are visited.
- Nondet.RunProjects: labels have no ':', blocks have at most two successors, and two different ones only after a conditional jump.
- Nondet.BodyRuns: with expansion of LockAdd, its meaning is taken to be that of the three instructions; `LockAddMeaning.ExpansionAdds` says how far that is from the instruction itself.
- LockAddMeaning.ExpansionAdds: register 11 is neither the base nor the operand, and other processors do not interfere.
- CfgObject.Cfg.ToNondet: labels have no ':' and are listed once, as those of a parsed program are.
- Pipeline.Prepare: labels are distinct, defined and have no ':', and no conditional jump has its own fallthrough as target; with such a jump the edges are not mirrored (`NondetEdges.MirroredIffNoJumpToFallthrough`) and the block it leads to is never visited (`NondetEdges.FallthroughNeverFull`).
- Verifier.Verify: the same programs, and jumps go forward only; src/ai.cpp:398 says that the worklist needs a graph without cycles.
- Verifier.VerifierIsSound: no unreachable block feeds a reachable one.
- Verdicts.VerdictHolds: type constraints whose premise is decided; `Assertions.TypeVerdictIff` shows that exactly these verdicts can be trusted.
- Verdicts.LinearVerdictHolds: registers of the given types and, in each type, bounds of one value; with several bounds the verdict speaks of the most favourable one (`SetDomains.SatisfiedRightIffSingle`).
- ArrayDomain.ArrayExpansion.ArrayStore: the index is a constant 64-bit integer, and the bytes from it, as an unsigned offset, do not wrap around; a range that wraps overlaps nothing in the source.
- ArrayDomain.ArrayExpansion.ArrayLoad: the same ranges.
- ArrayDomain.ArrayExpansion.ArrayStoreRange: the same ranges for every element. When the range is ignored the state is unchanged, which is sound only on a fresh array, as in `ArrayStates.InitOpSound`.
- ArrayDomain.ArrayExpansion.ArrayInit: the same ranges for every element.

Deviations in form: values held by the objects (a cell's contents, a register,
a basic block) are datatypes, so sharing between them is not captured; the
loops over fixed components of a tagged value are written out component by
component.
