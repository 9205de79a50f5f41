# CRAVE: a verified model of the constraint solver core

CRAVE turns the constraints of a hardware verification environment into bit-vector
formulas, splits them into groups without common variables, settles soft constraints and
suggestions, and reads the values of a model back. The project models these parts in Dafny
and proves what they promise:

- **Bit-blasting** (`Bits`, `SmtLib`, `WordLemmas`, `Division`, `DivisionTheorems`, `Gates`,
  `BitBlast`). A table of gates that only grows, and methods that add the gates of every
  operation. Each method is proved against the operator definitions of the SMT-LIB theory
  FixedSizeBitVectors and the logic QF_BV, for every width and every assignment of the inputs.
  Where the divider departs from SMT-LIB, the exact condition is proved.
- **Trees** (`Ast`, `FixWidth`, `MetaSMT`, `Blasting`, `Meanings`). The expression trees, their
  values and kinds, the pass that inserts extensions, and the visitor that compiles a tree
  into gates. `Meanings` says what every operator computes, on the numbers of its operands.
  The main theorem: the gates of the fixed constraints can be true together exactly when the
  constraints, as the user reads them, have a common model.
- **The constraint pipeline** (`Partition`, `Satisfiability`, `Softs`, `SoftsPerPartition`,
  `Solver`, `DefaultSolver`, `Generator`, `Threads`, `Written`). Partitioning, the greedy pass
  over soft constraints, the loop over suggestions, the solver of a partition, the sequential
  generator and, as a state machine over atomic steps and as a method that executes them, the
  multithreaded one. The main theorem is the contract of `Generators.Generator.Next`: neither
  partitions nor random draws change what is satisfied. `Written` says it of the constraints
  as the user wrote them.
- **Transition coverage** (`Regex`, `Coverage`, `Repetition`). The sets of runs of a
  transition bin recognise exactly a regular language, over all sample traces.
- **Loops over vectors** (`ForEach`, `Numbers`, `Literals`, `Subscripts`, `ForEachMeaning`,
  `VectorMeaning`, `VectorSolver`, `VectorExamples`, `VectorGenerator`). Unrolling a body
  means the body, as the user reads it, at every index whose subscripts stay inside the
  vector. The visitor computes subscripts as `int` with every variable as zero; when that
  selects the element that the user reads is proved operator by operator and for every
  width, with constants as the front end makes them. The formulas of a vector can be
  compiled exactly when every unique constraint comes after loops that touch all elements,
  and then the vector is solved exactly when the constraints can be met.
  `VectorGenerators.RandomGenerator.Next` puts scalars and vectors together.
- **UBus** (`UBus`). The bus of the example and two master drivers stay in lockstep in every
  run; a requested bus is granted, and a transfer ends, within a bounded number of edges.
- **Distributions** (`Distribution`). Weighted draws and the formula for the same values.

The SMT and BDD solvers and the analysis of conflicts are parameters: functions of which only
exactness is required (a model whenever there is one, a conflict exactly for contradicting
formulas); lemmas show that such functions exist. Random draws are nondeterministic choices.
A value is a truth value, a word (least significant bit first), or stuck, where the back end
would stop on an assertion.

Where the code departs from its documentation, or from what its user would expect, the code
is followed: the quotient by zero is 1, the signed remainder takes its sign from both
operands, a right shift is logical, a negative number equals the unsigned one with the same
word, a repetition of several samples after a nonconsecutive one may have gaps, the overlap
test of ranges misses equal left bounds, a maximum below the minimum of a repetition counts
as the minimum, a subscript with a variable reads the variable as zero, every access goes to
the vector that is unrolled, a unique constraint before the first loop compares single bits,
and without analysis a partition ignores its soft constraints. For each of these a lemma
states exactly when code and expectation agree, or gives the input on which they differ.

## Model

| member | source | states |
|---|---|---|
| `BitBlasting.BitBlast.Bvnot` | crave/metaSMT/src/metaSMT/BitBlast.hpp:156-168 | the gates evaluate to the complement under every assignment; all old gates keep their values |
| `BitBlasting.BitBlast.Bvand` | crave/metaSMT/src/metaSMT/BitBlast.hpp:95-109 | the gates evaluate to the bitwise conjunction |
| `BitBlasting.BitBlast.Bvor` | crave/metaSMT/src/metaSMT/BitBlast.hpp:126-139 | the gates evaluate to the bitwise disjunction |
| `BitBlasting.BitBlast.Bvxor` | crave/metaSMT/src/metaSMT/BitBlast.hpp:170-183 | the gates evaluate to the bitwise exclusive or |
| `BitBlasting.BitBlast.Bvadd` | crave/metaSMT/src/metaSMT/BitBlast.hpp:470-495 | the ripple adder evaluates to the sum modulo 2^n, for every width |
| `BitBlasting.BitBlast.Bvneg` | crave/metaSMT/src/metaSMT/BitBlast.hpp:515-525 | complement plus one evaluates to the negation modulo 2^n |
| `BitBlasting.BitBlast.Bvsub` | crave/metaSMT/src/metaSMT/BitBlast.hpp:666-671 | adding the negation evaluates to the difference modulo 2^n |
| `BitBlasting.BitBlast.Bvmul` | crave/metaSMT/src/metaSMT/BitBlast.hpp:497-513 | shift-and-add evaluates to the product modulo 2^n |
| `BitBlasting.BitBlast.Compare` | crave/metaSMT/src/metaSMT/BitBlast.hpp:201-468 | each of the eight comparators, scanning from the most significant bit, evaluates to the comparison of the unsigned or signed numbers |
| `BitBlasting.BitBlast.Shift` | crave/metaSMT/src/metaSMT/BitBlast.hpp:814-875 | the cascade of choices evaluates to the logical left, logical right or arithmetic right shift by the number in the second operand, also when that is not less than the width |
| `BitBlasting.BitBlast.ShiftLeft` | crave/metaSMT/src/metaSMT/BitBlast.hpp:1146-1165 | a constant shift to the left drops the high bits and fills with zeros |
| `BitBlasting.BitBlast.ShiftRight` | crave/metaSMT/src/metaSMT/BitBlast.hpp:1124-1143 | a constant shift to the right drops the low bits and fills with the given bit |
| `BitBlasting.BitBlast.EqualVec` | crave/metaSMT/src/metaSMT/BitBlast.hpp:702-727 | one gate that is true exactly when both words are the same |
| `BitBlasting.BitBlast.NequalVec` | crave/metaSMT/src/metaSMT/BitBlast.hpp:729-755 | one gate that is true exactly when the words differ |
| `BitBlasting.BitBlast.IteVec` | crave/metaSMT/src/metaSMT/BitBlast.hpp:877-912 | the word of the first or the second operand, by the condition |
| `BitBlasting.BitBlast.ZeroExtendVec` | crave/metaSMT/src/metaSMT/BitBlast.hpp:682-689 | zeros on top of the word |
| `BitBlasting.BitBlast.SignExtendVec` | crave/metaSMT/src/metaSMT/BitBlast.hpp:691-699 | copies of the top bit on top of the word |
| `BitBlasting.BitBlast.ExtractVec` | crave/metaSMT/src/metaSMT/BitBlast.hpp:914-922 | the slice of the word, ends included |
| `BitBlasting.BitBlast.ConcatVec` | crave/metaSMT/src/metaSMT/BitBlast.hpp:924-932 | the first operand becomes the high part |
| `BitBlasting.BitBlast.UDivRem` | crave/metaSMT/src/metaSMT/BitBlast.hpp:1048-1118 | the normalising restoring divider evaluates to quotient and remainder, for every width and divisor; for a zero divisor to 1 and the dividend |
| `BitBlasting.BitBlast.SDivRem` | crave/metaSMT/src/metaSMT/BitBlast.hpp:1023-1045 | dividing the magnitudes and restoring the sign from both operands |
| `Division.NormalDone` | crave/metaSMT/src/metaSMT/BitBlast.hpp:1083-1088 | the normalised divisor is the divisor times the largest power of two that fits into the width |
| `Division.DivInvDone` | crave/metaSMT/src/metaSMT/BitBlast.hpp:1090-1117 | after the last pass the registers hold quotient and remainder, whether the loop ended early or not |
| `DivisionTheorems.QuotientTruncates` | crave/metaSMT/src/metaSMT/BitBlast.hpp:1023-1045 | the signed quotient is rounded towards zero: the rest is smaller than the divisor and has the sign of the dividend; the remainder of the code is this rest, or its negation when the divisor is negative |
| `DivisionTheorems.UdivAgrees` | crave/metaSMT/src/metaSMT/BitBlast.hpp:1048-1118 | unsigned division is that of SMT-LIB exactly when the divisor is not zero (or the width is one) |
| `DivisionTheorems.UremAgrees` | crave/metaSMT/src/metaSMT/BitBlast.hpp:1048-1118 | the unsigned remainder is that of SMT-LIB always, zero divisor included |
| `DivisionTheorems.SdivAgrees` | crave/metaSMT/src/metaSMT/BitBlast.hpp:1023-1045 | signed division is that of SMT-LIB, the smallest number by -1 included, exactly when the divisor is not zero (or the width is one) |
| `DivisionTheorems.SremAgrees` | crave/metaSMT/src/metaSMT/BitBlast.hpp:1023-1045 | the signed remainder is that of SMT-LIB exactly when the divisor is not negative or the remainder is zero; for a negative divisor it is the negation |
| `DivisionTheorems.SremDiffers` | crave/metaSMT/src/metaSMT/BitBlast.hpp:1039-1043 | the remainder of 1 by -2 in two bits is -1 here and 1 in SMT-LIB |
| `SmtLib.SignExtendSigned` | crave/metaSMT/src/metaSMT/BitBlast.hpp:691-699 | sign extension keeps the signed number |
| `SmtLib.ZeroExtendNum` | crave/metaSMT/src/metaSMT/BitBlast.hpp:682-689 | zero extension keeps the unsigned number |
| `SmtLib.ConcatNum` | crave/metaSMT/src/metaSMT/BitBlast.hpp:924-932 | the second operand is the low part of the number, the first is multiplied by a power of two |
| `MetaSMT.MetaSMTVisitor.VisitOrder` | crave/src/lib/metaSMTNodeVisitorImpl.hpp:362-451 | for all four combinations of signs <, <=, >, >= compare the mathematical numbers of the operands |
| `MetaSMT.MetaSMTVisitor.VisitDevide` | crave/src/lib/metaSMTNodeVisitorImpl.hpp:481-501 | division of equal signs keeps the width, of mixed signs it gets one bit more |
| `MetaSMT.MetaSMTVisitor.VisitModulo` | crave/src/lib/metaSMTNodeVisitorImpl.hpp:504-519 | the remainder is signed when the left operand is |
| `MetaSMT.MetaSMTVisitor.VisitWordOp` | crave/src/lib/metaSMTNodeVisitorImpl.hpp:299-359 | arithmetic, bitwise and shift operators; a right shift is logical even for signed operands |
| `MetaSMT.MetaSMTVisitor.VisitInside` | crave/src/lib/metaSMTNodeVisitorImpl.hpp:265-280 | true exactly when the value is one of the constants |
| `MetaSMT.MetaSMTVisitor.VisitExtend` | crave/src/lib/metaSMTNodeVisitorImpl.hpp:283-296 | extension by the sign of the operand |
| `MetaSMT.MetaSMTVisitor.VisitIte` | crave/src/lib/metaSMTNodeVisitorImpl.hpp:540-545 | choice between two expressions of the same kind |
| `MetaSMT.MetaSMTVisitor.VisitConstant` | crave/src/lib/metaSMTNodeVisitorImpl.hpp:224-229 | a constant of one signed bit is a truth value, else a word with the bits of its 64-bit value |
| `MetaSMT.MetaSMTVisitor.VisitVariable` | crave/src/lib/metaSMTNodeVisitorImpl.hpp:205-221 | a variable gets inputs of its own on first sight and is reused afterwards |
| `MetaSMT.MetaSMTVisitor.Visit` | crave/src/lib/metaSMTNodeVisitorImpl.hpp:159-557 | for every scoped tree with a kind one entry is pushed whose gates have the value of the tree under every assignment; the entries below keep their meaning |
| `MetaSMT.MetaSMTVisitor.MakeAssertion` | crave/src/lib/metaSMTNodeVisitorImpl.hpp:577-584 | the compiled tree joins the assertions; those made before stay compiled |
| `MetaSMT.ReadsBack` | crave/src/lib/metaSMTNodeVisitorImpl.hpp:703-712 | a compiled variable evaluates to the value that its inputs were given |
| `MetaSMT.GatesFromModel` | crave/src/lib/metaSMTNodeVisitorImpl.hpp:577-584 | a model of the asserted trees gives an assignment that makes all asserted gates true |
| `MetaSMT.ModelFromGates` | crave/src/lib/metaSMTNodeVisitorImpl.hpp:703-712 | the values read back from an assignment that makes all asserted gates true form a model of the asserted trees |
| `MetaSMT.MetaSMTVisitor.AssertionsPreserveSatisfiability` | crave/src/lib/metaSMTNodeVisitorImpl.hpp:577-584 | the asserted gates can be true together exactly when the asserted trees have a common model |
| `Meanings.OrderMeans` | crave/src/lib/metaSMTNodeVisitorImpl.hpp:362-451 | <, <=, > and >= of expressions compare the numbers of the operands as they are before widening, for all widths and signs |
| `Meanings.EqualityMeans` | crave/src/lib/metaSMTNodeVisitorImpl.hpp:344-359 | == and != compare the numbers of the operands, except for a negative number and an unsigned one that have the same word, which count as equal |
| `Meanings.Trichotomy` | crave/src/lib/metaSMTNodeVisitorImpl.hpp:344-451 | exactly one of <, == and > holds, except for such a pair, for which == and one order hold |
| `Meanings.AliasesAreEqual` | crave/src/lib/metaSMTNodeVisitorImpl.hpp:344-383 | the signed -1 and the unsigned 3 of two bits: the first is less, and both are equal |
| `Meanings.SumMeans` | crave/src/lib/metaSMTNodeVisitorImpl.hpp:454-478 | sums, differences and products are those of the numbers modulo 2^n, exact when they fit, and signed when one operand is |
| `Meanings.QuotientMeans` | crave/src/lib/metaSMTNodeVisitorImpl.hpp:481-501 | a quotient by anything but zero is that of the numbers rounded towards zero; the only one that does not fit is that of the least number by -1 |
| `Meanings.RemainderMeans` | crave/src/lib/metaSMTNodeVisitorImpl.hpp:504-519 | a remainder by a positive divisor is what the division rounded towards zero leaves, with the sign of the dividend, if a signed dividend does not take the divisor for negative |
| `Meanings.ShiftLeftMeans` | crave/src/lib/metaSMTNodeVisitorImpl.hpp:522-528 | a shift to the left multiplies by a power of two, modulo 2^n |
| `Meanings.ShiftRightMeans` | crave/src/lib/metaSMTNodeVisitorImpl.hpp:531-537 | a shift to the right of a number that is not negative divides by a power of two and rounds down |
| `Meanings.BitwiseDigits` | crave/metaSMT/src/metaSMT/BitBlast.hpp:95-183 | digit by digit, and is the product, or the maximum, exclusive or the difference |
| `Meanings.BitwiseSums` | crave/metaSMT/src/metaSMT/BitBlast.hpp:95-183 | or and and add up to the sum of the operands, and so do exclusive or and twice and |
| `Meanings.BitwiseMeans` | crave/src/lib/metaSMTNodeVisitorImpl.hpp:299-341 | the bitwise operators of expressions of any widths, digit by digit of the widened numbers |
| `Meanings.UnaryMeans` | crave/src/lib/metaSMTNodeVisitorImpl.hpp:243-262 | negation and complement of expressions are -a and -a - 1 modulo 2^n, exact when they fit |
| `Meanings.ExtendMeans` | crave/src/lib/metaSMTNodeVisitorImpl.hpp:283-296 | an extension keeps the number and the sign |
| `Meanings.SliceMeans` | crave/src/lib/metaSMTNodeVisitorImpl.hpp:548-557 | cutting out bits r to l divides by 2^l and keeps r - l + 1 digits |
| `Meanings.InsideMeans` | crave/src/lib/metaSMTNodeVisitorImpl.hpp:265-280 | being inside a set means having the number of one of its constants |
| `Meanings.TruthsMean` | crave/src/lib/metaSMTNodeVisitorImpl.hpp:232-359 | !, &&, ||, == and != on truth values; not is true exactly when its operand is false |
| `Meanings.ChoiceMeans` | crave/src/lib/metaSMTNodeVisitorImpl.hpp:540-545 | a choice between truth values is (c and a) or (not c and b); one between words is its second operand when c holds and its third when it does not |
| `Meanings.TruthConstantMeans` | crave/src/lib/metaSMTNodeVisitorImpl.hpp:224-229 | a constant of one signed bit is true exactly when the stored value is not zero; one unsigned bit is a word |
| `Ast.KindIsKept` | crave/src/lib/metaSMTNodeVisitorImpl.hpp:205-557 | a tree has a value of its kind, and is stuck exactly when it has none |
| `WordLemmas.RightShiftsAgree` | crave/src/lib/metaSMTNodeVisitorImpl.hpp:531-537 | the logical and the arithmetic right shift agree exactly on words without the sign bit and on shifts by nothing |
| `WordLemmas.AshrRoundsDown` | crave/metaSMT/src/metaSMT/BitBlast.hpp:814-875 | the arithmetic shift divides the signed number by a power of two and rounds down |
| `Ast.SignedRightShift` | crave/src/lib/metaSMTNodeVisitorImpl.hpp:531-537 | a right shift of a signed expression is logical; it is the arithmetic shift exactly when the number is not negative or is not shifted |
| `Ast.NegativeShiftDiffers` | crave/src/lib/metaSMTNodeVisitorImpl.hpp:531-537 | -2 shifted by one place is 1 in two bits, where the arithmetic shift gives -1 |
| `Ast.QuotientExactly` | crave/src/lib/metaSMTNodeVisitorImpl.hpp:481-501 | a quotient of two expressions of one sign is that of SMT-LIB exactly when the divisor is not zero (or the width is one) |
| `Ast.RemainderExactly` | crave/src/lib/metaSMTNodeVisitorImpl.hpp:504-519 | a remainder of two expressions is that of SMT-LIB exactly when the dividend is unsigned, the divisor is not negative as a signed word, or nothing remains |
| `Ast.SupportDecides` | crave/src/lib/GetSupportSetVisitor.cpp:36-115 | the value of a tree depends on nothing but its support set |
| `Ast.SupportOccurs` | crave/src/lib/GetSupportSetVisitor.cpp:36-115 | an id is in the support set exactly when a variable or vector with it stands somewhere in the tree |
| `FixWidth.FixWidthVisitor.EvalBinExpr` | crave/src/lib/FixWidthVisitor.cpp:58-72 | both operands are fixed and taken off the stack; the one recorded narrower is extended by the difference |
| `FixWidth.FixWidthVisitor.FixTree` | crave/src/lib/FixWidthVisitor.cpp:84-227 | the pass over the stack builds the fixed tree and leaves the stack as it was |
| `FixWidth.FixKind` | crave/src/lib/FixWidthVisitor.cpp:58-227 | after the pass no width assertion of the back end fails exactly when on both sides of every binary operator the recorded widths have the same error |
| `FixWidth.BoolRecorded` | crave/src/lib/FixWidthVisitor.cpp:116-121 | truth values are recorded with width one |
| `FixWidth.RecordedExactly` | crave/src/lib/FixWidthVisitor.cpp:102-227 | on expressions without extensions, choices and quotients of different signs the recorded width is the width of the value |
| `FixWidth.PlainCombines` | crave/src/lib/FixWidthVisitor.cpp:58-72 | two such words of any widths can be operands of every operator but the logical ones: after the pass no width assertion fails |
| `FixWidth.RecordedErrors` | crave/src/lib/FixWidthVisitor.cpp:154-219 | what is recorded for the others: an extension counts as its operand, a choice as its condition, a quotient of different signs as one bit less |
| `FixWidth.FixMeaning` | crave/src/lib/FixWidthVisitor.cpp:58-227 | on a tree with a kind, extending by the recorded widths gives the value that widening the operands gives, for any values of the leaves |
| `FixWidth.FixPreservesMeaning` | crave/src/lib/FixWidthVisitor.cpp:58-227 | the fixed tree means what the user wrote, with every narrower operand extended by its own sign |
| `FixWidth.FixWithoutKindIsStuck` | crave/src/lib/FixWidthVisitor.cpp:58-227 | a tree without a kind stops the back end for all values of its variables, and only such a tree does |
| `Blasting.MixedDivisionHasNoKind` | crave/src/lib/metaSMTNodeVisitorImpl.hpp:486-500 | a quotient of mixed signs is one bit wider than recorded, so comparing it with an operand of its recorded width fails |
| `Blasting.FixedCanBeAsserted` | crave/src/crave/ir/ConstraintManager.hpp:58-65 | a user constraint with fixed widths meets all that asserting it asks for |
| `Blasting.ConstraintsPreserveSatisfiability` | crave/src/crave/ir/ConstraintManager.hpp:58-65 | the gates of the fixed constraints can be true together exactly when some model makes every constraint true as the user reads it |
| `Blasting.AssertAll` | crave/src/crave/ir/ConstraintManager.hpp:58-65 | the whole path for a list of constraints: fix, compile, assert |
| `Coverage.AddState` | crave/src/crave/experimental/CoverageBins.hpp:87-102 | a statement repeated zero times leaves the chain as it is; any other becomes the last state with its expression and bounds, so every state of a chain asks for at least one hit |
| `Coverage.UnitMatch` | crave/src/crave/experimental/CoverageBins.hpp:278-330 | one repetition of a state is its gap followed by one hit |
| `Coverage.StatementPush` | crave/src/crave/experimental/CoverageBins.hpp:289-316 | a sample completes a statement exactly when it is the hit with a number between minimum and maximum |
| `Coverage.LanguagePush` | crave/src/crave/experimental/CoverageBins.hpp:289-316 | a sample completes the first statements of a chain exactly when it is a hit of the last one with its number in range |
| `Coverage.LivePush` | crave/src/crave/experimental/CoverageBins.hpp:271-330 | which partial words survive a sample: those waiting, those counting a hit, those entering a state |
| `Coverage.ReachedPush` | crave/src/crave/experimental/CoverageBins.hpp:289-316 | which samples complete the first k+1 statements of some word |
| `Coverage.StepIsExact` | crave/src/crave/experimental/CoverageBins.hpp:245-262 | if the runs are exactly the partial words of the trace, then so are the new runs for the longer trace, and the hit flag is exactly that a transition ends here |
| `Coverage.TransitionBin.CheckRun` | crave/src/crave/experimental/CoverageBins.hpp:271-330 | what one run contributes: its continuations and whether it completes |
| `Coverage.TransitionBin.CheckRuns` | crave/src/crave/experimental/CoverageBins.hpp:245-262 | after the loop over all runs and the new run the carried runs are exactly the partial words, and the flag tells whether the language has a word that ends with this sample |
| `Coverage.TransitionBin.CalcHit` | crave/src/crave/experimental/CoverageBins.hpp:245-262 | the hit count grows by one exactly at the samples t for which some s has trace[s..t] in the language of the chain |
| `Coverage.HitsAreCounted` | crave/src/crave/experimental/CoverageBins.hpp:245-262 | the count is the number of samples at which a transition ends |
| `Repetition.ConsecutiveWords` | crave/src/crave/experimental/CoverageBins.hpp:278-281 | [*N:M]: between N and M samples that all satisfy the expression |
| `Repetition.SinglesInOrder` | crave/src/crave/experimental/CoverageBins.hpp:245-330 | a chain of single samples ends with a sample exactly when the last samples satisfy its expressions in order |
| `Repetition.GotoWords` | crave/src/crave/experimental/CoverageBins.hpp:284-316 | [->N:M]: the word ends with a hit and has between N and M hits |
| `Repetition.NonConsecWords` | crave/src/crave/experimental/CoverageBins.hpp:276-316 | [=N:M]: the word ends with a hit and has between N and M hits, with any samples between them |
| `Repetition.SpacedWords` | crave/src/crave/experimental/CoverageBins.hpp:276-316 | for every statement whose hits may be apart: the last sample is a hit, the number of hits is in range, and only samples between the hits that the code lets pass |
| `Repetition.AfterNonConsecWords` | crave/src/crave/experimental/CoverageBins.hpp:318-330 | a statement f after e[=N:M]: the last sample is a hit, the number of hits is in range, and e is not seen again except in a hit |
| `Repetition.NonConsecThenSingle` | crave/src/crave/experimental/CoverageBins.hpp:276-330 | e[=N:M] followed by a single f: N to M hits of e with anything between them, the last sample of them a hit, then samples with neither e nor f, then one f |
| `Repetition.NonConsecTrace` | crave/src/crave/experimental/CoverageBins.hpp:276-330 | the chain e[=2] => f ends with the last sample of {e}, {}, {e}, {f} |
| `Repetition.SingleAfterNonConsec` | crave/src/crave/experimental/CoverageBins.hpp:318-330 | after [=N:M] a single sample f may be preceded by samples that satisfy neither expression |
| `Repetition.RepeatedAfterNonConsec` | crave/src/crave/experimental/CoverageBins.hpp:318-330 | a repetition of f after [=N:M] also accepts a word with gaps between the hits, which waiting first and repeating then does not |
| `Repetition.AfterNonConsecExactly` | crave/src/crave/experimental/CoverageBins.hpp:318-330 | a statement after [=N:M] is waiting followed by repetition exactly when it repeats at most once |
| `Repetition.MaximumExactly` | crave/src/crave/experimental/CoverageBins.hpp:287-316 | the words of a chain are those of its declared bounds exactly when no maximum is below its minimum; a chain with such a statement would never match as declared |
| `Partitions.GetSupportSetVisitor.Visit` | crave/src/lib/GetSupportSetVisitor.cpp:36-115 | the visit adds exactly the ids of the variables and vectors of the tree |
| `Partitions.ConstraintPartition.Add` | crave/src/lib/ConstraintPartition.cpp:55-64 | the constraint is inserted before the first one whose id is not greater; hard constraints over one variable are remembered under it |
| `Partitions.InsertDescending` | crave/src/lib/ConstraintPartition.cpp:55-58 | insertion keeps the descending order of ids |
| `Partitions.InsertMultiset` | crave/src/lib/ConstraintPartition.cpp:55-58 | insertion adds one constraint and loses none |
| `Partitions.ConnectedGrows` | crave/src/lib/ConstraintPartitioner.cpp:88-95 | a constraint that shares a variable keeps the group connected |
| `Partitions.ConstraintPartitioner.MergeConstraints` | crave/src/lib/ConstraintPartitioner.cpp:41-53 | the enabled constraints are taken over in order, those over vectors apart |
| `Partitions.EnabledMember` | crave/src/lib/ConstraintPartitioner.cpp:41-53 | a constraint is taken over exactly when it is in the list, enabled, and over vectors or not as asked |
| `Partitions.EnabledPlaces` | crave/src/lib/ConstraintPartitioner.cpp:41-53 | what is taken over are the constraints at increasing places of the list, and exactly those places that hold an enabled one of the kind |
| `Partitions.EnabledJoin` | crave/src/lib/ConstraintPartitioner.cpp:41-53 | taking over a joined list is joining what is taken over, so the order is kept |
| `Partitions.DisabledDoNotMatter` | crave/src/lib/ConstraintPartitioner.cpp:46-46 | adding, removing or changing a disabled constraint anywhere in the list changes nothing |
| `Partitions.ConstraintPartitioner.Sweep` | crave/src/lib/ConstraintPartitioner.cpp:82-99 | one sweep moves constraints into the partition; when nothing moved, nothing on the list shares a variable with it |
| `Partitions.ConstraintPartitioner.MaximizePartition` | crave/src/lib/ConstraintPartitioner.cpp:77-101 | the partition is in order, connected, knows its variables, and shares none with the rest of the list |
| `Partitions.ConstraintPartitioner.Partition` | crave/src/lib/ConstraintPartitioner.cpp:55-60 | the list is emptied into partitions that are in order and connected, pairwise without common variables, and together hold exactly the constraints of the list |
| `Satisfiability.GatesDecideSat` | crave/src/lib/metaSMTNodeVisitorImpl.hpp:577-584 | what the gates decide is the joint satisfiability of the asserted formulas |
| `Satisfiability.SatApart` | crave/src/lib/ConstraintPartitioner.cpp:85-95 | formulas without common variables are satisfiable together exactly when each group is |
| `Satisfiability.MemberOfOne` | crave/src/lib/ConstraintPartitioner.cpp:77-101 | a constraint outside a partition mentions none of its variables |
| `Satisfiability.GluedSatisfies` | crave/src/lib/VariableGeneratorType.cpp:42-47 | one model per partition, glued by the variables of the partitions, satisfies everything at once |
| `Satisfiability.HardsIffPartitions` | crave/src/lib/VariableGeneratorType.cpp:42-47 | all hard constraints are jointly satisfiable exactly when those of each partition are |
| `Softs.GreedyIsSat` | crave/src/lib/metaSMTNodeVisitorImpl.hpp:617-632 | the accepted soft constraints can hold together with the hard ones |
| `Softs.GreedyOfUnsat` | crave/src/lib/metaSMTNodeVisitorImpl.hpp:617-632 | on top of contradicting formulas nothing is accepted |
| `Softs.GreedyIsBest` | crave/src/lib/metaSMTNodeVisitorImpl.hpp:617-632 | every other satisfiable choice of soft constraints is worse at the first place, newest first, where it differs |
| `Softs.DemandsAreSat` | crave/src/lib/VariableDefaultSolver.cpp:93-98 | hard constraints and survivors can hold together exactly when the hard constraints can |
| `SoftsPerPartition.InsertAllSorts` | crave/src/lib/ConstraintPartition.cpp:55-58 | inserting all constraints one by one sorts them by descending id |
| `SoftsPerPartition.PartitionIsWithin` | crave/src/lib/ConstraintPartitioner.cpp:55-60 | a partition lists its members in the order of the sorted list of everything |
| `SoftsPerPartition.PartitioningKeepsSurvivors` | crave/src/lib/metaSMTNodeVisitorImpl.hpp:617-632 | a partition accepts exactly those of its soft constraints that one newest-first pass over all constraints accepts |
| `SoftsPerPartition.SurvivorsAgreeExactly` | crave/src/lib/metaSMTNodeVisitorImpl.hpp:617-632 | partitioning accepts exactly the soft constraints of a single pass if and only if all hard constraints can hold together, or no soft constraint can hold together with the hard constraints of its own partition |
| `SoftsPerPartition.NothingSurvivesIfHopeless` | crave/src/lib/metaSMTNodeVisitorImpl.hpp:617-632 | a partition accepts nothing exactly when none of its soft constraints can hold together with its hard constraints |
| `SoftsPerPartition.PartitioningMayKeepMore` | crave/src/lib/metaSMTNodeVisitorImpl.hpp:617-632 | two partitions, one with a contradiction and one with a soft constraint that can hold: the partitions accept it, the single pass does not |
| `SoftsPerPartition.ContradictionKeepsNothing` | crave/src/lib/metaSMTNodeVisitorImpl.hpp:617-632 | a single pass over contradicting hard constraints accepts nothing |
| `SoftsPerPartition.GluedMeetsDemands` | crave/src/lib/VariableGeneratorType.cpp:42-47 | glued models of the partitions satisfy all hard constraints and all survivors of the single pass |
| `SoftsPerPartition.SurvivorsByIds` | crave/src/lib/metaSMTNodeVisitorImpl.hpp:617-632 | among all soft constraints that can hold with the hard ones the survivors are the best choice by age: any other choice lacks the newest constraint in which the two differ |
| `Solving.ExactBackEndExists` | crave/src/lib/metaSMTNodeVisitorImpl.hpp:671-676 | the assumption about the back end can be met |
| `Solving.IgnoredAreMetIfEntailed` | crave/src/lib/metaSMTNodeVisitorImpl.hpp:658-659 | formulas that a call ignores are met by every exact back end if and only if the formulas of the call entail them |
| `Solving.Shuffle` | crave/src/lib/metaSMTNodeVisitorImpl.hpp:661-662 | a random order has the same elements |
| `Solving.Solver.Decide` | crave/src/lib/metaSMTNodeVisitorImpl.hpp:673-673 | one call answers for the assertions and assumptions and forgets the assumptions |
| `Solving.Solver.AnalyseSofts` | crave/src/lib/metaSMTNodeVisitorImpl.hpp:617-632 | the accepted soft constraints become assertions, the indices of all others are returned in order, one call for each |
| `Solving.Solver.Solve` | crave/src/lib/metaSMTNodeVisitorImpl.hpp:658-689 | succeeds exactly when assertions, assumptions and (unless ignored) soft constraints can hold, for all random draws; at most one call more than suggestions; all suggestions are kept, in one call, when all are compatible; each further call drops one |
| `DefaultSolver.InactiveNames` | crave/src/lib/VariableDefaultSolver.cpp:183-197 | merging the returned indices with the list gives the names of exactly the rejected soft constraints, in order |
| `DefaultSolver.VariableDefaultSolver.constructor` | crave/src/lib/VariableDefaultSolver.cpp:43-91 | contradictions are reported exactly when the hard constraints contradict each other; otherwise the solver demands hard constraints and survivors and knows the names of the rejected ones; without analysis it demands the hard constraints alone and the soft ones stay queued |
| `DefaultSolver.VariableDefaultSolver.AnalyseHards` | crave/src/lib/VariableDefaultSolver.cpp:160-181 | the list of contradictions is empty exactly when the hard constraints can hold, and otherwise names the hard constraints of every conflict |
| `DefaultSolver.VariableDefaultSolver.AnalyseSofts` | crave/src/lib/VariableDefaultSolver.cpp:183-198 | the assertions are the demands, and the inactive names those of the rejected |
| `DefaultSolver.VariableDefaultSolver.AssertConstraints` | crave/src/lib/VariableDefaultSolver.cpp:47-54 | hard constraints are asserted, soft ones queued, cover constraints skipped |
| `DefaultSolver.VariableDefaultSolver.CreateBdd` | crave/src/lib/VariableDefaultSolver.cpp:76-80 | the solver of one variable asserts exactly the hard constraints over it whose complexity is positive and below the limit |
| `DefaultSolver.VariableDefaultSolver.CreateBdds` | crave/src/lib/VariableDefaultSolver.cpp:66-84 | exactly the written variables with hard constraints of their own and without a distribution get a solver |
| `DefaultSolver.VariableDefaultSolver.CollectRandomRefs` | crave/src/lib/VariableDefaultSolver.cpp:86-90 | the remaining written variables are kept for random values, unless more than half have their own source |
| `DefaultSolver.VariableDefaultSolver.SuggestFromBdds` | crave/src/lib/VariableDefaultSolver.cpp:118-129 | one suggestion per written variable with a solver of its own: a value that meets its small hard constraints |
| `DefaultSolver.VariableDefaultSolver.SuggestRandom` | crave/src/lib/VariableDefaultSolver.cpp:139-147 | the remaining variables are shuffled and the first half of them suggested their random values |
| `DefaultSolver.VariableDefaultSolver.Prepare` | crave/src/lib/VariableDefaultSolver.cpp:118-147 | a call starts with the suggestions of the small solvers, of the distributions and of the random values, and with the read references as assumptions |
| `DefaultSolver.VariableDefaultSolver.BddValue` | crave/src/lib/VariableDefaultSolver.cpp:118-123 | the checked call of the solver of one variable never fails when no contradiction was found |
| `DefaultSolver.VariableDefaultSolver.Solve` | crave/src/lib/VariableDefaultSolver.cpp:112-158 | succeeds exactly when no contradiction was found and requirements and read references can hold together, whatever is drawn; queued soft constraints are ignored; the written variables get the values of the model that was found; the number of calls is bounded by the suggestions |
| `DefaultSolver.VariableDefaultSolver.QueuedAreMetIfEntailed` | crave/src/lib/VariableDefaultSolver.cpp:149-151 | queued soft constraints are met by the delivered values when the requirements and read references entail them |
| `DefaultSolver.BypassedSolvable` | crave/src/lib/VariableDefaultSolver.cpp:47-56 | without analysis a partition is solved exactly when its hard constraints and its read references can hold together |
| `DefaultSolver.ContainedRefs` | crave/src/lib/VariableSolver.cpp:30-49 | the references whose variable belongs to the partition |
| `DefaultSolver.RemainingCounts` | crave/src/lib/VariableDefaultSolver.cpp:86-90 | a reference remains, as often as it occurs, exactly when its variable is not one of those with a source of their own |
| `DefaultSolver.VariableDefaultSolver.SuggestionMeans` | crave/src/lib/VariableDefaultSolver.cpp:118-147 | a suggestion is met exactly by the models in which the variable has the suggested value |
| `Generators.VariableGenerator.Reset` | crave/src/lib/VariableGeneratorType.cpp:33-40 | one solver per partition, in order, each in the state that its analysis leaves |
| `Generators.VariableGenerator.Solve` | crave/src/lib/VariableGeneratorType.cpp:42-47 | true exactly when every solver can meet its requirements and read references, soft constraints that were left queued not counted, and then all of them have delivered |
| `Generators.VariableGenerator.Read` | crave/src/crave/backend/VariableGeneratorType.hpp:49-55 | a variable that is mentioned in the first partition that has it gets the value of the model of that partition, and no other variable gets a value |
| `Generators.VariableGenerator.ValueFound` | crave/src/crave/backend/VariableGeneratorType.hpp:49-55 | from any partition on: the value is found for every mentioned variable and comes from a partition that mentions it |
| `Generators.VariableGenerator.ValueHolds` | crave/src/crave/backend/VariableGeneratorType.hpp:49-55 | what is read is the value in every model that all partitions agree with |
| `Generators.PartitionsDecideAll` | crave/src/lib/VariableGeneratorType.cpp:42-47 | each partition can be solved exactly when all hard constraints, survivors and read references can hold together |
| `Generators.GluedDelivers` | crave/src/lib/VariableGeneratorType.cpp:42-47 | the values that the partitions deliver are those of one model of everything that is asked |
| `Generators.Generator.Rebuild` | crave/src/lib/Generator.cpp:55-70 | after a rebuild the partitions split the enabled scalar constraints and every partition has its analysed solver |
| `Generators.Generator.Next` | crave/src/lib/Generator.cpp:72-78 | the scalar part of a call succeeds exactly when the enabled hard constraints, the survivors of one newest-first pass over all of them and the read references can hold together, and then delivers the values of one such model, which makes every enabled hard constraint over scalars true; without read references among the variables it succeeds exactly when the enabled hard constraints alone have a model, so a disabled constraint never makes it fail |
| `Generators.Generator.AskedMeetsEnabled` | crave/src/lib/Generator.cpp:72-78 | a model of everything that is asked makes every enabled hard constraint over scalars of the list true |
| `Generators.Generator.EnabledDecide` | crave/src/lib/Generator.cpp:72-78 | without read references among the variables, what is asked can hold exactly when the enabled hard constraints over scalars have a model |
| `Generators.Generator.DeliveredEnabled` | crave/src/lib/Generator.cpp:72-78 | the values that all partitions deliver are those of a model that makes every enabled hard constraint over scalars true |
| `Generators.Generator.OnlyOne` | crave/src/lib/ConstraintPartitioner.cpp:77-101 | the partition that mentions a variable is the first that has it |
| `Generators.Generator.HardIsMentioned` | crave/src/crave/backend/VariableGeneratorType.hpp:49-55 | every variable of an enabled hard constraint is mentioned in some partition, so its value can be read |
| `Threads.RunKeeps` | crave/src/lib/VariableGeneratorMT.cpp:53-68 | in every interleaving the flag is cleared only for a failed solver, and no finished failure goes unnoticed |
| `Threads.AnswerIsAll` | crave/src/lib/VariableGeneratorMT.cpp:58-68 | in every interleaving the call returns true exactly when every partition can be solved, and then every solver has been asked and has succeeded |
| `Threads.FlagStaysCleared` | crave/src/lib/VariableGeneratorMT.cpp:53-56 | the flag never goes from false back to true during a call |
| `Threads.NoLateStarts` | crave/src/lib/VariableGeneratorMT.cpp:53-68 | once the flag is cleared no thread enters its solver any more, and no thread is started but the one that the main thread is about to start |
| `Threads.RunsAreShort` | crave/src/lib/VariableGeneratorMT.cpp:58-68 | every interleaving ends after a bounded number of steps |
| `Threads.NeverStuck` | crave/src/lib/VariableGeneratorMT.cpp:58-68 | until the call has returned some thread can go on |
| `Threads.VariableGeneratorMT.Solve` | crave/src/lib/VariableGeneratorMT.cpp:58-68 | real solvers asked by threads that step in any order: the execution is a run of the state machine, the answer is that of the sequential generator for the same solvers, and on success every solver has delivered |
| `Written.SurvivorsAsWritten` | crave/src/lib/metaSMTNodeVisitorImpl.hpp:617-632 | the soft constraints that survive on the fixed formulas are those that a pass newest first over the constraints as written keeps |
| `Written.DemandsCanBeAsserted` | crave/src/crave/ir/ConstraintManager.hpp:58-65 | every formula that comes from a constraint is a truth value over declared variables, so no assertion of the back end fails |
| `Written.AskedMeans` | crave/src/lib/VariableGeneratorType.cpp:42-47 | a model meets what the partitions are asked for exactly when it meets the hard constraints and the survivors as they were written, and the read references |
| `Written.NextAsWritten` | crave/src/lib/Generator.cpp:72-78 | the condition under which a call succeeds, and what it then delivers, said of the constraints as the user wrote them |
| `ForEachExpansion.ReplaceVisitor.Visit` | crave/src/lib/ReplaceVisitor.cpp:35-392 | both stacks grow by exactly one, the subscript is that of the tree, the flag survives exactly when no subscript left the vector, and then the instance of the tree is on top; accessed elements take the type of the vector |
| `ForEachExpansion.ReplaceVisitor.PushTerminal` | crave/src/lib/ReplaceVisitor.cpp:94-135 | every id is built once and reused |
| `ForEachExpansion.ReplaceVisitor.Access` | crave/src/lib/ReplaceVisitor.cpp:337-354 | inside the vector the element is retyped and pushed, outside the first element is pushed and the flag cleared |
| `ForEachExpansion.TypedKeepsNames` | crave/src/lib/ReplaceVisitor.cpp:337-354 | retyping never changes which variables the elements are |
| `ForEachMeaning.InstanceMeans` | crave/src/lib/ReplaceVisitor.cpp:94-380 | the instance at an index has the value of the tree whose accesses are the elements that the visitor selects |
| `ForEachMeaning.FixSubscript` | crave/src/lib/ReplaceVisitor.cpp:169-174 | extensions made for the widths do not change subscripts |
| `ForEachMeaning.FixedInstanceMeans` | crave/src/lib/ReplaceVisitor.cpp:94-380 | with subscripts that select, fixing the widths of the body and then making the instance gives what the user reads at the index, and the instance is dropped exactly where the user leaves the vector |
| `ForEachMeaning.ForEachMeans` | crave/src/lib/VectorGenerator.cpp:79-94 | a model meets the asserted instances exactly when it meets the body, every access read in its own vector at the number its subscript has as a bit-vector, at every index at which the user does not leave the vector; subscripts such as _i - 1 included |
| `ForEachMeaning.AccessReads` | crave/src/lib/ReplaceVisitor.cpp:337-354 | the reading by the user: an access is the element of its own vector at the number of its subscript |
| `ForEachMeaning.ReadingsAgree` | crave/src/lib/ReplaceVisitor.cpp:337-354 | where all subscripts select, visitor and user leave the vector at the same indices and otherwise read the same elements |
| `ForEachMeaning.VariableSubscriptDiffers` | crave/src/lib/ReplaceVisitor.cpp:107-117 | v[x] != v[0] with a variable x and the literal 0: the instance is false for all values, while the user reads the element that x selects |
| `ForEachMeaning.ForeignVectorDiffers` | crave/src/lib/ReplaceVisitor.cpp:337-354 | v[i] != w[i] over two vectors: the instance is false for all values, while the user compares the elements of two vectors |
| `ForEachMeaning.AccessExactly` | crave/src/lib/ReplaceVisitor.cpp:337-354 | one access by the index and constants, inside both vectors: its instance and the reading by the user have the same value in every model if and only if the two elements are the same variable |
| `ForEachMeaning.DivisionByReadStops` | crave/src/lib/ReplaceVisitor.cpp:301-318 | a body that divides by a variable or an element, wherever the division stands, divides by zero while it is unrolled, at every index |
| `Numbers.OperatorNumber` | crave/src/lib/metaSMTNodeVisitorImpl.hpp:299-537 | for each of &, |, ^, +, -, *, /, %, << and >> and every width: the number that the bit-vector operator computes from the numbers of its operands |
| `Numbers.RightExactly` | crave/src/lib/ReplaceVisitor.cpp:176-335 | on numbers of n bits: the bit-vector operator computes the int of the visitor if and only if the operation is right (results fit into n bits, signed remainders have a divisor below 2^(n-1) that is positive or leave nothing, unsigned ones a positive divisor or a dividend on which both agree, right-shifted numbers are not negative or not shifted) |
| `Numbers.OperatorExactly` | crave/src/lib/ReplaceVisitor.cpp:176-335 | the same condition for the words: from operands that stand for the ints of the visitor the operator computes the int of the visitor if and only if the operation is right |
| `Numbers.UnaryExactly` | crave/src/lib/ReplaceVisitor.cpp:145-162 | negation and complement compute the int of the visitor if and only if it fits into the width |
| `Literals.NewValue` | crave/src/crave/ir/Context.hpp:269-278 | the loop finds the constant of a literal |
| `Literals.MinimalWidthExactly` | crave/src/crave/ir/Context.hpp:273-276 | a literal that is not negative gets exactly as many bits as hold it |
| `Literals.LiteralIsNumber` | crave/src/crave/ir/Context.hpp:269-278 | the constant of every literal of every integer type stands for the literal, although it is narrower than the type and unsigned, and is never taken for a truth value |
| `Literals.LiteralSubscript` | crave/src/lib/ReplaceVisitor.cpp:119-123 | the visitor reads the stored value of a literal that fits into an int, negative ones included, as the literal |
| `Subscripts.ReadsNumber` | crave/src/lib/metaSMTNodeVisitorImpl.hpp:299-537 | the bit-vector of any subscript stands for the number computed operator by operator, each at the width of its wider operand |
| `Subscripts.OperationExactly` | crave/src/lib/ReplaceVisitor.cpp:176-335 | one operation inside a tree, with operands of different widths: from right operands it gives the int of the visitor if and only if it is right |
| `Subscripts.SubscriptIsNumber` | crave/src/lib/ReplaceVisitor.cpp:94-335 | if every operation of a subscript is right, its bit-vector, with variables and accesses read as zero, stands for the int of the visitor |
| `Subscripts.SubscriptIsWord` | crave/src/lib/ReplaceVisitor.cpp:94-300 | sums, differences, products, negations, complements and bitwise operations have the word of the int of the visitor, as long as no int overflows and narrower operands are right |
| `Subscripts.SubscriptExactly` | crave/src/lib/ReplaceVisitor.cpp:337-354 | with variables or accesses in a subscript of right operations, visitor and user select the same element exactly when reading them as zero makes no difference to the number, or both leave the vector |
| `Subscripts.ClosedSelectsExactly` | crave/src/lib/ReplaceVisitor.cpp:337-354 | for every defined subscript over the index and constants visitor and user select the same element exactly when the two numbers are the same, or both leave the vector |
| `Subscripts.SumSelectsExactly` | crave/src/lib/ReplaceVisitor.cpp:337-354 | ... and for a sum of any width exactly when the int fits into the width, or both the int and what is left of it leave the vector |
| `Subscripts.SelectsTheSame` | crave/src/lib/ReplaceVisitor.cpp:337-354 | a subscript of which every operation is right, or a sum of at least 32 bits, selects the same element for both, or none, of a vector with less than 2^31 elements |
| `Subscripts.OffsetSelects` | crave/src/lib/ReplaceVisitor.cpp:274-291 | _i + c and _i - c, for every literal c of every integer type that fits into an int, select if and only if the int of the visitor does not overflow |
| `Subscripts.PredecessorSelects` | crave/src/lib/ReplaceVisitor.cpp:284-291 | _i - c selects at every index for every literal c that is not negative; at index 0, _i - 1 is -1 for the visitor and 2^32 - 1 for the user, and both are outside |
| `Subscripts.VariableSubscript` | crave/src/lib/ReplaceVisitor.cpp:107-117 | a bare variable as subscript selects the first element; that is right exactly when the variable is zero |
| `Subscripts.HugeVectorHasNoIndex` | crave/src/lib/ReplaceVisitor.cpp:343-343 | from 2^31 elements on the size reads as negative and every subscript is outside |
| `Subscripts.ComparisonAgrees` | crave/src/lib/ReplaceVisitor.cpp:211-272 | a comparison in a subscript, of operands that stand for their ints, has the truth value that the visitor computes, if and only if it is not the equality of a negative number and the unsigned one with the same word |
| `Subscripts.LogicAgrees` | crave/src/lib/ReplaceVisitor.cpp:187-218 | logical operators, and equality of truth values, agree always |
| `Subscripts.ChoiceAgrees` | crave/src/lib/ReplaceVisitor.cpp:360-380 | a choice in a subscript is for both the operand that is chosen |
| `Subscripts.MisreadSubscripts` | crave/src/lib/ReplaceVisitor.cpp:137-172 | inside and bit slices are read otherwise by the visitor: inside leaves the int of its operand, a slice leaves 1 exactly for 0 |
| `VectorSolvers.VectorSolver.Resize` | crave/src/lib/VectorGenerator.cpp:71-77 | elements are kept as far as possible; new ones are single bits with the next ids |
| `VectorSolvers.VectorSolver.ExpandForEach` | crave/src/lib/VectorGenerator.cpp:80-94 | one instance is handed over, hard or soft, for every index whose subscripts stay inside |
| `VectorSolvers.VectorSolver.ExpandUnique` | crave/src/lib/VectorGenerator.cpp:95-103 | every two elements are asked to differ |
| `VectorSolvers.VectorSolver.BuildSolver` | crave/src/lib/VectorGenerator.cpp:70-106 | the back end holds exactly the formulas of all constraints |
| `VectorSolvers.VectorSolver.Solve` | crave/src/lib/VectorGenerator.cpp:38-63 | succeeds exactly when the hard formulas can hold; the soft ones are met too when all of them fit. With constraints as written over this vector, elements declared with its kind and unique constraints that meet typed elements: succeeds exactly when some values meet every hard constraint as it is written |
| `VectorMeaning.PairsMean` | crave/src/lib/VectorGenerator.cpp:95-103 | for elements of the type of the vector the pairs hold exactly when the values are pairwise different |
| `VectorMeaning.AllFormulasMean` | crave/src/lib/VectorGenerator.cpp:79-105 | a model meets all formulas exactly when it meets every constraint as it is written, if every unique constraint meets typed elements |
| `VectorMeaning.HandedMeans` | crave/src/lib/VectorGenerator.cpp:79-105 | the formulas can hold exactly when some values of the declared variables meet the constraints as written |
| `VectorMeaning.TypedExactly` | crave/src/lib/ReplaceVisitor.cpp:337-354 | one visit gives the type of the vector to exactly the elements that some access touches |
| `VectorMeaning.ThroughTypes` | crave/src/lib/VectorGenerator.cpp:79-94 | after some constraints an element has the type of the vector exactly when it had it before or one of the loops touches it at some index |
| `VectorMeaning.UniqueTypedExactly` | crave/src/lib/VectorGenerator.cpp:95-103 | every unique constraint meets typed elements exactly when earlier loops touch all elements that did not have the type before |
| `VectorMeaning.CompilesExactly` | crave/src/lib/VectorGenerator.cpp:79-105 | every formula is a truth value over declared variables, so that the back end compiles it, if and only if every unique constraint over two or more elements meets typed elements |
| `VectorMeaning.LoopAssertable` | crave/src/lib/VectorGenerator.cpp:79-94 | the instances of a loop can always be compiled |
| `VectorExamples.UniqueFirstFails` | crave/src/lib/VectorGenerator.cpp:71-105 | a unique constraint before the first loop over words: three and more new elements are single bits that cannot differ, and no declaration of the elements lets the whole list compile |
| `VectorExamples.LoopFirstCompiles` | crave/src/lib/VectorGenerator.cpp:71-105 | with the loop first the same constraints compile |
| `VectorExamples.NeighbourLoopHolds` | crave/src/lib/VectorGenerator.cpp:79-94 | the loop v[_i] != v[_i - 1] holds exactly when neighbours differ; the first element has no predecessor and its instance is dropped |
| `VectorExamples.NeighboursAsWritten` | crave/src/lib/VectorGenerator.cpp:79-105 | the list of this loop and distinct elements meets every condition under which the vector solver answers for the constraints as written |
| `VectorGenerators.VectorGenerator.Solve` | crave/src/lib/VectorGenerator.cpp:110-115 | true exactly when every vector with constraints can meet its hard ones for its size, and then all of them have values that do |
| `VectorGenerators.VectorGenerator.CanSolveAsWritten` | crave/src/lib/VectorGenerator.cpp:43-63 | with constraints as written that is when the elements can meet the hard ones |
| `VectorGenerators.RandomGenerator.Next` | crave/src/lib/Generator.cpp:72-78 | a whole call succeeds exactly when the scalar constraints can hold together and then, for the sizes that the chosen model of the scalars gives, every vector can meet its hard constraints; sizes are not chosen again. The size of a vector is the number of the word that the model gives its size variable whenever a formula of some partition mentions it, in particular when an enabled hard constraint does, and otherwise 5 |
| `VectorGenerators.RandomGenerator.SizeIsRead` | crave/src/lib/VectorGenerator.cpp:43-53 | what is read as size is the number that the variable has in the model, whenever some formula of a partition mentions it and it is a word there, and otherwise the default |
| `VectorGenerators.RandomGenerator.AskedSizes` | crave/src/lib/VectorGenerator.cpp:43-53 | a size of which an enabled hard constraint speaks is the number that its variable has in the model that makes the constraint true |
| `UBus.DutDummy.Proc0` | examples/ubus/dut_dummy.h:77-126 | the bus state machine at a rising edge |
| `UBus.DutDummy.Proc1` | examples/ubus/dut_dummy.h:128-162 | the arbiter at a falling edge |
| `UBus.UbusMasterDriver.ArbitrateForBus` | examples/ubus/vip/ubus_master_driver.cpp:134-148 | the driver waits for its grant and then withdraws its request |
| `UBus.UbusMasterDriver.StartDataPhase` | examples/ubus/vip/ubus_master_driver.cpp:152-194 | after one cycle of address the first byte is announced; an empty transfer ends at once |
| `UBus.UbusMasterDriver.DriveByte` | examples/ubus/vip/ubus_master_driver.cpp:171-234 | a byte is done at an edge without a wait state; the next one is announced as last or not |
| `UBus.UbusMasterDriver.Posedge` | examples/ubus/vip/ubus_master_driver.cpp:119-234 | the driver thread from one rising edge to the next |
| `UBus.UbusExample.RisingEdge` | examples/ubus/dut_dummy.h:77-126 | all processes read the signals as they were before the edge |
| `UBus.UbusExample.RequestTransfer` | examples/ubus/vip/ubus_master_driver.cpp:119-140 | a sequence hands a transfer to an idle driver, which raises its request |
| `UBus.UbusExample.FallingEdge` | examples/ubus/dut_dummy.h:128-162 | the arbiter reads the requests as they were before the edge |
| `UBus.StepKeepsLockstep` | examples/ubus/dut_dummy.h:77-162 | a step keeps bus and masters in lockstep exactly when no error cuts a transfer short and no empty transfer is on the bus |
| `UBus.AlwaysInLockstep` | examples/ubus/vip/ubus_master_driver.cpp:119-234 | in every run after reset with reads and writes and without errors: at most one grant, at most one master past arbitration, and the bus in its address or data state exactly while that master is in its address or data phase |
| `UBus.LeaveTogether` | examples/ubus/dut_dummy.h:111-121 | both sides leave the data phase on the same edge, the one that takes the last byte |
| `UBus.OneByteAtATime` | examples/ubus/vip/ubus_master_driver.cpp:171-234 | every rising edge in the data state without a wait state transfers exactly one byte, and no other edge does |
| `UBus.RequestIsServed` | examples/ubus/dut_dummy.h:128-162 | on a started bus the next two edges take a requesting master into its address phase, master 0 first |
| `UBus.BusIsStarted` | examples/ubus/dut_dummy.h:85-106 | out of reset and out of the no-op state the next rising edge raises start |
| `UBus.NearerAddress` | examples/ubus/dut_dummy.h:85-162 | every edge brings a requested free bus nearer to an address phase, and no other action takes it away |
| `UBus.RequestIsAddressed` | examples/ubus/dut_dummy.h:85-162 | in every legal run without errors a requested free bus takes some master into its address phase within five edges |
| `UBus.NearerRestart` | examples/ubus/dut_dummy.h:107-121 | every edge without a wait state brings a transfer nearer to its end, and the edge that ends it starts the bus |
| `UBus.TransferEnds` | examples/ubus/dut_dummy.h:107-121 | in every legal run without errors and wait states a transfer ends: after at most two edges for every byte, and two for the address, the bus is started again |
| `UBus.NopHangs` | examples/ubus/vip/ubus_master_driver.cpp:171-196 | after the address phase of a transfer that neither reads nor writes the bus stays in its data state |
| `UBus.HangsForever` | examples/ubus/dut_dummy.h:111-121 | ... for good, unless a slave reports an error |
| `Distributions.OverlapMeans` | crave/src/crave/frontend/WeightedRange.hpp:74-78 | the test finds every common value except for ranges with the same left bound |
| `Distributions.Distribution.AddRange` | crave/src/crave/frontend/Distribution.hpp:170-181 | a range is refused exactly when an earlier one overlaps; otherwise it is appended with the accumulated weight in 64 bits |
| `Distributions.Distribution.NextValue` | crave/src/crave/frontend/Distribution.hpp:153-167 | the value lies in the range that the draw selects, or in the only range, or anywhere in the type when there is none |
| `Distributions.SelectIff` | crave/src/crave/frontend/Distribution.hpp:158-164 | a draw selects a range exactly when it is at least the sum of the weights before and below the sum with its own |
| `Distributions.SharesAreWeights` | crave/src/crave/frontend/Distribution.hpp:158-164 | of all draws exactly weight many select a range |
| `Distributions.DrawsAreBelowTotal` | crave/src/crave/frontend/Distribution.hpp:159-159 | the draws are those below the total weight |
| `Distributions.InRanges` | crave/src/crave/ir/Context.hpp:357-366 | the loop builds the disjunction of all ranges |
| `Distributions.RangesMean` | crave/src/crave/ir/Context.hpp:357-366 | the formula is true of a value exactly when some range contains it, for every width and sign |
| `Distributions.DrawSatisfies` | crave/src/crave/ir/Context.hpp:357-370 | every drawn value satisfies the formula of the same distribution |

## Left out

- The external SMT and BDD solvers, `analyze_conflicts`, the gate-level back ends and the clauses they are given.
- Boost.Proto, templates, reference counting, `boost::variant`, logging, settings, dot printing, seeds and the quality of randomness.
- The `rand_obj` and `crv_object` hierarchies, variable wrappers, complexity estimates (a number here), and all example programs other than UBus.
- Coverage-driven generation (`VariableCoverageSolver`, `VariableCoverageGenerator`); cover constraints only take part in partitioning.
- Operations of the bit-blaster that the visitor does not use (`bvnand`, `bvnor`, `bvxnor`, `bvcomp`, hexadecimal and binary constants).
- `EvalVisitor` does not agree with the back end in general; the expressions of transition bins are predicates on samples instead.
- Solving.Solver.MakeAssertion: works on formulas; that the compiled form exists and has the same models is proved for the visitor in `MetaSMT`. A suggestion whose widths do not fit is a false formula here and a failed assertion there.
- DefaultSolver.VariableDefaultSolver.SuggestFromBdds: the conversion between the text of a value and a constant is a parameter.
- Two constraints with the same id: ids are given out by a counter, and the order of equal ids is not part of the theorems about soft constraints.
- Enabling, disabling and naming constraints, and the flag that asks for a rebuild: a list of constraints is given.
- Threads.VariableGeneratorMT.Solve: a solver is asked in one step, since solvers share nothing; the accesses to the flag are atomic steps, so the data race on a plain `bool` in C++ is not modelled; building the solvers in parallel is left out because they share nothing.
- ForEachExpansion.ReplaceVisitor.Visit: asks that no subscript operation is undefined in C++ (overflow of `int`, division by zero, shift out of range); a left shift out of the positive `int` range counts as undefined.
- ForEachMeaning.ForEachMeans: the body has no loop inside (the visitor itself is modelled with nested loops) and goes to one vector of less than 2^31 elements; its subscripts are numbers made of the index and constants that select the same element for visitor and user. `Subscripts.ClosedSelectsExactly` and `Subscripts.SubscriptExactly` say exactly when they do.
- VectorSolvers.VectorSolver.BuildSolver: formulas that do not compile are handed over like others; the failed assertion or exception of the back end is not modelled, `VectorMeaning.CompilesExactly` says when it cannot occur.
- VectorGenerators.RandomGenerator.Next: all sizes are read before the first vector is solved (reading changes nothing), vectors without constraints get no random values, and a vector is found by its place in a list that is ordered by the ids. That unrolling is defined is asked for every size that a model of the scalar variables may give.
- UBus.AlwaysInLockstep: no second reset during a run, and no data: the resolution of `rw` and `sig_data_out`, UVM phases, sequencers, monitors and scoreboard are not modelled. Transfers have at least one byte, as their constraint demands.
- Distributions.Distribution.NextValue: the standard library draws uniformly; here any value between the bounds. Ranges with the left bound above the right one are undefined in the source and excluded. `distribution<bool>` is left out.
- Distributions.SharesAreWeights: for total weights that fit into 64 bits; the wrap-around beyond is modelled in `AddRange` only.
