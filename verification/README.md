# A verified model of a decompiler core

The repository is a Go port of the core of Ghidra's decompiler.  This project models nine
of its algorithms in Dafny and proves what each of them is for: exact sets for strided
ranges on a modular ring, dominators of a control-flow graph in depth-first order,
value-preserving rewriting of pointer arithmetic, recovery of bitfield writes, solving
stack-pointer equations, allocating join-space records, following flow through
instructions, driving resumable passes, and keeping the op list of a basic block.

`dafny verify dfyconfig.toml` checks everything.

| file | subject |
|---|---|
| `Options.dfy`, `Sorting.dfy`, `Words.dfy` | optional values, stable sorting, machine words and remainders |
| `CircleRange.dfy` | ranges as sets: membership, the overlap table, intersection, union, complement |
| `PullBack.dfy` | ranges pulled back through operators |
| `RangeMeld.dfy` | ranges translated to comparisons, and two comparisons melded into one |
| `PushForward.dfy` | ranges pushed forward through addition |
| `SpanningTree.dfy`, `Dominators.dfy`, `FlowStructure.dfy` | the depth-first walk, dominators, and both together |
| `AddTree.dfy`, `SubComponent.dfy` | additive trees rewritten to PTRADD, PTRSUB and a remainder, and the component the PTRSUB points to |
| `StackSolver.dfy`, `StackMark.dfy` | difference equations with guesses, and the mark of an unknown among the offsets |
| `Join.dfy` | join-space records and renormalized addresses |
| `Instruction.dfy`, `FlowOrder.dfy`, `FlowTimes.dfy` | pieces of an instruction, flow order, and ops numbered in it |
| `Action.dfy`, `ActionRun.dfy` | leaf actions, groups and restart groups with breakpoints, and what their completed calls come to |
| `BlockOps.dfy` | the doubly linked op list with its cached slice |
| `BitField.dfy`, `FieldValue.dfy`, `InsertRules.dfy`, `BitTable.dfy` | bitfield writes, the constants recorded for them, INSERT simplification, the bitfield table |

How the program is read: a `uint64` is a natural number and `x & mask` for a mask of ones
is a remainder, and where the program's arithmetic can wrap the wrap is written out,
except where "Left out" says that sizes are taken to fit; in the bitfield modules a value
is the sequence of its bits.  Calls into code that is not modelled are parameters: the
search for a component of a data-type, the masks of bits that may be set, what a leaf
action does to the data.

Where the code does not keep a property that one would expect, the model follows the
code and states exactly when the property holds:

- pulling a range back through a comparison is exact unless the range holds both truth
  values; through INT_RIGHT unless it is an eight-byte shift by 0; through INT_SRIGHT
  unless the shift is at least the width and 0 and -1 are not treated alike, or the shift
  is 2^64 - 1 (`val + 1` wraps) and 0 or -1 is in the range; through INT_SEXT unless the
  range holds the sign bit raised to its phase (the phase is taken with `&`); through
  INT_SUB in slot 1 only for the full range and for a single value on a ring of two steps
  (the ends are not exchanged); a shift in slot 1 is treated as one in slot 0, which is
  right exactly when the range treats 0 and the results of both alike, a test on its ends
  and on the constant and its halves, with a test of its own where the shift in slot 0
  is inexact already;
- changing the stride or the ring of a range is exact only while its ends do not cross
  the top, and ranges of different phase meet correctly only when they lie apart;
- on a wider stride no comparison is found even for a single value;
- the sum of two ranges of several values is taken for an overflow, and answered with
  everything, when it measures less than the first operand, a test that depends on their
  order; otherwise it is the shortest arc that holds the sums, and exact when the finer
  operand reaches from one value of the coarser to the next; added to a whole phase, a
  finer operand that does not gives the whole phase of its own stride;
- with several roots the dominator pass hangs all of them under block 0 and so names
  block 0 for a block shared by two roots: the dominator computed is the immediate one on
  the ways from the roots exactly when some other block is on all of them;
- the block chosen as entry comes first in the order exactly when nothing above it is
  unreachable from it;
- rewriting pointer arithmetic keeps the value unless the summed constant is within one
  element of the most negative pointer-sized value, or a sum of constants wraps;
- a variable term beside a constant can take the PTRSUB to an array near the constant's
  offset instead of the component that holds it: the remainder then leads out of the
  component exactly when the search without the hint finds another;
- the stack solver takes the offset 65535 for "unknown": when equations and guesses agree,
  it ends exactly when no equation joins two variables reached that both lie there, and
  then, of the variables reached, exactly those are left looking unsolved;
- bitfields of nested structures are placed without the offset of their structure: the
  states established are right exactly when the bitfields inside the container, truly or
  as placed, are in the outermost structure and the others reach past the one before;
- a masked constant `(x & a) | b` is recorded as `b & a`, which is wrong when a field bit
  is cleared and set; SUBPIECE moves a followed range in the wrong direction unless its
  offset is 0; a read at the container's address is taken for its low bytes, which is
  wrong for fewer bytes in big-endian order; the tests for extended zeroes in the INT_ZEXT
  and INT_MULT steps look at the range before it is moved and so never succeed;
- shifts left and right by the same constant are cancelled under an INSERT also when the
  constant, 2^63 or more, reads as negative and shifts everything out;
- factoring a shift out of a sum under an INSERT changes the shift itself: another reader
  keeps its low bits exactly as far as the shift had not emptied them;
- an op that already is the neighbour of the place it is inserted at gets linked to
  itself;
- a renormalized join address changes meaning exactly when the most significant piece
  covered has another byte order than the record (bytes being distinct);
- an instruction may be said to fall through because of a branch no run gets to: the
  answer is right exactly when no kept op can leave or one that can is reached.

## Model

| member | source | states |
|---|---|---|
| CircleRanges.ContainsIsMember | pkg/pcode/circlerange.go:119-145 | the membership test accepts exactly the values that enumerating the range from `left` by `step` meets, wrap-around and full range included |
| CircleRanges.OverlapMeet | pkg/pcode/circlerange.go:25-25 | the code of the overlap table determines, for every cyclic order of four ends with ties, which values two arcs have in common |
| CircleRanges.OverlapJoin | pkg/pcode/circlerange.go:149-170 | the same code determines which values lie in either arc |
| CircleRanges.TwoPieceMeet | pkg/pcode/circlerange.go:404-421 | in the case reported as two pieces the common values are on no single arc |
| CircleRanges.TwoPieceJoin | pkg/pcode/circlerange.go:281-293 | in the case reported as two pieces the union is on no single arc |
| CircleRanges.NewStride | pkg/pcode/circlerange.go:175-199 | the coarser stride keeps exactly the values of the asked phase if and only if both ends, or neither, round past the top; it reports emptiness for a phase the range does not have |
| CircleRanges.NewDomain | pkg/pcode/circlerange.go:204-230 | the smaller ring keeps exactly the values in it if and only if not the left end alone lies above it with the right end in the first step |
| CircleRanges.CircleRange.Intersect | pkg/pcode/circlerange.go:324-432 | code 0 is exactly the set intersection, across rings and strides wherever both conversions are exact, and on one ring and stride if and only if the phases agree or the arcs lie apart; code 2 leaves the range alone and means that no single arc is the intersection |
| CircleRanges.CircleRange.CircleUnion | pkg/pcode/circlerange.go:235-319 | code 0 is exactly the set union, on the coarser stride; on one ring, and one stride or with a single value in the finer one, code 2 means that no single arc is the union; otherwise the code is always 2; it leaves the range alone |
| CircleRanges.CircleRange.Complement | pkg/pcode/circlerange.go:67-79 | the range holds exactly the values it did not hold |
| CircleRanges.CircleRange.ConvertToBoolean | pkg/pcode/circlerange.go:84-109 | the range is cut down to the truth values it holds, and the result tells whether it holds both |
| PullBacks.RotateArc | pkg/pcode/circlerange.go:633-640 | moving both ends by a constant, around the ring and on any stride, is the preimage of an addition |
| PullBacks.ReflectArc | pkg/pcode/circlerange.go:451-458 | exchanging and mirroring the ends is the preimage of a subtraction from a constant |
| PullBacks.PullBackSimpleUnary | pkg/pcode/circlerange.go:437-458 | through COPY, INT_2COMP, INT_NEGATE and BOOL_NEGATE the new range is exactly the inputs mapped into the old one |
| PullBacks.TruthArcExact | pkg/pcode/circlerange.go:509-632 | for every equality, order and carry comparison, in either slot, the arc built is exactly the inputs for which it is true |
| PullBacks.PullBackCompare | pkg/pcode/circlerange.go:503-632 | pulling back through a comparison is exact if and only if the range did not hold both truth values |
| PullBacks.PullBackMinuend | pkg/pcode/circlerange.go:641-642 | through INT_SUB in slot 1 the result is exact if and only if the range is full, or single on a ring of two steps |
| PullBacks.PullBackZeroExtend | pkg/pcode/circlerange.go:459-473 | through INT_ZEXT the result is exact, and a failure means that the inputs are no single arc |
| PullBacks.PullBackSignExtend | pkg/pcode/circlerange.go:474-492 | through INT_SEXT, on every stride below half the input ring, a success is exact if and only if the range lacks the sign bit raised to its phase, which an even number of steps at the left end ensures |
| PullBacks.RightShiftEdges | pkg/pcode/circlerange.go:644-666 | through INT_RIGHT the ends are exact if and only if it is not an eight-byte shift by 0, or the range is full |
| PullBacks.SignedShiftEdges | pkg/pcode/circlerange.go:667-692 | through INT_SRIGHT by any 64-bit amount the ends are exact if and only if the shift is below the width or the range treats 0 and -1 alike, and for 2^64 - 1 if and only if the range is full or holds neither |
| PullBacks.LargestShiftIsEmpty | pkg/pcode/circlerange.go:667-690 | eight bytes, shift 2^64 - 1, range [5, 3): the answer is empty though every input is a preimage |
| PullBacks.PullBackBinary | pkg/pcode/circlerange.go:503-697 | the entry point succeeds exactly for the operators it knows (shifts on stride 1), leaves the range alone otherwise, and a success is the exact preimage if and only if the operator's condition holds, for a shifted constant if and only if a test on the ends, the constant and its halves does |
| PullBacks.ConstantExact | pkg/pcode/circlerange.go:644-692 | an answer for `x >> c` taken for `c >> x` is right if and only if the range treats 0 and the results of both alike, or, where it is all or nothing, if and only if the range does not end at the top (`0 >> x`), or holds neither the constant nor the value its sign fills up to |
| PullBacks.ShiftedConstantExact | pkg/pcode/circlerange.go:644-692 | the preimage under `x >> c` is the one under `c >> x` if and only if the range holds all results of both, and 0, or none of them |
| PullBacks.RightAlike | pkg/pcode/circlerange.go:644-666 | for INT_RIGHT that is the case if and only if no end lies in 1 to `mask >> c` and the constant and its halves are treated like 0 |
| PullBacks.SignedAlike | pkg/pcode/circlerange.go:667-692 | for INT_SRIGHT if and only if no end lies among the shifted values around 0 and the constant, or its complement, and its halves are treated like 0 |
| PullBacks.ShiftedConstantIsConfused | pkg/pcode/circlerange.go:644-666 | for the result 1 of `4 >> x` the answer is that of `x >> 4` |
| PullBacks.PullBackUnary | pkg/pcode/circlerange.go:437-497 | a success is the exact preimage if and only if it is not INT_SEXT of a range that holds the sign bit raised to its phase |
| RangeMelds.TranslateExact | pkg/pcode/circlerange.go:747-776 | on stride 1 and for an empty range the comparison or verdict holds for exactly the values of the range, and "not possible" means that no comparison with a constant describes them |
| RangeMelds.StridedExact | pkg/pcode/circlerange.go:751-756 | on a wider stride the answer is always "not possible", which is right if and only if the range does not hold a single value |
| RangeMelds.RoundTrip | pkg/pcode/circlerange.go:503-776 | pulling `true` back through the comparison that a range translates to recovers the same set |
| RangeMelds.RangeMeld | pkg/pcode/rules_ghidra_port.go:1230-1326 | the melded comparison or verdict agrees with the AND or OR of the two tests for every value, and is refused only when no single comparison does |
| PushForwards.PushForwardAdd | pkg/pcode/circlerange_push.go:256-298 | every sum of two members is in the result, for all strides and wrap-arounds; it holds nothing else if and only if a condition on edges and strides holds, always so for a single value added to a proper range, whose stride it keeps; it is a whole phase if and only if an operand is one, the sums fill the ring, or the size test takes them for an overflow; any other result for two ranges of several values is shorter than every other arc of its stride that covers the sums |
| PushForwards.InsideEveryCover | pkg/pcode/circlerange_push.go:256-298 | a range that covers the sums lies inside every other such range of its stride if and only if it holds nothing but sums |
| PushForwards.OrderMatters | pkg/pcode/circlerange_push.go:278-297 | in one byte {0, 8, 16} plus {0, 1} is answered with everything, {0, 1} plus {0, 8, 16} is not, and neither is exact; {0, 4, 8} plus 100 is, on stride 4 |
| SpanningTrees.FindSpanningTree | pkg/pcode/block_graph.go:198-324 | on any graph, with extra roots and the second pass: the order is a permutation, an edge is back exactly when it leads to a smaller or equal index, subtrees are intervals of the visit order, the entry is the first root and comes first exactly when nothing above it is unreachable from it; the root list holds no block twice and is exactly the roots of the last walk and the first-pass roots left when everything was visited; a block is a root of that walk exactly when no Tree edge leads into it, every other block has exactly one; and when the sources reach every block the list is exactly the sources, or block 0 if there are none |
| Dominators.MeetFingers | pkg/pcode/block_graph.go:490-505 | the two-finger walk ends at the deepest common ancestor of its arguments in the tree of current dominators |
| Dominators.CalcForwardDominator | pkg/pcode/block_graph.go:423-521 | the iteration ends, each block that gets a dominator gets its immediate one (on every path, and dominated by every other strict dominator), and none is given exactly to the roots |
| Dominators.RootedDominance | pkg/pcode/block_graph.go:434-472 | what the pass calls dominance with its virtual root is being block 0 or lying on every way from a root |
| Dominators.RootedImmediate | pkg/pcode/block_graph.go:423-521 | with any number of roots the dominator computed is on every way from them and below every other such block if and only if some block other than the dominated one is on every way |
| Dominators.SingleRootDominance | pkg/pcode/block_graph.go:423-521 | with a single root it is lying on every path from it |
| Dominators.SharedBlockOfTwoRoots | pkg/pcode/block_graph.go:434-468 | two roots that share a block: the answer is block 0, which is not on every way |
| FlowStructures.OrderAndDominate | pkg/pcode/block_graph.go:198-521 | for any graph, numbering the blocks by the walk and running the dominator pass on the renumbered graph, whose roots are exactly the walk's root list renamed, gives immediate dominators, and none to exactly the blocks of that list |
| AddTrees.WalkAccounts | pkg/pcode/addtreestate.go:686-776 | a walk of a term either leaves the tally's sums alone and meets no pointer, or moves the term's value from the tree to the tally, modulo the pointer size |
| AddTrees.SpanAccounts | pkg/pcode/addtreestate.go:780-805 | the same for a sum, whose operands are listed when only one of them is no multiple |
| AddTrees.SubtypeIsBalanced | pkg/pcode/addtreestate.go:809-879 | for spacebase, structure, array and relative pointers the constants counted twice are taken back exactly: offset, element count and correction make up the multiples alone |
| AddTrees.MultiplesValue | pkg/pcode/addtreestate.go:881-905 | the element count built, times the element size, is the collected multiples less what truncating the constant loses |
| AddTrees.ExtraValue | pkg/pcode/addtreestate.go:907-936 | the remainder built is the sum of the other terms less the correction |
| AddTrees.RewriteKeepsValue | pkg/pcode/addtreestate.go:780-1026 | the rebuilt chain has the value of the tree for every value of pointer and variables if and only if the pointer is a summand once and the constant splits without loss |
| AddTrees.NoWrapIsLossless | pkg/pcode/addtreestate.go:730-776 | without terms into the element nothing is lost when the signed sum of constants does not wrap, or when the pointer's range is whole elements |
| AddTrees.FarFromBottomIsLossless | pkg/pcode/addtreestate.go:809-832 | into an element nothing is lost when the summed constant is at least one element above the most negative value |
| AddTrees.BottomOfRange | pkg/pcode/addtreestate.go:809-832 | `p - 2^31` on 32-bit pointers to 3-byte structures comes out one too small |
| AddTrees.AddTreeState.CheckMultTerm | pkg/pcode/addtreestate.go:686-726 | updates the tally as the specification of a product term says |
| AddTrees.AddTreeState.CheckTerm | pkg/pcode/addtreestate.go:730-776 | updates the tally as the specification of a term says |
| AddTrees.AddTreeState.SpanAddTree | pkg/pcode/addtreestate.go:780-805 | updates the tally as the specification of a sum says |
| AddTrees.AddTreeState.CalcSubtype | pkg/pcode/addtreestate.go:809-879 | leaves the plan that the balance, loss and component theorems are about |
| AddTrees.AddTreeState.BuildMultiples | pkg/pcode/addtreestate.go:881-905 | the loop builds the specified element count |
| AddTrees.AddTreeState.BuildExtra | pkg/pcode/addtreestate.go:907-936 | the loop builds the specified remainder |
| AddTrees.AddTreeState.Apply | pkg/pcode/addtreestate.go:1032-1076 | whenever it rewrites without distributing a coefficient, the new expression equals the old for all values if and only if the type is degenerate, or the pointer occurs once and nothing is lost |
| SubComponents.MatchChooses | pkg/pcode/addtreestate.go:517-566 | the search comes to the component that holds the offset or, with a hint, to an array before or after it, by element size, by holding the offset, or by distance; it fails only where no component holds the offset |
| SubComponents.OffsetIsResidue | pkg/pcode/addtreestate.go:809-825 | the offset kept is the summed constant modulo the element size, rounded down, or all of it below one element, without an element, or with a variable term into a lower level |
| SubComponents.SubtypePointsToComponent | pkg/pcode/addtreestate.go:835-879 | into a structure or the spacebase, relative pointers included, the PTRSUB goes to the start of the component chosen for that offset and the remainder adds the rest of it; where a structure has none the PTRSUB takes all of an offset inside the structure |
| SubComponents.RestIsInside | pkg/pcode/addtreestate.go:517-566 | the rest lies inside the component if and only if the search without a hint comes to it too, as it does when there is no hint or no array near |
| SubComponents.NearbyArrayIsTaken | pkg/pcode/addtreestate.go:517-566 | an array of 4-byte elements at 0 is taken for offset 9 in the field at 8 |
| SubComponents.ArrayPointsToStart | pkg/pcode/addtreestate.go:866-869 | into an array the PTRSUB goes to its start and the remainder adds the whole residue |
| SubComponents.SubtypeIsFound | pkg/pcode/addtreestate.go:829-873 | with variable terms the pointer is taken into the data-type if and only if there is a component to choose, or the offset is inside the structure, or it is an array |
| StackSolvers.StackSolver.Propagate | pkg/pcode/action_stackptrflow.go:57-75 | whenever the iterated sweep ever empties the worklist, the loop ends and leaves what that leaves; what was known is kept |
| StackSolvers.PropagateSettles | pkg/pcode/action_stackptrflow.go:57-75 | away from the mark it does end; no equation is left half solved, every value is the offset of a walk that repeats no variable, and equations between solved variables hold if the system has a solution |
| StackSolvers.StackSolver.Duplicate | pkg/pcode/action_stackptrflow.go:79-85 | the equations are the given ones and their mirrors, sorted by first variable |
| StackSolvers.SameCountIsIdle | pkg/pcode/action_stackptrflow.go:99-117 | a round that counts as many unknown guesses as the one before has used none, so no guess is half known |
| StackSolvers.StackSolver.Solve | pkg/pcode/action_stackptrflow.go:89-118 | whenever every worklist it starts ends, it ends and leaves what they leave |
| StackSolvers.UnmarkedIsSolved | pkg/pcode/action_stackptrflow.go:89-118 | if no walk that repeats no variable meets 65535 it ends: a variable is solved exactly when it is connected to variable 0 by equations and guesses, its value is the offset of such a walk, the solution satisfies the connected equations exactly when they have any solution, consistent or not, and no guess has exactly one known end |
| StackMarks.WorklistExactly | pkg/pcode/action_stackptrflow.go:57-75 | for equations that agree, a worklist ends if and only if no equation joins two variables it touches (or one with itself) that lie at 65535, and then each touched variable has its offset and all others are as before |
| StackMarks.SolvesExactly | pkg/pcode/action_stackptrflow.go:89-118 | for equations and guesses that agree, the solver ends if and only if no equation joins two variables reached that both lie at 65535, and then every variable reached has its offset and no other has one |
| StackMarks.AgreeingHasOffsets | pkg/pcode/action_stackptrflow.go:89-118 | values that satisfy equations and guesses give the offsets meant there, modulo 2^32 |
| StackMarks.SatisfiedIsAgreeing | pkg/pcode/action_stackptrflow.go:89-118 | without guesses a solution of the equations is enough |
| StackMarks.MarkNeverEnds | pkg/pcode/action_stackptrflow.go:57-75 | `x1 - x0 = 65535` and `x1 - x2 = 0`: after any number of turns of the worklist a variable is pending |
| StackMarks.MarkedIsDoubled | pkg/pcode/action_stackptrflow.go:79-85 | these are the equations that doubling and sorting that system gives |
| StackMarks.MarkedHasNoSolution | pkg/pcode/action_stackptrflow.go:89-118 | so the solver does not end on that system |
| StackMarks.LoneMarkEnds | pkg/pcode/action_stackptrflow.go:89-118 | on `x1 - x0 = 65535` alone it ends, and `x1`, though connected, looks unsolved |
| Joins.JoinManager.FindAddJoin | pkg/address/join.go:63-83 | returns the record of these pieces, also of none, and size, making one only if there is none; records stay 16-aligned, disjoint and unique |
| Joins.JoinManager.FindJoinInternal | pkg/address/join.go:87-96 | returns the one record whose range contains the offset |
| Joins.EquivalentAddress | pkg/address/join.go:101-129 | finds the piece and the physical byte of an offset in either byte order, and fails exactly outside the pieces |
| Joins.WindowIsSlice | pkg/address/join.go:148-163 | the pieces from one byte to another, the outer two cut down, are exactly that slice of the record's bytes |
| Joins.JoinManager.Renormalize | pkg/address/join.go:134-167 | each byte of the new address is the physical byte it was if the range is the whole record or the most significant piece covered has the record's byte order, and, bytes being distinct, only then; a range not covered by the pieces is left alone |
| Joins.UniformKeepsOrder | pkg/address/join.go:134-167 | pieces that agree on the byte order always meet that condition |
| Joins.MixedEndian | pkg/address/join.go:101-167 | if no byte occurs twice, the new record has the bytes of the old range if and only if its first piece has the old first piece's byte order |
| Instructions.SplitInstruction | pkg/bridge/bridge.go:2134-2162 | the pieces partition the ops up to the first end, and start exactly at op 0, at the targets of kept relative branches and behind kept branches |
| Instructions.DroppedIsUnreachable | pkg/bridge/bridge.go:2134-2150 | no run from op 0 reaches a dropped op |
| Instructions.TargetStartsPiece | pkg/bridge/bridge.go:2104-2143 | every kept op that a kept relative branch goes to starts a piece |
| Instructions.BranchEndsPiece | pkg/bridge/bridge.go:2148-2161 | every kept BRANCH or CBRANCH ends a piece |
| Instructions.PiecesAreBlocks | pkg/bridge/bridge.go:2134-2162 | control enters a piece only at its start |
| Instructions.InstructionFallsThrough | pkg/bridge/bridge.go:2400-2416 | true exactly when some kept op can pass control on, and so whenever a run leaves to the next instruction; it agrees with the runs if and only if no kept op can leave or one that can is in the computed set of reached ops |
| Instructions.LeavingExactly | pkg/bridge/bridge.go:2400-2416 | a kept op that can leave means a run that leaves if and only if such an op is reached |
| Instructions.LeavingMayBeDead | pkg/bridge/bridge.go:2400-2416 | three ops for which it is true though no run leaves |
| FlowTimes.FlowNumbering.ProcessInstruction | pkg/bridge/bridge.go:2467-2501 | an instruction is numbered at most once and only if known; everything its branches, its jump table and its fall-through lead to is walked, stacked or listed, and nothing else is stacked; fall-through goes to a later address |
| FlowTimes.FlowNumbering.Fallthru | pkg/bridge/bridge.go:2502-2528 | the fall-through chain ends, never runs into an instruction already visited, overlapping instructions included, and puts what an instruction falls through to right after it unless it came before |
| FlowTimes.FlowNumbering.Walk | pkg/bridge/bridge.go:2529-2545 | what is walked is exactly what flow reaches: the entry first, every other instruction led to by an earlier one, nothing that a walked one leads to left out, fall-through next |
| FlowTimes.AssignFlowTimes | pkg/bridge/bridge.go:2436-2556 | the walk ends; the ops get distinct times that are exactly 0 to N-1, each instruction's consecutive and in order: first the instructions flow reaches, in flow order from the entry, then the others by address |
| Actions.PerformFollows | pkg/pcode/action.go:261-325 | one call with breakpoints either does what the call without them does, or stops where that call, resumed without them, would come to the same end |
| Actions.ChildrenContinue | pkg/pcode/action.go:487-511 | the same for the children of a group from any child on |
| Actions.RestartContinues | pkg/pcode/action.go:606-635 | the same for a restart group from any pass on |
| Actions.ResumingIsTransparent | pkg/pcode/action.go:244-325 | for any tree and any breakpoints, changed between resumptions or not, resuming until completion ends exactly when the run without breakpoints does, with the same leaf calls in the same order, data, count and statuses |
| Actions.LargerBudget | pkg/pcode/action.go:261-325 | a run that ends within a number of steps is the same for every larger number |
| Actions.RestartsAreBounded | pkg/pcode/action.go:606-635 | from restart number `cur` on at most `max - cur` more passes are begun, an interrupted call resumes at the restart number it had, and with jump-table recovery off a completed call leaves the group finished |
| Actions.AllPassesAreBounded | pkg/pcode/action.go:600-635 | over all calls between two resets, with whatever data, breakpoints and interruptions, at most one pass and `max` restarts are begun; during jump-table recovery one pass more for each further call |
| Actions.FinishedIsIdle | pkg/pcode/action.go:606-609 | however often a finished restart group is performed, it hands the data back unchanged and counts nothing until it is reset |
| ActionRuns.CompletesExactly | pkg/pcode/action.go:261-635 | a call without breakpoints completes with an end and a count if and only if it has a history with them: leaves applied and logged once each, a group's children called in order from the first, counts added up, passes repeated until the first that counts nothing or made once, further rounds of a restart group on cleared data with the children reset while one is pending and allowed, and the status that the flags and the count give |
| ActionRuns.CallCompletes | pkg/pcode/action.go:261-635 | whatever has a history completes so, in the number of steps that can be read off the history |
| ActionRuns.OneEnd | pkg/pcode/action.go:261-635 | no call has two ends or two counts |
| ActionRuns.DrivenRun | pkg/pcode/action.go:244-325 | so a run broken off and resumed any number of times comes to what the history of the call without breakpoints says |
| ActionRuns.RepeatedLeaf | pkg/pcode/action.go:307-325 | a leaf that can change the data twice is applied three times with the repeat flag and once without it |
| BlockOps.BlockBasic.Unlink | pkg/pcode/block_basic.go:72-85 | the links spell the list without the op |
| BlockOps.BlockBasic.Link | pkg/pcode/block_basic.go:53-69 | the op leaves whatever list it is in and stands at the asked place, all links agreeing again, if and only if it was not one of the two neighbours |
| BlockOps.BlockBasic.AddOp | pkg/pcode/block_basic.go:223-229 | the op is moved to the end, if and only if it was not there |
| BlockOps.BlockBasic.InsertOpBefore | pkg/pcode/block_basic.go:243-254 | the op is moved in front of the given one, or to the end, if and only if it was not beside that place |
| BlockOps.BlockBasic.InsertOpAfter | pkg/pcode/block_basic.go:257-267 | the op is moved behind the given one, or to the end, if and only if it was not beside that place |
| BlockOps.BlockBasic.InsertOpBegin | pkg/pcode/block_basic.go:270-276 | the op is moved to the front, if and only if it was not there |
| BlockOps.BlockBasic.InsertOpEnd | pkg/pcode/block_basic.go:279-285 | the op is moved to the end, if and only if it was not there |
| BlockOps.BlockBasic.RemoveOp | pkg/pcode/block_basic.go:232-240 | an op of this block is taken out, any other is left where it is |
| BlockOps.BlockBasic.OpSlice | pkg/pcode/block_basic.go:206-220 | the slice is the list and every op is numbered by its place |
| BlockOps.BlockBasic.OpPosition | pkg/pcode/block_basic.go:41-50 | the index of the op in the list, or -1 when it is not in it |
| BitFields.StepRight | pkg/pcode/bitfield.go:393-703 | every turn of the trace keeps the followed bits for all inputs, given masks that are never too small, unless it takes bytes that are not the low ones for the original, records a constant some bit of which is cleared and set, or moves through a SUBPIECE with an offset |
| BitFields.UnsafeIsWrong | pkg/pcode/bitfield.go:332-608 | a turn that does one of these is wrong, but for a SUBPIECE of a value of which something is known |
| BitFields.OriginalExact | pkg/pcode/bitfield.go:309-345 | taking a read at the container's address for its low bits is right if and only if it is as wide as the container or little-endian |
| BitFields.ZerosAreMissed | pkg/pcode/bitfield.go:547-589 | a field that an extension or a product fills with zeros is never recognized by those steps, while the same shift is |
| BitFields.TraceRight | pkg/pcode/bitfield.go:641-703 | if no turn does one of these, what a whole trace records writes exactly the bits the field has in the container, or they are the original ones |
| BitFields.ForcedExact | pkg/pcode/bitfield.go:426-445 | for `x & a` or-ed with `b` the recorded constant is right if and only if no field bit is cleared and set |
| BitFields.SubpieceExact | pkg/pcode/bitfield.go:593-608 | through a SUBPIECE of an unknown value the followed range is right if and only if the offset is 0 |
| BitFields.ProcessBackward | pkg/pcode/bitfield.go:641-703 | the loop ends and computes the trace |
| BitFields.EstablishFields | pkg/pcode/bitfield.go:105-133 | for any list of bitfields, fields and holes tile the bits of the container if and only if each field inside it begins no earlier than the one before ended and each other one reaches past that; the fields queued are exactly those inside it as placed |
| BitFields.OrderedIsPlaceable | pkg/pcode/bitfield.go:105-133 | bitfields that overlap the container, each below the next, meet that condition |
| BitFields.InsertsRebuildContainer | pkg/pcode/bitfield.go:948-963 | if every field and hole is accepted, the INSERTs applied in order to the original value give the container's value, for all inputs |
| BitFields.ChainRebuildsContainer | pkg/pcode/bitfield.go:1021-1037 | so do they chained with the first outermost |
| BitFields.DoTrace | pkg/pcode/bitfield.go:948-963 | succeeds exactly when all are accepted and something is inserted |
| BitFields.TraceContainer | pkg/pcode/bitfield.go:105-963 | establishing, tracing and putting back: whenever the fields can be placed and no turn is one of the three named with `StepRight`, the container's value for all inputs, in both orders |
| BitFields.UsualWriteIsInserted | pkg/pcode/bitfield.go:393-524 | `orig & keep` or-ed with `(x & low) << pos` is recognized, at any place, as inserting `x`, for the topmost field `x & low`, by turns that are all right |
| BitFields.KeptIsOriginal | pkg/pcode/bitfield.go:332-475 | a kept field or hole that the other operand leaves alone is recognized as original, rightly if and only if the original is read from its low byte on |
| BitFields.ConstantIsInserted | pkg/pcode/bitfield.go:347-475 | a field of `orig & keep` or-ed with a constant that the mask clears is recognized as inserting its bits of the constant, zero or not, by turns that are all right |
| FieldValues.FieldBitsAreValue | pkg/pcode/bitfield.go:353-365 | what is recorded of a container's bits is, as a word of the container's size, the number in the field's bits, in two's complement when the field is signed |
| FieldValues.TraceRecordsValue | pkg/pcode/bitfield.go:347-378 | whatever constant a trace of turns that are all right records is the value that the field has in the container for all inputs, negative ones as their two's complement in a word of the size of the node where the trace ends |
| FieldValues.ConstantIsValue | pkg/pcode/bitfield.go:347-475 | the constant recorded for a field of `orig & keep` or-ed with a constant is that field's value of the constant |
| FieldValues.MinusOneOrSeven | pkg/pcode/bitfield.go:353-365 | the bits 111 at bit 1 of a byte are recorded as 0xff for a signed field and as 7 for an unsigned one |
| BitFields.ConstantWriteIsRebuilt | pkg/pcode/bitfield.go:105-963 | a container written so is accepted as a whole, and the INSERTs rebuild its value for all inputs, in both orders |
| InsertRules.AbsorbKeepsField | pkg/pcode/bitfield_rules.go:547-727 | every simplification, shift constants below 2^63, keeps the low bits that the INSERT takes, for all operand values |
| InsertRules.RightLeftExactly | pkg/pcode/bitfield_rules.go:628-660 | when the rule cancels the shifts of an unknown value, the bits are kept if and only if the constant is below 2^63 |
| InsertRules.HugeShiftIsCancelled | pkg/pcode/bitfield_rules.go:652-658 | a constant of 2^64 - 1, read as negative, passes the test and changes the bits |
| InsertRules.SubpieceExactly | pkg/pcode/bitfield_rules.go:554-560 | dropping a low piece keeps them if and only if the field is no wider than the piece |
| InsertRules.ShiftAddKeeps | pkg/pcode/bitfield_rules.go:664-693 | factoring a shift, or a product with its power of two, out of a sum keeps them |
| InsertRules.ShiftAddReaders | pkg/pcode/bitfield_rules.go:664-693 | the shift itself becomes the sum: a reader of its low bits keeps them as long as the shift had emptied none of them, and for two unknown summands only then |
| InsertRules.NestedAndKeeps | pkg/pcode/bitfield_rules.go:698-727 | dropping a mask under INT_ADD, INT_OR, INT_XOR or INT_MULT keeps them |
| InsertRules.MaskIsDropped | pkg/pcode/bitfield_rules.go:608-623 | a mask over an unknown value is dropped if and only if that keeps the low bits |
| InsertRules.ShiftsCancel | pkg/pcode/bitfield_rules.go:627-660 | equal shifts left and right below 2^63, with or without the low piece between them, are cancelled if and only if they leave the field's bits |
| InsertRules.ShiftIsFactored | pkg/pcode/bitfield_rules.go:664-693 | a shift right of a sum of two values shifted left by as much is factored out if and only if it is below 64, not 0, and leaves the field's bits |
| InsertRules.NestedMaskIsDropped | pkg/pcode/bitfield_rules.go:698-727 | a mask of low ones inside either operand is dropped if and only if the field has no more bits |
| BitTables.MinimizeKeepsBits | pkg/pcode/bitrange.go:250-264 | the container becomes the bytes touched and the bits stay, in either byte order |
| BitTables.TranslateKeepsBits | pkg/pcode/bitrange.go:77-87 | the translated position is the same bit in the other container |
| BitTables.OverlapMeans | pkg/pcode/bitrange.go:93-122 | the codes say below, above, equal, covered, covering and partly overlapping in absolute bits, in either byte order |
| BitTables.OrderAgrees | pkg/pcode/bitrange.go:53-73 | for least containers the order of containers is the order of the bits |
| BitTables.SplitBitfields | pkg/pcode/bitfield_types.go:62-108 | the table is strictly ordered and disjoint, each entry in its least container with its member's bits; every bitfield member is in it or overlaps what is; exactly the plain and whole-byte members become plain fields, by offset, those at one offset in the order of declaration, none twice |
| BitTables.FindMatchingBitField | pkg/pcode/bitfield_types.go:119-136 | finds the entry with exactly these bits whenever there is one |
| BitTables.FirstBitFieldAfter | pkg/pcode/bitfield_types.go:141-146 | splits the table where containers start to end after the byte |
| BitTables.CollectBitFields | pkg/pcode/bitfield_types.go:160-186 | gives exactly what looking at every bitfield of every nested structure would |
| BitTables.CollectedAreOrdered | pkg/pcode/bitfield.go:105-112 | what is collected from one structure without nested ones is in the order that queueing the container's bits needs |
| BitTables.ScanApart | pkg/pcode/bitfield_types.go:160-186 | what is collected through nested structures shares no bit, counted from the outermost structure |
| BitTables.SortedByPlace | pkg/pcode/bitfield_types.go:38-51 | sorting it by byte and bit with the structures' offsets orders it by where the bits are |
| BitTables.EstablishedRightly | pkg/pcode/bitfield.go:105-133 | the states tile the container and hold exactly the bitfields inside it at their places if and only if the bitfields inside, truly or as placed, have offset 0 and all can be placed |
| BitTables.OutermostIsRight | pkg/pcode/bitfield.go:105-133 | so they do when all offsets are 0, and, when no bitfield crosses an end of the container, only then |
| BitTables.EstablishStructure | pkg/pcode/bitfield.go:105-133 | both for the whole way from any structure, collecting, sorting and queueing |
| BitTables.NestedIsMisplaced | pkg/pcode/bitfield.go:111-133 | a 3-bit field of a structure at byte 4: at container offset 4 it is queued as a hole of -28 bits |
| BitTables.TwoNestedShareBits | pkg/pcode/bitfield.go:111-133 | two such structures side by side: both fields are queued at bit 1 |

## Left out

- PullBackSignExtend: strides of half the input ring and more, on which the ring has at most two steps; `PullBackUnary` likewise for INT_SEXT.
- PullBackZeroExtend: strides up to the size of the input ring; `PullBackUnary` likewise for INT_ZEXT.
- PullBackUnary: the two bounds on strides just named.
- PullBackBinary: a shifted constant has the size of the shift amount.
- RangeMeld: both tests are on the same variable; the extra pull-back when one is on a variable of another size, defined from it, is left out.
- PushForwardAdd: the shifts, INT_MULT, SUBPIECE and the unary operators of the push-forward are not modelled; COPY, INT_2COMP and INT_NEGATE would only repeat the rotation and reflection lemmas.
- CalcForwardDominator: for blocks in an order where every block but a root has an earlier predecessor, which `OrderAndDominate` establishes for any graph.
- FindSpanningTree: the later labels of irreducible edges, `calcLoop` and `collectReachable`.
- Solve: for equations or guesses that disagree, that it ends is shown only where no walk that repeats no variable meets 65535; equation indices are in range.
- AssignFlowTimes: distinct instruction addresses, each followed by a later one; without that an instruction may be numbered twice.
- Renormalize: record and range sizes fit 32 bits together, pieces are physical storage, and a record without pieces is only asked for whole (the program would index an empty list).
- FindAddJoin: the allocation counter is unbounded; the wrap of its 64 bits is not modelled.
- SubtypePointsToComponent: the byte offset fits 64 bits, components begin at address units, and the searches for the component at an offset and for the nearest arrays are parameters described by the component table.
- Apply: the distribution of a coefficient over a sum (`distributeIntMultAdd` is not part of this model); a run that needs it ends in `Distributing`.
- AddTreeState: retrying a relative pointer as a plain one is another configuration of the same analysis.
- PerformFollows: the action tree is a value that a run returns changed, not objects updated in place, because an action may repeat for ever; runs carry a number of steps, which `LargerBudget` shows not to matter. Pools of rules, warnings and statistics are left out.
- NestedMaskIsDropped: that the op has no other reader is taken for granted (`LoneDescend`), as nothing else is changed then.
- Link: the redirection of a cloned structure block to its source block, and the address ranges a block covers (`insertRange`, `mergeRange`).
- TraceContainer: the original value is still current when the container is written (`verifyOriginalValueBits`, `isOverwrittenPartial`).
- DoTrace: fields overwritten later (`isOverwrittenPartial`) and the final check of the original bits are left out.
- ProcessBackward: original values read through ZPULL and SPULL, and a call that returns the structure (`testCallOriginal`), are not matched; sign extension of fields followed forward belongs to the pull transform, which is left out.
- AbsorbKeepsField: shift constants below 2^63, the exact bound by `RightLeftExactly`, and containers below 2^31 bytes.
- EstablishStructure: little-endian containers, as the bitfields are.
- SplitBitfields: little-endian, as in the source; names and data-types are left out.
- SortBy: the library sort is modelled by a stable insertion sort.
- Rules that rewrite reads of bitfields, type propagation, heritage, merging, printing, the Sleigh engine and file formats.
