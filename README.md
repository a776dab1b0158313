# Lazy Code Motion PRE, modelled in Dafny

This project models the partial redundancy elimination pass in `PRE.cpp`. The pass is
an LLVM function pass that implements Lazy Code Motion (LCM) at
the granularity of single instructions.

For a function, the pass goes through these phases:

1. **Extraction.** It collects the candidate *terms*. A term is
   `operand1 opcode operand2 : type`, where the operands are the pointers read by the two
   loads that feed a binary operation.
2. **Analysis.** For each term in turn, it computes five per-instruction predicates:
   down-safety (DSafe), Earliest, Delay, Latest and Isolated. Each is a memoised
   recursive function. Sweeps over the blocks fill its memo table: post-order for the
   backward predicates, reverse post-order for the forward ones.
3. **Candidate sets.** It derives the optimal computation points (OCP) and the
   redundant occurrences (RO).
4. **Rewrite.** When both sets are non-empty, it rewrites the function:
   - a fresh `alloca` slot goes first in the entry block;
   - in front of every OCP instruction it places a load of each operand, the binary
     operation and a store of the result into the slot;
   - every RO instruction becomes a load of that slot.

The result of the pass is whether any term changed the function.

The model is arranged as follows:

- `ir.dfy` (module `IR`): the function as data.
  - A function is a sequence of blocks of instruction identities, an instruction table
    and the block-successor lists.
  - A node is an instruction position `Node(block, index)`.
  - The entry node is the first instruction of block 0. The exit node is the last
    instruction of the last block, as the source tests it.
- `graph.dfy` (module `Graph`): instruction-level successors and predecessors, and the
  next binary operation in a block.
- `local.dfy` (module `Local`): term extraction and the local predicates `Used` and
  `Transp`.
- `fixpoint.dfy` (module `Fixpoint`): generic in-place sweeps over a boolean map.
  - Sweeps that start from all-true and only lower nodes reach the *greatest* solution of
    a monotone per-node equation.
  - Sweeps that start from all-false and only raise nodes reach the *least* solution.
- `equations.dfy` (module `Equations`): the five predicates.
  - Each memoised function's body is a per-node equation.
  - The recursion itself is the `...Rec` function, under a rank that decreases along
    every call the body can make. Such a rank exists exactly when the recursion,
    started at any node, terminates whatever order the successor and predecessor sets
    iterate in. The sweeps start it only at reachable nodes, so they may terminate on
    functions that have no such rank.
  - Lemmas show that every solution of the equations agrees with the recursion wherever
    such a rank exists. On such functions the solution is therefore unique.
  - The module also defines the OCP and RO sets and the whole per-term analysis.
- `rewrite.dfy` (module `Rewrite`): the rewrite as a function of the function before it.
  - Lemmas prove that the rewrite keeps the well-formedness invariant.
  - Erasing the new instructions gives back every block.
  - The slot, the inserted groups and the replaced instructions are where and what the
    pass makes them.
- `pass.dfy` (module `Pass`):
  - class `Func` is the function, rewritten in place;
  - class `PRE` holds the five memo tables and the methods of the pass;
  - `RunOnFunction` is the per-function driver. It is specified as a run: a chain of
    rounds, one per extracted term, each taking the function from one well-formed state
    to the next.

Identities of instructions created by the rewrite are `Slot(e)` and `Remat(e, at, part)`.
Here `e` is the function's allocation epoch, which stands for allocation with `new`: the
rewrite of epoch `e` only uses identities nobody has seen before.

## Model

| member | source | states |
|---|---|---|
| Local.GetAlloca | PRE.cpp:145-152 | nothing exactly when the value is not the result of a load; otherwise the pointer that load reads from |
| Local.TermAt | PRE.cpp:115-143 | a node contributes a term exactly when it is a binary operation whose two operands are loads; the term carries the opcode, the result type and the two loads' pointers |
| Local.Used | PRE.cpp:155-172 | a node uses a term iff it is a binary operation with the term's opcode whose left operand loads from the first operand and whose right operand loads from the second |
| Local.Transp | PRE.cpp:174-188 | a node kills a term iff it is a store whose stored value is the term's first operand or whose pointer is the term's second operand |
| Local.UsedIffExtracted | PRE.cpp:115-172 | a node uses a term exactly when the term it contributes equals that term up to the result type |
| Local.UsedIgnoresType | PRE.cpp:155-172 | two terms differing only in the result type are used at the same nodes |
| Local.StoreThroughFirstOperandIsTransparent | PRE.cpp:174-188 | a store through the term's first pointer of a value other than that pointer leaves the term transparent, when the two operands differ |
| Local.NonStoreIsTransparent | PRE.cpp:178-187 | every instruction that is not a store is transparent for every term |
| Local.GetPartialRedundantExpressions | PRE.cpp:115-143 | the set holds the term of every node that contributes one, and every term in it is contributed by some node |
| Graph.GetSuccessors | PRE.cpp:339-369 | the next instruction in the block, or the first instruction of every successor block when the node ends its block |
| Graph.GetPredecessors | PRE.cpp:371-391 | the previous instruction in the block, or the last instruction of every block that lists this block as a successor when the node starts its block |
| Graph.GetBinarySuccessor | PRE.cpp:322-336 | the first binary operation after the node in its own block; nothing only when no later instruction of the block is a binary operation |
| Graph.SuccsPredsMirror | PRE.cpp:339-391 | m is a successor of n exactly when n is a predecessor of m |
| IR.InstOrderMembers | PRE.cpp:466-490 | walking the given blocks instruction by instruction visits exactly the nodes of those blocks |
| IR.AllNodes | PRE.cpp:469 | the layout-order walk over the function visits exactly its nodes |
| IR.ForwardOrder | PRE.cpp:408-421 | the reverse post-order sweep visits every node of the function and nothing else |
| IR.BackwardOrder | PRE.cpp:394-405 | the post-order sweep, each block from its last instruction, visits every node and nothing else |
| Fixpoint.SweepDown | PRE.cpp:394-405 | one lowering sweep keeps the map above its image and above every solution; it either lowers some node or leaves a solution unchanged |
| Fixpoint.SweepUp | PRE.cpp:408-421 | one raising sweep keeps the map below its image and below every solution; it either raises some node or leaves a solution unchanged |
| Fixpoint.Greatest | PRE.cpp:394-405 | repeated lowering sweeps from all-true end at the greatest solution of a monotone equation |
| Fixpoint.Least | PRE.cpp:408-421 | repeated raising sweeps from all-false end at the least solution of a monotone equation |
| Fixpoint.LowerStep | PRE.cpp:394-405 | lowering a node whose equation yields false keeps the invariants of a lowering sweep |
| Fixpoint.RaiseStep | PRE.cpp:408-421 | raising a node whose equation yields true keeps the invariants of a raising sweep |
| Fixpoint.GreatestUnique | PRE.cpp:394-405 | the greatest solution is unique |
| Fixpoint.LeastUnique | PRE.cpp:408-421 | the least solution is unique |
| IR.CFG.Entry | PRE.cpp:225 | the entry node `s`: the first instruction of the first block |
| IR.CFG.Exit | PRE.cpp:197 | the exit node `e`: the last instruction of the last block in layout order |
| IR.CFG.Succs | PRE.cpp:339-369 | instruction-level successors: the next instruction of the block, or the first instruction of every successor block after the block's last instruction |
| IR.CFG.Preds | PRE.cpp:371-391 | instruction-level predecessors: the previous instruction of the block, or the last instruction of every predecessor block before the block's first instruction |
| Equations.DSafeAt | PRE.cpp:190-216 | the DSafe equation at one node: false at the exit, true at a use, false at a kill, otherwise the conjunction of the successors' values |
| Equations.DSafeRec | PRE.cpp:190-216 | the DSafe recursion without its memo, defined under a rank that decreases along each recursive call |
| Equations.EarliestAt | PRE.cpp:218-244 | the Earliest equation at one node: true at the entry, otherwise true iff some predecessor kills the term or is earliest and not down-safe |
| Equations.EarliestRec | PRE.cpp:218-244 | the Earliest recursion without its memo, under a rank that decreases along each recursive call |
| Equations.DelayAt | PRE.cpp:246-273 | the Delay equation at one node: true when down-safe and earliest, otherwise false at the entry and elsewhere the conjunction over predecessors of "not a use and delayed" |
| Equations.DelayRec | PRE.cpp:246-273 | the Delay recursion without its memo, under a rank that decreases along each recursive call |
| Equations.LatestAt | PRE.cpp:275-298 | Latest at one node: delayed, and either a use or with some successor not delayed |
| Equations.IsolatedAt | PRE.cpp:300-318 | the Isolated equation at one node: every successor is latest, or is not a use and is isolated |
| Equations.IsolatedRec | PRE.cpp:300-318 | the Isolated recursion without its memo, under a rank that decreases along each recursive call |
| Equations.OCPOf | PRE.cpp:466-477 | the optimal computation points: the nodes that are latest and not isolated |
| Equations.ROOf | PRE.cpp:479-490 | the redundant occurrences: the uses of the term that are not both latest and isolated |
| Rewrite.Rewritten | PRE.cpp:526-571 | the function after the rewrite of one epoch: the slot first in the entry block, a group before each OCP node, each RO node a load of the slot, the successor lists kept |
| Pass.RoundBy | PRE.cpp:492-580 | one term's round with the given memo tables: they are the term's analysis, and the function is rewritten with their OCP and RO at the next epoch exactly when both are non-empty, and is left alone otherwise |
| Pass.Round | PRE.cpp:492-580 | one term's round: some memo tables witness RoundBy |
| Equations.DSafeMonotone | PRE.cpp:190-216 | the DSafe equation is monotone in the successors' values |
| Equations.EarliestMonotone | PRE.cpp:218-244 | the Earliest equation is monotone in the predecessors' values |
| Equations.DelayMonotone | PRE.cpp:246-273 | the Delay equation is monotone in the predecessors' values |
| Equations.IsolatedMonotone | PRE.cpp:300-318 | the Isolated equation is monotone in the successors' values |
| Equations.DSafeAgrees | PRE.cpp:190-216 | every solution of the DSafe equations gives, at every node, the value the memoised recursion returns whenever that recursion terminates whatever order the sets iterate in |
| Equations.EarliestAgrees | PRE.cpp:218-244 | every solution of the Earliest equations gives the recursion's value wherever it terminates whatever order the sets iterate in |
| Equations.DelayAgrees | PRE.cpp:246-273 | every solution of the Delay equations gives the recursion's value wherever it terminates whatever order the sets iterate in |
| Equations.IsolatedAgrees | PRE.cpp:300-318 | every solution of the Isolated equations gives the recursion's value wherever it terminates whatever order the sets iterate in |
| Equations.DSafeUniqueWhenRanked | PRE.cpp:190-216 | where the DSafe recursion terminates whatever order the sets iterate in, its equations have a single solution |
| Equations.EarliestUniqueWhenRanked | PRE.cpp:218-244 | where the Earliest recursion terminates whatever order the sets iterate in, its equations have a single solution |
| Equations.DelayUniqueWhenRanked | PRE.cpp:246-273 | where the Delay recursion terminates whatever order the sets iterate in, its equations have a single solution |
| Equations.IsolatedUniqueWhenRanked | PRE.cpp:300-318 | where the Isolated recursion terminates whatever order the sets iterate in, its equations have a single solution |
| Equations.DSafeCases | PRE.cpp:190-216 | exit not down-safe; a use down-safe; a kill not down-safe; otherwise down-safe iff every successor is |
| Equations.EarliestCases | PRE.cpp:218-244 | entry earliest; elsewhere earliest iff some predecessor kills the term or is earliest and not down-safe |
| Equations.DelayCases | PRE.cpp:246-273 | down-safe and earliest implies delayed; otherwise the entry is not delayed and any other node is delayed iff every predecessor is delayed and does not use the term |
| Equations.LatestCases | PRE.cpp:275-298 | latest implies delayed; a delayed use is latest; any other delayed node is latest iff some successor is not delayed |
| Equations.IsolatedCases | PRE.cpp:300-318 | isolated iff every successor is latest, or does not use the term and is isolated; a node without successors is isolated |
| Equations.LatestUnique | PRE.cpp:275-298 | Latest is determined by Delay |
| Equations.CandidateSets | PRE.cpp:466-490 | RO holds only uses of the term, OCP only non-isolated latest nodes, and a node is in both exactly when it is a non-isolated latest use |
| Equations.AnalysisUnique | PRE.cpp:494-500 | the five memo tables of one term are determined by the function alone, whatever the sweep order |
| Rewrite.NewBlockAt | PRE.cpp:530-546 | each position of a rewritten block holds the slot, first in the entry block; or a part of the group inserted before its OCP node; or an original instruction at its new position |
| Rewrite.RewriteWellFormed | PRE.cpp:526-571 | the rewrite keeps the function valid, keeps positions identifying instructions, uses only fresh identities, and leaves the block count and successor lists alone |
| Rewrite.RewriteErases | PRE.cpp:526-571 | removing what the rewrite allocated gives back every block exactly as it was |
| Rewrite.RewriteOneSlot | PRE.cpp:530-531 | the slot is an alloca of the term's type, first in the entry block and nowhere else |
| Rewrite.RewriteInsertsGroup | PRE.cpp:540-546 | right before each OCP instruction sit a load of the first operand, a load of the second, their binary operation, and the store of its result into the slot |
| Rewrite.RewriteKeeps | PRE.cpp:547-568 | every original instruction keeps its identity at its new position, and becomes a load of the slot exactly when it is in RO |
| Rewrite.BodyStart | PRE.cpp:530-531 | before any node is treated, the instruction table only gains the slot |
| Rewrite.BodyAddGroup | PRE.cpp:540-546 | treating one more OCP node adds its four instructions to the table |
| Rewrite.BodyAddRo | PRE.cpp:547-555 | treating one more RO node turns it into a load of the slot |
| Pass.TreatNode | PRE.cpp:538-568 | treating one instruction of the block extends the rewritten prefix of it and the table by exactly that instruction's share of the rewrite |
| Pass.RewriteBlock | PRE.cpp:536-569 | rewriting one block in place makes it the block's rewritten form and adds that block's share of the new table |
| Pass.RewriteBlocks | PRE.cpp:533-570 | visiting every block in the given order leaves every block and the table rewritten |
| Pass.Transform | PRE.cpp:528-571 | the function becomes the rewrite of the old one for the given OCP and RO sets, the epoch advances, and well-formedness is kept |
| Pass.PRE.GetDSafes | PRE.cpp:394-405 | the DSafe memo table becomes the greatest solution of the DSafe equations |
| Pass.PRE.GetEarliests | PRE.cpp:408-421 | the Earliest memo table becomes the least solution of the Earliest equations over the DSafe table |
| Pass.PRE.GetDelays | PRE.cpp:423-436 | the Delay memo table becomes the greatest solution of the Delay equations over the DSafe and Earliest tables |
| Pass.PRE.GetLatests | PRE.cpp:438-450 | the Latest memo table holds, at every node, Latest evaluated over the Delay table |
| Pass.PRE.GetIsolateds | PRE.cpp:452-464 | the Isolated memo table becomes the greatest solution of the Isolated equations over the Latest table |
| Pass.PRE.GetOCP | PRE.cpp:466-477 | exactly the nodes that are latest and not isolated |
| Pass.PRE.GetRO | PRE.cpp:479-490 | exactly the nodes that use the term and are not both latest and isolated |
| Pass.PRE.Analyse | PRE.cpp:494-500 | the five tables form the analysis of the term in the current function |
| Pass.PRE.PerformTransformation | PRE.cpp:492-580 | the result is true exactly when both candidate sets are non-empty; the function is then the rewrite of the old one at the next epoch, and is unchanged otherwise |
| Pass.PRE.TakeTerm | PRE.cpp:590-593 | one term takes the well-formed function one step of the run |
| Pass.PRE.TakeAll | PRE.cpp:590-594 | the terms are taken once each, in some order; each takes one step from the state the previous one left; the result is whether any step changed the function |
| Pass.PRE.RunOnFunction | PRE.cpp:582-611 | every term of the original function is taken exactly once, each as one round on the function as the previous rounds left it; the result is whether any round changed the function |
| Pass.ChainSteps | PRE.cpp:590-594 | a chain starts at its initial state and each of its terms is one step |
| Pass.ChainExtend | PRE.cpp:590-594 | one more step extends a chain |
| Pass.RunSteps | PRE.cpp:590-594 | a run starts at the original function and each of its terms is one round from a well-formed state |
| Pass.RunExtend | PRE.cpp:590-594 | one more round extends a run |
| Pass.RoundWitness | PRE.cpp:492-580 | a round with its memo tables is a step of the run |
| Pass.RoundDeterministic | PRE.cpp:492-580 | a round's outcome (new function, epoch, result) is determined by the function, the epoch and the term |

## Left out

- Pass.PRE.GetDSafes: the source makes one sweep of memoised recursive calls. The model
  specifies the greatest solution of the DSafe equations instead. Where the recursion
  terminates whatever order the successor sets iterate in, the two coincide
  (Equations.DSafeAgrees, Equations.DSafeUniqueWhenRanked). On a loop of transparent
  instructions that do not use the term, the recursion may revisit a node before its
  memo entry is written and then fails to terminate; whether it does depends on the
  pointer order of the successor sets, since the loop over them stops at the first
  false value (PRE.cpp:204-208). Where the recursion terminates only thanks to that
  order, the model's contract does not relate the two; there the model gives the
  standard greatest solution.
- Pass.PRE.GetEarliests: the same, with the least solution of the Earliest equations
  (Equations.EarliestAgrees). On a cycle of predecessors that are transparent and not
  down-safe, the source's recursion may fail to terminate, depending on pointer order
  (PRE.cpp:230-238).
- Pass.PRE.GetDelays: the same, with the greatest solution (Equations.DelayAgrees).
- Pass.PRE.GetIsolateds: the same, with the greatest solution (Equations.IsolatedAgrees).
- Pass.PRE.GetLatests: Latest itself only reads Delay, which is already complete, so one
  sweep suffices. The model evaluates it from the Delay table at every node.
- The block visiting order is a parameter `rpo` listing every block exactly once.
  - The source walks only the blocks reachable from the entry block, so its sweeps and
    its rewrite skip unreachable blocks.
  - The model sweeps and rewrites them as well.
  - By Equations.AnalysisUnique and Pass.RoundDeterministic, the order itself does not
    affect the outcome.
- Order of the terms: the set of terms iterates in pointer order, which is not
  determined by the program text. TakeAll takes them in an order left open, and
  RunOnFunction's contract holds for every order.
- Erasing the operands of a replaced instruction (PRE.cpp:557-564) is not modelled.
  That loop reads the instruction after `ReplaceInstWithInst` has deleted it, so its
  behaviour is undefined. It would also erase loads that other instructions may still
  use.
- Replacing an RO instruction by a new load: the model keeps the instruction's identity
  and changes its kind to a load of the slot. This has the same effect on every use as
  replacing the instruction and redirecting its uses.
- The OCP and RO sets are sets of instructions. The model records them as positions in
  the function before the rewrite, and maps each to its position in the partly rewritten
  block (`Rewrite.Pos`). Positions identify instructions because the function keeps the
  invariant `Rewrite.WellFormed`.
- `mem_used` (PRE.cpp:56) is declared but never read, and is not modelled.
- The statistics loop (PRE.cpp:502-511) and the other `DEBUG` output are left out.
  Only the printing at PRE.cpp:510 sits inside `DEBUG`. The `operator[]` reads at
  PRE.cpp:505-509 always run, and they store `false` in the Earliest, Delay, Latest and
  Isolated tables for every instruction that has a DSafe entry but lacks one there.
  Such instructions lie in unreachable blocks that the recursion reached through
  predecessor edges. `getOCP` and `getRO` then read the stored `false` values
  (PRE.cpp:276, 301) instead of computing them. This can change Delay, Latest and
  Isolated at those instructions, and with them OCP, RO and the result of
  `perform_OCP_RO_Transformation`. For example, take a block with no predecessors
  that loads `a` and `b`, adds them and branches to the exit block, where the
  entry block also branches. If the Earliest recursion reaches that block through the
  exit block's predecessors (PRE.cpp:230-238), the source can find a non-empty OCP and
  RO and rewrite the function, while every analysis of the model leaves both sets
  empty. The model's tables are solutions of the equations at
  every node, and do not capture these default entries.
- `getAnalysisUsage`, the pass registration and `createPartialRedundancyEliminationPass`
  (PRE.cpp:84-104) only connect the pass to LLVM.
- LLVM itself is represented by the `IR` datatypes:
  - values, opcodes and types are compared by identity;
  - instructions other than loads, stores, binary operations and allocas are `Other`.
- The files under `lib/`, `our_clang.py` and `tests/` are not part of this model.
