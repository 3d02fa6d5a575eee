# XSB engine: a verified model

XSB is a Prolog engine with tabling, written in C. This project models five parts of it whose state
changes in place under strong invariants, and proves what they promise:

- **The dynamic clause store** (`XSB/emu/biassert.c`). The compiler of clauses, from matching the
  head to building the body's arguments, with its free-list register allocator and circular
  instruction queue; the scheduling of register moves; the linked chains of clauses; retraction while
  choice points are live; and the index blocks with the enumeration of the clauses that may match a
  goal.
- **The incremental dependency graph** (`XSB/emu/call_graph_xsb.c`): invalidation, its undoing,
  re-evaluation lists, edge updates.
- **The trail** (`XSB/emu/binding.h`, `XSB/emu/cut_xsb.h`): conditional trailing, pre-image frames,
  frozen frames, backtracking, tidying at a cut, and switching between branches
  (`XSB/emu/sw_envs.h`).
- **Multi-threaded completion** (`XSB/emu/conc_compl.c`, `XSB/emu/deadlock.c`,
  `XSB/emu/bineg_xsb_i.h`): the dependency fixpoint, the closed-group test, the wait-for graph.
- **Completion scheduling** (`XSB/emu/complete_local.h`): filtering and splicing suspension chains.

## How the files hang together

| files | content |
|---|---|
| `Sequences` | sequences without repetition |
| `Registers`, `InstQueue` | the register allocator and the instruction queue, as objects |
| `Terms`, `HeadSim`, `HeadCompiler`, `HeadCode` | terms and instructions with their meaning; what each instruction does for the compiler's position; the compiler; the meaning of the code it emits |
| `Waiting` | how many registers the compiler needs for the subterms that wait to be processed, and how many instructions it emits |
| `BodySim`, `BodyCompiler` | building the body's arguments on the heap: the instructions, what a heap denotes, and the compiler |
| `MoveScheduler`, `QueueWrap` | the register moves, and exactly when they go wrong |
| `ClauseCode`, `ClauseWrap` | a whole clause: what its code does with a call; clauses that get wrong code |
| `ClauseChain` | doubly linked chains with their position opcodes, as objects |
| `Retraction`, `DynamicStore` | what deleting does to a choice point; the store with calls, backtracking, assert, retract and collection |
| `SobIndex`, `ClauseLookup`, `LookupExact`, `SobUpdate`, `TableSizes`, `IndexedPredicate` | index blocks, the walk over them, what the walk finds, their updates, the sizes of their tables, and a predicate that combines them |
| `CallGraph`, `Invalidation`, `Propagation`, `InvalidState`, `EdgeUpdates`, `Recomputation`, `Reevaluation`, `CounterWraps` | the dependency graph; runs of invalidations and re-evaluations; runs in which its counters wrap around |
| `TrailFrames`, `TrailStack`, `TrailEngine`, `TrailBindings`, `TrailSwitch`, `TrailBranches` | frames and chains of frames; what a choice point restores; the engine's operations; what a branch's frames do to the cells; the walk that switches between branches; how freezing keeps branches apart |
| `TrailRuns`, `EngineRuns` | what holds in a run of the trail operations, of the branch worked on and all those left; the engine's steps that keep it |
| `WaitGraph`, `Deadlock`, `ConcCompletion` | multi-threaded completion |
| `Suspensions` | completion scheduling |

An operation that the source does in place is a method, proved against a specification: a sequence,
set or map that the method keeps as ghost state or is given. Such parameters are marked `ghost`; they
are no part of the program. A method's result `ok` is false where the source raises an error.

## Where the code departs from what its comments or its callers expect

- The register moves of a clause are right for at most 123 body arguments. The scans of the queue do
  not follow it around its end. Of the numbers of loads the queue can hold, exactly those up to 123
  are always done (`QueueWrap.ScheduledIff`): with more, `h(X1,..,Xm) :- q(a,X1,..,Xm)` overwrites a
  register before it is read. The code of that clause is right exactly when the body has at most 123
  arguments (`ClauseWrap.ShiftIff`); from 124 to 127 compiling it does not fail either
  (`ClauseWrap.CompileShift`).
- A float in a clause head (a tagged float word, not a boxed one) matches nothing. `getfloat` and
  `unifloat` carry the tagged word, and the emulator takes it for a float, tag and all, but masks the
  tag of the argument. The code of a head decides for every call whether the head matches it exactly
  when there is no float in the head, at any depth; with one it refuses every call, even the head's
  own instances (`HeadCode.DecidesIff`). Building with `bldfloat` masks the tag, and is right.
- A float among the body's arguments (a tagged float word, not a boxed one) is loaded by the
  instruction for integers, with the integer that has its bits. A clause goes on with exactly the
  calls that its head matches, and with the instances of all the body's arguments, exactly when there
  is no float in the head and no argument of the body is one (`ClauseCode.NoFloatIff`).
- `falsecount` is a 14-bit field. A call with 16384 or more invalid predecessors gets a wrong count
  (`InvalidState.CountExactIff`). With a multiple of 16384 it stays invalid for ever
  (`InvalidState.WrappedStaysInvalid`); with one more than that it becomes valid as soon as one of
  them is evaluated again without change, though all the others still affect it
  (`InvalidState.WrappedTurnsValid`, and `CounterWraps.TurnsValidTooSoon` for a run with 16385 invalid
  calls). Taking back an invalidation is right exactly when the counts modulo 16384 of the invalid
  calls satisfy the condition `InvalidState.Undoable`.
- `outcount` is a 14-bit field too. It is the number of out-edges exactly when that is below 16384,
  and the test of `deletecallnode` lets a node pass whose out-edges number a multiple of 16384
  (`EdgeUpdates.FreedWithEdgesIff`, and `CounterWraps.FreedWithEdges` for a run of that function). The
  engine does not get there: its only caller has `deleteoutedges` reset the count first
  (`EdgeUpdates.DetachCallNode`).
- A leaf's own count is never reset. All that comes of it is that the search for the calls to evaluate
  again visits the leaf.
- The second part of a deadlock reset runs without the mutex. It keeps the waits acyclic exactly when
  the resetting thread does not lead to the thread it redirects. A thread in its second pass through
  the wait loop still has its first wait recorded, and then a cycle can arise
  (`Deadlock.StaleWait` is a run in which one does); the deadlock test does not end on a cycle (`Deadlock.CycleForever`).

## Model

| member | source | states |
|---|---|---|
| Registers.RegStat.Get | XSB/emu/biassert.c:613-629 | hands out a register that is in no use, and fails exactly when none is left; the free list threaded through the array never holds a register twice |
| Registers.RegStat.Release | XSB/emu/biassert.c:631-638 | frees the registers of subterms only; those of variables and arguments stay |
| Registers.RegStat.constructor | XSB/emu/biassert.c:603-611 | all registers up to the given size hold arguments |
| InstQueue.Queue.Push | XSB/emu/biassert.c:532-541 | adds at the top of the ring, and fails exactly when it is full |
| InstQueue.Queue.Pop | XSB/emu/biassert.c:543-551 | takes the top entry, around the end of the array too |
| InstQueue.Queue.Rem | XSB/emu/biassert.c:553-560 | takes the bottom entry |
| InstQueue.Queue.Add | XSB/emu/biassert.c:562-573 | adds at the bottom, and fails exactly when the ring is full |
| InstQueue.Queue.Rotate | XSB/emu/biassert.c:575-582 | moves the entries just added at the bottom to the top, the first added on top |
| HeadSim.GetListTVarTVarAdvances | XSB/emu/biassert.c:858-866 | the fused instruction for a list of two new variables checks the list and sets both registers, from any run of the code so far |
| HeadSim.UniListAdvances | XSB/emu/biassert.c:960-966 | the fused instruction for a last list with a small integer in front checks the list and the integer and goes on to the tail |
| HeadCompiler.GenInst | XSB/emu/biassert.c:902-986 | for one subterm: the code now also checks it, or has put it in a register of its own that is queued; for a float it refuses every call; no register still holding an unprocessed subterm, variable or argument is touched; of the registers it keeps one for a new variable or for the subterm queued, and no other |
| HeadCompiler.GenSubterms | XSB/emu/biassert.c:868-889 | the same for all subterms of a structure; registers for its new variables and compound subterms are enough |
| HeadCompiler.GenTerms | XSB/emu/biassert.c:844-900 | leaves nothing pending, and the queue never overflows; registers are enough if there is one for each new variable and for the compound subterms that wait at one time (`Waiting.Width`); in the end exactly the new variables have kept theirs; a list of two new variables takes one instruction, a last list one for each small integer at its front, and everything else one for each subterm and one to enter it |
| Waiting.WidthIs | XSB/emu/biassert.c:844-900 | that number: with compound subterms c1, ..., ck it is the greater of k and of every k - i plus the number for ci |
| Waiting.ListNeedsOne | XSB/emu/biassert.c:863-877 | it is at most one for a list of constants, whatever its length |
| Waiting.OneForEach | XSB/emu/biassert.c:960-966 | a list of n small integers takes n + 2 instructions |
| HeadCode.GenTopInst | XSB/emu/biassert.c:806-841 | the code now also checks this argument of the head, and refuses every call if it is a float; only the new variables of a compound argument keep a register |
| HeadCode.CompileHead | XSB/emu/biassert.c:776-778 | running the code on any ground arguments never reads an unset register, and succeeds exactly when there is no float in the head and some substitution makes the head equal to the arguments; then it leaves every variable of the head and no other in its register with its matched subterm, and keeps the arguments; compilation succeeds whenever there is a register for each distinct variable met first inside a compound argument, and for the compound subterms that wait at one time; the instructions are no more than `HeadCode.HeadInstructions` |
| HeadCode.CompileListFact | XSB/emu/biassert.c:731-792 | a fact with a list of constants compiles, however long the list; with n small integers its code has n + 2 instructions at most |
| HeadCode.DecidesIff | XSB/emu/emuloop.c:972-981 | the code decides for every call whether the head matches it exactly when there is no float in the head; with one it refuses every call |
| HeadSim.TagDiffers | XSB/emu/emudef.h:242-260 | no tagged float equals the operand of the instruction for a float |
| HeadCode.SimCorrect | XSB/emu/biassert.c:806-986 | what holds for the compiler's last position means that the code matches the head |
| HeadCode.VariablesKnown | XSB/emu/biassert.c:684-689 | the variables the compiler has given registers are exactly those that occur in the head, if there is no float in it |
| HeadCode.ApplyEqual | XSB/emu/biassert.c:806-986 | two instances of a head term are equal exactly when the substitutions agree on its variables |
| BodySim.BldLaterAdvances | XSB/emu/biassert.c:967-984 | a compound subterm's place is left free, with a register that refers to it; once it is built later, the place holds it |
| BodySim.BldListAdvances | XSB/emu/emuloop.c:1205-1214 | the fused instruction builds a last list and its small integer, and the tail takes its place |
| BodySim.GetStrAdvances | XSB/emu/emudef.h:263-271 | binding a place left free to a new structure builds it there, and leaves the other places free |
| BodySim.PutAdvances | XSB/emu/emuloop.c:1123-1137 | a register is made to hold a new list or structure whose subterms come next |
| BodyCompiler.BuildInst | XSB/emu/biassert.c:902-986 | for one subterm: the code now also builds it, or leaves a place for it that is queued; no register of a variable, a place or a finished argument is touched; of the registers it keeps one for a new variable or for the subterm queued, and no other |
| BodyCompiler.BuildTerms | XSB/emu/biassert.c:844-900 | the argument's register holds the whole term; registers are enough if there is one for each new variable and for the compound subterms that wait at one time; in the end exactly the new variables have kept theirs; it takes exactly the instructions of `Waiting.Emits` |
| BodyCompiler.BuildArg | XSB/emu/biassert.c:988-1042 | the argument is built, and its load queued; it keeps a register for each new variable, and one if it is compound |
| BodyCompiler.LoadsFit | XSB/emu/biassert.c:988-1042 | the queued loads have distinct argument registers for targets and permanent registers for sources, as the scheduler needs them |
| ClauseCode.MovesUniform | XSB/emu/emuloop.c:1857-1864 | the moves do the same whatever the registers hold |
| ClauseCode.CompileClause | XSB/emu/biassert.c:731-792 | compilation succeeds whenever the argument registers, one register for each distinct variable not met first as an argument of the head, one for each compound argument of the body, and then those for the compound subterms that wait at one time, and for the arguments of the body that are variables of the head, fit. With at most 123 body arguments, called with any ground arguments the code fails exactly when they do not match the head or there is a float in it; otherwise, from any heap, each body argument's register ends up with the instance of the argument (exactly when it is not a float), with the head's variables replaced by their matched subterms, and the others by different new free variables; what was on the heap before stays |
| ClauseCode.PassedCross | XSB/emu/biassert.c:1091-1113 | only the loads of arguments that are variables of the head read argument registers |
| ClauseCode.NoFloatIff | XSB/emu/biassert.c:1017-1019 | the code goes on with exactly the calls that the head matches, and with the instances of all the body's arguments in the registers, exactly when there is no float in the head and no argument of the body is one |
| ClauseWrap.ShiftIff | XSB/emu/biassert.c:731-792 | the clause h(X1,..,Xm) :- q(a,X1,..,Xm) gets right code exactly when the body has at most 123 arguments |
| ClauseWrap.CompileShift | XSB/emu/biassert.c:731-792 | compiling it succeeds for up to 127 arguments at least, so from 124 to 127 the result is wrong code and no error |
| MoveScheduler.TargetIsNotSource | XSB/emu/biassert.c:1045-1054 | finds whether a queued load reads the register; sees nothing when the queue has wrapped |
| MoveScheduler.SourceIsNotTarget | XSB/emu/biassert.c:1056-1064 | finds whether a queued load sets the register; sees nothing when the queue has wrapped |
| MoveScheduler.GenMvs | XSB/emu/biassert.c:1075-1118 | the loop ends for any number of loads, with at most two instructions a load, and does the turns of `MoveScheduler.Ends`; it has registers enough if there is one for each load that reads an argument register; with up to 123 loads the instructions have the effect of one simultaneous assignment, for any chains, shared sources and cycles, and registers in use that are not targets keep their contents |
| MoveScheduler.NextLoad | XSB/emu/biassert.c:1080-1117 | one turn of the loop, whether or not the queue has wrapped; it takes a fresh register only for a load whose target is still to be read and whose source is still to be loaded |
| MoveScheduler.DetoursCross | XSB/emu/biassert.c:1091-1113 | a load that takes a further register reads an argument register, and has not been put back before |
| MoveScheduler.TurnShape | XSB/emu/biassert.c:1080-1117 | a load is put back at most once, wrapped or not |
| MoveScheduler.FewLoads | XSB/emu/biassert.c:1075-1118 | whatever fresh registers are handed out, the code of up to 123 loads has the effect of one simultaneous assignment |
| QueueWrap.ShiftIsLoads | XSB/emu/biassert.c:988-1042 | the n loads of q(a,X1,..) are what the scheduler is given |
| QueueWrap.FirstTurns | XSB/emu/biassert.c:1075-1118 | with 124 to 245 loads, n of them, the first 246 - n turns put every load back, all but the first by way of a fresh register |
| QueueWrap.WrongOrder | XSB/emu/biassert.c:1045-1064 | then the queue has wrapped, the scans see nothing, and the moves that are left of the first round are emitted in the wrong order |
| QueueWrap.LoadLost | XSB/emu/biassert.c:1075-1118 | however long the loop goes on, a register that no load left in the queue sets keeps its contents |
| QueueWrap.LastLost | XSB/emu/biassert.c:1075-1118 | so the last register has the value of X(246-n) instead of X(n-1) |
| QueueWrap.SecondLost | XSB/emu/biassert.c:1075-1118 | with more than 245 loads the second register has the constant instead of X1 |
| QueueWrap.LoadsNotDone | XSB/emu/biassert.c:1075-1118 | more than 123 such loads are not done, however the registers are handed out, when the registers hold different values |
| QueueWrap.ScheduledIff | XSB/emu/biassert.c:1075-1118 | of the numbers of loads the queue can hold, the loop does all sets of loads of that number exactly when it is at most 123 |
| ClauseChain.Chain.AddBuff | XSB/emu/biassert.c:1513-1580 | adding a clause or block at either end refines adding to the sequence; prev and next stay inverse, first and last point to the ends, and the opcodes stay noop, or try, retry and trust by position |
| ClauseChain.Chain.AddToHashchain | XSB/emu/biassert.c:1733-1779 | the same for a bucket, whose end is found by walking to the trust; its first instruction is never that of an index block |
| ClauseChain.Chain.Delete | XSB/emu/biassert.c:2019-2135 | deleting refines taking the element out of the sequence, with the neighbours' opcodes put right |
| Retraction.DeleteResumable | XSB/emu/biassert.c:2141-2165 | deleting an element keeps a choice point on a retry or trust exactly when it is not the element referred to, nor the first of its chain with that one second |
| Retraction.ResumableInstr | XSB/emu/biassert.c:2141-2165 | what a resumable choice point refers to is still allocated, and its instruction is a retry or a trust |
| Retraction.ShrunkCandidates | XSB/emu/biassert.c:3046-3081 | freeing dead elements and one clause takes exactly that clause from what a choice point can still resolve with |
| Retraction.DeletedWellFormed | XSB/emu/biassert.c:2898-2962 | freeing a clause and blocks left without clauses leaves a well-formed store |
| Retraction.AddedGrown | XSB/emu/biassert.c:1810-1841 | adding a clause keeps choice points resumable, and changes their alternatives only by appending |
| DynamicStore.Store.MarkCpstackRetract | XSB/emu/biassert.c:2217-2259 | found exactly when a choice point refers to the clause or is unclear; otherwise exactly the elements referred to are marked |
| DynamicStore.Store.UnmarkCpstackRetract | XSB/emu/biassert.c:2263-2290 | no element referred to stays marked |
| DynamicStore.Store.DetermineIfSafe | XSB/emu/biassert.c:2980-3006 | says whether the clause is unmarked and, in every chain it is first of, the next is unmarked |
| DynamicStore.Store.ReallyDelete | XSB/emu/biassert.c:2898-2962 | the clause leaves all its chains; index blocks left empty are freed unless a choice point refers to them or to a block in the same chain; every choice point still refers to a retry or trust in its chain, and its alternatives are what they were without what was freed |
| DynamicStore.Store.RetractClause | XSB/emu/biassert.c:3046-3081 | reclaimed or not, every choice point loses exactly the clause from what it can still resolve with, and stays resumable. Its space is reclaimed, and it leaves every chain, exactly when that may be tried, no choice point is unclear or refers to it, and no choice point would see its instruction change, in the store as it is after the collection that may come first; otherwise it waits among the dead clauses, and all chains are as they were |
| DynamicStore.Store.RetractNow | XSB/emu/biassert.c:3054-3081 | the same without a collection first; with the clause go exactly the index blocks it leaves empty that may be freed |
| DynamicStore.Store.Reclaim | XSB/emu/biassert.c:3061-3067 | the space is reclaimed exactly when no choice point is unclear, refers to the clause or would see its instruction change; otherwise nothing happens |
| DynamicStore.Store.MarkDynamic | XSB/emu/biassert.c:2659-2697 | marks what the choice points refer to, and the frames of those clauses |
| DynamicStore.Store.SweepDynamic | XSB/emu/biassert.c:2731-2773 | frees dead clauses only: what it frees was unmarked and safe to free when it began, and what it leaves was marked or is still unsafe to free when it is done; it frees all of them when nothing is marked |
| DynamicStore.Store.GcDynamic | XSB/emu/biassert.c:2781-2812 | collection changes nothing that a choice point can still resolve with; what it frees was unmarked, not referred to and safe to free, what it leaves is marked, referred to, or unsafe to free, and it does nothing if a choice point is unclear |
| DynamicStore.Store.constructor | XSB/emu/biassert.c:3387-3450 | a store of predicates without clauses, from which every run starts |
| DynamicStore.Store.AddClause | XSB/emu/biassert.c:1810-1841 | asserta and assertz keep every choice point resumable; assertz appends to the alternatives of those in the clause's chains |
| DynamicStore.Store.AddBlock | XSB/emu/biassert.c:1833-1836 | so does adding an index block |
| DynamicStore.Store.Call | XSB/emu/emuloop.c:1332-1349 | a try leaves a choice point for the rest of the chain; a noop leaves none |
| DynamicStore.Store.Backtrack | XSB/emu/emuloop.c:1363-1370 | a retry moves the choice point to the next element, a trust removes it |
| SobUpdate.HashResize | XSB/emu/biassert.c:1587-1615 | for an empty predicate the least size in the table that is at least the one asked for; otherwise the size there, or the next in the table when more than three quarters of the buckets are used, but at least the size asked for |
| SobUpdate.AddGood | XSB/emu/biassert.c:1810-1841 | after adding a clause at either end, on all index levels, every bucket is the clauses below its block filtered by hash in order, every count is the number of non-empty buckets, and the clauses are those before with the new one at that end |
| TableSizes.AddHashed | XSB/emu/biassert.c:1810-1841 | a clause that is added gets tables of the size asked for, and of size 1 from its first unbound key on; every other clause stays in a table of its size, on every level |
| TableSizes.AddCompact | XSB/emu/biassert.c:1826-1836 | while clauses are only added, neighbouring blocks have tables of different sizes, on every level |
| SobUpdate.DeleteGood | XSB/emu/biassert.c:2909-2953 | the same after a deletion, with the other clauses in order and blocks left empty gone |
| TableSizes.DeleteHashed | XSB/emu/biassert.c:2909-2953 | a deletion leaves the other clauses in tables of their sizes |
| SobUpdate.NonemptyIff | XSB/emu/biassert.c:2934-2950 | no bucket has clauses exactly when none are left below the block |
| SobUpdate.InOneBucket | XSB/emu/biassert.c:1617-1699 | a clause below a block is in the bucket of its hash and in no other |
| SobIndex.StepNext | XSB/emu/biassert.c:1893-1911 | going on to the next block of a chain skips and repeats nothing |
| SobIndex.StepUp | XSB/emu/biassert.c:1893-1911 | going up from the last block of a chain skips and repeats nothing |
| SobIndex.StepDown | XSB/emu/biassert.c:1913-1923 | going down to the first block below skips and repeats nothing |
| ClauseLookup.UsableFrom | XSB/emu/biassert.c:1847-1865 | the index used is the first whose argument is bound in the goal |
| ClauseLookup.FindUsableIndex | XSB/emu/biassert.c:1847-1865 | finds that index and the first block on its level |
| ClauseLookup.NextSob | XSB/emu/biassert.c:1893-1911 | finds the block after which everything else is still to be tried, or that there is none |
| ClauseLookup.FirstClref | XSB/emu/biassert.c:1925-1948 | finds the first clause to be tried |
| ClauseLookup.NextClref | XSB/emu/biassert.c:1950-2008 | finds the next one: nothing is skipped or repeated |
| LookupExact.VisitExact | XSB/emu/biassert.c:1847-2008 | what is tried with an index is all the clauses in order, filtered to those that are unbound or hash with the goal in their table |
| LookupExact.VisitAll | XSB/emu/biassert.c:1974-1989 | what is tried without an index is all the clauses in order |
| LookupExact.NoneMissed | XSB/emu/biassert.c:1617-1699 | a clause whose argument is unbound or the goal's is among them, whatever the size of its table |
| TableSizes.TriedIff | XSB/emu/biassert.c:1847-2008 | a clause is tried exactly when its key hashes with the goal's in its own table |
| TableSizes.NeverBoth | XSB/emu/biassert.c:1847-2008 | of two clauses in different buckets of tables of one size a goal never tries both |
| LookupExact.Lookup | XSB/emu/biassert.c:1925-2008 | the enumeration from first to last yields exactly those clauses |
| IndexedPredicate.Predicate.Assert | XSB/emu/biassert.c:1810-1841 | the blocks hold the clause list with the clause added at the end asked for; its tables have the size that `SobUpdate.HashResize` finds, or 1 from its first unbound key on, and all other clauses stay in tables of their sizes |
| IndexedPredicate.Predicate.Retract | XSB/emu/biassert.c:2909-2953 | the blocks hold the clause list without the clause, the others in tables of their sizes |
| IndexedPredicate.Predicate.Lookup | XSB/emu/biassert.c:1925-2008 | in every reachable state a goal's enumeration is the clause list, filtered by the index it uses; so it never has both of two clauses that are in different buckets of tables of one size |
| CallGraph.CallNode.constructor | XSB/emu/call_graph_xsb.c:210-235 | a new node has no edges and is valid |
| Invalidation.InvalidateCall | XSB/emu/call_graph_xsb.c:969-979 | on any graph, cyclic or not: a valid c makes invalid exactly the valid nodes it reaches through valid nodes, and raises every falsecount, in 14 bits, by its in-edges from them and from c, c's own by one more; it fails exactly when one of them is incomplete |
| Invalidation.DfsOutedges | XSB/emu/call_graph_xsb.c:664-738 | the same for the iterative search itself |
| Invalidation.ClosedHit | XSB/emu/call_graph_xsb.c:664-738 | when the invalid set is closed under out-edges, the nodes made invalid are the valid ones among all that c reaches, and the set stays closed |
| Propagation.PropagateNoChange | XSB/emu/call_graph_xsb.c:495-516 | on any graph: every falsecount drops by its in-edges from c and the nodes made valid, never below zero, and exactly the nodes that reach zero are made valid |
| InvalidState.CleanStart | XSB/emu/call_graph_xsb.c:969-979 | a graph with all counts zero is in the state with nothing invalidated |
| InvalidState.InvalidateLeaf | XSB/emu/call_graph_xsb.c:969-979 | invalidating one more leaf gives the state for all of them: invalid is what they reach, and the counts of calls count invalid predecessors |
| InvalidState.UndoCallIff | XSB/emu/tables.c:869-901 | on an acyclic graph, evaluating an invalid call again without change leaves invalid exactly what is affected without the edges into the call, if and only if for every other invalid call, with k invalid predecessors of which p become valid, k modulo 16384 is positive and at most p exactly when k is p |
| InvalidState.UndoCall | XSB/emu/slginsts_xsb_i.h:364-377 | and it leaves the state of the graph without those edges if and only if the counts that remain come out right too |
| InvalidState.NarrowRestorable | XSB/emu/tries.h:671 | both hold when no invalid call has 16384 or more invalid predecessors |
| Reevaluation.InvalidateGraphLeaf | XSB/emu/call_graph_xsb.c:969-979 | invalidating a leaf of the graph itself, whose last change has been taken up, leads from any state of a run to the next |
| Reevaluation.UndoGraphCall | XSB/emu/call_graph_xsb.c:495-516 | so does evaluating a call of the graph again without change, once its dependencies are valid, if and only if the counts come out right |
| Reevaluation.Reevaluate | XSB/emu/tables.c:232-240 | evaluating again, without change, an invalid call and the invalid calls it depends on makes all of them valid, and leaves invalid what is affected otherwise, if no call has 16384 predecessors |
| Reevaluation.ForgetLeaf | XSB/emu/call_graph_xsb.c:969-979 | a leaf whose change has been taken up everywhere can be invalidated again |
| InvalidState.CountExactIff | XSB/emu/tries.h:671 | the falsecount of an invalid node is the number of its invalid predecessors exactly when that number is below 16384 |
| InvalidState.WrappedStaysInvalid | XSB/emu/call_graph_xsb.c:505-510 | a node whose count has wrapped to zero is never made valid |
| InvalidState.WrappedTurnsValid | XSB/emu/call_graph_xsb.c:505-510 | a node whose count has wrapped to one is made valid when one invalid predecessor turns out to be unchanged, while another still affects it |
| CounterWraps.TurnsValidTooSoon | XSB/emu/call_graph_xsb.c:495-516 | a run: 16385 invalid calls affect a call, one of them is evaluated again without change, and the call is valid while the 16384 others, all invalid, affect it |
| EdgeUpdates.EmptyConsistent | XSB/emu/call_graph_xsb.c:210-235 | the empty graph is consistent |
| EdgeUpdates.AddCallNode | XSB/emu/call_graph_xsb.c:210-235 | a new node, with an id that no other has, leaves a consistent graph with one node more |
| EdgeUpdates.AddCallEdge | XSB/emu/call_graph_xsb.c:537-573 | adds the edge once; in-lists and out-tables stay converse and without repeats, outcounts the sizes of the tables modulo 16384, the counter the number of edges |
| EdgeUpdates.OutCountExactIff | XSB/emu/tries.h:671 | an outcount is the size of the table exactly when that is below 16384 |
| EdgeUpdates.FreedWithEdgesIff | XSB/emu/call_graph_xsb.c:404-417 | a node with out-edges passes for one without exactly when their number is a multiple of 16384 |
| CounterWraps.FreedWithEdges | XSB/emu/call_graph_xsb.c:404-417 | a run of the function alone, without the `deleteoutedges` its caller makes first: a node with 16384 out-edges passes the test |
| EdgeUpdates.DeleteOutedges | XSB/emu/call_graph_xsb.c:318-372 | takes the node from the in-lists of all it affects |
| EdgeUpdates.DeleteDependencyEdges | XSB/emu/call_graph_xsb.c:271-313 | takes the node from the out-tables of all it depends on |
| EdgeUpdates.DeleteCallNode | XSB/emu/call_graph_xsb.c:404-417 | fails exactly when the outcount is not zero |
| EdgeUpdates.DetachCallNode | XSB/emu/tr_utils.c:4935-4937 | taking a node out leaves a consistent graph without it, self-loops included |
| EdgeUpdates.DetachedCount | XSB/emu/call_graph_xsb.c:271-372 | the edges that are lost are its out-edges, a self-loop once, and its other in-edges |
| Recomputation.DfsDependencyEdges | XSB/emu/call_graph_xsb.c:919-966 | lists, in front of what is listed already, calls none of which was flagged; it ends on any graph, and it fails only when it comes to a call that is not completed |
| Recomputation.CallsToReevaluate | XSB/emu/tables.c:239 | with no call flagged the list has c and every affected call c depends on through affected calls, each once, and on an acyclic graph every call before those it depends on; it fails exactly when one of them is not completed |
| Recomputation.PrecedesAt | XSB/emu/call_graph_xsb.c:519-526 | that order, position by position |
| TrailFrames.Relink | XSB/emu/cut_xsb.h:198-200 | giving a frame its parent's parent takes exactly the parent out of the chain |
| TrailFrames.RelinkUndo | XSB/emu/cut_xsb.h:186-206 | undoing does not miss a frame taken out, on the cells that were there |
| TrailStack.RestoresPush | XSB/emu/binding.h:72-117 | a frame pushed for a changed cell keeps what a choice point restores |
| TrailStack.RestoresRelink | XSB/emu/cut_xsb.h:186-206 | taking out a frame about a cell that was not there keeps what a choice point restores |
| TrailEngine.Engine.PushTrail0 | XSB/emu/binding.h:72-92 | the frame goes above every frame of the branch and every frozen word |
| TrailEngine.Engine.PushPreImageTrail0 | XSB/emu/binding.h:95-117 | the same, with the old contents of the cell |
| TrailEngine.Engine.Bind | XSB/emu/binding.h:120-184 | a binding of a free cell, trailed only if conditional, with a frame above everything that holds the value; it keeps what every choice point restores |
| TrailEngine.Engine.Update | XSB/emu/binding.h:127-130 | so does a pre-image update of any cell, whose frame also holds the old contents |
| TrailEngine.Engine.PushChoicePoint | XSB/emu/emuloop_aux.h:38-49 | a new choice point restores the cells as they are |
| TrailEngine.Engine.UndoBindings | XSB/emu/sw_envs.h:86-101 | walking the parents down to the choice point's trail top, undoing each frame, gives every cell that was there when it was made its contents of then; the older choice points still restore theirs |
| TrailEngine.Engine.Retry | XSB/emu/emuloop_aux.h:69-84 | the same for a retry; the heap goes on where it was when the choice point was made, or above what has been frozen since |
| TrailEngine.Engine.Trust | XSB/emu/emuloop_aux.h:69-86 | the same for a trust, which drops the choice point; where the heap goes on is told by the choice point dropped, not by the one before it |
| TrailEngine.Engine.UnwindTrail | XSB/emu/cut_xsb.h:186-206 | the chain is the old one with exactly the unconditional frames above both the frozen part and the given trail top taken out, in order; no word up to there changes |
| TrailEngine.Engine.CutCode | XSB/emu/cut_xsb.h:125-155 | after a cut and its tidying the choice points that are left still restore every cell that was there |
| TrailEngine.Engine.Freeze | XSB/emu/sw_envs.h:33-43 | freezing raises the trail, heap and local registers to what is there |
| TrailEngine.Engine.AdjustFreezeRegisters | XSB/emu/tab_structs.h:1222-1226 | gives frozen space back to what a choice point has saved, and keeps what every choice point restores |
| TrailEngine.Engine.Build | XSB/emu/binding.h:120-121 | a new heap cell was there at no choice point, and needs no trailing |
| TrailSwitch.TrailTree.SwitchEnvs | XSB/emu/sw_envs.h:49-84 | undoes the branch that is left down to the fork and makes the bindings of the other again from there up; the links it turns around on the way are all turned back |
| TrailBranches.BranchesFork | XSB/emu/sw_envs.h:49-84 | two branches that share no word but with the frames they share fork as switching needs |
| TrailBindings.RedoUndo | XSB/emu/sw_envs.h:74-81 | making the bindings of a branch again after undoing them gives back every cell |
| TrailBindings.UndoRedo | XSB/emu/sw_envs.h:56-81 | undoing them after making them again gives back every cell too, if those the branch knows are as it left them |
| TrailRuns.InvPush | XSB/emu/binding.h:72-117 | a trailed binding keeps all branches that were left as they need to be: apart, and agreeing with this one where they fork |
| TrailRuns.InvChange | XSB/emu/binding.h:120-125 | so does a change of a cell that needs no trailing |
| TrailRuns.InvCut | XSB/emu/cut_xsb.h:125-206 | so does a cut with its tidying |
| TrailRuns.InvBack | XSB/emu/sw_envs.h:86-101 | so does backtracking, also past the place where a branch forked off |
| TrailRuns.InvFreeze | XSB/emu/sw_envs.h:33-43 | so does freezing, after which this branch can be left, and gone back to where it is and at all its choice points |
| TrailRuns.InvGiveBack | XSB/emu/tab_structs.h:1222-1226 | so does giving back what was frozen since a choice point was made, for the branches left before that |
| TrailRuns.InvSwitch | XSB/emu/sw_envs.h:49-84 | so does switching to any branch that was left; the cells that were there when it was left are as they were then, and its choice points restore again what they did |
| EngineRuns.Start | XSB/emu/init_xsb.c:1478-1493 | a run starts with an empty trail and no branch left, and all that `TrailRuns.Inv` says |
| EngineRuns.Bind | XSB/emu/binding.h:120-184 | binding a free cell, trailed or not, keeps that for every branch left |
| EngineRuns.Update | XSB/emu/binding.h:127-130 | so does a pre-image update of any cell |
| EngineRuns.Build | XSB/emu/binding.h:120-121 | so does a new heap cell; the cells below the top of the heap keep their contents |
| EngineRuns.PushChoicePoint | XSB/emu/emuloop_aux.h:38-49 | so does a new choice point |
| EngineRuns.Retry | XSB/emu/emuloop_aux.h:69-84 | so does a retry, which gives the cells that were there at the choice point their contents of then; every heap cell built before that lies below the top of the heap, so that no cell built later takes its place |
| EngineRuns.Trust | XSB/emu/emuloop_aux.h:69-86 | so does a trust; the heap cells built before the choice point that is dropped lie below the top of the heap, too |
| EngineRuns.CutCode | XSB/emu/cut_xsb.h:125-155 | so does a cut with its tidying of the trail |
| EngineRuns.Freeze | XSB/emu/sw_envs.h:33-43 | so does freezing what there is; all choice points of the branch join those that can be gone back to |
| EngineRuns.Suspend | XSB/emu/slginsts_xsb_i.h:592-636 | freezing the branch at a new choice point; it and all its choice points join the branches that can be gone back to |
| EngineRuns.SwitchTo | XSB/emu/sw_envs.h:49-84 | the engine can go on at any choice point at which a branch was left: the cells that were there have their contents of then, and those of the heap lie below its top; that choice point and those before it restore what they did, and every other branch can still be gone back to |
| EngineRuns.GiveBack | XSB/emu/tab_structs.h:1222-1236 | once back at a choice point, giving back what was frozen since it was made keeps the branches left before that |
| WaitGraph.NewWait | XSB/emu/deadlock.c:22-36 | a new wait closes a cycle exactly when the owner already leads to the waiting thread |
| WaitGraph.ClearedIff | XSB/emu/deadlock.c:119-126 | following the waits and clearing each takes away exactly those on the way |
| WaitGraph.LinksLead | XSB/emu/deadlock.c:129-141 | the links lead the resetting thread along the way that the waits were |
| Deadlock.Threads.WouldDeadlock | XSB/emu/deadlock.c:22-36 | on acyclic waits it ends, and says whether the new wait would close a cycle; it counts deadlocks and suspensions |
| Deadlock.Threads.AwaitTable | XSB/emu/bineg_xsb_i.h:140-156 | a pass through the wait loop for a table keeps the waits acyclic, whether the thread suspends for the thread that computes it or starts a reset; a reset clears exactly the waits on the way from that thread |
| Deadlock.Threads.BeginReset | XSB/emu/deadlock.c:119-131 | a wait is cleared exactly if the owner leads to the waiting thread and that leads to the resetting thread in one or more steps; all these waits become links that lead the same way, no thread on the way has a recorded wait any more, and every other wait and link is as it was |
| Deadlock.Threads.ResetThread | XSB/emu/deadlock.c:42-83 | the thread loses its tables down to the leader, but for completed ones, to the resetting thread; nothing happens if the table has been taken from it meanwhile |
| Deadlock.Threads.ResetOne | XSB/emu/deadlock.c:134-141 | redirecting one thread keeps the waits acyclic exactly when the resetting thread does not lead to it; so always when it has no recorded wait |
| Deadlock.Threads.Resume | XSB/emu/bineg_xsb_i.h:158-162 | a thread whose table is completed waits no more, and the waits stay acyclic |
| Deadlock.StaleWait | XSB/emu/deadlock.c:119-141 | a run of the protocol, with every table computed by the thread that called it first or took it over, that ends in a cycle of three waits |
| Deadlock.CycleForever | XSB/emu/deadlock.c:26-32 | on a cycle the test always has a next thread to look at |
| ConcCompletion.ThreadDepList.CheckInsSubg | XSB/emu/conc_compl.c:42-63 | the dependency is covered afterwards, everything covered stays covered, and the result says whether it was new; fails exactly when the list is full |
| ConcCompletion.PropagateDeps | XSB/emu/conc_compl.c:109-129 | every uncompleted dependency of the other thread is covered, or is the caller's own and below the leader |
| ConcCompletion.UpdateDeps | XSB/emu/conc_compl.c:144-177 | it ends; every uncompleted dependency of each listed completing thread is covered by an entry at least as old, or by the leader if it is the caller's own; busy says whether some listed thread is not completing; every entry, and the leader, comes from the start or from a listed completing thread; it fails only with 256 threads or more |
| ConcCompletion.CheckForSCC | XSB/emu/conc_compl.c:226-257 | succeeds exactly when every thread listed completes an old enough leader and depends on the same threads as the group |
| ConcCompletion.GroupClosed | XSB/emu/conc_compl.c:215-257 | then no thread of the group depends, through however many others, on one outside |
| Suspensions.DropCompleted | XSB/emu/complete_local.h:232-259 | leaves in a subgoal's chain exactly the suspensions whose root subgoals are not completed, in order |
| Suspensions.ResumeCSFs | XSB/emu/complete_local.h:191-210 | puts a subgoal's chain behind those gathered and ends it at the choice point |
| Suspensions.ProcessSuspensionFrames | XSB/emu/complete_local.h:212-271 | one chain of all surviving suspensions, from the leader to the youngest subgoal in order, that ends at the choice point; every subgoal is left without suspensions; with no survivor the argument comes back |

## Left out

- HeadCompiler.GenInst: the counted `$assertVAR` occurrences, attributed variables, boxed numbers (so that arguments with floats have tagged ones) and interned terms are not modelled; every variable comes as a plain reference, as `freeze_var` leaves it.
- HeadCode.CompileHead: argument terms are ground, so the code is run in read mode only, and the instructions run in the order emitted; the bytes of the instructions are not modelled.
- BodyCompiler.BuildTerms: the two modes of `db_genterms` and `db_geninst`, matching and building, are two sets of methods here. The words bound are new, so nothing is trailed; moving the heap when it overflows is not modelled.
- ClauseCode.CompileClause: for more than 123 body arguments only what `ClauseWrap` says of one family of clauses, and `MoveScheduler.GenMvs` of the moves, is proved, as they can be wrong; the match, the building and the moves are three pieces of code that run one after the other. A clause without a body is `HeadCode.CompileHead` alone. The integer that has the bits of a float is a parameter.
- MoveScheduler.GenMvs: the loads are taken from a fresh queue, with distinct targets that are argument registers and sources in permanent use, as `BodyCompiler.LoadsFit` shows the body's arguments come.
- ClauseChain.Chain.AddToHashchain: a bucket's address and the block it lies in are one header here, and it has a last word, which a bucket does not; the walk to the end does not use it.
- DynamicStore.Store.ReallyDelete: chains are sequences, as `ClauseChain` justifies; the block a bucket lies in is found from the bucket rather than by its last next word. A block that must stay although empty simply stays, without the shrinking of its record.
- DynamicStore.Store.RetractClause: the conditions under which reclaiming is not tried at all (incomplete tables, a deep choice-point stack, several threads, collection switched off) are a parameter, and so is the count after which collection runs first. A clause that is being run when it is freed is not modelled.
- DynamicStore.Store.MarkDynamic: frames of whole predicates, and marking for incomplete tables, are not modelled.
- DynamicStore.Store.AddClause: the chains the clause goes to are an argument; which ones the indexes choose is in `SobUpdate`.
- DynamicStore.Store.AddBlock: when a block is added, and to which chain, is the caller's choice.
- DynamicStore.Store.Backtrack: what the clause itself does after it is entered is another step of the run.
- SobUpdate.AddGood: the index blocks are values, a tree of blocks with their buckets; links, updates in place and the sharing of one clause record by its chains are in `ClauseChain` only. Every clause of a predicate is asserted with the same indexes, and an index argument's hash is any function of the table size.
- SobUpdate.DeleteGood: a block left empty always goes; one kept because a choice point refers to it is in `DynamicStore` only.
- ClauseLookup.FirstClref: a pointer to a block is the path to it, and the pointer up from the last block of a chain is the shorter path; unindexed clauses in the same predicate, and blocks kept although empty, are not modelled.
- Invalidation.DfsOutedges: a hashtable is the sequence of its entries in iteration order; growing the search stack is not modelled.
- Propagation.PropagateNoChange: the count of the node it starts from is zero; that is required, as its only caller outside the recursion passes a call whose count has been reset.
- InvalidState.UndoCall: on a cyclic graph only what `Propagation.PropagateNoChange` says is proved. A call that is evaluated again is the same node in the graph, where the source makes a new one that takes over the edges.
- Reevaluation.Reevaluate: the evaluation itself is not modelled: it has the same answers and calls the same dependencies, and these complete before it. A call whose answers change stays outside these runs.
- Reevaluation.InvalidateGraphLeaf: a leaf that is invalidated again while its last change is not yet taken up everywhere is counted twice, as in the source; such a step is in `Invalidation.InvalidateCall` only.
- Recomputation.DfsDependencyEdges: the search for visitors of a table (`find_the_visitors`) is not modelled.
- TrailEngine.Engine.Bind: addresses are numbers, even because the last bit marks pre-image frames; a cell never set points to itself. Moving the stacks when they overflow is not modelled.
- TrailEngine.Engine.Freeze: the freeze register of the choice-point stack is not modelled, nor is the guard on it, nor is giving it back in `AdjustFreezeRegisters`. Every choice point saves the freeze registers here; in the source only those of generators do.
- EngineRuns.SwitchTo: which choice point to go on at is the scheduler's choice and an argument; the choice points before it come along as they were when it was made, as nothing drops one of them while it is there.
- Deadlock.Threads.ResetThread: the stacks of the thread that is reset are not modelled; which of its tables lie above the leader is an argument. The links kept in the contexts are shared by all resets, as in the source.
- ConcCompletion.UpdateDeps: the other threads' lists do not change meanwhile, and the last answers noted beside the dependencies (`MayHaveAnswers`) are not modelled.
- Suspensions.ProcessSuspensionFrames: every suspension has a root subgoal (the loop would not end on one without); marking the exact dependency graph (`mark_delayed`) is not modelled.
- Strongly connected components (`xsb_compute_scc`), predicate-level retractall and abolish, tries, byte code layout, printing and the builtin interfaces are not part of this model.
