# Verified models of the automata algorithms

This project models the central algorithms of the automata toolbox in Dafny and proves what they are for. The
classical constructions of libAMoRE and libAMoRE++ are written as in-place loops over arrays, linked lists, string
matrices, tapes and pointer trees; the models keep that form, and the proofs relate every loop to a language, a
partition or an ordered tree.

- **Minimisation** (`Minimization`, `Hopcroft`, `Blocks`, `CircularLists`, `Intersections`, `WaitingRing`,
  `WaitingList`, `PartitionRefinement`, `Reachability`): Hopcroft's algorithm with blocks as circular lists in arrays,
  a ring of reusable cells as waiting list and the smaller-half rule.
- **Inclusion by antichains** (`AntichainInclusion`, `Antichains`, `FiniteAutomata`, `OrderedSets`): the backward
  fixpoint over positions (state, set of states) with subsumption, with shortest counterexamples.
- **Automaton to expression** (`Nfa2Rex`, `LabelledGraphs`, `Regex`, `Postfix`, `Notation`): state elimination on a
  matrix of postfix strings.
- **Expression to automaton** (`Rex2Nfa`, `ExpressionTapes`, `PostfixReader`, `MarkedExpressions`, `FollowAutomata`,
  `StackedStars`, `RoundTrip`): the construction of Berry and Sethi on a tape with skip marks, and the round trip.
- **Powerset construction** (`Nfa2Dfa`, `Subsets`, `SearchTrees`, `BalancedTrees`): subsets indexed by an iterative
  height-balanced search tree of linked records.
- **Reachability of one-counter automata** (`PreStar`, `Saturation`, `SaturationOrders`, `SaturationExamples`,
  `CounterAutomata`): saturation of an automaton over stacks that stand for counter values, with the runs behind its
  transitions, and the orders of the rules for which these runs are shortest.
- **Languages of one-counter automata** (`CounterInclusion`, `CounterProducts`, `CounterLanguages`): products, the
  behaviour within a bound, completion, and inclusion by saturation of a product.
- **Right quotient** (`RightQuotient`): searches over pairs of states that remember where earlier searches have failed.
- **Epsilon moves** (`Enfa2Nfa`, `EpsilonClosure`): the closure by two matrices in turn, and the new letter moves
  entered in place, with the exact set of moves that the order of the loops finds.
- **Shortest words** (`ShortestRuns`): breadth-first search with epsilon moves in front.
- **Message sequence charts** (`NormalForms`, `Charts`): the prefix normal form, by a graph of events from which the
  best free event is taken.
- **Random automata** (`RandomGenerator`, `RandomAutomata`, `Visits`, `DepthFirst`, `RandomSequences`,
  `RandomDraws`): a random sequence, weighed by a table of counts, and the automaton built along it; all automata are
  equally likely.
- **Transition monoid** (`Dfa2Mon`, `Monoids`, `MonoidLaws`, `MonoidIndex`, `TransitionMonoids`): the transformations
  of words, enumerated in the order of their shortest words and indexed by a search tree.

`Automata` holds the shared base: words, complete deterministic automata, epsilon-free nondeterministic automata and
their languages. Letters are numbered from 1 as in the library, and an automaton with `highest_state` h has h + 1
states here.

Records and buffers that the library reaches by pointers are objects and arrays; a ghost field mirrors what they hold,
each write is a small method that keeps field and mirror in step, and the proofs about links, tapes and rotations are
lemmas on the mirrored values. `newbuf` is taken as fresh zeroed memory, `connect` and `testcon` as a set of triples.

## Model

| member | source | states |
|---|---|---|
| `Minimization.Dfamdfa` | libAMoRE/transf/dfamdfa.c:393-435 | for every complete automaton the result accepts the same words, all its states are reachable, no two are equivalent, and no automaton with the same language has fewer states |
| `Automata.ReducedIsMinimal` | libAMoRE/transf/dfamdfa.c:328-389 | an automaton with reachable, pairwise distinguishable states is at most as large as any equivalent one (Myhill and Nerode) |
| `PartitionRefinement.QuotientIsMinimal` | libAMoRE/transf/dfamdfa.c:370-382 | when the blocks are the classes of indistinguishable states, the automaton built on block representatives has the same language and is minimal |
| `PartitionRefinement.BlocksAreClasses` | libAMoRE/transf/dfamdfa.c:409-431 | when nothing is waiting any more, two states share a block exactly if no word tells them apart |
| `PartitionRefinement.FirstPartition` | libAMoRE/transf/dfamdfa.c:153-178 | final and non-final states as first blocks, with both waiting for every letter, satisfy the two refinement invariants |
| `PartitionRefinement.TakeKeepsCovered` | libAMoRE/transf/dfamdfa.c:410-415 | taking an entry from the waiting list keeps: two states of a block that a letter leads to different blocks are witnessed by a waiting entry or by the entry in work |
| `PartitionRefinement.SplitKeepsCovered` | libAMoRE/transf/dfamdfa.c:418-428 | splitting a block and putting in only the smaller half of a pair that is not waiting keeps that invariant (the smaller-half rule) |
| `PartitionRefinement.HitRespectsEquivalence` | libAMoRE/transf/dfamdfa.c:236-263 | the states that a letter leads into a block of a coarse partition are a union of classes of indistinguishable states, so cutting along them never separates equivalent states |
| `PartitionRefinement.StepDone` | libAMoRE/transf/dfamdfa.c:416-431 | when all blocks met by the predecessors are cut, the entry in work is no longer needed |
| `Hopcroft.Minimizer.Refine` | libAMoRE/transf/dfamdfa.c:408-431 | the main loop terminates (states minus blocks, then waiting entries, go down) and leaves blocks that are stable and never separate equivalent states |
| `Hopcroft.Minimizer.ProcessEntry` | libAMoRE/transf/dfamdfa.c:410-430 | one round of the loop keeps the joint invariant of blocks, links, intersections and waiting list, and lowers the termination measure |
| `Hopcroft.Minimizer.CutBlock` | libAMoRE/transf/dfamdfa.c:417-429 | the block is split exactly if one of its members is not hit, and then exactly its hit members move to the new block; otherwise blocks and waiting list stay as they are; the invariants hold for the remaining blocks of `jlist` |
| `Hopcroft.Minimizer.ComputeInverse` | libAMoRE/transf/dfamdfa.c:236-263 | the intersection lists hold exactly the predecessors of the block under the letter, once each, and `jlist` exactly the blocks they meet |
| `Hopcroft.Minimizer.InitStatic` | libAMoRE/transf/dfamdfa.c:145-232 | blocks, inverse, intersection and waiting list are set up; the result says whether all states agree on being final |
| `Hopcroft.Minimizer.MakeNewAutomaton` | libAMoRE/transf/dfamdfa.c:328-389 | the automaton read off the blocks has the same language and is minimal, also when every block is a single state |
| `Hopcroft.BuildInverse` | libAMoRE/transf/dfamdfa.c:181-199 | `inverse[a][q]` lists each predecessor of q under a exactly once |
| `Blocks.Table.Split` | libAMoRE/transf/dfamdfa.c:267-297 | the states x leave block bl and become block nb; the circular lists, `inblock`, `blocksize` and `startblock` again describe one partition |
| `Blocks.Table.InitBlocks` | libAMoRE/transf/dfamdfa.c:153-178 | the two first blocks as circular lists, or the report that one of them is empty |
| `Blocks.CloseChain` | libAMoRE/transf/dfamdfa.c:292-295 | after the moves the chain of moved states closes to a circle and the remaining block is a circle without them |
| `Blocks.MoveOne` | libAMoRE/transf/dfamdfa.c:279-291 | one round of the splitting loop takes one state out of a circular list and appends it to the chain of the new block |
| `CircularLists.Unlink` | libAMoRE/transf/dfamdfa.c:281-284 | relinking the two neighbours of an element leaves a circular doubly linked list of the others |
| `Intersections.Intersection.Add` | libAMoRE/transf/dfamdfa.c:251-260 | a state is pushed on the list of its block, and the block enters `jlist` the first time |
| `WaitingRing.Ring.Put` | libAMoRE/transf/dfamdfa.c:301-324 | in each of the three cases (empty, full, with free cells) the ring of cells holds the old queue with the new entry behind it |
| `WaitingRing.Ring.Take` | libAMoRE/transf/dfamdfa.c:410-414 | the oldest entry is returned and its cell stays in the ring for reuse |
| `WaitingList.Agenda.PutHalves` | libAMoRE/transf/dfamdfa.c:421-427 | for every letter the new block is put in if the old one is waiting or not smaller, and otherwise the old one; the table `inwaiting` mirrors the queue |
| `Reachability.DelStates` | libAMoRE/transf/dfamdfa.c:81-141 | the result is the restriction to exactly the reachable states, each once, has the same language and only reachable states; it is the automaton itself if all states are reachable |
| `Reachability.RestrictionIsExact` | libAMoRE/transf/dfamdfa.c:113-128 | renumbering a closed list of states keeps the language and the reachability of every state |
| `AntichainInclusion.AntichainIsSupersetOf` | libAMoRE++/src/finite_automaton.cpp:475-680 | for automata over the same alphabet the answer is true exactly if L(b) is included in L(a); otherwise the counterexample is in L(b), not in L(a), and no shorter word is; for different alphabets false and the empty word |
| `AntichainInclusion.OneRound` | libAMoRE++/src/finite_automaton.cpp:551-674 | one round finds a counterexample of length k + 1, if there is one, or extends the attractor and keeps its invariants |
| `AntichainInclusion.Round` | libAMoRE++/src/finite_automaton.cpp:636-673 | merging keeps an antichain per state that covers every position from which a word of at most k + 1 letters separates, and schedules only positions whose word has length k + 1 |
| `AntichainInclusion.Complete` | libAMoRE++/src/finite_automaton.cpp:676-679 | when nothing is scheduled, the attractor covers all separating positions of any length, so inclusion holds |
| `AntichainInclusion.NothingShorter` | libAMoRE++/src/finite_automaton.cpp:536-538 | no word up to length k separates as long as no winning position has been met |
| `AntichainInclusion.LevelUp` | libAMoRE++/src/finite_automaton.cpp:558-634 | if all predecessors of the covered positions are covered, covering words of length k gives covering words of length k + 1 |
| `AntichainInclusion.CoveredPredecessor` | libAMoRE++/src/finite_automaton.cpp:570-586 | the predecessors of a larger set cover those of a smaller one, so subsumed positions can be dropped |
| `AntichainInclusion.Extend` | libAMoRE++/src/finite_automaton.cpp:559-634 | all controllable predecessors of the scheduled positions are covered by the new extension, or a winning position is returned |
| `AntichainInclusion.Controllable` | libAMoRE++/src/finite_automaton.cpp:570-584 | exactly the states of a whose successors under the letter all lie in the given set |
| `AntichainInclusion.InsertNew` | libAMoRE++/src/finite_automaton.cpp:603-629 | the extension stays an antichain, and what was covered stays covered |
| `AntichainInclusion.Merge` | libAMoRE++/src/finite_automaton.cpp:636-673 | per state: which positions stay, which are added, which are scheduled, as the comparison with the old attractor says |
| `Antichains.CoverAfterMerge` | libAMoRE++/src/finite_automaton.cpp:646-672 | dropping positions that a newly inserted one supersedes loses no coverage |
| `Antichains.RemoveObsolete` | libAMoRE++/src/finite_automaton.cpp:452-471 | exactly the listed positions are erased, each once |
| `Antichains.Compare` | libAMoRE++/src/finite_automaton.cpp:609-616 | the position is superseded exactly if some kept set includes its set; otherwise the list names the positions it supersedes |
| `FiniteAutomata.SeparatesIff` | libAMoRE++/src/finite_automaton.cpp:684-698 | a word separates the languages exactly if it leads from an initial state of b into a position whose set holds all initial states of a |
| `OrderedSets.SetIncludes` | libAMoRE++/src/set.h:36-59 | the merge of two ordered sets answers true exactly if the second is a subset of the first |
| `OrderedSets.SetWithout` | libAMoRE++/src/set.h:85-112 | the merge returns the ordered set difference |
| `Nfa2Rex.Nfa2Rex` | libAMoRE/transf/nfa2rex.c:243-280 | the postfix string is the text of an expression for exactly the language of the automaton, well formed, of the recorded length, without stars or pluses on stars or pluses; the string spells the tokens of the expression, with one character for every letter of a small alphabet and an `a` with the decimal number for every letter of a large one; it is `%` exactly if the language is empty |
| `Nfa2Rex.Eliminate` | libAMoRE/transf/nfa2rex.c:254-256 | one round of the elimination: the graph on the remaining nodes denotes the same language from the new initial to the new final node |
| `Nfa2Rex.FirstGraphExact` | libAMoRE/transf/nfa2rex.c:41-110 | the labelled graph with the two new nodes denotes the language of the automaton |
| `Nfa2Rex.Eliminator.Init` | libAMoRE/transf/nfa2rex.c:41-110 | the matrix of strings holds the labels of that graph: letter sums, and epsilon from the new initial and to the new final node |
| `Nfa2Rex.Eliminator.DestroyLoops` | libAMoRE/transf/nfa2rex.c:117-145 | the strings of the row become the labels of the graph without the loop, with right lengths; `+` is used where loop and label are equal |
| `Nfa2Rex.Eliminator.DeleteNode` | libAMoRE/transf/nfa2rex.c:153-239 | the strings become the labels of the graph without the node, with right lengths, in all twelve cases of the switch |
| `Nfa2Rex.BypassHolds` | libAMoRE/transf/nfa2rex.c:182-235 | each of the twelve strings that a case writes is the text, of the recorded length, of the union of the old label with the way over the node |
| `LabelledGraphs.LoopRemovalExact` | libAMoRE/transf/nfa2rex.c:112-145 | a graph without the loop of q, its leaving edges prefixed by the starred loop, denotes the same language between later nodes |
| `LabelledGraphs.NodeDeletionExact` | libAMoRE/transf/nfa2rex.c:147-239 | a graph without node q, with the ways over q added as unions, denotes the same language between later nodes |
| `LabelledGraphs.StarThenOne` | libAMoRE/transf/nfa2rex.c:128-131 | the plus that is written when loop and label are equal means the same as star and label |
| `Nfa2Rex.LastLabel` | libAMoRE/transf/nfa2rex.c:259-268 | the label between the two new nodes denotes the language of the automaton |
| `Nfa2Rex.WellFormedNonempty` | libAMoRE/transf/nfa2rex.c:265-274 | an expression without `%` has a nonempty language, so `%` is written only for the empty one |
| `Notation.TextInjective` | libAMoRE/transf/nfa2rex.c:129 | equal strings mean equal expressions, so comparing labels as strings is right, in both notations of letters |
| `Notation.NumberedLetter` | libAMoRE/transf/nfa2rex.c:54-80 | a letter of a large alphabet is written as an `a` and its number, in decimal digits without leading zeros |
| `Notation.TextSpelled` | libAMoRE/transf/nfa2rex.c:46-85 | every text consists of the spellings of its tokens, one after the other |
| `Rex2Nfa.Rex2Nfa` | libAMoRE/transf/rex2nfa.c:355-522 | for every postfix string without `%`, also one that mixes both notations of letters: the automaton accepts the expression that is left when a star or plus on a star or plus is dropped; if no star stands on a plus that cannot be empty, it accepts the language of the expression itself |
| `PostfixReader.TextExpression` | libAMoRE/transf/rex2nfa.c:390-470 | a string that `nfa2rex` can write, in either notation of letters, can be read and stands for the expression it was written for |
| `RoundTrip.ThereAndBack` | libAMoRE/transf/rex2nfa.c:355-522 | the automaton read back from the expression of an automaton with a nonempty language accepts the original language |
| `MarkedExpressions.LocalLanguage` | libAMoRE/transf/rex2nfa.c:241-257 | an expression in which every position occurs once is described by its empty word and its first, last and follow sets |
| `FollowAutomata.FollowNfaExact` | libAMoRE/transf/rex2nfa.c:342-353 | the automaton with the positions as states and the follow pairs as transitions accepts the language of the expression with the letters put back |
| `Rex2Nfa.Translator.CompLast` | libAMoRE/transf/rex2nfa.c:94-139 | the prefix form is written below the cursor, exactly the last positions become final, and the result tells whether the empty word belongs to the language |
| `Rex2Nfa.Translator.CompFirst` | libAMoRE/transf/rex2nfa.c:155-196 | reading one expression over skip marks and jumps adds exactly the transitions from `constate` to its first positions and stops behind it |
| `Rex2Nfa.Translator.GetExpr` | libAMoRE/transf/rex2nfa.c:203-237 | one postfix expression is copied to the tape in prefix form |
| `Rex2Nfa.Translator.CompFF` | libAMoRE/transf/rex2nfa.c:259-340 | exactly the transitions follow(e) and last(e) x first(f) are added, e is left on the tape in prefix form, nothing at or above the cursor changes, and the reserved tape suffices |
| `Rex2Nfa.Translator.FollowConcat` | libAMoRE/transf/rex2nfa.c:282-293 | the left operand is computed against the right operand joined with what follows, and the marks are turned into places to be passed over |
| `Rex2Nfa.Translator.FollowStar` | libAMoRE/transf/rex2nfa.c:294-322 | the expression under the star is computed against its own copy united with what follows; a star anywhere in the run overwrites a plus |
| `ExpressionTapes.RoomEnough` | libAMoRE/transf/rex2nfa.c:359-361 | the reserved length is enough for what stays on the tape and for the parts while they are computed, so the tape is never written below index 0 |
| `ExpressionTapes.ReadsJoined` | libAMoRE/transf/rex2nfa.c:285-289 | a piece that ends with a jump and the expression behind the jump are read as one expression |
| `PostfixReader.ReadPostfix` | libAMoRE/transf/rex2nfa.c:390-470 | reading the characters of a string in either notation of letters, or in a mixture, gives one marked expression with positions numbered in order, its letters, and the reserved lengths |
| `PostfixReader.ReadingDone` | libAMoRE/transf/rex2nfa.c:431-440 | what has been read is the expression without the dropped stars and pluses, letter for letter |
| `PostfixReader.Reader.CountExpr` | libAMoRE/transf/rex2nfa.c:203-237 | the length grows by the weight of the expression under a star or plus |
| `StackedStars.SameEverywhereExact` | libAMoRE/transf/rex2nfa.c:434-439 | dropping a star or plus on a star or plus keeps the language of an expression and of all its parts exactly if no star stands on a plus that cannot be empty |
| `StackedStars.SquashIncluded` | libAMoRE/transf/rex2nfa.c:434-439 | dropping never adds words |
| `StackedStars.DroppedStar` | libAMoRE/transf/rex2nfa.c:434-439 | the expression `a+*` loses the empty word |
| `StackedStars.NotMissed` | libAMoRE/transf/rex2nfa.c:434-439 | for the whole expression alone the condition is only sufficient: the union of `a+*` with the empty word keeps its language |
| `Nfa2Dfa.Nfa2Dfa` | libAMoRE/transf/nfa2dfa.c:342-374 | the automaton is deterministic and complete, accepts the same words, and its states stand one to one for the sets of states that words reach, also without initial states |
| `Subsets.SubsetDfaExact` | libAMoRE/transf/nfa2dfa.c:250-270 | an automaton whose states are the reached sets, with successor sets as transitions, accepts the language, and all its states are reachable |
| `Nfa2Dfa.Builder.CompNewStates` | libAMoRE/transf/nfa2dfa.c:251-312 | the construction terminates with all rows filled: every entry is the number of the union of successors |
| `Nfa2Dfa.Builder.LookUp` | libAMoRE/transf/nfa2dfa.c:298-308 | a new set gets the next number and goes on the stack, a known one is wiped out; the number returned belongs to the collected set |
| `Nfa2Dfa.Builder.Successor` | libAMoRE/transf/nfa2dfa.c:289-296 | the record collects exactly the successors, and is final exactly if one of them is |
| `Nfa2Dfa.Builder.CpInfo` | libAMoRE/transf/nfa2dfa.c:318-340 | the traversal visits every record once, in the order of the keys, and copies its row and final mark |
| `Nfa2Dfa.SetsBound` | libAMoRE/transf/nfa2dfa.c:310 | there are at most two to the power of the number of states different sets |
| `SearchTrees.SearchTree.Search` | libAMoRE/transf/nfa2dfa.c:132-248 | true exactly if the set is in the tree, and then `knownelem` holds it; otherwise exactly this record is added; the tree stays in search order, its balance factors are the height differences, and these are at most one |
| `SearchTrees.SearchTree.Descend` | libAMoRE/transf/nfa2dfa.c:145-182 | the way down ends at the record with the set, or at the place where the record is linked; `rebal` is the last node on the way that is not even, or the root |
| `SearchTrees.SearchTree.Adjust` | libAMoRE/transf/nfa2dfa.c:184-200 | every node between `rebal` and the new record leans to the side of the new record |
| `SearchTrees.SearchTree.Balance` | libAMoRE/transf/nfa2dfa.c:202-246 | by the new balance factor, a single or a double rotation the subtree at `rebal` is brought back into balance and linked to its father |
| `BalancedTrees.RebalancedBalanced` | libAMoRE/transf/nfa2dfa.c:202-240 | restoring the balance at a node whose subtree has grown gives a balanced tree of the old height, except at an even node, which grows |
| `BalancedTrees.RebalancedSame` | libAMoRE/transf/nfa2dfa.c:208-233 | rotations keep the keys in order and the nodes |
| `BalancedTrees.TiltedGrows` | libAMoRE/transf/nfa2dfa.c:192-200 | a tree whose nodes on the way are even grows by one and stays balanced when these nodes lean to the way |
| `BalancedTrees.PlugBalanced` | libAMoRE/transf/nfa2dfa.c:207-246 | a subtree of the same height in the same place keeps the whole tree balanced |
| `SearchTrees.Cmp` | libAMoRE/transf/nfa2dfa.c:116-129 | the comparison tells which of two sets comes first in a linear order, and equality exactly for equal sets |
| `PreStar.ShortestRun` | libmVCA/src/mVCA.cpp:194-228 | a run is reported exactly if some run from the given states and counter into the targets never counts up from the bound; the word returned is a run, read by the transitions that passes over all rules add, each rule once and in the lexicographic order of level, state, letter and next state; without a run the word is empty; if no rule of the level bound climbs, a run is reported exactly if there is one; under the condition `Favourable` on rules and targets no such run is shorter |
| `SaturationOrders.OrdersExact` | libmVCA/src/p-automaton.cpp:245-253 | in whatever order the rules are applied, the test that keeps a transition never turns down a shorter word, exactly if every way to a transition that does not use it on the way to itself is a shortest one |
| `SaturationOrders.RankedShortest` | libmVCA/src/p-automaton.cpp:220-277 | rules that all go down by one in a ranking of the states meet this condition, whatever is asked for |
| `SaturationOrders.RunLeast` | libmVCA/src/p-automaton.cpp:287-315 | when no rule finds a shorter word for a transition that is there, what the transitions read is as short as any run into an added configuration that never counts up from the bound |
| `SaturationOrders.SaturatedNeverShorter` | libmVCA/src/p-automaton.cpp:230-277 | the order of levels, states, letters and targets, pass after pass, is one of the orders; so after saturation no rule finds a shorter word if the condition holds |
| `CounterAutomata.LowEnough` | libmVCA/src/p-automaton.cpp:161-198 | the saturation misses no run between any two configurations exactly if no rule of the level bound counts up and, with bound 0, none moves the counter |
| `SaturationExamples.NotShortest` | libmVCA/src/p-automaton.cpp:230-277 | for six rules, after any number of passes in the order of the code, the only word from 4 to 0 has four letters where two are enough |
| `SaturationExamples.AskDetour` | libmVCA/src/mVCA.cpp:194-228 | asked for a shortest run of this automaton the call answers with four letters; the automaton does not meet the condition |
| `SaturationExamples.NotNeeded` | libmVCA/src/p-automaton.cpp:245-253 | an automaton that does not meet the condition although every answer is a shortest run: the transition with the longer word is never asked for |
| `PreStar.PAutomaton.SaturatePreStar` | libmVCA/src/p-automaton.cpp:200-285 | the saturation terminates, every transition keeps meaning a derivation, afterwards no rule adds a transition, and the transitions are those of passes over all rules |
| `PreStar.PAutomaton.Pass` | libmVCA/src/p-automaton.cpp:232-275 | there is a strictly increasing sequence of exactly the rules that do not count below 0, ordered by level, state, letter and next state, and a sequence of tables between the old and the new one in which each step is the application of one rule |
| `SaturationExamples.AskLevels` | libmVCA/src/p-automaton.cpp:232-275 | for an automaton with two ways the call answers with the short one, because levels are taken upward and letters in their order |
| `PreStar.PAutomaton.AddAcceptingConfiguration` | libmVCA/src/p-automaton.cpp:120-159 | exactly this configuration is added, by a path over the next new states that reads its stack to a new final state; one that has been added before changes nothing |
| `PreStar.PAutomaton.GetShortestValidRun` | libmVCA/src/p-automaton.cpp:287-315 | a run is found exactly if the configuration can reach an added one without counting up from the bound; the word returned is such a run, no shorter one can be read off the transitions, and no such run is shorter if no rule finds a shorter word for a transition that is there |
| `PreStar.PAutomaton.RunTransitionAccumulate` | libmVCA/src/p-automaton.cpp:471-507 | exactly the states that the stack leads to, each with a shortest of the words of its paths |
| `PreStar.PAutomaton.ApplyRule` | libmVCA/src/p-automaton.cpp:239-277 | exactly the transitions that the rule yields for paths that read what it leaves are added, each with the letter and a shortest word of such a path; what was there is kept; nothing changes exactly if the rule was closed |
| `Saturation.LowRunFound` | libmVCA/src/p-automaton.cpp:208-218 | every run into an added configuration without counting up from the bound is read by saturated transitions |
| `Saturation.FoundRunLow` | libmVCA/src/p-automaton.cpp:208-218 | a path that reads the stack of a configuration has a run of the counter automaton behind it, with the accumulated word |
| `SaturationExamples.MissedRun` | libmVCA/src/p-automaton.cpp:161-198 | for an automaton with bound 1 whose only run counts up from the bound, the configuration reaches the target but is not found |
| `CounterAutomata.DerivesLow` | libmVCA/src/p-automaton.cpp:161-198 | a derivation of the pushdown system between stacks of counter values is a run of the counter automaton that never counts up from the bound; behind such a step the stack is stuck |
| `CounterAutomata.ConfigStep` | libmVCA/src/p-automaton.cpp:161-198 | on the stack of a counter value the replacement of the top is the step of the counter, except when counting up from the bound |
| `CounterAutomata.ConfigInjective` | libmVCA/src/p-automaton.cpp:409-434 | different counter values have different stacks |
| `CounterInclusion.LangSubsetOf` | libmVCA/src/mVCA.cpp:418-450 | for two deterministic automata over the same letters: the answer is no exactly if some word drives the completed first automaton to a final state and the completed second one to a state that is not final, with the counter never above the larger bound and 0 at the end; the counterexample is such a word; with a bound that is not 0 or without letters that count down these are the words of the first and not of the second within the bound, and if the first has no rule that counts up from its bound the answer is that of inclusion |
| `CounterInclusion.RightExact` | libmVCA/src/mVCA.cpp:418-450 | the answer is that of inclusion for every second automaton with no larger bound exactly if the counter of all accepted words of the first stays within its bound |
| `CounterInclusion.ReachExact` | libmVCA/src/mVCA.cpp:430-449 | a configuration that accepts in the first and not in the second can be reached in the product without counting up from its bound exactly if a word within the bound splits the two automata |
| `CounterInclusion.SplitsSeparates` | libmVCA/src/mVCA.cpp:424-449 | where completion keeps the languages, a word splits the completed automata exactly if it is a word of the first and not of the second |
| `CounterInclusion.CompleteAutomaton` | libmVCA/src/mVCA.cpp:359-385 | rules to a sink are added exactly where a state has none for a letter and the level does not get below 0; the sink is the first one that is there, or a new state if there is none |
| `CounterInclusion.CompletionLanguage` | libmVCA/src/mVCA.cpp:359-385 | completion keeps the language, if the bound is not 0 or no letter counts down |
| `CounterInclusion.SinkLeft` | libmVCA/src/mVCA.cpp:387-416 | with the bound 0 a state is taken for a sink although it can be left with a larger counter; completion then adds a word to an empty language |
| `CounterInclusion.FindSink` | libmVCA/src/mVCA.cpp:387-416 | the first state that is not final and that no rule leaves, as far as levels do not get below 0, or -1 if there is none |
| `CounterProducts.ProductDrives` | libmVCA/src/mVCA.cpp:327-350 | the product is driven from a pair to a pair by exactly the words that drive both automata, with the same counter, also above the smaller bound |
| `CounterProducts.Crossproduct` | libmVCA/src/mVCA.cpp:291-353 | the loops, with two levels that stop at their bounds, add exactly the pairs of rules with the same letter at the same counter |
| `CounterProducts.LangIntersect` | libmVCA/src/mVCA.cpp:513-526 | the product with the pairs of final states accepts exactly the words that both accept |
| `CounterLanguages.GetBoundedBehaviourGraph` | libmVCA/src/mVCA.cpp:263-289 | the finite automaton over numbered pairs of counter and state accepts exactly the accepted words whose counter stays within the bound |
| `CounterLanguages.GraphRuns` | libmVCA/src/mVCA.cpp:273-288 | between numbered pairs the graph reads exactly the words that drive one configuration to the other within the bound |
| `RightQuotient.RightQuot` | libAMoRE/transf/binary.c:303-374 | the automaton accepts w exactly if some word v of the second automaton makes wv a word of the first |
| `RightQuotient.Decide` | libAMoRE/transf/binary.c:335-371 | a state becomes final exactly if some word leads from it and from the initial state of the second automaton to final states; the marks left behind are again exactly the hopeless pairs |
| `RightQuotient.Search` | libAMoRE/transf/binary.c:341-361 | the search stops at a pair of final states, or with a list of pairs that is closed up to pairs known to be hopeless |
| `RightQuotient.FailedSearch` | libAMoRE/transf/binary.c:362-370 | no pair of a failed search can reach a pair of final states, so it may be marked for later searches |
| `RightQuotient.QuotientState` | libAMoRE/transf/binary.c:335-371 | a word is in the quotient exactly if the state it leads to and the initial state of the second automaton can meet in final states |
| `RightQuotient.Reset` | libAMoRE/transf/binary.c:364-370 | the marks of the search are replaced: by the memory of failure, or by nothing |
| `Dfa2Mon.Dfa2Mon` | libAMoRE/transf/dfa2mon.c:75-212 | the tables are a complete enumeration of the transition monoid by generators; every generator is the first letter with its transformation; `mequals` tells whether a word that is not empty acts as the identity; `zero` is the zero or the number of elements |
| `MonoidLaws.ElementsAreWordMaps` | libAMoRE/transf/dfa2mon.c:142-165 | the elements are exactly the transformations of words, each of them once |
| `MonoidLaws.RepLeastWord` | libAMoRE/include/amore/mon.h:180 | the word stored for an element, written in letters, is the shortlex-least of all words with its transformation |
| `MonoidLaws.RepLeast` | libAMoRE/ldo/mon.c:186-197 | the word read back from `gensucc[.][0]` and `lastletter` is the shortlex-least word of generators with its transformation |
| `MonoidLaws.ProductMonoid` | libAMoRE/ldo/mon.c:200-208 | multiplication is associative, with element 0 as identity |
| `MonoidLaws.ProductExact` | libAMoRE/ldo/mon.c:200-208 | following the representative of b from a gives the element whose transformation is that of a followed by that of b |
| `MonoidLaws.ZeroByGenerators` | libAMoRE/transf/dfa2mon.c:196-208 | an element is the zero exactly if it absorbs every generator on both sides |
| `MonoidLaws.IdentityAgainExact` | libAMoRE/transf/dfa2mon.c:130-162 | some word that is not empty acts as the identity exactly if a letter does or a product of an element with a generator is the identity |
| `Dfa2Mon.Construct` | libAMoRE/transf/dfa2mon.c:143-165 | the loop over the growing list terminates with all products filled in; it reports whether a product is the identity |
| `Dfa2Mon.FindGenerators` | libAMoRE/transf/dfa2mon.c:110-141 | generators are the different transformations of letters other than the identity, each with its first letter; every letter knows its generator |
| `Dfa2Mon.FindZero` | libAMoRE/transf/dfa2mon.c:196-210 | the search stops at the zero, or with the number of elements if no element is one |
| `Dfa2Mon.ZeroExact` | libAMoRE/transf/dfa2mon.c:196-210 | the number found is that of the only zero, or there is none |
| `TransitionMonoids.NewElement` | libAMoRE/transf/dfa2mon.c:150-160 | appending an element found at (a, g) keeps: elements are different, come from earlier ones, and are found in the order of the table |
| `MonoidIndex.Index.SearchTrans` | libAMoRE/transf/dfa2mon.c:40-71 | the record of the transformation is found, or a new record is linked where it belongs in the search tree |
| `MonoidIndex.InsertLinked` | libAMoRE/transf/dfa2mon.c:54-69 | setting one link makes the records represent the tree with the new leaf |
| `MonoidIndex.MapsBound` | libAMoRE/transf/dfa2mon.c:144 | there are at most n to the power n different transformations of n states |
| `Monoids.Monoid.CompWord` | libAMoRE/ldo/mon.c:188-197 | the representative is written into the buffer from the end, and the buffer is long enough |
| `Monoids.Monoid.Mult` | libAMoRE/ldo/mon.c:200-208 | the loop computes the product |
| `Monoids.Monoid.CompRestOfMon` | libAMoRE/ldo/mon.c:211-248 | from the products alone the predecessors, last generators, transformations and lengths of the monoid are rebuilt as they were |
| `EpsilonClosure.EpsClosure` | libAMoRE/transf/enfa2nfa.c:39-79 | the two matrices taken in turns end with exactly the pairs of states that epsilon moves connect |
| `EpsilonClosure.ViaExact` | libAMoRE/transf/enfa2nfa.c:64-76 | ways put together at one more state in each round are, after all states, the epsilon moves of any number |
| `Enfa2Nfa.Enfa2Nfa` | libAMoRE/transf/enfa2nfa.c:84-138 | the letter moves entered in place are exactly those that start in a row not after, or end in a column not after, their own; no word is added; if no move is missed the language is kept, and without epsilon moves always |
| `Enfa2Nfa.EnterMove` | libAMoRE/transf/enfa2nfa.c:130-137 | one place of the table: the move is entered exactly if it is one of the found ones, given that earlier places are final and later ones untouched |
| `Enfa2Nfa.FoundOver` | libAMoRE/transf/enfa2nfa.c:131-136 | a found move is found over a state whose own move is known or has been entered before |
| `Enfa2Nfa.OverFound` | libAMoRE/transf/enfa2nfa.c:131-136 | a move entered over some state is a found one |
| `Enfa2Nfa.MissedExact` | libAMoRE/transf/enfa2nfa.c:120-137 | the moves found accept the same words that are not empty, from every state and for every choice of final states, exactly if no move over epsilon moves is missed |
| `Enfa2Nfa.MonotoneEnough` | libAMoRE/transf/enfa2nfa.c:120-137 | no move is missed if all epsilon moves go to smaller numbers, or all to larger ones |
| `Enfa2Nfa.ResultLanguage` | libAMoRE/transf/enfa2nfa.c:112-137 | the result never accepts a word that the automaton with epsilon moves does not, and accepts all its words if no move is missed |
| `Enfa2Nfa.MarkFinal` | libAMoRE/transf/enfa2nfa.c:112-119 | exactly the initial states with epsilon moves to a final state become final, whatever has been marked before |
| `Enfa2Nfa.LostWord` | libAMoRE/transf/enfa2nfa.c:127-137 | for four states, two epsilon moves and one letter move the only word of the automaton is lost |
| `ShortestRuns.ShortestRun` | libAMoRE++/src/nondeterministic_finite_automaton.cpp:439-501 | a word is returned exactly if some word leads from one of the states to a target, it leads to a target, and no word that does is shorter; otherwise the empty word |
| `ShortestRuns.WayCovered` | libAMoRE++/src/nondeterministic_finite_automaton.cpp:471-496 | every way ends in a visited state whose word is not longer, or a waiting run is not longer than the way |
| `ShortestRuns.Pushed` | libAMoRE++/src/nondeterministic_finite_automaton.cpp:471-496 | a run with the same length in front, or with one letter more behind, keeps the queue sorted with a spread of at most one |
| `ShortestRuns.Popped` | libAMoRE++/src/nondeterministic_finite_automaton.cpp:454-463 | taking the first run, of a visited state or not, keeps everything around visited states remembered |
| `ShortestRuns.GetSampleWord` | libAMoRE++/src/nondeterministic_finite_automaton.cpp:510-529 | empty is reported exactly if no word is accepted; otherwise the word is accepted and no accepted word is shorter |
| `ShortestRuns.SampleExact` | libAMoRE++/src/nondeterministic_finite_automaton.cpp:516-526 | the labels on ways from initial to final states, with epsilon moves left out, are exactly the accepted words |
| `NormalForms.PrefixNormalForm` | libalf/src/normalizer_msc.cpp:204-238 | bottom is returned exactly for words with an unknown label; otherwise the word is what a complete order of the chart spells in which every event is a best one of those that wait for nothing; if every receive event has its message, of all such words that look the same to every process it is the one that comes first: at the first difference it has a receive event for a send event, or the smaller number |
| `Charts.NormalFormCanonical` | libalf/src/normalizer_msc.cpp:204-238 | for words in which every receive event has its message, two normal forms are equal exactly if every process sees the same events in both words |
| `Charts.NormalFormIdempotent` | libalf/src/normalizer_msc.cpp:204-238 | a normal form is its own normal form |
| `Charts.NormalFormFirst` | libalf/src/normalizer_msc.cpp:416-437 | the normal form has the same events for every process and all messages, and at the first place where another such word differs it has a receive event for a send event, or the smaller number of two of a kind |
| `Charts.SwapKeeps` | libalf/src/normalizer_msc.cpp:204-238 | exchanging neighbours of different processes, of which the second does not receive what the first sends, keeps the normal form |
| `Charts.NormalFormSides` | libalf/src/normalizer_msc.cpp:216-223 | the normal form is a linearisation: every process sees the same events in the same order as in the word |
| `Charts.NormalFormReceived` | libalf/src/normalizer_msc.cpp:216-223 | in the normal form every message is received after it is sent |
| `Charts.LinkedMessage` | libalf/src/normalizer_msc.cpp:313-343 | when every receive event has its message, it is linked to the send event with the same number among those of its kind |
| `Charts.MinimalReady` | libalf/src/normalizer_msc.cpp:416-419 | a node without incoming edges is exactly the next event of its process whose message is sent |
| `NormalForms.Msc.GraphAddNode` | libalf/src/normalizer_msc.cpp:279-344 | the new node is connected to the youngest of its process and to the oldest send event of its kind that nobody has received, in both directions |
| `NormalForms.LastFreeOk` | libalf/src/normalizer_msc.cpp:291-311 | the youngest node of a process that is not connected is the event before in this process |
| `NormalForms.Msc.GraphReduce` | libalf/src/normalizer_msc.cpp:409-477 | the node taken off is a best one without incoming edges, and its edges are cut |
| `NormalForms.Msc.FindExtrema` | libalf/src/normalizer_msc.cpp:413-437 | the loop finds a best one of the nodes without incoming edges, and there always is one |
| `RandomAutomata.EquallyLikely` | liblangen/include/liblangen/dfa_randomgenerator.h:26-28 | every outcome of the random draws has the same chance, one in the number of outcomes |
| `RandomAutomata.ExactlyOnce` | liblangen/include/liblangen/dfa_randomgenerator.h:26-28 | every complete automaton whose states can all be reached is, up to the names of its states, the automaton of exactly one outcome |
| `RandomAutomata.BuiltReachable` | liblangen/src/dfa_randomgenerator.cpp:157-241 | whatever is drawn, the automaton is complete, has the number of states asked for, and all of them can be reached |
| `RandomGenerator.Generator.Generate` | liblangen/src/dfa_randomgenerator.cpp:157-241 | false exactly for less than two letters or less than one state; otherwise the transitions and final states are those of the automaton of the drawn outcome, whose depth-first visit meets the states in the order of their numbers; the transitions to states met before lead to the first random numbers, in the order of the visit, each when as many states have been met as the sequence says; a state is final exactly if its random number is not 0 |
| `Visits.BuiltVisited` | liblangen/src/dfa_randomgenerator.cpp:190-227 | following the labels upward and entering a state exactly when it is new, the visit of the finished automaton meets 0, 1, .. in order, and the other transitions lead to the drawn numbers |
| `RandomGenerator.OutcomeDrawn` | liblangen/src/dfa_randomgenerator.cpp:157-241 | the numbers of the two random sources, one after the other, lead through all draws to the outcome that the automaton is built for |
| `RandomGenerator.Build` | liblangen/src/dfa_randomgenerator.cpp:168-227 | the loop with its two stacks ends with all transitions of the automaton, and no stack is read when it is empty |
| `RandomGenerator.NextLeaf` | liblangen/src/dfa_randomgenerator.cpp:193-227 | one round adds the new states that the sequence asks for and one transition to a known state |
| `RandomGenerator.AddStates` | liblangen/src/dfa_randomgenerator.cpp:195-210 | the inner loop adds transitions to new states, one below the other, until there are as many states as the sequence says |
| `RandomSequences.RandomElementOfK` | liblangen/src/dfa_randomgenerator.cpp:107-145 | the recursion returns the sequence that the numbers drawn lead to |
| `RandomSequences.ChanceExact` | liblangen/src/dfa_randomgenerator.cpp:107-145 | the chance of a sequence is the number of ways to choose the targets of its leaves, out of the entry of the table |
| `RandomSequences.FollowIsK` | liblangen/src/dfa_randomgenerator.cpp:107-145 | whatever is drawn, the sequence does not fall, stays below the number of states, and keeps up with its positions |
| `RandomSequences.FirstTotal` | liblangen/src/dfa_randomgenerator.cpp:121-133 | counting down from a random number gives x for exactly x of the numbers |
| `RandomSequences.FirstBetween` | liblangen/src/dfa_randomgenerator.cpp:124-131 | counting down ends at the number whose triangle the random number falls into |
| `RandomSequences.DrawDecides` | liblangen/src/dfa_randomgenerator.cpp:134-143 | the first draw decides the last number of the sequence: it is the largest exactly if the draw is not below the number of ways with smaller numbers |
| `RandomSequences.Table.GetElement` | liblangen/src/dfa_randomgenerator.cpp:52-72 | the entry found or computed is that of the recurrence, and only such entries are kept |
| `RandomSequences.CountExact` | liblangen/src/dfa_randomgenerator.cpp:61-68 | the entry of the table is the number of ways to choose a sequence and the targets of its leaves |
| `RandomSequences.AllKExact` | liblangen/src/dfa_randomgenerator.cpp:61-68 | the sequences counted by the recurrence are exactly those that do not fall and keep up with their positions |
| `DepthFirst.Unique` | liblangen/src/dfa_randomgenerator.cpp:190-227 | automata written down by different targets or final states are different, even up to the names of their states |
| `DepthFirst.Written` | liblangen/src/dfa_randomgenerator.cpp:190-227 | every complete automaton whose states can all be reached is written down by targets in depth-first order |
| `DepthFirst.OpenExact` | liblangen/src/dfa_randomgenerator.cpp:190-227 | a transition is still to come exactly as long as there are fewer targets than transitions of the known states |
| `RandomAutomata.CompleteDrawn` | liblangen/src/dfa_randomgenerator.cpp:190-227 | the targets of a complete automaton come from a sequence that can be drawn |
| `RandomAutomata.SizesOfTargets` | liblangen/src/dfa_randomgenerator.cpp:190-227 | the targets of the transitions tell the sequence and the targets of the leaves they were built from |

## Left out

- Allocation and release (`freebuf`, `dispose`, the `freeaut` flag and the copy or reuse of the input automaton), machine-integer overflow and the reuse of stack cells in `nfa2dfa.c` (the stack is a sequence).
- `dfamdfa.c`: the variant that returns the map from old to new states (`with`) and skips the deletion of unreachable states.
- `finite_automaton.cpp`: epsilon transitions, which the algorithm does not support; `obsolete.unique()`, because a duplicate in the list of obsolete positions only makes a later erase find nothing; debug output.
- AntichainInclusion.AntichainIsSupersetOf: the multimap is a sequence of buckets, one for every state, and the words are sequences.
- `nfa2rex.c`: the infix form of the result (`infix`), and the size of the buffer for numbers.
- StackedStars.SameEverywhereExact: the condition is exact for an expression together with all its parts; for the whole expression alone it is sufficient (`StackedStars.NotMissed`).
- Reachability.DelStates: the order in which the reachable states are numbered is left out.
- Rex2Nfa.Rex2Nfa: that `%` does not occur is a precondition, because its characters are not copied and `complast` would read before the start of the array; the letter `A` for the whole alphabet is left out because no expression of `nfa2rex` holds it.
- PostfixReader.ReadPostfix: the letter `A` for the whole alphabet is left out, for the reason given for `Rex2Nfa.Rex2Nfa`.
- Rex2Nfa.Translator.CompFF: the loop over digits is left out, because the postfix form it reads never holds a digit.
- `rex2nfa.c`: one recursive function with a flag, `getexpr`, is two methods here, one that copies and one that counts.
- SearchTrees.Cmp: a set of states is a sequence of booleans that is compared element by element; the bytes of the bitmap, whose order is another linear order, are left out.
- Nfa2Dfa.Nfa2Dfa: the variant that returns the sets (`with`) is left out; the ghost result `sets` says the same.
- PreStar.ShortestRun: the comment table in `p-automaton.cpp` (line 181) gives `m_bound, m_bound` for counting up from the bound, the code pushes `m_bound + 1, m_bound`, a symbol without rules; the model follows the code, so exactly the runs without such a step are found (`SaturationExamples.MissedRun`, `CounterAutomata.LowEnough`). `mVCA.h` (line 133) promises a shortest run, and the code does not keep that promise: with rules that stay at the counter 0, from 1 to 0, 2 to 1, 3 to 2, 4 to 3, 4 to 5 and 5 to 0, it answers with four letters from 4 to 0 where two are enough (`SaturationExamples.AskDetour`, `NotShortest`). A transition keeps its first word; that no order of the rules turns down a shorter one is equivalent to the condition `SimpleShortest` (`SaturationOrders.OrdersExact`), and under this condition, here called `Favourable`, the answer is a shortest run. For the answers the condition is not necessary, because a word that is too long may belong to a transition that no answer needs (`SaturationExamples.NotNeeded`), or be hidden by another way that is as short; an equivalence for the answers would have to compare whole tables instead of ways.
- PreStar.PAutomaton.GetShortestValidRun: shortest among all runs only if no rule finds a shorter word for a transition that is there, for the same reason.
- `p-automaton.cpp`: the flags `valid` and `saturated` (the second is never set), and the drawing of the automaton.
- CounterInclusion.LangSubsetOf: `mVCA.cpp` (line 418) answers the question of inclusion without a condition; words whose counter rises above the larger bound are not looked at, because the saturation misses their runs, and with the bound 0 completion can change the language (`CounterInclusion.SinkLeft`). `RightExact` says when the first does not matter. Automata are values here, the library completes them in place; `lang_equal` and `lang_disjoint_to` do the same with other targets and would only add easy members.
- `binary.c`: the list of pairs is a sequence; the other binary operations would only add easy members.
- Enfa2Nfa.Enfa2Nfa: the comment in `enfa2nfa.c` (lines 120-126) promises all letter moves with epsilon moves before and after; the loop works in place and can miss one (`Enfa2Nfa.LostWord`), so the language is kept under the condition `NothingMissed`. For one choice of initial and final states the condition is sufficient, for all choices of final states and all states to start from it is exact (`Enfa2Nfa.MissedExact`).
- `nfa2mnfa.c` and its helpers (a search for a smallest nondeterministic automaton), `mon2dcl.c`, `mon2rel.c` and `mon2sfx.c` (the classes, relations and star-free expressions of a monoid), `genrex2nfa.c` (generalized expressions).
- Dfa2Mon.Dfa2Mon: an element of the list (`melement`) is a number, and its fields are sequences indexed by it; the buffer `repr` for printing is left out.
- Monoids.Monoid.CompRestOfMon: the tables are read from a file before the call; here the products are those of some monoid, and this monoid is rebuilt.
- NormalForms.Msc.GraphReduce: the test whether a bounded buffer has room (`check_buffer`) is left out, as are such buffers.
- NormalForms.PrefixNormalForm: a node of the graph (`msc_node`) is a number, and its links are sequences indexed by it; buffers with a bounded length and the suffix normal form are left out. That normal forms are canonical is stated for orders with different numbers whose parity says which label of a message sends it.
- RandomGenerator.Generator.Generate: random numbers are inputs, and a draw gives every number below its limit the same chance; how `prng.cpp` gets them, by rounding in `random_int`, is left out, as is `discard_tables`. After the last leaf the source moves a list iterator beyond the end, which C++ leaves undefined; the model takes it to differ from the end. `t_is_dfa`, the two sizes and the initial state 0 are constants of the result.
- Parsing of infix expressions, generalized expressions, error messages, input and output, statistics, bindings.
- Union, complement, reversal and similar constructions on automata: they would only add easy members.
