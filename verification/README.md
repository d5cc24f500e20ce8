# Verified models of INET and Simu5G core algorithms

This project models the self-contained algorithms below INET's simulation code, and one container of Simu5G, and proves what they promise.
`dafny verify dfyconfig.toml` checks everything; it needs Dafny 4.11 and no other files.

**Interval tree** (`IntervalTreeShape`, `IntervalTreeBalance`, `IntervalTreeQuery`, `IntervalTree`). A red-black tree over a heap of nodes with parent links, the sentinels `nil` and `root`, and the augmentation `max_high`. Class `IntervalTree` has the source's fields and pointer assignments; next to them it keeps a ghost tree. `Whole(heap, context, tree)` says that the node heap holds the given subtree inside the given surroundings, so every pointer operation is proved to be an operation on the focused subtree, and balance, order and maxima are proved about values. `Query` has the source's growing stack of `try_right_branch` and `parent_index` records; its result is `Search`, the recursive form of the same pruning, and `Search` is a scan of all nodes.

**State machines** (`MachoStates`, `Macho`). The engine of Macho for an arbitrary finite tree of states. User code is an arbitrary function from everything that has been called so far to requests (new states with one of four initializers, events, clearing of history); a failed assertion of the source ends a run with the result `false`. The log of calls is compared with the hierarchy by `Open`, which replays entries and exits, and `BoxesKept`, which says what boxes the entries may see; `Happened` is a sequence of transitions with user calls between them. `Course` is the engine as a transition system: right steps between situations (current state, what is pending, log, histories), each one a transition, an event handled, or an input while nothing is pending; `Polite` is user code that needs no knowledge of what is pending to keep the rules.

**128-bit integers** (`MachineWords`, `Int128`). Two machine words, with every wrap-around written out by `U` and `S`; `Value` is the integer they denote.

**Initialization stages** (`InitStageOrder`, `InitStageRegistry`). Stage objects that are linked, numbered in passes and sorted; `Numbering` is the same on names.

**Bit streams** (`BitStrings`, `BitMasks`, `MisplacedBytes`, `MemoryOutputStream`, `MemoryInputStream`, `MemoryStreams`). Byte vectors that hold bits, most significant first. `Bits` is the abstract stream; next to it the output stream keeps the bits that its calls should have written (`intended`) and whether one of them has put bits in wrong places (`spoilt`). `Spoilt` says where the wrong bits are, so that no later call can repair them.

**Message dispatchers** (`DispatcherNetwork`, `DispatcherCircuits`, `MessageDispatcher`). Dispatchers with their gates as a graph; a registration is the recursive flood through the handlers, over the actual tables and guards. `Tree` is what a flood needs of the graph, `NoCircuit` the same without tables.

**Circular list and binomial coefficients** (`CircularList`, `Binomial`). `Sequences` holds what several modules need of sequences.

## What the proofs found in the code

- Unaligned `writeByte` (MemoryOutputStream.h:131-134) cuts the byte into parts of the wrong sizes: the mask for the first part keeps as many bits as the last byte already has, not as many as it has free. Bytes, and so numbers of whole bytes, are written right exactly at multiples of four bits or if they are zero, and nothing written later repairs them (`WriteAll`, `BitAndByte`). The comments promise the byte at any position, and the reading side is right at every position.
- Numbers of 32 single bits (MemoryOutputStream.h:363-373, MemoryInputStream.h:471-482) use the mask `1 << 31` of an `int`, which widens to 33 ones: they are written right exactly if they are all ones or the whole number is one less than a power of two, and read right exactly if they are zero (`WideLegible`, `ReadNBitsToUint64Be`, `WideNumber`).
- `readBytes` past the end throws, instead of reporting the end, when a part of a byte is left.
- The interval tree's `query` misses intervals when its range begins at the least time, because the `max_high` of `nil` is that time and the test is `>=` (`MissedAtLeastTime`, `ExactIffAboveLeastTime`, `ExactIffNoneSkipped`).
- `Int128::div` never returns for the least number as divisor; with the least number as dividend it returns 0 and the dividend; its text is `-0`. `operator<` compares low words as signed numbers if the high words are equal and negative (`LessMeansLess`, `NotLess`).
- The parser of `Int128` accepts one letter more than the radix has digits (`sz[i] <= 'a' + radix - 10`): "1a" is read as 20 (`ReadAsDenoted`, `StoredAsDenoted`, `ExtraRead`); wrap-around may hide that in longer texts (`ReadByChance`).
- After a circle, `getNumInitStages` returns the number of stages that did get numbers, without an error, because `numInitStages` is no longer -1 (`AskTwice`, `AskForCircle`).
- `n_choose_k` returns 1 for a negative k up to n.
- On an error in a registration, the guards of the dispatchers that are forwarding stay up (`Register`, `RegisterInCircle`).
- `eraseElem` tests the cursor where it should test the position found, so an absent element is not caught (`EraseElem`, `EraseAbsent`).

## Model

| member | source | states |
|---|---|---|
| `IntervalTreeModel.IntervalTree.Insert` | inet4.4/src/inet/common/IntervalTree.cc:188-240 | A run of the insertion keeps the whole object invariant: the shape is laid out in the heap with correct parent links and sentinels, no red node has a red child, black heights are equal, keys are in order and every `max_high` is the maximum of its subtree. The nodes in key order are the old ones with the new node sorted in, and no other node comes or goes |
| `IntervalTreeModel.IntervalTree.RecursiveInsert` | inet4.4/src/inet/common/IntervalTree.cc:158-178 | The new leaf is hung exactly where all nodes before it have keys up to its own and all behind it larger ones; nothing else changes |
| `IntervalTreeModel.IntervalTree.FixupMaxHigh` | inet4.4/src/inet/common/IntervalTree.cc:180-186 | The loop from a node up to the root sets every `max_high` on the way to the maximum over the changed subtree, and changes nothing else |
| `IntervalTreeModel.IntervalTree.InsertFixup` | inet4.4/src/inet/common/IntervalTree.cc:198-237 | The loop that pushes a red-red edge upwards ends, keeps the order and the other invariants, and leaves no red-red edge |
| `IntervalTreeModel.IntervalTree.RotateToLeft` | inet4.4/src/inet/common/IntervalTree.cc:110-132 | Pointer assignments amount to the rotation of the focused subtree, inside any surrounding tree; the parent of `nil` is untouched |
| `IntervalTreeModel.IntervalTree.RotateToRight` | inet4.4/src/inet/common/IntervalTree.cc:134-156 | The mirror image of it |
| `IntervalTreeShape.RotatedLeftInorder` | inet4.4/src/inet/common/IntervalTree.cc:110-132 | A left rotation keeps the nodes in key order |
| `IntervalTreeShape.RotatedRightAugmented` | inet4.4/src/inet/common/IntervalTree.cc:134-156 | After a right rotation `max_high` is right again in both nodes, and the maximum of the subtree is unchanged |
| `IntervalTreeModel.IntervalTree.DeleteNode` | inet4.4/src/inet/common/IntervalTree.cc:410-460 | For every valid tree and every node of it, deletion keeps the whole object invariant, returns the stored interval and removes exactly this node: the others keep their order and identity |
| `IntervalTreeModel.IntervalTree.DeleteFixup` | inet4.4/src/inet/common/IntervalTree.cc:324-384 | From a tree that lacks one black node above the start, which may be `nil` with a borrowed parent field, and for a `rootLeft` read only once before the rotations, the loop ends with a red-black, augmented tree with the same nodes in the same order |
| `IntervalTreeModel.IntervalTree.Splice` | inet4.4/src/inet/common/IntervalTree.cc:416-428 | Unlinking a node with at most one child, by way of the parent field of `nil` if there is no child |
| `IntervalTreeModel.IntervalTree.DeleteInner` | inet4.4/src/inet/common/IntervalTree.cc:430-450 | A node with two children is replaced by its successor, with colours and maxima restored |
| `IntervalTreeModel.IntervalTree.DeleteInterval` | inet4.4/src/inet/common/IntervalTree.cc:386-391 | Deletes the first node in preorder that stores this very interval object; changes nothing if there is none |
| `IntervalTreeModel.IntervalTree.RecursiveSearch` | inet4.4/src/inet/common/IntervalTree.cc:393-408 | Finds the first node in preorder that stores the interval, and `nil` only if no node does |
| `IntervalTreeModel.IntervalTree.GetSuccessor` | inet4.4/src/inet/common/IntervalTree.cc:256-270 | The next node in key order, and the root sentinel after the last one |
| `IntervalTreeModel.IntervalTree.GetPredecessor` | inet4.4/src/inet/common/IntervalTree.cc:272-286 | The previous node in key order, and `nil` before the first one |
| `IntervalTreeModel.IntervalTree.GetMinimum` | inet4.4/src/inet/common/IntervalTree.cc:242-247 | The first node of a subtree in key order |
| `IntervalTreeModel.IntervalTree.GetMaximum` | inet4.4/src/inet/common/IntervalTree.cc:249-254 | The last node of a subtree in key order |
| `IntervalTreeModel.IntervalTree.StaysShallow` | inet4.4/src/inet/common/IntervalTree.cc:188-240 | Whatever insertions and deletions made the tree, its height is at most twice the logarithm of the number of nodes plus one |
| `IntervalTreeShape.AugmentedMeansMaximum` | inet4.4/src/inet/common/IntervalTree.cc:130-131 | In a tree where every node holds the maximum of itself and its children, `max_high` is attained in the subtree and no interval in it ends later |
| `IntervalTreeModel.IntervalTree.Query` | inet4.4/src/inet/common/IntervalTree.cc:473-514 | The loop over the explicit stack ends with the stack at its base and the tree unchanged; above the least time it returns the stored intervals that overlap the range, each once and in preorder; from the least time on it does so if and only if no node without a left child has a right one that begins in time |
| `IntervalTreeQuery.SearchIsExact` | inet4.4/src/inet/common/IntervalTree.cc:473-514 | Pruning by `max_high` and skipping right subtrees loses nothing: the search finds what a scan of all nodes in preorder finds, for every range above the least time |
| `IntervalTreeQuery.NothingToTheRight` | inet4.4/src/inet/common/IntervalTree.cc:486-511 | The reason: if the left subtree reaches up to the range but has no hit, the right one has none either |
| `IntervalTreeQuery.SearchMisses` | inet4.4/src/inet/common/IntervalTree.cc:486-501 | At the least time an empty left subtree is entered instead of the right one; the result is right exactly if the right one has no hit |
| `IntervalTreeModel.IntervalTree.MissedAtLeastTime` | inet4.4/src/inet/common/IntervalTree.cc:473-514 | Two insertions build a tree whose query at the least time misses the second interval, which overlaps |
| `IntervalTreeQuery.ExactIffAboveLeastTime` | inet4.4/src/inet/common/IntervalTree.cc:63-63 | The search agrees with the scan on all valid trees if and only if the lower end of the range is above the least time |
| `IntervalTreeQuery.ExactIffNoneSkipped` | inet4.4/src/inet/common/IntervalTree.cc:473-514 | For a given red-black tree the search from the least time on finds what the scan finds if and only if no node without a left child has a right child whose key is up to the upper end of the range |
| `IntervalTreeQuery.OverlapMeansIntersection` | inet4.4/src/inet/common/IntervalTree.cc:462-471 | The overlap test of two intervals holds if and only if they have a point in common |
| `Macho.Machine.Transition` | inet4.4/src/inet/common/Macho.cc:345-393 | If and only if all calls keep the rules and initialization leads nowhere or to a proper substate, no assertion fails. Then one transition calls, in this order, exactly the exits of the states of the current path that are not proper superstates of the target, innermost first; the entries of the target and those of its superstates not yet active, outermost first; and the initialization. It says what every history pointer holds afterwards, and that the transition pending is what the init action asked for or the history with the default initializer. Otherwise the last call is the one that has broken a rule |
| `MachoStates.KeptMeansProperSuperstate` | inet4.4/src/inet/common/Macho.cc:139-173 | The states that stay active in a transition are exactly the common proper superstates of the target, so a self transition and one to a superstate exit and re-enter the target |
| `Macho.Machine.Entry` | inet4.4/src/inet/common/Macho.cc:139-154 | The recursive entry calls exactly the entries of the path below the states kept, outermost first, each with a right box |
| `Macho.Machine.Exit` | inet4.4/src/inet/common/Macho.cc:156-173 | The recursive exit calls exactly the exits of the path down to the states kept, innermost first, and destroys the boxes |
| `MachoStates.IsChildIsPrefix` | inet4.4/src/inet/common/Macho.h:788-792 | Walking up the parents decides whether one path is a prefix of the other |
| `Macho.Machine.SetHistorySuper` | inet4.4/src/inet/common/Macho.h:734-739 | Leaving a state sets the pointer of each superstate with shallow history to its child on the way, of each one with deep history to the state, and no others; bubbling up may stop at the first state without history above it because nothing further up has any |
| `Macho.Machine.SaveHistory` | inet4.4/src/inet/common/Macho.h:276-297 | The step of that for one superstate and its strategy |
| `Macho.Machine.ResumeHistory` | inet4.4/src/inet/common/Macho.cc:175-181 | A history transition goes to a proper substate, by the default initializer, so the assertion after initialization holds for it |
| `Macho.Machine.InitState` | inet4.4/src/inet/common/Macho.cc:175-187 | Initialization resumes the history or calls the user's init, and forgets the history in either case |
| `Macho.Machine.PoliteOnward` | inet4.4/src/inet/common/Macho.cc:383-386 | Polite inits pass the assertion after initialization, also by way of an alias |
| `Macho.Machine.HistoryReturns` | inet4.4/src/inet/common/Macho.cc:175-187 | In any run whose last transition goes to a state with its history: it resumes the state that was current when something below that state was left last (deep) or the child around that one (shallow), be it in the same transition or in an earlier one, whatever calls and transitions lie in between, unless user code has cleared the history or an initialization has used it up |
| `Macho.Machine.Spared` | inet4.4/src/inet/common/Macho.h:734-739 | Transitions that neither leave a substate of a state nor use up its history keep that history, however many there are |
| `Macho.Machine.TraceLeg` | inet4.4/src/inet/common/Macho.cc:345-393 | The calls and histories of the engine's runs are those of such a sequence of transitions with user calls between them, so the statement about histories applies to every run |
| `Macho.Machine.Settle` | inet4.4/src/inet/common/Macho.cc:345-393 | The inner loop ends, since every initialization leads only deeper; the last current state is the one first asked for or lies below it. It makes the pending transition, and then each one that the last initialization has asked for, and handles no event |
| `Macho.Machine.RattleOn` | inet4.4/src/inet/common/Macho.cc:339-402 | Step by step the outer loop makes the transition that is pending, or else lets the current state handle the pending event, and nothing besides; it stops when nothing is pending. For any user code calls, boxes and history stay consistent, and it fails only after a call that was not polite |
| `Macho.Machine.Round` | inet4.4/src/inet/common/Macho.cc:395-400 | A pending event is handled by the state that the transitions have led to, in the last call of the round |
| `Macho.Machine.CourseQueues` | inet4.4/src/inet/common/Macho.cc:339-402 | In every course of steps an event dispatched by user code stays pending until a handler is called with it, and no other event is dispatched before |
| `Macho.Machine.DispatchIsHandled` | inet4.4/src/inet/common/Macho.cc:395-400 | The next handler called after an event was dispatched is called with that event, if it is not still pending at the end |
| `Macho.Machine.HandledInOrder` | inet4.4/src/inet/common/Macho.cc:395-400 | The events handled, and the one still pending, are the first one and those dispatched by user code, one for one and in that order |
| `Macho.Machine.PendingIsMade` | inet4.4/src/inet/common/Macho.cc:345-371 | The first transition of a course is the one that was pending, from the state that was current, to its target and with its initializer |
| `Macho.Machine.TransitsSilently` | inet4.4/src/inet/common/Macho.cc:349-391 | Exits, entries and inits of a transition neither handle nor dispatch events |
| `Macho.Machine.Perform` | inet4.4/src/inet/common/Macho.h:1515-1534 | A request fails an assertion exactly if it asks for another transition than the pending one, for a second event, or names no state; a request for a transition makes exactly its target, or the history that an alias stands for, and its initializer pending |
| `Macho.Machine.CallUser` | inet4.4/src/inet/common/Macho.h:1515-1534 | No assertion fails if and only if the requests of the call keep the rules, which speak of all of them at once: unknown states, at most one event and none while one is pending, the pending transition again or else one and the same for all, by way of a shared initializer. Then the last transition asked for is pending, or still the one before, and so for events; exactly the histories named are cleared |
| `Macho.Machine.KeepsNext` | inet4.4/src/inet/common/Macho.h:1518-1534 | The rules for all requests of a call amount to the assertions made one request after the other, whatever aliases and cleared histories are among them |
| `Macho.Machine.LastRequest` | inet4.4/src/inet/common/Macho.h:1518-1525 | What is pending after some requests is the target, seen through the histories as they are then, and the initializer of the last request for a transition, and unchanged without one |
| `Macho.Machine.AskedTwice` | inet4.4/src/inet/common/Macho.h:1518-1525 | For instance, the same transition may be asked for twice exactly by way of the default or the history initializer, of which there is one object |
| `Macho.Machine.PoliteKeeps` | inet4.4/src/inet/common/Macho.h:1515-1534 | User code whose entries and exits only clear histories, whose inits ask for at most one transition, and whose handlers for at most one transition and one event keeps the rules in every situation in which it is called |
| `Macho.Machine.ClearDeep` | inet4.4/src/inet/common/Macho.cc:299-306 | Clears the history of a state and of all states below it, and of no others |
| `Macho.Machine.Start` | inet4.4/src/inet/common/Macho.cc:248-266 | From Root, a start makes the transition to the start state or what its alias stands for, with its initializer, and what follows from that; it ends with nothing pending in the start state or below it. It fails only after a call that was not polite |
| `Macho.Machine.DispatchEvent` | inet4.4/src/inet/common/Macho.h:1905-1915 | The handler of the state that was current is called first. If it asks for a transition, that is the first one made, with its initializer; if it asks for nothing, nothing else happens; all events that follow are handled in order. A run without a failed assertion ends with nothing pending and below Root |
| `Macho.Machine.Shutdown` | inet4.4/src/inet/common/Macho.cc:268-278 | Shutting down makes the default transition to Root and ends there, with no current state; it fails only after a call that was not polite |
| `Macho.Machine.AllExited` | inet4.4/src/inet/common/Macho.cc:268-278 | When only Root is active every entry of every state has had its exit, and boxes that do not persist are gone |
| `Macho.Machine.BoxWhileActive` | inet4.4/src/inet/common/Macho.h:390-412 | A box that does not persist exists exactly while its state is active, it is the one of the latest entry, and a live box and cached memory are never both there |
| `Macho.Machine.Run` | inet4.4/src/inet/common/Macho.cc:248-278 | For every hierarchy, every user code and every sequence of events, the log of calls is well nested along the tree; boxes are constructed afresh at each entry, or once if they persist; after the shutdown all entries have had their exits. A finished run is a course of right steps with exactly the start, these events and the shutdown as inputs. It finishes if user code is polite and dispatches nothing |
| `Macho.Machine.NeverStopped` | inet4.4/src/inet/common/Macho.h:1515-1534 | With polite user code no assertion ever fails |
| `MachoStates.EntriesHaveExits` | inet4.4/src/inet/common/Macho.cc:139-173 | In a well-nested log the number of entries of a state is the number of its exits plus its open entries |
| `MachoStates.LastBoxKnown` | inet4.4/src/inet/common/Macho.h:913-923 | A box seen by an entry is the empty box, or one of the state's own that has been constructed in this run |
| `Macho.Machine.EnterRightBox` | inet4.4/src/inet/common/Macho.h:390-412 | On entry the state gets the box it may see: its last one again if it persists, otherwise one constructed afresh, with no cached memory beside it, and the empty box if it has none of its own |
| `Macho.Machine.LeaveSound` | inet4.4/src/inet/common/Macho.cc:156-173 | On exit there is a box and, if it is a state's own, no cached memory, so the assertions of the deletion hold; afterwards the boxes of all states are right for the superstate being current |
| `Int128Words.Int128.AddAssign` | inet4.4/src/inet/common/Int128.cc:202-212 | Adding the words with a carry is addition modulo 2^128, for all operands and also with itself |
| `Int128Words.Int128.Negated` | inet4.4/src/inet/common/Int128.cc:160-166 | Unary minus is negation modulo 2^128; the least number is its own negation |
| `Int128Words.Int128.SubAssign` | inet4.4/src/inet/common/Int128.h:128-131 | Subtraction modulo 2^128 |
| `Int128Words.Int128.Increment` | inet4.4/src/inet/common/Int128.cc:168-175 | Adds one modulo 2^128, with the carry into the high word |
| `Int128Words.Int128.Decrement` | inet4.4/src/inet/common/Int128.cc:177-184 | Subtracts one modulo 2^128, with the borrow |
| `Int128Words.Int128.MulAssign` | inet4.4/src/inet/common/Int128.cc:214-235 | Shift-and-add is multiplication modulo 2^128, also for negative factors that are shifted right arithmetically and for squares |
| `Int128Words.Int128.ShiftRight` | inet4.4/src/inet/common/Int128.cc:319-348 | Division by 2^n rounded down, for every n |
| `Int128Words.Int128.ShiftLeft` | inet4.4/src/inet/common/Int128.cc:350-378 | Multiplication by 2^n modulo 2^128, for every n |
| `Int128Words.Int128.Bit` | inet4.4/src/inet/common/Int128.cc:289-298 | The n-th digit of the number in two's complement, of either word, and the sign beyond |
| `Int128Words.Int128.SetBit` | inet4.4/src/inet/common/Int128.cc:300-317 | Adds 2^n modulo 2^128 if the digit is not set; nothing for n of 128 and more |
| `Int128Words.Int128.ClearBit` | inet4.4/src/inet/common/Int128.cc:300-317 | Subtracts 2^n modulo 2^128 if the digit is set; nothing for n of 128 and more |
| `Int128Words.Int128.Div` | inet4.4/src/inet/common/Int128.cc:237-287 | Truncated division: for every dividend but the least number and every divisor but zero and the least number, dividend = quotient * divisor + remainder, where the remainder is smaller than the divisor in magnitude and zero or signed like the dividend. Both loops end and no partial remainder leaves the signed range. For the least dividend the result is 0 and the dividend itself |
| `Int128Words.Int128.DividesOnce` | inet4.4/src/inet/common/Int128.cc:237-287 | Quotient and remainder are determined by that |
| `Int128Words.Int128.LeastDividendIsWrong` | inet4.4/src/inet/common/Int128.cc:244-251 | The result for the least dividend is never truncated division |
| `Int128Words.Int128.LeastDivisorLoops` | inet4.4/src/inet/common/Int128.cc:265-277 | With the least number as divisor the second loop never ends: for every number of rounds its state is one of two |
| `Int128Words.Int128.Align` | inet4.4/src/inet/common/Int128.cc:257-263 | The first loop ends with the shortest prefix of the dividend that is not smaller than the divisor |
| `Int128Words.Int128.Subtract` | inet4.4/src/inet/common/Int128.cc:265-277 | The second loop ends with the quotient and the remainder of magnitudes, and its rounds are those of the transition function about which `LeastDivisorLoops` speaks |
| `Int128Words.Int128.DivAssign` | inet4.4/src/inet/common/Int128.h:133-138 | The quotient of truncated division, also when an operand is divided by itself |
| `Int128Words.Int128.ModAssign` | inet4.4/src/inet/common/Int128.h:140-144 | The remainder of truncated division, also by itself |
| `Int128Words.Int128.LessMeansLess` | inet4.4/src/inet/common/Int128.cc:380-390 | `operator<` is the order of integers if and only if it is not the case that the high words are equal and negative and the low words differ in their top bit |
| `Int128Words.Int128.NotLess` | inet4.4/src/inet/common/Int128.cc:380-390 | For instance, -2^64 is not less than -2^63 |
| `Int128Words.Int128.ToString` | inet4.4/src/inet/common/Int128.cc:37-62 | For every number and radix the text is the sign and the numeral (or the fixed texts for zero and for a radix out of range), and it fits the buffer of 256 characters with its terminator |
| `Int128Words.Int128.Set` | inet4.4/src/inet/common/Int128.cc:64-107 | For every text the value is the one of its longest accepted prefix with sign and radix prefix, modulo 2^128; and when that is the number denoted |
| `Int128Words.Int128.TextReadsBack` | inet4.4/src/inet/common/Int128.cc:37-107 | Reading the decimal text of a number gives the number, if and only if it is not the least one |
| `Int128Words.Int128.RoundTrip` | inet4.4/src/inet/common/Int128.cc:37-107 | The same for the printing and parsing methods |
| `Int128Words.Int128.PrintedIsRead` | inet4.4/src/inet/common/Int128.cc:81-103 | Decimal, octal and hexadecimal numerals with their prefixes are read as what they denote |
| `Int128Words.Int128.DigitsRead` | inet4.4/src/inet/common/Int128.cc:89-101 | Exactly the digits of the radix, in either case, are read as digits, each with its value, besides the letter one too many |
| `Int128Words.Int128.WrittenIsRead` | inet4.4/src/inet/common/Int128.cc:64-107 | A numeral in any mix of cases, behind 0x, 0 or nothing, is read as its number, and behind a minus sign in front of that as its negative |
| `Int128Words.Int128.TextWrites` | inet4.4/src/inet/common/Int128.cc:37-62 | In every radix up to 36 the text is a numeral of the number, with a minus sign for negative ones, by the digits and letters in their order |
| `Int128Words.Int128.OrAssign` | inet4.4/src/inet/common/Int128.h:120-120 | Every digit of the number in two's complement is set if it was in either number, for all operands and also with itself |
| `Int128Words.Int128.AndAssign` | inet4.4/src/inet/common/Int128.h:121-121 | If it was in both |
| `Int128Words.Int128.XorAssign` | inet4.4/src/inet/common/Int128.h:122-122 | If it was in exactly one of them |
| `Int128Words.Int128.Complement` | inet4.4/src/inet/common/Int128.h:107-107 | Complementing the words is negation less one |
| `Int128Words.Int128.ReadAsDenoted` | inet4.4/src/inet/common/Int128.cc:81-103 | Without wrap-around, a text is read as the number that its proper digits denote if and only if the letter one too many for the radix is not behind them |
| `Int128Words.Int128.StoredAsDenoted` | inet4.4/src/inet/common/Int128.cc:64-107 | What is stored is the number denoted modulo 2^128 exactly if the two readings differ by a multiple of 2^128, and so if the letter is not there; if the reading stays within the range, in particular for up to 31 characters, only if it is not there |
| `Int128Words.Int128.ExtraRead` | inet4.4/src/inet/common/Int128.cc:95-103 | For instance, of 1a the source makes 20 and of 0xg 16 |
| `Int128Words.Int128.ReadByChance` | inet4.4/src/inet/common/Int128.cc:95-103 | A hexadecimal text of 32 digits with the letter behind them, of which the value stored is the one denoted, because the readings differ by just 2^128 |
| `InitStageRegistry.InitStageRegistry.AssignInitStageNumbers` | inet4.4/src/inet/common/InitStageRegistry.cc:42-79 | Ends with an unknown stage exactly if a dependency names one, and otherwise finishes normally exactly if the dependencies are acyclic. Then stages are sorted by number, the numbers are 0..n-1 without gaps, the preceding stage of every dependency has the smaller number, and they are those of the pure numbering |
| `InitStageOrder.NumberedIffAcyclic` | inet4.4/src/inet/common/InitStageRegistry.cc:56-71 | Repeated passes over the stages number all of them if and only if there is no cycle of dependencies |
| `InitStageOrder.StuckIsCyclic` | inet4.4/src/inet/common/InitStageRegistry.cc:69-70 | From a pass without progress over unnumbered stages an actual cycle can be built |
| `InitStageOrder.CompleteIsAcyclic` | inet4.4/src/inet/common/InitStageRegistry.cc:56-71 | If all stages got numbers no sequence of stages is a cycle |
| `InitStageOrder.PassesResult` | inet4.4/src/inet/common/InitStageRegistry.cc:57-71 | The loop of passes stops at a legal numbering that a further pass does not extend |
| `InitStageOrder.NumberedAgain` | inet4.4/src/inet/common/InitStageRegistry.cc:56-74 | Numbering the sorted stages again takes a single pass and gives the same numbers |
| `InitStageOrder.LegalIsStable` | inet4.4/src/inet/common/InitStageRegistry.cc:56-74 | Any order in which every stage is behind those it depends on is numbered as it stands |
| `InitStageOrder.AppendedKeepNumbers` | inet4.4/src/inet/common/InitStageRegistry.cc:24-34 | Appending stages, with dependencies that only make new stages follow others, leaves all existing numbers |
| `InitStageRegistry.InitStageRegistry.NumberStages` | inet4.4/src/inet/common/InitStageRegistry.cc:56-71 | The nested loops over stage objects compute the pure numbering in their `number` fields; after a circle, `numInitStages` stays at the number of stages that have one |
| `InitStageRegistry.InitStageRegistry.LinkStages` | inet4.4/src/inet/common/InitStageRegistry.cc:50-55 | Links every known dependency both ways, and stops at the first unknown name |
| `InitStageRegistry.InitStageRegistry.GetNumInitStages` | inet4.4/src/inet/common/InitStageRegistry.cc:36-40 | Numbers lazily: only if something was added since. After a circle the number is the one of the stages that could be numbered, which is less than all; after an unknown name it stays at -1 |
| `InitStageRegistry.InitStageRegistry.AskTwice` | inet4.4/src/inet/common/InitStageRegistry.cc:36-79 | The second call reports success in any case, and the number of all stages if and only if the dependencies are acyclic |
| `InitStageRegistry.InitStageRegistry.AskForCircle` | inet4.4/src/inet/common/InitStageRegistry.cc:36-79 | For instance, a stage that depends on itself is the error at first, and then there are 0 stages without one |
| `InitStageRegistry.InitStageRegistry.AddInitStage` | inet4.4/src/inet/common/InitStageRegistry.cc:24-28 | Appends the stage and invalidates the numbering |
| `InitStageRegistry.InitStageRegistry.GetInitStage` | inet4.4/src/inet/common/InitStageRegistry.cc:16-22 | Finds the stage of this name exactly if there is one |
| `MemoryOutputStreams.MemoryOutputStream.RightUnlessSpoilt` | inet4.4/src/inet/common/MemoryOutputStream.h:92-137 | What a stream holds are the bits that its calls should have written if and only if none of the calls has misplaced any |
| `MemoryOutputStreams.MemoryOutputStream.WriteBit` | inet4.4/src/inet/common/MemoryOutputStream.h:92-101 | Writes the bit behind whatever is there; a stream that has gone wrong stays wrong |
| `MemoryOutputStreams.MemoryOutputStream.WriteByte` | inet4.4/src/inet/common/MemoryOutputStream.h:127-137 | The stream goes wrong exactly if the length is no multiple of four bits and the byte is not zero: the source swaps the sizes of the two parts. A stream that has gone wrong stays wrong, though a byte may reach into misplaced bits |
| `MisplacedBytes.SpoiltByte` | inet4.4/src/inet/common/MemoryOutputStream.h:127-137 | Whatever is behind the end, the next byte cannot repair what is wrong with the bits so far |
| `MisplacedBytes.SpoiltBit` | inet4.4/src/inet/common/MemoryOutputStream.h:92-101 | Nor can the next bit |
| `MisplacedBytes.RightByte` | inet4.4/src/inet/common/MemoryOutputStream.h:127-137 | In a stream that is right, a byte written is in place with zeros behind the end, or it is wrong beyond repair |
| `MisplacedBytes.WrongByte` | inet4.4/src/inet/common/MemoryOutputStream.h:131-134 | At an offset other than 0 and 4 within a byte, eight bits read there never show the byte written, unless it is zero |
| `MisplacedBytes.ShownWrong` | inet4.4/src/inet/common/MemoryOutputStream.h:131-134 | The arithmetic of that: with parts of different sizes only zero is shown as it is |
| `MisplacedBytes.HalfByte` | inet4.4/src/inet/common/MemoryOutputStream.h:131-134 | At offset 4 the two parts show the byte |
| `MisplacedBytes.ZeroByte` | inet4.4/src/inet/common/MemoryOutputStream.h:131-134 | A zero byte is shown at every offset |
| `MisplacedBytes.FrontKept` | inet4.4/src/inet/common/MemoryOutputStream.h:131-134 | In the first half of a byte the part merged into it does not reach the bits in front, whatever is behind the end |
| `MisplacedBytes.SecondEnds` | inet4.4/src/inet/common/MemoryOutputStream.h:131-134 | The second part ends in as many zeros as the first byte had bits, so after a byte in the second half the stream has zeros behind its end again |
| `MemoryOutputStreams.MemoryOutputStream.WriteUintBe` | inet4.4/src/inet/common/MemoryOutputStream.h:207-304 | For any number of bytes the bits of the number are appended, high byte first; that goes wrong exactly if the length is no multiple of four and one of those bytes is not zero |
| `MemoryOutputStreams.MemoryOutputStream.WriteUintLe` | inet4.4/src/inet/common/MemoryOutputStream.h:216-320 | The same with the low byte first |
| `MemoryOutputStreams.MemoryOutputStream.WriteNBitsOfUint64Be` | inet4.4/src/inet/common/MemoryOutputStream.h:363-373 | The lowest n bits are written, high bit first, for up to 31 bits; for 32 bits that goes wrong exactly unless they are all ones or the whole number is one less than a power of two; 0 and more than 64 are refused |
| `BitMasks.WideLegible` | inet4.4/src/inet/common/MemoryOutputStream.h:366-370 | The reason: the mask for 32 bits widens to 33 ones, so a zero below a one, of these bits or the next ones above, is written as one |
| `BitMasks.TwoIllegible` | inet4.4/src/inet/common/MemoryOutputStream.h:366-370 | For instance, 2 is not written as it is |
| `MemoryOutputStreams.MemoryOutputStream.WriteBits` | inet4.4/src/inet/common/MemoryOutputStream.h:115-119 | Appends the bits in their order |
| `MemoryOutputStreams.MemoryOutputStream.WriteUint4` | inet4.4/src/inet/common/MemoryOutputStream.h:188-193 | Appends the lowest four bits of a number |
| `MemoryOutputStreams.MemoryOutputStream.WriteBytes` | inet4.4/src/inet/common/MemoryOutputStream.h:152-170 | At a byte boundary appends all bits of the bytes |
| `MemoryOutputStreams.MemoryOutputStream.WriteString` | inet4.4/src/inet/common/MemoryOutputStream.h:354-357 | At a byte boundary appends the characters and a zero byte |
| `MemoryInputStreams.MemoryInputStream.ReadBit` | inet4.4/src/inet/common/MemoryInputStream.h:138-149 | The next bit if there is one; otherwise false, with the flag for reading beyond the end |
| `MemoryInputStreams.MemoryInputStream.ReadByte` | inet4.4/src/inet/common/MemoryInputStream.h:184-203 | At every offset the next eight bits, from one byte or from two; without eight bits left it returns 0, goes to the end and sets the flag |
| `MemoryInputStreams.AcrossAt` | inet4.4/src/inet/common/MemoryInputStream.h:195-201 | The two parts of an unaligned read are the number that the window of eight bits shows |
| `MemoryInputStreams.MemoryInputStream.ReadBits` | inet4.4/src/inet/common/MemoryInputStream.h:168-176 | The next n bits; a short stream yields the rest and one false bit, and nothing once the flag is set |
| `MemoryInputStreams.MemoryInputStream.ReadUintBe` | inet4.4/src/inet/common/MemoryInputStream.h:289-404 | For any number of bytes the number that the next bits show, high byte first; the flag if they run out |
| `MemoryInputStreams.MemoryInputStream.ReadUintLe` | inet4.4/src/inet/common/MemoryInputStream.h:300-421 | The same with the low byte first |
| `MemoryInputStreams.MemoryInputStream.ReadNBitsToUint64Be` | inet4.4/src/inet/common/MemoryInputStream.h:471-482 | The number that the next n bits show, for up to 31 bits, and for 32 bits exactly if they are all zero; the flag if they run out; refuses 0 and more than 64 |
| `MemoryInputStreams.MemoryInputStream.ReadBytes` | inet4.4/src/inet/common/MemoryInputStream.h:220-252 | At a byte boundary the next bytes, or the rest of them; an error if a part of a byte is left |
| `MemoryInputStreams.MemoryInputStream.ReadString` | inet4.4/src/inet/common/MemoryInputStream.h:460-467 | At every offset the bytes up to the next zero byte or the end, and where the stream is then |
| `MemoryInputStreams.MemoryInputStream.Seek` | inet4.4/src/inet/common/MemoryInputStream.h:127-130 | Moves without touching the flag |
| `MemoryStreams.RoundTrip` | inet4.4/src/inet/common/MemoryOutputStream.h:92-373 | Any sequence of mixed items (bits, numbers of 2 and 4 bits, of whole bytes in either order, of up to 32 single bits, byte sequences, strings) comes back from the corresponding reads, reduced to the bits written, if and only if every item is in place and readable; then reading ends at the end and never sets the flag |
| `MemoryStreams.WriteAll` | inet4.4/src/inet/common/MemoryOutputStream.h:92-373 | The bits of such a sequence are the intended ones if and only if every item is in place: several misplaced bytes never make up for one another |
| `MemoryStreams.Write` | inet4.4/src/inet/common/MemoryOutputStream.h:92-373 | An item goes wrong if and only if it is not in place: whole bytes off multiples of four bits that are not zero, and 32 single bits that the widened mask changes |
| `MemoryStreams.Read` | inet4.4/src/inet/common/MemoryInputStream.h:138-482 | The read that belongs to an item gives it back if and only if its bits are next and it is readable, and then consumes exactly these |
| `MemoryInputStreams.ShownText` | inet4.4/src/inet/common/MemoryInputStream.h:460-467 | A string is read if and only if its characters and a zero are next and there is no zero among them |
| `MemoryStreams.BitAndByte` | inet4.4/src/inet/common/MemoryOutputStream.h:92-137 | A bit and then a byte, read back as a bit and a byte, come back if and only if the byte is zero |
| `MemoryStreams.WideNumber` | inet4.4/src/inet/common/MemoryOutputStream.h:363-373 | A number written and read back as 32 single bits comes back if and only if it is zero |
| `MemoryInputStreams.StringReadBack` | inet4.4/src/inet/common/MemoryInputStream.h:460-467 | A string without zeros, followed by a zero and anything else, is read as it is |
| `BitStrings.FromLittleBits` | inet4.4/src/inet/common/MemoryOutputStream.h:216-219 | Little-endian bytes show the number they come from, modulo their size |
| `BitStrings.FromBitsOf` | inet4.4/src/inet/common/MemoryOutputStream.h:207-210 | Bits, high bit first, show the number they come from, modulo their size |
| `BitStrings.BitsOfFrom` | inet4.4/src/inet/common/MemoryInputStream.h:289-293 | And are determined by it |
| `MessageDispatchers.Network.Register` | inet4.4/src/inet/common/MessageDispatcher.cc:289-413 | A registration from outside ends on every network, cyclic or not. The first one raises no error if and only if the dispatchers connected to the first one form a tree, that is if there is no circuit among them, where connections of a dispatcher with itself count for interfaces only. Then all of them have an entry one hop nearer to the registrant. A later one raises no error if and only if it comes by the same gate, and changes no entry. The guards of services and protocols are down afterwards if and only if there was no error, and those for other kinds of registrations are as before; in any case the entries made are consistent hops, and entries for other keys are unchanged |
| `MessageDispatchers.Network.RegisterAll` | inet4.4/src/inet/common/MessageDispatcher.cc:289-413 | Services, protocols, any of them and interfaces registered one after the other do not get into each other's way: all succeed if and only if no circuit is in the way of any, and then each has its entries and no guard is up |
| `MessageDispatchers.Network.RegisterInCircle` | inet4.4/src/inet/common/MessageDispatcher.cc:289-413 | For instance, in a circle of three dispatchers there is the error, and the guard of the first one stays up |
| `DispatcherCircuits.TreeIffNoCircuit` | inet4.4/src/inet/common/MessageDispatcher.cc:289-316 | The condition as one of the graph: entries that span everything connected, with every connection the next hop of one of its ends, exist if and only if no way around that never goes back by the connection it has come by is connected to the first dispatcher |
| `DispatcherCircuits.TreeHasNoCircuit` | inet4.4/src/inet/common/MessageDispatcher.cc:292-297 | Where entries span everything, the dispatcher of a circuit that is furthest would need two next hops |
| `DispatcherCircuits.UnusedCloses` | inet4.4/src/inet/common/MessageDispatcher.cc:300-312 | A connection that is nobody's next hop closes a circuit |
| `DispatcherCircuits.Triangle` | inet4.4/src/inet/common/MessageDispatcher.cc:300-312 | Three dispatchers connected in a circle are not a tree |
| `MessageDispatchers.Network.HandleRegister` | inet4.4/src/inet/common/MessageDispatcher.cc:289-316 | One handler call in the middle of a flood: the guard drops only what comes back to a dispatcher that is forwarding, a second arrival elsewhere is the error, a first one makes the entry and forwards; every dispatcher forwards at most once, so the recursion ends |
| `MessageDispatchers.Network.ForwardAll` | inet4.4/src/inet/common/MessageDispatcher.cc:307-312 | The loop over all gates |
| `MessageDispatchers.Network.Enter` | inet4.4/src/inet/common/MessageDispatcher.cc:292-297 | The guard is up exactly at the dispatchers that are forwarding, and never for another protocol; the guard of the other kind is not touched |
| `MessageDispatchers.MessageDispatcher.RaiseGuard` | inet4.4/src/inet/common/MessageDispatcher.cc:292-299 | A registration is dropped exactly if the guard is up already, which is an error exactly if it is up for another protocol; otherwise the guard goes up |
| `MessageDispatchers.Network.Deliver` | inet4.4/src/inet/common/MessageDispatcher.cc:139-201 | Looking up a packet's gate at one dispatcher after the other ends, at the gate behind which the registrant is; also by the entry for any protocol when no dispatcher has one for the packet's |
| `DispatcherNetwork.WayLeadsHome` | inet4.4/src/inet/common/MessageDispatcher.cc:151-175 | Consistent hops lead home: connected dispatchers, each nearer, at most as many as have entries |
| `DispatcherNetwork.Start` | inet4.4/src/inet/common/MessageDispatcher.cc:305-306 | A first arrival keeps the invariant of the flood |
| `DispatcherNetwork.Finish` | inet4.4/src/inet/common/MessageDispatcher.cc:310-314 | So does the end of forwarding |
| `DispatcherNetwork.Finished` | inet4.4/src/inet/common/MessageDispatcher.cc:310-314 | A flood that has ended without error has reached everything connected, and found a tree |
| `DispatcherNetwork.Idle` | inet4.4/src/inet/common/MessageDispatcher.cc:300-316 | What a finished flood leaves is where another one may start |
| `DispatcherNetwork.TreeGate` | inet4.4/src/inet/common/MessageDispatcher.cc:310-311 | In a tree, forwarding through a gate either goes back where the entry came from or reaches a dispatcher without entry |
| `DispatcherNetwork.BackGate` | inet4.4/src/inet/common/MessageDispatcher.cc:409-410 | Not forwarding an interface to the gate it came from loses nothing |
| `CircularLists.CircularList.Insert` | simu5G/src/common/Circular.h:134-144 | In circular order from the cursor the new element is the last one; the cursor stays at its element |
| `CircularLists.CircularList.InsertFront` | simu5G/src/common/Circular.h:212-226 | The new element is the second one |
| `CircularLists.CircularList.Erase` | simu5G/src/common/Circular.h:147-156 | The first element goes, and the order of the others begins with the next one |
| `CircularLists.CircularList.EraseElem` | simu5G/src/common/Circular.h:159-177 | Of a present element the first occurrence in the list goes, wherever the cursor is; the circular order of the others is unchanged, from the next element if the cursor was at it. It fails exactly for an absent element of a list that is not empty |
| `CircularLists.CircularList.EraseAbsent` | simu5G/src/common/Circular.h:159-177 | A list with one other element is such a case: the cursor is not at the end, so the test does not stop it |
| `CircularLists.CircularList.Move` | simu5G/src/common/Circular.h:186-190 | Rotates the circular order by one |
| `CircularLists.CircularList.Rewind` | simu5G/src/common/Circular.h:180-183 | The circular order begins with the list |
| `CircularLists.CircularList.Tour` | simu5G/src/common/Circular.h:186-209 | As many moves as there are elements visit every element once, in circular order, and come back to the start |
| `CircularLists.CircularList.Find` | simu5G/src/common/Circular.h:96-107 | Finds an element exactly if it is there |
| `CircularLists.CircularList.Copy` | simu5G/src/common/Circular.h:43-57 | Walking along both lists gives the copy the same cursor position |
| `CircularLists.OnceAround` | simu5G/src/common/Circular.h:186-190 | Rotating as often as there are elements is the identity, and every element is in front once |
| `CircularLists.FromWithout` | simu5G/src/common/Circular.h:147-177 | Taking any element out of the list takes it out of the circular order, at its distance from the cursor |
| `Binomial.NChooseK` | inet4.4/src/inet/common/INETMath.h:194-208 | For 0 <= k <= n the loop yields the entry of Pascal's triangle and every division in it is exact; for k above n it is 0, for a negative k up to n it is 1 |
| `Binomial.Step` | inet4.4/src/inet/common/INETMath.h:203-206 | One round: the product is divisible without remainder, and the quotient is the next coefficient |
| `Binomial.Marked` | inet4.4/src/inet/common/INETMath.h:203-206 | k times n over k is n times n-1 over k-1 |
| `Binomial.Symmetric` | inet4.4/src/inet/common/INETMath.h:198-198 | n over k is n over n-k, so the loop may take the shorter way |

## Left out

- MachoStates.State: instances are made when a state is first used; here they all exist from the start, and two initializers are the same object exactly if they are the default or history singletons of one translation unit.
- Macho.Machine.RattleOn: handlers may dispatch events for ever, so the number of rounds is bounded by a parameter, and `done` says whether the bound was enough; the inner loop has no bound.
- Macho.Machine.DispatchEvent: requests made from outside the machine while it is working (a nested `rattleOn`) are not modelled, nor is what the source does after a failed assertion, which ends a run; the assertions are those of a build without NDEBUG.
- Macho: snapshots, the deprecated `setStateBox` and `setStateDirect`, template variants for several parameters, an overridden `_shutdown`, and raw memory.
- IntervalTreeModel.IntervalTree.Query: simulation times are integers between the negative and the positive greatest time; the stack index has no machine width.
- IntervalTreeModel.IntervalTree.DeleteNode: a deleted node is forgotten and not freed; the interval is returned although the source has freed the node that owns it.
- IntervalTreeModel.IntervalTree.GetSuccessor: inside deletion the successor of a node with two children is taken by its first branch, the minimum of the right subtree.
- IntervalTree: printing and the destructor.
- Int128: conversions from and to floating point, assignment from machine integers, and the members that only call the ones modelled.
- Int128Words.Int128.Div: a divisor equal to the least number is excluded, since the source does not return for it; signed overflow of machine words, which C++ leaves undefined, wraps around here.
- InitStageRegistry.InitStageRegistry.AddInitStage: names of stages are unique; with equal names the source finds the first one.
- InitStageRegistry.InitStageRegistry.SortStages: the library's sort is represented by its effect.
- MemoryOutputStreams.MemoryOutputStream.WriteNBitsOfUint64Be: numbers of 33 to 64 bits are not modelled, because the source shifts an `int` by 32 places and more, which C++ leaves undefined; for 32 bits the result is the one of two's complement.
- MemoryInputStreams.MemoryInputStream.ReadNBitsToUint64Be: the same.
- Memory streams: repeated bits and bytes, addresses, copying of data, and the offset and length arguments of `writeBits` and `writeBytes`; numbers of 8, 16, 24, 32, 48 and 64 bits are one operation with the number of bytes as parameter.
- MessageDispatchers.Network.HandleRegister: the handlers for services, protocols, any of them and interfaces are one method that branches where they differ, and the three tables are one map by key; forwarding is on; in and out gates with the same index belong together; a gate is not connected to itself.
- MessageDispatchers.Network.Register: it comes from outside the network, nothing follows an error, and all entries for the key are in the part of the network that is connected to where it comes.
- MessageDispatchers.Network.Deliver: packets carry one key; tags, sockets and messages are not modelled.
- CircularLists.CircularList.EraseElem: for an absent element the result is false, where the source erases the end of the list, which C++ leaves undefined.
- CircularLists.CircularList.Copy: iterators are positions; invalidated iterators are not modelled, and assignment is the same as copying.
- Binomial.NChooseK: whole numbers instead of floating point, where large results are rounded.
- The simulation kernel, gates, channels, packets and their tags, mobility, applications and the Python tools.
