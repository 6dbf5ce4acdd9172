# rcengine: a verified model

rcengine is a RETE rule engine. Objects enter a network of filters and join nodes; tuples of objects
that satisfy all conditions of a rule reach its production node, which queues the rule on an agenda;
rules queue further actions. This project models the four parts of the engine whose correctness is not
visible from reading one function, and proves what they are for.

* **The B-tree behind every memory** (`BTreeModel`, `BTreeRemove`, `BTreeHealth`, `BTreeNode`, `BTreeInsert`, `BTreeDelete`,
  `BTreeCursor`, `BTree`, `MultiTree`, `TimeWindow`). `BTreeNode` to `BTree` are the in-place algorithm
  on linked nodes with arrays of keys and branches; every method is proved to compute a function on the
  trees of `BTreeModel` and `BTreeRemove`, and those functions are proved to do to the sorted sequence of items what an
  insertion or a deletion should. A cursor holds ten frames, and no tree that the invariant allows to be
  that small overruns them. `MultiTree` stacks one tree per index key and is proved equal to one sequence
  in the lexicographic order of all keys. `TimeWindow` shows that the partial scan of a timed join loses
  no partner, and `Indexes` that what the levels yield is what a join looks for, each item once, with a
  window or without.
* **The join nodes** (`Tuples`, `Joins`, `AndNodes`, `WandNodes`, `NandNodes`, `OandNodes`, `Network`, `Positions`). Every event a node
  sends on is checked against what is already downstream: a tuple that appears must be new, one that goes
  must be there in the state named (`Tuples.Follow` is nothing if a single event is wrong). The nodes are
  proved to turn the join, the anti-join and the left outer join of the two memories before an arrival
  into the one after it, whatever the order of the scan; and a left-deep chain of nodes, over any run of
  arrivals, leaves in the production memory the tuples that the conditions select from the live objects.
* **The expression compiler and its machine** (`Expressions`, `TypeCheck`, `Negations`, `CodeGen`,
  `Compiler`, `Loader`, `Machine`, `Execution`, `Conditions`, `Keys`, `LeadingTests`, `NodeCode`). A typed expression language in
  which booleans live either on the stack or only in the flow of control, a rewriting that pushes
  negations inward, constant folding, code generation with a jump table that is filled in later, the
  loader's relocation, and the stack machine. A division by zero is a fault and no value, at every stage.
  `Keys` is the extraction of leading equality tests into index keys, `LeadingTests` says which conjuncts of
  a condition those are, and `NodeCode` how a node takes in the keys and the rest of the code.
* **The scheduler** (`Agenda`, `ConflictSets`, `ActionQueue`) and **filter sharing** (`Hoisting`).

Where the class of a part updates its fields, so does the model: nodes, cursors, memories, linked agenda
lists, the action list with its tail slot, the code buffer and the loaded code. A pure function states
what each such method computes, and the lemmas are about those functions. What several parts share, such as the
keys of a couple, arithmetic, the order of strings or the window of two intervals, is pinned down by a lemma of its
own, in terms that do not use the shared definition.

## What the code does not do

These are results: the code is modelled as it is, and each is pinned down by the condition under which it
does what it is for.

* A modification that changes an index key looks only under the new key. The stream that an AND node then
  sends is right exactly if `Joins.Missed` is empty: no item matched under the old key, and none found
  under the new key passes the other conditions in the old state (`AndNodes.AndNode.CallByLeft`,
  `CallByRight`; `AndNodes.MissedExample`). The counters of NAND and OAND nodes stay right under the same
  condition on the right side.
* What a NAND node sends for a modification of a stored left tuple is wrong exactly if the tuple had no
  partner and now has one: it should be retracted and is not (`NandNodes.NandNode.CallByLeft`,
  `NandNodes.LosesRetractExample`). The table in the comment at `src/nodes_exec.cpp:1785-1794` promises the
  retraction; line 1799 prevents it.
* The tag left by the last right item that matched in either state also decides whether the counter of a
  modified tuple is deleted (`src/nodes_exec.cpp:1797`, `1816-1817`, `1962-1963`). It is deleted although the tuple
  stays stored exactly if that item matches the new state only (`NandNodes.NandNode.CallByLeft`). Some order
  of the scan does so exactly if any item matches the new state only; every order does exactly if the
  tuple had no partner and now has one (`NandNodes.ReleasedInSomeOrder`, `NandNodes.ReleasedExample`).
* A modification of a stored left tuple of an OAND node is wrong exactly if it takes the tuple from no
  partner to some or from some to none (`OandNodes.OandNode.CallByLeft`, `OandNodes.CrossesNullExample`).
* A chain of negations on the stack over a boolean constant keeps its value exactly if it is even, and over
  a cast exactly if it is even and the cast gives 0 or 1; as a truth value either comes out right exactly
  if it is even (`Negations.ChainVerdict`). Every checked expression in which no chain stands over a cast and
  no odd one over a constant keeps its value (`Negations.OptimizeSound`).
* The rewriting does not enter casts, so exactly the written negations below a cast survive it
  (`Negations.OptimizeLeavesBuried`). No code is made for them, nor for what they negate
  (`Conditions.BuriedIsDropped`): the code of every expression does what it means with each of them taken as
  true (`CodeGen.CodeMeets`), which is right exactly where what is negated is false (`CodeGen.NegationRight`,
  `CodeGen.FalseNegations`, `Conditions.BuriedVerdict`).
* A node that takes keys out of the code of a condition copies as many bytes of the rest as there are
  words in it (`src/nodes.cpp:489`). Its tests gain the rest of the code exactly if there are no keys or no
  words beside them (`NodeCode.RestArrives`); then the node decides as the condition does
  (`NodeCode.NodeDecides`). `(p.a = q.a & p.b < q.b) & p.c > 0` loses its second test, because an operand of a
  conjunction is compiled as one piece (`NodeCode.TestIsLost`).
* Loaded tests that are moved up to make room for keys (`src/nodes.cpp:483`) keep the positions of their
  jumps. They are what they should be at the new place exactly if they do not jump
  (`NodeCode.MovedTests`); a disjunction does (`NodeCode.DisjunctionJumps`).
* An AND node, timed or not, tells the next node about the wrong object of a couple whenever a modified one came by the
  right and anything stands before it: the side that is tested at `src/nodes_exec.cpp:1694` is always the
  left (`Positions.AndPositionRight`). The next node may then not notice a changed key.

## Model

| member | source | states |
|---|---|---|
| `BTreeNode.BTNode.SearchNode` | src/btree.cpp:491-512 | The binary search of a node finds the equal key, or the place that all smaller keys precede and all larger ones follow |
| `BTreeNode.BTNode.AddItemToRight` | src/btree.cpp:564-579 | Shifting in place puts a key and the branch to its right between the others, which keep their order; -1 means at the end |
| `BTreeNode.BTNode.AddItemToLeft` | src/btree.cpp:588-602 | The same with the branch to the key's left |
| `BTreeNode.BTNode.DeleteItemToRight` | src/btree.cpp:610-623 | Exactly one key and the branch to its right are gone |
| `BTreeNode.BTNode.DeleteItemToLeft` | src/btree.cpp:630-642 | Exactly one key and the branch to its left are gone |
| `BTreeNode.BTNode.Split` | src/btree.cpp:654-690 | A full node and one more key become 5 keys that stay, the median, and 6 keys in a new node, with every branch on its side |
| `BTreeModel.Push` | src/btree.cpp:705-759 | A push keeps all leaves at one depth and at most 11 keys a node, and leaves 5 keys left and 6 right at every split |
| `BTreeModel.PushItems` | src/btree.cpp:705-759 | A push adds the item at its place in the order, or changes nothing and says so if an equal one is there |
| `BTreeHealth.InsertKeepsHealthy` | src/btree.cpp:46-91 | Insertion keeps order, balance and occupancy, and the items are those before and the new one unless an equal one was there |
| `BTreeInsert.PushDown` | src/btree.cpp:705-759 | The in-place push, a null node included, builds the tree that the function gives, from old nodes and fresh ones, and the slot it returns holds the new item or the equal one found |
| `BTreeModel.MendItems` | src/btree.cpp:911-958 | Both rotations, the join and the collapse keep every item in its place in the order |
| `BTreeModel.MergeShape` | src/btree.cpp:930-957 | Every join of a short child with a neighbour has between 10 and 11 keys, so it fits in a node |
| `BTreeRemove.RemoveItems` | src/btree.cpp:852-960 | Deletion removes the one item equal to the target, by way of its successor if it is in an inner node, or nothing |
| `BTreeHealth.RemoveKeepsHealthy` | src/btree.cpp:121-139 | Deletion keeps order, equal depth and occupancy, an emptied root disappears, and exactly the items of another rank remain |
| `BTreeDelete.RotateLeftAt` | src/btree.cpp:914-921 | In place, the short child gets the key between and the right neighbour's first branch |
| `BTreeDelete.RotateRightAt` | src/btree.cpp:923-929 | In place, the short child gets the key between and the left neighbour's last branch |
| `BTreeDelete.MergeAt` | src/btree.cpp:935-943 | In place, two children and the key between become one child |
| `BTreeDelete.CollapseAt` | src/btree.cpp:944-955 | In place, a node with one key takes in both its children |
| `BTreeDelete.MendAt` | src/btree.cpp:911-958 | Whichever of the four the counts select, the node stands for the mended tree |
| `BTreeDelete.Delete` | src/btree.cpp:852-960 | The in-place deletion, or the removal of the first item of a subtree, leaves the tree that the function gives and reports whether the node is short |
| `BTreeStore.BTree.Insert` | src/btree.cpp:46-91 | The stored sequence is the old one with the item at its place, or the old one if an equal item is found; the slot returned, in the final tree, holds whichever it is, also when the item becomes a new root |
| `BTreeNode.BTNode.SlotHolds` | src/btree.cpp:46-91 | The slot that an insertion returns is a place of a node of the tree, in use, and holds the item |
| `BTreeStore.BTree.Delete` | src/btree.cpp:121-139 | The stored sequence is the old one without the equal item, which is returned; the count follows |
| `BTreeStore.BTree.Find` | src/btree.cpp:169-184 | The search returns the stored item of equal rank, or nothing |
| `BTreeStore.BTree.GetIterator` | src/hdrs/btree.hpp:176-180 | A cursor that has all items still to yield |
| `BTreeStore.BTree.WalkBy` | src/btree.cpp:275-285 | Walking visits every item once, in order, and ends |
| `BTreeStore.BTree.FindBiggerThan` | src/btree.cpp:308-312 | The cursor is on a suffix of the items: none before it lies strictly beyond the limit, none in it strictly before |
| `BTreeCursor.BTState.Walk` | src/btree.cpp:1099-1116 | A step yields the first item that remains and leaves the others, or nothing once none remains, and then for ever |
| `BTreeCursor.SearchNodeBiggerThan` | src/btree.cpp:1127-1156 | The descent for a limit, with ties among the items, splits the sequence as FindBiggerThan promises |
| `BTreeHealth.HeightBound` | src/hdrs/btree.hpp:50-58 | A tree of fewer than 2 * 6^10 - 1 items has at most 10 levels, so a cursor's 10 frames suffice |
| `MultiTree.PutSound` | src/btree.cpp:46-91 | Insertion into a tree of trees keeps every level sound and no subtree empty, and adds the item at its place in the order of all keys and the rank |
| `MultiTree.TakeSound` | src/btree.cpp:852-904 | Deletion through the levels removes the one item equal on every key and in rank; a subtree that it empties is removed from the level above |
| `MultiTree.TakenExact` | src/btree.cpp:121-139 | A deletion gives back the very item that a search finds and that is gone afterwards, or nothing |
| `MultiTree.LookupExact` | src/btree.cpp:169-184 | Descending by one key after the other, and within each level by the keys of its nodes, finds the one item of the whole sequence that is equal on all keys and in rank, or nothing |
| `MultiTree.SubDescends` | src/btree.cpp:526-554 | The descent through the nodes of a level, each compared by the first item below it, finds the subtree of the key if any has it |
| `MultiTree.FindByKeysExact` | src/btree.cpp:238-254 | The search by keys yields exactly the items that equal the target on every key, in order |
| `MultiTree.RunExact` | src/btree.cpp:46-139 | After any run of insertions and deletions the levels together hold the one sorted sequence, NumItems is its length, and a search by keys finds exactly its items with those keys |
| `TimeWindow.FindPartners` | src/nodes_exec.cpp:2624-2643 | Scanning, when both sides are timed, from the first item that ends before t1 + window + 1, and otherwise from the first of all, and testing the window finds the same partners, in the same order, as testing every item of a memory ordered by decreasing end |
| `TimeWindow.InWindowMeans` | src/metaobj.cpp:35-49 | A couple is in the window if and only if every end of its timed intervals is at most the window after every start |
| `TimeWindow.OneTimed` | src/metaobj.cpp:35-49 | With one timed side its own length decides, and with none every couple is in the window |
| `TimeWindow.EndsFirst` | src/metaobj.cpp:95-103 | The comparison by ends and then by something else orders a memory as the search needs it, ties included |
| `TimeWindow.NoneTooLate` | src/metaobj.cpp:35-49 | An item skipped by the search cannot lie in the window, however its interval begins |
| `Indexes.KeyedPartners` | src/btree.cpp:296-313 | With index keys the limit is searched for in the subtree of the keys, whose order it agrees with; scanning from there finds exactly the items of the whole memory that have all keys and lie in the window, and so does scanning all with the keys when a side is not timed |
| `Indexes.IndexFinds` | src/btree.cpp:238-254 | What the search by keys yields, item by item, is the set that a join looks for, each item once |
| `Indexes.FlatStrict` | src/btree.cpp:46-91 | The items of all levels stand in one strict order, that of all keys and the rank |
| `Tuples.IdentityMeans` | src/compound.cpp:153-161 | Tuples of one form are the same to a memory if and only if they hold the same objects in the same places |
| `Tuples.FitsMeans` | src/nodes_exec.cpp:2240-2339 | Every insertion and retraction is admitted, and a modification if and only if nothing stored contradicts its old state or already has its new identity |
| `Joins.PairsMeans` | src/nodes_exec.cpp:1563-1581 | A couple is in the join if and only if its items are stored, the left one's left key is the right one's right key, and the rest of the code lets it through |
| `Joins.AloneMeans` | src/nodes_exec.cpp:1797-1814 | A left item is in the anti-join if and only if no right item has its key and satisfies the rest |
| `Joins.OuterMeans` | src/nodes_exec.cpp:2008-2048 | The outer join has the couples of the join, and the null single exactly for left items in none of them |
| `Joins.FoundMeans` | src/keys.cpp:34-54 | From either side, the index finds the items of the other one whose own key is equal |
| `Joins.MissedMeans` | src/nodes_exec.cpp:1574-1576 | Which items a modification misses, by the keys of either side |
| `Tuples.Store` | src/nodes_exec.cpp:2240-2339 | Storing an arrival amounts to one exact event or none: nothing for a second insertion or the retraction of what is not there, an insertion for the modification of what is not there |
| `AndNodes.HalfwayStep` | src/nodes_exec.cpp:1623-1715 | What is sent for one couple is exact, and brings what is downstream from the join with the items scanned so far to the join with one more |
| `AndNodes.Scan` | src/nodes_exec.cpp:1568-1577 | The scan of the items found by key, in any order, turns the join before into the join after, unless a change of key misses an item |
| `AndNodes.MissedIsWrong` | src/nodes_exec.cpp:1574-1576 | A modification that misses an item under a changed key gives a wrong stream, in whatever order it is sent |
| `AndNodes.AndNode.CallByLeft` | src/nodes_exec.cpp:1563-1581 | From the left, the events sent turn the old join into the new one if and only if no right item is missed by a change of key; modifications are passed on as modifications only |
| `AndNodes.AndNode.CallByRight` | src/nodes_exec.cpp:1593-1612 | The same from the right |
| `WandNodes.WindowDecides` | src/nodes_exec.cpp:2632-2642 | A couple in the window sends what it would send without one, and one outside sends nothing, from either side |
| `WandNodes.WandNode.CallByLeft` | src/nodes_exec.cpp:2609-2646 | Looking only at items in the window, the events sent turn the old timed join into the new one if and only if no right item is missed by a change of key |
| `WandNodes.WandNode.CallByRight` | src/nodes_exec.cpp:2658-2696 | The same from the right |
| `WandNodes.WithinMeans` | src/nodes_exec.cpp:2632-2642 | The timed join has the couples with equal keys that satisfy the rest of the code and whose every end is at most the window after every start |
| `Positions.AndPositionRight` | src/nodes_exec.cpp:1692-1695 | The next node is asked about the object that was modified, whatever its keys, if and only if that came by the left or nothing stands before it |
| `Positions.OandPositionRight` | src/nodes_exec.cpp:2204-2207 | An OAND node always names the right object |
| `NandNodes.CountApplied` | src/nodes_exec.cpp:1867-1969 | An arrival on the right changes the number of partners of a left item by its new match less its old one |
| `NandNodes.CountsRight` | src/nodes_exec.cpp:1836-1856 | After a scan from the right every counter equals the number of matching right items if and only if no left item was missed |
| `NandNodes.RightStep` | src/nodes_exec.cpp:1926-1956 | One left item is retracted exactly at its first partner and inserted again exactly when it loses the last one |
| `NandNodes.LeftStep` | src/nodes_exec.cpp:1867-1969 | Each right item changes the counter of an arriving tuple and the mask of its tags as the matches in both states demand |
| `NandNodes.LeftTurns` | src/nodes_exec.cpp:1797-1814 | What is sent for an arriving tuple turns the anti-join before into the one after, except for a modification that loses its retraction |
| `NandNodes.NandNode.CallByRight` | src/nodes_exec.cpp:1836-1856 | After an arrival from the right the counters are right if and only if no left item was missed, and then the stream keeps exactly the left items with no partner downstream |
| `NandNodes.NandNode.CallByLeft` | src/nodes_exec.cpp:1750-1821 | From the left the counters are right, and the stream is right if and only if the arrival is not a modification that finds the first partners; the counter is released under the stored tuple if and only if the last item scanned that matches in either state matches only the new one |
| `NandNodes.ReleasedInSomeOrder` | src/nodes_exec.cpp:1797-1817 | Some order of the scan releases the counter if and only if an item matches the new state only, and every order if and only if the retraction is lost too |
| `NandNodes.ReleasedExample` | src/nodes_exec.cpp:1962-1963 | With one old partner and one new one, the order of the scan decides whether the counter is released |
| `NandNodes.LosesRetractExample` | src/nodes_exec.cpp:1785-1799 | A tuple alone that is modified so as to match stays downstream |
| `OandNodes.RowTurns` | src/nodes_exec.cpp:2160-2196 | In the row of a left item the first partner replaces the null single and the null single replaces the last partner; every other change is sent as it is |
| `OandNodes.RightStep` | src/nodes_exec.cpp:2093-2231 | One left item's events bring its row, and no other, up to date |
| `OandNodes.SameNulls` | src/nodes_exec.cpp:2034-2040 | Sending only couples is right if and only if the modification does not cross between having partners and having none |
| `OandNodes.OandNode.CallByRight` | src/nodes_exec.cpp:2061-2080 | After an arrival from the right the counters are right if and only if no left item was missed, and then the stream keeps the left outer join downstream |
| `OandNodes.OandNode.CallByLeft` | src/nodes_exec.cpp:2008-2048 | From the left the stream keeps the left outer join downstream if and only if the arrival is not a modification that crosses between partners and none |
| `OandNodes.CrossesNullExample` | src/nodes_exec.cpp:2034-2040 | A tuple with the null single that is modified so as to match appears both ways |
| `Network.RuleChain.Pass` | src/nodes_exec.cpp:1700-1702 | A tuple that reaches a node, with everything it causes further down, leaves every memory of the chain holding what the node before it lets through |
| `Network.RuleChain.Run` | src/nodes_exec.cpp:1563-1969 | After any run of arrivals at any node of a left-deep chain, the production memory holds exactly the tuples whose parts are live and satisfy keys and conditions at every node |
| `Network.RuleChain.ExpectedMeans` | src/nodes_exec.cpp:1563-1969 | What the nodes select, part by part, down to the live objects |
| `Network.RuleChain.AdmitsModify` | src/nodes_exec.cpp:2273-2320 | The modification of a stored object is among the arrivals of a run if the nodes it meets do not key on it |
| `Network.RuleChain.ChainIsJoin` | src/nodes_exec.cpp:1563-1581 | Memories that agree node by node agree with the join of all of them |
| `Network.LiveIs` | src/nodes_exec.cpp:2240-2449 | An object is live at an input exactly if it was inserted there and not retracted since |
| `TypeCheck.CheckTypeSound` | src/expr.cpp:736-948 | The check puts every boolean where it is wanted, on the stack with its very value or in control with its truth, and the result is well typed |
| `TypeCheck.CheckTypeDecides` | src/expr.cpp:736-948 | The check succeeds, wherever a boolean is wanted, if and only if the expression has a type by those of its parts, and gives that type |
| `TypeCheck.WrittenMeans` | src/expr.cpp:736-948 | Written expressions are those whose leaves fit, whose casts are possible and that hold none of the operators the check puts in |
| `Negations.OptimizeSound` | src/expr.cpp:958-1053 | Pushing negations keeps the value, the place and the type of an expression with no negation on the stack over a cast or oddly over a constant, and tells the truth about whether the complement was absorbed |
| `Negations.OptimizeLeavesBuried` | src/expr.cpp:958-1053 | Written negations are left if and only if some stand below a cast |
| `Negations.ChainVerdict` | src/expr.cpp:966-994 | A chain of negations keeps its value if and only if it is even over a constant, and even over a value of 0 or 1 over a cast; over either it keeps its truth if and only if it is even, and over anything clean always |
| `Negations.FoldSound` | src/expr.cpp:1062-1205 | Folding constants keeps value, place and type |
| `Negations.FoldDecides` | src/expr.cpp:1062-1205 | Folding fails if and only if a constant is divided by a constant zero, and otherwise leaves no operation on constants where it goes |
| `Negations.FoldConstants` | src/expr.cpp:1140-1180 | Folding two constants gives their sum, difference, product or quotient |
| `Expressions.SemTyped` | src/expr.cpp:736-948 | The value of a checked expression is of its type, so no operation reads the wrong member of a stack slot |
| `Expressions.CalculateMeans` | src/nodes_exec.cpp:494-615 | A difference and the subtrahend sum to the minuend, a product is repeated addition, and a quotient truncates toward zero; only a division by zero has no result |
| `Expressions.NegativeMeans` | src/nodes_exec.cpp:622-645 | A value and its negative sum to zero |
| `Expressions.CompareStringsMeans` | src/nodes_exec.cpp:680-706 | Strings are ordered by the first place where they differ, or by one being the beginning of the other |
| `Machine.Unpack` | src/nodes_exec.cpp:1444-1447 | Decoding an access word gives back the side, the position and the attribute that were packed |
| `Machine.PackFits` | src/nodes_exec.cpp:1444-1447 | Only what fits in 1, 7 and 8 bits comes back |
| `Machine.RunTestIs` | src/nodes_exec.cpp:659-706 | The typed tests, with their own treatment of null strings, decide by one order on values |
| `CodeGen.CodeMeets` | src/expr.cpp:1472-1734 | Loaded code run from any position and any stack goes on to its end exactly if its condition is true, with the stack as it was, or adds exactly its value; a division by zero and nothing else is a fault; nested alternatives and evaluated conditions included, and written negations that are left counting as true |
| `CodeGen.CodedSame` | src/expr.cpp:1729-1732 | Without a written negation the code does exactly what is written |
| `CodeGen.FalseNegations` | src/expr.cpp:1729-1732 | So it does if every outermost written negation negates something false |
| `CodeGen.NegationRight` | src/expr.cpp:1729-1732 | A written negation that is left is right if and only if it negates something false; at the end of a conjunction or a disjunction, if and only if it is not reached or does |
| `CodeGen.AlternativesMeet` | src/nodes_exec.cpp:450-484 | The alternatives of a jump table, tried from any one on, do what the rest of the disjunction means, and a success leaves by the last word of the table |
| `CodeGen.EvalMeets` | src/nodes_exec.cpp:405-424 | An evaluated condition leaves 1 or 0 on the stack and goes on behind its code in either case |
| `CodeGen.ArithOpcode` | src/nodes_exec.cpp:494-615 | An arithmetic opcode replaces the two top values by their result, on top of an unchanged stack |
| `CodeGen.MinusOpcode` | src/nodes_exec.cpp:622-645 | A change of sign leaves what sums to zero with the value |
| `CodeGen.TruthOpcodes` | src/nodes_exec.cpp:405-443 | An evaluated condition and a negation leave the number 1 or the number 0 |
| `CodeGen.OrLaid` | src/expr.cpp:1493-1527 | The compiled table of a disjunction nested to the right says where each alternative ends |
| `Compiler.Buffer.CompileExpression` | src/expr.cpp:1472-1734 | Appending to the shared buffer adds exactly the specified words and returns the type of the value |
| `Compiler.Buffer.CompileOr` | src/expr.cpp:1493-1527 | Reserving the table, compiling the alternatives and filling in the slots afterwards gives the specified words |
| `Loader.LoadCode` | src/load.cpp:337-405 | The walk over the code array rewrites it in place, operation by operation, and touches nothing outside its range |
| `Loader.LoadAll` | src/load.cpp:391-407 | Loading the compiler's words at any position yields the code that CodeMeets is about: each jump, however nested, is a position, each call has its function |
| `Loader.Movable` | src/expr.cpp:1493-1527 | The compiler's words do not depend on where they will stand |
| `Execution.Interpreter.Execute` | src/nodes_exec.cpp:216-230 | The loop over operations, which moves the place and the stack, ends as the specification of the machine says |
| `Execution.Interpreter.TorCall` | src/nodes_exec.cpp:450-484 | The nested loops of the alternatives end as specified |
| `Execution.Interpreter.EvalCall` | src/nodes_exec.cpp:405-424 | The nested loop of an evaluated condition ends as specified |
| `Conditions.PrepareSound` | src/expr.cpp:651-663 | Checking, pushing negations and folding together keep the truth of a condition, and leave written negations exactly if some stand below a cast |
| `Conditions.PrepareDecides` | src/expr.cpp:651-663 | A condition compiles if and only if it is of type boolean and, rewritten, divides no constant by zero |
| `Conditions.NoStackNegation` | src/expr.cpp:958-1053 | Every condition whose negations are all decided by the flow of control is supported |
| `Conditions.NamesHold` | src/expr.cpp:651-726 | A condition with arithmetic, strings and a negation compiles and holds |
| `Conditions.CodeDecides` | src/expr.cpp:651-663 | A condition, compiled and loaded anywhere, lets an object on exactly if what its code stands for holds |
| `Conditions.ConditionDecides` | src/expr.cpp:651-663 | Its verdict is that of the written condition if and only if taking the negations below casts as true changes nothing; always if there are none or they negate nothing but what is false |
| `Conditions.Test` | src/expr.cpp:651-726 | The whole way from the written condition through buffer, loader and machine compiles exactly what can be compiled, and gives the verdict of the condition, or with negations below casts the verdict of what its code stands for |
| `Conditions.BuriedIsDropped` | src/expr.cpp:1729-1732 | No code is made for a negation below a cast, nor for what it negates |
| `Conditions.BuriedVerdict` | src/expr.cpp:1729-1732 | A cast of a conjunction that ends in a negation comes out right if and only if the negation is not reached or what it negates is false |
| `Keys.GetInterKeysInCode` | src/nodes.cpp:2519-2567 | The scan collects a key for each leading test for equality between the sides, and stops at the first other code |
| `Keys.KeyRoundTrip` | src/keys.cpp:40-43 | Reading a packed key gives back its type and both places |
| `Keys.KeyReads` | src/keys.cpp:34-54 | A key reads, on each side, the attribute that the test's own accesses push |
| `Keys.CompareIsTest` | src/keys.cpp:67-104 | Two attributes compare as equal under a key exactly if the opcode's test passes, in either order |
| `Keys.CompareKeyMeans` | src/keys.cpp:67-104 | A key orders two attributes as the tests of its letter do, and the other way round when they are exchanged |
| `Keys.CompareKeyChain` | src/keys.cpp:67-104 | The order of a key is transitive |
| `Keys.RankMeans` | src/keys.cpp:67-104 | Any values of a key's letter can be numbered in its order, as the trees of several levels assume |
| `Keys.IndexAgrees` | src/nodes_exec.cpp:1563-1581 | Of the words of a condition: the leading tests stop a couple exactly if its items differ under some key, and for any other couple all the words do what the remaining ones do; whether those reach the node is decided at src/nodes.cpp:476-496, see `NodeCode.RestArrives` |
| `LeadingTests.KeysOfCode` | src/nodes.cpp:2519-2567 | The keys of compiled code are those of the first conjuncts, as long as each compares an attribute of one side with one of the other for equality, and their tests are typed |
| `NodeCode.InterNode.AddCode` | src/nodes.cpp:463-510 | In place, new keys come behind the old ones, the old tests are moved up unchanged, what was copied of the remaining words comes behind them, loaded, and both counts follow; nothing else in the header changes |
| `NodeCode.RestArrives` | src/nodes.cpp:487-492 | Whatever memory holds, the remaining words arrive as the node's new tests if and only if there are no keys or no remaining words |
| `NodeCode.CopyBytesMeans` | src/nodes.cpp:489 | Byte by byte, the first n come from the one and the others stay |
| `NodeCode.TestIsLost` | src/nodes.cpp:489 | With one key and five remaining words, five bytes arrive instead of five words |
| `NodeCode.LostTestFaults` | src/nodes.cpp:489-491 | What arrives then is no code |
| `NodeCode.NodeDecides` | src/nodes.cpp:476-508 | When all words are keys or none is, a couple has equal keys and passes the node's tests exactly if the whole condition lets it through |
| `NodeCode.KeysLoaded` | src/nodes.cpp:476 | Loading does not change which tests are leading ones |
| `NodeCode.MovedTests` | src/nodes.cpp:481-483 | Loaded tests that are moved up are what loading at the new place would give if and only if nothing is moved or nothing in them jumps |
| `NodeCode.DisjunctionJumps` | src/expr.cpp:1493-1527 | The code of every disjunction jumps |
| `Keys.KeysModified` | src/keys.cpp:116-149 | An object is indexed again exactly if some key reads an attribute of it that differs |
| `Keys.UnmodifiedKeepsPlace` | src/keys.cpp:116-149 | An object not indexed again compares under every key as it did before |
| `Keys.DiffersMeans` | src/keys.cpp:130-143 | An attribute differs if and only if something compares differently with it |
| `Agenda.ReachesKeepsOrderly` | src/nodes_exec.cpp:4279-4429 | A tagged tuple at a production node keeps the agenda in order: each match waits at most once, in its category, and its executions are a prefix of INSERT MODIFY* RETRACT over and over |
| `Agenda.RunsKeepsOrderly` | src/nodes_exec.cpp:4436-4456 | So does running the agenda |
| `Agenda.AlwaysOrderly` | src/nodes_exec.cpp:4279-4456 | In every run from an empty agenda |
| `Agenda.ProdCallMeans` | src/nodes_exec.cpp:4279-4429 | What each tag does to a match that is stored or not and waits or not: its memory, its place at the head of its category, and the executions |
| `Agenda.AlwaysInOrder` | src/nodes_exec.cpp:4279-4456 | In every run, the first execution of a match and each one after a RETRACT is an INSERT, and no other one is |
| `Agenda.RetractedBeforeItsInsert` | src/nodes_exec.cpp:4395-4414 | A match retracted before its INSERT ran is never executed and no longer waits |
| `Agenda.AlwaysNewestFirst` | src/confset.cpp:45-75 | In every run, each queue is in the order in which its entries began to wait, the newest first |
| `Agenda.RunsNewest` | src/confset.cpp:102-110 | After every run, what is executed next is the newest of all entries that wait in the first category that has any |
| `Agenda.NewestRunsFirst` | src/confset.cpp:45-55 | Queueing a match and then running it, when nothing better waits, leaves the queues as they were |
| `ConflictSets.Queues.Insert` | src/confset.cpp:45-55 | Relinking puts an entry at the head of its list and leaves the other lists alone |
| `ConflictSets.Queues.Remove` | src/confset.cpp:62-75 | Relinking takes exactly that entry out of its list, wherever it stands |
| `ConflictSets.Queues.BestCset` | src/confset.cpp:102-110 | The head of the first list that is not empty |
| `ConflictSets.Scheduler.ProdCall` | src/nodes_exec.cpp:4279-4429 | The production node with its memory, its index of entries and the linked lists does what the abstract agenda does |
| `ConflictSets.Scheduler.RunCs` | src/nodes_exec.cpp:4436-4456 | Running executes the newest entry of the first category that has one, and takes it from index and list |
| `ActionQueue.Queue.Push` | src/actions.cpp:137-142 | The action comes at the end, and the tail slot is the end |
| `ActionQueue.Queue.Pop` | src/actions.cpp:109-131 | The first action behind a slot that is not a mere change is taken, the changes before it are gone, everything before the slot is as it was, and the tail slot is again the end |
| `ActionQueue.Queue.DoLoop` | src/eng.cpp:234-396 | When it returns, only the first action behind the slot is gone, with all that was derived from it; what was queued before and beside it is there in order, the tail slot is the end, and the actions were carried out depth first |
| `ActionQueue.Queue.Consequences` | src/eng.cpp:304-362 | Running rules and draining what each one queues leaves the list as it was before the action |
| `ActionQueue.Queue.Drain` | src/eng.cpp:359-360 | Nothing is left behind the slot, and each action had all its consequences before the next |
| `Hoisting.HopKeepsPaths` | src/nodes.cpp:1433-1478 | Putting a node above its parent, copied if others share it, leaves the set of conditions on every path from the root to an end as it was |
| `Hoisting.MoveUp` | src/nodes.cpp:1387-1421 | Passing all parents without other children changes no path, and stops below the target or at a shared parent; with no shared parent on the way it reaches the target |
| `Hoisting.MoveUpTo` | src/nodes.cpp:1339-1347 | The node becomes a child of the target and no path changes; each round is strictly nearer |
| `Hoisting.OthersStay` | src/nodes.cpp:1339-1347 | The other children of the target stay where they were beside what is left of the parents |
| `Hoisting.MovedUpUseful` | src/nodes.cpp:1387-1478 | Moving a node leaves no filter without an end below it where there was none |
| `Hoisting.PathsMean` | src/nodes.cpp:1433-1478 | The conditions of a path are those of the filters on some way to its end |
| `Hoisting.JoinKeepsPaths` | src/nodes.cpp:1486-1507 | Two children with equal code, wherever they stand among the others, become one with the children of both, and every path is kept |
| `Hoisting.Share` | src/nodes.cpp:1299-1317 | Moving a node to the target, then an equal node found anywhere below the target, and joining the two leaves the set of conditions on every path from the root to an end as it was |

## Left out

- BTreeStore.BTree.Insert: the comparator is a total order given by an integer rank; the truncation of pointer and long differences to int is not modelled.
- BTreeStore.BTree.WalkBy: walking is proved for trees of fewer than 120932351 items, where ten frames suffice; the code does not check the bound.
- BTreeStore.BTree.FindBiggerThan: in place for a tree without keys; the descent by keys before it (src/btree.cpp:306-307) is on values, in `Indexes.KeyedPartners`.
- AndNodes.AndNode.CallByLeft: a node sends the tuples of one arrival on after its scan and not during it; its own memories are touched by nothing downstream, so each memory sees the same events in the same order. The trigger flag, under which nothing is stored, is not modelled.
- NandNodes.NandNode.CallByLeft: for a modification of a stored tuple that also changes its key and so misses a right item, nothing is claimed about the counts and what is sent; the same holds for OAND.
- Network.RuleChain.Run: an OAND node takes arrivals from the right only as the last node of the chain, and a modification only travels through AND nodes whose keys it keeps, since modifications at the left of NAND and OAND nodes can go wrong as stated above.
- AndNodes.AndNode.CallByRight: a modification of an object that is stored in both memories of one node, where one shared state is switched for both sides, is not modelled; nor is it for the other join nodes.
- WandNodes.WandNode.CallByLeft: a modified tuple keeps its time, which the code takes when the object is stored; the removal of items that are too old for a window is not modelled, and neither are the timed forms of NAND and OAND.
- MultiTree.PutSound: the tree of trees is modelled on values, so that a subtree is exchanged for a new one where the code changes it in place; the single-level tree is modelled in place.
- TimeWindow.FindPartners: the memory is one tree in place; with keys the same is stated on values in `Indexes.KeyedPartners`.
- TypeCheck.CheckTypeSound: the expression tree is rewritten on values where the code overwrites nodes and child pointers; aliasing between trees does not occur. Aggregates over sets, access to times, and the names and scopes of variables are not part of this model.
- Negations.FoldSound: floats are real numbers, without rounding, infinities or NaN; integers do not overflow; dividing constants by zero ends the compilation.
- Machine.Step: an operation that would jump backward or leave the code is a fault in the model, which compiled code never meets; strings are compared by characters, without a locale; the size of the data stack is not limited.
- Loader.LoadCode: opcodes stand for the function pointers that replace them, and an unknown function is not an error.
- Keys.GetInterKeysInCode: the buffer of 128 keys is not limited.
- NodeCode.InterNode.AddCode: positions count from the beginning of the node's code, so a block that realloc puts elsewhere, with jumps still into the old one, is not modelled; a torn word that holds no number counts as not written; code added from another node or to the order of a set is not modelled.
- NodeCode.NodeDecides: stated for one condition at the end of a node's tests; jumps in the tests before it are what `NodeCode.MovedTests` is about.
- ActionQueue.Queue.DoLoop: what an action leads to is given with it as a finite tree, so runs of rules that never end are left out; the notifications to the user and the deletion marks of objects are not modelled.
- ConflictSets.Scheduler.ProdCall: rules marked as triggers, and the effects of executing a rule other than that it was executed, are not modelled.
- Hoisting.MoveUpTo: the network between the target and the node is a value rebuilt around the node instead of parent and child lists relinked in place; a parent is copied if it has other children, and path counts are not modelled.
- The lexer, the grammar, file loading, tracing, memory management, reference counts and the marking of nodes by scope before a modification are not modelled.
