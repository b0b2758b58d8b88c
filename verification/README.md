# Verified models of the algorithms in INET's common library

The repository bundles the INET framework, whose directory
`lib/inet/src/inet/common` holds the algorithms the simulations rest on. This
project models seven of them in Dafny and proves what they are for. `dafny verify
dfyconfig.toml` checks all of it.

- **IntervalTree.dfy** - the red-black tree of time intervals. Nodes are objects
  with mutable links, colours and `max_high`; rotations, insertion, deletion by
  splicing and the query with its own stack are methods on them. The ghost fields
  `sub` and `bh` of a node (the set of nodes below it, the black nodes on each path)
  let every invariant be stated node by node. Every operation keeps the invariants.
  The query is a recursive search of the tree with the stack made explicit, and answers
  as a linear scan does.
- **Topology.dfy** - the mutable graph of nodes and links that each link is recorded
  in twice, with breadth-first search and the Dijkstra variant whose queue is a sorted
  list. Distances are least over all paths; editing keeps the records consistent.
- **Macho.dfy** - the hierarchical state machine engine. User states are a finite tree,
  init actions a function, event handlers a script of reactions; ghost fields record
  the entry and exit actions, the states visited and the transitions asked for. The
  main results are about whole runs: the engine takes the steps of a deterministic
  machine of values (`Config`, `Next`), every one and no others.
- **PatternMatcher.dfy, PatternTexts.dfy** - the glob compiler and the backtracking matcher,
  against a declarative meaning of patterns; the texts that patterns can be written as, and
  what each text matches, piece by piece.
- **Bitwise.dfy, Int128.dfy** - 128-bit arithmetic on two 64-bit words, against the
  integers.
- **MemoryStreams.dfy** - the bit-level writer and reader, which undo each other.
- **Units.dfy** - conversion between units of measurement, which keeps the quantity.
- **Prelude.dfy** - the option type and a fact on sequences that several of these use.

Code that changes objects or runs loops is a class with methods, specified by their
effect on a function of the state or by invariants; the two mirror images of a loop
body in the tree are one method with a parameter that picks the side. The parts of the
code that only compute are functions with lemmas.

Some properties one would expect do not hold of the code, and are stated with the exact
condition under which they do:

- a query that starts at the sentinel value of `nil` or before takes every missing child for a
  subtree that reaches it, and can overlook leaves; one for intervals stored backwards can skip
  them (`IntervalTrees.IntervalTree.QueryAsScan`, `IntervalTrees.IntervalTree.OverlookedExactly`;
  `IntervalTrees.IntervalTree.Overlooks` and `IntervalTrees.IntervalTree.SkipsBackward` build
  trees where it does);
- a backslash before `[` does not keep it from starting a numeric range, against the
  documentation (`PatternMatching.EscapedPattern`; `\[1..2]` in
  `PatternMatching.EscapedBracketStillOpens`);
- `operator<` misorders some negative numbers, such as -2^64 and -2^63
  (`Int128s.Int128.LessExactly`, `Int128s.Int128.LessFails`), though not those that
  division compares;
- `Int128::set` takes a letter worth as much as the radix for a digit: the text `a` is ten
  (`Int128s.ReadStrictly`, `Int128s.ReadLetter`);
- division by -2^127 never ends, division of -2^127 gives zero, and `toString` writes it as
  -0 (`Int128s.EndsExactly`, `Int128s.Endless`, `Int128s.Int128.Div`, `Int128s.ReadText`);
- `writeByte` is right at byte boundaries and in the middle of a byte only, elsewhere not even
  for the value 1 (`MemoryStreams.RightPartsExactly`, `MemoryStreams.DividedExactly`);
- `writeNBitsOfUint64Be` and `readNBitsToUint64Be` make their mask in the type `int`, and are
  right for all values, even just those that fit, exactly up to 31 bits
  (`MemoryStreams.WrittenExactly`, `MemoryStreams.ReadExactly`; with 2^31 in 32 bits
  `MemoryStreams.MaskFails`, `MemoryStreams.ReadFails`);
- adding a link between gates whose modules are not both in the graph removes the link
  and then fails, leaving it unusable (`Topologies.Topology.AddLinkBetweenGates`;
  `Topologies.Topology.LosesLink` builds a graph for such a call).

## Model

| member | source | states |
|---|---|---|
| `IntervalTrees.IntervalTree.constructor` | `lib/inet/src/inet/common/IntervalTree.cc:58-77` | a new tree is valid and holds nothing, and its two sentinels are its own new objects, so that it can be used at once |
| `IntervalTrees.IntervalTree.LeftRotate` | `lib/inet/src/inet/common/IntervalTree.cc:116-138` | a left rotation keeps parent links, search order, subtrees and `max_high`, and changes just the links around its two nodes; both sides of the fake root and a missing inner child included |
| `IntervalTrees.IntervalTree.RightRotate` | `lib/inet/src/inet/common/IntervalTree.cc:140-161` | the same for a right rotation |
| `IntervalTrees.IntervalTree.FindSlot` | `lib/inet/src/inet/common/IntervalTree.cc:166-179` | the descent ends at an empty place on the side where the new key belongs for every node above, equal keys going right |
| `IntervalTrees.IntervalTree.RecursiveInsert` | `lib/inet/src/inet/common/IntervalTree.cc:163-185` | linking the leaf keeps the search tree and its links; `max_high` is wrong only on the way up from the leaf; an equal key goes right |
| `IntervalTrees.IntervalTree.FixupMaxHigh` | `lib/inet/src/inet/common/IntervalTree.cc:187-194` | one way up makes every `max_high` the maximum of its subtree, given it was wrong on that way only |
| `IntervalTrees.IntervalTree.PushUp` | `lib/inet/src/inet/common/IntervalTree.cc:211-219` | the red-uncle case: black counts stay equal and the one possible clash moves two levels up |
| `IntervalTrees.IntervalTree.Straighten` | `lib/inet/src/inet/common/IntervalTree.cc:220-226` | the inner-grandchild case becomes the outer one, nothing else being broken |
| `IntervalTrees.IntervalTree.Settle` | `lib/inet/src/inet/common/IntervalTree.cc:227-230` | the outer-grandchild case: one rotation ends the clash with all black counts equal |
| `IntervalTrees.IntervalTree.RestoreColours` | `lib/inet/src/inet/common/IntervalTree.cc:207-255` | the recolouring loop ends, because what is below the clash grows, and leaves a red-black tree with a black top node and right `max_high` |
| `IntervalTrees.IntervalTree.Insert` | `lib/inet/src/inet/common/IntervalTree.cc:196-257` | `insert` keeps every invariant of the tree and adds exactly one node, storing the interval given; a second interval that starts no earlier becomes the right child of the first |
| `IntervalTrees.IntervalTree.GetMinimum` | `lib/inet/src/inet/common/IntervalTree.cc:259-264` | the node found has no left child and the least key of the subtree |
| `IntervalTrees.IntervalTree.GetSuccessor` | `lib/inet/src/inet/common/IntervalTree.cc:273-289` | the least node to the right; otherwise the ancestor whose left subtree the node ends, or the fake root if it ends the tree |
| `IntervalTrees.IntervalTree.KinHere` | `lib/inet/src/inet/common/IntervalTree.cc:353-355` | while a black node is missing on one side, the sibling there is a stored node with one black node more |
| `IntervalTrees.IntervalTree.Case1Turned` | `lib/inet/src/inet/common/IntervalTree.cc:356-362` | after the red-sibling rotation the shortage is where it was, under a red parent with a black sibling |
| `IntervalTrees.IntervalTree.Case2` | `lib/inet/src/inet/common/IntervalTree.cc:363-367` | two black nephews: repainting moves the shortage one level up |
| `IntervalTrees.IntervalTree.Case3Turned` | `lib/inet/src/inet/common/IntervalTree.cc:370-376` | a red inner nephew becomes a red outer one |
| `IntervalTrees.IntervalTree.Case4Turned` | `lib/inet/src/inet/common/IntervalTree.cc:377-381` | a red outer nephew: one rotation ends the shortage and leaves a red-black tree |
| `IntervalTrees.IntervalTree.Sink` | `lib/inet/src/inet/common/IntervalTree.cc:353-414` | one round of `deleteFixup`, on either side: the shortage moves up or ends; a saved `root_left_node` that a rotation made stale is then the red parent of the node, so the loop still stops in time |
| `IntervalTrees.IntervalTree.PayOff` | `lib/inet/src/inet/common/IntervalTree.cc:416-416` | blackening the last node repairs what is left, be it red, the top node, or the shared `nil` |
| `IntervalTrees.IntervalTree.DeleteFixup` | `lib/inet/src/inet/common/IntervalTree.cc:346-417` | the loop ends and restores all invariants, with `root_left_node` read only once at the start, and also where x is `nil` |
| `IntervalTrees.IntervalTree.Detach` | `lib/inet/src/inet/common/IntervalTree.cc:450-466` | splicing out a node with a missing child keeps the search tree, with one side short exactly if the node was black |
| `IntervalTrees.IntervalTree.FreedFits` | `lib/inet/src/inet/common/IntervalTree.cc:450-450` | the key of the successor fits where the node to be deleted is |
| `IntervalTrees.IntervalTree.Substitute` | `lib/inet/src/inet/common/IntervalTree.cc:470-482` | the successor in the place of the deleted node: links, order, subtrees and `max_high` are right again |
| `IntervalTrees.IntervalTree.TakeOver` | `lib/inet/src/inet/common/IntervalTree.cc:470-491` | with the colour of the deleted node the successor leaves at most the shortage at x |
| `IntervalTrees.IntervalTree.DeleteNode` | `lib/inet/src/inet/common/IntervalTree.cc:444-501` | `deleteNode(Node*)` keeps every invariant, removes exactly that node (the successor moves, no node is copied) and returns its interval |
| `IntervalTrees.IntervalTree.RecursiveSearch` | `lib/inet/src/inet/common/IntervalTree.cc:426-442` | the node found stores the interval; `nil` means that no node below does |
| `IntervalTrees.IntervalTree.DeleteInterval` | `lib/inet/src/inet/common/IntervalTree.cc:419-424` | `deleteNode(const Interval*)` removes one node storing the interval if there is one and otherwise changes nothing |
| `IntervalTrees.IntervalTree.MaxBound` | `lib/inet/src/inet/common/IntervalTree.cc:136-137` | `max_high` bounds every right end in its subtree |
| `IntervalTrees.IntervalTree.MaxWitness` | `lib/inet/src/inet/common/IntervalTree.cc:136-137` | and one node in the subtree attains it |
| `IntervalTrees.IntervalTree.PruneLeft` | `lib/inet/src/inet/common/IntervalTree.cc:531-531` | a left subtree that `query` skips has no overlapping interval |
| `IntervalTrees.IntervalTree.PruneRight` | `lib/inet/src/inet/common/IntervalTree.cc:553-560` | if the left subtree reaches the query and nothing in it overlaps, neither does the node nor anything to its right: dropping an entry with `try_right_branch` unset loses nothing |
| `IntervalTrees.WentLeft` | `lib/inet/src/inet/common/IntervalTree.cc:531-546` | in the recursion that the stack replaces, putting off the right subtree loses nothing, and leaves fewer visits to come |
| `IntervalTrees.WentRight` | `lib/inet/src/inet/common/IntervalTree.cc:547-548` | nor does going right at once |
| `IntervalTrees.CameBack` | `lib/inet/src/inet/common/IntervalTree.cc:550-560` | nor taking up the right subtree of a dropped entry, if a hit was recorded there, with the hit recorded below, too |
| `IntervalTrees.IntervalTree.LoneRight` | `lib/inet/src/inet/common/IntervalTree.cc:196-501` | in a balanced tree a right child without a sibling has no children |
| `IntervalTrees.IntervalTree.PruneRightLow` | `lib/inet/src/inet/common/IntervalTree.cc:531-560` | from the sentinel bound on, if the left subtree exists and nothing but overlooked nodes in it overlaps, nothing to the right does: its least node is never overlooked |
| `IntervalTrees.IntervalTree.NothingRight` | `lib/inet/src/inet/common/IntervalTree.cc:550-560` | so for every bound: where nothing that counts is found on the left, what overlaps to the right is overlooked |
| `IntervalTrees.IntervalTree.Report` | `lib/inet/src/inet/common/IntervalTree.cc:526-530` | an overlapping node is reported and the hit recorded at the entry searched under |
| `IntervalTrees.IntervalTree.Visit` | `lib/inet/src/inet/common/IntervalTree.cc:526-548` | one round of the outer loop is one step of the recursion, with the growing stack and its parent indices |
| `IntervalTrees.IntervalTree.DropEntry` | `lib/inet/src/inet/common/IntervalTree.cc:553-559` | one round of the inner loop: what the recursion does when it comes back |
| `IntervalTrees.IntervalTree.Backtrack` | `lib/inet/src/inet/common/IntervalTree.cc:550-560` | the inner loop ends with a node to search, or with the stack down to its bottom entry |
| `IntervalTrees.IntervalTree.Query` | `lib/inet/src/inet/common/IntervalTree.cc:516-563` | `query` ends on every valid tree, for all bounds, below the value of `nil` too, and intervals of either direction, reports exactly what a recursive search reports, in the same order, and leaves its stack as the next call needs it |
| `IntervalTrees.IntervalTree.FoundComplete` | `lib/inet/src/inet/common/IntervalTree.cc:531-560` | whatever the intervals, such a search finds all overlapping nodes below a node exactly if at every node there the side it leaves out has none: the left one, if it ends before the query, or the right one, if the left one has none |
| `IntervalTrees.IntervalTree.FoundSound` | `lib/inet/src/inet/common/IntervalTree.cc:526-530` | and it finds no others, and none twice |
| `IntervalTrees.IntervalTree.FoundExactly` | `lib/inet/src/inet/common/IntervalTree.cc:516-563` | if all intervals run forwards, it finds every overlapping node that is not overlooked, once, and no other |
| `IntervalTrees.IntervalTree.FoundFromTop` | `lib/inet/src/inet/common/IntervalTree.cc:504-563` | so a query does, of all stored nodes |
| `IntervalTrees.IntervalTree.OverlookedExactly` | `lib/inet/src/inet/common/IntervalTree.cc:531-560` | overlooked are exactly, for a query that starts at the value of `nil` or before, leaves on the right of a node with nothing on its left; above that value nothing is |
| `IntervalTrees.IntervalTree.Overlooks` | `lib/inet/src/inet/common/IntervalTree.cc:516-563` | a tree built by two inserts where a search from that value on finds one of two overlapping intervals |
| `IntervalTrees.IntervalTree.SkipsBackward` | `lib/inet/src/inet/common/IntervalTree.cc:531-548` | a tree built by two inserts where an overlapping interval that runs backwards is skipped |
| `IntervalTrees.IntervalTree.HitsAreScan` | `lib/inet/src/inet/common/IntervalTree.cc:504-514` | distinct nodes that are the overlapping ones are, as a bag, what a scan of any listing of the stored nodes finds, and fewer if some are lost |
| `IntervalTrees.IntervalTree.QueryAsScan` | `lib/inet/src/inet/common/IntervalTree.cc:504-563` | for any order of the stored nodes, and any intervals, `query` answers as a linear scan by `overlap` does, as a bag, if and only if it is fair at every node, that is, leaves out no side with an overlap; if the intervals run forwards, if and only if no overlapping node is overlooked |
| `IntervalTrees.OverlapExactly` | `lib/inet/src/inet/common/IntervalTree.cc:505-516` | two intervals, their ends included, have a time in common exactly if the code has them overlap and both run forwards |
| `IntervalTrees.IntervalTree.QueryMeans` | `lib/inet/src/inet/common/IntervalTree.cc:517-569` | while all intervals run forwards a query reports exactly those stored intervals that have a time in common with [low, high], each as often as it is stored, for every low later than the sentinel value, and from there on exactly if none of them is overlooked |
| `IntervalTrees.IntervalTree.HeightByBlack` | `lib/inet/src/inet/common/IntervalTree.cc:196-257` | the height of a subtree is at most twice its black count, and its size exponential in that count |
| `IntervalTrees.IntervalTree.HeightBound` | `lib/inet/src/inet/common/IntervalTree.cc:196-501` | after any mix of inserts and deletes the height is at most 2 log2(n + 1) |
| `Topologies.Topology.constructor` | `lib/inet/src/inet/common/Topology.cc:50-53` | a new graph is valid and empty, and has no bad weights |
| `Topologies.Topology.PositiveWeighable` | `lib/inet/src/inet/common/Topology.cc:436-456` | without bad weights anywhere the weighted search may be asked for any target |
| `Topologies.Topology.NoShorter` | `lib/inet/src/inet/common/Topology.cc:418-475` | labels with no link left to relax are lower bounds on every path of enabled links and nodes |
| `Topologies.Topology.RouteIsShortest` | `lib/inet/src/inet/common/Topology.cc:378-475` | following `outPath` reaches the target over enabled links, in exactly `dist` |
| `Topologies.Topology.RouteDescends` | `lib/inet/src/inet/common/Topology.cc:378-475` | and never goes through a node twice |
| `Topologies.Topology.MarkedExactly` | `lib/inet/src/inet/common/Topology.cc:386-461` | a node has an `outPath` exactly if it is not the target and has a finite distance, and that exactly if there is a path of finite length from it |
| `Topologies.Topology.LabelsAttained` | `lib/inet/src/inet/common/Topology.cc:432-461` | an `outPath` is an enabled link of an enabled node, and the distance is what remains at its end plus one hop, or plus the weight of the link and of the node there unless that is the target |
| `Topologies.Topology.LabelsLeast` | `lib/inet/src/inet/common/Topology.cc:432-461` | and no enabled link of an enabled node to a node that reaches the target offers less |
| `Topologies.Topology.Enqueue` | `lib/inet/src/inet/common/Topology.cc:465-471` | inserting before the first farther node keeps the queue sorted and free of repetitions |
| `Topologies.Topology.Requeue` | `lib/inet/src/inet/common/Topology.cc:459-472` | a shortened node is taken out of the queue and put back at its place |
| `Topologies.Topology.Scan` | `lib/inet/src/inet/common/Topology.cc:442-473` | the loop over incoming links relaxes all of them, never reopens a settled node and keeps the queue sorted |
| `Topologies.Topology.SettleNext` | `lib/inet/src/inet/common/Topology.cc:436-474` | one round settles the nearest waiting node for good |
| `Topologies.Topology.CalculateWeightedSingleShortestPathsTo` | `lib/inet/src/inet/common/Topology.cc:418-475` | each `dist` is the least cost over all paths of enabled links and nodes, counting the weights of intermediate nodes but of neither end, infinite where there is none; a missing target is an error; a node has an `outPath` exactly if it is reachable and not the target, whatever an earlier search left; weights must be good only where the search looks |
| `Topologies.Topology.Spread` | `lib/inet/src/inet/common/Topology.cc:400-414` | one round of the search labels all unlabelled neighbours one hop farther |
| `Topologies.Topology.CalculateUnweightedSingleShortestPathsTo` | `lib/inet/src/inet/common/Topology.cc:378-416` | each `dist` is the least hop count and `outPath` leads to the target in that many links; nodes that cannot reach it, and itself, have none, whatever an earlier search left |
| `Topologies.Topology.LowerBound` | `lib/inet/src/inet/common/Topology.cc:265-265` | binary search over unsigned ids finds the first that is not less |
| `Topologies.Topology.GetNodeFor` | `lib/inet/src/inet/common/Topology.cc:369-376` | a node is found exactly if one with that id is in the graph |
| `Topologies.Topology.AddNode` | `lib/inet/src/inet/common/Topology.cc:256-269` | the nodes stay sorted by unsigned id, the new one going in front of the first that is not less, and an unnumbered one to the end |
| `Topologies.Topology.DeleteLink` | `lib/inet/src/inet/common/Topology.cc:339-344` | the link leaves the two lists it is in and no other, all lists keeping their order |
| `Topologies.Topology.AddLink` | `lib/inet/src/inet/common/Topology.cc:297-314` | the link ends up once in the list of each end and nowhere else, wherever it was before (self-loops included); a gate id survives only where its node stays; weight and state are left alone |
| `Topologies.Topology.AddGoodLink` | `lib/inet/src/inet/common/Topology.cc:297-314` | so a graph without bad weights stays one, and the weighted search may follow |
| `Topologies.Topology.AddLinkBetweenGates` | `lib/inet/src/inet/common/Topology.cc:316-337` | the same by gates; it fails exactly if one of the modules has no node, and then a link that was in the graph is in no list but keeps its ends, so that it may not be used again: it stays usable exactly if the call succeeded or the link was not in the graph |
| `Topologies.Topology.LosesLink` | `lib/inet/src/inet/common/Topology.cc:316-337` | a graph of one node and a link in it for which that happens: module 2 has no node |
| `Topologies.Topology.DeleteNode` | `lib/inet/src/inet/common/Topology.cc:271-295` | exactly the node and the links at it are gone, self-loops included; every other list loses just these |
| `Topologies.Topology.ValidIncoming` | `lib/inet/src/inet/common/Topology.cc:378-475` | the graph that editing keeps is what the shortest-path methods need |
| `Macho.StateInstance.Exit` | `lib/inet/src/inet/common/Macho.cc:156-173` | exit actions run innermost first, up to the first state that properly contains the next one; the state itself exits on a self-transition; boxes go unless persistent |
| `Macho.StateInstance.Enter` | `lib/inet/src/inet/common/Macho.cc:139-154` | entry actions run outermost first, below the states that contain the previous one; the target is entered in any case; boxes are created where missing |
| `Macho.StateInstance.SaveHistory` | `lib/inet/src/inet/common/Macho.h:276-297` | every state above, through any number of states without history, remembers the child on the path if its history is shallow and the state left if it is deep |
| `Macho.StateInstance.SetHistorySuper` | `lib/inet/src/inet/common/Macho.h:733-739` | the same, starting at the parent |
| `Macho.PrefixIff` | `lib/inet/src/inet/common/Macho.h:788-792` | `isChild` is the order of chains: a state contains another exactly if its chain starts the other's |
| `Macho.KeptMeaning` | `lib/inet/src/inet/common/Macho.cc:147-163` | the states both chains share, short of the target, are those that neither exit nor enter |
| `Macho.KeptAtSource` | `lib/inet/src/inet/common/Macho.cc:163-163` | a state of the source's chain stays exactly if it properly contains the target |
| `Macho.KeptAtTarget` | `lib/inet/src/inet/common/Macho.cc:146-146` | a state above the target is not entered exactly if it contains the source |
| `Macho.Machine.Init` | `lib/inet/src/inet/common/Macho.cc:175-187` | the way on leads to a proper substate, whether to the history or where the init action says, and the history is cleared |
| `Macho.Machine.ExitPhase` | `lib/inet/src/inet/common/Macho.cc:354-355` | exactly the states to be left lose their boxes, and their exit actions come in order |
| `Macho.Machine.EnterPhase` | `lib/inet/src/inet/common/Macho.cc:370-371` | exactly the states to be entered get theirs, and their entry actions come in order |
| `Macho.Machine.SavePhase` | `lib/inet/src/inet/common/Macho.cc:357-359` | exactly the proper superstates of the state left update their histories |
| `Macho.Machine.SavedOk` | `lib/inet/src/inet/common/Macho.h:276-297` | what a state comes to remember is a proper substate of it |
| `Macho.Machine.StaysSound` | `lib/inet/src/inet/common/Macho.cc:354-371` | a transition keeps: every history is a proper substate of its owner, every active state has its box, no other has one that should be gone |
| `Macho.Machine.FreshStopped` | `lib/inet/src/inet/common/Macho.cc:248-266` | a machine over states that were never entered can be started |
| `Macho.Machine.Transition` | `lib/inet/src/inet/common/Macho.cc:345-394` | one transition: the machine stays valid and the new current state, trace, histories, boxes and next pending state are what they should be; a box survives exactly if it is persistent, or no box of its own, or its state is not left, and a state that contains both ends keeps its own |
| `Macho.Machine.StepOn` | `lib/inet/src/inet/common/Macho.cc:345-394` | a transition is one step of a deterministic machine of values: state, pending request, histories, clock, trace and states visited afterwards are all fixed by those before |
| `Macho.Machine.Settle` | `lib/inet/src/inet/common/Macho.cc:345-394` | the inner loop ends, as depth grows strictly after the first step, having made every step that init actions and histories ask for: what it did is a run of that machine, to where nothing is pending |
| `Macho.Machine.EndsBelow` | `lib/inet/src/inet/common/Macho.cc:345-394` | a run without events ends in or below the state asked for |
| `Macho.Machine.HandleEvent` | `lib/inet/src/inet/common/Macho.cc:396-401` | the event is consumed and the first reaction of the script carried out: the transition it asks for is pending, the event it posts too |
| `Macho.Machine.RattleOn` | `lib/inet/src/inet/common/Macho.cc:338-403` | with any finite script of handler reactions the engine ends with nothing pending, and all it did is a run of the machine of values from where it started, transitions before events, each event taking the next reaction; what became of each box is told by the trace |
| `Macho.Machine.RunUnique` | `lib/inet/src/inet/common/Macho.cc:338-403` | there is just one such run to an end: so the state, trace and histories that the engine ends with are determined |
| `Macho.Machine.RunHandles` | `lib/inet/src/inet/common/Macho.cc:396-402` | exactly the reactions consumed were carried out, in their order: what each asked for and posted was pending right after it |
| `Macho.Machine.HandledIsVisited` | `lib/inet/src/inet/common/Macho.cc:338-403` | and the state that a handler asked for, read at that moment, became current next, so these states occur in order among those visited |
| `Macho.Machine.HistoryReturns` | `lib/inet/src/inet/common/Macho.cc:175-187` | a state left for good is returned to: a handler that asks for the history of a state, which was left from c and not entered since, makes c current with deep history, with shallow history the substate next below that contains c, by way of the state or, through an alias, at once; one that asks for the state itself gets no farther than its init action says |
| `Macho.Machine.HistoryKept` | `lib/inet/src/inet/common/Macho.h:278-297` | until then a state with history remembers where it was left from, whatever else happens outside it |
| `Macho.Machine.InitActionRuns` | `lib/inet/src/inet/common/Macho.cc:175-187` | arriving without history leads on to where the init action asks, or nowhere |
| `Macho.Machine.HopHas` | `lib/inet/src/inet/common/Macho.cc:139-173` | in the actions of a transition exactly the states left have an exit and exactly those entered an entry |
| `Macho.Machine.SharedKept` | `lib/inet/src/inet/common/Macho.cc:139-173` | a state that contains both ends of a transition keeps its very box |
| `Macho.BoxedJoin` | `lib/inet/src/inet/common/Macho.cc:139-173` | what becomes of a box over two stretches of a run is what becomes of it over both together |
| `Macho.Machine.SinceKept` | `lib/inet/src/inet/common/Macho.h:299-303` | over any stretch of a run a box stays the very same exactly if it is persistent, or the shared empty one, or its state has no exit in the trace of that stretch |
| `Macho.Machine.Start` | `lib/inet/src/inet/common/Macho.cc:248-266` | a machine, new or shut down, sets out in Root with the state given pending, and all it does is a run from there |
| `Macho.Machine.Dispatch` | `lib/inet/src/inet/common/Macho.cc:396-402` | an event from outside takes the first reaction of the script; what follows is a run of the machine of values to where nothing is left to do, events posted included |
| `Macho.Machine.Shutdown` | `lib/inet/src/inet/common/Macho.cc:268-278` | shutdown adds to the trace exactly the exits from the current state to Top, innermost first; then all states entered were left, no box is left but those that outlive their state, and the machine may be started again |
| `Macho.Machine.ClearHistory` | `lib/inet/src/inet/common/Macho.h:811-815` | clearing one history keeps the machine valid |
| `Macho.Machine.ClearHistoryDeep` | `lib/inet/src/inet/common/Macho.cc:298-306` | exactly the histories of a state and its substates are cleared |
| `Macho.Machine.Nested` | `lib/inet/src/inet/common/Macho.cc:338-403` | over any run, each state is entered only when inactive and inside its parent and left only when innermost; the active states are exactly the chain from Top to the current state, and entries outnumber exits by one for these and by none for all others |
| `Macho.ReplayHop` | `lib/inet/src/inet/common/Macho.cc:354-371` | the actions of one transition turn the one chain into the other |
| `Macho.ReplayJourney` | `lib/inet/src/inet/common/Macho.cc:338-403` | so the actions of any run nest |
| `Macho.ReplayPrefix` | `lib/inet/src/inet/common/Macho.cc:338-403` | at every moment of a run, too |
| `Macho.Balanced` | `lib/inet/src/inet/common/Macho.cc:139-173` | a nesting trace enters each state as often as it leaves it, and once more if it is active |
| `PatternMatching.ReadsMeansCuts` | `lib/inet/src/inet/common/PatternMatcher.h:33-78` | matching element by element means that the line can be cut into parts the elements stand for |
| `PatternMatching.DigitsEnd` | `lib/inet/src/inet/common/PatternMatcher.cc:308-312` | a number is read to the end of its digits |
| `PatternMatching.ReadNumber` | `lib/inet/src/inet/common/PatternMatcher.cc:175-177` | the value read is that of the digits |
| `PatternMatching.PatternMatcher.ParseNumRange` | `lib/inet/src/inet/common/PatternMatcher.cc:164-191` | a range is recognised with either or both bounds missing, and only with exactly two dots and the closing character |
| `PatternMatching.PatternMatcher.ParseLiteralString` | `lib/inet/src/inet/common/PatternMatcher.cc:148-162` | the literal ends before a special character or at a bracket that starts a range, even behind a backslash |
| `PatternMatching.PatternMatcher.ParseSet` | `lib/inet/src/inet/common/PatternMatcher.cc:112-146` | sets and negated sets with ranges; a closing brace counts as a member where it comes first; a missing one is an error |
| `PatternMatching.PatternMatcher.ParseToken` | `lib/inet/src/inet/common/PatternMatcher.cc:56-94` | each round yields the element and the place that the function `Token` gives, whose meaning the lemmas on rendering and those of `PatternTexts` state |
| `PatternMatching.PatternMatcher.Tokenize` | `lib/inet/src/inet/common/PatternMatcher.cc:54-96` | the tokenizer ends on every text although a round at a bracket may consume nothing, and yields what the syntax says |
| `PatternMatching.PatternMatcher.SetPattern` | `lib/inet/src/inet/common/PatternMatcher.cc:49-110` | the compiled list is that of the pattern, framed by `**` in substring mode unless it is there already; errors are reported |
| `PatternMatching.PatternMatcher.constructor` | `lib/inet/src/inet/common/PatternMatcher.cc:36-38` | a matcher starts without a pattern |
| `PatternMatching.PatternMatcher.IsInSet` | `lib/inet/src/inet/common/PatternMatcher.cc:245-256` | a character is in a set exactly if one of the pairs encloses it |
| `PatternMatching.PatternMatcher.DoMatch` | `lib/inet/src/inet/common/PatternMatcher.cc:258-356` | the backtracking matcher answers exactly as the meaning of the remaining elements does |
| `PatternMatching.PatternMatcher.MatchAnySeq` | `lib/inet/src/inet/common/PatternMatcher.cc:326-334` | trying every end for `**` misses none |
| `PatternMatching.PatternMatcher.MatchCommonSeq` | `lib/inet/src/inet/common/PatternMatcher.cc:336-344` | nor for `*`, which stops at a dot |
| `PatternMatching.PatternMatcher.Matches` | `lib/inet/src/inet/common/PatternMatcher.cc:358-382` | `matches` holds exactly if the compiled list denotes the line: neither shortcut nor the check of the last two characters changes an answer |
| `PatternMatching.EndsInAnySeq` | `lib/inet/src/inet/common/PatternMatcher.cc:318-322` | a trailing `**` takes whatever is left |
| `PatternMatching.EndsInLiteral` | `lib/inet/src/inet/common/PatternMatcher.cc:323-324` | before a last literal, `**` asks just that the rest of the line ends in it |
| `PatternMatching.LastTwo` | `lib/inet/src/inet/common/PatternMatcher.cc:368-378` | a line that matches ends in the last two characters of a last literal |
| `PatternMatching.SubstringMode` | `lib/inet/src/inet/common/PatternMatcher.cc:98-106` | in substring mode a line matches exactly if some part of it does |
| `PatternMatching.PlainMatchesItself` | `lib/inet/src/inet/common/PatternMatcher.cc:410-415` | a pattern without wildcards compiles, and matches itself and nothing else |
| `PatternMatching.EscapedPattern` | `lib/inet/src/inet/common/PatternMatcher.cc:154-159` | escaping the special characters of a text always gives a pattern, and that matches the text and nothing else exactly if the text has no numeric range in brackets; with one it does not even match the text |
| `PatternMatching.RenderCompiles` | `lib/inet/src/inet/common/PatternMatcher.cc:49-191` | every list of elements that can be written at all (wildcards, sets, negated sets, ranges, literals of any characters) is what its canonical text compiles to |
| `PatternMatching.CompiledCanonical` | `lib/inet/src/inet/common/PatternMatcher.cc:49-191` | conversely a pattern compiles to such a list only: no two literals in a row, no `*` before another, no set that braces cannot hold |
| `PatternMatching.CanonicalExactly` | `lib/inet/src/inet/common/PatternMatcher.cc:49-191` | so these lists are exactly the images of the tokenizer |
| `PatternMatching.SetMeaning` | `lib/inet/src/inet/common/PatternMatcher.cc:112-146` | any text behind an opening brace: the set ends at the first closing brace that is not its first character, fails without one, and holds exactly the characters listed, where a minus sign between two characters makes a range of them unless the one before is such a sign or ends a range |
| `PatternMatching.BraceSet` | `lib/inet/src/inet/common/PatternMatcher.h:41-42` | `{...}` and `{^...}`, unless they are numeric ranges, match exactly one character that is listed, or is not |
| `PatternTexts.CompileMoved` | `lib/inet/src/inet/common/PatternMatcher.cc:49-191` | a text is compiled the same whatever stands before it, so that patterns can be read piece by piece |
| `PatternTexts.MatchOnce` | `lib/inet/src/inet/common/PatternMatcher.cc:36-43` | what a new matcher over whole lines answers is what the pattern text means |
| `PatternTexts.EmptyText` | `lib/inet/src/inet/common/PatternMatcher.cc:345-349` | the empty pattern matches the empty line only |
| `PatternTexts.LiteralText` | `lib/inet/src/inet/common/PatternMatcher.cc:148-162` | text in which special characters have a backslash before them, as any other may, and which has no bracketed range, is one literal - the text without these backslashes - in front of what follows compiles to, be that a wildcard, set, range or the end; and it matches that text in front of what follows matches |
| `PatternTexts.WholeText` | `lib/inet/src/inet/common/PatternMatcher.cc:148-162` | alone, such a text matches what it stands for |
| `PatternTexts.EscapeSpelled` | `lib/inet/src/inet/common/PatternMatcher.cc:154-157` | every text has such a spelling, with a backslash before the characters that need one |
| `PatternTexts.PlainSpelled` | `lib/inet/src/inet/common/PatternMatcher.cc:148-162` | a text without special characters is its own |
| `PatternTexts.QuestionText` | `lib/inet/src/inet/common/PatternMatcher.h:34-36` | `?` takes one character, in dotted patterns any but a dot |
| `PatternTexts.StarText` | `lib/inet/src/inet/common/PatternMatcher.h:34-36` | `*` takes any part of the line, in dotted patterns any without a dot |
| `PatternTexts.SeqText` | `lib/inet/src/inet/common/PatternMatcher.h:34-36` | `**` takes any part of the line |
| `PatternTexts.StarBehind` | `lib/inet/src/inet/common/PatternMatcher.cc:80-94` | such a text and `*` match the lines that start with the text it stands for and have no dot behind it, if the pattern is dotted |
| `PatternTexts.StarsInFront` | `lib/inet/src/inet/common/PatternMatcher.cc:80-94` | `**` and such a text match the lines that end in the text it stands for |
| `PatternTexts.QuestionBetween` | `lib/inet/src/inet/common/PatternMatcher.cc:58-94` | two such texts with `?` between match the lines of the texts they stand for with one character between |
| `PatternTexts.RangeExactly` | `lib/inet/src/inet/common/PatternMatcher.cc:164-191` | there is a numeric range exactly where digits, two dots, digits and the closing character follow, any of the digits perhaps missing, and its bounds are their numbers |
| `PatternTexts.RangeInBraces` | `lib/inet/src/inet/common/PatternMatcher.cc:71-78` | `{a..b}`, leading zeros or not, takes a number between them that the digits of the line end |
| `PatternTexts.RangeInBrackets` | `lib/inet/src/inet/common/PatternMatcher.cc:64-69` | text and `[a..b]` take the text, an opening bracket and such a number, before what matches a closing bracket and the rest |
| `PatternTexts.SetInBraces` | `lib/inet/src/inet/common/PatternMatcher.cc:112-146` | `{t}` and `{^t}`, t being any text but two runs of digits with two dots between, take one character that t lists, or does not |
| `PatternTexts.WildcardsExactly` | `lib/inet/src/inet/common/PatternMatcher.cc:410-415` | `containsWildcards` is false for exactly those texts that compile to themselves as one literal and have no two dots in a row |
| `PatternMatching.BracketPattern` | `lib/inet/src/inet/common/PatternMatcher.h:33-45` | `[n..m]`, with either bound or none, matches exactly the numbers within the bounds, in brackets |
| `PatternMatching.EscapedBracketStillOpens` | `lib/inet/src/inet/common/PatternMatcher.h:45-45` | an input that shows it: against the documentation, `\[1..2]` still contains a range |
| `PatternMatching.FullyEscapedPattern` | `lib/inet/src/inet/common/PatternMatcher.cc:154-157` | with a backslash before every character a pattern matches that text and nothing else |
| `Int128s.Int128.Negated` | `lib/inet/src/inet/common/int128.cc:162-168` | negation modulo 2^128 |
| `Int128s.Int128.Add` | `lib/inet/src/inet/common/int128.cc:204-214` | addition modulo 2^128, with the carry between the words |
| `Int128s.Int128.Subtract` | `lib/inet/src/inet/common/int128.h:128-131` | subtraction modulo 2^128 |
| `Int128s.Int128.Multiply` | `lib/inet/src/inet/common/int128.cc:216-237` | multiplication modulo 2^128 for all operands, negative multipliers included |
| `Int128s.MulStep` | `lib/inet/src/inet/common/int128.cc:229-234` | what one bit of the multiplier adds |
| `Int128s.Int128.ShiftRight` | `lib/inet/src/inet/common/int128.cc:321-350` | the shift rounds down, for every count |
| `Int128s.RightBits` | `lib/inet/src/inet/common/int128.cc:335-347` | word by word, with the bits that enter the low word |
| `Int128s.Int128.ShiftLeft` | `lib/inet/src/inet/common/int128.cc:352-380` | the shift is multiplication by a power of two modulo 2^128, for every count |
| `Int128s.LeftBits` | `lib/inet/src/inet/common/int128.cc:365-377` | word by word, with the bits that leave the low word |
| `Bitwise.ShrIsDiv` | `lib/inet/src/inet/common/int128.cc:321-350` | shifting right is floor division by a power of two |
| `Bitwise.ShlIsMul` | `lib/inet/src/inet/common/int128.cc:352-380` | shifting left is multiplication by one |
| `Int128s.Int128.TestBit` | `lib/inet/src/inet/common/int128.cc:291-300` | the bit is that of the value in two's complement, the sign repeated |
| `Int128s.Int128.SetBit` | `lib/inet/src/inet/common/int128.cc:302-319` | a bit changes the value by its weight modulo 2^128, exactly if it was not so before; nothing wraps below the sign bit |
| `Int128s.ChangedBits` | `lib/inet/src/inet/common/int128.cc:302-319` | adding that weight sets or clears the bit and leaves all others as they were |
| `Int128s.BitsAfterSet` | `lib/inet/src/inet/common/int128.cc:302-319` | and so in 128 bits, also where the value wraps around |
| `Bitwise.AndBits` | `lib/inet/src/inet/common/int128.cc:291-319` | the masks work bit by bit: the bitwise and |
| `Bitwise.OrBits` | `lib/inet/src/inet/common/int128.cc:302-319` | and so does the bitwise or |
| `Int128s.SetHighWraps` | `lib/inet/src/inet/common/int128.cc:307-318` | a bit of the high word, the sign included, changes the value by its weight modulo 2^128 |
| `Int128s.Int128.LessExactly` | `lib/inet/src/inet/common/int128.cc:382-392` | `operator<` is the order of the values except exactly for two negative numbers of equal high words whose low words differ in their top bits |
| `Int128s.Int128.LessFails` | `lib/inet/src/inet/common/int128.cc:382-392` | a pair that it gets wrong: of -2^64 and -2^63 it takes the second for the smaller |
| `Int128s.Int128.LessPositive` | `lib/inet/src/inet/common/int128.cc:250-268` | where division compares, one side not being negative, it is the order of the values |
| `Int128s.Int128.FirstBits` | `lib/inet/src/inet/common/int128.cc:259-265` | the first loop ends with the leading bits that just reach the divisor, no shift overflowing |
| `Int128s.Int128.Divide` | `lib/inet/src/inet/common/int128.cc:255-279` | the restoring loops give quotient and remainder of the magnitudes |
| `Int128s.Int128.Round` | `lib/inet/src/inet/common/int128.cc:267-279` | one round of the second loop is `NextLoop`, a function of quotient, remainder, bit, dividend and divisor, for all values |
| `Int128s.Int128.Loops` | `lib/inet/src/inet/common/int128.cc:255-279` | for magnitudes with a quotient the two loops are a run of that function from where the first one stops to an end |
| `Int128s.Int128.DivRounds` | `lib/inet/src/inet/common/int128.cc:246-279` | with the divisor -2^127 the rounds made, as many as one likes, are such a run, too |
| `Int128s.Endless` | `lib/inet/src/inet/common/int128.cc:246-279` | every run with the divisor -2^127, whatever the dividend, goes back and forth between the remainders 0 and -2^127 with all 128 bits still to come |
| `Int128s.NeverEnds` | `lib/inet/src/inet/common/int128.cc:267-279` | so it never comes to an end |
| `Int128s.EndsExactly` | `lib/inet/src/inet/common/int128.cc:246-279` | division by a divisor that is not zero comes to an end exactly if that is not -2^127, or the dividend is less, which it never is for that |
| `Int128s.Int128.Correct` | `lib/inet/src/inet/common/int128.cc:281-285` | the signs are then put right |
| `Int128s.Int128.Div` | `lib/inet/src/inet/common/int128.cc:239-289` | for every other divisor but zero: the dividend is quotient times divisor plus remainder, the remainder smaller than the divisor and zero or of the dividend's sign - also if the remainder overwrites one of them - exactly if the dividend is not -2^127, which gives the quotient zero |
| `Int128s.QuotientUnique` | `lib/inet/src/inet/common/int128.cc:239-289` | there is just one such pair |
| `Int128s.Int128.DivideBy` | `lib/inet/src/inet/common/int128.h:133-138` | `/=`, with the same exception |
| `Int128s.Int128.Modulo` | `lib/inet/src/inet/common/int128.h:140-144` | `%=`, where the remainder is the dividend itself, with the same exception |
| `Int128s.Int128.WriteDigits` | `lib/inet/src/inet/common/int128.cc:52-56` | the digit loop ends in the upper half of its 256 characters, for every radix and value |
| `Int128s.Int128.ToString` | `lib/inet/src/inet/common/int128.cc:37-62` | the text is the number in the radix, with sign, or the message for a radix out of range; -2^127 comes out as -0 |
| `Int128s.DigitChars` | `lib/inet/src/inet/common/int128.cc:52-56` | the digits are 0 to 9 and the capital letters, and `[` for the last one that radix 37 has |
| `Int128s.DigitsMean` | `lib/inet/src/inet/common/int128.cc:52-56` | in every radix up to 36 the digits written, read as digits of that radix, are the number |
| `Int128s.Int128.Set` | `lib/inet/src/inet/common/int128.cc:64-109` | the value is what the text says modulo 2^128: sign, radix by prefix, digits up to the first other character |
| `Int128s.ReadStrictly` | `lib/inet/src/inet/common/int128.cc:92-105` | that is the number made by the proper digits of the radix exactly if these do not end at the letter worth as much as the radix, `a` or `A` in radix 10, `g` or `G` in radix 16 |
| `Int128s.ReadLetter` | `lib/inet/src/inet/common/int128.cc:94-101` | an input that shows it: the text `a` is read as ten |
| `Int128s.ReadShow` | `lib/inet/src/inet/common/int128.cc:37-109` | a number shown in radix 10 is read back, every one |
| `Int128s.ReadText` | `lib/inet/src/inet/common/int128.cc:37-109` | so what `toString` writes `set` reads back, exactly if the value is not -2^127 |
| `Int128s.ReadPrefixed` | `lib/inet/src/inet/common/int128.cc:70-109` | a number written in radix 8 or 16 is read back behind its prefix 0 or 0x, every one |
| `MemoryStreams.MemoryOutputStream.WriteBit` | `lib/inet/src/inet/common/MemoryOutputStream.h:99-108` | one bit more in its place; as few bytes as possible, unused bits zero as long as they were |
| `MemoryStreams.MemoryOutputStream.WriteByte` | `lib/inet/src/inet/common/MemoryOutputStream.h:134-144` | at every fourth bit, eight bits more; at any offset, what becomes of the bytes |
| `MemoryStreams.RightPartsExactly` | `lib/inet/src/inet/common/MemoryOutputStream.h:138-141` | `writeByte` divides every value rightly exactly if the last byte is half full; elsewhere it fails on the value 1 already |
| `MemoryStreams.DividedExactly` | `lib/inet/src/inet/common/MemoryOutputStream.h:138-141` | and the bytes then hold every value exactly under the same condition |
| `MemoryStreams.MemoryOutputStream.WriteUint2` | `lib/inet/src/inet/common/MemoryOutputStream.h:186-189` | two bits more, at any offset |
| `MemoryStreams.MemoryOutputStream.WriteUint4` | `lib/inet/src/inet/common/MemoryOutputStream.h:195-200` | four bits more, at any offset |
| `MemoryStreams.MemoryOutputStream.WriteUint16Be` | `lib/inet/src/inet/common/MemoryOutputStream.h:214-217` | the two bytes, the highest first: written one after the other at any offset, and held as they are from every fourth bit on |
| `MemoryStreams.MemoryOutputStream.WriteUint16Le` | `lib/inet/src/inet/common/MemoryOutputStream.h:223-226` | the two bytes, the lowest first: written one after the other at any offset, and held as they are from every fourth bit on |
| `MemoryStreams.MemoryOutputStream.WriteUint24Be` | `lib/inet/src/inet/common/MemoryOutputStream.h:232-236` | the three low bytes, the highest first: written one after the other at any offset, and held as they are from every fourth bit on |
| `MemoryStreams.MemoryOutputStream.WriteUint24Le` | `lib/inet/src/inet/common/MemoryOutputStream.h:242-246` | the three low bytes, the lowest first: written one after the other at any offset, and held as they are from every fourth bit on |
| `MemoryStreams.MemoryOutputStream.WriteUint32Be` | `lib/inet/src/inet/common/MemoryOutputStream.h:252-257` | the four bytes, the highest first: written one after the other at any offset, and held as they are from every fourth bit on |
| `MemoryStreams.MemoryOutputStream.WriteUint32Le` | `lib/inet/src/inet/common/MemoryOutputStream.h:263-268` | the four bytes, the lowest first: written one after the other at any offset, and held as they are from every fourth bit on |
| `MemoryStreams.MemoryOutputStream.WriteUint64Be` | `lib/inet/src/inet/common/MemoryOutputStream.h:274-283` | the eight bytes, the highest first: written one after the other at any offset, and held as they are from every fourth bit on |
| `MemoryStreams.MemoryOutputStream.WriteUint64Le` | `lib/inet/src/inet/common/MemoryOutputStream.h:289-298` | the eight bytes, the lowest first: written one after the other at any offset, and held as they are from every fourth bit on |
| `MemoryStreams.BytesPutUnique` | `lib/inet/src/inet/common/MemoryOutputStream.h:134-177` | bytes written one after the other leave just one result, at a byte boundary the bytes appended |
| `MemoryStreams.ByteOrder` | `lib/inet/src/inet/common/MemoryOutputStream.h:214-298` | which byte comes where: byte i from the low end of the number is i-th from the end, or i-th |
| `MemoryStreams.BeAsNumber` | `lib/inet/src/inet/common/MemoryOutputStream.h:214-283` | the bytes with the highest first are the low part of the number |
| `MemoryStreams.LeAsNumber` | `lib/inet/src/inet/common/MemoryOutputStream.h:223-298` | those with the lowest first are it with its bytes reversed |
| `MemoryStreams.MemoryOutputStream.WriteBytes` | `lib/inet/src/inet/common/MemoryOutputStream.h:159-177` | the bytes, at a byte boundary |
| `MemoryStreams.MemoryOutputStream.WriteString` | `lib/inet/src/inet/common/MemoryOutputStream.h:335-338` | the bytes and a zero |
| `MemoryStreams.MemoryOutputStream.WriteNBits` | `lib/inet/src/inet/common/MemoryOutputStream.h:344-352` | the bits that the mask and its shifts pick out of the value, at any offset, for whatever int the mask is; the n low bits for n up to 31; an error for 0 and above 64 |
| `MemoryStreams.MaskLow` | `lib/inet/src/inet/common/MemoryOutputStream.h:347-351` | with the right mask these are the n low bits |
| `MemoryStreams.FittingExactly` | `lib/inet/src/inet/common/MemoryOutputStream.h:347-351` | all numbers of n bits are written as they are exactly if of the 2n - 1 low bits of the mask the bit n - 1 alone is set |
| `MemoryStreams.LowExactly` | `lib/inet/src/inet/common/MemoryOutputStream.h:347-351` | the n low bits of all numbers are written exactly if the mask is 2^(n-1) |
| `MemoryStreams.NoIntMask` | `lib/inet/src/inet/common/MemoryOutputStream.h:347-347` | from 32 bits to 64 no value of type int, converted to 64 bits, is such a mask |
| `MemoryStreams.WrittenExactly` | `lib/inet/src/inet/common/MemoryOutputStream.h:344-352` | so n bits of a value, of any value or just of one that fits, are written as they should be, for all values, exactly if n is at most 31 |
| `MemoryStreams.MaskFails` | `lib/inet/src/inet/common/MemoryOutputStream.h:347-347` | an input that shows it: of 2^31 in 32 bits, with `1 << 31` its sign repeated, the second bit comes out set |
| `MemoryStreams.MemoryInputStream.ReadBit` | `lib/inet/src/inet/common/MemoryInputStream.h:145-159` | the bit at the position; at the end false, and the flag |
| `MemoryStreams.MemoryInputStream.ReadByte` | `lib/inet/src/inet/common/MemoryInputStream.h:191-210` | the next eight bits at every offset; beyond the end zero, the flag and the position at the end |
| `MemoryStreams.MemoryInputStream.ReadUint2` | `lib/inet/src/inet/common/MemoryInputStream.h:264-269` | the next two bits |
| `MemoryStreams.MemoryInputStream.ReadUint4` | `lib/inet/src/inet/common/MemoryInputStream.h:275-282` | the next four bits |
| `MemoryStreams.MemoryInputStream.ReadUint16Be` | `lib/inet/src/inet/common/MemoryInputStream.h:296-301` | the next two bytes, the high one first |
| `MemoryStreams.MemoryInputStream.ReadUint16Le` | `lib/inet/src/inet/common/MemoryInputStream.h:307-312` | the next two bytes, the low one first |
| `MemoryStreams.MemoryInputStream.ReadUint24Be` | `lib/inet/src/inet/common/MemoryInputStream.h:318-324` | the next three bytes, the high one first |
| `MemoryStreams.MemoryInputStream.ReadUint24Le` | `lib/inet/src/inet/common/MemoryInputStream.h:330-336` | the next three bytes, the low one first |
| `MemoryStreams.MemoryInputStream.ReadUint32Be` | `lib/inet/src/inet/common/MemoryInputStream.h:342-349` | the next four bytes, the high one first |
| `MemoryStreams.MemoryInputStream.ReadUint32Le` | `lib/inet/src/inet/common/MemoryInputStream.h:355-362` | the next four bytes, the low one first |
| `MemoryStreams.MemoryInputStream.ReadUint64Be` | `lib/inet/src/inet/common/MemoryInputStream.h:368-379` | the next eight bytes, the high one first |
| `MemoryStreams.MemoryInputStream.ReadUint64Le` | `lib/inet/src/inet/common/MemoryInputStream.h:385-396` | the next eight bytes, the low one first |
| `MemoryStreams.MemoryInputStream.ReadBytes` | `lib/inet/src/inet/common/MemoryInputStream.h:227-240` | as many bytes as asked for or left, at any byte boundary; it fails exactly if it would end inside a byte |
| `MemoryStreams.MemoryInputStream.ReadString` | `lib/inet/src/inet/common/MemoryInputStream.h:437-442` | the bytes up to the first zero; the loop ends because zeros are read beyond the end |
| `MemoryStreams.MemoryInputStream.ReadNBits` | `lib/inet/src/inet/common/MemoryInputStream.h:448-459` | the number that the mask and its shifts make of the next n bits, zeros being read beyond the end, for whatever int the mask is; these n bits themselves for n up to 31; an error for 0 and above 64 |
| `MemoryStreams.GatheredAll` | `lib/inet/src/inet/common/MemoryInputStream.h:451-457` | with the right mask this is the number there |
| `MemoryStreams.ReadsExactly` | `lib/inet/src/inet/common/MemoryInputStream.h:451-457` | whatever n bits there are, they are read as the number they are exactly if the mask is 2^(n-1) |
| `MemoryStreams.ReadExactly` | `lib/inet/src/inet/common/MemoryInputStream.h:448-459` | and so, the mask being an int, exactly if n is at most 31 |
| `MemoryStreams.ReadFails` | `lib/inet/src/inet/common/MemoryInputStream.h:451-451` | an input that shows it: 2^31 in 32 bits is read as 2^64 - 2^31 |
| `MemoryStreams.PeekByte` | `lib/inet/src/inet/common/MemoryInputStream.h:199-200` | a byte at a byte boundary is the eight bits read there |
| `MemoryStreams.PeekMiddle` | `lib/inet/src/inet/common/MemoryInputStream.h:201-206` | elsewhere it is made of two bytes |
| `MemoryStreams.ReversedTwice` | `lib/inet/src/inet/common/MemoryInputStream.h:307-396` | the little-endian order of bytes undoes itself |
| `MemoryStreams.TextUnique` | `lib/inet/src/inet/common/MemoryInputStream.h:437-442` | a text without zeros is read back whole |
| `MemoryStreams.TotalPrefix` | `lib/inet/src/inet/common/MemoryOutputStream.h:94-352` | what was written first is unchanged by what follows |
| `MemoryStreams.FieldAt` | `lib/inet/src/inet/common/MemoryInputStream.h:140-459` | each value lies where those before it end |
| `MemoryStreams.WriteAll` | `lib/inet/src/inet/common/MemoryOutputStream.h:94-352` | any sequence of typed writes leaves ceil(length / 8) bytes that hold the values in order, unused bits zero |
| `MemoryStreams.ReadAll` | `lib/inet/src/inet/common/MemoryInputStream.h:140-459` | reads of the right kinds give back the fields that the bytes hold, from the bytes alone, end at the end, and never raise the flag |
| `MemoryStreams.ReadOne` | `lib/inet/src/inet/common/MemoryInputStream.h:140-459` | each read finds its field where those before it end |
| `MemoryStreams.ReadBack` | `lib/inet/src/inet/common/MemoryInputStream.h:140-459` | so a new reader over the bytes that a writer left gives the fields written, given their kinds |
| `MemoryStreams.RoundTrip` | `lib/inet/src/inet/common/MemoryInputStream.h:140-459` | no two sequences of fields of the same kinds leave the same bytes: what was written is determined by them |
| `MemoryStreams.FieldUnique` | `lib/inet/src/inet/common/MemoryInputStream.h:140-459` | nor two fields of one kind the same bits |
| `Units.ScalingFactor` | `lib/inet/src/inet/common/Units.h:593-741` | no scaling factor is zero, powers that are not whole included, whatever `std::pow` is beyond keeping positive numbers positive |
| `Units.QuantityInjective` | `lib/inet/src/inet/common/Units.h:302-455` | different values in a unit stand for different quantities |
| `Units.ConvertKeepsQuantity` | `lib/inet/src/inet/common/Units.h:302-455` | a conversion keeps the quantity that the value stands for, through any nesting of scales and offsets on either side |
| `Units.PathIndependent` | `lib/inet/src/inet/common/Units.h:302-455` | converting by way of any other unit gives what converting at once does |
| `Units.RoundTrip` | `lib/inet/src/inet/common/Units.h:302-455` | converting there and back changes nothing |
| `Units.LinearQuantity` | `lib/inet/src/inet/common/Units.h:671-741` | without offsets the scaling factor is all there is to a unit |
| `Units.ProductQuantity` | `lib/inet/src/inet/common/Units.h:678-687` | the product of two values in the product of their units stands for the product of the quantities |
| `Units.LayersMean` | `lib/inet/src/inet/common/Units.h:302-455` | a value counted in `scale<u, n, d>` is n / d times as large as in u, in `translate<u, n, d>` n / d larger, and back |
| `Units.PowerQuantity` | `lib/inet/src/inet/common/Units.h:602-731` | a value in u times one in a whole power of u, positive or negative, stands in the next higher power for the product of the two quantities |
| `Units.PowerStarts` | `lib/inet/src/inet/common/Units.h:602-731` | the first power of a unit stands for what the unit does, and the power zero for the number alone |
| `Units.InverseQuantity` | `lib/inet/src/inet/common/Units.h:602-731` | a unit times its power -1 stands for the number alone, and a power that is a fraction of whole value for that power |
| `Units.CubicMetre` | `lib/inet/src/inet/common/Units.h:1111-1120` | a million cubic centimetres are one cubic metre |
| `Units.CountIsExponent` | `lib/inet/src/inet/common/Units.h:457-529` | the fraction counted is the power of the base unit, and its denominator is not zero |
| `Units.ChecksOccurring` | `lib/inet/src/inet/common/Units.h:531-579` | the walk over a term compares the powers of just the base units in it |
| `Units.ConvertibleIff` | `lib/inet/src/inet/common/Units.h:581-591` | `convertible` holds exactly if every base unit has the same power in both units |
| `Units.ConvertibleIsEquivalence` | `lib/inet/src/inet/common/Units.h:581-591` | so it is an equivalence |
| `Units.PowersConvert` | `lib/inet/src/inet/common/Units.h:457-591` | powers, products, scales and offsets convert as they should: a power to a product with one factor more, the root of a power back, a product either way round |
| `Units.BasesConvert` | `lib/inet/src/inet/common/Units.h:531-591` | and different base units do not |

## Left out

- IntervalTrees.IntervalTree.Insert: no stored interval ends at the raw time -2^63, which is less than the value of `nil`.
- IntervalTrees.IntervalTree.DeleteNode: the memory of the node, and how long the interval returned stays alive, are not modelled.
- IntervalTree: printing, `getMaximum` and `getPredecessor` (mirror images nothing uses), the growth of the query stack by `realloc` (the stack is a sequence that grows), the destructor.
- Topologies.Topology.CalculateWeightedSingleShortestPathsTo: weights are exact numbers or infinity, not doubles; the assertions on weights that the code makes on the nodes and links it meets are asked of these.
- Topology: building the graph from the simulation (`extractFromNetwork`) and numbering its parts (`findNetworks`), which rest on the simulation kernel.
- Macho.Machine.RattleOn: event handlers are a finite script of reactions, since arbitrary ones need not end; init actions are a function of the state and of the number of transitions so far, and name proper substates, as the code asserts.
- Macho.Machine.Start: the box handed to the Top state is not modelled.
- Macho: parametrised initializers, creation of state objects on first use (all exist from the start), snapshots, the deprecated box setters, the reuse of box memory, the template machinery of keys and aliases.
- PatternMatching.PatternMatcher.SetPattern: a backslash at the end of the text, after which the code reads on behind it, is an outcome of its own (`Overrun`).
- PatternMatching.PatternMatcher.Matches: numbers are unbounded where `atol` would overflow, and characters compare as unsigned where `char` is signed.
- PatternMatcher: case-insensitive mode, `patternPrefixMatches`, debug strings.
- Int128s.Int128.Div: the divisor zero, at which the machine division traps, and -2^127, at which the method does not end (`Int128s.EndsExactly`).
- Int128s.Int128.ToString: the static buffer that the next call overwrites is a fresh one, and the text is returned by value.
- Int128: conversions from and to floating point, assignment from signed integers, increment and decrement, the bitwise operators on whole values. Overflow of the signed high word is taken to wrap around.
- MemoryStreams.MemoryOutputStream.WriteByte: elsewhere than at every fourth bit it states what the bytes become, which is not the value written.
- MemoryStreams.MemoryOutputStream.WriteNBits: for more than 31 bits the mask is the result of an overflowing shift, which the language does not fix: any int, as a parameter.
- MemoryStreams.MemoryInputStream.ReadNBits: the same for the value read.
- MemoryStreams.ReadAll: n-bit fields have at most 31 bits, byte-sized and longer numbers start at every fourth bit, strings and byte sequences at every eighth, and strings have no zero bytes.
- MemoryStreams: repeated writes and reads, bit vectors, copying, addresses, the reader into a plain buffer, seeking.
- Units.PathIndependent: arithmetic is exact, and powers that are not whole are those of a function that is positive for positive numbers, of units with positive factors; it holds of all units, though the templates refuse to convert between inconvertible ones.
- Units: factors that are functions (`fscale`), integer scales with their divisibility check (`intscale`), display names, and that the specialisation for the fourth power returns a reference to a local variable.
- The repository's own simulation modules under `src`: they rest on coordinate transformation and orbit libraries and on the simulation kernel, which are not part of this model.
