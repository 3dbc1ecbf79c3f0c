# Classic computer-science problems, modelled in Dafny

This project models the core of a Python collection of classic
computer-science problems and proves properties of the model:

- the generic search toolkit: linear and binary membership, the stack,
  queue and priority-queue frontiers, search nodes and their paths,
  depth-first, breadth-first and A* search;
- two problems solved with it: the maze, with its Manhattan heuristic, and
  missionaries and cannibals;
- the graph toolkit: edges and weighted edges, the adjacency-list graph,
  the minimum spanning tree (Prim's algorithm) and Dijkstra's shortest paths;
- three constraint checks for the backtracking solver: eight queens,
  SEND+MORE=MONEY and word search;
- the small programs: gene compression into an integer, four Fibonacci
  variants, the one-time pad, and the chromosome of the simple-equation
  genetic algorithm.

One module per component: `Wrappers` (`Option`, `Result` and the Python
exceptions `ValueError`, `IndexError` and `KeyError`), `Collections`, `Bits`
(powers, `bit_length`, xor) and `Decimal` (`str`/`int` of integers) are shared
helpers. The others are `Containers`, `SearchNodes`, `GenericSearch`, `AStar`,
`Mazes`, `Missionaries`, `Edges`, `Graphs`, `Mst`, `Dijkstra`, `Queens`,
`SendMoreMoney`, `WordSearch`, `Compression`, `Fibonacci`, `Encryption` and
`SimpleEquation`. Mutable Python objects become immutable values: a mutating
method returns the new value. Randomness is passed in as a parameter.

## Model

| member | source | states |
|---|---|---|
| Containers.StackLastInFirstOut | generic_search.py:68-80 | a push makes the stack non-empty, and the next pop returns the pushed item and the stack as it was |
| Containers.StackPopsLatest | generic_search.py:76-80 | after pushing a run of items, pop returns the last one pushed |
| Containers.QueueFirstInFirstOut | generic_search.py:142-154 | pushing onto a queue does not change which item pops next unless the queue was empty |
| Containers.QueuePopsEarliest | generic_search.py:150-154 | after pushing a run onto an empty queue, pop returns the first one pushed |
| Containers.PriorityQueue.Pop | generic_search.py:183-195 | heappop returns an item with the least priority, and the rest of the queue is exactly the other items (a multiset split) |
| SearchNodes.Path | generic_search.py:129-139 | the path has one state per node of the parent chain, from the root's state to the node's state, in order |
| SearchNodes.NodeToPath | generic_search.py:129-139 | the loop that follows parents and then reverses yields the root-first chain of states |
| SearchNodes.NodeLessAsWritten | generic_search.py:95-96 | Node.__lt__ exactly as written, adding self.heuristic on both sides; AsWrittenOrdersByCost shows it compares costs alone |
| SearchNodes.NodeLess | generic_search.py:95-96 | the intended Node.__lt__, comparing cost plus heuristic of each node; NodeLessIsEstimateOrder shows it is a strict weak order |
| SearchNodes.AsWrittenOrdersByCost | generic_search.py:95-96 | Node.__lt__ as written compares the costs alone: the heuristic cancels out |
| SearchNodes.AsWrittenDisagrees | generic_search.py:95-96 | two nodes that the written comparison ranks opposite to the cost-plus-estimate order |
| SearchNodes.NodeLessIsEstimateOrder | generic_search.py:95-96 | the intended comparison is a strict weak order on cost plus heuristic |
| GenericSearch.LinearContains | generic_search.py:21-26 | true exactly when the key occurs in the sequence |
| GenericSearch.BinaryContains | generic_search.py:49-65 | a true answer is always right; on a sorted sequence the answer is exact |
| GenericSearch.ValidNodeSpellsWalk | generic_search.py:129-139 | the path of a node built by the search is a walk of successors from the initial state |
| GenericSearch.WalksStayInside | generic_search.py:99-126 | every walk from the initial state stays inside a successor-closed set that holds it |
| GenericSearch.ExpandChildren | generic_search.py:117-124 | the inner loop pushes only unexplored successors, each at most once, and leaves every successor explored |
| GenericSearch.ExhaustedMeansNoGoal | generic_search.py:108-126 | when the frontier runs empty no walk from the initial state reaches a goal |
| GenericSearch.PopKeepsInvariant | generic_search.py:108-110 | taking any node out of the frontier keeps the search invariant |
| GenericSearch.StackPopKeepsInvariant | generic_search.py:108-110 | popping the stack frontier keeps the search invariant |
| GenericSearch.QueuePopKeepsInvariant | generic_search.py:166-168 | popping the queue frontier keeps the search invariant |
| GenericSearch.ChildrenAreValid | generic_search.py:122-124 | children of a valid node are valid nodes |
| GenericSearch.ExploredIsPartitioned | generic_search.py:117-124 | the explored set stays the expanded states plus the frontier's states |
| GenericSearch.ClosedStaysClosed | generic_search.py:117-124 | every successor of an expanded state is explored |
| GenericSearch.ExploredStaysInside | generic_search.py:117-124 | the explored set stays inside the reachable universe |
| GenericSearch.ExpansionKeepsInvariant | generic_search.py:108-124 | an expansion round restores the search invariant |
| GenericSearch.Expand | generic_search.py:117-124 | one expansion keeps the invariant, pushes only fresh distinct states, and explores a new state or pushes nothing |
| GenericSearch.Dfs | generic_search.py:99-126 | a returned node holds a goal state and its path is a walk from the initial state; None means no walk reaches a goal; each state is pushed at most once |
| GenericSearch.ExpansionShrinks | generic_search.py:117-124 | an expansion that pushes anything explores a state of the closed universe not explored before, so the unexplored part shrinks |
| GenericSearch.PushedStaysDistinct | generic_search.py:118-124 | the list of pushed states stays free of duplicates |
| GenericSearch.NearStatesExplored | generic_search.py:164-176 | in a layered queue every walk no longer than the front node's depth ends at an explored state |
| GenericSearch.DepthsStayLayered | generic_search.py:165-176 | popping the front and appending its children keeps queue depths non-decreasing and within one layer |
| GenericSearch.NoShortcutsKept | generic_search.py:171-176 | a child pushed for an unexplored state has a depth no walk to that state undercuts |
| GenericSearch.NearStatesStayClosed | generic_search.py:164-176 | after an expansion every state nearer than the new front node has been expanded |
| GenericSearch.ExpansionKeepsLayers | generic_search.py:164-176 | one expansion of the front node keeps the breadth-first layering |
| GenericSearch.FrontGoalIsNearest | generic_search.py:165-169 | a goal popped from the front of a layered queue is reached by a shortest walk to any goal |
| GenericSearch.Bfs | generic_search.py:158-178 | the guarantees of dfs with a queue as the frontier, and a returned goal is a nearest one: its path has no more states than any walk from the initial state to a goal |
| AStar.KeysMatchComparisons | generic_search.py:95-96 | the two integer priorities order nodes exactly as the written and the intended comparisons do |
| AStar.RelaxChildren | generic_search.py:216-222 | every pushed child is a successor that is new or reached more cheaply, at one more step than its parent; explored costs only go down, and every successor ends up explored |
| AStar.ChildrenAreCosted | generic_search.py:217-222 | a pushed child's cost counts its steps from the root and its heuristic is its own estimate |
| AStar.PoppedWidens | generic_search.py:209-222 | the popped-node invariant survives a larger explored set |
| AStar.PriorityPopKeepsInvariant | generic_search.py:209-210 | popping a least node off the priority queue keeps the search invariant |
| AStar.AStarPop | generic_search.py:209-211 | popping keeps the invariant, and every node popped or left carries its step count and its own estimate |
| AStar.RemovalKeepsCosted | generic_search.py:209-210 | taking a node out of the frontier leaves every other node costed |
| AStar.AStarExpand | generic_search.py:216-222 | one round of A* keeps the search invariant and every node stays costed |
| AStar.Search | generic_search.py:201-224 | a found node holds a goal, its path is a walk from the start, its cost is that walk's length and its heuristic its estimate; Exhausted means no walk reaches a goal |
| Mazes.UnitDistance | maze.py:53-73 | the four neighbours are exactly the locations at Manhattan distance one |
| Mazes.Maze.GoalTest | maze.py:49-51 | a location is the goal exactly when it equals the maze's goal; ManhattanDistance is zero exactly there |
| Mazes.Maze.Successors | maze.py:53-73 | the successors are exactly the in-bounds, unblocked neighbours, in the source's order: row + 1, row - 1, column - 1, column + 1 |
| Mazes.Maze.Paint | maze.py:75-87 | painting a path sets exactly the path's cells and keeps the grid's shape |
| Mazes.Maze.Mark | maze.py:75-80 | the path's cells show the path marker except at the start and the goal, which are restored; nothing else changes |
| Mazes.Maze.Clear | maze.py:82-87 | the path's cells become empty except at the start and the goal; nothing else changes |
| Mazes.Maze.Lines | maze.py:89-99 | the printed maze is the grid framed by a border of `=` on all four sides |
| Mazes.ToStringLayout | maze.py:89-99 | splitting the printed maze at its newlines gives back those framed lines |
| Mazes.ClearUndoesMark | maze.py:75-87 | clearing a path after marking it is the same as clearing it alone |
| Mazes.MarkThenClearRestores | maze.py:75-87 | on a maze as built, marking and clearing a path over empty cells restores the maze |
| Mazes.NewMaze | maze.py:25-47 | the built maze has the given size, start and goal; every other cell is blocked exactly when its random draw says so; an off-grid start or goal raises IndexError |
| Mazes.ManhattanDistance | maze.py:112-119 | the heuristic is the Manhattan distance, never negative and zero exactly at the goal |
| Mazes.ManhattanStep | maze.py:112-119 | one move changes the Manhattan distance by exactly one |
| Mazes.ManhattanAdmissible | maze.py:112-119 | the Manhattan distance never overestimates the number of moves to the goal |
| Missionaries.MCState.IsLegal | missionaries.py:22-30 | false exactly when missionaries are present and outnumbered on either bank |
| Missionaries.MCState.GoalTest | missionaries.py:18-19 | a legal state with everyone on the east bank |
| Missionaries.MCState.Successors | missionaries.py:32-59 | the successors are exactly the legal states one crossing of the boat away |
| Missionaries.KeepLegal | missionaries.py:59 | the filter keeps exactly the legal states |
| Missionaries.CandidatesAreCrossings | missionaries.py:35-57 | the ten guarded moves are exactly the boat loads of one or two people available on the boat's bank |
| Missionaries.SuccessorsStayInRange | missionaries.py:22-59 | every successor is legal, keeps the counts between 0 and 3, and has the boat on the other bank |
| Missionaries.AllStatesClosed | missionaries.py:32-59 | the finite set of in-range states is closed under successors, so the search terminates |
| Missionaries.PlanSolvesPuzzle | missionaries.py:18-19 | an eleven-crossing walk of legal states leads from the start to the goal |
| Missionaries.Solve | missionaries.py:18-59 | breadth-first search from the start finds a goal state along a walk of legal crossings, of at most eleven crossings |
| Edges.Reversed | edge.py:10-11 | the edge with its ends swapped; ReversedInvolution proves it undoes itself |
| Edges.ReversedWeighted | weighted_edge.py:10-11 | the weighted edge with its ends swapped and its weight kept; ReversedWeightedInvolution proves it undoes itself |
| Edges.ReversedInvolution | edge.py:10-11 | reversal swaps the ends and undoes itself |
| Edges.ReversedWeightedInvolution | weighted_edge.py:10-11 | weighted reversal swaps the ends, keeps the weight and undoes itself |
| Edges.WeightedLessIsWeightOrder | weighted_edge.py:15-16 | `<` on weighted edges is a strict order that sees only the weights, and reversal does not change it |
| Edges.EdgeToString | edge.py:13-14 | the text `u -> v`; EdgeToStringRoundTrip proves it determines the edge |
| Edges.WeightedEdgeToString | weighted_edge.py:18-19 | the text `u weight> v`; WeightedEdgeToStringRoundTrip proves it determines the weighted edge |
| Edges.EdgeToStringRoundTrip | edge.py:13-14 | the printed form `u -> v` determines the edge |
| Edges.WeightedEdgeToStringRoundTrip | weighted_edge.py:18-19 | the printed form `u weight> v` determines the weighted edge |
| Decimal.IntToStringRoundTrip | edge.py:13-14 | parsing the decimal text of an integer gives the integer back |
| Graphs.AdjacencyIsSymmetric | graph.py:27-31 | in a graph built by add_edge, b is a neighbour of a exactly when a is a neighbour of b |
| Graphs.NewGraphIsEmpty | graph.py:9-19 | a new graph has no edges and satisfies both graph invariants; vertex_at gives back the vertices it was built from, and each has no edges and no neighbours |
| Graphs.EdgeCount | graph.py:18-19 | the sum of the adjacency-list lengths, so each undirected edge counts once from each end; AddVertex keeps it and AddEdge adds two |
| Graphs.AddVertex | graph.py:22-25 | the vertex is appended with an empty list, its index is returned, and the edge count is unchanged |
| Graphs.AddVertexKeepsInvariants | graph.py:22-25 | adding a vertex keeps both graph invariants |
| Graphs.AddEdge | graph.py:29-31 | the edge joins its source's list and its reversal the target's list; nothing else changes, the edge count grows by two, and an out-of-range end raises IndexError |
| Graphs.AddEdgeKeepsInvariants | graph.py:29-31 | adding an edge between two vertices keeps both graph invariants |
| Graphs.VertexAt | graph.py:45-46 | succeeds exactly on indices of vertices, IndexError past the end; index_of finds the returned vertex at that index or earlier, and exactly there when no vertex repeats |
| Graphs.IndexOfVertex | graph.py:49-50 | the first index holding the vertex, which vertex_at maps back to it, or ValueError when there is none |
| Graphs.EdgesForIndexLeaveIndex | graph.py:53-58 | on a well-formed graph edges_for_index answers exactly for vertex indices, each edge it lists leaves that index and ends at a vertex, and neighbors_for_index gives those ends' vertices in order |
| Graphs.NeighborsForIndex | graph.py:53-54 | the vertex at the far end of each edge, in order; on a well-formed graph it fails exactly past the end |
| Graphs.MapVertexAt | graph.py:53-54 | mapping vertex_at over indices succeeds exactly when all are in range, and gives their vertices in order |
| Graphs.AddEdgeByVertices | graph.py:39-42 | both vertices are looked up by first index and the edge between them is added; a missing vertex raises ValueError |
| Graphs.AddWeightedEdgeByVertices | graph.py:39-42 | the same for a weighted edge |
| Mst.TotalWeight | mst.py:11-12 | the sum of the weights along a path; TotalWeightAppend and TotalWeightNonNegative state its laws |
| Mst.TotalWeightAppend | mst.py:11-12 | the total weight adds up over concatenation |
| Mst.TotalWeightNonNegative | mst.py:11-12 | with no negative weight the total is never negative |
| Mst.PushUnvisited | mst.py:24-27 | the queue keeps what it held and gains only listed edges to unvisited vertices; every listed edge to an unvisited vertex is queued |
| Mst.Visit | mst.py:22-27 | visit marks the vertex and queues every edge out of it to an unvisited vertex |
| Mst.StartEstablishes | mst.py:29 | visiting the start establishes the loop invariant |
| Mst.SkipKeepsInvariant | mst.py:31-33 | skipping an edge into a visited vertex keeps the loop invariant |
| Mst.TakeKeepsTree | mst.py:35-36 | taking an edge into an unvisited vertex grows a tree rooted at the start |
| Mst.TakeKeepsFrontier | mst.py:35-36 | after the visit every edge out of a visited vertex is queued or leads to a visited vertex |
| Mst.TakeKeepsInvariant | mst.py:35-36 | taking an edge keeps the loop invariant |
| Mst.WalksStayMarked | mst.py:30-37 | once the queue is empty every vertex reachable from the start is visited |
| Mst.Mst | mst.py:15-37 | None exactly for an out-of-range start; otherwise a tree of graph edges rooted at the start, with distinct targets, at most n-1 edges, that reaches every vertex reachable from the start |
| Dijkstra.ComparisonsSeeDistanceOnly | dijkstra.py:13-20 | `<` is a strict order on distances and `==` is the matching equivalence; the vertex plays no part |
| Dijkstra.Relax | dijkstra.py:37-45 | relaxing an edge lowers only the target's distance, to at most the source's distance plus the weight, and records and queues it exactly when it changed |
| Dijkstra.RelaxKeepsTables | dijkstra.py:37-45 | a relaxation keeps the tables' invariant: every recorded distance is witnessed by an edge from a vertex with a distance |
| Dijkstra.RelaxKeepsQueued | dijkstra.py:37-45 | every queued vertex still has a distance after a relaxation |
| Dijkstra.RelaxKeepsSettled | dijkstra.py:37-45 | a vertex that was queued or relaxed before a relaxation still is afterwards |
| Dijkstra.RelaxQueues | dijkstra.py:43-45 | queued vertices stay queued, and a target whose distance changed is queued |
| Dijkstra.RelaxKeepsSettledExcept | dijkstra.py:37-45 | a relaxation keeps every vertex but the popped one settled |
| Dijkstra.RelaxKeepsScanned | dijkstra.py:35-45 | edges already scanned stay relaxed against the popped distance |
| Dijkstra.RelaxStep | dijkstra.py:35-45 | relaxing the next edge advances the inner loop's invariant |
| Dijkstra.RelaxEdges | dijkstra.py:35-45 | after the inner loop the popped vertex is relaxed, the invariant holds, and no distance went up |
| Dijkstra.RelaxedBoundsWalks | dijkstra.py:31-46 | once every vertex with a distance is relaxed, no walk from the root is shorter than the distance of its end |
| Dijkstra.PopKeepsTables | dijkstra.py:31-33 | popping an entry keeps the invariant and leaves only the popped vertex unsettled |
| Dijkstra.FinishedTables | dijkstra.py:31-46 | with the queue empty, each path_dict entry's source distance plus weight is its target's distance, and every walk is at least as long as its end's distance |
| Dijkstra.Dijkstra | dijkstra.py:23-46 | ValueError for an unknown root; otherwise the root's distance is 0 with non-negative weights, exactly the root and the path_dict keys have distances, each entry is a graph edge into its key that realises the distance, and no walk from the root is shorter |
| Dijkstra.FillContents | dijkstra.py:50-54 | the dictionary's keys are the vertices at the distance indices, and a vertex maps to the distance at its last index |
| Dijkstra.DistanceArrayToVertexDict | dijkstra.py:50-54 | IndexError exactly when there are more distances than vertices; otherwise each vertex maps to its distance |
| Dijkstra.ReversedChain | dijkstra.py:65-68 | reversing the chain collected backwards gives the path from start to end |
| Dijkstra.ChainsAgree | dijkstra.py:63-67 | the backward walk through the dictionary is determined: two chains agree wherever both are defined |
| Dijkstra.ArrivalExcludesBreak | dijkstra.py:63-67 | a backward chain that reaches start rules out one that meets a missing key |
| Dijkstra.BreakExcludesArrival | dijkstra.py:63-67 | a backward chain that meets a missing key rules out one that reaches start |
| Dijkstra.LongChainExcludes | dijkstra.py:63-67 | a chain of fuel + 1 entries that never leaves start rules out both reaching start and breaking within fuel lookups |
| Dijkstra.PathDictToPath | dijkstra.py:59-68 | [] for an empty dictionary; otherwise the rebuilt path exactly when the backward walk reaches start within the fuel, KeyError exactly when end or a source met first has no entry, and None only when the fuel runs out |
| Dijkstra.RebuiltPathIsWalk | dijkstra.py:59-68 | with entries keyed by their targets, the rebuilt path is a connected walk ending at end, made of graph edges |
| Queens.Satisfied | queens.py:14-29 | true exactly when no two queens in columns up to the column count share a row or a diagonal |
| Queens.RemovalKeepsSatisfied | queens.py:14-29 | removing queens from a satisfied assignment keeps it satisfied, as backtracking needs |
| Queens.OnBoardMeansPairwise | queens.py:15-27 | with columns on the board, satisfied means every pair of distinct queens is non-attacking |
| Queens.EightQueensSolved | queens.py:32-38 | an eight-queen placement over columns 1..8 is satisfied and pairwise non-attacking |
| SendMoreMoney.Satisfied | send_more_money.py:10-30 | duplicated digits give false; a partial assignment gives true; a complete one gives whether SEND+MORE=MONEY, or KeyError when a letter is missing |
| SendMoreMoney.WordValues | send_more_money.py:26-28 | the three words read as the source's positional sums |
| SendMoreMoney.RemovalKeepsSatisfied | send_more_money.py:10-30 | removing letters from a satisfying partial assignment keeps it satisfying |
| SendMoreMoney.SolutionSatisfies | send_more_money.py:33-40 | 9567 + 1085 = 10652 is accepted, with M = 1 as the demo's domain demands |
| SendMoreMoney.SolutionInjective | send_more_money.py:12-13 | that solution uses distinct digits |
| WordSearch.FittingDirections | word_search.py:37-49 | the directions tried at a cell are exactly those whose guard holds, in the source's order |
| WordSearch.PlacementsAtHolds | word_search.py:35-49 | the placements generated at a cell are exactly its fitting runs |
| WordSearch.DomainRowHolds | word_search.py:34-49 | the placements of one row are exactly the runs starting in it |
| WordSearch.DomainFromHolds | word_search.py:33-49 | the placements from a row on are exactly the runs starting there |
| WordSearch.DomainHolds | word_search.py:27-51 | the domain is exactly the runs the guards admit |
| WordSearch.GenerateDomain | word_search.py:27-51 | IndexError exactly for an empty grid; otherwise the domain is exactly the runs of length+1 cells the guards admit |
| WordSearch.CorrectedFitsIffInside | word_search.py:37-49 | with the corrected cell count, a direction fits exactly when its whole run is on the grid |
| WordSearch.CorrectedPlacedIff | word_search.py:27-51 | the corrected placements are exactly the straight runs of the word's length inside the grid |
| WordSearch.GenerateDomainCorrected | word_search.py:27-51 | the corrected domain is exactly the in-grid runs of the word's length in the four directions |
| WordSearch.AsWrittenOverhang | word_search.py:35-36 | each generated run has one cell more than the word, and its first cells lie on the grid |
| WordSearch.AsWrittenLeavesGrid | word_search.py:35-39 | a one-letter word in a one-cell grid yields a run that leaves the grid |
| WordSearch.AddPlacement | word_search.py:59-62 | adding a placement keeps the cells disjoint exactly when it overlaps none of the others |
| WordSearch.Satisfied | word_search.py:59-62 | true exactly when no grid cell is used twice across the assigned placements |
| WordSearch.RemovalKeepsSatisfied | word_search.py:59-62 | removing words from a satisfied assignment keeps it satisfied |
| Compression.Pack | trivial_compression.py:7-19 | succeeds exactly on nucleotide strings, otherwise ValueError; the result lies between 4^n and 2*4^n |
| Compression.Compress | trivial_compression.py:6-19 | the upper-cased gene is accepted exactly when it is all nucleotides (otherwise ValueError), and the bit string has 2n+1 bits |
| Compression.PackDigits | trivial_compression.py:9-17 | the two bits at position 2k hold the code of the k-th nucleotide from the end |
| Compression.Decompress | trivial_compression.py:22-38 | one nucleotide per two bits below the sentinel, highest pair first |
| Compression.Unpacks | trivial_compression.py:22-38 | decompressing a compressed gene gives back the gene, upper-cased |
| Compression.RoundTrip | trivial_compression.py:45-52 | compressing then decompressing gives the upper-cased gene, or ValueError for an invalid gene |
| Fibonacci.Fib1 | fibonnaci.py:5-9 | the reference definition: below 2 the argument, otherwise the sum of the two previous values; Fib2, Fib3, Fib4, Fib4Corrected and Fib5 are proved against it |
| Fibonacci.Fib2 | fibonnaci.py:13-19 | the result is fib1's; the memo stays correct, keeps its entries, gains num, and gains nothing above num |
| Fibonacci.Fib2FillsBelow | fibonnaci.py:15-19 | from a memo without gaps, fib2(num) leaves every number up to num in the memo |
| Fibonacci.Fib3 | fibonnaci.py:24-28 | below 2 the argument; otherwise KeyError unless the memo holds num; any answer is fib1's |
| Fibonacci.Fib3AfterFib2 | fibonnaci.py:55-57 | after fib2(num), fib3 answers every number up to num with fib1's value |
| Fibonacci.Fib3FreshCacheFails | fibonnaci.py:13-28 | on the initial memo, fib3(2) raises KeyError |
| Fibonacci.StepAdvances | fibonnaci.py:35-36 | k loop steps from two consecutive Fibonacci numbers advance both by k places |
| Fibonacci.Fib4 | fibonnaci.py:31-38 | agrees with fib1 for num >= 1 and returns 1 for num <= 0 |
| Fibonacci.Fib4DisagreesAtZero | fibonnaci.py:31-38 | fib4(0) is 1 where fib1(0) is 0 |
| Fibonacci.Fib4Corrected | fibonnaci.py:31-38 | the loop run num times and returning last_num agrees with fib1 for every num >= 0 |
| Fibonacci.Fib5 | fibonnaci.py:41-50 | the generator yields exactly fib1(0), ..., fib1(num), or just 0 when num <= 0 |
| Encryption.ToBytesRoundTrip | unbreakable_encryption.py:20 | writing a number in enough big-endian bytes and reading it back gives the number |
| Encryption.FromBytesRoundTrip | unbreakable_encryption.py:13 | reading bytes as a number and writing as many bytes back gives the bytes |
| Encryption.ByteLengthFits | unbreakable_encryption.py:20 | (bit_length + 7) // 8 bytes always hold the number, so to_bytes cannot overflow |
| Encryption.ByteLengthOfBytes | unbreakable_encryption.py:20 | bytes without a leading zero byte are written back in as many bytes |
| Encryption.RandomKey | unbreakable_encryption.py:5-7 | the key is below 256^length |
| Encryption.Encrypt | unbreakable_encryption.py:10-15 | xoring the pad and the ciphertext gives the message's integer, and both fit in the message's byte count |
| Encryption.Decrypt | unbreakable_encryption.py:18-20 | the bytes read back as the xor of the two keys and do not start with a zero byte |
| Encryption.DecryptSymmetric | unbreakable_encryption.py:18-20 | the order of the two keys does not matter |
| Encryption.EncryptDecrypt | unbreakable_encryption.py:10-27 | decrypting the pair encrypt returns gives the message's bytes back when they do not start with a zero byte |
| Encryption.LeadingZeroLost | unbreakable_encryption.py:10-20 | a message starting with a NUL byte comes back without it |
| SimpleEquation.Fitness | simple_equation.py:16-17 | the fitness is 13 minus two squares, so it is at most 13, the demo's threshold, reached only at (3, 2) |
| SimpleEquation.CrossoverAsWritten | simple_equation.py:23-28 | the first child takes the other parent's y as its x, and the second child is the other parent unchanged |
| SimpleEquation.CrossoverAsWrittenMixesGenes | simple_equation.py:23-28 | a child can carry an x gene that neither parent has |
| SimpleEquation.Crossover | simple_equation.py:23-28 | the children swap y genes, keep their x genes, and together carry every gene of both parents |
| SimpleEquation.CrossoverAsWrittenDoesNotRecombine | simple_equation.py:23-28 | the written crossover breaks that recombination property |
| SimpleEquation.Mutate | simple_equation.py:30-40 | exactly one gene moves by exactly one, the first coin picks the gene and the second the direction |
| SimpleEquation.MutateReachesNeighbours | simple_equation.py:30-40 | the outcomes of the coin flips are exactly the chromosomes one gene-step away |

## Left out

- Randomness is a parameter: `token_bytes`, `randrange`, `random`, `choice` and the maze's random fill. `generete_grid` only draws letters, so it is not modelled.
- Printing is not modelled: `display_grid`, `display_solution`, `print_weight_path`, `MCState.__str__`, `Graph.__str__` and the demos' output. The maze's `__str__` is modelled.
- The backtracking CSP solver and the genetic-algorithm driver are not part of this model. Only the constraints and the chromosome are modelled.
- weighted_graph.py is not part of this model. The weighted graph is the same graph with weighted edges: adjacency lists of `WeightedEdge`, and add-edge helpers that take a weight.
- `euclidean_distance` works in floating point. It is not modelled; the Manhattan heuristic is.
- Weights and distances are integers here, not floats.
- Vertex indices are natural numbers. Python would accept a negative index and wrap it to the end of the list.
- Mazes.NewMaze: a negative start or goal coordinate raises IndexError in the model. Python would wrap it to the far end of the grid.
- Containers.PriorityQueue.Pop: popping an empty container is a precondition, where Python raises IndexError. The searches only pop a non-empty frontier.
- Containers.PriorityQueue.Pop: heappop's choice among equal priorities is not modelled. The model returns the first least item, and every contract holds for any least item.
- GenericSearch.Dfs: the search gets a ghost set of states that holds the start and is closed under successors. On an infinite state space Python's loop need not stop.
- GenericSearch.Bfs: the same ghost set, for the same reason.
- AStar.Search: the loop runs at most `fuel` rounds and otherwise ends in `OutOfFuel`, which Python does not have. Termination is not proved, and optimality of the found path is not stated.
- Dijkstra.Dijkstra: a fuel bound, with `OutOfFuel` as for A*. The graph is required to be well formed, as add_edge builds it.
- Dijkstra.Dijkstra: it is not stated that distances equal shortest walks when no weight is negative. It states a one-sided bound: no walk is shorter than its end's distance, and each distance is realised by a recorded edge.
- Dijkstra.PathDictToPath: a fuel bound on the backward walk. A cyclic dictionary makes Python loop forever.
- Mst.Mst: the graph is required to be well formed, as add_edge builds it. Minimality of the total weight is not stated; the result is proved to be a spanning tree of the start's component.
- Missionaries.MCState.Successors: states are compared by value. Python compares MCState objects by identity, so `child in explored` never holds and its bfs prunes nothing: it searches the unbounded tree of crossing sequences and stops only because a goal lies eleven crossings deep. The finite closed set of in-range states that Missionaries.AllStatesClosed uses to make the search terminate is a property of this value-compared model only.
- Graphs.AddEdge: when only the second end is out of range, Python has already appended to the first list before raising IndexError. The model leaves the graph unchanged on failure.
- Fibonacci.Fib2: defined for num >= 0 only; a negative num makes Python recurse without end. The module-level memo is passed in and handed back.
- SendMoreMoney.Satisfied: letters are characters, and the assignment is a map from characters.
- SendMoreMoney.RemovalKeepsSatisfied: stated for assignments no larger than the letter list, which is all the solver builds.
- WordSearch.GenerateDomain: every row is taken to have the width of the first. The domain is a set of runs; Python's list order is not kept.
- WordSearch.Satisfied: Python's dictionary iteration order does not matter to the answer, and the model leaves it out.
- The word-search demo's writing of letters into the grid is not modelled.
- Encryption.Decrypt: bytes stand in for text. `str.encode` and `bytes.decode` (UTF-8) are not modelled.
- Compression.Compress: `str.upper` is modelled on ASCII letters only.
- SimpleEquation.Mutate: the in-place update returns the new chromosome instead.
- `random_instance` draws two numbers below 100 and is not modelled.

## Findings

| source | as written | input that shows it | evidently intended | confidence | as-written member | corrected member |
|---|---|---|---|---|---|---|
| generic_search.py:95-96 | `Node.__lt__` adds `self.heuristic` on both sides, so A* orders by cost alone | a node of cost 1 and heuristic 0 against one of cost 0 and heuristic 5: the second is ranked first | compare `cost + heuristic` of each node | high, not executed | SearchNodes.AsWrittenDisagrees | SearchNodes.NodeLessIsEstimateOrder |
| fibonnaci.py:31-38 | `fib4(0)` runs no loop step and returns `next_num`, which is 1 | num = 0 | fib4(0) = 0, as fib1 gives | high, not executed | Fibonacci.Fib4DisagreesAtZero | Fibonacci.Fib4Corrected |
| simple_equation.py:23-28 | `child1.x = other.y` and `child2.y = other.y` | parents (0, 0) and (1, 2): the children are (2, 0) and (1, 2) | swap the y genes, `child1.y = other.y` and `child2.y = self.y` | medium, not executed | SimpleEquation.CrossoverAsWrittenDoesNotRecombine | SimpleEquation.Crossover |
| word_search.py:35-36 | each run spans `range(col, col + length + 1)`, one cell more than the word | word "A" in a 1x1 grid: the run (0,0), (0,1) leaves the grid | runs of `length` cells | high, not executed | WordSearch.AsWrittenLeavesGrid | WordSearch.GenerateDomainCorrected |
