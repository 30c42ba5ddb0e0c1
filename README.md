# AlgorithmsCourse, modelled in Dafny

A model of the programming exercises of an algorithms course: each exercise reads a data
file, runs one classic algorithm on it and prints the answer. The model takes every
algorithm with its data as parameters and proves that it computes what the exercise asks.

- **Divide and conquer:** Karatsuba multiplication; merge sort counting inversions; quicksort
  counting comparisons under the median-of-three pivot rule.
- **Graphs:** Kosaraju's strongly connected components; Dijkstra's shortest paths over an
  indexed min-heap; Prim's minimum spanning tree, both the scan version and the heap version.
- **Greedy algorithms and union-find:** scheduling by difference and by ratio; max-spacing
  k-clustering; clustering by Hamming distance; Huffman codes built with two queues.
- **Dynamic programming:** maximum-weight independent set of a path; knapsack by table, by
  one row and by memoised recursion; all-pairs shortest paths by Bellman-Ford and by
  Johnson's reweighting.
- **Other exercises:** 2-SAT through the strongly connected components of the implication
  graph; the 2-sum count over a range of targets; the running sum of medians.

The model follows the form of each program.

- Objects whose methods update their fields become classes: the graphs, the heaps, the
  union-find structure, the SCC searches and the quicksort counter.
- Lists and dictionaries that a method mutates become `seq` and `map` fields.
- Loops become `while` or `for` loops with their invariants.
- Pure recursion becomes functions.
- Each method is proved against a specification function, and the lemmas beside it state
  what the exercise promises:
  - the sorted permutation with its inversion count;
  - the shortest distances and the walks that attain them;
  - the spanning tree of least cost;
  - the components of the reachability relation;
  - the satisfying assignment, or the clash that rules one out;
  - the prefix code of the Huffman tree;
  - the optimum of the knapsack and of the independent set.

Shared theory lives in its own modules:

- `Walks`, `Relaxation`, `Reachability` and `SpanningTrees` hold the graph theory.
- `IndexedHeap` is the min-heap with a position map, which Johnson and dijkstra-minHeap
  share.
- `UnionFind` and `DisjointSets` are shared by both clustering programs.
- `ExtInt` is the integers extended by infinity, standing for the programs'
  `float("inf")`.
- `Wrappers` holds the `Result` and `Option` types. A raised exception is a
  `Failure` carrying the exception's kind.

## Model

| member | source | states |
|---|---|---|
| AllPairsBellmanFord.Graph.constructor | allPairsShortestPath_BellmanFord.py:25-26 | the graph starts with no edges |
| AllPairsBellmanFord.Graph.AddEdge | allPairsShortestPath_BellmanFord.py:28-29 | addEdge appends the edge (s, d, w) at the end of the edge list and changes nothing else |
| AllPairsBellmanFord.PrevRelax | allPairsShortestPath_BellmanFord.py:76-82 | lowering dist[d] through the edge (s, d, w) and setting prev[d] = s keeps every prev entry a record of how its entry was last lowered |
| AllPairsBellmanFord.TrackRelax | allPairsShortestPath_BellmanFord.py:76-80 | after a relaxation shortestPath stays the least entry assigned and dest a vertex holding it |
| AllPairsBellmanFord.PassRelaxed | allPairsShortestPath_BellmanFord.py:76-83 | the branch that relaxes an edge keeps the pass's invariant and sets updatedDist |
| AllPairsBellmanFord.PassSkipped | allPairsShortestPath_BellmanFord.py:76 | an edge that does not relax keeps the pass's invariant |
| AllPairsBellmanFord.RelaxPass | allPairsShortestPath_BellmanFord.py:73-83 | one pass over the edges gives the relaxation pass of the table, updatedDist exactly when the table changed, and keeps prev, shortestPath and dest consistent; every prev edge either lowers its head's entry or attains it from a vertex updated earlier in the run |
| AllPairsBellmanFord.StampRelax | allPairsShortestPath_BellmanFord.py:76-83 | relaxing an edge and recording the step at which its head was lowered keeps every prev edge either lowering its head's entry or attaining it from a vertex lowered earlier |
| AllPairsBellmanFord.StampedFew | allPairsShortestPath_BellmanFord.py:59 | fewer vertices were lowered before x than there are entries in prev |
| AllPairsBellmanFord.ChainComplete | allPairsShortestPath_BellmanFord.py:100-111 | once no edge relaxes, following prev from a vertex with a finite entry reaches src within as many steps as vertices were lowered before it, so getPath does not loop |
| AllPairsBellmanFord.PrevEdge | allPairsShortestPath_BellmanFord.py:100-111 | once no edge relaxes, the predecessor of a vertex other than the source is another vertex, joined to it by an edge along which its entry is attained |
| AllPairsBellmanFord.PathWalk | allPairsShortestPath_BellmanFord.py:100-111 | once no edge relaxes, the path getPath builds is the vertex sequence of a walk from src to x no longer than x's entry |
| AllPairsBellmanFord.RunPasses | allPairsShortestPath_BellmanFord.py:58-84 | at most vertexCount - 1 passes, stopping after one that changes nothing: the table is that of vertexCount - 1 passes from 0 at src and inf elsewhere |
| AllPairsBellmanFord.SomeEdgeRelaxes | allPairsShortestPath_BellmanFord.py:89-91 | true exactly when some edge still relaxes |
| AllPairsBellmanFord.BellmanFordFrom | allPairsShortestPath_BellmanFord.py:55-97 | raises exactly when a negative closed walk is reachable from src; otherwise every entry is the shortest distance from src and the result is the least distance to another vertex (inf when none is reachable). A path comes with it exactly when that distance is finite, and it is a walk of that length |
| AllPairsBellmanFord.Answer | allPairsShortestPath_BellmanFord.py:95-97 | the tracked shortestPath is the least distance from src to another vertex; getPath yields a path exactly when it is finite, and that path is a walk of that length |
| AllPairsBellmanFord.SpIsMin | allPairsShortestPath_BellmanFord.py:78-80 | once the check passes, the tracked shortestPath is the least entry other than src's |
| AllPairsBellmanFord.FoundPath | allPairsShortestPath_BellmanFord.py:95 | a walk to the vertex holding the least entry is a path of that least length |
| AllPairsBellmanFord.SelfZero | allPairsShortestPath_BellmanFord.py:61 | with no negative closed walk through src, src's own entry stays 0 |
| AllPairsBellmanFord.BellmanFord.constructor | allPairsShortestPath_BellmanFord.py:35-53 | keeps the vertex count and the graph read |
| AllPairsBellmanFord.BellmanFord.BellmanFord | allPairsShortestPath_BellmanFord.py:55-97 | raises exactly on a negative closed walk reachable from src, else returns the least distance from src to another vertex, with a path exactly when that distance is finite, the path a walk of that length |
| AllPairsBellmanFord.BellmanFord.GetShortestPath | allPairsShortestPath_BellmanFord.py:113-126 | raises exactly when some source reaches a negative closed walk; otherwise the least distance between two different vertices, with a path exactly when it is finite, that path a walk of that length from the earliest source attaining it |
| AllPairsBellmanFord.ShortestOverSources | allPairsShortestPath_BellmanFord.py:113-126 | the loop over sources keeps the first strictly smaller result: the least distance between two different vertices, with a path exactly when it is finite, a walk attaining it |
| AllPairsBellmanFord.EarliestAfter | allPairsShortestPath_BellmanFord.py:121 | a result strictly below the best so far is undercut by no walk from an earlier source |
| Relaxation.Initial | allPairsShortestPath_BellmanFord.py:58-61 | 0 at src and inf at every other vertex |
| Relaxation.InitialBounds | allPairsShortestPath_BellmanFord.py:58-61 | the initial table holds lengths of walks and bounds every walk of no edges |
| Relaxation.RelaxSound | allPairsShortestPath_BellmanFord.py:76-77 | relaxing an edge lowers one entry to the length of a walk from src and raises none |
| Relaxation.SweepSound | allPairsShortestPath_BellmanFord.py:75-83 | a partial pass keeps every finite entry the length of a walk and raises none |
| Relaxation.PassesSound | allPairsShortestPath_BellmanFord.py:72-84 | passes never raise an entry, and every finite entry stays the length of a walk from src |
| Relaxation.SweepMonotone | allPairsShortestPath_BellmanFord.py:75-83 | later prefixes of a pass give entries no larger than earlier ones |
| Relaxation.PassReaches | allPairsShortestPath_BellmanFord.py:75-83 | after a pass the head of every edge out of a finite entry is within that entry plus the edge's weight |
| Relaxation.FixpointStable | allPairsShortestPath_BellmanFord.py:72-84 | a pass that changes nothing leaves no edge that relaxes |
| Relaxation.PassBounded | allPairsShortestPath_BellmanFord.py:75-83 | a table bounding the walks of m edges bounds, after one more pass, the walks of m + 1 edges |
| Relaxation.PassesBounded | allPairsShortestPath_BellmanFord.py:72-84 | k passes end at a table no pass changes, or bound the walks of m + k edges |
| Relaxation.StableWalk | allPairsShortestPath_BellmanFord.py:89-91 | where no edge relaxes and src's entry is at most 0, no walk from src is shorter than its end's entry |
| Relaxation.ShortestStable | allPairsShortestPath_BellmanFord.py:89-91 | a table of shortest distances leaves no edge that relaxes |
| Relaxation.MinOther | allPairsShortestPath_BellmanFord.py:78-80 | the least entry over the vertices other than src: at most every such entry and, when finite, one of them |
| Relaxation.ShortestLeast | allPairsShortestPath_BellmanFord.py:78-97 | over a table of shortest distances, the least entry other than src's is the least length of a walk from src to another vertex |
| Relaxation.PassesCorrect | allPairsShortestPath_BellmanFord.py:58-91 | after vertexCount - 1 passes, no edge relaxes exactly when no negative closed walk is reachable from src, and then every entry is the shortest distance |
| Relaxation.BoundedBelow | allPairsShortestPath_BellmanFord.py:69-72 | without a reachable negative closed walk, bounding the walks of fewer edges than vertices bounds them all |
| Relaxation.StableNoNegativeCycle | allPairsShortestPath_BellmanFord.py:87-91 | a table of attained entries bounding every walk from src rules out a reachable negative closed walk |
| Walks.WalkConcat | allPairsShortestPath_BellmanFord.py:100-111 | a walk followed by a walk from its end is a walk whose weight is the sum |
| Walks.Visits | allPairsShortestPath_BellmanFord.py:100-111 | the vertices a walk passes, its start first, one more than its edges |
| Walks.LeastPairStep | allPairsShortestPath_BellmanFord.py:119-123 | keeping the smaller of the best so far and the next source's result extends the range of sources covered by one |
| Walks.Pigeonhole | allPairsShortestPath_BellmanFord.py:69-72 | more entries than vertices repeat a vertex |
| Walks.ShortCut | allPairsShortestPath_BellmanFord.py:69-72 | without a reachable negative closed walk, every walk can be shortened to one of fewer edges than there are vertices and no greater weight |
| Walks.CutCycle | allPairsShortestPath_BellmanFord.py:69-72 | cutting a non-negative closed piece out of a walk leaves a walk between the same ends of no greater weight |
| Walks.NoLowerBound | allPairsShortestPath_BellmanFord.py:87-91 | a negative closed walk reachable from src leaves no lower bound on the weights of walks from src to it |
| ExtInt.Add | allPairsShortestPath_BellmanFord.py:76-77 | a sum is finite exactly when both terms are, and is then their sum |
| Bits.BitXor | kClustersHammingDistance.py:134 | each bit of a ^ b is the sum modulo 2 of the bits of a and b |
| Bits.BitPow2 | kClustersHammingDistance.py:134 | 1 << i has bit i set and no other |
| Bits.BitsDetermine | kClustersHammingDistance.py:104 | a label is determined by its bits |
| Bits.BitAbove | kClustersHammingDistance.py:102-104 | a label below 2^n has no bit set at position n or above |
| Bits.XorBelow | kClustersHammingDistance.py:134 | the exclusive or of two n-bit labels is an n-bit label |
| Bits.FlipBit | kClustersHammingDistance.py:134 | x ^ (1 << b) differs from x in bit b alone |
| Bits.FlipTwoBits | kClustersHammingDistance.py:161-162 | x ^ (1 << a) ^ (1 << b), a != b, differs from x in bits a and b alone |
| Bits.FlipOne | kClustersHammingDistance.py:133-134 | flipping one of the n bits gives a label at Hamming distance 1 |
| Bits.FlipTwo | kClustersHammingDistance.py:159-162 | flipping two different bits of the n gives a label at Hamming distance 2 |
| Bits.SameLowBits | kClustersHammingDistance.py:15 | two n-bit labels that agree on their n bits are equal |
| Bits.NoneIsSame | kClustersHammingDistance.py:116-117 | an n-bit label at distance 0 from x is x |
| Bits.OneIsFlip | kClustersHammingDistance.py:132-135 | every n-bit label at distance 1 from x is the flip of one of its bits |
| Bits.TwoIsFlip | kClustersHammingDistance.py:158-163 | every n-bit label at distance 2 from x is the flip of two of its bits |
| Bits.NearSymmetric | kClustersHammingDistance.py:15 | the Hamming distance is symmetric |
| Components.KeepTogether | kClustersHammingDistance.py:191-193 | nodes of one class stay in one class through the unions |
| Components.PairInside | kClustersHammingDistance.py:191-193 | the two ends of every pair end in one class |
| Components.ChainInside | kClustersHammingDistance.py:191-193 | the ends of a chain of pairs end in one class |
| Components.Concat | kClustersHammingDistance.py:191-193 | two chains that meet make one |
| Components.LiftChain | kClustersHammingDistance.py:191-193 | a chain after the first union is a chain before it |
| Components.InsideChain | kClustersHammingDistance.py:191-193 | nodes that end in one class are joined by a chain of pairs |
| Components.MergesAreLinks | kClustersHammingDistance.py:191-193 | after the unions two nodes share a class exactly when a chain of pairs joins them |
| Components.SameLinks | kClustersHammingDistance.py:186-193 | the classes depend only on which nodes the pairs link, not on order or direction |
| HammingNeighbours.AppendEntries | kClustersHammingDistance.py:135 | pairs[v].append(i) adds i at the end of the list under v and touches no other list |
| HammingNeighbours.FlipNew | kClustersHammingDistance.py:133-135 | the flip of bit i is none of the flips of the bits below it |
| HammingNeighbours.FlipsAreNear | kClustersHammingDistance.py:132-135 | dist_1 over n bits generates exactly the n-bit labels at distance 1 |
| HammingNeighbours.RowNew | kClustersHammingDistance.py:160-163 | the inner loop of dist_2 meets each value once |
| HammingNeighbours.RowKeepsLow | kClustersHammingDistance.py:160-163 | the values of the pass for outer bit i keep the bits below i |
| HammingNeighbours.Flips2ChangeLow | kClustersHammingDistance.py:159-163 | the values of the passes below i each change a bit below i |
| HammingNeighbours.RowApart | kClustersHammingDistance.py:159-163 | the pass for outer bit i meets none of the values of earlier passes |
| HammingNeighbours.Flips2Next | kClustersHammingDistance.py:159-163 | after the pass for outer bit i the index sits once under each value of the passes so far |
| HammingNeighbours.Flips2AreNear | kClustersHammingDistance.py:158-163 | dist_2 over n bits generates exactly the n-bit labels at distance 2 |
| HammingNeighbours.ScanStart | kClustersHammingDistance.py:138-140 | before the scan both dictionaries are empty |
| HammingNeighbours.ScanNext | kClustersHammingDistance.py:143-148 | one step: index i goes under every value near its label, and under its own label in present exactly when an earlier index generated it |
| HammingNeighbours.PresentSound | kClustersHammingDistance.py:143-148 | every index listed in present under v is an earlier index with label v |
| HammingNeighbours.PresentComplete | kClustersHammingDistance.py:143-148 | every index with an earlier index near its label is listed in present under its label |
| HammingNeighbours.CombinationsMembers | kClustersHammingDistance.py:124 | the combinations of an increasing list are exactly its pairs in order |
| HammingNeighbours.GroupPairs | kClustersHammingDistance.py:122-125 | the combinations of the indices of label k are the pairs a < b of indices with that label |
| HammingNeighbours.ProductMembers | kClustersHammingDistance.py:152-154 | the double loop appends exactly every pair of one index of val and one of cs |
| HammingNeighbours.NodesLinkNear | kClustersHammingDistance.py:186-193 | pairs that are sound and complete for distances 0, 1 and 2 link the same nodes as all pairs of labels at most 2 apart |
| HammingClustering.MaxSpaceKClustering.constructor | kClustersHammingDistance.py:84-108 | keeps the labels as read and builds the union-find structure of clusterCount nodes |
| HammingClustering.MaxSpaceKClustering.Distance0Items | kClustersHammingDistance.py:110-125 | keeps what nodes held and adds exactly the pairs a < b of indices with equal labels |
| HammingClustering.MaxSpaceKClustering.GroupByLabel | kClustersHammingDistance.py:116-117 | the list under every label holds its indices in increasing order |
| HammingClustering.MaxSpaceKClustering.Dist1 | kClustersHammingDistance.py:132-135 | index is appended under exactly the flips of one bit of num |
| HammingClustering.MaxSpaceKClustering.Dist2Row | kClustersHammingDistance.py:160-163 | index is appended under exactly the values of the inner loop for outer bit i |
| HammingClustering.MaxSpaceKClustering.Dist2 | kClustersHammingDistance.py:158-163 | index is appended under exactly the flips of two bits of num |
| HammingClustering.MaxSpaceKClustering.Scan | kClustersHammingDistance.py:143-148 | after the scan, keys lists under each value the indices near it and present lists each index that follows a near index |
| HammingClustering.MaxSpaceKClustering.ScanStep | kClustersHammingDistance.py:145-148 | one scan step keeps the scan's invariant, checking present before generating i's neighbours |
| HammingClustering.MaxSpaceKClustering.AddNear | kClustersHammingDistance.py:148 | index i is appended under exactly the values at distance d from x |
| HammingClustering.MaxSpaceKClustering.AppendRow | kClustersHammingDistance.py:153-154 | appends the pair (d, c) for every c of cs, in order |
| HammingClustering.MaxSpaceKClustering.AppendProduct | kClustersHammingDistance.py:152-154 | appends (d, c) for every d of val and c of cs, in order |
| HammingClustering.MaxSpaceKClustering.AppendPairs | kClustersHammingDistance.py:150-154 | keeps what nodes held and adds exactly the pairs of a present index with an earlier index near its label |
| HammingClustering.MaxSpaceKClustering.DistanceItems | kClustersHammingDistance.py:127-178 | every added pair joins two indices at distance d, and every two indices at distance d are paired |
| HammingClustering.MaxSpaceKClustering.Distance1Items | kClustersHammingDistance.py:127-154 | every added pair is at distance 1, and every two indices at distance 1 are paired |
| HammingClustering.MaxSpaceKClustering.Distance2Items | kClustersHammingDistance.py:156-178 | every added pair is at distance 2, and every two indices at distance 2 are paired |
| HammingClustering.MaxSpaceKClustering.UnionAll | kClustersHammingDistance.py:191-193 | the union-find classes after the loop are those of the labels merged pair by pair |
| HammingClustering.MaxSpaceKClustering.Solve | kClustersHammingDistance.py:182-196 | the count is the number of clusters, and two nodes share a cluster exactly when a chain of labels at most 2 bits apart joins them |
| IndexedHeap.Swap | allPairsShortestPath_Johnson.py:136-138 | exchanges the entries at i and j and keeps every other entry |
| IndexedHeap.MinChildOf | allPairsShortestPath_Johnson.py:176-186 | the only child of i, or a child whose key is at most both children's keys (the right one on a tie) |
| IndexedHeap.SwapContents | allPairsShortestPath_Johnson.py:136-138 | a swap keeps the entries the heap holds |
| IndexedHeap.SwapPos | allPairsShortestPath_Johnson.py:136-142 | a swap followed by recording both new positions keeps the position map right |
| IndexedHeap.SiftUpContents | allPairsShortestPath_Johnson.py:132-144 | percUp keeps the entries the heap holds |
| IndexedHeap.SiftUpPos | allPairsShortestPath_Johnson.py:132-144 | percUp keeps the position map right |
| IndexedHeap.UpSwap | allPairsShortestPath_Johnson.py:135-144 | a swap with a larger parent moves the one misplaced entry up a level |
| IndexedHeap.UpStay | allPairsShortestPath_Johnson.py:135-144 | with no swap the entry is in place and the walk up keeps the invariant |
| IndexedHeap.SiftUpOrder | allPairsShortestPath_Johnson.py:132-144 | percUp from the only misplaced entry restores heap order |
| IndexedHeap.SiftDownContents | allPairsShortestPath_Johnson.py:154-174 | percDown keeps the entries the heap holds |
| IndexedHeap.SiftDownPos | allPairsShortestPath_Johnson.py:154-174 | percDown keeps the position map right |
| IndexedHeap.DownSwap | allPairsShortestPath_Johnson.py:160-174 | a swap with a smaller child moves the one misplaced entry down a level |
| IndexedHeap.DownStay | allPairsShortestPath_Johnson.py:160-174 | with no swap the entry is in place and the walk down keeps the invariant |
| IndexedHeap.SiftDownOrder | allPairsShortestPath_Johnson.py:154-174 | percDown from the only misplaced entry restores heap order |
| IndexedHeap.RootLeast | allPairsShortestPath_Johnson.py:148 | in heap order the root's key is the least |
| IndexedHeap.PosEntry | allPairsShortestPath_Johnson.py:106-107 | every entry's vertex has a position, and the entry sits there |
| IndexedHeap.DelMinShrunk | allPairsShortestPath_Johnson.py:190-200 | moving the last entry to the root and popping leaves the other entries with positions right and only the root misplaced |
| IndexedHeap.DelMinSpec | allPairsShortestPath_Johnson.py:188-204 | delMin returns an entry of least key and leaves exactly the other entries, none for the returned vertex, in heap order with positions right |
| IndexedHeap.ChangeKeySpec | allPairsShortestPath_Johnson.py:207-213 | changeDistance gives v's entry, and only it, the new key, keeps positions right and keeps heap order when the key does not grow |
| IndexedHeap.InsertSpec | allPairsShortestPath_Johnson.py:124-130 | insert of a new vertex adds its entry, keeps positions right and keeps heap order |
| IndexedHeap.EqualKeysOrdered | allPairsShortestPath_Johnson.py:110-116 | entries all of one key are in heap order, so initInsert needs no percolation |
| IndexedHeap.MinHeap.constructor | allPairsShortestPath_Johnson.py:99-107 | the placeholder entry alone, size 0 and no positions |
| IndexedHeap.MinHeap.InitInsert | allPairsShortestPath_Johnson.py:112-116 | appends the entry, records position i and grows the size by one |
| IndexedHeap.MinHeap.Insert | allPairsShortestPath_Johnson.py:124-130 | appends the entry, records its position, then percolates it up |
| IndexedHeap.MinHeap.PercUp | allPairsShortestPath_Johnson.py:132-144 | the loop computes the sift up of the list and the position map |
| IndexedHeap.MinHeap.PercDown | allPairsShortestPath_Johnson.py:154-174 | the loop computes the sift down of the list and the position map |
| IndexedHeap.MinHeap.MinChild | allPairsShortestPath_Johnson.py:176-186 | returns the smaller child as MinChildOf defines it |
| IndexedHeap.MinHeap.DelMin | allPairsShortestPath_Johnson.py:188-204 | returns the root and leaves the list and positions DelMinOf defines |
| IndexedHeap.MinHeap.ChangeDistance | allPairsShortestPath_Johnson.py:207-213 | sets v's key and percolates it up, as ChangeKeyOf defines |
| DijkstraMinHeap.InsertAsWritten | dijkstra-minHeap.py:84-89 | appending and sifting up adds exactly the new entry, but records no position for it |
| DijkstraMinHeap.InsertAsWrittenLosesPosition | dijkstra-minHeap.py:84-89 | inserting vertex 7 with key 5 into the empty heap leaves 7 without a position, so a later changeDistance(7, ..) fails |
| DijkstraMinHeap.GraphSearched | dijkstra-minHeap.py:13-32 | the graph searched is the one the dictionaries describe, with no negative edge |
| DijkstraMinHeap.InitialHeap | dijkstra-minHeap.py:199-203 | after initInsert of every vertex at inf, positions are right, every key is inf and the heap holds exactly the graph's vertices |
| DijkstraMinHeap.InitialEntries | dijkstra-minHeap.py:199-203 | the loop puts every vertex in the heap at inf and sets its distance to inf, leaving other keys of distances as they were |
| DijkstraMinHeap.RelaxAll | dijkstra-minHeap.py:218-224 | the loop over v's neighbours keeps the heap size and the search invariant |
| DijkstraMinHeap.Search | dijkstra-minHeap.py:214-224 | at the end every vertex's distance is the length of a shortest walk from start |
| DijkstraMinHeap.Run | dijkstra-minHeap.py:197-226 | a KeyError exactly when start is not a vertex, after every distance was set to inf; otherwise every vertex gets its shortest distance from start |
| DijkstraMinHeap.Solution.constructor | dijkstra-minHeap.py:177-181 | an empty graph and no distances |
| DijkstraMinHeap.Solution.ShortestPath | dijkstra-minHeap.py:197-226 | a KeyError exactly when start is not a vertex; otherwise the distances hold every vertex's shortest distance from start |
| DijkstraSearch.WeightNonNegative | dijkstra-minHeap.py:220 | with no negative edge no walk weighs less than 0 |
| DijkstraSearch.FirstOutside | dijkstra-minHeap.py:214-224 | a walk that ends outside S has a first vertex outside S, every earlier one inside |
| DijkstraSearch.RelaxedEdge | dijkstra-minHeap.py:218-224 | an edge out of a vertex whose edges are all relaxed does not improve its end |
| DijkstraSearch.PrefixBound | dijkstra-minHeap.py:214-224 | the part of a walk from start up to its first vertex outside S weighs at least that vertex's distance |
| DijkstraSearch.WalkNotShorter | dijkstra-minHeap.py:214-224 | a walk to a vertex outside S is no shorter than the least distance outside S |
| DijkstraSearch.TailWeight | dijkstra-minHeap.py:220 | with no negative edge a walk weighs at least as much as its prefixes |
| DijkstraSearch.ExtractedShortest | dijkstra-minHeap.py:216 | the vertex of least key that delMin extracts has its shortest distance |
| DijkstraSearch.Initial | dijkstra-minHeap.py:199-209 | after the initial entries and changeDistance(start, 0) the search invariant holds |
| DijkstraSearch.InitialQueue | dijkstra-minHeap.py:206-209 | the heap of initial entries with start lowered to 0 keys every vertex by its distance |
| DijkstraSearch.ChangedEntries | dijkstra-minHeap.py:166-172 | after changeDistance(y, d) y's entry has key d, every other entry is unchanged and positions are right |
| DijkstraSearch.Extract | dijkstra-minHeap.py:216 | delMin settles the extracted vertex at its shortest distance and starts the inner loop |
| DijkstraSearch.QueueExtracted | dijkstra-minHeap.py:216 | delMin moves the vertex of least key from the heap to the settled set |
| DijkstraSearch.RelaxTarget | dijkstra-minHeap.py:220-221 | a neighbour whose distance drops is not yet settled |
| DijkstraSearch.NotSettled | dijkstra-minHeap.py:221 | a vertex with a walk shorter than its distance is not settled |
| DijkstraSearch.InQueue | dijkstra-minHeap.py:221-224 | an unsettled vertex is in the heap, at its recorded position, keyed by its distance |
| DijkstraSearch.RelaxFires | dijkstra-minHeap.py:221-224 | when newDis < distances[nbr], the distance and heap key drop to newDis and the inner loop's invariant holds for the next neighbour |
| DijkstraSearch.QueueChanged | dijkstra-minHeap.py:224 | lowering the key of a vertex still in the heap, to no less than the last extracted key, keeps the queue invariant |
| DijkstraSearch.SoundChanged | dijkstra-minHeap.py:222 | giving a vertex the length of a walk to it keeps every distance attained |
| DijkstraSearch.RelaxedChanged | dijkstra-minHeap.py:222 | lowering an unsettled vertex's distance keeps the settled vertices' edges relaxed |
| DijkstraSearch.RelaxedUpToChanged | dijkstra-minHeap.py:220-222 | setting the end of v's j-th edge to dis + weight relaxes the first j + 1 edges |
| DijkstraSearch.RelaxSkips | dijkstra-minHeap.py:221 | when newDis >= distances[nbr] nothing changes and the edge is relaxed |
| DijkstraSearch.Relaxed | dijkstra-minHeap.py:218-224 | once all of v's edges are relaxed the outer invariant holds again |
| DijkstraSearch.Done | dijkstra-minHeap.py:214 | when the heap is empty every distance is the shortest |
| HuffmanCode.LeavesOf | huffmanCode.py:68-71 | one leaf per weight, the weight at index i becoming the leaf of symbol i + 1 with no digit yet |
| HuffmanCode.NoteFirstLeast | huffmanCode.py:65-66 | the strict comparison keeps minFreqChar on the first symbol of least weight read so far |
| HuffmanCode.NoteFirstGreatest | huffmanCode.py:63-64 | the strict comparison keeps maxFreqChar on the first symbol of greatest weight read so far |
| HuffmanCode.NoteLastGreatest | huffmanCode.py:63-64 | with the comparison made non-strict, maxFreqChar stays on the last symbol of greatest weight read so far |
| HuffmanCode.Read | huffmanCode.py:46-71 | reading the weights gives the leaves in input order, and, when there is a weight, the first symbol of least weight and the first symbol of greatest weight; with no weight both stay unset |
| HuffmanCode.ReadFixed | huffmanCode.py:46-71 | as Read, except that the symbol noted for the greatest weight is the last one of that weight |
| HuffmanCode.SortByFreq | huffmanCode.py:77 | the sorted queue is a permutation of the leaves |
| HuffmanCode.SortOrdered | huffmanCode.py:77 | sorted(nodes, key=freq) is stable: the queue is ordered by weight with ties in input order and holds exactly the nodes it was given |
| HuffmanCode.SortedLeaves | huffmanCode.py:77 | the queue given to solve holds the leaf of every weight once, ordered by weight |
| HuffmanCode.QueueSymbols | huffmanCode.py:68-77 | the symbols in the queue are exactly 1 to the number of weights |
| HuffmanCode.BuildTree | huffmanCode.py:84-113 | the two-queue loop produces a root exactly when there are two leaves or more; the root weighs the sum of the weights and holds every leaf |
| HuffmanCode.Joined | huffmanCode.py:103-109 | the merged node has the two taken nodes as children, digit 0 on the left and 1 on the right, and weighs their sum |
| HuffmanCode.Decode | huffmanCode.py:122-131 | decode adds to the table exactly the code of every leaf below the node, each code being the digits on the path from the node, a later leaf of the same symbol winning |
| HuffmanCode.Decoded | huffmanCode.py:115-117 | decode from the root into an empty table gives the code table of the queue |
| HuffmanCode.TableOf | huffmanCode.py:84-131 | for two leaves or more, every symbol gets a code, each code is as long as its leaf is deep in the tree, and no code is a prefix of another |
| HuffmanCode.Solve | huffmanCode.py:82-120 | solve fails with AttributeError exactly when there are fewer than two symbols (decode reads the missing root), with a KeyError for a noted symbol that has no code, and otherwise returns the code table with the code lengths of the two noted symbols, max first |
| HuffmanCode.Answered | huffmanCode.py:115-120 | when both noted symbols have codes, the table and their code lengths are the answer solve prints |
| HuffmanCode.Ranked | huffmanCode.py:77-113 | a symbol ahead of another in the sorted queue gets a code at least as long |
| HuffmanCode.LongerCode | huffmanCode.py:84-113 | of two leaves of the queue, the one nearer the front gets a code at least as long |
| HuffmanCode.ByWeight | huffmanCode.py:43-45 | a strictly lighter symbol never gets a shorter code |
| HuffmanCode.LeastLongest | huffmanCode.py:45 | the first symbol of least weight gets a code as long as any: its length is the maximum code length |
| HuffmanCode.GreatestShortest | huffmanCode.py:44 | the last symbol of greatest weight gets a code as short as any: its length is the minimum code length |
| HuffmanCode.Huffman | huffmanCode.py:40-120 | the program as written: AttributeError for fewer than two weights; otherwise the code table of every symbol, a prefix code ordered by weight, "max length" the longest code length, and "min length" the code length of the first symbol of greatest weight |
| HuffmanCode.HuffmanFixed | huffmanCode.py:40-120 | as Huffman, but "min length" is no longer than any code: the shortest code length, that of the last symbol of greatest weight |
| HuffmanCode.Shared | huffmanCode.py:77-120 | solve on the sorted leaves with the first least symbol noted gives the code table, prefix-free and ordered by weight, with the maximum code length |
| HuffmanCode.OnlyOne | huffmanCode.py:63-66 | each of the three notes names a single symbol |
| HuffmanCode.MinLengthMisreported | huffmanCode.py:63-64 | with weights 1, 1, 1 the first symbol of greatest weight is 1, whose code "10" has length 2, while symbol 3 has the code "0" of length 1 |
| HuffmanQueues.Pop | huffmanCode.py:92-100 | taking a node removes exactly one node from the two queues |
| HuffmanQueues.Take2 | huffmanCode.py:92-100 | a round takes two nodes, leaving two fewer in the queues |
| HuffmanQueues.Merge | huffmanCode.py:92-110 | a round leaves one node fewer in the queues, mergedNodes non-empty |
| HuffmanQueues.PopShape | huffmanCode.py:92-100 | the node taken is the front of nodes or of mergedNodes, the rest stay in order, and no symbol or weight is lost |
| HuffmanQueues.MergeShape | huffmanCode.py:92-110 | every round takes two fronts and appends their merge to mergedNodes |
| HuffmanQueues.RunStep | huffmanCode.py:89-113 | a run with two nodes or more goes on from the queues its first round leaves, the root being the last merge |
| HuffmanQueues.Appended | huffmanCode.py:110 | appending a node adds its weight and its leaves |
| HuffmanQueues.LeavesForest | huffmanCode.py:84 | a queue of leaves with an empty mergedNodes satisfies the loop invariant |
| HuffmanQueues.MergeBags | huffmanCode.py:109-110 | a round keeps the symbols and the total weight |
| HuffmanQueues.MergeForest | huffmanCode.py:92-110 | a round keeps the loop invariant: nodes holds leaves not yet merged, mergedNodes labelled merged trees, no symbol twice |
| HuffmanQueues.RunTree | huffmanCode.py:89-113 | a finished run leaves one tree with no digit on the root, labelled, holding every leaf once and weighing all the queued nodes together |
| HuffmanQueues.StepBefore | huffmanCode.py:92-110 | a leaf whose tree leaves the queues before another's still does after a round: both queues are first in, first out |
| HuffmanQueues.RunOrder | huffmanCode.py:89-113 | a leaf whose tree is taken no later than another's ends up at least as deep in the root |
| HuffmanQueues.Built | huffmanCode.py:84-113 | the loop makes a tree exactly when there are two leaves or more; it holds every leaf once, is labelled and weighs the sum of the weights |
| HuffmanQueues.Deeper | huffmanCode.py:84-113 | a leaf earlier in the queue of leaves ends up at least as deep as a later one |
| HuffmanQueues.PopLeast | huffmanCode.py:92-100 | with both queues sorted, the node taken weighs no more than any node left, and on a tie between the fronts it is the front of mergedNodes |
| HuffmanQueues.TakeLeast | huffmanCode.py:92-100 | the second node taken is no lighter than the first and no heavier than any node left |
| HuffmanQueues.LastBound | huffmanCode.py:108-110 | the last merged node weighs no more than the two nodes the next round takes together |
| HuffmanQueues.NewBound | huffmanCode.py:108-110 | the appended merge bounds what the following round takes |
| HuffmanQueues.SortedAppend | huffmanCode.py:108-110 | appending a node no lighter than the last keeps a queue sorted |
| HuffmanQueues.MergeSorted | huffmanCode.py:108-110 | with no negative weight, a round keeps both queues sorted, as the comment at line 108 claims |
| HuffmanTrees.Relabelled | huffmanCode.py:103-104 | writing a digit into a node changes neither its leaves nor their depths nor the digits below |
| HuffmanTrees.CodesKeys | huffmanCode.py:122-131 | decode writes an entry for every leaf and nothing else |
| HuffmanTrees.Split | huffmanCode.py:109 | the leaves of a merged node with distinct leaves split between its children |
| HuffmanTrees.CodeOf | huffmanCode.py:122-131 | the code of a leaf starts with the code passed down and is longer by exactly the leaf's depth |
| HuffmanTrees.Across | huffmanCode.py:103-104 | codes from the two children of a merged node part at the digit the node wrote, so neither is a prefix of the other |
| HuffmanTrees.PrefixFree | huffmanCode.py:122-131 | the codes decode writes form a prefix code: no leaf's code is a prefix of another's |
| HuffmanTrees.CodeLength | huffmanCode.py:120 | the printed length of a leaf's code is its depth in the tree |
| VertexGraph.AsMapKeys | allPairsShortestPath_Johnson.py:27 | the dictionary a neighbour list stands for has exactly the listed neighbours as keys |
| VertexGraph.FindKey | allPairsShortestPath_Johnson.py:30 | the position of d among the neighbours, or -1 exactly when d is not one of them |
| VertexGraph.SetNeighbourMap | allPairsShortestPath_Johnson.py:29-30 | addNeighbour is the dictionary write connectedTo[d] = w and keeps the keys distinct |
| VertexGraph.ReplaceMap | allPairsShortestPath_Johnson.py:30 | overwriting an existing neighbour's weight is the dictionary update at that key |
| VertexGraph.AppendMap | allPairsShortestPath_Johnson.py:30 | adding a new neighbour at the end is the dictionary update at that key |
| VertexGraph.OutEdges | allPairsShortestPath_Johnson.py:35-36 | Vertex.getEdges: one edge [id, v, weight] per neighbour, in dictionary order |
| VertexGraph.EdgesMember | allPairsShortestPath_Johnson.py:73-78 | Graph.getEdges lists exactly the edges of the vertices' dictionaries |
| VertexGraph.ReweightNbrs | allPairsShortestPath_Johnson.py:38-40 | every neighbour's weight grows by weights[u] - weights[d], keys and order unchanged |
| VertexGraph.EdgesBelow | allPairsShortestPath_Johnson.py:73-78 | the edges listed join vertices whose ids index the weight list |
| VertexGraph.ReweightedEdges | allPairsShortestPath_Johnson.py:80-82 | the edges after updateEdges are the edges before, each reweighted, in the same order |
| VertexGraph.WfSetNeighbour | allPairsShortestPath_Johnson.py:51-61 | adding a neighbour keeps the graph's dictionaries consistent |
| VertexGraph.WfReweighted | allPairsShortestPath_Johnson.py:80-82 | reweighting keeps the graph's dictionaries consistent |
| VertexGraph.UpdateEdge | allPairsShortestPath_Johnson.py:38-40 | the loop of updateEdge adds weights[u] - weights[d] to every neighbour's weight |
| VertexGraph.ReweightedIn | allPairsShortestPath_Johnson.py:80-82 | reweighting some of the vertices keeps the set of vertices |
| VertexGraph.ReweightedInAll | allPairsShortestPath_Johnson.py:80-82 | reweighting the vertices one at a time, each once, reweights exactly those vertices |
| VertexGraph.ReweightedInFull | allPairsShortestPath_Johnson.py:80-82 | reweighting every vertex once, in insertion order, reweights the whole graph |
| VertexGraph.UpdateAll | allPairsShortestPath_Johnson.py:80-82 | the loop of updateEdges gives the reweighted graph |
| VertexGraph.Graph.constructor | allPairsShortestPath_Johnson.py:43-44 | an empty vertex dictionary |
| VertexGraph.Graph.AddVertex | allPairsShortestPath_Johnson.py:46-49 | adds a vertex with no neighbours exactly when the key is new; nothing changes otherwise |
| VertexGraph.Graph.AddEdge | allPairsShortestPath_Johnson.py:51-61 | creates the missing endpoints, then writes dest's weight into source's dictionary; every other vertex keeps its neighbours |
| VertexGraph.Graph.GetEdges | allPairsShortestPath_Johnson.py:73-78 | every vertex's edges, vertices in insertion order |
| VertexGraph.Graph.UpdateEdges | allPairsShortestPath_Johnson.py:80-82 | every edge u -> d of weight w becomes w + weights[u] - weights[d]; the vertices and their order are kept |
| JohnsonBuild.SourceEdges | allPairsShortestPath_Johnson.py:240-241 | the neighbours of vertex 0 are 1 to n, each at weight 0, in order |
| JohnsonBuild.WrittenSnoc | allPairsShortestPath_Johnson.py:236-237 | one more input line for u writes its weight at its head in u's dictionary; the later line wins |
| JohnsonBuild.ReadStep | allPairsShortestPath_Johnson.py:236-237 | reading one more line with addEdge keeps the dictionaries those the lines so far describe |
| JohnsonBuild.ReadLines | allPairsShortestPath_Johnson.py:226-237 | after the input loop, every vertex's dictionary maps each head to the weight of the last line for that edge |
| JohnsonBuild.SourceStep | allPairsShortestPath_Johnson.py:240-241 | adding the edge 0 -> n + 1 after those to 1..n gives the edges to 1..n + 1 |
| JohnsonBuild.SourceAdded | allPairsShortestPath_Johnson.py:240-241 | one more addEdge(0, v, 0) keeps the other vertices' dictionaries |
| JohnsonBuild.AddSource | allPairsShortestPath_Johnson.py:239-241 | the loop adds vertex 0 with an edge of weight 0 to every vertex 1..vertexCount and changes no other dictionary |
| JohnsonBuild.Built | allPairsShortestPath_Johnson.py:219-241 | both loops of __init__ give the graph of the lines plus the new vertex 0 |
| JohnsonBellmanFord.PassLimit | allPairsShortestPath_Johnson.py:256-257 | `while updated and i < limit` from i = 1 runs at most limit - 1 passes |
| JohnsonBellmanFord.RelaxEdges | allPairsShortestPath_Johnson.py:258-264 | one pass relaxes every edge in turn, and the flag is set exactly when the table changed |
| JohnsonBellmanFord.RunPasses | allPairsShortestPath_Johnson.py:247-266 | the table after the passes the loop bound allows, stopping early after a pass that changes nothing |
| JohnsonBellmanFord.StablePasses | allPairsShortestPath_Johnson.py:269-276 | whatever the number of passes, a table in which no edge relaxes holds the shortest distances and rules out a reachable negative closed walk |
| JohnsonBellmanFord.BellmanFord | allPairsShortestPath_Johnson.py:244-276 | as written: raises exactly when an edge still relaxes after vertexCount - 1 passes, always when a negative closed walk is reachable, and otherwise returns the shortest distances |
| JohnsonBellmanFord.BellmanFordFixed | allPairsShortestPath_Johnson.py:244-276 | with one pass per vertex of the augmented graph: raises exactly when a negative closed walk is reachable from src, and otherwise returns the shortest distances |
| JohnsonBellmanFord.TooFewPasses | allPairsShortestPath_Johnson.py:256-257 | the graph of one vertex and no input line has no negative cycle, yet after PassLimit(1) = 0 passes an edge still relaxes, so bellman_ford raises |
| JohnsonBellmanFord.EdgeInto | allPairsShortestPath_Johnson.py:239-241 | every edge of the built graph leaves 0..vertexCount and enters 1..vertexCount: none enters vertex 0 |
| JohnsonBellmanFord.EdgeFromSource | allPairsShortestPath_Johnson.py:240-241 | the edge 0 -> u of weight 0 is in the graph for every vertex u |
| JohnsonBellmanFord.CycleToVertex | allPairsShortestPath_Johnson.py:239-241 | a negative closed walk reachable from 0 is reachable from one of the vertices 1..vertexCount |
| JohnsonBellmanFord.CycleFromVertex | allPairsShortestPath_Johnson.py:239-241 | a negative closed walk reachable from a vertex is reachable from 0 |
| JohnsonBellmanFord.CycleFromSource | allPairsShortestPath_Johnson.py:239-241 | a negative closed walk is reachable from 0 exactly when one is reachable from some vertex 1..vertexCount |
| JohnsonBellmanFord.PotentialsFinite | allPairsShortestPath_Johnson.py:347 | once bellman_ford from 0 returns, every distance is finite |
| JohnsonBellmanFord.DistancesStable | allPairsShortestPath_Johnson.py:271-273 | shortest distances leave no edge to relax |
| JohnsonBellmanFord.AugmentedIn | allPairsShortestPath_Johnson.py:219-241 | the built graph's vertices are among 0..vertexCount |
| JohnsonBellmanFord.Reweighable | allPairsShortestPath_Johnson.py:347-348 | reweighting by the distances from 0 leaves no edge of negative weight |
| JohnsonBellmanFord.NonNegativeAdj | allPairsShortestPath_Johnson.py:348 | when every reweighted edge is non-negative, so is every dictionary entry |
| Reweighting.RestoreEdge | allPairsShortestPath_Johnson.py:315 | undoing the reweighting of an edge gives back the edge it came from |
| Reweighting.ReweightWalk | allPairsShortestPath_Johnson.py:38-40 | each edge of a walk reweighted |
| Reweighting.WeightTelescopes | allPairsShortestPath_Johnson.py:38-40 | the reweighted weight of a walk is its original weight plus h[start] - h[end] |
| Reweighting.SameEndsWalk | allPairsShortestPath_Johnson.py:38-40 | reweighting keeps the vertices a walk passes |
| Reweighting.EdgesReweighted | allPairsShortestPath_Johnson.py:80-82 | every edge of an original walk, reweighted, is an edge of the reweighted graph |
| Reweighting.EdgesRestored | allPairsShortestPath_Johnson.py:80-82 | every edge of a reweighted walk, restored, is an edge of the original graph |
| Reweighting.WalkReweighted | allPairsShortestPath_Johnson.py:348 | a walk of the original graph is a walk of the reweighted one, heavier by h[u] - h[v] |
| Reweighting.WalkRestored | allPairsShortestPath_Johnson.py:348 | a walk of the reweighted graph is, at the original weights, a walk between the same vertices, lighter by h[u] - h[v] |
| Reweighting.ShortestRestored | allPairsShortestPath_Johnson.py:313-315 | a shortest distance in the reweighted graph minus weights[src] - weights[v] is the shortest distance in the original graph |
| Reweighting.Potentials | allPairsShortestPath_Johnson.py:347 | the finite distances as integers |
| Reweighting.ReweightedNonNegative | allPairsShortestPath_Johnson.py:347-348 | with potentials in which no edge relaxes, every reweighted edge weighs at least 0 |
| JohnsonSearch.Table | allPairsShortestPath_Johnson.py:280 | the distance list read as a dictionary from vertex to distance |
| JohnsonSearch.TableUpdate | allPairsShortestPath_Johnson.py:305 | writing one distance is the dictionary update |
| JohnsonSearch.InitialPrev | allPairsShortestPath_Johnson.py:281-282 | src is its own predecessor and every other vertex has -1 |
| JohnsonSearch.InitialLists | allPairsShortestPath_Johnson.py:280-290 | the lists built are 0 at src and inf elsewhere, and the initial predecessors |
| JohnsonSearch.TreeStart | allPairsShortestPath_Johnson.py:280-290 | before the loop the predecessor invariant holds |
| JohnsonSearch.TreeExtract | allPairsShortestPath_Johnson.py:299 | extracting a vertex gives it the next number and keeps the predecessor invariant |
| JohnsonSearch.TreeRelax | allPairsShortestPath_Johnson.py:304-309 | lowering an unextracted vertex through an edge out of an extracted one, and recording it in prev, keeps the invariant |
| JohnsonSearch.FiresTree | allPairsShortestPath_Johnson.py:303-309 | the same step for an edge of the dictionaries |
| JohnsonSearch.Fires | allPairsShortestPath_Johnson.py:303-309 | when newDis < distances[nbr], nbr is still in the heap, and the step keeps the heap and predecessor invariants |
| JohnsonSearch.PathComplete | allPairsShortestPath_Johnson.py:327-338 | following predecessors back from an extracted vertex at a finite distance reaches src |
| JohnsonSearch.RankBelow | allPairsShortestPath_Johnson.py:297-299 | every extraction number is below the number of vertices |
| JohnsonSearch.Restored | allPairsShortestPath_Johnson.py:315 | every distance minus weights[src] - weights[v] |
| JohnsonDijkstra.FillHeap | allPairsShortestPath_Johnson.py:283-286 | the heap holds every vertex once, each at inf |
| JohnsonDijkstra.RelaxOut | allPairsShortestPath_Johnson.py:301-309 | the loop over v's neighbours keeps the heap size, the heap invariant and the predecessor invariant |
| JohnsonDijkstra.Step | allPairsShortestPath_Johnson.py:297-309 | one round extracts the least key and relaxes its edges, keeping the search invariants with a smaller heap |
| JohnsonDijkstra.Search | allPairsShortestPath_Johnson.py:297-309 | every vertex is extracted and every distance is the shortest distance from src in the reweighted graph |
| JohnsonDijkstra.Unweight | allPairsShortestPath_Johnson.py:311-318 | every distance but src's goes back to its original weight, and minDist and dest are the least of them and the first vertex holding it |
| JohnsonDijkstra.ChainsComplete | allPairsShortestPath_Johnson.py:327-338 | after the search every finite distance has a predecessor chain back to src |
| JohnsonDijkstra.PathFound | allPairsShortestPath_Johnson.py:323 | getPath for dest gives the vertex sequence of a walk of the original graph of dest's restored distance |
| JohnsonDijkstra.RestoredLeast | allPairsShortestPath_Johnson.py:311-318 | the restored distances are shortest in the original graph, so their least is the least walk from src to another vertex |
| JohnsonDijkstra.FirstFound | allPairsShortestPath_Johnson.py:316-318 | dest is the first vertex at the least distance |
| JohnsonDijkstra.ReweightedIn | allPairsShortestPath_Johnson.py:80-82 | the reweighted graph's vertices are those of the original |
| JohnsonDijkstra.Begins | allPairsShortestPath_Johnson.py:289-292 | the heap and predecessor invariants together start the loop |
| JohnsonDijkstra.Start | allPairsShortestPath_Johnson.py:279-292 | every vertex in the heap at inf, distances inf with 0 at src, which is its own predecessor |
| JohnsonDijkstra.Answers | allPairsShortestPath_Johnson.py:311-324 | minDist is the least original distance from src and the path a walk attaining it |
| JohnsonDijkstra.Answer | allPairsShortestPath_Johnson.py:311-324 | returns the least original distance from src to another vertex and a walk to the first vertex attaining it, None when inf |
| JohnsonDijkstra.SearchedAll | allPairsShortestPath_Johnson.py:297-309 | the search over the dictionaries reaches every vertex |
| JohnsonDijkstra.Explore | allPairsShortestPath_Johnson.py:279-309 | every vertex ends extracted with its shortest distance in the reweighted graph |
| JohnsonDijkstra.Dijkstra | allPairsShortestPath_Johnson.py:278-324 | over the reweighted graph, the least original distance from src to another vertex and a walk attaining it |
| JohnsonAnswers.NoneYet | allPairsShortestPath_Johnson.py:350-351 | before the loop the best answer is inf with no path |
| JohnsonAnswers.KeepBest | allPairsShortestPath_Johnson.py:355-357 | dijkstra's answer replaces the best so far only when strictly smaller |
| JohnsonAnswers.Best | allPairsShortestPath_Johnson.py:352-361 | after every source the best is the least distance between two different vertices |
| Johnson.AllSources | allPairsShortestPath_Johnson.py:350-358 | the loop over sources returns the least distance between two different vertices with a walk attaining it |
| Johnson.ReweightAndSearch | allPairsShortestPath_Johnson.py:348-361 | updateEdges, then the loop: the least distance between two different vertices of the original graph |
| Johnson.Johnson.constructor | allPairsShortestPath_Johnson.py:219-241 | the graph of the input lines, each vertex's dictionary as the lines write it, plus vertex 0 |
| Johnson.Johnson.GetShortestPath | allPairsShortestPath_Johnson.py:340-361 | as written: raises whenever a vertex reaches a negative closed walk; when it returns, the least distance between two different vertices and a walk attaining it |
| Johnson.Johnson.GetShortestPathFixed | allPairsShortestPath_Johnson.py:340-361 | with the corrected bellman_ford: raises exactly when a vertex reaches a negative closed walk, and otherwise the least distance with a walk |
| Karatsuba.Karatsuba | karatsuba-multiplication.py:14-31 | the result is exactly x * y for all integers; operands below 10 are multiplied directly, the others split at 10^(n/2) into three recursive products |
| Karatsuba.NumDigits | karatsuba-multiplication.py:19 | len(str(x)): x < 10^r, 10^(r-1) <= x when r > 1, and r >= 2 exactly when x >= 10 |
| Karatsuba.SplitLength | karatsuba-multiplication.py:19-22 | the split length n is even and at least 2, no more than the longer digit count, and 10^(n/2) is at most one of the operands |
| Karatsuba.SplitBounds | karatsuba-multiplication.py:25-26 | divmod by bn gives x == a*bn + b with 0 <= b < bn, and a, b and a + b are smaller than x, so every recursive call is on smaller operands |
| Karatsuba.Recombine | karatsuba-multiplication.py:27-31 | 10^n*ac + bn*((a+b)(c+d) - ac - bd) + bd equals (a*bn + b)*(c*bn + d) when 10^n == bn*bn |
| Knapsack.SumSnoc | knapsackProblem.py:82 | adding an item to a list adds its value (or weight) to the list's total |
| Knapsack.SumNonNegative | knapsackProblem.py:16 | with positive weights a list of items weighs at least 0, and more than 0 when not empty |
| Knapsack.OptimumUnique | knapsackProblem.py:88 | the maximum value of a knapsack instance is unique, so the three options must print the same number |
| Knapsack.TableChoice | knapsackProblem.py:78-86 | the items the traceback rule picks from dp[i][j] are increasing items of 1..i, fit in capacity j and are worth exactly dp[i][j] |
| Knapsack.TableOptimal | knapsackProblem.py:57-71 | dp[i][j] is the maximum value of a subset of items 1..i weighing at most j: some subset attains it and none exceeds it |
| Knapsack.TableAtLeast | knapsackProblem.py:65-71 | dp[i][j] is at least the row above, and at least dp[i-1][j-w] + v when item i fits |
| Knapsack.TableUpperBound | knapsackProblem.py:57-71 | no subset of items 1..i weighing at most j is worth more than dp[i][j] |
| Knapsack.TakenBound | knapsackProblem.py:69-71 | a subset ending with item i is worth at most dp[i-1][j-w] + v, hence at most dp[i][j] |
| Knapsack.InitSubset | knapsackProblem.py:69-71 | a subset of 1..i ending with i is a subset of 1..i-1 followed by i |
| Knapsack.SubsetInitBelowLast | knapsackProblem.py:82 | every item of an increasing list comes before its last item |
| Knapsack.SubsetTail | knapsackProblem.py:134 | the rest of an increasing list after its first item lies above that item |
| Knapsack.TableNonNegative | knapsackProblem.py:57 | every table entry is at least 0 |
| Knapsack.TableZeroCapacity | knapsackProblem.py:57-62 | with positive weights dp[i][0], which the loops never write, is rightly 0 |
| Knapsack.RecChoice | knapsackProblem.py:117-137 | following the winning case of helper picks increasing items of item..n-1 that fit in w and are worth exactly helper(w, item) |
| Knapsack.RecNonNegative | knapsackProblem.py:117-137 | helper never returns a negative value |
| Knapsack.RecUpperBound | knapsackProblem.py:117-137 | no subset of items item..n-1 weighing at most w is worth more than helper(w, item) |
| Knapsack.RecOptimal | knapsackProblem.py:117-137 | helper(w, item) is the maximum value of a subset of items item..n-1 weighing at most w |
| Knapsack.TableMatchesRecursion | knapsackProblem.py:48-50 | the 2-D table and the memoised recursion compute the same maximum |
| Knapsack.FillRow | knapsackProblem.py:60-71 | the inner loop turns row i-1 of the table into row i, and leaves j bound to capacity unless the loop never ran |
| Knapsack.KnapsackTable | knapsackProblem.py:53-89 | knapsack raises "Invalid input" exactly for a negative capacity or empty lists; it fails with NameError when no item or no capacity leaves the traceback's loop variables unbound; otherwise it returns dp[-1][-1], the maximum value, and increasing items that fit and are worth exactly that |
| Knapsack.Traceback | knapsackProblem.py:78-86 | the traceback picks increasing items of 1..i that fit in the capacity and are worth exactly dp[i][capacity] |
| Knapsack.KnapsackLessSpace | knapsackProblem.py:93-107 | knapsack_lessSpace raises "Invalid input" exactly on bad input, and otherwise returns dp[-1], the last entry of the 2-D table: the maximum value |
| Knapsack.Helper | knapsackProblem.py:117-137 | helper returns the memoised value of items item..n-1 within capacity w, and leaves every cache entry correct, its own key included, and keeps the keys already cached |
| Knapsack.KnapsackRecursive | knapsackProblem.py:110-140 | knapsack_recursive raises "Invalid input" exactly on bad input, and otherwise returns helper(capacity, 1), equal to the table's maximum value |
| WeightedEdges.InsertEdgeMultiset | maxSpacingKClustering.py:98 | inserting an edge adds exactly that edge to the edges held |
| WeightedEdges.InsertEdgeSorted | maxSpacingKClustering.py:98 | inserting an edge keeps the edges in lexicographic (weight, node1, node2) order |
| WeightedEdges.SortEdges | maxSpacingKClustering.py:98 | edges.sort(): a permutation of the edges in lexicographic order of the (weight, node1, node2) tuples |
| ClusterLabels.ClustersStep | maxSpacingKClustering.py:102-108 | while the count is not k, one pass merges the clusters of the edge's ends and lowers the count exactly when they differed |
| ClusterLabels.ClustersDone | maxSpacingKClustering.py:102-105 | the loop changes nothing once the count is k or the edges are used up |
| ClusterLabels.ClustersKeepTogether | maxSpacingKClustering.py:102-108 | nodes in one cluster stay in one cluster |
| ClusterLabels.MergedInside | maxSpacingKClustering.py:107-108 | both ends of every edge taken by the loop end in one cluster |
| ClusterLabels.ClustersStop | maxSpacingKClustering.py:102-105 | the loop stops with exactly k clusters or after taking every edge |
| ClusterLabels.MinCrossingIsLeast | maxSpacingKClustering.py:113-118 | the result is inf exactly when no edge joins two clusters, and otherwise the weight of a crossing edge that no crossing edge undercuts |
| ClusterLabels.SpacingAboveMerged | maxSpacingKClustering.py:98-118 | with the edges sorted, every edge between two final clusters weighs at least as much as every edge the loop took |
| ClusterLabels.SpacingOfResult | maxSpacingKClustering.py:98-118 | the returned spacing is at least the weight of every edge the loop took |
| ClusterLabels.RelabelClasses | maxSpacingKClustering.py:107-108 | merging the cluster of one node into that of another removes exactly one cluster of the nodes 1..N when they differed, none when they were one |
| ClusterLabels.ClustersCount | maxSpacingKClustering.py:102-108 | the count the loop keeps stays the number of clusters of the nodes 1..N |
| ClusterLabels.SplitCrossed | maxSpacingKClustering.py:102-108 | a labelling that separates two nodes of one final cluster already separated them before the loop, or has a merged edge crossing it |
| ClusterLabels.FewerClasses | maxSpacingKClustering.py:1-2 | a labelling coarser than a clustering has no more clusters than it |
| ClusterLabels.FewerClassesStrict | maxSpacingKClustering.py:1-2 | a coarser labelling that joins two of its clusters has strictly fewer clusters |
| ClusterLabels.MinCrossingSame | maxSpacingKClustering.py:113-118 | two labellings crossed by the same edges have the same spacing |
| ClusterLabels.MaxSpacing | maxSpacingKClustering.py:1-18 | from singleton clusters, stopped at k clusters, the loop leaves k clusters and no labelling of the nodes into k clusters or more has a larger spacing |
| MaxSpacingClustering.FreshRoots | maxSpacingKClustering.py:22-29 | in UnionFind(N) as built, every node is its own root |
| MaxSpacingClustering.FreshClusters | maxSpacingKClustering.py:22-29 | in UnionFind(N) as built, the clusters of the nodes 1..N are N singletons, one per node |
| MaxSpacingClustering.MaxSpacingFromStart | maxSpacingKClustering.py:1-18 | solve(k) on the structure the constructor builds, stopped at k clusters, yields a max-spacing k-clustering of the nodes 1..N |
| MaxSpacingClustering.MaxSpaceKClustering.constructor | maxSpacingKClustering.py:76-98 | the edges sorted, over a fresh union-find structure of nodes 1..N |
| MaxSpacingClustering.MaxSpaceKClustering.Solve | maxSpacingKClustering.py:100-118 | the union-find classes and count afterwards are those of the merging loop, and the result is the least weight of an edge between two different clusters, inf if none; started from the constructor's state and stopped at k clusters, there are k clusters of the nodes 1..N and every labelling of them into k clusters or more has a crossing edge no heavier than the result: a max-spacing k-clustering |
| MaxSpacingClustering.MaxSpaceKClustering.MergeClusters | maxSpacingKClustering.py:102-108 | the first loop leaves the union-find classes and count of the merging loop on the classes before it, and keeps the structure valid |
| MaxSpacingClustering.MaxSpaceKClustering.CrossingWeight | maxSpacingKClustering.py:113-118 | the second loop returns the least weight of an edge whose ends are not connected, inf if none, and changes no class |
| ExtInt.Min | maxSpacingKClustering.py:116 | min(a, b) with float('inf'): at most both arguments and one of them |
| MedianMaintenance.MedianOfArrangement | medianMaintenance.py:4-5 | the k-th median is the ceil(k/2)-th smallest of every sorted arrangement of the first k numbers |
| MedianMaintenance.HeapsSplit | medianMaintenance.py:14-17 | when the heaps split the sorted numbers, every low-heap entry is at most every high-heap entry and together they hold exactly the numbers read |
| MedianMaintenance.Rebalance | medianMaintenance.py:28-39 | after push, move of the low maximum and the conditional move back, the heaps split the sorted numbers with x inserted, the low heap holding ceil((k+1)/2) and the high heap floor((k+1)/2) |
| MedianMaintenance.PushThenPop | medianMaintenance.py:28-33 | pushing x onto the low heap and moving its maximum to the high heap leaves the concatenation equal to the sorted numbers with x inserted |
| MedianMaintenance.SortedParts | medianMaintenance.py:32 | in a sorted split around the low heap's top, everything before it is at most the top and everything after at least it |
| MedianMaintenance.PushBelowTop | medianMaintenance.py:28-33 | when x is at most the low heap's top, the top moves to the high heap and x stays in the low heap, keeping the sorted split |
| MedianMaintenance.PushAboveTop | medianMaintenance.py:28-33 | when x exceeds the whole low heap, x itself moves to the high heap |
| MedianMaintenance.MoveBack | medianMaintenance.py:37-39 | moving the high heap's minimum back to the low heap keeps the sorted split |
| MedianMaintenance.InsertEnd | medianMaintenance.py:28 | a value at or above every entry of a sorted sequence is inserted at its end |
| MedianMaintenance.NextNumber | medianMaintenance.py:22-51 | reading the k-th number inserts it into the sorted numbers so far and adds the new median to the sum |
| MedianMaintenance.LastSorted | medianMaintenance.py:22-28 | the sorted numbers of a stream are those of the stream without its last number, with that number inserted |
| MedianMaintenance.LastSum | medianMaintenance.py:51 | the sum of medians of a stream is that of the stream without its last number plus the new median |
| MedianMaintenance.Run | medianMaintenance.py:13-53 | the result is m_1 + ... + m_k modulo 10000, where m_k is the ceil(k/2)-th smallest of the first k numbers, and lies in 0..9999 |
| MergeSortInversions.Merge | mergesort-inversions.py:49-72 | the merge of two halves is as long as both together |
| MergeSortInversions.MergePermutation | mergesort-inversions.py:49-72 | the merge holds exactly the entries of both halves |
| MergeSortInversions.MergeSorted | mergesort-inversions.py:49-72 | merging two sorted halves gives a sorted sequence |
| MergeSortInversions.MergeSortedLeft | mergesort-inversions.py:50-52 | taking the left front on a tie or when smaller keeps the merge sorted |
| MergeSortInversions.MergeSortedRight | mergesort-inversions.py:53-58 | taking a strictly smaller right front keeps the merge sorted |
| MergeSortInversions.MergeBounded | mergesort-inversions.py:49-72 | a lower bound of both halves bounds every entry of their merge |
| MergeSortInversions.MergeCons | mergesort-inversions.py:50-58 | the merge begins with the smaller front, the left one on a tie |
| MergeSortInversions.SortedCons | mergesort-inversions.py:50-58 | putting a value no larger than any entry in front of a sorted sequence keeps it sorted |
| MergeSortInversions.ConsPermutation | mergesort-inversions.py:51-57 | copying a front adds it to the merged entries |
| MergeSortInversions.CountGreaterAppend | mergesort-inversions.py:56 | the entries greater than y in s + t are those in s plus those in t |
| MergeSortInversions.CountGreaterPermutation | mergesort-inversions.py:56 | the number of entries greater than y depends only on the entries, not their order |
| MergeSortInversions.RemoveAtMultiset | mergesort-inversions.py:56 | removing one entry removes it from the multiset |
| MergeSortInversions.CountGreaterRemoveAt | mergesort-inversions.py:56 | removing one entry lowers the count of entries greater than y by one exactly when that entry is greater |
| MergeSortInversions.CrossRemoveAt | mergesort-inversions.py:56 | removing one right entry removes exactly the cross inversions it takes part in |
| MergeSortInversions.CrossAppend | mergesort-inversions.py:56 | the cross inversions with b + c are those with b plus those with c |
| MergeSortInversions.CrossPermutation | mergesort-inversions.py:33-38 | the cross inversions between the halves depend only on their entries, so sorting the halves first does not change them |
| MergeSortInversions.InversionsSplit | mergesort-inversions.py:33-38 | the inversions of a + b are those inside a, those inside b and those across |
| MergeSortInversions.SortedNoInversions | mergesort-inversions.py:21-22 | a sorted sequence has no inversions |
| MergeSortInversions.CountGreaterNone | mergesort-inversions.py:50-52 | no entry of s is greater than a y bounding all of s |
| MergeSortInversions.CountGreaterAll | mergesort-inversions.py:54-56 | every entry of s is greater than a y below all of s |
| MergeSortInversions.CrossSnoc | mergesort-inversions.py:56 | copying right[j] adds the left entries greater than it to the cross count |
| MergeSortInversions.MergeFromIsMerge | mergesort-inversions.py:49-72 | the merge continued from positions (i, j) is the merge of the remaining suffixes |
| MergeSortInversions.CrossRestZero | mergesort-inversions.py:69-72 | once the whole left half is copied, the right entries still to come add no inversions |
| MergeSortInversions.CopyFrom | mergesort-inversions.py:63-72 | a tail loop copies the rest of one half to arr from position k on and changes nothing else |
| MergeSortInversions.MergeCountIsCross | mergesort-inversions.py:49-58 | for sorted halves, what the loop adds from (i, j) on plus the cross inversions already counted is the number of cross inversions |
| MergeSortInversions.TakeLeft | mergesort-inversions.py:50-52 | a left front no larger than the right front is copied next and adds nothing to the count |
| MergeSortInversions.TakeRight | mergesort-inversions.py:53-58 | a right front smaller than the left front is copied next and adds len(left) - i to the count |
| MergeSortInversions.MergeStart | mergesort-inversions.py:46 | merging from the fronts of both halves is the whole merge |
| MergeSortInversions.MergeFronts | mergesort-inversions.py:46-59 | the first loop stops when one half is used up, having written the first i + j entries of the merge and counted len(left) - i at each right copy |
| MergeSortInversions.Combine | mergesort-inversions.py:42-74 | combine writes the merge of the sorted halves into arr and returns the number of pairs (x from left, y from right) with x > y |
| MergeSortInversions.CountAtRight | mergesort-inversions.py:54-56 | when right[j] lies between the copied and the uncopied left entries, exactly len(left) - i left entries are greater than it |
| MergeSortInversions.BelowPrefix | mergesort-inversions.py:54-56 | no copied left entry is greater than the right entry being copied |
| MergeSortInversions.AboveSuffix | mergesort-inversions.py:54-56 | every uncopied left entry is greater than the right entry being copied |
| MergeSortInversions.MergeSortStep | mergesort-inversions.py:25-38 | merging the sorted halves gives a sorted permutation of the whole, and the halves' counts plus the cross count are its inversions |
| MergeSortInversions.Halves | mergesort-inversions.py:27-29 | arr[:mid] and arr[mid:] together are arr |
| MergeSortInversions.MergeSortPermutation | mergesort-inversions.py:33-38 | merging sorted permutations of the two halves gives a permutation of the whole |
| MergeSortInversions.MergeSortCount | mergesort-inversions.py:33-38 | the inversions of the whole are those of each half plus the cross inversions of their sorted versions |
| MergeSortInversions.SortedCopy | mergesort-inversions.py:28-34 | a half is copied, sorted in place and its inversions counted: a sorted permutation of arr[lo:hi] and the inversion count of that slice |
| MergeSortInversions.MergeSort | mergesort-inversions.py:20-40 | merge_sort sorts arr in place, keeping its entries, and returns the number of pairs i < j with arr[i] > arr[j] in the original; an array of length at most one is left alone with count 0 |
| MaxWeightIndependentSet.PathWeightPrepend | maxWeightIndependentSet.py:82 | putting vertex x in front of a path adds exactly its weight |
| MaxWeightIndependentSet.OptNonNegative | maxWeightIndependentSet.py:49-56 | with non-negative weights every cache entry of the recurrence is non-negative |
| MaxWeightIndependentSet.IndependentBelowLast | maxWeightIndependentSet.py:76-83 | in an independent increasing path every vertex before the last is at least two below it |
| MaxWeightIndependentSet.OptIsUpperBound | maxWeightIndependentSet.py:52-59 | with non-negative weights, no independent set of vertices 1..i weighs more than cache[i]: the cache value is the maximum |
| MaxWeightIndependentSet.IndependentPrepend | maxWeightIndependentSet.py:82-83 | prepending a vertex at least two below the path's first keeps it independent |
| MaxWeightIndependentSet.SkipStep | maxWeightIndependentSet.py:78-79 | the branch that skips vertex i keeps collected weight plus cache[i] equal to the maximum weight, including the wrap of cache[-1] at i == 1 |
| MaxWeightIndependentSet.TakeStep | maxWeightIndependentSet.py:80-83 | the branch that takes vertex i keeps collected weight plus cache[i-2] equal to the maximum weight |
| MaxWeightIndependentSet.GetPath | maxWeightIndependentSet.py:71-85 | the walk returns an increasing path of non-adjacent vertices of 1..n, and on a filled cache with non-negative weights its weight is the last cache entry |
| MaxWeightIndependentSet.Membership | maxWeightIndependentSet.py:64-66 | the output string has one digit per queried vertex, '1' exactly when that vertex is on the path |
| MaxWeightIndependentSet.FillCache | maxWeightIndependentSet.py:49-56 | every cache entry equals the recurrence max(cache[i-1], cache[i-2] + w[i]) |
| MaxWeightIndependentSet.CalcMaxWeight | maxWeightIndependentSet.py:47-68 | fails exactly on an empty path; otherwise the weight is the recurrence at n and, for non-negative weights, an independent set of that weight exists whose membership the string reports |
| PrimSpanningTree.Graph.constructor | PrimSpanningTree.py:16-17 | a new graph has no vertices |
| PrimSpanningTree.Graph.AddEdge | PrimSpanningTree.py:19-26 | both endpoints become vertices; the edge is recorded in both directions with its weight, a repeated edge keeping the last weight, and every other edge is unchanged |
| PrimSpanningTree.ReadStep | PrimSpanningTree.py:168-177 | adding one line of the file to a graph that describes the earlier lines gives a graph that describes all of them (each pair joined by its last line) and stays undirected |
| PrimSpanningTree.NewHeap | PrimSpanningTree.py:32-52 | the heap holds every vertex 1..n at its own index with key inf, and records each position |
| PrimSpanningTree.Update | PrimSpanningTree.py:145-154 | the heap and position map become those of UpdateOf: the key of vertex is lowered to newCost only when newCost is smaller; the size is unchanged |
| PrimQueue.UpdateSpec | PrimSpanningTree.py:145-154 | update keeps the heap order and the position map, and leaves the vertex with the smaller of its old key and the new cost and every other entry as it was |
| PrimSpanningTree.InsertAsWritten | PrimSpanningTree.py:64-70 | insert appends the entry, percolates it up and only then records its position as the last index, as InsertAsWrittenOf computes |
| PrimQueue.InsertAsWrittenMisplaces | PrimSpanningTree.py:64-70 | inserting a smaller key into a one-entry heap leaves the position map wrong: the recorded positions no longer match the heap |
| PrimSpanningTree.ScanVertex | PrimSpanningTree.py:205-209 | scanning the neighbours of a seen vertex keeps the cheapest crossing edge found so far: the result is no larger than before and no larger than any crossing edge from that vertex |
| PrimSpanningTree.ScanSeen | PrimSpanningTree.py:198-209 | scanning all seen vertices fails with a KeyError only for a seen vertex that has no entry; otherwise it returns no vertex exactly when no edge crosses the cut, or a cheapest crossing edge |
| PrimSpanningTree.SpanningCard | PrimSpanningTree.py:197 | a set holding every vertex 1..n has at least n elements, so the loop stops once all are seen |
| PrimSpanningTree.MissingCard | PrimSpanningTree.py:197 | a set of vertices in 1..n that misses one has fewer than n elements, so the loop goes on while a vertex is unseen |
| PrimSpanningTree.SlowPrim | PrimSpanningTree.py:184-219 | minSpanningTree fails with KeyError(start) when the start has no edges, with "not connected" only when the graph is not connected, and otherwise returns the total of a run of Prim's algorithm in which every step takes a cheapest edge leaving the seen vertices |
| PrimSpanningTree.Offer | PrimSpanningTree.py:242-245 | offering one edge from the extracted vertex to an unseen neighbour lowers that neighbour's key to the edge weight when smaller, keeping every key the minimum over the edges offered so far |
| PrimSpanningTree.OfferEdges | PrimSpanningTree.py:241-245 | after offering every edge of the extracted vertex, each key in the heap is the cheapest edge from the seen vertices, the extracted one included |
| PrimSpanningTree.Round | PrimSpanningTree.py:235-245 | one extraction either hits a vertex with no entry (KeyError) or shrinks the heap, keeps every key the cheapest edge from the seen vertices, and adds the extracted key as one more Prim step |
| PrimSpanningTree.HeapPrim | PrimSpanningTree.py:223-247 | minSpanningTreeHeap fails with a KeyError only for a vertex with no entry; an inf total shows the graph is not connected; a finite total is that of a complete run of Prim's algorithm from start |
| PrimSpanningTree.MinSpanningTree.constructor | PrimSpanningTree.py:159-177 | the graph built from the file describes its edge lines, undirected on the vertices 1..vertexCount |
| PrimSpanningTree.MinSpanningTree.MinSpanningTree | PrimSpanningTree.py:184-219 | as SlowPrim, on the object's graph |
| PrimSpanningTree.MinSpanningTree.MinSpanningTreeHeap | PrimSpanningTree.py:223-247 | as HeapPrim, on the object's graph |
| PrimSpanningTree.MinSpanningTree.Answers | PrimSpanningTree.py:250-254 | on a connected graph where every vertex has an edge, both versions succeed with the same cost |
| PrimQueue.InQueue | PrimSpanningTree.py:234-245 | while the heap keeps its invariant, every unseen vertex sits in it at its recorded position with the cheapest edge weight from the seen vertices as its key |
| PrimQueue.InitialHeap | PrimSpanningTree.py:32-52 | the initial heap is ordered, its positions are right, and it holds every vertex with key inf |
| PrimQueue.Begin | PrimSpanningTree.py:232 | after update(start, 0) the heap holds every vertex, start with key 0 and the others inf |
| PrimQueue.ExtractedLeast | PrimSpanningTree.py:235 | extractMin returns an unseen vertex whose key, the cheapest edge into it from the seen vertices, is no larger than any other unseen vertex's |
| PrimQueue.ExtractedMid | PrimSpanningTree.py:235-241 | after extractMin the remaining entries are the unseen vertices other than the extracted one, with keys still counting only the earlier seen vertices |
| PrimQueue.MidKeys | PrimSpanningTree.py:235 | removing the extracted entry leaves the other entries' keys, now read as the minimum of the old cut minimum and no edge from the extracted vertex yet |
| PrimQueue.MidCovers | PrimSpanningTree.py:235 | every unseen vertex other than the extracted one is still in the heap |
| PrimQueue.OfferedSeen | PrimSpanningTree.py:242-243 | an edge to a vertex already seen changes nothing |
| PrimQueue.OfferedUnseen | PrimSpanningTree.py:242-245 | update(v2, weight) on an unseen neighbour keeps every key the minimum over the cut and the edges offered so far |
| PrimQueue.UpdatedKeys | PrimSpanningTree.py:244-245 | the entries after an update carry keys that take the newly offered edge into account |
| PrimQueue.Offered | PrimSpanningTree.py:241-245 | once all edges of the extracted vertex are offered, the heap holds every vertex not yet seen, keyed by the cheapest edge from the grown seen set |
| PrimQueue.Accounted | PrimSpanningTree.py:236-239 | adding the extracted key to mstCount adds a cheapest crossing edge to the run of Prim's algorithm, or, when the key is inf, shows that a cut has no crossing edge |
| PrimQueue.Emptied | PrimSpanningTree.py:234 | when the heap is empty every vertex 1..n has been seen |
| SpanningTrees.CostSame | PrimSpanningTree.py:217 | two trees that hang the vertices 1..k by the same edges cost the same |
| SpanningTrees.CostPoint | PrimSpanningTree.py:217 | two trees that differ only in the edge hanging one vertex differ in cost by exactly that edge |
| SpanningTrees.CostZero | PrimSpanningTree.py:217 | a tree that hangs no vertex costs nothing |
| SpanningTrees.Exchange | PrimSpanningTree.py:203-217 | exchange argument: if the cheapest edge leaving the seen set reaches a, a spanning tree can be re-hung so that a joins the seen set and its cost drops by at least that edge's weight |
| SpanningTrees.Reduced | PrimSpanningTree.py:197-217 | after the steps of Prim's algorithm, any tree hung from the start leaves a tree hung from the seen vertices that is lighter by at least the steps' total |
| SpanningTrees.Optimal | PrimSpanningTree.py:197-217 | the total of a complete run of Prim's algorithm is no larger than the cost of any spanning tree: the result is a minimum spanning tree cost |
| SpanningTrees.RunTree | PrimSpanningTree.py:197-217 | the steps of a run form a tree on the seen vertices whose cost is exactly their total |
| SpanningTrees.SameTotal | PrimSpanningTree.py:250-254 | any two complete runs of Prim's algorithm from the same start have the same total, whichever cheapest edges they choose on ties |
| SpanningTrees.CrossMinLe | PrimSpanningTree.py:241-245 | the heap key of v, the cheapest edge into v from the seen set, is no larger than any such edge |
| SpanningTrees.CrossMinAttained | PrimSpanningTree.py:241-245 | a finite heap key is the weight of some edge from the seen set into v |
| SpanningTrees.CrossMinAdd | PrimSpanningTree.py:241-245 | adding x to the seen set makes the key of v the smaller of the old key and the edge from x |
| SpanningTrees.CrossMinSame | PrimSpanningTree.py:241-245 | the key depends only on which vertices 1..n are seen |
| SpanningTrees.CrossMinEmpty | PrimSpanningTree.py:47-52 | with nothing seen every key is inf |
| QuickSortCount.QuickSort.constructor | quickSort.py:14-24 | the array holds the numbers read, in file order, and no comparison is counted yet |
| QuickSortCount.QuickSort.Swap | quickSort.py:74-77 | arr[i] and arr[j] are exchanged and nothing else changes |
| QuickSortCount.QuickSort.GetMedian | quickSort.py:79-98 | the index returned is one of x, y and z, and its value is the median of the three values |
| QuickSortCount.QuickSort.MedianToFront | quickSort.py:55-57 | the pivot is the median of the first, middle and last entries of the range, and it is moved to the front by exchanging it with the first entry, as MedianAt picks it |
| QuickSortCount.QuickSort.SweepStep | quickSort.py:63-65 | an entry below the pivot is exchanged into the front part and i advances; any other entry stays and i does not; the rest of the sweep from the new state ends where SweepFrom from the old one does |
| QuickSortCount.QuickSort.SweepAll | quickSort.py:60-65 | after the loop over (l, r) every entry in (l, i) is below the pivot and every entry in [i, r) is not, the range holds the same values, and the range and i are those SweepFrom gives |
| QuickSortCount.QuickSort.Partition | quickSort.py:55-68 | the pivot, the median of three, ends at i - 1 with every entry before it in the range smaller and every entry after it not smaller; the range holds the same values and the rest of arr is untouched; the range and the pivot position are those PartitionOf gives for its old contents |
| QuickSortCount.QuickSort.Sort | quickSort.py:26-71 | quickSort(l, r) leaves arr[l:r] sorted and a permutation of its old values, the rest of arr untouched; the count grows by exactly Comparisons of the range's old contents |
| QuickSortCount.QuickSort.SortSides | quickSort.py:70-71 | the two recursive calls around the pivot leave the whole range sorted, and the count grows by exactly Comparisons of each side's old contents |
| QuickSortCount.QuickSort.PlacePivot | quickSort.py:68 | the final exchange puts the pivot at i - 1 between the smaller and the not-smaller parts, keeps the range's values, and completes PartitionOf of the range's contents |
| QuickSortRanges.SwappedMultiset | quickSort.py:74-77 | an exchange keeps the values |
| QuickSortRanges.SwapRearranged | quickSort.py:64 | an exchange inside [l, r) keeps arr a rearrangement of its start within [l, r) |
| QuickSortRanges.RearrangedRange | quickSort.py:26-71 | a rearrangement within [l, r) keeps the values of [l, r) |
| QuickSortRanges.RearrangedTrans | quickSort.py:70-71 | rearranging a subrange and then the range is one rearrangement of the range |
| QuickSortRanges.WorstSplit | quickSort.py:29-31 | splitting a range of m = a + b + 1 around a pivot never costs more than the worst case m(m-1)/2 |
| QuickSortRanges.MedianAt | quickSort.py:55 | the index getMedian picks in a range: within it, holding the median of the first, middle and last entries |
| QuickSortRanges.SweepFrom | quickSort.py:60-65 | the sweep from i, j keeps the range's length and ends with i between its start and the range's end |
| QuickSortRanges.PartitionOf | quickSort.py:55-68 | the partition step keeps the range's length and leaves the pivot at a position inside it |
| QuickSortRanges.Sides | quickSort.py:70-71 | the two sides left around the pivot hold one entry fewer than the range |
| QuickSortRanges.WorstStep | quickSort.py:29-31 | a range of m entries whose two sides, of a + b = m - 1 entries, cost within their worst cases costs within the worst case for m |
| QuickSortRanges.ComparisonsBounds | quickSort.py:29-31 | a range of m > 1 entries costs at least the m - 1 comparisons of its own call, and no range costs more than m(m-1)/2 |
| QuickSortRanges.ComparisonsSplit | quickSort.py:29-71 | the count of a range of two entries or more is its own m - 1 plus the counts of the two sides |
| QuickSortRanges.CountSplit | quickSort.py:29-71 | after the partition of [l, r), the count of the range's old contents is r - l - 1 plus the counts of what then lies at [l, i - 1) and [i, r) |
| QuickSortRanges.PartitionSteps | quickSort.py:55-68 | the median moved to the front, the sweep and the final exchange make up PartitionOf |
| QuickSortRanges.PartitionEnd | quickSort.py:68 | the final exchange, on the range [l, r) of the whole array, completes PartitionOf of the range's original contents |
| QuickSortRanges.SweepFromSwap | quickSort.py:63-65 | an entry below the pivot exchanged into the front part is one step of SweepFrom on the range |
| QuickSortRanges.SweepFromKeep | quickSort.py:63 | an entry not below the pivot is one step of SweepFrom on the range |
| QuickSortRanges.SwapSlice | quickSort.py:74-77 | an exchange inside [l, r) is the same exchange on the range's entries |
| QuickSortRanges.LowerBoundKept | quickSort.py:70-71 | sorting a part keeps every value not below the pivot |
| QuickSortRanges.UpperBoundKept | quickSort.py:70-71 | sorting a part keeps every value below the pivot |
| QuickSortRanges.SortedAround | quickSort.py:68-71 | a sorted part below the pivot, the pivot and a sorted part not below it form a sorted range |
| QuickSortRanges.RangeSplit | quickSort.py:68 | the values of a range split at the pivot position |
| QuickSortRanges.SweepStart | quickSort.py:57-60 | after the median is moved to the front the partition loop's invariant holds with i = j = l + 1 |
| QuickSortRanges.SweepSwap | quickSort.py:63-65 | an entry below the pivot exchanged into the front part keeps the loop invariant with i and j both advanced |
| QuickSortRanges.SweepKeep | quickSort.py:62-63 | an entry not below the pivot keeps the loop invariant with only j advanced |
| QuickSortRanges.SweepEnd | quickSort.py:68 | the final exchange puts the pivot at i - 1 between the smaller and the not-smaller parts |
| QuickSortRanges.SortedShort | quickSort.py:28-29 | a range of length at most one is already sorted |
| QuickSortRanges.SortStep | quickSort.py:68-71 | a partition followed by sorting the two sides sorts the whole range in place |
| StronglyConnected.SCC.constructor | scc.py:34-35 | a new SCC object has no nodes and no edges |
| StronglyConnected.SCC.AddEdge | scc.py:42-58 | one edge line creates the nodes u and v when new, in that order, adds v to u's forward set and u to v's reverse set, and changes no other set |
| StronglyConnected.SCC.Loop1 | scc.py:60-94 | loop1 lists every node exactly once, in an order in which a node reached from order[i] in the reversed graph, but not reaching it back, reaches a later node: the finishing order of a depth-first search |
| StronglyConnected.SCC.FinishFrom | scc.py:70-93 | one search of loop1 from an unseen node keeps the depth-first-search invariant with an empty stack, and marks the node seen |
| StronglyConnected.SCC.FinishStep | scc.py:77-93 | one turn pushes back the top with its first unseen reverse neighbour, or appends the top to the order when it has none; the search invariant holds and fewer nodes stay unseen or the stack shrinks |
| StronglyConnected.SCC.Loop2 | scc.py:96-117 | loop2 takes leaders from the back of the order, each counted with the nodes it reaches that no earlier leader reached; the counts add up to the number of nodes, and on a finishing order they are the sizes of the strongly connected components |
| StronglyConnected.SCC.Claim | scc.py:105-116 | a search of loop2 from a new leader marks seen exactly the nodes it reaches that were not seen, and counts them, the leader included |
| StronglyConnected.SCC.PushUnseen | scc.py:111-116 | the inner loop marks seen, pushes and counts every successor of current not yet seen, each reached from the leader |
| StronglyConnected.SCC.Components | scc.py:119-122 | the two passes give one count per strongly connected component: its leader maps to its size, no two leaders share a component, and every node lies in one |
| Kosaraju.ReachesPrepend | scc.py:111-114 | an edge in front of a path is a path |
| Kosaraju.PathBackwards | scc.py:57-58 | a path of the forward graph, walked backwards, is a path of the reversed graph |
| Kosaraju.ReachesReversed | scc.py:57-58 | u reaches v in the forward graph exactly when v reaches u in the reversed graph |
| Kosaraju.ReachSetClosed | scc.py:109-116 | the nodes a search reaches form a set no edge leaves |
| Kosaraju.ReachUnionClosed | scc.py:102-116 | the nodes all the leaders reach form a set no edge leaves |
| Kosaraju.ReachUnionHas | scc.py:102-116 | each leader's nodes are among those the leaders reach together |
| Kosaraju.ReachUnionFirst | scc.py:102-116 | a node the leaders reach is counted by the first leader that reaches it |
| Kosaraju.ClaimIsComponent | scc.py:102-116 | the search from the last node of the finishing order not yet claimed, with everything after it claimed, claims exactly its strongly connected component |
| Kosaraju.ClaimsAreComponents | scc.py:102-116 | each leader of loop2 claims exactly its strongly connected component |
| Kosaraju.CountsAreComponents | scc.py:96-117 | when the leaders reach every node, the counts of loop2 are the component sizes: one per component, each node in one |
| SearchTimes.EdgeSeen | scc.py:79-93 | when a node finishes, each of its successors was discovered before that |
| Finishing.DfsStart | scc.py:61-66 | the empty search satisfies the depth-first-search invariant |
| Finishing.SearchDiscover | scc.py:70-72 | discovering an unseen node, a root or a successor of the top, keeps the invariant and leaves one node fewer unseen |
| Finishing.SearchFinish | scc.py:92-93 | appending the top to the order when it has no unseen successor keeps the invariant |
| Finishing.DfsDiscover | scc.py:82-86 | a discovery keeps the discovery and finishing times consistent |
| Finishing.ShapeDiscover | scc.py:82-86 | a discovery keeps the stack and the order disjoint and timed |
| Finishing.ClockedDiscover | scc.py:82-86 | a discovery keeps every time below the clock |
| Finishing.EdgesSeenDiscover | scc.py:82-86 | a discovery keeps every finished node's successors discovered |
| Finishing.NestedDiscover | scc.py:82-86 | a discovery keeps the nesting of discovery and finishing intervals |
| Finishing.StackNestedDiscover | scc.py:82-86 | a discovery keeps each stack node reaching every node discovered after it |
| Finishing.DfsFinish | scc.py:92-93 | finishing the top once all its successors are discovered keeps the invariant |
| Finishing.ShapeFinish | scc.py:92-93 | finishing moves the top of the stack to the end of the order |
| Finishing.ClockedFinish | scc.py:92-93 | finishing keeps every time below the clock |
| Finishing.EdgesSeenFinish | scc.py:92-93 | finishing a node whose successors are all discovered keeps every edge of a finished node seen |
| Finishing.NestedFinish | scc.py:92-93 | finishing keeps the nesting of discovery and finishing intervals |
| Finishing.StackNestedFinish | scc.py:92-93 | finishing keeps the stack nesting for the nodes below the top |
| Finishing.NestedPath | scc.py:75-93 | along a path into u whose nodes finish no later than u, u reaches every node of the path |
| Finishing.DfsDone | scc.py:60-94 | once every node is finished, the order has the finishing property loop2 needs |
| Finishing.LaterReached | scc.py:60-94 | a node that reaches order[i] without being reached from it reaches a later node of the order |
| Finishing.PathFinished | scc.py:75-93 | every node on a path from a finished node is finished |
| Finishing.FinInjective | scc.py:66 | no two nodes share a finishing time |
| Reachability.ReachesSelf | scc.py:105-107 | every node reaches itself |
| Reachability.PathSnoc | scc.py:111-114 | a path continued by an edge is a path |
| Reachability.ReachesNext | scc.py:111-114 | a node reached, followed by an edge, gives a node reached |
| Reachability.PathReaches | scc.py:111-114 | every node of a path reaches every later node of it |
| Reachability.ClosedStep | scc.py:111-114 | a set no edge leaves holds the successors of its members |
| Reachability.ClosedPath | scc.py:111-114 | a path that starts in a set no edge leaves stays in it |
| Reachability.ClosedReaches | scc.py:111-114 | a set no edge leaves holds everything its members reach |
| Reachability.ReachUnionSnoc | scc.py:103-116 | a new leader adds the nodes it reaches |
| Reachability.SearchClaims | scc.py:109-116 | a finished search from root adds exactly the unseen nodes root reaches, and leaves a seen set no edge leaves |
| Reachability.AddNodes | scc.py:48-54 | a line adds u and v to the node list when new, without repeats |
| Reachability.AddNodeTransposed | scc.py:48-54 | a new node starts with empty forward and reverse sets |
| Reachability.AddArc | scc.py:57-58 | adding an edge makes its ends nodes |
| Reachability.AddArcSucc | scc.py:57 | adding u -> v adds v to the successors of u only |
| Reachability.AddArcClosed | scc.py:57-58 | adding an edge keeps every successor a node |
| Reachability.AddArcReversed | scc.py:57-58 | adding u -> v forward and v -> u in reverse keeps the reverse graph the transpose of the forward graph |
| Reachability.AddEdgeTransposed | scc.py:42-58 | an edge line keeps the node list, the forward sets and the reverse sets consistent |
| Reachability.TransposedKeys | scc.py:79 | a reverse neighbour is a node |
| Reachability.TotalFrame | scc.py:105-116 | the total of the counts depends only on the leaders' entries |
| Reachability.ChosenFromBackSnoc | scc.py:102-105 | the last unclaimed node of the order becomes the next leader |
| Reachability.ClaimSizeSnoc | scc.py:105-116 | a new leader leaves the claim sizes of earlier leaders unchanged |
| Reachability.CountsClaimsSnoc | scc.py:105-116 | a new leader counted with the nodes it newly reaches keeps every count its claim size |
| Reachability.TotalSnoc | scc.py:105-116 | a new leader adds its count to the total |
| Reachability.LedStart | scc.py:97-99 | before the loop, nothing is seen and nothing counted |
| Reachability.LedSkip | scc.py:103 | a node already seen changes nothing |
| Reachability.LedClaim | scc.py:103-116 | an unseen node becomes a leader counted with the nodes it claims |
| Reachability.LedDone | scc.py:102-117 | once the order lists every node, loop2 ends with all nodes seen and the counts add up to the number of nodes |
| SortedSeqs.Insert | medianMaintenance.py:28 | inserting a number makes the sorted sequence one longer |
| SortedSeqs.InsertMultiset | medianMaintenance.py:28 | insertion adds the number to the values and nothing else |
| SortedSeqs.InsertSorted | medianMaintenance.py:28 | insertion keeps the sequence sorted |
| SortedSeqs.InsertAbove | medianMaintenance.py:33 | a bound below the number and below every entry stays below every entry after insertion |
| SortedSeqs.SortedOf | medianMaintenance.py:4-5 | the numbers read, sorted: a sorted permutation of the stream |
| SortedSeqs.InsertBeforeTail | medianMaintenance.py:28-33 | inserting into a split whose upper part starts at or above the number only changes the lower part |
| SortedSeqs.InsertAfterHead | medianMaintenance.py:28-33 | inserting into a split whose lower part lies wholly below the number only changes the upper part |
| SortedSeqs.HeadIsLeast | medianMaintenance.py:38 | the first entry of a sorted sequence is at most any entry of another arrangement of its values: the heap's minimum |
| SortedSeqs.SortedUnique | medianMaintenance.py:4-5 | two sorted sequences with the same values are equal, so the k-th smallest is well defined |
| SortedSeqs.SortedTail | medianMaintenance.py:32 | removing the least value keeps the sequence sorted and removes exactly that value |
| AdjacencyLists.ElemsSnoc | 2SAT.py:22-26 | appending a node to an adjacency list adds it to the list's elements |
| AdjacencyLists.TwoArcs | 2SAT.py:64-68 | there is a graph with exactly the two edges of a clause added |
| AdjacencyLists.ListsMore | 2SAT.py:64-68 | appending v to the list of u and z to the list of w gives the lists of the graph with the edges u -> v and w -> z added, over the same nodes |
| AdjacencyLists.ListsNew | 2SAT.py:53-59 | a new node with an empty list is a node without edges |
| AdjacencyLists.PushTwice | 2SAT.py:64-68 | two appends change exactly the two lists they append to, in that order |
| AdjacencyLists.TwoMoreNarrow | 2SAT.py:53-68 | adding the nodes of a clause first does not change which two edges the clause adds |
| AdjacencyLists.OpenedPushes | 2SAT.py:53-68 | opening both literals and appending twice changes exactly the two lists appended to |
| AdjacencyLists.OpenedEntry | 2SAT.py:53-59 | opening a literal adds it and its negation with empty lists when new, and keeps every other list |
| ImplicationGraph.NegHolds | 2SAT.py:50-51 | a negative literal holds exactly when its variable does not |
| ImplicationGraph.ConsequenceClause | 2SAT.py:61-68 | every edge of the implication graph comes from a clause of which it is one side |
| ImplicationGraph.ConsequencesSnoc | 2SAT.py:61-68 | a new clause (a, b) adds the edges -a -> b and -b -> a and no other |
| ImplicationGraph.ClausesFrame | 2SAT.py:53-59 | new nodes without edges leave the implications as they were |
| ImplicationGraph.LiteralWellformed | 2SAT.py:53-59 | opening a new literal adds the nodes x and -x with empty lists and keeps the graphs consistent |
| ImplicationGraph.TransposedNew | 2SAT.py:53-59 | the nodes x and -x, without edges, keep the reverse lists the transpose of the forward lists |
| ImplicationGraph.FromClausesSnoc | 2SAT.py:64-68 | every edge after a clause comes from the clauses read so far |
| ImplicationGraph.HasClausesSnoc | 2SAT.py:64-68 | the old clauses keep their edges and the new one has its two |
| ImplicationGraph.TransposedMore | 2SAT.py:64-68 | the two edges of a clause, forward and reversed, keep the reverse graph the transpose |
| ImplicationGraph.ClausesArcs | 2SAT.py:61-68 | the graph after a clause has exactly the implications of the clauses read so far |
| ImplicationGraph.ImplicationsWellformed | 2SAT.py:64-68 | appending the edges -a -> b and -b -> a, and their reverses, over existing nodes keeps the graphs consistent |
| ImplicationGraph.OpenLiteral | 2SAT.py:53-59 | opening a literal adds x and -x when new and changes no edge |
| ImplicationGraph.ClauseRead | 2SAT.py:48-68 | a whole clause line leaves the node list, forward and reverse lists consistent, with the two implications of the clause added |
| ImplicationGraph.NegationsOpened | 2SAT.py:53-59 | a literal has a node exactly when its negation has one |
| ImplicationGraph.PathHolds | 2SAT.py:61-62 | under an assignment satisfying the clauses, truth flows along every path of the implication graph |
| ImplicationGraph.ReachesHolds | 2SAT.py:61-62 | a literal reached from a true literal is true |
| ImplicationGraph.ConflictUnsatisfiable | 2SAT.py:119-120 | a literal and its negation that reach each other make the clauses unsatisfiable |
| ImplicationGraph.ChosenHolds | 2SAT.py:118-128 | the chosen assignment makes a literal true exactly when its label is smaller than its negation's |
| ImplicationGraph.LabelsSatisfy | 2SAT.py:118-128 | labels that never grow along an edge and separate every literal of the clauses from its negation give a satisfying assignment |
| TwoSat.PassesApart | 2SAT.py:121-126 | a literal whose variable passes the check has a label different from its negation's |
| TwoSat.NoneMissing | 2SAT.py:125 | when every node is labelled and every literal's negation is a node, the lookup of sccs[-i] never fails |
| TwoSat.ClashUnsatisfiable | 2SAT.py:119-126 | a variable labelled like its negation, with labels that are the strongly connected components, makes the clauses unsatisfiable |
| TwoSat.PassingSatisfiable | 2SAT.py:121-128 | every variable passing, with labels that never grow along an edge, gives a satisfying assignment |
| TwoSat.ReadClause | 2SAT.py:48-68 | a clause line opens each new literal with its negation, then appends -a -> b and -b -> a forward and their reverses, adding exactly those two edges |
| TwoSat.ReadClauses | 2SAT.py:39-68 | reading all the clause lines builds graphs holding exactly the clauses' implications, the reverse graph its transpose |
| TwoSat.ReadLine | 2SAT.py:46-68 | reading line i after the earlier lines keeps the graphs those of the lines read |
| TwoSat.Loop1Search | 2SAT.py:82-88 | the searches of loop1 over every unseen node list each node once, in finishing order |
| TwoSat.Loop1Root | 2SAT.py:83-86 | a search from an unseen node marks it seen and keeps the depth-first-search invariant |
| TwoSat.Loop1Dfs | 2SAT.py:75-80 | dfs searches every unseen successor in turn, then appends the node to the order, keeping the search invariant |
| TwoSat.Loop1Visit | 2SAT.py:76-79 | an unseen successor is marked seen and searched |
| TwoSat.SCC.constructor | 2SAT.py:32-68 | reading the file keeps the number of variables and the clauses, with the graphs built from them |
| TwoSat.SCC.Loop1 | 2SAT.py:71-88 | loop1 lists every node once, in an order in which a node reaching order[i] in the reversed graph, but not reached back, reaches a later node |
| TwoSat.SCC.Loop2 | 2SAT.py:90-116 | loop2 labels every node with the number of its component, the labels never grow along an edge, and on a finishing order two nodes share a label exactly when they reach each other |
| TwoSat.SCC.Loop2Dfs | 2SAT.py:97-104 | dfs marks seen and labels with the component every node it reaches that was not seen |
| TwoSat.SCC.Check2Sat | 2SAT.py:118-128 | check2SAT returns True exactly when every variable 1..n is unlabelled or labelled apart from its negation; False at the first variable sharing its negation's label; a failed lookup when a literal's negation has no label |
| TwoSat.SCC.Solve | 2SAT.py:131-134 | the script never fails a lookup; False means the clauses have no satisfying assignment, and True, for clauses over variables 1..n, means they have one |
| ComponentIds.ReachesTrans | 2SAT.py:97-101 | reaching is transitive |
| ComponentIds.GrownNone | 2SAT.py:97-101 | a search that visits nothing labels nothing |
| ComponentIds.GrownTrans | 2SAT.py:99-101 | two searches one after the other are one search |
| ComponentIds.GrownFinish | 2SAT.py:103-104 | a node whose successors are all seen once its searches are done gets the component's label |
| ComponentIds.LabelledStart | 2SAT.py:91-95 | before the loop nothing is seen and nothing labelled |
| ComponentIds.LabelledSkip | 2SAT.py:110 | a node already seen changes nothing |
| ComponentIds.ClaimSnoc | 2SAT.py:107-113 | the claims of earlier leaders stay as they were when a leader joins |
| ComponentIds.LabelKept | 2SAT.py:104 | a node an earlier leader claimed keeps its label |
| ComponentIds.KeysGrow | 2SAT.py:104 | the labelled nodes grow by exactly the newly claimed ones |
| ComponentIds.ClaimLabelsSnoc | 2SAT.py:110-113 | the new leader's claim is labelled with the new component number |
| ComponentIds.LabelsSnoc | 2SAT.py:110-113 | labels stay those of the claims after a leader joins |
| ComponentIds.LabelledClaim | 2SAT.py:110-113 | an unseen node becomes the next leader and its search labels exactly the nodes it claims |
| ComponentIds.LabelledClaimOf | 2SAT.py:104 | every labelled node lies in the claim whose number is its label |
| ComponentIds.LabelledDone | 2SAT.py:107-116 | at the end every node is labelled by the number of a leader, numbered from 1 |
| ComponentIds.ClaimUpTo | 2SAT.py:107-113 | what the leaders up to the i-th reach is labelled at most i + 1 |
| ComponentIds.LabelsDescend | 2SAT.py:97-104 | labels never grow along an edge |
| ComponentIds.LabelsAreComponents | 2SAT.py:90-116 | with leaders taken from the back of the reversed graph's finishing order, two nodes share a label exactly when each reaches the other |
| TwoSumRange.BisectLeft | 2sumRange.py:44 | bisect_left returns the first position of the sorted list whose entry is not below x: every entry before it is below x, every entry from it on is not |
| TwoSumRange.BisectRight | 2sumRange.py:43 | bisect_right returns the first position whose entry is above x: every entry before it is at most x, every entry from it on is above |
| TwoSumRange.SumsMembers | 2sumRange.py:48-54 | the inner loop over [lo, j) collects exactly the sums of the value at i with a different value at a position in [lo, j) |
| TwoSumRange.SumsNext | 2sumRange.py:48-54 | one more position adds its sum, when the values differ |
| TwoSumRange.VisitStep | 2sumRange.py:38-54 | visiting position i with the two bisection bounds adds exactly the targets in [-T, T] that the value at i makes with a different value |
| TwoSumRange.FoundAll | 2sumRange.py:32-54 | once every position is visited, the targets found are exactly the t in [-T, T] that are sums of two distinct input values, however the input was ordered |
| TwoSumRange.SumOfPositions | 2sumRange.py:32 | a sum of two different values at positions of the sorted list is a sum of two different input values, and conversely |
| TwoSumRange.RangeSize | 2sumRange.py:11 | a set of targets in [lo, hi] has at most hi - lo + 1 members |
| TwoSumRange.AddSum | 2sumRange.py:49-54 | the sum is added to seen and counted exactly when the two values differ and the sum is new; count stays the size of seen |
| TwoSumRange.CollectSums | 2sumRange.py:48-54 | the inner loop adds to seen every sum of the value at i with a different value between the bounds, and count stays the size of seen |
| TwoSumRange.Run | 2sumRange.py:22-55 | twoSumRange returns the number of targets t in [-T, T] such that distinct input values x, y have x + y = t, which is at most 2T + 1 |
| DisjointSets.AboveShrinks | kClustersHammingDistance.py:42-43 | a node of higher rank has strictly fewer nodes ranked above it, the measure under which the walk to the root ends |
| DisjointSets.Root | kClustersHammingDistance.py:41-43 | the walk along _id from x ends at a node that is its own parent, x itself when x is a root |
| DisjointSets.RankBelowRoot | kClustersHammingDistance.py:68-77 | a node that is not a root has a smaller rank than its root |
| DisjointSets.PathRoot | kClustersHammingDistance.py:47-50 | every node on the walk from p has p's root |
| DisjointSets.PathStep | kClustersHammingDistance.py:47-50 | the walk from p passes through the parent of every non-root node it passes |
| DisjointSets.CompressRanked | kClustersHammingDistance.py:49 | pointing p straight at its root keeps the forest ranked |
| DisjointSets.CompressRoot | kClustersHammingDistance.py:49 | pointing p straight at its root changes no node's root |
| DisjointSets.CompressRoots | kClustersHammingDistance.py:49 | path compression keeps the forest ranked, changes no node's root and keeps the set of roots |
| DisjointSets.LinkRoot | kClustersHammingDistance.py:71-77 | after linking root i under root j, the nodes whose root was i have root j and all others keep theirs |
| DisjointSets.LinkRanked | kClustersHammingDistance.py:71-77 | linking i under j keeps the forest ranked when the new rank of j exceeds that of i |
| DisjointSets.LinkRemovesRoot | kClustersHammingDistance.py:71-80 | linking two roots removes exactly one root, so the cluster count drops by one |
| DisjointSets.AllRoots | kClustersHammingDistance.py:33 | initially every one of the nodes is a root |
| UnionFind.UnionFind.constructor | kClustersHammingDistance.py:31-37 | nodes 0..N each their own parent with rank 0, and count N |
| UnionFind.UnionFind.Count | kClustersHammingDistance.py:54-55 | count is one less than the number of roots: UnionFind(N) has one node more than the caller uses, and that spare node is always a root: node 0 in maxSpacingKClustering.py, whose nodes are 1..N, and node N in kClustersHammingDistance.py, whose nodes are the 0-based indices 0..N-1 |
| UnionFind.UnionFind.Find | kClustersHammingDistance.py:39-52 | returns the root of p; no node's root, rank or the count changes, and nodes off the walk keep their parents |
| UnionFind.UnionFind.FindRoot | kClustersHammingDistance.py:41-43 | the first loop ends at p's root, on p's walk |
| UnionFind.UnionFind.Compress | kClustersHammingDistance.py:47-50 | the second loop points every node of the walk at the root and changes no node's root |
| UnionFind.UnionFind.Connected | kClustersHammingDistance.py:57-58 | true exactly when p and q have the same root |
| UnionFind.UnionFind.Union | kClustersHammingDistance.py:60-80 | afterwards p and q share a root; the trees of p and q are merged and no other node's root changes; the count drops by one exactly when their roots differed |
| UnionFind.UnionFind.LinkRoots | kClustersHammingDistance.py:71-80 | the rank rule: lower rank under higher, q's root under p's on a tie with p's rank raised; one root fewer |
| UnionFind.LinkAll | kClustersHammingDistance.py:71-80 | linking root i under root j moves i's tree to j and leaves one root fewer |
| UnionFind.CompressStep | kClustersHammingDistance.py:47-50 | one rewiring step of the compression loop keeps every root and the loop's invariant |
| UnionFind.CompressDone | kClustersHammingDistance.py:47-50 | when the loop reaches the root, every node of the walk points at the root |
| UnionFind.PathRank | kClustersHammingDistance.py:42-43 | ranks never decrease along a walk |
| UnionFind.PathTrans | kClustersHammingDistance.py:42-43 | walks compose |
| Classes.RootLabels | kClustersHammingDistance.py:41-43 | labelling each node by its root gives exactly the classes of the forest |
| Classes.UnionRelabels | kClustersHammingDistance.py:60-80 | union(p, q) merges the classes of p and q exactly as relabelling p's class with q's label does |
| LabelledUnion.UnionOfClasses | kClustersHammingDistance.py:60-80 | after union the classes are the old ones with p's class merged into q's, and count drops exactly when the two labels differed |
| WeightedCompletion.Sort | weightedCompletionTimes.py:19 | sorted(..., reverse=True) as a stable insertion sort: the result is a permutation of the jobs |
| WeightedCompletion.SortSorted | weightedCompletionTimes.py:19 | for a total precedence relation, every adjacent pair of the sort's result is in order |
| WeightedCompletion.OrderByDifference | weightedCompletionTimes.py:15-19 | a permutation of the jobs with neighbours non-increasing in the key (w - l, w) |
| WeightedCompletion.OrderByRatio | weightedCompletionTimes.py:21-24 | with positive lengths, a permutation of the jobs non-increasing in w/l between neighbours and between any two positions |
| WeightedCompletion.RatioSortedGlobally | weightedCompletionTimes.py:24 | order in w/l between neighbours extends to any two positions |
| WeightedCompletion.WeightedSumSnoc | weightedCompletionTimes.py:32-36 | appending a job adds its weight times its completion time, the total length so far |
| WeightedCompletion.AdjacentSwap | weightedCompletionTimes.py:26-38 | swapping two adjacent jobs changes the weighted sum by exactly w1*l2 - w2*l1 |
| WeightedCompletion.WeightSumSwap | weightedCompletionTimes.py:26-38 | an adjacent swap keeps the total weight |
| WeightedCompletion.RatioOrderLocallyOptimal | weightedCompletionTimes.py:21-30 | no adjacent swap of a schedule ordered by w/l lowers its weighted sum of completion times |
| WeightedCompletion.ScheduleStep | weightedCompletionTimes.py:32-36 | one loop step: the completion time grows by the job's length and the sum by weight times the new completion time |
| WeightedCompletion.MinWeightedSum | weightedCompletionTimes.py:26-38 | the result is the weighted sum of completion times of the orderByRatio schedule |

## Left out

- **Reading the data files.** Every constructor or builder that opens and splits a text file
  (`__init__`, `buildGraph`, `setNodes`, `buildArray`) takes the parsed numbers, edges or lines
  as parameters. The graph constructors are modelled from that point on.
- **Drivers.** The module-level driver lines, their `print` output and the `time.time()`
  timing are not modelled. Where a method prints its answer, the model returns that answer.
- **travellingSalesman.py and travellingSalesmanHeuristics.py.** They are not part of this
  model: their costs are `math.sqrt` floating-point distances.
- **kargerMinimumCuts.py.** It is not part of this model: it is randomised, and its answer is
  a probability over repeated trials.
- **twoSumRangeSlow** (2sumRange.py:58-79). It reads a file handle `f` that the function never
  defines, so it cannot run. It is not modelled.
- **Commented-out pivot rules of quickSort.py.** The first-element and last-element rules
  (quickSort.py:33-47) are comments. Only the live median-of-three rule is modelled.
- **The random start vertex of Prim** (PrimSpanningTree.py:179-180). The start vertex is a
  parameter, between 1 and vertexCount. With no vertex at all, `randrange` raises; the model
  requires the start vertex to be in range instead.
- PrimSpanningTree.MinSpanningTree.Answers: it runs both versions from the same start vertex.
  The program draws one start vertex per call. The model does not prove that the cost of the
  tree is independent of where it starts.
- **`heapq` internals.** The two heaps of medianMaintenance.py are sorted sequences of their
  contents. The driver line scc.py:124, `heapq.nlargest(5, ...)`, is not modelled. The model
  returns the whole dictionary of component sizes.
- **The order of iteration over sets and dictionaries** in scc.py and 2SAT.py. The model picks
  any unvisited node, and every property is stated independently of that order.
- **Python's recursion limit** (knapsackProblem.py:21-24) and its stack depth are not
  modelled. Recursion is unbounded.
- **Floating point.** `float("inf")` and `float("-inf")` are the extended integers of
  `ExtInt`. The ratio w/l of weightedCompletionTimes.py:21-24 is compared exactly, by cross
  multiplication.
- WeightedCompletion.OrderByRatio: requires every length to be positive. With a length of 0
  the program divides by zero; this case is not modelled.
- WeightedCompletion.MinWeightedSum: requires every length to be positive, because it orders
  the jobs with OrderByRatio. A length of 0 is not modelled, for the same reason.
- **The characters of merged Huffman nodes.** A merged TreeNode concatenates its children's
  characters (huffmanCode.py:109), but nothing reads them. They are left out of
  `HuffmanTrees.TreeNode`.
- HuffmanCode.SortByFreq: Python's stable sort by frequency is modelled as a sort by
  frequency, then symbol. The two agree because the symbols are numbered in input order.
- HuffmanCode.Huffman: the model proves that the code is a prefix code and that the code
  lengths follow the weights. It does not prove that the code is optimal among all prefix
  codes.
- Knapsack.KnapsackTable: requires the item weights to be positive, as the exercise states.
  Weights of 0 or less are not modelled. A negative weight can make the program index past
  the end of a row.
- Knapsack.KnapsackLessSpace: requires the item weights to be positive, for the reason given
  for KnapsackTable. A negative weight makes the program index past the end of `dp`.
- Knapsack.KnapsackRecursive: requires the item weights to be positive, which the exercise
  states (knapsackProblem.py:16). The proofs that its answer equals the table's and is
  optimal use this. Weights of 0 or less are not modelled.
- Knapsack.Helper: requires the item weights to be positive, for the reason given for
  KnapsackRecursive, which calls it.
- DijkstraMinHeap.Run: requires every edge weight to be non-negative. The search relies on
  this (dijkstra-minHeap.py:211-213): a vertex that delMin has removed is never improved
  again. With a negative edge into such a vertex, `changeDistance` follows that vertex's
  stale position in `pos` and overwrites the key of whatever entry now sits there. The
  model does not capture that corruption of the heap.
- DijkstraMinHeap.Solution.ShortestPath: requires every edge weight to be non-negative, for
  the reason given for DijkstraMinHeap.Run, which it calls.
- **The printed form of paths.** `getPath` (allPairsShortestPath_BellmanFord.py:100-111,
  allPairsShortestPath_Johnson.py:327-338) builds a string of vertex numbers joined by
  `" -> "`. The model returns the sequence of vertices instead (`AllPairsBellmanFord.PathWalk`,
  `JohnsonDijkstra.PathFound`). The conversion to text is not modelled.
- **Object graphs.** The TreeNode and Vertex objects are modelled as values or as maps from
  vertex to neighbour dictionary. The model does not capture aliasing between those objects.

## Findings

| source | as written | input that shows it | evidently intended | confidence | as-written member | corrected member |
|---|---|---|---|---|---|---|
| allPairsShortestPath_Johnson.py:256-257 | bellman_ford stops after at most vertexCount - 1 passes. The graph it runs on has vertexCount + 1 vertices: vertex 0 is added with an edge of length 0 to every vertex. | vertexCount 1 and no edge: no pass is made, and the check then finds the edge 0 -> 1 still relaxing, so the exception "negative weight cycle" is raised on a graph without one | one pass for each vertex but the source, vertexCount in all, so that the exception is raised exactly when a negative closed walk is reachable | not executed | JohnsonBellmanFord.TooFewPasses | JohnsonBellmanFord.BellmanFordFixed |
| dijkstra-minHeap.py:84-89 | insert appends the entry and sifts it up, but never records the vertex in the position map `pos` | inserting vertex 7 with key 5 into an empty heap leaves 7 without a position, so a later changeDistance(7, ...) fails | insert records the position of every vertex it moves, like initInsert and percUp do | not executed | DijkstraMinHeap.InsertAsWrittenLosesPosition | IndexedHeap.InsertSpec |
| PrimSpanningTree.py:64-70 | insert sets the position of the new vertex to the last index after percUp has already moved it | inserting vertex 2 with key 3 into the heap holding vertex 1 with key 5: 2 moves to the root but is recorded at index 2 | the position is recorded before percUp, which then keeps it up to date | not executed | PrimQueue.InsertAsWrittenMisplaces | IndexedHeap.InsertSpec |
| huffmanCode.py:63-66 | "min length" is the code length of the first symbol of greatest weight. The stable sort puts that symbol before the others of the same weight, so it may be merged earlier and sit deeper. | weights 1, 1, 1: symbol 1 has a code of length 2, while symbol 3 has a code of length 1, and 2 is reported | the shortest code length, that of the last symbol of greatest weight | not executed | HuffmanCode.MinLengthMisreported | HuffmanCode.HuffmanFixed |
