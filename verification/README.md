# Image Foresting Transform delineation, modelled in Dafny

This project models the IFT (Image Foresting Transform) relaxation loop of
`tarefa2/iftSegmentObject.c`. The file uses it in three routines:

- `iftConnectInternalSeeds` grows an optimum-path forest from the first
  foreground seed, with the node-weighted cost `Omax - O(q)`. It then walks
  back from every foreground seed to the root and adds each node on the way
  to the seed set, with label 1.
- `iftDelineateObjectByWatershed` is a bottleneck (max-path) watershed. Its
  arc weight is `sqrtf(W(p)^2 - W(q)^2)` and its queue is keyed by the
  weight image `W`.
- `iftDelineateObjectRegion` is a bottleneck IFT. Its arc weight is
  `K * (alpha * |O(p) - O(q)| + (1 - alpha) * D(p, q))` and its queue is
  keyed by the path values.

The model has six modules:

- `Wrappers` (`wrappers.dfy`): the general-purpose `Option` and `Result`
  types.
- `Lattice` (`lattice.dfy`): the voxel domain, raster index and coordinate
  conversion, `iftCircular(1.0)` / `iftSpheric(1.0)`, and the proof that
  the 6-neighbourhood connects every lattice. The 4-neighbourhood connects a
  lattice only when it has a single slice (zsize = 1). The watershed and
  region routines use the 4-neighbourhood on 3-D images too (lines 274 and
  441), and there it leaves the slices unconnected.
- `GQueue` (`gqueue.dfy`): the priority queue as the sequence of GRAY nodes
  in insertion order. Remove-min picks the first node of least key, which is
  FIFO among equal keys. Element removal keeps the order of the others.
- `PathCost` (`pathcost.dfy`): the three path-cost rules, with integer
  costs and `IFT_INFINITY_INT = 2^31 - 1`. The float arc weights enter
  truncated.
- `Forest` (`forest.dfy`): one generic loop, parameterised by the adjacency,
  the rule, the queue key and the seeds. It has an invariant (`Inv`) and
  what the loop leaves behind (`Settled`). It also has the forest
  properties: acyclic predecessor paths, label propagation and bottleneck
  monotonicity.
- `Segment` (`segment.dfy`): the three routines, as instances of the loop,
  plus the seed-connection trace.

Every extraction gets a ghost step number (`order`). Predecessors are
extracted at earlier steps, so the predecessor map cannot have a cycle, and
`Chain` (the path back to the root) is a well-defined function.

## Model

| member | source | states |
|---|---|---|
| Forest.Ift | tarefa2/iftSegmentObject.c:276-323 | At the end the queue is empty and no node is GRAY. Extracted nodes have distinct steps below N, so there are at most N extractions. Unreached nodes keep cost infinity, pred 0 and label 0. Seeds keep cost 0, pred NIL and their label. Predecessors form a forest rooted at the seeds. Every neighbour whose candidate is finite was extracted. No arc offers a strictly better candidate to a node extracted later. With a cost-keyed max-path queue, extraction order is cost order. |
| Forest.Initialise | tarefa2/iftSegmentObject.c:276-291 | After initialisation and the seed loop, the loop invariant holds with nothing extracted. |
| Forest.InsertSeeds | tarefa2/iftSegmentObject.c:281-291 | Every seed gets cost 0, pred NIL and its own label, and is GRAY. The queue becomes the seed nodes in list order. Every other node is unchanged. |
| Forest.Step | tarefa2/iftSegmentObject.c:295-323 | One pop plus the neighbour loop keeps the invariant and extracts one more node. The invariant covers: the queue holds each GRAY node exactly once; BLACK nodes have distinct steps; the seeds and the unreached nodes are intact; the forest links hold; extracted arcs are optimal; extraction is monotone. |
| Forest.Expand | tarefa2/iftSegmentObject.c:300-322 | After the neighbour loop of the node just popped, every arc out of it has been offered, and the invariant holds again. |
| Forest.ExtractMin | tarefa2/iftSegmentObject.c:297 | The popped node was queued and has the least key of all queued nodes. Every node queued before it has a strictly greater key (FIFO among equals). It turns BLACK, nothing else changes, and it leaves the queue exactly once: the new queue is the old one without that position, in order. |
| Forest.ExtractKeepsInv | tarefa2/iftSegmentObject.c:297 | Popping the minimum and stamping it with the next step keeps the invariant. The popped node's arcs are still to be offered. |
| Forest.Relax | tarefa2/iftSegmentObject.c:312-319 | A candidate strictly below q's cost sets q's cost, pred and label (from p), makes q GRAY and puts q at the back of the queue. The new queue is the old one without q (if q was GRAY), in order, followed by q. Any other candidate leaves the state unchanged. |
| Forest.VisitNeighbour | tarefa2/iftSegmentObject.c:303-308 | Offering a neighbour never changes the cost, pred, label or colour of a BLACK node. |
| Forest.RelaxKeepsInv | tarefa2/iftSegmentObject.c:307-319 | Offering the candidate through arc i of p to a non-BLACK neighbour keeps the invariant, with arc i now covered. |
| Forest.RelaxQueueShape | tarefa2/iftSegmentObject.c:312-318 | An accepted candidate keeps the queue free of duplicates and equal to the set of GRAY nodes. The neighbour is removed before it is reinserted, so it is queued only once. |
| Forest.Chain | tarefa2/iftSegmentObject.c:315 | From an extracted node, following pred stays among extracted nodes and ends at a seed whose pred is NIL. |
| Forest.ChainOrdered | tarefa2/iftSegmentObject.c:315 | Extraction steps strictly decrease along a predecessor path, so the forest has no cycle. |
| Forest.ChainLabel | tarefa2/iftSegmentObject.c:317 | Every node on a predecessor path carries the label of the path's first node. |
| Forest.RootLabel | tarefa2/iftSegmentObject.c:315-317 | An extracted node carries the label of the seed at the root of its path. |
| Forest.LabelsFromSeeds | tarefa2/iftSegmentObject.c:287 | At the end, every node is either BLACK with some seed's label, or WHITE with cost infinity and label 0. |
| Forest.ChainCostsMonotone | tarefa2/iftSegmentObject.c:311 | Under a max-path rule, costs never decrease along a path going away from the root. |
| Forest.CostBound | tarefa2/iftSegmentObject.c:440 | Under a max-path rule where no arc of the adjacency (a node and its in-domain neighbour at index >= 1) weighs more than B, every extracted node's cost lies in [0, B]. The keys then fit B + 1 buckets. |
| Forest.CandidatesBounded | tarefa2/iftSegmentObject.c:440 | Under the same bound on the adjacency arcs, every candidate offered along an arc out of an extracted node lies in [0, B]. The queue's keys then fit B + 1 buckets. |
| Forest.ObjectPathReachedOnce | tarefa2/iftSegmentObject.c:219-225 | In seed connection, relaxing an already reached node changes nothing, so each node's cost is set at most once. |
| PathCost.Extend | tarefa2/iftSegmentObject.c:311 | A max-path candidate is never below the cost at p. A candidate from a non-negative cost is non-negative, so no candidate undercuts a seed's cost 0. |
| PathCost.BottleneckForm | tarefa2/iftSegmentObject.c:487 | A max-path candidate equals max(arc weight, cost at p). |
| PathCost.ObjectPathBounds | tarefa2/iftSegmentObject.c:219 | The seed-connection candidate does not depend on p. For an object map with values in [0, Omax], it lies in [0, Omax]. |
| PathCost.FloorSqrt | tarefa2/iftSegmentObject.c:309 | The result is the largest r with r * r <= n. |
| PathCost.FloorSqrtCompare | tarefa2/iftSegmentObject.c:309-312 | The truncated square root is below an integer cost c exactly when n < c * c, which is exactly when the real square root is below c. |
| PathCost.TruncatedComparison | tarefa2/iftSegmentObject.c:487-492 | A real candidate is below an integer cost exactly when its truncation is. Storing `tmp` in the int image therefore accepts the same candidates. |
| PathCost.ArcWeight | tarefa2/iftSegmentObject.c:309-311 | The integer arc weight of a max-path rule. In the watershed it is the floor square root of `W(p)^2 - W(q)^2` when that is non-negative. Otherwise it is 0, because `sqrtf` of a negative gives NaN and `NaN > cost` is false. In the region routine it is the truncation of the blended `dpq` of lines 483-484. |
| PathCost.BlendedArc | tarefa2/iftSegmentObject.c:477-484 | The blended arc weight is non-negative. |
| GQueue.FirstMin | tarefa2/iftSegmentObject.c:465 | The chosen position holds a least key, and every earlier position holds a strictly greater key (FIFO among equals). |
| GQueue.RemoveMin | tarefa2/iftSegmentObject.c:465 | The removed node was queued and has the least key. The rest of the queue keeps its order. |
| GQueue.Insert | tarefa2/iftSegmentObject.c:318 | Insertion adds exactly the one node to the queue's contents. |
| GQueue.RemoveInsert | tarefa2/iftSegmentObject.c:318 | The inserted node goes behind every queued node, and the others keep their order. Removing a node that was absent before insertion gives the queue back. |
| GQueue.RemoveElem | tarefa2/iftSegmentObject.c:490 | Exactly the given node leaves the queue. |
| GQueue.RemoveElemAt | tarefa2/iftSegmentObject.c:490 | Removing a node that occurs once leaves the entries before and after it in their order. |
| GQueue.RemoveAtDistinct | tarefa2/iftSegmentObject.c:465 | Popping a position of a duplicate-free queue removes exactly that node and leaves no duplicates. |
| Lattice.VoxelIndex | tarefa2/iftSegmentObject.c:216 | The index of an in-domain voxel lies below the domain size. |
| Lattice.VoxelCoord | tarefa2/iftSegmentObject.c:208 | The voxel of an index lies in the domain, and indexing it gives the index back. |
| Lattice.CoordOfIndex | tarefa2/iftSegmentObject.c:216 | The coordinates of a voxel's index are that voxel, so index and coordinates are mutually inverse. |
| Lattice.Neighbour | tarefa2/iftSegmentObject.c:212-216 | A neighbour exists exactly when the displaced voxel is in the domain, and then it is a valid node. |
| Lattice.ClosedSetCoversLattice | tarefa2/iftSegmentObject.c:167-170 | Under the 6-neighbourhood, and under the 4-neighbourhood on a 2-D image, a node set closed under neighbours that holds one node holds every node. |
| Segment.LabelSet | tarefa2/iftSegmentObject.c:164 | The label set holds exactly the labels some seed carries. |
| Segment.NumberOfLabels | tarefa2/iftSegmentObject.c:164 | The number of distinct labels is at most the number of seeds, and is 0 exactly for an empty seed set. |
| Segment.HasNode | tarefa2/iftSegmentObject.c:242 | A labelled set has an element exactly when the node is one of its entries' nodes. |
| Segment.FirstForeground | tarefa2/iftSegmentObject.c:190-201 | The first seed with a positive label, or none when no seed has one. |
| Segment.MaxValue | tarefa2/iftSegmentObject.c:159 | Omax bounds every object-map value and is attained. |
| Segment.Reverse | tarefa2/iftSegmentObject.c:182-188 | Prepending the seeds one by one lists them in reverse order. |
| Segment.ConnectionAdjacency | tarefa2/iftSegmentObject.c:167-170 | The adjacency chosen for the image connects its lattice. |
| Segment.ConnectionInstance | tarefa2/iftSegmentObject.c:175-201 | The queue is keyed by the path values, the rule is Omax - O(q), and the only root is the first foreground seed (none if there is none). |
| Segment.ConnectInternalSeeds | tarefa2/iftSegmentObject.c:155-254 | Fails exactly when the seeds do not carry two distinct labels. Otherwise the IFT settles, every voxel is reached when there is a foreground seed, and the result is described by `TraceOutput`. `TraceOutput` says: the input pairs come last, in reverse order; before them, label-1 entries for nodes on traced paths, no node twice and no seed node again; every node on each foreground seed's path to the root, the root excluded, is in the result. |
| Segment.AllReached | tarefa2/iftSegmentObject.c:241 | With an object map in [0, IFT_INFINITY_INT) and a foreground root, every voxel is extracted. The trace at line 241 therefore follows real predecessor paths and ends. |
| Segment.TraceSeeds | tarefa2/iftSegmentObject.c:236-249 | The walk from every foreground seed builds a list satisfying `TraceOutput`. |
| Segment.TraceOne | tarefa2/iftSegmentObject.c:240-246 | Walking from one foreground seed to the root adds the path's nodes the list lacks, with label 1. It drops nothing. |
| Segment.TraceStep | tarefa2/iftSegmentObject.c:242-243 | Prepending a path node the list lacks, with label 1, keeps the added entries distinct, off the seed set and on traced paths. |
| Segment.WatershedInstance | tarefa2/iftSegmentObject.c:273-291 | The watershed run uses a max-path rule, a queue keyed by W, and every seed as a root. |
| Segment.RegionInstance | tarefa2/iftSegmentObject.c:440-459 | The region run uses a max-path rule, a queue keyed by the path values, and every seed as a root. |
| Segment.DelineateObjectByWatershed | tarefa2/iftSegmentObject.c:257-333 | The returned label image gives every seed its label. Every other voxel has either some seed's label (reached) or 0 (unreached, cost infinity). The run settles as `Ift` states. |
| Segment.DelineateObjectRegion | tarefa2/iftSegmentObject.c:424-508 | The same label guarantees as the watershed. In addition, nodes leave the queue in non-decreasing cost. When no 4-neighbourhood arc has a blended weight above Omax (`RegionKeysFit`), every key the queue receives along an arc lies in [0, Omax], so it fits the `Omax+1` buckets of line 440. |

## Left out

- `iftDelineateObjectByOrientedWatershed` (lines 335-419) is not modelled. As written, it uses `Di` outside the block that declares it. It indexes the label image pointer instead of its values. Its guard makes the `sqrtf` argument negative.
- `iftMaxArcWeight`, `iftArcWeightImage`, `iftObjectMap`, `iftMyDrawBinaryLabeledSeeds` and `main` are not modelled. They are float feature maps, an external classifier, drawing and I/O.
- `iftFImageToImage`, `iftFMaximumValue` and `iftFeatDistance` are parameters of the model. The watershed takes the integer image `W` as given. The region routine takes the feature distance as an arbitrary non-negative real function.
- Float arithmetic is modelled by reals, and float rounding is not modelled. `sqrtf` is modelled by the integer floor square root. Compared with an integer cost, it accepts the same candidates as the exact square root.
- PathCost.Extend: the watershed candidate matches the program only for weights W <= 4096. Line 309 computes `W(p)*W(p) - W(q)*W(q)` in 32-bit int, which overflows once W > 46340. The difference is also rounded to float before `sqrtf`, and above 2^24 that rounding can change the result. For example, W(p) = 4098 and W(q) = 1 give 16793603, which rounds to 16793604; `sqrtf` then returns 4098 where the floor square root is 4097. The model uses unbounded integers and exact square roots.
- `iftGQueue` is not part of this model. Its bucket array, bucket count and circular indexing are replaced by an ordered sequence of GRAY nodes, with no capacity. FIFO tie-break among equal keys is taken as an assumption. `CostBound`, `CandidatesBounded` and `ObjectPathBounds` state when the keys fit a given number of buckets.
- Segment.DelineateObjectRegion: the program's queue has `Omax+1` buckets (line 440). The blended key `K * (...)` with K = 1.2 can exceed Omax, for example next to an object edge. Under the circular-indexing assumption, such a queue would file such a key under a lower bucket and could pop it out of cost order. In that case the program's extraction order and labels can differ from the model's. The method's last ensures proves that every key offered along an arc fits the buckets when no arc of the 4-neighbourhood has a blended weight above Omax (`RegionKeysFit`). Only under that condition does the model's cost-ordered extraction describe the program.
- Segment.DelineateObjectByWatershed: the program's queue has `Wmax` buckets (line 273), but its keys, the weights W, range over [0, Wmax]. Under circular indexing, a voxel with W = Wmax shares a bucket with W = 0 and can be popped before voxels of smaller weight. Then the program's labels can differ from the model's. For example, with W = [0, 3, 1, 4, 0] on a 5 x 1 lattice and seeds (0, 1), (4, 2), the model labels voxel 2 with 1. Traced by hand, a circular queue would pop voxel 3 before voxel 1 and would give voxel 2 the label 2. The contract states no extraction order and holds either way, but the model computes the labels of a queue without wrap-around.
- Lattice.Circular1 and Lattice.Spheric1: the order of the displacements is assumed, because iftAdjacency is not part of this model. The assumed order is the zero displacement first, then the neighbours in raster order. The order matters. Relax appends improved neighbours to the queue in adjacency order, and the queue breaks ties first in, first out. So among equal candidates the order decides `pred`, and with it the nodes the seed connection adds at lines 241-243. For example, take a 2 x 2 seed connection with a uniform map and root 0. With +x before +y, voxel 3's predecessor is voxel 1; with +y first, it would be voxel 2. No proved property depends on the order.
- `iftNumberOfLabels`, `iftInsertLabeledSet` and `iftLabeledSetHasElement` (in iftLabeledSet.c) are not part of this model. They are taken to count distinct labels, prepend an entry, and test for an entry with the given node.
- Segment.ConnectInternalSeeds: `iftError` ends the process. The model returns `Failure` instead.
- Segment.ConnectInternalSeeds requires object-map values in [0, IFT_INFINITY_INT). The C code does not check this; the object maps built by `main` hold values in [0, Imax]. The proof that every voxel is reached (`AllReached`) needs every candidate `Omax - O(q)` to lie below IFT_INFINITY_INT, so that each candidate beats an unreached voxel's cost. Reaching every voxel is what makes the trace at line 241 follow real predecessor paths: `pred` starts at 0, not NIL (line 174). A non-negative map also keeps every candidate in [0, Omax], inside the `Omax+1` buckets of line 175.
- Segment.ConnectInternalSeeds does not model a label image. The routine writes none, and the label the model carries is ignored there.
- Segment.DelineateObjectByWatershed and Segment.DelineateObjectRegion require seeds with distinct nodes. The C code would queue a repeated seed node twice.
- Segment.DelineateObjectByWatershed states no extraction-order claim. Its queue is keyed by `W`, not by the path values, so the bottleneck cost order does not hold.
- Forest.CostBound assumes, as a hypothesis, a bound on the weights of the adjacency arcs. The region routine does not bound its blended weights by `Omax`.
- The ghost step numbers (`order`) exist only for the proofs. They are not part of the routines' output.
- The seed-connection cost is `Omax - O(q)` of the entered voxel (line 219), not a sum along the path.
- A GRAY node being improved is removed from the queue and reinserted at once (lines 221-225). The model keeps it GRAY throughout.
- The seed connection refuses every seed set whose number of labels is not exactly two (line 164). This includes a set with a single label.
- The CNN demo code under `tarefa1/` and the headers are not modelled. They are float convolution, I/O and declarations without bodies.
