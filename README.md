# Game-development algorithms: dungeon partition, FABRIK, path read-back, skeleton pose

This project models, in Dafny, the algorithmic core of a set of Unity exercises
and assignments on game development:

- **Dungeon generation by binary space partitioning** (`Node`): a cell is
  split recursively along a random axis at a random point between 30% and 70%
  of its extent, as long as both halves stay valid cells: volume at least 800
  and an x:z aspect ratio in [0.2, 5]. A room is then placed in every leaf
  cell. Sibling rooms are connected bottom-up, level by level. The room bounds
  of every inner node grow to enclose its children's rooms. The leaves, or the
  nodes at a given depth, can be listed.
  - `bsp_cells.dfy` holds the box arithmetic.
  - `bsp_tree.dfy` holds the tree as a value and the passes over it.
  - `bsp_node.dfy` holds the mutable `Node` class. Each of its methods is
    proved to update the node's subtree exactly as the matching function of
    `bsp_tree.dfy` does.
- **FABRIK inverse kinematics** (`fabrik.dfy`): the chain's link lengths are
  measured once. The solver then works in one of two regimes:
  - when the target is out of reach, the chain is stretched toward it;
  - otherwise it runs `maxIterations` rounds. Each round is a pass from the
    end to the root followed by a pass from the root to the end, with an
    optional cone limit on the joints. After the rounds, every joint but the
    last is oriented along its link.

  The solver is a class over arrays of joint positions and rotations. Each
  loop is proved against a function on sequences.
- **Path read-back after a graph search** (`pathfinding.dfy`): the search's
  "came from" map is followed from the goal back to the start and the list is
  reversed. The result is proved to be the start-to-goal path through the map.
- **Skeleton pose** (`skeleton.dfy`): the model-space matrix of every joint
  is computed by walking up the joint hierarchy. The result is proved to be
  the product of the local matrices along the joint's ancestor chain.
- **3x3 matrices** (`matrix3x3.dfy`): the column constructor, the
  matrix-vector and matrix-matrix products, and the z rotation. The proofs
  cover associativity, identity, composition of rotations and length
  preservation.
- **Graph edges** (`edge.dfy`): the validity test of an edge.

Single-precision floats are modelled as reals. Every random draw of the
generator is a real `u` in [0, 1], and `Random.Range(a, b)` is
`a + u (b - a)`. The recursive passes read their draws from a stream
`rand: nat -> real` starting at an index, and return the index after their
last draw.

## Model

| member | source | states |
|---|---|---|
| BspCells.ValidCellCharacterized | Assets/Assignments/Assignment3/Node.cs:53-64 | a cell is valid iff its volume is at least 800 and 0.2·abs(z) <= abs(x) <= 5·abs(z); a valid cell has non-zero x and z sizes, so the ratio is never a division by zero |
| Vectors.With | Assets/Assignments/Assignment3/Node.cs:102 | assigning coordinate i sets that coordinate and keeps the other two |
| BspCells.RatioTest | Assets/Assignments/Assignment3/Node.cs:59-61 | for z != 0, abs(x / z) lies in [0.2, 5] iff 0.2·abs(z) <= abs(x) <= 5·abs(z) |
| BspCells.TrySplit | Assets/Assignments/Assignment3/Node.cs:91-134 | the split succeeds iff both halves at the drawn point on the drawn axis are valid; it then returns exactly the two halves of the cell at that point, both valid |
| BspCells.HalvesPartition | Assets/Assignments/Assignment3/Node.cs:102-120 | the halves meet at the split point and keep the parent's other coordinates; a point lies in the parent iff it lies in one of the halves |
| BspCells.SplitPointRange | Assets/Assignments/Assignment3/Node.cs:98-101 | with a draw in [0, 1], each half spans 30% to 70% of the parent along the split axis |
| BspCells.RangeDrawBetween | Assets/Assignments/Assignment3/Node.cs:101 | Random.Range(a, b) with a draw in [0, 1] lies between a and b |
| BspCells.VolumesAdd | Assets/Assignments/Assignment3/Node.cs:102-120 | the two halves' volumes add up to the parent's volume |
| BspCells.RoomInFacts | Assets/Assignments/Assignment3/Node.cs:153-174 | in a cell at least 6 wide on x and z, the room is a non-empty ordered box inside the cell; it spans the cell's height, is wider than half the cell on x, and lies strictly around the cell's centre on x and z |
| BspCells.RoomDepthCanBeTwo | Assets/Assignments/Assignment3/Node.cs:159-172 | the room's max z omits the z offset, so with the smallest z size and the largest offset the room is 2 units deep whatever the cell's depth |
| BspCells.Encapsulate | Assets/Assignments/Assignment3/Node.cs:318-326 | the grown box encloses both the original box and the added one |
| BspCells.EncapsulateLeast | Assets/Assignments/Assignment3/Node.cs:318-326 | any box that encloses both boxes encloses the grown box (it is the smallest) |
| BspCells.Absorb | Assets/Assignments/Assignment3/Node.cs:313-319 | one step of the room update: the result encloses the child's room, and also the old room unless that was the empty box |
| BspCells.AbsorbOrdered | Assets/Assignments/Assignment3/Node.cs:313-319 | absorbing an ordered room into an empty or ordered room keeps it ordered, and non-empty when the absorbed room is non-empty |
| BspCells.AbsorbBoth | Assets/Assignments/Assignment3/Node.cs:311-328 | after absorbing child A's and then child B's room, the room encloses B's, and A's unless A's fits in the empty box |
| BspCells.HallwayPosition | Assets/Assignments/Assignment3/Node.cs:240-264 | a hallway coordinate exists iff the two rooms' ranges across the split overlap; with a draw in [0, 1] it lies in both ranges |
| BspTree.ChildMeasure | Assets/Assignments/Assignment3/Node.cs:53-82 | splitting into two valid cells strictly decreases the volume measure, so recursive splitting ends |
| BspTree.SplitLeaf | Assets/Assignments/Assignment3/Node.cs:91-134 | a leaf gets two fresh children and the drawn axis iff both halves are valid cells, and is unchanged otherwise; the children's cells are the halves at the drawn split point; the result is well formed |
| BspTree.SplitLeafProportions | Assets/Assignments/Assignment3/Node.cs:98-120 | with a draw in [0, 1], each child of a split of an ordered cell spans 30% to 70% of its parent along the split axis |
| BspTree.SplitRec | Assets/Assignments/Assignment3/Node.cs:67-82 | recursive splitting keeps the tree well formed; every node of the input keeps its cell, room and flag, and every inner node keeps its axis and children, so existing splits are kept; an invalid cell is left alone |
| BspTree.SameCellsWf | Assets/Assignments/Assignment3/Node.cs:102-131 | well-formedness, ordered cells and roomy leaves depend only on cells and axes, not on rooms or flags |
| BspTree.SplitLeafOrdered | Assets/Assignments/Assignment3/Node.cs:98-120 | with draws in [0, 1], splitting an ordered cell gives ordered halves |
| BspTree.SplitRecOrdered | Assets/Assignments/Assignment3/Node.cs:67-82 | with draws in [0, 1], recursive splitting keeps every cell ordered |
| BspTree.Leaves | Assets/Assignments/Assignment3/Node.cs:354-367 | the leaves number one more than the inner nodes, and all are leaves |
| BspTree.LeavesCover | Assets/Assignments/Assignment3/Node.cs:354-367 | the leaf cells cover exactly the points of the root cell |
| BspTree.GenRooms | Assets/Assignments/Assignment3/Node.cs:136-143 | room generation changes only leaf rooms: with leaf rooms cleared the tree is as it was (shape, cells, axes, flags and inner rooms are kept everywhere), and it makes four draws per leaf |
| BspTree.GenRoomsPlaced | Assets/Assignments/Assignment3/Node.cs:136-174 | with roomy leaves and draws in [0, 1], every leaf room lies in its cell, strictly around the cell's centre |
| BspTree.UpdateRoom | Assets/Assignments/Assignment3/Node.cs:311-328 | an inner node's new room encloses child B's room, and child A's unless that is inside the empty box; cells, children and flags are kept; a leaf is unchanged |
| BspTree.UpdateRooms | Assets/Assignments/Assignment3/Node.cs:298-306 | the recursive update changes rooms only: with all rooms cleared the tree is as it was (shape, cells, axes and flags are kept everywhere) |
| BspTree.UpdateRoomsNested | Assets/Assignments/Assignment3/Node.cs:298-328 | after the update every inner room encloses child B's room, and child A's unless that fits in the empty box; the leaves are unchanged |
| BspTree.SplitMidpoints | Assets/Assignments/Assignment3/Node.cs:102-120 | the parent's centre lies between the halves' centres on the split axis, and all three centres agree on the other horizontal axis |
| BspTree.UpdateRoomsAroundCentres | Assets/Assignments/Assignment3/Node.cs:298-328 | when leaf rooms surround their cells' centres, after the update every room surrounds its cell's centre |
| BspTree.NestedAround | Assets/Assignments/Assignment3/Node.cs:311-328 | where every room surrounds its cell's centre, the child-A exception never applies: every inner room encloses both children's rooms |
| BspTree.DungeonRoomsNested | Assets/Assignments/Assignment3/Node.cs:298-328 | in a partition whose leaf rooms are placed around their cells' centres, after the update every inner room encloses both of its children's rooms |
| BspTree.CentredRoomsOverlap | Assets/Assignments/Assignment3/Node.cs:240-264 | when every room surrounds its cell's centre, the sibling rooms at every inner node overlap across the split |
| BspTree.DungeonHallwaysPlaceable | Assets/Assignments/Assignment3/Node.cs:136-143 | in a partition with roomy leaves, after room generation and the room update, every inner node can place a straight hallway between its children's rooms |
| BspTree.Connect | Assets/Assignments/Assignment3/Node.cs:190-213 | a call reports no change iff the node is connected or a leaf, and then nothing changes; a node becomes connected only once both children are connected or leaves, with the children unchanged in that call |
| BspTree.ConnCountBound | Assets/Assignments/Assignment3/Node.cs:38 | no more nodes are connected than there are inner nodes |
| BspTree.ConnectOnlyFlags | Assets/Assignments/Assignment3/Node.cs:190-213 | a connecting call changes only connected flags |
| BspTree.ConnectProgress | Assets/Assignments/Assignment3/Node.cs:190-213 | flags are never cleared, and a call reporting a change connects at least one more node |
| BspTree.ConnectClosed | Assets/Assignments/Assignment3/Node.cs:190-213 | connecting is bottom-up: a call keeps every connected node's children connected or leaves |
| BspTree.ClosedConnected | Assets/Assignments/Assignment3/Node.cs:190-213 | in such a tree a connected node has every inner descendant connected |
| BspTree.PassesProgress | Assets/Assignments/Assignment3/Node.cs:190-213 | after n calls, either n more nodes are connected or the next call reports no change |
| BspTree.ConnectSettles | Assets/Assignments/Assignment3/Node.cs:190-213 | calling repeatedly on the root, the call after InnerCount calls reports no change: the generator's loop ends |
| BspTree.NegativeLevelEmpty | Assets/Assignments/Assignment3/Node.cs:370-383 | a negative level lists no node |
| BspTree.ChildrenAppend | Assets/Assignments/Assignment3/Node.cs:370-383 | the children of a concatenation are the concatenated children |
| BspTree.NodesAtNextLevel | Assets/Assignments/Assignment3/Node.cs:370-383 | the nodes one level deeper are the children of the nodes at this level, in order |
| BspDungeon.Node.constructor | Assets/Assignments/Assignment3/Node.cs:43-47 | a new node is a valid leaf with the given cell, an empty room and no connection |
| BspDungeon.Node.IsLeafNode | Assets/Assignments/Assignment3/Node.cs:39 | a node is a leaf iff its model is a leaf |
| BspDungeon.Node.SplitCell | Assets/Assignments/Assignment3/Node.cs:91-134 | the node's subtree becomes SplitLeaf of the old one; only fresh nodes are added |
| BspDungeon.Node.SplitCellRecursively | Assets/Assignments/Assignment3/Node.cs:67-82 | the node's subtree and the next draw index become SplitRec of the old subtree |
| BspDungeon.Node.GenerateRoom | Assets/Assignments/Assignment3/Node.cs:153-174 | the room becomes RoomIn of the cell and the four draws; nothing else changes |
| BspDungeon.Node.GenerateRoomsRecursively | Assets/Assignments/Assignment3/Node.cs:136-143 | the subtree and the next draw index become GenRooms of the old subtree |
| BspDungeon.Node.ConnectChildRooms | Assets/Assignments/Assignment3/Node.cs:228-264 | the hallway coordinate computed from the children's rooms is HallwayPosition of those rooms |
| BspDungeon.Node.ConnectRoomsRecursively | Assets/Assignments/Assignment3/Node.cs:190-213 | the subtree, the changed result and the next draw index are Connect of the old subtree |
| BspDungeon.Node.UpdateRoomBounds | Assets/Assignments/Assignment3/Node.cs:311-328 | the subtree becomes UpdateRoom of the old one |
| BspDungeon.Node.UpdateRoomBoundsRecursively | Assets/Assignments/Assignment3/Node.cs:298-306 | the subtree becomes UpdateRooms of the old one |
| BspDungeon.Node.LeafNodesModel | Assets/Assignments/Assignment3/Node.cs:354-367 | the listed leaf nodes belong to the subtree and their models are the model's leaves, in order |
| BspDungeon.Node.GetLeafNodes | Assets/Assignments/Assignment3/Node.cs:354-367 | the leaf nodes, A-subtree first, are appended to the list |
| BspDungeon.Node.NodesAtLevelModel | Assets/Assignments/Assignment3/Node.cs:370-383 | the listed nodes belong to the subtree and their models are the model's nodes at that level, in order |
| BspDungeon.Node.GetNodesAtLevel | Assets/Assignments/Assignment3/Node.cs:370-383 | the nodes at that depth, A-subtree first, are appended to the list |
| BspDungeon.NodeList.constructor | Assets/Assignments/Assignment3/Node.cs:354 | a new list is empty |
| BspDungeon.NodeList.Add | Assets/Assignments/Assignment3/Node.cs:359 | the node is appended to the list |
| Fabrik.LerpOnRay | Assets/Assignments/Assignment2/FABRIK.cs:79 | the interpolated point is the start moved by the weight times the way to the target |
| Fabrik.LerpEnds | Assets/Assignments/Assignment2/FABRIK.cs:79 | weight 0 gives the start and weight 1 the target |
| Fabrik.EnforceConstraints | Assets/Assignments/Assignment2/FABRIK.cs:35-64 | a proposed joint within the angle limit is returned unchanged |
| Fabrik.SumBounds | Assets/Assignments/Assignment2/FABRIK.cs:147-153 | with non-negative link lengths the chain length is non-negative and at least each link |
| Fabrik.StretchSteps | Assets/Assignments/Assignment2/FABRIK.cs:75-86 | the first m steps of the stretch keep one position per joint; what they write is stated by StretchStepsFrame and StretchOnRay |
| Fabrik.StretchStepsFrame | Assets/Assignments/Assignment2/FABRIK.cs:75-86 | the stretch never moves the root and writes joints in order |
| Fabrik.StretchOnRay | Assets/Assignments/Assignment2/FABRIK.cs:75-86 | after the stretch every joint lies on the ray from its predecessor toward the target, at link length over distance |
| Fabrik.ForwardSteps | Assets/Assignments/Assignment2/FABRIK.cs:99-109 | the first m steps of the end-to-root pass keep one position per joint; ForwardStepsFrame states which they leave alone |
| Fabrik.ForwardStepsFrame | Assets/Assignments/Assignment2/FABRIK.cs:99-109 | the end-to-root pass leaves the end joint and the joints not yet visited untouched |
| Fabrik.BackwardSteps | Assets/Assignments/Assignment2/FABRIK.cs:113-122 | the first m steps of the root-to-end pass keep one position per joint; BackwardStepsFrame states which they leave alone |
| Fabrik.BackwardStepsFrame | Assets/Assignments/Assignment2/FABRIK.cs:113-122 | the root-to-end pass leaves the root and the joints not yet visited untouched |
| Fabrik.ForwardPassKeepsEnd | Assets/Assignments/Assignment2/FABRIK.cs:96-109 | after pinning and the end-to-root pass the end joint is at the target |
| Fabrik.Round | Assets/Assignments/Assignment2/FABRIK.cs:96-122 | one round keeps one position per joint; RoundRoot states where it leaves the root |
| Fabrik.RoundRoot | Assets/Assignments/Assignment2/FABRIK.cs:96-122 | a round ends with the root at b |
| Fabrik.Rounds | Assets/Assignments/Assignment2/FABRIK.cs:94-123 | k rounds keep one position per joint (Iterate and RoundsKeepRoot state the rest) |
| Fabrik.Solved | Assets/Assignments/Assignment2/FABRIK.cs:71-123 | the solved positions, one per joint: the stretch when the root is farther from the target than the chain is long, rounds otherwise; SolvedKeepsRoot states that the root stays |
| Fabrik.RoundsKeepRoot | Assets/Assignments/Assignment2/FABRIK.cs:92-123 | any number of rounds from the root's own position keeps the root where it was |
| Fabrik.SolvedKeepsRoot | Assets/Assignments/Assignment2/FABRIK.cs:66-139 | in either regime the root joint ends where it started |
| Fabrik.FabrikSolver.constructor | Assets/Assignments/Assignment2/FABRIK.cs:10-32 | the component holds the given joints and settings, with no links measured yet |
| Fabrik.FabrikSolver.Start | Assets/Assignments/Assignment2/FABRIK.cs:142-154 | each link length is the distance between its joints, and the chain length is their sum |
| Fabrik.FabrikSolver.Stretch | Assets/Assignments/Assignment2/FABRIK.cs:73-89 | the positions become StretchSteps of the old ones; each joint's rotation follows its new link and the end takes the target's rotation |
| Fabrik.FabrikSolver.ForwardReaching | Assets/Assignments/Assignment2/FABRIK.cs:96-109 | the positions become the end-to-root pass over the chain with its end pinned to the target |
| Fabrik.FabrikSolver.ForwardPass | Assets/Assignments/Assignment2/FABRIK.cs:99-109 | the loop from joint n-2 down to 0 computes ForwardSteps |
| Fabrik.FabrikSolver.MoveTowardSuccessor | Assets/Assignments/Assignment2/FABRIK.cs:101-107 | one step of the end-to-root pass on the array is ForwardStep on its contents |
| Fabrik.FabrikSolver.BackwardReaching | Assets/Assignments/Assignment2/FABRIK.cs:112-122 | the positions become the root-to-end pass over the chain with its root reset to b |
| Fabrik.FabrikSolver.MoveTowardPredecessor | Assets/Assignments/Assignment2/FABRIK.cs:115-121 | one step of the root-to-end pass on the array is BackwardStep on its contents |
| Fabrik.FabrikSolver.SetRotations | Assets/Assignments/Assignment2/FABRIK.cs:125-136 | the end takes the target's rotation and every other joint its link's rotation |
| Fabrik.FabrikSolver.ReachRound | Assets/Assignments/Assignment2/FABRIK.cs:96-122 | one iteration moves the positions by Round |
| Fabrik.FabrikSolver.Iterate | Assets/Assignments/Assignment2/FABRIK.cs:94-123 | the positions become maxIterations rounds of the old ones, none when the bound is not positive |
| Fabrik.FabrikSolver.Solve | Assets/Assignments/Assignment2/FABRIK.cs:66-139 | the positions become Solved of the old ones (stretch or rounds, by the distance test), and the rotations follow the new links with the end taking the target's rotation |
| PathFinding.Node.constructor | Assets/Exercises/Exercise3/PathFinding.cs:87 | a node keeps its position |
| PathFinding.PathList.constructor | Assets/Exercises/Exercise3/PathFinding.cs:34 | a new list is empty |
| PathFinding.PathList.Add | Assets/Exercises/Exercise3/PathFinding.cs:87 | the position is appended |
| PathFinding.PathList.Clear | Assets/Exercises/Exercise3/PathFinding.cs:45 | the list becomes empty |
| PathFinding.PathList.Reverse | Assets/Exercises/Exercise3/PathFinding.cs:92 | the list becomes its reversal |
| PathFinding.Reversed | Assets/Exercises/Exercise3/PathFinding.cs:92 | same length, entry i is entry n-1-i of the input |
| PathFinding.ReversedInvolutive | Assets/Exercises/Exercise3/PathFinding.cs:92 | reversing twice gives the input back |
| PathFinding.WalkStep | Assets/Exercises/Exercise3/PathFinding.cs:85-89 | a node on the walk back that is not the start has a recorded predecessor, which is the next node of the walk (the dictionary lookup never fails) |
| PathFinding.WalkStops | Assets/Exercises/Exercise3/PathFinding.cs:85 | the walk back meets the start only after all its hops (the loop ends) |
| PathFinding.Trail | Assets/Exercises/Exercise3/PathFinding.cs:85-91 | the first n nodes met walking back from the goal, n of them; TrailIsWalk states which nodes they are |
| PathFinding.TrailIsWalk | Assets/Exercises/Exercise3/PathFinding.cs:85-89 | entry k of the trail is the node k steps back from the goal |
| PathFinding.Positions | Assets/Exercises/Exercise3/PathFinding.cs:87-91 | one position per node, entry k being node k's position |
| PathFinding.PositionsSnoc | Assets/Exercises/Exercise3/PathFinding.cs:87 | appending a node appends its position |
| PathFinding.PositionsReversed | Assets/Exercises/Exercise3/PathFinding.cs:92 | reading positions commutes with reversal |
| PathFinding.TrailPositionsSnoc | Assets/Exercises/Exercise3/PathFinding.cs:87-91 | extending the trail by the node reached extends its positions |
| PathFinding.PathNodesShape | Assets/Exercises/Exercise3/PathFinding.cs:81-93 | the reconstructed path has hops+1 nodes, starts at the start, ends at the goal, and each node is the recorded predecessor of the next |
| PathFinding.ReconstructPath | Assets/Exercises/Exercise3/PathFinding.cs:81-93 | the list becomes the reversal of its old contents followed by the positions from the goal back to the start |
| PathFinding.Run | Assets/Exercises/Exercise3/PathFinding.cs:36-78 | no graph leaves the path as it was; start equal to goal leaves it empty; otherwise the path is the positions of the start-to-goal path |
| Edges.ValidityCases | Assets/Exercises/Exercise3/Edge.cs:16-21 | an edge is valid iff both endpoints are non-negative and the cost is non-negative; a negative endpoint invalidates it; a zero-cost self-loop is valid |
| Skeletons.Chain | Assets/Exercises/Exercise5/Skeleton.cs:52-59 | the ancestor chain starts at a root joint, ends at the joint, and each entry's parent is the entry before it |
| Skeletons.Locals | Assets/Exercises/Exercise5/Skeleton.cs:48-57 | entry k is the local matrix of chain joint k |
| Skeletons.ProductRSnoc | Assets/Exercises/Exercise5/Skeleton.cs:57 | for an associative product, multiplying one more matrix on the right extends the nested product |
| Skeletons.GlobalPoseIsChainProduct | Assets/Exercises/Exercise5/Skeleton.cs:46-62 | a joint's model-space pose is the product of the local matrices along its ancestor chain, root-most on the left |
| Skeletons.Skeleton.constructor | Assets/Exercises/Exercise5/Skeleton.cs:17-19 | the skeleton holds the given joints |
| Skeletons.Skeleton.GetPoseInGlobalSpace | Assets/Exercises/Exercise5/Skeleton.cs:27-63 | the array is reallocated only when its length differs from the joint count; each root joint gets its local matrix, and each other joint its parent's model-space pose times its local matrix |
| Matrices.FromColumns | Assets/Exercises/Examples4/Matrix3x3.cs:25-30 | the three vectors become the three columns |
| Matrices.Rotate | Assets/Exercises/Examples4/Matrix3x3.cs:60-67 | cosine on the diagonal, sine below it and its negation above it; the third row and column are the identity's |
| Matrices.ApplyRow | Assets/Exercises/Examples4/Matrix3x3.cs:34-41 | coordinate i of M v is row i of M dotted with v |
| Matrices.MulEntry | Assets/Exercises/Examples4/Matrix3x3.cs:42-58 | entry (i, j) of A B is row i of A dotted with column j of B |
| Matrices.ApplyIsColumnCombination | Assets/Exercises/Examples4/Matrix3x3.cs:25-41 | a matrix built from columns maps v to the combination of the columns weighted by v's coordinates |
| Matrices.MulApply | Assets/Exercises/Examples4/Matrix3x3.cs:34-58 | (A B) v equals A (B v) |
| Matrices.ColumnOfMul | Assets/Exercises/Examples4/Matrix3x3.cs:42-58 | column j of A B is A applied to column j of B |
| Matrices.EqualColumns | Assets/Exercises/Examples4/Matrix3x3.cs:9-19 | matrices with equal columns are equal |
| Matrices.MulAssociative | Assets/Exercises/Examples4/Matrix3x3.cs:42-58 | the matrix product is associative |
| Matrices.IdentityNeutral | Assets/Exercises/Examples4/Matrix3x3.cs:21-23 | the identity leaves vectors unchanged and is neutral for the product on both sides |
| Matrices.RotateCompose | Assets/Exercises/Examples4/Matrix3x3.cs:60-67 | the product of two rotations is the rotation whose cosine and sine follow the angle-sum formulas |
| Matrices.RotatePreservesLength | Assets/Exercises/Examples4/Matrix3x3.cs:60-67 | when c² + s² = 1 the rotation preserves squared length |

## Left out

- Engine side effects of the dungeon generator are not modelled: the
  primitives created for rooms and hallways, their materials and colours (the
  colour draws in `Node`'s constructor), `DebugDraw`, and the raycasts and
  hallway cubes of `ConnectChildRooms`. For the hallway, the model keeps the
  overlap test and the drawn coordinate (`HallwayPosition`).
- The generator's driver, which calls these passes on the root and repeats
  `ConnectRoomsRecursively` until it reports no change, is not part of this
  model. `ConnectSettles` shows that such a loop ends.
- BspDungeon.Node.SplitCell: requires a node without children, the only way
  `SplitCellRecursively` calls it.
- `Node.cs` line 76 tests `m_ChildA == null && m_ChildA == null`. Because the
  children are always set together, this is the same as testing for a leaf,
  and the model keeps the test as written.
- The room's max z (Node.cs line 169) lacks the z offset that its min z
  carries. The model keeps this as written, and `RoomDepthCanBeTwo` shows
  its effect.
- FABRIK's vector geometry is not modelled: magnitude, angle, projection,
  reflection, normalisation, the tangent and the rotation built from a 4x4
  matrix are uninterpreted functions (`Geometry`). Single-precision division
  is too, including a zero divisor.
- Fabrik.FabrikSolver.Start: requires at least one joint. With no joints
  the source throws when it allocates `new float[joints.Length-1]`
  (FABRIK.cs line 146). The methods that run after it (`Stretch`,
  `ForwardReaching`, `BackwardReaching`, `SetRotations`, `ReachRound`,
  `Iterate`, `Solve`) carry the same requirement, and the exception is not
  modelled.
- FABRIK's `tolerance` field does not influence the solver: the code always
  runs `maxIterations` rounds, and the model does the same.
- `Update` and `DebugJointLimit` (editor drawing) are not modelled.
- Fabrik.EnforceConstraints: only the within-limit case is stated as a
  contract; the cone projection depends on the uninterpreted geometry.
- PathFinding.Run: the graph, its reset (`m_Graph.Clear`), the mapping of
  points to their closest nodes and the three search algorithms are inputs.
  The node pair and the filled predecessor map are parameters, and the error
  messages are not modelled.
- PathFinding.ReconstructPath: requires that following the predecessors from
  the goal reaches the start. Without that, the source fails on a missing
  key or loops forever.
- Skeletons.Skeleton.GetPoseInGlobalSpace: the 4x4 matrices are abstract,
  with an associative product. The inverse bind pose is not used. The model
  requires every parent index to be the root marker or an earlier joint, and
  the pose to have at least as many entries as the skeleton has joints. The
  source only logs a mismatch, and would fail on too short a pose or loop on
  a cycle.
- Matrices.Rotate: takes the cosine and sine of the angle as inputs, since
  trigonometry is not modelled.
- Float rounding is not modelled anywhere: all arithmetic is on reals.
