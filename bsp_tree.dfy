/** The partition tree of the dungeon generator as a value, and the passes
    the generator makes over it: splitting cells recursively, generating a
    room in every leaf, connecting sibling rooms level by level from the
    bottom up, and growing every inner node's room to enclose its children's
    rooms. Each pass takes the random draws it makes from a stream `rand`,
    starting at index k, and returns the index after its last draw. */
module BspTree {
  import opened Vectors
  import opened Wrappers
  import opened BspCells

  /** A node: its cell, the box around its room(s), its split axis and its
      connected flag; an inner node has two children. */
  datatype Tree =
    | Leaf(cell: Bounds, room: Bounds, axis: Axis, connected: bool)
    | Inner(cell: Bounds, room: Bounds, axis: Axis, connected: bool, a: Tree, b: Tree)

  /** A node as constructed: an empty room, the default axis and not
      connected. */
  function NewLeaf(c: Bounds): Tree {
    Leaf(c, ZeroBounds, X, false)
  }

  /** Every inner node's children are valid cells into which its cell is
      split along its axis. */
  predicate Wf(t: Tree) {
    match t
    case Leaf(_, _, _, _) => true
    case Inner(c, _, axis, _, a, b) =>
      && IsValidCell(a.cell) && IsValidCell(b.cell)
      && IsSplit(c, axis, a.cell, b.cell)
      && Wf(a) && Wf(b)
  }

  /** The same nodes with the same cells and split axes, whatever the rooms
      and flags. */
  predicate SameCells(s: Tree, t: Tree) {
    && s.cell == t.cell && s.axis == t.axis && s.Leaf? == t.Leaf?
    && (s.Inner? ==> SameCells(s.a, t.a) && SameCells(s.b, t.b))
  }

  /** Whether every split stays inside its parent depends only on the cells. */
  lemma {:induction false} SameCellsWf(s: Tree, t: Tree)
    requires SameCells(s, t)
    ensures Wf(s) <==> Wf(t)
    ensures CellsOrdered(s) <==> CellsOrdered(t)
    ensures LeavesRoomy(s) <==> LeavesRoomy(t)
  {
    if s.Inner? {
      SameCellsWf(s.a, t.a);
      SameCellsWf(s.b, t.b);
    }
  }

  function InnerCount(t: Tree): nat {
    match t
    case Leaf(_, _, _, _) => 0
    case Inner(_, _, _, _, a, b) => 1 + InnerCount(a) + InnerCount(b)
  }

  // ----- splitting -------------------------------------------------------------

  /** A volume measure that a split strictly decreases. */
  function Measure(c: Bounds): nat {
    if Volume(c) < 0.0 then 0 else Volume(c).Floor
  }

  /** Both halves of a split into valid cells are at least 800 units smaller
      than the parent, so their measures are smaller. */
  lemma ChildMeasure(c: Bounds, axis: Axis, a: Bounds, b: Bounds)
    requires IsSplit(c, axis, a, b) && IsValidCell(a) && IsValidCell(b)
    ensures Measure(a) < Measure(c) && Measure(b) < Measure(c)
  {
    VolumesAdd(c, axis, Get(a.max, Index(axis)));
    ValidCellCharacterized(a);
    ValidCellCharacterized(b);
  }

  /** SplitCell on a node without children: it gets two fresh children and
      the drawn axis when both halves are valid, and is left as it was
      otherwise. */
  function SplitLeaf(t: Tree, value: real, u: real): (r: Tree)
    requires t.Leaf?
    ensures r.cell == t.cell && r.room == t.room && r.connected == t.connected
    ensures r.Leaf? <==> TrySplit(t.cell, value, u).None?
    ensures r.Leaf? ==> r == t
    ensures r.Inner? ==>
      && r.axis == AxisOf(value)
      && r.a == NewLeaf(r.a.cell) && r.b == NewLeaf(r.b.cell)
      && IsValidCell(r.a.cell) && IsValidCell(r.b.cell)
      && IsSplit(t.cell, r.axis, r.a.cell, r.b.cell)
    ensures r.Inner? ==>
      var sp := SplitPoint(t.cell, r.axis, u);
      r.a.cell == HalfA(t.cell, r.axis, sp) && r.b.cell == HalfB(t.cell, r.axis, sp)
    ensures Wf(r)
  {
    match TrySplit(t.cell, value, u)
    case None => t
    case Some(s) => Inner(t.cell, t.room, s.axis, t.connected, NewLeaf(s.a), NewLeaf(s.b))
  }

  /** With draws in [0, 1], each child of a split of an ordered cell spans
      between 30% and 70% of its parent along the split axis. */
  lemma SplitLeafProportions(t: Tree, value: real, u: real)
    requires t.Leaf? && Ordered(t.cell) && Draw(u)
    ensures var r := SplitLeaf(t, value, u);
      r.Inner? ==>
        var i := Index(r.axis);
        var delta := Get(Size(t.cell), i);
        && 0.3 * delta <= Get(Size(r.a.cell), i) <= 0.7 * delta
        && 0.3 * delta <= Get(Size(r.b.cell), i) <= 0.7 * delta
  {
    var axis := AxisOf(value);
    SplitPointRange(t.cell, axis, u);
  }

  /** `s` grows `t`: every node of `t` is still there with its cell, room and
      flag, and every inner node of `t` keeps its axis and its children;
      only leaves of `t` may have gained children. */
  predicate Extends(s: Tree, t: Tree) {
    && s.cell == t.cell && s.room == t.room && s.connected == t.connected
    && (t.Inner? ==> s.Inner? && s.axis == t.axis && Extends(s.a, t.a) && Extends(s.b, t.b))
  }

  /** SplitCellRecursively: nothing on an invalid cell; otherwise a node
      without children is split (two draws), and then each child is split
      recursively. Every child in the result is a valid cell, and the result
      extends the input: existing splits are kept. */
  function SplitRec(t: Tree, rand: nat -> real, k: nat): (r: (Tree, nat))
    requires Wf(t)
    ensures Wf(r.0) && k <= r.1
    ensures Extends(r.0, t)
    ensures !IsValidCell(t.cell) ==> r == (t, k)
    decreases Measure(t.cell)
  {
    if !IsValidCell(t.cell) then
      ExtendsRefl(t);
      (t, k)
    else
      var t1 := if t.Leaf? then SplitLeaf(t, rand(k), rand(k + 1)) else t;
      var k1 := if t.Leaf? then k + 2 else k;
      match t1
      case Leaf(_, _, _, _) => (t1, k1)
      case Inner(c, room, axis, conn, a, b) =>
        ChildMeasure(c, axis, a.cell, b.cell);
        var ra := SplitRec(a, rand, k1);
        var rb := SplitRec(b, rand, ra.1);
        (Inner(c, room, axis, conn, ra.0, rb.0), rb.1)
  }

  lemma {:induction false} ExtendsRefl(t: Tree)
    ensures Extends(t, t)
  {
    if t.Inner? {
      ExtendsRefl(t.a);
      ExtendsRefl(t.b);
    }
  }

  /** Children replaced by well-formed subtrees with the same cells leave a
      well-formed tree. */
  lemma WfReplaced(t: Tree, a: Tree, b: Tree)
    requires Wf(t) && t.Inner? && Wf(a) && Wf(b) && a.cell == t.a.cell && b.cell == t.b.cell
    ensures Wf(t.(a := a, b := b))
  {
  }

  /** Every cell has its corners ordered. */
  predicate CellsOrdered(t: Tree) {
    && Ordered(t.cell)
    && (t.Inner? ==> CellsOrdered(t.a) && CellsOrdered(t.b))
  }

  ghost predicate AllDraws(rand: nat -> real) {
    forall i :: Draw(rand(i))
  }

  /** With draws in [0, 1], splitting an ordered cell gives ordered halves. */
  lemma SplitLeafOrdered(t: Tree, value: real, u: real)
    requires t.Leaf? && Ordered(t.cell) && Draw(u)
    ensures CellsOrdered(SplitLeaf(t, value, u))
  {
    var axis := AxisOf(value);
    SplitPointRange(t.cell, axis, u);
  }

  /** With draws in [0, 1], recursive splitting keeps every cell ordered. */
  lemma {:induction false} SplitRecOrdered(t: Tree, rand: nat -> real, k: nat)
    requires Wf(t) && CellsOrdered(t) && AllDraws(rand)
    ensures CellsOrdered(SplitRec(t, rand, k).0)
    decreases Measure(t.cell)
  {
    if IsValidCell(t.cell) {
      var t1 := if t.Leaf? then SplitLeaf(t, rand(k), rand(k + 1)) else t;
      var k1 := if t.Leaf? then k + 2 else k;
      if t.Leaf? {
        SplitLeafOrdered(t, rand(k), rand(k + 1));
      }
      if t1.Inner? {
        ChildMeasure(t1.cell, t1.axis, t1.a.cell, t1.b.cell);
        var ra := SplitRec(t1.a, rand, k1);
        SplitRecOrdered(t1.a, rand, k1);
        SplitRecOrdered(t1.b, rand, ra.1);
      }
    }
  }

  /** The cells of the leaves, A-subtree first. */
  function Leaves(t: Tree): (r: seq<Tree>)
    ensures |r| == InnerCount(t) + 1
    ensures forall i :: 0 <= i < |r| ==> r[i].Leaf?
  {
    match t
    case Leaf(_, _, _, _) => [t]
    case Inner(_, _, _, _, a, b) => Leaves(a) + Leaves(b)
  }

  /** In a tree of ordered cells, the leaves' cells cover exactly the points
      of the root's cell. */
  lemma {:induction false} LeavesCover(t: Tree, p: Vec3)
    requires Wf(t) && CellsOrdered(t)
    ensures Contains(t.cell, p) <==> exists i :: 0 <= i < |Leaves(t)| && Contains(Leaves(t)[i].cell, p)
  {
    if t.Leaf? {
      assert Leaves(t)[0] == t;
    } else {
      LeavesCover(t.a, p);
      LeavesCover(t.b, p);
      var sp := Get(t.a.cell.max, Index(t.axis));
      HalvesPartition(t.cell, t.axis, sp);
      var la, lb := Leaves(t.a), Leaves(t.b);
      assert Leaves(t) == la + lb;
      if Contains(t.cell, p) {
        if Contains(t.a.cell, p) {
          var i :| 0 <= i < |la| && Contains(la[i].cell, p);
          assert Leaves(t)[i] == la[i];
        } else {
          var i :| 0 <= i < |lb| && Contains(lb[i].cell, p);
          assert Leaves(t)[|la| + i] == lb[i];
        }
      }
      if exists i :: 0 <= i < |Leaves(t)| && Contains(Leaves(t)[i].cell, p) {
        var i :| 0 <= i < |Leaves(t)| && Contains(Leaves(t)[i].cell, p);
        if i < |la| {
          assert Leaves(t)[i] == la[i];
        } else {
          assert Leaves(t)[i] == lb[i - |la|];
        }
      }
    }
  }

  // ----- rooms -------------------------------------------------------------------

  /** The tree with every leaf's room emptied; inner rooms are kept. */
  function LeafRoomsCleared(t: Tree): Tree {
    match t
    case Leaf(c, _, axis, conn) => Leaf(c, ZeroBounds, axis, conn)
    case Inner(c, room, axis, conn, a, b) => Inner(c, room, axis, conn, LeafRoomsCleared(a), LeafRoomsCleared(b))
  }

  /** The tree with every room emptied. */
  function RoomsCleared(t: Tree): Tree {
    match t
    case Leaf(c, _, axis, conn) => Leaf(c, ZeroBounds, axis, conn)
    case Inner(c, _, axis, conn, a, b) => Inner(c, ZeroBounds, axis, conn, RoomsCleared(a), RoomsCleared(b))
  }

  /** GenerateRoomsRecursively: the children first, then a room for a node
      without children (four draws). Only leaf rooms change: shape, cells,
      axes, flags and inner rooms are kept throughout the tree. */
  function GenRooms(t: Tree, rand: nat -> real, k: nat): (r: (Tree, nat))
    ensures LeafRoomsCleared(r.0) == LeafRoomsCleared(t)
    ensures SameCells(r.0, t) && r.0.connected == t.connected
    ensures t.Inner? ==> r.0.room == t.room
    ensures r.1 == k + 4 * |Leaves(t)|
  {
    match t
    case Leaf(c, _, axis, conn) =>
      (Leaf(c, RoomIn(c, rand(k), rand(k + 1), rand(k + 2), rand(k + 3)), axis, conn), k + 4)
    case Inner(c, room, axis, conn, a, b) =>
      var ra := GenRooms(a, rand, k);
      var rb := GenRooms(b, rand, ra.1);
      (Inner(c, room, axis, conn, ra.0, rb.0), rb.1)
  }

  /** Every leaf cell is roomy (ordered and at least 6 wide on x and z). */
  predicate LeavesRoomy(t: Tree) {
    match t
    case Leaf(c, _, _, _) => Roomy(c)
    case Inner(_, _, _, _, a, b) => LeavesRoomy(a) && LeavesRoomy(b)
  }

  /** Every leaf room lies in its cell and strictly around the cell's centre
      on x and z. */
  predicate LeafRoomsPlaced(t: Tree) {
    match t
    case Leaf(c, room, _, _) => Ordered(room) && Encloses(c, room) && AroundCentre(room, c)
    case Inner(_, _, _, _, a, b) => LeafRoomsPlaced(a) && LeafRoomsPlaced(b)
  }

  /** With roomy leaves and draws in [0, 1], every generated room is placed
      in its cell around the cell's centre. */
  lemma {:induction false} GenRoomsPlaced(t: Tree, rand: nat -> real, k: nat)
    requires LeavesRoomy(t) && AllDraws(rand)
    ensures LeafRoomsPlaced(GenRooms(t, rand, k).0)
  {
    match t
    case Leaf(c, _, _, _) =>
      RoomInFacts(c, rand(k), rand(k + 1), rand(k + 2), rand(k + 3));
    case Inner(_, _, _, _, a, b) =>
      GenRoomsPlaced(a, rand, k);
      GenRoomsPlaced(b, rand, GenRooms(a, rand, k).1);
  }

  /** UpdateRoomBounds on one node: an inner node's room absorbs child A's
      room and then child B's. */
  function UpdateRoom(t: Tree): (r: Tree)
    ensures r.cell == t.cell && r.axis == t.axis && r.connected == t.connected && r.Leaf? == t.Leaf?
    ensures t.Inner? ==> r.a == t.a && r.b == t.b
    ensures t.Inner? ==> Encloses(r.room, t.b.room)
    ensures t.Inner? && !Encloses(ZeroBounds, t.a.room) ==> Encloses(r.room, t.a.room)
    ensures t.Leaf? ==> r == t
  {
    match t
    case Leaf(_, _, _, _) => t
    case Inner(c, room, axis, conn, a, b) =>
      AbsorbBoth(room, a.room, b.room);
      Inner(c, Absorb(Absorb(room, a.room), b.room), axis, conn, a, b)
  }

  /** UpdateRoomBoundsRecursively: children first, then the node itself.
      Only rooms change: shape, cells, axes and flags are kept throughout the
      tree. */
  function UpdateRooms(t: Tree): (r: Tree)
    ensures RoomsCleared(r) == RoomsCleared(t)
    ensures SameCells(r, t) && r.connected == t.connected
  {
    match t
    case Leaf(_, _, _, _) => t
    case Inner(c, room, axis, conn, a, b) =>
      UpdateRoom(Inner(c, room, axis, conn, UpdateRooms(a), UpdateRooms(b)))
  }

  /** Every inner room encloses child B's room, and child A's room unless
      that fits inside the empty box. */
  predicate Nested(t: Tree) {
    match t
    case Leaf(_, _, _, _) => true
    case Inner(_, room, _, _, a, b) =>
      && Encloses(room, b.room)
      && (!Encloses(ZeroBounds, a.room) ==> Encloses(room, a.room))
      && Nested(a) && Nested(b)
  }

  /** After the update every inner room encloses child B's room, and child
      A's room unless that fits in the empty box; the leaves (their rooms
      included) are as they were. */
  lemma {:induction false} UpdateRoomsNested(t: Tree)
    ensures Nested(UpdateRooms(t))
    ensures Leaves(UpdateRooms(t)) == Leaves(t)
  {
    if t.Inner? {
      UpdateRoomsNested(t.a);
      UpdateRoomsNested(t.b);
    }
  }

  /** The centres of the halves of an ordered split: on the split axis the
      parent's centre lies between them, on the other horizontal axis all
      three agree. */
  lemma SplitMidpoints(c: Bounds, axis: Axis, a: Bounds, b: Bounds)
    requires IsSplit(c, axis, a, b) && Ordered(a) && Ordered(b)
    ensures axis == X ==> Mid(a).x <= Mid(c).x <= Mid(b).x && Mid(a).z == Mid(c).z == Mid(b).z
    ensures axis == Z ==> Mid(a).z <= Mid(c).z <= Mid(b).z && Mid(a).x == Mid(c).x == Mid(b).x
  {
  }

  /** Every inner room encloses both of its children's rooms. */
  predicate FullyNested(t: Tree) {
    match t
    case Leaf(_, _, _, _) => true
    case Inner(_, room, _, _, a, b) =>
      && Encloses(room, a.room) && Encloses(room, b.room)
      && FullyNested(a) && FullyNested(b)
  }

  /** A room around its cell's centre reaches past it on both sides, so it
      never fits in the empty box: the exception of `Nested` does not arise. */
  lemma {:induction false} NestedAround(t: Tree)
    requires Nested(t) && RoomsAroundCentres(t)
    ensures FullyNested(t)
  {
    if t.Inner? {
      assert !Encloses(ZeroBounds, t.a.room);
      NestedAround(t.a);
      NestedAround(t.b);
    }
  }

  /** In a generated dungeon, with every leaf room placed around its cell's
      centre, the update leaves every inner room enclosing both of its
      children's rooms. */
  lemma DungeonRoomsNested(t: Tree)
    requires Wf(t) && CellsOrdered(t) && LeafRoomsPlaced(t)
    ensures FullyNested(UpdateRooms(t))
  {
    UpdateRoomsNested(t);
    UpdateRoomsAroundCentres(t);
    NestedAround(UpdateRooms(t));
  }

  /** Every room strictly contains its cell's centre on x and z. */
  predicate RoomsAroundCentres(t: Tree) {
    && AroundCentre(t.room, t.cell)
    && (t.Inner? ==> RoomsAroundCentres(t.a) && RoomsAroundCentres(t.b))
  }

  /** If the leaf rooms are around their cells' centres, then after the
      update every room is: an inner room encloses the rooms of both halves,
      which reach past the parent's centre on either side of the split and
      straddle it along the split line. */
  lemma {:induction false} UpdateRoomsAroundCentres(t: Tree)
    requires Wf(t) && CellsOrdered(t) && LeafRoomsPlaced(t)
    ensures RoomsAroundCentres(UpdateRooms(t))
  {
    if t.Inner? {
      UpdateRoomsAroundCentres(t.a);
      UpdateRoomsAroundCentres(t.b);
      var a, b := UpdateRooms(t.a), UpdateRooms(t.b);
      assert a.cell == t.a.cell && b.cell == t.b.cell;
      SplitMidpoints(t.cell, t.axis, a.cell, b.cell);
      var r := UpdateRooms(t);
      assert r == UpdateRoom(Inner(t.cell, t.room, t.axis, t.connected, a, b));
      assert !Encloses(ZeroBounds, a.room);
      assert Encloses(r.room, a.room) && Encloses(r.room, b.room);
    }
  }

  /** At every inner node the two children's rooms overlap across the split,
      so ConnectChildRooms finds a place for the hallway. */
  predicate HallwaysPlaceable(t: Tree) {
    match t
    case Leaf(_, _, _, _) => true
    case Inner(_, _, axis, _, a, b) =>
      RoomsOverlap(axis, a.room, b.room) && HallwaysPlaceable(a) && HallwaysPlaceable(b)
  }

  /** Sibling rooms around their cells' centres overlap across the split:
      both contain the centre line shared by the two halves. */
  lemma {:induction false} CentredRoomsOverlap(t: Tree)
    requires Wf(t) && CellsOrdered(t) && RoomsAroundCentres(t)
    ensures HallwaysPlaceable(t)
  {
    if t.Inner? {
      SplitMidpoints(t.cell, t.axis, t.a.cell, t.b.cell);
      CentredRoomsOverlap(t.a);
      CentredRoomsOverlap(t.b);
    }
  }

  /** The generator's design promise: in a partition whose leaves are roomy,
      once rooms are generated and the room bounds updated, every inner node
      can place a straight hallway between its children's rooms. */
  lemma DungeonHallwaysPlaceable(t: Tree, rand: nat -> real, k: nat)
    requires Wf(t) && CellsOrdered(t) && LeavesRoomy(t) && AllDraws(rand)
    ensures HallwaysPlaceable(UpdateRooms(GenRooms(t, rand, k).0))
  {
    var g := GenRooms(t, rand, k).0;
    GenRoomsPlaced(t, rand, k);
    SameCellsWf(g, t);
    UpdateRoomsAroundCentres(g);
    SameCellsWf(UpdateRooms(g), g);
    CentredRoomsOverlap(UpdateRooms(g));
  }

  // ----- connecting --------------------------------------------------------------

  /** A node that ConnectRoomsRecursively leaves alone. */
  predicate Ready(t: Tree) {
    t.connected || t.Leaf?
  }

  /** The tree after a call, whether the call reported a change, and the
      index after the draws it made. */
  datatype Pass = Pass(tree: Tree, changed: bool, next: nat)

  /** ConnectRoomsRecursively: a connected node or a leaf reports no change;
      otherwise both children are visited, and unless one of them changed
      the node connects its children (one draw when their rooms overlap) and
      becomes connected. */
  function Connect(t: Tree, rand: nat -> real, k: nat): (r: Pass)
    ensures !r.changed <==> Ready(t)
    ensures !r.changed ==> r.tree == t && r.next == k
    ensures r.tree.connected && !t.connected ==>
      t.Inner? && Ready(t.a) && Ready(t.b) && r.tree.Inner? && r.tree.a == t.a && r.tree.b == t.b
    ensures k <= r.next
  {
    match t
    case Leaf(_, _, _, _) => Pass(t, false, k)
    case Inner(c, room, axis, conn, a, b) =>
      if conn then Pass(t, false, k)
      else
        var pa := Connect(a, rand, k);
        var pb := Connect(b, rand, pa.next);
        if pa.changed || pb.changed then
          Pass(Inner(c, room, axis, conn, pa.tree, pb.tree), true, pb.next)
        else
          var next := if HallwayPosition(axis, a.room, b.room, rand(pb.next)).Some? then pb.next + 1 else pb.next;
          Pass(Inner(c, room, axis, true, a, b), true, next)
  }

  /** The tree with every connected flag cleared. */
  function Unflagged(t: Tree): Tree {
    match t
    case Leaf(c, room, axis, _) => Leaf(c, room, axis, false)
    case Inner(c, room, axis, _, a, b) => Inner(c, room, axis, false, Unflagged(a), Unflagged(b))
  }

  /** Same shape, and every flag set in s is set in t. */
  predicate FlagsKept(s: Tree, t: Tree) {
    && (s.connected ==> t.connected)
    && s.Leaf? == t.Leaf?
    && (s.Inner? ==> FlagsKept(s.a, t.a) && FlagsKept(s.b, t.b))
  }

  /** The number of connected inner nodes. */
  function ConnCount(t: Tree): nat {
    match t
    case Leaf(_, _, _, _) => 0
    case Inner(_, _, _, conn, a, b) => (if conn then 1 else 0) + ConnCount(a) + ConnCount(b)
  }

  lemma {:induction false} ConnCountBound(t: Tree)
    ensures ConnCount(t) <= InnerCount(t)
  {
    if t.Inner? {
      ConnCountBound(t.a);
      ConnCountBound(t.b);
    }
  }

  /** A pass changes connected flags only: cells, axes, rooms and shape are
      as they were. */
  lemma {:induction false} ConnectOnlyFlags(t: Tree, rand: nat -> real, k: nat)
    ensures Unflagged(Connect(t, rand, k).tree) == Unflagged(t)
    ensures InnerCount(Connect(t, rand, k).tree) == InnerCount(t)
  {
    if t.Inner? && !t.connected {
      var pa := Connect(t.a, rand, k);
      ConnectOnlyFlags(t.a, rand, k);
      ConnectOnlyFlags(t.b, rand, pa.next);
    }
  }

  /** Flags are never cleared, and a pass that reports a change connects at
      least one more inner node. */
  lemma {:induction false} ConnectProgress(t: Tree, rand: nat -> real, k: nat)
    ensures FlagsKept(t, Connect(t, rand, k).tree)
    ensures Connect(t, rand, k).changed ==> ConnCount(Connect(t, rand, k).tree) > ConnCount(t)
  {
    FlagsKeptRefl(t);
    if t.Inner? && !t.connected {
      var pa := Connect(t.a, rand, k);
      ConnectProgress(t.a, rand, k);
      ConnectProgress(t.b, rand, pa.next);
    }
  }

  lemma {:induction false} FlagsKeptRefl(t: Tree)
    ensures FlagsKept(t, t)
  {
    if t.Inner? {
      FlagsKeptRefl(t.a);
      FlagsKeptRefl(t.b);
    }
  }

  /** Every connected node has both children connected or leaves. */
  predicate Closed(t: Tree) {
    match t
    case Leaf(_, _, _, _) => true
    case Inner(_, _, _, conn, a, b) =>
      (conn ==> Ready(a) && Ready(b)) && Closed(a) && Closed(b)
  }

  /** Connecting is strictly bottom-up: a pass keeps a tree closed. */
  lemma {:induction false} ConnectClosed(t: Tree, rand: nat -> real, k: nat)
    requires Closed(t)
    ensures Closed(Connect(t, rand, k).tree)
  {
    if t.Inner? && !t.connected {
      var pa := Connect(t.a, rand, k);
      ConnectClosed(t.a, rand, k);
      ConnectClosed(t.b, rand, pa.next);
    }
  }

  /** Every inner node is connected. */
  predicate AllConnected(t: Tree) {
    match t
    case Leaf(_, _, _, _) => true
    case Inner(_, _, _, conn, a, b) => conn && AllConnected(a) && AllConnected(b)
  }

  /** In a closed tree, a connected node has all its inner descendants
      connected. */
  lemma {:induction false} ClosedConnected(t: Tree)
    requires Closed(t) && t.connected
    ensures AllConnected(t)
  {
    if t.Inner? {
      if t.a.Inner? {
        ClosedConnected(t.a);
      }
      if t.b.Inner? {
        ClosedConnected(t.b);
      }
    }
  }

  /** The tree and draw index after n calls on the root. */
  function Passes(t: Tree, rand: nat -> real, k: nat, n: nat): (Tree, nat) {
    if n == 0 then (t, k)
    else
      var s := Passes(t, rand, k, n - 1);
      var p := Connect(s.0, rand, s.1);
      (p.tree, p.next)
  }

  /** After n calls either n more nodes are connected or the next call
      reports no change; the number of inner nodes never changes. */
  lemma {:induction false} PassesProgress(t: Tree, rand: nat -> real, k: nat, n: nat)
    ensures var s := Passes(t, rand, k, n);
      && InnerCount(s.0) == InnerCount(t)
      && (ConnCount(s.0) >= ConnCount(t) + n || !Connect(s.0, rand, s.1).changed)
  {
    if n > 0 {
      PassesProgress(t, rand, k, n - 1);
      var s := Passes(t, rand, k, n - 1);
      ConnectOnlyFlags(s.0, rand, s.1);
      ConnectProgress(s.0, rand, s.1);
    }
  }

  /** Calling ConnectRoomsRecursively on the root again and again, the call
      after the first InnerCount calls reports no change: at most
      InnerCount + 1 calls are made. */
  lemma ConnectSettles(t: Tree, rand: nat -> real, k: nat)
    ensures var s := Passes(t, rand, k, InnerCount(t));
      !Connect(s.0, rand, s.1).changed
  {
    var s := Passes(t, rand, k, InnerCount(t));
    PassesProgress(t, rand, k, InnerCount(t));
    var p := Connect(s.0, rand, s.1);
    if p.changed {
      ConnectProgress(s.0, rand, s.1);
      ConnectOnlyFlags(s.0, rand, s.1);
      ConnCountBound(p.tree);
      assert false;
    }
  }

  // ----- traversals ----------------------------------------------------------------

  /** GetNodesAtLevel: the node itself at level 0, otherwise the nodes one
      level lower in each child, A first. */
  function NodesAtLevel(t: Tree, level: int): seq<Tree> {
    if level == 0 then [t]
    else match t
      case Leaf(_, _, _, _) => []
      case Inner(_, _, _, _, a, b) => NodesAtLevel(a, level - 1) + NodesAtLevel(b, level - 1)
  }

  /** A negative level never reaches 0 on the way down: nothing is listed. */
  lemma {:induction false} NegativeLevelEmpty(t: Tree, level: int)
    requires level < 0
    ensures NodesAtLevel(t, level) == []
  {
    if t.Inner? {
      NegativeLevelEmpty(t.a, level - 1);
      NegativeLevelEmpty(t.b, level - 1);
    }
  }

  /** The children of the inner nodes of a list, in order. */
  function Children(s: seq<Tree>): seq<Tree> {
    if s == [] then []
    else (if s[0].Inner? then [s[0].a, s[0].b] else []) + Children(s[1..])
  }

  lemma {:induction false} ChildrenAppend(s: seq<Tree>, u: seq<Tree>)
    ensures Children(s + u) == Children(s) + Children(u)
  {
    if s == [] {
      assert s + u == u;
    } else {
      assert (s + u)[1..] == s[1..] + u;
      ChildrenAppend(s[1..], u);
    }
  }

  /** Level by level: the nodes one level down are the children of the
      nodes at this level, in order. */
  lemma {:induction false} NodesAtNextLevel(t: Tree, level: nat)
    ensures NodesAtLevel(t, level + 1) == Children(NodesAtLevel(t, level))
  {
    if level == 0 {
      assert Children([t]) == (if t.Inner? then [t.a, t.b] else []) + Children([]);
    } else if t.Inner? {
      NodesAtNextLevel(t.a, level - 1);
      NodesAtNextLevel(t.b, level - 1);
      ChildrenAppend(NodesAtLevel(t.a, level - 1), NodesAtLevel(t.b, level - 1));
    }
  }
}
