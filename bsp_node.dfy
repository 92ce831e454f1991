/** The dungeon's partition tree as the generator builds it: nodes that own a
    cell, hold the box around their room(s), and get two children when they
    are split. Each node's `model` is the value of the subtree it roots, and
    every operation is specified by the function on that value in BspTree. */
module BspDungeon {
  import opened Vectors
  import opened Wrappers
  import opened BspCells
  import opened BspTree

  class Node {
    const cell: Bounds
    var room: Bounds
    var splitAxis: Axis
    var childA: Node?
    var childB: Node?
    var isConnected: bool

    ghost var model: Tree
    ghost var Repr: set<Node>

    /** The children are set together, own disjoint parts of the tree, and
        the fields agree with the model. */
    ghost predicate Valid()
      reads this, Repr
      ensures Valid() ==> this in Repr
      decreases Repr
    {
      && this in Repr
      && model.cell == cell && model.room == room
      && model.axis == splitAxis && model.connected == isConnected
      && (childA == null <==> childB == null)
      && (childA == null ==> model.Leaf?)
      && (childA != null ==>
            && childA in Repr && childB in Repr
            && childA.Repr <= Repr && childB.Repr <= Repr
            && this !in childA.Repr && this !in childB.Repr
            && childA.Repr !! childB.Repr
            && childA.Valid() && childB.Valid()
            && model.Inner? && model.a == childA.model && model.b == childB.model)
    }

    constructor (data: Bounds)
      ensures Valid() && fresh(Repr)
      ensures model == NewLeaf(data)
    {
      cell := data;
      room := ZeroBounds;
      splitAxis := X;
      childA := null;
      childB := null;
      isConnected := false;
      model := NewLeaf(data);
      Repr := {this};
    }

    /** A node with a missing child counts as a leaf. */
    function IsLeafNode(): (leaf: bool)
      reads this, Repr
      ensures Valid() ==> (leaf <==> model.Leaf?)
    {
      childA == null || childB == null
    }

    /** Splits the cell along the axis picked by `value` at the point drawn
        by `u`; the halves become the children only if both are valid. */
    method SplitCell(value: real, u: real)
      requires Valid() && childA == null
      modifies this
      ensures Valid() && fresh(Repr - old(Repr))
      ensures model == SplitLeaf(old(model), value, u)
    {
      var axis := AxisOf(value);
      var splitPoint := SplitPoint(cell, axis, u);
      var cellA := new Node(HalfA(cell, axis, splitPoint));
      var cellB := new Node(HalfB(cell, axis, splitPoint));
      if IsValidCell(cellB.cell) && IsValidCell(cellA.cell) {
        splitAxis := axis;
        childA := cellA;
        childB := cellB;
        Repr := Repr + cellA.Repr + cellB.Repr;
        model := Inner(model.cell, model.room, axis, model.connected, cellA.model, cellB.model);
      }
    }

    /** Splits a valid cell without children, then its children, drawing
        from `rand` from index k on; returns the index after the last draw. */
    method SplitCellRecursively(rand: nat -> real, k: nat) returns (next: nat)
      requires Valid() && Wf(model)
      modifies Repr
      ensures Valid() && fresh(Repr - old(Repr))
      ensures (model, next) == SplitRec(old(model), rand, k)
      decreases Measure(cell), 1
    {
      if !IsValidCell(cell) {
        return k;
      }
      next := k;
      if childA == null && childA == null {
        SplitCell(rand(next), rand(next + 1));
        next := next + 2;
      }
      if childA != null {
        ChildMeasure(cell, splitAxis, childA.cell, childB.cell);
        ghost var m := model;
        next := SplitChildA(rand, next);
        WfReplaced(m, model.a, model.b);
      }
      if childB != null {
        ChildMeasure(cell, splitAxis, childA.cell, childB.cell);
        next := SplitChildB(rand, next);
      }
    }

    /** SplitCellRecursively on child A, recording its new subtree. */
    method SplitChildA(rand: nat -> real, k: nat) returns (next: nat)
      requires Valid() && childA != null && Wf(childA.model) && Measure(childA.cell) < Measure(cell)
      modifies Repr
      ensures Valid() && fresh(Repr - old(Repr))
      ensures childA == old(childA) && childB == old(childB)
      ensures (childA.model, next) == SplitRec(old(childA.model), rand, k)
      ensures model == old(model).(a := childA.model)
      decreases Measure(cell), 0
    {
      next := childA.SplitCellRecursively(rand, k);
      Repr := Repr + childA.Repr;
      model := model.(a := childA.model);
    }

    /** SplitCellRecursively on child B, recording its new subtree. */
    method SplitChildB(rand: nat -> real, k: nat) returns (next: nat)
      requires Valid() && childB != null && Wf(childB.model) && Measure(childB.cell) < Measure(cell)
      modifies Repr
      ensures Valid() && fresh(Repr - old(Repr))
      ensures childA == old(childA) && childB == old(childB)
      ensures (childB.model, next) == SplitRec(old(childB.model), rand, k)
      ensures model == old(model).(b := childB.model)
      decreases Measure(cell), 0
    {
      next := childB.SplitCellRecursively(rand, k);
      Repr := Repr + childB.Repr;
      model := model.(b := childB.model);
    }

    /** Places a room in the cell with the four draws of GenerateRoom. */
    method GenerateRoom(u1: real, u2: real, u3: real, u4: real)
      requires Valid()
      modifies this
      ensures Valid() && Repr == old(Repr)
      ensures room == RoomIn(cell, u1, u2, u3, u4)
      ensures model == old(model).(room := room)
    {
      room := RoomIn(cell, u1, u2, u3, u4);
      model := model.(room := room);
    }

    /** Generates the children's rooms, then this node's if it is a leaf. */
    method GenerateRoomsRecursively(rand: nat -> real, k: nat) returns (next: nat)
      requires Valid()
      modifies Repr
      ensures Valid() && Repr == old(Repr)
      ensures (model, next) == GenRooms(old(model), rand, k)
      decreases Repr, 1
    {
      next := k;
      if childA != null {
        next := GenerateRoomsInChildA(rand, next);
      }
      if childB != null {
        next := GenerateRoomsInChildB(rand, next);
      }
      if IsLeafNode() {
        GenerateRoom(rand(next), rand(next + 1), rand(next + 2), rand(next + 3));
        next := next + 4;
      }
    }

    /** GenerateRoomsRecursively on child A, recording its new subtree. */
    method GenerateRoomsInChildA(rand: nat -> real, k: nat) returns (next: nat)
      requires Valid() && childA != null
      modifies Repr
      ensures Valid() && Repr == old(Repr)
      ensures childA == old(childA) && childB == old(childB)
      ensures model == old(model).(a := GenRooms(old(model).a, rand, k).0)
      ensures next == GenRooms(old(model).a, rand, k).1
      decreases Repr, 0
    {
      next := childA.GenerateRoomsRecursively(rand, k);
      model := model.(a := childA.model);
    }

    /** GenerateRoomsRecursively on child B, recording its new subtree. */
    method GenerateRoomsInChildB(rand: nat -> real, k: nat) returns (next: nat)
      requires Valid() && childB != null
      modifies Repr
      ensures Valid() && Repr == old(Repr)
      ensures childA == old(childA) && childB == old(childB)
      ensures model == old(model).(b := GenRooms(old(model).b, rand, k).0)
      ensures next == GenRooms(old(model).b, rand, k).1
      decreases Repr, 0
    {
      next := childB.GenerateRoomsRecursively(rand, k);
      model := model.(b := childB.model);
    }

    /** The coordinate across the split at which the hallway between the two
        children's rooms is placed, if their ranges overlap; `value` is the
        draw along the overlap. */
    method ConnectChildRooms(value: real) returns (overlapPos: Option<real>)
      requires Valid() && childA != null
      ensures overlapPos == HallwayPosition(splitAxis, childA.room, childB.room, value)
    {
      var leftAABB := childA.room;
      var rightAABB := childB.room;
      var xAxis := if splitAxis == X then Vec3(0.0, 0.0, 1.0) else Vec3(1.0, 0.0, 0.0);
      var leftRange := (Dot(leftAABB.min, xAxis), Dot(leftAABB.max, xAxis));
      var rightRange := (Dot(rightAABB.min, xAxis), Dot(rightAABB.max, xAxis));
      var overlapRange := (MaxR(leftRange.0, rightRange.0), MinR(leftRange.1, rightRange.1));
      if overlapRange.0 < overlapRange.1 {
        overlapPos := Some(RangeDraw(overlapRange.0, overlapRange.1, value));
      } else {
        overlapPos := None;
      }
    }

    /** One pass of connecting: returns whether anything changed, and the
        index after the draws made for hallway positions. */
    method ConnectRoomsRecursively(rand: nat -> real, k: nat) returns (changed: bool, next: nat)
      requires Valid()
      modifies Repr
      ensures Valid() && Repr == old(Repr)
      ensures Connect(old(model), rand, k) == Pass(model, changed, next)
      decreases Repr, 1
    {
      if isConnected || IsLeafNode() {
        return false, k;
      }
      var childUpdated := false;
      next := k;
      if childA != null {
        var c;
        c, next := ConnectChildA(rand, next);
        childUpdated := childUpdated || c;
      }
      if childB != null {
        var c;
        c, next := ConnectChildB(rand, next);
        childUpdated := childUpdated || c;
      }
      if childUpdated {
        return true, next;
      }
      var overlapPos := ConnectChildRooms(rand(next));
      if overlapPos.Some? {
        next := next + 1;
      }
      isConnected := true;
      model := model.(connected := true);
      changed := true;
    }

    /** ConnectRoomsRecursively on child A, recording its new subtree. */
    method ConnectChildA(rand: nat -> real, k: nat) returns (changed: bool, next: nat)
      requires Valid() && childA != null
      modifies Repr
      ensures Valid() && Repr == old(Repr)
      ensures childA == old(childA) && childB == old(childB)
      ensures model == old(model).(a := Connect(old(model).a, rand, k).tree)
      ensures changed == Connect(old(model).a, rand, k).changed
      ensures next == Connect(old(model).a, rand, k).next
      decreases Repr, 0
    {
      changed, next := childA.ConnectRoomsRecursively(rand, k);
      model := model.(a := childA.model);
    }

    /** ConnectRoomsRecursively on child B, recording its new subtree. */
    method ConnectChildB(rand: nat -> real, k: nat) returns (changed: bool, next: nat)
      requires Valid() && childB != null
      modifies Repr
      ensures Valid() && Repr == old(Repr)
      ensures childA == old(childA) && childB == old(childB)
      ensures model == old(model).(b := Connect(old(model).b, rand, k).tree)
      ensures changed == Connect(old(model).b, rand, k).changed
      ensures next == Connect(old(model).b, rand, k).next
      decreases Repr, 0
    {
      changed, next := childB.ConnectRoomsRecursively(rand, k);
      model := model.(b := childB.model);
    }

    /** Grows the room to enclose child A's room and then child B's; an
        empty room takes the child's room instead. */
    method UpdateRoomBounds()
      requires Valid()
      modifies this
      ensures Valid() && Repr == old(Repr)
      ensures model == UpdateRoom(old(model))
    {
      var r := room;
      if childA != null {
        if r == ZeroBounds {
          r := childA.room;
        } else {
          r := Encapsulate(r, childA.room);
        }
      }
      if childB != null {
        if r == ZeroBounds {
          r := childB.room;
        } else {
          r := Encapsulate(r, childB.room);
        }
      }
      room := r;
      model := model.(room := room);
    }

    /** Updates the children's room bounds, then this node's. */
    method UpdateRoomBoundsRecursively()
      requires Valid()
      modifies Repr
      ensures Valid() && Repr == old(Repr)
      ensures model == UpdateRooms(old(model))
      decreases Repr, 1
    {
      if childA != null {
        UpdateChildA();
      }
      if childB != null {
        UpdateChildB();
      }
      UpdateRoomBounds();
    }

    /** UpdateRoomBoundsRecursively on child A, recording its new subtree. */
    method UpdateChildA()
      requires Valid() && childA != null
      modifies Repr
      ensures Valid() && Repr == old(Repr)
      ensures childA == old(childA) && childB == old(childB)
      ensures model == old(model).(a := UpdateRooms(old(model).a))
      decreases Repr, 0
    {
      childA.UpdateRoomBoundsRecursively();
      model := model.(a := childA.model);
    }

    /** UpdateRoomBoundsRecursively on child B, recording its new subtree. */
    method UpdateChildB()
      requires Valid() && childB != null
      modifies Repr
      ensures Valid() && Repr == old(Repr)
      ensures childA == old(childA) && childB == old(childB)
      ensures model == old(model).(b := UpdateRooms(old(model).b))
      decreases Repr, 0
    {
      childB.UpdateRoomBoundsRecursively();
      model := model.(b := childB.model);
    }

    /** The leaf nodes of this subtree, A-subtree first. */
    ghost function LeafNodes(): seq<Node>
      requires Valid()
      reads this, Repr
      decreases Repr
    {
      if IsLeafNode() then [this] else childA.LeafNodes() + childB.LeafNodes()
    }

    /** The leaf nodes are nodes of this subtree whose models are the leaves
        of the model, in order. */
    lemma {:induction false} LeafNodesModel()
      requires Valid()
      ensures |LeafNodes()| == |Leaves(model)|
      ensures forall i :: 0 <= i < |LeafNodes()| ==>
                LeafNodes()[i] in Repr && LeafNodes()[i].model == Leaves(model)[i]
      decreases Repr
    {
      if !IsLeafNode() {
        childA.LeafNodesModel();
        childB.LeafNodesModel();
      }
    }

    /** Appends the leaf nodes to `nodes`. */
    method GetLeafNodes(nodes: NodeList)
      requires Valid()
      modifies nodes
      ensures nodes.items == old(nodes.items) + LeafNodes()
      decreases Repr
    {
      if IsLeafNode() {
        nodes.Add(this);
      } else {
        ghost var before := nodes.items;
        if childA != null {
          childA.GetLeafNodes(nodes);
        }
        if childB != null {
          childB.GetLeafNodes(nodes);
        }
        AppendAssoc(before, childA.LeafNodes(), childB.LeafNodes());
      }
    }

    /** The nodes `level` levels below this one, A-subtree first. */
    ghost function NodesAtLevelNodes(level: int): seq<Node>
      requires Valid()
      reads this, Repr
      decreases Repr
    {
      if level == 0 then [this]
      else if IsLeafNode() then []
      else childA.NodesAtLevelNodes(level - 1) + childB.NodesAtLevelNodes(level - 1)
    }

    /** The listed nodes are nodes of this subtree whose models are the
        model's nodes at that level, in order. */
    lemma {:induction false} NodesAtLevelModel(level: int)
      requires Valid()
      ensures |NodesAtLevelNodes(level)| == |NodesAtLevel(model, level)|
      ensures forall i :: 0 <= i < |NodesAtLevelNodes(level)| ==>
                NodesAtLevelNodes(level)[i] in Repr
                && NodesAtLevelNodes(level)[i].model == NodesAtLevel(model, level)[i]
      decreases Repr
    {
      if level != 0 && !IsLeafNode() {
        childA.NodesAtLevelModel(level - 1);
        childB.NodesAtLevelModel(level - 1);
      }
    }

    /** Appends the nodes at depth `level` below this one to `nodes`. */
    method GetNodesAtLevel(nodes: NodeList, level: int)
      requires Valid()
      modifies nodes
      ensures nodes.items == old(nodes.items) + NodesAtLevelNodes(level)
      decreases Repr
    {
      if level == 0 {
        nodes.Add(this);
      } else {
        ghost var before := nodes.items;
        if childA != null {
          childA.GetNodesAtLevel(nodes, level - 1);
        }
        ghost var mid := nodes.items;
        if childB != null {
          childB.GetNodesAtLevel(nodes, level - 1);
        }
        if IsLeafNode() {
          assert before + NodesAtLevelNodes(level) == before;
        } else {
          assert mid == before + childA.NodesAtLevelNodes(level - 1);
          assert nodes.items == mid + childB.NodesAtLevelNodes(level - 1);
          AppendAssoc(before, childA.NodesAtLevelNodes(level - 1), childB.NodesAtLevelNodes(level - 1));
        }
      }
    }
  }

  /** A caller-owned list of nodes that traversals append to. */
  class NodeList {
    var items: seq<Node>

    constructor ()
      ensures items == []
    {
      items := [];
    }

    method Add(n: Node)
      modifies this
      ensures items == old(items) + [n]
    {
      items := items + [n];
    }
  }
}
