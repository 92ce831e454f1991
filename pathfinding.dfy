/** Turning the result of a graph search into a list of positions: the search
    records, for each discovered node, the node it was reached from; the path
    is read back from the goal to the start and then reversed. The search
    itself and the mapping of world points to graph nodes are inputs here. */
module PathFinding {
  import opened Vectors
  import opened Wrappers

  /** A graph node. Nodes are compared by reference, as dictionary keys are. */
  class Node {
    const position: Vec3

    constructor (position: Vec3)
      ensures this.position == position
    {
      this.position := position;
    }
  }

  /** A list of positions that is appended to, cleared and reversed in place. */
  class PathList {
    var items: seq<Vec3>

    constructor ()
      ensures items == []
    {
      items := [];
    }

    method Add(p: Vec3)
      modifies this
      ensures items == old(items) + [p]
    {
      items := items + [p];
    }

    method Clear()
      modifies this
      ensures items == []
    {
      items := [];
    }

    method Reverse()
      modifies this
      ensures items == Reversed(old(items))
    {
      items := Reversed(items);
    }
  }

  function Reversed<T>(s: seq<T>): (r: seq<T>)
    ensures |r| == |s|
    ensures forall i :: 0 <= i < |s| ==> r[i] == s[|s| - 1 - i]
  {
    if s == [] then [] else Reversed(s[1..]) + [s[0]]
  }

  lemma ReversedInvolutive<T>(s: seq<T>)
    ensures Reversed(Reversed(s)) == s
  {
  }

  /** The node reached from `from` by following the recorded predecessor k
      times, if every step has a recorded predecessor. */
  function Walk(cameFrom: map<Node, Node>, from: Node, k: nat): Option<Node>
  {
    if k == 0 then Some(from)
    else match Walk(cameFrom, from, k - 1)
      case None => None
      case Some(m) => if m in cameFrom then Some(cameFrom[m]) else None
  }

  /** Following predecessors from `endPoint` reaches `startPoint` for the first
      time after exactly `hops` steps, every node before it having a recorded
      predecessor. This is what the search guarantees when it finds a path;
      without it the read-back fails on a missing key or never ends. */
  predicate ChainReaches(cameFrom: map<Node, Node>, endPoint: Node, startPoint: Node, hops: nat)
  {
    && Walk(cameFrom, endPoint, hops) == Some(startPoint)
    && forall k :: 0 <= k < hops ==>
         Walk(cameFrom, endPoint, k).Some?
         && Walk(cameFrom, endPoint, k).value != startPoint
         && Walk(cameFrom, endPoint, k).value in cameFrom
  }

  /** One step of the read-back: a node on the walk that is not the start has
      a recorded predecessor, and that predecessor is the next node of the walk. */
  lemma WalkStep(cameFrom: map<Node, Node>, endPoint: Node, startPoint: Node, hops: nat,
                 k: nat, current: Node)
    requires ChainReaches(cameFrom, endPoint, startPoint, hops)
    requires k <= hops && Walk(cameFrom, endPoint, k) == Some(current) && current != startPoint
    ensures k < hops && current in cameFrom
    ensures Walk(cameFrom, endPoint, k + 1) == Some(cameFrom[current])
  {
  }

  /** The walk meets the start only after all `hops` steps. */
  lemma WalkStops(cameFrom: map<Node, Node>, endPoint: Node, startPoint: Node, hops: nat, k: nat)
    requires ChainReaches(cameFrom, endPoint, startPoint, hops)
    requires k <= hops && Walk(cameFrom, endPoint, k) == Some(startPoint)
    ensures k == hops
  {
  }

  /** The first n nodes of the walk back from `endPoint`. */
  function Trail(cameFrom: map<Node, Node>, endPoint: Node, startPoint: Node, hops: nat, n: nat): (t: seq<Node>)
    requires ChainReaches(cameFrom, endPoint, startPoint, hops) && n <= hops + 1
    ensures |t| == n
  {
    if n == 0 then [] else Trail(cameFrom, endPoint, startPoint, hops, n - 1) + [Walk(cameFrom, endPoint, n - 1).value]
  }

  /** Entry k of the trail is the node k steps back from `endPoint`. */
  lemma {:induction false} TrailIsWalk(cameFrom: map<Node, Node>, endPoint: Node, startPoint: Node, hops: nat, n: nat)
    requires ChainReaches(cameFrom, endPoint, startPoint, hops) && n <= hops + 1
    ensures var t := Trail(cameFrom, endPoint, startPoint, hops, n);
      forall k :: 0 <= k < n ==> Walk(cameFrom, endPoint, k) == Some(t[k])
  {
    if n > 0 {
      TrailIsWalk(cameFrom, endPoint, startPoint, hops, n - 1);
    }
  }

  function Positions(nodes: seq<Node>): (ps: seq<Vec3>)
    ensures |ps| == |nodes|
    ensures forall k :: 0 <= k < |nodes| ==> ps[k] == nodes[k].position
  {
    if nodes == [] then [] else Positions(nodes[..|nodes| - 1]) + [nodes[|nodes| - 1].position]
  }

  /** Appending one node appends its position. */
  lemma PositionsSnoc(nodes: seq<Node>, n: Node)
    ensures Positions(nodes + [n]) == Positions(nodes) + [n.position]
  {
    assert (nodes + [n])[..|nodes|] == nodes;
  }

  /** Reading positions commutes with reversal. */
  lemma {:induction false} PositionsReversed(nodes: seq<Node>)
    ensures Positions(Reversed(nodes)) == Reversed(Positions(nodes))
  {
    var l, r := Positions(Reversed(nodes)), Reversed(Positions(nodes));
    assert |l| == |r|;
    forall i | 0 <= i < |l|
      ensures l[i] == r[i]
    {
      assert l[i] == Reversed(nodes)[i].position;
    }
  }

  /** Each node of the sequence after the first was reached from the one
      before it. */
  predicate FollowsCameFrom(cameFrom: map<Node, Node>, p: seq<Node>)
  {
    forall k :: 0 < k < |p| ==> p[k] in cameFrom && cameFrom[p[k]] == p[k - 1]
  }

  /** Extending the trail by the node just reached extends its positions. */
  lemma TrailPositionsSnoc(cameFrom: map<Node, Node>, endPoint: Node, startPoint: Node, hops: nat,
                           k: nat, current: Node)
    requires ChainReaches(cameFrom, endPoint, startPoint, hops)
    requires k <= hops && Walk(cameFrom, endPoint, k) == Some(current)
    ensures Positions(Trail(cameFrom, endPoint, startPoint, hops, k + 1))
         == Positions(Trail(cameFrom, endPoint, startPoint, hops, k)) + [current.position]
  {
    assert Trail(cameFrom, endPoint, startPoint, hops, k + 1)
        == Trail(cameFrom, endPoint, startPoint, hops, k) + [current];
    PositionsSnoc(Trail(cameFrom, endPoint, startPoint, hops, k), current);
  }

  /** The nodes of the reconstructed path, start first and goal last. */
  function PathNodes(cameFrom: map<Node, Node>, startPoint: Node, endPoint: Node, hops: nat): seq<Node>
    requires ChainReaches(cameFrom, endPoint, startPoint, hops)
  {
    Reversed(Trail(cameFrom, endPoint, startPoint, hops, hops + 1))
  }

  /** The reconstructed path has one node more than there are hops, begins at
      the start, ends at the goal, and each node is the recorded predecessor of
      the node after it. */
  lemma PathNodesShape(cameFrom: map<Node, Node>, startPoint: Node, endPoint: Node, hops: nat)
    requires ChainReaches(cameFrom, endPoint, startPoint, hops)
    ensures var p := PathNodes(cameFrom, startPoint, endPoint, hops);
      && |p| == hops + 1
      && p[0] == startPoint
      && p[hops] == endPoint
      && FollowsCameFrom(cameFrom, p)
  {
    var t := Trail(cameFrom, endPoint, startPoint, hops, hops + 1);
    var p := PathNodes(cameFrom, startPoint, endPoint, hops);
    TrailIsWalk(cameFrom, endPoint, startPoint, hops, hops + 1);
    forall k | 0 < k < |p|
      ensures p[k] in cameFrom && cameFrom[p[k]] == p[k - 1]
    {
      var j := hops - k;
      assert p[k] == t[j] && p[k - 1] == t[j + 1];
      assert Walk(cameFrom, endPoint, j) == Some(t[j]);
      assert Walk(cameFrom, endPoint, j + 1) == Some(t[j + 1]);
    }
  }

  /** The path appends the positions from the goal back to the start to what
      the list held, then reverses the whole list. `cameFrom` is a value and
      cannot be changed. */
  method ReconstructPath(cameFrom: map<Node, Node>, startPoint: Node, endPoint: Node,
                         path: PathList, ghost hops: nat)
    requires ChainReaches(cameFrom, endPoint, startPoint, hops)
    modifies path
    ensures path.items
         == Reversed(old(path.items) + Positions(Trail(cameFrom, endPoint, startPoint, hops, hops + 1)))
  {
    var current := endPoint;
    ghost var k := 0;
    ghost var before := path.items;
    while current != startPoint
      invariant k <= hops
      invariant Walk(cameFrom, endPoint, k) == Some(current)
      invariant path.items == before + Positions(Trail(cameFrom, endPoint, startPoint, hops, k))
      decreases hops - k
    {
      WalkStep(cameFrom, endPoint, startPoint, hops, k, current);
      TrailPositionsSnoc(cameFrom, endPoint, startPoint, hops, k, current);
      AppendAssoc(before, Positions(Trail(cameFrom, endPoint, startPoint, hops, k)), [current.position]);
      path.Add(current.position);
      current := cameFrom[current];
      k := k + 1;
    }
    WalkStops(cameFrom, endPoint, startPoint, hops, k);
    TrailPositionsSnoc(cameFrom, endPoint, startPoint, hops, k, startPoint);
    AppendAssoc(before, Positions(Trail(cameFrom, endPoint, startPoint, hops, k)), [startPoint.position]);
    path.Add(startPoint.position);
    path.Reverse();
  }

  /** The bookkeeping around a search: no graph means nothing happens; otherwise
      the path is cleared, and it stays empty when start and goal are the same
      node, else it is the reconstructed path. `hasGraph`, the two nodes the
      graph picks for the start and goal points, and the predecessor map the
      chosen search fills are inputs. */
  method Run(hasGraph: bool, start: Node, goal: Node, cameFrom: map<Node, Node>,
             path: PathList, ghost hops: nat)
    requires hasGraph && start != goal ==> ChainReaches(cameFrom, goal, start, hops)
    modifies path
    ensures !hasGraph ==> path.items == old(path.items)
    ensures hasGraph && start == goal ==> path.items == []
    ensures hasGraph && start != goal ==>
              path.items == Positions(PathNodes(cameFrom, start, goal, hops))
  {
    if !hasGraph {
      return;
    }
    path.Clear();
    if start == goal {
      return;
    }
    ReconstructPath(cameFrom, start, goal, path, hops);
    PositionsReversed(Trail(cameFrom, goal, start, hops, hops + 1));
  }
}
