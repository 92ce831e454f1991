/** The FABRIK inverse-kinematics solver of the second assignment, modelled
    structurally. A chain of joints (positions and rotations) is pulled toward
    a target: when the target is out of reach the chain is stretched straight
    toward it, otherwise a fixed number of end-to-root and root-to-end passes
    move each joint toward its neighbour, with an optional cone limit at the
    inner joints. Lengths, angles, projections, reflections, normalisation,
    the tangent, floating-point division and the construction of a rotation
    from three axes are supplied as uninterpreted operations. */
module Fabrik {
  import opened Vectors

  datatype Quaternion = Quaternion(x: real, y: real, z: real, w: real)

  /** The engine operations the solver calls and whose definitions the model
      does not reproduce. `div` is single-precision division, whose value for a
      zero divisor (an infinity or NaN) is not modelled; `tanDeg(a)` is the
      tangent of a degrees; `frame(right, up, forward)` is the rotation of the
      4x4 matrix with those columns. */
  datatype Geometry = Geometry(
    magnitude: Vec3 -> real,
    angle: VecPairTo<real>,
    project: VecPairTo<Vec3>,
    reflect: VecPairTo<Vec3>,
    normalized: Vec3 -> Vec3,
    tanDeg: real -> real,
    frame: FrameOf,
    div: RealDivision)

  /** An operation on two vectors. */
  type VecPairTo<T> = (Vec3, Vec3) -> T

  /** A rotation built from three axes. */
  type FrameOf = (Vec3, Vec3, Vec3) -> Quaternion

  /** A division of reals. */
  type RealDivision = (real, real) -> real

  /** The pose of the target transform. */
  datatype TargetPose = TargetPose(position: Vec3, rotation: Quaternion)

  const Up: Vec3 := Vec3(0.0, 1.0, 0.0)

  function Cross(a: Vec3, b: Vec3): Vec3 {
    Vec3(a.y * b.z - a.z * b.y, a.z * b.x - a.x * b.z, a.x * b.y - a.y * b.x)
  }

  /** (1 - weight) a + weight t. */
  function Lerp(a: Vec3, t: Vec3, weight: real): Vec3 {
    Add(Scale(1.0 - weight, a), Scale(weight, t))
  }

  /** The interpolated point lies on the line from a toward t: it is a moved by
      weight times (t - a). */
  lemma LerpOnRay(a: Vec3, t: Vec3, weight: real)
    ensures Sub(Lerp(a, t, weight), a) == Scale(weight, Sub(t, a))
  {
    LerpMinusStart(a, t, weight);
    ScaleSub(weight, t, a);
  }

  /** Taking a away from the interpolated point leaves weight t - weight a. */
  lemma LerpMinusStart(a: Vec3, t: Vec3, weight: real)
    ensures Sub(Lerp(a, t, weight), a) == Sub(Scale(weight, t), Scale(weight, a))
  {
  }

  /** weight 0 gives a and weight 1 gives t. */
  lemma LerpEnds(a: Vec3, t: Vec3)
    ensures Lerp(a, t, 0.0) == a && Lerp(a, t, 1.0) == t
  {
  }

  /** Keeps the next joint inside a cone around the direction of the previous
      link: when the angle between the links is below the limit the proposed
      point is returned as it is; otherwise it is moved onto the cone's rim. */
  function EnforceConstraints(g: Geometry, rotationLimit: real, p: Vec3, pPrev: Vec3, pNext: Vec3): (r: Vec3)
    ensures g.angle(Sub(p, pPrev), Sub(pNext, p)) < rotationLimit ==> r == pNext
  {
    var l := Sub(p, pPrev);
    var lNext := Sub(pNext, p);
    if g.angle(l, lNext) < rotationLimit then pNext
    else
      var o0 := g.project(lNext, l);
      var flip := Dot(o0, l) < 0.0 && rotationLimit <= 90.0;
      var o := if flip then Neg(o0) else o0;
      var lNextReflected := if flip then g.reflect(lNext, o) else lNext;
      var pO := Add(p, o);
      var radius := AbsR(g.magnitude(o) * g.tanDeg(rotationLimit));
      var d := Sub(Add(p, lNextReflected), pO);
      Add(pO, Scale(radius, g.normalized(d)))
  }

  /** The rotation of a joint whose link runs from a to b: the link direction
      becomes the right axis, completed to a frame with the world up axis. */
  function FrameRotation(g: Geometry, a: Vec3, b: Vec3): Quaternion {
    var right := g.normalized(Sub(b, a));
    var forward := g.normalized(Cross(right, Up));
    var up := g.normalized(Cross(forward, right));
    g.frame(right, up, forward)
  }

  /** The rotations of all joints but the last, each from its own link. */
  function Frames(g: Geometry, p: seq<Vec3>): seq<Quaternion>
    requires |p| >= 1
  {
    seq(|p| - 1, i requires 0 <= i < |p| - 1 => FrameRotation(g, p[i], p[i + 1]))
  }

  /** Sum of the link lengths, accumulated front to back. */
  function Sum(s: seq<real>): real {
    if s == [] then 0.0 else Sum(s[..|s| - 1]) + s[|s| - 1]
  }

  /** With non-negative link lengths the chain length is non-negative and at
      least any single link. */
  lemma {:induction false} SumBounds(s: seq<real>)
    requires forall i :: 0 <= i < |s| ==> s[i] >= 0.0
    ensures Sum(s) >= 0.0
    ensures forall i :: 0 <= i < |s| ==> s[i] <= Sum(s)
  {
    if s != [] {
      SumBounds(s[..|s| - 1]);
      assert forall i :: 0 <= i < |s| - 1 ==> s[..|s| - 1][i] == s[i];
    }
  }

  // ----- the out-of-reach regime -------------------------------------------

  /** Step i of the stretch: joint i+1 is placed on the line from joint i to
      the target, at link length i divided by the distance to the target. */
  function StretchStep(g: Geometry, d: seq<real>, p: seq<Vec3>, t: Vec3, i: nat): seq<Vec3>
    requires |d| == |p| - 1 && i < |d|
  {
    var ri := g.magnitude(Sub(p[i], t));
    var lambdai := g.div(d[i], ri);
    p[i + 1 := Lerp(p[i], t, lambdai)]
  }

  /** The first m steps of the stretch. Only joints 1..m are written. */
  function StretchSteps(g: Geometry, d: seq<real>, p: seq<Vec3>, t: Vec3, m: nat): (r: seq<Vec3>)
    requires |d| == |p| - 1 && m <= |d|
    ensures |r| == |p|
  {
    if m == 0 then p else StretchStep(g, d, StretchSteps(g, d, p, t, m - 1), t, m - 1)
  }

  /** The first m steps of the stretch write only joints 1..m. */
  lemma {:induction false} StretchStepsFrame(g: Geometry, d: seq<real>, p: seq<Vec3>, t: Vec3, m: nat)
    requires |d| == |p| - 1 && m <= |d|
    ensures var r := StretchSteps(g, d, p, t, m);
      forall j :: 0 <= j < |p| && (j == 0 || j > m) ==> r[j] == p[j]
  {
    if m > 0 {
      StretchStepsFrame(g, d, p, t, m - 1);
    }
  }

  /** Each of the joints 1..m lies on the ray from the joint before it toward
      t, moved from that joint by lambda_i (t - q_i), lambda_i being link length
      i over the distance from joint i to t. */
  predicate OnRay(g: Geometry, d: seq<real>, q: seq<Vec3>, t: Vec3, m: nat)
    requires |d| == |q| - 1 && m <= |d|
  {
    forall i :: 0 <= i < m ==>
      Sub(q[i + 1], q[i]) == Scale(g.div(d[i], g.magnitude(Sub(q[i], t))), Sub(t, q[i]))
  }

  /** After the stretch every joint but the root lies on the ray from its
      predecessor toward the target. */
  lemma {:induction false} StretchOnRay(g: Geometry, d: seq<real>, p: seq<Vec3>, t: Vec3, m: nat)
    requires |d| == |p| - 1 && m <= |d|
    ensures OnRay(g, d, StretchSteps(g, d, p, t, m), t, m)
  {
    if m > 0 {
      var q0 := StretchSteps(g, d, p, t, m - 1);
      var q := StretchSteps(g, d, p, t, m);
      StretchOnRay(g, d, p, t, m - 1);
      LerpOnRay(q0[m - 1], t, g.div(d[m - 1], g.magnitude(Sub(q0[m - 1], t))));
      assert forall i :: 0 <= i <= m - 1 ==> q[i] == q0[i];
    }
  }

  // ----- the reachable regime ----------------------------------------------

  /** Step i of the end-to-root pass: joint i is moved toward its proposed
      place from joint i+1. At the joint next to the end no cone limit is
      applied. */
  function ForwardStep(g: Geometry, rotationLimit: real, d: seq<real>, p: seq<Vec3>, i: nat): seq<Vec3>
    requires |d| == |p| - 1 && i < |d|
  {
    var limitTarget :=
      if i != |p| - 2 then EnforceConstraints(g, rotationLimit, p[i + 1], p[i + 2], p[i]) else p[i];
    var ri := g.magnitude(Sub(p[i + 1], limitTarget));
    var lambdai := g.div(d[i], ri);
    p[i := Lerp(p[i + 1], limitTarget, lambdai)]
  }

  /** The first m steps of the end-to-root pass, at indices n-2 down to n-1-m.
      The end joint and the joints below n-1-m are not written. */
  function ForwardSteps(g: Geometry, rotationLimit: real, d: seq<real>, p: seq<Vec3>, m: nat): (r: seq<Vec3>)
    requires |d| == |p| - 1 && m <= |d|
    ensures |r| == |p|
  {
    if m == 0 then p
    else ForwardStep(g, rotationLimit, d, ForwardSteps(g, rotationLimit, d, p, m - 1), |p| - 1 - m)
  }

  /** The first m steps of the end-to-root pass write only joints n-1-m..n-2:
      the end joint and the joints below are untouched. */
  lemma {:induction false} ForwardStepsFrame(g: Geometry, rotationLimit: real, d: seq<real>, p: seq<Vec3>, m: nat)
    requires |d| == |p| - 1 && m <= |d|
    ensures var r := ForwardSteps(g, rotationLimit, d, p, m);
      forall j :: 0 <= j < |p| && (j < |p| - 1 - m || j == |p| - 1) ==> r[j] == p[j]
  {
    if m > 0 {
      ForwardStepsFrame(g, rotationLimit, d, p, m - 1);
    }
  }

  /** Step i of the root-to-end pass: joint i+1 is moved toward its proposed
      place from joint i. At the root no cone limit is applied. */
  function BackwardStep(g: Geometry, rotationLimit: real, d: seq<real>, p: seq<Vec3>, i: nat): seq<Vec3>
    requires |d| == |p| - 1 && i < |d|
  {
    var limitTarget :=
      if i != 0 then EnforceConstraints(g, rotationLimit, p[i], p[i - 1], p[i + 1]) else p[i + 1];
    var ri := g.magnitude(Sub(p[i], limitTarget));
    var lambdai := g.div(d[i], ri);
    p[i + 1 := Lerp(p[i], limitTarget, lambdai)]
  }

  /** The first m steps of the root-to-end pass, at indices 0..m-1. The root
      and the joints above m are not written. */
  function BackwardSteps(g: Geometry, rotationLimit: real, d: seq<real>, p: seq<Vec3>, m: nat): (r: seq<Vec3>)
    requires |d| == |p| - 1 && m <= |d|
    ensures |r| == |p|
  {
    if m == 0 then p
    else BackwardStep(g, rotationLimit, d, BackwardSteps(g, rotationLimit, d, p, m - 1), m - 1)
  }

  /** The first m steps of the root-to-end pass write only joints 1..m: the
      root is untouched. */
  lemma {:induction false} BackwardStepsFrame(g: Geometry, rotationLimit: real, d: seq<real>, p: seq<Vec3>, m: nat)
    requires |d| == |p| - 1 && m <= |d|
    ensures var r := BackwardSteps(g, rotationLimit, d, p, m);
      forall j :: 0 <= j < |p| && (j == 0 || j > m) ==> r[j] == p[j]
  {
    if m > 0 {
      BackwardStepsFrame(g, rotationLimit, d, p, m - 1);
    }
  }

  /** The end joint pinned to the target, the whole end-to-root pass. */
  function PinnedForwardPass(g: Geometry, rotationLimit: real, d: seq<real>, p: seq<Vec3>, t: Vec3): seq<Vec3>
    requires |p| >= 1 && |d| == |p| - 1
  {
    ForwardSteps(g, rotationLimit, d, p[|p| - 1 := t], |p| - 1)
  }

  /** The end-to-root pass leaves the end joint where it was pinned. */
  lemma ForwardPassKeepsEnd(g: Geometry, rotationLimit: real, d: seq<real>, p: seq<Vec3>, t: Vec3)
    requires |p| >= 1 && |d| == |p| - 1
    ensures var q := PinnedForwardPass(g, rotationLimit, d, p, t);
      |q| == |p| && q[|p| - 1] == t
  {
    ForwardStepsFrame(g, rotationLimit, d, p[|p| - 1 := t], |p| - 1);
  }

  /** One round: pin the end to the target, pass from the end to the root,
      put the root back at b, pass from the root to the end. */
  function Round(g: Geometry, rotationLimit: real, d: seq<real>, p: seq<Vec3>, t: Vec3, b: Vec3): (r: seq<Vec3>)
    requires |p| >= 1 && |d| == |p| - 1
    ensures |r| == |p|
  {
    var q := PinnedForwardPass(g, rotationLimit, d, p, t);
    BackwardSteps(g, rotationLimit, d, q[0 := b], |p| - 1)
  }

  /** A round ends with the root at b. */
  lemma RoundRoot(g: Geometry, rotationLimit: real, d: seq<real>, p: seq<Vec3>, t: Vec3, b: Vec3)
    requires |p| >= 1 && |d| == |p| - 1
    ensures Round(g, rotationLimit, d, p, t, b)[0] == b
  {
    var q := PinnedForwardPass(g, rotationLimit, d, p, t);
    BackwardStepsFrame(g, rotationLimit, d, q[0 := b], |p| - 1);
  }

  /** k rounds; a non-positive count performs none. */
  function Rounds(g: Geometry, rotationLimit: real, d: seq<real>, p: seq<Vec3>, t: Vec3, b: Vec3, k: int): (r: seq<Vec3>)
    requires |p| >= 1 && |d| == |p| - 1
    ensures |r| == |p|
    decreases k
  {
    if k <= 0 then p else Round(g, rotationLimit, d, Rounds(g, rotationLimit, d, p, t, b, k - 1), t, b)
  }

  /** The joint positions the solver produces: the stretch when the root is
      farther from the target than the chain is long, and otherwise
      `maxIterations` rounds with the root held at its starting place. The
      tolerance is not an input: it does not influence the result. */
  function Solved(g: Geometry, rotationLimit: real, maxIterations: int, d: seq<real>, chainLength: real,
                  p: seq<Vec3>, t: Vec3): (r: seq<Vec3>)
    requires |p| >= 1 && |d| == |p| - 1
    ensures |r| == |p|
  {
    if g.magnitude(Sub(p[0], t)) > chainLength then StretchSteps(g, d, p, t, |p| - 1)
    else Rounds(g, rotationLimit, d, p, t, p[0], maxIterations)
  }

  /** Whichever regime runs, the root joint ends where it started. */
  lemma {:induction false} SolvedKeepsRoot(g: Geometry, rotationLimit: real, maxIterations: int, d: seq<real>,
                                           chainLength: real, p: seq<Vec3>, t: Vec3)
    requires |p| >= 1 && |d| == |p| - 1
    ensures Solved(g, rotationLimit, maxIterations, d, chainLength, p, t)[0] == p[0]
  {
    if g.magnitude(Sub(p[0], t)) <= chainLength {
      RoundsKeepRoot(g, rotationLimit, d, p, t, maxIterations);
    } else {
      StretchStepsFrame(g, d, p, t, |p| - 1);
    }
  }

  lemma {:induction false} RoundsKeepRoot(g: Geometry, rotationLimit: real, d: seq<real>, p: seq<Vec3>, t: Vec3, k: int)
    requires |p| >= 1 && |d| == |p| - 1
    ensures Rounds(g, rotationLimit, d, p, t, p[0], k)[0] == p[0]
    decreases k
  {
    if k > 0 {
      RoundRoot(g, rotationLimit, d, Rounds(g, rotationLimit, d, p, t, p[0], k - 1), t, p[0]);
    }
  }

  /** The FABRIK component: the joint transforms it drives (positions and
      rotations, one entry per joint), its settings, and the link lengths
      computed once at start-up. */
  class FabrikSolver {
    const positions: array<Vec3>
    const rotations: array<Quaternion>
    const geometry: Geometry
    const tolerance: real
    const maxIterations: int
    const rotationLimit: real
    var distances: array<real>
    var chainLength: real

    constructor (positions: array<Vec3>, rotations: array<Quaternion>, geometry: Geometry,
                 tolerance: real, maxIterations: int, rotationLimit: real)
      ensures this.positions == positions && this.rotations == rotations
      ensures this.geometry == geometry && this.tolerance == tolerance
      ensures this.maxIterations == maxIterations && this.rotationLimit == rotationLimit
      ensures distances.Length == 0 && chainLength == 0.0
    {
      this.positions := positions;
      this.rotations := rotations;
      this.geometry := geometry;
      this.tolerance := tolerance;
      this.maxIterations := maxIterations;
      this.rotationLimit := rotationLimit;
      distances := new real[0];
      chainLength := 0.0;
    }

    /** Records the length of every link and their sum. A chain without joints
        is refused, since it would ask for an array of length -1. */
    method Start()
      requires positions.Length >= 1
      modifies this
      ensures fresh(distances) && distances.Length == positions.Length - 1
      ensures forall i :: 0 <= i < distances.Length ==>
                distances[i] == geometry.magnitude(Sub(positions[i + 1], positions[i]))
      ensures chainLength == Sum(distances[..])
    {
      distances := new real[positions.Length - 1];
      chainLength := 0.0;
      for i := 0 to positions.Length - 1
        invariant fresh(distances) && distances.Length == positions.Length - 1
        invariant forall j :: 0 <= j < i ==>
                    distances[j] == geometry.magnitude(Sub(positions[j + 1], positions[j]))
        invariant chainLength == Sum(distances[..i])
      {
        distances[i] := geometry.magnitude(Sub(positions[i + 1], positions[i]));
        assert distances[..i + 1][..i] == distances[..i];
        chainLength := chainLength + distances[i];
      }
      assert distances[..] == distances[..positions.Length - 1];
    }

    /** The out-of-reach regime: each joint after the root is placed toward
        the target and the joint before it takes the rotation of the new link;
        the end joint takes the target's rotation. */
    method Stretch(target: TargetPose)
      requires positions.Length >= 1 && rotations.Length == positions.Length
      requires distances.Length == positions.Length - 1
      modifies positions, rotations
      ensures positions[..] == StretchSteps(geometry, distances[..], old(positions[..]), target.position,
                                            positions.Length - 1)
      ensures rotations[..] == Frames(geometry, positions[..]) + [target.rotation]
    {
      var n := positions.Length;
      ghost var p0 := positions[..];
      ghost var d := distances[..];
      for i := 0 to n - 1
        invariant distances[..] == d
        invariant positions[..] == StretchSteps(geometry, d, p0, target.position, i)
        invariant forall j :: 0 <= j < i ==>
                    rotations[j] == FrameRotation(geometry, positions[j], positions[j + 1])
      {
        var ri := geometry.magnitude(Sub(positions[i], target.position));
        var lambdai := geometry.div(distances[i], ri);
        positions[i + 1] := Lerp(positions[i], target.position, lambdai);
        rotations[i] := FrameRotation(geometry, positions[i], positions[i + 1]);
      }
      ghost var q := positions[..];
      rotations[n - 1] := target.rotation;
      assert positions[..] == q;
      assert rotations[..] == Frames(geometry, q) + [target.rotation];
    }

    /** Pins the end joint to the target and moves every other joint, from the
        end toward the root, toward its proposed place from its successor. */
    method ForwardReaching(targetPosition: Vec3)
      requires positions.Length >= 1 && distances.Length == positions.Length - 1
      modifies positions
      ensures positions[..] == PinnedForwardPass(geometry, rotationLimit, distances[..], old(positions[..]),
                                                 targetPosition)
    {
      var n := positions.Length;
      ghost var pinned := positions[..][n - 1 := targetPosition];
      positions[n - 1] := targetPosition;
      assert positions[..] == pinned;
      ForwardPass();
      assert positions[..] == ForwardSteps(geometry, rotationLimit, distances[..], pinned, n - 1);
      assert PinnedForwardPass(geometry, rotationLimit, distances[..], old(positions[..]), targetPosition)
          == ForwardSteps(geometry, rotationLimit, distances[..], pinned, n - 1);
    }

    /** Moves every joint but the end, from the end toward the root, toward
        its proposed place from its successor. */
    method ForwardPass()
      requires distances.Length == positions.Length - 1
      modifies positions
      ensures positions[..] == ForwardSteps(geometry, rotationLimit, distances[..], old(positions[..]),
                                            positions.Length - 1)
    {
      var n := positions.Length;
      for i := n - 1 downto 0
        invariant positions[..] == ForwardSteps(geometry, rotationLimit, distances[..], old(positions[..]), n - 1 - i)
      {
        MoveTowardSuccessor(i);
      }
    }

    /** Step i of the end-to-root pass, on the array. */
    method MoveTowardSuccessor(i: nat)
      requires distances.Length == positions.Length - 1 && i < distances.Length
      modifies positions
      ensures positions[..] == ForwardStep(geometry, rotationLimit, distances[..], old(positions[..]), i)
    {
      var n := positions.Length;
      var limitTarget := positions[i];
      if i != n - 2 {
        limitTarget := EnforceConstraints(geometry, rotationLimit, positions[i + 1], positions[i + 2], positions[i]);
      }
      var ri := geometry.magnitude(Sub(positions[i + 1], limitTarget));
      var lambdai := geometry.div(distances[i], ri);
      positions[i] := Lerp(positions[i + 1], limitTarget, lambdai);
    }

    /** Puts the root back at b and moves every other joint, from the root
        toward the end, toward its proposed place from its predecessor. */
    method BackwardReaching(b: Vec3)
      requires positions.Length >= 1 && distances.Length == positions.Length - 1
      modifies positions
      ensures positions[..] == BackwardSteps(geometry, rotationLimit, distances[..], old(positions[..])[0 := b],
                                             positions.Length - 1)
    {
      var n := positions.Length;
      positions[0] := b;
      ghost var rooted := positions[..];
      for i := 0 to n - 1
        invariant positions[..] == BackwardSteps(geometry, rotationLimit, distances[..], rooted, i)
      {
        MoveTowardPredecessor(i);
      }
    }

    /** Step i of the root-to-end pass, on the array. */
    method MoveTowardPredecessor(i: nat)
      requires distances.Length == positions.Length - 1 && i < distances.Length
      modifies positions
      ensures positions[..] == BackwardStep(geometry, rotationLimit, distances[..], old(positions[..]), i)
    {
      var limitTarget := positions[i + 1];
      if i != 0 {
        limitTarget := EnforceConstraints(geometry, rotationLimit, positions[i], positions[i - 1], positions[i + 1]);
      }
      var ri := geometry.magnitude(Sub(positions[i], limitTarget));
      var lambdai := geometry.div(distances[i], ri);
      positions[i + 1] := Lerp(positions[i], limitTarget, lambdai);
    }

    /** The end joint takes the target's rotation and every other joint the
        rotation of its link; positions are not touched. */
    method SetRotations(targetRotation: Quaternion)
      requires positions.Length >= 1 && rotations.Length == positions.Length
      modifies rotations
      ensures rotations[..] == Frames(geometry, positions[..]) + [targetRotation]
    {
      var n := positions.Length;
      rotations[n - 1] := targetRotation;
      for i := 0 to n - 1
        invariant rotations[n - 1] == targetRotation
        invariant forall j :: 0 <= j < i ==>
                    rotations[j] == FrameRotation(geometry, positions[j], positions[j + 1])
      {
        rotations[i] := FrameRotation(geometry, positions[i], positions[i + 1]);
      }
    }

    /** One round of the reachable regime: an end-to-root pass toward the
        target followed by a root-to-end pass from b. */
    method ReachRound(targetPosition: Vec3, b: Vec3)
      requires positions.Length >= 1 && distances.Length == positions.Length - 1
      modifies positions
      ensures positions[..] == Round(geometry, rotationLimit, distances[..], old(positions[..]), targetPosition, b)
    {
      ForwardReaching(targetPosition);
      BackwardReaching(b);
    }

    /** The reachable regime's position updates: `maxIterations` rounds, each
        an end-to-root pass followed by a root-to-end pass from b. */
    method Iterate(targetPosition: Vec3, b: Vec3)
      requires positions.Length >= 1 && distances.Length == positions.Length - 1
      modifies positions
      ensures positions[..] == Rounds(geometry, rotationLimit, distances[..], old(positions[..]),
                                      targetPosition, b, maxIterations)
    {
      ghost var p0 := positions[..];
      var iterations := 0;
      while iterations < maxIterations
        invariant iterations <= maxIterations || iterations == 0
        invariant positions[..] == Rounds(geometry, rotationLimit, distances[..], p0, targetPosition, b, iterations)
      {
        ReachRound(targetPosition, b);
        iterations := iterations + 1;
      }
      // A non-positive bound runs no round, and zero rounds are as many as it asks for.
      ghost var k := if maxIterations <= 0 then 0 else maxIterations;
      assert iterations == k;
      assert Rounds(geometry, rotationLimit, distances[..], p0, targetPosition, b, k)
          == Rounds(geometry, rotationLimit, distances[..], p0, targetPosition, b, maxIterations);
    }

    /** One solver update: moves the joints as `Solved` describes, then gives
        every joint but the last the rotation of its link and the last joint
        the target's rotation. */
    method Solve(target: TargetPose)
      requires positions.Length >= 1 && rotations.Length == positions.Length
      requires distances.Length == positions.Length - 1
      modifies positions, rotations
      ensures positions[..] == Solved(geometry, rotationLimit, maxIterations, distances[..], chainLength,
                                      old(positions[..]), target.position)
      ensures rotations[..] == Frames(geometry, positions[..]) + [target.rotation]
    {
      var dist := geometry.magnitude(Sub(positions[0], target.position));
      if dist > chainLength {
        Stretch(target);
      } else {
        var b := positions[0];
        Iterate(target.position, b);
        SetRotations(target.rotation);
      }
    }
  }
}
