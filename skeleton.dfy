/** A joint hierarchy and the computation of every joint's model-space pose
    from the local poses of an animation frame. The engine's 4x4 matrix and the
    conversion of a joint pose to a matrix are kept abstract: `Mat` is any type,
    `mul` is its product (required to be associative) and `matrixOf` turns a
    local pose into a matrix. */
module Skeletons {

  /** A joint's parent index is stored in one byte. */
  type Byte = x: int | 0 <= x < 256

  /** The parent index that marks a root joint. */
  const RootParent: Byte := 255

  datatype SkeletonJoint = SkeletonJoint(name: string, parent: Byte)

  ghost predicate Associative<Mat(!new)>(mul: (Mat, Mat) -> Mat) {
    forall x, y, z :: mul(mul(x, y), z) == mul(x, mul(y, z))
  }

  /** Every parent index is the root marker or an earlier joint, as in the
      arm built joint by joint (shoulder, elbow, wrist). This keeps parent
      indices in range and the hierarchy free of cycles. */
  predicate ParentsPrecede(joints: seq<SkeletonJoint>) {
    forall i :: 0 <= i < |joints| ==> joints[i].parent == RootParent || joints[i].parent < i
  }

  /** The model-space pose of joint i: its own local matrix for a root, and
      otherwise its parent's model-space pose times its local matrix. */
  function GlobalPose<Pose, Mat>(joints: seq<SkeletonJoint>, animPose: seq<Pose>,
                                 matrixOf: Pose -> Mat, mul: (Mat, Mat) -> Mat, i: nat): Mat
    requires ParentsPrecede(joints) && |joints| <= |animPose| && i < |joints|
    decreases i
  {
    var p := joints[i].parent;
    if p == RootParent then matrixOf(animPose[i])
    else mul(GlobalPose(joints, animPose, matrixOf, mul, p), matrixOf(animPose[i]))
  }

  /** The ancestor chain of joint i, root first and i last. */
  function Chain(joints: seq<SkeletonJoint>, i: nat): (c: seq<nat>)
    requires ParentsPrecede(joints) && i < |joints|
    ensures |c| > 0 && c[|c| - 1] == i
    ensures forall k :: 0 <= k < |c| ==> c[k] < |joints|
    ensures joints[c[0]].parent == RootParent
    ensures forall k :: 0 < k < |c| ==> joints[c[k]].parent == c[k - 1]
    decreases i
  {
    var p := joints[i].parent;
    if p == RootParent then [i] else Chain(joints, p) + [i]
  }

  /** The local matrices of a list of joints. */
  function Locals<Pose, Mat>(animPose: seq<Pose>, matrixOf: Pose -> Mat, c: seq<nat>): (ms: seq<Mat>)
    requires forall k :: 0 <= k < |c| ==> c[k] < |animPose|
    ensures |ms| == |c|
    ensures forall k :: 0 <= k < |c| ==> ms[k] == matrixOf(animPose[c[k]])
  {
    if c == [] then [] else [matrixOf(animPose[c[0]])] + Locals(animPose, matrixOf, c[1..])
  }

  /** The right-nested product ms[0] * (ms[1] * (... * ms[n-1])), the order in
      which walking up the hierarchy builds it. */
  function ProductR<Mat>(mul: (Mat, Mat) -> Mat, ms: seq<Mat>): Mat
    requires |ms| > 0
  {
    if |ms| == 1 then ms[0] else mul(ms[0], ProductR(mul, ms[1..]))
  }

  lemma {:induction false} ProductRSnoc<Mat(!new)>(mul: (Mat, Mat) -> Mat, ms: seq<Mat>, m: Mat)
    requires Associative(mul) && |ms| > 0
    ensures ProductR(mul, ms + [m]) == mul(ProductR(mul, ms), m)
    decreases |ms|
  {
    if |ms| == 1 {
      assert ms + [m] == [ms[0], m];
    } else {
      assert (ms + [m])[1..] == ms[1..] + [m];
      ProductRSnoc(mul, ms[1..], m);
    }
  }

  /** Joint i's model-space pose is the product of the local matrices along its
      ancestor chain, root-most on the left and its own on the right. */
  lemma {:induction false} GlobalPoseIsChainProduct<Pose, Mat(!new)>(
    joints: seq<SkeletonJoint>, animPose: seq<Pose>,
    matrixOf: Pose -> Mat, mul: (Mat, Mat) -> Mat, i: nat)
    requires Associative(mul)
    requires ParentsPrecede(joints) && |joints| <= |animPose| && i < |joints|
    ensures GlobalPose(joints, animPose, matrixOf, mul, i)
         == ProductR(mul, Locals(animPose, matrixOf, Chain(joints, i)))
    decreases i
  {
    var p := joints[i].parent;
    if p != RootParent {
      var c := Chain(joints, p);
      GlobalPoseIsChainProduct(joints, animPose, matrixOf, mul, p);
      assert Locals(animPose, matrixOf, c + [i])
          == Locals(animPose, matrixOf, c) + [matrixOf(animPose[i])];
      ProductRSnoc(mul, Locals(animPose, matrixOf, c), matrixOf(animPose[i]));
    }
  }

  /** What remains to be multiplied on the left while walking up from a joint
      whose next ancestor is `parentId`, having accumulated `p` so far. */
  function Pending<Pose, Mat>(joints: seq<SkeletonJoint>, animPose: seq<Pose>,
                              matrixOf: Pose -> Mat, mul: (Mat, Mat) -> Mat,
                              parentId: Byte, p: Mat): Mat
    requires ParentsPrecede(joints) && |joints| <= |animPose|
    requires parentId == RootParent || parentId < |joints|
  {
    if parentId == RootParent then p
    else mul(GlobalPose(joints, animPose, matrixOf, mul, parentId), p)
  }

  class Skeleton {
    var joints: seq<SkeletonJoint>

    constructor (joints: seq<SkeletonJoint>)
      ensures this.joints == joints
    {
      this.joints := joints;
    }

    /** Fills `globalPose` (reallocated when its length is not the joint count)
        with every joint's model-space pose and returns the array the caller's
        reference now designates. */
    method GetPoseInGlobalSpace<Pose, Mat(0,!new)>(animPose: seq<Pose>, matrixOf: Pose -> Mat,
                                              mul: (Mat, Mat) -> Mat, globalPose: array<Mat>)
      returns (result: array<Mat>)
      requires Associative(mul)
      requires ParentsPrecede(joints) && |joints| <= |animPose|
      modifies globalPose
      ensures result.Length == |joints|
      ensures globalPose.Length == |joints| ==> result == globalPose
      ensures globalPose.Length != |joints| ==> fresh(result) && unchanged(globalPose)
      ensures forall i :: 0 <= i < |joints| ==>
                result[i] == GlobalPose(joints, animPose, matrixOf, mul, i)
      ensures forall i :: 0 <= i < |joints| && joints[i].parent == RootParent ==>
                result[i] == matrixOf(animPose[i])
      ensures forall i :: 0 <= i < |joints| && joints[i].parent != RootParent ==>
                result[i] == mul(result[joints[i].parent], matrixOf(animPose[i]))
    {
      var jointCount := |joints|;
      result := globalPose;
      if globalPose.Length != jointCount {
        result := new Mat[jointCount];
      }
      for i := 0 to jointCount
        invariant forall k :: 0 <= k < i ==> result[k] == GlobalPose(joints, animPose, matrixOf, mul, k)
        invariant globalPose.Length != jointCount ==> unchanged(globalPose)
      {
        var p := matrixOf(animPose[i]);
        var parentId: Byte := joints[i].parent;
        while true
          invariant parentId == RootParent || parentId < i
          invariant Pending(joints, animPose, matrixOf, mul, parentId, p)
                 == GlobalPose(joints, animPose, matrixOf, mul, i)
          decreases if parentId == RootParent then 0 else parentId + 1
        {
          if parentId == RootParent {
            break;
          }
          p := mul(matrixOf(animPose[parentId]), p);
          parentId := joints[parentId].parent;
        }
        result[i] := p;
      }
    }
  }
}
