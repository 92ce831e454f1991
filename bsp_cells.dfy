/** Axis-aligned boxes and the arithmetic the dungeon generator does on them:
    the validity test for a partition cell, the split of a cell in two, the
    placement of a room inside a leaf cell, the growth of a box to enclose
    another, and the overlap interval used to place a hallway between two
    sibling rooms. A random draw is a value u in [0, 1]; `Random.Range(a, b)`
    is a + u (b - a). */
module BspCells {
  import opened Vectors
  import opened Wrappers

  /** A box given by its two corners (the engine stores centre and extents;
      setting min and then max as the generator does yields these corners). */
  datatype Bounds = Bounds(min: Vec3, max: Vec3)

  /** `new Bounds()`: centre and extents zero. */
  const ZeroBounds: Bounds := Bounds(Zero, Zero)

  function Size(b: Bounds): Vec3 {
    Sub(b.max, b.min)
  }

  function Volume(b: Bounds): real {
    Size(b).x * Size(b).y * Size(b).z
  }

  /** Both corners ordered: a box of non-negative size. */
  predicate Ordered(b: Bounds) {
    LessEq(b.min, b.max)
  }

  predicate Contains(b: Bounds, p: Vec3) {
    LessEq(b.min, p) && LessEq(p, b.max)
  }

  /** Box `outer` contains box `inner`. */
  predicate Encloses(outer: Bounds, inner: Bounds) {
    LessEq(outer.min, inner.min) && LessEq(inner.max, outer.max)
  }

  // ----- cells ---------------------------------------------------------------

  /** The axis a cell is split along; X is component 0 and Z component 2. */
  datatype Axis = X | Z

  function Index(a: Axis): nat {
    if a == X then 0 else 2
  }

  const MinCellVolume: real := 20.0 * 2.0 * 20.0
  const MaxRatio: real := 5.0
  const MinRatio: real := 0.2

  /** A cell may become a node of the tree: its volume is at least 800 and its
      x:z aspect ratio lies in [0.2, 5]. The ratio is only formed once the
      volume test has passed, so the z size is not zero there. */
  predicate IsValidCell(c: Bounds) {
    var s := Size(c);
    var volume := s.x * s.y * s.z;
    if volume < MinCellVolume then false
    else
      assert s.z != 0.0;
      var ratio := AbsR(s.x / s.z);
      !(ratio > MaxRatio || ratio < MinRatio)
  }

  /** The same test without a division: volume at least 800 and
      0.2 |z| <= |x| <= 5 |z|. A valid cell has non-zero x and z sizes. */
  lemma ValidCellCharacterized(c: Bounds)
    ensures IsValidCell(c) <==>
      Volume(c) >= MinCellVolume
      && MinRatio * AbsR(Size(c).z) <= AbsR(Size(c).x) <= MaxRatio * AbsR(Size(c).z)
    ensures IsValidCell(c) ==> Size(c).x != 0.0 && Size(c).z != 0.0
  {
    var s := Size(c);
    if Volume(c) >= MinCellVolume {
      assert s.z != 0.0;
      RatioTest(s.x, s.z);
    }
  }

  /** The ratio test |x / z| in [0.2, 5] without the division. */
  lemma RatioTest(x: real, z: real)
    requires z != 0.0
    ensures (MinRatio * AbsR(z) <= AbsR(x) <= MaxRatio * AbsR(z)) <==> MinRatio <= AbsR(x / z) <= MaxRatio
    ensures MinRatio * AbsR(z) <= AbsR(x) ==> x != 0.0
  {
    var q := x / z;
    assert x == q * z;
    AbsOfProduct(q, z);
    RatioBounds(AbsR(x), AbsR(q), AbsR(z));
  }

  lemma AbsOfProduct(a: real, b: real)
    ensures AbsR(a * b) == AbsR(a) * AbsR(b)
  {
  }

  /** For positive m and x = r m, x lies in [0.2 m, 5 m] exactly when r lies
      in [0.2, 5]. */
  lemma RatioBounds(x: real, r: real, m: real)
    requires m > 0.0 && x == r * m
    ensures (MinRatio * m <= x <= MaxRatio * m) <==> (MinRatio <= r <= MaxRatio)
  {
    if r < MinRatio {
      assert r * m < MinRatio * m;
    }
    if r > MaxRatio {
      assert r * m > MaxRatio * m;
    }
  }

  /** `Random.value > 0.5` picks X, otherwise Z. */
  function AxisOf(value: real): Axis {
    if value > 0.5 then X else Z
  }

  /** Random.Range(a, b) for a draw u. */
  function RangeDraw(a: real, b: real, u: real): real {
    a + u * (b - a)
  }

  /** The split coordinate: a draw between 30% and 70% of the cell's extent
      along the axis. */
  function SplitPoint(c: Bounds, axis: Axis, u: real): real {
    var i := Index(axis);
    var delta := Get(c.max, i) - Get(c.min, i);
    RangeDraw(Get(c.min, i) + 0.3 * delta, Get(c.max, i) - 0.3 * delta, u)
  }

  /** The lower half: the cell with its max moved to the split point. */
  function HalfA(c: Bounds, axis: Axis, sp: real): Bounds {
    Bounds(c.min, With(c.max, Index(axis), sp))
  }

  /** The upper half: the cell with its min moved to the split point. */
  function HalfB(c: Bounds, axis: Axis, sp: real): Bounds {
    Bounds(With(c.min, Index(axis), sp), c.max)
  }

  /** `a` and `b` are the halves of `c` cut along `axis` at a's max there. */
  predicate IsSplit(c: Bounds, axis: Axis, a: Bounds, b: Bounds) {
    var i := Index(axis);
    var sp := Get(a.max, i);
    a == HalfA(c, axis, sp) && b == HalfB(c, axis, sp)
  }

  datatype Split = Split(axis: Axis, a: Bounds, b: Bounds)

  /** SplitCell on a cell, with draws `value` (axis) and `u` (split point):
      the two halves when both are valid cells, nothing otherwise. */
  function TrySplit(c: Bounds, value: real, u: real): (r: Option<Split>)
    ensures r.Some? ==> IsSplit(c, r.value.axis, r.value.a, r.value.b)
    ensures r.Some? ==> IsValidCell(r.value.a) && IsValidCell(r.value.b) && r.value.axis == AxisOf(value)
    ensures r.Some? ==>
      var sp := SplitPoint(c, AxisOf(value), u);
      r.value.a == HalfA(c, AxisOf(value), sp) && r.value.b == HalfB(c, AxisOf(value), sp)
    ensures r.None? <==>
      var sp := SplitPoint(c, AxisOf(value), u);
      !(IsValidCell(HalfB(c, AxisOf(value), sp)) && IsValidCell(HalfA(c, AxisOf(value), sp)))
  {
    var axis := AxisOf(value);
    var sp := SplitPoint(c, axis, u);
    var cellA := HalfA(c, axis, sp);
    var cellB := HalfB(c, axis, sp);
    if IsValidCell(cellB) && IsValidCell(cellA) then Some(Split(axis, cellA, cellB)) else None
  }

  /** The two halves meet at the split point, agree with the parent in every
      other coordinate, and between them contain exactly the parent's points
      when the split point lies within the parent's extent. */
  lemma HalvesPartition(c: Bounds, axis: Axis, sp: real)
    requires Get(c.min, Index(axis)) <= sp <= Get(c.max, Index(axis))
    ensures var a := HalfA(c, axis, sp); var b := HalfB(c, axis, sp);
      && Get(a.max, Index(axis)) == sp && Get(b.min, Index(axis)) == sp
      && a.min == c.min && b.max == c.max
      && (forall j :: 0 <= j < 3 && j != Index(axis) ==> Get(a.max, j) == Get(c.max, j) && Get(b.min, j) == Get(c.min, j))
      && (forall p :: Contains(c, p) <==> Contains(a, p) || Contains(b, p))
  {
    var a := HalfA(c, axis, sp);
    var b := HalfB(c, axis, sp);
    forall p
      ensures Contains(c, p) <==> Contains(a, p) || Contains(b, p)
    {
      if axis == X {
        assert Contains(c, p) <==> Contains(a, p) || Contains(b, p);
      } else {
        assert Contains(c, p) <==> Contains(a, p) || Contains(b, p);
      }
    }
  }

  /** With a draw in [0, 1] and an ordered cell, each half spans between 30%
      and 70% of the parent along the split axis. */
  lemma SplitPointRange(c: Bounds, axis: Axis, u: real)
    requires 0.0 <= u <= 1.0 && Ordered(c)
    ensures var i := Index(axis); var delta := Get(c.max, i) - Get(c.min, i);
      var sp := SplitPoint(c, axis, u);
      && 0.3 * delta <= sp - Get(c.min, i) <= 0.7 * delta
      && 0.3 * delta <= Get(c.max, i) - sp <= 0.7 * delta
  {
    var i := Index(axis);
    var lo := Get(c.min, i);
    var hi := Get(c.max, i);
    var delta := hi - lo;
    assert delta >= 0.0;
    RangeDrawBetween(lo + 0.3 * delta, hi - 0.3 * delta, u);
  }

  /** A draw in [0, 1] lands between the range's ends. */
  lemma RangeDrawBetween(a: real, b: real, u: real)
    requires a <= b && Draw(u)
    ensures a <= RangeDraw(a, b, u) <= b
  {
    var m := b - a;
    ProductBetween(u, m);
    assert RangeDraw(a, b, u) == a + u * m;
  }

  /** 0 <= u <= 1 and m >= 0 give 0 <= u m <= m. */
  lemma ProductBetween(u: real, m: real)
    requires 0.0 <= u <= 1.0 && m >= 0.0
    ensures 0.0 <= u * m <= m
  {
    assert u * m <= 1.0 * m;
  }

  /** The halves' volumes add up to the parent's. */
  lemma VolumesAdd(c: Bounds, axis: Axis, sp: real)
    ensures Volume(HalfA(c, axis, sp)) + Volume(HalfB(c, axis, sp)) == Volume(c)
  {
    var s := Size(c);
    if axis == X {
      SplitFactor(sp - c.min.x, c.max.x - sp, s.y * s.z);
      assert Volume(HalfA(c, axis, sp)) == (sp - c.min.x) * (s.y * s.z);
      assert Volume(HalfB(c, axis, sp)) == (c.max.x - sp) * (s.y * s.z);
      assert Volume(c) == s.x * (s.y * s.z);
    } else {
      SplitFactor(sp - c.min.z, c.max.z - sp, s.x * s.y);
      assert Volume(HalfA(c, axis, sp)) == (s.x * s.y) * (sp - c.min.z);
      assert Volume(HalfB(c, axis, sp)) == (s.x * s.y) * (c.max.z - sp);
      assert Volume(c) == (s.x * s.y) * s.z;
    }
  }

  lemma SplitFactor(p: real, q: real, m: real)
    ensures p * m + q * m == (p + q) * m
  {
  }

  // ----- rooms ---------------------------------------------------------------

  /** GenerateRoom's arithmetic for a leaf cell and four draws: the room's x
      size is drawn between min(size.x/2 + 1, size.x - 2) and size.x - 2, its
      z size likewise, its y size is the cell's; then an x offset and a z
      offset are drawn. The room's max z is the cell's min z plus the z size,
      without the z offset that its min z carries. */
  function RoomIn(c: Bounds, u1: real, u2: real, u3: real, u4: real): Bounds {
    var size := Size(c);
    var roomSize := Vec3(
      RangeDraw(MinR(0.5 * size.x + 1.0, size.x - 2.0), size.x - 2.0, u1),
      size.y,
      RangeDraw(MinR(0.5 * size.z + 1.0, size.z - 2.0), size.z - 2.0, u2));
    var x := RangeDraw(0.0, size.x - roomSize.x, u3);
    var y := RangeDraw(0.0, size.z - roomSize.z, u4);
    var min := Vec3(x, 0.0, y);
    var max := Vec3(x + roomSize.x, roomSize.y, roomSize.z);
    Bounds(Add(min, c.min), Add(max, c.min))
  }

  /** A cell in which rooms are placed as intended: ordered, and at least 6
      units wide on x and z, so that a room's x and z sizes exceed half the
      cell's. */
  predicate Roomy(c: Bounds) {
    Ordered(c) && Size(c).x >= 6.0 && Size(c).z >= 6.0
  }

  /** The centre of a box. */
  function Mid(b: Bounds): Vec3 {
    Scale(0.5, Add(b.min, b.max))
  }

  /** The room strictly contains the x and z coordinates of the cell's centre. */
  predicate AroundCentre(room: Bounds, cell: Bounds) {
    && room.min.x < Mid(cell).x < room.max.x
    && room.min.z < Mid(cell).z < room.max.z
  }

  predicate Draw(u: real) {
    0.0 <= u <= 1.0
  }

  /** In a roomy cell with draws in [0, 1] the room is an ordered, non-empty
      box inside the cell, wider than half the cell on x, spanning the cell on
      y, and strictly around the cell's centre on x and z. */
  lemma RoomInFacts(c: Bounds, u1: real, u2: real, u3: real, u4: real)
    requires Roomy(c) && Draw(u1) && Draw(u2) && Draw(u3) && Draw(u4)
    ensures var r := RoomIn(c, u1, u2, u3, u4);
      && Ordered(r) && r != ZeroBounds && Encloses(c, r)
      && r.max.x - r.min.x >= 0.5 * Size(c).x + 1.0
      && r.min.y == c.min.y && r.max.y == c.max.y
      && AroundCentre(r, c)
  {
    var size := Size(c);
    assert MinR(0.5 * size.x + 1.0, size.x - 2.0) == 0.5 * size.x + 1.0;
    assert MinR(0.5 * size.z + 1.0, size.z - 2.0) == 0.5 * size.z + 1.0;
    var rsx := RangeDraw(0.5 * size.x + 1.0, size.x - 2.0, u1);
    var rsz := RangeDraw(0.5 * size.z + 1.0, size.z - 2.0, u2);
    RangeDrawBetween(0.5 * size.x + 1.0, size.x - 2.0, u1);
    RangeDrawBetween(0.5 * size.z + 1.0, size.z - 2.0, u2);
    RangeDrawBetween(0.0, size.x - rsx, u3);
    RangeDrawBetween(0.0, size.z - rsz, u4);
  }

  /** The z depth of the room is the drawn z size minus the z offset, not the
      z size: with the smallest z size and the largest offset it is 2 units,
      whatever the cell's depth. */
  lemma RoomDepthCanBeTwo(c: Bounds, u1: real, u3: real)
    requires Roomy(c)
    ensures var r := RoomIn(c, u1, 0.0, u3, 1.0);
      r.max.z - r.min.z == 2.0
  {
  }

  // ----- enclosing boxes -------------------------------------------------------

  /** Bounds.Encapsulate(point): grow the box to contain the point. */
  function EncapsulatePoint(b: Bounds, p: Vec3): Bounds {
    Bounds(Min(b.min, p), Max(b.max, p))
  }

  /** Bounds.Encapsulate(bounds): grow the box to contain the other box's two
      corners. */
  function Encapsulate(b: Bounds, o: Bounds): (r: Bounds)
    ensures Encloses(r, b) && Encloses(r, o)
  {
    EncapsulatePoint(EncapsulatePoint(b, o.min), o.max)
  }

  /** The smallest such box: any box enclosing both encloses the result, when
      the added box is ordered. */
  lemma EncapsulateLeast(b: Bounds, o: Bounds, e: Bounds)
    requires Ordered(o) && Encloses(e, b) && Encloses(e, o)
    ensures Encloses(e, Encapsulate(b, o))
  {
  }

  /** One step of UpdateRoomBounds: an empty room takes the child's room,
      otherwise it grows to enclose it. */
  function Absorb(room: Bounds, child: Bounds): (r: Bounds)
    ensures Encloses(r, child)
    ensures room != ZeroBounds ==> Encloses(r, room)
  {
    if room == ZeroBounds then child else Encapsulate(room, child)
  }

  /** Absorbing an ordered box into an empty or ordered box gives an ordered
      box, and a non-empty one when the absorbed box is not empty. */
  lemma AbsorbOrdered(room: Bounds, child: Bounds)
    requires room == ZeroBounds || Ordered(room)
    requires Ordered(child)
    ensures Ordered(Absorb(room, child))
    ensures child != ZeroBounds ==> Absorb(room, child) != ZeroBounds
  {
  }

  /** Absorbing x and then y gives a box enclosing y, and enclosing x too
      unless x fits inside the empty box (then the first step may leave the
      empty box, which the second step discards). */
  lemma AbsorbBoth(room: Bounds, x: Bounds, y: Bounds)
    ensures Encloses(Absorb(Absorb(room, x), y), y)
    ensures !Encloses(ZeroBounds, x) ==> Encloses(Absorb(Absorb(room, x), y), x)
  {
    var first := Absorb(room, x);
    if !Encloses(ZeroBounds, x) {
      assert first != ZeroBounds;
    }
  }

  // ----- hallways --------------------------------------------------------------

  /** The horizontal direction across which two sibling rooms are compared:
      forward (z) for a split along x, right (x) otherwise. */
  function AcrossSplit(axis: Axis): Vec3 {
    if axis == X then Vec3(0.0, 0.0, 1.0) else Vec3(1.0, 0.0, 0.0)
  }

  /** The lower and upper ends of a box along a direction. */
  function Low(b: Bounds, dir: Vec3): real { Dot(b.min, dir) }
  function High(b: Bounds, dir: Vec3): real { Dot(b.max, dir) }

  /** Across the split, both rooms' ranges are non-empty and each starts
      before the other ends. */
  predicate RoomsOverlap(axis: Axis, left: Bounds, right: Bounds) {
    var d := AcrossSplit(axis);
    && Low(left, d) < High(left, d) && Low(right, d) < High(right, d)
    && Low(left, d) < High(right, d) && Low(right, d) < High(left, d)
  }

  /** The hallway coordinate ConnectChildRooms picks: where the two rooms'
      ranges across the split overlap, a draw along the overlap; none when
      they do not overlap. A position is returned exactly when the rooms
      overlap, and it then lies in both ranges. */
  function HallwayPosition(axis: Axis, left: Bounds, right: Bounds, value: real): (r: Option<real>)
    ensures r.Some? <==> RoomsOverlap(axis, left, right)
    ensures r.Some? && Draw(value) ==>
      var d := AcrossSplit(axis);
      Low(left, d) <= r.value <= High(left, d) && Low(right, d) <= r.value <= High(right, d)
  {
    var d := AcrossSplit(axis);
    var lo := MaxR(Low(left, d), Low(right, d));
    var hi := MinR(High(left, d), High(right, d));
    if lo < hi then
      var r := RangeDraw(lo, hi, value);
      assert Draw(value) ==> lo <= r <= hi by {
        if Draw(value) {
          RangeDrawBetween(lo, hi, value);
        }
      }
      Some(r)
    else None
  }
}
