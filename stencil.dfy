/**
 * The index-space shapes the grid queries produce: clamped node indices for a
 * scaled position, the neighbourhood box around a node and the enveloping
 * box (interpolation stencil) around a point.
 */
module Stencil {
  import opened Radix
  import opened Odometer

  /** Qt's qBound(lo, v, hi), defined as qMax(lo, qMin(hi, v)). */
  function QBound(lo: int, v: int, hi: int): (r: int)
    ensures r >= lo
    ensures lo <= hi ==> r <= hi
    ensures lo <= v <= hi ==> r == v
    ensures v < lo || hi < lo ==> r == lo
    ensures lo <= hi < v ==> r == hi
  {
    var m := if hi < v then hi else v;
    if lo < m then m else lo
  }

  /**
   * The bottom-left node of the cell holding a point, given the point's scaled
   * position `pos[d]` (its offset from the lower bound in strides, truncated
   * toward zero): every axis clamped into [0, ns[d] - 2].
   */
  function BottomLeft(pos: seq<int>, ns: seq<nat>): (idx: seq<nat>)
    requires |pos| == |ns|
    ensures |idx| == |ns|
    ensures Positive(ns) ==> InRange(idx, ns)
    ensures forall d :: 0 <= d < |ns| && ns[d] >= 2 ==> idx[d] + 1 < ns[d]
    ensures forall d :: 0 <= d < |ns| && 0 <= pos[d] <= ns[d] as int - 2 ==> idx[d] == pos[d]
    ensures forall d :: 0 <= d < |ns| && pos[d] < 0 ==> idx[d] == 0
    ensures forall d :: 0 <= d < |ns| && 2 <= ns[d] && ns[d] as int - 2 < pos[d] ==> idx[d] == ns[d] - 2
  {
    seq(|ns|, d requires 0 <= d < |ns| => QBound(0, pos[d], ns[d] as int - 2))
  }

  /**
   * The node nearest to a point, given the point's scaled position `pos[d]`
   * (its offset from the lower bound in strides, rounded): every axis
   * clamped into [0, ns[d] - 1].
   */
  function Nearest(pos: seq<int>, ns: seq<nat>): (idx: seq<nat>)
    requires |pos| == |ns|
    ensures |idx| == |ns|
    ensures Positive(ns) ==> InRange(idx, ns)
    ensures forall d :: 0 <= d < |ns| && 0 <= pos[d] < ns[d] ==> idx[d] == pos[d]
    ensures forall d :: 0 <= d < |ns| && pos[d] < 0 ==> idx[d] == 0
    ensures forall d :: 0 <= d < |ns| && 0 < ns[d] <= pos[d] ==> idx[d] == ns[d] - 1
  {
    seq(|ns|, d requires 0 <= d < |ns| => QBound(0, pos[d], ns[d] as int - 1))
  }

  /** The lower corner of a box reaching `below` nodes down from `idx`, stopped at 0. */
  function LowerCorner(idx: seq<nat>, below: nat): (lo: seq<nat>)
    ensures |lo| == |idx|
    ensures forall d :: 0 <= d < |idx| && below <= idx[d] ==> lo[d] + below == idx[d]
    ensures forall d :: 0 <= d < |idx| && idx[d] <= below ==> lo[d] == 0
  {
    seq(|idx|, d requires 0 <= d < |idx| => if idx[d] < below then 0 else idx[d] - below)
  }

  /** The upper corner of a box reaching `above` nodes up from `idx`, stopped at the last node. */
  function UpperCorner(idx: seq<nat>, above: nat, ns: seq<nat>): (hi: seq<nat>)
    requires InRange(idx, ns)
    ensures |hi| == |idx|
    ensures forall d :: 0 <= d < |idx| ==> idx[d] <= hi[d] < ns[d]
    ensures forall d :: 0 <= d < |idx| && idx[d] + above < ns[d] ==> hi[d] == idx[d] + above
    ensures forall d :: 0 <= d < |idx| && ns[d] <= idx[d] + above ==> hi[d] == ns[d] - 1
  {
    seq(|idx|, d requires 0 <= d < |idx| =>
      if idx[d] + above < ns[d] - 1 then idx[d] + above else ns[d] - 1)
  }

  /** `p` lies at most `below` nodes under and `above` nodes over `idx` on every axis. */
  predicate Near(p: seq<nat>, idx: seq<nat>, below: nat, above: nat)
  {
    |p| == |idx| && forall d :: 0 <= d < |p| ==> idx[d] <= p[d] + below && p[d] <= idx[d] + above
  }

  /**
   * The flat indices `enumerateNeighborHood` yields for the node `idx` and the
   * radius `r`: the box within `r` of `idx` on every axis, clipped to the grid,
   * in odometer order, without the flat index of `idx` itself.
   */
  function Neighborhood(ns: seq<nat>, idx: seq<nat>, r: nat): (nb: seq<nat>)
    requires InRange(idx, ns)
    ensures |nb| <= BoxSize(LowerCorner(idx, r), UpperCorner(idx, r, ns))
  {
    var lo, hi := LowerCorner(idx, r), UpperCorner(idx, r, ns);
    BoxFlats(lo, hi, ns, Some(Flatten(idx, ns)))
  }

  /**
   * The flat indices `getEnvelopingNodes` yields for the bottom-left node `bl`
   * and the radius `r`: the box from `r` nodes under `bl` to `r + 1` nodes over
   * it, clipped to the grid, in odometer order.
   */
  function Envelope(ns: seq<nat>, bl: seq<nat>, r: nat): (e: seq<nat>)
    requires InRange(bl, ns)
    ensures |e| <= BoxSize(LowerCorner(bl, r), UpperCorner(bl, r + 1, ns))
  {
    BoxFlats(LowerCorner(bl, r), UpperCorner(bl, r + 1, ns), ns, None)
  }

  /** The clipped box is the set of grid nodes near `idx`. */
  lemma ClippedBox(idx: seq<nat>, below: nat, above: nat, ns: seq<nat>, p: seq<nat>)
    requires InRange(idx, ns)
    ensures BoxInGrid(LowerCorner(idx, below), UpperCorner(idx, above, ns), ns)
    ensures InBox(p, LowerCorner(idx, below), UpperCorner(idx, above, ns)) <==>
      InRange(p, ns) && Near(p, idx, below, above)
  {
  }

  /**
   * A flat index is in the neighbourhood exactly when it is the flat index of a
   * grid node other than `idx` that lies within `r` of `idx` on every axis
   * (a Chebyshev ball, not a Manhattan one).
   */
  lemma NeighborhoodMembers(ns: seq<nat>, idx: seq<nat>, r: nat, x: nat)
    requires InRange(idx, ns)
    ensures x in Neighborhood(ns, idx, r) <==>
      exists p :: InRange(p, ns) && Near(p, idx, r, r) && p != idx && Flatten(p, ns) == x
  {
    var lo, hi := LowerCorner(idx, r), UpperCorner(idx, r, ns);
    var c := Flatten(idx, ns);
    if x in Neighborhood(ns, idx, r) {
      var p := BoxMemberPoint(lo, hi, ns, Some(c), x);
      ClippedBox(idx, r, r, ns, p);
      assert p != idx;
    }
    if exists p :: InRange(p, ns) && Near(p, idx, r, r) && p != idx && Flatten(p, ns) == x {
      var p :| InRange(p, ns) && Near(p, idx, r, r) && p != idx && Flatten(p, ns) == x;
      ClippedBox(idx, r, r, ns, p);
      if x == c {
        FlattenInjective(p, idx, ns);
      }
      BoxPointMember(lo, hi, ns, Some(c), p);
    }
  }

  /** The neighbourhood never contains the flat index of its own centre. */
  lemma NeighborhoodExcludesCenter(ns: seq<nat>, idx: seq<nat>, r: nat)
    requires InRange(idx, ns)
    ensures Flatten(idx, ns) !in Neighborhood(ns, idx, r)
  {
    var lo, hi := LowerCorner(idx, r), UpperCorner(idx, r, ns);
    WithoutMembers(VisitFlats(lo, hi, ns, BoxSize(lo, hi)), Some(Flatten(idx, ns)), Flatten(idx, ns));
  }

  /** Each node of the neighbourhood appears once. */
  lemma NeighborhoodNoDup(ns: seq<nat>, idx: seq<nat>, r: nat)
    requires InRange(idx, ns)
    ensures NoDup(Neighborhood(ns, idx, r))
  {
    var lo, hi := LowerCorner(idx, r), UpperCorner(idx, r, ns);
    ClippedBox(idx, r, r, ns, idx);
    VisitNoDup(lo, hi, ns);
    WithoutNoDup(VisitFlats(lo, hi, ns, BoxSize(lo, hi)), Some(Flatten(idx, ns)));
  }

  /** The neighbourhood has one node fewer than its box: only the centre is left out. */
  lemma NeighborhoodSize(ns: seq<nat>, idx: seq<nat>, r: nat)
    requires InRange(idx, ns)
    ensures |Neighborhood(ns, idx, r)| == BoxSize(LowerCorner(idx, r), UpperCorner(idx, r, ns)) - 1
  {
    var lo, hi := LowerCorner(idx, r), UpperCorner(idx, r, ns);
    var all := VisitFlats(lo, hi, ns, BoxSize(lo, hi));
    ClippedBox(idx, r, r, ns, idx);
    VisitNoDup(lo, hi, ns);
    var i := BoxPointCovers(lo, hi, idx);
    assert all[i] == Flatten(idx, ns);
    WithoutLength(all, Some(Flatten(idx, ns)));
  }

  /** Every entry of `s` equals `k`. */
  predicate AllEqual(s: seq<nat>, k: nat)
  {
    forall d :: 0 <= d < |s| ==> s[d] == k
  }

  /** `b` to the power `n`. */
  function Pow(b: nat, n: nat): nat
  {
    if n == 0 then 1 else b * Pow(b, n - 1)
  }

  /** The product of `n` copies of `k` is `k` to the power `n`. */
  lemma {:induction false} ProductAllEqual(s: seq<nat>, k: nat)
    requires AllEqual(s, k)
    ensures Product(s) == Pow(k, |s|)
  {
    if |s| > 0 {
      ProductAllEqual(s[..|s| - 1], k);
    }
  }

  /** Any power of one is one. */
  lemma {:induction false} PowOne(n: nat)
    ensures Pow(1, n) == 1
  {
    if n > 0 {
      PowOne(n - 1);
    }
  }

  /** With radius 0 the neighbourhood is empty: its box is the centre alone, which is left out. */
  lemma NeighborhoodRadiusZero(ns: seq<nat>, idx: seq<nat>)
    requires InRange(idx, ns)
    ensures Neighborhood(ns, idx, 0) == []
  {
    var lo, hi := LowerCorner(idx, 0), UpperCorner(idx, 0, ns);
    ProductAllEqual(Extents(lo, hi), 1);
    PowOne(|idx|);
    NeighborhoodSize(ns, idx, 0);
  }

  /**
   * A flat index is in the envelope exactly when it is the flat index of a
   * grid node at most `r` under and `r + 1` over the bottom-left node on every
   * axis; no node is left out.
   */
  lemma EnvelopeMembers(ns: seq<nat>, bl: seq<nat>, r: nat, x: nat)
    requires InRange(bl, ns)
    ensures x in Envelope(ns, bl, r) <==>
      exists p :: InRange(p, ns) && Near(p, bl, r, r + 1) && Flatten(p, ns) == x
  {
    var lo, hi := LowerCorner(bl, r), UpperCorner(bl, r + 1, ns);
    if x in Envelope(ns, bl, r) {
      var p := BoxMemberPoint(lo, hi, ns, None, x);
      ClippedBox(bl, r, r + 1, ns, p);
      assert InRange(p, ns) && Near(p, bl, r, r + 1) && Flatten(p, ns) == x;
    }
    if exists p :: InRange(p, ns) && Near(p, bl, r, r + 1) && Flatten(p, ns) == x {
      var p :| InRange(p, ns) && Near(p, bl, r, r + 1) && Flatten(p, ns) == x;
      ClippedBox(bl, r, r + 1, ns, p);
      BoxPointMember(lo, hi, ns, None, p);
    }
  }

  /** The envelope holds every node of its box exactly once. */
  lemma EnvelopeSize(ns: seq<nat>, bl: seq<nat>, r: nat)
    requires InRange(bl, ns)
    ensures NoDup(Envelope(ns, bl, r))
    ensures |Envelope(ns, bl, r)| == BoxSize(LowerCorner(bl, r), UpperCorner(bl, r + 1, ns))
  {
    var lo, hi := LowerCorner(bl, r), UpperCorner(bl, r + 1, ns);
    var all := VisitFlats(lo, hi, ns, BoxSize(lo, hi));
    ClippedBox(bl, r, r + 1, ns, bl);
    VisitNoDup(lo, hi, ns);
    WithoutNoDup(all, None);
    WithoutLength(all, None);
  }

  /** With radius 0 and at least two nodes per axis, the envelope's box spans two nodes on every axis. */
  lemma CellExtents(ns: seq<nat>, bl: seq<nat>)
    requires InRange(bl, ns) && forall d :: 0 <= d < |ns| ==> bl[d] + 1 < ns[d]
    ensures AllEqual(Extents(LowerCorner(bl, 0), UpperCorner(bl, 1, ns)), 2)
  {
    var lo, hi := LowerCorner(bl, 0), UpperCorner(bl, 1, ns);
    var ext := Extents(lo, hi);
    forall d | 0 <= d < |ext|
      ensures ext[d] == 2
    {
      assert lo[d] == bl[d] && hi[d] == bl[d] + 1;
    }
  }

  /** With radius 0 and at least two nodes per axis, the envelope's box holds 2^D nodes. */
  lemma CellSize(ns: seq<nat>, bl: seq<nat>)
    requires InRange(bl, ns) && forall d :: 0 <= d < |ns| ==> bl[d] + 1 < ns[d]
    ensures BoxSize(LowerCorner(bl, 0), UpperCorner(bl, 1, ns)) == Pow(2, |ns|)
  {
    CellExtents(ns, bl);
    ProductAllEqual(Extents(LowerCorner(bl, 0), UpperCorner(bl, 1, ns)), 2);
  }

  /**
   * With radius 0 and at least two nodes per axis, the envelope of a
   * bottom-left node is its cell: 2^D distinct nodes, each `bl[d]` or
   * `bl[d] + 1` on every axis (by EnvelopeMembers with radius 0).
   */
  lemma EnvelopeCell(ns: seq<nat>, bl: seq<nat>)
    requires InRange(bl, ns) && forall d :: 0 <= d < |ns| ==> bl[d] + 1 < ns[d]
    ensures NoDup(Envelope(ns, bl, 0)) && |Envelope(ns, bl, 0)| == Pow(2, |ns|)
  {
    CellSize(ns, bl);
    EnvelopeSize(ns, bl, 0);
  }

  /** In a 3 x 3 grid, node [a, b] has flat index a + 3 * b. */
  lemma FlattenThree(a: nat, b: nat)
    ensures Flatten([a, b], [3, 3]) == a + 3 * b
  {
    var idx, ns: seq<nat> := [a, b], [3, 3];
    assert idx[..1] == [a] && ns[..1] == [3] && [a][..0] == [] && [3][..0] == [];
    assert Product([3]) == 3;
    assert Flatten([a], [3]) == a;
    assert Flatten(idx, ns) == a + b * 3;
  }

  /** The mixed-radix digits of 0 to 3 over two axes of 2 are [0, 0], [1, 0], [0, 1], [1, 1]. */
  lemma SquareDigits()
    ensures Product([2, 2]) == 4
    ensures Unflatten(0, [2, 2]) == [0, 0] && Unflatten(1, [2, 2]) == [1, 0]
    ensures Unflatten(2, [2, 2]) == [0, 1] && Unflatten(3, [2, 2]) == [1, 1]
  {
    var ext: seq<nat> := [2, 2];
    assert ext[..1] == [2] && [2][..0] == [];
    assert ext[1..] == [2] && [2][1..] == [];
    assert Unflatten(0, [2]) == [0] && Unflatten(1, [2]) == [1];
  }

  /** The walk over the box [0, 1] x [0, 1] visits [0, 0], [1, 0], [0, 1], [1, 1]. */
  lemma SquarePoints()
    ensures BoxSize([0, 0], [1, 1]) == 4
    ensures BoxPoint([0, 0], [1, 1], 0) == [0, 0] && BoxPoint([0, 0], [1, 1], 1) == [1, 0]
    ensures BoxPoint([0, 0], [1, 1], 2) == [0, 1] && BoxPoint([0, 0], [1, 1], 3) == [1, 1]
  {
    assert Extents([0, 0], [1, 1]) == [2, 2];
    SquareDigits();
  }

  /** In a 3 x 3 grid, the walk over the box [0, 1] x [0, 1] yields flat indices 0, 1, 3, 4. */
  lemma SquareWalk()
    ensures BoxSize([0, 0], [1, 1]) == 4
    ensures VisitFlats([0, 0], [1, 1], [3, 3], 4) == [0, 1, 3, 4]
  {
    SquarePoints();
    FlattenThree(0, 0);
    FlattenThree(1, 0);
    FlattenThree(0, 1);
    FlattenThree(1, 1);
    var all := VisitFlats([0, 0], [1, 1], [3, 3], 4);
    assert all[0] == 0 && all[1] == 1 && all[2] == 3 && all[3] == 4;
  }

  /** In a 3 x 3 grid of 9 nodes, node [1, 1] has flat index 4 and flat index 4 decodes to it. */
  lemma ThreeByThreeIndex()
    ensures Product([3, 3]) == 9
    ensures Flatten([1, 1], [3, 3]) == 4 && Unflatten(4, [3, 3]) == [1, 1]
  {
    var ns: seq<nat> := [3, 3];
    assert ns[..1] == [3] && [3][..0] == [] && ns[1..] == [3] && [3][1..] == [];
    FlattenThree(1, 1);
    assert Unflatten(1, [3]) == [1];
  }

  /** The boxes of radius 1 round [0, 0] and of the first cell of a 3 x 3 grid are both [0, 1] x [0, 1]. */
  lemma SquareCorners()
    ensures LowerCorner([0, 0], 1) == [0, 0] && LowerCorner([0, 0], 0) == [0, 0]
    ensures UpperCorner([0, 0], 1, [3, 3]) == [1, 1]
  {
  }

  /**
   * In a 3 x 3 grid, the neighbourhood of the corner [0, 0] with radius 1 is
   * [1, 0], [0, 1] and [1, 1]: the nodes off the grid are dropped and so is
   * the corner itself.
   */
  lemma CornerNeighborhood()
    ensures Neighborhood([3, 3], [0, 0], 1) == [1, 3, 4]
  {
    CornerWalk();
    DropCorner();
  }

  /** Leaving flat index 0 out of the walk [0, 1, 3, 4] leaves [1, 3, 4]. */
  lemma DropCorner()
    ensures Without([0, 1, 3, 4], Some(0)) == [1, 3, 4]
  {
    var all: seq<nat> := [0, 1, 3, 4];
    assert all[..0] == [];
    WithoutPrefix(all, Some(0), 0);
    assert all[..1] == [0];
    WithoutPrefix(all, Some(0), 1);
    assert all[..2] == [0, 1];
    WithoutPrefix(all, Some(0), 2);
    assert all[..3] == [0, 1, 3];
    WithoutPrefix(all, Some(0), 3);
    assert all[..4] == all;
  }

  /** The neighbourhood of the corner [0, 0] of a 3 x 3 grid filters the walk over [0, 1] x [0, 1]. */
  lemma CornerWalk()
    ensures Neighborhood([3, 3], [0, 0], 1) == Without([0, 1, 3, 4], Some(0))
  {
    SquareCorners();
    FlattenThree(0, 0);
    SquareWalk();
    assert Neighborhood([3, 3], [0, 0], 1) == BoxFlats([0, 0], [1, 1], [3, 3], Some(0));
  }

  /** In a 3 x 3 grid, the envelope of the first cell with radius 0 is its four corners. */
  lemma FirstCellEnvelope()
    ensures Envelope([3, 3], [0, 0], 0) == [0, 1, 3, 4]
  {
    SquareCorners();
    SquareWalk();
    var all: seq<nat> := [0, 1, 3, 4];
    assert Envelope([3, 3], [0, 0], 0) == Without(all, None);
    WithoutNone(all);
  }

  /** 2^32: unsigned 32-bit arithmetic wraps modulo this. */
  const UintModulus: nat := 0x1_0000_0000

  /**
   * The lower corner `getEnvelopingNodes` computes as written: `bl[d] - r` in
   * unsigned 32-bit arithmetic (wrapping below zero), then qMax with 0, which
   * leaves every unsigned value as it is.
   */
  function LowerCornerAsWritten(bl: seq<nat>, r: nat): (w: seq<nat>)
    ensures |w| == |bl|
    ensures forall d :: 0 <= d < |bl| ==> w[d] < UintModulus
    ensures forall d :: 0 <= d < |bl| && r <= bl[d] < UintModulus ==> w[d] == LowerCorner(bl, r)[d]
  {
    seq(|bl|, d requires 0 <= d < |bl| => (bl[d] - r) % UintModulus)
  }

  /**
   * When the radius exceeds the bottom-left index on an axis, the as-written
   * lower bound wraps to a huge value: above the box's upper bound, while the
   * intended bound is 0.
   */
  lemma LowerCornerUnderflow(ns: seq<nat>, bl: seq<nat>, r: nat, d: nat)
    requires InRange(bl, ns) && d < |bl| && bl[d] < r && r + ns[d] <= UintModulus
    ensures LowerCornerAsWritten(bl, r)[d] == UintModulus - (r - bl[d])
    ensures LowerCornerAsWritten(bl, r)[d] > UpperCorner(bl, r + 1, ns)[d]
    ensures LowerCorner(bl, r)[d] == 0
  {
    DivModUnique(bl[d] - r + UintModulus, UintModulus, 0, UintModulus - (r - bl[d]));
  }

  /**
   * A one-axis grid of 3 nodes, the point in the first cell and radius 1: the
   * odometer as written starts at node 4294967295, which is not a node of the
   * grid, and counts 4 points where the box holds 3.
   */
  lemma LowerCornerUnderflowExample()
    ensures LowerCornerAsWritten([0], 1) == [0xFFFF_FFFF]
    ensures Flatten(LowerCornerAsWritten([0], 1), [3]) == 0xFFFF_FFFF >= Product([3])
    ensures (UpperCorner([0], 2, [3])[0] - LowerCornerAsWritten([0], 1)[0] + 1) % UintModulus == 4
    ensures BoxSize(LowerCorner([0], 1), UpperCorner([0], 2, [3])) == 3
  {
    assert Product([3][..0]) == 1;
  }
}
