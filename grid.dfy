/**
 * The D-dimensional uniform grid: its configuration (node counts per axis and
 * the bounds of the data range), the integer fields `rasterize` derives from it
 * (the node count and the index strides) and the index queries built on them.
 *
 * The continuous query point enters the node lookups as a scaled position per
 * axis, an integer: the point's offset from the lower bound in strides,
 * truncated (bottom-left lookups) or rounded (nearest-node lookups).
 */
module UniformGrid {
  import opened Radix
  import opened Odometer
  import opened Stencil

  /**
   * `s` resized to `n` entries, like QVector::resize: the first entries are
   * kept, entries past the old end are `fill`.
   */
  function Resize<T>(s: seq<T>, n: nat, fill: T): (r: seq<T>)
    ensures |r| == n
    ensures forall i :: 0 <= i < n && i < |s| ==> r[i] == s[i]
    ensures forall i :: |s| <= i < n ==> r[i] == fill
  {
    if n <= |s| then s[..n] else s + seq(n - |s|, _ => fill)
  }

  /** A new array holding `a` resized to `n` entries. */
  method Resized<T>(a: array<T>, n: nat, fill: T) returns (b: array<T>)
    ensures fresh(b)
    ensures b[..] == Resize(a[..], n, fill)
  {
    b := new T[n](_ => fill);
    var m := if n < a.Length then n else a.Length;
    for i := 0 to m
      invariant forall k :: 0 <= k < i ==> b[k] == a[k]
      invariant forall k :: i <= k < n ==> b[k] == fill
    {
      b[i] := a[i];
    }
  }

  /**
   * One odometer step on `cur` within the box [lo, hi]: axis 0 is incremented;
   * an axis that passes its upper bound is reset to its lower bound and the
   * next axis is incremented.
   */
  method Increment(cur: array<nat>, lo: seq<nat>, hi: seq<nat>)
    requires cur.Length == |lo| == |hi|
    modifies cur
    ensures cur[..] == Step(old(cur[..]), lo, hi)
  {
    ghost var next := Step(cur[..], lo, hi);
    assert cur[0..] == cur[..];
    var d := 0;
    while d < cur.Length
      invariant 0 <= d <= cur.Length
      invariant cur[..d] + Step(cur[d..], lo[d..], hi[d..]) == next
    {
      ghost var pre := cur[..];
      StepPrefix(pre, lo, hi, d);
      cur[d] := cur[d] + 1;
      if cur[d] <= hi[d] {
        assert cur[..] == pre[d := pre[d] + 1] by {
          assert forall i :: 0 <= i < cur.Length ==> cur[i] == pre[d := pre[d] + 1][i];
        }
        break;
      }
      cur[d] := lo[d];
      assert cur[..] == pre[d := lo[d]] by {
        assert forall i :: 0 <= i < cur.Length ==> cur[i] == pre[d := lo[d]][i];
      }
      d := d + 1;
    }
  }

  /** The number of lattice points of the box [lo, hi]: the product of its extents. */
  method BoxCount(lo: seq<nat>, hi: seq<nat>) returns (count: nat)
    requires Bounded(lo, hi)
    ensures count == BoxSize(lo, hi)
  {
    ghost var ext := Extents(lo, hi);
    count := 1;
    for d := 0 to |lo|
      invariant count == Product(ext[..d])
    {
      assert ext[..d + 1][..d] == ext[..d];
      count := count * (hi[d] - lo[d] + 1);
    }
    assert ext[..|lo|] == ext;
  }

  /** A new odometer array set to the lower corner `lo`. */
  method Corner(lo: seq<nat>) returns (cur: array<nat>)
    ensures fresh(cur) && cur[..] == lo
  {
    cur := new nat[|lo|];
    for d := 0 to |lo|
      invariant cur[..d] == lo[..d]
    {
      cur[d] := lo[d];
    }
  }

  /**
   * The bounds of the box reaching `below` nodes down and `above` nodes up from
   * the node `idx`, clipped to the grid `ns`: the lower bound stops at 0 and
   * the upper bound at the last node.
   */
  method ClipBox(idx: seq<nat>, below: nat, above: nat, ns: seq<nat>) returns (bmin: array<nat>, bmax: array<nat>)
    requires InRange(idx, ns)
    ensures fresh(bmin) && fresh(bmax)
    ensures bmin[..] == LowerCorner(idx, below) && bmax[..] == UpperCorner(idx, above, ns)
  {
    bmin := new nat[|idx|];
    bmax := new nat[|idx|];
    for d := 0 to |idx|
      invariant bmin[..d] == LowerCorner(idx, below)[..d]
      invariant bmax[..d] == UpperCorner(idx, above, ns)[..d]
    {
      bmin[d] := if idx[d] < below then 0 else idx[d] - below;
      bmax[d] := if idx[d] + above < ns[d] - 1 then idx[d] + above else ns[d] - 1;
    }
  }

  class Grid {
    /** The number of dimensions. */
    var dim: nat
    /** The number of nodes per axis. */
    var N: array<nat>
    /** The index stride per axis: the product of the node counts of all faster axes. */
    var cumN: array<nat>
    /** The lower bounds of the data range per axis. */
    var min: array<real>
    /** The upper bounds of the data range per axis. */
    var max: array<real>
    /** The total number of nodes. */
    var nodeCount: nat

    /** Every per-axis array has one entry per dimension; the arrays are distinct. */
    ghost predicate Valid()
      reads this
    {
      N.Length == dim && cumN.Length == dim && min.Length == dim && max.Length == dim
      && N != cumN && min != max
    }

    /** The derived fields agree with the node counts, as `Rasterize` leaves them. */
    ghost predicate Rasterized()
      reads this, N, cumN
    {
      Valid() && dim >= 1 && cumN[..] == Strides(N[..]) && nodeCount == Product(N[..])
    }

    /** An empty grid with no dimensions and no nodes. */
    constructor()
      ensures Valid() && dim == 0 && nodeCount == 0
    {
      dim := 0;
      N := new nat[0];
      cumN := new nat[0];
      min := new real[0];
      max := new real[0];
      nodeCount := 0;
    }

    /** Sets the number of dimensions, resizing every per-axis array (new entries are 0). */
    method SetDim(d: nat)
      requires Valid()
      modifies this
      ensures Valid() && dim == d && nodeCount == old(nodeCount)
      ensures N[..] == Resize(old(N[..]), d, 0) && cumN[..] == Resize(old(cumN[..]), d, 0)
      ensures min[..] == Resize(old(min[..]), d, 0.0) && max[..] == Resize(old(max[..]), d, 0.0)
      ensures fresh(N) && fresh(cumN) && fresh(min) && fresh(max)
    {
      dim := d;
      N := Resized(N, d, 0);
      max := Resized(max, d, 0.0);
      min := Resized(min, d, 0.0);
      cumN := Resized(cumN, d, 0);
    }

    /** Sets the node count of every axis from the first `dim` entries of `ns`. */
    method SetN(ns: seq<nat>)
      requires Valid() && |ns| >= dim
      modifies N
      ensures N[..] == ns[..dim]
    {
      for d := 0 to dim
        invariant N[..d] == ns[..d]
      {
        N[d] := ns[d];
      }
    }

    /** Sets the same node count `n` on every axis. */
    method SetUniformN(n: nat)
      requires Valid()
      modifies N
      ensures AllEqual(N[..], n)
    {
      var buf := new nat[dim];
      for d := 0 to dim
        invariant AllEqual(buf[..d], n)
      {
        buf[d] := n;
      }
      SetN(buf[..]);
    }

    /** Sets the lower bounds from the first `dim` entries of `m`. */
    method SetMin(m: seq<real>)
      requires Valid() && |m| >= dim
      modifies min
      ensures min[..] == m[..dim]
    {
      for d := 0 to dim
        invariant min[..d] == m[..d]
      {
        min[d] := m[d];
      }
    }

    /** Sets the upper bounds from the first `dim` entries of `m`. */
    method SetMax(m: seq<real>)
      requires Valid() && |m| >= dim
      modifies max
      ensures max[..] == m[..dim]
    {
      for d := 0 to dim
        invariant max[..d] == m[..d]
      {
        max[d] := m[d];
      }
    }

    /** Computes the node count and the index strides from the node counts. */
    method Rasterize()
      requires Valid() && dim >= 1
      modifies this`nodeCount, cumN
      ensures Rasterized()
    {
      assert N[..1][..0] == [];
      nodeCount := N[0];
      for d := 1 to dim
        invariant nodeCount == Product(N[..d])
      {
        assert N[..d + 1][..d] == N[..d];
        MulMonotone(0, nodeCount, N[d]);
        nodeCount := nodeCount * N[d];
      }
      assert N[..dim] == N[..];
      ghost var ns := N[..];
      ghost var strides := Strides(ns);
      cumN[0] := 1;
      for d := 1 to dim
        invariant N[..] == ns && nodeCount == Product(ns)
        invariant forall i :: 0 <= i < d ==> cumN[i] == strides[i]
      {
        StridesStep(ns, d - 1);
        MulMonotone(0, cumN[d - 1], N[d - 1]);
        cumN[d] := cumN[d - 1] * N[d - 1];
      }
      assert cumN[..] == strides;
    }

    /** The flat index of the dim index `idx`: `idx[0]` plus `idx[d] * cumN[d]` for the other axes. */
    method FlatIndex(idx: seq<nat>) returns (k: nat)
      requires Rasterized() && |idx| == dim
      ensures k == Flatten(idx, N[..])
      ensures InRange(idx, N[..]) ==> k < nodeCount && Unflatten(k, N[..]) == idx
    {
      ghost var ns := N[..];
      FlattenPrefix(idx, ns, 0, 1, 0);
      var sum: int := idx[0];
      for d := 1 to dim
        invariant sum == Flatten(idx[..d], ns[..d])
      {
        FlattenPrefix(idx, ns, d, cumN[d], sum);
        sum := sum + idx[d] * cumN[d];
      }
      assert idx[..dim] == idx && ns[..dim] == ns;
      k := sum;
      if InRange(idx, N[..]) {
        FlattenBound(idx, N[..]);
        UnflattenFlatten(idx, N[..]);
      }
    }

    /** The dim index of the flat index `flat`: digit `d` is `v % N[d]`, then `v` is divided by `N[d]`. */
    method DimIndex(flat: nat) returns (idx: seq<nat>)
      requires Valid() && Positive(N[..])
      ensures idx == Unflatten(flat, N[..])
      ensures InRange(idx, N[..])
      ensures flat < Product(N[..]) ==> Flatten(idx, N[..]) == flat
    {
      ghost var ns := N[..];
      idx := [];
      var v := flat;
      assert ns[0..] == ns;
      for d := 0 to dim
        invariant Positive(ns[d..])
        invariant idx + Unflatten(v, ns[d..]) == Unflatten(flat, ns)
      {
        var n := N[d];
        assert n == ns[d];
        UnflattenStep(idx, v, ns, d, Unflatten(flat, ns));
        QuotientNat(v, n);
        idx := idx + [v % n];
        v := v / n;
      }
      if flat < Product(ns) {
        FlattenUnflatten(flat, ns);
      }
    }

    /** The bottom-left node of the cell holding the point with scaled position `pos`. */
    method NodeIndexBl(pos: seq<int>) returns (idx: seq<nat>)
      requires Valid() && |pos| == dim
      ensures idx == BottomLeft(pos, N[..])
    {
      idx := [];
      for d := 0 to dim
        invariant idx == BottomLeft(pos, N[..])[..d]
      {
        idx := idx + [QBound(0, pos[d], N[d] as int - 2)];
      }
    }

    /** The node nearest to the point with scaled position `pos`. */
    method NodeIndex(pos: seq<int>) returns (idx: seq<nat>)
      requires Valid() && |pos| == dim
      ensures idx == Nearest(pos, N[..])
    {
      idx := [];
      for d := 0 to dim
        invariant idx == Nearest(pos, N[..])[..d]
      {
        idx := idx + [QBound(0, pos[d], N[d] as int - 1)];
      }
    }

    /** The flat index of the bottom-left node of the cell holding the point with scaled position `pos`. */
    method NodeFlatIndexBl(pos: seq<int>) returns (k: nat)
      requires Rasterized() && |pos| == dim
      ensures k == Flatten(BottomLeft(pos, N[..]), N[..])
      ensures Positive(N[..]) ==> k < nodeCount
    {
      var idx := NodeIndexBl(pos);
      k := FlatIndex(idx);
    }

    /** The flat index of the node nearest to the point with scaled position `pos`. */
    method NodeFlatIndex(pos: seq<int>) returns (k: nat)
      requires Rasterized() && |pos| == dim
      ensures k == Flatten(Nearest(pos, N[..]), N[..])
      ensures Positive(N[..]) ==> k < nodeCount
    {
      var idx := NodeIndex(pos);
      k := FlatIndex(idx);
    }

    /**
     * The odometer walk over the box [lo, hi]: it counts the box's lattice
     * points, starts at `lo` and yields the flat index of each point it visits,
     * leaving out `skip`.
     */
    method Walk(lo: seq<nat>, hi: seq<nat>, skip: Option<nat>) returns (flats: seq<nat>)
      requires Rasterized() && |lo| == dim && Bounded(lo, hi)
      ensures flats == BoxFlats(lo, hi, N[..], skip)
    {
      var count := BoxCount(lo, hi);
      var cur := Corner(lo);
      BoxPointZero(lo, hi);
      ghost var ns := N[..];
      flats := [];
      for i := 0 to count
        invariant cur[..] == BoxPoint(lo, hi, i)
        invariant flats == Without(VisitFlats(lo, hi, ns, i), skip)
      {
        var c := FlatIndex(cur[..]);
        WalkAdvance(lo, hi, ns, skip, i, cur[..], c, flats);
        if skip != Some(c) {
          flats := flats + [c];
        }
        Increment(cur, lo, hi);
      }
    }

    /**
     * The flat indices of the nodes within `radius` of the node `idx` on every
     * axis, clipped to the grid, in odometer order, without `idx` itself.
     */
    method EnumerateNeighborhood(idx: seq<nat>, radius: nat) returns (nb: seq<nat>)
      requires Rasterized() && InRange(idx, N[..])
      ensures nb == Neighborhood(N[..], idx, radius)
      ensures NoDup(nb) && Flatten(idx, N[..]) !in nb
      ensures |nb| == BoxSize(LowerCorner(idx, radius), UpperCorner(idx, radius, N[..])) - 1
    {
      var center := FlatIndex(idx);
      var bmin, bmax := ClipBox(idx, radius, radius, N[..]);
      ClippedBox(idx, radius, radius, N[..], idx);
      nb := Walk(bmin[..], bmax[..], Some(center));
      NeighborhoodNoDup(N[..], idx, radius);
      NeighborhoodExcludesCenter(N[..], idx, radius);
      NeighborhoodSize(N[..], idx, radius);
    }

    /** The neighbourhood of the node with flat index `n`. */
    method EnumerateNeighborhoodOfNode(n: nat, radius: nat) returns (nb: seq<nat>)
      requires Rasterized() && Positive(N[..])
      ensures nb == Neighborhood(N[..], Unflatten(n, N[..]), radius)
      ensures n < nodeCount ==> n !in nb
    {
      var idx := DimIndex(n);
      nb := EnumerateNeighborhood(idx, radius);
    }

    /**
     * The flat indices of the nodes of the cell holding the point with scaled
     * position `pos`, widened by `radius` nodes on every side and clipped to
     * the grid, in odometer order. The lower bound is clamped at 0 before the
     * subtraction can go below it.
     */
    method EnvelopingNodes(pos: seq<int>, radius: nat) returns (nodes: seq<nat>)
      requires Rasterized() && Positive(N[..]) && |pos| == dim
      ensures nodes == Envelope(N[..], BottomLeft(pos, N[..]), radius)
      ensures NoDup(nodes)
      ensures |nodes| == BoxSize(LowerCorner(BottomLeft(pos, N[..]), radius),
                                 UpperCorner(BottomLeft(pos, N[..]), radius + 1, N[..]))
    {
      var idx := NodeIndexBl(pos);
      var bmin, bmax := ClipBox(idx, radius, radius + 1, N[..]);
      ClippedBox(idx, radius, radius + 1, N[..], idx);
      nodes := Walk(bmin[..], bmax[..], None);
      EnvelopeSize(N[..], idx, radius);
    }

    /** Whether the point `x` lies within the bounds on every axis, both bounds inclusive. */
    method ContainsPoint(x: seq<real>) returns (inside: bool)
      requires Valid() && |x| >= dim
      ensures inside <==> forall d :: 0 <= d < dim ==> min[d] <= x[d] <= max[d]
    {
      for d := 0 to dim
        invariant forall k :: 0 <= k < d ==> min[k] <= x[k] <= max[k]
      {
        if x[d] > max[d] || x[d] < min[d] {
          return false;
        }
      }
      return true;
    }
  }
}
