/**
 * Enumeration of the lattice points of an axis-aligned box in index space.
 *
 * The grid walks a box `[lo[d], hi[d]]` (per axis) with an odometer: axis 0
 * is incremented first, an axis that passes `hi[d]` is reset to `lo[d]` and
 * carries into the next axis. The i-th point it visits is `BoxPoint(lo, hi, i)`,
 * the box's corner plus the mixed-radix digits of `i` in the box's extents.
 */
module Odometer {
  import opened Radix

  datatype Option<T> = None | Some(value: T)

  /** The bounds of a box: one lower and one upper bound per axis, lower at most upper. */
  predicate Bounded(lo: seq<nat>, hi: seq<nat>)
  {
    |lo| == |hi| && forall d :: 0 <= d < |lo| ==> lo[d] <= hi[d]
  }

  /** `p` is a lattice point of the box, both bounds inclusive. */
  predicate InBox(p: seq<nat>, lo: seq<nat>, hi: seq<nat>)
  {
    |p| == |lo| == |hi| && forall d :: 0 <= d < |p| ==> lo[d] <= p[d] <= hi[d]
  }

  /** The number of lattice points of the box along each axis. */
  function Extents(lo: seq<nat>, hi: seq<nat>): (ext: seq<nat>)
    requires Bounded(lo, hi)
    ensures |ext| == |lo| && Positive(ext)
  {
    seq(|lo|, d requires 0 <= d < |lo| => hi[d] - lo[d] + 1)
  }

  /** The number of lattice points of the box. */
  function BoxSize(lo: seq<nat>, hi: seq<nat>): (n: nat)
    requires Bounded(lo, hi)
    ensures n > 0
  {
    Product(Extents(lo, hi))
  }

  /** The i-th point of the odometer walk: the corner `lo` plus the digits of `i`. */
  function BoxPoint(lo: seq<nat>, hi: seq<nat>, i: nat): (p: seq<nat>)
    requires Bounded(lo, hi)
    ensures InBox(p, lo, hi)
  {
    var u := Unflatten(i, Extents(lo, hi));
    seq(|lo|, d requires 0 <= d < |lo| => lo[d] + u[d])
  }

  /**
   * One odometer step on the point `p`: the first axis that can still be
   * incremented is, and every axis before it is reset to its lower bound.
   */
  function Step(p: seq<nat>, lo: seq<nat>, hi: seq<nat>): (q: seq<nat>)
    requires |p| == |lo| == |hi|
    ensures |q| == |p|
    ensures Bounded(lo, hi) && InBox(p, lo, hi) ==> InBox(q, lo, hi)
    decreases |p|
  {
    if |p| == 0 then []
    else if p[0] + 1 <= hi[0] then [p[0] + 1] + p[1..]
    else [lo[0]] + Step(p[1..], lo[1..], hi[1..])
  }

  /**
   * One odometer step on the axes from `d` on, with the axes before `d` kept:
   * either axis `d` is incremented and the step ends, or axis `d` is reset to
   * its lower bound and the step carries into axis `d + 1`.
   */
  lemma StepPrefix(p: seq<nat>, lo: seq<nat>, hi: seq<nat>, d: nat)
    requires |p| == |lo| == |hi| && d < |p|
    ensures p[d] + 1 <= hi[d] ==>
      p[..d] + Step(p[d..], lo[d..], hi[d..]) == p[d := p[d] + 1]
    ensures hi[d] < p[d] + 1 ==>
      p[..d] + Step(p[d..], lo[d..], hi[d..]) ==
      p[d := lo[d]][..d + 1] + Step(p[d := lo[d]][d + 1..], lo[d + 1..], hi[d + 1..])
  {
    assert p[d..][1..] == p[d + 1..];
    assert lo[d..][1..] == lo[d + 1..];
    assert hi[d..][1..] == hi[d + 1..];
    if p[d] + 1 <= hi[d] {
      assert p[d := p[d] + 1] == p[..d] + [p[d] + 1] + p[d + 1..];
    } else {
      var q := p[d := lo[d]];
      assert q[..d + 1] == p[..d] + [lo[d]];
      assert q[d + 1..] == p[d + 1..];
    }
  }

  /** The flat indices (in the grid `ns`) of the first `count` points of the walk, in order. */
  function VisitFlats(lo: seq<nat>, hi: seq<nat>, ns: seq<nat>, count: nat): (fs: seq<nat>)
    requires Bounded(lo, hi) && |ns| == |lo|
    ensures |fs| == count
  {
    seq(count, i requires 0 <= i < count => Flatten(BoxPoint(lo, hi, i), ns))
  }

  /** `s` with every occurrence of `skip` left out, order kept. */
  function Without(s: seq<nat>, skip: Option<nat>): (r: seq<nat>)
    ensures |r| <= |s|
  {
    if |s| == 0 then []
    else Without(s[..|s| - 1], skip) + (if skip == Some(s[|s| - 1]) then [] else [s[|s| - 1]])
  }

  /** The flat indices of the whole box in odometer order, leaving out `skip`. */
  function BoxFlats(lo: seq<nat>, hi: seq<nat>, ns: seq<nat>, skip: Option<nat>): (fs: seq<nat>)
    requires Bounded(lo, hi) && |ns| == |lo|
    ensures |fs| <= BoxSize(lo, hi)
  {
    Without(VisitFlats(lo, hi, ns, BoxSize(lo, hi)), skip)
  }

  /** A sequence without repeated elements. */
  predicate NoDup(s: seq<nat>)
  {
    forall i, j :: 0 <= i < j < |s| ==> s[i] != s[j]
  }

  /** The box lies inside the grid `ns`. */
  predicate BoxInGrid(lo: seq<nat>, hi: seq<nat>, ns: seq<nat>)
  {
    Bounded(lo, hi) && |ns| == |lo| && forall d :: 0 <= d < |ns| ==> hi[d] < ns[d]
  }

  /** The walk starts at the box's lower corner. */
  lemma BoxPointZero(lo: seq<nat>, hi: seq<nat>)
    requires Bounded(lo, hi)
    ensures BoxPoint(lo, hi, 0) == lo
  {
    UnflattenZero(Extents(lo, hi));
  }

  /** The point of the walk unfolds axis by axis, like the digits of `i`. */
  lemma BoxPointCons(lo: seq<nat>, hi: seq<nat>, i: nat, q: nat, r: nat)
    requires Bounded(lo, hi) && |lo| > 0
    requires r < hi[0] - lo[0] + 1 && i == (hi[0] - lo[0] + 1) * q + r
    ensures BoxPoint(lo, hi, i) == [lo[0] + r] + BoxPoint(lo[1..], hi[1..], q)
  {
    DivModUnique(i, hi[0] - lo[0] + 1, q, r);
    assert Extents(lo, hi)[1..] == Extents(lo[1..], hi[1..]);
  }

  /** The odometer step moves the walk from its i-th point to its (i+1)-th. */
  lemma {:induction false} StepAdvances(lo: seq<nat>, hi: seq<nat>, i: nat)
    requires Bounded(lo, hi)
    ensures Step(BoxPoint(lo, hi, i), lo, hi) == BoxPoint(lo, hi, i + 1)
    decreases |lo|
  {
    if |lo| > 0 {
      var e := hi[0] - lo[0] + 1;
      var q, r := i / e, i % e;
      DivModSplit(i, e);
      var lo', hi' := lo[1..], hi[1..];
      var p := BoxPoint(lo, hi, i);
      var rest := BoxPoint(lo', hi', q);
      BoxPointCons(lo, hi, i, q, r);
      assert p[0] == lo[0] + r && p[1..] == rest;
      DigitSucc(i, e, q, r);
      if r + 1 < e {
        BoxPointCons(lo, hi, i + 1, q, r + 1);
        assert Step(p, lo, hi) == [p[0] + 1] + p[1..];
      } else {
        BoxPointCons(lo, hi, i + 1, q + 1, 0);
        StepAdvances(lo', hi', q);
        assert Step(p, lo, hi) == [lo[0]] + Step(rest, lo', hi');
      }
    }
  }

  /** Every point of the box is visited, at the index given by its digits. */
  lemma BoxPointCovers(lo: seq<nat>, hi: seq<nat>, p: seq<nat>) returns (i: nat)
    requires InBox(p, lo, hi) && Bounded(lo, hi)
    ensures i < BoxSize(lo, hi) && BoxPoint(lo, hi, i) == p
  {
    var ext := Extents(lo, hi);
    var u: seq<nat> := seq(|p|, d requires 0 <= d < |p| && lo[d] <= p[d] => p[d] - lo[d]);
    assert InRange(u, ext);
    i := Flatten(u, ext);
    FlattenBound(u, ext);
    UnflattenFlatten(u, ext);
    var b := BoxPoint(lo, hi, i);
    assert Unflatten(i, ext) == u;
    forall d | 0 <= d < |p|
      ensures b[d] == p[d]
    {
      assert b[d] == lo[d] + u[d];
    }
    assert b == p;
  }

  /** The walk does not visit any point of the box twice. */
  lemma BoxPointInjective(lo: seq<nat>, hi: seq<nat>, i: nat, j: nat)
    requires Bounded(lo, hi) && i < BoxSize(lo, hi) && j < BoxSize(lo, hi)
    requires BoxPoint(lo, hi, i) == BoxPoint(lo, hi, j)
    ensures i == j
  {
    var ext := Extents(lo, hi);
    var ui, uj := Unflatten(i, ext), Unflatten(j, ext);
    var p := BoxPoint(lo, hi, i);
    assert forall d :: 0 <= d < |lo| ==> ui[d] == p[d] - lo[d] == uj[d];
    assert ui == uj;
    UnflattenInjective(i, j, ext);
  }

  /** Filtering a prefix one element longer appends that element, unless it is `skip`. */
  lemma WithoutPrefix(s: seq<nat>, skip: Option<nat>, i: nat)
    requires i < |s|
    ensures Without(s[..i + 1], skip) ==
      Without(s[..i], skip) + (if skip == Some(s[i]) then [] else [s[i]])
  {
    assert s[..i + 1][..i] == s[..i];
  }

  /**
   * One step of the walk: from the i-th point with the filtered flat indices
   * of the points before it, emitting the point's flat index `c` unless it is
   * `skip` and stepping the odometer reaches the (i+1)-th point with the
   * filtered flat indices of the points up to it.
   */
  lemma WalkAdvance(lo: seq<nat>, hi: seq<nat>, ns: seq<nat>, skip: Option<nat>, i: nat,
                    p: seq<nat>, c: nat, kept: seq<nat>)
    requires Bounded(lo, hi) && |ns| == |lo|
    requires p == BoxPoint(lo, hi, i) && c == Flatten(p, ns) && kept == Without(VisitFlats(lo, hi, ns, i), skip)
    ensures Step(p, lo, hi) == BoxPoint(lo, hi, i + 1)
    ensures (if skip == Some(c) then kept else kept + [c]) == Without(VisitFlats(lo, hi, ns, i + 1), skip)
  {
    var s := VisitFlats(lo, hi, ns, i + 1);
    assert s[..i] == VisitFlats(lo, hi, ns, i);
    assert s[..i + 1] == s;
    WithoutPrefix(s, skip, i);
    StepAdvances(lo, hi, i);
  }

  /** With nothing to skip, filtering leaves the sequence as it is. */
  lemma {:induction false} WithoutNone(s: seq<nat>)
    ensures Without(s, None) == s
  {
    if |s| > 0 {
      WithoutNone(s[..|s| - 1]);
      assert s == s[..|s| - 1] + [s[|s| - 1]];
    }
  }

  /** Filtering keeps exactly the elements other than `skip`. */
  lemma {:induction false} WithoutMembers(s: seq<nat>, skip: Option<nat>, x: nat)
    ensures x in Without(s, skip) <==> x in s && skip != Some(x)
  {
    if |s| > 0 {
      var front := s[..|s| - 1];
      WithoutMembers(front, skip, x);
      assert s == front + [s[|s| - 1]];
    }
  }

  /** Filtering a sequence without repetitions leaves one without repetitions. */
  lemma {:induction false} WithoutNoDup(s: seq<nat>, skip: Option<nat>)
    requires NoDup(s)
    ensures NoDup(Without(s, skip))
  {
    if |s| > 0 {
      var front := s[..|s| - 1];
      var last := s[|s| - 1];
      WithoutNoDup(front, skip);
      WithoutMembers(front, skip, last);
      assert last !in front;
    }
  }

  /**
   * Filtering a sequence without repetitions drops one element if `skip`
   * occurs in it and none otherwise.
   */
  lemma {:induction false} WithoutLength(s: seq<nat>, skip: Option<nat>)
    requires NoDup(s)
    ensures |Without(s, skip)| == if skip.Some? && skip.value in s then |s| - 1 else |s|
  {
    if |s| > 0 {
      var front := s[..|s| - 1];
      var last := s[|s| - 1];
      WithoutLength(front, skip);
      assert s == front + [last];
      assert last !in front;
    }
  }

  /** Every flat index of the box's walk is that of a lattice point of the box other than `skip`. */
  lemma BoxMemberPoint(lo: seq<nat>, hi: seq<nat>, ns: seq<nat>, skip: Option<nat>, x: nat) returns (p: seq<nat>)
    requires Bounded(lo, hi) && |ns| == |lo|
    requires x in BoxFlats(lo, hi, ns, skip)
    ensures skip != Some(x) && InBox(p, lo, hi) && Flatten(p, ns) == x
  {
    var all := VisitFlats(lo, hi, ns, BoxSize(lo, hi));
    WithoutMembers(all, skip, x);
    var i :| 0 <= i < |all| && all[i] == x;
    p := BoxPoint(lo, hi, i);
  }

  /** The flat index of every lattice point of the box other than `skip` is in the box's walk. */
  lemma BoxPointMember(lo: seq<nat>, hi: seq<nat>, ns: seq<nat>, skip: Option<nat>, p: seq<nat>)
    requires Bounded(lo, hi) && |ns| == |lo|
    requires InBox(p, lo, hi) && skip != Some(Flatten(p, ns))
    ensures Flatten(p, ns) in BoxFlats(lo, hi, ns, skip)
  {
    var all := VisitFlats(lo, hi, ns, BoxSize(lo, hi));
    var i := BoxPointCovers(lo, hi, p);
    assert all[i] == Flatten(p, ns);
    WithoutMembers(all, skip, Flatten(p, ns));
  }

  /** The box's flat indices are exactly those of its lattice points, minus `skip`. */
  lemma BoxMembers(lo: seq<nat>, hi: seq<nat>, ns: seq<nat>, skip: Option<nat>, x: nat)
    requires Bounded(lo, hi) && |ns| == |lo|
    ensures x in BoxFlats(lo, hi, ns, skip) <==>
      skip != Some(x) && exists p :: InBox(p, lo, hi) && Flatten(p, ns) == x
  {
    if x in BoxFlats(lo, hi, ns, skip) {
      var p := BoxMemberPoint(lo, hi, ns, skip, x);
    }
    if skip != Some(x) && exists p :: InBox(p, lo, hi) && Flatten(p, ns) == x {
      var p :| InBox(p, lo, hi) && Flatten(p, ns) == x;
      BoxPointMember(lo, hi, ns, skip, p);
    }
  }

  /** Inside the grid, distinct visits have distinct flat indices. */
  lemma VisitFlatInjective(lo: seq<nat>, hi: seq<nat>, ns: seq<nat>, i: nat, j: nat)
    requires BoxInGrid(lo, hi, ns) && i < BoxSize(lo, hi) && j < BoxSize(lo, hi)
    requires Flatten(BoxPoint(lo, hi, i), ns) == Flatten(BoxPoint(lo, hi, j), ns)
    ensures i == j
  {
    FlattenInjective(BoxPoint(lo, hi, i), BoxPoint(lo, hi, j), ns);
    BoxPointInjective(lo, hi, i, j);
  }

  /** Inside the grid, the walk never yields the same flat index twice. */
  lemma VisitNoDup(lo: seq<nat>, hi: seq<nat>, ns: seq<nat>)
    requires BoxInGrid(lo, hi, ns)
    ensures NoDup(VisitFlats(lo, hi, ns, BoxSize(lo, hi)))
  {
    var all := VisitFlats(lo, hi, ns, BoxSize(lo, hi));
    forall i, j | 0 <= i < j < |all|
      ensures all[i] != all[j]
    {
      if all[i] == all[j] {
        VisitFlatInjective(lo, hi, ns, i, j);
      }
    }
  }
}
