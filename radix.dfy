/**
 * Mixed-radix arithmetic behind the grid's index conversions.
 *
 * A grid with `ns[d]` nodes on axis `d` numbers its nodes with a flat index;
 * dimension 0 varies fastest, so axis `d` has the index stride
 * `Product(ns[..d])` and a dim index `idx` has the flat index
 * `Flatten(idx, ns)`, the sum of `idx[d] * Product(ns[..d])`.
 * `Unflatten` is the digit-by-digit decomposition the grid uses to go back.
 */
module Radix {

  /** Every axis has at least one node, so every radix can be divided by. */
  predicate Positive(ns: seq<nat>)
  {
    forall d :: 0 <= d < |ns| ==> ns[d] > 0
  }

  /** `idx` is a dim index of a node of the grid `ns`. */
  predicate InRange(idx: seq<nat>, ns: seq<nat>)
  {
    |idx| == |ns| && forall d :: 0 <= d < |ns| ==> idx[d] < ns[d]
  }

  /** The product of all node counts: the number of nodes of the grid. */
  function Product(ns: seq<nat>): (p: nat)
    ensures Positive(ns) ==> p > 0
  {
    if |ns| == 0 then 1 else Product(ns[..|ns| - 1]) * ns[|ns| - 1]
  }

  /** The index strides of the axes: the product of the node counts of all faster axes. */
  function Strides(ns: seq<nat>): (cum: seq<nat>)
    ensures |cum| == |ns|
    ensures |ns| > 0 ==> cum[0] == 1
    ensures Positive(ns) ==> forall d :: 0 <= d < |ns| ==> cum[d] > 0
  {
    seq(|ns|, d requires 0 <= d < |ns| => Product(ns[..d]))
  }

  /** Each stride is the one before it times the node count of the axis before it. */
  lemma StridesStep(ns: seq<nat>, d: nat)
    requires d + 1 < |ns|
    ensures Strides(ns)[d + 1] == Strides(ns)[d] * ns[d]
  {
    assert ns[..d + 1][..d] == ns[..d];
  }

  /** The flat index of the dim index `idx`: the sum of `idx[d] * Product(ns[..d])`. */
  function Flatten(idx: seq<nat>, ns: seq<nat>): nat
    requires |idx| == |ns|
  {
    if |idx| == 0 then 0
    else Flatten(idx[..|idx| - 1], ns[..|ns| - 1]) + idx[|idx| - 1] * Product(ns[..|ns| - 1])
  }

  /** The dim index of the flat index `v`: digit `d` is taken modulo `ns[d]`, then `v` is divided by it. */
  function Unflatten(v: nat, ns: seq<nat>): (idx: seq<nat>)
    requires Positive(ns)
    ensures InRange(idx, ns)
    decreases |ns|
  {
    if |ns| == 0 then [] else [v % ns[0]] + Unflatten(v / ns[0], ns[1..])
  }

  /** Extending a dim index by one axis adds that axis's digit times its stride. */
  lemma FlattenPrefix(idx: seq<nat>, ns: seq<nat>, d: nat, stride: nat, acc: int)
    requires |idx| == |ns| && d < |idx| && stride == Strides(ns)[d] && acc == Flatten(idx[..d], ns[..d])
    ensures acc + idx[d] * stride == Flatten(idx[..d + 1], ns[..d + 1])
  {
    assert idx[..d + 1][..d] == idx[..d] && ns[..d + 1][..d] == ns[..d];
  }

  /**
   * One step of the decoding loop: moving digit `d` (`v % ns[d]`) from the
   * undecoded quotient `v` onto the decoded prefix keeps the whole decoding.
   */
  lemma UnflattenStep(prefix: seq<nat>, v: nat, ns: seq<nat>, d: nat, full: seq<nat>)
    requires Positive(ns) && d < |ns|
    requires Positive(ns[d..]) && prefix + Unflatten(v, ns[d..]) == full
    ensures Positive(ns[d + 1..])
    ensures (prefix + [v % ns[d]]) + Unflatten(v / ns[d], ns[d + 1..]) == full
  {
    assert ns[d..][1..] == ns[d + 1..];
    var rest := Unflatten(v / ns[d], ns[d + 1..]);
    assert Unflatten(v, ns[d..]) == [v % ns[d]] + rest;
    assert (prefix + [v % ns[d]]) + rest == prefix + ([v % ns[d]] + rest);
  }

  /** Multiplication by a natural number is monotone. */
  lemma {:induction false} MulMonotone(a: nat, b: nat, c: nat)
    requires a <= b
    ensures a * c <= b * c
  {
    if c > 0 {
      MulMonotone(a, b, c - 1);
      assert a * c == a * (c - 1) + a;
      assert b * c == b * (c - 1) + b;
    }
  }

  /** Euclidean division is determined by any quotient and remainder that fit. */
  lemma DivModUnique(x: nat, b: nat, q: nat, r: nat)
    requires b > 0 && r < b && x == b * q + r
    ensures x / b == q && x % b == r
  {
    var q', r' := x / b, x % b;
    assert x == b * q' + r';
    if q' < q {
      MulMonotone(q' + 1, q, b);
    } else if q < q' {
      MulMonotone(q + 1, q', b);
    }
  }

  /** Euclidean division splits a number into quotient and remainder. */
  lemma DivModSplit(x: nat, b: nat)
    requires b > 0
    ensures x == b * (x / b) + x % b && x % b < b
  {
  }

  /** The quotient of a natural number by a positive one is a natural number no larger. */
  lemma QuotientNat(x: nat, b: nat)
    requires b > 0
    ensures 0 <= x / b <= x
  {
    DivModSplit(x, b);
    if x / b > x {
      MulMonotone(1, b, x / b);
    }
  }

  /** The successor of `b * q + r`: the digit `r` goes up by one, or it wraps and `q` goes up. */
  lemma DigitSucc(x: nat, b: nat, q: nat, r: nat)
    requires r < b && x == b * q + r
    ensures r + 1 < b ==> x + 1 == b * q + (r + 1)
    ensures r + 1 == b ==> x + 1 == b * (q + 1) + 0
  {
  }

  /** A number below `b * p` has a quotient by `b` below `p`. */
  lemma DivBelow(v: nat, b: nat, p: nat)
    requires b > 0 && v < b * p
    ensures v / b < p
  {
    if v / b >= p {
      MulMonotone(p, v / b, b);
    }
  }

  /** Multiplication regroups. */
  lemma MulAssoc(a: nat, b: nat, c: nat)
    ensures a * b * c == a * (b * c)
  {
  }

  /** The product also unfolds from the front. */
  lemma {:induction false} ProductCons(ns: seq<nat>)
    requires |ns| > 0
    ensures Product(ns) == ns[0] * Product(ns[1..])
  {
    var m := |ns|;
    if m > 1 {
      var front := ns[..m - 1];
      ProductCons(front);
      assert front[1..] == ns[1..][..m - 2];
      assert Product(ns[1..]) == Product(front[1..]) * ns[m - 1];
      var a, b, c := ns[0], Product(front[1..]), ns[m - 1];
      assert Product(ns) == a * b * c;
      MulAssoc(a, b, c);
    } else {
      assert ns[..0] == [] && ns[1..] == [];
    }
  }

  /** The arithmetic of one Horner step. */
  lemma HornerStep(i0: nat, n0: nat, rest: nat, last: nat, p: nat)
    ensures i0 + n0 * rest + last * (n0 * p) == i0 + n0 * (rest + last * p)
  {
    assert n0 * (rest + last * p) == n0 * rest + n0 * (last * p);
  }

  /** The flat index also unfolds from the front (Horner form). */
  lemma {:induction false} FlattenCons(idx: seq<nat>, ns: seq<nat>)
    requires |idx| == |ns| > 0
    ensures Flatten(idx, ns) == idx[0] + ns[0] * Flatten(idx[1..], ns[1..])
  {
    var m := |idx|;
    if m > 1 {
      var ip, np := idx[..m - 1], ns[..m - 1];
      FlattenCons(ip, np);
      ProductCons(np);
      assert ip[1..] == idx[1..][..m - 2];
      assert np[1..] == ns[1..][..m - 2];
      var rest := Flatten(ip[1..], np[1..]);
      var p := Product(np[1..]);
      var last := idx[m - 1];
      var n0 := ns[0];
      assert Flatten(idx[1..], ns[1..]) == rest + last * p;
      assert Flatten(idx, ns) == Flatten(ip, np) + last * Product(np);
      HornerStep(idx[0], n0, rest, last, p);
    } else {
      assert idx[..0] == [] && ns[..0] == [];
      assert idx[1..] == [] && ns[1..] == [];
    }
  }

  /** A digit below `n` in a place of value `p`, plus a lower part below `p`, stays below `p * n`. */
  lemma DigitBound(low: nat, digit: nat, p: nat, n: nat)
    requires low < p && digit < n
    ensures low + digit * p < p * n
  {
    MulMonotone(digit + 1, n, p);
    assert (digit + 1) * p == digit * p + p;
    assert n * p == p * n;
  }

  /** Every dim index of the grid has a flat index below the node count. */
  lemma {:induction false} FlattenBound(idx: seq<nat>, ns: seq<nat>)
    requires InRange(idx, ns)
    ensures Flatten(idx, ns) < Product(ns)
  {
    var m := |idx|;
    if m > 0 {
      var ip, np := idx[..m - 1], ns[..m - 1];
      FlattenBound(ip, np);
      DigitBound(Flatten(ip, np), idx[m - 1], Product(np), ns[m - 1]);
    }
  }

  /** The quotient by the first radix of a flat index of the grid is a flat index of the rest of it. */
  lemma QuotientBelow(v: nat, ns: seq<nat>)
    requires Positive(ns) && |ns| > 0 && v < Product(ns)
    ensures v / ns[0] < Product(ns[1..])
  {
    ProductCons(ns);
    DivBelow(v, ns[0], Product(ns[1..]));
  }

  /** Decoding a flat index of the grid and encoding it again gives it back. */
  lemma {:induction false} FlattenUnflatten(v: nat, ns: seq<nat>)
    requires Positive(ns) && v < Product(ns)
    ensures Flatten(Unflatten(v, ns), ns) == v
    decreases |ns|
  {
    if |ns| > 0 {
      var n0, rest := ns[0], ns[1..];
      var q, r := v / n0, v % n0;
      var u := Unflatten(v, ns);
      assert u[0] == r && u[1..] == Unflatten(q, rest);
      QuotientBelow(v, ns);
      FlattenUnflatten(q, rest);
      FlattenCons(u, ns);
      DivModSplit(v, n0);
    }
  }

  /** Encoding a dim index of the grid and decoding it again gives it back. */
  lemma {:induction false} UnflattenFlatten(idx: seq<nat>, ns: seq<nat>)
    requires InRange(idx, ns)
    ensures Unflatten(Flatten(idx, ns), ns) == idx
  {
    if |ns| > 0 {
      var rest := Flatten(idx[1..], ns[1..]);
      FlattenCons(idx, ns);
      DivModUnique(Flatten(idx, ns), ns[0], rest, idx[0]);
      UnflattenFlatten(idx[1..], ns[1..]);
      assert [idx[0]] + idx[1..] == idx;
    }
  }

  /** Distinct nodes of the grid have distinct flat indices. */
  lemma FlattenInjective(i: seq<nat>, j: seq<nat>, ns: seq<nat>)
    requires InRange(i, ns) && InRange(j, ns)
    requires Flatten(i, ns) == Flatten(j, ns)
    ensures i == j
  {
    UnflattenFlatten(i, ns);
    UnflattenFlatten(j, ns);
  }

  /** Distinct flat indices of the grid decode to distinct dim indices. */
  lemma UnflattenInjective(v: nat, w: nat, ns: seq<nat>)
    requires Positive(ns) && v < Product(ns) && w < Product(ns)
    requires Unflatten(v, ns) == Unflatten(w, ns)
    ensures v == w
  {
    FlattenUnflatten(v, ns);
    FlattenUnflatten(w, ns);
  }

  /** Flat index 0 decodes to the origin. */
  lemma {:induction false} UnflattenZero(ns: seq<nat>)
    requires Positive(ns)
    ensures forall d :: 0 <= d < |ns| ==> Unflatten(0, ns)[d] == 0
  {
    if |ns| > 0 {
      UnflattenZero(ns[1..]);
    }
  }

  /** The origin has flat index 0. */
  lemma {:induction false} FlattenOrigin(idx: seq<nat>, ns: seq<nat>)
    requires |idx| == |ns| && forall d :: 0 <= d < |idx| ==> idx[d] == 0
    ensures Flatten(idx, ns) == 0
  {
    if |idx| > 0 {
      FlattenOrigin(idx[..|idx| - 1], ns[..|ns| - 1]);
    }
  }
}
