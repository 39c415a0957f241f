module Optimality {
  /* A tree with the sibling property is an optimal code for its leaf weights: no
     assignment of code lengths that satisfies Kraft's inequality, and so no binary
     tree over the same leaves, needs fewer bits in total. */

  import opened WeightTree
  import opened Frequencies
  import opened PathCode

  // ----- sums

  ghost function Sum(f: seq<int>): int {
    if f == [] then 0 else Sum(f[..|f| - 1]) + f[|f| - 1]
  }

  lemma {:induction false} SumUpdate(f: seq<int>, i: nat, v: int)
    requires i < |f|
    ensures Sum(f[i := v]) == Sum(f) - f[i] + v
  {
    var n := |f| - 1;
    if i == n {
      assert f[i := v][..n] == f[..n];
    } else {
      assert f[i := v][..n] == f[..n][i := v];
      SumUpdate(f[..n], i, v);
    }
  }

  lemma {:induction false} SumAdds(f: seq<int>, g: seq<int>, h: seq<int>)
    requires |f| == |g| == |h|
    requires forall i :: 0 <= i < |f| ==> h[i] == f[i] + g[i]
    ensures Sum(h) == Sum(f) + Sum(g)
  {
    if f != [] {
      var n := |f| - 1;
      SumAdds(f[..n], g[..n], h[..n]);
    }
  }

  lemma {:induction false} SumSingle(f: seq<int>, k: nat)
    requires k < |f| && forall i :: 0 <= i < |f| && i != k ==> f[i] == 0
    ensures Sum(f) == f[k]
  {
    SumUpdate(f, k, 0);
    SumZero(f[k := 0]);
  }

  lemma {:induction false} SumZero(f: seq<int>)
    requires forall i :: 0 <= i < |f| ==> f[i] == 0
    ensures Sum(f) == 0
  {
    if f != [] { SumZero(f[..|f| - 1]); }
  }

  lemma {:induction false} SumScales(f: seq<int>, g: seq<int>, c: int)
    requires |f| == |g| && forall i :: 0 <= i < |f| ==> f[i] == c * g[i]
    ensures Sum(f) == c * Sum(g)
  {
    if f != [] {
      var n := |f| - 1;
      SumScales(f[..n], g[..n], c);
      assert c * (Sum(g[..n]) + g[n]) == c * Sum(g[..n]) + c * g[n];
    }
  }

  lemma {:induction false} SumAtLeast(f: seq<int>, i: nat, j: nat)
    requires i < j < |f| && forall k :: 0 <= k < |f| ==> f[k] >= 0
    ensures Sum(f) >= f[i] + f[j]
  {
    SumUpdate(f, i, 0);
    SumUpdate(f[i := 0], j, 0);
    SumNonNegative(f[i := 0][j := 0]);
  }

  lemma {:induction false} SumNonNegative(f: seq<int>)
    requires forall k :: 0 <= k < |f| ==> f[k] >= 0
    ensures Sum(f) >= 0
  {
    if f != [] { SumNonNegative(f[..|f| - 1]); }
  }

  // ----- powers of two

  ghost function Pow2(n: nat): (p: int)
    ensures p >= 1
  {
    if n == 0 then 1 else 2 * Pow2(n - 1)
  }

  lemma {:induction false} Pow2Adds(a: nat, b: nat)
    ensures Pow2(a + b) == Pow2(a) * Pow2(b)
  {
    if a > 0 {
      Pow2Adds(a - 1, b);
    }
  }

  // ----- code lengths for the leaves of a tree

  ghost predicate IsLeafAt(t: Tree, i: int) {
    0 <= i < |t| && !t[i].kind.Inner?
  }

  /** Code lengths, one for each position; only those of leaves matter. */
  ghost predicate Lengths(t: Tree, d: seq<nat>, top: nat) {
    |d| == |t| && forall i :: IsLeafAt(t, i) ==> d[i] <= top
  }

  ghost function Bill(t: Tree, d: seq<nat>): (f: seq<int>)
    requires |d| == |t|
    ensures |f| == |t|
    ensures forall i :: 0 <= i < |t| ==> f[i] == if IsLeafAt(t, i) then t[i].weight * d[i] else 0
  {
    seq(|t|, i requires 0 <= i < |t| => if IsLeafAt(t, i) then t[i].weight * d[i] else 0)
  }

  /** Total number of bits spent with the code lengths `d`. */
  ghost function Cost(t: Tree, d: seq<nat>): int
    requires |d| == |t|
  {
    Sum(Bill(t, d))
  }

  /** The share 2^-length of every leaf, scaled by 2^top. */
  ghost function Shares(t: Tree, d: seq<nat>, top: nat): (f: seq<int>)
    requires Lengths(t, d, top)
    ensures |f| == |t| && forall i :: 0 <= i < |t| ==> f[i] == ShareFor(t, d, top, i)
  {
    seq(|t|, i requires 0 <= i < |t| => ShareFor(t, d, top, i))
  }

  ghost function ShareFor(t: Tree, d: seq<nat>, top: nat, i: nat): int
    requires Lengths(t, d, top) && i < |t|
  {
    if IsLeafAt(t, i) then Pow2(top - d[i]) else 0
  }

  /** Kraft's inequality. */
  ghost predicate Kraft(t: Tree, d: seq<nat>, top: nat)
    requires Lengths(t, d, top)
  {
    Sum(Shares(t, d, top)) <= Pow2(top)
  }

  ghost function Weights(t: Tree): (f: seq<int>)
    ensures |f| == |t| && forall i :: 0 <= i < |t| ==> f[i] == t[i].weight
  {
    seq(|t|, i requires 0 <= i < |t| => t[i].weight)
  }

  /** All the weights but the root's: the bits spent by the tree's own code. */
  ghost function Below(t: Tree): int
    requires |t| > 0
  {
    Sum(Weights(t)) - t[0].weight
  }

  /** What the induction needs of a tree: the sibling property without the labels. */
  ghost predicate Siblings(t: Tree) {
    Structure(t) && Sums(t, -1) && Sorted(t)
  }

  // ----- the two lightest leaves are siblings; fold them into their parent

  ghost function Fold(t: Tree): (u: Tree)
    requires Structure(t) && |t| >= 3
    ensures |u| == |t| - 2
  {
    var p := Parent(t, |t| - 2);
    t[..|t| - 2][p := t[p].(kind := Leaf(0))]
  }

  lemma FoldStructure(t: Tree)
    requires Structure(t) && |t| >= 3
    ensures Structure(Fold(t))
    ensures forall m :: 1 <= m < |t| - 2 ==> Parent(Fold(t), m) == Parent(t, m)
  {
    var u, p := Fold(t), Parent(t, |t| - 2);
    forall m | 1 <= m < |u|
      ensures Parented(u, m) && ParentOf(u, Parent(t, m), m)
    {
      assert ParentOf(u, Parent(t, m), m);
    }
  }

  lemma FoldSiblings(t: Tree)
    requires Siblings(t) && |t| >= 3
    ensures Siblings(Fold(t))
  {
    FoldStructure(t);
    var u := Fold(t);
    assert forall i :: 0 <= i < |u| ==> u[i].weight == t[i].weight;
    assert forall i :: 0 <= i < |u| && u[i].kind.Inner? ==> u[i] == t[i];
  }

  lemma LastTwo(f: seq<int>)
    requires |f| >= 2
    ensures Sum(f) == Sum(f[..|f| - 2]) + f[|f| - 2] + f[|f| - 1]
  {
    var n := |f|;
    assert f[..n - 1][..n - 2] == f[..n - 2];
  }

  lemma FoldBelow(t: Tree)
    requires Structure(t) && |t| >= 3
    ensures Below(t) == Below(Fold(t)) + t[|t| - 2].weight + t[|t| - 1].weight
  {
    LastTwo(Weights(t));
    assert Weights(Fold(t)) == Weights(t)[..|t| - 2];
  }

  /** Lengths for the folded tree: the parent is one shorter than the two leaves. */
  ghost function FoldLengths(t: Tree, d: seq<nat>): (e: seq<nat>)
    requires Structure(t) && |t| >= 3 && |d| == |t|
    requires d[|t| - 1] == d[|t| - 2] >= 1
    ensures |e| == |t| - 2
  {
    d[..|t| - 2][Parent(t, |t| - 2) := d[|t| - 2] - 1]
  }

  lemma FoldSum(f: seq<int>, p: nat, v: int)
    requires p < |f| - 2
    ensures Sum(f) == Sum(f[..|f| - 2][p := v]) - v + f[p] + f[|f| - 2] + f[|f| - 1]
  {
    LastTwo(f);
    SumUpdate(f[..|f| - 2], p, v);
  }

  lemma LastLeaves(t: Tree)
    requires Structure(t) && |t| >= 3
    ensures IsLeafAt(t, |t| - 2) && IsLeafAt(t, |t| - 1)
    ensures Parent(t, |t| - 2) < |t| - 2 && !IsLeafAt(t, Parent(t, |t| - 2))
    ensures Sums(t, -1) ==>
      t[Parent(t, |t| - 2)].weight == t[|t| - 2].weight + t[|t| - 1].weight
  {
    var p := Parent(t, |t| - 2);
    assert t[p].kind.kid == |t| - 2;
  }

  lemma FoldBill(t: Tree, d: seq<nat>)
    requires Structure(t) && |t| >= 3 && |d| == |t|
    requires d[|t| - 1] == d[|t| - 2] >= 1
    ensures var p := Parent(t, |t| - 2);
      Bill(Fold(t), FoldLengths(t, d))
      == Bill(t, d)[..|t| - 2][p := t[p].weight * (d[|t| - 2] - 1)]
  {
  }

  lemma SplitCost(k: int, a: int, b: int)
    ensures (a + b) * (k - 1) + a + b == a * k + b * k
  {
  }

  lemma FoldCost(t: Tree, d: seq<nat>)
    requires Structure(t) && Sums(t, -1) && |t| >= 3 && |d| == |t|
    requires d[|t| - 1] == d[|t| - 2] >= 1
    ensures Cost(t, d) == Cost(Fold(t), FoldLengths(t, d)) + t[|t| - 2].weight + t[|t| - 1].weight
  {
    var n, p := |t|, Parent(t, |t| - 2);
    LastLeaves(t);
    FoldBill(t, d);
    FoldSum(Bill(t, d), p, t[p].weight * (d[n - 2] - 1));
    SplitCost(d[n - 2], t[n - 2].weight, t[n - 1].weight);
  }

  lemma FoldFits(t: Tree, d: seq<nat>, top: nat)
    requires Structure(t) && |t| >= 3 && Lengths(t, d, top)
    requires d[|t| - 1] == d[|t| - 2] >= 1
    ensures Lengths(Fold(t), FoldLengths(t, d), top)
    ensures var p := Parent(t, |t| - 2);
      Shares(Fold(t), FoldLengths(t, d), top)
      == Shares(t, d, top)[..|t| - 2][p := Pow2(top - (d[|t| - 2] - 1))]
  {
    var n, p, e := |t|, Parent(t, |t| - 2), FoldLengths(t, d);
    LastLeaves(t);
    forall i | IsLeafAt(Fold(t), i) ensures e[i] <= top {
      if i != p { assert IsLeafAt(t, i); }
    }
  }

  lemma FoldKraft(t: Tree, d: seq<nat>, top: nat)
    requires Structure(t) && |t| >= 3 && Lengths(t, d, top) && Kraft(t, d, top)
    requires d[|t| - 1] == d[|t| - 2] >= 1
    ensures Lengths(Fold(t), FoldLengths(t, d), top) && Kraft(Fold(t), FoldLengths(t, d), top)
  {
    var n, p := |t|, Parent(t, |t| - 2);
    LastLeaves(t);
    FoldFits(t, d, top);
    FoldSum(Shares(t, d, top), p, Pow2(top - (d[n - 2] - 1)));
  }

  // ----- moving the longest codes to the lightest leaves does not cost bits

  lemma SumUpdateTwo(f: seq<int>, i: nat, j: nat, v: int, w: int)
    requires i < |f| && j < |f| && i != j
    ensures Sum(f[i := v][j := w]) == Sum(f) - f[i] - f[j] + v + w
  {
    SumUpdate(f, i, v);
    SumUpdate(f[i := v], j, w);
  }

  lemma Rearrange(v: int, w: int, x: int, y: int)
    requires v >= w && x >= y
    ensures v * y + w * x <= v * x + w * y
  {
    assert (v - w) * (x - y) >= 0;
  }

  lemma SwapCost(t: Tree, d: seq<nat>, i: nat, j: nat)
    requires |d| == |t| && IsLeafAt(t, i) && IsLeafAt(t, j) && i != j
    requires t[i].weight >= t[j].weight && d[i] >= d[j]
    ensures Cost(t, d[i := d[j]][j := d[i]]) <= Cost(t, d)
  {
    var f, e := Bill(t, d), d[i := d[j]][j := d[i]];
    assert Bill(t, e) == f[i := t[i].weight * d[j]][j := t[j].weight * d[i]];
    SumUpdateTwo(f, i, j, t[i].weight * d[j], t[j].weight * d[i]);
    Rearrange(t[i].weight, t[j].weight, d[i], d[j]);
  }

  lemma SwapKraft(t: Tree, d: seq<nat>, top: nat, i: nat, j: nat)
    requires Lengths(t, d, top) && Kraft(t, d, top)
    requires IsLeafAt(t, i) && IsLeafAt(t, j) && i != j
    ensures var e := d[i := d[j]][j := d[i]]; Lengths(t, e, top) && Kraft(t, e, top)
  {
    var g, e := Shares(t, d, top), d[i := d[j]][j := d[i]];
    assert Shares(t, e, top) == g[i := Pow2(top - d[j])][j := Pow2(top - d[i])];
    SumUpdateTwo(g, i, j, Pow2(top - d[j]), Pow2(top - d[i]));
  }

  lemma SwapLengths(t: Tree, d: seq<nat>, top: nat, i: nat, j: nat)
    requires Lengths(t, d, top) && Kraft(t, d, top)
    requires IsLeafAt(t, i) && IsLeafAt(t, j)
    requires t[i].weight >= t[j].weight && d[i] >= d[j]
    ensures var e := d[i := d[j]][j := d[i]];
      Lengths(t, e, top) && Kraft(t, e, top) && Cost(t, e) <= Cost(t, d)
  {
    if i == j {
      assert d[i := d[j]][j := d[i]] == d;
    } else {
      SwapCost(t, d, i, j);
      SwapKraft(t, d, top, i, j);
    }
  }

  lemma ShortenCost(t: Tree, d: seq<nat>, l: nat, k: nat)
    requires |d| == |t| && IsLeafAt(t, l) && IsLeafAt(t, k) && d[k] <= d[l]
    ensures Cost(t, d[l := d[k]]) <= Cost(t, d)
  {
    assert Bill(t, d[l := d[k]]) == Bill(t, d)[l := t[l].weight * d[k]];
    SumUpdate(Bill(t, d), l, t[l].weight * d[k]);
    assert t[l].weight * d[k] <= t[l].weight * d[l];
  }

  /** The shares of the other leaves are whole multiples of the share of `k`. */
  lemma WholeShares(t: Tree, d: seq<nat>, top: nat, l: nat, k: nat) returns (whole: int)
    requires Lengths(t, d, top) && IsLeafAt(t, l) && IsLeafAt(t, k)
    requires forall i :: IsLeafAt(t, i) && i != l ==> d[i] <= d[k]
    ensures Sum(Shares(t, d, top)[l := 0]) == Pow2(top - d[k]) * whole
  {
    var f, c := Shares(t, d, top)[l := 0], Pow2(top - d[k]);
    var g := seq(|t|, i requires 0 <= i < |t| =>
      if IsLeafAt(t, i) && i != l then Pow2(d[k] - d[i]) else 0);
    forall i | 0 <= i < |f| ensures f[i] == c * g[i] {
      if IsLeafAt(t, i) && i != l { Pow2Adds(top - d[k], d[k] - d[i]); }
    }
    SumScales(f, g, c);
    whole := Sum(g);
  }

  lemma ProductNonNegative(c: int, x: int)
    requires c > 0 && x >= 0
    ensures c * x >= 0
  {
  }

  lemma NextMultiple(c: int, g: int, m: int)
    requires c > 0 && c * g < c * m
    ensures c * g + c <= c * m
  {
    if g >= m { ProductNonNegative(c, g - m); }
    ProductNonNegative(c, m - g - 1);
  }

  /** A single longest code can be cut back to the length of the next one. */
  lemma ShortenKraft(t: Tree, d: seq<nat>, top: nat, l: nat, k: nat)
    requires Lengths(t, d, top) && Kraft(t, d, top)
    requires IsLeafAt(t, l) && IsLeafAt(t, k) && l != k && d[k] <= d[l]
    requires forall i :: IsLeafAt(t, i) && i != l ==> d[i] <= d[k]
    ensures var e := d[l := d[k]]; Lengths(t, e, top) && Kraft(t, e, top)
  {
    var f, c := Shares(t, d, top), Pow2(top - d[k]);
    assert Shares(t, d[l := d[k]], top) == f[l := c];
    SumUpdate(f, l, 0);
    SumUpdate(f, l, c);
    var g := WholeShares(t, d, top, l, k);
    Pow2Adds(top - d[k], d[k]);
    NextMultiple(c, g, Pow2(d[k]));
  }

  /** Two leaves cannot both have the empty code. */
  lemma NotBothEmpty(t: Tree, d: seq<nat>, top: nat, i: nat, j: nat)
    requires Lengths(t, d, top) && Kraft(t, d, top)
    requires IsLeafAt(t, i) && IsLeafAt(t, j) && i < j && d[i] == d[j]
    ensures d[i] >= 1
  {
    SumAtLeast(Shares(t, d, top), i, j);
  }

  /** A leaf with the longest code among the leaves other than `skip`. */
  lemma {:induction false} Longest(t: Tree, d: seq<nat>, skip: int, n: nat) returns (k: int)
    requires |d| == |t| && n <= |t|
    requires exists i :: i < n && i != skip && IsLeafAt(t, i)
    ensures IsLeafAt(t, k) && k != skip && k < n
    ensures forall i :: IsLeafAt(t, i) && i != skip && i < n ==> d[i] <= d[k]
  {
    if exists i :: i < n - 1 && i != skip && IsLeafAt(t, i) {
      k := Longest(t, d, skip, n - 1);
      if n - 1 != skip && IsLeafAt(t, n - 1) && d[n - 1] > d[k] { k := n - 1; }
    } else {
      k := n - 1;
    }
  }

  /** Some code at least as cheap gives the two lightest leaves its longest length. */
  lemma Rebalance(t: Tree, d: seq<nat>, top: nat) returns (e: seq<nat>)
    requires Siblings(t) && |t| >= 3 && Lengths(t, d, top) && Kraft(t, d, top)
    ensures Lengths(t, e, top) && Kraft(t, e, top) && Cost(t, e) <= Cost(t, d)
    ensures e[|t| - 1] == e[|t| - 2] >= 1
  {
    var n := |t|;
    assert IsLeafAt(t, n - 1) && IsLeafAt(t, n - 2);
    var x := Longest(t, d, -1, n);
    SwapLengths(t, d, top, x, n - 1);
    var d1 := d[x := d[n - 1]][n - 1 := d[x]];
    var y := Longest(t, d1, n - 1, n);
    SwapLengths(t, d1, top, y, n - 2);
    var d2 := d1[y := d1[n - 2]][n - 2 := d1[y]];
    ShortenCost(t, d2, n - 1, n - 2);
    ShortenKraft(t, d2, top, n - 1, n - 2);
    e := d2[n - 1 := d2[n - 2]];
    NotBothEmpty(t, e, top, n - 2, n - 1);
  }

  /** No code lengths within Kraft's inequality spend fewer bits than the tree. */
  lemma {:induction false} NoShorterLengths(t: Tree, d: seq<nat>, top: nat)
    requires Siblings(t) && Lengths(t, d, top) && Kraft(t, d, top)
    ensures Below(t) <= Cost(t, d)
    decreases |t|
  {
    if |t| == 1 {
      assert Sum(Weights(t)) == t[0].weight by { SumSingle(Weights(t), 0); }
      SumNonNegative(Bill(t, d));
    } else {
      var e := Rebalance(t, d, top);
      FoldSiblings(t);
      FoldBelow(t);
      FoldCost(t, e);
      FoldKraft(t, e, top);
      NoShorterLengths(Fold(t), FoldLengths(t, e), top);
    }
  }

  // ----- the tree's own code

  ghost function OwnLengths(t: Tree): (d: seq<nat>)
    requires Structure(t)
    ensures |d| == |t| && forall i :: 0 <= i < |t| ==> d[i] == |Code(t, i)|
  {
    seq(|t|, i requires 0 <= i < |t| => |Code(t, i)|)
  }

  lemma {:induction false} FoldCode(t: Tree, m: nat)
    requires Structure(t) && |t| >= 3 && m < |t| - 2 && Structure(Fold(t))
    ensures Code(Fold(t), m) == Code(t, m)
    decreases m
  {
    FoldStructure(t);
    if m > 0 { FoldCode(t, Parent(t, m)); }
  }

  lemma FoldOwnLengths(t: Tree)
    requires Structure(t) && |t| >= 3 && Structure(Fold(t))
    ensures var d := OwnLengths(t);
      d[|t| - 1] == d[|t| - 2] >= 1 && OwnLengths(Fold(t)) == FoldLengths(t, d)
  {
    var n, p, d := |t|, Parent(t, |t| - 2), OwnLengths(t);
    assert Parent(t, n - 1) == p by { assert ParentOf(t, p, n - 1); }
    forall m | 0 <= m < n - 2 ensures OwnLengths(Fold(t))[m] == FoldLengths(t, d)[m] {
      FoldCode(t, m);
    }
  }

  /** The tree's own code spends as many bits as all weights below the root. */
  lemma {:induction false} OwnCost(t: Tree)
    requires Siblings(t)
    ensures Cost(t, OwnLengths(t)) == Below(t)
    decreases |t|
  {
    if |t| == 1 {
      SumSingle(Weights(t), 0);
      SumSingle(Bill(t, OwnLengths(t)), 0);
    } else {
      FoldSiblings(t);
      FoldBelow(t);
      FoldOwnLengths(t);
      FoldCost(t, OwnLengths(t));
      OwnCost(Fold(t));
    }
  }

  // ----- binary trees over the same leaves

  datatype CodeTree = Tip(symbol: nat) | Fork(zero: CodeTree, one: CodeTree)

  const NYT_LABEL := 256

  /** The label of a leaf: its byte, or 256 for the not-yet-transmitted leaf. */
  ghost function Label(t: Tree, i: nat): nat
    requires IsLeafAt(t, i)
  {
    if t[i].kind.Leaf? then t[i].kind.symbol else NYT_LABEL
  }

  ghost function Tips(b: CodeTree): set<nat> {
    match b
    case Tip(s) => {s}
    case Fork(l, r) => Tips(l) + Tips(r)
  }

  /** Every label occurs at most once. */
  ghost predicate Once(b: CodeTree) {
    b.Fork? ==> Tips(b.zero) !! Tips(b.one) && Once(b.zero) && Once(b.one)
  }

  /** The total number of bits `b` spends when label `s` occurs `freq(s)` times. */
  ghost function PathLength(b: CodeTree, freq: nat -> nat, depth: nat): int {
    match b
    case Tip(s) => freq(s) * depth
    case Fork(l, r) => PathLength(l, freq, depth + 1) + PathLength(r, freq, depth + 1)
  }

  ghost function Height(b: CodeTree): nat {
    match b
    case Tip(_) => 0
    case Fork(l, r) => 1 + if Height(l) >= Height(r) then Height(l) else Height(r)
  }

  ghost function Depth(b: CodeTree, s: nat): (k: nat)
    requires s in Tips(b)
    ensures k <= Height(b)
  {
    match b
    case Tip(_) => 0
    case Fork(l, r) => 1 + if s in Tips(l) then Depth(l, s) else Depth(r, s)
  }

  ghost predicate Carries(t: Tree, s: nat) {
    exists i :: IsLeafAt(t, i) && Label(t, i) == s
  }

  /** Every label of `b` is the label of a leaf of `t`. */
  ghost predicate Covers(t: Tree, b: CodeTree) {
    forall s :: s in Tips(b) ==> Carries(t, s)
  }

  /** The labels of `t` are exactly those of `b`. */
  ghost predicate SameLeaves(t: Tree, b: CodeTree) {
    Covers(t, b) && forall i :: IsLeafAt(t, i) ==> Label(t, i) in Tips(b)
  }

  ghost function Freq(t: Tree): nat -> nat {
    s => Count(t, s)
  }

  /** What leaf `i` contributes to Kraft's sum when `b` hangs at `depth`. */
  ghost function ShareAt(t: Tree, b: CodeTree, depth: nat, top: nat, i: nat): int
    requires depth + Height(b) <= top
  {
    if IsLeafAt(t, i) && Label(t, i) in Tips(b) then Pow2(top - depth - Depth(b, Label(t, i))) else 0
  }

  /** What leaf `i` costs when `b` hangs at `depth`. */
  ghost function SpendAt(t: Tree, b: CodeTree, depth: nat, i: nat): int {
    if IsLeafAt(t, i) && Label(t, i) in Tips(b) then t[i].weight * (depth + Depth(b, Label(t, i))) else 0
  }

  ghost function Share(t: Tree, b: CodeTree, depth: nat, top: nat): (f: seq<int>)
    requires depth + Height(b) <= top
    ensures |f| == |t| && forall i :: 0 <= i < |t| ==> f[i] == ShareAt(t, b, depth, top, i)
  {
    seq(|t|, i requires 0 <= i < |t| => ShareAt(t, b, depth, top, i))
  }

  ghost function Spend(t: Tree, b: CodeTree, depth: nat): (f: seq<int>)
    ensures |f| == |t| && forall i :: 0 <= i < |t| ==> f[i] == SpendAt(t, b, depth, i)
  {
    seq(|t|, i requires 0 <= i < |t| => SpendAt(t, b, depth, i))
  }

  lemma DepthInFork(l: CodeTree, r: CodeTree, s: nat)
    requires Tips(l) !! Tips(r)
    ensures s in Tips(l) ==> s !in Tips(r) && Depth(Fork(l, r), s) == 1 + Depth(l, s)
    ensures s in Tips(r) ==> s !in Tips(l) && Depth(Fork(l, r), s) == 1 + Depth(r, s)
    ensures s in Tips(Fork(l, r)) <==> s in Tips(l) || s in Tips(r)
  {
  }

  lemma ForkShare(t: Tree, l: CodeTree, r: CodeTree, depth: nat, top: nat, i: nat)
    requires Tips(l) !! Tips(r) && depth + Height(Fork(l, r)) <= top
    ensures ShareAt(t, Fork(l, r), depth, top, i)
         == ShareAt(t, l, depth + 1, top, i) + ShareAt(t, r, depth + 1, top, i)
  {
    if IsLeafAt(t, i) {
      var s := Label(t, i);
      DepthInFork(l, r, s);
      if s in Tips(l) {
        assert top - depth - Depth(Fork(l, r), s) == top - (depth + 1) - Depth(l, s);
      } else if s in Tips(r) {
        assert top - depth - Depth(Fork(l, r), s) == top - (depth + 1) - Depth(r, s);
      }
    }
  }

  lemma ForkSpend(t: Tree, l: CodeTree, r: CodeTree, depth: nat, i: nat)
    requires Tips(l) !! Tips(r)
    ensures SpendAt(t, Fork(l, r), depth, i)
         == SpendAt(t, l, depth + 1, i) + SpendAt(t, r, depth + 1, i)
  {
    if IsLeafAt(t, i) {
      var s := Label(t, i);
      DepthInFork(l, r, s);
      if s in Tips(l) {
        assert depth + Depth(Fork(l, r), s) == depth + 1 + Depth(l, s);
      } else if s in Tips(r) {
        assert depth + Depth(Fork(l, r), s) == depth + 1 + Depth(r, s);
      }
    }
  }

  lemma SumOfFork(t: Tree, l: CodeTree, r: CodeTree, depth: nat, top: nat)
    requires Tips(l) !! Tips(r) && depth + Height(Fork(l, r)) <= top
    ensures Sum(Share(t, Fork(l, r), depth, top))
         == Sum(Share(t, l, depth + 1, top)) + Sum(Share(t, r, depth + 1, top))
    ensures Sum(Spend(t, Fork(l, r), depth))
         == Sum(Spend(t, l, depth + 1)) + Sum(Spend(t, r, depth + 1))
  {
    forall i | 0 <= i < |t|
      ensures ShareAt(t, Fork(l, r), depth, top, i)
           == ShareAt(t, l, depth + 1, top, i) + ShareAt(t, r, depth + 1, top, i)
      ensures SpendAt(t, Fork(l, r), depth, i)
           == SpendAt(t, l, depth + 1, i) + SpendAt(t, r, depth + 1, i)
    {
      ForkShare(t, l, r, depth, top, i);
      ForkSpend(t, l, r, depth, i);
    }
    SumAdds(Share(t, l, depth + 1, top), Share(t, r, depth + 1, top), Share(t, Fork(l, r), depth, top));
    SumAdds(Spend(t, l, depth + 1), Spend(t, r, depth + 1), Spend(t, Fork(l, r), depth));
  }

  /** Labels are distinct, and the weight of a leaf is the count of its label. */
  ghost predicate GoodLabels(t: Tree) {
    && (forall i, j :: IsLeafAt(t, i) && IsLeafAt(t, j) && i < j ==> Label(t, i) != Label(t, j))
    && (forall i :: IsLeafAt(t, i) ==> Count(t, Label(t, i)) == t[i].weight)
  }

  lemma LabelsAreGood(t: Tree)
    requires Labelled(t) && OnlyNytIsZero(t)
    ensures GoodLabels(t)
  {
    assert !Has(t, NYT_LABEL) by {
      forall i | 0 <= i < |t| ensures t[i].kind != Leaf(NYT_LABEL) { }
    }
    forall k | IsLeafAt(t, k) ensures Count(t, Label(t, k)) == t[k].weight {
      if t[k].kind.Leaf? { FindIs(t, k, t[k].kind.symbol); }
    }
  }

  lemma SumOfTip(t: Tree, s: nat, depth: nat, top: nat)
    requires GoodLabels(t) && Carries(t, s) && depth <= top
    ensures Sum(Share(t, Tip(s), depth, top)) == Pow2(top - depth)
    ensures Sum(Spend(t, Tip(s), depth)) == Count(t, s) * depth
  {
    var k :| IsLeafAt(t, k) && Label(t, k) == s;
    SumSingle(Share(t, Tip(s), depth, top), k);
    SumSingle(Spend(t, Tip(s), depth), k);
  }

  /** Kraft's sum of a whole tree, and its cost, collected over the leaves of `t`. */
  lemma {:induction false} SumOfTree(t: Tree, b: CodeTree, depth: nat, top: nat)
    requires GoodLabels(t) && Once(b) && Covers(t, b)
    requires depth + Height(b) <= top
    ensures Sum(Share(t, b, depth, top)) == Pow2(top - depth)
    ensures Sum(Spend(t, b, depth)) == PathLength(b, Freq(t), depth)
    decreases b
  {
    match b
    case Tip(s) =>
      assert s in Tips(b);
      SumOfTip(t, s, depth, top);
    case Fork(l, r) =>
      assert Tips(l) <= Tips(b) && Tips(r) <= Tips(b);
      SumOfTree(t, l, depth + 1, top);
      SumOfTree(t, r, depth + 1, top);
      SumOfFork(t, l, r, depth, top);
  }

  ghost function DepthsIn(t: Tree, b: CodeTree): (d: seq<nat>)
    requires SameLeaves(t, b)
    ensures |d| == |t|
    ensures forall i :: IsLeafAt(t, i) ==> d[i] == Depth(b, Label(t, i))
  {
    seq(|t|, i requires 0 <= i < |t| => if IsLeafAt(t, i) then Depth(b, Label(t, i)) else 0)
  }

  lemma DepthsFit(t: Tree, b: CodeTree, top: nat)
    requires SameLeaves(t, b) && Height(b) <= top
    ensures Lengths(t, DepthsIn(t, b), top)
  {
  }

  lemma SameShare(t: Tree, b: CodeTree, d: seq<nat>, depth: nat, top: nat, i: nat)
    requires SameLeaves(t, b) && depth == 0 && Height(b) <= top && d == DepthsIn(t, b) && Lengths(t, d, top)
    requires i < |t|
    ensures ShareFor(t, d, top, i) == ShareAt(t, b, depth, top, i)
  {
    if IsLeafAt(t, i) {
      assert Label(t, i) in Tips(b) && d[i] == Depth(b, Label(t, i));
      assert top - depth - d[i] == top - d[i];
    }
  }

  lemma TreeShares(t: Tree, b: CodeTree, d: seq<nat>, depth: nat, top: nat)
    requires SameLeaves(t, b) && depth == 0 && Height(b) <= top && d == DepthsIn(t, b) && Lengths(t, d, top)
    ensures Shares(t, d, top) == Share(t, b, depth, top)
  {
    forall i | 0 <= i < |t| ensures Shares(t, d, top)[i] == Share(t, b, depth, top)[i] {
      SameShare(t, b, d, depth, top, i);
    }
  }

  lemma TreeMeetsKraft(t: Tree, b: CodeTree, top: nat)
    requires GoodLabels(t) && Once(b) && SameLeaves(t, b) && Height(b) <= top
    ensures Lengths(t, DepthsIn(t, b), top) && Kraft(t, DepthsIn(t, b), top)
  {
    DepthsFit(t, b, top);
    SharesAreAll(t, b, top);
    TreeShares(t, b, DepthsIn(t, b), 0, top);
  }

  lemma SharesAreAll(t: Tree, b: CodeTree, top: nat)
    requires GoodLabels(t) && Once(b) && Covers(t, b) && Height(b) <= top
    ensures Sum(Share(t, b, 0, top)) == Pow2(top)
  {
    SumOfTree(t, b, 0, top);
    assert top - 0 == top;
  }

  lemma TreeCost(t: Tree, b: CodeTree)
    requires GoodLabels(t) && Once(b) && SameLeaves(t, b)
    ensures Cost(t, DepthsIn(t, b)) == PathLength(b, Freq(t), 0)
  {
    SumOfTree(t, b, 0, Height(b));
    forall i | 0 <= i < |t| ensures Bill(t, DepthsIn(t, b))[i] == Spend(t, b, 0)[i] {
      assert SpendAt(t, b, 0, i) == Bill(t, DepthsIn(t, b))[i];
    }
    assert Bill(t, DepthsIn(t, b)) == Spend(t, b, 0);
  }

  /** Optimality: no binary tree over the same leaves spends fewer bits. */
  lemma NoShorterTree(t: Tree, b: CodeTree)
    requires Inv(t) && Once(b) && SameLeaves(t, b)
    ensures Cost(t, OwnLengths(t)) <= PathLength(b, Freq(t), 0)
  {
    LabelsAreGood(t);
    TreeMeetsKraft(t, b, Height(b));
    TreeCost(t, b);
    NoShorterLengths(t, DepthsIn(t, b), Height(b));
    OwnCost(t);
  }
}
