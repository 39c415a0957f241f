module PathCode {
  /* Codes: the bits on the way from the root to a leaf (Huff_EmitPathToByte), the walk
     that reads them back (Huff_GetByteFromTree), and how long they can be. */

  import opened Bits
  import opened Frequencies
  import opened WeightTree

  /** Where a walk ends, and the bit position behind it. */
  datatype Arrival = Lost | At(leaf: nat, end: nat)

  /** True is the bit 1, which leads to the right child, at the odd position. */
  ghost function Code(t: Tree, m: nat): (b: BitString)
    requires Structure(t) && m < |t|
    decreases m
  {
    if m == 0 then [] else Code(t, Parent(t, m)) + [m % 2 == 1]
  }

  /** The walk from position `i` that reads from bit `pos`; lost if the bits run out. */
  ghost function Walk(t: Tree, i: nat, bits: BitString, pos: nat): (r: Arrival)
    requires Structure(t) && i < |t|
    ensures r.At? ==> r.leaf < |t| && !t[r.leaf].kind.Inner? && pos <= r.end
    ensures r.At? && pos <= |bits| ==> r.end <= |bits|
    ensures r.At? && t[i].kind.Inner? ==> pos < r.end
    decreases |t| - i
  {
    if !t[i].kind.Inner? then At(i, pos)
    else if pos >= |bits| then Lost
    else Walk(t, Child(t, i, bits[pos]), bits, pos + 1)
  }

  function Child(t: Tree, i: nat, bit: bool): (c: nat)
    requires i < |t| && t[i].kind.Inner?
  {
    if bit then t[i].kind.kid else t[i].kind.kid + 1
  }

  lemma ChildOf(t: Tree, m: nat)
    requires Structure(t) && 1 <= m < |t|
    ensures Child(t, Parent(t, m), m % 2 == 1) == m
  {
  }

  /** Walking along the code of a position arrives there. */
  lemma {:induction false} WalkCode(t: Tree, m: nat, bits: BitString, pos: nat)
    requires Structure(t) && m < |t|
    requires pos + |Code(t, m)| <= |bits| && bits[pos..pos + |Code(t, m)|] == Code(t, m)
    ensures Walk(t, 0, bits, pos) == Walk(t, m, bits, pos + |Code(t, m)|)
    decreases m
  {
    if m > 0 {
      var p := Parent(t, m);
      var n := |Code(t, p)|;
      assert bits[pos..pos + n] == bits[pos..pos + n + 1][..n] == Code(t, p);
      assert bits[pos + n] == bits[pos..pos + n + 1][n] == (m % 2 == 1);
      WalkCode(t, p, bits, pos);
      ChildOf(t, m);
    }
  }

  /** Conversely, whatever a walk reads is the code of the position where it ends. */
  lemma {:induction false} CodeWalk(t: Tree, i: nat, bits: BitString, pos: nat)
    requires Structure(t) && i < |t| && pos <= |bits|
    requires Walk(t, i, bits, pos).At?
    ensures Code(t, Walk(t, i, bits, pos).leaf) == Code(t, i) + bits[pos..Walk(t, i, bits, pos).end]
    decreases |t| - i
  {
    var end := Walk(t, i, bits, pos).end;
    if t[i].kind.Inner? {
      var c := Child(t, i, bits[pos]);
      assert Parent(t, c) == i by { assert ParentOf(t, i, c); }
      CodeWalk(t, c, bits, pos + 1);
      assert bits[pos..end] == [bits[pos]] + bits[pos + 1..end];
      assert Code(t, c) == Code(t, i) + [bits[pos]];
    } else {
      assert bits[pos..end] == [];
    }
  }

  /** No code is a prefix of another. */
  lemma PrefixFree(t: Tree, m: nat, n: nat)
    requires Structure(t) && m < |t| && n < |t|
    requires !t[m].kind.Inner? && !t[n].kind.Inner?
    requires Code(t, m) <= Code(t, n)
    ensures m == n
  {
    WalkCode(t, m, Code(t, n), 0);
    WalkCode(t, n, Code(t, n), 0);
  }

  lemma {:induction false} CodeLength(t: Tree, m: nat)
    requires Structure(t) && m < |t|
    ensures |Code(t, m)| <= (m + 1) / 2
    decreases m
  {
    if m > 0 { CodeLength(t, Parent(t, m)); }
  }

  // ----- codes are logarithmic in the number of bytes seen

  function Fib(n: nat): nat {
    if n < 2 then n else Fib(n - 1) + Fib(n - 2)
  }

  /** A grandparent weighs at least as much as parent and child together, because the
      parent's sibling comes before the child in the weight list. */
  lemma Grandparent(t: Tree, m: nat)
    requires Inv(t) && 1 <= m < |t| && Parent(t, m) > 0
    ensures t[Parent(t, Parent(t, m))].weight >= t[Parent(t, m)].weight + t[m].weight
  {
    var p := Parent(t, m);
    var g := Parent(t, p);
    var c := t[g].kind.kid;
    assert t[g].weight == t[c].weight + t[c + 1].weight;
    assert p == c || p == c + 1;
    assert c + 1 < m;
  }

  lemma GrowthStep(a: nat, b: nat, wg: nat, wp: nat, wm: nat)
    requires wg >= wp + wm
    ensures a * wg + b * wp >= (a + b) * wp + a * wm
  {
    assert a * wg >= a * (wp + wm);
  }

  lemma AtLeastSum(a: nat, b: nat, x: nat, y: nat)
    requires x >= 1 && y >= 1
    ensures a * x + b * y >= a + b
  {
    assert a * x >= a && b * y >= b;
  }

  lemma {:induction false} FibonacciGrowth(t: Tree, m: nat)
    requires Inv(t) && 1 <= m < |t|
    ensures |Code(t, m)| >= 1
    ensures t[0].weight >= Fib(|Code(t, m)|) * t[Parent(t, m)].weight
                         + Fib(|Code(t, m)| - 1) * t[m].weight
    decreases m
  {
    var p, d := Parent(t, m), |Code(t, m)|;
    if p > 0 {
      FibonacciGrowth(t, p);
      Grandparent(t, m);
      GrowthStep(Fib(d - 1), Fib(d - 2), t[Parent(t, p)].weight, t[p].weight, t[m].weight);
    }
  }

  /** A byte whose code has k bits has been paid for by at least Fib(k + 1) bytes. */
  lemma CodeIsLogarithmic(t: Tree, m: nat)
    requires Inv(t) && m < |t| - 1
    ensures Fib(|Code(t, m)| + 1) <= t[0].weight
  {
    if m > 0 {
      FibonacciGrowth(t, m);
      var d := |Code(t, m)|;
      AtLeastSum(Fib(d), Fib(d - 1), t[Parent(t, m)].weight, t[m].weight);
    }
  }

  /** The escape code is as long as the code of its sibling. */
  lemma EscapeIsLogarithmic(t: Tree)
    requires Inv(t) && |t| >= 3
    ensures |Code(t, |t| - 1)| == |Code(t, |t| - 2)|
    ensures Fib(|Code(t, |t| - 1)| + 1) <= t[0].weight
  {
    assert Parent(t, |t| - 1) == Parent(t, |t| - 2) by {
      assert ParentOf(t, Parent(t, |t| - 2), |t| - 1);
    }
    CodeIsLogarithmic(t, |t| - 2);
  }

  lemma {:induction false} FibMonotone(a: nat, b: nat)
    requires a <= b
    ensures Fib(a) <= Fib(b)
    decreases b - a
  {
    if a < b { FibMonotone(a + 1, b); }
  }

  /** Fib(21) exceeds any message length that the scratch buffers can hold. */
  lemma Fib21()
    ensures Fib(21) == 10946
  {
    assert Fib(5) == 5;
    assert Fib(8) == 21 && Fib(9) == 34;
    assert Fib(12) == 144 && Fib(13) == 233;
    assert Fib(16) == 987 && Fib(17) == 1597;
    assert Fib(20) == 6765;
  }

  lemma ShortCodes(t: Tree, m: nat)
    requires Inv(t) && m < |t| && t[0].weight < 10946
    ensures |Code(t, m)| <= 19
  {
    if |t| >= 3 {
      if m == |t| - 1 { EscapeIsLogarithmic(t); } else { CodeIsLogarithmic(t, m); }
      FibBound(|Code(t, m)| + 1);
    }
  }

  lemma FibBound(n: nat)
    requires Fib(n) < 10946
    ensures n <= 20
  {
    Fib21();
    if n >= 21 { FibMonotone(21, n); }
  }

  /** A walk arrives within as many bits as the longest code has. */
  lemma {:induction false} WalkArrives(t: Tree, i: nat, bits: BitString, pos: nat, most: nat)
    requires Structure(t) && i < |t| && forall m :: 0 <= m < |t| ==> |Code(t, m)| <= most
    requires pos + most <= |bits| + |Code(t, i)|
    ensures Walk(t, i, bits, pos).At? && Walk(t, i, bits, pos).end + |Code(t, i)| <= pos + most
    decreases |t| - i
  {
    if t[i].kind.Inner? {
      var k := t[i].kind.kid;
      assert ParentOf(t, i, k) && ParentOf(t, i, k + 1);
      assert |Code(t, k)| == |Code(t, i)| + 1 && |Code(t, k + 1)| == |Code(t, i)| + 1;
      var c := Child(t, i, bits[pos]);
      WalkArrives(t, c, bits, pos + 1, most);
    }
  }
}
