module LostMessage {
  /* For every table of counts there is a message that does not survive Huff_CompressPacket
     and Huff_DecompressPacket: 8255 bytes whose codes take eight bits on average grow to the
     8256 bytes which Huff_DecompressPacket refuses to look at.  Two bytes, one with a code of
     at most eight bits and one with a code of eight to sixteen, are enough to make it. */

  import opened Bits
  import opened Coding
  import opened Frequencies
  import opened Optimality
  import opened Packets
  import opened PathCode
  import opened StaticTree
  import opened WeightTree

  // ----- the tree's own code uses up Kraft's sum

  lemma FoldSame(t: Tree, d: seq<nat>, top: nat)
    requires Structure(t) && |t| >= 3 && Lengths(t, d, top) && d[|t| - 1] == d[|t| - 2] >= 1
    ensures Lengths(Fold(t), FoldLengths(t, d), top)
    ensures Sum(Shares(t, d, top)) == Sum(Shares(Fold(t), FoldLengths(t, d), top))
  {
    var p, k, f := Parent(t, |t| - 2), d[|t| - 2], Shares(t, d, top);
    LastLeaves(t);
    FoldFits(t, d, top);
    var x := top - k;
    var y := x + 1;
    PairShares(f, p, x, y);
    assert y == top - (k - 1);
  }

  lemma PairShares(f: seq<int>, p: nat, x: nat, y: nat)
    requires p < |f| - 2 && f[p] == 0 && f[|f| - 2] == f[|f| - 1] == Pow2(x) && y == x + 1
    ensures Sum(f) == Sum(f[..|f| - 2][p := Pow2(y)])
  {
    FoldSum(f, p, Pow2(y));
  }

  lemma {:induction false} OwnKraft(t: Tree, d: seq<nat>, top: nat)
    requires Structure(t) && d == OwnLengths(t) && Lengths(t, d, top)
    ensures Sum(Shares(t, d, top)) == Pow2(top)
    decreases |t|
  {
    if |t| == 1 {
      SumSingle(Shares(t, d, top), 0);
      assert d[0] == 0;
    } else {
      FoldStructure(t);
      FoldOwnLengths(t);
      FoldSame(t, d, top);
      var u, e := Fold(t), FoldLengths(t, d);
      OwnKraft(u, e, top);
    }
  }

  ghost function LeafMarks(t: Tree): (f: seq<int>)
    ensures |f| == |t| && forall i :: 0 <= i < |t| ==> f[i] == if IsLeafAt(t, i) then 1 else 0
  {
    seq(|t|, i requires 0 <= i < |t| => if IsLeafAt(t, i) then 1 else 0)
  }

  lemma {:induction false} LeafCount(t: Tree)
    requires Structure(t)
    ensures 2 * Sum(LeafMarks(t)) == |t| + 1
    decreases |t|
  {
    if |t| == 1 {
      SumSingle(LeafMarks(t), 0);
    } else {
      var p, f := Parent(t, |t| - 2), LeafMarks(t);
      FoldMarks(t, p, f);
      FoldSum(f, p, 1);
      LeafCount(Fold(t));
    }
  }

  lemma FoldMarks(t: Tree, p: nat, f: seq<int>)
    requires Structure(t) && |t| >= 3 && p == Parent(t, |t| - 2) && f == LeafMarks(t)
    ensures Structure(Fold(t)) && p < |f| - 2 && f[p] == 0 && f[|f| - 2] == f[|f| - 1] == 1
    ensures LeafMarks(Fold(t)) == f[..|f| - 2][p := 1]
  {
    FoldStructure(t);
    LastLeaves(t);
  }

  lemma {:induction false} SumBelow(f: seq<int>, g: seq<int>, c: int)
    requires |f| == |g| && forall i :: 0 <= i < |f| ==> f[i] <= c * g[i]
    ensures Sum(f) <= c * Sum(g)
  {
    if f != [] {
      var n := |f| - 1;
      SumBelow(f[..n], g[..n], c);
      assert c * (Sum(g[..n]) + g[n]) == c * Sum(g[..n]) + c * g[n];
    }
  }

  lemma {:induction false} SumAbove(f: seq<int>, g: seq<int>, c: int)
    requires |f| == |g| && forall i :: 0 <= i < |f| ==> f[i] >= c * g[i]
    ensures Sum(f) >= c * Sum(g)
  {
    if f != [] {
      var n := |f| - 1;
      SumAbove(f[..n], g[..n], c);
      assert c * (Sum(g[..n]) + g[n]) == c * Sum(g[..n]) + c * g[n];
    }
  }

  lemma {:induction false} Pow2Grows(a: nat, b: nat)
    requires a <= b
    ensures Pow2(a) <= Pow2(b)
    decreases b
  {
    if a < b { Pow2Grows(a, b - 1); }
  }

  lemma Scaled(top: nat, k: nat, x: nat)
    requires top == k + x
    ensures Pow2(top) == Pow2(k) * Pow2(x)
  {
    Pow2Adds(k, x);
  }

  lemma SmallPowers()
    ensures Pow2(7) == 128 && Pow2(9) == 512 && Pow2(10) == 1024
  {
    assert Pow2(4) == 16;
    assert Pow2(7) == 128;
  }

  lemma ShortPower(top: nat, x: nat)
    requires top == x + 9
    ensures Pow2(top) == 512 * Pow2(x)
  {
    Scaled(top, 9, x);
    SmallPowers();
  }

  lemma SharesBelow(t: Tree, d: seq<nat>, top: nat, x: nat)
    requires Structure(t) && |t| == 513 && Lengths(t, d, top) && x <= top
    requires forall i :: IsLeafAt(t, i) ==> top - d[i] <= x
    ensures Sum(Shares(t, d, top)) <= Pow2(x) * 257
  {
    var f, g, c := Shares(t, d, top), LeafMarks(t), Pow2(x);
    forall i | 0 <= i < |t| ensures f[i] <= c * g[i] {
      if IsLeafAt(t, i) { Pow2Grows(top - d[i], x); }
    }
    LeafCount(t);
    SumBelow(f, g, c);
  }

  /** Some leaf has a code of at most eight bits. */
  lemma ShortLeaf(t: Tree, d: seq<nat>, top: nat) returns (k: nat)
    requires Structure(t) && |t| == 513 && top >= 17 && d == OwnLengths(t) && Lengths(t, d, top)
    ensures IsLeafAt(t, k) && d[k] <= 8
  {
    if forall i :: IsLeafAt(t, i) ==> d[i] >= 9 {
      var x := top - 9;
      SharesBelow(t, d, top, x);
      OwnKraft(t, d, top);
      ShortPower(top, x);
      assert false;
    }
    k :| IsLeafAt(t, k) && d[k] < 9;
  }

  ghost predicate Gap(t: Tree, d: seq<nat>)
    requires |d| == |t|
  {
    forall i :: IsLeafAt(t, i) ==> d[i] <= 7 || d[i] >= 17
  }

  /** The shares of the leaves with short codes, in units of 2^-7, and of those with long ones. */
  lemma GapParts(t: Tree, d: seq<nat>, top: nat) returns (g: seq<int>, h: seq<int>)
    requires top >= 17 && Lengths(t, d, top) && Gap(t, d)
    ensures |g| == |h| == |t| && Sum(Shares(t, d, top)) == Pow2(top - 7) * Sum(g) + Sum(h)
    ensures forall i :: 0 <= i < |t| ==> 0 <= h[i] <= Pow2(top - 17) * if IsLeafAt(t, i) then 1 else 0
    ensures forall i :: IsLeafAt(t, i) && d[i] >= 17 ==> h[i] > 0
  {
    var f, c := Shares(t, d, top), Pow2(top - 7);
    g := seq(|t|, i requires 0 <= i < |t| => if IsLeafAt(t, i) && d[i] <= 7 then Pow2(7 - d[i]) else 0);
    h := seq(|t|, i requires 0 <= i < |t| => if IsLeafAt(t, i) && d[i] > 7 then Pow2(top - d[i]) else 0);
    var k := seq(|t|, i requires 0 <= i < |t| => f[i] - h[i]);
    forall i | 0 <= i < |t|
      ensures k[i] == c * g[i] && 0 <= h[i] <= Pow2(top - 17) * if IsLeafAt(t, i) then 1 else 0
    {
      if IsLeafAt(t, i) && d[i] <= 7 {
        Pow2Adds(top - 7, 7 - d[i]);
      } else if IsLeafAt(t, i) {
        Pow2Grows(top - d[i], top - 17);
      }
    }
    SumScales(k, g, c);
    SumAdds(k, h, f);
  }

  lemma NoRemainder(c: int, a: int, b: int, r: int)
    requires 0 <= r < c && c * a + r == c * b
    ensures r == 0
  {
    if r > 0 { NextMultiple(c, a, b); }
  }

  lemma GapPowers(top: nat, x: nat, y: nat)
    requires top >= 17 && x == top - 7 && y == top - 17
    ensures Pow2(top) == 128 * Pow2(x) && Pow2(x) == 1024 * Pow2(y)
  {
    Scaled(top, 7, x);
    Scaled(x, 10, y);
    SmallPowers();
  }

  lemma TooSmall(top: nat, x: nat, y: nat, a: int, r: int)
    requires top >= 17 && x == top - 7 && y == top - 17
    requires 0 <= r <= Pow2(y) * 257 && Pow2(top) == Pow2(x) * a + r
    ensures r == 0
  {
    GapPowers(top, x, y);
    NoRemainder(Pow2(x), a, 128, r);
  }

  lemma GapIsShort(t: Tree, d: seq<nat>, top: nat)
    requires Structure(t) && |t| == 513 && top >= 17 && d == OwnLengths(t) && Lengths(t, d, top) && Gap(t, d)
    ensures forall i :: IsLeafAt(t, i) ==> d[i] <= 7
  {
    var marks, x, y := LeafMarks(t), top - 7, top - 17;
    var g, h := GapParts(t, d, top);
    OwnKraft(t, d, top);
    LeafCount(t);
    SumBelow(h, marks, Pow2(y));
    SumNonNegative(h);
    TooSmall(top, x, y, Sum(g), Sum(h));
    NoneLong(t, d, h);
  }

  lemma SharesAbove(t: Tree, d: seq<nat>, top: nat, x: nat)
    requires Structure(t) && |t| == 513 && Lengths(t, d, top) && x <= top
    requires forall i :: IsLeafAt(t, i) ==> top - d[i] >= x
    ensures Sum(Shares(t, d, top)) >= Pow2(x) * 257
  {
    var f, g, c := Shares(t, d, top), LeafMarks(t), Pow2(x);
    forall i | 0 <= i < |t| ensures f[i] >= c * g[i] {
      if IsLeafAt(t, i) { Pow2Grows(x, top - d[i]); }
    }
    LeafCount(t);
    SumAbove(f, g, c);
  }

  /** 257 leaves do not fit into seven levels. */
  lemma NotAllShort(t: Tree, d: seq<nat>, top: nat)
    requires Structure(t) && |t| == 513 && top >= 17 && d == OwnLengths(t) && Lengths(t, d, top)
    ensures exists i :: IsLeafAt(t, i) && d[i] > 7
  {
    if forall i :: IsLeafAt(t, i) ==> d[i] <= 7 {
      var x, y := top - 7, top - 17;
      SharesAbove(t, d, top, x);
      OwnKraft(t, d, top);
      GapPowers(top, x, y);
      assert false;
    }
  }

  /** Some leaf has a code of eight to sixteen bits. */
  lemma MiddleLeaf(t: Tree, d: seq<nat>, top: nat) returns (k: nat)
    requires Structure(t) && |t| == 513 && top >= 17 && d == OwnLengths(t) && Lengths(t, d, top)
    ensures IsLeafAt(t, k) && 8 <= d[k] <= 16
  {
    NotAllShort(t, d, top);
    if Gap(t, d) {
      GapIsShort(t, d, top);
      assert false;
    }
    k :| IsLeafAt(t, k) && !(d[k] <= 7 || d[k] >= 17);
  }

  lemma NoneLong(t: Tree, d: seq<nat>, h: seq<int>)
    requires |h| == |t| == |d| && Gap(t, d) && Sum(h) == 0 && forall i :: 0 <= i < |h| ==> h[i] >= 0
    requires forall i :: IsLeafAt(t, i) && d[i] >= 17 ==> h[i] > 0
    ensures forall i :: IsLeafAt(t, i) ==> d[i] <= 7
  {
    forall i | IsLeafAt(t, i) ensures d[i] <= 7 {
      SumUpdate(h, i, 0);
      SumNonNegative(h[i := 0]);
    }
  }

  // ----- two bytes

  lemma FullSize(t: FullTree)
    ensures |t| == 513 && t[|t| - 2].kind.Leaf?
  {
    TreeSize(t);
    if |t| <= 511 {
      forall s: nat | s < 256 ensures s in Symbols(t) { assert Has(t, s); }
      SubsetSize(FirstNumbers(256), Symbols(t));
    }
  }

  /** The byte of a leaf; the not-yet-transmitted leaf has a sibling with as long a code. */
  lemma ByteAt(t: FullTree, i: nat) returns (ch: byte)
    requires IsLeafAt(t, i)
    ensures |Code(t, Find(t, ch))| == |Code(t, i)|
  {
    FullSize(t);
    var k := if i == |t| - 1 then |t| - 2 else i;
    if i == |t| - 1 { EscapeIsLogarithmic(t); }
    ch := t[k].kind.symbol;
    FindIs(t, k, ch);
  }

  lemma LengthsFit(t: Tree, d: seq<nat>)
    requires Structure(t) && d == OwnLengths(t)
    ensures Lengths(t, d, |t|)
  {
    forall i | IsLeafAt(t, i) ensures d[i] <= |t| { CodeLength(t, i); }
  }

  lemma NotEmpty(t: FullTree, ch: byte)
    ensures |Code(t, Find(t, ch))| >= 1
  {
    FullSize(t);
    assert Parented(t, 1);
  }

  lemma TwoBytes(t: FullTree) returns (a: byte, b: byte)
    ensures 1 <= |Code(t, Find(t, a))| <= 8 <= |Code(t, Find(t, b))| <= 16
  {
    FullSize(t);
    var d := OwnLengths(t);
    LengthsFit(t, d);
    var i := ShortLeaf(t, d, |t|);
    var j := MiddleLeaf(t, d, |t|);
    a := ByteAt(t, i);
    b := ByteAt(t, j);
    NotEmpty(t, a);
  }

  // ----- a message of eight bits a byte

  function Copies(ch: byte, n: nat): (s: seq<byte>)
    ensures |s| == n
  {
    if n == 0 then [] else Copies(ch, n - 1) + [ch]
  }

  lemma OneMore(n: nat, n0: nat, k: int)
    requires n == n0 + 1
    ensures n * k == n0 * k + k
  {
  }

  lemma {:induction false} CopiesCost(t: FullTree, m: seq<byte>, ch: byte, n: nat, k: nat)
    requires k == |Code(t, Find(t, ch))|
    ensures |StaticBits(t, m + Copies(ch, n))| == |StaticBits(t, m)| + n * k
  {
    if n == 0 {
      assert m + [] == m;
    } else {
      var n0 := n - 1;
      CopiesCost(t, m, ch, n0, k);
      StaticSnoc(t, m + Copies(ch, n0), ch);
      assert m + Copies(ch, n) == m + Copies(ch, n0) + [ch];
      OneMore(n, n0, k);
    }
  }

  /** So many of the longer codes, and the others short, come close to eight bits a byte. */
  lemma Mixture(la: nat, lb: nat) returns (n: nat)
    requires 1 <= la <= 8 <= lb <= 16
    ensures n <= 8255 && 66032 <= n * lb + (8255 - n) * la <= 66048
  {
    var d, x := lb - la, 66048 - 8255 * la;
    if d == 0 {
      n := 0;
    } else if x / d >= 8255 {
      n := 8255;
      assert 8255 * d <= x;
    } else {
      n := x / d;
      assert n * d + x % d == x;
      Spread(n, la, lb, d);
    }
  }

  lemma Spread(n: nat, la: nat, lb: nat, d: nat)
    requires n <= 8255 && lb == la + d
    ensures n * lb + (8255 - n) * la == 8255 * la + n * d
  {
  }

  /** Nothing that compressing and then decompressing the message may leave is the message. */
  ghost predicate Lost(t: FullTree, d: seq<byte>, c: int, max: int) {
    forall d1, c1, d2, c2 ::
      (Compressed(t, d, c, 0, d1, c1) && DecompressFits(t, d1, c1, max, 0)
       && Decompressed(t, d1, c1, max, 0, d2, c2) && |d2| == |d| >= c) ==> !Restored(d, c, d2, c2)
  }

  /** Compressing and decompressing in a buffer for `max` bytes, without a fatal error. */
  ghost predicate Runs(t: FullTree, d: seq<byte>, c: int, max: int, d1: seq<byte>, c1: int, d2: seq<byte>, c2: int) {
    && CompressFits(t, d, c, 0) && !CompressFails(t, d, c, max, 0) && Compressed(t, d, c, 0, d1, c1)
    && DecompressFits(t, d1, c1, max, 0) && !DecompressFails(t, d1, c1, max, 0)
    && Decompressed(t, d1, c1, max, 0, d2, c2)
  }

  /** With any tree some message of 8255 bytes, in a buffer with room for one byte more, is
      compressed and decompressed without an error, and lost. */
  lemma SomeMessageIsLost(t: FullTree)
    returns (d: seq<byte>, c: nat, max: nat, d1: seq<byte>, c1: int, d2: seq<byte>, c2: int)
    ensures c == MAX_HUFF_BUF_SIZE - 1 && max == |d| == c + 1 && TooLongForDecompress(t, d, c, 0)
    ensures Runs(t, d, c, max, d1, c1, d2, c2) && Lost(t, d, c, max)
  {
    d, c, max := LongMessage(t);
    d1, c1 := CompressedForm(t, d, c, 0);
    CompressedFits(t, d, c, max, 0, d1, c1);
    d2, c2 := d1, c1;
    LostWhenTooLong(t, d, c, max);
  }

  lemma LongMessage(t: FullTree) returns (d: seq<byte>, c: nat, max: nat)
    ensures c == MAX_HUFF_BUF_SIZE - 1 && max == |d| == c + 1
    ensures CompressFits(t, d, c, 0) && TooLongForDecompress(t, d, c, 0)
  {
    var a, b := TwoBytes(t);
    var la, lb := |Code(t, Find(t, a))|, |Code(t, Find(t, b))|;
    var n := Mixture(la, lb);
    var m := Copies(b, n) + Copies(a, 8255 - n);
    StaticStart(t, []);
    CopiesCost(t, [], b, n, lb);
    assert [] + Copies(b, n) == Copies(b, n);
    CopiesCost(t, Copies(b, n), a, 8255 - n, la);
    c, d, max := 8255, m + [0], 8256;
    assert d[0..c] == m;
  }

  lemma LostWhenTooLong(t: FullTree, d: seq<byte>, c: nat, max: nat)
    requires max == |d| == c + 1 && CompressFits(t, d, c, 0) && TooLongForDecompress(t, d, c, 0)
    ensures Lost(t, d, c, max)
  {
    forall d1, c1, d2, c2 | Compressed(t, d, c, 0, d1, c1) && DecompressFits(t, d1, c1, max, 0)
      && Decompressed(t, d1, c1, max, 0, d2, c2) && |d2| == |d|
      ensures !Restored(d, c, d2, c2)
    {
      DecompressUndoesCompress(t, d, c, max, 0, d1, c1, d2, c2);
    }
  }

  /** Whatever the table of positive counts, the tree of Huff_Init loses some message. */
  lemma EveryTableLosesOne(counts: seq<int>)
    returns (d: seq<byte>, c: nat, max: nat, d1: seq<byte>, c1: int, d2: seq<byte>, c2: int)
    requires |counts| == 256 && forall s :: 0 <= s < 256 ==> counts[s] > 0
    ensures KnowsAll(TreeOf(counts)) && c == MAX_HUFF_BUF_SIZE - 1 && max == |d| == c + 1
    ensures TooLongForDecompress(TreeOf(counts), d, c, 0)
    ensures Runs(TreeOf(counts), d, c, max, d1, c1, d2, c2) && Lost(TreeOf(counts), d, c, max)
  {
    TreeKnowsAll(counts);
    d, c, max, d1, c1, d2, c2 := SomeMessageIsLost(TreeOf(counts));
  }
}
