module StaticTree {
  /* Huff_Init: the tree of a frequency table, and what it is good for. */

  import opened Bits
  import opened Coding
  import opened Frequencies
  import opened Lockstep
  import opened Optimality
  import opened PathCode
  import opened TreeStore
  import opened WeightTree
  import H = HuffTree

  function Times(s: byte, n: int): (r: seq<byte>)
    ensures |r| == if n > 0 then n else 0
    decreases n
  {
    if n <= 0 then [] else Times(s, n - 1) + [s]
  }

  /** The references that Huff_Init makes for the first `n` entries of a table. */
  function Table(counts: seq<int>, n: nat): (r: seq<byte>)
    requires n <= |counts| <= 256
    decreases n
  {
    if n == 0 then [] else Table(counts, n - 1) + Times(n - 1, counts[n - 1])
  }

  function CountOf(counts: seq<int>, s: nat): nat {
    if s < |counts| && counts[s] > 0 then counts[s] else 0
  }

  lemma {:induction false} TimesCount(s: byte, n: int, x: byte)
    ensures multiset(Times(s, n))[x] == if x == s && n > 0 then n else 0
    decreases n
  {
    if n > 0 { TimesCount(s, n - 1, x); }
  }

  lemma {:induction false} TableCount(counts: seq<int>, n: nat, s: byte)
    requires n <= |counts| <= 256
    ensures multiset(Table(counts, n))[s] == if s < n then CountOf(counts, s) else 0
  {
    if n > 0 {
      var a: seq<byte>, b: seq<byte> := Table(counts, n - 1), Times(n - 1, counts[n - 1]);
      TableCount(counts, n - 1, s);
      TimesCount(n - 1, counts[n - 1], s);
      assert multiset(a + b) == multiset(a) + multiset(b);
    }
  }

  /** The tree of a table. */
  ghost function TreeOf(counts: seq<int>): (t: Tree)
    requires |counts| == 256
    ensures Inv(t)
  {
    SeedInv();
    Learn(Seed, Table(counts, |counts|))
  }

  lemma {:induction false} TableSorted(counts: seq<int>, n: nat)
    requires n <= |counts| <= 256
    ensures forall k :: 0 <= k < |Table(counts, n)| ==> Table(counts, n)[k] < n
    ensures forall k, l :: 0 <= k < l < |Table(counts, n)| ==> Table(counts, n)[k] <= Table(counts, n)[l]
  {
    if n > 0 {
      var s: byte := n - 1;
      TableSorted(counts, n - 1);
      TimesAll(s, counts[n - 1]);
    }
  }

  lemma {:induction false} TimesAll(s: byte, n: int)
    ensures forall k :: 0 <= k < |Times(s, n)| ==> Times(s, n)[k] == s
    decreases n
  {
    if n > 0 { TimesAll(s, n - 1); }
  }

  /** The tree is that of the message which holds each byte as often as the table says, in the
      order of the bytes. */
  lemma TreeInOrder(counts: seq<int>) returns (m: seq<byte>)
    requires |counts| == 256
    ensures Inv(Seed) && TreeOf(counts) == Learn(Seed, m)
    ensures forall k, l :: 0 <= k < l < |m| ==> m[k] <= m[l]
    ensures forall s: byte :: multiset(m)[s] == if counts[s] > 0 then counts[s] else 0
  {
    SeedInv();
    m := Table(counts, 256);
    TableSorted(counts, 256);
    forall s: byte ensures multiset(m)[s] == if counts[s] > 0 then counts[s] else 0 {
      TableCount(counts, 256, s);
    }
  }

  lemma LearnConcat(t: GoodTree, a: seq<byte>, b: seq<byte>, c: seq<byte>)
    requires c == a + b
    ensures Learn(t, c) == Learn(Learn(t, a), b)
  {
    EncodeConcat(Adaptive, t, a, b);
    AfterIsLearn(t, c);
    AfterIsLearn(t, a);
    AfterIsLearn(After(Adaptive, t, a), b);
  }

  lemma TimesMore(t: GoodTree, s: byte, j: nat, n: nat)
    requires n == j + 1
    ensures Learn(t, Times(s, n)) == AddReference(Learn(t, Times(s, j)), s)
  {
    EncodeConcat(Adaptive, t, Times(s, j), [s]);
    EncodeOne(Adaptive, After(Adaptive, t, Times(s, j)), s);
    AfterIsLearn(t, Times(s, n));
    AfterIsLearn(t, Times(s, j));
  }

  /** Huff_Init's inner loop: `n` references to byte `s`. */
  method ReferTimes(h: H.HuffTree, s: byte, n: int, ghost v: View) returns (ghost w: View)
    requires h.Holds(v)
    modifies h, h.nodes, h.cells, h.leaf
    ensures h.Holds(w) && Inv(v.t) && w.t == Learn(v.t, Times(s, n))
  {
    w := v;
    var j := 0;
    while j < n
      invariant 0 <= j && (n > 0 ==> j <= n) && (n <= 0 ==> j == 0)
      invariant h.Holds(w) && w.t == Learn(v.t, Times(s, j))
    {
      ghost var j0 := j;
      j := j + 1;
      TimesMore(v.t, s, j0, j);
      w := H.Refer(h, s, w);
    }
  }

  /** The tree after the first `n` entries of a table. */
  ghost function TreeUpTo(counts: seq<int>, n: nat): (t: GoodTree)
    requires n <= |counts| <= 256
  {
    SeedInv();
    Learn(Seed, Table(counts, n))
  }

  lemma TableMore(counts: seq<int>, i: nat, n: nat)
    requires n == i + 1 <= |counts| <= 256
    ensures TreeUpTo(counts, n) == Learn(TreeUpTo(counts, i), Times(i, counts[i]))
  {
    SeedInv();
    LearnConcat(Seed, Table(counts, i), Times(i, counts[i]), Table(counts, n));
  }

  /** Huff_Init */
  method Init(counts: array<int>) returns (h: H.HuffTree, ghost v: View)
    requires counts.Length == 256
    ensures fresh(h) && fresh(h.nodes) && fresh(h.cells) && fresh(h.leaf)
    ensures h.Holds(v) && v.t == TreeOf(counts[..])
  {
    ghost var c := counts[..];
    h := new H.HuffTree();
    v := H.SeedView;
    var i := 0;
    while i < 256
      invariant 0 <= i <= 256 && counts[..] == c
      invariant h.Holds(v) && v.t == TreeUpTo(c, i)
    {
      ghost var i0 := i;
      v := ReferTimes(h, i, counts[i], v);
      i := i + 1;
      TableMore(c, i0, i);
    }
  }

  lemma InTable(counts: seq<int>, s: byte)
    requires |counts| == 256
    ensures s in Table(counts, |counts|) <==> counts[s] > 0
  {
    TableCount(counts, |counts|, s);
    assert s in Table(counts, |counts|) <==> multiset(Table(counts, |counts|))[s] > 0;
  }

  /** Leaf weights are the counts of the table; a byte has a leaf if its count is positive. */
  lemma TreeCounts(counts: seq<int>, s: byte)
    requires |counts| == 256
    ensures Count(TreeOf(counts), s) == CountOf(counts, s)
    ensures Has(TreeOf(counts), s) <==> counts[s] > 0
  {
    SeedInv();
    InTable(counts, s);
    TableCount(counts, |counts|, s);
    LearnedBytes(Seed, Table(counts, |counts|), s);
  }

  lemma LearnedBytes(t: GoodTree, data: seq<byte>, s: byte)
    ensures Count(Learn(t, data), s) == Count(t, s) + multiset(data)[s]
    ensures Has(Learn(t, data), s) <==> Has(t, s) || s in data
  {
    LearnCount(t, data, s);
  }

  /** If all counts are positive, every byte can be coded. */
  lemma TreeKnowsAll(counts: seq<int>)
    requires |counts| == 256
    ensures KnowsAll(TreeOf(counts)) <==> forall s :: 0 <= s < 256 ==> counts[s] > 0
  {
    forall s: nat | s < 256 ensures Has(TreeOf(counts), s) <==> counts[s] > 0 {
      TreeCounts(counts, s);
    }
  }

  // ----- what coding a message with the tree costs

  ghost function UsesAt(t: Tree, m: seq<byte>, i: nat): nat
    requires Structure(t) && i < |t|
  {
    if t[i].kind.Leaf? && t[i].kind.symbol < 256 then multiset(m)[t[i].kind.symbol] * |Code(t, i)| else 0
  }

  /** The bits that each leaf contributes to a coded message. */
  ghost function Uses(t: Tree, m: seq<byte>): (f: seq<int>)
    requires Structure(t)
    ensures |f| == |t| && forall i :: 0 <= i < |t| ==> f[i] == UsesAt(t, m, i)
  {
    seq(|t|, i requires 0 <= i < |t| => UsesAt(t, m, i))
  }

  lemma OneMoreUse(t: FullTree, m: seq<byte>, m2: seq<byte>, ch: byte, k: nat)
    requires m2 == m + [ch] && k == Find(t, ch)
    ensures k < |t| && Sum(Uses(t, m2)) == Sum(Uses(t, m)) + |Code(t, k)|
  {
    var f, g, v := Uses(t, m), Uses(t, m2), |Code(t, k)|;
    forall i | 0 <= i < |t| ensures g[i] == f[i] + if i == k then v else 0 {
      UseOf(t, m, ch, i);
    }
    OneMoreSum(f, g, k, v);
  }

  lemma OneMoreSum(f: seq<int>, g: seq<int>, k: nat, v: int)
    requires |f| == |g| && k < |f| && forall i :: 0 <= i < |f| ==> g[i] == f[i] + if i == k then v else 0
    ensures Sum(g) == Sum(f) + v
  {
    var x := f[k] + v;
    SumUpdate(f, k, x);
    assert g == f[k := x];
  }

  lemma UseOf(t: FullTree, m: seq<byte>, ch: byte, i: nat)
    requires i < |t|
    ensures UsesAt(t, m + [ch], i) == UsesAt(t, m, i) + if i == Find(t, ch) then |Code(t, i)| else 0
  {
    if t[i].kind.Leaf? {
      var c: byte := t[i].kind.symbol;
      FindIs(t, i, c);
      OneMoreOf(m, ch, c);
    }
  }

  lemma OneMoreOf(m: seq<byte>, ch: byte, c: byte)
    ensures multiset(m + [ch])[c] == multiset(m)[c] + if c == ch then 1 else 0
  {
  }

  /** The length of a coded message, counted leaf by leaf. */
  lemma {:induction false} CodedLength(t: FullTree, m: seq<byte>)
    ensures |StaticBits(t, m)| == Sum(Uses(t, m))
    decreases |m|
  {
    if m == [] {
      SumZero(Uses(t, m));
    } else {
      var m0, ch := m[..|m| - 1], m[|m| - 1];
      assert m == m0 + [ch];
      CodedLength(t, m0);
      StaticSnoc(t, m0, ch);
      var k := Find(t, ch);
      OneMoreUse(t, m0, m, ch, k);
    }
  }

  /** Each byte occurs in the message as often as the tree counted it. */
  ghost predicate Matches(t: Tree, m: seq<byte>) {
    forall s: byte :: Count(t, s) == multiset(m)[s]
  }

  lemma UsesAreBill(t: FullTree, m: seq<byte>)
    requires Matches(t, m)
    ensures Uses(t, m) == Bill(t, OwnLengths(t))
  {
    forall i | 0 <= i < |t| ensures Uses(t, m)[i] == Bill(t, OwnLengths(t))[i] {
      if t[i].kind.Leaf? {
        var c: byte := t[i].kind.symbol;
        FindIs(t, i, c);
        assert Count(t, c) == multiset(m)[c];
      }
    }
  }

  lemma {:induction false} SameFreq(b: CodeTree, f: nat -> nat, g: nat -> nat, depth: nat)
    requires forall s :: s in Tips(b) ==> f(s) == g(s)
    ensures PathLength(b, f, depth) == PathLength(b, g, depth)
  {
    if b.Fork? {
      SameFreq(b.zero, f, g, depth + 1);
      SameFreq(b.one, f, g, depth + 1);
    }
  }

  /** The bytes and the escape, which a coded message never uses. */
  ghost predicate AllLabels(b: CodeTree) {
    Once(b) && forall s :: s in Tips(b) <==> 0 <= s <= 256
  }

  lemma FullLeaves(t: FullTree, b: CodeTree)
    requires AllLabels(b)
    ensures SameLeaves(t, b)
  {
    forall s | s in Tips(b) ensures Carries(t, s) {
      if s < 256 {
        assert IsLeafAt(t, Find(t, s)) && Label(t, Find(t, s)) == s;
      } else {
        assert IsLeafAt(t, |t| - 1) && Label(t, |t| - 1) == s;
      }
    }
  }

  ghost function Occurrences(m: seq<byte>): nat -> nat {
    s => if s < 256 then multiset(m)[s] else 0
  }

  lemma BestForItsTree(t: FullTree, m: seq<byte>, b: CodeTree)
    requires Matches(t, m) && AllLabels(b)
    ensures |StaticBits(t, m)| <= PathLength(b, Occurrences(m), 0)
  {
    CodedLength(t, m);
    UsesAreBill(t, m);
    FullLeaves(t, b);
    NoShorterTree(t, b);
    FrequenciesAgree(t, m, b);
  }

  lemma FrequenciesAgree(t: FullTree, m: seq<byte>, b: CodeTree)
    requires Matches(t, m) && AllLabels(b)
    ensures PathLength(b, Freq(t), 0) == PathLength(b, Occurrences(m), 0)
  {
    forall s | s in Tips(b) ensures Freq(t)(s) == Occurrences(m)(s) {
      if s < 256 { assert Count(t, s) == multiset(m)[s]; } else { assert !Has(t, s); }
    }
    SameFreq(b, Freq(t), Occurrences(m), 0);
  }

  ghost function TableFreq(counts: seq<int>): nat -> nat
    requires |counts| == 256
  {
    s => if s < 256 then CountOf(counts, s) else 0
  }

  /** Optimality: for any table of positive counts, no binary tree over the 256 bytes and the
      escape has a smaller weighted path length than the tree of Huff_Init. */
  lemma MinimalForTable(counts: seq<int>, b: CodeTree)
    requires |counts| == 256 && AllLabels(b) && forall s :: 0 <= s < 256 ==> counts[s] > 0
    ensures var t := TreeOf(counts); Cost(t, OwnLengths(t)) <= PathLength(b, TableFreq(counts), 0)
  {
    var t := TreeOf(counts);
    TreeKnowsAll(counts);
    FullLeaves(t, b);
    NoShorterTree(t, b);
    TableAgrees(t, counts, b);
  }

  lemma TableAgrees(t: Tree, counts: seq<int>, b: CodeTree)
    requires |counts| == 256 && AllLabels(b) && t == TreeOf(counts)
    ensures PathLength(b, Freq(t), 0) == PathLength(b, TableFreq(counts), 0)
  {
    forall s | s in Tips(b) ensures Freq(t)(s) == TableFreq(counts)(s) {
      TableFreqAt(t, counts, s);
    }
    SameFreq(b, Freq(t), TableFreq(counts), 0);
  }

  lemma TableFreqAt(t: Tree, counts: seq<int>, s: nat)
    requires |counts| == 256 && t == TreeOf(counts) && s <= 256
    ensures Freq(t)(s) == TableFreq(counts)(s)
  {
    if s < 256 { TreeCounts(counts, s); } else { assert !Has(t, s); }
  }

  /** Optimality: a message with the frequencies of the table takes no more bits with the
      tree of Huff_Init than with any other binary tree over the same 257 leaves. */
  lemma BestForItsTable(counts: seq<int>, m: seq<byte>, b: CodeTree)
    requires |counts| == 256 && forall s: byte :: counts[s] == multiset(m)[s] > 0
    requires AllLabels(b)
    ensures KnowsAll(TreeOf(counts))
    ensures |StaticBits(TreeOf(counts), m)| <= PathLength(b, Occurrences(m), 0)
  {
    var t := TreeOf(counts);
    forall s: byte ensures Has(t, s) && Count(t, s) == multiset(m)[s] {
      TreeCounts(counts, s);
    }
    assert KnowsAll(t);
    BestForItsTree(t, m, b);
  }
}
