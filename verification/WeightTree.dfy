module WeightTree {
  /* The adaptive Huffman tree of src/huff.c, seen as a value.

     A tree is the sequence of its nodes in weight-list order, read from the heavy
     end: position 0 is the root and the last position is the not-yet-transmitted
     leaf.  Siblings sit at positions `kid` and `kid + 1` with `kid` odd, so an inner
     node needs to remember only `kid`. */

  datatype Kind = Nyt | Leaf(symbol: nat) | Inner(kid: nat)

  datatype Entry = Entry(weight: nat, kind: Kind)

  type Tree = seq<Entry>

  /** The odd position of the sibling pair that position `m` belongs to. */
  function Pair(m: nat): nat
    requires m >= 1
  {
    if m % 2 == 1 then m else m - 1
  }

  ghost predicate ParentOf(t: Tree, i: int, m: nat)
    requires m >= 1
  {
    0 <= i < m && i < |t| && t[i].kind.Inner? && t[i].kind.kid == Pair(m)
  }

  ghost predicate Parented(t: Tree, m: nat)
    requires m >= 1
  {
    exists i :: ParentOf(t, i, m)
  }

  /** Every non-root position has one parent, and parents come first. */
  ghost predicate Structure(t: Tree) {
    && |t| % 2 == 1
    && (forall i :: 0 <= i < |t| && t[i].kind.Inner? ==>
          i < t[i].kind.kid < |t| - 1 && t[i].kind.kid % 2 == 1)
    && (forall i, j :: 0 <= i < j < |t| && t[i].kind.Inner? && t[j].kind.Inner? ==>
          t[i].kind.kid != t[j].kind.kid)
    && (forall m :: 1 <= m < |t| ==> Parented(t, m))
  }

  ghost function Parent(t: Tree, m: nat): (i: nat)
    requires Structure(t) && 1 <= m < |t|
    ensures ParentOf(t, i, m)
    ensures forall k :: 0 <= k < |t| && t[k].kind.Inner? && t[k].kind.kid == Pair(m) ==> k == i
  {
    assert Parented(t, m);
    var i :| ParentOf(t, i, m);
    i
  }

  ghost function Symbols(t: Tree): set<nat> {
    set i | 0 <= i < |t| && t[i].kind.Leaf? :: t[i].kind.symbol
  }

  /** What the leaves carry: distinct bytes, and the not-yet-transmitted leaf last. */
  ghost predicate Labelled(t: Tree) {
    && |t| == 2 * |Symbols(t)| + 1
    && (forall i :: 0 <= i < |t| ==> (t[i].kind.Nyt? <==> i == |t| - 1))
    && (forall i :: 0 <= i < |t| && t[i].kind.Leaf? ==> t[i].kind.symbol < 256)
    && (forall i, j :: 0 <= i < j < |t| && t[i].kind.Leaf? && t[j].kind.Leaf? ==>
          t[i].kind.symbol != t[j].kind.symbol)
  }

  /** Each inner node weighs as much as its children, except that the node at
      `owing` (if it is an inner node) is still one short. */
  ghost predicate Sums(t: Tree, owing: int)
    requires Structure(t)
  {
    forall i :: 0 <= i < |t| && t[i].kind.Inner? ==>
      t[i].weight + (if i == owing then 1 else 0)
      == t[t[i].kind.kid].weight + t[t[i].kind.kid + 1].weight
  }

  ghost predicate Sorted(t: Tree) {
    forall i, j :: 0 <= i < j < |t| ==> t[i].weight >= t[j].weight
  }

  ghost predicate OnlyNytIsZero(t: Tree) {
    forall i :: 0 <= i < |t| ==> (t[i].weight == 0 <==> i == |t| - 1)
  }

  /** The list starts with the not-yet-transmitted leaf, its sibling and their parent. */
  ghost predicate NytAtEnd(t: Tree) {
    |t| >= 3 ==> t[|t| - 3].kind == Inner(|t| - 2)
  }

  /** The sibling property, strengthened at the light end. */
  ghost predicate Inv(t: Tree) {
    Structure(t) && Labelled(t) && Sums(t, -1) && Sorted(t) && OnlyNytIsZero(t) && NytAtEnd(t)
  }

  /** The list is sorted as stored: while the sibling of the not-yet-transmitted leaf
      is ahead of its parent by one, the two stand in each other's place. */
  ghost predicate SortedFor(t: Tree, i: nat) {
    if |t| >= 3 && i == |t| - 3 then
      && (forall k, l :: 0 <= k < l < |t| && !(k == i && l == i + 1) ==> t[k].weight >= t[l].weight)
      && t[i + 1].weight == t[i].weight + 1
      && (i > 0 ==> t[i - 1].weight > t[i].weight)
    else
      Sorted(t)
  }

  /** `t` is a good tree in which only the node at `i` still has to be incremented. */
  ghost predicate Ready(t: Tree, i: nat) {
    && Structure(t) && Labelled(t) && Sums(t, i) && OnlyNytIsZero(t) && NytAtEnd(t)
    && i < |t| - 1
    && SortedFor(t, i)
  }

  /** The block leader: the heavy end of the run of equal weights that contains `i`. */
  ghost function First(t: Tree, i: nat): (j: nat)
    requires i < |t|
    ensures j <= i
    ensures forall k :: j <= k <= i ==> t[k].weight == t[i].weight
    ensures j > 0 ==> t[j - 1].weight != t[i].weight
  {
    if i > 0 && t[i - 1].weight == t[i].weight then First(t, i - 1) else i
  }

  function Exchange<T>(t: seq<T>, i: nat, j: nat): (u: seq<T>)
    requires i < |t| && j < |t|
    ensures |u| == |t|
  {
    t[i := t[j]][j := t[i]]
  }

  ghost function Bump(t: Tree, i: nat): Tree
    requires i < |t|
  {
    t[i := t[i].(weight := t[i].weight + 1)]
  }

  /** The sibling of the not-yet-transmitted leaf whose block leader is its own parent. */
  ghost predicate LeaderIsParent(t: Tree, i: nat)
    requires i < |t|
  {
    i == |t| - 2 && First(t, i) == i - 1
  }

  /** Where the node at `i` stands when its weight goes up. */
  ghost function Spot(t: Tree, i: nat): (k: nat)
    requires i < |t|
    ensures k <= i
  {
    if LeaderIsParent(t, i) then i else First(t, i)
  }

  ghost function Placed(t: Tree, i: nat): (u: Tree)
    requires i < |t|
    ensures |u| == |t|
  {
    Exchange(t, i, Spot(t, i))
  }

  ghost function Raise(t: Tree, i: nat): (u: Tree)
    requires i < |t|
    ensures |u| == |t|
  {
    Bump(Placed(t, i), Spot(t, i))
  }

  // ----- exchanging a node with its block leader keeps the tree well formed

  lemma LeaderKids(t: Tree, i: nat)
    requires Ready(t, i) && !LeaderIsParent(t, i)
    requires t[First(t, i)].kind.Inner? && First(t, i) < i
    ensures t[First(t, i)].kind.kid > i
  {
    var j := First(t, i);
    var c := t[j].kind.kid;
    assert t[j].weight == t[c].weight + t[c + 1].weight;
    if c <= i { assert false; }
  }

  lemma ExchangeStructure(t: Tree, i: nat, j: nat)
    requires Structure(t) && j <= i < |t|
    requires t[j].kind.Inner? && j < i ==> t[j].kind.kid > i
    ensures Structure(Exchange(t, i, j))
  {
    var u := Exchange(t, i, j);
    forall m | 1 <= m < |u| ensures Parented(u, m) {
      var p := Parent(t, m);
      var p' := if p == i then j else if p == j then i else p;
      assert ParentOf(u, p', m);
    }
  }

  lemma ExchangeSymbols(t: Tree, i: nat, j: nat)
    requires i < |t| && j < |t|
    ensures Symbols(Exchange(t, i, j)) == Symbols(t)
  {
    var u := Exchange(t, i, j);
    forall s | s in Symbols(t) ensures s in Symbols(u) {
      var k :| 0 <= k < |t| && t[k].kind.Leaf? && t[k].kind.symbol == s;
      var k' := if k == i then j else if k == j then i else k;
      assert u[k'] == t[k];
    }
    forall s | s in Symbols(u) ensures s in Symbols(t) {
      var k :| 0 <= k < |u| && u[k].kind.Leaf? && u[k].kind.symbol == s;
      var k' := if k == i then j else if k == j then i else k;
      assert t[k'] == u[k];
    }
  }

  lemma BumpSymbols(t: Tree, i: nat)
    requires i < |t|
    ensures Symbols(Bump(t, i)) == Symbols(t)
  {
    var u := Bump(t, i);
    forall s | s in Symbols(t) ensures s in Symbols(u) {
      var k :| 0 <= k < |t| && t[k].kind.Leaf? && t[k].kind.symbol == s;
      assert u[k].kind == t[k].kind;
    }
    forall s | s in Symbols(u) ensures s in Symbols(t) {
      var k :| 0 <= k < |u| && u[k].kind.Leaf? && u[k].kind.symbol == s;
      assert u[k].kind == t[k].kind;
    }
  }

  lemma BumpStructure(t: Tree, i: nat)
    requires Structure(t) && i < |t|
    ensures Structure(Bump(t, i))
    ensures forall m :: 1 <= m < |t| ==> Parent(Bump(t, i), m) == Parent(t, m)
  {
    var u := Bump(t, i);
    assert forall k :: 0 <= k < |t| ==> u[k].kind == t[k].kind;
    forall m | 1 <= m < |u| ensures Parented(u, m) {
      assert ParentOf(u, Parent(t, m), m);
    }
  }

  lemma PlacedWeights(t: Tree, i: nat)
    requires i < |t|
    ensures forall k :: 0 <= k < |t| ==> Placed(t, i)[k].weight == t[k].weight
  {
  }

  /** The sibling of the not-yet-transmitted leaf is a leaf and has the last parent. */
  lemma SiblingOfNyt(t: Tree)
    requires Structure(t) && NytAtEnd(t) && |t| >= 3
    ensures !t[|t| - 2].kind.Inner?
    ensures Parent(t, |t| - 2) == |t| - 3
  {
  }

  lemma SiblingWeight(t: Tree, o: int)
    requires Structure(t) && NytAtEnd(t) && OnlyNytIsZero(t) && |t| >= 3
    requires Sums(t, o) && o != |t| - 3
    ensures t[|t| - 3].weight == t[|t| - 2].weight
  {
    var c := t[|t| - 3].kind.kid;
    assert t[c + 1].weight == 0;
  }

  lemma PlacedStructure(t: Tree, i: nat)
    requires Ready(t, i)
    ensures Structure(Placed(t, i))
  {
    var j := Spot(t, i);
    if j < i && t[j].kind.Inner? { LeaderKids(t, i); }
    ExchangeStructure(t, i, j);
  }

  lemma PlacedLabels(t: Tree, i: nat)
    requires Labelled(t) && i < |t| - 1
    ensures Labelled(Placed(t, i))
  {
    ExchangeSymbols(t, i, Spot(t, i));
  }

  lemma PlacedNyt(t: Tree, i: nat)
    requires Ready(t, i)
    ensures NytAtEnd(Placed(t, i))
  {
    if i == |t| - 2 { SiblingWeight(t, i); }
  }

  lemma PlacedSumAt(t: Tree, i: nat, z: nat)
    requires Structure(t) && Sums(t, i) && i < |t| && z < |t|
    requires Placed(t, i)[z].kind.Inner?
    ensures Placed(t, i)[z].kind.kid + 1 < |t|
    ensures t[z].weight + (if z == Spot(t, i) then 1 else 0)
         == t[Placed(t, i)[z].kind.kid].weight + t[Placed(t, i)[z].kind.kid + 1].weight
  {
    var j := Spot(t, i);
    var z' := if z == i then j else if z == j then i else z;
    assert Placed(t, i)[z] == t[z'];
    var c := t[z'].kind.kid;
    assert t[z'].weight + (if z' == i then 1 else 0) == t[c].weight + t[c + 1].weight;
  }

  lemma PlacedSums(t: Tree, i: nat)
    requires Structure(t) && Sums(t, i) && i < |t| && Structure(Placed(t, i))
    ensures Sums(Placed(t, i), Spot(t, i))
  {
    var u := Placed(t, i);
    PlacedWeights(t, i);
    forall z | 0 <= z < |u| && u[z].kind.Inner?
      ensures u[z].weight + (if z == Spot(t, i) then 1 else 0)
           == u[u[z].kind.kid].weight + u[u[z].kind.kid + 1].weight
    {
      PlacedSumAt(t, i, z);
    }
  }

  lemma RaiseWeights(t: Tree, i: nat)
    requires i < |t|
    ensures forall m :: 0 <= m < |t| ==>
      Raise(t, i)[m].weight == t[m].weight + if m == Spot(t, i) then 1 else 0
  {
  }

  lemma BumpSums(v: Tree, k: nat)
    requires Structure(v) && Sums(v, k) && k < |v|
    requires Structure(Bump(v, k))
    ensures Sums(Bump(v, k), if k == 0 then -1 else Parent(Bump(v, k), k) as int)
  {
    var u := Bump(v, k);
    var o := if k == 0 then -1 else Parent(u, k) as int;
    forall z | 0 <= z < |u| && u[z].kind.Inner?
      ensures u[z].weight + (if z == o then 1 else 0)
           == u[u[z].kind.kid].weight + u[u[z].kind.kid + 1].weight
    {
      assert v[z].kind == u[z].kind;
      assert v[z].weight + (if z == k then 1 else 0)
           == v[v[z].kind.kid].weight + v[v[z].kind.kid + 1].weight;
    }
  }

  /** The recursion reaches the parent of the not-yet-transmitted leaf only from the
      leaf's sibling, and only when that parent led the sibling's block. */
  lemma RaiseToLastParent(t: Tree, i: nat)
    requires Ready(t, i) && Structure(Raise(t, i)) && NytAtEnd(Raise(t, i))
    requires Spot(t, i) > 0
    ensures Parent(Raise(t, i), Spot(t, i)) == |t| - 3 <==> LeaderIsParent(t, i)
  {
    SiblingOfNyt(t);
    SiblingOfNyt(Raise(t, i));
    if i == |t| - 2 { SiblingWeight(t, i); }
  }

  lemma SortedAfterBump(t: Tree, u: Tree, k: nat)
    requires |u| == |t| && k < |t| && Sorted(t)
    requires forall m :: 0 <= m < |t| ==> u[m].weight == t[m].weight + if m == k then 1 else 0
    requires k > 0 ==> t[k - 1].weight != t[k].weight
    ensures Sorted(u)
  {
  }

  lemma RaiseSorted(t: Tree, i: nat)
    requires SortedFor(t, i) && i < |t| - 1 && !LeaderIsParent(t, i)
    ensures Sorted(Raise(t, i))
  {
    RaiseWeights(t, i);
    if |t| < 3 || i != |t| - 3 {
      SortedAfterBump(t, Raise(t, i), Spot(t, i));
    }
  }

  lemma RaiseSortedFlipped(t: Tree, i: nat)
    requires Ready(t, i) && LeaderIsParent(t, i)
    ensures SortedFor(Raise(t, i), |t| - 3)
  {
    RaiseWeights(t, i);
    assert t[i - 1].weight == t[i].weight;
  }

  lemma PlacedShape(t: Tree, i: nat)
    requires Ready(t, i)
    ensures var v := Placed(t, i);
      Structure(v) && Labelled(v) && NytAtEnd(v) && Sums(v, Spot(t, i))
  {
    PlacedStructure(t, i);
    PlacedLabels(t, i);
    PlacedNyt(t, i);
    PlacedSums(t, i);
  }

  lemma BumpLabels(v: Tree, k: nat)
    requires Labelled(v) && NytAtEnd(v) && k < |v|
    ensures Labelled(Bump(v, k)) && NytAtEnd(Bump(v, k))
  {
    BumpSymbols(v, k);
    var u := Bump(v, k);
    assert forall i :: 0 <= i < |u| ==> u[i].kind == v[i].kind;
  }

  lemma RaiseZero(t: Tree, i: nat)
    requires OnlyNytIsZero(t) && i < |t| - 1
    ensures OnlyNytIsZero(Raise(t, i))
  {
    RaiseWeights(t, i);
  }

  lemma RaiseShape(t: Tree, i: nat)
    requires Ready(t, i)
    ensures var u, k := Raise(t, i), Spot(t, i);
      && Structure(u) && Labelled(u) && NytAtEnd(u) && OnlyNytIsZero(u)
      && Sums(u, if k == 0 then -1 else Parent(u, k) as int)
  {
    PlacedShape(t, i);
    BumpStructure(Placed(t, i), Spot(t, i));
    BumpLabels(Placed(t, i), Spot(t, i));
    BumpSums(Placed(t, i), Spot(t, i));
    RaiseZero(t, i);
  }

  /** One turn of the recursion: the next node up is the only one still owing. */
  lemma RaiseReady(t: Tree, i: nat)
    requires Ready(t, i)
    ensures var u, k := Raise(t, i), Spot(t, i);
      && Structure(u)
      && (k == 0 ==> Inv(u))
      && (k > 0 ==> Parent(u, k) < k && Ready(u, Parent(u, k)))
      && (k > 0 ==> (Parent(u, k) == |t| - 3 <==> LeaderIsParent(t, i)))
  {
    var u, k := Raise(t, i), Spot(t, i);
    RaiseShape(t, i);
    if k > 0 { RaiseToLastParent(t, i); }
    if LeaderIsParent(t, i) {
      RaiseSortedFlipped(t, i);
    } else {
      RaiseSorted(t, i);
    }
  }

  // ----- Huff_IncrementFreq_r and Huff_AddReference as functions on trees

  ghost function Increment(t: Tree, i: nat): (u: Tree)
    requires Ready(t, i)
    ensures |u| == |t|
    decreases i
  {
    RaiseReady(t, i);
    var u, k := Raise(t, i), Spot(t, i);
    if k == 0 then u else Increment(u, Parent(u, k))
  }

  /** Incrementing restores the sibling property and leaves lighter nodes in place. */
  lemma {:induction false} IncrementInv(t: Tree, i: nat)
    requires Ready(t, i)
    ensures Inv(Increment(t, i))
    ensures Increment(t, i)[i + 1..] == t[i + 1..]
    decreases i
  {
    RaiseReady(t, i);
    var u, k := Raise(t, i), Spot(t, i);
    assert u[i + 1..] == t[i + 1..];
    if k > 0 {
      var p := Parent(u, k);
      IncrementInv(u, p);
      assert Increment(u, p)[i + 1..] == Increment(u, p)[p + 1..][i - p..];
      assert u[i + 1..] == u[p + 1..][i - p..];
    }
  }

  const Seed: Tree := [Entry(0, Nyt)]

  ghost predicate Has(t: Tree, s: nat) {
    exists i :: 0 <= i < |t| && t[i].kind == Leaf(s)
  }

  ghost function Find(t: Tree, s: nat): (i: nat)
    requires Has(t, s)
    ensures i < |t| && t[i].kind == Leaf(s)
  {
    var i :| 0 <= i < |t| && t[i].kind == Leaf(s);
    i
  }

  /** The not-yet-transmitted leaf splits into an inner node, the new leaf and itself. */
  ghost function Sprout(t: Tree, s: nat): (u: Tree)
    requires |t| > 0
    ensures |u| == |t| + 2
  {
    t[..|t| - 1] + [Entry(1, Inner(|t|)), Entry(1, Leaf(s)), Entry(0, Nyt)]
  }

  ghost function AddReference(t: Tree, s: nat): (u: Tree)
    requires Inv(t) && s < 256
    ensures |u| == if Has(t, s) then |t| else |t| + 2
  {
    if Has(t, s) then
      LeafReady(t, Find(t, s));
      Increment(t, Find(t, s))
    else if |t| == 1 then
      Sprout(t, s)
    else
      SproutReady(t, s);
      Increment(Sprout(t, s), |t| - 3)
  }

  lemma LeafReady(t: Tree, i: nat)
    requires Inv(t) && i < |t| && t[i].kind.Leaf?
    ensures Ready(t, i)
  {
    if |t| >= 3 { assert t[|t| - 3].kind.Inner?; }
  }

  lemma SproutStructure(t: Tree, s: nat)
    requires Structure(t)
    requires |t| > 0 && !t[|t| - 1].kind.Inner?
    ensures Structure(Sprout(t, s))
  {
    var u := Sprout(t, s);
    forall m | 1 <= m < |u| ensures Parented(u, m) {
      if m >= |t| {
        assert ParentOf(u, |t| - 1, m);
      } else {
        assert ParentOf(t, Parent(t, m), m);
        assert ParentOf(u, Parent(t, m), m);
      }
    }
  }

  lemma SproutLabels(t: Tree, s: nat)
    requires Labelled(t) && |t| > 0 && s < 256 && !Has(t, s)
    ensures Labelled(Sprout(t, s))
    ensures Symbols(Sprout(t, s)) == Symbols(t) + {s}
  {
    SproutSymbols(t, s);
    SproutDistinct(t, Sprout(t, s), s);
    assert s !in Symbols(t);
  }

  lemma SproutDistinct(t: Tree, u: Tree, s: nat)
    requires Labelled(t) && |t| > 0 && s < 256 && !Has(t, s) && u == Sprout(t, s)
    ensures forall i :: 0 <= i < |u| ==> (u[i].kind.Nyt? <==> i == |u| - 1)
    ensures forall i :: 0 <= i < |u| && u[i].kind.Leaf? ==> u[i].kind.symbol < 256
    ensures forall i, j :: 0 <= i < j < |u| && u[i].kind.Leaf? && u[j].kind.Leaf? ==>
              u[i].kind.symbol != u[j].kind.symbol
  {
    var n := |t|;
    assert u[..n - 1] == t[..n - 1];
    assert forall k :: 0 <= k < n - 1 ==> u[k] == u[..n - 1][k] == t[k];
    assert u[n - 1].kind == Inner(n) && u[n].kind == Leaf(s) && u[n + 1].kind == Nyt;
    assert forall k :: 0 <= k < n ==> t[k].kind != Leaf(s);
  }

  lemma SproutSymbols(t: Tree, s: nat)
    requires Labelled(t) && |t| > 0
    ensures Symbols(Sprout(t, s)) == Symbols(t) + {s}
  {
    var u := Sprout(t, s);
    forall x | x in Symbols(t) ensures x in Symbols(u) {
      var k :| 0 <= k < |t| && t[k].kind.Leaf? && t[k].kind.symbol == x;
      assert u[k] == t[k];
    }
    assert u[|t|].kind == Leaf(s);
    forall x | x in Symbols(u) ensures x in Symbols(t) + {s} {
      var k :| 0 <= k < |u| && u[k].kind.Leaf? && u[k].kind.symbol == x;
      assert k < |t| - 1 ==> u[k] == t[k];
    }
  }

  lemma SproutSums(t: Tree, s: nat)
    requires Inv(t) && Structure(Sprout(t, s))
    ensures Sums(Sprout(t, s), |t| - 3)
  {
    var u := Sprout(t, s);
    forall z | 0 <= z < |u| && u[z].kind.Inner?
      ensures u[z].weight + (if z == |t| - 3 then 1 else 0)
           == u[u[z].kind.kid].weight + u[u[z].kind.kid + 1].weight
    {
      if z < |t| - 1 {
        assert u[z] == t[z];
        var c := t[z].kind.kid;
        assert t[z].weight == t[c].weight + t[c + 1].weight;
        assert c + 1 == |t| - 1 <==> z == |t| - 3;
      }
    }
  }

  lemma SproutSorted(t: Tree, s: nat)
    requires Sorted(t) && OnlyNytIsZero(t) && |t| > 0
    ensures Sorted(Sprout(t, s)) && OnlyNytIsZero(Sprout(t, s)) && NytAtEnd(Sprout(t, s))
  {
  }

  lemma SproutReady(t: Tree, s: nat)
    requires Inv(t) && s < 256 && !Has(t, s)
    ensures Inv(t) && |t| == 1 ==> Inv(Sprout(t, s))
    ensures |t| > 1 ==> Ready(Sprout(t, s), |t| - 3)
  {
    SproutStructure(t, s);
    SproutLabels(t, s);
    SproutSums(t, s);
    SproutSorted(t, s);
  }

  /** The sibling property holds after every reference. */
  lemma AddReferenceInv(t: Tree, s: nat)
    requires Inv(t) && s < 256
    ensures Inv(AddReference(t, s))
  {
    if Has(t, s) {
      LeafReady(t, Find(t, s));
      IncrementInv(t, Find(t, s));
    } else {
      SproutReady(t, s);
      if |t| > 1 { IncrementInv(Sprout(t, s), |t| - 3); }
    }
  }

  lemma SeedInv()
    ensures Inv(Seed)
  {
    assert Symbols(Seed) == {};
  }

  // ----- how many nodes

  /** A tree over bytes never needs more than 513 nodes. */
  lemma TreeSize(t: Tree)
    requires Labelled(t)
    ensures |t| <= 513
    ensures forall s :: s < 256 && !Has(t, s) ==> |t| <= 511
  {
    var all := FirstNumbers(256);
    assert Symbols(t) <= all;
    SubsetSize(Symbols(t), all);
    forall s | s < 256 && !Has(t, s) ensures |t| <= 511 {
      assert s !in Symbols(t) by {
        forall i | 0 <= i < |t| && t[i].kind.Leaf? ensures t[i].kind.symbol != s {
          assert t[i].kind != Leaf(s);
        }
      }
      SubsetSize(Symbols(t), all - {s});
    }
  }

  ghost function FirstNumbers(n: nat): (s: set<nat>)
    ensures |s| == n && forall x :: x in s <==> 0 <= x < n
  {
    if n == 0 then {} else FirstNumbers(n - 1) + {n - 1}
  }

  lemma {:induction false} SubsetSize(a: set<nat>, b: set<nat>)
    requires a <= b
    ensures |a| <= |b|
    decreases |a|
  {
    if |a| > 0 {
      var x :| x in a;
      SubsetSize(a - {x}, b - {x});
    }
  }
}
