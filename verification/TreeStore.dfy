/** How src/huff.c lays the tree out in memory: nodes with left, right and parent
    links, a doubly linked weight list through the same nodes, and one cell for each
    block of equal weights that points at the block's leader.  The predicates here tie
    that memory to a `WeightTree.Tree`. */
module TreeStore {
  import opened WeightTree

  const NIL := -1

  /** The node region holds 768 nodes of 8 words, the cell region 768 cells. */
  const MAX_NODES := 768
  const MAX_CELLS := 768

  /** Symbols of the two kinds of node that carry no byte. */
  const NODE_NONE := 256
  const NODE_NEXT := 257

  datatype Node = Node(left: int, right: int, parent: int, next: int, prev: int,
                       cell: int, weight: nat, symbol: nat)

  const BLANK := Node(NIL, NIL, NIL, NIL, NIL, NIL, 0, 0)

  function SymbolOf(k: Kind): nat {
    match k
    case Nyt => NODE_NONE
    case Leaf(s) => s
    case Inner(_) => NODE_NEXT
  }

  ghost predicate Distinct(ord: seq<int>) {
    forall i, j :: 0 <= i < j < |ord| ==> ord[i] != ord[j]
  }

  ghost predicate Within(ord: seq<int>, n: int) {
    forall i :: 0 <= i < |ord| ==> 0 <= ord[i] < n
  }

  /** Two node regions that differ at most in the links of the weight list. */
  ghost predicate SameButList(ns: seq<Node>, ms: seq<Node>) {
    |ms| == |ns| && forall p :: 0 <= p < |ns| ==>
      ms[p] == ns[p].(next := ms[p].next, prev := ms[p].prev)
  }

  /** Two node regions that differ at most in the links of the binary tree. */
  ghost predicate SameButTree(ns: seq<Node>, ms: seq<Node>) {
    |ms| == |ns| && forall p :: 0 <= p < |ns| ==>
      ms[p] == ns[p].(left := ms[p].left, right := ms[p].right, parent := ms[p].parent)
  }

  // ----- the binary tree

  /** Node `ord[i]` is what the tree says about position `i`; the left child is the
      later of the two siblings. */
  ghost predicate NodeIs(ns: seq<Node>, ord: seq<int>, t: Tree, i: nat)
    requires |ord| == |t| && Within(ord, |ns|) && i < |t|
  {
    var n := ns[ord[i]];
    && n.weight == t[i].weight
    && n.symbol == SymbolOf(t[i].kind)
    && (t[i].kind.Inner? ==>
          && t[i].kind.kid + 1 < |t|
          && n.left == ord[t[i].kind.kid + 1]
          && n.right == ord[t[i].kind.kid]
          && ns[n.left].parent == ord[i]
          && ns[n.right].parent == ord[i])
    && (!t[i].kind.Inner? ==> n.left == NIL && n.right == NIL)
  }

  ghost predicate RepTree(ns: seq<Node>, root: int, ord: seq<int>, t: Tree) {
    && |ord| == |t| > 0
    && Within(ord, |ns|) && Distinct(ord)
    && root == ord[0] && ns[root].parent == NIL
    && forall i :: 0 <= i < |t| ==> NodeIs(ns, ord, t, i)
  }

  lemma ParentIs(ns: seq<Node>, root: int, ord: seq<int>, t: Tree, m: nat)
    requires RepTree(ns, root, ord, t) && Structure(t) && 1 <= m < |t|
    ensures ns[ord[m]].parent == ord[Parent(t, m)]
    ensures ns[ord[m]].parent != NIL
    ensures m % 2 == 1 <==> ns[ns[ord[m]].parent].right == ord[m]
    ensures m % 2 == 0 <==> ns[ns[ord[m]].parent].left == ord[m]
  {
    var p := Parent(t, m);
    assert NodeIs(ns, ord, t, p);
    assert m == t[p].kind.kid || m == t[p].kind.kid + 1;
  }

  // ----- the weight list

  ghost predicate Linked(ns: seq<Node>, lst: seq<int>) {
    && Within(lst, |ns|) && Distinct(lst)
    && (forall k {:trigger ns[lst[k]]} :: 0 <= k < |lst| ==> ns[lst[k]].next == NextIn(lst, k))
    && (forall k {:trigger ns[lst[k]]} :: 0 <= k < |lst| ==> ns[lst[k]].prev == PrevIn(lst, k))
  }

  /** The list is read from its heavy end, so `next` leads to the position before. */
  function NextIn(lst: seq<int>, k: nat): int
    requires k < |lst|
  {
    if k == 0 then NIL else lst[k - 1]
  }

  function PrevIn(lst: seq<int>, k: nat): int
    requires k < |lst|
  {
    if k == |lst| - 1 then NIL else lst[k + 1]
  }

  /** While the sibling of the not-yet-transmitted leaf is being carried past its
      parent, those two stand exchanged in the list. */
  function ListOf(ord: seq<int>, flip: bool): (lst: seq<int>)
    ensures |lst| == |ord|
  {
    if flip && |ord| >= 3 then Exchange(ord, |ord| - 3, |ord| - 2) else ord
  }

  function ListPos(n: nat, flip: bool, k: nat): nat {
    if flip && n >= 3 && k == n - 3 then n - 2
    else if flip && n >= 3 && k == n - 2 then n - 3
    else k
  }

  lemma ListOfPos(ord: seq<int>, flip: bool, k: nat)
    requires k < |ord|
    ensures ListPos(|ord|, flip, k) < |ord|
    ensures ListOf(ord, flip)[ListPos(|ord|, flip, k)] == ord[k]
  {
  }

  // ----- blocks of equal weight

  ghost predicate Leads(ns: seq<Node>, lst: seq<int>, k: int)
    requires Within(lst, |ns|) && 0 <= k < |lst|
  {
    k == 0 || ns[lst[k - 1]].weight != ns[lst[k]].weight
  }

  ghost predicate InBlock(ns: seq<Node>, lst: seq<int>, blk: map<nat, int>, k: int)
    requires Within(lst, |ns|) && 0 <= k < |lst|
  {
    var n := ns[lst[k]];
    n.weight in blk && n.cell == blk[n.weight]
  }

  ghost predicate LeaderIs(ns: seq<Node>, cs: seq<int>, lst: seq<int>, blk: map<nat, int>, k: int)
    requires Within(lst, |ns|) && 0 <= k < |lst|
  {
    Leads(ns, lst, k) ==>
      var w := ns[lst[k]].weight; w in blk && 0 <= blk[w] < |cs| && cs[blk[w]] == lst[k]
  }

  ghost predicate Injective(blk: map<nat, int>) {
    forall v, w :: v in blk && w in blk && v != w ==> blk[v] != blk[w]
  }

  ghost predicate Weighs(ns: seq<Node>, lst: seq<int>, w: nat, k: int)
    requires Within(lst, |ns|)
  {
    0 <= k < |lst| - 1 && ns[lst[k]].weight == w
  }

  /** Every node but the last (the not-yet-transmitted leaf) points at the cell of its
      weight, and, except at list position `x`, that cell points at the block leader. */
  ghost predicate Blocks(ns: seq<Node>, cs: seq<int>, lst: seq<int>, blk: map<nat, int>, x: int)
    requires Within(lst, |ns|)
  {
    && Injective(blk)
    && (forall k :: 0 <= k < |lst| - 1 ==> InBlock(ns, lst, blk, k))
    && (forall k :: 0 <= k < |lst| - 1 && k != x ==> LeaderIs(ns, cs, lst, blk, k))
    && (forall w :: w in blk ==> exists k :: Weighs(ns, lst, w, k))
  }

  /** The same, for all nodes but the one at list position `x`. */
  ghost predicate BlocksWithout(ns: seq<Node>, cs: seq<int>, lst: seq<int>, blk: map<nat, int>, x: int)
    requires Within(lst, |ns|) && 0 <= x < |lst|
  {
    && Injective(blk)
    && (forall k :: 0 <= k < |lst| - 1 && k != x ==> InBlock(ns, lst, blk, k))
    && (forall k :: 0 <= k < |lst| - 1 && k != x && k != x + 1 ==> LeaderIs(ns, cs, lst, blk, k))
    && (x + 1 < |lst| - 1 ==>
          var w := ns[lst[x + 1]].weight; w in blk && 0 <= blk[w] < |cs| && cs[blk[w]] == lst[x + 1])
    && (forall w :: w in blk ==> exists k :: Weighs(ns, lst, w, k) && k != x)
  }

  ghost predicate ListSorted(ns: seq<Node>, lst: seq<int>)
    requires Within(lst, |ns|)
  {
    forall k, l :: 0 <= k < l < |lst| ==> ns[lst[k]].weight >= ns[lst[l]].weight
  }

  // ----- the cells: each is in use by one block, free, or just held by the caller

  ghost predicate Chain(cs: seq<int>, free: int, fl: seq<int>) {
    && Within(fl, |cs|) && Distinct(fl)
    && free == (if fl == [] then NIL else fl[0])
    && forall k {:trigger cs[fl[k]]} :: 0 <= k < |fl| ==> cs[fl[k]] == PrevIn(fl, k)
  }

  ghost predicate Pool(cs: seq<int>, count: int, free: int, blk: map<nat, int>, fl: seq<int>, held: int) {
    && Chain(cs, free, fl)
    && 0 <= count <= |cs|
    && (forall c :: c in fl ==> 0 <= c < count && c != held)
    && (forall w :: w in blk ==> 0 <= blk[w] < count && blk[w] !in fl && blk[w] != held)
    && (held != NIL ==> 0 <= held < count)
    && (forall c :: 0 <= c < count && c !in fl && c != held ==> c in blk.Values)
  }

  // ----- the table from bytes to leaves

  ghost predicate LeafTable(lf: seq<int>, ord: seq<int>, t: Tree)
    requires |ord| == |t|
  {
    && |lf| == 257
    && (forall i :: 0 <= i < |t| && t[i].kind.Leaf? ==> t[i].kind.symbol < 256 && lf[t[i].kind.symbol] == ord[i])
    && (forall s :: 0 <= s < 256 && lf[s] != NIL ==> Has(t, s))
    && (|t| > 0 ==> lf[256] == ord[|t| - 1])
  }

  // ----- exchanging two subtrees (Huff_Swap)

  function SetChild(n: Node, was: int, now: int): Node {
    if n.left == was then n.(left := now) else n.(right := now)
  }

  /** The nodes after `x` has taken the place of `y` under `b` and `y` that of `x` under `a`. */
  function SwapNodes(ns: seq<Node>, x: int, y: int, a: int, b: int): (ms: seq<Node>)
    requires 0 <= x < |ns| && 0 <= y < |ns| && 0 <= a < |ns| && 0 <= b < |ns|
    ensures |ms| == |ns|
  {
    var n1 := ns[a := SetChild(ns[a], x, y)];
    var n2 := n1[b := SetChild(n1[b], y, x)];
    var n3 := n2[x := n2[x].(parent := b)];
    n3[y := n3[y].(parent := a)]
  }

  function Transposed(p: int, x: int, y: int): int {
    if p == x then y else if p == y then x else p
  }

  ghost predicate Swapping(ns: seq<Node>, root: int, ord: seq<int>, t: Tree, i: nat, j: nat) {
    && RepTree(ns, root, ord, t)
    && 0 < j < i < |t|
    && Structure(t) && Structure(Exchange(t, i, j))
  }

  /** Neither of the two nodes is the parent of the other. */
  lemma SwapParents(ns: seq<Node>, root: int, ord: seq<int>, t: Tree, i: nat, j: nat)
    requires Swapping(ns, root, ord, t, i, j)
    ensures ns[ord[j]].parent == ord[Parent(t, j)] && ns[ord[i]].parent == ord[Parent(t, i)]
    ensures Parent(t, j) < j && Parent(t, i) != i && Parent(t, i) != j
  {
    ParentIs(ns, root, ord, t, i);
    ParentIs(ns, root, ord, t, j);
    assert Exchange(t, i, j)[i] == t[j];
  }

  /** The children of a position, after the swap, are its old children with `x` and `y`
      in each other's place. */
  lemma SwapChildren(ns: seq<Node>, root: int, ord: seq<int>, t: Tree, i: nat, j: nat, z: nat)
    requires Swapping(ns, root, ord, t, i, j) && z < |t|
    ensures ns[ord[j]].parent == ord[Parent(t, j)] && ns[ord[i]].parent == ord[Parent(t, i)]
    ensures
      var x, y := ord[j], ord[i];
      var ms := SwapNodes(ns, x, y, ns[x].parent, ns[y].parent);
      && ms[ord[z]].left == Transposed(ns[ord[z]].left, x, y)
      && ms[ord[z]].right == Transposed(ns[ord[z]].right, x, y)
  {
    SwapParents(ns, root, ord, t, i, j);
    var x, y, pa, pb := ord[j], ord[i], Parent(t, j), Parent(t, i);
    assert NodeIs(ns, ord, t, z);
    assert NodeIs(ns, ord, t, pa);
    assert NodeIs(ns, ord, t, pb);
    if t[z].kind.Inner? {
      var c := t[z].kind.kid;
      assert z != pa ==> c != j && c + 1 != j;
      assert z != pb ==> c != i && c + 1 != i;
    }
  }

  lemma SwapOthers(ns: seq<Node>, root: int, ord: seq<int>, t: Tree, i: nat, j: nat, z: nat)
    requires Swapping(ns, root, ord, t, i, j) && z < |t|
    ensures ns[ord[j]].parent == ord[Parent(t, j)] && ns[ord[i]].parent == ord[Parent(t, i)]
    ensures
      var x, y := ord[j], ord[i];
      var ms := SwapNodes(ns, x, y, ns[x].parent, ns[y].parent);
      && ms[ord[z]].parent == (if z == j then ns[y].parent else if z == i then ns[x].parent
                               else ns[ord[z]].parent)
      && ms[ord[z]].weight == ns[ord[z]].weight && ms[ord[z]].symbol == ns[ord[z]].symbol
  {
    SwapParents(ns, root, ord, t, i, j);
  }

  lemma SwapNodeIs(ns: seq<Node>, ms: seq<Node>, root: int, ord: seq<int>, t: Tree, i: nat, j: nat, z: nat)
    requires Swapping(ns, root, ord, t, i, j) && z < |t|
    requires ns[ord[j]].parent == ord[Parent(t, j)] && ns[ord[i]].parent == ord[Parent(t, i)]
    requires ms == SwapNodes(ns, ord[j], ord[i], ns[ord[j]].parent, ns[ord[i]].parent)
    ensures NodeIs(ms, Exchange(ord, i, j), Exchange(t, i, j), z)
  {
    var z' := if z == i then j else if z == j then i else z;
    assert Exchange(t, i, j)[z] == t[z'] && Exchange(ord, i, j)[z] == ord[z'];
    SwapChildren(ns, root, ord, t, i, j, z');
    SwapOthers(ns, root, ord, t, i, j, z');
    assert NodeIs(ns, ord, t, z');
    if t[z'].kind.Inner? {
      var c := t[z'].kind.kid;
      var d := c + 1;
      SwapPair(ns, ms, root, ord, t, i, j, z', c, d);
    }
  }

  lemma SwapPair(ns: seq<Node>, ms: seq<Node>, root: int, ord: seq<int>, t: Tree,
                 i: nat, j: nat, z: nat, c: nat, d: nat)
    requires Swapping(ns, root, ord, t, i, j) && z < |t| && t[z].kind == Inner(c) && d == c + 1 < |t|
    requires ns[ord[j]].parent == ord[Parent(t, j)] && ns[ord[i]].parent == ord[Parent(t, i)]
    requires ms == SwapNodes(ns, ord[j], ord[i], ns[ord[j]].parent, ns[ord[i]].parent)
    ensures Within(Exchange(ord, i, j), |ms|)
    ensures ms[ord[z]].left == Exchange(ord, i, j)[d] && ms[ord[z]].right == Exchange(ord, i, j)[c]
    ensures ms[Exchange(ord, i, j)[c]].parent == ms[Exchange(ord, i, j)[d]].parent == ord[z]
  {
    SwapChildren(ns, root, ord, t, i, j, z);
    KidMoved(ord, i, j, c);
    KidMoved(ord, i, j, d);
    SwapKid(ns, ms, root, ord, t, i, j, z, c);
    SwapKid(ns, ms, root, ord, t, i, j, z, d);
    assert NodeIs(ns, ord, t, z);
  }

  lemma KidMoved(ord: seq<int>, i: nat, j: nat, c: nat)
    requires Distinct(ord) && i < |ord| && j < |ord| && c < |ord|
    ensures Transposed(ord[c], ord[j], ord[i]) == Exchange(ord, i, j)[c]
  {
  }

  /** The node now at child position `c` has the parent that belongs there. */
  lemma SwapKid(ns: seq<Node>, ms: seq<Node>, root: int, ord: seq<int>, t: Tree,
                i: nat, j: nat, z: nat, c: nat)
    requires Swapping(ns, root, ord, t, i, j) && z < |t| && 1 <= c < |t|
    requires t[z].kind.Inner? && t[z].kind.kid == Pair(c)
    requires ns[ord[j]].parent == ord[Parent(t, j)] && ns[ord[i]].parent == ord[Parent(t, i)]
    requires ms == SwapNodes(ns, ord[j], ord[i], ns[ord[j]].parent, ns[ord[i]].parent)
    ensures Within(Exchange(ord, i, j), |ms|)
    ensures ms[Exchange(ord, i, j)[c]].parent == ord[z]
  {
    ParentIs(ns, root, ord, t, c);
    var c' := if c == i then j else if c == j then i else c;
    SwapOthers(ns, root, ord, t, i, j, c');
    assert Exchange(ord, i, j)[c] == ord[c'];
  }

  /** Huff_Swap exchanges the subtrees at the two positions. */
  lemma SwapRep(ns: seq<Node>, root: int, ord: seq<int>, t: Tree, i: nat, j: nat)
    requires Swapping(ns, root, ord, t, i, j)
    ensures ns[ord[j]].parent == ord[Parent(t, j)] && ns[ord[i]].parent == ord[Parent(t, i)]
    ensures RepTree(SwapNodes(ns, ord[j], ord[i], ns[ord[j]].parent, ns[ord[i]].parent),
                    root, Exchange(ord, i, j), Exchange(t, i, j))
  {
    SwapParents(ns, root, ord, t, i, j);
    var ms := SwapNodes(ns, ord[j], ord[i], ns[ord[j]].parent, ns[ord[i]].parent);
    forall z | 0 <= z < |t| ensures NodeIs(ms, Exchange(ord, i, j), Exchange(t, i, j), z) {
      SwapNodeIs(ns, ms, root, ord, t, i, j, z);
    }
    SwapOthers(ns, root, ord, t, i, j, 0);
  }

  // ----- exchanging two nodes of the weight list (Huff_SwapTrees)

  function SetPrev(ns: seq<Node>, p: int, q: int): (ms: seq<Node>)
    requires p == NIL || 0 <= p < |ns|
    ensures |ms| == |ns|
  {
    if p == NIL then ns else ns[p := ns[p].(prev := q)]
  }

  function SetNext(ns: seq<Node>, p: int, q: int): (ms: seq<Node>)
    requires p == NIL || 0 <= p < |ns|
    ensures |ms| == |ns|
  {
    if p == NIL then ns else ns[p := ns[p].(next := q)]
  }

  ghost predicate Pointers(ns: seq<Node>, x: int) {
    && 0 <= x < |ns|
    && (ns[x].next == NIL || 0 <= ns[x].next < |ns|)
    && (ns[x].prev == NIL || 0 <= ns[x].prev < |ns|)
  }

  /** The nodes after `x` and `y` traded their own links. */
  ghost function SwapOwn(ns: seq<Node>, x: int, y: int): (ms: seq<Node>)
    requires Pointers(ns, x) && Pointers(ns, y)
    ensures |ms| == |ns|
  {
    var m0 := ns[x := ns[x].(next := if ns[y].next == x then y else ns[y].next, prev := ns[y].prev)];
    m0[y := m0[y].(next := if ns[x].next == y then x else ns[x].next, prev := ns[x].prev)]
  }

  /** The nodes after their neighbours followed. */
  ghost function SwapLinks(ns: seq<Node>, x: int, y: int): (ms: seq<Node>)
    requires Pointers(ns, x) && Pointers(ns, y) && x != y
    ensures |ms| == |ns|
  {
    var m1 := SwapOwn(ns, x, y);
    var m2 := SetPrev(m1, m1[x].next, x);
    var m3 := SetPrev(m2, m1[y].next, y);
    var m4 := SetNext(m3, m3[x].prev, x);
    SetNext(m4, m4[y].prev, y)
  }

  /** No node is its own neighbour, and no two links out of one node agree. */
  ghost predicate Straight(ns: seq<Node>, x: int) {
    && Pointers(ns, x)
    && ns[x].next != x && ns[x].prev != x
    && (ns[x].next == NIL || ns[x].next != ns[x].prev)
  }

  lemma SwapLinksAt(ns: seq<Node>, x: int, y: int, p: int)
    requires Straight(ns, x) && Straight(ns, y) && x != y && 0 <= p < |ns|
    requires ns[x].next == y <==> ns[y].prev == x
    requires ns[y].next == x <==> ns[x].prev == y
    ensures var xn, yn := Transposed(ns[y].next, x, y), Transposed(ns[x].next, x, y);
      var xp, yp := Transposed(ns[y].prev, x, y), Transposed(ns[x].prev, x, y);
      && SwapLinks(ns, x, y)[p].next == (if p == x then xn else if p == y then yn
           else if p == yp then y else if p == xp then x else ns[p].next)
      && SwapLinks(ns, x, y)[p].prev == (if p == x then xp else if p == y then yp
           else if p == yn then y else if p == xn then x else ns[p].prev)
      && SwapLinks(ns, x, y)[p] == ns[p].(next := SwapLinks(ns, x, y)[p].next,
                                          prev := SwapLinks(ns, x, y)[p].prev)
  {
  }

  lemma LinksAt(ns: seq<Node>, lst: seq<int>, k: nat)
    requires Linked(ns, lst) && k < |lst|
    ensures ns[lst[k]].next == NextIn(lst, k) && ns[lst[k]].prev == PrevIn(lst, k)
    ensures Straight(ns, lst[k])
  {
  }

  /** What node `p` linked to, its stand-in among `x` and `y` now links to, renamed. */
  ghost predicate Renamed(ns: seq<Node>, ms: seq<Node>, x: int, y: int, p: int)
    requires 0 <= p < |ns| && 0 <= x < |ns| && 0 <= y < |ns| && |ms| == |ns|
  {
    && ms[Transposed(p, x, y)].next == Transposed(ns[p].next, x, y)
    && ms[Transposed(p, x, y)].prev == Transposed(ns[p].prev, x, y)
  }

  lemma MutualLinks(ns: seq<Node>, lst: seq<int>, i: nat, j: nat)
    requires Linked(ns, lst) && i < |lst| && j < |lst| && i != j
    ensures ns[lst[i]].next == lst[j] <==> ns[lst[j]].prev == lst[i]
    ensures ns[lst[i]].next != NIL && ns[lst[i]].next == ns[lst[j]].next ==> false
    ensures ns[lst[i]].prev != NIL && ns[lst[i]].prev == ns[lst[j]].prev ==> false
  {
  }

  lemma SwapLinksRenames(ns: seq<Node>, lst: seq<int>, i: nat, j: nat, k: nat)
    requires Linked(ns, lst) && i < |lst| && j < |lst| && i != j && k < |lst|
    requires Pointers(ns, lst[i]) && Pointers(ns, lst[j]) && lst[i] != lst[j]
    ensures Renamed(ns, SwapLinks(ns, lst[i], lst[j]), lst[i], lst[j], lst[k])
  {
    var x, y, p := lst[i], lst[j], lst[k];
    LinksAt(ns, lst, i);
    LinksAt(ns, lst, j);
    LinksAt(ns, lst, k);
    MutualLinks(ns, lst, i, j);
    MutualLinks(ns, lst, j, i);
    if k != i {
      MutualLinks(ns, lst, k, i);
      MutualLinks(ns, lst, i, k);
    }
    if k != j {
      MutualLinks(ns, lst, k, j);
      MutualLinks(ns, lst, j, k);
    }
    SwapLinksAt(ns, x, y, Transposed(p, x, y));
  }

  lemma ExchangeDistinct(lst: seq<int>, n: int, i: nat, j: nat)
    requires Distinct(lst) && Within(lst, n) && i < |lst| && j < |lst|
    ensures Distinct(Exchange(lst, i, j)) && Within(Exchange(lst, i, j), n)
  {
  }

  lemma RenamedList(ns: seq<Node>, ms: seq<Node>, lst: seq<int>, i: nat, j: nat)
    requires Linked(ns, lst) && i < |lst| && j < |lst| && i != j && |ms| == |ns|
    requires forall k :: 0 <= k < |lst| ==> Renamed(ns, ms, lst[i], lst[j], lst[k])
    ensures Linked(ms, Exchange(lst, i, j))
  {
    var l2 := Exchange(lst, i, j);
    ExchangeDistinct(lst, |ns|, i, j);
    forall k | 0 <= k < |lst| ensures l2[k] == Transposed(lst[k], lst[i], lst[j]) {
      KidMoved(lst, j, i, k);
    }
    forall k | 0 <= k < |l2|
      ensures ms[l2[k]].next == NextIn(l2, k) && ms[l2[k]].prev == PrevIn(l2, k)
    {
      assert Renamed(ns, ms, lst[i], lst[j], lst[k]);
      LinksAt(ns, lst, k);
    }
  }

  /** Huff_SwapTrees exchanges two nodes of the list. */
  lemma SwapLinksList(ns: seq<Node>, lst: seq<int>, i: nat, j: nat)
    requires Linked(ns, lst) && i < |lst| && j < |lst| && i != j
    ensures Pointers(ns, lst[i]) && Pointers(ns, lst[j]) && lst[i] != lst[j]
    ensures Linked(SwapLinks(ns, lst[i], lst[j]), Exchange(lst, i, j))
  {
    LinksAt(ns, lst, i);
    LinksAt(ns, lst, j);
    var ms := SwapLinks(ns, lst[i], lst[j]);
    forall k | 0 <= k < |lst| ensures Renamed(ns, ms, lst[i], lst[j], lst[k]) {
      SwapLinksRenames(ns, lst, i, j, k);
    }
    RenamedList(ns, ms, lst, i, j);
  }

  lemma SwapLinksFrame(ns: seq<Node>, x: int, y: int)
    requires Pointers(ns, x) && Pointers(ns, y) && x != y
    ensures SameButList(ns, SwapLinks(ns, x, y))
  {
    var m1 := SwapOwn(ns, x, y);
    var m2 := SetPrev(m1, m1[x].next, x);
    var m3 := SetPrev(m2, m1[y].next, y);
    var m4 := SetNext(m3, m3[x].prev, x);
    SetPrevFrame(ns, m1, m1[x].next, x);
    SetPrevFrame(ns, m2, m1[y].next, y);
    SetNextFrame(ns, m3, m3[x].prev, x);
    SetNextFrame(ns, m4, m4[y].prev, y);
  }

  lemma SetPrevFrame(ns: seq<Node>, ms: seq<Node>, p: int, q: int)
    requires SameButList(ns, ms) && (p == NIL || 0 <= p < |ms|)
    ensures SameButList(ns, SetPrev(ms, p, q))
  {
  }

  lemma SetNextFrame(ns: seq<Node>, ms: seq<Node>, p: int, q: int)
    requires SameButList(ns, ms) && (p == NIL || 0 <= p < |ms|)
    ensures SameButList(ns, SetNext(ms, p, q))
  {
  }

  // ----- how many cells are in use

  lemma {:induction false} ImageSize(f: seq<nat>, s: set<nat>)
    requires forall w :: w in s ==> w in f
    ensures |s| <= |f|
  {
    if f == [] {
      assert s == {};
    } else {
      var n := |f| - 1;
      ImageSize(f[..n], s - {f[n]});
      assert s <= s - {f[n]} + {f[n]};
    }
  }

  ghost function WeightsOf(ns: seq<Node>, lst: seq<int>): (f: seq<nat>)
    requires Within(lst, |ns|)
    ensures |f| == |lst| && forall k :: 0 <= k < |lst| ==> f[k] == ns[lst[k]].weight
  {
    seq(|lst|, k requires 0 <= k < |lst| => ns[lst[k]].weight)
  }

  /** There are no more blocks than nodes in the list. */
  lemma BlockCount(ns: seq<Node>, lst: seq<int>, blk: map<nat, int>)
    requires Within(lst, |ns|)
    requires forall w :: w in blk ==> exists k :: Weighs(ns, lst, w, k)
    ensures |blk| <= |lst|
  {
    var f := WeightsOf(ns, lst);
    forall w | w in blk.Keys ensures w in f {
      var k :| Weighs(ns, lst, w, k);
      assert f[k] == w;
    }
    ImageSize(f, blk.Keys);
    assert |blk| == |blk.Keys|;
  }

  lemma {:induction false} ValuesSize(blk: map<nat, int>)
    ensures |blk.Values| <= |blk|
    decreases |blk|
  {
    if |blk| == 0 {
      assert blk.Values == {};
    } else {
      var w :| w in blk;
      var rest := map v | v in blk && v != w :: blk[v];
      assert rest.Keys == blk.Keys - {w};
      assert |rest| == |rest.Keys| && |blk| == |blk.Keys|;
      ValuesSize(rest);
      forall c | c in blk.Values ensures c in rest.Values + {blk[w]} {
        var v :| v in blk && blk[v] == c;
        assert v != w ==> rest[v] == c;
      }
      assert blk.Values == rest.Values + {blk[w]};
    }
  }

  lemma {:induction false} RangeSize(n: nat, s: set<int>)
    requires forall c :: 0 <= c < n ==> c in s
    ensures n <= |s|
  {
    if n > 0 { RangeSize(n - 1, s - {n - 1}); }
  }

  /** With an empty free list, every cell ever handed out belongs to a block. */
  lemma CellCount(cs: seq<int>, count: int, free: int, blk: map<nat, int>, fl: seq<int>)
    requires Pool(cs, count, free, blk, fl, NIL) && fl == []
    ensures count <= |blk|
  {
    forall c | 0 <= c < count ensures c in blk.Values { }
    RangeSize(count, blk.Values);
    ValuesSize(blk);
  }

  lemma TakeFreeChain(cs: seq<int>, free: int, fl: seq<int>)
    requires Chain(cs, free, fl) && fl != []
    ensures Chain(cs, cs[free], fl[1..])
    ensures free in fl && free !in fl[1..]
    ensures forall c :: c in fl && c != free ==> c in fl[1..]
    ensures forall c :: c in fl[1..] ==> c in fl
  {
    var fl2 := fl[1..];
    assert forall k :: 0 <= k < |fl2| ==> fl2[k] == fl[k + 1];
    forall k | 0 <= k < |fl2| ensures cs[fl2[k]] == PrevIn(fl2, k) {
      assert cs[fl[k + 1]] == PrevIn(fl, k + 1);
    }
    forall c | c in fl && c != free ensures c in fl2 {
      var k :| 0 <= k < |fl| && fl[k] == c;
      assert fl2[k - 1] == c;
    }
  }

  lemma TakeFree(cs: seq<int>, count: int, free: int, blk: map<nat, int>, fl: seq<int>)
    requires Pool(cs, count, free, blk, fl, NIL) && fl != []
    ensures Pool(cs, count, cs[free], blk, fl[1..], free)
  {
    TakeFreeChain(cs, free, fl);
  }

  lemma GiveFreeChain(cs: seq<int>, free: int, fl: seq<int>, c: int)
    requires Chain(cs, free, fl) && 0 <= c < |cs| && c !in fl
    ensures Chain(cs[c := free], c, [c] + fl)
  {
    var fl2, cs2 := [c] + fl, cs[c := free];
    assert forall k :: 0 <= k < |fl| ==> fl[k] in fl;
    assert forall k :: 1 <= k < |fl2| ==> fl2[k] == fl[k - 1];
    forall k | 0 <= k < |fl2| ensures cs2[fl2[k]] == PrevIn(fl2, k) {
      if k > 0 { assert cs[fl[k - 1]] == PrevIn(fl, k - 1); }
    }
  }

  lemma GiveFree(cs: seq<int>, count: int, free: int, blk: map<nat, int>, fl: seq<int>, c: int)
    requires Pool(cs, count, free, blk, fl, c) && c != NIL
    ensures Pool(cs[c := free], count, c, blk, [c] + fl, NIL)
  {
    GiveFreeChain(cs, free, fl, c);
  }

  /** Writing a cell that is not free leaves the pool as it is. */
  lemma WriteCell(cs: seq<int>, count: int, free: int, blk: map<nat, int>, fl: seq<int>, held: int, c: int, v: int)
    requires Pool(cs, count, free, blk, fl, held) && 0 <= c < |cs| && c !in fl
    ensures Pool(cs[c := v], count, free, blk, fl, held)
  {
    assert forall k :: 0 <= k < |fl| ==> fl[k] in fl;
  }

  lemma UpdateTwice(cs: seq<int>, c: nat, u: int, v: int)
    requires c < |cs|
    ensures cs[c := u][c := v] == cs[c := v]
  {
  }

  lemma ReleaseCell(cs: seq<int>, count: int, free: int, blk: map<nat, int>, fl: seq<int>, w: nat, v: int)
    requires Pool(cs, count, free, blk, fl, NIL) && Injective(blk) && w in blk
    ensures Pool(cs[blk[w] := v], count, free, blk - {w}, fl, blk[w])
  {
    var c, blk2 := blk[w], blk - {w};
    WriteCell(cs, count, free, blk, fl, NIL, c, v);
    forall d | 0 <= d < count && d !in fl && d != c ensures d in blk2.Values {
      var u :| u in blk && blk[u] == d;
      assert u in blk2 && blk2[u] == d;
    }
  }

  lemma ClaimCell(cs: seq<int>, count: int, free: int, blk: map<nat, int>, fl: seq<int>, c: int, w: nat, v: int)
    requires Pool(cs, count, free, blk, fl, c) && c != NIL && w !in blk
    ensures c !in blk.Values
    ensures Pool(cs[c := v], count, free, blk[w := c], fl, NIL)
  {
    var blk2 := blk[w := c];
    WriteCell(cs, count, free, blk, fl, c, c, v);
    forall d | 0 <= d < count && d !in fl ensures d in blk2.Values {
      if d == c {
        assert blk2[w] == d;
      } else {
        var u :| u in blk && blk[u] == d;
        assert blk2[u] == d;
      }
    }
  }

  // ----- a node leaves the block it led, and joins the next one

  /** The node at list position `x` stands first in its block. */
  ghost predicate AtBlockEnd(ns: seq<Node>, lst: seq<int>, x: int)
    requires Within(lst, |ns|)
  {
    && 0 <= x < |lst| - 1
    && ListSorted(ns, lst)
    && Leads(ns, lst, x)
    && ns[lst[|lst| - 1]].weight == 0 < ns[lst[x]].weight
  }

  lemma LeavingNode(ns: seq<Node>, cs: seq<int>, lst: seq<int>, blk: map<nat, int>, x: int,
                    count: int, free: int, fl: seq<int>)
    requires Linked(ns, lst) && AtBlockEnd(ns, lst, x) && Blocks(ns, cs, lst, blk, x)
    requires Pool(cs, count, free, blk, fl, NIL)
    ensures ns[lst[x]].weight in blk && ns[lst[x]].cell == blk[ns[lst[x]].weight]
    ensures 0 <= ns[lst[x]].cell < |cs| && ns[lst[x]].cell !in fl
    ensures ns[lst[x]].prev == lst[x + 1] && 0 <= lst[x + 1] < |ns|
  {
    assert InBlock(ns, lst, blk, x);
    LinksAt(ns, lst, x);
  }

  /** The next node is as heavy: it becomes the leader. */
  lemma PassLead(ns: seq<Node>, cs: seq<int>, lst: seq<int>, blk: map<nat, int>, x: int)
    requires Within(lst, |ns|) && AtBlockEnd(ns, lst, x) && Blocks(ns, cs, lst, blk, x)
    requires ns[lst[x + 1]].weight == ns[lst[x]].weight
    requires 0 <= ns[lst[x]].cell < |cs|
    ensures BlocksWithout(ns, cs[ns[lst[x]].cell := lst[x + 1]], lst, blk, x)
  {
    var w := ns[lst[x]].weight;
    var cs2 := cs[ns[lst[x]].cell := lst[x + 1]];
    assert InBlock(ns, lst, blk, x);
    forall k | 0 <= k < |lst| - 1 && k != x && k != x + 1 ensures LeaderIs(ns, cs2, lst, blk, k) {
      assert LeaderIs(ns, cs, lst, blk, k);
      if Leads(ns, lst, k) { assert ns[lst[k]].weight != w by { LeaderOnce(ns, lst, x, k); } }
    }
    assert InBlock(ns, lst, blk, x + 1);
    forall v | v in blk ensures exists k :: Weighs(ns, lst, v, k) && k != x {
      if v == w {
        assert Weighs(ns, lst, v, x + 1);
      } else {
        var k :| Weighs(ns, lst, v, k);
        assert k != x;
      }
    }
  }

  lemma LeaderOnce(ns: seq<Node>, lst: seq<int>, x: int, k: int)
    requires Within(lst, |ns|) && ListSorted(ns, lst) && 0 <= x < |lst| && 0 <= k < |lst| && k != x
    requires Leads(ns, lst, x) && Leads(ns, lst, k)
    ensures ns[lst[k]].weight != ns[lst[x]].weight
  {
    if k < x {
      assert ns[lst[x - 1]].weight > ns[lst[x]].weight;
    } else {
      assert ns[lst[k - 1]].weight > ns[lst[k]].weight;
    }
  }

  /** No other node is as heavy: the block is dissolved, and its cell may be reused. */
  lemma DropBlock(ns: seq<Node>, cs: seq<int>, lst: seq<int>, blk: map<nat, int>, x: int, v: int)
    requires Within(lst, |ns|) && AtBlockEnd(ns, lst, x) && Blocks(ns, cs, lst, blk, x)
    requires ns[lst[x + 1]].weight != ns[lst[x]].weight
    requires 0 <= ns[lst[x]].cell < |cs|
    ensures BlocksWithout(ns, cs[ns[lst[x]].cell := v], lst, blk - {ns[lst[x]].weight}, x)
  {
    var w := ns[lst[x]].weight;
    var blk2, cs2 := blk - {w}, cs[ns[lst[x]].cell := v];
    assert InBlock(ns, lst, blk, x);
    forall k | 0 <= k < |lst| - 1 && k != x
      ensures InBlock(ns, lst, blk2, k) && LeaderIs(ns, cs2, lst, blk2, k)
      ensures ns[lst[k]].weight != w
    {
      AloneInBlock(ns, lst, x, k);
      assert InBlock(ns, lst, blk, k) && LeaderIs(ns, cs, lst, blk, k);
    }
    if x + 1 < |lst| - 1 {
      assert Leads(ns, lst, x + 1);
    }
    forall u | u in blk2 ensures exists k :: Weighs(ns, lst, u, k) && k != x {
      var k :| Weighs(ns, lst, u, k);
      assert k != x;
    }
  }

  lemma AloneInBlock(ns: seq<Node>, lst: seq<int>, x: int, k: int)
    requires Within(lst, |ns|) && AtBlockEnd(ns, lst, x) && 0 <= k < |lst| && k != x
    requires ns[lst[x + 1]].weight != ns[lst[x]].weight
    ensures ns[lst[k]].weight != ns[lst[x]].weight
  {
    if k < x {
      assert ns[lst[x - 1]].weight > ns[lst[x]].weight;
    } else {
      assert ns[lst[x]].weight > ns[lst[x + 1]].weight >= ns[lst[k]].weight;
    }
  }

  lemma PassLeadAll(ns: seq<Node>, cs: seq<int>, lst: seq<int>, blk: map<nat, int>, x: int,
                    count: int, free: int, fl: seq<int>)
    requires Linked(ns, lst) && AtBlockEnd(ns, lst, x) && Blocks(ns, cs, lst, blk, x)
    requires Pool(cs, count, free, blk, fl, NIL)
    requires ns[lst[x + 1]].weight == ns[lst[x]].weight
    ensures 0 <= ns[lst[x]].cell < |cs|
    ensures BlocksWithout(ns, cs[ns[lst[x]].cell := lst[x + 1]], lst, blk, x)
    ensures Pool(cs[ns[lst[x]].cell := lst[x + 1]], count, free, blk, fl, NIL)
  {
    LeavingNode(ns, cs, lst, blk, x, count, free, fl);
    PassLead(ns, cs, lst, blk, x);
    WriteCell(cs, count, free, blk, fl, NIL, ns[lst[x]].cell, lst[x + 1]);
  }

  lemma DropBlockAll(ns: seq<Node>, cs: seq<int>, lst: seq<int>, blk: map<nat, int>, x: int,
                     count: int, free: int, fl: seq<int>)
    requires Linked(ns, lst) && AtBlockEnd(ns, lst, x) && Blocks(ns, cs, lst, blk, x)
    requires Pool(cs, count, free, blk, fl, NIL)
    requires ns[lst[x + 1]].weight != ns[lst[x]].weight
    ensures 0 <= ns[lst[x]].cell < |cs|
    ensures var c, blk2 := ns[lst[x]].cell, blk - {ns[lst[x]].weight};
      && BlocksWithout(ns, cs[c := free], lst, blk2, x)
      && Pool(cs[c := NIL], count, free, blk2, fl, c)
  {
    LeavingNode(ns, cs, lst, blk, x, count, free, fl);
    DropBlock(ns, cs, lst, blk, x, free);
    ReleaseCell(cs, count, free, blk, fl, ns[lst[x]].weight, NIL);
  }

  /** The node, one heavier, shares the cell of the node before it. */
  lemma JoinExisting(ns: seq<Node>, ms: seq<Node>, cs: seq<int>, lst: seq<int>, blk: map<nat, int>, x: int)
    requires Within(lst, |ns|) && Distinct(lst) && AtBlockEnd(ns, lst, x)
    requires BlocksWithout(ns, cs, lst, blk, x)
    requires x > 0 && ns[lst[x - 1]].weight == ns[lst[x]].weight + 1
    requires ms == ns[lst[x] := ns[lst[x]].(weight := ns[lst[x]].weight + 1, cell := ns[lst[x - 1]].cell)]
    ensures Blocks(ms, cs, lst, blk, -1)
  {
    assert InBlock(ns, lst, blk, x - 1);
    assert forall k :: 0 <= k < |lst| && k != x ==> ms[lst[k]] == ns[lst[k]];
    forall k | 0 <= k < |lst| - 1 ensures InBlock(ms, lst, blk, k) && LeaderIs(ms, cs, lst, blk, k) {
      if k != x {
        assert InBlock(ns, lst, blk, k);
        if k != x + 1 { assert LeaderIs(ns, cs, lst, blk, k); }
      }
    }
    forall v | v in blk ensures exists k :: Weighs(ms, lst, v, k) {
      var k :| Weighs(ns, lst, v, k) && k != x;
      assert Weighs(ms, lst, v, k);
    }
  }

  lemma NewWeight(ns: seq<Node>, lst: seq<int>, blk: map<nat, int>, x: int)
    requires Within(lst, |ns|) && AtBlockEnd(ns, lst, x)
    requires forall w :: w in blk ==> exists k :: Weighs(ns, lst, w, k) && k != x
    requires x > 0 ==> ns[lst[x - 1]].weight != ns[lst[x]].weight + 1
    ensures ns[lst[x]].weight + 1 !in blk
    ensures forall k :: 0 <= k < |lst| && k != x ==> ns[lst[k]].weight != ns[lst[x]].weight + 1
  {
    var w := ns[lst[x]].weight + 1;
    forall k | 0 <= k < |lst| && k != x ensures ns[lst[k]].weight != w {
      if k < x { assert ns[lst[k]].weight >= ns[lst[x - 1]].weight >= ns[lst[x]].weight; }
    }
    assert forall k :: Weighs(ns, lst, w, k) ==> k == x;
  }

  lemma NewBlockAt(ns: seq<Node>, ms: seq<Node>, cs: seq<int>, lst: seq<int>, blk: map<nat, int>,
                   x: int, c: int, k: int)
    requires Within(lst, |ns|) && Distinct(lst) && 0 <= x < |lst| && 0 <= k < |lst| - 1
    requires 0 <= c < |cs| && c !in blk.Values
    requires ms == ns[lst[x] := ns[lst[x]].(weight := ns[lst[x]].weight + 1, cell := c)]
    requires k != x ==> InBlock(ns, lst, blk, k) && ns[lst[k]].weight != ns[lst[x]].weight + 1
    requires k != x && k != x + 1 ==> LeaderIs(ns, cs, lst, blk, k)
    requires k != x && k == x + 1 ==>
      var w := ns[lst[k]].weight; w in blk && 0 <= blk[w] < |cs| && cs[blk[w]] == lst[k]
    ensures InBlock(ms, lst, blk[ns[lst[x]].weight + 1 := c], k)
    ensures LeaderIs(ms, cs[c := lst[x]], lst, blk[ns[lst[x]].weight + 1 := c], k)
  {
    if k != x {
      assert ms[lst[k]] == ns[lst[k]];
      assert blk[ns[lst[k]].weight] in blk.Values;
      if k > 0 && k - 1 != x { assert ms[lst[k - 1]] == ns[lst[k - 1]]; }
    }
  }

  /** The node, one heavier, starts a block of its own in cell `c`. */
  lemma StartBlock(ns: seq<Node>, ms: seq<Node>, cs: seq<int>, lst: seq<int>, blk: map<nat, int>, x: int, c: int)
    requires Within(lst, |ns|) && Distinct(lst) && AtBlockEnd(ns, lst, x)
    requires BlocksWithout(ns, cs, lst, blk, x)
    requires x > 0 ==> ns[lst[x - 1]].weight != ns[lst[x]].weight + 1
    requires 0 <= c < |cs| && c !in blk.Values
    requires ms == ns[lst[x] := ns[lst[x]].(weight := ns[lst[x]].weight + 1, cell := c)]
    ensures ns[lst[x]].weight + 1 !in blk
    ensures Blocks(ms, cs[c := lst[x]], lst, blk[ns[lst[x]].weight + 1 := c], -1)
  {
    var w := ns[lst[x]].weight + 1;
    var blk2, cs2 := blk[w := c], cs[c := lst[x]];
    NewWeight(ns, lst, blk, x);
    assert Injective(blk2) by {
      assert forall v :: v in blk ==> blk2[v] == blk[v] && blk[v] in blk.Values;
    }
    forall k | 0 <= k < |lst| - 1 ensures InBlock(ms, lst, blk2, k) && LeaderIs(ms, cs2, lst, blk2, k) {
      NewBlockAt(ns, ms, cs, lst, blk, x, c, k);
    }
    forall v | v in blk2 ensures exists k :: Weighs(ms, lst, v, k) {
      if v == w {
        assert Weighs(ms, lst, v, x);
      } else {
        var k :| Weighs(ns, lst, v, k) && k != x;
        assert Weighs(ms, lst, v, k);
      }
    }
  }

  // ----- everything at once

  datatype View = View(t: Tree, ord: seq<int>, flip: bool, blk: map<nat, int>, fl: seq<int>)

  /** The memory represents the tree of the view: binary tree, weight list, block
      leaders and cells. */
  ghost predicate RepView(ns: seq<Node>, cs: seq<int>, root: int, count: int, free: int, v: View) {
    && RepTree(ns, root, v.ord, v.t)
    && Linked(ns, ListOf(v.ord, v.flip))
    && Blocks(ns, cs, ListOf(v.ord, v.flip), v.blk, -1)
    && Pool(cs, count, free, v.blk, v.fl, NIL)
  }
}
