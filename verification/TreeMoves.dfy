/** What the pointers say at each step of Huff_IncrementFreq_r, in terms of the tree
    they represent. */
module TreeMoves {
  import opened WeightTree
  import opened TreeStore

  /** The list is flipped exactly from the moment the sibling of the not-yet-transmitted
      leaf has been carried past its parent until the recursion returns to it. */
  ghost predicate Mode(t: Tree, q: nat, flip: bool) {
    && (flip ==> |t| >= 3 && q <= |t| - 3)
    && (|t| >= 3 && q == |t| - 3 ==> flip)
  }

  /** List positions and tree positions carry the same weights. */
  lemma ListWeight(ns: seq<Node>, root: int, ord: seq<int>, t: Tree, flip: bool, k: nat)
    requires RepTree(ns, root, ord, t) && k < |t|
    ensures Within(ListOf(ord, flip), |ns|)
    ensures ListPos(|t|, flip, k) < |t|
    ensures ns[ListOf(ord, flip)[k]].weight == t[ListPos(|t|, flip, k)].weight
    ensures ListOf(ord, flip)[k] == ord[ListPos(|t|, flip, k)]
  {
    assert NodeIs(ns, ord, t, ListPos(|t|, flip, k));
  }

  lemma ListIsSorted(ns: seq<Node>, root: int, ord: seq<int>, t: Tree, flip: bool, q: nat)
    requires RepTree(ns, root, ord, t) && Ready(t, q) && Mode(t, q, flip)
    ensures Within(ListOf(ord, flip), |ns|) && ListSorted(ns, ListOf(ord, flip))
  {
    var lst := ListOf(ord, flip);
    ListWeight(ns, root, ord, t, flip, 0);
    if flip && q != |t| - 3 { SiblingWeight(t, q); }
    forall k, l | 0 <= k < l < |lst| ensures ns[lst[k]].weight >= ns[lst[l]].weight {
      ListWeight(ns, root, ord, t, flip, k);
      ListWeight(ns, root, ord, t, flip, l);
    }
  }

  /** Whether somebody else in the block is ahead can be seen at the list neighbour. */
  lemma NeighbourWeight(t: Tree, q: nat, flip: bool)
    requires Ready(t, q) && Mode(t, q, flip)
    ensures var x := ListPos(|t|, flip, q);
      && x < |t|
      && (x == 0 ==> First(t, q) == q)
      && (x > 0 ==> ListPos(|t|, flip, x - 1) < |t|
                    && (t[ListPos(|t|, flip, x - 1)].weight == t[q].weight <==> First(t, q) < q))
  {
  }

  lemma NextIs(ns: seq<Node>, ord: seq<int>, flip: bool, q: nat)
    requires Linked(ns, ListOf(ord, flip)) && Within(ord, |ns|) && q < |ord|
    ensures var x := ListPos(|ord|, flip, q);
      && ns[ord[q]].next == (if x == 0 then NIL else ListOf(ord, flip)[x - 1])
      && (x > 0 ==> 0 <= ns[ord[q]].next < |ns|)
  {
    ListOfPos(ord, flip, q);
    LinksAt(ns, ListOf(ord, flip), ListPos(|ord|, flip, q));
  }

  /** The test at the head of the recursion: is somebody else in the block ahead? */
  lemma NextTest(ns: seq<Node>, root: int, ord: seq<int>, t: Tree, flip: bool, q: nat)
    requires RepTree(ns, root, ord, t) && Ready(t, q) && Mode(t, q, flip)
    requires Linked(ns, ListOf(ord, flip))
    ensures ns[ord[q]].next != NIL ==> 0 <= ns[ord[q]].next < |ns|
    ensures (ns[ord[q]].next != NIL && ns[ns[ord[q]].next].weight == ns[ord[q]].weight)
       <==> First(t, q) < q
  {
    var x := ListPos(|t|, flip, q);
    NextIs(ns, ord, flip, q);
    NeighbourWeight(t, q, flip);
    assert NodeIs(ns, ord, t, q);
    if x > 0 { ListWeight(ns, root, ord, t, flip, x - 1); }
  }

  /** The cell of a node leads to the head of its block. */
  lemma {:induction false} LeaderOf(ns: seq<Node>, cs: seq<int>, lst: seq<int>, blk: map<nat, int>, k: nat)
    returns (j: nat)
    requires Within(lst, |ns|) && Blocks(ns, cs, lst, blk, -1) && k < |lst| - 1
    ensures j <= k && Leads(ns, lst, j) && ns[lst[j]].weight == ns[lst[k]].weight
    ensures 0 <= ns[lst[k]].cell < |cs| && cs[ns[lst[k]].cell] == lst[j]
    decreases k
  {
    assert InBlock(ns, lst, blk, k);
    if Leads(ns, lst, k) {
      assert LeaderIs(ns, cs, lst, blk, k);
      j := k;
    } else {
      j := LeaderOf(ns, cs, lst, blk, k - 1);
      assert InBlock(ns, lst, blk, k - 1);
    }
  }

  lemma {:induction false} FirstUnique(t: Tree, q: nat, j: nat)
    requires q < |t| && j <= q
    requires forall k :: j <= k <= q ==> t[k].weight == t[q].weight
    requires j > 0 ==> t[j - 1].weight != t[q].weight
    ensures First(t, q) == j
  {
  }

  lemma LeaderIsFirst(ns: seq<Node>, root: int, ord: seq<int>, t: Tree, flip: bool, q: nat,
                      cs: seq<int>, blk: map<nat, int>)
    requires RepTree(ns, root, ord, t) && Ready(t, q) && Mode(t, q, flip) && First(t, q) < q
    requires Within(ListOf(ord, flip), |ns|) && Blocks(ns, cs, ListOf(ord, flip), blk, -1)
    ensures 0 <= ns[ord[q]].cell < |cs| && cs[ns[ord[q]].cell] == ord[First(t, q)]
  {
    var lst := ListOf(ord, flip);
    ListIsSorted(ns, root, ord, t, flip, q);
    assert ListPos(|t|, flip, q) == q;
    ListOfPos(ord, flip, q);
    var j := LeaderOf(ns, cs, lst, blk, q);
    forall k | 0 <= k <= q ensures ns[lst[k]].weight == t[k].weight {
      ListWeight(ns, root, ord, t, flip, k);
    }
    FirstUnique(t, q, j);
    ListOfPos(ord, flip, j);
  }

  /** Only for the sibling of the not-yet-transmitted leaf can the leader be the parent. */
  lemma ParentLeads(t: Tree, q: nat)
    requires Ready(t, q) && First(t, q) < q
    ensures First(t, q) == Parent(t, q) <==> LeaderIsParent(t, q)
  {
    var j := First(t, q);
    if j == Parent(t, q) {
      ParentWeight(t, q);
      assert t[Parent(t, q)].weight == t[q].weight;
    }
    if LeaderIsParent(t, q) { SiblingOfNyt(t); }
  }

  /** A parent as heavy as its child has the not-yet-transmitted leaf as other child. */
  lemma ParentWeight(t: Tree, q: nat)
    requires Ready(t, q) && 1 <= q
    ensures t[Parent(t, q)].weight == t[q].weight ==> q == |t| - 2 && Parent(t, q) == |t| - 3
  {
    var p := Parent(t, q);
    var c := t[p].kind.kid;
    assert t[p].weight == t[c].weight + t[c + 1].weight;
    assert q == c || q == c + 1;
  }

  // ----- moving a node to the head of its block

  /** The root never leads the block of another node. */
  lemma RootNeverLeads(t: Tree, q: nat)
    requires Ready(t, q) && Structure(Placed(t, q)) && First(t, q) < q && !LeaderIsParent(t, q)
    ensures First(t, q) > 0
  {
    assert Parent(t, 1) == 0;
    assert Placed(t, q)[q] == t[First(t, q)];
  }

  lemma FlipAfterExchange(ord: seq<int>, flip: bool, q: nat, j: nat)
    requires q < |ord| && j <= q && (flip ==> |ord| >= 3 && q < |ord| - 3)
    ensures ListOf(Exchange(ord, q, j), flip) == Exchange(ListOf(ord, flip), j, q)
  {
  }

  ghost predicate SameData(ns: seq<Node>, ms: seq<Node>) {
    |ms| == |ns| && forall p :: 0 <= p < |ns| ==>
      ms[p].weight == ns[p].weight && ms[p].symbol == ns[p].symbol && ms[p].cell == ns[p].cell
  }

  lemma LeadsExchanged(ns: seq<Node>, ms: seq<Node>, lst: seq<int>, i: nat, j: nat, k: nat)
    requires Within(lst, |ns|) && ListSorted(ns, lst) && SameData(ns, ms)
    requires j < i < |lst| && ns[lst[i]].weight == ns[lst[j]].weight && k < |lst|
    ensures Within(Exchange(lst, i, j), |ms|)
    ensures ms[Exchange(lst, i, j)[k]].weight == ns[lst[k]].weight
    ensures Leads(ms, Exchange(lst, i, j), k) <==> Leads(ns, lst, k)
    ensures k == i ==> !Leads(ns, lst, k)
  {
    var l2 := Exchange(lst, i, j);
    assert ns[l2[k]].weight == ns[lst[k]].weight;
    if k > 0 { assert ns[l2[k - 1]].weight == ns[lst[k - 1]].weight; }
  }

  lemma BlocksExchanged(ns: seq<Node>, ms: seq<Node>, cs: seq<int>, lst: seq<int>, blk: map<nat, int>, i: nat, j: nat)
    requires Within(lst, |ns|) && ListSorted(ns, lst) && SameData(ns, ms)
    requires Blocks(ns, cs, lst, blk, -1)
    requires j < i < |lst| - 1 && ns[lst[i]].weight == ns[lst[j]].weight
    ensures Within(Exchange(lst, i, j), |ms|)
    ensures Blocks(ms, cs, Exchange(lst, i, j), blk, j)
  {
    var l2 := Exchange(lst, i, j);
    assert Within(l2, |ms|);
    forall k | 0 <= k < |l2| - 1 ensures InBlock(ms, l2, blk, k) && (k != j ==> LeaderIs(ms, cs, l2, blk, k)) {
      LeadsExchanged(ns, ms, lst, i, j, k);
      assert InBlock(ns, lst, blk, if k == i then j else if k == j then i else k);
      assert LeaderIs(ns, cs, lst, blk, k);
    }
    forall w | w in blk ensures exists k :: Weighs(ms, l2, w, k) {
      var k :| Weighs(ns, lst, w, k);
      LeadsExchanged(ns, ms, lst, i, j, k);
      assert Weighs(ms, l2, w, k);
    }
  }

  lemma BlocksKept(ns: seq<Node>, ms: seq<Node>, cs: seq<int>, lst: seq<int>, blk: map<nat, int>, x: int)
    requires Within(lst, |ns|) && SameData(ns, ms) && Blocks(ns, cs, lst, blk, -1)
    ensures Blocks(ms, cs, lst, blk, x)
  {
    forall k | 0 <= k < |lst| - 1 ensures InBlock(ms, lst, blk, k) && LeaderIs(ms, cs, lst, blk, k) {
      assert InBlock(ns, lst, blk, k) && LeaderIs(ns, cs, lst, blk, k);
    }
    forall w | w in blk ensures exists k :: Weighs(ms, lst, w, k) {
      var k :| Weighs(ns, lst, w, k);
      assert Weighs(ms, lst, w, k);
    }
  }

  lemma TreeKept(ns: seq<Node>, ms: seq<Node>, root: int, ord: seq<int>, t: Tree)
    requires RepTree(ns, root, ord, t) && SameButList(ns, ms)
    ensures RepTree(ms, root, ord, t)
  {
    forall i | 0 <= i < |t| ensures NodeIs(ms, ord, t, i) {
      assert NodeIs(ns, ord, t, i);
    }
  }

  lemma ListKept(ns: seq<Node>, ms: seq<Node>, lst: seq<int>)
    requires Linked(ns, lst) && SameButTree(ns, ms)
    ensures Linked(ms, lst)
  {
  }

  lemma LeafTableExchanged(lf: seq<int>, ord: seq<int>, t: Tree, i: nat, j: nat)
    requires |ord| == |t| && LeafTable(lf, ord, t) && j <= i < |t| - 1
    ensures LeafTable(lf, Exchange(ord, i, j), Exchange(t, i, j))
  {
    var u := Exchange(t, i, j);
    forall s | 0 <= s < 256 && lf[s] != NIL ensures Has(u, s) {
      var k := Find(t, s);
      assert u[if k == i then j else if k == j then i else k].kind == Leaf(s);
    }
  }

  lemma FlippedSorted(t: Tree, q: nat, f: bool, k: nat, l: nat)
    requires Ready(t, q) && k < l < |t|
    requires |t| >= 3 && q == |t| - 3 ==> f
    requires f && q != |t| - 3 && |t| >= 3 ==> t[|t| - 3].weight == t[|t| - 2].weight
    ensures ListPos(|t|, f, k) < |t| && ListPos(|t|, f, l) < |t|
    ensures t[ListPos(|t|, f, k)].weight >= t[ListPos(|t|, f, l)].weight
  {
  }

  lemma SpotIsBoundary(t: Tree, q: nat, flip: bool)
    requires Ready(t, q) && Mode(t, q, flip)
    ensures var f, n := flip || LeaderIsParent(t, q), |t|;
      var x := ListPos(n, f, Spot(t, q));
      && x < n - 1 && ListPos(n, f, x) == Spot(t, q)
      && (x > 0 ==> ListPos(n, f, x - 1) < n
                    && t[ListPos(n, f, x - 1)].weight != t[Spot(t, q)].weight)
      && t[Spot(t, q)].weight > 0 == t[n - 1].weight
  {
    if LeaderIsParent(t, q) {
      assert t[q - 1].weight == t[q].weight;
    }
  }

  lemma EndFromWeights(ns: seq<Node>, lst: seq<int>, t: Tree, q: nat, flip: bool)
    requires Ready(t, q) && Mode(t, q, flip) && Within(lst, |ns|) && |lst| == |t|
    requires forall k :: 0 <= k < |t| ==>
      var k' := ListPos(|t|, flip || LeaderIsParent(t, q), k);
      k' < |t| && ns[lst[k]].weight == t[k'].weight
    ensures AtBlockEnd(ns, lst, ListPos(|t|, flip || LeaderIsParent(t, q), Spot(t, q)))
  {
    var f, n := flip || LeaderIsParent(t, q), |t|;
    if f && n >= 3 && q != n - 3 { SiblingWeight(t, q); }
    forall k, l | 0 <= k < l < n ensures ns[lst[k]].weight >= ns[lst[l]].weight {
      FlippedSorted(t, q, f, k, l);
    }
    SpotIsBoundary(t, q, flip);
  }

  /** After the move the node stands at the head of its block. */
  lemma PlacedAtEnd(ns: seq<Node>, root: int, ord: seq<int>, t: Tree, q: nat, flip: bool)
    requires Ready(t, q) && Mode(t, q, flip)
    requires RepTree(ns, root, ord, Placed(t, q))
    ensures Within(ListOf(ord, flip || LeaderIsParent(t, q)), |ns|)
    ensures AtBlockEnd(ns, ListOf(ord, flip || LeaderIsParent(t, q)),
                       ListPos(|t|, flip || LeaderIsParent(t, q), Spot(t, q)))
  {
    var f := flip || LeaderIsParent(t, q);
    ListWeight(ns, root, ord, Placed(t, q), f, 0);
    PlacedWeights(t, q);
    forall k | 0 <= k < |t|
      ensures ListPos(|t|, f, k) < |t|
      ensures ns[ListOf(ord, f)[k]].weight == t[ListPos(|t|, f, k)].weight
    {
      ListWeight(ns, root, ord, Placed(t, q), f, k);
    }
    EndFromWeights(ns, ListOf(ord, f), t, q, flip);
  }

  /** Two nodes of equal weight that may trade places, the second ahead of the first. */
  ghost predicate Tradable(t: Tree, flip: bool, q: nat, j: nat) {
    && 0 < j < q < |t| - 1
    && (flip ==> |t| >= 3 && q < |t| - 3)
    && t[j].weight == t[q].weight
    && Structure(t) && Structure(Exchange(t, q, j))
  }

  lemma LeaderIsTradable(t: Tree, q: nat, flip: bool)
    requires Ready(t, q) && Mode(t, q, flip) && First(t, q) < q && !LeaderIsParent(t, q)
    ensures Tradable(t, flip, q, First(t, q)) && Placed(t, q) == Exchange(t, q, First(t, q))
  {
    PlacedStructure(t, q);
    RootNeverLeads(t, q);
  }

  lemma BeforeTrade(ns: seq<Node>, root: int, ord: seq<int>, t: Tree, flip: bool, q: nat, j: nat)
    requires RepTree(ns, root, ord, t) && Tradable(t, flip, q, j)
    ensures ListOf(ord, flip)[q] == ord[q] && ListOf(ord, flip)[j] == ord[j]
    ensures ns[ord[q]].weight == ns[ord[j]].weight
  {
    assert NodeIs(ns, ord, t, q) && NodeIs(ns, ord, t, j);
  }

  lemma SameDataBoth(ns: seq<Node>, ms: seq<Node>, zs: seq<Node>)
    requires SameButTree(ns, ms) && SameButList(ms, zs)
    ensures SameData(ns, zs)
  {
  }

  lemma AfterTrade(ns: seq<Node>, zs: seq<Node>, cs: seq<int>, ord: seq<int>,
                   flip: bool, blk: map<nat, int>, q: nat, j: nat)
    requires SameData(ns, zs) && Within(ord, |ns|) && Within(ListOf(ord, flip), |ns|)
    requires j < q < |ord| - 1 && (flip ==> |ord| >= 3 && q < |ord| - 3)
    requires ns[ord[q]].weight == ns[ord[j]].weight
    requires ListSorted(ns, ListOf(ord, flip)) && Blocks(ns, cs, ListOf(ord, flip), blk, -1)
    ensures Exchange(ListOf(ord, flip), j, q) == ListOf(Exchange(ord, q, j), flip)
    ensures Within(ListOf(Exchange(ord, q, j), flip), |zs|)
    ensures Blocks(zs, cs, ListOf(Exchange(ord, q, j), flip), blk, j)
  {
    FlipAfterExchange(ord, flip, q, j);
    var lst := ListOf(ord, flip);
    assert Exchange(lst, j, q) == Exchange(lst, q, j);
    assert lst[q] == ord[q] && lst[j] == ord[j];
    BlocksExchanged(ns, zs, cs, lst, blk, q, j);
  }

  lemma TradeDone(ns: seq<Node>, ms: seq<Node>, zs: seq<Node>, cs: seq<int>, root: int,
                  ord: seq<int>, t: Tree, flip: bool, blk: map<nat, int>, q: nat, j: nat)
    requires RepTree(ns, root, ord, t) && Tradable(t, flip, q, j)
    requires Within(ListOf(ord, flip), |ns|) && ListSorted(ns, ListOf(ord, flip))
    requires Blocks(ns, cs, ListOf(ord, flip), blk, -1)
    requires SameButTree(ns, ms) && SameButList(ms, zs)
    requires RepTree(ms, root, Exchange(ord, q, j), Exchange(t, q, j))
    requires Linked(zs, Exchange(ListOf(ord, flip), j, q))
    ensures RepTree(zs, root, Exchange(ord, q, j), Exchange(t, q, j))
    ensures Linked(zs, ListOf(Exchange(ord, q, j), flip))
    ensures Blocks(zs, cs, ListOf(Exchange(ord, q, j), flip), blk, j)
  {
    BeforeTrade(ns, root, ord, t, flip, q, j);
    TreeKept(ms, zs, root, Exchange(ord, q, j), Exchange(t, q, j));
    SameDataBoth(ns, ms, zs);
    AfterTrade(ns, zs, cs, ord, flip, blk, q, j);
  }

  // ----- the branches of the first part

  /** What the first part of the recursion relies on. */
  ghost predicate Start(ns: seq<Node>, cs: seq<int>, root: int, ord: seq<int>, t: Tree, flip: bool,
                        blk: map<nat, int>, q: nat)
  {
    && RepTree(ns, root, ord, t) && Linked(ns, ListOf(ord, flip))
    && Blocks(ns, cs, ListOf(ord, flip), blk, -1)
    && Ready(t, q) && Mode(t, q, flip)
  }

  /** What it leaves behind: the node stands at `Spot`, at the head of its block. */
  ghost predicate AtSpot(ns: seq<Node>, cs: seq<int>, root: int, ord: seq<int>, t: Tree, flip: bool,
                        blk: map<nat, int>, x: int)
  {
    && RepTree(ns, root, ord, t) && Linked(ns, ListOf(ord, flip))
    && Blocks(ns, cs, ListOf(ord, flip), blk, x)
  }

  lemma SelfExchange<T>(s: seq<T>, i: nat)
    requires i < |s|
    ensures Exchange(s, i, i) == s
  {
  }

  lemma StaysPut(ns: seq<Node>, cs: seq<int>, root: int, ord: seq<int>, t: Tree, flip: bool,
                 blk: map<nat, int>, q: nat)
    requires Start(ns, cs, root, ord, t, flip, blk, q) && First(t, q) == q
    ensures Spot(t, q) == q && !LeaderIsParent(t, q)
    ensures forall x :: AtSpot(ns, cs, root, Exchange(ord, q, q), Placed(t, q), flip, blk, x)
  {
    SelfExchange(ord, q);
    SelfExchange(t, q);
    forall x ensures Blocks(ns, cs, ListOf(ord, flip), blk, x) { }
  }

  lemma FlipStart(ns: seq<Node>, cs: seq<int>, root: int, ord: seq<int>, t: Tree, flip: bool,
                  blk: map<nat, int>, q: nat)
    requires Start(ns, cs, root, ord, t, flip, blk, q) && LeaderIsParent(t, q)
    ensures !flip && |ord| >= 3 && q == |ord| - 2 && First(t, q) == |ord| - 3
    ensures ListSorted(ns, ord) && ns[ord[q]].weight == ns[ord[q - 1]].weight
  {
    ListIsSorted(ns, root, ord, t, flip, q);
    assert NodeIs(ns, ord, t, q) && NodeIs(ns, ord, t, q - 1);
    assert t[q - 1].weight == t[q].weight;
  }

  lemma FlipDone(ns: seq<Node>, zs: seq<Node>, cs: seq<int>, root: int, ord: seq<int>, t: Tree,
                 blk: map<nat, int>, q: nat)
    requires RepTree(ns, root, ord, t) && Blocks(ns, cs, ord, blk, -1)
    requires |ord| >= 3 && q == |ord| - 2 && LeaderIsParent(t, q)
    requires ListSorted(ns, ord) && ns[ord[q]].weight == ns[ord[q - 1]].weight
    requires SameButList(ns, zs) && Linked(zs, Exchange(ord, q - 1, q))
    ensures AtSpot(zs, cs, root, Exchange(ord, q, Spot(t, q)), Placed(t, q), true, blk, q - 1)
  {
    SelfExchange(ord, q);
    SelfExchange(t, q);
    TreeKept(ns, zs, root, ord, t);
    assert Exchange(ord, q, q - 1) == Exchange(ord, q - 1, q);
    BlocksExchanged(ns, zs, cs, ord, blk, q, q - 1);
  }

  lemma FlipReady(ns: seq<Node>, cs: seq<int>, root: int, ord: seq<int>, t: Tree, flip: bool,
                  blk: map<nat, int>, q: nat, k: nat)
    requires Start(ns, cs, root, ord, t, flip, blk, q) && LeaderIsParent(t, q) && k == q - 1
    ensures Linked(ns, ord) && q < |ord| && k == First(t, q)
  {
    FlipStart(ns, cs, root, ord, t, flip, blk, q);
  }

  lemma FlipEnd(ns: seq<Node>, zs: seq<Node>, cs: seq<int>, root: int, ord: seq<int>, t: Tree, flip: bool,
                blk: map<nat, int>, q: nat, k: nat)
    requires Start(ns, cs, root, ord, t, flip, blk, q) && LeaderIsParent(t, q) && k == q - 1
    requires SameButList(ns, zs) && Linked(zs, Exchange(ord, k, q))
    ensures AtSpot(zs, cs, root, Exchange(ord, q, Spot(t, q)), Placed(t, q), true, blk, q - 1)
  {
    FlipStart(ns, cs, root, ord, t, flip, blk, q);
    FlipDone(ns, zs, cs, root, ord, t, blk, q);
  }

  lemma LeaderTest(ns: seq<Node>, cs: seq<int>, root: int, ord: seq<int>, t: Tree, flip: bool,
                   blk: map<nat, int>, q: nat)
    requires Start(ns, cs, root, ord, t, flip, blk, q) && First(t, q) < q
    ensures 0 <= ns[ord[q]].cell < |cs| && cs[ns[ord[q]].cell] == ord[First(t, q)]
    ensures cs[ns[ord[q]].cell] == ns[ord[q]].parent <==> LeaderIsParent(t, q)
  {
    LeaderIsFirst(ns, root, ord, t, flip, q, cs, blk);
    ParentIs(ns, root, ord, t, q);
    ParentLeads(t, q);
  }

  lemma TradeStart(ns: seq<Node>, cs: seq<int>, root: int, ord: seq<int>, t: Tree, flip: bool,
                   blk: map<nat, int>, q: nat)
    requires Start(ns, cs, root, ord, t, flip, blk, q) && First(t, q) < q && !LeaderIsParent(t, q)
    ensures Tradable(t, flip, q, First(t, q)) && ListSorted(ns, ListOf(ord, flip))
    ensures Placed(t, q) == Exchange(t, q, First(t, q)) && Spot(t, q) == First(t, q)
    ensures ListPos(|t|, flip, First(t, q)) == First(t, q)
  {
    LeaderIsTradable(t, q, flip);
    ListIsSorted(ns, root, ord, t, flip, q);
  }

  lemma TradeReady(ns: seq<Node>, cs: seq<int>, root: int, ord: seq<int>, t: Tree, flip: bool,
                   blk: map<nat, int>, q: nat, j: nat, lst: seq<int>)
    requires Start(ns, cs, root, ord, t, flip, blk, q) && !LeaderIsParent(t, q) && j == First(t, q) < q
    requires lst == ListOf(ord, flip)
    ensures Swapping(ns, root, ord, t, q, j) && q < |lst| && lst[q] == ord[q] && lst[j] == ord[j]
  {
    TradeStart(ns, cs, root, ord, t, flip, blk, q);
    BeforeTrade(ns, root, ord, t, flip, q, j);
  }

  lemma TradeEnd(ns: seq<Node>, ms: seq<Node>, zs: seq<Node>, cs: seq<int>, root: int, ord: seq<int>,
                 t: Tree, flip: bool, blk: map<nat, int>, q: nat, j: nat)
    requires Start(ns, cs, root, ord, t, flip, blk, q) && !LeaderIsParent(t, q) && j == First(t, q) < q
    requires SameButTree(ns, ms) && SameButList(ms, zs)
    requires RepTree(ms, root, Exchange(ord, q, j), Exchange(t, q, j))
    requires Linked(zs, Exchange(ListOf(ord, flip), j, q))
    ensures AtSpot(zs, cs, root, Exchange(ord, q, Spot(t, q)), Placed(t, q), flip, blk,
                   ListPos(|t|, flip, Spot(t, q)))
  {
    TradeStart(ns, cs, root, ord, t, flip, blk, q);
    TradeDone(ns, ms, zs, cs, root, ord, t, flip, blk, q, j);
  }

  // ----- one heavier

  lemma BumpRep(ns: seq<Node>, ms: seq<Node>, root: int, ord: seq<int>, t: Tree, k: nat, c: int)
    requires RepTree(ns, root, ord, t) && k < |t|
    requires ms == ns[ord[k] := ns[ord[k]].(weight := ns[ord[k]].weight + 1, cell := c)]
    ensures RepTree(ms, root, ord, Bump(t, k))
  {
    var u := Bump(t, k);
    assert forall i :: 0 <= i < |t| ==> u[i].kind == t[i].kind;
    forall i | 0 <= i < |u| ensures NodeIs(ms, ord, u, i) {
      assert NodeIs(ns, ord, t, i);
    }
  }

  lemma BumpLinks(ns: seq<Node>, ms: seq<Node>, lst: seq<int>, p: int, c: int)
    requires Linked(ns, lst) && 0 <= p < |ns|
    requires ms == ns[p := ns[p].(weight := ns[p].weight + 1, cell := c)]
    ensures Linked(ms, lst)
  {
  }

  lemma BumpDone(ns: seq<Node>, ms: seq<Node>, root: int, ord: seq<int>, t: Tree, flip: bool, k: nat)
    requires RepTree(ns, root, ord, t) && Linked(ns, ListOf(ord, flip)) && k < |t|
    requires |ms| == |ns|
    requires ms == ns[ord[k] := ns[ord[k]].(weight := ns[ord[k]].weight + 1, cell := ms[ord[k]].cell)]
    ensures RepTree(ms, root, ord, Bump(t, k)) && Linked(ms, ListOf(ord, flip))
  {
    BumpRep(ns, ms, root, ord, t, k, ms[ord[k]].cell);
    BumpLinks(ns, ms, ListOf(ord, flip), ord[k], ms[ord[k]].cell);
  }

  lemma BumpLeaves(lf: seq<int>, ord: seq<int>, t: Tree, k: nat)
    requires |ord| == |t| && LeafTable(lf, ord, t) && k < |t|
    ensures LeafTable(lf, ord, Bump(t, k))
  {
    var u := Bump(t, k);
    assert forall i :: 0 <= i < |t| ==> u[i].kind == t[i].kind;
    forall s | 0 <= s < 256 && lf[s] != NIL ensures Has(u, s) {
      assert u[Find(t, s)].kind == Leaf(s);
    }
  }

  // ----- after the recursion returns

  /** The node kept its place, and its parent is still ahead of it. */
  lemma StillThere(ns: seq<Node>, root: int, ord: seq<int>, t: Tree, flip: bool, k: nat)
    requires RepTree(ns, root, ord, t) && Structure(t) && Linked(ns, ListOf(ord, flip))
    requires 1 <= k < |t| - 1 && NytAtEnd(t) && Inv(t)
    ensures 0 <= ns[ord[k]].parent < |ns| && ns[ord[k]].parent == ord[Parent(t, k)]
    ensures ns[ord[k]].prev == ns[ord[k]].parent <==> flip && |t| >= 3 && k == |t| - 2
  {
    ParentIs(ns, root, ord, t, k);
    var x := ListPos(|t|, flip, k);
    ListOfPos(ord, flip, k);
    LinksAt(ns, ListOf(ord, flip), x);
    if flip && |t| >= 3 && k == |t| - 2 {
      SiblingOfNyt(t);
    } else {
      ListWeight(ns, root, ord, t, flip, x + 1);
      assert ListPos(|t|, flip, x + 1) > k || ListPos(|t|, flip, x + 1) != Parent(t, k);
    }
  }

  lemma FlippedListSorted(ns: seq<Node>, root: int, ord: seq<int>, t: Tree)
    requires RepTree(ns, root, ord, t) && Sorted(t) && |t| >= 3
    requires t[|t| - 3].weight == t[|t| - 2].weight
    ensures Within(ListOf(ord, true), |ns|) && ListSorted(ns, ListOf(ord, true))
  {
    var lst := ListOf(ord, true);
    ListWeight(ns, root, ord, t, true, 0);
    forall k, l | 0 <= k < l < |lst| ensures ns[lst[k]].weight >= ns[lst[l]].weight {
      ListWeight(ns, root, ord, t, true, k);
      ListWeight(ns, root, ord, t, true, l);
    }
  }

  lemma FlipBack(ord: seq<int>, i: nat, j: nat)
    requires i == |ord| - 3 && j == |ord| - 2
    ensures var l := ListOf(ord, true);
      l[i] == ord[j] && l[j] == ord[i] && Exchange(l, j, i) == ord && Exchange(l, i, j) == ord
  {
  }

  lemma UnflipStart(ns: seq<Node>, root: int, ord: seq<int>, t: Tree)
    requires RepTree(ns, root, ord, t) && Inv(t) && |t| >= 3
    ensures ns[ord[|t| - 2]].weight == ns[ord[|t| - 3]].weight
    ensures Within(ListOf(ord, true), |ns|) && ListSorted(ns, ListOf(ord, true))
    ensures ListOf(ord, true)[|t| - 3] == ord[|t| - 2] && ListOf(ord, true)[|t| - 2] == ord[|t| - 3]
    ensures Exchange(ListOf(ord, true), |t| - 2, |t| - 3) == ord
    ensures Exchange(ListOf(ord, true), |t| - 3, |t| - 2) == ord
  {
    SiblingWeight(t, -1);
    assert NodeIs(ns, ord, t, |t| - 2) && NodeIs(ns, ord, t, |t| - 3);
    FlippedListSorted(ns, root, ord, t);
    FlipBack(ord, |t| - 3, |t| - 2);
  }

  /** If the cell still names the node that has just stepped back, its parent takes over. */
  lemma UnflipLeader(ns: seq<Node>, zs: seq<Node>, cs: seq<int>, lst: seq<int>, blk: map<nat, int>, j: nat)
    requires Within(lst, |ns|) && Distinct(lst) && Blocks(ns, cs, lst, blk, -1) && SameData(ns, zs)
    requires j + 1 < |lst| - 1 && ns[lst[j]].weight == ns[lst[j + 1]].weight
    requires Within(Exchange(lst, j + 1, j), |zs|)
    requires Blocks(zs, cs, Exchange(lst, j + 1, j), blk, j)
    ensures 0 <= zs[lst[j]].cell < |cs| && zs[lst[j]].cell in blk.Values
    ensures cs[zs[lst[j]].cell] == lst[j]
      ==> Blocks(zs, cs[zs[lst[j]].cell := lst[j + 1]], Exchange(lst, j + 1, j), blk, -1)
    ensures cs[zs[lst[j]].cell] != lst[j]
      ==> Blocks(zs, cs, Exchange(lst, j + 1, j), blk, -1)
  {
    var l2, c := Exchange(lst, j + 1, j), zs[lst[j]].cell;
    assert InBlock(ns, lst, blk, j);
    var i := LeaderOf(ns, cs, lst, blk, j);
    if cs[c] == lst[j] {
      var cs2 := cs[c := lst[j + 1]];
      forall k | 0 <= k < |l2| - 1 ensures LeaderIs(zs, cs2, l2, blk, k) {
        if k != j {
          assert LeaderIs(zs, cs, l2, blk, k);
          assert InBlock(zs, l2, blk, k) && InBlock(zs, l2, blk, j);
        }
      }
    } else {
      assert LeaderIs(ns, cs, lst, blk, j);
    }
  }

  lemma UnflipDone(ns: seq<Node>, zs: seq<Node>, cs: seq<int>, root: int, ord: seq<int>, t: Tree,
                   blk: map<nat, int>, count: int, free: int, fl: seq<int>)
    requires RepTree(ns, root, ord, t) && Inv(t) && |t| >= 3
    requires Within(ListOf(ord, true), |ns|) && Distinct(ListOf(ord, true))
    requires Blocks(ns, cs, ListOf(ord, true), blk, -1)
    requires Pool(cs, count, free, blk, fl, NIL)
    requires SameButList(ns, zs)
    ensures RepTree(zs, root, ord, t)
    ensures var p, a := ord[|t| - 2], ord[|t| - 3]; var c := zs[p].cell;
      && 0 <= c < |cs|
      && (cs[c] == p ==> Blocks(zs, cs[c := a], ord, blk, -1) && Pool(cs[c := a], count, free, blk, fl, NIL))
      && (cs[c] != p ==> Blocks(zs, cs, ord, blk, -1))
  {
    var lst, n := ListOf(ord, true), |t|;
    UnflipStart(ns, root, ord, t);
    TreeKept(ns, zs, root, ord, t);
    BlocksExchanged(ns, zs, cs, lst, blk, n - 2, n - 3);
    UnflipLeader(ns, zs, cs, lst, blk, n - 3);
    WriteCell(cs, count, free, blk, fl, NIL, zs[ord[n - 2]].cell, ord[n - 3]);
  }

  // ----- the steps put together

  /** The view after the node moved up and became heavier. */
  ghost function RaisedView(v: View, q: nat, blk: map<nat, int>, fl: seq<int>): (w: View)
    requires |v.ord| == |v.t| && q < |v.t|
    ensures |w.ord| == |w.t| == |v.t|
  {
    View(Raise(v.t, q), Exchange(v.ord, q, Spot(v.t, q)), v.flip || LeaderIsParent(v.t, q), blk, fl)
  }

  /** Which node stands at each position after the increments from `q` upwards. */
  ghost function IncrementOrd(t: Tree, ord: seq<int>, q: nat): (o: seq<int>)
    requires Ready(t, q) && |ord| == |t|
    ensures |o| == |ord|
    decreases q
  {
    RaiseReady(t, q);
    var u, k, o := Raise(t, q), Spot(t, q), Exchange(ord, q, Spot(t, q));
    if k == 0 then o else IncrementOrd(u, o, Parent(u, k))
  }

  ghost predicate KeepsFrom(ord: seq<int>, o: seq<int>, q: nat) {
    && |o| == |ord|
    && (forall i :: q < i < |ord| ==> o[i] == ord[i])
    && (forall i :: 0 <= i < |o| ==> o[i] in ord)
  }

  lemma ExchangeKeeps(ord: seq<int>, q: nat, k: nat)
    requires k <= q < |ord|
    ensures KeepsFrom(ord, Exchange(ord, q, k), q)
    ensures Exchange(ord, q, k)[k] == ord[q]
  {
  }

  /** Nodes behind `q` stay in place, and no other nodes come in. */
  lemma {:induction false} IncrementOrdKeeps(t: Tree, ord: seq<int>, q: nat)
    requires Ready(t, q) && |ord| == |t|
    ensures KeepsFrom(ord, IncrementOrd(t, ord, q), q)
    decreases q
  {
    RaiseReady(t, q);
    ExchangeKeeps(ord, q, Spot(t, q));
    if Spot(t, q) > 0 {
      IncrementOrdKeeps(Raise(t, q), Exchange(ord, q, Spot(t, q)), Parent(Raise(t, q), Spot(t, q)));
    }
  }

  /** The state on entry: everything is represented, and only `q` is still owing. */
  ghost predicate Live(ns: seq<Node>, cs: seq<int>, root: int, count: int, free: int, v: View, q: nat) {
    && Start(ns, cs, root, v.ord, v.t, v.flip, v.blk, q)
    && Pool(cs, count, free, v.blk, v.fl, NIL)
  }

  lemma LiveAgain(ns: seq<Node>, cs: seq<int>, root: int, count: int, free: int, v: View, q: nat)
    requires RepView(ns, cs, root, count, free, v) && Ready(v.t, q) && Mode(v.t, q, v.flip)
    ensures Live(ns, cs, root, count, free, v, q)
  {
  }

  /** What holds for the next node up. */
  lemma RaisedMode(v: View, q: nat, w: View)
    requires Ready(v.t, q) && Mode(v.t, q, v.flip) && |v.ord| == |v.t|
    requires w == RaisedView(v, q, w.blk, w.fl) && Spot(v.t, q) > 0
    ensures Structure(w.t) && Parent(w.t, Spot(v.t, q)) < Spot(v.t, q)
    ensures Ready(w.t, Parent(w.t, Spot(v.t, q)))
    ensures Mode(w.t, Parent(w.t, Spot(v.t, q)), w.flip)
  {
    RaiseReady(v.t, q);
  }

  lemma ParentTest(ns: seq<Node>, root: int, ord: seq<int>, t: Tree, k: nat)
    requires RepTree(ns, root, ord, t) && Structure(t) && k < |t|
    ensures ns[ord[k]].parent != NIL <==> k > 0
    ensures k > 0 ==> ns[ord[k]].parent == ord[Parent(t, k)]
  {
    if k > 0 { ParentIs(ns, root, ord, t, k); }
  }

  lemma IncrementUnfolds(t: Tree, ord: seq<int>, q: nat)
    requires Ready(t, q) && |ord| == |t|
    ensures var u, k, o := Raise(t, q), Spot(t, q), Exchange(ord, q, Spot(t, q));
      && Structure(u)
      && (k == 0 ==> Increment(t, q) == u && IncrementOrd(t, ord, q) == o)
      && (k > 0 ==> Ready(u, Parent(u, k)) && Parent(u, k) < k
                    && Increment(t, q) == Increment(u, Parent(u, k))
                    && IncrementOrd(t, ord, q) == IncrementOrd(u, o, Parent(u, k)))
  {
    RaiseReady(t, q);
  }

  /** The list is flipped on return exactly when this very call flipped it. */
  lemma FlipFacts(t: Tree, q: nat, flip: bool)
    requires q < |t| - 1 && Mode(t, q, flip)
    ensures (flip || LeaderIsParent(t, q)) && |t| >= 3 && Spot(t, q) == |t| - 2 <==> LeaderIsParent(t, q)
    ensures LeaderIsParent(t, q) ==> !flip
  {
  }

  lemma RaisedLeaves(lf: seq<int>, t: Tree, ord: seq<int>, q: nat)
    requires |ord| == |t| && q < |t| - 1 && LeafTable(lf, ord, t)
    ensures LeafTable(lf, Exchange(ord, q, Spot(t, q)), Raise(t, q))
  {
    LeafTableExchanged(lf, ord, t, q, Spot(t, q));
    BumpLeaves(lf, Exchange(ord, q, Spot(t, q)), Placed(t, q), Spot(t, q));
  }

  /** The table of leaves stays right without being touched. */
  lemma {:induction false} IncrementLeaves(lf: seq<int>, t: Tree, ord: seq<int>, q: nat)
    requires Ready(t, q) && |ord| == |t| && LeafTable(lf, ord, t)
    ensures LeafTable(lf, IncrementOrd(t, ord, q), Increment(t, q))
    decreases q
  {
    RaiseReady(t, q);
    RaisedLeaves(lf, t, ord, q);
    var u, k, o := Raise(t, q), Spot(t, q), Exchange(ord, q, Spot(t, q));
    if k > 0 { IncrementLeaves(lf, u, o, Parent(u, k)); }
  }

  /** After the first two parts: is there a next node up, and is it ready? */
  lemma AfterGoUp(ns: seq<Node>, cs: seq<int>, root: int, count: int, free: int, v: View, q: nat, w: View)
    requires Ready(v.t, q) && Mode(v.t, q, v.flip) && |v.ord| == |v.t|
    requires w == RaisedView(v, q, w.blk, w.fl) && RepView(ns, cs, root, count, free, w)
    ensures 0 <= v.ord[q] < |ns| && Structure(w.t)
    ensures ns[v.ord[q]].parent != NIL <==> Spot(v.t, q) > 0
    ensures Spot(v.t, q) > 0 ==>
      var q2 := Parent(w.t, Spot(v.t, q));
      && ns[v.ord[q]].parent == w.ord[q2] && q2 < Spot(v.t, q)
      && Live(ns, cs, root, count, free, w, q2)
    ensures Spot(v.t, q) == 0 ==>
      w.t == Increment(v.t, q) && w.ord == IncrementOrd(v.t, v.ord, q) && w.flip == v.flip
  {
    var k := Spot(v.t, q);
    IncrementUnfolds(v.t, v.ord, q);
    ExchangeKeeps(v.ord, q, k);
    ParentTest(ns, root, w.ord, w.t, k);
    if k > 0 {
      RaisedMode(v, q, w);
      LiveAgain(ns, cs, root, count, free, w, Parent(w.t, k));
    }
  }

  /** After the recursion: the node is where it was left, under its parent. */
  lemma AfterReturn(v: View, q: nat, u: View, w: View)
    requires Ready(v.t, q) && Mode(v.t, q, v.flip) && |v.ord| == |v.t|
    requires u == RaisedView(v, q, u.blk, u.fl) && Spot(v.t, q) > 0 && Structure(u.t)
    requires Ready(u.t, Parent(u.t, Spot(v.t, q)))
    requires w.t == Increment(u.t, Parent(u.t, Spot(v.t, q)))
    requires w.ord == IncrementOrd(u.t, u.ord, Parent(u.t, Spot(v.t, q)))
    requires w.flip == u.flip
    ensures Inv(w.t) && 1 <= Spot(v.t, q) < |w.t| - 1 && |w.ord| == |w.t|
    ensures w.ord[Spot(v.t, q)] == v.ord[q]
    ensures w.t == Increment(v.t, q) && w.ord == IncrementOrd(v.t, v.ord, q)
    ensures v.flip == if w.flip && |w.t| >= 3 && Spot(v.t, q) == |w.t| - 2 then false else w.flip
  {
    IncrementUnfolds(v.t, v.ord, q);
    ExchangeKeeps(v.ord, q, Spot(v.t, q));
    IncrementOrdKeeps(u.t, u.ord, Parent(u.t, Spot(v.t, q)));
    IncrementInv(u.t, Parent(u.t, Spot(v.t, q)));
    FlipFacts(v.t, q, v.flip);
  }
}
