/** The tree of src/huff.c as the program keeps it: nodes, cells and the leaf table,
    changed in place. */
module HuffTree {
  import opened WeightTree
  import opened TreeStore
  import opened TreeMoves
  import opened TreeGrowth

  const SeedView := View(Seed, [0], false, map[], [])

  class HuffTree {
    const nodes: array<Node>
    const cells: array<int>
    const leaf: array<int>
    var nodeCount: int
    var cellCount: int
    var root: int
    var head: int
    var free: int

    ghost predicate Sized() {
      nodes.Length == MAX_NODES && cells.Length == MAX_CELLS && leaf.Length == 257 && cells != leaf
    }

    /** Huff_Swap: exchange the subtrees at `x` and `y`. */
    method Swap(x: int, y: int, ghost ord: seq<int>, ghost t: Tree, ghost i: nat, ghost j: nat)
      requires Swapping(nodes[..], root, ord, t, i, j)
      requires x == ord[j] && y == ord[i]
      modifies nodes
      ensures RepTree(nodes[..], root, Exchange(ord, i, j), Exchange(t, i, j))
      ensures SameButTree(old(nodes[..]), nodes[..])
    {
      ghost var ns := nodes[..];
      SwapRep(ns, root, ord, t, i, j);
      SwapParents(ns, root, ord, t, i, j);
      var a := nodes[x].parent;
      if a != NIL {
        if nodes[a].left == x {
          nodes[a] := nodes[a].(left := y);
        } else {
          nodes[a] := nodes[a].(right := y);
        }
      } else {
        // the leader is never the root
        assert false;
      }
      var b := nodes[y].parent;
      if b != NIL {
        if nodes[b].left == y {
          nodes[b] := nodes[b].(left := x);
          nodes[x] := nodes[x].(parent := b);
          nodes[y] := nodes[y].(parent := a);
          assert nodes[..] == SwapNodes(ns, x, y, a, b);
          return;
        }
        nodes[b] := nodes[b].(right := x);
        nodes[x] := nodes[x].(parent := b);
        nodes[y] := nodes[y].(parent := a);
        assert nodes[..] == SwapNodes(ns, x, y, a, b);
        return;
      }
      // neither is the node to be moved
      assert false;
    }

    /** Huff_SwapTrees, first half: the two nodes trade their own links. */
    method TradeLinks(x: int, y: int)
      requires Straight(nodes[..], x) && Straight(nodes[..], y) && x != y
      modifies nodes
      ensures nodes[..] == SwapOwn(old(nodes[..]), x, y)
    {
      var temp := nodes[x].next;
      nodes[x] := nodes[x].(next := nodes[y].next);
      nodes[y] := nodes[y].(next := temp);
      temp := nodes[x].prev;
      nodes[x] := nodes[x].(prev := nodes[y].prev);
      nodes[y] := nodes[y].(prev := temp);
      if nodes[x].next == x {
        nodes[x] := nodes[x].(next := y);
      }
      if nodes[y].next == y {
        nodes[y] := nodes[y].(next := x);
      }
    }

    /** Huff_SwapTrees: exchange two nodes in the weight list. */
    method SwapTrees(x: int, y: int, ghost lst: seq<int>, ghost i: nat, ghost j: nat)
      requires Linked(nodes[..], lst)
      requires i < |lst| && j < |lst| && i != j && x == lst[i] && y == lst[j]
      modifies nodes
      ensures Linked(nodes[..], Exchange(lst, i, j))
      ensures SameButList(old(nodes[..]), nodes[..])
    {
      ghost var ns := nodes[..];
      SwapLinksList(ns, lst, i, j);
      SwapLinksFrame(ns, x, y);
      LinksAt(ns, lst, i);
      LinksAt(ns, lst, j);
      TradeLinks(x, y);
      FollowLinks(ns, x, y);
    }

    /** Huff_SwapTrees, second half: the neighbours follow. */
    method FollowLinks(ghost ns: seq<Node>, x: int, y: int)
      requires Straight(ns, x) && Straight(ns, y) && x != y
      requires nodes[..] == SwapOwn(ns, x, y)
      modifies nodes
      ensures nodes[..] == SwapLinks(ns, x, y)
    {
      ghost var m1 := nodes[..];
      var temp := nodes[x].next;
      if temp != NIL { nodes[temp] := nodes[temp].(prev := x); }
      ghost var m2 := nodes[..];
      assert m2 == SetPrev(m1, m1[x].next, x);
      temp := nodes[y].next;
      if temp != NIL { nodes[temp] := nodes[temp].(prev := y); }
      ghost var m3 := nodes[..];
      assert m3 == SetPrev(m2, m1[y].next, y);
      temp := nodes[x].prev;
      if temp != NIL { nodes[temp] := nodes[temp].(next := x); }
      ghost var m4 := nodes[..];
      assert m4 == SetNext(m3, m3[x].prev, x);
      temp := nodes[y].prev;
      if temp != NIL { nodes[temp] := nodes[temp].(next := y); }
      assert nodes[..] == SetNext(m4, m4[y].prev, y);
    }

    /** Huff_GetNode: a cell from the free list, or else the next one never used. */
    method GetNode(ghost blk: map<nat, int>, ghost fl: seq<int>) returns (c: int, ghost fl2: seq<int>)
      requires Sized() && Pool(cells[..], cellCount, free, blk, fl, NIL) && |blk| < MAX_CELLS
      modifies this`cellCount, this`free
      ensures Pool(cells[..], cellCount, free, blk, fl2, c) && 0 <= c < MAX_CELLS
    {
      fl2 := fl;
      if free == NIL {
        CellCount(cells[..], cellCount, free, blk, fl);
        c := cellCount;
        cellCount := cellCount + 1;
        return;
      }
      TakeFree(cells[..], cellCount, free, blk, fl);
      c := free;
      free := cells[free];
      fl2 := fl[1..];
    }

    /** Huff_DeleteNode: put a cell on the free list. */
    method DeleteNode(c: int, ghost blk: map<nat, int>, ghost fl: seq<int>)
      requires Sized() && Pool(cells[..], cellCount, free, blk, fl, c) && c != NIL
      modifies this`free, cells
      ensures cells[..] == old(cells[..])[c := old(free)]
      ensures Pool(cells[..], cellCount, free, blk, [c] + fl, NIL)
    {
      GiveFree(cells[..], cellCount, free, blk, fl, c);
      cells[c] := free;
      free := c;
    }

    // ----- Huff_IncrementFreq_r, second part: from one block to the next

    /** The follower becomes the leader. */
    method PassLeadOn(p: int, a: int, ghost lst: seq<int>, ghost x: nat, ghost blk: map<nat, int>, ghost fl: seq<int>)
      requires Sized() && Linked(nodes[..], lst) && AtBlockEnd(nodes[..], lst, x) && p == lst[x]
      requires Blocks(nodes[..], cells[..], lst, blk, x)
      requires Pool(cells[..], cellCount, free, blk, fl, NIL)
      requires a == lst[x + 1] && nodes[..][a].weight == nodes[..][p].weight
      modifies cells
      ensures BlocksWithout(nodes[..], cells[..], lst, blk, x)
      ensures Pool(cells[..], cellCount, free, blk, fl, NIL)
    {
      ghost var cs := cells[..];
      PassLeadAll(nodes[..], cs, lst, blk, x, cellCount, free, fl);
      cells[nodes[p].cell] := a;
      assert cells[..] == cs[nodes[p].cell := a];
    }

    /** A leader with no follower gives its cell back. */
    method DissolveBlock(p: int, ghost lst: seq<int>, ghost x: nat, ghost blk: map<nat, int>, ghost fl: seq<int>)
      returns (ghost blk2: map<nat, int>, ghost fl2: seq<int>)
      requires Sized() && Linked(nodes[..], lst) && AtBlockEnd(nodes[..], lst, x) && p == lst[x]
      requires Blocks(nodes[..], cells[..], lst, blk, x)
      requires Pool(cells[..], cellCount, free, blk, fl, NIL)
      requires nodes[..][lst[x + 1]].weight != nodes[..][p].weight
      modifies this`free, cells
      ensures BlocksWithout(nodes[..], cells[..], lst, blk2, x)
      ensures Pool(cells[..], cellCount, free, blk2, fl2, NIL)
    {
      ghost var ns, cs, first := nodes[..], cells[..], free;
      DropBlockAll(ns, cs, lst, blk, x, cellCount, free, fl);
      var c := nodes[p].cell;
      UpdateTwice(cs, c, NIL, first);
      cells[c] := NIL;
      blk2, fl2 := blk - {nodes[p].weight}, [c] + fl;
      DeleteNode(c, blk2, fl);
    }

    /** A block leader leaves its block. */
    method LeaveBlock(p: int, ghost lst: seq<int>, ghost x: nat, ghost blk: map<nat, int>, ghost fl: seq<int>)
      returns (ghost blk2: map<nat, int>, ghost fl2: seq<int>)
      requires Sized() && Linked(nodes[..], lst) && AtBlockEnd(nodes[..], lst, x) && p == lst[x]
      requires Blocks(nodes[..], cells[..], lst, blk, x)
      requires Pool(cells[..], cellCount, free, blk, fl, NIL)
      modifies this`free, cells
      ensures BlocksWithout(nodes[..], cells[..], lst, blk2, x)
      ensures Pool(cells[..], cellCount, free, blk2, fl2, NIL)
    {
      blk2, fl2 := blk, fl;
      LeavingNode(nodes[..], cells[..], lst, blk, x, cellCount, free, fl);
      var a := nodes[p].prev;
      if a != NIL && nodes[a].weight == nodes[p].weight {
        PassLeadOn(p, a, lst, x, blk, fl);
      } else {
        blk2, fl2 := DissolveBlock(p, lst, x, blk, fl);
      }
    }

    /** One heavier, the node joins the next block or starts it. */
    method JoinBlock(p: int, ghost lst: seq<int>, ghost x: nat, ghost blk: map<nat, int>, ghost fl: seq<int>)
      returns (ghost blk2: map<nat, int>, ghost fl2: seq<int>)
      requires Sized() && Linked(nodes[..], lst) && AtBlockEnd(nodes[..], lst, x) && p == lst[x]
      requires BlocksWithout(nodes[..], cells[..], lst, blk, x)
      requires Pool(cells[..], cellCount, free, blk, fl, NIL)
      requires |lst| < MAX_CELLS
      modifies this`cellCount, this`free, cells, nodes
      ensures nodes[..] == old(nodes[..])[p := old(nodes[..])[p].(
                weight := old(nodes[..])[p].weight + 1, cell := nodes[..][p].cell)]
      ensures Blocks(nodes[..], cells[..], lst, blk2, -1)
      ensures Pool(cells[..], cellCount, free, blk2, fl2, NIL)
    {
      blk2, fl2 := blk, fl;
      ghost var ns, cs := nodes[..], cells[..];
      LinksAt(ns, lst, x);
      nodes[p] := nodes[p].(weight := nodes[p].weight + 1);
      var a := nodes[p].next;
      if a != NIL && nodes[a].weight == nodes[p].weight {
        nodes[p] := nodes[p].(cell := nodes[a].cell);
        JoinExisting(ns, nodes[..], cs, lst, blk, x);
      } else {
        BlockCount(ns, lst, blk);
        a, fl2 := GetNode(blk, fl);
        nodes[p] := nodes[p].(cell := a);
        NewWeight(ns, lst, blk, x);
        ClaimCell(cs, cellCount, free, blk, fl2, a, nodes[p].weight, p);
        StartBlock(ns, nodes[..], cs, lst, blk, x, a);
        cells[a] := p;
        blk2 := blk[nodes[p].weight := a];
      }
    }

    /** From its old block to the next. */
    method ChangeBlock(p: int, ghost lst: seq<int>, ghost x: nat, ghost blk: map<nat, int>, ghost fl: seq<int>)
      returns (ghost blk2: map<nat, int>, ghost fl2: seq<int>)
      requires Sized() && Linked(nodes[..], lst) && AtBlockEnd(nodes[..], lst, x) && p == lst[x]
      requires Blocks(nodes[..], cells[..], lst, blk, x)
      requires Pool(cells[..], cellCount, free, blk, fl, NIL)
      requires |lst| < MAX_CELLS
      modifies this`cellCount, this`free, cells, nodes
      ensures nodes[..] == old(nodes[..])[p := old(nodes[..])[p].(
                weight := old(nodes[..])[p].weight + 1, cell := nodes[..][p].cell)]
      ensures Blocks(nodes[..], cells[..], lst, blk2, -1)
      ensures Pool(cells[..], cellCount, free, blk2, fl2, NIL)
    {
      ghost var ns := nodes[..];
      blk2, fl2 := LeaveBlock(p, lst, x, blk, fl);
      assert nodes[..] == ns;
      blk2, fl2 := JoinBlock(p, lst, x, blk2, fl2);
    }

    // ----- Huff_IncrementFreq_r

    /** Huff_Swap and Huff_SwapTrees; `ms` is what the first leaves to the second. */
    method SwapBoth(p: int, leader: int, ghost ord: seq<int>, ghost t: Tree, ghost lst: seq<int>,
                    ghost q: nat, ghost j: nat) returns (ghost ms: seq<Node>)
      requires Swapping(nodes[..], root, ord, t, q, j) && Linked(nodes[..], lst)
      requires p == ord[q] && leader == ord[j] && q < |lst| && lst[q] == p && lst[j] == leader
      modifies nodes
      ensures RepTree(ms, root, Exchange(ord, q, j), Exchange(t, q, j)) && SameButTree(old(nodes[..]), ms)
      ensures SameButList(ms, nodes[..]) && Linked(nodes[..], Exchange(lst, j, q))
    {
      ghost var ns := nodes[..];
      Swap(leader, p, ord, t, q, j);
      ms := nodes[..];
      ListKept(ns, ms, lst);
      SwapTrees(leader, p, lst, j, q);
    }

    /** First part, when the leader is the parent: the two trade places in the list only. */
    method FlipParent(p: int, leader: int, ghost ord: seq<int>, ghost t: Tree, ghost flip: bool,
                      ghost blk: map<nat, int>, ghost q: nat)
      requires Start(nodes[..], cells[..], root, ord, t, flip, blk, q) && LeaderIsParent(t, q)
      requires p == ord[q] && leader == ord[First(t, q)]
      modifies nodes
      ensures AtSpot(nodes[..], cells[..], root, Exchange(ord, q, Spot(t, q)), Placed(t, q), true, blk, q - 1)
    {
      ghost var ns, k := nodes[..], q - 1;
      FlipReady(ns, cells[..], root, ord, t, flip, blk, q, k);
      SwapTrees(leader, p, ord, k, q);
      FlipEnd(ns, nodes[..], cells[..], root, ord, t, flip, blk, q, k);
    }

    /** First part, when the leader is not the parent. */
    method TradeWithLeader(p: int, leader: int, ghost ord: seq<int>, ghost t: Tree, ghost flip: bool,
                           ghost blk: map<nat, int>, ghost q: nat)
      requires Start(nodes[..], cells[..], root, ord, t, flip, blk, q) && !LeaderIsParent(t, q)
      requires p == ord[q] && First(t, q) < q && leader == ord[First(t, q)]
      modifies nodes
      ensures AtSpot(nodes[..], cells[..], root, Exchange(ord, q, Spot(t, q)), Placed(t, q), flip, blk,
                     ListPos(|t|, flip, Spot(t, q)))
    {
      ghost var ns, j, lst := nodes[..], First(t, q), ListOf(ord, flip);
      TradeReady(ns, cells[..], root, ord, t, flip, blk, q, j, lst);
      ghost var ms := SwapBoth(p, leader, ord, t, lst, q, j);
      TradeEnd(ns, ms, nodes[..], cells[..], root, ord, t, flip, blk, q, j);
    }

    /** First part, when another node is ahead in the block. */
    method MoveAhead(p: int, ghost ord: seq<int>, ghost t: Tree, ghost flip: bool,
                     ghost blk: map<nat, int>, ghost q: nat)
      requires Start(nodes[..], cells[..], root, ord, t, flip, blk, q)
      requires p == ord[q] && First(t, q) < q
      modifies nodes
      ensures AtSpot(nodes[..], cells[..], root, Exchange(ord, q, Spot(t, q)), Placed(t, q),
                     flip || LeaderIsParent(t, q), blk,
                     ListPos(|t|, flip || LeaderIsParent(t, q), Spot(t, q)))
    {
      LeaderTest(nodes[..], cells[..], root, ord, t, flip, blk, q);
      var b := nodes[p].cell;
      if cells[b] != nodes[p].parent {
        TradeWithLeader(p, cells[b], ord, t, flip, blk, q);
      } else {
        FlipParent(p, cells[b], ord, t, flip, blk, q);
      }
    }

    /** First part: the node goes to the head of its block. */
    method MoveUp(p: int, ghost ord: seq<int>, ghost t: Tree, ghost flip: bool,
                  ghost blk: map<nat, int>, ghost q: nat)
      requires Start(nodes[..], cells[..], root, ord, t, flip, blk, q)
      requires p == ord[q]
      modifies nodes
      ensures AtSpot(nodes[..], cells[..], root, Exchange(ord, q, Spot(t, q)), Placed(t, q),
                    flip || LeaderIsParent(t, q), blk,
                    ListPos(|t|, flip || LeaderIsParent(t, q), Spot(t, q)))
    {
      NextTest(nodes[..], root, ord, t, flip, q);
      var a := nodes[p].next;
      if a != NIL && nodes[a].weight == nodes[p].weight {
        MoveAhead(p, ord, t, flip, blk, q);
      } else {
        StaysPut(nodes[..], cells[..], root, ord, t, flip, blk, q);
      }
    }

    /** Second part: the node leaves its block and joins the next one, one heavier. */
    method GoHeavier(p: int, ghost ord: seq<int>, ghost t: Tree, ghost flip: bool,
                     ghost blk: map<nat, int>, ghost fl: seq<int>, ghost k: nat, ghost x: nat)
      returns (ghost blk2: map<nat, int>, ghost fl2: seq<int>)
      requires Sized() && AtSpot(nodes[..], cells[..], root, ord, t, flip, blk, x)
      requires AtBlockEnd(nodes[..], ListOf(ord, flip), x)
      requires k < |t| <= 513 && p == ord[k] == ListOf(ord, flip)[x]
      requires Pool(cells[..], cellCount, free, blk, fl, NIL)
      modifies this`cellCount, this`free, cells, nodes
      ensures RepTree(nodes[..], root, ord, Bump(t, k))
      ensures Linked(nodes[..], ListOf(ord, flip))
      ensures Blocks(nodes[..], cells[..], ListOf(ord, flip), blk2, -1)
      ensures Pool(cells[..], cellCount, free, blk2, fl2, NIL)
    {
      ghost var ns := nodes[..];
      blk2, fl2 := ChangeBlock(p, ListOf(ord, flip), x, blk, fl);
      BumpDone(ns, nodes[..], root, ord, t, flip, k);
    }

    /** Last part: the sibling of the not-yet-transmitted leaf steps back behind its parent. */
    method Unflip(p: int, ghost ord: seq<int>, ghost t: Tree, ghost blk: map<nat, int>, ghost fl: seq<int>)
      requires Sized() && RepTree(nodes[..], root, ord, t) && Inv(t) && |t| >= 3 && p == ord[|t| - 2]
      requires Linked(nodes[..], ListOf(ord, true)) && Blocks(nodes[..], cells[..], ListOf(ord, true), blk, -1)
      requires Pool(cells[..], cellCount, free, blk, fl, NIL)
      requires nodes[..][p].parent == ord[|t| - 3]
      modifies nodes, cells
      ensures RepTree(nodes[..], root, ord, t)
      ensures Linked(nodes[..], ord) && Blocks(nodes[..], cells[..], ord, blk, -1)
      ensures Pool(cells[..], cellCount, free, blk, fl, NIL)
    {
      ghost var ns, cs := nodes[..], cells[..];
      UnflipStart(ns, root, ord, t);
      SwapTrees(p, nodes[p].parent, ListOf(ord, true), |t| - 3, |t| - 2);
      assert cells[..] == cs;
      UnflipDone(ns, nodes[..], cs, root, ord, t, blk, cellCount, free, fl);
      assert nodes[p].parent == ns[p].parent;
      var a := nodes[p].cell;
      if cells[a] == p {
        cells[a] := nodes[p].parent;
        assert cells[..] == cs[a := nodes[p].parent];
      }
    }

    /** First part, with what the second part needs to know. */
    method GoToSpot(p: int, ghost v: View, ghost q: nat)
      returns (ghost ord: seq<int>, ghost t: Tree, ghost flip: bool, ghost x: nat)
      requires Start(nodes[..], cells[..], root, v.ord, v.t, v.flip, v.blk, q)
      requires Pool(cells[..], cellCount, free, v.blk, v.fl, NIL)
      requires p == v.ord[q]
      modifies nodes
      ensures ord == Exchange(v.ord, q, Spot(v.t, q)) && t == Placed(v.t, q)
      ensures flip == (v.flip || LeaderIsParent(v.t, q))
      ensures AtSpot(nodes[..], cells[..], root, ord, t, flip, v.blk, x)
      ensures AtBlockEnd(nodes[..], ListOf(ord, flip), x)
      ensures Pool(cells[..], cellCount, free, v.blk, v.fl, NIL)
      ensures p == ord[Spot(v.t, q)] == ListOf(ord, flip)[x]
    {
      ghost var cs := cells[..];
      ghost var k := Spot(v.t, q);
      ord, t, flip := Exchange(v.ord, q, k), Placed(v.t, q), v.flip || LeaderIsParent(v.t, q);
      x := ListPos(|t|, flip, k);
      MoveUp(p, v.ord, v.t, v.flip, v.blk, q);
      assert cells[..] == cs;
      PlacedAtEnd(nodes[..], root, ord, v.t, q, v.flip);
      ListOfPos(ord, flip, k);
    }

    /** Both parts together. */
    method GoUp(p: int, ghost v: View, ghost q: nat) returns (ghost w: View)
      requires Sized() && Live(nodes[..], cells[..], root, cellCount, free, v, q)
      requires |v.t| <= 513 && p == v.ord[q]
      modifies this`cellCount, this`free, cells, nodes
      ensures w == RaisedView(v, q, w.blk, w.fl)
      ensures RepView(nodes[..], cells[..], root, cellCount, free, w)
    {
      ghost var ord, t, flip, x := GoToSpot(p, v, q);
      ghost var blk, fl := GoHeavier(p, ord, t, flip, v.blk, v.fl, Spot(v.t, q), x);
      w := View(Bump(t, Spot(v.t, q)), ord, flip, blk, fl);
    }

    /** After the recursion: the one node that flipped the list flips it back. */
    method StepBack(p: int, ghost w: View, ghost k: nat) returns (ghost z: View)
      requires Sized() && RepView(nodes[..], cells[..], root, cellCount, free, w)
      requires Inv(w.t) && 1 <= k < |w.t| - 1 && p == w.ord[k]
      modifies nodes, cells
      ensures z == if w.flip && |w.t| >= 3 && k == |w.t| - 2 then w.(flip := false) else w
      ensures RepView(nodes[..], cells[..], root, cellCount, free, z)
    {
      z := w;
      StillThere(nodes[..], root, w.ord, w.t, w.flip, k);
      if nodes[p].prev == nodes[p].parent {
        SiblingOfNyt(w.t);
        Unflip(p, w.ord, w.t, w.blk, w.fl);
        z := w.(flip := false);
      }
    }

    /** Huff_IncrementFreq_r: add one to the weight of `p` and of all nodes above it,
        keeping the sibling property. */
    method IncrementFreq(p: int, ghost v: View, ghost q: nat) returns (ghost w: View)
      requires Sized() && Live(nodes[..], cells[..], root, cellCount, free, v, q)
      requires |v.t| <= 513 && p == v.ord[q]
      modifies this`cellCount, this`free, cells, nodes
      ensures RepView(nodes[..], cells[..], root, cellCount, free, w)
      ensures w.t == Increment(v.t, q) && w.ord == IncrementOrd(v.t, v.ord, q) && w.flip == v.flip
      decreases q
    {
      w := GoUp(p, v, q);
      AfterGoUp(nodes[..], cells[..], root, cellCount, free, v, q, w);
      if nodes[p].parent != NIL {
        ghost var u, k := w, Spot(v.t, q);
        w := IncrementFreq(nodes[p].parent, u, Parent(u.t, k));
        AfterReturn(v, q, u, w);
        w := StepBack(p, w, k);
      }
    }

    // ----- Huff_AddReference

    /** Between two references the memory represents the tree of `v`. */
    ghost predicate Holds(v: View)
      reads this, nodes, cells, leaf
    {
      Sized() && Whole(nodes[..], cells[..], leaf[..], root, cellCount, free, nodeCount, head, v)
    }

    /** Huff_PrepareTree: a lone not-yet-transmitted leaf. */
    constructor ()
      ensures Holds(SeedView)
      ensures fresh(nodes) && fresh(cells) && fresh(leaf)
    {
      nodes := new Node[MAX_NODES](_ => BLANK);
      cells := new int[MAX_CELLS](_ => NIL);
      leaf := new int[257](_ => NIL);
      nodeCount, cellCount, root, head, free := 1, 0, 0, 0, NIL;
      new;
      nodes[0] := nodes[0].(symbol := NODE_NONE);
      leaf[256] := 0;
      SeedInv();
    }

    /** A node gets a cell of its own. */
    method NewCell(x: int, ghost blk: map<nat, int>, ghost fl: seq<int>) returns (ghost fl2: seq<int>)
      requires Sized() && 0 <= x < MAX_NODES && |blk| < MAX_CELLS && 1 !in blk
      requires Pool(cells[..], cellCount, free, blk, fl, NIL)
      modifies this`cellCount, this`free, cells, nodes
      ensures 0 <= nodes[x].cell < MAX_CELLS && nodes[x].cell !in blk.Values
      ensures nodes[..] == old(nodes[..])[x := old(nodes[..])[x].(cell := nodes[x].cell)]
      ensures cells[..] == old(cells[..])[nodes[x].cell := x]
      ensures Pool(cells[..], cellCount, free, blk[1 := nodes[x].cell], fl2, NIL)
    {
      ghost var cs := cells[..];
      var d;
      d, fl2 := GetNode(blk, fl);
      assert cells[..] == cs;
      ClaimCell(cs, cellCount, free, blk, fl2, d, 1, x);
      nodes[x] := nodes[x].(cell := d);
      cells[d] := x;
      assert cells[..] == cs[d := x];
    }

    /** Huff_AddReference: the new inner node shares the cell of the node ahead of it. */
    method LinkShared(a: int, ghost lst: seq<int>, ghost blk: map<nat, int>)
      requires Sized() && Listed(nodes[..], cells[..], lst, blk)
      requires 0 <= a < MAX_NODES && a !in lst && head == lst[|lst| - 1]
      requires |lst| >= 2 && nodes[..][lst[|lst| - 2]].weight == 1
      modifies nodes
      ensures Arrived(old(nodes[..]), nodes[..], cells[..], lst, a, NODE_NEXT, blk)
    {
      ghost var ns, cs, c := nodes[..], cells[..], nodes[..][lst[|lst| - 2]].cell;
      HeadNext(ns, lst);
      SharedInsert(ns, cs, lst, blk, a, NODE_NEXT);
      nodes[a] := nodes[a].(symbol := NODE_NEXT, weight := 1);
      nodes[a] := nodes[a].(next := nodes[head].next);
      var d := nodes[a].next;
      nodes[d] := nodes[d].(prev := a);
      nodes[a] := nodes[a].(cell := nodes[d].cell);
      nodes[head] := nodes[head].(next := a);
      nodes[a] := nodes[a].(prev := head);
      assert cells[..] == cs;
      assert nodes[..] == InsertNodes(ns, head, a, NODE_NEXT, c);
    }

    /** The assignments by which a new inner node gets into the list, with a cell of its own. */
    method PlaceAlone(a: int, ghost blk: map<nat, int>, ghost fl: seq<int>,
                      ghost ns: seq<Node>, ghost cs: seq<int>)
      returns (ghost c: int, ghost fl2: seq<int>)
      requires Sized() && 0 <= a < MAX_NODES && 0 <= head < MAX_NODES && a != head
      requires nodes[head].next != NIL ==>
        0 <= nodes[head].next < MAX_NODES && nodes[head].next != a && nodes[head].next != head
      requires Pool(cells[..], cellCount, free, blk, fl, NIL) && |blk| < MAX_CELLS && 1 !in blk
      requires ns == nodes[..] && cs == cells[..]
      modifies this`cellCount, this`free, cells, nodes
      ensures 0 <= c < MAX_CELLS && c !in blk.Values && cells[..] == cs[c := a]
      ensures nodes[..] == InsertNodes(ns, head, a, NODE_NEXT, c)
      ensures Pool(cells[..], cellCount, free, blk[1 := c], fl2, NIL)
    {
      nodes[a] := nodes[a].(symbol := NODE_NEXT, weight := 1);
      nodes[a] := nodes[a].(next := nodes[head].next);
      var d := nodes[a].next;
      if d != NIL { nodes[d] := nodes[d].(prev := a); }
      assert cells[..] == cs;
      fl2 := NewCell(a, blk, fl);
      c := nodes[a].cell;
      ghost var cs2 := cells[..];
      nodes[head] := nodes[head].(next := a);
      nodes[a] := nodes[a].(prev := head);
      assert cells[..] == cs2;
    }

    /** Huff_AddReference: the new inner node starts a block of weight one. */
    method LinkAlone(a: int, ghost lst: seq<int>, ghost blk: map<nat, int>, ghost fl: seq<int>)
      returns (ghost blk2: map<nat, int>, ghost fl2: seq<int>)
      requires Sized() && Listed(nodes[..], cells[..], lst, blk)
      requires Pool(cells[..], cellCount, free, blk, fl, NIL)
      requires 0 <= a < MAX_NODES && a !in lst && head == lst[|lst| - 1] && |lst| < MAX_CELLS
      requires |lst| >= 2 ==> nodes[..][lst[|lst| - 2]].weight != 1
      modifies this`cellCount, this`free, cells, nodes
      ensures Arrived(old(nodes[..]), nodes[..], cells[..], lst, a, NODE_NEXT, blk2)
      ensures Pool(cells[..], cellCount, free, blk2, fl2, NIL)
    {
      ghost var ns, cs := nodes[..], cells[..];
      HeadNext(ns, lst);
      StartsAlone(ns, lst, blk);
      BlockCount(ns, lst, blk);
      ghost var c;
      c, fl2 := PlaceAlone(a, blk, fl, ns, cs);
      FreshInsert(ns, cs, lst, blk, a, NODE_NEXT, c);
      blk2 := blk[1 := c];
    }

    /** Huff_AddReference, first part: put a new inner node into the list, just before
        the not-yet-transmitted leaf. */
    method LinkInner(a: int, ghost lst: seq<int>, ghost blk: map<nat, int>, ghost fl: seq<int>)
      returns (ghost blk2: map<nat, int>, ghost fl2: seq<int>)
      requires Sized() && Listed(nodes[..], cells[..], lst, blk)
      requires Pool(cells[..], cellCount, free, blk, fl, NIL)
      requires 0 <= a < MAX_NODES && a !in lst && head == lst[|lst| - 1] && |lst| < MAX_CELLS
      modifies this`cellCount, this`free, cells, nodes
      ensures Arrived(old(nodes[..]), nodes[..], cells[..], lst, a, NODE_NEXT, blk2)
      ensures Pool(cells[..], cellCount, free, blk2, fl2, NIL)
    {
      HeadNext(nodes[..], lst);
      var d := nodes[head].next;
      if d != NIL && nodes[d].weight == 1 {
        ghost var cs := cells[..];
        LinkShared(a, lst, blk);
        blk2, fl2 := blk, fl;
        assert cells[..] == cs;
      } else {
        blk2, fl2 := LinkAlone(a, lst, blk, fl);
      }
    }

    /** Huff_AddReference, second part: put the new leaf into the list, just before the
        not-yet-transmitted leaf.  The node ahead is the new inner node, of weight one. */
    method LinkLeaf(b: int, s: nat, ghost lst: seq<int>, ghost blk: map<nat, int>, ghost fl: seq<int>)
      requires Sized() && Listed(nodes[..], cells[..], lst, blk)
      requires Pool(cells[..], cellCount, free, blk, fl, NIL)
      requires 0 <= b < MAX_NODES && b !in lst && head == lst[|lst| - 1]
      requires |lst| >= 2 && nodes[..][lst[|lst| - 2]].weight == 1
      modifies nodes
      ensures Arrived(old(nodes[..]), nodes[..], cells[..], lst, b, s, blk)
    {
      ghost var ns, cs := nodes[..], cells[..];
      HeadNext(ns, lst);
      SharedInsert(ns, cs, lst, blk, b, s);
      nodes[b] := nodes[b].(symbol := s, weight := 1);
      nodes[b] := nodes[b].(next := nodes[head].next);
      var d := nodes[b].next;
      if d != NIL {
        nodes[d] := nodes[d].(prev := b);
        if nodes[d].weight == 1 {
          nodes[b] := nodes[b].(cell := nodes[d].cell);
        } else {
          // the inner node has just been given weight one
          assert false;
        }
      } else {
        // the inner node is always there
        assert false;
      }
      nodes[head] := nodes[head].(next := b);
      nodes[b] := nodes[b].(prev := head);
      assert cells[..] == cs;
      assert nodes[..] == InsertNodes(ns, head, b, s, ns[lst[|lst| - 2]].cell);
    }

    /** Huff_AddReference, third part: the inner node takes the place of the
        not-yet-transmitted leaf, which becomes its left child; the new leaf its right. */
    method Graft(a: int, b: int, ghost ord: seq<int>, ghost t: Tree, ghost s: nat)
      requires Sized() && Graftable(nodes[..], root, ord, t, s, a, b) && head == ord[|t| - 1]
      modifies nodes, this`root
      ensures RepTree(nodes[..], root, Grown(ord, a, b), Sprout(t, s))
      ensures SameButTree(old(nodes[..]), nodes[..])
      ensures nodes[a].parent == old(nodes[head].parent)
    {
      ghost var ns := nodes[..];
      LastNodeParent(ns, root, ord, t);
      GraftDone(ns, root, ord, t, s, a, b);
      var c := nodes[head].parent;
      nodes[b] := nodes[b].(right := NIL, left := NIL);
      if c != NIL {
        if nodes[c].left == head {
          nodes[c] := nodes[c].(left := a);
        } else {
          // the not-yet-transmitted leaf is always a left child
          assert false;
        }
      } else {
        root := a;
      }
      nodes[a] := nodes[a].(right := b, left := head, parent := nodes[head].parent);
      nodes[b] := nodes[b].(parent := a);
      nodes[head] := nodes[head].(parent := a);
      assert nodes[..] == GraftNodes(ns, head, a, b, c);
    }

    /** Huff_AddReference, both insertions into the list; `ms` is what the first leaves. */
    method LinkBoth(a: int, b: int, s: nat, ghost lst: seq<int>, ghost blk0: map<nat, int>, ghost fl0: seq<int>)
      returns (ghost blk: map<nat, int>, ghost fl: seq<int>, ghost ms: seq<Node>)
      requires Sized() && Listed(nodes[..], cells[..], lst, blk0) && nodes[..][lst[|lst| - 1]].weight == 0
      requires Pool(cells[..], cellCount, free, blk0, fl0, NIL)
      requires 0 <= a < MAX_NODES && 0 <= b < MAX_NODES && a != b && a !in lst && b !in lst
      requires head == lst[|lst| - 1] && |lst| <= 511
      modifies this`cellCount, this`free, cells, nodes
      ensures Pool(cells[..], cellCount, free, blk, fl, NIL)
      ensures Arrived(old(nodes[..]), ms, cells[..], lst, a, NODE_NEXT, blk)
      ensures Arrived(ms, nodes[..], cells[..], Inserted(lst, a), b, s, blk)
    {
      ghost var ns, cs0 := nodes[..], cells[..];
      InsertedMisses(lst, a, b);
      blk, fl := LinkInner(a, lst, blk0, fl0);
      ghost var cs := cells[..];
      ms := nodes[..];
      ListedAgain(ns, ms, cs0, cs, lst, blk0, blk, a);
      LinkLeaf(b, s, Inserted(lst, a), blk, fl);
      assert cells[..] == cs;
    }

    /** Huff_AddReference, without the final increment. */
    method SproutNodes(a: int, b: int, s: nat, ghost v: View) returns (ghost w: View)
      requires Holds(v) && s < 256 && leaf[s] == NIL && b == nodeCount && a == nodeCount + 1
      modifies this`cellCount, this`free, this`root, cells, nodes
      ensures RepView(nodes[..], cells[..], root, cellCount, free, w) && !Has(v.t, s) && |v.t| <= 511
      ensures w.t == Sprout(v.t, s) && w.ord == Grown(v.ord, a, b) && !w.flip
    {
      ghost var ns := nodes[..];
      NewStart(ns, cells[..], leaf[..], root, cellCount, free, v, s);
      ghost var blk, fl, ms := LinkBoth(a, b, s, v.ord, v.blk, v.fl);
      ghost var zs, cs := nodes[..], cells[..];
      BothLinked(ns, ms, zs, cs, root, v, blk, s, a, b);
      Graft(a, b, v.ord, v.t, s);
      assert cells[..] == cs;
      GraftKeepsList(zs, nodes[..], cs, Grown(v.ord, a, b), blk);
      w := View(Sprout(v.t, s), Grown(v.ord, a, b), false, blk, fl);
    }

    /** Huff_AddReference for a byte that already has a leaf. */
    method ReferKnown(s: nat, ghost v: View) returns (ghost w: View)
      requires Holds(v) && s < 256 && leaf[s] != NIL
      modifies this`cellCount, this`free, cells, nodes
      ensures Holds(w) && w.t == AddReference(v.t, s)
    {
      KnownStart(nodes[..], cells[..], leaf[..], root, cellCount, free, v, s);
      w := FinishReference(leaf[s], v, Find(v.t, s));
    }

    /** Huff_AddReference for a byte that has no leaf yet, before the tables know. */
    method NewPair(a: int, b: int, s: nat, ghost v: View) returns (ghost w: View)
      requires Holds(v) && s < 256 && leaf[s] == NIL
      requires b == nodeCount && a == nodeCount + 1
      modifies this`cellCount, this`free, this`root, cells, nodes
      ensures 0 <= a < MAX_NODES && leaf[..] == old(leaf[..])
      ensures w.t == Sprout(v.t, s) && !Has(v.t, s) && |v.t| <= 511 && !w.flip
      ensures Settled(nodes[..], cells[..], leaf[..][s := b], root, cellCount, free, nodeCount + 2, head, w)
      ensures |v.t| == 1 ==> nodes[..][a].parent == NIL
      ensures |v.t| > 1 ==> nodes[..][a].parent == w.ord[|v.t| - 3]
    {
      w := SproutNodes(a, b, s, v);
      SproutSettled(nodes[..], cells[..], leaf[..], root, cellCount, free, nodeCount, head, v, w, s, a, b);
    }

    /** Huff_AddReference for a byte that has no leaf yet, up to the increment. */
    method NewNodes(s: nat, ghost v: View) returns (p: int, ghost w: View)
      requires Holds(v) && s < 256 && leaf[s] == NIL
      modifies this`nodeCount, this`cellCount, this`free, this`root, cells, nodes, leaf
      ensures w.t == Sprout(v.t, s) && !Has(v.t, s) && |v.t| <= 511 && !w.flip
      ensures Settled(nodes[..], cells[..], leaf[..], root, cellCount, free, nodeCount, head, w)
      ensures p == if |v.t| == 1 then NIL else w.ord[|v.t| - 3]
    {
      var b := nodeCount;
      var a := nodeCount + 1;
      w := NewPair(a, b, s, v);
      ghost var ns, cs, lf := nodes[..], cells[..], leaf[..];
      nodeCount := nodeCount + 2;
      leaf[s] := b;
      p := nodes[a].parent;
      assert nodes[..] == ns && cells[..] == cs && leaf[..] == lf[s := b];
    }

    /** Huff_AddReference for a byte that has no leaf yet. */
    method ReferNew(s: nat, ghost v: View) returns (ghost w: View)
      requires Holds(v) && s < 256 && leaf[s] == NIL
      modifies this`nodeCount, this`cellCount, this`free, this`root, cells, nodes, leaf
      ensures Holds(w) && w.t == AddReference(v.t, s)
    {
      var p;
      p, w := NewNodes(s, v);
      SproutReady(v.t, s);
      if p != NIL {
        w := FinishReference(p, w, |v.t| - 3);
      }
    }

    /** The increment that completes a reference. */
    method FinishReference(p: int, ghost v: View, ghost q: nat) returns (ghost w: View)
      requires Sized() && !v.flip && |v.t| <= 513 && Ready(v.t, q) && Mode(v.t, q, false)
      requires Settled(nodes[..], cells[..], leaf[..], root, cellCount, free, nodeCount, head, v)
      requires p == v.ord[q]
      modifies this`cellCount, this`free, cells, nodes
      ensures Holds(w) && w.t == Increment(v.t, q)
    {
      ghost var lf := leaf[..];
      LiveAgain(nodes[..], cells[..], root, cellCount, free, v, q);
      w := IncrementFreq(p, v, q);
      assert leaf[..] == lf;
      AfterIncrement(nodes[..], cells[..], leaf[..], root, cellCount, free, nodeCount, head, v, w, q);
    }

    /** Huff_AddReference: give `ch` a leaf, or add one to the weight of the leaf it has. */
    method AddRef(ch: int, ghost v: View) returns (ghost w: View)
      requires Holds(v)
      modifies this`nodeCount, this`cellCount, this`free, this`root, cells, nodes, leaf
      ensures Holds(w) && w.t == AddReference(v.t, ch % 256)
    {
      var s := ch % 256;
      if leaf[s] != NIL {
        w := ReferKnown(s, v);
      } else {
        w := ReferNew(s, v);
      }
    }
  }

  /** Huff_AddReference for a number that is a byte. */
  method Refer(h: HuffTree, value: nat, ghost v: View) returns (ghost w: View)
    requires h.Holds(v) && value < 256
    modifies h, h.nodes, h.cells, h.leaf
    ensures h.Holds(w) && Inv(v.t) && w.t == AddReference(v.t, value)
  {
    assert value % 256 == value;
    w := h.AddRef(value, v);
  }

  // ----- block leaders and pools at rest

  /** The cell of the node at position `i`. */
  ghost function CellOf(h: HuffTree, v: View, i: nat): int
    requires h.Holds(v) && i < |v.t|
    reads h, h.nodes, h.cells, h.leaf
  {
    h.nodes[v.ord[i]].cell
  }

  lemma LeaderCell(ns: seq<Node>, cs: seq<int>, root: int, ord: seq<int>, t: Tree, blk: map<nat, int>, i: nat)
    requires RepTree(ns, root, ord, t) && Blocks(ns, cs, ord, blk, -1) && i < |t| - 1
    ensures t[i].weight in blk && ns[ord[i]].cell == blk[t[i].weight]
    ensures 0 <= blk[t[i].weight] < |cs| && cs[blk[t[i].weight]] == ord[First(t, i)]
  {
    var j := First(t, i);
    assert NodeIs(ns, ord, t, i) && NodeIs(ns, ord, t, j);
    if j > 0 { assert NodeIs(ns, ord, t, j - 1); }
    assert InBlock(ns, ord, blk, i);
    assert LeaderIs(ns, cs, ord, blk, j);
  }

  /** The cell of every node but the not-yet-transmitted leaf points to the last node of
      its weight, and two nodes have the same cell exactly when they weigh the same. */
  lemma BlockLeaders(h: HuffTree, v: View, i: nat, j: nat)
    requires h.Holds(v) && i < |v.t| - 1 && j < |v.t| - 1
    ensures 0 <= CellOf(h, v, i) < h.cellCount
    ensures h.cells[CellOf(h, v, i)] == v.ord[First(v.t, i)]
    ensures CellOf(h, v, i) == CellOf(h, v, j) <==> v.t[i].weight == v.t[j].weight
  {
    LeaderCell(h.nodes[..], h.cells[..], h.root, v.ord, v.t, v.blk, i);
    LeaderCell(h.nodes[..], h.cells[..], h.root, v.ord, v.t, v.blk, j);
  }

  /** Some node in the list has cell `c`. */
  ghost predicate InUse(ns: seq<Node>, v: View, c: int)
    requires |v.ord| == |v.t| && Within(v.ord, |ns|)
  {
    exists i :: 0 <= i < |v.t| - 1 && ns[v.ord[i]].cell == c
  }

  lemma UsedCell(ns: seq<Node>, cs: seq<int>, root: int, count: int, free: int, v: View, c: int)
    requires RepView(ns, cs, root, count, free, v) && !v.flip && 0 <= c < count
    ensures c in v.fl <==> !InUse(ns, v, c)
  {
    if c in v.fl {
      forall i | 0 <= i < |v.t| - 1 ensures ns[v.ord[i]].cell != c {
        LeaderCell(ns, cs, root, v.ord, v.t, v.blk, i);
      }
    } else {
      var w :| w in v.blk && v.blk[w] == c;
      var k :| Weighs(ns, v.ord, w, k);
      LeaderCell(ns, cs, root, v.ord, v.t, v.blk, k);
      assert NodeIs(ns, v.ord, v.t, k);
    }
  }

  /** Every cell ever taken is either on the free list or the cell of some node, and no
      cell is both. */
  lemma FreeCells(h: HuffTree, v: View, c: int)
    requires h.Holds(v) && 0 <= c < h.cellCount
    ensures c in v.fl <==> !InUse(h.nodes[..], v, c)
  {
    UsedCell(h.nodes[..], h.cells[..], h.root, h.cellCount, h.free, v, c);
  }

  /** Neither the node region nor the cell region is ever exhausted. */
  lemma NeverExhausted(h: HuffTree, v: View)
    requires h.Holds(v)
    ensures h.nodeCount == |v.t| <= 513 < MAX_NODES && 0 <= h.cellCount <= MAX_CELLS
  {
    TreeSize(v.t);
  }
}
