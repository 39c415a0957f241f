/** Splitting the not-yet-transmitted leaf (Huff_AddReference), in terms of the tree
    the memory represents. */
module TreeGrowth {
  import opened WeightTree
  import opened TreeStore
  import opened TreeMoves

  /** The list with `x` put in just ahead of its last node. */
  function Inserted(lst: seq<int>, x: int): (l: seq<int>)
    requires |lst| >= 1
    ensures |l| == |lst| + 1
  {
    lst[..|lst| - 1] + [x, lst[|lst| - 1]]
  }

  /** The links after a new node `x` was put in ahead of the last node. */
  ghost predicate LinkedIn(ns: seq<Node>, ms: seq<Node>, lst: seq<int>, x: int)
    requires |lst| >= 1 && Within(lst, |ns|) && |ms| == |ns| && 0 <= x < |ns|
  {
    var n := |lst|;
    && ms[x].next == (if n >= 2 then lst[n - 2] else NIL)
    && ms[x].prev == lst[n - 1]
    && ms[lst[n - 1]].next == x && ms[lst[n - 1]].prev == ns[lst[n - 1]].prev
    && (n >= 2 ==> ms[lst[n - 2]].prev == x && ms[lst[n - 2]].next == ns[lst[n - 2]].next)
    && (forall k {:trigger ms[lst[k]]} :: 0 <= k < n - 2 ==>
          ms[lst[k]].next == ns[lst[k]].next && ms[lst[k]].prev == ns[lst[k]].prev)
  }

  lemma InsertedAt(lst: seq<int>, x: int, k: nat)
    requires |lst| >= 1 && k <= |lst|
    ensures Inserted(lst, x)[k] == if k < |lst| - 1 then lst[k] else if k == |lst| then lst[k - 1] else x
    ensures NextIn(Inserted(lst, x), k)
         == if k == 0 then NIL else if k < |lst| then lst[k - 1] else x
    ensures PrevIn(Inserted(lst, x), k)
         == if k == |lst| then NIL else if k == |lst| - 1 then lst[k]
            else if k == |lst| - 2 then x else lst[k + 1]
  {
  }

  lemma InsertLinksAt(ns: seq<Node>, ms: seq<Node>, lst: seq<int>, x: int, k: nat, q: int)
    requires Linked(ns, lst) && |lst| >= 1 && |ms| == |ns| && 0 <= x < |ns|
    requires LinkedIn(ns, ms, lst, x) && k <= |lst|
    requires q == if k < |lst| - 1 then lst[k] else if k == |lst| then lst[k - 1] else x
    ensures 0 <= q < |ms|
    ensures ms[q].next == if k == 0 then NIL else if k < |lst| then lst[k - 1] else x
    ensures ms[q].prev == if k == |lst| then NIL else if k == |lst| - 1 then lst[k]
                          else if k == |lst| - 2 then x else lst[k + 1]
  {
    var n := |lst|;
    LinksAt(ns, lst, n - 1);
    if k < n - 2 {
      LinksAt(ns, lst, k);
    } else if k == n - 2 {
      LinksAt(ns, lst, k);
    }
  }

  lemma InsertedDistinct(lst: seq<int>, x: int, n: int)
    requires Distinct(lst) && Within(lst, n) && |lst| >= 1 && x !in lst && 0 <= x < n
    ensures Distinct(Inserted(lst, x)) && Within(Inserted(lst, x), n)
  {
    var l2 := Inserted(lst, x);
    forall i, j | 0 <= i < j < |l2| ensures l2[i] != l2[j] {
      InsertedAt(lst, x, i);
      InsertedAt(lst, x, j);
      assert i < |lst| - 1 ==> lst[i] in lst;
    }
  }

  lemma InsertLinked(ns: seq<Node>, ms: seq<Node>, lst: seq<int>, x: int)
    requires Linked(ns, lst) && |lst| >= 1 && |ms| == |ns| && 0 <= x < |ns| && x !in lst
    requires LinkedIn(ns, ms, lst, x)
    ensures Linked(ms, Inserted(lst, x))
  {
    var l2 := Inserted(lst, x);
    InsertedDistinct(lst, x, |ns|);
    forall k | 0 <= k < |l2| ensures ms[l2[k]].next == NextIn(l2, k) && ms[l2[k]].prev == PrevIn(l2, k) {
      InsertedAt(lst, x, k);
      InsertLinksAt(ns, ms, lst, x, k, l2[k]);
    }
  }

  /** Weights and cells of the nodes in the list are untouched. */
  ghost predicate SameInList(ns: seq<Node>, ms: seq<Node>, lst: seq<int>)
    requires Within(lst, |ns|)
  {
    |ms| == |ns| && forall k :: 0 <= k < |lst| ==>
      ms[lst[k]].weight == ns[lst[k]].weight && ms[lst[k]].cell == ns[lst[k]].cell
  }

  /** The new node, of weight one, shares the block ahead of it. */
  lemma InsertShares(ns: seq<Node>, ms: seq<Node>, cs: seq<int>, lst: seq<int>, blk: map<nat, int>, x: int)
    requires Within(lst, |ns|) && |lst| >= 2 && 0 <= x < |ns| && SameInList(ns, ms, lst)
    requires Blocks(ns, cs, lst, blk, -1)
    requires ms[x].weight == 1 == ns[lst[|lst| - 2]].weight && ms[x].cell == ns[lst[|lst| - 2]].cell
    ensures Within(Inserted(lst, x), |ms|) && Blocks(ms, cs, Inserted(lst, x), blk, -1)
  {
    var l2, n := Inserted(lst, x), |lst|;
    assert Within(l2, |ms|);
    assert InBlock(ns, lst, blk, n - 2);
    forall k | 0 <= k < n ensures InBlock(ms, l2, blk, k) && LeaderIs(ms, cs, l2, blk, k) {
      if k < n - 1 {
        assert InBlock(ns, lst, blk, k) && LeaderIs(ns, cs, lst, blk, k);
        if k > 0 { assert l2[k - 1] == lst[k - 1]; }
      } else {
        assert l2[k - 1] == lst[n - 2];
      }
    }
    forall w | w in blk ensures exists k :: Weighs(ms, l2, w, k) {
      var k :| Weighs(ns, lst, w, k);
      assert Weighs(ms, l2, w, k);
    }
  }

  ghost predicate NoOnes(ns: seq<Node>, lst: seq<int>)
    requires Within(lst, |ns|)
  {
    forall k :: 0 <= k < |lst| - 1 ==> ns[lst[k]].weight != 1
  }

  lemma StartsAlone(ns: seq<Node>, lst: seq<int>, blk: map<nat, int>)
    requires Within(lst, |ns|) && |lst| >= 1 && ListSorted(ns, lst)
    requires forall k :: 0 <= k < |lst| - 1 ==> ns[lst[k]].weight > 0
    requires |lst| >= 2 ==> ns[lst[|lst| - 2]].weight != 1
    requires forall w :: w in blk ==> exists k :: Weighs(ns, lst, w, k)
    ensures NoOnes(ns, lst) && 1 !in blk
  {
    forall k | 0 <= k < |lst| - 1 ensures ns[lst[k]].weight != 1 {
      assert k < |lst| - 2 ==> ns[lst[k]].weight >= ns[lst[|lst| - 2]].weight;
    }
    assert forall k :: !Weighs(ns, lst, 1, k);
  }

  /** The new node starts the block of weight one in cell `c`. */
  lemma InsertStarts(ns: seq<Node>, ms: seq<Node>, cs: seq<int>, lst: seq<int>, blk: map<nat, int>, x: int, c: int)
    requires Within(lst, |ns|) && |lst| >= 1 && 0 <= x < |ns| && SameInList(ns, ms, lst)
    requires Blocks(ns, cs, lst, blk, -1) && NoOnes(ns, lst) && 1 !in blk
    requires 0 <= c < |cs| && c !in blk.Values
    requires ms[x].weight == 1 && ms[x].cell == c
    ensures Within(Inserted(lst, x), |ms|)
    ensures Blocks(ms, cs[c := x], Inserted(lst, x), blk[1 := c], -1)
  {
    var l2, n, cs2, blk2 := Inserted(lst, x), |lst|, cs[c := x], blk[1 := c];
    assert Within(l2, |ms|);
    assert forall v :: v in blk ==> blk2[v] == blk[v] && blk[v] in blk.Values;
    forall k | 0 <= k < n ensures InBlock(ms, l2, blk2, k) && LeaderIs(ms, cs2, l2, blk2, k) {
      if k < n - 1 {
        assert InBlock(ns, lst, blk, k) && LeaderIs(ns, cs, lst, blk, k);
        if k > 0 { assert l2[k - 1] == lst[k - 1]; }
      }
    }
    forall w | w in blk2 ensures exists k :: Weighs(ms, l2, w, k) {
      if w == 1 {
        assert Weighs(ms, l2, w, n - 1);
      } else {
        var k :| Weighs(ns, lst, w, k);
        assert Weighs(ms, l2, w, k);
      }
    }
  }

  /** The nodes once `x`, with symbol `s`, weight one and cell `c`, is linked in ahead of `h`. */
  function InsertNodes(ns: seq<Node>, h: int, x: int, s: nat, c: int): (ms: seq<Node>)
    requires 0 <= h < |ns| && 0 <= x < |ns|
    requires ns[h].next == NIL || 0 <= ns[h].next < |ns|
    ensures |ms| == |ns|
  {
    var nx := ns[h].next;
    var m1 := ns[x := ns[x].(symbol := s, weight := 1, next := nx, prev := h, cell := c)];
    var m2 := if nx == NIL then m1 else m1[nx := m1[nx].(prev := x)];
    m2[h := m2[h].(next := x)]
  }

  /** Binary-tree links, weights and symbols of the nodes in `ps` are untouched. */
  ghost predicate SameTree(ns: seq<Node>, ms: seq<Node>, ps: seq<int>) {
    && |ms| == |ns| && Within(ps, |ns|)
    && forall k :: 0 <= k < |ps| ==>
         ms[ps[k]] == ns[ps[k]].(next := ms[ps[k]].next, prev := ms[ps[k]].prev)
  }

  lemma InsertNodesAt(ns: seq<Node>, h: int, x: int, s: nat, c: int, p: int)
    requires 0 <= h < |ns| && 0 <= x < |ns| && 0 <= p < |ns| && x != h && ns[h].next != x && ns[h].next != h
    requires ns[h].next == NIL || 0 <= ns[h].next < |ns|
    ensures p != x ==>
      InsertNodes(ns, h, x, s, c)[p]
      == ns[p].(next := if p == h then x else ns[p].next, prev := if p == ns[h].next then x else ns[p].prev)
    ensures InsertNodes(ns, h, x, s, c)[x]
      == ns[x].(symbol := s, weight := 1, next := ns[h].next, prev := h, cell := c)
  {
  }

  lemma InsertNodesFacts(ns: seq<Node>, ms: seq<Node>, lst: seq<int>, x: int, s: nat, c: int)
    requires Linked(ns, lst) && |lst| >= 1 && 0 <= x < |ns| && x !in lst
    requires ns[lst[|lst| - 1]].next == (if |lst| >= 2 then lst[|lst| - 2] else NIL)
    requires ms == InsertNodes(ns, lst[|lst| - 1], x, s, c)
    ensures LinkedIn(ns, ms, lst, x) && SameTree(ns, ms, lst) && SameInList(ns, ms, lst)
    ensures ms[x].weight == 1 && ms[x].symbol == s && ms[x].cell == c
    ensures ms[x].left == ns[x].left && ms[x].right == ns[x].right
  {
    var n, h := |lst|, lst[|lst| - 1];
    assert forall k :: 0 <= k < n ==> lst[k] in lst;
    forall k | 0 <= k < n
      ensures ms[lst[k]] == ns[lst[k]].(next := if k == n - 1 then x else ns[lst[k]].next,
                                        prev := if k == n - 2 then x else ns[lst[k]].prev)
    {
      InsertNodesAt(ns, h, x, s, c, lst[k]);
    }
    InsertNodesAt(ns, h, x, s, c, x);
  }

  lemma HeadNext(ns: seq<Node>, lst: seq<int>)
    requires Linked(ns, lst) && |lst| >= 1
    ensures ns[lst[|lst| - 1]].next == (if |lst| >= 2 then lst[|lst| - 2] else NIL)
  {
    LinksAt(ns, lst, |lst| - 1);
  }

  /** What the list and the blocks need of each other when a node of weight one arrives. */
  ghost predicate Listed(ns: seq<Node>, cs: seq<int>, lst: seq<int>, blk: map<nat, int>) {
    && Linked(ns, lst) && |lst| >= 1
    && ListSorted(ns, lst)
    && (forall k :: 0 <= k < |lst| - 1 ==> ns[lst[k]].weight > 0)
    && Blocks(ns, cs, lst, blk, -1)
  }

  /** The node `x`, of weight one, has arrived in the list `lst`. */
  ghost predicate Arrived(ns: seq<Node>, ms: seq<Node>, cs: seq<int>, lst: seq<int>, x: int, s: nat, blk: map<nat, int>)
  {
    && |lst| >= 1 && 0 <= x < |ms|
    && Linked(ms, Inserted(lst, x)) && Blocks(ms, cs, Inserted(lst, x), blk, -1)
    && SameTree(ns, ms, lst)
    && ms[x].weight == 1 && ms[x].symbol == s
  }

  lemma SharedInsert(ns: seq<Node>, cs: seq<int>, lst: seq<int>, blk: map<nat, int>, x: int, s: nat)
    requires Listed(ns, cs, lst, blk) && 0 <= x < |ns| && x !in lst
    requires |lst| >= 2 && ns[lst[|lst| - 2]].weight == 1
    ensures ns[lst[|lst| - 1]].next == lst[|lst| - 2]
    ensures Arrived(ns, InsertNodes(ns, lst[|lst| - 1], x, s, ns[lst[|lst| - 2]].cell), cs, lst, x, s, blk)
  {
    HeadNext(ns, lst);
    var ms := InsertNodes(ns, lst[|lst| - 1], x, s, ns[lst[|lst| - 2]].cell);
    InsertNodesFacts(ns, ms, lst, x, s, ns[lst[|lst| - 2]].cell);
    InsertLinked(ns, ms, lst, x);
    InsertShares(ns, ms, cs, lst, blk, x);
  }

  lemma FreshInsert(ns: seq<Node>, cs: seq<int>, lst: seq<int>, blk: map<nat, int>, x: int, s: nat, c: int)
    requires Listed(ns, cs, lst, blk) && 0 <= x < |ns| && x !in lst
    requires |lst| >= 2 ==> ns[lst[|lst| - 2]].weight != 1
    requires 0 <= c < |cs| && c !in blk.Values
    ensures 1 !in blk
    ensures ns[lst[|lst| - 1]].next == (if |lst| >= 2 then lst[|lst| - 2] else NIL)
    ensures Arrived(ns, InsertNodes(ns, lst[|lst| - 1], x, s, c), cs[c := x], lst, x, s, blk[1 := c])
  {
    HeadNext(ns, lst);
    var ms := InsertNodes(ns, lst[|lst| - 1], x, s, c);
    InsertNodesFacts(ns, ms, lst, x, s, c);
    InsertLinked(ns, ms, lst, x);
    StartsAlone(ns, lst, blk);
    InsertStarts(ns, ms, cs, lst, blk, x, c);
  }

  // ----- the binary tree

  /** `a` takes the place of the last node `h`, which becomes its left child, `b` its right. */
  ghost predicate Grafted(ns: seq<Node>, ms: seq<Node>, root2: int, ord: seq<int>, t: Tree, s: nat, a: int, b: int)
    requires |ord| == |t| >= 1 && Within(ord, |ns|) && |ms| == |ns| && 0 <= a < |ns| && 0 <= b < |ns|
  {
    var n, h := |t|, ord[|t| - 1];
    && ms[a].left == h && ms[a].right == b && ms[a].parent == ns[h].parent
    && ms[a].weight == 1 && ms[a].symbol == NODE_NEXT
    && ms[b].left == NIL && ms[b].right == NIL && ms[b].parent == a
    && ms[b].weight == 1 && ms[b].symbol == s
    && ms[h].parent == a
    && (forall i :: 0 <= i < n ==> ms[ord[i]].right == ns[ord[i]].right && ms[ord[i]].weight == ns[ord[i]].weight
                                   && ms[ord[i]].symbol == ns[ord[i]].symbol)
    && (forall i :: 0 <= i < n - 1 ==> ms[ord[i]].parent == ns[ord[i]].parent)
    && (forall i :: 0 <= i < n ==>
          ms[ord[i]].left == if ord[i] == ns[h].parent then a else ns[ord[i]].left)
    && (root2 == if n == 1 then a else ord[0])
  }

  ghost function Grown(ord: seq<int>, a: int, b: int): (o: seq<int>)
    requires |ord| >= 1
    ensures |o| == |ord| + 2
  {
    ord[..|ord| - 1] + [a, b, ord[|ord| - 1]]
  }

  lemma GraftedNode(ns: seq<Node>, ms: seq<Node>, root: int, root2: int, ord: seq<int>, t: Tree, s: nat,
                    a: int, b: int, z: nat)
    requires RepTree(ns, root, ord, t) && Structure(t) && Labelled(t) && OnlyNytIsZero(t)
    requires |ms| == |ns| && 0 <= a < |ns| && 0 <= b < |ns| && a !in ord && b !in ord && a != b
    requires Grafted(ns, ms, root2, ord, t, s, a, b) && z < |t|
    ensures Within(Grown(ord, a, b), |ms|)
    ensures NodeIs(ms, Grown(ord, a, b), Sprout(t, s), if z == |t| - 1 then |t| + 1 else z)
  {
    var n, o := |t|, Grown(ord, a, b);
    assert NodeIs(ns, ord, t, z);
    if n > 1 { ParentIs(ns, root, ord, t, n - 1); }
    if t[z].kind.Inner? {
      var c := t[z].kind.kid;
      assert o[c] == ord[c];
      assert c + 1 < n - 1 ==> o[c + 1] == ord[c + 1] && z != Parent(t, n - 1);
      assert c + 1 == n - 1 ==> z == Parent(t, n - 1);
    } else if n > 1 {
      assert z != Parent(t, n - 1);
    }
  }

  lemma GraftedRep(ns: seq<Node>, ms: seq<Node>, root: int, root2: int, ord: seq<int>, t: Tree, s: nat,
                   a: int, b: int)
    requires RepTree(ns, root, ord, t) && Structure(t) && Labelled(t) && OnlyNytIsZero(t)
    requires |ms| == |ns| && 0 <= a < |ns| && 0 <= b < |ns| && a !in ord && b !in ord && a != b
    requires Grafted(ns, ms, root2, ord, t, s, a, b)
    ensures RepTree(ms, root2, Grown(ord, a, b), Sprout(t, s))
  {
    var n, o, u := |t|, Grown(ord, a, b), Sprout(t, s);
    assert forall k :: 0 <= k < n ==> ord[k] in ord;
    assert Within(o, |ms|) && Distinct(o);
    forall z | 0 <= z < |u| ensures NodeIs(ms, o, u, z) {
      if z < n - 1 {
        GraftedNode(ns, ms, root, root2, ord, t, s, a, b, z);
      } else if z == n + 1 {
        GraftedNode(ns, ms, root, root2, ord, t, s, a, b, n - 1);
      }
    }
  }

  lemma GrownIsInserted(ord: seq<int>, a: int, b: int)
    requires |ord| >= 1
    ensures Inserted(Inserted(ord, a), b) == Grown(ord, a, b)
  {
  }

  lemma GrownLeaves(lf: seq<int>, ord: seq<int>, t: Tree, s: nat, a: int, b: int)
    requires |ord| == |t| >= 1 && LeafTable(lf, ord, t) && Labelled(t) && !Has(t, s) && s < 256
    ensures LeafTable(lf[s := b], Grown(ord, a, b), Sprout(t, s))
  {
    var o, u, n := Grown(ord, a, b), Sprout(t, s), |t|;
    forall i | 0 <= i < |u| && u[i].kind.Leaf?
      ensures u[i].kind.symbol < 256 && lf[s := b][u[i].kind.symbol] == o[i]
    {
      if i < n - 1 { assert u[i] == t[i] && t[i].kind != Leaf(s); }
    }
    forall x | 0 <= x < 256 && lf[s := b][x] != NIL ensures Has(u, x) {
      if x == s {
        assert u[n].kind == Leaf(s);
      } else {
        assert u[Find(t, x)] == t[Find(t, x)];
      }
    }
  }

  // ----- from one reference to the next

  lemma ListedAgain(ns: seq<Node>, ms: seq<Node>, cs: seq<int>, cs2: seq<int>, lst: seq<int>,
                    blk: map<nat, int>, blk2: map<nat, int>, x: int)
    requires Listed(ns, cs, lst, blk) && ns[lst[|lst| - 1]].weight == 0
    requires Arrived(ns, ms, cs2, lst, x, NODE_NEXT, blk2)
    ensures Listed(ms, cs2, Inserted(lst, x), blk2)
    ensures ms[Inserted(lst, x)[|lst| - 1]].weight == 1
  {
    var l2, n := Inserted(lst, x), |lst|;
    forall k | 0 <= k < n - 1 ensures ms[l2[k]].weight == ns[lst[k]].weight > 0 {
      WeightAgain(ns, ms, lst, x, k);
    }
    WeightAgain(ns, ms, lst, x, n - 1);
    forall k, l | 0 <= k < l < |l2| ensures ms[l2[k]].weight >= ms[l2[l]].weight {
    }
  }

  lemma WeightAgain(ns: seq<Node>, ms: seq<Node>, lst: seq<int>, x: int, k: nat)
    requires k < |lst| && SameTree(ns, ms, lst) && 0 <= x < |ms|
    ensures Within(Inserted(lst, x), |ms|)
    ensures var l2 := Inserted(lst, x);
      if k < |lst| - 1 then ms[l2[k]].weight == ns[lst[k]].weight
      else ms[l2[k]].weight == ms[x].weight && ms[l2[k + 1]].weight == ns[lst[k]].weight
  {
    InsertedAt(lst, x, k);
    InsertedAt(lst, x, |lst|);
    assert ms[lst[k]].weight == ns[lst[k]].weight;
    forall p | p in Inserted(lst, x) ensures 0 <= p < |ms| {
    }
  }

  lemma ListedFrom(ns: seq<Node>, cs: seq<int>, root: int, ord: seq<int>, t: Tree, blk: map<nat, int>)
    requires RepTree(ns, root, ord, t) && Inv(t) && Linked(ns, ord) && Blocks(ns, cs, ord, blk, -1)
    ensures Listed(ns, cs, ord, blk) && ns[ord[|ord| - 1]].weight == 0
  {
    forall k | 0 <= k < |ord| ensures ns[ord[k]].weight == t[k].weight {
      assert NodeIs(ns, ord, t, k);
    }
  }

  lemma TreeKeptIn(ns: seq<Node>, ms: seq<Node>, root: int, ord: seq<int>, t: Tree)
    requires RepTree(ns, root, ord, t) && SameTree(ns, ms, ord)
    ensures RepTree(ms, root, ord, t)
  {
    assert ord[0] == root;
    forall i | 0 <= i < |t| ensures NodeIs(ms, ord, t, i) {
      assert NodeIs(ns, ord, t, i);
      if t[i].kind.Inner? {
        assert ms[ord[t[i].kind.kid]].parent == ns[ord[t[i].kind.kid]].parent;
        assert ms[ord[t[i].kind.kid + 1]].parent == ns[ord[t[i].kind.kid + 1]].parent;
      }
    }
  }

  lemma SameTreeTwice(ns: seq<Node>, ms: seq<Node>, zs: seq<Node>, lst: seq<int>, x: int)
    requires |lst| >= 1 && 0 <= x < |ns|
    requires SameTree(ns, ms, lst) && SameTree(ms, zs, Inserted(lst, x))
    ensures SameTree(ns, zs, lst)
    ensures zs[x] == ms[x].(next := zs[x].next, prev := zs[x].prev)
  {
    var l2, n := Inserted(lst, x), |lst|;
    assert l2[n - 1] == x && l2[n] == lst[n - 1];
    forall k | 0 <= k < n ensures zs[lst[k]] == ns[lst[k]].(next := zs[lst[k]].next, prev := zs[lst[k]].prev) {
      if k < n - 1 { assert l2[k] == lst[k]; }
    }
  }

  /** The nodes once `a` has taken the place of `h` under its parent `c`, with children `h` and `b`. */
  function GraftNodes(ns: seq<Node>, h: int, a: int, b: int, c: int): (ms: seq<Node>)
    requires 0 <= h < |ns| && 0 <= a < |ns| && 0 <= b < |ns| && (c == NIL || 0 <= c < |ns|)
    ensures |ms| == |ns|
  {
    var m1 := if c == NIL then ns else ns[c := ns[c].(left := a)];
    var m2 := m1[a := m1[a].(right := b, left := h, parent := c)];
    var m3 := m2[b := m2[b].(left := NIL, right := NIL, parent := a)];
    m3[h := m3[h].(parent := a)]
  }

  ghost predicate Graftable(ns: seq<Node>, root: int, ord: seq<int>, t: Tree, s: nat, a: int, b: int) {
    && RepTree(ns, root, ord, t) && Structure(t) && Labelled(t) && OnlyNytIsZero(t)
    && 0 <= a < |ns| && 0 <= b < |ns| && a !in ord && b !in ord && a != b
    && ns[a].weight == 1 && ns[a].symbol == NODE_NEXT
    && ns[b].weight == 1 && ns[b].symbol == s
  }

  /** The last node is the left child of its parent, unless it is the root. */
  lemma LastNodeParent(ns: seq<Node>, root: int, ord: seq<int>, t: Tree)
    requires RepTree(ns, root, ord, t) && Structure(t)
    ensures var h := ord[|t| - 1];
      && (|t| == 1 <==> ns[h].parent == NIL)
      && (|t| > 1 ==> 0 <= ns[h].parent < |ns| && ns[h].parent in ord && ns[h].parent != h
                      && ns[ns[h].parent].left == h)
  {
    if |t| > 1 { ParentIs(ns, root, ord, t, |t| - 1); }
  }

  lemma GraftDone(ns: seq<Node>, root: int, ord: seq<int>, t: Tree, s: nat, a: int, b: int)
    requires Graftable(ns, root, ord, t, s, a, b)
    ensures var h := ord[|t| - 1]; ns[h].parent == NIL || 0 <= ns[h].parent < |ns|
    ensures RepTree(GraftNodes(ns, ord[|t| - 1], a, b, ns[ord[|t| - 1]].parent),
                    if |t| == 1 then a else root, Grown(ord, a, b), Sprout(t, s))
  {
    var h := ord[|t| - 1];
    LastNodeParent(ns, root, ord, t);
    assert forall k :: 0 <= k < |ord| ==> ord[k] in ord;
    GraftedRep(ns, GraftNodes(ns, h, a, b, ns[h].parent), root, if |t| == 1 then a else root, ord, t, s, a, b);
  }

  lemma GraftKeepsList(ns: seq<Node>, ms: seq<Node>, cs: seq<int>, lst: seq<int>, blk: map<nat, int>)
    requires Linked(ns, lst) && Blocks(ns, cs, lst, blk, -1) && SameButTree(ns, ms)
    ensures Linked(ms, lst) && Blocks(ms, cs, lst, blk, -1)
  {
    ListKept(ns, ms, lst);
    BlocksKept(ns, ms, cs, lst, blk, -1);
  }

  // ----- what one reference does to the view

  lemma KnownStart(ns: seq<Node>, cs: seq<int>, lf: seq<int>, root: int, count: int, free: int, v: View, s: nat)
    requires RepView(ns, cs, root, count, free, v) && LeafTable(lf, v.ord, v.t) && Inv(v.t) && !v.flip
    requires s < 256 && lf[s] != NIL
    ensures Has(v.t, s) && lf[s] == v.ord[Find(v.t, s)]
    ensures Ready(v.t, Find(v.t, s)) && Mode(v.t, Find(v.t, s), false) && |v.t| <= 513
  {
    LeafReady(v.t, Find(v.t, s));
    if |v.t| >= 3 { assert v.t[|v.t| - 3].kind.Inner?; }
    TreeSize(v.t);
  }

  lemma IncrementKeepsRange(t: Tree, ord: seq<int>, q: nat, n: int)
    requires Ready(t, q) && |ord| == |t| && Within(ord, n)
    ensures Within(IncrementOrd(t, ord, q), n)
    ensures IncrementOrd(t, ord, q)[|t| - 1] == ord[|t| - 1]
  {
    IncrementOrdKeeps(t, ord, q);
  }

  lemma NewByte(lf: seq<int>, v: View, n: int, s: nat)
    requires |v.ord| == |v.t| && Within(v.ord, n) && LeafTable(lf, v.ord, v.t) && Inv(v.t) && s < 256 && lf[s] == NIL
    ensures !Has(v.t, s) && |v.t| <= 511
  {
    assert forall i :: 0 <= i < |v.t| && v.t[i].kind.Leaf? ==> lf[v.t[i].kind.symbol] == v.ord[i] >= 0;
    TreeSize(v.t);
  }

  lemma NewStart(ns: seq<Node>, cs: seq<int>, lf: seq<int>, root: int, count: int, free: int, v: View, s: nat)
    requires RepView(ns, cs, root, count, free, v) && LeafTable(lf, v.ord, v.t) && Inv(v.t) && !v.flip
    requires s < 256 && lf[s] == NIL
    ensures !Has(v.t, s) && |v.t| <= 511
    ensures Listed(ns, cs, v.ord, v.blk) && ns[v.ord[|v.ord| - 1]].weight == 0
  {
    NewByte(lf, v, |ns|, s);
    ListedFrom(ns, cs, root, v.ord, v.t, v.blk);
  }

  lemma NewGraftable(ns: seq<Node>, ms: seq<Node>, zs: seq<Node>, root: int, ord: seq<int>, t: Tree, s: nat,
                     a: int, b: int)
    requires RepTree(ns, root, ord, t) && Inv(t) && 0 <= a < |ns| && 0 <= b < |ns|
    requires a !in ord && b !in ord && a != b
    requires SameTree(ns, ms, ord) && SameTree(ms, zs, Inserted(ord, a))
    requires ms[a].weight == 1 && ms[a].symbol == NODE_NEXT && zs[b].weight == 1 && zs[b].symbol == s
    ensures Graftable(zs, root, ord, t, s, a, b)
  {
    SameTreeTwice(ns, ms, zs, ord, a);
    TreeKeptIn(ns, zs, root, ord, t);
  }

  lemma SproutParent(ns: seq<Node>, root: int, v: View, t: Tree, ord: seq<int>, s: nat, a: int, b: int)
    requires Inv(t) && s < 256 && !Has(t, s) && |ord| == |t|
    requires v.t == Sprout(t, s) && v.ord == Grown(ord, a, b)
    requires RepTree(ns, root, v.ord, v.t)
    ensures 0 <= a < |ns| && (ns[a].parent == NIL <==> |t| == 1)
    ensures |t| > 1 ==> ns[a].parent == v.ord[|t| - 3]
  {
    SproutReady(t, s);
    SproutStructure(t, s);
    assert v.ord[|t| - 1] == a;
    ParentTest(ns, root, v.ord, v.t, |t| - 1);
    if |t| > 1 {
      assert v.t[|t| - 3] == t[|t| - 3];
      assert Parent(v.t, |t| - 1) == |t| - 3;
    }
  }

  /** The memory represents the view, with leaf table, node count and list head. */
  ghost predicate Settled(ns: seq<Node>, cs: seq<int>, lf: seq<int>, root: int, count: int, free: int,
                          used: int, head: int, v: View)
  {
    && RepView(ns, cs, root, count, free, v)
    && LeafTable(lf, v.ord, v.t)
    && used == |v.t| && Within(v.ord, used)
    && head == v.ord[|v.t| - 1]
  }

  /** What holds between two references, but for the array sizes. */
  ghost predicate Whole(ns: seq<Node>, cs: seq<int>, lf: seq<int>, root: int, count: int, free: int,
                        used: int, head: int, v: View)
  {
    Inv(v.t) && !v.flip && Settled(ns, cs, lf, root, count, free, used, head, v)
  }

  /** `w` is what an increment from `q` makes of `v`. */
  ghost predicate Incremented(v: View, w: View, q: nat) {
    && Ready(v.t, q) && |v.ord| == |v.t| && !v.flip
    && w.t == Increment(v.t, q) && w.ord == IncrementOrd(v.t, v.ord, q) && w.flip == v.flip
  }

  lemma IncrementedLeaves(lf: seq<int>, v: View, w: View, q: nat)
    requires Incremented(v, w, q) && LeafTable(lf, v.ord, v.t)
    ensures |w.ord| == |w.t| && LeafTable(lf, w.ord, w.t)
  {
    IncrementLeaves(lf, v.t, v.ord, q);
  }

  lemma IncrementedSize(v: View, w: View, q: nat)
    requires Incremented(v, w, q)
    ensures |w.ord| == |w.t| == |v.t|
  {
    assert |Increment(v.t, q)| == |v.t|;
  }

  lemma IncrementedRange(v: View, w: View, q: nat, used: int, last: nat)
    requires Incremented(v, w, q) && Within(v.ord, used) && last == |v.t| - 1 && |w.ord| == |v.t|
    ensures Within(w.ord, used) && w.ord[last] == v.ord[last]
  {
    IncrementKeepsRange(v.t, v.ord, q, used);
  }

  lemma IncrementedInv(v: View, w: View, q: nat)
    requires Incremented(v, w, q)
    ensures Inv(w.t)
  {
    IncrementInv(v.t, q);
  }

  lemma AfterIncrement(ns: seq<Node>, cs: seq<int>, lf: seq<int>, root: int, count: int, free: int,
                       used: int, head: int, v: View, w: View, q: nat)
    requires Incremented(v, w, q) && LeafTable(lf, v.ord, v.t)
    requires Within(v.ord, used) && used == |v.t| && head == v.ord[|v.t| - 1]
    requires RepView(ns, cs, root, count, free, w)
    ensures Whole(ns, cs, lf, root, count, free, used, head, w)
  {
    IncrementedLeaves(lf, v, w, q);
    IncrementedSize(v, w, q);
    IncrementedRange(v, w, q, used, |v.t| - 1);
    IncrementedInv(v, w, q);
  }

  lemma InsertedMisses(lst: seq<int>, a: int, b: int)
    requires |lst| >= 1 && a != b && b !in lst
    ensures b !in Inserted(lst, a) && Inserted(lst, a)[|lst|] == lst[|lst| - 1]
  {
    forall k | 0 <= k < |lst| + 1 ensures Inserted(lst, a)[k] != b {
      InsertedAt(lst, a, k);
    }
  }

  lemma BothLinked(ns: seq<Node>, ms: seq<Node>, zs: seq<Node>, cs: seq<int>, root: int, v: View,
                   blk: map<nat, int>, s: nat, a: int, b: int)
    requires RepTree(ns, root, v.ord, v.t) && Inv(v.t) && 0 <= b < |ns|
    requires a !in v.ord && b !in v.ord && a != b
    requires Arrived(ns, ms, cs, v.ord, a, NODE_NEXT, blk)
    requires Arrived(ms, zs, cs, Inserted(v.ord, a), b, s, blk)
    ensures Linked(zs, Grown(v.ord, a, b)) && Blocks(zs, cs, Grown(v.ord, a, b), blk, -1)
    ensures Graftable(zs, root, v.ord, v.t, s, a, b)
  {
    NewGraftable(ns, ms, zs, root, v.ord, v.t, s, a, b);
    GrownIsInserted(v.ord, a, b);
  }

  lemma SproutSettled(ns: seq<Node>, cs: seq<int>, lf: seq<int>, root: int, count: int, free: int,
                      used: int, head: int, v: View, w: View, s: nat, a: int, b: int)
    requires Inv(v.t) && s < 256 && !Has(v.t, s) && |v.ord| == |v.t|
    requires LeafTable(lf, v.ord, v.t) && Within(v.ord, used) && used == |v.t| && head == v.ord[|v.t| - 1]
    requires b == used && a == used + 1
    requires w.t == Sprout(v.t, s) && w.ord == Grown(v.ord, a, b)
    requires RepView(ns, cs, root, count, free, w)
    ensures Settled(ns, cs, lf[s := b], root, count, free, used + 2, head, w)
    ensures 0 <= a < |ns| && (|v.t| == 1 ==> ns[a].parent == NIL)
    ensures |v.t| > 1 ==> ns[a].parent == w.ord[|v.t| - 3]
  {
    GrownLeaves(lf, v.ord, v.t, s, a, b);
    SproutParent(ns, root, w, v.t, v.ord, s, a, b);
  }
}
