/** The linked list of peers of src/peer.c. */
module PeerList {
  import opened Challenges
  import opened Peers
  import opened Seqs

  class Node {
    var peer: Peer
    var next: Node?

    constructor (peer: Peer, next: Node?)
      ensures this.peer == peer && this.next == next
    {
      this.peer, this.next := peer, next;
    }
  }

  function At(list: seq<Node>, i: nat): Node? {
    if i < |list| then list[i] else null
  }

  /** What a node holds. */
  datatype Cell = Cell(peer: Peer, next: Node?)

  ghost function Cells(list: seq<Node>): (m: seq<Cell>)
    reads list
    ensures |m| == |list| && forall i :: 0 <= i < |list| ==> m[i] == Cell(list[i].peer, list[i].next)
  {
    seq(|list|, i requires 0 <= i < |list| reads list => Cell(list[i].peer, list[i].next))
  }

  ghost function PeersIn(m: seq<Cell>): (ps: seq<Peer>)
    ensures |ps| == |m| && forall i :: 0 <= i < |m| ==> ps[i] == m[i].peer
  {
    seq(|m|, i requires 0 <= i < |m| => m[i].peer)
  }

  ghost predicate Linked(first: Node?, list: seq<Node>, m: seq<Cell>) {
    && |m| == |list| && first == At(list, 0)
    && (forall i :: 0 <= i < |list| ==> m[i].next == At(list, i + 1))
  }

  ghost predicate Distinct(list: seq<Node>) {
    forall i, j :: 0 <= i < j < |list| ==> list[i] != list[j]
  }

  ghost predicate Owned(list: seq<Node>, nodes: set<Node>) {
    forall i :: 0 <= i < |list| ==> list[i] in nodes
  }

  /** The nodes with the one at `i` skipped by the one before it. */
  ghost function Skipped(m: seq<Cell>, i: nat): (r: seq<Cell>)
    requires i < |m|
    ensures |r| == |m|
  {
    if i == 0 then m else m[i - 1 := m[i - 1].(next := m[i].next)]
  }

  lemma CutLinked(first: Node?, list: seq<Node>, m: seq<Cell>, i: nat)
    requires Linked(first, list, m) && i < |list|
    ensures Linked(if i == 0 then m[0].next else first, Without(list, i), Without(Skipped(m, i), i))
    ensures PeersIn(Without(Skipped(m, i), i)) == Without(PeersIn(m), i)
  {
  }

  lemma WithoutDistinct(list: seq<Node>, nodes: set<Node>, i: nat)
    requires Distinct(list) && Owned(list, nodes) && i < |list|
    ensures Distinct(Without(list, i)) && Owned(Without(list, i), nodes)
  {
  }

  lemma ConsLinked(first: Node?, list: seq<Node>, p: Node)
    requires Linked(first, list, Cells(list)) && Distinct(list) && p.next == first && p !in list
    ensures Linked(p, [p] + list, Cells([p] + list)) && Distinct([p] + list)
    ensures PeersIn(Cells([p] + list)) == [p.peer] + PeersIn(Cells(list))
  {
    ConsCells(list, p);
    ConsPeers(Cells(list), Cell(p.peer, p.next));
  }

  lemma ConsCells(list: seq<Node>, p: Node)
    ensures Cells([p] + list) == [Cell(p.peer, p.next)] + Cells(list)
  {
  }

  lemma ConsPeers(m: seq<Cell>, c: Cell)
    ensures PeersIn([c] + m) == [c.peer] + PeersIn(m)
  {
  }

  lemma AtWithout(list: seq<Node>, i: nat)
    requires i < |list|
    ensures At(Without(list, i), i) == At(list, i + 1)
  {
  }

  lemma WithoutCells(list: seq<Node>, i: nat, m: seq<Cell>)
    requires i < |list| && m == Cells(list)
    ensures Cells(Without(list, i)) == Without(m, i)
  {
  }

  lemma TimeOutsStep(ps: seq<Peer>, now: int, fine: real, j: nat, k: nat)
    requires k == j + 1 <= |ps|
    ensures (TimeOuts(ps[..j], now, fine) + ps[j..])[j := TimeOut(ps[j], now, fine)]
         == TimeOuts(ps[..k], now, fine) + ps[k..]
    ensures Probes(ps[..k], now, fine) == Probes(ps[..j], now, fine)
      + if Probed(ps[j], now, fine) then [Probe(ps[j].sock, ps[j].to, ps[j].qport)] else []
  {
    assert ps[..k][..j] == ps[..j];
  }

  lemma ClosedStep(open: set<int>, ps: seq<Peer>, j: nat, k: nat)
    requires k == j + 1 <= |ps|
    ensures Closed(open, ps[..k])
         == if ps[j].ps.Drop? then Closing(Closed(open, ps[..j]), ps[j].sock) else Closed(open, ps[..j])
  {
    assert ps[..k][..j] == ps[..j];
  }

  /** The list when the drop pass has seen the first `j` peers, and how many of them stay. */
  ghost function Passed(ps: seq<Peer>, j: nat): (r: seq<Peer>)
    requires j <= |ps|
    ensures |r| == Staying(ps, j) + |ps| - j
  {
    Kept(ps[..j]) + ps[j..]
  }

  ghost function Staying(ps: seq<Peer>, j: nat): nat
    requires j <= |ps|
  {
    |Kept(ps[..j])|
  }

  lemma PassedEnds(ps: seq<Peer>)
    ensures Passed(ps, 0) == ps && Staying(ps, 0) == 0 && Passed(ps, |ps|) == Kept(ps)
  {
    assert ps[..|ps|] == ps;
  }

  lemma PassedAll(ps: seq<Peer>, j: nat, h: nat, r: seq<Peer>)
    requires j <= |ps| && h == Staying(ps, j) && r == Passed(ps, j) && h >= |r|
    ensures ps[..j] == ps && r == Kept(ps)
  {
    assert j == |ps|;
    PassedEnds(ps);
  }

  /** What the drop pass does with the peer at `j`, which now stands at `h`. */
  lemma PassedStep(ps: seq<Peer>, j: nat, k: nat, h: nat)
    requires k == j + 1 <= |ps| && h == Staying(ps, j)
    ensures Passed(ps, j)[h] == ps[j]
    ensures Passed(ps, k) == if ps[j].ps.Drop? then Without(Passed(ps, j), h) else Passed(ps, j)
    ensures Staying(ps, k) == if ps[j].ps.Drop? then h else h + 1
  {
    assert ps[..k][..j] == ps[..j];
    assert ps[j..] == [ps[j]] + ps[k..];
  }

  class PeerList {
    var first: Node?

    /** The sockets that the system keeps open for peers. */
    var open: set<int>

    ghost var list: seq<Node>
    ghost var nodes: set<Node>

    ghost predicate Valid()
      reads this, list
    {
      Linked(first, list, Cells(list)) && Distinct(list) && Owned(list, nodes)
    }

    ghost function Contents(): (ps: seq<Peer>)
      reads this, list
      ensures |ps| == |list|
    {
      PeersIn(Cells(list))
    }

    constructor ()
      ensures Valid() && list == [] && nodes == {} && open == {}
    {
      first, open, list, nodes := null, {}, [], {};
    }

    /** NET_UDP_OpenSocket */
    method OpenSocket(sock: int)
      requires Valid()
      modifies this`open
      ensures Valid() && open == old(open) + {sock}
    {
      open := open + {sock};
    }

    /** FWD_peer_by_addr */
    method Find(from: Address) returns (p: Node?)
      requires Valid()
      ensures p == At(list, Lookup(Contents(), 0, from))
    {
      ghost var i, ps := 0, Contents();
      p := first;
      while p != null && p.peer.from != from
        invariant i <= |list| && p == At(list, i) && Lookup(ps, i, from) == Lookup(ps, 0, from)
        decreases |list| - i
      {
        p := p.next;
        i := i + 1;
      }
    }

    /** FWD_peers_count */
    method Count() returns (n: nat)
      requires Valid()
      ensures n == |Contents()|
    {
      n := 0;
      var p := first;
      while p != null
        invariant n <= |list| && p == At(list, n)
        decreases |list| - n
      {
        n := n + 1;
        p := p.next;
      }
    }

    /** A new peer goes to the front. */
    method Push(peer: Peer)
      requires Valid()
      modifies this`first, this`list, this`nodes
      ensures Valid() && Contents() == [peer] + old(Contents()) && fresh(nodes - old(nodes))
    {
      ghost var l := list;
      var p := new Node(peer, first);
      ConsLinked(first, l, p);
      first := p;
      list, nodes := [p] + l, nodes + {p};
    }

    /** The fields of one peer change. */
    method Update(p: Node, peer: Peer, ghost i: nat)
      requires Valid() && i < |list| && p == list[i]
      modifies p`peer
      ensures Valid() && Contents() == old(Contents())[i := peer]
    {
      ghost var ps := Contents();
      p.peer := peer;
      assert Contents() == ps[i := peer];
    }

    /** FWD_peer_free: the loop that looks for the peer, and the one before it. */
    method Before(peer: Node, ghost i: nat) returns (prev: Node?)
      requires Valid() && i < |list| && peer == list[i]
      ensures prev == if i == 0 then null else list[i - 1]
    {
      prev := null;
      var current := first;
      ghost var j := 0;
      while current != null && peer != current
        invariant j <= i && current == list[j] && prev == (if j == 0 then null else list[j - 1])
        decreases i - j
      {
        assert Cells(list)[j].next == At(list, j + 1);
        prev := current;
        current := current.next;
        j := j + 1;
      }
    }

    /** FWD_peer_free: the peer is unlinked and its socket closed. */
    method Free(peer: Node, ghost i: nat)
      requires Valid() && i < |list| && peer == list[i]
      modifies this, nodes
      ensures Valid() && nodes == old(nodes) && Contents() == Without(old(Contents()), i)
      ensures list == Without(old(list), i) && open == Closing(old(open), old(peer.peer.sock))
    {
      var sock := peer.peer.sock;
      Unlink(peer, i);
      CloseSocket(sock);
    }

    /** closesocket, unless the peer has none: zero is the standard input */
    method CloseSocket(sock: int)
      requires Valid()
      modifies this`open
      ensures Valid() && Contents() == old(Contents()) && open == Closing(old(open), sock)
    {
      if sock != STDIN { open := open - {sock}; }
    }

    method Unlink(peer: Node, ghost i: nat)
      requires Valid() && i < |list| && peer == list[i]
      modifies this`first, this`list, nodes
      ensures Valid() && Contents() == Without(old(Contents()), i) && list == Without(old(list), i)
    {
      var prev := Before(peer, i);
      ghost var m, l := Cells(list), list;
      CutLinked(first, l, m, i);
      WithoutDistinct(l, nodes, i);
      Cut(peer, prev, i, m);
      ghost var m2 := Skipped(m, i);
      WithoutCells(l, i, m2);
      ghost var l2, m3 := Without(l, i), Without(m2, i);
      Relist(l2);
    }

    ghost method Relist(l2: seq<Node>)
      requires Linked(first, l2, Cells(l2)) && Distinct(l2) && (forall n :: n in l2 ==> n in nodes)
      modifies this`list
      ensures Valid() && list == l2
    {
      list := l2;
      assert Cells(list) == old(Cells(l2));
    }

    method Cut(peer: Node, prev: Node?, ghost i: nat, ghost m: seq<Cell>)
      requires Valid() && i < |list| && peer == list[i] && prev == if i == 0 then null else list[i - 1]
      requires m == Cells(list)
      modifies this`first, nodes
      ensures first == if i == 0 then m[0].next else old(first)
      ensures Cells(list) == Skipped(m, i)
    {
      if prev != null { prev.next := peer.next; } else { first := peer.next; }
      assert Cells(list) == Skipped(m, i);
    }

    /** One peer is checked, and its server perhaps asked for a sign of life. */
    method CheckOne(p: Node, now: int, fine: real, ghost i: nat, ghost j: nat)
      returns (next: Node?, probes: seq<Probe>)
      requires Valid() && i < |list| && p == list[i] && j == i + 1
      modifies nodes
      ensures Valid() && next == At(list, j)
      ensures Contents() == old(Contents())[i := TimeOut(old(Contents())[i], now, fine)]
      ensures var q := old(Contents())[i];
        probes == if Probed(q, now, fine) then [Probe(q.sock, q.to, q.qport)] else []
    {
      ghost var ps := Contents();
      assert ps[i] == p.peer && Cells(list)[i].next == At(list, j);
      next, probes := p.next, [];
      var q := p.peer;
      if q.proto == Q3 {
        if now - q.last > 1 && fine - q.checked > 0.05 && q.ps == Online {
          q := q.(checked := fine);
          probes := [Probe(q.sock, q.to, q.qport)];
        }
      }
      if now - q.last >= TIMEOUT { q := q.(ps := Drop); }
      Update(p, q, i);
    }

    /** One turn of FWD_check_timeout. */
    method CheckNext(p: Node, now: int, fine: real, ghost ps: seq<Peer>, ghost j0: nat, ghost j: nat)
      returns (next: Node?, probes: seq<Probe>)
      requires Valid() && j == j0 + 1 <= |ps| == |list| && p == list[j0]
      requires Contents() == TimeOuts(ps[..j0], now, fine) + ps[j0..]
      modifies nodes
      ensures Valid() && next == At(list, j) && Contents() == TimeOuts(ps[..j], now, fine) + ps[j..]
      ensures Probes(ps[..j], now, fine) == Probes(ps[..j0], now, fine) + probes
    {
      TimeOutsStep(ps, now, fine, j0, j);
      assert Contents()[j0] == ps[j0];
      next, probes := CheckOne(p, now, fine, j0, j);
    }

    /** FWD_check_timeout */
    method CheckTimeout(now: int, fine: real) returns (probes: seq<Probe>)
      requires Valid()
      modifies nodes
      ensures Valid() && Contents() == TimeOuts(old(Contents()), now, fine)
      ensures probes == Probes(old(Contents()), now, fine)
    {
      ghost var j, ps := 0, Contents();
      var p := first;
      probes := [];
      while p != null
        invariant Valid() && j <= |list| && p == At(list, j)
        invariant Contents() == TimeOuts(ps[..j], now, fine) + ps[j..] && probes == Probes(ps[..j], now, fine)
        decreases |list| - j
      {
        ghost var j0 := j;
        j := j + 1;
        var more;
        p, more := CheckNext(p, now, fine, ps, j0, j);
        probes := probes + more;
      }
      assert ps[..j] == ps;
    }

    /** One peer is dropped or passed by; the result is the next one. */
    method DropOne(p: Node, ghost h: nat, ghost q: Peer) returns (next: Node?, ghost h2: nat)
      requires Valid() && h < |list| && p == list[h] && q == Contents()[h]
      modifies this, nodes
      ensures Valid() && nodes == old(nodes) && next == At(list, h2)
      ensures h2 == if q.ps.Drop? then h else h + 1
      ensures Contents() == if q.ps.Drop? then Without(old(Contents()), h) else old(Contents())
      ensures open == if q.ps.Drop? then Closing(old(open), q.sock) else old(open)
    {
      ghost var l := list;
      assert Cells(l)[h].next == At(l, h + 1) && p.peer == q;
      next := p.next;
      if p.peer.ps == Drop {
        Free(p, h);
        AtWithout(l, h);
        h2 := h;
      } else {
        h2 := h + 1;
      }
    }

    /** One turn of FWD_check_drop, which has seen `j0` peers and kept `h` of them. */
    method DropNext(p: Node, ghost ps: seq<Peer>, ghost o: set<int>, ghost j0: nat, ghost j: nat, ghost h: nat)
      returns (next: Node?, ghost h2: nat)
      requires Valid() && j == j0 + 1 <= |ps| && h == Staying(ps, j0) < |list| && p == list[h]
      requires Contents() == Passed(ps, j0) && open == Closed(o, ps[..j0])
      modifies this, nodes
      ensures Valid() && nodes == old(nodes) && h2 == Staying(ps, j) && next == At(list, h2)
      ensures Contents() == Passed(ps, j) && open == Closed(o, ps[..j])
    {
      PassedStep(ps, j0, j, h);
      ClosedStep(o, ps, j0, j);
      next, h2 := DropOne(p, h, ps[j0]);
    }

    /** FWD_check_drop */
    method CheckDrop()
      requires Valid()
      modifies this, nodes
      ensures Valid() && nodes == old(nodes) && Contents() == Kept(old(Contents()))
      ensures open == Closed(old(open), old(Contents()))
    {
      ghost var j, h, ps, o := 0, 0, Contents(), open;
      PassedEnds(ps);
      var p := first;
      while p != null
        invariant Valid() && nodes == old(nodes) && j <= |ps| && h == Staying(ps, j) && p == At(list, h)
        invariant Contents() == Passed(ps, j) && open == Closed(o, ps[..j])
        decreases |ps| - j
      {
        ghost var j0 := j;
        j := j + 1;
        p, h := DropNext(p, ps, o, j0, j, h);
      }
      PassedAll(ps, j, h, Contents());
    }
  }
}
