module Peers {
  /* The peers of src/peer.c as a sequence, the newest first. */

  import opened Challenges

  datatype PeerState = Drop | Challenge | Online

  datatype Peer = Peer(
    from: Address, to: Address, sock: int, ps: PeerState, proto: Protocol, qport: int,
    userid: nat, last: int, connect: int, challenge: int, checked: real, userinfo: string)

  const TIMEOUT := 15
  const STDIN := 0
  const INVALID_SOCKET := -1

  /** FWD_peer_by_addr from position `i` on. */
  function Lookup(ps: seq<Peer>, i: nat, from: Address): (j: nat)
    requires i <= |ps|
    ensures i <= j <= |ps| && (j < |ps| ==> ps[j].from == from)
    ensures forall k :: i <= k < j ==> ps[k].from != from
    decreases |ps| - i
  {
    if i == |ps| || ps[i].from == from then i else Lookup(ps, i + 1, from)
  }

  /** What FWD_peer_new is asked for, once the host is resolved and allowed: `sock` is the
      socket the system hands out for a new peer. */
  datatype Admission = Admission(
    from: Address, to: Address, qport: int, proto: Protocol, userinfo: string, now: int, sock: int)

  /** A peer that is there already is used again; a Q3 peer keeps its state. */
  function Reused(p: Peer, a: Admission): Peer {
    p.(from := a.from, to := a.to, ps := if a.proto == Q3 then p.ps else Challenge,
       qport := a.qport, proto := a.proto, userinfo := a.userinfo, last := a.now)
  }

  function Fresh(a: Admission, userid: nat): Peer {
    Peer(a.from, a.to, a.sock, Challenge, a.proto, a.qport, userid, a.now, 0, 0, 0.0, a.userinfo)
  }

  predicate CanAdmit(ps: seq<Peer>, a: Admission, maxclients: int) {
    Lookup(ps, 0, a.from) < |ps| || (|ps| < maxclients && a.sock != INVALID_SOCKET)
  }

  /** FWD_peer_new */
  function Admitted(ps: seq<Peer>, a: Admission, userid: nat): (r: seq<Peer>) {
    var i := Lookup(ps, 0, a.from);
    if i < |ps| then ps[i := Reused(ps[i], a)] else [Fresh(a, userid + 1)] + ps
  }

  predicate TimedOut(p: Peer, now: int) {
    now - p.last >= TIMEOUT
  }

  /** A connected Q3 server is asked for a sign of life when its client has been silent for
      more than a second, at most every twentieth of a second. */
  predicate Probed(p: Peer, now: int, fine: real) {
    p.proto == Q3 && now - p.last > 1 && fine - p.checked > 0.05 && p.ps == Online
  }

  function TimeOut(p: Peer, now: int, fine: real): Peer {
    var q := if Probed(p, now, fine) then p.(checked := fine) else p;
    if TimedOut(p, now) then q.(ps := Drop) else q
  }

  /** FWD_check_timeout */
  function TimeOuts(ps: seq<Peer>, now: int, fine: real): (r: seq<Peer>)
    ensures |r| == |ps| && forall i :: 0 <= i < |ps| ==> r[i] == TimeOut(ps[i], now, fine)
  {
    seq(|ps|, i requires 0 <= i < |ps| => TimeOut(ps[i], now, fine))
  }

  /** A packet to a server that says no more than who it comes from. */
  datatype Probe = Probe(sock: int, to: Address, qport: int)

  function Probes(ps: seq<Peer>, now: int, fine: real): (r: seq<Probe>)
    ensures forall x :: x in r ==> exists p :: p in ps && Probed(p, now, fine) && x == Probe(p.sock, p.to, p.qport)
  {
    if ps == [] then []
    else
      var n := |ps| - 1;
      var p := ps[n];
      Probes(ps[..n], now, fine) + if Probed(p, now, fine) then [Probe(p.sock, p.to, p.qport)] else []
  }

  /** FWD_check_drop */
  function Kept(ps: seq<Peer>): (r: seq<Peer>)
    ensures forall p :: p in r <==> p in ps && !p.ps.Drop?
    ensures |r| <= |ps|
  {
    if ps == [] then []
    else if ps[|ps| - 1].ps.Drop? then Kept(ps[..|ps| - 1])
    else Kept(ps[..|ps| - 1]) + [ps[|ps| - 1]]
  }

  function Sockets(ps: seq<Peer>): set<int> {
    set p | p in ps :: p.sock
  }

  /** FWD_peer_free closes a socket, unless it is stdin's. */
  function Closing(open: set<int>, sock: int): set<int> {
    if sock != STDIN then open - {sock} else open
  }

  /** The open sockets after FWD_check_drop has freed the peers to be dropped, one by one. */
  function Closed(open: set<int>, ps: seq<Peer>): set<int> {
    if ps == [] then open
    else
      var n := |ps| - 1;
      var o := Closed(open, ps[..n]);
      if ps[n].ps.Drop? then Closing(o, ps[n].sock) else o
  }

  // ----- what every step keeps

  ghost predicate DistinctFrom(ps: seq<Peer>) {
    forall i, j :: 0 <= i < j < |ps| ==> ps[i].from != ps[j].from
  }

  ghost predicate DistinctSockets(ps: seq<Peer>) {
    forall i, j :: 0 <= i < j < |ps| ==> ps[i].sock != ps[j].sock
  }

  ghost predicate UseridsFall(ps: seq<Peer>, userid: nat) {
    && (forall i :: 0 <= i < |ps| ==> ps[i].userid <= userid)
    && (forall i, j :: 0 <= i < j < |ps| ==> ps[i].userid > ps[j].userid)
  }

  ghost predicate WellKept(ps: seq<Peer>, userid: nat, open: set<int>, maxclients: int) {
    && DistinctFrom(ps) && DistinctSockets(ps) && UseridsFall(ps, userid)
    && open == Sockets(ps) && STDIN !in open && (ps != [] ==> |ps| <= maxclients)
  }

  lemma AdmittedKeeps(ps: seq<Peer>, a: Admission, userid: nat, open: set<int>, maxclients: int)
    requires WellKept(ps, userid, open, maxclients) && CanAdmit(ps, a, maxclients)
    requires Lookup(ps, 0, a.from) == |ps| ==> a.sock !in open && a.sock != STDIN
    ensures var isNew := Lookup(ps, 0, a.from) == |ps|;
      WellKept(Admitted(ps, a, userid), if isNew then userid + 1 else userid,
               if isNew then open + {a.sock} else open, maxclients)
  {
    var i, r := Lookup(ps, 0, a.from), Admitted(ps, a, userid);
    if i < |ps| {
      UpdatedKeeps(ps, i, Reused(ps[i], a), userid, open, maxclients);
    } else {
      AddedKeeps(ps, Fresh(a, userid + 1), userid, open);
    }
  }

  lemma AddedKeeps(ps: seq<Peer>, p: Peer, userid: nat, open: set<int>)
    requires DistinctFrom(ps) && DistinctSockets(ps) && UseridsFall(ps, userid) && open == Sockets(ps)
    requires Lookup(ps, 0, p.from) == |ps| && p.sock !in open && p.userid == userid + 1
    ensures DistinctFrom([p] + ps) && DistinctSockets([p] + ps) && UseridsFall([p] + ps, userid + 1)
    ensures Sockets([p] + ps) == open + {p.sock}
  {
    assert forall k :: 0 <= k < |ps| ==> ps[k] in ps;
    AddedSockets(ps, p);
  }

  lemma AddedSockets(ps: seq<Peer>, p: Peer)
    ensures Sockets([p] + ps) == Sockets(ps) + {p.sock}
  {
    var r, open := [p] + ps, Sockets(ps);
    forall s ensures s in Sockets(r) <==> s in open || s == p.sock {
      if s in open {
        var q :| q in ps && q.sock == s;
        assert q in r;
      }
      if s == p.sock { assert r[0] in r; }
    }
  }

  /** A peer may change in all but its address, its socket and its userid. */
  lemma UpdatedKeeps(ps: seq<Peer>, i: nat, p: Peer, userid: nat, open: set<int>, maxclients: int)
    requires WellKept(ps, userid, open, maxclients) && i < |ps|
    requires p.from == ps[i].from && p.sock == ps[i].sock && p.userid == ps[i].userid
    ensures WellKept(ps[i := p], userid, open, maxclients)
  {
    var r := ps[i := p];
    SameSockets(ps, r);
  }

  lemma SameSockets(ps: seq<Peer>, r: seq<Peer>)
    requires |ps| == |r| && forall k :: 0 <= k < |ps| ==> ps[k].sock == r[k].sock
    ensures Sockets(ps) == Sockets(r)
  {
    forall s | s in Sockets(ps) ensures s in Sockets(r) {
      var p :| p in ps && p.sock == s;
      var k :| 0 <= k < |ps| && ps[k] == p;
      assert r[k] in r;
    }
    forall s | s in Sockets(r) ensures s in Sockets(ps) {
      var p :| p in r && p.sock == s;
      var k :| 0 <= k < |r| && r[k] == p;
      assert ps[k] in ps;
    }
  }

  lemma TimeOutsKeep(ps: seq<Peer>, now: int, fine: real, userid: nat, open: set<int>, maxclients: int)
    requires WellKept(ps, userid, open, maxclients)
    ensures WellKept(TimeOuts(ps, now, fine), userid, open, maxclients)
  {
    SameSockets(ps, TimeOuts(ps, now, fine));
  }

  ghost predicate Lined(ps: seq<Peer>, userid: nat) {
    DistinctFrom(ps) && DistinctSockets(ps) && UseridsFall(ps, userid)
  }

  lemma Snoc(q: seq<Peer>, p: Peer, userid: nat)
    requires Lined(q, userid) && p.userid <= userid
    requires forall x :: x in q ==> x.from != p.from && x.sock != p.sock && x.userid > p.userid
    ensures Lined(q + [p], userid)
  {
    assert forall k :: 0 <= k < |q| ==> q[k] in q;
  }

  lemma {:induction false} KeptLined(ps: seq<Peer>, userid: nat)
    requires Lined(ps, userid)
    ensures Lined(Kept(ps), userid)
  {
    if ps != [] {
      var n := |ps| - 1;
      KeptLined(ps[..n], userid);
      if !ps[n].ps.Drop? {
        forall p | p in Kept(ps[..n])
          ensures p.from != ps[n].from && p.sock != ps[n].sock && p.userid > ps[n].userid
        {
          var k :| 0 <= k < n && ps[..n][k] == p;
          assert ps[k] == p;
        }
        Snoc(Kept(ps[..n]), ps[n], userid);
      }
    }
  }

  /** Sockets are distinct, so closing those of the peers to be dropped leaves exactly those
      of the peers that stay. */
  lemma {:induction false} ClosedKept(ps: seq<Peer>)
    requires DistinctSockets(ps) && STDIN !in Sockets(ps)
    ensures Closed(Sockets(ps), ps) == Sockets(Kept(ps))
    decreases |ps|
  {
    if ps != [] {
      var n := |ps| - 1;
      var q, p := ps[..n], ps[n];
      SocketsSnoc(q, p);
      assert ps == q + [p];
      ClosedKept(q);
      NotIn(q, p);
      ClosedMore(Sockets(q), p.sock, q);
      if !p.ps.Drop? { SocketsSnoc(Kept(q), p); }
    }
  }

  lemma SocketsSnoc(q: seq<Peer>, p: Peer)
    ensures Sockets(q + [p]) == Sockets(q) + {p.sock}
  {
    assert p in q + [p];
  }

  lemma NotIn(q: seq<Peer>, p: Peer)
    requires DistinctSockets(q + [p])
    ensures p.sock !in Sockets(q) && p.sock !in Sockets(Kept(q))
  {
    forall x | x in q ensures x.sock != p.sock {
      var k :| 0 <= k < |q| && q[k] == x;
      assert (q + [p])[k] == x && (q + [p])[|q|] == p;
    }
  }

  /** A socket that no peer has stays open. */
  lemma {:induction false} ClosedMore(open: set<int>, sock: int, ps: seq<Peer>)
    requires sock !in Sockets(ps)
    ensures Closed(open + {sock}, ps) == Closed(open, ps) + {sock}
    decreases |ps|
  {
    if ps != [] {
      var n := |ps| - 1;
      assert ps[n].sock in Sockets(ps);
      assert forall p :: p in ps[..n] ==> p in ps;
      ClosedMore(open, sock, ps[..n]);
    }
  }

  lemma KeptKeeps(ps: seq<Peer>, userid: nat, open: set<int>, maxclients: int)
    requires WellKept(ps, userid, open, maxclients)
    ensures WellKept(Kept(ps), userid, Closed(open, ps), maxclients)
  {
    KeptLined(ps, userid);
    ClosedKept(ps);
    assert Sockets(Kept(ps)) <= Sockets(ps);
  }
}
