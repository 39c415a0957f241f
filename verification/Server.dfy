/** The handlers of src/peer.c, src/svc.c and src/clc.c in place, refining the state
    machine of module Proxy. */
module Server {
  import opened Challenges
  import opened Chaining
  import opened Connect
  import opened Info
  import opened Numbers
  import opened Peers
  import opened Proxy
  import L = PeerList

  class Server {
    const peers: L.PeerList
    const table: Table
    const maxclients: int
    var userid: nat

    ghost predicate Valid()
      reads this, peers, peers.list, table.slots
    {
      peers.Valid() && table.slots.Length == MAX_CHALLENGES
    }

    ghost function Now(): (st: State)
      reads this, peers, peers.list, table.slots
    {
      State(peers.Contents(), userid, peers.open, table.slots[..])
    }

    constructor (maxclients: int)
      ensures Valid() && this.maxclients == maxclients
      ensures Now() == Start()
      ensures fresh(peers) && fresh(peers.nodes) && fresh(table.slots)
    {
      peers := new L.PeerList();
      table := new Table();
      this.maxclients := maxclients;
      userid := 0;
      new;
      assert table.slots[..] == Start().slots;
    }

    /** SVC_GetChallenge */
    method SendChallenge(from: Address, proto: Protocol, random: int, now: int) returns (sends: seq<Send>)
      requires Valid()
      modifies table.slots
      ensures Valid()
      ensures Result(Now(), sends)
           == ClientStep(old(Now()), from, ClientMessage.GetChallenge(proto, random), now, maxclients)
    {
      ghost var ps := peers.Contents();
      var p := peers.Find(from);
      assert p != null ==> p.peer == ps[Lookup(ps, 0, from)];
      var peering := if p != null && p.peer.ps == Online then Connected(p.peer.challenge) else NoPeer;
      var number := table.GetChallenge(Request(from, proto, random, now, peering));
      assert peers.Contents() == ps;
      sends := [Send(MAIN, from, ChallengeReply(number))];
    }

    /** The part of FWD_network_update that forwards a datagram to the server. */
    method ForwardData(from: Address, payload: seq<nat>, inGame: bool, drop: bool, now: int) returns (sends: seq<Send>)
      requires Valid()
      modifies peers.nodes
      ensures Valid() && Result(Now(), sends) == Relay(old(Now()), from, payload, inGame, drop, now)
    {
      ghost var st := Now();
      ghost var i := Lookup(st.peers, 0, from);
      var p := peers.Find(from);
      if p == null { return []; }
      assert p.peer == st.peers[i];
      sends := [];
      var q := p.peer;
      if q.ps == Online {
        var cnt := 1;
        if q.proto == QW && inGame && drop {
          q := q.(ps := Drop);
          cnt := 3;
        }
        sends := Copies(Send(q.sock, q.to, OfClient(from, payload)), cnt);
      }
      peers.Update(p, q.(last := now), i);
    }

    /** FWD_peer_new for a client that has a peer already. */
    method Reuse(p: L.Node, a: Admission, ghost i: nat)
      requires Valid() && i == Lookup(peers.Contents(), 0, a.from) < |peers.list| && p == peers.list[i]
      modifies peers.nodes
      ensures Valid() && Now() == Admit(old(Now()), a) && Lookup(Now().peers, 0, a.from) == i
    {
      ghost var st := Now();
      assert p.peer == st.peers[i];
      peers.Update(p, Reused(p.peer, a), i);
      LookupIs(Admitted(st.peers, a, st.userid), a.from, i);
    }

    /** FWD_peer_new for a client that has none. */
    method Enlist(a: Admission)
      requires Valid() && Lookup(peers.Contents(), 0, a.from) == |peers.list|
      modifies this, peers
      ensures Valid() && fresh(peers.nodes - old(peers.nodes))
      ensures Now() == Admit(old(Now()), a) && Lookup(Now().peers, 0, a.from) == 0 && peers.list != []
    {
      ghost var st, ps := Now(), peers.Contents();
      var id := userid + 1;
      var p := Fresh(a, id);
      peers.Push(p);
      ghost var ps2 := [p] + ps;
      assert peers.Contents() == ps2 && table.slots[..] == st.slots;
      userid := id;
      peers.OpenSocket(a.sock);
      assert peers.Contents() == ps2;
      AdmitNew(st, a, id, ps2, Now());
    }

    /** FWD_peer_new, once the host is resolved and allowed; null if there is no room or no
        socket. */
    method NewPeer(a: Admission) returns (p: L.Node?)
      requires Valid()
      modifies this, peers, peers.nodes
      ensures Valid() && fresh(peers.nodes - old(peers.nodes))
      ensures p != null <==> CanAdmit(old(Now()).peers, a, maxclients)
      ensures Now() == if p == null then old(Now()) else Admit(old(Now()), a)
      ensures p != null ==> p == L.At(peers.list, Lookup(Now().peers, 0, a.from))
    {
      p := peers.Find(a.from);
      if p != null {
        Reuse(p, a, Lookup(peers.Contents(), 0, a.from));
        return;
      }
      var n := peers.Count();
      if n >= maxclients { return; }
      if a.sock == INVALID_SOCKET { return; }
      Enlist(a);
      p := peers.first;
    }

    /** CheckChallenge and what comes before it: the protocol and the challenge asked for. */
    method FindChallenge(from: Address) returns (found: bool, proto: Protocol, challenge: int)
      requires Valid()
      ensures var i := Find(table.slots[..], 0, from);
        && (found <==> i < MAX_CHALLENGES)
        && (found ==> proto == table.slots[..][i].proto && challenge == table.slots[..][i].challenge)
    {
      var i := table.FindChallenge(from);
      found, proto, challenge := i < MAX_CHALLENGES, QW, 0;
      if found { proto, challenge := table.slots[i].proto, table.slots[i].challenge; }
    }

    /** CheckProtocol, CheckUserinfo and CheckChallenge, with the numbers of either protocol. */
    method CheckRequest(q: Connection, proto: Protocol, challenge: int)
      returns (ok: bool, qport: int, userinfo: InfoString)
      ensures fresh(userinfo) && fresh(userinfo.buf) && userinfo.Valid() && userinfo.buf.Length == MAX_INFO_STRING
      ensures userinfo.Text() == Fit(q.userinfo, MAX_INFO_STRING)
      ensures ok == Requested(q, proto, challenge) && qport == PortNumber(q, proto)
    {
      userinfo := new InfoString(Fit(q.userinfo, MAX_INFO_STRING), MAX_INFO_STRING);
      var v := userinfo.ValidateUserInfo();
      var given := q.challenge;
      qport := q.qport;
      if proto == Q3 {
        var port := userinfo.ValueForKey("qport", PRX_SIZE);
        var number := userinfo.ValueForKey("challenge", PRX_SIZE);
        qport, given := Atoi(port), Atoi(number);
      }
      ok := (proto == QW ==> q.version == QW_PROTOCOL_VERSION) && (v == Sound || (v == Beyond && q.beyond))
            && given == challenge;
    }

    /** SVC_DirectConnect up to FWD_peer_new; the userinfo is edited in place. */
    method Consider(from: Address, q: Connection, now: int) returns (d: Screening, challenge: int)
      requires Valid()
      ensures d == Screen(Now(), from, q, now, maxclients)
      ensures d.Wanted? ==>
        var i := Find(Now().slots, 0, from); i < MAX_CHALLENGES && challenge == Now().slots[i].challenge
    {
      var found, proto;
      found, proto, challenge := FindChallenge(from);
      if !found { return Refused(true), 0; }
      var ok, qport, userinfo := CheckRequest(q, proto, challenge);
      if !ok { return Refused(true), challenge; }
      var n := peers.Count();
      if n >= maxclients { return Refused(true), challenge; }
      var r := PassOn(userinfo, DefaultPort(proto));
      if r.Refusal? { return Refused(true), challenge; }
      var to := q.reach(r.target);
      if to.Unreachable? { return Refused(false), challenge; }
      d := Wanted(Admission(from, to.to, qport, proto, r.userinfo, now, q.sock));
    }

    /** SVC_DirectConnect */
    method ConnectClient(from: Address, q: Connection, now: int) returns (sends: seq<Send>)
      requires Valid()
      modifies this, peers, peers.nodes
      ensures Valid() && fresh(peers.nodes - old(peers.nodes))
      ensures Result(Now(), sends) == DirectConnect(old(Now()), from, q, now, maxclients)
    {
      var d, challenge := Consider(from, q, now);
      if d.Refused? { return if d.told then [Send(MAIN, from, Notice)] else []; }
      var a := d.admission;
      var p := NewPeer(a);
      if p == null { return []; }
      assert p.peer == Now().peers[Lookup(Now().peers, 0, a.from)];
      if a.proto == QW { return [Send(MAIN, from, ConnectReply)]; }
      if p.peer.ps == Online {
        return [Send(MAIN, from, if p.peer.challenge == challenge then ConnectReply else Notice)];
      }
      sends := [];
    }

    /** The walk over the peers that finds the one with a packet waiting. */
    method FindSocket(sock: int) returns (p: L.Node?)
      requires Valid()
      ensures p == L.At(peers.list, BySocket(peers.Contents(), 0, sock))
    {
      ghost var i, ps := 0, peers.Contents();
      p := peers.first;
      while p != null && p.peer.sock != sock
        invariant i <= |ps| && p == L.At(peers.list, i) && BySocket(ps, i, sock) == BySocket(ps, 0, sock)
        decreases |ps| - i
      {
        assert L.Cells(peers.list)[i].next == L.At(peers.list, i + 1);
        p := p.next;
        i := i + 1;
      }
    }

    /** The part of FWD_network_update that reads a peer's socket, with src/clc.c. */
    method HearServer(sock: int, from: Address, m: ServerMessage) returns (sends: seq<Send>)
      requires Valid()
      modifies peers.nodes
      ensures Valid() && Result(Now(), sends) == ServerStep(old(Now()), sock, from, m)
    {
      ghost var st := Now();
      ghost var i := BySocket(st.peers, 0, sock);
      var p := FindSocket(sock);
      if p == null { return []; }
      assert p.peer == st.peers[i];
      if p.peer.to != from { return []; }
      match m
      case OutOfBand(_, _, payload) =>
        sends := Respond(p, from, Heard(p.peer, m), payload, i);
      case InGame(payload) =>
        sends := if p.peer.ps == Online then [Send(MAIN, p.peer.from, OfServer(from, payload))] else [];
      case Runt =>
        sends := [];
    }

    /** CL_ConnectionlessPacket_QW; the result tells whether the client is to see it. */
    method RespondQW(q: Peer, from: Address, s: Saying) returns (r: Peer, replies: seq<Send>, forward: bool)
      requires q.proto == QW
      ensures r == Changed(q, s) && (forward <==> s == Print)
      ensures replies == if s.ChallengeIs? && q.ps == Challenge
                         then [Send(q.sock, from, ConnectRequest(q.proto, q.qport, s.number, q.userinfo))]
                         else []
    {
      r, replies, forward := q, [], false;
      match s
      case ChallengeIs(n) =>
        r := r.(challenge := n);
        if r.ps == Challenge {
          replies := [Send(r.sock, from, ConnectRequest(r.proto, r.qport, r.challenge, r.userinfo))];
        }
      case Accepted =>
        // a duplicate reply is ignored
        if r.ps != Online { r := r.(ps := Online); }
      case Print => forward := true;
      case Disconnect =>
      case Nothing =>
    }

    /** CL_ConnectionlessPacket_Q3 */
    method RespondQ3(q: Peer, from: Address, s: Saying) returns (r: Peer, replies: seq<Send>, forward: bool)
      requires q.proto == Q3
      ensures r == Changed(q, s) && (forward <==> s == Print || s == Disconnect)
      ensures replies == if s.ChallengeIs? && q.ps == Challenge
                         then [Send(q.sock, from, ConnectRequest(q.proto, q.qport, s.number, q.userinfo))]
                         else []
    {
      r, replies, forward := q, [], false;
      match s
      case ChallengeIs(n) =>
        if r.ps == Challenge {
          r := r.(challenge := n);
          replies := [Send(r.sock, from, ConnectRequest(r.proto, r.qport, r.challenge, r.userinfo))];
        }
      case Accepted =>
        if r.ps == Online { return; }
        if r.ps != Challenge { return; }
        r := r.(ps := Online);
      case Disconnect =>
        r, forward := r.(ps := Drop), true;
      case Print => forward := true;
      case Nothing =>
    }

    /** CL_ConnectionlessPacket, and the relay of what the client is to see. */
    method Respond(p: L.Node, from: Address, s: Saying, payload: seq<nat>, ghost i: nat) returns (sends: seq<Send>)
      requires Valid() && i < |peers.list| && p == peers.list[i]
      modifies peers.nodes
      ensures Valid() && sends == Answers(old(Now()).peers[i], from, s, payload)
      ensures Now() == old(Now()).(peers := old(Now()).peers[i := Changed(old(Now()).peers[i], s)])
    {
      ghost var st := Now();
      var q := p.peer;
      assert q == st.peers[i];
      var r, forward;
      if q.proto == QW {
        r, sends, forward := RespondQW(q, from, s);
      } else {
        r, sends, forward := RespondQ3(q, from, s);
      }
      if forward { sends := sends + [Send(MAIN, r.from, OfServer(from, payload))]; }
      peers.Update(p, r, i);
      assert table.slots[..] == st.slots;
    }

    /** A peer that still waits for a challenge asks again from time to time. */
    method RemindServer(sock: int, now: int) returns (sends: seq<Send>)
      requires Valid()
      modifies peers.nodes
      ensures Valid() && Result(Now(), sends) == RemindStep(old(Now()), sock, now)
    {
      ghost var st := Now();
      ghost var i := BySocket(st.peers, 0, sock);
      var p := FindSocket(sock);
      if p == null { return []; }
      var q := p.peer;
      assert q == st.peers[i];
      if q.ps == Challenge && now - q.connect > 2 {
        peers.Update(p, q.(connect := now), i);
        assert table.slots[..] == st.slots;
        return [Send(q.sock, q.to, ChallengeRequest)];
      }
      sends := [];
    }

    /** FWD_check_timeout and FWD_check_drop */
    method EndFrame(now: int, fine: real) returns (sends: seq<Send>)
      requires Valid()
      modifies peers, peers.nodes
      ensures Valid() && peers.nodes == old(peers.nodes) && Now() == FrameEnd(old(Now()), now, fine)
      ensures sends == KeepAlives(Probes(old(Now()).peers, now, fine))
    {
      ghost var st := Now();
      var probes := peers.CheckTimeout(now, fine);
      peers.CheckDrop();
      sends := SendProbes(probes);
      assert table.slots[..] == st.slots;
    }

    method SendProbes(probes: seq<Probe>) returns (sends: seq<Send>)
      ensures sends == KeepAlives(probes)
    {
      sends := [];
      for k := 0 to |probes|
        invariant sends == KeepAlives(probes)[..k]
      {
        sends := sends + [Send(probes[k].sock, probes[k].to, KeepAlive(probes[k].qport))];
      }
    }

    /** Every datagram and every end of frame does to the program's state what the step
        does to the abstract one. */
    method Handle(x: Input) returns (sends: seq<Send>)
      requires Valid()
      modifies this, peers, peers.nodes, table.slots
      ensures Valid() && fresh(peers.nodes - old(peers.nodes))
      ensures Result(Now(), sends) == Step(old(Now()), x, maxclients)
    {
      sends := [];
      match x
      case FromClient(from, banned, m, now) =>
        if !banned { sends := HandleClient(from, m, now); }
      case FromServer(sock, from, banned, m) =>
        if !banned { sends := HearServer(sock, from, m); }
      case Remind(sock, now) => sends := RemindServer(sock, now);
      case EndOfFrame(now, fine) => sends := EndFrame(now, fine);
    }

    method HandleClient(from: Address, m: ClientMessage, now: int) returns (sends: seq<Send>)
      requires Valid()
      modifies this, peers, peers.nodes, table.slots
      ensures Valid() && fresh(peers.nodes - old(peers.nodes))
      ensures Result(Now(), sends) == ClientStep(old(Now()), from, m, now, maxclients)
    {
      sends := [];
      match m
      case GetChallenge(proto, random) => sends := SendChallenge(from, proto, random, now);
      case Connect(q) => sends := ConnectClient(from, q, now);
      case Rcon(payload) => sends := ForwardData(from, payload, false, false, now);
      case Data(payload, drop) => sends := ForwardData(from, payload, true, drop, now);
      case Other =>
    }
  }

  lemma AdmitNew(st: State, a: Admission, id: nat, ps: seq<Peer>, st2: State)
    requires Lookup(st.peers, 0, a.from) == |st.peers| && id == st.userid + 1
    requires ps == [Fresh(a, id)] + st.peers && st2 == State(ps, id, st.open + {a.sock}, st.slots)
    ensures st2 == Admit(st, a) && Lookup(st2.peers, 0, a.from) == 0
  {
  }

  lemma LookupIs(ps: seq<Peer>, from: Address, i: nat)
    requires i < |ps| && ps[i].from == from && forall k :: 0 <= k < i ==> ps[k].from != from
    ensures Lookup(ps, 0, from) == i
  {
  }
}
