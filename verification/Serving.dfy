module Serving {
  /* What the proxy of module Proxy does for its clients and their servers, over all runs: it
     answers, admits and relays, and keeps a peer as long as its client is heard. */

  import opened Chaining
  import opened Challenges
  import opened Connect
  import opened Info
  import opened Numbers
  import opened Peers
  import opened Proxy

  // ----- finding the peer

  lemma PeerAt(ps: seq<Peer>, p: Peer) returns (i: nat)
    requires DistinctFrom(ps) && p in ps
    ensures i < |ps| && ps[i] == p && Lookup(ps, 0, p.from) == i
  {
    i :| 0 <= i < |ps| && ps[i] == p;
  }

  lemma SocketAt(ps: seq<Peer>, p: Peer) returns (i: nat)
    requires DistinctSockets(ps) && p in ps
    ensures i < |ps| && ps[i] == p && BySocket(ps, 0, p.sock) == i
  {
    i :| 0 <= i < |ps| && ps[i] == p;
  }

  /** One peer has changed; the others are as they were. */
  ghost predicate Replaced(ps: seq<Peer>, p: Peer, q: Peer, qs: seq<Peer>) {
    && q in qs && (p == q || p !in qs)
    && (forall r :: r in ps && r != p ==> r in qs) && (forall r :: r in qs && r != q ==> r in ps)
  }

  lemma ReplacedAt(ps: seq<Peer>, i: nat, q: Peer)
    requires i < |ps| && DistinctFrom(ps) && q.from == ps[i].from
    ensures Replaced(ps, ps[i], q, ps[i := q])
  {
    var qs := ps[i := q];
    assert qs[i] == q;
    forall r | r in ps && r != ps[i] ensures r in qs {
      var k :| 0 <= k < |ps| && ps[k] == r;
      assert qs[k] == r;
    }
  }

  // ----- what clients send

  ghost predicate Relayed(m: ClientMessage) {
    m.Rcon? || m.Data?
  }

  /** A connected QW client says that it leaves. */
  ghost predicate Leaves(p: Peer, m: ClientMessage) {
    p.ps == Online && p.proto == QW && m.Data? && m.drop
  }

  lemma ThreeCopies(s: Send, n: nat)
    requires n == 3
    ensures Proxy.Copies(s, n) == [s, s, s] && Proxy.Copies(s, 1) == [s]
  {
    assert Proxy.Copies(s, n) == [s] + Proxy.Copies(s, n - 1);
  }

  /** Over all runs a datagram of a connected client goes to its server unchanged, once or, when
      a QW client leaves, three times, and the peer is heard now; nothing else happens. */
  lemma ClientIsRelayed(xs: seq<Input>, maxclients: int, p: Peer, m: ClientMessage, now: int)
    requires Run(xs, maxclients) && p in After(xs, maxclients).peers && Relayed(m)
    ensures var r, s := Step(After(xs, maxclients), FromClient(p.from, false, m, now), maxclients),
                        Send(p.sock, p.to, OfClient(p.from, m.payload));
      && r.sends == (if p.ps != Online then [] else if Leaves(p, m) then [s, s, s] else [s])
      && Replaced(After(xs, maxclients).peers, p,
                  p.(last := now, ps := if Leaves(p, m) then Drop else p.ps), r.state.peers)
  {
    var ps, s := After(xs, maxclients).peers, Send(p.sock, p.to, OfClient(p.from, m.payload));
    Proxy.AlwaysGood(xs, maxclients);
    var i := PeerAt(ps, p);
    ReplacedAt(ps, i, p.(last := now, ps := if Leaves(p, m) then Drop else p.ps));
    ThreeCopies(s, 3);
  }

  // ----- what servers send

  /** Over all runs what the server of a connected client sends goes to the client unchanged. */
  lemma ServerIsRelayed(xs: seq<Input>, maxclients: int, p: Peer, payload: seq<nat>)
    requires Run(xs, maxclients) && p in After(xs, maxclients).peers
    ensures var st := After(xs, maxclients);
      Step(st, FromServer(p.sock, p.to, false, InGame(payload)), maxclients)
      == Result(st, if p.ps == Online then [Send(MAIN, p.from, OfServer(p.to, payload))] else [])
  {
    Proxy.AlwaysGood(xs, maxclients);
    var i := SocketAt(After(xs, maxclients).peers, p);
  }

  /** What a server says in the protocol of the peer. */
  function Said(proto: Protocol, m: ServerMessage): Saying
    requires m.OutOfBand?
  {
    if proto == QW then m.asQW else m.asQ3
  }

  /** What a server's out-of-band datagram does: texts, and the farewell of a Q3 server, go to
      the client, connected or not, and the farewell drops the peer; a challenge is answered with
      the connect packet while the client waits for its connection, and a connection reply
      connects it. */
  ghost predicate Obeyed(st: State, p: Peer, m: ServerMessage, r: Result)
    requires m.OutOfBand?
  {
    var s, relayed := Said(p.proto, m), Send(MAIN, p.from, OfServer(p.to, m.payload));
    && (s.Print? ==> r == Result(st, [relayed]))
    && (s.Disconnect? && p.proto == Q3 ==> r.sends == [relayed] && Replaced(st.peers, p, p.(ps := Drop), r.state.peers))
    && (s.ChallengeIs? && p.ps == Challenge ==>
          && r.sends == [Send(p.sock, p.to, ConnectRequest(p.proto, p.qport, s.number, p.userinfo))]
          && Replaced(st.peers, p, p.(challenge := s.number), r.state.peers))
    && (s.Accepted? && (p.proto == QW || p.ps == Challenge) ==>
          r.sends == [] && Replaced(st.peers, p, p.(ps := Online), r.state.peers))
  }

  lemma HeardStep(st: State, maxclients: int, p: Peer, m: ServerMessage)
    requires Proxy.Good(st, maxclients) && p in st.peers && m.OutOfBand?
    ensures Obeyed(st, p, m, Step(st, FromServer(p.sock, p.to, false, m), maxclients))
  {
    var i := SocketAt(st.peers, p);
    ReplacedAt(st.peers, i, Changed(p, Heard(p, m)));
    assert st.peers[i := p] == st.peers;
  }

  /** So it is over all runs. */
  lemma ServerIsHeard(xs: seq<Input>, maxclients: int, p: Peer, m: ServerMessage)
    requires Run(xs, maxclients) && p in After(xs, maxclients).peers && m.OutOfBand?
    ensures Obeyed(After(xs, maxclients), p, m,
                   Step(After(xs, maxclients), FromServer(p.sock, p.to, false, m), maxclients))
  {
    Proxy.AlwaysGood(xs, maxclients);
    HeardStep(After(xs, maxclients), maxclients, p, m);
  }

  /** A server that has not answered for more than two seconds is asked again. */
  lemma ServerIsReminded(xs: seq<Input>, maxclients: int, p: Peer, now: int)
    requires Run(xs, maxclients) && p in After(xs, maxclients).peers
    ensures var st := After(xs, maxclients);
      var r := Step(st, Remind(p.sock, now), maxclients);
      if p.ps == Challenge && now > p.connect + 2
      then r.sends == [Send(p.sock, p.to, ChallengeRequest)] && Replaced(st.peers, p, p.(connect := now), r.state.peers)
      else r == Result(st, [])
  {
    var ps := After(xs, maxclients).peers;
    Proxy.AlwaysGood(xs, maxclients);
    var i := SocketAt(ps, p);
    ReplacedAt(ps, i, p.(connect := now));
  }

  // ----- the end of a frame

  /** Everything but the time of the last probe. */
  ghost predicate SamePeer(p: Peer, q: Peer) {
    q == p.(checked := q.checked)
  }

  ghost predicate StillThere(p: Peer, qs: seq<Peer>) {
    exists q :: q in qs && SamePeer(p, q)
  }

  ghost predicate Gone(p: Peer, qs: seq<Peer>) {
    forall q :: q in qs ==> q.from != p.from
  }

  /** At the end of a frame exactly those peers are dropped that are marked or were silent for
      15 seconds or more; the others stay as they are, but for the time of the last probe, and
      no peer comes from anywhere else. */
  lemma FrameKeeps(xs: seq<Input>, maxclients: int, now: int, fine: real, p: Peer)
    requires Run(xs, maxclients) && p in After(xs, maxclients).peers
    ensures var qs := Step(After(xs, maxclients), EndOfFrame(now, fine), maxclients).state.peers;
      if p.ps != Drop && now < p.last + 15 then StillThere(p, qs) else Gone(p, qs)
  {
    Proxy.AlwaysGood(xs, maxclients);
    FrameStep(After(xs, maxclients), maxclients, now, fine, p);
  }

  lemma FrameStep(st: State, maxclients: int, now: int, fine: real, p: Peer)
    requires Proxy.Good(st, maxclients) && p in st.peers
    ensures var qs := Step(st, EndOfFrame(now, fine), maxclients).state.peers;
      if p.ps != Drop && now < p.last + 15 then StillThere(p, qs) else Gone(p, qs)
  {
    FramePeers(st.peers, now, fine, p);
  }

  lemma FramePeers(ps: seq<Peer>, now: int, fine: real, p: Peer)
    requires DistinctFrom(ps) && p in ps
    ensures var qs := Kept(TimeOuts(ps, now, fine));
      if p.ps != Drop && now < p.last + 15 then StillThere(p, qs) else Gone(p, qs)
  {
    var ts, q := TimeOuts(ps, now, fine), TimeOut(p, now, fine);
    TimeOutIs(p, now, fine);
    TimedAlone(ps, ts, now, fine, p, q);
    if p.ps != Drop && now < p.last + 15 {
      assert q in Kept(ts) && SamePeer(p, q);
    }
  }

  lemma TimeOutIs(p: Peer, now: int, fine: real)
    ensures var q := TimeOut(p, now, fine);
      q.from == p.from && if now < p.last + 15 then SamePeer(p, q) else q.ps == Drop
  {
  }

  lemma TimedAlone(ps: seq<Peer>, ts: seq<Peer>, now: int, fine: real, p: Peer, q: Peer)
    requires DistinctFrom(ps) && p in ps && ts == TimeOuts(ps, now, fine) && q == TimeOut(p, now, fine)
    ensures q in ts && forall r :: r in ts && r.from == p.from ==> r == q
  {
    var i := PeerAt(ps, p);
    assert ts[i] == q;
    forall r | r in ts && r.from == p.from ensures r == q {
      var k :| 0 <= k < |ts| && ts[k] == r;
      TimeOutIs(ps[k], now, fine);
      assert ps[k].from == ps[i].from;
    }
  }

  lemma SameServes(p: Peer, q: Peer, o: Peer, t: int)
    requires SamePeer(p, q) && Serves(p, o, t)
    ensures Serves(q, o, t)
  {
  }

  lemma FrameAddsNone(xs: seq<Input>, maxclients: int, now: int, fine: real, q: Peer)
    requires q in Step(After(xs, maxclients), EndOfFrame(now, fine), maxclients).state.peers
    ensures exists p :: p in After(xs, maxclients).peers && SamePeer(p, q)
  {
    NoneAdded(After(xs, maxclients).peers, now, fine, q);
  }

  lemma NoneAdded(ps: seq<Peer>, now: int, fine: real, q: Peer)
    requires q in Kept(TimeOuts(ps, now, fine))
    ensures exists p :: p in ps && SamePeer(p, q)
  {
    var ts := TimeOuts(ps, now, fine);
    var i :| 0 <= i < |ts| && ts[i] == q;
    assert ps[i] in ps && SamePeer(ps[i], q);
  }

  /** A connected Q3 server is probed when its client was silent for more than a second and the
      last probe is more than a twentieth of a second ago, and nobody else is. */
  lemma FrameProbes(xs: seq<Input>, maxclients: int, now: int, fine: real, s: Send)
    ensures s in Step(After(xs, maxclients), EndOfFrame(now, fine), maxclients).sends <==>
      exists p :: p in After(xs, maxclients).peers && p.proto == Q3 && p.ps == Online && now > p.last + 1
        && fine > p.checked + 0.05 && s == Send(p.sock, p.to, KeepAlive(p.qport))
  {
    var ps := After(xs, maxclients).peers;
    ProbesAre(ps, now, fine, s);
  }

  ghost predicate Due(p: Peer, now: int, fine: real) {
    p.proto == Q3 && p.ps == Online && now > p.last + 1 && fine > p.checked + 0.05
  }

  lemma {:induction false} ProbesAre(ps: seq<Peer>, now: int, fine: real, s: Send)
    ensures s in KeepAlives(Probes(ps, now, fine)) <==>
      exists p :: p in ps && Due(p, now, fine) && s == Send(p.sock, p.to, KeepAlive(p.qport))
    decreases |ps|
  {
    if ps != [] {
      var n := |ps| - 1;
      ProbesAre(ps[..n], now, fine, s);
      var a, b := Probes(ps[..n], now, fine), Probes(ps, now, fine);
      assert ps == ps[..n] + [ps[n]];
      if Due(ps[n], now, fine) {
        assert b == a + [Probe(ps[n].sock, ps[n].to, ps[n].qport)];
        assert KeepAlives(b) == KeepAlives(a) + [Send(ps[n].sock, ps[n].to, KeepAlive(ps[n].qport))];
      } else {
        assert b == a;
      }
    }
  }

  // ----- as long as a client is heard

  /** What may end a peer, or make it look silent since before `t`. */
  ghost predicate Ends(st: State, x: Input, p: Peer, t: int, maxclients: int) {
    match x
    case FromClient(from, banned, m, now) =>
      !banned && from == p.from
      && ((m.Data? && m.drop) || (Relayed(m) && now < t) || EventOf(st, x, maxclients) == Connecting(from))
    case FromServer(sock, from, banned, m) =>
      !banned && sock == p.sock && from == p.to && p.proto == Q3 && m.OutOfBand? && m.asQ3.Disconnect?
    case Remind(_, _) => false
    case EndOfFrame(now, _) => now >= t + 15
  }

  /** The peer of the client `from`, heard at `t` or later. */
  ghost predicate Served(ps: seq<Peer>, o: Peer, t: int) {
    exists p :: p in ps && Serves(p, o, t)
  }

  ghost predicate Serves(p: Peer, o: Peer, t: int) {
    && p.from == o.from && p.to == o.to && p.sock == o.sock && p.proto == o.proto && p.userid == o.userid
    && p.ps != Drop && p.last >= t
  }

  lemma RelayServes(st: State, m: ClientMessage, from: Address, now: int, maxclients: int, p: Peer, o: Peer, t: int)
    requires Proxy.Good(st, maxclients) && p in st.peers && Serves(p, o, t) && !m.Connect?
    requires from == p.from ==> !(m.Data? && m.drop) && !(Relayed(m) && now < t)
    ensures Served(ClientStep(st, from, m, now, maxclients).state.peers, o, t)
  {
    var i := PeerAt(st.peers, p);
    var j := Lookup(st.peers, 0, from);
    if Relayed(m) && j < |st.peers| {
      var qs := ClientStep(st, from, m, now, maxclients).state.peers;
      assert qs[i] in qs;
      if i == j { assert Serves(qs[i], o, t); }
    }
  }

  lemma ConnectServes(st: State, q: Connection, from: Address, now: int, maxclients: int, p: Peer, o: Peer, t: int)
    requires Proxy.Good(st, maxclients) && p in st.peers && Serves(p, o, t)
    requires from == p.from ==> !Decide(st, from, q, now, maxclients).Follow?
    ensures Served(DirectConnect(st, from, q, now, maxclients).state.peers, o, t)
  {
    var d := Decide(st, from, q, now, maxclients);
    if d.Follow? {
      var i := PeerAt(st.peers, p);
      var j, qs := Lookup(st.peers, 0, from), Admitted(st.peers, d.admission, st.userid);
      if j < |st.peers| { assert qs[i] == p; } else { assert qs[i + 1] == p; }
      assert p in qs;
    }
  }

  lemma ServerServes(st: State, sock: int, from: Address, m: ServerMessage, maxclients: int, p: Peer, o: Peer, t: int)
    requires Proxy.Good(st, maxclients) && p in st.peers && Serves(p, o, t)
    requires !(sock == p.sock && from == p.to && p.proto == Q3 && m.OutOfBand? && m.asQ3.Disconnect?)
    ensures Served(ServerStep(st, sock, from, m).state.peers, o, t)
  {
    var i := SocketAt(st.peers, p);
    var j := BySocket(st.peers, 0, sock);
    if j < |st.peers| && st.peers[j].to == from && m.OutOfBand? {
      var qs := ServerStep(st, sock, from, m).state.peers;
      assert qs[i] in qs;
      if i == j { assert Serves(qs[i], o, t); }
    }
  }

  lemma TimeServes(st: State, now: int, fine: real, p: Peer, o: Peer, t: int)
    requires DistinctFrom(st.peers) && p in st.peers && Serves(p, o, t) && now < t + 15
    ensures Served(FrameEnd(st, now, fine).peers, o, t)
  {
    FramePeers(st.peers, now, fine, p);
    var q :| q in FrameEnd(st, now, fine).peers && SamePeer(p, q);
    SameServes(p, q, o, t);
  }

  lemma RemindServes(st: State, sock: int, now: int, p: Peer, o: Peer, t: int)
    requires DistinctSockets(st.peers) && p in st.peers && Serves(p, o, t)
    ensures Served(RemindStep(st, sock, now).state.peers, o, t)
  {
    var i := SocketAt(st.peers, p);
    var qs := RemindStep(st, sock, now).state.peers;
    assert qs[i] in qs && Serves(qs[i], o, t);
  }

  lemma StepServes(st: State, x: Input, maxclients: int, o: Peer, t: int)
    requires Proxy.Good(st, maxclients) && Served(st.peers, o, t) && !Ends(st, x, o, t, maxclients)
    ensures Served(Step(st, x, maxclients).state.peers, o, t)
  {
    var p :| p in st.peers && Serves(p, o, t);
    match x
    case FromClient(from, banned, m, now) =>
      if !banned {
        if m.Connect? {
          ConnectServes(st, m.request, from, now, maxclients, p, o, t);
        } else {
          RelayServes(st, m, from, now, maxclients, p, o, t);
        }
      }
    case FromServer(sock, from, banned, m) =>
      if !banned { ServerServes(st, sock, from, m, maxclients, p, o, t); }
    case Remind(sock, now) => RemindServes(st, sock, now, p, o, t);
    case EndOfFrame(now, fine) => TimeServes(st, now, fine, p, o, t);
  }

  ghost predicate EndsAt(xs: seq<Input>, l: nat, p: Peer, t: int, maxclients: int)
    requires l < |xs|
  {
    Ends(After(xs[..l], maxclients), xs[l], p, t, maxclients)
  }

  ghost predicate Undisturbed(xs: seq<Input>, k: nat, p: Peer, t: int, maxclients: int) {
    forall l :: k < l < |xs| ==> !EndsAt(xs, l, p, t, maxclients)
  }

  lemma UndisturbedBefore(xs: seq<Input>, n: nat, k: nat, p: Peer, t: int, maxclients: int)
    requires n <= |xs| && Undisturbed(xs, k, p, t, maxclients)
    ensures Undisturbed(xs[..n], k, p, t, maxclients)
  {
    forall l | k < l < n ensures !EndsAt(xs[..n], l, p, t, maxclients) {
      assert xs[..n][..l] == xs[..l];
      assert !EndsAt(xs, l, p, t, maxclients);
    }
  }

  lemma HeardNow(xs: seq<Input>, maxclients: int, p: Peer, m: ClientMessage, t: int)
    requires Run(xs, maxclients) && p in After(xs, maxclients).peers && p.ps != Drop && Relayed(m) && !Leaves(p, m)
    ensures Served(Step(After(xs, maxclients), FromClient(p.from, false, m, t), maxclients).state.peers, p, t)
  {
    ClientIsRelayed(xs, maxclients, p, m, t);
    assert Serves(p.(last := t, ps := p.ps), p, t);
  }

  /** Over all runs a client whose datagram was relayed at `t` still has its peer, with the same
      server and socket, after any frame less than 15 seconds later, unless it left, its server
      said farewell, it connected anew, or the clock ran backwards. */
  lemma {:induction false} HeardIsKept(xs: seq<Input>, k: nat, maxclients: int, p: Peer, m: ClientMessage, t: int)
    requires Run(xs, maxclients) && k < |xs| && p in After(xs[..k], maxclients).peers && p.ps != Drop
    requires xs[k] == FromClient(p.from, false, m, t) && Relayed(m) && !Leaves(p, m)
    requires Undisturbed(xs, k, p, t, maxclients)
    ensures Served(After(xs, maxclients).peers, p, t)
    decreases |xs|
  {
    var n := |xs| - 1;
    var ys := xs[..n];
    RunPrefix(xs, n, maxclients);
    AfterStep(xs, n, ys, maxclients);
    if k == n {
      HeardNow(ys, maxclients, p, m, t);
    } else {
      assert ys[..k] == xs[..k];
      UndisturbedBefore(xs, n, k, p, t, maxclients);
      HeardIsKept(ys, k, maxclients, p, m, t);
      ServedOn(xs, n, ys, maxclients, p, t);
    }
  }

  lemma AfterStep(xs: seq<Input>, n: nat, ys: seq<Input>, maxclients: int)
    requires |xs| == n + 1 && ys == xs[..n]
    ensures After(xs, maxclients) == Step(After(ys, maxclients), xs[n], maxclients).state
  {
  }

  lemma ServedOn(xs: seq<Input>, n: nat, ys: seq<Input>, maxclients: int, p: Peer, t: int)
    requires |xs| == n + 1 && ys == xs[..n] && Run(ys, maxclients) && Served(After(ys, maxclients).peers, p, t)
    requires !EndsAt(xs, n, p, t, maxclients)
    ensures Served(After(xs, maxclients).peers, p, t)
  {
    Proxy.AlwaysGood(ys, maxclients);
    AfterStep(xs, n, ys, maxclients);
    StepServes(After(ys, maxclients), xs[n], maxclients, p, t);
  }

  // ----- how a client gets its peer

  /** What is banned is not heard. */
  lemma BannedIsQuiet(st: State, from: Address, sock: int, m: ClientMessage, a: ServerMessage, now: int,
                      maxclients: int)
    requires |st.slots| > 0
    ensures Step(st, FromClient(from, true, m, now), maxclients) == Result(st, [])
    ensures Step(st, FromServer(sock, from, true, a), maxclients) == Result(st, [])
  {
  }

  ghost predicate HasNumber(ss: seq<Slot>, from: Address, proto: Protocol, n: int) {
    exists i :: 0 <= i < |ss| && ss[i] == Slot(from, n, ss[i].time, proto)
  }

  /** A client that asks for a challenge is sent one number, which is kept for it: the challenge
      of its server if it is a connected Q3 client, else the number that it was sent before, or
      a random one if it has none. */
  lemma ChallengeIsAnswered(st: State, maxclients: int, from: Address, proto: Protocol, random: int, now: int)
    returns (n: int)
    requires Proxy.Good(st, maxclients) && from != NOWHERE
    ensures var r := Step(st, FromClient(from, false, ClientMessage.GetChallenge(proto, random), now), maxclients);
      && r.sends == [Send(MAIN, from, ChallengeReply(n))] && HasNumber(r.state.slots, from, proto, n)
      && r.state == st.(slots := r.state.slots)
    ensures forall p :: p in st.peers && p.from == from && p.ps == Online && proto == Q3 ==> n == p.challenge
    ensures (forall p :: p in st.peers && p.from == from ==> p.ps != Online || proto == QW) ==>
      if exists i :: 0 <= i < |st.slots| && st.slots[i].adr == from
      then exists i :: 0 <= i < |st.slots| && st.slots[i].adr == from && n == st.slots[i].challenge
      else n == random
  {
    var q := Asked(st, from, proto, random, now);
    n := Answer(st.slots, q).challenge;
    var i, j := Challenges.Place(st.slots, q), Lookup(st.peers, 0, from);
    assert Granted(st.slots, q)[i] == Answer(st.slots, q);
    if j < |st.peers| { assert st.peers[j] in st.peers; }
    forall p | p in st.peers && p.from == from ensures j < |st.peers| && p == st.peers[j] {
      var k := PeerAt(st.peers, p);
    }
  }

  /** A request that names its stops and presents the number that the proxy keeps for it. */
  ghost predicate Presents(q: Connection, proto: Protocol, n: int, ps: seq<Pair>, stops: seq<Stop>) {
    && q.userinfo == Write(ps) && Routed(ps, stops, proto) && stops != [] && IsInt(n)
    && (proto == QW ==> q.version == 28 && q.challenge == n)
    && (proto == Q3 ==> Get(ps, "challenge") == Printed(n))
  }

  lemma NumberFound(ss: seq<Slot>, from: Address, proto: Protocol, n: int)
    requires DistinctUsed(ss) && from != NOWHERE && HasNumber(ss, from, proto, n)
    ensures var i := Find(ss, 0, from); i < |ss| && ss[i].proto == proto && ss[i].challenge == n
  {
    var i :| 0 <= i < |ss| && ss[i] == Slot(from, n, ss[i].time, proto);
  }

  /** What becomes of a connect request that presents the right number, while there is room: it
      leads to the first stop. */
  lemma ScreenedWell(st: State, maxclients: int, from: Address, q: Connection, now: int, proto: Protocol, n: int,
                     ps: seq<Pair>, stops: seq<Stop>, to: Address) returns (userinfo: string)
    requires Proxy.Good(st, maxclients) && from != NOWHERE && HasNumber(st.slots, from, proto, n)
    requires Presents(q, proto, n, ps, stops) && q.reach(StopTarget(stops[0], proto)) == At(to)
    requires |st.peers| < maxclients
    ensures Screen(st, from, q, now, maxclients)
         == Wanted(Admission(from, to, PortNumber(q, proto), proto, userinfo, now, q.sock))
  {
    NumberFound(st.slots, from, proto, n);
    var rs := NextStop(ps, stops, Link(0, 0), proto);
    NextAccepts(q, proto, n, ps);
    userinfo := Hop(Write(ps), DefaultPort(proto)).userinfo;
  }

  lemma NumberRead(q: Connection, proto: Protocol, ps: seq<Pair>)
    requires q.userinfo == Write(ps) && GoodInfo(ps)
    ensures |Get(ps, "qport")| < 256 ==> PortNumber(q, proto) == if proto == QW then q.qport else Atoi(Get(ps, "qport"))
  {
    ValueWrite(ps, "qport", PRX_SIZE);
  }

  /** If the first stop leads nowhere, nothing happens. */
  lemma NowhereToGo(st: State, maxclients: int, from: Address, q: Connection, now: int, proto: Protocol, n: int,
                    ps: seq<Pair>, stops: seq<Stop>)
    requires Proxy.Good(st, maxclients) && from != NOWHERE && HasNumber(st.slots, from, proto, n)
    requires Presents(q, proto, n, ps, stops) && |st.peers| < maxclients
    requires q.reach(StopTarget(stops[0], proto)).Unreachable?
    ensures Step(st, FromClient(from, false, Connect(q), now), maxclients) == Result(st, [])
  {
    NumberFound(st.slots, from, proto, n);
    var rs := NextStop(ps, stops, Link(0, 0), proto);
    NextAccepts(q, proto, n, ps);
    ScreenedNowhere(st, maxclients, from, q, now, Find(st.slots, 0, from));
  }

  lemma ScreenedNowhere(st: State, maxclients: int, from: Address, q: Connection, now: int, i: nat)
    requires i == Find(st.slots, 0, from) < |st.slots| && |st.peers| < maxclients
    requires Requested(q, st.slots[i].proto, st.slots[i].challenge)
    requires var r := Hop(Fit(q.userinfo, MAX_INFO_STRING), DefaultPort(st.slots[i].proto));
      r.Forward? && q.reach(r.target).Unreachable?
    ensures Step(st, FromClient(from, false, Connect(q), now), maxclients) == Result(st, [])
  {
    assert Screen(st, from, q, now, maxclients) == Refused(false);
  }

  /** If no socket can be had for a new client, nothing happens. */
  lemma NoSocket(st: State, maxclients: int, from: Address, q: Connection, now: int, proto: Protocol, n: int,
                 ps: seq<Pair>, stops: seq<Stop>, to: Address)
    requires Proxy.Good(st, maxclients) && from != NOWHERE && HasNumber(st.slots, from, proto, n)
    requires Presents(q, proto, n, ps, stops) && q.reach(StopTarget(stops[0], proto)) == At(to)
    requires |st.peers| < maxclients && q.sock == -1 && forall o :: o in st.peers ==> o.from != from
    ensures Step(st, FromClient(from, false, Connect(q), now), maxclients) == Result(st, [])
  {
    var u := ScreenedWell(st, maxclients, from, q, now, proto, n, ps, stops, to);
    assert forall k :: 0 <= k < |st.peers| ==> st.peers[k] in st.peers;
  }

  /** A new client gets a peer of its own, waiting for its server, on a socket of its own; a QW
      client is told so. */
  lemma NewClientIsAdmitted(st: State, maxclients: int, from: Address, q: Connection, now: int, proto: Protocol,
                            n: int, ps: seq<Pair>, stops: seq<Stop>, to: Address) returns (p: Peer)
    requires Proxy.Good(st, maxclients) && from != NOWHERE && HasNumber(st.slots, from, proto, n)
    requires Presents(q, proto, n, ps, stops) && q.reach(StopTarget(stops[0], proto)) == At(to)
    requires |st.peers| < maxclients && q.sock != INVALID_SOCKET && forall o :: o in st.peers ==> o.from != from
    ensures p.from == from && p.to == to && p.sock == q.sock && p.proto == proto && p.ps == Challenge
    ensures p.last == now && p.userid == st.userid + 1
    ensures |Get(ps, "qport")| < 256 ==> p.qport == if proto == QW then q.qport else Atoi(Get(ps, "qport"))
    ensures var r := Step(st, FromClient(from, false, Connect(q), now), maxclients);
      && r.state.peers == [p] + st.peers && r.state.open == st.open + {q.sock} && r.state.slots == st.slots
      && r.sends == if proto == QW then [Send(MAIN, from, ConnectReply)] else []
  {
    var u := ScreenedWell(st, maxclients, from, q, now, proto, n, ps, stops, to);
    assert forall k :: 0 <= k < |st.peers| ==> st.peers[k] in st.peers;
    NumberRead(q, proto, ps);
    p := Fresh(Admission(from, to, PortNumber(q, proto), proto, u, now, q.sock), st.userid + 1);
  }

  /** A client that has a peer keeps its socket and number; with QW the peer waits for its server
      again, with Q3 it stays as it is, and the client is told when it may go on. */
  lemma OldClientIsAdmitted(st: State, maxclients: int, from: Address, q: Connection, now: int, proto: Protocol,
                            n: int, ps: seq<Pair>, stops: seq<Stop>, to: Address, o: Peer) returns (p: Peer)
    requires Proxy.Good(st, maxclients) && from != NOWHERE && HasNumber(st.slots, from, proto, n)
    requires Presents(q, proto, n, ps, stops) && q.reach(StopTarget(stops[0], proto)) == At(to)
    requires |st.peers| < maxclients && o in st.peers && o.from == from
    ensures p.from == from && p.to == to && p.sock == o.sock && p.proto == proto && p.userid == o.userid
    ensures p.last == now && p.qport == PortNumber(q, proto) && p.challenge == o.challenge
    ensures p.ps == if proto == QW then Challenge else o.ps
    ensures var r := Step(st, FromClient(from, false, Connect(q), now), maxclients);
      && Replaced(st.peers, o, p, r.state.peers) && r.state.open == st.open && r.state.slots == st.slots
      && r.sends == if proto == QW then [Send(MAIN, from, ConnectReply)]
                    else if o.ps != Online then []
                    else if o.challenge == n then [Send(MAIN, from, ConnectReply)] else [Send(MAIN, from, Notice)]
  {
    var u := ScreenedWell(st, maxclients, from, q, now, proto, n, ps, stops, to);
    var a := Admission(from, to, PortNumber(q, proto), proto, u, now, q.sock);
    NumberFound(st.slots, from, proto, n);
    p := Reused(o, a);
    ReusedStep(st, maxclients, from, q, now, n, a, o, p);
  }

  lemma ReusedStep(st: State, maxclients: int, from: Address, q: Connection, now: int, n: int, a: Admission, o: Peer,
                   p: Peer)
    requires Proxy.Good(st, maxclients) && o in st.peers && o.from == from == a.from && p == Reused(o, a)
    requires Screen(st, from, q, now, maxclients) == Wanted(a)
    requires var i := Find(st.slots, 0, from); i < |st.slots| && st.slots[i].challenge == n
    ensures var r := Step(st, FromClient(from, false, Connect(q), now), maxclients);
      && Replaced(st.peers, o, p, r.state.peers) && r.state.open == st.open && r.state.slots == st.slots
      && r.sends == if a.proto == QW then [Send(MAIN, from, ConnectReply)]
                    else if o.ps != Online then []
                    else if o.challenge == n then [Send(MAIN, from, ConnectReply)] else [Send(MAIN, from, Notice)]
  {
    var j := PeerAt(st.peers, o);
    ReplacedAt(st.peers, j, p);
    var ps := st.peers[j := p];
    assert Admit(st, a).peers == ps;
    assert Lookup(ps, 0, from) == j by { assert forall k :: 0 <= k < j ==> ps[k] == st.peers[k]; }
    if a.proto == QW {} else if o.ps != Online {} else if o.challenge == n {} else {}
  }

  // ----- from the request to the connection

  lemma SaidStep(st: State, maxclients: int, p: Peer, m: ServerMessage, q: Peer)
    requires Proxy.Good(st, maxclients) && p in st.peers && m.OutOfBand? && p.ps == Challenge
    requires Said(p.proto, m).ChallengeIs? || Said(p.proto, m).Accepted?
    requires q == if Said(p.proto, m).Accepted? then p.(ps := Online) else p.(challenge := Said(p.proto, m).number)
    ensures var r := Step(st, FromServer(p.sock, p.to, false, m), maxclients);
      && q in r.state.peers && Proxy.Good(r.state, maxclients)
      && r.sends == if Said(p.proto, m).Accepted? then []
                    else [Send(p.sock, p.to, ConnectRequest(p.proto, p.qport, Said(p.proto, m).number, p.userinfo))]
  {
    var x := FromServer(p.sock, p.to, false, m);
    HeardStep(st, maxclients, p, m);
    StepGood(st, x, maxclients);
  }

  /** A new client that presents its number, and whose server then sends a challenge and accepts
      the connect packet, is connected to that server, with either protocol. */
  lemma HandshakeCompletes(st: State, maxclients: int, from: Address, q: Connection, now: int, proto: Protocol, n: int,
                           ps: seq<Pair>, stops: seq<Stop>, to: Address, a: ServerMessage, b: ServerMessage)
    returns (p: Peer)
    requires Proxy.Good(st, maxclients) && from != NOWHERE && HasNumber(st.slots, from, proto, n)
    requires Presents(q, proto, n, ps, stops) && q.reach(StopTarget(stops[0], proto)) == At(to)
    requires |st.peers| < maxclients && forall o :: o in st.peers ==> o.from != from
    requires q.sock != INVALID_SOCKET && q.sock !in st.open + {STDIN, MAIN}
    requires a.OutOfBand? && Said(proto, a).ChallengeIs? && b.OutOfBand? && Said(proto, b).Accepted?
    ensures p.from == from && p.to == to && p.sock == q.sock && p.proto == proto && p.ps == Online
    ensures p.challenge == Said(proto, a).number
    ensures var r1 := Step(st, FromClient(from, false, Connect(q), now), maxclients);
      var r2 := Step(r1.state, FromServer(q.sock, to, false, a), maxclients);
      var r3 := Step(r2.state, FromServer(q.sock, to, false, b), maxclients);
      && r2.sends == [Send(q.sock, to, ConnectRequest(proto, p.qport, p.challenge, p.userinfo))]
      && p in r3.state.peers && Proxy.Good(r3.state, maxclients)
  {
    var x := FromClient(from, false, Connect(q), now);
    var p1 := NewClientIsAdmitted(st, maxclients, from, q, now, proto, n, ps, stops, to);
    StepGood(st, x, maxclients);
    var st1 := Step(st, x, maxclients).state;
    var p2 := p1.(challenge := Said(proto, a).number);
    SaidStep(st1, maxclients, p1, a, p2);
    var st2 := Step(st1, FromServer(q.sock, to, false, a), maxclients).state;
    p := p2.(ps := Online);
    SaidStep(st2, maxclients, p2, b, p);
  }

  /** A client without a number, with another number, another version of QW or an unsound userinfo
      is told so, as is one without a `prx` key or when there are as many peers as may be;
      nothing changes. */
  lemma RefusalIsTold(st: State, maxclients: int, from: Address, q: Connection, now: int)
    requires Proxy.Good(st, maxclients)
    requires var i := Find(st.slots, 0, from);
      || i == |st.slots|
      || |st.peers| >= maxclients
      || (st.slots[i].proto == QW && (q.version != 28 || q.challenge != st.slots[i].challenge))
      || Validate(Fit(q.userinfo, 1024), 0) == Unsound
      || Value(Fit(q.userinfo, 1024), "prx", 256) == ""
    ensures Step(st, FromClient(from, false, Connect(q), now), maxclients) == Result(st, [Send(MAIN, from, Notice)])
  {
  }
}
