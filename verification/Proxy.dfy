module Proxy {
  /* The proxy as a state machine: one step for each datagram from a client, each datagram
     on a peer's socket, each reminder to a server and each end of frame. */

  import opened Challenges
  import opened Chaining
  import opened Connect
  import opened ConnectQ3
  import opened Info
  import opened Numbers
  import opened Peers

  /** The main socket, open since the start; peers have sockets of their own. */
  const MAIN := 3

  datatype State = State(peers: seq<Peer>, userid: nat, open: set<int>, slots: seq<Slot>)

  // ----- what comes in

  /** Where a name and port lead: nowhere if it cannot be resolved or is not allowed. */
  datatype Reach = Unreachable | At(to: Address)

  /** The arguments of a connect request, and what the system answers meanwhile. */
  datatype Connection = Connection(
    version: int, qport: int, challenge: int, userinfo: string, beyond: bool,
    reach: Target -> Reach, sock: int)

  datatype ClientMessage =
    | GetChallenge(proto: Protocol, random: int)
    | Connect(request: Connection)
    | Rcon(payload: seq<nat>)
    | Data(payload: seq<nat>, drop: bool)
    | Other

  /** What an out-of-band datagram from a server says. */
  datatype Saying = ChallengeIs(number: int) | Accepted | Print | Disconnect | Nothing

  /** QW and Q3 servers use different words, so a datagram has a reading for each. */
  datatype ServerMessage =
    | OutOfBand(asQW: Saying, asQ3: Saying, payload: seq<nat>)
    | InGame(payload: seq<nat>)
    | Runt

  datatype Input =
    | FromClient(from: Address, banned: bool, message: ClientMessage, now: int)
    | FromServer(sock: int, from: Address, banned: bool, answer: ServerMessage)
    | Remind(sock: int, now: int)
    | EndOfFrame(now: int, fine: real)

  // ----- what goes out

  datatype Content =
    | OfClient(client: Address, payload: seq<nat>)
    | OfServer(server: Address, payload: seq<nat>)
    | ChallengeReply(number: int)
    | ConnectReply
    | Notice
    | ConnectRequest(proto: Protocol, qport: int, challenge: int, userinfo: string)
    | ChallengeRequest
    | KeepAlive(qport: int)

  datatype Send = Send(sock: int, to: Address, what: Content)

  datatype Result = Result(state: State, sends: seq<Send>)

  function Quiet(st: State): Result {
    Result(st, [])
  }

  // ----- datagrams from clients

  /** The peering that SVC_GetChallenge asks for. */
  function PeeringOf(ps: seq<Peer>, from: Address): Peering {
    var i := Lookup(ps, 0, from);
    if i < |ps| && ps[i].ps == Online then Connected(ps[i].challenge) else NoPeer
  }

  function Asked(st: State, from: Address, proto: Protocol, random: int, now: int): Request {
    Request(from, proto, random, now, PeeringOf(st.peers, from))
  }

  /** CheckUserinfo; `beyond` is what the check finds if it reads on behind the end. */
  predicate Passes(userinfo: string, beyond: bool) {
    var v := Validate(userinfo, 0);
    v == Sound || (v == Beyond && beyond)
  }

  /** The challenge that a client presents: an argument for QW, a userinfo key for Q3. */
  function Presented(q: Connection, proto: Protocol): int {
    if proto == QW then q.challenge else Atoi(Value(Fit(q.userinfo, MAX_INFO_STRING), "challenge", PRX_SIZE))
  }

  /** The number that tells clients behind one address apart. */
  function PortNumber(q: Connection, proto: Protocol): int {
    if proto == QW then q.qport else Atoi(Value(Fit(q.userinfo, MAX_INFO_STRING), "qport", PRX_SIZE))
  }

  /** The right version of QW, a sound userinfo and the challenge of the slot. */
  predicate Requested(q: Connection, proto: Protocol, challenge: int) {
    && (proto == QW ==> q.version == QW_PROTOCOL_VERSION)
    && Passes(Fit(q.userinfo, MAX_INFO_STRING), q.beyond) && Presented(q, proto) == challenge
  }

  /** SVC_DirectConnect up to FWD_peer_new: a refusal, of which the client may be told, or
      the admission that is wanted. */
  datatype Screening = Refused(told: bool) | Wanted(admission: Admission)

  function Screen(st: State, from: Address, q: Connection, now: int, maxclients: int): Screening {
    var i := Find(st.slots, 0, from);
    if i == |st.slots| then Refused(true)
    else
      var proto := st.slots[i].proto;
      if !Requested(q, proto, st.slots[i].challenge) || |st.peers| >= maxclients then Refused(true)
      else
        match Hop(Fit(q.userinfo, MAX_INFO_STRING), DefaultPort(proto))
        case Refusal => Refused(true)
        case Forward(target, forwarded) =>
          match q.reach(target)
          case Unreachable => Refused(false)
          case At(to) => Wanted(Admission(from, to, PortNumber(q, proto), proto, forwarded, now, q.sock))
  }

  /** What becomes of a connect request. */
  datatype Decision = Rejected(told: bool) | Follow(admission: Admission)

  function Decide(st: State, from: Address, q: Connection, now: int, maxclients: int): Decision {
    match Screen(st, from, q, now, maxclients)
    case Refused(told) => Rejected(told)
    case Wanted(a) => if CanAdmit(st.peers, a, maxclients) then Follow(a) else Rejected(false)
  }

  function Admit(st: State, a: Admission): State {
    var isNew := Lookup(st.peers, 0, a.from) == |st.peers|;
    st.(peers := Admitted(st.peers, a, st.userid),
        userid := if isNew then st.userid + 1 else st.userid,
        open := if isNew then st.open + {a.sock} else st.open)
  }

  /** A QW client is told that it is connected to the proxy; a Q3 client only once its
      peer is connected with the challenge that the client uses. */
  function Reply(st: State, a: Admission, challenge: int): seq<Send> {
    var i := Lookup(st.peers, 0, a.from);
    if a.proto == QW then [Send(MAIN, a.from, ConnectReply)]
    else if i < |st.peers| && st.peers[i].ps == Online then
      [Send(MAIN, a.from, if st.peers[i].challenge == challenge then ConnectReply else Notice)]
    else []
  }

  function DirectConnect(st: State, from: Address, q: Connection, now: int, maxclients: int): Result {
    match Decide(st, from, q, now, maxclients)
    case Rejected(told) => Result(st, if told then [Send(MAIN, from, Notice)] else [])
    case Follow(a) =>
      var i := Find(st.slots, 0, from);
      Result(Admit(st, a), Reply(Admit(st, a), a, if i < |st.slots| then st.slots[i].challenge else 0))
  }

  function Copies(s: Send, n: nat): (r: seq<Send>)
    ensures |r| == n && forall i :: 0 <= i < n ==> r[i] == s
  {
    if n == 0 then [] else [s] + Copies(s, n - 1)
  }

  /** A datagram that is not for the proxy itself goes to the server of the client's peer;
      a QW client that leaves is dropped, and says so three times. */
  function Relay(st: State, from: Address, payload: seq<nat>, inGame: bool, drop: bool, now: int): Result {
    var i := Lookup(st.peers, 0, from);
    if i == |st.peers| then Quiet(st)
    else
      var p := st.peers[i];
      var leaves := p.ps == Online && p.proto == QW && inGame && drop;
      var q := p.(ps := if leaves then Drop else p.ps, last := now);
      Result(st.(peers := st.peers[i := q]),
             if p.ps == Online then Copies(Send(p.sock, p.to, OfClient(from, payload)), if leaves then 3 else 1)
             else [])
  }

  function ClientStep(st: State, from: Address, m: ClientMessage, now: int, maxclients: int): (r: Result)
    requires |st.slots| > 0
    ensures |r.state.slots| == |st.slots|
  {
    match m
    case GetChallenge(proto, random) =>
      var r := Asked(st, from, proto, random, now);
      Result(st.(slots := Granted(st.slots, r)), [Send(MAIN, from, ChallengeReply(Answer(st.slots, r).challenge))])
    case Connect(q) => DirectConnect(st, from, q, now, maxclients)
    case Rcon(payload) => Relay(st, from, payload, false, false, now)
    case Data(payload, drop) => Relay(st, from, payload, true, drop, now)
    case Other => Quiet(st)
  }

  // ----- datagrams from servers

  function BySocket(ps: seq<Peer>, i: nat, sock: int): (j: nat)
    requires i <= |ps|
    ensures i <= j <= |ps| && (j < |ps| ==> ps[j].sock == sock)
    ensures forall k :: i <= k < j ==> ps[k].sock != sock
    decreases |ps| - i
  {
    if i == |ps| || ps[i].sock == sock then i else BySocket(ps, i + 1, sock)
  }

  function Heard(p: Peer, m: ServerMessage): Saying {
    if !m.OutOfBand? then Nothing else if p.proto == QW then m.asQW else m.asQ3
  }

  /** The handlers of src/clc.c. */
  function Changed(p: Peer, s: Saying): Peer {
    match s
    case ChallengeIs(n) => if p.proto == QW || p.ps == Challenge then p.(challenge := n) else p
    case Accepted =>
      if p.proto == QW then p.(ps := Online) else if p.ps == Challenge then p.(ps := Online) else p
    case Disconnect => if p.proto == Q3 then p.(ps := Drop) else p
    case Print => p
    case Nothing => p
  }

  function Answers(p: Peer, from: Address, s: Saying, payload: seq<nat>): seq<Send> {
    match s
    case ChallengeIs(n) =>
      if p.ps == Challenge then [Send(p.sock, from, ConnectRequest(p.proto, p.qport, n, p.userinfo))] else []
    case Print => [Send(MAIN, p.from, OfServer(from, payload))]
    case Disconnect => if p.proto == Q3 then [Send(MAIN, p.from, OfServer(from, payload))] else []
    case Accepted => []
    case Nothing => []
  }

  function ServerStep(st: State, sock: int, from: Address, m: ServerMessage): Result {
    var i := BySocket(st.peers, 0, sock);
    if i == |st.peers| || st.peers[i].to != from then Quiet(st)
    else
      var p := st.peers[i];
      match m
      case OutOfBand(_, _, payload) =>
        Result(st.(peers := st.peers[i := Changed(p, Heard(p, m))]), Answers(p, from, Heard(p, m), payload))
      case InGame(payload) =>
        Result(st, if p.ps == Online then [Send(MAIN, p.from, OfServer(from, payload))] else [])
      case Runt => Quiet(st)
  }

  // ----- time

  function RemindStep(st: State, sock: int, now: int): Result {
    var i := BySocket(st.peers, 0, sock);
    if i < |st.peers| && st.peers[i].ps == Challenge && now - st.peers[i].connect > 2 then
      Result(st.(peers := st.peers[i := st.peers[i].(connect := now)]),
             [Send(st.peers[i].sock, st.peers[i].to, ChallengeRequest)])
    else Quiet(st)
  }

  function FrameEnd(st: State, now: int, fine: real): State {
    var ps := TimeOuts(st.peers, now, fine);
    st.(peers := Kept(ps), open := Closed(st.open, ps))
  }

  function KeepAlives(ps: seq<Probe>): (r: seq<Send>)
    ensures |r| == |ps| && forall i :: 0 <= i < |ps| ==> r[i] == Send(ps[i].sock, ps[i].to, KeepAlive(ps[i].qport))
  {
    seq(|ps|, i requires 0 <= i < |ps| => Send(ps[i].sock, ps[i].to, KeepAlive(ps[i].qport)))
  }

  function Step(st: State, x: Input, maxclients: int): (r: Result)
    requires |st.slots| > 0
    ensures |r.state.slots| == |st.slots|
  {
    match x
    case FromClient(from, banned, m, now) => if banned then Quiet(st) else ClientStep(st, from, m, now, maxclients)
    case FromServer(sock, from, banned, m) => if banned then Quiet(st) else ServerStep(st, sock, from, m)
    case Remind(sock, now) => RemindStep(st, sock, now)
    case EndOfFrame(now, fine) => Result(FrameEnd(st, now, fine), KeepAlives(Probes(st.peers, now, fine)))
  }

  // ----- invariants

  ghost predicate Good(st: State, maxclients: int) {
    && WellKept(st.peers, st.userid, st.open, maxclients)
    && |st.slots| == MAX_CHALLENGES && DistinctUsed(st.slots)
  }

  /** Datagrams come from somewhere, and a new socket is not one that is open. */
  ghost predicate Possible(st: State, x: Input) {
    x.FromClient? ==>
      x.from != NOWHERE && (x.message.Connect? ==> x.message.request.sock !in st.open + {STDIN, MAIN})
  }

  lemma AdmitGood(st: State, from: Address, q: Connection, now: int, maxclients: int)
    requires Good(st, maxclients) && q.sock !in st.open + {STDIN, MAIN}
    ensures Good(DirectConnect(st, from, q, now, maxclients).state, maxclients)
  {
    var d := Decide(st, from, q, now, maxclients);
    if d.Follow? {
      AdmittedKeeps(st.peers, d.admission, st.userid, st.open, maxclients);
    }
  }

  lemma RelayGood(st: State, from: Address, payload: seq<nat>, inGame: bool, drop: bool, now: int, maxclients: int)
    requires Good(st, maxclients)
    ensures Good(Relay(st, from, payload, inGame, drop, now).state, maxclients)
  {
    var i := Lookup(st.peers, 0, from);
    if i < |st.peers| {
      var r := Relay(st, from, payload, inGame, drop, now).state;
      UpdatedKeeps(st.peers, i, r.peers[i], st.userid, st.open, maxclients);
    }
  }

  lemma ServerGood(st: State, sock: int, from: Address, m: ServerMessage, maxclients: int)
    requires Good(st, maxclients)
    ensures Good(ServerStep(st, sock, from, m).state, maxclients)
  {
    var i := BySocket(st.peers, 0, sock);
    if i < |st.peers| {
      UpdatedKeeps(st.peers, i, Changed(st.peers[i], Heard(st.peers[i], m)), st.userid, st.open, maxclients);
    }
  }

  lemma FrameEndGood(st: State, now: int, fine: real, maxclients: int)
    requires Good(st, maxclients)
    ensures Good(FrameEnd(st, now, fine), maxclients)
    ensures forall p :: p in FrameEnd(st, now, fine).peers ==> p.ps != Drop && !TimedOut(p, now)
  {
    var ps := TimeOuts(st.peers, now, fine);
    TimeOutsKeep(st.peers, now, fine, st.userid, st.open, maxclients);
    KeptKeeps(ps, st.userid, st.open, maxclients);
    KeptOnTime(st.peers, now, fine);
  }

  lemma KeptOnTime(ps: seq<Peer>, now: int, fine: real)
    ensures forall p :: p in Kept(TimeOuts(ps, now, fine)) ==> p.ps != Drop && !TimedOut(p, now)
  {
    var qs := TimeOuts(ps, now, fine);
    forall p | p in Kept(qs) ensures p.ps != Drop && !TimedOut(p, now) {
      var i :| 0 <= i < |qs| && qs[i] == p;
      assert p == TimeOut(ps[i], now, fine);
    }
  }

  lemma RemindGood(st: State, sock: int, now: int, maxclients: int)
    requires Good(st, maxclients)
    ensures Good(RemindStep(st, sock, now).state, maxclients)
  {
    var i := BySocket(st.peers, 0, sock);
    if i < |st.peers| {
      UpdatedKeeps(st.peers, i, st.peers[i].(connect := now), st.userid, st.open, maxclients);
    }
  }

  /** Every step keeps the invariants. */
  lemma StepGood(st: State, x: Input, maxclients: int)
    requires Good(st, maxclients) && Possible(st, x)
    ensures Good(Step(st, x, maxclients).state, maxclients)
  {
    match x
    case FromClient(from, banned, m, now) =>
      match m {
        case GetChallenge(proto, random) =>
          SlotsGood(st.slots, Asked(st, from, proto, random, now));
        case Connect(q) => AdmitGood(st, from, q, now, maxclients);
        case Rcon(payload) => RelayGood(st, from, payload, false, false, now, maxclients);
        case Data(payload, drop) => RelayGood(st, from, payload, true, drop, now, maxclients);
        case Other =>
      }
    case FromServer(sock, from, banned, m) => ServerGood(st, sock, from, m, maxclients);
    case Remind(sock, now) => RemindGood(st, sock, now, maxclients);
    case EndOfFrame(now, fine) => FrameEndGood(st, now, fine, maxclients);
  }

  lemma SlotsGood(ss: seq<Slot>, r: Request)
    requires |ss| > 0 && DistinctUsed(ss) && r.adr != NOWHERE
    ensures DistinctUsed(Granted(ss, r))
  {
  }

  // ----- runs

  function Start(): State {
    State([], 0, {}, seq(MAX_CHALLENGES, _ => Slot(NOWHERE, 0, 0, QW)))
  }

  function After(xs: seq<Input>, maxclients: int): (st: State)
    ensures |st.slots| == MAX_CHALLENGES
  {
    if xs == [] then Start() else Step(After(xs[..|xs| - 1], maxclients), xs[|xs| - 1], maxclients).state
  }

  ghost predicate Run(xs: seq<Input>, maxclients: int) {
    forall k :: 0 <= k < |xs| ==> Possible(After(xs[..k], maxclients), xs[k])
  }

  lemma RunPrefix(xs: seq<Input>, n: nat, maxclients: int)
    requires Run(xs, maxclients) && n <= |xs|
    ensures Run(xs[..n], maxclients)
  {
    assert forall k :: 0 <= k <= n ==> xs[..n][..k] == xs[..k];
  }

  /** Over all runs peers have distinct addresses and falling userids, are at most
      `maxclients`, and own exactly the open sockets. */
  lemma {:induction false} AlwaysGood(xs: seq<Input>, maxclients: int)
    requires Run(xs, maxclients)
    ensures Good(After(xs, maxclients), maxclients)
    decreases |xs|
  {
    if xs == [] {
      assert Sockets([]) == {};
    } else {
      var n := |xs| - 1;
      RunPrefix(xs, n, maxclients);
      AlwaysGood(xs[..n], maxclients);
      StepGood(After(xs[..n], maxclients), xs[n], maxclients);
    }
  }

  // ----- who gets what

  /** The one peer of a client. */
  ghost predicate PeerOf(st: State, p: Peer, from: Address) {
    p in st.peers && p.from == from && forall q :: q in st.peers && q.from == from ==> q == p
  }

  /** The one peer that owns a socket. */
  ghost predicate OwnerOf(st: State, p: Peer, sock: int) {
    p in st.peers && p.sock == sock && forall q :: q in st.peers && q.sock == sock ==> q == p
  }

  /** What a client sends goes only to the server of its own connected peer, over that
      peer's socket, and unchanged. */
  ghost predicate ClientSafe(st: State, x: Input, s: Send) {
    s.what.OfClient? ==>
      && x.FromClient? && !x.banned && x.from == s.what.client
      && (x.message.Rcon? || x.message.Data?) && x.message.payload == s.what.payload
      && exists p :: PeerOf(st, p, x.from) && p.ps == Online && s.to == p.to && s.sock == p.sock
  }

  /** What a server sends reaches only the client of the peer on whose socket it came, and
      only if that peer talks to this server. */
  ghost predicate ServerSafe(st: State, x: Input, s: Send) {
    s.what.OfServer? ==>
      && x.FromServer? && !x.banned && x.from == s.what.server
      && !x.answer.Runt? && x.answer.payload == s.what.payload
      && exists p :: OwnerOf(st, p, x.sock) && p.to == x.from && s.to == p.from && s.sock == MAIN
  }

  lemma OnePeer(st: State, i: nat, maxclients: int)
    requires Good(st, maxclients) && i < |st.peers|
    ensures PeerOf(st, st.peers[i], st.peers[i].from) && OwnerOf(st, st.peers[i], st.peers[i].sock)
  {
  }

  lemma RelaySafe(st: State, x: Input, payload: seq<nat>, inGame: bool, drop: bool, maxclients: int, s: Send)
    requires Good(st, maxclients) && x.FromClient? && !x.banned
    requires (x.message.Rcon? || x.message.Data?) && x.message.payload == payload
    requires s in Relay(st, x.from, payload, inGame, drop, x.now).sends
    ensures ClientSafe(st, x, s) && ServerSafe(st, x, s)
  {
    var i := Lookup(st.peers, 0, x.from);
    OnePeer(st, i, maxclients);
    assert PeerOf(st, st.peers[i], x.from);
  }

  lemma ServerSafely(st: State, x: Input, maxclients: int, s: Send)
    requires Good(st, maxclients) && x.FromServer? && !x.banned
    requires s in ServerStep(st, x.sock, x.from, x.answer).sends
    ensures ClientSafe(st, x, s) && ServerSafe(st, x, s)
  {
    var i := BySocket(st.peers, 0, x.sock);
    OnePeer(st, i, maxclients);
    assert OwnerOf(st, st.peers[i], x.sock);
  }

  lemma ClientSafely(st: State, x: Input, maxclients: int, s: Send)
    requires Good(st, maxclients) && x.FromClient? && !x.banned
    requires s in ClientStep(st, x.from, x.message, x.now, maxclients).sends
    ensures ClientSafe(st, x, s) && ServerSafe(st, x, s)
  {
    if x.message.Rcon? {
      RelaySafe(st, x, x.message.payload, false, false, maxclients, s);
    } else if x.message.Data? {
      RelaySafe(st, x, x.message.payload, true, x.message.drop, maxclients, s);
    } else {
      assert !s.what.OfClient? && !s.what.OfServer?;
    }
  }

  lemma StepSafe(st: State, x: Input, maxclients: int, s: Send)
    requires Good(st, maxclients) && s in Step(st, x, maxclients).sends
    ensures ClientSafe(st, x, s) && ServerSafe(st, x, s)
  {
    if x.FromClient? && !x.banned {
      ClientSafely(st, x, maxclients, s);
    } else if x.FromServer? && !x.banned {
      ServerSafely(st, x, maxclients, s);
    } else {
      assert !s.what.OfClient? && !s.what.OfServer?;
    }
  }

  /** Relay safety of every step of every run. */
  lemma RelaysAreSafe(xs: seq<Input>, k: nat, maxclients: int, s: Send)
    requires Run(xs, maxclients) && k < |xs|
    requires s in Step(After(xs[..k], maxclients), xs[k], maxclients).sends
    ensures ClientSafe(After(xs[..k], maxclients), xs[k], s) && ServerSafe(After(xs[..k], maxclients), xs[k], s)
  {
    RunPrefix(xs, k, maxclients);
    AlwaysGood(xs[..k], maxclients);
    StepSafe(After(xs[..k], maxclients), xs[k], maxclients, s);
  }

  /** After each frame no peer is to be dropped, and none had reached the time limit. */
  lemma NothingStale(xs: seq<Input>, maxclients: int, now: int, fine: real)
    requires Run(xs, maxclients) && xs != [] && xs[|xs| - 1] == EndOfFrame(now, fine)
    ensures forall p :: p in After(xs, maxclients).peers ==> p.ps != Drop && !TimedOut(p, now)
  {
    var n := |xs| - 1;
    RunPrefix(xs, n, maxclients);
    AlwaysGood(xs[..n], maxclients);
    FrameEndGood(After(xs[..n], maxclients), now, fine, maxclients);
  }

  // ----- the handshake

  /** What matters for the handshake: a client is connected anew to some server, or the
      server of a client's peer sends its connection reply. */
  datatype Event = Connecting(client: Address) | Replying(client: Address, server: Address) | Otherwise

  ghost function EventOf(st: State, x: Input, maxclients: int): Event {
    match x
    case FromClient(from, banned, m, now) =>
      if !banned && m.Connect? && Decide(st, from, m.request, now, maxclients).Follow? then Connecting(from)
      else Otherwise
    case FromServer(sock, from, banned, m) =>
      var i := BySocket(st.peers, 0, sock);
      if !banned && m.OutOfBand? && m.asQW == Accepted && i < |st.peers| && st.peers[i].to == from
      then Replying(st.peers[i].from, from)
      else Otherwise
    case Remind(_, _) => Otherwise
    case EndOfFrame(_, _) => Otherwise
  }

  ghost function EventAt(xs: seq<Input>, k: nat, maxclients: int): Event
    requires k < |xs|
  {
    EventOf(After(xs[..k], maxclients), xs[k], maxclients)
  }

  /** A connection reply from `to` has come in since the client last connected. */
  ghost predicate Confirmed(xs: seq<Input>, from: Address, to: Address, maxclients: int) {
    exists k :: 0 <= k < |xs| && EventAt(xs, k, maxclients) == Replying(from, to)
      && forall l :: k < l < |xs| ==> EventAt(xs, l, maxclients) != Connecting(from)
  }

  ghost predicate QWOnline(p: Peer) {
    p.proto == QW && p.ps == Online
  }

  /** A QW peer that is connected after a step was so before it, with the same server, and
      the client has not connected anew; or the server's connection reply just came. */
  lemma StepConfirms(st: State, x: Input, maxclients: int, p: Peer)
    requires Good(st, maxclients) && Possible(st, x)
    requires p in Step(st, x, maxclients).state.peers && QWOnline(p)
    ensures
      || EventOf(st, x, maxclients) == Replying(p.from, p.to)
      || (EventOf(st, x, maxclients) != Connecting(p.from)
          && exists q :: q in st.peers && q.from == p.from && q.to == p.to && QWOnline(q))
  {
    match x
    case FromClient(from, banned, m, now) => ClientConfirms(st, from, banned, m, now, maxclients, p);
    case FromServer(sock, from, banned, m) => ServerConfirms(st, sock, from, banned, m, maxclients, p);
    case Remind(sock, now) => RemindConfirms(st, sock, now, p);
    case EndOfFrame(now, fine) => FrameConfirms(st, now, fine, p);
  }

  lemma RemindConfirms(st: State, sock: int, now: int, p: Peer)
    requires p in RemindStep(st, sock, now).state.peers && QWOnline(p)
    ensures exists q :: q in st.peers && q.from == p.from && q.to == p.to && QWOnline(q)
  {
    var i := BySocket(st.peers, 0, sock);
    if i < |st.peers| && p == st.peers[i].(connect := now) {
      assert st.peers[i] in st.peers;
    }
  }

  lemma FrameConfirms(st: State, now: int, fine: real, p: Peer)
    requires p in FrameEnd(st, now, fine).peers && QWOnline(p)
    ensures exists q :: q in st.peers && q.from == p.from && q.to == p.to && QWOnline(q)
  {
    var ps := TimeOuts(st.peers, now, fine);
    var i :| 0 <= i < |ps| && ps[i] == p;
    assert st.peers[i] in st.peers && p == TimeOut(st.peers[i], now, fine);
  }

  lemma ClientConfirms(st: State, from: Address, banned: bool, m: ClientMessage, now: int, maxclients: int, p: Peer)
    requires Good(st, maxclients)
    requires p in Step(st, FromClient(from, banned, m, now), maxclients).state.peers && QWOnline(p)
    ensures EventOf(st, FromClient(from, banned, m, now), maxclients) != Connecting(p.from)
    ensures exists q :: q in st.peers && q.from == p.from && q.to == p.to && QWOnline(q)
  {
    var i := Lookup(st.peers, 0, from);
    if i < |st.peers| { assert st.peers[i] in st.peers; }
    if m.Connect? && !banned && Decide(st, from, m.request, now, maxclients).Follow? {
      var a := Decide(st, from, m.request, now, maxclients).admission;
      NotTheNewOne(st.peers, a, st.userid, p);
    }
  }

  lemma NotTheNewOne(ps: seq<Peer>, a: Admission, userid: nat, p: Peer)
    requires DistinctFrom(ps) && p in Admitted(ps, a, userid) && QWOnline(p)
    ensures p.from != a.from && p in ps
  {
    var i, r := Lookup(ps, 0, a.from), Admitted(ps, a, userid);
    var k :| 0 <= k < |r| && r[k] == p;
  }

  lemma ServerConfirms(st: State, sock: int, from: Address, banned: bool, m: ServerMessage, maxclients: int, p: Peer)
    requires |st.slots| > 0 && QWOnline(p)
    requires p in Step(st, FromServer(sock, from, banned, m), maxclients).state.peers
    ensures EventOf(st, FromServer(sock, from, banned, m), maxclients) != Connecting(p.from)
    ensures EventOf(st, FromServer(sock, from, banned, m), maxclients) == Replying(p.from, p.to)
      || exists q :: q in st.peers && q.from == p.from && q.to == p.to && QWOnline(q)
  {
    var i := BySocket(st.peers, 0, sock);
    if i < |st.peers| { assert st.peers[i] in st.peers; }
  }

  lemma SameBefore(xs: seq<Input>, n: nat, k: nat, maxclients: int)
    requires k < n <= |xs|
    ensures EventAt(xs[..n], k, maxclients) == EventAt(xs, k, maxclients)
  {
    assert xs[..n][..k] == xs[..k];
  }

  lemma StillConfirmed(xs: seq<Input>, n: nat, from: Address, to: Address, maxclients: int)
    requires |xs| == n + 1 && Confirmed(xs[..n], from, to, maxclients)
    requires EventAt(xs, n, maxclients) != Connecting(from)
    ensures Confirmed(xs, from, to, maxclients)
  {
    var k :| 0 <= k < n && EventAt(xs[..n], k, maxclients) == Replying(from, to)
      && forall l :: k < l < n ==> EventAt(xs[..n], l, maxclients) != Connecting(from);
    SameBefore(xs, n, k, maxclients);
    forall l | k < l < |xs| ensures EventAt(xs, l, maxclients) != Connecting(from) {
      if l < n { SameBefore(xs, n, l, maxclients); } else { assert l == n; }
    }
  }

  /** Handshake safety: over all runs a connected QW peer has received a connection reply
      from its present server since its client last connected. */
  lemma {:induction false} HandshakeFirst(xs: seq<Input>, maxclients: int, p: Peer)
    requires Run(xs, maxclients) && p in After(xs, maxclients).peers && QWOnline(p)
    ensures Confirmed(xs, p.from, p.to, maxclients)
    decreases |xs|
  {
    if xs != [] {
      var n := |xs| - 1;
      var st := After(xs[..n], maxclients);
      RunPrefix(xs, n, maxclients);
      AlwaysGood(xs[..n], maxclients);
      StepConfirms(st, xs[n], maxclients, p);
      if EventAt(xs, n, maxclients) != Replying(p.from, p.to) {
        var q :| q in st.peers && q.from == p.from && q.to == p.to && QWOnline(q);
        HandshakeFirst(xs[..n], maxclients, q);
        StillConfirmed(xs, n, p.from, p.to, maxclients);
      }
    }
  }

  // ----- admission

  /** The numbers sent to the addresses so far, brought up to date by what a step sends. */
  function Noted(sent: map<Address, int>, sends: seq<Send>): map<Address, int> {
    if |sends| == 1 && sends[0].what.ChallengeReply? then sent[sends[0].to := sends[0].what.number] else sent
  }

  function Sent(xs: seq<Input>, maxclients: int): map<Address, int> {
    if xs == [] then map[]
    else
      var n := |xs| - 1;
      Noted(Sent(xs[..n], maxclients), Step(After(xs[..n], maxclients), xs[n], maxclients).sends)
  }

  lemma StepRemembers(st: State, x: Input, maxclients: int, sent: map<Address, int>)
    requires Good(st, maxclients) && Possible(st, x) && Remembered(st.slots, sent)
    ensures var r := Step(st, x, maxclients); Remembered(r.state.slots, Noted(sent, r.sends))
  {
    if x.FromClient? && x.message.GetChallenge? {
      GrantedGood(st.slots, sent, Asked(st, x.from, x.message.proto, x.message.random, x.now));
    } else {
      StepNoReply(st, x, maxclients);
    }
  }

  ghost predicate NoReply(st: State, r: Result) {
    r.state.slots == st.slots && forall s :: s in r.sends ==> !s.what.ChallengeReply?
  }

  lemma StepNoReply(st: State, x: Input, maxclients: int)
    requires |st.slots| > 0 && !(x.FromClient? && x.message.GetChallenge?)
    ensures NoReply(st, Step(st, x, maxclients))
  {
    match x
    case FromClient(from, banned, m, now) =>
      if m.Connect? {
        ConnectNoReply(st, from, m.request, now, maxclients);
      } else {
        ClientNoReply(st, from, m, now, maxclients);
      }
    case FromServer(sock, from, banned, m) => ServerNoReply(st, sock, from, m);
    case Remind(sock, now) =>
    case EndOfFrame(now, fine) =>
  }

  lemma ConnectNoReply(st: State, from: Address, q: Connection, now: int, maxclients: int)
    ensures NoReply(st, DirectConnect(st, from, q, now, maxclients))
  {
    var d := Decide(st, from, q, now, maxclients);
    if d.Follow? {} else {}
  }

  lemma ClientNoReply(st: State, from: Address, m: ClientMessage, now: int, maxclients: int)
    requires |st.slots| > 0 && !m.GetChallenge? && !m.Connect?
    ensures NoReply(st, ClientStep(st, from, m, now, maxclients))
  {
  }

  lemma ServerNoReply(st: State, sock: int, from: Address, m: ServerMessage)
    ensures NoReply(st, ServerStep(st, sock, from, m))
  {
    var i := BySocket(st.peers, 0, sock);
    if i < |st.peers| && m.OutOfBand? {
      var p, s := st.peers[i], Heard(st.peers[i], m);
      if s.Print? || s.Disconnect? {} else {}
    }
  }

  lemma {:induction false} AlwaysRemembers(xs: seq<Input>, maxclients: int)
    requires Run(xs, maxclients)
    ensures Remembered(After(xs, maxclients).slots, Sent(xs, maxclients))
    decreases |xs|
  {
    if xs != [] {
      var n := |xs| - 1;
      RunPrefix(xs, n, maxclients);
      AlwaysGood(xs[..n], maxclients);
      AlwaysRemembers(xs[..n], maxclients);
      StepRemembers(After(xs[..n], maxclients), xs[n], maxclients, Sent(xs[..n], maxclients));
    }
  }

  lemma ScreenedByChallenge(st: State, from: Address, q: Connection, now: int, maxclients: int)
    requires Screen(st, from, q, now, maxclients).Wanted?
    ensures var a, i := Screen(st, from, q, now, maxclients).admission, Find(st.slots, 0, from);
      && Passes(Fit(q.userinfo, MAX_INFO_STRING), q.beyond) && |st.peers| < maxclients && i < |st.slots|
      && a.proto == st.slots[i].proto && st.slots[i].challenge == Presented(q, a.proto)
  {
  }

  /** A client is led to the first hop of its chain, and in the connect packet of either
      protocol, whatever the numbers in it, the other hops and all other keys arrive. */
  lemma ScreenedByHop(st: State, from: Address, q: Connection, now: int, maxclients: int,
                      ps: seq<Pair>, stops: seq<Stop>, l: Link) returns (qs: seq<Pair>)
    requires Screen(st, from, q, now, maxclients).Wanted? && q.userinfo == Write(ps) && stops != [] && GoodLink(l)
    requires Routed(ps, stops, Screen(st, from, q, now, maxclients).admission.proto)
    ensures var a := Screen(st, from, q, now, maxclients).admission;
      && a.from == from && q.reach(StopTarget(stops[0], a.proto)) == At(a.to)
      && Delivered(a.proto, l, a.userinfo) == Write(qs)
      && Routed(qs, stops[1..], a.proto) && SameOthers(ps, qs, a.proto)
      && (a.proto == Q3 ==> Get(qs, CHALLENGE) == Printed(l.challenge))
  {
    var proto := Screen(st, from, q, now, maxclients).admission.proto;
    qs := NextStop(ps, stops, l, proto);
  }

  /** Over all runs a client is connected only if it presents the last challenge that was
      sent to its address, and only while there is room. */
  lemma AdmittedByChallenge(xs: seq<Input>, k: nat, maxclients: int)
    requires Run(xs, maxclients) && k < |xs| && xs[k].FromClient? && xs[k].message.Connect?
    requires EventAt(xs, k, maxclients) == Connecting(xs[k].from)
    ensures var st, sent, x := After(xs[..k], maxclients), Sent(xs[..k], maxclients), xs[k];
      && Passes(Fit(x.message.request.userinfo, MAX_INFO_STRING), x.message.request.beyond) && |st.peers| < maxclients
      && var a := Screen(st, x.from, x.message.request, x.now, maxclients).admission;
      && x.from in sent && sent[x.from] == Presented(x.message.request, a.proto)
  {
    RunPrefix(xs, k, maxclients);
    AlwaysGood(xs[..k], maxclients);
    AlwaysRemembers(xs[..k], maxclients);
    ScreenedByChallenge(After(xs[..k], maxclients), xs[k].from, xs[k].message.request, xs[k].now, maxclients);
  }

  // ----- what servers are sent

  /** What a peer keeps of the request that admitted its client. */
  ghost predicate Terms(a: Admission, p: Peer) {
    p.from == a.from && p.to == a.to && p.qport == a.qport && p.proto == a.proto && p.userinfo == a.userinfo
  }

  ghost predicate SameTerms(p: Peer, q: Peer) {
    p.from == q.from && p.to == q.to && p.qport == q.qport && p.proto == q.proto && p.userinfo == q.userinfo
  }

  ghost predicate KeepsTerms(ps: seq<Peer>, p: Peer) {
    exists q :: q in ps && SameTerms(p, q)
  }

  /** Step `k` admitted the client of the peer for the last time, on the peer's terms. */
  ghost predicate LastAdmitted(xs: seq<Input>, k: nat, p: Peer, maxclients: int) {
    && k < |xs| && EventAt(xs, k, maxclients) == Connecting(p.from)
    && xs[k].FromClient? && xs[k].message.Connect?
    && var d := Screen(After(xs[..k], maxclients), xs[k].from, xs[k].message.request, xs[k].now, maxclients);
    && d.Wanted? && Terms(d.admission, p)
    && forall l :: k < l < |xs| ==> EventAt(xs, l, maxclients) != Connecting(p.from)
  }

  lemma AdmittedTerms(ps: seq<Peer>, a: Admission, userid: nat, p: Peer)
    requires DistinctFrom(ps) && p in Admitted(ps, a, userid)
    ensures if p.from == a.from then Terms(a, p) else p in ps
  {
    var i, r := Lookup(ps, 0, a.from), Admitted(ps, a, userid);
    var k :| 0 <= k < |r| && r[k] == p;
  }

  lemma RelayTerms(st: State, from: Address, payload: seq<nat>, inGame: bool, drop: bool, now: int, p: Peer)
    requires p in Relay(st, from, payload, inGame, drop, now).state.peers
    ensures KeepsTerms(st.peers, p)
  {
    var i := Lookup(st.peers, 0, from);
    assert SameTerms(p, p);
    if i < |st.peers| {
      var q := st.peers[i];
      assert q in st.peers;
      if p !in st.peers { assert SameTerms(p, q); }
    }
  }

  lemma ClientTerms(st: State, from: Address, m: ClientMessage, now: int, maxclients: int, p: Peer)
    requires |st.slots| > 0 && !m.Connect? && p in ClientStep(st, from, m, now, maxclients).state.peers
    ensures KeepsTerms(st.peers, p)
  {
    assert SameTerms(p, p);
    match m
    case Rcon(payload) => RelayTerms(st, from, payload, false, false, now, p);
    case Data(payload, drop) => RelayTerms(st, from, payload, true, drop, now, p);
    case _ =>
  }

  lemma ServerTerms(st: State, sock: int, from: Address, m: ServerMessage, p: Peer)
    requires p in ServerStep(st, sock, from, m).state.peers
    ensures KeepsTerms(st.peers, p)
  {
    var i := BySocket(st.peers, 0, sock);
    assert SameTerms(p, p);
    if i < |st.peers| && m.OutOfBand? {
      var q := st.peers[i];
      assert q in st.peers && SameTerms(Changed(q, Heard(q, m)), q);
    }
  }

  lemma TimeTerms(st: State, now: int, fine: real, p: Peer)
    requires p in FrameEnd(st, now, fine).peers
    ensures KeepsTerms(st.peers, p)
  {
    var ps := TimeOuts(st.peers, now, fine);
    var i :| 0 <= i < |ps| && ps[i] == p;
    assert st.peers[i] in st.peers && SameTerms(TimeOut(st.peers[i], now, fine), st.peers[i]);
  }

  lemma RemindTerms(st: State, sock: int, now: int, p: Peer)
    requires p in RemindStep(st, sock, now).state.peers
    ensures KeepsTerms(st.peers, p)
  {
    var i := BySocket(st.peers, 0, sock);
    assert SameTerms(p, p);
    if i < |st.peers| { assert st.peers[i] in st.peers && SameTerms(st.peers[i].(connect := now), st.peers[i]); }
  }

  lemma ConnectTerms(st: State, from: Address, q: Connection, now: int, maxclients: int, p: Peer)
    requires Good(st, maxclients) && p in DirectConnect(st, from, q, now, maxclients).state.peers
    ensures var d := Decide(st, from, q, now, maxclients);
      if d.Follow? && p.from == from then Terms(d.admission, p) else p in st.peers
  {
    var d := Decide(st, from, q, now, maxclients);
    if d.Follow? { AdmittedTerms(st.peers, d.admission, st.userid, p); }
  }

  /** A peer after a step has the terms of the request that the step admits, or those it had. */
  lemma StepTerms(st: State, x: Input, maxclients: int, p: Peer)
    requires Good(st, maxclients) && p in Step(st, x, maxclients).state.peers
    ensures
      || (EventOf(st, x, maxclients) == Connecting(p.from) && x.FromClient? && x.message.Connect?
          && Terms(Decide(st, x.from, x.message.request, x.now, maxclients).admission, p))
      || (EventOf(st, x, maxclients) != Connecting(p.from) && KeepsTerms(st.peers, p))
  {
    assert SameTerms(p, p);
    match x
    case FromClient(from, banned, m, now) =>
      if !banned {
        if m.Connect? {
          ConnectTerms(st, from, m.request, now, maxclients, p);
        } else {
          ClientTerms(st, from, m, now, maxclients, p);
        }
      }
    case FromServer(sock, from, banned, m) => if !banned { ServerTerms(st, sock, from, m, p); }
    case Remind(sock, now) => RemindTerms(st, sock, now, p);
    case EndOfFrame(now, fine) => TimeTerms(st, now, fine, p);
  }

  lemma StillAdmitted(xs: seq<Input>, n: nat, k: nat, p: Peer, q: Peer, maxclients: int)
    requires |xs| == n + 1 && LastAdmitted(xs[..n], k, q, maxclients) && SameTerms(p, q)
    requires EventAt(xs, n, maxclients) != Connecting(p.from)
    ensures LastAdmitted(xs, k, p, maxclients)
  {
    SameBefore(xs, n, k, maxclients);
    assert xs[..n][..k] == xs[..k];
    forall l | k < l < |xs| ensures EventAt(xs, l, maxclients) != Connecting(p.from) {
      if l < n { SameBefore(xs, n, l, maxclients); } else { assert l == n; }
    }
  }

  /** Over all runs a peer has the server, the numbers and the userinfo of the request that
      last admitted its client. */
  lemma {:induction false} AlwaysOnTerms(xs: seq<Input>, maxclients: int, p: Peer) returns (k: nat)
    requires Run(xs, maxclients) && p in After(xs, maxclients).peers
    ensures LastAdmitted(xs, k, p, maxclients)
    decreases |xs|
  {
    var n := |xs| - 1;
    var st := After(xs[..n], maxclients);
    RunPrefix(xs, n, maxclients);
    AlwaysGood(xs[..n], maxclients);
    StepTerms(st, xs[n], maxclients, p);
    if EventAt(xs, n, maxclients) == Connecting(p.from) {
      k := n;
    } else {
      var q :| q in st.peers && SameTerms(p, q);
      k := AlwaysOnTerms(xs[..n], maxclients, q);
      StillAdmitted(xs, n, k, p, q, maxclients);
    }
  }

  /** A connect packet to a server is sent for one of the peers. */
  lemma RequestOwner(st: State, x: Input, maxclients: int, s: Send) returns (p: Peer)
    requires |st.slots| > 0 && s in Step(st, x, maxclients).sends && s.what.ConnectRequest?
    ensures p in st.peers
    ensures s == Send(p.sock, p.to, ConnectRequest(p.proto, p.qport, s.what.challenge, p.userinfo))
  {
    OnlyServersAsk(st, x, maxclients);
    p := st.peers[BySocket(st.peers, 0, x.sock)];
  }

  ghost predicate NoRequest(sends: seq<Send>) {
    forall s :: s in sends ==> !s.what.ConnectRequest?
  }

  /** Only for a datagram from a server is a connect packet sent. */
  lemma OnlyServersAsk(st: State, x: Input, maxclients: int)
    requires |st.slots| > 0
    ensures NoRequest(Step(st, x, maxclients).sends) || (x.FromServer? && !x.banned)
  {
    match x
    case FromClient(from, banned, m, now) => ClientAsksNot(st, from, m, now, maxclients);
    case FromServer(sock, from, banned, m) =>
    case Remind(sock, now) =>
    case EndOfFrame(now, fine) =>
  }

  lemma ClientAsksNot(st: State, from: Address, m: ClientMessage, now: int, maxclients: int)
    requires |st.slots| > 0
    ensures NoRequest(ClientStep(st, from, m, now, maxclients).sends)
  {
    if m.Connect? { ConnectNoReply(st, from, m.request, now, maxclients); }
  }

  /** Over all runs a connect packet goes to the server that the client asked for when it was
      last admitted, with the userinfo that was forwarded then. */
  lemma RequestOnTerms(xs: seq<Input>, maxclients: int, s: Send) returns (k: nat, p: Peer)
    requires Run(xs, maxclients) && xs != []
    requires var n := |xs| - 1; s in Step(After(xs[..n], maxclients), xs[n], maxclients).sends
    requires s.what.ConnectRequest?
    ensures LastAdmitted(xs[..|xs| - 1], k, p, maxclients)
    ensures s == Send(p.sock, p.to, ConnectRequest(p.proto, p.qport, s.what.challenge, p.userinfo))
  {
    var n := |xs| - 1;
    RunPrefix(xs, n, maxclients);
    p := RequestOwner(After(xs[..n], maxclients), xs[n], maxclients, s);
    k := AlwaysOnTerms(xs[..n], maxclients, p);
  }

  /** So a client with a chain of hops makes the proxy send the first hop a packet in which
      the other hops and all other keys arrive, with Q3 the challenge `c` among them. */
  lemma RequestDelivers(xs: seq<Input>, k: nat, p: Peer, maxclients: int, c: int, ps: seq<Pair>, stops: seq<Stop>)
    returns (qs: seq<Pair>)
    requires LastAdmitted(xs, k, p, maxclients) && xs[k].message.request.userinfo == Write(ps)
    requires Routed(ps, stops, p.proto) && stops != [] && IsInt(p.qport) && IsInt(c)
    ensures xs[k].message.request.reach(StopTarget(stops[0], p.proto)) == At(p.to)
    ensures Delivered(p.proto, Link(p.qport, c), p.userinfo) == Write(qs)
    ensures Routed(qs, stops[1..], p.proto) && SameOthers(ps, qs, p.proto)
    ensures p.proto == Q3 ==> Get(qs, CHALLENGE) == Printed(c)
  {
    var st, x := After(xs[..k], maxclients), xs[k];
    qs := ScreenedByHop(st, x.from, x.message.request, x.now, maxclients, ps, stops, Link(p.qport, c));
  }

  /** What the next proxy reads: with QW version and challenge are arguments of their own. */
  ghost predicate ReadAs(q: Connection, proto: Protocol, c: int, userinfo: string) {
    q.userinfo == userinfo && (proto == QW ==> q.version == QW_PROTOCOL_VERSION && q.challenge == c)
  }

  /** Such a packet passes the checks of a proxy that gave out the challenge. */
  lemma NextAccepts(q: Connection, proto: Protocol, c: int, qs: seq<Pair>)
    requires GoodInfo(qs) && IsInt(c) && ReadAs(q, proto, c, Write(qs))
    requires proto == Q3 ==> Get(qs, CHALLENGE) == Printed(c)
    ensures Requested(q, proto, c)
  {
    ValidateWrite(qs);
    if proto == Q3 {
      PrintedInt(c);
      ValueWrite(qs, CHALLENGE, PRX_SIZE);
      AtoiPrinted(c);
    }
  }
}
