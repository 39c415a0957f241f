module Chaining {
  /* SVC_DirectConnect's handling of the `prx` key: each proxy takes the first hop off and
     passes the rest on. */

  import opened Challenges
  import opened Connect
  import opened ConnectQ3
  import opened Info
  import opened Numbers

  const PRX := "prx"
  const MARK := "*qwfwd"
  const VERSION := "1.40-dev"
  const PRX_SIZE := 256

  /** The first occurrence of `c`, or the length. */
  function Index(s: string, c: char): (i: nat)
    ensures i <= |s| && (i < |s| ==> s[i] == c) && forall k :: 0 <= k < i ==> s[k] != c
  {
    if s == "" || s[0] == c then 0 else 1 + Index(s[1..], c)
  }

  datatype Target = Target(host: string, port: int)

  /** A host, and the port behind a colon or the default one. */
  function TargetOf(hop: string, defaultPort: int): Target {
    var c := Index(hop, ':');
    if c < |hop| then Target(hop[..c], Atoi(hop[c + 1..])) else Target(hop, defaultPort)
  }

  datatype Outcome = Refusal | Forward(target: Target, userinfo: string)

  function FirstHop(prx: string): string {
    var at := Index(prx, '@');
    if at + 1 < |prx| then prx[..at] else prx
  }

  /** The userinfo once the first hop of `prx` is taken off. */
  function Unhopped(userinfo: string, prx: string): string {
    var at := Index(prx, '@');
    if at + 1 < |prx| then SetKey(userinfo, PRX, prx[at + 1..], MAX_INFO_STRING, false) else Remove(userinfo, PRX)
  }

  /** What SVC_DirectConnect connects to, and the userinfo it sends there. */
  function Hop(userinfo: string, defaultPort: int): Outcome {
    var prx := Value(userinfo, PRX, PRX_SIZE);
    if prx == "" then Refusal
    else
      var t := TargetOf(FirstHop(prx), defaultPort);
      if t.port < 1 then Refusal else Forward(t, Set(Unhopped(userinfo, prx), MARK, VERSION, MAX_INFO_STRING, true))
  }

  /** The same, in place. */
  method PassOn(userinfo: InfoString, defaultPort: int) returns (r: Outcome)
    requires userinfo.Valid() && userinfo.buf.Length == MAX_INFO_STRING
    modifies userinfo`len, userinfo.buf
    ensures userinfo.Valid() && r == Hop(old(userinfo.Text()), defaultPort)
    ensures r.Forward? ==> userinfo.Text() == r.userinfo
  {
    var prx := userinfo.ValueForKey(PRX, PRX_SIZE);
    if prx == "" { return Refusal; }
    var host := TakeHop(userinfo, prx);
    var t := TargetOf(host, defaultPort);
    if t.port < 1 { return Refusal; }
    userinfo.SetValueForStarKey(MARK, VERSION, MAX_INFO_STRING, true);
    r := Forward(t, userinfo.Text());
  }

  method TakeHop(userinfo: InfoString, prx: string) returns (host: string)
    requires userinfo.Valid() && userinfo.buf.Length == MAX_INFO_STRING
    modifies userinfo`len, userinfo.buf
    ensures userinfo.Valid() && userinfo.Text() == Unhopped(old(userinfo.Text()), prx) && host == FirstHop(prx)
  {
    var at := Index(prx, '@');
    host := prx;
    if at + 1 < |prx| {
      userinfo.SetValueForKey(PRX, prx[at + 1..], MAX_INFO_STRING, false);
      host := prx[..at];
    } else {
      userinfo.RemoveKey(PRX);
    }
  }

  // ----- any number of hops

  function Join(hops: seq<string>): string {
    if hops == [] then "" else if |hops| == 1 then hops[0] else hops[0] + "@" + Join(hops[1..])
  }

  ghost predicate GoodHop(h: string, defaultPort: int) {
    && h != "" && '@' !in h && '\\' !in h && '"' !in h && Printable(h) == h
    && TargetOf(h, defaultPort).port >= 1
  }

  ghost predicate GoodHops(hops: seq<string>, defaultPort: int) {
    forall i :: 0 <= i < |hops| ==> GoodHop(hops[i], defaultPort)
  }

  ghost predicate AllClear(ps: seq<Pair>) {
    forall i :: 0 <= i < |ps| ==> Clear(ps[i].key) && Clear(ps[i].value)
  }

  /** The userinfo as pairs: well formed and sound, with unique keys, of a length that fits,
      and without characters that a connect packet does not carry. */
  ghost predicate GoodInfo(ps: seq<Pair>) {
    AllPlain(ps) && Full(ps) && UniqueKeys(ps) && |Write(ps)| < MAX_INFO_STRING && AllClear(ps)
  }

  /** The keys that a proxy leaves alone: with Q3 the challenge is another from proxy to proxy. */
  ghost predicate SameOthers(ps: seq<Pair>, qs: seq<Pair>, proto: Protocol) {
    forall k :: k != "prx" && k != "*qwfwd" && (proto == QW || k != "challenge") ==> Get(ps, k) == Get(qs, k)
  }

  lemma {:induction false} JoinGood(hops: seq<string>, defaultPort: int)
    requires GoodHops(hops, defaultPort) && hops != []
    ensures Join(hops) != "" && '\\' !in Join(hops) && '"' !in Join(hops)
    ensures Printable(Join(hops)) == Join(hops)
    decreases |hops|
  {
    assert GoodHop(hops[0], defaultPort);
    if |hops| > 1 {
      JoinGood(hops[1..], defaultPort);
      PrintableConcat(hops[0] + "@", Join(hops[1..]));
      PrintableConcat(hops[0], "@");
      PrintableAt("@");
    }
  }

  /** The first `@` ends the first hop. */
  lemma JoinSplit(hops: seq<string>, defaultPort: int)
    requires GoodHops(hops, defaultPort) && hops != []
    ensures var j, h := Join(hops), hops[0];
      if |hops| == 1 then j == h && Index(j, '@') == |j|
      else Index(j, '@') == |h| && |h| + 1 < |j| && j[..|h|] == h && j[|h| + 1..] == Join(hops[1..])
  {
    assert GoodHop(hops[0], defaultPort);
    IndexIs(Join(hops), '@', |hops[0]|);
    if |hops| > 1 { JoinGood(hops[1..], defaultPort); }
  }

  lemma PrintableAt(s: string)
    requires s == "@"
    ensures Printable(s) == s
  {
    assert s[1..] == "";
  }

  lemma IndexIs(s: string, c: char, i: nat)
    requires i <= |s| && (i < |s| ==> s[i] == c) && forall k :: 0 <= k < i ==> s[k] != c
    ensures Index(s, c) == i
  {
  }

  // ----- what a packet carries

  lemma ClearConcat(a: string, b: string)
    requires Clear(a) && Clear(b)
    ensures Clear(a + b)
  {
  }

  lemma {:induction false} WriteClear(ps: seq<Pair>)
    requires AllClear(ps)
    ensures Clear(Write(ps))
  {
    if ps != [] {
      var p := ps[0];
      ClearConcat("\\" + p.key, "\\" + p.value);
      assert Item(p) == ("\\" + p.key) + ("\\" + p.value);
      WriteClear(ps[1..]);
      ClearConcat(Item(p), Write(ps[1..]));
    }
  }

  lemma {:induction false} PrintableClear(s: string)
    requires Clear(s)
    ensures Clear(Printable(s))
  {
    if s != "" {
      PrintableClear(s[1..]);
      ClearConcat(if s[0] as int > 13 then [s[0]] else "", Printable(s[1..]));
    }
  }

  lemma {:induction false} GetClear(ps: seq<Pair>, key: string)
    requires AllClear(ps)
    ensures Clear(Get(ps, key))
  {
    if ps != [] && ps[0].key != key { GetClear(ps[1..], key); }
  }

  lemma {:induction false} DropClear(ps: seq<Pair>, key: string)
    requires AllClear(ps)
    ensures AllClear(Drop(ps, key))
  {
    if ps != [] && ps[0].key != key { DropClear(ps[1..], key); }
  }

  lemma SetClear(ps: seq<Pair>, key: string, value: string, max: int, limited: bool)
    requires AllClear(ps) && Clear(key) && Clear(value)
    ensures AllClear(SetPairs(ps, key, value, max, limited))
  {
    DropClear(ps, key);
    PrintableClear(key);
    PrintableClear(value);
  }

  // ----- what stays sound

  lemma {:induction false} DropFull(ps: seq<Pair>, key: string)
    requires Full(ps)
    ensures Full(Drop(ps, key))
  {
    if ps != [] && ps[0].key != key { DropFull(ps[1..], key); }
  }

  lemma SetFull(ps: seq<Pair>, key: string, value: string, max: int, limited: bool)
    requires Full(ps) && Printable(key) != "" && Printable(value) != ""
    ensures Full(SetPairs(ps, key, value, max, limited))
  {
    DropFull(ps, key);
  }

  // ----- how long it is

  /** What a key and its value take up. */
  function Share(ps: seq<Pair>, key: string): nat {
    if Get(ps, key) == "" then 0 else |key| + 2 + |Get(ps, key)|
  }

  lemma {:induction false} DropShare(ps: seq<Pair>, key: string)
    requires Full(ps)
    ensures |Write(Drop(ps, key))| == |Write(ps)| - Share(ps, key)
  {
    if ps != [] && ps[0].key != key {
      DropShare(ps[1..], key);
      assert Drop(ps, key)[1..] == Drop(ps[1..], key);
    }
  }

  /** Setting a key changes the length by what the key takes up. */
  lemma SetShare(ps: seq<Pair>, key: string, value: string, max: int, limited: bool)
    requires Full(ps) && AllPlain(ps) && UniqueKeys(ps) && Printable(key) == key && Printable(value) == value
    ensures var r := SetPairs(ps, key, value, max, limited);
      |Write(r)| - Share(r, key) == |Write(ps)| - Share(ps, key)
  {
    var d, p := Drop(ps, key), Pair(key, value);
    DropShare(ps, key);
    GetDrop(ps, key, key);
    if Accepted(ps, key, value, max, limited) {
      SetGet(ps, key, value, max, limited, key);
      WriteConcat(d, [p]);
      WriteOne(p);
    }
  }

  /** A key is set: the pairs stay good but for their length. */
  lemma SetGood(ps: seq<Pair>, key: string, value: string, max: int, limited: bool, r: seq<Pair>)
    requires GoodInfo(ps) && |Write(ps)| < max && Roomy(key, value) && r == SetPairs(ps, key, value, max, limited)
    requires Clear(key) && Clear(value) && Printable(key) == key != "" && Printable(value) == value != ""
    ensures Write(r) == Set(Write(ps), key, value, max, limited) && |Write(r)| < max
    ensures AllPlain(r) && Full(r) && UniqueKeys(r) && AllClear(r)
    ensures |Write(r)| - Share(r, key) == |Write(ps)| - Share(ps, key)
  {
    SetWrite(ps, key, value, max, limited);
    SetKeeps(ps, key, value, max, limited);
    SetClear(ps, key, value, max, limited);
    SetFull(ps, key, value, max, limited);
    SetShare(ps, key, value, max, limited);
    SetGet(ps, key, value, max, limited, key);
  }

  /** A value that is set is at most as long as the new one. */
  lemma SetShort(ps: seq<Pair>, key: string, value: string, max: int, limited: bool, r: seq<Pair>)
    requires GoodInfo(ps) && |Write(ps)| < max <= BUF_SIZE && !Refused(key, value, limited) && key != ""
    requires Printable(key) == key && Printable(value) == value && r == SetPairs(ps, key, value, max, limited)
    ensures |Get(r, key)| <= |value|
  {
    SetGet(ps, key, value, max, limited, key);
    ValueWrite(ps, key, BUF_SIZE);
    DropShare(ps, key);
    GetDrop(ps, key, key);
  }

  const MARK_ROOM := 16
  const CHALLENGE_ROOM := 22

  /** The length without what a proxy sets. */
  function Bare(ps: seq<Pair>): int {
    |Write(ps)| - Share(ps, CHALLENGE) - Share(ps, MARK)
  }

  /** There is room for the mark and for every challenge. */
  predicate Room(ps: seq<Pair>) {
    Bare(ps) + MARK_ROOM + CHALLENGE_ROOM < MAX_INFO_STRING
  }

  // ----- one hop, on pairs

  /** The pairs once the first hop is taken off `prx`. */
  function Shortened(ps: seq<Pair>, hops: seq<string>): seq<Pair>
    requires hops != []
  {
    if |hops| > 1 then SetPairs(ps, PRX, Join(hops[1..]), MAX_INFO_STRING, false) else Drop(ps, PRX)
  }

  function Marked(ps: seq<Pair>): seq<Pair> {
    SetPairs(ps, MARK, VERSION, MAX_INFO_STRING, true)
  }

  lemma ShortenedWrite(ps: seq<Pair>, hops: seq<string>, defaultPort: int)
    requires GoodInfo(ps) && hops != [] && GoodHops(hops, defaultPort) && Get(ps, PRX) == Join(hops)
    requires |Join(hops)| < PRX_SIZE
    ensures Write(Shortened(ps, hops))
         == if |hops| > 1 then SetKey(Write(ps), PRX, Join(hops[1..]), MAX_INFO_STRING, false)
            else Remove(Write(ps), PRX)
    ensures GoodInfo(Shortened(ps, hops))
  {
    if |hops| > 1 {
      JoinSplit(hops, defaultPort);
      JoinGood(hops[1..], defaultPort);
      RestClear(ps, hops, defaultPort);
      ReplacedWrite(ps, Join(hops[1..]));
    } else {
      DropClear(ps, PRX);
      DropFull(ps, PRX);
      RemoveWrite(ps, PRX);
      DropPlain(ps, PRX);
      DropShorter(ps, PRX);
      GetDrop(ps, PRX, PRX);
    }
  }

  lemma ReplacedWrite(ps: seq<Pair>, rest: string)
    requires GoodInfo(ps) && Clear(rest) && |rest| < PRX_SIZE && Printable(rest) == rest != ""
    ensures Write(SetPairs(ps, PRX, rest, MAX_INFO_STRING, false))
         == SetKey(Write(ps), PRX, rest, MAX_INFO_STRING, false)
    ensures GoodInfo(SetPairs(ps, PRX, rest, MAX_INFO_STRING, false))
  {
    OrdinaryPrx();
    SetGood(ps, PRX, rest, MAX_INFO_STRING, false, SetPairs(ps, PRX, rest, MAX_INFO_STRING, false));
  }

  lemma RestClear(ps: seq<Pair>, hops: seq<string>, defaultPort: int)
    requires GoodInfo(ps) && |hops| > 1 && GoodHops(hops, defaultPort) && Get(ps, PRX) == Join(hops)
    ensures Clear(Join(hops[1..]))
  {
    var j, k := Join(hops), |hops[0]| + 1;
    GetClear(ps, PRX);
    JoinSplit(hops, defaultPort);
    assert forall i :: 0 <= i < |j| - k ==> j[k..][i] == j[k + i];
  }

  lemma {:induction false} PrintableGood(s: string)
    requires forall i :: 0 <= i < |s| ==> s[i] as int > 13
    ensures Printable(s) == s
  {
    if s != "" { PrintableGood(s[1..]); }
  }

  ghost predicate Ordinary(s: string) {
    s != "" && Printable(s) == s && Clear(s) && Plain(s)
  }

  lemma OrdinaryText(s: string)
    requires s != "" && Plain(s) && forall i :: 0 <= i < |s| ==> 13 < s[i] as int < 255 && s[i] != '"'
    ensures Ordinary(s)
  {
    PrintableGood(s);
  }

  lemma OrdinaryPrx()
    ensures Ordinary(PRX)
  {
    OrdinaryText(PRX);
  }

  lemma OrdinaryMark()
    ensures Ordinary(MARK) && Ordinary(VERSION)
  {
    OrdinaryText(MARK);
    OrdinaryText(VERSION);
  }

  lemma OrdinaryChallenge()
    ensures Ordinary(CHALLENGE)
  {
    OrdinaryText(CHALLENGE);
  }

  /** There is always room for the rest of the chain in place of the whole. */
  lemma RestFits(ps: seq<Pair>, rest: string)
    requires GoodInfo(ps) && rest != "" && '\\' !in rest && '"' !in rest
    requires |rest| < |Get(ps, PRX)| < PRX_SIZE
    ensures Accepted(ps, PRX, rest, MAX_INFO_STRING, false)
  {
    AllOrNothing(ps, PRX, rest, MAX_INFO_STRING, false);
  }

  lemma ShortenedGet(ps: seq<Pair>, hops: seq<string>, defaultPort: int, k: string)
    requires GoodInfo(ps) && hops != [] && GoodHops(hops, defaultPort) && Get(ps, PRX) == Join(hops)
    requires |Join(hops)| < PRX_SIZE
    ensures Get(Shortened(ps, hops), PRX) == Join(hops[1..])
    ensures k != PRX ==> Get(Shortened(ps, hops), k) == Get(ps, k)
  {
    if |hops| > 1 {
      var rest := Join(hops[1..]);
      JoinSplit(hops, defaultPort);
      JoinGood(hops[1..], defaultPort);
      RestFits(ps, rest);
      OrdinaryPrx();
      SetGet(ps, PRX, rest, MAX_INFO_STRING, false, k);
    } else {
      GetDrop(ps, PRX, PRX);
      GetDrop(ps, PRX, k);
    }
  }

  lemma MarkedKeeps(ps: seq<Pair>, k: string)
    requires GoodInfo(ps)
    ensures GoodInfo(Marked(ps)) && Write(Marked(ps)) == Set(Write(ps), MARK, VERSION, MAX_INFO_STRING, true)
    ensures k != MARK ==> Get(Marked(ps), k) == Get(ps, k)
  {
    OrdinaryMark();
    SetGood(ps, MARK, VERSION, MAX_INFO_STRING, true, Marked(ps));
    SetGet(ps, MARK, VERSION, MAX_INFO_STRING, true, k);
  }

  /** One proxy: it connects to the first hop and passes on the others. */
  lemma OneHop(ps: seq<Pair>, hops: seq<string>, defaultPort: int)
    requires GoodInfo(ps) && hops != [] && GoodHops(hops, defaultPort) && Get(ps, PRX) == Join(hops)
    requires |Join(hops)| < PRX_SIZE
    ensures Hop(Write(ps), defaultPort)
         == Forward(TargetOf(hops[0], defaultPort), Write(Marked(Shortened(ps, hops))))
  {
    ValueWrite(ps, PRX, PRX_SIZE);
    JoinGood(hops, defaultPort);
    JoinSplit(hops, defaultPort);
    assert GoodHop(hops[0], defaultPort);
    ShortenedWrite(ps, hops, defaultPort);
    MarkedKeeps(Shortened(ps, hops), PRX);
  }

  lemma Advance(ps: seq<Pair>, hops: seq<string>, defaultPort: int)
    requires GoodInfo(ps) && hops != [] && GoodHops(hops, defaultPort) && Get(ps, PRX) == Join(hops)
    requires |Join(hops)| < PRX_SIZE
    ensures var qs := Marked(Shortened(ps, hops));
      GoodInfo(qs) && SameOthers(ps, qs, QW) && Get(qs, PRX) == Join(hops[1..]) && |Join(hops[1..])| < PRX_SIZE
  {
    var s := Shortened(ps, hops);
    ShortenedWrite(ps, hops, defaultPort);
    ShortenedGet(ps, hops, defaultPort, PRX);
    MarkedKeeps(s, PRX);
    JoinSplit(hops, defaultPort);
    forall k | k != PRX && k != MARK ensures Get(ps, k) == Get(Marked(s), k) {
      ShortenedGet(ps, hops, defaultPort, k);
      MarkedKeeps(s, k);
    }
  }

  // ----- the challenge in a Q3 userinfo

  function WithChallenge(ps: seq<Pair>, n: int): seq<Pair> {
    SetPairs(ps, CHALLENGE, Printed(n), Q3_ROOM, true)
  }

  lemma PrintedGood(n: int)
    requires IsInt(n)
    ensures |Printed(n)| <= 11 && Ordinary(Printed(n))
  {
    PrintedInt(n);
    OrdinaryText(Printed(n));
  }

  lemma ChallengeAccepted(ps: seq<Pair>, n: int)
    requires GoodInfo(ps) && IsInt(n)
    ensures Accepted(ps, CHALLENGE, Printed(n), Q3_ROOM, true)
  {
    PrintedGood(n);
    DropShorter(ps, CHALLENGE);
  }

  /** The challenge is in the userinfo, and nothing else has changed. */
  lemma ChallengeSet(ps: seq<Pair>, n: int, k: string)
    requires GoodInfo(ps) && IsInt(n)
    ensures Write(WithChallenge(ps, n)) == Challenged(Write(ps), n) && Clear(Write(WithChallenge(ps, n)))
    ensures |Write(WithChallenge(ps, n))| < Q3_ROOM && Bare(WithChallenge(ps, n)) == Bare(ps)
    ensures |Write(WithChallenge(ps, n))| < MAX_INFO_STRING ==> GoodInfo(WithChallenge(ps, n))
    ensures Get(WithChallenge(ps, n), CHALLENGE) == Printed(n)
    ensures k != CHALLENGE ==> Get(WithChallenge(ps, n), k) == Get(ps, k)
  {
    var v, qs := Printed(n), WithChallenge(ps, n);
    PrintedGood(n);
    OrdinaryChallenge();
    ChallengeAccepted(ps, n);
    SetGood(ps, CHALLENGE, v, Q3_ROOM, true, qs);
    SetGet(ps, CHALLENGE, v, Q3_ROOM, true, k);
    SetGet(ps, CHALLENGE, v, Q3_ROOM, true, MARK);
    WriteClear(qs);
  }

  lemma MarkedBare(ps: seq<Pair>)
    requires GoodInfo(ps)
    ensures Bare(Marked(ps)) == Bare(ps) && |Get(Marked(ps), MARK)| <= |VERSION|
  {
    OrdinaryMark();
    MarkedKeeps(ps, CHALLENGE);
    SetGood(ps, MARK, VERSION, MAX_INFO_STRING, true, Marked(ps));
    SetShort(ps, MARK, VERSION, MAX_INFO_STRING, true, Marked(ps));
  }

  lemma ShortenedBare(ps: seq<Pair>, hops: seq<string>, defaultPort: int)
    requires GoodInfo(ps) && hops != [] && GoodHops(hops, defaultPort) && Get(ps, PRX) == Join(hops)
    requires |Join(hops)| < PRX_SIZE
    ensures Bare(Shortened(ps, hops)) <= Bare(ps)
  {
    ShortenedGet(ps, hops, defaultPort, MARK);
    ShortenedGet(ps, hops, defaultPort, CHALLENGE);
    JoinSplit(hops, defaultPort);
    if |hops| > 1 {
      JoinGood(hops[1..], defaultPort);
      OrdinaryPrx();
      SetShare(ps, PRX, Join(hops[1..]), MAX_INFO_STRING, false);
    } else {
      DropShare(ps, PRX);
    }
  }

  /** With room at first, there is room at every hop. */
  lemma RoomKept(ps: seq<Pair>, hops: seq<string>, defaultPort: int, n: int)
    requires GoodInfo(ps) && hops != [] && GoodHops(hops, defaultPort) && Get(ps, PRX) == Join(hops)
    requires |Join(hops)| < PRX_SIZE && IsInt(n) && Room(ps)
    ensures var qs := WithChallenge(Marked(Shortened(ps, hops)), n); Room(qs) && |Write(qs)| < MAX_INFO_STRING
  {
    var s := Shortened(ps, hops);
    var rs := Marked(s);
    ShortenedWrite(ps, hops, defaultPort);
    ShortenedBare(ps, hops, defaultPort);
    MarkedKeeps(s, MARK);
    MarkedBare(s);
    ChallengeSet(rs, n, MARK);
    PrintedGood(n);
  }

  // ----- the whole chain

  function DefaultPort(proto: Protocol): int {
    if proto == QW then 27500 else 27960
  }

  /** The numbers in the connect packet from one proxy to the next. */
  datatype Link = Link(qport: int, challenge: int)

  ghost predicate GoodLink(l: Link) {
    IsInt(l.qport) && IsInt(l.challenge)
  }

  /** The userinfo that arrives when one is sent in a connect packet. */
  function Delivered(proto: Protocol, l: Link, userinfo: string): string {
    match proto
    case QW => Received(ConnectPacket(QW_PROTOCOL_VERSION, l.qport, l.challenge, userinfo)).userinfo
    case Q3 => ReceivedQ3(Q3Line(Challenged(userinfo, l.challenge)))
  }

  /** The pairs in the packet. */
  function Shipped(proto: Protocol, l: Link, ps: seq<Pair>): seq<Pair> {
    if proto == QW then ps else WithChallenge(ps, l.challenge)
  }

  /** Connecting over and over: each proxy goes by the packet of the one before. */
  datatype Journey = Journey(targets: seq<Target>, userinfo: string)

  function Travel(proto: Protocol, links: seq<Link>, userinfo: string): Journey
    decreases |links|
  {
    if links == [] then Journey([], userinfo)
    else
      var r := Hop(userinfo, DefaultPort(proto));
      if r.Refusal? then Journey([], userinfo)
      else Onward(r.target, Travel(proto, links[1..], Delivered(proto, links[0], r.userinfo)))
  }

  function Onward(t: Target, j: Journey): Journey {
    Journey([t] + j.targets, j.userinfo)
  }

  function Targets(hops: seq<string>, defaultPort: int): seq<Target> {
    if hops == [] then [] else [TargetOf(hops[0], defaultPort)] + Targets(hops[1..], defaultPort)
  }

  /** A packet delivers a good userinfo, with Q3 the challenge in it, exactly when that fits
      the buffer for a userinfo. */
  lemma DeliveredIs(proto: Protocol, l: Link, ps: seq<Pair>)
    requires GoodLink(l) && GoodInfo(ps)
    ensures var qs := Shipped(proto, l, ps);
      && (Delivered(proto, l, Write(ps)) == Write(qs) <==> |Write(qs)| < MAX_INFO_STRING)
      && (|Write(qs)| < MAX_INFO_STRING ==> GoodInfo(qs) && SameOthers(ps, qs, proto) && Get(qs, PRX) == Get(ps, PRX))
      && (proto == Q3 ==> Get(qs, CHALLENGE) == Printed(l.challenge))
  {
    if proto == QW {
      WriteClear(ps);
      PacketCarries(QW_PROTOCOL_VERSION, l.qport, l.challenge, Write(ps));
    } else {
      var qs := WithChallenge(ps, l.challenge);
      ChallengeSet(ps, l.challenge, PRX);
      forall k | k != CHALLENGE ensures Get(qs, k) == Get(ps, k) {
        ChallengeSet(ps, l.challenge, k);
      }
      LineRead(Write(qs));
      LineArrives(Write(qs), Q3Line(Write(qs)));
    }
  }

  lemma {:induction false} DropNothing(ps: seq<Pair>, key: string)
    requires Full(ps) && Get(ps, key) == ""
    ensures Drop(ps, key) == ps
  {
    if ps != [] { DropNothing(ps[1..], key); }
  }

  /** A userinfo that fills the buffer and has no challenge yet arrives without the challenge. */
  lemma ChallengeLost(ps: seq<Pair>, l: Link)
    requires GoodLink(l) && GoodInfo(ps) && |Write(ps)| == MAX_INFO_STRING - 1 && Get(ps, CHALLENGE) == ""
    ensures Delivered(Q3, l, Write(ps)) == Write(ps) && Value(Write(ps), CHALLENGE, PRX_SIZE) == ""
  {
    var qs, p := WithChallenge(ps, l.challenge), Pair(CHALLENGE, Printed(l.challenge));
    ChallengeSet(ps, l.challenge, PRX);
    ChallengeAccepted(ps, l.challenge);
    PrintedGood(l.challenge);
    OrdinaryChallenge();
    DropNothing(ps, CHALLENGE);
    assert qs == ps + [p];
    WriteConcat(ps, [p]);
    WriteOne(p);
    LineRead(Write(qs));
    LineArrives(Write(qs), Q3Line(Write(qs)));
    ValueWrite(ps, CHALLENGE, PRX_SIZE);
  }

  function Repeated(c: char, n: nat): (s: string)
    ensures |s| == n && forall i :: 0 <= i < n ==> s[i] == c
  {
    seq(n, i requires 0 <= i < n => c)
  }

  /** There are such userinfo strings. */
  lemma LongUserinfo(key: string, n: nat) returns (ps: seq<Pair>)
    requires key == "k" && n == 1020
    ensures GoodInfo(ps) && |Write(ps)| == MAX_INFO_STRING - 1 && Get(ps, CHALLENGE) == ""
  {
    var p := Pair(key, Repeated('x', n));
    ps := [p];
    WriteOne(p);
    assert Plain(p.value) && Clear(p.value);
  }

  ghost predicate Travels(ps: seq<Pair>, hops: seq<string>, proto: Protocol) {
    && GoodInfo(ps) && GoodHops(hops, DefaultPort(proto)) && Get(ps, PRX) == Join(hops)
    && |Join(hops)| < PRX_SIZE && (proto == Q3 ==> Room(ps))
  }

  /** One proxy and its packet: the first hop is taken, and the rest can travel on. */
  lemma NextHop(ps: seq<Pair>, hops: seq<string>, l: Link, proto: Protocol) returns (qs: seq<Pair>)
    requires Travels(ps, hops, proto) && hops != [] && GoodLink(l)
    ensures var r := Hop(Write(ps), DefaultPort(proto));
      && r.Forward? && r.target == TargetOf(hops[0], DefaultPort(proto))
      && Delivered(proto, l, r.userinfo) == Write(qs)
    ensures Travels(qs, hops[1..], proto) && SameOthers(ps, qs, proto)
    ensures proto == Q3 ==> Get(qs, CHALLENGE) == Printed(l.challenge)
  {
    var port, rs := DefaultPort(proto), Marked(Shortened(ps, hops));
    OneHop(ps, hops, port);
    Advance(ps, hops, port);
    qs := Shipped(proto, l, rs);
    if proto == Q3 { RoomKept(ps, hops, port, l.challenge); }
    DeliveredIs(proto, l, rs);
  }

  lemma {:induction false} HopsInOrder(ps: seq<Pair>, hops: seq<string>, links: seq<Link>, proto: Protocol)
    returns (qs: seq<Pair>)
    requires Travels(ps, hops, proto) && |links| == |hops| && forall l :: l in links ==> GoodLink(l)
    ensures Travel(proto, links, Write(ps)) == Journey(Targets(hops, DefaultPort(proto)), Write(qs))
    ensures GoodInfo(qs) && Get(qs, PRX) == "" && SameOthers(ps, qs, proto)
    ensures if hops == [] then qs == ps
            else proto == Q3 ==> Get(qs, CHALLENGE) == Printed(links[|links| - 1].challenge)
    decreases |hops|
  {
    if hops == [] {
      qs := ps;
    } else {
      var rest := links[1..];
      var rs := NextHop(ps, hops, links[0], proto);
      qs := HopsInOrder(rs, hops[1..], rest, proto);
      TravelOn(proto, links, rest, Write(ps), Write(rs));
      OthersTwice(ps, rs, qs, proto);
      assert rest != [] ==> rest[|rest| - 1] == links[|links| - 1];
    }
  }

  lemma TravelOn(proto: Protocol, links: seq<Link>, rest: seq<Link>, u: string, v: string)
    requires links != [] && rest == links[1..] && Hop(u, DefaultPort(proto)).Forward?
    requires Delivered(proto, links[0], Hop(u, DefaultPort(proto)).userinfo) == v
    ensures Travel(proto, links, u) == Onward(Hop(u, DefaultPort(proto)).target, Travel(proto, rest, v))
  {
  }

  lemma OthersTwice(ps: seq<Pair>, rs: seq<Pair>, qs: seq<Pair>, proto: Protocol)
    requires SameOthers(ps, rs, proto) && SameOthers(rs, qs, proto)
    ensures SameOthers(ps, qs, proto)
  {
  }

  // ----- hosts and port numbers

  /** A proxy as a client names it: a host, and perhaps a port number. */
  datatype Stop = Named(host: string) | Numbered(host: string, number: int)

  function StopText(s: Stop): string {
    match s
    case Named(host) => host
    case Numbered(host, number) => host + ":" + Printed(number)
  }

  /** Where the client means to go. */
  function StopTarget(s: Stop, proto: Protocol): Target {
    match s
    case Named(host) => Target(host, if proto == QW then 27500 else 27960)
    case Numbered(host, number) => Target(host, number)
  }

  ghost predicate GoodStop(s: Stop) {
    && s.host != "" && '@' !in s.host && ':' !in s.host && '\\' !in s.host && '"' !in s.host
    && Printable(s.host) == s.host && (s.Numbered? ==> s.number >= 1 && IsInt(s.number))
  }

  function StopTexts(stops: seq<Stop>): seq<string> {
    if stops == [] then [] else [StopText(stops[0])] + StopTexts(stops[1..])
  }

  function StopTargets(stops: seq<Stop>, proto: Protocol): seq<Target> {
    if stops == [] then [] else [StopTarget(stops[0], proto)] + StopTargets(stops[1..], proto)
  }

  lemma NumberedText(host: string, digits: string, colon: string)
    requires colon == ":" && Printable(host) == host && Ordinary(digits)
    ensures Printable(host + colon + digits) == host + colon + digits
  {
    OrdinaryText(colon);
    PrintableConcat(host + colon, digits);
    PrintableConcat(host, colon);
  }

  ghost predicate NoMarks(s: string) {
    forall k :: 0 <= k < |s| ==> s[k] != '@' && s[k] != '\\' && s[k] != '"'
  }

  lemma NumberedParts(host: string, d: string, h: string, n: nat)
    requires n == |host| && h == host + ":" + d && NoMarks(host) && NoMarks(d) && ':' !in host
    ensures |h| == n + 1 + |d| && h[..n] == host && h[n] == ':' && h[n + 1..] == d && NoMarks(h)
    ensures forall k :: 0 <= k < n ==> h[k] != ':'
  {
    assert forall k :: 0 <= k < n ==> h[k] == host[k];
    assert forall k :: n < k < |h| ==> h[k] == d[k - n - 1];
  }

  lemma NumberedTarget(host: string, number: int, h: string, proto: Protocol)
    requires GoodStop(Numbered(host, number)) && h == host + ":" + Printed(number)
    ensures TargetOf(h, DefaultPort(proto)) == Target(host, number) && NoMarks(h) && Printable(h) == h
  {
    var d, n := Printed(number), |host|;
    PrintedGood(number);
    AtoiPrinted(number);
    NumberedText(host, d, ":");
    NumberedParts(host, d, h, n);
    IndexIs(h, ':', n);
  }

  /** The host up to the colon is connected to, at the number behind it or, without one, at
      27500 with QW and 27960 with Q3. */
  lemma StopIsHop(s: Stop, proto: Protocol)
    requires GoodStop(s)
    ensures TargetOf(StopText(s), DefaultPort(proto)) == StopTarget(s, proto)
    ensures GoodHop(StopText(s), DefaultPort(proto))
  {
    if s.Numbered? {
      NumberedTarget(s.host, s.number, StopText(s), proto);
    } else {
      IndexIs(s.host, ':', |s.host|);
    }
  }

  lemma GoodCons(h: string, hops: seq<string>, all: seq<string>, defaultPort: int)
    requires GoodHop(h, defaultPort) && GoodHops(hops, defaultPort) && all == [h] + hops
    ensures GoodHops(all, defaultPort)
    ensures Targets(all, defaultPort) == [TargetOf(h, defaultPort)] + Targets(hops, defaultPort)
  {
    assert all[1..] == hops;
  }

  lemma {:induction false} StopsAreHops(stops: seq<Stop>, proto: Protocol)
    requires forall s :: s in stops ==> GoodStop(s)
    ensures GoodHops(StopTexts(stops), DefaultPort(proto))
    ensures Targets(StopTexts(stops), DefaultPort(proto)) == StopTargets(stops, proto)
    ensures |StopTexts(stops)| == |stops|
    decreases |stops|
  {
    if stops != [] {
      StopIsHop(stops[0], proto);
      StopsAreHops(stops[1..], proto);
      GoodCons(StopText(stops[0]), StopTexts(stops[1..]), StopTexts(stops), DefaultPort(proto));
    }
  }

  /** A number below one is refused. */
  lemma BadNumberRefused(ps: seq<Pair>, host: string, number: int, proto: Protocol)
    requires AllPlain(ps) && Get(ps, "prx") == host + ":" + Printed(number) && |Get(ps, "prx")| < 256
    requires NoMarks(host) && ':' !in host && number < 1 && IsInt(number)
    ensures Hop(Write(ps), DefaultPort(proto)) == Refusal
  {
    var h, d, n := Get(ps, PRX), Printed(number), |host|;
    ValueWrite(ps, PRX, PRX_SIZE);
    PrintedGood(number);
    AtoiPrinted(number);
    assert forall k :: 0 <= k < |d| ==> d[k] != '@';
    NumberedParts(host, d, h, n);
    IndexIs(h, ':', n);
    IndexIs(h, '@', |h|);
  }

  /** A userinfo that names the stops in its `prx` key. */
  ghost predicate Routed(ps: seq<Pair>, stops: seq<Stop>, proto: Protocol) {
    && GoodInfo(ps) && (forall s :: s in stops ==> GoodStop(s))
    && Get(ps, "prx") == Join(StopTexts(stops)) && |Join(StopTexts(stops))| < 256
    && (proto == Q3 ==> Room(ps))
  }

  lemma RoutedTravels(ps: seq<Pair>, stops: seq<Stop>, proto: Protocol)
    requires forall s :: s in stops ==> GoodStop(s)
    ensures Routed(ps, stops, proto) <==> Travels(ps, StopTexts(stops), proto)
  {
    StopsAreHops(stops, proto);
  }

  /** One proxy and its packet: the first stop is connected to, and the rest can travel on. */
  lemma NextStop(ps: seq<Pair>, stops: seq<Stop>, l: Link, proto: Protocol) returns (qs: seq<Pair>)
    requires Routed(ps, stops, proto) && stops != [] && GoodLink(l)
    ensures var r := Hop(Write(ps), DefaultPort(proto));
      && r.Forward? && r.target == StopTarget(stops[0], proto) && Delivered(proto, l, r.userinfo) == Write(qs)
    ensures Routed(qs, stops[1..], proto) && SameOthers(ps, qs, proto)
    ensures proto == Q3 ==> Get(qs, CHALLENGE) == Printed(l.challenge)
  {
    RoutedTravels(ps, stops, proto);
    StopIsHop(stops[0], proto);
    qs := NextHop(ps, StopTexts(stops), l, proto);
    RoutedTravels(qs, stops[1..], proto);
  }

  /** A chain of hosts, with or without port numbers, is travelled in order, with either
      protocol; the last one gets a userinfo without `prx`, and all other keys but the mark,
      and with Q3 the challenge, keep their values. */
  lemma ChainInOrder(ps: seq<Pair>, stops: seq<Stop>, links: seq<Link>, proto: Protocol) returns (qs: seq<Pair>)
    requires Routed(ps, stops, proto) && |links| == |stops| && forall l :: l in links ==> GoodLink(l)
    ensures Travel(proto, links, Write(ps)) == Journey(StopTargets(stops, proto), Write(qs))
    ensures GoodInfo(qs) && Get(qs, "prx") == "" && SameOthers(ps, qs, proto)
    ensures proto == Q3 && stops != [] ==> Get(qs, "challenge") == Printed(links[|links| - 1].challenge)
  {
    RoutedTravels(ps, stops, proto);
    StopsAreHops(stops, proto);
    qs := HopsInOrder(ps, StopTexts(stops), links, proto);
  }
}
