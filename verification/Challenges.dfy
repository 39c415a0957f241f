module Challenges {
  /* The challenge table of src/svc.c. */

  datatype Address = Address(ip: nat, port: nat)

  datatype Protocol = QW | Q3

  datatype Slot = Slot(adr: Address, challenge: int, time: int, proto: Protocol)

  const MAX_CHALLENGES := 1024
  const LATEST := 0x7fffffff

  /** The address of a slot that was never used; no datagram comes from there. */
  const NOWHERE := Address(0, 0)

  /** FindChallengeForAddr from slot `i` on. */
  function Find(ss: seq<Slot>, i: nat, a: Address): (j: nat)
    requires i <= |ss|
    ensures i <= j <= |ss| && (j < |ss| ==> ss[j].adr == a)
    ensures forall k :: i <= k < j ==> ss[k].adr != a
    decreases |ss| - i
  {
    if i == |ss| || ss[i].adr == a then i else Find(ss, i + 1, a)
  }

  /** The first of the slots before `n` with the least time below the latest one. */
  function Oldest(ss: seq<Slot>, n: nat): (j: nat)
    requires n <= |ss|
    ensures n > 0 ==> j < n
    ensures forall k :: 0 <= k < n && ss[k].time < LATEST ==> ss[j].time <= ss[k].time
  {
    if n == 0 then 0
    else
      var j := Oldest(ss, n - 1);
      if ss[n - 1].time < (if n == 1 then LATEST else Least(ss, j)) then n - 1 else j
  }

  function Least(ss: seq<Slot>, j: nat): int
    requires j < |ss|
  {
    if ss[j].time < LATEST then ss[j].time else LATEST
  }

  /** A request for a challenge: from where, with which protocol, the random number and
      the time, and the challenge of the client's peer if that is connected. */
  datatype Request = Request(adr: Address, proto: Protocol, random: int, now: int, peer: Peering)

  datatype Peering = NoPeer | Connected(challenge: int)

  function Place(ss: seq<Slot>, r: Request): (i: nat)
    requires |ss| > 0
    ensures i < |ss|
  {
    var i := Find(ss, 0, r.adr);
    if i < |ss| then i else Oldest(ss, |ss|)
  }

  predicate IsNew(ss: seq<Slot>, r: Request) {
    Find(ss, 0, r.adr) == |ss|
  }

  /** The slot once the request is answered; its challenge is what is sent back. */
  function Answer(ss: seq<Slot>, r: Request): (s: Slot)
    requires |ss| > 0
    ensures s.adr == r.adr
  {
    var s := if IsNew(ss, r) then Slot(r.adr, r.random, r.now, r.proto) else ss[Place(ss, r)].(proto := r.proto);
    if r.proto == Q3 && r.peer.Connected? then s.(challenge := r.peer.challenge) else s
  }

  /** SVC_GetChallenge on the table. */
  function Granted(ss: seq<Slot>, r: Request): (u: seq<Slot>)
    requires |ss| > 0
    ensures |u| == |ss|
  {
    ss[Place(ss, r) := Answer(ss, r)]
  }

  // ----- in place

  class Table {
    const slots: array<Slot>

    constructor ()
      ensures slots.Length == MAX_CHALLENGES && fresh(slots)
      ensures forall i :: 0 <= i < MAX_CHALLENGES ==> slots[i] == Slot(NOWHERE, 0, 0, QW)
    {
      slots := new Slot[MAX_CHALLENGES](_ => Slot(NOWHERE, 0, 0, QW));
    }

    /** FindChallengeForAddr */
    method FindChallenge(a: Address) returns (i: nat)
      requires slots.Length == MAX_CHALLENGES
      ensures i == Find(slots[..], 0, a)
    {
      i := 0;
      while i < MAX_CHALLENGES
        invariant 0 <= i <= MAX_CHALLENGES && Find(slots[..], i, a) == Find(slots[..], 0, a)
      {
        if slots[i].adr == a { break; }
        i := i + 1;
      }
    }

    /** CheckChallenge: the address is known with that challenge. */
    method CheckChallenge(a: Address, challenge: int) returns (ok: bool)
      requires slots.Length == MAX_CHALLENGES
      ensures ok <==>
        exists i :: 0 <= i < MAX_CHALLENGES && i == Find(slots[..], 0, a) && slots[i].challenge == challenge
    {
      var i := FindChallenge(a);
      ok := i < MAX_CHALLENGES && slots[i].challenge == challenge;
    }

    /** The search of SVC_GetChallenge: the slot of the address, or else the oldest. */
    method FindPlace(r: Request) returns (i: nat, isNew: bool)
      requires slots.Length == MAX_CHALLENGES
      ensures i == Place(slots[..], r) && isNew == IsNew(slots[..], r)
    {
      var oldest, oldestTime := 0, LATEST;
      ghost var ss := slots[..];
      i := 0;
      while i < MAX_CHALLENGES
        invariant 0 <= i <= MAX_CHALLENGES && Find(ss, i, r.adr) == Find(ss, 0, r.adr)
        invariant oldest == Oldest(ss, i) && oldestTime == (if i == 0 then LATEST else Least(ss, oldest))
      {
        if slots[i].adr == r.adr { break; }
        if slots[i].time < oldestTime {
          oldestTime := slots[i].time;
          oldest := i;
        }
        i := i + 1;
      }
      isNew := i == MAX_CHALLENGES;
      if isNew { i := oldest; }
    }

    /** SVC_GetChallenge: the result is the number sent back. */
    method GetChallenge(r: Request) returns (challenge: int)
      requires slots.Length == MAX_CHALLENGES
      modifies slots
      ensures slots[..] == Granted(old(slots[..]), r) && challenge == Answer(old(slots[..]), r).challenge
    {
      var i, isNew := FindPlace(r);
      if isNew {
        slots[i] := slots[i].(challenge := r.random);
        slots[i] := slots[i].(adr := r.adr);
        slots[i] := slots[i].(time := r.now);
      }
      slots[i] := slots[i].(proto := r.proto);
      if r.proto == Q3 && r.peer.Connected? {
        slots[i] := slots[i].(challenge := r.peer.challenge);
      }
      challenge := slots[i].challenge;
    }
  }

  // ----- any number of requests

  ghost predicate DistinctUsed(ss: seq<Slot>) {
    forall i, j :: 0 <= i < j < |ss| && ss[i].adr != NOWHERE ==> ss[i].adr != ss[j].adr
  }

  /** `sent` tells the last number sent to each address. */
  ghost predicate Remembered(ss: seq<Slot>, sent: map<Address, int>) {
    forall i :: 0 <= i < |ss| && ss[i].adr != NOWHERE ==> ss[i].adr in sent && sent[ss[i].adr] == ss[i].challenge
  }

  ghost predicate Good(ss: seq<Slot>, sent: map<Address, int>) {
    |ss| == MAX_CHALLENGES && DistinctUsed(ss) && Remembered(ss, sent)
  }

  /** A request keeps addresses distinct and stored numbers equal to the last ones sent. */
  lemma GrantedGood(ss: seq<Slot>, sent: map<Address, int>, r: Request)
    requires Good(ss, sent) && r.adr != NOWHERE
    ensures Good(Granted(ss, r), sent[r.adr := Answer(ss, r).challenge])
  {
  }

  function AfterAll(ss: seq<Slot>, rs: seq<Request>): (u: seq<Slot>)
    requires |ss| > 0
    ensures |u| == |ss|
    decreases |rs|
  {
    if rs == [] then ss else AfterAll(Granted(ss, rs[0]), rs[1..])
  }

  /** The last number sent to each address. */
  function SentAfter(ss: seq<Slot>, sent: map<Address, int>, rs: seq<Request>): map<Address, int>
    requires |ss| > 0
    decreases |rs|
  {
    if rs == [] then sent
    else SentAfter(Granted(ss, rs[0]), sent[rs[0].adr := Answer(ss, rs[0]).challenge], rs[1..])
  }

  /** Over any run the used slots have distinct addresses and hold the last numbers sent. */
  lemma {:induction false} AlwaysGood(ss: seq<Slot>, sent: map<Address, int>, rs: seq<Request>)
    requires Good(ss, sent) && forall i :: 0 <= i < |rs| ==> rs[i].adr != NOWHERE
    ensures Good(AfterAll(ss, rs), SentAfter(ss, sent, rs))
    decreases |rs|
  {
    if rs != [] {
      GrantedGood(ss, sent, rs[0]);
      AlwaysGood(Granted(ss, rs[0]), sent[rs[0].adr := Answer(ss, rs[0]).challenge], rs[1..]);
    }
  }

  /** How many of the requests come from addresses that have no slot. */
  function NewOnes(ss: seq<Slot>, rs: seq<Request>): nat
    requires |ss| > 0
    decreases |rs|
  {
    if rs == [] then 0 else (if IsNew(ss, rs[0]) then 1 else 0) + NewOnes(Granted(ss, rs[0]), rs[1..])
  }

  /** How many slots were stamped before `t`. */
  function Older(ss: seq<Slot>, t: int): nat {
    if ss == [] then 0 else Older(ss[..|ss| - 1], t) + if ss[|ss| - 1].time < t then 1 else 0
  }

  lemma {:induction false} OlderUpdate(ss: seq<Slot>, j: nat, s: Slot, t: int)
    requires j < |ss|
    ensures Older(ss[j := s], t) == Older(ss, t) - (if ss[j].time < t then 1 else 0) + (if s.time < t then 1 else 0)
  {
    var n := |ss| - 1;
    if j < n {
      assert ss[j := s][..n] == ss[..n][j := s];
      OlderUpdate(ss[..n], j, s, t);
    } else {
      assert ss[j := s][..n] == ss[..n];
    }
  }

  lemma {:induction false} SomeOlder(ss: seq<Slot>, t: int)
    requires Older(ss, t) > 0
    ensures exists k :: 0 <= k < |ss| && ss[k].time < t
  {
    var n := |ss| - 1;
    if ss[n].time >= t {
      SomeOlder(ss[..n], t);
      var k :| 0 <= k < n && ss[..n][k].time < t;
      assert ss[k].time < t;
    }
  }

  /** Requests come in the order of time, none before `t`. */
  ghost predicate InOrder(rs: seq<Request>, t: int) {
    && (forall i :: 0 <= i < |rs| ==> t <= rs[i].now)
    && (forall i, j :: 0 <= i < j < |rs| ==> rs[i].now <= rs[j].now)
  }

  lemma OneRequest(ss: seq<Slot>, r: Request, i: nat)
    requires i < |ss| && ss[i].time < LATEST && ss[i].time <= r.now
    requires IsNew(ss, r) ==> Older(ss, ss[i].time) > 0
    ensures var u := Granted(ss, r);
      && u[i].adr == ss[i].adr && u[i].time == ss[i].time
      && Older(u, ss[i].time) == Older(ss, ss[i].time) - if IsNew(ss, r) then 1 else 0
  {
    var j, t := Place(ss, r), ss[i].time;
    OlderUpdate(ss, j, Answer(ss, r), t);
    if IsNew(ss, r) {
      SomeOlder(ss, t);
      var k :| 0 <= k < |ss| && ss[k].time < t;
      assert ss[j].time <= ss[k].time;
    }
  }

  /** An entry survives at least as many new addresses as there were slots stamped before it. */
  lemma {:induction false} Survives(ss: seq<Slot>, rs: seq<Request>, i: nat)
    requires i < |ss| && ss[i].time < LATEST && InOrder(rs, ss[i].time)
    requires NewOnes(ss, rs) <= Older(ss, ss[i].time)
    ensures AfterAll(ss, rs)[i].adr == ss[i].adr && AfterAll(ss, rs)[i].time == ss[i].time
    decreases |rs|
  {
    if rs != [] {
      OneRequest(ss, rs[0], i);
      Survives(Granted(ss, rs[0]), rs[1..], i);
    }
  }
}
