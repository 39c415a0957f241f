module Bans {
  /* The ban list of src/ban.c: filters on addresses, printed as commands and read back. */

  import opened Numbers
  import opened Seqs
  import T = Tokenizer

  const MAX_IPFILTERS := 1024

  /** The four bytes of an address. */
  datatype Quad = Quad(a: nat, b: nat, c: nat, d: nat)

  datatype Kind = Ban | Safe

  /** `time` is the second at which the filter expires, or zero if it never does. */
  datatype Filter = Filter(mask: Quad, compare: Quad, time: int, kind: Kind)

  const ZERO := Quad(0, 0, 0, 0)
  const ALL_ONES := Quad(255, 255, 255, 255)

  // ----- StringToFilter

  /** A byte that is zero matches any value. */
  function MaskByte(b: nat): nat {
    if b != 0 then 255 else 0
  }

  function MaskOf(q: Quad): Quad {
    Quad(MaskByte(q.a), MaskByte(q.b), MaskByte(q.c), MaskByte(q.d))
  }

  datatype Bytes = Bad | Good(bytes: seq<nat>)

  /** Up to `k` numbers, each with one character behind it. */
  function Octets(s: string, p: nat, k: nat): (r: Bytes)
    requires p <= |s|
    ensures r.Good? ==> |r.bytes| <= k && forall i :: 0 <= i < |r.bytes| ==> r.bytes[i] < 256
    decreases k
  {
    if k == 0 then Good([])
    else if p == |s| || !IsDigit(s[p]) then Bad
    else
      var e := DigitsEnd(s, p);
      var b := Number(s[p..e]) % 256;
      if e == |s| then Good([b])
      else
        var r := Octets(s, e + 1, k - 1);
        if r.Bad? then Bad else Good([b] + r.bytes)
  }

  function ByteAt(bytes: seq<nat>, i: nat): nat {
    if i < |bytes| then bytes[i] else 0
  }

  datatype Parsed = NoFilter | Compare(quad: Quad)

  function StringToFilter(s: string): Parsed {
    match Octets(s, 0, 4)
    case Bad => NoFilter
    case Good(b) => Compare(Quad(ByteAt(b, 0), ByteAt(b, 1), ByteAt(b, 2), ByteAt(b, 3)))
  }

  // ----- the list

  predicate SameTarget(f: Filter, mask: Quad, compare: Quad) {
    f.mask == mask && f.compare == compare
  }

  /** The first slot from `i` on that is free or has the same target. */
  function Slot(fs: seq<Filter>, i: nat, f: Filter): (j: nat)
    requires i <= |fs|
    ensures i <= j <= |fs|
    decreases |fs| - i
  {
    if i == |fs| || fs[i].compare == ALL_ONES || SameTarget(fs[i], f.mask, f.compare) then i
    else Slot(fs, i + 1, f)
  }

  function Put(fs: seq<Filter>, f: Filter): (r: seq<Filter>)
    ensures |r| <= |fs| + 1
  {
    var i := Slot(fs, 0, f);
    if i < |fs| then fs[i := f] else if |fs| == MAX_IPFILTERS then fs else fs + [f]
  }

  datatype KindArg = WrongKind | OfKind(kind: Kind)

  function KindOf(s: string): KindArg {
    if s == "" || s == "ban" then OfKind(Ban) else if s == "safe" then OfKind(Safe) else WrongKind
  }

  /** When the filter expires: a number of seconds from now on, or since 1970. */
  function TimeOf(s: string, now: int): int {
    var later := s != "" && s[0] == '+';
    var t := if later then s[1..] else s;
    if now <= 0 || !HasNumber(t) then 0 else Atoi(t) + if later then now else 0
  }

  /** SV_AddIP_f */
  function AddIP(fs: seq<Filter>, argv: seq<string>, now: int): seq<Filter> {
    match StringToFilter(T.Arg(argv, 1))
    case NoFilter => fs
    case Compare(q) =>
      if q == ZERO then fs
      else
        match KindOf(T.Arg(argv, 2))
        case WrongKind => fs
        case OfKind(kind) => Put(fs, Filter(MaskOf(q), q, TimeOf(T.Arg(argv, 3), now), kind))
  }

  /** The first filter from `i` on with that target. */
  function Target(fs: seq<Filter>, i: nat, q: Quad): (j: nat)
    requires i <= |fs|
    ensures i <= j <= |fs|
    decreases |fs| - i
  {
    if i == |fs| || SameTarget(fs[i], MaskOf(q), q) then i else Target(fs, i + 1, q)
  }

  /** SV_RemoveIP_f */
  function RemoveIP(fs: seq<Filter>, s: string): seq<Filter> {
    match StringToFilter(s)
    case NoFilter => fs
    case Compare(q) => var i := Target(fs, 0, q); if i < |fs| then Without(fs, i) else fs
  }

  /** SV_Cmd_Banremove_f, once there is an argument. */
  function BanRemove(fs: seq<Filter>, s: string): seq<Filter> {
    var id := Atoi(s);
    if id < 0 || id >= |fs| || fs[id].kind == Safe then fs else Without(fs, id)
  }

  predicate Expired(f: Filter, now: int) {
    f.time != 0 && f.time <= now
  }

  /** SV_CleanBansIPList */
  function Cleaned(fs: seq<Filter>, now: int): (r: seq<Filter>)
    ensures forall f :: f in r <==> f in fs && !Expired(f, now)
  {
    if fs == [] then [] else (if Expired(fs[0], now) then [] else [fs[0]]) + Cleaned(fs[1..], now)
  }

  /** `in & mask`, for masks of zeros and ones. */
  function Masked(x: nat, m: nat): nat {
    if m == 255 then x else 0
  }

  predicate Matches(f: Filter, x: Quad) {
    && Masked(x.a, f.mask.a) == f.compare.a && Masked(x.b, f.mask.b) == f.compare.b
    && Masked(x.c, f.mask.c) == f.compare.c && Masked(x.d, f.mask.d) == f.compare.d
  }

  /** SV_IsBanned */
  predicate IsBanned(fs: seq<Filter>, x: Quad) {
    exists f :: f in fs && f.kind == Ban && Matches(f, x)
  }

  // ----- what every command keeps

  ghost predicate Byte(q: Quad) {
    q.a < 256 && q.b < 256 && q.c < 256 && q.d < 256
  }

  /** The mask of a filter says which of its bytes are not zero. */
  ghost predicate Canonical(f: Filter) {
    f.mask == MaskOf(f.compare) && f.compare != ZERO && Byte(f.compare)
  }

  ghost predicate Unique(fs: seq<Filter>) {
    forall i, j :: 0 <= i < j < |fs| ==> fs[i].compare != fs[j].compare
  }

  ghost predicate WellKept(fs: seq<Filter>) {
    |fs| <= MAX_IPFILTERS && Unique(fs) && forall f :: f in fs ==> Canonical(f)
  }

  /** All but the last are not 255.255.255.255. */
  ghost predicate OnesLast(fs: seq<Filter>) {
    forall i :: 0 <= i < |fs| - 1 ==> fs[i].compare != ALL_ONES
  }

  /** What every list that commands can make looks like. */
  ghost predicate Tidy(fs: seq<Filter>) {
    WellKept(fs) && OnesLast(fs)
  }

  lemma {:induction false} SlotIs(fs: seq<Filter>, i: nat, f: Filter)
    requires i <= |fs|
    ensures var j := Slot(fs, i, f);
      && (j < |fs| ==> fs[j].compare == ALL_ONES || SameTarget(fs[j], f.mask, f.compare))
      && forall k :: i <= k < j ==> fs[k].compare != ALL_ONES && !SameTarget(fs[k], f.mask, f.compare)
    decreases |fs| - i
  {
    if i < |fs| && fs[i].compare != ALL_ONES && !SameTarget(fs[i], f.mask, f.compare) { SlotIs(fs, i + 1, f); }
  }

  /** In a list where 255.255.255.255, which counts as a free slot, may stand anywhere,
      targets would stay unique exactly when it does not stand before the new target. */
  lemma PutUnique(fs: seq<Filter>, f: Filter)
    requires WellKept(fs) && Canonical(f)
    ensures WellKept(Put(fs, f)) <==>
      forall i, j :: 0 <= i < j < |fs| && fs[i].compare == ALL_ONES && f.compare != ALL_ONES ==>
        fs[j].compare != f.compare
  {
    SlotIs(fs, 0, f);
    var k, r := Slot(fs, 0, f), Put(fs, f);
    assert forall i :: 0 <= i < |fs| ==> fs[i] in fs && Canonical(fs[i]);
    assert forall g :: g in r ==> g == f || g in fs;
    if k < |fs| && fs[k].compare == ALL_ONES && f.compare != ALL_ONES {
      forall j | k < j < |fs| && fs[j].compare == f.compare ensures !WellKept(r) {
        assert r[k].compare == r[j].compare;
      }
    }
  }

  lemma WithoutKeeps(fs: seq<Filter>, i: nat)
    requires WellKept(fs) && i < |fs|
    ensures WellKept(Without(fs, i))
  {
    var r := Without(fs, i);
    assert forall j :: 0 <= j < |r| ==> r[j] == fs[if j < i then j else j + 1];
  }

  lemma {:induction false} CleanedKeeps(fs: seq<Filter>, now: int)
    requires WellKept(fs)
    ensures WellKept(Cleaned(fs, now)) && |Cleaned(fs, now)| <= |fs|
    decreases |fs|
  {
    if fs != [] {
      var r := Cleaned(fs[1..], now);
      assert forall f :: f in fs[1..] ==> f in fs;
      CleanedKeeps(fs[1..], now);
      forall f | f in r ensures f.compare != fs[0].compare {
        var i :| 0 <= i < |fs| - 1 && fs[1..][i] == f;
        assert fs[i + 1] == f;
      }
      assert forall j :: 0 <= j < |r| ==> r[j] in r;
    }
  }

  // ----- over any run of commands

  /** SV_AddIP_f, SV_RemoveIP_f, SV_Cmd_Banremove_f and SV_CleanBansIPList. */
  datatype Order = AddOrder(argv: seq<string>, now: int) | RemoveOrder(address: string)
    | BanRemoveOrder(id: string) | CleanOrder(now: int)

  function Obeyed(fs: seq<Filter>, o: Order): seq<Filter> {
    match o
    case AddOrder(argv, now) => AddIP(fs, argv, now)
    case RemoveOrder(address) => RemoveIP(fs, address)
    case BanRemoveOrder(id) => BanRemove(fs, id)
    case CleanOrder(now) => Cleaned(fs, now)
  }

  /** The list after the commands, from an empty one. */
  function Reached(os: seq<Order>): seq<Filter> {
    if os == [] then [] else Obeyed(Reached(os[..|os| - 1]), os[|os| - 1])
  }

  lemma PutTidy(fs: seq<Filter>, f: Filter)
    requires Tidy(fs) && Canonical(f)
    ensures Tidy(Put(fs, f))
  {
    PutUnique(fs, f);
    SlotIs(fs, 0, f);
    assert forall i :: 0 <= i < |fs| ==> Canonical(fs[i]) by {
      assert forall i :: 0 <= i < |fs| ==> fs[i] in fs;
    }
  }

  lemma WithoutTidy(fs: seq<Filter>, i: nat)
    requires Tidy(fs) && i < |fs|
    ensures Tidy(Without(fs, i))
  {
    WithoutKeeps(fs, i);
  }

  lemma {:induction false} CleanedOnes(fs: seq<Filter>, now: int)
    requires OnesLast(fs)
    ensures OnesLast(Cleaned(fs, now))
    decreases |fs|
  {
    if |fs| > 0 {
      var t := fs[1..];
      assert forall i :: 0 <= i < |t| - 1 ==> t[i] == fs[i + 1];
      CleanedOnes(t, now);
      if |fs| == 1 { assert t == []; }
    }
  }

  lemma AddTidy(fs: seq<Filter>, argv: seq<string>, now: int)
    requires Tidy(fs)
    ensures Tidy(AddIP(fs, argv, now))
  {
    var p := StringToFilter(T.Arg(argv, 1));
    if p.Compare? && p.quad != ZERO {
      var k := KindOf(T.Arg(argv, 2));
      if k.OfKind? { PutTidy(fs, Filter(MaskOf(p.quad), p.quad, TimeOf(T.Arg(argv, 3), now), k.kind)); }
    }
  }

  /** Over all runs of commands targets are unique and filters canonical, and
      255.255.255.255 can only be the last one. */
  lemma {:induction false} AlwaysTidy(os: seq<Order>)
    ensures Tidy(Reached(os))
    decreases |os|
  {
    if os != [] {
      var fs := Reached(os[..|os| - 1]);
      AlwaysTidy(os[..|os| - 1]);
      match os[|os| - 1]
      case AddOrder(argv, now) => AddTidy(fs, argv, now);
      case RemoveOrder(address) => RemoveTidy(fs, address);
      case BanRemoveOrder(id) => BanRemoveTidy(fs, id);
      case CleanOrder(now) => CleanedKeeps(fs, now); CleanedOnes(fs, now);
    }
  }

  lemma RemoveTidy(fs: seq<Filter>, s: string)
    requires Tidy(fs)
    ensures Tidy(RemoveIP(fs, s))
  {
    var p := StringToFilter(s);
    if p.Compare? && Target(fs, 0, p.quad) < |fs| { WithoutTidy(fs, Target(fs, 0, p.quad)); }
  }

  lemma BanRemoveTidy(fs: seq<Filter>, s: string)
    requires Tidy(fs)
    ensures Tidy(BanRemove(fs, s))
  {
    var id := Atoi(s);
    if 0 <= id < |fs| { WithoutTidy(fs, id); }
  }

  /** Removing a filter lifts exactly that ban: another address stays banned. */
  lemma RemovedBans(fs: seq<Filter>, i: nat, x: Quad)
    requires i < |fs|
    ensures IsBanned(fs, x) <==> IsBanned(Without(fs, i), x) || (fs[i].kind == Ban && Matches(fs[i], x))
  {
    var r := Without(fs, i);
    assert forall j :: 0 <= j < |r| ==> r[j] == fs[if j < i then j else j + 1];
    forall f | f in fs ensures f in r || f == fs[i] {
      var j :| 0 <= j < |fs| && fs[j] == f;
      if j != i { assert r[if j < i then j else j - 1] == f; }
    }
  }

  /** Filters put into the list one after the other. */
  function PutAll(fs: seq<Filter>, gs: seq<Filter>): seq<Filter>
    decreases |gs|
  {
    if gs == [] then fs else PutAll(Put(fs, gs[0]), gs[1..])
  }

  lemma PutAppends(fs: seq<Filter>, f: Filter)
    requires |fs| < MAX_IPFILTERS && forall g :: g in fs ==> g.compare != f.compare && g.compare != ALL_ONES
    ensures Put(fs, f) == fs + [f]
  {
    SlotIs(fs, 0, f);
    assert forall j :: 0 <= j < |fs| ==> fs[j] in fs;
  }

  lemma {:induction false} PutAllAppends(fs: seq<Filter>, gs: seq<Filter>)
    requires |fs + gs| <= MAX_IPFILTERS && Unique(fs + gs) && OnesLast(fs + gs)
    ensures PutAll(fs, gs) == fs + gs
    decreases |gs|
  {
    if gs == [] {
      assert fs + gs == fs;
    } else {
      forall g | g in fs ensures g.compare != gs[0].compare && g.compare != ALL_ONES {
        var i :| 0 <= i < |fs| && fs[i] == g;
        assert (fs + gs)[i] == g && (fs + gs)[|fs|] == gs[0];
      }
      PutAppends(fs, gs[0]);
      assert (fs + [gs[0]]) + gs[1..] == fs + gs;
      PutAllAppends(fs + [gs[0]], gs[1..]);
    }
  }

  lemma {:induction false} PutAllLength(fs: seq<Filter>, gs: seq<Filter>)
    ensures |PutAll(fs, gs)| <= |fs| + |gs|
    decreases |gs|
  {
    if gs != [] { PutAllLength(Put(fs, gs[0]), gs[1..]); }
  }

  lemma OnesTaken(fs: seq<Filter>, f: Filter)
    requires exists g :: g in fs && g.compare == ALL_ONES
    ensures |Put(fs, f)| == |fs|
  {
    SlotIs(fs, 0, f);
    var g :| g in fs && g.compare == ALL_ONES;
    var i :| 0 <= i < |fs| && fs[i] == g;
  }

  lemma {:induction false} PutAllConcat(fs: seq<Filter>, a: seq<Filter>, b: seq<Filter>)
    ensures PutAll(fs, a + b) == PutAll(PutAll(fs, a), b)
    decreases |a|
  {
    if a == [] {
      assert a + b == b;
    } else {
      PutAllConcat(Put(fs, a[0]), a[1..], b);
      assert (a + b)[1..] == a[1..] + b;
    }
  }

  lemma OnesSpoil(gs: seq<Filter>, i: nat, a: seq<Filter>, b: seq<Filter>)
    requires |gs| <= MAX_IPFILTERS && Unique(gs) && gs == a + b && b != [] && |a| == i + 1 && a[i].compare == ALL_ONES
    ensures |PutAll([], gs)| < |gs|
  {
    FirstOnes(gs, i, a, b);
    PutAllConcat([], a, b);
    assert a[i] in a;
    OnesTaken(a, b[0]);
    PutAllLength(Put(a, b[0]), b[1..]);
  }

  lemma UniquePrefix(a: seq<Filter>, b: seq<Filter>)
    requires Unique(a + b)
    ensures Unique(a)
  {
    var gs := a + b;
    forall j, k | 0 <= j < k < |a| ensures a[j].compare != a[k].compare {
      assert gs[j] == a[j] && gs[k] == a[k];
    }
  }

  lemma FirstOnes(gs: seq<Filter>, i: nat, a: seq<Filter>, b: seq<Filter>)
    requires |gs| <= MAX_IPFILTERS && Unique(gs) && gs == a + b && |a| == i + 1 && a[i].compare == ALL_ONES
    ensures PutAll([], a) == a
  {
    UniquePrefix(a, b);
    assert OnesLast(a);
    assert [] + a == a;
    PutAllAppends([], a);
  }

  /** Putting a list's own filters into an empty one rebuilds it, unless 255.255.255.255
      stands before another filter, which then takes its slot. */
  lemma PutAllRebuilds(gs: seq<Filter>)
    requires |gs| <= MAX_IPFILTERS && Unique(gs)
    ensures PutAll([], gs) == gs <==> OnesLast(gs)
  {
    if OnesLast(gs) {
      assert [] + gs == gs;
      PutAllAppends([], gs);
    } else {
      var i :| 0 <= i < |gs| - 1 && gs[i].compare == ALL_ONES;
      OnesSpoil(gs, i, gs[..i + 1], gs[i + 1..]);
    }
  }

  /** A filter for 255.255.255.255 is overwritten by the one that follows it. */
  lemma PutAllOver(a: seq<Filter>, ones: Filter, b: seq<Filter>)
    requires |a + [ones] + b| <= MAX_IPFILTERS && Unique(a + [ones] + b)
    requires ones.compare == ALL_ONES && b != []
    ensures PutAll([], a + [ones] + b) == a + b
  {
    var c, f, t := a + [ones], b[0], b[1..];
    FirstOnes(c + b, |a|, c, b);
    PutAllConcat([], c, b);
    NoneLike(a, ones, b);
    PutOver(a, ones, f);
    assert a + [f] + t == a + b;
    OthersUnique(a, ones, b);
    PutAllAppends(a + [f], t);
  }

  lemma NoneLike(a: seq<Filter>, ones: Filter, b: seq<Filter>)
    requires Unique(a + [ones] + b) && ones.compare == ALL_ONES && b != []
    ensures forall g :: g in a ==> g.compare != ALL_ONES && g.compare != b[0].compare
  {
    var gs := a + [ones] + b;
    forall g | g in a ensures g.compare != ALL_ONES && g.compare != b[0].compare {
      var i :| 0 <= i < |a| && a[i] == g;
      assert gs[i] == g && gs[|a|] == ones && gs[|a| + 1] == b[0];
    }
  }

  lemma PutOver(a: seq<Filter>, ones: Filter, f: Filter)
    requires ones.compare == ALL_ONES && forall g :: g in a ==> g.compare != ALL_ONES && g.compare != f.compare
    ensures Put(a + [ones], f) == a + [f]
  {
    var c := a + [ones];
    SlotIs(c, 0, f);
    assert forall i :: 0 <= i < |a| ==> c[i] == a[i] && a[i] in a;
    assert c[|a|] == ones;
  }

  lemma OthersUnique(a: seq<Filter>, ones: Filter, b: seq<Filter>)
    requires Unique(a + [ones] + b) && ones.compare == ALL_ONES
    ensures Unique(a + b) && OnesLast(a + b)
  {
    var gs, r := a + [ones] + b, a + b;
    assert forall i :: 0 <= i < |r| ==> r[i] == gs[if i < |a| then i else i + 1];
    assert gs[|a|] == ones;
  }
}
