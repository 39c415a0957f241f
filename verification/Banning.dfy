module Banning {
  /* Which addresses the commands of src/ban.c ban, in terms of the bytes of the addresses. */

  import opened BanFile
  import opened Bans
  import opened Numbers
  import opened Seqs
  import T = Tokenizer

  /** Every byte of the filter that is not zero is that of the address. */
  predicate Covers(q: Quad, x: Quad) {
    (q.a == 0 || q.a == x.a) && (q.b == 0 || q.b == x.b) && (q.c == 0 || q.c == x.c) && (q.d == 0 || q.d == x.d)
  }

  lemma MatchesIs(f: Filter, x: Quad)
    requires Canonical(f)
    ensures Matches(f, x) <==> Covers(f.compare, x)
  {
  }

  lemma BannedIs(fs: seq<Filter>, x: Quad)
    requires forall f :: f in fs ==> Canonical(f)
    ensures IsBanned(fs, x) <==> exists f :: f in fs && f.kind == Ban && Covers(f.compare, x)
  {
    forall f | f in fs ensures Matches(f, x) <==> Covers(f.compare, x) {
      MatchesIs(f, x);
    }
  }

  /** Over all runs of commands an address is banned exactly when a ban covers it; safe filters
      ban nothing. */
  lemma AlwaysCovered(os: seq<Order>, x: Quad)
    ensures IsBanned(Reached(os), x) <==> exists f :: f in Reached(os) && f.kind == Ban && Covers(f.compare, x)
  {
    AlwaysTidy(os);
    BannedIs(Reached(os), x);
  }

  // ----- adding

  ghost predicate Names(fs: seq<Filter>, q: Quad) {
    exists h :: h in fs && h.compare == q
  }

  /** A filter for `q` takes the place of one for the same address, or else of one for
      255.255.255.255; all others stay. */
  ghost predicate Outlives(fs: seq<Filter>, g: Filter, q: Quad) {
    g in fs && g.compare != q && (g.compare != Quad(255, 255, 255, 255) || Names(fs, q))
  }

  lemma PutIs(fs: seq<Filter>, f: Filter, g: Filter)
    requires Tidy(fs) && Canonical(f) && f.compare != ALL_ONES && |fs| < 1024
    ensures g in Put(fs, f) <==> g == f || Outlives(fs, g, f.compare)
  {
    var i := Slot(fs, 0, f);
    SlotIs(fs, 0, f);
    assert forall k :: 0 <= k < |fs| ==> fs[k] in fs && Canonical(fs[k]);
    if i == |fs| {
      assert !Names(fs, f.compare);
    } else if fs[i].compare == f.compare {
      assert Names(fs, f.compare);
      ReplacedIs(fs, i, f, g);
    } else {
      assert fs[i].compare == ALL_ONES && i == |fs| - 1;
      assert !Names(fs, f.compare);
      ReplacedIs(fs, i, f, g);
    }
  }

  lemma ReplacedIs(fs: seq<Filter>, i: nat, f: Filter, g: Filter)
    requires i < |fs| && Unique(fs)
    ensures g in fs[i := f] <==> g == f || (g in fs && g.compare != fs[i].compare)
  {
    assert fs[i := f][i] == f;
    if g in fs && g.compare != fs[i].compare {
      var k :| 0 <= k < |fs| && fs[k] == g;
      assert fs[i := f][k] == g;
    }
    if g in fs[i := f] && g != f {
      var k :| 0 <= k < |fs| && fs[i := f][k] == g;
      assert fs[k] == g && k != i;
    }
  }

  ghost predicate Ordinary(q: Quad) {
    Byte(q) && q != Quad(0, 0, 0, 0) && q != Quad(255, 255, 255, 255)
  }

  ghost predicate AddsFilter(fs: seq<Filter>, f: Filter, r: seq<Filter>) {
    forall g :: g in r <==> g == f || Outlives(fs, g, f.compare)
  }

  /** What a command adds: a filter for that address, of that kind, with that time. */
  ghost predicate Adds(fs: seq<Filter>, q: Quad, time: int, kind: Kind, r: seq<Filter>) {
    exists f: Filter :: Canonical(f) && f.compare == q && f.time == time && f.kind == kind && AddsFilter(fs, f, r)
  }

  lemma AddIs(os: seq<Order>, argv: seq<string>, q: Quad, now: int)
    requires Ordinary(q) && |Reached(os)| < 1024 && T.Arg(argv, 1) == Dots(q) && KindOf(T.Arg(argv, 2)).OfKind?
    ensures Adds(Reached(os), q, TimeOf(T.Arg(argv, 3), now), KindOf(T.Arg(argv, 2)).kind,
                 AddIP(Reached(os), argv, now))
  {
    var fs, f := Reached(os), Filter(MaskOf(q), q, TimeOf(T.Arg(argv, 3), now), KindOf(T.Arg(argv, 2)).kind);
    AlwaysTidy(os);
    DotsBack(q);
    assert AddIP(fs, argv, now) == Put(fs, f);
    forall g ensures g in Put(fs, f) <==> g == f || Outlives(fs, g, q) {
      PutIs(fs, f, g);
    }
  }

  lemma AddsBans(os: seq<Order>, q: Quad, time: int, kind: Kind, r: seq<Filter>, x: Quad)
    requires Adds(Reached(os), q, time, kind, r)
    ensures IsBanned(r, x) <==>
      (kind == Ban && Covers(q, x))
      || exists g :: Outlives(Reached(os), g, q) && g.kind == Ban && Covers(g.compare, x)
  {
    AlwaysTidy(os);
    BannedIs(r, x);
  }

  /** `addip q ban`, or just `addip q`, bans the addresses that agree with `q` in all bytes that
      are not zero, for good; the bans that it does not replace stay. */
  lemma BanBans(os: seq<Order>, q: Quad, argv: seq<string>, now: int, x: Quad)
    requires Ordinary(q) && |Reached(os)| < 1024 && argv in [["addip", Dots(q), "ban"], ["addip", Dots(q)]]
    ensures Adds(Reached(os), q, 0, Ban, AddIP(Reached(os), argv, now))
    ensures IsBanned(AddIP(Reached(os), argv, now), x) <==>
      Covers(q, x) || exists g :: Outlives(Reached(os), g, q) && g.kind == Ban && Covers(g.compare, x)
  {
    AddIs(os, argv, q, now);
    AddsBans(os, q, 0, Ban, AddIP(Reached(os), argv, now), x);
  }

  /** `addip q safe` bans nothing, and lifts the ban that it replaces. */
  lemma SafeBansNothing(os: seq<Order>, q: Quad, argv: seq<string>, now: int, x: Quad)
    requires Ordinary(q) && |Reached(os)| < 1024 && argv == ["addip", Dots(q), "safe"]
    ensures Adds(Reached(os), q, 0, Safe, AddIP(Reached(os), argv, now))
    ensures IsBanned(AddIP(Reached(os), argv, now), x) <==>
      exists g :: Outlives(Reached(os), g, q) && g.kind == Ban && Covers(g.compare, x)
  {
    AddIs(os, argv, q, now);
    AddsBans(os, q, 0, Safe, AddIP(Reached(os), argv, now), x);
  }

  /** With a number the ban expires at that second, with a plus sign so many seconds from now. */
  lemma BanExpires(os: seq<Order>, q: Quad, n: int, argv: seq<string>, later: bool, now: int)
    requires Ordinary(q) && |Reached(os)| < 1024 && now > 0
    requires argv == ["addip", Dots(q), "ban", if later then "+" + Printed(n) else Printed(n)]
    ensures Adds(Reached(os), q, if later then now + n else n, Ban, AddIP(Reached(os), argv, now))
  {
    AddIs(os, argv, q, now);
    AtoiPrinted(n);
    var s := "+" + Printed(n);
    assert s[1..] == Printed(n);
  }

  /** What is no number, with or without a plus sign, is no time: the ban is for good. */
  lemma BadTime(os: seq<Order>, q: Quad, t: string, argv: seq<string>, later: bool, now: int)
    requires Ordinary(q) && |Reached(os)| < 1024 && argv == ["addip", Dots(q), "ban", if later then "+" + t else t]
    requires t == "" || (!IsDigit(t[0]) && !IsWhite(t[0]) && t[0] != '-' && t[0] != '+')
    ensures Adds(Reached(os), q, 0, Ban, AddIP(Reached(os), argv, now))
  {
    AddIs(os, argv, q, now);
    AtoiNothing(t);
    var s := "+" + t;
    assert s[1..] == t;
  }

  /** A malformed address, 0.0.0.0 and other kinds change nothing. */
  lemma AddRefused(fs: seq<Filter>, argv: seq<string>, now: int)
    requires var s := T.Arg(argv, 1);
      s == "" || !IsDigit(s[0]) || s == Dots(Quad(0, 0, 0, 0)) || T.Arg(argv, 2) !in ["", "ban", "safe"]
    ensures AddIP(fs, argv, now) == fs
  {
    DotsBack(Quad(0, 0, 0, 0));
  }

  /** Neither does a new address when there are 1024 filters, none of them for 255.255.255.255. */
  lemma AddOverflows(fs: seq<Filter>, argv: seq<string>, now: int, q: Quad)
    requires |fs| == 1024 && !Names(fs, q) && !Names(fs, Quad(255, 255, 255, 255))
    requires T.Arg(argv, 1) == Dots(q) && Byte(q)
    ensures AddIP(fs, argv, now) == fs
  {
    DotsBack(q);
    NoSlot(fs, q, 0);
  }

  lemma {:induction false} NoSlot(fs: seq<Filter>, q: Quad, i: nat)
    requires !Names(fs, q) && !Names(fs, ALL_ONES) && i <= |fs|
    ensures forall f: Filter :: f.compare == q ==> Slot(fs, i, f) == |fs|
    decreases |fs| - i
  {
    if i < |fs| {
      assert fs[i] in fs;
      NoSlot(fs, q, i + 1);
    }
  }

  /** Bytes that are not given are zero, and so match any. */
  lemma ShortAddress(a: nat, b: nat, c: nat)
    requires a < 256 && b < 256 && c < 256
    ensures StringToFilter(Decimal(a)) == Compare(Quad(a, 0, 0, 0))
    ensures StringToFilter(Decimal(a) + "." + Decimal(b)) == Compare(Quad(a, b, 0, 0))
    ensures StringToFilter(Decimal(a) + "." + Decimal(b) + "." + Decimal(c)) == Compare(Quad(a, b, c, 0))
  {
    OneByte(a, 4);
    TwoBytes(a, b, 4, 3, Decimal(a) + "." + Decimal(b));
    ThreeBytes(a, b, c, 4, 3, 2, Decimal(a) + "." + Decimal(b) + "." + Decimal(c));
  }

  lemma OneByte(a: nat, k: nat)
    requires a < 256 && k > 0
    ensures Octets(Decimal(a), 0, k) == Good([a])
  {
    var s := Decimal(a);
    assert s[0..|s|] == s;
    OctetAt(s, 0, |s|, a, k);
  }

  lemma TwoBytes(a: nat, b: nat, k: nat, l: nat, s: string)
    requires a < 256 && b < 256 && k == l + 1 && l > 0 && s == Decimal(a) + "." + Decimal(b)
    ensures Octets(s, 0, k) == Good([a] + [b])
  {
    var p := |Decimal(a)|;
    assert s[0..p] == Decimal(a) && s[p] == '.' && s[p + 1..|s|] == Decimal(b);
    OctetAt(s, p + 1, |s|, b, l);
    OctetAt(s, 0, p, a, k);
  }

  lemma ThreeBytes(a: nat, b: nat, c: nat, k: nat, l: nat, m: nat, s: string)
    requires a < 256 && b < 256 && c < 256 && k == l + 1 && l == m + 1 && m > 0
    requires s == Decimal(a) + "." + Decimal(b) + "." + Decimal(c)
    ensures Octets(s, 0, k) == Good([a] + ([b] + [c]))
  {
    var p := |Decimal(a)|;
    var q := p + 1;
    var r := q + |Decimal(b)|;
    var t := r + 1;
    ThreeParts(Decimal(a), Decimal(b), Decimal(c), s, p, q, r, t);
    OctetAt(s, t, |s|, c, m);
    OctetAt(s, q, r, b, l);
    OctetAt(s, 0, p, a, k);
  }

  lemma ThreeParts(a: string, b: string, c: string, s: string, p: nat, q: nat, r: nat, t: nat)
    requires s == a + "." + b + "." + c && p == |a| && q == p + 1 && r == q + |b| && t == r + 1
    ensures |s| == t + |c| && s[0..p] == a && s[p] == '.' && s[q..r] == b && s[r] == '.' && s[t..|s|] == c
  {
  }

  // ----- removing

  lemma WithoutIs(fs: seq<Filter>, i: nat, g: Filter)
    requires Unique(fs) && i < |fs|
    ensures g in Without(fs, i) <==> g in fs && g.compare != fs[i].compare
  {
    var r := Without(fs, i);
    if g in fs && g.compare != fs[i].compare {
      var k :| 0 <= k < |fs| && fs[k] == g;
      assert r[if k < i then k else k - 1] == g;
    }
    if g in r {
      var k :| 0 <= k < |r| && r[k] == g;
      assert fs[if k < i then k else k + 1] == g;
    }
  }

  lemma {:induction false} TargetIs(fs: seq<Filter>, i: nat, q: Quad)
    requires i <= |fs|
    ensures var j := Target(fs, i, q);
      (j < |fs| ==> fs[j].compare == q) && forall k :: i <= k < j ==> !SameTarget(fs[k], MaskOf(q), q)
    decreases |fs| - i
  {
    if i < |fs| && !SameTarget(fs[i], MaskOf(q), q) { TargetIs(fs, i + 1, q); }
  }

  /** `removeip q` removes exactly the filter for `q`. */
  lemma RemoveIs(os: seq<Order>, q: Quad, g: Filter)
    requires Byte(q)
    ensures g in RemoveIP(Reached(os), Dots(q)) <==> g in Reached(os) && g.compare != q
  {
    var fs, i := Reached(os), Target(Reached(os), 0, q);
    AlwaysTidy(os);
    DotsBack(q);
    TargetIs(fs, 0, q);
    if i < |fs| { WithoutIs(fs, i, g); }
  }

  /** `banremove` removes exactly the ban of that number, and no safe filter. */
  lemma BanRemoveIs(os: seq<Order>, n: int, g: Filter)
    ensures var fs := Reached(os);
      g in BanRemove(fs, Printed(n)) <==> g in fs && !(0 <= n < |fs| && fs[n].kind == Ban && g.compare == fs[n].compare)
  {
    AlwaysTidy(os);
    AtoiPrinted(n);
    if 0 <= n < |Reached(os)| { WithoutIs(Reached(os), n, g); }
  }

  /** The clean-up removes exactly the filters whose time is not zero and has come. */
  lemma CleanIs(fs: seq<Filter>, now: int, g: Filter)
    ensures g in Cleaned(fs, now) <==> g in fs && (g.time == 0 || now < g.time)
  {
  }

  /** So an address banned by the list that is left is banned by filters for good or for later. */
  lemma CleanBans(os: seq<Order>, now: int, x: Quad)
    ensures IsBanned(Cleaned(Reached(os), now), x) <==>
      exists g :: g in Reached(os) && g.kind == Ban && (g.time == 0 || now < g.time) && Covers(g.compare, x)
  {
    AlwaysTidy(os);
    BannedIs(Cleaned(Reached(os), now), x);
  }
}
