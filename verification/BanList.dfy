/** The ban list of src/ban.c in place: an array of filters, of which the first ones are
    in use. */
module BanList {
  import opened Bans
  import opened Numbers
  import opened Seqs
  import F = BanFile
  import T = Tokenizer

  class BanList {
    const ipfilters: array<Filter>
    var numipfilters: nat

    ghost predicate Valid()
      reads this
    {
      ipfilters.Length == MAX_IPFILTERS && numipfilters <= MAX_IPFILTERS
    }

    function Filters(): (fs: seq<Filter>)
      requires Valid()
      reads this, ipfilters
      ensures |fs| == numipfilters
    {
      ipfilters[..numipfilters]
    }

    constructor ()
      ensures Valid() && Filters() == [] && fresh(ipfilters)
    {
      ipfilters := new Filter[MAX_IPFILTERS](_ => Filter(ZERO, ZERO, 0, Ban));
      numipfilters := 0;
    }

    /** SV_IsBanned */
    method CheckBanned(x: Quad) returns (banned: bool)
      requires Valid()
      ensures banned <==> IsBanned(Filters(), x)
    {
      var i := 0;
      while i < numipfilters
        invariant 0 <= i <= numipfilters && !IsBanned(Filters()[..i], x)
      {
        assert Filters()[..i + 1] == Filters()[..i] + [Filters()[i]];
        if ipfilters[i].kind == Ban && Matches(ipfilters[i], x) {
          assert Filters()[i] in Filters();
          return true;
        }
        i := i + 1;
      }
      assert Filters()[..i] == Filters();
      banned := false;
    }

    /** SV_AddIP_f */
    method Add(argv: seq<string>, now: int)
      requires Valid()
      modifies this, ipfilters
      ensures Valid() && Filters() == AddIP(old(Filters()), argv, now)
    {
      var p := ReadFilter(T.Arg(argv, 1));
      if p.NoFilter? || p.quad == ZERO { return; }
      var k := KindOf(T.Arg(argv, 2));
      if k.WrongKind? { return; }
      PutFilter(Filter(MaskOf(p.quad), p.quad, TimeOf(T.Arg(argv, 3), now), k.kind));
    }

    /** SV_AddIP_f, the search for a slot. */
    method PutFilter(f: Filter)
      requires Valid()
      modifies this, ipfilters
      ensures Valid() && Filters() == Put(old(Filters()), f)
    {
      ghost var fs := Filters();
      var i := 0;
      while i < numipfilters
        invariant 0 <= i <= numipfilters && Slot(fs, i, f) == Slot(fs, 0, f)
      {
        if ipfilters[i].compare == ALL_ONES || SameTarget(ipfilters[i], f.mask, f.compare) { break; }
        i := i + 1;
      }
      if i == numipfilters {
        if numipfilters == MAX_IPFILTERS { return; }
        numipfilters := numipfilters + 1;
      }
      ipfilters[i] := f;
      assert Filters() == Put(fs, f);
    }

    /** SV_RemoveBansIPFilter: the filters behind move down. */
    method RemoveAt(i: nat)
      requires Valid() && i < numipfilters
      modifies this, ipfilters
      ensures Valid() && Filters() == Without(old(Filters()), i)
    {
      ghost var fs := Filters();
      var j := i;
      while j + 1 < numipfilters
        invariant numipfilters == |fs| && i <= j < numipfilters
        invariant forall k :: 0 <= k < numipfilters ==> ipfilters[k] == fs[if i <= k < j then k + 1 else k]
      {
        ipfilters[j] := ipfilters[j + 1];
        j := j + 1;
      }
      numipfilters := numipfilters - 1;
      assert Filters() == Without(fs, i);
    }

    /** SV_RemoveIP_f; the result tells whether there was such a filter. */
    method Remove(s: string) returns (found: bool)
      requires Valid()
      modifies this, ipfilters
      ensures Valid() && Filters() == RemoveIP(old(Filters()), s)
      ensures found <==> exists i :: 0 <= i < |old(Filters())| && Named(old(Filters())[i], s)
    {
      var p := ReadFilter(s);
      if p.NoFilter? { return false; }
      ghost var fs := Filters();
      var i := 0;
      while i < numipfilters
        invariant 0 <= i <= numipfilters && Filters() == fs && Target(fs, i, p.quad) == Target(fs, 0, p.quad)
        invariant forall k :: 0 <= k < i ==> !Named(fs[k], s)
      {
        assert ipfilters[i] == fs[i];
        if SameTarget(ipfilters[i], MaskOf(p.quad), p.quad) {
          assert Named(fs[i], s);
          RemoveAt(i);
          return true;
        }
        i := i + 1;
      }
      found := false;
    }

    /** SV_Cmd_Banremove_f, once there is an argument; what it appends to the command buffer. */
    method BanRemoveId(s: string) returns (text: string)
      requires Valid()
      modifies this, ipfilters
      ensures Valid() && Filters() == BanRemove(old(Filters()), s)
      ensures text == if BanRemove(old(Filters()), s) == old(Filters()) then "" else "writeip\n"
    {
      var id := Atoi(s);
      if id < 0 || id >= numipfilters { return ""; }
      if ipfilters[id].kind == Safe { return ""; }
      RemoveAt(id);
      text := "writeip\n";
    }

    /** SV_CleanBansIPList */
    method Clean(now: int)
      requires Valid()
      modifies this, ipfilters
      ensures Valid() && Filters() == Cleaned(old(Filters()), now)
    {
      ghost var fs, done: seq<Filter>, rest := Filters(), [], Filters();
      var i := 0;
      while i < numipfilters
        invariant Valid() && 0 <= i <= numipfilters && i == |done| && Filters() == done + rest
        invariant Cleaned(fs, now) == done + Cleaned(rest, now)
        decreases numipfilters - i
      {
        ghost var done0, rest0 := done, rest;
        assert Filters()[i] == rest0[0];
        RestStep(done0, rest0, i);
        CleanedStep(done0, rest0, now);
        rest := rest0[1..];
        if Expired(ipfilters[i], now) {
          RemoveAt(i);
        } else {
          done := done0 + [rest0[0]];
          i := i + 1;
        }
      }
      assert rest == [] && done + [] == done;
    }

    /** StringToFilter */
    method ReadFilter(s: string) returns (r: Parsed)
      ensures r == StringToFilter(s)
    {
      var bytes := ReadBytes(s, 4);
      match bytes
      case Bad => r := NoFilter;
      case Good(b) => r := Compare(Quad(ByteAt(b, 0), ByteAt(b, 1), ByteAt(b, 2), ByteAt(b, 3)));
    }

    /** The loop of StringToFilter: up to `n` numbers, each with one character behind it. */
    method ReadBytes(s: string, n: nat) returns (r: Bytes)
      ensures r == Octets(s, 0, n)
    {
      var bytes: seq<nat> := [];
      var i, p := 0, 0;
      ghost var k, all := n, Octets(s, 0, n);
      OctetsStart(all);
      while i < n
        invariant 0 <= i <= n && k == n - i && p <= |s| && all == Before(bytes, Octets(s, p, k))
      {
        if p == |s| || !IsDigit(s[p]) { return Bad; }
        var e, num := ReadNumber(s, p);
        var next := e + 1;
        ghost var b0, p0, k0 := bytes, p, k;
        bytes := bytes + [num % 256];
        i := i + 1;
        k := k0 - 1;
        OctetRead(s, p0, e, next, k0, k, num, b0, bytes, all);
        if e == |s| { return Good(bytes); }
        p := next;
      }
      OctetsDone(s, p, k, bytes);
      r := Good(bytes);
    }

    /** The digits at `p`, copied out and read by atoi. */
    method ReadNumber(s: string, p: nat) returns (e: nat, num: nat)
      requires p < |s| && IsDigit(s[p])
      ensures p < e <= |s| && e == DigitsEnd(s, p) && (forall k :: 0 <= k < e - p ==> IsDigit(s[p..e][k]))
      ensures num == Number(s[p..e])
    {
      e := p;
      while e < |s| && IsDigit(s[e])
        invariant p <= e <= |s| && DigitsEnd(s, e) == DigitsEnd(s, p)
        invariant forall k :: p <= k < e ==> IsDigit(s[k])
      {
        e := e + 1;
      }
      assert forall k :: 0 <= k < e - p ==> s[p..e][k] == s[p + k];
      num := Number(s[p..e]);
    }

    /** SV_WriteIP_f: safe filters first. */
    method Write() returns (text: string)
      requires Valid()
      ensures text == F.Text(F.SafeFirst(Filters()))
    {
      var a := WriteKind(Safe);
      var b := WriteKind(Ban);
      text := a + b;
      TextConcat(F.OfKindOnly(Filters(), Safe), F.OfKindOnly(Filters(), Ban));
    }

    /** One of the two loops of SV_WriteIP_f. */
    method WriteKind(k: Kind) returns (text: string)
      requires Valid()
      ensures text == F.Text(F.OfKindOnly(Filters(), k))
    {
      text := "";
      ghost var fs, done: seq<Filter>, rest := Filters(), [], Filters();
      var i := 0;
      while i < numipfilters
        invariant 0 <= i <= numipfilters && text == F.Text(done) && rest == fs[i..]
        invariant F.OfKindOnly(fs, k) == done + F.OfKindOnly(rest, k)
      {
        ghost var done0, rest0 := done, rest;
        assert Filters()[i] == rest0[0];
        KindStep(done0, rest0, k);
        rest := rest0[1..];
        if ipfilters[i].kind == k {
          TextSnoc(done0, rest0[0]);
          text := text + (F.Command(ipfilters[i]) + "\n");
          done := done0 + [rest0[0]];
        }
        i := i + 1;
      }
      assert rest == [] && done + [] == done;
    }
  }

  /** The text is the address of the filter. */
  ghost predicate Named(f: Filter, s: string) {
    var p := StringToFilter(s);
    p.Compare? && SameTarget(f, MaskOf(p.quad), p.quad)
  }

  lemma RestStep(done: seq<Filter>, rest: seq<Filter>, i: nat)
    requires rest != [] && i == |done|
    ensures done + rest == done + [rest[0]] + rest[1..] && Without(done + rest, i) == done + rest[1..]
  {
    assert (done + rest)[..i] == done && (done + rest)[i + 1..] == rest[1..];
  }

  lemma CleanedStep(done: seq<Filter>, rest: seq<Filter>, now: int)
    requires rest != []
    ensures done + Cleaned(rest, now)
         == if Expired(rest[0], now) then done + Cleaned(rest[1..], now) else done + [rest[0]] + Cleaned(rest[1..], now)
  {
    var c := Cleaned(rest[1..], now);
    assert [] + c == c;
    Regroup(done, [rest[0]], c);
  }

  lemma KindStep(done: seq<Filter>, rest: seq<Filter>, k: Kind)
    requires rest != []
    ensures done + F.OfKindOnly(rest, k)
         == if rest[0].kind == k then done + [rest[0]] + F.OfKindOnly(rest[1..], k)
            else done + F.OfKindOnly(rest[1..], k)
  {
    var c := F.OfKindOnly(rest[1..], k);
    assert [] + c == c;
    Regroup(done, [rest[0]], c);
  }

  /** The bytes `b` in front of others. */
  function Before(b: seq<nat>, r: Bytes): Bytes {
    match r
    case Bad => Bad
    case Good(c) => Good(b + c)
  }

  lemma OctetsStart(all: Bytes)
    ensures all == Before([], all)
  {
    if all.Good? { assert [] + all.bytes == all.bytes; }
  }

  lemma OctetsDone(s: string, p: nat, k: nat, b: seq<nat>)
    requires k == 0 && p <= |s|
    ensures Before(b, Octets(s, p, k)) == Good(b)
  {
    assert b + [] == b;
  }

  lemma CommandsConcat(a: seq<Filter>, b: seq<Filter>)
    ensures F.Commands(a + b) == F.Commands(a) + F.Commands(b)
  {
  }

  lemma {:induction false} UnlinesConcat(a: seq<string>, b: seq<string>)
    ensures F.Unlines(a + b) == F.Unlines(a) + F.Unlines(b)
    decreases |a|
  {
    if a == [] {
      assert a + b == b;
    } else {
      UnlinesConcat(a[1..], b);
      assert (a + b)[1..] == a[1..] + b;
      Regroup(a[0] + "\n", F.Unlines(a[1..]), F.Unlines(b));
    }
  }

  lemma TextConcat(a: seq<Filter>, b: seq<Filter>)
    ensures F.Text(a + b) == F.Text(a) + F.Text(b)
  {
    CommandsConcat(a, b);
    UnlinesConcat(F.Commands(a), F.Commands(b));
  }

  lemma TextSnoc(a: seq<Filter>, f: Filter)
    ensures F.Text(a + [f]) == F.Text(a) + (F.Command(f) + "\n")
  {
    TextConcat(a, [f]);
    OneCommand(F.Commands([f]), F.Command(f));
  }

  lemma OneCommand(ls: seq<string>, l: string)
    requires ls == [l]
    ensures F.Unlines(ls) == l + "\n"
  {
    assert ls[1..] == [];
    assert l + "\n" + "" == l + "\n";
  }

  lemma OctetRead(s: string, p: nat, e: nat, q: nat, k0: nat, k: nat, num: nat,
                 b0: seq<nat>, b: seq<nat>, all: Bytes)
    requires p < |s| && IsDigit(s[p]) && k0 == k + 1 && q == e + 1 && e == DigitsEnd(s, p) && b == b0 + [num % 256]
    requires (forall j :: 0 <= j < e - p ==> IsDigit(s[p..e][j])) && num == Number(s[p..e])
    requires all == Before(b0, Octets(s, p, k0))
    ensures e == |s| ==> all == Good(b)
    ensures e < |s| ==> all == Before(b, Octets(s, q, k))
  {
    if e < |s| {
      var t := Octets(s, q, k);
      if t.Good? { Regroup(b0, [num % 256], t.bytes); }
    }
  }
}
