module Info {
  /* Info strings of src/info.c: keys and values, each behind a backslash. */

  import opened Seqs

  const MAX_INFO_KEY := 64
  const BUF_SIZE := 1024

  /** The next backslash from `i` on, or the end. */
  function End(s: string, i: nat): (j: nat)
    requires i <= |s|
    ensures i <= j <= |s| && (j < |s| ==> s[j] == '\\')
    ensures forall k :: i <= k < j ==> s[k] != '\\'
    decreases |s| - i
  {
    if i == |s| || s[i] == '\\' then i else End(s, i + 1)
  }

  /** What fits a buffer of that many bytes, the terminator included. */
  function Fit(s: string, size: nat): (r: string)
    requires size > 0
    ensures |r| == (if |s| < size then |s| else size - 1) && r <= s
  {
    if |s| < size then s else s[..size - 1]
  }

  // ----- ValidateUserInfo

  /** What the check finds; behind a last backslash it reads on past the terminator. */
  datatype Verdict = Sound | Unsound | Beyond

  function Validate(s: string, i: nat): Verdict
    requires i <= |s|
    decreases |s| - i
  {
    if i == |s| then Sound
    else
      var k := if s[i] == '\\' then i + 1 else i;
      if k == |s| then Beyond
      else if s[k] == '\\' then Unsound
      else Validate(s, End(s, k + 1))
  }

  // ----- Info_ValueForKey

  function Value(s: string, key: string, size: nat): string {
    if s == "" || s[0] != '\\' || key == "" || size < 2 then "" else ValueFrom(s, 0, key, size)
  }

  /** The search from the backslash at `i` on. */
  function ValueFrom(s: string, i: nat, key: string, size: nat): string
    requires i < |s| && s[i] == '\\' && size > 0
    decreases |s| - i
  {
    var e := End(s, i + 1);
    var b := if e < |s| then e + 1 else e;
    var v := End(s, b);
    if e < |s| && s[i + 1..e] == key then Fit(s[b..v], size)
    else if v < |s| then ValueFrom(s, v, key, size)
    else ""
  }

  // ----- Info_RemoveKey

  function Remove(s: string, key: string): (r: string)
    ensures |r| <= |s|
  {
    if '\\' in key then s else RemoveFrom(s, 0, key)
  }

  function RemoveFrom(s: string, i: nat, key: string): (r: string)
    requires i <= |s|
    ensures |r| <= |s|
    decreases |s| - i
  {
    var k := if i < |s| && s[i] == '\\' then i + 1 else i;
    var e := End(s, k);
    if e == |s| then s
    else
      var v := End(s, e + 1);
      if s[k..e] == key then s[..i] + s[v..]
      else if v == |s| then s
      else RemoveFrom(s, v, key)
  }

  // ----- Info_SetValueForStarKeyEx

  function Printable(s: string): string {
    if s == "" then "" else (if s[0] as int > 13 then [s[0]] else "") + Printable(s[1..])
  }

  predicate Refused(key: string, value: string, limited: bool) {
    || '\\' in key || '\\' in value || '"' in key || '"' in value
    || (limited && (|key| >= MAX_INFO_KEY || |value| >= MAX_INFO_KEY))
  }

  /** The key is there with a value, and the new one would not fit in its place. */
  predicate TooLong(s: string, key: string, value: string, max: int) {
    var v := Value(s, key, BUF_SIZE);
    v != "" && |value| - |v| + |s| + 1 > max
  }

  function Set(s: string, key: string, value: string, max: int, limited: bool): string {
    if Refused(key, value, limited) || TooLong(s, key, value, max) then s
    else
      var r := Remove(s, key);
      var n := Fit("\\" + key + "\\" + value, BUF_SIZE);
      if value == "" || |n| + |r| + 1 > max then r else r + Printable(n)
  }

  /** Info_SetValueForKeyEx */
  function SetKey(s: string, key: string, value: string, max: int, limited: bool): string {
    if key != "" && key[0] == '*' then s else Set(s, key, value, max, limited)
  }

  // ----- well formed strings

  datatype Pair = Pair(key: string, value: string)

  ghost predicate Plain(s: string) {
    '\\' !in s
  }

  ghost predicate AllPlain(ps: seq<Pair>) {
    forall i :: 0 <= i < |ps| ==> Plain(ps[i].key) && Plain(ps[i].value)
  }

  ghost predicate UniqueKeys(ps: seq<Pair>) {
    forall i, j :: 0 <= i < j < |ps| ==> ps[i].key != ps[j].key
  }

  function Item(p: Pair): string {
    "\\" + p.key + "\\" + p.value
  }

  function Write(ps: seq<Pair>): string {
    if ps == [] then "" else Item(ps[0]) + Write(ps[1..])
  }

  function Get(ps: seq<Pair>, key: string): string {
    if ps == [] then "" else if ps[0].key == key then ps[0].value else Get(ps[1..], key)
  }

  function Drop(ps: seq<Pair>, key: string): (r: seq<Pair>)
    ensures |r| <= |ps|
  {
    if ps == [] then [] else if ps[0].key == key then ps[1..] else [ps[0]] + Drop(ps[1..], key)
  }

  lemma {:induction false} EndIs(s: string, i: nat, j: nat)
    requires i <= j <= |s| && (j < |s| ==> s[j] == '\\') && forall k :: i <= k < j ==> s[k] != '\\'
    ensures End(s, i) == j
  {
  }

  lemma ItemParts(h: string, p: Pair, t: string)
    ensures var s, i := h + Item(p) + t, |h|;
      var e := i + 1 + |p.key|;
      var v := e + 1 + |p.value|;
      && v <= |s| && |s| == v + |t| && s[i] == s[e] == '\\'
      && s[i + 1..e] == p.key && s[e + 1..v] == p.value && s[..i] == h && s[v..] == t
  {
  }

  /** How the scan goes through one item in front of `t`, at position |h| of the string. */
  lemma ItemEnds(h: string, p: Pair, t: string)
    requires Plain(p.key) && Plain(p.value) && (t == "" || t[0] == '\\')
    ensures var s, i := h + Item(p) + t, |h|;
      var e := i + 1 + |p.key|;
      var v := e + 1 + |p.value|;
      e < v <= |s| && End(s, i + 1) == e && End(s, e + 1) == v
  {
    var s, i := h + Item(p) + t, |h|;
    var e := i + 1 + |p.key|;
    var v := e + 1 + |p.value|;
    ItemParts(h, p, t);
    assert forall k :: i + 1 <= k < e ==> s[k] == s[i + 1..e][k - i - 1];
    assert forall k :: e + 1 <= k < v ==> s[k] == s[e + 1..v][k - e - 1];
    EndIs(s, i + 1, e);
    assert v < |s| ==> s[v] == s[v..][0];
    EndIs(s, e + 1, v);
  }

  lemma WriteStarts(ps: seq<Pair>)
    ensures Write(ps) == "" || Write(ps)[0] == '\\'
  {
  }

  lemma ValueStep(h: string, p: Pair, t: string, key: string, size: nat, s: string, i: nat, v: nat)
    requires Plain(p.key) && Plain(p.value) && (t == "" || t[0] == '\\') && size > 0
    requires s == h + Item(p) + t && i == |h| && v == |h + Item(p)|
    ensures s[i] == '\\'
    ensures p.key == key ==> ValueFrom(s, i, key, size) == Fit(p.value, size)
    ensures p.key != key && t == "" ==> ValueFrom(s, i, key, size) == ""
    ensures p.key != key && t != "" ==> s[v] == '\\' && ValueFrom(s, i, key, size) == ValueFrom(s, v, key, size)
  {
    var e := i + 1 + |p.key|;
    ItemAt(h, p, t, s, i, e, v);
    if t == "" {
      assert v == |s|;
    } else {
      assert s[v] == s[v..][0];
    }
  }

  lemma ItemAt(h: string, p: Pair, t: string, s: string, i: nat, e: nat, v: nat)
    requires Plain(p.key) && Plain(p.value) && (t == "" || t[0] == '\\')
    requires s == h + Item(p) + t && i == |h| && e == i + 1 + |p.key| && v == |h + Item(p)|
    ensures e < v <= |s| && |s| == v + |t| && s[i] == '\\' && s[v..] == t
    ensures End(s, i + 1) == e && s[i + 1..e] == p.key && End(s, e + 1) == v && s[e + 1..v] == p.value
  {
    ItemParts(h, p, t);
    ItemEnds(h, p, t);
  }

  /** Reading a well formed string is looking the key up in its pairs. */
  lemma {:induction false} ValueFromWrite(h: string, ps: seq<Pair>, key: string, size: nat)
    requires AllPlain(ps) && ps != [] && size > 0
    ensures h + Write(ps) != h && (h + Write(ps))[|h|] == '\\'
    ensures ValueFrom(h + Write(ps), |h|, key, size) == Fit(Get(ps, key), size)
    decreases |ps|
  {
    WriteStarts(ps[1..]);
    Regroup(h, Item(ps[0]), Write(ps[1..]));
    ValueStep(h, ps[0], Write(ps[1..]), key, size, h + Write(ps), |h|, |h + Item(ps[0])|);
    if |ps| > 1 { ValueFromWrite(h + Item(ps[0]), ps[1..], key, size); }
  }

  lemma ValueWrite(ps: seq<Pair>, key: string, size: nat)
    requires AllPlain(ps) && key != "" && size >= 2
    ensures Value(Write(ps), key, size) == Fit(Get(ps, key), size)
  {
    if ps != [] {
      ValueFromWrite("", ps, key, size);
      assert "" + Write(ps) == Write(ps);
    }
  }

  // ----- what ValidateUserInfo accepts

  /** No key and no value is empty. */
  ghost predicate Full(ps: seq<Pair>) {
    forall i :: 0 <= i < |ps| ==> ps[i].key != "" && ps[i].value != ""
  }

  /** One key or value, from the backslash in front of it on. */
  lemma ValidatePart(s: string, i: nat, k: nat, e: nat)
    requires i < |s| && s[i] == '\\' && k == i + 1 && e == End(s, k)
    ensures k < e ==> Validate(s, i) == Validate(s, e)
    ensures k == e && e < |s| ==> Validate(s, i) == Unsound
    ensures k == e == |s| ==> Validate(s, i) == Beyond
  {
    if k < e { EndIs(s, k + 1, e); }
  }

  lemma {:induction false} ValidateFrom(h: string, ps: seq<Pair>, s: string, i: nat)
    requires AllPlain(ps) && s == h + Write(ps) && i == |h|
    ensures Validate(s, i) == Sound <==> Full(ps)
    decreases |ps|
  {
    if ps != [] {
      var p, t := ps[0], Write(ps[1..]);
      WriteStarts(ps[1..]);
      Regroup(h, Item(p), t);
      var e, v := i + 1 + |p.key|, |h + Item(p)|;
      ItemAt(h, p, t, s, i, e, v);
      ValidatePart(s, i, i + 1, e);
      ValidatePart(s, e, e + 1, v);
      ValidateFrom(h + Item(p), ps[1..], s, v);
      FullTail(ps);
    }
  }

  lemma FullTail(ps: seq<Pair>)
    requires ps != []
    ensures Full(ps) <==> ps[0].key != "" && ps[0].value != "" && Full(ps[1..])
  {
    assert forall i :: 1 <= i < |ps| ==> ps[i] == ps[1..][i - 1];
  }

  /** A well formed string passes the check exactly when no key and no value is empty. */
  lemma ValidateWrite(ps: seq<Pair>)
    requires AllPlain(ps)
    ensures Validate(Write(ps), 0) == Sound <==> Full(ps)
  {
    assert "" + Write(ps) == Write(ps);
    ValidateFrom("", ps, Write(ps), 0);
  }

  lemma RemoveStep(h: string, p: Pair, t: string, key: string, s: string, i: nat, v: nat)
    requires Plain(p.key) && Plain(p.value) && (t == "" || t[0] == '\\')
    requires s == h + Item(p) + t && i == |h| && v == |h + Item(p)|
    ensures p.key == key ==> RemoveFrom(s, i, key) == h + t
    ensures p.key != key && t == "" ==> RemoveFrom(s, i, key) == s
    ensures p.key != key && t != "" ==> RemoveFrom(s, i, key) == RemoveFrom(s, v, key)
  {
    ItemParts(h, p, t);
    ItemEnds(h, p, t);
    RemoveScan(s, i, i + 1, i + 1 + |p.key|, v, key);
  }

  /** Removing a key from a well formed string takes its first pair out. */
  lemma {:induction false} RemoveFromWrite(h: string, ps: seq<Pair>, key: string)
    requires AllPlain(ps) && ps != []
    ensures RemoveFrom(h + Write(ps), |h|, key) == h + Write(Drop(ps, key))
    decreases |ps|
  {
    WriteStarts(ps[1..]);
    Regroup(h, Item(ps[0]), Write(ps[1..]));
    RemoveStep(h, ps[0], Write(ps[1..]), key, h + Write(ps), |h|, |h + Item(ps[0])|);
    if ps[0].key != key {
      assert Drop(ps, key)[1..] == Drop(ps[1..], key);
      Regroup(h, Item(ps[0]), Write(Drop(ps[1..], key)));
      if |ps| > 1 { RemoveFromWrite(h + Item(ps[0]), ps[1..], key); }
    }
  }

  lemma RemoveWrite(ps: seq<Pair>, key: string)
    requires AllPlain(ps) && Plain(key)
    ensures Remove(Write(ps), key) == Write(Drop(ps, key))
  {
    if ps != [] {
      RemoveFromWrite("", ps, key);
      assert "" + Write(ps) == Write(ps);
      assert "" + Write(Drop(ps, key)) == Write(Drop(ps, key));
    }
  }

  // ----- setting a key, on pairs

  lemma {:induction false} PrintableConcat(a: string, b: string)
    ensures Printable(a + b) == Printable(a) + Printable(b)
    decreases |a|
  {
    if a == "" {
      assert a + b == b;
    } else {
      PrintableConcat(a[1..], b);
      assert (a + b)[1..] == a[1..] + b;
      Regroup(if a[0] as int > 13 then [a[0]] else "", Printable(a[1..]), Printable(b));
    }
  }

  lemma PrintableSlash(s: string)
    requires s == "\\"
    ensures Printable(s) == s
  {
    assert s[1..] == "";
  }

  lemma PrintableItem(key: string, value: string)
    ensures Printable(Item(Pair(key, value))) == Item(Pair(Printable(key), Printable(value)))
  {
    PrintableConcat("\\" + key + "\\", value);
    PrintableConcat("\\" + key, "\\");
    PrintableConcat("\\", key);
    PrintableSlash("\\");
  }

  lemma {:induction false} WriteConcat(a: seq<Pair>, b: seq<Pair>)
    ensures Write(a + b) == Write(a) + Write(b)
    decreases |a|
  {
    if a == [] {
      assert a + b == b;
    } else {
      WriteConcat(a[1..], b);
      assert (a + b)[1..] == a[1..] + b;
      Regroup(Item(a[0]), Write(a[1..]), Write(b));
    }
  }

  lemma WriteOne(p: Pair)
    ensures Write([p]) == Item(p)
  {
    assert [p][1..] == [];
    assert Item(p) + "" == Item(p);
  }

  /** Whether a new pair is written. */
  predicate Accepted(ps: seq<Pair>, key: string, value: string, max: int, limited: bool) {
    && !Refused(key, value, limited) && !TooLong(Write(ps), key, value, max)
    && value != "" && |Item(Pair(key, value))| + |Write(Drop(ps, key))| + 1 <= max
  }

  function SetPairs(ps: seq<Pair>, key: string, value: string, max: int, limited: bool): seq<Pair> {
    if Refused(key, value, limited) || TooLong(Write(ps), key, value, max) then ps
    else if Accepted(ps, key, value, max, limited) then Drop(ps, key) + [Pair(Printable(key), Printable(value))]
    else Drop(ps, key)
  }

  /** Key and value fit the buffer in which the new pair is put together. */
  predicate Roomy(key: string, value: string) {
    |key| + |value| + 2 < BUF_SIZE
  }

  /** Setting a key in a well formed string gives a well formed string. */
  lemma SetWrite(ps: seq<Pair>, key: string, value: string, max: int, limited: bool)
    requires AllPlain(ps) && Roomy(key, value)
    ensures Set(Write(ps), key, value, max, limited) == Write(SetPairs(ps, key, value, max, limited))
  {
    if !Refused(key, value, limited) && !TooLong(Write(ps), key, value, max) {
      RemoveWrite(ps, key);
      PrintableItem(key, value);
      WriteOne(Pair(Printable(key), Printable(value)));
      WriteConcat(Drop(ps, key), [Pair(Printable(key), Printable(value))]);
    }
  }

  lemma {:induction false} GetDrop(ps: seq<Pair>, key: string, other: string)
    requires UniqueKeys(ps)
    ensures Get(Drop(ps, key), other) == if other == key then "" else Get(ps, other)
    ensures UniqueKeys(Drop(ps, key))
    ensures forall p :: p in Drop(ps, key) ==> p in ps && p.key != key
    decreases |ps|
  {
    if ps != [] {
      if ps[0].key == key {
        assert forall p :: p in ps[1..] ==> p in ps;
        NotThere(ps[1..], key);
      } else {
        GetDrop(ps[1..], key, other);
        assert forall p :: p in ps[1..] ==> p in ps;
      }
    }
  }

  lemma {:induction false} NotThere(ps: seq<Pair>, key: string)
    requires forall i :: 0 <= i < |ps| ==> ps[i].key != key
    ensures Get(ps, key) == ""
  {
    if ps != [] { NotThere(ps[1..], key); }
  }

  lemma {:induction false} GetConcat(ps: seq<Pair>, p: Pair, key: string)
    ensures Get(ps + [p], key)
         == if forall q :: q in ps ==> q.key != key then (if p.key == key then p.value else "") else Get(ps, key)
    decreases |ps|
  {
    if ps == [] {
      assert ps + [p] == [p];
      assert [p][1..] == [];
    } else {
      GetConcat(ps[1..], p, key);
      assert (ps + [p])[1..] == ps[1..] + [p];
      assert forall q :: q in ps <==> q == ps[0] || q in ps[1..];
    }
  }

  lemma {:induction false} GetThere(ps: seq<Pair>, key: string)
    ensures (forall q :: q in ps ==> q.key != key) ==> Get(ps, key) == ""
  {
    if forall q :: q in ps ==> q.key != key {
      assert forall i :: 0 <= i < |ps| ==> ps[i] in ps;
      NotThere(ps, key);
    }
  }

  /** Without control characters in the key, keys stay unique, the other keys keep their
      values, and an accepted value is the one that is found. */
  lemma SetGet(ps: seq<Pair>, key: string, value: string, max: int, limited: bool, other: string)
    requires UniqueKeys(ps) && Printable(key) == key
    ensures var r := SetPairs(ps, key, value, max, limited);
      && UniqueKeys(r)
      && (other != key ==> Get(r, other) == Get(ps, other))
      && (Accepted(ps, key, value, max, limited) ==> Get(r, key) == Printable(value))
  {
    var d := Drop(ps, key);
    GetDrop(ps, key, other);
    GetDrop(ps, key, key);
    PairAdded(d, Pair(key, Printable(value)), other);
  }

  lemma PairAdded(d: seq<Pair>, p: Pair, other: string)
    requires UniqueKeys(d) && forall q :: q in d ==> q.key != p.key
    ensures UniqueKeys(d + [p]) && Get(d + [p], p.key) == p.value
    ensures other != p.key ==> Get(d + [p], other) == Get(d, other)
  {
    GetConcat(d, p, other);
    GetConcat(d, p, p.key);
    GetThere(d, other);
    assert forall i :: 0 <= i < |d| ==> d[i] in d;
  }

  /** With control characters, keys stay unique exactly when what is left of the key is new. */
  lemma SetUnique(ps: seq<Pair>, key: string, value: string, max: int, limited: bool)
    requires UniqueKeys(ps)
    ensures UniqueKeys(SetPairs(ps, key, value, max, limited)) <==>
      (Accepted(ps, key, value, max, limited) ==> forall p :: p in Drop(ps, key) ==> p.key != Printable(key))
  {
    var d, q := Drop(ps, key), Pair(Printable(key), Printable(value));
    GetDrop(ps, key, key);
    if Accepted(ps, key, value, max, limited) {
      if p :| p in d && p.key == Printable(key) {
        var i :| 0 <= i < |d| && d[i] == p;
        assert (d + [q])[i].key == (d + [q])[|d|].key;
      }
    }
  }

  lemma PrintableBell(bell: string)
    requires bell == [7 as char]
    ensures Printable("a" + bell) == "a"
  {
    assert bell[1..] == "" && Printable(bell) == "";
    assert ("a" + bell)[1..] == bell;
  }

  lemma OtherKeyOnly(ps: seq<Pair>, key: string)
    requires |ps| == 1 && ps[0].key != key
    ensures Drop(ps, key) == ps && Get(ps, key) == "" && Write(ps) == Item(ps[0])
  {
    assert ps[1..] == [];
  }

  /** A control character in the key is enough: the old key is not found, and the new pair
      then has it too. */
  lemma ControlKeyDoubles(ps: seq<Pair>, key: string, value: string)
    requires ps == [Pair("a", "1")] && key == "a" + [7 as char] && value == "2"
    ensures UniqueKeys(ps) && !UniqueKeys(SetPairs(ps, key, value, 512, true))
  {
    PrintableBell([7 as char]);
    OtherKeyOnly(ps, key);
    ValueWrite(ps, key, BUF_SIZE);
    SetUnique(ps, key, value, 512, true);
    assert Pair("a", "1") in Drop(ps, key);
  }

  lemma {:induction false} PlainParts(s: string)
    requires Plain(s)
    ensures Plain(Printable(s)) && |Printable(s)| <= |s|
  {
    if s != "" {
      assert s[0] in s;
      assert forall c :: c in s[1..] ==> c in s;
      PlainParts(s[1..]);
    }
  }

  lemma {:induction false} DropPlain(ps: seq<Pair>, key: string)
    requires AllPlain(ps)
    ensures AllPlain(Drop(ps, key))
    decreases |ps|
  {
    if ps != [] && ps[0].key != key { DropPlain(ps[1..], key); }
  }

  lemma {:induction false} DropShorter(ps: seq<Pair>, key: string)
    requires UniqueKeys(ps)
    ensures |Write(Drop(ps, key))| <= |Write(ps)|
    ensures Get(ps, key) != "" ==> |Write(Drop(ps, key))| == |Write(ps)| - |Item(Pair(key, Get(ps, key)))|
    decreases |ps|
  {
    if ps != [] && ps[0].key != key {
      DropShorter(ps[1..], key);
      assert Drop(ps, key)[1..] == Drop(ps[1..], key);
    }
  }

  /** The string stays well formed and below the limit. */
  lemma SetKeeps(ps: seq<Pair>, key: string, value: string, max: int, limited: bool)
    requires AllPlain(ps) && UniqueKeys(ps) && |Write(ps)| < max
    ensures var r := SetPairs(ps, key, value, max, limited); AllPlain(r) && |Write(r)| < max
  {
    DropPlain(ps, key);
    DropShorter(ps, key);
    if Accepted(ps, key, value, max, limited) {
      PlainParts(key);
      PlainParts(value);
      WriteOne(Pair(Printable(key), Printable(value)));
      WriteConcat(Drop(ps, key), [Pair(Printable(key), Printable(value))]);
    }
  }

  lemma SetPlain(ps: seq<Pair>, key: string, value: string, max: int, limited: bool)
    requires AllPlain(ps)
    ensures AllPlain(SetPairs(ps, key, value, max, limited))
  {
    DropPlain(ps, key);
    if Accepted(ps, key, value, max, limited) {
      PlainParts(key);
      PlainParts(value);
    }
  }

  lemma GetAccepted(ps: seq<Pair>, key: string, value: string, max: int, limited: bool, k: string, v: string)
    requires UniqueKeys(ps) && Accepted(ps, key, value, max, limited) && k == Printable(key) && v == Printable(value)
    ensures Get(SetPairs(ps, key, value, max, limited), key) == if k == key then v else ""
  {
    var d := Drop(ps, key);
    GetDrop(ps, key, key);
    GetConcat(d, Pair(k, v), key);
    GetThere(d, key);
  }

  /** Setting a key and asking for it: the accepted value is found, without its control
      characters, exactly when the key is not empty and has none (or nothing is left of the
      value). */
  lemma SetThenValue(ps: seq<Pair>, key: string, value: string, max: int, limited: bool, size: nat)
    requires AllPlain(ps) && UniqueKeys(ps) && Roomy(key, value) && size >= 2
    requires Accepted(ps, key, value, max, limited)
    ensures (Value(Set(Write(ps), key, value, max, limited), key, size) == Fit(Printable(value), size))
      <==> ((key != "" && Printable(key) == key) || Printable(value) == "")
  {
    var r := SetPairs(ps, key, value, max, limited);
    SetWrite(ps, key, value, max, limited);
    SetPlain(ps, key, value, max, limited);
    GetAccepted(ps, key, value, max, limited, Printable(key), Printable(value));
    if key != "" { ValueWrite(r, key, size); }
  }

  /** All other keys keep their values, whether the new value is accepted or not. */
  lemma SetThenOther(ps: seq<Pair>, key: string, value: string, max: int, limited: bool, other: string, size: nat)
    requires AllPlain(ps) && UniqueKeys(ps) && Roomy(key, value) && size >= 2
    requires other != key && other != Printable(key)
    ensures Value(Set(Write(ps), key, value, max, limited), other, size) == Value(Write(ps), other, size)
  {
    var r, d := SetPairs(ps, key, value, max, limited), Drop(ps, key);
    SetWrite(ps, key, value, max, limited);
    SetPlain(ps, key, value, max, limited);
    GetDrop(ps, key, other);
    GetConcat(d, Pair(Printable(key), Printable(value)), other);
    GetThere(d, other);
    if other != "" {
      ValueWrite(r, other, size);
      ValueWrite(ps, other, size);
    }
  }

  /** The empty key is taken, but nothing is found under it. */
  lemma EmptyKeyHidden(size: nat)
    requires size >= 2
    ensures Accepted([], "", "x", 512, true) && Value(Set("", "", "x", 512, true), "", size) == ""
  {
  }

  /** Replacing a value is all or nothing: what is checked before the old pair is removed
      is just what is checked after it. */
  lemma AllOrNothing(ps: seq<Pair>, key: string, value: string, max: int, limited: bool)
    requires AllPlain(ps) && UniqueKeys(ps) && key != "" && value != "" && Roomy(key, value)
    requires 0 < |Get(ps, key)| < BUF_SIZE
    ensures SetPairs(ps, key, value, max, limited) == ps || Accepted(ps, key, value, max, limited)
    ensures Accepted(ps, key, value, max, limited) <==>
      !Refused(key, value, limited) && |Write(ps)| - |Get(ps, key)| + |value| < max
  {
    ValueWrite(ps, key, BUF_SIZE);
    DropShorter(ps, key);
  }

  // ----- what is refused

  ghost predicate Clean(s: string) {
    forall k :: 0 <= k < |s| ==> s[k] != '\\' && s[k] != '"'
  }

  /** Neither keys nor values with a backslash or a quote are taken, and with the limit none of
      64 characters or more. */
  lemma Refusals(s: string, key: string, value: string, max: int, limited: bool)
    requires !Clean(key) || !Clean(value) || (limited && (|key| >= 64 || |value| >= 64))
    ensures Set(s, key, value, max, limited) == s
  {
  }

  /** All others are, exactly when the string with the pair stays shorter than `max`; a star in
      front of the key is refused only by the callers that do not allow it. */
  lemma AcceptedInNumbers(ps: seq<Pair>, key: string, value: string, max: int, limited: bool)
    requires AllPlain(ps) && UniqueKeys(ps) && key != "" && |key| + |value| + 2 < 1024 && |Get(ps, key)| < 1024
    requires Clean(key) && Clean(value) && (limited ==> |key| < 64 && |value| < 64) && NoEmpty(ps, key)
    ensures Accepted(ps, key, value, max, limited) <==>
      value != "" && |Write(ps)| - (if Get(ps, key) == "" then 0 else |key| + 2 + |Get(ps, key)|)
                     + |key| + 2 + |value| < max
  {
    TooLongIs(ps, key, value, max);
    DropLength(ps, key);
    assert !Refused(key, value, limited);
    assert |Item(Pair(key, value))| == |key| + 2 + |value|;
  }

  lemma TooLongIs(ps: seq<Pair>, key: string, value: string, max: int)
    requires AllPlain(ps) && key != "" && |Get(ps, key)| < 1024
    ensures TooLong(Write(ps), key, value, max) <==>
      Get(ps, key) != "" && |value| - |Get(ps, key)| + |Write(ps)| + 1 > max
  {
    ValueWrite(ps, key, BUF_SIZE);
  }

  /** The key is not there with an empty value. */
  ghost predicate NoEmpty(ps: seq<Pair>, key: string) {
    forall i :: 0 <= i < |ps| && ps[i].key == key ==> ps[i].value != ""
  }

  lemma {:induction false} DropLength(ps: seq<Pair>, key: string)
    requires NoEmpty(ps, key)
    ensures |Write(Drop(ps, key))| == |Write(ps)| - if Get(ps, key) == "" then 0 else |key| + 2 + |Get(ps, key)|
  {
    if ps != [] && ps[0].key != key {
      assert forall i :: 0 <= i < |ps| - 1 ==> ps[1..][i] == ps[i + 1];
      DropLength(ps[1..], key);
      assert Drop(ps, key)[1..] == Drop(ps[1..], key);
    }
  }

  lemma StarRefused(s: string, key: string, value: string, max: int, limited: bool)
    requires key != ""
    ensures SetKey(s, key, value, max, limited) == if key[0] == '*' then s else Set(s, key, value, max, limited)
  {
  }

  /** What is written holds no control characters, and without them it is all that was given. */
  lemma {:induction false} PrintableIs(s: string)
    ensures forall k :: 0 <= k < |Printable(s)| ==> Printable(s)[k] as int > 13
    ensures (forall k :: 0 <= k < |s| ==> s[k] as int > 13) ==> Printable(s) == s
  {
    if s != "" { PrintableIs(s[1..]); }
  }

  lemma PrintableOne(c: char, s: string)
    requires s == [c]
    ensures Printable(s) == if c as int > 13 then [c] else ""
  {
    assert s[1..] == "";
  }

  // ----- the program

  /** A character buffer with a string of length `len` in it. */
  class InfoString {
    const buf: array<char>
    var len: nat

    constructor (s: string, size: nat)
      requires |s| < size
      ensures Valid() && Text() == s && buf.Length == size && fresh(buf)
    {
      buf := new char[size];
      len := |s|;
      new;
      forall i | 0 <= i < |s| {
        buf[i] := s[i];
      }
    }

    ghost predicate Valid()
      reads this
    {
      len < buf.Length
    }

    function Text(): string
      requires Valid()
      reads this, buf
    {
      buf[..len]
    }

    /** The loops that run to the next backslash. */
    method Seek(i: nat, ghost s: string) returns (j: nat)
      requires Valid() && s == Text() && i <= len
      ensures j == End(s, i)
    {
      j := i;
      while j < len && buf[j] != '\\'
        invariant i <= j <= len && End(s, j) == End(s, i)
      {
        j := j + 1;
      }
    }

    /** ValidateUserInfo */
    method ValidateUserInfo() returns (v: Verdict)
      requires Valid()
      ensures v == Validate(Text(), 0)
    {
      ghost var s, all := Text(), Validate(Text(), 0);
      var i := 0;
      while i < len
        invariant i <= |s| && Validate(s, i) == all
      {
        var k := if buf[i] == '\\' then i + 1 else i;
        if k == len { return Beyond; }
        if buf[k] == '\\' { return Unsound; }
        var next := k + 1;
        i := Seek(next, s);
      }
      v := Sound;
    }

    /** The text between two positions, copied out. */
    method Copy(b: nat, e: nat, ghost s: string) returns (t: string)
      requires Valid() && s == Text() && b <= e <= len
      ensures t == s[b..e]
    {
      t := buf[b..e];
    }

    /** Info_ValueForKey: the key is compared while the string is scanned. */
    method ValueForKey(key: string, size: nat) returns (v: string)
      requires Valid()
      ensures v == Value(Text(), key, size)
    {
      if len == 0 || buf[0] != '\\' || key == "" || size < 2 { return ""; }
      ghost var s, all := Text(), Value(Text(), key, size);
      var i := 0;
      while true
        invariant i < |s| && s[i] == '\\' && ValueFrom(s, i, key, size) == all
        decreases |s| - i
      {
        var found, e;
        found, v, e := ReadItem(i, key, size, s);
        if found { return; }
        if e == len { return ""; }
        i := e;
      }
    }

    /** One item: its value if the key matches, or where it ends. */
    method ReadItem(i: nat, key: string, size: nat, ghost s: string) returns (found: bool, v: string, e: nat)
      requires Valid() && s == Text() && i < len && s[i] == '\\' && size > 0
      ensures i < e <= len && (e < len ==> s[e] == '\\')
      ensures ValueFrom(s, i, key, size) == if found then v else if e < len then ValueFrom(s, e, key, size) else ""
    {
      var matched := Match(key, i + 1, s);
      var j := i + 1 + matched;
      MatchWhole(s, i, matched, j, key);
      if matched == |key| && j < len && buf[j] == '\\' {
        v := ReadValue(j + 1, size, s);
        ValueHere(s, i, j, key, size);
        found, e := true, len;
        return;
      }
      j := Seek(j, s);
      var b := if j < len then j + 1 else j;
      e := Seek(b, s);
      ValueNotHere(s, i, j, b, e, key, size);
      found, v := false, "";
    }

    /** The value at `b`, as far as it fits. */
    method ReadValue(b: nat, size: nat, ghost s: string) returns (v: string)
      requires Valid() && s == Text() && b <= len && size > 0
      ensures v == Fit(s[b..End(s, b)], size)
    {
      var j := b;
      while j < len && buf[j] != '\\' && j - b < size - 1
        invariant b <= j <= len && j - b < size && End(s, j) == End(s, b)
      {
        j := j + 1;
      }
      v := Copy(b, j, s);
      FitsTo(s, b, j, End(s, b), size);
    }

    /** How many characters of the key stand at `b`, up to a backslash. */
    method Match(key: string, b: nat, ghost s: string) returns (m: nat)
      requires Valid() && s == Text() && b <= len
      ensures m <= |key| && b + m <= |s| && s[b..b + m] == key[..m] && Plain(key[..m])
      ensures m == |key| || b + m == |s| || s[b + m] != key[m] || s[b + m] == '\\'
    {
      m := 0;
      while b + m < len && m < |key| && buf[b + m] == key[m] && buf[b + m] != '\\'
        invariant m <= |key| && b + m <= |s| && s[b..b + m] == key[..m] && Plain(key[..m])
      {
        assert s[b..b + m + 1] == s[b..b + m] + [s[b + m]];
        assert key[..m + 1] == key[..m] + [key[m]];
        m := m + 1;
      }
    }

    /** memmove: what begins at `from` is moved down to `to`. */
    method CloseGap(to: nat, from: nat)
      requires Valid() && to <= from <= len
      modifies this`len, buf
      ensures Valid() && Text() == old(Text())[..to] + old(Text())[from..]
    {
      ghost var s := Text();
      forall i | 0 <= i < len - from {
        buf[to + i] := buf[from + i];
      }
      len := len - (from - to);
      assert Text() == s[..to] + s[from..];
    }

    /** Info_RemoveKey; its own buffers hold keys and values of strings up to 1023 characters. */
    method RemoveKey(key: string)
      requires Valid() && buf.Length <= BUF_SIZE
      modifies this`len, buf
      ensures Valid() && Text() == Remove(old(Text()), key)
    {
      if '\\' in key { return; }
      ghost var s := Text();
      var i := 0;
      while true
        invariant Valid() && i <= len && Text() == s
        invariant RemoveFrom(s, i, key) == Remove(s, key)
        decreases len - i
      {
        var k := i;
        if k < len && buf[k] == '\\' { k := k + 1; }
        var e := Seek(k, s);
        if e == len { return; }
        var v := Seek(e + 1, s);
        var pkey := Copy(k, e, s);
        RemoveScan(s, i, k, e, v, key);
        if pkey == key {
          CloseGap(i, v);
          return;
        }
        if v == len { return; }
        i := v;
      }
    }

    /** The loop that copies the new pair to the end, without control characters. */
    method AppendPrintable(v: string)
      requires Valid() && len + |v| < buf.Length
      modifies this`len, buf
      ensures Valid() && Text() == old(Text()) + Printable(v)
    {
      ghost var s := Text();
      var i := 0;
      assert v[..0] == "";
      while i < |v|
        invariant 0 <= i <= |v| && Valid() && len + (|v| - i) < buf.Length
        invariant Text() + Printable(v[i..]) == s + Printable(v)
      {
        ghost var t := Text();
        assert v[i..][1..] == v[i + 1..];
        if v[i] as int > 13 {
          buf[len] := v[i];
          len := len + 1;
          assert Text() == t + [v[i]];
          Regroup(t, [v[i]], Printable(v[i + 1..]));
        }
        i := i + 1;
      }
    }

    /** Info_SetValueForStarKeyEx */
    method SetValueForStarKey(key: string, value: string, maxsize: int, limited: bool)
      requires Valid() && maxsize <= buf.Length <= BUF_SIZE
      modifies this`len, buf
      ensures Valid() && Text() == Set(old(Text()), key, value, maxsize, limited)
    {
      if '\\' in key || '\\' in value { return; }
      if '"' in key || '"' in value { return; }
      if limited {
        if |key| >= MAX_INFO_KEY || |value| >= MAX_INFO_KEY { return; }
      }
      var v := ValueForKey(key, BUF_SIZE);
      if v != "" {
        if |value| - |v| + len + 1 > maxsize { return; }
      }
      RemoveKey(key);
      if value == "" { return; }
      var newv := "\\" + key + "\\" + value;
      if |newv| >= BUF_SIZE { newv := newv[..BUF_SIZE - 1]; }
      if |newv| + len + 1 > maxsize { return; }
      AppendPrintable(newv);
    }

    /** Info_SetValueForKeyEx */
    method SetValueForKey(key: string, value: string, maxsize: int, limited: bool)
      requires Valid() && maxsize <= buf.Length <= BUF_SIZE
      modifies this`len, buf
      ensures Valid() && Text() == SetKey(old(Text()), key, value, maxsize, limited)
    {
      if key != "" && key[0] == '*' { return; }
      SetValueForStarKey(key, value, maxsize, limited);
    }
  }

  lemma FitsTo(s: string, b: nat, j: nat, e: nat, size: nat)
    requires b <= j <= e <= |s| && j - b < size && (j == e || j - b == size - 1)
    ensures s[b..j] == Fit(s[b..e], size)
  {
    assert s[b..e][..j - b] == s[b..j];
  }

  lemma RemoveScan(s: string, i: nat, k: nat, e: nat, v: nat, key: string)
    requires i <= |s| && k == (if i < |s| && s[i] == '\\' then i + 1 else i)
    requires e == End(s, k) < |s| && v == End(s, e + 1)
    ensures s[k..e] == key ==> RemoveFrom(s, i, key) == s[..i] + s[v..]
    ensures s[k..e] != key && v == |s| ==> RemoveFrom(s, i, key) == s
    ensures s[k..e] != key && v < |s| ==> RemoveFrom(s, i, key) == RemoveFrom(s, v, key)
  {
    if s[k..e] == key {
    } else if v == |s| {
    } else {
    }
  }

  lemma MatchWhole(s: string, i: nat, m: nat, j: nat, key: string)
    requires i < |s| && m <= |key| && j == i + 1 + m <= |s| && s[i + 1..j] == key[..m] && Plain(key[..m])
    requires m == |key| || j == |s| || s[j] != key[m] || s[j] == '\\'
    ensures End(s, j) == End(s, i + 1)
    ensures m == |key| && j < |s| && s[j] == '\\' <==> End(s, i + 1) < |s| && s[i + 1..End(s, i + 1)] == key
    ensures m == |key| && j < |s| && s[j] == '\\' ==> End(s, i + 1) == j
  {
    var e := End(s, j);
    forall k | i + 1 <= k < e ensures s[k] != '\\' {
      if k < j { assert s[k] == s[i + 1..j][k - i - 1] == key[..m][k - i - 1]; }
    }
    EndIs(s, i + 1, e);
    if e < |s| && s[i + 1..e] == key && m < |key| {
      assert false;
    }
    assert m == |key| ==> key[..m] == key;
  }

  lemma ValueHere(s: string, i: nat, j: nat, key: string, size: nat)
    requires i < |s| && s[i] == '\\' && size > 0 && j == End(s, i + 1) < |s| && s[i + 1..j] == key
    ensures ValueFrom(s, i, key, size) == Fit(s[j + 1..End(s, j + 1)], size)
  {
  }

  lemma ValueNotHere(s: string, i: nat, e: nat, b: nat, v: nat, key: string, size: nat)
    requires i < |s| && s[i] == '\\' && size > 0 && e == End(s, i + 1)
    requires !(e < |s| && s[i + 1..e] == key) && b == (if e < |s| then e + 1 else e) && v == End(s, b)
    ensures v < |s| ==> ValueFrom(s, i, key, size) == ValueFrom(s, v, key, size)
    ensures v == |s| ==> ValueFrom(s, i, key, size) == ""
  {
  }
}
