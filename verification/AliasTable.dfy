module AliasTable {
  /* The alias table of src/cmd.c: one set of nodes, linked both in a list and in 32 hash
     chains. */

  import opened Script
  import opened Seqs
  import T = Tokenizer

  const CHAINS := 32

  predicate Ascii(s: string) {
    forall i :: 0 <= i < |s| ==> s[i] as int < 128
  }

  /** `c &~ 32` */
  function WithoutCase(c: char): nat {
    if c as int / 32 % 2 == 1 then c as int - 32 else c as int
  }

  function KeySum(name: string): nat {
    if name == "" then 0 else KeySum(name[..|name| - 1]) + WithoutCase(name[|name| - 1])
  }

  /** Key */
  function Key(name: string): (k: nat)
    ensures k < CHAINS
  {
    KeySum(name) % CHAINS
  }

  /** The loop of Key. */
  method ComputeKey(name: string) returns (k: nat)
    ensures k == Key(name)
  {
    var v, i := 0, 0;
    while i < |name|
      invariant 0 <= i <= |name| && v == KeySum(name[..i])
    {
      assert name[..i + 1][..i] == name[..i];
      v := v + WithoutCase(name[i]);
      i := i + 1;
    }
    assert name[..i] == name;
    k := v % CHAINS;
  }

  /** Names that differ only in case go to the same chain. */
  lemma {:induction false} SameKeySum(a: string, b: string)
    requires Ascii(a) && Ascii(b) && Lower(a) == Lower(b)
    ensures KeySum(a) == KeySum(b)
    decreases |a|
  {
    assert |a| == |b| by { assert |Lower(a)| == |Lower(b)|; }
    if a != "" {
      var n := |a| - 1;
      assert Lower(a[..n]) == Lower(a)[..n] == Lower(b)[..n] == Lower(b[..n]);
      SameKeySum(a[..n], b[..n]);
      SameLetter(a[n], b[n]) by { assert Lower(a)[n] == Lower(b)[n]; }
    }
  }

  lemma SameLetter(c: char, d: char)
    requires LowerChar(c) == LowerChar(d) && c as int < 128 && d as int < 128
    ensures WithoutCase(c) == WithoutCase(d)
  {
  }

  lemma SameKey(a: string, b: string)
    requires Ascii(a) && Ascii(b) && Lower(a) == Lower(b)
    ensures Key(a) == Key(b)
  {
    SameKeySum(a, b);
  }

  // ----- the table as a sequence of entries, the newest first

  datatype Entry = Entry(name: string, value: string)

  predicate SameName(a: string, b: string) {
    Lower(a) == Lower(b)
  }

  ghost predicate Unique(es: seq<Entry>) {
    forall i, j :: 0 <= i < j < |es| ==> !SameName(es[i].name, es[j].name)
  }

  ghost predicate AllAscii(es: seq<Entry>) {
    forall i :: 0 <= i < |es| ==> Ascii(es[i].name)
  }

  /** The first entry from `i` on with that name, or the length. */
  function Linear(es: seq<Entry>, i: nat, name: string): (j: nat)
    requires i <= |es|
    ensures i <= j <= |es| && (j < |es| ==> SameName(es[j].name, name))
    ensures forall k :: i <= k < j ==> !SameName(es[k].name, name)
    decreases |es| - i
  {
    if i == |es| || SameName(es[i].name, name) then i else Linear(es, i + 1, name)
  }

  /** Cmd_Alias_f: an existing entry is overwritten, a new one put in front. */
  function Defined(es: seq<Entry>, name: string, value: string): (r: seq<Entry>)
  {
    var i := Linear(es, 0, name);
    if i < |es| then es[i := Entry(name, value)] else [Entry(name, value)] + es
  }

  /** Cmd_DeleteAlias */
  function Deleted(es: seq<Entry>, name: string): seq<Entry> {
    var i := Linear(es, 0, name);
    if i < |es| then Without(es, i) else es
  }

  /** What an alias stands for, if there is one of that name. */
  datatype Found = Missing | Value(value: string)

  function Lookup(es: seq<Entry>, name: string): Found {
    var i := Linear(es, 0, name);
    if i < |es| then Value(es[i].value) else Missing
  }

  lemma DefinedUnique(es: seq<Entry>, name: string, value: string)
    requires Unique(es)
    ensures Unique(Defined(es, name, value))
  {
  }

  lemma LinearIs(es: seq<Entry>, name: string, i: nat)
    requires Unique(es) && i < |es| && SameName(es[i].name, name)
    ensures Linear(es, 0, name) == i
  {
  }

  /** The last definition of a name is the one that is found; other names keep theirs. */
  lemma LookupDefined(es: seq<Entry>, name: string, value: string, other: string)
    requires Unique(es)
    ensures Lookup(Defined(es, name, value), other)
         == if SameName(other, name) then Value(value) else Lookup(es, other)
  {
    var r, i, j := Defined(es, name, value), Linear(es, 0, name), Linear(es, 0, other);
    DefinedUnique(es, name, value);
    if SameName(other, name) {
      LinearIs(r, other, if i < |es| then i else 0);
    } else if j < |es| {
      LinearIs(r, other, if i < |es| then j else j + 1);
    } else {
      assert forall k :: 0 <= k < |r| ==> !SameName(r[k].name, other);
    }
  }

  lemma LookupDeleted(es: seq<Entry>, name: string, other: string)
    requires Unique(es)
    ensures Unique(Deleted(es, name))
    ensures Lookup(Deleted(es, name), other) == if SameName(other, name) then Missing else Lookup(es, other)
  {
    var r, i, j := Deleted(es, name), Linear(es, 0, name), Linear(es, 0, other);
    if i < |es| {
      DeletedAt(es, i);
      if j < |es| && !SameName(other, name) {
        var j2 := if j < i then j else j - 1;
        LinearIs(r, other, j2);
      }
    }
  }

  lemma DeletedAt(es: seq<Entry>, i: nat)
    requires i < |es| && Unique(es)
    ensures Unique(Without(es, i))
    ensures forall k :: 0 <= k < |es| - 1 ==> Without(es, i)[k] == if k < i then es[k] else es[k + 1]
  {
  }

  // ----- the table as a map, the way the interpreter sees it

  function AsMap(es: seq<Entry>): map<string, string> {
    if es == [] then map[] else AsMap(es[1..])[Lower(es[0].name) := es[0].value]
  }

  lemma {:induction false} LinearTail(es: seq<Entry>, i: nat, name: string)
    requires i < |es|
    ensures Linear(es, i + 1, name) == Linear(es[1..], i, name) + 1
    decreases |es| - i
  {
    if i + 1 < |es| && !SameName(es[i + 1].name, name) { LinearTail(es, i + 1, name); }
  }

  /** Looking a name up in the table is looking it up in the map, without regard to case. */
  lemma {:induction false} LookupIsMap(es: seq<Entry>, name: string)
    ensures Lookup(es, name) == if Lower(name) in AsMap(es) then Value(AsMap(es)[Lower(name)]) else Missing
    decreases |es|
  {
    if es != [] && !SameName(es[0].name, name) {
      LookupIsMap(es[1..], name);
      LinearTail(es, 0, name);
    }
  }

  lemma {:induction false} MapKeys(es: seq<Entry>, n: string)
    ensures n in AsMap(es) <==> exists i :: 0 <= i < |es| && Lower(es[i].name) == n
    decreases |es|
  {
    if es != [] {
      MapKeys(es[1..], n);
      if n in AsMap(es[1..]) {
        var i :| 0 <= i < |es| - 1 && Lower(es[1..][i].name) == n;
        assert Lower(es[i + 1].name) == n;
      }
      if exists i :: 0 <= i < |es| && Lower(es[i].name) == n {
        var i :| 0 <= i < |es| && Lower(es[i].name) == n;
        if i > 0 { assert Lower(es[1..][i - 1].name) == n; }
      }
    }
  }

  /** Defining an alias updates the map at its name. */
  lemma DefinedMap(es: seq<Entry>, name: string, value: string)
    requires Unique(es)
    ensures AsMap(Defined(es, name, value)) == AsMap(es)[Lower(name) := value]
  {
    var r, m := AsMap(Defined(es, name, value)), AsMap(es)[Lower(name) := value];
    forall n | n in r || n in m ensures n in r && n in m && r[n] == m[n] {
      MapAt(es, name, value, n);
    }
  }

  lemma MapAt(es: seq<Entry>, name: string, value: string, n: string)
    requires Unique(es)
    ensures var r, m := AsMap(Defined(es, name, value)), AsMap(es)[Lower(name) := value];
      (n in r <==> n in m) && (n in r ==> r[n] == m[n])
  {
    var d := Defined(es, name, value);
    MapKeys(es, n);
    MapKeys(d, n);
    if n == Lower(name) {
      LookupIsMap(d, name);
      LookupDefined(es, name, value, name);
    } else if exists i :: 0 <= i < |d| && Lower(d[i].name) == n {
      var i :| 0 <= i < |d| && Lower(d[i].name) == n;
      LookupIsMap(d, d[i].name);
      LookupIsMap(es, d[i].name);
      LookupDefined(es, name, value, d[i].name);
    } else if exists i :: 0 <= i < |es| && Lower(es[i].name) == n {
      var i :| 0 <= i < |es| && Lower(es[i].name) == n;
      LookupIsMap(d, es[i].name);
      LookupIsMap(es, es[i].name);
      LookupDefined(es, name, value, es[i].name);
    }
  }

  const MAX_ALIAS_NAME := 32
  const VALUE_SIZE := 1024

  function Joined(args: seq<string>): string {
    if args == [] then "" else if |args| == 1 then args[0]
    else Joined(args[..|args| - 1]) + " " + args[|args| - 1]
  }

  /** What fits the buffer for the value, its terminator included. */
  function Room(s: string): (r: string)
    ensures |r| == (if |s| < 1024 then |s| else 1023) && r <= s
  {
    if |s| < VALUE_SIZE then s else s[..VALUE_SIZE - 1]
  }

  /** strlcat */
  function Appended(s: string, t: string): string {
    Room(s + t)
  }

  lemma RoomTwice(s: string, t: string)
    ensures Appended(Room(s), t) == Room(s + t)
  {
  }

  /** The loop that copies the rest of the command line: cutting at each step is cutting
      once at the end. */
  method JoinArgs(args: seq<string>) returns (cmd: string)
    ensures cmd == Room(Joined(args))
  {
    cmd := "";
    var i := 0;
    while i < |args|
      invariant 0 <= i <= |args| && cmd == Room(Joined(args[..i]))
    {
      assert args[..i + 1][..i] == args[..i];
      var all := Joined(args[..i]);
      if i > 0 {
        RoomTwice(all, " ");
        RoomTwice(all + " ", args[i]);
        cmd := Appended(cmd, " ");
      }
      cmd := Appended(cmd, args[i]);
      i := i + 1;
    }
    assert args[..|args|] == args;
  }

  /** The words as they stand in the joined line. */
  ghost function Spread(args: seq<string>): (ws: seq<T.Spaced>)
    ensures |ws| == |args| && forall i :: 0 <= i < |args| ==> ws[i] == T.Spaced(if i == 0 then "" else " ", args[i])
  {
    seq(|args|, i requires 0 <= i < |args| => T.Spaced(if i == 0 then "" else " ", args[i]))
  }

  lemma {:induction false} JoinedIsLaid(args: seq<string>)
    ensures Joined(args) == T.Laid(Spread(args)) && T.Words(Spread(args)) == args
    decreases |args|
  {
    if args != [] {
      var n := |args| - 1;
      var a, w := Spread(args[..n]), Spread(args)[n];
      assert Spread(args) == a + [w] && args == args[..n] + [args[n]];
      JoinedIsLaid(args[..n]);
      T.LaidConcat(a, [w]);
      WordsConcat(a, [w]);
      OneLaid(w, [w]);
      if n == 0 {
        assert a == [] && "" + ("" + args[n]) == args[n];
      } else if n == 1 {
        assert args[..1] == [args[0]];
        Regroup(Joined(args[..n]), " ", args[n]);
      } else {
        Regroup(Joined(args[..n]), " ", args[n]);
      }
    }
  }

  lemma OneLaid(w: T.Spaced, ws: seq<T.Spaced>)
    requires ws == [w]
    ensures T.Laid(ws) == w.gap + w.word && T.Words(ws) == [w.word]
  {
    assert ws[1..] == [] && w.gap + w.word + "" == w.gap + w.word;
  }

  lemma {:induction false} WordsConcat(a: seq<T.Spaced>, b: seq<T.Spaced>)
    ensures T.Words(a + b) == T.Words(a) + T.Words(b)
    decreases |a|
  {
    if a == [] {
      assert a + b == b;
    } else {
      WordsConcat(a[1..], b);
      assert (a + b)[1..] == a[1..] + b;
    }
  }

  /** The value of an alias, called, falls apart into the arguments that it was defined with. */
  lemma JoinedBack(args: seq<string>)
    requires |args| <= 80 && (forall w :: w in args ==> T.PlainWord(w)) && |Joined(args)| < 1024
    ensures T.Tokenize(Room(Joined(args))) == args
  {
    var ws := Spread(args);
    JoinedIsLaid(args);
    assert forall i :: 0 <= i < |args| ==> args[i] in args;
    T.LineOfWords(ws);
  }

  /** There is one blank between two arguments. */
  lemma {:induction false} JoinedLength(args: seq<string>)
    requires args != []
    ensures |Joined(args)| + 1 == T.Taken(Spread(args))
    decreases |args|
  {
    var n := |args| - 1;
    var a, w := Spread(args[..n]), Spread(args)[n];
    assert Spread(args) == a + [w];
    T.TakenSnoc(a, w);
    if n == 0 { assert a == []; } else { JoinedLength(args[..n]); }
    if n == 1 { assert args[..1] == [args[0]]; }
  }

  // ----- hash chains

  class Alias {
    var name: string
    var value: string
    var next: Alias?
    var hashNext: Alias?
    constructor () { name, value, next, hashNext := "", "", null, null; }
  }

  function At(list: seq<Alias>, i: nat): Alias? {
    if i < |list| then list[i] else null
  }

  /** The first position from `i` on whose name has key `k`, or the length. */
  function HashPos(es: seq<Entry>, i: nat, k: nat): (j: nat)
    requires i <= |es|
    ensures i <= j <= |es| && (j < |es| ==> Key(es[j].name) == k)
    ensures forall l :: i <= l < j ==> Key(es[l].name) != k
    decreases |es| - i
  {
    if i == |es| || Key(es[i].name) == k then i else HashPos(es, i + 1, k)
  }

  lemma HashPosIs(es: seq<Entry>, i: nat, k: nat, j: nat)
    requires i <= j <= |es| && (j < |es| ==> Key(es[j].name) == k)
    requires forall l :: i <= l < j ==> Key(es[l].name) != k
    ensures HashPos(es, i, k) == j
  {
  }

  /** What a node holds. */
  datatype Content = Content(name: string, value: string, next: Alias?, hashNext: Alias?)

  ghost function Contents(list: seq<Alias>): (m: seq<Content>)
    reads list
    ensures |m| == |list|
    ensures forall i :: 0 <= i < |list| ==>
      m[i] == Content(list[i].name, list[i].value, list[i].next, list[i].hashNext)
  {
    seq(|list|, i requires 0 <= i < |list| reads list =>
      Content(list[i].name, list[i].value, list[i].next, list[i].hashNext))
  }

  /** What the node at `i` must hold: it is linked to the next node of the list and to the
      next node of its chain, which is the next one of the list with the same key. */
  ghost function Wanted(list: seq<Alias>, es: seq<Entry>, i: nat): Content
    requires i < |es|
  {
    Content(es[i].name, es[i].value, At(list, i + 1), At(list, HashPos(es, i + 1, Key(es[i].name))))
  }

  /** Each chain holds exactly the nodes of the list with its key, in the same order. */
  ghost predicate Chained(first: Alias?, hash: seq<Alias?>, list: seq<Alias>, es: seq<Entry>, m: seq<Content>) {
    && |list| == |es| == |m| && |hash| == CHAINS
    && first == At(list, 0)
    && (forall k :: 0 <= k < CHAINS ==> hash[k] == At(list, HashPos(es, 0, k)))
    && (forall i :: 0 <= i < |list| ==> m[i] == Wanted(list, es, i))
  }

  ghost predicate Distinct(list: seq<Alias>) {
    forall i, j :: 0 <= i < j < |list| ==> list[i] != list[j]
  }

  lemma HashPosSame(es: seq<Entry>, i: nat, e: Entry, j: nat, k: nat)
    requires i < |es| && Key(e.name) == Key(es[i].name) && j <= |es|
    ensures HashPos(es[i := e], j, k) == HashPos(es, j, k)
  {
    HashPosIs(es[i := e], j, k, HashPos(es, j, k));
  }

  lemma HashPosShift(es: seq<Entry>, e: Entry, i: nat, k: nat)
    requires i <= |es|
    ensures HashPos([e] + es, i + 1, k) == HashPos(es, i, k) + 1
  {
    HashPosIs([e] + es, i + 1, k, HashPos(es, i, k) + 1);
  }

  /** Where position `p` of the list is once position `i` is gone. */
  function Sunk(p: nat, i: nat): nat {
    if p <= i then p else p - 1
  }

  lemma HashPosWithout(es: seq<Entry>, i: nat, j: nat, k: nat)
    requires i < |es| && j <= |es|
    ensures HashPos(Without(es, i), Sunk(j, i), k)
         == if HashPos(es, j, k) == i then HashPos(es, i + 1, k) - 1 else Sunk(HashPos(es, j, k), i)
  {
    var h := HashPos(es, j, k);
    var h2 := if h == i then HashPos(es, i + 1, k) - 1 else Sunk(h, i);
    var r := Without(es, i);
    HashPosIs(r, Sunk(j, i), k, h2);
  }

  lemma OverwriteChained(first: Alias?, hash: seq<Alias?>, list: seq<Alias>, es: seq<Entry>, m: seq<Content>,
                         i: nat, e: Entry)
    requires Chained(first, hash, list, es, m) && i < |es| && Key(e.name) == Key(es[i].name)
    ensures Chained(first, hash, list, es[i := e], m[i := m[i].(name := e.name, value := e.value)])
  {
    forall k | 0 <= k < CHAINS ensures hash[k] == At(list, HashPos(es[i := e], 0, k)) {
      HashPosSame(es, i, e, 0, k);
    }
    var m2 := m[i := m[i].(name := e.name, value := e.value)];
    forall j | 0 <= j < |list| ensures m2[j] == Wanted(list, es[i := e], j) {
      assert m[j] == Wanted(list, es, j);
      HashPosSame(es, i, e, j + 1, Key(es[j].name));
    }
  }

  lemma PrependChained(first: Alias?, hash: seq<Alias?>, list: seq<Alias>, es: seq<Entry>, m: seq<Content>,
                       a: Alias, e: Entry)
    requires Chained(first, hash, list, es, m)
    ensures var k := Key(e.name);
      Chained(a, hash[k := a], [a] + list, [e] + es, [Content(e.name, e.value, first, hash[k])] + m)
  {
    var k0 := Key(e.name);
    forall k | 0 <= k < CHAINS ensures hash[k0 := a][k] == At([a] + list, HashPos([e] + es, 0, k)) {
      HashPosShift(es, e, 0, k);
    }
    var m2 := [Content(e.name, e.value, first, hash[k0])] + m;
    forall j | 0 <= j < |list| + 1 ensures m2[j] == Wanted([a] + list, [e] + es, j) {
      if j == 0 {
        HashPosShift(es, e, 0, k0);
      } else {
        assert m[j - 1] == Wanted(list, es, j - 1);
        HashPosShift(es, e, j, Key(es[j - 1].name));
      }
    }
  }

  /** `p` is the position before `i` in its chain, or -1 if `i` is the head. */
  ghost predicate Before(es: seq<Entry>, i: nat, p: int) {
    && -1 <= p < i < |es|
    && (p >= 0 ==> Key(es[p].name) == Key(es[i].name))
    && forall l :: p < l < i ==> Key(es[l].name) != Key(es[i].name)
  }

  ghost function UnhashedHeads(hash: seq<Alias?>, es: seq<Entry>, m: seq<Content>, i: nat, p: int): seq<Alias?>
    requires |hash| == CHAINS && |es| == |m| && i < |es|
  {
    if p < 0 then hash[Key(es[i].name) := m[i].hashNext] else hash
  }

  /** The nodes after the one at `i` was taken out of its chain. */
  ghost function Unhashed(m: seq<Content>, i: nat, p: int): (r: seq<Content>)
    requires -1 <= p < i < |m|
    ensures |r| == |m|
  {
    if p < 0 then m else m[p := m[p].(hashNext := m[i].hashNext)]
  }

  /** The nodes after the one at `i` was taken out of the list. */
  ghost function Unlisted(m: seq<Content>, i: nat): (r: seq<Content>)
    requires i < |m|
    ensures |r| == |m|
  {
    if i == 0 then m else m[i - 1 := m[i - 1].(next := m[i].next)]
  }

  lemma HeadOnly(es: seq<Entry>, i: nat, p: int, k: nat)
    requires Before(es, i, p)
    ensures HashPos(es, 0, k) == i <==> p < 0 && k == Key(es[i].name)
  {
    if p < 0 && k == Key(es[i].name) { HashPosIs(es, 0, k, i); }
  }

  lemma PrevOnly(es: seq<Entry>, i: nat, p: int, j: nat)
    requires Before(es, i, p) && j < |es| && j != i
    ensures HashPos(es, j + 1, Key(es[j].name)) == i <==> j == p
  {
    if j == p { HashPosIs(es, j + 1, Key(es[j].name), i); }
  }

  lemma AtWithout(list: seq<Alias>, i: nat, q: nat, r: nat)
    requires i < |list| && q != i && r == Sunk(q, i)
    ensures At(Without(list, i), r) == At(list, q)
  {
  }

  lemma HeadsWithout(hash: seq<Alias?>, list: seq<Alias>, es: seq<Entry>, m: seq<Content>, i: nat, p: int, k: nat)
    requires |list| == |es| == |m| && |hash| == CHAINS && Before(es, i, p) && k < CHAINS
    requires hash[k] == At(list, HashPos(es, 0, k)) && m[i] == Wanted(list, es, i)
    ensures UnhashedHeads(hash, es, m, i, p)[k] == At(Without(list, i), HashPos(Without(es, i), 0, k))
  {
    var h := HashPos(es, 0, k);
    HeadOnly(es, i, p, k);
    HashPosWithout(es, i, 0, k);
    var q := if h == i then HashPos(es, i + 1, k) else h;
    AtWithout(list, i, q, HashPos(Without(es, i), 0, k));
    assert UnhashedHeads(hash, es, m, i, p)[k] == At(list, q);
  }

  /** The chain link of the node at `j` once position `i` is gone. */
  lemma LinkWithout(list: seq<Alias>, es: seq<Entry>, i: nat, p: int, j: nat, j2: nat)
    requires |list| == |es| && Before(es, i, p) && j < |es| && j != i && j2 == Sunk(j + 1, i) - 1
    ensures Without(es, i)[j2] == es[j]
    ensures At(Without(list, i), HashPos(Without(es, i), j2 + 1, Key(es[j].name)))
         == At(list, HashPos(es, if j == p then i + 1 else j + 1, Key(es[j].name)))
  {
    var n, key := j + 1, Key(es[j].name);
    HashPosWithout(es, i, n, key);
    PrevOnly(es, i, p, j);
    var q := HashPos(es, if j == p then i + 1 else n, key);
    AtWithout(list, i, q, HashPos(Without(es, i), j2 + 1, key));
  }

  lemma NodeWithout(list: seq<Alias>, es: seq<Entry>, m: seq<Content>, i: nat, p: int, j: nat, j2: nat)
    requires |list| == |es| == |m| && Before(es, i, p) && j < |m| && j != i && j2 == Sunk(j + 1, i) - 1
    requires m[i] == Wanted(list, es, i) && m[j] == Wanted(list, es, j)
    ensures Unlisted(Unhashed(m, i, p), i)[j] == Wanted(Without(list, i), Without(es, i), j2)
  {
    LinkWithout(list, es, i, p, j, j2);
    NodeFields(m, i, p, j);
    NextWithout(list, i, j, j2);
  }

  lemma NodeFields(m: seq<Content>, i: nat, p: int, j: nat)
    requires -1 <= p < i < |m| && j < |m| && j != i
    ensures Unlisted(Unhashed(m, i, p), i)[j]
         == m[j].(next := if j == i - 1 then m[i].next else m[j].next,
                  hashNext := if j == p then m[i].hashNext else m[j].hashNext)
  {
    var u := Unhashed(m, i, p);
    if j == p { assert u[j] == m[j].(hashNext := m[i].hashNext); } else { assert u[j] == m[j]; }
    assert u[i] == m[i];
  }

  lemma NextWithout(list: seq<Alias>, i: nat, j: nat, j2: nat)
    requires i < |list| && j < |list| && j != i && j2 == Sunk(j + 1, i) - 1
    ensures At(Without(list, i), j2 + 1) == At(list, if j == i - 1 then i + 1 else j + 1)
  {
  }

  lemma WithoutChained(first: Alias?, hash: seq<Alias?>, list: seq<Alias>, es: seq<Entry>, m: seq<Content>,
                       i: nat, p: int)
    requires Chained(first, hash, list, es, m) && Before(es, i, p)
    ensures Chained(At(Without(list, i), 0), UnhashedHeads(hash, es, m, i, p), Without(list, i), Without(es, i),
                    Without(Unlisted(Unhashed(m, i, p), i), i))
  {
    forall k | 0 <= k < CHAINS
      ensures UnhashedHeads(hash, es, m, i, p)[k] == At(Without(list, i), HashPos(Without(es, i), 0, k))
    {
      HeadsWithout(hash, list, es, m, i, p, k);
    }
    forall j | 0 <= j < |m| - 1
      ensures Without(Unlisted(Unhashed(m, i, p), i), i)[j] == Wanted(Without(list, i), Without(es, i), j)
    {
      var j1 := if j < i then j else j + 1;
      assert m[j1] == Wanted(list, es, j1);
      NodeWithout(list, es, m, i, p, j1, j);
    }
  }

  /** The same, for a memory and a list given by name. */
  lemma WithoutThere(first: Alias?, hash: seq<Alias?>, list: seq<Alias>, es: seq<Entry>, m: seq<Content>, i: nat,
                     p: int, f2: Alias?, h2: seq<Alias?>, l2: seq<Alias>, e2: seq<Entry>, m2: seq<Content>)
    requires Chained(first, hash, list, es, m) && Before(es, i, p)
    requires l2 == Without(list, i) && e2 == Without(es, i) && f2 == At(l2, 0)
    requires h2 == UnhashedHeads(hash, es, m, i, p) && m2 == Without(Unlisted(Unhashed(m, i, p), i), i)
    ensures Chained(f2, h2, l2, e2, m2)
  {
    WithoutChained(first, hash, list, es, m, i, p);
  }

  class Table {
    var first: Alias?
    const hash: array<Alias?>
    ghost var list: seq<Alias>
    ghost var es: seq<Entry>

    /** The links, without the uniqueness of names. */
    ghost predicate Linked()
      reads this, hash, list
    {
      Chained(first, hash[..], list, es, Contents(list)) && Distinct(list) && AllAscii(es)
    }

    ghost predicate Valid()
      reads this, hash, list
    {
      Linked() && Unique(es)
    }

    constructor ()
      ensures Valid() && es == [] && fresh(hash)
    {
      first := null;
      hash := new Alias?[CHAINS](_ => null);
      list, es := [], [];
    }

    /** The search along a hash chain finds what a search of the whole list finds, and
        the node before it in the chain. */
    method Search(name: string) returns (a: Alias?, prev: Alias?, ghost p: int)
      requires Linked() && Ascii(name)
      ensures var i := Linear(es, 0, name);
        a == At(list, i) && (a != null ==> Before(es, i, p) && prev == if p < 0 then null else list[p])
    {
      var key := ComputeKey(name);
      prev := null;
      a := hash[key];
      ghost var i, m := HashPos(es, 0, key), Contents(list);
      p := -1;
      OtherKeys(es, 0, name);
      while a != null && !SameName(a.name, name)
        invariant i <= |es| && a == At(list, i) && (i < |es| ==> Key(es[i].name) == key)
        invariant -1 <= p < i && prev == (if p < 0 then null else list[p])
        invariant p >= 0 ==> Key(es[p].name) == key
        invariant forall l :: p < l < i ==> Key(es[l].name) != key
        invariant forall l :: 0 <= l < i ==> !SameName(es[l].name, name)
        decreases |es| - i
      {
        assert m[i] == Wanted(list, es, i);
        prev := a;
        p := i;
        i := HashPos(es, i + 1, key);
        OtherNames(es, p, i, key, name);
        a := a.hashNext;
      }
      if i < |es| { assert m[i] == Wanted(list, es, i); }
      LinearAt(es, name, i);
    }

    /** An entry that is there already gets a new value (and its name as now written). */
    method Overwrite(a: Alias, name: string, value: string, ghost i: nat)
      requires Linked() && Ascii(name) && i < |list| && a == list[i] && Key(es[i].name) == Key(name)
      modifies this`es, a
      ensures Linked() && es == old(es)[i := Entry(name, value)]
    {
      ghost var m := Contents(list);
      OverwriteChained(first, hash[..], list, es, m, i, Entry(name, value));
      a.name := name;
      a.value := value;
      es := es[i := Entry(name, value)];
      assert Contents(list) == m[i := m[i].(name := name, value := value)];
    }

    /** A new node becomes the head of the list and of chain `key`. */
    method LinkNode(name: string, value: string, key: nat) returns (a: Alias)
      requires key < CHAINS == hash.Length
      modifies this`first, hash
      ensures fresh(a) && a.name == name && a.value == value
      ensures a.next == old(first) && a.hashNext == old(hash[key])
      ensures first == a && hash[..] == old(hash[..])[key := a]
    {
      a := new Alias();
      a.next := first;
      first := a;
      a.hashNext := hash[key];
      hash[key] := a;
      a.name := name;
      a.value := value;
    }

    /** A new entry goes to the front of the list and of its chain. */
    method Prepend(name: string, value: string)
      requires Linked() && Ascii(name)
      modifies this, hash
      ensures Linked() && es == [Entry(name, value)] + old(es)
    {
      ghost var m, hs, l, f, e := Contents(list), hash[..], list, first, es;
      var key := ComputeKey(name);
      var a := LinkNode(name, value, key);
      PrependChained(f, hs, l, e, m, a, Entry(name, value));
      ConsContents(a, l);
      assert Contents(l) == m;
      ghost var e2, l2 := [Entry(name, value)] + e, [a] + l;
      ConsKeeps(l, e, a, Entry(name, value));
      Relist(l2, e2);
    }

    /** Cmd_DeleteAlias, first part: the node is taken out of its hash chain. */
    method Unhash(a: Alias, prev: Alias?, key: nat, ghost i: nat, ghost p: int,
                  ghost m: seq<Content>, ghost hs: seq<Alias?>)
      requires Linked() && i < |list| && a == list[i] && Before(es, i, p) && key == Key(es[i].name)
      requires prev == if p < 0 then null else list[p]
      requires m == Contents(list) && hs == hash[..]
      modifies hash, list
      ensures hash[..] == UnhashedHeads(hs, es, m, i, p) && Contents(list) == Unhashed(m, i, p)
    {
      if prev != null {
        prev.hashNext := a.hashNext;
        assert hash[..] == hs;
        assert Contents(list) == Unhashed(m, i, p);
      } else {
        hash[key] := a.hashNext;
        assert Contents(list) == m;
        assert hash[..] == hs[key := m[i].hashNext];
      }
    }

    /** Cmd_DeleteAlias, second part: the node is taken out of the list. */
    method Unlist(name: string, ghost i: nat, ghost m: seq<Content>)
      requires first == At(list, 0) && Distinct(list) && i < |list| && m == Contents(list)
      requires forall j :: 0 <= j < |list| ==> m[j].next == At(list, j + 1)
      requires forall j :: 0 <= j <= i ==> (SameName(m[j].name, name) <==> j == i)
      modifies this`first, list
      ensures first == At(Without(list, i), 0) && Contents(list) == Unlisted(m, i)
    {
      var prev: Alias?, a := null, first;
      ghost var j := 0;
      while a != null && !SameName(a.name, name)
        invariant j <= i && a == list[j] && prev == (if j == 0 then null else list[j - 1])
        decreases i - j
      {
        assert m[j].next == At(list, j + 1);
        prev := a;
        a := a.next;
        j := j + 1;
      }
      if a == null {
        // "alias list broken": the hash chain found it, so the list has it
        assert false;
      } else {
        CutNode(a, prev, i, m);
      }
    }

    method CutNode(a: Alias, prev: Alias?, ghost i: nat, ghost m: seq<Content>)
      requires first == At(list, 0) && Distinct(list) && i < |list| && a == list[i] && a.next == At(list, i + 1)
      requires prev == (if i == 0 then null else list[i - 1]) && m == Contents(list)
      modifies this`first, list
      ensures first == At(Without(list, i), 0) && Contents(list) == Unlisted(m, i)
    {
      if prev != null {
        prev.next := a.next;
        assert Contents(list) == Unlisted(m, i);
      } else {
        first := a.next;
        assert Contents(list) == m;
      }
    }

    /** Cmd_DeleteAlias */
    method Delete(name: string) returns (found: bool)
      requires Valid() && Ascii(name)
      modifies this, hash, list
      ensures Valid() && es == Deleted(old(es), name)
      ensures found == (Linear(old(es), 0, name) < |old(es)|)
    {
      var a, prev;
      ghost var p;
      a, prev, p := Search(name);
      if a == null { return false; }
      Remove(a, prev, name, Linear(es, 0, name), p);
      WithoutUnique(old(es), Linear(old(es), 0, name));
      found := true;
    }

    /** The node is taken out of both its chain and the list. */
    method Detach(a: Alias, prev: Alias?, name: string, ghost i: nat, ghost p: int,
                  ghost m: seq<Content>, ghost hs: seq<Alias?>, ghost e: seq<Entry>)
      requires Linked() && Ascii(name) && i == Linear(es, 0, name) < |list| && a == list[i] && Before(es, i, p)
      requires prev == if p < 0 then null else list[p]
      requires m == Contents(list) && hs == hash[..] && e == es
      modifies this`first, hash, list
      ensures first == At(Without(list, i), 0)
      ensures hash[..] == UnhashedHeads(hs, e, m, i, p)
      ensures Contents(list) == Unlisted(Unhashed(m, i, p), i)
    {
      SameKey(es[i].name, name);
      var key := ComputeKey(name);
      Unhash(a, prev, key, i, p, m, hs);
      ghost var h2, m1 := hash[..], Unhashed(m, i, p);
      UnhashedKeeps(list, es, m, name, i, p);
      Unlist(name, i, m1);
      assert hash[..] == h2;
    }

    method Remove(a: Alias, prev: Alias?, name: string, ghost i: nat, ghost p: int)
      requires Linked() && Ascii(name) && i == Linear(es, 0, name) < |list| && a == list[i] && Before(es, i, p)
      requires prev == if p < 0 then null else list[p]
      modifies this, hash, list
      ensures Linked() && es == Without(old(es), i)
    {
      ghost var m, f, hs, l, e := Contents(list), first, hash[..], list, es;
      ghost var l2, e2 := Without(l, i), Without(e, i);
      WithoutKeeps(l, e, i);
      Detach(a, prev, name, i, p, m, hs, e);
      ghost var m1, m2 := Unlisted(Unhashed(m, i, p), i), Contents(l2);
      WithoutContents(l, i, m1);
      WithoutThere(f, hs, l, e, m, i, p, first, hash[..], l2, e2, m2);
      Relist(l2, e2);
    }

    ghost method Relist(l2: seq<Alias>, e2: seq<Entry>)
      requires Chained(first, hash[..], l2, e2, Contents(l2)) && Distinct(l2) && AllAscii(e2)
      modifies this`list, this`es
      ensures Linked() && list == l2 && es == e2
    {
      list, es := l2, e2;
      assert Contents(list) == old(Contents(l2));
    }

    /** Cmd_Alias_f: the arguments from the third on, joined by blanks, are the value. */
    method Define(argv: seq<string>)
      requires Valid() && |argv| >= 1 && (|argv| > 1 ==> Ascii(argv[1]))
      modifies this, hash, list
      ensures Valid()
      ensures es == if |argv| == 1 || |argv[1]| >= 32 then old(es)
                    else Defined(old(es), argv[1], Room(Joined(argv[2..])))
    {
      if |argv| == 1 { return; }
      var name := argv[1];
      if |name| >= MAX_ALIAS_NAME { return; }
      var value := JoinArgs(argv[2..]);
      DefinedUnique(es, name, value);
      var a, prev;
      ghost var p;
      a, prev, p := Search(name);
      if a != null {
        SameKey(es[Linear(es, 0, name)].name, name);
        Overwrite(a, name, value, Linear(es, 0, name));
      } else {
        Prepend(name, value);
      }
    }

    /** Cmd_UnAliasAll_f */
    method UnaliasAll()
      requires hash.Length == CHAINS
      modifies this, hash
      ensures Valid() && es == []
    {
      first := null;
      forall k | 0 <= k < CHAINS {
        hash[k] := null;
      }
      list, es := [], [];
    }
  }

  lemma UnhashedKeeps(list: seq<Alias>, es: seq<Entry>, m: seq<Content>, name: string, i: nat, p: int)
    requires |list| == |es| == |m| && -1 <= p < i < |es| && i == Linear(es, 0, name)
    requires forall j :: 0 <= j < |list| ==> m[j] == Wanted(list, es, j)
    ensures forall j :: 0 <= j < |list| ==> Unhashed(m, i, p)[j].next == At(list, j + 1)
    ensures forall j :: 0 <= j <= i ==> (SameName(Unhashed(m, i, p)[j].name, name) <==> j == i)
  {
    var r := Unhashed(m, i, p);
    forall j | 0 <= j < |list| ensures r[j].next == At(list, j + 1) && r[j].name == es[j].name {
      assert m[j] == Wanted(list, es, j);
    }
  }

  lemma WithoutContents(list: seq<Alias>, i: nat, m: seq<Content>)
    requires i < |list| && m == Contents(list)
    ensures Contents(Without(list, i)) == Without(m, i)
  {
  }

  lemma WithoutKeeps(list: seq<Alias>, es: seq<Entry>, i: nat)
    requires Distinct(list) && AllAscii(es) && |list| == |es| && i < |es|
    ensures Distinct(Without(list, i)) && AllAscii(Without(es, i))
  {
  }

  lemma WithoutUnique(es: seq<Entry>, i: nat)
    requires Unique(es) && i < |es|
    ensures Unique(Without(es, i))
  {
  }

  lemma ConsKeeps(list: seq<Alias>, es: seq<Entry>, a: Alias, e: Entry)
    requires Distinct(list) && a !in list && AllAscii(es) && Ascii(e.name)
    ensures Distinct([a] + list) && AllAscii([e] + es)
  {
  }

  lemma ConsContents(a: Alias, list: seq<Alias>)
    ensures Contents([a] + list) == [Content(a.name, a.value, a.next, a.hashNext)] + Contents(list)
  {
  }

  lemma LinearAt(es: seq<Entry>, name: string, i: nat)
    requires i <= |es| && (forall l :: 0 <= l < i ==> !SameName(es[l].name, name))
    requires i < |es| ==> SameName(es[i].name, name)
    ensures Linear(es, 0, name) == i
  {
  }

  /** From a node with another name, no node up to the next one of the chain has the name. */
  lemma OtherNames(es: seq<Entry>, p: nat, i: nat, key: nat, name: string)
    requires AllAscii(es) && Ascii(name) && key == Key(name) && p < |es| && i == HashPos(es, p + 1, key)
    requires !SameName(es[p].name, name) && forall l :: 0 <= l < p ==> !SameName(es[l].name, name)
    ensures forall l :: 0 <= l < i ==> !SameName(es[l].name, name)
  {
    OtherKeys(es, p + 1, name);
  }

  lemma OtherKeys(es: seq<Entry>, i: nat, name: string)
    requires AllAscii(es) && Ascii(name) && i <= |es|
    ensures forall l :: i <= l < HashPos(es, i, Key(name)) ==> !SameName(es[l].name, name)
  {
    forall l | i <= l < HashPos(es, i, Key(name)) ensures !SameName(es[l].name, name) {
      if SameName(es[l].name, name) { SameKey(es[l].name, name); }
    }
  }
}
