module BanFile {
  /* SV_WriteIP_f and the way back: the printed commands go through the command buffer, the
     tokenizer and SV_AddIP_f. */

  import opened Bans
  import opened Numbers
  import S = Script
  import B = CommandBuffer
  import T = Tokenizer

  // ----- what is printed

  function Dots(q: Quad): string {
    Decimal(q.a) + "." + Decimal(q.b) + "." + Decimal(q.c) + "." + Decimal(q.d)
  }

  /** Bans are printed with a blank more. */
  function Gap(k: Kind): string {
    if k == Safe then " safe " else "  ban "
  }

  function KindName(k: Kind): string {
    if k == Safe then "safe" else "ban"
  }

  function Command(f: Filter): string {
    "addip " + Dots(f.compare) + Gap(f.kind) + Printed(f.time)
  }

  function Commands(fs: seq<Filter>): (ls: seq<string>)
    ensures |ls| == |fs| && forall i :: 0 <= i < |fs| ==> ls[i] == Command(fs[i])
  {
    seq(|fs|, i requires 0 <= i < |fs| => Command(fs[i]))
  }

  function Unlines(ls: seq<string>): string {
    if ls == [] then "" else ls[0] + "\n" + Unlines(ls[1..])
  }

  function Text(fs: seq<Filter>): string {
    Unlines(Commands(fs))
  }

  function OfKindOnly(fs: seq<Filter>, k: Kind): (r: seq<Filter>)
    ensures |r| <= |fs| && forall f :: f in r <==> f in fs && f.kind == k
  {
    if fs == [] then [] else (if fs[0].kind == k then [fs[0]] else []) + OfKindOnly(fs[1..], k)
  }

  /** Safe filters first, each kind in its order. */
  function SafeFirst(fs: seq<Filter>): seq<Filter> {
    OfKindOnly(fs, Safe) + OfKindOnly(fs, Ban)
  }

  // ----- reading an address back

  lemma OctetAt(s: string, p: nat, e: nat, n: nat, k: nat)
    requires n < 256 && k > 0 && p < e <= |s| && s[p..e] == Decimal(n) && (e < |s| ==> !IsDigit(s[e]))
    ensures Octets(s, p, k) == if e == |s| then Good([n])
      else var r := Octets(s, e + 1, k - 1); if r.Bad? then Bad else Good([n] + r.bytes)
  {
    assert forall i :: p <= i < e ==> s[i] == s[p..e][i - p];
    DigitsEndIs(s, p, e);
    NumberDecimal(n);
  }

  lemma Parts(q: Quad, p: nat, r: nat, t: nat)
    requires p == |Decimal(q.a)| && r == p + 1 + |Decimal(q.b)| && t == r + 1 + |Decimal(q.c)|
    ensures var s := Dots(q);
      && t + 1 < |s| && s[p] == s[r] == s[t] == '.'
      && s[0..p] == Decimal(q.a) && s[p + 1..r] == Decimal(q.b)
      && s[r + 1..t] == Decimal(q.c) && s[t + 1..|s|] == Decimal(q.d)
  {
  }

  lemma FourOctets(q: Quad, k: nat, l: nat, m: nat, n: nat)
    requires Byte(q) && k == l + 1 && l == m + 1 && m == n + 1 && n == 1
    ensures Octets(Dots(q), 0, k) == Good([q.a] + ([q.b] + ([q.c] + [q.d])))
  {
    var s := Dots(q);
    var p := |Decimal(q.a)|;
    var r := p + 1 + |Decimal(q.b)|;
    var t := r + 1 + |Decimal(q.c)|;
    Parts(q, p, r, t);
    var z, y, x := t + 1, r + 1, p + 1;
    OctetAt(s, z, |s|, q.d, n);
    assert Octets(s, z, n) == Good([q.d]);
    OctetAt(s, y, t, q.c, m);
    assert Octets(s, y, m) == Good([q.c] + [q.d]);
    OctetAt(s, x, r, q.b, l);
    assert Octets(s, x, l) == Good([q.b] + ([q.c] + [q.d]));
    OctetAt(s, 0, p, q.a, k);
  }

  /** An address that was printed is read back, and with it the mask. */
  lemma DotsBack(q: Quad)
    requires Byte(q)
    ensures StringToFilter(Dots(q)) == Compare(q)
  {
    FourOctets(q, 4, 3, 2, 1);
  }

  // ----- reading a command back

  /** A filter whose time prints as a double does: in at most 310 characters. */
  ghost predicate Printable(f: Filter) {
    Canonical(f) && |Printed(f.time)| <= 310
  }

  ghost predicate Dotted(s: string) {
    s != "" && IsDigit(s[0]) && forall k :: 0 <= k < |s| ==> IsDigit(s[k]) || s[k] == '.'
  }

  lemma DotsPlain(q: Quad)
    requires Byte(q)
    ensures Dotted(Dots(q)) && |Dots(q)| <= 15
  {
    assert Pow10(3) == 1000;
    DecimalLength(q.a, 3);
    DecimalLength(q.b, 3);
    DecimalLength(q.c, 3);
    DecimalLength(q.d, 3);
  }

  /** A printed command as a line of words. */
  ghost function Layout(f: Filter): seq<T.Spaced> {
    [T.Spaced("", "addip"), T.Spaced(" ", Dots(f.compare)),
     T.Spaced(if f.kind == Safe then " " else "  ", KindName(f.kind)), T.Spaced(" ", Printed(f.time))]
  }

  lemma LaidFour(ws: seq<T.Spaced>)
    requires |ws| == 4
    ensures T.Laid(ws) == ws[0].gap + ws[0].word + (ws[1].gap + ws[1].word
      + (ws[2].gap + ws[2].word + (ws[3].gap + ws[3].word)))
  {
    var x, y, z := ws[1..], ws[2..], ws[3..];
    LaidFirst(ws, x, ws[0]);
    LaidFirst(x, y, ws[1]);
    LaidFirst(y, z, ws[2]);
    LaidFirst(z, [], ws[3]);
  }

  lemma LaidFirst(ws: seq<T.Spaced>, rest: seq<T.Spaced>, w: T.Spaced)
    requires |ws| > 0 && rest == ws[1..] && w == ws[0]
    ensures rest == [] ==> T.Laid(ws) == w.gap + w.word
    ensures rest != [] ==> T.Laid(ws) == w.gap + w.word + T.Laid(rest)
  {
  }

  lemma {:induction false} WordsAt(ws: seq<T.Spaced>)
    ensures |T.Words(ws)| == |ws| && forall i :: 0 <= i < |ws| ==> T.Words(ws)[i] == ws[i].word
  {
    if ws != [] { WordsAt(ws[1..]); }
  }

  lemma SameText(d: string, g: string, k: string, p: string)
    ensures "addip " + d + (g + k + " ") + p == "" + "addip" + (" " + d + (g + k + (" " + p)))
  {
  }

  lemma LayoutSeparated(f: Filter)
    requires Printable(f)
    ensures T.Separated(Layout(f))
  {
    DotsPlain(f.compare);
    var ws := Layout(f);
    forall i | 0 <= i < |ws| ensures T.PlainWord(ws[i].word) {
      if i == 0 {} else if i == 1 {} else if i == 2 {} else {}
    }
  }

  lemma CommandLayout(f: Filter)
    requires Printable(f)
    ensures Command(f) == T.Laid(Layout(f)) && |Command(f)| < 400
    ensures T.Words(Layout(f)) == ["addip", Dots(f.compare), KindName(f.kind), Printed(f.time)]
  {
    LaidFour(Layout(f));
    WordsAt(Layout(f));
    DotsPlain(f.compare);
    var g := if f.kind == Safe then " " else "  ";
    assert Gap(f.kind) == g + KindName(f.kind) + " ";
    SameText(Dots(f.compare), g, KindName(f.kind), Printed(f.time));
  }

  /** A printed command falls apart into its four arguments. */
  lemma CommandTokens(f: Filter)
    requires Printable(f)
    ensures T.Tokenize(Command(f)) == ["addip", Dots(f.compare), KindName(f.kind), Printed(f.time)]
  {
    CommandLayout(f);
    LayoutSeparated(f);
    T.LineOfWords(Layout(f));
  }

  // ----- reading the file back

  ghost predicate AllPrintable(fs: seq<Filter>) {
    forall f :: f in fs ==> Printable(f)
  }

  lemma AddBack(fs: seq<Filter>, f: Filter, argv: seq<string>, now: int)
    requires Printable(f) && now > 0
    requires argv == ["addip", Dots(f.compare), KindName(f.kind), Printed(f.time)]
    ensures AddIP(fs, argv, now) == Put(fs, f)
  {
    DotsBack(f.compare);
    AtoiPrinted(f.time);
    var t := Printed(f.time);
    assert t[0] != '+';
    assert f == Filter(MaskOf(f.compare), f.compare, TimeOf(t, now), f.kind);
  }

  /** A printed command is one line. */
  lemma CommandLine(f: Filter)
    requires Printable(f)
    ensures S.EndsLine(Command(f) + "\n") && S.Lines(Command(f) + "\n") == [Command(f)]
  {
    CommandLayout(f);
    CommandClean(f, Command(f));
    S.OneLine(Command(f));
  }

  /** No character that ends a command or starts a quotation. */
  ghost predicate Clean(s: string) {
    forall i :: 0 <= i < |s| ==> s[i] != '\n' && s[i] != ';' && s[i] != '"' && s[i] != '\r'
  }

  lemma CommandClean(f: Filter, s: string)
    requires Printable(f) && s == Command(f)
    ensures Clean(s)
  {
    DotsPlain(f.compare);
    assert Clean("addip " + Dots(f.compare));
    assert Clean("addip " + Dots(f.compare) + Gap(f.kind));
  }

  ghost predicate Single(l: string) {
    S.EndsLine(l + "\n") && S.Lines(l + "\n") == [l]
  }

  lemma {:induction false} UnlinesLines(ls: seq<string>)
    requires forall l :: l in ls ==> Single(l)
    ensures Unlines(ls) == "" || S.EndsLine(Unlines(ls))
    ensures S.Lines(Unlines(ls)) == ls
    decreases |ls|
  {
    if ls != [] {
      assert ls[0] in ls && forall l :: l in ls[1..] ==> l in ls;
      UnlinesLines(ls[1..]);
      S.LinesConcat(ls[0] + "\n", Unlines(ls[1..]));
    }
  }

  lemma TextLines(fs: seq<Filter>)
    requires AllPrintable(fs)
    ensures forall l :: l in Commands(fs) ==> Single(l)
  {
    forall i | 0 <= i < |fs| ensures Single(Commands(fs)[i]) {
      assert fs[i] in fs;
      CommandLine(fs[i]);
    }
  }

  /** Times that print as a double does, in at most 310 characters. */
  ghost predicate ShortTimes(fs: seq<Filter>) {
    forall f :: f in fs ==> |Printed(f.time)| <= 310
  }

  /** What a line that was executed does to the list. */
  function Effect(fs: seq<Filter>, w: S.World, line: string, now: int): seq<Filter> {
    var argv := T.Tokenize(w.expand(line));
    if argv != [] && S.Lower(argv[0]) == "addip" then AddIP(fs, argv, now) else fs
  }

  function Replay(fs: seq<Filter>, w: S.World, log: seq<string>, now: int): seq<Filter>
    decreases |log|
  {
    if log == [] then fs else Replay(Effect(fs, w, log[0], now), w, log[1..], now)
  }

  /** `addip` is a command that leaves the buffer alone, and expansion leaves the printed
      commands alone. */
  ghost predicate Knows(w: S.World, fs: seq<Filter>) {
    && "addip" in w.commands && S.Dispatch(w, "") == S.Nothing
    && forall f :: f in fs ==> w.expand(Command(f)) == Command(f) && w.effect(Command(f)) == []
  }

  lemma LowerAddip()
    ensures S.Lower("addip") == "addip"
  {
  }

  lemma CommandRuns(w: S.World, f: Filter)
    requires Printable(f) && "addip" in w.commands && w.expand(Command(f)) == Command(f) && w.effect(Command(f)) == []
    ensures S.Plain(w, Command(f)) && S.Event(w, Command(f)) == [Command(f)]
  {
    CommandTokens(f);
    LowerAddip();
  }

  lemma EffectIs(gs: seq<Filter>, w: S.World, f: Filter, now: int)
    requires Printable(f) && w.expand(Command(f)) == Command(f) && now > 0
    ensures Effect(gs, w, Command(f), now) == Put(gs, f)
  {
    CommandTokens(f);
    LowerAddip();
    AddBack(gs, f, T.Tokenize(Command(f)), now);
  }

  lemma CommandsCons(fs: seq<Filter>)
    requires fs != []
    ensures Commands(fs) == [Commands(fs)[0]] + Commands(fs[1..])
  {
    SameTail(Commands(fs), Commands(fs[1..]));
  }

  lemma SameTail(a: seq<string>, b: seq<string>)
    requires |a| == |b| + 1 && forall i :: 0 <= i < |b| ==> a[i + 1] == b[i]
    ensures a == [a[0]] + b
  {
  }

  lemma ReplayCons(gs: seq<Filter>, w: S.World, l: string, rest: seq<string>, lines: seq<string>, now: int)
    requires lines == [l] + rest
    ensures Replay(gs, w, lines, now) == Replay(Effect(gs, w, l, now), w, rest, now)
  {
    assert lines[1..] == rest;
  }

  lemma {:induction false} ReplayCommands(gs: seq<Filter>, w: S.World, fs: seq<Filter>, now: int)
    requires AllPrintable(fs) && Knows(w, fs) && now > 0
    ensures Replay(gs, w, Commands(fs), now) == PutAll(gs, fs)
    decreases |fs|
  {
    if fs != [] {
      assert fs[0] in fs && forall f :: f in fs[1..] ==> f in fs;
      EffectIs(gs, w, fs[0], now);
      CommandsCons(fs);
      ReplayCons(gs, w, Command(fs[0]), Commands(fs[1..]), Commands(fs), now);
      ReplayCommands(Put(gs, fs[0]), w, fs[1..], now);
    }
  }

  lemma CommandsPlain(w: S.World, fs: seq<Filter>)
    requires AllPrintable(fs) && Knows(w, fs)
    ensures forall l :: l in Commands(fs) ==> S.Plain(w, l) && S.Event(w, l) == [l]
  {
    forall i | 0 <= i < |fs| ensures S.Plain(w, Commands(fs)[i]) && S.Event(w, Commands(fs)[i]) == [Commands(fs)[i]] {
      assert fs[i] in fs;
      CommandRuns(w, fs[i]);
    }
  }

  lemma FileLines(fs: seq<Filter>)
    requires AllPrintable(fs)
    ensures S.Lines(Text(fs) + "\n") == Commands(fs) + [""] && S.Ended(Text(fs))
  {
    TextLines(fs);
    UnlinesLines(Commands(fs));
    S.NewlineAlone("\n");
    S.LinesConcat(Text(fs), "\n");
  }

  /** Executing the printed text in front of other text, as `exec` does it: the lines are
      the commands, and then the other text is reached. */
  lemma TextRuns(w: S.World, fs: seq<Filter>, rest: string, n: nat)
    requires AllPrintable(fs) && Knows(w, fs) && n == |S.Lines(Text(fs) + "\n")|
    ensures S.Steps(w, Text(fs) + "\n" + rest, n) == S.Progress(Commands(fs), rest)
  {
    FileLines(fs);
    CommandsPlain(w, fs);
    assert S.Plain(w, "");
    S.PlainSteps(w, Text(fs) + "\n", rest, n);
    CommandEvents(w, fs, [""]);
  }

  lemma CommandEvents(w: S.World, fs: seq<Filter>, blank: seq<string>)
    requires AllPrintable(fs) && Knows(w, fs) && blank == [""]
    ensures S.Events(w, Commands(fs) + blank) == Commands(fs)
  {
    var cs := Commands(fs);
    CommandsPlain(w, fs);
    S.EventsConcat(w, cs, blank);
    S.EventsAll(w, cs);
    BlankEvents(w, blank, blank[1..]);
  }

  lemma BlankEvents(w: S.World, blank: seq<string>, none: seq<string>)
    requires blank == [""] && none == blank[1..] && S.Event(w, "") == []
    ensures S.Events(w, blank) == []
  {
    assert none == [] && S.Events(w, none) == [];
  }

  lemma {:induction false} KindKeeps(fs: seq<Filter>, k: Kind)
    requires Unique(fs)
    ensures Unique(OfKindOnly(fs, k))
    decreases |fs|
  {
    if fs != [] {
      KindKeeps(fs[1..], k);
      forall f | f in OfKindOnly(fs[1..], k) ensures f.compare != fs[0].compare {
        var i :| 0 <= i < |fs| - 1 && fs[1..][i] == f;
        assert fs[i + 1] == f;
      }
      assert forall i :: 0 <= i < |OfKindOnly(fs[1..], k)| ==> OfKindOnly(fs[1..], k)[i] in OfKindOnly(fs[1..], k);
    }
  }

  lemma {:induction false} KindCount(fs: seq<Filter>)
    ensures |SafeFirst(fs)| == |fs|
  {
    if fs != [] { KindCount(fs[1..]); }
  }

  lemma SafeFirstKeeps(fs: seq<Filter>)
    requires Unique(fs)
    ensures Unique(SafeFirst(fs)) && |SafeFirst(fs)| == |fs|
    ensures forall f :: f in SafeFirst(fs) <==> f in fs
  {
    KindKeeps(fs, Safe);
    KindKeeps(fs, Ban);
    KindCount(fs);
    var a, b := OfKindOnly(fs, Safe), OfKindOnly(fs, Ban);
    forall f, g | f in a && g in b ensures f.compare != g.compare {
      var i :| 0 <= i < |fs| && fs[i] == f;
      var j :| 0 <= j < |fs| && fs[j] == g;
      assert i != j;
    }
    assert forall i :: 0 <= i < |a| ==> a[i] in a;
    assert forall i :: 0 <= i < |b| ==> b[i] in b;
  }

  predicate Fits(text: string, rest: string) {
    |text| + 1 + |rest| <= 16384
  }

  lemma LinesGrow(text: string, rest: string)
    ensures |S.Lines(B.Inserted(text, rest))|
         == |S.Lines(rest)| + if Fits(text, rest) then |S.Lines(text + "\n")| else 0
  {
    S.LinesConcat(text + "\n", rest);
  }

  /** How many lines `exec` put in front of the rest of the buffer. */
  function NewLines(text: string, rest: string): (n: nat)
    ensures n == if Fits(text, rest) then |S.Lines(text + "\n")| else 0
  {
    LinesGrow(text, rest);
    |S.Lines(B.Inserted(text, rest))| - |S.Lines(rest)|
  }

  /** The list after the printed text was executed from an empty list, when the rest of the
      buffer is reached. */
  function Reloaded(w: S.World, fs: seq<Filter>, rest: string, now: int): seq<Filter> {
    var text := Text(SafeFirst(fs));
    Replay([], w, S.Steps(w, B.Inserted(text, rest), NewLines(text, rest)).log, now)
  }

  lemma ReloadedIs(w: S.World, fs: seq<Filter>, rest: string, now: int)
    requires AllPrintable(SafeFirst(fs)) && Knows(w, SafeFirst(fs)) && now > 0
    ensures Reloaded(w, fs, rest, now) == if Fits(Text(SafeFirst(fs)), rest) then PutAll([], SafeFirst(fs)) else []
    ensures S.Steps(w, B.Inserted(Text(SafeFirst(fs)), rest), NewLines(Text(SafeFirst(fs)), rest)).text == rest
  {
    var gs, text := SafeFirst(fs), Text(SafeFirst(fs));
    if Fits(text, rest) {
      TextRuns(w, gs, rest, NewLines(text, rest));
      ReplayCommands([], w, gs, now);
    }
  }

  /** Writing a list that commands made and executing what was written rebuilds it, safe
      filters first, exactly when the text fits the command buffer in front of what is there
      and a safe 255.255.255.255 is not followed by a ban. */
  lemma Reload(w: S.World, os: seq<Order>, rest: string, now: int)
    requires ShortTimes(Reached(os)) && Knows(w, Reached(os)) && now > 0
    ensures var fs := Reached(os);
      (Reloaded(w, fs, rest, now) == SafeFirst(fs)) <==>
      (fs == [] || (Fits(Text(SafeFirst(fs)), rest) && OnesLast(SafeFirst(fs))))
  {
    var fs := Reached(os);
    var gs := SafeFirst(fs);
    AlwaysTidy(os);
    SafeFirstKeeps(fs);
    ReloadedIs(w, fs, rest, now);
    PutAllRebuilds(gs);
  }

  /** If the text fits, every address keeps its answer: only a safe 255.255.255.255 can be
      lost. */
  lemma ReloadBans(w: S.World, os: seq<Order>, rest: string, now: int, x: Quad)
    requires ShortTimes(Reached(os)) && Knows(w, Reached(os)) && now > 0
    requires Fits(Text(SafeFirst(Reached(os))), rest)
    ensures IsBanned(Reloaded(w, Reached(os), rest, now), x) <==> IsBanned(Reached(os), x)
  {
    var fs := Reached(os);
    AlwaysTidy(os);
    SafeFirstKeeps(fs);
    ReloadedIs(w, fs, rest, now);
    PutAllRebuilds(SafeFirst(fs));
    if !OnesLast(SafeFirst(fs)) { OnlySafeLost(fs, x); }
  }

  lemma OnlySafeLost(fs: seq<Filter>, x: Quad)
    requires Tidy(fs) && !OnesLast(SafeFirst(fs))
    ensures IsBanned(PutAll([], SafeFirst(fs)), x) <==> IsBanned(fs, x)
  {
    var a, b := OfKindOnly(fs, Safe), OfKindOnly(fs, Ban);
    SafeFirstKeeps(fs);
    OnesOfSafe(fs);
    var c, ones := a[..|a| - 1], a[|a| - 1];
    assert a == c + [ones];
    PutAllOver(c, ones, b);
    assert forall f: Filter :: f in c ==> f in a;
  }

  /** 255.255.255.255 was the last filter, so it is the last safe one, or the last ban. */
  lemma OnesOfSafe(fs: seq<Filter>)
    requires Tidy(fs) && !OnesLast(SafeFirst(fs))
    ensures OfKindOnly(fs, Ban) != [] && OfKindOnly(fs, Safe) != []
    ensures OfKindOnly(fs, Safe)[|OfKindOnly(fs, Safe)| - 1].compare == ALL_ONES
  {
    var a, b := OfKindOnly(fs, Safe), OfKindOnly(fs, Ban);
    KindOnes(fs, Safe);
    KindOnes(fs, Ban);
    var c: seq<Filter> := a + b;
    var i :| 0 <= i < |c| - 1 && c[i].compare == ALL_ONES;
    if i < |a| {
      assert c[i] == a[i];
    } else {
      assert false;
    }
  }

  lemma {:induction false} KindOnes(fs: seq<Filter>, k: Kind)
    requires OnesLast(fs)
    ensures OnesLast(OfKindOnly(fs, k))
    decreases |fs|
  {
    if fs != [] {
      var t := fs[1..];
      assert forall i :: 0 <= i < |t| - 1 ==> t[i] == fs[i + 1];
      KindOnes(t, k);
      if |fs| == 1 { assert t == []; }
    }
  }

  /** A list that two commands make, and that executing the written text does not rebuild:
      the ban takes the slot of the safe filter. */
  lemma SafeLost(w: S.World, f: Filter, g: Filter, fs: seq<Filter>, rest: string, now: int) returns (os: seq<Order>)
    requires f == Filter(MaskOf(f.compare), Quad(1, 2, 3, 4), 0, Ban)
    requires g == Filter(MaskOf(ALL_ONES), ALL_ONES, 0, Safe)
    requires fs == [f, g] && now > 0 && Knows(w, fs) && Fits(Text(SafeFirst(fs)), rest)
    ensures Reached(os) == fs && Reloaded(w, fs, rest, now) == [f]
  {
    ShortZero(f);
    ShortZero(g);
    os := TwoCommands(f, g, fs, now);
    BanThenSafe(fs, f, g);
    SafeFirstIn(fs);
    ReloadedIs(w, fs, rest, now);
  }

  lemma TwoCommands(f: Filter, g: Filter, fs: seq<Filter>, now: int) returns (os: seq<Order>)
    requires Printable(f) && Printable(g) && f.kind == Ban && f.compare != ALL_ONES && g.compare == ALL_ONES
    requires fs == [f, g] && now > 0
    ensures Reached(os) == fs
  {
    var argv := ["addip", Dots(f.compare), KindName(f.kind), Printed(f.time)];
    var argv2 := ["addip", Dots(g.compare), KindName(g.kind), Printed(g.time)];
    AddBack([], f, argv, now);
    AddBack([f], g, argv2, now);
    var o, p := AddOrder(argv, now), AddOrder(argv2, now);
    os := [o, p];
    var none: seq<Order> := [];
    assert os[..1] == [o] && os[..1][..0] == none;
    assert Reached([o]) == Obeyed(Reached([]), o) == [f];
    assert Put([f], g) == [f, g] == fs;
  }

  lemma SafeFirstIn(fs: seq<Filter>)
    ensures forall f :: f in SafeFirst(fs) ==> f in fs
  {
  }

  lemma ShortZero(f: Filter)
    requires Canonical(f) && f.time == 0
    ensures Printable(f)
  {
  }

  lemma BanThenSafe(fs: seq<Filter>, f: Filter, g: Filter)
    requires fs == [f, g] && f.kind == Ban && g.kind == Safe && g.compare == ALL_ONES && f.compare != ALL_ONES
    ensures PutAll([], SafeFirst(fs)) == [f]
  {
    assert fs[1..] == [g] && fs[1..][1..] == [];
    assert OfKindOnly([g], Safe) == [g] + [] && OfKindOnly([g], Ban) == [] + [];
    assert SafeFirst(fs) == [] + [g] + [f];
    PutAllOver([], g, [f]);
    assert [] + [f] == [f];
  }
}
