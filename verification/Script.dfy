module Script {
  /* What Cbuf_ExecuteEx does, as a machine on text: lines are taken off the front, and
     aliases put text back there.  Variables and the alias table do not change meanwhile. */

  import opened CommandBuffer
  import opened Seqs
  import opened Tokenizer

  const MAX_LINE := 1024

  // ----- lines

  /** The position of the first line break from `i` on: a newline, or a semicolon
      outside quotes. */
  function BreakAt(text: string, i: nat, quoted: bool): (b: nat)
    requires i <= |text|
    ensures i <= b <= |text|
    decreases |text| - i
  {
    if i == |text| || text[i] == '\n' || (text[i] == ';' && !quoted) then i
    else BreakAt(text, i + 1, quoted != (text[i] == '"'))
  }

  /** The line up to position `b`, without its carriage return; too long a line is blank. */
  function LineTo(text: string, b: nat): (l: string)
    requires b <= |text|
    ensures |l| < MAX_LINE
  {
    if b >= MAX_LINE then ""
    else if b > 0 && text[b - 1] == '\r' then text[..b - 1]
    else text[..b]
  }

  function After(text: string, b: nat): (r: string)
    requires b <= |text|
    ensures text != "" ==> |r| < |text|
  {
    if b == |text| then "" else text[b + 1..]
  }

  function FirstLine(text: string): string {
    LineTo(text, BreakAt(text, 0, false))
  }

  function Rest(text: string): (r: string)
    ensures text != "" ==> |r| < |text|
  {
    After(text, BreakAt(text, 0, false))
  }

  function Lines(text: string): seq<string>
    decreases |text|
  {
    if text == "" then [] else [FirstLine(text)] + Lines(Rest(text))
  }

  ghost predicate EndsLine(s: string) {
    s != "" && s[|s| - 1] == '\n'
  }

  lemma {:induction false} BreakStays(s: string, v: string, i: nat, quoted: bool)
    requires EndsLine(s) && i < |s|
    ensures BreakAt(s + v, i, quoted) == BreakAt(s, i, quoted) < |s|
    decreases |s| - i
  {
    assert (s + v)[i] == s[i];
    if i < |s| - 1 { BreakStays(s, v, i + 1, quoted != (s[i] == '"')); }
  }

  lemma CutsStay(s: string, v: string, b: nat)
    requires b < |s|
    ensures LineTo(s + v, b) == LineTo(s, b) && After(s + v, b) == After(s, b) + v
  {
    assert (s + v)[..b] == s[..b];
    assert b > 0 ==> (s + v)[..b - 1] == s[..b - 1] && (s + v)[b - 1] == s[b - 1];
    assert (s + v)[b + 1..] == s[b + 1..] + v;
  }

  lemma FirstOf(text: string)
    requires text != ""
    ensures Lines(text) == [FirstLine(text)] + Lines(Rest(text))
  {
  }

  /** The first line of a text that ends with a newline does not depend on what follows. */
  lemma FirstStays(s: string, v: string)
    requires EndsLine(s)
    ensures FirstLine(s + v) == FirstLine(s) && Rest(s + v) == Rest(s) + v
    ensures Rest(s) == "" || EndsLine(Rest(s))
  {
    BreakStays(s, v, 0, false);
    CutsStay(s, v, BreakAt(s, 0, false));
  }

  /** A newline always ends a line, quotes or not, so text splits at it. */
  lemma {:induction false} LinesConcat(s: string, v: string)
    requires s == "" || EndsLine(s)
    ensures Lines(s + v) == Lines(s) + Lines(v)
    decreases |s|
  {
    if s == "" {
      assert s + v == v;
    } else {
      FirstStays(s, v);
      LinesConcat(Rest(s), v);
      FirstOf(s);
      FirstOf(s + v);
      Regroup([FirstLine(s)], Lines(Rest(s)), Lines(v));
    }
  }

  lemma BlankLine(v: string)
    ensures Lines("\n" + v) == [""] + Lines(v)
  {
    LinesConcat("\n", v);
    NewlineAlone("\n");
  }

  lemma NewlineAlone(s: string)
    requires s == "\n"
    ensures Lines(s) == [""]
  {
    assert Rest(s) == "";
  }

  // ----- where lines end, by counting quotes

  function Quotes(s: string): nat {
    if s == "" then 0 else Quotes(s[..|s| - 1]) + if s[|s| - 1] == '"' then 1 else 0
  }

  /** All of `s` is on one line: no newline, and semicolons only inside quotes. */
  ghost predicate OnOneLine(s: string) {
    forall k :: 0 <= k < |s| ==> s[k] != '\n' && (s[k] == ';' ==> Quotes(s[..k]) % 2 == 1)
  }

  lemma QuotesStep(s: string, k: nat, l: nat)
    requires l == k + 1 <= |s|
    ensures Quotes(s[..l]) == Quotes(s[..k]) + if s[k] == '"' then 1 else 0
  {
    assert s[..l][..k] == s[..k] && s[..l][k] == s[k];
  }

  /** The scan stops at the first newline, or semicolon with an even number of quotes before it. */
  lemma {:induction false} BreakIs(s: string, i: nat, quoted: bool, b: nat)
    requires i <= b <= |s| && (quoted <==> Quotes(s[..i]) % 2 == 1)
    requires forall k :: i <= k < b ==> s[k] != '\n' && (s[k] == ';' ==> Quotes(s[..k]) % 2 == 1)
    requires b < |s| ==> s[b] == '\n' || (s[b] == ';' && Quotes(s[..b]) % 2 == 0)
    ensures BreakAt(s, i, quoted) == b
    decreases b - i
  {
    if i < b {
      var l := i + 1;
      QuotesStep(s, i, l);
      BreakIs(s, l, quoted != (s[i] == '"'), b);
    }
  }

  lemma {:induction false} BreakFound(s: string, i: nat) returns (b: nat)
    requires i <= |s|
    ensures i <= b <= |s| && (b < |s| ==> s[b] == '\n' || (s[b] == ';' && Quotes(s[..b]) % 2 == 0))
    ensures forall k :: i <= k < b ==> s[k] != '\n' && (s[k] == ';' ==> Quotes(s[..k]) % 2 == 1)
    decreases |s| - i
  {
    b := i;
    if i < |s| && s[i] != '\n' && (s[i] == ';' ==> Quotes(s[..i]) % 2 == 1) { b := BreakFound(s, i + 1); }
  }

  /** A text falls into a first piece on one line, the newline or the semicolon outside quotes
      that ends it, and the rest.  Of a piece of 1024 characters or more a blank line is left,
      and of another one all but a carriage return at its end. */
  lemma FirstPiece(text: string) returns (p: string)
    ensures |p| <= |text| && text[..|p|] == p && OnOneLine(p)
    ensures |p| < |text| ==>
      (text[|p|] == '\n' || (text[|p|] == ';' && Quotes(p) % 2 == 0)) && Rest(text) == text[|p| + 1..]
    ensures |p| == |text| ==> Rest(text) == ""
    ensures |p| >= 1024 ==> FirstLine(text) == ""
    ensures |p| < 1024 && (p == "" || p[|p| - 1] != '\r') ==> FirstLine(text) == p
    ensures |p| < 1024 && p != "" && p[|p| - 1] == '\r' ==> FirstLine(text) == p[..|p| - 1]
  {
    var b := BreakFound(text, 0);
    BreakIs(text, 0, false, b);
    p := text[..b];
    assert forall k :: 0 <= k < b ==> p[..k] == text[..k];
    if b > 0 { assert p[..b - 1] == text[..b - 1]; }
  }

  /** The piece in front of a newline, or of a semicolon if its quotes are closed. */
  lemma PieceEnds(s: string, t: string, u: string, n: nat)
    requires n == |s| < |u| && u[..n] == s && u[n + 1..] == t && OnOneLine(s)
    requires u[n] == '\n' || (u[n] == ';' && Quotes(s) % 2 == 0)
    ensures Lines(u) == [LineTo(s, n)] + Lines(t)
  {
    assert forall k :: 0 <= k < n ==> u[k] == s[k] && u[..k] == s[..k];
    BreakIs(u, 0, false, n);
    SameLine(u, s, n);
    FirstOf(u);
  }

  lemma SameLine(u: string, s: string, n: nat)
    requires n == |s| <= |u| && u[..n] == s
    ensures LineTo(u, n) == LineTo(s, n)
  {
    assert s[..n] == s;
    if n > 0 { assert u[..n - 1] == s[..n - 1] && u[n - 1] == s[n - 1]; }
  }

  lemma ShortLine(s: string, n: nat)
    requires n == |s| < 1024
    ensures (s == "" || s[n - 1] != '\r') ==> LineTo(s, n) == s
    ensures s != "" && s[n - 1] == '\r' ==> LineTo(s, n) == s[..n - 1]
  {
    assert s[..n] == s;
  }

  lemma Parted(s: string, c: char, t: string, u: string)
    requires u == s + [c] + t
    ensures |s| < |u| && u[..|s|] == s && u[|s|] == c && u[|s| + 1..] == t
  {
  }

  /** A semicolon outside quotes separates two lines. */
  lemma SemicolonSplits(s: string, t: string, u: string)
    requires OnOneLine(s) && Quotes(s) % 2 == 0 && |s| < 1024 && (s == "" || s[|s| - 1] != '\r')
    requires u == s + [';'] + t
    ensures Lines(u) == [s] + Lines(t)
  {
    Parted(s, ';', t, u);
    PieceEnds(s, t, u, |s|);
    ShortLine(s, |s|);
  }

  /** A newline does so inside quotes too. */
  lemma NewlineSplits(s: string, t: string, u: string)
    requires OnOneLine(s) && |s| < 1024 && (s == "" || s[|s| - 1] != '\r') && u == s + ['\n'] + t
    ensures Lines(u) == [s] + Lines(t)
  {
    Parted(s, '\n', t, u);
    PieceEnds(s, t, u, |s|);
    ShortLine(s, |s|);
  }

  /** A semicolon inside quotes does not separate lines. */
  lemma QuotedSemicolonStays(s: string, t: string, u: string)
    requires OnOneLine(s) && Quotes(s) % 2 == 1 && |u| < 1024 && u == s + [';'] + t
    requires forall k :: 0 <= k < |t| ==> t[k] != '\n' && t[k] != ';' && t[k] != '\r'
    ensures Lines(u) == [u]
  {
    Parted(s, ';', t, u);
    forall k | 0 <= k < |u| ensures u[k] != '\n' && (u[k] == ';' ==> Quotes(u[..k]) % 2 == 1) {
      if k < |s| { assert u[k] == s[k] && u[..k] == s[..k]; }
      if k > |s| { assert u[k] == t[k - |s| - 1]; }
    }
    if t != "" { assert u[|u| - 1] == t[|t| - 1]; }
    WholeLine(u, |u|);
  }

  lemma WholeLine(u: string, n: nat)
    requires OnOneLine(u) && 0 < n == |u| < 1024 && u[n - 1] != '\r'
    ensures Lines(u) == [u]
  {
    BreakIs(u, 0, false, n);
    ShortLine(u, n);
    FirstOf(u);
  }

  /** A carriage return in front of the newline is dropped. */
  lemma CarriageReturnDropped(s: string, t: string, r: string, u: string)
    requires OnOneLine(s) && r == s + ['\r'] && |r| < 1024 && u == r + ['\n'] + t
    ensures Lines(u) == [s] + Lines(t)
  {
    assert forall k :: 0 <= k < |s| ==> r[k] == s[k] && r[..k] == s[..k];
    assert r[..|s|] == s;
    Parted(r, '\n', t, u);
    PieceEnds(r, t, u, |r|);
    ShortLine(r, |r|);
  }

  /** Of too long a line nothing is left. */
  lemma LongLineBlank(s: string, t: string, u: string)
    requires OnOneLine(s) && |s| >= 1024 && u == s + ['\n'] + t
    ensures Lines(u) == [""] + Lines(t)
  {
    Parted(s, '\n', t, u);
    PieceEnds(s, t, u, |s|);
  }

  /** A clean line, read back. */
  lemma OneLine(l: string)
    requires |l| < MAX_LINE && (l != "" ==> l[|l| - 1] != '\r')
    requires forall i :: 0 <= i < |l| ==> l[i] != '\n' && l[i] != ';'
    ensures EndsLine(l + "\n") && Lines(l + "\n") == [l]
  {
    assert l + "\n" == l + ['\n'] + "";
    NewlineSplits(l, "", l + "\n");
  }

  // ----- what a line means

  function LowerChar(c: char): char {
    if 'A' <= c <= 'Z' then c - 'A' + 'a' else c
  }

  function Lower(s: string): (r: string)
    ensures |r| == |s| && forall i :: 0 <= i < |s| ==> r[i] == LowerChar(s[i])
  {
    seq(|s|, i requires 0 <= i < |s| => LowerChar(s[i]))
  }

  /** A change to the command buffer. */
  datatype Edit = Insert(text: string) | Append(text: string)

  /** Names are kept in lower case, as they are compared without regard to it.  `effect` is
      what the function that a line calls does to the buffer: `exec` and `if` insert text,
      `banip` and `banremove` append lines. */
  datatype World = World(
    expand: string -> string,
    commands: set<string>,
    cvars: set<string>,
    aliases: map<string, string>,
    effect: string -> seq<Edit>)

  datatype Action =
    | Nothing
    | Call(name: string)
    | Variable(name: string)
    | Expand(alias: string)
    | Unknown(name: string)

  const WAIT := "wait"

  /** Cmd_ExecuteString: functions come first, then variables, then aliases. */
  function Dispatch(w: World, line: string): (a: Action)
    ensures a.Expand? ==> a.alias in w.aliases
  {
    var argv := Tokenize(w.expand(line));
    if argv == [] then Nothing
    else
      var name := Lower(argv[0]);
      if name in w.commands then Call(name)
      else if name in w.cvars then Variable(name)
      else if name in w.aliases then Expand(name)
      else Unknown(name)
  }

  predicate Waits(w: World, line: string) {
    Dispatch(w, line) == Call(WAIT)
  }

  /** What executing a line does to the buffer, in order. */
  function Edits(w: World, line: string): seq<Edit> {
    match Dispatch(w, line)
    case Expand(n) => [Insert("\n"), Insert(w.aliases[n])]
    case Call(name) => if name == WAIT then [] else w.effect(line)
    case _ => []
  }

  function Edited(content: string, e: Edit): string {
    match e
    case Insert(t) => Inserted(t, content)
    case Append(t) => Added(content, t)
  }

  function Applied(content: string, es: seq<Edit>): string
    decreases |es|
  {
    if es == [] then content else Applied(Edited(content, es[0]), es[1..])
  }

  /** The text after the first line was executed. */
  function Next(w: World, text: string): string {
    Applied(Rest(text), Edits(w, FirstLine(text)))
  }

  /** A line of one word. */
  ghost predicate SingleWord(w: World, n: string) {
    && PlainWord(n) && w.expand(n) == n && forall k :: 0 <= k < |n| ==> n[k] != ';'
  }

  /** A line of one word, in any case, calls the function of that name, whatever variables and
      aliases there are. */
  lemma FunctionFirst(w: World, n: string, rest: string, u: string)
    requires SingleWord(w, n) && u == n + ['\n'] + rest && Lower(n) in w.commands
    ensures Waits(w, n) <==> Lower(n) == WAIT
    ensures Event(w, n) == [n] && Next(w, u) == if Lower(n) == WAIT then rest else Applied(rest, w.effect(n))
  {
    WordLine(n, rest, u);
    WordDispatch(w, n);
  }

  /** A variable comes before an alias of the same name, and leaves the buffer alone. */
  lemma VariableNext(w: World, n: string, rest: string, u: string)
    requires SingleWord(w, n) && u == n + ['\n'] + rest && Lower(n) !in w.commands
    requires Lower(n) in w.cvars || Lower(n) !in w.aliases
    ensures Event(w, n) == [n] && Next(w, u) == rest && !Waits(w, n)
  {
    WordLine(n, rest, u);
    WordDispatch(w, n);
  }

  /** The value of an alias goes in front of the rest, with a line end of its own and two more. */
  lemma AliasLast(w: World, n: string, rest: string, u: string, v: string, nl: string)
    requires SingleWord(w, n) && u == n + ['\n'] + rest && nl == "\n"
    requires Lower(n) !in w.commands && Lower(n) !in w.cvars && Lower(n) in w.aliases && v == w.aliases[Lower(n)]
    requires |v| + 3 + |rest| <= 16384
    ensures Event(w, n) == [] && Next(w, u) == v + "\n" + (nl + "\n" + rest)
  {
    WordLine(n, rest, u);
    WordDispatch(w, n);
    AliasApplied(rest, v, nl);
  }

  lemma WordDispatch(w: World, n: string)
    requires SingleWord(w, n)
    ensures Dispatch(w, n) == if Lower(n) in w.commands then Call(Lower(n))
                              else if Lower(n) in w.cvars then Variable(Lower(n))
                              else if Lower(n) in w.aliases then Expand(Lower(n)) else Unknown(Lower(n))
  {
    WordTokens(n, [Spaced("", n)]);
  }

  lemma WordLine(n: string, rest: string, u: string)
    requires PlainWord(n) && u == n + ['\n'] + rest && forall k :: 0 <= k < |n| ==> n[k] != ';'
    ensures FirstLine(u) == n && Rest(u) == rest
  {
    Parted(n, '\n', rest, u);
    assert forall k :: 0 <= k < |n| ==> u[k] == n[k];
    BreakIs(u, 0, false, |n|);
    SameLine(u, n, |n|);
    ShortLine(n, |n|);
  }

  lemma WordTokens(n: string, ws: seq<Spaced>)
    requires PlainWord(n) && ws == [Spaced("", n)]
    ensures Tokenize(n) == [n]
  {
    assert ws[1..] == [] && Laid(ws) == "" + n + "" == n && Words(ws) == [n] + [];
    LineOfWords(ws);
  }

  lemma AliasApplied(rest: string, v: string, nl: string)
    requires nl == "\n" && |v| + 3 + |rest| <= 16384
    ensures Applied(rest, [Insert(nl), Insert(v)]) == v + "\n" + (nl + "\n" + rest)
  {
    TwoEdits(rest, Insert(nl), Insert(v));
  }

  lemma TwoEdits(c: string, e: Edit, f: Edit)
    ensures Applied(c, [e, f]) == Edited(Edited(c, e), f)
  {
    var d, es := Edited(c, e), [e, f];
    assert es[1..] == [f] && [f][1..] == [];
    assert Applied(d, [f]) == Applied(Edited(d, f), []);
  }

  /** Names are compared without regard to case. */
  lemma LowerLetters(s: string, t: string)
    requires s == "ABCDEFGHIJKLMNOPQRSTUVWXYZ" && t == "abcdefghijklmnopqrstuvwxyz"
    ensures Lower(s) == t && Lower(t) == t
  {
  }

  // ----- executing lines does not lead back to them

  predicate Ended(text: string) {
    text == "" || text[|text| - 1] == '\n'
  }

  /** The lines that an edit puts into the buffer. */
  function Piece(e: Edit): seq<string> {
    match e
    case Insert(t) => Lines(t + "\n")
    case Append(t) => Lines(t)
  }

  function Pieces(es: seq<Edit>): seq<string> {
    if es == [] then [] else Piece(es[0]) + Pieces(es[1..])
  }

  /** Whoever appends text appends whole lines. */
  ghost predicate WholeLines(es: seq<Edit>) {
    forall i :: 0 <= i < |es| && es[i].Append? ==> Ended(es[i].text)
  }

  ghost predicate Falls(w: World, rank: string -> nat, line: string) {
    WholeLines(Edits(w, line)) && forall l :: l in Pieces(Edits(w, line)) ==> rank(l) < rank(line)
  }

  /** `rank` orders the lines: each one only puts lines of lower rank into the buffer. */
  ghost predicate Acyclic(w: World, rank: string -> nat) {
    forall line :: Falls(w, rank, line)
  }

  /** How many lines the machine executes for this line, those that it puts back included. */
  ghost function LineCost(w: World, rank: string -> nat, line: string): (c: nat)
    requires Acyclic(w, rank)
    ensures c > 0
    decreases 2 * rank(line) + 1, 0
  {
    assert Falls(w, rank, line);
    1 + CostBelow(w, rank, Pieces(Edits(w, line)), rank(line))
  }

  ghost function CostBelow(w: World, rank: string -> nat, lines: seq<string>, r: nat): nat
    requires Acyclic(w, rank) && forall l :: l in lines ==> rank(l) < r
    decreases 2 * r, |lines|
  {
    if lines == [] then 0 else LineCost(w, rank, lines[0]) + CostBelow(w, rank, lines[1..], r)
  }

  ghost function Cost(w: World, rank: string -> nat, lines: seq<string>): nat
    requires Acyclic(w, rank)
  {
    if lines == [] then 0 else LineCost(w, rank, lines[0]) + Cost(w, rank, lines[1..])
  }

  lemma {:induction false} CostIs(w: World, rank: string -> nat, lines: seq<string>, r: nat)
    requires Acyclic(w, rank) && forall l :: l in lines ==> rank(l) < r
    ensures CostBelow(w, rank, lines, r) == Cost(w, rank, lines)
    decreases |lines|
  {
    if lines != [] { CostIs(w, rank, lines[1..], r); }
  }

  lemma {:induction false} CostConcat(w: World, rank: string -> nat, a: seq<string>, b: seq<string>)
    requires Acyclic(w, rank)
    ensures Cost(w, rank, a + b) == Cost(w, rank, a) + Cost(w, rank, b)
    decreases |a|
  {
    if a == [] {
      assert a + b == b;
    } else {
      CostConcat(w, rank, a[1..], b);
      assert (a + b)[1..] == a[1..] + b;
    }
  }

  /** Text that does not end its last line can have lines appended to that line only once. */
  function Loose(text: string): nat {
    if Ended(text) then 0 else 1
  }

  ghost function TextCost(w: World, rank: string -> nat, text: string): nat
    requires Acyclic(w, rank)
  {
    Cost(w, rank, Lines(text))
  }

  /** `u` is nearer to its end than a text that costs `n` and is as loose as `l` says. */
  ghost predicate Nearer(w: World, rank: string -> nat, u: string, l: nat, n: nat)
    requires Acyclic(w, rank)
  {
    Loose(u) < l || (Loose(u) == l && TextCost(w, rank, u) <= n)
  }

  lemma InsertedCost(w: World, rank: string -> nat, c: string, t: string)
    requires Acyclic(w, rank)
    ensures Nearer(w, rank, Inserted(t, c), Loose(c), TextCost(w, rank, c) + Cost(w, rank, Lines(t + "\n")))
  {
    LinesConcat(t + "\n", c);
    CostConcat(w, rank, Lines(t + "\n"), Lines(c));
  }

  lemma AddedCost(w: World, rank: string -> nat, c: string, t: string)
    requires Acyclic(w, rank) && Ended(t)
    ensures Nearer(w, rank, Added(c, t), Loose(c), TextCost(w, rank, c) + Cost(w, rank, Lines(t)))
  {
    if t == "" {
      assert c + t == c;
    } else {
      EndedConcat(c, t);
      if Ended(c) {
        LinesConcat(c, t);
        CostConcat(w, rank, Lines(c), Lines(t));
      }
    }
  }

  lemma EndedConcat(c: string, t: string)
    requires t != ""
    ensures Ended(c + t) == Ended(t)
  {
    assert (c + t)[|c + t| - 1] == t[|t| - 1];
  }

  lemma EditedCost(w: World, rank: string -> nat, c: string, e: Edit)
    requires Acyclic(w, rank) && (e.Append? ==> Ended(e.text))
    ensures Nearer(w, rank, Edited(c, e), Loose(c), TextCost(w, rank, c) + Cost(w, rank, Piece(e)))
  {
    if e.Insert? { InsertedCost(w, rank, c, e.text); } else { AddedCost(w, rank, c, e.text); }
  }

  lemma {:induction false} AppliedCost(w: World, rank: string -> nat, c: string, es: seq<Edit>)
    requires Acyclic(w, rank) && WholeLines(es)
    ensures Nearer(w, rank, Applied(c, es), Loose(c), TextCost(w, rank, c) + Cost(w, rank, Pieces(es)))
    decreases |es|
  {
    if es != [] {
      EditedCost(w, rank, c, es[0]);
      AppliedCost(w, rank, Edited(c, es[0]), es[1..]);
      CostConcat(w, rank, Piece(es[0]), Pieces(es[1..]));
    }
  }

  lemma FirstCost(w: World, rank: string -> nat, text: string)
    requires Acyclic(w, rank) && text != ""
    ensures TextCost(w, rank, text)
         == 1 + Cost(w, rank, Pieces(Edits(w, FirstLine(text)))) + TextCost(w, rank, Rest(text))
    ensures Loose(Rest(text)) <= Loose(text)
  {
    var l := FirstLine(text);
    assert Falls(w, rank, l);
    CostIs(w, rank, Pieces(Edits(w, l)), rank(l));
    FirstOf(text);
    assert Lines(text)[1..] == Lines(Rest(text));
    if EndsLine(text) {
      FirstStays(text, "");
    }
  }

  /** Executing a line brings the text nearer to its end, whatever is put back. */
  lemma NextCost(w: World, rank: string -> nat, text: string)
    requires Acyclic(w, rank) && text != ""
    ensures Nearer(w, rank, Next(w, text), Loose(text), TextCost(w, rank, text) - 1)
  {
    FirstCost(w, rank, text);
    assert Falls(w, rank, FirstLine(text));
    AppliedCost(w, rank, Rest(text), Edits(w, FirstLine(text)));
  }

  // ----- the machine

  /** What a run executes, what it leaves in the buffer, and whether text was dropped
      because the buffer was full. */
  datatype Outcome = Outcome(log: seq<string>, rest: string, dropped: bool)

  function Event(w: World, line: string): seq<string> {
    var a := Dispatch(w, line);
    if a.Nothing? || a.Expand? then [] else [line]
  }

  predicate Overflows(content: string, e: Edit) {
    |content| + |e.text| + (if e.Insert? then 1 else 0) > MAXCMDBUF
  }

  predicate DropsOf(content: string, es: seq<Edit>)
    decreases |es|
  {
    es != [] && (Overflows(content, es[0]) || DropsOf(Edited(content, es[0]), es[1..]))
  }

  predicate Drops(w: World, text: string) {
    DropsOf(Rest(text), Edits(w, FirstLine(text)))
  }

  /** A run until the buffer is empty or, if `pausing`, until a wait. */
  ghost function Run(w: World, rank: string -> nat, text: string, pausing: bool): Outcome
    requires Acyclic(w, rank)
    decreases Loose(text), TextCost(w, rank, text)
  {
    if text == "" then Outcome([], "", false)
    else
      var line, next := FirstLine(text), Next(w, text);
      if pausing && Waits(w, line) then Outcome(Event(w, line), next, Drops(w, text))
      else
        NextCost(w, rank, text);
        var r := Run(w, rank, next, pausing);
        Outcome(Event(w, line) + r.log, r.rest, Drops(w, text) || r.dropped)
  }

  /** `log` and then a run of `text` are the whole run `all`. */
  ghost predicate RunsOn(w: World, rank: string -> nat, text: string, log: seq<string>, all: Outcome)
    requires Acyclic(w, rank)
  {
    var r := Run(w, rank, text, true);
    all.log == log + r.log && all.rest == r.rest
  }

  lemma RunStep(w: World, rank: string -> nat, text: string, log0: seq<string>, log: seq<string>, all: Outcome)
    requires Acyclic(w, rank) && text != "" && RunsOn(w, rank, text, log0, all)
    requires log == log0 + Event(w, FirstLine(text))
    ensures Nearer(w, rank, Next(w, text), Loose(text), TextCost(w, rank, text) - 1)
    ensures Waits(w, FirstLine(text)) ==> all.log == log && all.rest == Next(w, text)
    ensures !Waits(w, FirstLine(text)) ==> RunsOn(w, rank, Next(w, text), log, all)
  {
    NextCost(w, rank, text);
    if !Waits(w, FirstLine(text)) {
      Regroup(log0, Event(w, FirstLine(text)), Run(w, rank, Next(w, text), true).log);
    }
  }

  /** Going on after every wait empties the buffer, and where `wait` is not a command one run
      does. */
  lemma {:induction false} RunEmpties(w: World, rank: string -> nat, text: string)
    requires Acyclic(w, rank)
    ensures Run(w, rank, text, false).rest == ""
    ensures WAIT !in w.commands ==> Run(w, rank, text, true).rest == ""
    decreases Loose(text), TextCost(w, rank, text)
  {
    NoWaits(w, rank, text);
    if text != "" {
      NextCost(w, rank, text);
      RunEmpties(w, rank, Next(w, text));
    }
  }

  lemma NoWaits(w: World, rank: string -> nat, text: string)
    requires Acyclic(w, rank)
    ensures WAIT !in w.commands ==> Run(w, rank, text, true).rest == ""
  {
    StopsAtWait(w, rank, text);
    var r := Run(w, rank, text, true);
    if r.rest != "" { assert WAIT in w.commands; }
  }

  /** Resuming after a wait gives the same order as never having waited. */
  lemma {:induction false} Resume(w: World, rank: string -> nat, text: string)
    requires Acyclic(w, rank)
    ensures var r, all := Run(w, rank, text, true), Run(w, rank, text, false);
      var more := Run(w, rank, r.rest, false);
      all.log == r.log + more.log && all.dropped == (r.dropped || more.dropped)
    decreases Loose(text), TextCost(w, rank, text)
  {
    if text != "" {
      NextCost(w, rank, text);
      if !Waits(w, FirstLine(text)) {
        Resume(w, rank, Next(w, text));
        var r := Run(w, rank, Next(w, text), true);
        Regroup(Event(w, FirstLine(text)), r.log, Run(w, rank, r.rest, false).log);
      }
    }
  }

  lemma LastOf<T>(a: seq<T>, b: seq<T>)
    ensures b != [] ==> (a + b)[|a + b| - 1] == b[|b| - 1]
  {
  }

  /** A run that ends with text left has just executed a wait. */
  lemma {:induction false} StopsAtWait(w: World, rank: string -> nat, text: string)
    requires Acyclic(w, rank)
    ensures var r := Run(w, rank, text, true);
      r.rest != "" ==> r.log != [] && Waits(w, r.log[|r.log| - 1])
    decreases Loose(text), TextCost(w, rank, text)
  {
    if text != "" {
      var e := Event(w, FirstLine(text));
      if Waits(w, FirstLine(text)) {
        assert e == [FirstLine(text)];
      } else {
        NextCost(w, rank, text);
        StopsAtWait(w, rank, Next(w, text));
        LastOf(e, Run(w, rank, Next(w, text), true).log);
      }
    }
  }

  // ----- part of a run

  /** What `n` lines executed, and the text they left. */
  datatype Progress = Progress(log: seq<string>, text: string)

  function Steps(w: World, text: string, n: nat): Progress
    decreases n
  {
    if n == 0 || text == "" then Progress([], text)
    else
      var r := Steps(w, Next(w, text), n - 1);
      Progress(Event(w, FirstLine(text)) + r.log, r.text)
  }

  lemma RunNext(w: World, rank: string -> nat, text: string)
    requires Acyclic(w, rank) && text != ""
    ensures Run(w, rank, text, false).log == Event(w, FirstLine(text)) + Run(w, rank, Next(w, text), false).log
  {
    NextCost(w, rank, text);
  }

  lemma StepsNext(w: World, text: string, n: nat, n0: nat)
    requires text != "" && n == n0 + 1
    ensures Steps(w, text, n).log == Event(w, FirstLine(text)) + Steps(w, Next(w, text), n0).log
    ensures Steps(w, text, n).text == Steps(w, Next(w, text), n0).text
  {
  }

  /** A run is any part of it, and then the run of the text that is left. */
  lemma {:induction false} StepsOfRun(w: World, rank: string -> nat, text: string, n: nat)
    requires Acyclic(w, rank)
    ensures Run(w, rank, text, false).log == Steps(w, text, n).log + Run(w, rank, Steps(w, text, n).text, false).log
    decreases n
  {
    if n == 0 || text == "" {
      assert [] + Run(w, rank, text, false).log == Run(w, rank, text, false).log;
    } else {
      var n0 := n - 1;
      RunNext(w, rank, text);
      StepsNext(w, text, n, n0);
      StepsOfRun(w, rank, Next(w, text), n0);
      var p := Steps(w, Next(w, text), n0);
      Regroup(Event(w, FirstLine(text)), p.log, Run(w, rank, p.text, false).log);
    }
  }

  /** The line leaves the buffer alone. */
  ghost predicate Plain(w: World, l: string) {
    Edits(w, l) == []
  }

  function Events(w: World, lines: seq<string>): seq<string> {
    if lines == [] then [] else Event(w, lines[0]) + Events(w, lines[1..])
  }

  /** Lines that leave the buffer alone are executed one after the other, down to what
      stands behind them. */
  lemma {:induction false} PlainSteps(w: World, text: string, rest: string, n: nat)
    requires Ended(text) && n == |Lines(text)| && forall l :: l in Lines(text) ==> Plain(w, l)
    ensures Steps(w, text + rest, n) == Progress(Events(w, Lines(text)), rest)
    decreases |text|
  {
    if text == "" {
      assert text + rest == rest;
    } else {
      FirstStays(text, rest);
      FirstOf(text);
      var l, t := FirstLine(text), Rest(text);
      assert Lines(text)[1..] == Lines(t);
      assert l in Lines(text) && forall x :: x in Lines(t) ==> x in Lines(text);
      assert Plain(w, l);
      var n0 := n - 1;
      PlainSteps(w, t, rest, n0);
    }
  }

  lemma {:induction false} EventsConcat(w: World, a: seq<string>, b: seq<string>)
    ensures Events(w, a + b) == Events(w, a) + Events(w, b)
    decreases |a|
  {
    if a == [] {
      assert a + b == b;
    } else {
      EventsConcat(w, a[1..], b);
      assert (a + b)[1..] == a[1..] + b;
      Regroup(Event(w, a[0]), Events(w, a[1..]), Events(w, b));
    }
  }

  lemma {:induction false} EventsAll(w: World, ls: seq<string>)
    requires forall l :: l in ls ==> Event(w, l) == [l]
    ensures Events(w, ls) == ls
    decreases |ls|
  {
    if ls != [] {
      assert ls[0] in ls && forall l :: l in ls[1..] ==> l in ls;
      EventsAll(w, ls[1..]);
    }
  }

  // ----- the order of execution, without a buffer

  /** What lines execute before the text behind them is reached, and the lines that they
      append behind that text. */
  datatype Order = Order(log: seq<string>, later: seq<string>)

  function Then(a: Order, b: Order): Order {
    Order(a.log + b.log, a.later + b.later)
  }

  /** Text inserted later stands before text inserted earlier. */
  function Front(es: seq<Edit>): seq<string> {
    if es == [] then [] else Front(es[1..]) + if es[0].Insert? then Piece(es[0]) else []
  }

  function Back(es: seq<Edit>): seq<string> {
    if es == [] then [] else (if es[0].Append? then Piece(es[0]) else []) + Back(es[1..])
  }

  lemma {:induction false} FrontBelow(es: seq<Edit>)
    ensures forall l :: l in Front(es) ==> l in Pieces(es)
    ensures forall l :: l in Back(es) ==> l in Pieces(es)
    decreases |es|
  {
    if es != [] { FrontBelow(es[1..]); }
  }

  /** A line executes, then the lines it inserts, each with what it inserts in turn. */
  ghost function LineOrder(w: World, rank: string -> nat, line: string): Order
    requires Acyclic(w, rank)
    decreases 2 * rank(line) + 1, 0
  {
    assert Falls(w, rank, line);
    FrontBelow(Edits(w, line));
    Then(Order(Event(w, line), Back(Edits(w, line))), OrderBelow(w, rank, Front(Edits(w, line)), rank(line)))
  }

  ghost function OrderBelow(w: World, rank: string -> nat, lines: seq<string>, r: nat): Order
    requires Acyclic(w, rank) && forall l :: l in lines ==> rank(l) < r
    decreases 2 * r, |lines|
  {
    if lines == [] then Order([], [])
    else Then(LineOrder(w, rank, lines[0]), OrderBelow(w, rank, lines[1..], r))
  }

  ghost function InOrder(w: World, rank: string -> nat, lines: seq<string>): Order
    requires Acyclic(w, rank)
  {
    if lines == [] then Order([], []) else Then(LineOrder(w, rank, lines[0]), InOrder(w, rank, lines[1..]))
  }

  lemma {:induction false} OrderIs(w: World, rank: string -> nat, lines: seq<string>, r: nat)
    requires Acyclic(w, rank) && forall l :: l in lines ==> rank(l) < r
    ensures OrderBelow(w, rank, lines, r) == InOrder(w, rank, lines)
    decreases |lines|
  {
    if lines != [] { OrderIs(w, rank, lines[1..], r); }
  }

  lemma ThenThen(a: Order, b: Order, c: Order)
    ensures Then(Then(a, b), c) == Then(a, Then(b, c))
  {
    Regroup(a.log, b.log, c.log);
    Regroup(a.later, b.later, c.later);
  }

  lemma OrderCons(w: World, rank: string -> nat, l: string, t: seq<string>, c: seq<string>)
    requires Acyclic(w, rank) && c == [l] + t
    ensures InOrder(w, rank, c) == Then(LineOrder(w, rank, l), InOrder(w, rank, t))
  {
    assert c[1..] == t;
  }

  lemma {:induction false} OrderConcat(w: World, rank: string -> nat, a: seq<string>, b: seq<string>)
    requires Acyclic(w, rank)
    ensures InOrder(w, rank, a + b) == Then(InOrder(w, rank, a), InOrder(w, rank, b))
    decreases |a|
  {
    if a == [] {
      assert a + b == b;
    } else {
      var l, t := a[0], a[1..];
      assert a + b == [l] + (t + b) && a == [l] + t;
      OrderCons(w, rank, l, t, a);
      OrderCons(w, rank, l, t + b, a + b);
      OrderConcat(w, rank, t, b);
      ThenThen(LineOrder(w, rank, l), InOrder(w, rank, t), InOrder(w, rank, b));
    }
  }

  lemma {:induction false} PiecesCost(w: World, rank: string -> nat, es: seq<Edit>)
    requires Acyclic(w, rank)
    ensures Cost(w, rank, Pieces(es)) == Cost(w, rank, Front(es)) + Cost(w, rank, Back(es))
    decreases |es|
  {
    if es != [] {
      var p := Piece(es[0]);
      PiecesCost(w, rank, es[1..]);
      CostConcat(w, rank, p, Pieces(es[1..]));
      if es[0].Insert? {
        CostConcat(w, rank, Front(es[1..]), p);
        assert [] + Back(es[1..]) == Back(es[1..]);
      } else {
        CostConcat(w, rank, p, Back(es[1..]));
        assert Front(es[1..]) + [] == Front(es[1..]);
      }
    }
  }

  /** What a line has appended is cheaper than the line. */
  lemma {:induction false} LineLater(w: World, rank: string -> nat, line: string)
    requires Acyclic(w, rank)
    ensures Cost(w, rank, LineOrder(w, rank, line).later) < LineCost(w, rank, line)
    decreases 2 * rank(line) + 1, 0
  {
    var es, r := Edits(w, line), rank(line);
    assert Falls(w, rank, line);
    FrontBelow(es);
    LaterBelow(w, rank, Front(es), r);
    OrderIs(w, rank, Front(es), r);
    CostConcat(w, rank, Back(es), InOrder(w, rank, Front(es)).later);
    PiecesCost(w, rank, es);
    CostIs(w, rank, Pieces(es), r);
  }

  lemma {:induction false} LaterBelow(w: World, rank: string -> nat, lines: seq<string>, r: nat)
    requires Acyclic(w, rank) && forall l :: l in lines ==> rank(l) < r
    ensures Cost(w, rank, InOrder(w, rank, lines).later) <= Cost(w, rank, lines)
    decreases 2 * r, |lines|
  {
    if lines != [] {
      assert forall l :: l in lines[1..] ==> l in lines;
      LineLater(w, rank, lines[0]);
      LaterBelow(w, rank, lines[1..], r);
      CostConcat(w, rank, LineOrder(w, rank, lines[0]).later, InOrder(w, rank, lines[1..]).later);
    }
  }

  lemma {:induction false} LaterCost(w: World, rank: string -> nat, lines: seq<string>)
    requires Acyclic(w, rank)
    ensures Cost(w, rank, InOrder(w, rank, lines).later) <= Cost(w, rank, lines)
    ensures lines != [] ==> Cost(w, rank, InOrder(w, rank, lines).later) < Cost(w, rank, lines)
    decreases |lines|
  {
    if lines != [] {
      LineLater(w, rank, lines[0]);
      LaterCost(w, rank, lines[1..]);
      CostConcat(w, rank, LineOrder(w, rank, lines[0]).later, InOrder(w, rank, lines[1..]).later);
    }
  }

  /** The commands that lines stand for: theirs and those of what they insert, and then
      those of the lines appended meanwhile. */
  ghost function Meaning(w: World, rank: string -> nat, lines: seq<string>): seq<string>
    requires Acyclic(w, rank)
    decreases Cost(w, rank, lines)
  {
    if lines == [] then []
    else
      LaterCost(w, rank, lines);
      InOrder(w, rank, lines).log + Meaning(w, rank, InOrder(w, rank, lines).later)
  }

  /** Lines at the front may go first: what they append stands behind the rest. */
  lemma {:induction false} Rotate(w: World, rank: string -> nat, a: seq<string>, b: seq<string>)
    requires Acyclic(w, rank)
    ensures Meaning(w, rank, a + b)
         == InOrder(w, rank, a).log + Meaning(w, rank, b + InOrder(w, rank, a).later)
    decreases Cost(w, rank, a) + Cost(w, rank, b)
  {
    if a == [] {
      assert a + b == b && b + [] == b;
    } else {
      var p, q := InOrder(w, rank, a), InOrder(w, rank, b);
      LaterCost(w, rank, a);
      LaterCost(w, rank, b);
      OrderConcat(w, rank, a, b);
      Rotate(w, rank, p.later, q.later);
      MeaningOf(w, rank, a + b, Then(p, q));
      OrderConcat(w, rank, b, p.later);
      MeaningOf(w, rank, b + p.later, Then(q, InOrder(w, rank, p.later)));
      var z := Meaning(w, rank, q.later + InOrder(w, rank, p.later).later);
      RegroupFour(p.log, q.log, InOrder(w, rank, p.later).log, z);
    }
  }

  lemma MeaningOf(w: World, rank: string -> nat, lines: seq<string>, o: Order)
    requires Acyclic(w, rank) && o == InOrder(w, rank, lines)
    ensures Meaning(w, rank, lines) == o.log + Meaning(w, rank, o.later)
  {
  }

  lemma RegroupFour<T>(a: seq<T>, b: seq<T>, c: seq<T>, d: seq<T>)
    ensures a + b + (c + d) == a + (b + c + d)
  {
  }

  ghost predicate Inserting(es: seq<Edit>) {
    forall i :: 0 <= i < |es| ==> es[i].Insert?
  }

  lemma EditedLines(c: string, e: Edit)
    requires (e.Append? ==> Ended(e.text)) && !Overflows(c, e) && (Ended(c) || e.Insert?)
    ensures Lines(Edited(c, e)) == if e.Insert? then Piece(e) + Lines(c) else Lines(c) + Piece(e)
    ensures Ended(c) ==> Ended(Edited(c, e))
  {
    if e.Insert? { InsertedLines(c, e.text); } else { AddedLines(c, e.text); }
  }

  lemma InsertedLines(c: string, t: string)
    requires |t| + 1 + |c| <= MAXCMDBUF
    ensures Lines(Inserted(t, c)) == Lines(t + "\n") + Lines(c)
    ensures Ended(c) ==> Ended(Inserted(t, c))
  {
    LinesConcat(t + "\n", c);
    if c == "" { assert Inserted(t, c) == t + "\n"; } else { EndedConcat(t + "\n", c); }
  }

  lemma AddedLines(c: string, t: string)
    requires Ended(c) && Ended(t) && |c| + |t| <= MAXCMDBUF
    ensures Lines(Added(c, t)) == Lines(c) + Lines(t) && Ended(Added(c, t))
  {
    LinesConcat(c, t);
    if t == "" { assert Added(c, t) == c; } else { EndedConcat(c, t); }
  }

  /** The lines in the buffer after all the edits. */
  lemma {:induction false} AppliedLines(c: string, es: seq<Edit>)
    requires WholeLines(es) && !DropsOf(c, es) && (Ended(c) || Inserting(es))
    ensures Lines(Applied(c, es)) == Front(es) + Lines(c) + Back(es)
    ensures Ended(c) ==> Ended(Applied(c, es))
    decreases |es|
  {
    if es == [] {
      assert [] + Lines(c) + [] == Lines(c);
    } else {
      var e, d, t := es[0], Edited(c, es[0]), es[1..];
      EditedLines(c, e);
      AppliedLines(d, t);
      if e.Insert? {
        Regroup(Front(t), Piece(e), Lines(c));
        assert [] + Back(t) == Back(t);
      } else {
        Regroup(Front(t), Lines(c), Piece(e));
        Regroup(Front(t) + Lines(c), Piece(e), Back(t));
        assert Front(t) + [] == Front(t);
      }
    }
  }

  /** The text ends its last line, or nothing is ever appended to it. */
  ghost predicate Orderly(w: World, text: string) {
    Ended(text) || forall line :: Inserting(Edits(w, line))
  }

  lemma NextLines(w: World, rank: string -> nat, text: string)
    requires Acyclic(w, rank) && text != "" && !Drops(w, text) && Orderly(w, text)
    ensures var es := Edits(w, FirstLine(text)); Lines(Next(w, text)) == Front(es) + Lines(Rest(text)) + Back(es)
    ensures Orderly(w, Next(w, text))
  {
    assert Falls(w, rank, FirstLine(text));
    if Ended(text) { FirstStays(text, ""); }
    assert Ended(Rest(text)) || Inserting(Edits(w, FirstLine(text)));
    AppliedLines(Rest(text), Edits(w, FirstLine(text)));
  }

  /** One step of the machine keeps the meaning of what is still to be done. */
  lemma NextMeaning(w: World, rank: string -> nat, l: string, rest: seq<string>, f: seq<string>, b: seq<string>)
    requires Acyclic(w, rank) && f == Front(Edits(w, l)) && b == Back(Edits(w, l))
    ensures Meaning(w, rank, [l] + rest) == Event(w, l) + Meaning(w, rank, f + rest + b)
  {
    var e, p := Event(w, l), InOrder(w, rank, f);
    assert Falls(w, rank, l);
    FrontBelow(Edits(w, l));
    OrderIs(w, rank, f, rank(l));
    AloneOrder(w, rank, l, p);
    Rotate(w, rank, [l], rest);
    Rotate(w, rank, f, rest + b);
    Regroup(f, rest, b);
    Regroup(rest, b, p.later);
    Regroup(e, p.log, Meaning(w, rank, rest + (b + p.later)));
  }

  lemma AloneOrder(w: World, rank: string -> nat, l: string, p: Order)
    requires Acyclic(w, rank) && (forall x :: x in Front(Edits(w, l)) ==> rank(x) < rank(l))
    requires p == OrderBelow(w, rank, Front(Edits(w, l)), rank(l))
    ensures InOrder(w, rank, [l]) == Order(Event(w, l) + p.log, Back(Edits(w, l)) + p.later)
  {
    assert [l][1..] == [];
    var o := LineOrder(w, rank, l);
    assert o.log + [] == o.log && o.later + [] == o.later;
  }

  /** The machine executes the commands that the text stands for, in order, as long as
      nothing overflows the buffer. */
  lemma {:induction false} RunMeaning(w: World, rank: string -> nat, text: string)
    requires Acyclic(w, rank) && Orderly(w, text) && !Run(w, rank, text, false).dropped
    ensures Run(w, rank, text, false).log == Meaning(w, rank, Lines(text))
    decreases Loose(text), TextCost(w, rank, text)
  {
    if text != "" {
      var l, rest := FirstLine(text), Rest(text);
      NextCost(w, rank, text);
      NextLines(w, rank, text);
      FirstOf(text);
      NextMeaning(w, rank, l, Lines(rest), Front(Edits(w, l)), Back(Edits(w, l)));
      RunMeaning(w, rank, Next(w, text));
    }
  }

  /** Lines in front, and what they insert, are executed before the lines behind them. */
  lemma MeaningConcat(w: World, rank: string -> nat, a: seq<string>, b: seq<string>)
    requires Acyclic(w, rank) && InOrder(w, rank, a).later == []
    ensures Meaning(w, rank, a + b) == Meaning(w, rank, a) + Meaning(w, rank, b)
  {
    Rotate(w, rank, a, b);
    MeaningOf(w, rank, a, InOrder(w, rank, a));
    assert b + [] == b && InOrder(w, rank, a).log + [] == InOrder(w, rank, a).log;
  }

  lemma AliasFront(v: string, es: seq<Edit>) returns (blank: seq<string>)
    requires es == [Insert("\n"), Insert(v)]
    ensures Front(es) == Lines(v + "\n") + blank && Back(es) == []
    ensures forall i :: 0 <= i < |blank| ==> blank[i] == ""
  {
    BlankLine("\n");
    NewlineAlone("\n");
    blank := Lines("\n" + "\n");
    var t := es[1..];
    assert t[0] == Insert(v) && t[1..] == [];
    assert Front(t[1..]) == [] && Back(t[1..]) == [];
    assert Front(t) == [] + Lines(v + "\n") && Back(t) == [] + [];
  }

  lemma LineOrderIs(w: World, rank: string -> nat, l: string, f: seq<string>)
    requires Acyclic(w, rank) && f == Front(Edits(w, l))
    ensures LineOrder(w, rank, l) == Then(Order(Event(w, l), Back(Edits(w, l))), InOrder(w, rank, f))
  {
    assert Falls(w, rank, l);
    FrontBelow(Edits(w, l));
    OrderIs(w, rank, f, rank(l));
  }

  lemma ValueOrder(w: World, rank: string -> nat, l: string, v: string, a: seq<string>)
    requires Acyclic(w, rank) && Dispatch(w, "") == Nothing
    requires Edits(w, l) == [Insert("\n"), Insert(v)] && Event(w, l) == [] && a == Lines(v + "\n")
    ensures LineOrder(w, rank, l) == InOrder(w, rank, a)
  {
    var blank := AliasFront(v, Edits(w, l));
    LineOrderIs(w, rank, l, a + blank);
    OrderConcat(w, rank, a, blank);
    BlankOrder(w, rank, blank);
    AndNothing(InOrder(w, rank, a));
  }

  lemma AndNothing(o: Order)
    ensures Then(o, Order([], [])) == o && Then(Order([], []), o) == o
  {
  }

  /** A line that calls an alias stands for the lines of the alias. */
  lemma AliasOrder(w: World, rank: string -> nat, l: string, n: string)
    requires Acyclic(w, rank) && Dispatch(w, "") == Nothing && Dispatch(w, l) == Expand(n)
    ensures LineOrder(w, rank, l) == InOrder(w, rank, Lines(w.aliases[n] + "\n"))
  {
    ValueOrder(w, rank, l, w.aliases[n], Lines(w.aliases[n] + "\n"));
  }

  lemma BlankAlone(w: World, rank: string -> nat)
    requires Acyclic(w, rank) && Dispatch(w, "") == Nothing
    ensures LineOrder(w, rank, "") == Order([], [])
  {
    assert Front(Edits(w, "")) == [] && Back(Edits(w, "")) == [];
  }

  lemma {:induction false} BlankOrder(w: World, rank: string -> nat, ls: seq<string>)
    requires Acyclic(w, rank) && Dispatch(w, "") == Nothing && forall i :: 0 <= i < |ls| ==> ls[i] == ""
    ensures InOrder(w, rank, ls) == Order([], [])
    decreases |ls|
  {
    if ls != [] {
      BlankOrder(w, rank, ls[1..]);
      BlankAlone(w, rank);
    }
  }
}
