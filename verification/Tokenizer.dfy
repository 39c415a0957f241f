module Tokenizer {
  /* src/token.c and Cmd_TokenizeString: how a command line falls apart into arguments. */

  import opened Seqs

  const MAX_COM_TOKEN := 1024
  const MAX_ARGS := 80
  const ARGV_ROOM := 1530

  predicate IsSpace(c: char) {
    c == ' ' || c == '\t' || c == '\r'
  }

  predicate IsBlank(c: char) {
    IsSpace(c) || c == '\n'
  }

  /** The first position from `i` on that satisfies `stop`, or the end. */
  function Seek(s: string, i: nat, stop: char -> bool): (j: nat)
    requires i <= |s|
    ensures i <= j <= |s| && (j < |s| ==> stop(s[j]))
    ensures forall k :: i <= k < j ==> !stop(s[k])
    decreases |s| - i
  {
    if i == |s| || stop(s[i]) then i else Seek(s, i + 1, stop)
  }

  function NotBlank(): char -> bool { c => !IsBlank(c) }
  function NotSpace(): char -> bool { c => !IsSpace(c) }
  function Blank(): char -> bool { c => IsBlank(c) }
  function Newline(): char -> bool { c => c == '\n' }
  function Quote(): char -> bool { c => c == '"' }

  predicate Comment(s: string, i: nat) {
    i + 1 < |s| && s[i] == '/' && s[i + 1] == '/'
  }

  /** Where the next token begins: blanks and comments are skipped. */
  function Start(s: string, i: nat): (j: nat)
    requires i <= |s|
    ensures i <= j <= |s|
    decreases |s| - i
  {
    var j := Seek(s, i, NotBlank());
    if Comment(s, j) then Start(s, Seek(s, j, Newline())) else j
  }

  /** What fits the token buffer, its terminator included. */
  function Cut(s: string): string {
    if |s| < MAX_COM_TOKEN then s else s[..MAX_COM_TOKEN - 1]
  }

  datatype Parsed = NoToken | Token(text: string, next: nat)

  /** COM_Parse from position `i` on. */
  function Parse(s: string, i: nat): (p: Parsed)
    requires i <= |s|
    ensures p.Token? ==> i < p.next <= |s| && |p.text| < MAX_COM_TOKEN
  {
    var j := Start(s, i);
    if j == |s| then NoToken
    else if s[j] == '"' then
      var e := Seek(s, j + 1, Quote());
      Token(Cut(s[j + 1..e]), if e < |s| then e + 1 else e)
    else
      var e := Seek(s, j + 1, Blank());
      Token(Cut(s[j..e]), e)
  }

  /** Cmd_TokenizeString from position `i` on, with `argc` arguments taking `room` so far. */
  function Tokens(s: string, i: nat, argc: nat, room: nat): (a: seq<string>)
    requires i <= |s| && argc <= MAX_ARGS
    ensures argc + |a| <= MAX_ARGS
    decreases |s| - i
  {
    var j := Seek(s, i, NotSpace());
    if j == |s| || s[j] == '\n' then []
    else
      var p := Parse(s, j);
      if p.NoToken? || argc == MAX_ARGS || room + |p.text| + 1 > ARGV_ROOM then []
      else [p.text] + Tokens(s, p.next, argc + 1, room + |p.text| + 1)
  }

  function Tokenize(s: string): (a: seq<string>)
    ensures |a| <= MAX_ARGS
  {
    Tokens(s, 0, 0, 0)
  }

  /** Cmd_Argv */
  function Arg(argv: seq<string>, i: nat): string {
    if i < |argv| then argv[i] else ""
  }

  // ----- the program

  /** The token buffer com_token and the arguments cmd_argv. */
  class Lexer {
    const comToken: array<char>
    var len: nat
    var argv: seq<string>

    constructor ()
      ensures Valid() && fresh(comToken)
    {
      comToken := new char[MAX_COM_TOKEN];
      len, argv := 0, [];
    }

    ghost predicate Valid()
      reads this
    {
      comToken.Length == MAX_COM_TOKEN && len < MAX_COM_TOKEN
    }

    function Text(): string
      requires Valid()
      reads this, comToken
    {
      comToken[..len]
    }

    /** One character of a token, unless the buffer is full. */
    method Put(c: char, ghost s: string)
      requires Valid() && Text() == Cut(s)
      modifies this`len, comToken
      ensures Valid() && Text() == Cut(s + [c])
    {
      if len < MAX_COM_TOKEN - 1 {
        comToken[len] := c;
        len := len + 1;
      }
    }

    method SkipBlanks(s: string, i: nat) returns (j: nat)
      requires i <= |s|
      ensures j == Seek(s, i, NotBlank())
    {
      j := i;
      while j < |s| && IsBlank(s[j])
        invariant i <= j <= |s| && Seek(s, j, NotBlank()) == Seek(s, i, NotBlank())
      {
        j := j + 1;
      }
    }

    method SkipLine(s: string, i: nat) returns (j: nat)
      requires i <= |s|
      ensures j == Seek(s, i, Newline())
    {
      j := i;
      while j < |s| && s[j] != '\n'
        invariant i <= j <= |s| && Seek(s, j, Newline()) == Seek(s, i, Newline())
      {
        j := j + 1;
      }
    }

    /** The loop that skips blanks and comments. */
    method SkipTo(s: string, i: nat) returns (j: nat)
      requires i <= |s|
      ensures j == Start(s, i)
    {
      j := i;
      while true
        invariant i <= j <= |s| && Start(s, j) == Start(s, i)
        decreases |s| - j
      {
        j := SkipBlanks(s, j);
        if j + 1 < |s| && s[j] == '/' && s[j + 1] == '/' {
          j := SkipLine(s, j);
        } else {
          return;
        }
      }
    }

    /** The rest of a quoted token, from `b` on. */
    method ReadQuoted(s: string, b: nat) returns (j: nat)
      requires Valid() && len == 0 && b <= |s|
      modifies this`len, comToken
      ensures Valid() && Seek(s, b, Quote()) <= j <= |s|
      ensures Text() == Cut(s[b..Seek(s, b, Quote())])
      ensures j == if Seek(s, b, Quote()) < |s| then Seek(s, b, Quote()) + 1 else |s|
    {
      j := b;
      while j < |s| && s[j] != '"'
        invariant Valid() && b <= j <= |s| && Seek(s, j, Quote()) == Seek(s, b, Quote())
        invariant Text() == Cut(s[b..j])
      {
        Put(s[j], s[b..j]);
        assert s[b..j + 1] == s[b..j] + [s[j]];
        j := j + 1;
      }
      if j < |s| { j := j + 1; }
    }

    /** A regular word, from `b` on; its first character is taken whatever it is. */
    method ReadWord(s: string, b: nat) returns (j: nat)
      requires Valid() && len == 0 && b < |s|
      modifies this`len, comToken
      ensures Valid() && j == Seek(s, b + 1, Blank()) && Text() == Cut(s[b..j])
    {
      j := b + 1;
      PutNext(s, b, b, j);
      while j < |s| && !IsBlank(s[j])
        invariant Valid() && b + 1 <= j <= |s| && Seek(s, j, Blank()) == Seek(s, b + 1, Blank())
        invariant Text() == Cut(s[b..j])
      {
        var i := j;
        j := j + 1;
        PutNext(s, b, i, j);
      }
    }

    method PutNext(s: string, b: nat, i: nat, ghost j: nat)
      requires Valid() && b <= i < j == i + 1 <= |s| && Text() == Cut(s[b..i])
      modifies this`len, comToken
      ensures Valid() && Text() == Cut(s[b..j])
    {
      assert s[b..j] == s[b..i] + [s[i]];
      Put(s[i], s[b..i]);
    }

    /** COM_Parse: the token goes into the buffer, the result is the position behind it. */
    method ComParse(s: string, i: nat) returns (found: bool, j: nat)
      requires Valid() && i <= |s|
      modifies this`len, comToken
      ensures Valid() && found == Parse(s, i).Token?
      ensures found ==> Parse(s, i) == Token(Text(), j)
    {
      len := 0;
      j := SkipTo(s, i);
      if j == |s| { return false, j; }
      j := ReadToken(s, i, j);
      found := true;
    }

    /** The token that begins at `b`, quoted or not. */
    method ReadToken(s: string, ghost i: nat, b: nat) returns (j: nat)
      requires Valid() && len == 0 && i <= |s| && b == Start(s, i) < |s|
      modifies this`len, comToken
      ensures Valid() && Parse(s, i) == Token(Text(), j)
    {
      ghost var c := b + 1;
      if s[b] == '"' {
        QuotedAt(s, i, b, c);
        j := ReadQuoted(s, b + 1);
        assert b + 1 == c;
      } else {
        WordAt(s, i, b, c);
        j := ReadWord(s, b);
        assert b + 1 == c;
      }
    }

    method SkipSpaces(s: string, i: nat) returns (j: nat)
      requires i <= |s|
      ensures j == Seek(s, i, NotSpace())
    {
      j := i;
      while j < |s| && IsSpace(s[j])
        invariant i <= j <= |s| && Seek(s, j, NotSpace()) == Seek(s, i, NotSpace())
      {
        j := j + 1;
      }
    }

    /** Cmd_TokenizeString */
    method TokenizeString(s: string)
      requires Valid()
      modifies this, comToken
      ensures Valid() && argv == Tokenize(s)
    {
      argv := [];
      var i, argc, room: nat := 0, 0, 0;
      ghost var all := Tokenize(s);
      while true
        invariant Valid() && i <= |s| && argc == |argv| <= MAX_ARGS
        invariant all == argv + Tokens(s, i, argc, room)
        decreases |s| - i
      {
        ghost var i0, argc0, room0, argv0 := i, argc, room, argv;
        i := SkipSpaces(s, i);
        if i == |s| || s[i] == '\n' { return; }
        var found, j := ComParse(s, i);
        if !found { return; }
        if argc >= MAX_ARGS { return; }
        if room + len + 1 > ARGV_ROOM { return; }
        argv := argv + [Text()];
        argc := argc + 1;
        room := room + len + 1;
        i := j;
        OneMore(s, i0, argc0, argc, room0, room, Text(), i, argv0, argv, all);
      }
    }
  }

  lemma QuotedAt(s: string, i: nat, b: nat, c: nat)
    requires i <= |s| && b == Start(s, i) < |s| && c == b + 1 && s[b] == '"'
    ensures var e := Seek(s, c, Quote()); Parse(s, i) == Token(Cut(s[c..e]), if e < |s| then e + 1 else |s|)
  {
  }

  lemma WordAt(s: string, i: nat, b: nat, c: nat)
    requires i <= |s| && b == Start(s, i) < |s| && c == b + 1 && s[b] != '"'
    ensures var e := Seek(s, c, Blank()); Parse(s, i) == Token(Cut(s[b..e]), e)
  {
  }

  lemma OneMore(s: string, i: nat, argc0: nat, argc: nat, room0: nat, room: nat, text: string, next: nat,
                done0: seq<string>, done: seq<string>, all: seq<string>)
    requires i <= |s| && argc == argc0 + 1 <= MAX_ARGS && room == room0 + |text| + 1 <= ARGV_ROOM
    requires done == done0 + [text] && all == done0 + Tokens(s, i, argc0, room0)
    requires var j := Seek(s, i, NotSpace());
      j < |s| && s[j] != '\n' && Parse(s, j) == Token(text, next)
    ensures all == done + Tokens(s, next, argc, room)
  {
    NextParsed(s, i, Seek(s, i, NotSpace()), next, argc0, argc, room0, room, text);
    Regroup(done0, [text], Tokens(s, next, argc, room));
  }

  lemma {:induction false} SeekIs(s: string, i: nat, stop: char -> bool, j: nat)
    requires i <= j <= |s| && (j < |s| ==> stop(s[j])) && forall k :: i <= k < j ==> !stop(s[k])
    ensures Seek(s, i, stop) == j
    decreases j - i
  {
    if i < j { SeekIs(s, i + 1, stop, j); }
  }

  /** A word without blanks. */
  ghost predicate PlainWord(w: string) {
    && 0 < |w| < 1024 && w[0] != '"' && w[0] != '/'
    && forall k :: 0 <= k < |w| ==> w[k] != ' ' && w[k] != '\t' && w[k] != '\r' && w[k] != '\n'
  }

  /** A word, and the spaces before it. */
  datatype Spaced = Spaced(gap: string, word: string)

  ghost predicate Separated(ws: seq<Spaced>) {
    forall i :: 0 <= i < |ws| ==>
      && PlainWord(ws[i].word) && (i > 0 ==> ws[i].gap != "")
      && forall k :: 0 <= k < |ws[i].gap| ==> ws[i].gap[k] == ' ' || ws[i].gap[k] == '\t' || ws[i].gap[k] == '\r'
  }

  /** A line of words. */
  function Laid(ws: seq<Spaced>): string {
    if ws == [] then "" else ws[0].gap + ws[0].word + Laid(ws[1..])
  }

  function Words(ws: seq<Spaced>): seq<string> {
    if ws == [] then [] else [ws[0].word] + Words(ws[1..])
  }

  lemma ParseWord(s: string, b: nat, e: nat)
    requires b < e <= |s| && PlainWord(s[b..e]) && (e < |s| ==> IsBlank(s[e]))
    ensures Parse(s, b) == Token(s[b..e], e)
  {
    assert forall k :: b <= k < e ==> s[k] == s[b..e][k - b];
    SeekIs(s, b, NotBlank(), b);
    SeekIs(s, b + 1, Blank(), e);
  }

  /** A plain word is the next argument, if there is room for it. */
  lemma NextWord(s: string, i: nat, b: nat, e: nat, argc: nat, argc1: nat, room: nat, room1: nat)
    requires i <= b < e <= |s| && PlainWord(s[b..e]) && (e < |s| ==> IsBlank(s[e]))
    requires forall k :: i <= k < b ==> IsSpace(s[k])
    requires argc1 == argc + 1 <= MAX_ARGS && room1 == room + (e - b) + 1 <= ARGV_ROOM
    ensures Tokens(s, i, argc, room) == [s[b..e]] + Tokens(s, e, argc1, room1)
  {
    assert s[b] == s[b..e][0];
    SeekIs(s, i, NotSpace(), b);
    ParseWord(s, b, e);
    NextParsed(s, i, b, e, argc, argc1, room, room1, s[b..e]);
  }

  /** A quoted argument without quotes in it, cut to the token buffer, is the next one, if
      there is room for it. */
  lemma NextQuoted(s: string, i: nat, b: nat, b1: nat, e: nat, f: nat,
                   argc: nat, argc1: nat, room: nat, room1: nat, w: string)
    requires i <= b < b1 <= e < f <= |s| && b1 == b + 1 && f == e + 1 && s[b] == s[e] == '"'
    requires forall k :: i <= k < b ==> IsSpace(s[k])
    requires (forall k :: b < k < e ==> s[k] != '"') && w == Cut(s[b1..e])
    requires argc1 == argc + 1 <= MAX_ARGS && room1 == room + |w| + 1 <= ARGV_ROOM
    ensures Tokens(s, i, argc, room) == [w] + Tokens(s, f, argc1, room1)
  {
    SeekIs(s, i, NotSpace(), b);
    ParseQuoted(s, b, b1, e, f);
    NextParsed(s, i, b, f, argc, argc1, room, room1, w);
  }

  lemma NextParsed(s: string, i: nat, b: nat, f: nat, argc: nat, argc1: nat, room: nat, room1: nat, w: string)
    requires i <= b < |s| && Seek(s, i, NotSpace()) == b && s[b] != '\n' && Parse(s, b) == Token(w, f)
    requires argc1 == argc + 1 <= MAX_ARGS && room1 == room + |w| + 1 <= ARGV_ROOM
    ensures f <= |s| && Tokens(s, i, argc, room) == [w] + Tokens(s, f, argc1, room1)
  {
  }

  lemma ParseQuoted(s: string, b: nat, b1: nat, e: nat, f: nat)
    requires b < b1 <= e < f <= |s| && b1 == b + 1 && f == e + 1 && s[b] == s[e] == '"'
    requires forall k :: b < k < e ==> s[k] != '"'
    ensures Parse(s, b) == Token(Cut(s[b1..e]), f)
  {
    SeekIs(s, b, NotBlank(), b);
    SeekIs(s, b1, Quote(), e);
  }

  lemma LineEnds(s: string, i: nat, argc: nat, room: nat)
    requires i <= |s| && (i < |s| ==> s[i] == '\n') && argc <= MAX_ARGS
    ensures Tokens(s, i, argc, room) == []
  {
  }

  /** The room that words take up, with their terminators. */
  function Taken(ws: seq<Spaced>): nat {
    if ws == [] then 0 else |ws[0].word| + 1 + Taken(ws[1..])
  }

  /** Plain words with spaces between them, all of which fit, and then whatever follows. */
  lemma {:induction false} LaidThen(h: string, ws: seq<Spaced>, rest: string, s: string, i: nat, e: nat,
                                    argc: nat, argc1: nat, room: nat, room1: nat)
    requires Separated(ws) && s == h + Laid(ws) + rest && i == |h| && e == i + |Laid(ws)|
    requires rest == "" || IsBlank(rest[0])
    requires argc1 == argc + |ws| <= MAX_ARGS && room1 == room + Taken(ws) <= ARGV_ROOM
    ensures Tokens(s, i, argc, room) == Words(ws) + Tokens(s, e, argc1, room1)
    decreases |ws|
  {
    if ws == [] {
      assert [] + Tokens(s, e, argc1, room1) == Tokens(s, e, argc1, room1);
    } else {
      var w, tail := ws[0], ws[1..];
      var n, r := argc + 1, room + |w.word| + 1;
      var g := w.gap + w.word;
      var f := i + |g|;
      Shifted(h, g, Laid(tail), rest, s);
      SeparatedParts(ws, 1);
      LaidThen(h + g, tail, rest, s, f, e, n, argc1, r, room1);
      LaidStep(h, ws, rest, s, i, f, argc, n, room, r, Words(tail), Tokens(s, e, argc1, room1));
    }
  }

  lemma LaidStep(h: string, ws: seq<Spaced>, rest: string, s: string, i: nat, f: nat,
                 argc: nat, n: nat, room: nat, r: nat, a: seq<string>, b: seq<string>)
    requires Separated(ws) && ws != [] && s == h + Laid(ws) + rest && i == |h| && f == i + |ws[0].gap| + |ws[0].word|
    requires rest == "" || IsBlank(rest[0])
    requires n == argc + 1 <= MAX_ARGS && r == room + |ws[0].word| + 1 <= ARGV_ROOM
    requires f <= |s| && Tokens(s, f, n, r) == a + b
    ensures Tokens(s, i, argc, room) == [ws[0].word] + a + b
  {
    var c := i + |ws[0].gap|;
    WordPlaced(h, ws, rest, s, i, c, f);
    PlacedWord(s, i, c, f, argc, n, room, r, ws[0].word);
    Regroup([ws[0].word], a, b);
  }

  lemma PlacedWord(s: string, i: nat, b: nat, f: nat, argc: nat, n: nat, room: nat, r: nat, w: string)
    requires i <= b <= f <= |s| && s[b..f] == w && PlainWord(w) && (f < |s| ==> IsBlank(s[f]))
    requires (forall k :: i <= k < b ==> IsSpace(s[k])) && n == argc + 1 <= MAX_ARGS && r == room + |w| + 1 <= ARGV_ROOM
    ensures Tokens(s, i, argc, room) == [w] + Tokens(s, f, n, r)
  {
    NextWord(s, i, b, f, argc, n, room, r);
  }

  lemma Shifted(h: string, g: string, t: string, rest: string, s: string)
    requires s == h + (g + t) + rest
    ensures s == h + g + t + rest
  {
    Regroup(h, g, t);
  }

  lemma WordPlaced(h: string, ws: seq<Spaced>, rest: string, s: string, i: nat, b: nat, f: nat)
    requires Separated(ws) && ws != [] && s == h + Laid(ws) + rest && i == |h|
    requires rest == "" || IsBlank(rest[0])
    requires b == i + |ws[0].gap| && f == b + |ws[0].word|
    ensures f <= |s| && s[b..f] == ws[0].word && (f < |s| ==> IsBlank(s[f])) && forall k :: i <= k < b ==> IsSpace(s[k])
  {
    var w, t := ws[0], Laid(ws[1..]);
    FirstBlank(ws, t);
    OneWord(h, w, t, rest, s, i, b, f);
  }

  lemma FirstBlank(ws: seq<Spaced>, t: string)
    requires Separated(ws) && ws != [] && t == Laid(ws[1..])
    ensures t == "" || IsBlank(t[0])
  {
    if |ws| > 1 {
      var v := ws[1..];
      assert v[0] == ws[1];
    }
  }

  lemma OneWord(h: string, w: Spaced, t: string, rest: string, s: string, i: nat, b: nat, f: nat)
    requires s == h + (w.gap + w.word + t) + rest && i == |h| && b == i + |w.gap| && f == b + |w.word|
    requires (t == "" || IsBlank(t[0])) && (rest == "" || IsBlank(rest[0]))
    requires forall k :: 0 <= k < |w.gap| ==> IsSpace(w.gap[k])
    ensures f <= |s| && s[b..f] == w.word && (f < |s| ==> IsBlank(s[f])) && forall k :: i <= k < b ==> IsSpace(s[k])
  {
    Slices(h, w.gap, w.word, t, rest, s, i, b, f);
    assert forall k :: i <= k < b ==> s[k] == s[i..b][k - i];
  }

  lemma Slices(h: string, g: string, w: string, t: string, rest: string, s: string, i: nat, b: nat, f: nat)
    requires s == h + (g + w + t) + rest && i == |h| && b == i + |g| && f == b + |w|
    ensures f <= |s| && s[i..b] == g && s[b..f] == w
    ensures t != "" ==> f < |s| && s[f] == t[0]
    ensures t == "" && rest != "" ==> f < |s| && s[f] == rest[0]
    ensures t == "" && rest == "" ==> f == |s|
  {
  }

  /** A line of plain words with spaces between them is tokenized into these words. */
  lemma LineOfWords(ws: seq<Spaced>)
    requires Separated(ws) && |ws| <= MAX_ARGS && |Laid(ws)| + |ws| <= ARGV_ROOM
    ensures Tokenize(Laid(ws)) == Words(ws)
  {
    TakenFits(ws);
    WordsAlone(ws, Laid(ws), 0);
  }

  lemma {:induction false} TakenFits(ws: seq<Spaced>)
    ensures Taken(ws) <= |Laid(ws)| + |ws|
  {
    if ws != [] { TakenFits(ws[1..]); }
  }

  lemma WordsAlone(ws: seq<Spaced>, s: string, z: nat)
    requires Separated(ws) && |ws| <= MAX_ARGS && Taken(ws) <= ARGV_ROOM && s == Laid(ws) && z == 0
    ensures Tokens(s, z, z, z) == Words(ws)
  {
    assert "" + Laid(ws) + "" == s;
    LaidThen("", ws, "", s, z, |s|, z, |ws|, z, Taken(ws));
    LineEnds(s, |s|, |ws|, Taken(ws));
    assert Words(ws) + [] == Words(ws);
  }

  // ----- what else ends a line

  /** The newline ends the line, and what is behind it does not count. */
  lemma NewlineEnds(ws: seq<Spaced>, t: string, s: string, z: nat)
    requires Separated(ws) && |ws| <= 80 && Taken(ws) <= 1530 && s == Laid(ws) + ("\n" + t) && z == 0
    ensures Tokens(s, z, z, z) == Words(ws)
  {
    assert "" + Laid(ws) + ("\n" + t) == s;
    LaidThen("", ws, "\n" + t, s, z, |Laid(ws)|, z, |ws|, z, Taken(ws));
    LineEnds(s, |Laid(ws)|, |ws|, Taken(ws));
    assert Words(ws) + [] == Words(ws);
  }

  /** A comment runs to the next newline or the end, and parsing goes on there, even behind the
      newline. */
  lemma CommentSkipped(s: string, i: nat, e: nat)
    requires i + 2 <= e <= |s| && s[i] == '/' && s[i + 1] == '/' && (e < |s| ==> s[e] == '\n')
    requires forall k :: i <= k < e ==> s[k] != '\n'
    ensures Parse(s, i) == Parse(s, e)
  {
    SeekIs(s, i, NotBlank(), i);
    SeekIs(s, i, Newline(), e);
  }

  /** A comment at the end of a line is not there. */
  lemma CommentEnds(ws: seq<Spaced>, rest: string, s: string, z: nat)
    requires Separated(ws) && |ws| <= 80 && Taken(ws) <= 1530 && z == 0 && s == Laid(ws) + rest
    requires |rest| >= 3 && rest[0] == ' ' && rest[1] == rest[2] == '/' && '\n' !in rest
    ensures Tokens(s, z, z, z) == Words(ws)
  {
    var e := |Laid(ws)|;
    assert "" + Laid(ws) + rest == s;
    LaidThen("", ws, rest, s, z, e, z, |ws|, z, Taken(ws));
    CommentBehind(Laid(ws), rest, s, e, |ws|, Taken(ws));
    assert Words(ws) + [] == Words(ws);
  }

  lemma CommentBehind(h: string, rest: string, s: string, e: nat, argc: nat, room: nat)
    requires s == h + rest && e == |h| && argc <= MAX_ARGS
    requires |rest| >= 3 && rest[0] == ' ' && rest[1] == rest[2] == '/' && '\n' !in rest
    ensures Tokens(s, e, argc, room) == []
  {
    assert forall k :: e <= k < |s| ==> s[k] == rest[k - e];
    CommentLast(s, e, e + 1, argc, room);
  }

  lemma CommentLast(s: string, i: nat, j: nat, argc: nat, room: nat)
    requires j == i + 1 && j + 2 <= |s| && s[i] == ' ' && s[j] == '/' && s[j + 1] == '/' && argc <= MAX_ARGS
    requires forall k :: j <= k < |s| ==> s[k] != '\n'
    ensures Tokens(s, i, argc, room) == []
  {
    SeekIs(s, i, NotSpace(), j);
    CommentSkipped(s, j, |s|);
    assert Parse(s, |s|).NoToken?;
  }

  // ----- the limits

  /** The words that a line is tokenized into: at most 80, together with their terminators at
      most 1530 characters, and the next word, if there is one, would break one of the limits. */
  lemma FirstWords(ws: seq<Spaced>, s: string, z: nat) returns (n: nat)
    requires Separated(ws) && s == Laid(ws) && z == 0
    ensures n <= |ws| && n <= 80 && Taken(ws[..n]) <= 1530
    ensures n < |ws| ==> n == 80 || Taken(ws[..n]) + |ws[n].word| + 1 > 1530
    ensures Tokens(s, z, z, z) == Words(ws[..n])
  {
    n := WordsThatFit(ws, |ws|);
    var a, b := ws[..n], ws[n..];
    assert ws == a + b;
    LaidConcat(a, b);
    assert "" + Laid(a) + Laid(b) == s;
    SeparatedParts(ws, n);
    BlankInFront(b, a);
    var e := |Laid(a)|;
    LaidThen("", a, Laid(b), s, z, e, z, n, z, Taken(a));
    if n == |ws| {
      LineEnds(s, |s|, n, Taken(a));
    } else {
      NoMore(Laid(a), b, s, e, n, Taken(a));
    }
    assert Words(a) + [] == Words(a);
  }

  lemma {:induction false} WordsThatFit(ws: seq<Spaced>, m: nat) returns (n: nat)
    requires m <= |ws|
    ensures n <= m && n <= 80 && Taken(ws[..n]) <= 1530
    ensures n < m ==> n == 80 || Taken(ws[..n]) + |ws[n].word| + 1 > 1530
  {
    if m == 0 {
      n := 0;
    } else {
      n := WordsThatFit(ws, m - 1);
      if n == m - 1 && n < 80 && Taken(ws[..n]) + |ws[n].word| + 1 <= 1530 {
        TakenSnoc(ws[..n], ws[n]);
        assert ws[..m] == ws[..n] + [ws[n]];
        n := m;
      }
    }
  }

  lemma {:induction false} TakenSnoc(ws: seq<Spaced>, w: Spaced)
    ensures Taken(ws + [w]) == Taken(ws) + |w.word| + 1
  {
    if ws != [] {
      TakenSnoc(ws[1..], w);
      assert (ws + [w])[1..] == ws[1..] + [w];
    }
  }

  lemma {:induction false} LaidConcat(a: seq<Spaced>, b: seq<Spaced>)
    ensures Laid(a + b) == Laid(a) + Laid(b)
    decreases |a|
  {
    if a == [] {
      assert a + b == b;
    } else {
      LaidConcat(a[1..], b);
      assert (a + b)[1..] == a[1..] + b;
      Regroup(a[0].gap + a[0].word, Laid(a[1..]), Laid(b));
    }
  }

  lemma SeparatedParts(ws: seq<Spaced>, n: nat)
    requires Separated(ws) && n <= |ws|
    ensures Separated(ws[..n]) && (n > 0 ==> Separated(ws[n..]))
    ensures n > 0 && n < |ws| ==> ws[n..][0].gap != ""
    ensures n < |ws| ==> PlainWord(ws[n].word) && forall k :: 0 <= k < |ws[n].gap| ==> IsSpace(ws[n].gap[k])
  {
  }

  lemma BlankInFront(b: seq<Spaced>, a: seq<Spaced>)
    requires b != [] && a != [] ==>
      b[0].gap != "" && forall k :: 0 <= k < |b[0].gap| ==> IsSpace(b[0].gap[k])
    ensures a != [] ==> Laid(b) == "" || IsBlank(Laid(b)[0])
  {
    if b != [] && a != [] { assert Laid(b)[0] == b[0].gap[0]; }
  }

  /** A word that does not fit ends the list. */
  lemma NoMore(h: string, b: seq<Spaced>, s: string, i: nat, argc: nat, room: nat)
    requires b != [] && Separated(b) && s == h + Laid(b) && i == |h| && argc <= 80
    requires argc == 80 || room + |b[0].word| + 1 > 1530
    ensures Tokens(s, i, argc, room) == []
  {
    var c := i + |b[0].gap|;
    var f := c + |b[0].word|;
    assert s == h + Laid(b) + "";
    WordPlaced(h, b, "", s, i, c, f);
    assert s[c] == s[c..f][0];
    SeekIs(s, i, NotSpace(), c);
    ParseWord(s, c, f);
  }

  /** Of a word of 1024 characters or more the first 1023 are taken, and so of a quoted one,
      which an end of the text closes too. */
  lemma LongWord(s: string, b: nat, e: nat)
    requires b < e <= |s| && (e < |s| ==> IsBlank(s[e])) && s[b] != '"' && s[b] != '/' && e - b >= 1024
    requires forall k :: b <= k < e ==> !IsBlank(s[k])
    ensures Parse(s, b) == Token(s[b..e][..1023], e)
  {
    SeekIs(s, b, NotBlank(), b);
    SeekIs(s, b + 1, Blank(), e);
  }

  lemma OpenQuote(s: string, b: nat, b1: nat)
    requires b < |s| && b1 == b + 1 && s[b] == '"' && forall k :: b1 <= k < |s| ==> s[k] != '"'
    ensures Parse(s, b) == Token(if |s| - b1 < 1024 then s[b1..] else s[b1..][..1023], |s|)
  {
    SeekIs(s, b, NotBlank(), b);
    SeekIs(s, b1, Quote(), |s|);
    assert s[b1..|s|] == s[b1..];
  }
}
