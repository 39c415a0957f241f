module Connect {
  /* The connect packet of QW: how src/clc.c prints a request and how src/svc.c, with
     MSG_ReadString and the tokenizer, reads it. */

  import opened Info
  import opened Numbers
  import opened Seqs
  import opened Tokenizer

  const MAX_INFO_STRING := 1024
  const MAX_READ := 2047
  const QW_PROTOCOL_VERSION := 28

  predicate IsInt(n: int) {
    -0x8000_0000 <= n < 0x8000_0000
  }

  /** MSG_ReadString: a zero ends the string, 255 is skipped, and `room` characters fit. */
  function ReadString(s: string, room: nat): string {
    if s == "" || s[0] as int == 0 || room == 0 then ""
    else if s[0] as int == 255 then ReadString(s[1..], room)
    else [s[0]] + ReadString(s[1..], room - 1)
  }

  /** CL_SendConnectPacket_QW, behind the marker of out-of-band packets. */
  function ConnectPacket(version: int, qport: int, challenge: int, userinfo: string): string {
    "connect" + (" " + Printed(version)) + (" " + Printed(qport)) + (" " + Printed(challenge))
    + (" \"" + userinfo + "\"\n")
  }

  /** What SVC_DirectConnect reads out of a request. */
  datatype ConnectArgs = ConnectArgs(version: int, qport: int, challenge: int, userinfo: string)

  function Received(packet: string): ConnectArgs {
    var argv := Tokenize(ReadString(packet, MAX_READ));
    ConnectArgs(Atoi(Arg(argv, 1)), Atoi(Arg(argv, 2)), Atoi(Arg(argv, 3)), Fit(Arg(argv, 4), MAX_INFO_STRING))
  }

  /** Characters that a packet carries and that do not end the quoted argument. */
  ghost predicate Clear(s: string) {
    forall k :: 0 <= k < |s| ==> 0 < s[k] as int < 255 && s[k] != '"'
  }

  ghost predicate Carried(s: string) {
    forall k :: 0 <= k < |s| ==> 0 < s[k] as int < 255
  }

  lemma {:induction false} ReadPrefix(s: string, t: string, room: nat, rest: nat)
    requires Carried(s) && room == |s| + rest
    ensures ReadString(s + t, room) == s + ReadString(t, rest)
    decreases |s|
  {
    if s == "" {
      assert s + t == t;
    } else {
      ReadPrefix(s[1..], t, room - 1, rest);
      assert (s + t)[1..] == s[1..] + t;
      Regroup([s[0]], s[1..], ReadString(t, rest));
      assert [s[0]] + s[1..] == s;
    }
  }

  lemma ReadAll(s: string, room: nat)
    requires Carried(s) && |s| <= room
    ensures ReadString(s, room) == s
  {
    ReadPrefix(s, "", room, room - |s|);
    assert s + "" == s;
  }

  lemma PrintedInt(n: int)
    requires IsInt(n)
    ensures |Printed(n)| <= 11 && PlainWord(Printed(n)) && Clear(Printed(n))
  {
    assert Pow10(10) == 10_000_000_000;
    DecimalLength(if n < 0 then -n else n, 10);
  }

  /** Where the parts of a packet are. */
  lemma PacketParts(v: string, q: string, c: string, u: string, s: string, e: nat,
                    b1: nat, e1: nat, b2: nat, e2: nat, b3: nat, e3: nat, b4: nat, b5: nat, f: nat, g: nat)
    requires s == "connect" + (" " + v) + (" " + q) + (" " + c) + (" \"" + u + "\"\n") && e == 7
    requires b1 == e + 1 && e1 == b1 + |v| && b2 == e1 + 1 && e2 == b2 + |q| && b3 == e2 + 1 && e3 == b3 + |c|
    requires b4 == e3 + 1 && b5 == b4 + 1 && f == b5 + |u| && g == f + 1
    ensures |s| == g + 1
    ensures s[0..e] == "connect" && s[e] == s[e1] == s[e2] == s[e3] == ' '
    ensures s[b1..e1] == v && s[b2..e2] == q && s[b3..e3] == c
    ensures s[b4] == '"' && s[b5..f] == u && s[f] == '"' && s[g] == '\n'
  {
    var h1 := "connect" + (" " + v);
    var h2 := h1 + (" " + q);
    var h3 := h2 + (" " + c);
    assert h1[e] == ' ' && h1[b1..e1] == v && |h1| == e1;
    assert h2[..e1] == h1 && h2[e1] == ' ' && h2[b2..e2] == q && |h2| == e2;
    assert h3[..e2] == h2 && h3[e2] == ' ' && h3[b3..e3] == c && |h3| == e3;
    assert s[..e3] == h3;
    LastPart(h3, u, s, e3, b4, b5, f, g);
  }

  lemma LastPart(h: string, u: string, s: string, e: nat, b: nat, b1: nat, f: nat, g: nat)
    requires s == h + (" \"" + u + "\"\n") && e == |h| && b == e + 1 && b1 == b + 1 && f == b1 + |u| && g == f + 1
    ensures |s| == g + 1 && s[..e] == h && s[e] == ' ' && s[b] == '"' && s[b1..f] == u && s[f] == '"' && s[g] == '\n'
  {
  }

  /** One more word, behind a space. */
  lemma OneWord(s: string, i: nat, b: nat, e: nat, n: nat, n1: nat, r: nat, r1: nat, w: string)
    requires b == i + 1 && b <= e <= |s| && s[i] == ' ' && s[b..e] == w && PlainWord(w) && (e < |s| ==> s[e] == ' ')
    requires n1 == n + 1 <= MAX_ARGS && r1 == r + |w| + 1 <= ARGV_ROOM
    ensures Tokens(s, i, n, r) == [w] + Tokens(s, e, n1, r1)
  {
    NextWord(s, i, b, e, n, n1, r, r1);
  }

  lemma LastWord(s: string, i: nat, b: nat, b1: nat, e: nat, f: nat, n: nat, n1: nat, r: nat, r1: nat, u: string)
    requires b == i + 1 && b1 == b + 1 <= e && f == e + 1 < |s|
    requires s[i] == ' ' && s[b] == s[e] == '"' && s[b1..e] == u && s[f] == '\n'
    requires |u| < MAX_INFO_STRING && Clear(u) && n1 == n + 1 <= MAX_ARGS && r1 == r + |u| + 1 <= ARGV_ROOM
    ensures Tokens(s, i, n, r) == [u] + []
  {
    assert forall k :: b < k < e ==> s[k] == u[k - b1];
    NextQuoted(s, i, b, b1, e, f, n, n1, r, r1, u);
    LineEnds(s, f, n1, r1);
  }

  /** A request falls apart into its five arguments. */
  lemma PacketTokens(v: string, q: string, c: string, u: string, s: string, z: nat)
    requires s == "connect" + (" " + v) + (" " + q) + (" " + c) + (" \"" + u + "\"\n")
    requires PlainWord(v) && PlainWord(q) && PlainWord(c) && |v| <= 11 && |q| <= 11 && |c| <= 11
    requires |u| < MAX_INFO_STRING && Clear(u) && z == 0
    ensures Tokens(s, z, z, z) == ["connect"] + ([v] + ([q] + ([c] + ([u] + []))))
  {
    var n0, n1, n2, n3, n4, e := z + 1, z + 2, z + 3, z + 4, z + 5, z + 7;
    var b1 := e + 1;
    var e1 := b1 + |v|;
    var b2 := e1 + 1;
    var e2 := b2 + |q|;
    var b3 := e2 + 1;
    var e3 := b3 + |c|;
    var b4 := e3 + 1;
    var b5 := b4 + 1;
    var f := b5 + |u|;
    var g := f + 1;
    PacketParts(v, q, c, u, s, e, b1, e1, b2, e2, b3, e3, b4, b5, f, g);
    NextWord(s, z, z, e, z, n0, z, b1);
    FourWords(v, q, c, u, s, e, b1, e1, b2, e2, b3, e3, b4, b5, f, g, n0, n1, n2, n3, n4);
  }

  lemma FourWords(v: string, q: string, c: string, u: string, s: string, e: nat, b1: nat, e1: nat, b2: nat, e2: nat,
                  b3: nat, e3: nat, b4: nat, b5: nat, f: nat, g: nat, n0: nat, n1: nat, n2: nat, n3: nat, n4: nat)
    requires b1 == e + 1 && e1 == b1 + |v| && b2 == e1 + 1 && e2 == b2 + |q| && b3 == e2 + 1 && e3 == b3 + |c|
    requires b4 == e3 + 1 && b5 == b4 + 1 && f == b5 + |u| && g == f + 1 && |s| == g + 1
    requires s[e] == s[e1] == s[e2] == s[e3] == ' ' && s[b1..e1] == v && s[b2..e2] == q && s[b3..e3] == c
    requires s[b4] == '"' && s[b5..f] == u && s[f] == '"' && s[g] == '\n'
    requires PlainWord(v) && PlainWord(q) && PlainWord(c) && |u| < MAX_INFO_STRING && Clear(u)
    requires n1 == n0 + 1 && n2 == n1 + 1 && n3 == n2 + 1 && n4 == n3 + 1 <= MAX_ARGS && g <= ARGV_ROOM
    ensures Tokens(s, e, n0, b1) == [v] + ([q] + ([c] + ([u] + [])))
  {
    OneWord(s, e, b1, e1, n0, n1, b1, b2, v);
    OneWord(s, e1, b2, e2, n1, n2, b2, b3, q);
    OneWord(s, e2, b3, e3, n2, n3, b3, b4, c);
    LastWord(s, e3, b4, b5, f, g, n3, n4, b4, f, u);
  }

  /** What is printed into a connect packet is what the next proxy reads. */
  lemma PacketCarries(version: int, qport: int, challenge: int, userinfo: string)
    requires IsInt(version) && IsInt(qport) && IsInt(challenge)
    requires |userinfo| < MAX_INFO_STRING && Clear(userinfo)
    ensures Received(ConnectPacket(version, qport, challenge, userinfo))
         == ConnectArgs(version, qport, challenge, userinfo)
  {
    var v, q, c := Printed(version), Printed(qport), Printed(challenge);
    var s := ConnectPacket(version, qport, challenge, userinfo);
    PrintedInt(version);
    PrintedInt(qport);
    PrintedInt(challenge);
    PacketRead(v, q, c, userinfo, s, 0);
    AtoiPrinted(version);
    AtoiPrinted(qport);
    AtoiPrinted(challenge);
  }

  lemma PacketRead(v: string, q: string, c: string, u: string, s: string, z: nat)
    requires s == "connect" + (" " + v) + (" " + q) + (" " + c) + (" \"" + u + "\"\n") && z == 0
    requires PlainWord(v) && PlainWord(q) && PlainWord(c) && |v| <= 11 && |q| <= 11 && |c| <= 11
    requires Clear(v) && Clear(q) && Clear(c) && |u| < MAX_INFO_STRING && Clear(u)
    ensures var a := Tokenize(ReadString(s, MAX_READ));
      |a| == 5 && a[1] == v && a[2] == q && a[3] == c && a[4] == u
  {
    PacketCarried(v, q, c, u, s);
    ReadAll(s, MAX_READ);
    PacketTokens(v, q, c, u, s, z);
    FiveArgs("connect", v, q, c, u, Tokens(s, z, z, z));
    assert Tokenize(s) == Tokens(s, z, z, z);
  }

  lemma FiveArgs(k: string, v: string, q: string, c: string, u: string, a: seq<string>)
    requires a == [k] + ([v] + ([q] + ([c] + ([u] + []))))
    ensures |a| == 5 && a[1] == v && a[2] == q && a[3] == c && a[4] == u
  {
  }

  lemma PacketCarried(v: string, q: string, c: string, u: string, s: string)
    requires s == "connect" + (" " + v) + (" " + q) + (" " + c) + (" \"" + u + "\"\n")
    requires Clear(v) && Clear(q) && Clear(c) && Clear(u)
    ensures Carried(s)
  {
    CarriedConcat("connect" + (" " + v) + (" " + q) + (" " + c), " \"" + u + "\"\n");
    CarriedConcat("connect" + (" " + v) + (" " + q), " " + c);
    CarriedConcat("connect" + (" " + v), " " + q);
    CarriedConcat("connect", " " + v);
  }

  lemma CarriedConcat(a: string, b: string)
    requires Carried(a) && Carried(b)
    ensures Carried(a + b)
  {
  }
}
