module ConnectQ3 {
  /* The connect packet of Q3: the userinfo with the challenge in it, encrypted from byte 12 on
     by src/clc.c and decrypted, read and tokenized by src/svc.c. */

  import opened Bits
  import opened Connect
  import opened Info
  import opened Numbers
  import opened Packets
  import opened Seqs
  import opened Tokenizer

  const CHALLENGE := "challenge"
  const Q3_ROOM := 1124
  const PACKET_SIZE := 2048

  /** CL_SendConnectPacket_Q3: the userinfo that is sent. */
  function Challenged(userinfo: string, challenge: int): string {
    SetKey(userinfo, CHALLENGE, Printed(challenge), Q3_ROOM, true)
  }

  /** The packet, behind the marker of out-of-band packets. */
  function Q3Line(userinfo: string): string {
    "connect \"" + userinfo + "\""
  }

  /** The userinfo that SVC_DirectConnect reads out of a Q3 request. */
  function ReceivedQ3(text: string): string {
    Fit(Arg(Tokenize(ReadString(text, MAX_READ)), 1), MAX_INFO_STRING)
  }

  // ----- printing and tokenizing

  lemma LineParts(u: string, s: string, e: nat, b: nat, b1: nat, f: nat)
    requires s == Q3Line(u) && e == 7 && b == e + 1 && b1 == b + 1 && f == b1 + |u|
    ensures |s| == f + 1 && s[0..e] == "connect" && s[e] == ' ' && s[b] == s[f] == '"' && s[b1..f] == u
  {
    assert s == "connect \"" + (u + "\"");
  }

  lemma LineTokens(u: string, s: string, z: nat, w: string)
    requires s == Q3Line(u) && Clear(u) && z == 0 && w == Cut(u)
    ensures Tokens(s, z, z, z) == ["connect"] + ([w] + [])
  {
    var n, n1, e := z + 1, z + 2, z + 7;
    var b := e + 1;
    var b1 := b + 1;
    var f := b1 + |u|;
    LineParts(u, s, e, b, b1, f);
    NextWord(s, z, z, e, z, n, z, b);
    QuoteEnds(u, s, e, b, b1, f, n, n1, w);
  }

  lemma QuoteEnds(u: string, s: string, e: nat, b: nat, b1: nat, f: nat, n: nat, n1: nat, w: string)
    requires b == e + 1 && b1 == b + 1 && f == b1 + |u| && |s| == f + 1 && e <= 100
    requires s[e] == ' ' && s[b] == s[f] == '"' && s[b1..f] == u && Clear(u) && w == Cut(u) && n1 == n + 1 <= MAX_ARGS
    ensures Tokens(s, e, n, b) == [w] + []
  {
    assert forall k :: b < k < f ==> s[k] == u[k - b1];
    var g, r := f + 1, b + |w| + 1;
    NextQuoted(s, e, b, b1, f, g, n, n1, b, r, w);
    LineEnds(s, g, n1, r);
  }

  lemma LineCarried(u: string)
    requires Clear(u)
    ensures Carried(Q3Line(u))
  {
    CarriedConcat("connect \"", u);
    CarriedConcat("connect \"" + u, "\"");
  }

  /** What is printed arrives, cut to the buffer for a userinfo. */
  lemma LineArrives(u: string, text: string)
    requires Clear(u) && |u| < Q3_ROOM && ReadString(text, MAX_READ) == Q3Line(u)
    ensures ReceivedQ3(text) == Fit(u, MAX_INFO_STRING)
  {
    LineTokens(u, Q3Line(u), 0, Cut(u));
    TwoArgs("connect", Cut(u), Tokens(Q3Line(u), 0, 0, 0));
  }

  lemma TwoArgs(k: string, w: string, a: seq<string>)
    requires a == [k] + ([w] + [])
    ensures |a| == 2 && a[1] == w
  {
  }

  lemma LineRead(u: string)
    requires Clear(u) && |u| < Q3_ROOM
    ensures ReadString(Q3Line(u), MAX_READ) == Q3Line(u)
  {
    LineCarried(u);
    ReadAll(Q3Line(u), MAX_READ);
  }

  // ----- the packet in memory

  const HEAD := 12

  /** The characters behind the marker. */
  function TextAt(d: seq<byte>, c: int): (s: string)
    requires 4 <= c <= |d|
    ensures |s| == c - 4
  {
    seq(c - 4, i requires 0 <= i < c - 4 => d[4 + i] as char)
  }

  /** The memory that SZ_Print fills: marker, line and terminator. */
  ghost predicate Q3Packet(d: seq<byte>, c: int, u: string) {
    c == |u| + 15 <= |d| && TextAt(d, c) == Q3Line(u) + [0 as char]
  }

  /** Every userinfo that can be sent is encrypted within the memory of the packet. */
  lemma PacketFits(d: seq<byte>, c: int, u: string)
    requires |d| == PACKET_SIZE && Q3Packet(d, c, u) && |u| <= 1076
    ensures EncryptFits(d, c, HEAD)
  {
    EncryptShortFits(d[HEAD..c]);
  }

  function ToBytes(s: string): (b: seq<byte>)
    ensures |b| == |s|
  {
    seq(|s|, i requires 0 <= i < |s| => s[i] as int % 256)
  }

  /** So every packet is sent: there are memories before and after encrypting. */
  lemma PacketSent(u: string) returns (d: seq<byte>, c: int, d1: seq<byte>, c1: int)
    requires Clear(u) && |u| <= 1076
    ensures |d| == PACKET_SIZE && Q3Packet(d, c, u)
    ensures EncryptFits(d, c, HEAD) && Encrypted(d, c, HEAD, d1, c1)
  {
    var line: string := Q3Line(u) + [0 as char];
    c := |u| + 15;
    d := [255, 255, 255, 255] + ToBytes(line) + seq(PACKET_SIZE - c, i => 0);
    LineCarried(u);
    forall i | 0 <= i < c - 4 ensures TextAt(d, c)[i] == line[i] {
      assert d[4 + i] == ToBytes(line)[i];
    }
    PacketFits(d, c, u);
    d1, c1 := EncryptedForm(d, c, HEAD);
  }

  lemma TextRead(u: string, text: string)
    requires Clear(u) && |u| < Q3_ROOM && text == Q3Line(u) + [0 as char]
    ensures ReadString(text, MAX_READ) == Q3Line(u)
  {
    LineCarried(u);
    ReadPrefix(Q3Line(u), [0 as char], MAX_READ, MAX_READ - |Q3Line(u)|);
    assert Q3Line(u) + "" == Q3Line(u);
  }

  /** The word in front of the encrypted part can be read before it is decrypted. */
  ghost predicate Announced(text: string) {
    |ReadString(text, MAX_READ)| >= 8 && ReadString(text, MAX_READ)[..8] == "connect "
  }

  lemma TextAnnounced(text: string)
    requires |text| >= 8 && text[..8] == "connect "
    ensures Announced(text)
  {
    assert text == "connect " + text[8..];
    ReadPrefix("connect ", text[8..], MAX_READ, MAX_READ - 8);
  }

  lemma HeadStays(d: seq<byte>, c: int, u: string, d1: seq<byte>, c1: int, e: seq<byte>)
    requires Q3Packet(d, c, u) && EncryptFits(d, c, HEAD) && Encrypted(d, c, HEAD, d1, c1) && |u| < Q3_ROOM
    requires Got(d1, c1, e)
    ensures HEAD < c1 <= |e| && Announced(TextAt(e, c1))
  {
    var t := TextAt(e, c1);
    forall i | 0 <= i < 8 ensures t[i] == "connect "[i] {
      assert e[4 + i] == e[..c1][4 + i] == d1[..c1][4 + i] == d1[..HEAD][4 + i] == d[..HEAD][4 + i];
      assert TextAt(d, c)[i] == Q3Line(u)[i];
    }
    TextAnnounced(t);
  }

  /** A Q3 connect packet, encrypted at one proxy, is recognised and decrypted at the next,
      and the userinfo read out of it is the one that was printed, cut to the buffer. */
  lemma PacketArrives(d: seq<byte>, c: int, u: string, d1: seq<byte>, c1: int,
                      e: seq<byte>, max: int, d2: seq<byte>, c2: int)
    requires Clear(u) && |u| < Q3_ROOM && Q3Packet(d, c, u)
    requires EncryptFits(d, c, HEAD) && Encrypted(d, c, HEAD, d1, c1)
    requires Got(d1, c1, e) && c <= max <= |e|
    ensures 4 <= c1 && Announced(TextAt(e, c1)) && DecryptFits(e, c1, max, HEAD)
    ensures Decrypted(e, c1, max, HEAD, d2, c2) ==>
      4 <= c2 <= |d2| && ReceivedQ3(TextAt(d2, c2)) == Fit(u, MAX_INFO_STRING)
  {
    HeadStays(d, c, u, d1, c1, e);
    DecryptUndoesEncrypt(d, c, max, HEAD, d1, c1, e, d2, c2);
    if Decrypted(e, c1, max, HEAD, d2, c2) {
      SameText(d, d2, c);
      TextRead(u, TextAt(d2, c2));
      LineArrives(u, TextAt(d2, c2));
    }
  }

  lemma SameText(d: seq<byte>, d2: seq<byte>, c: int)
    requires 4 <= c <= |d| && c <= |d2| && d2[..c] == d[..c]
    ensures TextAt(d2, c) == TextAt(d, c)
  {
    forall i | 0 <= i < c - 4 ensures TextAt(d2, c)[i] == TextAt(d, c)[i] {
      assert d2[..c][4 + i] == d[..c][4 + i];
    }
  }
}
