module Coding {
  /* The two codes of src/huff.c as functions on bits: the adaptive one, where both
     sides grow the same tree, and the one with a fixed tree. */

  import opened Bits
  import opened Frequencies
  import opened Lockstep
  import opened PathCode
  import opened WeightTree

  /** A tree with the sibling property. */
  type GoodTree = t: Tree | Inv(t) ghost witness (SeedInv(); Seed)

  // ----- the adaptive code

  ghost function Next(t: GoodTree, ch: byte): (u: GoodTree)
    ensures u == AddReference(t, ch)
  {
    AddReferenceInv(t, ch);
    AddReference(t, ch)
  }

  /** Huff_EmitByteDynamic: the code of the byte, or the escape and its eight bits. */
  ghost function Emit(t: GoodTree, ch: byte): (b: BitString) {
    if Has(t, ch) then Code(t, Find(t, ch)) else Code(t, |t| - 1) + HighFirst(ch, 8)
  }

  /** Huff_DecryptPacket reads one byte at bit `pos`. */
  ghost function Fetch(t: GoodTree, bits: BitString, pos: nat): (r: Fetched) {
    var w := Walk(t, 0, bits, pos);
    if w.Lost? then NoByte
    else if t[w.leaf].kind.Leaf? then Byte(t[w.leaf].kind.symbol, w.end)
    else if w.end + 8 > |bits| then NoByte
    else
      EightBits(bits[w.end..w.end + 8]);
      Byte(ValueOf(bits[w.end..w.end + 8]), w.end + 8)
  }

  ghost const Adaptive: Coder<GoodTree> :=
    Coder((t, ch) => Emit(t, ch), (t, bits, pos) => Fetch(t, bits, pos), (t, ch) => Next(t, ch))

  lemma EightBits(s: BitString)
    requires |s| == 8
    ensures ValueOf(s) < 256
  {
    assert Size(8) == 256;
    ValueFits(s);
  }

  lemma {:induction false} ValueFits(s: BitString)
    ensures ValueOf(s) < Size(|s|)
  {
    if s != [] { ValueFits(s[..|s| - 1]); }
  }

  lemma FetchEscape(t: GoodTree, ch: byte, h: BitString, bits: BitString, pos: nat)
    requires |h| == 8 && ValueOf(h) == ch
    requires Reads(bits, pos, Code(t, |t| - 1))
    requires Reads(bits, pos + |Code(t, |t| - 1)|, h)
    ensures Fetch(t, bits, pos) == Byte(ch, pos + |Code(t, |t| - 1)| + 8)
  {
    WalkCode(t, |t| - 1, bits, pos);
  }

  lemma EscapeValue(ch: byte)
    ensures ValueOf(HighFirst(ch, 8)) == ch
  {
    assert Size(8) == 256;
    HighFirstValue(ch, 8);
  }

  /** Reading back what was emitted. */
  lemma FetchEmit(t: GoodTree, ch: byte, bits: BitString, pos: nat)
    requires Reads(bits, pos, Emit(t, ch))
    ensures Fetch(t, bits, pos) == Byte(ch, pos + |Emit(t, ch)|)
  {
    if Has(t, ch) {
      WalkCode(t, Find(t, ch), bits, pos);
    } else {
      var h := HighFirst(ch, 8);
      Slices(bits, pos, Code(t, |t| - 1), h);
      EscapeValue(ch);
      FetchEscape(t, ch, h, bits, pos);
    }
  }

  lemma AdaptiveInverse()
    ensures Inverse(Adaptive)
  {
    forall t: GoodTree, ch: byte, bits: BitString, pos: nat | Reads(bits, pos, Adaptive.emit(t, ch))
      ensures Adaptive.fetch(t, bits, pos) == Byte(ch, pos + |Adaptive.emit(t, ch)|)
    {
      FetchEmit(t, ch, bits, pos);
    }
  }

  /** The bits of a message, coded with a tree that starts with no bytes. */
  ghost function AdaptiveBits(m: seq<byte>): BitString {
    SeedInv();
    Encode(Adaptive, Seed, m)
  }

  /** Decoding `n` bytes from bit 16 on. */
  ghost function AdaptiveDecode(bits: BitString, n: nat, last: nat): Decoded {
    SeedInv();
    Decode(Adaptive, Seed, bits, 16, n, last)
  }

  lemma AdaptiveRoundTrip(m: seq<byte>, bits: BitString, n: nat, last: nat)
    requires Reads(bits, 16, AdaptiveBits(m)) && n == |m|
    requires (16 + |AdaptiveBits(m)|) / 8 <= last
    ensures AdaptiveDecode(bits, n, last) == Message(m, 16 + |AdaptiveBits(m)|)
  {
    SeedInv();
    AdaptiveInverse();
    DecodeEncode(Adaptive, Seed, m, bits, 16, last);
  }

  /** Both sides know the tree: it has learned the bytes so far. */
  lemma {:induction false} AfterIsLearn(t: GoodTree, data: seq<byte>)
    ensures After(Adaptive, t, data) == Learn(t, data)
    decreases |data|
  {
    if data != [] { AfterIsLearn(Next(t, data[0]), data[1..]); }
  }

  /** The tree and the bits after the first `i` bytes of a message. */
  ghost function TreeAfter(m: seq<byte>, i: nat): GoodTree
    requires i <= |m|
  {
    SeedInv();
    Learn(Seed, m[..i])
  }

  ghost function BitsAfter(m: seq<byte>, i: nat): BitString
    requires i <= |m|
  {
    AdaptiveBits(m[..i])
  }

  lemma AdaptiveStart(m: seq<byte>)
    ensures TreeAfter(m, 0) == Seed && BitsAfter(m, 0) == [] && BitsAfter(m, |m|) == AdaptiveBits(m)
  {
    assert m[..|m|] == m;
  }

  /** One more byte of a message, for the side that encodes it. */
  lemma AdaptivePrefix(m: seq<byte>, i: nat)
    requires i < |m|
    ensures BitsAfter(m, i + 1) == BitsAfter(m, i) + Emit(TreeAfter(m, i), m[i])
    ensures TreeAfter(m, i + 1) == AddReference(TreeAfter(m, i), m[i])
    ensures |BitsAfter(m, i + 1)| <= |AdaptiveBits(m)|
  {
    SeedInv();
    EncodePrefix(Adaptive, Seed, m, i);
    AfterIsLearn(Seed, m[..i]);
    AfterIsLearn(Seed, m[..i + 1]);
  }

  /** Decoding `n` bytes with tree `t` from bit `pos` on. */
  ghost function DecodeFrom(t: GoodTree, bits: BitString, pos: nat, n: nat, last: nat): Decoded {
    Decode(Adaptive, t, bits, pos, n, last)
  }

  lemma DecodeStart(bits: BitString, n: nat, last: nat)
    ensures Inv(Seed)
    ensures AdaptiveDecode(bits, n, last) == Behind([], DecodeFrom(Seed, bits, 16, n, last))
  {
    SeedInv();
    var r := DecodeFrom(Seed, bits, 16, n, last);
    if r.Message? { assert [] + r.data == r.data; }
  }

  /** If bytes are still missing and bits are left, there is a byte to fetch. */
  lemma DecodeNext(r: Decoded, s: seq<byte>, t: GoodTree, bits: BitString, pos: nat, n: nat, last: nat)
    requires r.Message? && r == Behind(s, DecodeFrom(t, bits, pos, n, last))
    requires n > 0 && pos / 8 <= last
    ensures Fetch(t, bits, pos).Byte?
  {
    var d := DecodeFrom(t, bits, pos, n, last);
    if d.NoMessage? {} else {}
  }

  /** One more byte of a message, for the side that decodes it. */
  lemma DecodeOn(r: Decoded, s0: seq<byte>, s: seq<byte>, t: GoodTree, bits: BitString, pos: nat,
                 n0: nat, n: nat, last: nat, ch: byte, end: nat, u: GoodTree)
    requires r == Behind(s0, DecodeFrom(t, bits, pos, n0, last)) && n0 == n + 1 && pos / 8 <= last
    requires Fetch(t, bits, pos) == Byte(ch, end) && u == AddReference(t, ch) && s == s0 + [ch]
    ensures r == Behind(s, DecodeFrom(u, bits, end, n, last))
  {
    BehindBoth(s0, [ch], DecodeFrom(u, bits, end, n, last));
  }

  // ----- the first bits

  lemma FirstTree(x: byte)
    ensures Inv(Seed) && !Has(Seed, x)
    ensures var u := AddReference(Seed, x);
      Inv(u) && u == [Entry(1, Inner(1)), Entry(1, Leaf(x)), Entry(0, Nyt)]
  {
    SeedInv();
    AddReferenceInv(Seed, x);
    assert Seed[..0] == [];
  }

  lemma FirstCodes(u: Tree, x: byte)
    requires Inv(u) && u == [Entry(1, Inner(1)), Entry(1, Leaf(x)), Entry(0, Nyt)]
    ensures Code(u, 1) == [true] && Code(u, 2) == [false]
    ensures forall y: byte :: Has(u, y) <==> y == x
    ensures Has(u, x) ==> Find(u, x) == 1
  {
    assert u[1].kind == Leaf(x);
    assert Code(u, 0) == [] && Parent(u, 1) == 0 && Parent(u, 2) == 0;
    if Has(u, x) { FindIs(u, 1, x); }
  }

  lemma FirstEmit(x: byte, t: GoodTree)
    requires t == Seed
    ensures Emit(t, x) == HighFirst(x, 8)
  {
    FirstTree(x);
    assert Code(t, 0) == [];
  }

  lemma SecondEmit(x: byte, y: byte, u: GoodTree)
    requires u == [Entry(1, Inner(1)), Entry(1, Leaf(x)), Entry(0, Nyt)]
    ensures x == y ==> Emit(u, y) == [true]
    ensures x != y ==> Emit(u, y) == [false] + HighFirst(y, 8)
  {
    FirstCodes(u, x);
    assert u[1].kind == Leaf(x);
  }

  lemma BitsOfTwo(x: byte, y: byte, t: GoodTree, m: seq<byte>)
    requires t == Seed && m == [x, y]
    ensures AdaptiveBits([x]) == Emit(t, x) && AdaptiveBits(m) == Emit(t, x) + Emit(Next(t, x), y)
  {
    EncodeOne(Adaptive, t, x);
    EncodeOne(Adaptive, Next(t, x), y);
    assert m == [x] + [y];
    EncodeConcat(Adaptive, t, [x], [y]);
  }

  /** The first byte goes out as its eight bits, highest first; when it comes again, it costs a
      one, and another byte costs a zero and its own eight bits. */
  lemma FirstBits(x: byte, y: byte, m: seq<byte>)
    requires m == [x, y]
    ensures AdaptiveBits([x]) == HighFirst(x, 8)
    ensures x == y ==> AdaptiveBits(m) == HighFirst(x, 8) + [true]
    ensures x != y ==> AdaptiveBits(m) == HighFirst(x, 8) + ([false] + HighFirst(y, 8))
  {
    SeedInv();
    FirstTree(x);
    FirstEmit(x, Seed);
    SecondEmit(x, y, Next(Seed, x));
    BitsOfTwo(x, y, Seed, m);
  }

  // ----- how many bits

  /** While fewer than 10946 bytes have been seen, a byte costs at most 27 bits. */
  lemma EmitLength(t: GoodTree, ch: byte)
    requires t[0].weight < 10946
    ensures |Emit(t, ch)| <= 27
  {
    if Has(t, ch) { ShortCodes(t, Find(t, ch)); } else { ShortCodes(t, |t| - 1); }
  }

  /** How long a code can be at most while `w` bytes have been seen, for up to 1596. */
  function Depth(w: nat): nat {
    if w < 377 then 12 else if w < 610 then 13 else if w < 987 then 14 else 15
  }

  function Depths(n: nat): nat {
    if n == 0 then 0 else Depths(n - 1) + Depth(n - 1)
  }

  lemma {:induction false} DepthsIs(n: nat)
    ensures Depths(n) == if n <= 377 then 12 * n else if n <= 610 then 13 * n - 377
                         else if n <= 987 then 14 * n - 987 else 15 * n - 1974
  {
    if n > 0 { DepthsIs(n - 1); }
  }

  lemma CodeDepth(t: Tree, m: nat)
    requires Inv(t) && m < |t| && t[0].weight < 1597
    ensures |Code(t, m)| <= Depth(t[0].weight)
  {
    if |t| >= 3 {
      if m == |t| - 1 { EscapeIsLogarithmic(t); } else { CodeIsLogarithmic(t, m); }
      var k := |Code(t, m)| + 1;
      SmallFibs();
      if k >= 17 { FibMonotone(17, k); }
      else if k >= 16 { FibMonotone(16, k); }
      else if k >= 15 { FibMonotone(15, k); }
      else if k >= 14 { FibMonotone(14, k); }
    }
  }

  lemma SmallFibs()
    ensures Fib(14) == 377 && Fib(15) == 610 && Fib(16) == 987 && Fib(17) == 1597
  {
    assert Fib(5) == 5 && Fib(6) == 8;
    assert Fib(9) == 34 && Fib(10) == 55;
    assert Fib(12) == 144 && Fib(13) == 233;
  }

  function Distinct(m: seq<byte>): set<nat> {
    set i: nat | i < |m| :: m[i] as nat
  }

  /** A byte costs its code, and eight bits more when it is new. */
  lemma {:induction false} AdaptiveSize(m: seq<byte>)
    requires |m| <= 1597
    ensures |AdaptiveBits(m)| <= Depths(|m|) + 8 * |Distinct(m)|
    decreases |m|
  {
    if m == [] {
      AdaptiveStart(m);
    } else {
      var n := |m| - 1;
      var m0, ch := m[..n], m[n];
      assert m == m0 + [ch];
      AdaptiveSize(m0);
      EmitCost(m, n, m0, ch);
      DistinctStep(m, m0, ch);
    }
  }

  lemma EmitCost(m: seq<byte>, n: nat, m0: seq<byte>, ch: byte)
    requires |m| == n + 1 <= 1597 && m0 == m[..n] && ch == m[n]
    ensures |AdaptiveBits(m)| <= |AdaptiveBits(m0)| + Depth(n) + if ch in m0 then 0 else 8
  {
    AdaptiveStart(m);
    AdaptivePrefix(m, n);
    SiblingPropertyAlways(m0);
    EmitDepth(TreeAfter(m, n), ch);
  }

  lemma EmitDepth(t: GoodTree, ch: byte)
    requires t[0].weight < 1597
    ensures |Emit(t, ch)| <= Depth(t[0].weight) + if Has(t, ch) then 0 else 8
  {
    if Has(t, ch) { CodeDepth(t, Find(t, ch)); } else { CodeDepth(t, |t| - 1); }
  }

  lemma DistinctStep(m: seq<byte>, m0: seq<byte>, ch: byte)
    requires m == m0 + [ch]
    ensures |Distinct(m)| == |Distinct(m0)| + if ch in m0 then 0 else 1
  {
    var a, b := Distinct(m), Distinct(m0);
    forall x ensures x in a <==> x in b + {ch as nat} {
      if x in b { var i: nat :| i < |m0| && m0[i] as nat == x; assert m[i] == m0[i]; }
      if x == ch { assert m[|m0|] == ch; }
    }
    assert a == b + {ch as nat};
    assert ch in m0 <==> ch as nat in b;
  }

  lemma AtMost256(m: seq<byte>)
    ensures |Distinct(m)| <= 256
  {
    SubsetSize(Distinct(m), FirstNumbers(256));
  }

  lemma AdaptiveCheap(seen: GoodTree -> nat)
    requires forall t: GoodTree :: seen(t) == t[0].weight
    ensures Cheap(Adaptive, seen, 10946, 27)
  {
    forall t: GoodTree, ch: byte | seen(t) < 10946
      ensures |Adaptive.emit(t, ch)| <= 27 && seen(Adaptive.next(t, ch)) <= seen(t) + 1
    {
      EmitLength(t, ch);
      AddReferenceCount(t, ch, ch);
    }
  }

  /** A message of fewer than 10946 bytes costs at most 27 bits a byte. */
  lemma EncodedSize(data: seq<byte>)
    requires |data| <= 10946
    ensures |AdaptiveBits(data)| <= 27 * |data|
  {
    SeedInv();
    var seen := (t: GoodTree) => t[0].weight;
    AdaptiveCheap(seen);
    EncodeBound(Adaptive, Seed, data, seen, 10946, 27);
  }

  /** A byte can be fetched if 27 bits follow. */
  lemma FetchInside(t: GoodTree, bits: BitString, pos: nat)
    requires t[0].weight < 10946 && pos + 27 <= |bits|
    ensures Fetch(t, bits, pos).Byte?
  {
    forall m | 0 <= m < |t| ensures |Code(t, m)| <= 19 {
      ShortCodes(t, m);
    }
    WalkArrives(t, 0, bits, pos, 19);
  }

  lemma AdaptiveFetchable(seen: GoodTree -> nat)
    requires forall t: GoodTree :: seen(t) == t[0].weight
    ensures Fetchable(Adaptive, seen, 10946, 27)
  {
    forall t: GoodTree, bits: BitString, pos: nat | seen(t) < 10946 && pos + 27 <= |bits|
      ensures Adaptive.fetch(t, bits, pos).Byte?
    {
      FetchInside(t, bits, pos);
    }
    forall t: GoodTree, ch: byte ensures seen(Adaptive.next(t, ch)) <= seen(t) + 1 {
      AddReferenceCount(t, ch, ch);
    }
  }

  /** Whatever bits are decoded, 34 of them beyond byte `last` are enough. */
  lemma AdaptiveStaysInside(bits: BitString, n: nat, last: nat)
    requires n <= 10946 && 8 * last + 34 <= |bits|
    ensures AdaptiveDecode(bits, n, last).Message?
  {
    SeedInv();
    var seen := (t: GoodTree) => t[0].weight;
    AdaptiveFetchable(seen);
    DecodeStaysInside(Adaptive, Seed, bits, 16, n, last, seen, 10946, 27);
  }

  // ----- the code with a fixed tree

  ghost predicate KnowsAll(t: Tree) {
    forall s: nat :: s < 256 ==> Has(t, s)
  }

  /** A tree that has a leaf for every byte. */
  type FullTree = t: Tree | Inv(t) && KnowsAll(t) ghost witness (SomeFullTree())

  ghost function SomeFullTree(): (t: Tree)
    ensures Inv(t) && KnowsAll(t)
  {
    SeedInv();
    LearnsAll(AllBytes());
    Learn(Seed, AllBytes())
  }

  function AllBytes(): (s: seq<nat>)
    ensures forall b: nat :: b < 256 ==> b in s
    ensures forall i :: 0 <= i < |s| ==> s[i] < 256
  {
    var s := seq(256, i => i);
    assert forall b: nat {:trigger b in s} :: b < 256 ==> s[b] == b;
    s
  }

  /** Positive counts for all bytes give every byte a leaf. */
  lemma LearnsAll(data: seq<nat>)
    requires forall i :: 0 <= i < |data| ==> data[i] < 256
    requires forall s: nat :: s < 256 ==> s in data
    ensures Inv(Seed) && KnowsAll(Learn(Seed, data))
  {
    SiblingPropertyAlways(data);
  }

  /** Huff_GetByte: the not-yet-transmitted leaf is stored as zero. */
  ghost function FetchPath(t: FullTree, bits: BitString, pos: nat): (r: Fetched)
    ensures r.Byte? ==> r.end > pos
  {
    RootIsInner(t);
    var w := Walk(t, 0, bits, pos);
    if w.Lost? then NoByte
    else Byte(if t[w.leaf].kind.Leaf? then t[w.leaf].kind.symbol else 0, w.end)
  }

  ghost const Static: Coder<FullTree> :=
    Coder((t, ch) => Code(t, Find(t, ch)), (t, bits, pos) => FetchPath(t, bits, pos), (t, ch) => t)

  lemma RootIsInner(t: FullTree)
    ensures |t| >= 3 && t[0].kind.Inner?
  {
    assert Has(t, 0) && Has(t, 1);
    assert Parent(t, 1) == 0;
  }

  lemma StaticInverse()
    ensures Inverse(Static) && Advances(Static)
  {
    forall t: FullTree, ch: byte, bits: BitString, pos: nat | Reads(bits, pos, Static.emit(t, ch))
      ensures Static.fetch(t, bits, pos) == Byte(ch, pos + |Static.emit(t, ch)|)
    {
      WalkCode(t, Find(t, ch), bits, pos);
    }
  }

  ghost function StaticBits(t: FullTree, m: seq<byte>): BitString {
    Encode(Static, t, m)
  }

  /** Decoding until bit `end` is reached. */
  ghost function StaticDecode(t: FullTree, bits: BitString, end: int): Decoded {
    StaticInverse();
    DecodeUntil(Static, t, bits, 0, end)
  }

  lemma StaticRoundTrip(t: FullTree, m: seq<byte>, bits: BitString, end: int)
    requires Reads(bits, 0, StaticBits(t, m)) && end == |StaticBits(t, m)|
    ensures StaticDecode(t, bits, end) == Message(m, end)
  {
    StaticInverse();
    UntilEncode(Static, t, m, bits, 0);
  }

  /** Whatever bits are decoded, 255 of them beyond the end are enough. */
  lemma StaticStaysInside(t: FullTree, bits: BitString, end: int)
    requires end + 255 <= |bits|
    ensures StaticDecode(t, bits, end).Message?
  {
    StaticInverse();
    forall u: FullTree, p: nat | p + 256 <= |bits| ensures Static.fetch(u, bits, p).Byte? {
      ShallowWalk(u, bits, p);
    }
    UntilStaysInside(Static, t, bits, 0, end, 256);
  }

  lemma ShallowWalk(t: FullTree, bits: BitString, pos: nat)
    requires pos + 256 <= |bits|
    ensures FetchPath(t, bits, pos).Byte?
  {
    TreeSize(t);
    forall m | 0 <= m < |t| ensures |Code(t, m)| <= 256 {
      CodeLength(t, m);
    }
    WalkArrives(t, 0, bits, pos, 256);
  }

  /** The bits after the first `i` bytes of a message. */
  ghost function PathsAfter(t: FullTree, m: seq<byte>, i: nat): BitString
    requires i <= |m|
  {
    StaticBits(t, m[..i])
  }

  /** One more byte of a message, for the side that encodes it. */
  lemma StaticPrefix(t: FullTree, m: seq<byte>, i: nat)
    requires i < |m|
    ensures PathsAfter(t, m, i + 1) == PathsAfter(t, m, i) + Code(t, Find(t, m[i]))
    ensures |PathsAfter(t, m, i + 1)| <= |StaticBits(t, m)|
  {
    EncodePrefix(Static, t, m, i);
    StaticStays(t, m[..i]);
  }

  lemma StaticSnoc(t: FullTree, m: seq<byte>, ch: byte)
    ensures StaticBits(t, m + [ch]) == StaticBits(t, m) + Code(t, Find(t, ch))
  {
    EncodeConcat(Static, t, m, [ch]);
    StaticStays(t, m);
    EncodeOne(Static, t, ch);
  }

  lemma StaticStart(t: FullTree, m: seq<byte>)
    ensures PathsAfter(t, m, 0) == [] && PathsAfter(t, m, |m|) == StaticBits(t, m)
  {
    assert m[..|m|] == m;
  }

  lemma {:induction false} StaticStays(t: FullTree, m: seq<byte>)
    ensures After(Static, t, m) == t
    decreases |m|
  {
    if m != [] { StaticStays(t, m[1..]); }
  }

  /** Decoding from bit `pos` until bit `end` is reached. */
  ghost function StaticFrom(t: FullTree, bits: BitString, pos: nat, end: int): Decoded {
    StaticInverse();
    DecodeUntil(Static, t, bits, pos, end)
  }

  lemma StaticFromStart(t: FullTree, bits: BitString, end: int)
    ensures StaticDecode(t, bits, end) == Behind([], StaticFrom(t, bits, 0, end))
  {
    var r := StaticFrom(t, bits, 0, end);
    if r.Message? { assert [] + r.data == r.data; }
  }

  /** One more byte of a message, for the side that decodes it. */
  lemma StaticOn(r: Decoded, s0: seq<byte>, s: seq<byte>, t: FullTree, bits: BitString, pos: nat, end: int,
                 ch: byte, next: nat)
    requires r == Behind(s0, StaticFrom(t, bits, pos, end)) && pos < end
    requires FetchPath(t, bits, pos) == Byte(ch, next) && s == s0 + [ch]
    ensures r == Behind(s, StaticFrom(t, bits, next, end))
  {
    StaticInverse();
    BehindBoth(s0, [ch], StaticFrom(t, bits, next, end));
  }

  /** If bits are left, there are bytes to come. */
  lemma StaticMore(r: Decoded, s: seq<byte>, t: FullTree, bits: BitString, pos: nat, end: int)
    requires r.Message? && r == Behind(s, StaticFrom(t, bits, pos, end)) && pos < end
    ensures |r.data| > |s|
  {
    StaticInverse();
  }

  /** If bits are left, there is a byte to fetch. */
  lemma StaticNext(r: Decoded, s: seq<byte>, t: FullTree, bits: BitString, pos: nat, end: int)
    requires r.Message? && r == Behind(s, StaticFrom(t, bits, pos, end)) && pos < end
    ensures FetchPath(t, bits, pos).Byte?
  {
    StaticInverse();
  }
}
