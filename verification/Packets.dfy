module Packets {
  /* What the four packet operations of src/huff.c do to a message buffer, and that
     decoding undoes encoding.  Bytes the program leaves arbitrary are left open. */

  import opened Bits
  import opened Coding
  import opened Lockstep
  import opened WeightTree

  const MAX_HUFF_BUF_SIZE := 8256

  /** The memory from `offset` on as bits. */
  function Region(d: seq<byte>, offset: nat): BitString
    requires offset <= |d|
  {
    BitsOf(d[offset..], 8 * (|d| - offset))
  }

  /** The two memories agree outside the bytes from `lo` to `hi`. */
  ghost predicate SameOutside(d: seq<byte>, d2: seq<byte>, lo: int, hi: int) {
    |d2| == |d| && 0 <= lo <= hi <= |d| && d2[..lo] == d[..lo] && d2[hi..] == d[hi..]
  }

  /** The bytes from `offset` to `c`, if they are a message the encoders take. */
  ghost predicate Encodable(d: seq<byte>, c: int, offset: nat) {
    offset < c <= |d| && c - offset < MAX_HUFF_BUF_SIZE
  }

  // ----- the adaptive code

  /** Bytes of an encrypted message, the header included. */
  ghost function EncryptedSize(m: seq<byte>): nat {
    (16 + |AdaptiveBits(m)|) / 8 + 1
  }

  /** The encrypted message fits the scratch buffer and the memory of the message. */
  ghost predicate EncryptFits(d: seq<byte>, c: int, offset: nat) {
    Encodable(d, c, offset) ==>
      var n := EncryptedSize(d[offset..c]);
      n <= MAX_HUFF_BUF_SIZE && offset + n <= |d|
  }

  ghost predicate Encrypted(d: seq<byte>, c: int, offset: nat, d2: seq<byte>, c2: int) {
    if !Encodable(d, c, offset) then d2 == d && c2 == c
    else
      var m := d[offset..c];
      && c2 == offset + EncryptedSize(m)
      && SameOutside(d, d2, offset, c2)
      && d2[offset] == |m| / 256 && d2[offset + 1] == |m| % 256
      && Reads(Region(d2, offset), 16, AdaptiveBits(m))
  }

  /** The length in the header, cut to the room in the message. */
  function HeaderLength(d: seq<byte>, max: int, offset: nat): int
    requires offset + 2 <= |d|
  {
    var n: int := d[offset] as int * 256 + d[offset + 1];
    if n > max - offset then max - offset else n
  }

  /** What Huff_DecryptPacket reads. */
  ghost function Deciphered(d: seq<byte>, c: int, max: int, offset: nat): Decoded
    requires offset + 2 <= |d| && offset < c && offset <= max
  {
    AdaptiveDecode(Region(d, offset), HeaderLength(d, max, offset), c - offset)
  }

  /** The header can be read, the announced message fits the scratch buffer and the
      memory, and no bit is read behind the end of the memory. */
  ghost predicate DecryptFits(d: seq<byte>, c: int, max: int, offset: nat) {
    offset < c ==>
      && offset + 2 <= |d| && offset <= max <= |d|
      && HeaderLength(d, max, offset) <= MAX_HUFF_BUF_SIZE
      && Deciphered(d, c, max, offset).Message?
  }

  ghost predicate Decrypted(d: seq<byte>, c: int, max: int, offset: nat, d2: seq<byte>, c2: int)
    requires DecryptFits(d, c, max, offset)
  {
    if c <= offset then d2 == d && c2 == c
    else
      var r := Deciphered(d, c, max, offset).data;
      && c2 == offset + HeaderLength(d, max, offset)
      && SameOutside(d, d2, offset, c2)
      && offset + |r| <= c2
      && d2[offset..offset + |r|] == r
      && (offset + |r| < c2 ==> d2[offset + |r|] == 0)
  }

  /** The memory of a receiver, which got the first `c1` bytes. */
  ghost predicate Got(d1: seq<byte>, c1: int, e: seq<byte>) {
    0 <= c1 <= |d1| && c1 <= |e| && e[..c1] == d1[..c1]
  }

  lemma GotBits(d1: seq<byte>, c1: int, e: seq<byte>, offset: nat, pos: nat, bits: BitString)
    requires Got(d1, c1, e) && offset <= c1 && pos + |bits| <= 8 * (c1 - offset)
    requires Reads(Region(d1, offset), pos, bits)
    ensures Reads(Region(e, offset), pos, bits)
  {
    var n := pos + |bits|;
    assert forall i :: offset <= i < c1 ==> d1[i] == d1[..c1][i] == e[..c1][i] == e[i];
    SameBits(d1[offset..], e[offset..], n);
    assert forall p :: 0 <= p < n ==> Region(d1, offset)[p] == Region(e, offset)[p];
  }

  lemma HeaderOfEncrypted(d: seq<byte>, c: int, max: int, offset: nat, d1: seq<byte>, c1: int, e: seq<byte>)
    requires EncryptFits(d, c, offset) && Encrypted(d, c, offset, d1, c1) && Got(d1, c1, e)
    requires Encodable(d, c, offset) && c <= max
    ensures offset + 2 <= |e| && offset < c1 && HeaderLength(e, max, offset) == c - offset
    ensures c1 - offset == EncryptedSize(d[offset..c])
    ensures Reads(Region(e, offset), 16, AdaptiveBits(d[offset..c]))
  {
    assert e[offset] == e[..c1][offset] && e[offset + 1] == e[..c1][offset + 1];
    GotBits(d1, c1, e, offset, 16, AdaptiveBits(d[offset..c]));
  }

  lemma DecipherEncrypted(d: seq<byte>, c: int, max: int, offset: nat, d1: seq<byte>, c1: int, e: seq<byte>)
    requires EncryptFits(d, c, offset) && Encrypted(d, c, offset, d1, c1) && Got(d1, c1, e)
    requires Encodable(d, c, offset) && c <= max
    ensures offset + 2 <= |e| && offset < c1
    ensures Deciphered(e, c1, max, offset)
         == Message(d[offset..c], 16 + |AdaptiveBits(d[offset..c])|)
  {
    HeaderOfEncrypted(d, c, max, offset, d1, c1, e);
    DecipherMessage(d[offset..c], e, c1, max, offset);
  }

  lemma DecipherMessage(m: seq<byte>, e: seq<byte>, c1: int, max: int, offset: nat)
    requires offset + 2 <= |e| && offset < c1 && offset <= max && HeaderLength(e, max, offset) == |m|
    requires Reads(Region(e, offset), 16, AdaptiveBits(m)) && c1 - offset == EncryptedSize(m)
    ensures Deciphered(e, c1, max, offset) == Message(m, 16 + |AdaptiveBits(m)|)
  {
    var n, last, bits := |m|, c1 - offset, Region(e, offset);
    AdaptiveRoundTrip(m, bits, n, last);
    DecipherIs(e, c1, max, offset, n, last, bits);
  }

  lemma DecipherIs(e: seq<byte>, c1: int, max: int, offset: nat, n: nat, last: nat, bits: BitString)
    requires offset + 2 <= |e| && offset < c1 && offset <= max && bits == Region(e, offset)
    requires n == HeaderLength(e, max, offset) && last == c1 - offset
    ensures Deciphered(e, c1, max, offset) == AdaptiveDecode(bits, n, last)
  {
  }

  /** The message is back, with its length. */
  ghost predicate Restored(d: seq<byte>, c: int, d2: seq<byte>, c2: int)
    requires c <= |d| && c <= |d2|
  {
    c2 == c && (0 <= c ==> d2[..c] == d[..c])
  }

  /** An encrypted message can be decrypted. */
  lemma EncryptedFits(d: seq<byte>, c: int, max: int, offset: nat, d1: seq<byte>, c1: int, e: seq<byte>)
    requires offset <= max && c <= max <= |e| && c <= |d| && c - offset < MAX_HUFF_BUF_SIZE
    requires EncryptFits(d, c, offset) && Encrypted(d, c, offset, d1, c1) && Got(d1, c1, e)
    ensures DecryptFits(e, c1, max, offset)
  {
    if offset < c {
      HeaderOfEncrypted(d, c, max, offset, d1, c1, e);
      DecipherEncrypted(d, c, max, offset, d1, c1, e);
    }
  }

  lemma SamePrefix(d: seq<byte>, d1: seq<byte>, d2: seq<byte>, offset: nat, c: nat, c1: int, c2: int)
    requires offset <= c <= |d| && SameOutside(d, d1, offset, c1) && SameOutside(d1, d2, offset, c2)
    requires d2[offset..c] == d[offset..c]
    ensures d2[..c] == d[..c]
  {
    assert d2[..c] == d2[..offset] + d2[offset..c];
    assert d[..c] == d[..offset] + d[offset..c];
  }

  lemma GotPrefix(d: seq<byte>, d1: seq<byte>, e: seq<byte>, d2: seq<byte>, offset: nat, c: nat, c1: int, c2: int)
    requires offset <= c <= |d| && offset <= c1 && SameOutside(d, d1, offset, c1) && Got(d1, c1, e)
    requires SameOutside(e, d2, offset, c2) && c <= |e| && d2[offset..c] == d[offset..c]
    ensures d2[..c] == d[..c]
  {
    assert d1[..c1][..offset] == d1[..offset] && e[..c1][..offset] == e[..offset];
    assert d2[..c] == d2[..offset] + d2[offset..c];
    assert d[..c] == d[..offset] + d[offset..c];
  }

  /** Adaptive round trip: the message comes back with its length, in any memory that got
      the encrypted bytes. */
  lemma DecryptUndoesEncrypt(d: seq<byte>, c: int, max: int, offset: nat,
                             d1: seq<byte>, c1: int, e: seq<byte>, d2: seq<byte>, c2: int)
    requires offset <= max && c <= max <= |e| && c <= |d| && c - offset < MAX_HUFF_BUF_SIZE
    requires EncryptFits(d, c, offset) && Encrypted(d, c, offset, d1, c1) && Got(d1, c1, e)
    ensures DecryptFits(e, c1, max, offset)
    ensures Decrypted(e, c1, max, offset, d2, c2) ==> |d2| == |e| && Restored(d, c, d2, c2)
  {
    EncryptedFits(d, c, max, offset, d1, c1, e);
    if Decrypted(e, c1, max, offset, d2, c2) && offset < c {
      HeaderOfEncrypted(d, c, max, offset, d1, c1, e);
      DecipherEncrypted(d, c, max, offset, d1, c1, e);
      GotPrefix(d, d1, e, d2, offset, c, c1, c2);
    }
  }

  /** Every message that fits has an encrypted form. */
  lemma EncryptedForm(d: seq<byte>, c: int, offset: nat) returns (d1: seq<byte>, c1: int)
    requires EncryptFits(d, c, offset)
    ensures Encrypted(d, c, offset, d1, c1)
  {
    if !Encodable(d, c, offset) {
      d1, c1 := d, c;
    } else {
      var m, b, k := d[offset..c], offset + 1, offset + 2;
      c1 := offset + EncryptedSize(m);
      var h := d[offset := |m| / 256];
      d1 := WrittenForm(h, b, c1, |m| % 256, AdaptiveBits(m));
      HeaderOutside(d, h, d1, offset, b, c1);
      LaterRegion(d1, offset, k, AdaptiveBits(m));
    }
  }

  lemma HeaderOutside(d: seq<byte>, h: seq<byte>, d1: seq<byte>, offset: nat, b: nat, c1: int)
    requires b == offset + 1 <= c1 <= |d| && |h| == |d| && h == d[offset := h[offset]] && SameOutside(h, d1, b, c1)
    ensures SameOutside(d, d1, offset, c1) && d1[offset] == h[offset]
  {
    assert d1[..b][offset] == h[..b][offset];
    assert d1[..offset] == d1[..b][..offset] && h[..b][..offset] == d[..offset];
  }

  lemma LaterRegion(d: seq<byte>, offset: nat, k: nat, bits: BitString)
    requires k == offset + 2 <= |d| && Reads(Region(d, k), 0, bits)
    ensures Reads(Region(d, offset), 16, bits)
  {
    forall p | 0 <= p < |bits| ensures Region(d, offset)[16 + p] == bits[p] {
      assert Region(d, k)[0..|bits|][p] == Region(d, k)[p];
    }
  }

  /** A longer message than the encoder takes is sent as it is, and decrypting that cuts it
      short, unless it has 8256 bytes and begins like the header of such a message. */
  lemma LongMessageIsCut(d: seq<byte>, c: int, max: int, offset: nat, d1: seq<byte>, c1: int, d2: seq<byte>, c2: int)
    requires c - offset >= MAX_HUFF_BUF_SIZE && c <= max <= |d|
    requires Encrypted(d, c, offset, d1, c1)
    requires DecryptFits(d1, c1, max, offset) && Decrypted(d1, c1, max, offset, d2, c2)
    ensures c2 <= c
    ensures c2 == c <==> c - offset == MAX_HUFF_BUF_SIZE == HeaderLength(d, max, offset)
  {
  }

  /** Whatever bytes arrive, five bytes of memory behind them are enough to decrypt. */
  lemma DecryptStaysInside(d: seq<byte>, c: int, max: int, offset: nat)
    requires offset < c && offset + 2 <= |d| && offset <= max <= |d| && c + 5 <= |d|
    requires HeaderLength(d, max, offset) <= MAX_HUFF_BUF_SIZE
    ensures DecryptFits(d, c, max, offset)
  {
    AdaptiveStaysInside(Region(d, offset), HeaderLength(d, max, offset), c - offset);
  }

  /** Messages of up to 2445 bytes always fit the scratch buffer. */
  lemma EncryptAlwaysFits(m: seq<byte>)
    requires |m| <= 2445
    ensures EncryptedSize(m) <= MAX_HUFF_BUF_SIZE
  {
    EncodedSize(m);
  }

  /** Messages of up to 1079 bytes even fit 2036 bytes: codes are short at first, and each of
      the 256 bytes is new only once. */
  lemma EncryptShortFits(m: seq<byte>)
    requires |m| <= 1079
    ensures EncryptedSize(m) <= 2036
  {
    AdaptiveSize(m);
    AtMost256(m);
    DepthsIs(|m|);
  }

  /** The packet of a single byte: the length, high byte first, and the bits of the byte in
      reverse order, for bits go out highest first and fill each byte from its lowest bit. */
  lemma OneByteOnWire(d: seq<byte>, c: int, offset: nat, d2: seq<byte>, c2: int)
    requires c == offset + 1 <= |d| && EncryptFits(d, c, offset) && Encrypted(d, c, offset, d2, c2)
    ensures c2 == offset + 4 && d2[offset] == 0 && d2[offset + 1] == 1
    ensures BitsOf([d2[offset + 2]], 8) == HighFirst(d[offset], 8)
  {
    var x, r, b := d[offset], Region(d2, offset), d2[offset + 2];
    assert d[offset..c] == [x];
    FirstBits(x, x, [x, x]);
    forall k | 0 <= k < 8 ensures BitsOf([b], 8)[k] == HighFirst(x, 8)[k] {
      assert r[16..24][k] == r[16 + k] == BitAt(d2[offset..], 16 + k);
    }
  }

  // ----- the code with a fixed tree

  /** Bytes of the coded form, without the byte in front. */
  ghost function CodedSize(t: FullTree, m: seq<byte>): nat {
    |StaticBits(t, m)| / 8 + 1
  }

  /** Coding would make the message longer, so it is sent as it is. */
  ghost predicate GoesRaw(t: FullTree, m: seq<byte>) {
    CodedSize(t, m) > |m|
  }

  ghost predicate CompressFits(t: FullTree, d: seq<byte>, c: int, offset: nat) {
    Encodable(d, c, offset) ==>
      |StaticBits(t, d[offset..c])| <= 8 * MAX_HUFF_BUF_SIZE && c + 1 <= |d|
  }

  /** The coded form is longer than the message may be: a fatal error. */
  ghost predicate CompressFails(t: FullTree, d: seq<byte>, c: int, max: int, offset: nat) {
    Encodable(d, c, offset) && !GoesRaw(t, d[offset..c]) && offset + CodedSize(t, d[offset..c]) + 1 > max
  }

  ghost predicate Compressed(t: FullTree, d: seq<byte>, c: int, offset: nat, d2: seq<byte>, c2: int) {
    if !Encodable(d, c, offset) then d2 == d && c2 == c
    else
      var m := d[offset..c];
      if GoesRaw(t, m) then
        && c2 == c + 1
        && SameOutside(d, d2, offset, c2)
        && d2[offset] == 0x80 && d2[offset + 1..c2] == m
      else
        && c2 == offset + CodedSize(t, m) + 1
        && SameOutside(d, d2, offset, c2)
        && d2[offset] == 8 * CodedSize(t, m) - |StaticBits(t, m)|
        && Reads(Region(d2, offset + 1), 0, StaticBits(t, m))
  }

  /** The number of bits that the coded form says it has. */
  function BitCount(d: seq<byte>, c: int, offset: nat): int
    requires offset < |d|
  {
    8 * (c - offset) - 8 - d[offset]
  }

  ghost function Expanded(t: FullTree, d: seq<byte>, c: int, offset: nat): Decoded
    requires offset < |d|
  {
    StaticDecode(t, Region(d, offset + 1), BitCount(d, c, offset))
  }

  /** The raw form is moved together with the bytes behind it, as many as lie before it;
      the coded form must not be read behind the end of the memory. */
  ghost predicate DecompressFits(t: FullTree, d: seq<byte>, c: int, max: int, offset: nat) {
    Encodable(d, c, offset) ==>
      if d[offset] >= 0x80 then offset + c <= |d|
      else max <= |d| && Expanded(t, d, c, offset).Message?
  }

  /** More bytes than the scratch buffer or the message hold: a fatal error. */
  ghost predicate DecompressFails(t: FullTree, d: seq<byte>, c: int, max: int, offset: nat)
    requires DecompressFits(t, d, c, max, offset)
  {
    Encodable(d, c, offset) && d[offset] < 0x80 &&
    var n := |Expanded(t, d, c, offset).data|;
    n > MAX_HUFF_BUF_SIZE || offset + n > max
  }

  ghost predicate Decompressed(t: FullTree, d: seq<byte>, c: int, max: int, offset: nat, d2: seq<byte>, c2: int)
    requires DecompressFits(t, d, c, max, offset)
  {
    if !Encodable(d, c, offset) then d2 == d && c2 == c
    else if d[offset] >= 0x80 then
      && c2 == c - 1
      && SameOutside(d, d2, offset, offset + c2)
      && d2[offset..offset + c2] == d[offset + 1..offset + 1 + c2]
    else
      var r := Expanded(t, d, c, offset).data;
      && c2 == offset + |r|
      && SameOutside(d, d2, offset, c2)
      && d2[offset..c2] == r
  }

  /** Whatever bytes arrive, 32 bytes of memory behind them are enough to decompress. */
  lemma DecompressStaysInside(t: FullTree, d: seq<byte>, c: int, max: int, offset: nat)
    requires c + 32 <= |d| && offset + c <= |d| && max <= |d|
    ensures DecompressFits(t, d, c, max, offset)
  {
    if Encodable(d, c, offset) {
      StaticStaysInside(t, Region(d, offset + 1), BitCount(d, c, offset));
    }
  }

  /** Compressing never lengthens a message by more than one byte, and is the fatal error exactly
      when a coded form would be longer than the message may be. */
  lemma CompressedLength(t: FullTree, d: seq<byte>, c: int, max: int, offset: nat, d1: seq<byte>, c1: int)
    requires Encodable(d, c, offset) && CompressFits(t, d, c, offset) && Compressed(t, d, c, offset, d1, c1)
    ensures var n := |StaticBits(t, d[offset..c])| / 8 + 1;
      c1 == 1 + (if n < c - offset then offset + n else c)
      && (CompressFails(t, d, c, max, offset) <==> n <= c - offset && c1 > max)
  {
  }

  /** What is decrypted is never longer than the message may be. */
  lemma DecryptedLength(d: seq<byte>, c: int, max: int, offset: nat, d2: seq<byte>, c2: int)
    requires DecryptFits(d, c, max, offset) && Decrypted(d, c, max, offset, d2, c2) && offset < c
    ensures var n := d[offset] as int * 256 + d[offset + 1];
      c2 == if offset + n <= max then offset + n else max
  {
  }

  /** The pad count lies between 1 and 8, so it is never taken for the raw mark. */
  lemma PadCount(t: FullTree, m: seq<byte>)
    ensures 1 <= 8 * CodedSize(t, m) - |StaticBits(t, m)| <= 8
  {
  }

  /** Every message that fits has a compressed form. */
  lemma CompressedForm(t: FullTree, d: seq<byte>, c: int, offset: nat) returns (d1: seq<byte>, c1: int)
    requires CompressFits(t, d, c, offset)
    ensures Compressed(t, d, c, offset, d1, c1)
  {
    if !Encodable(d, c, offset) {
      d1, c1 := d, c;
    } else if GoesRaw(t, d[offset..c]) {
      c1 := c + 1;
      d1 := d[..offset] + [0x80] + d[offset..c] + d[c1..];
    } else {
      var m := d[offset..c];
      c1 := offset + CodedSize(t, m) + 1;
      PadCount(t, m);
      d1 := WrittenForm(d, offset, c1, 8 * CodedSize(t, m) - |StaticBits(t, m)|, StaticBits(t, m));
    }
  }

  lemma WrittenForm(d: seq<byte>, offset: nat, c1: int, pad: byte, bits: BitString) returns (d1: seq<byte>)
    requires offset < c1 <= |d| && |bits| <= 8 * (c1 - offset - 1)
    ensures SameOutside(d, d1, offset, c1) && d1[offset] == pad && Reads(Region(d1, offset + 1), 0, bits)
  {
    var b := offset + 1;
    var p := Packed(d[b..c1], bits);
    d1 := d[..offset] + [pad] + p + d[c1..];
    PackedBits(d[b..c1], bits);
    assert d1[b..] == p + d[c1..];
    SameBits(p, d1[b..], |bits|);
    assert Region(d1, b)[0..|bits|] == BitsOf(d1[b..], |bits|);
  }

  lemma ExpandCompressed(t: FullTree, d: seq<byte>, c: int, offset: nat, d1: seq<byte>, c1: int)
    requires Compressed(t, d, c, offset, d1, c1)
    requires Encodable(d, c, offset) && !GoesRaw(t, d[offset..c]) && c + 1 <= |d|
    ensures offset < |d1| && d1[offset] < 0x80
    ensures Expanded(t, d1, c1, offset) == Message(d[offset..c], |StaticBits(t, d[offset..c])|)
  {
    StaticRoundTrip(t, d[offset..c], Region(d1, offset + 1), BitCount(d1, c1, offset));
  }

  /** The compressed form has as many bytes as the scratch buffer, so that
      Huff_DecompressPacket does not touch it. */
  ghost predicate TooLongForDecompress(t: FullTree, d: seq<byte>, c: int, offset: nat) {
    offset < c <= |d| && c - offset == MAX_HUFF_BUF_SIZE - 1 && CodedSize(t, d[offset..c]) >= c - offset
  }

  lemma RawRoundTrip(t: FullTree, d: seq<byte>, c: int, max: int, offset: nat,
                     d1: seq<byte>, c1: int, d2: seq<byte>, c2: int)
    requires Encodable(d, c, offset) && GoesRaw(t, d[offset..c]) && c1 - offset < MAX_HUFF_BUF_SIZE
    requires Compressed(t, d, c, offset, d1, c1)
    requires DecompressFits(t, d1, c1, max, offset) && Decompressed(t, d1, c1, max, offset, d2, c2)
    ensures |d2| == |d| && Restored(d, c, d2, c2)
  {
    assert d1[offset + 1..offset + 1 + c][..c - offset] == d1[offset + 1..c1];
    assert d2[offset..c] == d2[offset..offset + c][..c - offset];
    SamePrefix(d, d1, d2, offset, c, c1, offset + c2);
  }

  lemma CodedRoundTrip(t: FullTree, d: seq<byte>, c: int, max: int, offset: nat,
                       d1: seq<byte>, c1: int, d2: seq<byte>, c2: int)
    requires Encodable(d, c, offset) && !GoesRaw(t, d[offset..c]) && c1 - offset < MAX_HUFF_BUF_SIZE
    requires c + 1 <= |d| && Compressed(t, d, c, offset, d1, c1)
    requires DecompressFits(t, d1, c1, max, offset) && Decompressed(t, d1, c1, max, offset, d2, c2)
    ensures |d2| == |d| && Restored(d, c, d2, c2)
  {
    ExpandCompressed(t, d, c, offset, d1, c1);
    SamePrefix(d, d1, d2, offset, c, c1, c2);
  }

  /** A compressed message can be decompressed. */
  lemma CompressedFits(t: FullTree, d: seq<byte>, c: int, max: int, offset: nat, d1: seq<byte>, c1: int)
    requires CompressFits(t, d, c, offset) && Compressed(t, d, c, offset, d1, c1)
    requires c <= max <= |d| && offset + c + 1 <= |d|
    ensures DecompressFits(t, d1, c1, max, offset) && !DecompressFails(t, d1, c1, max, offset)
  {
    if Encodable(d, c, offset) && !GoesRaw(t, d[offset..c]) {
      ExpandCompressed(t, d, c, offset, d1, c1);
    }
  }

  /** Static round trip: decompressing undoes compressing, except for a message of 8255
      bytes whose coded form is not shorter. */
  lemma DecompressUndoesCompress(t: FullTree, d: seq<byte>, c: int, max: int, offset: nat,
                                 d1: seq<byte>, c1: int, d2: seq<byte>, c2: int)
    requires CompressFits(t, d, c, offset) && Compressed(t, d, c, offset, d1, c1)
    requires c <= max <= |d| && offset + c + 1 <= |d|
    ensures DecompressFits(t, d1, c1, max, offset) && !DecompressFails(t, d1, c1, max, offset)
    ensures Decompressed(t, d1, c1, max, offset, d2, c2) ==>
      |d2| == |d| && (Restored(d, c, d2, c2) <==> !TooLongForDecompress(t, d, c, offset))
  {
    CompressedFits(t, d, c, max, offset, d1, c1);
    if Decompressed(t, d1, c1, max, offset, d2, c2) && Encodable(d, c, offset) && c1 - offset < MAX_HUFF_BUF_SIZE {
      if GoesRaw(t, d[offset..c]) {
        RawRoundTrip(t, d, c, max, offset, d1, c1, d2, c2);
      } else {
        CodedRoundTrip(t, d, c, max, offset, d1, c1, d2, c2);
      }
    }
  }
}
