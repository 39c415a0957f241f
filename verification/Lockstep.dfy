module Lockstep {
  /* Why encoder and decoder stay in step: both go through the same states, each of which
     determines the code of the next byte and the state after it. */

  import opened Bits

  /** One byte and the bit position behind it, or nothing if the bits run out. */
  datatype Fetched = NoByte | Byte(ch: byte, end: nat)

  /** A code whose state may change with every byte: how a byte is emitted and fetched,
      and the state behind it. */
  datatype Coder<!T> = Coder(
    emit: (T, byte) -> BitString,
    fetch: (T, BitString, nat) -> Fetched,
    next: (T, byte) -> T)

  /** A decoded message and the bit position behind it. */
  datatype Decoded = NoMessage | Message(data: seq<byte>, end: nat)

  /** The message `d` with the bytes `s` in front of it. */
  function Behind(s: seq<byte>, d: Decoded): Decoded {
    match d
    case NoMessage => NoMessage
    case Message(data, end) => Message(s + data, end)
  }

  lemma BehindBoth(a: seq<byte>, b: seq<byte>, d: Decoded)
    ensures Behind(a, Behind(b, d)) == Behind(a + b, d)
  {
    if d.Message? { assert a + (b + d.data) == a + b + d.data; }
  }

  /** The bits from `pos` on begin with `s`. */
  ghost predicate Reads(bits: BitString, pos: nat, s: BitString) {
    pos + |s| <= |bits| && bits[pos..pos + |s|] == s
  }

  lemma Slices(bits: BitString, pos: nat, a: BitString, b: BitString)
    requires Reads(bits, pos, a + b)
    ensures Reads(bits, pos, a) && Reads(bits, pos + |a|, b)
  {
    var n := |a| + |b|;
    assert bits[pos..pos + |a|] == bits[pos..pos + n][..|a|];
    assert bits[pos + |a|..pos + |a| + |b|] == bits[pos..pos + n][|a|..];
  }

  /** What is fetched is what was emitted, wherever the bits stand. */
  ghost predicate Inverse<T(!new)>(c: Coder<T>) {
    forall t: T, ch: byte, bits: BitString, pos: nat ::
      Reads(bits, pos, c.emit(t, ch)) ==> c.fetch(t, bits, pos) == Byte(ch, pos + |c.emit(t, ch)|)
  }

  ghost function Encode<T>(c: Coder<T>, t: T, data: seq<byte>): BitString {
    if data == [] then [] else c.emit(t, data[0]) + Encode(c, c.next(t, data[0]), data[1..])
  }

  ghost function After<T>(c: Coder<T>, t: T, data: seq<byte>): T {
    if data == [] then t else After(c, c.next(t, data[0]), data[1..])
  }

  /** Decoding `n` bytes.  It stops early once the position has passed byte `last`; there
      is no message if it reads beyond the bits. */
  ghost function Decode<T>(c: Coder<T>, t: T, bits: BitString, pos: nat, n: nat, last: nat): (r: Decoded)
    ensures r.Message? ==> |r.data| <= n
    decreases n
  {
    if n == 0 || pos / 8 > last then Message([], pos)
    else
      var f := c.fetch(t, bits, pos);
      if f.NoByte? then NoMessage
      else
        Behind([f.ch], Decode(c, c.next(t, f.ch), bits, f.end, n - 1, last))
  }

  /** Every byte read moves the position forward. */
  ghost predicate Advances<T(!new)>(c: Coder<T>) {
    forall t: T, bits: BitString, pos: nat :: c.fetch(t, bits, pos).Byte? ==> c.fetch(t, bits, pos).end > pos
  }

  /** Decoding until bit `end` is reached. */
  ghost function DecodeUntil<T(!new)>(c: Coder<T>, t: T, bits: BitString, pos: nat, end: int): (r: Decoded)
    requires Advances(c)
    decreases end - pos
  {
    if pos >= end then Message([], pos)
    else
      var f := c.fetch(t, bits, pos);
      if f.NoByte? then NoMessage
      else
        Behind([f.ch], DecodeUntil(c, c.next(t, f.ch), bits, f.end, end))
  }

  /** A message is coded piece by piece, each in the state the one before left. */
  lemma {:induction false} EncodeConcat<T>(c: Coder<T>, t: T, a: seq<byte>, b: seq<byte>)
    ensures Encode(c, t, a + b) == Encode(c, t, a) + Encode(c, After(c, t, a), b)
    ensures After(c, t, a + b) == After(c, After(c, t, a), b)
    decreases |a|
  {
    if a == [] {
      assert a + b == b;
    } else {
      EncodeConcat(c, c.next(t, a[0]), a[1..], b);
      assert (a + b)[1..] == a[1..] + b;
    }
  }

  lemma EncodeOne<T>(c: Coder<T>, t: T, ch: byte)
    ensures Encode(c, t, [ch]) == c.emit(t, ch) && After(c, t, [ch]) == c.next(t, ch)
  {
    assert Encode(c, c.next(t, ch), []) == [];
    assert [ch][1..] == [];
  }

  lemma EncodePrefix<T>(c: Coder<T>, t: T, data: seq<byte>, i: nat)
    requires i < |data|
    ensures Encode(c, t, data[..i + 1]) == Encode(c, t, data[..i]) + c.emit(After(c, t, data[..i]), data[i])
    ensures After(c, t, data[..i + 1]) == c.next(After(c, t, data[..i]), data[i])
    ensures |Encode(c, t, data[..i + 1])| <= |Encode(c, t, data)|
  {
    assert data[..i + 1] == data[..i] + [data[i]];
    EncodeConcat(c, t, data[..i], [data[i]]);
    EncodeOne(c, After(c, t, data[..i]), data[i]);
    assert data == data[..i + 1] + data[i + 1..];
    EncodeConcat(c, t, data[..i + 1], data[i + 1..]);
  }

  lemma HeadFetched<T(!new)>(c: Coder<T>, t: T, data: seq<byte>, bits: BitString, pos: nat)
    requires Inverse(c) && data != [] && Reads(bits, pos, Encode(c, t, data))
    ensures var e, rest := c.emit(t, data[0]), Encode(c, c.next(t, data[0]), data[1..]);
      && c.fetch(t, bits, pos) == Byte(data[0], pos + |e|)
      && Reads(bits, pos + |e|, rest)
      && |Encode(c, t, data)| == |e| + |rest|
  {
    Slices(bits, pos, c.emit(t, data[0]), Encode(c, c.next(t, data[0]), data[1..]));
  }

  /** Decoding undoes encoding, because both sides are in equal states before each byte. */
  lemma {:induction false} DecodeEncode<T(!new)>(c: Coder<T>, t: T, data: seq<byte>, bits: BitString,
                                                 pos: nat, last: nat)
    requires Inverse(c) && Reads(bits, pos, Encode(c, t, data))
    requires (pos + |Encode(c, t, data)|) / 8 <= last
    ensures Decode(c, t, bits, pos, |data|, last) == Message(data, pos + |Encode(c, t, data)|)
    decreases |data|
  {
    if data != [] {
      HeadFetched(c, t, data, bits, pos);
      DecodeEncode(c, c.next(t, data[0]), data[1..], bits, pos + |c.emit(t, data[0])|, last);
      assert data == [data[0]] + data[1..];
    }
  }

  /** The same when the end is known by its bit position instead of the number of bytes. */
  lemma {:induction false} UntilEncode<T(!new)>(c: Coder<T>, t: T, data: seq<byte>, bits: BitString, pos: nat)
    requires Inverse(c) && Advances(c) && Reads(bits, pos, Encode(c, t, data))
    ensures DecodeUntil(c, t, bits, pos, pos + |Encode(c, t, data)|)
         == Message(data, pos + |Encode(c, t, data)|)
    decreases |data|
  {
    if data != [] {
      HeadFetched(c, t, data, bits, pos);
      UntilEncode(c, c.next(t, data[0]), data[1..], bits, pos + |c.emit(t, data[0])|);
      assert data == [data[0]] + data[1..];
    }
  }

  /** If a byte costs at most `most` bits as long as fewer than `limit` were seen. */
  ghost predicate Cheap<T(!new)>(c: Coder<T>, seen: T -> nat, limit: nat, most: nat) {
    forall t: T, ch: byte :: seen(t) < limit ==>
      |c.emit(t, ch)| <= most && seen(c.next(t, ch)) <= seen(t) + 1
  }

  lemma {:induction false} EncodeBound<T(!new)>(c: Coder<T>, t: T, data: seq<byte>, seen: T -> nat,
                                                limit: nat, most: nat)
    requires Cheap(c, seen, limit, most) && seen(t) + |data| <= limit
    ensures |Encode(c, t, data)| <= most * |data|
    decreases |data|
  {
    if data != [] {
      EncodeBound(c, c.next(t, data[0]), data[1..], seen, limit, most);
      assert most * |data| == most + most * |data[1..]|;
    }
  }

  /** If a byte can always be fetched from `most` bits. */
  ghost predicate Fetchable<T(!new)>(c: Coder<T>, seen: T -> nat, limit: nat, most: nat) {
    && (forall t: T, bits: BitString, pos: nat :: seen(t) < limit && pos + most <= |bits| ==>
          c.fetch(t, bits, pos).Byte?)
    && (forall t: T, ch: byte {:trigger c.next(t, ch)} :: seen(c.next(t, ch)) <= seen(t) + 1)
  }

  /** Whatever the bits are, decoding does not run out of them if a few more follow. */
  lemma {:induction false} DecodeStaysInside<T(!new)>(c: Coder<T>, t: T, bits: BitString, pos: nat, n: nat, last: nat,
                                                      seen: T -> nat, limit: nat, most: nat)
    requires Fetchable(c, seen, limit, most) && seen(t) + n <= limit
    requires 8 * last + 7 + most <= |bits|
    ensures Decode(c, t, bits, pos, n, last).Message?
    decreases n
  {
    if n > 0 && pos / 8 <= last {
      var f := c.fetch(t, bits, pos);
      DecodeStaysInside(c, c.next(t, f.ch), bits, f.end, n - 1, last, seen, limit, most);
    }
  }

  lemma {:induction false} UntilStaysInside<T(!new)>(c: Coder<T>, t: T, bits: BitString, pos: nat, end: int, most: nat)
    requires forall u: T, p: nat :: p + most <= |bits| ==> c.fetch(u, bits, p).Byte?
    requires Advances(c) && end + most <= |bits| + 1
    ensures DecodeUntil(c, t, bits, pos, end).Message?
    decreases end - pos
  {
    if pos < end {
      var f := c.fetch(t, bits, pos);
      UntilStaysInside(c, c.next(t, f.ch), bits, f.end, end, most);
    }
  }
}
