module Bits {
  /* Bits of bytes and of byte buffers, lowest bit first (Huff_EmitBit, Huff_GetBit). */

  type byte = x: int | 0 <= x < 256

  type BitString = seq<bool>

  /** `(b >> k) & 1`. */
  function BitOf(b: nat, k: nat): bool
    decreases k
  {
    if k == 0 then b % 2 == 1 else BitOf(b / 2, k - 1)
  }

  /** `b | (bit << k)`. */
  function OrBit(b: nat, bit: bool, k: nat): nat
    decreases k
  {
    if k == 0 then b / 2 * 2 + (if bit || b % 2 == 1 then 1 else 0)
    else 2 * OrBit(b / 2, bit, k - 1) + b % 2
  }

  lemma {:induction false} OrBitOf(b: nat, bit: bool, k: nat, j: nat)
    ensures BitOf(OrBit(b, bit, k), j) == (BitOf(b, j) || (j == k && bit))
    decreases k
  {
    if k > 0 && j > 0 { OrBitOf(b / 2, bit, k - 1, j - 1); }
  }

  function Size(n: nat): nat {
    if n == 0 then 1 else 2 * Size(n - 1)
  }

  lemma {:induction false} OrBitFits(b: nat, bit: bool, k: nat, n: nat)
    requires b < Size(n) && k < n
    ensures OrBit(b, bit, k) < Size(n)
    decreases k
  {
    if k > 0 {
      assert b / 2 < Size(n - 1);
      OrBitFits(b / 2, bit, k - 1, n - 1);
    } else {
      assert Size(n) == 2 * Size(n - 1);
    }
  }

  lemma OrBitByte(b: byte, bit: bool, k: nat)
    requires k < 8
    ensures OrBit(b, bit, k) < 256
  {
    assert Size(8) == 256;
    OrBitFits(b, bit, k, 8);
  }

  // ----- the eight bits of a byte, highest first

  function HighFirst(b: nat, n: nat): (s: BitString)
    ensures |s| == n
  {
    if n == 0 then [] else HighFirst(b / 2, n - 1) + [b % 2 == 1]
  }

  /** What shifting the bits in one after the other gives. */
  function ValueOf(s: BitString): nat {
    if s == [] then 0 else 2 * ValueOf(s[..|s| - 1]) + if s[|s| - 1] then 1 else 0
  }

  lemma ValueOneMore(s: BitString, p: nat, q: nat, r: nat)
    requires p <= q < |s| && r == q + 1
    ensures ValueOf(s[p..r]) == 2 * ValueOf(s[p..q]) + if s[q] then 1 else 0
  {
    assert s[p..r] == s[p..q] + [s[q]];
  }

  lemma {:induction false} HighFirstValue(b: nat, n: nat)
    requires b < Size(n)
    ensures ValueOf(HighFirst(b, n)) == b
  {
    if n > 0 {
      HighFirstValue(b / 2, n - 1);
      assert HighFirst(b, n)[..n - 1] == HighFirst(b / 2, n - 1);
    }
  }

  lemma {:induction false} HighFirstAt(b: nat, n: nat, i: nat)
    requires i < n
    ensures HighFirst(b, n)[i] == BitOf(b, n - 1 - i)
  {
    if i < n - 1 { HighFirstAt(b / 2, n - 1, i); }
  }

  // ----- buffers

  function BitAt(buf: seq<byte>, p: nat): bool
    requires p < 8 * |buf|
  {
    BitOf(buf[p / 8], p % 8)
  }

  /** The first `n` bits of a buffer. */
  function BitsOf(buf: seq<byte>, n: nat): (s: BitString)
    requires n <= 8 * |buf|
    ensures |s| == n && forall p :: 0 <= p < n ==> s[p] == BitAt(buf, p)
  {
    seq(n, p requires 0 <= p < n => BitAt(buf, p))
  }

  /** The bits of the current byte that are still to be written are zero. */
  ghost predicate Clean(buf: seq<byte>, pos: nat) {
    pos % 8 != 0 ==> pos / 8 < |buf| && forall k :: pos % 8 <= k < 8 ==> !BitOf(buf[pos / 8], k)
  }

  /** The buffer after the next bit was put at `pos`. */
  function WithBit(buf: seq<byte>, pos: nat, bit: bool): (s: seq<byte>)
    requires pos < 8 * |buf|
    ensures |s| == |buf|
  {
    OrBitByte(if pos % 8 == 0 then 0 else buf[pos / 8], bit, pos % 8);
    buf[pos / 8 := OrBit(if pos % 8 == 0 then 0 else buf[pos / 8], bit, pos % 8)]
  }

  lemma {:induction false} ZeroBits(k: nat)
    ensures !BitOf(0, k)
  {
    if k > 0 { ZeroBits(k - 1); }
  }

  lemma WithBitAt(buf: seq<byte>, pos: nat, bit: bool, p: nat)
    requires pos < 8 * |buf| && Clean(buf, pos) && p <= pos
    ensures BitAt(WithBit(buf, pos, bit), p) == if p == pos then bit else BitAt(buf, p)
  {
    var b := if pos % 8 == 0 then 0 else buf[pos / 8];
    if p / 8 == pos / 8 {
      OrBitOf(b, bit, pos % 8, p % 8);
      ZeroBits(p % 8);
    }
  }

  /** Putting a bit appends it to the bits already there. */
  lemma WithBitAppends(buf: seq<byte>, pos: nat, bit: bool)
    requires pos < 8 * |buf| && Clean(buf, pos)
    ensures BitsOf(WithBit(buf, pos, bit), pos + 1) == BitsOf(buf, pos) + [bit]
    ensures Clean(WithBit(buf, pos, bit), pos + 1)
  {
    forall p | 0 <= p <= pos
      ensures BitAt(WithBit(buf, pos, bit), p) == (BitsOf(buf, pos) + [bit])[p]
    {
      WithBitAt(buf, pos, bit, p);
    }
    var b := if pos % 8 == 0 then 0 else buf[pos / 8];
    if (pos + 1) % 8 != 0 {
      var c := WithBit(buf, pos, bit)[pos / 8];
      forall k | (pos + 1) % 8 <= k < 8 ensures !BitOf(c, k) {
        OrBitOf(b, bit, pos % 8, k);
        ZeroBits(k);
      }
    }
  }

  /** A buffer into which bits were put one after the other. */
  function Packed(buf: seq<byte>, bits: BitString): (s: seq<byte>)
    requires |bits| <= 8 * |buf|
    ensures |s| == |buf|
  {
    if bits == [] then buf else WithBit(Packed(buf, bits[..|bits| - 1]), |bits| - 1, bits[|bits| - 1])
  }

  lemma {:induction false} PackedBits(buf: seq<byte>, bits: BitString)
    requires |bits| <= 8 * |buf|
    ensures BitsOf(Packed(buf, bits), |bits|) == bits && Clean(Packed(buf, bits), |bits|)
    decreases |bits|
  {
    if bits != [] {
      var n := |bits| - 1;
      PackedBits(buf, bits[..n]);
      WithBitAppends(Packed(buf, bits[..n]), n, bits[n]);
      assert bits == bits[..n] + [bits[n]];
    }
  }

  /** The same bytes have the same bits. */
  lemma SameBits(a: seq<byte>, b: seq<byte>, n: nat)
    requires n <= 8 * |a| && n <= 8 * |b|
    requires forall i :: 0 <= i < |a| && i < |b| && 8 * i < n ==> a[i] == b[i]
    ensures BitsOf(a, n) == BitsOf(b, n)
  {
    forall p | 0 <= p < n ensures BitAt(a, p) == BitAt(b, p) {
      assert 8 * (p / 8) <= p;
    }
  }
}
