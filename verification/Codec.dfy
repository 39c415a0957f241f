/** Bit input and output of src/huff.c and the four packet operations, in place. */
module Codec {
  import opened Bits
  import opened Coding
  import opened Frequencies
  import opened Lockstep
  import opened Packets
  import opened PathCode
  import opened TreeStore
  import opened WeightTree
  import H = HuffTree
  import G = TreeGrowth

  /** The part of a message buffer that the codec touches. */
  class SizeBuf {
    const data: array<byte>
    const maxsize: int
    var cursize: int

    constructor (data: array<byte>, maxsize: int, cursize: int)
      ensures this.data == data && this.maxsize == maxsize && this.cursize == cursize
    {
      this.data, this.maxsize, this.cursize := data, maxsize, cursize;
    }
  }

  /** From `pos0` in `buf0` on, the bits `e` were written, and nothing before. */
  ghost predicate Written(buf: seq<byte>, pos: nat, buf0: seq<byte>, pos0: nat, e: BitString) {
    && |buf| == |buf0| && pos0 + |e| == pos <= 8 * |buf|
    && Clean(buf, pos)
    && BitsOf(buf, pos) == BitsOf(buf0, pos0) + e
    && buf[..pos0 / 8] == buf0[..pos0 / 8]
  }

  lemma WrittenBoth(buf: seq<byte>, pos: nat, buf1: seq<byte>, pos1: nat, buf0: seq<byte>, pos0: nat,
                    e: BitString, f: BitString)
    requires Written(buf1, pos1, buf0, pos0, e) && Written(buf, pos, buf1, pos1, f)
    ensures Written(buf, pos, buf0, pos0, e + f)
  {
    assert buf[..pos0 / 8] == buf[..pos1 / 8][..pos0 / 8];
    assert buf1[..pos0 / 8] == buf1[..pos1 / 8][..pos0 / 8];
    assert BitsOf(buf0, pos0) + (e + f) == BitsOf(buf0, pos0) + e + f;
  }

  lemma WrittenNothing(buf: seq<byte>, pos: nat)
    requires pos <= 8 * |buf| && Clean(buf, pos)
    ensures Written(buf, pos, buf, pos, [])
  {
    assert BitsOf(buf, pos) + [] == BitsOf(buf, pos);
  }

  lemma WrittenBit(buf: seq<byte>, pos: nat, bit: bool)
    requires pos < 8 * |buf| && Clean(buf, pos)
    ensures Written(WithBit(buf, pos, bit), pos + 1, buf, pos, [bit])
  {
    WithBitAppends(buf, pos, bit);
  }

  /** The nodes of `h` hold the tree `t`. */
  ghost predicate Shape(h: H.HuffTree, ord: seq<int>, t: Tree)
    reads h, h.nodes
  {
    RepTree(h.nodes[..], h.root, ord, t) && Structure(t) && Labelled(t)
  }

  ghost predicate Apart(h: H.HuffTree, buffer: array<byte>) {
    buffer as object !in [h.nodes as object, h.cells, h.leaf]
  }

  /** `sub` is the child at `c` of the node at `m`, or nothing. */
  ghost predicate Beneath(ord: seq<int>, t: Tree, m: nat, sub: int, c: nat)
    requires Structure(t) && |ord| == |t|
  {
    if sub == NIL then c == m
    else 1 <= c < |t| && Parent(t, c) == m && sub == ord[c]
  }

  lemma ParentLink(ns: seq<Node>, root: int, ord: seq<int>, t: Tree, m: nat)
    requires RepTree(ns, root, ord, t) && Structure(t) && m < |t|
    ensures ns[ord[m]].parent == if m == 0 then NIL else ord[Parent(t, m)]
  {
    if m > 0 { ParentIs(ns, root, ord, t, m); }
  }

  class Codec {
    var huffBitPos: nat

    constructor ()
      ensures huffBitPos == 0
    {
      huffBitPos := 0;
    }

    /** Huff_EmitBit */
    method EmitBit(bit: bool, buffer: array<byte>)
      requires Clean(buffer[..], huffBitPos) && huffBitPos < 8 * buffer.Length
      modifies this`huffBitPos, buffer
      ensures Written(buffer[..], huffBitPos, old(buffer[..]), old(huffBitPos), [bit])
    {
      ghost var b, p := buffer[..], huffBitPos;
      WrittenBit(b, p, bit);
      if huffBitPos % 8 == 0 {
        buffer[huffBitPos / 8] := 0;
      }
      OrBitByte(buffer[huffBitPos / 8], bit, huffBitPos % 8);
      buffer[huffBitPos / 8] := OrBit(buffer[huffBitPos / 8], bit, huffBitPos % 8);
      huffBitPos := huffBitPos + 1;
      assert buffer[..] == WithBit(b, p, bit);
    }

    /** Huff_GetBit */
    method GetBit(data: array<byte>, offset: nat) returns (bit: bool)
      requires offset <= data.Length && huffBitPos < 8 * (data.Length - offset)
      modifies this`huffBitPos
      ensures bit == Region(data[..], offset)[old(huffBitPos)] && huffBitPos == old(huffBitPos) + 1
    {
      assert data[..][offset..][huffBitPos / 8] == data[offset + huffBitPos / 8];
      bit := BitOf(data[offset + huffBitPos / 8], huffBitPos % 8);
      huffBitPos := huffBitPos + 1;
    }

    /** Huff_EmitPathToByte: the path to node `x`, and on to its child `sub`. */
    method EmitPathToByte(h: H.HuffTree, x: int, sub: int, buffer: array<byte>,
                          ghost ord: seq<int>, ghost t: Tree, ghost m: nat, ghost c: nat)
      requires Shape(h, ord, t) && Apart(h, buffer) && m < |t| && x == ord[m] && Beneath(ord, t, m, sub, c)
      requires Clean(buffer[..], huffBitPos) && huffBitPos + |Code(t, c)| <= 8 * buffer.Length
      modifies this`huffBitPos, buffer
      ensures Written(buffer[..], huffBitPos, old(buffer[..]), old(huffBitPos), Code(t, c))
      decreases m
    {
      ghost var b, p, ns := buffer[..], huffBitPos, h.nodes[..];
      ParentLink(ns, h.root, ord, t, m);
      if h.nodes[x].parent != NIL {
        EmitPathToByte(h, h.nodes[x].parent, x, buffer, ord, t, Parent(t, m), m);
        assert h.nodes[..] == ns;
      } else {
        WrittenNothing(b, p);
      }
      if sub == NIL { return; }
      ParentIs(ns, h.root, ord, t, c);
      ghost var b1, p1 := buffer[..], huffBitPos;
      if h.nodes[x].right == sub {
        EmitBit(true, buffer);
      } else {
        EmitBit(false, buffer);
      }
      WrittenBoth(buffer[..], huffBitPos, b1, p1, b, p, Code(t, m), [c % 2 == 1]);
    }

    /** The eight bits of a byte that has no leaf yet, highest first. */
    method EmitPlain(value: byte, buffer: array<byte>)
      requires Clean(buffer[..], huffBitPos) && huffBitPos + 8 <= 8 * buffer.Length
      modifies this`huffBitPos, buffer
      ensures Written(buffer[..], huffBitPos, old(buffer[..]), old(huffBitPos), HighFirst(value, 8))
    {
      ghost var b, p, e := buffer[..], huffBitPos, HighFirst(value, 8);
      WrittenNothing(b, p);
      var i := 7;
      while i >= 0
        invariant -1 <= i <= 7
        invariant Written(buffer[..], huffBitPos, b, p, e[..7 - i])
      {
        ghost var b1, p1 := buffer[..], huffBitPos;
        HighFirstAt(value, 8, 7 - i);
        EmitBit(BitOf(value, i), buffer);
        WrittenBoth(buffer[..], huffBitPos, b1, p1, b, p, e[..7 - i], [BitOf(value, i)]);
        assert e[..8 - i] == e[..7 - i] + [BitOf(value, i)];
        i := i - 1;
      }
      assert e[..8] == e;
    }

    /** The path to a leaf that is in the table. */
    method EmitLeaf(h: H.HuffTree, leaf: int, buffer: array<byte>, ghost v: View, ghost m: nat)
      requires Shape(h, v.ord, v.t) && Apart(h, buffer) && m < |v.t| && leaf == v.ord[m]
      requires Clean(buffer[..], huffBitPos) && huffBitPos + |Code(v.t, m)| <= 8 * buffer.Length
      modifies this`huffBitPos, buffer
      ensures Written(buffer[..], huffBitPos, old(buffer[..]), old(huffBitPos), Code(v.t, m))
    {
      ParentLink(h.nodes[..], h.root, v.ord, v.t, m);
      if h.nodes[leaf].parent != NIL {
        EmitPathToByte(h, h.nodes[leaf].parent, leaf, buffer, v.ord, v.t, Parent(v.t, m), m);
      } else {
        WrittenNothing(buffer[..], huffBitPos);
      }
    }

    /** Huff_EmitByteDynamic: the path to the byte, or else the path to the
        not-yet-transmitted leaf and the byte itself. */
    method EmitByteDynamic(h: H.HuffTree, value: byte, buffer: array<byte>, ghost v: View)
      requires h.Holds(v) && Apart(h, buffer)
      requires Clean(buffer[..], huffBitPos) && huffBitPos + |Emit(v.t, value)| <= 8 * buffer.Length
      modifies this`huffBitPos, buffer
      ensures Written(buffer[..], huffBitPos, old(buffer[..]), old(huffBitPos), Emit(v.t, value))
    {
      LeafIs(h, v, value);
      if h.leaf[value] != NIL {
        EmitLeaf(h, h.leaf[value], buffer, v, Find(v.t, value));
        return;
      }
      ghost var b, p := buffer[..], huffBitPos;
      EmitLeaf(h, h.leaf[256], buffer, v, |v.t| - 1);
      ghost var b1, p1 := buffer[..], huffBitPos;
      EmitPlain(value, buffer);
      WrittenBoth(buffer[..], huffBitPos, b1, p1, b, p, Code(v.t, |v.t| - 1), HighFirst(value, 8));
    }

    /** One byte of Huff_EncryptPacket's loop. */
    method EncryptByte(h: H.HuffTree, value: byte, buffer: array<byte>, ghost v: View) returns (ghost w: View)
      requires h.Holds(v) && Apart(h, buffer)
      requires Clean(buffer[..], huffBitPos) && huffBitPos + |Emit(v.t, value)| <= 8 * buffer.Length
      modifies this`huffBitPos, buffer, h, h.nodes, h.cells, h.leaf
      ensures Written(buffer[..], huffBitPos, old(buffer[..]), old(huffBitPos), Emit(v.t, value))
      ensures h.Holds(w) && w.t == AddReference(v.t, value)
    {
      ghost var ns, cs, lf := h.nodes[..], h.cells[..], h.leaf[..];
      EmitByteDynamic(h, value, buffer, v);
      assert h.nodes[..] == ns && h.cells[..] == cs && h.leaf[..] == lf;
      ghost var b := buffer[..];
      w := H.Refer(h, value, v);
      assert buffer[..] == b;
    }

    /** Huff_EncryptPacket's loop. */
    method EncryptBytes(h: H.HuffTree, data: array<byte>, offset: nat, inLen: nat, buffer: array<byte>)
      requires h.Holds(H.SeedView) && Apart(h, buffer) && Apart(h, data) && buffer != data
      requires offset + inLen <= data.Length && huffBitPos == 16 <= 8 * buffer.Length
      requires 16 + |AdaptiveBits(data[offset..offset + inLen])| <= 8 * buffer.Length
      modifies this`huffBitPos, buffer, h, h.nodes, h.cells, h.leaf
      ensures Written(buffer[..], huffBitPos, old(buffer[..]), 16, AdaptiveBits(data[offset..offset + inLen]))
    {
      ghost var b, m := buffer[..], data[offset..offset + inLen];
      ghost var v := H.SeedView;
      WrittenNothing(b, 16);
      AdaptiveStart(m);
      var i := 0;
      while i < inLen
        invariant 0 <= i <= inLen && data[offset..offset + inLen] == m
        invariant h.Holds(v) && v.t == TreeAfter(m, i)
        invariant Written(buffer[..], huffBitPos, b, 16, BitsAfter(m, i))
      {
        ghost var b1, p1 := buffer[..], huffBitPos;
        AdaptivePrefix(m, i);
        v := EncryptByte(h, data[offset + i], buffer, v);
        WrittenBoth(buffer[..], huffBitPos, b1, p1, b, 16, BitsAfter(m, i), Emit(TreeAfter(m, i), m[i]));
        i := i + 1;
      }
    }

    /** The message as Huff_EncryptPacket prepares it in its scratch buffer. */
    method EncryptScratch(data: array<byte>, offset: nat, inLen: nat) returns (buffer: array<byte>)
      requires offset + inLen <= data.Length && inLen < MAX_HUFF_BUF_SIZE
      requires EncryptedSize(data[offset..offset + inLen]) <= MAX_HUFF_BUF_SIZE
      modifies this`huffBitPos
      ensures fresh(buffer) && InScratch(data[offset..offset + inLen], buffer[..], huffBitPos)
    {
      var h := new H.HuffTree();
      buffer := new byte[MAX_HUFF_BUF_SIZE];
      buffer[0], buffer[1] := inLen / 256, inLen % 256;
      huffBitPos := 16;
      ghost var b := buffer[..];
      EncryptBytes(h, data, offset, inLen, buffer);
      ScratchDone(data[offset..offset + inLen], b, buffer[..], huffBitPos);
    }

    /** Huff_EncryptPacket */
    method EncryptPacket(msg: SizeBuf, offset: nat)
      requires msg.cursize <= msg.data.Length
      requires EncryptFits(msg.data[..], msg.cursize, offset)
      modifies this`huffBitPos, msg`cursize, msg.data
      ensures Encrypted(old(msg.data[..]), old(msg.cursize), offset, msg.data[..], msg.cursize)
    {
      var inLen := msg.cursize - offset;
      if inLen <= 0 || inLen >= MAX_HUFF_BUF_SIZE { return; }
      ghost var d, c := msg.data[..], msg.cursize;
      assert msg.data[offset..offset + inLen] == d[offset..c];
      var buffer := EncryptScratch(msg.data, offset, inLen);
      var outLen := huffBitPos / 8 + 1;
      msg.cursize := offset + outLen;
      CopyOut(msg.data, offset, buffer, outLen);
      CopiedMessage(d, c, offset, buffer[..], huffBitPos, msg.data[..], msg.cursize);
    }

    /** Huff_GetByteFromTree: walk from the root until a leaf is reached. */
    method GetByteFromTree(h: H.HuffTree, data: array<byte>, offset: nat, ghost ord: seq<int>, ghost t: Tree)
      returns (ch: nat)
      requires Shape(h, ord, t) && offset <= data.Length
      requires Walk(t, 0, Region(data[..], offset), huffBitPos).At?
      modifies this`huffBitPos
      ensures var w := Walk(t, 0, Region(data[..], offset), old(huffBitPos));
        huffBitPos == w.end && ch == SymbolOf(t[w.leaf].kind)
    {
      ghost var bits, i := Region(data[..], offset), 0;
      var x := h.root;
      while h.nodes[x].symbol == NODE_NEXT
        invariant 0 <= i < |t| && x == ord[i]
        invariant Walk(t, i, bits, huffBitPos) == Walk(t, 0, bits, old(huffBitPos))
        decreases |t| - i
      {
        assert NodeIs(h.nodes[..], ord, t, i);
        var bit := GetBit(data, offset);
        i := Child(t, i, bit);
        if !bit { x := h.nodes[x].left; } else { x := h.nodes[x].right; }
        if x == NIL {
          // an inner node has both children
          assert false;
        }
      }
      assert NodeIs(h.nodes[..], ord, t, i);
      ch := h.nodes[x].symbol;
    }

    /** The eight bits of a byte that has no leaf yet. */
    method GetPlain(data: array<byte>, offset: nat) returns (ch: byte)
      requires offset <= data.Length && huffBitPos + 8 <= 8 * (data.Length - offset)
      modifies this`huffBitPos
      ensures huffBitPos == old(huffBitPos) + 8
      ensures ch == ValueOf(Region(data[..], offset)[old(huffBitPos)..huffBitPos])
    {
      ghost var bits, p := Region(data[..], offset), huffBitPos;
      var c, j := 0, 0;
      while j < 8
        invariant 0 <= j <= 8 && huffBitPos == p + j
        invariant c == ValueOf(bits[p..huffBitPos])
      {
        ghost var q := huffBitPos;
        var bit := GetBit(data, offset);
        ValueOneMore(bits, p, q, huffBitPos);
        c := 2 * c + if bit then 1 else 0;
        j := j + 1;
      }
      EightBits(bits[p..huffBitPos]);
      ch := c;
    }

    /** One byte of Huff_DecryptPacket's loop. */
    method DecryptByte(h: H.HuffTree, data: array<byte>, offset: nat, ghost v: View)
      returns (ch: byte, ghost w: View)
      requires h.Holds(v) && Apart(h, data) && offset <= data.Length
      requires Fetch(v.t, Region(data[..], offset), huffBitPos).Byte?
      modifies this`huffBitPos, h, h.nodes, h.cells, h.leaf
      ensures Fetch(v.t, Region(data[..], offset), old(huffBitPos)) == Byte(ch, huffBitPos)
      ensures h.Holds(w) && w.t == AddReference(v.t, ch)
    {
      ghost var ns, cs, lf, d := h.nodes[..], h.cells[..], h.leaf[..], data[..];
      var b := GetByteFromTree(h, data, offset, v.ord, v.t);
      if b == NODE_NONE {
        ch := GetPlain(data, offset);
      } else {
        ch := b;
      }
      assert h.nodes[..] == ns && h.cells[..] == cs && h.leaf[..] == lf;
      w := H.Refer(h, ch, v);
      assert data[..] == d;
    }

    /** One byte is decoded and put into the scratch buffer. */
    method DecryptNext(h: H.HuffTree, data: array<byte>, offset: nat, last: nat, buffer: array<byte>, i: nat,
                       ghost v: View, ghost r: Decoded, ghost s: seq<byte>, ghost n0: nat, ghost n: nat)
      returns (ghost w: View, ghost z: seq<byte>)
      requires h.Holds(v) && Apart(h, buffer) && Apart(h, data) && buffer != data
      requires offset <= data.Length && i < buffer.Length && s == buffer[..i]
      requires r.Message? && r == Behind(s, DecodeFrom(v.t, Region(data[..], offset), huffBitPos, n0, last))
      requires n0 == n + 1 && huffBitPos / 8 <= last
      modifies this`huffBitPos, buffer, h, h.nodes, h.cells, h.leaf
      ensures h.Holds(w) && z == buffer[..i + 1]
      ensures r == Behind(z, DecodeFrom(w.t, Region(data[..], offset), huffBitPos, n, last))
    {
      ghost var bits, p := Region(data[..], offset), huffBitPos;
      DecodeNext(r, s, v.t, bits, p, n0, last);
      var ch;
      ch, w := DecryptByte(h, data, offset, v);
      z := s + [ch];
      DecodeOn(r, s, z, v.t, bits, p, n0, n, last, ch, huffBitPos, w.t);
      ghost var ns, cs, lf, d := h.nodes[..], h.cells[..], h.leaf[..], data[..];
      buffer[i] := ch;
      assert h.nodes[..] == ns && h.cells[..] == cs && h.leaf[..] == lf && data[..] == d;
    }

    /** Huff_DecryptPacket's loop: it stops early when the bits of the message are used up. */
    method DecryptBytes(h: H.HuffTree, data: array<byte>, offset: nat, inLen: nat, outLen: nat, buffer: array<byte>)
      requires h.Holds(H.SeedView) && Apart(h, buffer) && Apart(h, data) && buffer != data
      requires offset <= data.Length && outLen <= buffer.Length && huffBitPos == 16
      requires AdaptiveDecode(Region(data[..], offset), outLen, inLen).Message?
      modifies this`huffBitPos, buffer, h, h.nodes, h.cells, h.leaf
      ensures Deposited(buffer[..], AdaptiveDecode(Region(data[..], offset), outLen, inLen), outLen)
    {
      ghost var v, bits := H.SeedView, Region(data[..], offset);
      ghost var r := AdaptiveDecode(bits, outLen, inLen);
      ghost var s, left := buffer[..0], outLen;
      DecodeStart(bits, outLen, inLen);
      var i := 0;
      while i < outLen
        invariant 0 <= i <= outLen && Region(data[..], offset) == bits
        invariant s == buffer[..i] && left == outLen - i
        invariant h.Holds(v) && r == Behind(s, DecodeFrom(v.t, bits, huffBitPos, left, inLen))
      {
        if huffBitPos / 8 > inLen {
          buffer[i] := 0;
          return;
        }
        ghost var left0 := left;
        left := left0 - 1;
        v, s := DecryptNext(h, data, offset, inLen, buffer, i, v, r, s, left0, left);
        i := i + 1;
      }
    }

    /** Huff_DecryptPacket */
    method DecryptPacket(msg: SizeBuf, offset: nat)
      requires DecryptFits(msg.data[..], msg.cursize, msg.maxsize, offset)
      modifies this`huffBitPos, msg`cursize, msg.data
      ensures Decrypted(old(msg.data[..]), old(msg.cursize), msg.maxsize, offset, msg.data[..], msg.cursize)
    {
      var inLen := msg.cursize - offset;
      if inLen <= 0 { return; }
      ghost var d, c := msg.data[..], msg.cursize;
      var outLen: int := msg.data[offset] as int * 256 + msg.data[offset + 1];
      if outLen > msg.maxsize - offset { outLen := msg.maxsize - offset; }
      ghost var r := Deciphered(d, c, msg.maxsize, offset);
      assert outLen == HeaderLength(d, msg.maxsize, offset) && inLen == c - offset;
      var buffer := DecryptScratch(msg.data, offset, inLen, outLen, r);
      msg.cursize := offset + outLen;
      CopyOut(msg.data, offset, buffer, outLen);
      DepositedMessage(d, c, msg.maxsize, offset, buffer[..], r, outLen, msg.data[..], msg.cursize);
    }

    /** The scratch buffer of Huff_DecryptPacket. */
    method DecryptScratch(data: array<byte>, offset: nat, inLen: nat, outLen: nat, ghost r: Decoded)
      returns (buffer: array<byte>)
      requires offset <= data.Length && outLen <= MAX_HUFF_BUF_SIZE
      requires r.Message? && r == AdaptiveDecode(Region(data[..], offset), outLen, inLen)
      modifies this`huffBitPos
      ensures fresh(buffer) && Deposited(buffer[..], r, outLen)
    {
      ghost var d := data[..];
      var h := new H.HuffTree();
      buffer := new byte[MAX_HUFF_BUF_SIZE];
      huffBitPos := 16;
      DecryptBytes(h, data, offset, inLen, outLen, buffer);
      assert data[..] == d;
    }

    // ----- the code with a fixed tree

    /** Huff_EmitByte */
    method EmitByte(h: H.HuffTree, ch: byte, buffer: array<byte>, count: nat, ghost v: View) returns (count2: nat)
      requires h.Holds(v) && Apart(h, buffer) && Has(v.t, ch)
      requires Clean(buffer[..], count) && count + |Code(v.t, Find(v.t, ch))| <= 8 * buffer.Length
      modifies this`huffBitPos, buffer
      ensures Written(buffer[..], count2, old(buffer[..]), count, Code(v.t, Find(v.t, ch))) && huffBitPos == count2
    {
      huffBitPos := count;
      LeafIs(h, v, ch);
      EmitPathToByte(h, h.leaf[ch], NIL, buffer, v.ord, v.t, Find(v.t, ch), Find(v.t, ch));
      count2 := huffBitPos;
    }

    /** Huff_GetByte, with the not-yet-transmitted leaf stored as zero. */
    method GetByte(h: H.HuffTree, data: array<byte>, offset: nat, count: nat, ghost v: View)
      returns (ch: byte, count2: nat)
      requires h.Holds(v) && KnowsAll(v.t) && offset <= data.Length
      requires FetchPath(v.t, Region(data[..], offset), count).Byte?
      modifies this`huffBitPos
      ensures FetchPath(v.t, Region(data[..], offset), count) == Byte(ch, count2)
    {
      huffBitPos := count;
      var b := GetByteFromTree(h, data, offset, v.ord, v.t);
      ch, count2 := b % 256, huffBitPos;
      PathFetched(v.t, Region(data[..], offset), count, ch, count2);
    }

    /** Huff_CompressPacket's loop. */
    method CompressBytes(h: H.HuffTree, data: array<byte>, offset: nat, inLen: nat, buffer: array<byte>, ghost v: View)
      requires h.Holds(v) && KnowsAll(v.t) && Apart(h, buffer) && buffer != data
      requires offset + inLen <= data.Length && 0 < inLen < MAX_HUFF_BUF_SIZE
      requires |StaticBits(v.t, data[offset..offset + inLen])| <= 8 * buffer.Length
      modifies this`huffBitPos, buffer
      ensures Written(buffer[..], huffBitPos, old(buffer[..]), 0, StaticBits(v.t, data[offset..offset + inLen]))
    {
      ghost var b, m := buffer[..], data[offset..offset + inLen];
      WrittenNothing(b, 0);
      StaticStart(v.t, m);
      var i, outLen := 0, 0;
      while i < inLen
        invariant 0 <= i <= inLen
        invariant Written(buffer[..], outLen, b, 0, PathsAfter(v.t, m, i)) && (i > 0 ==> outLen == huffBitPos)
      {
        if i == MAX_HUFF_BUF_SIZE {
          // the message is shorter
          assert false;
        }
        ghost var b1, p1 := buffer[..], outLen;
        StaticPrefix(v.t, m, i);
        var ch := data[offset + i];
        assert ch == data[offset..offset + inLen][i] == m[i];
        outLen := EmitByte(h, ch, buffer, outLen, v);
        WrittenBoth(buffer[..], outLen, b1, p1, b, 0, PathsAfter(v.t, m, i), Code(v.t, Find(v.t, ch)));
        i := i + 1;
      }
    }

    /** Huff_CompressPacket; false stands for the fatal error. */
    method CompressPacket(h: H.HuffTree, msg: SizeBuf, offset: nat, ghost v: View) returns (ok: bool)
      requires h.Holds(v) && KnowsAll(v.t) && msg.cursize <= msg.data.Length
      requires CompressFits(v.t, msg.data[..], msg.cursize, offset)
      modifies this`huffBitPos, msg`cursize, msg.data
      ensures ok <==> !CompressFails(v.t, old(msg.data[..]), old(msg.cursize), msg.maxsize, offset)
      ensures ok ==> Compressed(v.t, old(msg.data[..]), old(msg.cursize), offset, msg.data[..], msg.cursize)
    {
      var inLen := msg.cursize - offset;
      if inLen <= 0 || inLen >= MAX_HUFF_BUF_SIZE { return true; }
      ghost var d, c := msg.data[..], msg.cursize;
      assert msg.data[offset..offset + inLen] == d[offset..c];
      var buffer := new byte[MAX_HUFF_BUF_SIZE];
      ghost var b := buffer[..];
      CompressBytes(h, msg.data, offset, inLen, buffer, v);
      assert msg.data[..] == d;
      ok := Store(msg, offset, inLen, huffBitPos, buffer, v.t, b);
    }

    /** Huff_CompressPacket behind its loop: the message goes raw or coded. */
    static method Store(msg: SizeBuf, offset: nat, inLen: nat, bits: nat, buffer: array<byte>,
                        ghost t: FullTree, ghost b: seq<byte>)
      returns (ok: bool)
      requires Encodable(msg.data[..], msg.cursize, offset) && inLen == msg.cursize - offset
      requires CompressFits(t, msg.data[..], msg.cursize, offset) && buffer != msg.data
      requires Written(buffer[..], bits, b, 0, StaticBits(t, msg.data[..][offset..msg.cursize]))
      requires buffer.Length == MAX_HUFF_BUF_SIZE
      modifies msg`cursize, msg.data
      ensures ok <==> !CompressFails(t, old(msg.data[..]), old(msg.cursize), msg.maxsize, offset)
      ensures ok ==> Compressed(t, old(msg.data[..]), old(msg.cursize), offset, msg.data[..], msg.cursize)
    {
      var outLen := bits / 8 + 1;
      if outLen > inLen {
        StoreRaw(msg, offset, inLen, t);
        ok := true;
      } else {
        ok := StoreCoded(msg, offset, bits, outLen, buffer, t, b);
      }
    }

    /** The raw form: a mark, and the message as it is. */
    static method StoreRaw(msg: SizeBuf, offset: nat, inLen: nat, ghost t: FullTree)
      requires Encodable(msg.data[..], msg.cursize, offset) && inLen == msg.cursize - offset
      requires CompressFits(t, msg.data[..], msg.cursize, offset) && GoesRaw(t, msg.data[..][offset..msg.cursize])
      modifies msg`cursize, msg.data
      ensures Compressed(t, old(msg.data[..]), old(msg.cursize), offset, msg.data[..], msg.cursize)
    {
      ghost var d, c := msg.data[..], msg.cursize;
      Shift(msg.data, offset + 1, offset, inLen);
      msg.data[offset] := 0x80;
      msg.cursize := msg.cursize + 1;
      RawForm(t, d, c, offset, msg.data[..], msg.cursize);
    }

    /** The coded form: the number of padding bits, and the bits. */
    static method StoreCoded(msg: SizeBuf, offset: nat, bits: nat, outLen: nat, buffer: array<byte>,
                             ghost t: FullTree, ghost b: seq<byte>)
      returns (ok: bool)
      requires Encodable(msg.data[..], msg.cursize, offset) && !GoesRaw(t, msg.data[..][offset..msg.cursize])
      requires CompressFits(t, msg.data[..], msg.cursize, offset) && buffer != msg.data
      requires Written(buffer[..], bits, b, 0, StaticBits(t, msg.data[..][offset..msg.cursize]))
      requires buffer.Length == MAX_HUFF_BUF_SIZE && outLen == bits / 8 + 1
      modifies msg`cursize, msg.data
      ensures ok <==> !CompressFails(t, old(msg.data[..]), old(msg.cursize), msg.maxsize, offset)
      ensures ok ==> Compressed(t, old(msg.data[..]), old(msg.cursize), offset, msg.data[..], msg.cursize)
    {
      ghost var d, c := msg.data[..], msg.cursize;
      CodedSmall(t, d, c, offset, b, buffer[..], bits);
      msg.data[offset] := 8 * outLen - bits;
      msg.cursize := offset + outLen + 1;
      if msg.cursize > msg.maxsize { return false; }
      CopyOut(msg.data, offset + 1, buffer, outLen);
      CodedForm(t, d, c, offset, b, buffer[..], bits, msg.data[..], msg.cursize);
      ok := true;
    }

    method Put(buffer: array<byte>, i: nat, ch: byte, ghost data: array<byte>, ghost s: seq<byte>, ghost z: seq<byte>)
      requires i < buffer.Length && buffer != data && s == buffer[..i] && z == s + [ch]
      modifies buffer
      ensures z == buffer[..i + 1] && data[..] == old(data[..])
    {
      buffer[i] := ch;
    }

    /** One byte is decoded and put into the scratch buffer. */
    method DecompressNext(h: H.HuffTree, data: array<byte>, offset: nat, pos: nat, buffer: array<byte>, i: nat,
                          ghost v: View, ghost r: Decoded, ghost s: seq<byte>, ghost end: int)
      returns (next: nat, ghost z: seq<byte>)
      requires h.Holds(v) && KnowsAll(v.t) && Apart(h, buffer) && buffer != data
      requires offset <= data.Length && i < buffer.Length && s == buffer[..i] && pos < end
      requires r.Message? && r == Behind(s, StaticFrom(v.t, Region(data[..], offset), pos, end))
      modifies this`huffBitPos, buffer
      ensures pos < next && z == buffer[..i + 1]
      ensures r == Behind(z, StaticFrom(v.t, Region(data[..], offset), next, end))
    {
      ghost var bits := Region(data[..], offset);
      StaticNext(r, s, v.t, bits, pos, end);
      var ch;
      ch, next := GetByte(h, data, offset, pos, v);
      z := s + [ch];
      StaticOn(r, s, z, v.t, bits, pos, end, ch, next);
      Put(buffer, i, ch, data, s, z);
    }

    /** Huff_DecompressPacket's loop; false stands for the fatal error. */
    method DecompressBytes(h: H.HuffTree, data: array<byte>, offset: nat, inLen: int, buffer: array<byte>,
                           ghost v: View)
      returns (ok: bool, i: nat)
      requires h.Holds(v) && KnowsAll(v.t) && buffer != data && Apart(h, buffer)
      requires offset <= data.Length && buffer.Length == MAX_HUFF_BUF_SIZE
      requires StaticDecode(v.t, Region(data[..], offset), inLen).Message?
      modifies this`huffBitPos, buffer
      ensures var r := StaticDecode(v.t, Region(data[..], offset), inLen);
        && (ok <==> |r.data| <= MAX_HUFF_BUF_SIZE)
        && (ok ==> i == |r.data| && buffer[..i] == r.data)
    {
      ghost var bits, t := Region(data[..], offset), v.t;
      ghost var r, s := StaticDecode(t, bits, inLen), buffer[..0];
      StaticFromStart(t, bits, inLen);
      var outLen := 0;
      i := 0;
      while outLen < inLen
        invariant 0 <= i <= MAX_HUFF_BUF_SIZE && Region(data[..], offset) == bits
        invariant s == buffer[..i] && r == Behind(s, StaticFrom(t, bits, outLen, inLen))
        decreases inLen - outLen
      {
        if i == MAX_HUFF_BUF_SIZE {
          StaticMore(r, s, t, bits, outLen, inLen);
          return false, i;
        }
        outLen, s := DecompressNext(h, data, offset, outLen, buffer, i, v, r, s, inLen);
        i := i + 1;
      }
      ok := true;
    }

    /** Huff_DecompressPacket; false stands for the fatal error. */
    method DecompressPacket(h: H.HuffTree, msg: SizeBuf, offset: nat, ghost v: View) returns (ok: bool)
      requires h.Holds(v) && KnowsAll(v.t) && msg.cursize <= msg.data.Length
      requires DecompressFits(v.t, msg.data[..], msg.cursize, msg.maxsize, offset)
      modifies this`huffBitPos, msg`cursize, msg.data
      ensures ok <==> !DecompressFails(v.t, old(msg.data[..]), old(msg.cursize), msg.maxsize, offset)
      ensures ok ==> Decompressed(v.t, old(msg.data[..]), old(msg.cursize), msg.maxsize, offset,
                                  msg.data[..], msg.cursize)
    {
      var inLen := msg.cursize - offset;
      if inLen <= 0 || inLen >= MAX_HUFF_BUF_SIZE { return true; }
      if msg.data[offset] >= 0x80 {
        msg.cursize := msg.cursize - 1;
        Shift(msg.data, offset, offset + 1, msg.cursize);
        return true;
      }
      ok := Unpack(h, msg, offset, 8 * inLen - 8 - msg.data[offset], v);
    }

    /** Huff_DecompressPacket, coded form. */
    method Unpack(h: H.HuffTree, msg: SizeBuf, offset: nat, inLen: int, ghost v: View) returns (ok: bool)
      requires h.Holds(v) && KnowsAll(v.t) && Encodable(msg.data[..], msg.cursize, offset)
      requires DecompressFits(v.t, msg.data[..], msg.cursize, msg.maxsize, offset)
      requires msg.data[offset] < 0x80 && inLen == BitCount(msg.data[..], msg.cursize, offset)
      modifies this`huffBitPos, msg`cursize, msg.data
      ensures ok <==> !DecompressFails(v.t, old(msg.data[..]), old(msg.cursize), msg.maxsize, offset)
      ensures ok ==> Decompressed(v.t, old(msg.data[..]), old(msg.cursize), msg.maxsize, offset,
                                  msg.data[..], msg.cursize)
    {
      ghost var d, c, r := msg.data[..], msg.cursize, Expanded(v.t, msg.data[..], msg.cursize, offset).data;
      var buffer := new byte[MAX_HUFF_BUF_SIZE];
      var n;
      ok, n := DecompressBytes(h, msg.data, offset + 1, inLen, buffer, v);
      assert msg.data[..] == d;
      if !ok { return false; }
      UnpackedFits(v.t, d, c, msg.maxsize, offset, n);
      msg.cursize := offset + n;
      if msg.cursize > msg.maxsize { return false; }
      CopyOut(msg.data, offset, buffer, n);
      UnpackedForm(v.t, d, c, msg.maxsize, offset, buffer[..], n, msg.data[..], msg.cursize);
    }
  }

  lemma PathFetched(t: FullTree, bits: BitString, pos: nat, ch: byte, end: nat)
    requires Walk(t, 0, bits, pos).At? && end == Walk(t, 0, bits, pos).end
    requires ch == SymbolOf(t[Walk(t, 0, bits, pos).leaf].kind) % 256
    ensures FetchPath(t, bits, pos) == Byte(ch, end)
  {
  }

  lemma UnpackedFits(t: FullTree, d: seq<byte>, c: int, max: int, offset: nat, n: nat)
    requires DecompressFits(t, d, c, max, offset) && Encodable(d, c, offset) && d[offset] < 0x80
    requires n == |Expanded(t, d, c, offset).data| <= MAX_HUFF_BUF_SIZE
    ensures offset + n <= max ==> offset + n <= |d|
    ensures DecompressFails(t, d, c, max, offset) <==> offset + n > max
  {
  }

  lemma UnpackedForm(t: FullTree, d: seq<byte>, c: int, max: int, offset: nat, buffer: seq<byte>, n: nat,
                     d2: seq<byte>, c2: int)
    requires DecompressFits(t, d, c, max, offset) && Encodable(d, c, offset) && d[offset] < 0x80
    requires n == |Expanded(t, d, c, offset).data| <= |buffer| && buffer[..n] == Expanded(t, d, c, offset).data
    requires offset + n <= |d| && d2 == Pasted(d, offset, buffer, n) && c2 == offset + n
    ensures Decompressed(t, d, c, max, offset, d2, c2)
  {
  }

  /** memmove within the memory. */
  method Shift(data: array<byte>, to: nat, from: nat, n: nat)
    requires to + n <= data.Length && from + n <= data.Length
    modifies data
    ensures data[..] == Pasted(old(data[..]), to, old(data[from..from + n]), n)
  {
    forall i | 0 <= i < n {
      data[to + i] := data[from + i];
    }
  }

  lemma RawForm(t: FullTree, d: seq<byte>, c: int, offset: nat, d2: seq<byte>, c2: int)
    requires Encodable(d, c, offset) && CompressFits(t, d, c, offset) && GoesRaw(t, d[offset..c])
    requires d2 == Pasted(d, offset + 1, d[offset..c], c - offset)[offset := 0x80] && c2 == c + 1
    ensures Compressed(t, d, c, offset, d2, c2)
  {
  }

  lemma CodedSmall(t: FullTree, d: seq<byte>, c: int, offset: nat, b: seq<byte>, buffer: seq<byte>, pos: nat)
    requires Encodable(d, c, offset) && CompressFits(t, d, c, offset) && !GoesRaw(t, d[offset..c])
    requires Written(buffer, pos, b, 0, StaticBits(t, d[offset..c])) && |b| == MAX_HUFF_BUF_SIZE
    ensures pos / 8 + 1 <= |buffer| && 8 * (pos / 8 + 1) - pos < 256
    ensures pos / 8 + 1 == CodedSize(t, d[offset..c])
  {
  }

  lemma CodedForm(t: FullTree, d: seq<byte>, c: int, offset: nat, b: seq<byte>, buffer: seq<byte>, pos: nat,
                  d2: seq<byte>, c2: int)
    requires Encodable(d, c, offset) && CompressFits(t, d, c, offset) && !GoesRaw(t, d[offset..c])
    requires Written(buffer, pos, b, 0, StaticBits(t, d[offset..c]))
    requires pos / 8 + 1 <= |buffer| && 8 * (pos / 8 + 1) - pos < 256
    requires d2 == Pasted(d[offset := 8 * (pos / 8 + 1) - pos], offset + 1, buffer, pos / 8 + 1)
    requires c2 == offset + pos / 8 + 2
    ensures Compressed(t, d, c, offset, d2, c2)
  {
    SameBits(d2[offset + 1..], buffer, pos);
    assert Region(d2, offset + 1)[0..pos] == BitsOf(d2[offset + 1..], pos);
    assert BitsOf(b, 0) + StaticBits(t, d[offset..c]) == StaticBits(t, d[offset..c]);
  }

  lemma DepositedMessage(d: seq<byte>, c: int, max: int, offset: nat, buffer: seq<byte>, r: Decoded, n: nat,
                         d2: seq<byte>, c2: int)
    requires DecryptFits(d, c, max, offset) && offset < c
    requires n == HeaderLength(d, max, offset) && r == Deciphered(d, c, max, offset) && Deposited(buffer, r, n)
    requires c2 == offset + n <= |d| && d2 == Pasted(d, offset, buffer, n)
    ensures Decrypted(d, c, max, offset, d2, c2)
  {
    PastedSlice(d, offset, buffer, n, |r.data|, d2);
  }

  lemma PastedSlice(d: seq<byte>, at: nat, src: seq<byte>, n: nat, k: nat, d2: seq<byte>)
    requires k <= n <= |src| && at + n <= |d| && d2 == Pasted(d, at, src, n)
    ensures d2[at..at + k] == src[..k] && (k < n ==> d2[at + k] == src[k])
  {
  }

  /** The decoded bytes are in the buffer, and a zero behind them if there are too few. */
  ghost predicate Deposited(buffer: seq<byte>, r: Decoded, n: nat) {
    && r.Message? && |r.data| <= n <= |buffer|
    && buffer[..|r.data|] == r.data
    && (|r.data| < n ==> buffer[|r.data|] == 0)
  }

  /** The scratch buffer holds the header and the bits of the message. */
  ghost predicate InScratch(m: seq<byte>, buffer: seq<byte>, pos: nat) {
    && |buffer| == MAX_HUFF_BUF_SIZE && pos == 16 + |AdaptiveBits(m)| <= 8 * |buffer|
    && buffer[0] == |m| / 256 && buffer[1] == |m| % 256
    && BitsOf(buffer, pos)[16..] == AdaptiveBits(m)
  }

  lemma ScratchDone(m: seq<byte>, b: seq<byte>, buffer: seq<byte>, pos: nat)
    requires |b| == MAX_HUFF_BUF_SIZE && b[0] == |m| / 256 && b[1] == |m| % 256
    requires Written(buffer, pos, b, 16, AdaptiveBits(m))
    ensures InScratch(m, buffer, pos)
  {
    assert buffer[..2] == b[..2];
    assert (BitsOf(b, 16) + AdaptiveBits(m))[16..] == AdaptiveBits(m);
  }

  /** memcpy: the memory after the first `n` bytes of `src` were put at `at`. */
  function Pasted(d: seq<byte>, at: nat, src: seq<byte>, n: nat): (d2: seq<byte>)
    requires n <= |src| && at + n <= |d|
    ensures |d2| == |d|
  {
    d[..at] + src[..n] + d[at + n..]
  }

  method CopyOut(data: array<byte>, at: nat, src: array<byte>, n: nat)
    requires n <= src.Length && at + n <= data.Length && data != src
    modifies data
    ensures data[..] == Pasted(old(data[..]), at, src[..], n)
  {
    forall i | 0 <= i < n {
      data[at + i] := src[i];
    }
  }

  /** The message holds what the scratch buffer holds. */
  lemma CopiedMessage(d: seq<byte>, c: int, offset: nat, buffer: seq<byte>, pos: nat, d2: seq<byte>, c2: int)
    requires Encodable(d, c, offset) && EncryptFits(d, c, offset) && InScratch(d[offset..c], buffer, pos)
    requires d2 == Pasted(d, offset, buffer, pos / 8 + 1) && c2 == offset + pos / 8 + 1
    ensures Encrypted(d, c, offset, d2, c2)
  {
    SameBits(d2[offset..], buffer, pos);
    assert Region(d2, offset)[16..pos] == BitsOf(d2[offset..], pos)[16..];
  }

  /** The leaf table knows exactly the bytes of the tree, and the not-yet-transmitted leaf. */
  lemma LeafIs(h: H.HuffTree, v: View, s: nat)
    requires h.Holds(v) && s < 256
    ensures Shape(h, v.ord, v.t)
    ensures h.leaf[s] == NIL <==> !Has(v.t, s)
    ensures Has(v.t, s) ==> h.leaf[s] == v.ord[Find(v.t, s)]
    ensures h.leaf[256] == v.ord[|v.t| - 1]
  {
  }
}
