/** Writing whole bytes and stored blocks (miniz tdefl_flush_block). */
module Stored {
  import opened Bits
  import opened BitWriter
  import opened Streams
  import opened Lz77
  import opened Dictionary
  import Adler

  lemma StreamLength(w: Writer)
    requires w.Valid()
    ensures |w.Stream()| == 8 * w.pos + w.bitsIn
  {
    BytesBitsLength(w.buf[..w.pos]);
  }

  lemma BytesBitsLength(b: seq<Byte>)
    ensures |BytesBits(b)| == 8 * |b|
  {
    ReadBytesBack(b);
  }

  lemma PadIs(pos: nat, bitsIn: nat)
    requires bitsIn < 8
    ensures Pad(8 * pos + bitsIn) == if bitsIn == 0 then 0 else 8 - bitsIn
  {
  }

  lemma PadSame(a: nat, b: nat, k: nat)
    requires Aligned(a, b)
    ensures Pad(a + k) == Pad(b + k)
  {
    assert (a + k) % 8 == (b + k) % 8;
  }

  lemma ZerosFit(n: nat)
    ensures 0 < Pow2(n)
  {
  }

  /** Pads with zero bits to the next byte. */
  method Align(w: Writer)
    requires w.Valid()
    modifies w, w.buf
    ensures w.Valid() && w.Keeps(old(w.buf[..w.pos]))
    ensures w.HasRoom() ==> w.Stream() == old(w.Stream()) + BitsOf(0, Pad(|old(w.Stream())|))
    ensures w.Size() <= old(w.Size()) + 7
  {
    StreamLength(w);
    PadIs(w.pos, w.bitsIn);
    if w.bitsIn > 0 {
      w.PutBits(0, 8 - w.bitsIn);
    } else {
      assert w.Stream() + [] == w.Stream();
    }
  }

  lemma Join(s: seq<bool>, a: seq<bool>, b: seq<bool>)
    ensures (s + a) + b == s + (a + b)
  {
  }

  lemma Join4(s: seq<bool>, a: seq<bool>, b: seq<bool>, c: seq<bool>)
    ensures ((s + a) + b) + c == s + (a + (b + c))
  {
  }

  /** A stored block's length and its complement. */
  method PutLength(w: Writer, n: nat)
    requires w.Valid() && n < 0x1_0000
    modifies w, w.buf
    ensures w.Valid() && w.Keeps(old(w.buf[..w.pos]))
    ensures w.HasRoom() ==> w.Stream() == old(w.Stream()) + StoredLength(n)
    ensures w.Size() <= old(w.Size()) + 32
  {
    ghost var s, b0: seq<Byte> := w.Stream(), w.buf[..w.pos];
    SixteenBits();
    w.PutBits(n, 16);
    ghost var b1: seq<Byte> := w.buf[..w.pos];
    w.PutBits(0xFFFF - n, 16);
    PrefixTrans(b0, b1, w.buf[..w.pos]);
    Join(s, BitsOf(n, 16), BitsOf(0xFFFF - n, 16));
  }

  lemma SixteenBits()
    ensures Pow2(16) == 0x1_0000 && Pow2(8) == 256
  {
    assert Pow2(8) == 256;
    assert Pow2(12) == 4096;
  }

  /** The type bits, padding and lengths of a stored block. */
  method PutStoredHeader(w: Writer, n: nat)
    requires w.Valid() && n < 0x1_0000
    modifies w, w.buf
    ensures w.Valid() && w.Keeps(old(w.buf[..w.pos]))
    ensures w.HasRoom() ==>
              w.Stream() == old(w.Stream()) + (BitsOf(0, 2) + (BitsOf(0, Pad(|old(w.Stream())| + 2)) + StoredLength(n)))
    ensures w.Size() <= old(w.Size()) + 41
  {
    ghost var s, b0: seq<Byte> := w.Stream(), w.buf[..w.pos];
    ZerosFit(2);
    w.PutBits(0, 2);
    ghost var b1: seq<Byte> := w.buf[..w.pos];
    Align(w);
    ghost var b2: seq<Byte> := w.buf[..w.pos];
    PrefixTrans(b0, b1, b2);
    PutLength(w, n);
    PrefixTrans(b0, b2, w.buf[..w.pos]);
    Join4(s, BitsOf(0, 2), BitsOf(0, Pad(|s| + 2)), StoredLength(n));
  }

  lemma SliceSnoc(src: seq<Byte>, from: nat, i: nat)
    requires from + i < |src|
    ensures src[from..from + (i + 1)] == src[from..from + i] + [src[from + i]]
  {
  }

  /** The n bytes of the source from position from on, read back from the ring. */
  method PutFromRing(w: Writer, d: Dict, from: nat, n: nat)
    requires w.Valid() && d.Valid() && d.dict != w.buf && from + n <= |d.src| <= from + DICT_SIZE
    modifies w, w.buf
    ensures w.Valid() && w.Keeps(old(w.buf[..w.pos]))
    ensures w.HasRoom() ==> w.Stream() == old(w.Stream()) + BytesBits(d.src[from..from + n])
    ensures w.Size() <= old(w.Size()) + 8 * n
  {
    hide Dict.Chained;
    ghost var s, b0: seq<Byte> := w.Stream(), w.buf[..w.pos];
    var i := 0;
    assert s + BytesBits(d.src[from..from]) == s;
    while i < n
      invariant i <= n && w.Valid() && w.Keeps(b0)
      invariant w.HasRoom() ==> w.Stream() == s + BytesBits(d.src[from..from + i])
      invariant w.Size() <= old(w.Size()) + 8 * i
    {
      PutRingByte(w, d, from, i, s, b0);
      i := i + 1;
    }
  }

  method PutRingByte(w: Writer, d: Dict, from: nat, i: nat, ghost s: seq<bool>, ghost b0: seq<Byte>)
    requires w.Valid() && d.Valid() && d.dict != w.buf && from + i < |d.src| <= from + DICT_SIZE && w.Keeps(b0)
    requires w.HasRoom() ==> w.Stream() == s + BytesBits(d.src[from..from + i])
    modifies w, w.buf
    ensures w.Valid() && w.Keeps(b0)
    ensures w.HasRoom() ==> w.Stream() == s + BytesBits(d.src[from..from + (i + 1)])
    ensures w.Size() <= old(w.Size()) + 8
  {
    hide Dict.Chained;
    ghost var b1: seq<Byte>, sofar := w.buf[..w.pos], d.src[from..from + i];
    RingRead(d.dict[..], d.src, from + i, 0);
    SixteenBits();
    var c: Byte := d.dict[(from + i) % DICT_SIZE];
    w.PutBits(c, 8);
    PrefixTrans(b0, b1, w.buf[..w.pos]);
    SliceSnoc(d.src, from, i);
    BytesBitsSnoc(sofar, c);
    Join(s, BytesBits(sofar), BitsOf(c, 8));
  }

  lemma StoredJoin(s: seq<bool>, t: seq<bool>, p: seq<bool>, l: seq<bool>, d: seq<bool>)
    ensures (s + (t + (p + l))) + d == s + (t + (p + (l + d)))
  {
  }

  /** A stored block of n source bytes, whose type bits start at a position that is off in its byte. */
  method PutStored(w: Writer, d: Dict, from: nat, n: nat, ghost off: nat)
    requires w.Valid() && d.Valid() && d.dict != w.buf && from + n <= |d.src| <= from + DICT_SIZE
    requires Aligned(|w.Stream()|, off)
    modifies w, w.buf
    ensures w.Valid() && w.Keeps(old(w.buf[..w.pos]))
    ensures w.HasRoom() ==> w.Stream() == old(w.Stream()) + StoredBody(off, d.src[from..from + n])
    ensures w.Size() <= old(w.Size()) + 41 + 8 * n
  {
    hide Dict.Chained;
    ghost var s, b0: seq<Byte> := w.Stream(), w.buf[..w.pos];
    PadSame(|s|, off, 2);
    PutStoredHeader(w, n);
    ghost var b1: seq<Byte> := w.buf[..w.pos];
    PutFromRing(w, d, from, n);
    PrefixTrans(b0, b1, w.buf[..w.pos]);
    StoredJoin(s, BitsOf(0, 2), BitsOf(0, Pad(off + 2)), StoredLength(n), BytesBits(d.src[from..from + n]));
  }

  /** An empty stored block, final flag and all: it ends the output on a byte boundary. */
  method PutSync(w: Writer, ghost off: nat)
    requires w.Valid() && Aligned(|w.Stream()|, off)
    modifies w, w.buf
    ensures w.Valid() && w.Keeps(old(w.buf[..w.pos]))
    ensures w.HasRoom() ==> w.Stream() == old(w.Stream()) + ([false] + StoredBody(off + 1, []))
    ensures w.Size() <= old(w.Size()) + 42
  {
    ghost var s, b0: seq<Byte> := w.Stream(), w.buf[..w.pos];
    PadSame(|s|, off, 3);
    PutSyncStart(w);
    ghost var b1: seq<Byte> := w.buf[..w.pos];
    PutLength(w, 0);
    PrefixTrans(b0, b1, w.buf[..w.pos]);
    SyncParts(s, BitsOf(0, Pad(off + 3)), StoredLength(0));
  }

  method PutSyncStart(w: Writer)
    requires w.Valid()
    modifies w, w.buf
    ensures w.Valid() && w.Keeps(old(w.buf[..w.pos]))
    ensures w.HasRoom() ==> w.Stream() == (old(w.Stream()) + BitsOf(0, 3)) + BitsOf(0, Pad(|old(w.Stream())| + 3))
    ensures w.Size() <= old(w.Size()) + 10
  {
    ghost var b0: seq<Byte> := w.buf[..w.pos];
    ZerosFit(3);
    w.PutBits(0, 3);
    ghost var b1: seq<Byte> := w.buf[..w.pos];
    Align(w);
    PrefixTrans(b0, b1, w.buf[..w.pos]);
  }

  lemma SyncParts(s: seq<bool>, p: seq<bool>, l: seq<bool>)
    ensures ((s + BitsOf(0, 3)) + p) + l == s + ([false] + (BitsOf(0, 2) + (p + (l + BytesBits([])))))
  {
    assert BitsOf(0, 3) == [false] + BitsOf(0, 2);
    Join4(s, BitsOf(0, 3), p, l);
    assert l + BytesBits([]) == l;
  }

  // ----- the zlib header and trailer

  ghost function ZlibHeader(): (b: seq<bool>)
    ensures |b| == 16
  {
    BytesBitsLength([0x78, 0x01]);
    BytesBits([0x78, 0x01])
  }

  lemma TwoBytes(a: Byte, b: Byte)
    ensures BytesBits([a, b]) == BitsOf(a, 8) + BitsOf(b, 8)
  {
    assert [a, b][1..] == [b] && [b][1..] == [];
  }

  method PutZlibHeader(w: Writer)
    requires w.Valid()
    modifies w, w.buf
    ensures w.Valid() && w.Keeps(old(w.buf[..w.pos]))
    ensures w.HasRoom() ==> w.Stream() == old(w.Stream()) + ZlibHeader()
    ensures w.Size() <= old(w.Size()) + 16
  {
    ghost var s, b0: seq<Byte> := w.Stream(), w.buf[..w.pos];
    SixteenBits();
    w.PutBits(0x78, 8);
    ghost var b1: seq<Byte> := w.buf[..w.pos];
    w.PutBits(0x01, 8);
    PrefixTrans(b0, b1, w.buf[..w.pos]);
    TwoBytes(0x78, 0x01);
    Join(s, BitsOf(0x78, 8), BitsOf(0x01, 8));
  }

  /** A 32-bit number shifted up by a byte. */
  function Shift8(a: Adler.U32): Adler.U32 { a * 256 % 0x1_0000_0000 }

  /** The bytes of a 32-bit number, high byte first. */
  ghost function Trailer(a: Adler.U32, k: nat): (b: seq<Byte>)
    requires k <= 4
    ensures |b| == k
    decreases k
  {
    if k == 0 then [] else [a / 0x100_0000] + Trailer(Shift8(a), k - 1)
  }

  method PutAdler(w: Writer, adler: Adler.U32)
    requires w.Valid()
    modifies w, w.buf
    ensures w.Valid() && w.Keeps(old(w.buf[..w.pos]))
    ensures w.HasRoom() ==> w.Stream() == old(w.Stream()) + BytesBits(Trailer(adler, 4))
    ensures w.Size() <= old(w.Size()) + 32
  {
    ghost var s, b0: seq<Byte> := w.Stream(), w.buf[..w.pos];
    var i: nat, a := 0, adler;
    ghost var done: seq<Byte> := [];
    assert s + BytesBits(done) == s && done + Trailer(adler, 4) == Trailer(adler, 4);
    while i < 4
      invariant i <= 4 && w.Valid() && w.Keeps(b0) && done + Trailer(a, 4 - i) == Trailer(adler, 4)
      invariant w.HasRoom() ==> w.Stream() == s + BytesBits(done)
      invariant w.Size() <= old(w.Size()) + 8 * i
    {
      PutTopByte(w, a, s, b0, done);
      TrailerStep(done, a, 4 - i);
      done := done + [a / 0x100_0000];
      a := Shift8(a);
      i := i + 1;
    }
    assert done + [] == done;
  }

  method PutTopByte(w: Writer, a: Adler.U32, ghost s: seq<bool>, ghost b0: seq<Byte>, ghost done: seq<Byte>)
    requires w.Valid() && w.Keeps(b0) && (w.HasRoom() ==> w.Stream() == s + BytesBits(done))
    modifies w, w.buf
    ensures w.Valid() && w.Keeps(b0)
    ensures w.HasRoom() ==> w.Stream() == s + BytesBits(done + [a / 0x100_0000])
    ensures w.Size() <= old(w.Size()) + 8
  {
    ghost var b1: seq<Byte> := w.buf[..w.pos];
    var c: Byte := a / 0x100_0000;
    SixteenBits();
    w.PutBits(c, 8);
    PrefixTrans(b0, b1, w.buf[..w.pos]);
    BytesBitsSnoc(done, c);
    Join(s, BytesBits(done), BitsOf(c, 8));
  }

  lemma TrailerStep(done: seq<Byte>, a: Adler.U32, k: nat)
    requires 1 <= k <= 4
    ensures done + Trailer(a, k) == (done + [a / 0x100_0000]) + Trailer(Shift8(a), k - 1)
  {
  }

  /** What is left below the top byte. */
  lemma Shifted(a: Adler.U32)
    ensures Shift8(a) == 256 * (a % 0x100_0000)
  {
    var t, r := a / 0x100_0000, a % 0x100_0000;
    assert a * 256 == t * 0x1_0000_0000 + 256 * r;
  }

  lemma BigEndianCons(c: Byte, t: seq<Byte>)
    requires |t| <= 3
    ensures BigEndian([c] + t) ==
            c * (if |t| == 3 then 0x100_0000 else if |t| == 2 then 0x1_0000 else if |t| == 1 then 0x100 else 1) +
            BigEndian(t)
    decreases |t|
  {
    if t == [] {
      assert ([c] + t)[..0] == [];
    } else {
      var n := |t| - 1;
      assert ([c] + t)[..n + 1] == [c] + t[..n];
      BigEndianCons(c, t[..n]);
    }
  }

  /** Reading the trailer back. */
  lemma TrailerBack(a: Adler.U32)
    ensures BigEndian(Trailer(a, 4)) == a
  {
    TrailerTop(a, 4);
  }

  /** The first k bytes of the trailer are the top k bytes of the number. */
  lemma {:induction false} TrailerTop(a: Adler.U32, k: nat)
    requires k <= 4
    ensures BigEndian(Trailer(a, k)) ==
            if k == 4 then a else if k == 3 then a / 0x100 else if k == 2 then a / 0x1_0000
              else if k == 1 then a / 0x100_0000 else 0
    decreases k
  {
    if k > 0 {
      var b: Adler.U32 := Shift8(a);
      Shifted(a);
      TrailerTop(b, k - 1);
      BigEndianCons(a / 0x100_0000, Trailer(b, k - 1));
    }
  }
}
