/** The compressor's output buffer, written low bit first (miniz TDEFL_PUT_BITS). */
module BitWriter {
  import opened Bits

  /** Moving a byte from the bit buffer to the output leaves the bits written the same. */
  lemma MoveByte(q: seq<Byte>, v: nat, n: nat)
    requires n >= 8 && v < Pow2(n)
    ensures BytesBits(q + [v % 256]) + BitsOf(v / 256, n - 8) == BytesBits(q) + BitsOf(v, n)
    ensures v / 256 < Pow2(n - 8)
  {
    var lo, hi := BitsOf(v % 256, 8), BitsOf(v / 256, n - 8);
    BitsOfByte(v, n);
    BytesBitsSnoc(q, v % 256);
    assert (BytesBits(q) + lo) + hi == BytesBits(q) + (lo + hi);
  }

  lemma PrefixTrans(a: seq<Byte>, b: seq<Byte>, c: seq<Byte>)
    requires a <= b && b <= c
    ensures a <= c && |a| <= |b| <= |c|
  {
  }

  class Writer {
    const buf: array<Byte>
    /** Bytes from here on are not written: m_pOutput_buf_end. */
    const end: nat
    var pos: nat
    var bitBuffer: nat
    var bitsIn: nat

    constructor (size: nat, end: nat)
      requires end <= size
      ensures fresh(this) && fresh(buf) && buf.Length == size && this.end == end
      ensures Valid() && pos == 0 && bitsIn == 0 && bitBuffer == 0
    {
      buf := new Byte[size](_ => 0);
      this.end := end;
      pos, bitBuffer, bitsIn := 0, 0, 0;
    }

    ghost predicate Valid()
      reads this
    {
      pos <= end <= buf.Length && bitsIn < 8 && bitBuffer < Pow2(bitsIn)
    }

    /** The bits written so far, including those still held back. */
    ghost function Stream(): (s: seq<bool>)
      requires pos <= buf.Length
      reads this, buf
    {
      BytesBits(buf[..pos]) + BitsOf(bitBuffer, bitsIn)
    }

    /** How many bits are in the output and held back; bytes that did not fit are not among them. */
    ghost function Size(): nat
      reads this
    {
      8 * pos + bitsIn
    }

    /** The bytes written before are still there. */
    ghost predicate Keeps(bytes: seq<Byte>)
      reads this, buf
    {
      pos <= buf.Length && bytes <= buf[..pos]
    }

    /** Room for at least one more byte: everything written so far is in the buffer. */
    predicate HasRoom()
      reads this
    {
      pos < end
    }

    /** Moves full bytes from the bit buffer to the output; a byte that does not fit is dropped. */
    method Drain()
      requires pos <= end <= buf.Length && bitsIn <= 32 && bitBuffer < Pow2(bitsIn)
      modifies this, buf
      ensures Valid() && Keeps(old(buf[..pos]))
      ensures HasRoom() ==> Stream() == old(Stream())
      ensures Size() <= old(Size())
    {
      ghost var s, p, b: seq<Byte> := Stream(), pos, buf[..pos];
      while bitsIn >= 8
        invariant pos <= end && p <= pos && bitBuffer < Pow2(bitsIn) && buf[..p] == b
        invariant (pos < end ==> Stream() == s) && Size() <= old(Size())
      {
        ghost var q: seq<Byte> := buf[..pos];
        MoveByte(q, bitBuffer, bitsIn);
        if pos < end {
          buf[pos] := bitBuffer % 256;
          pos := pos + 1;
          assert buf[..pos] == q + [bitBuffer % 256];
        }
        bitBuffer := bitBuffer / 256;
        bitsIn := bitsIn - 8;
      }
    }

    /** Appends the l low bits of b. */
    method PutBits(b: nat, l: nat)
      requires Valid() && l <= 16 && b < Pow2(l)
      modifies this, buf
      ensures Valid() && Keeps(old(buf[..pos]))
      ensures HasRoom() ==> Stream() == old(Stream()) + BitsOf(b, l)
      ensures Size() <= old(Size()) + l
    {
      BitsOfAppend(bitBuffer, bitsIn, b, l);
      AppendBound(bitBuffer, bitsIn, b, l);
      ghost var bytes, held, s := BytesBits(buf[..pos]), BitsOf(bitBuffer, bitsIn), Stream();
      bitBuffer := bitBuffer + Shl(b, bitsIn);
      bitsIn := bitsIn + l;
      assert Stream() == bytes + (held + BitsOf(b, l));
      assert bytes + (held + BitsOf(b, l)) == s + BitsOf(b, l);
      Drain();
    }

    /** Goes back to an earlier state of the output, as when a block is encoded again. */
    method Rewind(pos: nat, bitBuffer: nat, bitsIn: nat)
      requires Valid() && pos <= this.pos && bitsIn < 8 && bitBuffer < Pow2(bitsIn)
      modifies this
      ensures Valid() && this.pos == pos && this.bitBuffer == bitBuffer && this.bitsIn == bitsIn
    {
      this.pos, this.bitBuffer, this.bitsIn := pos, bitBuffer, bitsIn;
    }
  }

  /** A Huffman table's counts, code sizes and codes: one row of m_huff_count, m_huff_code_sizes and m_huff_codes. */
  class Table {
    const count: array<nat>
    const size: array<nat>
    const code: array<nat>

    constructor ()
      ensures Valid() && fresh(this) && fresh(count) && fresh(size) && fresh(code)
      ensures forall i | 0 <= i < 288 :: count[i] == 0
    {
      count := new nat[288](_ => 0);
      size := new nat[288](_ => 0);
      code := new nat[288](_ => 0);
    }

    ghost predicate Valid() {
      count.Length == size.Length == code.Length == 288 && count != size && size != code && count != code
    }

    ghost function Arrays(): set<array<nat>> { {count, size, code} }
  }
}
