/** Stored blocks byte by byte: section 3.2.4 of RFC 1951. */
module StoredFacts {
  import opened Bits
  import opened Canonical
  import opened Deflate
  import opened Streams
  import opened Stored
  import opened LittleEndian

  /** What a stored block of the bytes b adds to out, and what is left of b. */
  ghost function StoredBytes(b: seq<Byte>, out: seq<Byte>): Option<(seq<Byte>, seq<Byte>)> {
    if |b| < 4 then None
    else
      var len, nlen := Number(b[..2]), Number(b[2..4]);
      if len + nlen != 0xFFFF || |b| < 4 + len then None else Some((b[4 + len..], out + b[4..4 + len]))
  }

  /**
   * After the type bits, what is left of the byte is skipped; then come the length and its complement, low byte
   * first, and that many bytes.
   */
  lemma StoredLayout(skipped: seq<bool>, b: seq<Byte>, out: seq<Byte>)
    requires |skipped| < 8
    ensures InflateStored(skipped + BytesBits(b), out) ==
            match StoredBytes(b, out)
            case None => None
            case Some((left, out')) => Some((BytesBits(left), out'))
  {
    hide BytesBits, ValueOf, ReadBytes, Number;
    BytesBitsLength(b);
    SkippedBits(|skipped|, |b|);
    var bits := BytesBits(b);
    assert (skipped + bits)[|skipped|..] == bits;
    if |b| >= 4 {
      Slice(b, 0, 2);
      Slice(b, 2, 4);
      BitsOfNumber(b[0..2]);
      BitsOfNumber(b[2..4]);
      assert b[0..2] == b[..2] && bits[0..16] == bits[..16];
      var len := Number(b[..2]);
      if |b| >= 4 + len {
        Slice(b, 4, 4 + len);
        Slice(b, 4 + len, |b|);
        assert b[4 + len..|b|] == b[4 + len..] && bits[8 * (4 + len)..8 * |b|] == bits[32 + 8 * len..];
        ReadBytesBack(b[4..4 + len]);
      }
    }
  }

  lemma SkippedBits(k: nat, n: nat)
    requires k < 8
    ensures (k + 8 * n) % 8 == k
  {
  }

  /** Bytes i to j are bits 8 i to 8 j. */
  lemma Slice(b: seq<Byte>, i: nat, j: nat)
    requires i <= j <= |b|
    ensures |BytesBits(b)| == 8 * |b| && BytesBits(b[i..j]) == BytesBits(b)[8 * i..8 * j]
  {
    hide BytesBits;
    var x, y, z := b[..i], b[i..j], b[j..];
    assert b == (x + y) + z;
    BytesBitsConcat(x + y, z);
    BytesBitsConcat(x, y);
    BytesBitsLength(b);
    BytesBitsLength(x);
    BytesBitsLength(y);
  }
}
