/** What the format's other numbers and fields mean, stated apart from how they are read. */
module FormatFacts {
  import opened Bits
  import opened Canonical
  import opened Deflate
  import opened RunLength
  import opened Streams
  import opened LittleEndian
  import opened Decompressor

  // ----- bits and bytes

  /** Bit k of a number, the least significant one first. */
  lemma {:induction false} BitAt(v: nat, n: nat, k: nat)
    requires k < n
    ensures BitsOf(v, n)[k] == (Shr(v, k) % 2 == 1)
  {
    if k > 0 {
      BitAt(v / 2, n - 1, k - 1);
    }
  }

  /** A stream's bit 8 i + k is bit k of its byte i. */
  lemma {:induction false} StreamBit(bytes: seq<Byte>, i: nat, k: nat)
    requires i < |bytes| && k < 8
    ensures BytesBits(bytes)[8 * i + k] == (Shr(bytes[i], k) % 2 == 1)
  {
    if i == 0 {
      BitAt(bytes[0], 8, k);
    } else {
      StreamBit(bytes[1..], i - 1, k);
      assert 8 * i + k >= 8 && BytesBits(bytes)[8 * i + k] == BytesBits(bytes[1..])[8 * (i - 1) + k];
    }
  }

  /** A number in high-byte-first order: byte i has weight 256 to the power of the number of bytes behind it. */
  lemma {:induction false} BigEndianByte(b: seq<Byte>, i: nat)
    requires i < |b|
    ensures Shr(BigEndian(b), 8 * (|b| - 1 - i)) % 256 == b[i]
  {
    var n := |b| - 1;
    var v := BigEndian(b[..n]);
    if i < n {
      hide Shr;
      BigEndianByte(b[..n], i);
      ShrByte(256 * v + b[n], 8 * (n - i));
      assert (256 * v + b[n]) / 256 == v;
    }
  }

  lemma {:induction false} ShrTwice(v: nat, a: nat, b: nat)
    ensures Shr(v, a + b) == Shr(Shr(v, a), b)
  {
    if a > 0 { ShrTwice(v / 2, a - 1, b); }
  }

  lemma FourShifts(v: nat)
    ensures Shr(v, 4) == v / 16
  {
    assert Shr(v, 4) == Shr(v / 2, 3) == Shr(v / 2 / 2, 2) == Shr(v / 4 / 2, 1) == Shr(v / 8 / 2, 0);
  }

  lemma ShrByte(v: nat, k: nat)
    requires k >= 8
    ensures Shr(v, k) == Shr(v / 256, k - 8)
  {
    hide Shr;
    ShrTwice(v, 4, 4);
    FourShifts(v);
    FourShifts(v / 16);
    ShrTwice(v, 8, k - 8);
  }

  // ----- copies

  /** A match repeats what lies dist bytes back, its own output included; this determines the result. */
  lemma {:induction false} CopyRepeats(out: seq<Byte>, len: nat, dist: nat, k: nat)
    requires 0 < dist <= |out| && k < len
    ensures CopyMatch(out, len, dist)[|out| + k] == CopyMatch(out, len, dist)[|out| + k - dist]
    decreases len
  {
    var more := out + [out[|out| - dist]];
    if k > 0 {
      CopyRepeats(more, len - 1, dist, k - 1);
    } else {
      var r := CopyMatch(more, len - 1, dist);
      assert more <= r && r[|out|] == more[|out|] && r[|out| - dist] == more[|out| - dist];
    }
  }

  // ----- blocks

  /** The block type is the number in the second and third bit. */
  lemma BlockType(bits: seq<bool>, out: seq<Byte>)
    requires |bits| >= 3
    ensures var kind := ValueOf(bits[1..3]);
            InflateBlock(bits, out) ==
            match (if kind == 0 then InflateStored(bits[3..], out)
                   else if kind == 1 then InflateCodes(FixedLit(), FixedDist(), bits[3..], out)
                   else if kind == 2 then DynamicBody(bits[3..], out)
                   else None)
            case None => None
            case Some((rest, out')) => Some((bits[0], rest, out'))
  {
    var b := bits[1..3];
    assert b[0] == bits[1] && b[1..][0] == bits[2] && b[1..][1..] == [];
    assert ValueOf(b) == (if bits[1] then 1 else 0) + 2 * (if bits[2] then 1 else 0);
  }

  ghost function DynamicBody(bits: seq<bool>, out: seq<Byte>): Option<(seq<bool>, seq<Byte>)> {
    match ReadTables(bits)
    case None => None
    case Some((lit, dst, rest)) => InflateCodes(lit, dst, rest, out)
  }

  /**
   * The code length code's lengths come in the order in which their symbols are likely to be used: the runs, 0, then
   * 8 and the lengths ever further from it, the shorter of two first.
   */
  lemma ClenOrder(k: nat)
    requires k < 19
    ensures CLEN_ORDER[k] == if k < 3 then 16 + k else if k == 3 then 0
                             else if k % 2 == 0 then 8 + (k - 4) / 2 else 8 - (k - 3) / 2
  {
  }

  lemma ClenOrderReaches(sym: nat) returns (k: nat)
    requires sym <= 18
    ensures k < 19 && CLEN_ORDER[k] == sym
  {
    k := if sym >= 16 then sym - 16 else if sym == 0 then 3 else if sym >= 8 then 2 * (sym - 8) + 4 else 19 - 2 * sym;
    ClenOrder(k);
  }

  /** Repeats of a length by three to six; zeros by three to ten, or by eleven to 138: each run has one code. */
  lemma RunCode(sym: nat, n: nat)
    requires 16 <= sym <= 18
    ensures (exists extra: nat | extra < Pow2(ExtraBits(sym)) :: n == RunSize(sym, extra)) <==>
            if sym == 16 then 3 <= n <= 6 else if sym == 17 then 3 <= n <= 10 else 11 <= n <= 138
  {
    assert Pow2(2) == 4 && Pow2(3) == 8 && Pow2(7) == 128;
    var low := if sym == 18 then 11 else 3;
    if low <= n < low + Pow2(ExtraBits(sym)) {
      var extra: nat := n - low;
      assert n == RunSize(sym, extra);
    }
  }

  /** How many lengths an item of the code length alphabet stands for. */
  ghost function RunSize(sym: nat, extra: nat): nat
    requires 16 <= sym <= 18 && extra < Pow2(ExtraBits(sym))
  {
    |RunOf(Item(sym, extra), [0])|
  }

  /** The decoder's side of the same: what a run symbol appends. */
  lemma RunRead(sym: nat, acc: seq<nat>, bits: seq<bool>)
    requires 16 <= sym <= 18 && acc != [] && |bits| >= ExtraBits(sym)
    ensures var e := ExtraBits(sym);
            var extra := ValueOf(bits[..e]);
            ReadRun(sym, acc, bits) ==
            Some((seq(RunSize(sym, extra), _ => if sym == 16 then acc[|acc| - 1] else 0), bits[e..]))
  {
    var e := ExtraBits(sym);
    var extra, v := ValueOf(bits[..e]), if sym == 16 then acc[|acc| - 1] else 0;
    assert Repeat(v, RunSize(sym, extra)) == seq(RunSize(sym, extra), _ => v);
  }

  // ----- the zlib header

  /**
   * The first byte holds the method, 8, in its low four bits; the second one has the preset dictionary's flag clear
   * in bit 5; and together, the first byte high, they are a multiple of 31.
   */
  lemma HeaderFields(cmf: Byte, flg: Byte)
    ensures HeaderAccepted(cmf, flg) <==>
            ValueOf(BytesBits([cmf, flg])[..4]) == 8 && !BytesBits([cmf, flg])[13] && BigEndian([cmf, flg]) % 31 == 0
    ensures HeaderOk(cmf, flg) <==> HeaderAccepted(cmf, flg) && ValueOf(BytesBits([cmf, flg])[4..8]) <= 7
  {
    var bits := BytesBits([cmf, flg]);
    StreamBit([cmf, flg], 1, 5);
    assert Shr(flg, 5) == flg / 32 by { FiveShifts(flg); }
    assert bits == BitsOf(cmf, 8) + BytesBits([flg]);
    NibblesOf(cmf);
    assert bits[..4] == BitsOf(cmf, 8)[..4] && bits[4..8] == BitsOf(cmf, 8)[4..];
    assert BigEndian([cmf]) == cmf by { assert [cmf][..0] == []; }
    assert [cmf, flg][..1] == [cmf];
  }

  lemma FiveShifts(v: nat)
    ensures Shr(v, 5) == v / 32
  {
    FourShifts(v / 2);
    assert Shr(v, 5) == Shr(v / 2, 4);
  }

  lemma NibblesOf(v: Byte)
    ensures ValueOf(BitsOf(v, 8)[..4]) == v % 16 && ValueOf(BitsOf(v, 8)[4..]) == v / 16
  {
    var lo, hi := v % 16, v / 16;
    assert Pow2(4) == 16;
    ShlIs(hi, 4);
    BitsOfAppend(lo, 4, hi, 4);
    ValueOfBitsOf(lo, 4);
    ValueOfBitsOf(hi, 4);
  }
}
