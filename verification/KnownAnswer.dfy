/** A small file, decoded by hand: the text abbbb in the fixed codes, alone and as a zlib file. */
module KnownAnswer {
  import opened Bits
  import opened Canonical
  import opened Deflate
  import opened FixedCodes
  import opened CodeOrder
  import opened Streams
  import opened Stored
  import Adler

  const ABBBB: seq<Byte> := [0x61, 0x62, 0x62, 0x62, 0x62]

  lemma ReadsLit(sym: nat, bits: seq<bool>, rest: seq<bool>)
    requires sym < 288 && FixedLit()[sym] > 0 && bits == Codeword(FixedLit(), sym) + rest
    ensures ReadSym(FixedLit(), bits) == Some((sym, rest))
  {
    hide FixedLit, Codeword, DecodeSym;
    FixedComplete();
    DecodeCodeword(FixedLit(), sym, rest);
  }

  lemma ReadsDist(sym: nat, bits: seq<bool>, rest: seq<bool>)
    requires sym < 32 && FixedDist()[sym] > 0 && bits == Codeword(FixedDist(), sym) + rest
    ensures ReadSym(FixedDist(), bits) == Some((sym, rest))
  {
    hide FixedDist, Codeword, DecodeSym;
    FixedComplete();
    DecodeCodeword(FixedDist(), sym, rest);
  }

  lemma LiteralStep(c: Byte, bits: seq<bool>, rest: seq<bool>, out: seq<Byte>)
    requires ReadSym(FixedLit(), bits) == Some((c as nat, rest))
    ensures InflateCodes(FixedLit(), FixedDist(), bits, out) ==
            InflateCodes(FixedLit(), FixedDist(), rest, out + [c])
  {
  }

  lemma CopyStep(bits: seq<bool>, mid: seq<bool>, rest: seq<bool>, out: seq<Byte>)
    requires ReadSym(FixedLit(), bits) == Some((257 as nat, mid)) && ReadSym(FixedDist(), mid) == Some((0 as nat, rest))
    requires out != []
    ensures InflateCodes(FixedLit(), FixedDist(), bits, out) ==
            InflateCodes(FixedLit(), FixedDist(), rest, CopyMatch(out, 3, 1))
  {
    hide FixedLit, FixedDist, ReadSym;
    assert mid[..0] == [] && mid[0..] == mid && rest[..0] == [] && rest[0..] == rest;
    assert ReadLength(257, mid) == Some((3, mid));
    assert ReadDistance(FixedDist(), mid) == Some((1, rest));
  }

  lemma EndStep(bits: seq<bool>, rest: seq<bool>, out: seq<Byte>)
    requires ReadSym(FixedLit(), bits) == Some((256 as nat, rest))
    ensures InflateCodes(FixedLit(), FixedDist(), bits, out) == Some((rest, out))
  {
  }

  lemma CopyB(out: seq<Byte>)
    requires out == [0x61, 0x62]
    ensures CopyMatch(out, 3, 1) == ABBBB
  {
    var o1: seq<Byte>, o2: seq<Byte> := [0x61, 0x62, 0x62], [0x61, 0x62, 0x62, 0x62];
    assert out + [out[1]] == o1 && o1 + [o1[2]] == o2 && o2 + [o2[3]] == ABBBB;
  }

  lemma CodesOfText(tail: seq<bool>, a: seq<bool>, b: seq<bool>, l: seq<bool>, d: seq<bool>, e: seq<bool>)
    requires FixedLit()[97] > 0 && FixedLit()[98] > 0 && FixedLit()[257] > 0 && FixedLit()[256] > 0
    requires FixedDist()[0] > 0
    requires a == Codeword(FixedLit(), 97) && b == Codeword(FixedLit(), 98) && l == Codeword(FixedLit(), 257)
    requires e == Codeword(FixedLit(), 256) && d == Codeword(FixedDist(), 0)
    ensures InflateCodes(FixedLit(), FixedDist(), a + (b + (l + (d + (e + tail)))), []) == Some((tail, ABBBB))
  {
    hide FixedLit, FixedDist, Codeword, ReadSym, InflateCodes;
    var t5 := e + tail;
    var t4 := d + t5;
    var t3 := l + t4;
    var t2 := b + t3;
    ReadsLit(97, a + t2, t2);
    LiteralStep(97, a + t2, t2, []);
    ReadsLit(98, t2, t3);
    LiteralStep(98, t2, t3, [] + [97]);
    var ab: seq<Byte> := [97, 98];
    assert ([] + [97]) + [98] == ab;
    ReadsLit(257, t3, t4);
    ReadsDist(0, t4, t5);
    CopyStep(t3, t4, t5, ab);
    CopyB(ab);
    ReadsLit(256, t5, tail);
    EndStep(t5, tail, ABBBB);
  }

  lemma TheCodewords()
    ensures FixedLit()[97] > 0 && FixedLit()[98] > 0 && FixedLit()[257] > 0 && FixedLit()[256] > 0
    ensures FixedDist()[0] > 0
    ensures Codeword(FixedLit(), 97) == [true, false, false, true, false, false, false, true]
    ensures Codeword(FixedLit(), 98) == [true, false, false, true, false, false, true, false]
    ensures Codeword(FixedLit(), 257) == [false, false, false, false, false, false, true]
    ensures Codeword(FixedLit(), 256) == [false, false, false, false, false, false, false]
    ensures Codeword(FixedDist(), 0) == [false, false, false, false, false]
  {
    hide FixedLit, FixedDist, Codeword, CodeBits;
    FixedCodeword(97);
    FixedCodeword(98);
    FixedCodeword(257);
    FixedCodeword(256);
    FixedDistance(0);
    CodeA();
    CodeB();
    ShortCodes();
  }

  lemma ShortCodes()
    ensures CodeBits(1, 7) == [false, false, false, false, false, false, true]
    ensures CodeBits(0, 7) == [false, false, false, false, false, false, false]
    ensures CodeBits(0, 5) == [false, false, false, false, false]
  {
  }

  lemma CodeA()
    ensures CodeBits(0x91, 8) == [true, false, false, true, false, false, false, true]
  {
  }

  lemma CodeB()
    ensures CodeBits(0x92, 8) == [true, false, false, true, false, false, true, false]
  {
  }

  const FILE: seq<Byte> := [0x4b, 0x4c, 0x02, 0x02, 0x00]

  lemma TheBits()
    ensures BytesBits(FILE) ==
            [true, true, false] +
            ([true, false, false, true, false, false, false, true] +
             ([true, false, false, true, false, false, true, false] +
              ([false, false, false, false, false, false, true] +
               ([false, false, false, false, false] +
                ([false, false, false, false, false, false, false] + [false, false])))))
  {
    hide BytesBits, BitsOf;
    TheBytes();
    FiveBytes(0x4b, 0x4c, 2, 2, 0);
  }

  lemma TheBytes()
    ensures BitsOf(0x4b, 8) == [true, true, false, true, false, false, true, false]
    ensures BitsOf(0x4c, 8) == [false, false, true, true, false, false, true, false]
    ensures BitsOf(2, 8) == [false, true, false, false, false, false, false, false]
    ensures BitsOf(0, 8) == [false, false, false, false, false, false, false, false]
  {
    Bits4b();
    Bits4c();
    Bits02();
  }

  lemma Bits4b()
    ensures BitsOf(0x4b, 8) == [true, true, false, true, false, false, true, false]
  {
  }

  lemma Bits4c()
    ensures BitsOf(0x4c, 8) == [false, false, true, true, false, false, true, false]
  {
  }

  lemma Bits02()
    ensures BitsOf(2, 8) == [false, true, false, false, false, false, false, false]
    ensures BitsOf(0, 8) == [false, false, false, false, false, false, false, false]
  {
  }

  lemma FiveBytes(a: Byte, b: Byte, c: Byte, d: Byte, e: Byte)
    ensures BytesBits([a, b, c, d, e]) == BitsOf(a, 8) + BitsOf(b, 8) + BitsOf(c, 8) + BitsOf(d, 8) + BitsOf(e, 8)
  {
    hide BytesBits, BitsOf;
    TwoBytes(a, b);
    assert [a, b] + [c] == [a, b, c] && [a, b, c] + [d] == [a, b, c, d] && [a, b, c, d] + [e] == [a, b, c, d, e];
    BytesBitsSnoc([a, b], c);
    BytesBitsSnoc([a, b, c], d);
    BytesBitsSnoc([a, b, c, d], e);
  }

  lemma DecodedWith(more: seq<bool>)
    ensures InflateFrom(BytesBits(FILE) + more, []) == Some(([false, false] + more, ABBBB))
  {
    hide FixedLit, FixedDist, Codeword, InflateCodes, BytesBits;
    TheBits();
    TheCodewords();
    var tail, bits := [false, false] + more, BytesBits(FILE) + more;
    var a, b, l := Codeword(FixedLit(), 97), Codeword(FixedLit(), 98), Codeword(FixedLit(), 257);
    var d, e := Codeword(FixedDist(), 0), Codeword(FixedLit(), 256);
    CodesOfText(tail, a, b, l, d, e);
    AppendTail([true, true, false], a, b, l, d, e, more);
    assert bits[3..] == a + (b + (l + (d + (e + tail))));
  }

  lemma AppendTail(h: seq<bool>, a: seq<bool>, b: seq<bool>, l: seq<bool>, d: seq<bool>, e: seq<bool>, more: seq<bool>)
    ensures (h + (a + (b + (l + (d + (e + [false, false])))))) + more ==
            h + (a + (b + (l + (d + (e + ([false, false] + more))))))
  {
  }

  /** Two literals, a copy of three bytes from one back, and the end of the only block. */
  lemma Decoded()
    ensures Inflate(FILE) == Some(ABBBB)
  {
    hide InflateFrom, BytesBits;
    DecodedWith([]);
    assert BytesBits(FILE) + [] == BytesBits(FILE);
  }

  const ZLIB_FILE: seq<Byte> := [0x78, 0x01, 0x4b, 0x4c, 0x02, 0x02, 0x00, 0x05, 0xBE, 0x01, 0xEA]

  lemma TheSteps()
    ensures Adler.Step((1, 0), 0x61) == (98, 98) && Adler.Step((98, 98), 0x62) == (196, 294)
    ensures Adler.Step((196, 294), 0x62) == (294, 588) && Adler.Step((294, 588), 0x62) == (392, 980)
    ensures Adler.Step((392, 980), 0x62) == (0x1EA, 0x5BE)
  {
  }

  /** The checksum of five bytes, sum by sum. */
  lemma TheChecksum()
    ensures Adler.Checksum(ABBBB) == 0x05BE_01EA
  {
    hide Adler.Sums, Adler.Step;
    var s0: seq<Byte>, s1: seq<Byte>, s2: seq<Byte>, s3: seq<Byte>, s4: seq<Byte> :=
      [], [0x61], [0x61, 0x62], [0x61, 0x62, 0x62], [0x61, 0x62, 0x62, 0x62];
    TheSteps();
    Adler.SumsNothing((1, 0), s0);
    NextSum(s0, 0x61, s1);
    NextSum(s1, 0x62, s2);
    NextSum(s2, 0x62, s3);
    NextSum(s3, 0x62, s4);
    NextSum(s4, 0x62, ABBBB);
  }

  lemma NextSum(x: seq<Byte>, c: Byte, y: seq<Byte>)
    requires y == x + [c]
    ensures Adler.Sums((1, 0), y) == Adler.Step(Adler.Sums((1, 0), x), c)
  {
    assert y[..|y| - 1] == x;
  }

  /** With a header in front and the checksum behind, it is a zlib file. */
  lemma ZlibDecoded()
    ensures Unzlib(ZLIB_FILE) == Some(ABBBB)
  {
    hide InflateFrom, BytesBits, Adler.Checksum, ReadBytes, BigEndian;
    var trailer: seq<Byte> := [0x05, 0xBE, 0x01, 0xEA];
    var t := BytesBits(trailer);
    assert ZLIB_FILE[2..] == FILE + trailer;
    BytesBitsConcat(FILE, trailer);
    DecodedWith(t);
    ReadBytesBack(trailer);
    TheChecksum();
    TheTrailer();
    assert ([false, false] + t)[2..] == t && t[..32] == t;
  }

  lemma TheTrailer()
    ensures BigEndian([0x05, 0xBE, 0x01, 0xEA]) == 0x05BE_01EA
  {
    var b1: seq<Byte>, b2: seq<Byte>, b3: seq<Byte> := [0x05], [0x05, 0xBE], [0x05, 0xBE, 0x01];
    assert [0x05, 0xBE, 0x01, 0xEA][..3] == b3 && b3[..2] == b2 && b2[..1] == b1 && b1[..0] == [];
    assert BigEndian(b2) == 0x05BE;
    assert BigEndian(b3) == 0x05_BE01;
  }
}
