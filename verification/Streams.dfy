/** Joining blocks into a stream, stored blocks, and the zlib wrapper of RFC 1950. */
module Streams {
  import opened Bits
  import opened Canonical
  import opened Deflate
  import opened Blocks
  import Adler

  /** a bits and b more fill whole bytes. */
  predicate Whole(a: nat, b: nat) { (a + b) % 8 == 0 }

  /** Two positions at the same bit of a byte. */
  predicate Aligned(a: nat, b: nat) { a % 8 == b % 8 }

  /**
   * body, behind its final flag at bit off of a whole number of bytes, is a block that turns text into text', whatever
   * came before that text.
   */
  ghost predicate BlockAt(body: seq<bool>, off: nat, text: seq<Byte>, text': seq<Byte>) {
    |body| >= 2 &&
    forall past: seq<Byte>, final: bool, rest: seq<bool> | Whole(off + 1 + |body|, |rest|) ::
      BlockReads(past, body, text, text', final, rest)
  }

  ghost predicate BlockReads(past: seq<Byte>, body: seq<bool>, text: seq<Byte>, text': seq<Byte>, final: bool,
      rest: seq<bool>) {
    InflateBlock([final] + (body + rest), past + text) == Some((final, rest, past + text'))
  }

  /** The blocks of stream, none of them final, add text to whatever has been inflated before, whatever follows. */
  ghost predicate Decodes(stream: seq<bool>, text: seq<Byte>) {
    forall past: seq<Byte>, rest: seq<bool> | Whole(|stream|, |rest|) :: Continues(past, stream, text, rest)
  }

  ghost predicate Continues(past: seq<Byte>, stream: seq<bool>, text: seq<Byte>, rest: seq<bool>) {
    InflateFrom(stream + rest, past) == InflateFrom(rest, past + text)
  }

  /** bits end a stream with text, added to whatever has been inflated before; tail is left over. */
  ghost predicate Finishes(bits: seq<bool>, text: seq<Byte>, tail: seq<bool>) {
    forall past: seq<Byte> :: Ends(past, bits, text, tail)
  }

  ghost predicate Ends(past: seq<Byte>, bits: seq<bool>, text: seq<Byte>, tail: seq<bool>) {
    InflateFrom(bits, past) == Some((tail, past + text))
  }

  lemma DecodesNothing()
    ensures Decodes([], [])
  {
    forall past: seq<Byte>, rest: seq<bool> ensures Continues(past, [], [], rest) {
      assert [] + rest == rest && past + [] == past;
    }
  }

  /** Two streams one behind the other; the first fills whole bytes. */
  lemma DecodesJoin(a: seq<bool>, x: seq<Byte>, b: seq<bool>, y: seq<Byte>)
    requires Decodes(a, x) && Decodes(b, y) && Whole(|a|, 0)
    ensures Decodes(a + b, x + y)
  {
    hide InflateFrom;
    forall past: seq<Byte>, rest: seq<bool> | Whole(|a + b|, |rest|) ensures Continues(past, a + b, x + y, rest) {
      assert (a + b) + rest == a + (b + rest) && (past + x) + y == past + (x + y);
      JoinLengths(|a|, |b|, |rest|);
      Use(past, a, x, b + rest);
      Use(past + x, b, y, rest);
    }
  }

  lemma FinishesJoin(a: seq<bool>, x: seq<Byte>, bits: seq<bool>, y: seq<Byte>, tail: seq<bool>)
    requires Decodes(a, x) && Finishes(bits, y, tail) && Whole(|a|, |bits|)
    ensures Finishes(a + bits, x + y, tail)
  {
    hide InflateFrom;
    forall past: seq<Byte> ensures Ends(past, a + bits, x + y, tail) {
      assert (past + x) + y == past + (x + y);
      Use(past, a, x, bits);
      assert Ends(past + x, bits, y, tail);
    }
  }

  /** From the empty history. */
  lemma FinishesText(bits: seq<bool>, text: seq<Byte>, tail: seq<bool>)
    requires Finishes(bits, text, tail)
    ensures InflateFrom(bits, []) == Some((tail, text))
  {
    assert Ends([], bits, text, tail) && [] + text == text;
  }

  lemma JoinLengths(a: nat, b: nat, rest: nat)
    requires Whole(a + b, rest) && Whole(a, 0)
    ensures Whole(a, b + rest) && Whole(b, rest)
  {
  }

  lemma Join3(s: seq<bool>, f: bool, body: seq<bool>, rest: seq<bool>)
    ensures (s + ([f] + body)) + rest == s + ([f] + (body + rest))
  {
  }

  lemma NextBlock(bits: seq<bool>, text: seq<Byte>, rest: seq<bool>, text': seq<Byte>)
    requires InflateBlock(bits, text) == Some((false, rest, text'))
    ensures InflateFrom(bits, text) == InflateFrom(rest, text')
  {
  }

  lemma LastBlock(bits: seq<bool>, text: seq<Byte>, rest: seq<bool>, text': seq<Byte>)
    requires InflateBlock(bits, text) == Some((true, rest, text'))
    ensures InflateFrom(bits, text) == Some((rest, text'))
  {
  }

  lemma Use(past: seq<Byte>, stream: seq<bool>, text: seq<Byte>, rest: seq<bool>)
    requires Decodes(stream, text) && Whole(|stream|, |rest|)
    ensures InflateFrom(stream + rest, past) == InflateFrom(rest, past + text)
  {
    hide InflateFrom;
    assert Continues(past, stream, text, rest);
  }

  lemma UseBlock(past: seq<Byte>, body: seq<bool>, off: nat, text: seq<Byte>, text': seq<Byte>, final: bool,
      rest: seq<bool>)
    requires BlockAt(body, off, text, text') && Whole(off + 1 + |body|, |rest|)
    ensures InflateBlock([final] + (body + rest), past + text) == Some((final, rest, past + text'))
  {
    assert BlockReads(past, body, text, text', final, rest);
  }

  lemma WholeParts(stream: seq<bool>, f: bool, body: seq<bool>, rest: seq<bool>)
    requires Whole(|stream + ([f] + body)|, |rest|)
    ensures Whole(|stream| + 1 + |body|, |rest|) && Whole(|stream|, |[f] + (body + rest)|)
  {
  }

  lemma AppendOne(past: seq<Byte>, stream: seq<bool>, text: seq<Byte>, body: seq<bool>, text': seq<Byte>,
      rest: seq<bool>)
    requires Decodes(stream, text) && BlockAt(body, |stream|, text, text')
    requires Whole(|stream + ([false] + body)|, |rest|)
    ensures Continues(past, stream + ([false] + body), text', rest)
  {
    hide InflateBlock, ReadBits, ReadBytes, InflateFrom, Decodes, BlockAt;
    var bits := [false] + (body + rest);
    WholeParts(stream, false, body, rest);
    Join3(stream, false, body, rest);
    UseBlock(past, body, |stream|, text, text', false, rest);
    NextBlock(bits, past + text, rest, past + text');
    Use(past, stream, text, bits);
  }

  lemma AppendBlock(stream: seq<bool>, text: seq<Byte>, body: seq<bool>, text': seq<Byte>)
    requires Decodes(stream, text) && BlockAt(body, |stream|, text, text')
    ensures Decodes(stream + ([false] + body), text')
  {
    var stream' := stream + ([false] + body);
    forall past: seq<Byte>, rest: seq<bool> | Whole(|stream'|, |rest|) ensures Continues(past, stream', text', rest) {
      AppendOne(past, stream, text, body, text', rest);
    }
  }

  lemma LastOne(past: seq<Byte>, stream: seq<bool>, text: seq<Byte>, body: seq<bool>, text': seq<Byte>,
      tail: seq<bool>)
    requires Decodes(stream, text) && BlockAt(body, |stream|, text, text')
    requires Whole(|stream + ([true] + body)|, |tail|)
    ensures Ends(past, (stream + ([true] + body)) + tail, text', tail)
  {
    hide InflateBlock, InflateFrom, Decodes, BlockAt;
    var bits := [true] + (body + tail);
    WholeParts(stream, true, body, tail);
    Join3(stream, true, body, tail);
    UseBlock(past, body, |stream|, text, text', true, tail);
    LastBlock(bits, past + text, tail, past + text');
    Use(past, stream, text, bits);
  }

  lemma FinalBlock(stream: seq<bool>, text: seq<Byte>, body: seq<bool>, text': seq<Byte>, tail: seq<bool>)
    requires Decodes(stream, text) && BlockAt(body, |stream|, text, text')
    requires Whole(|stream + ([true] + body)|, |tail|)
    ensures Finishes((stream + ([true] + body)) + tail, text', tail)
  {
    hide Ends;
    forall past: seq<Byte> ensures Ends(past, (stream + ([true] + body)) + tail, text', tail) {
      LastOne(past, stream, text, body, text', tail);
    }
  }

  lemma HuffmanBlock(body: seq<bool>, ts: seq<Token>, off: nat, text: seq<Byte>)
    requires IsBlock(body, ts) && Expandable(ts, text)
    ensures BlockAt(body, off, text, Expand(ts, text))
  {
    hide InflateBlock;
    forall past: seq<Byte>, final: bool, rest: seq<bool>
      ensures BlockReads(past, body, text, Expand(ts, text), final, rest)
    {
      ExpandBehind(ts, past, text);
      assert ReadsBack(body, ts, final, rest, past + text);
    }
  }

  // ----- tokens do not look behind their own text

  lemma {:induction false} CopyBehind(past: seq<Byte>, out: seq<Byte>, len: nat, dist: nat)
    requires 0 < dist <= |out|
    ensures CopyMatch(past + out, len, dist) == past + CopyMatch(out, len, dist)
    decreases len
  {
    if len > 0 {
      var b := out[|out| - dist];
      assert (past + out) + [b] == past + (out + [b]);
      CopyBehind(past, out + [b], len - 1, dist);
    }
  }

  lemma TokenBehind(t: Token, past: seq<Byte>, out: seq<Byte>)
    requires TokenOk(t, |out|)
    ensures TokenOk(t, |past + out|) && ExpandToken(t, past + out) == past + ExpandToken(t, out)
  {
    match t
    case Lit(b) => assert (past + out) + [b] == past + (out + [b]);
    case Match(len, dist) => CopyBehind(past, out, len, dist);
  }

  lemma {:induction false} ExpandBehind(ts: seq<Token>, past: seq<Byte>, out: seq<Byte>)
    requires Expandable(ts, out)
    ensures Expandable(ts, past + out) && Expand(ts, past + out) == past + Expand(ts, out)
  {
    if ts != [] {
      TokenBehind(ts[0], past, out);
      ExpandBehind(ts[1..], past, ExpandToken(ts[0], out));
    }
  }

  // ----- stored blocks

  /** How many bits reach the next byte boundary. */
  function Pad(k: nat): (n: nat)
    ensures n < 8 && (k + n) % 8 == 0
  {
    (8 - k % 8) % 8
  }

  /** A stored block whose type bits start at bit off. */
  ghost function StoredBody(off: nat, data: seq<Byte>): (b: seq<bool>)
    requires |data| < 0x1_0000
  {
    BitsOf(0, 2) + (BitsOf(0, Pad(off + 2)) + (StoredLength(|data|) + BytesBits(data)))
  }

  ghost function StoredLength(n: nat): (b: seq<bool>)
    requires n < 0x1_0000
    ensures |b| == 32
  {
    BitsOf(n, 16) + BitsOf(0xFFFF - n, 16)
  }

  lemma {:induction false} ReadBytesBack(data: seq<Byte>)
    ensures |BytesBits(data)| == 8 * |data| && ReadBytes(BytesBits(data), |data|) == data
  {
    if data != [] {
      ReadBytesBack(data[1..]);
      var b, r := BitsOf(data[0], 8), BytesBits(data[1..]);
      assert BytesBits(data) == b + r && (b + r)[..8] == b && (b + r)[8..] == r;
      assert Pow2(8) == 256;
      ValueOfBitsOf(data[0], 8);
    }
  }

  lemma CutStored(pad: seq<bool>, l: seq<bool>, n: seq<bool>, d: seq<bool>, rest: seq<bool>)
    requires |l| == 16 && |n| == 16
    ensures var b := pad + ((l + n) + (d + rest));
            b[|pad|..] == (l + n) + (d + rest) && b[|pad|..][..16] == l && b[|pad|..][16..32] == n &&
            b[|pad|..][32..32 + |d|] == d && b[|pad|..][32 + |d|..] == rest
  {
    var b, c := pad + ((l + n) + (d + rest)), (l + n) + (d + rest);
    assert b[|pad|..] == c;
    assert c[..16] == l && c[16..32] == n && c[32..32 + |d|] == d && c[32 + |d|..] == rest;
  }

  lemma ReadStored(bits: seq<bool>, pad: seq<bool>, data: seq<Byte>, rest: seq<bool>, text: seq<Byte>)
    requires |data| < 0x1_0000 && |pad| < 8 && |rest| % 8 == 0
    requires bits == pad + (StoredLength(|data|) + (BytesBits(data) + rest))
    ensures InflateStored(bits, text) == Some((rest, text + data))
  {
    var n, d := |data|, BytesBits(data);
    StoredShape(bits, pad, n, d, rest);
    ReadBytesBack(data);
    Stored(bits, |pad|, n, text, rest, d, data);
  }

  lemma StoredShape(bits: seq<bool>, pad: seq<bool>, n: nat, d: seq<bool>, rest: seq<bool>)
    requires n < 0x1_0000 && |pad| < 8 && |rest| % 8 == 0 && |d| == 8 * n
    requires bits == pad + (StoredLength(n) + (d + rest))
    ensures |bits| % 8 == |pad| && |bits| >= |pad| + 32 + 8 * n
    ensures ValueOf(bits[|pad|..][..16]) == n && ValueOf(bits[|pad|..][16..32]) == 0xFFFF - n
    ensures bits[|pad|..][32..32 + 8 * n] == d && bits[|pad|..][32 + 8 * n..] == rest
  {
    CutStored(pad, BitsOf(n, 16), BitsOf(0xFFFF - n, 16), d, rest);
    Sixteen(n);
    PadLength(|pad|, n, |rest|);
  }

  lemma Stored(bits: seq<bool>, pad: nat, n: nat, text: seq<Byte>, rest: seq<bool>, d: seq<bool>, data: seq<Byte>)
    requires |bits| % 8 == pad <= |bits| && |bits| >= pad + 32 + 8 * n && |d| == 8 * n
    requires ValueOf(bits[pad..][..16]) == n && ValueOf(bits[pad..][16..32]) == 0xFFFF - n
    requires bits[pad..][32..32 + 8 * n] == d && bits[pad..][32 + 8 * n..] == rest && ReadBytes(d, n) == data
    ensures InflateStored(bits, text) == Some((rest, text + data))
  {
  }

  lemma Sixteen(n: nat)
    requires n < 0x1_0000
    ensures ValueOf(BitsOf(n, 16)) == n && ValueOf(BitsOf(0xFFFF - n, 16)) == 0xFFFF - n
  {
    assert Pow2(8) == 256;
    assert Pow2(16) == 0x1_0000 by { assert Pow2(12) == 4096; }
    ValueOfBitsOf(n, 16);
    ValueOfBitsOf(0xFFFF - n, 16);
  }

  lemma PadLength(pad: nat, n: nat, rest: nat)
    requires pad < 8 && rest % 8 == 0
    ensures (pad + (32 + (8 * n + rest))) % 8 == pad
  {
  }

  lemma StoredParts(t: seq<bool>, p: seq<bool>, l: seq<bool>, d: seq<bool>, rest: seq<bool>)
    ensures (t + (p + (l + d))) + rest == t + (p + (l + (d + rest)))
  {
  }

  lemma StoredTail(off: nat, pad: nat, n: nat, rest: nat)
    requires pad == Pad(off + 2) && (off + (2 + (pad + (32 + 8 * n))) + rest) % 8 == 0
    ensures rest % 8 == 0
  {
    var k := (off + 2 + pad) / 8;
    assert off + 2 + pad == 8 * k;
  }

  lemma StoredTypeBits(final: bool, tail: seq<bool>)
    ensures var s := [final] + (BitsOf(0, 2) + tail);
            |s| >= 3 && s[0] == final && !s[1] && !s[2] && s[3..] == tail
  {
    assert BitsOf(0, 2) == [false, false];
  }

  lemma StoredReads(off: nat, data: seq<Byte>, text: seq<Byte>, final: bool, rest: seq<bool>)
    requires |data| < 0x1_0000 && Whole(off + 1 + |StoredBody(off + 1, data)|, |rest|)
    ensures InflateBlock([final] + (StoredBody(off + 1, data) + rest), text) == Some((final, rest, text + data))
  {
    hide BitsOf, ValueOf, InflateStored, ReadBytes, BytesBits, StoredLength, Pad;
    var pad, len, d := BitsOf(0, Pad(off + 3)), StoredLength(|data|), BytesBits(data);
    ReadBytesBack(data);
    StoredParts(BitsOf(0, 2), pad, len, d, rest);
    StoredTail(off + 1, |pad|, |data|, |rest|);
    StoredTypeBits(final, pad + (len + (d + rest)));
    ReadStored(pad + (len + (d + rest)), pad, data, rest, text);
  }

  /** A stored block adds its bytes to the text. */
  lemma StoredBlock(off: nat, data: seq<Byte>, text: seq<Byte>)
    requires |data| < 0x1_0000
    ensures BlockAt(StoredBody(off + 1, data), off, text, text + data)
  {
    hide InflateBlock, BytesBits;
    var body := StoredBody(off + 1, data);
    forall past: seq<Byte>, final: bool, rest: seq<bool> | Whole(off + 1 + |body|, |rest|)
      ensures BlockReads(past, body, text, text + data, final, rest)
    {
      StoredReads(off, data, past + text, final, rest);
      assert (past + text) + data == past + (text + data);
    }
  }

  // ----- whole files

  /** The text of a deflate stream that fills its bytes up to the padding after the last block. */
  function Inflate(bytes: seq<Byte>): Option<seq<Byte>> {
    match InflateFrom(BytesBits(bytes), [])
    case None => None
    case Some((_, out)) => Some(out)
  }

  function BigEndian(b: seq<Byte>): nat {
    if b == [] then 0 else 256 * BigEndian(b[..|b| - 1]) + b[|b| - 1]
  }

  /** Method 8, a window of at most 32 KiB, a check sum that divides by 31, and no preset dictionary. */
  predicate HeaderOk(cmf: nat, flg: nat) {
    cmf % 16 == 8 && cmf / 16 <= 7 && (cmf * 256 + flg) % 31 == 0 && (flg / 32) % 2 == 0
  }

  /** A zlib file: header, deflate stream, and the checksum of the text. */
  function Unzlib(bytes: seq<Byte>): Option<seq<Byte>> {
    if |bytes| < 2 || !HeaderOk(bytes[0], bytes[1]) then None
    else CheckTrailer(InflateFrom(BytesBits(bytes[2..]), []))
  }

  function CheckTrailer(r: Option<(seq<bool>, seq<Byte>)>): Option<seq<Byte>> {
    match r
    case None => None
    case Some((rest, out)) => if TrailerOk(rest, out) then Some(out) else None
  }

  /** From the next byte boundary on, the checksum of the text. */
  predicate TrailerOk(rest: seq<bool>, text: seq<Byte>) {
    var t := rest[|rest| % 8..];
    |t| >= 32 && BigEndian(ReadBytes(t[..32], 4)) == Adler.Checksum(text)
  }
}
