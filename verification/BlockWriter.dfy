/** Writing the block of the recorded tokens, compressed or stored (miniz tdefl_flush_block). */
module BlockWriter {
  import opened Bits
  import opened Deflate
  import opened BitWriter
  import opened LzCodes
  import opened SymbolCounts
  import opened BlockEncoder
  import opened Blocks
  import opened Streams
  import opened Stored
  import opened Lz77
  import opened Dictionary
  import opened Parser

  ghost function Arrays(w: Writer, t2: Table): set<object> { {w, w.buf} + t2.Arrays() }

  ghost predicate Distinct(w: Writer, p: Parser, t2: Table) {
    p.Apart() && Separate(p.lz.t0, p.lz.t1, t2) && p.Parts() !! Arrays(w, t2)
  }

  /** The tokens of the block as handed to the encoder. */
  ghost predicate Given(p: Parser, end: nat, ts: seq<Token>)
    reads p.lz.codeBuf
  {
    AllFit(ts) && |ts| < 65535 && end <= p.lz.codeBuf.Length == CODE_BUF_SIZE && p.lz.codeBuf[..end] == Encoded(ts)
  }

  method TryCompress(w: Writer, p: Parser, t2: Table, end: nat, staticBlock: bool, ghost ts: seq<Token>,
      ghost off: nat, ghost text: seq<Byte>) returns (ok: bool, ghost body: seq<bool>)
    requires w.Valid() && Distinct(w, p, t2) && Given(p, end, ts) && Expandable(ts, text)
    requires !staticBlock ==> Counted(p.lz.t0.count[..], p.lz.t1.count[..], ts)
    modifies w, w.buf, p.lz.t0.Arrays(), p.lz.t1.Arrays(), t2.Arrays()
    ensures w.Valid() && w.Keeps(old(w.buf[..w.pos])) && ok == w.HasRoom()
    ensures BlockAt(body, off, text, Expand(ts, text)) && (w.HasRoom() ==> w.Stream() == old(w.Stream()) + body)
    ensures w.Size() <= old(w.Size()) + BLOCK_BITS
  {
    ok, body := CompressBlock(w, p.lz.t0, p.lz.t1, t2, p.lz.codeBuf, end, staticBlock, ts);
    HuffmanBlock(body, ts, off, text);
  }

  /** Goes back to the state before the block. */
  method Undo(w: Writer, pos: nat, bitBuffer: nat, bitsIn: nat, ghost b0: seq<Byte>)
    requires w.Valid() && w.Keeps(b0) && pos == |b0| && bitsIn < 8 && bitBuffer < Pow2(bitsIn)
    modifies w
    ensures w.Valid() && w.pos == pos && w.bitsIn == bitsIn && w.buf[..w.pos] == b0 &&
            w.Stream() == BytesBits(b0) + BitsOf(bitBuffer, bitsIn)
  {
    w.Rewind(pos, bitBuffer, bitsIn);
    assert w.buf[..pos] == b0;
  }

  lemma StreamIs(w: Writer)
    requires w.Valid()
    ensures w.Stream() == BytesBits(w.buf[..w.pos]) + BitsOf(w.bitBuffer, w.bitsIn)
  {
  }

  /** The block is stored. */
  ghost predicate RawBody(body: seq<bool>, off: nat, src: seq<Byte>, from: nat, total: nat) {
    from + total <= |src| && total < 0x1_0000 && body == StoredBody(off + 1, src[from..from + total])
  }

  /** The block as stored bytes, taken from the ring dictionary. */
  method WriteRaw(w: Writer, d: Dict, from: nat, total: nat, ghost off: nat) returns (ghost body: seq<bool>)
    requires w.Valid() && d.Valid() && d.dict != w.buf
    requires d.base <= from && from + total <= d.lookaheadPos <= from + d.dictSize && Aligned(|w.Stream()|, off + 1)
    modifies w, w.buf
    ensures w.Valid() && w.Keeps(old(w.buf[..w.pos]))
    ensures from + total <= |d.src| && RawBody(body, off, d.src, from, total)
    ensures BlockAt(body, off, d.src[d.base..from], d.src[d.base..from + total])
    ensures w.HasRoom() ==> w.Stream() == old(w.Stream()) + body
    ensures w.Size() <= old(w.Size()) + BLOCK_BITS
  {
    hide Dict.Chained, BlockAt, StoredBody;
    ghost var data := d.src[from..from + total];
    body := StoredBody(off + 1, data);
    StoredBlock(off, data, d.src[d.base..from]);
    assert d.src[d.base..from] + data == d.src[d.base..from + total];
    PutStored(w, d, from, total, off + 1);
  }

  /** The block once more from the saved state: stored, or with the fixed codes. */
  method WriteAgain(w: Writer, p: Parser, t2: Table, end: nat, raw: bool, pos: nat, bitBuffer: nat, bitsIn: nat,
      ghost b0: seq<Byte>, ghost ts: seq<Token>, ghost off: nat) returns (ghost body: seq<bool>)
    requires w.Valid() && Distinct(w, p, t2) && Given(p, end, ts) && p.d.Valid()
    requires Parses(ts, p.d.src, p.d.base, p.lzDictPos, p.lzDictPos + p.lz.totalLzBytes)
    requires p.lzDictPos + p.lz.totalLzBytes <= p.d.lookaheadPos &&
             (raw ==> p.d.lookaheadPos <= p.lzDictPos + p.d.dictSize)
    requires w.Keeps(b0) && pos == |b0| && bitsIn < 8 && bitBuffer < Pow2(bitsIn)
    requires Aligned(|BytesBits(b0) + BitsOf(bitBuffer, bitsIn)|, off + 1)
    modifies w, w.buf, p.lz.t0.Arrays(), p.lz.t1.Arrays(), t2.Arrays()
    ensures w.Valid() && w.Keeps(b0)
    ensures BlockAt(body, off, p.d.src[p.d.base..p.lzDictPos],
              p.d.src[p.d.base..p.lzDictPos + p.lz.totalLzBytes])
    ensures w.HasRoom() ==> w.Stream() == BytesBits(b0) + BitsOf(bitBuffer, bitsIn) + body
    ensures raw ==> RawBody(body, off, p.d.src, p.lzDictPos, p.lz.totalLzBytes)
    ensures w.Size() <= 8 * pos + bitsIn + BLOCK_BITS
  {
    hide BlockAt, RawBody, Counted, Writer.Stream, BytesBits, BitsOf, Dict.Filling, Dict.Chained, Parser.Covers,
         SavedOk, AllFit, Encoded, Expandable, Expand, Aligned;
    Undo(w, pos, bitBuffer, bitsIn, b0);
    if raw {
      body := WriteRaw(w, p.d, p.lzDictPos, p.lz.totalLzBytes, off);
    } else {
      var ok;
      ok, body := TryCompress(w, p, t2, end, true, ts, off, p.d.src[p.d.base..p.lzDictPos]);
    }
  }

  /**
   * One block from its type bits on. It is compressed unless that is no shorter and its bytes are still in the
   * dictionary; a compressed block that does not fit is written again with the fixed codes.
   */
  method WriteBlock(w: Writer, p: Parser, t2: Table, end: nat, ghost ts: seq<Token>, ghost off: nat)
      returns (ghost body: seq<bool>)
    requires w.Valid() && Distinct(w, p, t2) && Given(p, end, ts) && p.d.Valid()
    requires Counted(p.lz.t0.count[..], p.lz.t1.count[..], ts)
    requires Parses(ts, p.d.src, p.d.base, p.lzDictPos, p.lzDictPos + p.lz.totalLzBytes)
    requires p.lzDictPos + p.lz.totalLzBytes <= p.d.lookaheadPos && Aligned(|w.Stream()|, off + 1)
    modifies w, w.buf, p.lz.t0.Arrays(), p.lz.t1.Arrays(), t2.Arrays()
    ensures w.Valid() && w.Keeps(old(w.buf[..w.pos]))
    ensures BlockAt(body, off, p.d.src[p.d.base..p.lzDictPos],
              p.d.src[p.d.base..p.lzDictPos + p.lz.totalLzBytes])
    ensures w.HasRoom() ==> w.Stream() == old(w.Stream()) + body
    ensures p.flags.forceRaw && p.d.lookaheadPos <= p.lzDictPos + p.d.dictSize ==>
              RawBody(body, off, p.d.src, p.lzDictPos, p.lz.totalLzBytes)
    ensures w.Size() <= old(w.Size()) + BLOCK_BITS
  {
    hide BlockAt, RawBody, Counted, Writer.Stream, BytesBits, BitsOf, Dict.Filling, Dict.Chained, Parser.Covers,
         SavedOk, AllFit, Encoded, Expandable, Expand, Aligned;
    var inDict := p.d.lookaheadPos - p.lzDictPos <= p.d.dictSize;
    var useRaw, total := p.flags.forceRaw && inDict, p.lz.totalLzBytes;
    var savedPos, savedBits, savedIn := w.pos, w.bitBuffer, w.bitsIn;
    ghost var b0: seq<Byte>, text := w.buf[..w.pos], p.d.src[p.d.base..p.lzDictPos];
    var ok := false;
    StreamIs(w);
    if !useRaw {
      ok, body := TryCompress(w, p, t2, end, p.flags.forceStatic || total < 48, ts, off, text);
    }
    var raw := (useRaw || (total > 0 && w.pos - savedPos + 1 >= total)) && inDict;
    if raw || !ok {
      body := WriteAgain(w, p, t2, end, raw, savedPos, savedBits, savedIn, b0, ts, off);
    }
  }
}
