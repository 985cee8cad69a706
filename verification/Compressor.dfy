/** The streaming compressor (miniz tdefl_compress, with its output handed to a callback). */
module Compressor {
  import opened Bits
  import opened Canonical
  import opened Deflate
  import opened BitWriter
  import opened LzCodes
  import opened SymbolCounts
  import opened LzBuffer
  import opened Streams
  import opened Stored
  import opened Lz77
  import opened Dictionary
  import opened Parser
  import opened Blocks
  import opened BlockWriter
  import Adler

  const OUT_BUF_SIZE: nat := 85196

  /**
   * What a flush writes at most: seven bits held back, a zlib header, the final flag, a block, and the flush's own
   * end.
   */
  const FLUSH_BITS: nat := 24 + BLOCK_BITS + 42

  type WholeBytes = s: seq<bool> | |s| % 8 == 0

  datatype Flush = NoFlush | SyncFlush | FullFlush | Finish
  datatype Status = BadParam | Okay | Done

  // ----- what a run of blocks means

  /** emitted is the header and then blocks that inflate to text. */
  ghost predicate Sound(emitted: seq<bool>, hdr: seq<bool>, stream: seq<bool>, text: seq<Byte>) {
    |hdr| % 8 == 0 && emitted == hdr + stream && Decodes(stream, text)
  }

  /**
   * What Says says is not looked into until the verifier meets a key; this keeps it out of proofs that only pass it
   * on.
   */
  predicate Sealed(k: int) { true }

  ghost predicate Says(emitted: seq<bool>, hdr: seq<bool>, stream: seq<bool>, text: seq<Byte>) {
    forall k: int | Sealed(k) :: Sound(emitted, hdr, stream, text)
  }

  lemma Unseal(emitted: seq<bool>, hdr: seq<bool>, stream: seq<bool>, text: seq<Byte>)
    requires Says(emitted, hdr, stream, text)
    ensures Sound(emitted, hdr, stream, text)
  {
    assert Sealed(0);
  }

  /** emitted is a whole file: the final block ends its stream, and tail follows it. */
  ghost predicate WholeFile(emitted: seq<bool>, hdr: seq<bool>, tail: seq<bool>, text: seq<Byte>) {
    |hdr| % 8 == 0 && |emitted| >= |hdr| && emitted[..|hdr|] == hdr &&
    Finishes(emitted[|hdr|..], text, tail)
  }

  lemma SoundJoin(hdr: seq<bool>, stream: seq<bool>, more: seq<bool>)
    ensures (hdr + stream) + more == hdr + (stream + more)
  {
  }

  lemma SoundBlock(sent: seq<bool>, hdr: seq<bool>, stream: seq<bool>, text: seq<Byte>, body: seq<bool>,
      text': seq<Byte>)
    requires |hdr| % 8 == 0 && Decodes(stream, text) && BlockAt(body, |stream|, text, text')
    requires sent == hdr + (stream + ([false] + body))
    ensures Says(sent, hdr, stream + ([false] + body), text')
  {
    AppendBlock(stream, text, body, text');
  }

  lemma CompleteBlock(sent: seq<bool>, hdr: seq<bool>, stream: seq<bool>, text: seq<Byte>, body: seq<bool>,
      text': seq<Byte>, tail: seq<bool>)
    requires |hdr| % 8 == 0 && Decodes(stream, text) && BlockAt(body, |stream|, text, text')
    requires sent == hdr + (stream + ([true] + body)) && Whole(|stream + ([true] + body)|, |tail|)
    ensures WholeFile(sent + tail, hdr, tail, text')
  {
    var s := (stream + ([true] + body)) + tail;
    FinalBlock(stream, text, body, text', tail);
    SoundJoin(hdr, stream + ([true] + body), tail);
    assert (hdr + s)[..|hdr|] == hdr && (hdr + s)[|hdr|..] == s;
  }

  method NewOutput() returns (w: Writer, t: Table)
    ensures fresh(Arrays(w, t)) && w.Valid() && w.end == OUT_BUF_SIZE - 16 && t.Valid() && w.pos == 0 &&
            w.bitsIn == 0 && w.bitBuffer == 0
  {
    w := new Writer(OUT_BUF_SIZE, OUT_BUF_SIZE - 16);
    t := new Table();
  }

  method Build(flags: Flags) returns (p: Parser, w: Writer, t: Table)
    ensures fresh(p) && fresh(p.Parts()) && fresh(Arrays(w, t)) && Distinct(w, p, t)
    ensures p.flags == flags && p.Valid() && p.d.src == [] && p.lzDictPos == 0 && p.lz.codePos == 1
    ensures w.Valid() && w.end == OUT_BUF_SIZE - 16 && w.pos == 0 && w.bitsIn == 0 && w.bitBuffer == 0
  {
    hide Dict.Valid, Buffer.Valid, Parses, SavedOk, Counted;
    p := new Parser(flags);
    w, t := NewOutput();
  }

  /** What comes before a stream whose file has begun. */
  ghost function Leading(zlib: bool, past: seq<bool>): (b: seq<bool>) {
    (if zlib then ZlibHeader() else []) + past
  }

  class Compressor {
    const p: Parser
    const w: Writer
    const t2: Table
    var blockIndex: nat
    var adler: Adler.U32
    var finished: bool
    var wantsToFinish: bool
    var prevStatus: Status
    /** All bytes handed to the callback. */
    var out: seq<Byte>
    /** The blocks written up to the last full flush. */
    ghost var past: WholeBytes
    /** The blocks written since. */
    ghost var stream: seq<bool>

    constructor (p: Parser, w: Writer, t2: Table)
      ensures this.p == p && this.w == w && this.t2 == t2
      ensures blockIndex == 0 && out == [] && past == [] && stream == [] && prevStatus == Okay && adler == 1
      ensures !finished && !wantsToFinish
    {
      this.p, this.w, this.t2 := p, w, t2;
      blockIndex, adler, finished, wantsToFinish, prevStatus, out := 0, 1, false, false, Okay, [];
      past, stream := [], [];
    }

    ghost predicate Apart() {
      Distinct(w, p, t2) && w.end == OUT_BUF_SIZE - 16
    }

    /** The output buffer is large enough for all that a flush writes. */
    lemma NeverFull()
      requires Apart() && w.Valid() && w.Size() <= FLUSH_BITS
      ensures w.HasRoom()
    {
    }

    /** Everything emitted: the bytes handed over and the bits held back for the next one. */
    ghost function Emitted(): seq<bool>
      reads `out, w
    {
      BytesBits(out) + BitsOf(w.bitBuffer, w.bitsIn)
    }

    /** What comes before the blocks since the last full flush. */
    ghost function Header(): seq<bool>
      reads `blockIndex, `past
    {
      Leading(p.flags.zlib && blockIndex > 0, past)
    }

    /** The source up to the last full flush can be decoded from the blocks up to it. */
    ghost predicate Told()
      reads `past, p.d`src, p.d`base
    {
      p.d.base <= |p.d.src| && Says(past, [], past, p.d.src[..p.d.base])
    }

    ghost predicate Written()
      reads `out, `blockIndex, `past, `stream, p, p.d, w
    {
      p.d.base <= p.lzDictPos <= |p.d.src| && Told() &&
      (blockIndex == 0 ==> out == [] && w.bitsIn == 0 && past == [] && stream == []) &&
      Says(Emitted(), Header(), stream, p.d.src[p.d.base..p.lzDictPos])
    }

    ghost predicate Running()
      reads `out, `blockIndex, `past, `stream, p, p.d, p.d.dict, p.d.next, p.d.hash, p.lz, p.lz.codeBuf, p.lz.t0.count,
            p.lz.t1.count, w
    {
      Apart() && p.Valid() && w.Valid() && Written() && p.lz.codePos <= CODE_BUF_SIZE - 8
    }

    // ----- one flush

    ghost function NewHeader(): (b: WholeBytes)
      reads `past
    {
      Leading(p.flags.zlib, past)
    }

    /** What has been emitted while a flush is under way. */
    ghost function Sent(): seq<bool>
      requires w.pos <= w.buf.Length
      reads `out, w, w.buf
    {
      BytesBits(out) + w.Stream()
    }

    /** Starts an output buffer. */
    method Open()
      requires w.Valid()
      modifies w
      ensures w.Valid() && w.Size() <= 7 && Sent() == old(Emitted())
    {
      w.Rewind(0, w.bitBuffer, w.bitsIn);
      assert w.buf[..0] == [] && w.Stream() == BitsOf(w.bitBuffer, w.bitsIn);
    }

    /** The zlib header before the first block. */
    method PutFileHeader()
      requires Apart() && w.Valid() && Written()
      modifies w, w.buf
      ensures w.Valid() && w.Size() <= 23 && Sent() == NewHeader() + stream
    {
      hide Says, Dict.Valid, Buffer.Valid, Decodes, Counted, Parses;
      Unseal(Emitted(), Header(), stream, p.d.src[p.d.base..p.lzDictPos]);
      Open();
      if p.flags.zlib && blockIndex == 0 {
        PutZlibHeader(w);
        NeverFull();
        Alone(ZlibHeader());
      }
    }

    /** The header when there is one to write, then the final-block bit. */
    method Begin(final: bool)
      requires Apart() && w.Valid() && Written()
      modifies w, w.buf
      ensures w.Valid() && w.Size() <= 24 && Sent() == NewHeader() + (stream + [final])
    {
      PutFileHeader();
      ghost var s := w.Stream();
      OneBit(final);
      w.PutBits(if final then 1 else 0, 1);
      NeverFull();
      AddBits(BytesBits(out), s, NewHeader(), stream, [final]);
    }

    /** A block with the final flag before it. */
    ghost predicate BlockPut(final: bool, body: seq<bool>, text: seq<Byte>, text': seq<Byte>)
      reads `out, `past, `stream, w, w.buf
    {
      w.Valid() && w.Size() <= 24 + BLOCK_BITS &&
      BlockAt(body, |stream|, text, text') && Sent() == NewHeader() + (stream + ([final] + body))
    }

    /** The block after the final flag. */
    method PutBody(final: bool, end: nat, ghost ts: seq<Token>) returns (ghost body: seq<bool>)
      requires w.Valid() && Apart() && Given(p, end, ts) && p.d.Valid()
      requires Counted(p.lz.t0.count[..], p.lz.t1.count[..], ts)
      requires Parses(ts, p.d.src, p.d.base, p.lzDictPos, p.lzDictPos + p.lz.totalLzBytes)
      requires p.lzDictPos + p.lz.totalLzBytes <= p.d.lookaheadPos
      requires w.Size() <= 24 && Sent() == NewHeader() + (stream + [final])
      modifies w, w.buf, p.lz.t0.Arrays(), p.lz.t1.Arrays(), t2.Arrays()
      ensures BlockPut(final, body, p.d.src[p.d.base..p.lzDictPos],
                       p.d.src[p.d.base..p.lzDictPos + p.lz.totalLzBytes])
    {
      hide Says, Dict.Valid, Buffer.Valid, BlockAt, Decodes, Counted, Parses;
      ghost var s := w.Stream();
      Offset(out, s, NewHeader(), stream, final);
      body := WriteBlock(w, p, t2, end, ts, |stream|);
      NeverFull();
      AddBody(BytesBits(out), s, NewHeader(), stream, final, body);
    }

    /** The block of the recorded tokens with its final flag. */
    method PutBlock(final: bool) returns (ghost body: seq<bool>)
      requires Apart() && w.Valid() && Written() && p.Valid() && p.lz.codePos < CODE_BUF_SIZE
      modifies w, w.buf, p.lz.codeBuf, p.lz.t0.Arrays(), p.lz.t1.Arrays(), t2.Arrays()
      ensures p.Placed()
      ensures BlockPut(final, body, p.d.src[p.d.base..p.lzDictPos],
                       p.d.src[p.d.base..p.lzDictPos + p.lz.totalLzBytes])
    {
      hide Says, Dict.Valid, Buffer.Valid, BlockAt, Decodes, Counted, Parses, BlockPut, SavedOk, Encoded, AllFit,
           Emitted, Sent, Leading, Told, Header, NewHeader;
      p.Within();
      p.AllCounted();
      ghost var ts := p.lz.Tokens();
      var end := p.lz.Finish();
      Begin(final);
      body := PutBody(final, end, ts);
    }

    /** The blocks st have been sent. */
    ghost predicate Going(st: seq<bool>, text: seq<Byte>)
      reads `out, `past, w, w.buf
    {
      w.Valid() && Says(Sent(), NewHeader(), st, text)
    }

    /** The empty stored block of a sync flush. */
    method SyncTail(ghost st: seq<bool>, ghost text: seq<Byte>) returns (ghost st': seq<bool>)
      requires Apart() && Going(st, text) && w.Size() <= 24 + BLOCK_BITS
      modifies w, w.buf
      ensures Going(st', text) && w.bitsIn == 0 && EndsEmpty(Sent())
    {
      hide BlockAt, Decodes, StoredBody, EndsEmpty;
      Unseal(Sent(), NewHeader(), st, text);
      ghost var s, off := w.Stream(), |st|;
      AlignedParts(out, s, NewHeader(), st);
      PutSync(w, off);
      NeverFull();
      st' := st + ([false] + StoredBody(off + 1, []));
      AddBits(BytesBits(out), s, NewHeader(), st, [false] + StoredBody(off + 1, []));
      EmptyWhole(|s|, off);
      NothingHeld(w, s, [false] + StoredBody(off + 1, []));
      LastIsEmpty(BytesBits(out), s, off);
      EmptyBlock(Sent(), NewHeader(), st, text);
    }

    method PutFileTail()
      requires Apart() && w.Valid() && w.Size() <= 24 + BLOCK_BITS
      modifies w, w.buf
      ensures w.Valid() && w.Stream() == old(w.Stream()) + FileTail(p.flags.zlib, adler, |old(w.Stream())|)
    {
      ghost var s := w.Stream();
      Align(w);
      if p.flags.zlib {
        PutAdler(w, adler);
        Join(s, BitsOf(0, Pad(|s|)), BytesBits(Trailer(adler, 4)));
      } else {
        Join(s, BitsOf(0, Pad(|s|)), []);
      }
      NeverFull();
    }

    /** The end of the file. */
    method FinishTail(ghost body: seq<bool>, ghost text: seq<Byte>, ghost text': seq<Byte>) returns (ghost k: nat)
      requires Apart() && BlockPut(true, body, text, text')
      modifies w, w.buf
      ensures w.Valid() && w.bitsIn == 0 && Ended(Sent(), NewHeader(), stream, body, FileTail(p.flags.zlib, adler, k))
    {
      ghost var s := w.Stream();
      PutFileTail();
      k := |s|;
      TailBits(p.flags.zlib, adler, k);
      EndedBy(out, s, NewHeader(), stream, body, FileTail(p.flags.zlib, adler, k));
      NothingHeld(w, s, FileTail(p.flags.zlib, adler, k));
    }

    /** Hands the output buffer over. */
    method HandOver()
      requires w.Valid()
      modifies this`out, this`blockIndex
      ensures blockIndex == old(blockIndex) + 1 && Emitted() == old(Sent()) && old(out) <= out
    {
      blockIndex := blockIndex + 1;
      BytesBitsConcat(out, w.buf[..w.pos]);
      Join(BytesBits(out), BytesBits(w.buf[..w.pos]), BitsOf(w.bitBuffer, w.bitsIn));
      out := out + w.buf[..w.pos];
    }

    /** Hands the output buffer over and starts the next block. */
    method Close()
      requires Apart() && w.Valid() && p.Placed()
      modifies this`out, this`blockIndex, p`lzDictPos, p.lz, p.lz.t0.count, p.lz.t1.count
      ensures p.Valid() && p.lz.codePos == 1 && p.lzDictPos == old(p.lzDictPos + p.lz.totalLzBytes)
      ensures p.lz.Tokens() == [] && old(out) <= out
      ensures blockIndex == old(blockIndex) + 1 && Emitted() == old(Sent())
      ensures w.bitsIn == 0 ==> Emitted() == BytesBits(out)
    {
      HandOver();
      AllHandedOver();
      p.NextBlock();
    }

    /** A block's end, when it does not end the file: an empty stored block if the output is to end on a byte. */
    method OpenTail(sync: bool, ghost body: seq<bool>, ghost text: seq<Byte>, ghost text': seq<Byte>)
        returns (ghost st: seq<bool>)
      requires Apart() && BlockPut(false, body, text, text') && Decodes(stream, text)
      modifies w, w.buf
      ensures Going(st, text') && (sync ==> w.bitsIn == 0 && EndsEmpty(Sent()))
    {
      st := stream + ([false] + body);
      SoundBlock(Sent(), NewHeader(), stream, text, body, text');
      if sync { st := SyncTail(st, text'); }
    }

    ghost predicate Flushable()
      reads `out, `blockIndex, `past, `stream, p, p.d, p.d.dict, p.d.next, p.d.hash, p.lz, p.lz.codeBuf, p.lz.t0.count,
            p.lz.t1.count, w
    {
      Apart() && w.Valid() && Written() && p.Valid() && p.lz.codePos < CODE_BUF_SIZE
    }

    /** The text since the last full flush, before and after the block to be written. */
    ghost function Before(): seq<Byte>
      requires p.d.base <= p.lzDictPos <= |p.d.src|
      reads p, p.d
    {
      p.d.src[p.d.base..p.lzDictPos]
    }

    ghost function After(): seq<Byte>
      requires p.d.base <= p.lzDictPos && p.lzDictPos + p.lz.totalLzBytes <= |p.d.src|
      reads p, p.d, p.lz
    {
      p.d.src[p.d.base..p.lzDictPos + p.lz.totalLzBytes]
    }

    /** A flush that does not end the file. */
    method FlushOpen(sync: bool)
      requires Flushable()
      modifies this`out, this`blockIndex, this`stream, w, w.buf
      modifies p`lzDictPos, p.lz, p.lz.codeBuf, p.lz.t0.Arrays(), p.lz.t1.Arrays(), t2.Arrays()
      ensures Running() && p.lzDictPos == old(p.lzDictPos + p.lz.totalLzBytes) && p.lz.Tokens() == []
      ensures old(out) <= out && (sync ==> w.bitsIn == 0 && EndsEmpty(Emitted()))
    {
      hide Says, Dict.Valid, Buffer.Valid, Decodes, Counted, Parses, Leading, EndsEmpty, SavedOk, Sent;
      p.Within();
      ghost var st := PutOpenBlock(sync);
      CloseOpen(st, After());
    }

    method CloseOpen(ghost st: seq<bool>, ghost text: seq<Byte>)
      requires Apart() && w.Valid() && p.Placed() && Told() && Going(st, text) && text == After()
      modifies this`out, this`blockIndex, this`stream, p`lzDictPos, p.lz, p.lz.t0.count, p.lz.t1.count
      ensures p.Valid() && p.lz.codePos == 1 && p.lzDictPos == old(p.lzDictPos + p.lz.totalLzBytes) && Written()
      ensures p.lz.Tokens() == [] && old(out) <= out && Emitted() == old(Sent())
    {
      hide Says, Dict.Valid, Buffer.Valid, BlockAt, Decodes, Counted, Parses, Leading, EndsEmpty, Emitted, Sent,
           SavedOk;
      p.Within();
      Close();
      stream := st;
      assert Before() == text && Header() == NewHeader();
    }

    method PutOpenBlock(sync: bool) returns (ghost st: seq<bool>)
      requires Flushable()
      modifies w, w.buf, p.lz.codeBuf, p.lz.t0.Arrays(), p.lz.t1.Arrays(), t2.Arrays()
      ensures p.Placed() && Going(st, After()) && (sync ==> w.bitsIn == 0 && EndsEmpty(Sent()))
    {
      hide Says, Dict.Valid, Buffer.Valid, BlockAt, Decodes, Counted, Parses, Leading, Emitted, Header, EndsEmpty,
           SavedOk, NewHeader, Told, Sent;
      p.Within();
      ghost var text := Before();
      Unseal(Emitted(), Header(), stream, text);
      ghost var body := PutBlock(false);
      st := OpenTail(sync, body, text, After());
    }

    method PutLastBlock() returns (ghost body: seq<bool>, ghost k: nat)
      requires Flushable()
      modifies w, w.buf, p.lz.codeBuf, p.lz.t0.Arrays(), p.lz.t1.Arrays(), t2.Arrays()
      ensures w.Valid() && p.Placed()
      ensures w.bitsIn == 0 && Ended(Sent(), NewHeader(), stream, body, FileTail(p.flags.zlib, adler, k))
      ensures BlockAt(body, |stream|, Before(), After())
    {
      hide Says, Dict.Valid, Buffer.Valid, BlockAt, Decodes, Counted, Parses, Leading, Told, Header, SavedOk;
      p.Within();
      body := PutBlock(true);
      k := FinishTail(body, Before(), After());
    }

    /** The last flush: everything recorded becomes the final block of the file. */
    method FlushLast(ghost text: seq<Byte>, ghost text': seq<Byte>) returns (ghost body: seq<bool>, ghost k: nat)
      requires Flushable() && text == Before() && text' == After()
      modifies this`out, this`blockIndex, w, w.buf
      modifies p`lzDictPos, p.lz, p.lz.codeBuf, p.lz.t0.Arrays(), p.lz.t1.Arrays(), t2.Arrays()
      ensures Ended(BytesBits(out), NewHeader(), stream, body, FileTail(p.flags.zlib, adler, k)) && old(out) <= out
      ensures BlockAt(body, |stream|, text, text')
    {
      hide Says, Dict.Valid, Buffer.Valid, BlockAt, Decodes, Counted, Parses, Ended, FileTail, Emitted, Sent, NewHeader,
           SavedOk, Written, Told, Leading;
      body, k := PutLastBlock();
      Close();
    }

    method FlushFile() returns (ghost k: nat)
      requires Flushable()
      modifies this`out, this`blockIndex, w, w.buf
      modifies p`lzDictPos, p.lz, p.lz.codeBuf, p.lz.t0.Arrays(), p.lz.t1.Arrays(), t2.Arrays()
      ensures WholeFile(BytesBits(out), NewHeader(), FileTail(p.flags.zlib, adler, k), old(After())) && old(out) <= out
    {
      ghost var text, text' := Before(), After();
      Unseal(Emitted(), Header(), stream, text);
      ghost var body;
      body, k := FlushLast(text, text');
      FileDone(BytesBits(out), NewHeader(), stream, body, text, text', FileTail(p.flags.zlib, adler, k));
    }

    lemma AllHandedOver()
      ensures w.bitsIn == 0 ==> Emitted() == BytesBits(out)
    {
      assert BytesBits(out) + [] == BytesBits(out);
    }

    // ----- a call

    /** Takes in more input; what has been written stays a prefix of the source. */
    method Fill(input: seq<Byte>, q: nat) returns (q': nat)
      requires Running() && q <= |input|
      modifies p.d`src, p.d`lookaheadSize, p.d`dictSize, p.d.dict, p.d.next, p.d.hash
      ensures Running() && q' == q + Min(|input| - q, MAX_MATCH - old(p.d.lookaheadSize))
      ensures p.d.src == old(p.d.src) + input[q..q'] && p.d.lookaheadSize == old(p.d.lookaheadSize) + (q' - q)
    {
      hide Says, Dict.Valid, Buffer.Valid, Decodes, Counted, Parses;
      ghost var src := p.d.src;
      q' := p.Fill(input, q);
      assert Before() == src[p.d.base..p.lzDictPos] && p.d.src[..p.d.base] == src[..p.d.base];
    }

    /** Whether it is time to flush: the code buffer is nearly full, or a large block does not compress. */
    predicate FlushDue()
      reads p.lz
    {
      p.lz.codePos > CODE_BUF_SIZE - 8 ||
      (p.lz.totalLzBytes > 31 * 1024 && (p.lz.codePos * 115 / 128 >= p.lz.totalLzBytes || p.flags.forceRaw))
    }

    /** One parsing step, with a flush when it is due. */
    method ParseStep()
      requires Running() && p.d.lookaheadSize > 0
      modifies this`out, this`blockIndex, this`stream, w, w.buf, p, p.lz, p.lz.codeBuf
      modifies p.lz.t0.Arrays(), p.lz.t1.Arrays(), t2.Arrays(), p.d`lookaheadPos, p.d`lookaheadSize, p.d`dictSize
      ensures Running() && p.d.lookaheadSize < old(p.d.lookaheadSize) && old(out) <= out
    {
      hide Says, Dict.Valid, Buffer.Valid, BlockAt, Decodes, Counted, Parses, Parser.Best, Parser.Took, Leading,
           EndsEmpty, SavedOk;
      ghost var cur, longest := p.Step();
      if FlushDue() { FlushOpen(false); }
    }

    /** Parses the input, and when flushing the whole lookahead. */
    method CompressNormal(input: seq<Byte>, flush: bool) returns (q: nat)
      requires Running()
      modifies this`out, this`blockIndex, this`stream, w, w.buf, p, p.lz, p.lz.codeBuf
      modifies p.lz.t0.Arrays(), p.lz.t1.Arrays(), t2.Arrays()
      modifies p.d`src, p.d`lookaheadPos, p.d`lookaheadSize, p.d`dictSize, p.d.dict, p.d.next, p.d.hash
      ensures Running() && q == |input| && p.d.src == old(p.d.src) + input[..q] && (flush ==> p.d.lookaheadSize == 0)
      ensures old(out) <= out
    {
      hide Running, Says, Decodes;
      q := 0;
      ghost var src := p.d.src;
      while q < |input| || (flush && p.d.lookaheadSize > 0)
        invariant q <= |input| && Running() && p.d.src == src + input[..q] && old(out) <= out
        decreases |input| - q + p.d.lookaheadSize
      {
        ghost var r, s := q, p.d.src;
        q := Fill(input, q);
        Consumed(src, input, r, q);
        if !flush && p.d.lookaheadSize < MAX_MATCH { break; }
        ParseStep();
      }
    }

    // ----- the interface

    predicate NeedsAdler() { p.flags.zlib || p.flags.computeAdler }

    /** Holds between calls: after a call that went well, the next one can go on. */
    ghost predicate Usable()
      reads this, p, p.d, p.d.dict, p.d.next, p.d.hash, p.lz, p.lz.codeBuf, p.lz.t0.count, p.lz.t1.count, w
    {
      prevStatus == Okay ==>
        Running() && !wantsToFinish && (NeedsAdler() ==> adler == Adler.Checksum(p.d.src))
    }

    /** The checksum continued over the input taken in. */
    method UpdateAdler(input: seq<Byte>, ghost src: seq<Byte>)
      requires NeedsAdler() ==> adler == Adler.Checksum(src)
      modifies this`adler
      ensures NeedsAdler() ==> adler == Adler.Checksum(src + input)
    {
      if NeedsAdler() {
        Adler.Continue(src, input);
        adler := Adler.Adler32(adler, input);
      }
    }

    /** The bytes handed over so far are a whole file holding the text. */
    ghost predicate FileHolds(text: seq<Byte>)
      reads `out
    {
      if p.flags.zlib then Unzlib(out) == Some(text) else Inflate(out) == Some(text)
    }

    /** Takes the input in, and when flushing parses all of it. */
    method Take(input: seq<Byte>, flush: bool)
      requires Running() && (NeedsAdler() ==> adler == Adler.Checksum(p.d.src))
      modifies this`out, this`blockIndex, this`stream, this`adler, w, w.buf, p, p.lz, p.lz.codeBuf
      modifies p.lz.t0.Arrays(), p.lz.t1.Arrays(), t2.Arrays()
      modifies p.d`src, p.d`lookaheadPos, p.d`lookaheadSize, p.d`dictSize, p.d.dict, p.d.next, p.d.hash
      ensures Running() && old(out) <= out && (NeedsAdler() ==> adler == Adler.Checksum(p.d.src))
      ensures p.d.src == old(p.d.src) + input && (flush ==> p.d.lookaheadSize == 0)
    {
      hide Running, FileHolds, Says, Decodes;
      ghost var src := p.d.src;
      var q := CompressNormal(input, flush);
      WholeInput(input, q);
      UpdateAdler(input, src);
    }

    /** Everything handed over holds the text: it can be decoded from it, up to an empty stored block at its end. */
    ghost predicate Flushed(text: seq<Byte>)
      reads `out, w
    {
      w.bitsIn == 0 && Handed(p.flags.zlib, out, text)
    }

    /** A flush at the end of a call that does not end the file: all of the source can be decoded from the output. */
    method EndOpen(full: bool)
      requires Running() && p.d.lookaheadSize == 0
      modifies this`out, this`blockIndex, this`past, this`stream, w, w.buf
      modifies p`lzDictPos, p.lz, p.lz.codeBuf, p.lz.t0.Arrays(), p.lz.t1.Arrays(), t2.Arrays()
      modifies p.d`dictSize, p.d`base, p.d.next, p.d.hash
      ensures Running() && p.lzDictPos == |p.d.src| && Flushed(p.d.src) && old(out) <= out
      ensures if full then Forgotten(p.flags.zlib, out, old(past), past, old(p.d.base), p.d.base, p.d.src)
              else past == old(past) && p.d.base == old(p.d.base)
    {
      hide Says, Dict.Valid, Buffer.Valid, BlockAt, Decodes, Counted, Parses, Handed, Forgotten;
      p.AllParsed();
      FlushOpen(true);
      AllHandedOver();
      HandedAll();
      if full { Forget(); }
    }

    /** When no bit is held back, the bytes handed over are the blocks behind the header. */
    lemma AllOut()
      requires Written() && w.bitsIn == 0 && blockIndex > 0
      ensures BytesBits(out) == Emitted() == Leading(p.flags.zlib, past) + stream
      ensures Decodes(past, p.d.src[..p.d.base]) && Decodes(stream, Before())
    {
      hide Decodes, BytesBits;
      Unseal(past, [], past, p.d.src[..p.d.base]);
      Unseal(Emitted(), Header(), stream, p.d.src[p.d.base..p.lzDictPos]);
      AllHandedOver();
    }

    lemma HandedAll()
      requires Written() && p.lzDictPos == |p.d.src| && w.bitsIn == 0 && EndsEmpty(Emitted()) && blockIndex > 0
      ensures Flushed(p.d.src)
    {
      hide Decodes, BytesBits, Says, EndsEmpty, Handed;
      AllOut();
      HandedIs(p.flags.zlib, out, past, stream, p.d.src[..p.d.base], Before());
      assert p.d.src[..p.d.base] + Before() == p.d.src;
    }

    /** Starts afresh behind what has been written. */
    method Forget()
      requires Running() && p.d.lookaheadSize == 0 && p.lz.Tokens() == [] && w.bitsIn == 0 && blockIndex > 0
      requires p.lzDictPos == |p.d.src|
      modifies this`past, this`stream, p.d`dictSize, p.d`base, p.d.next, p.d.hash
      ensures Running()
      ensures Forgotten(p.flags.zlib, out, old(past), past, old(p.d.base), p.d.base, p.d.src)
    {
      hide Decodes, BytesBits, Says, Dict.Valid, Buffer.Valid, Counted, Parses, Leading, Emitted, Forgotten;
      AllOut();
      ghost var x, y := p.d.src[..p.d.base], Before();
      assert x + y == p.d.src;
      ghost var all := WholeStream(p.flags.zlib, out, past, stream, x, y, p.d.src);
      p.Forget();
      past, stream := all, [];
      assert p.d.src[..p.d.base] == p.d.src && Before() == [];
    }

    /** The bytes handed over end with the blocks that hold the source behind the last full flush. */
    ghost predicate LastPart()
      reads `out, `past, p.d`src, p.d`base
    {
      p.d.base <= |p.d.src| && Ending(BytesBits(out), Leading(p.flags.zlib, past), p.d.src[p.d.base..])
    }

    /** The end of the file. */
    method EndFile()
      requires Running() && p.d.lookaheadSize == 0 && (NeedsAdler() ==> adler == Adler.Checksum(p.d.src))
      modifies this`out, this`blockIndex, w, w.buf
      modifies p`lzDictPos, p.lz, p.lz.codeBuf, p.lz.t0.Arrays(), p.lz.t1.Arrays(), t2.Arrays()
      ensures FileHolds(p.d.src) && LastPart() && old(out) <= out
    {
      hide Says, Dict.Valid, Buffer.Valid, Decodes, Parses, WholeFile, FileTail, Counted, Leading, Emitted, SavedOk,
        EndsEmpty, LastPart, FileHolds, BytesBits;
      p.AllParsed();
      assert After() == p.d.src[p.d.base..];
      ghost var k := FlushFile();
      FileEnded(k);
    }

    lemma FileEnded(k: nat)
      requires Told() && (NeedsAdler() ==> adler == Adler.Checksum(p.d.src))
      requires WholeFile(BytesBits(out), NewHeader(), FileTail(p.flags.zlib, adler, k), p.d.src[p.d.base..])
      ensures FileHolds(p.d.src) && LastPart()
    {
      hide Says, Decodes, WholeFile, FileTail, BytesBits;
      Unseal(past, [], past, p.d.src[..p.d.base]);
      assert p.d.src[..p.d.base] + p.d.src[p.d.base..] == p.d.src;
      FileIsFile(p.flags.zlib, out, past, adler, k, p.d.src[..p.d.base], p.d.src[p.d.base..]);
    }

    /** What a call asks for once its input has been parsed. */
    method End(mode: Flush)
      requires Running() && wantsToFinish == (mode == Finish) && prevStatus == Okay &&
               (mode != NoFlush ==> p.d.lookaheadSize == 0)
      requires NeedsAdler() ==> adler == Adler.Checksum(p.d.src)
      modifies this`out, this`blockIndex, this`past, this`stream, this`finished, this`prevStatus, w, w.buf
      modifies p`lzDictPos, p.lz, p.lz.codeBuf, p.lz.t0.Arrays(), p.lz.t1.Arrays(), t2.Arrays()
      modifies p.d`dictSize, p.d`base, p.d.next, p.d.hash
      ensures Usable() && prevStatus == (if mode == Finish then Done else Okay) && old(out) <= out
      ensures mode == Finish ==> FileHolds(p.d.src) && LastPart()
      ensures mode == SyncFlush || mode == FullFlush ==> Flushed(p.d.src)
      ensures if mode == FullFlush then Forgotten(p.flags.zlib, out, old(past), past, old(p.d.base), p.d.base, p.d.src)
              else past == old(past) && p.d.base == old(p.d.base)
    {
      hide Running, FileHolds, Says, Decodes, Handed, Forgotten, LastPart;
      if mode == Finish {
        EndFile();
        finished := true;
        prevStatus := Done;
      } else if mode != NoFlush {
        EndOpen(mode == FullFlush);
      }
    }

    method Proceed(input: seq<Byte>, mode: Flush)
      requires Usable() && prevStatus == Okay
      modifies this, w, w.buf, p, p.lz, p.lz.codeBuf
      modifies p.lz.t0.Arrays(), p.lz.t1.Arrays(), t2.Arrays(), p.d, p.d.dict, p.d.next, p.d.hash
      ensures Usable() && prevStatus == (if mode == Finish then Done else Okay)
      ensures p.d.src == old(p.d.src) + input && old(out) <= out
      ensures mode == Finish ==> FileHolds(p.d.src) && LastPart()
      ensures mode == SyncFlush || mode == FullFlush ==> Flushed(p.d.src)
      ensures if mode == FullFlush then Forgotten(p.flags.zlib, out, old(past), past, old(p.d.base), p.d.base, p.d.src)
              else past == old(past) && p.d.base == old(p.d.base)
    {
      hide Running, FileHolds, Says, Decodes, Handed, Forgotten, LastPart;
      wantsToFinish := wantsToFinish || mode == Finish;
      Take(input, mode != NoFlush);
      End(mode);
    }

    /**
     * One call: the input is taken in, and flushed as asked. After a last flush the bytes handed over are a file
     * that holds exactly the source. After any other flush all of the source can be decoded from the bytes handed
     * over, which end in an empty stored block, and after a full one nothing written later refers to it.
     */
    method Compress(input: seq<Byte>, mode: Flush) returns (status: Status)
      requires Usable()
      modifies this, w, w.buf, p, p.lz, p.lz.codeBuf
      modifies p.lz.t0.Arrays(), p.lz.t1.Arrays(), t2.Arrays(), p.d, p.d.dict, p.d.next, p.d.hash
      ensures Usable() && status == prevStatus && old(out) <= out
      ensures old(prevStatus) != Okay ==> status == BadParam && out == old(out) && p.d.src == old(p.d.src)
      ensures old(prevStatus) == Okay ==>
                p.d.src == old(p.d.src) + input && status == (if mode == Finish then Done else Okay)
      ensures status == Done ==> FileHolds(p.d.src) && LastPart()
      ensures status == Okay && mode != NoFlush ==> Flushed(p.d.src)
      ensures if status == Okay && mode == FullFlush
              then Forgotten(p.flags.zlib, out, old(past), past, old(p.d.base), p.d.base, p.d.src)
              else past == old(past) && p.d.base == old(p.d.base)
    {
      if prevStatus != Okay || (wantsToFinish && mode != Finish) {
        prevStatus := BadParam;
        return prevStatus;
      }
      Proceed(input, mode);
      status := prevStatus;
    }
  }

  // ----- what a flush that does not end the file leaves behind

  /** The last 32 bits are the lengths of an empty stored block. */
  ghost predicate EndsEmpty(s: seq<bool>) {
    |s| >= 32 && s[|s| - 32..] == StoredLength(0)
  }

  lemma LastIsEmpty(o: seq<bool>, s: seq<bool>, off: nat)
    ensures EndsEmpty(o + (s + ([false] + StoredBody(off + 1, []))))
  {
    hide BitsOf, StoredLength;
    var front := [false] + (BitsOf(0, 2) + BitsOf(0, Pad(off + 3)));
    assert BytesBits([]) == [];
    assert o + (s + ([false] + StoredBody(off + 1, []))) == (o + (s + front)) + StoredLength(0);
  }

  /** The block ends on a byte boundary. */
  lemma EmptyWhole(k: nat, off: nat)
    requires Aligned(k, off)
    ensures Whole(k, |[false] + StoredBody(off + 1, [])|)
  {
    hide BitsOf, StoredLength;
    assert |[false] + StoredBody(off + 1, [])| == 35 + Pad(off + 3);
    PadWhole(off + 3, 4);
    AlignedWhole(k, off, 32 + Pad(off + 3));
  }

  lemma AlignedWhole(k: nat, off: nat, n: nat)
    requires Aligned(k, off) && Whole(off + 3, n)
    ensures Whole(k, n + 3)
  {
  }

  lemma EmptyBlock(sent: seq<bool>, hdr: seq<bool>, st: seq<bool>, text: seq<Byte>)
    requires |hdr| % 8 == 0 && Decodes(st, text)
    requires sent == hdr + (st + ([false] + StoredBody(|st| + 1, [])))
    ensures Says(sent, hdr, st + ([false] + StoredBody(|st| + 1, [])), text)
  {
    hide Decodes, BlockAt, StoredBody;
    StoredBlock(|st|, [], text);
    assert text + [] == text;
    SoundBlock(sent, hdr, st, text, StoredBody(|st| + 1, []), text);
  }

  /** The bytes of a file so far hold the text, and end in an empty stored block. */
  ghost predicate Handed(zlib: bool, out: seq<Byte>, text: seq<Byte>) {
    var head := if zlib then 2 else 0;
    |out| >= 4 && out[|out| - 4..] == [0, 0, 0xFF, 0xFF] && (zlib ==> out[..2] == [0x78, 0x01]) &&
    Decodes(BytesBits(out[head..]), text)
  }

  lemma LastFour(out: seq<Byte>)
    requires EndsEmpty(BytesBits(out))
    ensures |out| >= 4 && out[|out| - 4..] == [0, 0, 0xFF, 0xFF]
  {
    hide BytesBits, BitsOf, StoredLength;
    BytesBitsLength(out);
    var n := |out| - 4;
    var a, b := out[..n], out[n..];
    assert out == a + b;
    BytesBitsConcat(a, b);
    BytesBitsLength(a);
    assert BytesBits(b) == BytesBits(out)[8 * n..];
    EmptyLengths();
    ReadBytesBack(b);
    ReadBytesBack([0, 0, 0xFF, 0xFF]);
  }

  lemma EmptyLengths()
    ensures BytesBits([0, 0, 0xFF, 0xFF]) == StoredLength(0)
  {
    hide BytesBits, BitsOf;
    var a: seq<Byte>, b: seq<Byte> := [0, 0], [0xFF, 0xFF];
    assert a + b == [0, 0, 0xFF, 0xFF];
    BytesBitsConcat(a, b);
    TwoBytes(0, 0);
    TwoBytes(0xFF, 0xFF);
    BitsOfByte(0, 16);
    BitsOfByte(0xFFFF, 16);
  }

  lemma HandedIs(zlib: bool, out: seq<Byte>, past: WholeBytes, stream: seq<bool>, x: seq<Byte>, y: seq<Byte>)
    requires BytesBits(out) == Leading(zlib, past) + stream && EndsEmpty(BytesBits(out))
    requires Decodes(past, x) && Decodes(stream, y)
    ensures Handed(zlib, out, x + y)
  {
    hide Decodes, BytesBits, EndsEmpty;
    LastFour(out);
    DecodesJoin(past, x, stream, y);
    assert (ZlibHeader() + past) + stream == ZlibHeader() + (past + stream);
    if zlib {
      HeaderBack(out);
      assert out[..2] == [0x78, 0x01];
    } else {
      assert out[0..] == out;
      assert ([] + past) + stream == past + stream;
    }
  }

  /** All blocks as the new past. */
  lemma WholeStream(zlib: bool, out: seq<Byte>, past: WholeBytes, stream: seq<bool>, x: seq<Byte>, y: seq<Byte>,
      src: seq<Byte>) returns (all: WholeBytes)
    requires BytesBits(out) == Leading(zlib, past) + stream && Decodes(past, x) && Decodes(stream, y)
    requires src == x + y
    ensures all == past + stream && BytesBits(out) == Leading(zlib, all) + []
    ensures Says(all, [], all, src) && Says(BytesBits(out), Leading(zlib, all), [], [])
    ensures Forgotten(zlib, out, past, all, |x|, |src|, src)
  {
    hide Decodes, BytesBits;
    BytesBitsLength(out);
    AllWhole(|out|, |Leading(zlib, past)|, |stream|);
    all := past + stream;
    DecodesJoin(past, x, stream, y);
    DecodesNothing();
    var z := if zlib then ZlibHeader() else [];
    assert (z + past) + stream == z + (past + stream);
    assert z + (past + stream) == (z + (past + stream)) + [];
    assert all[|past|..] == stream && src[|x|..] == y && [] + all == all;
  }

  lemma AllWhole(n: nat, l: nat, k: nat)
    requires 8 * n == l + k && l % 8 == 0
    ensures k % 8 == 0
  {
  }

  /**
   * A full flush moves past to the end of the bytes handed over and base to the end of the source; what has been
   * written between two full flushes holds the source between them.
   */
  ghost predicate Forgotten(zlib: bool, out: seq<Byte>, past: seq<bool>, past': seq<bool>, base: nat, base': nat,
      src: seq<Byte>) {
    base <= base' == |src| && past <= past' && |past'| + (if zlib then 16 else 0) == 8 * |out| &&
    Decodes(past'[|past|..], src[base..])
  }

  /** emitted is hdr and blocks that end a stream with text. */
  ghost predicate Ending(emitted: seq<bool>, hdr: seq<bool>, text: seq<Byte>) {
    exists tail: seq<bool> :: WholeFile(emitted, hdr, tail, text)
  }

  lemma WholeInput(input: seq<Byte>, q: nat)
    requires q == |input|
    ensures input[..q] == input
  {
  }

  lemma FileIsFile(zlib: bool, out: seq<Byte>, past: WholeBytes, adler: Adler.U32, k: nat, x: seq<Byte>, y: seq<Byte>)
    requires WholeFile(BytesBits(out), Leading(zlib, past), FileTail(zlib, adler, k), y) && Decodes(past, x)
    requires zlib ==> adler == Adler.Checksum(x + y)
    ensures if zlib then Unzlib(out) == Some(x + y) else Inflate(out) == Some(x + y)
  {
    hide FileTail, Decodes, BytesBits;
    BytesBitsLength(out);
    JoinFile(BytesBits(out), zlib, past, x, FileTail(zlib, adler, k), y);
    if zlib { ZlibFile(out, adler, k, x + y); } else { PlainFile(out, FileTail(zlib, adler, k), x + y); }
  }

  lemma JoinFile(emitted: seq<bool>, zlib: bool, past: WholeBytes, x: seq<Byte>, tail: seq<bool>, y: seq<Byte>)
    requires WholeFile(emitted, Leading(zlib, past), tail, y) && Decodes(past, x) && |emitted| % 8 == 0
    ensures WholeFile(emitted, Leading(zlib, []), tail, x + y)
  {
    hide Decodes, Finishes, Leading;
    var h, l := Leading(zlib, []), Leading(zlib, past);
    LeadingIs(zlib, past);
    var rest := emitted[|l|..];
    assert emitted == l + rest;
    assert emitted[..|h|] == h && emitted[|h|..] == past + rest;
    RestWhole(|emitted|, |l|, |rest|, |past|);
    FinishesJoin(past, x, rest, y, tail);
  }

  lemma LeadingIs(zlib: bool, past: WholeBytes)
    ensures Leading(zlib, past) == Leading(zlib, []) + past && |Leading(zlib, past)| % 8 == 0
  {
  }

  lemma RestWhole(n: nat, l: nat, rest: nat, past: nat)
    requires n % 8 == 0 && l % 8 == 0 && past % 8 == 0 && n == l + rest
    ensures Whole(past, rest)
  {
  }

  lemma PlainFile(bytes: seq<Byte>, tail: seq<bool>, text: seq<Byte>)
    requires WholeFile(BytesBits(bytes), Leading(false, []), tail, text)
    ensures Inflate(bytes) == Some(text)
  {
    assert BytesBits(bytes)[0..] == BytesBits(bytes);
    FinishesText(BytesBits(bytes), text, tail);
  }

  lemma HeaderIsOk(cmf: nat, flg: nat)
    requires cmf == 0x78 && flg == 0x01
    ensures HeaderOk(cmf, flg)
  {
  }

  lemma Checked(rest: seq<bool>, text: seq<Byte>)
    requires TrailerOk(rest, text)
    ensures CheckTrailer(Some((rest, text))) == Some(text)
  {
  }

  lemma UnzlibIs(bytes: seq<Byte>, r: Option<(seq<bool>, seq<Byte>)>, text: seq<Byte>)
    requires |bytes| >= 2 && HeaderOk(bytes[0], bytes[1])
    requires InflateFrom(BytesBits(bytes[2..]), []) == r && CheckTrailer(r) == Some(text)
    ensures Unzlib(bytes) == Some(text)
  {
  }

  lemma ZlibFile(bytes: seq<Byte>, adler: Adler.U32, k: nat, text: seq<Byte>)
    requires WholeFile(BytesBits(bytes), Leading(true, []), FileTail(true, adler, k), text)
    requires adler == Adler.Checksum(text)
    ensures Unzlib(bytes) == Some(text)
  {
    assert Leading(true, []) == ZlibHeader();
    HeaderBack(bytes);
    FinishesText(BytesBits(bytes[2..]), text, FileTail(true, adler, k));
    TailBack(adler, k, text);
    Checked(FileTail(true, adler, k), text);
    HeaderIsOk(0x78, 0x01);
    UnzlibIs(bytes, Some((FileTail(true, adler, k), text)), text);
  }

  lemma HeaderBack(bytes: seq<Byte>)
    requires |BytesBits(bytes)| >= 16 && BytesBits(bytes)[..16] == ZlibHeader()
    ensures |bytes| >= 2 && bytes[0] == 0x78 && bytes[1] == 0x01 && BytesBits(bytes[2..]) == BytesBits(bytes)[16..]
  {
    BytesBitsLength(bytes);
    var h, r := bytes[..2], bytes[2..];
    assert h + r == bytes;
    BytesBitsConcat(h, r);
    ReadBytesBack(h);
    ReadBytesBack([0x78, 0x01]);
    assert BytesBits(h) == (BytesBits(h) + BytesBits(r))[..16];
    assert h == [0x78, 0x01];
  }

  lemma TailBack(adler: Adler.U32, k: nat, text: seq<Byte>)
    requires adler == Adler.Checksum(text)
    ensures TrailerOk(FileTail(true, adler, k), text)
  {
    var tail, t := FileTail(true, adler, k), BytesBits(Trailer(adler, 4));
    BytesBitsLength(Trailer(adler, 4));
    PadLength(Pad(k), 0, 0);
    assert tail[Pad(k)..] == t && t[..32] == t;
    ReadBytesBack(Trailer(adler, 4));
    TrailerBack(adler);
  }

  /** What follows the final block: padding, and the checksum in a zlib file. */
  ghost function FileTail(zlib: bool, adler: Adler.U32, k: nat): (t: seq<bool>) {
    BitsOf(0, Pad(k)) + (if zlib then BytesBits(Trailer(adler, 4)) else [])
  }

  lemma TailBits(zlib: bool, adler: Adler.U32, k: nat)
    ensures Whole(k, |FileTail(zlib, adler, k)|)
  {
    BytesBitsLength(Trailer(adler, 4));
    PadWhole(k, if zlib then 4 else 0);
  }

  lemma Consumed(src: seq<Byte>, input: seq<Byte>, r: nat, q: nat)
    requires r <= q <= |input|
    ensures (src + input[..r]) + input[r..q] == src + input[..q]
  {
  }

  lemma PadWhole(k: nat, n: nat)
    ensures Whole(k, Pad(k) + 8 * n)
  {
  }

  lemma WholeAligned(s: nat, t: nat, n: nat)
    requires Aligned(s, t) && Whole(s, n)
    ensures Whole(t, n)
  {
  }

  /** A header, the blocks before the last, the last block and the tail. */
  ghost predicate Ended(emitted: seq<bool>, h: seq<bool>, stream: seq<bool>, body: seq<bool>, tail: seq<bool>) {
    emitted == (h + (stream + ([true] + body))) + tail && Whole(|stream + ([true] + body)|, |tail|)
  }

  lemma EndedBy(out: seq<Byte>, s: seq<bool>, h: seq<bool>, stream: seq<bool>, body: seq<bool>, tail: seq<bool>)
    requires BytesBits(out) + s == h + (stream + ([true] + body)) && |h| % 8 == 0 && Whole(|s|, |tail|)
    ensures Ended(BytesBits(out) + (s + tail), h, stream, body, tail)
  {
    var t := stream + ([true] + body);
    AlignedParts(out, s, h, t);
    WholeAligned(|s|, |t|, |tail|);
    SoundJoin(BytesBits(out), s, tail);
  }

  lemma FileDone(emitted: seq<bool>, h: seq<bool>, stream: seq<bool>, body: seq<bool>, text: seq<Byte>,
      text': seq<Byte>, tail: seq<bool>)
    requires Ended(emitted, h, stream, body, tail) && |h| % 8 == 0
    requires Decodes(stream, text) && BlockAt(body, |stream|, text, text')
    ensures WholeFile(emitted, h, tail, text')
  {
    CompleteBlock(h + (stream + ([true] + body)), h, stream, text, body, text', tail);
  }

  lemma NothingHeld(w: Writer, s: seq<bool>, tail: seq<bool>)
    requires w.Valid() && w.Stream() == s + tail && Whole(|s|, |tail|)
    ensures w.bitsIn == 0
  {
    StreamLength(w);
    NoBits(w.pos, w.bitsIn, |s|, |tail|);
  }

  lemma NoBits(pos: nat, n: nat, a: nat, b: nat)
    requires 8 * pos + n == a + b && Whole(a, b) && n < 8
    ensures n == 0
  {
  }

  lemma AlignedParts(out: seq<Byte>, s: seq<bool>, h: seq<bool>, t: seq<bool>)
    requires BytesBits(out) + s == h + t && |h| % 8 == 0
    ensures Aligned(|s|, |t|)
  {
    BytesBitsLength(out);
    assert |BytesBits(out) + s| == |h + t|;
    AlignedLengths(|out|, |s|, |h|, |t|);
  }

  lemma AlignedLengths(n: nat, s: nat, h: nat, t: nat)
    requires 8 * n + s == h + t && h % 8 == 0
    ensures Aligned(s, t)
  {
  }

  lemma AddBody(o: seq<bool>, s: seq<bool>, h: seq<bool>, t: seq<bool>, f: bool, x: seq<bool>)
    requires o + s == h + (t + [f])
    ensures o + (s + x) == h + (t + ([f] + x))
  {
    AddBits(o, s, h, t + [f], x);
    assert (t + [f]) + x == t + ([f] + x);
  }

  /** A compressor in its initial state. */
  method Init(flags: Flags) returns (c: Compressor)
    ensures c.Running() && fresh(c) && fresh(c.p) && fresh(c.p.Parts()) && fresh(Arrays(c.w, c.t2)) &&
            c.p.flags == flags
    ensures c.Usable() && c.p.d.src == [] && c.out == [] && c.prevStatus == Okay && c.adler == 1
    ensures !c.finished && !c.wantsToFinish
  {
    var p, w, t := Build(flags);
    c := new Compressor(p, w, t);
    Nothing(c.Emitted(), c.p.d.src[..c.p.lzDictPos]);
  }

  lemma Nothing(emitted: seq<bool>, text: seq<Byte>)
    requires emitted == [] && text == []
    ensures Says(emitted, [], [], text)
  {
    DecodesNothing();
  }

  lemma Alone(h: seq<bool>)
    ensures [] + ([] + h) == h && h + [] == h
  {
  }

  lemma OneBit(b: bool)
    ensures BitsOf(if b then 1 else 0, 1) == [b] && Pow2(1) == 2
  {
  }

  lemma AddBits(o: seq<bool>, s: seq<bool>, h: seq<bool>, t: seq<bool>, x: seq<bool>)
    requires o + s == h + t
    ensures o + (s + x) == h + (t + x)
  {
    assert o + (s + x) == (o + s) + x;
    assert (h + t) + x == h + (t + x);
  }

  lemma Offset(out: seq<Byte>, s: seq<bool>, h: seq<bool>, t: seq<bool>, f: bool)
    requires BytesBits(out) + s == h + (t + [f]) && |h| % 8 == 0
    ensures Aligned(|s|, |t| + 1)
  {
    BytesBitsLength(out);
    assert |BytesBits(out) + s| == |h + (t + [f])|;
    OffsetOf(|out|, |s|, |h|, |t|);
  }

  lemma OffsetOf(n: nat, s: nat, h: nat, t: nat)
    requires 8 * n + s == h + t + 1 && h % 8 == 0
    ensures Aligned(s, t + 1)
  {
  }
}
