/** Whole blocks: encoding a token list under dynamic or fixed codes, and reading it back. */
module Blocks {
  import opened Bits
  import opened Canonical
  import opened Deflate
  import opened Entropy
  import opened BitWriter
  import opened BlockHeader
  import opened LzCodes
  import opened BlockEncoder
  import opened SymbolCounts
  import opened FixedCodes
  import opened BlockSize
  import RunLength
  import HuffmanTable
  import HuffmanTree
  import TableCost

  /** body, behind any final-block flag and in front of anything, is a block that inflates to the tokens' expansion. */
  ghost predicate IsBlock(body: seq<bool>, ts: seq<Token>) {
    |body| >= 2 && forall final: bool, rest: seq<bool>, out: seq<Byte> :: ReadsBack(body, ts, final, rest, out)
  }

  ghost predicate ReadsBack(body: seq<bool>, ts: seq<Token>, final: bool, rest: seq<bool>, out: seq<Byte>) {
    Expandable(ts, out) ==> InflateBlock([final] + (body + rest), out) == Some((final, rest, Expand(ts, out)))
  }

  /** A bound for the bits of a dynamic block's header, type bits included. */
  const HEADER_BITS: nat := 2313

  /** A bound for the bits of a block behind its final flag. */
  const BLOCK_BITS: nat := HEADER_BITS + TOKEN_BITS

  // ----- reading a block back

  lemma BlockBits(final: bool, b1: bool, b2: bool, tail: seq<bool>)
    ensures var s := [final] + ([b1, b2] + tail);
            |s| >= 3 && s[0] == final && s[1] == b1 && s[2] == b2 && s[3..] == tail
  {
  }

  lemma FixedBlock(s: seq<bool>, out: seq<Byte>, lit: seq<nat>, dst: seq<nat>, rest: seq<bool>, out': seq<Byte>)
    requires |s| >= 3 && s[1] && !s[2] && lit == FixedLit() && dst == FixedDist()
    requires InflateCodes(lit, dst, s[3..], out) == Some((rest, out'))
    ensures InflateBlock(s, out) == Some((s[0], rest, out'))
  {
  }

  lemma DynamicBlock(s: seq<bool>, out: seq<Byte>, lit: seq<nat>, dst: seq<nat>, tail: seq<bool>, rest: seq<bool>,
      out': seq<Byte>)
    requires |s| >= 3 && !s[1] && s[2] && ReadTables(s[3..]) == Some((lit, dst, tail))
    requires InflateCodes(lit, dst, tail, out) == Some((rest, out'))
    ensures InflateBlock(s, out) == Some((s[0], rest, out'))
  {
  }

  lemma FixedParts(t: seq<bool>, a: seq<bool>, b: seq<bool>, r: seq<bool>)
    ensures (t + (a + b)) + r == t + (a + (b + r))
  {
  }

  lemma DynamicParts(t: seq<bool>, h: seq<bool>, a: seq<bool>, b: seq<bool>, r: seq<bool>)
    ensures (t + h + (a + b)) + r == t + (h + (a + (b + r)))
  {
  }

  lemma Front(s: seq<nat>)
    ensures s[..|s|] == s
  {
  }

  lemma FixedReadsBack(ls: seq<nat>, ds: seq<nat>, ts: seq<Token>, final: bool, rest: seq<bool>, out: seq<Byte>)
    requires ls == FixedLit() && ds == FixedDist() && Fits(ls) && Fits(ds) && AllHaveCodes(ls, ds, ts) && ls[256] > 0
    ensures ReadsBack([true, false] + (TokensBits(ls, ds, ts) + Codeword(ls, 256)), ts, final, rest, out)
  {
    var codes, eob := TokensBits(ls, ds, ts), Codeword(ls, 256);
    if Expandable(ts, out) {
      Front(ls);
      Front(ds);
      InflateBody(ls, |ls|, ds, |ds|, ts, rest, out);
      var tail := codes + (eob + rest);
      BlockBits(final, true, false, tail);
      FixedParts([true, false], codes, eob, rest);
      FixedBlock([final] + ([true, false] + tail), out, ls, ds, rest, Expand(ts, out));
    }
  }

  /** hdr is a header that gives the decoder the tables lit and dst. */
  ghost predicate IsHeader(hdr: seq<bool>, lit: seq<nat>, dst: seq<nat>) {
    forall rest: seq<bool> :: ReadTables(hdr + rest) == Some((lit, dst, rest))
  }

  lemma DynamicReadsBack(hdr: seq<bool>, ls: seq<nat>, nl: nat, ds: seq<nat>, nd: nat, ts: seq<Token>,
      final: bool, rest: seq<bool>, out: seq<Byte>)
    requires Trimmed(ls, nl) && Trimmed(ds, nd) && AllHaveCodes(ls, ds, ts) && 256 < |ls| && ls[256] > 0
    requires IsHeader(hdr, ls[..nl], ds[..nd])
    ensures ReadsBack([false, true] + hdr + (TokensBits(ls, ds, ts) + Codeword(ls, 256)), ts, final, rest, out)
  {
    var codes, eob := TokensBits(ls, ds, ts), Codeword(ls, 256);
    if Expandable(ts, out) {
      InflateBody(ls, nl, ds, nd, ts, rest, out);
      var tail := codes + (eob + rest);
      DynamicParts([false, true], hdr, codes, eob, rest);
      BlockBits(final, false, true, hdr + tail);
      assert ReadTables(hdr + tail) == Some((ls[..nl], ds[..nd], tail));
      DynamicBlock([final] + ([false, true] + (hdr + tail)), out, ls[..nl], ds[..nd], tail, rest, Expand(ts, out));
    }
  }

  // ----- the encoder's side

  /** Every token has codes when its symbols do. */
  lemma TokensHaveCodes(c0: seq<nat>, c1: seq<nat>, ls: seq<nat>, ds: seq<nat>, ts: seq<Token>)
    requires Counted(c0, c1, ts) && AllFit(ts) && |ls| == 288 && |ds| == 32
    requires forall s | 0 <= s < 288 && c0[s] > 0 :: ls[s] > 0
    requires forall s | 0 <= s < 32 && c1[s] > 0 :: ds[s] > 0
    ensures AllHaveCodes(ls, ds, ts)
  {
    forall i: nat | i < |ts| ensures HasCodes(ls, ds, ts[i]) {
      UsedCounted(ts, i);
      assert TokenFits(ts[i]);
    }
  }

  lemma FixedHasCodes(ts: seq<Token>)
    requires AllFit(ts)
    ensures AllHaveCodes(FixedLit(), FixedDist(), ts)
  {
    FixedLengths();
    forall i: nat | i < |ts| ensures HasCodes(FixedLit(), FixedDist(), ts[i]) { assert TokenFits(ts[i]); }
  }

  /** Good tables spell every code right. */
  lemma GoodReady(t0: Table, t1: Table)
    requires t0.Valid() && t1.Valid() && TableGood(t0, 288, 15) && TableGood(t1, 32, 15) && t0.count[256] > 0
    ensures Ready(t0, t1)
  {
    forall i: nat | i < 288 ensures t0.size[i] <= 15 && (t0.size[i] > 0 ==> Spelled(t0, 288, i)) {
      assert t0.size[..288][i] == t0.size[i];
      if t0.size[i] > 0 { GoodSpelled(t0, 288, 15, i); }
    }
    forall i: nat | i < 32 ensures t1.size[i] <= 15 && (t1.size[i] > 0 ==> Spelled(t1, 32, i)) {
      assert t1.size[..32][i] == t1.size[i];
      if t1.size[i] > 0 { GoodSpelled(t1, 32, 15, i); }
    }
    assert t0.count[..288][256] == t0.count[256] && t0.size[..288][256] == t0.size[256];
  }

  lemma GoodUses(t: Table, n: nat, s: nat)
    requires t.Valid() && n <= 288 && TableGood(t, n, 15) && s < n
    ensures t.size[s] > 0 <==> t.count[s] > 0
  {
    assert t.size[..n][s] == t.size[s] && t.count[..n][s] == t.count[s];
  }

  /** The tables a dynamic block is written with. */
  ghost predicate DynamicTables(t0: Table, t1: Table, ts: seq<Token>)
    requires t0.Valid() && t1.Valid()
    reads t0.count, t0.size, t0.code, t1.count, t1.size, t1.code
  {
    TableGood(t0, 288, 15) && TableGood(t1, 32, 15) && Ready(t0, t1) &&
    AllHaveCodes(t0.size[..288], t1.size[..32], ts) &&
    t0.size[286] == 0 && t0.size[287] == 0 && t1.size[30] == 0 && t1.size[31] == 0
  }

  lemma PowFifteen()
    ensures Pow2(15) == 32768
  {
    assert Pow2(5) == 32 && Pow2(10) == 32 * Pow2(5);
  }

  lemma TypeBits()
    ensures BitsOf(1, 2) == [true, false] && BitsOf(2, 2) == [false, true] && Pow2(2) == 4
  {
  }

  lemma AcceptedLengths(a: array<nat>, n: nat)
    requires n <= a.Length && Accepts(a[..n])
    ensures forall i | 0 <= i < n :: a[i] <= 15
  {
    forall i | 0 <= i < n ensures a[i] <= 15 { assert a[..n][i] == a[i]; }
  }

  /** Builds the tables from the counts. */
  method OptimizeTables(t0: Table, t1: Table, t2: Table, ghost ts: seq<Token>)
    requires Separate(t0, t1, t2) && Counted(t0.count[..], t1.count[..], ts) && AllFit(ts) && |ts| < 65535
    modifies t0.count, t0.size, t0.code, t1.size, t1.code
    ensures DynamicTables(t0, t1, ts)
    ensures t0.count[..] == old(t0.count[..])[256 := 1]
    ensures |Encoded(ts)| <= CODE_BUF_SIZE ==>
            TokensSize(t0.size[..288], t1.size[..32], ts) + t0.size[256] <= TOKEN_BITS
  {
    hide Encoded, TokensSize, Counted, AllFit, AllHaveCodes, Pow2, HuffmanTable.GoodTable, DynamicTables,
         TableCost.NearMinimal;
    ghost var c0, c1 := t0.count[..], t1.count[..];
    CountsSmall(c0, c1, ts);
    Unused(ts);
    t0.count[256] := 1;
    assert t0.count[..288] == c0[256 := 1] && t0.count[..] == c0[256 := 1];
    PowFifteen();
    HuffmanTable.OptimizeHuffmanTable(t0.count, t0.size, t0.code, 288, 15);
    HuffmanTable.OptimizeHuffmanTable(t1.count, t1.size, t1.code, 32, 15);
    TablesBuilt(t0, t1, c0, c1, ts);
    assert t1.count[..32] == c1[..32];
    if |Encoded(ts)| <= CODE_BUF_SIZE { TablesSmall(ts, c0, c1, t0.size[..288], t1.size[..32]); }
  }

  lemma TablesSmall(ts: seq<Token>, c0: seq<nat>, c1: seq<nat>, ls: seq<nat>, ds: seq<nat>)
    requires AllFit(ts) && |Encoded(ts)| <= CODE_BUF_SIZE && Counted(c0, c1, ts) && AllHaveCodes(ls, ds, ts) &&
             |ls| == 288 && |ds| == 32
    requires TableCost.NearMinimal(c0[256 := 1], ls) && TableCost.NearMinimal(c1[..32], ds)
    ensures TokensSize(ls, ds, ts) + ls[256] <= TOKEN_BITS
  {
    FixedHasCodes(ts);
    DynamicSize(ts, c0, c1, ls, ds);
  }

  lemma TablesBuilt(t0: Table, t1: Table, c0: seq<nat>, c1: seq<nat>, ts: seq<Token>)
    requires t0.Valid() && t1.Valid() && TableGood(t0, 288, 15) && TableGood(t1, 32, 15)
    requires Counted(c0, c1, ts) && AllFit(ts) && t0.count[..] == c0[256 := 1] && t1.count[..] == c1
    ensures DynamicTables(t0, t1, ts)
  {
    Unused(ts);
    forall s: nat | s < 288 ensures t0.size[s] > 0 <==> c0[256 := 1][s] > 0 { GoodUses(t0, 288, s); }
    forall s: nat | s < 32 ensures t1.size[s] > 0 <==> c1[s] > 0 { GoodUses(t1, 32, s); }
    GoodReady(t0, t1);
    TokensHaveCodes(c0, c1, t0.size[..288], t1.size[..32], ts);
  }

  lemma HeaderIsHeader(nl: nat, nd: nat, nb: nat, cs: seq<nat>, items: seq<RunLength.Item>, lit: seq<nat>,
      dst: seq<nat>)
    requires 257 <= nl <= 288 && 1 <= nd <= 32 && 4 <= nb <= 19 && |lit| == nl && |dst| == nd
    requires |cs| == 19 && Fits(cs) && Accepts(cs) && (forall i | 0 <= i < 19 :: cs[i] < 8)
    requires NoneFrom(cs, nb)
    requires ItemsCoded(cs, items) && RunLength.ItemsOk(items, []) && RunLength.Expansion(items, []) == lit + dst
    requires Accepts(lit) && Accepts(dst)
    ensures IsHeader(HeaderBits(nl, nd, nb, cs, items), lit, dst)
  {
    var hdr := HeaderBits(nl, nd, nb, cs, items);
    forall rest: seq<bool> ensures ReadTables(hdr + rest) == Some((lit, dst, rest)) {
      ReadTablesBack(nl, nd, nb, cs, items, lit, dst, rest);
    }
  }

  lemma CodeLengthTableFine(t2: Table)
    requires t2.Valid() && TableGood(t2, 19, 7)
    ensures Fits(t2.size[..19]) && Accepts(t2.size[..19]) && forall i | 0 <= i < 19 :: t2.size[..19][i] < 8
  {
  }

  /** The first n entries of a good table, trimmed after its last code, make an acceptable table. */
  lemma TrimmedTable(t: Table, n: nat, k: nat)
    requires t.Valid() && n <= 288 && TableGood(t, n, 15) && k <= n && forall i | k <= i < n :: t.size[i] == 0
    ensures Trimmed(t.size[..n], k) && Accepts(t.size[..n][..k]) && t.size[..n][..k] == t.size[..k]
  {
    AcceptsTrim(t.size[..n], k);
  }

  /** The numbers of literal and distance codes a decoder needs to be given. */
  method TrimTables(t0: Table, t1: Table, ghost ts: seq<Token>) returns (nl: nat, nd: nat)
    requires t0.Valid() && t1.Valid() && DynamicTables(t0, t1, ts)
    ensures 257 <= nl <= 286 && 1 <= nd <= 30
    ensures Trimmed(t0.size[..288], nl) && Accepts(t0.size[..nl]) && t0.size[..288][..nl] == t0.size[..nl]
    ensures Trimmed(t1.size[..32], nd) && Accepts(t1.size[..nd]) && t1.size[..32][..nd] == t1.size[..nd]
  {
    hide Accepts, Trimmed, HuffmanTable.GoodTable, Ready, AllHaveCodes;
    nl := LastUsed(t0.size, 286, 257);
    nd := LastUsed(t1.size, 30, 1);
    TrimmedTable(t0, 288, nl);
    TrimmedTable(t1, 32, nd);
  }

  /** Builds the tables of a dynamic block and writes its header. */
  method StartDynamicBlock(w: Writer, t0: Table, t1: Table, t2: Table, ghost ts: seq<Token>)
      returns (ghost hdr: seq<bool>, ghost nl: nat, ghost nd: nat)
    requires w.Valid() && Separate(t0, t1, t2) && Counted(t0.count[..], t1.count[..], ts) && AllFit(ts) && |ts| < 65535
    modifies w, w.buf, t0.count, t0.size, t0.code, t1.size, t1.code, t2.count, t2.size, t2.code
    ensures w.Valid() && w.Keeps(old(w.buf[..w.pos])) && DynamicTables(t0, t1, ts)
    ensures w.HasRoom() ==> w.Stream() == old(w.Stream()) + ([false, true] + hdr)
    ensures w.Size() <= old(w.Size()) + HEADER_BITS
    ensures Trimmed(t0.size[..288], nl) && Trimmed(t1.size[..32], nd)
    ensures IsHeader(hdr, t0.size[..288][..nl], t1.size[..32][..nd])
    ensures |Encoded(ts)| <= CODE_BUF_SIZE ==>
            TokensSize(t0.size[..288], t1.size[..32], ts) + t0.size[256] <= TOKEN_BITS
  {
    hide IsHeader, Encoded, AllFit, Counted, Accepts, TokensSize, DynamicTables, Trimmed, Writer.Stream;
    OptimizeTables(t0, t1, t2, ts);
    var numLit, numDist := TrimTables(t0, t1, ts);
    nl, nd := numLit, numDist;
    hdr := WriteTables(w, t0, t1, t2, numLit, numDist);
  }

  /** Packs the tables and writes them. */
  method WriteTables(w: Writer, t0: Table, t1: Table, t2: Table, nl: nat, nd: nat) returns (ghost hdr: seq<bool>)
    requires w.Valid() && Separate(t0, t1, t2) && 257 <= nl <= 286 && 1 <= nd <= 30
    requires Accepts(t0.size[..nl]) && Accepts(t1.size[..nd])
    modifies w, w.buf, t2.count, t2.size, t2.code
    ensures w.Valid() && w.Keeps(old(w.buf[..w.pos]))
    ensures w.HasRoom() ==> w.Stream() == old(w.Stream()) + ([false, true] + hdr)
    ensures w.Size() <= old(w.Size()) + HEADER_BITS
    ensures IsHeader(hdr, t0.size[..nl], t1.size[..nd])
  {
    hide Codeword, BytesBits, BitsOf, Writer.Stream, IsHeader, Accepts, TableGood, NoneFrom, ItemsCoded,
         RunLength.ItemsOk, RunLength.Expansion, RunLength.Layout, HeaderBits;
    ghost var lit, dst := t0.size[..nl], t1.size[..nd];
    AcceptedLengths(t0.size, nl);
    AcceptedLengths(t1.size, nd);
    var packed, num;
    ghost var items;
    packed, num, items := CodeLengthTable(t0, t1, t2, nl, nd);
    var nb := NumBitLengths(t2);
    hdr := DynamicHeader(t2, nl, nd, nb, items, lit, dst);
    PutHeader(w, t2, nl, nd, nb, packed, num, items);
  }

  lemma DynamicHeader(t2: Table, nl: nat, nd: nat, nb: nat, items: seq<RunLength.Item>, lit: seq<nat>, dst: seq<nat>)
      returns (hdr: seq<bool>)
    requires 257 <= nl <= 286 && 1 <= nd <= 30 && 4 <= nb <= 19 && |lit| == nl && |dst| == nd
    requires t2.Valid() && TableGood(t2, 19, 7) && NoneFrom(t2.size[..19], nb)
    requires ItemsCoded(t2.size[..19], items) && RunLength.ItemsOk(items, []) &&
             RunLength.Expansion(items, []) == lit + dst
    requires Accepts(lit) && Accepts(dst)
    ensures hdr == HeaderBits(nl, nd, nb, t2.size[..19], items) && IsHeader(hdr, lit, dst) &&
            BitsOf(2, 2) == [false, true]
  {
    CodeLengthTableFine(t2);
    hdr := HeaderBits(nl, nd, nb, t2.size[..19], items);
    HeaderIsHeader(nl, nd, nb, t2.size[..19], items, lit, dst);
  }

  // ----- fixed blocks

  /** Sets the fixed code lengths. */
  method SetFixedSizes(t0: Table, t1: Table)
    requires t0.Valid() && t1.Valid() && t0.size != t1.size
    modifies t0.size, t1.size
    ensures t0.size[..288] == FixedLit() && t1.size[..32] == FixedDist()
  {
    forall i | 0 <= i < 288 { t0.size[i] := if i <= 143 then 8 else if i <= 255 then 9 else if i <= 279 then 7 else 8; }
    forall i | 0 <= i < 32 { t1.size[i] := 5; }
    assert t0.size[..288] == FixedLit();
    assert t1.size[..32] == FixedDist();
  }

  /** The canonical codes of a table whose lengths are given. */
  method StaticTable(t: Table, n: nat)
    requires t.Valid() && n <= 288 && forall i | 0 <= i < n :: t.size[i] <= 15
    modifies t.code
    ensures forall i | 0 <= i < n && t.size[i] > 0 :: Spelled(t, n, i)
  {
    var nc := HuffmanTable.CountLengths(t.size, n);
    HuffmanTable.AssignCodes(nc, t.size, t.code, n, 15);
    forall i: nat | i < n && t.size[i] > 0 ensures Spelled(t, n, i) {
      assert HuffmanTable.IsCode(t.size[..n], t.code[..n], i);
    }
  }

  /** Sets up the fixed codes. */
  method FixedTables(t0: Table, t1: Table)
    requires t0.Valid() && t1.Valid() && t0.Arrays() !! t1.Arrays()
    modifies t0.size, t0.code, t1.size, t1.code
    ensures t0.size[..288] == FixedLit() && t1.size[..32] == FixedDist() && Ready(t0, t1)
  {
    SetFixedSizes(t0, t1);
    FixedSizes(t0, t1);
    StaticTable(t0, 288);
    StaticTable(t1, 32);
  }

  /** Sets up the fixed codes and writes the block type. */
  method StartStaticBlock(w: Writer, t0: Table, t1: Table, t2: Table)
    requires w.Valid() && Separate(t0, t1, t2)
    modifies w, w.buf, t0.size, t0.code, t1.size, t1.code
    ensures w.Valid() && w.Keeps(old(w.buf[..w.pos]))
    ensures w.HasRoom() ==> w.Stream() == old(w.Stream()) + [true, false]
    ensures w.Size() <= old(w.Size()) + 2
    ensures t0.size[..288] == FixedLit() && t1.size[..32] == FixedDist() && Ready(t0, t1)
  {
    hide Codeword, BitsOf, BytesBits, Writer.Stream, TableGood, IsBlock, IsHeader, TokensBits, Encoded, AllFit, Fits,
         Accepts;
    FixedTables(t0, t1);
    TypeBits();
    w.PutBits(1, 2);
  }

  lemma FixedSizes(t0: Table, t1: Table)
    requires t0.Valid() && t1.Valid() && t0.size[..288] == FixedLit() && t1.size[..32] == FixedDist()
    ensures (forall i | 0 <= i < 288 :: 7 <= t0.size[i] <= 9) && forall i | 0 <= i < 32 :: t1.size[i] == 5
  {
    FixedLengths();
    forall i | 0 <= i < 288 ensures 7 <= t0.size[i] <= 9 { assert t0.size[i] == t0.size[..288][i]; }
    forall i | 0 <= i < 32 ensures t1.size[i] == 5 { assert t1.size[i] == t1.size[..32][i]; }
  }

  // ----- any block

  lemma BlockJoin(s: seq<bool>, t: seq<bool>, a: seq<bool>)
    ensures (s + t) + a == s + (t + a)
  {
  }

  method CompressStatic(w: Writer, t0: Table, t1: Table, t2: Table, codeBuf: array<Byte>, end: nat,
      ghost ts: seq<Token>)
      returns (ok: bool, ghost body: seq<bool>)
    requires w.Valid() && Separate(t0, t1, t2) && AllFit(ts)
    requires codeBuf != w.buf && end <= codeBuf.Length && codeBuf[..end] == Encoded(ts)
    modifies w, w.buf, t0.size, t0.code, t1.size, t1.code
    ensures w.Valid() && w.Keeps(old(w.buf[..w.pos])) && ok == w.HasRoom()
    ensures IsBlock(body, ts) && (w.HasRoom() ==> w.Stream() == old(w.Stream()) + body)
    ensures end <= CODE_BUF_SIZE ==> w.Size() <= old(w.Size()) + BLOCK_BITS
  {
    hide Codeword, BytesBits, Writer.Stream, IsBlock, IsHeader, TokensBits, TokensSize, Encoded, AllFit, FixedLit,
         FixedDist, Counted, Ready, AllHaveCodes, Expandable;
    ghost var s, b0 := w.Stream(), w.buf[..w.pos];
    body := StaticBody(ts);
    BlockJoin(s, [true, false], TokensBits(FixedLit(), FixedDist(), ts) + Codeword(FixedLit(), 256));
    StartStaticBlock(w, t0, t1, t2);
    ghost var b1 := w.buf[..w.pos];
    if |Encoded(ts)| <= CODE_BUF_SIZE { StaticSize(ts, t0.size[..288], t1.size[..32]); }
    ok := CompressLzCodes(w, t0, t1, codeBuf, end, ts);
    PrefixTrans(b0, b1, w.buf[..w.pos]);
  }

  method CompressDynamic(w: Writer, t0: Table, t1: Table, t2: Table, codeBuf: array<Byte>, end: nat,
      ghost ts: seq<Token>)
      returns (ok: bool, ghost body: seq<bool>)
    requires w.Valid() && Separate(t0, t1, t2) && AllFit(ts) && |ts| < 65535
    requires Counted(t0.count[..], t1.count[..], ts)
    requires codeBuf != w.buf && end <= codeBuf.Length && codeBuf[..end] == Encoded(ts)
    modifies w, w.buf, t0.count, t0.size, t0.code, t1.size, t1.code, t2.count, t2.size, t2.code
    ensures w.Valid() && w.Keeps(old(w.buf[..w.pos])) && ok == w.HasRoom()
    ensures IsBlock(body, ts) && (w.HasRoom() ==> w.Stream() == old(w.Stream()) + body)
    ensures end <= CODE_BUF_SIZE ==> w.Size() <= old(w.Size()) + BLOCK_BITS
  {
    hide Codeword, BytesBits, Writer.Stream, IsBlock, IsHeader, TokensBits, TokensSize, Encoded, AllFit, Counted,
         AllHaveCodes, Trimmed, TableGood, Spelled;
    ghost var s, b0 := w.Stream(), w.buf[..w.pos];
    ghost var hdr, nl, nd;
    hdr, nl, nd := StartDynamicBlock(w, t0, t1, t2, ts);
    ghost var b1, ls, ds := w.buf[..w.pos], t0.size[..288], t1.size[..32];
    body := DynamicBody(hdr, ls, nl, ds, nd, ts);
    BlockJoin(s, [false, true] + hdr, TokensBits(ls, ds, ts) + Codeword(ls, 256));
    ok := CompressLzCodes(w, t0, t1, codeBuf, end, ts);
    PrefixTrans(b0, b1, w.buf[..w.pos]);
  }

  /** Encodes the tokens as a block under fixed or dynamic codes; false when the output is full. */
  method CompressBlock(w: Writer, t0: Table, t1: Table, t2: Table, codeBuf: array<Byte>, end: nat, staticBlock: bool,
      ghost ts: seq<Token>) returns (ok: bool, ghost body: seq<bool>)
    requires w.Valid() && Separate(t0, t1, t2) && AllFit(ts) && |ts| < 65535
    requires !staticBlock ==> Counted(t0.count[..], t1.count[..], ts)
    requires codeBuf != w.buf && end <= codeBuf.Length && codeBuf[..end] == Encoded(ts)
    modifies w, w.buf, t0.count, t0.size, t0.code, t1.size, t1.code, t2.count, t2.size, t2.code
    ensures w.Valid() && w.Keeps(old(w.buf[..w.pos])) && ok == w.HasRoom()
    ensures IsBlock(body, ts) && (w.HasRoom() ==> w.Stream() == old(w.Stream()) + body)
    ensures end <= CODE_BUF_SIZE ==> w.Size() <= old(w.Size()) + BLOCK_BITS
  {
    if staticBlock {
      ok, body := CompressStatic(w, t0, t1, t2, codeBuf, end, ts);
    } else {
      ok, body := CompressDynamic(w, t0, t1, t2, codeBuf, end, ts);
    }
  }

  lemma StaticBody(ts: seq<Token>) returns (body: seq<bool>)
    requires AllFit(ts)
    ensures AllHaveCodes(FixedLit(), FixedDist(), ts) && FixedLit()[256] > 0 && IsBlock(body, ts)
    ensures body == [true, false] + (TokensBits(FixedLit(), FixedDist(), ts) + Codeword(FixedLit(), 256))
  {
    FixedHasCodes(ts);
    FixedLengths();
    FixedComplete();
    body := [true, false] + (TokensBits(FixedLit(), FixedDist(), ts) + Codeword(FixedLit(), 256));
    forall final: bool, rest: seq<bool>, out: seq<Byte> ensures ReadsBack(body, ts, final, rest, out) {
      FixedReadsBack(FixedLit(), FixedDist(), ts, final, rest, out);
    }
  }

  lemma DynamicBody(hdr: seq<bool>, ls: seq<nat>, nl: nat, ds: seq<nat>, nd: nat, ts: seq<Token>)
      returns (body: seq<bool>)
    requires Trimmed(ls, nl) && Trimmed(ds, nd) && AllHaveCodes(ls, ds, ts) && 256 < |ls| && ls[256] > 0
    requires IsHeader(hdr, ls[..nl], ds[..nd])
    ensures body == [false, true] + hdr + (TokensBits(ls, ds, ts) + Codeword(ls, 256)) && IsBlock(body, ts)
  {
    body := [false, true] + hdr + (TokensBits(ls, ds, ts) + Codeword(ls, 256));
    forall final: bool, rest: seq<bool>, out: seq<Byte> ensures ReadsBack(body, ts, final, rest, out) {
      DynamicReadsBack(hdr, ls, nl, ds, nd, ts, final, rest, out);
    }
  }
}
