/**
 * Block headers and Huffman coded blocks (miniz tdefl_start_dynamic_block, tdefl_start_static_block,
 * tdefl_compress_block).
 */
module BlockEncoder {
  import opened Bits
  import opened Canonical
  import opened Deflate
  import opened Entropy
  import opened BitWriter
  import opened RunLength
  import opened BlockHeader
  import opened LzCodes
  import HuffmanTable
  import HuffmanTree

  /** The first n entries are a good table for the counts; nothing beyond has a code. */
  ghost predicate TableGood(t: Table, n: nat, limit: nat)
    requires t.Valid() && n <= 288
    reads t.count, t.size, t.code
  {
    HuffmanTable.GoodTable(t.count[..n], t.size[..n], t.code[..n], limit) &&
    forall i | n <= i < 288 :: t.size[i] == 0
  }

  ghost predicate Separate(t0: Table, t1: Table, t2: Table)
  {
    t0.Valid() && t1.Valid() && t2.Valid() &&
    t0.Arrays() !! t1.Arrays() !! t2.Arrays()
  }

  /** Where the last used symbol is: the loops that trim the tables. */
  method LastUsed(size: array<nat>, high: nat, low: nat) returns (n: nat)
    requires low <= high <= size.Length
    ensures low <= n <= high && forall i | n <= i < high :: size[i] == 0
  {
    n := high;
    while n > low
      invariant low <= n <= high && forall i | n <= i < high :: size[i] == 0
    {
      if size[n - 1] != 0 { break; }
      n := n - 1;
    }
  }

  lemma {:induction false} SumBound(s: seq<nat>, m: nat)
    requires forall i | 0 <= i < |s| :: s[i] <= m
    ensures HuffmanTree.Sum(s) <= |s| * m
  {
    if s != [] { SumBound(s[1..], m); }
  }

  /** Every packed symbol is counted, and the counts are small. */
  lemma {:induction false} OccursCounted(items: seq<Item>, i: nat)
    requires i < |items|
    ensures Occurrences(items, items[i].sym) > 0
  {
    var n := |items| - 1;
    if i < n { OccursCounted(items[..n], i); }
  }

  lemma {:induction false} ItemsInRange(items: seq<Item>, acc: seq<nat>)
    requires ItemsOk(items, acc)
    ensures forall i | 0 <= i < |items| :: ItemOk(items[i])
  {
    if items != [] { ItemsInRange(items[1..], acc + RunOf(items[0], acc)); }
  }

  /** Packs the two tables' lengths. */
  method PackLengths(t0: Table, t1: Table, t2: Table, nl: nat, nd: nat)
      returns (packed: array<nat>, num: nat, ghost items: seq<Item>)
    requires Separate(t0, t1, t2) && nl <= 288 && nd <= 32
    requires (forall i | 0 <= i < nl :: t0.size[i] <= 15) && (forall i | 0 <= i < nd :: t1.size[i] <= 15)
    modifies t2.count
    ensures fresh(packed) && num <= packed.Length == 320 &&
            Packed(items, t0.size[..nl] + t1.size[..nd], packed[..num], t2.count[..])
  {
    var codeSizes := new nat[320](_ => 0);
    packed := new nat[320](_ => 0);
    forall i | 0 <= i < nl { codeSizes[i] := t0.size[i]; }
    forall i | 0 <= i < nd { codeSizes[nl + i] := t1.size[i]; }
    assert codeSizes[..nl + nd] == t0.size[..nl] + t1.size[..nd];
    forall i | 0 <= i < 19 { t2.count[i] := 0; }
    num, items := PackCodeSizes(codeSizes, nl + nd, t2.count, packed);
  }

  /** Packs the two tables' lengths and builds the code for the packed symbols. */
  method CodeLengthTable(t0: Table, t1: Table, t2: Table, nl: nat, nd: nat)
      returns (packed: array<nat>, num: nat, ghost items: seq<Item>)
    requires Separate(t0, t1, t2) && nl <= 288 && nd <= 32
    requires (forall i | 0 <= i < nl :: t0.size[i] <= 15) && (forall i | 0 <= i < nd :: t1.size[i] <= 15)
    modifies t2.count, t2.size, t2.code
    ensures fresh(packed) && num <= packed.Length == 320 && packed[..num] == Layout(items)
    ensures ItemsOk(items, []) && (forall i | 0 <= i < |items| :: ItemOk(items[i]))
    ensures Expansion(items, []) == t0.size[..nl] + t1.size[..nd]
    ensures TableGood(t2, 19, 7) && ItemsCoded(t2.size[..19], items)
  {
    packed, num, items := PackLengths(t0, t1, t2, nl, nd);
    PackedCounts(items, t0.size[..nl] + t1.size[..nd], packed[..num], t2.count[..]);
    assert t2.count[..][..19] == t2.count[..19];
    assert Pow2(7) == 128;
    HuffmanTable.OptimizeHuffmanTable(t2.count, t2.size, t2.code, 19, 7);
  }

  lemma PackedCounts(items: seq<Item>, out: seq<nat>, bytes: seq<nat>, counts: seq<nat>)
    requires Packed(items, out, bytes, counts) && |out| <= 320
    ensures HuffmanTree.Sum(counts[..19]) < 65536
    ensures forall i | 0 <= i < |items| :: ItemOk(items[i]) && counts[items[i].sym] > 0
  {
    SumBound(counts[..19], 320);
    ItemsInRange(items, []);
    forall i: nat | i < |items| ensures counts[items[i].sym] > 0 { OccursCounted(items, i); }
  }

  // ----- writing the header

  lemma StepLeft(s: seq<bool>, a: seq<bool>, b: seq<bool>, done: seq<bool>, all: seq<bool>)
    requires done + (a + b) == all && s == done + a
    ensures s + b == all
  {
  }

  /** The lengths of the code length code, three bits each. */
  method PutClens(w: Writer, t2: Table, nb: nat)
    requires w.Valid() && t2.Valid() && nb <= 19 && forall i | 0 <= i < 19 :: t2.size[i] < 8
    modifies w, w.buf
    ensures w.Valid() && w.Keeps(old(w.buf[..w.pos]))
    ensures w.HasRoom() ==> w.Stream() == old(w.Stream()) + ClenBits(t2.size[..19], 0, nb)
    ensures w.Size() <= old(w.Size()) + 3 * nb
  {
    ghost var cs, all, b0 := t2.size[..19], w.Stream() + ClenBits(t2.size[..19], 0, nb), w.buf[..w.pos];
    for i := 0 to nb
      invariant w.Valid() && w.Keeps(b0)
      invariant w.HasRoom() ==> w.Stream() + ClenBits(cs, i, nb) == all
      invariant w.Size() <= old(w.Size()) + 3 * i
    {
      OrderDistinct(i, (i + 1) % 19);
      ghost var done, b1 := w.Stream(), w.buf[..w.pos];
      var v := t2.size[CLEN_ORDER[i]];
      assert Pow2(3) == 8;
      w.PutBits(v, 3);
      if w.HasRoom() { StepLeft(w.Stream(), BitsOf(v, 3), ClenBits(cs, i + 1, nb), done, all); }
      PrefixTrans(b0, b1, w.buf[..w.pos]);
    }
    assert w.Stream() + [] == w.Stream();
  }

  /** One packed symbol with its extra bits; returns the position after it. */
  method PutItem(w: Writer, t2: Table, packed: array<nat>, p: nat, num: nat, ghost it: Item, ghost rest: seq<Item>)
      returns (p': nat)
    requires w.Valid() && t2.Valid() && p <= num <= packed.Length && packed[p..num] == Layout([it] + rest)
    requires ItemOk(it) && t2.size[it.sym] <= 7 && CodeSpelled(t2, it.sym)
    modifies w, w.buf
    ensures w.Valid() && w.Keeps(old(w.buf[..w.pos])) && p <= p' <= num && packed[p'..num] == Layout(rest)
    ensures w.HasRoom() ==> w.Stream() == old(w.Stream()) + ItemBits(t2.size[..19], it)
    ensures w.Size() <= old(w.Size()) + 7 * (p' - p)
  {
    ghost var s, b0, one := w.Stream(), w.buf[..w.pos], LayoutOne(it);
    assert ([it] + rest)[1..] == rest;
    assert packed[p..num] == one + Layout(rest);
    assert packed[p] == one[0] && packed[p + |one|..num] == Layout(rest);
    var code := packed[p];
    p' := p + 1;
    w.PutBits(t2.code[code], t2.size[code]);
    if code >= 16 {
      ghost var b1 := w.buf[..w.pos];
      assert packed[p + 1] == one[1];
      w.PutBits(packed[p'], ExtraBits(code));
      p' := p' + 1;
      PrefixTrans(b0, b1, w.buf[..w.pos]);
      ConcatAssoc(s, Codeword(t2.size[..19], code), BitsOf(it.extra, ExtraBits(code)));
    } else {
      assert Codeword(t2.size[..19], code) + BitsOf(it.extra, 0) == Codeword(t2.size[..19], code);
    }
  }

  /** The code stored for a code length symbol writes its codeword. */
  ghost predicate CodeSpelled(t2: Table, i: nat)
    requires t2.Valid()
    reads t2.size, t2.code
  {
    i < 19 && t2.size[i] > 0 && t2.code[i] < Pow2(t2.size[i]) &&
    BitsOf(t2.code[i], t2.size[i]) == Codeword(t2.size[..19], i)
  }

  lemma GoodSpelled(t: Table, n: nat, limit: nat, i: nat)
    requires t.Valid() && n <= 288 && TableGood(t, n, limit) && i < n && t.size[i] > 0
    ensures t.size[i] <= limit && t.code[i] < Pow2(t.size[i])
    ensures BitsOf(t.code[i], t.size[i]) == Codeword(t.size[..n], i)
  {
    assert HuffmanTable.IsCode(t.size[..n], t.code[..n], i);
  }

  lemma LayoutEmpty(items: seq<Item>)
    ensures Layout(items) == [] <==> items == []
  {
  }

  lemma FirstItem(cs: seq<nat>, items: seq<Item>, k: nat)
    requires k < |items| && ItemsCoded(cs, items)
    ensures items[k..] == [items[k]] + items[k + 1..]
    ensures ItemsBits(cs, items[k..]) == ItemBits(cs, items[k]) + ItemsBits(cs, items[k + 1..])
  {
    assert items[k..][1..] == items[k + 1..];
  }

  /** All items but those from k on have been written, taking up the packed bytes before p. */
  ghost predicate ItemsWritten(w: Writer, all: seq<bool>, size: nat, cs: seq<nat>, items: seq<Item>, k: nat, p: nat)
    reads w, w.buf
  {
    w.Valid() && k <= |items| && ItemsCoded(cs, items) && w.Size() <= size + 7 * p &&
    (w.HasRoom() ==> w.Stream() + ItemsBits(cs, items[k..]) == all)
  }

  /** One more. */
  method PutNextItem(w: Writer, t2: Table, packed: array<nat>, p: nat, num: nat, ghost items: seq<Item>, ghost k: nat,
      ghost all: seq<bool>, ghost size: nat) returns (p': nat)
    requires t2.Valid() && p <= num <= packed.Length && k < |items| && packed[p..num] == Layout(items[k..])
    requires TableGood(t2, 19, 7) && ItemOk(items[k]) && ItemsWritten(w, all, size, t2.size[..19], items, k, p)
    modifies w, w.buf
    ensures w.Keeps(old(w.buf[..w.pos])) && p <= p' <= num && packed[p'..num] == Layout(items[k + 1..])
    ensures ItemsWritten(w, all, size, t2.size[..19], items, k + 1, p')
  {
    ghost var cs, it, rest, done := t2.size[..19], items[k], items[k + 1..], w.Stream();
    FirstItem(cs, items, k);
    assert cs[it.sym] == t2.size[it.sym];
    GoodSpelled(t2, 19, 7, it.sym);
    p' := PutItem(w, t2, packed, p, num, it, rest);
    if w.HasRoom() { StepLeft(w.Stream(), ItemBits(cs, it), ItemsBits(cs, rest), done, all); }
  }

  /** The packed lengths of both tables. */
  method PutItems(w: Writer, t2: Table, packed: array<nat>, num: nat, ghost items: seq<Item>)
    requires w.Valid() && t2.Valid() && num <= packed.Length && packed[..num] == Layout(items)
    requires TableGood(t2, 19, 7) && ItemsCoded(t2.size[..19], items) && forall i | 0 <= i < |items| :: ItemOk(items[i])
    modifies w, w.buf
    ensures w.Valid() && w.Keeps(old(w.buf[..w.pos]))
    ensures w.HasRoom() ==> w.Stream() == old(w.Stream()) + ItemsBits(t2.size[..19], items)
    ensures w.Size() <= old(w.Size()) + 7 * num
  {
    ghost var cs, all := t2.size[..19], w.Stream() + ItemsBits(t2.size[..19], items);
    ghost var size, b0 := w.Size(), w.buf[..w.pos];
    ghost var k := 0;
    var p := 0;
    LayoutEmpty(items);
    while p < num
      invariant p <= num && k <= |items| && packed[p..num] == Layout(items[k..])
      invariant p < num ==> k < |items|
      invariant ItemsWritten(w, all, size, cs, items, k, p) && w.Keeps(b0)
      decreases |items| - k
    {
      ghost var b1 := w.buf[..w.pos];
      p := PutNextItem(w, t2, packed, p, num, items, k, all, size);
      PrefixTrans(b0, b1, w.buf[..w.pos]);
      LayoutEmpty(items[k + 1..]);
      k := k + 1;
    }
    LayoutEmpty(items[k..]);
    assert w.Stream() + [] == w.Stream();
  }

  /** Where the code length code's lengths end: at least four are always written. */
  method NumBitLengths(t2: Table) returns (nb: nat)
    requires t2.Valid()
    ensures 4 <= nb <= 19 && NoneFrom(t2.size[..19], nb)
  {
    var n := 18;
    while n >= 0
      invariant -1 <= n <= 18 && forall j | n < j < 19 :: t2.size[..19][CLEN_ORDER[j]] == 0
    {
      OrderDistinct(n, (n + 1) % 19);
      if t2.size[CLEN_ORDER[n]] != 0 { break; }
      n := n - 1;
    }
    nb := if n + 1 > 4 then n + 1 else 4;
  }

  lemma HeaderParts(s: seq<bool>, t: seq<bool>, a: seq<bool>, b: seq<bool>, c: seq<bool>, d: seq<bool>, e: seq<bool>)
    ensures s + t + a + b + c + d + e == s + (t + (a + (b + (c + (d + e)))))
  {
  }

  /** The three sizes in front of the code lengths. */
  method PutSizes(w: Writer, nl: nat, nd: nat, nb: nat)
    requires w.Valid() && 257 <= nl <= 286 && 1 <= nd <= 30 && 4 <= nb <= 19
    modifies w, w.buf
    ensures w.Valid() && w.Keeps(old(w.buf[..w.pos]))
    ensures w.HasRoom() ==>
              w.Stream() == old(w.Stream()) + BitsOf(2, 2) + BitsOf(nl - 257, 5) + BitsOf(nd - 1, 5) + BitsOf(nb - 4, 4)
    ensures w.Size() <= old(w.Size()) + 16
  {
    hide BitsOf, BytesBits, Writer.Stream;
    assert Pow2(2) == 4 && Pow2(5) == 32 && Pow2(4) == 16;
    ghost var b0 := w.buf[..w.pos];
    w.PutBits(2, 2);
    ghost var b1 := w.buf[..w.pos];
    w.PutBits(nl - 257, 5);
    ghost var b2 := w.buf[..w.pos];
    PrefixTrans(b0, b1, b2);
    w.PutBits(nd - 1, 5);
    ghost var b3 := w.buf[..w.pos];
    PrefixTrans(b0, b2, b3);
    w.PutBits(nb - 4, 4);
    PrefixTrans(b0, b3, w.buf[..w.pos]);
  }

  /** Block type, sizes, code length code and packed lengths. */
  method PutHeader(w: Writer, t2: Table, nl: nat, nd: nat, nb: nat, packed: array<nat>, num: nat,
      ghost items: seq<Item>)
    requires w.Valid() && t2.Valid() && 257 <= nl <= 286 && 1 <= nd <= 30 && 4 <= nb <= 19
    requires num <= packed.Length && packed[..num] == Layout(items) && TableGood(t2, 19, 7)
    requires ItemsCoded(t2.size[..19], items) && forall i | 0 <= i < |items| :: ItemOk(items[i])
    modifies w, w.buf
    ensures w.Valid() && w.Keeps(old(w.buf[..w.pos]))
    ensures w.HasRoom() ==>
              w.Stream() == old(w.Stream()) + (BitsOf(2, 2) + HeaderBits(nl, nd, nb, t2.size[..19], items))
    ensures w.Size() <= old(w.Size()) + 16 + 3 * nb + 7 * num
  {
    hide BitsOf, BytesBits, Writer.Stream, TableGood, ItemsCoded, ItemOk, Layout, ClenBits, ItemsBits;
    ghost var s, cs, b0 := w.Stream(), t2.size[..19], w.buf[..w.pos];
    SizesBelowEight(t2);
    PutSizes(w, nl, nd, nb);
    ghost var b1 := w.buf[..w.pos];
    PutClens(w, t2, nb);
    ghost var b2 := w.buf[..w.pos];
    PrefixTrans(b0, b1, b2);
    PutItems(w, t2, packed, num, items);
    PrefixTrans(b0, b2, w.buf[..w.pos]);
    HeaderParts(s, BitsOf(2, 2), BitsOf(nl - 257, 5), BitsOf(nd - 1, 5), BitsOf(nb - 4, 4), ClenBits(cs, 0, nb),
      ItemsBits(cs, items));
  }

  lemma SizesBelowEight(t2: Table)
    requires t2.Valid() && TableGood(t2, 19, 7)
    ensures forall i | 0 <= i < 19 :: t2.size[i] < 8
  {
    assert forall i | 0 <= i < 19 :: t2.size[..19][i] <= 7;
  }
}
