/** The header of a dynamic block, section 3.2.7 of RFC 1951 (miniz tdefl_start_dynamic_block). */
module BlockHeader {
  import opened Bits
  import opened Canonical
  import opened Deflate
  import opened Entropy
  import opened RunLength

  // ----- the header's bits

  /** The lengths of the code length code, from place k of their order up to place n. */
  ghost function ClenBits(cs: seq<nat>, k: nat, n: nat): seq<bool>
    requires k <= n <= 19 && |cs| == 19
    decreases n - k
  {
    if k == n then [] else BitsOf(cs[CLEN_ORDER[k]], 3) + ClenBits(cs, k + 1, n)
  }

  ghost predicate ItemsCoded(cs: seq<nat>, items: seq<Item>) {
    forall i | 0 <= i < |items| :: items[i].sym < |cs| && cs[items[i].sym] > 0
  }

  ghost function ItemBits(cs: seq<nat>, it: Item): seq<bool>
    requires it.sym < |cs| && cs[it.sym] > 0
  {
    Codeword(cs, it.sym) + BitsOf(it.extra, ExtraBits(it.sym))
  }

  ghost function ItemsBits(cs: seq<nat>, items: seq<Item>): seq<bool>
    requires ItemsCoded(cs, items)
  {
    if items == [] then [] else ItemBits(cs, items[0]) + ItemsBits(cs, items[1..])
  }

  ghost function HeaderBits(nl: nat, nd: nat, nb: nat, cs: seq<nat>, items: seq<Item>): seq<bool>
    requires nl >= 257 && nd >= 1 && 4 <= nb <= 19 && |cs| == 19 && ItemsCoded(cs, items)
  {
    BitsOf(nl - 257, 5) + (BitsOf(nd - 1, 5) + (BitsOf(nb - 4, 4) + (ClenBits(cs, 0, nb) + ItemsBits(cs, items))))
  }

  /** From place n of their order on, the lengths are zero. */
  ghost predicate NoneFrom(cs: seq<nat>, n: nat) {
    |cs| == 19 && n <= 19 && forall j | n <= j < 19 :: cs[CLEN_ORDER[j]] == 0
  }

  // ----- reading it back

  /** acc holds the lengths read so far. */
  ghost predicate ClensRead(cs: seq<nat>, k: nat, acc: seq<nat>) {
    |cs| == 19 && |acc| == 19 && k <= 19 &&
    (forall j | 0 <= j < k :: acc[CLEN_ORDER[j]] == cs[CLEN_ORDER[j]]) &&
    (forall j | k <= j < 19 :: acc[CLEN_ORDER[j]] == 0)
  }

  lemma OrderDistinct(i: nat, j: nat)
    requires i < 19 && j < 19 && i != j
    ensures CLEN_ORDER[i] != CLEN_ORDER[j] && CLEN_ORDER[i] < 19
  {
  }

  lemma OrderComplete(acc: seq<nat>, cs: seq<nat>)
    requires |acc| == |cs| == 19 && forall j | 0 <= j < 19 :: acc[CLEN_ORDER[j]] == cs[CLEN_ORDER[j]]
    ensures acc == cs
  {
    assert acc[CLEN_ORDER[0]] == cs[CLEN_ORDER[0]] && acc[CLEN_ORDER[1]] == cs[CLEN_ORDER[1]];
    assert acc[CLEN_ORDER[2]] == cs[CLEN_ORDER[2]] && acc[CLEN_ORDER[3]] == cs[CLEN_ORDER[3]];
    assert acc[CLEN_ORDER[4]] == cs[CLEN_ORDER[4]] && acc[CLEN_ORDER[5]] == cs[CLEN_ORDER[5]];
    assert acc[CLEN_ORDER[6]] == cs[CLEN_ORDER[6]] && acc[CLEN_ORDER[7]] == cs[CLEN_ORDER[7]];
    assert acc[CLEN_ORDER[8]] == cs[CLEN_ORDER[8]] && acc[CLEN_ORDER[9]] == cs[CLEN_ORDER[9]];
    assert acc[CLEN_ORDER[10]] == cs[CLEN_ORDER[10]] && acc[CLEN_ORDER[11]] == cs[CLEN_ORDER[11]];
    assert acc[CLEN_ORDER[12]] == cs[CLEN_ORDER[12]] && acc[CLEN_ORDER[13]] == cs[CLEN_ORDER[13]];
    assert acc[CLEN_ORDER[14]] == cs[CLEN_ORDER[14]] && acc[CLEN_ORDER[15]] == cs[CLEN_ORDER[15]];
    assert acc[CLEN_ORDER[16]] == cs[CLEN_ORDER[16]] && acc[CLEN_ORDER[17]] == cs[CLEN_ORDER[17]];
    assert acc[CLEN_ORDER[18]] == cs[CLEN_ORDER[18]];
  }

  lemma ClensReadStep(cs: seq<nat>, k: nat, acc: seq<nat>)
    requires k < 19 && ClensRead(cs, k, acc)
    ensures CLEN_ORDER[k] < 19 && ClensRead(cs, k + 1, acc[CLEN_ORDER[k] := cs[CLEN_ORDER[k]]])
  {
    forall j: nat | j < 19 && j != k ensures CLEN_ORDER[k] != CLEN_ORDER[j] { OrderDistinct(k, j); }
  }

  lemma ReadValueBack(v: nat, n: nat, rest: seq<bool>)
    requires v < Pow2(n)
    ensures ReadBits(BitsOf(v, n) + rest, n) == Some((v, rest))
  {
    ReadBitsBack(v, n, rest);
    ValueOfBitsOf(v, n);
  }

  lemma {:induction false} ReadClensBack(cs: seq<nat>, k: nat, n: nat, acc: seq<nat>, rest: seq<bool>)
    requires k <= n <= 19 && ClensRead(cs, k, acc) && forall i | 0 <= i < 19 :: cs[i] < 8
    requires NoneFrom(cs, n)
    ensures ReadClens(ClenBits(cs, k, n) + rest, k, n, acc) == Some((cs, rest))
    decreases n - k
  {
    if k == n {
      OrderComplete(acc, cs);
      assert ClenBits(cs, k, n) + rest == rest;
    } else {
      var v := cs[CLEN_ORDER[k]];
      var more := ClenBits(cs, k + 1, n) + rest;
      assert ClenBits(cs, k, n) + rest == BitsOf(v, 3) + more;
      assert Pow2(3) == 8;
      ReadValueBack(v, 3, more);
      ClensReadStep(cs, k, acc);
      ReadClensBack(cs, k + 1, n, acc[CLEN_ORDER[k] := v], rest);
    }
  }

  lemma ReadRunBack(it: Item, acc: seq<nat>, rest: seq<bool>)
    requires ItemOk(it) && (it.sym == 16 ==> acc != [])
    ensures ReadRun(it.sym, acc, BitsOf(it.extra, ExtraBits(it.sym)) + rest) == Some((RunOf(it, acc), rest))
  {
    if it.sym < 16 {
      assert BitsOf(it.extra, 0) + rest == rest;
    } else {
      ReadValueBack(it.extra, ExtraBits(it.sym), rest);
    }
  }

  lemma ReadItemBack(cs: seq<nat>, it: Item, rest: seq<bool>, total: nat, acc: seq<nat>)
    requires Fits(cs) && it.sym < |cs| && cs[it.sym] > 0 && ItemOk(it) && (it.sym == 16 ==> acc != []) && |acc| < total
    ensures ReadLengths(cs, ItemBits(cs, it) + rest, total, acc) == ReadLengths(cs, rest, total, acc + RunOf(it, acc))
  {
    var ext := BitsOf(it.extra, ExtraBits(it.sym)) + rest;
    assert ItemBits(cs, it) + rest == Codeword(cs, it.sym) + ext;
    DecodeCodeword(cs, it.sym, ext);
    ReadRunBack(it, acc, rest);
  }

  /** The expansion loop reads back the lengths the items stand for. */
  lemma {:induction false} ReadLengthsBack(cs: seq<nat>, items: seq<Item>, rest: seq<bool>, acc: seq<nat>,
      lens: seq<nat>)
    requires Fits(cs) && ItemsCoded(cs, items) && ItemsOk(items, acc) && Expansion(items, acc) == lens
    ensures ReadLengths(cs, ItemsBits(cs, items) + rest, |lens|, acc) == Some((lens, rest))
  {
    if items == [] {
      assert ItemsBits(cs, items) + rest == rest;
    } else {
      var it, more := items[0], ItemsBits(cs, items[1..]) + rest;
      assert ItemsBits(cs, items) + rest == ItemBits(cs, it) + more;
      ReadItemBack(cs, it, more, |lens|, acc);
      ReadLengthsBack(cs, items[1..], rest, acc + RunOf(it, acc), lens);
    }
  }

  // ----- what decoders accept

  lemma {:induction false} CountZeroTrim(s: seq<nat>, k: nat)
    requires k <= |s| && forall i | k <= i < |s| :: s[i] == 0
    ensures |s| - Count(s, 0) == k - Count(s[..k], 0)
  {
    if k < |s| {
      var t := s[..|s| - 1];
      CountZeroTrim(t, k);
      assert t[..k] == s[..k];
    } else {
      assert s[..k] == s;
    }
  }

  /** The front part of a good table, with everything after it zero, is accepted by a decoder. */
  lemma AcceptsTrim(s: seq<nat>, k: nat)
    requires k <= |s| && (forall i | k <= i < |s| :: s[i] == 0) && Fits(s)
    requires Complete(s) || |s| - Count(s, 0) <= 1
    ensures Accepts(s[..k]) && Trimmed(s, k)
  {
    var l: nat := 16;
    CountZeroTrim(s, k);
    FirstCodeTrim(s, k, l);
  }

  lemma SplitHeader(a: seq<bool>, b: seq<bool>, c: seq<bool>, d: seq<bool>)
    requires |a| == 5 && |b| == 5 && |c| == 4
    ensures var s := a + (b + (c + d));
            |s| >= 14 && s[..5] == a && s[5..10] == b && s[10..14] == c && s[14..] == d
  {
  }

  lemma NothingRead(cs: seq<nat>)
    requires |cs| == 19
    ensures ClensRead(cs, 0, Repeat(0, 19))
  {
    forall j: nat | j < 19 ensures Repeat(0, 19)[CLEN_ORDER[j]] == 0 { OrderDistinct(j, (j + 1) % 19); }
  }

  lemma ReadPackedBack(nl: nat, nd: nat, nb: nat, cs: seq<nat>, items: seq<Item>, lit: seq<nat>, dst: seq<nat>,
      rest: seq<bool>)
    requires 4 <= nb <= 19 && |lit| == nl && |dst| == nd
    requires |cs| == 19 && Fits(cs) && Accepts(cs) && (forall i | 0 <= i < 19 :: cs[i] < 8)
    requires NoneFrom(cs, nb)
    requires ItemsCoded(cs, items) && ItemsOk(items, []) && Expansion(items, []) == lit + dst
    requires Accepts(lit) && Accepts(dst)
    ensures ReadPacked(nl, nd, nb, ClenBits(cs, 0, nb) + (ItemsBits(cs, items) + rest)) == Some((lit, dst, rest))
  {
    hide Fits, Accepts, ItemsOk, ItemsCoded, ClenBits, ItemsBits, ReadClens, ReadLengths;
    var lens, z := lit + dst, Repeat(0, 19);
    NothingRead(cs);
    ReadClensBack(cs, 0, nb, z, ItemsBits(cs, items) + rest);
    ReadLengthsBack(cs, items, rest, [], lens);
    assert lens[..nl] == lit && lens[nl..] == dst;
  }

  lemma SizesBack(nl: nat, nd: nat, nb: nat, tail: seq<bool>)
    requires 257 <= nl <= 288 && 1 <= nd <= 32 && 4 <= nb <= 19
    ensures ReadTables(BitsOf(nl - 257, 5) + (BitsOf(nd - 1, 5) + (BitsOf(nb - 4, 4) + tail))) ==
            ReadPacked(nl, nd, nb, tail)
  {
    var x, y, z := nl - 257, nd - 1, nb - 4;
    FieldBack(x, 5);
    FieldBack(y, 5);
    FieldBack(z, 4);
    FieldsBack(x, y, z, BitsOf(x, 5), BitsOf(y, 5), BitsOf(z, 4), tail);
  }

  lemma FieldBack(v: nat, n: nat)
    requires (n == 5 && v < 32) || (n == 4 && v < 16)
    ensures ValueOf(BitsOf(v, n)) == v
  {
    assert Pow2(5) == 32 && Pow2(4) == 16;
    ValueOfBitsOf(v, n);
  }

  lemma FieldsBack(x: nat, y: nat, z: nat, a: seq<bool>, b: seq<bool>, c: seq<bool>, tail: seq<bool>)
    requires |a| == 5 && |b| == 5 && |c| == 4 && ValueOf(a) == x && ValueOf(b) == y && ValueOf(c) == z < 16
    ensures ReadTables(a + (b + (c + tail))) == ReadPacked(x + 257, y + 1, z + 4, tail)
  {
    SplitHeader(a, b, c, tail);
    TablesAt(a + (b + (c + tail)), x, y, z, tail);
  }

  lemma TablesAt(s: seq<bool>, x: nat, y: nat, z: nat, tail: seq<bool>)
    requires |s| >= 14 && ValueOf(s[..5]) == x && ValueOf(s[5..10]) == y && ValueOf(s[10..14]) == z < 16 &&
             s[14..] == tail
    ensures ReadTables(s) == ReadPacked(x + 257, y + 1, z + 4, tail)
  {
  }

  /** A decoder reads the two tables back from the header. */
  lemma ReadTablesBack(nl: nat, nd: nat, nb: nat, cs: seq<nat>, items: seq<Item>, lit: seq<nat>, dst: seq<nat>,
      rest: seq<bool>)
    requires 257 <= nl <= 288 && 1 <= nd <= 32 && 4 <= nb <= 19 && |lit| == nl && |dst| == nd
    requires |cs| == 19 && Fits(cs) && Accepts(cs) && (forall i | 0 <= i < 19 :: cs[i] < 8)
    requires NoneFrom(cs, nb)
    requires ItemsCoded(cs, items) && ItemsOk(items, []) && Expansion(items, []) == lit + dst
    requires Accepts(lit) && Accepts(dst)
    ensures ReadTables(HeaderBits(nl, nd, nb, cs, items) + rest) == Some((lit, dst, rest))
  {
    hide Fits, Accepts, ItemsOk, ItemsCoded, ClenBits, ItemsBits, ReadTables, ReadPacked, Expansion, BitsOf;
    var a, b, c := BitsOf(nl - 257, 5), BitsOf(nd - 1, 5), BitsOf(nb - 4, 4);
    var clens, runs := ClenBits(cs, 0, nb), ItemsBits(cs, items);
    var tail := clens + (runs + rest);
    Regroup(a, b, c, clens, runs, rest);
    SizesBack(nl, nd, nb, tail);
    ReadPackedBack(nl, nd, nb, cs, items, lit, dst, rest);
  }

  lemma Regroup(a: seq<bool>, b: seq<bool>, c: seq<bool>, d: seq<bool>, e: seq<bool>, f: seq<bool>)
    ensures (a + (b + (c + (d + e)))) + f == a + (b + (c + (d + (e + f))))
  {
  }
}
