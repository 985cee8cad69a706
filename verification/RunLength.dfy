/** Run-length packing of code lengths for a dynamic block header (miniz tdefl_start_dynamic_block). */
module RunLength {
  import opened Bits
  import opened Canonical
  import opened Deflate

  /** A symbol of the code length alphabet with its extra bits. */
  datatype Item = Item(sym: nat, extra: nat)

  function ExtraBits(sym: nat): nat {
    if sym == 16 then 2 else if sym == 17 then 3 else if sym == 18 then 7 else 0
  }

  ghost predicate ItemOk(it: Item) {
    it.sym <= 18 && it.extra < Pow2(ExtraBits(it.sym))
  }

  /** The lengths an item stands for, after the lengths in acc. */
  ghost function RunOf(it: Item, acc: seq<nat>): (r: seq<nat>)
    requires ItemOk(it) && (it.sym == 16 ==> acc != [])
    ensures |r| >= 1
  {
    if it.sym < 16 then [it.sym]
    else if it.sym == 16 then Repeat(acc[|acc| - 1], 3 + it.extra)
    else if it.sym == 17 then Repeat(0, 3 + it.extra)
    else Repeat(0, 11 + it.extra)
  }

  ghost predicate ItemsOk(items: seq<Item>, acc: seq<nat>) {
    items == [] ||
    (ItemOk(items[0]) && (items[0].sym == 16 ==> acc != []) && ItemsOk(items[1..], acc + RunOf(items[0], acc)))
  }

  /** The lengths a list of items stands for. */
  ghost function Expansion(items: seq<Item>, acc: seq<nat>): (r: seq<nat>)
    requires ItemsOk(items, acc)
    ensures |r| >= |acc| + |items|
  {
    if items == [] then acc else Expansion(items[1..], acc + RunOf(items[0], acc))
  }

  lemma {:induction false} ExpansionSnoc(items: seq<Item>, it: Item, acc: seq<nat>)
    requires ItemsOk(items, acc) && ItemOk(it) && (it.sym == 16 ==> Expansion(items, acc) != [])
    ensures ItemsOk(items + [it], acc)
    ensures Expansion(items + [it], acc) == Expansion(items, acc) + RunOf(it, Expansion(items, acc))
  {
    if items == [] {
      assert items + [it] == [it];
    } else {
      assert (items + [it])[1..] == items[1..] + [it];
      ExpansionSnoc(items[1..], it, acc + RunOf(items[0], acc));
    }
  }

  /** The packed bytes: a symbol, and its extra value when it has one. */
  function LayoutOne(it: Item): seq<nat> {
    if it.sym < 16 then [it.sym] else [it.sym, it.extra]
  }

  function Layout(items: seq<Item>): seq<nat> {
    if items == [] then [] else LayoutOne(items[0]) + Layout(items[1..])
  }

  lemma {:induction false} LayoutSnoc(items: seq<Item>, it: Item)
    ensures Layout(items + [it]) == Layout(items) + LayoutOne(it)
  {
    if items == [] {
      assert items + [it] == [it];
    } else {
      assert (items + [it])[1..] == items[1..] + [it];
      LayoutSnoc(items[1..], it);
    }
  }

  function Occurrences(items: seq<Item>, sym: nat): (c: nat)
    ensures c <= |items|
  {
    if items == [] then 0
    else (if items[|items| - 1].sym == sym then 1 else 0) + Occurrences(items[..|items| - 1], sym)
  }

  // ----- the packer's state

  /** items stand for out, lie in the packed bytes and are counted by symbol; they take no more room than out. */
  ghost predicate Packed(items: seq<Item>, out: seq<nat>, bytes: seq<nat>, counts: seq<nat>) {
    ItemsOk(items, []) && Expansion(items, []) == out && bytes == Layout(items) && |bytes| <= |out| &&
    |counts| >= 19 && forall s: nat | s < 19 :: counts[s] == Occurrences(items, s)
  }

  lemma PackOne(items: seq<Item>, out: seq<nat>, bytes: seq<nat>, counts: seq<nat>, it: Item)
    requires Packed(items, out, bytes, counts) && ItemOk(it) && (it.sym == 16 ==> out != [])
    ensures Packed(items + [it], out + RunOf(it, out), bytes + LayoutOne(it), counts[it.sym := counts[it.sym] + 1])
  {
    ExpansionSnoc(items, it, []);
    LayoutSnoc(items, it);
    assert (items + [it])[..|items|] == items;
  }

  lemma RepeatSnoc(v: nat, n: nat)
    ensures Repeat(v, n) + [v] == Repeat(v, n + 1)
  {
  }

  /** Appends a length as it is, count times. */
  method PutPlain(v: nat, count: nat, counts: array<nat>, packed: array<nat>, num: nat,
      ghost items: seq<Item>, ghost out: seq<nat>) returns (num': nat, ghost items': seq<Item>)
    requires v <= 15 && counts != packed && num <= packed.Length && Packed(items, out, packed[..num], counts[..])
    requires |out| + count <= packed.Length
    modifies counts, packed
    ensures num' <= packed.Length && Packed(items', out + Repeat(v, count), packed[..num'], counts[..])
  {
    num', items' := num, items;
    var k := count;
    assert out + Repeat(v, 0) == out;
    while k > 0
      invariant 0 <= k <= count && num' <= packed.Length
      invariant Packed(items', out + Repeat(v, count - k), packed[..num'], counts[..])
    {
      ghost var c, b, o: seq<nat> := counts[..], packed[..num'], out + Repeat(v, count - k);
      PackOne(items', o, b, c, Item(v, 0));
      RepeatSnoc(v, count - k);
      assert o + [v] == out + Repeat(v, count - k + 1);
      counts[v] := counts[v] + 1;
      packed[num'] := v;
      num' := num' + 1;
      assert packed[..num'] == b + [v];
      items' := items' + [Item(v, 0)];
      k := k - 1;
    }
  }

  /** Appends a run symbol and its extra value. */
  method PutRun(it: Item, counts: array<nat>, packed: array<nat>, num: nat,
      ghost items: seq<Item>, ghost out: seq<nat>) returns (num': nat, ghost items': seq<Item>)
    requires it.sym >= 16 && ItemOk(it) && (it.sym == 16 ==> out != [])
    requires counts != packed && num <= packed.Length && Packed(items, out, packed[..num], counts[..])
    requires |out| + 2 <= packed.Length
    modifies counts, packed
    ensures num' <= packed.Length && Packed(items', out + RunOf(it, out), packed[..num'], counts[..])
  {
    ghost var c, b := counts[..], packed[..num];
    PackOne(items, out, b, c, it);
    counts[it.sym] := counts[it.sym] + 1;
    packed[num] := it.sym;
    packed[num + 1] := it.extra;
    num' := num + 2;
    assert packed[..num'] == b + [it.sym, it.extra];
    items' := items + [it];
  }

  /** Writes out the pending repeats of prev. */
  method FlushRepeat(prev: nat, rep: nat, counts: array<nat>, packed: array<nat>, num: nat,
      ghost items: seq<Item>, ghost out: seq<nat>) returns (num': nat, ghost items': seq<Item>)
    requires counts != packed && num <= packed.Length && Packed(items, out, packed[..num], counts[..])
    requires |out| + rep <= packed.Length && rep <= 6
    requires rep > 0 ==> 1 <= prev <= 15 && out != [] && out[|out| - 1] == prev
    modifies counts, packed
    ensures num' <= packed.Length && Packed(items', out + Repeat(prev, rep), packed[..num'], counts[..])
  {
    num', items' := num, items;
    if rep != 0 {
      if rep < 3 {
        num', items' := PutPlain(prev, rep, counts, packed, num, items, out);
      } else {
        num', items' := PutRun(Item(16, rep - 3), counts, packed, num, items, out);
      }
    } else {
      assert out + Repeat(prev, 0) == out;
    }
  }

  /** Writes out the pending zeros. */
  method FlushZeros(z: nat, counts: array<nat>, packed: array<nat>, num: nat,
      ghost items: seq<Item>, ghost out: seq<nat>) returns (num': nat, ghost items': seq<Item>)
    requires counts != packed && num <= packed.Length && Packed(items, out, packed[..num], counts[..])
    requires |out| + z <= packed.Length && z <= 138
    modifies counts, packed
    ensures num' <= packed.Length && Packed(items', out + Repeat(0, z), packed[..num'], counts[..])
  {
    num', items' := num, items;
    if z != 0 {
      if z < 3 {
        num', items' := PutPlain(0, z, counts, packed, num, items, out);
      } else if z <= 10 {
        num', items' := PutRun(Item(17, z - 3), counts, packed, num, items, out);
      } else {
        assert Pow2(7) == 128;
        num', items' := PutRun(Item(18, z - 11), counts, packed, num, items, out);
      }
    } else {
      assert out + Repeat(0, 0) == out;
    }
  }

  /** The lengths read so far are those written out and those pending. */
  ghost predicate Pending(sizes: seq<nat>, i: nat, out: seq<nat>, prev: nat, rep: nat, z: nat) {
    i <= |sizes| && out + Repeat(prev, rep) + Repeat(0, z) == sizes[..i] &&
    (i == 0 ==> prev == 0xFF && rep == 0 && z == 0) && (i > 0 ==> prev == sizes[i - 1] <= 15) &&
    rep < 6 && z < 138 && (rep > 0 ==> z == 0 && prev > 0) &&
    (i > 0 && prev > 0 ==> z == 0 && out != [] && out[|out| - 1] == prev)
  }

  /** One more length: what is flushed, what is put plain and what stays pending. */
  lemma PendingStep(sizes: seq<nat>, i: nat, out: seq<nat>, prev: nat, rep: nat, z: nat)
    requires i < |sizes| && sizes[i] <= 15 && Pending(sizes, i, out, prev, rep, z)
    ensures sizes[i] == 0 ==>
              var o := out + Repeat(prev, rep);
              (z + 1 < 138 ==> Pending(sizes, i + 1, o, 0, 0, z + 1)) &&
              (z + 1 == 138 ==> Pending(sizes, i + 1, o + Repeat(0, 138), 0, 0, 0))
    ensures sizes[i] != 0 && sizes[i] != prev ==>
              var o := out + Repeat(0, z) + Repeat(prev, rep);
              Pending(sizes, i + 1, o + Repeat(sizes[i], 1), sizes[i], 0, 0)
    ensures sizes[i] != 0 && sizes[i] == prev ==>
              var o := out + Repeat(0, z);
              (rep + 1 < 6 ==> Pending(sizes, i + 1, o, prev, rep + 1, 0)) &&
              (rep + 1 == 6 ==> Pending(sizes, i + 1, o + Repeat(prev, 6), prev, 0, 0))
  {
    assert sizes[..i + 1] == sizes[..i] + [sizes[i]];
    RepeatSnoc(prev, rep);
    RepeatSnoc(0, z);
    assert Repeat(sizes[i], 1) == [sizes[i]];
  }

  lemma PendingSize(sizes: seq<nat>, i: nat, out: seq<nat>, prev: nat, rep: nat, z: nat)
    requires Pending(sizes, i, out, prev, rep, z)
    ensures |out| + rep + z == i && (rep > 0 ==> 1 <= prev <= 15 && out != [] && out[|out| - 1] == prev)
  {
    assert |sizes[..i]| == i;
    if i == 0 { assert rep == 0; }
  }

  /** A zero length: pending repeats are written out, and the run of zeros when it is as long as it may be. */
  method PackZero(ghost s: seq<nat>, i: nat, prev: nat, rep: nat, z: nat, counts: array<nat>, packed: array<nat>,
      num: nat, ghost items: seq<Item>, ghost out: seq<nat>)
      returns (z': nat, num': nat, ghost items': seq<Item>, ghost out': seq<nat>)
    requires counts != packed && i < |s| <= packed.Length && s[i] == 0
    requires num <= packed.Length && Packed(items, out, packed[..num], counts[..]) && Pending(s, i, out, prev, rep, z)
    modifies counts, packed
    ensures num' <= packed.Length && Packed(items', out', packed[..num'], counts[..])
    ensures Pending(s, i + 1, out', 0, 0, z')
  {
    PendingStep(s, i, out, prev, rep, z);
    PendingSize(s, i, out, prev, rep, z);
    num', items' := FlushRepeat(prev, rep, counts, packed, num, items, out);
    out', z' := out + Repeat(prev, rep), z + 1;
    if z' == 138 {
      num', items' := FlushZeros(z', counts, packed, num', items', out');
      out', z' := out' + Repeat(0, z'), 0;
    }
  }

  /** A new non-zero length: everything pending is written out, then the length itself. */
  method PackNew(ghost s: seq<nat>, i: nat, codeSize: nat, prev: nat, rep: nat, z: nat, counts: array<nat>,
      packed: array<nat>, num: nat, ghost items: seq<Item>, ghost out: seq<nat>)
      returns (num': nat, ghost items': seq<Item>, ghost out': seq<nat>)
    requires counts != packed && i < |s| <= packed.Length && s[i] == codeSize && 0 < codeSize <= 15
    requires codeSize != prev
    requires num <= packed.Length && Packed(items, out, packed[..num], counts[..]) && Pending(s, i, out, prev, rep, z)
    modifies counts, packed
    ensures num' <= packed.Length && Packed(items', out', packed[..num'], counts[..])
    ensures Pending(s, i + 1, out', codeSize, 0, 0)
  {
    PendingStep(s, i, out, prev, rep, z);
    PendingSize(s, i, out, prev, rep, z);
    num', items' := FlushZeros(z, counts, packed, num, items, out);
    out' := out + Repeat(0, z);
    num', items' := FlushRepeat(prev, rep, counts, packed, num', items', out');
    out' := out' + Repeat(prev, rep);
    num', items' := PutPlain(codeSize, 1, counts, packed, num', items', out');
    out' := out' + Repeat(codeSize, 1);
  }

  /** The previous length again: one more repeat, written out when there are six. */
  method PackAgain(ghost s: seq<nat>, i: nat, prev: nat, rep: nat, z: nat, counts: array<nat>, packed: array<nat>,
      num: nat, ghost items: seq<Item>, ghost out: seq<nat>)
      returns (rep': nat, num': nat, ghost items': seq<Item>, ghost out': seq<nat>)
    requires counts != packed && i < |s| <= packed.Length && s[i] == prev && 0 < prev <= 15
    requires num <= packed.Length && Packed(items, out, packed[..num], counts[..]) && Pending(s, i, out, prev, rep, z)
    modifies counts, packed
    ensures num' <= packed.Length && Packed(items', out', packed[..num'], counts[..])
    ensures Pending(s, i + 1, out', prev, rep', 0)
  {
    PendingStep(s, i, out, prev, rep, z);
    PendingSize(s, i, out, prev, rep, z);
    num', items' := FlushZeros(z, counts, packed, num, items, out);
    assert out + Repeat(0, z) == out;
    out', rep' := out + Repeat(0, z), rep + 1;
    if rep' == 6 {
      num', items' := FlushRepeat(prev, rep', counts, packed, num', items', out');
      out', rep' := out' + Repeat(prev, rep'), 0;
    }
  }

  /** Writes out whatever is pending at the end. */
  method PackEnd(ghost s: seq<nat>, prev: nat, rep: nat, z: nat, counts: array<nat>, packed: array<nat>,
      num: nat, ghost items: seq<Item>, ghost out: seq<nat>) returns (num': nat, ghost items': seq<Item>)
    requires counts != packed && |s| <= packed.Length
    requires num <= packed.Length && Packed(items, out, packed[..num], counts[..]) && Pending(s, |s|, out, prev, rep, z)
    modifies counts, packed
    ensures num' <= packed.Length && Packed(items', s, packed[..num'], counts[..])
  {
    PendingSize(s, |s|, out, prev, rep, z);
    assert s[..|s|] == s;
    if rep != 0 {
      num', items' := FlushRepeat(prev, rep, counts, packed, num, items, out);
      assert out + Repeat(prev, rep) == s;
    } else {
      num', items' := FlushZeros(z, counts, packed, num, items, out);
      assert out + Repeat(0, z) == s;
    }
  }

  /** One code length, whichever case it is. */
  method PackStep(ghost s: seq<nat>, i: nat, codeSize: nat, prev: nat, rep: nat, z: nat, counts: array<nat>,
      packed: array<nat>, num: nat, ghost items: seq<Item>, ghost out: seq<nat>)
      returns (rep': nat, z': nat, num': nat, ghost items': seq<Item>, ghost out': seq<nat>)
    requires counts != packed && i < |s| <= packed.Length && s[i] == codeSize <= 15
    requires num <= packed.Length && Packed(items, out, packed[..num], counts[..]) && Pending(s, i, out, prev, rep, z)
    modifies counts, packed
    ensures num' <= packed.Length && Packed(items', out', packed[..num'], counts[..])
    ensures Pending(s, i + 1, out', codeSize, rep', z')
  {
    rep', z' := 0, 0;
    if codeSize == 0 {
      z', num', items', out' := PackZero(s, i, prev, rep, z, counts, packed, num, items, out);
    } else if codeSize != prev {
      num', items', out' := PackNew(s, i, codeSize, prev, rep, z, counts, packed, num, items, out);
    } else {
      rep', num', items', out' := PackAgain(s, i, prev, rep, z, counts, packed, num, items, out);
    }
  }

  lemma NothingPacked(counts: seq<nat>)
    requires |counts| >= 19 && forall s | 0 <= s < 19 :: counts[s] == 0
    ensures Packed([], [], [], counts)
  {
  }

  /** Packs the code lengths; the items it ghost-returns expand to exactly those lengths. */
  method PackCodeSizes(sizes: array<nat>, total: nat, counts: array<nat>, packed: array<nat>)
      returns (num: nat, ghost items: seq<Item>)
    requires counts != packed && sizes != counts && sizes != packed && counts.Length >= 19
    requires total <= sizes.Length && total <= packed.Length
    requires forall i | 0 <= i < total :: sizes[i] <= 15
    requires forall s | 0 <= s < 19 :: counts[s] == 0
    modifies counts, packed
    ensures num <= packed.Length && Packed(items, sizes[..total], packed[..num], counts[..])
  {
    var prev, rep, z := 0xFF, 0, 0;
    num, items := 0, [];
    ghost var s, out: seq<nat> := sizes[..total], [];
    NothingPacked(counts[..]);
    assert packed[..0] == [] && Pending(s, 0, out, prev, rep, z);
    for i := 0 to total
      invariant sizes[..total] == s
      invariant num <= packed.Length && Packed(items, out, packed[..num], counts[..])
      invariant Pending(s, i, out, prev, rep, z)
    {
      rep, z, num, items, out := PackStep(s, i, sizes[i], prev, rep, z, counts, packed, num, items, out);
      prev := sizes[i];
    }
    num, items := PackEnd(s, prev, rep, z, counts, packed, num, items, out);
  }
}
