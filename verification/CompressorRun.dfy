/** Whole runs of the compressor: what its file holds, and what it holds at and behind every flush. */
module CompressorRun {
  import opened Bits
  import opened Canonical
  import opened Deflate
  import opened Streams
  import opened Stored
  import opened Parser
  import opened BlockWriter
  import opened Compressor

  datatype Call = Call(input: seq<Byte>, mode: Flush)

  function Inputs(calls: seq<Call>): seq<Byte> {
    if calls == [] then [] else Inputs(calls[..|calls| - 1]) + calls[|calls| - 1].input
  }

  lemma {:induction false} InputsSplit(calls: seq<Call>, i: nat)
    requires i <= |calls|
    ensures Inputs(calls) == Inputs(calls[..i]) + Inputs(calls[i..])
  {
    if i == |calls| {
      assert calls[..i] == calls;
    } else {
      var n := |calls| - 1;
      assert calls[..n][..i] == calls[..i] && calls[i..][..n - i] == calls[..n][i..];
      InputsSplit(calls[..n], i);
    }
  }

  // ----- one flush point

  /** The first n bytes hold the text. */
  ghost predicate HandedAt(zlib: bool, out: seq<Byte>, n: nat, text: seq<Byte>) {
    n <= |out| && Handed(zlib, out[..n], text)
  }

  /** Where byte n of the file lies in its blocks. */
  function BlockBit(zlib: bool, n: nat): int { 8 * n - if zlib then 16 else 0 }

  /** The blocks from byte n up to the last full flush hold the source from position at up to base. */
  ghost predicate HoldsFrom(zlib: bool, past: seq<bool>, src: seq<Byte>, base: nat, n: nat, at: nat) {
    var k := BlockBit(zlib, n);
    0 <= k <= |past| && at <= base <= |src| && Decodes(past[k..], src[at..base])
  }

  lemma HoldsStill(zlib: bool, past: seq<bool>, src: seq<Byte>, base: nat, n: nat, at: nat, src': seq<Byte>)
    requires HoldsFrom(zlib, past, src, base, n, at) && src <= src'
    ensures HoldsFrom(zlib, past, src', base, n, at)
  {
    assert src'[at..base] == src[at..base];
  }

  lemma HoldsOn(zlib: bool, past: seq<bool>, src: seq<Byte>, base: nat, n: nat, at: nat, out': seq<Byte>,
      past': seq<bool>, src': seq<Byte>)
    requires HoldsFrom(zlib, past, src, base, n, at) && src <= src'
    requires Forgotten(zlib, out', past, past', base, |src'|, src') && Whole(|past|, 0)
    ensures HoldsFrom(zlib, past', src', |src'|, n, at)
  {
    hide Decodes;
    var k := BlockBit(zlib, n);
    assert past'[k..] == past[k..] + past'[|past|..];
    assert src'[at..] == src[at..base] + src'[base..];
    BlockBitWhole(zlib, n, |past|, |past[k..]|);
    DecodesJoin(past[k..], src[at..base], past'[|past|..], src'[base..]);
    assert src'[at..|src'|] == src'[at..];
  }

  lemma BlockBitWhole(zlib: bool, n: nat, past: nat, rest: nat)
    requires Whole(past, 0) && rest == past - BlockBit(zlib, n)
    ensures Whole(rest, 0)
  {
    var q := past / 8 - n + if zlib then 2 else 0;
    assert rest == 8 * q;
  }

  lemma HoldsHere(zlib: bool, out: seq<Byte>, past: seq<bool>, past': seq<bool>, base: nat, src: seq<Byte>)
    requires Forgotten(zlib, out, past, past', base, |src|, src)
    ensures HoldsFrom(zlib, past', src, |src|, |out|, |src|)
  {
    hide Decodes;
    DecodesNothing();
    assert past'[|past'|..] == [] && src[|src|..|src|] == [];
  }

  // ----- all flush points of a run

  /** Call i was done when n bytes had been handed over. */
  ghost predicate Cut(zlib: bool, out: seq<Byte>, past: seq<bool>, src: seq<Byte>, base: nat, calls: seq<Call>, i: nat,
      n: nat)
    requires i < |calls|
  {
    n <= |out| && (calls[i].mode != NoFlush ==> HandedAt(zlib, out, n, Inputs(calls[..i + 1]))) &&
    (calls[i].mode == FullFlush ==> HoldsFrom(zlib, past, src, base, n, |Inputs(calls[..i + 1])|))
  }

  ghost predicate Cuts(zlib: bool, out: seq<Byte>, past: seq<bool>, src: seq<Byte>, base: nat, calls: seq<Call>,
      cuts: seq<nat>) {
    |cuts| == |calls| && forall i | 0 <= i < |calls| :: Cut(zlib, out, past, src, base, calls, i, cuts[i])
  }

  /** What a call leaves behind of the compressor's state. */
  ghost predicate Called(zlib: bool, out: seq<Byte>, past: seq<bool>, src: seq<Byte>, base: nat, call: Call,
      out': seq<Byte>, past': seq<bool>, src': seq<Byte>, base': nat) {
    out <= out' && src <= src' && (call.mode != NoFlush ==> Handed(zlib, out', src')) && Whole(|past|, 0) &&
    if call.mode == FullFlush then Forgotten(zlib, out', past, past', base, base', src')
    else past' == past && base' == base
  }

  lemma CutStill(zlib: bool, out: seq<Byte>, past: seq<bool>, src: seq<Byte>, base: nat, calls: seq<Call>, i: nat,
      n: nat, call: Call, out': seq<Byte>, past': seq<bool>, src': seq<Byte>, base': nat)
    requires i < |calls| && Cut(zlib, out, past, src, base, calls, i, n)
    requires Called(zlib, out, past, src, base, call, out', past', src', base')
    ensures Cut(zlib, out', past', src', base', calls + [call], i, n)
  {
    hide HoldsFrom, Handed, Inputs, Decodes, Whole;
    assert (calls + [call])[..i + 1] == calls[..i + 1] && out'[..n] == out[..n];
    if calls[i].mode == FullFlush {
      var at := |Inputs(calls[..i + 1])|;
      if call.mode == FullFlush {
        assert base' == |src'|;
        HoldsOn(zlib, past, src, base, n, at, out', past', src');
      } else {
        HoldsStill(zlib, past, src, base, n, at, src');
      }
    }
  }

  lemma CutHere(zlib: bool, out: seq<Byte>, past: seq<bool>, src: seq<Byte>, base: nat, calls: seq<Call>, call: Call,
      out': seq<Byte>, past': seq<bool>, src': seq<Byte>, base': nat)
    requires Called(zlib, out, past, src, base, call, out', past', src', base') && src' == Inputs(calls + [call])
    ensures Cut(zlib, out', past', src', base', calls + [call], |calls|, |out'|)
  {
    hide HoldsFrom, Handed, Inputs, Decodes, Whole;
    assert (calls + [call])[..|calls| + 1] == calls + [call] && out'[..|out'|] == out';
    if call.mode == FullFlush {
      assert base' == |src'|;
      HoldsHere(zlib, out', past, past', base, src');
    }
  }

  lemma CutsOn(zlib: bool, out: seq<Byte>, past: seq<bool>, src: seq<Byte>, base: nat, calls: seq<Call>,
      cuts: seq<nat>, call: Call, out': seq<Byte>, past': seq<bool>, src': seq<Byte>, base': nat)
    requires Cuts(zlib, out, past, src, base, calls, cuts)
    requires Called(zlib, out, past, src, base, call, out', past', src', base') && src' == Inputs(calls + [call])
    ensures Cuts(zlib, out', past', src', base', calls + [call], cuts + [|out'|])
  {
    hide Cut, Called, Inputs;
    var n := |calls|;
    forall i | 0 <= i <= n ensures Cut(zlib, out', past', src', base', calls + [call], i, (cuts + [|out'|])[i]) {
      if i < n {
        CutStill(zlib, out, past, src, base, calls, i, cuts[i], call, out', past', src', base');
      } else {
        CutHere(zlib, out, past, src, base, calls, call, out', past', src', base');
      }
    }
  }

  /** Behind a full flush the file is a stream of its own, which holds what comes after the flush. */
  lemma HoldsToEnd(zlib: bool, out: seq<Byte>, past: seq<bool>, src: seq<Byte>, base: nat, n: nat, at: nat,
      src': seq<Byte>)
    requires HoldsFrom(zlib, past, src, base, n, at) && src <= src' && base <= |src'| && Whole(|past|, 0)
    requires Ending(BytesBits(out), Leading(zlib, past), src'[base..])
    ensures n <= |out| && Inflate(out[n..]) == Some(src'[at..])
  {
    hide Decodes, Finishes, BytesBits, InflateFrom, Inflate, Leading, Whole;
    var l := Leading(zlib, past);
    var tail: seq<bool> :| WholeFile(BytesBits(out), l, tail, src'[base..]);
    var k, rest := BlockBit(zlib, n), BytesBits(out)[|l|..];
    assert BytesBits(out) == l + rest;
    BlocksFrom(zlib, past, rest, n);
    BytesFrom(out, n);
    BlockBitWhole(zlib, n, |past|, |past[k..]|);
    RestIsWhole(|out|, zlib, past, |rest|, |past[k..]|);
    SplitText(src, src', base, at);
    FinishesJoin(past[k..], src[at..base], rest, src'[base..], tail);
    TextFrom(out[n..], past[k..] + rest, src'[at..], tail);
  }

  lemma BlocksFrom(zlib: bool, past: seq<bool>, rest: seq<bool>, n: nat)
    requires 0 <= BlockBit(zlib, n) <= |past|
    ensures 8 * n <= |Leading(zlib, past) + rest|
    ensures (Leading(zlib, past) + rest)[8 * n..] == past[BlockBit(zlib, n)..] + rest
  {
  }

  lemma RestIsWhole(n: nat, zlib: bool, past: seq<bool>, rest: nat, k: nat)
    requires 8 * n == |Leading(zlib, past)| + rest && Whole(|past|, 0) && Whole(k, 0)
    ensures Whole(k, rest)
  {
    var h := |Leading(zlib, past)| - |past|;
    Eighths(n, h, |past|, rest, k);
  }

  lemma Eighths(n: nat, h: nat, past: nat, rest: nat, k: nat)
    requires 8 * n == h + past + rest && (h == 0 || h == 16) && Whole(past, 0) && Whole(k, 0)
    ensures Whole(k, rest)
  {
    var q := n - h / 8 - past / 8 + k / 8;
    assert k + rest == 8 * q;
  }

  lemma TextFrom(out: seq<Byte>, bits: seq<bool>, text: seq<Byte>, tail: seq<bool>)
    requires BytesBits(out) == bits && Finishes(bits, text, tail)
    ensures Inflate(out) == Some(text)
  {
    FinishesText(bits, text, tail);
  }

  lemma BytesFrom(out: seq<Byte>, n: nat)
    requires 8 * n <= |BytesBits(out)|
    ensures |BytesBits(out)| == 8 * |out| && n <= |out| && BytesBits(out[n..]) == BytesBits(out)[8 * n..]
  {
    hide BytesBits;
    BytesBitsLength(out);
    var a, b := out[..n], out[n..];
    assert out == a + b;
    BytesBitsConcat(a, b);
    BytesBitsLength(a);
  }

  lemma SplitText(src: seq<Byte>, src': seq<Byte>, base: nat, at: nat)
    requires src <= src' && at <= base <= |src|
    ensures src'[at..] == src[at..base] + src'[base..]
  {
  }

  /**
   * Call i was done when n bytes had been handed over. If it was a flush, they hold everything put in up to it. If it
   * was a full flush, what comes behind them can be read without them: it is a stream that holds everything put in
   * after it.
   */
  ghost predicate FlushPoint(zlib: bool, out: seq<Byte>, calls: seq<Call>, last: seq<Byte>, i: nat, n: nat)
    requires i < |calls|
  {
    n <= |out| && (calls[i].mode != NoFlush ==> Handed(zlib, out[..n], Inputs(calls[..i + 1]))) &&
    (calls[i].mode == FullFlush ==> Inflate(out[n..]) == Some(Inputs(calls[i + 1..]) + last))
  }

  lemma InputsSnoc(calls: seq<Call>, i: nat)
    requires i < |calls|
    ensures calls[..i + 1] == calls[..i] + [calls[i]] && Inputs(calls[..i + 1]) == Inputs(calls[..i]) + calls[i].input
  {
    assert calls[..i + 1][..i] == calls[..i];
  }

  /** The state of a run in which the first i calls have been made. */
  ghost predicate Ran(c: Compressor, calls: seq<Call>, i: nat, cuts: seq<nat>)
    reads c, c.p, c.p.d, c.p.d.dict, c.p.d.next, c.p.d.hash, c.p.lz, c.p.lz.codeBuf, c.p.lz.t0.count, c.p.lz.t1.count,
          c.w
  {
    i <= |calls| && c.Usable() && c.prevStatus == Okay && c.p.d.src == Inputs(calls[..i]) &&
    Cuts(c.p.flags.zlib, c.out, c.past, c.p.d.src, c.p.d.base, calls[..i], cuts)
  }

  /** Call i of a run. */
  method Next(c: Compressor, calls: seq<Call>, i: nat, cuts: seq<nat>) returns (cuts': seq<nat>)
    requires i < |calls| && calls[i].mode != Finish && Ran(c, calls, i, cuts)
    modifies c, c.w, c.w.buf, c.p, c.p.lz, c.p.lz.codeBuf, c.p.lz.t0.Arrays(), c.p.lz.t1.Arrays(), c.t2.Arrays()
    modifies c.p.d, c.p.d.dict, c.p.d.next, c.p.d.hash
    ensures Ran(c, calls, i + 1, cuts')
  {
    hide Compressor.Usable, Cuts, Handed, Forgotten, Compressor.LastPart, Compressor.FileHolds, Inputs;
    ghost var out, past, src, base := c.out, c.past, c.p.d.src, c.p.d.base;
    InputsSnoc(calls, i);
    var _ := c.Compress(calls[i].input, calls[i].mode);
    CutsOn(c.p.flags.zlib, out, past, src, base, calls[..i], cuts, calls[i], c.out, c.past, c.p.d.src, c.p.d.base);
    cuts' := cuts + [|c.out|];
  }

  /**
   * Any sequence of calls under any options, the last one finishing the file, gives a file of everything put in. For
   * each call it is told how much of the file had been handed over when the call was done.
   */
  method CompressAll(flags: Flags, calls: seq<Call>, last: seq<Byte>) returns (out: seq<Byte>, cuts: seq<nat>)
    requires forall i | 0 <= i < |calls| :: calls[i].mode != Finish
    ensures (if flags.zlib then Unzlib(out) else Inflate(out)) == Some(Inputs(calls) + last)
    ensures |cuts| == |calls| && forall i | 0 <= i < |calls| :: FlushPoint(flags.zlib, out, calls, last, i, cuts[i])
  {
    hide Compressor.Usable, Cuts, Handed, Forgotten, Inflate, Unzlib, FlushPoint, Compressor.LastPart;
    var c := Init(flags);
    var i := 0;
    cuts := [];
    CutsNone(flags.zlib, c.out, c.past, c.p.d.src, c.p.d.base);
    assert calls[..0] == [];
    while i < |calls|
      invariant Ran(c, calls, i, cuts) && c.p.flags == flags
      invariant fresh(c) && fresh(c.p) && fresh(c.p.Parts()) && fresh(Arrays(c.w, c.t2))
    {
      cuts := Next(c, calls, i, cuts);
      i := i + 1;
    }
    assert calls[..i] == calls;
    ghost var begun, past, base := c.out, c.past, c.p.d.base;
    var _ := c.Compress(last, Finish);
    out := c.out;
    CutsEnd(flags.zlib, begun, past, Inputs(calls), base, calls, cuts, out, last);
  }

  lemma CutsNone(zlib: bool, out: seq<Byte>, past: seq<bool>, src: seq<Byte>, base: nat)
    ensures Cuts(zlib, out, past, src, base, [], [])
  {
  }

  lemma CutsEnd(zlib: bool, out: seq<Byte>, past: seq<bool>, src: seq<Byte>, base: nat, calls: seq<Call>,
      cuts: seq<nat>, out': seq<Byte>, last: seq<Byte>)
    requires Cuts(zlib, out, past, src, base, calls, cuts) && out <= out' && src == Inputs(calls) && Whole(|past|, 0)
    requires base <= |src + last| && Ending(BytesBits(out'), Leading(zlib, past), (src + last)[base..])
    ensures |cuts| == |calls| && forall i | 0 <= i < |calls| :: FlushPoint(zlib, out', calls, last, i, cuts[i])
  {
    hide Cut, FlushPoint, Ending, Inputs, Whole, Leading, BytesBits;
    forall i | 0 <= i < |calls| ensures FlushPoint(zlib, out', calls, last, i, cuts[i]) {
      CutEnds(zlib, out, past, src, base, calls, i, cuts[i], out', last);
    }
  }

  lemma CutEnds(zlib: bool, out: seq<Byte>, past: seq<bool>, src: seq<Byte>, base: nat, calls: seq<Call>, i: nat,
      n: nat, out': seq<Byte>, last: seq<Byte>)
    requires i < |calls| && Cut(zlib, out, past, src, base, calls, i, n)
    requires out <= out' && src == Inputs(calls) && Whole(|past|, 0)
    requires base <= |src + last| && Ending(BytesBits(out'), Leading(zlib, past), (src + last)[base..])
    ensures FlushPoint(zlib, out', calls, last, i, n)
  {
    hide Handed, Ending, Inflate, Inputs, BytesBits, Leading, Whole, HoldsFrom;
    assert out'[..n] == out[..n];
    if calls[i].mode == FullFlush {
      var upto, later := Inputs(calls[..i + 1]), Inputs(calls[i + 1..]);
      InputsSplit(calls, i + 1);
      HoldsToEnd(zlib, out', past, src, base, n, |upto|, src + last);
      assert (src + last)[|upto|..] == later + last;
    }
  }
}
