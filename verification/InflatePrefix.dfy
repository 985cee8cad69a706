/** The output only grows: at every point of decoding it is a prefix of the whole text. */
module InflatePrefix {
  import opened Bits
  import opened Canonical
  import opened Deflate
  import opened InflateMeaning
  import opened InflateSteps

  // ----- the reference decoder

  lemma Longer(a: seq<Byte>, b: seq<Byte>, c: seq<Byte>)
    requires a <= b <= c
    ensures a <= c
  {
  }

  lemma Behind(a: seq<Byte>, b: seq<Byte>, c: seq<Byte>)
    requires a + b <= c
    ensures a <= c
  {
    assert a <= a + b;
    Longer(a, a + b, c);
  }

  lemma {:induction false} CodesGrow(lit: seq<nat>, dst: seq<nat>, bits: seq<bool>, out: seq<Byte>)
    ensures var r := InflateCodes(lit, dst, bits, out); r.Some? ==> out <= r.value.1
    decreases |bits|
  {
    if InflateCodes(lit, dst, bits, out).Some? {
      var end := InflateCodes(lit, dst, bits, out).value.1;
      var (sym, rest) := ReadSym(lit, bits).value;
      if sym < 256 {
        CodesGrow(lit, dst, rest, out + [sym]);
        Behind(out, [sym], end);
      } else if sym > 256 {
        var (t, rest') := ReadMatch(dst, sym, rest).value;
        CodesGrow(lit, dst, rest', ExpandToken(t, out));
        Longer(out, ExpandToken(t, out), end);
      }
    }
  }

  lemma BlockGrow(bits: seq<bool>, out: seq<Byte>)
    ensures var r := InflateBlock(bits, out); r.Some? ==> out <= r.value.2
  {
    if InflateBlock(bits, out).Some? {
      var rest := bits[3..];
      if bits[1] {
        CodesGrow(FixedLit(), FixedDist(), rest, out);
      } else if bits[2] {
        var (lit, dst, rest') := ReadTables(rest).value;
        CodesGrow(lit, dst, rest', out);
      }
    }
  }

  lemma {:induction false} StreamGrow(bits: seq<bool>, out: seq<Byte>)
    ensures var r := InflateFrom(bits, out); r.Some? ==> out <= r.value.1
    decreases |bits|
  {
    if InflateFrom(bits, out).Some? {
      BlockGrow(bits, out);
      var (final, rest, out') := InflateBlock(bits, out).value;
      if !final {
        StreamGrow(rest, out');
        Longer(out, out', InflateFrom(bits, out).value.1);
      }
    }
  }

  // ----- the middle of a block

  lemma AfterGrow(f: bool, bits: seq<bool>, out: seq<Byte>, g: Result)
    requires After(f, bits, out) == Some(g)
    ensures out <= g.1
  {
    StreamGrow(bits, out);
  }

  lemma ThenGrow(f: bool, r: Option<Result>, out: seq<Byte>, g: Result)
    requires ThenAfter(f, r) == Some(g) && (r.Some? ==> out <= r.value.1)
    ensures out <= g.1
  {
    var (bits, out') := r.value;
    AfterGrow(f, bits, out', g);
    Longer(out, out', g.1);
  }

  lemma MeansAfterGrow(f: bool, bits: seq<bool>, out: seq<Byte>, g: Result)
    requires MeansAfter(f, bits, out, g)
    ensures out <= g.1
  {
    AfterSome(f, bits, out, g);
    AfterGrow(f, bits, out, g);
  }

  lemma MeansCodesGrow(f: bool, lit: seq<nat>, dst: seq<nat>, bits: seq<bool>, out: seq<Byte>, g: Result)
    requires MeansCodes(f, lit, dst, bits, out, g)
    ensures out <= g.1
  {
    CodesSome(f, lit, dst, bits, out, g);
    CodesGrow(lit, dst, bits, out);
    ThenGrow(f, InflateCodes(lit, dst, bits, out), out, g);
  }

  lemma MeansCopyGrow(f: bool, lit: seq<nat>, dst: seq<nat>, len: nat, dist: nat, bits: seq<bool>, out: seq<Byte>,
      g: Result)
    requires MeansCopy(f, lit, dst, len, dist, bits, out, g)
    ensures |out| + len <= |g.1| && out <= g.1
  {
    var end := CopyMatch(out, len, dist);
    MeansCodesGrow(f, lit, dst, bits, end, g);
    Longer(out, end, g.1);
  }

  lemma MeansDistGrow(f: bool, lit: seq<nat>, dst: seq<nat>, len: nat, bits: seq<bool>, out: seq<Byte>, g: Result)
    requires MeansDist(f, lit, dst, len, bits, out, g)
    ensures out <= g.1
  {
    var (d, rest) := ReadSym(dst, bits).value;
    MeansDistBitsGrow(f, lit, dst, len, DIST_BASE[d], DIST_EXTRA[d], rest, out, g);
  }

  lemma MeansDistBitsGrow(f: bool, lit: seq<nat>, dst: seq<nat>, len: nat, base: nat, extra: nat, bits: seq<bool>,
      out: seq<Byte>, g: Result)
    requires MeansDistBits(f, lit, dst, len, base, extra, bits, out, g)
    ensures out <= g.1
  {
    MeansCopyGrow(f, lit, dst, len, base + ValueOf(bits[..extra]), bits[extra..], out, g);
  }

  lemma MeansLengthBitsGrow(f: bool, lit: seq<nat>, dst: seq<nat>, base: nat, extra: nat, bits: seq<bool>,
      out: seq<Byte>, g: Result)
    requires MeansLengthBits(f, lit, dst, base, extra, bits, out, g)
    ensures out <= g.1
  {
    MeansDistGrow(f, lit, dst, base + ValueOf(bits[..extra]), bits[extra..], out, g);
  }

  lemma MeansSymGrow(f: bool, lit: seq<nat>, dst: seq<nat>, sym: nat, bits: seq<bool>, out: seq<Byte>, g: Result)
    requires MeansSym(f, lit, dst, sym, bits, out, g)
    ensures out <= g.1
  {
    if sym == 256 {
      MeansAfterGrow(f, bits, out, g);
    } else {
      MeansLengthBitsGrow(f, lit, dst, LENGTH_BASE[sym - 257], LENGTH_EXTRA[sym - 257], bits, out, g);
    }
  }

  lemma InLensGrow(f: bool, nl: nat, nd: nat, clen: seq<nat>, acc: seq<nat>, bits: seq<bool>, out: seq<Byte>, g: Result)
    requires InLens(f, nl, nd, clen, acc, bits, out) == Some(g)
    ensures out <= g.1
  {
    var (lens, rest) := ReadLengths(clen, bits, nl + nd, acc).value;
    CodesGrow(lens[..nl], lens[nl..], rest, out);
    ThenGrow(f, InflateCodes(lens[..nl], lens[nl..], rest, out), out, g);
  }

  lemma MeansLensGrow(f: bool, nl: nat, nd: nat, clen: seq<nat>, acc: seq<nat>, bits: seq<bool>, out: seq<Byte>,
      g: Result)
    requires MeansLens(f, nl, nd, clen, acc, bits, out, g)
    ensures out <= g.1
  {
    LensSome(f, nl, nd, clen, acc, bits, out, g);
    InLensGrow(f, nl, nd, clen, acc, bits, out, g);
  }

  lemma MeansClensGrow(f: bool, nl: nat, nd: nat, nb: nat, k: nat, acc: seq<nat>, bits: seq<bool>, out: seq<Byte>,
      g: Result)
    requires MeansClens(f, nl, nd, nb, k, acc, bits, out, g)
    ensures out <= g.1
  {
    var clen: seq<nat>, rest: seq<bool> :|
      ReadClens(bits, k, nb, acc) == Some((clen, rest)) && Accepts(clen) &&
      MeansLens(f, nl, nd, clen, [], rest, out, g);
    MeansLensGrow(f, nl, nd, clen, [], rest, out, g);
  }

  lemma {:induction false} MeansSizesGrow(f: bool, ns: seq<nat>, bits: seq<bool>, out: seq<Byte>, g: Result)
    requires MeansSizes(f, ns, bits, out, g)
    ensures out <= g.1
    decreases 3 - |ns|
  {
    var w := SizeBits(|ns|);
    if |ns| >= 3 {
      MeansClensGrow(f, ns[0], ns[1], ns[2], 0, Repeat(0, 19), bits, out, g);
    } else {
      MeansSizesGrow(f, ns + [ValueOf(bits[..w]) + SizeMin(|ns|)], bits[w..], out, g);
    }
  }

  lemma MeansDataGrow(f: bool, n: nat, bits: seq<bool>, out: seq<Byte>, g: Result)
    requires MeansStoredData(f, n, bits, out, g)
    ensures |out| + n <= |g.1| && out <= g.1
  {
    var b := ReadBytes(bits[..8 * n], n);
    MeansAfterGrow(f, bits[8 * n..], out + b, g);
    Behind(out, b, g.1);
  }

  lemma {:induction false} MeansHeadGrow(f: bool, hdr: seq<Byte>, bits: seq<bool>, out: seq<Byte>, g: Result)
    requires MeansStoredHead(f, hdr, bits, out, g)
    ensures out <= g.1
    decreases 4 - |hdr|
  {
    if |hdr| >= 4 {
      MeansDataGrow(f, Length(hdr, 0), bits, out, g);
    } else {
      MeansHeadGrow(f, hdr + [ByteOf(bits[..8])], bits[8..], out, g);
    }
  }

  lemma MeansStoredGrow(f: bool, bits: seq<bool>, out: seq<Byte>, g: Result)
    requires MeansStored(f, bits, out, g)
    ensures out <= g.1
  {
    StoredSome(f, bits, out, g);
    ThenGrow(f, InflateStored(bits, out), out, g);
  }

  lemma MeansRunGrow(f: bool, nl: nat, nd: nat, clen: seq<nat>, acc: seq<nat>, sym: nat, bits: seq<bool>,
      out: seq<Byte>, g: Result)
    requires MeansRun(f, nl, nd, clen, acc, sym, bits, out, g)
    ensures out <= g.1
  {
    var (run, rest) := ReadRun(sym, acc, bits).value;
    MeansLensGrow(f, nl, nd, clen, acc + run, rest, out, g);
  }

  /** How many bytes are certainly still to come. */
  function Pending(todo: Todo): nat {
    match todo
    case StoredData(_, n) => n
    case StoredByte(_, n, _) => n + 1
    case Literal(_, _, _, _) => 1
    case Copying(_, _, _, len, _) => len
    case _ => 0
  }

  /** Wherever decoding has got to, the output is a prefix of the text, and what is pending is missing from it. */
  lemma OutputIsPrefix(todo: Todo, bits: seq<bool>, out: seq<Byte>, g: Result)
    requires Goal(todo, bits, out, g)
    ensures out <= g.1 && |out| + Pending(todo) <= |g.1|
  {
    Unfold(todo, bits, out, g);
    MeansGrow(todo, bits, out, g);
  }

  lemma MeansGrow(todo: Todo, bits: seq<bool>, out: seq<Byte>, g: Result)
    requires Means(todo, bits, out, g)
    ensures out <= g.1 && |out| + Pending(todo) <= |g.1|
  {
    match todo
    case StoredByte(f, n, b) =>
      MeansDataGrow(f, n, bits, out + [b], g);
      Behind(out, [b], g.1);
    case Literal(f, lit, dst, b) =>
      MeansCodesGrow(f, lit, dst, bits, out + [b], g);
      Behind(out, [b], g.1);
    case StoredData(f, n) => MeansDataGrow(f, n, bits, out, g);
    case Copying(f, lit, dst, len, dist) => MeansCopyGrow(f, lit, dst, len, dist, bits, out, g);
    case _ => MeansGrowRest(todo, bits, out, g);
  }

  lemma MeansGrowRest(todo: Todo, bits: seq<bool>, out: seq<Byte>, g: Result)
    requires Means(todo, bits, out, g) && !todo.StoredByte? && !todo.Literal? && !todo.StoredData? && !todo.Copying?
    ensures out <= g.1
  {
    match todo
    case Blocks => MeansAfterGrow(false, bits, out, g);
    case StoredAlign(f) => MeansStoredGrow(f, bits, out, g);
    case StoredHead(f, hdr) => MeansHeadGrow(f, hdr, bits, out, g);
    case Sizes(f, ns) => MeansSizesGrow(f, ns, bits, out, g);
    case Clens(f, nl, nd, nb, k, acc) => MeansClensGrow(f, nl, nd, nb, k, acc, bits, out, g);
    case Lens(f, nl, nd, clen, acc) => MeansLensGrow(f, nl, nd, clen, acc, bits, out, g);
    case Run(f, nl, nd, clen, acc, sym) => MeansRunGrow(f, nl, nd, clen, acc, sym, bits, out, g);
    case Codes(f, lit, dst) => MeansCodesGrow(f, lit, dst, bits, out, g);
    case Sym(f, lit, dst, sym) => MeansSymGrow(f, lit, dst, sym, bits, out, g);
    case LengthBits(f, lit, dst, base, extra) => MeansLengthBitsGrow(f, lit, dst, base, extra, bits, out, g);
    case DistCode(f, lit, dst, len) => MeansDistGrow(f, lit, dst, len, bits, out, g);
    case DistBits(f, lit, dst, len, base, extra) => MeansDistBitsGrow(f, lit, dst, len, base, extra, bits, out, g);
    case End(f) => MeansAfterGrow(f, bits, out, g);
  }
}
