/** One step of the decoder at a time: what must be true of the bits, and what is left to do afterwards. */
module InflateSteps {
  import opened Bits
  import opened Canonical
  import opened Deflate
  import opened InflateMeaning

  type Bitstring = seq<bool>

  // ----- block heads

  /** A block head's three bits as a number: the final flag and the type above it. */
  lemma HeadValue(b: Bitstring)
    requires |b| == 3
    ensures var v := ValueOf(b);
            v < 8 && (v % 2 == 1 <==> b[0]) && (v / 2 == 0 <==> !b[1] && !b[2]) && (v / 2 == 1 <==> b[1] && !b[2]) &&
            (v / 2 == 2 <==> !b[1] && b[2])
  {
    assert b[1..][1..] == b[2..] && b[2..][1..] == [];
    assert ValueOf(b[2..]) == (if b[2] then 1 else 0) &&
      ValueOf(b[1..]) == (if b[1] then 1 else 0) + 2 * ValueOf(b[2..]);
  }

  lemma AfterSome(final: bool, bits: Bitstring, out: seq<Byte>, g: Result)
    requires MeansAfter(final, bits, out, g)
    ensures After(final, bits, out) == Some(g)
  {
    assert InnerKey(0);
  }

  lemma BlockSome(bits: Bitstring, out: seq<Byte>, g: Result)
    requires InflateFrom(bits, out) == Some(g)
    ensures |bits| >= 3 && !(bits[1] && bits[2])
    ensures !bits[1] && !bits[2] ==> ThenAfter(bits[0], InflateStored(bits[3..], out)) == Some(g)
    ensures bits[1] && !bits[2] ==> ThenAfter(bits[0], InflateCodes(FixedLit(), FixedDist(), bits[3..], out)) == Some(g)
    ensures !bits[1] && bits[2] ==>
              ReadTables(bits[3..]).Some? &&
              var (lit, dst, rest) := ReadTables(bits[3..]).value;
              ThenAfter(bits[0], InflateCodes(lit, dst, rest, out)) == Some(g)
  {
  }

  lemma FoldCodes(f: bool, lit: seq<nat>, dst: seq<nat>, bits: Bitstring, out: seq<Byte>, g: Result)
    requires ThenAfter(f, InflateCodes(lit, dst, bits, out)) == Some(g)
    ensures MeansCodes(f, lit, dst, bits, out, g)
  {
  }

  lemma FoldStored(f: bool, bits: Bitstring, out: seq<Byte>, g: Result)
    requires ThenAfter(f, InflateStored(bits, out)) == Some(g)
    ensures MeansStored(f, bits, out, g)
  {
  }

  lemma FoldAfter(f: bool, bits: Bitstring, out: seq<Byte>, g: Result)
    requires After(f, bits, out) == Some(g)
    ensures MeansAfter(f, bits, out, g)
  {
  }

  lemma BlockParts(bits: Bitstring, out: seq<Byte>, g: Result, lit: seq<nat>, dst: seq<nat>)
    requires MeansAfter(false, bits, out, g) && lit == FixedLit() && dst == FixedDist()
    ensures |bits| >= 3 && !(bits[1] && bits[2])
    ensures !bits[1] && !bits[2] ==> MeansStored(bits[0], bits[3..], out, g)
    ensures bits[1] && !bits[2] ==> MeansCodes(bits[0], lit, dst, bits[3..], out, g)
    ensures !bits[1] && bits[2] ==> MeansSizes(bits[0], [], bits[3..], out, g)
  {
    AfterSome(false, bits, out, g);
    BlockSome(bits, out, g);
    var rest := bits[3..];
    if !bits[1] && !bits[2] {
      FoldStored(bits[0], rest, out, g);
    } else if bits[1] {
      FoldCodes(bits[0], lit, dst, rest, out, g);
    } else {
      TablesSome(bits[0], rest, out, g);
    }
  }

  lemma BlockStep(bits: Bitstring, out: seq<Byte>, g: Result)
    requires Goal(Blocks, bits, out, g)
    ensures |bits| >= 3
    ensures var v, rest := ValueOf(bits[..3]), bits[3..];
            v / 2 < 3 &&
            (v / 2 == 0 ==> Goal(StoredAlign(v % 2 == 1), rest, out, g)) &&
            (v / 2 == 1 ==> Goal(Codes(v % 2 == 1, FixedLit(), FixedDist()), rest, out, g)) &&
            (v / 2 == 2 ==> Goal(Sizes(v % 2 == 1, []), rest, out, g))
  {
    Unfold(Blocks, bits, out, g);
    BlockParts(bits, out, g, FixedLit(), FixedDist());
    var b, rest := bits[..3], bits[3..];
    HeadValue(b);
    assert b[0] == bits[0] && b[1] == bits[1] && b[2] == bits[2];
    if !bits[1] && !bits[2] { Fold(StoredAlign(bits[0]), rest, out, g); }
    if bits[1] && !bits[2] { Fold(Codes(bits[0], FixedLit(), FixedDist()), rest, out, g); }
    if !bits[1] && bits[2] { Fold(Sizes(bits[0], []), rest, out, g); }
  }

  // ----- the head of a dynamic block

  lemma TablesParts(bits: Bitstring)
    requires ReadTables(bits).Some?
    ensures |bits| >= 14
    ensures var n0, n1, n2 := ValueOf(bits[..5]) + 257, ValueOf(bits[5..10]) + 1, ValueOf(bits[10..14]) + 4;
            n2 <= 19 && ReadPacked(n0, n1, n2, bits[14..]) == ReadTables(bits)
  {
    hide ValueOf, ReadPacked;
    assert Pow2(4) == 16;
  }

  lemma PackedParts(nl: nat, nd: nat, nb: nat, bits: Bitstring)
    requires nb <= 19 && ReadPacked(nl, nd, nb, bits).Some?
    ensures ReadClens(bits, 0, nb, Repeat(0, 19)).Some?
    ensures var (clen, rest) := ReadClens(bits, 0, nb, Repeat(0, 19)).value;
            Accepts(clen) && ReadLengths(clen, rest, nl + nd, []).Some? &&
            var (lens, rest') := ReadLengths(clen, rest, nl + nd, []).value;
            Accepts(lens[..nl]) && Accepts(lens[nl..]) &&
            ReadPacked(nl, nd, nb, bits) == Some((lens[..nl], lens[nl..], rest'))
  {
  }

  lemma FoldLens(f: bool, nl: nat, nd: nat, clen: seq<nat>, acc: seq<nat>, bits: Bitstring, lens: seq<nat>,
      rest: Bitstring, out: seq<Byte>, g: Result)
    requires ReadLengths(clen, bits, nl + nd, acc) == Some((lens, rest)) && Accepts(lens[..nl]) && Accepts(lens[nl..])
    requires ThenAfter(f, InflateCodes(lens[..nl], lens[nl..], rest, out)) == Some(g)
    ensures MeansLens(f, nl, nd, clen, acc, bits, out, g)
  {
  }

  lemma PackedSome(f: bool, nl: nat, nd: nat, nb: nat, bits: Bitstring, out: seq<Byte>, g: Result)
    requires nb <= 19 && ReadPacked(nl, nd, nb, bits).Some?
    requires var (lit, dst, rest) := ReadPacked(nl, nd, nb, bits).value;
             ThenAfter(f, InflateCodes(lit, dst, rest, out)) == Some(g)
    ensures MeansClens(f, nl, nd, nb, 0, Repeat(0, 19), bits, out, g)
  {
    PackedParts(nl, nd, nb, bits);
    var (clen, rest) := ReadClens(bits, 0, nb, Repeat(0, 19)).value;
    var (lens, rest') := ReadLengths(clen, rest, nl + nd, []).value;
    FoldLens(f, nl, nd, clen, [], rest, lens, rest', out, g);
  }

  lemma SizeSlices(bits: Bitstring)
    requires |bits| >= 14
    ensures bits[5..][..5] == bits[5..10] && bits[10..][..4] == bits[10..14] && bits[5..][5..] == bits[10..] &&
            bits[10..][4..] == bits[14..]
  {
  }

  lemma SizesBefore(f: bool, ns: seq<nat>, ns': seq<nat>, n: nat, bits: Bitstring, rest: Bitstring, out: seq<Byte>,
      g: Result)
    requires |ns| < 3 && |bits| >= SizeBits(|ns|) && n == ValueOf(bits[..SizeBits(|ns|)]) + SizeMin(|ns|)
    requires ns' == ns + [n] && rest == bits[SizeBits(|ns|)..] && MeansSizes(f, ns', rest, out, g)
    ensures MeansSizes(f, ns, bits, out, g)
  {
  }

  lemma SizesThree(f: bool, ns: seq<nat>, bits: Bitstring, out: seq<Byte>, g: Result)
    requires |ns| == 3 && MeansClens(f, ns[0], ns[1], ns[2], 0, Repeat(0, 19), bits, out, g)
    ensures MeansSizes(f, ns, bits, out, g)
  {
  }

  /** Reading the table sizes one by one is reading them together. */
  lemma TablesSome(f: bool, bits: Bitstring, out: seq<Byte>, g: Result)
    requires ReadTables(bits).Some?
    requires var (lit, dst, rest) := ReadTables(bits).value; ThenAfter(f, InflateCodes(lit, dst, rest, out)) == Some(g)
    ensures MeansSizes(f, [], bits, out, g)
  {
    TablesParts(bits);
    var n0, n1, n2 := ValueOf(bits[..5]) + 257, ValueOf(bits[5..10]) + 1, ValueOf(bits[10..14]) + 4;
    PackedSome(f, n0, n1, n2, bits[14..], out, g);
    SizesSome(f, n0, n1, n2, bits, out, g);
  }

  lemma SizesSome(f: bool, n0: nat, n1: nat, n2: nat, bits: Bitstring, out: seq<Byte>, g: Result)
    requires |bits| >= 14 && n0 == ValueOf(bits[..5]) + 257 && n1 == ValueOf(bits[5..10]) + 1 &&
             n2 == ValueOf(bits[10..14]) + 4
    requires MeansClens(f, n0, n1, n2, 0, Repeat(0, 19), bits[14..], out, g)
    ensures MeansSizes(f, [], bits, out, g)
  {
    SizeSlices(bits);
    var s0: seq<nat>, s1: seq<nat>, s2: seq<nat>, s3: seq<nat> := [], [n0], [n0, n1], [n0, n1, n2];
    SizesThree(f, s3, bits[14..], out, g);
    SizesBefore(f, s2, s3, n2, bits[10..], bits[14..], out, g);
    SizesBefore(f, s1, s2, n1, bits[5..], bits[10..], out, g);
    SizesBefore(f, s0, s1, n0, bits, bits[5..], out, g);
  }

  lemma SizesStep(f: bool, ns: seq<nat>, bits: Bitstring, out: seq<Byte>, g: Result)
    requires Goal(Sizes(f, ns), bits, out, g) && |ns| < 3
    ensures var w := SizeBits(|ns|);
            |bits| >= w && Goal(Sizes(f, ns + [ValueOf(bits[..w]) + SizeMin(|ns|)]), bits[w..], out, g)
  {
    Unfold(Sizes(f, ns), bits, out, g);
    var w := SizeBits(|ns|);
    Fold(Sizes(f, ns + [ValueOf(bits[..w]) + SizeMin(|ns|)]), bits[w..], out, g);
  }

  lemma SizesDone(f: bool, ns: seq<nat>, bits: Bitstring, out: seq<Byte>, g: Result)
    requires Goal(Sizes(f, ns), bits, out, g) && |ns| == 3
    ensures ns[2] <= 19 && Goal(Clens(f, ns[0], ns[1], ns[2], 0, Repeat(0, 19)), bits, out, g)
  {
    Unfold(Sizes(f, ns), bits, out, g);
    Fold(Clens(f, ns[0], ns[1], ns[2], 0, Repeat(0, 19)), bits, out, g);
  }

  lemma ClensStep(f: bool, nl: nat, nd: nat, nb: nat, k: nat, acc: seq<nat>, bits: Bitstring, out: seq<Byte>, g: Result)
    requires Goal(Clens(f, nl, nd, nb, k, acc), bits, out, g) && k < nb
    ensures nb <= 19 && |acc| == 19 && |bits| >= 3
    ensures Goal(Clens(f, nl, nd, nb, k + 1, acc[CLEN_ORDER[k] := ValueOf(bits[..3])]), bits[3..], out, g)
  {
    hide MeansLens, ValueOf, Accepts;
    Unfold(Clens(f, nl, nd, nb, k, acc), bits, out, g);
    Fold(Clens(f, nl, nd, nb, k + 1, acc[CLEN_ORDER[k] := ValueOf(bits[..3])]), bits[3..], out, g);
  }

  lemma ClensDone(f: bool, nl: nat, nd: nat, nb: nat, acc: seq<nat>, bits: Bitstring, out: seq<Byte>, g: Result)
    requires Goal(Clens(f, nl, nd, nb, nb, acc), bits, out, g)
    ensures |acc| == 19 && Accepts(acc) && Goal(Lens(f, nl, nd, acc, []), bits, out, g)
  {
    Unfold(Clens(f, nl, nd, nb, nb, acc), bits, out, g);
    Fold(Lens(f, nl, nd, acc, []), bits, out, g);
  }

  // ----- the packed code lengths

  lemma LensSome(f: bool, nl: nat, nd: nat, clen: seq<nat>, acc: seq<nat>, bits: Bitstring, out: seq<Byte>, g: Result)
    requires MeansLens(f, nl, nd, clen, acc, bits, out, g)
    ensures InLens(f, nl, nd, clen, acc, bits, out) == Some(g)
  {
    assert InnerKey(0);
  }

  lemma LengthsParts(clen: seq<nat>, bits: Bitstring, total: nat, acc: seq<nat>)
    requires ReadLengths(clen, bits, total, acc).Some? && |acc| < total
    ensures ReadSym(clen, bits).Some?
    ensures var (sym, rest) := ReadSym(clen, bits).value;
            ReadRun(sym, acc, rest).Some? &&
            var (run, rest') := ReadRun(sym, acc, rest).value;
            ReadLengths(clen, bits, total, acc) == ReadLengths(clen, rest', total, acc + run)
  {
  }

  lemma LensStep(f: bool, nl: nat, nd: nat, clen: seq<nat>, acc: seq<nat>, bits: Bitstring, out: seq<Byte>, g: Result)
    requires Goal(Lens(f, nl, nd, clen, acc), bits, out, g) && |acc| < nl + nd
    ensures ReadSym(clen, bits).Some?
    ensures var (sym, rest) := ReadSym(clen, bits).value; Goal(Run(f, nl, nd, clen, acc, sym), rest, out, g)
  {
    Unfold(Lens(f, nl, nd, clen, acc), bits, out, g);
    LensSome(f, nl, nd, clen, acc, bits, out, g);
    LensRun(f, nl, nd, clen, acc, bits, out, g);
    var (sym, rest) := ReadSym(clen, bits).value;
    Fold(Run(f, nl, nd, clen, acc, sym), rest, out, g);
  }

  lemma InLensSome(f: bool, nl: nat, nd: nat, clen: seq<nat>, acc: seq<nat>, bits: Bitstring, out: seq<Byte>, g: Result)
    requires InLens(f, nl, nd, clen, acc, bits, out) == Some(g)
    ensures ReadLengths(clen, bits, nl + nd, acc).Some?
  {
  }

  lemma FoldRun(f: bool, nl: nat, nd: nat, clen: seq<nat>, acc: seq<nat>, sym: nat, bits: Bitstring, run: seq<nat>,
      rest: Bitstring, out: seq<Byte>, g: Result)
    requires ReadRun(sym, acc, bits) == Some((run, rest)) && MeansLens(f, nl, nd, clen, acc + run, rest, out, g)
    ensures MeansRun(f, nl, nd, clen, acc, sym, bits, out, g)
  {
  }

  lemma LensRun(f: bool, nl: nat, nd: nat, clen: seq<nat>, acc: seq<nat>, bits: Bitstring, out: seq<Byte>, g: Result)
    requires InLens(f, nl, nd, clen, acc, bits, out) == Some(g) && |acc| < nl + nd
    ensures ReadSym(clen, bits).Some?
    ensures var (sym, rest) := ReadSym(clen, bits).value; MeansRun(f, nl, nd, clen, acc, sym, rest, out, g)
  {
    hide InLens, ReadLengths, ReadSym, ReadRun, MeansLens, MeansRun;
    InLensSome(f, nl, nd, clen, acc, bits, out, g);
    LengthsParts(clen, bits, nl + nd, acc);
    var (sym, rest) := ReadSym(clen, bits).value;
    var (run, rest') := ReadRun(sym, acc, rest).value;
    LensRest(f, nl, nd, clen, acc, bits, acc + run, rest', out, g);
    FoldRun(f, nl, nd, clen, acc, sym, rest, run, rest', out, g);
  }

  lemma LensRest(f: bool, nl: nat, nd: nat, clen: seq<nat>, acc: seq<nat>, bits: Bitstring, acc': seq<nat>,
      rest: Bitstring, out: seq<Byte>, g: Result)
    requires InLens(f, nl, nd, clen, acc, bits, out) == Some(g)
    requires ReadLengths(clen, bits, nl + nd, acc) == ReadLengths(clen, rest, nl + nd, acc')
    ensures MeansLens(f, nl, nd, clen, acc', rest, out, g)
  {
  }

  /** How many extra bits a run symbol has, and its least length. */
  function RunBits(sym: nat): nat { if sym == 16 then 2 else if sym == 17 then 3 else 7 }

  function RunMin(sym: nat): nat { if sym == 18 then 11 else 3 }

  lemma RunPlain(f: bool, nl: nat, nd: nat, clen: seq<nat>, acc: seq<nat>, sym: nat, bits: Bitstring, out: seq<Byte>,
      g: Result)
    requires Goal(Run(f, nl, nd, clen, acc, sym), bits, out, g) && sym < 16
    ensures Goal(Lens(f, nl, nd, clen, acc + [sym]), bits, out, g)
  {
    Unfold(Run(f, nl, nd, clen, acc, sym), bits, out, g);
    Fold(Lens(f, nl, nd, clen, acc + [sym]), bits, out, g);
  }

  lemma RunParts(sym: nat, acc: seq<nat>, bits: Bitstring)
    requires ReadRun(sym, acc, bits).Some? && 16 <= sym
    ensures sym <= 18 && (sym == 16 ==> acc != []) && |bits| >= RunBits(sym)
    ensures var n := RunMin(sym) + ValueOf(bits[..RunBits(sym)]);
            ReadRun(sym, acc, bits) == Some((Repeat(if sym == 16 then acc[|acc| - 1] else 0, n), bits[RunBits(sym)..]))
  {
  }

  lemma RunStep(f: bool, nl: nat, nd: nat, clen: seq<nat>, acc: seq<nat>, sym: nat, bits: Bitstring, out: seq<Byte>,
      g: Result)
    requires Goal(Run(f, nl, nd, clen, acc, sym), bits, out, g) && 16 <= sym
    ensures sym <= 18 && (sym == 16 ==> acc != []) && |bits| >= RunBits(sym)
    ensures var n := RunMin(sym) + ValueOf(bits[..RunBits(sym)]);
            Goal(Lens(f, nl, nd, clen, acc + Repeat(if sym == 16 then acc[|acc| - 1] else 0, n)),
                 bits[RunBits(sym)..], out, g)
  {
    Unfold(Run(f, nl, nd, clen, acc, sym), bits, out, g);
    RunParts(sym, acc, bits);
    var (run, rest) := ReadRun(sym, acc, bits).value;
    Fold(Lens(f, nl, nd, clen, acc + run), rest, out, g);
  }

  lemma LensParts(f: bool, nl: nat, nd: nat, clen: seq<nat>, acc: seq<nat>, bits: Bitstring, out: seq<Byte>, g: Result)
    requires InLens(f, nl, nd, clen, acc, bits, out) == Some(g) && |acc| >= nl + nd
    ensures |acc| == nl + nd && Accepts(acc[..nl]) && Accepts(acc[nl..])
    ensures ThenAfter(f, InflateCodes(acc[..nl], acc[nl..], bits, out)) == Some(g)
  {
  }

  lemma LensDone(f: bool, nl: nat, nd: nat, clen: seq<nat>, acc: seq<nat>, bits: Bitstring, out: seq<Byte>, g: Result)
    requires Goal(Lens(f, nl, nd, clen, acc), bits, out, g) && |acc| >= nl + nd
    ensures |acc| == nl + nd && Accepts(acc[..nl]) && Accepts(acc[nl..]) &&
            Goal(Codes(f, acc[..nl], acc[nl..]), bits, out, g)
  {
    Unfold(Lens(f, nl, nd, clen, acc), bits, out, g);
    LensSome(f, nl, nd, clen, acc, bits, out, g);
    LensParts(f, nl, nd, clen, acc, bits, out, g);
    FoldCodes(f, acc[..nl], acc[nl..], bits, out, g);
    Fold(Codes(f, acc[..nl], acc[nl..]), bits, out, g);
  }

  // ----- symbols

  lemma CodesSome(f: bool, lit: seq<nat>, dst: seq<nat>, bits: Bitstring, out: seq<Byte>, g: Result)
    requires MeansCodes(f, lit, dst, bits, out, g)
    ensures ThenAfter(f, InflateCodes(lit, dst, bits, out)) == Some(g)
  {
    assert InnerKey(0);
  }

  lemma CodesParts(f: bool, lit: seq<nat>, dst: seq<nat>, bits: Bitstring, out: seq<Byte>, g: Result)
    requires ThenAfter(f, InflateCodes(lit, dst, bits, out)) == Some(g)
    ensures ReadSym(lit, bits).Some?
    ensures var (sym, rest) := ReadSym(lit, bits).value;
            (sym < 256 ==> ThenAfter(f, InflateCodes(lit, dst, rest, out + [sym])) == Some(g)) &&
            (sym == 256 ==> After(f, rest, out) == Some(g)) &&
            (sym > 256 ==>
               ReadMatch(dst, sym, rest).Some? &&
               var (t, rest') := ReadMatch(dst, sym, rest).value;
               TokenOk(t, |out|) && ThenAfter(f, InflateCodes(lit, dst, rest', ExpandToken(t, out))) == Some(g))
  {
  }

  lemma MatchParts(dst: seq<nat>, sym: nat, bits: Bitstring)
    requires ReadMatch(dst, sym, bits).Some?
    ensures 257 <= sym <= 285
    ensures var base, extra := LENGTH_BASE[sym - 257], LENGTH_EXTRA[sym - 257];
            extra <= |bits| && ReadSym(dst, bits[extra..]).Some? &&
            var (d, r2) := ReadSym(dst, bits[extra..]).value;
            d < 30 && DIST_EXTRA[d] <= |r2| &&
            ReadMatch(dst, sym, bits) ==
            Some((Match(base + ValueOf(bits[..extra]), DIST_BASE[d] + ValueOf(r2[..DIST_EXTRA[d]])),
              r2[DIST_EXTRA[d]..]))
  {
    hide ValueOf, ReadSym;
  }

  lemma FoldMatch(f: bool, lit: seq<nat>, dst: seq<nat>, len: nat, dist: nat, bits: Bitstring, out: seq<Byte>,
      g: Result)
    requires TokenOk(Match(len, dist), |out|) &&
             ThenAfter(f, InflateCodes(lit, dst, bits, ExpandToken(Match(len, dist), out))) == Some(g)
    ensures MeansMatch(f, lit, dst, len, dist, bits, out, g)
  {
    FoldCodes(f, lit, dst, bits, CopyMatch(out, len, dist), g);
  }

  lemma FoldDistBits(f: bool, lit: seq<nat>, dst: seq<nat>, len: nat, base: nat, extra: nat, bits: Bitstring, dist: nat,
      rest: Bitstring, out: seq<Byte>, g: Result)
    requires extra <= |bits| && dist == base + ValueOf(bits[..extra]) && rest == bits[extra..]
    requires MeansMatch(f, lit, dst, len, dist, rest, out, g)
    ensures MeansDistBits(f, lit, dst, len, base, extra, bits, out, g)
  {
  }

  lemma FoldDist(f: bool, lit: seq<nat>, dst: seq<nat>, len: nat, bits: Bitstring, d: nat, rest: Bitstring,
      out: seq<Byte>, g: Result)
    requires ReadSym(dst, bits) == Some((d, rest)) && d < 30
    requires MeansDistBits(f, lit, dst, len, DIST_BASE[d], DIST_EXTRA[d], rest, out, g)
    ensures MeansDist(f, lit, dst, len, bits, out, g)
  {
  }

  lemma FoldLengthBits(f: bool, lit: seq<nat>, dst: seq<nat>, base: nat, extra: nat, bits: Bitstring, len: nat,
      rest: Bitstring, out: seq<Byte>, g: Result)
    requires extra <= |bits| && len == base + ValueOf(bits[..extra]) && rest == bits[extra..] &&
             MeansDist(f, lit, dst, len, rest, out, g)
    ensures MeansLengthBits(f, lit, dst, base, extra, bits, out, g)
  {
    hide MeansDist, ValueOf;
  }

  lemma FoldLength(f: bool, lit: seq<nat>, dst: seq<nat>, sym: nat, bits: Bitstring, len: nat, rest: Bitstring,
      out: seq<Byte>, g: Result)
    requires 257 <= sym <= 285 && LENGTH_EXTRA[sym - 257] <= |bits|
    requires len == LENGTH_BASE[sym - 257] + ValueOf(bits[..LENGTH_EXTRA[sym - 257]]) &&
             rest == bits[LENGTH_EXTRA[sym - 257]..]
    requires MeansDist(f, lit, dst, len, rest, out, g)
    ensures MeansSym(f, lit, dst, sym, bits, out, g)
  {
    FoldLengthBits(f, lit, dst, LENGTH_BASE[sym - 257], LENGTH_EXTRA[sym - 257], bits, len, rest, out, g);
  }

  lemma FoldSym(f: bool, lit: seq<nat>, dst: seq<nat>, sym: nat, bits: Bitstring, t: Token, rest: Bitstring,
      out: seq<Byte>, g: Result)
    requires ReadMatch(dst, sym, bits) == Some((t, rest)) && TokenOk(t, |out|)
    requires ThenAfter(f, InflateCodes(lit, dst, rest, ExpandToken(t, out))) == Some(g)
    ensures sym > 256 && MeansSym(f, lit, dst, sym, bits, out, g)
  {
    MatchParts(dst, sym, bits);
    var r1 := bits[LENGTH_EXTRA[sym - 257]..];
    var (d, r2) := ReadSym(dst, r1).value;
    FoldMatch(f, lit, dst, t.len, t.dist, rest, out, g);
    FoldDistBits(f, lit, dst, t.len, DIST_BASE[d], DIST_EXTRA[d], r2, t.dist, rest, out, g);
    FoldDist(f, lit, dst, t.len, r1, d, r2, out, g);
    FoldLength(f, lit, dst, sym, bits, t.len, r1, out, g);
  }

  lemma CodesStep(f: bool, lit: seq<nat>, dst: seq<nat>, bits: Bitstring, out: seq<Byte>, g: Result)
    requires Goal(Codes(f, lit, dst), bits, out, g)
    ensures ReadSym(lit, bits).Some?
    ensures var (sym, rest) := ReadSym(lit, bits).value;
            if sym < 256 then Goal(Literal(f, lit, dst, sym), rest, out, g)
            else Goal(Sym(f, lit, dst, sym), rest, out, g)
  {
    Unfold(Codes(f, lit, dst), bits, out, g);
    CodesSome(f, lit, dst, bits, out, g);
    CodesParts(f, lit, dst, bits, out, g);
    var (sym, rest) := ReadSym(lit, bits).value;
    if sym < 256 {
      FoldCodes(f, lit, dst, rest, out + [sym], g);
      Fold(Literal(f, lit, dst, sym), rest, out, g);
    } else {
      if sym == 256 {
        FoldAfter(f, rest, out, g);
      } else {
        var (t, rest') := ReadMatch(dst, sym, rest).value;
        FoldSym(f, lit, dst, sym, rest, t, rest', out, g);
      }
      Fold(Sym(f, lit, dst, sym), rest, out, g);
    }
  }

  lemma LiteralStep(f: bool, lit: seq<nat>, dst: seq<nat>, b: Byte, bits: Bitstring, out: seq<Byte>, g: Result)
    requires Goal(Literal(f, lit, dst, b), bits, out, g)
    ensures Goal(Codes(f, lit, dst), bits, out + [b], g)
  {
    Unfold(Literal(f, lit, dst, b), bits, out, g);
    Fold(Codes(f, lit, dst), bits, out + [b], g);
  }

  lemma SymEnd(f: bool, lit: seq<nat>, dst: seq<nat>, bits: Bitstring, out: seq<Byte>, g: Result)
    requires Goal(Sym(f, lit, dst, 256), bits, out, g)
    ensures Goal(End(f), bits, out, g)
  {
    Unfold(Sym(f, lit, dst, 256), bits, out, g);
    Fold(End(f), bits, out, g);
  }

  lemma SymLength(f: bool, lit: seq<nat>, dst: seq<nat>, sym: nat, bits: Bitstring, out: seq<Byte>, g: Result)
    requires Goal(Sym(f, lit, dst, sym), bits, out, g) && sym > 256
    ensures sym <= 285 && Goal(LengthBits(f, lit, dst, LENGTH_BASE[sym - 257], LENGTH_EXTRA[sym - 257]), bits, out, g)
  {
    Unfold(Sym(f, lit, dst, sym), bits, out, g);
    Fold(LengthBits(f, lit, dst, LENGTH_BASE[sym - 257], LENGTH_EXTRA[sym - 257]), bits, out, g);
  }

  lemma LengthStep(f: bool, lit: seq<nat>, dst: seq<nat>, base: nat, extra: nat, bits: Bitstring, out: seq<Byte>,
      g: Result)
    requires Goal(LengthBits(f, lit, dst, base, extra), bits, out, g)
    ensures |bits| >= extra && Goal(DistCode(f, lit, dst, base + ValueOf(bits[..extra])), bits[extra..], out, g)
  {
    Unfold(LengthBits(f, lit, dst, base, extra), bits, out, g);
    Fold(DistCode(f, lit, dst, base + ValueOf(bits[..extra])), bits[extra..], out, g);
  }

  lemma DistStep(f: bool, lit: seq<nat>, dst: seq<nat>, len: nat, bits: Bitstring, out: seq<Byte>, g: Result)
    requires Goal(DistCode(f, lit, dst, len), bits, out, g)
    ensures ReadSym(dst, bits).Some?
    ensures var (d, rest) := ReadSym(dst, bits).value;
            d < 30 && Goal(DistBits(f, lit, dst, len, DIST_BASE[d], DIST_EXTRA[d]), rest, out, g)
  {
    Unfold(DistCode(f, lit, dst, len), bits, out, g);
    var (d, rest) := ReadSym(dst, bits).value;
    Fold(DistBits(f, lit, dst, len, DIST_BASE[d], DIST_EXTRA[d]), rest, out, g);
  }

  lemma DistBitsStep(f: bool, lit: seq<nat>, dst: seq<nat>, len: nat, base: nat, extra: nat, bits: Bitstring,
      out: seq<Byte>, g: Result)
    requires Goal(DistBits(f, lit, dst, len, base, extra), bits, out, g)
    ensures |bits| >= extra
    ensures var dist := base + ValueOf(bits[..extra]);
            TokenOk(Match(len, dist), |out|) && Goal(Copying(f, lit, dst, len, dist), bits[extra..], out, g)
  {
    Unfold(DistBits(f, lit, dst, len, base, extra), bits, out, g);
    Fold(Copying(f, lit, dst, len, base + ValueOf(bits[..extra])), bits[extra..], out, g);
  }

  lemma {:induction false} CopyTwice(out: seq<Byte>, a: nat, b: nat, dist: nat)
    requires 0 < dist <= |out|
    ensures CopyMatch(CopyMatch(out, a, dist), b, dist) == CopyMatch(out, a + b, dist)
    decreases a
  {
    if a > 0 { CopyTwice(out + [out[|out| - dist]], a - 1, b, dist); }
  }

  lemma CopyParts(out: seq<Byte>, a: nat, b: nat, n: nat, dist: nat, out': seq<Byte>, end: seq<Byte>)
    requires 0 < dist <= |out| && a + b == n && out' == CopyMatch(out, a, dist) && end == CopyMatch(out, n, dist)
    ensures dist <= |out'| && end == CopyMatch(out', b, dist)
  {
    CopyTwice(out, a, b, dist);
  }

  lemma UnfoldCopy(f: bool, lit: seq<nat>, dst: seq<nat>, len: nat, dist: nat, bits: Bitstring, out: seq<Byte>,
      g: Result)
    requires Goal(Copying(f, lit, dst, len, dist), bits, out, g)
    ensures 0 < dist <= |out| && MeansCodes(f, lit, dst, bits, CopyMatch(out, len, dist), g)
  {
    Unfold(Copying(f, lit, dst, len, dist), bits, out, g);
  }

  lemma FoldCopy(f: bool, lit: seq<nat>, dst: seq<nat>, len: nat, dist: nat, bits: Bitstring, out: seq<Byte>,
      end: seq<Byte>, g: Result)
    requires 0 < dist <= |out| && end == CopyMatch(out, len, dist) && MeansCodes(f, lit, dst, bits, end, g)
    ensures Goal(Copying(f, lit, dst, len, dist), bits, out, g)
  {
    Fold(Copying(f, lit, dst, len, dist), bits, out, g);
  }

  lemma CopyStep(f: bool, lit: seq<nat>, dst: seq<nat>, len: nat, dist: nat, bits: Bitstring, out: seq<Byte>, g: Result,
      k: nat, out': seq<Byte>)
    requires Goal(Copying(f, lit, dst, len, dist), bits, out, g) && k <= len
    requires 0 < dist <= |out| ==> out' == CopyMatch(out, k, dist)
    ensures 0 < dist <= |out| && Goal(Copying(f, lit, dst, len - k, dist), bits, out', g)
  {
    UnfoldCopy(f, lit, dst, len, dist, bits, out, g);
    var end := CopyMatch(out, len, dist);
    CopyParts(out, k, len - k, len, dist, out', end);
    FoldCopy(f, lit, dst, len - k, dist, bits, out', end, g);
  }

  lemma CopyDone(f: bool, lit: seq<nat>, dst: seq<nat>, dist: nat, bits: Bitstring, out: seq<Byte>, g: Result)
    requires Goal(Copying(f, lit, dst, 0, dist), bits, out, g)
    ensures Goal(Codes(f, lit, dst), bits, out, g)
  {
    Unfold(Copying(f, lit, dst, 0, dist), bits, out, g);
    Fold(Codes(f, lit, dst), bits, out, g);
  }

  // ----- the end of a block

  lemma EndStep(bits: Bitstring, out: seq<Byte>, g: Result)
    requires Goal(End(false), bits, out, g)
    ensures Goal(Blocks, bits, out, g)
  {
    Unfold(End(false), bits, out, g);
    Fold(Blocks, bits, out, g);
  }

  lemma EndLast(bits: Bitstring, out: seq<Byte>, g: Result)
    requires Goal(End(true), bits, out, g)
    ensures g == (bits, out)
  {
    Unfold(End(true), bits, out, g);
    AfterSome(true, bits, out, g);
  }

  // ----- stored blocks

  lemma StoredSome(f: bool, bits: Bitstring, out: seq<Byte>, g: Result)
    requires MeansStored(f, bits, out, g)
    ensures ThenAfter(f, InflateStored(bits, out)) == Some(g)
  {
    assert InnerKey(0);
  }

  lemma StoredParts(bits: Bitstring, out: seq<Byte>)
    requires InflateStored(bits, out).Some?
    ensures |bits| % 8 <= |bits|
    ensures var b := bits[|bits| % 8..];
            |b| >= 32 &&
            var len := ValueOf(b[..16]);
            len + ValueOf(b[16..32]) == 0xFFFF && |b| >= 32 + 8 * len &&
            InflateStored(bits, out) == Some((b[32 + 8 * len..], out + ReadBytes(b[32..32 + 8 * len], len)))
  {
    hide ValueOf, ReadBytes;
  }

  /** Two bytes read one after the other are a sixteen-bit number. */
  lemma TwoBytes(b: Bitstring, lo: nat, hi: nat, n: nat)
    requires n == 8 && lo < Pow2(n) && hi < Pow2(n) && b == BitsOf(lo, n) + BitsOf(hi, n)
    ensures ValueOf(b) == lo + 256 * hi
  {
    BitsOfAppend(lo, n, hi, n);
    AppendBound(lo, n, hi, n);
    var v := lo + Shl(hi, n);
    ValueOfBitsOf(v, n + n);
    assert b == BitsOf(v, n + n);
    ShlEight(hi);
  }

  lemma SixteenBits(b: Bitstring)
    requires |b| == 16
    ensures var lo: nat, hi: nat := ByteOf(b[..8]), ByteOf(b[8..]); ValueOf(b) == lo + 256 * hi
  {
    hide ValueOf, BitsOf;
    var n: nat := 8;
    BitsOfValueOf(b[..8]);
    BitsOfValueOf(b[8..]);
    assert b == b[..8] + b[8..];
    TwoBytes(b, ValueOf(b[..8]), ValueOf(b[8..]), n);
  }

  lemma FoldHead(f: bool, hdr: seq<Byte>, hdr': seq<Byte>, bits: Bitstring, rest: Bitstring, out: seq<Byte>, g: Result)
    requires |hdr| < 4 && 8 <= |bits| && hdr' == hdr + [ByteOf(bits[..8])] && rest == bits[8..] &&
             MeansStoredHead(f, hdr', rest, out, g)
    ensures MeansStoredHead(f, hdr, bits, out, g)
  {
  }

  lemma FoldHeadDone(f: bool, hdr: seq<Byte>, bits: Bitstring, out: seq<Byte>, g: Result)
    requires |hdr| == 4 && Length(hdr, 0) + Length(hdr, 2) == 0xFFFF && MeansStoredData(f, Length(hdr, 0), bits, out, g)
    ensures MeansStoredHead(f, hdr, bits, out, g)
  {
  }

  lemma FoldData(f: bool, n: nat, bits: Bitstring, rest: Bitstring, out: seq<Byte>, out': seq<Byte>, g: Result)
    requires 8 * n <= |bits| && rest == bits[8 * n..] && out' == out + ReadBytes(bits[..8 * n], n) &&
             After(f, rest, out') == Some(g)
    ensures MeansStoredData(f, n, bits, out, g)
  {
  }

  lemma HeadSlices(b: Bitstring)
    requires |b| >= 32
    ensures b[..16][..8] == b[..8] && b[..16][8..] == b[8..][..8] && b[16..32][..8] == b[16..][..8] &&
            b[16..32][8..] == b[24..][..8]
    ensures b[8..][8..] == b[16..] && b[16..][8..] == b[24..] && b[24..][8..] == b[32..]
  {
  }

  lemma HeadLengths(h: seq<Byte>, b0: Byte, b1: Byte, b2: Byte, b3: Byte)
    requires h == [b0] + [b1] + [b2] + [b3]
    ensures var c0: nat, c1: nat, c2: nat, c3: nat := b0, b1, b2, b3;
            Length(h, 0) == c0 + 256 * c1 && Length(h, 2) == c2 + 256 * c3
  {
  }

  /** A stored block's four header bytes, read one by one. */
  lemma HeadSome(f: bool, b: Bitstring, len: nat, out: seq<Byte>, g: Result)
    requires |b| >= 32 && len == ValueOf(b[..16]) && len + ValueOf(b[16..32]) == 0xFFFF &&
             MeansStoredData(f, len, b[32..], out, g)
    ensures MeansStoredHead(f, [], b, out, g)
  {
    hide MeansStoredHead, MeansStoredData, ValueOf, ByteOf, Length;
    HeadSlices(b);
    SixteenBits(b[..16]);
    SixteenBits(b[16..32]);
    var h1: seq<Byte> := [ByteOf(b[..8])];
    var h2 := h1 + [ByteOf(b[8..][..8])];
    var h3 := h2 + [ByteOf(b[16..][..8])];
    var h4 := h3 + [ByteOf(b[24..][..8])];
    HeadLengths(h4, ByteOf(b[..8]), ByteOf(b[8..][..8]), ByteOf(b[16..][..8]), ByteOf(b[24..][..8]));
    FoldHeadDone(f, h4, b[32..], out, g);
    FoldHead(f, h3, h4, b[24..], b[32..], out, g);
    FoldHead(f, h2, h3, b[16..], b[24..], out, g);
    FoldHead(f, h1, h2, b[8..], b[16..], out, g);
    var none: seq<Byte> := [];
    FoldHead(f, none, h1, b, b[8..], out, g);
  }

  lemma DataSlices(b: Bitstring, n: nat)
    requires |b| >= 32 + 8 * n
    ensures b[32..][..8 * n] == b[32..32 + 8 * n] && b[32..][8 * n..] == b[32 + 8 * n..]
  {
  }

  lemma AlignStep(f: bool, bits: Bitstring, skip: nat, out: seq<Byte>, g: Result)
    requires Goal(StoredAlign(f), bits, out, g) && skip == |bits| % 8
    ensures skip <= |bits| && Goal(StoredHead(f, []), bits[skip..], out, g)
  {
    Unfold(StoredAlign(f), bits, out, g);
    StoredSome(f, bits, out, g);
    StoredParts(bits, out);
    var b := bits[skip..];
    var len := ValueOf(b[..16]);
    DataSlices(b, len);
    FoldData(f, len, b[32..], b[32 + 8 * len..], out, out + ReadBytes(b[32..32 + 8 * len], len), g);
    HeadSome(f, b, len, out, g);
    Fold(StoredHead(f, []), b, out, g);
  }

  lemma HeadStep(f: bool, hdr: seq<Byte>, bits: Bitstring, out: seq<Byte>, g: Result)
    requires Goal(StoredHead(f, hdr), bits, out, g) && |hdr| < 4
    ensures |bits| >= 8 && Goal(StoredHead(f, hdr + [ByteOf(bits[..8])]), bits[8..], out, g)
  {
    Unfold(StoredHead(f, hdr), bits, out, g);
    Fold(StoredHead(f, hdr + [ByteOf(bits[..8])]), bits[8..], out, g);
  }

  lemma HeadDone(f: bool, hdr: seq<Byte>, bits: Bitstring, out: seq<Byte>, g: Result)
    requires Goal(StoredHead(f, hdr), bits, out, g) && |hdr| == 4
    ensures Length(hdr, 0) + Length(hdr, 2) == 0xFFFF && Goal(StoredData(f, Length(hdr, 0)), bits, out, g)
  {
    Unfold(StoredHead(f, hdr), bits, out, g);
    Fold(StoredData(f, Length(hdr, 0)), bits, out, g);
  }

  lemma DataNext(f: bool, n: nat, bits: Bitstring, out: seq<Byte>, g: Result)
    requires MeansStoredData(f, n, bits, out, g) && n > 0
    ensures |bits| >= 8 && MeansStoredData(f, n - 1, bits[8..], out + [ByteOf(bits[..8])], g)
  {
    var b := ByteOf(bits[..8]);
    assert bits[..8 * n][..8] == bits[..8] && bits[..8 * n][8..] == bits[8..][..8 * (n - 1)];
    assert bits[8..][8 * (n - 1)..] == bits[8 * n..];
    assert out + ([b] + ReadBytes(bits[8..][..8 * (n - 1)], n - 1)) == (out + [b]) + ReadBytes(bits[8..][..8 * (n - 1)],
      n - 1);
  }

  lemma DataStep(f: bool, n: nat, bits: Bitstring, out: seq<Byte>, g: Result)
    requires Goal(StoredData(f, n), bits, out, g) && n > 0
    ensures |bits| >= 8 && Goal(StoredByte(f, n - 1, ByteOf(bits[..8])), bits[8..], out, g)
  {
    Unfold(StoredData(f, n), bits, out, g);
    DataNext(f, n, bits, out, g);
    Fold(StoredByte(f, n - 1, ByteOf(bits[..8])), bits[8..], out, g);
  }

  lemma ByteStep(f: bool, n: nat, b: Byte, bits: Bitstring, out: seq<Byte>, g: Result)
    requires Goal(StoredByte(f, n, b), bits, out, g)
    ensures Goal(StoredData(f, n), bits, out + [b], g)
  {
    Unfold(StoredByte(f, n, b), bits, out, g);
    Fold(StoredData(f, n), bits, out + [b], g);
  }

  lemma DataDone(f: bool, bits: Bitstring, out: seq<Byte>, g: Result)
    requires Goal(StoredData(f, 0), bits, out, g)
    ensures Goal(End(f), bits, out, g)
  {
    Unfold(StoredData(f, 0), bits, out, g);
    assert bits[0..] == bits && out + [] == out;
    Fold(End(f), bits, out, g);
  }
}
