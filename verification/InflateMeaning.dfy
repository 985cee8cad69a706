/** What is left to do at each point where the decoder can be interrupted, and what doing it gives. */
module InflateMeaning {
  import opened Bits
  import opened Canonical
  import opened Deflate

  /** The rest of the work, from the middle of a block on. */
  datatype Todo =
    | Blocks
    | StoredAlign(final: bool)
    | StoredHead(final: bool, hdr: seq<Byte>)
    | StoredData(final: bool, n: nat)
    | StoredByte(final: bool, n: nat, b: Byte)
    | Sizes(final: bool, ns: seq<nat>)
    | Clens(final: bool, nl: nat, nd: nat, nb: nat, k: nat, acc: seq<nat>)
    | Lens(final: bool, nl: nat, nd: nat, clen: seq<nat>, acc: seq<nat>)
    | Run(final: bool, nl: nat, nd: nat, clen: seq<nat>, acc: seq<nat>, sym: nat)
    | Codes(final: bool, lit: seq<nat>, dst: seq<nat>)
    | Literal(final: bool, lit: seq<nat>, dst: seq<nat>, b: Byte)
    | Sym(final: bool, lit: seq<nat>, dst: seq<nat>, sym: nat)
    | LengthBits(final: bool, lit: seq<nat>, dst: seq<nat>, base: nat, extra: nat)
    | DistCode(final: bool, lit: seq<nat>, dst: seq<nat>, len: nat)
    | DistBits(final: bool, lit: seq<nat>, dst: seq<nat>, len: nat, base: nat, extra: nat)
    | Copying(final: bool, lit: seq<nat>, dst: seq<nat>, len: nat, dist: nat)
    | End(final: bool)

  type Result = (seq<bool>, seq<Byte>)

  // ----- keeping definitions folded

  /**
   * A property behind a quantifier over k is not looked into until the verifier meets a key. Unfolding asserts one;
   * this keeps the recursive decoder out of proofs that only pass its results on.
   */
  predicate Key(todo: Todo, k: int) { true }

  predicate InnerKey(k: int) { true }

  // ----- what the rest of the work gives, in the reference decoder's terms

  function After(final: bool, bits: seq<bool>, out: seq<Byte>): Option<Result> {
    if final then Some((bits, out)) else InflateFrom(bits, out)
  }

  function ThenAfter(final: bool, r: Option<Result>): Option<Result> {
    match r
    case None => None
    case Some((bits, out)) => After(final, bits, out)
  }

  /** After a block: the end, or more blocks. */
  ghost predicate MeansAfter(final: bool, bits: seq<bool>, out: seq<Byte>, g: Result) {
    forall k: int | InnerKey(k) :: After(final, bits, out) == Some(g)
  }

  /** Inside a block's codes. */
  ghost predicate MeansCodes(final: bool, lit: seq<nat>, dst: seq<nat>, bits: seq<bool>, out: seq<Byte>, g: Result) {
    forall k: int | InnerKey(k) :: ThenAfter(final, InflateCodes(lit, dst, bits, out)) == Some(g)
  }

  ghost predicate MeansCopy(final: bool, lit: seq<nat>, dst: seq<nat>, len: nat, dist: nat, bits: seq<bool>,
      out: seq<Byte>, g: Result) {
    0 < dist <= |out| && MeansCodes(final, lit, dst, bits, CopyMatch(out, len, dist), g)
  }

  ghost predicate MeansMatch(final: bool, lit: seq<nat>, dst: seq<nat>, len: nat, dist: nat, bits: seq<bool>,
      out: seq<Byte>, g: Result) {
    TokenOk(Match(len, dist), |out|) && MeansCopy(final, lit, dst, len, dist, bits, out, g)
  }

  ghost predicate MeansDistBits(final: bool, lit: seq<nat>, dst: seq<nat>, len: nat, base: nat, extra: nat,
      bits: seq<bool>, out: seq<Byte>, g: Result)
  {
    extra <= |bits| && MeansMatch(final, lit, dst, len, base + ValueOf(bits[..extra]), bits[extra..], out, g)
  }

  ghost predicate MeansDist(final: bool, lit: seq<nat>, dst: seq<nat>, len: nat, bits: seq<bool>, out: seq<Byte>,
      g: Result) {
    ReadSym(dst, bits).Some? &&
    var (d, rest) := ReadSym(dst, bits).value;
    d < 30 && MeansDistBits(final, lit, dst, len, DIST_BASE[d], DIST_EXTRA[d], rest, out, g)
  }

  ghost predicate MeansLengthBits(final: bool, lit: seq<nat>, dst: seq<nat>, base: nat, extra: nat, bits: seq<bool>,
      out: seq<Byte>, g: Result) {
    extra <= |bits| && MeansDist(final, lit, dst, base + ValueOf(bits[..extra]), bits[extra..], out, g)
  }

  ghost predicate MeansSym(final: bool, lit: seq<nat>, dst: seq<nat>, sym: nat, bits: seq<bool>, out: seq<Byte>,
      g: Result) {
    if sym == 256 then MeansAfter(final, bits, out, g)
    else
      257 <= sym <= 285 &&
      MeansLengthBits(final, lit, dst, LENGTH_BASE[sym - 257], LENGTH_EXTRA[sym - 257], bits, out, g)
  }

  /** Inside the packed code lengths. */
  function InLens(final: bool, nl: nat, nd: nat, clen: seq<nat>, acc: seq<nat>, bits: seq<bool>,
      out: seq<Byte>): Option<Result> {
    match ReadLengths(clen, bits, nl + nd, acc)
    case None => None
    case Some((lens, rest)) =>
      if Accepts(lens[..nl]) && Accepts(lens[nl..]) then
        ThenAfter(final, InflateCodes(lens[..nl], lens[nl..], rest, out))
      else None
  }

  ghost predicate MeansLens(final: bool, nl: nat, nd: nat, clen: seq<nat>, acc: seq<nat>, bits: seq<bool>,
      out: seq<Byte>, g: Result) {
    forall k: int | InnerKey(k) :: InLens(final, nl, nd, clen, acc, bits, out) == Some(g)
  }

  ghost predicate MeansRun(final: bool, nl: nat, nd: nat, clen: seq<nat>, acc: seq<nat>, sym: nat, bits: seq<bool>,
      out: seq<Byte>, g: Result) {
    ReadRun(sym, acc, bits).Some? &&
    var (run, rest) := ReadRun(sym, acc, bits).value; MeansLens(final, nl, nd, clen, acc + run, rest, out, g)
  }

  ghost predicate MeansClens(final: bool, nl: nat, nd: nat, nb: nat, k: nat, acc: seq<nat>, bits: seq<bool>,
      out: seq<Byte>, g: Result) {
    k <= nb <= 19 && |acc| == 19 &&
    exists clen: seq<nat>, rest: seq<bool> ::
      ReadClens(bits, k, nb, acc) == Some((clen, rest)) && Accepts(clen) &&
      MeansLens(final, nl, nd, clen, [], rest, out, g)
  }

  /** The widths and least values of the three numbers at the head of a dynamic block. */
  function SizeBits(k: nat): nat { if k < 2 then 5 else 4 }

  function SizeMin(k: nat): nat { if k == 0 then 257 else if k == 1 then 1 else 4 }

  ghost predicate MeansSizes(final: bool, ns: seq<nat>, bits: seq<bool>, out: seq<Byte>, g: Result)
    decreases 3 - |ns|
  {
    var w := SizeBits(|ns|);
    if |ns| >= 3 then |ns| == 3 && MeansClens(final, ns[0], ns[1], ns[2], 0, Repeat(0, 19), bits, out, g)
    else w <= |bits| && MeansSizes(final, ns + [ValueOf(bits[..w]) + SizeMin(|ns|)], bits[w..], out, g)
  }

  ghost predicate MeansStoredData(final: bool, n: nat, bits: seq<bool>, out: seq<Byte>, g: Result) {
    8 * n <= |bits| && MeansAfter(final, bits[8 * n..], out + ReadBytes(bits[..8 * n], n), g)
  }

  ghost predicate MeansStoredHead(final: bool, hdr: seq<Byte>, bits: seq<bool>, out: seq<Byte>, g: Result)
    decreases 4 - |hdr|
  {
    if |hdr| >= 4 then
      |hdr| == 4 && Length(hdr, 0) + Length(hdr, 2) == 0xFFFF && MeansStoredData(final, Length(hdr, 0), bits, out, g)
    else 8 <= |bits| && MeansStoredHead(final, hdr + [ByteOf(bits[..8])], bits[8..], out, g)
  }

  function ByteOf(bits: seq<bool>): Byte
    requires |bits| == 8
  {
    assert Pow2(8) == 256;
    ValueOf(bits)
  }

  function Length(hdr: seq<Byte>, i: nat): nat
    requires i + 2 <= |hdr|
  {
    var lo: nat, hi: nat := hdr[i], hdr[i + 1];
    lo + 256 * hi
  }

  ghost predicate MeansStored(final: bool, bits: seq<bool>, out: seq<Byte>, g: Result) {
    forall k: int | InnerKey(k) :: ThenAfter(final, InflateStored(bits, out)) == Some(g)
  }

  ghost predicate Means(todo: Todo, bits: seq<bool>, out: seq<Byte>, g: Result) {
    match todo
    case Blocks => MeansAfter(false, bits, out, g)
    case StoredAlign(final) => MeansStored(final, bits, out, g)
    case StoredHead(final, hdr) => MeansStoredHead(final, hdr, bits, out, g)
    case StoredData(final, n) => MeansStoredData(final, n, bits, out, g)
    case StoredByte(final, n, b) => MeansStoredData(final, n, bits, out + [b], g)
    case Sizes(final, ns) => MeansSizes(final, ns, bits, out, g)
    case Clens(final, nl, nd, nb, k, acc) => MeansClens(final, nl, nd, nb, k, acc, bits, out, g)
    case Lens(final, nl, nd, clen, acc) => MeansLens(final, nl, nd, clen, acc, bits, out, g)
    case Run(final, nl, nd, clen, acc, sym) => MeansRun(final, nl, nd, clen, acc, sym, bits, out, g)
    case Codes(final, lit, dst) => MeansCodes(final, lit, dst, bits, out, g)
    case Literal(final, lit, dst, b) => MeansCodes(final, lit, dst, bits, out + [b], g)
    case Sym(final, lit, dst, sym) => MeansSym(final, lit, dst, sym, bits, out, g)
    case LengthBits(final, lit, dst, base, extra) => MeansLengthBits(final, lit, dst, base, extra, bits, out, g)
    case DistCode(final, lit, dst, len) => MeansDist(final, lit, dst, len, bits, out, g)
    case DistBits(final, lit, dst, len, base, extra) => MeansDistBits(final, lit, dst, len, base, extra, bits, out, g)
    case Copying(final, lit, dst, len, dist) => MeansCopy(final, lit, dst, len, dist, bits, out, g)
    case End(final) => MeansAfter(final, bits, out, g)
  }

  /** Doing the rest of the work gives g. */
  ghost predicate Goal(todo: Todo, bits: seq<bool>, out: seq<Byte>, g: Result) {
    forall k: int | Key(todo, k) :: Means(todo, bits, out, g)
  }

  lemma Unfold(todo: Todo, bits: seq<bool>, out: seq<Byte>, g: Result)
    requires Goal(todo, bits, out, g)
    ensures Means(todo, bits, out, g)
  {
    assert Key(todo, 0);
  }

  lemma Fold(todo: Todo, bits: seq<bool>, out: seq<Byte>, g: Result)
    requires Means(todo, bits, out, g)
    ensures Goal(todo, bits, out, g)
  {
  }
}
