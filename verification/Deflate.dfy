/** The DEFLATE format as a plain decoder over bit strings: RFC 1951, read one bit at a time. */
module Deflate {
  import opened Bits
  import opened Canonical

  datatype Token = Lit(b: Byte) | Match(len: nat, dist: nat)

  // ----- LZ77 meaning of a token list

  /** The reference copy: one byte at a time, each possibly written by the same copy. */
  function CopyMatch(out: seq<Byte>, len: nat, dist: nat): (r: seq<Byte>)
    requires 0 < dist <= |out|
    ensures |r| == |out| + len && out <= r
    decreases len
  {
    if len == 0 then out else CopyMatch(out + [out[|out| - dist]], len - 1, dist)
  }

  predicate TokenOk(t: Token, have: nat) {
    t.Lit? || (3 <= t.len <= 258 && 0 < t.dist <= have && t.dist <= 32768)
  }

  function ExpandToken(t: Token, out: seq<Byte>): (r: seq<Byte>)
    requires TokenOk(t, |out|)
    ensures out < r
  {
    match t
    case Lit(b) => out + [b]
    case Match(len, dist) => CopyMatch(out, len, dist)
  }

  predicate Expandable(ts: seq<Token>, out: seq<Byte>) {
    ts == [] || (TokenOk(ts[0], |out|) && Expandable(ts[1..], ExpandToken(ts[0], out)))
  }

  function Expand(ts: seq<Token>, out: seq<Byte>): (r: seq<Byte>)
    requires Expandable(ts, out)
  {
    if ts == [] then out else Expand(ts[1..], ExpandToken(ts[0], out))
  }

  lemma {:induction false} ExpandSnoc(ts: seq<Token>, t: Token, out: seq<Byte>)
    requires Expandable(ts, out) && TokenOk(t, |Expand(ts, out)|)
    ensures Expandable(ts + [t], out) && Expand(ts + [t], out) == ExpandToken(t, Expand(ts, out))
  {
    if ts == [] {
      assert (ts + [t])[1..] == [];
    } else {
      assert (ts + [t])[1..] == ts[1..] + [t];
      ExpandSnoc(ts[1..], t, ExpandToken(ts[0], out));
    }
  }

  // ----- numbers and symbols

  function ReadBits(bits: seq<bool>, n: nat): (r: Option<(nat, seq<bool>)>)
    ensures r.Some? ==> |r.value.1| == |bits| - n
  {
    if |bits| < n then None else Some((ValueOf(bits[..n]), bits[n..]))
  }

  function ReadSym(s: seq<nat>, bits: seq<bool>): (r: Option<(nat, seq<bool>)>)
    ensures r.Some? ==> r.value.0 < |s| && |r.value.1| < |bits|
  {
    match DecodeSym(s, bits)
    case None => None
    case Some((sym, n)) => Some((sym, bits[n..]))
  }

  const LENGTH_BASE: seq<nat> :=
    [3, 4, 5, 6, 7, 8, 9, 10, 11, 13, 15, 17, 19, 23, 27, 31, 35, 43, 51, 59, 67, 83, 99, 115, 131, 163, 195, 227, 258]
  const LENGTH_EXTRA: seq<nat> :=
    [0, 0, 0, 0, 0, 0, 0, 0, 1, 1, 1, 1, 2, 2, 2, 2, 3, 3, 3, 3, 4, 4, 4, 4, 5, 5, 5, 5, 0]
  const DIST_BASE: seq<nat> :=
    [1, 2, 3, 4, 5, 7, 9, 13, 17, 25, 33, 49, 65, 97, 129, 193, 257, 385, 513, 769, 1025, 1537, 2049, 3073, 4097,
     6145, 8193, 12289, 16385, 24577]
  const DIST_EXTRA: seq<nat> :=
    [0, 0, 0, 0, 1, 1, 2, 2, 3, 3, 4, 4, 5, 5, 6, 6, 7, 7, 8, 8, 9, 9, 10, 10, 11, 11, 12, 12, 13, 13]

  /** A length or distance symbol's base value plus its extra bits. */
  function ReadValue(base: nat, extra: nat, bits: seq<bool>): (r: Option<(nat, seq<bool>)>)
    ensures r.Some? ==> |r.value.1| <= |bits|
  {
    match ReadBits(bits, extra)
    case None => None
    case Some((v, rest)) => Some((base + v, rest))
  }

  function ReadLength(sym: nat, bits: seq<bool>): (r: Option<(nat, seq<bool>)>)
    ensures r.Some? ==> |r.value.1| <= |bits|
  {
    if 257 <= sym <= 285 then ReadValue(LENGTH_BASE[sym - 257], LENGTH_EXTRA[sym - 257], bits) else None
  }

  function ReadDistance(dst: seq<nat>, bits: seq<bool>): (r: Option<(nat, seq<bool>)>)
    ensures r.Some? ==> |r.value.1| <= |bits|
  {
    match ReadSym(dst, bits)
    case None => None
    case Some((sym, rest)) =>
      if sym < 30 then ReadValue(DIST_BASE[sym], DIST_EXTRA[sym], rest) else None
  }

  function ReadMatch(dst: seq<nat>, sym: nat, bits: seq<bool>): (r: Option<(Token, seq<bool>)>)
    ensures r.Some? ==> |r.value.1| <= |bits|
  {
    match ReadLength(sym, bits)
    case None => None
    case Some((len, rest)) =>
      match ReadDistance(dst, rest)
      case None => None
      case Some((dist, rest')) => Some((Match(len, dist), rest'))
  }

  /** The body of a Huffman coded block, up to and including its end-of-block symbol. */
  function InflateCodes(lit: seq<nat>, dst: seq<nat>, bits: seq<bool>, out: seq<Byte>)
      : (r: Option<(seq<bool>, seq<Byte>)>)
    ensures r.Some? ==> |r.value.0| <= |bits|
    decreases |bits|
  {
    match ReadSym(lit, bits)
    case None => None
    case Some((sym, rest)) =>
      if sym < 256 then InflateCodes(lit, dst, rest, out + [sym])
      else if sym == 256 then Some((rest, out))
      else
        match ReadMatch(dst, sym, rest)
        case None => None
        case Some((t, rest')) =>
          if TokenOk(t, |out|) then InflateCodes(lit, dst, rest', ExpandToken(t, out)) else None
  }

  // ----- stored blocks

  function ReadBytes(bits: seq<bool>, n: nat): (b: seq<Byte>)
    requires |bits| == 8 * n
    ensures |b| == n
  {
    if n == 0 then []
    else
      var v := ValueOf(bits[..8]);
      assert Pow2(8) == 256;
      [v] + ReadBytes(bits[8..], n - 1)
  }

  /** Padding runs to the next byte boundary; the whole stream is a multiple of eight bits long. */
  function InflateStored(bits: seq<bool>, out: seq<Byte>): (r: Option<(seq<bool>, seq<Byte>)>)
    ensures r.Some? ==> |r.value.0| <= |bits|
  {
    var b := bits[|bits| % 8..];
    if |b| < 32 then None
    else
      var len, nlen := ValueOf(b[..16]), ValueOf(b[16..32]);
      if len + nlen != 0xFFFF || |b| < 32 + 8 * len then None
      else Some((b[32 + 8 * len..], out + ReadBytes(b[32..32 + 8 * len], len)))
  }

  // ----- code tables

  /** What a decoder demands of a table: at most one code, or a complete set of codes. */
  predicate Accepts(s: seq<nat>) {
    (forall i | 0 <= i < |s| :: s[i] <= MAX_LEN) &&
    (|s| - Count(s, 0) <= 1 || FirstCode(s, 16) == Pow2(16))
  }

  function Repeat(v: nat, n: nat): (s: seq<nat>)
    ensures |s| == n && forall i | 0 <= i < n :: s[i] == v
  {
    if n == 0 then [] else [v] + Repeat(v, n - 1)
  }

  function FixedLit(): (s: seq<nat>)
    ensures |s| == 288
  {
    Repeat(8, 144) + Repeat(9, 112) + Repeat(7, 24) + Repeat(8, 8)
  }

  function FixedDist(): (s: seq<nat>)
    ensures |s| == 32
  {
    Repeat(5, 32)
  }

  /** The order in which the lengths of the code length code are stored. */
  const CLEN_ORDER: seq<nat> := [16, 17, 18, 0, 8, 7, 9, 6, 10, 5, 11, 4, 12, 3, 13, 2, 14, 1, 15]

  function ReadClens(bits: seq<bool>, k: nat, n: nat, acc: seq<nat>): (r: Option<(seq<nat>, seq<bool>)>)
    requires k <= n <= 19 && |acc| == 19
    ensures r.Some? ==> |r.value.1| <= |bits| && |r.value.0| == 19
    decreases n - k
  {
    if k == n then Some((acc, bits))
    else
      match ReadBits(bits, 3)
      case None => None
      case Some((v, rest)) => ReadClens(rest, k + 1, n, acc[CLEN_ORDER[k] := v])
  }

  /** One step of the code length alphabet: a length, or a run with its extra bits. */
  function ReadRun(sym: nat, acc: seq<nat>, bits: seq<bool>): (r: Option<(seq<nat>, seq<bool>)>)
    ensures r.Some? ==> |r.value.1| <= |bits|
  {
    if sym < 16 then Some(([sym], bits))
    else if sym == 16 then
      if acc == [] then None
      else
        match ReadBits(bits, 2)
        case None => None
        case Some((v, rest)) => Some((Repeat(acc[|acc| - 1], 3 + v), rest))
    else if sym == 17 then
      match ReadBits(bits, 3)
      case None => None
      case Some((v, rest)) => Some((Repeat(0, 3 + v), rest))
    else if sym == 18 then
      match ReadBits(bits, 7)
      case None => None
      case Some((v, rest)) => Some((Repeat(0, 11 + v), rest))
    else None
  }

  function ReadLengths(clen: seq<nat>, bits: seq<bool>, total: nat, acc: seq<nat>): (r: Option<(seq<nat>, seq<bool>)>)
    ensures r.Some? ==> |r.value.1| <= |bits| && |r.value.0| == total
    decreases |bits|
  {
    if |acc| == total then Some((acc, bits))
    else if |acc| > total then None
    else
      match ReadSym(clen, bits)
      case None => None
      case Some((sym, rest)) =>
        match ReadRun(sym, acc, rest)
        case None => None
        case Some((run, rest')) => ReadLengths(clen, rest', total, acc + run)
  }

  /** The code length code and the two tables it packs, once their sizes are known. */
  function ReadPacked(nl: nat, nd: nat, nb: nat, bits: seq<bool>): (r: Option<(seq<nat>, seq<nat>, seq<bool>)>)
    requires nb <= 19
    ensures r.Some? ==> |r.value.2| <= |bits|
  {
    match ReadClens(bits, 0, nb, Repeat(0, 19))
    case None => None
    case Some((clen, rest)) =>
      if !Accepts(clen) then None
      else
        match ReadLengths(clen, rest, nl + nd, [])
        case None => None
        case Some((lens, rest')) =>
          var lit, dst := lens[..nl], lens[nl..];
          if Accepts(lit) && Accepts(dst) then Some((lit, dst, rest')) else None
  }

  /** The two code tables of a dynamic block. */
  function ReadTables(bits: seq<bool>): (r: Option<(seq<nat>, seq<nat>, seq<bool>)>)
    ensures r.Some? ==> |r.value.2| <= |bits|
  {
    if |bits| < 14 then None
    else
      assert Pow2(4) == 16;
      ReadPacked(ValueOf(bits[..5]) + 257, ValueOf(bits[5..10]) + 1, ValueOf(bits[10..14]) + 4, bits[14..])
  }

  // ----- blocks and streams

  /** One block; the result says whether it was the last one. */
  function InflateBlock(bits: seq<bool>, out: seq<Byte>): (r: Option<(bool, seq<bool>, seq<Byte>)>)
    ensures r.Some? ==> |r.value.1| < |bits|
  {
    if |bits| < 3 then None
    else
      var rest := bits[3..];
      var body :=
        match (bits[1], bits[2])
        case (false, false) => InflateStored(rest, out)
        case (true, false) => InflateCodes(FixedLit(), FixedDist(), rest, out)
        case (false, true) =>
          (match ReadTables(rest)
           case None => None
           case Some((lit, dst, rest')) => InflateCodes(lit, dst, rest', out))
        case (true, true) => None;
      match body
      case None => None
      case Some((rest', out')) => Some((bits[0], rest', out'))
  }

  /** All blocks up to the final one. */
  function InflateFrom(bits: seq<bool>, out: seq<Byte>): (r: Option<(seq<bool>, seq<Byte>)>)
    ensures r.Some? ==> |r.value.0| <= |bits|
    decreases |bits|
  {
    match InflateBlock(bits, out)
    case None => None
    case Some((final, rest, out')) => if final then Some((rest, out')) else InflateFrom(rest, out')
  }
}
