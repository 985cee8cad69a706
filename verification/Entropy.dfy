/** Literals and matches as Huffman codes with extra bits, section 3.2.5 of RFC 1951. */
module Entropy {
  import opened Bits
  import opened Canonical
  import opened Deflate

  // ----- the compressor's symbol tables, one case per run of equal entries

  /** Length symbol by length - 3 (s_tdefl_len_sym). */
  function LenSym(l: nat): (s: nat)
    ensures 257 <= s <= 285
  {
    if l < 1 then 257 else if l < 2 then 258 else if l < 3 then 259 else if l < 4 then 260 else
    if l < 5 then 261 else if l < 6 then 262 else if l < 7 then 263 else if l < 8 then 264 else
    if l < 10 then 265 else if l < 12 then 266 else if l < 14 then 267 else if l < 16 then 268 else
    if l < 20 then 269 else if l < 24 then 270 else if l < 28 then 271 else if l < 32 then 272 else
    if l < 40 then 273 else if l < 48 then 274 else if l < 56 then 275 else if l < 64 then 276 else
    if l < 80 then 277 else if l < 96 then 278 else if l < 112 then 279 else if l < 128 then 280 else
    if l < 160 then 281 else if l < 192 then 282 else if l < 224 then 283 else if l < 255 then 284 else
    285
  }

  /** Extra bits of a length (s_tdefl_len_extra). */
  function LenExtra(l: nat): (e: nat)
    ensures e <= 5
  {
    if l < 8 then 0 else if l < 16 then 1 else if l < 32 then 2 else if l < 64 then 3 else
    if l < 128 then 4 else if l < 255 then 5 else 0
  }

  function SmallDistSym(d: nat): nat {
    if d < 1 then 0 else if d < 2 then 1 else if d < 3 then 2 else if d < 4 then 3 else
    if d < 6 then 4 else if d < 8 then 5 else if d < 12 then 6 else if d < 16 then 7 else
    if d < 24 then 8 else if d < 32 then 9 else if d < 48 then 10 else if d < 64 then 11 else
    if d < 96 then 12 else if d < 128 then 13 else if d < 192 then 14 else if d < 256 then 15 else
    if d < 384 then 16 else 17
  }

  function SmallDistExtra(d: nat): nat {
    if d < 4 then 0 else if d < 8 then 1 else if d < 16 then 2 else if d < 32 then 3 else
    if d < 64 then 4 else if d < 128 then 5 else if d < 256 then 6 else 7
  }

  function LargeDistSym(h: nat): nat {
    if h < 2 then 0 else if h < 3 then 18 else if h < 4 then 19 else if h < 6 then 20 else
    if h < 8 then 21 else if h < 12 then 22 else if h < 16 then 23 else if h < 24 then 24 else
    if h < 32 then 25 else if h < 48 then 26 else if h < 64 then 27 else if h < 96 then 28 else
    29
  }

  function LargeDistExtra(h: nat): nat {
    if h < 2 then 0 else if h < 4 then 8 else if h < 8 then 9 else if h < 16 then 10 else
    if h < 32 then 11 else if h < 64 then 12 else 13
  }

  /** Distance symbol by distance - 1. */
  function DistSym(d: nat): (s: nat)
    ensures s < 30
  {
    if d < 512 then SmallDistSym(d) else LargeDistSym(d / 256)
  }

  function DistExtra(d: nat): (e: nat)
    ensures e <= 13
  {
    if d < 512 then SmallDistExtra(d) else LargeDistExtra(d / 256)
  }

  // ----- the extra bits restore the value

  /** The low n bits, as a bit mask selects them. */
  function Mask(v: nat, n: nat): (m: nat)
    ensures m < Pow2(n)
  {
    ValueOf(BitsOf(v, n))
  }

  lemma MaskHalf(v: nat, n: nat)
    requires n > 0
    ensures Mask(v, n) == v % 2 + 2 * Mask(v / 2, n - 1)
  {
    assert BitsOf(v, n)[1..] == BitsOf(v / 2, n - 1);
  }

  /** Half of a length belongs to the code four symbols below, with one extra bit less. */
  lemma LengthHalf(l: nat)
    requires 8 <= l < 255
    ensures LenSym(l) == LenSym(l / 2) + 4 && LenExtra(l) == LenExtra(l / 2) + 1 && LenSym(l) < 285
  {
  }

  /** The decoder's length tables double in the same way. */
  lemma LengthTables(k: nat)
    requires 8 <= k < 28
    ensures LENGTH_BASE[k] == 2 * LENGTH_BASE[k - 4] - 3 && LENGTH_EXTRA[k] == LENGTH_EXTRA[k - 4] + 1
  {
  }

  lemma {:induction false} LengthRestored(l: nat)
    requires l <= 255
    ensures LENGTH_EXTRA[LenSym(l) - 257] == LenExtra(l)
    ensures LENGTH_BASE[LenSym(l) - 257] + Mask(l, LenExtra(l)) == l + 3
  {
    if 8 <= l < 255 {
      LengthRestored(l / 2);
      LengthHalf(l);
      LengthTables(LenSym(l) - 257);
      MaskHalf(l, LenExtra(l));
    }
  }

  /** Half of a distance belongs to the code two symbols below, with one extra bit less. */
  lemma DistanceHalf(d: nat)
    requires 4 <= d < 32768
    ensures DistSym(d) == DistSym(d / 2) + 2 && DistExtra(d) == DistExtra(d / 2) + 1
  {
  }

  lemma DistanceTables(k: nat)
    requires 4 <= k < 30
    ensures DIST_BASE[k] == 2 * DIST_BASE[k - 2] - 1 && DIST_EXTRA[k] == DIST_EXTRA[k - 2] + 1
  {
  }

  lemma {:induction false} DistanceRestored(d: nat)
    requires d < 32768
    ensures DIST_EXTRA[DistSym(d)] == DistExtra(d)
    ensures DIST_BASE[DistSym(d)] + Mask(d, DistExtra(d)) == d + 1
  {
    if d >= 4 {
      DistanceRestored(d / 2);
      DistanceHalf(d);
      DistanceTables(DistSym(d));
      MaskHalf(d, DistExtra(d));
    }
  }

  // ----- encoding tokens

  /** The symbols a token needs have codes. */
  ghost predicate HasCodes(ls: seq<nat>, ds: seq<nat>, t: Token) {
    match t
    case Lit(b) => b < |ls| && ls[b] > 0
    case Match(len, dist) =>
      3 <= len <= 258 && 1 <= dist <= 32768 &&
      LenSym(len - 3) < |ls| && ls[LenSym(len - 3)] > 0 && DistSym(dist - 1) < |ds| && ds[DistSym(dist - 1)] > 0
  }

  /** What follows the length symbol of a match. */
  ghost function MatchTail(ds: seq<nat>, t: Token): seq<bool>
    requires t.Match? && 3 <= t.len && 1 <= t.dist && DistSym(t.dist - 1) < |ds| && ds[DistSym(t.dist - 1)] > 0
  {
    var l, d := t.len - 3, t.dist - 1;
    BitsOf(l, LenExtra(l)) + (Codeword(ds, DistSym(d)) + BitsOf(d, DistExtra(d)))
  }

  ghost function TokenBits(ls: seq<nat>, ds: seq<nat>, t: Token): seq<bool>
    requires HasCodes(ls, ds, t)
  {
    if t.Lit? then Codeword(ls, t.b) else Codeword(ls, LenSym(t.len - 3)) + MatchTail(ds, t)
  }

  ghost predicate AllHaveCodes(ls: seq<nat>, ds: seq<nat>, ts: seq<Token>) {
    forall i | 0 <= i < |ts| :: HasCodes(ls, ds, ts[i])
  }

  ghost function TokensBits(ls: seq<nat>, ds: seq<nat>, ts: seq<Token>): seq<bool>
    requires AllHaveCodes(ls, ds, ts)
  {
    if ts == [] then [] else TokenBits(ls, ds, ts[0]) + TokensBits(ls, ds, ts[1..])
  }

  lemma {:induction false} TokensBitsSnoc(ls: seq<nat>, ds: seq<nat>, ts: seq<Token>, t: Token)
    requires AllHaveCodes(ls, ds, ts) && HasCodes(ls, ds, t)
    ensures TokensBits(ls, ds, ts + [t]) == TokensBits(ls, ds, ts) + TokenBits(ls, ds, t)
  {
    if ts == [] {
      assert ts + [t] == [t];
    } else {
      assert (ts + [t])[1..] == ts[1..] + [t];
      TokensBitsSnoc(ls, ds, ts[1..], t);
    }
  }

  /** How many bits a token takes. */
  ghost function TokenSize(ls: seq<nat>, ds: seq<nat>, t: Token): nat
    requires HasCodes(ls, ds, t)
  {
    match t
    case Lit(b) => ls[b]
    case Match(len, dist) => ls[LenSym(len - 3)] + LenExtra(len - 3) + ds[DistSym(dist - 1)] + DistExtra(dist - 1)
  }

  ghost function TokensSize(ls: seq<nat>, ds: seq<nat>, ts: seq<Token>): nat
    requires forall i | 0 <= i < |ts| :: HasCodes(ls, ds, ts[i])
  {
    if ts == [] then 0 else TokensSize(ls, ds, ts[..|ts| - 1]) + TokenSize(ls, ds, ts[|ts| - 1])
  }

  // ----- decoding them

  /** A table as the compressor holds it, and the front part of it that a decoder is given. */
  ghost predicate Trimmed(s: seq<nat>, k: nat) {
    k <= |s| && Fits(s) && Fits(s[..k]) && forall i | k <= i < |s| :: s[i] == 0
  }

  lemma ReadSymCode(s: seq<nat>, k: nat, i: nat, rest: seq<bool>)
    requires Trimmed(s, k) && i < |s| && s[i] > 0
    ensures ReadSym(s[..k], Codeword(s, i) + rest) == Some((i, rest))
  {
    CodewordTrim(s, k, i);
    DecodeCodeword(s[..k], i, rest);
  }

  lemma ReadBitsBack(v: nat, n: nat, rest: seq<bool>)
    ensures ReadBits(BitsOf(v, n) + rest, n) == Some((Mask(v, n), rest))
  {
    var b := BitsOf(v, n) + rest;
    assert b[..n] == BitsOf(v, n) && b[n..] == rest;
  }

  lemma ReadLengthBack(l: nat, rest: seq<bool>)
    requires l <= 255
    ensures ReadLength(LenSym(l), BitsOf(l, LenExtra(l)) + rest) == Some((l + 3, rest))
  {
    var e := LenExtra(l);
    LengthRestored(l);
    ReadBitsBack(l, e, rest);
  }

  lemma ReadDistanceBack(ds: seq<nat>, nd: nat, d: nat, rest: seq<bool>)
    requires Trimmed(ds, nd) && d < 32768 && DistSym(d) < |ds| && ds[DistSym(d)] > 0
    ensures ReadDistance(ds[..nd], Codeword(ds, DistSym(d)) + (BitsOf(d, DistExtra(d)) + rest)) == Some((d + 1, rest))
  {
    var sym, e := DistSym(d), DistExtra(d);
    DistanceRestored(d);
    ReadBitsBack(d, e, rest);
    ReadSymCode(ds, nd, sym, BitsOf(d, e) + rest);
  }

  lemma ReadMatchBack(ls: seq<nat>, ds: seq<nat>, nd: nat, t: Token, rest: seq<bool>)
    requires Trimmed(ds, nd) && t.Match? && HasCodes(ls, ds, t)
    ensures ReadMatch(ds[..nd], LenSym(t.len - 3), MatchTail(ds, t) + rest) == Some((t, rest))
  {
    var l, d := t.len - 3, t.dist - 1;
    var len, sym, ext := BitsOf(l, LenExtra(l)), Codeword(ds, DistSym(d)), BitsOf(d, DistExtra(d));
    assert MatchTail(ds, t) + rest == len + (sym + (ext + rest));
    ReadLengthBack(l, sym + (ext + rest));
    ReadDistanceBack(ds, nd, d, rest);
  }

  lemma InflateMatch(ls: seq<nat>, nl: nat, ds: seq<nat>, nd: nat, t: Token, rest: seq<bool>, out: seq<Byte>)
    requires Trimmed(ls, nl) && Trimmed(ds, nd) && t.Match? && HasCodes(ls, ds, t) && TokenOk(t, |out|)
    ensures InflateCodes(ls[..nl], ds[..nd], Codeword(ls, LenSym(t.len - 3)) + (MatchTail(ds, t) + rest), out)
            == InflateCodes(ls[..nl], ds[..nd], rest, ExpandToken(t, out))
  {
    var sym, tail := LenSym(t.len - 3), MatchTail(ds, t) + rest;
    ReadSymCode(ls, nl, sym, tail);
    ReadMatchBack(ls, ds, nd, t, rest);
  }

  lemma InflateLit(ls: seq<nat>, nl: nat, ds: seq<nat>, nd: nat, b: Byte, rest: seq<bool>, out: seq<Byte>)
    requires Trimmed(ls, nl) && b < |ls| && ls[b] > 0 && nd <= |ds|
    ensures InflateCodes(ls[..nl], ds[..nd], Codeword(ls, b) + rest, out) ==
            InflateCodes(ls[..nl], ds[..nd], rest, out + [b])
  {
    ReadSymCode(ls, nl, b, rest);
  }

  lemma ConcatAssoc(a: seq<bool>, b: seq<bool>, c: seq<bool>)
    ensures (a + b) + c == a + (b + c)
  {
  }

  /** The symbol loop reads back one token. */
  lemma InflateToken(ls: seq<nat>, nl: nat, ds: seq<nat>, nd: nat, t: Token, rest: seq<bool>, out: seq<Byte>)
    requires Trimmed(ls, nl) && Trimmed(ds, nd) && HasCodes(ls, ds, t) && TokenOk(t, |out|)
    ensures InflateCodes(ls[..nl], ds[..nd], TokenBits(ls, ds, t) + rest, out)
            == InflateCodes(ls[..nl], ds[..nd], rest, ExpandToken(t, out))
  {
    if t.Lit? {
      InflateLit(ls, nl, ds, nd, t.b, rest, out);
    } else {
      ConcatAssoc(Codeword(ls, LenSym(t.len - 3)), MatchTail(ds, t), rest);
      InflateMatch(ls, nl, ds, nd, t, rest, out);
    }
  }

  /** The symbol loop reads back all tokens of a block. */
  lemma {:induction false} InflateTokens(ls: seq<nat>, nl: nat, ds: seq<nat>, nd: nat, ts: seq<Token>, rest: seq<bool>,
      out: seq<Byte>)
    requires Trimmed(ls, nl) && Trimmed(ds, nd) && AllHaveCodes(ls, ds, ts) && Expandable(ts, out)
    ensures InflateCodes(ls[..nl], ds[..nd], TokensBits(ls, ds, ts) + rest, out)
            == InflateCodes(ls[..nl], ds[..nd], rest, Expand(ts, out))
  {
    if ts == [] {
      assert TokensBits(ls, ds, ts) + rest == rest;
    } else {
      var t, more, lit, dst := ts[0], TokensBits(ls, ds, ts[1..]) + rest, ls[..nl], ds[..nd];
      assert TokensBits(ls, ds, ts) + rest == TokenBits(ls, ds, t) + more;
      InflateToken(ls, nl, ds, nd, t, more, out);
      InflateTokens(ls, nl, ds, nd, ts[1..], rest, ExpandToken(t, out));
    }
  }

  /** A block's codes, end-of-block included, inflate to its tokens' expansion. */
  lemma InflateBody(ls: seq<nat>, nl: nat, ds: seq<nat>, nd: nat, ts: seq<Token>, rest: seq<bool>, out: seq<Byte>)
    requires Trimmed(ls, nl) && Trimmed(ds, nd) && AllHaveCodes(ls, ds, ts) && Expandable(ts, out)
    requires 256 < |ls| && ls[256] > 0
    ensures InflateCodes(ls[..nl], ds[..nd], TokensBits(ls, ds, ts) + (Codeword(ls, 256) + rest), out)
            == Some((rest, Expand(ts, out)))
  {
    var tail, eob: nat := Codeword(ls, 256) + rest, 256;
    InflateTokens(ls, nl, ds, nd, ts, tail, out);
    ReadSymCode(ls, nl, eob, rest);
  }
}
