/** What the length and distance symbols stand for: ranges that follow one another (section 3.2.5 of RFC 1951). */
module SymbolRanges {
  import opened Bits
  import opened Canonical
  import opened Deflate
  import opened Entropy

  // ----- distances: from 1 on, two symbols for each number of extra bits, but four for none

  function DistanceBits(k: nat): nat {
    if k < 2 then 0 else k / 2 - 1
  }

  /** Where the range of symbol k starts: behind the ranges of all symbols before it. */
  function DistanceFrom(k: nat): nat {
    if k == 0 then 1 else DistanceFrom(k - 1) + Pow2(DistanceBits(k - 1))
  }

  lemma NextDistance(k: nat)
    requires k < 29
    ensures DIST_BASE[k + 1] == DIST_BASE[k] + Pow2(DIST_EXTRA[k]) && DIST_EXTRA[k] == DistanceBits(k)
  {
    if k >= 4 {
      DistanceTables(k);
      NextDistance(k - 2);
      if k + 1 < 30 { DistanceTables(k + 1); }
    }
  }

  lemma DistanceEnds()
    ensures DIST_BASE[0] == 1 && DIST_EXTRA[0] == DistanceBits(0)
    ensures DIST_BASE[29] + Pow2(DIST_EXTRA[29]) == 32769 && DIST_EXTRA[29] == DistanceBits(29)
  {
    assert Pow2(13) == 8192;
  }

  /** The decoder's tables hold the ranges, and these cover the distances from 1 to 32768 without a gap. */
  lemma {:induction false} DistancesTile(k: nat)
    requires k < 30
    ensures DIST_BASE[k] == DistanceFrom(k) && DIST_EXTRA[k] == DistanceBits(k)
    ensures DistanceFrom(0) == 1 && DistanceFrom(k + 1) == DistanceFrom(k) + Pow2(DIST_EXTRA[k])
    ensures k == 29 ==> DistanceFrom(k + 1) == 32769
  {
    hide DIST_BASE, DIST_EXTRA, DistanceBits;
    if k > 0 {
      DistancesTile(k - 1);
      NextDistance(k - 1);
    }
    if k < 29 { NextDistance(k); }
    DistanceEnds();
  }

  lemma {:induction false} DistanceFromGrows(j: nat, k: nat)
    requires j <= k
    ensures DistanceFrom(j) <= DistanceFrom(k) && (j < k ==> DistanceFrom(j + 1) <= DistanceFrom(k))
    decreases k
  {
    if j < k { DistanceFromGrows(j, k - 1); }
  }

  /** A distance is its symbol's start plus the number in the extra bits. */
  lemma ReadDistanceIs(dst: seq<nat>, bits: seq<bool>)
    ensures match ReadSym(dst, bits)
            case None => ReadDistance(dst, bits) == None
            case Some((sym, rest)) =>
              var e := DistanceBits(sym);
              ReadDistance(dst, bits) ==
              if sym < 30 && e <= |rest| then Some((DistanceFrom(sym) + ValueOf(rest[..e]), rest[e..])) else None
  {
    hide DIST_BASE, DIST_EXTRA, DistanceBits, DistanceFrom, ReadSym, ValueOf, Pow2;
    match ReadSym(dst, bits)
    case None =>
    case Some((sym, rest)) => if sym < 30 { DistancesTile(sym); }
  }

  /** The compressor's symbol for distance d + 1 is the one whose range d + 1 is in, and no other. */
  lemma DistSymIff(d: nat, k: nat)
    requires d < 32768 && k < 30
    ensures DistSym(d) == k <==> DistanceFrom(k) <= d + 1 < DistanceFrom(k + 1)
  {
    var s := DistSym(d);
    DistanceRestored(d);
    DistancesTile(s);
    if s < k { DistanceFromGrows(s, k); } else if k < s { DistanceFromGrows(k, s); }
  }

  lemma DistSymGrows(d: nat, d': nat)
    requires d <= d' < 32768
    ensures DistSym(d) <= DistSym(d')
  {
    var s, s' := DistSym(d), DistSym(d');
    DistSymIff(d, s);
    DistSymIff(d', s');
    if s' < s { DistanceFromGrows(s', s); }
  }

  // ----- lengths: from 3 on, four symbols for each number of extra bits, but eight for none; 258 has its own

  function LengthBitsOf(k: nat): nat {
    if k < 4 then 0 else if k < 28 then k / 4 - 1 else 0
  }

  function LengthFrom(k: nat): nat {
    if k == 0 then 3 else LengthFrom(k - 1) + Pow2(LengthBitsOf(k - 1))
  }

  lemma NextLength(k: nat)
    requires k < 27
    ensures LENGTH_BASE[k + 1] == LENGTH_BASE[k] + Pow2(LENGTH_EXTRA[k]) && LENGTH_EXTRA[k] == LengthBitsOf(k)
  {
    if k >= 8 {
      LengthTables(k);
      NextLength(k - 4);
      LengthTables(k + 1);
    }
  }

  lemma LengthEnds()
    ensures LENGTH_BASE[0] == 3 && LENGTH_EXTRA[0] == LengthBitsOf(0)
    ensures LENGTH_BASE[27] == 227 && LENGTH_EXTRA[27] == LengthBitsOf(27) && Pow2(LENGTH_EXTRA[27]) == 32
    ensures LENGTH_BASE[28] == 258 && LENGTH_EXTRA[28] == LengthBitsOf(28)
  {
    assert Pow2(5) == 32;
  }

  /**
   * The ranges of symbols 257 to 284 cover the lengths from 3 on without a gap, the last one up to 258; symbol 285
   * alone is 258 once more.
   */
  lemma {:induction false} LengthsTile(k: nat)
    requires k <= 28
    ensures LENGTH_EXTRA[k] == LengthBitsOf(k) && LENGTH_BASE[k] == if k == 28 then 258 else LengthFrom(k)
    ensures LengthFrom(0) == 3 && (k < 28 ==> LengthFrom(k + 1) == LengthFrom(k) + Pow2(LENGTH_EXTRA[k]))
    ensures k == 28 ==> LengthFrom(k) == 259
  {
    hide LENGTH_BASE, LENGTH_EXTRA, LengthBitsOf;
    LengthEnds();
    if 0 < k < 28 {
      LengthsTile(k - 1);
      NextLength(k - 1);
      if k < 27 { NextLength(k); }
    } else if k == 28 {
      LengthsTile(27);
    }
  }

  lemma {:induction false} LengthFromGrows(j: nat, k: nat)
    requires j <= k
    ensures LengthFrom(j) <= LengthFrom(k) && (j < k ==> LengthFrom(j + 1) <= LengthFrom(k))
    decreases k
  {
    if j < k { LengthFromGrows(j, k - 1); }
  }

  /** A length is its symbol's start plus the number in the extra bits. */
  lemma ReadLengthIs(sym: nat, bits: seq<bool>)
    ensures var k, e := sym - 257, if 257 <= sym then LengthBitsOf(sym - 257) else 0;
            ReadLength(sym, bits) ==
            if 0 <= k <= 28 && e <= |bits| then
              Some(((if k == 28 then 258 else LengthFrom(k)) + ValueOf(bits[..e]), bits[e..]))
            else None
  {
    hide LENGTH_BASE, LENGTH_EXTRA, LengthBitsOf, LengthFrom, ValueOf, Pow2;
    if 257 <= sym <= 285 { LengthsTile(sym - 257); }
  }

  /** The compressor's symbol for length l + 3: the one whose range it is in, but 285 for length 258. */
  lemma LenSymIff(l: nat, k: nat)
    requires l <= 255 && k <= 28
    ensures LenSym(l) == 257 + k <==>
            if k == 28 then l == 255 else LengthFrom(k) <= l + 3 < LengthFrom(k + 1) && l < 255
  {
    var s := LenSym(l) - 257;
    LengthRestored(l);
    LengthsTile(s);
    LastIsOwn(l);
    if s < k { LengthFromGrows(s, k); } else if k < s < 28 { LengthFromGrows(k, s); }
  }

  lemma LastIsOwn(l: nat)
    requires l <= 255
    ensures LenSym(l) == 285 <==> l == 255
  {
  }

  lemma LenSymGrows(l: nat, l': nat)
    requires l <= l' <= 255
    ensures LenSym(l) <= LenSym(l')
  {
    var s, s' := LenSym(l) - 257, LenSym(l') - 257;
    LenSymIff(l, s);
    LenSymIff(l', s');
    if s' < s < 28 { LengthFromGrows(s', s); }
  }

  // ----- matches

  lemma ExtraBelow(bits: seq<bool>, e: nat)
    requires e <= |bits|
    ensures ValueOf(bits[..e]) < Pow2(e)
  {
    assert |bits[..e]| == e;
  }

  /** Every match that the symbols can spell is legal as soon as there are as many bytes as it goes back. */
  lemma MatchBounds(dst: seq<nat>, sym: nat, bits: seq<bool>, have: nat)
    ensures match ReadMatch(dst, sym, bits)
            case None => true
            case Some((t, _)) =>
              t.Match? && 3 <= t.len <= 258 && 1 <= t.dist <= 32768 && (TokenOk(t, have) <==> t.dist <= have)
  {
    hide ReadLength, ReadDistance, LengthFrom, DistanceFrom, LengthBitsOf, DistanceBits, LENGTH_EXTRA, DIST_EXTRA;
    if ReadMatch(dst, sym, bits).Some? {
      var (len, rest) := ReadLength(sym, bits).value;
      LengthBounds(sym, bits);
      DistanceBounds(dst, rest);
    }
  }

  lemma LengthBounds(sym: nat, bits: seq<bool>)
    ensures var r := ReadLength(sym, bits); r.Some? ==> 3 <= r.value.0 <= 258
  {
    hide ReadLength, LengthFrom, LengthBitsOf, LENGTH_BASE, LENGTH_EXTRA, ValueOf, Pow2;
    ReadLengthIs(sym, bits);
    if ReadLength(sym, bits).Some? {
      var k: nat := sym - 257;
      ExtraBelow(bits, LengthBitsOf(k));
      LengthsTile(k);
      LengthsTile(28);
      if k < 28 {
        LengthFromGrows(0, k);
        LengthFromGrows(k + 1, 28);
      } else {
        NoExtra();
      }
    }
  }

  lemma NoExtra()
    ensures LengthBitsOf(28) == 0 && Pow2(0) == 1
  {
  }

  lemma DistanceBounds(dst: seq<nat>, bits: seq<bool>)
    ensures var r := ReadDistance(dst, bits); r.Some? ==> 1 <= r.value.0 <= 32768
  {
    hide ReadDistance, ReadSym, DistanceFrom, DistanceBits, DIST_BASE, DIST_EXTRA, ValueOf, Pow2;
    ReadDistanceIs(dst, bits);
    if ReadDistance(dst, bits).Some? {
      var (sym, rest) := ReadSym(dst, bits).value;
      ExtraBelow(rest, DistanceBits(sym));
      DistancesTile(sym);
      DistancesTile(29);
      DistanceFromGrows(0, sym);
      DistanceFromGrows(sym + 1, 30);
    }
  }
}
