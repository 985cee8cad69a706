/** Recording tokens (miniz tdefl_record_literal and tdefl_record_match). */
module LzBuffer {
  import opened Bits
  import opened Deflate
  import opened Entropy
  import opened BitWriter
  import opened LzCodes
  import opened SymbolCounts

  /**
   * The code buffer holds the full groups, then the group being filled. That group's flag byte carries its flags
   * in the high bits; left of them are still to come.
   */
  ghost predicate Holds(buf: seq<Byte>, flagsPos: nat, codePos: nat, left: nat, full: seq<Token>, g: seq<Token>) {
    AllFit(full) && AllFit(g) && |full| % 8 == 0 && 1 <= left <= 8 && |g| == 8 - left &&
    flagsPos < codePos <= |buf| && buf[..flagsPos] == Encoded(full) && buf[flagsPos + 1..codePos] == Payload(g) &&
    Shr(buf[flagsPos], left) == Flags(g)
  }

  lemma {:induction false} ShrAdd(a: nat, b: nat, n: nat)
    ensures Shr(a + Shl(b, n), n) == Shr(a, n) + b
  {
    if n > 0 {
      assert (a + 2 * Shl(b, n - 1)) / 2 == a / 2 + Shl(b, n - 1);
      ShrAdd(a / 2, b, n - 1);
    }
  }

  /** Shifting a flag in from the top appends it to the group's flags. */
  lemma ShiftFlag(v: nat, left: nat, g: seq<Token>, t: Token)
    requires v < 256 && 1 <= left <= 8 && |g| == 8 - left && Shr(v, left) == Flags(g)
    ensures v / 2 + (if t.Match? then 0x80 else 0) < 256
    ensures Shr(v / 2 + (if t.Match? then 0x80 else 0), left - 1) == Flags(g + [t])
  {
    FlagsSnoc(g, t);
    if t.Match? {
      ShlPow2(|g|, left - 1);
      assert Pow2(7) == 128;
      ShrAdd(v / 2, Pow2(|g|), left - 1);
    }
  }

  /** The buffer after a token's bytes and its flag have been put in. */
  ghost predicate Extends(buf: seq<Byte>, buf': seq<Byte>, flagsPos: nat, codePos: nat, t: Token)
    requires flagsPos < codePos <= |buf| && TokenFits(t)
  {
    var n := |TokenBytes(t)|;
    |buf'| == |buf| && codePos + n <= |buf| && buf'[..flagsPos] == buf[..flagsPos] &&
    buf'[flagsPos + 1..codePos] == buf[flagsPos + 1..codePos] && buf'[codePos..codePos + n] == TokenBytes(t) &&
    buf'[flagsPos] == buf[flagsPos] / 2 + (if t.Match? then 0x80 else 0)
  }

  lemma SplitAt<T>(b: seq<T>, f: nat, p: nat, c: nat)
    requires f < p <= c <= |b|
    ensures b[f + 1..c] == b[f + 1..p] + b[p..c] && b[..c] == b[..f] + ([b[f]] + b[f + 1..c])
  {
  }

  lemma ExtendsMore(buf: seq<Byte>, buf': seq<Byte>, flagsPos: nat, codePos: nat, left: nat, full: seq<Token>,
      g: seq<Token>, t: Token)
    requires Holds(buf, flagsPos, codePos, left, full, g) && TokenFits(t) && Extends(buf, buf', flagsPos, codePos, t)
    ensures var c := codePos + |TokenBytes(t)|;
            c <= |buf'| && buf'[..flagsPos] == Encoded(full) && AllFit(g + [t]) &&
            buf'[flagsPos + 1..c] == Payload(g + [t])
    ensures Shr(buf'[flagsPos], left - 1) == Flags(g + [t])
  {
    var c := codePos + |TokenBytes(t)|;
    ShiftFlag(buf[flagsPos], left, g, t);
    PayloadSnoc(g, t);
    SplitAt(buf', flagsPos, codePos, c);
  }

  lemma Regroup(b: seq<Byte>, f: nat, c: nat, e: seq<Byte>, p: seq<Byte>, v: Byte)
    requires f < c <= |b| && b[..f] == e && b[f + 1..c] == p && b[f] == v
    ensures b[..c] == e + ([v] + p)
  {
  }

  lemma Eight(n: nat)
    requires n % 8 == 0
    ensures (n + 8) % 8 == 0
  {
  }

  lemma HoldsFresh(buf: seq<Byte>, c: nat, full: seq<Token>)
    requires c < |buf| && AllFit(full) && |full| % 8 == 0 && buf[..c] == Encoded(full) && Shr(buf[c], 8) == 0
    ensures Holds(buf, c, c + 1, 8, full, [])
  {
  }

  /** A completed group joins the full ones, and the next flag byte is reserved. */
  lemma GroupDone(buf: seq<Byte>, flagsPos: nat, c: nat, full: seq<Token>, g: seq<Token>)
    requires AllFit(full) && AllFit(g) && |full| % 8 == 0 && |g| == 8 && flagsPos < c < |buf|
    requires buf[..flagsPos] == Encoded(full) && buf[flagsPos + 1..c] == Payload(g) && buf[flagsPos] == Flags(g)
    ensures Holds(buf, c, c + 1, 8, full + g, [])
  {
    EncodedAppend(full, g);
    Regroup(buf, flagsPos, c, Encoded(full), Payload(g), buf[flagsPos]);
    ByteGone(buf[c]);
    Eight(|full|);
    HoldsFresh(buf, c, full + g);
  }

  lemma HoldsPlace(buf: seq<Byte>, flagsPos: nat, codePos: nat, left: nat, full: seq<Token>, g: seq<Token>)
    requires Holds(buf, flagsPos, codePos, left, full, g)
    ensures flagsPos < codePos <= |buf| && 1 <= left <= 8
  {
  }

  /** The buffer with one token more: its group goes on, or is complete and the next one starts. */
  lemma HoldsMore(buf: seq<Byte>, buf': seq<Byte>, flagsPos: nat, codePos: nat, left: nat,
                  full: seq<Token>, g: seq<Token>, t: Token)
    requires Holds(buf, flagsPos, codePos, left, full, g) && flagsPos < codePos <= |buf|
    requires TokenFits(t) && Extends(buf, buf', flagsPos, codePos, t) && codePos + |TokenBytes(t)| < |buf'|
    ensures var c := codePos + |TokenBytes(t)|;
            if left == 1 then Holds(buf', c, c + 1, 8, full + (g + [t]), [])
            else Holds(buf', flagsPos, c, left - 1, full, g + [t])
  {
    hide TokenBytes, Encoded, Payload, AllFit, Flags, Extends, TokenFits;
    ExtendsMore(buf, buf', flagsPos, codePos, left, full, g, t);
    if left == 1 { GroupDone(buf', flagsPos, codePos + |TokenBytes(t)|, full, g + [t]); }
  }

  lemma SnocAssoc(a: seq<Token>, b: seq<Token>, t: Token)
    ensures (a + b) + [t] == a + (b + [t]) && (a + (b + [t])) + [] == a + (b + [t])
  {
  }

  lemma ByteGone(v: Byte)
    ensures Shr(v, 8) == 0
  {
    assert Pow2(8) == 256;
    ShrBound(v, 0, 8);
  }

  /** The groups as the encoder expects them, after the last flag byte has been shifted into place. */
  lemma Finished(buf: seq<Byte>, buf': seq<Byte>, flagsPos: nat, codePos: nat, left: nat, full: seq<Token>,
      g: seq<Token>)
    requires Holds(buf, flagsPos, codePos, left, full, g) && |buf'| == |buf|
    requires buf'[..flagsPos] == buf[..flagsPos] && buf'[flagsPos + 1..codePos] == buf[flagsPos + 1..codePos]
    requires buf'[flagsPos] == Shr(buf[flagsPos], left)
    ensures var end := if left == 8 then codePos - 1 else codePos;
            AllFit(full + g) && buf'[..end] == Encoded(full + g)
  {
    assert buf'[..flagsPos] == Encoded(full);
    assert buf'[flagsPos + 1..codePos] == Payload(g);
    if left == 8 {
      assert g == [] && full + g == full;
    } else {
      EncodedAppend(full, g);
      Regroup(buf', flagsPos, codePos, Encoded(full), Payload(g), buf'[flagsPos]);
    }
  }

  lemma {:induction false} PayloadLong(ts: seq<Token>)
    requires AllFit(ts)
    ensures |Payload(ts)| >= |ts|
  {
    if ts != [] { PayloadLong(ts[1..]); }
  }

  lemma {:induction false} EncodedLong(ts: seq<Token>)
    requires AllFit(ts)
    ensures |Encoded(ts)| >= |ts|
  {
    if ts != [] {
      var k := if |ts| < 8 then |ts| else 8;
      PayloadLong(ts[..k]);
      EncodedLong(ts[k..]);
    }
  }

  lemma HoldsFew(buf: seq<Byte>, flagsPos: nat, codePos: nat, left: nat, full: seq<Token>, g: seq<Token>)
    requires Holds(buf, flagsPos, codePos, left, full, g)
    ensures |full + g| < codePos
  {
    EncodedLong(full);
    PayloadLong(g);
    assert |buf[..flagsPos]| == flagsPos && |buf[flagsPos + 1..codePos]| == codePos - flagsPos - 1;
  }

  /** The code buffer part of the compressor. */
  class Buffer {
    const codeBuf: array<Byte>
    const t0: Table
    const t1: Table
    var codePos: nat
    var flagsPos: nat
    var numFlagsLeft: nat
    var totalLzBytes: nat
    /** The tokens of the current block: full groups and the rest. */
    ghost var full: seq<Token>
    ghost var group: seq<Token>

    constructor ()
      ensures fresh(this) && fresh(codeBuf) && fresh(t0) && fresh(t1) && fresh(t0.Arrays()) && fresh(t1.Arrays())
      ensures t0.Valid() && t1.Valid() && t0.Arrays() !! t1.Arrays()
      ensures Valid() && Apart() && Tokens() == [] && totalLzBytes == 0 && codePos == 1
    {
      codeBuf := new Byte[CODE_BUF_SIZE];
      t0 := new Table();
      t1 := new Table();
      codePos, flagsPos, numFlagsLeft, totalLzBytes := 1, 0, 8, 0;
      full, group := [], [];
      new;
      ByteGone(codeBuf[0]);
      CountedNothing(t0.count[..], t1.count[..]);
    }

    ghost predicate Apart() {
      t0.Valid() && t1.Valid() && t0.Arrays() !! t1.Arrays() && codeBuf.Length == CODE_BUF_SIZE
    }

    ghost predicate Valid()
      reads this, codeBuf, t0.count, t1.count
    {
      Apart() && Buffered() && Counted(t0.count[..], t1.count[..], full + group)
    }

    /** The tokens of the current block. */
    ghost function Tokens(): seq<Token>
      reads this
    {
      full + group
    }

    ghost predicate Buffered()
      reads this, codeBuf
    {
      codeBuf.Length == CODE_BUF_SIZE && Holds(codeBuf[..], flagsPos, codePos, numFlagsLeft, full, group)
    }

    /** Shifts a token's flag in, and reserves the next flag byte after eight of them. */
    method PutFlag(isMatch: bool, ghost t: Token, ghost buf: seq<Byte>, ghost codePos0: nat)
      requires codeBuf.Length == CODE_BUF_SIZE && TokenFits(t) && isMatch == t.Match?
      requires Holds(buf, flagsPos, codePos0, numFlagsLeft, full, group)
      requires codePos == codePos0 + |TokenBytes(t)| < codeBuf.Length == |buf|
      requires codeBuf[..codePos0] == buf[..codePos0] && codeBuf[codePos0..codePos] == TokenBytes(t)
      modifies this`codePos, this`flagsPos, this`numFlagsLeft, this`full, this`group, codeBuf
      ensures Buffered() && Tokens() == old(Tokens()) + [t] && old(codePos) <= codePos <= old(codePos) + 1
    {
      hide Holds, Extends, TokenBytes, AllFit;
      ghost var left, g := numFlagsLeft, group + [t];
      HoldsPlace(buf, flagsPos, codePos0, left, full, group);
      ShiftIn(isMatch, t, buf, codePos0);
      HoldsMore(buf, codeBuf[..], flagsPos, codePos0, left, full, group, t);
      SnocAssoc(full, group, t);
      numFlagsLeft := numFlagsLeft - 1;
      if numFlagsLeft == 0 {
        numFlagsLeft := 8;
        flagsPos := codePos;
        codePos := codePos + 1;
        full, group := full + g, [];
      } else {
        group := g;
      }
    }

    method ShiftIn(isMatch: bool, ghost t: Token, ghost buf: seq<Byte>, ghost codePos0: nat)
      requires TokenFits(t) && isMatch == t.Match? && codePos == codePos0 + |TokenBytes(t)| < codeBuf.Length == |buf|
      requires flagsPos < codePos0
      requires codeBuf[..codePos0] == buf[..codePos0] && codeBuf[codePos0..codePos] == TokenBytes(t)
      modifies codeBuf
      ensures Extends(buf, codeBuf[..], flagsPos, codePos0, t)
    {
      assert codeBuf[flagsPos] == buf[..codePos0][flagsPos];
      assert codeBuf[..flagsPos] == buf[..codePos0][..flagsPos];
      assert codeBuf[flagsPos + 1..codePos0] == buf[..codePos0][flagsPos + 1..];
      codeBuf[flagsPos] := codeBuf[flagsPos] / 2 + (if isMatch then 0x80 else 0);
    }

    method StoreLiteral(lit: Byte)
      requires Buffered() && codePos + 1 < codeBuf.Length
      modifies this`codePos, this`flagsPos, this`numFlagsLeft, this`full, this`group, codeBuf
      ensures Buffered() && Tokens() == old(Tokens()) + [Lit(lit)] && old(codePos) < codePos <= old(codePos) + 2
    {
      hide Holds, Extends, AllFit;
      ghost var buf, p: nat := codeBuf[..], codePos;
      codeBuf[codePos] := lit;
      codePos := codePos + 1;
      PutFlag(false, Lit(lit), buf, p);
    }

    method StoreMatch(matchLen: nat, matchDist: nat)
      requires Buffered() && 3 <= matchLen <= 258 && 1 <= matchDist <= 32768 && codePos + 3 < codeBuf.Length
      modifies this`codePos, this`flagsPos, this`numFlagsLeft, this`full, this`group, codeBuf
      ensures Buffered() && Tokens() == old(Tokens()) + [Match(matchLen, matchDist)]
      ensures old(codePos) < codePos <= old(codePos) + 4
    {
      hide Holds, Extends, AllFit;
      ghost var buf, p: nat, t := codeBuf[..], codePos, Match(matchLen, matchDist);
      codeBuf[codePos] := matchLen - 3;
      codeBuf[codePos + 1] := (matchDist - 1) % 256;
      codeBuf[codePos + 2] := (matchDist - 1) / 256;
      codePos := codePos + 3;
      assert codeBuf[p..p + 3] == TokenBytes(t);
      PutFlag(true, t, buf, p);
    }

    /** Adds one to a sixteen-bit count. */
    method Count(counts: array<nat>, s: nat)
      requires s < counts.Length && counts[s] < 0xFFFF
      modifies counts
      ensures counts[..] == old(counts[..])[s := old(counts[s]) + 1]
    {
      counts[s] := (counts[s] + 1) % 0x1_0000;
    }

    /** The counts stay below the number of tokens, and so within sixteen bits. */
    lemma CountsFit(s: nat)
      requires Valid() && s < 288 && codePos < CODE_BUF_SIZE
      ensures t0.count[s] < 0xFFFF && t1.count[s] < 0xFFFF
    {
      assert t0.count[s] == t0.count[..][s] && t1.count[s] == t1.count[..][s];
      HoldsFew(codeBuf[..], flagsPos, codePos, numFlagsLeft, full, group);
      UsesFew(full + group, s);
      DistUsesFew(full + group, s);
    }

    method RecordLiteral(lit: Byte)
      requires Valid() && codePos + 1 < codeBuf.Length
      modifies this, codeBuf, t0.count
      ensures Valid() && Tokens() == old(Tokens()) + [Lit(lit)] && totalLzBytes == old(totalLzBytes) + 1
      ensures old(codePos) < codePos <= old(codePos) + 2
    {
      hide Holds, Counted;
      ghost var ts := Tokens();
      CountsFit(lit);
      CountedLit(t0.count[..], t1.count[..], ts, lit);
      totalLzBytes := totalLzBytes + 1;
      StoreLiteral(lit);
      Count(t0.count, lit);
    }

    method RecordMatch(matchLen: nat, matchDist: nat)
      requires Valid() && 3 <= matchLen <= 258 && 1 <= matchDist <= 32768 && codePos + 3 < codeBuf.Length
      modifies this, codeBuf, t0.count, t1.count
      ensures Valid() && Tokens() == old(Tokens()) + [Match(matchLen, matchDist)]
      ensures totalLzBytes == old(totalLzBytes) + matchLen && old(codePos) < codePos <= old(codePos) + 4
    {
      hide Holds, Counted, LenSym, SmallDistSym, LargeDistSym;
      var dist := matchDist - 1;
      var s0, s1 := LenSym(matchLen - 3), if dist < 512 then SmallDistSym(dist) else LargeDistSym(dist / 256);
      assert s1 == DistSym(dist);
      CountsFit(s0);
      CountsFit(s1);
      CountedMatch(t0.count[..], t1.count[..], Tokens(), matchLen, matchDist);
      totalLzBytes := totalLzBytes + matchLen;
      StoreMatch(matchLen, matchDist);
      Count(t1.count, s1);
      Count(t0.count, s0);
    }

    /** Completes the last flag byte and drops one that was reserved in vain. */
    method Finish() returns (end: nat)
      requires Valid()
      modifies codeBuf
      ensures end <= codeBuf.Length && AllFit(Tokens()) && codeBuf[..end] == Encoded(Tokens()) && |Tokens()| < codePos
    {
      ghost var buf := codeBuf[..];
      HoldsFew(buf, flagsPos, codePos, numFlagsLeft, full, group);
      FlagsByte(group);
      codeBuf[flagsPos] := Shr(codeBuf[flagsPos], numFlagsLeft);
      Finished(buf, codeBuf[..], flagsPos, codePos, numFlagsLeft, full, group);
      end := if numFlagsLeft == 8 then codePos - 1 else codePos;
    }

    /** Starts the next block. */
    method Reset()
      requires Apart()
      modifies this, t0.count, t1.count
      ensures Valid() && Tokens() == [] && totalLzBytes == 0 && codePos == 1
    {
      forall i | 0 <= i < 288 { t0.count[i] := 0; }
      forall i | 0 <= i < 288 { t1.count[i] := 0; }
      codePos, flagsPos, numFlagsLeft, totalLzBytes := 1, 0, 8, 0;
      full, group := [], [];
      ByteGone(codeBuf[0]);
      CountedNothing(t0.count[..], t1.count[..]);
    }
  }

  lemma CountedLit(c0: seq<nat>, c1: seq<nat>, ts: seq<Token>, lit: Byte)
    requires Counted(c0, c1, ts)
    ensures Counted(c0[lit := c0[lit] + 1], c1, ts + [Lit(lit)])
  {
    CountedSnoc(c0, c1, ts, Lit(lit));
  }

  lemma CountedMatch(c0: seq<nat>, c1: seq<nat>, ts: seq<Token>, len: nat, dist: nat)
    requires Counted(c0, c1, ts) && 3 <= len <= 258 && 1 <= dist <= 32768
    ensures var s0, s1 := LenSym(len - 3), DistSym(dist - 1);
            Counted(c0[s0 := c0[s0] + 1], c1[s1 := c1[s1] + 1], ts + [Match(len, dist)])
  {
    CountedSnoc(c0, c1, ts, Match(len, dist));
  }

  lemma {:induction false} UsesFew(ts: seq<Token>, s: nat)
    ensures LitUses(ts, s) <= |ts|
  {
    if ts != [] { UsesFew(ts[..|ts| - 1], s); }
  }

  lemma {:induction false} DistUsesFew(ts: seq<Token>, s: nat)
    ensures DistUses(ts, s) <= |ts|
  {
    if ts != [] { DistUsesFew(ts[..|ts| - 1], s); }
  }
}
