/** Lazy LZ77 parsing (miniz tdefl_compress_normal). */
module Parser {
  import opened Bits
  import opened Deflate
  import opened SymbolCounts
  import opened LzCodes
  import opened LzBuffer
  import opened Lz77
  import opened Dictionary

  datatype Flags = Flags(maxProbes: nat, greedy: bool, rle: bool, forceRaw: bool, forceStatic: bool, filter: bool,
                         zlib: bool, computeAdler: bool)

  /**
   * The tokens, expanded behind the source from base up to from, give the source from base up to upto: they need
   * nothing of what is before base.
   */
  ghost predicate Parses(ts: seq<Token>, src: seq<Byte>, base: nat, from: nat, upto: nat) {
    base <= from <= upto <= |src| && Expandable(ts, src[base..from]) && Expand(ts, src[base..from]) == src[base..upto]
  }

  lemma ParsesNothing(src: seq<Byte>, base: nat, from: nat)
    requires base <= from <= |src|
    ensures Parses([], src, base, from, from)
  {
  }

  lemma ParsesLiteral(ts: seq<Token>, src: seq<Byte>, base: nat, from: nat, upto: nat)
    requires Parses(ts, src, base, from, upto) && upto < |src|
    ensures Parses(ts + [Lit(src[upto])], src, base, from, upto + 1)
  {
    hide Expandable, Expand;
    ExpandSnoc(ts, Lit(src[upto]), src[base..from]);
    assert src[base..upto] + [src[upto]] == src[base..upto + 1];
  }

  lemma ParsesMatch(ts: seq<Token>, src: seq<Byte>, base: nat, from: nat, upto: nat, len: nat, dist: nat)
    requires Parses(ts, src, base, from, upto) && MatchAt(src, upto, dist, len) && 3 <= len <= 258
    requires dist <= 32768 && base + dist <= upto
    ensures Parses(ts + [Match(len, dist)], src, base, from, upto + len)
  {
    ExpandSnoc(ts, Match(len, dist), src[base..from]);
    CopyIsLater(src, base, upto, dist, len);
  }

  /** A match that starts behind base gives the same bytes when nothing before base is there. */
  lemma CopyIsLater(src: seq<Byte>, base: nat, pos: nat, dist: nat, len: nat)
    requires MatchAt(src, pos, dist, len) && base + dist <= pos
    ensures CopyMatch(src[base..pos], len, dist) == src[base..pos + len]
  {
    var later := src[base..];
    CopyIsSource(later, pos - base, dist, len);
    assert later[..pos - base] == src[base..pos] && later[..pos - base + len] == src[base..pos + len];
  }

  lemma ParsesGrow(ts: seq<Token>, src: seq<Byte>, more: seq<Byte>, base: nat, from: nat, upto: nat)
    requires Parses(ts, src, base, from, upto)
    ensures Parses(ts, src + more, base, from, upto)
  {
    assert (src + more)[base..from] == src[base..from] && (src + more)[base..upto] == src[base..upto];
  }

  /** A match found one byte before the lookahead and held back in case the next one is longer. */
  ghost predicate SavedOk(src: seq<Byte>, base: nat, pos: nat, ahead: nat, len: nat, dist: nat, lit: Byte) {
    len > 0 ==> 3 <= len < 128 && 1 <= pos <= |src| && dist <= DICT_SIZE && base + dist < pos && len <= ahead + 1 &&
                MatchAt(src, pos - 1, dist, len) && lit == src[pos - 1]
  }

  lemma SavedGrow(src: seq<Byte>, more: seq<Byte>, base: nat, pos: nat, ahead: nat, len: nat, dist: nat, lit: Byte)
    requires SavedOk(src, base, pos, ahead, len, dist, lit)
    ensures SavedOk(src + more, base, pos, ahead + |more|, len, dist, lit)
  {
    if len > 0 { MatchGrowSource(src, more, pos - 1, dist, len); }
  }

  // ----- what the parser may use, and when

  /** A length and a distance; none when the distance is zero. */
  datatype Found = Found(len: nat, dist: nat)

  /** A match the options allow: not a short one far away, nor a short one at all, nor another than a run. */
  predicate Allowed(flags: Flags, f: Found) {
    f.len >= MIN_MATCH && (f.len == MIN_MATCH ==> f.dist < 8192) && (flags.filter ==> f.len > 5) &&
    (flags.rle ==> f.dist == 1) && !flags.forceRaw
  }

  /**
   * One decision, when held is the match held back one byte before the lookahead, if its length is not zero, and cur
   * is the one found at the lookahead: added is recorded, held' is held back now, and the lookahead moves. A match
   * held back is used unless the next byte has a longer one; then it gives way to a literal.
   */
  ghost predicate Rule(flags: Flags, held: Found, lit: Byte, cur: Found, here: Byte, added: seq<Token>, held': Found,
      move: nat) {
    if held.len > 0 && cur.len <= held.len then
      added == [Match(held.len, held.dist)] && held'.len == 0 && move == held.len - 1
    else if cur.dist == 0 then
      added == [Lit(here)] && held'.len == 0 && move == 1
    else if cur.len >= 128 || (held.len == 0 && (flags.greedy || flags.rle)) then
      added == GaveWay(held, lit) + [Match(cur.len, cur.dist)] && held'.len == 0 && move == cur.len
    else
      added == GaveWay(held, lit) && held' == cur && move == 1
  }

  /** The literal that a match held back gives way to. */
  ghost function GaveWay(held: Found, lit: Byte): seq<Token> { if held.len > 0 then [Lit(lit)] else [] }

  class Parser {
    const d: Dict
    const lz: Buffer
    const flags: Flags
    const maxProbes0: nat
    const maxProbes1: nat
    var savedLen: nat
    var savedDist: nat
    var savedLit: Byte
    /** Where in the source the current block starts. */
    var lzDictPos: nat

    constructor (flags: Flags)
      ensures fresh(this) && this.flags == flags && Valid() && fresh(Parts())
      ensures d.src == [] && d.base == 0 && savedLen == 0 && lzDictPos == 0 && lz.codePos == 1 && lz.Tokens() == []
    {
      hide Parses, Buffer.Valid, Dict.Valid, MatchAt;
      this.flags := flags;
      d := new Dict();
      lz := new Buffer();
      maxProbes0 := 1 + (flags.maxProbes + 2) / 3;
      maxProbes1 := 1 + (flags.maxProbes / 4 + 2) / 3;
      savedLen, savedDist, savedLit, lzDictPos := 0, 0, 0, 0;
      new;
      assert Apart();
      ParsesNothing(d.src, 0, 0);
    }

    ghost function Parts(): set<object> { d.Parts() + LzParts() }

    ghost function LzParts(): set<object> {
      {lz, lz.codeBuf} + lz.t0.Arrays() + lz.t1.Arrays()
    }

    ghost predicate Apart() {
      lz.Apart() && maxProbes0 > 0 && maxProbes1 > 0 && d.Parts() !! LzParts()
    }

    ghost function Held(): Found
      reads `savedLen, `savedDist
    {
      Found(savedLen, savedDist)
    }

    /** How much of the source the recorded tokens cover. */
    ghost function Done(): int
      reads this, d
    {
      d.lookaheadPos - (if savedLen > 0 then 1 else 0)
    }

    ghost predicate Valid()
      reads this, d, d.dict, d.next, d.hash, lz, lz.codeBuf, lz.t0.count, lz.t1.count
    {
      Apart() && lz.Valid() && Placed()
    }

    /** The dictionary, what the tokens cover, and the match held back; the code buffer may have been closed. */
    ghost predicate Placed()
      reads this, d, d.dict, d.next, d.hash, lz
    {
      d.Valid() && Covers() && Saved()
    }

    ghost predicate Covers()
      reads this, d, lz
    {
      Done() == lzDictPos + lz.totalLzBytes && Recorded()
    }

    ghost predicate Recorded()
      reads this, d, lz
    {
      Parses(lz.Tokens(), d.src, d.base, lzDictPos, lzDictPos + lz.totalLzBytes)
    }

    ghost predicate Saved()
      reads this, d
    {
      (savedLen > 0 ==> Allowed(flags, Held())) &&
      SavedOk(d.src, d.base, d.lookaheadPos, d.lookaheadSize, savedLen, savedDist, savedLit)
    }

    /** The block's tokens cover source bytes that have all been looked at. */
    lemma Within()
      requires Placed()
      ensures d.base <= lzDictPos && lzDictPos + lz.totalLzBytes <= d.lookaheadPos <= |d.src| && d.Valid()
      ensures Parses(lz.Tokens(), d.src, d.base, lzDictPos, lzDictPos + lz.totalLzBytes)
    {
    }

    lemma AllCounted()
      requires Valid()
      ensures Counted(lz.t0.count[..], lz.t1.count[..], lz.Tokens())
    {
    }

    /** The length that a match at the lookahead has to exceed. */
    ghost function Floor(): nat
      reads `savedLen
    {
      if savedLen > 0 then savedLen else MIN_MATCH - 1
    }

    /** How many times up to three links of a chain are followed. */
    ghost function Budget(): nat
      reads `savedLen
    {
      if Floor() >= 32 then maxProbes1 else maxProbes0
    }

    /**
     * Why cur is offered at the lookahead: but for matches behind as many others as there are probes, none in the
     * window is longer than longest, and a match of that length is offered unless it is too short or is as far back
     * as its place in the ring.
     */
    ghost predicate Sought(cur: Found, longest: Found)
      reads this, d
    {
      d.LongestIs(Budget(), longest.len) &&
      (cur == longest || longest.len <= Floor() || longest.len <= (if flags.filter then 5 else MIN_MATCH) ||
       longest.dist == d.lookaheadPos % DICT_SIZE)
    }

    /** The same when only runs are looked for. */
    ghost predicate RunSought(cur: Found)
      reads this, d
    {
      d.dictSize > 0 && cur.dist == 0 && d.lookaheadPos % DICT_SIZE != 1 ==>
        !d.Candidate(1, if flags.filter then 6 else MIN_MATCH)
    }

    ghost predicate Best(cur: Found, longest: Found)
      reads this, d
    {
      (cur.dist > 0 ==> Allowed(flags, cur) && d.Candidate(cur.dist, cur.len)) &&
      (cur.dist == 0 ==> cur.len <= Floor()) &&
      (flags.forceRaw ==> cur.dist == 0) && (flags.rle && !flags.forceRaw ==> RunSought(cur)) &&
      (!flags.rle && !flags.forceRaw ==> Sought(cur, longest))
    }

    /** The best match at the lookahead that the options allow. */
    method CurrentMatch() returns (curDist: nat, curLen: nat, ghost longest: Found)
      requires Valid()
      ensures Best(Found(curLen, curDist), longest)
    {
      hide Parses, Buffer.Valid, Dict.LongestIs, Dict.Chained, Dict.AllBeaten, Dict.Over;
      curDist, curLen := 0, if savedLen > 0 then savedLen else MIN_MATCH - 1;
      if flags.rle || flags.forceRaw {
        if d.dictSize > 0 && !flags.forceRaw {
          curDist, curLen := d.RunLength();
        }
      } else {
        ghost var n;
        curDist, curLen, n := d.FindMatch(maxProbes0, maxProbes1, curDist, curLen);
        d.AllFound(n, Budget(), curLen);
      }
      longest := Found(curLen, curDist);
      if (curLen == MIN_MATCH && curDist >= 8192) || d.lookaheadPos % DICT_SIZE == curDist ||
         (flags.filter && curLen <= 5) {
        curDist, curLen := 0, 0;
      }
    }

    method PutLiteral(lit: Byte)
      requires Apart() && lz.Valid() && Recorded() && lz.codePos <= CODE_BUF_SIZE - 8
      requires lzDictPos + lz.totalLzBytes < |d.src| && lit == d.src[lzDictPos + lz.totalLzBytes]
      modifies lz, lz.codeBuf, lz.t0.count
      ensures lz.Valid() && Recorded() && lz.totalLzBytes == old(lz.totalLzBytes) + 1
      ensures lz.Tokens() == old(lz.Tokens()) + [Lit(lit)]
      ensures old(lz.codePos) < lz.codePos <= old(lz.codePos) + 2
    {
      hide Parses, Buffer.Valid, Dict.Valid, MatchAt;
      ParsesLiteral(lz.Tokens(), d.src, d.base, lzDictPos, lzDictPos + lz.totalLzBytes);
      lz.RecordLiteral(lit);
    }

    method PutMatch(len: nat, dist: nat)
      requires Apart() && lz.Valid() && Recorded() && lz.codePos <= CODE_BUF_SIZE - 6
      requires MatchAt(d.src, lzDictPos + lz.totalLzBytes, dist, len) && 3 <= len <= 258 && dist <= DICT_SIZE
      requires d.base + dist <= lzDictPos + lz.totalLzBytes
      modifies lz, lz.codeBuf, lz.t0.count, lz.t1.count
      ensures lz.Valid() && Recorded() && lz.totalLzBytes == old(lz.totalLzBytes) + len
      ensures lz.Tokens() == old(lz.Tokens()) + [Match(len, dist)]
      ensures old(lz.codePos) < lz.codePos <= old(lz.codePos) + 4
    {
      hide Parses, Buffer.Valid, Dict.Valid;
      ParsesMatch(lz.Tokens(), d.src, d.base, lzDictPos, lzDictPos + lz.totalLzBytes, len, dist);
      lz.RecordMatch(len, dist);
    }

    /** What a decision to move by n bytes leaves behind, before the lookahead is moved. */
    ghost predicate Decided(n: nat)
      reads this, d, lz, lz.codeBuf, lz.t0.count, lz.t1.count
    {
      1 <= n <= d.lookaheadSize && d.lookaheadPos < |d.src| && (savedLen > 0 ==> Allowed(flags, Held())) &&
      lz.Valid() && Recorded() &&
      lzDictPos + lz.totalLzBytes + (if savedLen > 0 then 1 else 0) == d.lookaheadPos + n &&
      SavedOk(d.src, d.base, d.lookaheadPos + n, d.lookaheadSize - n, savedLen, savedDist, savedLit)
    }

    /** The decision taken, seen from the tokens recorded before. */
    ghost predicate Took(held: Found, lit: Byte, cur: Found, here: Byte, was: seq<Token>, move: nat)
      reads this, lz
    {
      was <= lz.Tokens() && Rule(flags, held, lit, cur, here, lz.Tokens()[|was|..], Held(), move)
    }

    lemma Ahead()
      requires d.Valid() && d.lookaheadSize > 0
      ensures d.lookaheadPos < |d.src|
    {
    }

    /** The byte at the lookahead, read from the ring. */
    method NextByte() returns (c: Byte)
      requires Apart() && d.Valid() && d.lookaheadSize > 0
      ensures d.lookaheadPos < |d.src| && c == d.src[d.lookaheadPos]
    {
      RingRead(d.dict[..], d.src, d.lookaheadPos, 0);
      c := d.dict[d.lookaheadPos % DICT_SIZE];
    }

    /** Holds the match back, to see whether the next position has a longer one. */
    method Save(curDist: nat, curLen: nat) returns (move: nat)
      requires Apart() && d.Valid() && d.lookaheadSize > 0 && lz.Valid() && Recorded()
      requires lzDictPos + lz.totalLzBytes == d.lookaheadPos
      requires curLen < 128 && Allowed(flags, Found(curLen, curDist)) && d.Candidate(curDist, curLen)
      modifies this`savedLen, this`savedDist, this`savedLit
      ensures Decided(move) && Held() == Found(curLen, curDist) && move == 1
    {
      savedLit := NextByte();
      savedDist, savedLen := curDist, curLen;
      move := 1;
    }

    /** After the held back match has given way to a literal: a long match is taken at once, another held back. */
    method TakeLonger(curDist: nat, curLen: nat) returns (move: nat)
      requires Apart() && d.Valid() && d.lookaheadSize > 0 && lz.Valid() && Recorded() &&
               lz.codePos <= CODE_BUF_SIZE - 6
      requires lzDictPos + lz.totalLzBytes == d.lookaheadPos
      requires Allowed(flags, Found(curLen, curDist)) && d.Candidate(curDist, curLen)
      modifies this`savedLen, this`savedDist, this`savedLit, lz, lz.codeBuf, lz.t0.count, lz.t1.count
      ensures Decided(move) && lz.codePos <= old(lz.codePos) + 4
      ensures if curLen >= 128
              then lz.Tokens() == old(lz.Tokens()) + [Match(curLen, curDist)] && savedLen == 0 && move == curLen
              else lz.Tokens() == old(lz.Tokens()) && Held() == Found(curLen, curDist) && move == 1
    {
      hide Parses, Buffer.Valid, Ring, MatchAt;
      if curLen >= 128 {
        PutMatch(curLen, curDist);
        savedLen := 0;
        move := curLen;
      } else {
        move := Save(curDist, curLen);
      }
    }

    /** The decision when a match has been held back. */
    method DecideSaved(curDist: nat, curLen: nat) returns (move: nat)
      requires Valid() && d.lookaheadSize > 0 && savedLen > 0 && lz.codePos <= CODE_BUF_SIZE - 8
      requires curLen > savedLen ==> curDist > 0
      requires curDist > 0 ==> Allowed(flags, Found(curLen, curDist)) && d.Candidate(curDist, curLen)
      modifies this`savedLen, this`savedDist, this`savedLit, lz, lz.codeBuf, lz.t0.count, lz.t1.count
      ensures Decided(move) && lz.codePos <= old(lz.codePos) + 6
      ensures Took(old(Held()), old(savedLit), Found(curLen, curDist), d.src[d.lookaheadPos], old(lz.Tokens()), move)
    {
      hide Parses, Buffer.Valid, Dict.Valid, MatchAt;
      if curLen > savedLen {
        PutLiteral(savedLit);
        move := TakeLonger(curDist, curLen);
      } else {
        Ahead();
        PutMatch(savedLen, savedDist);
        move := savedLen - 1;
        savedLen := 0;
      }
    }

    /** The decision when none has. */
    method DecideFresh(curDist: nat, curLen: nat) returns (move: nat)
      requires Valid() && d.lookaheadSize > 0 && savedLen == 0 && lz.codePos <= CODE_BUF_SIZE - 8
      requires curDist > 0 ==> Allowed(flags, Found(curLen, curDist)) && d.Candidate(curDist, curLen)
      modifies this`savedLen, this`savedDist, this`savedLit, lz, lz.codeBuf, lz.t0.count, lz.t1.count
      ensures Decided(move) && lz.codePos <= old(lz.codePos) + 6
      ensures Took(old(Held()), old(savedLit), Found(curLen, curDist), d.src[d.lookaheadPos], old(lz.Tokens()), move)
    {
      hide Parses, Buffer.Valid, Ring, MatchAt;
      if curDist == 0 {
        var lit := NextByte();
        PutLiteral(lit);
        move := 1;
      } else if flags.greedy || flags.rle || curLen >= 128 {
        PutMatch(curLen, curDist);
        move := curLen;
      } else {
        move := Save(curDist, curLen);
      }
    }

    /** One decision of the parser: what is recorded, and how far the lookahead moves. */
    method Decide() returns (move: nat, ghost cur: Found, ghost longest: Found)
      requires Valid() && d.lookaheadSize > 0 && lz.codePos <= CODE_BUF_SIZE - 8
      modifies this`savedLen, this`savedDist, this`savedLit, lz, lz.codeBuf, lz.t0.count, lz.t1.count
      ensures Decided(move) && lz.codePos <= old(lz.codePos) + 6
      ensures old(Best(cur, longest))
      ensures Took(old(Held()), old(savedLit), cur, d.src[d.lookaheadPos], old(lz.Tokens()), move)
    {
      var curDist: nat, curLen: nat;
      curDist, curLen, longest := CurrentMatch();
      cur := Found(curLen, curDist);
      if savedLen > 0 {
        move := DecideSaved(curDist, curLen);
      } else {
        move := DecideFresh(curDist, curLen);
      }
    }

    /** One step of the parser: the match that a search in the dictionary offers is taken as the rule has it. */
    method Step() returns (ghost cur: Found, ghost longest: Found)
      requires Valid() && d.lookaheadSize > 0 && lz.codePos <= CODE_BUF_SIZE - 8
      modifies this`savedLen, this`savedDist, this`savedLit, lz, lz.codeBuf, lz.t0.count, lz.t1.count
      modifies d`lookaheadPos, d`lookaheadSize, d`dictSize
      ensures Valid() && lz.codePos <= old(lz.codePos) + 6
      ensures d.lookaheadPos > old(d.lookaheadPos) &&
              d.lookaheadPos + d.lookaheadSize == old(d.lookaheadPos + d.lookaheadSize)
      ensures old(Best(cur, longest)) && old(d.lookaheadPos) < |d.src|
      ensures Took(old(Held()), old(savedLit), cur, d.src[old(d.lookaheadPos)], old(lz.Tokens()),
                   d.lookaheadPos - old(d.lookaheadPos))
    {
      hide Parses, Buffer.Valid, Dict.Valid, Best, Took;
      var move;
      move, cur, longest := Decide();
      d.Advance(move);
    }

    /** Takes in more input. */
    method Fill(input: seq<Byte>, p: nat) returns (p': nat)
      requires Valid() && p <= |input|
      modifies d`src, d`lookaheadSize, d`dictSize, d.dict, d.next, d.hash
      ensures Valid() && p' == p + Min(|input| - p, MAX_MATCH - old(d.lookaheadSize))
      ensures d.src == old(d.src) + input[p..p'] && d.lookaheadSize == old(d.lookaheadSize) + (p' - p)
    {
      ghost var s, n := d.src, d.lookaheadSize;
      p' := d.Fill(input, p);
      ParsesGrow(lz.Tokens(), s, input[p..p'], d.base, lzDictPos, lzDictPos + lz.totalLzBytes);
      SavedGrow(s, input[p..p'], d.base, d.lookaheadPos, n, savedLen, savedDist, savedLit);
    }

    /** When the lookahead is empty no match is held back, and the tokens cover the whole source. */
    lemma AllParsed()
      requires Valid() && d.lookaheadSize == 0
      ensures savedLen == 0 && lzDictPos + lz.totalLzBytes == |d.src|
    {
    }

    /** Starts the next block where the recorded tokens end. */
    method NextBlock()
      requires Apart() && Placed()
      modifies this`lzDictPos, lz, lz.t0.count, lz.t1.count
      ensures Valid() && lzDictPos == old(lzDictPos + lz.totalLzBytes) && lz.Tokens() == [] && lz.totalLzBytes == 0
      ensures lz.codePos == 1
    {
      ParsesNothing(d.src, d.base, lzDictPos + lz.totalLzBytes);
      lzDictPos := lzDictPos + lz.totalLzBytes;
      lz.Reset();
    }

    lemma NothingRecorded()
      requires Recorded() && lz.Tokens() == []
      ensures lz.totalLzBytes == 0
    {
      assert |d.src[d.base..lzDictPos]| == |d.src[d.base..lzDictPos + lz.totalLzBytes]|;
    }

    /** Forgets the source taken in so far, all of which has been written. */
    method Forget()
      requires Valid() && d.lookaheadSize == 0 && lz.Tokens() == []
      modifies d`dictSize, d`base, d.next, d.hash
      ensures Valid() && d.base == |d.src| == lzDictPos
    {
      hide Buffer.Valid;
      AllParsed();
      NothingRecorded();
      d.Forget();
      ParsesNothing(d.src, d.base, lzDictPos);
    }
  }
}
