/**
 * The LZ code buffer: groups of a flag byte and up to eight tokens, and its encoding (miniz tdefl_compress_lz_codes).
 */
module LzCodes {
  import opened Bits
  import opened Canonical
  import opened Deflate
  import opened Entropy
  import opened BitWriter

  /** The size of the buffer, TDEFL_LZ_CODE_BUF_SIZE. */
  const CODE_BUF_SIZE: nat := 65536

  predicate TokenFits(t: Token) {
    t.Lit? || (3 <= t.len <= 258 && 1 <= t.dist <= 32768)
  }

  ghost predicate AllFit(ts: seq<Token>) {
    forall i | 0 <= i < |ts| :: TokenFits(ts[i])
  }

  /** A literal, or length - 3 and distance - 1 with its low byte first. */
  ghost function TokenBytes(t: Token): (b: seq<Byte>)
    requires TokenFits(t)
    ensures 1 <= |b| <= 3
  {
    match t
    case Lit(b) => [b]
    case Match(len, dist) => [len - 3, (dist - 1) % 256, (dist - 1) / 256]
  }

  ghost function Payload(ts: seq<Token>): seq<Byte>
    requires AllFit(ts)
  {
    if ts == [] then [] else TokenBytes(ts[0]) + Payload(ts[1..])
  }

  /** The flag byte: bit i is set when token i is a match. */
  ghost function Flags(ts: seq<Token>): (f: nat)
    ensures f < Pow2(|ts|)
  {
    if ts == [] then 0 else (if ts[0].Match? then 1 else 0) + 2 * Flags(ts[1..])
  }

  /** The buffer contents for a list of tokens. */
  ghost function Encoded(ts: seq<Token>): seq<Byte>
    requires AllFit(ts)
  {
    if ts == [] then []
    else
      var k := if |ts| < 8 then |ts| else 8;
      FlagsByte(ts[..k]);
      [Flags(ts[..k])] + Payload(ts[..k]) + Encoded(ts[k..])
  }

  lemma FlagsByte(g: seq<Token>)
    requires |g| <= 8
    ensures Flags(g) < 256
  {
    Pow2Mono(|g|, 8);
    assert Pow2(8) == 256;
  }

  // ----- appending

  lemma {:induction false} PayloadSnoc(ts: seq<Token>, t: Token)
    requires AllFit(ts) && TokenFits(t)
    ensures Payload(ts + [t]) == Payload(ts) + TokenBytes(t)
  {
    if ts == [] {
      assert ts + [t] == [t];
    } else {
      assert (ts + [t])[1..] == ts[1..] + [t];
      PayloadSnoc(ts[1..], t);
    }
  }

  lemma {:induction false} FlagsSnoc(ts: seq<Token>, t: Token)
    ensures Flags(ts + [t]) == Flags(ts) + (if t.Match? then Pow2(|ts|) else 0)
  {
    if ts == [] {
      assert ts + [t] == [t];
    } else {
      assert (ts + [t])[1..] == ts[1..] + [t];
      FlagsSnoc(ts[1..], t);
    }
  }

  lemma FirstEight(full: seq<Token>, g: seq<Token>)
    requires full != [] && |full| % 8 == 0
    ensures |full| >= 8 && |full[8..]| % 8 == 0
    ensures (full + g)[..8] == full[..8] && (full + g)[8..] == full[8..] + g
  {
  }

  /** A group is appended to full groups. */
  lemma {:induction false} EncodedAppend(full: seq<Token>, g: seq<Token>)
    requires AllFit(full) && AllFit(g) && |full| % 8 == 0 && 1 <= |g| <= 8
    ensures Flags(g) < 256 && Encoded(full + g) == Encoded(full) + ([Flags(g)] + Payload(g))
  {
    FlagsByte(g);
    if full == [] {
      assert full + g == g && g[..|g|] == g && g[|g|..] == [];
    } else {
      FirstEight(full, g);
      EncodedAppend(full[8..], g);
    }
  }

  // ----- reading back

  /**
   * The reader inside a group: m flag bits are left above the marker bit, the tokens g of the group and then those
   * of later groups r are still to come.
   */
  ghost predicate Reading(bytes: seq<Byte>, flags: nat, m: nat, g: seq<Token>, r: seq<Token>) {
    AllFit(g) && AllFit(r) && |g| <= m <= 8 && (r != [] ==> |g| == m) &&
    flags == Flags(g) + Pow2(m) && bytes == Payload(g) + Encoded(r)
  }

  /** Bytes are left exactly when tokens are, and the marker alone is left exactly at a group's end. */
  lemma ReadingEmpty(bytes: seq<Byte>, flags: nat, m: nat, g: seq<Token>, r: seq<Token>)
    requires Reading(bytes, flags, m, g, r)
    ensures bytes == [] <==> g == [] && r == []
    ensures flags == 1 <==> m == 0
  {
    if m > 0 { assert Pow2(m) == 2 * Pow2(m - 1); }
  }

  lemma OpenGroup(bytes: seq<Byte>, g: seq<Token>, r: seq<Token>) returns (g': seq<Token>, r': seq<Token>)
    requires Reading(bytes, 1, 0, g, r) && r != []
    ensures |bytes| > 0 && Reading(bytes[1..], 256 + (bytes[0] as nat), 8, g', r') && g' + r' == r && g' != []
  {
    var k := if |r| < 8 then |r| else 8;
    g', r' := r[..k], r[k..];
    FlagsByte(g');
    assert g == [] && Payload(g) == [];
    assert bytes == [Flags(g')] + (Payload(g') + Encoded(r'));
    assert Pow2(8) == 256;
  }

  lemma TakeToken(bytes: seq<Byte>, flags: nat, m: nat, g: seq<Token>, r: seq<Token>)
    requires Reading(bytes, flags, m, g, r) && g != []
    ensures var n := |TokenBytes(g[0])|;
            n <= |bytes| && bytes[..n] == TokenBytes(g[0]) && Reading(bytes[n..], flags / 2, m - 1, g[1..], r)
    ensures flags % 2 == 1 <==> g[0].Match?
  {
    hide TokenBytes, TokenFits, Encoded, Pow2, Payload, Flags;
    NextFlag(g, m);
    NextPayload(g, r);
  }

  lemma NextFlag(g: seq<Token>, m: nat)
    requires g != [] && m > 0
    ensures (Flags(g) + Pow2(m)) / 2 == Flags(g[1..]) + Pow2(m - 1)
    ensures (Flags(g) + Pow2(m)) % 2 == 1 <==> g[0].Match?
  {
    assert Flags(g) + Pow2(m) == (if g[0].Match? then 1 else 0) + 2 * (Flags(g[1..]) + Pow2(m - 1));
  }

  lemma NextPayload(g: seq<Token>, r: seq<Token>)
    requires AllFit(g) && AllFit(r) && g != []
    ensures var bytes, b := Payload(g) + Encoded(r), TokenBytes(g[0]);
            |b| <= |bytes| && bytes[..|b|] == b && bytes[|b|..] == Payload(g[1..]) + Encoded(r)
  {
    hide TokenBytes, Encoded;
    Dropped(TokenBytes(g[0]), Payload(g[1..]), Encoded(r));
  }

  lemma Dropped(a: seq<Byte>, b: seq<Byte>, c: seq<Byte>)
    ensures ((a + b) + c)[..|a|] == a && ((a + b) + c)[|a|..] == b + c
  {
  }

  // ----- writing the tokens out

  /** Every symbol with a length is spelled right, and blocks can be ended. */
  ghost predicate Ready(t0: Table, t1: Table)
    requires t0.Valid() && t1.Valid()
    reads t0.size, t1.size, t0.code, t1.code
  {
    (forall i | 0 <= i < 288 :: t0.size[i] <= 15 && (t0.size[i] > 0 ==> Spelled(t0, 288, i))) &&
    (forall i | 0 <= i < 32 :: t1.size[i] <= 15 && (t1.size[i] > 0 ==> Spelled(t1, 32, i))) &&
    t0.size[256] > 0
  }

  /** The tables code token t. */
  ghost predicate Codes(t0: Table, t1: Table, t: Token)
    requires t0.Valid() && t1.Valid()
    reads t0.size, t1.size
  {
    HasCodes(t0.size[..288], t1.size[..32], t)
  }

  /** The code stored for symbol i of a table with n symbols writes its codeword. */
  ghost predicate Spelled(t: Table, n: nat, i: nat)
    requires t.Valid() && i < n <= 288
    reads t.size, t.code
  {
    t.size[i] > 0 && t.code[i] < Pow2(t.size[i]) && BitsOf(t.code[i], t.size[i]) == Codeword(t.size[..n], i)
  }

  method PutCode(w: Writer, t: Table, n: nat, i: nat)
    requires w.Valid() && t.Valid() && i < n <= 288 && t.size[i] <= 15 && Spelled(t, n, i)
    modifies w, w.buf
    ensures w.Valid() && w.Keeps(old(w.buf[..w.pos]))
    ensures w.HasRoom() ==> w.Stream() == old(w.Stream()) + Codeword(t.size[..n], i)
    ensures w.Size() <= old(w.Size()) + t.size[i]
  {
    w.PutBits(t.code[i], t.size[i]);
  }

  lemma MaskBits(v: nat, n: nat)
    ensures BitsOf(Mask(v, n), n) == BitsOf(v, n)
  {
    BitsOfValueOf(BitsOf(v, n));
  }

  /** Length symbol, length bits, distance symbol, distance bits. */
  method PutMatch(w: Writer, t0: Table, t1: Table, matchLen: nat, matchDist: nat)
    requires w.Valid() && t0.Valid() && t1.Valid() && matchLen <= 255 && matchDist < 32768
    requires t0.size[LenSym(matchLen)] <= 15 && Spelled(t0, 288, LenSym(matchLen))
    requires t1.size[DistSym(matchDist)] <= 15 && Spelled(t1, 32, DistSym(matchDist))
    modifies w, w.buf
    ensures w.Valid() && w.Keeps(old(w.buf[..w.pos]))
    ensures w.HasRoom() ==>
              w.Stream() ==
              old(w.Stream()) + TokenBits(t0.size[..288], t1.size[..32], Match(matchLen + 3, matchDist + 1))
    ensures w.Size() <= old(w.Size()) + TokenSize(t0.size[..288], t1.size[..32], Match(matchLen + 3, matchDist + 1))
  {
    ghost var s, ls, ds := w.Stream(), t0.size[..288], t1.size[..32];
    ghost var b0 := w.buf[..w.pos];
    PutCode(w, t0, 288, LenSym(matchLen));
    ghost var b1 := w.buf[..w.pos];
    PutBits16(w, matchLen, LenExtra(matchLen));
    ghost var b2 := w.buf[..w.pos];
    PrefixTrans(b0, b1, b2);
    var sym, numExtraBits;
    if matchDist < 512 {
      sym, numExtraBits := SmallDistSym(matchDist), SmallDistExtra(matchDist);
    } else {
      sym, numExtraBits := LargeDistSym(matchDist / 256), LargeDistExtra(matchDist / 256);
    }
    PutCode(w, t1, 32, sym);
    ghost var b3 := w.buf[..w.pos];
    PrefixTrans(b0, b2, b3);
    PutBits16(w, matchDist, numExtraBits);
    PrefixTrans(b0, b3, w.buf[..w.pos]);
    MatchBits(s, ls, ds, matchLen, matchDist);
  }

  /** The four parts of a match, one after the other. */
  lemma MatchBits(s: seq<bool>, ls: seq<nat>, ds: seq<nat>, l: nat, d: nat)
    requires l <= 255 && d < 32768 && HasCodes(ls, ds, Match(l + 3, d + 1))
    ensures s + Codeword(ls, LenSym(l)) + BitsOf(l, LenExtra(l)) + Codeword(ds, DistSym(d)) + BitsOf(d, DistExtra(d))
            == s + TokenBits(ls, ds, Match(l + 3, d + 1))
  {
    var a, b := Codeword(ls, LenSym(l)), BitsOf(l, LenExtra(l));
    var c, e := Codeword(ds, DistSym(d)), BitsOf(d, DistExtra(d));
    var t := Match(l + 3, d + 1);
    assert MatchTail(ds, t) == b + (c + e);
    assert TokenBits(ls, ds, t) == a + (b + (c + e));
    assert s + a + b + c + e == s + (a + (b + (c + e)));
  }

  method PutBits16(w: Writer, v: nat, n: nat)
    requires w.Valid() && n <= 13
    modifies w, w.buf
    ensures w.Valid() && w.Keeps(old(w.buf[..w.pos]))
    ensures w.HasRoom() ==> w.Stream() == old(w.Stream()) + BitsOf(v, n)
    ensures w.Size() <= old(w.Size()) + n
  {
    MaskBits(v, n);
    w.PutBits(Mask(v, n), n);
  }

  method PutLit(w: Writer, t0: Table, t1: Table, lit: Byte)
    requires w.Valid() && t0.Valid() && t1.Valid() && t0.size[lit] <= 15 && Spelled(t0, 288, lit)
    modifies w, w.buf
    ensures w.Valid() && w.Keeps(old(w.buf[..w.pos]))
    ensures w.HasRoom() ==> w.Stream() == old(w.Stream()) + TokenBits(t0.size[..288], t1.size[..32], Lit(lit))
    ensures w.Size() <= old(w.Size()) + TokenSize(t0.size[..288], t1.size[..32], Lit(lit))
  {
    PutCode(w, t0, 288, lit);
  }

  /** Encodes the token at position p of the code buffer. */
  method PutToken(w: Writer, t0: Table, t1: Table, codeBuf: array<Byte>, p: nat, end: nat, flags: nat, ghost m: nat,
      ghost g: seq<Token>, ghost r: seq<Token>) returns (p': nat)
    requires w.Valid() && t0.Valid() && t1.Valid() && codeBuf != w.buf && p <= end <= codeBuf.Length
    requires Reading(codeBuf[p..end], flags, m, g, r) && m > 0 && g != [] && Ready(t0, t1) && Codes(t0, t1, g[0])
    modifies w, w.buf
    ensures w.Valid() && w.Keeps(old(w.buf[..w.pos]))
    ensures p <= p' <= end && Reading(codeBuf[p'..end], flags / 2, m - 1, g[1..], r)
    ensures Codes(t0, t1, g[0])
    ensures w.HasRoom() ==> w.Stream() == old(w.Stream()) + TokenBits(t0.size[..288], t1.size[..32], g[0])
    ensures w.Size() <= old(w.Size()) + TokenSize(t0.size[..288], t1.size[..32], g[0])
  {
    hide Payload, Encoded, Flags, Reading, Codeword, BitsOf, TokenBits, TokenSize, BytesBits;
    ghost var bytes, t := codeBuf[p..end], g[0];
    TakeToken(bytes, flags, m, g, r);
    TokenAt(codeBuf[..], p, end, t);
    if flags % 2 == 1 {
      var matchLen, matchDist := codeBuf[p] as nat, (codeBuf[p + 1] as nat) + (codeBuf[p + 2] as nat) * 256;
      p' := p + 3;
      PutMatch(w, t0, t1, matchLen, matchDist);
    } else {
      p' := p + 1;
      PutLit(w, t0, t1, codeBuf[p]);
    }
  }

  lemma TokenAt(buf: seq<Byte>, p: nat, end: nat, t: Token)
    requires p <= end <= |buf| && TokenFits(t) && TokenBytes(t) <= buf[p..end]
    ensures buf[p + |TokenBytes(t)|..end] == buf[p..end][|TokenBytes(t)|..]
    ensures t.Lit? ==> p < end && buf[p] == t.b
    ensures t.Match? ==> p + 2 < end && buf[p] == t.len - 3 &&
                         (buf[p + 1] as nat) + (buf[p + 2] as nat) * 256 == t.dist - 1
  {
    var b, c := TokenBytes(t), buf[p..end];
    assert c[0] == b[0] && buf[p] == c[0];
    if t.Match? {
      assert c[1] == b[1] && c[2] == b[2] && buf[p + 1] == c[1] && buf[p + 2] == c[2];
    }
  }

  lemma TailOfConcat(g: seq<Token>, r: seq<Token>)
    requires g != []
    ensures (g + r)[0] == g[0] && (g + r)[1..] == g[1..] + r
  {
  }

  /** Encodes the next token, after the flag byte of a new group where there is one. */
  method PutNext(w: Writer, t0: Table, t1: Table, codeBuf: array<Byte>, p: nat, end: nat, flags: nat, ghost m: nat,
      ghost g: seq<Token>, ghost r: seq<Token>)
      returns (p': nat, flags': nat, ghost m': nat, ghost g': seq<Token>, ghost r': seq<Token>)
    requires w.Valid() && t0.Valid() && t1.Valid() && codeBuf != w.buf && p < end <= codeBuf.Length
    requires Reading(codeBuf[p..end], flags, m, g, r) && g + r != [] && Ready(t0, t1) && Codes(t0, t1, (g + r)[0])
    modifies w, w.buf
    ensures w.Valid() && w.Keeps(old(w.buf[..w.pos]))
    ensures p <= p' <= end && Reading(codeBuf[p'..end], flags', m', g', r') && g' + r' == (g + r)[1..]
    ensures Codes(t0, t1, (g + r)[0])
    ensures w.HasRoom() ==> w.Stream() == old(w.Stream()) + TokenBits(t0.size[..288], t1.size[..32], (g + r)[0])
    ensures w.Size() <= old(w.Size()) + TokenSize(t0.size[..288], t1.size[..32], (g + r)[0])
  {
    hide Payload, Encoded, Flags, Reading, Codeword, BitsOf, TokenBits, TokenSize, BytesBits, Ready, HasCodes;
    p', flags', m', g', r' := OpenIfNeeded(codeBuf, p, end, flags, m, g, r);
    TailOfConcat(g', r');
    p' := PutToken(w, t0, t1, codeBuf, p', end, flags', m', g', r');
    flags', m', g' := flags' / 2, m' - 1, g'[1..];
  }

  /** Reads a flag byte when the marker bit is all that is left of the last one. */
  method OpenIfNeeded(codeBuf: array<Byte>, p: nat, end: nat, flags: nat, ghost m: nat, ghost g: seq<Token>,
      ghost r: seq<Token>)
      returns (p': nat, flags': nat, ghost m': nat, ghost g': seq<Token>, ghost r': seq<Token>)
    requires p < end <= codeBuf.Length && Reading(codeBuf[p..end], flags, m, g, r) && g + r != []
    ensures p <= p' <= end && Reading(codeBuf[p'..end], flags', m', g', r')
    ensures g' != [] && m' > 0 && g' + r' == g + r
  {
    ghost var bytes := codeBuf[p..end];
    ReadingEmpty(bytes, flags, m, g, r);
    p', flags', m', g', r' := p, flags, m, g, r;
    if flags == 1 {
      assert codeBuf[p + 1..end] == bytes[1..];
      flags' := 256 + (codeBuf[p] as nat);
      p' := p + 1;
      g', r' := OpenGroup(bytes, g, r);
      m' := 8;
      assert g + r == r;
    }
  }

  /** One more token written. */
  lemma NextWritten(s: seq<bool>, ls: seq<nat>, ds: seq<nat>, ts: seq<Token>, n: nat)
    requires n < |ts| && AllHaveCodes(ls, ds, ts)
    ensures (s + TokensBits(ls, ds, ts[..n])) + TokenBits(ls, ds, ts[n]) == s + TokensBits(ls, ds, ts[..n + 1])
    ensures ts[n..][0] == ts[n] && ts[n..][1..] == ts[n + 1..]
    ensures TokensSize(ls, ds, ts[..n + 1]) == TokensSize(ls, ds, ts[..n]) + TokenSize(ls, ds, ts[n])
  {
    assert ts[..n + 1][..n] == ts[..n];
    assert ts[..n + 1] == ts[..n] + [ts[n]];
    TokensBitsSnoc(ls, ds, ts[..n], ts[n]);
    ConcatAssoc(s, TokensBits(ls, ds, ts[..n]), TokenBits(ls, ds, ts[n]));
  }

  /** The first n tokens have been written behind s, when the output held k bits. */
  ghost predicate Written(w: Writer, s: seq<bool>, k: nat, ls: seq<nat>, ds: seq<nat>, ts: seq<Token>, n: nat)
    reads w, w.buf
  {
    w.Valid() && n <= |ts| && AllHaveCodes(ls, ds, ts) &&
    (w.HasRoom() ==> w.Stream() == s + TokensBits(ls, ds, ts[..n])) && w.Size() <= k + TokensSize(ls, ds, ts[..n])
  }

  /** One more of them. */
  method PutStep(w: Writer, t0: Table, t1: Table, codeBuf: array<Byte>, p: nat, end: nat, flags: nat, ghost m: nat,
      ghost g: seq<Token>, ghost r: seq<Token>, ghost ts: seq<Token>, ghost n: nat, ghost s: seq<bool>, ghost k: nat)
      returns (p': nat, flags': nat, ghost m': nat, ghost g': seq<Token>, ghost r': seq<Token>)
    requires t0.Valid() && t1.Valid() && codeBuf != w.buf && p < end <= codeBuf.Length && Ready(t0, t1) && n < |ts|
    requires Reading(codeBuf[p..end], flags, m, g, r) && g + r == ts[n..]
    requires Written(w, s, k, t0.size[..288], t1.size[..32], ts, n)
    modifies w, w.buf
    ensures w.Keeps(old(w.buf[..w.pos])) && Written(w, s, k, t0.size[..288], t1.size[..32], ts, n + 1)
    ensures p <= p' <= end && Reading(codeBuf[p'..end], flags', m', g', r') && g' + r' == ts[n + 1..]
  {
    NextWritten(s, t0.size[..288], t1.size[..32], ts, n);
    assert Codes(t0, t1, ts[n]);
    p', flags', m', g', r' := PutNext(w, t0, t1, codeBuf, p, end, flags, m, g, r);
  }

  lemma StartReading(bytes: seq<Byte>, ts: seq<Token>)
    requires AllFit(ts) && bytes == Encoded(ts)
    ensures Reading(bytes, 1, 0, [], ts) && [] + ts == ts[0..]
  {
    assert Pow2(0) == 1;
  }

  lemma StartWriting(w: Writer, s: seq<bool>, ls: seq<nat>, ds: seq<nat>, ts: seq<Token>)
    requires w.Valid() && w.Stream() == s && AllHaveCodes(ls, ds, ts)
    ensures Written(w, s, w.Size(), ls, ds, ts, 0)
  {
    assert s + [] == s;
  }

  lemma AllWritten(w: Writer, s: seq<bool>, k: nat, ls: seq<nat>, ds: seq<nat>, ts: seq<Token>, n: nat)
    requires Written(w, s, k, ls, ds, ts, n) && [] == ts[n..]
    ensures AllHaveCodes(ls, ds, ts) && w.Valid() && w.Size() <= k + TokensSize(ls, ds, ts)
    ensures w.HasRoom() ==> w.Stream() == s + TokensBits(ls, ds, ts)
  {
    assert ts[..n] == ts;
  }

  /** Encodes the block's tokens. */
  method PutTokens(w: Writer, t0: Table, t1: Table, codeBuf: array<Byte>, end: nat, ghost ts: seq<Token>)
    requires w.Valid() && t0.Valid() && t1.Valid() && codeBuf != w.buf && end <= codeBuf.Length
    requires AllFit(ts) && codeBuf[..end] == Encoded(ts) && Ready(t0, t1)
    requires AllHaveCodes(t0.size[..288], t1.size[..32], ts)
    modifies w, w.buf
    ensures w.Valid() && w.Keeps(old(w.buf[..w.pos]))
    ensures w.HasRoom() ==> w.Stream() == old(w.Stream()) + TokensBits(t0.size[..288], t1.size[..32], ts)
    ensures w.Size() <= old(w.Size()) + TokensSize(t0.size[..288], t1.size[..32], ts)
  {
    hide Payload, Encoded, Flags, Reading, Codeword, BitsOf, TokenBits, TokenSize, BytesBits, TokensBits, TokensSize,
         Written, Ready, AllHaveCodes, AllFit;
    ghost var s, k, ls, ds := w.Stream(), w.Size(), t0.size[..288], t1.size[..32];
    ghost var n, m: nat, g: seq<Token>, r: seq<Token> := 0, 0, [], ts;
    ghost var b0 := w.buf[..w.pos];
    var flags, p := 1, 0;
    StartReading(codeBuf[..end], ts);
    StartWriting(w, s, ls, ds, ts);
    while p < end
      invariant p <= end && n <= |ts| && g + r == ts[n..]
      invariant Reading(codeBuf[p..end], flags, m, g, r)
      invariant Written(w, s, k, ls, ds, ts, n) && w.Keeps(b0)
      decreases |ts| - n
    {
      ReadingEmpty(codeBuf[p..end], flags, m, g, r);
      ghost var b1 := w.buf[..w.pos];
      p, flags, m, g, r := PutStep(w, t0, t1, codeBuf, p, end, flags, m, g, r, ts, n, s, k);
      PrefixTrans(b0, b1, w.buf[..w.pos]);
      n := n + 1;
    }
    ReadingEmpty(codeBuf[p..end], flags, m, g, r);
    AllWritten(w, s, k, ls, ds, ts, n);
  }

  /** Encodes the block's tokens and the end-of-block symbol; false when the output is full. */
  method CompressLzCodes(w: Writer, t0: Table, t1: Table, codeBuf: array<Byte>, end: nat, ghost ts: seq<Token>)
      returns (ok: bool)
    requires w.Valid() && t0.Valid() && t1.Valid() && codeBuf != w.buf && end <= codeBuf.Length
    requires AllFit(ts) && codeBuf[..end] == Encoded(ts) && Ready(t0, t1)
    requires AllHaveCodes(t0.size[..288], t1.size[..32], ts)
    modifies w, w.buf
    ensures w.Valid() && w.Keeps(old(w.buf[..w.pos])) && ok == w.HasRoom()
    ensures w.HasRoom() ==>
              w.Stream() ==
              old(w.Stream()) + (TokensBits(t0.size[..288], t1.size[..32], ts) + Codeword(t0.size[..288], 256))
    ensures w.Size() <= old(w.Size()) + TokensSize(t0.size[..288], t1.size[..32], ts) + t0.size[256]
  {
    hide Encoded, Codeword, BitsOf, BytesBits, TokensBits, TokensSize, Writer.Stream, AllHaveCodes, AllFit, Spelled,
         Pow2;
    ghost var s, b0 := w.Stream(), w.buf[..w.pos];
    PutTokens(w, t0, t1, codeBuf, end, ts);
    ghost var b1 := w.buf[..w.pos];
    PutCode(w, t0, 288, 256);
    PrefixTrans(b0, b1, w.buf[..w.pos]);
    ConcatAssoc(s, TokensBits(t0.size[..288], t1.size[..32], ts), Codeword(t0.size[..288], 256));
    ok := w.HasRoom();
  }
}
