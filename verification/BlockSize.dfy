/** How large a compressed block can get: always smaller than the output buffer (miniz TDEFL_OUT_BUF_SIZE). */
module BlockSize {
  import opened Bits
  import opened Canonical
  import opened Deflate
  import opened Entropy
  import opened LzCodes
  import opened SymbolCounts
  import opened FixedCodes
  import HuffmanTree
  import HuffmanTable
  import TableCost

  /** A bound for the bits of all tokens of a block and its end-of-block symbol. */
  const TOKEN_BITS: nat := 674980

  // ----- the bits of the tokens, counted symbol by symbol

  lemma {:induction false} CostUpdate(c: seq<nat>, t: seq<nat>, k: nat, v: nat)
    requires k < |c| == |t|
    ensures HuffmanTree.Cost(c[k := v], t) + c[k] * t[k] == HuffmanTree.Cost(c, t) + v * t[k]
  {
    var d := c[k := v];
    if k == 0 {
      assert d[1..] == c[1..];
    } else {
      assert d[1..] == c[1..][k - 1 := v];
      CostUpdate(c[1..], t[1..], k - 1, v);
    }
  }

  lemma CostLess(c: seq<nat>, t: seq<nat>, k: nat)
    requires k < |c| == |t| && c[k] > 0
    ensures HuffmanTree.Cost(c, t) == HuffmanTree.Cost(c[k := c[k] - 1], t) + t[k]
  {
    CostUpdate(c, t, k, c[k] - 1);
    OneLess(c[k], t[k]);
  }

  lemma OneLess(n: nat, x: nat)
    requires n > 0
    ensures n * x == (n - 1) * x + x
  {
  }

  lemma {:induction false} CostZeros(c: seq<nat>, t: seq<nat>)
    requires |c| == |t| && forall k | 0 <= k < |c| :: c[k] == 0
    ensures HuffmanTree.Cost(c, t) == 0
  {
    if c != [] { CostZeros(c[1..], t[1..]); }
  }

  /** The extra bits, the same under all codes. */
  function Extra(t: Token): nat {
    match t
    case Lit(_) => 0
    case Match(len, dist) => if len >= 3 && dist >= 1 then LenExtra(len - 3) + DistExtra(dist - 1) else 0
  }

  function Extras(ts: seq<Token>): nat {
    if ts == [] then 0 else Extras(ts[..|ts| - 1]) + Extra(ts[|ts| - 1])
  }

  lemma {:induction false} TokensCost(ts: seq<Token>, c0: seq<nat>, c1: seq<nat>, ls: seq<nat>, ds: seq<nat>)
    requires |c0| == |ls| == 288 && |c1| == |ds| == 32 && AllFit(ts) && AllHaveCodes(ls, ds, ts)
    requires (forall s | 0 <= s < 288 :: c0[s] == LitUses(ts, s)) && forall s | 0 <= s < 32 :: c1[s] == DistUses(ts, s)
    ensures TokensSize(ls, ds, ts) == HuffmanTree.Cost(c0, ls) + HuffmanTree.Cost(c1, ds) + Extras(ts)
    decreases |ts|
  {
    if ts == [] {
      CostZeros(c0, ls);
      CostZeros(c1, ds);
    } else {
      var n, t := |ts| - 1, ts[|ts| - 1];
      var k := LitSym(t);
      CostLess(c0, ls, k);
      var d0, d1 := c0[k := c0[k] - 1], c1;
      if t.Match? {
        var j := DistSym(t.dist - 1);
        CostLess(c1, ds, j);
        d1 := c1[j := c1[j] - 1];
      }
      TokensCost(ts[..n], d0, d1, ls, ds);
    }
  }

  // ----- the fixed codes

  function Matches(ts: seq<Token>): (m: nat)
    ensures m <= |ts|
  {
    if ts == [] then 0 else Matches(ts[..|ts| - 1]) + (if ts[|ts| - 1].Match? then 1 else 0)
  }

  lemma DistExtraSmall(d: nat)
    ensures DistExtra(d) <= 13
  {
  }

  lemma FixedToken(t: Token)
    requires TokenFits(t) && HasCodes(FixedLit(), FixedDist(), t)
    ensures TokenSize(FixedLit(), FixedDist(), t) <= if t.Match? then 31 else 9
  {
    FixedLengths();
    if t.Match? {
      DistExtraSmall(t.dist - 1);
      FixedShort(LenSym(t.len - 3));
    }
  }

  lemma FixedShort(s: nat)
    requires 257 <= s < 288
    ensures FixedLit()[s] <= 8
  {
  }

  lemma {:induction false} FixedTokens(ts: seq<Token>)
    requires AllFit(ts) && AllHaveCodes(FixedLit(), FixedDist(), ts)
    ensures TokensSize(FixedLit(), FixedDist(), ts) <= 9 * |ts| + 22 * Matches(ts)
  {
    if ts != [] {
      FixedTokens(ts[..|ts| - 1]);
      FixedToken(ts[|ts| - 1]);
    }
  }

  // ----- how many tokens fit the code buffer

  lemma {:induction false} MatchesSplit(a: seq<Token>, b: seq<Token>)
    ensures Matches(a + b) == Matches(a) + Matches(b)
  {
    if b == [] {
      assert a + b == a;
    } else {
      assert (a + b)[..|a + b| - 1] == a + b[..|b| - 1];
      MatchesSplit(a, b[..|b| - 1]);
    }
  }

  lemma {:induction false} PayloadSize(ts: seq<Token>)
    requires AllFit(ts)
    ensures |Payload(ts)| == |ts| + 2 * Matches(ts)
  {
    if ts != [] {
      PayloadSize(ts[1..]);
      assert ts == [ts[0]] + ts[1..];
      MatchesSplit([ts[0]], ts[1..]);
      assert [ts[0]][..0] == [];
    }
  }

  /** Eight tokens share a flag byte. */
  lemma {:induction false} EncodedSize(ts: seq<Token>)
    requires AllFit(ts)
    ensures 8 * |Encoded(ts)| >= 9 * |ts| + 16 * Matches(ts)
  {
    if ts != [] {
      var k := if |ts| < 8 then |ts| else 8;
      PayloadSize(ts[..k]);
      EncodedSize(ts[k..]);
      assert ts == ts[..k] + ts[k..];
      MatchesSplit(ts[..k], ts[k..]);
    }
  }

  // ----- both kinds of block

  lemma Linear(tokens: nat, matches: nat, size: nat)
    requires matches <= tokens && 9 * tokens + 16 * matches <= 8 * CODE_BUF_SIZE
    requires 270 * size <= 270 * (9 * tokens + 22 * matches + 7) + 288 * (tokens + 1) + 32 * tokens
    ensures size <= TOKEN_BITS
  {
  }

  /** Fixed codes. */
  lemma StaticSize(ts: seq<Token>, ls: seq<nat>, ds: seq<nat>)
    requires AllFit(ts) && |Encoded(ts)| <= CODE_BUF_SIZE && ls == FixedLit() && ds == FixedDist() &&
             AllHaveCodes(ls, ds, ts)
    ensures TokensSize(ls, ds, ts) + ls[256] <= TOKEN_BITS
  {
    EncodedSize(ts);
    FixedTokens(ts);
    EndOfBlock();
    Linear(|ts|, Matches(ts), TokensSize(FixedLit(), FixedDist(), ts) + FixedLit()[256]);
  }

  lemma EndOfBlock()
    ensures FixedLit()[256] == 7
  {
  }

  /** A complete code's lengths satisfy Kraft's inequality with equality. */
  lemma KraftOf(s: seq<nat>, l: nat)
    requires l == 15 && Complete(s) && forall i | 0 <= i < |s| :: 1 <= s[i] <= l
    ensures HuffmanTree.Kraft(s, l) == Pow2(l)
  {
    HuffmanTable.KraftIsUsed(s, l);
    assert FirstCode(s, l + 1) == 2 * (FirstCode(s, l) + Count(s, l)) && Pow2(l + 1) == 2 * Pow2(l);
  }

  lemma RivalIs(c: seq<nat>, s: seq<nat>, l: nat)
    requires l == 15 && |s| == |c| && Complete(s) && forall i | 0 <= i < |s| :: 1 <= s[i] <= l
    ensures TableCost.Rival(c, s, l)
  {
    KraftOf(s, l);
  }

  lemma LitRival(c: seq<nat>, s: seq<nat>)
    requires |c| == 288 && s == FixedLit()
    ensures TableCost.Rival(c, s, 15)
  {
    FixedLengths();
    FixedComplete();
    RivalIs(c, s, 15);
  }

  lemma DistRival(c: seq<nat>, s: seq<nat>)
    requires |c| == 32 && s == FixedDist()
    ensures TableCost.Rival(c, s, 15)
  {
    FixedLengths();
    FixedComplete();
    RivalIs(c, s, 15);
  }

  /** Codes built from the counts c0 and c1, with the end-of-block symbol counted once. */
  lemma DynamicSize(ts: seq<Token>, c0: seq<nat>, c1: seq<nat>, ls: seq<nat>, ds: seq<nat>)
    requires AllFit(ts) && |Encoded(ts)| <= CODE_BUF_SIZE && Counted(c0, c1, ts)
    requires AllHaveCodes(ls, ds, ts) && AllHaveCodes(FixedLit(), FixedDist(), ts)
    requires |ls| == 288 && |ds| == 32
    requires TableCost.NearMinimal(c0[256 := 1], ls) && TableCost.NearMinimal(c1[..32], ds)
    ensures TokensSize(ls, ds, ts) + ls[256] <= TOKEN_BITS
  {
    var e0, e1 := c0[256 := 1], c1[..32];
    Unused(ts);
    CountsSmall(c0, c1, ts);
    EncodedSize(ts);
    FixedTokens(ts);
    EndOfBlock();
    WithEnd(ts, c0, e1, ls, ds);
    WithEnd(ts, c0, e1, FixedLit(), FixedDist());
    LitRival(e0, FixedLit());
    DistRival(e1, FixedDist());
    assert TableCost.NoWorse(e0, ls, FixedLit()) && TableCost.NoWorse(e1, ds, FixedDist());
    Linear(|ts|, Matches(ts), TokensSize(ls, ds, ts) + ls[256]);
  }

  lemma WithEnd(ts: seq<Token>, c0: seq<nat>, e1: seq<nat>, ls: seq<nat>, ds: seq<nat>)
    requires |c0| == |ls| == 288 && |e1| == |ds| == 32 && AllFit(ts) && AllHaveCodes(ls, ds, ts)
    requires (forall s | 0 <= s < 288 :: c0[s] == LitUses(ts, s)) && forall s | 0 <= s < 32 :: e1[s] == DistUses(ts, s)
    ensures TokensSize(ls, ds, ts) + ls[256] ==
            HuffmanTree.Cost(c0[256 := 1], ls) + HuffmanTree.Cost(e1, ds) + Extras(ts)
  {
    Unused(ts);
    TokensCost(ts, c0, e1, ls, ds);
    CostUpdate(c0, ls, 256, 1);
  }
}
