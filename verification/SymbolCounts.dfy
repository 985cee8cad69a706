/** The symbol counts kept while tokens are recorded. */
module SymbolCounts {
  import opened Deflate
  import opened Entropy
  import HuffmanTree

  /** The literal/length symbol of a token. */
  function LitSym(t: Token): (s: nat)
    ensures s < 286 && s != 256
  {
    match t
    case Lit(b) => b
    case Match(len, _) => if len >= 3 then LenSym(len - 3) else 257
  }

  /** How many tokens use literal/length symbol s. */
  function LitUses(ts: seq<Token>, s: nat): nat {
    if ts == [] then 0 else LitUses(ts[..|ts| - 1], s) + (if LitSym(ts[|ts| - 1]) == s then 1 else 0)
  }

  /** How many tokens use distance symbol s. */
  function DistUses(ts: seq<Token>, s: nat): nat {
    if ts == [] then 0
    else
      var t := ts[|ts| - 1];
      DistUses(ts[..|ts| - 1], s) + (if t.Match? && t.dist >= 1 && DistSym(t.dist - 1) == s then 1 else 0)
  }

  /** The two count tables agree with the tokens. */
  ghost predicate Counted(c0: seq<nat>, c1: seq<nat>, ts: seq<Token>) {
    |c0| == 288 && |c1| == 288 &&
    (forall s | 0 <= s < 288 :: c0[s] == LitUses(ts, s)) && (forall s | 0 <= s < 288 :: c1[s] == DistUses(ts, s))
  }

  lemma CountedSnoc(c0: seq<nat>, c1: seq<nat>, ts: seq<Token>, t: Token)
    requires Counted(c0, c1, ts)
    ensures Counted(c0[LitSym(t) := c0[LitSym(t)] + 1],
                    if t.Match? && t.dist >= 1 then c1[DistSym(t.dist - 1) := c1[DistSym(t.dist - 1)] + 1] else c1,
                    ts + [t])
  {
    assert (ts + [t])[..|ts|] == ts;
  }

  lemma CountedNothing(c0: seq<nat>, c1: seq<nat>)
    requires |c0| == 288 && |c1| == 288 && (forall s | 0 <= s < 288 :: c0[s] == 0) &&
             forall s | 0 <= s < 288 :: c1[s] == 0
    ensures Counted(c0, c1, [])
  {
  }

  /** Symbols that no token can have are not counted. */
  lemma {:induction false} Unused(ts: seq<Token>)
    ensures LitUses(ts, 256) == 0 && LitUses(ts, 286) == 0 && LitUses(ts, 287) == 0
    ensures forall s | s >= 30 :: DistUses(ts, s) == 0
  {
    if ts != [] { Unused(ts[..|ts| - 1]); }
  }

  /** Every symbol of every token is counted. */
  lemma {:induction false} UsedCounted(ts: seq<Token>, i: nat)
    requires i < |ts|
    ensures LitUses(ts, LitSym(ts[i])) > 0
    ensures ts[i].Match? && ts[i].dist >= 1 ==> DistUses(ts, DistSym(ts[i].dist - 1)) > 0
  {
    var n := |ts| - 1;
    if i < n { UsedCounted(ts[..n], i); }
  }

  // ----- how large the counts are together

  lemma {:induction false} SumUpdate(c: seq<nat>, k: nat, v: nat)
    requires k < |c|
    ensures HuffmanTree.Sum(c[k := v]) + c[k] == HuffmanTree.Sum(c) + v
  {
    var d := c[k := v];
    if k == 0 {
      assert d[1..] == c[1..];
    } else {
      assert d[1..] == c[1..][k - 1 := v];
      SumUpdate(c[1..], k - 1, v);
    }
  }

  lemma {:induction false} LitTotal(c: seq<nat>, ts: seq<Token>)
    requires |c| == 288 && forall s | 0 <= s < 288 :: c[s] == LitUses(ts, s)
    ensures HuffmanTree.Sum(c) == |ts|
    decreases |ts|
  {
    if ts == [] {
      HuffmanTree.SumZeros(c);
    } else {
      var n := |ts| - 1;
      var k := LitSym(ts[n]);
      var d := c[k := c[k] - 1];
      LitTotal(d, ts[..n]);
      SumUpdate(c, k, c[k] - 1);
    }
  }

  lemma {:induction false} DistTotal(c: seq<nat>, ts: seq<Token>)
    requires |c| == 32 && forall s | 0 <= s < 32 :: c[s] == DistUses(ts, s)
    ensures HuffmanTree.Sum(c) <= |ts|
    decreases |ts|
  {
    if ts == [] {
      HuffmanTree.SumZeros(c);
    } else {
      var n, t := |ts| - 1, ts[|ts| - 1];
      if t.Match? && t.dist >= 1 {
        var k := DistSym(t.dist - 1);
        var d := c[k := c[k] - 1];
        DistTotal(d, ts[..n]);
        SumUpdate(c, k, c[k] - 1);
      } else {
        DistTotal(c, ts[..n]);
      }
    }
  }

  /** The counts of a dynamic block, end-of-block symbol included, sum to less than the tokens plus two. */
  lemma CountsSmall(c0: seq<nat>, c1: seq<nat>, ts: seq<Token>)
    requires Counted(c0, c1, ts)
    ensures HuffmanTree.Sum(c0[256 := 1]) == |ts| + 1 && HuffmanTree.Sum(c1[..32]) <= |ts|
  {
    LitTotal(c0, ts);
    Unused(ts);
    SumUpdate(c0, 256, 1);
    DistTotal(c1[..32], ts);
  }
}
