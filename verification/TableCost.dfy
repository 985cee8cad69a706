/** How close to the best a table is whose code lengths have been limited (miniz tdefl_optimize_huffman_table). */
module TableCost {
  import opened Bits
  import opened RadixSort
  import opened UsedSymbols
  import HuffmanTree
  import MinRedundancy
  import LengthLimit
  import LimitCost

  /** The lengths of the listed symbols in their order. */
  function SizesOf(s: seq<SymFreq>, t: seq<nat>): (r: seq<nat>)
    requires forall p | 0 <= p < |s| :: s[p].sym < |t|
    ensures |r| == |s| && forall p | 0 <= p < |s| :: r[p] == t[s[p].sym]
  {
    if s == [] then [] else [t[s[0].sym]] + SizesOf(s[1..], t)
  }

  /** Symbol by symbol. */
  function Products(counts: seq<nat>, t: seq<nat>): (r: seq<nat>)
    requires |counts| == |t|
    ensures |r| == |t| && forall k | 0 <= k < |t| :: r[k] == counts[k] * t[k]
  {
    seq(|t|, k requires 0 <= k < |t| => counts[k] * t[k])
  }

  lemma {:induction false} ListedCost(s: seq<SymFreq>, counts: seq<nat>, t: seq<nat>)
    requires |counts| == |t| && forall p | 0 <= p < |s| :: s[p].sym < |t| && s[p].key == counts[s[p].sym]
    ensures HuffmanTree.Cost(Keys(s), SizesOf(s, t)) == ListSum(s, Products(counts, t))
  {
    if s != [] { ListedCost(s[1..], counts, t); }
  }

  /** What unused symbols are worth does not matter when it is nothing. */
  lemma {:induction false} UsedAll(counts: seq<nat>, v: seq<nat>, n: nat)
    requires n <= |counts| <= |v| && forall k | 0 <= k < |counts| && counts[k] == 0 :: v[k] == 0
    ensures Used(counts[..n], v) == HuffmanTree.Sum(v[..n])
  {
    if n > 0 {
      UsedAll(counts, v, n - 1);
      assert counts[..n][..n - 1] == counts[..n - 1] && v[..n] == v[..n - 1] + [v[n - 1]];
      HuffmanTree.SumSnoc(v[..n - 1], v[n - 1]);
    }
  }

  lemma {:induction false} UsedSome(counts: seq<nat>, v: seq<nat>, n: nat)
    requires n <= |counts| <= |v|
    ensures Used(counts[..n], v) <= HuffmanTree.Sum(v[..n])
  {
    if n > 0 {
      UsedSome(counts, v, n - 1);
      assert counts[..n][..n - 1] == counts[..n - 1] && v[..n] == v[..n - 1] + [v[n - 1]];
      HuffmanTree.SumSnoc(v[..n - 1], v[n - 1]);
    }
  }

  /** Listed or not, the cost of a table is the same. */
  lemma TableListed(s: seq<SymFreq>, counts: seq<nat>, t: seq<nat>)
    requires |counts| == |t| && multiset(s) == multiset(UsedSyms(counts)) && Lists(s, counts)
    ensures HuffmanTree.Cost(Keys(s), SizesOf(s, t)) == HuffmanTree.Cost(counts, t)
  {
    var v := Products(counts, t);
    ListedCost(s, counts, t);
    ListedSum(s, counts, v);
    forall k | 0 <= k < |counts| && counts[k] == 0 ensures v[k] == 0 { assert v[k] == counts[k] * t[k]; }
    UsedAll(counts, v, |counts|);
    assert counts[..|counts|] == counts && v[..|v|] == v;
    HuffmanTree.CostSum(counts, t);
    assert v == seq(|counts|, i requires 0 <= i < |counts| => counts[i] * t[i]);
  }

  // ----- other codes for the same symbols

  /** other is a code for all symbols, with no length above top and none of zero. */
  ghost predicate Rival(counts: seq<nat>, other: seq<nat>, top: nat) {
    |other| == |counts| && (forall k | 0 <= k < |other| :: 1 <= other[k] <= top) &&
    HuffmanTree.Kraft(other, top) <= Pow2(top)
  }

  function Shares(t: seq<nat>, top: nat): (r: seq<nat>)
    requires forall k | 0 <= k < |t| :: t[k] <= top
    ensures |r| == |t| && forall k | 0 <= k < |t| :: r[k] == Pow2(top - t[k])
  {
    seq(|t|, k requires 0 <= k < |t| => Pow2(top - t[k]))
  }

  lemma {:induction false} ListedKraft(s: seq<SymFreq>, t: seq<nat>, top: nat)
    requires (forall p | 0 <= p < |s| :: s[p].sym < |t|) && forall k | 0 <= k < |t| :: t[k] <= top
    ensures HuffmanTree.Kraft(SizesOf(s, t), top) == ListSum(s, Shares(t, top))
  {
    if s != [] { ListedKraft(s[1..], t, top); }
  }

  lemma RivalCompetes(s: seq<SymFreq>, counts: seq<nat>, other: seq<nat>, top: nat)
    requires Rival(counts, other, top) && multiset(s) == multiset(UsedSyms(counts)) && Lists(s, counts)
    ensures MinRedundancy.Competes(Keys(s), SizesOf(s, other), top)
  {
    var v := Shares(other, top);
    ListedKraft(s, other, top);
    ListedSum(s, counts, v);
    UsedSome(counts, v, |counts|);
    assert counts[..|counts|] == counts && v[..|v|] == v;
    HuffmanTree.KraftSum(other, top);
    assert v == seq(|other|, i requires 0 <= i < |other| => Pow2(top - other[i]));
  }

  /** No other code is better by more than |counts|/270 bits per symbol coded. */
  ghost predicate NearMinimal(counts: seq<nat>, sizes: seq<nat>) {
    |sizes| == |counts| && forall other: seq<nat>, top: nat | Rival(counts, other, top) :: NoWorse(counts, sizes, other)
  }

  ghost predicate NoWorse(counts: seq<nat>, sizes: seq<nat>, other: seq<nat>)
    requires |sizes| == |counts| == |other|
  {
    270 * HuffmanTree.Cost(counts, sizes) <= 270 * HuffmanTree.Cost(counts, other) + |counts| * HuffmanTree.Sum(counts)
  }

  lemma ListedTotal(s: seq<SymFreq>, counts: seq<nat>)
    requires multiset(s) == multiset(UsedSyms(counts))
    ensures HuffmanTree.Sum(Keys(s)) == HuffmanTree.Sum(counts)
  {
    KeysSum(s);
    KeySumPermuted(s, UsedSyms(counts));
    UsedSymsSum(counts);
  }

  lemma ListedFew(s: seq<SymFreq>, counts: seq<nat>)
    requires multiset(s) == multiset(UsedSyms(counts))
    ensures |s| <= |counts|
  {
    assert |multiset(s)| == |s| && |multiset(UsedSyms(counts))| == |UsedSyms(counts)|;
  }

  /** A single symbol gets one bit, and no other code does better. */
  lemma OneSymbol(s: seq<SymFreq>, counts: seq<nat>, t: seq<nat>, other: seq<nat>)
    requires |counts| == |t| == |other| && multiset(s) == multiset(UsedSyms(counts)) && Lists(s, counts)
    requires |s| <= 1 && (|s| == 1 ==> SizesOf(s, t) == [1]) && forall k | 0 <= k < |other| :: 1 <= other[k]
    ensures HuffmanTree.Cost(counts, t) <= HuffmanTree.Cost(counts, other)
  {
    TableListed(s, counts, t);
    TableListed(s, counts, other);
    if |s| == 1 {
      var w, l := s[0].key, other[s[0].sym];
      assert Keys(s) == [w] && SizesOf(s, other) == [l];
      assert HuffmanTree.Cost([w], [l]) == w * l && HuffmanTree.Cost([w], [1]) == w * 1;
      LimitCost.Times(w, 1, l);
    }
  }

  lemma Best(w: seq<nat>, len: seq<nat>, other: seq<nat>, top: nat)
    requires MinRedundancy.MinimalCode(w, len) && MinRedundancy.Competes(w, other, top)
    ensures HuffmanTree.Cost(w, len) <= HuffmanTree.Cost(w, other)
  {
  }

  lemma LimitedNoWorse(s: seq<SymFreq>, counts: seq<nat>, t: seq<nat>, len: seq<nat>, nc: seq<int>, c: seq<int>,
      low: nat, other: seq<nat>, top: nat)
    requires |counts| == |t| <= 288 && multiset(s) == multiset(UsedSyms(counts)) && Lists(s, counts) &&
             2 <= |s| <= |counts|
    requires MinRedundancy.MinimalCode(Keys(s), len) && LimitCost.LimitedCode(Keys(s), len, SizesOf(s, t), nc, c, low)
    requires Rival(counts, other, top)
    ensures NoWorse(counts, t, other)
  {
    var w, l, o := Keys(s), SizesOf(s, t), SizesOf(s, other);
    TableListed(s, counts, t);
    TableListed(s, counts, other);
    RivalCompetes(s, counts, other, top);
    Best(w, len, o, top);
    LimitCost.LimitIsCheap(w, len, l, nc, c, low);
    ListedTotal(s, counts);
    var total := HuffmanTree.Sum(counts);
    LengthLimit.Mono(|s|, |counts|, total);
    Chain(HuffmanTree.Cost(w, l), HuffmanTree.Cost(w, len), HuffmanTree.Cost(w, o), |s| * total, |counts| * total);
  }

  lemma Chain(a: nat, b: nat, c: nat, x: int, y: int)
    requires 270 * a <= 270 * b + x && b <= c && x <= y
    ensures 270 * a <= 270 * c + y
  {
  }

  /** A limited table is as good as the limiting leaves it. */
  lemma LimitedNear(s: seq<SymFreq>, counts: seq<nat>, t: seq<nat>, len: seq<nat>, nc: seq<int>, c: seq<int>, low: nat)
    requires |counts| == |t| <= 288 && multiset(s) == multiset(UsedSyms(counts)) && Lists(s, counts)
    requires |s| >= 2 ==>
               MinRedundancy.MinimalCode(Keys(s), len) &&
               LimitCost.LimitedCode(Keys(s), len, SizesOf(s, t), nc, c, low)
    requires |s| == 1 ==> SizesOf(s, t) == [1]
    ensures NearMinimal(counts, t)
  {
    ListedFew(s, counts);
    forall other: seq<nat>, top: nat | Rival(counts, other, top) ensures NoWorse(counts, t, other) {
      if |s| <= 1 {
        OneNoWorse(s, counts, t, other);
      } else {
        LimitedNoWorse(s, counts, t, len, nc, c, low, other, top);
      }
    }
  }

  lemma OneNoWorse(s: seq<SymFreq>, counts: seq<nat>, t: seq<nat>, other: seq<nat>)
    requires |counts| == |t| == |other| && multiset(s) == multiset(UsedSyms(counts)) && Lists(s, counts)
    requires |s| <= 1 && (|s| == 1 ==> SizesOf(s, t) == [1]) && forall k | 0 <= k < |other| :: 1 <= other[k]
    ensures NoWorse(counts, t, other)
  {
    OneSymbol(s, counts, t, other);
    NotNegative(|counts|, HuffmanTree.Sum(counts));
  }

  lemma NotNegative(a: nat, b: nat)
    ensures a * b >= 0
  {
  }
}
