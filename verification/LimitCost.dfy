/** What it costs to limit code lengths to fifteen bits (miniz tdefl_huffman_enforce_max_code_size). */
module LimitCost {
  import opened Bits
  import opened LengthLimit
  import HuffmanTree
  import MinRedundancy

  const LIMIT: nat := 15

  /** s hands out the lengths counted by c, the longest ones first. */
  ghost predicate Laid(s: seq<nat>, c: seq<int>, top: nat) {
    top < |c| && forall p: nat, l: nat | p < |s| && l <= top :: LaidAt(s, c, p, l)
  }

  ghost predicate LaidAt(s: seq<nat>, c: seq<int>, p: nat, l: nat)
    requires p < |s| && l < |c|
  {
    s[p] <= l <==> p + Codes(c, l) >= |s|
  }

  // ----- the units of each code

  function UnitOf(l: nat): nat { if l < LIMIT then Unit(LIMIT - l) else 0 }

  function Units(s: seq<nat>): nat {
    if s == [] then 0 else Units(s[..|s| - 1]) + UnitOf(s[|s| - 1])
  }

  lemma UnitsNext(s: seq<nat>, k: nat)
    requires k < |s|
    ensures Units(s[..k + 1]) == Units(s[..k]) + UnitOf(s[k])
  {
    assert s[..k + 1][..k] == s[..k];
  }

  lemma {:induction false} UnitsRun(s: seq<nat>, a: nat, b: nat, u: nat)
    requires a <= b <= |s| && forall p | a <= p < b :: UnitOf(s[p]) == u
    ensures Units(s[..b]) == Units(s[..a]) + (b - a) * u
  {
    hide UnitOf, Units;
    if a < b {
      var k: nat := b - 1;
      UnitsRun(s, a, k, u);
      UnitsNext(s, k);
      OneMore(k - a, u);
    }
  }

  lemma OneMore(n: nat, u: nat)
    ensures n * u + u == (n + 1) * u
  {
  }

  lemma {:induction false} UnitsLong(s: seq<nat>, b: nat)
    requires b <= |s| && forall p | 0 <= p < b :: s[p] >= LIMIT
    ensures Units(s[..b]) == 0
  {
    if b > 0 {
      UnitsLong(s, b - 1);
      UnitsNext(s, b - 1);
    }
  }

  /** The positions of codes longer than l come first. */
  lemma LongerFirst(s: seq<nat>, c: seq<int>, l: nat, p: nat)
    requires Laid(s, c, 32) && l <= 32 && p < |s|
    ensures s[p] > l <==> p < |s| - Codes(c, l)
  {
    assert LaidAt(s, c, p, l);
  }

  /** What the codes longer than l spare. */
  lemma {:induction false} UnitsAbove(s: seq<nat>, c: seq<int>, l: nat)
    requires Laid(s, c, 32) && NonNegative(c) && Codes(c, 32) == |s| && l < LIMIT
    ensures 0 <= Codes(c, l) <= |s| && Units(s[..|s| - Codes(c, l)]) == Spare(c, LIMIT - 1, LIMIT) - Spare(c, l, LIMIT)
    decreases LIMIT - l
  {
    var n := |s|;
    CodesOrdered(c, l, 32);
    UsedNonNegative(c, l);
    var a, b: nat := n - Codes(c, l + 1), n - Codes(c, l);
    if l == LIMIT - 1 {
      forall p: nat | p < b ensures s[p] >= LIMIT { LongerFirst(s, c, l, p); }
      UnitsLong(s, b);
    } else {
      UnitsAbove(s, c, l + 1);
      forall p: nat | a <= p < b ensures s[p] == l + 1 {
        LongerFirst(s, c, l, p);
        LongerFirst(s, c, l + 1, p);
      }
      UnitsRun(s, a, b, UnitOf(l + 1));
      SpareNext(c, l + 1, LIMIT);
    }
  }

  // ----- one symbol

  /** The Fibonacci numbers that matter. */
  lemma Fibs()
    ensures HuffmanTree.Fib(8) == 21 && HuffmanTree.Fib(9) == 34 && HuffmanTree.Fib(10) == 55 &&
            HuffmanTree.Fib(11) == 89
    ensures HuffmanTree.Fib(12) == 144 && HuffmanTree.Fib(13) == 233 && HuffmanTree.Fib(14) == 377 &&
            HuffmanTree.Fib(15) == 610
  {
  }

  /** Lengthening a code to fifteen bits costs little for each unit it gives back: deep symbols are light. */
  lemma Charge(w: nat, l: nat, total: nat)
    requires l >= 7 && w * HuffmanTree.Fib(l + 1) <= total
    ensures l < LIMIT ==> 540 * (w * (LIMIT - l)) <= UnitOf(l) * total
  {
    if l < LIMIT {
      Fibs();
      var u, f := UnitOf(l), HuffmanTree.Fib(l + 1);
      assert Pow2(8) == 256 && Pow2(7) == 128 && Pow2(6) == 64 && Pow2(5) == 32 && Pow2(4) == 16;
      assert Pow2(3) == 8 && Pow2(2) == 4 && Pow2(1) == 2;
      assert 540 * (LIMIT - l) <= u * f;
      Weigh(540 * (LIMIT - l), u, f, w, total);
      Reorder(w, LIMIT - l);
    }
  }

  lemma Reorder(w: nat, k: nat)
    ensures 540 * (w * k) == (540 * k) * w
  {
  }

  lemma Weigh(a: nat, u: nat, f: nat, w: nat, total: nat)
    requires a <= u * f && w * f <= total
    ensures a * w <= u * total
  {
    Mono(a, u * f, w);
    assert (u * f) * w == (w * f) * u;
    Mono(w * f, total, u);
  }

  // ----- the whole code

  /** The lengths len of a minimum-redundancy code for the weights w, and the lengths s of the code limited from it. */
  ghost predicate LimitedCode(w: seq<nat>, len: seq<nat>, s: seq<nat>, nc: seq<int>, c: seq<int>, low: nat) {
    |w| == |len| == |s| && MinRedundancy.Shallow(w, len) && Laid(len, nc, 32) && Laid(s, c, LIMIT) &&
    NonNegative(nc) && NonNegative(c) && Codes(nc, 32) == |s| && Codes(c, LIMIT) == |s| &&
    (forall p | 0 <= p < |s| :: s[p] <= LIMIT) &&
    Limited(nc, c, |s|, LIMIT, low)
  }

  /** How many of the longest codes may have changed. */
  ghost function Changed(nc: seq<int>, c: seq<int>, n: nat, low: nat): int
    requires 1 <= low <= LIMIT < |nc| && low < |c|
  {
    if low == LIMIT then n - Codes(nc, LIMIT - 1) else n - Codes(nc, low - 1) - c[low]
  }

  lemma ChangedUnits(w: seq<nat>, len: seq<nat>, s: seq<nat>, nc: seq<int>, c: seq<int>, low: nat)
    requires LimitedCode(w, len, s, nc, c, low) && |s| >= 2
    ensures 0 <= Changed(nc, c, |s|, low) <= |s| && Units(len[..Changed(nc, c, |s|, low)]) <= 2 * (|s| - 2)
  {
    var n := |s|;
    if low == LIMIT {
      UnitsAbove(len, nc, LIMIT - 1);
    } else {
      UnitsAbove(len, nc, low);
      UnitsAbove(len, nc, low - 1);
      var a, b: nat, u := n - Codes(nc, low), n - Codes(nc, low - 1), Unit(LIMIT - low);
      var k: nat := Changed(nc, c, n, low);
      forall p: nat | a <= p < b ensures len[p] == low {
        LongerFirst(len, nc, low, p);
        LongerFirst(len, nc, low - 1, p);
      }
      UnitsRun(len, a, k, u);
      SpareNext(nc, low, LIMIT);
      Collect(nc[low], c[low], u);
    }
  }

  lemma Collect(x: int, y: int, u: nat)
    ensures (x - y) * u == x * u - y * u && (y + 1) * u == y * u + u
  {
  }

  /** A code that has not changed. */
  lemma Unchanged(w: seq<nat>, len: seq<nat>, s: seq<nat>, nc: seq<int>, c: seq<int>, low: nat, p: nat)
    requires LimitedCode(w, len, s, nc, c, low) && Changed(nc, c, |s|, low) <= p < |s|
    ensures s[p] == len[p]
  {
    Frame(nc, c, low - 1);
    var a, b := len[p], s[p];
    if a < low {
      Same(len, s, nc, c, low, p);
    } else {
      LongerFirst(len, nc, low - 1, p);
      assert low < LIMIT;
      LongerFirst(len, nc, low, p);
      assert LaidAt(s, c, p, low) && LaidAt(s, c, p, low - 1);
    }
  }

  lemma Same(len: seq<nat>, s: seq<nat>, nc: seq<int>, c: seq<int>, low: nat, p: nat)
    requires |len| == |s| && |nc| == |c| && Laid(len, nc, 32) && Laid(s, c, LIMIT) && low <= LIMIT && p < |s| &&
             len[p] < low
    requires forall l | 1 <= l < low :: nc[l] == c[l]
    ensures s[p] == len[p]
  {
    var a := len[p];
    Frame(nc, c, a);
    assert LaidAt(len, nc, p, a) && LaidAt(s, c, p, a);
    if a > 0 {
      Frame(nc, c, a - 1);
      assert LaidAt(len, nc, p, a - 1) && LaidAt(s, c, p, a - 1);
    }
  }

  /** One that may have is at least seven bits long. */
  lemma ChangedDeep(w: seq<nat>, len: seq<nat>, s: seq<nat>, nc: seq<int>, c: seq<int>, low: nat, p: nat)
    requires LimitedCode(w, len, s, nc, c, low) && |s| <= 288 && p < Changed(nc, c, |s|, low) <= |s|
    ensures len[p] >= 7
  {
    LongerFirst(len, nc, low - 1, p);
    if low < 7 {
      assert Pow2(9) == 512;
      Pow2Mono(9, LIMIT - low);
    }
  }

  lemma {:induction false} CostSnoc(w: seq<nat>, len: seq<nat>, x: nat, l: nat)
    requires |w| == |len|
    ensures HuffmanTree.Cost(w + [x], len + [l]) == HuffmanTree.Cost(w, len) + x * l
  {
    if w == [] {
      assert HuffmanTree.Cost([x], [l]) == x * l + HuffmanTree.Cost([], []);
    } else {
      assert (w + [x])[1..] == w[1..] + [x] && (len + [l])[1..] == len[1..] + [l];
      CostSnoc(w[1..], len[1..], x, l);
    }
  }

  lemma CostNext(w: seq<nat>, len: seq<nat>, k: nat)
    requires k < |w| == |len|
    ensures HuffmanTree.Cost(w[..k + 1], len[..k + 1]) == HuffmanTree.Cost(w[..k], len[..k]) + w[k] * len[k]
  {
    assert w[..k + 1] == w[..k] + [w[k]] && len[..k + 1] == len[..k] + [len[k]];
    CostSnoc(w[..k], len[..k], w[k], len[k]);
  }

  /** Symbol p, whose code may have changed. */
  lemma ChargeOne(w: nat, l: nat, x: nat, total: nat)
    requires l >= 7 && x <= LIMIT && w * HuffmanTree.Fib(l + 1) <= total
    ensures 540 * (w * x) <= 540 * (w * l) + UnitOf(l) * total
  {
    Charge(w, l, total);
    if l < LIMIT {
      Times(w, x, LIMIT);
      Split(w, LIMIT, l);
    } else {
      Times(w, x, l);
    }
  }

  lemma Times(w: nat, a: nat, b: nat)
    requires a <= b
    ensures w * a <= w * b
  {
  }

  lemma Split(w: nat, a: nat, b: nat)
    requires b <= a
    ensures w * a == w * b + w * (a - b)
  {
  }

  lemma AddUnits(u: nat, v: nat, total: nat)
    ensures (u + v) * total == u * total + v * total
  {
  }

  ghost predicate Deep(w: seq<nat>, len: seq<nat>, s: seq<nat>, b: nat) {
    |w| == |len| == |s| && b <= |s| && MinRedundancy.Shallow(w, len) &&
    (forall p | 0 <= p < |s| :: s[p] <= LIMIT) && (forall p | 0 <= p < b :: len[p] >= 7) &&
    (forall p | b <= p < |s| :: s[p] == len[p])
  }

  lemma {:induction false} CostSoFar(w: seq<nat>, len: seq<nat>, s: seq<nat>, b: nat, k: nat)
    requires Deep(w, len, s, b) && k <= |s|
    ensures var i := if k < b then k else b;
            540 * HuffmanTree.Cost(w[..k], s[..k]) <=
            540 * HuffmanTree.Cost(w[..k], len[..k]) + Units(len[..i]) * HuffmanTree.Sum(w)
  {
    if k > 0 {
      var j, total := k - 1, HuffmanTree.Sum(w);
      CostSoFar(w, len, s, b, j);
      CostNext(w, s, j);
      CostNext(w, len, j);
      if j < b {
        ChargeOne(w[j], len[j], s[j], total);
        UnitsNext(len, j);
        AddUnits(Units(len[..j]), UnitOf(len[j]), total);
      }
    }
  }

  /** Limiting n code lengths to fifteen bits makes the code longer by at most n/270 bits per symbol coded. */
  lemma LimitIsCheap(w: seq<nat>, len: seq<nat>, s: seq<nat>, nc: seq<int>, c: seq<int>, low: nat)
    requires LimitedCode(w, len, s, nc, c, low) && 2 <= |s| <= 288
    ensures 270 * HuffmanTree.Cost(w, s) <= 270 * HuffmanTree.Cost(w, len) + |s| * HuffmanTree.Sum(w)
  {
    var n, total := |s|, HuffmanTree.Sum(w);
    ChangedUnits(w, len, s, nc, c, low);
    var b: nat := Changed(nc, c, n, low);
    forall p: nat | p < b ensures len[p] >= 7 { ChangedDeep(w, len, s, nc, c, low, p); }
    forall p: nat | b <= p < n ensures s[p] == len[p] { Unchanged(w, len, s, nc, c, low, p); }
    CostSoFar(w, len, s, b, n);
    assert w[..n] == w && s[..n] == s && len[..n] == len;
    Mono(Units(len[..b]), 2 * n, total);
    Twice(n, total);
  }

  lemma Twice(n: nat, t: nat)
    ensures (2 * n) * t == 2 * (n * t)
  {
  }
}
