/** The tree a Huffman construction builds, and why it is the right one. */
module HuffmanTree {
  import opened Bits

  ghost predicate Ordered(w: seq<nat>) {
    forall i, j | 0 <= i <= j < |w| :: w[i] <= w[j]
  }

  ghost predicate Positive(w: seq<nat>) {
    forall i | 0 <= i < |w| :: w[i] > 0
  }

  function Sum(w: seq<nat>): nat {
    if w == [] then 0 else w[0] + Sum(w[1..])
  }

  /**
   * The course of a Huffman construction on ordered weights. Leaves and internal nodes are each
   * consumed in order; before merge r, lc[r] leaves and rc[r] internal nodes have been consumed.
   */
  datatype History = History(w: seq<nat>, lc: seq<nat>, rc: seq<nat>, iw: seq<nat>) {

    ghost predicate Shape() {
      |lc| == |iw| + 1 && |rc| == |iw| + 1 && lc[0] == 0 && rc[0] == 0
    }

    /** The sum over the two nodes merge r consumes, of f for leaves and g for internal nodes. */
    ghost function Pair(f: seq<nat>, g: seq<nat>, r: nat): nat
      requires Shape() && r < |iw| && Counts(r) && |f| == |w| && |g| == |iw|
    {
      if lc[r + 1] == lc[r] + 2 then f[lc[r]] + f[lc[r] + 1]
      else if lc[r + 1] == lc[r] + 1 then f[lc[r]] + g[rc[r]]
      else g[rc[r]] + g[rc[r] + 1]
    }

    /** Merge r consumes two nodes that exist. */
    ghost predicate Counts(r: nat)
      requires Shape() && r < |iw|
    {
      lc[r] <= lc[r + 1] <= |w| && rc[r] <= rc[r + 1] <= r &&
      lc[r] + rc[r] == 2 * r && lc[r + 1] + rc[r + 1] == 2 * (r + 1)
    }

    /** Merge r consumes the two lightest nodes. */
    ghost predicate Lightest(r: nat)
      requires Shape() && r < |iw| && Counts(r)
    {
      iw[r] == Pair(w, iw, r) &&
      (r > 0 ==> iw[r - 1] <= iw[r]) &&
      (rc[r + 1] > rc[r] && lc[r + 1] < |w| ==> iw[rc[r + 1] - 1] <= w[lc[r + 1]]) &&
      (lc[r + 1] > lc[r] && rc[r + 1] < r ==> w[lc[r + 1] - 1] <= iw[rc[r + 1]])
    }

    ghost predicate Valid() {
      Shape() && Ordered(w) && Positive(w) &&
      forall r | 0 <= r < |iw| :: Counts(r) && Lightest(r)
    }

    /** Merge r consumes internal node k. */
    ghost predicate Parent(k: nat, r: nat) {
      r + 1 < |rc| && rc[r] <= k < rc[r + 1]
    }

    /** Merge r consumes leaf i. */
    ghost predicate LeafParent(i: nat, r: nat) {
      r + 1 < |lc| && lc[r] <= i < lc[r + 1]
    }

    /** All leaves are merged into one tree. */
    ghost predicate Done() {
      Valid() && |w| >= 2 && |iw| == |w| - 1
    }

    /** d gives the depth of every internal node. */
    ghost predicate Depths(d: seq<nat>) {
      |d| == |iw| && (|d| > 0 ==> d[|d| - 1] == 0) &&
      forall k: nat, r: nat | k < |d| && Parent(k, r) && r < |d| :: d[k] == d[r] + 1
    }

    /** len gives the depth of every leaf. */
    ghost predicate LeafDepths(d: seq<nat>, len: seq<nat>) {
      |len| == |w| && |d| == |iw| &&
      forall i: nat, r: nat | i < |len| && LeafParent(i, r) && r < |d| :: len[i] == d[r] + 1
    }
  }

  lemma {:induction false} InternalOrdered(h: History, i: nat, j: nat)
    requires h.Valid() && i <= j < |h.iw|
    ensures h.iw[i] <= h.iw[j]
  {
    if i < j {
      InternalOrdered(h, i, j - 1);
      assert h.Lightest(j);
    }
  }

  lemma {:induction false} CountsOrdered(h: History, i: nat, j: nat)
    requires h.Valid() && i <= j <= |h.iw|
    ensures h.lc[i] <= h.lc[j] <= |h.w| && h.rc[i] <= h.rc[j] <= |h.iw|
    ensures h.lc[j] + h.rc[j] == 2 * j
    ensures j > 0 ==> h.rc[j] < j
  {
    if i < j {
      CountsOrdered(h, i, j - 1);
      assert h.Counts(j - 1);
    } else if j > 0 {
      CountsOrdered(h, 0, j - 1);
      assert h.Counts(j - 1);
    }
  }

  /** In a finished tree every leaf, and every internal node but the last, has been consumed. */
  lemma DoneCounts(h: History)
    requires h.Done()
    ensures h.lc[|h.iw|] == |h.w| && h.rc[|h.iw|] == |h.iw| - 1
  {
    CountsOrdered(h, 0, |h.iw|);
  }

  lemma {:induction false} ParentExists(h: History, k: nat, m: nat) returns (r: nat)
    requires h.Valid() && m <= |h.iw| && k < h.rc[m]
    ensures r < m && h.Parent(k, r) && k < r
  {
    r := m - 1;
    assert h.Counts(r);
    if k < h.rc[r] { r := ParentExists(h, k, m - 1); }
  }

  lemma {:induction false} LeafParentExists(h: History, i: nat, m: nat) returns (r: nat)
    requires h.Valid() && m <= |h.iw| && i < h.lc[m]
    ensures r < m && h.LeafParent(i, r)
  {
    r := m - 1;
    assert h.Counts(r);
    if i < h.lc[r] { r := LeafParentExists(h, i, m - 1); }
  }

  /** Later nodes are no deeper. */
  lemma {:induction false} DepthsOrdered(h: History, d: seq<nat>, i: nat, j: nat)
    requires h.Done() && h.Depths(d) && i <= j < |d|
    ensures d[i] >= d[j]
    decreases |d| - i
  {
    if i < j < |d| - 1 {
      DoneCounts(h);
      var p := ParentExists(h, i, |h.iw|);
      var q := ParentExists(h, j, |h.iw|);
      if q < p { CountsOrdered(h, q + 1, p); }
      DepthsOrdered(h, d, p, q);
    }
  }

  /** A node is at least one level deeper than depth d exactly when its parent is at level d or deeper. */
  lemma BelowLevel(h: History, d: seq<nat>, k: nat, q: nat, level: nat)
    requires h.Done() && h.Depths(d) && k < |d| && q < |d|
    requires forall j | 0 <= j < |d| :: d[j] >= level <==> j <= q
    ensures d[k] >= level + 1 <==> k < h.rc[q + 1]
  {
    DoneCounts(h);
    CountsOrdered(h, q + 1, |h.iw|);
    if k < |d| - 1 {
      var p := ParentExists(h, k, |h.iw|);
      if q < p { CountsOrdered(h, q + 1, p); } else { CountsOrdered(h, p + 1, q + 1); }
    }
  }

  lemma LeafBelowLevel(h: History, d: seq<nat>, i: nat, r: nat, q: nat, level: nat)
    requires h.Done() && h.Depths(d) && r < |d| && q < |d| && h.LeafParent(i, r)
    requires forall j | 0 <= j < |d| :: d[j] >= level <==> j <= q
    ensures d[r] >= level <==> i < h.lc[q + 1]
  {
    if q < r { CountsOrdered(h, q + 1, r); } else { CountsOrdered(h, r + 1, q + 1); }
  }

  // ----- what every merge keeps, the whole tree has

  lemma {:induction false} SumSnoc(s: seq<nat>, x: nat)
    ensures Sum(s + [x]) == Sum(s) + x
  {
    if s == [] {
      assert s + [x] == [x];
    } else {
      assert (s + [x])[1..] == s[1..] + [x];
      SumSnoc(s[1..], x);
    }
  }

  lemma SumMid(s: seq<nat>, a: nat, b: nat)
    requires a < b <= |s|
    ensures Sum(s[a..b]) == s[a] + Sum(s[a + 1..b])
  {
    assert s[a..b][1..] == s[a + 1..b];
  }

  /** Two elements of a run, or one, or none. */
  lemma SumTwo(s: seq<nat>, a: nat, a': nat, b: nat)
    requires a <= a' <= a + 2 && a' <= b <= |s|
    ensures Sum(s[a..b]) == (if a < a' then s[a] else 0) + (if a + 1 < a' then s[a + 1] else 0) + Sum(s[a'..b])
  {
    if a < a' { SumMid(s, a, b); }
    if a + 1 < a' { SumMid(s, a + 1, b); }
  }

  /** The sum of f over live leaves and g over live internal nodes, before merge r. */
  ghost function Live(h: History, f: seq<nat>, g: seq<nat>, r: nat): nat
    requires h.Valid() && |f| == |h.w| && |g| == |h.iw| && r <= |h.iw|
  {
    CountsOrdered(h, 0, r);
    Sum(f[h.lc[r]..|f|]) + Sum(g[h.rc[r]..r])
  }

  lemma SliceGrows(s: seq<nat>, a: nat, b: nat)
    requires a <= b < |s|
    ensures s[a..b + 1] == s[a..b] + [s[b]]
  {
  }

  lemma LiveStep(h: History, f: seq<nat>, g: seq<nat>, r: nat)
    requires h.Valid() && |f| == |h.w| && |g| == |h.iw| && r < |h.iw|
    ensures h.Counts(r) && Live(h, f, g, r) + g[r] == Live(h, f, g, r + 1) + h.Pair(f, g, r)
  {
    assert h.Counts(r);
    var l, l', k, k' := h.lc[r], h.lc[r + 1], h.rc[r], h.rc[r + 1];
    SumTwo(f, l, l', |f|);
    SumTwo(g, k, k', r);
    SliceGrows(g, k', r);
    SumSnoc(g[k'..r], g[r]);
  }

  /** Merge r turns the pair's sum into g[r] + c[r]. */
  ghost predicate Balanced(h: History, f: seq<nat>, g: seq<nat>, c: seq<nat>, r: nat)
    requires h.Shape() && |f| == |h.w| && |g| == |h.iw| && |c| == |h.iw| && r < |h.iw|
  {
    h.Counts(r) && h.Pair(f, g, r) == g[r] + c[r]
  }

  lemma {:induction false} Potential(h: History, f: seq<nat>, g: seq<nat>, c: seq<nat>, r: nat)
    requires h.Valid() && |f| == |h.w| && |g| == |h.iw| && |c| == |h.iw| && r <= |h.iw|
    requires forall k: nat | k < r :: Balanced(h, f, g, c, k)
    ensures Live(h, f, g, 0) == Live(h, f, g, r) + Sum(c[..r])
  {
    if r > 0 {
      var q := r - 1;
      Potential(h, f, g, c, q);
      assert Balanced(h, f, g, c, q);
      LiveStep(h, f, g, q);
      assert c[..r] == c[..q] + [c[q]];
      SumSnoc(c[..q], c[q]);
    }
  }

  /** If every merge is balanced, the leaves' total is the root's value plus all of c. */
  lemma PotentialAll(h: History, f: seq<nat>, g: seq<nat>, c: seq<nat>)
    requires h.Done() && |f| == |h.w| && |g| == |h.iw| && |c| == |h.iw|
    requires forall k: nat | k < |h.iw| :: Balanced(h, f, g, c, k)
    ensures Sum(f) == g[|g| - 1] + Sum(c)
  {
    var m := |h.iw|;
    DoneCounts(h);
    Potential(h, f, g, c, m);
    assert f[0..|f|] == f && c[..m] == c;
    SumMid(g, m - 1, m);
    assert Live(h, f, g, 0) == Sum(f) + Sum(g[0..0]);
    assert Live(h, f, g, m) == Sum(f[|f|..|f|]) + Sum(g[m - 1..m]);
  }

  lemma {:induction false} SumZeros(c: seq<nat>)
    requires forall i | 0 <= i < |c| :: c[i] == 0
    ensures Sum(c) == 0
  {
    if c != [] { SumZeros(c[1..]); }
  }

  /** The live nodes carry the whole weight at every stage. */
  lemma LiveWeight(h: History, r: nat)
    requires h.Valid() && r <= |h.iw|
    ensures Live(h, h.w, h.iw, r) == Sum(h.w)
  {
    var c := seq(|h.iw|, _ => 0 as nat);
    forall k: nat | k < r ensures Balanced(h, h.w, h.iw, c, k) { assert h.Lightest(k); }
    Potential(h, h.w, h.iw, c, r);
    SumZeros(c[..r]);
    assert h.w[0..|h.w|] == h.w;
  }

  lemma {:induction false} SumLast(s: seq<nat>)
    requires |s| > 0
    ensures s[|s| - 1] <= Sum(s)
  {
    if |s| > 1 { SumLast(s[1..]); }
  }

  /** No weight the construction stores exceeds the total, so sixteen bits hold them all when they hold the total. */
  lemma WeightsFit(h: History, k: nat)
    requires h.Valid() && k < |h.iw|
    ensures h.iw[k] <= Sum(h.w)
  {
    var m := |h.iw|;
    LiveWeight(h, m);
    CountsOrdered(h, 0, m);
    SumLast(h.iw[h.rc[m]..m]);
    InternalOrdered(h, k, m - 1);
  }

  /** The root carries the whole weight. */
  lemma RootWeight(h: History)
    requires h.Done()
    ensures h.iw[|h.iw| - 1] == Sum(h.w)
  {
    var m := |h.iw|;
    LiveWeight(h, m);
    DoneCounts(h);
    SumMid(h.iw, m - 1, m);
  }

  /** Kraft's sum of the lengths, counted in units of 2^-top. */
  function Kraft(len: seq<nat>, top: nat): nat
    requires forall i | 0 <= i < |len| :: len[i] <= top
  {
    if len == [] then 0 else Pow2(top - len[0]) + Kraft(len[1..], top)
  }

  lemma {:induction false} KraftSum(len: seq<nat>, top: nat)
    requires forall i | 0 <= i < |len| :: len[i] <= top
    ensures Kraft(len, top) == Sum(seq(|len|, i requires 0 <= i < |len| => Pow2(top - len[i])))
  {
    var s := seq(|len|, i requires 0 <= i < |len| => Pow2(top - len[i]));
    if len != [] {
      KraftSum(len[1..], top);
      var t := len[1..];
      assert s[1..] == seq(|t|, i requires 0 <= i < |t| => Pow2(top - t[i]));
    }
  }

  /** The two children of a node at depth e weigh as much as the node in Kraft's sum. */
  lemma PairDepths(h: History, d: seq<nat>, len: seq<nat>, r: nat)
    requires h.Done() && h.Depths(d) && h.LeafDepths(d, len) && r < |d|
    ensures h.Counts(r)
    ensures forall i | h.lc[r] <= i < h.lc[r + 1] :: len[i] == d[r] + 1
    ensures forall k | h.rc[r] <= k < h.rc[r + 1] :: d[k] == d[r] + 1
  {
    assert h.Counts(r);
    forall i: nat | h.lc[r] <= i < h.lc[r + 1] ensures len[i] == d[r] + 1 { assert h.LeafParent(i, r); }
    forall k: nat | h.rc[r] <= k < h.rc[r + 1] ensures d[k] == d[r] + 1 { assert h.Parent(k, r); }
  }

  lemma PairKraft(h: History, d: seq<nat>, len: seq<nat>, f: seq<nat>, g: seq<nat>, r: nat, top: nat)
    requires h.Done() && h.Depths(d) && h.LeafDepths(d, len) && r < |d|
    requires |f| == |len| && forall i | 0 <= i < |f| :: len[i] <= top && f[i] == Pow2(top - len[i])
    requires |g| == |d| && forall k | 0 <= k < |g| :: d[k] <= top && g[k] == Pow2(top - d[k])
    ensures h.Counts(r) && h.Pair(f, g, r) == g[r]
  {
    PairDepths(h, d, len, r);
  }

  /** The leaf depths satisfy Kraft's equality. */
  lemma TreeKraft(h: History, d: seq<nat>, len: seq<nat>, top: nat)
    requires h.Done() && h.Depths(d) && h.LeafDepths(d, len)
    requires forall i | 0 <= i < |len| :: len[i] <= top
    requires forall k | 0 <= k < |d| :: d[k] <= top
    ensures Kraft(len, top) == Pow2(top)
  {
    var f := seq(|len|, i requires 0 <= i < |len| => Pow2(top - len[i]));
    var g := seq(|d|, k requires 0 <= k < |d| => Pow2(top - d[k]));
    var c := seq(|d|, _ => 0 as nat);
    forall r: nat | r < |d| ensures Balanced(h, f, g, c, r) { PairKraft(h, d, len, f, g, r, top); }
    SumZeros(c);
    PotentialAll(h, f, g, c);
    KraftSum(len, top);
  }

  // ----- total weighted length

  function Cost(w: seq<nat>, len: seq<nat>): nat
    requires |w| == |len|
  {
    if w == [] then 0 else w[0] * len[0] + Cost(w[1..], len[1..])
  }

  lemma {:induction false} CostSum(w: seq<nat>, len: seq<nat>)
    requires |w| == |len|
    ensures Cost(w, len) == Sum(seq(|w|, i requires 0 <= i < |w| => w[i] * len[i]))
  {
    var s := seq(|w|, i requires 0 <= i < |w| => w[i] * len[i]);
    if w != [] {
      var v, t := w[1..], len[1..];
      CostSum(v, t);
      assert s[1..] == seq(|v|, i requires 0 <= i < |v| => v[i] * t[i]);
    }
  }

  lemma PairCost(h: History, d: seq<nat>, len: seq<nat>, f: seq<nat>, g: seq<nat>, r: nat)
    requires h.Done() && h.Depths(d) && h.LeafDepths(d, len) && r < |d|
    requires |f| == |len| && forall i | 0 <= i < |f| :: f[i] == h.w[i] * len[i]
    requires |g| == |d| && forall k | 0 <= k < |g| :: g[k] == h.iw[k] * d[k]
    ensures h.Counts(r) && h.Pair(f, g, r) == g[r] + h.iw[r]
  {
    PairDepths(h, d, len, r);
    assert h.Lightest(r);
    var l, k, e := h.lc[r], h.rc[r], d[r];
    if h.lc[r + 1] == l + 2 {
      Distribute(h.w[l], h.w[l + 1], e, f[l], f[l + 1]);
    } else if h.lc[r + 1] == l + 1 {
      Distribute(h.w[l], h.iw[k], e, f[l], g[k]);
    } else {
      Distribute(h.iw[k], h.iw[k + 1], e, g[k], g[k + 1]);
    }
  }

  lemma Distribute(a: nat, b: nat, e: nat, x: nat, y: nat)
    requires x == a * (e + 1) && y == b * (e + 1)
    ensures x + y == (a + b) * e + (a + b)
  {
  }

  /** The weighted length of the tree's code is the sum of its internal weights. */
  lemma TreeCost(h: History, d: seq<nat>, len: seq<nat>)
    requires h.Done() && h.Depths(d) && h.LeafDepths(d, len)
    ensures Cost(h.w, len) == Sum(h.iw)
  {
    var f := seq(|len|, i requires 0 <= i < |len| => h.w[i] * len[i]);
    var g := seq(|d|, k requires 0 <= k < |d| => h.iw[k] * d[k]);
    forall r: nat | r < |d| ensures Balanced(h, f, g, h.iw, r) { PairCost(h, d, len, f, g, r); }
    PotentialAll(h, f, g, h.iw);
    CostSum(h.w, len);
  }

  // ----- how deep the tree can be

  function Fib(n: nat): nat {
    if n < 2 then n else Fib(n - 1) + Fib(n - 2)
  }

  lemma {:induction false} FibOrdered(m: nat, n: nat)
    requires m <= n
    ensures Fib(m) <= Fib(n)
  {
    if m < n { FibOrdered(m, n - 1); }
  }

  /** A node consumed by merge k: leaf c or internal node c. */
  ghost predicate Child(h: History, leaf: bool, c: nat, k: nat) {
    if leaf then h.LeafParent(c, k) else h.Parent(c, k)
  }

  ghost function Weight(h: History, leaf: bool, c: nat, k: nat): nat
    requires h.Valid() && k < |h.iw| && Child(h, leaf, c, k)
  {
    assert h.Counts(k);
    if leaf then h.w[c] else h.iw[c]
  }

  /** Whatever is merged later is no lighter than what merge k consumed. */
  lemma LaterHeavier(h: History, leaf: bool, c: nat, k: nat, leaf': bool, c': nat, p: nat)
    requires h.Valid() && k < p < |h.iw| && Child(h, leaf, c, k) && Child(h, leaf', c', p)
    ensures Weight(h, leaf, c, k) <= Weight(h, leaf', c', p)
  {
    assert h.Counts(k) && h.Lightest(k) && h.Counts(p);
    CountsOrdered(h, k + 1, p);
    if leaf {
      if !leaf' {
        InternalOrdered(h, if h.rc[k + 1] < k then h.rc[k + 1] else k, c');
      }
    } else if leaf' {
      InternalOrdered(h, c, h.rc[k + 1] - 1);
    } else {
      InternalOrdered(h, c, c');
    }
  }

  /** A grandparent outweighs its child and grandchild together. */
  lemma Grandparent(h: History, leaf: bool, c: nat, k: nat, p: nat)
    requires h.Valid() && k < p < |h.iw| && Child(h, leaf, c, k) && h.Parent(k, p)
    ensures h.iw[p] >= h.iw[k] + Weight(h, leaf, c, k)
  {
    assert h.Counts(p) && h.Lightest(p);
    if h.lc[p + 1] == h.lc[p] + 1 {
      LaterHeavier(h, leaf, c, k, true, h.lc[p], p);
    } else {
      var s := if k == h.rc[p] then k + 1 else h.rc[p];
      LaterHeavier(h, leaf, c, k, false, s, p);
    }
  }

  lemma {:induction false} PathToRoot(h: History, d: seq<nat>, leaf: bool, c: nat, k: nat, j: nat, x: nat)
    requires h.Done() && h.Depths(d) && k < |h.iw| && Child(h, leaf, c, k)
    requires Weight(h, leaf, c, k) >= x * Fib(j) && h.iw[k] >= x * Fib(j + 1)
    ensures Sum(h.w) >= x * Fib(j + 1 + d[k])
    decreases |h.iw| - k
  {
    DoneCounts(h);
    if k == |h.iw| - 1 {
      RootWeight(h);
    } else {
      var p := ParentExists(h, k, |h.iw|);
      Grandparent(h, leaf, c, k, p);
      Share(x, Fib(j), Fib(j + 1));
      PathToRoot(h, d, false, k, p, j + 1, x);
    }
  }

  lemma Share(x: nat, a: nat, b: nat)
    ensures x * (a + b) == x * a + x * b
  {
  }

  /** A symbol of weight x at depth len needs a total weight of at least x * Fib(len + 1). */
  lemma DepthOutweighs(h: History, d: seq<nat>, len: seq<nat>, i: nat)
    requires h.Done() && h.Depths(d) && h.LeafDepths(d, len) && i < |len|
    ensures h.w[i] * Fib(len[i] + 1) <= Sum(h.w)
  {
    DoneCounts(h);
    var r := LeafParentExists(h, i, |h.iw|);
    assert h.Counts(r);
    var x := h.w[i];
    assert Fib(1) == 1 && Fib(2) == 1;
    PathToRoot(h, d, true, i, r, 1, x);
  }

  /** A leaf at depth len needs a total weight of at least Fib(len + 2). */
  lemma DepthCostsWeight(h: History, d: seq<nat>, len: seq<nat>, i: nat)
    requires h.Done() && h.Depths(d) && h.LeafDepths(d, len) && i < |len|
    ensures Sum(h.w) >= Fib(len[i] + 2)
  {
    DoneCounts(h);
    var r := LeafParentExists(h, i, |h.iw|);
    InternalOrdered(h, 0, r);
    assert h.Counts(0) && h.Lightest(0);
    assert Fib(2) == 1 && Fib(3) == 2;
    PathToRoot(h, d, true, i, r, 2, 1);
  }

  lemma Fib25()
    ensures Fib(25) == 75025
  {
    assert Fib(10) == 55 && Fib(11) == 89;
    assert Fib(12) == 144 && Fib(13) == 233 && Fib(14) == 377 && Fib(15) == 610;
    assert Fib(16) == 987 && Fib(17) == 1597 && Fib(18) == 2584 && Fib(19) == 4181;
    assert Fib(20) == 6765 && Fib(21) == 10946 && Fib(22) == 17711 && Fib(23) == 28657;
    assert Fib(24) == 46368;
  }

  /** When the weights sum to a sixteen-bit number no code is longer than 22 bits. */
  lemma DepthBound(h: History, d: seq<nat>, len: seq<nat>, i: nat)
    requires h.Done() && h.Depths(d) && h.LeafDepths(d, len) && i < |len| && Sum(h.w) < 65536
    ensures len[i] <= 22
  {
    DepthCostsWeight(h, d, len, i);
    if len[i] > 22 {
      FibOrdered(25, len[i] + 2);
      Fib25();
    }
  }
}
