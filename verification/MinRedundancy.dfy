/** Moffat and Katajainen's in-place code lengths (miniz tdefl_calculate_minimum_redundancy). */
module MinRedundancy {
  import opened Bits
  import opened HuffmanTree
  import opened HuffmanOptimal

  /** Everything up to merge |iw| is recorded; one more merge is added. */
  lemma HistoryExtend(h: History, l: nat, r: nat, v: nat)
    requires h.Valid() && |h.iw| > 0
    requires var h' := History(h.w, h.lc + [l], h.rc + [r], h.iw + [v]);
             h'.Counts(|h.iw|) && h'.Lightest(|h.iw|)
    ensures History(h.w, h.lc + [l], h.rc + [r], h.iw + [v]).Valid()
  {
    var h' := History(h.w, h.lc + [l], h.rc + [r], h.iw + [v]);
    forall k | 0 <= k < |h'.iw| ensures h'.Counts(k) && h'.Lightest(k) {
      if k < |h.iw| {
        assert h.Counts(k) && h.Lightest(k);
        assert h'.Counts(k);
      }
    }
  }

  /** No live node is lighter than the heavier of the two merged last. */
  ghost predicate Frontier(h: History, mx: nat)
    requires h.Valid() && |h.iw| > 0
  {
    var m := |h.iw|;
    assert h.Counts(m - 1);
    h.iw[m - 1] <= 2 * mx &&
    (h.lc[m] < |h.w| ==> mx <= h.w[h.lc[m]]) && mx <= h.iw[h.rc[m]]
  }

  /** With l leaves and r internal nodes consumed, the lightest live node weighs x. */
  ghost predicate Pick(h: History, l: nat, r: nat, x: nat, l': nat, r': nat) {
    (l < |h.w| && x == h.w[l] && l' == l + 1 && r' == r && (r < |h.iw| ==> x <= h.iw[r])) ||
    (r < |h.iw| && x == h.iw[r] && l' == l && r' == r + 1 && (l < |h.w| ==> x <= h.w[l]))
  }

  ghost function Extend(h: History, l: nat, r: nat, v: nat): History {
    History(h.w, h.lc + [l], h.rc + [r], h.iw + [v])
  }

  /** The second node picked is no lighter than the first, and nothing lighter stays live. */
  lemma PicksOrdered(h: History, mx: nat, l: nat, r: nat, x: nat, l1: nat, r1: nat, y: nat, l2: nat, r2: nat)
    requires h.Valid() && |h.iw| > 0 && l == h.lc[|h.iw|] && r == h.rc[|h.iw|] && Frontier(h, mx)
    requires Pick(h, l, r, x, l1, r1) && Pick(h, l1, r1, y, l2, r2)
    ensures mx <= x <= y && (l2 < |h.w| ==> y <= h.w[l2]) && (r2 < |h.iw| ==> y <= h.iw[r2])
    ensures l2 <= |h.w| && r2 <= |h.iw| && l2 + r2 == 2 * (|h.iw| + 1)
  {
    var m := |h.iw|;
    assert h.Counts(m - 1);
    if r2 < m {
      InternalOrdered(h, r, r2);
      InternalOrdered(h, r1, r2);
    }
    if r1 < m { InternalOrdered(h, r, r1); }
  }

  lemma MergeStep(h: History, mx: nat, l: nat, r: nat, x: nat, l1: nat, r1: nat, y: nat, l2: nat, r2: nat)
    requires h.Valid() && |h.iw| > 0 && l == h.lc[|h.iw|] && r == h.rc[|h.iw|] && Frontier(h, mx)
    requires Pick(h, l, r, x, l1, r1) && Pick(h, l1, r1, y, l2, r2)
    ensures var h' := Extend(h, l2, r2, x + y); h'.Counts(|h.iw|) && h'.Lightest(|h.iw|)
  {
    var m := |h.iw|;
    assert h.Counts(m - 1);
    PicksOrdered(h, mx, l, r, x, l1, r1, y, l2, r2);
    var h' := Extend(h, l2, r2, x + y);
    assert h'.Counts(m);
    assert h'.Pair(h'.w, h'.iw, m) == x + y;
  }

  lemma MergeTwo(h: History, mx: nat, l: nat, r: nat, x: nat, l1: nat, r1: nat, y: nat, l2: nat, r2: nat)
    requires h.Valid() && |h.iw| > 0 && l == h.lc[|h.iw|] && r == h.rc[|h.iw|] && Frontier(h, mx)
    requires Pick(h, l, r, x, l1, r1) && Pick(h, l1, r1, y, l2, r2)
    ensures Extend(h, l2, r2, x + y).Valid() && Frontier(Extend(h, l2, r2, x + y), y)
  {
    PicksOrdered(h, mx, l, r, x, l1, r1, y, l2, r2);
    MergeStep(h, mx, l, r, x, l1, r1, y, l2, r2);
    HistoryExtend(h, l2, r2, x + y);
  }

  /**
   * The array during phase 1: parent links of the internal nodes consumed, then live internal weights, then live
   * leaf weights. Nodes consumed by the merge in progress point to the node it creates.
   */
  ghost predicate Building(a: seq<nat>, h: History, root: nat, leaf: nat)
    requires h.Shape()
  {
    var m := |h.iw|;
    root <= m < leaf <= |a| && |a| == |h.w| &&
    (forall k | 0 <= k < root :: if k < h.rc[m] then h.Parent(k, a[k]) else a[k] == m) &&
    (forall k | root <= k < m :: a[k] == h.iw[k]) &&
    (forall k | leaf <= k < |a| :: a[k] == h.w[k])
  }

  lemma TakeInternal(a: seq<nat>, h: History, root: nat, leaf: nat, v: nat)
    requires h.Shape() && Building(a, h, root, leaf) && h.rc[|h.iw|] <= root < |h.iw|
    ensures Building(a[|h.iw| := v][root := |h.iw|], h, root + 1, leaf)
  {
  }

  lemma TakeLeaf(a: seq<nat>, h: History, root: nat, leaf: nat, v: nat)
    requires h.Shape() && Building(a, h, root, leaf) && leaf < |a|
    ensures Building(a[|h.iw| := v], h, root, leaf + 1)
  {
  }

  lemma FinishMerge(a: seq<nat>, h: History, root: nat, leaf: nat)
    requires h.Shape() && Building(a, h, root, leaf) && h.rc[|h.iw|] <= root && |h.iw| + 1 < leaf
    ensures Building(a, Extend(h, leaf, root, a[|h.iw|]), root, leaf)
  {
    var h', m := Extend(h, leaf, root, a[|h.iw|]), |h.iw|;
    forall k | 0 <= k < root ensures h'.Parent(k, a[k]) {
      if k < h.rc[m] { assert h.Parent(k, a[k]); }
    }
  }

  /** Storing into a sixteen-bit key. */
  function U16(v: nat): nat { v % 0x1_0000 }

  /** Whatever node is picked next, a sixteen-bit key holds its weight plus sum. */
  ghost predicate Fits16(h: History, leaf: nat, root: nat, sum: nat) {
    forall x, l', r' | Pick(h, leaf, root, x, l', r') :: sum + x < 0x1_0000
  }

  /** Adds the lightest live node to node next. miniz writes this choice out twice, once for each child. */
  method TakeLightest(a: array<nat>, next: nat, root: nat, leaf: nat, sum: nat, ghost h: History)
      returns (root': nat, leaf': nat, ghost x: nat)
    requires h.Shape() && |h.iw| == next < 0x1_0000 && h.rc[next] <= root && Building(a[..], h, root, leaf)
    requires (root < next || leaf < a.Length) && Fits16(h, leaf, root, sum)
    modifies a
    ensures Building(a[..], h, root', leaf') && a[next] == sum + x && Pick(h, leaf, root, x, leaf', root')
  {
    ghost var s: seq<nat> := a[..];
    if leaf >= a.Length || (root < next && a[root] < a[leaf]) {
      x := a[root];
      TakeInternal(s, h, root, leaf, sum + x);
      assert Pick(h, leaf, root, x, leaf, root + 1);
      a[next] := U16(sum + a[root]);
      a[root] := U16(next);
      root', leaf' := root + 1, leaf;
      assert a[..] == s[next := sum + x][root := next];
    } else {
      x := a[leaf];
      TakeLeaf(s, h, root, leaf, sum + x);
      assert Pick(h, leaf, root, x, leaf + 1, root);
      a[next] := U16(sum + a[leaf]);
      root', leaf' := root, leaf + 1;
      assert a[..] == s[next := sum + x];
    }
  }

  /** Ready for the next merge. */
  ghost predicate Between(a: seq<nat>, h: History, mx: nat, root: nat, leaf: nat) {
    h.Valid() && |h.iw| > 0 && leaf == h.lc[|h.iw|] && root == h.rc[|h.iw|] &&
    Building(a, h, root, leaf) && Frontier(h, mx)
  }

  lemma MergeDone(a: seq<nat>, h: History, mx: nat, l: nat, r: nat, x: nat, l1: nat, r1: nat, y: nat, l2: nat, r2: nat)
    requires h.Valid() && |h.iw| > 0 && l == h.lc[|h.iw|] && r == h.rc[|h.iw|] && Frontier(h, mx)
    requires Pick(h, l, r, x, l1, r1) && Pick(h, l1, r1, y, l2, r2)
    requires Building(a, h, r2, l2) && a[|h.iw|] == x + y
    ensures Between(a, Extend(h, l2, r2, x + y), y, r2, l2)
  {
    PicksOrdered(h, mx, l, r, x, l1, r1, y, l2, r2);
    MergeTwo(h, mx, l, r, x, l1, r1, y, l2, r2);
    FinishMerge(a, h, r2, l2);
  }

  lemma Room(a: seq<nat>, h: History, mx: nat, root: nat, leaf: nat)
    requires Between(a, h, mx, root, leaf)
    ensures root < |h.iw| && leaf + root == 2 * |h.iw|
  {
    assert h.Counts(|h.iw| - 1);
  }

  /** The second pick completes a node, whose weight is at most the total. */
  lemma SecondFits(h: History, mx: nat, l: nat, r: nat, x: nat, l1: nat, r1: nat)
    requires h.Valid() && |h.iw| > 0 && l == h.lc[|h.iw|] && r == h.rc[|h.iw|] && Frontier(h, mx)
    requires Pick(h, l, r, x, l1, r1) && Sum(h.w) < 0x1_0000
    ensures Fits16(h, l1, r1, x)
  {
    forall y, l2, r2 | Pick(h, l1, r1, y, l2, r2) ensures x + y < 0x1_0000 {
      MergeTwo(h, mx, l, r, x, l1, r1, y, l2, r2);
      WeightsFit(Extend(h, l2, r2, x + y), |h.iw|);
    }
  }

  lemma {:induction false} SumBounds(w: seq<nat>, i: nat)
    requires i < |w|
    ensures w[i] <= Sum(w)
  {
    if i > 0 { SumBounds(w[1..], i - 1); }
  }

  lemma FirstFits(h: History, l: nat, r: nat)
    requires h.Valid() && Sum(h.w) < 0x1_0000
    ensures Fits16(h, l, r, 0)
  {
    forall x, l', r' | Pick(h, l, r, x, l', r') ensures x < 0x1_0000 {
      if l < |h.w| && x == h.w[l] { SumBounds(h.w, l); } else { WeightsFit(h, r); }
    }
  }

  /** Phase 1: the tree as parent links. */
  method BuildTree(a: array<nat>, n: nat) returns (ghost h: History)
    requires n == a.Length && 2 <= n <= 0x1_0000 && Ordered(a[..]) && Positive(a[..]) && Sum(a[..]) < 0x1_0000
    modifies a
    ensures h.Done() && h.w == old(a[..])
    ensures forall k | 0 <= k < n - 2 :: h.Parent(k, a[k])
  {
    ghost var w := a[..];
    h := History(w, [0, 2], [0, 0], [w[0] + w[1]]);
    ghost var mx := w[1];
    FirstMerge(w, h);
    WeightsFit(h, 0);
    a[0] := U16(a[0] + a[1]);
    var root: nat, leaf: nat := 0, 2;
    for next: nat := 1 to n - 1
      invariant h.w == w && |h.iw| == next
      invariant Between(a[..], h, mx, root, leaf)
    {
      Room(a[..], h, mx, root, leaf);
      ghost var x, y;
      var root1, leaf1;
      FirstFits(h, leaf, root);
      root1, leaf1, x := TakeLightest(a, next, root, leaf, 0, h);
      SecondFits(h, mx, leaf, root, x, leaf1, root1);
      ghost var l0, r0 := leaf, root;
      root, leaf, y := TakeLightest(a, next, root1, leaf1, a[next], h);
      MergeDone(a[..], h, mx, l0, r0, x, leaf1, root1, y, leaf, root);
      h, mx := Extend(h, leaf, root, x + y), y;
    }
    Room(a[..], h, mx, root, leaf);
  }

  lemma FirstMerge(w: seq<nat>, h: History)
    requires Ordered(w) && Positive(w) && |w| >= 2
    requires h == History(w, [0, 2], [0, 0], [w[0] + w[1]])
    ensures h.Valid() && Frontier(h, w[1])
  {
    assert h.Counts(0) && h.Lightest(0);
  }

  /** Phase 2: parent links become depths. */
  method FindDepths(a: array<nat>, n: nat, ghost h: History) returns (ghost d: seq<nat>)
    requires h.Done() && n == a.Length == |h.w|
    requires forall k | 0 <= k < n - 2 :: h.Parent(k, a[k])
    modifies a
    ensures h.Depths(d) && a[..n - 1] == d
  {
    ghost var m := n - 1;
    ghost var links: seq<nat> := a[..];
    a[n - 2] := 0;
    d := [0];
    var next := n - 3;
    while next >= 0
      invariant -1 <= next <= n - 3 && a[next + 1..m] == d
      invariant forall k: nat | k <= next :: a[k] == links[k]
      invariant DepthsAbove(h, d, next + 1)
    {
      var p := a[next];
      DepthsStep(h, d, next, p);
      a[next] := a[p] + 1;
      d := [a[next]] + d;
      next := next - 1;
    }
    assert a[..m] == d;
    DepthsComplete(h, d);
  }

  /** d gives the depths of the internal nodes from number s on. */
  ghost predicate DepthsAbove(h: History, d: seq<nat>, s: nat) {
    s + |d| == |h.iw| && |d| > 0 && d[|d| - 1] == 0 &&
    forall k: nat, r: nat | s <= k < r < |h.iw| && h.Parent(k, r) :: d[k - s] == d[r - s] + 1
  }

  lemma DepthsStep(h: History, d: seq<nat>, k: nat, p: nat)
    requires h.Valid() && DepthsAbove(h, d, k + 1) && h.Parent(k, p)
    ensures k < p < |h.iw| && DepthsAbove(h, [d[p - (k + 1)] + 1] + d, k)
  {
    ParentLater(h, k, p);
    var d' := [d[p - (k + 1)] + 1] + d;
    forall j: nat, r: nat | k <= j < r < |h.iw| && h.Parent(j, r) ensures d'[j - k] == d'[r - k] + 1 {
      if j == k {
        ParentUnique(h, k, p, r);
      } else {
        assert d'[j - k] == d[j - (k + 1)] && d'[r - k] == d[r - (k + 1)];
      }
    }
  }

  lemma DepthsComplete(h: History, d: seq<nat>)
    requires h.Valid() && DepthsAbove(h, d, 0)
    ensures h.Depths(d)
  {
    forall k: nat, r: nat | k < |d| && h.Parent(k, r) && r < |d| ensures d[k] == d[r] + 1 { ParentLater(h, k, r); }
  }

  lemma ParentLater(h: History, k: nat, r: nat)
    requires h.Valid() && h.Parent(k, r)
    ensures k < r < |h.iw|
  {
    assert h.Counts(r);
  }

  lemma ParentUnique(h: History, k: nat, r: nat, r': nat)
    requires h.Valid() && h.Parent(k, r) && h.Parent(k, r')
    ensures r == r'
  {
    if r < r' { CountsOrdered(h, r + 1, r'); }
    if r' < r { CountsOrdered(h, r' + 1, r); }
  }

  /** The state of phase 3 before the leaves at depth dpth are found. */
  ghost predicate AtLevel(h: History, d: seq<nat>, dpth: nat, root: int, next: int, q: int)
    requires h.Shape()
  {
    |d| == |h.iw| && -1 <= root < |d| && -1 <= next < |h.w| &&
    (forall k | 0 <= k < |d| :: d[k] >= dpth <==> k <= root) &&
    if dpth == 0 then root == |d| - 1 && next == |d|
    else -1 <= q < |d| && root <= q && root + 1 == h.rc[q + 1] && next + 1 == h.lc[q + 1] &&
         forall k | 0 <= k < |d| :: d[k] >= dpth - 1 <==> k <= q
  }

  /** The leaf depths are in place from index s on. */
  ghost predicate Assigned(h: History, a: seq<nat>, d: seq<nat>, s: nat) {
    |a| == |h.w| && |d| == |h.iw| &&
    forall i: nat, r: nat | s <= i < |a| && h.LeafParent(i, r) && r < |d| :: a[i] == d[r] + 1
  }

  lemma SameThreshold(d: seq<nat>, x: nat, p: nat, q: nat)
    requires p <= |d| && q <= |d|
    requires forall k: nat | k < |d| :: d[k] >= x <==> k < p
    requires forall k: nat | k < |d| :: d[k] >= x <==> k < q
    ensures p == q
  {
    assert p < |d| ==> (d[p] >= x <==> p < q);
    assert q < |d| ==> (d[q] >= x <==> q < p);
  }

  lemma NextLevel(h: History, d: seq<nat>, dpth: nat, root: int, next: int, q: int, root': int)
    requires h.Done() && h.Depths(d) && AtLevel(h, d, dpth, root, next, q) && -1 <= root' <= root
    requires root' >= 0 ==> d[root'] != dpth
    requires forall k | root' < k <= root :: d[k] == dpth
    ensures AtLevel(h, d, dpth + 1, root', 2 * root - root', root)
    ensures 2 * root - root' <= next
  {
    DoneCounts(h);
    forall k: nat | k < |d| ensures d[k] >= dpth + 1 <==> k <= root' {
      if k <= root' { DepthsOrdered(h, d, k, root'); }
    }
    forall k: nat | k < |d| ensures d[k] >= dpth + 1 <==> k < h.rc[root + 1] {
      if root >= 0 { BelowLevel(h, d, k, root, dpth); }
    }
    CountsOrdered(h, 0, root + 1);
    CountsOrdered(h, root + 1, |h.iw|);
    SameThreshold(d, dpth + 1, root' + 1, h.rc[root + 1]);
    if dpth > 0 { CountsOrdered(h, root + 1, q + 1); }
  }

  lemma LevelLeaves(h: History, a: seq<nat>, a': seq<nat>, d: seq<nat>, dpth: nat, root: int, next: int, q: int,
      next': int, root': int)
    requires h.Done() && h.Depths(d) && AtLevel(h, d, dpth, root, next, q) &&
             AtLevel(h, d, dpth + 1, root', next', root)
    requires next' <= next && Assigned(h, a, d, next + 1) && |a'| == |a|
    requires forall i | next < i < |a| :: a'[i] == a[i]
    requires forall i | next' < i <= next :: a'[i] == dpth
    ensures Assigned(h, a', d, next' + 1)
  {
    forall i: nat, r: nat | next' + 1 <= i < |a| && h.LeafParent(i, r) && r < |d| ensures a'[i] == d[r] + 1 {
      if i <= next {
        if root >= 0 { LeafBelowLevel(h, d, i, r, root, dpth); }
        if dpth > 0 { LeafBelowLevel(h, d, i, r, q, dpth - 1); }
      }
    }
  }

  /** Phase 3: leaf depths from the number of internal nodes at every depth. */
  method AssignLengths(a: array<nat>, n: nat, ghost h: History, ghost d: seq<nat>)
    requires h.Done() && n == a.Length == |h.w| && h.Depths(d) && a[..n - 1] == d
    modifies a
    ensures h.LeafDepths(d, a[..])
  {
    ghost var m := n - 1;
    var avbl, used, dpth, root, next := 1, 0, 0, n - 2, n - 1;
    ghost var q := m;
    DoneCounts(h);
    while avbl > 0
      invariant avbl >= 0 && dpth >= 0 && used == 0 && next == root + avbl
      invariant AtLevel(h, d, dpth, root, next, q)
      invariant forall k | 0 <= k <= root :: a[k] == d[k]
      invariant Assigned(h, a[..], d, next + 1)
      decreases root + 1, avbl
    {
      ghost var root0, next0, a0 := root, next, a[..];
      while root >= 0 && a[root] == dpth
        invariant -1 <= root <= root0 && used == root0 - root
        invariant forall k | root < k <= root0 :: d[k] == dpth
      {
        used := used + 1;
        root := root - 1;
      }
      NextLevel(h, d, dpth, root0, next0, q, root);
      while avbl > used
        invariant used <= avbl && next == root + used + avbl && root + 2 * used <= next <= next0
        invariant forall i | 0 <= i <= next || next0 < i < n :: a[i] == a0[i]
        invariant forall i | next < i <= next0 :: a[i] == dpth
      {
        a[next] := dpth;
        next := next - 1;
        avbl := avbl - 1;
      }
      LevelLeaves(h, a0, a[..], d, dpth, root0, next0, q, next, root);
      avbl := 2 * used;
      dpth := dpth + 1;
      used := 0;
      q := root0;
    }
    CountsOrdered(h, 0, q + 1);
  }

  /** Deep symbols are light: one at depth l is outweighed by the whole by a factor of at least Fib(l + 1). */
  ghost predicate Shallow(w: seq<nat>, len: seq<nat>) {
    |len| == |w| && forall i | 0 <= i < |len| :: w[i] * Fib(len[i] + 1) <= Sum(w)
  }

  /** Lengths of a complete code, shorter for heavier symbols, that no other lengths beat. */
  ghost predicate MinimalCode(w: seq<nat>, len: seq<nat>) {
    |len| == |w| && Shallow(w, len) &&
    (forall i | 0 <= i < |len| :: 1 <= len[i] <= 32) &&
    Kraft(len, 32) == Pow2(32) &&
    (forall i, j | 0 <= i <= j < |len| :: len[i] >= len[j]) &&
    forall other: seq<nat>, top: nat | Competes(w, other, top) :: Cost(w, len) <= Cost(w, other)
  }

  /** other are lengths, up to top, that satisfy Kraft's inequality. */
  ghost predicate Competes(w: seq<nat>, other: seq<nat>, top: nat) {
    |other| == |w| && (forall i | 0 <= i < |other| :: other[i] <= top) && Kraft(other, top) <= Pow2(top)
  }

  lemma LeafDepthsOrdered(h: History, d: seq<nat>, len: seq<nat>, i: nat, j: nat)
    requires h.Done() && h.Depths(d) && h.LeafDepths(d, len) && i <= j < |len|
    ensures len[i] >= len[j] >= 1
  {
    DoneCounts(h);
    var p := LeafParentExists(h, i, |h.iw|);
    var q := LeafParentExists(h, j, |h.iw|);
    if q < p { CountsOrdered(h, q + 1, p); }
    DepthsOrdered(h, d, p, q);
  }

  lemma TreeIsMinimal(h: History, d: seq<nat>, len: seq<nat>)
    requires h.Done() && h.Depths(d) && h.LeafDepths(d, len) && Sum(h.w) < 0x1_0000
    ensures MinimalCode(h.w, len)
  {
    var top: nat := 32;
    forall i: nat | i < |len| ensures 1 <= len[i] <= 22 {
      DepthBound(h, d, len, i);
      LeafDepthsOrdered(h, d, len, i, i);
    }
    forall k: nat | k < |d| ensures d[k] <= top {
      assert h.Counts(0);
      assert h.LeafParent(0, 0);
      DepthsOrdered(h, d, 0, k);
    }
    TreeKraft(h, d, len, top);
    forall i: nat, j: nat | i <= j < |len| ensures len[i] >= len[j] { LeafDepthsOrdered(h, d, len, i, j); }
    forall i: nat | i < |len| ensures h.w[i] * Fib(len[i] + 1) <= Sum(h.w) { DepthOutweighs(h, d, len, i); }
    forall other: seq<nat>, t: nat | Competes(h.w, other, t) ensures Cost(h.w, len) <= Cost(h.w, other) {
      TreeOptimal(h, d, len, other, t);
    }
  }

  /** Replaces ascending positive frequencies by the lengths of a minimum-redundancy code. */
  method CalculateMinimumRedundancy(a: array<nat>, n: nat)
    requires n == a.Length <= 0x1_0000 && Ordered(a[..]) && Positive(a[..]) && Sum(a[..]) < 0x1_0000
    modifies a
    ensures n == 1 ==> a[..] == [1]
    ensures n >= 2 ==> MinimalCode(old(a[..]), a[..])
  {
    if n == 0 {
      return;
    } else if n == 1 {
      a[0] := 1;
      return;
    }
    ghost var h := BuildTree(a, n);
    ghost var d := FindDepths(a, n, h);
    AssignLengths(a, n, h, d);
    TreeIsMinimal(h, d, a[..]);
  }
}
