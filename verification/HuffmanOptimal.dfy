/** No code lengths that satisfy Kraft's inequality beat the tree of the two-queue construction. */
module HuffmanOptimal {
  import opened Bits
  import opened HuffmanTree

  /** A weight and the length of its code. */
  datatype Item = Item(w: nat, len: nat)

  function ItemCost(p: seq<Item>): nat {
    if p == [] then 0 else p[0].w * p[0].len + ItemCost(p[1..])
  }

  ghost predicate Within(p: seq<Item>, top: nat) {
    forall i | 0 <= i < |p| :: p[i].len <= top
  }

  function ItemKraft(p: seq<Item>, top: nat): nat
    requires Within(p, top)
  {
    if p == [] then 0 else Pow2(top - p[0].len) + ItemKraft(p[1..], top)
  }

  ghost predicate Feasible(p: seq<Item>, top: nat) {
    Within(p, top) && ItemKraft(p, top) <= Pow2(top)
  }

  ghost function Weights(p: seq<Item>): multiset<nat> {
    if p == [] then multiset{} else multiset{p[0].w} + Weights(p[1..])
  }

  ghost function TotalLen(p: seq<Item>): nat {
    if p == [] then 0 else p[0].len + TotalLen(p[1..])
  }

  // ----- moving and replacing items

  lemma {:induction false} Replace(p: seq<Item>, k: nat, v: Item, top: nat)
    requires k < |p| && Within(p, top) && v.len <= top
    ensures Within(p[k := v], top)
    ensures ItemCost(p[k := v]) + p[k].w * p[k].len == ItemCost(p) + v.w * v.len
    ensures ItemKraft(p[k := v], top) + Pow2(top - p[k].len) == ItemKraft(p, top) + Pow2(top - v.len)
    ensures v.w == p[k].w ==> Weights(p[k := v]) == Weights(p)
    ensures TotalLen(p[k := v]) + p[k].len == TotalLen(p) + v.len
  {
    var q := p[k := v];
    if k == 0 {
      assert q[1..] == p[1..];
    } else {
      assert q[1..] == p[1..][k - 1 := v];
      Replace(p[1..], k - 1, v, top);
    }
  }

  /** Giving the longer length to the lighter item does not cost more. */
  lemma {:induction false} SwapLengths(p: seq<Item>, i: nat, j: nat, top: nat) returns (q: seq<Item>)
    requires i < j < |p| && Feasible(p, top)
    requires p[i].w <= p[j].w && p[i].len <= p[j].len
    ensures q == p[i := Item(p[i].w, p[j].len)][j := Item(p[j].w, p[i].len)]
    ensures Feasible(q, top) && ItemCost(q) <= ItemCost(p) && TotalLen(q) == TotalLen(p)
  {
    var a, b := Item(p[i].w, p[j].len), Item(p[j].w, p[i].len);
    Replace(p, i, a, top);
    Replace(p[i := a], j, b, top);
    q := p[i := a][j := b];
    Exchange(p[i].w, p[j].w, p[i].len, p[j].len);
  }

  lemma Exchange(x: nat, y: nat, l: nat, m: nat)
    requires x <= y && l <= m
    ensures x * m + y * l <= x * l + y * m
  {
    var e := y - x;
    assert y * l == x * l + e * l;
    assert y * m == x * m + e * m;
    MulMono(l, m, e);
  }

  lemma {:induction false} BringFront(p: seq<Item>, x: nat, top: nat) returns (q: seq<Item>)
    requires x in Weights(p) && Within(p, top)
    ensures |q| > 0 && q[0].w == x && Within(q, top)
    ensures Weights(q) == Weights(p) && ItemCost(q) == ItemCost(p) && ItemKraft(q, top) == ItemKraft(p, top)
  {
    if p[0].w == x {
      q := p;
    } else {
      var t := BringFront(p[1..], x, top);
      q := [t[0], p[0]] + t[1..];
      assert q[1..] == [p[0]] + t[1..];
      assert q[1..][1..] == t[1..];
    }
  }

  // ----- the parity argument

  lemma {:induction false} Rescale(p: seq<Item>, m: nat, k: nat)
    requires Within(p, m)
    ensures ItemKraft(p, m + k) == Shl(ItemKraft(p, m), k)
  {
    if p == [] {
      ShlZero(k);
    } else {
      Rescale(p[1..], m, k);
      ShlPow2(m - p[0].len, k);
      ShlAdd(Pow2(m - p[0].len), ItemKraft(p[1..], m), k);
    }
  }

  lemma {:induction false} ShlZero(k: nat)
    ensures Shl(0, k) == 0
  {
    if k > 0 { ShlZero(k - 1); }
  }

  /** All other terms are even, so an odd unit below the limit leaves room for another one. */
  lemma KraftRoom(c: nat, m: nat, k: nat)
    requires Shl(c, k) < Pow2(m + k)
    ensures Shl(c, k) + Pow2(k) <= Pow2(m + k)
  {
    var full := Pow2(m);
    ShlPow2(m, k);
    ShlPow2(0, k);
    ShlMono(full, c, k);
    ShlMono(c + 1, full, k);
    ShlAdd(c, 1, k);
  }

  lemma ShortenedFits(p: seq<Item>, q: seq<Item>, top: nat)
    requires |p| > 0 && Feasible(p, top) && p[0].len > 0
    requires forall i | 1 <= i < |p| :: p[i].len < p[0].len
    requires |q| > 0 && q[1..] == p[1..] && q[0].len == p[0].len - 1
    ensures Feasible(q, top)
  {
    var m, k, rest := q[0].len, top - q[0].len, p[1..];
    Rescale(rest, m, k);
    KraftRoom(ItemKraft(rest, m), m, k);
  }

  /** A single longest code can be shortened by one bit. */
  lemma ShortenLongest(p: seq<Item>, top: nat) returns (q: seq<Item>)
    requires |p| > 0 && Feasible(p, top) && p[0].len > 0
    requires forall i | 1 <= i < |p| :: p[i].len < p[0].len
    ensures q == p[0 := Item(p[0].w, p[0].len - 1)]
    ensures Feasible(q, top) && ItemCost(q) <= ItemCost(p) && TotalLen(q) == TotalLen(p) - 1
  {
    q := p[0 := Item(p[0].w, p[0].len - 1)];
    assert q[1..] == p[1..];
    ShortenedFits(p, q, top);
    MulMono(q[0].len, p[0].len, p[0].w);
  }

  // ----- merging the two lightest

  lemma {:induction false} LongestAt(p: seq<Item>) returns (k: nat)
    requires |p| > 0
    ensures k < |p| && forall i | 0 <= i < |p| :: p[i].len <= p[k].len
  {
    k := 0;
    for n := 1 to |p|
      invariant k < n && forall i | 0 <= i < n :: p[i].len <= p[k].len
    {
      if p[n].len > p[k].len { k := n; }
    }
  }

  /** The same items in the same order, possibly with other lengths. */
  ghost predicate SameWeights(p: seq<Item>, q: seq<Item>) {
    |p| == |q| && forall i | 0 <= i < |p| :: p[i].w == q[i].w
  }

  lemma {:induction false} SameWeightsSame(p: seq<Item>, q: seq<Item>)
    requires SameWeights(p, q)
    ensures Weights(p) == Weights(q)
  {
    if p != [] { SameWeightsSame(p[1..], q[1..]); }
  }

  /** The two lightest items, with equal lengths, in front: one node takes their place. */
  lemma JoinSiblings(p: seq<Item>, top: nat) returns (q: seq<Item>)
    requires |p| >= 2 && Feasible(p, top) && p[0].len == p[1].len > 0
    ensures Feasible(q, top) && Weights(q) == multiset{p[0].w + p[1].w} + Weights(p[2..])
    ensures ItemCost(q) + p[0].w + p[1].w == ItemCost(p)
  {
    var m, x, y, rest := p[0].len, p[0].w, p[1].w, p[2..];
    assert p[1..][1..] == rest;
    q := [Item(x + y, m - 1)] + rest;
    assert q[1..] == rest;
    assert ItemKraft(p[1..], top) == Pow2(top - m) + ItemKraft(rest, top);
    assert ItemKraft(q, top) == Pow2(top - m + 1) + ItemKraft(rest, top);
    assert ItemCost(p[1..]) == p[1].w * p[1].len + ItemCost(rest);
    JoinCost(p[0], p[1], q[0]);
  }

  lemma JoinCost(a: Item, b: Item, c: Item)
    requires a.len == b.len > 0 && c == Item(a.w + b.w, a.len - 1)
    ensures a.w * a.len + b.w * b.len == c.w * c.len + a.w + b.w
  {
    Distribute(a.w, b.w, c.len, a.w * a.len, b.w * b.len);
  }

  lemma TwoZerosDoNotFit(p: seq<Item>, top: nat)
    requires |p| >= 2 && Feasible(p, top)
    ensures p[0].len > 0 || p[1].len > 0
  {
    assert ItemKraft(p, top) == Pow2(top - p[0].len) + (Pow2(top - p[1].len) + ItemKraft(p[1..][1..], top));
  }

  lemma SwapToFront(p: seq<Item>, top: nat, i: nat, k: nat) returns (q: seq<Item>)
    requires i <= k < |p| && Feasible(p, top) && p[i].w <= p[k].w && p[i].len <= p[k].len
    ensures SameWeights(p, q) && Feasible(q, top) && ItemCost(q) <= ItemCost(p) && TotalLen(q) == TotalLen(p)
    ensures q[i].len == p[k].len && (i < k ==> q[k].len == p[i].len)
    ensures forall j | 0 <= j < |p| && j != i && j != k :: q[j] == p[j]
  {
    if i == k { q := p; } else { q := SwapLengths(p, i, k, top); }
  }

  /** Item j is as long as the first one: it and the second item trade lengths. */
  lemma MergeTied(p: seq<Item>, top: nat, j: nat) returns (q: seq<Item>)
    requires 1 <= j < |p| && Feasible(p, top) && p[j].len == p[0].len && p[1].w <= p[j].w
    requires forall i | 0 <= i < |p| :: p[i].len <= p[0].len
    ensures Feasible(q, top) && Weights(q) == multiset{p[0].w + p[1].w} + Weights(p[2..])
    ensures ItemCost(q) + p[0].w + p[1].w <= ItemCost(p)
  {
    var p' := SwapToFront(p, top, 1, j);
    SameWeightsSame(p[2..], p'[2..]);
    TwoZerosDoNotFit(p', top);
    q := JoinSiblings(p', top);
  }

  /** The lighter of the front two gets the longest length. */
  lemma LongestFirst(p: seq<Item>, top: nat) returns (p': seq<Item>)
    requires |p| >= 2 && Feasible(p, top) && forall i | 1 <= i < |p| :: p[0].w <= p[i].w
    ensures SameWeights(p, p') && Feasible(p', top) && ItemCost(p') <= ItemCost(p) && TotalLen(p') == TotalLen(p)
    ensures forall i | 0 <= i < |p| :: p'[i].len <= p'[0].len
    ensures Weights(p'[2..]) == Weights(p[2..])
  {
    var k := LongestAt(p);
    p' := SwapToFront(p, top, 0, k);
    SameWeightsSame(p[2..], p'[2..]);
  }

  lemma {:induction false} MergeFront(p: seq<Item>, top: nat) returns (q: seq<Item>)
    requires |p| >= 2 && Feasible(p, top) && p[0].w <= p[1].w
    requires forall i | 2 <= i < |p| :: p[1].w <= p[i].w
    ensures Feasible(q, top) && Weights(q) == multiset{p[0].w + p[1].w} + Weights(p[2..])
    ensures ItemCost(q) + p[0].w + p[1].w <= ItemCost(p)
    decreases TotalLen(p)
  {
    hide ItemCost, ItemKraft, Weights;
    var p1 := LongestFirst(p, top);
    if j: nat :| 1 <= j < |p| && p1[j].len == p1[0].len {
      q := MergeTied(p1, top, j);
    } else {
      assert p1[1].len < p1[0].len;
      var p2 := ShortenLongest(p1, top);
      assert p2[2..] == p1[2..];
      q := MergeFront(p2, top);
    }
  }

  // ----- lower bounds

  /** Every feasible assignment of lengths to these weights costs at least c. */
  ghost predicate Bound(m: multiset<nat>, c: nat) {
    forall p: seq<Item>, top: nat | Weights(p) == m && Feasible(p, top) :: ItemCost(p) >= c
  }

  lemma {:induction false} WeightsSize(p: seq<Item>)
    ensures |Weights(p)| == |p|
    ensures forall i | 0 <= i < |p| :: p[i].w in Weights(p)
  {
    if p != [] { WeightsSize(p[1..]); }
  }

  lemma CancelFront(x: nat, a: multiset<nat>, b: multiset<nat>)
    requires multiset{x} + a == multiset{x} + b
    ensures a == b
  {
    assert a == (multiset{x} + a) - multiset{x};
    assert b == (multiset{x} + b) - multiset{x};
  }

  /** The tail replaced by one of the same cost and Kraft sum. */
  lemma NewTail(q: seq<Item>, t: seq<Item>, top: nat)
    requires q != [] && Within(q, top) && Within(t, top)
    requires ItemCost(t) == ItemCost(q[1..]) && ItemKraft(t, top) == ItemKraft(q[1..], top)
    ensures var r := [q[0]] + t;
            r[1..] == t && Within(r, top) && ItemCost(r) == ItemCost(q) && ItemKraft(r, top) == ItemKraft(q, top)
  {
  }

  lemma WeightsHead(q: seq<Item>)
    requires q != []
    ensures Weights(q) == multiset{q[0].w} + Weights(q[1..])
  {
  }

  lemma TwoToFront(p: seq<Item>, x: nat, y: nat, rest: multiset<nat>, top: nat) returns (r: seq<Item>)
    requires Weights(p) == multiset{x} + (multiset{y} + rest) && Feasible(p, top)
    ensures |r| >= 2 && r[0].w == x && r[1].w == y && Weights(r[2..]) == rest
    ensures Feasible(r, top) && ItemCost(r) == ItemCost(p)
  {
    hide ItemCost, ItemKraft, Weights;
    var q := BringFront(p, x, top);
    WeightsHead(q);
    CancelFront(x, Weights(q[1..]), multiset{y} + rest);
    var t := BringFront(q[1..], y, top);
    WeightsHead(t);
    CancelFront(y, Weights(t[1..]), rest);
    r := [q[0]] + t;
    NewTail(q, t, top);
    assert r[2..] == t[1..];
  }

  lemma MergeLightest(p: seq<Item>, x: nat, y: nat, rest: multiset<nat>, top: nat) returns (s: seq<Item>)
    requires x <= y && Weights(p) == multiset{x} + (multiset{y} + rest) && Feasible(p, top)
    requires forall z | z in rest :: y <= z
    ensures Feasible(s, top) && ItemCost(s) + x + y <= ItemCost(p)
    ensures Weights(s) == multiset{x + y} + rest
  {
    hide ItemCost, ItemKraft, Feasible, Weights;
    var r := TwoToFront(p, x, y, rest, top);
    NoneLighter(r, y);
    s := MergeFront(r, top);
  }

  lemma NoneLighter(r: seq<Item>, y: nat)
    requires |r| >= 2 && forall z | z in Weights(r[2..]) :: y <= z
    ensures forall i | 2 <= i < |r| :: y <= r[i].w
  {
    hide Weights;
    WeightsSize(r[2..]);
    forall i | 2 <= i < |r| ensures y <= r[i].w { assert r[i] == r[2..][i - 2]; }
  }

  /** Merging the two lightest weights lowers the bound by exactly their sum. */
  lemma BoundStep(x: nat, y: nat, rest: multiset<nat>, c: nat)
    requires x <= y && forall z | z in rest :: y <= z
    requires Bound(multiset{x + y} + rest, c)
    ensures Bound(multiset{x} + (multiset{y} + rest), c + x + y)
  {
    var m := multiset{x} + (multiset{y} + rest);
    forall p: seq<Item>, top: nat | Weights(p) == m && Feasible(p, top) ensures ItemCost(p) >= c + x + y {
      var s := MergeLightest(p, x, y, rest, top);
    }
  }

  // ----- the construction is optimal

  /** The weights of the live nodes before merge r. */
  ghost function Roots(h: History, r: nat): multiset<nat>
    requires h.Valid() && r <= |h.iw|
  {
    CountsOrdered(h, 0, r);
    multiset(h.w[h.lc[r]..|h.w|]) + multiset(h.iw[h.rc[r]..r])
  }

  /** The weights that merge r leaves alone. */
  ghost function Others(h: History, r: nat): multiset<nat>
    requires h.Valid() && r < |h.iw|
  {
    assert h.Counts(r);
    multiset(h.w[h.lc[r + 1]..|h.w|]) + multiset(h.iw[h.rc[r + 1]..r])
  }

  lemma DropOne(s: seq<nat>, a: nat, b: nat)
    requires a < b <= |s|
    ensures multiset(s[a..b]) == multiset{s[a]} + multiset(s[a + 1..b])
  {
    assert s[a..b] == [s[a]] + s[a + 1..b];
  }

  lemma DropTwo(s: seq<nat>, a: nat, b: nat)
    requires a + 1 < b <= |s|
    ensures multiset(s[a..b]) == multiset{s[a]} + (multiset{s[a + 1]} + multiset(s[a + 2..b]))
  {
    DropOne(s, a, b);
    DropOne(s, a + 1, b);
  }

  lemma OthersHeavier(h: History, r: nat, y: nat, z: nat)
    requires h.Valid() && r < |h.iw| && h.Counts(r) && z in Others(h, r)
    requires h.lc[r + 1] < |h.w| ==> y <= h.w[h.lc[r + 1]]
    requires h.rc[r + 1] < r ==> y <= h.iw[h.rc[r + 1]]
    ensures y <= z
  {
    var l, k := h.lc[r + 1], h.rc[r + 1];
    if z in h.w[l..|h.w|] {
      var i :| l <= i < |h.w| && h.w[i] == z;
    } else {
      assert z in h.iw[k..r];
      var i :| k <= i < r && h.iw[i] == z;
      InternalOrdered(h, k, i);
    }
  }

  lemma Regroup(x: nat, y: nat, a: multiset<nat>, b: multiset<nat>)
    ensures (multiset{x} + (multiset{y} + a)) + b == multiset{x} + (multiset{y} + (a + b))
    ensures (multiset{x} + a) + (multiset{y} + b) == multiset{x} + (multiset{y} + (a + b))
    ensures (multiset{x} + a) + (multiset{y} + b) == multiset{y} + (multiset{x} + (a + b))
    ensures a + (multiset{x} + (multiset{y} + b)) == multiset{x} + (multiset{y} + (a + b))
  {
  }

  /** Taking two elements off the front of two runs. */
  lemma TakeTwo(u: seq<nat>, l: nat, l': nat, n: nat, v: seq<nat>, k: nat, k': nat, r: nat) returns (x: nat, y: nat)
    requires l <= l' <= n <= |u| && k <= k' <= r <= |v| && l' + k' == l + k + 2
    ensures multiset(u[l..n]) + multiset(v[k..r]) ==
            multiset{x} + (multiset{y} + (multiset(u[l'..n]) + multiset(v[k'..r])))
    ensures if l' == l + 2 then x == u[l] && y == u[l + 1]
            else if l' == l + 1 then x == u[l] && y == v[k]
            else x == v[k] && y == v[k + 1]
  {
    if l' == l + 2 {
      x, y := u[l], u[l + 1];
      DropTwo(u, l, n);
    } else if l' == l + 1 {
      x, y := u[l], v[k];
      DropOne(u, l, n);
      DropOne(v, k, r);
    } else {
      x, y := v[k], v[k + 1];
      DropTwo(v, k, r);
    }
    Regroup(x, y, multiset(u[l'..n]), multiset(v[k'..r]));
  }

  lemma InternalsOrdered(h: History, k: nat, r: nat)
    requires h.Valid() && k <= r <= |h.iw|
    ensures k + 1 < r ==> h.iw[k] <= h.iw[k + 1]
    ensures k + 2 < r ==> h.iw[k + 1] <= h.iw[k + 2]
  {
    if k + 1 < r { InternalOrdered(h, k, k + 1); }
    if k + 2 < r { InternalOrdered(h, k + 1, k + 2); }
  }

  /** Merge r consumes x and y, and nothing it leaves is lighter. */
  lemma RootsBefore(h: History, r: nat) returns (x: nat, y: nat)
    requires h.Valid() && r < |h.iw|
    ensures x <= y && x + y == h.iw[r] && Roots(h, r) == multiset{x} + (multiset{y} + Others(h, r))
    ensures h.Counts(r)
    ensures h.lc[r + 1] < |h.w| ==> y <= h.w[h.lc[r + 1]]
    ensures h.rc[r + 1] < r ==> y <= h.iw[h.rc[r + 1]]
  {
    assert h.Counts(r) && h.Lightest(r);
    x, y := TakeTwo(h.w, h.lc[r], h.lc[r + 1], |h.w|, h.iw, h.rc[r], h.rc[r + 1], r);
    InternalsOrdered(h, h.rc[r], r);
    assert multiset{x} + (multiset{y} + Others(h, r)) == multiset{y} + (multiset{x} + Others(h, r));
    if x > y { x, y := y, x; }
  }

  lemma RootsAfter(h: History, r: nat)
    requires h.Valid() && r < |h.iw|
    ensures Roots(h, r + 1) == multiset{h.iw[r]} + Others(h, r)
  {
    assert h.Counts(r);
    var k := h.rc[r + 1];
    assert h.iw[k..r + 1] == h.iw[k..r] + [h.iw[r]];
  }

  lemma {:induction false} BoundFrom(h: History, r: nat)
    requires h.Done() && r <= |h.iw|
    ensures Bound(Roots(h, r), Sum(h.iw[r..]))
    decreases |h.iw| - r
  {
    hide Bound, Others, Roots;
    if r < |h.iw| {
      var c := Sum(h.iw[r + 1..]);
      BoundFrom(h, r + 1);
      RootsAfter(h, r);
      var x, y := RootsBefore(h, r);
      forall z | z in Others(h, r) ensures y <= z { OthersHeavier(h, r, y, z); }
      BoundStep(x, y, Others(h, r), c);
      SumFrom(h.iw, r);
    } else {
      BoundZero(Roots(h, r));
    }
  }

  lemma SumFrom(s: seq<nat>, r: nat)
    requires r < |s|
    ensures Sum(s[r..]) == s[r] + Sum(s[r + 1..])
  {
    assert s[r..][1..] == s[r + 1..];
  }

  lemma BoundZero(m: multiset<nat>)
    ensures Bound(m, 0)
  {
  }

  function Zip(w: seq<nat>, len: seq<nat>): (p: seq<Item>)
    requires |w| == |len|
    ensures |p| == |w| && forall i | 0 <= i < |p| :: p[i].len == len[i]
  {
    if w == [] then [] else [Item(w[0], len[0])] + Zip(w[1..], len[1..])
  }

  lemma ZipTail(w: seq<nat>, len: seq<nat>)
    requires |w| == |len| > 0
    ensures Zip(w, len)[0] == Item(w[0], len[0]) && Zip(w, len)[1..] == Zip(w[1..], len[1..])
  {
  }

  lemma MultisetHead(w: seq<nat>)
    requires w != []
    ensures multiset(w) == multiset{w[0]} + multiset(w[1..])
  {
    assert w == [w[0]] + w[1..];
  }

  lemma {:induction false} ZipFacts(w: seq<nat>, len: seq<nat>, top: nat)
    requires |w| == |len| && forall i | 0 <= i < |len| :: len[i] <= top
    ensures ItemCost(Zip(w, len)) == Cost(w, len) && Weights(Zip(w, len)) == multiset(w)
    ensures ItemKraft(Zip(w, len), top) == Kraft(len, top)
  {
    hide Zip, Pow2;
    if w != [] {
      ZipFacts(w[1..], len[1..], top);
      ZipTail(w, len);
      MultisetHead(w);
    }
  }

  /**
   * The tree's code is a minimum-redundancy code: any lengths that satisfy Kraft's inequality have at least its
   * weighted length.
   */
  lemma TreeOptimal(h: History, d: seq<nat>, len: seq<nat>, other: seq<nat>, top: nat)
    requires h.Done() && h.Depths(d) && h.LeafDepths(d, len)
    requires |other| == |h.w| && (forall i | 0 <= i < |other| :: other[i] <= top) && Kraft(other, top) <= Pow2(top)
    ensures Cost(h.w, len) <= Cost(h.w, other)
  {
    BoundFrom(h, 0);
    ZipFacts(h.w, other, top);
    assert h.w[0..|h.w|] == h.w && h.iw[0..] == h.iw && h.iw[0..0] == [];
    assert Feasible(Zip(h.w, other), top);
    TreeCost(h, d, len);
  }
}
