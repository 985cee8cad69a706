/** How many inner nodes the code tree of a complete code has below its tenth level. */
module PrefixNodes {
  import opened Bits
  import opened Canonical

  /** p is a proper prefix, at least ten bits long, of symbol i's code. */
  predicate InnerOf(s: seq<nat>, p: seq<bool>, i: nat) {
    i < |s| && 10 <= |p| < s[i] && p == Codeword(s, i)[..|p|]
  }

  ghost predicate Inner(s: seq<nat>, p: seq<bool>) {
    exists i: nat :: InnerOf(s, p, i)
  }

  ghost predicate AllInner(s: seq<nat>, nodes: seq<seq<bool>>) {
    forall j: nat | j < |nodes| :: Inner(s, nodes[j])
  }

  ghost predicate Distinct<T>(t: seq<T>) {
    forall j: nat, k: nat | j < k < |t| :: t[j] != t[k]
  }

  /** Distinct numbers below m are at most m. */
  lemma {:induction false} Pigeons(t: seq<nat>, m: nat)
    requires Distinct(t) && forall j: nat | j < |t| :: t[j] < m
    ensures |t| <= m
    decreases m
  {
    if |t| == 0 { return; }
    assert t[0] < m;
    if k: nat :| k < |t| && t[k] == m - 1 {
      var u := t[..k] + t[k + 1..];
      forall j: nat, l: nat | j < l < |u| ensures u[j] != u[l] {
        assert u[j] == t[if j < k then j else j + 1] && u[l] == t[if l < k then l else l + 1];
      }
      Pigeons(u, m - 1);
    } else {
      Pigeons(t, m - 1);
    }
  }

  // ----- the number of a bit string, most significant bit first

  function Num(p: seq<bool>): (n: nat)
    ensures n < Pow2(|p|)
  {
    if p == [] then 0 else 2 * Num(p[..|p| - 1]) + (if p[|p| - 1] then 1 else 0)
  }

  lemma {:induction false} NumOfCode(v: nat, n: nat)
    requires v < Pow2(n)
    ensures Num(CodeBits(v, n)) == v
  {
    if n > 0 {
      assert CodeBits(v, n)[..n - 1] == CodeBits(v / 2, n - 1);
      NumOfCode(v / 2, n - 1);
    }
  }

  lemma {:induction false} NumInjective(p: seq<bool>, q: seq<bool>)
    requires |p| == |q| && Num(p) == Num(q)
    ensures p == q
  {
    if p != [] {
      var n := |p| - 1;
      NumInjective(p[..n], q[..n]);
      assert p == p[..n] + [p[n]] && q == q[..n] + [q[n]];
    }
  }

  /** The first code number of length l that is not a code but starts longer ones. */
  function Next(s: seq<nat>, l: nat): nat
    requires l >= 1
  {
    FirstCode(s, l) + Count(s, l)
  }

  /** A prefix of a longer code lies above all codes of its length. */
  lemma InnerNum(s: seq<nat>, p: seq<bool>, i: nat)
    requires Fits(s) && i < |s| && 1 <= |p| < s[i] && p == Codeword(s, i)[..|p|]
    ensures Next(s, |p|) <= Num(p)
  {
    hide Fits, FirstCode, Num, Count, CodeNum;
    var c, n, m := CodeNum(s, i), s[i], |p|;
    CodeNumFits(s, i);
    CodeBitsIndex(c, n, m);
    ShrBound(c, m, n - m);
    NumOfCode(Shr(c, n - m), m);
    CodeNumGap(s, i, m);
  }

  // ----- counting by level

  /** How many prefixes of length l can start longer codes. */
  function Room(s: seq<nat>, l: nat): nat
    requires l >= 1
  {
    if Next(s, l) <= Pow2(l) then Pow2(l) - Next(s, l) else 0
  }

  lemma RoomNext(s: seq<nat>, l: nat)
    requires Fits(s) && 1 <= l < MAX_LEN
    ensures 2 * Room(s, l) == Room(s, l + 1) + Count(s, l + 1)
  {
    FitsAt(s, l);
    FitsAt(s, l + 1);
  }

  /** The number of possible prefixes from ten bits to fewer than l. */
  function Offset(s: seq<nat>, l: nat): nat
    requires l >= 10
    decreases l
  {
    if l == 10 then 0 else Offset(s, l - 1) + Room(s, l - 1)
  }

  lemma {:induction false} OffsetMono(s: seq<nat>, l: nat, m: nat)
    requires 10 <= l <= m
    ensures Offset(s, l) <= Offset(s, m)
    decreases m
  {
    if l < m { OffsetMono(s, l, m - 1); }
  }

  /** Twice the prefixes of one level are those of the next and its codes. */
  lemma {:induction false} LongCodes(s: seq<nat>, l: nat)
    requires Fits(s) && 10 <= l <= MAX_LEN
    ensures Offset(s, l) + Room(s, 10) == Room(s, l) + CountFrom(s, l)
  {
    if l > 10 {
      LongCodes(s, l - 1);
      RoomNext(s, l - 1);
    }
  }

  /** How many codes have lengths from eleven to l. */
  function CountFrom(s: seq<nat>, l: nat): nat
    requires l >= 10
    decreases l
  {
    if l == 10 then 0 else CountFrom(s, l - 1) + Count(s, l)
  }

  lemma {:induction false} CountFromSnoc(s: seq<nat>, l: nat)
    requires |s| > 0 && l >= 10
    ensures CountFrom(s, l) == CountFrom(s[..|s| - 1], l) + (if 10 < s[|s| - 1] <= l then 1 else 0)
    decreases l
  {
    if l > 10 { CountFromSnoc(s, l - 1); }
  }

  lemma {:induction false} CountFromEmpty(l: nat)
    requires l >= 10
    ensures CountFrom([], l) == 0
    decreases l
  {
    if l > 10 { CountFromEmpty(l - 1); }
  }

  lemma {:induction false} CountFromBound(s: seq<nat>, l: nat)
    requires l >= 10
    ensures CountFrom(s, l) <= |s|
    decreases |s|
  {
    if s == [] {
      CountFromEmpty(l);
    } else {
      CountFromSnoc(s, l);
      CountFromBound(s[..|s| - 1], l);
    }
  }

  lemma {:induction false} NoRoom(s: seq<nat>, l: nat)
    requires Fits(s) && 10 <= l <= MAX_LEN && Room(s, 10) == 0
    ensures Room(s, l) == 0 && Offset(s, l) == 0
  {
    if l > 10 {
      NoRoom(s, l - 1);
      RoomNext(s, l - 1);
    }
  }

  lemma RoomTotal(s: seq<nat>)
    requires Complete(s) && 0 < |s| <= 288
    ensures Offset(s, 15) <= 287
  {
    var top: nat := 15;
    assert FirstCode(s, top + 1) == 2 * Next(s, top) && Pow2(top + 1) == 2 * Pow2(top);
    FitsAt(s, top);
    LongCodes(s, top);
    CountFromBound(s, top);
    NoRoomOr(s, top);
  }

  lemma NoRoomOr(s: seq<nat>, l: nat)
    requires Fits(s) && 10 <= l <= MAX_LEN
    ensures Room(s, 10) == 0 ==> Offset(s, l) == 0
  {
    if Room(s, 10) == 0 { NoRoom(s, l); }
  }

  /** A number for every possible prefix. */
  function Rank(s: seq<nat>, p: seq<bool>): int
    requires |p| >= 10
  {
    Offset(s, |p|) + Num(p) - Next(s, |p|)
  }

  lemma RankBound(s: seq<nat>, p: seq<bool>)
    requires Fits(s) && Inner(s, p)
    ensures 10 <= |p| < 15 && Offset(s, |p|) <= Rank(s, p) < Offset(s, |p| + 1) <= Offset(s, 15)
  {
    var i: nat :| InnerOf(s, p, i);
    InnerNum(s, p, i);
    FitsAt(s, |p|);
    OffsetMono(s, |p| + 1, 15);
  }

  lemma Apart(s: seq<nat>, p: seq<bool>, q: seq<bool>)
    requires Fits(s) && Inner(s, p) && Inner(s, q) && 10 <= |p| < |q|
    ensures Rank(s, p) < Rank(s, q)
  {
    hide FirstCode, Count, Inner, Num, Next, Pow2, Room;
    RankBound(s, p);
    RankBound(s, q);
    OffsetMono(s, |p| + 1, |q|);
  }

  lemma RankInjective(s: seq<nat>, p: seq<bool>, q: seq<bool>)
    requires Fits(s) && Inner(s, p) && Inner(s, q) && Rank(s, p) == Rank(s, q)
    ensures p == q
  {
    RankBound(s, p);
    RankBound(s, q);
    if |p| < |q| {
      Apart(s, p, q);
    } else if |q| < |p| {
      Apart(s, q, p);
    } else {
      assert Num(p) == Num(q);
      NumInjective(p, q);
    }
  }

  lemma NodesComplete(s: seq<nat>, nodes: seq<seq<bool>>)
    requires Complete(s) && 0 < |s| <= 288 && AllInner(s, nodes) && Distinct(nodes)
    ensures |nodes| <= 287
  {
    var top: nat := 15;
    forall j: nat | j < |nodes| ensures |nodes[j]| >= 10 && 0 <= Rank(s, nodes[j]) < Offset(s, top) {
      RankBound(s, nodes[j]);
    }
    var ranks: seq<nat> := seq(|nodes|, (j: nat) requires j < |nodes| => Rank(s, nodes[j]) as nat);
    forall j: nat, k: nat | j < k < |ranks| ensures ranks[j] != ranks[k] {
      if Rank(s, nodes[j]) == Rank(s, nodes[k]) { RankInjective(s, nodes[j], nodes[k]); }
    }
    Pigeons(ranks, Offset(s, top));
    RoomTotal(s);
  }

  // ----- one code

  lemma {:induction false} TwoUsed(s: seq<nat>, i: nat, j: nat)
    requires i < j < |s| && s[i] > 0 && s[j] > 0
    ensures |s| - Count(s, 0) >= 2
  {
    var n := |s| - 1;
    if j < n {
      TwoUsed(s[..n], i, j);
    } else {
      OneUsed(s[..n], i);
    }
  }

  lemma {:induction false} OneUsed(s: seq<nat>, i: nat)
    requires i < |s| && s[i] > 0
    ensures |s| - Count(s, 0) >= 1
  {
    var n := |s| - 1;
    if i < n { OneUsed(s[..n], i); }
  }

  lemma OneUser(s: seq<nat>, i: nat, k: nat)
    requires |s| - Count(s, 0) <= 1 && i < |s| && k < |s| && s[i] > 0 && s[k] > 0
    ensures i == k
  {
    if k < i { TwoUsed(s, k, i); } else if i < k { TwoUsed(s, i, k); }
  }

  lemma InnerOfOne(s: seq<nat>, p: seq<bool>, i: nat)
    requires |s| - Count(s, 0) <= 1 && i < |s| && s[i] > 0 && Inner(s, p)
    ensures InnerOf(s, p, i)
  {
    var k: nat :| InnerOf(s, p, k);
    OneUser(s, i, k);
  }

  /** Prefixes of one code are told apart by their lengths. */
  lemma Levels(s: seq<nat>, nodes: seq<seq<bool>>, i: nat)
    requires Lengths(s) && i < |s| && Distinct(nodes) && forall j: nat | j < |nodes| :: InnerOf(s, nodes[j], i)
    ensures |nodes| <= 5
  {
    hide Codeword, Count;
    assert s[i] <= 15;
    var ranks: seq<nat> := seq(|nodes|, (j: nat) requires j < |nodes| => |nodes[j]| - 10);
    forall j: nat, k: nat | j < k < |ranks| ensures ranks[j] != ranks[k] {
      assert InnerOf(s, nodes[j], i) && InnerOf(s, nodes[k], i);
    }
    Pigeons(ranks, 5);
  }

  lemma NodesSingle(s: seq<nat>, nodes: seq<seq<bool>>)
    requires Lengths(s) && |s| - Count(s, 0) <= 1 && AllInner(s, nodes) && Distinct(nodes)
    ensures |nodes| <= 5
  {
    hide Count, Lengths, Distinct;
    if nodes == [] { return; }
    assert Inner(s, nodes[0]);
    var i: nat :| InnerOf(s, nodes[0], i);
    forall j: nat | j < |nodes| ensures InnerOf(s, nodes[j], i) {
      assert Inner(s, nodes[j]);
      InnerOfOne(s, nodes[j], i);
    }
    Levels(s, nodes, i);
  }

  /** An acceptable code's inner nodes fit the tree array. */
  lemma NodesFew(s: seq<nat>, nodes: seq<seq<bool>>)
    requires Fits(s) && |s| <= 288 && (Complete(s) || |s| - Count(s, 0) <= 1) && AllInner(s, nodes) && Distinct(nodes)
    ensures |nodes| <= 287
  {
    if |s| - Count(s, 0) <= 1 {
      NodesSingle(s, nodes);
    } else {
      NodesComplete(s, nodes);
    }
  }
}
