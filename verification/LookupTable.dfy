/** The decoder's ten-bit table and the tree behind it, as values (miniz tinfl_huff_table). */
module LookupTable {
  import opened Bits
  import opened Canonical
  import opened PrefixNodes

  const LOOKUP_BITS: nat := 10
  const LOOKUP_SIZE: nat := 1024
  const TREE_SIZE: nat := 576

  type Path = seq<bool>

  /** The table value that names inner node j: tree slots 2j and 2j + 1 are its children. */
  function Ptr(j: nat): int { -1 - 2 * j }

  function NodeOf(v: int): nat
    requires v < 0
  {
    (-1 - v) / 2
  }

  /** v names the node for path p. */
  predicate IsNode(v: int, p: Path, nodes: seq<Path>) {
    v < 0 && v == Ptr(NodeOf(v)) && NodeOf(v) < |nodes| && nodes[NodeOf(v)] == p
  }

  function ShortEntry(s: seq<nat>, i: nat): int
    requires i < |s|
  {
    512 * s[i] + i
  }

  /** Symbol i, among the first k, has a code of at most ten bits that starts p. */
  predicate ShortAt(s: seq<nat>, k: nat, i: nat, p: Path) {
    i < k <= |s| && 0 < s[i] <= LOOKUP_BITS && Codeword(s, i) <= p
  }

  /** Symbol i, among the first k, has the longer code p. */
  predicate LongAt(s: seq<nat>, k: nat, i: nat, p: Path) {
    i < k <= |s| && s[i] > LOOKUP_BITS && Codeword(s, i) == p
  }

  /** The value in the table for the ten bits p. */
  ghost predicate LookEntry(v: int, p: Path, s: seq<nat>, k: nat, nodes: seq<Path>) {
    (v < 0 ==> IsNode(v, p, nodes)) && (p in nodes ==> v < 0) &&
    (v > 0 ==> ShortAt(s, k, v % 512, p)) &&
    (forall i: nat | ShortAt(s, k, i, p) :: v == ShortEntry(s, i))
  }

  /** The value in the tree slot for the longer path p. */
  ghost predicate TreeEntry(v: int, p: Path, s: seq<nat>, k: nat, nodes: seq<Path>) {
    (v < 0 ==> IsNode(v, p, nodes)) && (p in nodes ==> v < 0) &&
    (v > 0 ==> LongAt(s, k, v, p)) &&
    (forall i: nat | LongAt(s, k, i, p) :: v == i)
  }

  /** The path of tree slot c. */
  function SlotPath(nodes: seq<Path>, c: nat): Path
    requires c / 2 < |nodes|
  {
    nodes[c / 2] + [c % 2 == 1]
  }

  ghost predicate LookOk(look: seq<int>, s: seq<nat>, k: nat, nodes: seq<Path>) {
    |look| == LOOKUP_SIZE && forall x: nat | x < LOOKUP_SIZE :: LookEntry(look[x], BitsOf(x, LOOKUP_BITS), s, k, nodes)
  }

  ghost predicate TreeOk(tree: seq<int>, s: seq<nat>, k: nat, nodes: seq<Path>) {
    |tree| == TREE_SIZE && 2 * |nodes| <= TREE_SIZE &&
    (forall c: nat | c < 2 * |nodes| :: TreeEntry(tree[c], SlotPath(nodes, c), s, k, nodes)) &&
    (forall c: nat | 2 * |nodes| <= c < TREE_SIZE :: tree[c] == 0)
  }

  /** Nodes are distinct inner nodes of the code tree; with a node come those above it. */
  ghost predicate NodesOk(s: seq<nat>, nodes: seq<Path>) {
    AllInner(s, nodes) && Distinct(nodes) && forall j: nat | j < |nodes| :: HasParent(nodes, j)
  }

  ghost predicate HasParent(nodes: seq<Path>, j: nat)
    requires j < |nodes|
  {
    |nodes[j]| > LOOKUP_BITS ==> nodes[j][..|nodes[j]| - 1] in nodes
  }

  /** All inner nodes on the way to the long codes among the first k are there. */
  ghost predicate Reached(s: seq<nat>, k: nat, nodes: seq<Path>) {
    k <= |s| && forall i: nat, m: nat | i < k && LOOKUP_BITS <= m < s[i] :: Codeword(s, i)[..m] in nodes
  }

  /** The tables after the first k symbols. */
  ghost predicate Tables(look: seq<int>, tree: seq<int>, s: seq<nat>, k: nat, nodes: seq<Path>) {
    Acceptable(s) && k <= |s| && LookOk(look, s, k, nodes) && TreeOk(tree, s, k, nodes) && NodesOk(s, nodes) &&
    Reached(s, k, nodes)
  }

  /** What the decoder accepts. */
  ghost predicate Acceptable(s: seq<nat>) {
    Fits(s) && |s| <= 288 && (Complete(s) || |s| - Count(s, 0) <= 1)
  }

  // ----- nothing yet

  lemma StartTables(look: seq<int>, tree: seq<int>, s: seq<nat>)
    requires Acceptable(s) && |look| == LOOKUP_SIZE && |tree| == TREE_SIZE
    requires (forall x | 0 <= x < LOOKUP_SIZE :: look[x] == 0) && forall c | 0 <= c < TREE_SIZE :: tree[c] == 0
    ensures Tables(look, tree, s, 0, [])
  {
  }

  // ----- a new inner node

  lemma BitsOfInjective(x: nat, y: nat)
    requires x < LOOKUP_SIZE && y < LOOKUP_SIZE && BitsOf(x, LOOKUP_BITS) == BitsOf(y, LOOKUP_BITS)
    ensures x == y
  {
    assert Pow2(10) == 1024;
    ValueOfBitsOf(x, LOOKUP_BITS);
    ValueOfBitsOf(y, LOOKUP_BITS);
  }

  lemma SlotsDistinct(nodes: seq<Path>, c: nat, d: nat)
    requires Distinct(nodes) && c / 2 < |nodes| && d / 2 < |nodes| && SlotPath(nodes, c) == SlotPath(nodes, d)
    ensures c == d
  {
    var p, q := SlotPath(nodes, c), SlotPath(nodes, d);
    assert p[..|p| - 1] == nodes[c / 2] && q[..|q| - 1] == nodes[d / 2];
    assert p[|p| - 1] == q[|q| - 1];
  }

  lemma EntryGrows(v: int, p: Path, s: seq<nat>, k: nat, nodes: seq<Path>, q: Path)
    requires p != q
    ensures LookEntry(v, p, s, k, nodes) ==> LookEntry(v, p, s, k, nodes + [q])
    ensures TreeEntry(v, p, s, k, nodes) ==> TreeEntry(v, p, s, k, nodes + [q])
  {
  }

  /** The new node's own entry. */
  lemma EntryNew(p: Path, s: seq<nat>, k: nat, nodes: seq<Path>)
    ensures IsNode(Ptr(|nodes|), p, nodes + [p])
  {
  }

  lemma NodesGrow(s: seq<nat>, nodes: seq<Path>, p: Path)
    requires NodesOk(s, nodes) && Inner(s, p) && p !in nodes && (|p| == LOOKUP_BITS || p[..|p| - 1] in nodes)
    ensures NodesOk(s, nodes + [p])
  {
    var nodes' := nodes + [p];
    forall j: nat | j < |nodes'| ensures Inner(s, nodes'[j]) && HasParent(nodes', j) {
      if j < |nodes| { assert Inner(s, nodes[j]) && HasParent(nodes, j); }
    }
  }

  lemma LongPrefix(s: seq<nat>, k: nat, nodes: seq<Path>, i: nat, p: Path, b: bool)
    requires Reached(s, k, nodes) && |p| >= LOOKUP_BITS && LongAt(s, k, i, p + [b])
    ensures p in nodes
  {
    assert (p + [b])[..|p|] == p;
    assert Codeword(s, i)[..|p|] in nodes;
  }

  lemma ParentPath(nodes: seq<Path>, j: nat, p: Path, b: bool)
    requires j < |nodes| && HasParent(nodes, j) && nodes[j] == p + [b] && |p| >= LOOKUP_BITS
    ensures p in nodes
  {
    assert (p + [b])[..|p|] == p;
  }

  /** Nothing hangs below a path that is not a node. */
  lemma NothingBelow(s: seq<nat>, k: nat, nodes: seq<Path>, p: Path, b: bool)
    requires NodesOk(s, nodes) && Reached(s, k, nodes) && p !in nodes && |p| >= LOOKUP_BITS
    ensures p + [b] !in nodes && forall i: nat :: !LongAt(s, k, i, p + [b])
  {
    forall j: nat | j < |nodes| ensures nodes[j] != p + [b] {
      assert HasParent(nodes, j);
      if nodes[j] == p + [b] { ParentPath(nodes, j, p, b); }
    }
    forall i: nat ensures !LongAt(s, k, i, p + [b]) {
      if LongAt(s, k, i, p + [b]) { LongPrefix(s, k, nodes, i, p, b); }
    }
  }

  lemma NodeLength(s: seq<nat>, nodes: seq<Path>, j: nat)
    requires AllInner(s, nodes) && j < |nodes|
    ensures |nodes[j]| >= LOOKUP_BITS
  {
    assert Inner(s, nodes[j]);
  }

  /** The empty slots of a new node. */
  lemma EmptySlots(s: seq<nat>, k: nat, nodes: seq<Path>, p: Path, b: bool)
    requires NodesOk(s, nodes) && Reached(s, k, nodes) && p !in nodes && |p| >= LOOKUP_BITS
    ensures TreeEntry(0, p + [b], s, k, nodes + [p])
  {
    NothingBelow(s, k, nodes, p, b);
    assert p + [b] != p;
  }

  /** The tree's other slots when node p is added. */
  lemma TreeGrows(tree: seq<int>, s: seq<nat>, k: nat, nodes: seq<Path>, p: Path, c: nat)
    requires TreeOk(tree, s, k, nodes) && NodesOk(s, nodes) && Reached(s, k, nodes) && p !in nodes && |p| >= LOOKUP_BITS
    requires c < 2 * |nodes| + 2 <= TREE_SIZE && (c < 2 * |nodes| ==> SlotPath(nodes, c) != p)
    ensures TreeEntry(tree[c], SlotPath(nodes + [p], c), s, k, nodes + [p])
  {
    if c < 2 * |nodes| {
      assert SlotPath(nodes + [p], c) == SlotPath(nodes, c);
      EntryGrows(tree[c], SlotPath(nodes, c), s, k, nodes, p);
    } else {
      EmptySlots(s, k, nodes, p, c % 2 == 1);
    }
  }

  lemma Room2(s: seq<nat>, nodes: seq<Path>)
    requires Acceptable(s) && NodesOk(s, nodes)
    ensures 2 * |nodes| <= TREE_SIZE
  {
    NodesFew(s, nodes);
  }

  lemma ReachedGrows(s: seq<nat>, k: nat, nodes: seq<Path>, p: Path)
    requires Reached(s, k, nodes)
    ensures Reached(s, k, nodes + [p])
  {
    forall i: nat, m: nat | i < k && LOOKUP_BITS <= m < s[i] ensures Codeword(s, i)[..m] in nodes + [p] {
      assert Codeword(s, i)[..m] in nodes;
    }
  }

  /** A node hung into the lookup table. */
  lemma AddLookNode(look: seq<int>, tree: seq<int>, s: seq<nat>, k: nat, nodes: seq<Path>, x: nat)
    requires Tables(look, tree, s, k, nodes) && x < LOOKUP_SIZE && look[x] == 0 && Inner(s, BitsOf(x, LOOKUP_BITS))
    ensures Tables(look[x := Ptr(|nodes|)], tree, s, k, nodes + [BitsOf(x, LOOKUP_BITS)])
  {
    var p, look' := BitsOf(x, LOOKUP_BITS), look[x := Ptr(|nodes|)];
    var nodes' := nodes + [p];
    assert LookEntry(look[x], p, s, k, nodes);
    NodesGrow(s, nodes, p);
    Room2(s, nodes');
    ReachedGrows(s, k, nodes, p);
    forall y: nat | y < LOOKUP_SIZE ensures LookEntry(look'[y], BitsOf(y, LOOKUP_BITS), s, k, nodes') {
      assert LookEntry(look[y], BitsOf(y, LOOKUP_BITS), s, k, nodes);
      if y != x {
        if BitsOf(y, LOOKUP_BITS) == p { BitsOfInjective(x, y); }
        EntryGrows(look[y], BitsOf(y, LOOKUP_BITS), s, k, nodes, p);
      }
    }
    forall c: nat | c < 2 * |nodes'| ensures TreeEntry(tree[c], SlotPath(nodes', c), s, k, nodes') {
      if c < 2 * |nodes| { NodeLength(s, nodes, c / 2); }
      TreeGrows(tree, s, k, nodes, p, c);
    }
  }

  /** A node hung into the tree. */
  lemma AddTreeNode(look: seq<int>, tree: seq<int>, s: seq<nat>, k: nat, nodes: seq<Path>, c: nat)
    requires Tables(look, tree, s, k, nodes) && c < 2 * |nodes| && tree[c] == 0 && Inner(s, SlotPath(nodes, c))
    ensures Tables(look, tree[c := Ptr(|nodes|)], s, k, nodes + [SlotPath(nodes, c)])
  {
    var p, tree' := SlotPath(nodes, c), tree[c := Ptr(|nodes|)];
    var nodes' := nodes + [p];
    assert TreeEntry(tree[c], p, s, k, nodes);
    NodeLength(s, nodes, c / 2);
    assert p[..|p| - 1] == nodes[c / 2];
    NodesGrow(s, nodes, p);
    Room2(s, nodes');
    ReachedGrows(s, k, nodes, p);
    forall y: nat | y < LOOKUP_SIZE ensures LookEntry(look[y], BitsOf(y, LOOKUP_BITS), s, k, nodes') {
      assert LookEntry(look[y], BitsOf(y, LOOKUP_BITS), s, k, nodes);
      EntryGrows(look[y], BitsOf(y, LOOKUP_BITS), s, k, nodes, p);
    }
    NoLongCode(s, k, nodes, tree, c);
    forall d: nat | d < 2 * |nodes'| ensures TreeEntry(tree'[d], SlotPath(nodes', d), s, k, nodes') {
      if d == c {
        assert SlotPath(nodes', c) == p;
      } else {
        if d < 2 * |nodes| && SlotPath(nodes, d) == p { SlotsDistinct(nodes, c, d); }
        TreeGrows(tree, s, k, nodes, p, d);
      }
    }
  }

  /** An inner node is not a code. */
  lemma NoLongCode(s: seq<nat>, k: nat, nodes: seq<Path>, tree: seq<int>, c: nat)
    requires Acceptable(s) && c / 2 < |nodes| && Inner(s, SlotPath(nodes, c))
    ensures forall i: nat :: !LongAt(s, k, i, SlotPath(nodes, c))
  {
    forall i: nat ensures !LongAt(s, k, i, SlotPath(nodes, c)) {
      if LongAt(s, k, i, SlotPath(nodes, c)) { CodeNotInner(s, i); }
    }
  }

  lemma CodeNotInner(s: seq<nat>, i: nat)
    requires Fits(s) && i < |s| && s[i] > 0
    ensures !Inner(s, Codeword(s, i))
  {
    var p := Codeword(s, i);
    forall j: nat ensures !InnerOf(s, p, j) {
      if InnerOf(s, p, j) { PrefixFree(s, i, j); }
    }
  }

  // ----- a symbol's entry

  lemma SkipSymbol(look: seq<int>, tree: seq<int>, s: seq<nat>, k: nat, nodes: seq<Path>)
    requires Tables(look, tree, s, k, nodes) && k < |s| && s[k] == 0
    ensures Tables(look, tree, s, k + 1, nodes)
  {
    forall y: nat | y < LOOKUP_SIZE ensures LookEntry(look[y], BitsOf(y, LOOKUP_BITS), s, k + 1, nodes) {
      LookNext(look[y], BitsOf(y, LOOKUP_BITS), s, k, nodes);
    }
    forall c: nat | c < 2 * |nodes| ensures TreeEntry(tree[c], SlotPath(nodes, c), s, k + 1, nodes) {
      TreeNext(tree[c], SlotPath(nodes, c), s, k, nodes);
    }
  }

  lemma LookNext(v: int, p: Path, s: seq<nat>, k: nat, nodes: seq<Path>)
    requires k < |s| && LookEntry(v, p, s, k, nodes) && !ShortAt(s, k + 1, k, p)
    ensures LookEntry(v, p, s, k + 1, nodes)
  {
    forall i: nat | ShortAt(s, k + 1, i, p) ensures v == ShortEntry(s, i) { assert ShortAt(s, k, i, p); }
    if v > 0 { assert ShortAt(s, k, v % 512, p); }
  }

  lemma TreeNext(v: int, p: Path, s: seq<nat>, k: nat, nodes: seq<Path>)
    requires k < |s| && TreeEntry(v, p, s, k, nodes) && !LongAt(s, k + 1, k, p)
    ensures TreeEntry(v, p, s, k + 1, nodes)
  {
    var n := k + 1;
    forall i: nat | LongAt(s, n, i, p) ensures v == i { assert LongAt(s, k, i, p); }
    if v > 0 { assert LongAt(s, k, v, p); }
  }

  lemma SameStart(a: Path, b: Path, p: Path)
    requires a <= p && b <= p && |a| <= |b|
    ensures a <= b
  {
  }

  /** Only one code starts a path. */
  lemma OneShort(s: seq<nat>, k: nat, i: nat, p: Path)
    requires Fits(s) && ShortAt(s, k + 1, k, p) && ShortAt(s, k + 1, i, p)
    ensures i == k
  {
    var a, b := Codeword(s, k), Codeword(s, i);
    if |a| <= |b| {
      SameStart(a, b, p);
      PrefixFree(s, k, i);
    } else {
      SameStart(b, a, p);
      PrefixFree(s, i, k);
    }
  }

  lemma ShortNotInner(s: seq<nat>, k: nat, i: nat, p: Path)
    requires Fits(s) && ShortAt(s, k, i, p)
    ensures !Inner(s, p)
  {
    forall j: nat ensures !InnerOf(s, p, j) {
      if InnerOf(s, p, j) { PrefixFree(s, i, j); }
    }
  }

  /** A short code fills every ten-bit path it starts. */
  lemma AddShort(look: seq<int>, look': seq<int>, tree: seq<int>, s: seq<nat>, k: nat, nodes: seq<Path>)
    requires Tables(look, tree, s, k, nodes) && k < |s| && 0 < s[k] <= LOOKUP_BITS && |look'| == LOOKUP_SIZE
    requires forall x: nat | x < LOOKUP_SIZE ::
               look'[x] == if ShortAt(s, k + 1, k, BitsOf(x, LOOKUP_BITS)) then ShortEntry(s, k) else look[x]
    ensures Tables(look', tree, s, k + 1, nodes)
  {
    forall x: nat | x < LOOKUP_SIZE ensures LookEntry(look'[x], BitsOf(x, LOOKUP_BITS), s, k + 1, nodes) {
      var p := BitsOf(x, LOOKUP_BITS);
      assert LookEntry(look[x], p, s, k, nodes);
      if ShortAt(s, k + 1, k, p) {
        ShortNew(s, k, nodes, p);
      } else {
        LookNext(look[x], p, s, k, nodes);
      }
    }
    forall c: nat | c < 2 * |nodes| ensures TreeEntry(tree[c], SlotPath(nodes, c), s, k + 1, nodes) {
      TreeNext(tree[c], SlotPath(nodes, c), s, k, nodes);
    }
  }

  lemma ShortNew(s: seq<nat>, k: nat, nodes: seq<Path>, p: Path)
    requires Acceptable(s) && AllInner(s, nodes) && ShortAt(s, k + 1, k, p)
    ensures LookEntry(ShortEntry(s, k), p, s, k + 1, nodes)
  {
    ShortNotInner(s, k + 1, k, p);
    var n := k + 1;
    forall i: nat | ShortAt(s, n, i, p) ensures i == k { OneShort(s, k, i, p); }
    forall j: nat | j < |nodes| ensures nodes[j] != p { assert Inner(s, nodes[j]); }
    assert ShortEntry(s, k) % 512 == k;
  }

  /** A long code's leaf. */
  lemma AddLeaf(look: seq<int>, tree: seq<int>, s: seq<nat>, k: nat, nodes: seq<Path>, c: nat)
    requires Tables(look, tree, s, k, nodes) && k < |s| && s[k] > LOOKUP_BITS
    requires c < 2 * |nodes| && SlotPath(nodes, c) == Codeword(s, k)
    requires forall m: nat | LOOKUP_BITS <= m < s[k] :: Codeword(s, k)[..m] in nodes
    ensures Tables(look, tree[c := k], s, k + 1, nodes)
  {
    forall x: nat | x < LOOKUP_SIZE ensures LookEntry(look[x], BitsOf(x, LOOKUP_BITS), s, k + 1, nodes) {
      LookNext(look[x], BitsOf(x, LOOKUP_BITS), s, k, nodes);
    }
    forall d: nat | d < 2 * |nodes| ensures TreeEntry(tree[c := k][d], SlotPath(nodes, d), s, k + 1, nodes) {
      if d == c {
        LeafNew(s, k, nodes);
      } else {
        if SlotPath(nodes, d) == SlotPath(nodes, c) { SlotsDistinct(nodes, c, d); }
        TreeNext(tree[d], SlotPath(nodes, d), s, k, nodes);
      }
    }
  }

  lemma LeafNew(s: seq<nat>, k: nat, nodes: seq<Path>)
    requires Acceptable(s) && AllInner(s, nodes) && k < |s| && s[k] > LOOKUP_BITS
    ensures TreeEntry(k, Codeword(s, k), s, k + 1, nodes)
  {
    CodeNotInner(s, k);
    forall j: nat | j < |nodes| ensures nodes[j] != Codeword(s, k) { assert Inner(s, nodes[j]); }
    var n := k + 1;
    forall i: nat | LongAt(s, n, i, Codeword(s, k)) ensures i == k { PrefixFree(s, i, k); }
  }
}
