/** Building the decoder's tables and decoding with them (miniz tinfl_decompress, TINFL_HUFF_DECODE). */
module FastTable {
  import opened Bits
  import opened Canonical
  import opened Deflate
  import opened PrefixNodes
  import opened LookupTable
  import HuffmanTable

  // ----- the check on the code lengths

  /** First codes by length, and whether the lengths are acceptable: at most one code, or a complete set. */
  method CheckLengths(nc: array<int>, ghost s: seq<nat>) returns (ok: bool, nextCode: array<nat>)
    requires nc.Length == 33 && HuffmanTable.Tally(nc[..], s, 32) && Lengths(s)
    ensures fresh(nextCode) && nextCode.Length == 17 && HuffmanTable.NextCodes(nextCode[..], s, MAX_LEN, 0) &&
            (ok <==> Accepts(s))
  {
    hide Lengths, Accepts, FirstCode, HuffmanTable.NextCodes, HuffmanTable.Below, Count, Pow2;
    nextCode := new nat[17](_ => 0);
    var used, total, i := 0, 0, 1;
    HuffmanTable.BelowZero(s);
    FirstCodeStep(s, 1);
    while i <= 15
      invariant 1 <= i <= 16 && total == FirstCode(s, i) && used == HuffmanTable.Below(s, i - 1)
      invariant forall l: nat | 1 <= l <= i :: nextCode[l] == FirstCode(s, l)
      decreases 16 - i
    {
      assert nc[i] == nc[..][i];
      HuffmanTable.BelowNext(s, i);
      FirstCodeStep(s, i);
      used := used + nc[i];
      total := 2 * (total + nc[i]);
      nextCode[i + 1] := total;
      i := i + 1;
    }
    ok := total == 65536 || used <= 1;
    HuffmanTable.NothingCoded(nextCode[..], s, MAX_LEN);
    AcceptsWhen(s);
  }

  lemma FirstCodeStep(s: seq<nat>, l: nat)
    requires l >= 1
    ensures FirstCode(s, 1) == 0 && FirstCode(s, l + 1) == 2 * (FirstCode(s, l) + Count(s, l))
  {
  }

  /** The decoder's test is the one on its computed numbers. */
  lemma AcceptsWhen(s: seq<nat>)
    requires Lengths(s)
    ensures Accepts(s) <==> FirstCode(s, 16) == 65536 || HuffmanTable.Below(s, 15) <= 1
  {
    var top: nat := 16;
    HuffmanTable.BelowIsUsed(s, 15);
    Sixteen(top);
  }

  lemma Sixteen(n: nat)
    requires n == 16
    ensures Pow2(n) == 65536
  {
    assert Pow2(8) == 256;
    assert Pow2(12) == 4096;
  }

  lemma AcceptsMeans(s: seq<nat>)
    requires Accepts(s) && |s| <= 288
    ensures Acceptable(s)
  {
    if |s| - Count(s, 0) <= 1 { HuffmanTable.SingleFits(s); }
  }

  // ----- low bits

  /** Numbers with the same n low bits differ by at least 2 to the n. */
  lemma {:induction false} SameLow(x: nat, y: nat, n: nat)
    requires x < y && BitsOf(x, n) == BitsOf(y, n)
    ensures x + Pow2(n) <= y
  {
    if n > 0 {
      assert BitsOf(x, n)[1..] == BitsOf(x / 2, n - 1) && BitsOf(y, n)[1..] == BitsOf(y / 2, n - 1);
      assert BitsOf(x, n)[0] == BitsOf(y, n)[0];
      SameLow(x / 2, y / 2, n - 1);
    }
  }

  lemma {:induction false} NextLow(x: nat, n: nat)
    ensures BitsOf(x + Pow2(n), n) == BitsOf(x, n)
  {
    if n > 0 {
      assert (x + 2 * Pow2(n - 1)) / 2 == x / 2 + Pow2(n - 1);
      NextLow(x / 2, n - 1);
    }
  }

  /** The low m bits come first. */
  lemma LowFirst(x: nat, m: nat, n: nat)
    requires m <= n
    ensures BitsOf(x, m) <= BitsOf(x, n) && BitsOf(x, n)[..m] == BitsOf(x, m)
  {
    BitsOfSplit(x, m, n);
  }

  lemma LowTen(x: nat)
    ensures BitsOf(x % 1024, 10) == BitsOf(x, 10)
  {
    TenBits(x % 1024, x / 1024);
  }

  lemma {:induction false} TenBits(r: nat, q: nat)
    ensures BitsOf(r + 1024 * q, 10) == BitsOf(r, 10)
  {
    var n: nat := 10;
    ShlEight(q);
    assert Shl(q, 9) == 2 * Shl(q, 8) && Shl(q, 10) == 2 * Shl(q, 9);
    LowSame(r, q, n);
  }

  lemma {:induction false} LowSame(r: nat, q: nat, n: nat)
    ensures BitsOf(r + Shl(q, n), n) == BitsOf(r, n)
  {
    if n > 0 {
      assert (r + 2 * Shl(q, n - 1)) / 2 == r / 2 + Shl(q, n - 1);
      LowSame(r / 2, q, n - 1);
    }
  }

  lemma LastBit(x: nat, n: nat)
    ensures BitsOf(x, n + 1) == BitsOf(x, n) + [Shr(x, n) % 2 == 1]
  {
    BitsOfSplit(x, n, n + 1);
    assert BitsOf(x, n + 1) == BitsOf(x, n + 1)[..n] + BitsOf(x, n + 1)[n..];
    assert BitsOf(Shr(x, n), 1) == [Shr(x, n) % 2 == 1];
  }

  // ----- the table

  class FastTable {
    const codeSize: array<nat>
    const lookUp: array<int>
    const tree: array<int>
    ghost var nodes: seq<Path>

    constructor ()
      ensures Shape() && fresh(codeSize) && fresh(lookUp) && fresh(tree)
    {
      codeSize := new nat[288](_ => 0);
      lookUp := new int[LOOKUP_SIZE](_ => 0);
      tree := new int[TREE_SIZE](_ => 0);
      nodes := [];
    }

    ghost predicate Shape() {
      codeSize.Length == 288 && lookUp.Length == LOOKUP_SIZE && tree.Length == TREE_SIZE && lookUp != tree
    }

    ghost function Arrays(): set<object> {
      var sizes: set<object> := {codeSize};
      var entries: set<object> := {lookUp, tree};
      sizes + entries
    }

    /** The tables of the first k symbols. */
    ghost predicate Holds(s: seq<nat>, k: nat)
      reads this, lookUp, tree
    {
      Shape() && Tables(lookUp[..], tree[..], s, k, nodes)
    }

    /** The tables decode the code with lengths s. */
    ghost predicate Built(s: seq<nat>)
      reads this, lookUp, tree
    {
      Holds(s, |s|)
    }

    /** Fills the entries of a short code: every 2^size-th from its reversed bits on. */
    method FillShort(rev: nat, size: nat, k: nat, ghost s: seq<nat>)
      requires Holds(s, k) && k < |s| && 0 < s[k] == size <= LOOKUP_BITS
      requires rev < Pow2(size) && BitsOf(rev, size) == Codeword(s, k)
      modifies lookUp
      ensures Holds(s, k + 1)
    {
      hide Tables, ShortAt, Codeword, BitsOf, Pow2;
      ghost var was := lookUp[..];
      var x := rev;
      var entry, step: nat := 512 * size + k, Pow2(size);
      forall y: nat | y < rev ensures !Starts(s, k, y) { NotBefore(s, k, rev, y); }
      while x < LOOKUP_SIZE
        invariant BitsOf(x, size) == Codeword(s, k) && step == Pow2(size)
        invariant forall y: nat | y < LOOKUP_SIZE :: lookUp[y] == if y < x && Starts(s, k, y) then entry else was[y]
        invariant forall y: nat | y < x && x - y < step :: !Starts(s, k, y)
        decreases LOOKUP_SIZE - x
      {
        assert Starts(s, k, x) by { StartsWhen(s, k, x); }
        forall y: nat | x < y < x + step ensures !Starts(s, k, y) { NotBetween(s, k, x, y); }
        NextLow(x, size);
        lookUp[x] := entry;
        x := x + step;
      }
      forall y: nat | y < LOOKUP_SIZE ensures lookUp[..][y] == if Starts(s, k, y) then entry else was[y] {
        assert lookUp[..][y] == lookUp[y];
      }
      AddShort(was, lookUp[..], tree[..], s, k, nodes);
    }

    // ----- long codes

    /** The node of a ten-bit path, made when it is not there. */
    method EnterLook(idx: nat, treeNext: int, ghost s: seq<nat>, ghost k: nat) returns (cur: int, next: int)
      requires Holds(s, k) && idx < LOOKUP_SIZE && treeNext == Ptr(|nodes|) && Inner(s, BitsOf(idx, LOOKUP_BITS))
      modifies lookUp, this`nodes
      ensures Holds(s, k) && next == Ptr(|nodes|) && old(nodes) <= nodes && IsNode(cur, BitsOf(idx, LOOKUP_BITS), nodes)
      ensures BitsOf(idx, LOOKUP_BITS) in nodes
    {
      ghost var p := BitsOf(idx, LOOKUP_BITS);
      cur, next := lookUp[idx], treeNext;
      assert LookEntry(lookUp[..][idx], p, s, k, nodes);
      if cur == 0 {
        AddLookNode(lookUp[..], tree[..], s, k, nodes, idx);
        lookUp[idx] := treeNext;
        cur, next := treeNext, treeNext - 2;
        EntryNew(p, s, k, nodes);
        nodes := nodes + [p];
      } else {
        InnerEntry(cur, p, s, k, nodes);
      }
    }

    /** The node one bit further down, made when it is not there. */
    method EnterTree(cur: int, bit: nat, treeNext: int, ghost p: Path, ghost s: seq<nat>, ghost k: nat)
        returns (cur': int, next: int)
      requires Holds(s, k) && IsNode(cur, p, nodes) && bit < 2 && treeNext == Ptr(|nodes|) && Inner(s, p + [bit == 1])
      modifies tree, this`nodes
      ensures Holds(s, k) && next == Ptr(|nodes|) && old(nodes) <= nodes && IsNode(cur', p + [bit == 1], nodes)
      ensures p + [bit == 1] in nodes
    {
      var slot := -(cur - bit) - 1;
      SlotOf(cur, bit, p, nodes);
      ghost var q := p + [bit == 1];
      cur', next := tree[slot], treeNext;
      assert TreeEntry(tree[..][slot], q, s, k, nodes);
      if cur' == 0 {
        AddTreeNode(lookUp[..], tree[..], s, k, nodes, slot);
        tree[slot] := treeNext;
        cur', next := treeNext, treeNext - 2;
        EntryNew(q, s, k, nodes);
        nodes := nodes + [q];
      } else {
        InnerTreeEntry(cur', q, s, k, nodes);
      }
    }

    /** Hangs a long code into the tree, bit by bit. */
    method InsertLong(rev: nat, size: nat, k: nat, treeNext: int, ghost s: seq<nat>) returns (next: int)
      requires Holds(s, k) && k < |s| && LOOKUP_BITS < s[k] == size <= MAX_LEN && treeNext == Ptr(|nodes|)
      requires BitsOf(rev, size) == Codeword(s, k)
      modifies lookUp, tree, this`nodes
      ensures Holds(s, k + 1) && next == Ptr(|nodes|)
    {
      hide FastTable.Holds, Inner, IsNode, Codeword, BitsOf, Pow2;
      var cur;
      ghost var m := LOOKUP_BITS;
      PathOf(s, k, rev, m);
      LowTen(rev);
      cur, next := EnterLook(rev % LOOKUP_SIZE, treeNext, s, k);
      var r, j := Shr(rev, LOOKUP_BITS - 1), size;
      while j > LOOKUP_BITS + 1
        invariant LOOKUP_BITS + 1 <= j <= size && m == LOOKUP_BITS + (size - j) && r == Shr(rev, m - 1)
        invariant Holds(s, k) && next == Ptr(|nodes|) && IsNode(cur, BitsOf(rev, m), nodes)
        invariant forall l: nat | LOOKUP_BITS <= l <= m :: BitsOf(rev, l) in nodes
      {
        ShrSnoc(rev, m - 1);
        r := r / 2;
        LastBit(rev, m);
        PathOf(s, k, rev, m + 1);
        cur, next := EnterTree(cur, r % 2, next, BitsOf(rev, m), s, k);
        j, m := j - 1, m + 1;
      }
      ShrSnoc(rev, m - 1);
      r := r / 2;
      LastBit(rev, m);
      PutLeaf(cur, r % 2, k, rev, s);
    }

    /** The leaf of symbol k. */
    method PutLeaf(cur: int, bit: nat, k: nat, ghost rev: nat, ghost s: seq<nat>)
      requires Holds(s, k) && k < |s| && s[k] > LOOKUP_BITS && bit < 2
      requires BitsOf(rev, s[k]) == Codeword(s, k) == BitsOf(rev, s[k] - 1) + [bit == 1]
      requires IsNode(cur, BitsOf(rev, s[k] - 1), nodes)
      requires forall l: nat | LOOKUP_BITS <= l < s[k] :: BitsOf(rev, l) in nodes
      modifies tree
      ensures Holds(s, k + 1)
    {
      var slot := -(cur - bit) - 1;
      SlotOf(cur, bit, BitsOf(rev, s[k] - 1), nodes);
      PrefixesIn(s, k, rev, nodes);
      AddLeaf(lookUp[..], tree[..], s, k, nodes, slot);
      tree[slot] := k;
    }

    // ----- the whole table

    method Insert(k: nat, code: nat, treeNext: int, ghost s: seq<nat>) returns (next: int)
      requires Holds(s, k) && k < |s| && |s| <= 288 && codeSize[k] == s[k] > 0 && code == CodeNum(s, k) &&
               treeNext == Ptr(|nodes|)
      modifies lookUp, tree, this`nodes
      ensures Holds(s, k + 1) && next == Ptr(|nodes|)
    {
      var size := codeSize[k];
      var rev := HuffmanTable.ReverseCode(code, size);
      if size <= LOOKUP_BITS {
        FillShort(rev, size, k, s);
        next := treeNext;
      } else {
        next := InsertLong(rev, size, k, treeNext, s);
      }
    }

    method Clear()
      requires Shape()
      modifies lookUp, tree, this`nodes
      ensures (forall x | 0 <= x < LOOKUP_SIZE :: lookUp[x] == 0) && (forall c | 0 <= c < TREE_SIZE :: tree[c] == 0) &&
              nodes == []
    {
      forall x | 0 <= x < LOOKUP_SIZE { lookUp[x] := 0; }
      forall c | 0 <= c < TREE_SIZE { tree[c] := 0; }
      nodes := [];
    }

    /** Builds the tables from the first n code sizes, if those are acceptable. */
    method Build(n: nat) returns (ok: bool)
      requires Shape() && n <= 288 && forall i | 0 <= i < n :: codeSize[i] <= MAX_LEN
      modifies lookUp, tree, this`nodes
      ensures (ok <==> Accepts(codeSize[..n])) && (ok ==> Built(codeSize[..n]))
    {
      hide Tables, Accepts, HuffmanTable.NextCodes, CodeNum, Pow2;
      ghost var s: seq<nat> := codeSize[..n];
      Clear();
      var nc := HuffmanTable.CountLengths(codeSize, n);
      var nextCode;
      ok, nextCode := CheckLengths(nc, s);
      if !ok { return; }
      AcceptsMeans(s);
      StartTables(lookUp[..], tree[..], s);
      var treeNext, k := -1, 0;
      while k < n
        invariant k <= n && Holds(s, k) && treeNext == Ptr(|nodes|) &&
                  HuffmanTable.NextCodes(nextCode[..], s, MAX_LEN, k)
      {
        var size := codeSize[k];
        assert size == s[k];
        HuffmanTable.NextCodesStep(nextCode[..], s, MAX_LEN, k);
        if size == 0 {
          SkipSymbol(lookUp[..], tree[..], s, k, nodes);
        } else {
          var code := nextCode[size];
          nextCode[size] := code + 1;
          treeNext := Insert(k, code, treeNext, s);
        }
        k := k + 1;
      }
    }
  }

  ghost predicate Starts(s: seq<nat>, k: nat, y: nat) {
    ShortAt(s, k + 1, k, BitsOf(y, LOOKUP_BITS))
  }

  lemma StartsWhen(s: seq<nat>, k: nat, y: nat)
    requires k < |s| && 0 < s[k] <= LOOKUP_BITS
    ensures Starts(s, k, y) <==> BitsOf(y, s[k]) == Codeword(s, k)
  {
    LowFirst(y, s[k], LOOKUP_BITS);
  }

  lemma NotBefore(s: seq<nat>, k: nat, rev: nat, y: nat)
    requires k < |s| && 0 < s[k] <= LOOKUP_BITS && y < rev < Pow2(s[k]) && BitsOf(rev, s[k]) == Codeword(s, k)
    ensures !Starts(s, k, y)
  {
    StartsWhen(s, k, y);
    if Starts(s, k, y) { SameLow(y, rev, s[k]); }
  }

  lemma NotBetween(s: seq<nat>, k: nat, x: nat, y: nat)
    requires k < |s| && 0 < s[k] <= LOOKUP_BITS && x < y < x + Pow2(s[k]) && BitsOf(x, s[k]) == Codeword(s, k)
    ensures !Starts(s, k, y)
  {
    StartsWhen(s, k, y);
    if Starts(s, k, y) { SameLow(x, y, s[k]); }
  }

  /** The entry of an inner path is its node. */
  lemma InnerEntry(v: int, p: Path, s: seq<nat>, k: nat, nodes: seq<Path>)
    requires Fits(s) && LookEntry(v, p, s, k, nodes) && Inner(s, p) && v != 0
    ensures IsNode(v, p, nodes)
  {
    if v > 0 { ShortNotInner(s, k, v % 512, p); }
  }

  lemma InnerTreeEntry(v: int, p: Path, s: seq<nat>, k: nat, nodes: seq<Path>)
    requires Fits(s) && TreeEntry(v, p, s, k, nodes) && Inner(s, p) && v != 0
    ensures IsNode(v, p, nodes)
  {
    if v > 0 { CodeNotInner(s, v); }
  }

  /** The tree slot below a node. */
  lemma SlotOf(cur: int, bit: nat, p: Path, nodes: seq<Path>)
    requires IsNode(cur, p, nodes) && bit < 2
    ensures var c := -(cur - bit) - 1; 0 <= c < 2 * |nodes| && SlotPath(nodes, c) == p + [bit == 1]
  {
  }

  lemma PrefixesIn(s: seq<nat>, k: nat, rev: nat, nodes: seq<Path>)
    requires k < |s| && s[k] > LOOKUP_BITS && BitsOf(rev, s[k]) == Codeword(s, k)
    requires forall l: nat | LOOKUP_BITS <= l < s[k] :: BitsOf(rev, l) in nodes
    ensures forall m: nat | LOOKUP_BITS <= m < s[k] :: Codeword(s, k)[..m] in nodes
  {
    forall m: nat | LOOKUP_BITS <= m < s[k] ensures Codeword(s, k)[..m] in nodes {
      LowFirst(rev, m, s[k]);
      assert BitsOf(rev, m) in nodes;
    }
  }

  /** The first m bits of a long code, read from its reversed bits. */
  lemma PathOf(s: seq<nat>, k: nat, rev: nat, m: nat)
    requires k < |s| && LOOKUP_BITS <= m < s[k] && BitsOf(rev, s[k]) == Codeword(s, k)
    ensures Inner(s, BitsOf(rev, m))
  {
    LowFirst(rev, m, s[k]);
    assert InnerOf(s, BitsOf(rev, m), k);
  }
}
