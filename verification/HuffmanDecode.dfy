/** Decoding a symbol from the bit buffer, and fetching no byte that is not needed (miniz TINFL_HUFF_DECODE). */
module HuffmanDecode {
  import opened Bits
  import opened Canonical
  import opened PrefixNodes
  import opened LookupTable
  import opened FastTable
  import HuffmanTable

  // ----- a complete code decodes every long enough bit string

  lemma LastMatches(s: seq<nat>, l: nat, code: nat)
    requires Complete(s) && l == MAX_LEN && code < Pow2(l) && FirstCode(s, l) <= code
    ensures Matches(s, l, code)
  {
    var top := l + 1;
    assert FirstCode(s, top) == 2 * (FirstCode(s, l) + Count(s, l)) && Pow2(top) == 2 * Pow2(l);
  }

  lemma NextMatches(s: seq<nat>, l: nat, code: nat, b: bool)
    requires !Matches(s, l, code) && code < Pow2(l) && (l >= 1 ==> FirstCode(s, l) <= code)
    ensures var code' := 2 * code + (if b then 1 else 0); code' < Pow2(l + 1) && FirstCode(s, l + 1) <= code'
  {
  }

  lemma {:induction false} DecodeFromAlways(s: seq<nat>, bits: seq<bool>, l: nat, code: nat)
    requires Complete(s) && l <= MAX_LEN <= |bits| && code < Pow2(l)
    requires l >= 1 ==> FirstCode(s, l) <= code
    ensures DecodeFrom(s, bits, l, code).Some?
    decreases MAX_LEN - l
  {
    hide FirstCode, Count, Nth, Matches, Complete, Pow2, DecodeFrom;
    if Matches(s, l, code) {
      DecodeHere(s, bits, l, code);
    } else if l == MAX_LEN {
      LastMatches(s, l, code);
    } else {
      var code' := 2 * code + (if bits[l] then 1 else 0);
      NextMatches(s, l, code, bits[l]);
      DecodeFromAlways(s, bits, l + 1, code');
      DecodeOn(s, bits, l, code, code');
    }
  }

  lemma DecodeAlways(s: seq<nat>, bits: seq<bool>)
    requires Complete(s) && |bits| >= MAX_LEN
    ensures DecodeSym(s, bits).Some?
  {
    var z: nat := 0;
    DecodeFromAlways(s, bits, z, z);
  }

  lemma SameSymbol(s: seq<nat>, i: nat, j: nat, bits: seq<bool>)
    requires Fits(s) && i < |s| && j < |s| && s[i] > 0 && s[j] > 0 && Codeword(s, i) <= bits && Codeword(s, j) <= bits
    ensures i == j
  {
    if s[i] <= s[j] { PrefixFree(s, i, j); } else { PrefixFree(s, j, i); }
  }

  /** Symbol i's code is what the low bits of the buffer spell. */
  ghost predicate Spells(s: seq<nat>, bitBuf: nat, i: nat) {
    i < |s| && s[i] > 0 && BitsOf(bitBuf, s[i]) == Codeword(s, i)
  }

  /** A symbol whose code the buffer spells is the one the held bits decode to, if they are enough. */
  lemma SpellsDecodes(s: seq<nat>, bitBuf: nat, n: nat, i: nat)
    requires Fits(s) && Spells(s, bitBuf, i)
    ensures s[i] <= n ==> DecodeSym(s, BitsOf(bitBuf, n)) == Some((i, s[i]))
    ensures s[i] > n ==> DecodeSym(s, BitsOf(bitBuf, n)) == None
  {
    var held := BitsOf(bitBuf, n);
    if s[i] <= n {
      LowFirst(bitBuf, s[i], n);
      DecodeSymIff(s, held, i);
    } else {
      LowFirst(bitBuf, n, s[i]);
      if DecodeSym(s, held).Some? {
        var j := DecodeSym(s, held).value.0;
        DecodeSymIff(s, held, j);
        SameSymbol(s, i, j, BitsOf(bitBuf, s[i]));
      }
    }
  }

  lemma DecodesSpells(s: seq<nat>, bitBuf: nat, n: nat) returns (i: nat)
    requires Fits(s) && DecodeSym(s, BitsOf(bitBuf, n)).Some?
    ensures Spells(s, bitBuf, i) && s[i] <= n && DecodeSym(s, BitsOf(bitBuf, n)) == Some((i, s[i]))
  {
    i := DecodeSym(s, BitsOf(bitBuf, n)).value.0;
    DecodeSymIff(s, BitsOf(bitBuf, n), i);
    LowFirst(bitBuf, s[i], n);
  }

  /** Whatever follows the held bits, a complete code spells some symbol. */
  lemma SomeSpelled(s: seq<nat>, bitBuf: nat) returns (i: nat)
    requires Complete(s)
    ensures Spells(s, bitBuf, i)
  {
    DecodeAlways(s, BitsOf(bitBuf, MAX_LEN));
    i := DecodesSpells(s, bitBuf, MAX_LEN);
  }

  // ----- a code with a single symbol

  lemma {:induction false} NoneOfLength(s: seq<nat>, j: nat, l: nat)
    requires j < |s| && l > 0 && l != s[j] && forall i | 0 <= i < |s| && i != j :: s[i] == 0
    ensures Count(s, l) == 0
  {
    var n := |s| - 1;
    if j < n { NoneOfLength(s[..n], j, l); } else { HuffmanTable.CountZeros(s[..n], l); }
  }

  lemma {:induction false} FirstIsZero(s: seq<nat>, j: nat, l: nat)
    requires j < |s| && 1 <= l <= s[j] && forall i | 0 <= i < |s| && i != j :: s[i] == 0
    ensures FirstCode(s, l) == 0
  {
    if l > 1 {
      FirstIsZero(s, j, l - 1);
      NoneOfLength(s, j, l - 1);
    }
  }

  /** The only code there is has zero bits. */
  lemma SingleCode(s: seq<nat>, j: nat)
    requires j < |s| && s[j] > 0 && |s| - Count(s, 0) <= 1
    ensures Codeword(s, j) == BitsOf(0, s[j])
  {
    forall i: nat | i < |s| && i != j ensures s[i] == 0 {
      if s[i] > 0 { TwoUsed(s, if i < j then i else j, if i < j then j else i); }
    }
    FirstIsZero(s, j, s[j]);
    HuffmanTable.CountZeros(s[..j], s[j]);
    ZeroBits(s[j]);
  }

  lemma {:induction false} ZeroBits(n: nat)
    ensures CodeBits(0, n) == BitsOf(0, n) && forall i | 0 <= i < n :: !BitsOf(0, n)[i]
  {
    if n > 0 {
      ZeroBits(n - 1);
      LastBit(0, n - 1);
      ShrZero(n - 1);
    }
  }

  lemma {:induction false} ShrZero(n: nat)
    ensures Shr(0, n) == 0
  {
    if n > 0 { ShrZero(n - 1); }
  }

  /** While the stream goes on with a code, the buffer with zeros behind it spells one; it need not be that one. */
  lemma NextSpelled(s: seq<nat>, bitBuf: nat, n: nat, rest: seq<bool>) returns (i: nat)
    requires Acceptable(s) && bitBuf < Pow2(n) && DecodeSym(s, BitsOf(bitBuf, n) + rest).Some?
    ensures Spells(s, bitBuf, i)
    ensures s[i] <= n ==> DecodeSym(s, BitsOf(bitBuf, n) + rest) == Some((i, s[i]))
    ensures s[i] > n ==> rest != []
  {
    var held := BitsOf(bitBuf, n);
    if Complete(s) {
      i := SomeSpelled(s, bitBuf);
      SpellsDecodes(s, bitBuf, n, i);
      if s[i] <= n {
        LowFirst(bitBuf, s[i], n);
        DecodeSymIff(s, held + rest, i);
      } else {
        assert rest == [] ==> held + rest == held;
      }
    } else {
      i := DecodeSym(s, held + rest).value.0;
      DecodeSymIff(s, held + rest, i);
      SingleCode(s, i);
      if s[i] <= n {
        LowFirst(bitBuf, s[i], n);
      } else {
        HeldZero(bitBuf, n, rest, s[i]);
      }
    }
  }

  lemma HeldZero(bitBuf: nat, n: nat, rest: seq<bool>, l: nat)
    requires bitBuf < Pow2(n) && n < l && BitsOf(0, l) <= BitsOf(bitBuf, n) + rest
    ensures bitBuf == 0 && rest != []
  {
    LowFirst(0, n, l);
    ValueOfBitsOf(bitBuf, n);
    assert BitsOf(bitBuf, n) == (BitsOf(bitBuf, n) + rest)[..n];
    assert BitsOf(0, n) == BitsOf(bitBuf, n);
    ValueOfBitsOf(0, n);
  }

  // ----- what the tables say about a spelled symbol

  lemma LookSpelled(look: seq<int>, tree: seq<int>, s: seq<nat>, nodes: seq<Path>, bitBuf: nat, i: nat)
    requires Tables(look, tree, s, |s|, nodes) && Spells(s, bitBuf, i)
    ensures var v := look[bitBuf % LOOKUP_SIZE];
            (s[i] <= LOOKUP_BITS ==> v == ShortEntry(s, i)) &&
            (s[i] > LOOKUP_BITS ==> IsNode(v, BitsOf(bitBuf, LOOKUP_BITS), nodes))
  {
    var x, p := bitBuf % LOOKUP_SIZE, BitsOf(bitBuf, LOOKUP_BITS);
    LowTen(bitBuf);
    assert LookEntry(look[x], p, s, |s|, nodes);
    if s[i] <= LOOKUP_BITS {
      LowFirst(bitBuf, s[i], LOOKUP_BITS);
      assert ShortAt(s, |s|, i, p);
    } else {
      LowFirst(bitBuf, LOOKUP_BITS, s[i]);
      assert Codeword(s, i)[..LOOKUP_BITS] in nodes;
    }
  }

  lemma SlotSpelled(look: seq<int>, tree: seq<int>, s: seq<nat>, nodes: seq<Path>, bitBuf: nat, i: nat, cur: int,
      l: nat) returns (c: nat)
    requires Tables(look, tree, s, |s|, nodes) && Spells(s, bitBuf, i) && LOOKUP_BITS <= l < s[i]
    requires IsNode(cur, BitsOf(bitBuf, l), nodes)
    ensures c == -cur - 1 + Shr(bitBuf, l) % 2 && c < TREE_SIZE && |tree| == TREE_SIZE
    ensures TreeEntry(tree[c], BitsOf(bitBuf, l + 1), s, |s|, nodes)
  {
    var bit := Shr(bitBuf, l) % 2;
    SlotOf(cur, bit, BitsOf(bitBuf, l), nodes);
    LastBit(bitBuf, l);
    c := -(cur - bit) - 1;
  }

  lemma EntrySpelled(look: seq<int>, tree: seq<int>, v: int, s: seq<nat>, nodes: seq<Path>, bitBuf: nat, i: nat, l: nat)
    requires Tables(look, tree, s, |s|, nodes) && Spells(s, bitBuf, i) && LOOKUP_BITS <= l < s[i]
    requires TreeEntry(v, BitsOf(bitBuf, l + 1), s, |s|, nodes)
    ensures (l + 1 == s[i] ==> v == i) && (l + 1 < s[i] ==> IsNode(v, BitsOf(bitBuf, l + 1), nodes))
  {
    var p := BitsOf(bitBuf, l + 1);
    if l + 1 == s[i] {
      assert LongAt(s, |s|, i, p);
    } else {
      LowFirst(bitBuf, l + 1, s[i]);
      assert Codeword(s, i)[..l + 1] in nodes;
    }
  }

  // ----- decoding

  /** The table lookup, and the walk through the tree when the code is longer than ten bits. */
  method LookUp(t: FastTable, bitBuf: nat, ghost s: seq<nat>, ghost i: nat) returns (sym: nat, codeLen: nat)
    requires t.Built(s) && Spells(s, bitBuf, i)
    ensures sym == i && codeLen == s[i]
  {
    hide LookOk, TreeOk, NodesOk, Reached, Fits, Complete, BitsOf, Codeword;
    LookSpelled(t.lookUp[..], t.tree[..], s, t.nodes, bitBuf, i);
    var temp := t.lookUp[bitBuf % LOOKUP_SIZE];
    if temp >= 0 {
      sym, codeLen := temp % 512, temp / 512;
      return;
    }
    sym, codeLen := Walk(t, temp, bitBuf, s, i);
  }

  /** Down the tree to the symbol. */
  method Walk(t: FastTable, node: int, bitBuf: nat, ghost s: seq<nat>, ghost i: nat) returns (sym: nat, codeLen: nat)
    requires t.Built(s) && Spells(s, bitBuf, i) && LOOKUP_BITS < s[i] &&
             IsNode(node, BitsOf(bitBuf, LOOKUP_BITS), t.nodes)
    ensures sym == i && codeLen == s[i]
  {
    var temp := node;
    codeLen := LOOKUP_BITS;
    while temp < 0
      invariant LOOKUP_BITS <= codeLen <= s[i]
      invariant if codeLen < s[i] then IsNode(temp, BitsOf(bitBuf, codeLen), t.nodes) else temp == i
      decreases s[i] - codeLen
    {
      temp := WalkBit(t, temp, bitBuf, codeLen, s, i);
      codeLen := codeLen + 1;
    }
    sym := temp;
  }

  /** One bit further down the tree. */
  method WalkBit(t: FastTable, temp: int, bitBuf: nat, l: nat, ghost s: seq<nat>, ghost i: nat) returns (next: int)
    requires t.Built(s) && Spells(s, bitBuf, i) && LOOKUP_BITS <= l < s[i] && IsNode(temp, BitsOf(bitBuf, l), t.nodes)
    ensures (l + 1 == s[i] ==> next == i) && (l + 1 < s[i] ==> IsNode(next, BitsOf(bitBuf, l + 1), t.nodes))
  {
    ghost var c := SlotSpelled(t.lookUp[..], t.tree[..], s, t.nodes, bitBuf, i, temp, l);
    next := t.tree[-temp - 1 + Shr(bitBuf, l) % 2];
    EntrySpelled(t.lookUp[..], t.tree[..], next, s, t.nodes, bitBuf, i, l);
  }

  /** Decoding from held bits that contain a whole code agrees with reading the code bit by bit. */
  method Decode(t: FastTable, bitBuf: nat, numBits: nat, ghost s: seq<nat>) returns (sym: nat, codeLen: nat)
    requires t.Built(s) && DecodeSym(s, BitsOf(bitBuf, numBits)).Some?
    ensures DecodeSym(s, BitsOf(bitBuf, numBits)) == Some((sym, codeLen))
  {
    ghost var i := DecodesSpells(s, bitBuf, numBits);
    sym, codeLen := LookUp(t, bitBuf, s, i);
  }

  // ----- fetching bytes near the end of the input

  /** Whether the held bits contain a whole code. */
  method Determined(t: FastTable, bitBuf: nat, numBits: nat, ghost s: seq<nat>, ghost i: nat) returns (yes: bool)
    requires t.Built(s) && Spells(s, bitBuf, i)
    ensures yes <==> s[i] <= numBits
    ensures yes <==> DecodeSym(s, BitsOf(bitBuf, numBits)).Some?
  {
    SpellsDecodes(s, bitBuf, numBits, i);
    LookSpelled(t.lookUp[..], t.tree[..], s, t.nodes, bitBuf, i);
    var temp := t.lookUp[bitBuf % LOOKUP_SIZE];
    if temp >= 0 {
      var codeLen := temp / 512;
      yes := codeLen > 0 && numBits >= codeLen;
    } else if numBits > LOOKUP_BITS {
      yes := WalkHeld(t, temp, bitBuf, numBits, s, i);
    } else {
      yes := false;
    }
  }

  /** The walk through the tree as far as the held bits go. */
  method WalkHeld(t: FastTable, start: int, bitBuf: nat, numBits: nat, ghost s: seq<nat>, ghost i: nat)
      returns (yes: bool)
    requires t.Built(s) && Spells(s, bitBuf, i) && s[i] > LOOKUP_BITS && numBits > LOOKUP_BITS
    requires IsNode(start, BitsOf(bitBuf, LOOKUP_BITS), t.nodes)
    ensures yes <==> s[i] <= numBits
  {
    var temp, codeLen := start, LOOKUP_BITS;
    while true
      invariant LOOKUP_BITS <= codeLen < s[i] && codeLen < numBits && IsNode(temp, BitsOf(bitBuf, codeLen), t.nodes)
      decreases s[i] - codeLen
    {
      temp := WalkBit(t, temp, bitBuf, codeLen, s, i);
      codeLen := codeLen + 1;
      if !(temp < 0 && numBits >= codeLen + 1) { break; }
    }
    yes := temp >= 0;
  }

  /** The held bits after k more bytes of the input. */
  ghost function HeldAfter(bitBuf: nat, numBits: nat, input: seq<Byte>, p: nat, k: nat): (nat, nat)
    requires p + k <= |input|
    decreases k
  {
    if k == 0 then (bitBuf, numBits)
    else
      var h := HeldAfter(bitBuf, numBits, input, p, k - 1);
      (h.0 + Shl(input[p + k - 1], h.1), h.1 + 8)
  }

  /** The held bits do not contain a whole code. */
  ghost predicate Undecided(s: seq<nat>, h: (nat, nat)) {
    DecodeSym(s, BitsOf(h.0, h.1)) == None && h.1 < 15
  }

  /** Each of k bytes was fetched because what was held before it did not contain a whole code. */
  ghost predicate Frugal(s: seq<nat>, bitBuf: nat, numBits: nat, input: seq<Byte>, p: nat, k: nat) {
    p + k <= |input| && forall j: nat | j < k :: Undecided(s, HeldAfter(bitBuf, numBits, input, p, j))
  }

  lemma OneMore(s: seq<nat>, bitBuf: nat, numBits: nat, input: seq<Byte>, p: nat, k: nat, h: (nat, nat))
    requires p + k < |input| && h == HeldAfter(bitBuf, numBits, input, p, k)
    requires Frugal(s, bitBuf, numBits, input, p, k) && Undecided(s, h)
    ensures Frugal(s, bitBuf, numBits, input, p, k + 1)
    ensures HeldAfter(bitBuf, numBits, input, p, k + 1) == (h.0 + Shl(input[p + k], h.1), h.1 + 8)
  {
  }
}
