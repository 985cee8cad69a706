/** Building a Huffman code table from symbol counts (miniz tdefl_optimize_huffman_table). */
module HuffmanTable {
  import opened Bits
  import opened Canonical
  import opened RadixSort
  import opened UsedSymbols
  import HuffmanTree
  import MinRedundancy
  import LengthLimit
  import LimitCost
  import opened TableCost

  // ----- counting lengths

  lemma {:induction false} CountUpdate(s: seq<nat>, k: nat, v: nat, l: nat)
    requires k < |s|
    ensures Count(s[k := v], l) == Count(s, l) - (if s[k] == l then 1 else 0) + (if v == l then 1 else 0)
  {
    var n := |s| - 1;
    if k == n {
      assert s[k := v][..n] == s[..n];
    } else {
      assert s[k := v][..n] == s[..n][k := v];
      CountUpdate(s[..n], k, v, l);
    }
  }

  lemma {:induction false} CountZeros(s: seq<nat>, l: nat)
    requires l > 0 && forall i | 0 <= i < |s| :: s[i] == 0
    ensures Count(s, l) == 0
  {
    if s != [] { CountZeros(s[..|s| - 1], l); }
  }

  /** nc[l] is the number of codes of length l, for lengths from 1 to m. */
  ghost predicate Tally(nc: seq<int>, s: seq<nat>, m: nat) {
    m < |nc| && forall l: nat | 1 <= l <= m :: nc[l] == Count(s, l)
  }

  /** The space used by a tally is the one the decoder computes from the lengths. */
  lemma {:induction false} TallyUsed(nc: seq<int>, s: seq<nat>, m: nat, l: nat)
    requires Tally(nc, s, m) && 1 <= l <= m
    ensures LengthLimit.Used(nc, l) == FirstCode(s, l) + Count(s, l)
  {
    if l > 1 { TallyUsed(nc, s, m, l - 1); } else { assert LengthLimit.Used(nc, 0) == 0; }
  }

  lemma {:induction false} FirstCodeAbove(s: seq<nat>, m: nat, k: nat)
    requires m >= 1 && forall i | 0 <= i < |s| :: s[i] <= m
    requires FirstCode(s, m) + Count(s, m) == Pow2(m)
    ensures FirstCode(s, m + 1 + k) == Pow2(m + 1 + k)
  {
    if k > 0 {
      FirstCodeAbove(s, m, k - 1);
      CountAbove(s, m + k);
    }
  }

  lemma {:induction false} CountAbove(s: seq<nat>, l: nat)
    requires forall i | 0 <= i < |s| :: s[i] < l
    ensures Count(s, l) == 0
  {
    if s != [] { CountAbove(s[..|s| - 1], l); }
  }

  /** A tally that uses exactly all space belongs to a complete code. */
  lemma TallyComplete(nc: seq<int>, s: seq<nat>, m: nat)
    requires Tally(nc, s, m) && 1 <= m <= MAX_LEN && forall i | 0 <= i < |s| :: s[i] <= m
    requires LengthLimit.Used(nc, m) == Pow2(m)
    ensures Complete(s)
  {
    TallyUsed(nc, s, m, m);
    FirstCodeAbove(s, m, MAX_LEN - m);
  }

  /** Kraft's sum and the space used by a tally are the same number. */
  lemma {:induction false} KraftIsUsed(len: seq<nat>, top: nat)
    requires top >= 1 && forall i | 0 <= i < |len| :: 1 <= len[i] <= top
    ensures HuffmanTree.Kraft(len, top) == FirstCode(len, top) + Count(len, top)
  {
    if len == [] {
      FirstCodeEmpty(top);
    } else {
      var t := len[1..];
      KraftIsUsed(t, top);
      FirstCodeCons(len, top);
    }
  }

  lemma {:induction false} FirstCodeEmpty(l: nat)
    requires l >= 1
    ensures FirstCode([], l) == 0
  {
    if l > 1 { FirstCodeEmpty(l - 1); }
  }

  lemma {:induction false} CountCons(s: seq<nat>, l: nat)
    requires s != []
    ensures Count(s, l) == Count(s[1..], l) + (if s[0] == l then 1 else 0)
  {
    if |s| > 1 {
      CountCons(s[..|s| - 1], l);
      assert s[..|s| - 1][1..] == s[1..][..|s| - 2];
    }
  }

  lemma {:induction false} FirstCodeCons(s: seq<nat>, l: nat)
    requires s != [] && l >= 1 && s[0] >= 1
    ensures FirstCode(s, l) + Count(s, l) ==
            FirstCode(s[1..], l) + Count(s[1..], l) + (if s[0] <= l then Pow2(l - s[0]) else 0)
  {
    CountCons(s, l);
    if l > 1 { FirstCodeCons(s, l - 1); }
  }

  // ----- assigning codes

  /** The loop that reverses a code so that it can be written low bit first. */
  method ReverseCode(code: nat, size: nat) returns (rev: nat)
    ensures BitsOf(rev, size) == CodeBits(code, size) && rev < Pow2(size)
  {
    rev := 0;
    var c, l := code, size;
    while l > 0
      invariant 0 <= l <= size && rev < Pow2(size - l)
      invariant CodeBits(c, l) + BitsOf(rev, size - l) == CodeBits(code, size)
    {
      ghost var b, k := c % 2, size - l;
      assert BitsOf(2 * rev + b, k + 1) == [b == 1] + BitsOf(rev, k);
      assert CodeBits(c, l) + BitsOf(rev, k) == CodeBits(c / 2, l - 1) + BitsOf(2 * rev + b, k + 1);
      rev := 2 * rev + c % 2;
      c := c / 2;
      l := l - 1;
    }
  }

  /** Writing the low bits of codes[i] first spells the canonical code of symbol i. */
  ghost predicate IsCode(sizes: seq<nat>, codes: seq<nat>, i: nat)
    requires i < |sizes| && i < |codes|
  {
    sizes[i] > 0 ==> codes[i] < Pow2(sizes[i]) && BitsOf(codes[i], sizes[i]) == Codeword(sizes, i)
  }

  /** The next code of every length, when the first i symbols have theirs. */
  ghost predicate NextCodes(next: seq<nat>, s: seq<nat>, limit: nat, i: nat)
    requires i <= |s|
  {
    limit < |next| && forall l: nat | 1 <= l <= limit :: next[l] == FirstCode(s, l) + Count(s[..i], l)
  }

  lemma FirstCodeNext(nc: seq<int>, s: seq<nat>, m: nat, i: nat)
    requires Tally(nc, s, m) && 2 <= i <= m + 1
    ensures FirstCode(s, i) == 2 * (FirstCode(s, i - 1) + nc[i - 1])
  {
  }

  method FirstCodes(nc: array<int>, limit: nat, ghost s: seq<nat>) returns (nextCode: array<nat>)
    requires nc.Length == 33 && 1 <= limit <= 32 && Tally(nc[..], s, limit)
    ensures fresh(nextCode) && NextCodes(nextCode[..], s, limit, 0)
  {
    hide FirstCode, Count, Tally;
    nextCode := new nat[33](_ => 0);
    var j := 0;
    FirstIsZero(s);
    for i := 2 to limit + 1
      invariant j == FirstCode(s, i - 1)
      invariant forall l: nat | 1 <= l < i :: nextCode[l] == FirstCode(s, l)
    {
      FirstCodeNext(nc[..], s, limit, i);
      assert nc[..][i - 1] == nc[i - 1];
      j := 2 * (j + nc[i - 1]);
      nextCode[i] := j;
    }
    NothingCoded(nextCode[..], s, limit);
  }

  lemma FirstIsZero(s: seq<nat>)
    ensures FirstCode(s, 1) == 0
  {
  }

  /** Before any symbol has its code, every length's next code is its first. */
  lemma NothingCoded(next: seq<nat>, s: seq<nat>, limit: nat)
    requires limit < |next| && forall l: nat | 1 <= l <= limit :: next[l] == FirstCode(s, l)
    ensures NextCodes(next, s, limit, 0)
  {
    assert s[..0] == [];
  }

  lemma NextCodesStep(next: seq<nat>, s: seq<nat>, limit: nat, i: nat)
    requires i < |s| && NextCodes(next, s, limit, i) && s[i] <= limit
    ensures s[i] == 0 ==> NextCodes(next, s, limit, i + 1)
    ensures s[i] > 0 ==> next[s[i]] == CodeNum(s, i) && NextCodes(next[s[i] := next[s[i]] + 1], s, limit, i + 1)
  {
    forall l: nat | 1 <= l <= limit ensures Count(s[..i + 1], l) == Count(s[..i], l) + (if s[i] == l then 1 else 0) {
      CountTake(s, i, l);
    }
  }

  /** Gives every symbol with a length its canonical code, bit-reversed. */
  method AssignCodes(nc: array<int>, sizes: array<nat>, codes: array<nat>, tableLen: nat, limit: nat)
    requires nc.Length == 33 && 1 <= limit <= 32 && sizes != codes
    requires tableLen <= sizes.Length && tableLen <= codes.Length
    requires Tally(nc[..], sizes[..tableLen], limit)
    requires forall i | 0 <= i < tableLen :: sizes[i] <= limit
    modifies codes
    ensures forall i | 0 <= i < tableLen :: IsCode(sizes[..tableLen], codes[..tableLen], i)
    ensures forall i | tableLen <= i < codes.Length :: codes[i] == old(codes[i])
  {
    ghost var s := sizes[..tableLen];
    var nextCode := FirstCodes(nc, limit, s);
    for i := 0 to tableLen
      invariant sizes[..tableLen] == s && NextCodes(nextCode[..], s, limit, i)
      invariant forall k | 0 <= k < i :: IsCode(s, codes[..tableLen], k)
      invariant forall k | tableLen <= k < codes.Length :: codes[k] == old(codes[k])
    {
      var size := sizes[i];
      NextCodesStep(nextCode[..], s, limit, i);
      if size == 0 { continue; }
      var code := nextCode[size];
      nextCode[size] := code + 1;
      var rev := ReverseCode(code, size);
      ghost var c := codes[..tableLen];
      codes[i] := rev;
      assert codes[..tableLen] == c[i := rev];
      forall k: nat | k < i ensures IsCode(s, codes[..tableLen], k) { assert IsCode(s, c, k); }
    }
  }

  // ----- handing out lengths

  /** The lengths of the symbols from position j on are set, none above i, in non-increasing order. */
  ghost predicate Assigned(t: seq<nat>, syms: seq<SymFreq>, j: nat, i: nat) {
    (forall p | 0 <= p < |syms| :: syms[p].sym < |t|) &&
    (forall p | 0 <= p < j <= |syms| :: t[syms[p].sym] == 0) &&
    (forall p | j <= p < |syms| :: 1 <= t[syms[p].sym] <= i) &&
    (forall p, q | j <= p < q < |syms| :: t[syms[p].sym] >= t[syms[q].sym]) &&
    (forall k: nat | k < |t| && t[k] > 0 :: InUse(syms, k))
  }

  ghost predicate InUse(syms: seq<SymFreq>, k: nat) {
    exists p :: 0 <= p < |syms| && syms[p].sym == k
  }

  ghost predicate Distinct(syms: seq<SymFreq>) {
    forall p, q | 0 <= p < q < |syms| :: syms[p].sym != syms[q].sym
  }

  lemma SortedDistinct(syms: seq<SymFreq>, counts: seq<nat>)
    requires Lists(syms, counts) && Ascending(syms, 2)
    ensures Distinct(syms)
  {
    forall p, q | 0 <= p < q < |syms| ensures syms[p].sym != syms[q].sym {
      assert Rank(syms[p], 2) < Rank(syms[q], 2);
    }
  }

  lemma AssignNext(t: seq<nat>, syms: seq<SymFreq>, j: nat, i: nat)
    requires 0 < j <= |syms| && 0 < i && Assigned(t, syms, j, i) && Distinct(syms)
    ensures t[syms[j - 1].sym] == 0 && Assigned(t[syms[j - 1].sym := i], syms, j - 1, i)
  {
    var k := syms[j - 1].sym;
    var t' := t[k := i];
    assert InUse(syms, k);
    forall p | 0 <= p < |syms| && p != j - 1 ensures t'[syms[p].sym] == t[syms[p].sym] {
      assert syms[p].sym != k;
    }
  }

  /** The lengths from position j on, i or below, are where the counts put them. */
  ghost predicate LaidFrom(t: seq<nat>, syms: seq<SymFreq>, c: seq<int>, j: nat, i: nat) {
    i < |c| && (forall p | 0 <= p < |syms| :: syms[p].sym < |t|) &&
    forall p: nat, l: nat | j <= p < |syms| && l <= i :: LaidOne(t, syms, c, p, l)
  }

  ghost predicate LaidOne(t: seq<nat>, syms: seq<SymFreq>, c: seq<int>, p: nat, l: nat)
    requires p < |syms| && syms[p].sym < |t| && l < |c|
  {
    t[syms[p].sym] <= l <==> p + LengthLimit.Codes(c, l) >= |syms|
  }

  /** The symbols at positions j' to j have been given length i, and those behind them have kept theirs. */
  ghost predicate Given(t: seq<nat>, t': seq<nat>, syms: seq<SymFreq>, j: nat, j': nat, i: nat) {
    |t'| == |t| && j' <= j <= |syms| && (forall p | 0 <= p < |syms| :: syms[p].sym < |t|) &&
    (forall p | j' <= p < j :: t'[syms[p].sym] == i) && forall p | j <= p < |syms| :: t'[syms[p].sym] == t[syms[p].sym]
  }

  lemma GiveOne(t: seq<nat>, t': seq<nat>, syms: seq<SymFreq>, j: nat, j': nat, i: nat)
    requires Given(t, t', syms, j, j', i) && 0 < j' && Distinct(syms)
    ensures Given(t, t'[syms[j' - 1].sym := i], syms, j, j' - 1, i)
  {
    var k := syms[j' - 1].sym;
    forall p | j' <= p < |syms| ensures t'[k := i][syms[p].sym] == t'[syms[p].sym] { assert syms[p].sym != k; }
  }

  lemma LaidNext(t: seq<nat>, t': seq<nat>, syms: seq<SymFreq>, c: seq<int>, j: nat, j': nat, i: nat)
    requires 1 <= i < |c| && |t'| == |t| && Assigned(t, syms, j, i - 1) && LaidFrom(t, syms, c, j, i - 1) &&
             LengthLimit.NonNegative(c)
    requires 0 <= j' <= j <= |syms| && j == |syms| - LengthLimit.Codes(c, i - 1) &&
             j' == |syms| - LengthLimit.Codes(c, i)
    requires Given(t, t', syms, j, j', i)
    ensures LaidFrom(t', syms, c, j', i)
  {
    forall p: nat, l: nat | j' <= p < |syms| && l <= i ensures LaidOne(t', syms, c, p, l) {
      LengthLimit.CodesOrdered(c, l, i);
      if l < i {
        LengthLimit.CodesOrdered(c, l, i - 1);
        if p >= j { assert LaidOne(t, syms, c, p, l); }
      }
    }
  }

  lemma LaidAll(t: seq<nat>, syms: seq<SymFreq>, c: seq<int>, i: nat)
    requires LaidFrom(t, syms, c, 0, i)
    ensures LimitCost.Laid(SizesOf(syms, t), c, i)
  {
    var s := SizesOf(syms, t);
    forall p: nat, l: nat | p < |s| && l <= i ensures LimitCost.LaidAt(s, c, p, l) { assert LaidOne(t, syms, c, p, l); }
  }

  /** How many lengths of each kind have been handed out: all below i, done of length i, none above. */
  ghost predicate HandedOut(t: seq<nat>, nc: seq<int>, i: nat, done: int, limit: nat) {
    limit < |nc| &&
    forall l: nat | 1 <= l <= limit :: Count(t, l) == if l < i then nc[l] else if l == i then done else 0
  }

  lemma HandOutOne(t: seq<nat>, nc: seq<int>, i: nat, done: nat, limit: nat, k: nat)
    requires HandedOut(t, nc, i, done, limit) && 1 <= i <= limit && k < |t| && t[k] == 0
    ensures HandedOut(t[k := i], nc, i, done + 1, limit)
  {
    forall l: nat | 1 <= l <= limit
      ensures Count(t[k := i], l) == if l < i then nc[l] else if l == i then done + 1 else 0
    {
      CountUpdate(t, k, i, l);
    }
  }

  lemma HandNone(t: seq<nat>, syms: seq<SymFreq>, j: nat, i: nat)
    requires Assigned(t, syms, j, i) && j <= |syms|
    ensures Given(t, t, syms, j, j, i)
  {
  }

  /** The symbol before position j gets length i too. */
  lemma HandNext(t0: seq<nat>, t: seq<nat>, syms: seq<SymFreq>, c: seq<int>, j0: nat, j: nat, i: nat, done: nat,
      limit: nat)
    requires Distinct(syms) && 0 < j <= |syms| && 1 <= i <= limit
    requires Assigned(t, syms, j, i) && Given(t0, t, syms, j0, j, i) && HandedOut(t, c, i, done, limit)
    ensures syms[j - 1].sym < |t|
    ensures var t' := t[syms[j - 1].sym := i];
            Assigned(t', syms, j - 1, i) && Given(t0, t', syms, j0, j - 1, i) && HandedOut(t', c, i, done + 1, limit)
  {
    AssignNext(t, syms, j, i);
    GiveOne(t0, t, syms, j0, j, i);
    HandOutOne(t, c, i, done, limit, syms[j - 1].sym);
  }

  lemma HandedAll(t: seq<nat>, c: seq<int>, i: nat, limit: nat)
    requires i < |c| && HandedOut(t, c, i, c[i], limit)
    ensures HandedOut(t, c, i + 1, 0, limit)
  {
  }

  /** Before any length has been handed out. */
  lemma HandStart(t: seq<nat>, syms: seq<SymFreq>, c: seq<int>, limit: nat)
    requires limit < |c| && (forall k | 0 <= k < |t| :: t[k] == 0) && forall p | 0 <= p < |syms| :: syms[p].sym < |t|
    ensures Assigned(t, syms, |syms|, 0) && HandedOut(t, c, 1, 0, limit) && LaidFrom(t, syms, c, |syms|, 0)
  {
    forall l: nat | 1 <= l <= limit ensures Count(t, l) == 0 { CountZeros(t, l); }
  }

  lemma AssignedUp(t: seq<nat>, syms: seq<SymFreq>, j: nat, i: nat)
    requires i > 0 && Assigned(t, syms, j, i - 1)
    ensures Assigned(t, syms, j, i)
  {
  }

  lemma HandedTally(t: seq<nat>, c: seq<int>, limit: nat)
    requires HandedOut(t, c, limit + 1, 0, limit)
    ensures Tally(c, t, limit)
  {
  }

  /** Gives length i to the next count symbols, going down from position j. */
  method HandOutLength(sorted: array<SymFreq>, n: nat, sizes: array<nat>, tableLen: nat, j0: nat, i: nat, count: nat,
      ghost c: seq<int>, ghost limit: nat) returns (j: nat)
    requires n <= sorted.Length && tableLen <= sizes.Length && count <= j0 <= n && 1 <= i <= limit < |c| &&
             c[i] == count
    requires Distinct(sorted[..n]) && Assigned(sizes[..tableLen], sorted[..n], j0, i)
    requires HandedOut(sizes[..tableLen], c, i, 0, limit)
    modifies sizes
    ensures j == j0 - count && Assigned(sizes[..tableLen], sorted[..n], j, i)
    ensures HandedOut(sizes[..tableLen], c, i + 1, 0, limit)
    ensures sizes[tableLen..] == old(sizes[tableLen..])
    ensures Given(old(sizes[..tableLen]), sizes[..tableLen], sorted[..n], j0, j, i)
  {
    hide Assigned, HandedOut, Given, Distinct, Count;
    ghost var s, rest, t0 := sorted[..n], sizes[tableLen..], sizes[..tableLen];
    j := j0;
    var l := count;
    HandNone(t0, s, j0, i);
    while l > 0
      invariant 0 <= l <= count && j == j0 - (count - l) && sizes[tableLen..] == rest
      invariant Assigned(sizes[..tableLen], s, j, i) && HandedOut(sizes[..tableLen], c, i, count - l, limit)
      invariant Given(t0, sizes[..tableLen], s, j0, j, i)
    {
      ghost var t: seq<nat> := sizes[..tableLen];
      HandNext(t0, t, s, c, j0, j, i, count - l, limit);
      j := j - 1;
      sizes[sorted[j].sym] := i;
      assert sizes[..tableLen] == t[s[j].sym := i];
      l := l - 1;
    }
    HandedAll(sizes[..tableLen], c, i, limit);
  }

  /** Walks the lengths up and the symbols down, so that the most frequent symbols get the shortest codes. */
  method HandOutLengths(nc: array<int>, sorted: array<SymFreq>, n: nat, sizes: array<nat>, tableLen: nat, limit: nat)
    requires nc.Length == 33 && 1 <= limit <= 32 && n <= sorted.Length && tableLen <= sizes.Length
    requires LengthLimit.NonNegative(nc[..]) && LengthLimit.Codes(nc[..], limit) == n
    requires Distinct(sorted[..n]) && forall p | 0 <= p < n :: sorted[p].sym < tableLen
    requires forall k | 0 <= k < tableLen :: sizes[k] == 0
    modifies sizes
    ensures Tally(nc[..], sizes[..tableLen], limit) && Assigned(sizes[..tableLen], sorted[..n], 0, limit)
    ensures LaidFrom(sizes[..tableLen], sorted[..n], nc[..], 0, limit)
    ensures sizes[tableLen..] == old(sizes[tableLen..])
  {
    hide Assigned, HandedOut, LaidFrom, Given, Distinct, Count, Tally, LengthLimit.Codes;
    ghost var c, s := nc[..], sorted[..n];
    var j := n;
    HandStart(sizes[..tableLen], s, c, limit);
    CodesNext(c, 1);
    for i := 1 to limit + 1
      invariant nc[..] == c && sorted[..n] == s && 0 <= j <= n && j == n - LengthLimit.Codes(c, i - 1)
      invariant Assigned(sizes[..tableLen], s, j, i - 1) && HandedOut(sizes[..tableLen], c, i, 0, limit)
      invariant LaidFrom(sizes[..tableLen], s, c, j, i - 1)
      invariant sizes[tableLen..] == old(sizes[tableLen..])
    {
      CodesGrow(c, i, limit);
      CodesNext(c, i);
      ghost var t, j0 := sizes[..tableLen], j;
      AssignedUp(t, s, j, i);
      j := HandOutLength(sorted, n, sizes, tableLen, j, i, nc[i], c, limit);
      LaidNext(t, sizes[..tableLen], s, c, j0, j, i);
    }
    HandedTally(sizes[..tableLen], c, limit);
  }

  lemma CodesNext(nc: seq<int>, i: nat)
    requires 0 < i < |nc| && LengthLimit.NonNegative(nc)
    ensures LengthLimit.Codes(nc, 0) == 0 && LengthLimit.Codes(nc, i) == LengthLimit.Codes(nc, i - 1) + nc[i] &&
            nc[i] >= 0
  {
  }

  lemma {:induction false} CodesGrow(nc: seq<int>, i: nat, m: nat)
    requires i <= m < |nc| && LengthLimit.NonNegative(nc)
    ensures LengthLimit.Codes(nc, i) <= LengthLimit.Codes(nc, m)
  {
    if i < m { CodesGrow(nc, i, m - 1); }
  }

  /** Counts how many codes there are of every length. */
  method CountLengths(keys: array<nat>, n: nat) returns (nc: array<int>)
    requires n <= keys.Length && forall k | 0 <= k < n :: keys[k] <= 32
    ensures fresh(nc) && nc.Length == 33 && LengthLimit.NonNegative(nc[..]) && Tally(nc[..], keys[..n], 32)
  {
    ghost var s := keys[..n];
    nc := new int[33](_ => 0);
    assert s[..0] == [];
    for i := 0 to n
      invariant keys[..n] == s && nc.Length == 33
      invariant LengthLimit.NonNegative(nc[..]) && Tally(nc[..], s[..i], 32)
    {
      ghost var c := nc[..];
      nc[keys[i]] := nc[keys[i]] + 1;
      assert nc[..] == c[s[i] := c[s[i]] + 1];
      TallyNext(c, s, i);
    }
    assert s[..n] == s;
  }

  lemma TallyNext(c: seq<int>, s: seq<nat>, i: nat)
    requires i < |s| && |c| == 33 && s[i] <= 32 && Tally(c, s[..i], 32)
    ensures Tally(c[s[i] := c[s[i]] + 1], s[..i + 1], 32)
  {
    forall l: nat | 1 <= l <= 32 ensures Count(s[..i + 1], l) == Count(s[..i], l) + (if s[i] == l then 1 else 0) {
      CountTake(s, i, l);
    }
  }

  /** All codes are counted. */
  lemma {:induction false} TallyCodes(s: seq<nat>, l: nat, nc: seq<int>)
    requires l < |nc| && Tally(nc, s, l)
    ensures LengthLimit.Codes(nc, l) == Below(s, l)
  {
    if l > 0 {
      TallyCodes(s, l - 1, nc);
      BelowNext(s, l);
    } else {
      BelowZero(s);
    }
  }

  /** How many lengths are between 1 and l. */
  function Below(s: seq<nat>, l: nat): nat {
    if s == [] then 0 else (if 1 <= s[|s| - 1] <= l then 1 else 0) + Below(s[..|s| - 1], l)
  }

  lemma {:induction false} BelowNext(s: seq<nat>, l: nat)
    requires l > 0
    ensures Below(s, l) == Below(s, l - 1) + Count(s, l)
  {
    if s != [] { BelowNext(s[..|s| - 1], l); }
  }

  lemma {:induction false} BelowZero(s: seq<nat>)
    ensures Below(s, 0) == 0
  {
    if s != [] { BelowZero(s[..|s| - 1]); }
  }

  lemma {:induction false} BelowAll(s: seq<nat>, l: nat)
    requires forall i | 0 <= i < |s| :: 1 <= s[i] <= l
    ensures Below(s, l) == |s|
  {
    if s != [] { BelowAll(s[..|s| - 1], l); }
  }

  // ----- the table as a whole

  /**
   * What makes a table good for the counts it was built from: a code for every symbol in use and no other, short
   * enough and acceptable to a decoder, no longer for frequent symbols than for rarer ones, and written as the
   * canonical code.
   */
  ghost predicate GoodTable(counts: seq<nat>, sizes: seq<nat>, codes: seq<nat>, limit: nat) {
    |sizes| == |counts| && |codes| == |counts| &&
    (forall k | 0 <= k < |sizes| :: sizes[k] <= limit && (sizes[k] > 0 <==> counts[k] > 0)) &&
    (Complete(sizes) || |sizes| - Count(sizes, 0) <= 1) && Fits(sizes) &&
    (forall k, l | 0 <= k < |counts| && 0 <= l < |counts| && 0 < counts[k] < counts[l] :: sizes[l] <= sizes[k]) &&
    (forall k | 0 <= k < |sizes| :: IsCode(sizes, codes, k))
  }

  /** Position in the sorted list of a symbol in use. */
  lemma Position(syms: seq<SymFreq>, counts: seq<nat>, k: nat) returns (p: nat)
    requires Lists(syms, counts) && k < |counts| && counts[k] > 0
    ensures p < |syms| && syms[p] == SymFreq(counts[k], k)
  {
    p :| 0 <= p < |syms| && syms[p] == SymFreq(counts[k], k);
  }

  lemma KeysAscend(syms: seq<SymFreq>, p: nat, q: nat)
    requires Ascending(syms, 2) && p <= q < |syms| && syms[p].sym < 65536 && syms[q].sym < 65536
    ensures syms[p].key <= syms[q].key
  {
    assert p < q ==> Rank(syms[p], 2) < Rank(syms[q], 2);
  }

  lemma AssignedOrder(t: seq<nat>, syms: seq<SymFreq>, counts: seq<nat>, i: nat, k: nat, l: nat)
    requires Lists(syms, counts) && Ascending(syms, 2) && |t| == |counts| && |counts| <= 65536 &&
             Assigned(t, syms, 0, i)
    requires k < |counts| && l < |counts| && 0 < counts[k] < counts[l]
    ensures t[l] <= t[k]
  {
    var p := Position(syms, counts, k);
    var q := Position(syms, counts, l);
    KeysAscend(syms, if q < p then q else p, if q < p then p else q);
  }

  lemma AssignedUse(t: seq<nat>, syms: seq<SymFreq>, counts: seq<nat>, i: nat, k: nat)
    requires Lists(syms, counts) && |t| == |counts| && Assigned(t, syms, 0, i) && k < |t|
    ensures t[k] <= i && (t[k] > 0 <==> counts[k] > 0)
  {
    if counts[k] > 0 { var p := Position(syms, counts, k); }
    if t[k] > 0 { assert InUse(syms, k); }
  }

  /** One code at most: nothing can go wrong. */
  lemma {:induction false} SingleUsed(s: seq<nat>, l: nat)
    requires l >= 1 && Below(s, l) <= 1
    ensures FirstCode(s, l) + Count(s, l) <= (if Below(s, l) == 0 then 0 else Pow2(l - 1))
  {
    BelowNext(s, l);
    if l > 1 { SingleUsed(s, l - 1); } else { BelowZero(s); }
  }

  lemma {:induction false} BelowUsed(s: seq<nat>, l: nat)
    ensures Below(s, l) <= |s| - Count(s, 0)
  {
    if s != [] { BelowUsed(s[..|s| - 1], l); }
  }

  lemma SingleFits(s: seq<nat>)
    requires Lengths(s) && |s| - Count(s, 0) <= 1
    ensures Fits(s)
  {
    var l: nat := 16;
    BelowUsed(s, l);
    SingleUsed(s, l);
    Pow2Mono(l - 1, l);
  }

  /** The list of used symbols and their number. */
  method CollectUsed(counts: array<nat>, tableLen: nat, syms: array<SymFreq>) returns (n: nat)
    requires tableLen <= counts.Length && tableLen <= syms.Length
    modifies syms
    ensures n <= tableLen && syms[..n] == UsedSyms(counts[..tableLen])
  {
    ghost var c := counts[..tableLen];
    n := 0;
    assert c[..0] == [];
    for i := 0 to tableLen
      invariant n <= i && syms[..n] == UsedSyms(c[..i])
    {
      assert c[..i + 1][..i] == c[..i];
      if counts[i] != 0 {
        ghost var s := syms[..n];
        syms[n] := SymFreq(counts[i], i);
        n := n + 1;
        assert syms[..n] == s + [SymFreq(c[i], i)];
      } else {
        assert UsedSyms(c[..i]) + [] == UsedSyms(c[..i]);
      }
    }
    assert c[..tableLen] == c;
  }

  /** The code lengths, before limiting, of the sorted symbols. */
  method SymbolLengths(sorted: array<SymFreq>, n: nat, ghost counts: seq<nat>) returns (keys: array<nat>)
    requires n <= sorted.Length && n <= 65536 && Lists(sorted[..n], counts) && Ascending(sorted[..n], 2)
    requires forall p | 0 <= p < n :: sorted[p].sym < 65536
    requires KeySum(sorted[..n]) < 65536
    ensures fresh(keys) && keys.Length == n
    ensures n == 1 ==> keys[..] == [1]
    ensures n >= 2 ==> MinRedundancy.MinimalCode(Keys(sorted[..n]), keys[..])
  {
    ghost var s := sorted[..n];
    keys := new nat[n](i requires 0 <= i < n reads sorted => sorted[i].key);
    assert keys[..] == Keys(s);
    KeysSum(s);
    forall p: nat, q: nat | p <= q < n ensures s[p].key <= s[q].key { KeysAscend(s, p, q); }
    MinRedundancy.CalculateMinimumRedundancy(keys, n);
  }

  lemma LengthsUsable(keys: seq<nat>, w: seq<nat>, nc: seq<int>)
    requires |nc| == 33 && Tally(nc, keys, 32)
    requires |keys| == 1 ==> keys == [1]
    requires |keys| >= 2 ==> MinRedundancy.MinimalCode(w, keys)
    requires forall k | 0 <= k < |keys| :: 1 <= keys[k] <= 32
    ensures LengthLimit.Codes(nc, 32) == |keys|
    ensures |keys| > 1 ==> LengthLimit.Used(nc, 32) == Pow2(32)
  {
    var top: nat := 32;
    TallyCodes(keys, top, nc);
    BelowAll(keys, top);
    if |keys| > 1 {
      KraftIsUsed(keys, top);
      TallyUsed(nc, keys, top, top);
    }
  }

  /** The symbols in use, sorted by count. */
  method SortUsed(counts: array<nat>, tableLen: nat) returns (sorted: array<SymFreq>, n: nat)
    requires tableLen <= counts.Length && tableLen <= 288 && HuffmanTree.Sum(counts[..tableLen]) < 65536
    ensures fresh(sorted) && n <= tableLen && n <= sorted.Length
    ensures Lists(sorted[..n], counts[..tableLen]) && Ascending(sorted[..n], 2) && Distinct(sorted[..n])
    ensures KeySum(sorted[..n]) < 65536 && multiset(sorted[..n]) == multiset(UsedSyms(counts[..tableLen]))
  {
    var syms0 := new SymFreq[288](_ => SymFreq(0, 0));
    var syms1 := new SymFreq[288](_ => SymFreq(0, 0));
    n := CollectUsed(counts, tableLen, syms0);
    ghost var c, u := counts[..tableLen], syms0[..n];
    UsedReady(c);
    sorted := RadixSortSyms(n, syms0, syms1);
    SortedReady(c, u, sorted[..n]);
  }

  // ----- where the lengths of a minimum-redundancy code stand

  lemma {:induction false} BelowSuffix(s: seq<nat>, l: nat, p: nat)
    requires p <= |s| && forall q | p <= q < |s| :: 1 <= s[q] <= l
    ensures Below(s, l) >= |s| - p
  {
    if p < |s| { BelowSuffix(s[..|s| - 1], l, p); }
  }

  lemma {:induction false} BelowPrefix(s: seq<nat>, l: nat, p: nat)
    requires p <= |s| && forall q | 0 <= q < p :: s[q] > l
    ensures Below(s, l) <= |s| - p
  {
    if p < |s| {
      BelowPrefix(s[..|s| - 1], l, p);
    } else if p > 0 {
      BelowPrefix(s[..p - 1], l, p - 1);
    }
  }

  lemma LaidSorted(s: seq<nat>, nc: seq<int>)
    requires Tally(nc, s, 32) && (forall p | 0 <= p < |s| :: 1 <= s[p]) &&
             forall p, q | 0 <= p <= q < |s| :: s[p] >= s[q]
    ensures LimitCost.Laid(s, nc, 32)
  {
    forall p: nat, l: nat | p < |s| && l <= 32 ensures LimitCost.LaidAt(s, nc, p, l) {
      TallyCodes(s, l, nc);
      if s[p] <= l { BelowSuffix(s, l, p); } else { BelowPrefix(s, l, p + 1); }
    }
  }

  /**
   * The lengths len of a minimum-redundancy code for the weights w, counted by nc, and what limiting made of the
   * counts.
   */
  ghost predicate LimitedFrom(w: seq<nat>, len: seq<nat>, nc: seq<int>, c: seq<int>, n: nat, limit: nat, low: nat) {
    MinRedundancy.MinimalCode(w, len) && LimitCost.Laid(len, nc, 32) && LengthLimit.NonNegative(nc) &&
    LengthLimit.Codes(nc, 32) == n && LengthLimit.Limited(nc, c, n, limit, low)
  }

  lemma LaidMinimal(w: seq<nat>, len: seq<nat>, nc: seq<int>)
    requires MinRedundancy.MinimalCode(w, len) && Tally(nc, len, 32)
    ensures LimitCost.Laid(len, nc, 32)
  {
    LaidSorted(len, nc);
  }

  /** How many codes of every length, with the limit enforced. */
  method LimitedLengths(sorted: array<SymFreq>, n: nat, limit: nat, ghost c: seq<nat>)
      returns (nc: array<int>, ghost len: seq<nat>, ghost before: seq<int>, ghost low: nat)
    requires n <= sorted.Length && n <= |c| <= 288 && 1 <= limit <= MAX_LEN && n <= Pow2(limit)
    requires Lists(sorted[..n], c) && Ascending(sorted[..n], 2) && KeySum(sorted[..n]) < 65536
    ensures fresh(nc) && nc.Length == 33 && LengthLimit.NonNegative(nc[..]) && LengthLimit.Codes(nc[..], limit) == n
    ensures n > 1 ==> LengthLimit.Used(nc[..], limit) == Pow2(limit)
    ensures n > 1 ==> LimitedFrom(Keys(sorted[..n]), len, before, nc[..], n, limit, low)
    ensures n == 1 ==> LengthLimit.Codes(nc[..], 1) == 1
  {
    ghost var w := Keys(sorted[..n]);
    var keys := SymbolLengths(sorted, n, c);
    len := keys[..];
    KeysRange(w, len);
    assert keys[..n] == len;
    nc := CountLengths(keys, n);
    before := nc[..];
    if n > 1 { LaidMinimal(w, len, before); }
    LengthsUsable(len, w, before);
    low := LengthLimit.EnforceMaxCodeSize(nc, n, limit);
    if n <= 1 {
      OneCode(len, before, limit);
      OneCode(len, before, 1);
    }
  }

  method Clear(a: array<nat>)
    modifies a
    ensures forall k | 0 <= k < a.Length :: a[k] == 0
  {
    for k := 0 to a.Length
      invariant forall j | 0 <= j < k :: a[j] == 0
    {
      a[k] := 0;
    }
  }

  lemma ListsBelow(sorted: array<SymFreq>, n: nat, c: seq<nat>)
    requires n <= sorted.Length && Lists(sorted[..n], c)
    ensures forall p | 0 <= p < n :: sorted[p].sym < |c|
  {
    forall p | 0 <= p < n ensures sorted[p].sym < |c| { assert sorted[..n][p] == sorted[p]; }
  }

  lemma RestZero(a: array<nat>, n: nat, rest: seq<nat>)
    requires n <= a.Length && a[n..] == rest && forall k | 0 <= k < |rest| :: rest[k] == 0
    ensures forall k | n <= k < a.Length :: a[k] == 0
  {
    forall k | n <= k < a.Length ensures a[k] == 0 { assert a[k] == rest[k - n]; }
  }

  /** Clears the old lengths and hands out the new ones. */
  method SetSizes(nc: array<int>, sorted: array<SymFreq>, n: nat, sizes: array<nat>, tableLen: nat, limit: nat,
      ghost c: seq<nat>)
    requires nc.Length == 33 && LengthLimit.NonNegative(nc[..]) && n <= sorted.Length && tableLen <= sizes.Length
    requires 1 <= limit <= MAX_LEN && LengthLimit.Codes(nc[..], limit) == n
    requires n > 1 ==> LengthLimit.Used(nc[..], limit) == Pow2(limit)
    requires |c| == tableLen <= 288 && Lists(sorted[..n], c) && Ascending(sorted[..n], 2) && Distinct(sorted[..n])
    modifies sizes
    ensures Tally(nc[..], sizes[..tableLen], limit) && SizesGood(c, sizes[..tableLen], limit)
    ensures LimitCost.Laid(SizesOf(sorted[..n], sizes[..tableLen]), nc[..], limit)
    ensures forall k | tableLen <= k < sizes.Length :: sizes[k] == 0
  {
    hide SizesGood, Tally, Assigned, LaidFrom, Distinct, Lists, Ascending, Complete, Fits, LimitCost.Laid,
         LengthLimit.Codes, LengthLimit.NonNegative;
    ListsBelow(sorted, n, c);
    Clear(sizes);
    ghost var rest := sizes[tableLen..];
    HandOutLengths(nc, sorted, n, sizes, tableLen, limit);
    RestZero(sizes, tableLen, rest);
    SizesAreGood(c, sorted[..n], sizes[..tableLen], nc[..], n, limit);
    LaidAll(sizes[..tableLen], sorted[..n], nc[..], limit);
  }

  /** From symbol counts to code lengths within the limit. */
  method BuildSizes(counts: array<nat>, sizes: array<nat>, tableLen: nat, limit: nat) returns (nc: array<int>)
    requires counts != sizes && tableLen <= counts.Length && tableLen <= sizes.Length && tableLen <= 288
    requires 1 <= limit <= MAX_LEN && tableLen <= Pow2(limit)
    requires HuffmanTree.Sum(counts[..tableLen]) < 65536
    modifies sizes
    ensures fresh(nc) && nc.Length == 33
    ensures Tally(nc[..], sizes[..tableLen], limit)
    ensures SizesGood(counts[..tableLen], sizes[..tableLen], limit)
    ensures limit == LimitCost.LIMIT ==> NearMinimal(counts[..tableLen], sizes[..tableLen])
    ensures forall k | tableLen <= k < sizes.Length :: sizes[k] == 0
  {
    ghost var c := counts[..tableLen];
    var sorted, n := SortUsed(counts, tableLen);
    ghost var len, before, low;
    nc, len, before, low := LimitedLengths(sorted, n, limit, c);
    SetSizes(nc, sorted, n, sizes, tableLen, limit, c);
    if limit == LimitCost.LIMIT { SizesNear(sorted[..n], c, sizes[..tableLen], len, before, nc[..], low); }
  }

  lemma SizesNear(s: seq<SymFreq>, c: seq<nat>, t: seq<nat>, len: seq<nat>, before: seq<int>, nc: seq<int>, low: nat)
    requires Lists(s, c) && multiset(s) == multiset(UsedSyms(c)) && |t| == |c| <= 288
    requires LengthLimit.NonNegative(nc) && |nc| == 33 && LengthLimit.Codes(nc, LimitCost.LIMIT) == |s|
    requires |s| > 1 ==> LimitedFrom(Keys(s), len, before, nc, |s|, LimitCost.LIMIT, low)
    requires |s| == 1 ==> LengthLimit.Codes(nc, 1) == 1
    requires SizesGood(c, t, LimitCost.LIMIT) && LimitCost.Laid(SizesOf(s, t), nc, LimitCost.LIMIT)
    ensures NearMinimal(c, t)
  {
    var l := SizesOf(s, t);
    forall p | 0 <= p < |l| ensures l[p] <= LimitCost.LIMIT { assert l[p] == t[s[p].sym]; }
    if |s| == 1 {
      assert LimitCost.LaidAt(l, nc, 0, 1);
      assert c[s[0].sym] > 0;
      assert l == [1];
    }
    LimitedNear(s, c, t, len, before, nc, low);
  }

  /** The part of a good table that does not mention codes. */
  ghost predicate SizesGood(counts: seq<nat>, sizes: seq<nat>, limit: nat) {
    |sizes| == |counts| &&
    (forall k | 0 <= k < |sizes| :: sizes[k] <= limit && (sizes[k] > 0 <==> counts[k] > 0)) &&
    (Complete(sizes) || |sizes| - Count(sizes, 0) <= 1) && Fits(sizes) &&
    (forall k, l | 0 <= k < |counts| && 0 <= l < |counts| && 0 < counts[k] < counts[l] :: sizes[l] <= sizes[k])
  }

  lemma UsedReady(c: seq<nat>)
    requires |c| <= 288 && HuffmanTree.Sum(c) < 65536
    ensures AllInRange(UsedSyms(c)) && Ascending(UsedSyms(c), 0) && KeySum(UsedSyms(c)) < 65536
  {
    UsedSymsLists(c);
    UsedSymsSum(c);
    forall k: nat | k < |c| ensures c[k] < 65536 { MinRedundancy.SumBounds(c, k); }
  }

  lemma SortedReady(c: seq<nat>, u: seq<SymFreq>, s: seq<SymFreq>)
    requires |c| <= 288 && u == UsedSyms(c) && multiset(s) == multiset(u) && Ascending(s, 2) && KeySum(u) < 65536
    ensures Lists(s, c) && Distinct(s) && KeySum(s) < 65536
  {
    UsedSymsLists(c);
    ListsPermuted(u, s, c);
    SortedDistinct(s, c);
    KeySumPermuted(u, s);
  }

  lemma KeysRange(w: seq<nat>, keys: seq<nat>)
    requires |keys| == 1 ==> keys == [1]
    requires |keys| >= 2 ==> MinRedundancy.MinimalCode(w, keys)
    ensures forall k | 0 <= k < |keys| :: 1 <= keys[k] <= 32
  {
  }

  lemma OneCode(keys: seq<nat>, nc: seq<int>, limit: nat)
    requires |nc| == 33 && Tally(nc, keys, 32) && 1 <= limit <= 32 && (keys == [] || keys == [1])
    ensures LengthLimit.Codes(nc, limit) == |keys|
  {
    TallyCodes(keys, limit, nc);
    BelowAll(keys, limit);
  }

  lemma SizesAreGood(c: seq<nat>, s: seq<SymFreq>, t: seq<nat>, nc: seq<int>, n: nat, limit: nat)
    requires |t| == |c| <= 288 && Lists(s, c) && Ascending(s, 2) && Assigned(t, s, 0, limit) && |s| == n
    requires 1 <= limit <= MAX_LEN && Tally(nc, t, limit) && LengthLimit.Codes(nc, limit) == n
    requires n > 1 ==> LengthLimit.Used(nc, limit) == Pow2(limit)
    ensures SizesGood(c, t, limit)
  {
    forall k: nat | k < |t| ensures t[k] <= limit && (t[k] > 0 <==> c[k] > 0) { AssignedUse(t, s, c, limit, k); }
    forall k: nat, l: nat | k < |c| && l < |c| && 0 < c[k] < c[l] ensures t[l] <= t[k] {
      AssignedOrder(t, s, c, limit, k, l);
    }
    if n > 1 {
      TallyComplete(nc, t, limit);
    } else {
      TallyCodes(t, limit, nc);
      BelowIsUsed(t, limit);
      SingleFits(t);
    }
  }

  lemma {:induction false} BelowIsUsed(s: seq<nat>, l: nat)
    requires forall i | 0 <= i < |s| :: s[i] <= l
    ensures Below(s, l) == |s| - Count(s, 0)
  {
    if s != [] { BelowIsUsed(s[..|s| - 1], l); }
  }

  /** The table for the symbol counts of a dynamic block. */
  method OptimizeHuffmanTable(counts: array<nat>, sizes: array<nat>, codes: array<nat>, tableLen: nat, limit: nat)
    requires counts != sizes && sizes != codes && counts != codes
    requires tableLen <= counts.Length && tableLen <= sizes.Length && tableLen <= codes.Length && tableLen <= 288
    requires 1 <= limit <= MAX_LEN && tableLen <= Pow2(limit)
    requires HuffmanTree.Sum(counts[..tableLen]) < 65536
    modifies sizes, codes
    ensures GoodTable(counts[..tableLen], sizes[..tableLen], codes[..tableLen], limit)
    ensures limit == LimitCost.LIMIT ==> NearMinimal(counts[..tableLen], sizes[..tableLen])
    ensures forall k | tableLen <= k < sizes.Length :: sizes[k] == 0
  {
    var nc := BuildSizes(counts, sizes, tableLen, limit);
    Clear(codes);
    AssignCodes(nc, sizes, codes, tableLen, limit);
  }
}
