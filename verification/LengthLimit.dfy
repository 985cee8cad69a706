/** Limiting Huffman code lengths (miniz tdefl_huffman_enforce_max_code_size). */
module LengthLimit {
  import opened Bits

  const MAX_SUPPORTED: nat := 32

  ghost predicate NonNegative(nc: seq<int>) {
    forall i | 0 <= i < |nc| :: nc[i] >= 0
  }

  /** How much of the space of i-bit strings codes of up to i bits take up; nc[l] is the number of codes of length l. */
  function Used(nc: seq<int>, i: nat): int
    requires i < |nc|
  {
    if i == 0 then 0 else 2 * Used(nc, i - 1) + nc[i]
  }

  /** The number of codes of length up to i. */
  function Codes(nc: seq<int>, i: nat): int
    requires i < |nc|
  {
    if i == 0 then 0 else Codes(nc, i - 1) + nc[i]
  }

  lemma {:induction false} Frame(nc: seq<int>, nc': seq<int>, i: nat)
    requires i < |nc| == |nc'| && forall k | 1 <= k <= i :: nc[k] == nc'[k]
    ensures Used(nc, i) == Used(nc', i) && Codes(nc, i) == Codes(nc', i)
  {
    if i > 0 { Frame(nc, nc', i - 1); }
  }

  lemma {:induction false} UsedNonNegative(nc: seq<int>, i: nat)
    requires i < |nc| && NonNegative(nc)
    ensures Used(nc, i) >= 0 && Codes(nc, i) >= 0
  {
    if i > 0 { UsedNonNegative(nc, i - 1); }
  }

  /** With no shorter codes the longest ones are all there is. */
  lemma {:induction false} UsedZero(nc: seq<int>, i: nat)
    requires i < |nc| && forall k | 1 <= k <= i :: nc[k] == 0
    ensures Used(nc, i) == 0 && Codes(nc, i) == 0
  {
    if i > 0 { UsedZero(nc, i - 1); }
  }

  lemma {:induction false} UsedGrows(nc: seq<int>, i: nat, j: nat)
    requires i <= j < |nc| && NonNegative(nc)
    ensures Used(nc, i) >= 0 && Used(nc, j) >= Shl(Used(nc, i), j - i)
  {
    UsedNonNegative(nc, i);
    if i < j { UsedGrows(nc, i, j - 1); }
  }

  lemma ShlAtLeast(a: nat, c: nat, k: nat)
    ensures Shl(a + c, k) >= Shl(a, k) + c
  {
    ShlAdd(a, c, k);
    ShlPow2(0, k);
    ShlSelf(c, k);
  }

  lemma {:induction false} ShlSelf(c: nat, k: nat)
    ensures Shl(c, k) >= c
  {
    if k > 0 { ShlSelf(c, k - 1); }
  }

  /** Shortening every long code to length m can only use up more space. */
  lemma {:induction false} FoldedUsesMore(nc: seq<int>, m: nat, j: nat)
    requires m <= j < |nc| && NonNegative(nc)
    ensures Used(nc, m) + Codes(nc, j) - Codes(nc, m) >= 0
    ensures Used(nc, j) <= Shl(Used(nc, m) + Codes(nc, j) - Codes(nc, m), j - m)
  {
    UsedNonNegative(nc, m);
    if m < j {
      FoldedUsesMore(nc, m, j - 1);
      ShlAtLeast(Used(nc, m) + Codes(nc, j - 1) - Codes(nc, m), nc[j], j - m);
    }
  }

  /** A complete code folded at m: enough space is used in all, and not too much by the shorter codes. */
  lemma FoldedBounds(nc: seq<int>, m: nat, j: nat)
    requires 1 <= m <= j < |nc| && NonNegative(nc) && Used(nc, j) == Pow2(j)
    ensures Used(nc, m) + Codes(nc, j) - Codes(nc, m) >= Pow2(m)
    ensures 2 * Used(nc, m - 1) <= Pow2(m)
  {
    FoldedUsesMore(nc, m, j);
    UsedGrows(nc, m - 1, j);
    var a, b, p, q := Used(nc, m) + Codes(nc, j) - Codes(nc, m), Used(nc, m - 1), Pow2(m), Pow2(m - 1);
    ShlPow2(m, j - m);
    ShlPow2(m - 1, j - m + 1);
    ShlMono(p, a, j - m);
    ShlMono(b, q, j - m + 1);
  }

  /** Splitting a code of length i into two of length i + 1 keeps the space used, and adds a code. */
  lemma {:induction false} SplitCode(nc: seq<int>, nc': seq<int>, i: nat, j: nat)
    requires 1 <= i && i + 1 < |nc| && j < |nc| && nc' == nc[i := nc[i] - 1][i + 1 := nc[i + 1] + 2]
    ensures Used(nc', j) == if j == i then Used(nc, j) - 1 else Used(nc, j)
    ensures Codes(nc', j) == if j < i then Codes(nc, j) else if j == i then Codes(nc, j) - 1 else Codes(nc, j) + 1
  {
    if j > 0 { SplitCode(nc, nc', i, j - 1); }
  }

  lemma DropCode(nc: seq<int>, nc': seq<int>, m: nat)
    requires 1 <= m < |nc| && nc' == nc[m := nc[m] - 1]
    ensures Used(nc', m) == Used(nc, m) - 1 && Codes(nc', m) == Codes(nc, m) - 1
    ensures Used(nc', m - 1) == Used(nc, m - 1)
  {
    Frame(nc, nc', m - 1);
  }

  /** What holds between steps: n codes, none longer than m, that use at least all the space. */
  ghost predicate Limiting(nc: seq<int>, n: nat, m: nat) {
    1 <= m < |nc| && NonNegative(nc) && Codes(nc, m) == n && n <= Pow2(m) &&
    Used(nc, m) >= Pow2(m) && 2 * Used(nc, m - 1) <= Pow2(m)
  }

  /** A long code can be dropped and a shorter one split as long as too much space is used. */
  lemma CanStep(nc: seq<int>, n: nat, m: nat)
    requires Limiting(nc, n, m) && Used(nc, m) != Pow2(m)
    ensures nc[m] > 0 && exists i :: 1 <= i < m && nc[i] > 0
  {
    if forall i | 1 <= i < m :: nc[i] == 0 { UsedZero(nc, m - 1); }
  }

  lemma StepKeeps(nc: seq<int>, n: nat, m: nat, i: nat)
    requires Limiting(nc, n, m) && Used(nc, m) != Pow2(m) && 1 <= i < m && nc[i] > 0 && nc[m] > 0
    ensures var dropped := nc[m := nc[m] - 1];
            var nc' := dropped[i := dropped[i] - 1][i + 1 := dropped[i + 1] + 2];
            Limiting(nc', n, m) && Used(nc', m) == Used(nc, m) - 1
  {
    var dropped := nc[m := nc[m] - 1];
    var nc' := dropped[i := dropped[i] - 1][i + 1 := dropped[i + 1] + 2];
    DropCode(nc, dropped, m);
    SplitCode(dropped, nc', i, m);
    SplitCode(dropped, nc', i, m - 1);
  }

  // ----- what limiting costs

  /** How many codes of the longest length can be made of one that is k bits shorter, besides itself. */
  function Unit(k: nat): (u: nat)
    ensures u + 1 == Pow2(k)
  {
    Pow2(k) - 1
  }

  /** The same for all codes of up to i bits. */
  function Spare(nc: seq<int>, i: nat, m: nat): int
    requires i <= m && i < |nc|
  {
    Used(nc, i) * Pow2(m - i) - Codes(nc, i)
  }

  lemma SpareNext(nc: seq<int>, i: nat, m: nat)
    requires 1 <= i <= m && i < |nc|
    ensures Spare(nc, i, m) == Spare(nc, i - 1, m) + nc[i] * Unit(m - i)
  {
    var p := Pow2(m - i);
    assert Pow2(m - (i - 1)) == 2 * p;
    Expand(Used(nc, i - 1), nc[i], p);
  }

  lemma Expand(u: int, x: int, p: nat)
    ensures (2 * u + x) * p == u * (2 * p) + x * (p - 1) + x
  {
  }

  /** Lengths of which there are no codes spare nothing. */
  lemma {:induction false} SpareSame(nc: seq<int>, i: nat, j: nat, m: nat)
    requires i <= j <= m && j < |nc| && forall l | i < l <= j :: nc[l] == 0
    ensures Spare(nc, j, m) == Spare(nc, i, m)
  {
    if i < j {
      SpareNext(nc, j, m);
      SpareSame(nc, i, j - 1, m);
    }
  }

  lemma SpareFrame(nc: seq<int>, nc': seq<int>, i: nat, m: nat)
    requires i <= m && i < |nc| == |nc'| && forall k | 1 <= k <= i :: nc[k] == nc'[k]
    ensures Spare(nc, i, m) == Spare(nc', i, m)
  {
    Frame(nc, nc', i);
  }

  /** Nothing of length i to m, other than length i and m: what all codes spare. */
  lemma SpareAll(nc: seq<int>, i: nat, m: nat)
    requires 1 <= i < m < |nc| && forall l | i < l < m :: nc[l] == 0
    ensures Spare(nc, m, m) == Spare(nc, i - 1, m) + nc[i] * Unit(m - i)
  {
    SpareNext(nc, m, m);
    assert Unit(m - m) == 0;
    SpareSame(nc, i, m - 1, m);
    SpareNext(nc, i, m);
  }

  /**
   * The folded counts c0 have become c by splitting codes of length low and longer ones, the longer
   * ones first: what was given up on the way is no more than was needed, but for the last code split.
   */
  ghost predicate Demoted(c0: seq<int>, c: seq<int>, n: nat, m: nat, low: nat) {
    |c| == |c0| && 1 <= low <= m < |c0| &&
    (forall l | 1 <= l < low :: c[l] == c0[l]) &&
    (low < m ==>
       c[low] < c0[low] && Pow2(m - low) < n && Spare(c, m, m) < Spare(c0, low - 1, m) + (c[low] + 1) * Unit(m - low))
  }

  /** The code picked for splitting is not much shorter than the limit, or too many codes would be at the limit. */
  lemma PickDeep(c: seq<int>, n: nat, m: nat, i: nat)
    requires Limiting(c, n, m) && Used(c, m) > Pow2(m) && 2 * Used(c, m - 1) < Pow2(m)
    requires 1 <= i < m && forall l | i < l < m :: c[l] == 0
    ensures Pow2(m - i) < n
  {
    UsedShift(c, i, m - 1);
    UsedNonNegative(c, m - 1);
    UsedNonNegative(c, i);
    Pow2Add(i, m - i);
    var u, p := Used(c, i), Pow2(m - i);
    assert Pow2(m - i) == 2 * Pow2(m - 1 - i);
    Double(u, Pow2(m - 1 - i), p);
    RoomLeft(u, Pow2(i), p);
  }

  lemma {:induction false} UsedShift(c: seq<int>, i: nat, j: nat)
    requires i <= j < |c| && forall l | i < l <= j :: c[l] == 0
    ensures Used(c, j) == Used(c, i) * Pow2(j - i)
  {
    if i < j {
      UsedShift(c, i, j - 1);
      Double(Used(c, i), Pow2(j - 1 - i), Pow2(j - i));
    }
  }

  lemma Double(u: int, p: nat, q: nat)
    requires q == 2 * p
    ensures 2 * (u * p) == u * q
  {
  }

  lemma {:induction false} Pow2Add(a: nat, b: nat)
    ensures Pow2(a + b) == Pow2(a) * Pow2(b)
  {
    if b > 0 {
      Pow2Add(a, b - 1);
      Double(Pow2(a), Pow2(b - 1), Pow2(b));
    }
  }

  lemma RoomLeft(u: int, a: nat, p: nat)
    requires u * p < a * p
    ensures u * p <= a * p - p
  {
    if u >= a { Mono(a, u, p); }
    Mono(u + 1, a, p);
  }

  lemma Mono(a: int, b: int, p: nat)
    requires a <= b
    ensures a * p <= b * p
  {
  }

  /** Splitting the longest code below the limit keeps the account. */
  lemma DemoteStep(c0: seq<int>, c: seq<int>, c': seq<int>, n: nat, m: nat, low: nat, i: nat)
    requires Demoted(c0, c, n, m, low) && 1 <= i < m && (forall l | i < l < m :: c[l] == 0) && Pow2(m - i) < n
    requires c' == c[m := c[m] - 1][i := c[i] - 1][i + 1 := (if i + 1 == m then c[m] - 1 else c[i + 1]) + 2]
    requires Spare(c', m, m) == Spare(c, m, m) - 1
    ensures Demoted(c0, c', n, m, if i < low then i else low)
  {
    if i <= low {
      SpareAll(c, i, m);
      SpareFrame(c0, c, i - 1, m);
    }
  }

  /** Moves all codes longer than maxSize to length maxSize. */
  method FoldLongCodes(nc: array<int>, maxSize: nat)
    requires nc.Length == MAX_SUPPORTED + 1 && 1 <= maxSize <= MAX_SUPPORTED && NonNegative(nc[..])
    modifies nc
    ensures NonNegative(nc[..]) && forall i | 0 <= i < nc.Length && i != maxSize :: nc[i] == old(nc[i])
    ensures nc[maxSize] == old(nc[maxSize]) + Codes(old(nc[..]), MAX_SUPPORTED) - Codes(old(nc[..]), maxSize)
  {
    ghost var s := nc[..];
    for i := maxSize + 1 to MAX_SUPPORTED + 1
      invariant NonNegative(nc[..]) && forall k | 0 <= k < nc.Length && k != maxSize :: nc[k] == s[k]
      invariant nc[maxSize] == s[maxSize] + Codes(s, i - 1) - Codes(s, maxSize)
    {
      nc[maxSize] := nc[maxSize] + nc[i];
    }
  }

  /** The space used by codes of up to maxSize bits, summed from the longest down. */
  method Total(nc: array<int>, maxSize: nat) returns (total: nat)
    requires 1 <= maxSize < nc.Length && NonNegative(nc[..])
    ensures total == Used(nc[..], maxSize)
  {
    total := 0;
    var i := maxSize;
    UsedNonNegative(nc[..], i);
    while i > 0
      invariant 0 <= i <= maxSize && Used(nc[..], i) >= 0
      invariant total + Shl(Used(nc[..], i), maxSize - i) == Used(nc[..], maxSize)
    {
      UsedNonNegative(nc[..], i - 1);
      ShlAdd(2 * Used(nc[..], i - 1), nc[i], maxSize - i);
      ShlDouble(Used(nc[..], i - 1), maxSize - i);
      total := total + Shl(nc[i], maxSize - i);
      i := i - 1;
    }
    ShlZero(maxSize);
  }

  lemma {:induction false} ShlDouble(a: nat, k: nat)
    ensures Shl(2 * a, k) == Shl(a, k + 1)
  {
    if k > 0 { ShlDouble(a, k - 1); }
  }

  lemma {:induction false} ShlZero(k: nat)
    ensures Shl(0, k) == 0
  {
    if k > 0 { ShlZero(k - 1); }
  }

  lemma {:induction false} CodesAtLeast(nc: seq<int>, i: nat)
    requires 1 <= i < |nc| && NonNegative(nc)
    ensures nc[i] <= Codes(nc, i)
  {
    UsedNonNegative(nc, i - 1);
  }

  /** What is known while too much space is used: the shorter codes do not use all of it by themselves. */
  ghost predicate Crowded(nc: seq<int>, n: nat, m: nat) {
    Limiting(nc, n, m) && (Used(nc, m) != Pow2(m) ==> 2 * Used(nc, m - 1) < Pow2(m))
  }

  lemma CrowdedKeeps(nc: seq<int>, n: nat, m: nat, i: nat)
    requires Crowded(nc, n, m) && Used(nc, m) != Pow2(m) && 1 <= i < m && nc[i] > 0 && nc[m] > 0
    ensures var dropped := nc[m := nc[m] - 1];
            var nc' := dropped[i := dropped[i] - 1][i + 1 := dropped[i + 1] + 2];
            Crowded(nc', n, m) && Used(nc', m) == Used(nc, m) - 1 && Spare(nc', m, m) == Spare(nc, m, m) - 1
  {
    StepKeeps(nc, n, m, i);
    var dropped := nc[m := nc[m] - 1];
    var nc' := dropped[i := dropped[i] - 1][i + 1 := dropped[i + 1] + 2];
    DropCode(nc, dropped, m);
    SplitCode(dropped, nc', i, m - 1);
    assert Pow2(m - m) == 1;
  }

  /** The longest code shorter than maxSize is split. */
  method SplitLongest(nc: array<int>, maxSize: nat) returns (ghost i: nat)
    requires nc.Length == MAX_SUPPORTED + 1 && 1 <= maxSize <= MAX_SUPPORTED
    requires exists k :: 1 <= k < maxSize && nc[k] > 0
    requires NonNegative(nc[..])
    modifies nc
    ensures 1 <= i < maxSize && old(nc[..])[i] > 0 && forall l | i < l < maxSize :: old(nc[..])[l] == 0
    ensures nc[..] == old(nc[..])[i := old(nc[..])[i] - 1][i + 1 := old(nc[..])[i + 1] + 2]
  {
    ghost var c := nc[..];
    var k := maxSize - 1;
    while k > 0
      invariant 0 <= k < maxSize && nc[..] == c && (forall l | k < l < maxSize :: c[l] == 0)
      invariant exists j :: 1 <= j <= k && c[j] > 0
    {
      if nc[k] != 0 {
        nc[k] := nc[k] - 1;
        nc[k + 1] := nc[k + 1] + 2;
        break;
      }
      k := k - 1;
    }
    i := k;
  }

  /** One step: drops a code of the longest length and splits the longest shorter one. */
  method LimitStep(nc: array<int>, maxSize: nat, ghost n: nat, ghost c0: seq<int>, ghost low: nat)
      returns (ghost low': nat)
    requires nc.Length == MAX_SUPPORTED + 1 && Crowded(nc[..], n, maxSize) && maxSize <= MAX_SUPPORTED
    requires Used(nc[..], maxSize) != Pow2(maxSize) && Demoted(c0, nc[..], n, maxSize, low)
    modifies nc
    ensures Crowded(nc[..], n, maxSize) && Used(nc[..], maxSize) == old(Used(nc[..], maxSize)) - 1
    ensures Demoted(c0, nc[..], n, maxSize, low')
  {
    ghost var c := nc[..];
    CanStep(c, n, maxSize);
    nc[maxSize] := nc[maxSize] - 1;
    ghost var dropped := nc[..];
    assert dropped == c[maxSize := c[maxSize] - 1];
    assert forall k | 1 <= k < maxSize :: nc[k] == c[k];
    ghost var i := SplitLongest(nc, maxSize);
    assert forall l | i < l < maxSize :: dropped[l] == c[l];
    CrowdedKeeps(c, n, maxSize, i);
    PickDeep(c, n, maxSize, i);
    DemoteStep(c0, c, nc[..], n, maxSize, low, i);
    low' := if i < low then i else low;
  }

  /** Codes that alone fill all space leave none for longer ones. */
  lemma {:induction false} UsedGrowsMore(nc: seq<int>, i: nat, j: nat)
    requires i <= j < |nc| && NonNegative(nc)
    ensures Used(nc, i) >= 0 && Used(nc, j) >= Shl(Used(nc, i), j - i) + Codes(nc, j) - Codes(nc, i)
  {
    UsedNonNegative(nc, i);
    if i < j {
      UsedGrowsMore(nc, i, j - 1);
      UsedNonNegative(nc, j - 1);
      CodesOrdered(nc, i, j - 1);
    }
  }

  lemma {:induction false} CodesOrdered(nc: seq<int>, i: nat, j: nat)
    requires i <= j < |nc| && NonNegative(nc)
    ensures Codes(nc, i) <= Codes(nc, j)
  {
    if i < j { CodesOrdered(nc, i, j - 1); }
  }

  /** Folding a complete code. */
  lemma FoldedCrowded(s: seq<int>, c: seq<int>, n: nat, m: nat, top: nat)
    requires 1 <= m <= top < |s| == |c| && NonNegative(s) && Used(s, top) == Pow2(top) && Codes(s, top) == n <= Pow2(m)
    requires NonNegative(c) && (forall i | 0 <= i < |c| && i != m :: c[i] == s[i]) &&
             c[m] == s[m] + Codes(s, top) - Codes(s, m)
    ensures Crowded(c, n, m)
  {
    FoldedBounds(s, m, top);
    Frame(s, c, m - 1);
    if 2 * Used(c, m - 1) == Pow2(m) {
      UsedGrowsMore(s, m - 1, top);
      ShlPow2(m - 1, top - (m - 1));
    }
  }

  /** What limiting a complete code did: the counts below length low are as they were, and little was given up above. */
  ghost predicate Limited(s: seq<int>, c: seq<int>, n: nat, m: nat, low: nat) {
    |c| == |s| && 1 <= low <= m < |s| && (forall l | 1 <= l < low :: c[l] == s[l]) &&
    (low < m ==>
       c[low] < s[low] && Pow2(m - low) < n &&
       Spare(s, m - 1, m) <= Spare(s, low - 1, m) + (c[low] + 1) * Unit(m - low) + n - 2)
  }

  /** How much was given up in all. */
  lemma LimitedCost(s: seq<int>, f: seq<int>, c: seq<int>, n: nat, m: nat, low: nat)
    requires |s| == |f| && 1 <= m < |s| && forall l | 1 <= l < m :: f[l] == s[l]
    requires Crowded(f, n, m) && Demoted(f, c, n, m, low) && Used(c, m) == Pow2(m) && Codes(c, m) == n
    requires Used(f, m) != Pow2(m) || low == m
    ensures Limited(s, c, n, m, low)
  {
    if low < m {
      CodesAtLeast(f, m);
      UsedNonNegative(f, m - 1);
      SpareFrame(s, f, m - 1, m);
      SpareFrame(s, f, low - 1, m);
      assert Pow2(m - m) == 1 && Pow2(m - (m - 1)) == 2 * Pow2(m - m);
    }
  }

  /** Turns the length counts of a complete code into those of a complete code with no length above maxSize. */
  method EnforceMaxCodeSize(nc: array<int>, codeListLen: nat, maxSize: nat) returns (ghost low: nat)
    requires nc.Length == MAX_SUPPORTED + 1 && 1 <= maxSize <= MAX_SUPPORTED && NonNegative(nc[..])
    requires Codes(nc[..], MAX_SUPPORTED) == codeListLen <= Pow2(maxSize)
    requires codeListLen > 1 ==> Used(nc[..], MAX_SUPPORTED) == Pow2(MAX_SUPPORTED)
    modifies nc
    ensures codeListLen <= 1 ==> nc[..] == old(nc[..])
    ensures NonNegative(nc[..])
    ensures codeListLen > 1 ==> Codes(nc[..], maxSize) == codeListLen && Used(nc[..], maxSize) == Pow2(maxSize)
    ensures codeListLen > 1 ==> Limited(old(nc[..]), nc[..], codeListLen, maxSize, low)
  {
    low := maxSize;
    if codeListLen <= 1 { return; }
    ghost var s, top := nc[..], MAX_SUPPORTED;
    FoldLongCodes(nc, maxSize);
    ghost var f := nc[..];
    FoldedCrowded(s, f, codeListLen, maxSize, top);
    var total := Total(nc, maxSize);
    while total != Pow2(maxSize)
      invariant total == Used(nc[..], maxSize) <= Used(f, maxSize) && Crowded(nc[..], codeListLen, maxSize)
      invariant Demoted(f, nc[..], codeListLen, maxSize, low) && (Used(f, maxSize) != Pow2(maxSize) || low == maxSize)
      decreases total - Pow2(maxSize)
    {
      low := LimitStep(nc, maxSize, codeListLen, f, low);
      total := total - 1;
    }
    LimitedCost(s, f, nc[..], codeListLen, maxSize, low);
  }
}
