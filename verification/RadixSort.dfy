/** The two-pass byte radix sort that orders symbols by frequency (miniz tdefl_radix_sort_syms). */
module RadixSort {

  datatype SymFreq = SymFreq(key: nat, sym: nat)

  predicate InRange(x: SymFreq) { x.key < 65536 && x.sym < 65536 }

  function Digit(x: SymFreq, pass: nat): (d: nat)
    ensures d < 256
  {
    if pass == 0 then x.key % 256 else (x.key / 256) % 256
  }

  /** The order reached after so many passes: symbol number, then low byte first, then the whole key first. */
  function Rank(x: SymFreq, passes: nat): nat {
    if passes == 0 then x.sym
    else if passes == 1 then (x.key % 256) * 65536 + x.sym
    else x.key * 65536 + x.sym
  }

  ghost predicate Ascending(s: seq<SymFreq>, passes: nat) {
    forall i, j | 0 <= i < j < |s| :: Rank(s[i], passes) < Rank(s[j], passes)
  }

  ghost predicate AllInRange(s: seq<SymFreq>) {
    forall i | 0 <= i < |s| :: InRange(s[i])
  }

  // ----- what one counting pass computes

  function Filter(s: seq<SymFreq>, pass: nat, d: nat): (r: seq<SymFreq>)
    ensures |r| <= |s|
  {
    if s == [] then []
    else
      var n := |s| - 1;
      Filter(s[..n], pass, d) + (if Digit(s[n], pass) == d then [s[n]] else [])
  }

  /** The elements whose digit is below n, bucket by bucket. */
  function Buckets(s: seq<SymFreq>, pass: nat, n: nat): seq<SymFreq> {
    if n == 0 then [] else Buckets(s, pass, n - 1) + Filter(s, pass, n - 1)
  }

  lemma FilterTake(s: seq<SymFreq>, pass: nat, d: nat, i: nat)
    requires i < |s|
    ensures Filter(s[..i + 1], pass, d) == Filter(s[..i], pass, d) + (if Digit(s[i], pass) == d then [s[i]] else [])
  {
    assert s[..i + 1][..i] == s[..i];
  }

  lemma {:induction false} FilterPrefix(s: seq<SymFreq>, pass: nat, d: nat, i: nat)
    requires i <= |s|
    ensures Filter(s[..i], pass, d) <= Filter(s, pass, d)
    decreases |s| - i
  {
    if i == |s| {
      assert s[..i] == s;
    } else {
      FilterTake(s, pass, d, i);
      FilterPrefix(s, pass, d, i + 1);
    }
  }

  lemma {:induction false} BucketsMono(s: seq<SymFreq>, pass: nat, m: nat, n: nat)
    requires m <= n
    ensures Buckets(s, pass, m) <= Buckets(s, pass, n)
  {
    if m < n { BucketsMono(s, pass, m, n - 1); }
  }

  lemma {:induction false} FilterDigits(s: seq<SymFreq>, pass: nat, d: nat)
    ensures forall i | 0 <= i < |Filter(s, pass, d)| :: Digit(Filter(s, pass, d)[i], pass) == d
  {
    if s != [] { FilterDigits(s[..|s| - 1], pass, d); }
  }

  // ----- a pass keeps the elements

  lemma {:induction false} FilterMultiset(s: seq<SymFreq>, pass: nat, d: nat, x: SymFreq)
    ensures multiset(Filter(s, pass, d))[x] == if Digit(x, pass) == d then multiset(s)[x] else 0
  {
    if s != [] {
      var n := |s| - 1;
      FilterMultiset(s[..n], pass, d, x);
      assert s == s[..n] + [s[n]];
    }
  }

  lemma {:induction false} BucketsMultiset(s: seq<SymFreq>, pass: nat, n: nat, x: SymFreq)
    ensures multiset(Buckets(s, pass, n))[x] == if Digit(x, pass) < n then multiset(s)[x] else 0
  {
    if n > 0 {
      BucketsMultiset(s, pass, n - 1, x);
      FilterMultiset(s, pass, n - 1, x);
    }
  }

  lemma BucketsPermute(s: seq<SymFreq>, pass: nat, n: nat)
    requires n == 256
    ensures multiset(Buckets(s, pass, n)) == multiset(s) && |Buckets(s, pass, n)| == |s|
  {
    var b := Buckets(s, pass, n);
    forall x: SymFreq ensures multiset(b)[x] == multiset(s)[x] { BucketsMultiset(s, pass, n, x); }
    assert multiset(b) == multiset(s);
    assert |multiset(b)| == |b| && |multiset(s)| == |s|;
  }

  lemma FilterCountPermuted(s: seq<SymFreq>, t: seq<SymFreq>, pass: nat, d: nat)
    requires multiset(s) == multiset(t)
    ensures |Filter(s, pass, d)| == |Filter(t, pass, d)|
  {
    var f, g := Filter(s, pass, d), Filter(t, pass, d);
    forall x: SymFreq ensures multiset(f)[x] == multiset(g)[x] {
      FilterMultiset(s, pass, d, x);
      FilterMultiset(t, pass, d, x);
    }
    assert multiset(f) == multiset(g);
    assert |multiset(f)| == |f| && |multiset(g)| == |g|;
  }

  lemma PermuteInRange(s: seq<SymFreq>, t: seq<SymFreq>)
    requires multiset(s) == multiset(t) && AllInRange(s)
    ensures AllInRange(t)
  {
    forall i | 0 <= i < |t| ensures InRange(t[i]) {
      assert t[i] in multiset(s);
    }
  }

  // ----- a pass sorts

  lemma {:induction false} FilterAscending(s: seq<SymFreq>, pass: nat, d: nat, passes: nat)
    requires Ascending(s, passes)
    ensures Ascending(Filter(s, pass, d), passes)
    ensures forall i | 0 <= i < |Filter(s, pass, d)| :: Filter(s, pass, d)[i] in s
  {
    if s != [] {
      var n := |s| - 1;
      FilterAscending(s[..n], pass, d, passes);
      forall i | 0 <= i < |Filter(s[..n], pass, d)|
        ensures Rank(Filter(s[..n], pass, d)[i], passes) < Rank(s[n], passes)
      {
        assert Filter(s[..n], pass, d)[i] in s[..n];
      }
    }
  }

  /** Elements of one digit keep their order; a higher digit outranks them all. */
  lemma RankStep(x: SymFreq, y: SymFreq, pass: nat)
    requires InRange(x) && InRange(y) && pass <= 1
    requires Digit(x, pass) < Digit(y, pass) || (Digit(x, pass) == Digit(y, pass) && Rank(x, pass) < Rank(y, pass))
    ensures Rank(x, pass + 1) < Rank(y, pass + 1)
  {
    if pass == 1 {
      assert x.key / 256 < 256 && y.key / 256 < 256;
      assert x.key == 256 * (x.key / 256) + x.key % 256;
      assert y.key == 256 * (y.key / 256) + y.key % 256;
    }
  }

  lemma {:induction false} BucketsAscending(s: seq<SymFreq>, pass: nat, n: nat)
    requires Ascending(s, pass) && AllInRange(s) && pass <= 1
    ensures Ascending(Buckets(s, pass, n), pass + 1)
    ensures forall i | 0 <= i < |Buckets(s, pass, n)| ::
              InRange(Buckets(s, pass, n)[i]) && Digit(Buckets(s, pass, n)[i], pass) < n
  {
    if n > 0 {
      BucketsAscending(s, pass, n - 1);
      FilterAscending(s, pass, n - 1, pass);
      FilterDigits(s, pass, n - 1);
      var a, b := Buckets(s, pass, n - 1), Filter(s, pass, n - 1);
      forall i, j | 0 <= i < j < |a + b|
        ensures Rank((a + b)[i], pass + 1) < Rank((a + b)[j], pass + 1)
      {
        if |a| <= j {
          assert (a + b)[j] == b[j - |a|] && b[j - |a|] in s;
          if |a| <= i { assert (a + b)[i] == b[i - |a|] && b[i - |a|] in s; }
          RankStep((a + b)[i], (a + b)[j], pass);
        }
      }
    }
  }

  // ----- the scatter loop

  /** Where bucket d starts in the output. */
  function Start(s: seq<SymFreq>, pass: nat, d: nat): nat { |Buckets(s, pass, d)| }

  /** Bucket d of the first i elements is at its place in out. */
  ghost predicate PlacedIn(out: seq<SymFreq>, s: seq<SymFreq>, pass: nat, i: nat, d: nat)
    requires i <= |s|
  {
    var a, f := Start(s, pass, d), Filter(s[..i], pass, d);
    a + |f| <= |out| && out[a..a + |f|] == f
  }

  ghost predicate Placed(out: seq<SymFreq>, s: seq<SymFreq>, pass: nat, i: nat)
    requires i <= |s|
  {
    forall d | 0 <= d < 256 :: PlacedIn(out, s, pass, i, d)
  }

  lemma BucketRoom(s: seq<SymFreq>, pass: nat, d: nat, i: nat, n: nat)
    requires i <= |s| && d < n
    ensures Start(s, pass, d) + |Filter(s[..i], pass, d)| <= Start(s, pass, n)
  {
    FilterPrefix(s, pass, d, i);
    BucketsMono(s, pass, d + 1, n);
  }

  /** Where the next element goes. */
  function Slot(s: seq<SymFreq>, pass: nat, i: nat): nat
    requires i < |s|
  {
    var e := Digit(s[i], pass);
    Start(s, pass, e) + |Filter(s[..i], pass, e)|
  }

  lemma SlotInside(s: seq<SymFreq>, pass: nat, i: nat)
    requires i < |s|
    ensures Slot(s, pass, i) < |s|
  {
    var n: nat := 256;
    var e := Digit(s[i], pass);
    BucketRoom(s, pass, e, i + 1, n);
    BucketsPermute(s, pass, n);
    FilterTake(s, pass, e, i);
  }

  lemma SlotFree(s: seq<SymFreq>, pass: nat, i: nat, d: nat)
    requires i < |s| && d != Digit(s[i], pass)
    ensures Slot(s, pass, i) < Start(s, pass, d) || Start(s, pass, d) + |Filter(s[..i], pass, d)| <= Slot(s, pass, i)
  {
    var e := Digit(s[i], pass);
    if d < e {
      BucketRoom(s, pass, d, i, e);
    } else {
      BucketRoom(s, pass, e, i + 1, d);
      FilterTake(s, pass, e, i);
    }
  }

  lemma PlaceOne(out: seq<SymFreq>, s: seq<SymFreq>, pass: nat, i: nat, d: nat)
    requires i < |s| && |out| >= |s| && PlacedIn(out, s, pass, i, d) && d < 256
    requires Slot(s, pass, i) < |s|
    ensures PlacedIn(out[Slot(s, pass, i) := s[i]], s, pass, i + 1, d)
  {
    var pos := Slot(s, pass, i);
    var a, f := Start(s, pass, d), Filter(s[..i], pass, d);
    var out' := out[pos := s[i]];
    FilterTake(s, pass, d, i);
    if d == Digit(s[i], pass) {
      assert pos == a + |f|;
      assert out'[a..pos + 1] == out[a..pos] + [s[i]];
    } else {
      SlotFree(s, pass, i, d);
      assert out'[a..a + |f|] == out[a..a + |f|];
    }
  }

  lemma PlaceNext(out: seq<SymFreq>, s: seq<SymFreq>, pass: nat, i: nat)
    requires i < |s| && |out| >= |s| && Placed(out, s, pass, i)
    ensures Slot(s, pass, i) < |s|
    ensures Placed(out[Slot(s, pass, i) := s[i]], s, pass, i + 1)
  {
    SlotInside(s, pass, i);
    var out', i' := out[Slot(s, pass, i) := s[i]], i + 1;
    forall d | 0 <= d < 256 ensures PlacedIn(out', s, pass, i', d) {
      PlaceOne(out, s, pass, i, d);
    }
  }

  lemma {:induction false} PlacedBuckets(out: seq<SymFreq>, s: seq<SymFreq>, pass: nat, n: nat)
    requires Placed(out, s, pass, |s|) && n <= 256
    ensures Buckets(s, pass, n) <= out
  {
    if n > 0 {
      PlacedBuckets(out, s, pass, n - 1);
      assert s[..|s|] == s;
      assert PlacedIn(out, s, pass, |s|, n - 1);
      var a, f := Start(s, pass, n - 1), Filter(s, pass, n - 1);
      assert out[..a + |f|] == out[..a] + out[a..a + |f|];
    }
  }

  /** h counts digit d of the given pass. */
  predicate Counts(h: seq<nat>, s: seq<SymFreq>, pass: nat, d: nat)
    requires |h| == 512 && pass <= 1 && d < 256
  {
    h[256 * pass + d] == |Filter(s, pass, d)|
  }

  /** h counts the digits of both passes. */
  ghost predicate IsHistogram(h: seq<nat>, s: seq<SymFreq>) {
    |h| == 512 && forall p: nat, d: nat | p <= 1 && d < 256 :: Counts(h, s, p, d)
  }

  lemma HistogramNext(h: seq<nat>, h': seq<nat>, s: seq<SymFreq>, i: nat)
    requires i < |s| && IsHistogram(h, s[..i]) && |h'| == 512
    requires h' == h[Digit(s[i], 0) := h[Digit(s[i], 0)] + 1][256 + Digit(s[i], 1) := h[256 + Digit(s[i], 1)] + 1]
    ensures IsHistogram(h', s[..i + 1])
  {
    var t := s[..i + 1];
    forall p: nat, d: nat | p <= 1 && d < 256 ensures Counts(h', t, p, d) {
      assert Counts(h, s[..i], p, d);
      FilterTake(s, p, d, i);
    }
  }

  method Histograms(syms: array<SymFreq>, n: nat) returns (hist: array<nat>)
    requires n <= syms.Length
    ensures fresh(hist) && IsHistogram(hist[..], syms[..n])
  {
    ghost var s := syms[..n];
    hist := new nat[512](i => 0);
    assert s[..0] == [];
    for i := 0 to n
      invariant syms[..n] == s && hist.Length == 512
      invariant IsHistogram(hist[..], s[..i])
    {
      ghost var h := hist[..];
      var lo, hi := Digit(syms[i], 0), 256 + Digit(syms[i], 1);
      hist[lo] := hist[lo] + 1;
      hist[hi] := hist[hi] + 1;
      HistogramNext(h, hist[..], s, i);
    }
    assert s[..n] == s;
  }

  /** The next free slot of every bucket, after i elements. */
  ghost predicate OffsetsAt(o: seq<nat>, s: seq<SymFreq>, pass: nat, i: nat)
    requires i <= |s|
  {
    |o| == 256 && forall d: nat | d < 256 :: o[d] == Start(s, pass, d) + |Filter(s[..i], pass, d)|
  }

  lemma OffsetsNext(o: seq<nat>, s: seq<SymFreq>, pass: nat, i: nat)
    requires i < |s| && OffsetsAt(o, s, pass, i)
    ensures o[Digit(s[i], pass)] == Slot(s, pass, i)
    ensures OffsetsAt(o[Digit(s[i], pass) := o[Digit(s[i], pass)] + 1], s, pass, i + 1)
  {
    var e := Digit(s[i], pass);
    var o' := o[e := o[e] + 1];
    forall d: nat | d < 256 ensures o'[d] == Start(s, pass, d) + |Filter(s[..i + 1], pass, d)| {
      FilterTake(s, pass, d, i);
    }
  }

  method Offsets(ghost s: seq<SymFreq>, pass: nat, hist: array<nat>) returns (offsets: array<nat>)
    requires pass <= 1 && IsHistogram(hist[..], s)
    ensures fresh(offsets) && OffsetsAt(offsets[..], s, pass, 0)
  {
    offsets := new nat[256];
    var curOfs := 0;
    for i := 0 to 256
      invariant curOfs == Start(s, pass, i)
      invariant forall d: nat | d < i :: offsets[d] == Start(s, pass, d)
    {
      offsets[i] := curOfs;
      assert Counts(hist[..], s, pass, i);
      curOfs := curOfs + hist[256 * pass + i];
    }
    assert s[..0] == [];
  }

  lemma NothingPlaced(out: seq<SymFreq>, s: seq<SymFreq>, pass: nat)
    requires |out| >= |s|
    ensures Placed(out, s, pass, 0)
  {
    assert s[..0] == [];
    forall d: nat | d < 256 ensures PlacedIn(out, s, pass, 0, d) {
      var m: nat := 256;
      BucketRoom(s, pass, d, 0, m);
      BucketsPermute(s, pass, m);
    }
  }

  /** One counting pass: histogram offsets, then a scatter. */
  method Pass(cur: array<SymFreq>, new_: array<SymFreq>, n: nat, pass: nat, hist: array<nat>)
    requires cur != new_ && n <= cur.Length && n <= new_.Length && pass <= 1
    requires IsHistogram(hist[..], cur[..n])
    modifies new_
    ensures new_[..n] == Buckets(cur[..n], pass, 256)
  {
    ghost var s := cur[..n];
    var offsets := Offsets(s, pass, hist);
    NothingPlaced(new_[..], s, pass);
    for i := 0 to n
      invariant cur[..n] == s
      invariant OffsetsAt(offsets[..], s, pass, i)
      invariant Placed(new_[..], s, pass, i)
    {
      ghost var o, out := offsets[..], new_[..];
      var d := Digit(cur[i], pass);
      PlaceNext(out, s, pass, i);
      OffsetsNext(o, s, pass, i);
      new_[offsets[d]] := cur[i];
      offsets[d] := offsets[d] + 1;
      assert new_[..] == out[Slot(s, pass, i) := s[i]];
      assert offsets[..] == o[d := o[d] + 1];
    }
    FinishPass(new_[..], s, pass);
  }

  lemma FinishPass(out: seq<SymFreq>, s: seq<SymFreq>, pass: nat)
    requires |out| >= |s| && Placed(out, s, pass, |s|)
    ensures out[..|s|] == Buckets(s, pass, 256)
  {
    var m: nat := 256;
    PlacedBuckets(out, s, pass, m);
    BucketsPermute(s, pass, m);
  }

  lemma {:induction false} HighBytesZero(s: seq<SymFreq>)
    requires AllInRange(s) && |Filter(s, 1, 0)| == |s|
    ensures forall i | 0 <= i < |s| :: s[i].key < 256
  {
    if s != [] {
      var n := |s| - 1;
      assert Digit(s[n], 1) == 0;
      HighBytesZero(s[..n]);
    }
  }

  /** A pass sorts one digit further and keeps the elements. */
  lemma PassSorts(s: seq<SymFreq>, t: seq<SymFreq>, pass: nat)
    requires pass <= 1 && AllInRange(s) && Ascending(s, pass) && t == Buckets(s, pass, 256)
    ensures AllInRange(t) && Ascending(t, pass + 1) && multiset(t) == multiset(s) && |t| == |s|
  {
    var m: nat := 256;
    BucketsPermute(s, pass, m);
    BucketsAscending(s, pass, m);
    PermuteInRange(s, t);
  }

  /** With every high byte zero the second pass has nothing to do. */
  lemma SkipSecondPass(s: seq<SymFreq>, t: seq<SymFreq>)
    requires AllInRange(s) && |Filter(s, 1, 0)| == |s|
    requires multiset(t) == multiset(s) && Ascending(t, 1)
    ensures Ascending(t, 2)
  {
    HighBytesZero(s);
    forall i | 0 <= i < |t| ensures Rank(t[i], 1) == Rank(t[i], 2) {
      assert t[i] in multiset(s);
    }
  }

  lemma HistogramPermuted(h: seq<nat>, s: seq<SymFreq>, t: seq<SymFreq>)
    requires IsHistogram(h, s) && multiset(s) == multiset(t)
    ensures IsHistogram(h, t)
  {
    forall p: nat, d: nat | p <= 1 && d < 256 ensures Counts(h, t, p, d) {
      assert Counts(h, s, p, d);
      FilterCountPermuted(s, t, p, d);
    }
  }

  /** Sorts by key, then symbol number; the pass over the high byte is skipped when every high byte is zero. */
  method RadixSortSyms(n: nat, syms0: array<SymFreq>, syms1: array<SymFreq>) returns (sorted: array<SymFreq>)
    requires syms0 != syms1 && n <= syms0.Length && n <= syms1.Length
    requires AllInRange(syms0[..n]) && Ascending(syms0[..n], 0)
    modifies syms0, syms1
    ensures sorted == syms0 || sorted == syms1
    ensures Ascending(sorted[..n], 2)
    ensures multiset(sorted[..n]) == multiset(old(syms0[..n]))
  {
    ghost var s := syms0[..n];
    var hist := Histograms(syms0, n);
    ghost var h := hist[..];
    assert Counts(h, s, 1, 0);
    var totalPasses := 2;
    while totalPasses > 1 && n == hist[(totalPasses - 1) * 256]
      invariant 1 <= totalPasses <= 2
      invariant totalPasses == 1 ==> n == |Filter(s, 1, 0)|
    {
      totalPasses := totalPasses - 1;
    }
    var cur, new_ := syms0, syms1;
    var pass := 0;
    while pass < totalPasses
      invariant pass <= totalPasses
      invariant (cur == syms0 && new_ == syms1) || (cur == syms1 && new_ == syms0)
      invariant Sorted(cur[..n], s, pass)
      invariant hist[..] == h
    {
      ghost var before := cur[..n];
      HistogramPermuted(h, s, before);
      Pass(cur, new_, n, pass, hist);
      PassSorts(before, new_[..n], pass);
      cur, new_ := new_, cur;
      pass := pass + 1;
    }
    if totalPasses == 1 { SkipSecondPass(s, cur[..n]); }
    sorted := cur;
  }

  /** t holds the elements of s in the order reached after so many passes. */
  ghost predicate Sorted(t: seq<SymFreq>, s: seq<SymFreq>, passes: nat) {
    AllInRange(t) && Ascending(t, passes) && multiset(t) == multiset(s)
  }
}
