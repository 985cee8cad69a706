/** The zip reader's sorted file name index and its searches (miniz mz_zip_reader_locate_file). */
module ZipIndex {
  import opened Bits

  type Name = seq<Byte>

  function ToLower(c: Byte): Byte { if 65 <= c <= 90 then c - 65 + 97 else c }

  function Lower(n: Name): (l: Name)
    ensures |l| == |n| && forall i | 0 <= i < |n| :: l[i] == ToLower(n[i])
  {
    seq(|n|, i requires 0 <= i < |n| => ToLower(n[i]))
  }

  /** Dictionary order; a proper prefix comes first. */
  predicate Less(a: Name, b: Name) {
    if a == [] then b != []
    else b != [] && (a[0] < b[0] || (a[0] == b[0] && Less(a[1..], b[1..])))
  }

  // ----- a strict total order

  lemma {:induction false} LessTrans(a: Name, b: Name, c: Name)
    requires Less(a, b) && Less(b, c)
    ensures Less(a, c)
  {
    if a != [] && a[0] == b[0] && b[0] == c[0] { LessTrans(a[1..], b[1..], c[1..]); }
  }

  lemma {:induction false} LessTotal(a: Name, b: Name)
    ensures Less(a, b) || Less(b, a) || a == b
    ensures !(Less(a, b) && Less(b, a)) && !Less(a, a)
  {
    if a != [] && b != [] {
      LessTotal(a[1..], b[1..]);
      if a[1..] == b[1..] && a[0] == b[0] { assert a == [a[0]] + a[1..] && b == [b[0]] + b[1..]; }
      LessTotal(a[1..], a[1..]);
    } else if a != [] {
      LessTotal(a[1..], a[1..]);
    }
  }

  /** Names that agree up to i are ordered by what follows. */
  lemma {:induction false} LessFrom(a: Name, b: Name, i: nat)
    requires i <= |a| && i <= |b| && a[..i] == b[..i]
    ensures Less(a, b) <==> Less(a[i..], b[i..])
  {
    if i > 0 {
      assert a[0] == a[..i][0] && b[0] == b[..i][0];
      assert a[1..][..i - 1] == a[..i][1..] && b[1..][..i - 1] == b[..i][1..];
      LessFrom(a[1..], b[1..], i - 1);
      assert a[1..][i - 1..] == a[i..] && b[1..][i - 1..] == b[i..];
    } else {
      assert a[0..] == a && b[0..] == b;
    }
  }

  /** The comparison loop: the first position where the lower-cased names differ, or the shorter one's end. */
  method FirstDifference(a: Name, b: Name) returns (i: nat)
    ensures i <= |a| && i <= |b| && Lower(a)[..i] == Lower(b)[..i]
    ensures i == |a| || i == |b| || ToLower(a[i]) != ToLower(b[i])
  {
    i := 0;
    while i < |a| && i < |b| && ToLower(a[i]) == ToLower(b[i])
      invariant i <= |a| && i <= |b| && Lower(a)[..i] == Lower(b)[..i]
    {
      assert Lower(a)[..i + 1] == Lower(a)[..i] + [ToLower(a[i])] &&
        Lower(b)[..i + 1] == Lower(b)[..i] + [ToLower(b[i])];
      i := i + 1;
    }
  }

  method FilenameLess(a: Name, b: Name) returns (less: bool)
    ensures less == Less(Lower(a), Lower(b))
  {
    var i := FirstDifference(a, b);
    LessFrom(Lower(a), Lower(b), i);
    less := if i == (if |a| <= |b| then |a| else |b|) then |a| < |b| else ToLower(a[i]) < ToLower(b[i]);
  }

  method FilenameCompare(a: Name, b: Name) returns (comp: int)
    ensures comp < 0 <==> Less(Lower(a), Lower(b))
    ensures comp == 0 <==> Lower(a) == Lower(b)
  {
    var i := FirstDifference(a, b);
    LessFrom(Lower(a), Lower(b), i);
    if i == (if |a| <= |b| then |a| else |b|) {
      comp := |a| - |b|;
      assert Lower(a)[..|a|] == Lower(a) && Lower(b)[..|b|] == Lower(b);
    } else {
      var l: int, r: int := ToLower(a[i]), ToLower(b[i]);
      comp := l - r;
      assert Lower(a)[i] == l && Lower(b)[i] == r;
    }
  }

  // ----- ranks, so that the sort can be reasoned about in numbers

  /** How many of the names come before key. */
  function Before(names: seq<Name>, key: Name): nat {
    if names == [] then 0
    else Before(names[..|names| - 1], key) + (if Less(Lower(names[|names| - 1]), key) then 1 else 0)
  }

  lemma {:induction false} BeforeMono(names: seq<Name>, a: Name, b: Name)
    requires Less(a, b)
    ensures Before(names, a) <= Before(names, b)
    ensures (exists i | 0 <= i < |names| :: Lower(names[i]) == a) ==> Before(names, a) < Before(names, b)
  {
    if names != [] {
      var n := |names| - 1;
      BeforeMono(names[..n], a, b);
      var k := Lower(names[n]);
      if Less(k, a) { LessTrans(k, a, b); }
      LessTotal(a, a);
      if i: nat :| i < n && Lower(names[i]) == a { assert Lower(names[..n][i]) == a; }
    }
  }

  function Rank(names: seq<Name>, i: nat): nat
    requires i < |names|
  {
    Before(names, Lower(names[i]))
  }

  /** Ranks are ordered as the names are. */
  lemma RankOrder(names: seq<Name>, i: nat, j: nat)
    requires i < |names| && j < |names|
    ensures Less(Lower(names[i]), Lower(names[j])) <==> Rank(names, i) < Rank(names, j)
  {
    var a, b := Lower(names[i]), Lower(names[j]);
    LessTotal(a, b);
    if Less(a, b) { BeforeMono(names, a, b); }
    if Less(b, a) { BeforeMono(names, b, a); }
  }

  // ----- heaps

  /** The ranks of the indexed names. */
  function Ranks(a: seq<nat>, names: seq<Name>): (v: seq<nat>)
    requires Indices(a, names)
    ensures |v| == |a| && forall i | 0 <= i < |a| :: v[i] == Rank(names, a[i])
  {
    seq(|a|, i requires 0 <= i < |a| => Rank(names, a[i]))
  }

  predicate Indices(a: seq<nat>, names: seq<Name>) {
    forall i | 0 <= i < |a| :: a[i] < |names|
  }

  function Parent(c: nat): nat
    requires c > 0
  {
    (c - 1) / 2
  }

  /** From lo on, entries are at least their children, except perhaps at the hole. */
  ghost predicate HeapBut(v: seq<nat>, lo: nat, end: nat, hole: int) {
    end <= |v| && forall c: nat | 1 <= c < end :: Ordered(v, lo, c, hole)
  }

  ghost predicate Ordered(v: seq<nat>, lo: nat, c: nat, hole: int)
    requires 1 <= c < |v|
  {
    Parent(c) >= lo && Parent(c) != hole ==> v[Parent(c)] >= v[c]
  }

  /** The hole's children do not exceed the hole's parent. */
  ghost predicate HoleFits(v: seq<nat>, lo: nat, end: nat, hole: nat) {
    end <= |v| &&
    (hole > 0 && Parent(hole) >= lo ==> forall c: nat | 1 <= c < end && Parent(c) == hole :: v[Parent(hole)] >= v[c])
  }

  lemma {:induction false} HeapTop(v: seq<nat>, end: nat, i: nat)
    requires HeapBut(v, 0, end, -1) && i < end
    ensures v[0] >= v[i]
  {
    if i > 0 {
      assert Ordered(v, 0, i, -1);
      HeapTop(v, end, Parent(i));
    }
  }

  /** Swapping the hole with its larger child moves the hole down. */
  lemma SwapDown(v: seq<nat>, w: seq<nat>, lo: nat, end: nat, hole: nat, child: nat)
    requires HeapBut(v, lo, end, hole) && HoleFits(v, lo, end, hole) && lo <= hole && 1 <= child < end &&
             Parent(child) == hole
    requires v[hole] < v[child] && forall c: nat | 1 <= c < end && Parent(c) == hole :: v[c] <= v[child]
    requires w == v[hole := v[child]][child := v[hole]]
    ensures HeapBut(w, lo, end, child) && HoleFits(w, lo, end, child)
  {
    forall c: nat | 1 <= c < end ensures Ordered(w, lo, c, child) {
      assert Ordered(v, lo, c, hole);
    }
    forall c: nat | 1 <= c < end && Parent(c) == child ensures w[Parent(child)] >= w[c] {
      assert Ordered(v, lo, c, hole);
    }
  }

  lemma HoleClosed(v: seq<nat>, lo: nat, end: nat, hole: nat)
    requires HeapBut(v, lo, end, hole) && forall c: nat | 1 <= c < end && Parent(c) == hole :: v[c] <= v[hole]
    ensures HeapBut(v, lo, end, -1)
  {
    forall c: nat | 1 <= c < end ensures Ordered(v, lo, c, -1) { assert Ordered(v, lo, c, hole); }
  }

  lemma SwapRanks(b: seq<nat>, a: seq<nat>, names: seq<Name>, i: nat, j: nat)
    requires Indices(b, names) && i < |b| && j < |b| && a == b[i := b[j]][j := b[i]]
    ensures Indices(a, names) && Ranks(a, names) == Ranks(b, names)[i := Rank(names, b[j])][j := Rank(names, b[i])]
  {
    var v, w := Ranks(a, names), Ranks(b, names)[i := Rank(names, b[j])][j := Rank(names, b[i])];
    forall k: nat | k < |a| ensures v[k] == w[k] {
      assert a[k] == if k == j then b[i] else if k == i then b[j] else b[k];
    }
    assert |v| == |w|;
  }

  method Swap(a: array<nat>, i: nat, j: nat, ghost names: seq<Name>)
    requires i < a.Length && j < a.Length && Indices(a[..], names)
    modifies a
    ensures a[..] == old(a[..])[i := old(a[j])][j := old(a[i])] && multiset(a[..]) == multiset(old(a[..]))
    ensures Indices(a[..], names)
    ensures Ranks(a[..], names) == Ranks(old(a[..]), names)[i := Rank(names, old(a[j]))][j := Rank(names, old(a[i]))]
  {
    ghost var b := a[..];
    a[i], a[j] := a[j], a[i];
    SwapRanks(b, a[..], names, i, j);
  }

  lemma SamePart(a: seq<nat>, b: seq<nat>, end: nat)
    requires end <= |a| == |b| && a[end..] == b[end..] && multiset(a) == multiset(b)
    ensures multiset(a[..end]) == multiset(b[..end])
  {
    assert a == a[..end] + a[end..] && b == b[..end] + b[end..];
    assert multiset(a) == multiset(a[..end]) + multiset(a[end..]) &&
      multiset(b) == multiset(b[..end]) + multiset(b[end..]);
    assert multiset(a) - multiset(a[end..]) == multiset(a[..end]) &&
      multiset(b) - multiset(b[end..]) == multiset(b[..end]);
  }

  /** The larger child of root, when it has one below end. */
  method LargerChild(a: array<nat>, names: seq<Name>, root: nat, end: nat) returns (child: nat)
    requires end <= a.Length && Indices(a[..], names)
    ensures child >= end ==> forall c: nat | 1 <= c < end :: Parent(c) != root
    ensures child < end ==> 1 <= child && Parent(child) == root
    ensures child < end ==>
              forall c: nat | 1 <= c < end && Parent(c) == root ::
                Ranks(a[..], names)[c] <= Ranks(a[..], names)[child]
  {
    child := 2 * root + 1;
    if child >= end { return; }
    if child + 1 < end {
      var less := FilenameLess(names[a[child]], names[a[child + 1]]);
      RankOrder(names, a[child], a[child + 1]);
      if less { child := child + 1; }
    }
  }

  /** Moves the entry at start down until no child exceeds it. */
  method SiftDown(a: array<nat>, names: seq<Name>, start: nat, end: nat)
    requires end <= a.Length && Indices(a[..], names) && HeapBut(Ranks(a[..], names), start, end, start)
    modifies a
    ensures Indices(a[..], names) && HeapBut(Ranks(a[..], names), start, end, -1)
    ensures multiset(a[..]) == multiset(old(a[..])) && a[end..] == old(a[end..])
  {
    var root := start;
    while true
      invariant start <= root && Indices(a[..], names)
      invariant HeapBut(Ranks(a[..], names), start, end, root) && HoleFits(Ranks(a[..], names), start, end, root)
      invariant multiset(a[..]) == multiset(old(a[..])) && a[end..] == old(a[end..])
      decreases end - root
    {
      ghost var v := Ranks(a[..], names);
      var child := LargerChild(a, names, root, end);
      if child >= end {
        HoleClosed(v, start, end, root);
        break;
      }
      var less := FilenameLess(names[a[root]], names[a[child]]);
      RankOrder(names, a[root], a[child]);
      if !less {
        HoleClosed(v, start, end, root);
        break;
      }
      Swap(a, root, child, names);
      SwapDown(v, Ranks(a[..], names), start, end, root, child);
      root := child;
    }
  }

  // ----- the sort

  ghost predicate SortedFrom(v: seq<nat>, s: nat) {
    (forall i: nat, j: nat | s <= i < j < |v| :: v[i] <= v[j]) &&
    (forall i: nat, j: nat | i < s <= j < |v| :: v[i] <= v[j])
  }

  /** Building the heap, from the last parent down to the root. */
  method BuildHeap(a: array<nat>, names: seq<Name>)
    requires Indices(a[..], names)
    modifies a
    ensures Indices(a[..], names) && HeapBut(Ranks(a[..], names), 0, a.Length, -1) &&
            multiset(a[..]) == multiset(old(a[..]))
  {
    var size := a.Length;
    var start := (size - 2) / 2;
    while start >= 0
      invariant -1 <= start && start <= size
      invariant Indices(a[..], names) && multiset(a[..]) == multiset(old(a[..]))
      invariant HeapBut(Ranks(a[..], names), start + 1, size, -1)
      decreases start + 1
    {
      Reopen(Ranks(a[..], names), start, size);
      SiftDown(a, names, start, size);
      start := start - 1;
    }
  }

  lemma Reopen(v: seq<nat>, start: nat, end: nat)
    requires HeapBut(v, start + 1, end, -1)
    ensures HeapBut(v, start, end, start)
  {
    forall c: nat | 1 <= c < end ensures Ordered(v, start, c, start) { assert Ordered(v, start + 1, c, -1); }
  }

  /** The largest entry goes to the end; the rest still is a heap, except at the root. */
  lemma TakeTop(v: seq<nat>, w: seq<nat>, end: nat)
    requires 0 < end < |v| && HeapBut(v, 0, end + 1, -1) && SortedFrom(v, end + 1) && w == v[end := v[0]][0 := v[end]]
    ensures HeapBut(w, 0, end, 0) && SortedFrom(w, end)
  {
    forall c: nat | 1 <= c < end ensures Ordered(w, 0, c, 0) { assert Ordered(v, 0, c, -1); }
    forall i: nat | i < end ensures w[i] <= w[end] { HeapTop(v, end + 1, if i == 0 then end else i); }
    HeapTop(v, end + 1, end);
  }

  /** Entries may change places in front of the sorted part. */
  lemma SortedKept(a: seq<nat>, b: seq<nat>, names: seq<Name>, end: nat)
    requires Indices(a, names) && Indices(b, names) && end <= |a| == |b| && a[end..] == b[end..] &&
             multiset(a) == multiset(b)
    requires SortedFrom(Ranks(a, names), end)
    ensures SortedFrom(Ranks(b, names), end)
  {
    SamePart(a, b, end);
    var v, w := Ranks(a, names), Ranks(b, names);
    forall j: nat | end <= j < |b| ensures b[j] == a[j] { assert b[end..][j - end] == a[end..][j - end]; }
    forall i: nat, j: nat | i < end <= j < |w| ensures w[i] <= w[j] {
      assert b[..end][i] in multiset(b[..end]);
      assert b[i] in a[..end];
      var k: nat :| k < end && a[k] == b[i];
      assert v[k] <= v[j];
    }
  }

  /** Heap sort of the index by lower-cased name. */
  method SortIndex(a: array<nat>, names: seq<Name>)
    requires Indices(a[..], names)
    modifies a
    ensures Indices(a[..], names) && multiset(a[..]) == multiset(old(a[..]))
    ensures forall i: nat, j: nat | i < j < a.Length :: !Less(Lower(names[a[j]]), Lower(names[a[i]]))
  {
    BuildHeap(a, names);
    var end := a.Length - 1;
    while end > 0
      invariant end < a.Length && (end < 0 ==> a.Length == 0)
      invariant Indices(a[..], names) && multiset(a[..]) == multiset(old(a[..]))
      invariant end >= 0 ==> HeapBut(Ranks(a[..], names), 0, end + 1, -1) && SortedFrom(Ranks(a[..], names), end + 1)
    {
      ghost var v := Ranks(a[..], names);
      Swap(a, end, 0, names);
      TakeTop(v, Ranks(a[..], names), end);
      ghost var b := a[..];
      SiftDown(a, names, 0, end);
      SortedKept(b, a[..], names, end);
      end := end - 1;
    }
    forall i: nat, j: nat | i < j < a.Length ensures !Less(Lower(names[a[j]]), Lower(names[a[i]])) {
      RankOrder(names, a[j], a[i]);
      assert Ranks(a[..], names)[i] <= Ranks(a[..], names)[j];
    }
  }

  // ----- searching

  /** Whether file i's name is the query, letter case aside. */
  predicate Named(names: seq<Name>, i: int, query: Name) {
    0 <= i < |names| && Lower(names[i]) == Lower(query)
  }

  /** Every file has its place in the index. */
  ghost predicate IsIndex(a: seq<nat>, names: seq<Name>) {
    Indices(a, names) && (forall f: nat | f < |names| :: f in a) &&
    forall i: nat, j: nat | i < j < |a| :: !Less(Lower(names[a[j]]), Lower(names[a[i]]))
  }

  method BinarySearch(a: array<nat>, names: seq<Name>, query: Name) returns (r: int)
    requires IsIndex(a[..], names)
    ensures r >= 0 ==> Named(names, r, query)
    ensures r < 0 ==> r == -1 && forall f :: !Named(names, f, query)
  {
    var l, h := 0, a.Length - 1;
    while l <= h
      invariant 0 <= l <= h + 1 <= a.Length
      invariant forall k: nat | k < l :: Less(Lower(names[a[k]]), Lower(query))
      invariant forall k: nat | h < k < a.Length :: Less(Lower(query), Lower(names[a[k]]))
      decreases h - l + 1
    {
      var m := (l + h) / 2;
      var comp := FilenameCompare(names[a[m]], query);
      if comp == 0 { return a[m]; }
      LessTotal(Lower(names[a[m]]), Lower(query));
      if comp < 0 {
        forall k: nat | k <= m ensures Less(Lower(names[a[k]]), Lower(query)) {
          Downward(a[..], names, k, m, Lower(query));
        }
        l := m + 1;
      } else {
        forall k: nat | m <= k < a.Length ensures Less(Lower(query), Lower(names[a[k]])) {
          Upward(a[..], names, m, k, Lower(query));
        }
        h := m - 1;
      }
    }
    r := -1;
    forall f ensures !Named(names, f, query) {
      if Named(names, f, query) {
        assert f in a[..];
        var k: nat :| k < a.Length && a[k] == f;
        LessTotal(Lower(query), Lower(query));
      }
    }
  }

  lemma Downward(a: seq<nat>, names: seq<Name>, k: nat, m: nat, q: Name)
    requires IsIndex(a, names) && k <= m < |a| && Less(Lower(names[a[m]]), q)
    ensures Less(Lower(names[a[k]]), q)
  {
    LessTotal(Lower(names[a[k]]), Lower(names[a[m]]));
    if Less(Lower(names[a[k]]), Lower(names[a[m]])) { LessTrans(Lower(names[a[k]]), Lower(names[a[m]]), q); }
  }

  lemma Upward(a: seq<nat>, names: seq<Name>, m: nat, k: nat, q: Name)
    requires IsIndex(a, names) && m <= k < |a| && Less(q, Lower(names[a[m]]))
    ensures Less(q, Lower(names[a[k]]))
  {
    LessTotal(Lower(names[a[m]]), Lower(names[a[k]]));
    if Less(Lower(names[a[m]]), Lower(names[a[k]])) { LessTrans(q, Lower(names[a[m]]), Lower(names[a[k]])); }
  }

  /** The index of an archive: all its files, sorted. */
  method MakeIndex(names: seq<Name>) returns (a: array<nat>)
    ensures fresh(a) && IsIndex(a[..], names)
  {
    a := new nat[|names|](i => i);
    ghost var b := a[..];
    SortIndex(a, names);
    forall f: nat | f < |names| ensures f in a[..] {
      assert b[f] == f && f in multiset(b);
      assert f in multiset(a[..]);
    }
  }

  datatype Flags = Flags(ignorePath: bool, caseSensitive: bool)

  predicate IsSeparator(c: Byte) { c == 47 || c == 92 || c == 58 }

  /** Where the part of a path after its last separator starts. */
  function BaseAt(n: Name): (i: nat)
    ensures i <= |n| && (i > 0 ==> IsSeparator(n[i - 1])) && forall k | i <= k < |n| :: !IsSeparator(n[k])
  {
    if n == [] || IsSeparator(n[|n| - 1]) then |n| else BaseAt(n[..|n| - 1])
  }

  method FindBase(n: Name) returns (i: nat)
    ensures i == BaseAt(n)
  {
    i := 0;
    if |n| == 0 { return; }
    var ofs: int := |n| - 1;
    while ofs >= 0 && !IsSeparator(n[ofs])
      invariant -1 <= ofs < |n| && BaseAt(n[..ofs + 1]) == BaseAt(n)
    {
      assert n[..ofs + 1][..ofs] == n[..ofs];
      ofs := ofs - 1;
    }
    i := ofs + 1;
  }

  /** The name as the flags let it be seen. */
  function Seen(n: Name, flags: Flags): Name {
    var m := if flags.ignorePath then n[BaseAt(n)..] else n;
    if flags.caseSensitive then m else Lower(m)
  }

  predicate Matches(n: Name, query: Name, flags: Flags) {
    Seen(n, flags) == if flags.caseSensitive then query else Lower(query)
  }

  method StringEqual(a: Name, b: Name, flags: Flags) returns (equal: bool)
    requires |a| == |b|
    ensures equal == if flags.caseSensitive then a == b else Lower(a) == Lower(b)
  {
    if flags.caseSensitive { return a == b; }
    var i := 0;
    while i < |a|
      invariant i <= |a| && forall k | 0 <= k < i :: ToLower(a[k]) == ToLower(b[k])
    {
      if ToLower(a[i]) != ToLower(b[i]) {
        assert Lower(a)[i] != Lower(b)[i];
        return false;
      }
      i := i + 1;
    }
    assert Lower(a) == Lower(b);
    equal := true;
  }

  /** The linear search: the first file that matches. */
  method LinearSearch(names: seq<Name>, query: Name, flags: Flags) returns (r: int)
    requires forall f | 0 <= f < |names| :: |names[f]| <= 0xFFFF
    ensures -1 <= r < |names|
    ensures r >= 0 ==> Matches(names[r], query, flags)
    ensures forall f: nat | f < (if r >= 0 then r else |names|) :: !Matches(names[f], query, flags)
  {
    if |query| > 0xFFFF {
      forall f: nat | f < |names| ensures !Matches(names[f], query, flags) { SeenShort(names[f], query, flags); }
      return -1;
    }
    var f := 0;
    while f < |names|
      invariant f <= |names| && forall k: nat | k < f :: !Matches(names[k], query, flags)
    {
      var hit := FileMatches(names[f], query, flags);
      if hit { return f; }
      f := f + 1;
    }
    r := -1;
  }

  method FileMatches(n: Name, query: Name, flags: Flags) returns (hit: bool)
    ensures hit == Matches(n, query, flags)
  {
    SeenShort(n, query, flags);
    if |n| < |query| { return false; }
    var m := n;
    if flags.ignorePath && |n| > 0 {
      var ofs := FindBase(n);
      m := n[ofs..];
    }
    assert flags.ignorePath ==> m == n[BaseAt(n)..];
    if |m| != |query| { return false; }
    hit := StringEqual(query, m, flags);
  }

  lemma SeenShort(n: Name, query: Name, flags: Flags)
    ensures Matches(n, query, flags) ==> |query| <= |n|
  {
  }

  /** Locating a file: through the index when there is one and the flags allow it, else by trying every file. */
  method Locate(names: seq<Name>, index: array<nat>, query: Name, flags: Flags) returns (r: int)
    requires forall f | 0 <= f < |names| :: |names[f]| <= 0xFFFF
    requires index.Length > 0 ==> IsIndex(index[..], names)
    ensures -1 <= r < |names| && (r >= 0 ==> Matches(names[r], query, flags))
    ensures r == -1 <==> forall f: nat | f < |names| :: !Matches(names[f], query, flags)
  {
    if !flags.ignorePath && !flags.caseSensitive && index.Length > 0 {
      r := BinarySearch(index, names, query);
      forall f: nat | f < |names| ensures Named(names, f, query) <==> Matches(names[f], query, flags) {
      }
    } else {
      r := LinearSearch(names, query, flags);
    }
  }
}
