/** The symbols in use, listed in order of frequency, and sums over them (miniz tdefl_optimize_huffman_table). */
module UsedSymbols {
  import opened RadixSort
  import HuffmanTree

  function UsedSyms(counts: seq<nat>): (r: seq<SymFreq>)
    ensures |r| <= |counts|
  {
    if counts == [] then []
    else
      var n := |counts| - 1;
      UsedSyms(counts[..n]) + (if counts[n] > 0 then [SymFreq(counts[n], n)] else [])
  }

  /** syms lists exactly the symbols with a non-zero count. */
  ghost predicate Lists(syms: seq<SymFreq>, counts: seq<nat>) {
    (forall p | 0 <= p < |syms| :: syms[p].sym < |counts| && syms[p].key == counts[syms[p].sym] > 0) &&
    (forall k | 0 <= k < |counts| && counts[k] > 0 :: SymFreq(counts[k], k) in syms)
  }

  lemma {:induction false} UsedSymsLists(counts: seq<nat>)
    ensures Lists(UsedSyms(counts), counts) && Ascending(UsedSyms(counts), 0)
  {
    if counts != [] {
      var n := |counts| - 1;
      UsedSymsLists(counts[..n]);
      ListsMore(UsedSyms(counts[..n]), UsedSyms(counts), counts, n);
      AscendingMore(UsedSyms(counts[..n]), UsedSyms(counts), counts, n);
    }
  }

  lemma ListsMore(u: seq<SymFreq>, r: seq<SymFreq>, counts: seq<nat>, n: nat)
    requires n + 1 == |counts| && Lists(u, counts[..n])
    requires r == u + (if counts[n] > 0 then [SymFreq(counts[n], n)] else [])
    ensures Lists(r, counts)
  {
    forall k | 0 <= k < |counts| && counts[k] > 0 ensures SymFreq(counts[k], k) in r {
      if k < n { assert SymFreq(counts[..n][k], k) in u; } else { assert r[|u|] == SymFreq(counts[k], k); }
    }
  }

  lemma AscendingMore(u: seq<SymFreq>, r: seq<SymFreq>, counts: seq<nat>, n: nat)
    requires n + 1 == |counts| && Lists(u, counts[..n]) && Ascending(u, 0)
    requires r == u + (if counts[n] > 0 then [SymFreq(counts[n], n)] else [])
    ensures Ascending(r, 0)
  {
  }

  lemma ListsPermuted(s: seq<SymFreq>, t: seq<SymFreq>, counts: seq<nat>)
    requires Lists(s, counts) && multiset(s) == multiset(t)
    ensures Lists(t, counts)
  {
    forall p | 0 <= p < |t| ensures t[p] in s { assert t[p] in multiset(t); }
    forall k | 0 <= k < |counts| && counts[k] > 0 ensures SymFreq(counts[k], k) in t {
      assert SymFreq(counts[k], k) in multiset(s);
    }
  }

  function Keys(s: seq<SymFreq>): (r: seq<nat>)
    ensures |r| == |s| && forall i | 0 <= i < |s| :: r[i] == s[i].key
  {
    if s == [] then [] else [s[0].key] + Keys(s[1..])
  }

  function KeySum(s: seq<SymFreq>): nat {
    if s == [] then 0 else s[0].key + KeySum(s[1..])
  }

  lemma {:induction false} KeysSum(s: seq<SymFreq>)
    ensures HuffmanTree.Sum(Keys(s)) == KeySum(s)
  {
    if s != [] { KeysSum(s[1..]); }
  }

  lemma {:induction false} KeySumInsert(a: seq<SymFreq>, x: SymFreq, b: seq<SymFreq>)
    ensures KeySum(a + [x] + b) == x.key + KeySum(a + b)
  {
    if a == [] {
      assert a + [x] + b == [x] + b && a + b == b;
    } else {
      assert (a + [x] + b)[1..] == a[1..] + [x] + b;
      assert (a + b)[1..] == a[1..] + b;
      KeySumInsert(a[1..], x, b);
    }
  }

  lemma {:induction false} UsedSymsSum(counts: seq<nat>)
    ensures KeySum(UsedSyms(counts)) == HuffmanTree.Sum(counts)
  {
    if counts != [] {
      var n := |counts| - 1;
      var u := UsedSyms(counts[..n]);
      UsedSymsSum(counts[..n]);
      HuffmanTree.SumSnoc(counts[..n], counts[n]);
      assert counts == counts[..n] + [counts[n]];
      assert u + [] == u;
      if counts[n] > 0 {
        KeySumInsert(u, SymFreq(counts[n], n), []);
        assert u + [SymFreq(counts[n], n)] + [] == UsedSyms(counts);
      }
    }
  }

  /** The first element of s occurs in t; the others are the same there too. */
  lemma SameElement(s: seq<SymFreq>, t: seq<SymFreq>) returns (i: nat)
    requires s != [] && multiset(s) == multiset(t)
    ensures i < |t| && t[i] == s[0] && multiset(s[1..]) == multiset(t[..i] + t[i + 1..])
  {
    var x := s[0];
    assert x in multiset(t);
    i :| 0 <= i < |t| && t[i] == x;
    assert multiset(s) == multiset{x} + multiset(s[1..]) by { assert s == [x] + s[1..]; }
    assert multiset(t) == multiset{x} + multiset(t[..i] + t[i + 1..]) by { assert t == t[..i] + [x] + t[i + 1..]; }
    assert multiset(s[1..]) == multiset(s) - multiset{x};
    assert multiset(t[..i] + t[i + 1..]) == multiset(t) - multiset{x};
  }

  lemma {:induction false} KeySumPermuted(s: seq<SymFreq>, t: seq<SymFreq>)
    requires multiset(s) == multiset(t)
    ensures KeySum(s) == KeySum(t)
  {
    if s == [] {
      assert |multiset(t)| == 0;
    } else {
      var i := SameElement(s, t);
      var a, b := t[..i], t[i + 1..];
      assert t == a + [s[0]] + b;
      KeySumPermuted(s[1..], a + b);
      KeySumInsert(a, s[0], b);
    }
  }

  // ----- sums over the symbols listed

  /** The values of the symbols listed, summed. */
  function ListSum(s: seq<SymFreq>, v: seq<nat>): nat
    requires forall p | 0 <= p < |s| :: s[p].sym < |v|
  {
    if s == [] then 0 else v[s[0].sym] + ListSum(s[1..], v)
  }

  lemma {:induction false} ListSumInsert(a: seq<SymFreq>, x: SymFreq, b: seq<SymFreq>, v: seq<nat>)
    requires forall p | 0 <= p < |a + [x] + b| :: (a + [x] + b)[p].sym < |v|
    requires forall p | 0 <= p < |a + b| :: (a + b)[p].sym < |v|
    requires x.sym < |v|
    ensures ListSum(a + [x] + b, v) == v[x.sym] + ListSum(a + b, v)
  {
    if a == [] {
      assert a + [x] + b == [x] + b && a + b == b;
    } else {
      assert (a + [x] + b)[1..] == a[1..] + [x] + b;
      assert (a + b)[1..] == a[1..] + b;
      ListSumInsert(a[1..], x, b, v);
    }
  }

  lemma {:induction false} ListSumPermuted(s: seq<SymFreq>, t: seq<SymFreq>, v: seq<nat>)
    requires multiset(s) == multiset(t) && forall x | x in s :: x.sym < |v|
    ensures (forall x | x in t :: x.sym < |v|) && ListSum(s, v) == ListSum(t, v)
  {
    forall x | x in t ensures x in s { assert x in multiset(t); }
    if s == [] {
      assert |multiset(t)| == 0;
    } else {
      var i := SameElement(s, t);
      var a, b := t[..i], t[i + 1..];
      assert t == a + [s[0]] + b;
      ListSumPermuted(s[1..], a + b, v);
      ListSumInsert(a, s[0], b, v);
    }
  }

  /** The values of the symbols in use. */
  function Used(counts: seq<nat>, v: seq<nat>): nat
    requires |counts| <= |v|
  {
    if counts == [] then 0
    else
      var n := |counts| - 1;
      Used(counts[..n], v) + (if counts[n] > 0 then v[n] else 0)
  }

  lemma {:induction false} UsedSymsRange(counts: seq<nat>)
    ensures forall x | x in UsedSyms(counts) :: x.sym < |counts|
  {
    if counts != [] { UsedSymsRange(counts[..|counts| - 1]); }
  }

  lemma {:induction false} UsedSymsListSum(counts: seq<nat>, v: seq<nat>)
    requires |counts| <= |v|
    ensures (forall x | x in UsedSyms(counts) :: x.sym < |v|) && ListSum(UsedSyms(counts), v) == Used(counts, v)
  {
    UsedSymsRange(counts);
    if counts != [] {
      var n := |counts| - 1;
      var u := UsedSyms(counts[..n]);
      UsedSymsListSum(counts[..n], v);
      assert u + [] == u;
      if counts[n] > 0 {
        ListSumInsert(u, SymFreq(counts[n], n), [], v);
        assert u + [SymFreq(counts[n], n)] + [] == UsedSyms(counts);
      }
    }
  }

  /** Whatever order the symbols in use are listed in, their values sum to the same. */
  lemma ListedSum(s: seq<SymFreq>, counts: seq<nat>, v: seq<nat>)
    requires multiset(s) == multiset(UsedSyms(counts)) && |counts| <= |v|
    ensures (forall x | x in s :: x.sym < |v|) && ListSum(s, v) == Used(counts, v)
  {
    UsedSymsListSum(counts, v);
    ListSumPermuted(UsedSyms(counts), s, v);
  }
}
