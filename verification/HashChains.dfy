/** The compressor's hash chains as values: what the heads and links should hold (miniz tdefl_compress_normal). */
module HashChains {
  import opened Bits
  import opened Lz77

  type U16 = x: nat | x < 0x1_0000

  const HASH_SIZE: nat := 32768

  /** One more byte hashed; fifteen bits are kept, so that three bytes later nothing is left of it. */
  function Roll(h: bv15, c: Byte): bv15 { (h << 5) ^ (c as bv15) }

  function Hash3(a: Byte, b: Byte, c: Byte): bv15 { Roll(Roll(Roll(0, a), b), c) }

  lemma RollForgets(h: bv15, a: Byte, b: Byte, c: Byte)
    ensures Roll(Roll(Roll(h, a), b), c) == Hash3(a, b, c)
  {
    Shifts(h, a as bv15, b as bv15, c as bv15);
    Shifts(0, a as bv15, b as bv15, c as bv15);
  }

  lemma Shifts(h: bv15, a: bv15, b: bv15, c: bv15)
    ensures (((((h << 5) ^ a) << 5) ^ b) << 5) ^ c == (a << 10) ^ (b << 5) ^ c
  {
  }

  /** The hash of the three bytes at x. */
  function HashAt(src: seq<Byte>, x: nat): nat
    requires x + 2 < |src|
  {
    Hash3(src[x], src[x + 1], src[x + 2]) as nat
  }

  /** The last place from base on and before x where three bytes hash to h; -1 when there is none. */
  function Latest(src: seq<Byte>, base: nat, x: nat, h: nat): (y: int)
    requires x <= base || x + 2 <= |src|
    ensures y == -1 || (base <= y < x && HashAt(src, y) == h)
    ensures forall z: nat | base <= z < x && z > y :: HashAt(src, z) != h
  {
    if x <= base then -1 else if HashAt(src, x - 1) == h then x - 1 else Latest(src, base, x - 1, h)
  }

  /** How a place is stored: as sixteen bits, and nothing looks like place zero. */
  function AsLink(y: int): U16 { if y < 0 then 0 else y % 0x1_0000 }

  /** The places before top are in the chains: every head is the last one, and every link leads to the one before. */
  ghost predicate Chains(hash: seq<U16>, next: seq<U16>, src: seq<Byte>, base: nat, top: nat) {
    |hash| == HASH_SIZE && |next| == DICT_SIZE && (top <= base || top + 2 <= |src|) &&
    (forall h | 0 <= h < HASH_SIZE :: hash[h] == AsLink(Latest(src, base, top, h))) &&
    forall x: nat | base <= x < top <= x + DICT_SIZE :: LinkIs(next, src, base, x)
  }

  ghost predicate LinkIs(next: seq<U16>, src: seq<Byte>, base: nat, x: nat)
    requires |next| == DICT_SIZE && x + 2 < |src|
  {
    next[x % DICT_SIZE] == AsLink(Latest(src, base, x, HashAt(src, x)))
  }

  lemma {:induction false} LatestGrow(src: seq<Byte>, more: seq<Byte>, base: nat, x: nat, h: nat)
    requires x <= base || x + 2 <= |src|
    ensures Latest(src + more, base, x, h) == Latest(src, base, x, h)
  {
    hide Hash3;
    if x > base { LatestGrow(src, more, base, x - 1, h); }
  }

  /** More input does not change what is in the chains. */
  lemma ChainsGrow(hash: seq<U16>, next: seq<U16>, src: seq<Byte>, more: seq<Byte>, base: nat, top: nat)
    requires Chains(hash, next, src, base, top)
    ensures Chains(hash, next, src + more, base, top)
  {
    hide Latest, AsLink, HashAt;
    forall h | 0 <= h < HASH_SIZE ensures hash[h] == AsLink(Latest(src + more, base, top, h)) {
      LatestGrow(src, more, base, top, h);
    }
    forall x: nat | base <= x < top <= x + DICT_SIZE ensures LinkIs(next, src + more, base, x) {
      LinkGrow(next, src, more, base, x);
    }
  }

  lemma LinkGrow(next: seq<U16>, src: seq<Byte>, more: seq<Byte>, base: nat, x: nat)
    requires |next| == DICT_SIZE && x + 2 < |src| && LinkIs(next, src, base, x)
    ensures LinkIs(next, src + more, base, x)
  {
    LatestGrow(src, more, base, x, HashAt(src, x));
  }

  /** The next place is put at the head of its chain. */
  lemma Inserted(hash: seq<U16>, next: seq<U16>, src: seq<Byte>, base: nat, top: nat)
    requires Chains(hash, next, src, base, top) && base <= top && top + 2 < |src|
    ensures var h := HashAt(src, top);
            h < HASH_SIZE && Chains(hash[h := top % 0x1_0000], next[top % DICT_SIZE := hash[h]], src, base, top + 1)
  {
    hide Hash3;
    var h := HashAt(src, top);
    var next' := next[top % DICT_SIZE := hash[h]];
    forall x: nat | base <= x < top + 1 <= x + DICT_SIZE ensures LinkIs(next', src, base, x) {
      if x < top {
        assert LinkIs(next, src, base, x);
        SlotsDiffer(x, top);
      }
    }
  }

  /** Empty chains. */
  lemma NoChains(hash: seq<U16>, next: seq<U16>, src: seq<Byte>, base: nat, top: nat)
    requires |hash| == HASH_SIZE && |next| == DICT_SIZE && top <= base && forall h | 0 <= h < HASH_SIZE :: hash[h] == 0
    ensures Chains(hash, next, src, base, top)
  {
  }

  // ----- following a chain

  /**
   * Where the link of a place that is in the ring leads, when the place before it in the chain is stored as not zero.
   */
  lemma LinkLeads(hash: seq<U16>, next: seq<U16>, src: seq<Byte>, base: nat, top: nat, x: nat, y: nat)
    requires Chains(hash, next, src, base, top) && base <= x < top <= x + DICT_SIZE
    requires y == Latest(src, base, x, HashAt(src, x)) && y < x
    ensures next[x % DICT_SIZE] == y % 0x1_0000 && y % 0x1_0000 % DICT_SIZE == y % DICT_SIZE
  {
    hide Latest, HashAt;
    assert LinkIs(next, src, base, x);
    Wraps(y);
  }

  lemma Wraps(y: nat)
    ensures y % 0x1_0000 % DICT_SIZE == y % DICT_SIZE
  {
    var q := y / 0x1_0000;
    assert y == 0x1_0000 * q + y % 0x1_0000;
  }

  /** The k-th place before x that is in the chain of h; -1 when there are fewer. */
  function Nth(src: seq<Byte>, base: nat, x: nat, h: nat, k: nat): (y: int)
    requires x <= base || x + 2 <= |src|
    ensures -1 <= y <= x && (k > 0 && y >= 0 ==> base <= y < x && HashAt(src, y) == h)
    decreases k
  {
    if k == 0 then x
    else
      var p := Nth(src, base, x, h, k - 1);
      if p < 0 then -1 else Latest(src, base, p, h)
  }

  /** How many places from y on and before x hash to h. */
  function Nearer(src: seq<Byte>, y: nat, x: nat, h: nat): (n: nat)
    requires x <= y || x + 2 <= |src|
  {
    if x <= y then 0 else Nearer(src, y, x - 1, h) + if HashAt(src, x - 1) == h then 1 else 0
  }

  lemma {:induction false} NthShift(src: seq<Byte>, base: nat, x: nat, h: nat, k: nat)
    requires (x <= base || x + 2 <= |src|) && Latest(src, base, x, h) >= 0
    ensures Nth(src, base, x, h, k + 1) == Nth(src, base, Latest(src, base, x, h), h, k)
    decreases k
  {
    if k > 0 {
      NthShift(src, base, x, h, k - 1);
    } else {
      assert Nth(src, base, x, h, 0) == x;
    }
  }

  lemma {:induction false} NearerSkips(src: seq<Byte>, y: nat, p: nat, x: nat, h: nat)
    requires y <= p < x && x + 2 <= |src| && HashAt(src, p) == h
    requires forall z: nat | p < z < x :: HashAt(src, z) != h
    ensures Nearer(src, y, x, h) == Nearer(src, y, p, h) + 1
    decreases x
  {
    if x > p + 1 { NearerSkips(src, y, p, x - 1, h); }
  }

  /** A place in the chain is reached after as many links as there are places from it on. */
  lemma {:induction false} NthOfRank(src: seq<Byte>, base: nat, y: nat, x: nat, h: nat)
    requires base <= y < x && x + 2 <= |src| && HashAt(src, y) == h
    ensures Nearer(src, y, x, h) >= 1 && Nth(src, base, x, h, Nearer(src, y, x, h)) == y
    decreases x
  {
    hide HashAt;
    var p := Latest(src, base, x, h);
    NearerSkips(src, y, p, x, h);
    NthShift(src, base, x, h, Nearer(src, y, p, h));
    if p > y {
      NthOfRank(src, base, y, p, h);
    } else {
      assert Nearer(src, y, p, h) == 0;
    }
  }

  lemma {:induction false} NthFalls(src: seq<Byte>, base: nat, x: nat, h: nat, j: nat, k: nat)
    requires (x <= base || x + 2 <= |src|) && j <= k && Nth(src, base, x, h, k) >= 0
    ensures Nth(src, base, x, h, j) >= Nth(src, base, x, h, k)
    decreases k
  {
    if j < k { NthFalls(src, base, x, h, j, k - 1); }
  }
}
