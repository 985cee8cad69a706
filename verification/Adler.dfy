/** The Adler-32 checksum of RFC 1950, with its modulo taken once a block (miniz mz_adler32). */
module Adler {
  import opened Bits

  const MOD: nat := 65521
  const BLOCK: nat := 5552

  /** The two sums after one more byte: section 8.2 of RFC 1950. */
  function Step(s: (nat, nat), c: Byte): (nat, nat) {
    var s1 := (s.0 + c) % MOD;
    (s1, (s.1 + s1) % MOD)
  }

  function Sums(s: (nat, nat), data: seq<Byte>): (nat, nat) {
    if data == [] then s else Step(Sums(s, data[..|data| - 1]), data[|data| - 1])
  }

  /** The checksum of a run of bytes. */
  function Checksum(data: seq<Byte>): nat {
    Pack(Sums((1, 0), data))
  }

  function Pack(s: (nat, nat)): nat { s.1 * 0x1_0000 + s.0 }

  predicate Reduced(s: (nat, nat)) { s.0 < MOD && s.1 < MOD }

  lemma SumsNothing(s: (nat, nat), data: seq<Byte>)
    requires data == []
    ensures Sums(s, data) == s
  {
  }

  lemma {:induction false} SumsReduced(s: (nat, nat), data: seq<Byte>)
    requires Reduced(s)
    ensures Reduced(Sums(s, data))
  {
    if data != [] { SumsReduced(s, data[..|data| - 1]); }
  }

  /** Checksumming x and then y is checksumming x + y. */
  lemma {:induction false} SumsConcat(s: (nat, nat), x: seq<Byte>, y: seq<Byte>)
    ensures Sums(s, x + y) == Sums(Sums(s, x), y)
  {
    if y == [] {
      assert x + y == x;
    } else {
      assert (x + y)[..|x + y| - 1] == x + y[..|y| - 1];
      SumsConcat(s, x, y[..|y| - 1]);
    }
  }

  // ----- the sums in closed form

  function Total(data: seq<Byte>): nat {
    if data == [] then 0 else Total(data[..|data| - 1]) + data[|data| - 1]
  }

  /** Each byte weighted by how many bytes, itself included, follow. */
  function Weighted(data: seq<Byte>): nat {
    if data == [] then 0 else Weighted(data[..|data| - 1]) + Total(data)
  }

  lemma ModAdd(a: nat, b: nat)
    ensures (a % MOD + b) % MOD == (a + b) % MOD && (b + a % MOD) % MOD == (b + a) % MOD
  {
    var q := a / MOD;
    assert a + b == MOD * q + (a % MOD + b);
  }

  /** The sums from any start: every byte is in the second one as often as there are bytes from it on. */
  lemma {:induction false} ClosedForm(s: (nat, nat), data: seq<Byte>)
    requires Reduced(s)
    ensures Sums(s, data) == ((s.0 + Total(data)) % MOD, (s.1 + Times(|data|, s.0) + Weighted(data)) % MOD)
  {
    if data != [] {
      var n := |data| - 1;
      ClosedForm(s, data[..n]);
      var t, w := s.0 + Total(data[..n]), s.1 + Times(n, s.0) + Weighted(data[..n]);
      ModAdd(t, data[n]);
      ModAdd(w, (t + data[n]) % MOD);
      ModAdd(t + data[n], w);
    }
  }

  function Times(n: nat, a: nat): nat { if n == 0 then 0 else Times(n - 1, a) + a }

  // ----- the deferred modulo

  type U32 = x: nat | x < 0x1_0000_0000

  function Add32(a: U32, b: U32): U32 { (a + b) % 0x1_0000_0000 }

  function Tri(n: nat): nat { if n == 0 then 0 else Tri(n - 1) + n }

  lemma {:induction false} TriTwice(n: nat)
    ensures 2 * Tri(n) == n * (n + 1)
  {
    if n > 0 { TriTwice(n - 1); }
  }

  lemma {:induction false} TriMono(m: nat, n: nat)
    requires m <= n
    ensures Tri(m) <= Tri(n)
  {
    if m < n { TriMono(m, n - 1); }
  }

  /** How large the sums can be i bytes into a block. */
  predicate Bounded(s1: nat, s2: nat, i: nat) {
    s1 <= 65520 + 255 * i && s2 <= 65520 + 65520 * i + 255 * Tri(i)
  }

  lemma BoundFits(s1: nat, s2: nat, i: nat)
    requires Bounded(s1, s2, i) && i <= BLOCK
    ensures s1 < 0x1_0000_0000 && s2 < 0x1_0000_0000
  {
    var b: nat := BLOCK;
    TriMono(i, b);
    TriTwice(b);
  }

  lemma BoundedNext(s1: nat, s2: nat, c: Byte, i: nat)
    requires Bounded(s1, s2, i)
    ensures Bounded(s1 + c, s2 + (s1 + c), i + 1)
  {
    assert Tri(i + 1) == Tri(i) + (i + 1);
  }

  /** One byte added without a modulo stays in thirty-two bits and means the same. */
  lemma ByteTaken(s1: U32, s2: U32, c: Byte, i: nat)
    requires Bounded(s1, s2, i) && i < BLOCK
    ensures var t1 := Add32(s1, c); var t2 := Add32(s2, t1);
            Bounded(t1, t2, i + 1) && (t1 % MOD, t2 % MOD) == Step((s1 % MOD, s2 % MOD), c)
  {
    hide Tri, Bounded;
    BoundedNext(s1, s2, c, i);
    BoundFits(s1 + c, s2 + (s1 + c), i + 1);
    ModAdd(s1, c);
    ModAdd(s1 + c, s2 % MOD);
    ModAdd(s2, s1 + c);
  }

  /** The unreduced sums p bytes into a block of the data. */
  ghost predicate Summed(s1: U32, s2: U32, start: (nat, nat), data: seq<Byte>, at: nat, i: nat) {
    at + i <= |data| && i <= BLOCK && Bounded(s1, s2, i) && (s1 % MOD, s2 % MOD) == Sums(start, data[..at + i])
  }

  method Take(s1: U32, s2: U32, data: seq<Byte>, p: nat, ghost start: (nat, nat), ghost at: nat, ghost i: nat)
      returns (t1: U32, t2: U32)
    requires Summed(s1, s2, start, data, at, i) && p == at + i < |data| && i < BLOCK
    ensures Summed(t1, t2, start, data, at, i + 1)
  {
    ByteTaken(s1, s2, data[p], i);
    assert data[..p + 1][..p] == data[..p];
    t1 := Add32(s1, data[p]);
    t2 := Add32(s2, t1);
  }

  /** The eight-fold loop's body. */
  method TakeEight(s1: U32, s2: U32, data: seq<Byte>, p: nat, ghost start: (nat, nat), ghost at: nat, ghost i: nat)
      returns (t1: U32, t2: U32)
    requires Summed(s1, s2, start, data, at, i) && p == at + i && p + 8 <= |data| && i + 8 <= BLOCK
    ensures Summed(t1, t2, start, data, at, i + 8)
  {
    hide Add32, Summed;
    t1, t2 := Take(s1, s2, data, p, start, at, i);
    t1, t2 := Take(t1, t2, data, p + 1, start, at, i + 1);
    t1, t2 := Take(t1, t2, data, p + 2, start, at, i + 2);
    t1, t2 := Take(t1, t2, data, p + 3, start, at, i + 3);
    t1, t2 := Take(t1, t2, data, p + 4, start, at, i + 4);
    t1, t2 := Take(t1, t2, data, p + 5, start, at, i + 5);
    t1, t2 := Take(t1, t2, data, p + 6, start, at, i + 6);
    t1, t2 := Take(t1, t2, data, p + 7, start, at, i + 7);
  }

  /** One block, then the modulo. */
  method SumBlock(s1: U32, s2: U32, data: seq<Byte>, at: nat, blockLen: nat, ghost start: (nat, nat))
      returns (t1: U32, t2: U32)
    requires at + blockLen <= |data| && blockLen <= BLOCK && Reduced((s1, s2)) && (s1, s2) == Sums(start, data[..at])
    ensures Reduced((t1, t2)) && (t1, t2) == Sums(start, data[..at + blockLen])
  {
    hide Sums, Step, Tri, Add32;
    t1, t2 := s1, s2;
    var p, i: nat := at, 0;
    while i + 7 < blockLen
      invariant i <= blockLen && p == at + i && Summed(t1, t2, start, data, at, i)
    {
      t1, t2 := TakeEight(t1, t2, data, p, start, at, i);
      i, p := i + 8, p + 8;
    }
    while i < blockLen
      invariant i <= blockLen && p == at + i && Summed(t1, t2, start, data, at, i)
    {
      t1, t2 := Take(t1, t2, data, p, start, at, i);
      i, p := i + 1, p + 1;
    }
    t1, t2 := t1 % MOD, t2 % MOD;
  }

  /** The checksum so far, continued over data; the first block takes what exceeds whole blocks and may be empty. */
  method Adler32(adler: U32, data: seq<Byte>) returns (r: U32)
    requires Reduced((adler % 0x1_0000, adler / 0x1_0000))
    ensures r == Pack(Sums((adler % 0x1_0000, adler / 0x1_0000), data))
    ensures var a, b := adler % 0x1_0000, adler / 0x1_0000;
            r % 0x1_0000 == (a + Total(data)) % MOD && r / 0x1_0000 == (b + Times(|data|, a) + Weighted(data)) % MOD
  {
    hide Weighted, Total, Times, Sums, Summed, Step;
    var s1: U32, s2: U32 := adler % 0x1_0000, adler / 0x1_0000;
    ghost var start := (s1, s2);
    var bufLen: nat, p: nat := |data|, 0;
    var blockLen := bufLen % BLOCK;
    SumsNothing(start, data[..0]);
    while bufLen > 0
      invariant p + bufLen == |data| && (blockLen == BLOCK ==> bufLen % BLOCK == 0)
      invariant blockLen == BLOCK || (blockLen == bufLen % BLOCK && p == 0)
      invariant Reduced((s1, s2)) && (s1, s2) == Sums(start, data[..p])
      decreases bufLen, BLOCK - blockLen
    {
      s1, s2 := SumBlock(s1, s2, data, p, blockLen, start);
      bufLen, p := bufLen - blockLen, p + blockLen;
      blockLen := BLOCK;
    }
    assert data[..p] == data;
    ClosedForm(start, data);
    r := s2 * 0x1_0000 + s1;
  }

  /** A checksum continued over more data is the checksum of everything. */
  lemma Continue(x: seq<Byte>, y: seq<Byte>)
    ensures var a := Checksum(x);
            a < 0x1_0000_0000 && Reduced((a % 0x1_0000, a / 0x1_0000)) &&
            Pack(Sums((a % 0x1_0000, a / 0x1_0000), y)) == Checksum(x + y)
  {
    SumsReduced((1, 0), x);
    SumsConcat((1, 0), x, y);
  }

  lemma {:induction false} TimesOne(n: nat)
    ensures Times(n, 1) == n
  {
    if n > 0 { TimesOne(n - 1); }
  }

  /** A checksum's low half sums the bytes and one, its high half weighs each by how many follow, itself included. */
  lemma ChecksumIs(data: seq<Byte>)
    ensures Checksum(data) % 0x1_0000 == (1 + Total(data)) % MOD
    ensures Checksum(data) / 0x1_0000 == (|data| + Weighted(data)) % MOD
  {
    hide Sums, Total, Weighted;
    ClosedForm((1, 0), data);
    TimesOne(|data|);
    Halves((|data| + Weighted(data)) % MOD, (1 + Total(data)) % MOD);
  }

  lemma Halves(high: nat, low: nat)
    requires low < 0x1_0000
    ensures var n := high * 0x1_0000 + low; n % 0x1_0000 == low && n / 0x1_0000 == high
  {
  }
}
