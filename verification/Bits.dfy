/** Bit strings and fixed-width numbers, in the order DEFLATE writes them. */
module Bits {

  type Byte = b: nat | b < 256

  function Pow2(n: nat): (p: nat)
    ensures p > 0
  {
    if n == 0 then 1 else 2 * Pow2(n - 1)
  }

  /** The low n bits of v, least significant first: the order in which DEFLATE packs numbers. */
  function BitsOf(v: nat, n: nat): (b: seq<bool>)
    ensures |b| == n
  {
    if n == 0 then [] else [v % 2 == 1] + BitsOf(v / 2, n - 1)
  }

  /** The number whose bits, least significant first, are b. */
  function ValueOf(b: seq<bool>): (v: nat)
    ensures v < Pow2(|b|)
  {
    if b == [] then 0 else (if b[0] then 1 else 0) + 2 * ValueOf(b[1..])
  }

  /** The low n bits of v, most significant first: the order in which Huffman codes are read. */
  function CodeBits(v: nat, n: nat): (b: seq<bool>)
    ensures |b| == n
  {
    if n == 0 then [] else CodeBits(v / 2, n - 1) + [v % 2 == 1]
  }

  lemma {:induction false} Pow2Mono(m: nat, n: nat)
    requires m <= n
    ensures Pow2(m) <= Pow2(n)
  {
    if m < n { Pow2Mono(m, n - 1); }
  }

  lemma {:induction false} ValueOfBitsOf(v: nat, n: nat)
    requires v < Pow2(n)
    ensures ValueOf(BitsOf(v, n)) == v
  {
    if n > 0 {
      ValueOfBitsOf(v / 2, n - 1);
      assert BitsOf(v, n)[1..] == BitsOf(v / 2, n - 1);
    }
  }

  lemma {:induction false} BitsOfValueOf(b: seq<bool>)
    ensures BitsOf(ValueOf(b), |b|) == b
  {
    if b != [] {
      BitsOfValueOf(b[1..]);
      assert ValueOf(b) / 2 == ValueOf(b[1..]);
      assert b == [b[0]] + b[1..];
    }
  }

  /** Putting n bits of w above the m bits of v appends their bit strings. */
  lemma {:induction false} BitsOfAppend(v: nat, m: nat, w: nat, n: nat)
    requires v < Pow2(m)
    ensures BitsOf(v + Shl(w, m), m + n) == BitsOf(v, m) + BitsOf(w, n)
  {
    if m > 0 {
      BitsOfAppend(v / 2, m - 1, w, n);
      var x := Shl(w, m - 1);
      assert (v + 2 * x) / 2 == v / 2 + x && (v + 2 * x) % 2 == v % 2;
      assert [v % 2 == 1] + (BitsOf(v / 2, m - 1) + BitsOf(w, n)) == BitsOf(v, m) + BitsOf(w, n);
    }
  }

  lemma AppendBound(v: nat, m: nat, w: nat, n: nat)
    requires v < Pow2(m) && w < Pow2(n)
    ensures v + Shl(w, m) < Pow2(m + n)
  {
    ShlMono(w + 1, Pow2(n), m);
    ShlPow2(n, m);
    ShlPow2(0, m);
    ShlAdd(w, 1, m);
  }

  /** Taking the low m bits off a number. */
  lemma {:induction false} BitsOfSplit(v: nat, m: nat, n: nat)
    requires m <= n
    ensures BitsOf(v, n)[..m] == BitsOf(v, m) && BitsOf(v, n)[m..] == BitsOf(Shr(v, m), n - m)
  {
    if m > 0 {
      BitsOfSplit(v / 2, m - 1, n - 1);
    }
  }

  lemma ShlEight(v: nat)
    ensures Shl(v, 8) == 256 * v
  {
    assert Shl(v, 1) == 2 * v;
    assert Shl(v, 2) == 4 * v;
    assert Shl(v, 3) == 8 * v;
    assert Shl(v, 4) == 16 * v;
    assert Shl(v, 5) == 32 * v;
    assert Shl(v, 6) == 64 * v;
    assert Shl(v, 7) == 128 * v;
  }

  /** A number is its low byte and the rest. */
  lemma BitsOfByte(v: nat, n: nat)
    requires n >= 8
    ensures BitsOf(v, n) == BitsOf(v % 256, 8) + BitsOf(v / 256, n - 8)
    ensures v < Pow2(n) ==> v / 256 < Pow2(n - 8)
  {
    var lo, hi := v % 256, v / 256;
    ShlEight(hi);
    assert Pow2(8) == 256;
    BitsOfAppend(lo, 8, hi, n - 8);
    if v < Pow2(n) {
      ShlMono(Pow2(n - 8), hi, 8);
      ShlPow2(n - 8, 8);
    }
  }

  lemma MulMono(a: nat, b: nat, c: nat)
    requires a <= b
    ensures a * c <= b * c
  {
  }

  // ----- shifts by a variable amount, kept linear for the solver

  function Shl(v: nat, k: nat): nat {
    if k == 0 then v else 2 * Shl(v, k - 1)
  }

  function Shr(v: nat, k: nat): nat {
    if k == 0 then v else Shr(v / 2, k - 1)
  }

  lemma {:induction false} ShrShl(v: nat, q: nat, k: nat)
    ensures Shr(v, k) >= q <==> v >= Shl(q, k)
  {
    if k > 0 { ShrShl(v / 2, q, k - 1); }
  }

  lemma {:induction false} ShrSnoc(v: nat, k: nat)
    ensures Shr(v, k + 1) == Shr(v, k) / 2
  {
    if k > 0 { ShrSnoc(v / 2, k - 1); }
  }

  lemma {:induction false} ShlMono(a: nat, b: nat, k: nat)
    ensures a <= b <==> Shl(a, k) <= Shl(b, k)
  {
    if k > 0 { ShlMono(a, b, k - 1); }
  }

  lemma {:induction false} ShlPow2(m: nat, k: nat)
    ensures Shl(Pow2(m), k) == Pow2(m + k)
  {
    if k > 0 { ShlPow2(m, k - 1); }
  }

  lemma {:induction false} ShlAdd(a: nat, b: nat, k: nat)
    ensures Shl(a + b, k) == Shl(a, k) + Shl(b, k)
  {
    if k > 0 { ShlAdd(a, b, k - 1); }
  }

  lemma {:induction false} ShrBound(v: nat, m: nat, k: nat)
    requires v < Pow2(m + k)
    ensures Shr(v, k) < Pow2(m)
  {
    ShlPow2(m, k);
    ShrShl(v, Pow2(m), k);
  }

  lemma {:induction false} CodeBitsIndex(v: nat, n: nat, m: nat)
    requires m <= n
    ensures CodeBits(v, n)[..m] == CodeBits(Shr(v, n - m), m)
  {
    if m < n {
      CodeBitsIndex(v / 2, n - 1, m);
      assert CodeBits(v, n)[..m] == CodeBits(v / 2, n - 1)[..m];
    }
  }

  lemma {:induction false} CodeBitsInjective(v: nat, w: nat, n: nat)
    requires v < Pow2(n) && w < Pow2(n)
    requires CodeBits(v, n) == CodeBits(w, n)
    ensures v == w
  {
    if n > 0 {
      assert CodeBits(v / 2, n - 1) == CodeBits(v, n)[..n - 1];
      assert CodeBits(w / 2, n - 1) == CodeBits(w, n)[..n - 1];
      assert CodeBits(v, n)[n - 1] == (v % 2 == 1);
      assert CodeBits(w, n)[n - 1] == (w % 2 == 1);
      CodeBitsInjective(v / 2, w / 2, n - 1);
    }
  }

  // ----- bytes

  function BytesBits(bytes: seq<Byte>): (b: seq<bool>)
    ensures |b| == 8 * |bytes|
  {
    if bytes == [] then [] else BitsOf(bytes[0], 8) + BytesBits(bytes[1..])
  }

  lemma {:induction false} BytesBitsConcat(a: seq<Byte>, b: seq<Byte>)
    ensures BytesBits(a + b) == BytesBits(a) + BytesBits(b)
  {
    if a == [] {
      assert a + b == b;
    } else {
      assert (a + b)[1..] == a[1..] + b;
      BytesBitsConcat(a[1..], b);
    }
  }

  lemma BytesBitsSnoc(a: seq<Byte>, b: Byte)
    ensures BytesBits(a + [b]) == BytesBits(a) + BitsOf(b, 8)
  {
    BytesBitsConcat(a, [b]);
    assert BytesBits([b]) == BitsOf(b, 8) + BytesBits([]);
  }
}
