/** Numbers stored with their low byte first. */
module LittleEndian {
  import opened Bits

  /** Byte i counts 256 to the power of i. */
  function Number(b: seq<Byte>): nat {
    if b == [] then 0 else b[0] + 256 * Number(b[1..])
  }

  lemma TwoIs(b: seq<Byte>)
    requires |b| == 2
    ensures Number(b) == b[0] + 256 * (b[1] as nat)
  {
    var c := b[1..];
    assert c[0] == b[1] && c[1..] == [];
    assert Number(c) == b[1];
  }

  lemma FourIs(b: seq<Byte>)
    requires |b| == 4
    ensures Number(b) == b[0] + 256 * (b[1] as nat) + 0x1_0000 * (b[2] as nat) + 0x100_0000 * (b[3] as nat)
  {
    var c, d := b[1..], b[2..];
    TwoIs(d);
    assert c[0] == b[1] && c[1..] == d;
    assert Number(c) == b[1] + 256 * Number(d);
  }

  lemma {:induction false} ValueOfConcat(a: seq<bool>, b: seq<bool>)
    ensures ValueOf(a + b) == ValueOf(a) + Shl(ValueOf(b), |a|)
  {
    if a == [] {
      assert a + b == b;
    } else {
      assert (a + b)[1..] == a[1..] + b;
      ValueOfConcat(a[1..], b);
    }
  }

  /** The bits of a number stored this way, one byte's behind the other's, are the number's, lowest first. */
  lemma {:induction false} BitsOfNumber(b: seq<Byte>)
    ensures ValueOf(BytesBits(b)) == Number(b)
  {
    if b != [] {
      BitsOfNumber(b[1..]);
      ValueOfConcat(BitsOf(b[0], 8), BytesBits(b[1..]));
      ShlEight(Number(b[1..]));
      assert Pow2(8) == 256;
      ValueOfBitsOf(b[0], 8);
    }
  }

  /** The low k bits of a number. */
  lemma LowBits(bits: seq<bool>, k: nat)
    requires k <= |bits|
    ensures ValueOf(bits[..k]) == ValueOf(bits) % Pow2(k)
  {
    var low, high := bits[..k], bits[k..];
    assert bits == low + high;
    ValueOfConcat(low, high);
    ShlIs(ValueOf(high), k);
    ModIs(ValueOf(bits), Pow2(k), ValueOf(high), ValueOf(low));
  }

  lemma {:induction false} ShlIs(v: nat, k: nat)
    ensures Shl(v, k) == Pow2(k) * v
  {
    if k > 0 {
      ShlIs(v, k - 1);
      assert 2 * (Pow2(k - 1) * v) == 2 * Pow2(k - 1) * v;
    }
  }

  lemma ModIs(v: nat, m: nat, q: nat, r: nat)
    requires v == m * q + r && r < m
    ensures v % m == r
  {
    var k: nat := v / m;
    assert v == m * k + v % m;
    if k < q { MulMono(k + 1, q, m); } else if q < k { MulMono(q + 1, k, m); }
  }
}
