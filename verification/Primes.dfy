/** The modulus of Adler-32: the largest prime smaller than 65536, as the sample code of RFC 1950 has it. */
module Primes {
  import opened Bits
  import opened Adler

  ghost predicate IsPrime(n: nat) {
    n >= 2 && forall d: nat | 2 <= d < n :: n % d != 0
  }

  /** No number from two to k divides n. */
  ghost predicate NoDivisor(n: nat, k: nat) {
    forall d: nat | 2 <= d <= k :: n % d != 0
  }

  /** None of sixteen odd numbers behind k divides n. */
  predicate OddTrials(n: nat, k: nat) {
    n % (k + 2) != 0 && n % (k + 4) != 0 && n % (k + 6) != 0 && n % (k + 8) != 0 && n % (k + 10) != 0 &&
    n % (k + 12) != 0 && n % (k + 14) != 0 && n % (k + 16) != 0 && n % (k + 18) != 0 && n % (k + 20) != 0 &&
    n % (k + 22) != 0 && n % (k + 24) != 0 && n % (k + 26) != 0 && n % (k + 28) != 0 && n % (k + 30) != 0 &&
    n % (k + 32) != 0
  }

  lemma OddTried(n: nat, k: nat, d: nat)
    requires k % 2 == 1 && d % 2 == 1 && k < d <= k + 32 && OddTrials(n, k)
    ensures n % d != 0
  {
    assert d == k + 2 || d == k + 4 || d == k + 6 || d == k + 8 || d == k + 10 || d == k + 12 || d == k + 14 ||
           d == k + 16 || d == k + 18 || d == k + 20 || d == k + 22 || d == k + 24 || d == k + 26 || d == k + 28 ||
           d == k + 30 || d == k + 32;
  }

  lemma TriedOn(n: nat, k: nat)
    requires n % 2 == 1 && k % 2 == 1 && NoDivisor(n, k) && OddTrials(n, k)
    ensures NoDivisor(n, k + 32)
  {
    hide OddTrials;
    forall d: nat | 2 <= d <= k + 32 ensures n % d != 0 {
      if d % 2 == 0 {
        EvenDivides(n, d);
      } else if d > k {
        OddTried(n, k, d);
      }
    }
  }

  lemma EvenDivides(n: nat, d: nat)
    requires d > 0 && d % 2 == 0
    ensures n % d == 0 ==> n % 2 == 0
  {
    if n % d == 0 {
      var q, e := n / d, d / 2;
      assert n == q * d == q * (2 * e) == 2 * (q * e);
    }
  }

  lemma FirstTrials()
    ensures NoDivisor(MOD, 129)
  {
    assert NoDivisor(MOD, 1);
    hide NoDivisor;
    TriedOn(MOD, 1);
    TriedOn(MOD, 33);
    TriedOn(MOD, 65);
    TriedOn(MOD, 97);
  }

  lemma Trials()
    ensures NoDivisor(MOD, 257)
  {
    hide NoDivisor;
    FirstTrials();
    TriedOn(MOD, 129);
    TriedOn(MOD, 161);
    TriedOn(MOD, 193);
    TriedOn(MOD, 225);
  }

  /** Below 65536 a divisor is small or leaves a small quotient. */
  lemma SmallDivisor(n: nat, d: nat) returns (e: nat)
    requires n < 0x1_0000 && 2 <= d < n && n % d == 0
    ensures 2 <= e <= 255 && n % e == 0
  {
    e := if d <= 255 then d else n / d;
    if d > 255 { SmallQuotient(n, e, d); }
  }

  lemma SmallQuotient(n: nat, q: nat, d: nat)
    requires n < 0x1_0000 && 256 <= d < n && q == n / d && n % d == 0
    ensures 2 <= q <= 255 && n % q == 0
  {
    assert n == q * d;
    if q >= 256 { Product(q, d); }
    Divides(q, d);
  }

  lemma Product(q: nat, d: nat)
    requires q >= 256 && d >= 256
    ensures q * d >= 0x1_0000
  {
    assert q * d >= 256 * d;
  }

  lemma Divides(q: nat, d: nat)
    requires q > 0
    ensures (q * d) % q == 0
  {
    var k: nat := (q * d) / q;
    assert d * q == k * q + (q * d) % q;
    if k < d { MulMono(k + 1, d, q); } else { MulMono(d, k, q); }
  }

  /** The modulus of the checksum is the largest prime below 65536. */
  lemma LargestPrime()
    ensures IsPrime(MOD) && MOD < 0x1_0000
    ensures forall n: nat | MOD < n < 0x1_0000 :: !IsPrime(n)
  {
    Trials();
    forall d: nat | 2 <= d < MOD ensures MOD % d != 0 {
      if MOD % d == 0 { var _ := SmallDivisor(MOD, d); }
    }
    forall n: nat | MOD < n < 0x1_0000 ensures !IsPrime(n) {
      assert n % 2 == 0 || n % 3 == 0 || n % 5 == 0 || n % 7 == 0 || n % 13 == 0 || n % 19 == 0;
    }
  }
}
