/** The two fixed codes of section 3.2.6 of RFC 1951. */
module FixedCodes {
  import opened Bits
  import opened Canonical
  import opened Deflate

  lemma {:induction false} CountConcat(a: seq<nat>, b: seq<nat>, l: nat)
    ensures Count(a + b, l) == Count(a, l) + Count(b, l)
  {
    if b == [] {
      assert a + b == a;
    } else {
      assert (a + b)[..|a + b| - 1] == a + b[..|b| - 1];
      CountConcat(a, b[..|b| - 1], l);
    }
  }

  lemma {:induction false} CountRepeat(v: nat, n: nat, l: nat)
    ensures Count(Repeat(v, n), l) == if v == l then n else 0
  {
    if n > 0 {
      CountRepeat(v, n - 1, l);
      CountConcat([v], Repeat(v, n - 1), l);
      assert [v][..0] == [] && Count([v], l) == (if v == l then 1 else 0);
    }
  }

  lemma FixedLitCount(l: nat)
    ensures Count(FixedLit(), l) == if l == 7 then 24 else if l == 8 then 152 else if l == 9 then 112 else 0
  {
    var a, b, c, d := Repeat(8, 144), Repeat(9, 112), Repeat(7, 24), Repeat(8, 8);
    CountConcat(a + b + c, d, l);
    CountConcat(a + b, c, l);
    CountConcat(a, b, l);
    CountRepeat(8, 144, l);
    CountRepeat(9, 112, l);
    CountRepeat(7, 24, l);
    CountRepeat(8, 8, l);
  }

  lemma {:induction false} FixedLitFirst(l: nat)
    requires l >= 1
    ensures l <= 7 ==> FirstCode(FixedLit(), l) == 0
    ensures l == 8 ==> FirstCode(FixedLit(), l) == 48
    ensures l == 9 ==> FirstCode(FixedLit(), l) == 400
    ensures l >= 10 ==> FirstCode(FixedLit(), l) == Pow2(l)
  {
    if l > 1 {
      FixedLitFirst(l - 1);
      FixedLitCount(l - 1);
      if l == 10 { assert Pow2(10) == 1024; }
    }
  }

  lemma {:induction false} FixedDistFirst(l: nat)
    requires l >= 1
    ensures l <= 5 ==> FirstCode(FixedDist(), l) == 0
    ensures l >= 6 ==> FirstCode(FixedDist(), l) == Pow2(l)
  {
    if l > 1 {
      FixedDistFirst(l - 1);
      CountRepeat(5, 32, l - 1);
      if l == 6 { assert Pow2(6) == 64; }
    }
  }

  /** Both fixed codes are complete. */
  lemma FixedComplete()
    ensures Complete(FixedLit()) && Complete(FixedDist())
  {
    var l: nat := 16;
    FixedLitFirst(l);
    FixedDistFirst(l);
    FixedLengths();
  }

  lemma FixedAccepted()
    ensures Accepts(FixedLit()) && Accepts(FixedDist())
  {
    FixedComplete();
  }

  lemma FixedLengths()
    ensures forall i | 0 <= i < 288 :: 7 <= FixedLit()[i] <= 9
    ensures forall i | 0 <= i < 32 :: FixedDist()[i] == 5
  {
  }
}
