/** What a dynamic block may say of its codes: sections 3.2.2 and 3.2.7 of RFC 1951. */
module TableFacts {
  import opened Bits
  import opened Canonical
  import opened Deflate
  import opened LittleEndian

  // ----- how many codes there are

  /**
   * The 14 bits in front are one number: 257 and its remainder by 32 literal and length codes, 1 and the next five
   * bits distance codes, and 4 and the last four bits code length codes.
   */
  lemma TableCounts(bits: seq<bool>)
    requires |bits| >= 14
    ensures var n := ValueOf(bits[..14]);
            4 + n / 1024 <= 19 &&
            ReadTables(bits) == ReadPacked(257 + n % 32, 1 + n / 32 % 32, 4 + n / 1024, bits[14..])
  {
    hide ReadPacked;
    var a, b, c := bits[..5], bits[5..10], bits[10..14];
    assert bits[..14] == a + (b + c);
    ValueOfConcat(a, b + c);
    ValueOfConcat(b, c);
    assert Pow2(4) == 16 && Pow2(5) == 32;
    FiveUp(ValueOf(b + c));
    FiveUp(ValueOf(c));
    CountsOf(ValueOf(a), ValueOf(b), ValueOf(c), ValueOf(bits[..14]));
  }

  lemma FiveUp(v: nat)
    ensures Shl(v, 5) == 32 * v
  {
    ShlIs(v, 5);
    assert Pow2(5) == 32;
  }

  lemma CountsOf(a: nat, b: nat, c: nat, n: nat)
    requires a < 32 && b < 32 && c < 16 && n == a + 32 * (b + 32 * c)
    ensures n % 32 == a && n / 32 % 32 == b && n / 1024 == c
  {
    assert n / 32 == b + 32 * c;
  }

  // ----- which lengths make a code

  /** How much of all bit strings the codes take up, in units of those with fifteen given bits. */
  ghost function Share(s: seq<nat>): nat
    requires forall i | 0 <= i < |s| :: s[i] <= 15
  {
    if s == [] then 0
    else Share(s[..|s| - 1]) + if s[|s| - 1] == 0 then 0 else Pow2(15 - s[|s| - 1])
  }

  lemma {:induction false} FirstCodeSnoc(s: seq<nat>, l: nat, m: nat)
    requires m >= 1
    ensures FirstCode(s + [l], m) == FirstCode(s, m) + if 0 < l < m then Pow2(m - l) else 0
  {
    if m > 1 {
      FirstCodeSnoc(s, l, m - 1);
      assert (s + [l])[..|s|] == s;
    }
  }

  lemma {:induction false} NoCodes(m: nat)
    requires m >= 1
    ensures FirstCode([], m) == 0
  {
    if m > 1 { NoCodes(m - 1); }
  }

  lemma {:induction false} ShareIs(s: seq<nat>)
    requires forall i | 0 <= i < |s| :: s[i] <= 15
    ensures FirstCode(s, 16) == 2 * Share(s)
  {
    if s == [] {
      NoCodes(16);
    } else {
      var t, l := s[..|s| - 1], s[|s| - 1];
      assert t + [l] == s;
      ShareIs(t);
      FirstCodeSnoc(t, l, 16);
      if l > 0 { assert Pow2(16 - l) == 2 * Pow2(15 - l); }
    }
  }

  lemma {:induction false} Unused(s: seq<nat>)
    ensures |s| - Count(s, 0) == 0 <==> forall i | 0 <= i < |s| :: s[i] == 0
  {
    if s != [] {
      var n := |s| - 1;
      Unused(s[..n]);
      if s[n] == 0 {
        assert (forall i | 0 <= i < n :: s[..n][i] == 0) <==> forall i | 0 <= i < |s| :: s[i] == 0;
      }
    }
  }

  lemma {:induction false} AtMostOne(s: seq<nat>)
    ensures |s| - Count(s, 0) <= 1 <==> forall i, j | 0 <= i < j < |s| :: s[i] == 0 || s[j] == 0
  {
    if s != [] {
      var n := |s| - 1;
      var t := s[..n];
      AtMostOne(t);
      Unused(t);
      assert forall i, j | 0 <= i < j < n :: (t[i] == 0 || t[j] == 0) <==> (s[i] == 0 || s[j] == 0);
      assert forall i | 0 <= i < n :: t[i] == s[i];
    }
  }

  /**
   * Lengths are accepted when none is above fifteen, and either at most one symbol has a code or the codes take up
   * all bit strings.
   */
  lemma AcceptsIff(s: seq<nat>)
    ensures Accepts(s) <==>
            (forall i | 0 <= i < |s| :: s[i] <= 15) &&
            ((forall i, j | 0 <= i < j < |s| :: s[i] == 0 || s[j] == 0) || Share(s) == 32768)
  {
    AtMostOne(s);
    if forall i | 0 <= i < |s| :: s[i] <= 15 {
      ShareIs(s);
      Sixteen();
    }
  }

  lemma Sixteen()
    ensures Pow2(16) == 65536
  {
    assert Pow2(8) == 256 && Pow2(12) == 4096;
  }
}
