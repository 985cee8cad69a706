/** Canonical codes as section 3.2.2 of RFC 1951 describes them, and the fixed codes as section 3.2.6 lists them. */
module CodeOrder {
  import opened Bits
  import opened Canonical
  import opened Deflate
  import opened FixedCodes

  /** Codes are ordered by length, and by symbol among codes of one length. */
  predicate Before(s: seq<nat>, i: nat, j: nat)
    requires i < |s| && j < |s|
  {
    s[i] < s[j] || (s[i] == s[j] && i < j)
  }

  /** No code lies between those of i and j. */
  ghost predicate Adjacent(s: seq<nat>, i: nat, j: nat) {
    i < |s| && j < |s| && s[i] > 0 && Before(s, i, j) &&
    forall k: nat | k < |s| && s[k] > 0 :: !(Before(s, i, k) && Before(s, k, j))
  }

  ghost predicate First(s: seq<nat>, i: nat) {
    i < |s| && s[i] > 0 && forall k: nat | k < |s| && s[k] > 0 :: !Before(s, k, i)
  }

  lemma {:induction false} CountNone(s: seq<nat>, i: nat, j: nat, l: nat)
    requires i <= j <= |s| && forall k: nat | i <= k < j :: s[k] != l
    ensures Count(s[..j], l) == Count(s[..i], l)
    decreases j
  {
    if i < j {
      CountNone(s, i, j - 1, l);
      CountTake(s, j - 1, l);
    }
  }

  lemma NoneOf(s: seq<nat>, l: nat)
    requires forall k: nat | k < |s| :: s[k] != l
    ensures Count(s, l) == 0
  {
    CountNone(s, 0, |s|, l);
    assert s[..|s|] == s;
  }

  lemma {:induction false} SkipLengths(s: seq<nat>, l: nat, m: nat)
    requires 1 <= l < m && forall k: nat | k < |s| :: !(l < s[k] < m)
    ensures FirstCode(s, m) == Shl(FirstCode(s, l) + Count(s, l), m - l)
    decreases m
  {
    if l + 1 < m {
      SkipLengths(s, l, m - 1);
      NoneOf(s, m - 1);
    }
  }

  lemma {:induction false} NoShorter(s: seq<nat>, l: nat)
    requires l >= 1 && forall k: nat | k < |s| :: s[k] == 0 || s[k] >= l
    ensures FirstCode(s, l) == 0
  {
    if l > 1 {
      NoShorter(s, l - 1);
      NoneOf(s, l - 1);
    }
  }

  /** The first code consists of zeros. */
  lemma FirstIsZero(s: seq<nat>, i: nat)
    requires First(s, i)
    ensures CodeNum(s, i) == 0
  {
    forall k: nat | k < |s| ensures s[k] == 0 || s[k] >= s[i] { assert s[k] > 0 ==> !Before(s, k, i); }
    NoShorter(s, s[i]);
    forall k: nat | k < i ensures s[k] != s[i] { assert s[k] > 0 ==> !Before(s, k, i); }
    CountNone(s, 0, i, s[i]);
    assert s[..0] == [];
  }

  /** Every other code is the one before it plus one, with zeros appended when it is longer. */
  lemma NextCode(s: seq<nat>, i: nat, j: nat)
    requires Adjacent(s, i, j)
    ensures s[i] <= s[j] && CodeNum(s, j) == Shl(CodeNum(s, i) + 1, s[j] - s[i])
  {
    var l, m := s[i], s[j];
    CountTake(s, i, l);
    if l == m {
      forall k: nat | i + 1 <= k < j ensures s[k] != l { assert s[k] > 0 ==> !(Before(s, i, k) && Before(s, k, j)); }
      CountNone(s, i + 1, j, l);
    } else {
      forall k: nat | k < |s| ensures !(l < s[k] < m) { assert s[k] > 0 ==> !(Before(s, i, k) && Before(s, k, j)); }
      SkipLengths(s, l, m);
      forall k: nat | i + 1 <= k < |s| ensures s[k] != l { assert s[k] > 0 ==> !(Before(s, i, k) && Before(s, k, j)); }
      CountNone(s, i + 1, |s|, l);
      assert s[..|s|] == s;
      forall k: nat | k < j ensures s[k] != m { assert s[k] > 0 ==> !(Before(s, i, k) && Before(s, k, j)); }
      CountNone(s, 0, j, m);
      assert s[..0] == [];
    }
  }

  // ----- the fixed codes

  lemma FixedLength(i: nat)
    requires i < 288
    ensures FixedLit()[i] == if i < 144 then 8 else if i < 256 then 9 else if i < 280 then 7 else 8
  {
  }

  lemma {:induction false} FixedBefore(i: nat)
    requires i <= 288
    ensures Count(FixedLit()[..i], 7) == if i < 256 then 0 else if i < 280 then i - 256 else 24
    ensures Count(FixedLit()[..i], 8) == if i < 144 then i else if i < 280 then 144 else i - 136
    ensures Count(FixedLit()[..i], 9) == if i < 144 then 0 else if i < 256 then i - 144 else 112
  {
    hide FixedLit;
    if i > 0 {
      FixedBefore(i - 1);
      FixedLength(i - 1);
      CountTake(FixedLit(), i - 1, 7);
      CountTake(FixedLit(), i - 1, 8);
      CountTake(FixedLit(), i - 1, 9);
    } else {
      assert FixedLit()[..0] == [];
    }
  }

  /** The fixed literal and length codes, number by number. */
  lemma FixedCodeword(i: nat)
    requires i < 288
    ensures FixedLit()[i] > 0
    ensures Codeword(FixedLit(), i) ==
            if i < 144 then CodeBits(0x30 + i, 8) else if i < 256 then CodeBits(0x190 + (i - 144), 9)
            else if i < 280 then CodeBits(i - 256, 7) else CodeBits(0xC0 + (i - 280), 8)
  {
    hide FixedLit, CodeBits, FirstCode, Count;
    FixedLength(i);
    FixedBefore(i);
    FixedLitFirst(7);
    FixedLitFirst(8);
    FixedLitFirst(9);
  }

  lemma {:induction false} DistancesBefore(i: nat)
    requires i <= 32
    ensures Count(FixedDist()[..i], 5) == i
  {
    if i > 0 {
      DistancesBefore(i - 1);
      CountTake(FixedDist(), i - 1, 5);
    }
  }

  /** The fixed distance codes are the symbols in five bits. */
  lemma FixedDistance(i: nat)
    requires i < 32
    ensures FixedDist()[i] == 5 && Codeword(FixedDist(), i) == CodeBits(i, 5)
  {
    hide CodeBits, FirstCode, Count;
    DistancesBefore(i);
    FixedDistFirst(5);
  }
}
