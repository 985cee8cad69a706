/** Canonical Huffman codes, sections 3.2.2 of RFC 1951: codes of one length are consecutive, in symbol order. */
module Canonical {
  import opened Bits

  datatype Option<+T> = None | Some(value: T)

  /** The longest code length DEFLATE allows. */
  const MAX_LEN: nat := 15

  /** How many entries of s equal l. */
  function Count(s: seq<nat>, l: nat): (c: nat)
    ensures c <= |s|
  {
    if s == [] then 0
    else (if s[|s| - 1] == l then 1 else 0) + Count(s[..|s| - 1], l)
  }

  /** The smallest code of length l. */
  function FirstCode(s: seq<nat>, l: nat): nat
    requires l >= 1
  {
    if l == 1 then 0 else 2 * (FirstCode(s, l - 1) + Count(s, l - 1))
  }

  /** The code number of symbol i. */
  function CodeNum(s: seq<nat>, i: nat): nat
    requires i < |s| && s[i] > 0
  {
    FirstCode(s, s[i]) + Count(s[..i], s[i])
  }

  /** The bits of symbol i's code in reading order. */
  function Codeword(s: seq<nat>, i: nat): (b: seq<bool>)
    requires i < |s| && s[i] > 0
  {
    CodeBits(CodeNum(s, i), s[i])
  }

  ghost predicate Lengths(s: seq<nat>) {
    forall i | 0 <= i < |s| :: s[i] <= MAX_LEN
  }

  /** Kraft's inequality, in the form the decoder computes it. */
  ghost predicate Fits(s: seq<nat>) {
    Lengths(s) && FirstCode(s, 16) <= Pow2(16)
  }

  /** Kraft's equality: every long enough bit string starts with a code. */
  ghost predicate Complete(s: seq<nat>) {
    Lengths(s) && FirstCode(s, 16) == Pow2(16)
  }

  // ----- counting

  lemma {:induction false} CountTake(s: seq<nat>, i: nat, l: nat)
    requires i < |s|
    ensures Count(s[..i + 1], l) == Count(s[..i], l) + (if s[i] == l then 1 else 0)
  {
    assert s[..i + 1][..i] == s[..i];
  }

  lemma {:induction false} CountMono(s: seq<nat>, i: nat, j: nat, l: nat)
    requires i <= j <= |s|
    ensures Count(s[..i], l) <= Count(s[..j], l)
  {
    if i < j {
      CountMono(s, i, j - 1, l);
      CountTake(s, j - 1, l);
    }
  }

  lemma CountBelow(s: seq<nat>, i: nat)
    requires i < |s|
    ensures Count(s[..i], s[i]) < Count(s, s[i])
  {
    CountTake(s, i, s[i]);
    CountMono(s, i + 1, |s|, s[i]);
    assert s[..|s|] == s;
  }

  /** The symbol at rank k among those of length l. */
  function Nth(s: seq<nat>, l: nat, k: nat): (i: nat)
    requires k < Count(s, l)
    ensures i < |s| && s[i] == l && Count(s[..i], l) == k
  {
    var n := |s| - 1;
    if s[n] == l && k == Count(s[..n], l) then n
    else
      var i := Nth(s[..n], l, k);
      assert s[..n][..i] == s[..i];
      i
  }

  lemma NthUnique(s: seq<nat>, i: nat)
    requires i < |s|
    ensures Count(s[..i], s[i]) < Count(s, s[i])
    ensures Nth(s, s[i], Count(s[..i], s[i])) == i
  {
    CountBelow(s, i);
    var j := Nth(s, s[i], Count(s[..i], s[i]));
    if j < i {
      CountTake(s, j, s[i]);
      CountMono(s, j + 1, i, s[i]);
    } else if i < j {
      CountTake(s, i, s[i]);
      CountMono(s, i + 1, j, s[i]);
    }
  }

  // ----- the gaps between lengths

  lemma {:induction false} FirstCodeGap(s: seq<nat>, l: nat, m: nat)
    requires 1 <= l < m
    ensures FirstCode(s, m) >= Shl(FirstCode(s, l) + Count(s, l), m - l)
  {
    if l + 1 < m {
      FirstCodeGap(s, l, m - 1);
    }
  }

  lemma FitsAt(s: seq<nat>, l: nat)
    requires Fits(s) && 1 <= l <= MAX_LEN
    ensures FirstCode(s, l) + Count(s, l) <= Pow2(l)
  {
    hide FirstCode, Count, Shl, Pow2;
    var top: nat := 16;
    var q, k, p := FirstCode(s, l) + Count(s, l), top - l, Pow2(l);
    FirstCodeGap(s, l, top);
    ShlPow2(l, k);
    ShlMono(q, p, k);
  }

  lemma CodeNumFits(s: seq<nat>, i: nat)
    requires Fits(s) && i < |s| && s[i] > 0
    ensures CodeNum(s, i) < Pow2(s[i])
  {
    FitsAt(s, s[i]);
    CountBelow(s, i);
  }

  /** A longer code never starts with the bits of a shorter one. */
  lemma CodeNumGap(s: seq<nat>, i: nat, l: nat)
    requires i < |s| && 1 <= l < s[i]
    ensures Shr(CodeNum(s, i), s[i] - l) >= FirstCode(s, l) + Count(s, l)
  {
    hide FirstCode, Count, Shl, Shr;
    var c, q, k := CodeNum(s, i), FirstCode(s, l) + Count(s, l), s[i] - l;
    FirstCodeGap(s, l, s[i]);
    ShrShl(c, q, k);
  }

  /** No code is a prefix of another one. */
  lemma PrefixFree(s: seq<nat>, i: nat, j: nat)
    requires Fits(s) && i < |s| && j < |s| && s[i] > 0 && s[j] > 0
    requires Codeword(s, i) <= Codeword(s, j)
    ensures i == j
  {
    var l, m := s[i], s[j];
    var c, d := CodeNum(s, i), CodeNum(s, j);
    CodeNumFits(s, i);
    CodeNumFits(s, j);
    CodeBitsIndex(d, m, l);
    assert Codeword(s, j)[..l] == Codeword(s, i);
    ShrBound(d, l, m - l);
    CodeBitsInjective(c, Shr(d, m - l), l);
    CountBelow(s, i);
    if l < m {
      CodeNumGap(s, j, l);
    } else {
      NthUnique(s, i);
      NthUnique(s, j);
    }
  }

  // ----- bit-by-bit decoding

  /** Reads on after l bits that form the number code and are not yet a code. */
  function DecodeFrom(s: seq<nat>, bits: seq<bool>, l: nat, code: nat): (r: Option<(nat, nat)>)
    requires l <= |bits| && l <= MAX_LEN
    ensures r.Some? ==> r.value.0 < |s| && 0 < r.value.1 <= |bits| && s[r.value.0] == r.value.1
    decreases MAX_LEN - l
  {
    if Matches(s, l, code) then
      Some((Nth(s, l, code - FirstCode(s, l)), l))
    else if l == MAX_LEN || l == |bits| then None
    else DecodeFrom(s, bits, l + 1, 2 * code + (if bits[l] then 1 else 0))
  }

  /** The symbol whose code starts the bit string, and the length of that code. */
  function DecodeSym(s: seq<nat>, bits: seq<bool>): (r: Option<(nat, nat)>)
    ensures r.Some? ==> r.value.0 < |s| && 0 < r.value.1 <= |bits| && s[r.value.0] == r.value.1
  {
    DecodeFrom(s, bits, 0, 0)
  }

  lemma DecodeHere(s: seq<nat>, bits: seq<bool>, l: nat, code: nat)
    requires l <= |bits| && l <= MAX_LEN && Matches(s, l, code)
    ensures DecodeFrom(s, bits, l, code) == Some((Nth(s, l, code - FirstCode(s, l)), l))
  {
  }

  lemma DecodeOn(s: seq<nat>, bits: seq<bool>, l: nat, code: nat, code': nat)
    requires l < |bits| && l < MAX_LEN && !Matches(s, l, code) && code' == 2 * code + (if bits[l] then 1 else 0)
    ensures DecodeFrom(s, bits, l, code) == DecodeFrom(s, bits, l + 1, code')
  {
  }

  lemma CodeBitsSnoc(code: nat, l: nat, b: bool)
    ensures CodeBits(2 * code + (if b then 1 else 0), l + 1) == CodeBits(code, l) + [b]
  {
  }

  predicate Matches(s: seq<nat>, l: nat, code: nat) {
    l >= 1 && FirstCode(s, l) <= code < FirstCode(s, l) + Count(s, l)
  }

  lemma MatchIsCode(s: seq<nat>, bits: seq<bool>, l: nat, code: nat)
    requires Matches(s, l, code) && l <= |bits| && CodeBits(code, l) == bits[..l]
    ensures var i := Nth(s, l, code - FirstCode(s, l)); Codeword(s, i) <= bits
  {
    var i := Nth(s, l, code - FirstCode(s, l));
    assert CodeNum(s, i) == code;
  }

  lemma {:induction false} DecodeFromSound(s: seq<nat>, bits: seq<bool>, l: nat, code: nat, i: nat)
    requires l <= |bits| && l <= MAX_LEN && i < |s| && s[i] > 0
    requires CodeBits(code, l) == bits[..l]
    requires DecodeFrom(s, bits, l, code) == Some((i, s[i]))
    ensures Codeword(s, i) <= bits
    decreases MAX_LEN - l
  {
    hide FirstCode, Count, Nth, Matches, CodeBits, Codeword, CodeNum;
    if Matches(s, l, code) {
      MatchIsCode(s, bits, l, code);
      return;
    }
    var code' := 2 * code + (if bits[l] then 1 else 0);
    CodeBitsSnoc(code, l, bits[l]);
    assert bits[..l + 1] == bits[..l] + [bits[l]];
    DecodeFromSound(s, bits, l + 1, code', i);
  }

  lemma CodeMatches(s: seq<nat>, i: nat)
    requires i < |s| && s[i] > 0
    ensures Matches(s, s[i], CodeNum(s, i)) && Nth(s, s[i], CodeNum(s, i) - FirstCode(s, s[i])) == i
  {
    CountBelow(s, i);
    NthUnique(s, i);
  }

  lemma PrefixDoesNotMatch(s: seq<nat>, i: nat, l: nat)
    requires i < |s| && l < s[i]
    ensures !Matches(s, l, Shr(CodeNum(s, i), s[i] - l))
  {
    if l >= 1 { CodeNumGap(s, i, l); }
  }

  /** Reading one more bit of symbol i's code. */
  lemma ReadBit(bits: seq<bool>, c: nat, m: nat, l: nat)
    requires l < m <= |bits| && CodeBits(c, m) == bits[..m]
    ensures 2 * Shr(c, m - l) + (if bits[l] then 1 else 0) == Shr(c, m - l - 1)
  {
    var d := Shr(c, m - l - 1);
    ShrSnoc(c, m - l - 1);
    CodeBitsIndex(c, m, l + 1);
    assert CodeBits(d, l + 1)[l] == bits[..m][..l + 1][l];
    assert CodeBits(d, l + 1)[l] == (d % 2 == 1);
  }

  lemma {:induction false} DecodeFromFinds(s: seq<nat>, bits: seq<bool>, l: nat, code: nat, i: nat)
    requires Lengths(s) && i < |s| && s[i] > 0 && Codeword(s, i) <= bits
    requires l <= s[i] && code == Shr(CodeNum(s, i), s[i] - l)
    ensures l <= |bits| && DecodeFrom(s, bits, l, code) == Some((i, s[i]))
    decreases s[i] - l
  {
    if l == s[i] {
      CodeMatches(s, i);
      return;
    }
    PrefixDoesNotMatch(s, i, l);
    var code' := 2 * code + (if bits[l] then 1 else 0);
    ReadBit(bits, CodeNum(s, i), s[i], l);
    DecodeFromFinds(s, bits, l + 1, code', i);
  }

  /** Bit-by-bit decoding finds a symbol exactly when its code starts the bit string. */
  lemma DecodeSymIff(s: seq<nat>, bits: seq<bool>, i: nat)
    requires Fits(s) && i < |s| && s[i] > 0
    ensures DecodeSym(s, bits) == Some((i, s[i])) <==> Codeword(s, i) <= bits
  {
    var z: nat := 0;
    if DecodeSym(s, bits) == Some((i, s[i])) { DecodeFromSound(s, bits, z, z, i); }
    if Codeword(s, i) <= bits {
      var c, k := CodeNum(s, i), s[i];
      CodeNumFits(s, i);
      ShrBound(c, z, k);
      DecodeFromFinds(s, bits, z, z, i);
    }
  }

  /** Decoding undoes encoding, whatever follows the code. */
  lemma DecodeCodeword(s: seq<nat>, i: nat, rest: seq<bool>)
    requires Fits(s) && i < |s| && s[i] > 0
    ensures DecodeSym(s, Codeword(s, i) + rest) == Some((i, s[i]))
    ensures (Codeword(s, i) + rest)[s[i]..] == rest
  {
    DecodeSymIff(s, Codeword(s, i) + rest, i);
  }

  // ----- trailing unused symbols do not matter

  lemma {:induction false} CountTrim(s: seq<nat>, k: nat, l: nat)
    requires k <= |s| && l > 0 && forall i | k <= i < |s| :: s[i] == 0
    ensures Count(s, l) == Count(s[..k], l)
  {
    if k < |s| {
      var t := s[..|s| - 1];
      CountTrim(t, k, l);
      assert t[..k] == s[..k];
    } else {
      assert s[..k] == s;
    }
  }

  lemma {:induction false} FirstCodeTrim(s: seq<nat>, k: nat, l: nat)
    requires k <= |s| && l > 0 && forall i | k <= i < |s| :: s[i] == 0
    ensures FirstCode(s, l) == FirstCode(s[..k], l)
  {
    if l > 1 {
      FirstCodeTrim(s, k, l - 1);
      CountTrim(s, k, l - 1);
    }
  }

  lemma CodewordTrim(s: seq<nat>, k: nat, i: nat)
    requires i < k <= |s| && s[i] > 0 && forall j | k <= j < |s| :: s[j] == 0
    ensures Codeword(s[..k], i) == Codeword(s, i)
  {
    FirstCodeTrim(s, k, s[i]);
    assert s[..k][..i] == s[..i];
  }
}
