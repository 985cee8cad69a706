/** When two file names are the same, and what the part of a path after its last separator is (miniz's zip reader). */
module NameFacts {
  import opened Bits
  import opened ZipIndex

  /** The same byte, or the same letter in the other case. */
  predicate SameLetter(c: Byte, d: Byte) {
    c == d || CaseOf(c, d) || CaseOf(d, c)
  }

  predicate CaseOf(upper: Byte, lower: Byte) {
    'A' <= upper as char <= 'Z' && lower as int - upper as int == 'a' as int - 'A' as int
  }

  lemma LetterIff(c: Byte, d: Byte)
    ensures ToLower(c) == ToLower(d) <==> SameLetter(c, d)
  {
  }

  lemma SeparatorIff(c: Byte)
    ensures IsSeparator(c) <==> c as char in "/\\:"
  {
    var s := "/\\:";
    assert s[0] == '/' && s[1] == '\\' && s[2] == ':';
  }

  /** Names compare equal when they agree letter by letter. */
  lemma NamesIff(a: Name, b: Name)
    ensures Lower(a) == Lower(b) <==> |a| == |b| && forall i | 0 <= i < |a| :: SameLetter(a[i], b[i])
  {
    forall i | 0 <= i < |a| && i < |b| ensures ToLower(a[i]) == ToLower(b[i]) <==> SameLetter(a[i], b[i]) {
      LetterIff(a[i], b[i]);
    }
    if Lower(a) == Lower(b) {
      assert |a| == |Lower(a)| == |Lower(b)| == |b|;
      forall i | 0 <= i < |a| ensures SameLetter(a[i], b[i]) { assert Lower(a)[i] == Lower(b)[i]; }
    }
  }

  /** A path's base: no separator in it, and none before it but one right in front. */
  predicate IsBase(n: Name, i: nat) {
    i <= |n| && (i > 0 ==> n[i - 1] as char in "/\\:") && forall k | i <= k < |n| :: n[k] as char !in "/\\:"
  }

  /** A file matches when its name, or its path's base, is the query, letter by letter if case is ignored. */
  lemma MatchesIff(n: Name, query: Name, flags: Flags)
    ensures Matches(n, query, flags) <==>
            exists i: nat :: (if flags.ignorePath then IsBase(n, i) else i == 0) && SameFrom(n, i, query, flags)
  {
    var at := if flags.ignorePath then BaseAt(n) else 0;
    forall k | 0 <= k < |n| ensures IsSeparator(n[k]) <==> n[k] as char in "/\\:" { SeparatorIff(n[k]); }
    forall i: nat | (if flags.ignorePath then IsBase(n, i) else i == 0) ensures i == at {
      if flags.ignorePath { OneBase(n, i); }
    }
    NamesIff(n[at..], query);
    assert n[0..] == n;
    assert Matches(n, query, flags) <==> SameFrom(n, at, query, flags);
  }

  predicate SameFrom(n: Name, i: nat, query: Name, flags: Flags) {
    i <= |n| && |n[i..]| == |query| &&
    forall k | 0 <= k < |query| ::
      if flags.caseSensitive then n[i..][k] == query[k] else SameLetter(n[i..][k], query[k])
  }

  lemma OneBase(n: Name, i: nat)
    requires IsBase(n, i)
    ensures i == BaseAt(n)
  {
    var b := BaseAt(n);
    if i < b { SeparatorIff(n[b - 1]); } else if b < i { SeparatorIff(n[i - 1]); }
  }

  /**
   * The order of the index: at the first difference the smaller byte decides, and a name comes before its extensions.
   */
  lemma {:induction false} LessIff(a: Name, b: Name)
    ensures Less(a, b) <==> exists i: nat :: Differs(a, b, i)
  {
    if a != [] && b != [] && a[0] == b[0] {
      LessIff(a[1..], b[1..]);
      if i: nat :| Differs(a[1..], b[1..], i) {
        assert a == [a[0]] + a[1..] && b == [b[0]] + b[1..];
        assert a[..i + 1] == [a[0]] + a[1..][..i] && b[..i + 1] == [b[0]] + b[1..][..i];
        assert Differs(a, b, i + 1);
      }
      if i: nat :| Differs(a, b, i) {
        assert i > 0;
        assert a[1..][..i - 1] == a[..i][1..] && b[1..][..i - 1] == b[..i][1..];
        assert Differs(a[1..], b[1..], i - 1);
      }
    } else {
      if i: nat :| Differs(a, b, i) { AtStart(a, b, i); }
      if Less(a, b) { assert Differs(a, b, 0); }
    }
  }

  predicate Differs(a: Name, b: Name, i: nat) {
    i <= |a| && i < |b| && a[..i] == b[..i] && (i == |a| || a[i] < b[i])
  }

  lemma AtStart(a: Name, b: Name, i: nat)
    requires Differs(a, b, i) && (a == [] || b == [] || a[0] != b[0])
    ensures i == 0
  {
    if i > 0 { FirstSame(a, b, i); }
  }

  lemma FirstSame(a: Name, b: Name, i: nat)
    requires 0 < i <= |a| && i <= |b| && a[..i] == b[..i]
    ensures a[0] == b[0]
  {
    assert a[..i][0] == b[..i][0];
  }
}
