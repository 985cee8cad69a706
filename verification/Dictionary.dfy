/** The compressor's ring dictionary with its hash chains, and the search for matches (miniz tdefl_find_match). */
module Dictionary {
  import opened Bits
  import opened Lz77
  import opened HashChains

  const MIN_MATCH: nat := 3

  /** One more byte hashed. */
  method HashByte(h: bv15, c: Byte) returns (h': bv15)
    ensures h' == Roll(h, c)
  {
    h' := (h << 5) ^ (c as bv15);
  }

  /** How far back a place stored as sixteen bits seems to be. */
  lemma LinkBack(pos: nat, y: nat)
    requires y < pos < y + 0x1_0000
    ensures (pos - y % 0x1_0000) % 0x1_0000 == pos - y
  {
    var q, r := y / 0x1_0000, y % 0x1_0000;
    assert pos - r == 0x1_0000 * q + (pos - y);
    WrapsOnce(pos - y, q);
  }

  lemma WrapsOnce(d: nat, q: nat)
    requires d < 0x1_0000
    ensures (0x1_0000 * q + d) % 0x1_0000 == d
  {
  }

  lemma NextSlot(x: nat)
    ensures (x % DICT_SIZE + 1) % DICT_SIZE == (x + 1) % DICT_SIZE
  {
  }

  /** Rolling a byte in gives the hash of it and the two before, whatever came before those. */
  lemma RolledNext(src: seq<Byte>, c: Byte, h: bv15)
    requires |src| >= 2 && h == Hash3(src[|src| - 2], src[|src| - 1], c)
    ensures forall c': Byte :: Roll(h, c') == Hash3(src[|src| - 1], c, c')
  {
    forall c': Byte ensures Roll(h, c') == Hash3(src[|src| - 1], c, c') {
      RollForgets(Roll(0, src[|src| - 2]), src[|src| - 1], c, c');
    }
  }

  function Min(a: nat, b: nat): (m: nat)
    ensures m <= a && m <= b && (m == a || m == b)
  {
    if a <= b then a else b
  }

  function Max(a: nat, b: nat): nat { if a >= b then a else b }

  /**
   * The dictionary part of the compressor. Links are followed as sixteen bits say, so that every place they lead to is
   * checked against the dictionary.
   */
  class Dict {
    const dict: array<Byte>
    const next: array<U16>
    const hash: array<U16>
    var lookaheadPos: nat
    var lookaheadSize: nat
    var dictSize: nat
    /** All bytes taken in so far. */
    ghost var src: seq<Byte>
    /** Where in the source the window was last emptied; nothing before it can be copied. */
    ghost var base: nat

    constructor ()
      ensures Valid() && fresh(this) && fresh(dict) && fresh(next) && fresh(hash)
      ensures src == [] && lookaheadPos == 0 && lookaheadSize == 0 && dictSize == 0 && base == 0
    {
      dict := new Byte[DICT_SIZE + MIRROR];
      next := new U16[DICT_SIZE];
      hash := new U16[HASH_SIZE](_ => 0);
      lookaheadPos, lookaheadSize, dictSize := 0, 0, 0;
      src, base := [], 0;
      new;
      NoChains(hash[..], next[..], src, 0, 0);
    }

    ghost predicate Apart() {
      dict.Length == DICT_SIZE + MIRROR && next.Length == DICT_SIZE && hash.Length == HASH_SIZE && next != hash
    }

    /** The ring and the window; the window is cut short only when it is nearly as large as the ring. */
    ghost predicate Ringed()
      reads this, dict
    {
      Apart() &&
      |src| == lookaheadPos + lookaheadSize && base + dictSize <= lookaheadPos && lookaheadSize <= MAX_MATCH &&
      (base + dictSize < lookaheadPos ==> dictSize + MAX_MATCH >= DICT_SIZE) && Ring(dict[..], src)
    }

    /** Places before this one are in the chains. */
    ghost function Top(): nat
      reads `src, `base
    {
      if base + 2 <= |src| then |src| - 2 else base
    }

    ghost predicate Chained()
      reads `src, `base, next, hash
    {
      Chains(hash[..], next[..], src, base, Top())
    }

    /** Holds also while the lookahead is being filled. */
    ghost predicate Filling()
      reads this, dict, next, hash
    {
      Ringed() && Chained()
    }

    ghost predicate Valid()
      reads this, dict, next, hash
    {
      Filling() && dictSize + lookaheadSize <= DICT_SIZE
    }

    ghost function Parts(): set<object> { {this, dict, next, hash} }

    /** Stores one byte at slot dstPos, which is where the source's next byte goes. */
    method StoreByte(c: Byte, dstPos: nat)
      requires Ringed() && lookaheadSize < MAX_MATCH && dstPos == |src| % DICT_SIZE
      modifies this`src, this`lookaheadSize, dict
      ensures Ringed() && src == old(src) + [c] && lookaheadSize == old(lookaheadSize) + 1
    {
      ghost var d := dict[..];
      RingStore(d, src, c);
      dict[dstPos] := c;
      if dstPos < MIRROR {
        dict[DICT_SIZE + dstPos] := c;
      }
      assert dict[..] == Store(d, dstPos, c);
      lookaheadSize := lookaheadSize + 1;
      src := src + [c];
    }

    /** Puts position insPos at the head of the chain of its hash value. */
    method Insert(insPos: nat, h: bv15)
      requires Apart() && base <= insPos && insPos + 2 < |src| && h == HashOf(insPos)
      requires Chains(hash[..], next[..], src, base, insPos)
      modifies next, hash
      ensures Chains(hash[..], next[..], src, base, insPos + 1)
    {
      Inserted(hash[..], next[..], src, base, insPos);
      ghost var heads: seq<U16>, links: seq<U16> := hash[..], next[..];
      next[insPos % DICT_SIZE] := hash[h as nat];
      hash[h as nat] := insPos % 0x1_0000;
      assert next[..] == links[insPos % DICT_SIZE := heads[h as nat]];
      assert hash[..] == heads[h as nat := insPos % 0x1_0000];
    }

    /** The hash of the three bytes at x. */
    ghost function HashOf(x: nat): bv15
      requires x + 2 < |src|
      reads `src
    {
      Hash3(src[x], src[x + 1], src[x + 2])
    }

    /** The next byte: it goes to the ring, and the place two bytes back to its chain. */
    method Take(c: Byte, dstPos: nat, insPos: nat, h: bv15)
      requires Filling() && lookaheadSize < MAX_MATCH && dstPos == |src| % DICT_SIZE
      requires base <= insPos == |src| - 2 && h == Hash3(src[insPos], src[insPos + 1], c)
      modifies this`src, this`lookaheadSize, dict, next, hash
      ensures Filling() && src == old(src) + [c] && lookaheadSize == old(lookaheadSize) + 1
    {
      ChainsGrow(hash[..], next[..], src, [c], base, Top());
      StoreByte(c, dstPos);
      Insert(insPos, h);
    }

    /** The hash before the next byte is rolled in: it depends on the last two. */
    ghost predicate Rolled(h: bv15)
      requires |src| >= 2
      reads `src
    {
      forall c: Byte :: Roll(h, c) == Hash3(src[|src| - 2], src[|src| - 1], c)
    }

    method TakeFast(c: Byte, dstPos: nat, insPos: nat, h: bv15) returns (h': bv15)
      requires Filling() && lookaheadSize < MAX_MATCH && dstPos == |src| % DICT_SIZE
      requires base <= insPos == |src| - 2 && Rolled(h)
      modifies this`src, this`lookaheadSize, dict, next, hash
      ensures Filling() && src == old(src) + [c] && lookaheadSize == old(lookaheadSize) + 1 && Rolled(h')
    {
      hide Ring, Chains, Roll, Hash3;
      h' := HashByte(h, c);
      RolledNext(src, c, h');
      Take(c, dstPos, insPos, h');
    }

    lemma RolledFirst(h: bv15)
      requires |src| >= 2 && h == Roll(Roll(0, src[|src| - 2]), src[|src| - 1])
      ensures Rolled(h)
    {
      hide Roll;
    }

    /** Takes in as much input as the lookahead has room for, when two bytes before it are known. */
    method FillFast(input: seq<Byte>, p: nat) returns (p': nat)
      requires Filling() && p <= |input| && lookaheadSize + dictSize >= 2
      modifies this`src, this`lookaheadSize, dict, next, hash
      ensures Filling() && p' == p + Min(|input| - p, MAX_MATCH - old(lookaheadSize))
      ensures src == old(src) + input[p..p'] && lookaheadSize == old(lookaheadSize) + (p' - p)
    {
      hide Chains, Ring, Roll, Rolled;
      var dstPos := (lookaheadPos + lookaheadSize) % DICT_SIZE;
      var insPos: nat := lookaheadPos + lookaheadSize - 2;
      LastTwo();
      var h := HashByte(0, dict[insPos % DICT_SIZE]);
      h := HashByte(h, dict[(insPos + 1) % DICT_SIZE]);
      RolledFirst(h);
      var end := p + Min(|input| - p, MAX_MATCH - lookaheadSize);
      ghost var s, n := src, lookaheadSize;
      p' := p;
      while p' != end
        invariant p <= p' <= end && Filling() && dstPos == |src| % DICT_SIZE && base <= insPos == |src| - 2 && Rolled(h)
        invariant src == s + input[p..p'] && lookaheadSize == n + (p' - p)
        decreases end - p'
      {
        var c := input[p'];
        assert input[p..p' + 1] == input[p..p'] + [c];
        p' := p' + 1;
        h := TakeFast(c, dstPos, insPos, h);
        NextSlot(|src| - 1);
        dstPos := (dstPos + 1) % DICT_SIZE;
        insPos := insPos + 1;
      }
    }

    /** The two bytes before the next one, read from the ring. */
    lemma LastTwo()
      requires Ringed() && |src| >= 2
      ensures dict[(|src| - 2) % DICT_SIZE] == src[|src| - 2] && dict[(|src| - 2 + 1) % DICT_SIZE] == src[|src| - 1]
    {
      RingRead(dict[..], src, |src| - 2, 0);
      RingRead(dict[..], src, |src| - 1, 0);
    }

    /** The same while fewer than two bytes are known. */
    method FillSlow(input: seq<Byte>, p: nat) returns (p': nat)
      requires Filling() && p <= |input|
      modifies this`src, this`lookaheadSize, dict, next, hash
      ensures Filling() && p' == p + Min(|input| - p, MAX_MATCH - old(lookaheadSize))
      ensures src == old(src) + input[p..p'] && lookaheadSize == old(lookaheadSize) + (p' - p)
    {
      ghost var s, n := src, lookaheadSize;
      p' := p;
      while p' < |input| && lookaheadSize < MAX_MATCH
        invariant p <= p' <= |input| && Filling()
        invariant src == s + input[p..p'] && lookaheadSize == n + (p' - p)
        decreases |input| - p'
      {
        var c := input[p'];
        assert input[p..p' + 1] == input[p..p'] + [c];
        p' := p' + 1;
        TakeSlow(c);
      }
    }

    method TakeSlow(c: Byte)
      requires Filling() && lookaheadSize < MAX_MATCH
      modifies this`src, this`lookaheadSize, dict, next, hash
      ensures Filling() && src == old(src) + [c] && lookaheadSize == old(lookaheadSize) + 1
    {
      ChainsGrow(hash[..], next[..], src, [c], base, Top());
      StoreByte(c, (lookaheadPos + lookaheadSize) % DICT_SIZE);
      if lookaheadSize + dictSize >= MIN_MATCH {
        var insPos := lookaheadPos + (lookaheadSize - 1) - 2;
        LastThree();
        var h := HashByte(0, dict[insPos % DICT_SIZE]);
        h := HashByte(h, dict[(insPos + 1) % DICT_SIZE]);
        h := HashByte(h, c);
        Insert(insPos, h);
      }
    }

    lemma LastThree()
      requires Ringed() && |src| >= 3
      ensures dict[(|src| - 3) % DICT_SIZE] == src[|src| - 3] && dict[(|src| - 3 + 1) % DICT_SIZE] == src[|src| - 2]
    {
      RingRead(dict[..], src, |src| - 3, 0);
      RingRead(dict[..], src, |src| - 2, 0);
    }

    /** Fills the lookahead from the input and shrinks the usable window to what is still held. */
    method Fill(input: seq<Byte>, p: nat) returns (p': nat)
      requires Valid() && p <= |input|
      modifies this`src, this`lookaheadSize, this`dictSize, dict, next, hash
      ensures Valid() && p' == p + Min(|input| - p, MAX_MATCH - old(lookaheadSize))
      ensures src == old(src) + input[p..p'] && lookaheadSize == old(lookaheadSize) + (p' - p)
      ensures dictSize <= old(dictSize)
    {
      if lookaheadSize + dictSize >= MIN_MATCH - 1 {
        p' := FillFast(input, p);
      } else {
        p' := FillSlow(input, p);
      }
      dictSize := Min(DICT_SIZE - lookaheadSize, dictSize);
    }

    /** Moves the lookahead forward. */
    method Advance(n: nat)
      requires Valid() && n <= lookaheadSize
      modifies this`lookaheadPos, this`lookaheadSize, this`dictSize
      ensures Valid() && lookaheadPos == old(lookaheadPos) + n && lookaheadSize == old(lookaheadSize) - n
    {
      lookaheadPos := lookaheadPos + n;
      lookaheadSize := lookaheadSize - n;
      dictSize := Min(dictSize + n, DICT_SIZE);
    }

    /** Forgets everything before the lookahead, as a full flush does. */
    method Forget()
      requires Valid() && lookaheadSize == 0
      modifies this`dictSize, this`base, next, hash
      ensures Valid() && dictSize == 0 && base == lookaheadPos
    {
      forall i | 0 <= i < hash.Length { hash[i] := 0; }
      forall i | 0 <= i < next.Length { next[i] := 0; }
      dictSize, base := 0, lookaheadPos;
      NoChains(hash[..], next[..], src, base, base);
    }

    /** A match worth offering: within the window and the lookahead. */
    ghost predicate Candidate(dist: nat, len: nat)
      reads this
    {
      MatchAt(src, lookaheadPos, dist, len) && dist <= dictSize && len <= lookaheadSize
    }

    /** How many bytes at the lookahead repeat those at slot probePos, up to maxLen. */
    method Compare(probePos: nat, dist: nat, maxLen: nat) returns (len: nat)
      requires Valid() && 0 < dist <= dictSize && maxLen == lookaheadSize
      requires probePos == (lookaheadPos - dist) % DICT_SIZE
      ensures len <= maxLen && (len > 0 ==> Candidate(dist, len)) && !Candidate(dist, len + 1)
    {
      var pos := lookaheadPos % DICT_SIZE;
      len := 0;
      while len < maxLen
        invariant len <= maxLen && (len > 0 ==> Candidate(dist, len))
      {
        RingRead(dict[..], src, lookaheadPos, len);
        RingRead(dict[..], src, lookaheadPos - dist, len);
        if dict[pos + len] != dict[probePos + len] { break; }
        len := len + 1;
      }
    }

    // ----- the chain of earlier positions with the same hash

    /** The slot the chain has got to after k links from the lookahead. */
    ghost function Slot(k: nat): (slot: nat)
      requires next.Length == DICT_SIZE
      reads `lookaheadPos, next
      ensures slot < DICT_SIZE
    {
      if k == 0 then lookaheadPos % DICT_SIZE else next[Slot(k - 1)] % DICT_SIZE
    }

    /** How far back link k leads, as far as sixteen bits tell. */
    ghost function Back(k: nat): (dist: nat)
      requires next.Length == DICT_SIZE && k > 0
      reads `lookaheadPos, next
    {
      (lookaheadPos - next[Slot(k - 1)]) % 0x1_0000
    }

    /** There is a link k, and it leads into the window. */
    ghost predicate Linked(k: nat)
      requires next.Length == DICT_SIZE && k > 0
      reads `lookaheadPos, `dictSize, next
    {
      next[Slot(k - 1)] != 0 && Back(k) <= dictSize
    }

    /** Link k leads to no match longer than len. */
    ghost predicate Beaten(k: nat, len: nat)
      requires next.Length == DICT_SIZE && k > 0
      reads this, next
    {
      Linked(k) && (Back(k) > 0 ==> !Candidate(Back(k), len + 1))
    }

    /** None of the first n links does. */
    ghost predicate AllBeaten(n: nat, len: nat)
      requires next.Length == DICT_SIZE
      reads this, next
    {
      forall k | 1 <= k <= n :: Beaten(k, len)
    }

    lemma BeatenStill(n: nat, len: nat, len': nat)
      requires Filling() && AllBeaten(n, len) && len <= len'
      ensures AllBeaten(n, len')
    {
      forall k | 1 <= k <= n ensures Beaten(k, len') { assert Beaten(k, len); }
    }

    /** Where link k leads, the ring holds the window's bytes. */
    lemma LinkRead(k: nat, i: nat)
      requires Valid() && k > 0 && Linked(k) && Back(k) > 0 && i < lookaheadSize && i < MAX_MATCH
      ensures Slot(k) == (lookaheadPos - Back(k)) % DICT_SIZE && Slot(k) + i < dict.Length
      ensures dict[Slot(k) + i] == src[lookaheadPos - Back(k) + i]
      ensures dict[lookaheadPos % DICT_SIZE + i] == src[lookaheadPos + i]
    {
      ProbeSlot(lookaheadPos, next[Slot(k - 1)], Back(k));
      RingRead(dict[..], src, lookaheadPos - Back(k), i);
      RingRead(dict[..], src, lookaheadPos, i);
    }

    /** A longer match than len repeats bytes len - 1 and len; a link where they differ is beaten. */
    lemma MissBeaten(k: nat, len: nat)
      requires Valid() && k > 0 && Linked(k) && 1 <= len < lookaheadSize && len < MAX_MATCH
      requires var pos := lookaheadPos % DICT_SIZE;
               dict[Slot(k) + len] != dict[pos + len] || dict[Slot(k) + len - 1] != dict[pos + len - 1]
      ensures Beaten(k, len)
    {
      if Back(k) > 0 && Candidate(Back(k), len + 1) {
        LinkRead(k, len);
        LinkRead(k, len - 1);
        assert false;
      }
    }

    /** Follows up to three links, to one that may improve on matchLen; false when the chain ends. */
    method Probe(probePos: nat, maxDist: nat, matchLen: nat, c0: Byte, c1: Byte, ghost n: nat)
        returns (alive: bool, hit: bool, probePos': nat, dist: nat, ghost n': nat)
      requires Valid() && probePos == Slot(n) && maxDist == dictSize && 1 <= matchLen < lookaheadSize
      requires var pos := lookaheadPos % DICT_SIZE; c0 == dict[pos + matchLen] && c1 == dict[pos + matchLen - 1]
      requires AllBeaten(n, matchLen)
      ensures AllBeaten(n', matchLen) && n <= n' <= n + 3
      ensures if !alive then !Linked(n' + 1)
              else if hit then n' < n + 3 && Linked(n' + 1) && dist == Back(n' + 1) && probePos' == Slot(n' + 1)
              else n' == n + 3 && probePos' == Slot(n')
    {
      probePos', hit, dist, alive, n' := probePos, false, 0, true, n;
      var k := 0;
      while k < 3
        invariant k <= 3 && n' == n + k && AllBeaten(n', matchLen) && probePos' == Slot(n') && alive && !hit
      {
        var nextProbePos := next[probePos'];
        if nextProbePos == 0 { alive := false; return; }
        dist := (lookaheadPos - nextProbePos) % 0x1_0000;
        if dist > maxDist { alive := false; return; }
        probePos' := nextProbePos % DICT_SIZE;
        if dict[probePos' + matchLen] == c0 && dict[probePos' + matchLen - 1] == c1 {
          hit := true;
          return;
        }
        MissBeaten(n' + 1, matchLen);
        k, n' := k + 1, n' + 1;
      }
    }

    /** What a search that has followed n links has found, when left probes remain of budget many. */
    ghost predicate Searched(n: nat, left: nat, budget: nat, len: nat)
      requires next.Length == DICT_SIZE
      reads this, next
    {
      AllBeaten(n, len) && n + left >= budget
    }

    /** Link n + 1 leads to slot probePos, dist back. */
    ghost predicate Hits(n: nat, probePos: nat, dist: nat)
      requires next.Length == DICT_SIZE
      reads `lookaheadPos, `dictSize, next
    {
      Linked(n + 1) && dist == Back(n + 1) && probePos == Slot(n + 1)
    }

    /** Why a search may end after n links with a match of length len. */
    ghost predicate Over(n: nat, budget: nat, len: nat)
      requires next.Length == DICT_SIZE
      reads this, next
    {
      len >= lookaheadSize || !Linked(n + 1) || Back(n + 1) == 0 || n + 1 >= budget
    }

    /** Follows links to one that may improve on matchLen, while there are probes left. */
    method NextHit(slot: nat, maxDist: nat, matchLen: nat, c0: Byte, c1: Byte, left: nat, ghost n: nat,
        ghost budget: nat) returns (alive: bool, probePos: nat, dist: nat, left': nat, ghost n': nat)
      requires Valid() && slot == Slot(n) && maxDist == dictSize && 1 <= matchLen < lookaheadSize && left > 0
      requires var pos := lookaheadPos % DICT_SIZE; c0 == dict[pos + matchLen] && c1 == dict[pos + matchLen - 1]
      requires Searched(n, left, budget, matchLen)
      ensures AllBeaten(n', matchLen) &&
              if alive then Hits(n', probePos, dist) && 0 < left' < left && n' + 1 + left' >= budget
              else Over(n', budget, matchLen)
    {
      hide Beaten, Candidate, Slot, Back, Linked;
      var hit := false;
      alive, probePos, dist, left', n' := true, slot, 0, left, n;
      while !hit
        invariant if hit then Hits(n', probePos, dist) && left' < left else probePos == Slot(n') && left' <= left
        invariant left' > 0 && Searched(n', left' + (if hit then 1 else 0), budget, matchLen)
        decreases left', !hit
      {
        left' := left' - 1;
        if left' == 0 { alive := false; return; }
        alive, hit, probePos, dist, n' := Probe(probePos, maxDist, matchLen, c0, c1, n');
        if !alive { return; }
      }
    }

    /** The match that link n leads to. */
    method Measure(probePos: nat, dist: nat, maxLen: nat, matchLen: nat, ghost n: nat) returns (len: nat)
      requires Valid() && matchLen < maxLen == lookaheadSize && Hits(n, probePos, dist) && dist > 0 &&
               AllBeaten(n, matchLen)
      ensures len <= maxLen && (len > 0 ==> Candidate(dist, len)) && AllBeaten(n + 1, Max(matchLen, len))
    {
      hide Ring, Slot;
      LinkRead(n + 1, 0);
      len := Compare(probePos, dist, maxLen);
      BeatenStill(n, matchLen, Max(matchLen, len));
    }

    /**
     * Searches the chain for a match longer than the one given. n links are followed, up to a match as long as the
     * lookahead, to the chain's end or to the number of probes allowed, and none leads to a match longer than the
     * result.
     */
    method FindMatch(maxProbes0: nat, maxProbes1: nat, matchDist0: nat, matchLen0: nat)
        returns (matchDist: nat, matchLen: nat, ghost n: nat)
      requires Valid() && maxProbes0 > 0 && maxProbes1 > 0 && 1 <= matchLen0 < MAX_MATCH
      ensures (matchDist == matchDist0 && matchLen == matchLen0) ||
              (matchLen > matchLen0 && Candidate(matchDist, matchLen))
      ensures AllBeaten(n, matchLen) && Over(n, if matchLen0 >= 32 then maxProbes1 else maxProbes0, matchLen)
    {
      hide Beaten, Candidate, Linked, Ring;
      var pos := lookaheadPos % DICT_SIZE;
      var maxDist, maxMatchLen := dictSize, lookaheadSize;
      var numProbesLeft := if matchLen0 >= 32 then maxProbes1 else maxProbes0;
      ghost var budget := numProbesLeft;
      matchDist, matchLen, n := matchDist0, matchLen0, 0;
      var c0, c1 := dict[pos + matchLen], dict[pos + matchLen - 1];
      if maxMatchLen <= matchLen { return; }
      var probePos: nat := pos;
      while true
        invariant numProbesLeft > 0 && probePos == Slot(n) && 1 <= matchLen < maxMatchLen
        invariant c0 == dict[pos + matchLen] && c1 == dict[pos + matchLen - 1]
        invariant (matchDist == matchDist0 && matchLen == matchLen0) ||
                  (matchLen > matchLen0 && Candidate(matchDist, matchLen))
        invariant Searched(n, numProbesLeft, budget, matchLen)
        decreases numProbesLeft
      {
        var alive: bool, dist: nat, left: nat;
        alive, probePos, dist, left, n := NextHit(probePos, maxDist, matchLen, c0, c1, numProbesLeft, n, budget);
        numProbesLeft := left;
        if !alive { return; }
        if dist == 0 { return; }
        var probeLen := Measure(probePos, dist, maxMatchLen, matchLen, n);
        n := n + 1;
        if probeLen > matchLen {
          matchDist, matchLen := dist, probeLen;
          if matchLen == maxMatchLen { return; }
          c0, c1 := dict[pos + matchLen], dict[pos + matchLen - 1];
        }
      }
    }

    // ----- what a search can miss

    /** The k-th place before the lookahead whose three bytes have the hash of those at the lookahead. */
    ghost function Earlier(k: nat): int
      requires lookaheadPos + 2 < |src|
      reads this
    {
      Nth(src, base, lookaheadPos, HashAt(src, lookaheadPos), k)
    }

    /** Links lead to these places, as long as they are in the window and none is stored as zero. */
    lemma LinksLead(k: nat)
      requires Valid() && lookaheadSize >= MIN_MATCH && Earlier(k) >= 0 && lookaheadPos - Earlier(k) <= dictSize
      requires forall j | 1 <= j <= k :: Earlier(j) % 0x1_0000 != 0
      ensures Slot(k) == Earlier(k) % DICT_SIZE
      ensures k > 0 ==> Linked(k) && Back(k) == lookaheadPos - Earlier(k)
      decreases k
    {
      hide Ring, Chains, HashAt, Latest, Back, Linked;
      if k > 0 {
        var h := HashAt(src, lookaheadPos);
        NthFalls(src, base, lookaheadPos, h, k - 1, k);
        LinksLead(k - 1);
        LinkLeads(hash[..], next[..], src, base, Top(), Earlier(k - 1), Earlier(k));
        LinkLeadsTo(k, Earlier(k - 1), Earlier(k));
      }
    }

    lemma LinkLeadsTo(k: nat, x: nat, y: nat)
      requires Apart() && k > 0 && Slot(k - 1) == x % DICT_SIZE && y < lookaheadPos <= y + dictSize
      requires dictSize <= DICT_SIZE && y % 0x1_0000 != 0
      requires next[x % DICT_SIZE] == y % 0x1_0000 && y % 0x1_0000 % DICT_SIZE == y % DICT_SIZE
      ensures Slot(k) == y % DICT_SIZE && Linked(k) && Back(k) == lookaheadPos - y
    {
      LinkBack(lookaheadPos, y);
    }

    /** A place that a search with so many probes does not come to: nearer ones take them, or a link looks like none. */
    ghost predicate Passed(y: nat, budget: nat)
      requires y <= lookaheadPos && lookaheadPos + 2 < |src|
      reads this
    {
      var h := HashAt(src, lookaheadPos);
      Nearer(src, y, lookaheadPos, h) >= budget ||
      exists z: nat | y <= z < lookaheadPos :: z % 0x1_0000 == 0 && HashAt(src, z) == h
    }

    /** No match in the window is longer than the one found, but for those that the search does not come to. */
    lemma LongestFound(y: nat, len: nat, n: nat, budget: nat, found: nat)
      requires Valid() && AllBeaten(n, found) && Over(n, budget, found)
      requires y < lookaheadPos && len >= MIN_MATCH && Candidate(lookaheadPos - y, len)
      ensures len <= found || Passed(y, budget)
    {
      hide Filling, Chains, HashAt, Latest, Nearer, AllBeaten, Candidate, Over, Slot, Back, Linked;
      SameHash(y, len);
      var h := HashAt(src, lookaheadPos);
      var k := Nearer(src, y, lookaheadPos, h);
      NthOfRank(src, base, y, lookaheadPos, h);
      if !Passed(y, budget) {
        NoneIsZero(y, k);
        if k <= n {
          LinksLead(k);
          NotBeaten(k, n, found, len);
        } else {
          NthFalls(src, base, lookaheadPos, h, n + 1, k);
          LinksLead(n + 1);
          NotOver(n, budget, found, len);
        }
      }
    }

    /** The same for all matches. */
    lemma AllFound(n: nat, budget: nat, found: nat)
      requires Valid() && AllBeaten(n, found) && Over(n, budget, found)
      ensures LongestIs(budget, found)
    {
      hide Filling, AllBeaten, Over, Candidate, Passed;
      forall dist: nat, len: nat | len >= MIN_MATCH && Candidate(dist, len)
        ensures InWindow(dist) && (len <= found || Passed(lookaheadPos - dist, budget))
      {
        CandidateInside(dist, len);
        LongestFound(lookaheadPos - dist, len, n, budget, found);
      }
    }

    ghost predicate InWindow(dist: nat)
      reads this
    {
      0 < dist <= lookaheadPos && lookaheadPos + 2 < |src|
    }

    lemma CandidateInside(dist: nat, len: nat)
      requires len >= MIN_MATCH && Candidate(dist, len)
      ensures InWindow(dist)
    {
    }

    /**
     * No match in the window is longer than found, but for those that a search with so many probes does not come to.
     */
    ghost predicate LongestIs(budget: nat, found: nat)
      reads this
    {
      forall dist: nat, len: nat | len >= MIN_MATCH && Candidate(dist, len) ::
        InWindow(dist) && (len <= found || Passed(lookaheadPos - dist, budget))
    }

    lemma SameHash(y: nat, len: nat)
      requires Valid() && y < lookaheadPos && len >= MIN_MATCH && Candidate(lookaheadPos - y, len)
      ensures Apart() && lookaheadPos + 2 < |src|
      ensures base <= y && lookaheadPos - y <= dictSize && len <= lookaheadSize
      ensures HashAt(src, y) == HashAt(src, lookaheadPos)
    {
      hide Chains, Hash3, Ring;
      var x := lookaheadPos;
      assert src[x] == src[y] && src[x + 1] == src[y + 1] && src[x + 2] == src[y + 2];
    }

    lemma NotOver(n: nat, budget: nat, found: nat, len: nat)
      requires Apart() && Over(n, budget, found) && Linked(n + 1) && Back(n + 1) > 0 && n + 1 < budget
      requires len <= lookaheadSize
      ensures len <= found
    {
    }

    lemma NotBeaten(k: nat, n: nat, found: nat, len: nat)
      requires Apart() && AllBeaten(n, found) && 1 <= k <= n && Back(k) > 0 && Candidate(Back(k), len)
      ensures len <= found
    {
      hide Back;
      assert Beaten(k, found);
    }

    lemma NoneIsZero(y: nat, k: nat)
      requires y < lookaheadPos && lookaheadPos + 2 < |src| && Earlier(k) == y && !Passed(y, 1 + k)
      ensures forall j | 1 <= j <= k :: Earlier(j) % 0x1_0000 != 0
    {
      forall j | 1 <= j <= k ensures Earlier(j) % 0x1_0000 != 0 {
        NthFalls(src, base, lookaheadPos, HashAt(src, lookaheadPos), j, k);
      }
    }

    /** A run of a byte that ends after len bytes is no longer match one byte back. */
    lemma RunEnds(len: nat, c: Byte)
      requires Valid() && lookaheadPos > 0 && src[lookaheadPos - 1] == c && len <= lookaheadSize
      requires forall i | lookaheadPos <= i < lookaheadPos + len :: src[i] == c
      requires len < lookaheadSize ==> src[lookaheadPos + len] != c
      ensures !Candidate(1, Max(len, MIN_MATCH - 1) + 1)
    {
      hide Ring;
      var pos := lookaheadPos + len;
      assert src[pos - 1] == c;
      if Candidate(1, Max(len, MIN_MATCH - 1) + 1) {
        assert false;
      }
    }

    /** The run of the last byte at the lookahead, for run-length-only compression. */
    method RunLength() returns (matchDist: nat, matchLen: nat)
      requires Valid() && dictSize > 0
      ensures (matchDist == 0 && matchLen == 0) ||
              (matchDist == 1 && matchLen >= MIN_MATCH && Candidate(matchDist, matchLen))
      ensures !Candidate(1, Max(matchLen, MIN_MATCH - 1) + 1)
    {
      var curPos := lookaheadPos % DICT_SIZE;
      var c := dict[(lookaheadPos - 1) % DICT_SIZE];
      RingRead(dict[..], src, lookaheadPos - 1, 0);
      matchLen := 0;
      while matchLen < lookaheadSize
        invariant matchLen <= lookaheadSize && (matchLen > 0 ==> Candidate(1, matchLen))
        invariant forall i | lookaheadPos <= i < lookaheadPos + matchLen :: src[i] == c
      {
        RingRead(dict[..], src, lookaheadPos, matchLen);
        if dict[curPos + matchLen] != c { break; }
        matchLen := matchLen + 1;
      }
      RunEnds(matchLen, c);
      if matchLen < MIN_MATCH {
        matchDist, matchLen := 0, 0;
      } else {
        matchDist := 1;
      }
    }
  }
}
