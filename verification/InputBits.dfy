/**
 * The decoder's bit buffer over input that arrives in pieces (miniz TINFL_GET_BYTE, TINFL_NEED_BITS,
 * TINFL_HUFF_DECODE).
 */
module InputBits {
  import opened Bits
  import opened Canonical
  import opened Deflate
  import opened PrefixNodes
  import opened LookupTable
  import opened FastTable
  import opened HuffmanDecode

  lemma Join(a: seq<bool>, b: seq<bool>, c: seq<bool>)
    ensures (a + b) + c == a + (b + c)
  {
  }

  /** Moving a byte from the input into the bit buffer. */
  lemma Moved(bitBuf: nat, n: nat, c: Byte, rest: seq<Byte>)
    requires bitBuf < Pow2(n)
    ensures var b := bitBuf + Shl(c, n);
            b < Pow2(n + 8) && BitsOf(b, n + 8) + BytesBits(rest) == BitsOf(bitBuf, n) + BytesBits([c] + rest)
  {
    var e: nat := 8;
    assert Pow2(e) == 256;
    AppendBound(bitBuf, n, c, e);
    BitsOfAppend(bitBuf, n, c, e);
    assert ([c] + rest)[1..] == rest;
    Join(BitsOf(bitBuf, n), BitsOf(c, e), BytesBits(rest));
  }

  /** Taking the low k bits out of the buffer. */
  lemma Dropped(bitBuf: nat, n: nat, k: nat, rest: seq<bool>)
    requires k <= n && bitBuf < Pow2(n)
    ensures Shr(bitBuf, k) < Pow2(n - k)
    ensures var all := BitsOf(bitBuf, n) + rest;
            all[..k] == BitsOf(bitBuf, k) && all[k..] == BitsOf(Shr(bitBuf, k), n - k) + rest
  {
    BitsOfSplit(bitBuf, k, n);
    ShrBound(bitBuf, n - k, k);
    var held := BitsOf(bitBuf, n);
    assert (held + rest)[..k] == held[..k] && (held + rest)[k..] == held[k..] + rest;
  }

  /** The low k bits as a number. */
  function Low(v: nat, k: nat): (r: nat)
    ensures r < Pow2(k)
  {
    if k == 0 then 0 else v % 2 + 2 * Low(v / 2, k - 1)
  }

  lemma {:induction false} LowIsValue(v: nat, k: nat)
    ensures Low(v, k) == ValueOf(BitsOf(v, k))
  {
    if k > 0 {
      LowIsValue(v / 2, k - 1);
      assert BitsOf(v, k)[1..] == BitsOf(v / 2, k - 1);
    }
  }

  lemma BitAt(n: nat, k: nat)
    ensures (k + 8 * n) % 8 == k % 8
  {
  }

  predicate Key(k: int) { true }

  class Reader {
    var bitBuf: nat
    var numBits: nat
    /** The current piece of the input, and how far it has been read. */
    var input: seq<Byte>
    var p: nat
    /** Whether the caller has more input after this piece. */
    var more: bool
    /** All later pieces. */
    ghost var later: seq<Byte>
    /** The bits still to be decoded: those held, then those of this piece and of the later ones. */
    ghost var bits: seq<bool>

    constructor (ghost stream: seq<Byte>)
      ensures Valid() && numBits == 0 && Unread() == stream && bits == BytesBits(stream)
    {
      bitBuf, numBits, input, p, more, later, bits := 0, 0, [], 0, true, stream, BytesBits(stream);
      new;
      assert input[p..] + later == stream && BitsOf(0, 0) + BytesBits(stream) == BytesBits(stream);
    }

    /** The state a reader is in. */
    ghost predicate Holds()
      reads this
    {
      p <= |input| && numBits <= 31 && bitBuf < Pow2(numBits) && (more || later == []) &&
      bits == BitsOf(bitBuf, numBits) + BytesBits(input[p..] + later)
    }

    /** The same, not to be looked into until the verifier meets a key. */
    ghost predicate Valid()
      reads this
    {
      forall k: int | Key(k) :: Holds()
    }

    lemma Open()
      requires Valid()
      ensures Holds()
    {
      assert Key(0);
    }

    /** The input not yet read. */
    ghost function Unread(): seq<Byte>
      requires Valid()
      reads this
    {
      Open();
      input[p..] + later
    }

    /** The next piece of the input, from where reading has got to. */
    method Supply(piece: seq<Byte>, more: bool)
      requires Valid() && piece <= Unread() && (more || piece == Unread())
      modifies `input, `p, `more, `later
      ensures Valid() && bits == old(bits) && Unread() == old(Unread())
      ensures input == piece && p == 0 && later == old(Unread())[|piece|..]
    {
      Open();
      ghost var unread := Unread();
      input, p, this.more, later := piece, 0, more, unread[|piece|..];
      assert piece[0..] == piece && piece + unread[|piece|..] == unread;
    }

    method TakeByte()
      requires Valid() && numBits <= 23 && p < |input|
      modifies `bitBuf, `numBits, `p, `bits
      ensures Valid() && bits == old(bits) && p == old(p) + 1 && numBits == old(numBits) + 8
      ensures bitBuf == old(bitBuf) + Shl(input[old(p)], old(numBits))
    {
      Open();
      var c := input[p];
      Moved(bitBuf, numBits, c, input[p + 1..] + later);
      assert input[p..] + later == [c] + (input[p + 1..] + later);
      bitBuf := bitBuf + Shl(c, numBits);
      numBits := numBits + 8;
      p := p + 1;
    }

    /** Removes n held bits and returns them as a number. */
    method Drop(n: nat) returns (v: nat)
      requires Valid() && n <= numBits
      modifies `bitBuf, `numBits, `bits
      ensures Valid() && n <= |old(bits)| && v == ValueOf(old(bits)[..n]) && bits == old(bits)[n..]
      ensures numBits == old(numBits) - n
    {
      Open();
      Dropped(bitBuf, numBits, n, BytesBits(input[p..] + later));
      LowIsValue(bitBuf, n);
      v := Low(bitBuf, n);
      bitBuf := Shr(bitBuf, n);
      numBits, bits := numBits - n, bits[n..];
    }

    /** When the input has run out, the held bits are all there is. */
    lemma AllHeld()
      requires Valid() && p == |input| && later == []
      ensures |bits| == numBits
    {
      Open();
      assert input[p..] + later == [];
    }

    /** Gets at least n bits; false when the piece is used up and there is another to come. */
    method Need(n: nat) returns (ok: bool)
      requires Valid() && n <= 16 && n <= |bits|
      modifies `bitBuf, `numBits, `p, `bits
      ensures Valid() && bits == old(bits) && (if ok then n <= numBits else p == |input| && later != [])
    {
      Open();
      while numBits < n
        invariant Valid() && bits == old(bits)
        decreases |input| - p
      {
        Open();
        if p < |input| {
          TakeByte();
        } else {
          if later == [] { AllHeld(); }
          return false;
        }
      }
      ok := true;
    }

    /** Gets n bits as a number. */
    method Get(n: nat) returns (ok: bool, v: nat)
      requires Valid() && n <= 16 && n <= |bits|
      modifies `bitBuf, `numBits, `p, `bits
      ensures Valid()
      ensures ok ==> v == ValueOf(old(bits)[..n]) && bits == old(bits)[n..]
      ensures !ok ==> bits == old(bits) && p == |input| && later != []
    {
      Open();
      v := 0;
      ok := Need(n);
      if ok { v := Drop(n); }
    }

    /** Gets a byte straight from the piece, when no bits are held. */
    method GetByte() returns (ok: bool, v: nat)
      requires Valid() && numBits == 0 && 8 <= |bits|
      modifies `p, `bits
      ensures Valid() && v < 256
      ensures ok ==> v == ValueOf(old(bits)[..8]) && bits == old(bits)[8..]
      ensures !ok ==> p == old(p) == |input| && later != [] && bits == old(bits)
    {
      Open();
      v := 0;
      if p == |input| {
        if later == [] { AllHeld(); }
        return false, 0;
      }
      var e: nat := 8;
      ghost var rest := input[p + 1..] + later;
      assert input[p..] + later == [input[p]] + rest && ([input[p]] + rest)[1..] == rest;
      assert bits == BitsOf(input[p], e) + BytesBits(rest);
      assert Pow2(e) == 256;
      ValueOfBitsOf(input[p], e);
      assert bits[..e] == BitsOf(input[p], e) && bits[e..] == BytesBits(rest);
      v := input[p];
      p, bits := p + 1, bits[e..];
      ok := true;
    }

    /** Gets a byte of a stored block: held bits first. */
    method GetAligned() returns (ok: bool, v: nat)
      requires Valid() && numBits % 8 == 0 && 8 <= |bits|
      modifies `bitBuf, `numBits, `p, `bits
      ensures Valid() && numBits % 8 == 0 && v < 256
      ensures ok ==> v == ValueOf(old(bits)[..8]) && bits == old(bits)[8..]
      ensures !ok ==> bits == old(bits) && p == |input| && later != []
    {
      Open();
      var e: nat := 8;
      assert Pow2(e) == 256;
      if numBits > 0 {
        v := Drop(8);
        ok := true;
      } else {
        ok, v := GetByte();
        if !ok { assert bits == old(bits); }
      }
    }

    /** Whole bytes are still to come: the bits to be decoded and the bits held end at the same place of a byte. */
    lemma SameBit()
      requires Valid()
      ensures |bits| % 8 == numBits % 8
    {
      Open();
      BitAt(|input[p..] + later|, numBits);
    }

    /** What Fill has done when it has fetched k bytes: no fetch came while the held bits contained a whole code. */
    ghost predicate Filled(s: seq<nat>, bitBuf0: nat, numBits0: nat, p0: nat, k: nat)
      reads this
    {
      p == p0 + k && Frugal(s, bitBuf0, numBits0, input, p0, k) &&
      (bitBuf, numBits) == HeldAfter(bitBuf0, numBits0, input, p0, k)
    }

    /** Looks whether the held bits contain the next code. */
    method Enough(t: FastTable, ghost s: seq<nat>) returns (yes: bool)
      requires Valid() && t.Built(s) && Acceptable(s) && DecodeSym(s, bits).Some?
      ensures yes == DecodeSym(s, BitsOf(bitBuf, numBits)).Some?
      ensures yes ==> DecodeSym(s, BitsOf(bitBuf, numBits)) == DecodeSym(s, bits)
      ensures !yes && p >= |input| ==> p == |input| && later != []
    {
      Open();
      ghost var i := NextSpelled(s, bitBuf, numBits, BytesBits(input[p..] + later));
      SpellsDecodes(s, bitBuf, numBits, i);
      yes := Determined(t, bitBuf, numBits, s, i);
      if p == |input| { assert input[p..] + later == later; }
    }

    /** The slow path near the end of a piece: k bytes are fetched, each because the next code was not complete yet. */
    method Fill(t: FastTable, ghost s: seq<nat>) returns (ok: bool, ghost k: nat)
      requires Valid() && t.Built(s) && Acceptable(s) && DecodeSym(s, bits).Some?
      modifies `bitBuf, `numBits, `p, `bits
      ensures Valid() && bits == old(bits) && Filled(s, old(bitBuf), old(numBits), old(p), k)
      ensures if ok then DecodeSym(s, BitsOf(bitBuf, numBits)) == DecodeSym(s, bits)
              else Undecided(s, (bitBuf, numBits)) && p == |input| && later != []
    {
      hide Acceptable, FastTable.Built, Valid, DecodeSym, BitsOf, Undecided, Frugal, HeldAfter;
      k := 0;
      NothingFetched(s);
      while numBits < 15
        invariant Valid() && bits == old(bits) && Filled(s, old(bitBuf), old(numBits), old(p), k)
        decreases |input| - p
      {
        var yes := Enough(t, s);
        if yes { return true, k; }
        IsUndecided(s);
        if p >= |input| { return false, k; }
        OneMore(s, old(bitBuf), old(numBits), input, old(p), k, (bitBuf, numBits));
        TakeByte();
        k := k + 1;
      }
      EnoughHeld(s);
      ok := true;
    }

    lemma NothingFetched(s: seq<nat>)
      requires Valid()
      ensures Filled(s, bitBuf, numBits, p, 0)
    {
      Open();
    }

    lemma IsUndecided(s: seq<nat>)
      requires numBits < 15 && !DecodeSym(s, BitsOf(bitBuf, numBits)).Some?
      ensures Undecided(s, (bitBuf, numBits))
    {
    }

    /** Fifteen bits always contain the next code. */
    lemma EnoughHeld(s: seq<nat>)
      requires Valid() && numBits >= 15 && Acceptable(s) && DecodeSym(s, bits).Some?
      ensures DecodeSym(s, BitsOf(bitBuf, numBits)) == DecodeSym(s, bits)
    {
      Open();
      var i := NextSpelled(s, bitBuf, numBits, BytesBits(input[p..] + later));
      assert s[i] <= 15;
      SpellsDecodes(s, bitBuf, numBits, i);
    }

    /** Decodes a symbol from held bits that contain its code. */
    method TakeSymbol(t: FastTable, ghost s: seq<nat>) returns (sym: nat)
      requires Valid() && t.Built(s) && Acceptable(s) && DecodeSym(s, bits).Some?
      requires DecodeSym(s, BitsOf(bitBuf, numBits)) == DecodeSym(s, bits)
      modifies `bitBuf, `numBits, `bits
      ensures Valid() && ReadSym(s, old(bits)) == Some((sym, bits)) && sym < |s|
    {
      Open();
      var codeLen;
      sym, codeLen := Decode(t, bitBuf, numBits, s);
      var _ := Drop(codeLen);
    }

    /** Two bytes at once, when the piece has them. */
    method TakeTwo()
      requires Valid() && numBits < 15 && p + 2 <= |input|
      modifies `bitBuf, `numBits, `p, `bits
      ensures Valid() && bits == old(bits) && p == old(p) + 2 && numBits >= 15
    {
      Open();
      TakeByte();
      TakeByte();
    }

    /**
     * Decodes the next symbol. Near the end of a piece bytes are fetched one at a time, and so they are when a fill
     * that had to stop is taken up again.
     */
    method ReadSymbol(t: FastTable, filling: bool, ghost s: seq<nat>) returns (ok: bool, sym: nat)
      requires Valid() && t.Built(s) && Acceptable(s) && ReadSym(s, bits).Some?
      modifies `bitBuf, `numBits, `p, `bits
      ensures Valid()
      ensures ok ==> ReadSym(s, old(bits)) == Some((sym, bits)) && sym < |s|
      ensures !ok ==> bits == old(bits) && p == |input| && later != []
    {
      Open();
      sym, ok := 0, true;
      if numBits < 15 && !filling && |input| - p >= 2 {
        TakeTwo();
        EnoughHeld(s);
      } else {
        ghost var k;
        ok, k := Fill(t, s);
      }
      if ok { sym := TakeSymbol(t, s); }
    }

    /** Decodes the next symbol when the piece has two bytes to spare. */
    method FastSymbol(t: FastTable, ghost s: seq<nat>) returns (sym: nat)
      requires Valid() && p + 2 <= |input| && t.Built(s) && Acceptable(s) && ReadSym(s, bits).Some?
      modifies `bitBuf, `numBits, `p, `bits
      ensures Valid() && ReadSym(s, old(bits)) == Some((sym, bits)) && sym < |s| && p <= old(p) + 2
    {
      Open();
      if numBits < 15 { TakeTwo(); }
      EnoughHeld(s);
      sym := TakeSymbol(t, s);
    }
  }
}
