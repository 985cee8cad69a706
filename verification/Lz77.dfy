/** The mirrored ring dictionary and the matches found in it. */
module Lz77 {
  import opened Bits
  import opened Deflate

  const DICT_SIZE: nat := 32768
  const MIRROR: nat := 257
  const MAX_MATCH: nat := 258

  /** At position pos of src the next len bytes repeat those dist bytes back. */
  ghost predicate MatchAt(src: seq<Byte>, pos: nat, dist: nat, len: nat) {
    0 < dist <= pos && pos + len <= |src| && forall i | pos <= i < pos + len :: src[i] == src[i - dist]
  }

  /** Copying a match onto the bytes before it gives the bytes after it. */
  lemma {:induction false} CopyIsSource(src: seq<Byte>, pos: nat, dist: nat, len: nat)
    requires MatchAt(src, pos, dist, len)
    ensures CopyMatch(src[..pos], len, dist) == src[..pos + len]
    decreases len
  {
    if len > 0 {
      var o := src[..pos];
      assert o + [o[|o| - dist]] == src[..pos + 1];
      CopyIsSource(src, pos + 1, dist, len - 1);
    }
  }

  // ----- the ring

  /** Slot x % DICT_SIZE, and its mirror, hold byte x of the source, for every byte of the last window. */
  ghost predicate Ring(dict: seq<Byte>, src: seq<Byte>) {
    |dict| == DICT_SIZE + MIRROR && forall x: nat | InWindow(src, x) :: Holds(dict, src, x)
  }

  predicate InWindow(src: seq<Byte>, x: nat) {
    x < |src| <= x + DICT_SIZE
  }

  predicate Holds(dict: seq<Byte>, src: seq<Byte>, x: nat)
    requires |dict| == DICT_SIZE + MIRROR && x < |src|
  {
    var slot := x % DICT_SIZE;
    dict[slot] == src[x] && (slot < MIRROR ==> dict[DICT_SIZE + slot] == src[x])
  }

  /** Reading on past a slot without wrapping, as the match loops do. */
  lemma RingRead(dict: seq<Byte>, src: seq<Byte>, base: nat, i: nat)
    requires Ring(dict, src) && InWindow(src, base) && i < MAX_MATCH && base + i < |src|
    ensures base % DICT_SIZE + i < |dict| && dict[base % DICT_SIZE + i] == src[base + i]
  {
    var p, x := base % DICT_SIZE, base + i;
    assert InWindow(src, x) && Holds(dict, src, x);
    if p + i < DICT_SIZE {
      ModIs(x, DICT_SIZE, base / DICT_SIZE, p + i);
    } else {
      ModIs(x, DICT_SIZE, base / DICT_SIZE + 1, p + i - DICT_SIZE);
    }
  }

  lemma ModIs(x: nat, d: nat, q: nat, r: nat)
    requires d == 32768 && x == d * q + r && r < d
    ensures x % d == r
  {
  }

  /** The dictionary after the next byte has been stored, with its mirror. */
  function Store(dict: seq<Byte>, slot: nat, c: Byte): (d: seq<Byte>)
    requires |dict| == DICT_SIZE + MIRROR && slot < DICT_SIZE
    ensures |d| == |dict|
  {
    var d := dict[slot := c];
    if slot < MIRROR then d[DICT_SIZE + slot := c] else d
  }

  lemma RingStore(dict: seq<Byte>, src: seq<Byte>, c: Byte)
    requires Ring(dict, src)
    ensures Ring(Store(dict, |src| % DICT_SIZE, c), src + [c])
  {
    var slot, src' := |src| % DICT_SIZE, src + [c];
    var dict' := Store(dict, slot, c);
    forall x: nat | InWindow(src', x) ensures Holds(dict', src', x) {
      if x < |src| {
        assert InWindow(src, x) && Holds(dict, src, x);
        SlotsDiffer(x, |src|);
      }
    }
  }

  lemma SlotsDiffer(x: nat, y: nat)
    requires x < y < x + DICT_SIZE
    ensures x % DICT_SIZE != y % DICT_SIZE
  {
  }

  /** A chain entry at 16-bit distance dist names the slot dist bytes back. */
  lemma ProbeSlot(pos: nat, next: nat, dist: nat)
    requires next < 65536 && dist == (pos - next) % 65536 && dist <= pos
    ensures (pos - dist) % DICT_SIZE == next % DICT_SIZE
  {
    var q := (pos - next) / 65536;
    assert pos - next == 65536 * q + dist;
    assert pos - dist == next + 65536 * q;
  }

  lemma MatchGrowSource(src: seq<Byte>, more: seq<Byte>, pos: nat, dist: nat, len: nat)
    requires MatchAt(src, pos, dist, len)
    ensures MatchAt(src + more, pos, dist, len)
  {
  }
}
