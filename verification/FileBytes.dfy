/** Files as sequences of blocks on a device, as values. */
module FileBytes {
  import opened Bits
  import opened BlockCache
  import opened BlockIo

  /** Every block of the file, fb bytes long, lies on the device. */
  ghost predicate MapOk(image: seq<Byte>, bs: nat, fb: nat, blocks: seq<nat>) {
    fb > 0 && forall i: nat | i < |blocks| :: OnDevice(image, bs, fb, blocks[i])
  }

  /** The file: its blocks one after the other. */
  function Contents(image: seq<Byte>, bs: nat, fb: nat, blocks: seq<nat>): (r: seq<Byte>)
    requires forall i: nat | i < |blocks| :: Pos(blocks[i], bs) + fb <= |image|
    ensures |r| == Pos(|blocks|, fb)
  {
    if blocks == [] then []
    else
      var n := |blocks| - 1;
      PosAdd(n, 1, fb);
      Contents(image, bs, fb, blocks[..n]) + image[Pos(blocks[n], bs)..Pos(blocks[n], bs) + fb]
  }

  /** Bytes of block i, found in the file. */
  lemma {:induction false} ContentsAt(image: seq<Byte>, bs: nat, fb: nat, blocks: seq<nat>, i: nat, a: nat, b: nat)
    requires (forall j: nat | j < |blocks| :: Pos(blocks[j], bs) + fb <= |image|) && i < |blocks| && a <= b <= fb
    ensures Pos(i, fb) + b <= Pos(|blocks|, fb)
    ensures Contents(image, bs, fb, blocks)[Pos(i, fb) + a..Pos(i, fb) + b] ==
            image[Pos(blocks[i], bs) + a..Pos(blocks[i], bs) + b]
    decreases |blocks|
  {
    hide Pos;
    PosIs(1, fb);
    var n := |blocks| - 1;
    PosAdd(n, 1, fb);
    var front, last := Contents(image, bs, fb, blocks[..n]), image[Pos(blocks[n], bs)..Pos(blocks[n], bs) + fb];
    if i < n {
      ContentsAt(image, bs, fb, blocks[..n], i, a, b);
      InFront(front, last, Pos(i, fb) + a, Pos(i, fb) + b);
    } else {
      Behind(front, last, a, b);
      SubSlice(image, Pos(blocks[n], bs), fb, a, b - a);
    }
  }

  lemma InFront(s: seq<Byte>, t: seq<Byte>, a: nat, b: nat)
    requires a <= b <= |s|
    ensures (s + t)[a..b] == s[a..b]
  {
  }

  lemma Behind(s: seq<Byte>, t: seq<Byte>, a: nat, b: nat)
    requires a <= b <= |t|
    ensures (s + t)[|s| + a..|s| + b] == t[a..b]
  {
  }

  /** No two blocks of the file share a byte. */
  ghost predicate BlocksApart(bs: nat, fb: nat, blocks: seq<nat>) {
    forall i: nat, j: nat | i < j < |blocks| :: BlockApart(bs, fb, blocks[i], blocks[j])
  }

  predicate BlockApart(bs: nat, fb: nat, b: nat, c: nat) {
    Pos(b, bs) + fb <= Pos(c, bs) || Pos(c, bs) + fb <= Pos(b, bs)
  }

  lemma SpliceFront(s: seq<Byte>, t: seq<Byte>, a: nat, d: seq<Byte>)
    requires a + |d| <= |s|
    ensures Splice(s + t, a, d) == Splice(s, a, d) + t
  {
  }

  lemma SpliceBehind(s: seq<Byte>, t: seq<Byte>, a: nat, d: seq<Byte>)
    requires a + |d| <= |t|
    ensures Splice(s + t, |s| + a, d) == s + Splice(t, a, d)
  {
  }

  /** A change of the device that misses the file. */
  lemma {:induction false} ContentsSame(image: seq<Byte>, bs: nat, fb: nat, blocks: seq<nat>, q: nat, d: seq<Byte>)
    requires (forall j: nat | j < |blocks| :: Pos(blocks[j], bs) + fb <= |image|) && q + |d| <= |image|
    requires forall j: nat | j < |blocks| :: q + |d| <= Pos(blocks[j], bs) || Pos(blocks[j], bs) + fb <= q
    ensures Contents(Splice(image, q, d), bs, fb, blocks) == Contents(image, bs, fb, blocks)
    decreases |blocks|
  {
    hide Splice, Pos;
    PosIs(1, fb);
    if blocks != [] {
      var n := |blocks| - 1;
      ContentsSame(image, bs, fb, blocks[..n], q, d);
      SpliceOther(image, q, d, Pos(blocks[n], bs), Pos(blocks[n], bs) + fb);
    }
  }

  lemma ApartFront(bs: nat, fb: nat, blocks: seq<nat>)
    requires BlocksApart(bs, fb, blocks) && blocks != []
    ensures BlocksApart(bs, fb, blocks[..|blocks| - 1])
    ensures forall i: nat | i < |blocks| - 1 :: BlockApart(bs, fb, blocks[i], blocks[|blocks| - 1])
  {
    var front := blocks[..|blocks| - 1];
    forall i: nat, j: nat | i < j < |front| ensures BlockApart(bs, fb, front[i], front[j]) {
      assert BlockApart(bs, fb, blocks[i], blocks[j]);
    }
  }

  /** A change inside the last block. */
  lemma LastSplice(image: seq<Byte>, bs: nat, fb: nat, front: seq<nat>, b: nat, a: nat, d: seq<Byte>)
    requires (forall j: nat | j < |front| :: Pos(front[j], bs) + fb <= |image|) && Pos(b, bs) + fb <= |image| &&
             a + |d| <= fb
    requires forall i: nat | i < |front| :: BlockApart(bs, fb, front[i], b)
    ensures Contents(Splice(image, Pos(b, bs) + a, d), bs, fb, front) == Contents(image, bs, fb, front)
    ensures Splice(image, Pos(b, bs) + a, d)[Pos(b, bs)..Pos(b, bs) + fb] ==
            Splice(image[Pos(b, bs)..Pos(b, bs) + fb], a, d)
  {
    hide Splice, Pos;
    var q := Pos(b, bs) + a;
    forall j: nat | j < |front| ensures q + |d| <= Pos(front[j], bs) || Pos(front[j], bs) + fb <= q {
      assert BlockApart(bs, fb, front[j], b);
    }
    ContentsSame(image, bs, fb, front, q, d);
    SpliceSlice(image, Pos(b, bs), fb, a, d);
  }

  /** A change inside block i of the file changes the same place of the file and nothing else of it. */
  lemma {:induction false} ContentsSplice(image: seq<Byte>, bs: nat, fb: nat, blocks: seq<nat>, i: nat, a: nat,
      d: seq<Byte>)
    requires (forall j: nat | j < |blocks| :: Pos(blocks[j], bs) + fb <= |image|) && BlocksApart(bs, fb, blocks)
    requires i < |blocks| && a + |d| <= fb
    ensures Pos(i, fb) + fb <= Pos(|blocks|, fb)
    ensures Contents(Splice(image, Pos(blocks[i], bs) + a, d), bs, fb, blocks) ==
            Splice(Contents(image, bs, fb, blocks), Pos(i, fb) + a, d)
    decreases |blocks|
  {
    hide Splice, Pos, BlocksApart;
    var n, q := |blocks| - 1, Pos(blocks[i], bs) + a;
    PosIs(1, fb);
    PosAdd(n, 1, fb);
    ApartFront(bs, fb, blocks);
    var rest, p := blocks[..n], Pos(blocks[n], bs);
    var front, last := Contents(image, bs, fb, rest), image[p..p + fb];
    if i < n {
      assert BlockApart(bs, fb, blocks[i], blocks[n]);
      ContentsSplice(image, bs, fb, rest, i, a, d);
      SpliceOther(image, q, d, p, p + fb);
      SpliceFront(front, last, Pos(i, fb) + a, d);
    } else {
      LastSplice(image, bs, fb, rest, blocks[n], a, d);
      SpliceBehind(front, last, a, d);
    }
  }

  /** A change inside a slice. */
  lemma SpliceSlice(s: seq<Byte>, p: nat, n: nat, a: nat, d: seq<Byte>)
    requires p + n <= |s| && a + |d| <= n
    ensures Splice(s, p + a, d)[p..p + n] == Splice(s[p..p + n], a, d)
  {
  }

  /** Writing a changed slice back changes only what was changed. */
  lemma SpliceBack(s: seq<Byte>, p: nat, n: nat, a: nat, d: seq<Byte>)
    requires p + n <= |s| && a + |d| <= n
    ensures Splice(s, p, Splice(s[p..p + n], a, d)) == Splice(s, p + a, d)
  {
  }

  /** What block cur contributes to the byte range from pos to last: from where to where. */
  function SegStart(cur: nat, fb: nat, pos: nat): nat
    requires fb > 0
  {
    if cur == pos / fb then pos % fb else 0
  }

  function SegEnd(cur: nat, fb: nat, last: nat): nat
    requires fb > 0
  {
    if cur == last / fb then last % fb else fb
  }

  /** The segment of one block continues the range where the blocks before it left off. */
  lemma Segment(cur: nat, fb: nat, pos: nat, last: nat)
    requires fb > 0 && pos <= last && pos / fb <= cur <= last / fb
    ensures SegStart(cur, fb, pos) <= SegEnd(cur, fb, last) <= fb
    ensures Pos(cur, fb) + SegEnd(cur, fb, last) == if cur == last / fb then last else Pos(cur + 1, fb)
    ensures Pos(cur, fb) + SegStart(cur, fb, pos) == if cur == pos / fb then pos else Pos(cur, fb)
  {
    assert pos == Pos(pos / fb, fb) + pos % fb && last == Pos(last / fb, fb) + last % fb;
    PosAdd(cur, 1, fb);
  }

  /** The block a position lies in. */
  lemma BlockOf(pos: nat, last: nat, fb: nat)
    requires fb > 0 && pos <= last
    ensures pos / fb <= last / fb && Pos(pos / fb, fb) <= pos < Pos(pos / fb + 1, fb)
  {
    assert pos == Pos(pos / fb, fb) + pos % fb && last == Pos(last / fb, fb) + last % fb;
    PosAdd(pos / fb, 1, fb);
    if last / fb < pos / fb { PosStep(last / fb, pos / fb, fb); }
  }
}
