/** Splitting requests into device blocks (rboot block.c). */
module BlockIo {
  import opened Bits
  import opened BlockCache

  /** The bytes asked for lie on the device, in blocks that have real numbers. */
  predicate OnDevice(image: seq<Byte>, bs: nat, size: nat, start: nat) {
    bs > 0 && Pos(start, bs) + size <= |image| && start + size / bs < EMPTY
  }

  /** The part of a request that its k-th block covers. */
  lemma Chunk(image: seq<Byte>, bs: nat, size: nat, start: nat, k: nat, left: nat)
    requires OnDevice(image, bs, size, start) && size == Pos(k, bs) + left
    ensures start + k < EMPTY && Pos(start + k, bs) == Pos(start, bs) + Pos(k, bs)
    ensures Avail(image, bs, Min(left, bs), start + k) == Min(left, bs)
    ensures BareRead(image, bs, Min(left, bs), start + k) == image[Pos(start, bs) + Pos(k, bs)..][..Min(left, bs)]
  {
    PosAdd(start, k, bs);
    Quotient(size, bs, size / bs);
    if size / bs < k { PosStep(size / bs, k, bs); }
  }

  lemma SpliceSnoc(b: seq<Byte>, ofs: nat, x: seq<Byte>, y: seq<Byte>)
    requires ofs + |x| + |y| <= |b|
    ensures Splice(Splice(b, ofs, x), ofs + |x|, y) == Splice(b, ofs, x + y)
  {
  }

  lemma SpliceNothing(b: seq<Byte>, ofs: nat, x: seq<Byte>)
    requires ofs <= |b| && x == []
    ensures Splice(b, ofs, x) == b
  {
  }

  lemma SliceSnoc(image: seq<Byte>, p: nat, n: nat, m: nat)
    requires p + n + m <= |image|
    ensures image[p..p + n] + image[p + n..][..m] == image[p..p + (n + m)]
  {
  }

  /** Reading block by block, or at once when the device can: the buffer gets the bytes of the device. */
  method BlockRead(c: Cache, multi: bool, buf: array<Byte>, ofs: nat, size: nat, start: nat) returns (n: nat)
    requires c.Valid() && buf != c.area && ofs + size <= buf.Length &&
             OnDevice(c.parent.image, c.parent.blockSize, size, start)
    modifies c.area, c.tags, buf
    ensures c.Valid() && n == size
    ensures buf[..] == Splice(old(buf[..]), ofs, c.parent.image[Pos(start, c.parent.blockSize)..][..size])
  {
    hide Pos, Splice, Coherent, BareRead, BareWrite;
    var bs := c.parent.blockSize;
    if multi && size / bs > 1 {
      n := ReadAtOnce(c, buf, ofs, size, start);
      return;
    }
    ghost var was, image, p := buf[..], c.parent.image, Pos(start, bs);
    n := 0;
    var block, left := 0, size;
    PosIs(0, bs);
    PosIs(1, bs);
    SpliceNothing(was, ofs, image[p..p + 0]);
    while true
      invariant c.Valid() && n == Pos(block, bs) && n + left == size
      invariant buf[..] == Splice(was, ofs, image[p..p + n])
      decreases left
    {
      var toRead := if left > bs then bs else left;
      ReadChunk(c, buf, ofs, size, start, block, left, was);
      n := n + toRead;
      block := block + 1;
      left := if left < bs then 0 else left - bs;
      if left == 0 { break; }
      PosAdd(block - 1, 1, bs);
    }
    DropTake(image, p, size);
  }

  method ReadAtOnce(c: Cache, buf: array<Byte>, ofs: nat, size: nat, start: nat) returns (n: nat)
    requires c.Valid() && buf != c.area && ofs + size <= buf.Length &&
             OnDevice(c.parent.image, c.parent.blockSize, size, start)
    requires size > 0
    modifies c.area, c.tags, buf
    ensures c.Valid() && n == size
    ensures buf[..] == Splice(old(buf[..]), ofs, c.parent.image[Pos(start, c.parent.blockSize)..][..size])
  {
    hide Pos, Splice, Coherent, BareWrite, Cache.Index, SlotOk;
    var bs := c.parent.blockSize;
    DropTake(c.parent.image, Pos(start, bs), size);
    n := c.Read(buf, ofs, size, start);
  }

  /** One block of the request. */
  method ReadChunk(c: Cache, buf: array<Byte>, ofs: nat, size: nat, start: nat, block: nat, left: nat,
      ghost was: seq<Byte>)
    requires c.Valid() && buf != c.area && ofs + size <= buf.Length == |was| &&
             OnDevice(c.parent.image, c.parent.blockSize, size, start)
    requires Pos(block, c.parent.blockSize) + left == size
    requires var p, n := Pos(start, c.parent.blockSize), Pos(block, c.parent.blockSize);
             buf[..] == Splice(was, ofs, c.parent.image[p..p + n])
    modifies c.area, c.tags, buf
    ensures c.Valid()
    ensures var p, n := Pos(start, c.parent.blockSize), Pos(block, c.parent.blockSize) + Min(left, c.parent.blockSize);
            buf[..] == Splice(was, ofs, c.parent.image[p..p + n])
  {
    hide Pos, Splice, Coherent, BareWrite, BareRead;
    var bs := c.parent.blockSize;
    var m := Min(left, bs);
    ghost var image, p, n := c.parent.image, Pos(start, bs), Pos(block, bs);
    Chunk(image, bs, size, start, block, left);
    var at := block * bs;
    PosIs(block, bs);
    SliceSnoc(image, p, n, m);
    SpliceSnoc(was, ofs, image[p..p + n], image[p + n..][..m]);
    var r := c.Read(buf, ofs + at, m, start + block);
  }

  lemma WriteChunkIs(image: seq<Byte>, bs: nat, size: nat, start: nat, k: nat, left: nat, d: seq<Byte>)
    requires OnDevice(image, bs, size, start) && size == Pos(k, bs) + left && |d| == Min(left, bs)
    ensures Pos(start, bs) + Pos(k, bs) + |d| <= |image| && Avail(image, bs, |d|, start + k) == |d|
    ensures BareWrite(image, bs, d, start + k) == Splice(image, Pos(start, bs) + Pos(k, bs), d)
  {
    Chunk(image, bs, size, start, k, left);
    assert d[..|d|] == d;
    if |d| == 0 { assert Splice(image, Pos(start, bs) + Pos(k, bs), d) == image; }
  }

  lemma Whole(size: nat, bs: nat)
    requires bs > 0 && size % bs == 0
    ensures Pos(size / bs, bs) == size
  {
    assert size == size / bs * bs + size % bs;
  }

  lemma NoneOrOne(bs: nat)
    requires bs > 0
    ensures 0 % bs == 0 && bs % bs == 0
  {
  }

  lemma WholeBlocksLeft(size: nat, bs: nat, k: nat, left: nat)
    requires bs > 0 && size % bs == 0 && size == Pos(k, bs) + left
    ensures Min(left, bs) % bs == 0 && (left > 0 ==> left >= bs)
  {
    hide Pos;
    Whole(size, bs);
    BlocksLeft(size / bs, bs, k, left);
    NoneOrOne(bs);
  }

  lemma BlocksLeft(m: nat, bs: nat, k: nat, left: nat)
    requires Pos(m, bs) == Pos(k, bs) + left
    ensures left == 0 || left >= bs
  {
    hide Pos;
    if m < k { PosStep(m, k, bs); } else if k < m { PosStep(k, m, bs); }
  }

  /** Writing block by block: the device's bytes are replaced by the buffer's. */
  method BlockWrite(c: Cache, buf: array<Byte>, ofs: nat, size: nat, start: nat) returns (n: nat)
    requires c.Valid() && buf != c.area && ofs + size <= buf.Length &&
             OnDevice(c.parent.image, c.parent.blockSize, size, start)
    requires size % c.parent.blockSize == 0
    modifies c.area, c.parent
    ensures c.Valid() && n == size
    ensures c.parent.image == Splice(old(c.parent.image), Pos(start, c.parent.blockSize), buf[ofs..ofs + size])
  {
    hide Pos, Splice, Coherent, BareRead, BareWrite;
    var bs := c.parent.blockSize;
    ghost var was, p := c.parent.image, Pos(start, bs);
    n := 0;
    var block, left := 0, size;
    PosIs(0, bs);
    PosIs(1, bs);
    SpliceNothing(was, p, buf[ofs..ofs + 0]);
    while true
      invariant c.Valid() && n == Pos(block, bs) && n + left == size &&
                c.parent.image == Splice(was, p, buf[ofs..ofs + n])
      decreases left
    {
      var toWrite := if left > bs then bs else left;
      WholeBlocksLeft(size, bs, block, left);
      WriteChunk(c, buf, ofs, size, start, block, left, was);
      n := n + toWrite;
      block := block + 1;
      left := if left < bs then 0 else left - bs;
      if left == 0 { break; }
      PosAdd(block - 1, 1, bs);
    }
  }

  method WriteChunk(c: Cache, buf: array<Byte>, ofs: nat, size: nat, start: nat, block: nat, left: nat,
      ghost was: seq<Byte>)
    requires c.Valid() && buf != c.area && ofs + size <= buf.Length && OnDevice(was, c.parent.blockSize, size, start)
    requires Pos(block, c.parent.blockSize) + left == size && Min(left, c.parent.blockSize) % c.parent.blockSize == 0
    requires c.parent.image == Splice(was, Pos(start, c.parent.blockSize),
             buf[ofs..ofs + Pos(block, c.parent.blockSize)])
    modifies c.area, c.parent
    ensures c.Valid()
    ensures c.parent.image == Splice(was, Pos(start, c.parent.blockSize),
                                     buf[ofs..ofs + (Pos(block, c.parent.blockSize) + Min(left, c.parent.blockSize))])
  {
    hide Pos, Splice, Coherent, BareWrite, BareRead;
    var bs := c.parent.blockSize;
    var m, at := Min(left, bs), block * bs;
    PosIs(block, bs);
    ghost var x, y := buf[ofs..ofs + at], buf[ofs + at..ofs + at + m];
    WriteChunkIs(c.parent.image, bs, size, start, block, left, y);
    SpliceSnoc(was, Pos(start, bs), x, y);
    assert x + y == buf[ofs..ofs + (at + m)];
    var r := c.Write(buf, ofs + at, m, start + block);
  }
}
