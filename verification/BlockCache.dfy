/** The write-through block cache and the device behind it (rboot block_cache.c). */
module BlockCache {
  import opened Bits

  /** A tag that marks an empty slot. */
  const EMPTY: nat := 0xFFFF_FFFF

  function Pos(b: nat, bs: nat): nat { b * bs }

  lemma PosIs(b: nat, bs: nat)
    ensures Pos(b, bs) == b * bs == bs * b
  {
  }

  lemma PosStep(b: nat, c: nat, bs: nat)
    requires b < c
    ensures Pos(b, bs) + bs <= Pos(c, bs)
  {
    MulMono(b + 1, c, bs);
    assert (b + 1) * bs == b * bs + bs;
  }

  lemma PosAdd(b: nat, k: nat, bs: nat)
    ensures Pos(b + k, bs) == Pos(b, bs) + Pos(k, bs)
  {
  }

  function Min(a: nat, b: nat): (m: nat)
    ensures m <= a && m <= b && (m == a || m == b)
  {
    if a <= b then a else b
  }

  /** How many of size bytes from block start on a device holding image has. */
  function Avail(image: seq<Byte>, bs: nat, size: nat, start: nat): nat {
    if Pos(start, bs) >= |image| then 0 else Min(size, |image| - Pos(start, bs))
  }

  /** What the bare device reads. */
  function BareRead(image: seq<Byte>, bs: nat, size: nat, start: nat): (r: seq<Byte>)
    ensures |r| == Avail(image, bs, size, start)
  {
    if Pos(start, bs) >= |image| then []
    else image[Pos(start, bs)..Pos(start, bs) + Avail(image, bs, size, start)]
  }

  /** The bytes at from replaced by data. */
  function Splice(s: seq<Byte>, from: nat, data: seq<Byte>): (r: seq<Byte>)
    requires from + |data| <= |s|
    ensures |r| == |s|
  {
    s[..from] + data + s[from + |data|..]
  }

  lemma SpliceOther(s: seq<Byte>, from: nat, data: seq<Byte>, i: nat, j: nat)
    requires from + |data| <= |s| && i <= j <= |s| && (j <= from || from + |data| <= i)
    ensures Splice(s, from, data)[i..j] == s[i..j]
  {
  }

  lemma SpliceInside(s: seq<Byte>, from: nat, data: seq<Byte>, i: nat, j: nat)
    requires from + |data| <= |s| && i <= j <= |data|
    ensures Splice(s, from, data)[from + i..from + j] == data[i..j]
  {
  }

  /** What the bare device holds after a write. */
  function BareWrite(image: seq<Byte>, bs: nat, data: seq<Byte>, start: nat): (r: seq<Byte>)
    ensures |r| == |image|
  {
    var n := Avail(image, bs, |data|, start);
    if n == 0 then image else Splice(image, Pos(start, bs), data[..n])
  }

  lemma DropTake(s: seq<Byte>, p: nat, n: nat)
    requires p + n <= |s|
    ensures s[p..][..n] == s[p..p + n]
  {
  }

  /** Copies between buffers. */
  method Copy(src: array<Byte>, from: nat, dst: array<Byte>, to: nat, n: nat)
    requires src != dst && from + n <= src.Length && to + n <= dst.Length
    modifies dst
    ensures dst[..] == Splice(old(dst[..]), to, src[from..from + n])
  {
    ghost var d := dst[..];
    forall i | 0 <= i < n { dst[to + i] := src[from + i]; }
    assert dst[..] == Splice(d, to, src[from..from + n]);
  }

  /** A device that reports how many bytes it moved and does not fail. */
  class Disk {
    const blockSize: nat
    var image: seq<Byte>

    constructor (blockSize: nat, image: seq<Byte>)
      ensures this.blockSize == blockSize && this.image == image
    {
      this.blockSize, this.image := blockSize, image;
    }

    method Read(dst: array<Byte>, to: nat, size: nat, start: nat) returns (n: nat)
      requires to + size <= dst.Length
      modifies dst
      ensures n == Avail(image, blockSize, size, start) &&
              dst[..] == Splice(old(dst[..]), to, BareRead(image, blockSize, size, start))
    {
      hide Pos;
      PosIs(start, blockSize);
      ghost var d := dst[..];
      var p := start * blockSize;
      n := if p >= |image| then 0 else Min(size, |image| - p);
      forall i | 0 <= i < n { dst[to + i] := image[p + i]; }
      assert dst[..] == Splice(d, to, BareRead(image, blockSize, size, start));
    }

    method Write(src: array<Byte>, from: nat, size: nat, start: nat) returns (n: nat)
      requires from + size <= src.Length
      modifies this`image
      ensures n == Avail(old(image), blockSize, size, start)
      ensures image == BareWrite(old(image), blockSize, src[from..from + size], start)
    {
      var p := start * blockSize;
      n := if p >= |image| then 0 else Min(size, |image| - p);
      assert src[from..from + size][..n] == src[from..from + n];
      if n > 0 { image := image[..p] + src[from..from + n] + image[p + n..]; }
    }
  }

  // ----- the cache

  /** Slot i's memory holds block tag of the image. */
  ghost predicate SlotOk(area: seq<Byte>, image: seq<Byte>, bs: nat, entries: nat, i: nat, tag: nat) {
    entries > 0 && Pos(i, bs) + bs <= |area| && tag % entries == i && Pos(tag, bs) + bs <= |image| &&
    area[Pos(i, bs)..Pos(i, bs) + bs] == image[Pos(tag, bs)..Pos(tag, bs) + bs]
  }

  ghost predicate Coherent(area: seq<Byte>, tags: seq<nat>, image: seq<Byte>, bs: nat) {
    bs > 0 && |tags| > 0 && Pos(|tags|, bs) <= |area| &&
    forall i: nat | i < |tags| && tags[i] != EMPTY :: SlotOk(area, image, bs, |tags|, i, tags[i])
  }

  lemma TopBit(n: nat, k: nat)
    requires Shr(n, k) == 1
    ensures Pow2(k) <= n < 2 * Pow2(k)
  {
    ShrShl(n, 1, k);
    ShrShl(n, 2, k);
    ShlPow2(0, k);
    ShlPow2(1, k);
  }

  /** The number of slots: how many blocks fit, rounded down to a power of two. */
  method SlotCount(length: nat, bs: nat) returns (entries: nat, ghost lg: nat)
    requires bs > 0 && length / bs > 0
    ensures entries == Pow2(lg) && Pos(entries, bs) <= length && length / bs < 2 * entries
  {
    var n := length / bs;
    var lg2, m: nat := 0, n;
    while m / 2 > 0
      invariant m == Shr(n, lg2) && m > 0
      decreases m
    {
      ShrSnoc(n, lg2);
      m := m / 2;
      lg2 := lg2 + 1;
    }
    TopBit(n, lg2);
    entries, lg := Pow2(lg2), lg2;
    MulMono(entries, n, bs);
    assert n * bs <= length;
  }

  /** A new tag for slot i whose memory has just been filled. */
  lemma Filled(area: seq<Byte>, tags: seq<nat>, image: seq<Byte>, bs: nat, i: nat, area': seq<Byte>, tag: nat)
    requires Coherent(area, tags, image, bs) && i < |tags| && |area'| == |area|
    requires forall k: nat | k < |area| && !(Pos(i, bs) <= k < Pos(i, bs) + bs) :: area'[k] == area[k]
    requires tag == EMPTY || SlotOk(area', image, bs, |tags|, i, tag)
    ensures Coherent(area', tags[i := tag], image, bs)
  {
    var tags' := tags[i := tag];
    forall j: nat | j < |tags'| && tags'[j] != EMPTY ensures SlotOk(area', image, bs, |tags'|, j, tags'[j]) {
      if j != i {
        assert SlotOk(area, image, bs, |tags|, j, tags[j]);
        PosStep(if j < i then j else i, if j < i then i else j, bs);
        assert area'[Pos(j, bs)..Pos(j, bs) + bs] == area[Pos(j, bs)..Pos(j, bs) + bs];
      }
    }
  }

  lemma SlotFits(entries: nat, i: nat, bs: nat)
    requires i < entries
    ensures Pos(i, bs) + bs <= Pos(entries, bs)
  {
    PosStep(i, entries, bs);
  }

  class Cache {
    const parent: Disk
    const area: array<Byte>
    const tags: array<nat>
    ghost const lg: nat

    constructor (parent: Disk, area: array<Byte>)
      requires parent.blockSize > 0 && area.Length / parent.blockSize > 0
      ensures this.parent == parent && this.area == area && Valid() && fresh(tags)
      ensures forall i | 0 <= i < tags.Length :: tags[i] == EMPTY
      ensures tags.Length == Pow2(lg) && area.Length / parent.blockSize < 2 * tags.Length
    {
      this.parent, this.area := parent, area;
      var entries, k := SlotCount(area.Length, parent.blockSize);
      tags := new nat[entries](_ => EMPTY);
      lg := k;
    }

    ghost predicate Valid()
      reads this, parent, area, tags
    {
      Coherent(area[..], tags[..], parent.image, parent.blockSize)
    }

    function Index(b: nat): nat
      requires tags.Length > 0
    {
      b % tags.Length
    }

    /** Loads a block, or a part of one, into its slot; only a whole block is remembered. */
    method Load(size: nat, start: nat) returns (n: nat)
      requires Valid() && size <= parent.blockSize
      modifies area, tags
      ensures Valid() && n == Avail(parent.image, parent.blockSize, size, start)
      ensures Pos(Index(start), parent.blockSize) + size <= area.Length
      ensures area[Pos(Index(start), parent.blockSize)..][..n] == BareRead(parent.image, parent.blockSize, size, start)
      ensures tags[..] == old(tags[..])[Index(start) := if n == parent.blockSize then start else EMPTY]
    {
      var bs := parent.blockSize;
      var idx := Index(start);
      SlotFits(tags.Length, idx, bs);
      ghost var a, t, r := area[..], tags[..], BareRead(parent.image, bs, size, start);
      n := parent.Read(area, bs * idx, size, start);
      assert bs * idx == Pos(idx, bs);
      assert area[..][Pos(idx, bs)..][..n] == r;
      if n == bs {
        tags[idx] := start;
        LoadedWhole(a, area[..], parent.image, bs, t, idx, start, r);
      } else {
        tags[idx] := EMPTY;
      }
      assert tags[..] == t[idx := tags[idx]];
      Filled(a, t, parent.image, bs, idx, area[..], tags[idx]);
    }

    /** Block number 0xFFFFFFFF is taken for cached when its slot is empty. */
    predicate Mistaken(size: nat, start: nat)
      requires tags.Length > 0
      reads tags
    {
      size <= parent.blockSize && start == EMPTY && tags[Index(start)] == EMPTY
    }

    /**
     * Reading through the cache gives what the bare device would give, but for the one mistaken block number. On a
     * device without that block the two agree if and only if the number is not mistaken. A whole block is remembered,
     * and nothing changes when the block is remembered already.
     */
    method Read(buf: array<Byte>, ofs: nat, size: nat, start: nat) returns (n: nat)
      requires Valid() && buf != area && ofs + size <= buf.Length
      modifies area, tags, buf
      ensures Valid()
      ensures !old(Mistaken(size, start)) ==>
                n == Avail(parent.image, parent.blockSize, size, start) &&
                buf[..] == Splice(old(buf[..]), ofs, BareRead(parent.image, parent.blockSize, size, start))
      ensures old(Mistaken(size, start)) ==>
                n == size && area[..] == old(area[..]) && Pos(Index(start), parent.blockSize) + size <= area.Length &&
                buf[..] == Splice(old(buf[..]), ofs, area[Pos(Index(start), parent.blockSize)..][..size])
      ensures size > 0 && Pos(EMPTY, parent.blockSize) >= |parent.image| ==>
                (n == Avail(parent.image, parent.blockSize, size, start) <==> !old(Mistaken(size, start)))
      ensures if size > parent.blockSize || old(tags[Index(start)]) == start
              then tags[..] == old(tags[..]) && area[..] == old(area[..])
              else tags[..] == old(tags[..])[Index(start) := if n == parent.blockSize then start else EMPTY]
    {
      hide SlotOk, Coherent, Splice, BareRead, Pos;
      SizesOk();
      var bs := parent.blockSize;
      if size > bs {
        n := parent.Read(buf, ofs, size, start);
        return;
      }
      var idx := Index(start);
      SlotFits(tags.Length, idx, bs);
      PosIs(idx, bs);
      n := size;
      if tags[idx] != start {
        n := Load(size, start);
      } else if start != EMPTY {
        Hit(area[..], tags[..], parent.image, bs, idx, size, start);
      }
      DropTake(area[..], Pos(idx, bs), n);
      Copy(area, bs * idx, buf, ofs, n);
    }

    lemma SizesOk()
      requires Valid()
      ensures parent.blockSize > 0 && tags.Length > 0 && Pos(tags.Length, parent.blockSize) <= area.Length
    {
    }

    /** Brings the slot of block b, if it holds that block, up to date. */
    method UpdateSlot(buf: array<Byte>, from: nat, b: nat, ghost last: nat)
      requires buf != area && from + parent.blockSize <= buf.Length && b < last
      requires Updated(area[..], tags[..], parent.image, parent.blockSize, b, last)
      requires Pos(b, parent.blockSize) + parent.blockSize <= |parent.image|
      requires parent.image[Pos(b, parent.blockSize)..][..parent.blockSize] == buf[from..from + parent.blockSize]
      modifies area
      ensures Updated(area[..], tags[..], parent.image, parent.blockSize, b + 1, last)
    {
      var bs := parent.blockSize;
      var idx := Index(b);
      SlotFits(tags.Length, idx, bs);
      ghost var a := area[..];
      if tags[idx] == b { Copy(buf, from, area, bs * idx, bs); }
      assert bs * idx == Pos(idx, bs);
      UpdatedNext(a, area[..], tags[..], parent.image, bs, b, last, buf[from..from + bs]);
    }

    /** Writing through the cache: the device gets the bytes, and slots that hold its blocks follow. */
    method Write(buf: array<Byte>, ofs: nat, size: nat, start: nat) returns (n: int)
      requires Valid() && buf != area && ofs + size <= buf.Length
      modifies parent, area
      ensures Valid()
      ensures size % parent.blockSize != 0 ==> n == -1 && parent.image == old(parent.image)
      ensures size % parent.blockSize == 0 ==>
                n == Avail(old(parent.image), parent.blockSize, size, start) &&
                parent.image == BareWrite(old(parent.image), parent.blockSize, buf[ofs..ofs + size], start)
    {
      var bs := parent.blockSize;
      if size % bs != 0 { return -1; }
      ghost var image, data := parent.image, buf[ofs..ofs + size];
      var written := parent.Write(buf, ofs, size, start);
      var count := written / bs;
      WrittenBlocks(area[..], tags[..], image, bs, data, start, count);
      UpdateSlots(buf, ofs, size, start, count, image);
      n := written;
    }

    /** The loop over the written blocks. */
    method UpdateSlots(buf: array<Byte>, ofs: nat, size: nat, start: nat, count: nat, ghost image: seq<Byte>)
      requires buf != area && ofs + size <= buf.Length && parent.blockSize > 0
      requires parent.image == BareWrite(image, parent.blockSize, buf[ofs..ofs + size], start)
      requires count == Avail(image, parent.blockSize, size, start) / parent.blockSize
      requires Updated(area[..], tags[..], parent.image, parent.blockSize, start, start + count)
      modifies area
      ensures Valid()
    {
      var bs := parent.blockSize;
      ghost var data := buf[ofs..ofs + size];
      var i := 0;
      while i < count
        invariant i <= count && Updated(area[..], tags[..], parent.image, bs, start + i, start + count)
      {
        BlockOfData(image, bs, data, start, i, count);
        var at := i * bs;
        SubSlice(buf[..], ofs, size, at, bs);
        assert buf[ofs + at..ofs + at + bs] == data[Pos(i, bs)..Pos(i, bs) + bs];
        UpdateSlot(buf, ofs + at, start + i, start + count);
        i := i + 1;
      }
    }
  }

  lemma SubSlice(b: seq<Byte>, ofs: nat, size: nat, at: nat, n: nat)
    requires ofs + size <= |b| && at + n <= size
    ensures b[ofs..ofs + size][at..at + n] == b[ofs + at..ofs + at + n]
  {
    var x, y := b[ofs..ofs + size][at..at + n], b[ofs + at..ofs + at + n];
    assert |x| == |y| && forall k: nat | k < n :: x[k] == y[k];
  }

  predicate InPlace(tags: seq<nat>, i: nat)
    requires i < |tags|
  {
    tags[i] % |tags| == i
  }

  /** Slots are coherent except those of blocks first to last, which still hold what they held. */
  ghost predicate Updated(area: seq<Byte>, tags: seq<nat>, image: seq<Byte>, bs: nat, first: nat, last: nat) {
    bs > 0 && |tags| > 0 && Pos(|tags|, bs) <= |area| &&
    (forall i: nat | i < |tags| && tags[i] != EMPTY :: InPlace(tags, i)) &&
    forall i: nat | i < |tags| && tags[i] != EMPTY && !(first <= tags[i] < last) ::
      SlotOk(area, image, bs, |tags|, i, tags[i])
  }

  lemma UpdatedNext(a: seq<Byte>, a': seq<Byte>, tags: seq<nat>, image: seq<Byte>, bs: nat, b: nat, last: nat,
      data: seq<Byte>)
    requires Updated(a, tags, image, bs, b, last) && b < last && |data| == bs
    requires Pos(b, bs) + bs <= |image| && image[Pos(b, bs)..][..bs] == data
    requires var idx := b % |tags|;
             Pos(idx, bs) + bs <= |a| && a' == if tags[idx] == b then Splice(a, Pos(idx, bs), data) else a
    ensures Updated(a', tags, image, bs, b + 1, last)
  {
    var idx := b % |tags|;
    forall i: nat | i < |tags| && tags[i] != EMPTY && !(b + 1 <= tags[i] < last)
      ensures SlotOk(a', image, bs, |tags|, i, tags[i])
    {
      if tags[idx] == b {
        if i == idx {
          SpliceInside(a, Pos(idx, bs), data, 0, bs);
        } else {
          assert InPlace(tags, i);
          OtherSlot(a, tags, image, bs, b, last, i, data);
        }
      }
    }
  }

  /** After the device has been written, only the slots of the written blocks are out of date. */
  lemma WrittenBlocks(area: seq<Byte>, tags: seq<nat>, image: seq<Byte>, bs: nat, data: seq<Byte>, start: nat,
      count: nat)
    requires Coherent(area, tags, image, bs) && count == Avail(image, bs, |data|, start) / bs && |data| % bs == 0
    ensures Updated(area, tags, BareWrite(image, bs, data, start), bs, start, start + count)
  {
    var image' := BareWrite(image, bs, data, start);
    forall i: nat | i < |tags| && tags[i] != EMPTY ensures InPlace(tags, i) {
      assert SlotOk(area, image, bs, |tags|, i, tags[i]);
    }
    forall i: nat | i < |tags| && tags[i] != EMPTY && !(start <= tags[i] < start + count)
      ensures SlotOk(area, image', bs, |tags|, i, tags[i])
    {
      assert SlotOk(area, image, bs, |tags|, i, tags[i]);
      Untouched(image, bs, data, start, count, tags[i]);
    }
  }

  lemma Quotient(n: nat, bs: nat, k: nat)
    requires bs > 0 && k == n / bs
    ensures Pos(k, bs) <= n < Pos(k, bs) + bs
  {
    assert n == k * bs + n % bs;
  }

  /** A block of the device that is not among the written ones. */
  lemma Untouched(image: seq<Byte>, bs: nat, data: seq<Byte>, start: nat, count: nat, b: nat)
    requires bs > 0 && count == Avail(image, bs, |data|, start) / bs && |data| % bs == 0
    requires Pos(b, bs) + bs <= |image| && !(start <= b < start + count)
    ensures BareWrite(image, bs, data, start)[Pos(b, bs)..Pos(b, bs) + bs] == image[Pos(b, bs)..Pos(b, bs) + bs]
  {
    var n, p := Avail(image, bs, |data|, start), Pos(start, bs);
    if n == 0 { return; }
    Quotient(n, bs, count);
    if b < start {
      PosStep(b, start, bs);
    } else {
      PosAdd(start, b - start, bs);
      if b - start > count { PosStep(count, b - start, bs); }
      WholeOrEnd(image, bs, data, start, count);
    }
    SpliceOther(image, p, data[..n], Pos(b, bs), Pos(b, bs) + bs);
  }

  /** Either whole blocks were written, or the device ended. */
  lemma WholeOrEnd(image: seq<Byte>, bs: nat, data: seq<Byte>, start: nat, count: nat)
    requires bs > 0 && count == Avail(image, bs, |data|, start) / bs && |data| % bs == 0 &&
             Avail(image, bs, |data|, start) > 0
    ensures Avail(image, bs, |data|, start) == Pos(count, bs) ||
            Pos(start, bs) + Avail(image, bs, |data|, start) == |image|
  {
    var n := Avail(image, bs, |data|, start);
    assert |data| == (|data| / bs) * bs + |data| % bs;
  }

  lemma BlockOfData(image: seq<Byte>, bs: nat, data: seq<Byte>, start: nat, i: nat, count: nat)
    requires bs > 0 && i < count == Avail(image, bs, |data|, start) / bs
    ensures Pos(i, bs) + bs <= |data| && Pos(start + i, bs) + bs <= |image|
    ensures BareWrite(image, bs, data, start)[Pos(start + i, bs)..][..bs] == data[Pos(i, bs)..Pos(i, bs) + bs]
  {
    var n, p := Avail(image, bs, |data|, start), Pos(start, bs);
    Quotient(n, bs, count);
    PosStep(i, count, bs);
    PosAdd(start, i, bs);
    var w := data[..n];
    SpliceInside(image, p, w, Pos(i, bs), Pos(i, bs) + bs);
    var r := BareWrite(image, bs, data, start);
    assert r[Pos(start + i, bs)..][..bs] == r[p + Pos(i, bs)..p + (Pos(i, bs) + bs)];
    assert w[Pos(i, bs)..Pos(i, bs) + bs] == data[Pos(i, bs)..Pos(i, bs) + bs];
  }

  /** Only one slot can hold block b: any other tag equal to b is not for its slot. */
  lemma OtherSlot(a: seq<Byte>, tags: seq<nat>, image: seq<Byte>, bs: nat, b: nat, last: nat, i: nat, data: seq<Byte>)
    requires Updated(a, tags, image, bs, b, last) && i < |tags| && i != b % |tags| && tags[i] != EMPTY && |data| == bs
    requires Pos(b % |tags|, bs) + bs <= |a| && tags[i] != b && SlotOk(a, image, bs, |tags|, i, tags[i])
    ensures SlotOk(Splice(a, Pos(b % |tags|, bs), data), image, bs, |tags|, i, tags[i])
  {
    var idx := b % |tags|;
    PosStep(if i < idx then i else idx, if i < idx then idx else i, bs);
    SpliceOther(a, Pos(idx, bs), data, Pos(i, bs), Pos(i, bs) + bs);
  }

  lemma LoadedWhole(a: seq<Byte>, a': seq<Byte>, image: seq<Byte>, bs: nat, tags: seq<nat>, idx: nat, start: nat,
      r: seq<Byte>)
    requires |tags| > 0 && idx == start % |tags| && Pos(idx, bs) + bs <= |a| == |a'| &&
             r == BareRead(image, bs, bs, start) && |r| == bs > 0
    requires a' == Splice(a, Pos(idx, bs), r)
    ensures SlotOk(a', image, bs, |tags|, idx, start)
  {
  }

  lemma Hit(area: seq<Byte>, tags: seq<nat>, image: seq<Byte>, bs: nat, idx: nat, size: nat, start: nat)
    requires Coherent(area, tags, image, bs) && idx < |tags| && tags[idx] == start != EMPTY && size <= bs
    ensures Pos(idx, bs) + bs <= |area| && Avail(image, bs, size, start) == size
    ensures area[Pos(idx, bs)..][..size] == BareRead(image, bs, size, start)
  {
    assert SlotOk(area, image, bs, |tags|, idx, start);
    var p, q := Pos(idx, bs), Pos(start, bs);
    assert area[p..][..size] == area[p..p + bs][..size] && image[q..q + size] == image[q..q + bs][..size];
  }

  // ----- whole runs

  datatype Op = ReadOp(size: nat, start: nat) | WriteOp(data: seq<Byte>, start: nat)

  /** What one operation returns on the bare device: bytes read, or the number of bytes written. */
  datatype Reply = Data(bytes: seq<Byte>) | Count(n: int)

  function BareStep(image: seq<Byte>, bs: nat, op: Op): (seq<Byte>, Reply)
    requires bs > 0
  {
    match op
    case ReadOp(size, start) => (image, Data(BareRead(image, bs, size, start)))
    case WriteOp(data, start) =>
      if |data| % bs != 0 then (image, Count(-1))
      else (BareWrite(image, bs, data, start), Count(Avail(image, bs, |data|, start)))
  }

  function BareRun(image: seq<Byte>, bs: nat, ops: seq<Op>): (seq<Byte>, seq<Reply>)
    requires bs > 0
  {
    if ops == [] then (image, [])
    else
      var (i, replies) := BareRun(image, bs, ops[..|ops| - 1]);
      var (i', reply) := BareStep(i, bs, ops[|ops| - 1]);
      (i', replies + [reply])
  }

  method Step(c: Cache, op: Op) returns (reply: Reply)
    requires c.Valid() && c.parent.blockSize > 0 && (op.ReadOp? ==> op.start != EMPTY)
    modifies c.area, c.tags, c.parent
    ensures c.Valid() && (c.parent.image, reply) == BareStep(old(c.parent.image), c.parent.blockSize, op)
  {
    match op
    case ReadOp(size, start) =>
      var buf := new Byte[size](_ => 0);
      ghost var zeros := buf[..];
      var n := c.Read(buf, 0, size, start);
      SpliceInside(zeros, 0, BareRead(c.parent.image, c.parent.blockSize, size, start), 0, n);
      assert buf[0 + 0..0 + n] == buf[..n];
      reply := Data(buf[..n]);
    case WriteOp(data, start) =>
      var buf := new Byte[|data|](i requires 0 <= i < |data| => data[i]);
      assert buf[..] == data && buf[0..|data|] == data;
      var n := c.Write(buf, 0, |data|, start);
      reply := Count(n);
  }

  /** Over any run, a cached device replies as the bare one would, and leaves it as the bare one would be. */
  method Run(c: Cache, ops: seq<Op>) returns (replies: seq<Reply>)
    requires c.Valid() && c.parent.blockSize > 0
    requires forall i | 0 <= i < |ops| :: ops[i].ReadOp? ==> ops[i].start != EMPTY
    modifies c.area, c.tags, c.parent
    ensures c.Valid() && (c.parent.image, replies) == BareRun(old(c.parent.image), c.parent.blockSize, ops)
  {
    replies := [];
    var i := 0;
    while i < |ops|
      invariant i <= |ops| && c.Valid()
      invariant (c.parent.image, replies) == BareRun(old(c.parent.image), c.parent.blockSize, ops[..i])
    {
      assert ops[..i + 1][..i] == ops[..i];
      var reply := Step(c, ops[i]);
      replies := replies + [reply];
      i := i + 1;
    }
    assert ops[..i] == ops;
  }

  /**
   * A read that does not agree with the device: block 0xFFFFFFFF through a new cache gives the slot's leftover bytes.
   */
  method EmptyTagHit() returns (cached: nat, bare: nat)
    ensures cached == 1 && bare == 0
  {
    var disk := new Disk(1, [7]);
    var area := new Byte[1](_ => 9);
    var c := new Cache(disk, area);
    var buf := new Byte[1](_ => 0);
    bare := Avail(disk.image, 1, 1, EMPTY);
    cached := c.Read(buf, 0, 1, EMPTY);
  }
}
