/** Byte ranges of files over their blocks, and the stream functions above them (rboot libfs.c and vfs.c). */
module FileAccess {
  import opened Bits
  import opened BlockCache
  import opened BlockIo
  import opened FileBytes
  import opened FatChain

  /** The part of an open file that the read and write loops use. */
  class Stream {
    var pos: nat
    var len: nat
    /** Opened so that every write goes to the end: mode a+. */
    const appends: bool

    constructor (len: nat, appends: bool)
      ensures pos == 0 && this.len == len && this.appends == appends
    {
      pos, this.len, this.appends := 0, len, appends;
    }
  }

  /**
   * The file behind a stream: its blocks lie on the device, and the walk to find them has come no further than block
   * idx.
   */
  ghost predicate Backed(c: Cache, m: BlockMap, fb: nat, idx: nat)
    reads c, c.parent, c.area, c.tags, m
  {
    c.Valid() && m.Ready(c.parent.image) && (m.kind.Chained? ==> c.parent.blockSize == SECTOR && m.fBlock <= idx) &&
    Real(m.kind) && MapOk(c.parent.image, c.parent.blockSize, fb, m.Blocks())
  }

  ghost predicate Real(kind: Kind) {
    kind.Chained? ==> forall i | 0 <= i < |kind.clusters| :: kind.clusters[i] >= 2
  }

  ghost function File(c: Cache, m: BlockMap, fb: nat): (f: seq<Byte>)
    requires Real(m.kind) && MapOk(c.parent.image, c.parent.blockSize, fb, m.Blocks())
    reads c.parent
    ensures |f| == Pos(|m.Blocks()|, fb)
  {
    Contents(c.parent.image, c.parent.blockSize, fb, m.Blocks())
  }

  /** How far the blocks before cur reach into the byte range. */
  function Reached(cur: nat, fb: nat, pos: nat, last: nat): nat
    requires fb > 0
  {
    if cur == pos / fb then pos else if cur > last / fb then last else Pos(cur, fb)
  }

  lemma ReachedNext(cur: nat, fb: nat, pos: nat, last: nat)
    requires fb > 0 && pos <= last && pos / fb <= cur <= last / fb
    ensures Reached(cur, fb, pos, last) == Pos(cur, fb) + SegStart(cur, fb, pos)
    ensures Reached(cur + 1, fb, pos, last) == Pos(cur, fb) + SegEnd(cur, fb, last)
    ensures SegStart(cur, fb, pos) <= SegEnd(cur, fb, last) <= fb
  {
    Segment(cur, fb, pos, last);
  }

  /** Reads one block's part of the range into the target. */
  method ReadSegment(c: Cache, multi: bool, b: nat, fb: nat, a: nat, e: nat, ptr: array<Byte>, at: nat)
    requires c.Valid() && ptr != c.area && a <= e <= fb && at + (e - a) <= ptr.Length &&
             OnDevice(c.parent.image, c.parent.blockSize, fb, b)
    modifies c.area, c.tags, ptr
    ensures c.Valid()
    ensures var p := Pos(b, c.parent.blockSize); ptr[..] == Splice(old(ptr[..]), at, c.parent.image[p + a..p + e])
  {
    hide Pos, Splice, Coherent, BareRead, BareWrite;
    ghost var image, p := c.parent.image, Pos(b, c.parent.blockSize);
    if a == 0 && e - a == fb {
      var _ := BlockRead(c, multi, ptr, at, fb, b);
      assert image[p..][..fb] == image[p + a..p + e];
    } else {
      var temp := new Byte[fb](_ => 0);
      ghost var zeros := temp[..];
      var _ := BlockRead(c, multi, temp, 0, fb, b);
      TempHolds(image, zeros, temp[..], p, fb, a, e);
      assert temp[a..e] == temp[..][a..e];
      Copy(temp, a, ptr, at, e - a);
    }
  }

  lemma TempHolds(image: seq<Byte>, zeros: seq<Byte>, temp: seq<Byte>, p: nat, fb: nat, a: nat, e: nat)
    requires |zeros| == fb && p + fb <= |image| && temp == Splice(zeros, 0, image[p..][..fb]) && a <= e <= fb
    ensures |temp| == fb && temp[a..e] == image[p + a..p + e]
  {
    assert temp == image[p..][..fb];
  }

  /** How many of n bytes from pos a file has. */
  function Clip(pos: nat, n: nat, len: nat): nat { if pos >= len then 0 else Min(n, len - pos) }

  /** Where the loop stops for want of blocks, all of the range that the file has has been read. */
  lemma StopsAtEnd(cur: nat, fb: nat, pos: nat, last: nat, blocks: nat)
    requires fb > 0 && pos <= last && pos / fb <= cur <= last / fb && blocks <= cur
    requires cur == pos / fb || Reached(cur, fb, pos, last) <= Pos(blocks, fb)
    ensures Reached(cur, fb, pos, last) - pos == Clip(pos, last - pos, Pos(blocks, fb))
  {
    hide Pos;
    BlockOf(pos, last, fb);
    BlockOf(last, last, fb);
    PosMono(blocks, cur, fb);
    PosMono(cur, last / fb, fb);
    if pos / fb < cur { PosMono(pos / fb + 1, cur, fb); }
  }

  lemma PosMono(b: nat, c: nat, fb: nat)
    requires b <= c
    ensures Pos(b, fb) <= Pos(c, fb)
  {
    hide Pos;
    if b < c { PosStep(b, c, fb); }
  }

  /** A segment of a block that the file has. */
  lemma SegmentInFile(image: seq<Byte>, bs: nat, fb: nat, blocks: seq<nat>, cur: nat, pos: nat, last: nat)
    requires MapOk(image, bs, fb, blocks) && pos <= last && pos / fb <= cur <= last / fb && cur < |blocks|
    ensures var f, p := Contents(image, bs, fb, blocks), Pos(blocks[cur], bs);
            pos <= Reached(cur, fb, pos, last) <= Reached(cur + 1, fb, pos, last) <= |f| &&
            Reached(cur + 1, fb, pos, last) <= last &&
            f[pos..Reached(cur + 1, fb, pos, last)] ==
            f[pos..Reached(cur, fb, pos, last)] + image[p + SegStart(cur, fb, pos)..p + SegEnd(cur, fb, last)]
  {
    var a, e, f := SegStart(cur, fb, pos), SegEnd(cur, fb, last), Contents(image, bs, fb, blocks);
    ReachedNext(cur, fb, pos, last);
    ContentsAt(image, bs, fb, blocks, cur, a, e);
    RangeBounds(cur, fb, pos, last);
    var r0, r1 := Reached(cur, fb, pos, last), Reached(cur + 1, fb, pos, last);
    assert f[pos..r1] == f[pos..r0] + f[r0..r1];
  }

  lemma RangeBounds(cur: nat, fb: nat, pos: nat, last: nat)
    requires fb > 0 && pos <= last && pos / fb <= cur <= last / fb
    ensures pos <= Reached(cur, fb, pos, last) && Reached(cur + 1, fb, pos, last) <= last
  {
    BlockOf(pos, last, fb);
    assert last == Pos(last / fb, fb) + last % fb;
    if pos / fb < cur { MulMono(pos / fb + 1, cur, fb); }
    if cur < last / fb { MulMono(cur + 1, last / fb, fb); }
  }

  /** The target after n bytes of the file from pos have been put in. */
  ghost function Filled(was: seq<Byte>, file: seq<Byte>, pos: nat, n: nat): seq<Byte>
    requires n > 0 ==> pos + n <= |file| && n <= |was|
  {
    if n == 0 then was else Splice(was, 0, file[pos..pos + n])
  }

  lemma FilledNext(was: seq<Byte>, file: seq<Byte>, pos: nat, n: nat, d: seq<Byte>)
    requires pos + n + |d| <= |file| && n + |d| <= |was| && file[pos..pos + (n + |d|)] == file[pos..pos + n] + d
    ensures Splice(Filled(was, file, pos, n), n, d) == Filled(was, file, pos, n + |d|)
  {
    if n > 0 {
      SpliceSnoc(was, 0, file[pos..pos + n], d);
    } else {
      assert file[pos..pos + (n + |d|)] == d;
      if |d| == 0 { assert Splice(was, 0, d) == was; }
    }
  }

  /** One block of the range: its bytes go to the target and the position moves on. */
  method ReadBlock(c: Cache, multi: bool, m: BlockMap, b: nat, cur: nat, fb: nat, ptr: array<Byte>, total: nat,
      s: Stream, pos: nat, last: nat, ghost was: seq<Byte>, ghost file: seq<Byte>) returns (total': nat)
    requires Backed(c, m, fb, cur) && cur < |m.Blocks()| && b == m.Blocks()[cur] && file == File(c, m, fb)
    requires ptr != c.area && pos <= last <= pos + ptr.Length && pos / fb <= cur <= last / fb && |was| == ptr.Length
    requires s.pos == pos + total == Reached(cur, fb, pos, last) && (total > 0 ==> s.pos <= |file| && total <= |was|)
    requires ptr[..] == Filled(was, file, pos, total)
    modifies c.area, c.tags, ptr, s`pos
    ensures Backed(c, m, fb, cur) && file == File(c, m, fb)
    ensures s.pos == pos + total' == Reached(cur + 1, fb, pos, last) <= |file| && s.pos <= last && total' <= |was|
    ensures ptr[..] == Filled(was, file, pos, total')
  {
    hide Pos, Splice, Coherent, BareRead, Contents, IsChain, Reached;
    var a, e := SegStart(cur, fb, pos), SegEnd(cur, fb, last);
    ghost var image, p := c.parent.image, Pos(b, c.parent.blockSize);
    SegmentInFile(image, c.parent.blockSize, fb, m.Blocks(), cur, pos, last);
    ReachedNext(cur, fb, pos, last);
    assert OnDevice(image, c.parent.blockSize, fb, b);
    ReadSegment(c, multi, b, fb, a, e, ptr, total);
    FilledNext(was, file, pos, total, image[p + a..p + e]);
    total' := total + (e - a);
    s.pos := s.pos + (e - a);
  }

  /** Reading a byte range: exactly the bytes of the file from the position on, as many as it has. */
  method FsRead(c: Cache, multi: bool, m: BlockMap, fb: nat, ptr: array<Byte>, byteSize: nat, s: Stream)
      returns (total: nat)
    requires fb > 0 && ptr != c.area && byteSize <= ptr.Length && Backed(c, m, fb, s.pos / fb)
    modifies c.area, c.tags, m, ptr, s`pos
    ensures c.Valid() && File(c, m, fb) == old(File(c, m, fb))
    ensures total == Clip(old(s.pos), byteSize, |File(c, m, fb)|) && s.pos == old(s.pos) + total
    ensures ptr[..] == Filled(old(ptr[..]), File(c, m, fb), old(s.pos), total)
  {
    var pos, last := s.pos, s.pos + byteSize;
    var cur := pos / fb;
    total := 0;
    ghost var was, file := ptr[..], File(c, m, fb);
    BlockOf(pos, last, fb);
    while cur <= last / fb
      invariant pos / fb <= cur <= last / fb + 1 && Backed(c, m, fb, cur) && file == File(c, m, fb)
      invariant s.pos == pos + total == Reached(cur, fb, pos, last) && total <= |was| && s.pos <= last
      invariant (cur > pos / fb || total > 0 ==> s.pos <= |file|) && ptr[..] == Filled(was, file, pos, total)
    {
      var b := m.Next(c, multi, cur);
      if b == EMPTY {
        EndOfMap(c, m, fb, cur);
        StopsAtEnd(cur, fb, pos, last, |m.Blocks()|);
        return;
      }
      total := ReadBlock(c, multi, m, b, cur, fb, ptr, total, s, pos, last, was, file);
      cur := cur + 1;
    }
    BlockOf(pos, last, fb);
  }

  /** The map has no block idx only when the file has none. */
  lemma EndOfMap(c: Cache, m: BlockMap, fb: nat, idx: nat)
    requires Backed(c, m, fb, idx) && EMPTY == if idx < |m.Blocks()| then m.Blocks()[idx] else EMPTY
    ensures idx >= |m.Blocks()|
  {
  }

  // ----- writing

  /** Reads a block, changes it and writes it back. */
  method EditBlock(c: Cache, multi: bool, b: nat, fb: nat, a: nat, e: nat, ptr: array<Byte>, at: nat)
    requires c.Valid() && ptr != c.area && a <= e <= fb && at + (e - a) <= ptr.Length &&
             OnDevice(c.parent.image, c.parent.blockSize, fb, b)
    requires fb % c.parent.blockSize == 0
    modifies c.area, c.tags, c.parent
    ensures c.Valid()
    ensures var p := Pos(b, c.parent.blockSize);
            c.parent.image == Splice(old(c.parent.image), p + a, ptr[at..at + (e - a)])
  {
    hide Pos, Splice, Coherent, BareRead, BareWrite;
    ghost var image, p, d := c.parent.image, Pos(b, c.parent.blockSize), ptr[at..at + (e - a)];
    var temp := new Byte[fb](_ => 0);
    ghost var zeros := temp[..];
    var _ := BlockRead(c, multi, temp, 0, fb, b);
    WholeBlock(image, zeros, temp[..], p, fb);
    Copy(ptr, at, temp, a, e - a);
    SpliceBack(image, p, fb, a, d);
    var _ := PutBack(c, temp, fb, b);
  }

  method PutBack(c: Cache, temp: array<Byte>, fb: nat, b: nat) returns (n: nat)
    requires c.Valid() && temp != c.area && temp.Length == fb && OnDevice(c.parent.image, c.parent.blockSize, fb, b)
    requires fb % c.parent.blockSize == 0
    modifies c.area, c.parent
    ensures c.Valid() && c.parent.image == Splice(old(c.parent.image), Pos(b, c.parent.blockSize), temp[..])
  {
    hide Pos, Splice, Coherent, BareRead, BareWrite;
    assert temp[0..fb] == temp[..];
    n := BlockWrite(c, temp, 0, fb, b);
  }

  lemma WholeBlock(image: seq<Byte>, zeros: seq<Byte>, temp: seq<Byte>, p: nat, fb: nat)
    requires |zeros| == fb && p + fb <= |image| && temp == Splice(zeros, 0, image[p..][..fb])
    ensures temp == image[p..p + fb]
  {
  }

  /** Writes one block's part of the range, in place when it is the whole block. */
  method WriteSegment(c: Cache, multi: bool, b: nat, fb: nat, a: nat, e: nat, ptr: array<Byte>, at: nat)
    requires c.Valid() && ptr != c.area && a <= e <= fb && at + (e - a) <= ptr.Length &&
             OnDevice(c.parent.image, c.parent.blockSize, fb, b)
    requires fb % c.parent.blockSize == 0
    modifies c.area, c.tags, c.parent
    ensures c.Valid()
    ensures var p := Pos(b, c.parent.blockSize);
            c.parent.image == Splice(old(c.parent.image), p + a, ptr[at..at + (e - a)])
  {
    hide Pos, Splice, Coherent, BareRead, BareWrite;
    if a == 0 && e - a == fb {
      var _ := BlockWrite(c, ptr, at, fb, b);
    } else {
      EditBlock(c, multi, b, fb, a, e, ptr, at);
    }
  }

  /** The file after n bytes of data have been put in at pos. */
  ghost function Put(file: seq<Byte>, pos: nat, data: seq<Byte>, n: nat): (f: seq<Byte>)
    requires n > 0 ==> pos + n <= |file| && n <= |data|
    ensures |f| == |file|
  {
    if n == 0 then file else Splice(file, pos, data[..n])
  }

  lemma PutNext(file: seq<Byte>, pos: nat, data: seq<Byte>, n: nat, k: nat)
    requires pos + n + k <= |file| && n + k <= |data|
    ensures Splice(Put(file, pos, data, n), pos + n, data[n..n + k]) == Put(file, pos, data, n + k)
  {
    assert data[..n] + data[n..n + k] == data[..n + k];
    if n > 0 {
      SpliceSnoc(file, pos, data[..n], data[n..n + k]);
    } else {
      assert data[n..n + k] == data[..k];
      if k == 0 { assert Splice(file, pos, data[..k]) == file; }
    }
  }

  /** Byte k of the device is in no block of the file. */
  ghost predicate OutsideFile(bs: nat, fb: nat, blocks: seq<nat>, k: nat) {
    forall i: nat | i < |blocks| :: !(Pos(blocks[i], bs) <= k < Pos(blocks[i], bs) + fb)
  }

  /** The device is the same outside the file. */
  ghost predicate SameOutside(image: seq<Byte>, image': seq<Byte>, bs: nat, fb: nat, blocks: seq<nat>) {
    |image'| == |image| && forall k: nat | k < |image| && OutsideFile(bs, fb, blocks, k) :: image'[k] == image[k]
  }

  /** A file whose blocks can be written without disturbing how they are found. */
  ghost predicate Writable(c: Cache, m: BlockMap, fb: nat)
    reads c, c.parent, c.area, c.tags, m
  {
    Backed(c, m, fb, 0) && m.kind.Indexed? && fb % c.parent.blockSize == 0 &&
    BlocksApart(c.parent.blockSize, fb, m.Blocks())
  }

  /** A change inside a block of the file, seen from the file and from the rest of the device. */
  lemma BlockChanged(image: seq<Byte>, bs: nat, fb: nat, blocks: seq<nat>, i: nat, a: nat, d: seq<Byte>)
    requires MapOk(image, bs, fb, blocks) && BlocksApart(bs, fb, blocks) && i < |blocks| && a + |d| <= fb
    ensures var image' := Splice(image, Pos(blocks[i], bs) + a, d);
            MapOk(image', bs, fb, blocks) && SameOutside(image, image', bs, fb, blocks) &&
            Pos(i, fb) + fb <= Pos(|blocks|, fb) &&
            Contents(image', bs, fb, blocks) == Splice(Contents(image, bs, fb, blocks), Pos(i, fb) + a, d)
  {
    ContentsSplice(image, bs, fb, blocks, i, a, d);
    var image' := Splice(image, Pos(blocks[i], bs) + a, d);
    forall k: nat | k < |image| && OutsideFile(bs, fb, blocks, k) ensures image'[k] == image[k] {
      assert !(Pos(blocks[i], bs) <= k < Pos(blocks[i], bs) + fb);
    }
  }

  /** The device when n bytes of data have been written to the file at pos. */
  ghost predicate Wrote(image0: seq<Byte>, image: seq<Byte>, bs: nat, fb: nat, blocks: seq<nat>, pos: nat,
      data: seq<Byte>, n: nat) {
    MapOk(image0, bs, fb, blocks) && MapOk(image, bs, fb, blocks) && SameOutside(image0, image, bs, fb, blocks) &&
    (n > 0 ==> pos + n <= Pos(|blocks|, fb) && n <= |data|) &&
    Contents(image, bs, fb, blocks) == Put(Contents(image0, bs, fb, blocks), pos, data, n)
  }

  lemma WroteNothing(image: seq<Byte>, bs: nat, fb: nat, blocks: seq<nat>, pos: nat, data: seq<Byte>)
    requires MapOk(image, bs, fb, blocks)
    ensures Wrote(image, image, bs, fb, blocks, pos, data, 0)
  {
  }

  lemma WroteMapped(image0: seq<Byte>, image: seq<Byte>, bs: nat, fb: nat, blocks: seq<nat>, pos: nat, data: seq<Byte>,
      n: nat)
    requires Wrote(image0, image, bs, fb, blocks, pos, data, n)
    ensures MapOk(image, bs, fb, blocks)
  {
  }

  lemma SameTwice(image0: seq<Byte>, image: seq<Byte>, image': seq<Byte>, bs: nat, fb: nat, blocks: seq<nat>)
    requires SameOutside(image0, image, bs, fb, blocks) && SameOutside(image, image', bs, fb, blocks)
    ensures SameOutside(image0, image', bs, fb, blocks)
  {
  }

  /** Bytes a to a + |d| of block i have been written with the next bytes of the data. */
  lemma WroteStep(image0: seq<Byte>, image: seq<Byte>, bs: nat, fb: nat, blocks: seq<nat>, pos: nat, data: seq<Byte>,
      n: nat, i: nat, a: nat, k: nat)
    requires Wrote(image0, image, bs, fb, blocks, pos, data, n) && BlocksApart(bs, fb, blocks) && i < |blocks|
    requires a + k <= fb && Pos(i, fb) + a == pos + n && n + k <= |data|
    ensures OnDevice(image, bs, fb, blocks[i]) && Pos(i, fb) + fb <= Pos(|blocks|, fb)
    ensures Wrote(image0, Splice(image, Pos(blocks[i], bs) + a, data[n..n + k]), bs, fb, blocks, pos, data, n + k)
  {
    var d := data[n..n + k];
    BlockChanged(image, bs, fb, blocks, i, a, d);
    PutNext(Contents(image0, bs, fb, blocks), pos, data, n, k);
    SameTwice(image0, image, Splice(image, Pos(blocks[i], bs) + a, d), bs, fb, blocks);
  }

  /** The numbers of one block's segment. */
  lemma SegmentNumbers(cur: nat, fb: nat, pos: nat, last: nat, n: nat, size: nat)
    requires fb > 0 && pos <= last <= pos + size && pos / fb <= cur <= last / fb &&
             pos + n == Reached(cur, fb, pos, last)
    ensures var a, e := SegStart(cur, fb, pos), SegEnd(cur, fb, last);
            a <= e <= fb && Pos(cur, fb) + a == pos + n && pos + (n + (e - a)) == Reached(cur + 1, fb, pos, last) &&
            n + (e - a) <= size
  {
    ReachedNext(cur, fb, pos, last);
    RangeBounds(cur, fb, pos, last);
  }

  /** One block of the range is written and the position moves on. */
  method WriteBlock(c: Cache, multi: bool, b: nat, cur: nat, fb: nat, ptr: array<Byte>, total: nat, s: Stream,
      pos: nat, last: nat, ghost image0: seq<Byte>, ghost blocks: seq<nat>) returns (total': nat)
    requires fb > 0 && c.Valid() && ptr != c.area && fb % c.parent.blockSize == 0 && cur < |blocks| && b == blocks[cur]
    requires BlocksApart(c.parent.blockSize, fb, blocks) && pos <= last <= pos + ptr.Length &&
             pos / fb <= cur <= last / fb
    requires s.pos == pos + total == Reached(cur, fb, pos, last)
    requires Wrote(image0, c.parent.image, c.parent.blockSize, fb, blocks, pos, ptr[..], total)
    modifies c.area, c.tags, c.parent, s
    ensures c.Valid() && Wrote(image0, c.parent.image, c.parent.blockSize, fb, blocks, pos, ptr[..], total')
    ensures old(s.pos) <= s.pos == pos + total' == Reached(cur + 1, fb, pos, last) <= Pos(|blocks|, fb)
    ensures s.len == if s.pos > old(s.len) then s.pos else old(s.len)
  {
    hide Pos, Splice, Coherent, Wrote, SegStart, SegEnd, Reached, BlocksApart;
    var a, e := SegStart(cur, fb, pos), SegEnd(cur, fb, last);
    SegmentNumbers(cur, fb, pos, last, total, ptr.Length);
    WroteStep(image0, c.parent.image, c.parent.blockSize, fb, blocks, pos, ptr[..], total, cur, a, e - a);
    assert ptr[..][total..total + (e - a)] == ptr[total..total + (e - a)];
    WriteSegment(c, multi, b, fb, a, e, ptr, total);
    total' := total + (e - a);
    s.pos := s.pos + (e - a);
    if s.pos > s.len { s.len := s.pos; }
  }

  /** The loop over the blocks of the range. */
  method WriteRange(c: Cache, multi: bool, m: BlockMap, fb: nat, ptr: array<Byte>, byteSize: nat, s: Stream)
      returns (total: nat)
    requires fb > 0 && ptr != c.area && byteSize <= ptr.Length && Writable(c, m, fb) && s.pos <= s.len
    modifies c.area, c.tags, c.parent, m, s
    ensures c.Valid() && total == Clip(old(s.pos), byteSize, Pos(|m.Blocks()|, fb)) && s.pos == old(s.pos) + total
    ensures s.len == (if s.pos > old(s.len) then s.pos else old(s.len))
    ensures Wrote(old(c.parent.image), c.parent.image, c.parent.blockSize, fb, m.Blocks(), old(s.pos), ptr[..], total)
  {
    hide Pos, Splice, Coherent, Wrote, IsChain, Contents;
    var pos, last := s.pos, s.pos + byteSize;
    var cur := pos / fb;
    total := 0;
    ghost var image, len, blocks := c.parent.image, s.len, m.Blocks();
    BlockOf(pos, last, fb);
    WroteNothing(image, c.parent.blockSize, fb, blocks, pos, ptr[..]);
    while cur <= last / fb
      invariant pos / fb <= cur <= last / fb + 1 && c.Valid() && m.Ready(c.parent.image)
      invariant Wrote(image, c.parent.image, c.parent.blockSize, fb, blocks, pos, ptr[..], total)
      invariant s.pos == pos + total == Reached(cur, fb, pos, last) && s.len == if s.pos > len then s.pos else len
      invariant cur > pos / fb ==> s.pos <= Pos(|blocks|, fb)
    {
      var b := m.Next(c, multi, cur);
      if b == EMPTY {
        WroteMapped(image, c.parent.image, c.parent.blockSize, fb, blocks, pos, ptr[..], total);
        EndOfMap(c, m, fb, cur);
        StopsAtEnd(cur, fb, pos, last, |blocks|);
        return;
      }
      total := WriteBlock(c, multi, b, cur, fb, ptr, total, s, pos, last, image, blocks);
      cur := cur + 1;
    }
    BlockOf(pos, last, fb);
  }

  /** Writing a byte range: exactly those bytes of the file are replaced, and nothing else on the device. */
  method FsWrite(c: Cache, multi: bool, m: BlockMap, fb: nat, ptr: array<Byte>, byteSize: nat, s: Stream)
      returns (total: nat)
    requires fb > 0 && ptr != c.area && byteSize <= ptr.Length && Writable(c, m, fb) && s.pos <= s.len
    modifies c.area, c.tags, c.parent, m, s
    ensures var pos := if s.appends then old(s.len) else old(s.pos);
            c.Valid() && total == Clip(pos, byteSize, Pos(|m.Blocks()|, fb)) && s.pos == pos + total &&
            s.len == (if s.pos > old(s.len) then s.pos else old(s.len)) &&
            Wrote(old(c.parent.image), c.parent.image, c.parent.blockSize, fb, m.Blocks(), pos, ptr[..], total)
  {
    if s.appends { s.pos := s.len; }
    total := WriteRange(c, multi, m, fb, ptr, byteSize, s);
  }

  // ----- the stream functions

  /** A FAT file: where its chain starts and what clusters it has. */
  ghost predicate FatFile(c: Cache, fat: Fat, first: nat, clusters: seq<nat>, fb: nat)
    reads c, c.parent, c.area, c.tags
  {
    c.Valid() && c.parent.blockSize == SECTOR && fb > 0 && IsChain(c.parent.image, fat, clusters) &&
    clusters[0] == first &&
    Real(Chained(fat, clusters)) && MapOk(c.parent.image, SECTOR, fb, Sectors(fat, clusters))
  }

  ghost function Sectors(fat: Fat, clusters: seq<nat>): (b: seq<nat>)
    requires Real(Chained(fat, clusters))
    ensures |b| == |clusters|
  {
    seq(|clusters|, i requires 0 <= i < |clusters| => Sector(fat, clusters[i]))
  }

  /** The text of a FAT file: its clusters one after the other. */
  ghost function FatText(image: seq<Byte>, fat: Fat, clusters: seq<nat>, fb: nat): seq<Byte>
    requires Real(Chained(fat, clusters)) && MapOk(image, SECTOR, fb, Sectors(fat, clusters))
  {
    Contents(image, SECTOR, fb, Sectors(fat, clusters))
  }

  /** The walk starts over from the file's first cluster in every call; a file without clusters is an error. */
  method FatFread(c: Cache, multi: bool, fat: Fat, first: nat, fb: nat, ptr: array<Byte>, byteSize: nat, s: Stream,
      ghost clusters: seq<nat>) returns (n: nat)
    requires c.Valid() && fb > 0 && ptr != c.area && byteSize <= ptr.Length
    requires first != 0 ==> FatFile(c, fat, first, clusters, fb)
    modifies c.area, c.tags, ptr, s`pos
    ensures c.Valid()
    ensures first == 0 ==> n == 0xFFFF_FFFF && s.pos == old(s.pos) && ptr[..] == old(ptr[..])
    ensures first != 0 ==>
              var text := FatText(c.parent.image, fat, clusters, fb);
              n == Clip(old(s.pos), byteSize, |text|) && s.pos == old(s.pos) + n &&
              ptr[..] == Filled(old(ptr[..]), text, old(s.pos), n)
  {
    if first == 0 { return 0xFFFF_FFFF; }
    var m := new BlockMap(Chained(fat, clusters), first);
    assert m.Blocks() == Sectors(fat, clusters);
    n := FsRead(c, multi, m, fb, ptr, byteSize, s);
  }

  /** How many whole items of a size there is room for. */
  function Fits(size: nat, room: nat): nat
    requires size > 0
  {
    room / size
  }

  /** Reading items: as many whole ones as are asked for and the file still has. */
  method Fread(c: Cache, multi: bool, fat: Fat, first: nat, fb: nat, ptr: array<Byte>, size: nat, nmemb: nat, s: Stream,
      ghost clusters: seq<nat>) returns (items: nat)
    requires c.Valid() && fb > 0 && ptr != c.area && size > 0 && size * nmemb <= ptr.Length && s.pos <= s.len
    requires first != 0 ==>
               FatFile(c, fat, first, clusters, fb) &&
               s.len <= |FatText(c.parent.image, fat, clusters, fb)|
    modifies c.area, c.tags, ptr, s`pos
    ensures c.Valid()
    ensures first == 0 ==> items == Fits(size, 0xFFFF_FFFF) && s.pos == old(s.pos)
    ensures first != 0 ==>
              items == Min(nmemb, Fits(size, s.len - old(s.pos))) && s.pos == old(s.pos) + Pos(items, size) <= s.len &&
              Pos(items, size) <= ptr.Length &&
              ptr[..] == Filled(old(ptr[..]), FatText(c.parent.image, fat, clusters, fb), old(s.pos), Pos(items, size))
  {
    var whole, want := ItemsToRead(size, nmemb, s.len - s.pos);
    var bytes := FatFread(c, multi, fat, first, fb, ptr, want, s, clusters);
    items := bytes / size;
  }

  datatype Whence = Set | Cur | End | Other

  /** Where a seek goes: from the end it counts backwards, and it never leaves the file. */
  function SeekTo(pos: nat, len: nat, offset: int, whence: Whence): (p: nat)
    ensures whence != Other ==> p <= len
  {
    var t := match whence case Set => offset case Cur => pos + offset case End => len - offset case Other => pos;
    if whence == Other then pos else if t < 0 then 0 else if t > len then len else t
  }

  method Fseek(s: Stream, offset: int, whence: Whence) returns (r: int)
    modifies s`pos
    ensures s.pos == SeekTo(old(s.pos), s.len, offset, whence) && r == if whence == Other then -1 else 0
  {
    var pos: int := s.pos;
    match whence {
      case Set => pos := offset;
      case End => pos := s.len - offset;
      case Cur => pos := pos + offset;
      case Other => return -1;
    }
    if pos < 0 { pos := 0; }
    if pos > s.len { pos := s.len; }
    s.pos := pos;
    r := 0;
  }

  // ----- whole runs over a FAT file

  datatype Call = ReadItems(size: nat, nmemb: nat) | Seek(offset: int, whence: Whence)

  /** What a stream over a text should do: the new position, and the bytes read. */
  function TextStep(text: seq<Byte>, len: nat, pos: nat, call: Call): (r: (nat, seq<Byte>))
    requires pos <= len <= |text| && (call.ReadItems? ==> call.size > 0)
    ensures r.0 <= len
  {
    match call
    case ReadItems(size, nmemb) =>
      var items := Min(nmemb, Fits(size, len - pos));
      ItemsFit(size, nmemb, len - pos);
      (pos + Pos(items, size), text[pos..pos + Pos(items, size)])
    case Seek(offset, whence) => (SeekTo(pos, len, offset, whence), [])
  }

  lemma ItemsFit(size: nat, nmemb: nat, room: nat)
    requires size > 0
    ensures var items := Min(nmemb, Fits(size, room)); Pos(items, size) <= room && Pos(items, size) <= size * nmemb
  {
    WholeItems(size, nmemb, room);
  }

  function TextRun(text: seq<Byte>, len: nat, calls: seq<Call>): (r: (nat, seq<seq<Byte>>))
    requires len <= |text| && forall i | 0 <= i < |calls| :: calls[i].ReadItems? ==> calls[i].size > 0
    ensures r.0 <= len
  {
    if calls == [] then (0, [])
    else
      var (pos, got) := TextRun(text, len, calls[..|calls| - 1]);
      var (pos', bytes) := TextStep(text, len, pos, calls[|calls| - 1]);
      (pos', got + [bytes])
  }

  method Do(c: Cache, multi: bool, fat: Fat, first: nat, fb: nat, s: Stream, call: Call, ghost clusters: seq<nat>)
      returns (bytes: seq<Byte>)
    requires FatFile(c, fat, first, clusters, fb) && first != 0 &&
             s.pos <= s.len <= |FatText(c.parent.image, fat, clusters, fb)|
    requires call.ReadItems? ==> call.size > 0
    modifies c.area, c.tags, s`pos
    ensures c.Valid() && (s.pos, bytes) == TextStep(FatText(c.parent.image, fat, clusters, fb), s.len, old(s.pos), call)
  {
    hide Pos, Coherent, Splice, Contents, IsChain, BareRead;
    match call
    case ReadItems(size, nmemb) =>
      var buf := new Byte[size * nmemb](_ => 0);
      ghost var zeros, text, pos := buf[..], FatText(c.parent.image, fat, clusters, fb), s.pos;
      ItemsFit(size, nmemb, s.len - s.pos);
      var items := Fread(c, multi, fat, first, fb, buf, size, nmemb, s, clusters);
      FilledFront(zeros, text, pos, Pos(items, size));
      PosIs(items, size);
      bytes := buf[..items * size];
    case Seek(offset, whence) =>
      var _ := Fseek(s, offset, whence);
      bytes := [];
  }

  lemma FilledFront(was: seq<Byte>, file: seq<Byte>, pos: nat, n: nat)
    requires pos + n <= |file| && n <= |was|
    ensures Filled(was, file, pos, n)[..n] == file[pos..pos + n]
  {
  }

  /** Any run of reads and seeks over a FAT file yields the matching slices of its concatenated clusters. */
  method RunFatFile(c: Cache, multi: bool, fat: Fat, first: nat, fb: nat, len: nat, calls: seq<Call>,
      ghost clusters: seq<nat>)
      returns (got: seq<seq<Byte>>)
    requires FatFile(c, fat, first, clusters, fb) && first != 0 && len <= |FatText(c.parent.image, fat, clusters, fb)|
    requires forall i | 0 <= i < |calls| :: calls[i].ReadItems? ==> calls[i].size > 0
    modifies c.area, c.tags
    ensures got == TextRun(FatText(c.parent.image, fat, clusters, fb), len, calls).1
  {
    var s := new Stream(len, false);
    got := [];
    ghost var text := FatText(c.parent.image, fat, clusters, fb);
    var i := 0;
    while i < |calls|
      invariant i <= |calls| && c.Valid() && s.len == len && fresh(s) && (s.pos, got) == TextRun(text, len, calls[..i])
    {
      assert calls[..i + 1][..i] == calls[..i];
      var bytes := Do(c, multi, fat, first, fb, s, calls[i], clusters);
      got := got + [bytes];
      i := i + 1;
    }
    assert calls[..i] == calls;
  }

  /** The request clipped to what the file still has and rounded down to whole items. */
  method ItemsToRead(size: nat, nmemb: nat, room: nat) returns (whole: nat, want: nat)
    requires size > 0
    ensures whole == Min(nmemb, Fits(size, room)) && want == Pos(whole, size) <= room && want <= size * nmemb &&
            want / size == whole
  {
    var bytes := size * nmemb;
    if bytes > room { bytes := room; }
    whole := bytes / size;
    WholeItems(size, nmemb, room);
    Exactly(whole, size);
    want := whole * size;
  }

  lemma WholeItems(size: nat, nmemb: nat, room: nat)
    requires size > 0
    ensures var whole := Min(size * nmemb, room) / size;
            whole == Min(nmemb, room / size) && Pos(whole, size) <= room && Pos(whole, size) <= size * nmemb
  {
    Exactly(nmemb, size);
    Quotient(room, size, room / size);
    assert size * nmemb == Pos(nmemb, size);
    if room < size * nmemb {
      if nmemb < room / size { PosStep(nmemb, room / size, size); }
    } else if room / size < nmemb {
      PosStep(room / size, nmemb, size);
    }
  }

  lemma Exactly(n: nat, size: nat)
    requires size > 0
    ensures Pos(n, size) / size == n
  {
    var q := Pos(n, size) / size;
    Quotient(Pos(n, size), size, q);
    if q < n { PosStep(q, n, size); } else if n < q { PosStep(n, q, size); }
  }
}
