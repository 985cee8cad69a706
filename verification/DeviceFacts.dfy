/** Devices and files byte by byte (rboot block.c, libfs.c and vfs.c). */
module DeviceFacts {
  import opened Bits
  import opened BlockCache
  import opened FileBytes
  import opened FileAccess

  /** Reading from block start on gives the bytes from bs * start on, as many as are asked for and there are. */
  lemma ReadsDevice(image: seq<Byte>, bs: nat, size: nat, start: nat)
    ensures var r, at := BareRead(image, bs, size, start), bs * start;
            |r| <= size && at + |r| <= Max(at, |image|) && (|r| < size ==> at + |r| >= |image|) &&
            forall k | 0 <= k < |r| :: r[k] == image[at + k]
  {
    PosIs(start, bs);
  }

  function Max(a: nat, b: nat): nat { if a >= b then a else b }

  /** Writing data to block start changes the bytes from bs * start on, and no others. */
  lemma WritesDevice(image: seq<Byte>, bs: nat, data: seq<Byte>, start: nat, k: nat)
    requires k < |image|
    ensures var at := bs * start;
            BareWrite(image, bs, data, start)[k] == if at <= k < at + |data| then data[k - at] else image[k]
  {
    PosIs(start, bs);
  }

  /** Byte k of a file's block i is byte k of the device's block that the file has there. */
  lemma FileByte(image: seq<Byte>, bs: nat, fb: nat, blocks: seq<nat>, i: nat, k: nat)
    requires forall j: nat | j < |blocks| :: Pos(blocks[j], bs) + fb <= |image|
    requires i < |blocks| && k < fb
    ensures |Contents(image, bs, fb, blocks)| == fb * |blocks|
    ensures fb * i + k < |Contents(image, bs, fb, blocks)| && bs * blocks[i] + k < |image|
    ensures Contents(image, bs, fb, blocks)[fb * i + k] == image[bs * blocks[i] + k]
  {
    hide Contents, Pos;
    PosIs(|blocks|, fb);
    PosIs(i, fb);
    PosIs(blocks[i], bs);
    ContentsAt(image, bs, fb, blocks, i, k, k + 1);
    var f, p, q := Contents(image, bs, fb, blocks), fb * i + k, bs * blocks[i] + k;
    assert f[p..p + 1][0] == image[q..q + 1][0];
  }

  /** The most that fits: what is read of n bytes from pos on does not go beyond the end, and more would. */
  lemma ClipIs(pos: nat, n: nat, len: nat)
    requires pos <= len
    ensures var m := Clip(pos, n, len); m <= n && pos + m <= len && (m < n ==> pos + m == len)
  {
  }

  lemma BeyondTheEnd(pos: nat, n: nat, len: nat)
    requires pos > len
    ensures Clip(pos, n, len) == 0
  {
  }
}
