/**
 * What the entries of a file allocation table say: little-endian numbers, and the sectors of clusters (rboot fat.c).
 */
module FatEntries {
  import opened Bits
  import opened BlockCache
  import opened BlockIo
  import opened FatChain
  import opened LittleEndian

  // ----- entries

  /** A sixteen-bit entry is the number whose low byte comes first; end marks are extended to the longer ones. */
  lemma Entry16(image: seq<Byte>, fat: Fat, cluster: nat)
    requires fat.fat16 && EntryOnDevice(image, fat, cluster)
    ensures var at := 512 * fat.firstFatSector + 2 * cluster;
            at + 2 <= |image| &&
            var n := ValueOf(BytesBits(image[at..at + 2]));
            NextCluster(image, fat, cluster) == (if n < 0xFFF7 then n else 0x0FFF_0000 + n) &&
            (NextCluster(image, fat, cluster) >= CHAIN_END <==> n >= 0xFFF8)
  {
    hide Num16, Num32, BytesBits, ValueOf, EntryOnDevice;
    EntryInSector(image, fat, cluster);
    var at := 512 * fat.firstFatSector + 2 * cluster;
    Value16(image[at..at + 2]);
  }

  lemma Value16(b: seq<Byte>)
    requires |b| == 2
    ensures ValueOf(BytesBits(b)) == Num16(b)
  {
    BitsOfNumber(b);
    TwoIs(b);
  }

  /** A 32-bit entry is the number in the low 28 bits, low byte first; the other four do not matter. */
  lemma Entry32(image: seq<Byte>, fat: Fat, cluster: nat)
    requires !fat.fat16 && EntryOnDevice(image, fat, cluster)
    ensures var at := 512 * fat.firstFatSector + 4 * cluster;
            at + 4 <= |image| &&
            var n := ValueOf(BytesBits(image[at..at + 4])[..28]);
            NextCluster(image, fat, cluster) == n &&
            (NextCluster(image, fat, cluster) >= CHAIN_END <==> n >= 0x0FFF_FFF8)
  {
    hide Num32, BytesBits, ValueOf, EntryOnDevice, NextCluster;
    LongEntry(image, fat, cluster);
    var at := 512 * fat.firstFatSector + 4 * cluster;
    Value28(image[at..at + 4]);
  }

  lemma LongEntry(image: seq<Byte>, fat: Fat, cluster: nat)
    requires !fat.fat16 && EntryOnDevice(image, fat, cluster)
    ensures var at := 512 * fat.firstFatSector + 4 * cluster;
            at + 4 <= |image| && NextCluster(image, fat, cluster) == Num32(image[at..at + 4]) % 0x1000_0000
  {
    hide Num16, Num32, EntryOnDevice;
    EntryInSector(image, fat, cluster);
  }

  lemma Value28(b: seq<Byte>)
    requires |b| == 4
    ensures ValueOf(BytesBits(b)[..28]) == Num32(b) % 0x1000_0000
  {
    hide BytesBits, BitsOf, ValueOf, Pow2;
    BitsOfNumber(b);
    NumberIs(b);
    LowBits(BytesBits(b), 28);
    TwentyEight();
  }

  lemma NumberIs(b: seq<Byte>)
    requires |b| == 4
    ensures Number(b) == Num32(b)
  {
    var d := b[2..];
    assert d[0] == b[2] && d[1] == b[3];
    FourIs(b);
  }

  lemma TwentyEight()
    ensures Pow2(28) == 0x1000_0000
  {
    assert Pow2(8) == 256;
    assert Pow2(12) == 4096;
    assert Pow2(16) == 0x1_0000;
    assert Pow2(20) == 16 * Pow2(16) && Pow2(24) == 16 * Pow2(20) && Pow2(28) == 16 * Pow2(24);
  }

  /** A number stored with its low byte first is read back, whatever the four bits above it are. */
  lemma EntryReadBack(image: seq<Byte>, fat: Fat, cluster: nat, n: nat, top: nat)
    requires EntryOnDevice(image, fat, cluster) && top < 16 && n < if fat.fat16 then 0xFFF7 else 0x1000_0000
    requires var at := 512 * fat.firstFatSector + EntrySize(fat) * cluster;
             at + EntrySize(fat) <= |image| && image[at] == n % 256 &&
             if fat.fat16 then image[at + 1] == n / 256
             else image[at + 1] == n / 256 % 256 && image[at + 2] == n / 0x1_0000 % 256 &&
                  image[at + 3] == n / 0x100_0000 + 16 * top
    ensures NextCluster(image, fat, cluster) == n
  {
    hide EntryOnDevice;
    var at := 512 * fat.firstFatSector + EntrySize(fat) * cluster;
    var b := image[at..at + EntrySize(fat)];
    if !fat.fat16 {
      var x, y := n / 256, n / 0x1_0000;
      assert x / 256 == y && y / 256 == n / 0x100_0000;
      assert b[2..][0] == b[2] && b[2..][1] == b[3];
      assert Num32(b) == n + 0x1000_0000 * top;
    }
  }

  // ----- clusters

  /** The clusters lie one behind the other from the data area's first sector on, which is cluster 2's. */
  lemma ClusterSectors(fat: Fat, cluster: nat)
    requires cluster >= 2
    ensures Sector(fat, 2) == fat.firstDataSector
    ensures Sector(fat, cluster + 1) == Sector(fat, cluster) + fat.sectorsPerCluster
  {
    var c := cluster - 2;
    assert (c + 1) * fat.sectorsPerCluster == c * fat.sectorsPerCluster + fat.sectorsPerCluster;
  }
}
