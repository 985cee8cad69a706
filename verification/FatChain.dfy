/** Finding a file's blocks: an index, or the FAT's cluster chain (rboot fat.c). */
module FatChain {
  import opened Bits
  import opened BlockCache
  import opened BlockIo

  const SECTOR: nat := 512
  /** Cluster numbers from here on end a chain. */
  const CHAIN_END: nat := 0x0FFF_FFF8

  datatype Fat = Fat(fat16: bool, firstFatSector: nat, firstDataSector: nat, sectorsPerCluster: nat)

  function EntrySize(fat: Fat): nat { if fat.fat16 then 2 else 4 }

  /** The entry of a cluster is in a sector of the device. */
  predicate EntryOnDevice(image: seq<Byte>, fat: Fat, cluster: nat) {
    OnDevice(image, SECTOR, SECTOR, fat.firstFatSector + cluster * EntrySize(fat) / SECTOR)
  }

  function Num16(b: seq<Byte>): nat
    requires |b| >= 2
  {
    var x: nat, y: nat := b[0], b[1];
    x + 256 * y
  }

  function Num32(b: seq<Byte>): nat
    requires |b| >= 4
  {
    Num16(b) + 0x1_0000 * Num16(b[2..])
  }

  /** The next cluster as the table on the device has it. */
  function NextCluster(image: seq<Byte>, fat: Fat, cluster: nat): nat
    requires EntryOnDevice(image, fat, cluster)
  {
    var at := fat.firstFatSector * SECTOR + cluster * EntrySize(fat);
    EntryInSector(image, fat, cluster);
    if fat.fat16 then
      var n := Num16(image[at..at + 2]);
      if n >= 0xFFF7 then n + 0x0FFF_0000 else n
    else Num32(image[at..at + 4]) % 0x1000_0000
  }

  lemma EntryInSector(image: seq<Byte>, fat: Fat, cluster: nat)
    requires EntryOnDevice(image, fat, cluster)
    ensures var off := cluster * EntrySize(fat);
            var at := fat.firstFatSector * SECTOR + off;
            at == Pos(fat.firstFatSector + off / SECTOR, SECTOR) + off % SECTOR &&
            off % SECTOR + EntrySize(fat) <= SECTOR && at + EntrySize(fat) <= |image|
  {
    if fat.fat16 { InSector2(cluster, cluster * 2); } else { InSector4(cluster, cluster * 4); }
    SectorParts(fat.firstFatSector, cluster * EntrySize(fat));
  }

  lemma InSector2(c: nat, off: nat)
    requires off == 2 * c
    ensures off % 512 <= 510
  {
    var q, r := c / 256, c % 256;
    assert off == 512 * q + 2 * r;
  }

  lemma InSector4(c: nat, off: nat)
    requires off == 4 * c
    ensures off % 512 <= 508
  {
    var q, r := c / 128, c % 128;
    assert off == 512 * q + 4 * r;
  }

  lemma SectorParts(first: nat, off: nat)
    ensures first * SECTOR + off == Pos(first + off / SECTOR, SECTOR) + off % SECTOR
  {
    assert off == SECTOR * (off / SECTOR) + off % SECTOR;
  }

  /** Reads the table sector and takes the entry from it. */
  method GetNextFatEntry(c: Cache, multi: bool, fat: Fat, cluster: nat) returns (next: nat)
    requires c.Valid() && c.parent.blockSize == SECTOR && EntryOnDevice(c.parent.image, fat, cluster)
    modifies c.area, c.tags
    ensures c.Valid() && next == NextCluster(c.parent.image, fat, cluster)
  {
    var off := cluster * EntrySize(fat);
    var sector, index := fat.firstFatSector + off / SECTOR, off % SECTOR;
    EntryInSector(c.parent.image, fat, cluster);
    var buf := new Byte[SECTOR](_ => 0);
    ghost var zeros := buf[..];
    var _ := BlockRead(c, multi, buf, 0, SECTOR, sector);
    EntryRead(c.parent.image, zeros, buf[..], Pos(sector, SECTOR), index, EntrySize(fat));
    if fat.fat16 {
      assert buf[index..index + 2] == buf[..][index..index + 2];
      next := Num16(buf[index..index + 2]);
      if next >= 0xFFF7 { next := next + 0x0FFF_0000; }
    } else {
      assert buf[index..index + 4] == buf[..][index..index + 4];
      next := Num32(buf[index..index + 4]) % 0x1000_0000;
    }
  }

  lemma EntryRead(image: seq<Byte>, was: seq<Byte>, buf: seq<Byte>, p: nat, index: nat, n: nat)
    requires |was| == SECTOR && p + SECTOR <= |image| && buf == Splice(was, 0, image[p..][..SECTOR]) &&
             index + n <= SECTOR
    ensures |buf| == SECTOR && buf[index..index + n] == image[p + index..p + index + n]
  {
    assert buf == image[p..][..SECTOR];
  }

  function Sector(fat: Fat, cluster: nat): nat
    requires cluster >= 2
  {
    fat.firstDataSector + (cluster - 2) * fat.sectorsPerCluster
  }

  /** The clusters of a file: each entry names the next one, and the last one's ends the chain. */
  ghost predicate IsChain(image: seq<Byte>, fat: Fat, clusters: seq<nat>) {
    |clusters| > 0 && forall i: nat | i < |clusters| :: ChainAt(image, fat, clusters, i)
  }

  ghost predicate ChainAt(image: seq<Byte>, fat: Fat, clusters: seq<nat>, i: nat)
    requires i < |clusters|
  {
    2 <= clusters[i] < CHAIN_END && EntryOnDevice(image, fat, clusters[i]) &&
    if i + 1 < |clusters| then NextCluster(image, fat, clusters[i]) == clusters[i + 1]
    else NextCluster(image, fat, clusters[i]) >= CHAIN_END
  }

  /** How a file system finds block i of a file. */
  datatype Kind = Indexed(blocks: seq<nat>) | Chained(fat: Fat, ghost clusters: seq<nat>)

  class BlockMap {
    const kind: Kind
    var fBlock: nat
    var cluster: nat
    var eof: bool

    constructor (kind: Kind, first: nat)
      ensures this.kind == kind && fBlock == 0 && cluster == first
    {
      this.kind, fBlock, cluster, eof := kind, 0, first, false;
    }

    /** The file's blocks. */
    ghost function Blocks(): (b: seq<nat>)
      requires kind.Chained? ==> forall i | 0 <= i < |kind.clusters| :: kind.clusters[i] >= 2
    {
      match kind
      case Indexed(blocks) => blocks
      case Chained(fat, clusters) =>
        seq(|clusters|, i requires 0 <= i < |clusters| => Sector(fat, clusters[i]))
    }

    /** The walk along the chain has come to block fBlock, or to the end. */
    ghost predicate Ready(image: seq<Byte>)
      reads this
    {
      match kind
      case Indexed(_) => true
      case Chained(fat, clusters) =>
        IsChain(image, fat, clusters) && fBlock <= |clusters| &&
        (if fBlock < |clusters| then cluster == clusters[fBlock] else cluster >= CHAIN_END)
    }

    lemma ClustersReal(image: seq<Byte>)
      requires Ready(image)
      ensures kind.Chained? ==> forall i | 0 <= i < |kind.clusters| :: kind.clusters[i] >= 2
    {
      if kind.Chained? {
        forall i: nat | i < |kind.clusters| ensures kind.clusters[i] >= 2 {
          assert ChainAt(image, kind.fat, kind.clusters, i);
        }
      }
    }

    /** The device block of file block idx; EMPTY when the file has no such block. */
    method Next(c: Cache, multi: bool, idx: nat) returns (b: nat)
      requires c.Valid() && Ready(c.parent.image)
      requires kind.Chained? ==> c.parent.blockSize == SECTOR && fBlock <= idx
      modifies this, c.area, c.tags
      ensures c.Valid() && Ready(c.parent.image) && (kind.Chained? ==> fBlock <= idx)
      ensures kind.Chained? ==> forall i | 0 <= i < |kind.clusters| :: kind.clusters[i] >= 2
      ensures b == if idx < |Blocks()| then Blocks()[idx] else EMPTY
      ensures kind.Chained? && idx >= |Blocks()| ==> eof
    {
      ClustersReal(c.parent.image);
      match kind {
        case Indexed(blocks) =>
          b := if idx < |blocks| then blocks[idx] else EMPTY;
        case Chained(fat, clusters) =>
          while fBlock != idx && cluster < CHAIN_END
            invariant c.Valid() && Ready(c.parent.image) && fBlock <= idx
            decreases idx - fBlock
          {
            Walk(c, multi);
          }
          b := Here(fat, c.parent.image, idx);
      }
    }

    /** One link of the chain. */
    method Walk(c: Cache, multi: bool)
      requires c.Valid() && Ready(c.parent.image) && kind.Chained? && c.parent.blockSize == SECTOR &&
               cluster < CHAIN_END
      modifies `cluster, `fBlock, c.area, c.tags
      ensures c.Valid() && Ready(c.parent.image) && fBlock == old(fBlock) + 1
    {
      ghost var clusters := kind.clusters;
      assert ChainAt(c.parent.image, kind.fat, clusters, fBlock);
      cluster := GetNextFatEntry(c, multi, kind.fat, cluster);
      fBlock := fBlock + 1;
      if fBlock < |clusters| { assert ChainAt(c.parent.image, kind.fat, clusters, fBlock); }
    }

    /** The walk is over: at the block looked for, or at the end of the chain. */
    method Here(fat: Fat, ghost image: seq<Byte>, ghost idx: nat) returns (b: nat)
      requires Ready(image) && kind.Chained? && fat == kind.fat && fBlock <= idx &&
               (fBlock == idx || cluster >= CHAIN_END)
      requires forall i | 0 <= i < |kind.clusters| :: kind.clusters[i] >= 2
      modifies `eof
      ensures b == if idx < |Blocks()| then Blocks()[idx] else EMPTY
      ensures idx >= |Blocks()| ==> eof
    {
      hide Sector;
      if fBlock < |kind.clusters| { assert ChainAt(image, fat, kind.clusters, fBlock); }
      if cluster < CHAIN_END {
        b := Sector(fat, cluster);
      } else {
        eof := true;
        b := EMPTY;
      }
    }
  }
}
