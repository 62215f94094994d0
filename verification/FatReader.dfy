/** A FAT32 reader that knows nothing of the table: it follows the partition table, the boot sector, the FAT and the
    directory records of the sectors it is given. What it finds on the virtual disk is the table's tree. */
module FatReader {
  import opened Bytes
  import opened FatTree
  import opened EmfatSpec
  import Emfat

  // ---- The reader ----

  /** The boot sector fields a reader needs. */
  datatype Bpb = Bpb(start: nat, reserved: nat, fats: nat, fatSize: nat, perCluster: nat, rootCluster: nat, total: nat)
  {
    function FirstDataSector(): nat {
      start + reserved + fats * fatSize
    }

    function SectorOf(clust: nat, rel: nat): nat
      requires clust >= 2
    {
      FirstDataSector() + (clust - 2) * perCluster + rel
    }

    function Clusters(): nat
    {
      if perCluster == 0 || total < reserved + fats * fatSize then 0
      else (total - (reserved + fats * fatSize)) / perCluster
    }
  }

  /** The volume in the first partition. */
  function Mount(disk: Disk): Bpb {
    var start := U32(disk(0), 454);
    var boot := disk(start);
    Bpb(start, U16(boot, 14), boot[16], U32(boot, 36), boot[13], U32(boot, 44), U32(boot, 32))
  }

  /** The 28 bits of the FAT that belong to a cluster. */
  function FatEntry(disk: Disk, b: Bpb, clust: nat): nat {
    U32(disk(b.start + b.reserved + clust / 128), clust % 128 * 4) % 0x1000_0000
  }

  function FatOf(disk: Disk, b: Bpb): nat -> nat {
    clust => FatEntry(disk, b, clust)
  }

  predicate EndOfChain(value: nat) {
    value >= 0x0FFF_FFF8 || value < 2
  }

  /** The clusters from `clust` to the end of its chain, giving up after `limit` of them. */
  function Chain(fat: nat -> nat, clust: nat, limit: nat): (r: seq<nat>)
    ensures forall i | 0 <= i < |r| :: r[i] >= 2
    decreases limit
  {
    if limit == 0 || EndOfChain(clust) then [] else [clust] + Chain(fat, fat(clust), limit - 1)
  }

  // ---- What it finds: the boot sector ----

  /** A volume within the limits of FAT32, none of whose numbers leaves the range of its 32-bit word. */
  ghost predicate Readable(v: Volume) {
    && v.Laid() && v.LinksForward() && v.numClust + 2 <= 0x0FFF_FFF7 && v.DiskSectors() < 0x8000_0000
    && forall i | 0 <= i < |v.rows| :: NoWrap(v, i)
  }

  /** Rounding a size up to clusters and adding a sector's place to the offset stay below 2^32. */
  predicate NoWrap(v: Volume, i: nat)
    requires i < |v.rows|
  {
    var e := v.rows[i];
    if e.dir then 32 * e.priv.numSubentry <= 0xFFFF_F000
    else e.currSize <= e.maxSize <= 0xFFFF_F000 && e.offset + 4096 * Used(e) <= TWO_32
  }

  function BpbOf(v: Volume): Bpb {
    Bpb(BOOT_LBA, 2, 2, v.sectPerFat, 8, 2, v.DiskSectors() - BOOT_LBA)
  }

  lemma MbrFields(diskSectors: nat)
    requires BOOT_LBA < diskSectors < TWO_32
    ensures U32(MbrSector(diskSectors), 454) == BOOT_LBA
  {
    var p := MbrParts(diskSectors);
    MbrJoined(diskSectors);
    SliceOfEight(p, 3, 454);
    U32OfLe32(MbrSector(diskSectors), 454, BOOT_LBA);
  }

  /** Piece `k` of eight is found at its offset. */
  lemma SliceOfEight(p: seq<seq<byte>>, k: nat, at: nat)
    requires |p| == 8 && k < 8
    requires at == (if k > 0 then |p[0]| else 0) + (if k > 1 then |p[1]| else 0) + (if k > 2 then |p[2]| else 0)
      + (if k > 3 then |p[3]| else 0) + (if k > 4 then |p[4]| else 0) + (if k > 5 then |p[5]| else 0)
      + (if k > 6 then |p[6]| else 0)
    ensures at + |p[k]| <= |JoinAll(p)| && JoinAll(p)[at..at + |p[k]|] == p[k]
  {
    assert Offset(p, 1) == |p[0]|;
    assert Offset(p, 3) == Offset(p, 1) + |p[1]| + |p[2]|;
    assert Offset(p, 5) == Offset(p, 3) + |p[3]| + |p[4]|;
    assert Offset(p, 7) == Offset(p, 5) + |p[5]| + |p[6]|;
    PieceAt(p, k);
  }

  lemma BootFields(diskSectors: nat, sectPerFat: nat)
    requires BOOT_LBA < diskSectors < TWO_32 && sectPerFat < TWO_32
    ensures var s := BootSector(diskSectors, sectPerFat);
      && U16(s, 11) == SECT && s[13] == 8 && U16(s, 14) == 2 && s[16] == 2
      && U32(s, 32) == diskSectors - BOOT_LBA && U32(s, 36) == sectPerFat && U32(s, 44) == 2
  {
    BootStart(diskSectors, sectPerFat);
    BootMiddle(diskSectors, sectPerFat);
    var s := BootSector(diskSectors, sectPerFat);
    U16OfLe16(s, 11, SECT);
    U16OfLe16(s, 14, 2);
    U32OfLe32(s, 32, diskSectors - BOOT_LBA);
    U32OfLe32(s, 36, sectPerFat);
    U32OfLe32(s, 44, 2);
  }

  lemma BootStart(diskSectors: nat, sectPerFat: nat)
    requires BOOT_LBA < diskSectors
    ensures var s := BootSector(diskSectors, sectPerFat);
      s[11..13] == Le16(SECT) && s[13] == 8 && s[14..16] == Le16(2) && s[16] == 2
  {
    var s, p := BootSector(diskSectors, sectPerFat), BootParts(diskSectors, sectPerFat);
    SliceOfEight(p, 1, 11);
    assert p[1] == Le16(SECT) + [8] + Le16(2) + [2];
    SubSlice(s, 11, 6, 0, 2);
    SubSlice(s, 11, 6, 3, 5);
    assert s[13] == p[1][2] && s[16] == p[1][5];
  }

  lemma SubSlice(s: seq<byte>, at: nat, n: nat, from: nat, to: nat)
    requires at + n <= |s| && from <= to <= n
    ensures s[at + from..at + to] == s[at..at + n][from..to]
  {
    var whole := s[at..at + n];
    forall k | 0 <= k < to - from ensures s[at + from..at + to][k] == whole[from..to][k] {
      assert whole[from..to][k] == whole[from + k] == s[at + from + k];
    }
  }

  lemma BootMiddle(diskSectors: nat, sectPerFat: nat)
    requires BOOT_LBA < diskSectors
    ensures var s := BootSector(diskSectors, sectPerFat);
      && s[32..36] == LeBytes(diskSectors - BOOT_LBA, 4) && s[36..40] == LeBytes(sectPerFat, 4)
      && s[44..48] == LeBytes(2, 4)
  {
    var p := BootParts(diskSectors, sectPerFat);
    SliceOfEight(p, 3, 32);
    SliceOfEight(p, 4, 36);
    SliceOfEight(p, 6, 44);
  }

  lemma SmallEnough(v: Volume)
    requires Readable(v)
    ensures v.DiskSectors() < TWO_32 && v.sectPerFat < TWO_32
  {
  }

  lemma MountIs(v: Volume)
    requires Readable(v)
    ensures Mount(DiskOf(v)) == BpbOf(v)
  {
    SmallEnough(v);
    MbrFields(v.DiskSectors());
    BootFields(v.DiskSectors(), v.sectPerFat);
  }

  // ---- The FAT ----

  lemma FatWordAt(v: Volume, first: nat, n: nat, k: nat)
    requires k < n
    ensures v.FatWords(first, n)[4 * k..4 * k + 4] == LeBytes(v.FatValue(first + k), 4)
  {
    WordAt((clust: nat) => v.FatValue(clust), first, n, k);
  }

  lemma FatValueSmall(v: Volume, clust: nat)
    requires Readable(v)
    ensures v.FatValue(clust) < TWO_32
  {
    if clust >= 2 {
      match v.Owner(clust)
      case None =>
      case Some(i) => Emfat.RangesPartitionDisk(v, clust);
    }
  }

  lemma ReadFatSectorWord(v: Volume, index: nat, k: nat, clust: nat)
    requires Readable(v) && k < 128 && index * 128 + k == clust
    ensures U32(v.FatSector(index), 4 * k) == v.FatValue(clust)
  {
    FatWordAt(v, index * 128, 128, k);
    FatValueSmall(v, clust);
    WordRead(v.FatSector(index), k, v.FatValue(clust));
  }

  lemma WordRead(s: seq<byte>, k: nat, value: nat)
    requires 4 * k + 4 <= |s| && value < TWO_32 && s[4 * k..4 * k + 4] == LeBytes(value, 4)
    ensures U32(s, 4 * k) == value
  {
    U32OfLe32(s, 4 * k, value);
  }

  lemma FatSectorAt(v: Volume, n: nat)
    requires n <= v.sectPerFat && v.sectPerFat > 0
    ensures DiskOf(v)(FAT1_LBA + n) == v.FatSector(if n < v.sectPerFat then n else 0)
  {
  }

  lemma EntryIn(disk: Disk, b: Bpb, clust: nat, index: nat, k: nat, sector: Sector, value: nat)
    requires b.start + b.reserved == FAT1_LBA && clust / 128 == index && clust % 128 == k
    requires disk(FAT1_LBA + index) == sector && U32(sector, 4 * k) == value
    ensures FatEntry(disk, b, clust) == value % 0x1000_0000
  {
    assert clust % 128 * 4 == 4 * k;
  }

  /** Within the FAT the reader sees the word of the cluster it asks for. */
  lemma FatEntryIs(v: Volume, clust: nat)
    requires Readable(v) && clust / 128 < v.sectPerFat
    ensures FatEntry(DiskOf(v), BpbOf(v), clust) == v.FatValue(clust) % 0x1000_0000
  {
    FatEntryAt(v, clust, clust / 128, clust % 128);
  }

  lemma FatEntryAt(v: Volume, clust: nat, index: nat, k: nat)
    requires Readable(v) && index == clust / 128 < v.sectPerFat && k == clust % 128
    ensures FatEntry(DiskOf(v), BpbOf(v), clust) == v.FatValue(clust) % 0x1000_0000
  {
    FatSectorAt(v, index);
    ReadFatSectorWord(v, index, k, clust);
    EntryIn(DiskOf(v), BpbOf(v), clust, index, k, v.FatSector(index), v.FatValue(clust));
  }

  /** Just past the FAT the reader runs into the second copy, whose first two words look like ends of chain. */
  lemma FatEntryPastEnd(v: Volume, clust: nat)
    requires Readable(v) && clust / 128 == v.sectPerFat && clust % 128 < 2
    ensures EndOfChain(FatEntry(DiskOf(v), BpbOf(v), clust))
  {
    var index, k := clust / 128, clust % 128;
    FatSectorAt(v, index);
    ReadFatSectorWord(v, 0, k, k);
    EntryIn(DiskOf(v), BpbOf(v), clust, index, k, v.FatSector(0), v.FatValue(k));
    FirstWordsEnd(v, k);
  }

  lemma FirstWordsEnd(v: Volume, clust: nat)
    requires clust < 2
    ensures EndOfChain(v.FatValue(clust) % 0x1000_0000)
  {
  }

  /** The FAT is sized for the clusters without the two reserved words, so it covers the disk unless the number of
      clusters is 0 or 127 more than a multiple of 128. */
  lemma FatCoversDiskIff(n: nat)
    requires n > 0
    ensures n + 2 <= 128 * Nsect(n * 4) <==> n % 128 != 0 && n % 128 != 127
  {
    assert Nsect(n * 4) == (n + 127) / 128;
  }

  lemma LastSectorOfFat(v: Volume, clust: nat)
    requires Readable(v) && 2 <= clust < v.numClust + 2
    ensures clust / 128 < v.sectPerFat || (clust / 128 == v.sectPerFat && clust % 128 < 2)
    ensures clust / 128 == v.sectPerFat <==>
      (clust == v.numClust && v.numClust % 128 == 0) ||
      (clust == v.numClust + 1 && (v.numClust % 128 == 0 || v.numClust % 128 == 127))
  {
    assert v.sectPerFat == (v.numClust + 127) / 128;
  }

  // ---- Chains ----

  function Range(first: nat, last: nat): (r: seq<nat>)
    ensures |r| == if first <= last then last + 1 - first else 0
    ensures forall k | 0 <= k < |r| :: r[k] == first + k
    decreases last + 1 - first
  {
    if first > last then [] else [first] + Range(first + 1, last)
  }

  /** The one row whose chain cannot be read: it straddles the end of a FAT that is one sector too short. */
  predicate Straddles(v: Volume, i: nat)
    requires i < |v.rows|
  {
    v.numClust % 128 == 0 && v.rows[i].priv.firstClust <= v.numClust && v.rows[i].priv.lastClust == v.numClust + 1
  }

  lemma UsedWithinReserved(e: Entry)
    requires !e.dir ==> e.currSize <= e.maxSize
    ensures Used(e) <= Reserved(e)
  {
    if !e.dir && e.currSize > 0 {
      assert (e.currSize + 4095) / 4096 <= (e.maxSize + 4095) / 4096;
    }
  }

  lemma RowRange(v: Volume, i: nat)
    requires Readable(v) && i < |v.rows|
    ensures var p := v.rows[i].priv; 2 <= p.firstClust <= p.lastClust <= p.lastReserved < v.numClust + 2
  {
    assert NoWrap(v, i);
    Emfat.RowEnds(v, i);
    UsedWithinReserved(v.rows[i]);
    RowEndsIn(v, i);
    StartGrows(v.rows, i + 1, |v.rows|);
  }

  lemma RowEndsIn(v: Volume, i: nat)
    requires v.Laid() && i < |v.rows|
    ensures v.rows[i].priv.lastClust == v.rows[i].priv.firstClust + Used(v.rows[i]) - 1
    ensures v.rows[i].priv.lastReserved == v.rows[i].priv.firstClust + Reserved(v.rows[i]) - 1
  {
    assert v.RowLaid(i);
  }

  /** Where the reader ends when it follows the chain of row `i`. */
  function ChainEnd(v: Volume, i: nat): nat
    requires i < |v.rows|
  {
    if Straddles(v, i) then v.numClust else v.rows[i].priv.lastClust
  }

  lemma NextInChain(v: Volume, i: nat, clust: nat)
    requires Readable(v) && i < |v.rows| && v.rows[i].priv.firstClust <= clust <= ChainEnd(v, i)
    ensures var next := FatEntry(DiskOf(v), BpbOf(v), clust);
      if clust == ChainEnd(v, i) then EndOfChain(next) else next == clust + 1
  {
    RowRange(v, i);
    LastSectorOfFat(v, clust);
    if clust / 128 == v.sectPerFat {
      FatEntryPastEnd(v, clust);
    } else {
      UsedEntry(v, i, clust);
    }
  }

  lemma UsedEntry(v: Volume, i: nat, clust: nat)
    requires Readable(v) && i < |v.rows| && clust / 128 < v.sectPerFat
    requires v.rows[i].priv.firstClust <= clust <= v.rows[i].priv.lastClust
    ensures FatEntry(DiskOf(v), BpbOf(v), clust) == if clust == v.rows[i].priv.lastClust then CLUST_EOF else clust + 1
  {
    RowRange(v, i);
    UsedFatValue(v, i, clust);
    FatEntryIs(v, clust);
    TwentyEightBits(if clust == v.rows[i].priv.lastClust then CLUST_EOF else clust + 1);
  }

  /** The clusters a file reserves and does not use are free. */
  lemma ReservedIsFree(v: Volume, i: nat, clust: nat)
    requires Readable(v) && i < |v.rows| && !v.rows[i].dir && clust / 128 < v.sectPerFat
    requires v.rows[i].priv.lastClust < clust <= v.rows[i].priv.lastReserved
    ensures FatEntry(DiskOf(v), BpbOf(v), clust) == 0
  {
    FreeFatValue(v, i, clust);
    FatEntryIs(v, clust);
  }

  lemma FreeFatValue(v: Volume, i: nat, clust: nat)
    requires Readable(v) && i < |v.rows| && !v.rows[i].dir
    requires v.rows[i].priv.lastClust < clust <= v.rows[i].priv.lastReserved
    ensures v.FatValue(clust) == 0
  {
    RowRange(v, i);
    Emfat.OwnerIs(v, clust, i);
  }

  lemma TwentyEightBits(x: nat)
    requires x < 0x1000_0000
    ensures x % 0x1000_0000 == x
  {
  }

  lemma UsedFatValue(v: Volume, i: nat, clust: nat)
    requires Readable(v) && i < |v.rows| && v.rows[i].priv.firstClust <= clust <= v.rows[i].priv.lastClust
    ensures v.FatValue(clust) == if clust == v.rows[i].priv.lastClust then CLUST_EOF else clust + 1
  {
    RowRange(v, i);
    Emfat.OwnerIs(v, clust, i);
  }

  lemma {:induction false} FollowChain(fat: nat -> nat, first: nat, end: nat, limit: nat)
    requires 2 <= first <= end < first + limit && end < 0x0FFF_FFF8
    requires EndOfChain(fat(end)) && forall c | first <= c < end :: fat(c) == c + 1
    ensures Chain(fat, first, limit) == Range(first, end)
    decreases end - first
  {
    if first < end {
      FollowChain(fat, first + 1, end, limit - 1);
    } else {
      assert Chain(fat, fat(first), limit - 1) == [] == Range(first + 1, end);
    }
  }

  /** Following the FAT from a row's first cluster gives the clusters the row uses, up to where the FAT ends early. */
  lemma ChainFound(v: Volume, i: nat, limit: nat)
    requires Readable(v) && i < |v.rows| && limit >= v.numClust
    ensures Chain(FatOf(DiskOf(v), BpbOf(v)), v.rows[i].priv.firstClust, limit) ==
      Range(v.rows[i].priv.firstClust, ChainEnd(v, i))
  {
    var fat := FatOf(DiskOf(v), BpbOf(v));
    var first, end := v.rows[i].priv.firstClust, ChainEnd(v, i);
    RowRange(v, i);
    NextInChain(v, i, end);
    forall c | first <= c < end ensures fat(c) == c + 1 {
      NextInChain(v, i, c);
    }
    FollowChain(fat, first, end, limit);
  }

  /** The reader finds exactly the clusters a row uses, unless the row straddles the end of a FAT sized too short. */
  lemma ChainIsExactIff(v: Volume, i: nat, limit: nat)
    requires Readable(v) && i < |v.rows| && limit >= v.numClust
    ensures var p := v.rows[i].priv;
      Chain(FatOf(DiskOf(v), BpbOf(v)), p.firstClust, limit) == Range(p.firstClust, p.lastClust) <==> !Straddles(v, i)
  {
    RowRange(v, i);
    ChainFound(v, i, limit);
  }

  // ---- File contents ----

  /** Sector `j` of the file whose clusters are `chain`. */
  function FileSectorVia(disk: Disk, b: Bpb, chain: seq<nat>, j: nat): Sector
    requires j / 8 < |chain| && chain[j / 8] >= 2
  {
    disk(b.SectorOf(chain[j / 8], j % 8))
  }

  /** A cluster's sectors are where the boot sector says, and hold what the row that owns the cluster shows. */
  lemma ClusterSector(v: Volume, i: nat, clust: nat, rel: nat)
    requires Readable(v) && i < |v.rows| && v.IsClustOf(clust, i) && rel < 8
    ensures clust >= 2
    ensures DiskOf(v)(BpbOf(v).SectorOf(clust, rel)) ==
      if v.rows[i].dir then v.DirSector(i, rel) else v.FileSector(v.rows[i], clust, rel)
  {
    RowRange(v, i);
    Emfat.OwnerIs(v, clust, i);
    SectorIsData(v, clust, rel);
    OwnedData(v, i, clust, rel);
  }

  lemma SectorIsData(v: Volume, clust: nat, rel: nat)
    requires clust >= 2 && rel < 8
    ensures DiskOf(v)(BpbOf(v).SectorOf(clust, rel)) == v.ClusterData(clust, rel)
  {
    var n := (clust - 2) * 8 + rel;
    CellOf(clust, rel, n);
    SectorInData(v, n, clust, rel);
    SectorAddress(v, clust, rel, n);
  }

  lemma OwnedData(v: Volume, i: nat, clust: nat, rel: nat)
    requires i < |v.rows| && v.Owner(clust) == Some(i)
    ensures v.ClusterData(clust, rel) ==
      if v.rows[i].dir then v.DirSector(i, rel) else v.FileSector(v.rows[i], clust, rel)
  {
  }

  lemma SectorAddress(v: Volume, clust: nat, rel: nat, n: nat)
    requires clust >= 2 && n == (clust - 2) * 8 + rel
    ensures BpbOf(v).SectorOf(clust, rel) == v.RootLba() + n
  {
  }

  lemma SectorInData(v: Volume, n: nat, clust: nat, rel: nat)
    requires n / 8 + 2 == clust && n % 8 == rel
    ensures DiskOf(v)(v.RootLba() + n) == v.ClusterData(clust, rel)
  {
  }

  lemma CellOf(clust: nat, rel: nat, n: nat)
    requires clust >= 2 && rel < 8 && n == (clust - 2) * 8 + rel
    ensures n / 8 + 2 == clust && n % 8 == rel
  {
  }

  /** What the table says sector `j` of a file is. */
  function TableSector(v: Volume, i: nat, j: nat): Sector
    requires i < |v.rows|
  {
    match v.rows[i].readcb
    case None => Zeros(SECT)
    case Some(cb) => v.callback(cb, v.rows[i].offset + 512 * j, v.rows[i].userData)
  }

  /** Sector `j` of the file comes from the read callback at the file's offset plus 512 * j. */
  lemma FileSectorFound(v: Volume, i: nat, j: nat)
    requires Readable(v) && i < |v.rows| && !v.rows[i].dir
    requires var p := v.rows[i].priv; j < 8 * (p.lastClust + 1 - p.firstClust)
    ensures var p := v.rows[i].priv; var chain := Range(p.firstClust, p.lastClust);
      && j / 8 < |chain| && chain[j / 8] >= 2
      && FileSectorVia(DiskOf(v), BpbOf(v), chain, j) == TableSector(v, i, j)
  {
    RowRange(v, i);
    var p := v.rows[i].priv;
    var chain := Range(p.firstClust, p.lastClust);
    RangeAt(p.firstClust, p.lastClust, j / 8);
    FileClusterSector(v, i, chain[j / 8], j);
    SectorVia(DiskOf(v), BpbOf(v), chain, j);
  }

  lemma SectorVia(disk: Disk, b: Bpb, chain: seq<nat>, j: nat)
    requires j / 8 < |chain| && chain[j / 8] >= 2
    ensures FileSectorVia(disk, b, chain, j) == disk(b.SectorOf(chain[j / 8], j % 8))
  {
  }

  lemma FileClusterSector(v: Volume, i: nat, clust: nat, j: nat)
    requires Readable(v) && i < |v.rows| && !v.rows[i].dir
    requires v.rows[i].priv.firstClust <= clust <= v.rows[i].priv.lastClust
    requires clust == v.rows[i].priv.firstClust + j / 8
    ensures clust >= 2 && DiskOf(v)(BpbOf(v).SectorOf(clust, j % 8)) == TableSector(v, i, j)
  {
    RowRange(v, i);
    ClusterSector(v, i, clust, j % 8);
    OffsetOfSector(v, i, clust, j);
  }

  lemma OffsetOfSector(v: Volume, i: nat, clust: nat, j: nat)
    requires i < |v.rows| && clust == v.rows[i].priv.firstClust + j / 8
    ensures v.FileSector(v.rows[i], clust, j % 8) == TableSector(v, i, j)
  {
    assert (clust - v.rows[i].priv.firstClust) * 4096 + j % 8 * 512 == 512 * j;
  }

  /** The clusters of a file hold all of it. */
  lemma ClustersHoldFile(v: Volume, i: nat)
    requires Readable(v) && i < |v.rows| && !v.rows[i].dir
    ensures var p := v.rows[i].priv; v.rows[i].currSize <= 4096 * |Range(p.firstClust, p.lastClust)|
  {
    assert v.RowLaid(i);
  }

  // ---- Directories ----

  function ChildRecords(v: Volume, rows: seq<nat>): (r: seq<Record>)
    requires forall k | 0 <= k < |rows| :: rows[k] < |v.rows|
    ensures |r| == |rows|
  {
    seq(|rows|, k requires 0 <= k < |rows| => v.ChildRecord(rows[k]))
  }

  /** Every record a directory should have: the header and then its children in table order. */
  function AllRecords(v: Volume, i: nat): (r: seq<Record>)
    requires i < |v.rows|
    ensures |r| == v.HeaderCount(i) + |ChildrenIn(v.rows, i, |v.rows|)|
  {
    v.Header(i) + ChildRecords(v, ChildrenIn(v.rows, i, |v.rows|))
  }

  function Upto(n: nat, limit: nat): nat {
    if n < limit then n else limit
  }

  lemma DropFirst(first: nat, rest: seq<nat>, n: nat)
    requires n > 0
    ensures ([first] + rest)[Upto(|rest| + 1, n)..] == rest[Upto(|rest|, n - 1)..]
  {
  }

  /** The part of a directory that belongs in its sector `rel`. */
  function SectorSlice(all: seq<Record>, rel: nat): (r: seq<Record>)
    ensures |r| <= 16
  {
    all[Upto(|all|, 16 * rel)..Upto(|all|, 16 * rel + 16)]
  }

  lemma {:induction false} RecordsAreFollowed(v: Volume, start: Option<nat>, room: nat)
    requires v.Laid() && (start.Some? ==> start.value < |v.rows|)
    requires forall k | 0 <= k < |Follow(v.rows, start)| :: Follow(v.rows, start)[k] < |v.rows|
    ensures v.Records(start, room) == ChildRecords(v, Follow(v.rows, start)[..Upto(|Follow(v.rows, start)|, room)])
    decreases room
  {
    if start.Some? && room > 0 {
      assert v.RowLaid(start.value);
      var next := v.rows[start.value].priv.next;
      var rest := Follow(v.rows, next);
      assert Follow(v.rows, start) == [start.value] + rest;
      TailBelow(start.value, rest, |v.rows|);
      RecordsAreFollowed(v, next, room - 1);
      FirstRecord(v, start.value, rest, room);
    }
  }

  lemma TailBelow(first: nat, rest: seq<nat>, bound: nat)
    requires forall k | 0 <= k < |[first] + rest| :: ([first] + rest)[k] < bound
    ensures forall k | 0 <= k < |rest| :: rest[k] < bound
  {
    assert forall k | 0 <= k < |rest| :: rest[k] == ([first] + rest)[k + 1];
  }

  lemma FirstRecord(v: Volume, first: nat, rest: seq<nat>, room: nat)
    requires room > 0 && first < |v.rows| && forall k | 0 <= k < |rest| :: rest[k] < |v.rows|
    ensures ChildRecords(v, ([first] + rest)[..Upto(|rest| + 1, room)]) ==
      [v.ChildRecord(first)] + ChildRecords(v, rest[..Upto(|rest|, room - 1)])
  {
    assert ([first] + rest)[..Upto(|rest| + 1, room)] == [first] + rest[..Upto(|rest|, room - 1)];
  }

  lemma {:induction false} SkipFollows(v: Volume, start: Option<nat>, n: nat)
    requires v.Laid() && (start.Some? ==> start.value < |v.rows|)
    ensures var s := v.Skip(start, n);
      && (s.Some? ==> s.value < |v.rows|)
      && Follow(v.rows, s) == Follow(v.rows, start)[Upto(|Follow(v.rows, start)|, n)..]
    decreases n
  {
    if start.Some? && n > 0 {
      assert v.RowLaid(start.value);
      var next := v.rows[start.value].priv.next;
      SkipFollows(v, next, n - 1);
      assert Follow(v.rows, start) == [start.value] + Follow(v.rows, next);
      DropFirst(start.value, Follow(v.rows, next), n);
    }
  }

  /** Directory sector `rel` holds records 16 * rel to 16 * rel + 15 of the directory. */
  lemma DirSectorIsSlice(v: Volume, i: nat, rel: nat)
    requires v.Laid() && i < |v.rows|
    ensures v.DirRecords(i, rel) == SectorSlice(AllRecords(v, i), rel)
  {
    if rel == 0 {
      FirstDirSector(v, i);
    } else {
      LaterDirSector(v, i, rel);
    }
  }

  lemma SubListsChildren(v: Volume, i: nat)
    requires v.Laid() && i < |v.rows|
    ensures var sub := v.rows[i].priv.sub;
      && (sub.Some? ==> sub.value < |v.rows|) && Follow(v.rows, sub) == ChildrenIn(v.rows, i, |v.rows|)
  {
    assert v.RowLaid(i);
    LinksListChildren(v.rows, i);
  }

  lemma FirstDirSector(v: Volume, i: nat)
    requires v.Laid() && i < |v.rows|
    ensures v.DirRecords(i, 0) == SectorSlice(AllRecords(v, i), 0)
  {
    SubListsChildren(v, i);
    RecordsAreFollowed(v, v.rows[i].priv.sub, 16 - v.HeaderCount(i));
    HeaderSlice(v, i, ChildrenIn(v.rows, i, |v.rows|));
  }

  lemma LaterDirSector(v: Volume, i: nat, rel: nat)
    requires v.Laid() && i < |v.rows| && rel > 0
    ensures v.DirRecords(i, rel) == SectorSlice(AllRecords(v, i), rel)
  {
    SubListsChildren(v, i);
    LaterFromKids(v, i, rel, ChildrenIn(v.rows, i, |v.rows|));
  }

  lemma LaterFromKids(v: Volume, i: nat, rel: nat, kids: seq<nat>)
    requires v.Laid() && i < |v.rows| && rel > 0 && forall k | 0 <= k < |kids| :: kids[k] < |v.rows|
    requires var sub := v.rows[i].priv.sub; (sub.Some? ==> sub.value < |v.rows|) && Follow(v.rows, sub) == kids
    ensures v.DirRecords(i, rel) == SectorSlice(v.Header(i) + ChildRecords(v, kids), rel)
  {
    SkippedRecords(v, v.rows[i].priv.sub, kids, rel * 16 - v.HeaderCount(i));
    LaterSlice(v, i, kids, rel);
    LaterRecords(v, i, rel);
  }

  lemma LaterRecords(v: Volume, i: nat, rel: nat)
    requires i < |v.rows| && rel > 0
    ensures v.DirRecords(i, rel) == v.Records(v.Skip(v.rows[i].priv.sub, rel * 16 - v.HeaderCount(i)), 16)
  {
  }

  lemma SkippedRecords(v: Volume, sub: Option<nat>, kids: seq<nat>, n: nat)
    requires v.Laid() && (sub.Some? ==> sub.value < |v.rows|) && kids == Follow(v.rows, sub)
    requires forall k | 0 <= k < |kids| :: kids[k] < |v.rows|
    ensures var rest := kids[Upto(|kids|, n)..];
      v.Records(v.Skip(sub, n), 16) == ChildRecords(v, rest[..Upto(|rest|, 16)])
  {
    SkipFollows(v, sub, n);
    RecordsAreFollowed(v, v.Skip(sub, n), 16);
  }

  lemma HeaderSlice(v: Volume, i: nat, kids: seq<nat>)
    requires i < |v.rows| && forall k | 0 <= k < |kids| :: kids[k] < |v.rows|
    ensures var all, h := v.Header(i) + ChildRecords(v, kids), v.HeaderCount(i);
      v.Header(i) + ChildRecords(v, kids[..Upto(|kids|, 16 - h)]) == SectorSlice(all, 0)
  {
  }

  lemma LaterSlice(v: Volume, i: nat, kids: seq<nat>, rel: nat)
    requires i < |v.rows| && rel > 0 && forall k | 0 <= k < |kids| :: kids[k] < |v.rows|
    ensures var all, h := v.Header(i) + ChildRecords(v, kids), v.HeaderCount(i);
      var rest := kids[Upto(|kids|, rel * 16 - h)..];
      ChildRecords(v, rest[..Upto(|rest|, 16)]) == SectorSlice(all, rel)
  {
  }

  // ---- Listing a directory ----

  /** What a reader takes from a directory record. */
  datatype Listed = Listed(name: seq<byte>, attr: byte, clust: nat, size: nat)

  function Decode(slot: seq<byte>): Listed
    requires |slot| == RECORD
  {
    Listed(slot[..11], slot[11], U16(slot, 20) * 0x1_0000 + U16(slot, 26), U32(slot, 28))
  }

  /** Directory record `r` of the directory whose clusters are `chain`. */
  function Slot(disk: Disk, b: Bpb, chain: seq<nat>, r: nat): (s: seq<byte>)
    requires r / 128 < |chain| && chain[r / 128] >= 2
    ensures |s| == RECORD
  {
    ClusterSlot(disk, b, chain[r / 128], r % 128)
  }

  /** The directory record `r` of one cluster. */
  function ClusterSlot(disk: Disk, b: Bpb, clust: nat, r: nat): (s: seq<byte>)
    requires clust >= 2
    ensures |s| == RECORD
  {
    disk(b.SectorOf(clust, r / 16))[r % 16 * 32..r % 16 * 32 + 32]
  }

  predicate IsSkipped(slot: seq<byte>)
    requires |slot| == RECORD
  {
    slot[0] == 0xE5 || slot[0] == 0x2E || slot[11] / 8 % 2 == 1
  }

  /** What a directory lists from record `r` on: deleted records, the volume label and the dot records are passed over,
      and a zero byte or the end of the chain ends the list. */
  function List(slots: seq<seq<byte>>): seq<Listed>
    requires forall k | 0 <= k < |slots| :: |slots[k]| == RECORD
  {
    if |slots| == 0 || slots[0][0] == 0 then []
    else if IsSkipped(slots[0]) then List(slots[1..])
    else [Decode(slots[0])] + List(slots[1..])
  }

  function Slots(disk: Disk, b: Bpb, chain: seq<nat>): (r: seq<seq<byte>>)
    requires forall k | 0 <= k < |chain| :: chain[k] >= 2
    ensures |r| == 128 * |chain| && forall k | 0 <= k < |r| :: |r[k]| == RECORD
  {
    seq(128 * |chain|, k requires 0 <= k < 128 * |chain| => Slot(disk, b, chain, k))
  }

  lemma RecordSlot(records: seq<Record>, k: nat)
    requires k < |records| <= 16
    ensures Padded(Encoded(records))[32 * k..32 * k + 32] == RecordBytes(records[k])
  {
    JoinedPiece(Encodings(records), 32, k);
    SliceOfPadded(Encoded(records), 32 * k);
  }

  lemma EmptySlot(records: seq<Record>, k: nat)
    requires |records| <= k < 16
    ensures Padded(Encoded(records))[32 * k..32 * k + 32] == Zeros(32)
  {
    SliceOfPadding(Encoded(records), 32 * k);
  }

  lemma SliceOfPadded(s: seq<byte>, at: nat)
    requires at + 32 <= |s| <= SECT
    ensures Padded(s)[at..at + 32] == s[at..at + 32]
  {
  }

  lemma SliceOfPadding(s: seq<byte>, at: nat)
    requires |s| <= at && at + 32 <= SECT
    ensures Padded(s)[at..at + 32] == Zeros(32)
  {
  }

  /** Slot `r` of a directory as it should be: its records and then zeros. */
  function SlotBytes(all: seq<Record>, r: nat): (s: seq<byte>)
    ensures |s| == RECORD
  {
    if r < |all| then RecordBytes(all[r]) else Zeros(32)
  }

  /** Directory slots are the directory's records and then zeros. */
  lemma DirSlot(v: Volume, i: nat, r: nat)
    requires v.Laid() && i < |v.rows|
    ensures v.DirSector(i, r / 16)[r % 16 * 32..r % 16 * 32 + 32] == SlotBytes(AllRecords(v, i), r)
  {
    DirSectorIsSlice(v, i, r / 16);
    SlotInSlice(AllRecords(v, i), r);
  }

  lemma SlotInSlice(all: seq<Record>, r: nat)
    ensures Padded(Encoded(SectorSlice(all, r / 16)))[r % 16 * 32..r % 16 * 32 + 32] == SlotBytes(all, r)
  {
    SliceAt(all, r);
    if r < |all| {
      RecordSlot(SectorSlice(all, r / 16), r % 16);
    } else {
      EmptySlot(SectorSlice(all, r / 16), r % 16);
    }
  }

  lemma SliceAt(all: seq<Record>, r: nat)
    ensures r < |all| <==> r % 16 < |SectorSlice(all, r / 16)|
    ensures r < |all| ==> SectorSlice(all, r / 16)[r % 16] == all[r]
  {
  }

  lemma RangeAt(first: nat, last: nat, k: nat)
    requires first + k <= last
    ensures k < |Range(first, last)| && Range(first, last)[k] == first + k
  {
  }

  lemma SlotOf(disk: Disk, b: Bpb, chain: seq<nat>, r: nat)
    requires r / 128 < |chain| && chain[r / 128] >= 2
    ensures Slot(disk, b, chain, r) == ClusterSlot(disk, b, chain[r / 128], r % 128)
  {
  }

  lemma ClusterSlotFound(v: Volume, i: nat, clust: nat, r: nat)
    requires Readable(v) && i < |v.rows| && v.rows[i].dir && v.IsClustOf(clust, i) && r < 128
    ensures clust >= 2
    ensures ClusterSlot(DiskOf(v), BpbOf(v), clust, r) == SlotBytes(AllRecords(v, i), r)
  {
    RowRange(v, i);
    ClusterSector(v, i, clust, r / 16);
    DirSlot(v, i, r);
  }

  lemma DecodeRecord(r: Record)
    requires r.clust < TWO_32 && r.size < TWO_32
    ensures Decode(RecordBytes(r)) == Listed(ShortName(r.name, r.attr / 0x10 % 2 == 1), r.attr, r.clust, r.size)
  {
    var s := RecordBytes(r);
    RecordFields(r);
    U16OfLe16(s, 20, r.clust / 0x1_0000);
    LowHalf(r.clust);
    U16OfLe16(s, 26, r.clust % 0x1_0000);
    U32OfLe32(s, 28, r.size);
  }

  lemma LowHalf(x: nat)
    ensures Le16(x) == Le16(x % 0x1_0000)
  {
    assert x % 256 == x % 0x1_0000 % 256 && x / 256 % 256 == x % 0x1_0000 / 256 % 256;
    Le16Is(x);
    Le16Is(x % 0x1_0000);
  }

  lemma Le16Is(x: nat)
    ensures Le16(x) == [x % 256, x / 256 % 256]
  {
    assert LeBytes(x / 256, 1) == [x / 256 % 256] + LeBytes(x / 256 / 256, 0);
  }

  lemma RecordFields(r: Record)
    ensures var s := RecordBytes(r);
      && s[..11] == ShortName(r.name, r.attr / 0x10 % 2 == 1) && s[11] == r.attr
      && s[20..22] == Le16(r.clust / 0x1_0000) && s[26..28] == Le16(r.clust) && s[28..32] == LeBytes(r.size, 4)
  {
    var s, p := RecordBytes(r), RecordParts(r);
    SliceOfEight(p, 0, 0);
    SliceOfEight(p, 1, 11);
    assert s[11] == s[11..14][0];
    SliceOfEight(p, 4, 20);
    SliceOfEight(p, 6, 26);
    SliceOfEight(p, 7, 28);
  }

  /** A directory shows every one of its records if and only if there are at most 128 of them: its sectors repeat from
      the second cluster on, and it is given its clusters without counting its header and first child. */
  lemma DirectoryIsWholeIff(v: Volume, i: nat)
    requires Readable(v) && i < |v.rows| && v.rows[i].dir
    ensures (forall r | 0 <= r < |AllRecords(v, i)| :: ShowsRecord(v, i, r)) <==> |AllRecords(v, i)| <= 128
  {
    if |AllRecords(v, i)| <= 128 {
      forall r | 0 <= r < |AllRecords(v, i)| ensures ShowsRecord(v, i, r) {
        RecordShown(v, i, r);
      }
    } else {
      RecordHidden(v, i);
    }
  }

  lemma RecordShown(v: Volume, i: nat, r: nat)
    requires Readable(v) && i < |v.rows| && v.rows[i].dir && r < |AllRecords(v, i)| <= 128
    ensures ShowsRecord(v, i, r)
  {
    RowRange(v, i);
    FirstOfRange(v.rows[i].priv.firstClust, v.rows[i].priv.lastClust);
    FirstSlots(DiskOf(v), BpbOf(v), Range(v.rows[i].priv.firstClust, v.rows[i].priv.lastClust), r);
    ClusterSlotFound(v, i, v.rows[i].priv.firstClust, r);
  }

  lemma FirstSlots(disk: Disk, b: Bpb, chain: seq<nat>, r: nat)
    requires r < 128 && |chain| > 0 && chain[0] >= 2
    ensures r / 128 == 0 && Slot(disk, b, chain, r) == ClusterSlot(disk, b, chain[0], r)
  {
  }

  lemma FirstOfRange(first: nat, last: nat)
    requires 2 <= first <= last
    ensures |Range(first, last)| > 0 && Range(first, last)[0] == first
  {
  }

  /** A reader that follows the directory's clusters finds record `r` in slot `r`. */
  predicate ShowsRecord(v: Volume, i: nat, r: nat)
    requires i < |v.rows| && r < |AllRecords(v, i)|
  {
    ShowsIn(DiskOf(v), BpbOf(v), Range(v.rows[i].priv.firstClust, v.rows[i].priv.lastClust), AllRecords(v, i), r)
  }

  predicate ShowsIn(disk: Disk, b: Bpb, chain: seq<nat>, all: seq<Record>, r: nat)
    requires r < |all|
  {
    r / 128 < |chain| && chain[r / 128] >= 2 && Slot(disk, b, chain, r) == RecordBytes(all[r])
  }

  /** The record after the first 128 either has no cluster or is hidden behind the directory's own first record. */
  lemma RecordHidden(v: Volume, i: nat)
    requires Readable(v) && i < |v.rows| && v.rows[i].dir && |AllRecords(v, i)| > 128
    ensures !ShowsRecord(v, i, 128)
  {
    var p := v.rows[i].priv;
    var chain := Range(p.firstClust, p.lastClust);
    RowRange(v, i);
    RecordsDiffer(v, i);
    if p.firstClust < p.lastClust {
      RangeAt(p.firstClust, p.lastClust, 1);
      ClusterSlotFound(v, i, chain[1], 0);
    }
    HiddenSlot(DiskOf(v), BpbOf(v), chain, AllRecords(v, i));
  }

  lemma HiddenSlot(disk: Disk, b: Bpb, chain: seq<nat>, all: seq<Record>)
    requires |all| > 128 && RecordBytes(all[0]) != RecordBytes(all[128])
    requires |chain| > 1 ==> chain[1] >= 2 && ClusterSlot(disk, b, chain[1], 0) == SlotBytes(all, 0)
    ensures !ShowsIn(disk, b, chain, all, 128)
  {
    if |chain| > 1 {
      SlotOf(disk, b, chain, 128);
    }
  }

  lemma RecordsDiffer(v: Volume, i: nat)
    requires Readable(v) && i < |v.rows| && |AllRecords(v, i)| > 128
    ensures RecordBytes(AllRecords(v, i)[0]) != RecordBytes(AllRecords(v, i)[128])
  {
    var all, kids := AllRecords(v, i), ChildrenIn(v.rows, i, |v.rows|);
    var kid := kids[128 - v.HeaderCount(i)];
    RowRange(v, i);
    RowRange(v, kid);
    Emfat.RangesApart(v, i, kid);
    ClusterInRecord(all[0]);
    ClusterInRecord(all[128]);
  }

  lemma ClusterInRecord(r: Record)
    requires r.clust < TWO_32
    ensures U16(RecordBytes(r), 20) * 0x1_0000 + U16(RecordBytes(r), 26) == r.clust
  {
    var s := RecordBytes(r);
    RecordFields(r);
    U16OfLe16(s, 20, r.clust / 0x1_0000);
    LowHalf(r.clust);
    U16OfLe16(s, 26, r.clust % 0x1_0000);
  }

  // ---- The whole tree ----

  datatype Tree = File(size: nat, sectors: seq<Sector>) | Dir(names: seq<seq<byte>>, kids: seq<Tree>) | TooDeep

  function IsDir(attr: byte): bool {
    attr / 0x10 % 2 == 1
  }

  /** What the reader finds behind a directory record, `depth` levels down. */
  function ReadTree(disk: Disk, b: Bpb, e: Listed, depth: nat): Tree
    decreases depth, 0
  {
    var chain := Chain(FatOf(disk, b), e.clust, b.Clusters());
    if !IsDir(e.attr) then ReadFile(disk, b, e.size, chain)
    else if depth == 0 then TooDeep
    else ReadDirectory(disk, b, List(Slots(disk, b, chain)), depth - 1)
  }

  function ReadFile(disk: Disk, b: Bpb, size: nat, chain: seq<nat>): Tree
    requires forall k | 0 <= k < |chain| :: chain[k] >= 2
  {
    File(size, seq(8 * |chain|, j requires 0 <= j < 8 * |chain| => FileSectorVia(disk, b, chain, j)))
  }

  function ReadDirectory(disk: Disk, b: Bpb, kids: seq<Listed>, below: nat): Tree
    decreases below, 1
  {
    Dir(seq(|kids|, k requires 0 <= k < |kids| => kids[k].name),
        seq(|kids|, k requires 0 <= k < |kids| => ReadTree(disk, b, kids[k], below)))
  }

  /** What the table says is there. */
  function TableTree(v: Volume, i: nat, depth: nat): Tree
    requires i < |v.rows|
    decreases depth, 0
  {
    if !v.rows[i].dir then TableFile(v, i)
    else if depth == 0 then TooDeep
    else TableDirectory(v, ChildrenIn(v.rows, i, |v.rows|), depth - 1)
  }

  function TableFile(v: Volume, i: nat): Tree
    requires i < |v.rows|
  {
    var n := 8 * Used(v.rows[i]);
    File(v.rows[i].currSize, seq(n, j requires 0 <= j < n => TableSector(v, i, j)))
  }

  function TableDirectory(v: Volume, kids: seq<nat>, below: nat): Tree
    requires forall k | 0 <= k < |kids| :: kids[k] < |v.rows|
    decreases below, 1
  {
    Dir(seq(|kids|, k requires 0 <= k < |kids| => ShortName(v.rows[kids[k]].name, v.rows[kids[k]].dir)),
        seq(|kids|, k requires 0 <= k < |kids| => TableTree(v, kids[k], below)))
  }

  /** The hypotheses about the table: names that do not look like free, deleted or dot records, sizes of 32 bits,
      directories of at most 128 records, and no row across the end of a FAT that is too short. */
  ghost predicate Ordinary(v: Volume) {
    && (forall i | 0 <= i < |v.rows| :: OrdinaryRow(v, i))
    && ShortName(v.volumeLabel, false)[0] != 0
  }

  ghost predicate OrdinaryRow(v: Volume, i: nat)
    requires i < |v.rows|
  {
    var first := ShortName(v.rows[i].name, v.rows[i].dir)[0];
    && first != 0 && first != 0xE5 && first != 0x2E
    && v.rows[i].currSize < TWO_32 && !Straddles(v, i)
    && (v.rows[i].dir ==> |AllRecords(v, i)| <= 128)
  }

  function Listing(all: seq<Record>): seq<Listed> {
    if |all| == 0 then []
    else if IsSkipped(RecordBytes(all[0])) then Listing(all[1..])
    else [Decode(RecordBytes(all[0]))] + Listing(all[1..])
  }

  lemma {:induction false} ListIsListing(slots: seq<seq<byte>>, all: seq<Record>)
    requires |all| <= |slots| && forall k | 0 <= k < |slots| :: |slots[k]| == RECORD && slots[k] == SlotBytes(all, k)
    requires AllLive(all)
    ensures List(slots) == Listing(all)
  {
    if |slots| > 0 && |all| > 0 {
      forall k | 0 <= k < |slots[1..]| ensures slots[1..][k] == SlotBytes(all[1..], k) {
        assert slots[1..][k] == slots[k + 1] == SlotBytes(all, k + 1);
      }
      ListIsListing(slots[1..], all[1..]);
    }
  }

  // ---- The listing of a directory ----

  /** The record of a row as a reader takes it. */
  function ListedRow(v: Volume, i: nat): Listed
    requires i < |v.rows|
  {
    var e := v.rows[i];
    if e.dir then Listed(ShortName(e.name, true), ATTR_DIR + ATTR_READ, e.priv.firstClust, 0)
    else Listed(ShortName(e.name, false), ATTR_ARCHIVE + ATTR_READ, e.priv.firstClust, e.currSize)
  }

  lemma ChildRecordListed(v: Volume, i: nat)
    requires Readable(v) && i < |v.rows| && Ordinary(v)
    ensures ListedAs(v.ChildRecord(i), ListedRow(v, i))
  {
    RowRange(v, i);
    assert OrdinaryRow(v, i);
    RowListed(v, i, v.rows[i].priv.firstClust, v.rows[i].currSize);
  }

  lemma RowListed(v: Volume, i: nat, clust: nat, size: nat)
    requires i < |v.rows| && OrdinaryRow(v, i)
    requires clust == v.rows[i].priv.firstClust < TWO_32 && size == v.rows[i].currSize < TWO_32
    ensures ListedAs(v.ChildRecord(i), ListedRow(v, i))
  {
    var e := v.rows[i];
    if e.dir {
      RecordListed(Record(e.name, ATTR_DIR + ATTR_READ, clust, Times(e), 0));
    } else {
      RecordListed(Record(e.name, ATTR_ARCHIVE + ATTR_READ, clust, Times(e), size));
    }
  }

  lemma RecordListed(r: Record)
    requires r.clust < TWO_32 && r.size < TWO_32 && r.attr / 8 % 2 == 0
    requires var first := ShortName(r.name, IsDir(r.attr))[0]; first != 0 && first != 0xE5 && first != 0x2E
    ensures ListedAs(r, Listed(ShortName(r.name, IsDir(r.attr)), r.attr, r.clust, r.size))
  {
    DecodeRecord(r);
    FirstByte(r);
  }

  lemma FirstByte(r: Record)
    ensures RecordBytes(r)[0] == ShortName(r.name, IsDir(r.attr))[0] && RecordBytes(r)[11] == r.attr
  {
    RecordFields(r);
    assert RecordBytes(r)[..11][0] == RecordBytes(r)[0];
  }

  /** A record that a listing takes as `e`. */
  predicate ListedAs(r: Record, e: Listed) {
    RecordBytes(r)[0] != 0 && !IsSkipped(RecordBytes(r)) && Decode(RecordBytes(r)) == e
  }

  lemma {:induction false} AllListed(all: seq<Record>, out: seq<Listed>)
    requires |all| == |out| && forall k | 0 <= k < |all| :: ListedAs(all[k], out[k])
    ensures Listing(all) == out
  {
    if |all| > 0 {
      assert ListedAs(all[0], out[0]);
      forall k | 0 <= k < |all[1..]| ensures ListedAs(all[1..][k], out[1..][k]) {
        assert ListedAs(all[k + 1], out[k + 1]);
      }
      AllListed(all[1..], out[1..]);
    }
  }

  function ListedRows(v: Volume, kids: seq<nat>): (r: seq<Listed>)
    requires forall k | 0 <= k < |kids| :: kids[k] < |v.rows|
    ensures |r| == |kids|
  {
    seq(|kids|, k requires 0 <= k < |kids| => ListedRow(v, kids[k]))
  }

  lemma ChildrenListed(v: Volume, kids: seq<nat>)
    requires Readable(v) && Ordinary(v) && forall k | 0 <= k < |kids| :: kids[k] < |v.rows|
    ensures Listing(ChildRecords(v, kids)) == ListedRows(v, kids)
  {
    forall k | 0 <= k < |kids| ensures ListedAs(ChildRecords(v, kids)[k], ListedRows(v, kids)[k]) {
      ChildRecordListed(v, kids[k]);
    }
    AllListed(ChildRecords(v, kids), ListedRows(v, kids));
  }

  lemma HeaderSkipped(v: Volume, i: nat, k: nat)
    requires Ordinary(v) && i < |v.rows| && k < |v.Header(i)|
    ensures RecordBytes(v.Header(i)[k])[0] != 0 && IsSkipped(RecordBytes(v.Header(i)[k]))
  {
    var r := v.Header(i)[k];
    if v.rows[i].priv.top == None {
      LabelSkipped(v, r);
    } else {
      DotSkipped(r);
    }
  }

  lemma LabelSkipped(v: Volume, r: Record)
    requires Ordinary(v) && r.name == v.volumeLabel && r.attr == ATTR_VOL_LABEL
    ensures RecordBytes(r)[0] != 0 && IsSkipped(RecordBytes(r))
  {
    FirstByte(r);
  }

  lemma DotSkipped(r: Record)
    requires (r.name == DOT || r.name == DOT + DOT) && r.attr == ATTR_DIR + ATTR_READ
    ensures RecordBytes(r)[0] != 0 && IsSkipped(RecordBytes(r))
  {
    FirstByte(r);
    DotNames();
  }

  lemma DotNames()
    ensures ShortName(DOT, true)[0] == 0x2E && ShortName(DOT + DOT, true)[0] == 0x2E
  {
    DirectoryInitial(DOT);
    DirectoryInitial(DOT + DOT);
  }

  lemma DirectoryInitial(name: seq<byte>)
    requires |name| > 0
    ensures ShortName(name, true)[0] == Upper(name[0])
  {
    assert (Field(name, 8) + Field([], 3))[0] == name[0];
  }

  lemma ListingSkipsHeader(v: Volume, i: nat, rest: seq<Record>)
    requires Ordinary(v) && i < |v.rows|
    ensures Listing(v.Header(i) + rest) == Listing(rest)
  {
    var header := v.Header(i);
    HeaderSkipped(v, i, 0);
    assert (header + rest)[1..] == header[1..] + rest;
    if |header| == 2 {
      HeaderSkipped(v, i, 1);
      assert (header[1..] + rest)[1..] == rest;
    } else {
      assert header[1..] + rest == rest;
    }
  }

  /** A record that does not end the directory. */
  predicate Live(r: Record) {
    RecordBytes(r)[0] != 0
  }

  predicate AllLive(all: seq<Record>) {
    forall k | 0 <= k < |all| :: Live(all[k])
  }

  lemma JoinLive(a: seq<Record>, b: seq<Record>)
    requires AllLive(a) && AllLive(b)
    ensures AllLive(a + b)
  {
  }

  lemma NoRecordEnds(v: Volume, i: nat)
    requires Readable(v) && Ordinary(v) && i < |v.rows|
    ensures AllLive(AllRecords(v, i))
  {
    var kids := ChildrenIn(v.rows, i, |v.rows|);
    forall k | 0 <= k < |v.Header(i)| ensures Live(v.Header(i)[k]) {
      HeaderSkipped(v, i, k);
    }
    forall k | 0 <= k < |kids| ensures Live(ChildRecords(v, kids)[k]) {
      ChildRecordListed(v, kids[k]);
    }
    JoinLive(v.Header(i), ChildRecords(v, kids));
  }

  /** A directory that is not too long takes one cluster. */
  lemma DirectoryCluster(v: Volume, i: nat)
    requires Readable(v) && i < |v.rows| && v.rows[i].dir && |AllRecords(v, i)| <= 128
    ensures Range(v.rows[i].priv.firstClust, v.rows[i].priv.lastClust) == [v.rows[i].priv.firstClust]
  {
    assert v.RowLaid(i);
    RowRange(v, i);
  }

  /** Listing a directory through the FAT gives exactly its children, in table order, each with its name, kind, first
      cluster and size. */
  lemma DirectoryLists(v: Volume, i: nat)
    requires Readable(v) && Ordinary(v) && i < |v.rows| && v.rows[i].dir
    ensures v.rows[i].priv.firstClust >= 2
    ensures var kids := ChildrenIn(v.rows, i, |v.rows|);
      List(Slots(DiskOf(v), BpbOf(v), Range(v.rows[i].priv.firstClust, v.rows[i].priv.lastClust))) ==
        ListedRows(v, kids)
  {
    RowRange(v, i);
    assert OrdinaryRow(v, i);
    DirectoryCluster(v, i);
    SlotsAre(v, i);
    NoRecordEnds(v, i);
    var kids := ChildrenIn(v.rows, i, |v.rows|);
    ListIsListing(Slots(DiskOf(v), BpbOf(v), [v.rows[i].priv.firstClust]), AllRecords(v, i));
    ListingSkipsHeader(v, i, ChildRecords(v, kids));
    ChildrenListed(v, kids);
  }

  lemma SlotsAre(v: Volume, i: nat)
    requires Readable(v) && i < |v.rows| && v.rows[i].dir && |AllRecords(v, i)| <= 128
    ensures v.rows[i].priv.firstClust >= 2
    ensures var slots := Slots(DiskOf(v), BpbOf(v), [v.rows[i].priv.firstClust]);
      forall k | 0 <= k < |slots| :: slots[k] == SlotBytes(AllRecords(v, i), k)
  {
    RowRange(v, i);
    forall k | 0 <= k < 128
      ensures Slot(DiskOf(v), BpbOf(v), [v.rows[i].priv.firstClust], k) == SlotBytes(AllRecords(v, i), k)
    {
      FirstSlots(DiskOf(v), BpbOf(v), [v.rows[i].priv.firstClust], k);
      ClusterSlotFound(v, i, v.rows[i].priv.firstClust, k);
    }
  }

  // ---- The whole disk ----

  lemma ClusterLimit(v: Volume)
    requires Readable(v)
    ensures BpbOf(v).Clusters() == v.numClust
  {
  }

  lemma ExactChain(v: Volume, i: nat)
    requires Readable(v) && Ordinary(v) && i < |v.rows|
    ensures Chain(FatOf(DiskOf(v), BpbOf(v)), v.rows[i].priv.firstClust, BpbOf(v).Clusters()) ==
      Range(v.rows[i].priv.firstClust, v.rows[i].priv.lastClust)
  {
    ClusterLimit(v);
    assert OrdinaryRow(v, i);
    ChainIsExactIff(v, i, v.numClust);
  }

  /** A record that leads to row `i`. */
  predicate Describes(v: Volume, e: Listed, i: nat)
    requires i < |v.rows|
  {
    && IsDir(e.attr) == v.rows[i].dir && e.clust == v.rows[i].priv.firstClust
    && (!v.rows[i].dir ==> e.size == v.rows[i].currSize)
  }

  lemma FileFound(v: Volume, i: nat, e: Listed, depth: nat)
    requires Readable(v) && Ordinary(v) && i < |v.rows| && !v.rows[i].dir && Describes(v, e, i)
    ensures ReadTree(DiskOf(v), BpbOf(v), e, depth) == TableTree(v, i, depth)
  {
    ExactChain(v, i);
    RowRange(v, i);
    FileIsRead(v, i, Range(v.rows[i].priv.firstClust, v.rows[i].priv.lastClust));
  }

  lemma FileIsRead(v: Volume, i: nat, chain: seq<nat>)
    requires Readable(v) && i < |v.rows| && !v.rows[i].dir
    requires chain == Range(v.rows[i].priv.firstClust, v.rows[i].priv.lastClust)
    requires forall k | 0 <= k < |chain| :: chain[k] >= 2
    ensures ReadFile(DiskOf(v), BpbOf(v), v.rows[i].currSize, chain) == TableFile(v, i)
  {
    ClustersUsed(v, i);
    forall j | 0 <= j < 8 * |chain| ensures FileSectorVia(DiskOf(v), BpbOf(v), chain, j) == TableSector(v, i, j) {
      FileSectorFound(v, i, j);
    }
  }

  lemma ClustersUsed(v: Volume, i: nat)
    requires Readable(v) && i < |v.rows|
    ensures |Range(v.rows[i].priv.firstClust, v.rows[i].priv.lastClust)| == Used(v.rows[i])
  {
    assert v.RowLaid(i);
  }

  /** What the reader finds behind the record of each row. */
  function ReadRows(v: Volume, depth: nat): (r: seq<Tree>)
    ensures |r| == |v.rows|
  {
    seq(|v.rows|, i requires 0 <= i < |v.rows| => ReadTree(DiskOf(v), BpbOf(v), ListedRow(v, i), depth))
  }

  /** What the table has there. */
  function TableRows(v: Volume, depth: nat): (r: seq<Tree>)
    ensures |r| == |v.rows|
  {
    seq(|v.rows|, i requires 0 <= i < |v.rows| => TableTree(v, i, depth))
  }

  lemma RowFound(v: Volume, i: nat, depth: nat)
    requires i < |v.rows| && AllFound(v, depth)
    ensures ReadTree(DiskOf(v), BpbOf(v), ListedRow(v, i), depth) == TableTree(v, i, depth)
  {
    assert ReadRows(v, depth)[i] == TableRows(v, depth)[i];
  }

  predicate AllFound(v: Volume, depth: nat) {
    ReadRows(v, depth) == TableRows(v, depth)
  }

  /** From a directory record on, the reader finds the tree below the row the record describes. */
  lemma TreeFound(v: Volume, i: nat, e: Listed, depth: nat, below: nat)
    requires Readable(v) && Ordinary(v) && i < |v.rows| && Describes(v, e, i)
    requires depth == 0 || (depth == below + 1 && AllFound(v, below))
    ensures ReadTree(DiskOf(v), BpbOf(v), e, depth) == TableTree(v, i, depth)
  {
    if !v.rows[i].dir {
      FileFound(v, i, e, depth);
    } else if depth > 0 {
      DirectoryFound(v, i, e, depth, below);
    } else {
      DepthExhausted(v, i, e);
    }
  }

  lemma DepthExhausted(v: Volume, i: nat, e: Listed)
    requires i < |v.rows| && v.rows[i].dir && Describes(v, e, i)
    ensures ReadTree(DiskOf(v), BpbOf(v), e, 0) == TableTree(v, i, 0)
  {
  }

  lemma {:induction false} EveryRowFound(v: Volume, depth: nat)
    requires Readable(v) && Ordinary(v)
    ensures AllFound(v, depth)
    decreases depth
  {
    if depth > 0 {
      var below := depth - 1;
      EveryRowFound(v, below);
      RowsFound(v, depth, below);
    } else {
      RowsFound(v, 0, 0);
    }
  }

  lemma RowsFound(v: Volume, depth: nat, below: nat)
    requires Readable(v) && Ordinary(v)
    requires depth == 0 || (depth == below + 1 && AllFound(v, below))
    ensures AllFound(v, depth)
  {
    forall i | 0 <= i < |v.rows| ensures ReadRows(v, depth)[i] == TableRows(v, depth)[i] {
      OneRowFound(v, i, depth, below);
    }
  }

  lemma OneRowFound(v: Volume, i: nat, depth: nat, below: nat)
    requires Readable(v) && Ordinary(v) && i < |v.rows|
    requires depth == 0 || (depth == below + 1 && AllFound(v, below))
    ensures ReadRows(v, depth)[i] == TableRows(v, depth)[i]
  {
    TreeFound(v, i, ListedRow(v, i), depth, below);
  }

  lemma DirectoryFound(v: Volume, i: nat, e: Listed, depth: nat, below: nat)
    requires Readable(v) && Ordinary(v) && i < |v.rows| && v.rows[i].dir && Describes(v, e, i)
    requires depth == below + 1 && AllFound(v, below)
    ensures ReadTree(DiskOf(v), BpbOf(v), e, depth) == TableTree(v, i, depth)
  {
    RowRange(v, i);
    ExactChain(v, i);
    DirectoryLists(v, i);
    var kids := ChildrenIn(v.rows, i, |v.rows|);
    SubtreesFound(v, kids, below);
    DirectoryRead(DiskOf(v), BpbOf(v), e, depth, below,
      Range(v.rows[i].priv.firstClust, v.rows[i].priv.lastClust), ListedRows(v, kids));
    DirectoryShown(v, i, depth, below);
  }

  lemma DirectoryRead(disk: Disk, b: Bpb, e: Listed, depth: nat, below: nat, chain: seq<nat>, kids: seq<Listed>)
    requires IsDir(e.attr) && depth == below + 1
    requires chain == Chain(FatOf(disk, b), e.clust, b.Clusters()) && kids == List(Slots(disk, b, chain))
    ensures ReadTree(disk, b, e, depth) == ReadDirectory(disk, b, kids, below)
  {
    assert depth - 1 == below;
  }

  lemma DirectoryShown(v: Volume, i: nat, depth: nat, below: nat)
    requires i < |v.rows| && v.rows[i].dir && depth == below + 1
    ensures TableTree(v, i, depth) == TableDirectory(v, ChildrenIn(v.rows, i, |v.rows|), below)
  {
    assert depth - 1 == below;
  }

  lemma SubtreesFound(v: Volume, kids: seq<nat>, below: nat)
    requires AllFound(v, below) && forall k | 0 <= k < |kids| :: kids[k] < |v.rows|
    ensures ReadDirectory(DiskOf(v), BpbOf(v), ListedRows(v, kids), below) == TableDirectory(v, kids, below)
  {
    forall k | 0 <= k < |kids|
      ensures ReadTree(DiskOf(v), BpbOf(v), ListedRows(v, kids)[k], below) == TableTree(v, kids[k], below)
    {
      RowFound(v, kids[k], below);
    }
  }

  lemma RootFound(v: Volume, depth: nat)
    requires Readable(v) && Ordinary(v)
    ensures ReadTree(DiskOf(v), BpbOf(v), Listed([], ATTR_DIR, 2, 0), depth) == TableTree(v, 0, depth)
  {
    RootDescribed(v);
    var below := if depth > 0 then depth - 1 else 0;
    EveryRowFound(v, below);
    TreeFound(v, 0, Listed([], ATTR_DIR, 2, 0), depth, below);
  }

  lemma RootDescribed(v: Volume)
    requires Readable(v)
    ensures Describes(v, Listed([], ATTR_DIR, 2, 0), 0)
  {
    assert v.RowLaid(0);
  }

  /** A FAT32 reader that starts from the partition table finds the table's tree: every directory with its children in
      table order, every file with its size and with each sector coming from its callback. */
  lemma DiskShowsTheTable(v: Volume, depth: nat)
    requires Readable(v) && Ordinary(v)
    ensures var b := Mount(DiskOf(v));
      ReadTree(DiskOf(v), b, Listed([], ATTR_DIR, b.rootCluster, 0), depth) == TableTree(v, 0, depth)
  {
    MountIs(v);
    RootFound(v, depth);
  }

  /** A tree whose every directory was read, and whose every file has the sectors for all its bytes. */
  predicate Whole(t: Tree) {
    match t
    case File(size, sectors) => size <= 512 * |sectors|
    case TooDeep => false
    case Dir(_, kids) => forall k | 0 <= k < |kids| :: Whole(kids[k])
  }

  lemma FileIsWhole(v: Volume, i: nat)
    requires Readable(v) && i < |v.rows| && !v.rows[i].dir
    ensures Whole(TableFile(v, i))
  {
    ClustersHoldFile(v, i);
    ClustersUsed(v, i);
  }

  ghost predicate LevelsWithin(v: Volume, i: nat, depth: nat)
    requires i < |v.rows|
  {
    forall k | 0 <= k < |v.rows| :: v.rows[k].level < v.rows[i].level + depth
  }

  /** A depth past the greatest level cuts nothing off. */
  lemma {:induction false} NothingTooDeep(v: Volume, i: nat, depth: nat)
    requires Readable(v) && i < |v.rows| && LevelsWithin(v, i, depth)
    ensures Whole(TableTree(v, i, depth))
    decreases depth
  {
    if !v.rows[i].dir {
      FileIsWhole(v, i);
    } else {
      assert v.rows[i].level < v.rows[i].level + depth;
      var kids, below := ChildrenIn(v.rows, i, |v.rows|), depth - 1;
      forall k | 0 <= k < |kids| ensures Whole(TableTree(v, kids[k], below)) {
        assert Parent(v.rows, kids[k]) == Some(i);
        NothingTooDeep(v, kids[k], below);
      }
      DirectoryShown(v, i, depth, below);
    }
  }

  /** Every level of the table is found when the depth is past the greatest level, and every file with as many sectors
      as its size takes. */
  lemma WholeDiskFound(v: Volume, depth: nat)
    requires Readable(v) && Ordinary(v) && LevelsWithin(v, 0, depth)
    ensures var b := Mount(DiskOf(v));
      Whole(ReadTree(DiskOf(v), b, Listed([], ATTR_DIR, b.rootCluster, 0), depth))
  {
    DiskShowsTheTable(v, depth);
    NothingTooDeep(v, 0, depth);
  }
}
