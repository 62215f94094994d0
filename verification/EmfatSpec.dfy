/** The virtual FAT32 disk: how the clusters of a table are laid out, and the bytes of every sector as a function of
    its number. */
module EmfatSpec {
  import opened Bytes
  import opened FatTree

  const SECT: nat := 512
  const RECORD: nat := 32

  const CLUST_FREE: nat := 0
  const CLUST_RESERVED: nat := 1
  const CLUST_ROOT_END: nat := 0x0FFFFFF8
  const CLUST_EOF: nat := 0x0FFFFFFF

  const ATTR_READ: nat := 0x01
  const ATTR_VOL_LABEL: nat := 0x08
  const ATTR_DIR: nat := 0x10
  const ATTR_ARCHIVE: nat := 0x20

  const BOOT_LBA: nat := 62
  const FSINFO_LBA: nat := 63
  const FAT1_LBA: nat := 64

  type Sector = s: seq<byte> | |s| == SECT witness seq(SECT, _ => 0)

  function Nsect(size: nat): (n: nat)
    ensures n >= 1 && size <= 512 * n
  {
    if size == 0 then 1 else (size + 511) / 512
  }

  function Nclust(size: nat): (n: nat)
    ensures n >= 1 && size <= 4096 * n
  {
    if size == 0 then 1 else (size + 4095) / 4096
  }

  // ---- Cluster layout ----

  function Reserved(e: Entry): (n: nat)
    ensures n >= 1
  {
    if e.dir then Nclust(32 * e.priv.numSubentry) else Nclust(e.maxSize)
  }

  function Used(e: Entry): (n: nat)
    ensures n >= 1
  {
    if e.dir then Nclust(32 * e.priv.numSubentry) else Nclust(e.currSize)
  }

  /** The first cluster not reserved by the first `i` rows. */
  function Start(rows: seq<Entry>, i: nat): (c: nat)
    requires i <= |rows|
    ensures c >= 2
  {
    if i == 0 then 2 else Start(rows, i - 1) + Reserved(rows[i - 1])
  }

  /** A row whose clusters start at `clust`. */
  function PlaceAt(e: Entry, clust: nat): Entry {
    var last := clust + Used(e) - 1;
    if e.dir then
      e.(currSize := 0, maxSize := 0, priv := e.priv.(firstClust := clust, lastClust := last, lastReserved := last))
    else e.(priv := e.priv.(firstClust := clust, lastClust := last, lastReserved := clust + Nclust(e.maxSize) - 1))
  }

  function PlacedRow(rows: seq<Entry>, i: nat): Entry
    requires i < |rows|
  {
    PlaceAt(rows[i], Start(rows, i))
  }

  function Placed(rows: seq<Entry>, n: nat): (r: seq<Entry>)
    requires n <= |rows|
    ensures |r| == |rows|
  {
    seq(|rows|, j requires 0 <= j < |rows| => if j < n then PlacedRow(rows, j) else rows[j])
  }

  lemma {:induction false} StartGrows(rows: seq<Entry>, i: nat, j: nat)
    requires i <= j <= |rows|
    ensures Start(rows, i) + (j - i) <= Start(rows, j)
  {
    if i < j {
      StartGrows(rows, i, j - 1);
    }
  }

  // ---- The FAT and the disk geometry ----

  /** A linked and placed table. */
  datatype Volume = Volume(rows: seq<Entry>, volumeLabel: seq<byte>, numClust: nat, sectPerFat: nat,
                           callback: (nat, nat, nat) -> Sector)
  {
    function Fat2Lba(): nat {
      FAT1_LBA + sectPerFat
    }

    function RootLba(): nat {
      FAT1_LBA + sectPerFat + sectPerFat
    }

    function DiskSectors(): nat {
      numClust * 8 + RootLba()
    }

    /** Every row's clusters follow the clusters reserved by the row before it. */
    ghost predicate Laid() {
      && Accepts(rows)
      && numClust + 2 == Start(rows, |rows|) && sectPerFat == Nsect(numClust * 4)
      && forall i | 0 <= i < |rows| :: RowLaid(i)
    }

    ghost predicate RowLaid(i: nat)
      requires i < |rows|
    {
      TreeLaid(i) && ClustersLaid(i)
    }

    /** The links of row `i` are those of the tree. */
    ghost predicate TreeLaid(i: nat)
      requires i < |rows|
    {
      var p := rows[i].priv;
      && p.top == Parent(rows, i) && p.sub == SubIn(rows, i, |rows|) && p.next == NextIn(rows, i, |rows|)
      && p.numSubentry == NumSub(rows, i, |rows|)
    }

    ghost predicate ClustersLaid(i: nat)
      requires i < |rows|
    {
      var p := rows[i].priv;
      && p.firstClust == Start(rows, i) && p.lastClust == Start(rows, i) + Used(rows[i]) - 1
      && p.lastReserved == Start(rows, i) + Reserved(rows[i]) - 1
    }

    predicate IsClustOf(clust: nat, i: nat)
      requires i < |rows|
    {
      rows[i].priv.firstClust <= clust <= rows[i].priv.lastReserved
    }

    /** The row among the first `n` that reserves a cluster. */
    function OwnerIn(clust: nat, n: nat): (r: Option<nat>)
      requires n <= |rows|
      ensures match r
        case None => forall i | 0 <= i < n :: !IsClustOf(clust, i)
        case Some(i) => i < n && IsClustOf(clust, i)
    {
      if n == 0 then None else if IsClustOf(clust, n - 1) then Some(n - 1) else OwnerIn(clust, n - 1)
    }

    function Owner(clust: nat): (r: Option<nat>)
      ensures r.Some? ==> r.value < |rows| && IsClustOf(clust, r.value)
    {
      OwnerIn(clust, |rows|)
    }

    /** The FAT's word for a cluster owned by row `i`. */
    function OwnedValue(clust: nat, i: nat): nat
      requires i < |rows|
    {
      var e := rows[i];
      if clust == e.priv.lastClust then CLUST_EOF
      else if !e.dir && clust > e.priv.lastClust then CLUST_FREE
      else clust + 1
    }

    function FatValue(clust: nat): nat {
      if clust == 0 then CLUST_ROOT_END
      else if clust == 1 then 0xFFFFFFFF
      else match Owner(clust)
        case None => CLUST_RESERVED
        case Some(i) => OwnedValue(clust, i)
    }

    /** `n` words of the FAT from the word of cluster `first` on. */
    function FatWords(first: nat, n: nat): (s: seq<byte>)
      ensures |s| == 4 * n
    {
      Words((clust: nat) => FatValue(clust), first, n)
    }

    function FatSector(index: nat): Sector {
      FatWords(index * 128, 128)
    }

    // ---- Directories ----

    function ChildRecord(i: nat): Record
      requires i < |rows|
    {
      var e := rows[i];
      if e.dir then Record(e.name, ATTR_DIR + ATTR_READ, e.priv.firstClust, Times(e), 0)
      else Record(e.name, ATTR_ARCHIVE + ATTR_READ, e.priv.firstClust, Times(e), e.currSize)
    }

    /** The records before the children: the volume label in the root, the two dot records elsewhere. */
    function Header(i: nat): (s: seq<Record>)
      requires i < |rows|
      ensures |s| == HeaderCount(i)
    {
      match rows[i].priv.top
      case None => [Record(volumeLabel, ATTR_VOL_LABEL, 0, NO_TIMES, 0)]
      case Some(p) =>
        [Record(DOT, ATTR_DIR + ATTR_READ, rows[i].priv.firstClust, NO_TIMES, 0),
         Record(DOT + DOT, ATTR_DIR + ATTR_READ, if p < |rows| then rows[p].priv.firstClust else 0, NO_TIMES, 0)]
    }

    function HeaderCount(i: nat): (n: nat)
      requires i < |rows|
      ensures 1 <= n <= 2
    {
      if rows[i].priv.top.None? then 1 else 2
    }

    /** The records of at most `room` rows, following next links from `start`. */
    function Records(start: Option<nat>, room: nat): (s: seq<Record>)
      ensures |s| <= room
      decreases room
    {
      if start.None? || room == 0 || start.value >= |rows| then []
      else [ChildRecord(start.value)] + Records(rows[start.value].priv.next, room - 1)
    }

    /** Following `n` next links. */
    function Skip(start: Option<nat>, n: nat): (r: Option<nat>)
      decreases n
    {
      if start.None? || n == 0 || start.value >= |rows| then start else Skip(rows[start.value].priv.next, n - 1)
    }

    ghost predicate LinksForward() {
      forall i | 0 <= i < |rows| :: LinkedForward(i)
    }

    predicate LinkedForward(i: nat)
      requires i < |rows|
    {
      var p := rows[i].priv;
      && (p.top.Some? ==> p.top.value < |rows|) && (p.sub.Some? ==> p.sub.value < |rows|)
      && (p.next.Some? ==> i < p.next.value < |rows|)
    }

    /** The records in sector `rel` of the directory at row `i`. */
    function DirRecords(i: nat, rel: nat): (s: seq<Record>)
      requires i < |rows|
      ensures |s| <= 16
    {
      if rel == 0 then Header(i) + Records(rows[i].priv.sub, 16 - HeaderCount(i))
      else Records(Skip(rows[i].priv.sub, rel * 16 - HeaderCount(i)), 16)
    }

    function DirSector(i: nat, rel: nat): Sector
      requires i < |rows|
    {
      Padded(Encoded(DirRecords(i, rel)))
    }

    // ---- Data and whole disk ----

    function FileSector(e: Entry, clust: nat, rel: nat): Sector
      requires e.priv.firstClust <= clust
    {
      match e.readcb
      case None => Zeros(SECT)
      case Some(cb) => callback(cb, (clust - e.priv.firstClust) * 4096 + rel * 512 + e.offset, e.userData)
    }

    function DataSector(rel: nat): Sector
    {
      ClusterData(rel / 8 + 2, rel % 8)
    }

    /** Sector `rel` of a cluster. */
    function ClusterData(clust: nat, rel: nat): Sector {
      match Owner(clust)
      case None => NoOwner(128)
      case Some(i) => if rows[i].dir then DirSector(i, rel) else FileSector(rows[i], clust, rel)
    }

    function SectorAt(n: nat): Sector
    {
      if n >= RootLba() then DataSector(n - RootLba()) else SystemSector(n)
    }

    /** The sectors before the data area. */
    function SystemSector(n: nat): Sector
      requires n < RootLba()
    {
      if FAT1_LBA <= n then FatSector(if n < Fat2Lba() then n - FAT1_LBA else n - Fat2Lba()) else FixedSector(n)
    }

    function FixedSector(n: nat): Sector
      requires n < FAT1_LBA
    {
      if n == 0 then MbrSector(DiskSectors())
      else if n == FSINFO_LBA then FsinfoSector(numClust)
      else if n == BOOT_LBA then BootSector(DiskSectors(), sectPerFat)
      else Zeros(SECT)
    }
  }

  /** A buffer that holds a zero-padded sector takes the next record at the end of what it holds. */
  lemma PadMore(image: seq<byte>, at: nat, s: seq<byte>, more: seq<byte>)
    requires |s| + |more| <= SECT && at + SECT <= |image|
    ensures WriteAt(WriteAt(image, at, Padded(s)), at + |s|, more) == WriteAt(image, at, Padded(s + more))
  {
  }

  // ---- From a table to its volume ----

  /** The volume that emfat_init makes of a table. */
  function VolumeOf(rows: seq<Entry>, volumeLabel: seq<byte>, callback: (nat, nat, nat) -> Sector): Volume {
    var linked := Linked(rows, |rows|);
    NewVolume(Placed(linked, |rows|), Start(linked, |rows|), volumeLabel, callback)
  }

  /** The volume of a table whose rows are placed, where `clust` is the first cluster past the last row's. */
  function NewVolume(placed: seq<Entry>, clust: nat, volumeLabel: seq<byte>,
                     callback: (nat, nat, nat) -> Sector): Volume
    requires clust >= 2
  {
    Volume(placed, volumeLabel, clust - 2, Nsect((clust - 2) * 4), callback)
  }

  ghost predicate SameShape(a: seq<Entry>, b: seq<Entry>) {
    |a| == |b| && forall i | 0 <= i < |a| :: a[i].level == b[i].level && a[i].dir == b[i].dir
  }

  lemma {:induction false} SameLastBelow(a: seq<Entry>, b: seq<Entry>, n: nat, level: int)
    requires SameShape(a, b) && n <= |a|
    ensures LastBelow(a, n, level) == LastBelow(b, n, level)
  {
    if n > 0 {
      SameLastBelow(a, b, n - 1, level);
    }
  }

  lemma {:induction false} SameNext(a: seq<Entry>, b: seq<Entry>, j: nat, n: nat)
    requires SameShape(a, b) && j < |a| && n <= |a|
    ensures NextIn(a, j, n) == NextIn(b, j, n)
  {
    if n > j + 1 {
      SameNext(a, b, j, n - 1);
      assert Open(a, j, n - 1) == Open(b, j, n - 1);
    }
  }

  lemma {:induction false} SameChildren(a: seq<Entry>, b: seq<Entry>, p: nat, n: nat)
    requires SameShape(a, b) && n <= |a|
    ensures ChildrenIn(a, p, n) == ChildrenIn(b, p, n)
  {
    if n > 0 {
      SameChildren(a, b, p, n - 1);
      SameLastBelow(a, b, n - 1, a[n - 1].level);
    }
  }

  lemma {:induction false} SameStart(a: seq<Entry>, b: seq<Entry>, i: nat)
    requires |a| == |b| && i <= |a| && forall k | 0 <= k < |a| :: Reserved(a[k]) == Reserved(b[k])
    ensures Start(a, i) == Start(b, i)
  {
    if i > 0 {
      SameStart(a, b, i - 1);
    }
  }

  lemma VolumeShape(rows: seq<Entry>)
    ensures SameShape(rows, Placed(Linked(rows, |rows|), |rows|))
  {
  }

  lemma VolumeTree(rows: seq<Entry>, volumeLabel: seq<byte>, callback: (nat, nat, nat) -> Sector, i: nat)
    requires i < |rows|
    ensures VolumeOf(rows, volumeLabel, callback).TreeLaid(i)
  {
    var placed := Placed(Linked(rows, |rows|), |rows|);
    VolumeShape(rows);
    SameLastBelow(rows, placed, i, rows[i].level);
    SameNext(rows, placed, i, |rows|);
    SameChildren(rows, placed, i, |rows|);
    TreeAt(rows, placed, i);
  }

  lemma TreeAt(rows: seq<Entry>, placed: seq<Entry>, i: nat)
    requires i < |rows| && placed == Placed(Linked(rows, |rows|), |rows|) && SameShape(rows, placed)
    ensures placed[i].priv.top == Parent(rows, i) && placed[i].priv.sub == SubIn(placed, i, |rows|)
    ensures placed[i].priv.next == NextIn(rows, i, |rows|) && placed[i].priv.numSubentry == NumSub(rows, i, |rows|)
  {
    var linked := Linked(rows, |rows|);
    assert placed[i] == PlacedRow(linked, i);
    assert linked[i] == LinkedRow(rows, i, |rows|);
  }

  lemma PlacedClusters(linked: seq<Entry>, i: nat)
    requires i < |linked|
    ensures var placed := Placed(linked, |linked|);
      && Reserved(placed[i]) == Reserved(linked[i]) && Used(placed[i]) == Used(linked[i])
      && placed[i].priv.firstClust == Start(linked, i)
      && placed[i].priv.lastClust == Start(linked, i) + Used(linked[i]) - 1
      && placed[i].priv.lastReserved == Start(linked, i) + Reserved(linked[i]) - 1
  {
    assert Placed(linked, |linked|)[i] == PlacedRow(linked, i);
  }

  lemma PlacedStart(linked: seq<Entry>, i: nat)
    requires i <= |linked|
    ensures Start(linked, i) == Start(Placed(linked, |linked|), i)
  {
    forall k | 0 <= k < |linked| ensures Reserved(linked[k]) == Reserved(Placed(linked, |linked|)[k]) {
      PlacedClusters(linked, k);
    }
    SameStart(linked, Placed(linked, |linked|), i);
  }

  lemma VolumeClusters(rows: seq<Entry>, volumeLabel: seq<byte>, callback: (nat, nat, nat) -> Sector, i: nat)
    requires i < |rows|
    ensures VolumeOf(rows, volumeLabel, callback).ClustersLaid(i)
  {
    PlacedStart(Linked(rows, |rows|), i);
    PlacedClusters(Linked(rows, |rows|), i);
  }

  lemma VolumeAccepts(rows: seq<Entry>)
    requires Accepts(rows)
    ensures Accepts(Placed(Linked(rows, |rows|), |rows|))
  {
    var placed := Placed(Linked(rows, |rows|), |rows|);
    VolumeShape(rows);
    forall i | 0 < i < |placed| ensures FollowsOn(placed, i) {
      assert FollowsOn(rows, i);
    }
  }

  lemma VolumeIsLaid(rows: seq<Entry>, volumeLabel: seq<byte>, callback: (nat, nat, nat) -> Sector)
    requires Accepts(rows)
    ensures VolumeOf(rows, volumeLabel, callback).Laid() && VolumeOf(rows, volumeLabel, callback).LinksForward()
  {
    var v := VolumeOf(rows, volumeLabel, callback);
    VolumeAccepts(rows);
    PlacedStart(Linked(rows, |rows|), |rows|);
    forall i | 0 <= i < |rows| ensures v.RowLaid(i) && v.LinkedForward(i) {
      VolumeTree(rows, volumeLabel, callback, i);
      VolumeClusters(rows, volumeLabel, callback, i);
    }
  }

  type Disk = nat -> Sector

  /** The whole disk: every sector by its number. */
  function DiskOf(v: Volume): Disk {
    (n: nat) => v.SectorAt(n)
  }

  /** `n` consecutive sectors. */
  function Sectors(disk: Disk, first: nat, n: nat): (s: seq<byte>)
    ensures |s| == 512 * n
  {
    if n == 0 then [] else Sectors(disk, first, n - 1) + disk(first + n - 1)
  }

  /** Reading several sectors at once gives what reading each of them alone gives. */
  lemma {:induction false} EachSector(disk: Disk, first: nat, n: nat, k: nat)
    requires k < n
    ensures Sectors(disk, first, n)[512 * k..512 * k + 512] == disk(first + k) == Sectors(disk, first + k, 1)
  {
    SliceOfJoin(Sectors(disk, first, n - 1), disk(first + n - 1), 512 * k, 512);
    assert Sectors(disk, first + k, 0) == [];
    if k < n - 1 {
      EachSector(disk, first, n - 1, k);
    }
  }

  function NoOwner(n: nat): (s: seq<byte>)
    ensures |s| == 4 * n
  {
    if n == 0 then [] else NoOwner(n - 1) + [0xDE, 0xAD, 0xBE, 0xEF]
  }

  /** `n` consecutive 32-bit words of a table. */
  function Words(value: nat -> nat, first: nat, n: nat): (s: seq<byte>)
    ensures |s| == 4 * n
  {
    if n == 0 then [] else Words(value, first, n - 1) + LeBytes(value(first + n - 1), 4)
  }

  lemma {:induction false} WordAt(value: nat -> nat, first: nat, n: nat, k: nat)
    requires k < n
    ensures Words(value, first, n)[4 * k..4 * k + 4] == LeBytes(value(first + k), 4)
  {
    SliceOfJoin(Words(value, first, n - 1), LeBytes(value(first + n - 1), 4), 4 * k, 4);
    if k < n - 1 {
      WordAt(value, first, n - 1, k);
    }
  }

  // ---- Directory records ----

  const DOT: seq<byte> := [0x2E]

  datatype Stamps = Stamps(created: nat, modified: nat, accessed: nat)

  function Times(e: Entry): Stamps {
    Stamps(e.created, e.modified, e.accessed)
  }

  /** The position of the last dot of a name. */
  function LastDot(name: seq<byte>): (r: Option<nat>)
    ensures match r
      case None => forall k | 0 <= k < |name| :: name[k] != 0x2E
      case Some(i) => i < |name| && name[i] == 0x2E && forall k | i < k < |name| :: name[k] != 0x2E
  {
    if |name| == 0 then None
    else if name[|name| - 1] == 0x2E then Some(|name| - 1)
    else LastDot(name[..|name| - 1])
  }

  function Field(s: seq<byte>, n: nat): (r: seq<byte>)
    ensures |r| == n
  {
    if |s| > n then s[..n] else s + seq(n - |s|, _ => 0x20)
  }

  function Upper(c: byte): byte {
    if 0x61 <= c <= 0x7A then c - 0x20 else c
  }

  function ShortName(name: seq<byte>, dir: bool): (r: seq<byte>)
    ensures |r| == 11
  {
    var dot := if dir then None else LastDot(name);
    var raw := match dot
      case None => Field(name, 8) + Field([], 3)
      case Some(i) => Field(name[..i], 8) + Field(name[i + 1..], 3);
    seq(11, k requires 0 <= k < 11 => Upper(raw[k]))
  }

  const NO_TIMES: Stamps := Stamps(0, 0, 0)

  /** What a 32-byte directory record says. */
  datatype Record = Record(name: seq<byte>, attr: byte, clust: nat, times: Stamps, size: nat)

  function RecordBytes(r: Record): (s: seq<byte>)
    ensures |s| == RECORD
  {
    RecordJoined(r);
    JoinAll(RecordParts(r))
  }

  function RecordParts(r: Record): (p: seq<seq<byte>>)
    ensures |p| == 8
  {
    [ShortName(r.name, r.attr / 0x10 % 2 == 1), [r.attr, 24, 0],
     Le16(r.times.created) + Le16(r.times.created / 0x1_0000), Le16(r.times.accessed / 0x1_0000),
     Le16(r.clust / 0x1_0000), Le16(r.times.modified) + Le16(r.times.modified / 0x1_0000), Le16(r.clust),
     LeBytes(r.size, 4)]
  }

  lemma RecordJoined(r: Record)
    ensures var p := RecordParts(r);
      JoinAll(p) == p[0] + (p[1] + (p[2] + (p[3] + (p[4] + (p[5] + (p[6] + p[7])))))) && |JoinAll(p)| == RECORD
  {
    JoinEight(RecordParts(r));
  }

  function Encodings(records: seq<Record>): (r: seq<seq<byte>>)
    ensures |r| == |records| && forall k | 0 <= k < |r| :: |r[k]| == RECORD
  {
    seq(|records|, k requires 0 <= k < |records| => RecordBytes(records[k]))
  }

  function Encoded(records: seq<Record>): (s: seq<byte>)
    ensures |s| == 32 * |records|
  {
    JoinedLength(Encodings(records), 32);
    JoinAll(Encodings(records))
  }

  function Padded(s: seq<byte>): Sector
    requires |s| <= SECT
  {
    s + Zeros(SECT - |s|)
  }

  // ---- The sectors that describe the disk ----

  /** The cylinder, head and sector bytes of a partition table entry. */
  function LbaToChs(lba: nat): (r: (byte, byte, byte)) {
    var sector, head, cylinder := lba % 63 + 1, lba / 63 % 255, lba / (63 * 255);
    if cylinder >= 1024 then (0xFF, 0xFF, 0xFF)
    else
      BitOrDisjoint(sector, cylinder / 256, 6);
      assert Pow2(6) == 64;
      (BitOr(sector, cylinder / 256 * 64), cylinder % 256, head)
  }

  /** The sector a cylinder, head and sector address names. */
  function ChsToLba(chs: (byte, byte, byte)): int {
    ((chs.0 / 64 * 256 + chs.1) * 255 + chs.2) * 63 + chs.0 % 64 - 1
  }

  /** An address below cylinder 1024 can be read back from its three bytes. */
  lemma ChsRoundTrip(lba: nat)
    requires lba < 1024 * 255 * 63
    ensures ChsToLba(LbaToChs(lba)) == lba
  {
    var sector, cylinder := lba % 63 + 1, lba / (63 * 255);
    assert Pow2(6) == 64;
    BitOrDisjoint(sector, cylinder / 256, 6);
    var first := sector + cylinder / 256 * 64;
    assert LbaToChs(lba).0 == first && first / 64 == cylinder / 256 && first % 64 == sector;
    assert lba / 63 / 255 == cylinder;
  }

  function MbrSector(diskSectors: nat): Sector
    requires diskSectors > BOOT_LBA
  {
    MbrJoined(diskSectors);
    JoinAll(MbrParts(diskSectors))
  }

  function MbrParts(diskSectors: nat): (p: seq<seq<byte>>)
    requires diskSectors > BOOT_LBA
    ensures |p| == 8
  {
    var start, end := LbaToChs(BOOT_LBA), LbaToChs(diskSectors - 1);
    [Zeros(446), [0x80, start.2, start.0, start.1], [0x0C, end.2, end.0, end.1],
     LeBytes(BOOT_LBA, 4), LeBytes(diskSectors - BOOT_LBA, 4), Zeros(32), Zeros(16), [0x55, 0xAA]]
  }

  lemma MbrJoined(diskSectors: nat)
    requires diskSectors > BOOT_LBA
    ensures var p := MbrParts(diskSectors);
      JoinAll(p) == p[0] + (p[1] + (p[2] + (p[3] + (p[4] + (p[5] + (p[6] + p[7])))))) && |JoinAll(p)| == SECT
  {
    JoinEight(MbrParts(diskSectors));
  }

  function BootSector(diskSectors: nat, sectPerFat: nat): Sector
    requires diskSectors > BOOT_LBA
  {
    BootJoined(diskSectors, sectPerFat);
    JoinAll(BootParts(diskSectors, sectPerFat))
  }

  function BootParts(diskSectors: nat, sectPerFat: nat): (p: seq<seq<byte>>)
    requires diskSectors > BOOT_LBA
    ensures |p| == 8
  {
    [[0xEB, 0x58, 0x90, 0x4D, 0x53, 0x44, 0x4F, 0x53, 0x35, 0x2E, 0x30],
     Le16(SECT) + [8] + Le16(2) + [2],
     Le16(0) + Le16(0) + [0xF8] + Le16(0) + Le16(63) + Le16(0xFF) + LeBytes(62, 4),
     LeBytes(diskSectors - BOOT_LBA, 4), LeBytes(sectPerFat, 4), Le16(0) + [0, 0], LeBytes(2, 4),
     BootTail()]
  }

  function BootTail(): (s: seq<byte>)
    ensures |s| == 464
  {
    Le16(1) + Le16(0) + Zeros(12) + [128, 0, 0x29, 148, 14, 13, 8]
    + [0x4E, 0x4F, 0x20, 0x4E, 0x41, 0x4D, 0x45, 0x20, 0x20, 0x20, 0x20]
    + [0x46, 0x41, 0x54, 0x33, 0x32, 0x20, 0x20, 0x20] + Zeros(420) + [0x55, 0xAA]
  }

  lemma BootJoined(diskSectors: nat, sectPerFat: nat)
    requires diskSectors > BOOT_LBA
    ensures var p := BootParts(diskSectors, sectPerFat);
      JoinAll(p) == p[0] + (p[1] + (p[2] + (p[3] + (p[4] + (p[5] + (p[6] + p[7])))))) && |JoinAll(p)| == SECT
  {
    JoinEight(BootParts(diskSectors, sectPerFat));
  }

  function FsinfoSector(numClust: nat): Sector {
    FsinfoJoined(numClust);
    JoinAll(FsinfoParts(numClust))
  }

  function FsinfoParts(numClust: nat): (p: seq<seq<byte>>)
    ensures |p| == 8
  {
    [LeBytes(0x41615252, 4), Zeros(240), Zeros(240), LeBytes(0x61417272, 4), LeBytes(0, 4), LeBytes(numClust + 2, 4),
     Zeros(12), LeBytes(0xAA550000, 4)]
  }

  lemma FsinfoJoined(numClust: nat)
    ensures |JoinAll(FsinfoParts(numClust))| == SECT
  {
    JoinEight(FsinfoParts(numClust));
  }
}
