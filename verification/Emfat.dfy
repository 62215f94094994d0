/** The virtual disk as the firmware runs it: the table is laid out in place, and each sector is synthesised into the
    caller's buffer, with the row found last as the starting point of the next search. */
module Emfat {
  import opened Bytes
  import opened FatTree
  import opened EmfatSpec

  /** The loop of emfat_init: gives every row its clusters. */
  method PlaceEntries(entries: array<Entry>) returns (clust: nat)
    modifies entries
    ensures entries[..] == Placed(old(entries[..]), entries.Length)
    ensures clust == Start(old(entries[..]), entries.Length)
  {
    ghost var rows := entries[..];
    clust := 2;
    var i := 0;
    while i < entries.Length
      invariant i <= entries.Length
      invariant entries[..] == Placed(rows, i) && clust == Start(rows, i)
    {
      PlaceOne(rows, i);
      entries[i] := PlaceAt(entries[i], clust);
      clust := entries[i].priv.lastReserved + 1;
      i := i + 1;
    }
  }

  lemma PlaceOne(rows: seq<Entry>, i: nat)
    requires i < |rows|
    ensures Placed(rows, i)[i] == rows[i] && Placed(rows, i + 1) == Placed(rows, i)[i := PlacedRow(rows, i)]
    ensures PlacedRow(rows, i).priv.lastReserved + 1 == Start(rows, i + 1)
  {
  }

  /** The memory that the caller wants sectors read into. */
  class Buffer {
    const data: array<byte>
    ghost var contents: seq<byte>

    constructor (data: array<byte>)
      ensures Valid() && this.data == data && contents == data[..]
    {
      this.data := data;
      contents := data[..];
    }

    ghost predicate Valid()
      reads this, data
    {
      data[..] == contents
    }

    method Put(at: nat, s: seq<byte>)
      requires Valid() && at + |s| <= |contents|
      modifies this, data
      ensures Valid() && contents == Stored(old(contents), at, s)
    {
      forall k | 0 <= k < |s| {
        data[at + k] := s[k];
      }
      contents := data[..];
      assert contents == WriteAt(old(contents), at, s);
      StoredIsWritten(old(contents), at, s);
    }
  }

  /** The length of a name up to its last dot, if it has one. */
  method FindLastDot(name: seq<byte>) returns (dot: Option<nat>)
    ensures dot == LastDot(name)
  {
    var i: int := |name| - 1;
    while i >= 0
      invariant -1 <= i < |name|
      invariant LastDot(name) == LastDot(name[..i + 1])
    {
      assert name[..i + 1][..i] == name[..i];
      if name[i] == 0x2E {
        return Some(i);
      }
      i := i - 1;
    }
    return None;
  }

  /** The eleven characters of a record's name. */
  method MakeShortName(name: seq<byte>, dir: bool) returns (r: seq<byte>)
    ensures r == ShortName(name, dir)
  {
    var dot: Option<nat> := None;
    if !dir {
      dot := FindLastDot(name);
    }
    var raw := match dot
      case None => Field(name, 8) + Field([], 3)
      case Some(i) => Field(name[..i], 8) + Field(name[i + 1..], 3);
    r := [];
    for i := 0 to 11
      invariant |r| == i && forall k | 0 <= k < i :: r[k] == Upper(raw[k])
    {
      r := r + [Upper(raw[i])];
    }
  }

  /** Reserved ranges follow one another. */
  lemma RangesApart(v: Volume, i: nat, j: nat)
    requires v.Laid() && i < j < |v.rows|
    ensures v.rows[i].priv.firstClust <= v.rows[i].priv.lastReserved < v.rows[j].priv.firstClust
  {
    RowEnds(v, i);
    RowEnds(v, j);
    StartGrows(v.rows, i + 1, j);
  }

  lemma RowEnds(v: Volume, i: nat)
    requires v.Laid() && i < |v.rows|
    ensures v.rows[i].priv.firstClust == Start(v.rows, i) <= v.rows[i].priv.lastReserved
    ensures v.rows[i].priv.lastReserved + 1 == Start(v.rows, i + 1)
  {
    assert v.RowLaid(i);
  }

  lemma {:induction false} OwnerInIs(v: Volume, clust: nat, i: nat, n: nat)
    requires v.Laid() && i < n <= |v.rows| && v.IsClustOf(clust, i)
    ensures v.OwnerIn(clust, n) == Some(i)
  {
    if i < n - 1 {
      RangesApart(v, i, n - 1);
      OwnerInIs(v, clust, i, n - 1);
    }
  }

  /** No cluster has two owners. */
  lemma OwnerIs(v: Volume, clust: nat, i: nat)
    requires v.Laid() && i < |v.rows| && v.IsClustOf(clust, i)
    ensures v.Owner(clust) == Some(i)
  {
    OwnerInIs(v, clust, i, |v.rows|);
  }

  /** A cluster before a row's first cluster that no row up to that one owns has no owner. */
  lemma NoOwnerBelow(v: Volume, clust: nat, nearest: nat)
    requires v.Laid() && nearest < |v.rows| && clust < v.rows[nearest].priv.firstClust
    requires forall k | 0 <= k <= nearest :: !v.IsClustOf(clust, k)
    ensures v.Owner(clust) == None
  {
    match v.Owner(clust)
    case None =>
    case Some(k) => RangesApart(v, nearest, k);
  }

  lemma NoOwnerAbove(v: Volume, clust: nat, nearest: nat)
    requires v.Laid() && nearest < |v.rows| && clust >= v.rows[nearest].priv.firstClust
    requires forall k | nearest <= k < |v.rows| :: !v.IsClustOf(clust, k)
    ensures v.Owner(clust) == None
  {
    match v.Owner(clust)
    case None =>
    case Some(k) => RangesApart(v, k, nearest);
  }

  /** The reserved ranges cover every cluster of the disk and no other. */
  lemma {:induction false} OwnedBelow(v: Volume, clust: nat, n: nat)
    requires v.Laid() && n <= |v.rows|
    ensures v.OwnerIn(clust, n).Some? <==> 2 <= clust < Start(v.rows, n)
  {
    if n > 0 {
      assert v.RowLaid(n - 1);
      OwnedBelow(v, clust, n - 1);
    }
  }

  /** The rows' reserved ranges partition the clusters of the disk. */
  lemma RangesPartitionDisk(v: Volume, clust: nat)
    requires v.Laid()
    ensures (exists i | 0 <= i < |v.rows| :: v.IsClustOf(clust, i)) <==> 2 <= clust < v.numClust + 2
    ensures forall i, j | 0 <= i < |v.rows| && 0 <= j < |v.rows| ::
      v.IsClustOf(clust, i) && v.IsClustOf(clust, j) ==> i == j
  {
    OwnedBelow(v, clust, |v.rows|);
    forall i | 0 <= i < |v.rows| && v.IsClustOf(clust, i) ensures v.Owner(clust) == Some(i) {
      OwnerIs(v, clust, i);
    }
  }

  /** Links a table and gives its rows their clusters, in place. */
  method LayOut(entries: array<Entry>) returns (ok: bool, clust: nat)
    modifies entries
    ensures ok <==> Accepts(old(entries[..]))
    ensures ok ==>
      var linked := Linked(old(entries[..]), entries.Length);
      entries[..] == Placed(linked, entries.Length) && clust == Start(linked, entries.Length)
  {
    clust := 2;
    ok := InitEntries(entries);
    if ok {
      clust := PlaceEntries(entries);
    }
  }

  /** emfat_init. Everything the disk will ever show is fixed here, by the table alone. */
  method Init(volumeLabel: seq<byte>, entries: array<Entry>, callback: (nat, nat, nat) -> Sector)
    returns (disk: Option<Emfat>)
    modifies entries
    ensures disk.Some? <==> Accepts(old(entries[..]))
    ensures disk.Some? ==>
      disk.value.Valid() && disk.value.volume == VolumeOf(old(entries[..]), volumeLabel, callback)
  {
    ghost var rows := entries[..];
    var ok, clust := LayOut(entries);
    if !ok {
      return None;
    }
    var placed := entries[..];
    VolumeIsLaid(rows, volumeLabel, callback);
    var emfat := new Emfat(NewVolume(placed, clust, volumeLabel, callback));
    return Some(emfat);
  }

  /** The disk in use: only the row found last changes. */
  class Emfat {
    const volume: Volume
    var lastEntry: nat

    constructor (volume: Volume)
      ensures this.volume == volume && lastEntry == 0
    {
      this.volume := volume;
      lastEntry := 0;
    }

    ghost predicate Valid()
      reads this`lastEntry
    {
      volume.Laid() && volume.LinksForward() && lastEntry < |volume.rows|
    }

    /** The owner of a cluster, whichever row the search starts from. */
    method FindEntry(clust: nat, nearest: nat) returns (r: Option<nat>)
      requires Valid() && nearest < |volume.rows|
      ensures r == volume.Owner(clust)
    {
      if volume.rows[nearest].priv.firstClust > clust {
        var i: int := nearest;
        while i >= 0
          invariant -1 <= i <= nearest
          invariant forall k | i < k <= nearest :: !volume.IsClustOf(clust, k)
        {
          if volume.rows[i].priv.firstClust <= clust <= volume.rows[i].priv.lastReserved {
            OwnerIs(volume, clust, i);
            return Some(i);
          }
          i := i - 1;
        }
        NoOwnerBelow(volume, clust, nearest);
      } else {
        var i := nearest;
        while i < |volume.rows|
          invariant nearest <= i <= |volume.rows|
          invariant forall k | nearest <= k < i :: !volume.IsClustOf(clust, k)
        {
          if volume.rows[i].priv.firstClust <= clust <= volume.rows[i].priv.lastReserved {
            OwnerIs(volume, clust, i);
            return Some(i);
          }
          i := i + 1;
        }
        NoOwnerAbove(volume, clust, nearest);
      }
      return None;
    }

    /** The words 128 * index .. 128 * index + 127 of the FAT. */
    method ReadFatSector(buffer: Buffer, at: nat, index: nat)
      requires Valid() && buffer.Valid() && at + SECT <= |buffer.contents|
      modifies buffer, buffer.data, this`lastEntry
      ensures Valid() && buffer.Valid() && buffer.contents == Stored(old(buffer.contents), at, volume.FatSector(index))
    {
      ghost var was := buffer.contents;
      var first: nat, le: nat := index * 128, lastEntry;
      var k := StartFat(buffer, at, first);
      while k < 128
        invariant k <= 128 && Valid() && buffer.Valid() && le < |volume.rows| && first + k >= 2
        invariant |buffer.contents| == |was| && buffer.contents == Stored(was, at, volume.FatWords(first, k))
      {
        le := PutFatWord(buffer, at, first, k, le, was);
        k := k + 1;
      }
      lastEntry := le;
    }

    /** The two words that no cluster has; says how many words are done. */
    method StartFat(buffer: Buffer, at: nat, first: nat) returns (k: nat)
      requires buffer.Valid() && at + SECT <= |buffer.contents| && first != 1
      modifies buffer, buffer.data
      ensures buffer.Valid() && k <= 2 && first + k >= 2
      ensures buffer.contents == Stored(old(buffer.contents), at, volume.FatWords(first, k))
    {
      if first == 0 {
        FirstWords(volume, buffer.contents, at);
        buffer.Put(at, LeBytes(CLUST_ROOT_END, 4));
        buffer.Put(at + 4, LeBytes(0xFFFFFFFF, 4));
        k := 2;
      } else {
        NoWords(volume, buffer.contents, at, first);
        k := 0;
      }
    }

    method PutFatWord(buffer: Buffer, at: nat, first: nat, k: nat, le: nat, ghost was: seq<byte>) returns (next: nat)
      requires Valid() && buffer.Valid() && le < |volume.rows| && first + k >= 2 && k < 128
      requires at + SECT <= |buffer.contents| == |was| && buffer.contents == Stored(was, at, volume.FatWords(first, k))
      modifies buffer, buffer.data
      ensures Valid() && buffer.Valid() && next < |volume.rows|
      ensures buffer.contents == Stored(was, at, volume.FatWords(first, k + 1))
    {
      var value;
      value, next := ReadFatWord(first + k, le);
      NextWord(volume, was, at, first, k);
      buffer.Put(at + 4 * k, LeBytes(value, 4));
    }

    /** One pass of the loop: the word of cluster `curr`, and the row the next search starts from. */
    method ReadFatWord(curr: nat, le: nat) returns (value: nat, next: nat)
      requires Valid() && le < |volume.rows| && curr >= 2
      ensures value == volume.FatValue(curr) && next < |volume.rows|
    {
      next := le;
      if !(volume.rows[le].priv.firstClust <= curr <= volume.rows[le].priv.lastReserved) {
        var found := FindEntry(curr, le);
        if found == None {
          return CLUST_RESERVED, lastEntry;
        }
        next := found.value;
      } else {
        OwnerIs(volume, curr, le);
      }
      var e := volume.rows[next];
      if e.dir {
        value := if curr == e.priv.lastClust then CLUST_EOF else curr + 1;
      } else {
        value :=
          if curr == e.priv.lastClust then CLUST_EOF else if curr > e.priv.lastClust then CLUST_FREE else curr + 1;
      }
    }

    /** Sector `rel` of the directory at row `i`. */
    method FillDirSector(buffer: Buffer, at: nat, i: nat, rel: nat)
      requires volume.LinksForward() && buffer.Valid() && i < |volume.rows| && at + SECT <= |buffer.contents|
      modifies buffer, buffer.data
      ensures buffer.Valid() && buffer.contents == Stored(old(buffer.contents), at, volume.DirSector(i, rel))
    {
      ghost var was := buffer.contents;
      StartSector(buffer, at);
      if rel == 0 {
        FillFirst(buffer, at, i, was);
      } else {
        FillLater(buffer, at, i, rel, was);
      }
    }

    method FillFirst(buffer: Buffer, at: nat, i: nat, ghost was: seq<byte>)
      requires volume.LinksForward() && buffer.Valid() && i < |volume.rows| && Holds(buffer.contents, was, at, [])
      modifies buffer, buffer.data
      ensures buffer.Valid() && Holds(buffer.contents, was, at, volume.DirRecords(i, 0))
    {
      assert volume.LinkedForward(i);
      var count := FillHeader(buffer, at, i, was);
      FillRecords(buffer, at, volume.rows[i].priv.sub, count, volume.Header(i), was);
    }

    method FillLater(buffer: Buffer, at: nat, i: nat, rel: nat, ghost was: seq<byte>)
      requires volume.LinksForward() && buffer.Valid() && i < |volume.rows| && rel > 0
      requires Holds(buffer.contents, was, at, [])
      modifies buffer, buffer.data
      ensures buffer.Valid() && Holds(buffer.contents, was, at, volume.DirRecords(i, rel))
    {
      assert volume.LinkedForward(i);
      var skipped := rel * 16 - if volume.rows[i].priv.top == None then 1 else 2;
      var child := SkipRows(volume.rows[i].priv.sub, skipped);
      LaterRecords(volume, i, rel, child);
      FillRecords(buffer, at, child, 0, [], was);
    }

    method StartSector(buffer: Buffer, at: nat)
      requires buffer.Valid() && at + SECT <= |buffer.contents|
      modifies buffer, buffer.data
      ensures buffer.Valid() && Holds(buffer.contents, old(buffer.contents), at, [])
    {
      buffer.Put(at, Zeros(SECT));
      NothingEncoded();
    }

    method FillEntry(buffer: Buffer, at: nat, used: nat, r: Record, ghost done: seq<Record>, ghost was: seq<byte>)
      requires buffer.Valid() && |done| == used < 16 && Holds(buffer.contents, was, at, done)
      modifies buffer, buffer.data
      ensures buffer.Valid() && Holds(buffer.contents, was, at, done + [r])
    {
      var name := MakeShortName(r.name, r.attr / 0x10 % 2 == 1);
      NameFirst(r, name);
      PadRecord(was, at, done, r);
      buffer.Put(at + 32 * used, JoinAll([name] + RecordParts(r)[1..]));
    }

    /** The records before the children. */
    method FillHeader(buffer: Buffer, at: nat, i: nat, ghost was: seq<byte>) returns (count: nat)
      requires volume.LinksForward() && buffer.Valid() && i < |volume.rows| && Holds(buffer.contents, was, at, [])
      modifies buffer, buffer.data
      ensures buffer.Valid() && count == |volume.Header(i)| && Holds(buffer.contents, was, at, volume.Header(i))
    {
      if volume.rows[i].priv.top == None {
        FillTitle(buffer, at, i, was);
        count := 1;
      } else {
        FillDots(buffer, at, i, was);
        count := 2;
      }
    }

    method FillTitle(buffer: Buffer, at: nat, i: nat, ghost was: seq<byte>)
      requires buffer.Valid() && i < |volume.rows| && volume.rows[i].priv.top == None
      requires Holds(buffer.contents, was, at, [])
      modifies buffer, buffer.data
      ensures buffer.Valid() && Holds(buffer.contents, was, at, volume.Header(i))
    {
      var title := Record(volume.volumeLabel, ATTR_VOL_LABEL, 0, NO_TIMES, 0);
      assert [] + [title] == volume.Header(i);
      FillEntry(buffer, at, 0, title, [], was);
    }

    method FillDots(buffer: Buffer, at: nat, i: nat, ghost was: seq<byte>)
      requires volume.LinksForward() && buffer.Valid() && i < |volume.rows| && volume.rows[i].priv.top.Some?
      requires Holds(buffer.contents, was, at, [])
      modifies buffer, buffer.data
      ensures buffer.Valid() && Holds(buffer.contents, was, at, volume.Header(i))
    {
      assert volume.LinkedForward(i);
      var p := volume.rows[i].priv;
      var dot := Record(DOT, ATTR_DIR + ATTR_READ, p.firstClust, NO_TIMES, 0);
      var dots := Record(DOT + DOT, ATTR_DIR + ATTR_READ, volume.rows[p.top.value].priv.firstClust, NO_TIMES, 0);
      assert [] + [dot] == [dot] && [dot] + [dots] == volume.Header(i);
      FillEntry(buffer, at, 0, dot, [], was);
      FillEntry(buffer, at, 1, dots, [dot], was);
    }

    method SkipRows(start: Option<nat>, n: nat) returns (r: Option<nat>)
      requires volume.LinksForward() && (start.Some? ==> start.value < |volume.rows|)
      ensures (r.Some? ==> r.value < |volume.rows|) && r == volume.Skip(start, n)
    {
      r := start;
      var left: nat := n;
      while left > 0 && r.Some?
        invariant left <= n && (r.Some? ==> r.value < |volume.rows|)
        invariant volume.Skip(r, left) == volume.Skip(start, n)
      {
        assert volume.LinkedForward(r.value);
        r := volume.rows[r.value].priv.next;
        left := left - 1;
      }
    }

    /** Appends the records of the rows from `start` on to the sector that holds `header`, while there is room. */
    method FillRecords(buffer: Buffer, at: nat, start: Option<nat>, count: nat, ghost header: seq<Record>,
                       ghost was: seq<byte>)
      requires volume.LinksForward() && buffer.Valid() && |header| == count <= 16
      requires start.Some? ==> start.value < |volume.rows|
      requires Holds(buffer.contents, was, at, header)
      modifies buffer, buffer.data
      ensures buffer.Valid() && Holds(buffer.contents, was, at, header + volume.Records(start, 16 - count))
    {
      var entry: Option<nat>, used, avail := start, count, SECT - 32 * count;
      ghost var done, all := header, header + volume.Records(start, 16 - count);
      while entry.Some? && avail >= RECORD
        invariant buffer.Valid() && (entry.Some? ==> entry.value < |volume.rows|)
        invariant |done| == used <= 16 && avail == 32 * (16 - used)
        invariant Remaining(volume, done, entry, used, all) && Holds(buffer.contents, was, at, done)
        decreases avail
      {
        OneRecord(volume, done, entry.value, used, all);
        FillRow(buffer, at, entry.value, used, done, was);
        done := done + [volume.ChildRecord(entry.value)];
        entry := NextRow(entry.value);
        used, avail := used + 1, avail - RECORD;
      }
      NoneRemaining(volume, done, entry, used, all);
    }

    method FillRow(buffer: Buffer, at: nat, row: nat, used: nat, ghost done: seq<Record>, ghost was: seq<byte>)
      requires buffer.Valid() && row < |volume.rows| && |done| == used < 16 && Holds(buffer.contents, was, at, done)
      modifies buffer, buffer.data
      ensures buffer.Valid() && Holds(buffer.contents, was, at, done + [volume.ChildRecord(row)])
    {
      var e := volume.rows[row];
      if e.dir {
        var r := Record(e.name, ATTR_DIR + ATTR_READ, e.priv.firstClust, Times(e), 0);
        FillEntry(buffer, at, used, r, done, was);
      } else {
        var r := Record(e.name, ATTR_ARCHIVE + ATTR_READ, e.priv.firstClust, Times(e), e.currSize);
        FillEntry(buffer, at, used, r, done, was);
      }
    }

    function NextRow(row: nat): (next: Option<nat>)
      requires volume.LinksForward() && row < |volume.rows|
      ensures next == volume.rows[row].priv.next && (next.Some? ==> next.value < |volume.rows|)
    {
      assert volume.LinkedForward(row);
      volume.rows[row].priv.next
    }

    method ReadDataSector(buffer: Buffer, at: nat, relSect: nat)
      requires Valid() && buffer.Valid() && at + SECT <= |buffer.contents|
      modifies buffer, buffer.data, this`lastEntry
      ensures Valid() && buffer.Valid()
      ensures buffer.contents == Stored(old(buffer.contents), at, volume.DataSector(relSect))
    {
      var cluster, rel := relSect / 8 + 2, relSect % 8;
      var found := OwnerOf(cluster);
      if found == None {
        buffer.Put(at, NoOwner(SECT / 4));
      } else if volume.rows[found.value].dir {
        FillDirSector(buffer, at, found.value, rel);
      } else {
        ReadFileSector(buffer, at, found.value, cluster, rel);
      }
    }

    /** The owner of a cluster: the row found last, or else the one a search from it finds, which is remembered. */
    method OwnerOf(cluster: nat) returns (found: Option<nat>)
      requires Valid()
      modifies this`lastEntry
      ensures Valid() && found == volume.Owner(cluster)
    {
      var le := lastEntry;
      if volume.rows[le].priv.firstClust <= cluster <= volume.rows[le].priv.lastReserved {
        OwnerIs(volume, cluster, le);
        return Some(le);
      }
      found := FindEntry(cluster, le);
      if found.Some? {
        lastEntry := found.value;
      }
    }

    method ReadFileSector(buffer: Buffer, at: nat, le: nat, cluster: nat, rel: nat)
      requires buffer.Valid() && at + SECT <= |buffer.contents|
      requires le < |volume.rows| && volume.rows[le].priv.firstClust <= cluster
      modifies buffer, buffer.data
      ensures buffer.Valid()
      ensures buffer.contents == Stored(old(buffer.contents), at, volume.FileSector(volume.rows[le], cluster, rel))
    {
      var e := volume.rows[le];
      if e.readcb == None {
        buffer.Put(at, Zeros(SECT));
      } else {
        var offset := (cluster - e.priv.firstClust) * 4096 + rel * 512;
        buffer.Put(at, volume.callback(e.readcb.value, offset + e.offset, e.userData));
      }
    }

    method ReadSector(buffer: Buffer, at: nat, sector: nat)
      requires Valid() && buffer.Valid() && at + SECT <= |buffer.contents|
      modifies buffer, buffer.data, this`lastEntry
      ensures Valid() && buffer.Valid() && buffer.contents == Stored(old(buffer.contents), at, volume.SectorAt(sector))
    {
      if sector >= volume.RootLba() {
        ReadDataArea(buffer, at, sector);
      } else {
        ReadSystemSector(buffer, at, sector);
      }
    }

    method ReadDataArea(buffer: Buffer, at: nat, sector: nat)
      requires Valid() && buffer.Valid() && at + SECT <= |buffer.contents| && sector >= volume.RootLba()
      modifies buffer, buffer.data, this`lastEntry
      ensures Valid() && buffer.Valid() && buffer.contents == Stored(old(buffer.contents), at, volume.SectorAt(sector))
    {
      var relSect := sector - volume.RootLba();
      DataAreaIs(volume, sector, relSect);
      ReadDataSector(buffer, at, relSect);
    }

    method ReadSystemSector(buffer: Buffer, at: nat, sector: nat)
      requires Valid() && buffer.Valid() && at + SECT <= |buffer.contents| && sector < volume.RootLba()
      modifies buffer, buffer.data, this`lastEntry
      ensures Valid() && buffer.Valid() && buffer.contents == Stored(old(buffer.contents), at, volume.SectorAt(sector))
    {
      if FAT1_LBA <= sector {
        ReadFatArea(buffer, at, sector);
      } else {
        ReadFixedSector(buffer, at, sector);
      }
    }

    method ReadFatArea(buffer: Buffer, at: nat, sector: nat)
      requires Valid() && buffer.Valid() && at + SECT <= |buffer.contents| && FAT1_LBA <= sector < volume.RootLba()
      modifies buffer, buffer.data, this`lastEntry
      ensures Valid() && buffer.Valid() && buffer.contents == Stored(old(buffer.contents), at, volume.SectorAt(sector))
    {
      var first := if sector < volume.Fat2Lba() then FAT1_LBA else volume.Fat2Lba();
      FatAreaIs(volume, sector, first);
      ReadFatSector(buffer, at, sector - first);
    }

    method ReadFixedSector(buffer: Buffer, at: nat, sector: nat)
      requires buffer.Valid() && at + SECT <= |buffer.contents| && sector < FAT1_LBA
      modifies buffer, buffer.data
      ensures buffer.Valid() && buffer.contents == Stored(old(buffer.contents), at, volume.SectorAt(sector))
    {
      if sector == 0 {
        buffer.Put(at, MbrSector(volume.DiskSectors()));
      } else if sector == FSINFO_LBA {
        buffer.Put(at, FsinfoSector(volume.numClust));
      } else if sector == BOOT_LBA {
        buffer.Put(at, BootSector(volume.DiskSectors(), volume.Fat2Lba() - FAT1_LBA));
      } else {
        buffer.Put(at, Zeros(SECT));
      }
    }

    /** Reads any number of sectors. What is read depends on the table and the sector numbers alone: neither earlier
        reads nor the row found last show in it. */
    method Read(buffer: Buffer, sector: nat, numSectors: nat)
      requires Valid() && buffer.Valid() && 512 * numSectors <= |buffer.contents|
      modifies buffer, buffer.data, this`lastEntry
      ensures Valid() && buffer.Valid()
      ensures buffer.contents == Stored(old(buffer.contents), 0, Sectors(DiskOf(volume), sector, numSectors))
    {
      ReadFrom(buffer, sector, numSectors, DiskOf(volume));
    }

    method ReadFrom(buffer: Buffer, sector: nat, numSectors: nat, ghost disk: Disk)
      requires Valid() && buffer.Valid() && 512 * numSectors <= |buffer.contents| && Shows(disk)
      modifies buffer, buffer.data, this`lastEntry
      ensures Valid() && buffer.Valid()
      ensures buffer.contents == Stored(old(buffer.contents), 0, Sectors(disk, sector, numSectors))
    {
      ghost var was := buffer.contents;
      var k := 0;
      StoreNothing(was);
      while k < numSectors
        invariant k <= numSectors && Valid() && buffer.Valid() && |buffer.contents| == |was|
        invariant buffer.contents == Stored(was, 0, Sectors(disk, sector, k))
      {
        NextSector(disk, was, sector, k);
        ReadShown(buffer, 512 * k, sector + k, disk);
        k := k + 1;
      }
    }

    ghost predicate Shows(disk: Disk) {
      forall n {:trigger volume.SectorAt(n)} :: disk(n) == volume.SectorAt(n)
    }

    method ReadShown(buffer: Buffer, at: nat, sector: nat, ghost disk: Disk)
      requires Valid() && buffer.Valid() && at + SECT <= |buffer.contents| && Shows(disk)
      modifies buffer, buffer.data, this`lastEntry
      ensures Valid() && buffer.Valid() && buffer.contents == Stored(old(buffer.contents), at, disk(sector))
    {
      ReadSector(buffer, at, sector);
    }
  }

  lemma DataAreaIs(v: Volume, sector: nat, relSect: nat)
    requires sector == v.RootLba() + relSect
    ensures v.SectorAt(sector) == v.DataSector(relSect)
  {
  }

  /** Both copies of the FAT are the same. */
  lemma FatAreaIs(v: Volume, sector: nat, first: nat)
    requires FAT1_LBA <= sector < v.RootLba()
    requires first == if sector < v.Fat2Lba() then FAT1_LBA else v.Fat2Lba()
    ensures first <= sector && v.SectorAt(sector) == v.FatSector(sector - first)
  {
  }

  lemma StoreNothing(image: seq<byte>)
    ensures Stored(image, 0, []) == image
  {
  }

  lemma NextSector(disk: Disk, image: seq<byte>, first: nat, k: nat)
    requires 512 * k + 512 <= |image|
    ensures Stored(Stored(image, 0, Sectors(disk, first, k)), 512 * k, disk(first + k)) ==
      Stored(image, 0, Sectors(disk, first, k + 1))
  {
    StoredAppend(image, 0, Sectors(disk, first, k), disk(first + k));
  }

  lemma FirstWords(v: Volume, image: seq<byte>, at: nat)
    requires at + SECT <= |image|
    ensures Stored(Stored(image, at, LeBytes(CLUST_ROOT_END, 4)), at + 4, LeBytes(0xFFFFFFFF, 4)) ==
      Stored(image, at, v.FatWords(0, 2))
  {
    StoredAppend(image, at, LeBytes(CLUST_ROOT_END, 4), LeBytes(0xFFFFFFFF, 4));
    assert v.FatWords(0, 1) == v.FatWords(0, 0) + LeBytes(CLUST_ROOT_END, 4) == LeBytes(CLUST_ROOT_END, 4);
  }

  lemma NoWords(v: Volume, image: seq<byte>, at: nat, first: nat)
    requires at <= |image|
    ensures Stored(image, at, v.FatWords(first, 0)) == image
  {
  }

  lemma NextWord(v: Volume, image: seq<byte>, at: nat, first: nat, k: nat)
    requires at + SECT <= |image| && k < 128
    ensures Stored(Stored(image, at, v.FatWords(first, k)), at + 4 * k, LeBytes(v.FatValue(first + k), 4)) ==
      Stored(image, at, v.FatWords(first, k + 1))
  {
    StoredAppend(image, at, v.FatWords(first, k), LeBytes(v.FatValue(first + k), 4));
  }

  /** The buffer is `was` with a sector at `at` that holds the records and then zeros. */
  ghost predicate Holds(contents: seq<byte>, was: seq<byte>, at: nat, records: seq<Record>) {
    |records| <= 16 && at + SECT <= |was| && contents == Stored(was, at, Padded(Encoded(records)))
  }

  lemma NameFirst(r: Record, name: seq<byte>)
    requires name == ShortName(r.name, r.attr / 0x10 % 2 == 1)
    ensures JoinAll([name] + RecordParts(r)[1..]) == RecordBytes(r)
  {
    assert [name] + RecordParts(r)[1..] == RecordParts(r);
  }

  lemma NothingEncoded()
    ensures Padded(Encoded([])) == Zeros(SECT)
  {
  }

  /** A sector that holds some records takes one more at their end. */
  lemma PadRecord(was: seq<byte>, at: nat, done: seq<Record>, r: Record)
    requires |done| < 16 && at + SECT <= |was|
    ensures Stored(Stored(was, at, Padded(Encoded(done))), at + 32 * |done|, RecordBytes(r)) ==
      Stored(was, at, Padded(Encoded(done + [r])))
  {
    EncodeOneMore(done, r);
    PadAt(was, at, |done|, Encoded(done), RecordBytes(r), Encoded(done + [r]));
  }

  lemma PadAt(was: seq<byte>, at: nat, used: nat, s: seq<byte>, more: seq<byte>, both: seq<byte>)
    requires used < 16 && |s| == 32 * used && |more| == 32 && both == s + more && at + SECT <= |was|
    ensures Stored(Stored(was, at, Padded(s)), at + 32 * used, more) == Stored(was, at, Padded(both))
  {
    StoredIsWritten(was, at, Padded(s));
    StoredIsWritten(WriteAt(was, at, Padded(s)), at + |s|, more);
    StoredIsWritten(was, at, Padded(both));
    PadMore(was, at, s, more);
  }

  lemma EncodeOneMore(done: seq<Record>, r: Record)
    ensures Encoded(done + [r]) == Encoded(done) + RecordBytes(r)
  {
    assert Encodings(done + [r]) == Encodings(done) + [RecordBytes(r)];
    JoinedWithLast(Encodings(done), RecordBytes(r));
  }

  lemma LaterRecords(v: Volume, i: nat, rel: nat, child: Option<nat>)
    requires i < |v.rows| && rel > 0 && child == v.Skip(v.rows[i].priv.sub, rel * 16 - v.HeaderCount(i))
    ensures [] + v.Records(child, 16) == v.DirRecords(i, rel)
  {
  }

  /** The records still to come after `done`. */
  ghost predicate Remaining(v: Volume, done: seq<Record>, entry: Option<nat>, used: nat, all: seq<Record>) {
    used <= 16 && done + v.Records(entry, 16 - used) == all
  }

  lemma OneRecord(v: Volume, done: seq<Record>, i: nat, used: nat, all: seq<Record>)
    requires i < |v.rows| && used < 16 && Remaining(v, done, Some(i), used, all)
    ensures Remaining(v, done + [v.ChildRecord(i)], v.rows[i].priv.next, used + 1, all)
  {
    assert 16 - used - 1 == 16 - (used + 1);
    assert v.Records(Some(i), 16 - used) == [v.ChildRecord(i)] + v.Records(v.rows[i].priv.next, 16 - used - 1);
  }

  lemma NoneRemaining(v: Volume, done: seq<Record>, entry: Option<nat>, used: nat, all: seq<Record>)
    requires Remaining(v, done, entry, used, all) && (entry == None || used == 16)
    ensures done == all
  {
  }
}
