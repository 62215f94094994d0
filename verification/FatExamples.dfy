/** Two small tables that the disk accepts and does not show: one whose file lies across the end of a FAT that is one
    sector too short, and one with one directory record more than a directory can show. */
module FatExamples {
  import opened Bytes
  import opened FatTree
  import opened EmfatSpec
  import opened FatReader

  const UNLINKED: Priv := Priv(0, 0, 0, 0, None, None, None)

  function Directory(): Entry {
    Entry([0x41], true, 0, 0, 0, 0, 0, 0, 0, 0, None, UNLINKED)
  }

  function FileOf(size: nat): Entry {
    Entry([0x42], false, 1, 0, size, size, 0, 0, 0, 0, None, UNLINKED)
  }

  function NoCallback(cb: nat, offset: nat, userData: nat): Sector {
    Zeros(SECT)
  }

  /** A root directory with `n` files of the same size. */
  function Table(n: nat, size: nat): (rows: seq<Entry>)
    ensures |rows| == n + 1 && rows[0] == Directory()
    ensures forall k | 0 < k <= n :: rows[k] == FileOf(size)
  {
    seq(n + 1, i => if i == 0 then Directory() else FileOf(size))
  }

  function Disks(n: nat, size: nat): Volume {
    VolumeOf(Table(n, size), [0x43], NoCallback)
  }

  lemma TableAccepted(n: nat, size: nat)
    ensures Accepts(Table(n, size))
  {
    var rows := Table(n, size);
    forall i | 0 < i < |rows| ensures FollowsOn(rows, i) {
    }
  }

  lemma {:induction false} FilesOfRoot(n: nat, size: nat, m: nat)
    requires 0 < m <= n + 1
    ensures |ChildrenIn(Table(n, size), 0, m)| == m - 1
  {
    var rows := Table(n, size);
    if m == 1 {
      assert ChildrenIn(rows, 0, 0) == [];
    } else {
      FilesOfRoot(n, size, m - 1);
      LastBelowSkips(rows, m - 1, 1, 1);
      assert Parent(rows, m - 1) == Some(0);
    }
  }

  lemma {:induction false} StartOfEqual(rows: seq<Entry>, i: nat, c: nat)
    requires 0 < i <= |rows| && Reserved(rows[0]) == 1 && forall k | 0 < k < |rows| :: Reserved(rows[k]) == c
    ensures Start(rows, i) == 3 + (i - 1) * c
  {
    if i == 1 {
      assert Start(rows, 0) == 2;
    } else {
      StartOfEqual(rows, i - 1, c);
      OneMore(i, c);
    }
  }

  lemma OneMore(i: nat, c: nat)
    requires i > 1
    ensures (i - 1) * c == (i - 2) * c + c
  {
  }

  /** The root takes one cluster and every file the clusters of its size. */
  lemma StartOfRow(n: nat, size: nat, i: nat)
    requires 0 < i <= n + 1 && n <= 128
    ensures Start(Linked(Table(n, size), n + 1), i) == 3 + (i - 1) * Nclust(size)
  {
    var linked := Linked(Table(n, size), n + 1);
    forall k | 0 <= k < n + 1 ensures Reserved(linked[k]) == if k == 0 then 1 else Nclust(size) {
      ReservedOf(n, size, k);
    }
    StartOfEqual(linked, i, Nclust(size));
  }

  lemma ReservedOf(n: nat, size: nat, k: nat)
    requires k <= n <= 128
    ensures Reserved(Linked(Table(n, size), n + 1)[k]) == if k == 0 then 1 else Nclust(size)
  {
    FilesOfRoot(n, size, n + 1);
    assert Linked(Table(n, size), n + 1)[k] == LinkedRow(Table(n, size), k, n + 1);
  }

  lemma RowsOf(n: nat, size: nat, i: nat)
    requires i <= n <= 128
    ensures var e := Disks(n, size).rows[i]; var start := Start(Linked(Table(n, size), n + 1), i);
      && e.dir == (i == 0) && e.name == Table(n, size)[i].name && e.offset == 0
      && (i > 0 ==> e.currSize == e.maxSize == size)
      && e.priv.firstClust == start && e.priv.lastClust == start + (if i == 0 then 1 else Nclust(size)) - 1
      && (i == 0 ==> e.priv.numSubentry <= 127)
  {
    var rows := Table(n, size);
    var linked := Linked(rows, n + 1);
    FilesOfRoot(n, size, n + 1);
    assert linked[i] == LinkedRow(rows, i, n + 1);
    assert Disks(n, size).rows[i] == PlacedRow(linked, i);
  }

  lemma Layout(n: nat, size: nat)
    requires n <= 128
    ensures var v := Disks(n, size); |v.rows| == n + 1 && v.numClust == 1 + n * Nclust(size)
  {
    StartOfRow(n, size, n + 1);
  }

  /** The tables are within the limits a reader needs. */
  lemma TableReadable(n: nat, size: nat)
    requires n <= 128 && size <= 0x10_0000
    ensures Readable(Disks(n, size))
  {
    var v := Disks(n, size);
    TableAccepted(n, size);
    VolumeIsLaid(Table(n, size), [0x43], NoCallback);
    Layout(n, size);
    assert Nclust(size) <= 256;
    assert n * Nclust(size) <= 128 * 256 by {
      MulBound(n, Nclust(size));
    }
    forall i | 0 <= i < |v.rows| ensures NoWrap(v, i) {
      RowsOf(n, size, i);
    }
  }

  lemma MulBound(n: nat, c: nat)
    requires n <= 128 && c <= 256
    ensures n * c <= 128 * 256
  {
  }

  /** A root directory and a file of 127 clusters: the FAT has one sector of 128 words for 130 clusters, and the
      chain of the file ends early. */
  lemma FatTooShort(limit: nat)
    requires limit >= 128
    ensures var v := Disks(1, 127 * 4096);
      && Accepts(Table(1, 127 * 4096)) && Readable(v) && v.numClust == 128 && Straddles(v, 1)
      && Chain(FatOf(DiskOf(v), BpbOf(v)), v.rows[1].priv.firstClust, limit) !=
           Range(v.rows[1].priv.firstClust, v.rows[1].priv.lastClust)
  {
    var v := Disks(1, 127 * 4096);
    TableAccepted(1, 127 * 4096);
    TableReadable(1, 127 * 4096);
    Layout(1, 127 * 4096);
    RowsOf(1, 127 * 4096, 1);
    StartOfRow(1, 127 * 4096, 1);
    ChainIsExactIff(v, 1, limit);
  }

  /** A root directory with 128 files has 129 records with its label, and does not show them all. */
  lemma DirectoryTooLong()
    ensures var v := Disks(128, 0);
      && Accepts(Table(128, 0)) && Readable(v) && |AllRecords(v, 0)| == 129
      && exists r | 0 <= r < 129 :: !ShowsRecord(v, 0, r)
  {
    var v := Disks(128, 0);
    TableAccepted(128, 0);
    TableReadable(128, 0);
    RowsOf(128, 0, 0);
    FilesOfRoot(128, 0, 129);
    VolumeShape(Table(128, 0));
    SameChildren(Table(128, 0), v.rows, 0, 129);
    assert v.RowLaid(0);
    DirectoryIsWholeIff(v, 0);
  }
}
