/** What the virtual disk shows, character by character and field by field: names, dates, clusters and sizes of
    directory records, the dot records and the label, and the tree that a reader finds, all said without the functions
    that make them. */
module FatNames {
  import opened Bytes
  import opened FatTree
  import opened EmfatSpec
  import opened FatReader
  import Emfat

  // ---- Names ----

  /** `x` is the character `c` with a letter from a to z raised. */
  predicate Raised(c: byte, x: byte) {
    if 0x61 <= c <= 0x7A then x == c - 0x20 else x == c
  }

  /** Character `k` after `from` is that of `s`, raised, or a blank after its end. */
  predicate CharacterShown(r: seq<byte>, from: nat, s: seq<byte>, k: nat)
    requires from + k < |r|
  {
    if k < |s| then Raised(s[k], r[from + k]) else r[from + k] == 0x20
  }

  /** The `n` characters of `r` from `from` on are the first ones of `s`, raised, and blanks after it. */
  predicate PartShown(r: seq<byte>, from: nat, n: nat, s: seq<byte>)
    requires from + n <= |r|
  {
    forall k | 0 <= k < n :: CharacterShown(r, from, s, k)
  }

  predicate NoDot(s: seq<byte>) {
    forall k | 0 <= k < |s| :: s[k] != 0x2E
  }

  /** Eleven characters show a name: eight of what comes before its last dot and three of what comes after it, or, for a
      directory or a name without a dot, eight of the name and three blanks. */
  predicate NameShown(r: seq<byte>, name: seq<byte>, dir: bool) {
    && |r| == 11
    && if dir || NoDot(name) then PartShown(r, 0, 8, name) && PartShown(r, 8, 3, [])
       else forall i | 0 <= i < |name| ::
         name[i] == 0x2E && NoDot(name[i + 1..]) ==> PartShown(r, 0, 8, name[..i]) && PartShown(r, 8, 3, name[i + 1..])
  }

  /** The part of a raw name that a field shows. */
  lemma FieldShown(r: seq<byte>, from: nat, n: nat, s: seq<byte>, raw: seq<byte>)
    requires from + n <= |r| == |raw| && raw[from..from + n] == Field(s, n)
    requires forall k | 0 <= k < |r| :: r[k] == Upper(raw[k])
    ensures PartShown(r, from, n, s)
  {
    forall k | 0 <= k < n ensures CharacterShown(r, from, s, k) {
      assert raw[from + k] == raw[from..from + n][k] == Field(s, n)[k];
    }
  }

  lemma NamePartsShown(stem: seq<byte>, ext: seq<byte>, r: seq<byte>)
    requires |r| == 11 && forall k | 0 <= k < 11 :: r[k] == Upper((Field(stem, 8) + Field(ext, 3))[k])
    ensures PartShown(r, 0, 8, stem) && PartShown(r, 8, 3, ext)
  {
    var raw := Field(stem, 8) + Field(ext, 3);
    assert raw[0..8] == Field(stem, 8) && raw[8..11] == Field(ext, 3);
    FieldShown(r, 0, 8, stem, raw);
    FieldShown(r, 8, 3, ext, raw);
  }

  /** A record's name shows the row's name. */
  lemma ShortNameShown(name: seq<byte>, dir: bool)
    ensures NameShown(ShortName(name, dir), name, dir)
  {
    var r := ShortName(name, dir);
    match if dir then None else LastDot(name)
    case None => NamePartsShown(name, [], r);
    case Some(i) =>
      NamePartsShown(name[..i], name[i + 1..], r);
      assert name[i] == 0x2E;
      forall j | 0 <= j < |name| && name[j] == 0x2E && NoDot(name[j + 1..]) ensures j == i {
        LastOfDots(name, i, j);
      }
  }

  lemma LastOfDots(name: seq<byte>, i: nat, j: nat)
    requires i < |name| && j < |name| && name[i] == name[j] == 0x2E
    requires NoDot(name[j + 1..]) && forall k | i < k < |name| :: name[k] != 0x2E
    ensures i == j
  {
    assert forall k | j < k < |name| :: name[k] == name[j + 1..][k - (j + 1)];
  }

  /** Only those eleven characters do. */
  lemma OneName(r: seq<byte>, name: seq<byte>, dir: bool)
    requires NameShown(r, name, dir)
    ensures r == ShortName(name, dir)
  {
    var s := ShortName(name, dir);
    ShortNameShown(name, dir);
    var (stem, ext) := if dir || NoDot(name) then (name, []) else
      var i := LastDot(name).value; (name[..i], name[i + 1..]);
    if !(dir || NoDot(name)) {
      var i := LastDot(name).value;
      assert name[i] == 0x2E && NoDot(name[i + 1..]);
    }
    SameParts(r, s, stem, ext);
  }

  lemma SameParts(r: seq<byte>, s: seq<byte>, stem: seq<byte>, ext: seq<byte>)
    requires |r| == |s| == 11
    requires PartShown(r, 0, 8, stem) && PartShown(r, 8, 3, ext) && PartShown(s, 0, 8, stem) && PartShown(s, 8, 3, ext)
    ensures r == s
  {
    forall k | 0 <= k < 11 ensures r[k] == s[k] {
      if k < 8 {
        SameCharacter(r, s, 0, 8, stem, k);
      } else {
        SameCharacter(r, s, 8, 3, ext, k - 8);
      }
    }
  }

  lemma SameCharacter(r: seq<byte>, s: seq<byte>, from: nat, n: nat, part: seq<byte>, k: nat)
    requires from + n <= |r| == |s| && k < n && PartShown(r, from, n, part) && PartShown(s, from, n, part)
    ensures r[from + k] == s[from + k]
  {
    assert CharacterShown(r, from, part, k) && CharacterShown(s, from, part, k);
  }

  /** A file name with an extension. */
  lemma StemAndExtension(stem: seq<byte>, ext: seq<byte>)
    requires NoDot(ext)
    ensures var r := ShortName(stem + [0x2E] + ext, false); PartShown(r, 0, 8, stem) && PartShown(r, 8, 3, ext)
  {
    var name := stem + [0x2E] + ext;
    ShortNameShown(name, false);
    assert name[|stem|] == 0x2E && name[..|stem|] == stem && name[|stem| + 1..] == ext;
  }

  // ---- Records ----

  /** The 16 bits at `at`, low byte first. */
  function Half(s: seq<byte>, at: nat): nat
    requires at + 2 <= |s|
  {
    s[at] + 256 * (s[at + 1] as int)
  }

  /** What a directory record says of one entry. */
  datatype Fields = Fields(name: seq<byte>, dir: bool, attr: byte, clust: nat, created: nat, modified: nat,
                           accessed: nat, size: nat)

  /** The 32 bytes of a record: name, attributes, the time and the date of creation, the date of the last access, the
      high half of the cluster, the time and the date of the last change, the low half of the cluster, the size. */
  predicate RecordShown(s: seq<byte>, f: Fields) {
    && |s| == 32 && NameShown(s[..11], f.name, f.dir) && s[11] == f.attr
    && Half(s, 14) == f.created % 0x1_0000 && Half(s, 16) == f.created / 0x1_0000
    && Half(s, 18) == f.accessed / 0x1_0000
    && Half(s, 22) == f.modified % 0x1_0000 && Half(s, 24) == f.modified / 0x1_0000
    && Half(s, 20) == f.clust / 0x1_0000 && Half(s, 26) == f.clust % 0x1_0000
    && Half(s, 28) == f.size % 0x1_0000 && Half(s, 30) == f.size / 0x1_0000
  }

  lemma HalfIs(s: seq<byte>, at: nat, x: nat)
    requires at + 2 <= |s| && s[at..at + 2] == Le16(x)
    ensures Half(s, at) == x % 0x1_0000
  {
    Le16Is(x);
    assert s[at] == s[at..at + 2][0] && s[at + 1] == s[at..at + 2][1];
    assert x % 0x1_0000 == x % 256 + 256 * (x / 256 % 256);
  }

  lemma StampSlices(r: Record)
    ensures var s, t := RecordBytes(r), r.times;
      && s[14..16] == Le16(t.created) && s[16..18] == Le16(t.created / 0x1_0000)
      && s[18..20] == Le16(t.accessed / 0x1_0000)
      && s[22..24] == Le16(t.modified) && s[24..26] == Le16(t.modified / 0x1_0000)
  {
    var s, p, t := RecordBytes(r), RecordParts(r), r.times;
    SliceOfEight(p, 2, 14);
    SliceOfEight(p, 3, 18);
    SliceOfEight(p, 5, 22);
    TwoHalves(s, 14, Le16(t.created), Le16(t.created / 0x1_0000));
    TwoHalves(s, 22, Le16(t.modified), Le16(t.modified / 0x1_0000));
  }

  lemma TwoHalves(s: seq<byte>, at: nat, a: seq<byte>, b: seq<byte>)
    requires |a| == |b| == 2 && at + 4 <= |s| && s[at..at + 4] == a + b
    ensures s[at..at + 2] == a && s[at + 2..at + 4] == b
  {
    assert s[at..at + 2] == s[at..at + 4][..2] && s[at + 2..at + 4] == s[at..at + 4][2..];
  }

  lemma SizeHalves(s: seq<byte>, x: nat)
    requires |s| == 32 && x < TWO_32 && s[28..32] == LeBytes(x, 4)
    ensures Half(s, 28) == x % 0x1_0000 && Half(s, 30) == x / 0x1_0000
  {
    LowIsLe32(x);
    var w := s[28..32];
    assert w == Low4(x) && s[28] == w[0] && s[29] == w[1] && s[30] == w[2] && s[31] == w[3];
    assert x % 0x1_0000 == x % 256 + 256 * (x / 256 % 256);
    assert x / 0x1_0000 == x / 0x1_0000 % 256 + 256 * (x / 0x100_0000);
  }

  lemma SmallHalf(x: nat)
    requires x < TWO_32
    ensures x / 0x1_0000 % 0x1_0000 == x / 0x1_0000
  {
  }

  /** The numbers of a record stay in their words. */
  predicate SmallRecord(r: Record) {
    && r.clust < TWO_32 && r.size < TWO_32
    && r.times.created < TWO_32 && r.times.modified < TWO_32 && r.times.accessed < TWO_32
  }

  function FieldsOf(r: Record): Fields {
    Fields(r.name, IsDir(r.attr), r.attr, r.clust, r.times.created, r.times.modified, r.times.accessed, r.size)
  }

  lemma RecordIsShown(r: Record)
    requires SmallRecord(r)
    ensures RecordShown(RecordBytes(r), FieldsOf(r))
  {
    RecordFields(r);
    ShortNameShown(r.name, IsDir(r.attr));
    StampsShown(r);
    ClusterShown(r);
    SizeHalves(RecordBytes(r), r.size);
  }

  lemma StampsShown(r: Record)
    requires SmallRecord(r)
    ensures var s, t := RecordBytes(r), r.times;
      && Half(s, 14) == t.created % 0x1_0000 && Half(s, 16) == t.created / 0x1_0000
      && Half(s, 18) == t.accessed / 0x1_0000
      && Half(s, 22) == t.modified % 0x1_0000 && Half(s, 24) == t.modified / 0x1_0000
  {
    var s, t := RecordBytes(r), r.times;
    StampSlices(r);
    HalfIs(s, 14, t.created);
    HalfIs(s, 16, t.created / 0x1_0000);
    HalfIs(s, 18, t.accessed / 0x1_0000);
    HalfIs(s, 22, t.modified);
    HalfIs(s, 24, t.modified / 0x1_0000);
    SmallHalf(t.created);
    SmallHalf(t.accessed);
    SmallHalf(t.modified);
  }

  lemma ClusterShown(r: Record)
    requires SmallRecord(r)
    ensures var s := RecordBytes(r); Half(s, 20) == r.clust / 0x1_0000 && Half(s, 26) == r.clust % 0x1_0000
  {
    RecordFields(r);
    HalfIs(RecordBytes(r), 20, r.clust / 0x1_0000);
    HalfIs(RecordBytes(r), 26, r.clust);
    SmallHalf(r.clust);
  }

  // ---- A directory, slot by slot ----

  /** What the record of a row is to say: a directory is read-only with no size, a file read-only and archived. */
  function RowFields(v: Volume, i: nat): Fields
    requires i < |v.rows|
  {
    var e := v.rows[i];
    Fields(e.name, e.dir, if e.dir then 0x11 else 0x21, e.priv.firstClust, e.created, e.modified, e.accessed,
           if e.dir then 0 else e.currSize)
  }

  /** Times and sizes are 32-bit words. */
  predicate SmallRow(v: Volume, i: nat)
    requires i < |v.rows|
  {
    var e := v.rows[i];
    e.currSize < TWO_32 && e.created < TWO_32 && e.modified < TWO_32 && e.accessed < TWO_32
  }

  ghost predicate SmallRows(v: Volume) {
    forall i | 0 <= i < |v.rows| :: SmallRow(v, i)
  }

  /** The row whose level is the closest one above that of row `j`, looking back. */
  predicate IsParent(v: Volume, i: nat, j: nat) {
    && i < j < |v.rows| && v.rows[i].level < v.rows[j].level
    && forall k | i < k < j :: v.rows[k].level >= v.rows[j].level
  }

  /** Slot `r` of the directory at row `i`, as the disk has it. */
  function DirectorySlot(v: Volume, i: nat, r: nat): (s: seq<byte>)
    requires i < |v.rows| && v.rows[i].priv.firstClust >= 2
    ensures |s| == 32
  {
    ClusterSlot(DiskOf(v), BpbOf(v), v.rows[i].priv.firstClust, r)
  }

  lemma ChildShown(v: Volume, i: nat)
    requires Readable(v) && i < |v.rows| && SmallRow(v, i)
    ensures RecordShown(RecordBytes(v.ChildRecord(i)), RowFields(v, i))
  {
    RowRange(v, i);
    ChildFields(v, i);
    ShownAs(v.ChildRecord(i), RowFields(v, i));
  }

  lemma ChildFields(v: Volume, i: nat)
    requires i < |v.rows| && SmallRow(v, i) && v.rows[i].priv.firstClust < TWO_32
    ensures SmallRecord(v.ChildRecord(i)) && FieldsOf(v.ChildRecord(i)) == RowFields(v, i)
  {
  }

  lemma ShownAs(r: Record, f: Fields)
    requires SmallRecord(r) && FieldsOf(r) == f
    ensures RecordShown(RecordBytes(r), f)
  {
    RecordIsShown(r);
  }

  /** The records of a directory of at most 128: after its header, record by record, its children in table order, and
      then empty slots. */
  lemma ChildSlot(v: Volume, i: nat, k: nat)
    requires Readable(v) && SmallRows(v) && i < |v.rows| && v.rows[i].dir
    requires |AllRecords(v, i)| <= 128 && k < |ChildrenIn(v.rows, i, |v.rows|)|
    ensures v.rows[i].priv.firstClust >= 2
    ensures RecordShown(DirectorySlot(v, i, (if i == 0 then 1 else 2) + k),
                        RowFields(v, ChildrenIn(v.rows, i, |v.rows|)[k]))
  {
    var kids := ChildrenIn(v.rows, i, |v.rows|);
    var r := (if i == 0 then 1 else 2) + k;
    HeaderSize(v, i);
    SlotIs(v, i, r);
    assert SmallRow(v, kids[k]);
    ChildRecordAt(v, i, k, r);
    ChildShown(v, kids[k]);
    SlotShown(DirectorySlot(v, i, r), RecordBytes(v.ChildRecord(kids[k])), RowFields(v, kids[k]));
  }

  lemma SlotShown(s: seq<byte>, bytes: seq<byte>, f: Fields)
    requires s == bytes && RecordShown(bytes, f)
    ensures RecordShown(s, f)
  {
  }

  lemma ChildRecordAt(v: Volume, i: nat, k: nat, r: nat)
    requires i < |v.rows| && k < |ChildrenIn(v.rows, i, |v.rows|)| && r == v.HeaderCount(i) + k
    ensures r < |AllRecords(v, i)| && AllRecords(v, i)[r] == v.ChildRecord(ChildrenIn(v.rows, i, |v.rows|)[k])
  {
    assert AllRecords(v, i)[r] == ChildRecords(v, ChildrenIn(v.rows, i, |v.rows|))[k];
  }

  lemma HeaderSize(v: Volume, i: nat)
    requires Readable(v) && i < |v.rows|
    ensures v.HeaderCount(i) == if i == 0 then 1 else 2
    ensures i > 0 ==> v.rows[i].priv.top.Some? && IsParent(v, v.rows[i].priv.top.value, i)
    ensures i == 0 ==> v.rows[i].priv.top == None
  {
    assert v.RowLaid(i);
    ParentIsDirectoryAbove(v.rows, i);
  }

  lemma SlotIs(v: Volume, i: nat, r: nat)
    requires Readable(v) && i < |v.rows| && v.rows[i].dir && r < 128
    ensures v.rows[i].priv.firstClust >= 2 && DirectorySlot(v, i, r) == SlotBytes(AllRecords(v, i), r)
  {
    RowRange(v, i);
    assert v.IsClustOf(v.rows[i].priv.firstClust, i);
    ClusterSlotFound(v, i, v.rows[i].priv.firstClust, r);
  }

  /** What comes after the last child ends the directory. */
  lemma SlotsAfter(v: Volume, i: nat, r: nat)
    requires Readable(v) && i < |v.rows| && v.rows[i].dir && r < 128
    requires (if i == 0 then 1 else 2) + |ChildrenIn(v.rows, i, |v.rows|)| <= r
    ensures v.rows[i].priv.firstClust >= 2 && DirectorySlot(v, i, r) == Zeros(32)
  {
    HeaderSize(v, i);
    SlotIs(v, i, r);
  }

  /** The root begins with the volume label. */
  lemma LabelSlot(v: Volume)
    requires Readable(v)
    ensures v.rows[0].priv.firstClust == 2
    ensures RecordShown(DirectorySlot(v, 0, 0), Fields(v.volumeLabel, false, 0x08, 0, 0, 0, 0, 0))
  {
    LabelHeader(v);
    SlotIs(v, 0, 0);
    DotShown(v, 0, 0, LabelRecord(v), Fields(v.volumeLabel, false, 0x08, 0, 0, 0, 0, 0));
  }

  function LabelRecord(v: Volume): Record {
    Record(v.volumeLabel, 0x08, 0, NO_TIMES, 0)
  }

  lemma LabelHeader(v: Volume)
    requires Readable(v)
    ensures |v.rows| > 0 && v.rows[0].dir && v.rows[0].priv.firstClust == 2 && v.Header(0) == [LabelRecord(v)]
  {
    assert v.RowLaid(0);
    HeaderSize(v, 0);
  }

  /** Every other directory begins with a record of itself and one of the directory it is in, which for the root has the
      root's cluster. */
  lemma DotSlots(v: Volume, i: nat, p: nat)
    requires Readable(v) && 0 < i < |v.rows| && v.rows[i].dir && IsParent(v, p, i)
    ensures v.rows[i].priv.firstClust >= 2
    ensures RecordShown(DirectorySlot(v, i, 0), DotFields([0x2E], v.rows[i].priv.firstClust))
    ensures RecordShown(DirectorySlot(v, i, 1), DotFields([0x2E, 0x2E], v.rows[p].priv.firstClust))
  {
    HeaderSize(v, i);
    OneParent(v, p, v.rows[i].priv.top.value, i);
    OwnSlot(v, i, p);
    UpSlot(v, i, p);
  }

  lemma OwnSlot(v: Volume, i: nat, p: nat)
    requires Readable(v) && i < |v.rows| && p < |v.rows| && v.rows[i].dir && v.rows[i].priv.top == Some(p)
    ensures v.rows[i].priv.firstClust >= 2
    ensures RecordShown(DirectorySlot(v, i, 0), DotFields([0x2E], v.rows[i].priv.firstClust))
  {
    var clust := v.rows[i].priv.firstClust;
    SmallCluster(v, i);
    SlotIs(v, i, 0);
    HeaderIs(v, i, p);
    DotFieldsOf([0x2E], clust);
    DotShown(v, i, 0, DotRecord([0x2E], clust), DotFields([0x2E], clust));
  }

  lemma UpSlot(v: Volume, i: nat, p: nat)
    requires Readable(v) && i < |v.rows| && p < |v.rows| && v.rows[i].dir && v.rows[i].priv.top == Some(p)
    ensures v.rows[i].priv.firstClust >= 2
    ensures RecordShown(DirectorySlot(v, i, 1), DotFields([0x2E, 0x2E], v.rows[p].priv.firstClust))
  {
    var clust := v.rows[p].priv.firstClust;
    SmallCluster(v, p);
    SlotIs(v, i, 1);
    HeaderIs(v, i, p);
    DotFieldsOf([0x2E, 0x2E], clust);
    DotShown(v, i, 1, DotRecord([0x2E, 0x2E], clust), DotFields([0x2E, 0x2E], clust));
  }

  lemma SmallCluster(v: Volume, i: nat)
    requires Readable(v) && i < |v.rows|
    ensures v.rows[i].priv.firstClust < TWO_32
  {
    RowRange(v, i);
  }

  function DotRecord(name: seq<byte>, clust: nat): Record {
    Record(name, 0x11, clust, NO_TIMES, 0)
  }

  /** What the record of a directory with that name in that cluster is to say. */
  function DotFields(name: seq<byte>, clust: nat): Fields {
    Fields(name, true, 0x11, clust, 0, 0, 0, 0)
  }

  lemma DotFieldsOf(name: seq<byte>, clust: nat)
    requires clust < TWO_32
    ensures SmallRecord(DotRecord(name, clust)) && FieldsOf(DotRecord(name, clust)) == DotFields(name, clust)
  {
  }

  lemma HeaderIs(v: Volume, i: nat, p: nat)
    requires i < |v.rows| && p < |v.rows| && v.rows[i].priv.top == Some(p)
    ensures v.Header(i) ==
      [DotRecord([0x2E], v.rows[i].priv.firstClust), DotRecord([0x2E, 0x2E], v.rows[p].priv.firstClust)]
  {
    assert DOT + DOT == [0x2E, 0x2E];
  }

  lemma DotShown(v: Volume, i: nat, k: nat, r: Record, f: Fields)
    requires i < |v.rows| && v.rows[i].priv.firstClust >= 2 && k < |v.Header(i)| && r == v.Header(i)[k]
    requires DirectorySlot(v, i, k) == SlotBytes(AllRecords(v, i), k)
    requires SmallRecord(r) && FieldsOf(r) == f
    ensures RecordShown(DirectorySlot(v, i, k), f)
  {
    ShownAs(r, f);
    assert AllRecords(v, i)[k] == r;
    SlotShown(DirectorySlot(v, i, k), RecordBytes(r), f);
  }

  lemma OneParent(v: Volume, p: nat, q: nat, i: nat)
    requires IsParent(v, p, i) && IsParent(v, q, i)
    ensures p == q
  {
  }

  // ---- Children, and the whole tree ----

  /** The rows directly below row `i`, in table order: all of them, each once. */
  predicate ChildrenAre(v: Volume, i: nat, kids: seq<nat>) {
    && (forall a, b | 0 <= a < b < |kids| :: kids[a] < kids[b])
    && forall j | 0 <= j < |v.rows| :: j in kids <==> IsParent(v, i, j)
  }

  lemma ChildrenInAre(v: Volume, i: nat)
    requires i < |v.rows|
    ensures ChildrenAre(v, i, ChildrenIn(v.rows, i, |v.rows|))
  {
    ChildrenRise(v.rows, i, |v.rows|);
    forall j | 0 <= j < |v.rows| ensures j in ChildrenIn(v.rows, i, |v.rows|) <==> IsParent(v, i, j) {
      InChildren(v.rows, i, |v.rows|, j);
      ParentMeans(v, i, j);
    }
  }

  lemma ParentMeans(v: Volume, i: nat, j: nat)
    requires i < |v.rows| && j < |v.rows|
    ensures Parent(v.rows, j) == Some(i) <==> IsParent(v, i, j)
  {
  }

  predicate Rises(c: seq<nat>, bound: nat) {
    && (forall a | 0 <= a < |c| :: c[a] < bound)
    && forall a, b | 0 <= a < b < |c| :: c[a] < c[b]
  }

  lemma {:induction false} ChildrenRise(rows: seq<Entry>, p: nat, n: nat)
    requires n <= |rows|
    ensures Rises(ChildrenIn(rows, p, n), n)
  {
    if n > 0 {
      ChildrenRise(rows, p, n - 1);
      RisesOn(ChildrenIn(rows, p, n - 1), n - 1);
    }
  }

  lemma RisesOn(c: seq<nat>, x: nat)
    requires Rises(c, x)
    ensures Rises(c + [x], x + 1) && Rises(c + [], x + 1)
  {
  }

  lemma {:induction false} InChildren(rows: seq<Entry>, p: nat, n: nat, j: nat)
    requires n <= |rows| && j < |rows|
    ensures j in ChildrenIn(rows, p, n) <==> j < n && Parent(rows, j) == Some(p)
  {
    if n > 0 {
      InChildren(rows, p, n - 1, j);
    }
  }

  /** A sector of a file: what its callback gives for the file's offset and the place in the file, or zeros. */
  predicate SectorShown(s: Sector, v: Volume, i: nat, j: nat)
    requires i < |v.rows|
  {
    match v.rows[i].readcb
    case None => forall k | 0 <= k < 512 :: s[k] == 0
    case Some(cb) => s == v.callback(cb, v.rows[i].offset + 512 * j, v.rows[i].userData)
  }

  /** A file of the right size, in as few clusters of eight sectors as hold it, and at least one. */
  predicate FileShown(t: Tree, v: Volume, i: nat)
    requires i < |v.rows|
  {
    && t.File? && t.size == v.rows[i].currSize
    && |t.sectors| % 8 == 0 && |t.sectors| > 0 && t.size <= 512 * |t.sectors|
    && (|t.sectors| > 8 ==> t.size > 512 * |t.sectors| - 4096)
    && forall j | 0 <= j < |t.sectors| :: SectorShown(t.sectors[j], v, i, j)
  }

  /** A tree shows what the table has at row `i`, `depth` levels down. */
  predicate Shows(t: Tree, v: Volume, i: nat, depth: nat)
    requires i < |v.rows|
    decreases depth, 0
  {
    if !v.rows[i].dir then FileShown(t, v, i)
    else if depth == 0 then t.TooDeep?
    else DirShown(t, v, ChildrenIn(v.rows, i, |v.rows|), depth - 1)
  }

  /** A directory with these rows, each under its name. */
  predicate DirShown(t: Tree, v: Volume, kids: seq<nat>, below: nat)
    requires forall k | 0 <= k < |kids| :: kids[k] < |v.rows|
    decreases below, 1
  {
    && t.Dir? && |t.names| == |t.kids| == |kids|
    && (forall k | 0 <= k < |kids| :: NameShown(t.names[k], v.rows[kids[k]].name, v.rows[kids[k]].dir))
    && forall k | 0 <= k < |kids| :: Shows(t.kids[k], v, kids[k], below)
  }

  lemma TableFileShown(v: Volume, i: nat)
    requires Readable(v) && i < |v.rows| && !v.rows[i].dir
    ensures FileShown(TableFile(v, i), v, i)
  {
    ClustersHoldFile(v, i);
    ClustersUsed(v, i);
    FewestClusters(v.rows[i].currSize);
  }

  lemma FewestClusters(size: nat)
    ensures var n := Nclust(size); n >= 1 && size <= 4096 * n && (n > 1 ==> size > 4096 * n - 4096)
  {
  }

  lemma {:induction false} TableTreeShown(v: Volume, i: nat, depth: nat)
    requires Readable(v) && i < |v.rows|
    ensures Shows(TableTree(v, i, depth), v, i, depth)
    decreases depth, 0
  {
    if !v.rows[i].dir {
      TableFileShown(v, i);
    } else if depth > 0 {
      var below := depth - 1;
      TableDirectoryShown(v, ChildrenIn(v.rows, i, |v.rows|), below);
      TableDirectoryAt(v, i, depth, below);
    }
  }

  lemma TableDirectoryAt(v: Volume, i: nat, depth: nat, below: nat)
    requires i < |v.rows| && v.rows[i].dir && depth == below + 1
    requires var kids := ChildrenIn(v.rows, i, |v.rows|); DirShown(TableDirectory(v, kids, below), v, kids, below)
    ensures Shows(TableTree(v, i, depth), v, i, depth)
  {
    DirectoryShown(v, i, depth, below);
    assert depth - 1 == below;
  }

  lemma {:induction false} TableDirectoryShown(v: Volume, kids: seq<nat>, below: nat)
    requires Readable(v) && forall k | 0 <= k < |kids| :: kids[k] < |v.rows|
    ensures DirShown(TableDirectory(v, kids, below), v, kids, below)
    decreases below, 1
  {
    var t := TableDirectory(v, kids, below);
    forall k | 0 <= k < |kids| ensures NameShown(t.names[k], v.rows[kids[k]].name, v.rows[kids[k]].dir) {
      ShortNameShown(v.rows[kids[k]].name, v.rows[kids[k]].dir);
    }
    forall k | 0 <= k < |kids| ensures Shows(t.kids[k], v, kids[k], below) {
      TableTreeShown(v, kids[k], below);
    }
  }

  /** A FAT32 reader that starts from the partition table finds, at every depth: every directory with its children in
      table order under their names, raised and cut to eight and three characters, and every file with its size and each
      sector from its callback. */
  lemma DiskShowsNames(v: Volume, depth: nat)
    requires Readable(v) && Ordinary(v)
    ensures var b := Mount(DiskOf(v));
      Shows(ReadTree(DiskOf(v), b, Listed([], ATTR_DIR, b.rootCluster, 0), depth), v, 0, depth)
  {
    DiskShowsTheTable(v, depth);
    TableTreeShown(v, 0, depth);
  }

  // ---- The sectors that describe the disk ----

  /** The partition table: one FAT32 partition from sector 62 to the end of the disk, whose first sector is also named
      by head, sector and cylinder, and its last one if those can name it. */
  lemma PartitionTable(diskSectors: nat)
    requires BOOT_LBA < diskSectors < TWO_32
    ensures var s := MbrSector(diskSectors);
      && s[446] == 0x80 && s[450] == 0x0C && ChsToLba((s[448], s[449], s[447])) == 62
      && (diskSectors <= 1024 * 255 * 63 ==> ChsToLba((s[452], s[453], s[451])) == diskSectors - 1)
      && s[454..458] == Low4(62) && s[458..462] == Low4(diskSectors - 62) && s[510] == 0x55 && s[511] == 0xAA
  {
    var s := MbrSector(diskSectors);
    MbrSlices(diskSectors);
    MbrWords(diskSectors);
    PieceBytes(s, 446, MbrParts(diskSectors)[1]);
    PieceBytes(s, 450, MbrParts(diskSectors)[2]);
    ChsRoundTrip(62);
    if diskSectors <= 1024 * 255 * 63 {
      ChsRoundTrip(diskSectors - 1);
    }
  }

  lemma MbrSlices(diskSectors: nat)
    requires BOOT_LBA < diskSectors < TWO_32
    ensures var s, p := MbrSector(diskSectors), MbrParts(diskSectors); s[446..450] == p[1] && s[450..454] == p[2]
  {
    var p := MbrParts(diskSectors);
    MbrJoined(diskSectors);
    SliceOfEight(p, 1, 446);
    SliceOfEight(p, 2, 450);
  }

  lemma MbrWords(diskSectors: nat)
    requires BOOT_LBA < diskSectors < TWO_32
    ensures var s := MbrSector(diskSectors);
      s[454..458] == Low4(62) && s[458..462] == Low4(diskSectors - 62) && s[510] == 0x55 && s[511] == 0xAA
  {
    var s, p := MbrSector(diskSectors), MbrParts(diskSectors);
    MbrJoined(diskSectors);
    SliceOfEight(p, 3, 454);
    SliceOfEight(p, 4, 458);
    SliceOfEight(p, 7, 510);
    LowIsLe32(62);
    LowIsLe32(diskSectors - 62);
    assert s[510..512] == [0x55, 0xAA] && s[510] == s[510..512][0] && s[511] == s[510..512][1];
  }

  lemma PieceBytes(s: seq<byte>, at: nat, piece: seq<byte>)
    requires |piece| == 4 && at + 4 <= |s| && s[at..at + 4] == piece
    ensures s[at] == piece[0] && s[at + 1] == piece[1] && s[at + 2] == piece[2] && s[at + 3] == piece[3]
  {
    assert s[at..at + 4][0] == s[at] && s[at..at + 4][1] == s[at + 1];
    assert s[at..at + 4][2] == s[at + 2] && s[at..at + 4][3] == s[at + 3];
  }

  /** The information sector: its three signatures, no free clusters, and the next free one after the last. */
  lemma InformationSector(numClust: nat)
    requires numClust + 2 < TWO_32
    ensures var s := FsinfoSector(numClust);
      && s[0..4] == [0x52, 0x52, 0x61, 0x41] && s[484..488] == [0x72, 0x72, 0x41, 0x61]
      && s[488..492] == [0, 0, 0, 0] && s[492..496] == Low4(numClust + 2) && s[508..512] == [0, 0, 0x55, 0xAA]
  {
    var p := FsinfoParts(numClust);
    FsinfoJoined(numClust);
    SliceOfEight(p, 0, 0);
    SliceOfEight(p, 3, 484);
    SliceOfEight(p, 4, 488);
    SliceOfEight(p, 5, 492);
    SliceOfEight(p, 7, 508);
    LowIsLe32(0x41615252);
    LowIsLe32(0x61417272);
    LowIsLe32(0);
    LowIsLe32(numClust + 2);
    LowIsLe32(0xAA550000);
  }
}
