/** The bootloader's fake disk: a UF2 block written to any sector of its data area is programmed into flash, and once
    as many blocks as the file announces have been written the device restarts. */
module GhostFat {
  import opened Bytes
  import Flash
  import Uf2

  const START_CLUSTERS: nat := 1 + 32 + 32 + 4
  const FILES: nat := 3
  const UF2_AREA: nat := START_CLUSTERS + FILES
  const RESTART_DELAY_MS: nat := 200

  datatype Reply = Reply(outcome: Flash.Outcome) | Panicked

  /** What the disk does depends on this much of it: the flash range, what reading outside the cells gives, what the
      flash holds once the loaded page is written back, the count of blocks and the timer. */
  datatype Disk = Disk(base: nat, minAddress: nat, maxAddress: nat, pageBits: nat, bus: nat -> byte, image: seq<byte>,
                       blocksWritten: nat, tickMs: nat, restartMs: nat)
  {
    predicate Valid() {
      0 < base <= minAddress <= maxAddress <= base + |image| && maxAddress + Uf2.DATA_LENGTH <= TWO_32 && pageBits <= 32
    }

    function Fitting(address: nat, n: nat): (k: nat)
      requires address <= maxAddress
      ensures k <= n && address + k <= maxAddress
    {
      if address + n <= maxAddress then n else maxAddress - address
    }

    /** write_bytes as a plain update of the image. */
    function WriteBytes(address: nat, bytes: seq<byte>): Disk
      requires Valid() && minAddress <= address <= maxAddress
    {
      this.(image := WriteAt(image, address - base, bytes[..Fitting(address, |bytes|)]))
    }

    function WriteBytesReply(address: nat, n: nat, loaded: Option<nat>): Flash.Outcome
      requires pageBits <= 32
    {
      if address + n > maxAddress || (Flash.TouchesNothing(address, n, pageBits) && loaded == None)
      then Flash.Err(Flash.InvalidAddress) else Flash.Ok
    }

    /** The half word at the end of the range. */
    function EndWord(): (s: seq<byte>)
      ensures |s| == 2
    {
      [Flash.SeenIn(image, base, bus, maxAddress), Flash.SeenIn(image, base, bus, maxAddress + 1)]
    }

    /** What a failed write leaves: that half word at the beginning of the loaded page. */
    function Scrambled(loaded: Option<nat>): Disk {
      match loaded
      case None => this
      case Some(p) =>
        if base <= p && p - base + 2 <= |image| then this.(image := WriteAt(image, p - base, EndWord())) else this
    }

    function Counted(total: nat): Disk {
      var written := (blocksWritten + 1) % TWO_32;
      if written >= total then this.(blocksWritten := written, tickMs := 0, restartMs := RESTART_DELAY_MS)
      else this.(blocksWritten := written)
    }

    function WriteUf2(b: Uf2.Block, loaded: Option<nat>): (Disk, Reply)
      requires Valid() && b.Valid()
    {
      if !(minAddress <= b.targetAddress <= maxAddress) then (this, Reply(Flash.Err(Flash.InvalidAddress)))
      else if b.payloadSize > Uf2.DATA_LENGTH then (this, Panicked)
      else
        var d := WriteBytes(b.targetAddress, b.data[..b.payloadSize]);
        var r := WriteBytesReply(b.targetAddress, b.payloadSize, loaded);
        if r != Flash.Ok then (d.Scrambled(LoadedAfter(b, loaded)), Reply(r))
        else (d.Counted(b.numberOfBlocks), Reply(r))
    }

    /** The page in the buffer after a block, if one was there before. */
    function LoadedAfter(b: Uf2.Block, loaded: Option<nat>): Option<nat>
      requires pageBits <= 32
    {
      if !(minAddress <= b.targetAddress <= maxAddress) || b.payloadSize > Uf2.DATA_LENGTH then loaded
      else Flash.LoadedAfter(b.targetAddress, b.payloadSize, maxAddress, pageBits, loaded)
    }

    /** One sector written by the host; `loaded` is the flash page in the page buffer. */
    function WriteBlock(lba: nat, block: seq<byte>, loaded: Option<nat>): (Disk, Reply)
      requires Valid()
    {
      if lba < UF2_AREA then (this, Reply(Flash.Ok))
      else if |block| < Uf2.BLOCK_BYTES then (this, Reply(Flash.Err(Flash.WriteError)))
      else if |block| > Uf2.BLOCK_BYTES then (this, Panicked)
      else match Uf2.Parse(block)
        case Err(_) => (this, Reply(Flash.Err(Flash.WriteError)))
        case Ok(b) => WriteUf2(b, loaded)
    }

    /** Time passing; the flag says that the device restarts. */
    function Tick(ms: nat): (Disk, bool) {
      if restartMs == 0 then (this, false)
      else if tickMs + ms >= restartMs then (this.(tickMs := 0, restartMs := 0), true)
      else (this.(tickMs := tickMs + ms), false)
    }
  }

  class GhostFat {
    const flash: Flash.FlashWrapper
    var uf2BlocksWritten: nat
    var tickMs: nat
    var restartMs: nat

    constructor (flash: Flash.FlashWrapper)
      requires flash.Valid() && flash.maxAddress + Uf2.DATA_LENGTH <= TWO_32
      ensures this.flash == flash && Valid()
      ensures uf2BlocksWritten == 0 && tickMs == 0 && restartMs == 0
    {
      this.flash := flash;
      uf2BlocksWritten, tickMs, restartMs := 0, 0, 0;
    }

    ghost predicate Valid()
      reads this, flash, flash.chip, flash.pageBuffer, flash.chip.cells
    {
      flash.Valid() && flash.maxAddress + Uf2.DATA_LENGTH <= TWO_32
    }

    ghost function Model(): (d: Disk)
      reads this, flash, flash.chip, flash.pageBuffer, flash.chip.cells
      requires Valid()
      ensures d.Valid()
    {
      Disk(flash.chip.base, flash.minAddress, flash.maxAddress, flash.pageBits, flash.chip.bus, flash.Effective(),
           uf2BlocksWritten, tickMs, restartMs)
    }

    method TriggerDelayedRestart()
      modifies this`tickMs, this`restartMs
      ensures tickMs == 0 && restartMs == RESTART_DELAY_MS
    {
      tickMs, restartMs := 0, RESTART_DELAY_MS;
    }

    method Tick(ms: nat) returns (restarts: bool)
      requires Valid() && tickMs + ms < TWO_32
      modifies this`tickMs, this`restartMs
      ensures Valid()
      ensures (Model(), restarts) == old(Model().Tick(ms))
    {
      restarts := false;
      if restartMs > 0 {
        tickMs := tickMs + ms;
        if tickMs >= restartMs {
          restartMs := 0;
          tickMs := 0;
          restarts := true;
        }
      }
    }

    /** One sector written by the host, also after an earlier one failed. */
    method WriteBlock(lba: nat, block: seq<byte>) returns (r: Reply)
      requires Valid()
      modifies this`uf2BlocksWritten, this`tickMs, this`restartMs
      modifies flash`currentPage, flash`page, flash.pageBuffer, flash.chip`erased, flash.chip`image, flash.chip.cells
      ensures Valid()
      ensures (Model(), r) == old(Model().WriteBlock(lba, block, flash.currentPage))
      ensures r == Reply(Flash.Ok) && (lba >= UF2_AREA || old(flash.Coherent())) ==> flash.chip.image == Model().image
    {
      if lba < UF2_AREA {
        flash.CoherentIff();
        return Reply(Flash.Ok);
      }
      if |block| < Uf2.BLOCK_BYTES {
        return Reply(Flash.Err(Flash.WriteError));
      }
      if |block| != Uf2.BLOCK_BYTES {
        return Panicked;
      }
      var uf2 := Uf2.Parse(block);
      if uf2.Err? {
        return Reply(Flash.Err(Flash.WriteError));
      }
      r := WriteUf2(uf2.value);
    }

    /** The block's bytes go to the flash. */
    method WriteData(address: nat, bytes: seq<byte>) returns (r: Flash.Outcome)
      requires Valid() && flash.minAddress <= address <= flash.maxAddress && |bytes| <= Uf2.DATA_LENGTH
      modifies flash`currentPage, flash`page, flash.pageBuffer, flash.chip`erased, flash.chip`image, flash.chip.cells
      ensures Valid() && r == old(Model().WriteBytesReply(address, |bytes|, flash.currentPage))
      ensures flash.currentPage ==
        Flash.LoadedAfter(address, |bytes|, flash.maxAddress, flash.pageBits, old(flash.currentPage))
      ensures r == Flash.Ok ==> flash.chip.image == Model().image && Model() == old(Model()).WriteBytes(address, bytes)
      ensures r != Flash.Ok ==> Model() == old(Model()).WriteBytes(address, bytes).Scrambled(flash.currentPage)
    {
      ghost var d := Model();
      r := flash.WriteBytes(address, bytes);
      SameButImage(d);
      DataWritten(d, d.WriteBytes(address, bytes), r == Flash.Ok);
    }

    lemma DataWritten(was: Disk, d: Disk, ok: bool)
      requires Valid() && Model() == was.(image := flash.Effective()) && d == was.(image := flash.chip.image)
      requires if ok then flash.Coherent() else flash.Scrambled()
      ensures if ok then Model() == d else Model() == d.Scrambled(flash.currentPage)
    {
      if ok {
        flash.CoherentIff();
      } else {
        ScrambledModel(d);
      }
    }

    /** The rest of the disk as it was. */
    lemma SameButImage(d: Disk)
      requires Valid() && d.base == flash.chip.base && d.minAddress == flash.minAddress
      requires d.maxAddress == flash.maxAddress && d.pageBits == flash.pageBits && d.bus == flash.chip.bus
      requires d.blocksWritten == uf2BlocksWritten && d.tickMs == tickMs && d.restartMs == restartMs
      ensures Model() == d.(image := flash.Effective())
    {
    }

    lemma ScrambledModel(d: Disk)
      requires Valid() && flash.Scrambled() && d.image == flash.chip.image && Model() == d.(image := flash.Effective())
      ensures Model() == d.Scrambled(flash.currentPage)
    {
      flash.EffectiveWhenScrambled();
    }

    method WriteUf2(b: Uf2.Block) returns (r: Reply)
      requires Valid() && b.Valid()
      modifies this`uf2BlocksWritten, this`tickMs, this`restartMs
      modifies flash`currentPage, flash`page, flash.pageBuffer, flash.chip`erased, flash.chip`image, flash.chip.cells
      ensures Valid()
      ensures (Model(), r) == old(Model().WriteUf2(b, flash.currentPage))
      ensures flash.currentPage == old(Model().LoadedAfter(b, flash.currentPage))
      ensures r == Reply(Flash.Ok) ==> flash.chip.image == Model().image
    {
      if !(flash.minAddress <= b.targetAddress <= flash.maxAddress) {
        return Reply(Flash.Err(Flash.InvalidAddress));
      }
      if b.payloadSize > Uf2.DATA_LENGTH {
        return Panicked;
      }
      var written := WriteData(b.targetAddress, b.data[..b.payloadSize]);
      if written != Flash.Ok {
        return Reply(written);
      }
      uf2BlocksWritten := (uf2BlocksWritten + 1) % TWO_32;
      if uf2BlocksWritten >= b.numberOfBlocks {
        TriggerDelayedRestart();
      }
      return Reply(Flash.Ok);
    }
  }

  // ---- A whole update ----

  /** What the host may do while it copies a converted image: write one of its blocks to some sector of the data area,
      write anything to the sectors before it, or let time pass. */
  datatype HostAction = CopyBlock(index: nat, lba: nat, loaded: Option<nat>)
                      | UpdateTables(lba: nat, block: seq<byte>)
                      | Wait(ms: nat)

  /** An image that fits the flash range, and the sizes it is converted with. */
  datatype Update = Update(data: seq<byte>, pageSize: nat, size: nat, address: nat)
  {
    predicate Fits(d: Disk) {
      && d.Valid() && 0 < pageSize && Uf2.BlockSize(pageSize) == Uf2.Ok(size) && 2 <= size <= Uf2.DATA_LENGTH
      && d.minAddress <= address && address + |data| <= d.maxAddress
    }

    /** How many blocks the image takes. */
    function Total(): nat
      requires 0 < size
    {
      |Uf2.Chunks(data, size)|
    }

    predicate Allows(a: HostAction)
      requires 0 < size
    {
      match a
      case CopyBlock(index, lba, _) => index < Total() && lba >= UF2_AREA
      case UpdateTables(lba, _) => lba < UF2_AREA
      case Wait(_) => true
    }

    /** What one action does to the disk, what the host is told, and whether the device restarts. */
    function Do(d: Disk, a: HostAction): (Disk, Reply, bool)
      requires Fits(d) && Allows(a)
    {
      match a
      case CopyBlock(index, lba, loaded) =>
        Uf2.ConvertedBlock(data, pageSize, address, index);
        var (d', r) := d.WriteBlock(lba, Uf2.Piece(Uf2.ConvertBin(data, pageSize, address).value, index), loaded);
        (d', r, false)
      case UpdateTables(lba, block) =>
        var (d', r) := d.WriteBlock(lba, block, None);
        (d', r, false)
      case Wait(ms) =>
        var (d', restarts) := d.Tick(ms);
        (d', Reply(Flash.Ok), restarts)
    }
  }

  function Copies(actions: seq<HostAction>): nat {
    if |actions| == 0 then 0
    else Copies(actions[..|actions| - 1]) + if actions[|actions| - 1].CopyBlock? then 1 else 0
  }

  function Indices(actions: seq<HostAction>): set<nat> {
    if |actions| == 0 then {}
    else
      var last := actions[|actions| - 1];
      Indices(actions[..|actions| - 1]) + if last.CopyBlock? then {last.index} else {}
  }

  /** `image` with those blocks of the data written whose index is in `done`. */
  function Covered(image: seq<byte>, at: nat, data: seq<byte>, size: nat, done: set<nat>): (r: seq<byte>)
    requires size > 0
    ensures |r| == |image|
  {
    seq(|image|, k requires 0 <= k < |image| =>
      if at <= k < at + |data| && (k - at) / size in done then data[k - at] else image[k])
  }

  lemma BlockOf(size: nat, i: nat, k: nat)
    requires size > 0
    ensures k / size == i <==> size * i <= k < size * i + size
  {
    assert k == size * (k / size) + k % size;
    if size * i <= k < size * i + size {
      DivModUnique(k, size, i, k - size * i);
    }
  }

  /** Writing one more chunk covers exactly the bytes of its block. */
  lemma CoverOne(image: seq<byte>, at: nat, data: seq<byte>, size: nat, done: set<nat>, i: nat)
    requires size > 0 && at + |data| <= |image| && i < |Uf2.Chunks(data, size)|
    ensures var chunk := Uf2.Chunks(data, size)[i];
      && at + size * i + |chunk| <= |image|
      && WriteAt(Covered(image, at, data, size, done), at + size * i, chunk) ==
        Covered(image, at, data, size, done + {i})
  {
    Uf2.ChunkAt(data, size, i);
    var chunk := Uf2.Chunks(data, size)[i];
    var was := Covered(image, at, data, size, done);
    forall k | 0 <= k < |image|
      ensures WriteAt(was, at + size * i, chunk)[k] == Covered(image, at, data, size, done + {i})[k]
    {
      if at <= k {
        BlockOf(size, i, k - at);
      }
    }
  }

  /** The disk once `copies` of the blocks, covering the indices `done`, have been written; the last one arms the
      restart. */
  function After(d: Disk, u: Update, copies: nat, done: set<nat>): Disk
    requires u.Fits(d)
  {
    var d' := d.(image := Covered(d.image, u.address - d.base, u.data, u.size, done), blocksWritten := copies);
    if copies < u.Total() then d' else d'.(tickMs := 0, restartMs := RESTART_DELAY_MS)
  }

  lemma WriteInRange(d: Disk, b: Uf2.Block, loaded: Option<nat>)
    requires d.Valid() && b.Valid() && 0 < b.payloadSize <= Uf2.DATA_LENGTH
    requires d.minAddress <= b.targetAddress && b.targetAddress + b.payloadSize <= d.maxAddress
    ensures d.WriteUf2(b, loaded) ==
      (WroteChunk(d, b.targetAddress, b.data[..b.payloadSize], b.numberOfBlocks), Reply(Flash.Ok))
  {
    var bytes := b.data[..b.payloadSize];
    assert bytes[..|bytes|] == bytes;
  }

  lemma ChunkFits(u: Update, d: Disk, i: nat)
    requires u.Fits(d) && i < u.Total()
    ensures var chunk := Uf2.Chunks(u.data, u.size)[i];
      && 0 < |chunk| <= u.size <= Uf2.DATA_LENGTH && u.size * i + |chunk| <= |u.data|
      && d.minAddress <= u.address + u.size * i && u.address + u.size * i + |chunk| <= d.maxAddress
    ensures u.Total() < TWO_32
  {
    Uf2.ChunkAt(u.data, u.size, i);
    Uf2.FewChunks(u.data, u.size);
  }

  /** Block `i` of the converted image, as the disk parses it. */
  function Block(u: Update, d: Disk, i: nat): (b: Uf2.Block)
    requires u.Fits(d) && i < u.Total()
    ensures b.Valid() && b.targetAddress == u.address + u.size * i && b.numberOfBlocks == u.Total()
    ensures var chunk := Uf2.Chunks(u.data, u.size)[i];
      b.payloadSize == |chunk| <= Uf2.DATA_LENGTH && b.data[..b.payloadSize] == chunk
  {
    Uf2.ConvertedBlock(u.data, u.pageSize, u.address, i);
    Uf2.Parse(Uf2.Piece(Uf2.ConvertBin(u.data, u.pageSize, u.address).value, i)).value
  }

  lemma DoIsWriteUf2(u: Update, d: Disk, a: HostAction)
    requires u.Fits(d) && u.Allows(a) && a.CopyBlock?
    ensures var (d', r) := d.WriteUf2(Block(u, d, a.index), a.loaded);
      u.Do(d, a) == (d', r, false)
  {
    Uf2.ConvertedBlock(u.data, u.pageSize, u.address, a.index);
  }

  function Programmed(u: Update, d: Disk, i: nat): Disk
    requires u.Fits(d) && i < u.Total()
  {
    ChunkFits(u, d, i);
    WroteChunk(d, u.address + u.size * i, Uf2.Chunks(u.data, u.size)[i], u.Total())
  }

  function WroteChunk(d: Disk, address: nat, chunk: seq<byte>, total: nat): Disk
    requires d.Valid() && d.minAddress <= address && address + |chunk| <= d.maxAddress
  {
    d.(image := WriteAt(d.image, address - d.base, chunk)).Counted(total)
  }

  lemma WriteBlockOf(u: Update, d: Disk, i: nat, loaded: Option<nat>)
    requires u.Fits(d) && i < u.Total()
    ensures d.WriteUf2(Block(u, d, i), loaded) == (Programmed(u, d, i), Reply(Flash.Ok))
  {
    BlockFits(u, d, i, Block(u, d, i));
    WriteInRange(d, Block(u, d, i), loaded);
  }

  lemma BlockFits(u: Update, d: Disk, i: nat, b: Uf2.Block)
    requires u.Fits(d) && i < u.Total() && b.Valid()
    requires b.targetAddress == u.address + u.size * i && b.numberOfBlocks == u.Total()
    requires b.payloadSize == |Uf2.Chunks(u.data, u.size)[i]| <= Uf2.DATA_LENGTH
    requires b.data[..b.payloadSize] == Uf2.Chunks(u.data, u.size)[i]
    ensures
      && 0 < b.payloadSize <= Uf2.DATA_LENGTH && d.minAddress <= b.targetAddress
      && b.targetAddress + b.payloadSize <= d.maxAddress
      && WroteChunk(d, b.targetAddress, b.data[..b.payloadSize], b.numberOfBlocks) == Programmed(u, d, i)
  {
    ChunkFits(u, d, i);
  }

  /** Copying one of the image's blocks writes its chunk and counts it. */
  lemma CopyBlock(u: Update, d: Disk, a: HostAction)
    requires u.Fits(d) && u.Allows(a) && a.CopyBlock?
    ensures u.Do(d, a) == (Programmed(u, d, a.index), Reply(Flash.Ok), false)
  {
    DoIsWriteUf2(u, d, a);
    WriteBlockOf(u, d, a.index, a.loaded);
  }

  lemma ProgrammedImage(u: Update, d: Disk, done: set<nat>, i: nat)
    requires u.Fits(d) && i < u.Total()
    ensures var at, chunk := u.address + u.size * i - d.base, Uf2.Chunks(u.data, u.size)[i];
      && 0 <= at && at + |chunk| <= |d.image|
      && WriteAt(Covered(d.image, u.address - d.base, u.data, u.size, done), at, chunk) ==
           Covered(d.image, u.address - d.base, u.data, u.size, done + {i})
  {
    CoverOne(d.image, u.address - d.base, u.data, u.size, done, i);
    assert u.address + u.size * i - d.base == u.address - d.base + u.size * i;
  }

  lemma ProgrammedAfter(u: Update, d: Disk, copies: nat, done: set<nat>, i: nat)
    requires u.Fits(d) && d.restartMs == 0 && i < u.Total() && copies < u.Total()
    requires u.Fits(After(d, u, copies, done))
    ensures Programmed(u, After(d, u, copies, done), i) == After(d, u, copies + 1, done + {i})
  {
    ChunkFits(u, d, i);
    ProgrammedImage(u, d, done, i);
    CountedAfter(u, d, copies, done, u.address + u.size * i, Uf2.Chunks(u.data, u.size)[i], done + {i});
  }

  lemma CountedAfter(u: Update, d: Disk, copies: nat, done: set<nat>, address: nat, chunk: seq<byte>, more: set<nat>)
    requires u.Fits(d) && d.restartMs == 0 && copies < u.Total() < TWO_32
    requires d.minAddress <= address && address + |chunk| <= d.maxAddress
    requires WriteAt(Covered(d.image, u.address - d.base, u.data, u.size, done), address - d.base, chunk) ==
      Covered(d.image, u.address - d.base, u.data, u.size, more)
    ensures WroteChunk(After(d, u, copies, done), address, chunk, u.Total()) == After(d, u, copies + 1, more)
  {
  }

  /** What every action does to an update under way. */
  lemma DoKeeps(u: Update, d: Disk, copies: nat, done: set<nat>, a: HostAction)
    requires u.Fits(d) && d.restartMs == 0 && u.Allows(a) && copies < u.Total()
    requires u.Fits(After(d, u, copies, done))
    ensures u.Do(After(d, u, copies, done), a) ==
      (if a.CopyBlock? then After(d, u, copies + 1, done + {a.index}) else After(d, u, copies, done),
       Reply(Flash.Ok), false)
  {
    if a.CopyBlock? {
      CopyBlock(u, After(d, u, copies, done), a);
      ProgrammedAfter(u, d, copies, done, a.index);
    }
  }

  ghost predicate Allowed(u: Update, d: Disk, actions: seq<HostAction>) {
    u.Fits(d) && forall i | 0 <= i < |actions| :: u.Allows(actions[i])
  }

  lemma FitsAfter(u: Update, d: Disk, a: HostAction)
    requires u.Fits(d) && u.Allows(a)
    ensures u.Fits(u.Do(d, a).0)
  {
    if a.CopyBlock? {
      CopyBlock(u, d, a);
    }
  }

  /** A disk and whether so far every reply was Ok and the device never restarted. */
  datatype Progress = Progress(disk: Disk, quiet: bool)

  function Next(u: Update, p: Progress, a: HostAction): Progress
    requires u.Fits(p.disk) && u.Allows(a)
  {
    var (after, reply, restarts) := u.Do(p.disk, a);
    Progress(after, p.quiet && reply == Reply(Flash.Ok) && !restarts)
  }

  /** The disk after a run of host actions. */
  ghost function Run(u: Update, d: Disk, actions: seq<HostAction>): (p: Progress)
    requires Allowed(u, d, actions)
    ensures u.Fits(p.disk)
  {
    if |actions| == 0 then Progress(d, true)
    else
      var before := Run(u, d, actions[..|actions| - 1]);
      FitsAfter(u, before.disk, actions[|actions| - 1]);
      Next(u, before, actions[|actions| - 1])
  }

  /** After any run that has not copied more blocks than the image has, the flash is the old flash overlaid with the
      blocks copied so far, in whatever order they came, and the restart is armed exactly when as many blocks as the
      image has were copied. */
  lemma {:induction false} UpdateUnderWay(u: Update, d: Disk, actions: seq<HostAction>)
    requires Allowed(u, d, actions) && d.blocksWritten == 0 && d.restartMs == 0
    requires |u.data| > 0 && (actions != [] ==> Copies(actions[..|actions| - 1]) < u.Total())
    ensures Run(u, d, actions) == Progress(After(d, u, Copies(actions), Indices(actions)), true)
  {
    if |actions| == 0 {
      NothingCovered(d.image, u.address - d.base, u.data, u.size);
    } else {
      var before := actions[..|actions| - 1];
      if before != [] {
        CopiesGrow(before, |before| - 1, |before|);
      }
      UpdateUnderWay(u, d, before);
      OneMore(u, d, actions);
    }
  }

  lemma NothingCovered(image: seq<byte>, at: nat, data: seq<byte>, size: nat)
    requires size > 0
    ensures Covered(image, at, data, size, {}) == image
  {
  }

  lemma OneMore(u: Update, d: Disk, actions: seq<HostAction>)
    requires Allowed(u, d, actions) && d.restartMs == 0 && actions != []
    requires Copies(actions[..|actions| - 1]) < u.Total()
    requires Run(u, d, actions[..|actions| - 1]) ==
      Progress(After(d, u, Copies(actions[..|actions| - 1]), Indices(actions[..|actions| - 1])), true)
    ensures Run(u, d, actions) == Progress(After(d, u, Copies(actions), Indices(actions)), true)
  {
    var before, a := actions[..|actions| - 1], actions[|actions| - 1];
    NextKeeps(u, d, Copies(before), Indices(before), a);
  }

  lemma NextKeeps(u: Update, d: Disk, copies: nat, done: set<nat>, a: HostAction)
    requires u.Fits(d) && d.restartMs == 0 && u.Allows(a) && copies < u.Total()
    requires u.Fits(After(d, u, copies, done))
    ensures Next(u, Progress(After(d, u, copies, done), true), a) ==
      Progress(if a.CopyBlock? then After(d, u, copies + 1, done + {a.index}) else After(d, u, copies, done), true)
  {
    DoKeeps(u, d, copies, done, a);
  }

  lemma CoversAll(image: seq<byte>, at: nat, data: seq<byte>, size: nat, done: set<nat>)
    requires size > 0 && at + |data| <= |image|
    requires forall k | 0 <= k < |data| :: k / size in done
    ensures Covered(image, at, data, size, done) == WriteAt(image, at, data)
  {
  }

  lemma EveryBlockCoversAll(image: seq<byte>, at: nat, data: seq<byte>, size: nat, done: set<nat>)
    requires size > 0 && at + |data| <= |image|
    requires forall j | 0 <= j < |Uf2.Chunks(data, size)| :: j in done
    ensures Covered(image, at, data, size, done) == WriteAt(image, at, data)
  {
    forall k | 0 <= k < |data| ensures k / size in done {
      Uf2.ChunkOf(data, size, k);
    }
    CoversAll(image, at, data, size, done);
  }

  /** A converted image whose blocks all reach the disk, in any order, amid any other traffic, is in flash byte for
      byte when its last block has been copied, and nothing else in flash changed. Only that last block arms the
      restart: before it the delay is not running and the device has not restarted. */
  lemma AnyOrderProgramsTheImage(u: Update, d: Disk, actions: seq<HostAction>)
    requires Allowed(u, d, actions) && d.blocksWritten == 0 && d.restartMs == 0
    requires |actions| > 0 && actions[|actions| - 1].CopyBlock?
    requires Copies(actions) == u.Total() && forall j | 0 <= j < u.Total() :: j in Indices(actions)
    ensures Run(u, d, actions).quiet
    ensures Run(u, d, actions).disk ==
      d.(image := WriteAt(d.image, u.address - d.base, u.data), blocksWritten := u.Total(), tickMs := 0,
         restartMs := RESTART_DELAY_MS)
    ensures forall m | 0 <= m < |actions| ::
      Run(u, d, actions[..m]).quiet && Run(u, d, actions[..m]).disk.restartMs == 0
  {
    UpdateUnderWay(u, d, actions);
    CompleteImage(u, d, Indices(actions));
    forall m | 0 <= m < |actions| ensures Run(u, d, actions[..m]).quiet && Run(u, d, actions[..m]).disk.restartMs == 0 {
      CopiesGrow(actions, m, |actions| - 1);
      NotYetArmed(u, d, actions[..m]);
    }
  }

  lemma CompleteImage(u: Update, d: Disk, done: set<nat>)
    requires u.Fits(d) && forall j | 0 <= j < u.Total() :: j in done
    ensures After(d, u, u.Total(), done) ==
      d.(image := WriteAt(d.image, u.address - d.base, u.data), blocksWritten := u.Total(), tickMs := 0,
         restartMs := RESTART_DELAY_MS)
  {
    EveryBlockCoversAll(d.image, u.address - d.base, u.data, u.size, done);
  }

  lemma NotYetArmed(u: Update, d: Disk, actions: seq<HostAction>)
    requires Allowed(u, d, actions) && d.blocksWritten == 0 && d.restartMs == 0
    requires Copies(actions) < u.Total()
    ensures Run(u, d, actions).quiet && Run(u, d, actions).disk.restartMs == 0
  {
    if actions != [] {
      CopiesGrow(actions, |actions| - 1, |actions|);
    }
    UpdateUnderWay(u, d, actions);
  }

  lemma {:induction false} CopiesGrow(actions: seq<HostAction>, m: nat, n: nat)
    requires m <= n <= |actions|
    ensures Copies(actions[..m]) <= Copies(actions[..n])
    decreases n
  {
    if m < n {
      CopiesGrow(actions, m, n - 1);
      assert actions[..n][..n - 1] == actions[..n - 1];
    }
  }

  // ---- The restart delay ----

  function Sum(ms: seq<nat>): nat {
    if |ms| == 0 then 0 else Sum(ms[..|ms| - 1]) + ms[|ms| - 1]
  }

  function Ticks(d: Disk, ms: seq<nat>): (r: (Disk, nat))
  {
    if |ms| == 0 then (d, 0)
    else
      var (d1, restarts) := Ticks(d, ms[..|ms| - 1]);
      var (d2, restart) := d1.Tick(ms[|ms| - 1]);
      (d2, restarts + if restart then 1 else 0)
  }

  /** Once armed, the device restarts at the first tick by which the delay has passed, and only once. */
  lemma {:induction false} RestartsOnceDelayPassed(d: Disk, ms: seq<nat>)
    requires d.restartMs == RESTART_DELAY_MS && d.tickMs == 0
    ensures Ticks(d, ms).1 == if Sum(ms) >= RESTART_DELAY_MS then 1 else 0
    ensures Ticks(d, ms).0 ==
      if Sum(ms) >= RESTART_DELAY_MS then d.(tickMs := 0, restartMs := 0) else d.(tickMs := Sum(ms))
  {
    if |ms| > 0 {
      RestartsOnceDelayPassed(d, ms[..|ms| - 1]);
    }
  }

  // ---- A write after a failed one ----

  /** The bootloader on a part with 128 KiB of flash in pages of 1 KiB: the range ends where the flash ends. */
  function Part(image: seq<byte>, bus: nat -> byte): (d: Disk)
    requires |image| == 0x2_0000
    ensures d.Valid()
  {
    Disk(0x0800_0000, 0x0801_0000, 0x0802_0000, 10, bus, image, 0, 0, 0)
  }

  /** A block that runs past the end of the flash is refused, but then the page before the end is in the buffer with a
      foreign first half word; the next block for that page is accepted and puts the half word into the flash, at
      addresses that neither block names. */
  lemma FailedWriteSpoilsTheNext(image: seq<byte>, bus: nat -> byte, past: Uf2.Block, next: Uf2.Block)
    requires |image| == 0x2_0000 && past.Valid() && next.Valid()
    requires past.targetAddress == 0x0801_FF00 && 0x100 < past.payloadSize <= Uf2.DATA_LENGTH
    requires next.targetAddress == 0x0801_FE00 && next.payloadSize == 0x100
    ensures var (d1, r1) := Part(image, bus).WriteUf2(past, None);
      var (d2, r2) := d1.WriteUf2(next, Part(image, bus).LoadedAfter(past, None));
      && r1 == Reply(Flash.Err(Flash.InvalidAddress)) && r2 == Reply(Flash.Ok)
      && d2.image[0x1_FC00] == bus(0x0802_0000) && d2.image[0x1_FC01] == bus(0x0802_0001)
  {
    var d := Part(image, bus);
    LastPageLoaded();
    var written := d.WriteBytes(past.targetAddress, past.data[..past.payloadSize]);
    assert d.LoadedAfter(past, None) == Some(0x0801_FC00);
    var d1 := d.WriteUf2(past, None).0;
    assert d1 == written.Scrambled(Some(0x0801_FC00));
    assert d1.image[0x1_FC00] == bus(0x0802_0000) && d1.image[0x1_FC01] == bus(0x0802_0001);
  }

  lemma LastPageLoaded()
    ensures Pow2(10) == 1024
  {
    assert Pow2(5) == 32;
    Pow2Add(5, 5);
  }
}
