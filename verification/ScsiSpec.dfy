/** The SCSI command layer on top of the transport, as a function of its state, and the meaning of whole sessions of
    Read commands: what the host receives, which blocks are read, and that nothing gets stuck. */
module ScsiSpec {
  import opened Bytes
  import opened Wrappers
  import opened TransportSpec

  const BLOCK_BYTES: nat := 512

  type Block = s: seq<byte> | |s| == BLOCK_BYTES witness seq(BLOCK_BYTES, _ => 0)

  datatype Command = NoCommand | Read(first: nat, count: nat)

  /** Parses the three Read commands; None stands for every error and for commands outside this model. */
  function ExtractRead(cbw: Cbw): Option<Command> {
    if |cbw.data| != 16 then None
    else if cbw.data[0] == 0x08 && cbw.dataLength >= 6 then
      Some(Read(BeVal(cbw.data[1..4]) % 0x20_0000, cbw.data[4]))
    else if cbw.data[0] == 0x28 && cbw.dataLength >= 10 then Some(Read(BeVal(cbw.data[2..6]), BeVal(cbw.data[7..9])))
    else if cbw.data[0] == 0xA8 && cbw.dataLength >= 12 then Some(Read(BeVal(cbw.data[2..6]), BeVal(cbw.data[6..10])))
    else None
  }

  datatype CommandState = Idle | Done | Ongoing | Blocked

  datatype Scsi = Scsi(link: Link, disk: nat -> Block, command: Command, lba: nat, lbaEnd: nat,
                       log: seq<nat>)  // the blocks read from the device, in order
  {
    /** None is the error of a command that cannot be parsed. */
    function GetNewCommand(): Option<(bool, Scsi)> {
      if command != NoCommand then Some((false, this))
      else match link.bot.GetCurrentCommand()
           case None => Some((false, this))
           case Some(cbw) =>
             match ExtractRead(cbw)
             case None => None
             case Some(c) => Some((true, this.(command := c)))
    }

    /** Queues one block per call. The block numbers are 32-bit words. */
    function ProcessCommand(newCommand: bool): (r: (CommandState, Scsi))
      requires link.Bounded()
      ensures r.1.link.Bounded()
    {
      match command
      case NoCommand => (Idle, this)
      case Read(first, count) =>
        var s := if newCommand then this.(lba := first, lbaEnd := (first + count - 1) % TWO_32) else this;
        match s.link.Put(s.disk(s.lba))
        case None => (Blocked, s)
        case Some(l) =>
          var s' := s.(link := l, log := s.log + [s.lba], lba := (s.lba + 1) % TWO_32);
          (if s'.lba <= s'.lbaEnd then Ongoing else Done, s')
    }

    predicate Skip() {
      match link.bot.GetTransferState()
      case Receiving(_, full, done) => !(full || done)
      case Sending(_, empty) => !empty
      case NotTransferring(_, empty) => !empty
    }

    function ReceiveCommand(): (r: Scsi)
      requires link.Bounded()
      ensures r.link.Bounded()
    {
      if Skip() then this
      else match GetNewCommand()
           case None => this
           case Some((isNew, s)) => s.Execute(isNew)
    }

    /** Executes a step of the current command and ends it if that was the last. */
    function Execute(isNew: bool): (r: Scsi)
      requires link.Bounded()
      ensures r.link.Bounded()
    {
      var (state, s) := ProcessCommand(isNew);
      if state != Done then s
      else
        var (r, l) := s.link.SendStatus(CommandOk);
        s.(link := l, command := if r == Ok then NoCommand else s.command)
    }

    function DoWrite(): (r: Scsi)
      requires link.Bounded()
      ensures r.link.Bounded()
    {
      this.(link := link.Write().1)
    }

    function Update(): (r: Scsi)
      requires link.Bounded()
      ensures r.link.Bounded()
    {
      var s := DoWrite();
      var (r, l) := s.link.Read();
      if r == DataError || s.(link := l).Unparseable() then s.(link := l)
      else s.(link := l).ReceiveCommand().DoWrite()
    }

    /** A command that cannot be parsed ends the poll. */
    predicate Unparseable()
      requires link.Bounded()
    {
      !Skip() && GetNewCommand() == None
    }
  }

  /** Every poll keeps the transport settled, whatever commands the host sends. */
  lemma UpdateSettles(s: Scsi)
    requires s.link.Bounded() && s.link.Settled()
    ensures s.DoWrite().link.Settled() && s.Update().link.Settled()
  {
    WriteSettles(s.link);
    var s1 := s.DoWrite();
    ReadSettles(s1.link);
    var (r, l) := s1.link.Read();
    var s2 := s1.(link := l);
    if r != DataError && !s2.Unparseable() {
      ReceiveCommandSettles(s2);
      WriteSettles(s2.ReceiveCommand().link);
    }
  }

  lemma ReceiveCommandSettles(s: Scsi)
    requires s.link.Bounded() && s.link.Settled()
    ensures s.ReceiveCommand().link.Settled()
  {
    if !s.Skip() && s.GetNewCommand().Some? {
      var (isNew, s1) := s.GetNewCommand().value;
      var (state, s2) := s1.ProcessCommand(isNew);
      if state == Done {
        CheckSettles(Link(s2.link.bot.(status := CommandOk, dataDone := true), s2.link.wire));
      }
    }
  }

  // ---- What the host is owed ----

  function Blocks(disk: nat -> Block, first: nat, n: nat): (s: seq<byte>)
    ensures |s| == 512 * n
  {
    if n == 0 then [] else Blocks(disk, first, n - 1) + disk(first + n - 1)
  }

  function Range(first: nat, n: nat): seq<nat> {
    seq(n, i requires 0 <= i < n => first + i)
  }

  /** A Read the device supports: a 31-byte wrapper for a transfer to the host, at least one block, block numbers
      that fit 32 bits, and room for all the blocks in the length the host asks for. */
  predicate IsRead(p: seq<byte>) {
    && |p| == CBW_BYTES && SignatureAt(p, 0)
    && var cbw := DecodeCbw(p);
    && cbw.Some? && cbw.value.direction == DeviceToHost
    && var c := ExtractRead(cbw.value);
    && c.Some? && c.value.Read?
    && c.value.count >= 1 && c.value.first + c.value.count < TWO_32
    && cbw.value.length >= 512 * c.value.count
  }

  function CbwOf(p: seq<byte>): (cbw: Cbw)
    requires IsRead(p)
    ensures cbw.tag < TWO_32 && cbw.length < TWO_32
  {
    DecodeCbw(p).value
  }

  function ReadOf(p: seq<byte>): (c: Command)
    requires IsRead(p)
    ensures c.Read?
  {
    ExtractRead(CbwOf(p)).value
  }

  function Data(disk: nat -> Block, p: seq<byte>): (s: seq<byte>)
    requires IsRead(p)
  {
    Blocks(disk, ReadOf(p).first, ReadOf(p).count)
  }

  function Csw(p: seq<byte>): seq<byte>
    requires IsRead(p)
  {
    CswBytes(CbwOf(p).tag, CbwOf(p).length - 512 * ReadOf(p).count, CommandOk)
  }

  predicate AllReads(packets: seq<seq<byte>>) {
    forall i | 0 <= i < |packets| :: IsRead(packets[i])
  }

  /** The blocks asked for, then one status wrapper, command after command. */
  function Answers(disk: nat -> Block, packets: seq<seq<byte>>): seq<byte>
    requires AllReads(packets)
  {
    if |packets| == 0 then []
    else var i := |packets| - 1; Answers(disk, packets[..i]) + Data(disk, packets[i]) + Csw(packets[i])
  }

  function BlocksRead(packets: seq<seq<byte>>): seq<nat>
    requires AllReads(packets)
  {
    if |packets| == 0 then []
    else var i := |packets| - 1; BlocksRead(packets[..i]) + Range(ReadOf(packets[i]).first, ReadOf(packets[i]).count)
  }

  // ---- The session invariant ----

  /** `j` of the last command's blocks have been queued. */
  ghost predicate DataPhase(s: Scsi, j: nat)
    requires AllReads(s.link.wire.taken) && |s.link.wire.taken| > 0
  {
    var b, wire := s.link.bot, s.link.wire;
    var i := |wire.taken| - 1;
    var p := wire.taken[i];
    var c := ReadOf(p);
    && j <= c.count
    && b.cbw == CbwOf(p) && b.status == CommandOk
    && BlocksQueued(s, wire.taken[..i], c.first, j)
    && b.residue == b.cbw.length - 512 * j + |b.pending|
    && (b.pending == [] ==> b.dataI == 0)
    && if j == 0 then s.command == NoCommand && !b.dataDone && b.pending == []
       else if j < c.count then s.command == c && !b.dataDone && s.lba == c.first + j
         && s.lbaEnd == c.first + c.count - 1
       else s.command == NoCommand && b.dataDone && b.pending != []
  }

  /** What was sent and what is buffered are the answers to the earlier commands and `j` blocks from `first` on. */
  ghost predicate BlocksQueued(s: Scsi, earlier: seq<seq<byte>>, first: nat, j: nat)
    requires AllReads(earlier)
  {
    && s.link.wire.Stream() + s.link.bot.pending == Answers(s.disk, earlier) + Blocks(s.disk, first, j)
    && s.log == BlocksRead(earlier) + Range(first, j)
  }

  ghost predicate StatusPhase(s: Scsi)
    requires AllReads(s.link.wire.taken)
  {
    && s.command == NoCommand
    && s.link.wire.Stream() + s.link.bot.pending == Answers(s.disk, s.link.wire.taken)
    && s.log == BlocksRead(s.link.wire.taken)
  }

  /** What holds in every phase. */
  ghost predicate Basics(s: Scsi) {
    && s.link.Inv() && CBW_BYTES <= s.link.bot.maxPacket
    && AllReads(s.link.wire.taken) && AllReads(s.link.wire.incoming)
    && (s.link.bot.state == SendingDataToHost ==> |s.link.wire.taken| > 0)
  }

  ghost predicate Inv(s: Scsi) {
    var b, wire := s.link.bot, s.link.wire;
    && Basics(s)
    && match b.state
       case WaitingForCommand => b.pending == [] && StatusPhase(s)
       case SendingDataToHost => exists j: nat :: DataPhase(s, j)
       case ReceivingDataFromHost => false
       case NeedZlp => b.pending != [] && StatusPhase(s)
       case NeedToSendStatus => StatusPhase(s)
  }

  // ---- Each part of a poll keeps the invariant; the device is only read, the stream only grows ----

  ghost predicate Extends(s: Scsi, s': Scsi) {
    && s'.disk == s.disk && s'.link.wire.ready == s.link.wire.ready
    && s.link.wire.clock <= s'.link.wire.clock
    && |s.link.wire.Stream()| <= |s'.link.wire.Stream()|
    && s'.link.wire.taken + s'.link.wire.incoming == s.link.wire.taken + s.link.wire.incoming
    && s'.link.bot.maxPacket == s.link.bot.maxPacket
  }

  /** All blocks are out: the data phase ends, and what is due next is the status wrapper. */
  lemma EndsWithStatus(s: Scsi)
    requires s.link.Inv() && s.link.bot.state == SendingDataToHost && s.command == NoCommand
    requires s.link.bot.pending == []
    requires var t := s.link.wire.taken;
      && AllReads(t) && |t| > 0
      && var p := t[|t| - 1];
      && s.link.bot.cbw == CbwOf(p) && s.link.bot.status == CommandOk
      && s.link.bot.residue == CbwOf(p).length - 512 * ReadOf(p).count
      && s.link.wire.Stream() == Answers(s.disk, t[..|t| - 1]) + Data(s.disk, p)
      && s.log == BlocksRead(t)
    ensures var s' := s.(link := s.link.EndDataTransfer().1);
      && AllReads(s'.link.wire.taken) && StatusPhase(s')
      && (s'.link.bot.state == NeedZlp ==> s'.link.bot.pending != [])
      && (s'.link.bot.state == NeedZlp || s'.link.bot.state == NeedToSendStatus)
  {
    EndReportsResidue(s.link);
    EndOnlySends(s.link);
    PackedIsCsw(s.link, s.link.wire.taken[|s.link.wire.taken| - 1]);
    StatusFollows(s, s.link.EndDataTransfer().1);
  }

  lemma PackedIsCsw(l: Link, p: seq<byte>)
    requires IsRead(p) && l.bot.cbw == CbwOf(p) && l.bot.status == CommandOk
    requires l.bot.residue == CbwOf(p).length - 512 * ReadOf(p).count && l.bot.residue < TWO_32
    requires l.bot.cbw.tag < TWO_32
    ensures CswBytes(l.bot.cbw.tag, l.bot.residue, l.bot.status) == Csw(p)
  {
  }

  /** The answer to the last command is its data and then its status wrapper. */
  lemma StatusFollows(s: Scsi, l: Link)
    requires s.command == NoCommand && l.wire.taken == s.link.wire.taken
    requires var t := s.link.wire.taken;
      && AllReads(t) && |t| > 0
      && var p := t[|t| - 1];
      && s.link.wire.Stream() == Answers(s.disk, t[..|t| - 1]) + Data(s.disk, p)
      && s.log == BlocksRead(t) && s.link.wire.Stream() <= l.wire.Stream()
      && l.wire.Stream()[|s.link.wire.Stream()|..] + l.bot.pending == Csw(p)
    ensures StatusPhase(s.(link := l))
  {
    var t := s.link.wire.taken;
    PhaseOutput(s.link.wire.Stream(), l.wire.Stream(), l.bot.pending, Csw(t[|t| - 1]));
  }

  /** What a phase has sent and what it still holds, put after the stream from before the phase. */
  lemma PhaseOutput(before: seq<byte>, stream: seq<byte>, pending: seq<byte>, phase: seq<byte>)
    requires before <= stream && stream[|before|..] + pending == phase
    ensures stream + pending == before + phase
  {
    assert stream == before + stream[|before|..];
  }

  /** One flush of a data phase. */
  lemma FlushKeepsPhase(s: Scsi, j: nat)
    requires Basics(s) && s.link.bot.state == SendingDataToHost && DataPhase(s, j)
    ensures var l := s.link.Flush().1; var t := l.wire.taken;
      && l.Inv() && l.bot.state == SendingDataToHost && OnlySends(s.link, l)
      && AllReads(t) && |t| > 0
      && var c := ReadOf(t[|t| - 1]);
      && l.bot.residue == l.bot.cbw.length - 512 * j + |l.bot.pending|
      && (j < c.count || l.bot.pending != [] ==> l.bot.residue > 0 && DataPhase(s.(link := l), j))
      && l.wire.Stream() + l.bot.pending == s.link.wire.Stream() + s.link.bot.pending
  {
    FlushKeepsResidue(s, j);
    var l, t := s.link.Flush().1, s.link.wire.taken;
    if j < ReadOf(t[|t| - 1]).count || l.bot.pending != [] {
      FlushedPhase(s, j);
    }
  }

  lemma FlushKeepsResidue(s: Scsi, j: nat)
    requires Basics(s) && s.link.bot.state == SendingDataToHost && DataPhase(s, j)
    ensures var l := s.link.Flush().1; var t := l.wire.taken;
      && l.Inv() && l.bot.state == SendingDataToHost && OnlySends(s.link, l)
      && l.bot.residue == l.bot.cbw.length - 512 * j + |l.bot.pending| && l.bot.cbw == s.link.bot.cbw
      && (l.bot.pending == [] ==> l.bot.dataI == 0)
      && l.wire.Stream() + l.bot.pending == s.link.wire.Stream() + s.link.bot.pending
  {
    FlushMovesBytes(s.link);
    FlushKeepsRest(s.link);
    FlushOnlySends(s.link);
    FlushConserves(s.link);
  }

  lemma FlushedPhase(s: Scsi, j: nat)
    requires Basics(s) && s.link.bot.state == SendingDataToHost && DataPhase(s, j)
    requires var t := s.link.wire.taken; j < ReadOf(t[|t| - 1]).count || s.link.Flush().1.bot.pending != []
    ensures var l := s.link.Flush().1;
      l.wire.taken == s.link.wire.taken && l.bot.residue > 0 && DataPhase(s.(link := l), j)
  {
    FlushKeepsResidue(s, j);
    FlushKeepsRest(s.link);
    var t := s.link.wire.taken;
    FlushKeepsBlocks(s, t[..|t| - 1], ReadOf(t[|t| - 1]).first, j);
  }

  lemma FlushKeepsBlocks(s: Scsi, earlier: seq<seq<byte>>, first: nat, j: nat)
    requires s.link.Bounded() && AllReads(earlier) && BlocksQueued(s, earlier, first, j)
    requires var l := s.link.Flush().1;
      l.wire.Stream() + l.bot.pending == s.link.wire.Stream() + s.link.bot.pending
    ensures BlocksQueued(s.(link := s.link.Flush().1), earlier, first, j)
  {
  }

  lemma SendDataKeeps(s: Scsi, j: nat)
    requires Basics(s) && s.link.bot.state == SendingDataToHost && DataPhase(s, j)
    ensures var s' := s.(link := s.link.SendData().1); Inv(s') && Extends(s, s')
  {
    SendDataEndsIff(s.link);
    SendDataOnlySends(s.link);
    WriteKeepsInv(s.link);
    FlushKeepsPhase(s, j);
    var (r, l) := s.link.Flush();
    var t := s.link.wire.taken;
    if r == Ok && j == ReadOf(t[|t| - 1]).count && l.bot.pending == [] {
      DataEnds(s, j);
    } else {
      DataGoesOn(s, j);
    }
  }

  /** All is sent: the status goes out. */
  lemma DataEnds(s: Scsi, j: nat)
    requires Basics(s) && s.link.bot.state == SendingDataToHost && DataPhase(s, j)
    requires var (r, l) := s.link.Flush(); var t := s.link.wire.taken;
      r == Ok && j == ReadOf(t[|t| - 1]).count && l.bot.pending == []
    requires s.link.SendData().1.Inv() && OnlySends(s.link, s.link.SendData().1)
    ensures Inv(s.(link := s.link.SendData().1))
  {
    FlushKeepsPhase(s, j);
    FlushKeepsRest(s.link);
    SendDataEndsIff(s.link);
    EndsWithStatus(s.(link := s.link.Flush().1));
  }

  lemma DataGoesOn(s: Scsi, j: nat)
    requires Basics(s) && s.link.bot.state == SendingDataToHost && DataPhase(s, j)
    requires var (r, l) := s.link.Flush(); var t := s.link.wire.taken;
      !(r == Ok && j == ReadOf(t[|t| - 1]).count && l.bot.pending == [])
    requires s.link.SendData().1.Inv() && OnlySends(s.link, s.link.SendData().1)
    ensures Inv(s.(link := s.link.SendData().1))
  {
    FlushKeepsPhase(s, j);
    FlushKeepsRest(s.link);
    SendDataEndsIff(s.link);
    PhaseIsInv(s.(link := s.link.Flush().1), j);
  }

  lemma SendReportKeeps(s: Scsi)
    requires Inv(s) && s.link.bot.state == NeedToSendStatus
    ensures var s' := s.(link := s.link.NeedToSend().1); Inv(s') && Extends(s, s')
  {
    FlushMovesBytes(s.link);
    FlushKeepsRest(s.link);
    FlushOnlySends(s.link);
    NeedToSendKeepsInv(s.link);
  }

  lemma SendZlpKeeps(s: Scsi)
    requires Inv(s) && s.link.bot.state == NeedZlp
    ensures var s' := s.(link := s.link.SendZlp().1); Inv(s') && Extends(s, s')
  {
    ZlpKeepsInv(s.link);
    var l := s.link.SendZlp().1;
    assert l.wire.Stream() == s.link.wire.Stream() && OnlySends(s.link, l);
    assert l.bot.pending == s.link.bot.pending;
    assert StatusPhase(s.(link := l));
  }

  lemma WriteKeeps(s: Scsi)
    requires Inv(s)
    ensures Inv(s.DoWrite()) && Extends(s, s.DoWrite())
  {
    match s.link.bot.state {
      case SendingDataToHost =>
        var j: nat :| DataPhase(s, j);
        SendDataKeeps(s, j);
        assert s.DoWrite() == s.(link := s.link.SendData().1);
      case NeedZlp =>
        SendZlpKeeps(s);
        assert s.DoWrite() == s.(link := s.link.SendZlp().1);
      case NeedToSendStatus =>
        SendReportKeeps(s);
        assert s.DoWrite() == s.(link := s.link.NeedToSend().1);
      case WaitingForCommand =>
        assert s.DoWrite() == s;
    }
  }

  /** A wrapper that arrives whole is not shifted by resynchronisation. */
  lemma WholeWrapperKept(p: seq<byte>)
    requires IsRead(p)
    ensures Resync([] + p) == p
  {
    assert [] + p == p && FindSignatureFrom(p, 0) == Some(0);
  }

  lemma CommandArrives(s: Scsi)
    requires Inv(s) && s.link.bot.state == WaitingForCommand
    requires s.link.wire.ready(s.link.wire.clock) && s.link.wire.incoming != []
    ensures var (r, l) := s.link.Read();
      && r == Ok && l.bot.state == SendingDataToHost
      && l.wire == s.link.wire.ReadPacket().1 && l.bot.cbw == CbwOf(s.link.wire.incoming[0])
      && l.bot == Link(s.link.bot.(pending := s.link.wire.incoming[0]), l.wire).TransitionToData(l.bot.cbw).bot
  {
    WrapperArrives(s.link, s.link.wire.incoming[0]);
  }

  lemma WrapperArrives(l: Link, p: seq<byte>)
    requires l.Bounded() && l.bot.state == WaitingForCommand && l.bot.pending == [] && l.bot.dataI == 0
    requires l.wire.ready(l.wire.clock) && l.wire.incoming != [] && l.wire.incoming[0] == p && IsRead(p)
    ensures var (r, l') := l.Read();
      && r == Ok && l'.bot.state == SendingDataToHost && l'.wire == l.wire.ReadPacket().1 && l'.bot.cbw == CbwOf(p)
      && l'.bot == Link(l.bot.(pending := p), l'.wire).TransitionToData(CbwOf(p)).bot
  {
    WholeWrapperKept(p);
  }

  lemma PacketMoves(w: Wire)
    requires w.ready(w.clock) && w.incoming != [] && AllReads(w.taken) && AllReads(w.incoming)
    ensures var w' := w.ReadPacket().1;
      && AllReads(w'.taken) && AllReads(w'.incoming) && w'.taken + w'.incoming == w.taken + w.incoming
      && w'.taken[..|w'.taken| - 1] == w.taken && w'.taken[|w'.taken| - 1] == w.incoming[0]
      && w'.Stream() == w.Stream() && w'.ready == w.ready && w'.clock == w.clock + 1
  {
    assert w.incoming == [w.incoming[0]] + w.incoming[1..];
  }

  lemma NewCommandPhase(s: Scsi)
    requires Inv(s) && s.link.bot.state == WaitingForCommand
    requires s.link.wire.ready(s.link.wire.clock) && s.link.wire.incoming != []
    ensures var s' := s.(link := s.link.Read().1); Inv(s') && Extends(s, s')
  {
    CommandArrives(s);
    PacketMoves(s.link.wire);
    ReadKeepsInv(s.link);
    FreshPhase(s, s.link.Read().1);
  }

  /** A transport that has just accepted a command has queued none of its blocks. */
  lemma FreshPhase(s: Scsi, l: Link)
    requires AllReads(s.link.wire.taken) && StatusPhase(s) && s.link.bot.pending == []
    requires AllReads(l.wire.taken) && |l.wire.taken| > 0
    requires l.wire.taken[..|l.wire.taken| - 1] == s.link.wire.taken && l.wire.Stream() == s.link.wire.Stream()
    requires l.bot.cbw == CbwOf(l.wire.taken[|l.wire.taken| - 1]) && l.bot.residue == l.bot.cbw.length
    requires l.bot.pending == [] && l.bot.dataI == 0 && !l.bot.dataDone && l.bot.status == CommandOk
    ensures DataPhase(s.(link := l), 0)
  {
    assert s.link.wire.Stream() + [] == s.link.wire.Stream();
    assert l.wire.Stream() + l.bot.pending == Answers(s.disk, s.link.wire.taken) + [];
    assert s.log == BlocksRead(s.link.wire.taken) + [];
  }

  /** A poll of the OUT endpoint that takes nothing. */
  lemma NothingToRead(s: Scsi)
    requires Inv(s)
    requires s.link.bot.state == WaitingForCommand ==>
      !s.link.wire.ready(s.link.wire.clock) || s.link.wire.incoming == []
    ensures var (r, l) := s.link.Read();
      && r != DataError && l.bot == s.link.bot
      && l.wire == s.link.wire.(
        clock := if s.link.bot.state == WaitingForCommand then s.link.wire.clock + 1 else s.link.wire.clock)
  {
  }

  lemma ReadKeeps(s: Scsi)
    requires Inv(s)
    ensures var (r, l) := s.link.Read(); var s' := s.(link := l);
      r != DataError && Inv(s') && Extends(s, s')
  {
    if s.link.bot.state == WaitingForCommand && s.link.wire.ready(s.link.wire.clock) && s.link.wire.incoming != [] {
      CommandArrives(s);
      NewCommandPhase(s);
    } else {
      NothingToRead(s);
      ClockOnly(s, s.link.Read().1.wire.clock);
    }
  }

  lemma ClockOnly(s: Scsi, clock: nat)
    requires Inv(s) && s.link.wire.clock <= clock
    requires s.link.bot.state == WaitingForCommand || clock == s.link.wire.clock
    ensures var s' := s.(link := Link(s.link.bot, s.link.wire.(clock := clock))); Inv(s') && Extends(s, s')
  {
    if s.link.bot.state != WaitingForCommand {
      assert s.(link := Link(s.link.bot, s.link.wire.(clock := clock))) == s;
    }
  }

  /** The transport once its empty buffer takes a block. */
  function Filled(b: Bot, block: Block): Bot {
    b.(pending := block, past := b.past.(queued := b.past.queued + block))
  }

  /** One call of process_command with an empty buffer queues block `k` of the command. */
  lemma ProcessQueues(s: Scsi, isNew: bool, k: nat)
    requires s.link.Bounded() && s.link.bot.pending == [] && s.link.bot.dataI == 0
    requires s.command.Read? && k < s.command.count && s.command.first + s.command.count < TWO_32
    requires if isNew then k == 0 else s.lba == s.command.first + k && s.lbaEnd == s.command.first + s.command.count - 1
    ensures var n := s.command.first + k;
      s.ProcessCommand(isNew) ==
        (if k + 1 < s.command.count then Ongoing else Done,
         s.(link := Link(Filled(s.link.bot, s.disk(n)), s.link.wire), log := s.log + [n], lba := n + 1,
            lbaEnd := s.command.first + s.command.count - 1))
  {
    var n := s.command.first + k;
    assert [] + s.disk(n) == s.disk(n);
  }

  /** Ending the command while its last block is still buffered leaves the data phase open. */
  lemma DoneStaysOpen(l: Link)
    requires l.Bounded() && l.bot.state == SendingDataToHost && l.bot.residue > 0 && l.bot.pending != []
    ensures l.SendStatus(CommandOk) == (Ok, Link(l.bot.(status := CommandOk, dataDone := true), l.wire))
  {
  }

  lemma CommandSetUp(s: Scsi, j: nat)
    requires Basics(s) && s.link.bot.state == SendingDataToHost && DataPhase(s, j) && s.link.bot.pending == []
    ensures ReadyForBlock(s, ReadOf(s.link.wire.taken[|s.link.wire.taken| - 1]), j)
  {
  }

  /** The next poll reads block `j` of command `c`. */
  ghost predicate ReadyForBlock(s: Scsi, c: Command, j: nat) {
    && c.Read? && j < c.count && c.first + c.count < TWO_32
    && s.link.Bounded() && s.link.bot.pending == [] && s.link.bot.dataI == 0 && s.link.bot.residue > 0
    && s.link.bot.state == SendingDataToHost && s.link.bot.status == CommandOk && !s.link.bot.dataDone
    && !s.Skip() && s.GetNewCommand() == Some((j == 0, s.(command := c)))
    && (j > 0 ==> s.lba == c.first + j && s.lbaEnd == c.first + c.count - 1)
  }

  /** The device with block `j` of command `c` in its buffer. */
  function WithBlock(s: Scsi, c: Command, j: nat): Scsi
    requires c.Read? && j < c.count
  {
    var last, n := j + 1 == c.count, c.first + j;
    s.(link := Link(Filled(s.link.bot, s.disk(n)).(dataDone := last), s.link.wire),
       command := if last then NoCommand else c, log := s.log + [n], lba := n + 1, lbaEnd := c.first + c.count - 1)
  }

  lemma NextBlock(s: Scsi, c: Command, j: nat)
    requires ReadyForBlock(s, c, j)
    ensures s.ReceiveCommand() == WithBlock(s, c, j)
  {
    var s1 := s.(command := c);
    ProcessQueues(s1, j == 0, j);
    var s2 := s1.ProcessCommand(j == 0).1;
    DoneStaysOpen(s2.link);
  }

  lemma QueueBlock(s: Scsi, j: nat)
    requires Basics(s) && s.link.bot.state == SendingDataToHost && DataPhase(s, j) && s.link.bot.pending == []
    ensures var s' := s.ReceiveCommand();
      Inv(s') && Extends(s, s') && s'.link.bot.state == SendingDataToHost && s'.link.bot.pending != []
  {
    var c := ReadOf(s.link.wire.taken[|s.link.wire.taken| - 1]);
    CommandSetUp(s, j);
    NextBlock(s, c, j);
    BlockQueued(s, j, c);
  }

  lemma BlockQueued(s: Scsi, j: nat, c: Command)
    requires Basics(s) && s.link.bot.state == SendingDataToHost && DataPhase(s, j) && ReadyForBlock(s, c, j)
    requires c == ReadOf(s.link.wire.taken[|s.link.wire.taken| - 1])
    ensures var s' := WithBlock(s, c, j);
      Inv(s') && Extends(s, s') && s'.link.bot.state == SendingDataToHost && s'.link.bot.pending != []
  {
    BlockExtendsPhase(s, c, j);
    BlockKeepsRest(s, c, j);
    PhaseIsInv(WithBlock(s, c, j), j + 1);
  }

  lemma BlockKeepsRest(s: Scsi, c: Command, j: nat)
    requires s.link.Inv() && ReadyForBlock(s, c, j)
    ensures var s' := WithBlock(s, c, j);
      && Extends(s, s') && s'.link.Inv() && s'.link.wire == s.link.wire && s'.link.bot.pending != []
      && s'.link.bot.state == SendingDataToHost && s'.link.bot.maxPacket == s.link.bot.maxPacket
  {
    BlockKeepsLink(s.link, s.disk(c.first + j), j + 1 == c.count);
  }

  lemma PhaseIsInv(s: Scsi, j: nat)
    requires Basics(s) && s.link.bot.state == SendingDataToHost && DataPhase(s, j)
    ensures Inv(s)
  {
  }

  lemma BlockKeepsLink(l: Link, block: Block, last: bool)
    requires l.Inv() && l.bot.state == SendingDataToHost && l.bot.pending == [] && l.bot.dataI == 0
    ensures Link(Filled(l.bot, block).(dataDone := last), l.wire).Inv()
  {
    PutConserves(l, block);
    assert [] + block == block;
  }

  lemma BlockExtendsPhase(s: Scsi, c: Command, j: nat)
    requires AllReads(s.link.wire.taken) && |s.link.wire.taken| > 0
    requires DataPhase(s, j) && ReadyForBlock(s, c, j) && c == ReadOf(s.link.wire.taken[|s.link.wire.taken| - 1])
    ensures DataPhase(WithBlock(s, c, j), j + 1)
  {
    var t := s.link.wire.taken;
    OneMoreQueued(s, WithBlock(s, c, j), t[..|t| - 1], c.first, j);
    BlockCounted(s, c, j);
  }

  lemma BlockCounted(s: Scsi, c: Command, j: nat)
    requires ReadyForBlock(s, c, j)
    ensures var s' := WithBlock(s, c, j);
      && s'.link.wire == s.link.wire && |s'.link.bot.pending| == 512 && s'.link.bot.residue == s.link.bot.residue
      && s'.link.bot.cbw == s.link.bot.cbw && s'.link.bot.status == CommandOk
      && (if j + 1 < c.count then s'.command == c && !s'.link.bot.dataDone && s'.lba == c.first + (j + 1)
          else s'.command == NoCommand && s'.link.bot.dataDone)
      && s'.lbaEnd == c.first + c.count - 1
  {
  }

  lemma OneMoreQueued(s: Scsi, s': Scsi, earlier: seq<seq<byte>>, first: nat, j: nat)
    requires AllReads(earlier) && BlocksQueued(s, earlier, first, j) && s.link.bot.pending == []
    requires s'.link.wire == s.link.wire && s'.disk == s.disk && s'.log == s.log + [first + j]
    requires s'.link.bot.pending == s.disk(first + j)
    ensures BlocksQueued(s', earlier, first, j + 1)
  {
    AppendBlock(s.disk, s.link.wire.Stream(), Answers(s.disk, earlier), first, j);
    AppendNumber(s.log, BlocksRead(earlier), first, j);
  }

  lemma AppendBlock(disk: nat -> Block, stream: seq<byte>, before: seq<byte>, first: nat, j: nat)
    requires stream + [] == before + Blocks(disk, first, j)
    ensures stream + disk(first + j) == before + Blocks(disk, first, j + 1)
  {
    assert stream + [] == stream;
    assert before + Blocks(disk, first, j) + disk(first + j) == before + (Blocks(disk, first, j) + disk(first + j));
  }

  lemma AppendNumber(log: seq<nat>, before: seq<nat>, first: nat, j: nat)
    requires log == before + Range(first, j)
    ensures log + [first + j] == before + Range(first, j + 1)
  {
    assert Range(first, j + 1) == Range(first, j) + [first + j];
  }

  lemma ReceiveKeeps(s: Scsi)
    requires Inv(s)
    ensures var s' := s.ReceiveCommand();
      && Inv(s') && Extends(s, s')
      && (if s.link.bot.state == SendingDataToHost && s.link.bot.pending == []
          then s'.link.bot.state == SendingDataToHost && s'.link.bot.pending != [] else s' == s)
  {
    if s.link.bot.state == SendingDataToHost && s.link.bot.pending == [] {
      var j: nat :| DataPhase(s, j);
      QueueBlock(s, j);
    }
  }

  // ---- Whole sessions ----

  lemma UpdateKeeps(s: Scsi)
    requires Inv(s)
    ensures Inv(s.Update()) && Extends(s, s.Update())
  {
    WriteKeeps(s);
    var s1 := s.DoWrite();
    ReadKeeps(s1);
    var s2 := s1.(link := s1.link.Read().1);
    ReceiveKeeps(s2);
    WriteKeeps(s2.ReceiveCommand());
  }

  /** What the host does between polls, and the polls. */
  datatype Event = Requests(packet: seq<byte>) | Poll

  predicate ReadsOnly(events: seq<Event>) {
    forall e <- events :: e.Requests? ==> IsRead(e.packet)
  }

  function Step(s: Scsi, e: Event): (r: Scsi)
    requires s.link.Bounded()
    ensures r.link.Bounded()
  {
    match e
    case Requests(p) => s.(link := Act(s.link, HostSends(p)))
    case Poll => s.Update()
  }

  function Session(s: Scsi, events: seq<Event>): (r: Scsi)
    requires s.link.Bounded()
    ensures r.link.Bounded()
    decreases |events|
  {
    if |events| == 0 then s else Session(Step(s, events[0]), events[1..])
  }

  /** The packets the host sends during `events`. */
  function SentBy(events: seq<Event>): seq<seq<byte>> {
    if |events| == 0 then []
    else (if events[0].Requests? then [events[0].packet] else []) + SentBy(events[1..])
  }

  lemma SentFirst(queued: seq<seq<byte>>, events: seq<Event>)
    requires |events| > 0
    ensures queued + SentBy(events) ==
      queued + (if events[0].Requests? then [events[0].packet] else []) + SentBy(events[1..])
  {
  }

  lemma {:induction false} SessionKeeps(s: Scsi, events: seq<Event>)
    requires Inv(s) && ReadsOnly(events)
    ensures var r := Session(s, events);
      && Inv(r) && r.disk == s.disk
      && r.link.wire.taken + r.link.wire.incoming == s.link.wire.taken + s.link.wire.incoming + SentBy(events)
    decreases |events|
  {
    if |events| > 0 {
      var s' := Step(s, events[0]);
      StepKeeps(s, events[0]);
      SessionKeeps(s', events[1..]);
      SentFirst(s.link.wire.taken + s.link.wire.incoming, events);
    } else {
      assert s.link.wire.taken + s.link.wire.incoming + [] == s.link.wire.taken + s.link.wire.incoming;
    }
  }

  lemma StepKeeps(s: Scsi, e: Event)
    requires Inv(s) && (e.Requests? ==> IsRead(e.packet))
    ensures var s' := Step(s, e);
      && Inv(s') && s'.disk == s.disk && s'.link.wire.ready == s.link.wire.ready
      && s'.link.wire.taken + s'.link.wire.incoming ==
           s.link.wire.taken + s.link.wire.incoming + if e.Requests? then [e.packet] else []
  {
    match e {
      case Requests(p) => RequestKeeps(s, p);
      case Poll => UpdateKeeps(s);
    }
  }

  lemma RequestKeeps(s: Scsi, p: seq<byte>)
    requires Inv(s) && IsRead(p)
    ensures var s' := Step(s, Requests(p));
      && Inv(s') && s' == s.(link := Link(s.link.bot, s.link.wire.(incoming := s.link.wire.incoming + [p])))
  {
    ActKeepsInv(s.link, HostSends(p));
    var s' := Step(s, Requests(p));
    if s.link.bot.state == SendingDataToHost {
      var j: nat :| DataPhase(s, j);
      assert DataPhase(s', j);
    }
  }

  lemma {:induction false} AnswersExtend(disk: nat -> Block, a: seq<seq<byte>>, b: seq<seq<byte>>)
    requires AllReads(a) && AllReads(b)
    ensures AllReads(a + b) && Answers(disk, a) <= Answers(disk, a + b) && BlocksRead(a) <= BlocksRead(a + b)
  {
    if |b| == 0 {
      assert a + b == a;
    } else {
      var b' := b[..|b| - 1];
      AnswersExtend(disk, a, b');
      assert (a + b)[..|a + b| - 1] == a + b';
    }
  }

  lemma {:induction false} BlocksExtend(disk: nat -> Block, first: nat, j: nat, n: nat)
    requires j <= n
    ensures Blocks(disk, first, j) <= Blocks(disk, first, n)
  {
    if j < n {
      BlocksExtend(disk, first, j, n - 1);
    }
  }

  /** What the invariant means to the host: it has received a prefix of the answers to its commands, the device has
      been read in exactly the order asked for and never twice, and an idle device has answered every command. */
  lemma InvMeans(s: Scsi)
    requires Inv(s)
    ensures var w := s.link.wire; var all := w.taken + w.incoming;
      && AllReads(all)
      && w.Stream() <= Answers(s.disk, all)
      && s.log <= BlocksRead(all)
      && (s.link.bot.state == WaitingForCommand ==>
            w.Stream() == Answers(s.disk, w.taken) && s.log == BlocksRead(w.taken))
  {
    var w := s.link.wire;
    AnswersExtend(s.disk, w.taken, w.incoming);
    TakenMeans(s);
  }

  lemma TakenMeans(s: Scsi)
    requires Inv(s)
    ensures var w := s.link.wire;
      && w.Stream() <= Answers(s.disk, w.taken)
      && s.log <= BlocksRead(w.taken)
      && (s.link.bot.state == WaitingForCommand ==>
            w.Stream() == Answers(s.disk, w.taken) && s.log == BlocksRead(w.taken))
  {
    var w := s.link.wire;
    if s.link.bot.state == SendingDataToHost {
      var j: nat :| DataPhase(s, j);
      DataPhaseMeans(s, j);
    } else if s.link.bot.state == WaitingForCommand {
      assert w.Stream() + [] == w.Stream();
    }
  }

  lemma DataPhaseMeans(s: Scsi, j: nat)
    requires AllReads(s.link.wire.taken) && |s.link.wire.taken| > 0 && DataPhase(s, j)
    ensures s.link.wire.Stream() <= Answers(s.disk, s.link.wire.taken) && s.log <= BlocksRead(s.link.wire.taken)
  {
    var w := s.link.wire;
    var i := |w.taken| - 1;
    var c := ReadOf(w.taken[i]);
    PhasePrefix(s.disk, w.Stream(), s.link.bot.pending, Answers(s.disk, w.taken[..i]), c.first, j, c.count,
                Csw(w.taken[i]));
    RangeExtends(BlocksRead(w.taken[..i]), c.first, j, c.count);
  }

  lemma RangeExtends(before: seq<nat>, first: nat, j: nat, n: nat)
    requires j <= n
    ensures before + Range(first, j) <= before + Range(first, n)
  {
    assert Range(first, j) <= Range(first, n);
  }

  lemma PhasePrefix(disk: nat -> Block, stream: seq<byte>, pending: seq<byte>, before: seq<byte>,
                    first: nat, j: nat, n: nat, csw: seq<byte>)
    requires j <= n && stream + pending == before + Blocks(disk, first, j)
    ensures stream <= before + Blocks(disk, first, n) + csw
  {
    BlocksExtend(disk, first, j, n);
    assert stream <= stream + pending;
  }

  /** For every schedule of blocking and every interleaving of polls with the host's Read commands, the host has
      received a prefix of: each command's blocks, in order, then its status wrapper with residue = length asked for
      minus 512 per block. No block is read twice, and a command is never executed a second time. */
  lemma SessionAnswersInOrder(maxPacket: nat, ready: nat -> bool, disk: nat -> Block, events: seq<Event>)
    requires CBW_BYTES <= maxPacket <= BUFFER_BYTES && ReadsOnly(events)
    ensures var s0 := Scsi(Initial(maxPacket, ready), disk, NoCommand, 0, 0, []);
      && Inv(s0)
      && var s := Session(s0, events);
      && AllReads(SentBy(events))
      && s.link.wire.Stream() <= Answers(disk, SentBy(events))
      && s.log <= BlocksRead(SentBy(events))
      && (s.link.bot.state == WaitingForCommand && s.link.wire.incoming == [] ==>
            s.link.wire.Stream() == Answers(disk, SentBy(events)) && s.log == BlocksRead(SentBy(events)))
  {
    var s0 := Scsi(Initial(maxPacket, ready), disk, NoCommand, 0, 0, []);
    InitialInv(s0);
    SessionKeeps(s0, events);
    assert s0.link.wire.taken + s0.link.wire.incoming + SentBy(events) == SentBy(events);
    SessionMeans(Session(s0, events), SentBy(events));
  }

  lemma SessionMeans(s: Scsi, packets: seq<seq<byte>>)
    requires Inv(s) && packets == s.link.wire.taken + s.link.wire.incoming
    ensures AllReads(packets) && s.link.wire.Stream() <= Answers(s.disk, packets) && s.log <= BlocksRead(packets)
    ensures s.link.bot.state == WaitingForCommand && s.link.wire.incoming == [] ==>
      s.link.wire.Stream() == Answers(s.disk, packets) && s.log == BlocksRead(packets)
  {
    InvMeans(s);
    assert s.link.wire.taken + [] == s.link.wire.taken;
  }

  lemma InitialInv(s: Scsi)
    requires s.link.Inv() && CBW_BYTES <= s.link.bot.maxPacket && s.link.bot.state == WaitingForCommand
    requires s.link.bot.pending == [] && s.command == NoCommand && s.log == []
    requires s.link.wire.sent == [] && s.link.wire.taken == [] && s.link.wire.incoming == []
    ensures Inv(s)
  {
  }

  // ---- Progress ----

  /** From this call on the endpoints never block. */
  ghost predicate Unblocked(w: Wire) {
    forall t | w.clock <= t :: w.ready(t)
  }

  lemma WriteSends(s: Scsi)
    requires Inv(s) && s.link.wire.ready(s.link.wire.clock) && s.link.bot.pending != []
    requires s.link.bot.state == SendingDataToHost || s.link.bot.state == NeedToSendStatus
    ensures |s.DoWrite().link.wire.Stream()| > |s.link.wire.Stream()|
  {
    assert s.link.bot.residue > 0;
    if s.link.bot.state == SendingDataToHost {
      EndOnlySends(s.link.Flush().1);
      SendDataEndsIff(s.link);
    }
  }

  ghost predicate AllAnswered(s: Scsi) {
    s.link.bot.state == WaitingForCommand && s.link.wire.incoming == []
  }

  ghost predicate AnswersAll(s: Scsi, disk: nat -> Block, packets: seq<seq<byte>>)
    requires AllReads(packets)
  {
    AllAnswered(s) && s.link.wire.Stream() == Answers(disk, packets)
  }

  /** What the OUT-bound half of an unblocked poll does, stage by stage. */
  lemma WriteStages(s: Scsi)
    requires Inv(s) && s.link.wire.ready(s.link.wire.clock)
    ensures var b, s' := s.link.bot, s.DoWrite();
      match b.state
      case SendingDataToHost => if b.pending == [] then s' == s else |s'.link.wire.Stream()| > |s.link.wire.Stream()|
      case NeedZlp => s'.link.bot.state == NeedToSendStatus && s'.link.bot.pending == b.pending
      case NeedToSendStatus =>
        if b.pending == [] then s'.link.bot.state == WaitingForCommand
        else |s'.link.wire.Stream()| > |s.link.wire.Stream()|
      case _ => s' == s
  {
    if s.link.bot.pending != [] && (s.link.bot.state == SendingDataToHost || s.link.bot.state == NeedToSendStatus) {
      WriteSends(s);
    } else if s.link.bot.state == SendingDataToHost {
      var j: nat :| DataPhase(s, j);
      CommandSetUp(s, j);
      SendDataEndsIff(s.link);
    }
  }

  lemma ReadStages(s: Scsi)
    requires Inv(s) && s.link.wire.ready(s.link.wire.clock)
    ensures var b, l := s.link.bot, s.link.Read().1;
      if b.state == WaitingForCommand && s.link.wire.incoming != []
      then l.bot.state == SendingDataToHost && l.bot.pending == []
      else l.bot == b && l.wire.incoming == s.link.wire.incoming
  {
    if s.link.bot.state == WaitingForCommand && s.link.wire.incoming != [] {
      CommandArrives(s);
    } else {
      NothingToRead(s);
    }
  }

  /** The host has more than before, or the device is where its next step makes progress. */
  ghost predicate OnTheMove(s: Scsi, s': Scsi) {
    || |s'.link.wire.Stream()| > |s.link.wire.Stream()|
    || AllAnswered(s')
    || (s'.link.bot.state == SendingDataToHost && s'.link.bot.pending == [])
    || (s'.link.bot.state == NeedToSendStatus && s'.link.bot.pending != [])
  }

  function WrittenAndRead(s: Scsi): Scsi
    requires s.link.Bounded()
  {
    s.DoWrite().(link := s.DoWrite().link.Read().1)
  }

  lemma FirstHalf(s: Scsi)
    requires Inv(s) && Unblocked(s.link.wire)
    ensures var s' := WrittenAndRead(s);
      && Inv(s') && Extends(s, s') && Unblocked(s'.link.wire) && OnTheMove(s, s')
      && s.DoWrite().link.Read().0 != DataError
  {
    var s1 := s.DoWrite();
    WriteKeeps(s);
    WriteStages(s);
    ReadKeeps(s1);
    ReadStages(s1);
  }

  lemma SecondHalf(s: Scsi, s': Scsi)
    requires Inv(s') && Extends(s, s') && Unblocked(s'.link.wire) && OnTheMove(s, s')
    ensures var s4 := s'.ReceiveCommand().DoWrite();
      Unblocked(s4.link.wire) && (|s4.link.wire.Stream()| > |s.link.wire.Stream()| || AllAnswered(s4))
  {
    var s3 := s'.ReceiveCommand();
    ReceiveKeeps(s');
    WriteKeeps(s3);
    WriteStages(s3);
  }

  /** The commands of this model can all be parsed. */
  lemma AlwaysParseable(s: Scsi)
    requires Inv(s)
    ensures !s.Unparseable()
  {
    if s.link.bot.state == SendingDataToHost && s.link.bot.pending == [] {
      var j: nat :| DataPhase(s, j);
      CommandSetUp(s, j);
    }
  }

  /** An unblocked poll sends at least one byte, unless every command has been answered. */
  lemma UpdateProgresses(s: Scsi)
    requires Inv(s) && Unblocked(s.link.wire)
    ensures var s' := s.Update();
      Unblocked(s'.link.wire) && (|s'.link.wire.Stream()| > |s.link.wire.Stream()| || AllAnswered(s'))
  {
    FirstHalf(s);
    SecondHalf(s, WrittenAndRead(s));
    AlwaysParseable(WrittenAndRead(s));
  }

  function Polls(s: Scsi, n: nat): (r: Scsi)
    requires s.link.Bounded()
    ensures r.link.Bounded()
    decreases n
  {
    if n == 0 then s else Polls(s.Update(), n - 1)
  }

  /** Nothing gets stuck: once the endpoints stop blocking, some number of polls, at most one per byte still owed
      and one more, leaves every command answered in full. */
  lemma {:induction false} EveryCommandIsAnswered(s: Scsi, owed: nat)
    requires Inv(s) && Unblocked(s.link.wire)
    requires AllReads(s.link.wire.taken + s.link.wire.incoming)
    requires owed + |s.link.wire.Stream()| == |Answers(s.disk, s.link.wire.taken + s.link.wire.incoming)|
    ensures exists n: nat :: n <= owed + 1 && AnswersAll(Polls(s, n), s.disk, s.link.wire.taken + s.link.wire.incoming)
    decreases owed
  {
    var packets := s.link.wire.taken + s.link.wire.incoming;
    UpdateKeeps(s);
    UpdateProgresses(s);
    var s' := s.Update();
    SessionMeans(s', packets);
    if AllAnswered(s') {
      OneMorePoll(s, 0);
    } else {
      var owed' := owed + |s.link.wire.Stream()| - |s'.link.wire.Stream()|;
      EveryCommandIsAnswered(s', owed');
      var n: nat :| n <= owed' + 1 && AnswersAll(Polls(s', n), s.disk, packets);
      OneMorePoll(s, n);
    }
  }

  lemma OneMorePoll(s: Scsi, n: nat)
    requires s.link.Bounded()
    ensures Polls(s, n + 1) == Polls(s.Update(), n) && Polls(s.Update(), 0) == s.Update()
  {
  }
}
