/** The Bulk-Only Transport and the SCSI layer as the objects that are updated in place: one 512-byte buffer with two
    indices, shared by both layers, above a pair of endpoints. Every method does to the state what TransportSpec and
    ScsiSpec say, and keeps their invariants. */
module Transport {
  import opened Bytes
  import opened Wrappers
  import opened TransportSpec
  import opened ScsiSpec

  class Endpoint {
    const ready: nat -> bool
    var clock: nat
    var sent: seq<seq<byte>>
    var incoming: seq<seq<byte>>
    ghost var taken: seq<seq<byte>>

    constructor (ready: nat -> bool)
      ensures Model() == Wire(ready, 0, [], [], [])
    {
      this.ready := ready;
      clock, sent, incoming, taken := 0, [], [], [];
    }

    ghost function Model(): Wire
      reads this
    {
      Wire(ready, clock, sent, taken, incoming)
    }

    method WritePacket(p: seq<byte>) returns (ok: bool)
      modifies this
      ensures (ok, Model()) == old(Model()).WritePacket(p)
    {
      ok := ready(clock);
      clock := clock + 1;
      if ok {
        sent := sent + [p];
      }
    }

    /** Copies the next packet into buf[at..]. */
    method ReadPacket(buf: array<byte>, at: nat) returns (r: Option<nat>)
      requires at <= buf.Length
      requires incoming != [] ==> |incoming[0]| <= buf.Length - at
      modifies this, buf
      ensures var (packet, w) := old(Model()).ReadPacket();
        && Model() == w
        && (match packet
            case None => r == None && buf[..] == old(buf[..])
            case Some(p) => r == Some(|p|) && buf[..at + |p|] == old(buf[..at]) + p)
    {
      var served := ready(clock) && incoming != [];
      clock := clock + 1;
      if !served {
        return None;
      }
      var p := incoming[0];
      incoming, taken := incoming[1..], taken + [p];
      forall k | 0 <= k < |p| {
        buf[at + k] := p[k];
      }
      assert buf[..at + |p|] == old(buf[..at]) + p;
      return Some(|p|);
    }
  }

  /** Both parts of what a stretch of the buffer holds. */
  lemma HeldSlices(buffer: array<byte>, from: nat, to: nat, held: seq<byte>, len: nat)
    requires from <= to <= buffer.Length && buffer[from..to] == held && len <= |held|
    ensures buffer[from..from + len] == held[..len] && buffer[from + len..to] == held[len..]
  {
    assert buffer[from..to][..len] == buffer[from..from + len];
    assert buffer[from..to][len..] == buffer[from + len..to];
  }

  lemma Appended(now: seq<byte>, was: seq<byte>, p: seq<byte>, from: nat)
    requires now == was + p && from <= |was|
    ensures now[from..] == was[from..] + p
  {
  }

  class BulkOnlyTransport {
    const inner: Endpoint
    const maxPacket: nat
    const buffer: array<byte>
    var state: State
    var cbw: Cbw
    var tag: nat               // the three fields of the status wrapper
    var residue: nat
    var status: CommandStatus
    var bufferI: nat           // next free index
    var dataI: nat             // next byte to send
    var lastPacketFull: bool
    var dataDone: bool
    ghost var pending: seq<byte>   // what buffer[dataI..bufferI] holds
    ghost var past: Past

    constructor (inner: Endpoint, maxPacket: nat)
      requires 1 <= maxPacket <= BUFFER_BYTES
      requires Fit(inner.incoming, maxPacket)
      ensures Shape() && this.inner == inner && fresh(buffer)
      ensures Model() == Link(Initial(maxPacket, inner.ready).bot, inner.Model())
    {
      this.inner, this.maxPacket := inner, maxPacket;
      buffer := new byte[BUFFER_BYTES](_ => 0);
      state, cbw := WaitingForCommand, Cbw(0, 0, HostToDevice, 0, 0, []);
      tag, residue, status := 0, 0, CommandOk;
      bufferI, dataI, lastPacketFull, dataDone := 0, 0, false, false;
      pending, past := [], Past(0, 0, 0, [], [], 0, CommandOk);
    }

    ghost predicate Indices()
      reads this, inner
    {
      buffer.Length == BUFFER_BYTES && bufferI == dataI + |pending| && Model().Bounded()
    }

    ghost predicate Shape()
      reads this, inner, buffer
    {
      Indices() && buffer[dataI..bufferI] == pending
    }

    ghost function Model(): Link
      reads this, inner
    {
      Link(Bot(maxPacket, state, cbw, tag, residue, status, dataI, pending, lastPacketFull, dataDone, past),
           inner.Model())
    }

    function GetCurrentCommand(): (r: Option<Cbw>)
      reads this
    {
      if state == SendingDataToHost || state == ReceivingDataFromHost then Some(cbw) else None
    }

    function GetTransferState(): TransferState
      requires dataI <= bufferI
      reads this
    {
      match state
      case ReceivingDataFromHost => Receiving(bufferI - dataI, bufferI == BUFFER_BYTES, residue == 0)
      case SendingDataToHost => Sending(bufferI - dataI, bufferI == 0)
      case _ => NotTransferring(bufferI - dataI, bufferI == 0)
    }

    method Flush() returns (r: Result)
      requires Shape()
      modifies this`lastPacketFull, this`dataI, this`bufferI, this`pending, this`residue, inner
      ensures Shape() && (r, Model()) == old(Model()).Flush()
    {
      if dataI < bufferI && residue > 0 {
        var len := Min(Min(bufferI - dataI, residue), maxPacket);
        var packet := buffer[dataI..dataI + len];
        HeldSlices(buffer, dataI, bufferI, pending, len);
        r := SendPacket(packet);
      } else {
        r := Ok;
      }
    }

    /** The part of flush that sends `packet`, the front of the buffer, and moves the indices. */
    method SendPacket(packet: seq<byte>) returns (r: Result)
      requires Indices() && residue > 0 && pending != []
      requires packet == pending[..Min(Min(|pending|, residue), maxPacket)]
      modifies this`lastPacketFull, this`dataI, this`bufferI, this`pending, this`residue, inner
      ensures Indices() && (r, Model()) == old(Model()).Flush()
      ensures dataI == bufferI == 0 || (bufferI == old(bufferI) && dataI == old(dataI) + |old(pending)| - |pending|
                                        && pending == old(pending)[|old(pending)| - |pending|..])
    {
      var len := |packet|;
      var ok := inner.WritePacket(packet);
      if !ok {
        return WouldBlock;
      }
      lastPacketFull := len == maxPacket;
      dataI, pending := dataI + len, pending[len..];
      residue := residue - len;
      if dataI == bufferI || residue == 0 {
        dataI, bufferI, pending := 0, 0, [];
      }
      return Ok;
    }

    method SendZlp() returns (r: Result)
      requires Shape()
      modifies this`state, inner
      ensures Shape() && (r, Model()) == old(Model()).SendZlp()
    {
      var ok := inner.WritePacket([]);
      if !ok {
        return WouldBlock;
      }
      state := NeedToSendStatus;
      return Ok;
    }

    method PackCsw()
      requires Shape()
      modifies this`bufferI, this`dataI, this`pending, this`residue, this`past, buffer
      ensures Shape() && Model() == old(Model()).PackCsw()
    {
      var packed := CswBytes(tag, residue, status);
      forall i | 0 <= i < CSW_BYTES {
        buffer[i] := packed[i];
      }
      past := past.(statusMark := |Concat(inner.sent)|, endResidue := residue, endStatus := status);
      bufferI, dataI, pending := CSW_BYTES, 0, packed;
      residue := bufferI;
    }

    method EndDataTransfer() returns (r: Result)
      requires Shape()
      modifies this, inner, buffer
      ensures Shape() && (r, Model()) == old(Model()).EndDataTransfer()
    {
      PackCsw();
      if lastPacketFull && state == SendingDataToHost && residue > 0 {
        state := NeedZlp;
        r := SendZlp();
      } else {
        state := NeedToSendStatus;
        r := Flush();
      }
    }

    method CheckEndDataTransfer() returns (r: Result)
      requires Shape()
      modifies this, inner, buffer
      ensures Shape() && (r, Model()) == old(Model()).CheckEndDataTransfer()
    {
      match state {
        case ReceivingDataFromHost =>
          if residue == 0 && dataI == bufferI {
            r := EndDataTransfer();
          } else {
            r := Ok;
          }
        case SendingDataToHost =>
          if residue == 0 {
            r := EndDataTransfer();
          } else if dataDone && dataI == bufferI {
            r := EndDataTransfer();
          } else {
            r := Ok;
          }
        case _ => r := Ok;
      }
    }

    method SendCommandOk() returns (r: Result)
      requires Shape()
      modifies this, inner, buffer
      ensures Shape() && (r, Model()) == old(Model()).SendStatus(CommandOk)
    {
      status := CommandOk;
      dataDone := true;
      r := CheckEndDataTransfer();
    }

    method SendCommandError() returns (r: Result)
      requires Shape()
      modifies this, inner, buffer
      ensures Shape() && (r, Model()) == old(Model()).SendStatus(CommandError)
    {
      status := CommandError;
      dataDone := true;
      r := CheckEndDataTransfer();
    }

    method PrepareForCommand(cbw: Cbw)
      modifies this`tag, this`residue, this`status
      ensures tag == cbw.tag && residue == cbw.length && status == CommandOk
    {
      tag, residue, status := cbw.tag, cbw.length, CommandOk;
    }

    method TransitionToData(cbw: Cbw)
      requires Indices() && cbw.tag < TWO_32 && cbw.length < TWO_32
      modifies this
      ensures Indices() && pending == [] && Model() == old(Model()).TransitionToData(cbw)
    {
      PrepareForCommand(cbw);
      bufferI, dataI, pending, dataDone := 0, 0, [], false;
      state := if cbw.direction == HostToDevice then ReceivingDataFromHost else SendingDataToHost;
      this.cbw := cbw;
      past := past.(dataMark := |Concat(inner.sent)|, takenMark := |inner.taken|, queued := [], handed := []);
    }

    method ReceivingData() returns (r: Result)
      requires Shape()
      modifies this, inner, buffer
      ensures Shape() && (r, Model()) == old(Model()).ReceiveData()
    {
      if residue > 0 && buffer.Length - bufferI >= maxPacket {
        r := TakePacket();
        if r != Ok {
          return;
        }
      }
      r := CheckEndDataTransfer();
    }

    /** Appends the next packet to the buffer and takes it off the residue. */
    method TakePacket() returns (r: Result)
      requires Shape() && residue > 0 && BUFFER_BYTES - bufferI >= maxPacket
      modifies this`bufferI, this`pending, this`residue, inner, buffer
      ensures Shape()
      ensures var (packet, w) := old(Model()).wire.ReadPacket(); var b := old(Model()).bot;
        match packet
        case None => r == WouldBlock && Model() == Link(b, w)
        case Some(p) =>
          && r == Ok
          && Model() == Link(b.(pending := b.pending + p,
                                residue := if b.residue >= |p| then b.residue - |p| else 0), w)
    {
      var bytes := inner.ReadPacket(buffer, bufferI);
      if bytes == None {
        assert buffer[dataI..bufferI] == buffer[..][dataI..bufferI];
        return WouldBlock;
      }
      Appended(buffer[..bufferI + bytes.value], old(buffer[..bufferI]), old(inner.incoming)[0], dataI);
      assert buffer[dataI..bufferI + bytes.value] == buffer[..bufferI + bytes.value][dataI..];
      bufferI, pending := bufferI + bytes.value, pending + old(inner.incoming)[0];
      if residue >= bytes.value {
        residue := residue - bytes.value;
      } else {
        residue := 0;
      }
      return Ok;
    }

    method WaitingCommand() returns (r: Result)
      requires Shape() && state == WaitingForCommand && dataI == 0
      modifies this, inner, buffer
      ensures Shape() && (r, Model()) == old(Model()).WaitForCommand()
    {
      if buffer.Length - bufferI < maxPacket {
        return WouldBlock;
      }
      var ok := TakeCommandBytes();
      if !ok {
        return WouldBlock;
      }
      r := TryCommand();
    }

    /** Appends the next packet to the buffer and drops what precedes a signature. */
    method TakeCommandBytes() returns (ok: bool)
      requires Shape() && dataI == 0 && BUFFER_BYTES - bufferI >= maxPacket
      modifies this`bufferI, this`pending, inner, buffer
      ensures Shape()
      ensures var (packet, w) := old(Model()).wire.ReadPacket();
        && inner.Model() == w && ok == packet.Some?
        && pending == if ok then Resync(old(pending) + packet.value) else old(pending)
    {
      assert buffer[..bufferI] == buffer[dataI..bufferI] == pending;
      var bytes := inner.ReadPacket(buffer, bufferI);
      if bytes == None {
        assert buffer[dataI..bufferI] == buffer[..][dataI..bufferI];
        return false;
      }
      ghost var p := old(inner.incoming)[0];
      assert buffer[..bufferI + bytes.value] == pending + p;
      bufferI := TruncateToSignature(buffer, bufferI + bytes.value);
      pending := Resync(pending + p);
      assert buffer[dataI..bufferI] == buffer[..bufferI];
      return true;
    }

    method TryCommand() returns (r: Result)
      requires Shape() && dataI == 0
      modifies this, inner, buffer
      ensures Shape() && (r, Model()) == old(Model()).TryCommand()
    {
      if bufferI >= CBW_BYTES {
        var cbw := DecodeCbw(buffer[dataI..bufferI]);
        if cbw == None {
          bufferI, pending := 0, [];
          return DataError;
        }
        TransitionToData(cbw.value);
        if state == ReceivingDataFromHost {
          r := ReceivingData();
          return;
        }
      }
      return Ok;
    }

    method Read() returns (r: Result)
      requires Shape() && (state == WaitingForCommand ==> dataI == 0)
      modifies this, inner, buffer
      ensures Shape() && (r, Model()) == old(Model()).Read()
    {
      match state {
        case WaitingForCommand => r := WaitingCommand();
        case ReceivingDataFromHost => r := ReceivingData();
        case _ => r := Ok;
      }
    }

    method Write() returns (r: Result)
      requires Shape()
      modifies this, inner, buffer
      ensures Shape() && (r, Model()) == old(Model()).Write()
    {
      match state {
        case SendingDataToHost =>
          r := Flush();
          if r == Ok {
            r := CheckEndDataTransfer();
          }
        case NeedZlp => r := SendZlp();
        case NeedToSendStatus =>
          r := Flush();
          if r == Ok && residue == 0 {
            state := WaitingForCommand;
          }
        case _ => r := Ok;
      }
    }

    method Reset()
      requires Shape()
      modifies this
      ensures Shape() && Model() == old(Model()).Reset()
    {
      bufferI, dataI, pending, dataDone := 0, 0, [], false;
      state := WaitingForCommand;
    }

    /** Hands out `len` bytes of the buffer, from the index returned, for the caller to fill; what they hold until
        then is what the buffer held. */
    method TakeBufferSpace(len: nat) returns (start: Option<nat>)
      requires Shape() && len <= BUFFER_BYTES
      modifies this`bufferI, this`pending
      ensures Shape()
      ensures start == if len <= BUFFER_BYTES - old(bufferI) then Some(old(bufferI)) else None
      ensures bufferI == if start.Some? then old(bufferI) + len else old(bufferI)
      ensures start == None ==> pending == old(pending)
    {
      if len <= buffer.Length - bufferI {
        start := Some(bufferI);
        bufferI := bufferI + len;
        pending := buffer[dataI..bufferI];
      } else {
        start := None;
      }
    }

    /** The caller of TakeBufferSpace reads a block of its device into the space handed out. */
    method FillSpace(device: BlockDevice, lba: nat, start: nat)
      requires Shape() && dataI <= start && start + BLOCK_BYTES == bufferI
      modifies this`pending, this`past, buffer, device
      ensures past == old(past).(queued := old(past).queued + device.disk(lba))
      ensures Shape() && pending == old(pending)[..start - dataI] + device.disk(lba)
      ensures device.log == old(device.log) + [lba]
    {
      device.ReadBlock(lba, buffer, start);
      assert buffer[dataI..start] == buffer[..start][dataI..];
      pending := buffer[dataI..bufferI];
      assert pending == buffer[dataI..start] + buffer[start..bufferI];
      past := past.(queued := past.queued + device.disk(lba));
    }

    method TakeBufferedData(len: nat, takeAvailable: bool) returns (data: Option<seq<byte>>)
      requires Shape() && len <= BUFFER_BYTES
      modifies this`bufferI, this`dataI, this`pending, this`past
      ensures Shape()
      ensures match old(Model()).Take(len, takeAvailable)
              case None => data == None && Model() == old(Model())
              case Some((taken, l)) => data == Some(taken) && Model() == l
    {
      var available := bufferI - dataI;
      if !takeAvailable && len > available {
        return None;
      }
      var s := dataI;
      var e := s + Min(len, available);
      data := Some(buffer[s..e]);
      assert buffer[s..e] == pending[..e - s] && buffer[e..bufferI] == pending[e - s..];
      past := past.(handed := past.handed + pending[..e - s]);
      dataI, pending := e, pending[e - s..];
      if dataI == bufferI {
        dataI, bufferI := 0, 0;
      }
    }
  }

  /** The storage behind the SCSI layer; the log is kept for the proof. */
  class BlockDevice {
    const disk: nat -> Block
    ghost var log: seq<nat>

    constructor (disk: nat -> Block)
      ensures this.disk == disk && log == []
    {
      this.disk := disk;
      log := [];
    }

    method ReadBlock(lba: nat, buf: array<byte>, at: nat)
      requires at + BLOCK_BYTES <= buf.Length
      modifies this, buf
      ensures log == old(log) + [lba]
      ensures buf[..at] == old(buf[..at]) && buf[at..at + BLOCK_BYTES] == disk(lba)
    {
      var block: Block := disk(lba);
      forall k | 0 <= k < BLOCK_BYTES {
        buf[at + k] := block[k];
      }
      log := log + [lba];
    }
  }

  class ScsiDevice {
    const inner: BulkOnlyTransport
    const blockDevice: BlockDevice
    var currentCommand: Command
    var lba: nat
    var lbaEnd: nat

    constructor (inner: BulkOnlyTransport, blockDevice: BlockDevice)
      requires inner.Shape() && Inv(Scsi(inner.Model(), blockDevice.disk, NoCommand, 0, 0, blockDevice.log))
      ensures Valid() && Model() == Scsi(inner.Model(), blockDevice.disk, NoCommand, 0, 0, blockDevice.log)
      ensures Model().link.Settled()
    {
      InvSettles(inner.Model());
      this.inner, this.blockDevice := inner, blockDevice;
      currentCommand, lba, lbaEnd := NoCommand, 0, 0;
    }

    ghost function Model(): Scsi
      reads this, inner, inner.inner, blockDevice
    {
      Scsi(inner.Model(), blockDevice.disk, currentCommand, lba, lbaEnd, blockDevice.log)
    }

    /** The session invariant, which holds while the host sends Reads: see ScsiSpec.InvMeans for what it says about the
        bytes the host has received. */
    ghost predicate Valid()
      reads this, inner, inner.inner, inner.buffer, blockDevice
    {
      inner.Shape() && Inv(Model())
    }

    /** None is the error of a command that cannot be parsed. */
    method GetNewCommand() returns (isNew: Option<bool>)
      modifies this`currentCommand
      ensures match old(Model()).GetNewCommand()
              case None => isNew == None && Model() == old(Model())
              case Some((n, s)) => isNew == Some(n) && Model() == s
    {
      if currentCommand != NoCommand {
        return Some(false);
      }
      var cbw := inner.GetCurrentCommand();
      if cbw == None {
        return Some(false);
      }
      var command := ExtractRead(cbw.value);
      if command == None {
        return None;
      }
      currentCommand := command.value;
      return Some(true);
    }

    method ProcessCommand(newCommand: bool) returns (state: CommandState)
      requires inner.Shape()
      modifies this, inner, inner.buffer, blockDevice
      ensures inner.Shape() && (state, Model()) == old(Model()).ProcessCommand(newCommand)
    {
      match currentCommand {
        case NoCommand => state := Idle;
        case Read(first, count) =>
          if newCommand {
            lba := first;
            lbaEnd := (first + count - 1) % TWO_32;
          }
          state := QueueBlock();
      }
    }

    /** Reads the block at `lba` into the transport's buffer, if it fits. */
    method QueueBlock() returns (state: CommandState)
      requires inner.Shape()
      modifies this`lba, inner, inner.buffer, blockDevice
      ensures inner.Shape()
      ensures match old(inner.Model()).Put(blockDevice.disk(old(lba)))
              case None => state == Blocked && Model() == old(Model())
              case Some(l) =>
                && state == (if lba <= lbaEnd then Ongoing else Done)
                && Model() == old(Model()).(link := l, log := old(blockDevice.log) + [old(lba)],
                                            lba := (old(lba) + 1) % TWO_32)
    {
      var start := inner.TakeBufferSpace(BLOCK_BYTES);
      if start == None {
        return Blocked;
      }
      inner.FillSpace(blockDevice, lba, start.value);
      lba := (lba + 1) % TWO_32;
      state := if lba <= lbaEnd then Ongoing else Done;
    }

    /** A command is not touched while there is data in the way. */
    function Skip(): (r: bool)
      requires inner.Shape()
      reads this, inner, inner.inner, inner.buffer, blockDevice
      ensures r == Model().Skip()
    {
      match inner.GetTransferState()
      case Receiving(_, full, done) => !(full || done)
      case Sending(_, empty) => !empty
      case NotTransferring(_, empty) => !empty
    }

    /** Fails when the next command cannot be parsed. */
    method ReceiveCommand() returns (ok: bool)
      requires inner.Shape()
      modifies this, inner, inner.inner, inner.buffer, blockDevice
      ensures inner.Shape() && Model() == old(Model()).ReceiveCommand()
      ensures ok <==> !old(Model()).Unparseable()
    {
      if !Skip() {
        var isNew := GetNewCommand();
        if isNew.None? {
          return false;
        }
        ExecuteCommand(isNew.value);
      }
      return true;
    }

    method ExecuteCommand(isNew: bool)
      requires inner.Shape()
      modifies this, inner, inner.inner, inner.buffer, blockDevice
      ensures inner.Shape() && Model() == old(Model()).Execute(isNew)
    {
      var state := ProcessCommand(isNew);
      if state == Done {
        FinishCommand();
      }
    }

    method FinishCommand()
      requires inner.Shape()
      modifies this`currentCommand, inner, inner.inner, inner.buffer
      ensures inner.Shape()
      ensures var (r, l) := old(inner.Model()).SendStatus(CommandOk);
        && inner.Model() == l && currentCommand == if r == Ok then NoCommand else old(currentCommand)
    {
      var r := inner.SendCommandOk();
      if r == Ok {
        currentCommand := NoCommand;
      }
    }

    /** One poll of the bus, whatever the command; it also keeps the session invariant where that holds. */
    method Update()
      requires inner.Shape() && Model().link.Settled()
      modifies this, inner, inner.inner, inner.buffer, blockDevice
      ensures inner.Shape() && Model().link.Settled() && Model() == old(Model()).Update()
      ensures old(Valid()) ==> Valid()
    {
      ghost var s0 := Model();
      UpdateSettles(s0);
      if Inv(s0) {
        UpdateKeeps(s0);
      }
      Poll();
    }

    method Poll()
      requires inner.Shape() && Model().link.Settled() && Model().DoWrite().link.Settled()
      modifies this, inner, inner.inner, inner.buffer, blockDevice
      ensures inner.Shape() && Model() == old(Model()).Update()
    {
      ghost var s0 := Model();
      var w := inner.Write();
      assert Model() == s0.DoWrite();
      var r := inner.Read();
      assert Model() == s0.DoWrite().(link := s0.DoWrite().link.Read().1);
      if r == DataError {
        return;
      }
      var ok := ReceiveCommand();
      if ok {
        w := inner.Write();
      }
    }
  }
}
