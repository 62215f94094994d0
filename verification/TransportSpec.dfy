/** The Bulk-Only Transport as a function of its state: what each call does to the transport and to the wire below
    it, and what every sequence of calls keeps. */
module TransportSpec {
  import opened Bytes
  import opened Wrappers

  const BUFFER_BYTES: nat := 512

  datatype Result = Ok | WouldBlock | DataError

  datatype State =
    | WaitingForCommand
    | SendingDataToHost
    | ReceivingDataFromHost
    | NeedZlp
    | NeedToSendStatus

  datatype TransferState =
    | NotTransferring(bytesRemaining: nat, empty: bool)
    | Receiving(bytesAvailable: nat, full: bool, done: bool)
    | Sending(bytesRemaining: nat, empty: bool)

  function Concat(packets: seq<seq<byte>>): seq<byte> {
    if |packets| == 0 then [] else Concat(packets[..|packets| - 1]) + packets[|packets| - 1]
  }

  function Min(a: nat, b: nat): (m: nat)
    ensures m <= a && m <= b && (m == a || m == b)
  {
    if a < b then a else b
  }

  /** The two bulk endpoints and the host behind them. Call number t is served exactly when `ready(t)`: the
      schedule is arbitrary, so what is proved holds for every pattern of WouldBlock answers. */
  datatype Wire = Wire(ready: nat -> bool, clock: nat,
                       sent: seq<seq<byte>>,      // packets the host has received
                       taken: seq<seq<byte>>,     // packets the device has received
                       incoming: seq<seq<byte>>)  // packets the host has still to deliver
  {
    /** The bytes the host has received; packet boundaries and zero-length packets leave no trace in them. */
    function Stream(): seq<byte> {
      Concat(sent)
    }

    function WritePacket(p: seq<byte>): (r: (bool, Wire))
      ensures r.0 == ready(clock) && r.1.clock == clock + 1 && r.1.ready == ready
      ensures r.1.taken == taken && r.1.incoming == incoming
      ensures r.1.Stream() == if r.0 then Stream() + p else Stream()
    {
      if ready(clock) then
        assert (sent + [p])[..|sent + [p]| - 1] == sent;
        (true, this.(clock := clock + 1, sent := sent + [p]))
      else (false, this.(clock := clock + 1))
    }

    function ReadPacket(): (Option<seq<byte>>, Wire) {
      if ready(clock) && incoming != [] then
        (Some(incoming[0]), this.(clock := clock + 1, taken := taken + [incoming[0]], incoming := incoming[1..]))
      else (None, this.(clock := clock + 1))
    }
  }

  /** The history of the current command: how many bytes the host had received when its data phase and its status phase
      began and how many packets it had sent when the data phase began, all that was put into the buffer for the command
      and all that was handed out of it, and the residue and status with which its data phase ended. */
  datatype Past = Past(dataMark: nat, statusMark: nat, takenMark: nat, queued: seq<byte>, handed: seq<byte>,
                       endResidue: nat, endStatus: CommandStatus)

  /** The transport's fields; `pending` is what buffer[dataI..bufferI] holds, and `past` belongs to the proof. */
  datatype Bot = Bot(maxPacket: nat, state: State, cbw: Cbw, tag: nat, residue: nat, status: CommandStatus,
                     dataI: nat, pending: seq<byte>, lastPacketFull: bool, dataDone: bool, past: Past)
  {
    function BufferI(): nat { dataI + |pending| }

    function GetCurrentCommand(): Option<Cbw> {
      if state == SendingDataToHost || state == ReceivingDataFromHost then Some(cbw) else None
    }

    function GetTransferState(): TransferState {
      match state
      case ReceivingDataFromHost => Receiving(|pending|, BufferI() == BUFFER_BYTES, residue == 0)
      case SendingDataToHost => Sending(|pending|, BufferI() == 0)
      case _ => NotTransferring(|pending|, BufferI() == 0)
    }

    /** Sizes and word ranges. */
    predicate Bounded() {
      && 1 <= maxPacket <= BUFFER_BYTES && BufferI() <= BUFFER_BYTES
      && cbw.tag < TWO_32 && cbw.length < TWO_32 && tag < TWO_32 && residue < TWO_32
    }
  }

  predicate Fit(packets: seq<seq<byte>>, maxPacket: nat) {
    forall i | 0 <= i < |packets| :: |packets[i]| <= maxPacket
  }

  datatype Link = Link(bot: Bot, wire: Wire) {

    predicate Bounded() {
      bot.Bounded() && Fit(wire.incoming, bot.maxPacket)
    }

    /** Sends at most one packet, never more than the residue. */
    function Flush(): (r: (Result, Link))
      requires Bounded()
      ensures r.1.Bounded()
    {
      if bot.pending == [] || bot.residue == 0 then (Ok, this)
      else
        var len := Min(Min(|bot.pending|, bot.residue), bot.maxPacket);
        var (ok, w) := wire.WritePacket(bot.pending[..len]);
        if !ok then (WouldBlock, Link(bot, w))
        else
          var residue := bot.residue - len;
          var rest := if residue == 0 then [] else bot.pending[len..];
          (Ok, Link(bot.(lastPacketFull := len == bot.maxPacket, residue := residue, pending := rest,
                         dataI := if rest == [] then 0 else bot.dataI + len), w))
    }

    function SendZlp(): (r: (Result, Link))
      requires Bounded()
      ensures r.1.Bounded()
    {
      var (ok, w) := wire.WritePacket([]);
      if ok then (Ok, Link(bot.(state := NeedToSendStatus), w)) else (WouldBlock, Link(bot, w))
    }

    function PackCsw(): (r: Link)
      requires Bounded()
      ensures r.Bounded()
    {
      var csw := CswBytes(bot.tag, bot.residue, bot.status);
      Link(bot.(pending := csw, dataI := 0, residue := |csw|,
                past := bot.past.(statusMark := |wire.Stream()|, endResidue := bot.residue, endStatus := bot.status)),
           wire)
    }

    function EndDataTransfer(): (r: (Result, Link))
      requires Bounded()
      ensures r.1.Bounded()
    {
      var l := PackCsw();
      if l.bot.lastPacketFull && l.bot.state == SendingDataToHost && l.bot.residue > 0 then
        Link(l.bot.(state := NeedZlp), l.wire).SendZlp()
      else
        Link(l.bot.(state := NeedToSendStatus), l.wire).Flush()
    }

    function CheckEndDataTransfer(): (r: (Result, Link))
      requires Bounded()
      ensures r.1.Bounded()
    {
      match bot.state
      case ReceivingDataFromHost =>
        if bot.residue == 0 && bot.pending == [] then EndDataTransfer() else (Ok, this)
      case SendingDataToHost =>
        if bot.residue == 0 then EndDataTransfer()
        else if bot.dataDone && bot.pending == [] then EndDataTransfer()
        else (Ok, this)
      case _ => (Ok, this)
    }

    function SendStatus(status: CommandStatus): (r: (Result, Link))
      requires Bounded()
      ensures r.1.Bounded()
    {
      Link(bot.(status := status, dataDone := true), wire).CheckEndDataTransfer()
    }

    function TransitionToData(cbw: Cbw): (r: Link)
      requires Bounded() && cbw.tag < TWO_32 && cbw.length < TWO_32
      ensures r.Bounded()
    {
      Link(bot.(pending := [], dataI := 0, dataDone := false,
                tag := cbw.tag, residue := cbw.length, status := CommandOk,
                state := if cbw.direction == HostToDevice then ReceivingDataFromHost else SendingDataToHost,
                cbw := cbw, past := bot.past.(dataMark := |wire.Stream()|, takenMark := |wire.taken|, queued := [],
                                            handed := [])), wire)
    }

    function WaitForCommand(): (r: (Result, Link))
      requires Bounded() && bot.state == WaitingForCommand
      ensures r.1.Bounded()
    {
      if BUFFER_BYTES - bot.BufferI() < bot.maxPacket then (WouldBlock, this)
      else
        var (packet, w) := wire.ReadPacket();
        if packet.None? then (WouldBlock, Link(bot, w))
        else
          Link(bot.(pending := Resync(bot.pending + packet.value)), w).TryCommand()
    }

    /** Decodes the buffered bytes once there are enough of them for a command. */
    function TryCommand(): (r: (Result, Link))
      requires Bounded()
      ensures r.1.Bounded()
    {
      if |bot.pending| < CBW_BYTES then (Ok, this)
      else
        match DecodeCbw(bot.pending)
        case None => (DataError, Link(bot.(pending := []), wire))
        case Some(cbw) =>
          var l := TransitionToData(cbw);
          if l.bot.state == ReceivingDataFromHost then l.ReceiveData() else (Ok, l)
    }

    function ReceiveData(): (r: (Result, Link))
      requires Bounded()
      ensures r.1.Bounded()
    {
      if bot.residue > 0 && BUFFER_BYTES - bot.BufferI() >= bot.maxPacket then
        var (packet, w) := wire.ReadPacket();
        if packet.None? then (WouldBlock, Link(bot, w))
        else
          var bytes := |packet.value|;
          var residue := if bot.residue >= bytes then bot.residue - bytes else 0;
          Link(bot.(pending := bot.pending + packet.value, residue := residue), w).CheckEndDataTransfer()
      else CheckEndDataTransfer()
    }

    function Read(): (r: (Result, Link))
      requires Bounded()
      ensures r.1.Bounded()
    {
      match bot.state
      case WaitingForCommand => WaitForCommand()
      case ReceivingDataFromHost => ReceiveData()
      case _ => (Ok, this)
    }

    function SendData(): (r: (Result, Link))
      requires Bounded()
      ensures r.1.Bounded()
    {
      var (r, l) := Flush();
      if r == Ok then l.CheckEndDataTransfer() else (r, l)
    }

    function NeedToSend(): (r: (Result, Link))
      requires Bounded()
      ensures r.1.Bounded()
    {
      var (r, l) := Flush();
      if r == Ok && l.bot.residue == 0 then (Ok, Link(l.bot.(state := WaitingForCommand), l.wire)) else (r, l)
    }

    function Write(): (r: (Result, Link))
      requires Bounded()
      ensures r.1.Bounded()
    {
      match bot.state
      case SendingDataToHost => SendData()
      case NeedZlp => SendZlp()
      case NeedToSendStatus => NeedToSend()
      case _ => (Ok, this)
    }

    /** take_buffer_space with the caller's bytes filled in. */
    function Put(data: seq<byte>): (r: Option<Link>)
      requires Bounded()
      ensures r.Some? ==> r.value.Bounded()
    {
      if |data| <= BUFFER_BYTES - bot.BufferI()
      then Some(Link(bot.(pending := bot.pending + data, past := bot.past.(queued := bot.past.queued + data)), wire))
      else None
    }

    /** take_buffered_data: the oldest pending bytes leave the buffer. */
    function Take(len: nat, takeAvailable: bool): (r: Option<(seq<byte>, Link)>)
      requires Bounded()
      ensures r.None? <==> len > |bot.pending| && !takeAvailable
      ensures r.Some? ==>
        && r.value.1.Bounded() && r.value.0 + r.value.1.bot.pending == bot.pending
        && |r.value.0| == (if len <= |bot.pending| then len else |bot.pending|)
        && r.value.1.bot.past.handed == bot.past.handed + r.value.0
    {
      if !takeAvailable && len > |bot.pending| then None
      else
        var n := Min(len, |bot.pending|);
        var (taken, rest) := (bot.pending[..n], bot.pending[n..]);
        Some((taken, Link(bot.(pending := rest, dataI := if rest == [] then 0 else bot.dataI + n,
                               past := bot.past.(handed := bot.past.handed + taken)), wire)))
    }

    function Reset(): (r: Link)
      requires Bounded()
      ensures r.Bounded()
    {
      Link(bot.(pending := [], dataI := 0, dataDone := false, state := WaitingForCommand), wire)
    }

    /** A transport that waits for a command, or will at its next call, has its buffer begin at index 0. */
    predicate Settled() {
      match bot.state
      case WaitingForCommand => bot.dataI == 0
      case NeedZlp => bot.residue == 0 ==> bot.dataI == 0
      case NeedToSendStatus => bot.residue == 0 ==> bot.dataI == 0
      case _ => true
    }

    // ---- What every run keeps ----

    /** The bytes of the current command's data phase that the host has received so far. */
    function DataSent(): seq<byte> {
      var n := |wire.Stream()|;
      if bot.past.dataMark <= n then wire.Stream()[bot.past.dataMark..] else []
    }

    /** The bytes the host has sent in the current command's data phase so far. */
    function DataReceived(): seq<byte> {
      if bot.past.takenMark <= |wire.taken| then Concat(wire.taken[bot.past.takenMark..]) else []
    }

    /** What came from the host is what was handed out and then what is pending, in order, as long as the command layer
        puts nothing of its own into the buffer; the residue is what is still to come. */
    ghost predicate Receives() {
      && bot.past.takenMark <= |wire.taken|
      && (bot.past.queued == [] ==> DataReceived() == bot.past.handed + bot.pending)
      && bot.residue == if |DataReceived()| >= bot.cbw.length then 0 else bot.cbw.length - |DataReceived()|
    }

    /** All that was announced has come from the host and was handed out, in order. */
    ghost predicate HandedAll() {
      && bot.past.takenMark <= |wire.taken|
      && (bot.past.queued == [] ==> DataReceived() == bot.past.handed)
      && |DataReceived()| >= bot.cbw.length
    }

    /** The command's status is going out. What the host received in the data phase is a prefix of what was queued for
        it; what the status phase has sent and what is pending are the packed wrapper, with the command's tag and the
        residue and status of the moment the data phase ended. Towards the host that residue is what was not sent;
        from the host it is zero, and all the host sent was handed out. */
    ghost predicate Reporting() {
      && bot.cbw.tag < TWO_32 && bot.past.endResidue <= bot.cbw.length < TWO_32
      && bot.past.dataMark <= bot.past.statusMark <= |wire.Stream()|
      && wire.Stream()[bot.past.dataMark..bot.past.statusMark] <= bot.past.queued
      && (if bot.cbw.direction == DeviceToHost
          then bot.past.endResidue == bot.cbw.length - (bot.past.statusMark - bot.past.dataMark)
          else bot.past.endResidue == 0 && bot.past.statusMark == bot.past.dataMark && HandedAll())
      && wire.Stream()[bot.past.statusMark..] + bot.pending ==
           CswBytes(bot.cbw.tag, bot.past.endResidue, bot.past.endStatus)
    }

    /** Nothing queued for the host is lost or reordered: it was sent or is pending, until the host has received all it
        asked for, after which the rest may be dropped. */
    ghost predicate Conserves() {
      && DataSent() <= bot.past.queued
      && (bot.residue > 0 ==> DataSent() + bot.pending == bot.past.queued)
    }

    ghost predicate Inv() {
      && Bounded()
      && match bot.state
         case WaitingForCommand => bot.dataI == 0
         case SendingDataToHost =>
           && bot.tag == bot.cbw.tag && bot.cbw.direction == DeviceToHost && bot.past.dataMark <= |wire.Stream()|
           && bot.residue + |DataSent()| == bot.cbw.length && Conserves()
         case ReceivingDataFromHost =>
           && bot.tag == bot.cbw.tag && bot.cbw.direction == HostToDevice && bot.residue <= bot.cbw.length
           && |wire.Stream()| == bot.past.dataMark && Receives()
         case NeedZlp => bot.residue == |bot.pending| && |wire.Stream()| == bot.past.statusMark && Reporting()
         case NeedToSendStatus =>
           bot.residue == |bot.pending| && (bot.pending == [] ==> bot.dataI == 0) && Reporting()
    }
  }

  /** Flushing moves bytes from the buffer to the host in order. Residue and stream change by the same amount, and
      bytes are dropped only when the residue runs out first. */
  lemma FlushMovesBytes(l: Link)
    requires l.Bounded()
    ensures var l' := l.Flush().1;
      && l.wire.Stream() <= l'.wire.Stream()
      && l'.bot.residue + |l'.wire.Stream()| == l.bot.residue + |l.wire.Stream()|
      && (|l.bot.pending| <= l.bot.residue || l'.bot.residue > 0 ==>
            l'.wire.Stream() + l'.bot.pending == l.wire.Stream() + l.bot.pending)
  {
    if l.bot.pending != [] && l.bot.residue != 0 && l.wire.ready(l.wire.clock) {
      var len := Min(Min(|l.bot.pending|, l.bot.residue), l.bot.maxPacket);
      var p := l.bot.pending[..len];
      assert l.Flush().1.wire.Stream() == l.wire.Stream() + p;
      SplitAndRejoin(l.wire.Stream(), l.bot.pending, len);
    }
  }

  lemma SplitAndRejoin(stream: seq<byte>, pending: seq<byte>, len: nat)
    requires len <= |pending|
    ensures stream + pending[..len] + pending[len..] == stream + pending
  {
  }

  /** Flushing touches nothing but the buffer, the residue and the full-packet flag. */
  lemma FlushKeepsRest(l: Link)
    requires l.Bounded()
    ensures var b, b' := l.bot, l.Flush().1.bot;
      && b'.state == b.state && b'.cbw == b.cbw && b'.tag == b.tag && b'.status == b.status
      && b'.dataDone == b.dataDone && b'.past == b.past
      && b'.maxPacket == b.maxPacket
  {
  }

  /** Flushing in the data phase sends the next of what was queued. */
  lemma FlushConserves(l: Link)
    requires l.Bounded() && l.bot.past.dataMark <= |l.wire.Stream()| && l.Conserves()
    ensures l.bot.past.dataMark <= |l.Flush().1.wire.Stream()| && l.Flush().1.Conserves()
    ensures l.Flush().1.bot.residue + |l.Flush().1.DataSent()| == l.bot.residue + |l.DataSent()|
  {
    FlushMovesBytes(l);
    FlushKeepsRest(l);
    var l' := l.Flush().1;
    if l.bot.residue > 0 && l' != l {
      SentExtends(l.wire.Stream(), l.bot.pending, l'.wire.Stream(), l'.bot.pending, l.bot.past.dataMark, l.bot.residue);
    }
  }

  lemma SentExtends(s: seq<byte>, p: seq<byte>, s': seq<byte>, p': seq<byte>, m: nat, room: nat)
    requires m <= |s| && s <= s' && (s' + p' == s + p || exists n: nat :: n <= |p| && s' == s + p[..n])
    ensures s[m..] <= s'[m..] <= s[m..] + p
    ensures s' + p' == s + p ==> s'[m..] + p' == s[m..] + p
  {
    if s' + p' == s + p {
      CutFront(s', p', s, p, m);
    } else {
      var n: nat :| n <= |p| && s' == s + p[..n];
      assert s'[m..] == s[m..] + p[..n];
    }
  }

  /** Flushing in the status phase keeps the report whole. */
  lemma FlushKeepsReport(l: Link)
    requires l.Bounded() && l.bot.residue == |l.bot.pending| && l.Reporting()
    ensures var l' := l.Flush().1;
      l'.bot.residue == |l'.bot.pending| && l'.Reporting() && l.wire.Stream() <= l'.wire.Stream()
  {
    FlushMovesBytes(l);
    FlushKeepsRest(l);
    var l' := l.Flush().1;
    CutFront(l.wire.Stream(), l.bot.pending, l'.wire.Stream(), l'.bot.pending, l.bot.past.statusMark);
    SameMiddle(l.wire.Stream(), l'.wire.Stream(), l.bot.past.dataMark, l.bot.past.statusMark);
  }

  lemma SameMiddle(a: seq<byte>, b: seq<byte>, m: nat, n: nat)
    requires a <= b && m <= n <= |a|
    ensures a[m..n] == b[m..n]
  {
  }

  lemma CutFront(a: seq<byte>, b: seq<byte>, c: seq<byte>, d: seq<byte>, m: nat)
    requires a + b == c + d && m <= |a| && m <= |c|
    ensures a[m..] + b == c[m..] + d
  {
    assert a[m..] + b == (a + b)[m..];
    assert c[m..] + d == (c + d)[m..];
  }

  /** A data phase may end from the host only when nothing more is to come and all was handed out. */
  ghost predicate MayEnd(l: Link) {
    && l.bot.GetCurrentCommand().Some?
    && (l.bot.state == ReceivingDataFromHost ==> l.bot.residue == 0 && l.bot.pending == [])
  }

  lemma PackingMakesReport(l: Link)
    requires l.Inv() && MayEnd(l)
    ensures l.PackCsw().Reporting()
  {
    var p := l.PackCsw();
    var n := |l.wire.Stream()|;
    assert l.wire.Stream()[p.bot.past.statusMark..] + p.bot.pending == p.bot.pending;
    assert l.wire.Stream()[l.bot.past.dataMark..n] == l.DataSent();
  }

  /** Ending a data phase packs the residue and status reached there. A zero-length packet goes out first exactly when
      the last packet was full and the phase was towards the host: the documented second condition, that less was sent
      than asked for, is tested on the wrapper's own length and never excludes it. */
  lemma EndReportsResidue(l: Link)
    requires l.Inv() && MayEnd(l)
    ensures var (r, l') := l.EndDataTransfer();
      && l'.Inv() && (l'.bot.state == NeedZlp || l'.bot.state == NeedToSendStatus)
      && l'.bot.past.endResidue == l.bot.residue && l'.bot.past.endStatus == l.bot.status
      && l.bot.cbw.tag < TWO_32 && l.bot.residue < TWO_32
      && l'.bot.past.statusMark == |l.wire.Stream()| && l.wire.Stream() <= l'.wire.Stream()
      && l'.wire.Stream()[|l.wire.Stream()|..] + l'.bot.pending == CswBytes(l.bot.cbw.tag, l.bot.residue, l.bot.status)
      && l'.bot.cbw == l.bot.cbw && l'.bot.dataDone == l.bot.dataDone && l'.bot.past.queued == l.bot.past.queued
  {
    PackingMakesReport(l);
    var p := l.PackCsw();
    if p.bot.lastPacketFull && p.bot.state == SendingDataToHost {
      var z := Link(p.bot.(state := NeedZlp), p.wire);
      assert z.Reporting();
      ZlpKeepsInv(z);
    } else {
      var z := Link(p.bot.(state := NeedToSendStatus), p.wire);
      assert z.Reporting();
      FlushKeepsReport(z);
      FlushKeepsRest(z);
    }
  }

  /** When the transport is ready to end a data phase, the packet sent first is empty exactly when the last packet
      was full and the phase was towards the host. So it is sent although the host has received all it asked for if and
      only if, besides, nothing is left of the residue. */
  lemma ZlpIffLastPacketFull(l: Link)
    requires l.Inv() && l.bot.GetCurrentCommand().Some? && l.wire.ready(l.wire.clock)
    ensures var l' := l.EndDataTransfer().1;
      && |l'.wire.sent| == |l.wire.sent| + 1 && l'.wire.sent[..|l.wire.sent|] == l.wire.sent
      && (l'.wire.sent[|l.wire.sent|] == [] <==> l.bot.lastPacketFull && l.bot.state == SendingDataToHost)
      && ((l'.wire.sent[|l.wire.sent|] == [] ==> l.bot.residue > 0) <==>
            !(l.bot.lastPacketFull && l.bot.state == SendingDataToHost && l.bot.residue == 0))
  {
  }

  lemma InvSettles(l: Link)
    requires l.Inv()
    ensures l.Settled()
  {
    if l.bot.state == NeedZlp {
      assert l.wire.Stream()[l.bot.past.statusMark..] == [];
    }
  }

  lemma EndSettles(l: Link)
    requires l.Bounded()
    ensures l.EndDataTransfer().1.Settled()
  {
  }

  lemma CheckSettles(l: Link)
    requires l.Bounded() && l.Settled()
    ensures l.CheckEndDataTransfer().1.Settled()
  {
    EndSettles(l);
  }

  lemma WriteSettles(l: Link)
    requires l.Bounded() && l.Settled()
    ensures l.Write().1.Settled()
  {
    if l.bot.state == SendingDataToHost {
      CheckSettles(l.Flush().1);
    }
  }

  lemma ReceiveSettles(l: Link)
    requires l.Bounded() && l.bot.state == ReceivingDataFromHost
    ensures l.ReceiveData().1.Settled()
  {
    if l.bot.residue > 0 && BUFFER_BYTES - l.bot.BufferI() >= l.bot.maxPacket {
      var (packet, w) := l.wire.ReadPacket();
      if packet.Some? {
        var bytes := |packet.value|;
        var residue := if l.bot.residue >= bytes then l.bot.residue - bytes else 0;
        CheckSettles(Link(l.bot.(pending := l.bot.pending + packet.value, residue := residue), w));
      }
    } else {
      CheckSettles(l);
    }
  }

  lemma ReadSettles(l: Link)
    requires l.Bounded() && l.Settled()
    ensures l.Read().1.Settled()
  {
    if l.bot.state == ReceivingDataFromHost {
      ReceiveSettles(l);
    } else if l.bot.state == WaitingForCommand && BUFFER_BYTES - l.bot.BufferI() >= l.bot.maxPacket {
      var (packet, w) := l.wire.ReadPacket();
      if packet.Some? {
        TrySettles(Link(l.bot.(pending := Resync(l.bot.pending + packet.value)), w));
      }
    }
  }

  lemma TrySettles(l: Link)
    requires l.Bounded() && l.bot.state == WaitingForCommand && l.bot.dataI == 0
    ensures l.TryCommand().1.Settled()
  {
    if |l.bot.pending| >= CBW_BYTES && DecodeCbw(l.bot.pending).Some? {
      var l' := l.TransitionToData(DecodeCbw(l.bot.pending).value);
      if l'.bot.state == ReceivingDataFromHost {
        ReceiveSettles(l');
      }
    }
  }

  /** Sending leaves what comes from the host alone, and the stream only grows. */
  ghost predicate OnlySends(l: Link, l': Link) {
    && l'.wire.taken == l.wire.taken && l'.wire.incoming == l.wire.incoming && l'.wire.ready == l.wire.ready
    && l.wire.clock <= l'.wire.clock && |l.wire.Stream()| <= |l'.wire.Stream()|
    && l'.bot.maxPacket == l.bot.maxPacket
  }

  lemma FlushOnlySends(l: Link)
    requires l.Bounded()
    ensures OnlySends(l, l.Flush().1)
  {
  }

  lemma EndOnlySends(l: Link)
    requires l.Bounded()
    ensures OnlySends(l, l.EndDataTransfer().1)
  {
  }

  lemma SendDataOnlySends(l: Link)
    requires l.Bounded()
    ensures OnlySends(l, l.SendData().1)
  {
    FlushOnlySends(l);
    EndOnlySends(l.Flush().1);
  }

  /** When the data phase towards the host ends: the residue is used up, or the command is done and all it queued
      has been sent. */
  lemma SendDataEndsIff(l: Link)
    requires l.Bounded() && l.bot.state == SendingDataToHost
    ensures var (r, f) := l.Flush();
      l.SendData().1 == if r == Ok && (f.bot.residue == 0 || (f.bot.dataDone && f.bot.pending == []))
                        then f.EndDataTransfer().1 else f
  {
    FlushKeepsRest(l);
  }

  // ---- Runs ----

  /** What may happen to the transport: the host queues a packet, the bus is polled in either direction, and the
      command layer fills or drains the buffer or ends the command. */
  datatype Action =
    | HostSends(packet: seq<byte>)
    | DoRead
    | DoWrite
    | DoPut(data: seq<byte>)
    | DoTake(len: nat, takeAvailable: bool)
    | DoSendStatus(status: CommandStatus)
    | DoReset

  /** Packets longer than the endpoint's size cannot be sent; the command layer touches the buffer only while it has
      a command. */
  function Act(l: Link, a: Action): (r: Link)
    requires l.Bounded()
    ensures r.Bounded()
  {
    match a
    case HostSends(p) => if |p| > l.bot.maxPacket then l else l.(wire := l.wire.(incoming := l.wire.incoming + [p]))
    case DoRead => l.Read().1
    case DoWrite => l.Write().1
    case DoPut(data) =>
      if l.bot.GetCurrentCommand().None? then l
      else (match l.Put(data) case Some(l') => l' case None => l)
    case DoTake(len, takeAvailable) =>
      if l.bot.state != ReceivingDataFromHost then l
      else (match l.Take(len, takeAvailable) case Some(r) => r.1 case None => l)
    case DoSendStatus(status) => if l.bot.GetCurrentCommand().None? then l else l.SendStatus(status).1
    case DoReset => l.Reset()
  }

  lemma CheckKeepsInv(l: Link)
    requires l.Inv()
    ensures l.CheckEndDataTransfer().1.Inv()
  {
    if MayEnd(l) {
      EndReportsResidue(l);
    }
  }

  lemma WriteKeepsInv(l: Link)
    requires l.Inv()
    ensures l.Write().1.Inv()
  {
    match l.bot.state {
      case SendingDataToHost =>
        FlushKeepsRest(l);
        FlushConserves(l);
        CheckKeepsInv(l.Flush().1);
      case NeedZlp => ZlpKeepsInv(l);
      case NeedToSendStatus => NeedToSendKeepsInv(l);
      case _ =>
    }
  }

  lemma ZlpKeepsInv(l: Link)
    requires l.Inv() && l.bot.state == NeedZlp
    ensures l.SendZlp().1.Inv() && l.SendZlp().1.wire.Stream() == l.wire.Stream()
  {
    assert l.SendZlp().1.wire.Stream() == l.wire.Stream();
  }

  lemma NeedToSendKeepsInv(l: Link)
    requires l.Inv() && l.bot.state == NeedToSendStatus
    ensures l.NeedToSend().1.Inv()
  {
    FlushKeepsRest(l);
    FlushKeepsReport(l);
  }

  lemma ReceiveKeepsInv(l: Link)
    requires l.Inv() && l.bot.state == ReceivingDataFromHost
    ensures l.ReceiveData().1.Inv()
  {
    if l.bot.residue > 0 && BUFFER_BYTES - l.bot.BufferI() >= l.bot.maxPacket {
      var (packet, w) := l.wire.ReadPacket();
      if packet.Some? {
        var bytes := |packet.value|;
        var residue := if l.bot.residue >= bytes then l.bot.residue - bytes else 0;
        PacketReceived(l);
        CheckKeepsInv(Link(l.bot.(pending := l.bot.pending + packet.value, residue := residue), w));
      }
    } else {
      CheckKeepsInv(l);
    }
  }

  lemma PacketReceived(l: Link)
    requires l.Bounded() && l.Receives() && l.wire.ready(l.wire.clock) && l.wire.incoming != []
    ensures var (packet, w) := l.wire.ReadPacket();
      var residue := if l.bot.residue >= |packet.value| then l.bot.residue - |packet.value| else 0;
      Link(l.bot.(pending := l.bot.pending + packet.value, residue := residue), w).Receives()
  {
    var p := l.wire.incoming[0];
    var data := l.wire.taken[l.bot.past.takenMark..];
    assert (l.wire.taken + [p])[l.bot.past.takenMark..] == data + [p];
    assert (data + [p])[..|data|] == data;
    assert l.bot.past.handed + l.bot.pending + p == l.bot.past.handed + (l.bot.pending + p);
  }

  lemma ReadKeepsInv(l: Link)
    requires l.Inv()
    ensures l.Read().1.Inv()
  {
    if l.bot.state == ReceivingDataFromHost {
      ReceiveKeepsInv(l);
    } else if l.bot.state == WaitingForCommand && BUFFER_BYTES - l.bot.BufferI() >= l.bot.maxPacket {
      var (packet, w) := l.wire.ReadPacket();
      if packet.Some? {
        TryCommandKeepsInv(Link(l.bot.(pending := Resync(l.bot.pending + packet.value)), w));
      }
    }
  }

  lemma TryCommandKeepsInv(l: Link)
    requires l.Inv() && l.bot.state == WaitingForCommand
    ensures l.TryCommand().1.Inv()
  {
    if |l.bot.pending| >= CBW_BYTES && DecodeCbw(l.bot.pending).Some? {
      var l' := l.TransitionToData(DecodeCbw(l.bot.pending).value);
      if l'.bot.state == ReceivingDataFromHost {
        ReceiveKeepsInv(l');
      }
    }
  }

  lemma ActKeepsInv(l: Link, a: Action)
    requires l.Inv()
    ensures Act(l, a).Inv()
  {
    match a {
      case HostSends(p) =>
      case DoRead => ReadKeepsInv(l);
      case DoWrite => WriteKeepsInv(l);
      case DoPut(data) => PutKeepsInv(l, data);
      case DoTake(len, takeAvailable) => TakeKeepsInv(l, len, takeAvailable);
      case DoSendStatus(status) =>
        if l.bot.GetCurrentCommand().Some? {
          CheckKeepsInv(Link(l.bot.(status := status, dataDone := true), l.wire));
        }
      case DoReset =>
    }
  }

  lemma PutKeepsInv(l: Link, data: seq<byte>)
    requires l.Inv()
    ensures Act(l, DoPut(data)).Inv()
  {
    if l.bot.state == SendingDataToHost && l.Put(data).Some? {
      PutConserves(l, data);
    }
  }

  lemma TakeKeepsInv(l: Link, len: nat, takeAvailable: bool)
    requires l.Inv()
    ensures Act(l, DoTake(len, takeAvailable)).Inv()
  {
    if l.bot.state == ReceivingDataFromHost && l.Take(len, takeAvailable).Some? {
      TakeReceives(l, len, takeAvailable);
    }
  }

  lemma TakeReceives(l: Link, len: nat, takeAvailable: bool)
    requires l.Bounded() && l.Receives() && l.Take(len, takeAvailable).Some?
    ensures l.Take(len, takeAvailable).value.1.Receives()
  {
    var (taken, l') := l.Take(len, takeAvailable).value;
    assert l.bot.past.handed + (taken + l'.bot.pending) == (l.bot.past.handed + taken) + l'.bot.pending;
  }

  lemma PutConserves(l: Link, data: seq<byte>)
    requires l.Bounded() && l.Put(data).Some? && l.Conserves()
    ensures l.Put(data).value.Conserves() && l.Put(data).value.DataSent() == l.DataSent()
  {
    assert l.DataSent() + (l.bot.pending + data) == (l.DataSent() + l.bot.pending) + data;
  }

  function Run(l: Link, actions: seq<Action>): (r: Link)
    requires l.Bounded()
    ensures r.Bounded()
    decreases |actions|
  {
    if |actions| == 0 then l else Run(Act(l, actions[0]), actions[1..])
  }

  function Initial(maxPacket: nat, ready: nat -> bool): (l: Link)
    requires 1 <= maxPacket <= BUFFER_BYTES
    ensures l.Inv() && l.bot.state == WaitingForCommand
  {
    Link(Bot(maxPacket, WaitingForCommand, Cbw(0, 0, HostToDevice, 0, 0, []), 0, 0, CommandOk, 0, [], false, false,
             Past(0, 0, 0, [], [], 0, CommandOk)),
         Wire(ready, 0, [], [], []))
  }

  /** Every state that any sequence of host packets, polls and command-layer calls can reach, under any schedule of
      blocking, satisfies the invariant: the buffer indices are in order and in range; towards the host what was sent
      and what is pending are, in order, what was queued, and residue and bytes sent add up to the length asked for;
      and what goes out after the data is the packed status wrapper. */
  lemma {:induction false} EveryRunKeepsInv(l: Link, actions: seq<Action>)
    requires l.Inv()
    ensures Run(l, actions).Inv()
    decreases |actions|
  {
    if |actions| > 0 {
      ActKeepsInv(l, actions[0]);
      EveryRunKeepsInv(Act(l, actions[0]), actions[1..]);
    }
  }

  lemma CheckQueuesNothing(l: Link)
    requires l.Bounded() && l.bot.past.queued == []
    ensures l.CheckEndDataTransfer().1.bot.past.queued == []
  {
    FlushKeepsRest(Link(l.PackCsw().bot.(state := NeedToSendStatus), l.wire));
  }

  lemma ReceiveQueuesNothing(l: Link)
    requires l.Bounded() && l.bot.past.queued == []
    ensures l.ReceiveData().1.bot.past.queued == []
  {
    var (packet, w) := l.wire.ReadPacket();
    if packet.Some? && l.bot.BufferI() + |packet.value| <= BUFFER_BYTES {
      var bytes := |packet.value|;
      var residue := if l.bot.residue >= bytes then l.bot.residue - bytes else 0;
      CheckQueuesNothing(Link(l.bot.(pending := l.bot.pending + packet.value, residue := residue), w));
    }
    CheckQueuesNothing(l);
  }

  lemma TryQueuesNothing(l: Link)
    requires l.Bounded() && l.bot.past.queued == []
    ensures l.TryCommand().1.bot.past.queued == []
  {
    if |l.bot.pending| >= CBW_BYTES && DecodeCbw(l.bot.pending).Some? {
      ReceiveQueuesNothing(l.TransitionToData(DecodeCbw(l.bot.pending).value));
    }
  }

  lemma ReadQueuesNothing(l: Link)
    requires l.Bounded() && l.bot.past.queued == []
    ensures l.Read().1.bot.past.queued == []
  {
    if l.bot.state == ReceivingDataFromHost {
      ReceiveQueuesNothing(l);
    } else if l.bot.state == WaitingForCommand && BUFFER_BYTES - l.bot.BufferI() >= l.bot.maxPacket {
      var (packet, w) := l.wire.ReadPacket();
      if packet.Some? {
        TryQueuesNothing(Link(l.bot.(pending := Resync(l.bot.pending + packet.value)), w));
      }
    }
  }

  lemma WriteQueuesNothing(l: Link)
    requires l.Bounded() && l.bot.past.queued == []
    ensures l.Write().1.bot.past.queued == []
  {
    FlushKeepsRest(l);
    if l.bot.state == SendingDataToHost {
      CheckQueuesNothing(l.Flush().1);
    }
  }

  lemma ActQueuesNothing(l: Link, a: Action)
    requires l.Bounded() && !a.DoPut? && l.bot.past.queued == []
    ensures Act(l, a).bot.past.queued == []
  {
    match a {
      case DoRead => ReadQueuesNothing(l);
      case DoWrite => WriteQueuesNothing(l);
      case DoSendStatus(status) => CheckQueuesNothing(Link(l.bot.(status := status, dataDone := true), l.wire));
      case _ =>
    }
  }

  lemma {:induction false} QueuesNothing(l: Link, actions: seq<Action>)
    requires l.Bounded() && l.bot.past.queued == [] && forall a <- actions :: !a.DoPut?
    ensures Run(l, actions).bot.past.queued == []
    decreases |actions|
  {
    if |actions| > 0 {
      ActQueuesNothing(l, actions[0]);
      QueuesNothing(Act(l, actions[0]), actions[1..]);
    }
  }

  /** Over every run in which the command layer only takes: while data comes from the host, the packets of the command's
      data phase are, in order, what was handed out and then what is pending, and the residue is what is still to come.
      When its status goes out, all of them were handed out. */
  lemma HandedOutInOrder(l: Link, actions: seq<Action>)
    requires l.Inv() && l.bot.past.queued == [] && forall a <- actions :: !a.DoPut?
    ensures var r := Run(l, actions); var data := r.DataReceived();
      && (r.bot.state == ReceivingDataFromHost ==>
            && data == r.bot.past.handed + r.bot.pending
            && r.bot.residue == if |data| >= r.bot.cbw.length then 0 else r.bot.cbw.length - |data|)
      && (r.bot.state == NeedToSendStatus && r.bot.cbw.direction == HostToDevice ==>
            data == r.bot.past.handed && |data| >= r.bot.cbw.length)
  {
    EveryRunKeepsInv(l, actions);
    QueuesNothing(l, actions);
  }

  /** What the host has received for a command when the transport goes back to waiting: a prefix of what was queued and
      then one packed wrapper, with the command's tag, the status, and a residue that is exactly what was not sent. */
  ghost predicate Answered(l: Link) {
    var b := l.bot;
    && b.past.dataMark <= b.past.statusMark <= |l.wire.Stream()| && b.cbw.tag < TWO_32 && b.past.endResidue < TWO_32
    && var data := l.wire.Stream()[b.past.dataMark..b.past.statusMark];
    && data <= b.past.queued
    && b.past.endResidue == (if b.cbw.direction == DeviceToHost then b.cbw.length - |data| else 0)
    && (b.cbw.direction == HostToDevice ==> data == [] && l.HandedAll())
    && l.wire.Stream()[b.past.statusMark..] == CswBytes(b.cbw.tag, b.past.endResidue, b.past.endStatus)
  }

  /** Unless it is reset, the transport returns to waiting only from the status phase, and only when the host has
      received exactly the answer to the command. */
  lemma CommandEndsWithOneReport(l: Link, a: Action)
    requires l.Inv() && a != DoReset && l.bot.state != WaitingForCommand
    requires Act(l, a).bot.state == WaitingForCommand
    ensures l.bot.state == NeedToSendStatus && a == DoWrite
    ensures Act(l, a).bot.pending == [] && Answered(Act(l, a))
    ensures var b, b' := l.bot, Act(l, a).bot; b'.cbw == b.cbw && b'.past == b.past
  {
    if l.bot.GetCurrentCommand().Some? {
      NeverStraightToWaiting(l, a);
    } else if a == DoWrite && l.bot.state == NeedToSendStatus {
      FlushKeepsRest(l);
      FlushKeepsReport(l);
      ReportSent(Act(l, a));
    }
  }

  lemma ReportSent(l: Link)
    requires l.Reporting() && l.bot.pending == []
    ensures Answered(l)
  {
    assert l.wire.Stream()[l.bot.past.statusMark..] + [] == l.wire.Stream()[l.bot.past.statusMark..];
  }

  /** The residue and status that are reported are those of the step in which the data phase ended, and nothing put
      into the buffer later is counted as queued. */
  lemma ReportIsOfTheEnd(l: Link, a: Action)
    requires l.Inv() && (l.bot.state == NeedZlp || l.bot.state == NeedToSendStatus)
    requires Act(l, a).bot.state == NeedZlp || Act(l, a).bot.state == NeedToSendStatus
    ensures var b, b' := l.bot, Act(l, a).bot; b'.cbw == b.cbw && b'.past == b.past
  {
    if a == DoWrite && l.bot.state == NeedToSendStatus {
      FlushKeepsRest(l);
    }
  }

  lemma NeverStraightToWaiting(l: Link, a: Action)
    requires l.Inv() && a != DoReset && l.bot.GetCurrentCommand().Some?
    ensures Act(l, a).bot.state != WaitingForCommand
  {
    match a {
      case DoWrite =>
        if l.bot.state == SendingDataToHost {
          FlushKeepsRest(l);
          SendDataEndsIff(l);
          EndGoesToStatus(l.Flush().1);
        }
      case DoRead =>
        if l.bot.state == ReceivingDataFromHost {
          ReceiveStays(l);
        }
      case DoSendStatus(status) => EndGoesToStatus(Link(l.bot.(status := status, dataDone := true), l.wire));
      case _ =>
    }
  }

  lemma EndGoesToStatus(l: Link)
    requires l.Bounded()
    ensures var st := l.EndDataTransfer().1.bot.state; st == NeedZlp || st == NeedToSendStatus
  {
    FlushKeepsRest(Link(l.PackCsw().bot.(state := NeedToSendStatus), l.wire));
  }

  lemma ReceiveStays(l: Link)
    requires l.Bounded() && l.bot.state == ReceivingDataFromHost
    ensures l.ReceiveData().1.bot.state != WaitingForCommand
  {
    var (packet, w) := l.wire.ReadPacket();
    if packet.Some? && l.bot.BufferI() + |packet.value| <= BUFFER_BYTES {
      var bytes := |packet.value|;
      var residue := if l.bot.residue >= bytes then l.bot.residue - bytes else 0;
      EndGoesToStatus(Link(l.bot.(pending := l.bot.pending + packet.value, residue := residue), w));
    } else {
      EndGoesToStatus(l);
    }
  }
}
