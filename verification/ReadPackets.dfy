/** What the SCSI Reads of a session are, byte by byte: the packets a host sends and the bytes it is owed for them, both
    written out without the parser and the packer of the device. */
module ReadPackets {
  import opened Bytes
  import opened Wrappers
  import opened TransportSpec
  import opened ScsiSpec

  datatype Kind = Read6 | Read10 | Read12

  /** A Read of `count` blocks from block `first` on, for which the host makes room for `length` bytes. The other bytes
      of the packet are arbitrary: the unit, the flags and the rest of the command. */
  datatype Request = Request(kind: Kind, tag: nat, length: nat, first: nat, count: nat,
                             unit: byte, size: byte, flags: byte, rest: seq<byte>)
  {
    predicate Valid() {
      && tag < 0x1_0000_0000 && 512 * count <= length < 0x1_0000_0000 && 1 <= count && first + count < 0x1_0000_0000
      && match kind
         case Read6 => first < 0x20_0000 && count < 256 && flags < 8 && size >= 6 && |rest| == 11
         case Read10 => count < 0x1_0000 && size >= 10 && |rest| == 8
         case Read12 => size >= 12 && |rest| == 6
    }

    /** The sixteen bytes of the command. */
    function Command(): (s: seq<byte>)
      requires Valid()
      ensures |s| == 16
    {
      match kind
      case Read6 => [0x08, 32 * flags + first / 0x1_0000, first / 256 % 256, first % 256, count] + rest
      case Read10 => [0x28, flags] + High4(first) + [rest[0], count / 256, count % 256] + rest[1..]
      case Read12 => [0xA8, flags] + High4(first) + High4(count) + rest
    }

    function Packet(): (s: seq<byte>)
      requires Valid()
      ensures |s| == 31
    {
      [0x55, 0x53, 0x42, 0x43] + Low4(tag) + Low4(length) + [0x80, unit, size] + Command()
    }

    /** The status the host is owed: its tag, what of its room was not used, and success. */
    function Status(): (s: seq<byte>)
      requires Valid()
    {
      [0x55, 0x53, 0x42, 0x53] + Low4(tag) + Low4(length - 512 * count) + [0]
    }
  }

  predicate AllValid(reqs: seq<Request>) {
    forall i | 0 <= i < |reqs| :: reqs[i].Valid()
  }

  function Packets(reqs: seq<Request>): (r: seq<seq<byte>>)
    requires AllValid(reqs)
    ensures |r| == |reqs|
  {
    seq(|reqs|, i requires 0 <= i < |reqs| => reqs[i].Packet())
  }

  /** The blocks asked for and then a status, request after request. */
  function Owed(disk: nat -> Block, reqs: seq<Request>): seq<byte>
    requires AllValid(reqs)
  {
    if |reqs| == 0 then []
    else var r := reqs[|reqs| - 1]; Owed(disk, reqs[..|reqs| - 1]) + Blocks(disk, r.first, r.count) + r.Status()
  }

  function Asked(reqs: seq<Request>): seq<nat>
  {
    if |reqs| == 0 then []
    else var r := reqs[|reqs| - 1]; Asked(reqs[..|reqs| - 1]) + seq(r.count, i => r.first + i)
  }

  // ---- What the device makes of a packet ----

  lemma CommandMeans(r: Request, cbw: Cbw)
    requires r.Valid() && cbw.data == r.Command() && cbw.dataLength == r.size
    ensures ExtractRead(cbw) == Some(Read(r.first, r.count))
  {
    match r.kind
    case Read6 => SixMeans(r, cbw);
    case Read10 => TenMeans(r, cbw);
    case Read12 => TwelveMeans(r, cbw);
  }

  lemma SixMeans(r: Request, cbw: Cbw)
    requires r.Valid() && r.kind == Read6 && cbw.data == r.Command() && cbw.dataLength == r.size
    ensures ExtractRead(cbw) == Some(Read(r.first, r.count))
  {
    var s := cbw.data[1..4];
    BeThree(s);
    SixBlock(r.flags, r.first, 0x1_0000 * (s[0] as int) + 256 * (s[1] as int) + s[2]);
  }

  /** The three bits above the block number do not count. */
  lemma SixBlock(flags: nat, first: nat, v: nat)
    requires first < 0x20_0000
    requires v == 0x1_0000 * (32 * flags + first / 0x1_0000) + 256 * (first / 256 % 256) + first % 256
    ensures v % 0x20_0000 == first
  {
    assert first / 256 / 256 == first / 0x1_0000;
    assert v == 0x20_0000 * flags + first;
  }

  lemma TenMeans(r: Request, cbw: Cbw)
    requires r.Valid() && r.kind == Read10 && cbw.data == r.Command() && cbw.dataLength == r.size
    ensures ExtractRead(cbw) == Some(Read(r.first, r.count))
  {
    assert cbw.data[2..6] == High4(r.first);
    HighWord(cbw.data[2..6], r.first);
    BeTwo(cbw.data[7..9]);
  }

  lemma TwelveMeans(r: Request, cbw: Cbw)
    requires r.Valid() && r.kind == Read12 && cbw.data == r.Command() && cbw.dataLength == r.size
    ensures ExtractRead(cbw) == Some(Read(r.first, r.count))
  {
    assert cbw.data[2..6] == High4(r.first) && cbw.data[6..10] == High4(r.count);
    HighWord(cbw.data[2..6], r.first);
    HighWord(cbw.data[6..10], r.count);
  }

  lemma WrapperMeans(r: Request)
    requires r.Valid()
    ensures DecodeCbw(r.Packet()) == Some(Cbw(r.tag, r.length, DeviceToHost, r.unit, r.size, r.Command()))
    ensures SignatureAt(r.Packet(), 0)
  {
    var p := r.Packet();
    assert p[4..8] == Low4(r.tag) && p[8..12] == Low4(r.length) && p[15..31] == r.Command();
    LowWord(p[4..8], r.tag);
    LowWord(p[8..12], r.length);
  }

  lemma StatusMeans(r: Request)
    requires r.Valid()
    ensures CswBytes(r.tag, r.length - 512 * r.count, CommandOk) == r.Status()
  {
    LowIsLe32(CSW_SIGNATURE);
    LowIsLe32(r.tag);
    LowIsLe32(r.length - 512 * r.count);
  }

  lemma PacketMeans(r: Request, disk: nat -> Block)
    requires r.Valid()
    ensures var p := r.Packet();
      && IsRead(p) && ReadOf(p) == Read(r.first, r.count)
      && Data(disk, p) == Blocks(disk, r.first, r.count) && Csw(p) == r.Status()
  {
    WrapperMeans(r);
    CommandMeans(r, DecodeCbw(r.Packet()).value);
    StatusMeans(r);
  }

  lemma {:induction false} OwedIsAnswers(disk: nat -> Block, reqs: seq<Request>)
    requires AllValid(reqs)
    ensures AllReads(Packets(reqs))
    ensures Answers(disk, Packets(reqs)) == Owed(disk, reqs) && BlocksRead(Packets(reqs)) == Asked(reqs)
  {
    if |reqs| > 0 {
      var front, last := reqs[..|reqs| - 1], reqs[|reqs| - 1];
      OwedIsAnswers(disk, front);
      PacketMeans(last, disk);
      PacketsMore(reqs);
      AskedMore(reqs);
      AnswersMore(disk, Packets(front), last.Packet());
    }
  }

  lemma AskedMore(reqs: seq<Request>)
    requires |reqs| > 0
    ensures var last := reqs[|reqs| - 1]; Asked(reqs) == Asked(reqs[..|reqs| - 1]) + Range(last.first, last.count)
  {
    var last := reqs[|reqs| - 1];
    assert Range(last.first, last.count) == seq(last.count, i => last.first + i);
  }

  lemma PacketsMore(reqs: seq<Request>)
    requires AllValid(reqs) && |reqs| > 0
    ensures Packets(reqs) == Packets(reqs[..|reqs| - 1]) + [reqs[|reqs| - 1].Packet()]
  {
  }

  // ---- Sessions ----

  /** For every schedule of blocking and every interleaving of polls with these packets, the host has received a prefix
      of what it is owed and the device has read a prefix of the blocks asked for; an idle device has sent and read all
      of it. */
  lemma RequestsAnsweredInOrder(maxPacket: nat, ready: nat -> bool, disk: nat -> Block, events: seq<Event>,
                                reqs: seq<Request>)
    requires CBW_BYTES <= maxPacket <= BUFFER_BYTES && AllValid(reqs) && SentBy(events) == Packets(reqs)
    ensures var s := Session(Scsi(Initial(maxPacket, ready), disk, NoCommand, 0, 0, []), events);
      && s.link.wire.Stream() <= Owed(disk, reqs) && s.log <= Asked(reqs)
      && (s.link.bot.state == WaitingForCommand && s.link.wire.incoming == [] ==>
            s.link.wire.Stream() == Owed(disk, reqs) && s.log == Asked(reqs))
  {
    OwedIsAnswers(disk, reqs);
    SentAreReads(events);
    SessionAnswersInOrder(maxPacket, ready, disk, events);
  }

  lemma {:induction false} SentAreReads(events: seq<Event>)
    requires AllReads(SentBy(events))
    ensures ReadsOnly(events)
  {
    if |events| > 0 {
      var rest := SentBy(events[1..]);
      if events[0].Requests? {
        assert SentBy(events)[0] == events[0].packet && SentBy(events)[1..] == rest;
      } else {
        assert SentBy(events) == rest;
      }
      forall i | 0 <= i < |rest| ensures IsRead(rest[i]) {
        assert IsRead(SentBy(events)[if events[0].Requests? then i + 1 else i]);
      }
      SentAreReads(events[1..]);
      forall e | e in events ensures e.Requests? ==> IsRead(e.packet) {
        if e != events[0] {
          assert e in events[1..];
        } else if e.Requests? {
          assert IsRead(SentBy(events)[0]);
        }
      }
    }
  }

  lemma {:induction false} AnswersJoin(disk: nat -> Block, a: seq<seq<byte>>, b: seq<seq<byte>>)
    requires AllReads(a) && AllReads(b)
    ensures AllReads(a + b)
    ensures Answers(disk, a + b) == Answers(disk, a) + Answers(disk, b)
    ensures BlocksRead(a + b) == BlocksRead(a) + BlocksRead(b)
  {
    if |b| == 0 {
      assert a + b == a;
    } else {
      var front, last := b[..|b| - 1], b[|b| - 1];
      AnswersJoin(disk, a, front);
      SplitLast(a, b);
      AnswersMore(disk, a + front, last);
      AnswersMore(disk, front, last);
      JoinMore(Answers(disk, a), Answers(disk, front), Data(disk, last), Csw(last));
      Reassociate(BlocksRead(a), BlocksRead(front), Range(ReadOf(last).first, ReadOf(last).count));
    }
  }

  lemma SplitLast<T>(a: seq<T>, b: seq<T>)
    requires |b| > 0
    ensures a + b == (a + b[..|b| - 1]) + [b[|b| - 1]] && b == b[..|b| - 1] + [b[|b| - 1]]
  {
  }

  lemma Reassociate<T>(a: seq<T>, b: seq<T>, c: seq<T>)
    ensures (a + b) + c == a + (b + c)
  {
  }

  lemma AnswersMore(disk: nat -> Block, a: seq<seq<byte>>, p: seq<byte>)
    requires AllReads(a) && IsRead(p)
    ensures AllReads(a + [p]) && Answers(disk, a + [p]) == Answers(disk, a) + Data(disk, p) + Csw(p)
    ensures BlocksRead(a + [p]) == BlocksRead(a) + Range(ReadOf(p).first, ReadOf(p).count)
  {
    assert (a + [p])[..|a|] == a;
  }

  lemma JoinMore(a: seq<byte>, b: seq<byte>, c: seq<byte>, d: seq<byte>)
    ensures (a + b) + c + d == a + (b + c + d)
  {
  }

  /** The device once the host has some more packets for it. */
  function WithPackets(s: Scsi, packets: seq<seq<byte>>): Scsi {
    s.(link := Link(s.link.bot, s.link.wire.(incoming := s.link.wire.incoming + packets)))
  }

  lemma {:induction false} PacketsKeep(s: Scsi, packets: seq<seq<byte>>)
    requires Inv(s) && AllReads(packets)
    ensures Inv(WithPackets(s, packets))
  {
    if |packets| == 0 {
      assert s.link.wire.incoming + packets == s.link.wire.incoming;
      assert WithPackets(s, packets) == s;
    } else {
      var front, last := packets[..|packets| - 1], packets[|packets| - 1];
      PacketsKeep(s, front);
      SplitLast(s.link.wire.incoming, packets);
      RequestKeeps(WithPackets(s, front), last);
      OnePacketMore(s, front, last, packets);
    }
  }

  lemma OnePacketMore(s: Scsi, front: seq<seq<byte>>, last: seq<byte>, packets: seq<seq<byte>>)
    requires s.link.wire.incoming + packets == (s.link.wire.incoming + front) + [last]
    ensures WithPackets(s, packets) == WithPackets(WithPackets(s, front), [last])
  {
  }

  /** A later state of the same device with the same packets. */
  ghost predicate Continues(s: Scsi, s': Scsi) {
    && Inv(s') && s'.disk == s.disk
    && s'.link.wire.taken + s'.link.wire.incoming == s.link.wire.taken + s.link.wire.incoming
  }

  lemma UpdateContinues(s: Scsi)
    requires Inv(s)
    ensures Continues(s, s.Update())
  {
    UpdateKeeps(s);
  }

  lemma {:induction false} PollsKeep(s: Scsi, n: nat)
    requires Inv(s)
    ensures Continues(s, Polls(s, n))
    decreases n
  {
    if n > 0 {
      var s1, m := s.Update(), n - 1;
      UpdateContinues(s);
      PollsKeep(s1, m);
      ContinuesOn(s, s1, Polls(s1, m));
      OneMorePoll(s, m);
    }
  }

  lemma ContinuesOn(s: Scsi, s1: Scsi, s2: Scsi)
    requires Continues(s, s1) && Continues(s1, s2)
    ensures Continues(s, s2)
  {
  }

  /** The device has served the requests: it is idle again, has sent what is owed for them after what it had sent
      before, and has read their blocks, each once and in order. */
  ghost predicate Served(before: Scsi, after: Scsi, reqs: seq<Request>)
    requires AllValid(reqs)
  {
    && after.link.bot.state == WaitingForCommand && after.link.wire.incoming == []
    && after.link.wire.Stream() == before.link.wire.Stream() + Owed(before.disk, reqs)
    && after.log == before.log + Asked(reqs)
  }

  /** An idle device that does not block serves any requests, after some number of polls. */
  lemma RequestsAreServed(s: Scsi, reqs: seq<Request>)
    requires Inv(s) && AllAnswered(s) && Unblocked(s.link.wire) && AllValid(reqs)
    ensures exists n: nat :: Served(s, Polls(WithPackets(s, Packets(reqs)), n), reqs)
  {
    var packets := Packets(reqs);
    OwedIsAnswers(s.disk, reqs);
    PacketsKeep(s, packets);
    InvMeans(s);
    AnswersJoin(s.disk, s.link.wire.taken, packets);
    var n := EnoughPolls(s, WithPackets(s, packets), packets);
    ServedIs(s, Polls(WithPackets(s, packets), n), packets, reqs);
  }

  lemma EnoughPolls(s: Scsi, s1: Scsi, packets: seq<seq<byte>>) returns (n: nat)
    requires Inv(s) && AllAnswered(s) && Unblocked(s.link.wire) && AllReads(packets)
    requires s1 == WithPackets(s, packets) && Inv(s1)
    requires AllReads(s.link.wire.taken + packets)
    requires |Answers(s.disk, s.link.wire.taken + packets)| >= |s.link.wire.Stream()|
    ensures Continues(s1, Polls(s1, n)) && AnswersAll(Polls(s1, n), s.disk, s.link.wire.taken + packets)
  {
    assert [] + packets == packets;
    n := PollsEnough(s1, s.link.wire.taken + packets);
    PollsKeep(s1, n);
  }

  lemma PollsEnough(s: Scsi, packets: seq<seq<byte>>) returns (n: nat)
    requires Inv(s) && Unblocked(s.link.wire) && packets == s.link.wire.taken + s.link.wire.incoming
    requires AllReads(packets) && |Answers(s.disk, packets)| >= |s.link.wire.Stream()|
    ensures AnswersAll(Polls(s, n), s.disk, packets)
  {
    EveryCommandIsAnswered(s, |Answers(s.disk, packets)| - |s.link.wire.Stream()|);
    n :| AnswersAll(Polls(s, n), s.disk, packets);
  }

  lemma ServedIs(s: Scsi, after: Scsi, packets: seq<seq<byte>>, reqs: seq<Request>)
    requires Inv(s) && AllAnswered(s) && AllValid(reqs) && packets == Packets(reqs) && AllReads(packets)
    requires AllReads(s.link.wire.taken + packets)
    requires Continues(WithPackets(s, packets), after) && AnswersAll(after, s.disk, s.link.wire.taken + packets)
    requires s.link.wire.Stream() == Answers(s.disk, s.link.wire.taken) && s.log == BlocksRead(s.link.wire.taken)
    requires Answers(s.disk, s.link.wire.taken + packets) == Answers(s.disk, s.link.wire.taken) + Owed(s.disk, reqs)
    requires BlocksRead(s.link.wire.taken + packets) == BlocksRead(s.link.wire.taken) + Asked(reqs)
    ensures Served(s, after, reqs)
  {
    InvMeans(after);
    assert after.link.wire.taken + [] == after.link.wire.taken;
    assert after.link.wire.taken == s.link.wire.taken + ([] + packets);
    assert [] + packets == packets;
  }

  /** A device that was just started is such a device. */
  lemma StartsIdle(maxPacket: nat, ready: nat -> bool, disk: nat -> Block)
    requires CBW_BYTES <= maxPacket <= BUFFER_BYTES && forall t :: ready(t)
    ensures var s := Scsi(Initial(maxPacket, ready), disk, NoCommand, 0, 0, []);
      Inv(s) && AllAnswered(s) && Unblocked(s.link.wire)
  {
    SessionAnswersInOrder(maxPacket, ready, disk, []);
  }

  /** Block `j` of a transfer is where it belongs. */
  lemma {:induction false} BlockInTransfer(disk: nat -> Block, first: nat, n: nat, j: nat)
    requires j < n
    ensures Blocks(disk, first, n)[512 * j..512 * j + 512] == disk(first + j)
  {
    SliceOfJoin(Blocks(disk, first, n - 1), disk(first + n - 1), 512 * j, 512);
    if j < n - 1 {
      BlockInTransfer(disk, first, n - 1, j);
    }
  }
}
