/** A Read of one block over a full-speed endpoint of 64 bytes, poll by poll: although the host receives all it asked
    for, an empty packet is sent before the status wrapper. */
module ZlpExample {
  import opened Bytes
  import opened Wrappers
  import opened TransportSpec
  import opened ScsiSpec

  /** `j` of the block's eight packets have been sent. */
  ghost predicate Midway(s: Scsi, block: Block, j: nat) {
    var b, w := s.link.bot, s.link.wire;
    && s.link.Bounded() && j < 8 && s.command == NoCommand
    && b.state == SendingDataToHost && b.maxPacket == 64 && b.dataDone && (j > 0 ==> b.lastPacketFull)
    && b.residue == 512 - 64 * j && b.pending == block[64 * j..]
    && |w.sent| == j && w.Stream() == block[..64 * j] && forall c :: w.ready(c)
  }

  lemma WriteMidway(s: Scsi, block: Block, j: nat)
    requires Midway(s, block, j) && j < 7
    ensures Midway(s.DoWrite(), block, j + 1)
  {
    assert block[64 * j..][..64] == block[64 * j..64 * j + 64] && block[64 * j..][64..] == block[64 * (j + 1)..];
    assert block[..64 * j] + block[64 * j..64 * j + 64] == block[..64 * (j + 1)];
  }

  /** The last packet leaves nothing of the residue, and an empty packet follows it at once. */
  lemma LastWrite(s: Scsi, block: Block)
    requires Midway(s, block, 7)
    ensures var s' := s.DoWrite();
      && s'.link.bot.state == NeedToSendStatus && s'.link.bot.maxPacket == 64 && s'.link.bot.past.endResidue == 0
      && |s'.link.bot.pending| == CSW_BYTES && s'.link.bot.residue == CSW_BYTES
      && |s'.link.wire.sent| == 9 && s'.link.wire.sent[8] == [] && s'.link.wire.Stream() == block
      && s'.link.wire.ready == s.link.wire.ready
  {
    assert block[64 * 7..][..64] == block[64 * 7..];
    assert block[..64 * 7] + block[64 * 7..] == block;
    var f := s.link.Flush().1;
    assert f.wire.Stream() == block && |f.wire.sent| == 8 && f.bot.residue == 0;
    assert f.wire.Stream() + [] == block;
  }

  lemma PollMidway(s: Scsi, block: Block, j: nat)
    requires Midway(s, block, j) && j < 6
    ensures Midway(s.Update(), block, j + 2)
  {
    var s1 := s.DoWrite();
    WriteMidway(s, block, j);
    WriteMidway(s1, block, j + 1);
    NothingRead(s1);
  }

  /** While data is pending the middle of a poll does nothing. */
  lemma NothingRead(s: Scsi)
    requires s.link.Bounded() && s.link.bot.pending != []
    requires s.link.bot.state == SendingDataToHost || s.link.bot.state == NeedToSendStatus
    ensures s.link.Read() == (Ok, s.link) && !s.Unparseable() && s.ReceiveCommand() == s
  {
  }

  lemma FirstPoll(s: Scsi, p: seq<byte>, first: nat)
    requires s.link.Bounded() && s.link.bot.state == WaitingForCommand && s.link.bot.maxPacket == 64
    requires s.link.bot.pending == [] && s.link.bot.dataI == 0 && s.command == NoCommand
    requires s.link.wire.incoming == [p] && s.link.wire.sent == [] && forall c :: s.link.wire.ready(c)
    requires IsRead(p) && ReadOf(p) == Read(first, 1) && CbwOf(p).length == 512
    ensures Midway(s.Update(), s.disk(first), 1)
  {
    var block := s.disk(first);
    assert s.DoWrite() == s;
    WrapperArrives(s.link, p);
    var s1 := s.(link := s.link.Read().1);
    OneBlock(s1, p, first);
    WriteMidway(s1.ReceiveCommand(), block, 0);
  }

  lemma OneBlock(s: Scsi, p: seq<byte>, first: nat)
    requires s.link.Bounded() && s.link.bot.state == SendingDataToHost && s.link.bot.maxPacket == 64
    requires IsRead(p) && s.link.bot.cbw == CbwOf(p) && ReadOf(p) == Read(first, 1) && s.link.bot.residue == 512
    requires s.link.bot.pending == [] && s.link.bot.dataI == 0 && s.command == NoCommand
    requires s.link.wire.sent == [] && forall c :: s.link.wire.ready(c)
    ensures !s.Unparseable() && Midway(s.ReceiveCommand(), s.disk(first), 0)
  {
    var block := s.disk(first);
    assert [] + block == block && block[64 * 0..] == block && block[..64 * 0] == [];
  }

  /** Eight full packets, an empty one and the status wrapper: the host asked for 512 bytes and has received them, so
      nothing is left of the residue, and still the empty packet is sent. */
  lemma WholeReadSendsEmptyPacket(p: seq<byte>, ready: nat -> bool, disk: nat -> Block)
    requires IsRead(p) && ReadOf(p).count == 1 && CbwOf(p).length == 512 && forall c :: ready(c)
    ensures var s0 := Scsi(Initial(64, ready), disk, NoCommand, 0, 0, []);
      var s := Polls(s0.(link := Act(s0.link, HostSends(p))), 5);
      && s.link.bot.state == WaitingForCommand && s.link.bot.past.endResidue == 0
      && |s.link.wire.sent| == 10 && s.link.wire.sent[8] == [] && |s.link.wire.sent[9]| == CSW_BYTES
      && Concat(s.link.wire.sent[..9]) == disk(ReadOf(p).first)
  {
    var s0 := Scsi(Initial(64, ready), disk, NoCommand, 0, 0, []);
    var a := s0.(link := Act(s0.link, HostSends(p)));
    var first := ReadOf(p).first;
    FirstPoll(a, p, first);
    var b := a.Update();
    PollMidway(b, disk(first), 1);
    PollMidway(b.Update(), disk(first), 3);
    PollMidway(b.Update().Update(), disk(first), 5);
    FivePolls(a);
    LastPoll(b.Update().Update().Update(), disk(first));
  }

  lemma FivePolls(a: Scsi)
    requires a.link.Bounded()
    ensures Polls(a, 5) == a.Update().Update().Update().Update().Update()
  {
    assert Polls(a.Update(), 4) == Polls(a.Update().Update(), 3);
    assert Polls(a.Update().Update().Update(), 2) == Polls(a.Update().Update().Update().Update(), 1);
  }

  lemma LastPoll(s: Scsi, block: Block)
    requires Midway(s, block, 7)
    ensures var s' := s.Update();
      && s'.link.bot.state == WaitingForCommand && s'.link.bot.past.endResidue == 0
      && |s'.link.wire.sent| == 10 && s'.link.wire.sent[8] == [] && |s'.link.wire.sent[9]| == CSW_BYTES
      && Concat(s'.link.wire.sent[..9]) == block
  {
    var s1 := s.DoWrite();
    LastWrite(s, block);
    NothingRead(s1);
    StatusSent(s1);
  }

  lemma StatusSent(s: Scsi)
    requires s.link.Bounded() && s.link.bot.state == NeedToSendStatus && s.link.bot.maxPacket == 64
    requires |s.link.bot.pending| == CSW_BYTES && s.link.bot.residue == CSW_BYTES
    requires forall c :: s.link.wire.ready(c)
    ensures var s' := s.DoWrite();
      && s'.link.bot.state == WaitingForCommand && s'.link.bot.past == s.link.bot.past
      && s'.link.wire.sent == s.link.wire.sent + [s.link.bot.pending]
  {
    assert s.link.bot.pending[..CSW_BYTES] == s.link.bot.pending;
  }

  /** READ(10) of block 0, one block, 512 bytes. */
  const READ_ONE: seq<byte> :=
    [0x55, 0x53, 0x42, 0x43, 1, 0, 0, 0, 0, 2, 0, 0, 0x80, 0, 10] +
    [0x28, 0, 0, 0, 0, 0, 0, 0, 1, 0, 0, 0, 0, 0, 0, 0]

  lemma SuchACommand()
    ensures IsRead(READ_ONE) && ReadOf(READ_ONE) == Read(0, 1) && CbwOf(READ_ONE).length == 512
  {
    assert READ_ONE[15..31] == [0x28, 0, 0, 0, 0, 0, 0, 0, 1, 0, 0, 0, 0, 0, 0, 0];
    var data := READ_ONE[15..31];
    BeZero(data[2..6]);
    assert data[7..9] == [0, 1] && BeVal([0, 1]) == 1 by {
      assert [0, 1][..1] == [0] && [0][..0] == [];
      assert BeVal([0]) == 0;
    }
    LengthWord();
  }

  lemma BeZero(s: seq<byte>)
    requires s == [0, 0, 0, 0]
    ensures BeVal(s) == 0
  {
    assert s[..3] == [0, 0, 0] && s[..3][..2] == [0, 0] && s[..3][..2][..1] == [0] && s[..3][..2][..1][..0] == [];
    assert BeVal([]) == 0;
    assert BeVal(s[..3][..2][..1]) == 0;
    assert BeVal(s[..3][..2]) == 0;
  }

  lemma LengthWord()
    ensures U32(READ_ONE, 8) == 512
  {
    var w := READ_ONE[8..12];
    assert w == [0, 2, 0, 0] && w[1..] == [2, 0, 0] && w[1..][1..] == [0, 0] && w[1..][1..][1..] == [0];
    assert LeVal(w[1..][1..][1..]) == 0;
    assert LeVal(w[1..][1..]) == 0;
    assert LeVal(w[1..]) == 2;
  }
}
