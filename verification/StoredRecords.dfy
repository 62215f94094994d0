/** What the recorder's pages hold: the allocator runs on headers that are read from the same bytes that the page writes
    program. */
module StoredRecords {
  import opened Bytes
  import opened StorageSpec
  import Flash
  import Qspi

  const PAGE: nat := 4096

  type Content = s: seq<byte> | |s| == PAGE witness seq(PAGE, _ => 0)

  /** Where a record has the two words of its header, which is in its first 256 bytes. */
  datatype Layout = Layout(thisAt: nat, prevAt: nat)
  {
    predicate Valid() {
      thisAt + 4 <= 256 && prevAt + 4 <= 256
    }

    predicate Within(n: nat) {
      thisAt + 4 <= n && prevAt + 4 <= n
    }

    function HeaderOf(s: seq<byte>): Header
      requires Within(|s|)
    {
      Header(U32(s, thisAt), U32(s, prevAt))
    }

    function Headers(contents: seq<Content>): (r: seq<Header>)
      requires Valid()
      ensures |r| == |contents|
    {
      seq(|contents|, p requires 0 <= p < |contents| => HeaderOf(contents[p]))
    }
  }

  /** An event, and for a write the bytes of the record and how many of them the driver programmed, which begins with a
      piece of 256 bytes. */
  datatype Action = Action(event: Event, data: seq<byte>, written: nat)
  {
    predicate Valid(l: Layout) {
      && |data| <= PAGE && written <= |data|
      && match event
         case Write(id, end) =>
           && id <= U32_MAX && l.Within(|data|) && l.HeaderOf(data) == NewHeader(id)
           && Qspi.FirstPieceWhole(|data|, written)
           && (end.NotStarted? ==> written == 0) && (end.Complete? ==> written == |data|)
           && (end.Torn? ==> (end.headerWritten <==> written > 0))
         case _ => written == 0
    }
  }

  /** The chip's pages and the allocator's own state. */
  datatype Recorded = Recorded(contents: seq<Content>, cache: Memory, next: nat, open: Option<nat>)
  {
    /** The allocator's view: what it reads of a page is the header that the page's bytes spell. */
    function View(l: Layout): Store
      requires l.Valid()
    {
      Store(l.Headers(contents), cache, next, open)
    }

    /** A page whose header looks erased is erased. */
    ghost predicate Sound(l: Layout)
      requires l.Valid()
    {
      View(l).Inv() && forall p | 0 <= p < |contents| :: PageSound(l, p)
    }

    predicate PageSound(l: Layout, p: nat)
      requires l.Valid() && p < |contents|
    {
      l.HeaderOf(contents[p]).Erased() ==> contents[p] == Flash.Blank(PAGE)
    }
  }

  /** A step of the allocator on what it reads, and of the chip on what is programmed. */
  function Act(l: Layout, c: Recorded, a: Action): Recorded
    requires l.Valid()
  {
    var s := Step(c.View(l), a.event);
    Recorded(ContentsAfter(l, c, a), s.cache, s.next, s.open)
  }

  function ContentsAfter(l: Layout, c: Recorded, a: Action): seq<Content>
    requires l.Valid()
  {
    if a.event.EraseChip? then seq(|c.contents|, _ => Flash.Blank(PAGE))
    else match Programmed(c.View(l), a.event)
      case None => c.contents
      case Some(p) =>
        if p < |c.contents| && a.written <= |a.data|
        then c.contents[p := Qspi.AndAt(c.contents[p], 0, a.data[..a.written])] else c.contents
  }

  function RunAll(l: Layout, c: Recorded, actions: seq<Action>): Recorded
    requires l.Valid()
  {
    if |actions| == 0 then c else Act(l, RunAll(l, c, actions[..|actions| - 1]), actions[|actions| - 1])
  }

  function Events(actions: seq<Action>): (r: seq<Event>)
    ensures |r| == |actions|
  {
    seq(|actions|, k requires 0 <= k < |actions| => actions[k].event)
  }

  // ---- Headers in bytes ----

  lemma BlankHeader(l: Layout)
    requires l.Valid()
    ensures l.HeaderOf(Flash.Blank(PAGE)) == BLANK
  {
    BlankWord(l.thisAt);
    BlankWord(l.prevAt);
  }

  lemma BlankWord(at: nat)
    requires at + 4 <= PAGE
    ensures U32(Flash.Blank(PAGE), at) == U32_MAX
  {
    var w := Flash.Blank(PAGE)[at..at + 4];
    assert w == [255, 255, 255, 255] && w[1..] == [255, 255, 255] && w[1..][1..] == [255, 255];
    assert LeVal(w[1..][1..][1..]) == 255;
    assert LeVal(w[1..][1..]) == 0xFFFF;
    assert LeVal(w[1..]) == 0xFF_FFFF;
  }

  /** What a write leaves on a blank page. */
  function Stored(a: Action): Content
    requires a.written <= |a.data| <= PAGE
  {
    a.data[..a.written] + Flash.Blank(PAGE - a.written)
  }

  lemma StoredHeader(l: Layout, a: Action)
    requires l.Valid() && a.Valid(l) && a.event.Write?
    ensures l.HeaderOf(Stored(a)) == if a.written > 0 then NewHeader(a.event.id) else BLANK
    ensures a.written == 0 ==> Stored(a) == Flash.Blank(PAGE)
  {
    if a.written == 0 {
      assert Stored(a) == Flash.Blank(PAGE);
      BlankHeader(l);
    } else {
      assert Stored(a)[l.thisAt..l.thisAt + 4] == a.data[l.thisAt..l.thisAt + 4];
      assert Stored(a)[l.prevAt..l.prevAt + 4] == a.data[l.prevAt..l.prevAt + 4];
    }
  }

  lemma OverBlank(content: Content, data: seq<byte>)
    requires content == Flash.Blank(PAGE) && |data| <= PAGE
    ensures Qspi.AndAt(content, 0, data) == data + Flash.Blank(PAGE - |data|)
  {
    assert content[0..|data|] == Flash.Blank(|data|);
    Qspi.AndAtErased(content, 0, data);
  }

  // ---- Every run ----

  lemma WriteLands(l: Layout, c: Recorded, a: Action, p: nat)
    requires l.Valid() && c.Sound(l) && a.Valid(l) && Programmed(c.View(l), a.event) == Some(p)
    ensures p < |c.contents| && ContentsAfter(l, c, a) == c.contents[p := Stored(a)]
  {
    assert c.PageSound(l, p);
    OverBlank(c.contents[p], a.data[..a.written]);
  }

  /** What the allocator reads after a step is what the step says of its headers. */
  lemma ActRefines(l: Layout, c: Recorded, a: Action)
    requires l.Valid() && c.Sound(l) && a.Valid(l)
    ensures Act(l, c, a).View(l) == Step(c.View(l), a.event)
  {
    var after, want := l.Headers(ContentsAfter(l, c, a)), Step(c.View(l), a.event).pages;
    match Programmed(c.View(l), a.event)
    case Some(p) =>
      WriteLands(l, c, a, p);
      StoredHeader(l, a);
      WriteHeaders(l, c.contents, p, Stored(a));
      SameHeader(l, c, a, p);
    case None =>
      if a.event.EraseChip? {
        BlankHeader(l);
      }
    assert after == want;
  }

  lemma WriteHeaders(l: Layout, contents: seq<Content>, p: nat, page: Content)
    requires l.Valid() && p < |contents|
    ensures l.Headers(contents[p := page]) == l.Headers(contents)[p := l.HeaderOf(page)]
  {
  }

  /** The header the step writes is the one the stored bytes spell; a write that programs nothing leaves a blank page
      blank. */
  lemma SameHeader(l: Layout, c: Recorded, a: Action, p: nat)
    requires l.Valid() && c.Sound(l) && a.Valid(l) && Programmed(c.View(l), a.event) == Some(p) && p < |c.contents|
    requires l.HeaderOf(Stored(a)) == if a.written > 0 then NewHeader(a.event.id) else BLANK
    ensures Step(c.View(l), a.event).pages == l.Headers(c.contents)[p := l.HeaderOf(Stored(a))]
  {
    var pages := l.Headers(c.contents);
    assert c.PageSound(l, p);
    BlankHeader(l);
    if a.written == 0 {
      assert pages[p] == BLANK && pages[p := BLANK] == pages;
    }
  }

  lemma ActSound(l: Layout, c: Recorded, a: Action)
    requires l.Valid() && c.Sound(l) && a.Valid(l)
    ensures Act(l, c, a).Sound(l)
  {
    ActRefines(l, c, a);
    StepKeeps(c.View(l), a.event);
    forall p | 0 <= p < |c.contents| ensures Act(l, c, a).PageSound(l, p) {
      PageStaysSound(l, c, a, p);
    }
  }

  lemma PageStaysSound(l: Layout, c: Recorded, a: Action, p: nat)
    requires l.Valid() && c.Sound(l) && a.Valid(l) && p < |c.contents|
    ensures Act(l, c, a).PageSound(l, p)
  {
    assert c.PageSound(l, p);
    match Programmed(c.View(l), a.event)
    case Some(q) =>
      WriteLands(l, c, a, q);
      StoredHeader(l, a);
      RecordsAreNotErased(a.event.id);
    case None =>
  }

  /** Over every run the allocator that reads what was programmed is the allocator of the events alone, and a page whose
      header looks erased is blank. */
  lemma {:induction false} RunRefines(l: Layout, c: Recorded, actions: seq<Action>)
    requires l.Valid() && c.Sound(l) && forall k | 0 <= k < |actions| :: actions[k].Valid(l)
    ensures RunAll(l, c, actions).Sound(l)
    ensures RunAll(l, c, actions).View(l) == Run(c.View(l), Events(actions))
  {
    if |actions| > 0 {
      var before := actions[..|actions| - 1];
      RunRefines(l, c, before);
      ActRefines(l, RunAll(l, c, before), actions[|actions| - 1]);
      ActSound(l, RunAll(l, c, before), actions[|actions| - 1]);
      assert Events(actions)[..|actions| - 1] == Events(before);
    }
  }

  /** Over every run a record lands intact: the page it is programmed to holds what was written of it and is blank after
      that, and no other page changes. */
  lemma RecordsLandIntact(l: Layout, c: Recorded, actions: seq<Action>, a: Action)
    requires l.Valid() && c.Sound(l) && a.Valid(l) && forall k | 0 <= k < |actions| :: actions[k].Valid(l)
    ensures var r := RunAll(l, c, actions);
      match Programmed(r.View(l), a.event)
      case None => a.event.EraseChip? || Act(l, r, a).contents == r.contents
      case Some(p) => p < |r.contents| && Act(l, r, a).contents == r.contents[p := Stored(a)]
  {
    var r := RunAll(l, c, actions);
    RunRefines(l, c, actions);
    match Programmed(r.View(l), a.event)
    case None =>
    case Some(p) => WriteLands(l, r, a, p);
  }
}
