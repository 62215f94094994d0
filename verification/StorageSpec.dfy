/** Where the recorder puts its pages: the search for an erased page behind a cache that may be stale or unreachable,
    and the writer that moves forward through the flash. */
module StorageSpec {
  import opened Bytes

  const U32_MAX: nat := 0xFFFF_FFFF

  datatype Memory = Undefined | PartialUsed(page: nat) | FullUsed

  /** The two words at the start of a page by which an erased page is recognised. */
  datatype Header = Header(thisId: nat, prevId: nat)
  {
    predicate Erased() {
      (if thisId < prevId then thisId else prevId) == U32_MAX
    }
  }

  const BLANK: Header := Header(U32_MAX, U32_MAX)

  function NewHeader(id: nat): Header {
    Header(id, if id == 0 then 0 else id - 1)
  }

  lemma RecordsAreNotErased(id: nat)
    requires id <= U32_MAX
    ensures !NewHeader(id).Erased()
  {
  }

  /** A record names itself and, after the first, its predecessor. */
  lemma RecordsNamePredecessor(id: nat)
    ensures NewHeader(id + 1).prevId == NewHeader(id).thisId == id && NewHeader(0) == Header(0, 0)
  {
  }

  /** Which of the locks a search takes are obtained in time. */
  datatype Locks = Locks(read: bool, size: bool, update: bool)

  /** How writing a page ends: without touching the flash, complete, or cut short. */
  datatype WriteEnd = NotStarted | Complete | Torn(headerWritten: bool)

  /** The first erased page from `start` on. */
  function FirstErased(pages: seq<Header>, start: nat): (r: Option<nat>)
    ensures match r
      case None => forall k | start <= k < |pages| :: !pages[k].Erased()
      case Some(p) => start <= p < |pages| && pages[p].Erased() && forall k | start <= k < p :: !pages[k].Erased()
    decreases |pages| - start
  {
    if start >= |pages| then None else if pages[start].Erased() then Some(start) else FirstErased(pages, start + 1)
  }

  datatype Store = Store(pages: seq<Header>, cache: Memory, next: nat, open: Option<nat>)
  {
    /** The cache answers a search when it can be read and says full, or names a page not before the start. */
    predicate CacheAnswers(start: nat, l: Locks) {
      l.read && (cache.FullUsed? || (cache.PartialUsed? && start <= cache.page))
    }

    /** find_next_empty_page. */
    function Found(start: nat, l: Locks): Option<nat> {
      if CacheAnswers(start, l) then if cache.FullUsed? then None else Some(cache.page)
      else if l.size then FirstErased(pages, start)
      else None
    }

    function AfterFind(start: nat, l: Locks): Store {
      if CacheAnswers(start, l) || !l.update then this
      else match Found(start, l)
        case None => this.(cache := FullUsed)
        case Some(p) => this.(cache := PartialUsed(p))
    }

    /** try_create_new_page; the settings may be locked. */
    function AfterCreate(l: Locks, settings: bool): Store {
      if open.Some? then this
      else match Found(next, l)
        case None => AfterFind(next, l)
        case Some(p) =>
          if settings then AfterFind(next, l).(next := p + 1, open := Some(p)) else AfterFind(next, l).(next := p)
    }

    /** The page a call hands out. */
    function Created(l: Locks, settings: bool): Option<nat> {
      if open.None? && settings then Found(next, l) else None
    }

    function AfterWrite(id: nat, end: WriteEnd): Store {
      match open
      case None => this
      case Some(p) =>
        var done := this.(open := None);
        if p < |pages| && (end.Complete? || (end.Torn? && end.headerWritten))
        then done.(pages := pages[p := NewHeader(id)])
        else done
    }

    // ---- What every step keeps ----

    /** A cached page that the writer has not passed is erased, and so is the page being filled, which it has passed. */
    predicate Inv() {
      && (cache.PartialUsed? && next <= cache.page ==> cache.page < |pages| && pages[cache.page].Erased())
      && (open.Some? ==> open.value < |pages| && open.value < next && pages[open.value].Erased())
    }
  }

  /** What happens to the storage: a search by another task, the writer's two operations, a chip erase, a restart. */
  datatype Event = Search(start: nat, locks: Locks)
                 | Create(locks: Locks, settings: bool)
                 | Write(id: nat, end: WriteEnd)
                 | EraseChip
                 | Restart

  function Step(s: Store, e: Event): Store {
    match e
    case Search(start, locks) => s.AfterFind(start, locks)
    case Create(locks, settings) => s.AfterCreate(locks, settings)
    case Write(id, end) => s.AfterWrite(id, end)
    case EraseChip => s.(pages := seq(|s.pages|, _ => BLANK))
    case Restart => s.(cache := Undefined, next := 0, open := None)
  }

  function Run(s: Store, events: seq<Event>): Store {
    if |events| == 0 then s else Step(Run(s, events[..|events| - 1]), events[|events| - 1])
  }

  /** The page a step programs, if it programs any. */
  function Programmed(s: Store, e: Event): Option<nat> {
    match e
    case Write(_, end) => if end.NotStarted? then None else s.open
    case _ => None
  }

  function Allocated(s: Store, e: Event): Option<nat> {
    match e
    case Create(locks, settings) => s.Created(locks, settings)
    case _ => None
  }

  lemma FindKeeps(s: Store, start: nat, l: Locks)
    requires s.Inv()
    ensures s.AfterFind(start, l).Inv()
    ensures s.Found(start, l).Some? && start >= s.next ==>
      var p := s.Found(start, l).value; start <= p < |s.pages| && s.pages[p].Erased()
  {
  }

  lemma StepKeeps(s: Store, e: Event)
    requires s.Inv()
    ensures Step(s, e).Inv() && |Step(s, e).pages| == |s.pages|
  {
    match e
    case Search(start, locks) => FindKeeps(s, start, locks);
    case Create(locks, settings) => FindKeeps(s, s.next, locks);
    case Write(id, end) =>
    case EraseChip =>
    case Restart =>
  }

  /** Over every run, with stale or unreachable caches, cut-short writes, erases and restarts: a page that is programmed
      is an erased one. */
  lemma {:induction false} NeverOverwrites(s: Store, events: seq<Event>, e: Event)
    requires s.Inv()
    ensures Run(s, events).Inv()
    ensures match Programmed(Run(s, events), e)
      case None => true
      case Some(p) => p < |Run(s, events).pages| && Run(s, events).pages[p].Erased()
  {
    if |events| > 0 {
      NeverOverwrites(s, events[..|events| - 1], e);
      StepKeeps(Run(s, events[..|events| - 1]), events[|events| - 1]);
    }
  }

  /** The pages handed out during a run without a restart. */
  function Allocations(s: Store, events: seq<Event>): seq<nat> {
    if |events| == 0 then []
    else
      var before := events[..|events| - 1];
      match Allocated(Run(s, before), events[|events| - 1])
      case None => Allocations(s, before)
      case Some(p) => Allocations(s, before) + [p]
  }

  lemma AllocationMovesOn(s: Store, e: Event)
    requires s.Inv() && !e.Restart?
    ensures s.next <= Step(s, e).next
    ensures Allocated(s, e).Some? ==> s.next <= Allocated(s, e).value < Step(s, e).next
  {
    if e.Create? {
      FindKeeps(s, s.next, e.locks);
    }
  }

  predicate Rising(a: seq<nat>, low: nat, high: nat) {
    && (forall i | 0 <= i < |a| :: low <= a[i] < high)
    && (forall i, j | 0 <= i < j < |a| :: a[i] < a[j])
  }

  lemma RisingMore(a: seq<nat>, low: nat, mid: nat, p: nat, high: nat)
    requires Rising(a, low, mid) && low <= mid <= p < high
    ensures Rising(a + [p], low, high)
  {
  }

  /** Between two restarts, each page handed out lies after all those before it. */
  lemma {:induction false} AllocationsIncrease(s: Store, events: seq<Event>)
    requires s.Inv() && forall k | 0 <= k < |events| :: !events[k].Restart?
    ensures s.next <= Run(s, events).next && Rising(Allocations(s, events), s.next, Run(s, events).next)
  {
    if |events| > 0 {
      var before := events[..|events| - 1];
      var r, e := Run(s, before), events[|events| - 1];
      AllocationsIncrease(s, before);
      NeverOverwrites(s, before, EraseChip);
      AllocationMovesOn(r, e);
      if Allocated(r, e).Some? {
        RisingMore(Allocations(s, before), s.next, r.next, Allocated(r, e).value, Step(r, e).next);
      }
    }
  }

  // ---- When the search is exact ----

  /** Nothing that can mislead the cache happened: no search failed to learn the flash size, nobody erased the chip, and
      other tasks searched from the beginning. */
  predicate Calm(e: Event) {
    match e
    case Search(start, locks) => start == 0 && locks.size
    case Create(locks, _) => locks.size
    case EraseChip => false
    case _ => true
  }

  /** The cached page is the first erased one, as seen from the writer's position. */
  ghost predicate Exact(s: Store) {
    match s.cache
    case Undefined => true
    case FullUsed => forall k | s.next <= k < |s.pages| :: !s.pages[k].Erased()
    case PartialUsed(q) => forall k | s.next <= k < q && k < |s.pages| :: !s.pages[k].Erased()
  }

  lemma CalmKeepsExact(s: Store, e: Event)
    requires s.Inv() && Exact(s) && Calm(e) && (e.Write? ==> e.id <= U32_MAX)
    ensures Exact(Step(s, e))
  {
    match e
    case Search(start, locks) => FindKeeps(s, start, locks);
    case Create(locks, settings) => FindKeeps(s, s.next, locks);
    case Write(id, end) => RecordsAreNotErased(id);
    case Restart =>
  }

  /** In a calm run the writer is given the first erased page from its position on, and is told that the memory is full
      exactly when there is none. */
  lemma {:induction false} CalmSearchIsExact(s: Store, events: seq<Event>, l: Locks)
    requires s.Inv() && Exact(s) && l.size
    requires forall k | 0 <= k < |events| :: Calm(events[k]) && (events[k].Write? ==> events[k].id <= U32_MAX)
    ensures var r := Run(s, events);
      Exact(r) && r.Found(r.next, l) == FirstErased(r.pages, r.next)
  {
    NeverOverwrites(s, events, Restart);
    if |events| > 0 {
      var before := events[..|events| - 1];
      CalmSearchIsExact(s, before, l);
      NeverOverwrites(s, before, Restart);
      CalmKeepsExact(Run(s, before), events[|events| - 1]);
    }
    FoundIsExactIff(Run(s, events), l);
  }

  /** The writer is given the first erased page from its position on if and only if the cache, when it answers, is
      exact, and otherwise the flash size is learnt or nothing is erased. */
  lemma FoundIsExactIff(s: Store, l: Locks)
    requires s.Inv()
    ensures s.Found(s.next, l) == FirstErased(s.pages, s.next) <==>
      if s.CacheAnswers(s.next, l) then Exact(s) else l.size || FirstErased(s.pages, s.next) == None
  {
  }

  // ---- What makes the cache inexact ----

  /** The search looks at the pages and its answer is remembered. */
  predicate Rescans(s: Store, start: nat, l: Locks) {
    !s.CacheAnswers(start, l) && l.update
  }

  /** What a rescan remembers is exact: it does not pass over the first page erased from the writer's position on. */
  predicate PassesNone(s: Store, start: nat, l: Locks) {
    match FirstErased(s.pages, s.next)
    case None => true
    case Some(k) => start <= k && l.size
  }

  /** Whatever the cache was, it is exact after a rescan if and only if the rescan passes nothing over; a search that
      remembers nothing leaves it as it was. */
  lemma SearchExactIff(s: Store, start: nat, l: Locks)
    requires s.Inv()
    ensures Exact(s.AfterFind(start, l)) <==> if Rescans(s, start, l) then PassesNone(s, start, l) else Exact(s)
  {
    var first := FirstErased(s.pages, s.next);
    if Rescans(s, start, l) && !PassesNone(s, start, l) {
      assert s.next <= first.value < |s.pages| && s.pages[first.value].Erased();
    }
  }

  /** The events after which an exact cache is exact no more: a rescan that passes over an erased page, and a chip erase
      behind a cache that says full or names a page ahead of the writer. */
  predicate Breaks(s: Store, e: Event) {
    match e
    case Search(start, l) => Rescans(s, start, l) && !PassesNone(s, start, l)
    case Create(l, _) => s.open.None? && Rescans(s, s.next, l) && !PassesNone(s, s.next, l)
    case EraseChip =>
      && s.next < |s.pages|
      && match s.cache {
           case Undefined => false
           case FullUsed => true
           case PartialUsed(q) => s.next < q
         }
    case _ => false
  }

  predicate HasId(e: Event) {
    e.Write? ==> e.id <= U32_MAX
  }

  lemma BreaksIff(s: Store, e: Event)
    requires s.Inv() && Exact(s) && HasId(e)
    ensures Exact(Step(s, e)) <==> !Breaks(s, e)
  {
    match e
    case Search(start, l) => SearchExactIff(s, start, l);
    case Create(l, settings) =>
      SearchExactIff(s, s.next, l);
      FindKeeps(s, s.next, l);
    case Write(id, end) => RecordsAreNotErased(id);
    case EraseChip => EraseBreaks(s);
    case Restart =>
  }

  lemma EraseBreaks(s: Store)
    requires s.Inv() && Exact(s)
    ensures Exact(Step(s, EraseChip)) <==> !Breaks(s, EraseChip)
  {
    if s.next < |s.pages| {
      assert Step(s, EraseChip).pages[s.next].Erased();
    }
  }

  /** The cache is exact at the start and after every event. */
  ghost predicate ExactThroughout(s: Store, events: seq<Event>) {
    Exact(Run(s, events)) && (|events| > 0 ==> ExactThroughout(s, events[..|events| - 1]))
  }

  predicate NothingBreaks(s: Store, events: seq<Event>) {
    |events| > 0 ==>
      var before := events[..|events| - 1];
      NothingBreaks(s, before) && !Breaks(Run(s, before), events[|events| - 1])
  }

  /** Over every run the cache stays exact if and only if none of the breaking events happens. */
  lemma {:induction false} ExactThroughoutIff(s: Store, events: seq<Event>)
    requires s.Inv() && Exact(s) && forall k | 0 <= k < |events| :: HasId(events[k])
    ensures ExactThroughout(s, events) <==> NothingBreaks(s, events)
  {
    if |events| > 0 {
      var before := events[..|events| - 1];
      ExactThroughoutIff(s, before);
      NeverOverwrites(s, before, Restart);
      if ExactThroughout(s, before) {
        BreaksIff(Run(s, before), events[|events| - 1]);
      }
    }
  }

  // ---- Full, or not ----

  /** The events after which a cache that says full says so no more: a restart, and a rescan, which happens only when
      the cache cannot be read, that finds an erased page. */
  predicate Frees(s: Store, e: Event) {
    match e
    case Search(start, l) => !l.read && l.update && l.size && FirstErased(s.pages, start).Some?
    case Create(l, _) => s.open.None? && !l.read && l.update && l.size && FirstErased(s.pages, s.next).Some?
    case Restart => true
    case _ => false
  }

  lemma FullLastsIff(s: Store, e: Event)
    requires s.cache.FullUsed?
    ensures Step(s, e).cache.FullUsed? <==> !Frees(s, e)
  {
  }

  /** As long as none of those happens, every search that can read the cache is told that there is no erased page,
      whatever the flash holds. */
  lemma {:induction false} FullLasts(s: Store, events: seq<Event>, start: nat, l: Locks)
    requires s.cache.FullUsed? && l.read
    requires forall n | 0 <= n < |events| :: !Frees(Run(s, events[..n]), events[n])
    ensures Run(s, events).cache.FullUsed? && Run(s, events).Found(start, l) == None
  {
    if |events| > 0 {
      var before := events[..|events| - 1];
      forall n | 0 <= n < |before| ensures !Frees(Run(s, before[..n]), before[n]) {
        assert before[..n] == events[..n];
      }
      FullLasts(s, before, start, l);
      FullLastsIff(Run(s, before), events[|events| - 1]);
    }
  }

  /** A rescan that cannot learn the flash size finds no page at all and says full. */
  lemma SizeUnknownLooksFull(s: Store, start: nat, l: Locks)
    requires Rescans(s, start, l) && !l.size
    ensures s.AfterFind(start, l).cache == FullUsed
    ensures Exact(s.AfterFind(start, l)) <==> FirstErased(s.pages, s.next) == None
  {
    var after, first := s.AfterFind(start, l), FirstErased(s.pages, s.next);
    assert after.pages == s.pages && after.next == s.next;
    if first.Some? {
      assert after.pages[first.value].Erased();
    }
  }

  const ALL: Locks := Locks(true, true, true)

  lemma RunAppend(s: Store, events: seq<Event>, e: Event)
    ensures Run(s, events + [e]) == Step(Run(s, events), e)
  {
    assert (events + [e])[..|events|] == events;
  }

  /** Two blank pages. The search at startup remembers page 0, which the writer then fills; the next search finds the
      cache stale, and if the driver is busy just then, page 1 is not given out, then or later. */
  lemma StaleCacheLooksFull()
    ensures var s := Store([BLANK, BLANK], Undefined, 0, None);
      var filled := [Search(0, ALL), Create(ALL, true), Write(0, Complete)];
      var r := Run(s, filled + [Create(Locks(true, false, true), true)]);
      && s.Inv() && Run(s, filled).cache == PartialUsed(0) && Run(s, filled).next == 1
      && FirstErased(r.pages, r.next) == Some(1) && r.Found(r.next, ALL) == None
  {
    var s := Store([BLANK, BLANK], Undefined, 0, None);
    var found := Store([BLANK, BLANK], PartialUsed(0), 0, None);
    var filling := Store([BLANK, BLANK], PartialUsed(0), 1, Some(0));
    var written := Store([NewHeader(0), BLANK], PartialUsed(0), 1, None);
    var filled := [Search(0, ALL), Create(ALL, true), Write(0, Complete)];
    assert Run(s, []) == s;
    RunAppend(s, [], Search(0, ALL));
    assert [] + [Search(0, ALL)] == [Search(0, ALL)];
    assert Run(s, [Search(0, ALL)]) == found;
    RunAppend(s, [Search(0, ALL)], Create(ALL, true));
    assert [Search(0, ALL)] + [Create(ALL, true)] == [Search(0, ALL), Create(ALL, true)];
    assert Run(s, [Search(0, ALL), Create(ALL, true)]) == filling;
    RunAppend(s, [Search(0, ALL), Create(ALL, true)], Write(0, Complete));
    assert [Search(0, ALL), Create(ALL, true)] + [Write(0, Complete)] == filled;
    assert Run(s, filled) == written;
    RunAppend(s, filled, Create(Locks(true, false, true), true));
  }

  /** One page with a record. The search at startup remembers that the memory is full, and erasing the chip does not
      change what is remembered. */
  lemma EraseLooksFull()
    ensures var s := Store([NewHeader(0)], Undefined, 0, None);
      var r := Run(s, [Search(0, ALL), EraseChip]);
      s.Inv() && FirstErased(r.pages, 0) == Some(0) && r.Found(0, ALL) == None
  {
    var s := Store([NewHeader(0)], Undefined, 0, None);
    var full := Store([NewHeader(0)], FullUsed, 0, None);
    assert Run(s, []) == s;
    RunAppend(s, [], Search(0, ALL));
    assert [] + [Search(0, ALL)] == [Search(0, ALL)];
    assert FirstErased(s.pages, 0) == None;
    assert Run(s, [Search(0, ALL)]) == full;
    RunAppend(s, [Search(0, ALL)], EraseChip);
    assert [Search(0, ALL)] + [EraseChip] == [Search(0, ALL), EraseChip];
  }
}
