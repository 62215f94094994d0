/** When the recorder heats its two sensor channels and stores their readings: the loop that sleeps until the next
    event, a simulation that looks at every millisecond, and the timetable both follow. */
module RecorderSpec {
  import opened Bytes

  const TICK_MAX: nat := 0xFFFF_FFFF

  datatype Mode = HeatMeasureStop | MeasureOnly
  datatype ChState = Ready | Heating | Sleeping
  datatype Event = Preheat | Measure | MeasureAndSleep
  datatype Channel = Pressure | Temperature

  function Other(ch: Channel): Channel {
    if ch.Pressure? then Temperature else Pressure
  }

  /** A channel's position between two writes. */
  datatype Counter = Counter(period: nat, preheat: nat, counter: nat, mode: Mode, state: ChState, enabled: bool)
  {
    predicate Valid() {
      1 <= period <= TICK_MAX && mode == if preheat < period then HeatMeasureStop else MeasureOnly
    }

    function ToWrite(): (r: nat)
      requires Valid()
      ensures r < period
    {
      var odd := counter % period;
      if odd == 0 then odd else period - odd
    }

    function ToNextEvent(): nat
      requires Valid()
    {
      if !enabled then TICK_MAX
      else if mode == HeatMeasureStop && state == Sleeping && ToWrite() >= preheat then ToWrite() - preheat
      else ToWrite()
    }

    function IsEvent(): Option<Event>
      requires Valid()
    {
      if !enabled then None
      else match mode
        case HeatMeasureStop =>
          if state == Sleeping && ToWrite() == preheat then Some(Preheat)
          else if ToWrite() == 0 then Some(MeasureAndSleep) else None
        case MeasureOnly => if ToWrite() == 0 then Some(Measure) else None
    }

    function Ticked(ms: nat): Counter {
      this.(counter := counter + ms)
    }
  }

  function ChannelHeated(period: nat, preheat: nat, enabled: bool): Counter {
    Counter(period, preheat, 0, if preheat < period then HeatMeasureStop else MeasureOnly, Ready, enabled)
  }

  lemma ToWriteTicks(w: Counter)
    requires w.Valid()
    ensures w.Ticked(1).ToWrite() == if w.ToWrite() > 0 then w.ToWrite() - 1 else w.period - 1
  {
    NextRemainder(w.counter, w.period);
  }

  lemma NextRemainder(c: nat, d: nat)
    requires d > 0
    ensures (c + 1) % d == if c % d + 1 < d then c % d + 1 else 0
  {
    var q, r := c / d, c % d;
    assert c == d * q + r;
    if r + 1 < d {
      DivModUnique(c + 1, d, q, r + 1);
    } else {
      assert d * (q + 1) == d * q + d;
      DivModUnique(c + 1, d, q + 1, 0);
    }
  }

  /** A channel with time left before its next event has no event now and one millisecond less next time. */
  lemma QuietTick(w: Counter)
    requires w.Valid() && w.enabled && w.ToNextEvent() > 0
    ensures w.IsEvent() == None && w.Ticked(1).ToNextEvent() == w.ToNextEvent() - 1
  {
    ToWriteTicks(w);
  }

  lemma DueNow(w: Counter)
    requires w.Valid() && w.enabled && w.ToNextEvent() == 0
    ensures w.IsEvent().Some?
  {
  }

  // ---- The loop ----

  datatype What = Start(ch: Channel) | Push(ch: Channel) | Stop(ch: Channel)

  /** A command or a stored value, at a time counted from the start of the page. */
  datatype Action = At(time: nat, what: What)

  /** What the loop does not decide: which push fills the page, and how many ticks a pass with events takes. */
  datatype World = World(fills: nat -> bool, cost: nat -> nat)
  {
    /** A pass takes at least one tick. */
    function PassTime(k: nat): (ms: nat)
      ensures ms >= 1
    {
      if cost(k) > 1 then cost(k) else 1
    }
  }

  /** The state of the loop. The counters are 32-bit words: a run that would take them past the largest one stops there,
      and nothing is said of what follows. */
  datatype Rec = Rec(p: Counter, t: Counter, pushes: nat, passes: nat, log: seq<Action>, full: bool, overflowed: bool)
  {
    predicate Valid() {
      p.Valid() && t.Valid() && p.counter == t.counter <= TICK_MAX && (p.enabled || t.enabled)
    }

    function Get(ch: Channel): Counter {
      if ch.Pressure? then p else t
    }

    function Accept(ch: Channel, state: ChState): Rec {
      if ch.Pressure? then this.(p := p.(state := state)) else this.(t := t.(state := state))
    }

    function Log(what: What): Rec {
      this.(log := log + [At(p.counter, what)])
    }

    function Pushed(ch: Channel): Rec {
      Log(Push(ch)).(pushes := pushes + 1)
    }

    function Ticked(ms: nat): Rec {
      if p.counter + ms <= TICK_MAX then this.(p := p.Ticked(ms), t := t.Ticked(ms))
      else this.(p := p.(counter := 0), t := t.(counter := 0), overflowed := true)
    }

    predicate Over() {
      full || overflowed
    }

    /** process_sensor_event: the flag says that the page is full. */
    function Process(ch: Channel, w: World): (r: (Rec, bool))
      requires Valid()
      ensures r.0.Valid()
    {
      match Get(ch).IsEvent()
      case None => (this, false)
      case Some(Preheat) => (Log(Start(ch)).Accept(ch, Heating), false)
      case Some(Measure) => if w.fills(pushes) then (Pushed(ch), true) else (Pushed(ch).Accept(ch, Ready), false)
      case Some(MeasureAndSleep) =>
        if w.fills(pushes) then (Pushed(ch).Accept(ch, Ready), true)
        else (Pushed(ch).Log(Stop(ch)).Accept(ch, Sleeping), false)
    }

    /** The page is full: the other channel is switched on and the page ends. */
    function Finish(other: Channel): Rec {
      (if Get(other).enabled then Log(Start(other)) else this).(full := true)
    }

    /** What a pass does once it is awake: pressure, then temperature, then the time it took, at least one tick. */
    function Pass(w: World): (r: Rec)
      requires Valid()
      ensures r.Valid()
    {
      var (s, filled) := Process(Pressure, w);
      if filled then s.Finish(Temperature) else s.PassRest(w)
    }

    function PassRest(w: World): (r: Rec)
      requires Valid()
      ensures r.Valid()
    {
      var (s, filled) := Process(Temperature, w);
      if filled then s.Finish(Pressure)
      else s.(passes := s.passes + 1).Ticked(w.PassTime(s.passes))
    }

    /** The same without the time it takes. */
    function Looked(w: World): (r: Rec)
      requires Valid()
      ensures r.Valid()
    {
      var (s, filled) := Process(Pressure, w);
      if filled then s.Finish(Temperature) else s.LookedRest(w)
    }

    function LookedRest(w: World): (r: Rec)
      requires Valid()
      ensures r.Valid()
    {
      var (s, filled) := Process(Temperature, w);
      if filled then s.Finish(Pressure) else s.(passes := s.passes + 1)
    }

    function ToNextEvent(): nat
      requires Valid()
    {
      if p.ToNextEvent() <= t.ToNextEvent() then p.ToNextEvent() else t.ToNextEvent()
    }

    /** One pass of the loop. */
    function JumpPass(w: World): (r: Rec)
      requires Valid()
      ensures r.Valid()
    {
      if Over() then this else Ticked(ToNextEvent()).Awake(w)
    }

    /** The pass after the sleep. */
    function Awake(w: World): (r: Rec)
      requires Valid()
      ensures r.Valid()
    {
      if overflowed then this else Pass(w)
    }

    function HasEvent(): bool
      requires Valid()
    {
      p.IsEvent().Some? || t.IsEvent().Some?
    }
  }

  /** The simulation, which goes through every millisecond: either the loop is busy with a pass for some milliseconds
      more, and does not look, or it looks, and where there is an event a pass begins. */
  datatype Sim = Sim(rec: Rec, busy: nat)
  {
    function Millisecond(w: World): (r: Sim)
      requires rec.Valid()
      ensures r.rec.Valid()
    {
      if rec.Over() then this
      else if busy > 0 then Sim(rec, busy - 1).Later()
      else if !rec.HasEvent() then Later()
      else
        var s := rec.Looked(w);
        if s.full then Sim(s, 0) else Sim(s, w.PassTime(rec.passes) - 1).Later()
    }

    function Later(): Sim {
      var s := rec.Ticked(1);
      Sim(s, if s.overflowed then 0 else busy)
    }
  }

  /** A step taken `n` times. */
  function Iterate<T>(step: T -> T, s: T, n: nat): T
    decreases n
  {
    if n == 0 then s else Iterate(step, step(s), n - 1)
  }

  lemma {:induction false} IterateAdds<T>(step: T -> T, s: T, a: nat, b: nat)
    ensures Iterate(step, s, a + b) == Iterate(step, Iterate(step, s, a), b)
    decreases a
  {
    if a > 0 {
      IterateAdds(step, step(s), a - 1, b);
    }
  }

  lemma FirstIteration<T>(step: T -> T, s: T, n: nat)
    ensures Iterate(step, s, n + 1) == Iterate(step, step(s), n)
  {
  }

  lemma NextIteration<T>(step: T -> T, s: T, n: nat)
    ensures Iterate(step, s, n + 1) == step(Iterate(step, s, n))
  {
    IterateAdds(step, s, n, 1);
    var t := Iterate(step, s, n);
    assert Iterate(step, t, 1) == Iterate(step, step(t), 0);
  }

  /** How many slow steps the first `m` fast ones stand for. */
  function SlowSteps<T>(fast: T -> T, count: T -> nat, s: T, m: nat): nat
    decreases m
  {
    if m == 0 then 0 else count(s) + SlowSteps(fast, count, fast(s), m - 1)
  }

  /** A fast step that is some number of slow ones, seen in a larger state. */
  lemma {:induction false} FastIsSlow<S(!new), T>(slow: T -> T, fast: S -> S, embed: S -> T, count: S -> nat,
                                                  s: S, m: nat)
    requires forall x: S :: embed(fast(x)) == Iterate(slow, embed(x), count(x))
    ensures embed(Iterate(fast, s, m)) == Iterate(slow, embed(s), SlowSteps(fast, count, s, m))
    decreases m
  {
    if m > 0 {
      IterateAdds(slow, embed(s), count(s), SlowSteps(fast, count, fast(s), m - 1));
      FastIsSlow(slow, fast, embed, count, fast(s), m - 1);
    }
  }

  lemma {:induction false} EnoughSteps<T(!new)>(fast: T -> T, count: T -> nat, s: T, m: nat)
    requires forall x: T :: count(x) >= 1
    ensures SlowSteps(fast, count, s, m) >= m
    decreases m
  {
    if m > 0 {
      EnoughSteps(fast, count, fast(s), m - 1);
    }
  }

  function SimStep(w: World): Sim -> Sim {
    (x: Sim) => if x.rec.Valid() then x.Millisecond(w) else x
  }

  function JumpStep(w: World): Rec -> Rec {
    (s: Rec) => if s.Valid() then s.JumpPass(w) else s
  }

  /** How many milliseconds one pass of the loop stands for: its sleep and what it takes. */
  function Milliseconds(w: World): Rec -> nat {
    (s: Rec) => if s.Valid() && !s.Over() then s.ToNextEvent() + w.PassTime(s.passes) else 1
  }

  // ---- The loop is the simulation ----

  lemma QuietMillisecond(s: Rec)
    requires s.Valid() && s.ToNextEvent() > 0
    ensures !s.HasEvent()
    ensures !s.overflowed && !s.Ticked(1).overflowed ==> s.Ticked(1).ToNextEvent() == s.ToNextEvent() - 1
  {
    if s.p.enabled && s.p.ToNextEvent() > 0 { QuietTick(s.p); }
    if s.t.enabled && s.t.ToNextEvent() > 0 { QuietTick(s.t); }
  }

  lemma EventNow(s: Rec)
    requires s.Valid() && s.ToNextEvent() == 0
    ensures s.HasEvent()
  {
    if s.p.ToNextEvent() == 0 { DueNow(s.p); } else { DueNow(s.t); }
  }

  lemma PassIsLooked(s: Rec, w: World)
    requires s.Valid() && !s.Over()
    ensures var r := s.Looked(w);
      !r.overflowed && s.Pass(w) == if r.full then r else r.Ticked(w.PassTime(s.passes))
  {
    var (s1, filled) := s.Process(Pressure, w);
    assert s1.passes == s.passes && !s1.Over();
  }

  lemma {:induction false} OverStays(x: Sim, w: World, n: nat)
    requires x.rec.Over()
    ensures Iterate(SimStep(w), x, n) == x
    decreases n
  {
    if n > 0 {
      OverStays(x, w, n - 1);
    }
  }

  /** Milliseconds in which the loop is busy only pass. */
  lemma {:induction false} BusyTicks(s: Rec, w: World, k: nat)
    requires s.Valid() && !s.Over()
    ensures Iterate(SimStep(w), Sim(s, k), k) == Sim(s.Ticked(k), 0)
    decreases k
  {
    if k > 0 {
      var later := s.Ticked(1);
      FirstIteration(SimStep(w), Sim(s, k), k - 1);
      if later.overflowed {
        OverStays(Sim(later, 0), w, k - 1);
      } else {
        BusyTicks(later, w, k - 1);
        SleepsAdd(s, k);
      }
    }
  }

  lemma DuePass(s: Rec, w: World)
    requires s.Valid() && !s.Over() && s.ToNextEvent() == 0
    ensures Iterate(SimStep(w), Sim(s, 0), w.PassTime(s.passes)) == Sim(s.JumpPass(w), 0)
  {
    var looked, k := s.Looked(w), w.PassTime(s.passes) - 1;
    DueStep(s, w);
    PassIsLooked(s, w);
    FirstIteration(SimStep(w), Sim(s, 0), k);
    if looked.full {
      OverStays(Sim(looked, 0), w, k);
    } else {
      AfterLooking(looked, w, k);
    }
  }

  lemma DueStep(s: Rec, w: World)
    requires s.Valid() && !s.Over() && s.ToNextEvent() == 0
    ensures var looked := s.Looked(w);
      SimStep(w)(Sim(s, 0)) ==
        if looked.full then Sim(looked, 0) else Sim(looked, w.PassTime(s.passes) - 1).Later()
    ensures s.JumpPass(w) == s.Pass(w)
  {
    EventNow(s);
    assert s.Ticked(0) == s;
  }

  lemma AfterLooking(looked: Rec, w: World, k: nat)
    requires looked.Valid() && !looked.Over()
    ensures Iterate(SimStep(w), Sim(looked, k).Later(), k) == Sim(looked.Ticked(k + 1), 0)
  {
    var later := looked.Ticked(1);
    if later.overflowed {
      OverStays(Sim(later, 0), w, k);
    } else {
      BusyTicks(later, w, k);
      SleepsAdd(looked, k + 1);
    }
  }

  /** A pass that sleeps `n` ticks is `n` quiet milliseconds and those of the pass that follows them. */
  lemma {:induction false} PassIsTicks(s: Rec, w: World, n: nat)
    requires s.Valid() && !s.Over() && s.ToNextEvent() == n
    ensures Iterate(SimStep(w), Sim(s, 0), n + w.PassTime(s.passes)) == Sim(s.JumpPass(w), 0)
    decreases n
  {
    if n == 0 {
      DuePass(s, w);
    } else {
      QuietStep(s, w);
      FirstIteration(SimStep(w), Sim(s, 0), n - 1 + w.PassTime(s.passes));
      var later := s.Ticked(1);
      if later.overflowed {
        OverStays(Sim(later, 0), w, n - 1 + w.PassTime(s.passes));
      } else {
        PassIsTicks(later, w, n - 1);
      }
    }
  }

  lemma QuietStep(s: Rec, w: World)
    requires s.Valid() && !s.Over() && s.ToNextEvent() > 0
    ensures SimStep(w)(Sim(s, 0)) == Sim(s.Ticked(1), 0) && s.Ticked(1).Valid()
    ensures if s.Ticked(1).overflowed then s.JumpPass(w) == s.Ticked(1)
      else s.Ticked(1).ToNextEvent() == s.ToNextEvent() - 1 && s.Ticked(1).JumpPass(w) == s.JumpPass(w)
  {
    QuietMillisecond(s);
    if !s.Ticked(1).overflowed {
      SleepLess(s, w, s.ToNextEvent());
    }
  }

  lemma SleepLess(s: Rec, w: World, n: nat)
    requires s.Valid() && !s.Over() && !s.Ticked(1).overflowed
    requires n > 0 && s.ToNextEvent() == n && s.Ticked(1).ToNextEvent() == n - 1
    ensures s.Ticked(1).JumpPass(w) == s.JumpPass(w)
  {
    SleepsAdd(s, n);
  }

  lemma SleepsAdd(s: Rec, n: nat)
    requires s.Valid() && n > 0 && !s.overflowed && !s.Ticked(1).overflowed
    ensures s.Ticked(1).Ticked(n - 1) == s.Ticked(n)
  {
  }

  lemma StepIsTicks(s: Rec, w: World)
    ensures Iterate(SimStep(w), Sim(s, 0), Milliseconds(w)(s)) == Sim(JumpStep(w)(s), 0)
  {
    if s.Valid() && !s.Over() {
      PassIsTicks(s, w, s.ToNextEvent());
    } else {
      FirstIteration(SimStep(w), Sim(s, 0), 0);
      assert SimStep(w)(Sim(s, 0)) == Sim(s, 0) && JumpStep(w)(s) == s;
    }
  }

  /** Whatever passes cost and whichever push fills the page, the loop that sleeps is the simulation of every
      millisecond: `m` passes end in the state, with the log, that the simulation reaches when as many milliseconds have
      passed. */
  lemma JumpsAreTicks(s: Rec, w: World, m: nat)
    ensures Sim(Iterate(JumpStep(w), s, m), 0) ==
      Iterate(SimStep(w), Sim(s, 0), SlowSteps(JumpStep(w), Milliseconds(w), s, m))
  {
    var idle := (x: Rec) => Sim(x, 0);
    forall x: Rec ensures idle(JumpStep(w)(x)) == Iterate(SimStep(w), idle(x), Milliseconds(w)(x)) {
      StepIsTicks(x, w);
    }
    FastIsSlow(SimStep(w), JumpStep(w), idle, Milliseconds(w), s, m);
  }

  predicate IsPrefix(a: seq<Action>, b: seq<Action>) {
    |a| <= |b| && b[..|a|] == a
  }

  lemma ProcessLogs(s: Rec, ch: Channel, w: World)
    requires s.Valid()
    ensures IsPrefix(s.log, s.Process(ch, w).0.log)
  {
  }

  lemma StepLogs(x: Sim, w: World)
    ensures IsPrefix(x.rec.log, SimStep(w)(x).rec.log)
  {
    if x.rec.Valid() {
      ProcessLogs(x.rec, Pressure, w);
      ProcessLogs(x.rec.Process(Pressure, w).0, Temperature, w);
    }
  }

  lemma {:induction false} SimLogs(x: Sim, w: World, n: nat)
    ensures IsPrefix(x.rec.log, Iterate(SimStep(w), x, n).rec.log)
    decreases n
  {
    if n > 0 {
      StepLogs(x, w);
      SimLogs(SimStep(w)(x), w, n - 1);
    }
  }

  /** All that the simulation logs in `n` milliseconds the loop logs, in the same order, in at most `n` passes. */
  lemma NothingMissed(s: Rec, w: World, n: nat)
    ensures IsPrefix(Iterate(SimStep(w), Sim(s, 0), n).rec.log, Iterate(JumpStep(w), s, n).log)
  {
    JumpsAreTicks(s, w, n);
    EnoughSteps(JumpStep(w), Milliseconds(w), s, n);
    LaterLogs(Sim(s, 0), w, n, SlowSteps(JumpStep(w), Milliseconds(w), s, n));
  }

  lemma LaterLogs(x: Sim, w: World, n: nat, m: nat)
    requires n <= m
    ensures IsPrefix(Iterate(SimStep(w), x, n).rec.log, Iterate(SimStep(w), x, m).rec.log)
  {
    assert n + (m - n) == m;
    IterateAdds(SimStep(w), x, n, m - n);
    SimLogs(Iterate(SimStep(w), x, n), w, m - n);
  }

  // ---- The timetable ----

  /** How far apart a channel's stored values are: a period, but twice that if the channel sleeps and needs no heating,
      because the moment to write is then taken for the moment to heat. */
  function Cycle(w: Counter): (n: nat) {
    if w.mode == HeatMeasureStop && w.preheat == 0 then 2 * w.period else w.period
  }

  /** How long before a write a sleeping channel is started. */
  function Lead(w: Counter): nat {
    if w.preheat == 0 then w.period else w.preheat
  }

  /** Time since the last multiple of the cycle. */
  function Phase(w: Counter, c: nat): (r: nat)
    requires w.Valid()
    ensures r < Cycle(w)
  {
    if c == 0 then 0 else if Phase(w, c - 1) + 1 < Cycle(w) then Phase(w, c - 1) + 1 else 0
  }

  predicate IsPushTime(w: Counter, c: nat)
    requires w.Valid()
  {
    w.enabled && Phase(w, c) == 0
  }

  predicate IsStartTime(w: Counter, c: nat)
    requires w.Valid()
  {
    w.enabled && w.mode == HeatMeasureStop && Phase(w, c) == Cycle(w) - Lead(w)
  }

  lemma {:induction false} PhaseIs(w: Counter, c: nat)
    requires w.Valid()
    ensures Phase(w, c) == c % Cycle(w)
  {
    if c > 0 {
      PhaseIs(w, c - 1);
      NextRemainder(c - 1, Cycle(w));
    } else {
      DivModUnique(0, Cycle(w), 0, 0);
    }
  }

  /** A channel stores a value at exactly the multiples of its cycle. */
  lemma PushTimesAreMultiples(w: Counter, c: nat)
    requires w.Valid()
    ensures IsPushTime(w, c) <==> w.enabled && c % Cycle(w) == 0
  {
    PhaseIs(w, c);
  }

  /** A channel that sleeps is started exactly its heating time before each value after the first. */
  lemma StartTimesPrecedeWrites(w: Counter, c: nat)
    requires w.Valid() && w.mode == HeatMeasureStop && w.preheat > 0
    ensures IsStartTime(w, c) <==> IsPushTime(w, c + w.preheat)
  {
    PhaseIs(w, c);
    PhaseIs(w, c + w.preheat);
    BeforeMultiple(c, w.preheat, w.period);
  }

  /** Every multiple of the period is stored, if and only if the channel never sleeps or needs heating; otherwise every
      other one is lost. */
  lemma NoValueLostIff(w: Counter, k: nat)
    requires w.Valid() && w.enabled
    ensures IsPushTime(w, k * w.period) <==> w.mode == MeasureOnly || w.preheat > 0 || k % 2 == 0
  {
    var c, d := k * w.period, w.period;
    PhaseIs(w, c);
    if w.mode == HeatMeasureStop && w.preheat == 0 {
      var q, r := k / 2, k % 2;
      assert k == 2 * q + r;
      ProductSplits(d, q, r);
      DivModUnique(c, 2 * d, q, r * d);
    } else {
      DivModUnique(c, d, k, 0);
    }
  }

  lemma ProductSplits(d: nat, q: nat, r: nat)
    ensures (2 * q + r) * d == 2 * d * q + r * d
  {
  }

  datatype Plan = Plan(pushes: nat, log: seq<Action>, full: bool)
  {
    function Log(c: nat, what: What): Plan {
      this.(log := log + [At(c, what)])
    }

    /** What the timetable has for one channel at time `c`; the page may fill. */
    function Channel(w: Counter, other: Counter, ch: Channel, fills: nat -> bool, c: nat): Plan
      requires w.Valid()
    {
      if full then this
      else if IsPushTime(w, c) then
        var pushed := Log(c, Push(ch)).(pushes := pushes + 1);
        if fills(pushes) then (if other.enabled then pushed.Log(c, Start(Other(ch))) else pushed).(full := true)
        else if w.mode == HeatMeasureStop then pushed.Log(c, Stop(ch))
        else pushed
      else if IsStartTime(w, c) then Log(c, Start(ch))
      else this
    }
  }

  /** The log up to time `n`: at every time pressure comes before temperature. */
  function Timetable(p: Counter, t: Counter, fills: nat -> bool, n: nat): Plan
    requires p.Valid() && t.Valid()
  {
    if n == 0 then Plan(0, [], false)
    else Timetable(p, t, fills, n - 1).Channel(p, t, Pressure, fills, n - 1).Channel(t, p, Temperature, fills, n - 1)
  }

  /** A channel's state just before time `c` is looked at. */
  function StateAt(w: Counter, c: nat): ChState
    requires w.Valid()
  {
    if w.mode == MeasureOnly || c == 0 || !w.enabled then Ready
    else
      if 0 < Phase(w, c) <= Cycle(w) - Lead(w) then Sleeping else Heating
  }

  function CounterAt(w: Counter, c: nat): Counter
    requires w.Valid()
  {
    w.(counter := c, state := StateAt(w, c))
  }

  /** Time to the next multiple of the period, seen from the phase in the cycle. */
  lemma ToWriteAt(w: Counter, c: nat)
    requires w.Valid()
    ensures CounterAt(w, c).ToWrite() ==
      var r := Phase(w, c);
      if r == 0 then 0 else if r <= w.period then w.period - r else Cycle(w) - r
  {
    PhaseIs(w, c);
    if Cycle(w) != w.period {
      HalfCycle(c, w.period);
    }
  }

  /** At every time a channel that has kept to the timetable has exactly the event the timetable says. */
  lemma EventAt(w: Counter, c: nat)
    requires w.Valid()
    ensures CounterAt(w, c).IsEvent() ==
      if IsPushTime(w, c) then Some(if w.mode == HeatMeasureStop then MeasureAndSleep else Measure)
      else if IsStartTime(w, c) then Some(Preheat) else None
  {
    ToWriteAt(w, c);
  }

  lemma HalfCycle(c: nat, d: nat)
    requires d > 0
    ensures c % d == if c % (2 * d) < d then c % (2 * d) else c % (2 * d) - d
    ensures (c + d) % (2 * d) == 0 <==> c % (2 * d) == d
  {
    assert c == (2 * d) * (c / (2 * d)) + c % (2 * d);
    HalfCycleOf(c, d, 2 * d, c / (2 * d), c % (2 * d));
  }

  lemma HalfCycleOf(c: nat, d: nat, e: nat, q: nat, r: nat)
    requires d > 0 && e == 2 * d && r < e && c == e * q + r
    ensures c % d == if r < d then r else r - d
    ensures (c + d) % e == 0 <==> r == d
  {
    assert e * q == d * (2 * q);
    if r < d {
      DivModUnique(c, d, 2 * q, r);
      DivModUnique(c + d, e, q, r + d);
    } else {
      assert d * (2 * q + 1) == d * (2 * q) + d;
      assert e * (q + 1) == e * q + e;
      DivModUnique(c, d, 2 * q + 1, r - d);
      DivModUnique(c + d, e, q + 1, r - d);
    }
  }

  lemma BeforeMultiple(c: nat, lead: nat, d: nat)
    requires 0 < lead < d
    ensures (c + lead) % d == 0 <==> c % d == d - lead
  {
    var q, r := c / d, c % d;
    assert c == d * q + r;
    assert d * (q + 1) == d * q + d;
    if r + lead < d {
      DivModUnique(c + lead, d, q, r + lead);
    } else {
      DivModUnique(c + lead, d, q + 1, r + lead - d);
    }
  }

  /** What a channel's event does to its state is what the timetable expects a millisecond later. */
  lemma StateNext(w: Counter, c: nat)
    requires w.Valid() && w.enabled
    ensures StateAt(w, c + 1) ==
      if w.mode == MeasureOnly then Ready
      else if IsPushTime(w, c) then Sleeping
      else if IsStartTime(w, c) then Heating
      else StateAt(w, c)
  {
  }

  // ---- The loop keeps the timetable ----

  /** A page begins with both channels heated. */
  function Begin(p: Counter, t: Counter): Rec {
    Rec(p, t, 0, 0, [], false, false)
  }

  ghost predicate Fresh(w: Counter) {
    w.Valid() && w.counter == 0 && w.state == Ready
  }

  /** State `s` at time `c` is what the timetable `q` for that time says. */
  ghost predicate Keeps(s: Rec, q: Plan, p: Counter, t: Counter, c: nat)
    requires p.Valid() && t.Valid()
  {
    && s.log == q.log && s.pushes == q.pushes && s.full == q.full && !s.overflowed
    && (!s.full ==> s.p == CounterAt(p, c) && s.t == CounterAt(t, c))
  }

  /** The counter once its event at time `c` is dealt with. */
  function Settled(w: Counter, c: nat): Counter
    requires w.Valid()
  {
    w.(counter := c, state := StateAt(w, c + 1))
  }

  lemma DisabledState(w: Counter, c: nat)
    requires w.Valid() && !w.enabled
    ensures StateAt(w, c) == Ready && !IsPushTime(w, c) && !IsStartTime(w, c)
  {
  }

  /** Dealing with a channel's event does what the timetable has for it. */
  lemma ProcessKeeps(s: Rec, q: Plan, ch: Channel, w: Counter, other: Counter, world: World, c: nat)
    requires s.Valid() && w.Valid() && s.Get(ch) == CounterAt(w, c) && !s.full && !q.full
    requires s.p.counter == c && s.Get(Other(ch)).enabled == other.enabled
    requires s.log == q.log && s.pushes == q.pushes
    ensures var (s', filled) := s.Process(ch, world);
      var q' := q.Channel(w, other, ch, world.fills, c);
      && filled == q'.full && s'.pushes == q'.pushes
      && (if filled then s'.Finish(Other(ch)).log else s'.log) == q'.log
      && (!filled ==>
            s'.Get(ch) == Settled(w, c) && s'.Get(Other(ch)) == s.Get(Other(ch)) && s'.p.counter == c && !s'.full)
  {
    EventAt(w, c);
    if w.enabled {
      StateNext(w, c);
    } else {
      DisabledState(w, c);
      DisabledState(w, c + 1);
    }
  }

  /** A pass at time `c` by a loop whose passes take no longer than a tick. */
  lemma PassKeeps(s: Rec, q: Plan, p: Counter, t: Counter, world: World, c: nat)
    requires c < TICK_MAX
    requires s.Valid() && p.Valid() && t.Valid() && Keeps(s, q, p, t, c) && !s.full && world.cost(s.passes) <= 1
    ensures Keeps(s.Pass(world), PlanTick(q, p, t, world.fills, c), p, t, c + 1)
  {
    ProcessKeeps(s, q, Pressure, p, t, world, c);
    var (s1, filled) := s.Process(Pressure, world);
    if !filled {
      SecondChannelKeeps(s1, q.Channel(p, t, Pressure, world.fills, c), p, t, world, c);
    }
  }

  /** The rest of a pass, after the pressure channel. */
  lemma SecondChannelKeeps(s: Rec, q: Plan, p: Counter, t: Counter, world: World, c: nat)
    requires s.Valid() && p.Valid() && t.Valid() && c < TICK_MAX && world.cost(s.passes) <= 1
    requires s.log == q.log && s.pushes == q.pushes && !q.full && !s.Over() && s.p.counter == c
    requires s.p == Settled(p, c) && s.t == CounterAt(t, c)
    ensures Keeps(s.PassRest(world), q.Channel(t, p, Temperature, world.fills, c), p, t, c + 1)
  {
    ProcessKeeps(s, q, Temperature, t, p, world, c);
  }

  function PlanTick(q: Plan, p: Counter, t: Counter, fills: nat -> bool, c: nat): Plan
    requires p.Valid() && t.Valid()
  {
    q.Channel(p, t, Pressure, fills, c).Channel(t, p, Temperature, fills, c)
  }

  /** A millisecond without events. */
  lemma QuietKeeps(s: Rec, q: Plan, p: Counter, t: Counter, world: World, c: nat)
    requires c < TICK_MAX
    requires s.Valid() && p.Valid() && t.Valid() && Keeps(s, q, p, t, c) && !s.full && !s.HasEvent()
    ensures Keeps(s.Ticked(1), PlanTick(q, p, t, world.fills, c), p, t, c + 1)
  {
    ProcessKeeps(s, q, Pressure, p, t, world, c);
    ProcessKeeps(s, q, Temperature, t, p, world, c);
  }

  lemma StepKeeps(s: Rec, q: Plan, p: Counter, t: Counter, world: World, c: nat)
    requires c < TICK_MAX
    requires s.Valid() && p.Valid() && t.Valid() && Keeps(s, q, p, t, c) && forall k :: world.cost(k) <= 1
    ensures var x := SimStep(world)(Sim(s, 0));
      x.busy == 0 && Keeps(x.rec, PlanTick(q, p, t, world.fills, c), p, t, c + 1) && x.rec.Valid()
  {
    if !s.full {
      if s.HasEvent() {
        PassKeeps(s, q, p, t, world, c);
        PassIsLooked(s, world);
      } else {
        QuietKeeps(s, q, p, t, world, c);
      }
    }
  }

  /** The state after `k` milliseconds of simulation is what the timetable says. */
  ghost predicate OnTime(p: Counter, t: Counter, world: World, x: Sim, k: nat)
    requires p.Valid() && t.Valid()
  {
    x.busy == 0 && x.rec.Valid() && Keeps(x.rec, Timetable(p, t, world.fills, k), p, t, k)
  }

  /** What every step keeps holds after any number of steps. */
  lemma {:induction false} KeptAlong<T(!new)>(step: T -> T, kept: (T, nat) -> bool, s: T, n: nat)
    requires kept(s, 0) && forall x: T, k: nat :: k < n && kept(x, k) ==> kept(step(x), k + 1)
    ensures kept(Iterate(step, s, n), n)
    decreases n
  {
    if n > 0 {
      KeptAlong(step, kept, s, n - 1);
      NextIteration(step, s, n - 1);
      assert kept(step(Iterate(step, s, n - 1)), n);
    }
  }

  lemma SimKeepsTimetable(p: Counter, t: Counter, world: World, n: nat)
    requires Fresh(p) && Fresh(t) && (p.enabled || t.enabled) && forall k :: world.cost(k) <= 1
    requires n <= TICK_MAX
    ensures OnTime(p, t, world, Iterate(SimStep(world), Sim(Begin(p, t), 0), n), n)
  {
    ghost var kept := (x: Sim, k: nat) => OnTime(p, t, world, x, k);
    BeginKeeps(p, t, world);
    forall x: Sim, k: nat | k < n && kept(x, k) ensures kept(SimStep(world)(x), k + 1) {
      NextKeeps(x.rec, p, t, world, k);
    }
    KeptAlong(SimStep(world), kept, Sim(Begin(p, t), 0), n);
  }

  lemma BeginKeeps(p: Counter, t: Counter, world: World)
    requires Fresh(p) && Fresh(t) && (p.enabled || t.enabled)
    ensures Begin(p, t).Valid() && Keeps(Begin(p, t), Timetable(p, t, world.fills, 0), p, t, 0)
  {
  }

  lemma NextKeeps(s: Rec, p: Counter, t: Counter, world: World, n: nat)
    requires n < TICK_MAX && s.Valid() && p.Valid() && t.Valid() && Keeps(s, Timetable(p, t, world.fills, n), p, t, n)
    requires forall k :: world.cost(k) <= 1
    ensures OnTime(p, t, world, SimStep(world)(Sim(s, 0)), n + 1)
  {
    StepKeeps(s, Timetable(p, t, world.fills, n), p, t, world, n);
  }

  /** When passes take no longer than a tick, the loop that sleeps logs the timetable: after `m` passes, all of it up to
      the time the passes stand for. */
  lemma LoopKeepsTimetable(p: Counter, t: Counter, world: World, m: nat)
    requires Fresh(p) && Fresh(t) && (p.enabled || t.enabled) && forall k :: world.cost(k) <= 1
    requires SlowSteps(JumpStep(world), Milliseconds(world), Begin(p, t), m) <= TICK_MAX
    ensures var n := SlowSteps(JumpStep(world), Milliseconds(world), Begin(p, t), m);
      var (s, q) := (Iterate(JumpStep(world), Begin(p, t), m), Timetable(p, t, world.fills, n));
      n >= m && s.log == q.log && s.pushes == q.pushes && s.full == q.full
  {
    JumpsAreTicks(Begin(p, t), world, m);
    EnoughSteps(JumpStep(world), Milliseconds(world), Begin(p, t), m);
    SimKeepsTimetable(p, t, world, SlowSteps(JumpStep(world), Milliseconds(world), Begin(p, t), m));
  }

  // ---- What the timetable says ----

  function Config(p: Counter, t: Counter, ch: Channel): Counter {
    if ch.Pressure? then p else t
  }

  lemma ChannelLogs(q: Plan, w: Counter, other: Counter, ch: Channel, fills: nat -> bool, c: nat, a: Action)
    requires w.Valid() && !q.Channel(w, other, ch, fills, c).full && !a.what.Stop?
    ensures a in q.Channel(w, other, ch, fills, c).log <==>
      a in q.log || (a == At(c, Push(ch)) && IsPushTime(w, c)) || (a == At(c, Start(ch)) && IsStartTime(w, c))
  {
    if IsPushTime(w, c) {
      assert !IsStartTime(w, c);
    }
  }

  /** Until the page fills, each channel is stored at exactly the times of its cycle, and started at exactly its
      starting times. */
  lemma {:induction false} TimetableMeans(p: Counter, t: Counter, fills: nat -> bool, n: nat, c: nat, ch: Channel)
    requires p.Valid() && t.Valid() && !Timetable(p, t, fills, n).full
    ensures At(c, Push(ch)) in Timetable(p, t, fills, n).log <==> c < n && IsPushTime(Config(p, t, ch), c)
    ensures At(c, Start(ch)) in Timetable(p, t, fills, n).log <==> c < n && IsStartTime(Config(p, t, ch), c)
  {
    if n > 0 {
      var q := Timetable(p, t, fills, n - 1);
      var q' := q.Channel(p, t, Pressure, fills, n - 1);
      assert !q.full && !q'.full;
      TimetableMeans(p, t, fills, n - 1, c, ch);
      ChannelLogs(q, p, t, Pressure, fills, n - 1, At(c, Push(ch)));
      ChannelLogs(q', t, p, Temperature, fills, n - 1, At(c, Push(ch)));
      ChannelLogs(q, p, t, Pressure, fills, n - 1, At(c, Start(ch)));
      ChannelLogs(q', t, p, Temperature, fills, n - 1, At(c, Start(ch)));
    }
  }

  // ---- Passes that take longer than a tick ----

  function SimAt(p: Counter, t: Counter, world: World, n: nat): Sim {
    Iterate(SimStep(world), Sim(Begin(p, t), 0), n)
  }

  /** A counter that has been ticked `n` times and whose channel is in some state. */
  predicate SameChannel(now: Counter, w: Counter, n: nat) {
    now == w.(counter := n, state := now.state)
  }

  ghost predicate Runs(x: Sim, p: Counter, t: Counter, n: nat) {
    x.rec.Valid() && SameChannel(x.rec.p, p, n) && SameChannel(x.rec.t, t, n)
  }

  lemma ProcessRuns(s: Rec, ch: Channel, world: World, p: Counter, t: Counter, n: nat)
    requires s.Valid() && SameChannel(s.p, p, n) && SameChannel(s.t, t, n)
    ensures var s' := s.Process(ch, world).0;
      && SameChannel(s'.p, p, n) && SameChannel(s'.t, t, n) && s'.passes == s.passes && s'.overflowed == s.overflowed
  {
  }

  lemma MillisecondRuns(x: Sim, world: World, p: Counter, t: Counter, n: nat)
    requires Runs(x, p, t, n) && !x.rec.Over() && !x.Millisecond(world).rec.Over()
    ensures Runs(x.Millisecond(world), p, t, n + 1)
  {
    if x.busy == 0 && x.rec.HasEvent() {
      ProcessRuns(x.rec, Pressure, world, p, t, n);
      var (s, filled) := x.rec.Process(Pressure, world);
      if !filled {
        ProcessRuns(s, Temperature, world, p, t, n);
      }
    }
  }

  lemma NextMillisecond(p: Counter, t: Counter, world: World, n: nat)
    requires Begin(p, t).Valid() && SimAt(p, t, world, n).rec.Valid()
    ensures SimAt(p, t, world, n + 1) == SimAt(p, t, world, n).Millisecond(world)
    ensures SimAt(p, t, world, n).rec.Over() ==> SimAt(p, t, world, n + 1).rec.Over()
  {
    NextIteration(SimStep(world), Sim(Begin(p, t), 0), n);
  }

  lemma {:induction false} SimRuns(p: Counter, t: Counter, world: World, n: nat)
    requires Fresh(p) && Fresh(t) && (p.enabled || t.enabled)
    ensures SimAt(p, t, world, n).rec.Valid()
    ensures !SimAt(p, t, world, n).rec.Over() ==> Runs(SimAt(p, t, world, n), p, t, n)
  {
    if n > 0 {
      SimRuns(p, t, world, n - 1);
      NextMillisecond(p, t, world, n - 1);
      var x := SimAt(p, t, world, n - 1);
      if !x.rec.Over() && !x.Millisecond(world).rec.Over() {
        MillisecondRuns(x, world, p, t, n - 1);
      }
    }
  }

  /** The channel measures whenever a multiple of its period is looked at: it never sleeps, or is heated first. */
  predicate Heated(w: Counter) {
    w.mode == MeasureOnly || w.preheat > 0
  }

  predicate Due(w: Counter, c: nat)
    requires w.Valid()
  {
    w.enabled && c % w.period == 0
  }

  lemma HeatedMeasures(w: Counter)
    requires w.Valid() && Heated(w)
    ensures w.IsEvent() == Some(Measure) || w.IsEvent() == Some(MeasureAndSleep) <==> Due(w, w.counter)
  {
  }

  lemma ProcessPushes(s: Rec, ch: Channel, world: World, c: nat, k: Channel)
    requires s.Valid() && Heated(s.Get(ch)) && !s.Process(ch, world).1
    ensures At(c, Push(k)) in s.Process(ch, world).0.log <==>
      At(c, Push(k)) in s.log || (k == ch && c == s.p.counter && Due(s.Get(ch), c))
  {
    HeatedMeasures(s.Get(ch));
  }

  lemma ProcessOther(s: Rec, ch: Channel, world: World, c: nat)
    requires s.Valid()
    ensures var s' := s.Process(ch, world).0;
      && (At(c, Push(Other(ch))) in s'.log <==> At(c, Push(Other(ch))) in s.log)
      && s'.p.counter == s.p.counter && s'.Get(Other(ch)) == s.Get(Other(ch))
  {
  }

  /** What a millisecond adds to the log: nothing while the loop is busy, and else the channel's value if it is due. */
  lemma MillisecondPushes(x: Sim, world: World, ch: Channel, c: nat)
    requires x.rec.Valid() && Heated(x.rec.Get(ch)) && !x.rec.Over() && !x.Millisecond(world).rec.Over()
    ensures At(c, Push(ch)) in x.Millisecond(world).rec.log <==>
      At(c, Push(ch)) in x.rec.log || (c == x.rec.p.counter && x.busy == 0 && Due(x.rec.Get(ch), c))
  {
    if x.busy == 0 && x.rec.HasEvent() {
      LookedPushes(x.rec, world, ch, c);
    } else if x.busy == 0 {
      HeatedMeasures(x.rec.Get(ch));
    }
  }

  lemma LookedPushes(s: Rec, world: World, ch: Channel, c: nat)
    requires s.Valid() && Heated(s.Get(ch)) && !s.Over() && !s.Looked(world).full
    ensures At(c, Push(ch)) in s.Looked(world).log <==>
      At(c, Push(ch)) in s.log || (c == s.p.counter && Due(s.Get(ch), c))
  {
    var (s1, filled) := s.Process(Pressure, world);
    assert !filled && !s1.Process(Temperature, world).1;
    ProcessOther(s, Pressure, world, c);
    ProcessOther(s1, Temperature, world, c);
    if ch.Pressure? {
      ProcessPushes(s, ch, world, c, ch);
    } else {
      ProcessPushes(s1, ch, world, c, ch);
    }
  }

  /** Whatever passes cost: until the page fills, a channel is stored at exactly those multiples of its period at which
      the loop is not busy. */
  lemma {:induction false} StoredIff(p: Counter, t: Counter, world: World, n: nat, c: nat, ch: Channel)
    requires Fresh(p) && Fresh(t) && (p.enabled || t.enabled) && Heated(Config(p, t, ch))
    requires !SimAt(p, t, world, n).rec.Over()
    ensures At(c, Push(ch)) in SimAt(p, t, world, n).rec.log <==>
      c < n && Due(Config(p, t, ch), c) && SimAt(p, t, world, c).busy == 0
  {
    if n > 0 {
      var m := n - 1;
      SimRuns(p, t, world, m);
      NextMillisecond(p, t, world, m);
      StoredIff(p, t, world, m, c, ch);
      StoredNext(SimAt(p, t, world, m), p, t, world, m, c, ch);
    }
  }

  lemma StoredNext(x: Sim, p: Counter, t: Counter, world: World, m: nat, c: nat, ch: Channel)
    requires Runs(x, p, t, m) && Heated(Config(p, t, ch)) && p.Valid() && t.Valid()
    requires !x.rec.Over() && !x.Millisecond(world).rec.Over()
    ensures At(c, Push(ch)) in x.Millisecond(world).rec.log <==>
      At(c, Push(ch)) in x.rec.log || (c == m && x.busy == 0 && Due(Config(p, t, ch), c))
  {
    MillisecondPushes(x, world, ch, c);
  }

  /** Time `c` is inside the pass that begins at `b`. */
  predicate InPass(p: Counter, t: Counter, world: World, b: nat, c: nat) {
    var x := SimAt(p, t, world, b);
    x.rec.Valid() && x.busy == 0 && x.rec.HasEvent() && b < c < b + world.PassTime(x.rec.passes)
  }

  lemma {:induction false} BusyInPass(p: Counter, t: Counter, world: World, c: nat) returns (b: nat)
    requires Fresh(p) && Fresh(t) && (p.enabled || t.enabled) && !SimAt(p, t, world, c).rec.Over()
    requires SimAt(p, t, world, c).busy > 0
    ensures InPass(p, t, world, b, c)
    ensures b + world.PassTime(SimAt(p, t, world, b).rec.passes) == c + SimAt(p, t, world, c).busy
  {
    var m := c - 1;
    SimRuns(p, t, world, m);
    NextMillisecond(p, t, world, m);
    BusyNext(SimAt(p, t, world, m), world);
    if SimAt(p, t, world, m).busy > 0 {
      b := BusyInPass(p, t, world, m);
    } else {
      b := m;
    }
  }

  lemma BusyNext(x: Sim, world: World)
    requires x.rec.Valid() && !x.rec.Over() && x.Millisecond(world).busy > 0
    ensures if x.busy > 0 then x.Millisecond(world).busy == x.busy - 1
      else x.rec.HasEvent() && x.Millisecond(world).busy == world.PassTime(x.rec.passes) - 1
  {
  }

  lemma {:induction false} PassIsBusy(p: Counter, t: Counter, world: World, b: nat, c: nat)
    requires Fresh(p) && Fresh(t) && (p.enabled || t.enabled) && !SimAt(p, t, world, c).rec.Over()
    requires InPass(p, t, world, b, c)
    ensures SimAt(p, t, world, c).busy == b + world.PassTime(SimAt(p, t, world, b).rec.passes) - c
    decreases c
  {
    SimRuns(p, t, world, c - 1);
    NextMillisecond(p, t, world, c - 1);
    if b < c - 1 {
      PassIsBusy(p, t, world, b, c - 1);
    }
  }

  /** Until the page fills, the loop loses exactly those values that are due inside one of its passes, after the
      millisecond in which the pass begins. */
  lemma LostIff(p: Counter, t: Counter, world: World, m: nat, c: nat, ch: Channel)
    requires Fresh(p) && Fresh(t) && (p.enabled || t.enabled) && Heated(Config(p, t, ch))
    requires !Iterate(JumpStep(world), Begin(p, t), m).Over() && Due(Config(p, t, ch), c)
    requires c < SlowSteps(JumpStep(world), Milliseconds(world), Begin(p, t), m)
    ensures At(c, Push(ch)) !in Iterate(JumpStep(world), Begin(p, t), m).log <==>
      exists b: nat :: InPass(p, t, world, b, c)
  {
    var n := SlowSteps(JumpStep(world), Milliseconds(world), Begin(p, t), m);
    JumpsAreTicks(Begin(p, t), world, m);
    StoredIff(p, t, world, n, c, ch);
    NotOverBefore(p, t, world, c, n);
    if SimAt(p, t, world, c).busy > 0 {
      var b := BusyInPass(p, t, world, c);
    }
    forall b: nat | InPass(p, t, world, b, c) ensures SimAt(p, t, world, c).busy > 0 {
      PassIsBusy(p, t, world, b, c);
    }
  }

  lemma {:induction false} NotOverBefore(p: Counter, t: Counter, world: World, c: nat, n: nat)
    requires Fresh(p) && Fresh(t) && (p.enabled || t.enabled) && c <= n && !SimAt(p, t, world, n).rec.Over()
    ensures !SimAt(p, t, world, c).rec.Over()
    decreases n
  {
    if c < n {
      SimRuns(p, t, world, n - 1);
      NextMillisecond(p, t, world, n - 1);
      NotOverBefore(p, t, world, c, n - 1);
    }
  }

  // ---- The recorder's configuration ----

  const CORE_FREQUENCY: nat := 3_000_000
  const MINIMUM_ADAPTATION_INTERVAL: nat := 50
  const GEN_COLD_STARTUP_TIME_MS: nat := 200

  /** Milliseconds of a clock of `frequency` as the scheduler, set up for CORE_FREQUENCY, counts them. */
  function Scaled(ms: nat, frequency: nat): nat {
    ms * frequency / 3_000_000 % TWO_32
  }

  /** The heating time set up for a measuring time: 32-bit words, which may wrap around. */
  function PreheatTime(measureTime: nat): nat {
    var two := (measureTime * 2 + GEN_COLD_STARTUP_TIME_MS) % TWO_32;
    var least := MINIMUM_ADAPTATION_INTERVAL + GEN_COLD_STARTUP_TIME_MS;
    Scaled(if two > least then two else least, CORE_FREQUENCY)
  }

  function WritePeriod(baseInterval: nat, divider: nat): nat {
    Scaled(baseInterval * divider % TWO_32, CORE_FREQUENCY)
  }

  /** The counter the recorder makes of a channel's settings. */
  function Configured(measureTime: nat, baseInterval: nat, divider: nat, enabled: bool): Counter {
    ChannelHeated(WritePeriod(baseInterval, divider), PreheatTime(measureTime), enabled)
  }

  lemma SameFrequency(ms: nat)
    requires ms < TWO_32
    ensures Scaled(ms, CORE_FREQUENCY) == ms
  {
    assert ms * 3_000_000 / 3_000_000 == ms;
  }

  /** A channel's settings, and the period and heating time they stand for, in milliseconds; sums and products are
      32-bit words. */
  datatype Settings = Settings(measureTime: nat, baseInterval: nat, divider: nat, enabled: bool)
  {
    function Period(): nat {
      baseInterval * divider % 0x1_0000_0000
    }

    function Heating(): nat {
      if (2 * measureTime + 200) % 0x1_0000_0000 > 250 then (2 * measureTime + 200) % 0x1_0000_0000 else 250
    }

    function Counter(): Counter {
      Configured(measureTime, baseInterval, divider, enabled)
    }
  }

  lemma SettingsMean(s: Settings)
    ensures s.Counter() == ChannelHeated(s.Period(), s.Heating(), s.enabled)
  {
    assert (s.measureTime * 2 + 200) % TWO_32 == (2 * s.measureTime + 200) % 0x1_0000_0000;
    SameFrequency(s.Period());
    SameFrequency(s.Heating());
  }

  lemma SettingsFresh(s: Settings)
    requires s.Period() > 0
    ensures Fresh(s.Counter()) && Heated(s.Counter())
  {
    SettingsMean(s);
  }

  /** The timetable of a channel's settings: its value is due at exactly the multiples of base interval times divider,
      and if that is more than its heating time, which is never less than a quarter of a second, the channel sleeps
      between and is started exactly its heating time before each later value. */
  lemma SettingsTimetable(s: Settings, c: nat)
    requires s.Period() > 0
    ensures IsPushTime(s.Counter(), c) <==> s.enabled && c % s.Period() == 0
    ensures IsStartTime(s.Counter(), c) <==>
      s.enabled && s.Heating() < s.Period() && (c + s.Heating()) % s.Period() == 0
  {
    SettingsMean(s);
    PushTimesAreMultiples(s.Counter(), c);
    if s.Heating() < s.Period() {
      StartTimesPrecedeWrites(s.Counter(), c);
      PushTimesAreMultiples(s.Counter(), c + s.Heating());
    }
  }

  function Of(p: Settings, t: Settings, ch: Channel): Settings {
    if ch.Pressure? then p else t
  }

  /** Until the page fills, the recorder of these settings is to store a channel's value, and to start the channel, at
      exactly those times. */
  lemma SettingsLog(p: Settings, t: Settings, fills: nat -> bool, n: nat, c: nat, ch: Channel)
    requires p.Period() > 0 && t.Period() > 0
    ensures Fresh(p.Counter()) && Fresh(t.Counter())
    ensures var s := Of(p, t, ch); var q := Timetable(p.Counter(), t.Counter(), fills, n);
      !q.full ==>
        && (At(c, Push(ch)) in q.log <==> c < n && s.enabled && c % s.Period() == 0)
        && (At(c, Start(ch)) in q.log <==>
              c < n && s.enabled && s.Heating() < s.Period() && (c + s.Heating()) % s.Period() == 0)
  {
    SettingsFresh(p);
    SettingsFresh(t);
    if !Timetable(p.Counter(), t.Counter(), fills, n).full {
      TimetableMeans(p.Counter(), t.Counter(), fills, n, c, ch);
      SettingsTimetable(Of(p, t, ch), c);
    }
  }

  /** Whatever passes cost: until the page fills, the loop stores a channel at exactly the multiples of base interval
      times divider that are not inside one of its passes. */
  lemma SettingsStored(p: Settings, t: Settings, world: World, m: nat, c: nat, ch: Channel)
    requires p.Period() > 0 && t.Period() > 0 && (p.enabled || t.enabled)
    requires !Iterate(JumpStep(world), Begin(p.Counter(), t.Counter()), m).Over()
    requires c < SlowSteps(JumpStep(world), Milliseconds(world), Begin(p.Counter(), t.Counter()), m)
    ensures At(c, Push(ch)) in Iterate(JumpStep(world), Begin(p.Counter(), t.Counter()), m).log <==>
      && Of(p, t, ch).enabled && c % Of(p, t, ch).Period() == 0
      && !exists b: nat :: InPass(p.Counter(), t.Counter(), world, b, c)
  {
    SettingsMean(p);
    SettingsMean(t);
    SettingsFresh(p);
    SettingsFresh(t);
    if Due(Config(p.Counter(), t.Counter(), ch), c) {
      LostIff(p.Counter(), t.Counter(), world, m, c, ch);
    } else {
      JumpsAreTicks(Begin(p.Counter(), t.Counter()), world, m);
      StoredIff(p.Counter(), t.Counter(), world,
                SlowSteps(JumpStep(world), Milliseconds(world), Begin(p.Counter(), t.Counter()), m), c, ch);
    }
  }

  /** A page that never fills, and passes of 2 ms. */
  function SlowPasses(): World {
    World(_ => false, _ => 2)
  }

  lemma SlowMillisecond(x: Sim)
    requires x.rec.Valid() && !x.rec.Over() && x.rec.p.counter < TICK_MAX
    ensures var r := x.Millisecond(SlowPasses());
      !r.rec.Over() && r.busy == if x.busy > 0 then x.busy - 1 else if x.rec.HasEvent() then 1 else 0
  {
    var (s, filled) := x.rec.Process(Pressure, SlowPasses());
    assert !filled && !s.Over() && !s.Process(Temperature, SlowPasses()).1;
  }

  /** Such settings: values due every 2 and every 3 ms. The pass that begins at 2 is not over when the temperature is
      due at 3. */
  lemma LongPassLosesValue(p: Counter, t: Counter)
    requires p == Configured(50, 1, 2, true) && t == Configured(50, 1, 3, true)
    ensures Fresh(p) && Fresh(t) && Heated(t) && Due(t, 3) && InPass(p, t, SlowPasses(), 2, 3)
  {
    SameFrequency(2);
    SameFrequency(3);
    SameFrequency(300);
    SlowStart(p, t);
  }

  lemma SlowStart(p: Counter, t: Counter)
    requires Fresh(p) && Fresh(t) && p.enabled && p.period == 2 && p.mode == MeasureOnly
    ensures InPass(p, t, SlowPasses(), 2, 3)
  {
    var world := SlowPasses();
    NextMillisecond(p, t, world, 0);
    SlowMillisecond(SimAt(p, t, world, 0));
    EventWhenDue(p, t, 0);
    SimRuns(p, t, world, 1);
    NextMillisecond(p, t, world, 1);
    SlowMillisecond(SimAt(p, t, world, 1));
    SimRuns(p, t, world, 2);
    EventWhenDue(p, t, 2);
  }

  lemma EventWhenDue(p: Counter, t: Counter, n: nat)
    requires Fresh(p) && Fresh(t) && p.enabled && p.mode == MeasureOnly && n % p.period == 0
    requires Runs(SimAt(p, t, SlowPasses(), n), p, t, n)
    ensures SimAt(p, t, SlowPasses(), n).rec.HasEvent()
  {
  }
}
