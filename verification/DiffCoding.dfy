/** How the recorder stores its two interleaved series: each value as the 32-bit difference to the last value of the
    same channel. */
module DiffCoding {
  import opened Bytes
  import opened RecorderSpec

  const TWO_31: int := 0x8000_0000

  /** The signed reading of a 32-bit word. */
  function ToI32(x: nat): int {
    if x < TWO_31 then x else x - TWO_32
  }

  /** Signed 32-bit arithmetic wraps around. */
  function WrapI32(x: int): (r: int)
    ensures -TWO_31 <= r < TWO_31
  {
    (x + TWO_31) % TWO_32 - TWO_31
  }

  /** One stored value: the channel it came from and what the sensor delivered, if anything. */
  datatype Sample = Sample(ch: Channel, result: Option<nat>)
  {
    predicate Valid() {
      result.Some? ==> result.value < TWO_32
    }
  }

  ghost predicate AllValid(samples: seq<Sample>) {
    forall k | 0 <= k < |samples| :: samples[k].Valid()
  }

  /** The last value of each channel. */
  datatype Prevs = Prevs(p: nat, t: nat)
  {
    function Get(ch: Channel): nat {
      if ch.Pressure? then p else t
    }

    function Set(ch: Channel, v: nat): Prevs {
      if ch.Pressure? then this.(p := v) else this.(t := v)
    }
  }

  // ---- The encoder ----

  function Difference(result: Option<nat>, prev: nat): int {
    if result.Some? then WrapI32(ToI32(result.value) - ToI32(prev)) else 0
  }

  function PrevsAfter(samples: seq<Sample>): Prevs {
    if |samples| == 0 then Prevs(0, 0)
    else
      var last, before := samples[|samples| - 1], PrevsAfter(samples[..|samples| - 1]);
      if last.result.Some? then before.Set(last.ch, last.result.value) else before
  }

  function Encode(samples: seq<Sample>): (r: seq<int>)
    ensures |r| == |samples|
  {
    if |samples| == 0 then []
    else
      var last, before := samples[|samples| - 1], samples[..|samples| - 1];
      Encode(before) + [Difference(last.result, PrevsAfter(before).Get(last.ch))]
  }

  // ---- The reader ----

  /** The value each channel stands at after adding up its differences modulo 2^32. */
  function Sums(order: seq<Channel>, diffs: seq<int>): Prevs
    requires |order| == |diffs|
  {
    if |order| == 0 then Prevs(0, 0)
    else
      var n := |order| - 1;
      var before := Sums(order[..n], diffs[..n]);
      before.Set(order[n], (before.Get(order[n]) + diffs[n]) % TWO_32)
  }

  function Decode(order: seq<Channel>, diffs: seq<int>): (r: seq<nat>)
    requires |order| == |diffs|
    ensures |r| == |order|
  {
    seq(|order|, k requires 0 <= k < |order| => Sums(order[..k + 1], diffs[..k + 1]).Get(order[k]))
  }

  function Channels(samples: seq<Sample>): (r: seq<Channel>)
    ensures |r| == |samples|
  {
    seq(|samples|, k requires 0 <= k < |samples| => samples[k].ch)
  }

  // ---- What should be read ----

  /** The latest value a channel delivered within the first `k` samples, 0 before the first. */
  function LastSeen(samples: seq<Sample>, k: nat, ch: Channel): (r: nat)
    requires k <= |samples|
  {
    if k == 0 then 0
    else if samples[k - 1].ch == ch && samples[k - 1].result.Some? then samples[k - 1].result.value
    else LastSeen(samples, k - 1, ch)
  }

  /** The sampled values, a missing one repeating the last of its channel. */
  function Held(samples: seq<Sample>): (r: seq<nat>)
    ensures |r| == |samples|
  {
    seq(|samples|, k requires 0 <= k < |samples| => LastSeen(samples, k + 1, samples[k].ch))
  }

  lemma {:induction false} SeenInPrefix(samples: seq<Sample>, n: nat, k: nat, ch: Channel)
    requires k <= n <= |samples|
    ensures LastSeen(samples[..n], k, ch) == LastSeen(samples, k, ch)
  {
    if k > 0 {
      SeenInPrefix(samples, n, k - 1, ch);
    }
  }

  lemma {:induction false} PrevsAreSeen(samples: seq<Sample>, ch: Channel)
    ensures PrevsAfter(samples).Get(ch) == LastSeen(samples, |samples|, ch)
  {
    if |samples| > 0 {
      var n := |samples| - 1;
      PrevsAreSeen(samples[..n], ch);
      SeenInPrefix(samples, n, n, ch);
    }
  }

  lemma {:induction false} PrevsFit(samples: seq<Sample>, ch: Channel)
    requires AllValid(samples)
    ensures PrevsAfter(samples).Get(ch) < TWO_32
  {
    if |samples| > 0 {
      PrevsFit(samples[..|samples| - 1], ch);
    }
  }

  /** Adding a wrapped difference modulo 2^32 gives the new value back, however far apart the two are. */
  lemma DifferenceUndone(value: nat, prev: nat)
    requires value < TWO_32 && prev < TWO_32
    ensures (prev + Difference(Some(value), prev)) % TWO_32 == value
  {
  }

  lemma {:induction false} SumsArePrevs(samples: seq<Sample>)
    requires AllValid(samples)
    ensures Sums(Channels(samples), Encode(samples)) == PrevsAfter(samples)
  {
    if |samples| > 0 {
      var n := |samples| - 1;
      var before, last := samples[..n], samples[n];
      SumsArePrevs(before);
      assert Channels(samples)[..n] == Channels(before) && Encode(samples)[..n] == Encode(before);
      PrevsFit(before, last.ch);
      if last.result.Some? {
        DifferenceUndone(last.result.value, PrevsAfter(before).Get(last.ch));
      }
    }
  }

  lemma {:induction false} EncodePrefix(samples: seq<Sample>, n: nat)
    requires n <= |samples|
    ensures Encode(samples)[..n] == Encode(samples[..n]) && Channels(samples)[..n] == Channels(samples[..n])
  {
    if n < |samples| {
      var m := |samples| - 1;
      EncodePrefix(samples[..m], n);
      assert samples[..m][..n] == samples[..n];
      assert Encode(samples)[..m] == Encode(samples[..m]);
    } else {
      assert samples[..n] == samples;
    }
  }

  /** Adding up the differences channel by channel recovers both series, however they are interleaved. */
  lemma DecodeRecovers(samples: seq<Sample>)
    requires AllValid(samples)
    ensures Decode(Channels(samples), Encode(samples)) == Held(samples)
  {
    forall k | 0 <= k < |samples| ensures Decode(Channels(samples), Encode(samples))[k] == Held(samples)[k] {
      DecodeAt(samples, k);
    }
  }

  lemma DecodeAt(samples: seq<Sample>, k: nat)
    requires AllValid(samples) && k < |samples|
    ensures Decode(Channels(samples), Encode(samples))[k] == Held(samples)[k]
  {
    EncodePrefix(samples, k + 1);
    SumsArePrevs(samples[..k + 1]);
    PrevsAreSeen(samples[..k + 1], samples[k].ch);
    SeenInPrefix(samples, k + 1, k + 1, samples[k].ch);
  }

  // ---- The order comes from the timetable ----

  function PushOrder(log: seq<Action>): seq<Channel> {
    if |log| == 0 then []
    else PushOrder(log[..|log| - 1]) + if log[|log| - 1].what.Push? then [log[|log| - 1].what.ch] else []
  }

  predicate IsStart(a: seq<Channel>, b: seq<Channel>) {
    |a| <= |b| && b[..|a|] == a
  }

  lemma OrderLogs(q: Plan, c: nat, what: What)
    ensures PushOrder(q.Log(c, what).log) == PushOrder(q.log) + if what.Push? then [what.ch] else []
  {
    assert q.Log(c, what).log[..|q.log|] == q.log;
  }

  function NeverFull(): nat -> bool {
    (_: nat) => false
  }

  /** As long as a page has room it is filled in the order of the page that never fills; then it stays behind. */
  ghost predicate Follows(q: Plan, endless: Plan) {
    && IsStart(PushOrder(q.log), PushOrder(endless.log)) && !endless.full
    && (!q.full ==> PushOrder(q.log) == PushOrder(endless.log))
  }

  lemma ChannelFollows(q: Plan, endless: Plan, w: Counter, other: Counter, ch: Channel, fills: nat -> bool, c: nat)
    requires w.Valid() && Follows(q, endless)
    ensures Follows(q.Channel(w, other, ch, fills, c), endless.Channel(w, other, ch, NeverFull(), c))
  {
    ChannelOrder(q, w, other, ch, fills, c);
    ChannelOrder(endless, w, other, ch, NeverFull(), c);
  }

  lemma ChannelOrder(q: Plan, w: Counter, other: Counter, ch: Channel, fills: nat -> bool, c: nat)
    requires w.Valid()
    ensures PushOrder(q.Channel(w, other, ch, fills, c).log) ==
      PushOrder(q.log) + if !q.full && IsPushTime(w, c) then [ch] else []
  {
    OrderLogs(q, c, Push(ch));
    OrderLogs(q, c, Start(ch));
    var pushed := q.Log(c, Push(ch));
    OrderLogs(pushed, c, Start(Other(ch)));
    OrderLogs(pushed, c, Stop(ch));
  }

  lemma {:induction false} TimetableFollows(p: Counter, t: Counter, fills: nat -> bool, n: nat)
    requires p.Valid() && t.Valid()
    ensures Follows(Timetable(p, t, fills, n), Timetable(p, t, NeverFull(), n))
  {
    if n > 0 {
      TimetableFollows(p, t, fills, n - 1);
      var q, e := Timetable(p, t, fills, n - 1), Timetable(p, t, NeverFull(), n - 1);
      ChannelFollows(q, e, p, t, Pressure, fills, n - 1);
      ChannelFollows(q.Channel(p, t, Pressure, fills, n - 1), e.Channel(p, t, Pressure, NeverFull(), n - 1),
                     t, p, Temperature, fills, n - 1);
    }
  }

  /** A reader that knows only the periods and heating times, not when the page filled, decodes the page the loop
      recorded: its values are the samples stored, in the order of the endless timetable. */
  lemma PageDecodes(p: Counter, t: Counter, world: World, m: nat, samples: seq<Sample>)
    requires Fresh(p) && Fresh(t) && (p.enabled || t.enabled) && forall k :: world.cost(k) <= 1
    requires SlowSteps(JumpStep(world), Milliseconds(world), Begin(p, t), m) <= TICK_MAX
    requires AllValid(samples) && Channels(samples) == PushOrder(Iterate(JumpStep(world), Begin(p, t), m).log)
    ensures var n := SlowSteps(JumpStep(world), Milliseconds(world), Begin(p, t), m);
      var order := PushOrder(Timetable(p, t, NeverFull(), n).log);
      |samples| <= |order| && Decode(order[..|samples|], Encode(samples)) == Held(samples)
  {
    LoopKeepsTimetable(p, t, world, m);
    TimetableFollows(p, t, world.fills, SlowSteps(JumpStep(world), Milliseconds(world), Begin(p, t), m));
    DecodeRecovers(samples);
  }

  // ---- The order when passes take longer ----

  /** The channels due at time `c`. */
  function DueOrder(p: Counter, t: Counter, c: nat): seq<Channel>
    requires p.Valid() && t.Valid()
  {
    (if Due(p, c) then [Pressure] else []) + if Due(t, c) then [Temperature] else []
  }

  /** The channels due in the first `n` milliseconds. */
  function AllDue(p: Counter, t: Counter, n: nat): seq<Channel>
    requires p.Valid() && t.Valid()
  {
    if n == 0 then [] else AllDue(p, t, n - 1) + DueOrder(p, t, n - 1)
  }

  /** Nothing is due inside a pass. */
  ghost predicate NothingLost(p: Counter, t: Counter, world: World, n: nat)
    requires p.Valid() && t.Valid()
  {
    forall b: nat, c: nat | c < n && InPass(p, t, world, b, c) :: !Due(p, c) && !Due(t, c)
  }

  /** What dealing with a channel's event logs. */
  function EventLog(ch: Channel, c: nat, event: Option<Event>, fills: bool): seq<Action> {
    match event
    case None => []
    case Some(Preheat) => [At(c, Start(ch))]
    case Some(Measure) => [At(c, Push(ch))]
    case Some(MeasureAndSleep) => [At(c, Push(ch))] + if fills then [] else [At(c, Stop(ch))]
  }

  lemma ProcessLog(s: Rec, ch: Channel, world: World)
    requires s.Valid()
    ensures s.Process(ch, world).0.log == s.log + EventLog(ch, s.p.counter, s.Get(ch).IsEvent(), world.fills(s.pushes))
  {
  }

  lemma {:induction false} OrderJoins(a: seq<Action>, b: seq<Action>)
    ensures PushOrder(a + b) == PushOrder(a) + PushOrder(b)
  {
    if |b| > 0 {
      var front := b[..|b| - 1];
      OrderJoins(a, front);
      assert (a + b)[..|a + b| - 1] == a + front;
    } else {
      assert a + b == a;
    }
  }

  lemma EventOrder(ch: Channel, c: nat, event: Option<Event>, fills: bool)
    ensures PushOrder(EventLog(ch, c, event, fills)) ==
      if event == Some(Measure) || event == Some(MeasureAndSleep) then [ch] else []
  {
    assert PushOrder([]) == [];
    var push, stop := [At(c, Push(ch))], [At(c, Stop(ch))];
    assert PushOrder(push) == [ch] && PushOrder(stop) == [] by {
      assert push[..0] == [] && stop[..0] == [];
    }
    assert [At(c, Start(ch))][..0] == [];
    OrderJoins(push, stop);
    assert push + [] == push;
  }

  lemma ProcessOrder(s: Rec, ch: Channel, world: World)
    requires s.Valid() && Heated(s.Get(ch))
    ensures PushOrder(s.Process(ch, world).0.log) ==
      PushOrder(s.log) + if Due(s.Get(ch), s.p.counter) then [ch] else []
  {
    var event := s.Get(ch).IsEvent();
    HeatedMeasures(s.Get(ch));
    ProcessLog(s, ch, world);
    OrderJoins(s.log, EventLog(ch, s.p.counter, event, world.fills(s.pushes)));
    EventOrder(ch, s.p.counter, event, world.fills(s.pushes));
  }

  lemma FinishOrder(s: Rec, other: Channel)
    ensures PushOrder(s.Finish(other).log) == PushOrder(s.log)
  {
    var start := [At(s.p.counter, Start(other))];
    OrderJoins(s.log, start);
    assert start[..0] == [] && PushOrder(start) == [];
  }

  /** A pass stores what is due, or what is due up to the value that fills the page. */
  lemma LookedOrder(s: Rec, world: World)
    requires s.Valid() && Heated(s.p) && Heated(s.t) && !s.Over()
    ensures var due := PushOrder(s.log) + DueOrder(s.p, s.t, s.p.counter);
      var r := s.Looked(world);
      IsStart(PushOrder(r.log), due) && (!r.full ==> PushOrder(r.log) == due)
  {
    var (s1, filled) := s.Process(Pressure, world);
    var first := if Due(s.p, s.p.counter) then [Pressure] else [];
    var second := if Due(s.t, s.p.counter) then [Temperature] else [];
    ProcessOrder(s, Pressure, world);
    ProcessOther(s, Pressure, world, 0);
    StartsAppend(PushOrder(s.log), first, second);
    if filled {
      FinishOrder(s1, Temperature);
    } else {
      LookedRestOrder(s1, world, second);
    }
  }

  lemma LookedRestOrder(s: Rec, world: World, second: seq<Channel>)
    requires s.Valid() && Heated(s.t) && second == if Due(s.t, s.p.counter) then [Temperature] else []
    ensures PushOrder(s.LookedRest(world).log) == PushOrder(s.log) + second
  {
    var (s1, filled) := s.Process(Temperature, world);
    ProcessOrder(s, Temperature, world);
    FinishOrder(s1, Pressure);
  }

  lemma StartsAppend(a: seq<Channel>, b: seq<Channel>, c: seq<Channel>)
    ensures a + (b + c) == (a + b) + c && IsStart(a + b, a + (b + c)) && IsStart(a + (b + c), a + (b + c))
  {
  }

  lemma MillisecondOrder(x: Sim, world: World, due: seq<Channel>)
    requires x.rec.Valid() && Heated(x.rec.p) && Heated(x.rec.t) && !x.rec.Over()
    requires due == DueOrder(x.rec.p, x.rec.t, x.rec.p.counter) && (x.busy > 0 ==> due == [])
    ensures var r := x.Millisecond(world).rec; var all := PushOrder(x.rec.log) + due;
      IsStart(PushOrder(r.log), all) && (!r.Over() ==> PushOrder(r.log) == all)
  {
    if x.busy == 0 && x.rec.HasEvent() {
      LookedOrder(x.rec, world);
    } else if x.busy == 0 {
      HeatedMeasures(x.rec.p);
      HeatedMeasures(x.rec.t);
    }
  }

  /** If nothing is lost the page is filled in the order in which values are due, and then it stays behind. */
  lemma {:induction false} SimOrder(p: Counter, t: Counter, world: World, n: nat)
    requires Fresh(p) && Fresh(t) && (p.enabled || t.enabled) && Heated(p) && Heated(t) && NothingLost(p, t, world, n)
    ensures var r := SimAt(p, t, world, n).rec;
      IsStart(PushOrder(r.log), AllDue(p, t, n)) && (!r.Over() ==> PushOrder(r.log) == AllDue(p, t, n))
  {
    if n > 0 {
      var m := n - 1;
      SimOrder(p, t, world, m);
      SimRuns(p, t, world, m);
      NextMillisecond(p, t, world, m);
      if !SimAt(p, t, world, m).rec.Over() {
        NothingDueWhenBusy(p, t, world, m, n);
        MillisecondOrder(SimAt(p, t, world, m), world, DueOrder(p, t, m));
      }
    }
  }

  lemma NothingDueWhenBusy(p: Counter, t: Counter, world: World, c: nat, n: nat)
    requires Fresh(p) && Fresh(t) && (p.enabled || t.enabled) && c < n && NothingLost(p, t, world, n)
    requires !SimAt(p, t, world, c).rec.Over()
    ensures SimAt(p, t, world, c).busy > 0 ==> DueOrder(p, t, c) == []
  {
    if SimAt(p, t, world, c).busy > 0 {
      var b := BusyInPass(p, t, world, c);
    }
  }

  lemma {:induction false} TimetableOrder(p: Counter, t: Counter, n: nat)
    requires p.Valid() && t.Valid() && Heated(p) && Heated(t)
    ensures PushOrder(Timetable(p, t, NeverFull(), n).log) == AllDue(p, t, n)
    ensures !Timetable(p, t, NeverFull(), n).full
  {
    if n > 0 {
      var m := n - 1;
      TimetableOrder(p, t, m);
      TimetableNext(Timetable(p, t, NeverFull(), m), p, t, m);
    }
  }

  lemma TimetableNext(q: Plan, p: Counter, t: Counter, c: nat)
    requires p.Valid() && t.Valid() && Heated(p) && Heated(t) && !q.full
    ensures var r := q.Channel(p, t, Pressure, NeverFull(), c).Channel(t, p, Temperature, NeverFull(), c);
      !r.full && PushOrder(r.log) == PushOrder(q.log) + DueOrder(p, t, c)
  {
    var q1 := q.Channel(p, t, Pressure, NeverFull(), c);
    NeverFullStays(q, p, t, Pressure, c);
    NeverFullStays(q1, t, p, Temperature, c);
    ChannelOrder(q, p, t, Pressure, NeverFull(), c);
    ChannelOrder(q1, t, p, Temperature, NeverFull(), c);
    DueIsPushTime(p, c);
    DueIsPushTime(t, c);
    StartsAppend(PushOrder(q.log), if Due(p, c) then [Pressure] else [], if Due(t, c) then [Temperature] else []);
  }

  lemma NeverFullStays(q: Plan, w: Counter, other: Counter, ch: Channel, c: nat)
    requires w.Valid() && !q.full
    ensures !q.Channel(w, other, ch, NeverFull(), c).full
  {
  }

  lemma DueIsPushTime(w: Counter, c: nat)
    requires w.Valid() && Heated(w)
    ensures IsPushTime(w, c) <==> Due(w, c)
  {
    PushTimesAreMultiples(w, c);
  }

  /** The same whatever passes cost, as long as nothing is due inside a pass. */
  lemma PageDecodesUnlessLost(p: Counter, t: Counter, world: World, m: nat, samples: seq<Sample>)
    requires Fresh(p) && Fresh(t) && (p.enabled || t.enabled) && Heated(p) && Heated(t)
    requires NothingLost(p, t, world, SlowSteps(JumpStep(world), Milliseconds(world), Begin(p, t), m))
    requires AllValid(samples) && Channels(samples) == PushOrder(Iterate(JumpStep(world), Begin(p, t), m).log)
    ensures var n := SlowSteps(JumpStep(world), Milliseconds(world), Begin(p, t), m);
      var order := PushOrder(Timetable(p, t, NeverFull(), n).log);
      |samples| <= |order| && Decode(order[..|samples|], Encode(samples)) == Held(samples)
  {
    var n := SlowSteps(JumpStep(world), Milliseconds(world), Begin(p, t), m);
    JumpsAreTicks(Begin(p, t), world, m);
    SimOrder(p, t, world, n);
    TimetableOrder(p, t, n);
    DecodeRecovers(samples);
  }

  // ---- The page being written ----

  class DataBlock {
    const prevs: array<nat>
    var counter: nat
    var values: seq<int>
    const fills: nat -> bool
    ghost var samples: seq<Sample>

    constructor (fills: nat -> bool)
      ensures Valid() && samples == [] && this.fills == fills && fresh(prevs)
    {
      prevs := new nat[2](_ => 0);
      counter, values, this.fills, samples := 0, [], fills, [];
    }

    ghost predicate Valid()
      reads this, prevs
    {
      && prevs.Length == 2 && Prevs(prevs[0], prevs[1]) == PrevsAfter(samples)
      && values == Encode(samples) && counter == |samples| && AllValid(samples)
    }

    /** Stores a sample; the flag says that the page is full. */
    method PushData(result: Option<nat>, ch: Channel) returns (full: bool)
      requires Valid() && Sample(ch, result).Valid()
      modifies this`counter, this`values, this`samples, prevs
      ensures Valid() && samples == old(samples) + [Sample(ch, result)] && full == fills(old(counter))
    {
      var i := if ch.Pressure? then 0 else 1;
      var v := 0;
      if result.Some? {
        v := WrapI32(ToI32(result.value) - ToI32(prevs[i]));
        prevs[i] := result.value;
      }
      full := fills(counter);
      counter := counter + 1;
      values := values + [v];
      AppendSample(samples, Sample(ch, result));
      samples := samples + [Sample(ch, result)];
    }
  }

  lemma AppendSample(samples: seq<Sample>, s: Sample)
    ensures Encode(samples + [s]) == Encode(samples) + [Difference(s.result, PrevsAfter(samples).Get(s.ch))]
    ensures PrevsAfter(samples + [s]) ==
      if s.result.Some? then PrevsAfter(samples).Set(s.ch, s.result.value) else PrevsAfter(samples)
  {
    assert (samples + [s])[..|samples|] == samples;
  }
}
