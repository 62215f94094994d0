/** The recorder's page loop, with its two mutable counters. */
module Recorder {
  import opened Bytes
  import opened RecorderSpec

  class ToWriteCounter {
    const period: nat
    const preheat: nat
    const mode: Mode
    const enabled: bool
    var counter: nat
    var state: ChState

    constructor (period: nat, preheat: nat, enabled: bool)
      ensures Model() == ChannelHeated(period, preheat, enabled)
    {
      this.period, this.preheat, this.enabled := period, preheat, enabled;
      mode := if preheat < period then HeatMeasureStop else MeasureOnly;
      counter, state := 0, Ready;
    }

    function Model(): Counter
      reads this
    {
      Counter(period, preheat, counter, mode, state, enabled)
    }

    method AcceptState(state: ChState)
      modifies this`state
      ensures Model() == old(Model()).(state := state)
    {
      this.state := state;
    }

    method Tick(ms: nat)
      requires counter + ms <= TICK_MAX
      modifies this`counter
      ensures Model() == old(Model()).Ticked(ms)
    {
      counter := counter + ms;
    }

    method ToNextEvent() returns (ms: nat)
      requires Model().Valid()
      ensures ms == Model().ToNextEvent()
    {
      if !enabled {
        return TICK_MAX;
      }
      var odd := counter % period;
      var toWrite := if odd == 0 then odd else period - odd;
      if mode == HeatMeasureStop && state == Sleeping && toWrite >= preheat {
        return toWrite - preheat;
      }
      return toWrite;
    }
  }

  /** Everything the loop changes while one page is filled. */
  class PageLoop {
    const p: ToWriteCounter
    const t: ToWriteCounter
    const world: World
    var log: seq<Action>
    var pushes: nat
    var passes: nat
    var full: bool
    var overflowed: bool  // the counters would have left the range of their words

    constructor (p: ToWriteCounter, t: ToWriteCounter, world: World)
      requires p != t && Begin(p.Model(), t.Model()).Valid()
      ensures this.p == p && this.t == t && this.world == world && Valid() && Model() == Begin(p.Model(), t.Model())
    {
      this.p, this.t, this.world := p, t, world;
      log, pushes, passes, full, overflowed := [], 0, 0, false, false;
    }

    function Model(): Rec
      reads this, p, t
    {
      Rec(p.Model(), t.Model(), pushes, passes, log, full, overflowed)
    }

    ghost predicate Valid()
      reads this, p, t
    {
      p != t && Model().Valid()
    }

    function Get(ch: Channel): ToWriteCounter {
      if ch.Pressure? then p else t
    }

    method Send(what: What)
      requires Valid()
      modifies this`log
      ensures Valid() && Model() == old(Model()).Log(what)
    {
      log := log + [At(p.counter, what)];
    }

    /** Stores a value; the flag says that the page is full. */
    method PushData(ch: Channel) returns (filled: bool)
      requires Valid()
      modifies this`log, this`pushes
      ensures Valid() && Model() == old(Model()).Pushed(ch) && filled == world.fills(old(pushes))
    {
      filled := world.fills(pushes);
      Send(Push(ch));
      pushes := pushes + 1;
    }

    method AcceptState(ch: Channel, state: ChState)
      requires Valid()
      modifies p`state, t`state
      ensures Valid() && Model() == old(Model()).Accept(ch, state)
    {
      Get(ch).AcceptState(state);
    }

    method ProcessSensorEvent(ch: Channel) returns (filled: bool)
      requires Valid()
      modifies this`log, this`pushes, p`state, t`state
      ensures Valid() && (Model(), filled) == old(Model()).Process(ch, world)
    {
      match Get(ch).Model().IsEvent()
      case Some(Preheat) =>
        Send(Start(ch));
        AcceptState(ch, Heating);
        return false;
      case Some(Measure) =>
        filled := PushData(ch);
        if !filled {
          AcceptState(ch, Ready);
        }
      case Some(MeasureAndSleep) =>
        filled := PushData(ch);
        if filled {
          AcceptState(ch, Ready);
        } else {
          Send(Stop(ch));
          AcceptState(ch, Sleeping);
        }
      case None =>
        return false;
    }

    method EnableChannel(ch: Channel)
      requires Valid()
      modifies this`log, this`full
      ensures Valid() && Model() == old(Model()).Finish(ch)
    {
      if Get(ch).enabled {
        Send(Start(ch));
      }
      full := true;
    }

    method Tick(ms: nat)
      requires Valid()
      modifies this`overflowed, p`counter, t`counter
      ensures Valid() && Model() == old(Model()).Ticked(ms)
    {
      if p.counter + ms > TICK_MAX {
        overflowed, p.counter, t.counter := true, 0, 0;
        return;
      }
      p.Tick(ms);
      t.Tick(ms);
    }

    method Pass()
      requires Valid()
      modifies this, p, t
      ensures Valid() && Model() == old(Model()).Pass(world)
    {
      var filled := ProcessSensorEvent(Pressure);
      if filled {
        EnableChannel(Temperature);
        return;
      }
      PassRest();
    }

    method PassRest()
      requires Valid()
      modifies this, p, t
      ensures Valid() && Model() == old(Model()).PassRest(world)
    {
      var filled := ProcessSensorEvent(Temperature);
      if filled {
        EnableChannel(Pressure);
        return;
      }
      var elapsed := world.cost(passes);
      passes := passes + 1;
      Tick(if elapsed > 1 then elapsed else 1);
    }

    method SleepAndPass()
      requires Valid() && !full && !overflowed
      modifies this, p, t
      ensures Valid() && Model() == old(Model()).JumpPass(world)
    {
      var toP := p.ToNextEvent();
      var toT := t.ToNextEvent();
      var toNextEvent := if toP <= toT then toP else toT;
      if toNextEvent > 0 {
        Tick(toNextEvent);
      }
      assert old(Model()).Ticked(0) == old(Model());
      if !overflowed {
        Pass();
      }
    }

    /** Fills a page, giving up after `limit` passes. */
    method FillPage(limit: nat) returns (m: nat)
      requires Valid()
      modifies this, p, t
      ensures Valid() && m <= limit && (full || overflowed || m == limit)
      ensures Model() == Iterate(JumpStep(world), old(Model()), m)
    {
      m := 0;
      while m < limit && !full && !overflowed
        invariant Valid() && m <= limit
        invariant Model() == Iterate(JumpStep(world), old(Model()), m)
      {
        NextIteration(JumpStep(world), old(Model()), m);
        SleepAndPass();
        m := m + 1;
      }
    }
  }
}
