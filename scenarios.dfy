/**
 * Client runs of the registry: the sequences of calls an application makes
 * (initialise, create, tick, run the tasks), with what each run must leave
 * behind.
 */
module Scenarios {
  import opened TimerSpec
  import opened STimer

  /** One pass and one tick over a list of one handle. */
  lemma OneHandle(h: Handle, t: TimerState)
    ensures TickAll([t]) == [t.(cnt := Tick(t.cnt))]
    ensures Reloaded([t]) == [Reload(t)]
    ensures Fired([h], [t]) == if Due(t) then [h] else []
    ensures Unlinked([t]) == if DueOneShot(t) then 1 else 0
    ensures Kept([h], [t]) == if DueOneShot(t) then [] else [h]
  {
    assert [h][..0] == [] && [t][..0] == [];
  }

  /** One pass over a list of two handles. */
  lemma TwoHandles(a: Handle, b: Handle, t: TimerState, u: TimerState)
    ensures Reloaded([t, u]) == [Reload(t), Reload(u)]
    ensures Fired([a, b], [t, u]) == Fired([a], [t]) + if Due(u) then [b] else []
    ensures Unlinked([t, u]) == if Unlinked([t]) == 1 && DueOneShot(u) then 2 else Unlinked([t])
    ensures Kept([a, b], [t, u]) == Kept([a], [t]) + if DueOneShot(u) then [] else [b]
  {
    assert [a, b][..1] == [a] && [t, u][..1] == [t];
  }

  /** A registry on a 1000 microsecond tick holding one freshly created timer. */
  method StartOne(mode: Mode, delayMs: u32) returns (r: Registry, h: Handle)
    ensures fresh(r) && fresh(h)
    ensures r.Valid() && r.callbackTime == 1000 && r.list == [h] && r.fired == []
    ensures r.View() == [TimerState(mode, delayMs, delayMs)]
  {
    r := new Registry();
    r.Initialize(1000);
    h := new Handle();
    var _ := r.Create(h, mode, delayMs, 1);
    TicksForOneMillisecond(delayMs);
  }

  /**
   * Four interrupts on a periodic 5 ms timer, then a pass: the timer is one
   * tick short, so nothing fires and nothing is unlinked.
   */
  method FourTicks(r: Registry, h: Handle)
    requires r.Valid() && r.list == [h] && r.fired == []
    requires r.View() == [TimerState(Periodic, 5, 5)]
    modifies r, h
    ensures r.Valid() && r.list == [h] && r.fired == []
    ensures r.View() == [TimerState(Periodic, 1, 5)]
  {
    var c: u32 := 5;
    while c > 1
      invariant 1 <= c <= 5
      invariant r.Valid() && r.list == [h] && r.fired == []
      invariant r.View() == [TimerState(Periodic, c, 5)]
    {
      OneHandle(h, TimerState(Periodic, c, 5));
      r.InterruptHandler();
      c := c - 1;
    }
    OneHandle(h, TimerState(Periodic, 1, 5));
    r.Tasks();
  }

  /**
   * The fifth interrupt and a pass: the periodic timer is due, fires once and
   * is reloaded, and it stays linked.
   */
  method FifthTick(r: Registry, h: Handle)
    requires r.Valid() && r.list == [h] && r.fired == []
    requires r.View() == [TimerState(Periodic, 1, 5)]
    modifies r, h
    ensures r.Valid() && r.list == [h] && r.fired == [h]
    ensures r.View() == [TimerState(Periodic, 5, 5)]
  {
    OneHandle(h, TimerState(Periodic, 1, 5));
    r.InterruptHandler();
    OneHandle(h, TimerState(Periodic, 0, 5));
    r.Tasks();
  }

  /**
   * A periodic 5 ms timer on a 1000 microsecond hardware tick: four
   * interrupts leave it one tick short and a pass fires nothing; the fifth
   * interrupt makes it due, the next pass fires it once, reloads it to 5 and
   * leaves it linked.
   */
  method PeriodicRun() returns (r: Registry, h: Handle, early: u32, reload: u32)
    ensures early == 1 && reload == 5
    ensures r.fired == [h] && r.timerList == h && h.next == null
  {
    r, h := StartOne(Periodic, 5);
    FourTicks(r, h);
    early := h.cnt;
    FifthTick(r, h);
    LinkedAt(r.list, 0);
    reload := h.cnt;
  }

  /** Two interrupts on a one-shot 2 ms timer: it counts down to zero and is due. */
  method TwoTicks(r: Registry, h: Handle)
    requires r.Valid() && r.list == [h] && r.fired == []
    requires r.View() == [TimerState(OneShot, 2, 2)]
    modifies h
    ensures r.Valid() && r.list == [h] && r.fired == []
    ensures r.View() == [TimerState(OneShot, 0, 2)]
  {
    OneHandle(h, TimerState(OneShot, 2, 2));
    r.InterruptHandler();
    OneHandle(h, TimerState(OneShot, 1, 2));
    r.InterruptHandler();
  }

  /**
   * A one-shot 2 ms timer on a 1000 microsecond hardware tick: after two
   * interrupts it is due, the pass fires it once and unlinks it, and
   * removing it afterwards finds nothing.
   */
  method OneShotRun() returns (r: Registry, h: Handle, again: bool)
    ensures r.fired == [h] && r.timerList == null && !again
  {
    r, h := StartOne(OneShot, 2);
    TwoTicks(r, h);
    OneHandle(h, TimerState(OneShot, 0, 2));
    r.Tasks();
    again := r.Remove(h);
  }

  /**
   * A registry on a 1000 microsecond tick where a one-shot timer with a zero
   * delay was created first and a periodic 5 ms timer after it, so that the
   * periodic one is the head.
   */
  method StartPair() returns (r: Registry, p: Handle, o: Handle)
    ensures fresh(r) && fresh(p) && fresh(o)
    ensures r.Valid() && r.list == [p, o] && r.fired == []
    ensures r.View() == [TimerState(Periodic, 5, 5), TimerState(OneShot, 0, 0)]
  {
    r, o := StartOne(OneShot, 0);
    p := new Handle();
    var _ := r.Create(p, Periodic, 5, 2);
    TicksForOneMillisecond(5);
    assert r.list == [p, o];
  }

  /**
   * A due one-shot timer behind a periodic one, with the passes as written:
   * the first pass fires it but cannot unlink it, and since its reload count
   * is 0 the next pass fires it again.
   */
  method OneShotBehindPeriodic() returns (r: Registry, p: Handle, o: Handle)
    ensures r.fired == [o, o] && r.timerList == p && p.next == o
  {
    r, p, o := StartPair();
    var tp, to := TimerState(Periodic, 5, 5), TimerState(OneShot, 0, 0);
    OneHandle(p, tp);
    TwoHandles(p, o, tp, to);
    r.Tasks();
    r.Tasks();
    LinkedAt(r.list, 0);
  }

  /** The first corrected pass over the pair: the one-shot timer fires and is unlinked. */
  method FirstFixedPass(r: Registry, p: Handle, o: Handle)
    requires r.Valid() && r.list == [p, o] && r.fired == []
    requires r.View() == [TimerState(Periodic, 5, 5), TimerState(OneShot, 0, 0)]
    modifies r, p, o
    ensures r.Valid() && r.list == [p] && r.fired == [o]
    ensures r.View() == [TimerState(Periodic, 5, 5)]
  {
    var tp, to := TimerState(Periodic, 5, 5), TimerState(OneShot, 0, 0);
    OneHandle(p, tp);
    TwoHandles(p, o, tp, to);
    r.TasksFixed();
  }

  /**
   * The same registry with the corrected passes: the one-shot timer fires
   * once and is unlinked, and the periodic one is left alone.
   */
  method OneShotBehindPeriodicFixed() returns (r: Registry, p: Handle, o: Handle)
    ensures r.fired == [o] && r.timerList == p && p.next == null
  {
    r, p, o := StartPair();
    FirstFixedPass(r, p, o);
    OneHandle(p, TimerState(Periodic, 5, 5));
    r.TasksFixed();
    LinkedAt(r.list, 0);
  }
}
