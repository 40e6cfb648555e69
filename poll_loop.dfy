/** The body of the detector thread's poll loop: each pass reads the theme,
    compares it with the last value seen and, when it changed, remembers the new
    value and calls every registered listener with it, isolating each call's
    failure. The loop ends once the thread is interrupted. */
module PollLoop {
  import opened Wrappers
  import Registry

  /** A registered `Consumer<Boolean>`, compared by identity. */
  datatype Listener = Listener(id: nat)

  /** One `listener.accept(dark)` call the loop has to make. */
  datatype Notification = Notification(listener: Listener, dark: bool)

  /** One call as it happened, the recorded counterpart of a `Notification`:
      `ok` is false when the listener threw a `RuntimeException`, which the
      loop catches and logs. */
  datatype Call = Call(listener: Listener, dark: bool, ok: bool)

  /** The outcome of one pass: the new last value and the calls to make. */
  datatype Step = Step(lastValue: bool, calls: set<Notification>)

  /** Everything one pass of the loop depends on: the registry value the
      pass reads, the listeners registered while it notifies, the listeners
      whose callback throws at this pass, and whether an interrupt reaches the
      thread during the pass (at the latest while it waits). */
  datatype Tick = Tick(reading: Option<int>, listeners: set<Listener>,
                       failing: set<Listener>, interrupt: bool)

  /** A detected change: the index of the pass, the new value and the calls. */
  datatype Event = Event(tick: nat, dark: bool, calls: set<Notification>)

  /** The loop's state after a run of passes and the changes it detected. */
  datatype Trace = Trace(lastValue: bool, events: seq<Event>)

  /** `calls` is exactly one notification with `dark` for each listener. */
  ghost predicate NotifiesAll(calls: set<Notification>, listeners: set<Listener>, dark: bool)
  {
    forall n :: n in calls <==> n.listener in listeners && n.dark == dark
  }

  /** One pass over a theme reading `current`. */
  function PollStep(lastValue: bool, current: bool, listeners: set<Listener>): (s: Step)
    ensures s.lastValue == current
    ensures current == lastValue ==> s.calls == {}
    ensures current != lastValue ==> NotifiesAll(s.calls, listeners, current)
  {
    if current != lastValue then
      Step(current, set l | l in listeners :: Notification(l, current))
    else
      Step(lastValue, {})
  }

  /** The theme a pass reads. */
  function Dark(t: Tick): bool
  {
    Registry.IsDark(t.reading)
  }

  /** The passes folded one after the other, starting from the value `v0`
      sampled when the thread was created. */
  function Fold(v0: bool, ticks: seq<Tick>): Trace
    decreases |ticks|
  {
    if ticks == [] then Trace(v0, [])
    else
      var before := Fold(v0, ticks[..|ticks| - 1]);
      var t := ticks[|ticks| - 1];
      var s := PollStep(before.lastValue, Dark(t), t.listeners);
      Trace(s.lastValue,
            before.events +
            if s.lastValue != before.lastValue then [Event(|ticks| - 1, Dark(t), s.calls)] else [])
  }

  /** The reading the pass with index `i` is compared with: the previous
      reading, or `v0` for the first pass. */
  function Previous(v0: bool, ticks: seq<Tick>, i: nat): bool
    requires i < |ticks|
  {
    if i == 0 then v0 else Dark(ticks[i - 1])
  }

  /** The theme changed at pass `i`. */
  predicate ChangedAt(v0: bool, ticks: seq<Tick>, i: nat)
    requires i < |ticks|
  {
    Dark(ticks[i]) != Previous(v0, ticks, i)
  }

  /** The latest reading, or `v0` before the first pass. */
  function Latest(v0: bool, ticks: seq<Tick>): bool
  {
    if ticks == [] then v0 else Dark(ticks[|ticks| - 1])
  }

  /** After every pass the last value is the latest reading. */
  lemma {:induction false} FoldLastValue(v0: bool, ticks: seq<Tick>)
    ensures Fold(v0, ticks).lastValue == Latest(v0, ticks)
  {
    if ticks != [] {
      FoldLastValue(v0, ticks[..|ticks| - 1]);
    }
  }

  /** Every detected change is a real change of the reading at its pass,
      carries that reading and notifies every listener registered at that
      pass; the changes come in the order of the passes, one per pass. */
  lemma {:induction false} FoldEventsAreChanges(v0: bool, ticks: seq<Tick>)
    ensures var es := Fold(v0, ticks).events;
      forall k :: 0 <= k < |es| ==>
        es[k].tick < |ticks| && ChangedAt(v0, ticks, es[k].tick) &&
        es[k].dark == Dark(ticks[es[k].tick]) &&
        NotifiesAll(es[k].calls, ticks[es[k].tick].listeners, es[k].dark)
    ensures var es := Fold(v0, ticks).events;
      forall k, m :: 0 <= k < m < |es| ==> es[k].tick < es[m].tick
  {
    if ticks != [] {
      var init := ticks[..|ticks| - 1];
      FoldEventsAreChanges(v0, init);
      FoldLastValue(v0, init);
      var es := Fold(v0, init).events;
      forall k | 0 <= k < |es|
        ensures es[k].tick < |init| && ChangedAt(v0, ticks, es[k].tick)
          && Dark(ticks[es[k].tick]) == Dark(init[es[k].tick])
          && ticks[es[k].tick] == init[es[k].tick]
      {
        assert ChangedAt(v0, init, es[k].tick);
        if es[k].tick > 0 {
          assert ticks[es[k].tick - 1] == init[es[k].tick - 1];
        }
      }
    }
  }

  /** Every change of the reading is detected. */
  lemma {:induction false} FoldDetectsEveryChange(v0: bool, ticks: seq<Tick>, i: nat)
    requires i < |ticks| && ChangedAt(v0, ticks, i)
    ensures exists k :: 0 <= k < |Fold(v0, ticks).events| && Fold(v0, ticks).events[k].tick == i
  {
    var init := ticks[..|ticks| - 1];
    var es := Fold(v0, ticks).events;
    if i == |ticks| - 1 {
      FoldLastValue(v0, init);
      if i > 0 {
        assert init[i - 1] == ticks[i - 1];
      }
      assert Previous(v0, ticks, i) == Fold(v0, init).lastValue;
      var k := |Fold(v0, init).events|;
      assert 0 <= k < |Fold(v0, ticks).events| && Fold(v0, ticks).events[k].tick == i;
    } else {
      assert init[i] == ticks[i];
      if i > 0 {
        assert init[i - 1] == ticks[i - 1];
      }
      assert ChangedAt(v0, init, i);
      FoldDetectsEveryChange(v0, init, i);
      var before := Fold(v0, init).events;
      var k :| 0 <= k < |before| && before[k].tick == i;
      assert es == before + es[|before|..];
      assert es[k] == before[k];
      assert 0 <= k < |Fold(v0, ticks).events| && Fold(v0, ticks).events[k].tick == i;
    }
  }

  /** The value of the last notification, or `v0` when there was none. */
  function LastNotified(v0: bool, es: seq<Event>): bool
  {
    if es == [] then v0 else es[|es| - 1].dark
  }

  /** Each notification differs from the one before it (the first from `v0`). */
  ghost predicate Alternating(v0: bool, es: seq<Event>)
  {
    forall k :: 0 <= k < |es| ==> es[k].dark != LastNotified(v0, es[..k])
  }

  /** Notifications alternate: the first one differs from the value sampled at
      creation, and each later one differs from the one before it; the last
      value is the value of the last notification. */
  lemma {:induction false} FoldAlternates(v0: bool, ticks: seq<Tick>)
    ensures Fold(v0, ticks).lastValue == LastNotified(v0, Fold(v0, ticks).events)
    ensures Alternating(v0, Fold(v0, ticks).events)
  {
    if ticks != [] {
      var init := ticks[..|ticks| - 1];
      FoldAlternates(v0, init);
      var before := Fold(v0, init);
      var after := Fold(v0, ticks);
      assert after.events == before.events + after.events[|before.events|..];
      forall k | 0 <= k < |after.events|
        ensures after.events[k].dark != LastNotified(v0, after.events[..k])
      {
        assert after.events[..k] == if k <= |before.events| then before.events[..k] else before.events;
        if k < |before.events| {
          assert after.events[k] == before.events[k];
        }
      }
    }
  }

  /** The number of passes the loop makes before an interrupt ends it. */
  function Polled(ticks: seq<Tick>): (n: nat)
    ensures n <= |ticks|
    ensures |ticks| > 0 ==> n > 0
    ensures forall j :: 0 <= j < n - 1 ==> !ticks[j].interrupt
    ensures 0 < n < |ticks| ==> ticks[n - 1].interrupt
  {
    if ticks == [] then 0
    else if ticks[0].interrupt then 1
    else 1 + Polled(ticks[1..])
  }

  /** `Polled` is the only count with its three properties. */
  lemma PolledIs(ticks: seq<Tick>, n: nat)
    requires n <= |ticks| && (|ticks| > 0 ==> n > 0)
    requires forall j :: 0 <= j < n - 1 ==> !ticks[j].interrupt
    requires 0 < n < |ticks| ==> ticks[n - 1].interrupt
    ensures n == Polled(ticks)
  {
  }

  /** `calls` is the notification fan-out of one detected change: every
      listener is called exactly once with `dark`, and a call fails exactly
      when that listener throws. */
  ghost predicate FansOut(calls: seq<Call>, listeners: set<Listener>, dark: bool, failing: set<Listener>)
  {
    |calls| == |listeners| &&
    (forall k :: 0 <= k < |calls| ==>
       calls[k].listener in listeners && calls[k].dark == dark &&
       (calls[k].ok <==> calls[k].listener !in failing)) &&
    (forall k, m :: 0 <= k < m < |calls| ==> calls[k].listener != calls[m].listener) &&
    (forall l :: l in listeners ==> exists k :: 0 <= k < |calls| && calls[k].listener == l)
  }

  /** The `for` loop over the listener set, in the set's (unspecified) order,
      with each call in its own try/catch: a failing listener is recorded and
      the loop goes on with the remaining ones. */
  method NotifyListeners(listeners: set<Listener>, dark: bool, failing: set<Listener>)
    returns (calls: seq<Call>)
    ensures FansOut(calls, listeners, dark, failing)
  {
    var remaining := listeners;
    calls := [];
    while remaining != {}
      invariant remaining <= listeners
      invariant |calls| + |remaining| == |listeners|
      invariant forall k :: 0 <= k < |calls| ==>
        calls[k].listener in listeners - remaining && calls[k].dark == dark &&
        (calls[k].ok <==> calls[k].listener !in failing)
      invariant forall k, m :: 0 <= k < m < |calls| ==> calls[k].listener != calls[m].listener
      invariant forall l :: l in listeners - remaining ==>
        exists k :: 0 <= k < |calls| && calls[k].listener == l
      decreases remaining
    {
      var l :| l in remaining;
      var ok := l !in failing;
      ghost var before, rem0 := calls, remaining;
      calls := calls + [Call(l, dark, ok)];
      remaining := remaining - {l};
      forall l' | l' in listeners - remaining
        ensures exists k :: 0 <= k < |calls| && calls[k].listener == l'
      {
        if l' == l {
          assert calls[|before|].listener == l';
        } else {
          assert l' in listeners - rem0;
          var k :| 0 <= k < |before| && before[k].listener == l';
          assert calls[k] == before[k];
        }
      }
    }
    assert listeners - remaining == listeners;
  }

  /** The calls made for one detected change, as they happened: the recorded
      counterpart of an `Event`. */
  datatype Batch = Batch(tick: nat, dark: bool, calls: seq<Call>)

  /** The bridge between what the loop plans (`Event`, `Notification`) and
      what it does (`Batch`, `Call`). `log` delivers the detected changes `es`
      of the passes `ticks`: one batch
      per change, at its pass, with its value, fanned out to the listeners
      registered at that pass. */
  ghost predicate Delivered(log: seq<Batch>, es: seq<Event>, ticks: seq<Tick>)
  {
    |log| == |es| &&
    forall k :: 0 <= k < |log| ==>
      log[k].tick == es[k].tick && log[k].dark == es[k].dark && log[k].tick < |ticks| &&
      FansOut(log[k].calls, ticks[log[k].tick].listeners, log[k].dark, ticks[log[k].tick].failing)
  }

  /** The readings `false, false, true, true, false` after a creation-time
      value of `false`, with one listener: exactly two notifications, `true`
      at the third pass and `false` at the fifth. */
  lemma ExampleTwoNotifications(one: Listener)
    ensures var light := Tick(Some(1), {one}, {}, false);
      var dark := Tick(Some(0), {one}, {}, false);
      var es := Fold(false, [light, light, dark, dark, light]).events;
      |es| == 2 && es[0].tick == 2 && es[0].dark && es[1].tick == 4 && !es[1].dark &&
      es[0].calls == {Notification(one, true)} && es[1].calls == {Notification(one, false)}
  {
    var light := Tick(Some(1), {one}, {}, false);
    var dark := Tick(Some(0), {one}, {}, false);
    var ts := [light, light, dark, dark, light];
    var s1, s2, s3, s4 := [light], [light, light], [light, light, dark], [light, light, dark, dark];
    assert ts[..4] == s4;
    assert s4[..3] == s3;
    assert s3[..2] == s2;
    assert s2[..1] == s1;
    assert s1[..0] == [];
    assert (set l | l in {one} :: Notification(l, true)) == {Notification(one, true)};
    assert (set l | l in {one} :: Notification(l, false)) == {Notification(one, false)};
    assert Fold(false, s1) == Trace(false, []);
    assert Fold(false, s2) == Trace(false, []);
    assert PollStep(false, true, {one}).calls == {Notification(one, true)};
    assert Fold(false, s3) == Trace(true, [Event(2, true, {Notification(one, true)})]);
    assert Fold(false, s4) == Trace(true, [Event(2, true, {Notification(one, true)})]);
    assert NotifiesAll({Notification(one, true)}, {one}, true);
    assert NotifiesAll({Notification(one, false)}, {one}, false);
  }
}
