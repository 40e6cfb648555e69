/** The Windows theme detector: a listener set and the handle of the thread that
    polls the registry while at least one listener is registered. The model
    treats every method as atomic; this is an abstraction chosen for the whole
    model, since in the source only `registerListener` and `removeListener` are
    `synchronized` (the thread's loop and the constructors are not). */
module ThemeDetector {
  import opened Wrappers
  import Registry
  import opened PollLoop

  /** How a call of the detector ends: normally, or with the
      `NullPointerException` the source throws. */
  datatype Outcome = Returned | NullPointerException

  /** The polling thread. The thread's own start, name, daemon flag and priority
      are not modelled; its loop is `Run`. */
  class DetectorThread {
    /** The theme seen at the last pass (or at creation). */
    var lastValue: bool
    /** Whether `interrupt()` has been called on this thread. */
    var interrupted: bool

    /** The constructor samples the theme once, so that the first pass only
        reports a change, never the initial state. */
    constructor (appsUseLightTheme: Option<int>)
      ensures lastValue == Registry.IsDark(appsUseLightTheme)
      ensures !interrupted
    {
      lastValue := Registry.IsDark(appsUseLightTheme);
      interrupted := false;
    }

    /** Thread.interrupt(). */
    method Interrupt()
      modifies this
      ensures interrupted && lastValue == old(lastValue)
    {
      interrupted := true;
    }

    /** run(): one pass per tick until the thread is interrupted. A pass reads
        the theme and, on a change, stores it and notifies every listener; an
        interrupt arriving during a pass ends the loop after that pass (the
        timed wait throws and the loop breaks). `polled` is the number of
        readings taken; the ticks after it are never looked at. */
    method Run(ticks: seq<Tick>) returns (log: seq<Batch>, polled: nat)
      modifies this
      ensures polled == if old(interrupted) then 0 else Polled(ticks)
      ensures interrupted == (old(interrupted) || exists j :: 0 <= j < polled && ticks[j].interrupt)
      ensures lastValue == Fold(old(lastValue), ticks[..polled]).lastValue
      ensures Delivered(log, Fold(old(lastValue), ticks[..polled]).events, ticks)
    {
      ghost var v0 := lastValue;
      ghost var wasInterrupted := interrupted;
      var i := 0;
      log := [];
      while !interrupted && i < |ticks|
        invariant 0 <= i <= |ticks|
        invariant wasInterrupted ==> i == 0 && interrupted
        invariant !wasInterrupted ==> (interrupted <==> 0 < i && ticks[i - 1].interrupt)
        invariant forall j :: 0 <= j < i - 1 ==> !ticks[j].interrupt
        invariant lastValue == Fold(v0, ticks[..i]).lastValue
        invariant Delivered(log, Fold(v0, ticks[..i]).events, ticks)
      {
        var tick := ticks[i];
        var current := Registry.IsDark(tick.reading);
        assert ticks[..i + 1][..i] == ticks[..i];
        if current != lastValue {
          lastValue := current;
          var calls := NotifyListeners(tick.listeners, current, tick.failing);
          log := log + [Batch(i, current, calls)];
        }
        if tick.interrupt {
          interrupted := true;
        }
        i := i + 1;
      }
      polled := i;
      if !wasInterrupted {
        PolledIs(ticks, i);
      }
    }
  }

  /** The detector itself. `detectors` records, in order, every thread this
      detector has started; its length is the number of threads started. */
  class WindowsThemeDetector {
    var listeners: set<Listener>
    var detectorThread: DetectorThread?
    ghost var detectors: seq<DetectorThread>

    /** The lifecycle invariant: a handle is held exactly while a listener is
        registered, the handle is the newest thread, and every older thread
        has been interrupted, so at most one thread is not interrupted and it
        is the current one. */
    ghost predicate Valid()
      reads this, detectors
    {
      (detectorThread != null <==> listeners != {}) &&
      (detectorThread != null ==> |detectors| > 0 && detectorThread == detectors[|detectors| - 1]) &&
      (forall k :: 0 <= k < |detectors| ==>
         detectors[k].interrupted || (detectorThread != null && k == |detectors| - 1))
    }

    /** The current thread, if any, has not been interrupted: the detector
        actually polls. */
    ghost predicate Live()
      reads this, detectorThread
    {
      detectorThread != null ==> !detectorThread.interrupted
    }

    /** The threads that have not been interrupted. */
    ghost function Running(): set<DetectorThread>
      reads this, detectors
    {
      set k | 0 <= k < |detectors| && !detectors[k].interrupted :: detectors[k]
    }

    constructor ()
      ensures Valid() && Live()
      ensures listeners == {} && detectorThread == null && detectors == []
    {
      listeners := {};
      detectorThread := null;
      detectors := [];
    }

    /** registerListener(): a null listener throws before anything changes.
        Otherwise the listener is added, and a new thread is created (sampling
        the theme from `appsUseLightTheme`) when this call added the only
        listener or when the current thread has been interrupted. */
    method RegisterListener(listener: Option<Listener>, appsUseLightTheme: Option<int>)
      returns (r: Outcome)
      requires Valid()
      modifies this
      ensures Valid()
      ensures listener == None ==>
        r == NullPointerException && listeners == old(listeners) &&
        detectorThread == old(detectorThread) && detectors == old(detectors)
      ensures listener != None ==> r == Returned && listeners == old(listeners) + {listener.value}
      ensures listener != None ==>
        var singleListener := listener.value !in old(listeners) && |listeners| == 1;
        var threadInterrupted := old(detectorThread) != null && old(detectorThread.interrupted);
        if singleListener || threadInterrupted then
          fresh(detectorThread) && detectors == old(detectors) + [detectorThread] &&
          detectorThread.lastValue == Registry.IsDark(appsUseLightTheme) && !detectorThread.interrupted
        else
          detectorThread == old(detectorThread) && detectors == old(detectors)
      ensures r == Returned ==> Live()
    {
      if listener == None {
        return NullPointerException;
      }
      var listenerAdded := listener.value !in listeners;
      listeners := listeners + {listener.value};
      var singleListener := listenerAdded && |listeners| == 1;
      var threadInterrupted := detectorThread != null && detectorThread.interrupted;
      if singleListener || threadInterrupted {
        detectorThread := new DetectorThread(appsUseLightTheme);
        detectors := detectors + [detectorThread];
      }
      r := Returned;
    }

    /** removeListener(), as written: the listener (null removes nothing) is
        taken out, and when no listener is left the current thread is
        interrupted and its handle dropped. With no thread held at that
        point the handle is dereferenced anyway and the call throws. */
    method RemoveListener(listener: Option<Listener>) returns (r: Outcome)
      requires Valid()
      modifies this, detectorThread
      ensures Valid()
      ensures listeners == old(listeners) - Named(listener)
      ensures detectors == old(detectors)
      ensures r == NullPointerException <==> listeners == {} && old(detectorThread) == null
      ensures r == NullPointerException <==> old(listeners) == {}
      ensures listeners != {} ==> detectorThread == old(detectorThread)
      ensures listeners == {} ==> detectorThread == null
      ensures old(detectorThread) != null ==>
        old(detectorThread).lastValue == old(detectorThread.lastValue) &&
        old(detectorThread).interrupted == (old(detectorThread.interrupted) || listeners == {})
      ensures old(Live()) ==> Live()
    {
      if listener != None {
        listeners := listeners - {listener.value};
      }
      if listeners == {} {
        if detectorThread == null {
          return NullPointerException;
        }
        detectorThread.Interrupt();
        detectorThread := null;
      }
      r := Returned;
    }

    /** removeListener() with the dereference guarded. The argument may be
        null and removing an unregistered listener changes nothing, so the
        call on an empty detector is a no-op here instead of throwing. */
    method RemoveListenerGuarded(listener: Option<Listener>)
      requires Valid()
      modifies this, detectorThread
      ensures Valid()
      ensures listeners == old(listeners) - Named(listener)
      ensures detectors == old(detectors)
      ensures listeners != {} ==> detectorThread == old(detectorThread)
      ensures listeners == {} ==> detectorThread == null
      ensures old(detectorThread) != null ==>
        old(detectorThread).lastValue == old(detectorThread.lastValue) &&
        old(detectorThread).interrupted == (old(detectorThread.interrupted) || listeners == {})
      ensures old(Live()) ==> Live()
    {
      if listener != None {
        listeners := listeners - {listener.value};
      }
      if listeners == {} && detectorThread != null {
        detectorThread.Interrupt();
        detectorThread := null;
      }
    }

    /** Under the invariant, the running threads are the current thread when
        it is live and none otherwise: no thread leaks and none is doubled. */
    lemma RunningThreads()
      requires Valid()
      ensures Running() <= (if detectorThread == null then {} else {detectorThread})
      ensures Live() ==> Running() == (if detectorThread == null then {} else {detectorThread})
    {
      if detectorThread != null && Live() {
        assert detectors[|detectors| - 1] in Running();
      }
    }
  }

  /** The set a (possibly null) listener argument names. */
  function Named(listener: Option<Listener>): set<Listener>
  {
    if listener == None then {} else {listener.value}
  }

  /** One call on the detector, with the registry value a new thread would
      sample. */
  datatype Op =
    | Register(listener: Option<Listener>, appsUseLightTheme: Option<int>)
    | Remove(listener: Option<Listener>)

  /** Any sequence of calls on a new detector (with no interrupt from
      elsewhere): afterwards a thread handle is held exactly when a listener
      is registered, and the only thread still running is that one. The last
      outcome is returned. */
  method Replay(ops: seq<Op>) returns (d: WindowsThemeDetector, r: Outcome)
    ensures fresh(d) && d.Valid() && d.Live()
    ensures d.detectorThread != null <==> d.listeners != {}
    ensures d.Running() == if d.listeners == {} then {} else {d.detectorThread}
  {
    d := new WindowsThemeDetector();
    r := Returned;
    for i := 0 to |ops|
      invariant fresh(d) && d.Valid() && d.Live()
      invariant d.detectorThread != null ==> fresh(d.detectorThread)
    {
      match ops[i]
      case Register(l, v) =>
        r := d.RegisterListener(l, v);
      case Remove(l) =>
        r := d.RemoveListener(l);
    }
    d.RunningThreads();
  }

  /** Registering one listener twice keeps one entry and starts one thread;
      removing it once empties the detector and stops that thread. */
  method RegisterTwiceRemoveOnce(l: Listener, appsUseLightTheme: Option<int>)
    returns (remaining: set<Listener>, threadHeld: bool, ghost started: nat, ghost running: nat)
    ensures remaining == {} && !threadHeld && started == 1 && running == 0
  {
    var d := new WindowsThemeDetector();
    var r := d.RegisterListener(Some(l), appsUseLightTheme);
    assert |d.listeners| == 1;
    r := d.RegisterListener(Some(l), appsUseLightTheme);
    assert d.listeners == {l};
    r := d.RemoveListener(Some(l));
    d.RunningThreads();
    remaining, threadHeld := d.listeners, d.detectorThread != null;
    started, running := |d.detectors|, |d.Running()|;
  }

  /** A listener added after the detector was emptied gets a second thread
      whose last value is sampled at that moment. */
  method RestartSamplesAfresh(l: Listener, first: Option<int>, second: Option<int>)
    returns (baseline: bool, ghost started: nat)
    ensures baseline == Registry.IsDark(second) && started == 2
  {
    var d := new WindowsThemeDetector();
    var r := d.RegisterListener(Some(l), first);
    r := d.RemoveListener(Some(l));
    r := d.RegisterListener(Some(l), second);
    baseline, started := d.detectorThread.lastValue, |d.detectors|;
  }

  /** A thread interrupted from elsewhere is replaced by the next
      registration, even of a listener already registered. */
  method InterruptedThreadIsReplaced(l: Listener, appsUseLightTheme: Option<int>)
    returns (replaced: bool, remaining: set<Listener>, ghost started: nat)
    ensures replaced && remaining == {l} && started == 2
  {
    var d := new WindowsThemeDetector();
    var r := d.RegisterListener(Some(l), appsUseLightTheme);
    var first := d.detectorThread;
    first.Interrupt();
    r := d.RegisterListener(Some(l), appsUseLightTheme);
    replaced, remaining := d.detectorThread != first, d.listeners;
    started := |d.detectors|;
  }

  /** Removing a listener from a detector that never had one throws. */
  method EmptyRemoveThrows(l: Option<Listener>) returns (r: Outcome)
    ensures r == NullPointerException
  {
    var d := new WindowsThemeDetector();
    r := d.RemoveListener(l);
  }

  /** With the guard, the same call leaves the detector empty and without a
      thread. */
  method EmptyRemoveGuardedIsNoOp(l: Option<Listener>) returns (remaining: set<Listener>, threadHeld: bool)
    ensures remaining == {} && !threadHeld
  {
    var d := new WindowsThemeDetector();
    d.RemoveListenerGuarded(l);
    remaining, threadHeld := d.listeners, d.detectorThread != null;
  }
}
