# Windows theme detector, modelled in Dafny

A model of `WindowsThemeDetector`, the Windows back end of jSystemThemeDetector. The
detector says whether Windows uses a dark theme. It keeps a set of listeners. While
at least one listener is registered, a detector thread re-reads the theme about once a
second. When the theme changes, the thread calls every listener with the new value.

The model has four modules:

- `Wrappers` (`wrappers.dfy`): `Option`, used for a registry value that may be absent and
  for a listener argument that may be null.
- `Registry` (`registry.dfy`): the theme decision `IsDark`, taken over the
  `AppsUseLightTheme` registry value.
- `PollLoop` (`poll_loop.dfy`): one pass of the thread's loop as a pure step.
  - `PollStep` is one pass; `Fold` chains the passes over a sequence of ticks.
  - The lemmas about `Fold` say that notifications happen exactly when the reading changes.
  - `NotifyListeners` is the fan-out loop. Each listener's failure is isolated.
  - `Polled` counts the passes made before an interrupt ends the loop.
- `ThemeDetector` (`theme_detector.dfy`): the two classes of the source.
  - `DetectorThread` has the mutable `lastValue` and `interrupted` fields and the loop `Run`.
  - `WindowsThemeDetector` has the `listeners` set and the `detectorThread` handle. It
    also has a ghost `detectors` sequence, which records every thread started.
  - `Valid()` is the lifecycle invariant. A handle is held exactly while a listener is
    registered. The handle is the newest thread, and every older thread has been
    interrupted.
  - `Live()` says that the held thread is not interrupted.

The registry read is an input: `Option<int>`, where `None` means the value does not
exist. Each pass of the loop is a `Tick`, which fixes what the outside world does
during that pass:

- the registry value read;
- the listener set at that moment;
- which listeners throw;
- whether an interrupt arrives.

The loop never looks at ticks after the one that carries the interrupt.

The whole model treats every operation as atomic. This is an abstraction chosen for the
model, not something the source guarantees everywhere. `registerListener` and
`removeListener` are `synchronized`, but `isDark()` (line 50) and the thread's `run()`
(line 97) are not.

`registerListener` starts a new thread when the held thread reports `isInterrupted()`
(line 61). In the model, `interrupted` stays set once `interrupt()` is called, so an
interrupted held thread is always replaced. In Java this happens only while the interrupt
is still pending; see `RegisterListener` under "Left out".

`removeListener` takes a `@Nullable` argument (line 70), and removing a listener that is
not registered changes nothing in the set (line 71). Yet when the set is empty afterwards,
line 73 dereferences the handle even if no thread is held, and the call throws. See
"Findings".

## Model

| member | source | states |
|---|---|---|
| `Registry.IsDark` | src/main/java/com/jthemedetecor/WindowsThemeDetector.java:50-53 | dark exactly when the `AppsUseLightTheme` value exists and is 0; an absent value or any non-zero value means light |
| `PollLoop.PollStep` | src/main/java/com/jthemedetecor/WindowsThemeDetector.java:99-110 | the new last value is the reading; an unchanged reading makes no call; a changed reading calls every listener in the set, once each, with the new value |
| `PollLoop.FoldLastValue` | src/main/java/com/jthemedetecor/WindowsThemeDetector.java:98-101 | after any run of passes the last value is the latest reading (the creation-time value before the first pass) |
| `PollLoop.FoldEventsAreChanges` | src/main/java/com/jthemedetecor/WindowsThemeDetector.java:98-110 | every notification is at a pass whose reading differs from the previous reading, carries that reading and goes to every listener registered then; notifications are in pass order, at most one per pass |
| `PollLoop.FoldDetectsEveryChange` | src/main/java/com/jthemedetecor/WindowsThemeDetector.java:99-101 | every pass whose reading differs from the previous one (or from the creation-time value) produces a notification |
| `PollLoop.FoldAlternates` | src/main/java/com/jthemedetecor/WindowsThemeDetector.java:99-101 | successive notifications alternate in value, the first differs from the creation-time value, and the last value equals the last notified value |
| `PollLoop.ExampleTwoNotifications` | src/main/java/com/jthemedetecor/WindowsThemeDetector.java:98-110 | from `false`, the readings false, false, true, true, false notify the listener twice: `true` at the third pass and `false` at the fifth |
| `PollLoop.Polled` | src/main/java/com/jthemedetecor/WindowsThemeDetector.java:112-117 | the number of passes is the index of the first tick that carries an interrupt, plus one, or all ticks when none does |
| `PollLoop.NotifyListeners` | src/main/java/com/jthemedetecor/WindowsThemeDetector.java:103-109 | every listener in the set is called exactly once with the value; a call fails exactly when that listener throws, and a failure does not stop the loop |
| `ThemeDetector.DetectorThread.constructor` | src/main/java/com/jthemedetecor/WindowsThemeDetector.java:88-94 | a new thread's last value is the theme at creation and it is not interrupted |
| `ThemeDetector.DetectorThread.Interrupt` | src/main/java/com/jthemedetecor/WindowsThemeDetector.java:73 | interrupting marks the thread interrupted and leaves its last value alone |
| `ThemeDetector.DetectorThread.Run` | src/main/java/com/jthemedetecor/WindowsThemeDetector.java:96-120 | an interrupted thread takes no reading; otherwise it makes `Polled` passes; its last value and calls are those of `Fold` over the passes it made, each change fanned out by `NotifyListeners` |
| `ThemeDetector.WindowsThemeDetector.constructor` | src/main/java/com/jthemedetecor/WindowsThemeDetector.java:43-47 | a new detector has no listeners, no thread, and satisfies the invariant |
| `ThemeDetector.WindowsThemeDetector.RegisterListener` | src/main/java/com/jthemedetecor/WindowsThemeDetector.java:57-67 | null throws and changes nothing. Otherwise the listener is added. Exactly one thread is started, sampling the current theme, when this call added the only listener or the held thread was interrupted; otherwise no thread is started. The invariant holds and the held thread is live afterwards |
| `ThemeDetector.WindowsThemeDetector.RemoveListener` | src/main/java/com/jthemedetecor/WindowsThemeDetector.java:70-76 | the listener is gone and the others stay. When the set becomes empty the held thread is interrupted and the handle cleared. The call throws exactly when no listener was registered. The invariant and liveness are kept |
| `ThemeDetector.WindowsThemeDetector.RemoveListenerGuarded` | src/main/java/com/jthemedetecor/WindowsThemeDetector.java:70-76 | the same removal, except that an empty detector is left unchanged instead of throwing |
| `ThemeDetector.WindowsThemeDetector.RunningThreads` | src/main/java/com/jthemedetecor/WindowsThemeDetector.java:57-76 | under the invariant, no thread other than the held one is still running; with liveness, the held one is running |
| `ThemeDetector.Replay` | src/main/java/com/jthemedetecor/WindowsThemeDetector.java:57-76 | after any sequence of register and remove calls on a new detector, a handle is held exactly when a listener is registered, and exactly that thread is running |
| `ThemeDetector.RegisterTwiceRemoveOnce` | src/main/java/com/jthemedetecor/WindowsThemeDetector.java:57-76 | registering a listener twice starts one thread; removing it once leaves no listener, no handle and no running thread |
| `ThemeDetector.RestartSamplesAfresh` | src/main/java/com/jthemedetecor/WindowsThemeDetector.java:59-65 | registering again after the detector was emptied starts a second thread, whose baseline is the theme at that moment |
| `ThemeDetector.InterruptedThreadIsReplaced` | src/main/java/com/jthemedetecor/WindowsThemeDetector.java:59-65 | after an interrupt from elsewhere, re-registering an existing listener starts a new thread and leaves the set unchanged |
| `ThemeDetector.EmptyRemoveThrows` | src/main/java/com/jthemedetecor/WindowsThemeDetector.java:70-75 | removing any listener from a new detector throws `NullPointerException` |
| `ThemeDetector.EmptyRemoveGuardedIsNoOp` | src/main/java/com/jthemedetecor/WindowsThemeDetector.java:70-75 | with the guard, removing a listener from a new detector leaves it empty and without a thread |

## Left out

- The JNA registry calls are an `Option<int>` input. A failing registry read (a Win32 exception) is not modelled. In the source, such a failure in the thread's constructor leaves the listener registered with no thread started.
- Thread start, the daemon flag, the priority and the thread name are not modelled, and neither is the second-long timed wait. The loop is a sequence of discrete passes.
- Java's interrupt flag is modelled as a flag that stays set: `interrupted` records that `interrupt()` was called. The JVM clears the flag when the wait throws `InterruptedException`, and that clearing is not modelled.
- Concurrency is not modelled: every operation, synchronized in the source or not, is atomic here. A listener set that changes while a pass runs appears only as the set fixed for that pass.
- ThemeDetector.WindowsThemeDetector.RegisterListener: replaces an interrupted held thread whenever `interrupted` is set. In the source the restart at line 61 happens only while an external interrupt is still pending. Once the interrupt has made `lock.wait(1000)` throw (lines 113-116), Java has cleared the flag, and the ended thread reports `isInterrupted() == false`. `registerListener` then starts nothing, and the listeners stay registered with a dead thread. `InterruptedThreadIsReplaced` and the `Live()` postcondition hold only for the pending case.
- PollLoop.NotifyListeners: always calls every listener. In the source the for-each at line 103 walks the synchronized set without holding its lock. If the set changes during the fan-out, because of another caller or a listener that registers or removes a listener inside `accept`, the iterator throws `ConcurrentModificationException`. That exception is outside the try at lines 104-108, so it ends the thread. This exit is not modelled.
- Logging is not modelled.
- Listener callback bodies are not modelled. Only whether each call threw a `RuntimeException` is recorded. An `Error` thrown by a listener, which would end the thread, is not modelled.
- The `OsThemeDetector` base class and the choice of platform are not part of this model.

## Findings

| source | as written | input that shows it | evidently intended | confidence | as-written member | corrected member |
|---|---|---|---|---|---|---|
| src/main/java/com/jthemedetecor/WindowsThemeDetector.java:72-74 | when the listener set is empty after the removal, `detectorThread.interrupt()` is called even if no thread is held | `removeListener(l)` on a detector with no listener registered (new, or already emptied) | removing a listener that is not registered is a no-op and never throws | medium, not executed | `ThemeDetector.EmptyRemoveThrows` | `ThemeDetector.WindowsThemeDetector.RemoveListenerGuarded` |
