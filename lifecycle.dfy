/** The service itself (src/main.rs:54-77, :79-283): the control handler,
    the status reports, `check_and_correct` writing the registry in place,
    the polling loop of `run_service`, and `service_main` tying discovery,
    configuration and the loop together.

    Time is an integer clock advanced by each `sleep(1)`. What the outside
    world does while the service sleeps is an input: one `Second` per sleep,
    holding the control events the OS delivers to the handler and the launch
    commands the browser's updater resets. */
module Lifecycle {
  import opened Wrappers
  import opened Text
  import opened Executable
  import opened Registry
  import opened Discovery
  import opened Config

  /** The control events the OS can deliver (`ServiceControl`). */
  datatype ServiceControl = Stop | Interrogate | Pause | Continue | Shutdown | Preshutdown | ParamChange | OtherControl

  /** The handler's answer to the OS (`ServiceControlHandlerResult`). */
  datatype HandlerResult = NoError | NotImplemented

  /** What the handler closure does with one event: its answer, and whether
      it sets the shared stop flag. */
  datatype Handled = Handled(result: HandlerResult, setsStop: bool)

  /** `event_handler` (src/main.rs:200-208): Stop and Interrogate are
      answered with NoError, everything else with NotImplemented; only Stop
      sets the stop flag. */
  function EventHandler(c: ServiceControl): (h: Handled)
    ensures h.result == NoError <==> c == Stop || c == Interrogate
    ensures h.setsStop <==> c == Stop
  {
    match c
    case Stop => Handled(NoError, true)
    case Interrogate => Handled(NoError, false)
    case _ => Handled(NotImplemented, false)
  }

  datatype ServiceState = Running | StopPending | Stopped

  /** The `ServiceStatus` record sent to the OS. */
  datatype ServiceStatus = ServiceStatus(
    ownProcess: bool,
    currentState: ServiceState,
    controlsAccepted: set<ServiceControl>,
    exitCode: int,
    checkpoint: nat,
    waitHintSeconds: nat)

  /** `set_service_state` (src/main.rs:54-77): an own-process service in
      `state`, accepting Stop only, with exit code 0 and no progress hints. */
  function StatusReport(state: ServiceState): (s: ServiceStatus)
    ensures s.currentState == state && s.ownProcess
    ensures s.controlsAccepted == {Stop}
    ensures s.exitCode == 0 && s.checkpoint == 0 && s.waitHintSeconds == 0
  {
    ServiceStatus(true, state, {Stop}, 0, 0, 0)
  }

  /** The reports of one whole run, in order (src/main.rs:251, :275, :280). */
  function RunStatuses(): seq<ServiceStatus> {
    [StatusReport(Running), StatusReport(StopPending), StatusReport(Stopped)]
  }

  /** One change the browser's updater makes to a key: write a launch
      command as its default value (creating the key if need be), or remove
      the key. */
  datatype Reset = Rewritten(path: string, command: string) | Removed(path: string)

  /** One second of the outside world: the control events delivered to the
      handler, and the updater's changes, in the order it makes them. */
  datatype Second = Second(controls: seq<ServiceControl>, resets: seq<Reset>)

  predicate HasStop(second: Second) {
    Stop in second.controls
  }

  /** The first second, at or after `from`, in which Stop is delivered. */
  function FirstStopFrom(schedule: seq<Second>, from: nat): (k: nat)
    requires exists k :: from <= k < |schedule| && HasStop(schedule[k])
    ensures from <= k < |schedule| && HasStop(schedule[k])
    ensures forall j :: from <= j < k ==> !HasStop(schedule[j])
    decreases |schedule| - from
  {
    if HasStop(schedule[from]) then from else FirstStopFrom(schedule, from + 1)
  }

  /** The store after one change of the updater. */
  function ApplyReset(store: Store, reset: Reset): (r: Store)
    ensures forall p :: LaunchReadable(store, p) ==> LaunchReadable(r, p)
  {
    match reset
    case Rewritten(path, command) =>
      store[path := (if path in store then store[path] else map[])[DefaultValue := Sz(command)]]
    case Removed(path) =>
      store - {path}
  }

  /** The store after the updater's changes `resets`, in order. */
  function ApplyResets(store: Store, resets: seq<Reset>): (r: Store)
    ensures forall p :: LaunchReadable(store, p) ==> LaunchReadable(r, p)
    decreases |resets|
  {
    if resets == [] then store
    else ApplyReset(ApplyResets(store, resets[..|resets| - 1]), resets[|resets| - 1])
  }

  /** A key the updater does not touch keeps its contents, or stays absent. */
  lemma {:induction false} UntouchedKeyKept(store: Store, resets: seq<Reset>, p: string)
    requires forall k :: 0 <= k < |resets| ==> resets[k].path != p
    ensures p in ApplyResets(store, resets) <==> p in store
    ensures p in store ==> ApplyResets(store, resets)[p] == store[p]
    decreases |resets|
  {
    if resets != [] {
      UntouchedKeyKept(store, resets[..|resets| - 1], p);
    }
  }

  /** The updater's last change to a key decides its launch command: a
      rewrite leaves that command, a removal leaves no key. */
  lemma {:induction false} LastChangeDecides(store: Store, resets: seq<Reset>, k: nat)
    requires k < |resets|
    requires forall j :: k < j < |resets| ==> resets[j].path != resets[k].path
    ensures resets[k].Removed? ==> resets[k].path !in ApplyResets(store, resets)
    ensures resets[k].Rewritten? ==> && resets[k].path in ApplyResets(store, resets)
                                     && DefaultValue in ApplyResets(store, resets)[resets[k].path]
                                     && ApplyResets(store, resets)[resets[k].path][DefaultValue] == Sz(resets[k].command)
    decreases |resets|
  {
    if k < |resets| - 1 {
      LastChangeDecides(store, resets[..|resets| - 1], k);
    }
  }

  /** The store after the updater's changes of `schedule[lo]` up to, but
      not including, `schedule[hi]`, in order. */
  function ApplyRange(store: Store, schedule: seq<Second>, lo: nat, hi: nat): Store
    requires lo <= hi <= |schedule|
    decreases hi - lo
  {
    if lo == hi then store
    else ApplyResets(ApplyRange(store, schedule, lo, hi - 1), schedule[hi - 1].resets)
  }

  /** The number of seconds between two ticks: the interval, or 1 for an
      interval of 0, since the elapsed time is compared only after a sleep. */
  function Period(interval: u32): (p: nat)
    ensures p >= 1
  {
    if interval == 0 then 1 else interval as nat
  }

  /** `n * p`, spelled as repeated addition. */
  function Multiple(n: nat, p: nat): nat
  {
    if n == 0 then 0 else Multiple(n - 1, p) + p
  }

  /** The ticks `ts` ran every `period` seconds after `start`, each one
      reconciling every launch entry of `keyTypes`. */
  ghost predicate TicksEvery(ts: seq<Tick>, start: nat, period: nat, keyTypes: seq<string>, installId: string, options: string) {
    forall k :: 0 <= k < |ts| ==>
      && ts[k].at == start + Multiple(k + 1, period)
      && AllReadable(ts[k].before, keyTypes, installId)
      && ts[k].after == ReconcileAll(ts[k].before, keyTypes, installId, options)
  }

  /** The first second whose updater changes the store that tick `k` finds:
      the one after tick `k - 1`, or the first of all. */
  function Since(k: nat, period: nat): nat {
    if k == 0 then 0 else Multiple(k, period) + 1
  }

  /** The store tick `k` starts from: what tick `k - 1` left, or `initial`. */
  function Base(ts: seq<Tick>, initial: Store, k: nat): Store
    requires k <= |ts|
  {
    if k == 0 then initial else ts[k - 1].after
  }

  /** Each tick of `ts` starts from the store the previous tick left (or
      `initial`), changed by the updater in every second since. */
  ghost predicate TicksFollow(ts: seq<Tick>, initial: Store, schedule: seq<Second>, period: nat)
    decreases |ts|
  {
    ts != [] ==>
      var k := |ts| - 1;
      && TicksFollow(ts[..k], initial, schedule, period)
      && Since(k, period) <= Multiple(k + 1, period) + 1 <= |schedule|
      && ts[k].before == ApplyRange(Base(ts, initial, k), schedule, Since(k, period), Multiple(k + 1, period) + 1)
  }

  /** Appending a tick that starts from the chained store keeps the chain. */
  lemma TicksFollowAppend(ts: seq<Tick>, initial: Store, schedule: seq<Second>, period: nat, t: Tick)
    requires TicksFollow(ts, initial, schedule, period)
    requires Since(|ts|, period) <= Multiple(|ts| + 1, period) + 1 <= |schedule|
    requires t.before == ApplyRange(Base(ts, initial, |ts|), schedule, Since(|ts|, period), Multiple(|ts| + 1, period) + 1)
    ensures TicksFollow(ts + [t], initial, schedule, period)
  {
    assert (ts + [t])[..|ts|] == ts;
    assert Base(ts + [t], initial, |ts|) == Base(ts, initial, |ts|);
  }

  /** A second without a tick: the updater's changes extend the range
      applied since the last tick. */
  lemma FollowQuiet(ts: seq<Tick>, initial: Store, schedule: seq<Second>, period: nat, i: nat, previous: Store)
    requires Since(|ts|, period) <= i < |schedule|
    requires previous == ApplyRange(Base(ts, initial, |ts|), schedule, Since(|ts|, period), i)
    ensures ApplyResets(previous, schedule[i].resets) == ApplyRange(Base(ts, initial, |ts|), schedule, Since(|ts|, period), i + 1)
  {
  }

  /** A second with a tick: the tick starts from the store as the updater
      left it, and the range applied since restarts after it. */
  lemma FollowTick(ts: seq<Tick>, initial: Store, schedule: seq<Second>, period: nat, i: nat, previous: Store, t: Tick)
    requires TicksFollow(ts, initial, schedule, period)
    requires Since(|ts|, period) <= i < |schedule| && i == Multiple(|ts| + 1, period)
    requires previous == ApplyRange(Base(ts, initial, |ts|), schedule, Since(|ts|, period), i)
    requires t.before == ApplyResets(previous, schedule[i].resets)
    ensures TicksFollow(ts + [t], initial, schedule, period)
    ensures Since(|ts| + 1, period) == i + 1
    ensures t.after == ApplyRange(Base(ts + [t], initial, |ts| + 1), schedule, Since(|ts| + 1, period), i + 1)
  {
    FollowQuiet(ts, initial, schedule, period, i, previous);
    TicksFollowAppend(ts, initial, schedule, period, t);
  }

  /** Appending a tick on time that reconciles its `before` keeps the log
      evenly spaced. */
  lemma TicksEveryAppend(ts: seq<Tick>, start: nat, period: nat, keyTypes: seq<string>, installId: string, options: string, t: Tick)
    requires TicksEvery(ts, start, period, keyTypes, installId, options)
    requires t.at == start + Multiple(|ts| + 1, period)
    requires AllReadable(t.before, keyTypes, installId)
    requires t.after == ReconcileAll(t.before, keyTypes, installId, options)
    ensures TicksEvery(ts + [t], start, period, keyTypes, installId, options)
  {
  }

  /** Whatever the updater did before it, every tick leaves every tracked
      launch entry that exists holding the options. */
  lemma {:induction false} TicksLeaveSatisfied(ts: seq<Tick>, start: nat, period: nat, keyTypes: seq<string>, installId: string, options: string)
    requires TicksEvery(ts, start, period, keyTypes, installId, options)
    ensures forall k :: 0 <= k < |ts| ==> AllSatisfied(ts[k].after, keyTypes, installId, options)
  {
    forall k | 0 <= k < |ts|
      ensures AllSatisfied(ts[k].after, keyTypes, installId, options)
    {
      ReconcileAllSatisfies(ts[k].before, keyTypes, installId, options);
    }
  }

  /** What `check_and_correct` logged: the key could not be opened (warn),
      it already held the options (nothing), or it was rewritten (info). */
  datatype Outcome = Unreachable | AlreadySatisfied | Repaired

  /** A reconciliation tick of the loop: when it ran, and the store before
      and after it. */
  datatype Tick = Tick(at: nat, before: Store, after: Store)

  /** How `service_main` ended. */
  datatype Exit =
    | NotDetected                 // no "Firefox" key: warn and return (src/main.rs:188-191)
    | KeyNamePanic(name: string)  // `captures(..).unwrap()` on this key name
    | ArgumentPanic(name: string) // `vec[0]` on this argument, which has no value
    | Finished(settings: Settings)

  class Service {
    /** The top-level key names of HKEY_CLASSES_ROOT, in enumeration order. */
    const roots: seq<string>
    /** The subkeys of HKEY_CLASSES_ROOT the service opens, by path. */
    var store: Store
    /** The stop flag shared by the handler and the loop. */
    var stop: bool
    /** The status reports sent to the OS, in order. */
    var statuses: seq<ServiceStatus>
    /** Seconds slept so far. */
    var clock: nat
    /** The reconciliation ticks of the current run. */
    ghost var ticks: seq<Tick>

    constructor (roots: seq<string>, store: Store)
      ensures this.roots == roots && this.store == store
      ensures !stop && statuses == [] && clock == 0 && ticks == []
    {
      this.roots := roots;
      this.store := store;
      stop := false;
      statuses := [];
      clock := 0;
      ticks := [];
    }

    /** The OS calling the handler closure with one event. */
    method HandleControl(c: ServiceControl) returns (result: HandlerResult)
      modifies this`stop
      ensures result == EventHandler(c).result
      ensures stop == (old(stop) || c == Stop)
    {
      var h := EventHandler(c);
      if h.setsStop {
        stop := true;
      }
      result := h.result;
    }

    /** `check_and_correct` (src/main.rs:212-246) for one category: the
        store becomes `Reconciled` of the old store, and the outcome says
        which branch was taken. */
    method CheckAndCorrect(keyType: string, installId: string, options: string) returns (outcome: Outcome)
      requires LaunchReadable(store, LaunchPath(keyType, installId))
      modifies this`store
      ensures store == Reconciled(old(store), LaunchPath(keyType, installId), options)
      ensures outcome == Unreachable <==> LaunchPath(keyType, installId) !in old(store)
      ensures outcome == AlreadySatisfied <==>
                LaunchPath(keyType, installId) in old(store)
                && Contains(Launch(old(store), LaunchPath(keyType, installId)), options)
      ensures outcome == Repaired ==> store != old(store)
    {
      var path := LaunchPath(keyType, installId);
      if path !in store {
        return Unreachable;
      }
      var launch := store[path][DefaultValue].text;
      if Contains(launch, options) {
        return AlreadySatisfied;
      }
      var exec := ExtractExecutable(launch);
      var corrected := exec + " " + options;
      store := store[path := store[path][DefaultValue := Sz(corrected)]];
      assert Contains(corrected, options) by {
        ContainsSuffix(exec + " ", options);
        assert corrected == exec + " " + options;
      }
      return Repaired;
    }

    /** One pass of the loop over `key_types`, in order (src/main.rs:264-266). */
    method ReconcileTick(keyTypes: seq<string>, installId: string, options: string)
      requires AllReadable(store, keyTypes, installId)
      modifies this`store
      ensures store == ReconcileAll(old(store), keyTypes, installId, options)
    {
      var i := 0;
      while i < |keyTypes|
        invariant 0 <= i <= |keyTypes|
        invariant AllReadable(old(store), keyTypes[..i], installId)
        invariant store == ReconcileAll(old(store), keyTypes[..i], installId, options)
        invariant AllReadable(store, keyTypes, installId)
      {
        assert keyTypes[..i + 1][..i] == keyTypes[..i];
        assert AllReadable(old(store), keyTypes[..i + 1], installId) by {
          forall k | 0 <= k <= i ensures keyTypes[..i + 1][k] == keyTypes[k] { }
        }
        var _ := CheckAndCorrect(keyTypes[i], installId, options);
        i := i + 1;
      }
      assert keyTypes[..i] == keyTypes;
    }

    /** The outside world during one sleep: each control event goes to the
        handler, then the updater's resets land in the store. */
    method Deliver(second: Second)
      modifies this`stop, this`store
      ensures stop == (old(stop) || HasStop(second))
      ensures store == ApplyResets(old(store), second.resets)
    {
      var controls := second.controls;
      var i := 0;
      while i < |controls|
        invariant 0 <= i <= |controls|
        invariant stop == (old(stop) || Stop in controls[..i])
        invariant store == old(store)
      {
        assert controls[..i + 1][..i] == controls[..i];
        var _ := HandleControl(controls[i]);
        i := i + 1;
      }
      assert controls[..i] == controls;
      store := ApplyResets(store, second.resets);
    }

    /** A tick of the loop (src/main.rs:262-269) in the `i`-th second of a
        run: `ReconcileTick`, recorded in `ticks`. The ghost parameters place
        it in the run, as for `Poll`; `previous` is the store before the
        updater's changes of this second. */
    method RunTick(keyTypes: seq<string>, installId: string, options: string, ghost period: nat,
                   ghost start: nat, ghost initial: Store, ghost schedule: seq<Second>, ghost i: nat, ghost previous: Store)
      requires 0 < i < |schedule| && clock == start + i && i == Multiple(|ticks| + 1, period)
      requires TicksEvery(ticks, start, period, keyTypes, installId, options)
      requires TicksFollow(ticks, initial, schedule, period)
      requires Since(|ticks|, period) <= i
      requires previous == ApplyRange(Base(ticks, initial, |ticks|), schedule, Since(|ticks|, period), i)
      requires store == ApplyResets(previous, schedule[i].resets)
      requires AllReadable(store, keyTypes, installId)
      modifies this`store, this`ticks
      ensures ticks == old(ticks) + [Tick(clock, old(store), store)]
      ensures store == ReconcileAll(old(store), keyTypes, installId, options)
      ensures AllReadable(store, keyTypes, installId)
      ensures TicksEvery(ticks, start, period, keyTypes, installId, options)
      ensures TicksFollow(ticks, initial, schedule, period)
      ensures Since(|ticks|, period) == i + 1
      ensures store == ApplyRange(Base(ticks, initial, |ticks|), schedule, i + 1, i + 1)
    {
      ghost var before := store;
      ReconcileTick(keyTypes, installId, options);
      ghost var t := Tick(clock, before, store);
      TicksEveryAppend(ticks, start, period, keyTypes, installId, options, t);
      FollowTick(ticks, initial, schedule, period, i, previous, t);
      ticks := ticks + [t];
    }

    /** One iteration of the loop of `run_service` (src/main.rs:255-270):
        sleep one second, during which `second` arrives, then run a tick if
        the seconds elapsed since `now` reach the interval. Returns the new
        `now`. The ghost parameters place the poll in a run: it is the
        `i`-th sleep of a run that started at `start` on `initial`, with
        `schedule[i]` arriving during it. */
    method Poll(keyTypes: seq<string>, installId: string, settings: Settings, second: Second, now: nat,
                ghost start: nat, ghost initial: Store, ghost schedule: seq<Second>, ghost i: nat)
      returns (now': nat)
      requires 0 < i < |schedule| && second == schedule[i] && clock + 1 == start + i
      requires now <= clock < now + Period(settings.interval)
      requires now == start + Multiple(|ticks|, Period(settings.interval))
      requires TicksEvery(ticks, start, Period(settings.interval), keyTypes, installId, settings.options)
      requires TicksFollow(ticks, initial, schedule, Period(settings.interval))
      requires Since(|ticks|, Period(settings.interval)) <= i
      requires store == ApplyRange(Base(ticks, initial, |ticks|), schedule, Since(|ticks|, Period(settings.interval)), i)
      requires AllReadable(store, keyTypes, installId)
      modifies this`clock, this`stop, this`store, this`ticks
      ensures clock == old(clock) + 1
      ensures stop == (old(stop) || HasStop(second))
      ensures AllReadable(store, keyTypes, installId)
      ensures now' <= clock < now' + Period(settings.interval)
      ensures now' == now || now' == now + Period(settings.interval)
      ensures now' == now ==> ticks == old(ticks) && store == ApplyResets(old(store), second.resets)
      ensures now' != now ==> && now' == clock
                              && ticks == old(ticks) + [Tick(clock, ApplyResets(old(store), second.resets), store)]
                              && AllReadable(ApplyResets(old(store), second.resets), keyTypes, installId)
                              && store == ReconcileAll(ApplyResets(old(store), second.resets), keyTypes, installId, settings.options)
      ensures now' == start + Multiple(|ticks|, Period(settings.interval))
      ensures TicksEvery(ticks, start, Period(settings.interval), keyTypes, installId, settings.options)
      ensures TicksFollow(ticks, initial, schedule, Period(settings.interval))
      ensures Since(|ticks|, Period(settings.interval)) <= i + 1
      ensures store == ApplyRange(Base(ticks, initial, |ticks|), schedule, Since(|ticks|, Period(settings.interval)), i + 1)
    {
      ghost var previous := store;
      clock := clock + 1;
      Deliver(second);
      var elapsed := clock - now;
      assert 0 < elapsed <= Period(settings.interval) < 0x1_0000_0000;
      assert elapsed % 0x1_0000_0000 == elapsed;
      now' := now;
      if (elapsed % 0x1_0000_0000) as u32 >= settings.interval {
        RunTick(keyTypes, installId, settings.options, Period(settings.interval), start, initial, schedule, i, previous);
        now' := clock;
      } else {
        FollowQuiet(ticks, initial, schedule, Period(settings.interval), i, previous);
      }
    }

    /** The polling loop of `run_service` (src/main.rs:253-271), from the
        creation of the stop flag to the first poll that finds it set.
        `schedule[0]` is what arrives before the first poll, `schedule[k]`
        what arrives during the k-th sleep. `ticks` starts afresh for the
        run. */
    method PollUntilStopped(keyTypes: seq<string>, installId: string, settings: Settings, schedule: seq<Second>)
      requires exists k :: 0 <= k < |schedule| && HasStop(schedule[k])
      requires AllReadable(store, keyTypes, installId)
      modifies this`clock, this`stop, this`store, this`ticks
      ensures stop
      ensures clock == old(clock) + FirstStopFrom(schedule, 0)
      ensures TicksEvery(ticks, old(clock), Period(settings.interval), keyTypes, installId, settings.options)
      ensures Multiple(|ticks|, Period(settings.interval)) <= FirstStopFrom(schedule, 0)
                < Multiple(|ticks| + 1, Period(settings.interval))
      ensures TicksFollow(ticks, old(store), schedule, Period(settings.interval))
      ensures Since(|ticks|, Period(settings.interval)) <= FirstStopFrom(schedule, 0) + 1
      ensures store == ApplyRange(Base(ticks, old(store), |ticks|), schedule,
                                  Since(|ticks|, Period(settings.interval)), FirstStopFrom(schedule, 0) + 1)
      ensures AllReadable(store, keyTypes, installId)
    {
      ghost var first := FirstStopFrom(schedule, 0);
      ghost var store0 := store;
      ghost var start := clock;
      ghost var period := Period(settings.interval);
      stop := false;
      ticks := [];
      var now := clock;
      var i := 0;
      Deliver(schedule[0]);
      assert store == ApplyRange(Base(ticks, store0, 0), schedule, Since(0, period), 1);
      while !stop
        invariant 0 <= i <= first
        invariant stop <==> i == first
        invariant clock == start + i
        invariant now <= clock < now + period
        invariant now == start + Multiple(|ticks|, period)
        invariant TicksEvery(ticks, start, period, keyTypes, installId, settings.options)
        invariant TicksFollow(ticks, store0, schedule, period)
        invariant Since(|ticks|, period) <= i + 1 <= |schedule|
        invariant store == ApplyRange(Base(ticks, store0, |ticks|), schedule, Since(|ticks|, period), i + 1)
        invariant AllReadable(store, keyTypes, installId)
        decreases first - i
      {
        i := i + 1;
        now := Poll(keyTypes, installId, settings, schedule[i], now, start, store0, schedule, i);
      }
    }

    /** `run_service` (src/main.rs:196-283): report Running, poll until the
        stop flag is set, report StopPending, sleep once more and report
        Stopped. Ticks happen every `Period(interval)` seconds, each one a
        `ReconcileAll` of the store as the previous tick and the updater left
        it; the store at exit is the last tick's with the updater's later
        changes. */
    method RunService(keyTypes: seq<string>, installId: string, settings: Settings, schedule: seq<Second>)
      requires exists k :: 0 <= k < |schedule| && HasStop(schedule[k])
      requires AllReadable(store, keyTypes, installId)
      modifies this
      ensures statuses == old(statuses) + RunStatuses()
      ensures stop
      ensures clock == old(clock) + FirstStopFrom(schedule, 0) + 1
      ensures TicksEvery(ticks, old(clock), Period(settings.interval), keyTypes, installId, settings.options)
      ensures Multiple(|ticks|, Period(settings.interval)) <= FirstStopFrom(schedule, 0)
                < Multiple(|ticks| + 1, Period(settings.interval))
      ensures TicksFollow(ticks, old(store), schedule, Period(settings.interval))
      ensures Since(|ticks|, Period(settings.interval)) <= FirstStopFrom(schedule, 0) + 1
      ensures store == ApplyRange(Base(ticks, old(store), |ticks|), schedule,
                                  Since(|ticks|, Period(settings.interval)), FirstStopFrom(schedule, 0) + 1)
      ensures AllReadable(store, keyTypes, installId)
    {
      statuses := statuses + [StatusReport(Running)];
      PollUntilStopped(keyTypes, installId, settings, schedule);
      statuses := statuses + [StatusReport(StopPending)];
      clock := clock + 1;
      statuses := statuses + [StatusReport(Stopped)];
    }

    /** `service_main` (src/main.rs:79-194) once the event log is set up:
        discover the keys, then, if an install id was found, resolve the
        configuration and run the loop. */
    method ServiceMain(argCount: nat, argv: map<string, seq<string>>, schedule: seq<Second>) returns (exit: Exit)
      requires exists k :: 0 <= k < |schedule| && HasStop(schedule[k])
      requires forall k :: 0 <= k < |Splits(roots)| ==>
                 LaunchReadable(store, LaunchPath(Splits(roots)[k].0, LastInstallId(Splits(roots))))
      modifies this
      ensures exit.KeyNamePanic? <==> exists i :: 0 <= i < |roots| && Rejected(roots[i])
      ensures exit.KeyNamePanic? ==> exists i :: && 0 <= i < |roots| && Rejected(roots[i]) && exit.name == roots[i]
                                                 && forall k :: 0 <= k < i ==> !Rejected(roots[k])
      ensures exit.NotDetected? <==> && (forall i :: 0 <= i < |roots| ==> !Rejected(roots[i]))
                                     && (forall i :: 0 <= i < |roots| ==> !StartsWith(roots[i], KeyPrefix))
      ensures exit.ArgumentPanic? ==> Resolved(old(store), LastInstallId(Splits(roots)), argCount, argv) == Err(exit.name)
      ensures exit.Finished? ==> Resolved(old(store), LastInstallId(Splits(roots)), argCount, argv) == Ok(exit.settings)
      ensures exit.Finished? ==> statuses == old(statuses) + RunStatuses()
      ensures exit.Finished? ==> && stop && clock == old(clock) + FirstStopFrom(schedule, 0) + 1
      ensures exit.Finished? ==> TicksEvery(ticks, old(clock), Period(exit.settings.interval),
                                            Categories(Splits(roots)), LastInstallId(Splits(roots)), exit.settings.options)
      ensures exit.Finished? ==> Multiple(|ticks|, Period(exit.settings.interval)) <= FirstStopFrom(schedule, 0)
                                   < Multiple(|ticks| + 1, Period(exit.settings.interval))
      ensures exit.Finished? ==> TicksFollow(ticks, old(store), schedule, Period(exit.settings.interval))
      ensures exit.Finished? ==> && Since(|ticks|, Period(exit.settings.interval)) <= FirstStopFrom(schedule, 0) + 1
                                 && store == ApplyRange(Base(ticks, old(store), |ticks|), schedule,
                                                        Since(|ticks|, Period(exit.settings.interval)), FirstStopFrom(schedule, 0) + 1)
      ensures !exit.Finished? ==> && statuses == old(statuses) && store == old(store)
                                  && clock == old(clock) && stop == old(stop) && ticks == old(ticks)
    {
      var found := Discover(roots);
      if found.Err? {
        return KeyNamePanic(found.error);
      }
      var data := found.value;
      InstallIdEmptyIff(roots);
      if data.installId == "" {
        return NotDetected;
      }
      var resolved := ResolveConfig(store, data.installId, argCount, argv);
      if resolved.Err? {
        return ArgumentPanic(resolved.error);
      }
      RunService(data.keyTypes, data.installId, resolved.value, schedule);
      return Finished(resolved.value);
    }
  }
}
