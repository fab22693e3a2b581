/**
 The configuration sync of the Java client (ConfigSyncJob.start): a job that
 runs again and again, fetches a configuration, and replaces its timer when the
 configuration has changed.
 */
module ConfigSync {
  import opened Wrappers

  const MAX_LONG: int := 0x7fff_ffff_ffff_ffff

  /** RpiConfig; equality is that of the three fields. */
  datatype Config = Config(delay: int, interval: int, packets: int)

  /** What getRpiConfigFromServer does: throw, return null, or return a configuration. */
  datatype Fetch = Failed | NullBody | Delivered(config: Config)

  /** One run: the fetch, whether the sleep is interrupted, and the clock when
      the timer is scheduled. */
  datatype Input = Input(fetch: Fetch, interrupted: bool, now: int)

  datatype Schedule = Schedule(delay: int, interval: int)

  datatype TimerState = TimerState(cancelled: bool, schedule: Option<Schedule>)

  /** The arguments that scheduleAtFixedRate accepts. */
  predicate Accepts(c: Config, now: int) {
    c.delay >= 0 && c.interval > 0 && now + c.delay <= MAX_LONG
  }

  // ---------------------------------------------------------------- the job as values

  /** All timers ever created, the field `timer` being the last of them. */
  datatype JobState = JobState(current: Option<Config>, timers: seq<TimerState>)

  function NewTimer(c: Config, now: int): TimerState {
    TimerState(false, if Accepts(c, now) then Some(Schedule(c.delay, c.interval)) else None)
  }

  function CancelLast(ts: seq<TimerState>): (r: seq<TimerState>)
    ensures |r| == |ts|
  {
    if ts == [] then [] else ts[|ts| - 1 := TimerState(true, None)]
  }

  function Step(s: JobState, i: Input): JobState {
    match i.fetch
    case Failed => s
    case NullBody => s
    case Delivered(c) =>
      if s.current == Some(c) then s
      else JobState(Some(c), CancelLast(s.timers) + [NewTimer(c, i.now)])
  }

  const INITIAL := JobState(None, [])

  function Run(ins: seq<Input>): JobState {
    if ins == [] then INITIAL else Step(Run(ins[..|ins| - 1]), ins[|ins| - 1])
  }

  /** The configurations delivered in a sequence of runs. */
  function Deliveries(ins: seq<Input>): seq<Config> {
    if ins == [] then []
    else
      var i := ins[|ins| - 1];
      Deliveries(ins[..|ins| - 1]) + if i.fetch.Delivered? then [i.fetch.config] else []
  }

  /** How often a delivered configuration differs from the one before, counting the first. */
  function Changes(ds: seq<Config>): nat {
    if ds == [] then 0
    else
      var n := |ds| - 1;
      Changes(ds[..n]) + if n == 0 || ds[n] != ds[n - 1] then 1 else 0
  }

  /** The last run that changed the configuration. */
  function LastChange(ins: seq<Input>): (k: nat)
    requires Run(ins).current.Some?
    ensures k < |ins| && ins[k].fetch == Delivered(Run(ins).current.value)
  {
    var n := |ins| - 1;
    if Run(ins) == Run(ins[..n]) then LastChange(ins[..n]) else n
  }

  /** After any sequence of runs exactly one timer is uncancelled, once there is one: the
      last.  It was created for the configuration delivered last, and carries its delay
      and interval exactly if the timer accepted them when it was created. */
  lemma {:induction false} OneLiveTimer(ins: seq<Input>)
    ensures var s := Run(ins);
      && (s.current.Some? <==> s.timers != [])
      && (forall k :: 0 <= k < |s.timers| - 1 ==> s.timers[k].cancelled)
      && (s.current.Some? ==>
            s.timers[|s.timers| - 1] == NewTimer(s.current.value, ins[LastChange(ins)].now))
    decreases |ins|
  {
    if ins != [] {
      var front, i := ins[..|ins| - 1], ins[|ins| - 1];
      OneLiveTimer(front);
      if i.fetch.Delivered? && Run(front).current != Some(i.fetch.config) {
        assert Run(ins).current != Run(front).current;
        assert LastChange(ins) == |ins| - 1;
      } else {
        assert Run(ins) == Run(front);
      }
    }
  }

  /** The live timer carries the current configuration exactly if that could be scheduled
      when the run came that brought it; otherwise the timer is idle. */
  lemma {:induction false} TimerTracksConfig(ins: seq<Input>)
    requires Run(ins).current.Some?
    ensures var c := Run(ins).current.value;
      var accepted := Accepts(c, ins[LastChange(ins)].now);
      && (accepted <==> Last(Run(ins).timers) == Some(TimerState(false, Some(Schedule(c.delay, c.interval)))))
      && (!accepted <==> Last(Run(ins).timers) == Some(IDLE))
  {
    OneLiveTimer(ins);
  }

  /** A timer with nothing scheduled and not cancelled. */
  const IDLE := TimerState(false, None)

  /** Spelled out: a configuration other than the current one, with a delay of at least 0,
      an interval of at least 1 and a first time that fits 63 bits, is scheduled; otherwise
      the new timer is idle. */
  lemma {:induction false} NewConfigIsScheduled(ins: seq<Input>, i: Input)
    requires i.fetch.Delivered? && Run(ins).current != Some(i.fetch.config)
    ensures var c, s := i.fetch.config, Run(ins + [i]);
      && s.current == Some(c) && |s.timers| == |Run(ins).timers| + 1
      && (c.delay >= 0 && c.interval >= 1 && i.now + c.delay < 0x8000_0000_0000_0000 ==>
            Last(s.timers) == Some(TimerState(false, Some(Schedule(c.delay, c.interval)))))
      && (c.delay < 0 || c.interval < 1 || i.now + c.delay >= 0x8000_0000_0000_0000 ==>
            Last(s.timers) == Some(TimerState(false, None)))
  {
    assert (ins + [i])[..|ins|] == ins;
  }

  function Last(ts: seq<TimerState>): Option<TimerState> {
    if ts == [] then None else Some(ts[|ts| - 1])
  }

  lemma {:induction false} ChangesSnoc(ds: seq<Config>, c: Config)
    ensures Changes(ds + [c]) == Changes(ds) + if ds == [] || c != ds[|ds| - 1] then 1 else 0
  {
    var es, n := ds + [c], |ds|;
    assert es[..n] == ds && es[n] == c;
    if n > 0 {
      assert es[n - 1] == ds[n - 1];
    }
  }

  /** The current configuration is the one delivered last, and a timer has been created
      for every change of the delivered configuration. */
  lemma {:induction false} TimersCountChanges(ins: seq<Input>)
    ensures var s, ds := Run(ins), Deliveries(ins);
      && s.current == (if ds == [] then None else Some(ds[|ds| - 1]))
      && |s.timers| == Changes(ds)
    decreases |ins|
  {
    if ins != [] {
      var front, i := ins[..|ins| - 1], ins[|ins| - 1];
      TimersCountChanges(front);
      if i.fetch.Delivered? {
        ChangesSnoc(Deliveries(front), i.fetch.config);
      } else {
        assert Deliveries(ins) == Deliveries(front);
      }
    }
  }

  /** Runs that deliver the current configuration again, or nothing, change nothing.  So a
      configuration that was rejected is not tried again: the live timer is idle after such
      runs exactly if the configuration could not be scheduled when it first came. */
  lemma {:induction false} RejectedIsNotRetried(ins: seq<Input>, more: seq<Input>)
    requires Run(ins).current.Some?
    requires forall i <- more :: i.fetch.Delivered? ==> Some(i.fetch.config) == Run(ins).current
    ensures Run(ins + more) == Run(ins)
    ensures Last(Run(ins + more).timers) == Some(IDLE)
       <==> !Accepts(Run(ins).current.value, ins[LastChange(ins)].now)
    decreases |more|
  {
    TimerTracksConfig(ins);
    if more == [] {
      assert ins + more == ins;
    } else {
      var n := |more| - 1;
      RejectedIsNotRetried(ins, more[..n]);
      assert (ins + more)[..|ins + more| - 1] == ins + more[..n];
      assert more[n] in more;
    }
  }

  const ZERO_INTERVAL := Config(0, 0, 100)

  /** For example with an interval of zero: whatever the clock says, and however often the
      configuration is delivered, there is one timer and it is idle. */
  lemma {:induction false} ZeroIntervalStaysIdle(ins: seq<Input>)
    requires ins != [] && forall i <- ins :: i.fetch == Delivered(ZERO_INTERVAL)
    ensures Run(ins) == JobState(Some(ZERO_INTERVAL), [IDLE])
  {
    var first := ins[..1];
    assert first[0] in ins && first[..0] == [];
    assert Run(first) == JobState(Some(ZERO_INTERVAL), [IDLE]);
    RejectedIsNotRetried(first, ins[1..]);
    assert ins == first + ins[1..];
  }

  // ---------------------------------------------------------------- the job as an object

  class CaptureTask {
    constructor () {
    }
  }

  class Timer {
    var cancelled: bool
    var schedule: Option<Schedule>
    var task: CaptureTask?

    constructor ()
      ensures State() == TimerState(false, None)
    {
      cancelled, schedule, task := false, None, null;
    }

    function State(): TimerState
      reads this
    {
      TimerState(cancelled, schedule)
    }

    method Cancel()
      modifies this
      ensures State() == TimerState(true, None)
    {
      cancelled, schedule, task := true, None, null;
    }

    /** False stands for the exception on unacceptable arguments. */
    method ScheduleAtFixedRate(task: CaptureTask, c: Config, now: int) returns (ok: bool)
      requires State() == TimerState(false, None)
      modifies this
      ensures ok == Accepts(c, now)
      ensures State() == NewTimer(c, now) && (ok ==> this.task == task)
    {
      if c.delay < 0 || c.interval <= 0 || now + c.delay > MAX_LONG {
        return false;
      }
      schedule := Some(Schedule(c.delay, c.interval));
      this.task := task;
      return true;
    }
  }

  class Job {
    var timer: Timer?
    var captureTimerTask: CaptureTask?
    var jobRunCount: nat
    var curRpiConfig: Option<Config>
    ghost var created: seq<Timer>

    ghost predicate Valid()
      reads this
    {
      && (timer == null <==> created == [])
      && (timer != null ==> timer == created[|created| - 1])
      && forall j, k :: 0 <= j < k < |created| ==> created[j] != created[k]
    }

    ghost function View(): JobState
      reads this, created
    {
      JobState(curRpiConfig, StatesOf(created))
    }

    constructor ()
      ensures Valid() && View() == INITIAL && fresh(created)
    {
      timer, captureTimerTask, jobRunCount, curRpiConfig, created := null, null, 0, None, [];
    }

    /** One run of the job. */
    method Start(i: Input)
      requires Valid()
      modifies this, timer
      ensures Valid() && View() == Step(old(View()), i)
      ensures created == old(created) || (created[..|created| - 1] == old(created) && fresh(created[|created| - 1]))
      ensures created != old(created) && timer.schedule.Some? ==> timer.task == captureTimerTask
      ensures jobRunCount == old(jobRunCount) + 1
    {
      jobRunCount := jobRunCount + 1;
      if i.fetch.Failed? || i.fetch.NullBody? {
        return;
      }
      var rpiConfig := i.fetch.config;
      if curRpiConfig.Some? && curRpiConfig.value == rpiConfig {
        return;
      }
      curRpiConfig := Some(rpiConfig);
      CancelTimer();
      if i.interrupted {
        // Caught and logged; the run goes on.
      }
      ReplaceTimer(rpiConfig, i.now);
    }

    method CancelTimer()
      requires Valid()
      modifies timer
      ensures Valid() && StatesOf(created) == CancelLast(old(StatesOf(created)))
    {
      if timer != null {
        timer.Cancel();
      }
    }

    method ReplaceTimer(rpiConfig: Config, now: int)
      requires Valid()
      modifies this`timer, this`captureTimerTask, this`created
      ensures Valid()
      ensures timer != null && fresh(timer) && created == old(created) + [timer]
      ensures StatesOf(created) == old(StatesOf(created)) + [NewTimer(rpiConfig, now)]
      ensures timer.schedule.Some? ==> timer.task == captureTimerTask
    {
      timer := null;
      timer := new Timer();
      captureTimerTask := new CaptureTask();
      var ok := timer.ScheduleAtFixedRate(captureTimerTask, rpiConfig, now);
      created := created + [timer];
    }
  }

  ghost function StatesOf(ts: seq<Timer>): (r: seq<TimerState>)
    reads ts
    ensures |r| == |ts|
  {
    seq(|ts|, k requires 0 <= k < |ts| reads ts => ts[k].State())
  }
}
