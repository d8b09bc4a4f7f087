/**
 * The `start --watch` loop: the watch callback queues changed files and arms a
 * settle timer, a fired timer compiles the queue and restarts the runtime child.
 * Time is an integer number of milliseconds; timers are explicit values that the
 * event loop fires by calling `Fire`.
 */
module Watch {
  import opened Paths
  import opened Fs
  import opened Build

  /** The delay of `setTimeout` and the threshold of the `newTime - time <= 100` test. */
  const SettleDelay := 100

  /** A forked runtime process: its entry file, the `APP` variable it was given, and whether it was sent `kill`. */
  datatype Child = Child(entry: Path, app: string, killed: bool)

  /** A pending `setTimeout` handle and the time it is due. */
  datatype Timer = Timer(id: nat, due: int)

  /** One call of the watch callback: the path, its `compile` argument, and its time. */
  datatype Event = Event(path: Path, compile: bool, at: int)

  /** The `time` variable after `log`: the last event's time, or the set-up time. */
  function LastTime(setupTime: int, log: seq<Event>): int
  {
    if log == [] then setupTime else log[|log| - 1].at
  }

  /**
   * The timers that the events of `log` leave alive: the callback always creates one,
   * due 100 ms later, and clears that same one when the event is within 100 ms of the
   * previous event. Timer ids count the events.
   */
  function ArmedTimers(setupTime: int, log: seq<Event>): seq<Timer>
  {
    if log == [] then []
    else
      var init := log[..|log| - 1];
      var e := log[|log| - 1];
      ArmedTimers(setupTime, init) +
      (if e.at - LastTime(setupTime, init) > SettleDelay then [Timer(|log| - 1, e.at + SettleDelay)] else [])
  }

  /** The paths the events of `log` put in the queue, in arrival order. */
  function Queued(compileOption: bool, log: seq<Event>): seq<Path>
  {
    if log == [] then []
    else
      var e := log[|log| - 1];
      Queued(compileOption, log[..|log| - 1]) + (if compileOption && e.compile then [e.path] else [])
  }

  /** `clearTimeout(id)`: the pending timers without the one with that handle. */
  function Clear(timers: seq<Timer>, id: nat): (r: seq<Timer>)
    ensures forall t :: t in r <==> t in timers && t.id != id
  {
    if timers == [] then []
    else (if timers[0].id == id then [] else [timers[0]]) + Clear(timers[1..], id)
  }

  /** `stopRuntimeProcess`: the current child, if there is one, is sent `kill`. */
  function Stopped(children: seq<Child>): seq<Child>
  {
    if children == [] then []
    else children[..|children| - 1] + [children[|children| - 1].(killed := true)]
  }

  /** Every child but the current (last) one has been sent `kill`. */
  ghost predicate AllButLastKilled(children: seq<Child>)
  {
    forall i :: 0 <= i < |children| - 1 ==> children[i].killed
  }

  /** The number of children never sent `kill`. */
  function LiveCount(children: seq<Child>): nat
  {
    if children == [] then 0
    else LiveCount(children[..|children| - 1]) + (if children[|children| - 1].killed then 0 else 1)
  }

  /** When every child but the last has been killed, at most one child is alive. */
  lemma {:induction false} AtMostOneLive(children: seq<Child>)
    requires AllButLastKilled(children)
    ensures LiveCount(children) <= 1
  {
    if children != [] {
      var init := children[..|children| - 1];
      AllKilledNoneLive(init);
    }
  }

  lemma {:induction false} AllKilledNoneLive(children: seq<Child>)
    requires forall i :: 0 <= i < |children| ==> children[i].killed
    ensures LiveCount(children) == 0
  {
    if children != [] {
      AllKilledNoneLive(children[..|children| - 1]);
    }
  }

  /** A restart (stop, then start) keeps every older child killed and leaves exactly one live child, the new one. */
  lemma RestartLeavesOneLive(children: seq<Child>, entry: Path, app: string)
    requires AllButLastKilled(children)
    ensures var after := Stopped(children) + [Child(entry, app, false)];
      AllButLastKilled(after) && LiveCount(after) == 1 && after[|after| - 1] == Child(entry, app, false) &&
      forall i :: 0 <= i < |children| ==> after[i].entry == children[i].entry && after[i].app == children[i].app
  {
    var stopped := Stopped(children);
    var after := stopped + [Child(entry, app, false)];
    assert forall i :: 0 <= i < |stopped| ==> stopped[i].killed;
    AllKilledNoneLive(stopped);
    assert after[..|after| - 1] == stopped;
  }

  /** After a stop no child is alive, and the children themselves are the same ones. */
  lemma StopKillsAll(children: seq<Child>)
    requires AllButLastKilled(children)
    ensures var after := Stopped(children);
      |after| == |children| && LiveCount(after) == 0 &&
      forall i :: 0 <= i < |children| ==> after[i].entry == children[i].entry && after[i].app == children[i].app
  {
    var after := Stopped(children);
    assert forall i :: 0 <= i < |after| ==> after[i].killed;
    AllKilledNoneLive(after);
  }

  /** Stopping twice is stopping once; in particular a stop with no child does nothing. */
  lemma StopIdempotent(children: seq<Child>)
    ensures Stopped(Stopped(children)) == Stopped(children)
    ensures Stopped([]) == []
  {
    if children != [] {
      var after := Stopped(children);
      assert after[..|after| - 1] == children[..|children| - 1];
    }
  }

  /** An event leaves a live timer exactly when it comes more than 100 ms after the previous event (or the set-up). */
  lemma {:induction false} ArmedExactly(setupTime: int, log: seq<Event>, i: nat)
    requires i < |log|
    ensures Timer(i, log[i].at + SettleDelay) in ArmedTimers(setupTime, log) <==>
      log[i].at - LastTime(setupTime, log[..i]) > SettleDelay
  {
    var init := log[..|log| - 1];
    ArmedIds(setupTime, init);
    if i < |log| - 1 {
      assert init[i] == log[i] && init[..i] == log[..i];
      ArmedExactly(setupTime, init, i);
    } else {
      assert log[..i] == init;
    }
  }

  /** Live timers carry the ids of the events that created them. */
  lemma {:induction false} ArmedIds(setupTime: int, log: seq<Event>)
    ensures forall t :: t in ArmedTimers(setupTime, log) ==> t.id < |log|
  {
    if log != [] {
      ArmedIds(setupTime, log[..|log| - 1]);
    }
  }

  /**
   * Not a true debounce: in a burst whose first event is more than 100 ms after the
   * previous one and whose later events are each within 100 ms of the one before,
   * only the first event's timer stays alive, due 100 ms after the burst starts.
   */
  lemma {:induction false} BurstArmsFirstOnly(setupTime: int, log: seq<Event>)
    requires log != [] && log[0].at - setupTime > SettleDelay
    requires forall i :: 0 < i < |log| ==> log[i].at - log[i - 1].at <= SettleDelay
    ensures ArmedTimers(setupTime, log) == [Timer(0, log[0].at + SettleDelay)]
  {
    if |log| > 1 {
      var init := log[..|log| - 1];
      BurstArmsFirstOnly(setupTime, init);
    }
  }

  /** Events at 0, 30, 60 and 90 ms leave one timer, due at 100 ms: before 90 + 100. */
  lemma BurstExample(p: Path)
    ensures var log := [Event(p, true, 0), Event(p, true, 30), Event(p, true, 60), Event(p, true, 90)];
      ArmedTimers(-1000, log) == [Timer(0, 100)] && 100 < log[3].at + SettleDelay
  {
    var log := [Event(p, true, 0), Event(p, true, 30), Event(p, true, 60), Event(p, true, 90)];
    BurstArmsFirstOnly(-1000, log);
  }

  /** Events at 0 and 150 ms leave two timers, due at 100 and 250 ms. */
  lemma SeparateEventsExample(p: Path)
    ensures ArmedTimers(-1000, [Event(p, true, 0), Event(p, true, 150)]) == [Timer(0, 100), Timer(1, 250)]
  {
    var log := [Event(p, true, 0), Event(p, true, 150)];
    var first := [Event(p, true, 0)];
    assert log[..1] == first && first[..0] == [];
    assert ArmedTimers(-1000, first) == [Timer(0, 100)];
    assert LastTime(-1000, first) == 0;
  }

  /** The queue keeps arrival order: queuing a concatenation concatenates. */
  lemma {:induction false} QueuedAppend(compileOption: bool, a: seq<Event>, b: seq<Event>)
    ensures Queued(compileOption, a + b) == Queued(compileOption, a) + Queued(compileOption, b)
    decreases |b|
  {
    if b == [] {
      assert a + b == a;
    } else {
      var b' := b[..|b| - 1];
      assert (a + b)[..|a + b| - 1] == a + b';
      assert (a + b)[|a + b| - 1] == b[|b| - 1];
      QueuedAppend(compileOption, a, b');
    }
  }

  /** A path is queued only when the `--compile` option and the event's own `compile` flag are both set. */
  lemma {:induction false} QueuedOnlyWhenCompiling(compileOption: bool, log: seq<Event>, p: Path)
    ensures p in Queued(compileOption, log) <==>
      compileOption && exists i :: 0 <= i < |log| && log[i].path == p && log[i].compile
  {
    if log != [] {
      var init := log[..|log| - 1];
      QueuedOnlyWhenCompiling(compileOption, init, p);
      if compileOption && (exists i :: 0 <= i < |log| && log[i].path == p && log[i].compile) {
        var i :| 0 <= i < |log| && log[i].path == p && log[i].compile;
        if i < |log| - 1 {
          assert init[i] == log[i];
        }
      }
    }
  }

  /**
   * The invariant of a watch session: `time` is the last event's time, the queue
   * holds the queued paths of the events not yet compiled, every pending timer is
   * one an event left alive, and every child but the current one has been killed.
   * It takes the session's fields as values rather than reading them from the heap,
   * so that the lemmas below reason about plain values, not heap states.
   */
  ghost predicate Consistent(setupTime: int, compileOption: bool, runtimeFile: Path, runtimeName: string,
                             files: seq<Path>, time: int, timers: seq<Timer>, nextTimer: nat,
                             children: seq<Child>, log: seq<Event>, drained: nat)
  {
    drained <= |log| && nextTimer == |log| &&
    time == LastTime(setupTime, log) &&
    files == Queued(compileOption, log[drained..]) &&
    (forall t :: t in timers ==> t in ArmedTimers(setupTime, log)) &&
    children != [] && AllButLastKilled(children) &&
    (forall c :: c in children ==> c.entry == runtimeFile && c.app == runtimeName)
  }

  /** The watch callback keeps the invariant: from a consistent state, one event leads to a consistent state. */
  lemma ConsistentAfterEvent(setupTime: int, compileOption: bool, runtimeFile: Path, runtimeName: string,
                             files: seq<Path>, time: int, timers: seq<Timer>, nextTimer: nat,
                             children: seq<Child>, log: seq<Event>, drained: nat, e: Event,
                             files': seq<Path>, time': int, timers': seq<Timer>, nextTimer': nat, log': seq<Event>)
    requires Consistent(setupTime, compileOption, runtimeFile, runtimeName, files, time, timers, nextTimer, children, log, drained)
    requires files' == files + (if compileOption && e.compile then [e.path] else [])
    requires timers' == timers + (if e.at - time > SettleDelay then [Timer(nextTimer, e.at + SettleDelay)] else [])
    requires time' == e.at && nextTimer' == nextTimer + 1 && log' == log + [e]
    ensures Consistent(setupTime, compileOption, runtimeFile, runtimeName, files', time', timers', nextTimer', children, log', drained)
  {
    EventExtends(setupTime, compileOption, log, drained, e);
    ArmedAfterEvent(setupTime, log, timers, e, nextTimer);
  }

  /**
   * A fired timer keeps the invariant, whether its compile pass throws (queue and
   * children kept) or succeeds (queue emptied and drained, child restarted).
   */
  lemma ConsistentAfterFire(setupTime: int, compileOption: bool, runtimeFile: Path, runtimeName: string,
                            files: seq<Path>, time: int, timers: seq<Timer>, nextTimer: nat,
                            children: seq<Child>, log: seq<Event>, drained: nat, k: nat,
                            files': seq<Path>, timers': seq<Timer>, children': seq<Child>, drained': nat)
    requires Consistent(setupTime, compileOption, runtimeFile, runtimeName, files, time, timers, nextTimer, children, log, drained)
    requires k < |timers| && timers' == timers[..k] + timers[k + 1..]
    requires var restarted := Stopped(children) + [Child(runtimeFile, runtimeName, false)];
      (files' == files && children' == children && drained' == drained) ||
      (files' == [] && children' == restarted && drained' == |log|) ||
      (files == [] && files' == [] && children' == restarted && drained' == drained)
    ensures Consistent(setupTime, compileOption, runtimeFile, runtimeName, files', time, timers', nextTimer, children', log, drained')
  {
    assert forall t :: t in timers' ==> t in timers;
    var restarted := Stopped(children) + [Child(runtimeFile, runtimeName, false)];
    if children' == restarted {
      RestartLeavesOneLive(children, runtimeFile, runtimeName);
      forall c | c in restarted
        ensures c.entry == runtimeFile && c.app == runtimeName
      {
        var i :| 0 <= i < |restarted| && restarted[i] == c;
        if i < |children| {
          assert children[i] in children;
        }
      }
    }
    assert log[|log|..] == [];
  }

  /** The state of `start --watch` after its set-up: queue, last event time, timers and child slots. */
  class Session {
    const fs: FileSystem
    const compileOption: bool
    const appName: string
    const runtimeName: string
    const runtimeFile: Path
    const babel: Compiler
    const setupTime: int

    var files: seq<Path>
    var time: int
    var timers: seq<Timer>
    var nextTimer: nat
    var children: seq<Child>  // every child forked so far; the last one is `runtimeProcess`

    ghost var log: seq<Event>  // every watch event so far
    ghost var drained: nat     // the events whose paths a fired timer has compiled

    ghost predicate Valid()
      reads this
    {
      Consistent(setupTime, compileOption, runtimeFile, runtimeName, files, time, timers, nextTimer, children, log, drained)
    }

    /** Set-up after the initial build: the first child is started, then the clock is read. */
    constructor (fs: FileSystem, compileOption: bool, appName: string, runtimeName: string,
                 runtimeFile: Path, babel: Compiler, setupTime: int)
      ensures Valid()
      ensures this.fs == fs && this.compileOption == compileOption && this.appName == appName
      ensures this.runtimeName == runtimeName && this.runtimeFile == runtimeFile
      ensures this.babel == babel && this.setupTime == setupTime
      ensures files == [] && timers == [] && time == setupTime && log == []
      ensures children == [Child(runtimeFile, runtimeName, false)]
    {
      this.fs := fs;
      this.compileOption := compileOption;
      this.appName := appName;
      this.runtimeName := runtimeName;
      this.runtimeFile := runtimeFile;
      this.babel := babel;
      this.setupTime := setupTime;
      files := [];
      time := setupTime;
      timers := [];
      nextTimer := 0;
      children := [Child(runtimeFile, runtimeName, false)];
      log := [];
      drained := 0;
    }

    /** `startRuntimeProcess`: fork a new child with `APP` set to the runtime directory name. */
    method Start()
      modifies this`children
      ensures children == old(children) + [Child(runtimeFile, runtimeName, false)]
    {
      children := children + [Child(runtimeFile, runtimeName, false)];
    }

    /** `stopRuntimeProcess`: kill the current child if there is one. */
    method Stop()
      modifies this`children
      ensures children == Stopped(old(children))
    {
      if children != [] {
        children := children[..|children| - 1] + [children[|children| - 1].(killed := true)];
      }
    }

    /** The watch callback for a change of `filePath` at time `now`. */
    method OnChange(filePath: Path, compile: bool, now: int)
      requires Valid()
      modifies this`files, this`timers, this`nextTimer, this`time, this`log
      ensures Valid()
      ensures files == old(files) + (if compileOption && compile then [filePath] else [])
      ensures timers == old(timers) + (if now - old(time) > SettleDelay then [Timer(old(nextTimer), now + SettleDelay)] else [])
      ensures time == now && log == old(log) + [Event(filePath, compile, now)]
    {
      ghost var e := Event(filePath, compile, now);
      ghost var files0, time0, timers0, nextTimer0, log0 := files, time, timers, nextTimer, log;
      ArmedIds(setupTime, log);
      if compileOption && compile {
        files := files + [filePath];
      }
      var timeOut := Timer(nextTimer, now + SettleDelay);
      var pending := timers + [timeOut];
      if now - time <= SettleDelay {
        ClearFresh(timers, timeOut);
        pending := Clear(pending, timeOut.id);
      }
      timers, nextTimer, time, log := pending, nextTimer + 1, now, log + [e];
      ConsistentAfterEvent(setupTime, compileOption, runtimeFile, runtimeName,
        files0, time0, timers0, nextTimer0, children, log0, drained, e, files, time, timers, nextTimer, log);
    }

    /**
     * A settle timer fires: compile every queued path in order and empty the queue,
     * then stop the current child and start a new one. An exception while compiling
     * escapes the callback: the queue is kept and no restart happens.
     */
    method Fire(k: nat) returns (o: Outcome)
      requires Valid() && k < |timers|
      modifies this`timers, this`files, this`children, this`drained, fs
      ensures Valid()
      ensures timers == old(timers[..k] + timers[k + 1..])
      ensures (o, fs.nodes) == CompileAllSpec(old(fs.nodes), fs.now, old(files), appName, runtimeName, babel)
      ensures o.Done? ==> files == [] && children == Stopped(old(children)) + [Child(runtimeFile, runtimeName, false)]
      ensures o.Thrown? ==> files == old(files) && children == old(children)
      ensures time == old(time) && log == old(log)
    {
      o := Done;
      if files != [] {
        o := CompileEach(fs, files, appName, runtimeName, babel);
      }
      Settle(k, o);
    }

    /** The bookkeeping after a fired timer's compile pass `o`: drop the timer, then empty the queue and restart unless `o` threw. */
    method Settle(k: nat, o: Outcome)
      requires Valid() && k < |timers|
      modifies this`timers, this`files, this`children, this`drained
      ensures Valid()
      ensures timers == old(timers[..k] + timers[k + 1..])
      ensures o.Done? ==> files == [] && children == Stopped(old(children)) + [Child(runtimeFile, runtimeName, false)]
      ensures o.Thrown? ==> files == old(files) && children == old(children)
    {
      ghost var files0, timers0, children0, drained0 := files, timers, children, drained;
      timers := timers[..k] + timers[k + 1..];
      if o.Done? {
        if files != [] {
          files, drained := [], |log|;
        }
        Stop();
        Start();
      }
      ConsistentAfterFire(setupTime, compileOption, runtimeFile, runtimeName,
        files0, time, timers0, nextTimer, children0, log, drained0, k, files, timers, children, drained);
    }
  }

  /** What one more event does to the time, the live timers and the queue. */
  lemma EventExtends(setupTime: int, compileOption: bool, log: seq<Event>, drained: nat, e: Event)
    requires drained <= |log|
    ensures LastTime(setupTime, log + [e]) == e.at
    ensures ArmedTimers(setupTime, log + [e]) == ArmedTimers(setupTime, log) +
      (if e.at - LastTime(setupTime, log) > SettleDelay then [Timer(|log|, e.at + SettleDelay)] else [])
    ensures Queued(compileOption, (log + [e])[drained..]) ==
      Queued(compileOption, log[drained..]) + (if compileOption && e.compile then [e.path] else [])
  {
    assert (log + [e])[..|log|] == log;
    var pending := log[drained..];
    assert (log + [e])[drained..] == pending + [e];
    assert (pending + [e])[..|pending|] == pending;
  }

  /** The timers left alive after one more event are still among the live ones. */
  lemma ArmedAfterEvent(setupTime: int, log: seq<Event>, timers: seq<Timer>, e: Event, id: nat)
    requires id == |log|
    requires forall t :: t in timers ==> t in ArmedTimers(setupTime, log)
    ensures var pending := timers + (if e.at - LastTime(setupTime, log) > SettleDelay then [Timer(id, e.at + SettleDelay)] else []);
      forall t :: t in pending ==> t in ArmedTimers(setupTime, log + [e])
  {
    EventExtends(setupTime, false, log, 0, e);
  }

  /** Clearing the handle just created removes exactly that timer. */
  lemma ClearFresh(timers: seq<Timer>, t: Timer)
    requires forall u :: u in timers ==> u.id < t.id
    ensures Clear(timers + [t], t.id) == timers
  {
    if timers != [] {
      assert (timers + [t])[1..] == timers[1..] + [t];
      ClearFresh(timers[1..], t);
    } else {
      assert Clear([t], t.id) == [] + Clear([], t.id);
    }
  }
}
