/**
 The automatic failover of the menu-bar agent (VKTurnMenuBar/VKTurnMenuBar/AgentController.swift): the tunnel
 is started when the direct path has failed twice in a row and stopped when it has worked three times in a
 row, beside whatever the user does by hand.

 Processes are numbered in launch order. Whether the config file exists and whether a launch works are
 parts of the event that asks.
 */
module Failover {
  import opened Basics

  /** A `process?.terminate()` scheduled 1.5 s after a stop request: who asked, and how many processes
      had been launched then. */
  datatype Delayed = Delayed(byAuto: bool, launched: nat)

  datatype State = State(
    autoMode: bool,
    directOK: bool,
    process: Option<nat>,
    isRunning: bool,
    startedByAuto: bool,
    userStopped: bool,
    autoStopReason: bool,
    failStreak: nat,
    okStreak: nat,
    launched: nat,
    pending: seq<Delayed>)

  datatype Event =
    | Probe(ok: bool, config: bool, launches: bool)
    | UserStart(config: bool, launches: bool)
    | UserStop
    | Quit
    | Exit
    | Terminate
    | AutoOn
    | AutoOff

  predicate Enabled(s: State, e: Event) {
    match e
    case Exit => s.process.Some?
    case Terminate => s.pending != []
    case _ => true
  }

  // ---------- one handler, on values ----------

  function Started(s: State, auto: bool, config: bool, launches: bool): State {
    if s.process.Some? || !config || !launches then s
    else s.(process := Some(s.launched + 1), isRunning := true, startedByAuto := auto, userStopped := false,
            launched := s.launched + 1)
  }

  function Stopped(s: State, byAuto: bool): State {
    s.(userStopped := true, pending := s.pending + [Delayed(byAuto, s.launched)])
  }

  function Exited(s: State): State {
    s.(process := None, isRunning := false, startedByAuto := false, autoStopReason := false)
  }

  function Reset(s: State): State { s.(failStreak := 0, okStreak := 0) }

  function Noted(s: State, ok: bool): State {
    if ok then s.(directOK := true, okStreak := s.okStreak + 1, failStreak := 0)
    else s.(directOK := false, failStreak := s.failStreak + 1, okStreak := 0)
  }

  function Probed(s: State, ok: bool, config: bool, launches: bool): State {
    if !s.autoMode then s else
      var t := Noted(s, ok);
      if ok && t.isRunning && t.startedByAuto && t.okStreak >= 3 then Stopped(t.(autoStopReason := true), true)
      else if !ok && !t.isRunning && t.failStreak >= 2 then Started(t, true, config, launches)
      else t
  }

  function Step(s: State, e: Event): State
    requires Enabled(s, e)
  {
    match e
    case Probe(ok, config, launches) => Probed(s, ok, config, launches)
    case UserStart(config, launches) => Started(s, false, config, launches)
    case UserStop => Stopped(s, false)
    case Quit => Stopped(Reset(s), false)
    case Exit => Exited(s)
    case Terminate => s.(pending := s.pending[1..])
    case AutoOn => Reset(s.(autoMode := true))
    case AutoOff => Reset(s.(autoMode := false))
  }

  // ---------- the controller ----------

  class AgentController {
    var autoMode: bool
    var directOK: bool
    var process: Option<nat>
    var isRunning: bool
    var startedByAuto: bool
    var userStopped: bool
    var autoStopReason: bool
    var failStreak: nat
    var okStreak: nat
    var launched: nat
    var pending: seq<Delayed>

    function View(): State
      reads this
    {
      State(autoMode, directOK, process, isRunning, startedByAuto, userStopped, autoStopReason,
            failStreak, okStreak, launched, pending)
    }

    constructor (auto: bool)
      ensures Init(View()) && autoMode == auto
    {
      autoMode, directOK, process, isRunning, startedByAuto := auto, true, None, false, false;
      userStopped, autoStopReason, failStreak, okStreak, launched, pending := false, false, 0, 0, 0, [];
    }

    method StartInternal(auto: bool, config: bool, launches: bool)
      modifies this
      ensures View() == Started(old(View()), auto, config, launches)
    {
      if process.Some? {
        return;
      }
      if !config {
        return;
      }
      if !launches {
        return;
      }
      launched := launched + 1;
      process := Some(launched);
      startedByAuto := auto;
      userStopped := false;
      isRunning := true;
    }

    method StopInternal(byAuto: bool)
      modifies this
      ensures View() == Stopped(old(View()), byAuto)
    {
      userStopped := true;
      pending := pending + [Delayed(byAuto, launched)];
    }

    method OnProcessExit()
      modifies this
      ensures View() == Exited(old(View()))
    {
      process := None;
      startedByAuto := false;
      isRunning := false;
      if autoStopReason {
        autoStopReason := false;
      }
    }

    method StopAutoProbe()
      modifies this
      ensures View() == Reset(old(View()))
    {
      failStreak := 0;
      okStreak := 0;
    }

    method OnProbeResult(ok: bool, config: bool, launches: bool)
      modifies this
      ensures View() == Probed(old(View()), ok, config, launches)
    {
      if !autoMode {
        return;
      }
      directOK := ok;
      if ok {
        okStreak := okStreak + 1;
        failStreak := 0;
        if isRunning && startedByAuto && okStreak >= 3 {
          autoStopReason := true;
          StopInternal(true);
        }
      } else {
        failStreak := failStreak + 1;
        okStreak := 0;
        if !isRunning && failStreak >= 2 {
          if !config {
            return;
          }
          StartInternal(true, config, launches);
        }
      }
    }

    /** Every event goes to its handler. */
    method Handle(e: Event)
      requires Enabled(View(), e)
      modifies this
      ensures View() == Step(old(View()), e)
    {
      match e
      case Probe(ok, config, launches) => OnProbeResult(ok, config, launches);
      case UserStart(config, launches) => StartInternal(false, config, launches);
      case UserStop => StopInternal(false);
      case Quit =>
        StopAutoProbe();
        StopInternal(false);
      case Exit => OnProcessExit();
      case Terminate => pending := pending[1..];
      case AutoOn =>
        autoMode := true;
        StopAutoProbe();
      case AutoOff =>
        autoMode := false;
        StopAutoProbe();
    }
  }

  // ---------- whole traces ----------

  predicate Init(s: State) {
    && s.process.None? && !s.isRunning && !s.startedByAuto && !s.autoStopReason
    && s.failStreak == 0 && s.okStreak == 0 && s.launched == 0 && s.pending == []
  }

  predicate StepAt(states: seq<State>, events: seq<Event>, i: nat)
    requires i < |events| && i + 1 < |states|
  {
    Enabled(states[i], events[i]) && states[i + 1] == Step(states[i], events[i])
  }

  /** A trace from the start of the application. */
  predicate IsTrace(states: seq<State>, events: seq<Event>) {
    && |states| == |events| + 1
    && Init(states[0])
    && forall i :: 0 <= i < |events| ==> StepAt(states, events, i)
  }

  predicate Coherent(s: State) {
    && (s.isRunning <==> s.process.Some?)
    && (s.startedByAuto ==> s.process.Some?)
    && (s.autoStopReason ==> s.process.Some?)
    && (s.process.Some? ==> s.process.value == s.launched)
    && (forall i :: 0 <= i < |s.pending| ==> s.pending[i].launched <= s.launched)
  }

  lemma {:induction false} TraceCoherent(states: seq<State>, events: seq<Event>, i: nat)
    requires IsTrace(states, events) && i <= |events|
    ensures Coherent(states[i])
  {
    if i > 0 {
      TraceCoherent(states, events, i - 1);
      assert StepAt(states, events, i - 1);
    }
  }

  // ---------- streaks ----------

  /** The probe results delivered in auto mode since the streaks were last reset, after n events. */
  function Delivered(states: seq<State>, events: seq<Event>, n: nat): seq<bool>
    requires n <= |events| && |states| == |events| + 1
  {
    if n == 0 then [] else
      var before := Delivered(states, events, n - 1);
      match events[n - 1]
      case Probe(ok, _, _) => if states[n - 1].autoMode then before + [ok] else before
      case AutoOn => []
      case AutoOff => []
      case Quit => []
      case _ => before
  }

  /** k is the length of the longest run of b at the end of s. */
  predicate TrailingRun(s: seq<bool>, b: bool, k: nat) {
    && k <= |s|
    && (forall i :: |s| - k <= i < |s| ==> s[i] == b)
    && (k < |s| ==> s[|s| - k - 1] != b)
  }

  lemma RunAfter(d: seq<bool>, b: bool, k: nat, ok: bool)
    requires TrailingRun(d, b, k)
    ensures TrailingRun(d + [ok], b, if ok == b then k + 1 else 0)
  {
  }

  /** The streak counters are the trailing runs of the delivered results, over every trace. */
  lemma {:induction false} StreaksAreTrailingRuns(states: seq<State>, events: seq<Event>, n: nat)
    requires IsTrace(states, events) && n <= |events|
    ensures TrailingRun(Delivered(states, events, n), true, states[n].okStreak)
    ensures TrailingRun(Delivered(states, events, n), false, states[n].failStreak)
  {
    if n > 0 {
      StreaksAreTrailingRuns(states, events, n - 1);
      assert StepAt(states, events, n - 1);
      var s, e, d := states[n - 1], events[n - 1], Delivered(states, events, n - 1);
      if e.Probe? && s.autoMode {
        RunAfter(d, true, s.okStreak, e.ok);
        RunAfter(d, false, s.failStreak, e.ok);
      }
    }
  }

  /** Auto mode is what it was last set to, and setting it resets the streaks. */
  lemma AutoModeIsLastSetting(states: seq<State>, events: seq<Event>, i: nat)
    requires IsTrace(states, events) && i < |events|
    ensures events[i].AutoOn? ==> states[i + 1].autoMode
    ensures events[i].AutoOff? ==> !states[i + 1].autoMode
    ensures !events[i].AutoOn? && !events[i].AutoOff? ==> states[i + 1].autoMode == states[i].autoMode
    ensures events[i].AutoOn? || events[i].AutoOff? ==> states[i + 1].okStreak == 0 == states[i + 1].failStreak
  {
    assert StepAt(states, events, i);
  }

  /** The indicator shown to the user is the last result delivered in auto mode. */
  lemma DirectOkIsLastResult(states: seq<State>, events: seq<Event>, i: nat)
    requires IsTrace(states, events) && i < |events|
    ensures states[i + 1].directOK ==
            if events[i].Probe? && states[i].autoMode then events[i].ok else states[i].directOK
  {
    assert StepAt(states, events, i);
  }

  /** Event i launched a process on the agent's own initiative. */
  predicate AutoStarts(states: seq<State>, events: seq<Event>, i: nat)
    requires i < |events| && |states| == |events| + 1
  {
    events[i].Probe? && states[i + 1].launched > states[i].launched
  }

  /** Event i asked for a stop on the agent's own initiative. */
  predicate AutoStops(states: seq<State>, events: seq<Event>, i: nat)
    requires i < |events| && |states| == |events| + 1
  {
    events[i].Probe? && |states[i + 1].pending| > |states[i].pending|
  }

  /** The reason for the disconnect notice is set by auto mode's own stop request and lasts until the exit. */
  lemma AutoStopReasonMeans(states: seq<State>, events: seq<Event>, i: nat)
    requires IsTrace(states, events) && i < |events|
    ensures states[i + 1].autoStopReason <==>
            !events[i].Exit? && (AutoStops(states, events, i) || states[i].autoStopReason)
  {
    assert StepAt(states, events, i);
  }

  /** The tunnel is started by auto mode exactly when nothing runs, the launch can work, and this result and
      the one delivered before it both failed. */
  lemma AutoStartIff(states: seq<State>, events: seq<Event>, i: nat)
    requires IsTrace(states, events) && i < |events|
    ensures AutoStarts(states, events, i) <==>
            && events[i].Probe? && !events[i].ok && events[i].config && events[i].launches
            && states[i].autoMode && states[i].process.None?
            && var d := Delivered(states, events, i); d != [] && !d[|d| - 1]
  {
    TraceCoherent(states, events, i);
    StreaksAreTrailingRuns(states, events, i);
    assert StepAt(states, events, i);
  }

  /** It is stopped by auto mode exactly when the running process was started by auto mode and this result
      and the two delivered before it all worked. A tunnel started by hand is never asked to stop. */
  lemma AutoStopIff(states: seq<State>, events: seq<Event>, i: nat)
    requires IsTrace(states, events) && i < |events|
    ensures AutoStops(states, events, i) <==>
            && events[i].Probe? && events[i].ok
            && states[i].autoMode && states[i].process.Some? && states[i].startedByAuto
            && var d := Delivered(states, events, i); |d| >= 2 && d[|d| - 1] && d[|d| - 2]
  {
    TraceCoherent(states, events, i);
    StreaksAreTrailingRuns(states, events, i);
    assert StepAt(states, events, i);
  }

  /** The user's start launches a process exactly when none runs and the launch can work, and it is not auto
      mode's. */
  lemma ManualStartIff(states: seq<State>, events: seq<Event>, i: nat)
    requires IsTrace(states, events) && i < |events| && events[i].UserStart?
    ensures states[i + 1].launched > states[i].launched <==>
            states[i].process.None? && events[i].config && events[i].launches
    ensures states[i + 1].launched > states[i].launched ==>
            && states[i + 1].isRunning && !states[i + 1].startedByAuto && !states[i + 1].userStopped
            && states[i + 1].process == Some(states[i].launched + 1)
  {
    assert StepAt(states, events, i);
  }

  /** The user's stop, quitting included, is noted as asked for, and schedules a terminate for what runs. */
  lemma UserStopNoted(states: seq<State>, events: seq<Event>, i: nat)
    requires IsTrace(states, events) && i < |events| && (events[i].UserStop? || events[i].Quit?)
    ensures states[i + 1].userStopped && states[i + 1].process == states[i].process
    ensures states[i + 1].pending == states[i].pending + [Delayed(false, states[i].launched)]
  {
    assert StepAt(states, events, i);
  }

  /** An exit forgets the process and nothing else: the streaks and the pending terminates stay. */
  lemma ExitForgetsProcess(states: seq<State>, events: seq<Event>, i: nat)
    requires IsTrace(states, events) && i < |events| && events[i].Exit?
    ensures states[i + 1].process.None? && !states[i + 1].isRunning && !states[i + 1].startedByAuto
    ensures states[i + 1].pending == states[i].pending && states[i + 1].autoMode == states[i].autoMode
    ensures states[i + 1].failStreak == states[i].failStreak && states[i + 1].okStreak == states[i].okStreak
  {
    assert StepAt(states, events, i);
  }

  /** Who started the running process: the launch event recorded in the trace. */
  lemma {:induction false} StartedByAutoMeans(states: seq<State>, events: seq<Event>, n: nat) returns (i: nat)
    requires IsTrace(states, events) && n <= |events| && states[n].process.Some?
    ensures i < n && states[i + 1].launched > states[i].launched && states[i + 1].process == states[n].process
    ensures states[n].startedByAuto <==> events[i].Probe?
  {
    assert StepAt(states, events, n - 1);
    TraceCoherent(states, events, n - 1);
    if states[n - 1].process.Some? {
      i := StartedByAutoMeans(states, events, n - 1);
    } else {
      i := n - 1;
    }
  }

  // ---------- hysteresis ----------

  /** A stop by the user, or an exit nobody asked for. */
  predicate Disturbs(s: State, e: Event) {
    e.UserStop? || e.Quit? || (e.Exit? && !s.userStopped)
  }

  /** How many results were delivered by events from i up to, not including, j. */
  function Results(states: seq<State>, events: seq<Event>, i: nat, j: nat): nat
    requires i <= j <= |events| && |states| == |events| + 1
  {
    if i == j then 0 else
      Results(states, events, i, j - 1) + if events[j - 1].Probe? && states[j - 1].autoMode then 1 else 0
  }

  /** Where the agent is, c delivered results after an automatic start. */
  predicate Phase(s: State, c: nat) {
    if s.startedByAuto && !s.userStopped then s.okStreak <= c
    else c >= 3 && s.failStreak + 3 <= c
  }

  lemma PhaseStep(s: State, e: Event, c: nat)
    requires Coherent(s) && Enabled(s, e) && Phase(s, c) && !Disturbs(s, e)
    ensures var c' := c + if e.Probe? && s.autoMode then 1 else 0;
            var t := Step(s, e);
            if e.Probe? && t.launched > s.launched then c' >= 5 else Phase(t, c')
  {
  }

  lemma {:induction false} PhaseReached(states: seq<State>, events: seq<Event>, i: nat, j: nat)
    requires IsTrace(states, events) && i < j <= |events| && AutoStarts(states, events, i)
    requires forall k :: i < k < j ==> !AutoStarts(states, events, k) && !Disturbs(states[k], events[k])
    ensures Phase(states[j], Results(states, events, i + 1, j))
  {
    if j == i + 1 {
      TraceCoherent(states, events, i);
      assert StepAt(states, events, i);
    } else {
      PhaseReached(states, events, i, j - 1);
      TraceCoherent(states, events, j - 1);
      assert StepAt(states, events, j - 1);
      PhaseStep(states[j - 1], events[j - 1], Results(states, events, i + 1, j - 1));
    }
  }

  lemma {:induction false} ResultsGrow(states: seq<State>, events: seq<Event>, i: nat, k: nat, j: nat)
    requires i <= k <= j <= |events| && |states| == |events| + 1
    ensures Results(states, events, k, j) <= Results(states, events, i, j)
  {
    if k < j { ResultsGrow(states, events, i, k, j - 1); }
  }

  /** The last automatic start before j. */
  lemma {:induction false} LastAutoStart(states: seq<State>, events: seq<Event>, i: nat, j: nat) returns (k: nat)
    requires IsTrace(states, events) && i < j <= |events| && AutoStarts(states, events, i)
    ensures i <= k < j && AutoStarts(states, events, k)
    ensures forall m :: k < m < j ==> !AutoStarts(states, events, m)
  {
    if j == i + 1 || AutoStarts(states, events, j - 1) {
      k := j - 1;
    } else {
      k := LastAutoStart(states, events, i, j - 1);
    }
  }

  /** No flapping: two automatic starts with no user stop and no unrequested exit between them are at least
      five delivered probe results apart, the second start's own result included. */
  lemma AutoStartsFarApart(states: seq<State>, events: seq<Event>, i: nat, j: nat)
    requires IsTrace(states, events) && i < j < |events|
    requires AutoStarts(states, events, i) && AutoStarts(states, events, j)
    requires forall k :: i < k < j ==> !Disturbs(states[k], events[k])
    ensures Results(states, events, i + 1, j + 1) >= 5
  {
    var k := LastAutoStart(states, events, i, j);
    PhaseReached(states, events, k, j);
    TraceCoherent(states, events, j);
    assert StepAt(states, events, j);
    PhaseStep(states[j], events[j], Results(states, events, k + 1, j));
    ResultsGrow(states, events, i + 1, k + 1, j + 1);
  }

  // ---------- the delayed terminate ----------

  /** The terminate that fires next reaches a process launched after the stop request it belongs to. */
  predicate HitsAnother(s: State) {
    s.pending != [] && s.process.Some? && s.process.value != s.pending[0].launched
  }

  /** The terminate that fires next was asked for by auto mode and reaches a tunnel started by hand. */
  predicate AutoHitsManual(s: State) {
    s.pending != [] && s.process.Some? && s.pending[0].byAuto && !s.startedByAuto
  }

  /** How many delayed terminates fired between events i and j. */
  function Terminates(events: seq<Event>, i: nat, j: nat): nat
    requires i <= j <= |events|
  {
    if i == j then 0 else Terminates(events, i, j - 1) + if events[j - 1].Terminate? then 1 else 0
  }

  /** Event j launched a process that still runs after n events. */
  predicate RunsSince(states: seq<State>, events: seq<Event>, j: nat, n: nat)
    requires |states| == |events| + 1
  {
    && j < n <= |events|
    && states[j + 1].launched > states[j].launched
    && forall k :: j < k < n ==> !events[k].Exit?
  }

  /** One event while a process runs. */
  lemma PendingStep(s: State, e: Event) returns (asked: seq<Delayed>)
    requires Coherent(s) && Enabled(s, e) && s.process.Some? && !e.Exit?
    ensures var t := Step(s, e);
            && t.pending == (if e.Terminate? then s.pending[1..] else s.pending + asked)
            && t.process == s.process && t.launched == s.launched && t.startedByAuto == s.startedByAuto
    ensures e.Terminate? ==> asked == []
    ensures forall d :: d in asked ==> d.launched == s.launched && (d.byAuto ==> s.startedByAuto)
  {
    asked := if e.Terminate? then [] else Step(s, e).pending[|s.pending|..];
  }

  /** What is pending while that process runs: what was pending at its launch and has not fired, then
      requests made since, which are about the process itself, and by auto mode only if that started it. */
  lemma {:induction false} PendingSinceLaunch(states: seq<State>, events: seq<Event>, j: nat, n: nat)
    returns (since: seq<Delayed>)
    requires IsTrace(states, events) && RunsSince(states, events, j, n)
    ensures var all := states[j].pending + since; var fired := Terminates(events, j + 1, n);
            fired <= |all| && states[n].pending == all[fired..]
    ensures states[n].process == Some(states[j + 1].launched) && states[n].launched == states[j + 1].launched
    ensures states[n].startedByAuto == states[j + 1].startedByAuto
    ensures forall d :: d in since ==> d.launched == states[n].launched && (d.byAuto ==> states[n].startedByAuto)
  {
    assert StepAt(states, events, n - 1);
    TraceCoherent(states, events, n - 1);
    if n == j + 1 {
      since := [];
      LaunchStep(states[j], events[j]);
      assert states[j].pending + since == states[j].pending;
    } else {
      since := PendingSinceLaunch(states, events, j, n - 1);
      var asked := PendingStep(states[n - 1], events[n - 1]);
      Shift(states[j].pending, since, asked, Terminates(events, j + 1, n - 1), events[n - 1].Terminate?);
      since := since + asked;
    }
  }

  lemma LaunchStep(s: State, e: Event)
    requires Coherent(s) && Enabled(s, e) && Step(s, e).launched > s.launched
    ensures Step(s, e).pending == s.pending && Step(s, e).process == Some(Step(s, e).launched)
  {
  }

  lemma Shift(before: seq<Delayed>, since: seq<Delayed>, asked: seq<Delayed>, fired: nat, fires: bool)
    requires fired <= |before + since| && (fires ==> asked == [] && (before + since)[fired..] != [])
    ensures var all := before + (since + asked);
            all[if fires then fired + 1 else fired..] ==
            if fires then (before + since)[fired..][1..] else (before + since)[fired..] + asked
  {
    assert before + (since + asked) == before + since + asked;
  }

  /** While a process runs, the terminate that fires next is a foreign one exactly as long as fewer
      terminates have fired since its launch than were pending at its launch. */
  lemma HitsAnotherIff(states: seq<State>, events: seq<Event>, j: nat, n: nat)
    requires IsTrace(states, events) && RunsSince(states, events, j, n)
    ensures HitsAnother(states[n]) <==> Terminates(events, j + 1, n) < |states[j].pending|
  {
    var since := PendingSinceLaunch(states, events, j, n);
    TraceCoherent(states, events, j);
    var all, fired := states[j].pending + since, Terminates(events, j + 1, n);
    if fired < |all| { assert states[n].pending[0] == all[fired]; }
  }

  /** For a tunnel started by hand: the next terminate is auto mode's exactly when it is one of those
      pending at the launch, and auto mode asked for it. */
  lemma AutoHitsManualIff(states: seq<State>, events: seq<Event>, j: nat, n: nat)
    requires IsTrace(states, events) && RunsSince(states, events, j, n) && events[j].UserStart?
    ensures AutoHitsManual(states[n]) <==>
            var fired := Terminates(events, j + 1, n);
            fired < |states[j].pending| && states[j].pending[fired].byAuto
  {
    assert StepAt(states, events, j);
    var since := PendingSinceLaunch(states, events, j, n);
    var all, fired := states[j].pending + since, Terminates(events, j + 1, n);
    if fired < |all| {
      assert states[n].pending[0] == all[fired];
      assert fired >= |states[j].pending| ==> all[fired] in since;
    }
  }

  /** So a tunnel started by hand while no stop of auto mode is pending is never ended by one. */
  lemma ManualStartSafe(states: seq<State>, events: seq<Event>, j: nat, n: nat)
    requires IsTrace(states, events) && RunsSince(states, events, j, n) && events[j].UserStart?
    requires forall d :: d in states[j].pending ==> !d.byAuto
    ensures !AutoHitsManual(states[n])
  {
    AutoHitsManualIff(states, events, j, n);
  }

  /** And one started while such a stop is pending can be: let the terminates before it fire. */
  lemma {:induction false} ManualStartAtRisk(states: seq<State>, events: seq<Event>, k: nat)
    returns (ss: seq<State>, es: seq<Event>)
    requires IsTrace(states, events)
    requires var s := states[|events|];
             s.process.Some? && !s.startedByAuto && k < |s.pending| && s.pending[k].byAuto
    ensures IsTrace(ss, es) && events <= es && AutoHitsManual(ss[|es|])
    ensures forall i :: |events| <= i < |es| ==> es[i] == Terminate
    decreases k
  {
    if k == 0 {
      ss, es := states, events;
    } else {
      TraceExtends(states, events, Terminate);
      var next := Step(states[|events|], Terminate);
      ss, es := ManualStartAtRisk(states + [next], events + [Terminate], k - 1);
      assert es[|events|] == (events + [Terminate])[|events|];
    }
  }

  lemma TraceExtends(states: seq<State>, events: seq<Event>, e: Event)
    requires IsTrace(states, events) && Enabled(states[|events|], e)
    ensures IsTrace(states + [Step(states[|events|], e)], events + [e])
  {
    var ss, es := states + [Step(states[|events|], e)], events + [e];
    forall i | 0 <= i < |es| ensures StepAt(ss, es, i) {
      assert i < |events| ==> StepAt(states, events, i);
    }
  }

  /** Two failures, three successes: the tunnel is up, and asked to stop. */
  lemma UpAndDown() returns (states: seq<State>, events: seq<Event>)
    ensures IsTrace(states, events)
    ensures var s := states[|events|];
            s.process.Some? && s.launched == 1 && s.pending == [Delayed(true, 1)]
  {
    var fail, ok := Probe(false, true, true), Probe(true, true, true);
    states, events := [State(true, true, None, false, false, false, false, 0, 0, 0, [])], [];
    for i := 0 to 2
      invariant IsTrace(states, events) && |events| == i
      invariant var s := states[i];
                && s.autoMode && s.failStreak == i && s.pending == []
                && s.launched == (if i == 2 then 1 else 0)
                && s.isRunning == s.startedByAuto == s.process.Some? == (i == 2) && s.okStreak == 0
    {
      TraceExtends(states, events, fail);
      states, events := states + [Step(states[|events|], fail)], events + [fail];
    }
    for i := 0 to 3
      invariant IsTrace(states, events) && |events| == i + 2
      invariant var s := states[i + 2];
                && s.autoMode && s.okStreak == i && s.launched == 1
                && s.isRunning && s.startedByAuto && s.process.Some?
                && s.pending == if i == 3 then [Delayed(true, 1)] else []
    {
      TraceExtends(states, events, ok);
      states, events := states + [Step(states[|events|], ok)], events + [ok];
    }
  }

  /** A stop requested by auto mode can end a tunnel the user has since started by hand. */
  lemma AutoStopReachesManualTunnel() returns (states: seq<State>, events: seq<Event>)
    ensures IsTrace(states, events)
    ensures var s := states[|events|]; AutoHitsManual(s) && HitsAnother(s) && !s.userStopped
  {
    states, events := UpAndDown();
    TraceExtends(states, events, Exit);
    states, events := states + [Step(states[|events|], Exit)], events + [Exit];
    var again := UserStart(true, true);
    TraceExtends(states, events, again);
    states, events := states + [Step(states[|events|], again)], events + [again];
  }
}
