/** The behaviour of the generated supervisor script (`buildSupervisorScript`) together with the inittab action that
    starts it (`buildInittab`): health checking, restart back-off, and what may run again. */
module Supervisor {
  import opened Bytes

  datatype Signal = Term | Kill

  /** One turn of the health-check loop: whether the child survived the sleep, and what the probe said. */
  datatype Tick = Tick(alive: bool, healthy: bool)

  /** One run of the service command. Without a health check, no ticks. */
  datatype Life = Life(ticks: seq<Tick>, code: int, elapsed: nat)

  datatype Event = Started | Sent(signal: Signal) | Ended(code: int) | Slept(seconds: nat)

  // ----- the health-check loop

  datatype Watch = Watch(failcount: nat, killed: bool, signals: seq<Signal>)

  function WatchTick(w: Watch, retries: int, t: Tick): Watch {
    if !t.alive then w
    else if t.healthy then w.(failcount := 0)
    else if w.failcount + 1 >= retries then Watch(w.failcount + 1, true, w.signals + [if w.killed then Kill else Term])
    else w.(failcount := w.failcount + 1)
  }

  function Watched(retries: int, ticks: seq<Tick>): Watch {
    if ticks == [] then Watch(0, false, []) else WatchTick(Watched(retries, ticks[..|ticks| - 1]), retries, ticks[|ticks| - 1])
  }

  function Sends(signals: seq<Signal>): (r: seq<Event>)
    ensures |r| == |signals|
  {
    seq(|signals|, i requires 0 <= i < |signals| => Sent(signals[i]))
  }

  // ----- restart and back-off

  function Capped(n: nat): nat { if n > 30 then 30 else n }

  /** The counter after a run: reset first when the run outlived the delay its own restart would have used. */
  function NextCount(n: nat, elapsed: nat): nat {
    if elapsed > Capped(n) then 1 else n + 1
  }

  datatype Script = Script(n: nat, exited: Option<int>, trace: seq<Event>)

  function LifeEvents(hc: Option<int>, life: Life): seq<Event> {
    [Started] + (if hc.Some? then Sends(Watched(hc.value, life.ticks).signals) else []) + [Ended(life.code)]
  }

  function AfterLife(restart: string, hc: Option<int>, s: Script, life: Life): Script {
    if s.exited.Some? then s
    else
      var trace := s.trace + LifeEvents(hc, life);
      if restart == "no" || (restart == "on-failure" && life.code == 0) then Script(s.n, Some(life.code), trace)
      else
        var n := NextCount(s.n, life.elapsed);
        Script(n, None, trace + [Slept(Capped(n))])
  }

  function RunScript(restart: string, hc: Option<int>, lives: seq<Life>): Script {
    if lives == [] then Script(0, None, []) else AfterLife(restart, hc, RunScript(restart, hc, lives[..|lives| - 1]), lives[|lives| - 1])
  }

  datatype Action = Respawn | Once

  function InittabAction(restart: string): Action {
    if restart == "on-failure" || restart == "no" then Once else Respawn
  }

  /** What init makes of several sessions of the script, each ended by its own exit or by a signal from outside:
      a once entry is never started again. */
  function Booted(restart: string, hc: Option<int>, sessions: seq<seq<Life>>): seq<Event> {
    if sessions == [] then []
    else if InittabAction(restart) == Once then RunScript(restart, hc, sessions[0]).trace
    else Booted(restart, hc, sessions[..|sessions| - 1]) + RunScript(restart, hc, sessions[|sessions| - 1]).trace
  }

  // ----- the script, statement by statement

  class ServiceScript {
    const restart: string
    const hc: Option<int>
    var n: nat
    var failcount: nat
    var killed: bool
    var exited: Option<int>
    var trace: seq<Event>

    constructor (restart: string, hc: Option<int>)
      ensures this.restart == restart && this.hc == hc && State() == Script(0, None, [])
    {
      this.restart, this.hc := restart, hc;
      n, failcount, killed, exited, trace := 0, 0, false, None, [];
    }

    ghost function State(): Script
      reads this
    {
      Script(n, exited, trace)
    }

    /** The command, in the background with its health-check loop when there is one, up to `code=$?`. */
    method RunOnce(life: Life) returns (code: int)
      modifies this
      ensures code == life.code && n == old(n) && exited == old(exited)
      ensures trace == old(trace) + LifeEvents(hc, life)
    {
      trace := trace + [Started];
      if hc.Some? {
        failcount, killed := 0, false;
        ghost var before := trace;
        assert Sends([]) == [];
        for i := 0 to |life.ticks|
          invariant n == old(n) && exited == old(exited)
          invariant Watched(hc.value, life.ticks[..i]).failcount == failcount
          invariant Watched(hc.value, life.ticks[..i]).killed == killed
          invariant trace == before + Sends(Watched(hc.value, life.ticks[..i]).signals)
        {
          assert life.ticks[..i + 1][..i] == life.ticks[..i];
          ghost var sent := Watched(hc.value, life.ticks[..i]).signals;
          var t := life.ticks[i];
          if t.alive {
            if t.healthy {
              failcount := 0;
            } else {
              failcount := failcount + 1;
              if failcount >= hc.value {
                SendsAppend(sent, if killed then Kill else Term);
                if !killed {
                  trace := trace + [Sent(Term)];
                  killed := true;
                } else {
                  trace := trace + [Sent(Kill)];
                }
              }
            }
          }
        }
        assert life.ticks[..|life.ticks|] == life.ticks;
      }
      trace := trace + [Ended(life.code)];
      code := life.code;
    }

    method BackoffResetAndSleep(elapsed: nat)
      modifies `n, `trace
      ensures n == NextCount(old(n), elapsed) && trace == old(trace) + [Slept(Capped(n))]
    {
      var d := n;
      if d > 30 {
        d := 30;
      }
      if elapsed > d {
        n := 0;
      }
      n := n + 1;
      d := n;
      if d > 30 {
        d := 30;
      }
      trace := trace + [Slept(d)];
    }

    /** The script's loop over the lives its environment gives the command. */
    method Run(lives: seq<Life>)
      requires State() == Script(0, None, [])
      modifies this
      ensures State() == RunScript(restart, hc, lives)
    {
      for i := 0 to |lives|
        invariant exited.None?
        invariant State() == RunScript(restart, hc, lives[..i])
      {
        assert lives[..i + 1][..i] == lives[..i];
        var code := RunOnce(lives[i]);
        if restart == "no" || (restart == "on-failure" && code == 0) {
          exited := Some(code);
          ExitedForGood(restart, hc, lives, i + 1);
          return;
        }
        BackoffResetAndSleep(lives[i].elapsed);
      }
      assert lives[..|lives|] == lives;
    }
  }

  lemma SendsAppend(signals: seq<Signal>, s: Signal)
    ensures Sends(signals + [s]) == Sends(signals) + [Sent(s)]
  {
  }

  lemma {:induction false} ExitedForGood(restart: string, hc: Option<int>, lives: seq<Life>, i: nat)
    requires i <= |lives| && RunScript(restart, hc, lives[..i]).exited.Some?
    ensures RunScript(restart, hc, lives) == RunScript(restart, hc, lives[..i])
    decreases |lives| - i
  {
    if i == |lives| {
      assert lives[..i] == lives;
    } else {
      assert lives[..i + 1][..i] == lives[..i];
      ExitedForGood(restart, hc, lives, i + 1);
    }
  }

  // ----- signals

  /** The number of failed probes since the last healthy one; turns in which the child died are not probed. */
  function TrailingFailures(ticks: seq<Tick>): nat {
    if ticks == [] then 0
    else
      var t := ticks[|ticks| - 1];
      var before := TrailingFailures(ticks[..|ticks| - 1]);
      if !t.alive then before else if t.healthy then 0 else before + 1
  }

  function Threshold(retries: int): nat { if retries < 1 then 1 else retries }

  /** Turn k probed a failure that completed a run of at least max(1, retries) consecutive ones. */
  predicate Unhealthy(retries: int, ticks: seq<Tick>, k: nat)
    requires k < |ticks|
  {
    ticks[k].alive && !ticks[k].healthy && TrailingFailures(ticks[..k + 1]) >= Threshold(retries)
  }

  function UnhealthyTurns(retries: int, ticks: seq<Tick>): nat {
    if ticks == [] then 0
    else UnhealthyTurns(retries, ticks[..|ticks| - 1]) + if Unhealthy(retries, ticks, |ticks| - 1) then 1 else 0
  }

  function Escalation(count: nat): (r: seq<Signal>)
    ensures |r| == count
  {
    seq(count, i => if i == 0 then Term else Kill)
  }

  /** A signal is sent in exactly the turns that complete max(1, retries) consecutive failed probes: SIGTERM in the first
      of them, SIGKILL in every later one, so that no child is killed before it was asked to terminate. */
  lemma {:induction false} SignalsEscalate(retries: int, ticks: seq<Tick>)
    ensures var w := Watched(retries, ticks);
            && w.failcount == TrailingFailures(ticks)
            && w.signals == Escalation(UnhealthyTurns(retries, ticks))
            && (w.killed <==> UnhealthyTurns(retries, ticks) > 0)
  {
    if ticks != [] {
      var front := ticks[..|ticks| - 1];
      SignalsEscalate(retries, front);
      assert ticks[..|ticks| - 1 + 1] == ticks;
      var c := UnhealthyTurns(retries, front);
      assert Escalation(c + 1) == Escalation(c) + [if c > 0 then Kill else Term];
    }
  }

  predicate AllFail(ticks: seq<Tick>) {
    forall i :: 0 <= i < |ticks| ==> ticks[i].alive && !ticks[i].healthy
  }

  /** A child that stays alive and unhealthy is sent SIGTERM at failure max(1, retries), SIGKILL at the next one and at
      every one after it. */
  lemma {:induction false} WedgedChildIsKilled(retries: int, ticks: seq<Tick>)
    requires AllFail(ticks)
    ensures TrailingFailures(ticks) == |ticks|
    ensures UnhealthyTurns(retries, ticks) == if |ticks| < Threshold(retries) then 0 else |ticks| - Threshold(retries) + 1
    ensures Watched(retries, ticks).signals == Escalation(UnhealthyTurns(retries, ticks))
  {
    if ticks != [] {
      WedgedChildIsKilled(retries, ticks[..|ticks| - 1]);
      assert ticks[..|ticks| - 1 + 1] == ticks;
    }
    SignalsEscalate(retries, ticks);
  }

  /** A child that is always healthy when probed is never signalled. */
  lemma {:induction false} HealthyChildIsLeftAlone(retries: int, ticks: seq<Tick>)
    requires forall i :: 0 <= i < |ticks| ==> ticks[i].alive ==> ticks[i].healthy
    ensures Watched(retries, ticks).signals == [] && TrailingFailures(ticks) == 0
  {
    if ticks != [] {
      HealthyChildIsLeftAlone(retries, ticks[..|ticks| - 1]);
    }
  }

  /** SIGTERM is remembered across recovery: a child that answered one probe after it and then fails max(1, retries)
      more in a row is sent SIGKILL without a second SIGTERM. */
  lemma RecoveredChildIsKilledOutright(retries: int, bad: seq<Tick>, more: seq<Tick>)
    requires AllFail(bad) && AllFail(more) && |bad| == |more| == Threshold(retries)
    ensures Watched(retries, bad + [Tick(true, true)] + more).signals == [Term, Kill]
  {
    WedgedChildIsKilled(retries, bad);
    SignalsEscalate(retries, bad);
    var mid := bad + [Tick(true, true)];
    assert mid[..|mid| - 1] == bad;
    assert UnhealthyTurns(retries, bad) == 1 && Escalation(1) == [Term];
    AfterRecovery(retries, mid, more);
  }

  lemma {:induction false} AfterRecovery(retries: int, mid: seq<Tick>, more: seq<Tick>)
    requires Watched(retries, mid) == Watch(0, true, [Term]) && AllFail(more) && |more| <= Threshold(retries)
    ensures Watched(retries, mid + more) == Watch(|more|, true, if |more| == Threshold(retries) then [Term, Kill] else [Term])
  {
    if more == [] {
      assert mid + more == mid;
    } else {
      var front := more[..|more| - 1];
      AfterRecovery(retries, mid, front);
      assert (mid + more)[..|mid + more| - 1] == mid + front;
    }
  }

  // ----- back-off

  /** A life is a start, then only the signals of its watch, then its end, with its exit code; without a health check
      there are no signals. */
  lemma LifeEventsShape(hc: Option<int>, life: Life)
    ensures var e := LifeEvents(hc, life);
            && |e| > 1 && e[0] == Started && e[|e| - 1] == Ended(life.code)
            && (forall i :: 1 <= i < |e| - 1 ==> e[i].Sent?)
            && (hc.None? ==> e == [Started, Ended(life.code)])
            && (hc.Some? ==> |e| == |Watched(hc.value, life.ticks).signals| + 2
                             && forall i :: 0 <= i < |e| - 2 ==> e[i + 1] == Sent(Watched(hc.value, life.ticks).signals[i]))
  {
    hide Watched;
  }

  /** Every sleep in every session is between 1 and 30 seconds, and the counter is at least 1 once a run has ended. */
  lemma {:induction false} SleepsAreBounded(restart: string, hc: Option<int>, lives: seq<Life>)
    ensures var s := RunScript(restart, hc, lives);
            && (forall i :: 0 <= i < |s.trace| && s.trace[i].Slept? ==> 1 <= s.trace[i].seconds <= 30)
            && (lives != [] && s.exited.None? ==> s.n >= 1)
  {
    hide LifeEvents, Capped;
    if lives != [] {
      var front, last := lives[..|lives| - 1], lives[|lives| - 1];
      SleepsAreBounded(restart, hc, front);
      LifeEventsShape(hc, last);
      CappedRange(NextCount(RunScript(restart, hc, front).n, last.elapsed));
    }
  }

  lemma CappedRange(n: nat)
    ensures n >= 1 ==> 1 <= Capped(n) <= 30
  {
  }

  /** A run longer than its own back-off puts the counter back at 1, from wherever a crash loop had driven it. */
  lemma LongRunResets(restart: string, hc: Option<int>, s: Script, life: Life)
    requires s.exited.None? && AfterLife(restart, hc, s, life).exited.None?
    requires life.elapsed > if s.n > 30 then 30 else s.n
    ensures AfterLife(restart, hc, s, life).n == 1
    ensures var trace := AfterLife(restart, hc, s, life).trace; trace[|trace| - 1] == Slept(1)
  {
  }

  /** While no run outlives its own back-off, the counter is the number of runs and the sleeps grow by a second each, up
      to 30. */
  lemma {:induction false} CrashLoopBacksOffLinearly(restart: string, hc: Option<int>, lives: seq<Life>)
    requires RunScript(restart, hc, lives).exited.None?
    requires forall i :: 0 <= i < |lives| ==> lives[i].elapsed <= if i > 30 then 30 else i
    ensures RunScript(restart, hc, lives).n == |lives|
    ensures lives != [] ==>
              var trace := RunScript(restart, hc, lives).trace; trace[|trace| - 1] == Slept(if |lives| > 30 then 30 else |lives|)
  {
    if lives != [] {
      CrashLoopBacksOffLinearly(restart, hc, lives[..|lives| - 1]);
    }
  }

  /** A saturated back-off stays at 30 seconds through any further runs of at most 30 seconds. */
  lemma {:induction false} SaturatedUntilLongRun(restart: string, hc: Option<int>, lives: seq<Life>, more: seq<Life>)
    requires RunScript(restart, hc, lives).n >= 30 && RunScript(restart, hc, lives + more).exited.None?
    requires forall i :: 0 <= i < |more| ==> more[i].elapsed <= 30
    ensures RunScript(restart, hc, lives + more).n >= 30
    ensures more != [] ==> var trace := RunScript(restart, hc, lives + more).trace; trace[|trace| - 1] == Slept(30)
  {
    hide LifeEvents;
    if more == [] {
      assert lives + more == lives;
    } else {
      var front := more[..|more| - 1];
      assert (lives + more)[..|lives + more| - 1] == lives + front;
      SaturatedUntilLongRun(restart, hc, lives, front);
    }
  }

  // ----- what may run again

  function Starts(trace: seq<Event>): nat {
    if trace == [] then 0 else Starts(trace[..|trace| - 1]) + if trace[|trace| - 1] == Started then 1 else 0
  }

  lemma {:induction false} StartsAppend(a: seq<Event>, b: seq<Event>)
    ensures Starts(a + b) == Starts(a) + Starts(b)
  {
    if b == [] {
      assert a + b == a;
    } else {
      assert (a + b)[..|a + b| - 1] == a + b[..|b| - 1];
      StartsAppend(a, b[..|b| - 1]);
    }
  }

  lemma {:induction false} SendsStartNothing(signals: seq<Signal>)
    ensures Starts(Sends(signals)) == 0
  {
    if signals != [] {
      SendsStartNothing(signals[..|signals| - 1]);
      assert Sends(signals)[..|signals| - 1] == Sends(signals[..|signals| - 1]);
    }
  }

  lemma LifeStartsOnce(hc: Option<int>, life: Life)
    ensures Starts(LifeEvents(hc, life)) == 1
  {
    var signals := if hc.Some? then Sends(Watched(hc.value, life.ticks).signals) else [];
    if hc.Some? {
      SendsStartNothing(Watched(hc.value, life.ticks).signals);
    }
    StartsAppend([Started] + signals, [Ended(life.code)]);
    StartsAppend([Started], signals);
    assert [Started][..0] == [] && [Ended(life.code)][..0] == [];
  }

  /** The script starts the command once per life until it exits. */
  lemma {:induction false} ScriptStarts(restart: string, hc: Option<int>, lives: seq<Life>)
    ensures Starts(RunScript(restart, hc, lives).trace) <= |lives|
    ensures RunScript(restart, hc, lives).exited.None? ==> Starts(RunScript(restart, hc, lives).trace) == |lives|
    ensures restart == "no" ==> Starts(RunScript(restart, hc, lives).trace) == Min(1, |lives|) && (RunScript(restart, hc, lives).exited.Some? <==> lives != [])
  {
    if lives != [] {
      var front, last := lives[..|lives| - 1], lives[|lives| - 1];
      ScriptStarts(restart, hc, front);
      var s := RunScript(restart, hc, front);
      LifeStartsOnce(hc, last);
      StartsAppend(s.trace, LifeEvents(hc, last));
      var n := NextCount(s.n, last.elapsed);
      StartsAppend(s.trace + LifeEvents(hc, last), [Slept(Capped(n))]);
      assert [Slept(Capped(n))][..0] == [];
    }
  }

  /** Init starts another session whenever one ends, under every policy other than "no" and "on-failure": the trace is
      that of all sessions, one after the other. */
  lemma {:induction false} RespawnRunsEverySession(restart: string, hc: Option<int>, sessions: seq<seq<Life>>)
    requires restart != "no" && restart != "on-failure"
    ensures Booted(restart, hc, sessions) == AllTraces(restart, hc, sessions)
    ensures Starts(Booted(restart, hc, sessions)) == TotalLives(sessions)
  {
    if sessions != [] {
      var n := |sessions| - 1;
      RespawnRunsEverySession(restart, hc, sessions[..n]);
      StartsAppend(Booted(restart, hc, sessions[..n]), RunScript(restart, hc, sessions[n]).trace);
      AlwaysKeepsRunning(restart, hc, sessions[n]);
    }
  }

  function AllTraces(restart: string, hc: Option<int>, sessions: seq<seq<Life>>): seq<Event> {
    if sessions == [] then [] else AllTraces(restart, hc, sessions[..|sessions| - 1]) + RunScript(restart, hc, sessions[|sessions| - 1]).trace
  }

  function TotalLives(sessions: seq<seq<Life>>): nat {
    if sessions == [] then 0 else TotalLives(sessions[..|sessions| - 1]) + |sessions[|sessions| - 1]|
  }

  /** The script's own exit code is the command's with "no", and 0 with "on-failure". */
  lemma {:induction false} ExitCodes(hc: Option<int>, lives: seq<Life>)
    requires lives != []
    ensures RunScript("no", hc, lives).exited == Some(lives[0].code)
    ensures RunScript("on-failure", hc, lives).exited in {None, Some(0)}
  {
    hide LifeEvents;
    if |lives| > 1 {
      ExitCodes(hc, lives[..|lives| - 1]);
    } else {
      assert lives[..0] == [];
    }
  }

  /** With "no", init and script together start the command exactly once, in the first session if it gets that far,
      however often the script is ended. */
  lemma NoRunsOnce(hc: Option<int>, sessions: seq<seq<Life>>)
    ensures Starts(Booted("no", hc, sessions)) == if sessions != [] && sessions[0] != [] then 1 else 0
  {
    if sessions != [] {
      ScriptStarts("no", hc, sessions[0]);
    }
  }

  /** With "on-failure", nothing at all happens after the command ended with code 0. */
  lemma {:induction false} SuccessIsFinal(hc: Option<int>, lives: seq<Life>)
    ensures var s := RunScript("on-failure", hc, lives);
            && (forall i :: 0 <= i < |s.trace| && s.trace[i] == Ended(0) ==> i == |s.trace| - 1)
            && (s.exited.Some? <==> s.trace != [] && s.trace[|s.trace| - 1] == Ended(0))
            && (s.exited.Some? ==> s.exited == Some(0))
  {
    hide LifeEvents, Capped;
    if lives != [] {
      SuccessIsFinal(hc, lives[..|lives| - 1]);
      LifeEventsShape(hc, lives[|lives| - 1]);
    }
  }

  lemma OnFailureStopsAfterSuccess(hc: Option<int>, sessions: seq<seq<Life>>, i: nat)
    requires i < |Booted("on-failure", hc, sessions)| && Booted("on-failure", hc, sessions)[i] == Ended(0)
    ensures i == |Booted("on-failure", hc, sessions)| - 1
  {
    SuccessIsFinal(hc, sessions[0]);
  }

  /** With any other policy the script never exits by itself, and every life gives a start. */
  lemma {:induction false} AlwaysKeepsRunning(restart: string, hc: Option<int>, lives: seq<Life>)
    requires restart != "no" && restart != "on-failure"
    ensures RunScript(restart, hc, lives).exited.None? && Starts(RunScript(restart, hc, lives).trace) == |lives|
  {
    if lives != [] {
      AlwaysKeepsRunning(restart, hc, lives[..|lives| - 1]);
    }
    ScriptStarts(restart, hc, lives);
  }

  /** With "on-failure", a failing command is always started again. */
  lemma {:induction false} FailureRestarts(hc: Option<int>, lives: seq<Life>)
    requires forall i :: 0 <= i < |lives| ==> lives[i].code != 0
    ensures RunScript("on-failure", hc, lives).exited.None? && Starts(RunScript("on-failure", hc, lives).trace) == |lives|
  {
    if lives != [] {
      FailureRestarts(hc, lives[..|lives| - 1]);
    }
    ScriptStarts("on-failure", hc, lives);
  }
}
