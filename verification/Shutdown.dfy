/** The generated shutdown script (`buildShutdownScript`): ask every tracked service to stop, wait at most the grace
    period, kill what is left, unmount. */
module Shutdown {
  import opened Bytes

  type Pid = nat

  datatype Event = SentTerm(pid: Pid) | SleptOne | SentKill(pid: Pid) | Unmounted

  const DEFAULT_STOP_GRACE := 10

  /** What the script can observe: the process named by a service's pid file, if there is one, and whether a process is
      alive, after so many seconds of waiting. */
  datatype World = World(pidFile: (nat, string) -> Option<Pid>, alive: (nat, Pid) -> bool)

  function Grace(stopGrace: int): nat { if stopGrace <= 0 then DEFAULT_STOP_GRACE else stopGrace }

  predicate Tracked(w: World, t: nat, name: string) { w.pidFile(t, name).Some? }

  predicate AliveService(w: World, t: nat, name: string) {
    Tracked(w, t, name) && w.alive(t, w.pidFile(t, name).value)
  }

  predicate AnyAlive(w: World, t: nat, names: seq<string>) {
    exists i :: 0 <= i < |names| && AliveService(w, t, names[i])
  }

  function Terms(w: World, names: seq<string>): seq<Event> {
    if names == [] then []
    else
      var name := names[|names| - 1];
      Terms(w, names[..|names| - 1]) + if Tracked(w, 0, name) then [SentTerm(w.pidFile(0, name).value)] else []
  }

  function Kills(w: World, t: nat, names: seq<string>): seq<Event> {
    if names == [] then []
    else
      var name := names[|names| - 1];
      Kills(w, t, names[..|names| - 1]) + if AliveService(w, t, name) then [SentKill(w.pidFile(t, name).value)] else []
  }

  function Sleeps(n: nat): (r: seq<Event>)
    ensures |r| == n
  {
    seq(n, _ => SleptOne)
  }

  /** The seconds waited from t on: until nothing tracked is alive, at most up to the grace period. */
  function Waited(w: World, names: seq<string>, grace: nat, t: nat): (n: nat)
    requires t <= grace
    ensures t <= n <= grace
    ensures n < grace ==> !AnyAlive(w, n, names)
    ensures forall u :: t <= u < n ==> AnyAlive(w, u, names)
    decreases grace - t
  {
    if t < grace && AnyAlive(w, t, names) then Waited(w, names, grace, t + 1) else t
  }

  function Trace(w: World, names: seq<string>, stopGrace: int): seq<Event> {
    var n := Waited(w, names, Grace(stopGrace), 0);
    Terms(w, names) + Sleeps(n) + Kills(w, n, names) + [Unmounted]
  }

  method RunShutdown(names: seq<string>, stopGrace: int, w: World) returns (trace: seq<Event>)
    ensures trace == Trace(w, names, stopGrace)
  {
    var grace := stopGrace;
    if grace <= 0 {
      grace := DEFAULT_STOP_GRACE;
    }
    hide Terms, Kills, Waited, AnyAlive, Sleeps;
    trace := [];
    NoSignals(w);
    for i := 0 to |names|
      invariant trace == Terms(w, names[..i])
    {
      NextService(w, 0, names, i);
      if Tracked(w, 0, names[i]) {
        trace := trace + [SentTerm(w.pidFile(0, names[i]).value)];
      }
    }
    assert names[..|names|] == names;
    var n := 0;
    while n < grace
      invariant 0 <= n <= grace
      invariant trace == Terms(w, names) + Sleeps(n)
      invariant Waited(w, names, grace, n) == Waited(w, names, grace, 0)
    {
      NextSecond(w, names, grace, n);
      var alive := false;
      for i := 0 to |names|
        invariant alive <==> AnyAlive(w, n, names[..i])
      {
        NextService(w, n, names, i);
        if Tracked(w, n, names[i]) && w.alive(n, w.pidFile(n, names[i]).value) {
          alive := true;
        }
      }
      assert names[..|names|] == names;
      if !alive {
        break;
      }
      trace := trace + [SleptOne];
      n := n + 1;
    }
    for i := 0 to |names|
      invariant trace == Terms(w, names) + Sleeps(n) + Kills(w, n, names[..i])
    {
      NextService(w, n, names, i);
      if Tracked(w, n, names[i]) && w.alive(n, w.pidFile(n, names[i]).value) {
        trace := trace + [SentKill(w.pidFile(n, names[i]).value)];
      }
    }
    trace := trace + [Unmounted];
  }

  lemma NoSignals(w: World)
    ensures Terms(w, []) == [] && Sleeps(0) == [] && forall t :: Kills(w, t, []) == [] && !AnyAlive(w, t, [])
  {
  }

  lemma NextService(w: World, t: nat, names: seq<string>, i: nat)
    requires i < |names|
    ensures var name := names[i];
            && Terms(w, names[..i + 1]) == Terms(w, names[..i]) + (if Tracked(w, 0, name) then [SentTerm(w.pidFile(0, name).value)] else [])
            && Kills(w, t, names[..i + 1])
               == Kills(w, t, names[..i]) + (if AliveService(w, t, name) then [SentKill(w.pidFile(t, name).value)] else [])
            && (AnyAlive(w, t, names[..i + 1]) <==> AnyAlive(w, t, names[..i]) || AliveService(w, t, name))
  {
    hide Tracked, AliveService;
    var more := names[..i + 1];
    assert more[..i] == names[..i] && more[i] == names[i];
    if k :| 0 <= k < i && AliveService(w, t, names[..i][k]) {
      assert more[k] == names[..i][k];
    }
    if k :| 0 <= k < i + 1 && AliveService(w, t, more[k]) {
      assert k < i ==> names[..i][k] == more[k];
    }
  }

  lemma NextSecond(w: World, names: seq<string>, grace: nat, n: nat)
    requires n < grace
    ensures Waited(w, names, grace, n) == if AnyAlive(w, n, names) then Waited(w, names, grace, n + 1) else n
    ensures Sleeps(n + 1) == Sleeps(n) + [SleptOne]
  {
  }

  /** No service is started while the script waits: pid files stay, and the dead stay dead. */
  ghost predicate Quiet(w: World) {
    && (forall t, name :: w.pidFile(t, name) == w.pidFile(0, name))
    && (forall t, u, pid :: t <= u && w.alive(u, pid) ==> w.alive(t, pid))
  }

  lemma {:induction false} KillsAreAlive(w: World, t: nat, names: seq<string>, pid: Pid)
    ensures SentKill(pid) in Kills(w, t, names) <==> exists i :: 0 <= i < |names| && AliveService(w, t, names[i]) && w.pidFile(t, names[i]) == Some(pid)
    ensures forall e :: e in Kills(w, t, names) ==> e.SentKill?
  {
    if names != [] {
      var n := |names| - 1;
      KillsAreAlive(w, t, names[..n], pid);
      if SentKill(pid) in Kills(w, t, names[..n]) {
        var i :| 0 <= i < n && AliveService(w, t, names[..n][i]) && w.pidFile(t, names[..n][i]) == Some(pid);
        assert names[i] == names[..n][i];
      }
      if i :| 0 <= i < |names| && AliveService(w, t, names[i]) && w.pidFile(t, names[i]) == Some(pid) {
        if i < n {
          assert names[..n][i] == names[i];
        }
      }
    }
  }

  lemma {:induction false} TermsAreTracked(w: World, names: seq<string>, pid: Pid)
    ensures SentTerm(pid) in Terms(w, names) <==> exists i :: 0 <= i < |names| && w.pidFile(0, names[i]) == Some(pid)
    ensures forall e :: e in Terms(w, names) ==> e.SentTerm?
  {
    if names != [] {
      var n := |names| - 1;
      TermsAreTracked(w, names[..n], pid);
      if SentTerm(pid) in Terms(w, names[..n]) {
        var i :| 0 <= i < n && w.pidFile(0, names[..n][i]) == Some(pid);
        assert names[i] == names[..n][i];
      }
      if i :| 0 <= i < |names| && w.pidFile(0, names[i]) == Some(pid) {
        if i < n {
          assert names[..n][i] == names[i];
        }
      }
    }
  }

  /** The kills of a trace are those at the end of its wait, the terms those at its start. */
  lemma TraceSignals(w: World, names: seq<string>, stopGrace: int, pid: Pid)
    ensures var trace := Trace(w, names, stopGrace);
            && (SentKill(pid) in trace <==> SentKill(pid) in Kills(w, Waited(w, names, Grace(stopGrace), 0), names))
            && (SentTerm(pid) in trace <==> SentTerm(pid) in Terms(w, names))
  {
    TermsAreTracked(w, names, pid);
    KillsAreAlive(w, Waited(w, names, Grace(stopGrace), 0), names, pid);
    assert forall e :: e in Sleeps(Waited(w, names, Grace(stopGrace), 0)) ==> e == SleptOne;
  }

  function CountSleeps(trace: seq<Event>): nat {
    if trace == [] then 0 else CountSleeps(trace[..|trace| - 1]) + if trace[|trace| - 1].SleptOne? then 1 else 0
  }

  /** The order of a trace: all SIGTERMs, then all waiting, then all SIGKILLs, then the one unmount. */
  lemma TraceOrder(w: World, names: seq<string>, stopGrace: int)
    ensures var t := Trace(w, names, stopGrace);
            && (forall i, j {:trigger t[i], t[j]} :: 0 <= i < |t| && 0 <= j < |t| && t[i].SentTerm? && !t[j].SentTerm? ==> i < j)
            && (forall i, j {:trigger t[i], t[j]} :: 0 <= i < |t| && 0 <= j < |t| && t[i].SleptOne? && t[j].SentKill? ==> i < j)
            && t != [] && (forall i :: 0 <= i < |t| ==> (t[i].Unmounted? <==> i == |t| - 1))
  {
    hide Terms, Kills, Waited;
    var n := Waited(w, names, Grace(stopGrace), 0);
    var a, b, c := Terms(w, names), Sleeps(n), Kills(w, n, names);
    TermsAreTracked(w, names, 0);
    KillsAreAlive(w, n, names, 0);
    hide Sleeps;
    assert forall i :: 0 <= i < |a| ==> a[i] in a;
    assert forall i :: 0 <= i < |c| ==> c[i] in c;
    SleepsOnly(n);
  }

  lemma SleepsOnly(n: nat)
    ensures forall i :: 0 <= i < n ==> Sleeps(n)[i] == SleptOne
  {
  }

  lemma {:induction false} CountAppend(a: seq<Event>, b: seq<Event>)
    ensures CountSleeps(a + b) == CountSleeps(a) + CountSleeps(b)
  {
    if b == [] {
      assert a + b == a;
    } else {
      assert (a + b)[..|a + b| - 1] == a + b[..|b| - 1];
      CountAppend(a, b[..|b| - 1]);
    }
  }

  lemma {:induction false} CountNone(a: seq<Event>)
    requires forall i :: 0 <= i < |a| ==> !a[i].SleptOne?
    ensures CountSleeps(a) == 0
  {
    if a != [] {
      CountNone(a[..|a| - 1]);
    }
  }

  lemma {:induction false} CountAll(n: nat)
    ensures CountSleeps(Sleeps(n)) == n
  {
    if n > 0 {
      CountAll(n - 1);
      assert Sleeps(n)[..n - 1] == Sleeps(n - 1);
    }
  }

  /** Between any SIGTERM and any SIGKILL lies the whole wait; and if nothing is started anew and both go to the same
      process, that is the whole grace period, ten seconds by default. */
  lemma WaitBetween(w: World, names: seq<string>, stopGrace: int, i: nat, j: nat)
    requires i < |Trace(w, names, stopGrace)| && j < |Trace(w, names, stopGrace)|
    requires Trace(w, names, stopGrace)[i].SentTerm? && Trace(w, names, stopGrace)[j].SentKill?
    ensures i < j && CountSleeps(Trace(w, names, stopGrace)[i..j]) == Waited(w, names, Grace(stopGrace), 0)
    ensures Quiet(w) ==> CountSleeps(Trace(w, names, stopGrace)[i..j]) == if stopGrace <= 0 then 10 else stopGrace
  {
    hide Terms, Kills, Waited;
    var t := Trace(w, names, stopGrace);
    var n := Waited(w, names, Grace(stopGrace), 0);
    var a, b, c := Terms(w, names), Sleeps(n), Kills(w, n, names);
    TraceOrder(w, names, stopGrace);
    TermsAreTracked(w, names, 0);
    KillsAreAlive(w, n, names, 0);
    assert forall k :: 0 <= k < |a| ==> a[k] in a;
    assert forall k :: 0 <= k < |c| ==> c[k] in c;
    SleepsOnly(n);
    assert i < |a| && |a| + n <= j < |a| + n + |c|;
    assert t[i..j] == a[i..] + b + c[..j - |a| - n];
    CountAppend(a[i..] + b, c[..j - |a| - n]);
    CountAppend(a[i..], b);
    CountNone(a[i..]);
    CountNone(c[..j - |a| - n]);
    CountAll(n);
    if Quiet(w) {
      assert SentKill(t[j].pid) in t;
      KilledWaitsInFull(w, names, stopGrace, t[j].pid);
    }
  }

  lemma KilledWaitsInFull(w: World, names: seq<string>, stopGrace: int, pid: Pid)
    requires Quiet(w) && SentKill(pid) in Trace(w, names, stopGrace)
    ensures Waited(w, names, Grace(stopGrace), 0) == Grace(stopGrace)
  {
    var n := Waited(w, names, Grace(stopGrace), 0);
    TraceSignals(w, names, stopGrace, pid);
    KillsAreAlive(w, n, names, pid);
    var i :| 0 <= i < |names| && AliveService(w, n, names[i]) && w.pidFile(n, names[i]) == Some(pid);
    assert AnyAlive(w, n, names);
  }

  /** While nothing is started anew, a process is killed if and only if it was tracked at the start, and so was asked to
      terminate, and is still alive when the whole grace period has passed. */
  lemma KilledIff(w: World, names: seq<string>, stopGrace: int, pid: Pid)
    requires Quiet(w)
    ensures var trace := Trace(w, names, stopGrace);
            SentKill(pid) in trace <==> SentTerm(pid) in trace && w.alive(Grace(stopGrace), pid)
  {
    var n := Waited(w, names, Grace(stopGrace), 0);
    TraceSignals(w, names, stopGrace, pid);
    KillsAreAlive(w, n, names, pid);
    TermsAreTracked(w, names, pid);
    if SentTerm(pid) in Terms(w, names) && w.alive(Grace(stopGrace), pid) {
      var i :| 0 <= i < |names| && w.pidFile(0, names[i]) == Some(pid);
      assert w.pidFile(n, names[i]) == Some(pid);
      assert w.alive(n, pid);
      assert AliveService(w, n, names[i]);
    }
  }

  /** Every process tracked at the end of the wait is dead by then or sent SIGKILL. */
  lemma NothingTrackedSurvives(w: World, names: seq<string>, stopGrace: int, i: nat)
    requires i < |names|
    ensures var n := Waited(w, names, Grace(stopGrace), 0);
            AliveService(w, n, names[i]) ==> SentKill(w.pidFile(n, names[i]).value) in Trace(w, names, stopGrace)
  {
    var n := Waited(w, names, Grace(stopGrace), 0);
    if AliveService(w, n, names[i]) {
      KillsAreAlive(w, n, names, w.pidFile(n, names[i]).value);
    }
  }

  /** The exact condition, in any world: nothing is killed without having been asked to stop if and only if every process
      that is behind a pid file and alive when the wait ends was behind one when it began. */
  lemma TermBeforeKillIff(w: World, names: seq<string>, stopGrace: int)
    ensures var trace, n := Trace(w, names, stopGrace), Waited(w, names, Grace(stopGrace), 0);
            (forall pid: Pid :: SentKill(pid) in trace ==> SentTerm(pid) in trace)
            <==> (forall i :: 0 <= i < |names| && AliveService(w, n, names[i]) ==> TrackedAtStart(w, names, w.pidFile(n, names[i]).value))
  {
    hide Trace, Terms, Kills;
    var trace, n := Trace(w, names, stopGrace), Waited(w, names, Grace(stopGrace), 0);
    forall pid: Pid
      ensures SentKill(pid) in trace <==> exists i :: 0 <= i < |names| && AliveService(w, n, names[i]) && w.pidFile(n, names[i]) == Some(pid)
      ensures SentTerm(pid) in trace <==> TrackedAtStart(w, names, pid)
    {
      TraceSignals(w, names, stopGrace, pid);
      KillsAreAlive(w, n, names, pid);
      TermsAreTracked(w, names, pid);
    }
    if forall pid: Pid :: SentKill(pid) in trace ==> SentTerm(pid) in trace {
      forall i | 0 <= i < |names| && AliveService(w, n, names[i])
        ensures TrackedAtStart(w, names, w.pidFile(n, names[i]).value)
      {
        assert SentKill(w.pidFile(n, names[i]).value) in trace;
      }
    }
  }

  predicate TrackedAtStart(w: World, names: seq<string>, pid: Pid) {
    exists j :: 0 <= j < |names| && w.pidFile(0, names[j]) == Some(pid)
  }

  /** Without that assumption SIGKILL can come without SIGTERM: a supervisor that restarts its service during the wait
      puts a new process behind the pid file. */
  lemma RestartedServiceIsKilledOutright()
    ensures exists w: World, names: seq<string> :: SentKill(2) in Trace(w, names, 1) && SentTerm(2) !in Trace(w, names, 1)
  {
    var w := World((t, name) => if t == 0 then Some(1) else Some(2), (t, pid) => true);
    var names := ["web"];
    assert AliveService(w, 0, names[0]) && AliveService(w, 1, names[0]);
    assert names[..0] == [];
    assert Kills(w, 1, names) == [SentKill(2)] && Terms(w, names) == [SentTerm(1)];
    assert AnyAlive(w, 0, names);
    assert Waited(w, names, 1, 0) == 1;
    TraceSignals(w, names, 1, 2);
  }
}
