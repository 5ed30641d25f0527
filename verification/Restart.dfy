/** One running application: its servers, its waiter for signals, and the shutdown handshake. */
module App {
  /** A server goroutine: not yet listening, in ListenAndServe, or returned. */
  datatype Server = Idle | Listening | Ended(failed: bool)

  /** The goroutine that waits for the done channel or a signal; on a signal it shuts the app down itself. */
  datatype Waiter = Waiting | Closing(next: nat) | Left

  /** `down[j]` says server j was told to shut down; `done` is the one-slot channel. */
  datatype App = App(servers: seq<Server>, down: seq<bool>, waiter: Waiter, done: bool, returned: bool)

  datatype Action =
    | Serve(j: nat, bound: bool)
    | Close(j: nat)
    | Crash(j: nat)
    | Signal
    | TakeDone
    | CloseNext
    | Return

  function NewApp(servers: nat): App {
    App(seq(servers, i => Idle), seq(servers, i => false), Waiting, false, false)
  }

  /** One step of a shutdown that has told the servers before `next` to stop; the last step offers `done`. */
  function ShutdownStep(a: App, next: nat): App {
    if next < |a.down| then a.(down := a.down[next := true]) else a.(done := true)
  }

  predicate Enabled(a: App, x: Action) {
    !a.returned &&
    match x {
      case Serve(j, bound) => j < |a.servers| == |a.down| && a.servers[j] == Idle
      case Close(j) => j < |a.servers| == |a.down| && a.servers[j] == Listening && a.down[j]
      case Crash(j) => j < |a.servers| && a.servers[j] == Listening
      case Signal => a.waiter == Waiting
      case TakeDone => a.waiter == Waiting && a.done
      case CloseNext => a.waiter.Closing?
      case Return => a.waiter == Left && forall s | s in a.servers :: s.Ended?
    }
  }

  /** A server told to shut down before it listens returns at once. */
  function Step(a: App, x: Action): App {
    if !Enabled(a, x) then a
    else match x {
      case Serve(j, bound) =>
        a.(servers := a.servers[j := if a.down[j] then Ended(false) else if bound then Listening else Ended(true)])
      case Close(j) => a.(servers := a.servers[j := Ended(false)])
      case Crash(j) => a.(servers := a.servers[j := Ended(true)])
      case Signal => a.(waiter := Closing(0))
      case TakeDone => a.(waiter := Left, done := false)
      case CloseNext =>
        ShutdownStep(a, a.waiter.next).(waiter := if a.waiter.next < |a.down| then Closing(a.waiter.next + 1) else Left)
      case Return => a.(returned := true)
    }
  }

  predicate DownBefore(a: App, n: nat) {
    forall j | 0 <= j < n && j < |a.down| :: a.down[j]
  }

  predicate AllDown(a: App) {
    DownBefore(a, |a.down|)
  }

  /** A server that holds its port. */
  predicate HoldsPort(a: App, j: nat) {
    j < |a.servers| == |a.down| && a.servers[j] == Listening && !a.down[j]
  }

  predicate Inv(a: App) {
    && |a.servers| == |a.down|
    && (a.waiter.Closing? ==> a.waiter.next <= |a.down| && DownBefore(a, a.waiter.next))
    && (a.done || a.waiter == Left ==> AllDown(a))
    && (a.returned ==> a.waiter == Left && forall s | s in a.servers :: s.Ended?)
  }

  /** Shut down: every server told, and a waiter still waiting has its done value. */
  predicate Stopped(a: App) {
    AllDown(a) && (a.waiter == Waiting ==> a.done)
  }

  lemma StepKeeps(a: App, x: Action)
    requires Inv(a)
    ensures Inv(Step(a, x)) && |Step(a, x).down| == |a.down|
    ensures forall n: nat | DownBefore(a, n) :: DownBefore(Step(a, x), n)
    ensures Stopped(a) ==> Stopped(Step(a, x))
  {
    if Enabled(a, x) && x.CloseNext? {
      ShutdownKeeps(a, a.waiter.next);
    }
    if Enabled(a, x) && (x.Serve? || x.Close? || x.Crash?) {
      assert Step(a, x).down == a.down;
    }
  }

  lemma ShutdownKeeps(a: App, next: nat)
    requires Inv(a) && DownBefore(a, next)
    ensures var b := ShutdownStep(a, next);
      && Inv(b) && b.down == (if next < |a.down| then a.down[next := true] else a.down)
      && DownBefore(b, next + 1) && (next >= |a.down| ==> Stopped(b))
      && (forall n: nat | DownBefore(a, n) :: DownBefore(b, n))
      && (Stopped(a) ==> Stopped(b))
  {
  }

  /** How far a running app is from having returned. */
  function Distance(a: App): nat {
    ServersLeft(a.servers) + WaiterLeft(a) + if a.returned then 0 else 1
  }

  function WaiterLeft(a: App): nat {
    match a.waiter
    case Waiting => |a.down| + 3
    case Closing(next) => if next <= |a.down| then |a.down| + 2 - next else 1
    case Left => 0
  }

  function ServersLeft(s: seq<Server>): nat {
    if |s| == 0 then 0
    else ServersLeft(s[..|s| - 1]) + match s[|s| - 1] { case Idle => 2 case Listening => 1 case Ended(_) => 0 }
  }

  lemma {:induction false} ServersLeftAt(s: seq<Server>, j: nat, x: Server)
    requires j < |s| && ServersLeft([x]) < ServersLeft([s[j]])
    ensures ServersLeft(s[j := x]) < ServersLeft(s)
  {
    var t := s[j := x];
    assert [x][..0] == [] && [s[j]][..0] == [];
    if j == |s| - 1 {
      assert t[..|t| - 1] == s[..|s| - 1];
    } else {
      assert t[..|t| - 1] == s[..|s| - 1][j := x];
      ServersLeftAt(s[..|s| - 1], j, x);
    }
  }

  /** Every step an app takes brings it nearer to its return. */
  lemma StepsRunOut(a: App, x: Action)
    requires Inv(a) && Enabled(a, x)
    ensures Distance(Step(a, x)) < Distance(a)
  {
    if x.Serve? || x.Close? || x.Crash? {
      assert [a.servers[x.j]][..0] == [] && [Step(a, x).servers[x.j]][..0] == [];
      ServersLeftAt(a.servers, x.j, Step(a, x).servers[x.j]);
    }
  }

  /** A stopped app that has not returned always has a step to take, so it returns after finitely many. */
  lemma StoppedAppGoesOn(a: App) returns (x: Action)
    requires Inv(a) && Stopped(a) && !a.returned
    ensures Enabled(a, x)
  {
    if j :| 0 <= j < |a.servers| && !a.servers[j].Ended? {
      x := if a.servers[j] == Idle then Serve(j, true) else Close(j);
    } else {
      match a.waiter {
        case Waiting => x := TakeDone;
        case Closing(_) => x := CloseNext;
        case Left => x := Return;
      }
    }
  }

  /** An idle server that was not told to stop comes to hold its port when it can bind it, and only its own failure or
      a shutdown takes the port from it. */
  lemma ServesUntilDown(a: App, j: nat, x: Action)
    requires Inv(a) && j < |a.servers| && !a.down[j] && !a.returned
    ensures a.servers[j] == Idle ==> HoldsPort(Step(a, Serve(j, true)), j)
    ensures HoldsPort(a, j) && x != Crash(j) && !x.CloseNext? ==> HoldsPort(Step(a, x), j)
    ensures HoldsPort(a, j) && x.CloseNext? && a.waiter.Closing? && a.waiter.next != j ==> HoldsPort(Step(a, x), j)
  {
  }

  function StepAll(a: App, xs: seq<Action>): App
    decreases |xs|
  {
    if |xs| == 0 then a else StepAll(Step(a, xs[0]), xs[1..])
  }

  /** A signal brings any app to its return, by steps of its own. */
  lemma {:induction false} CanReturn(a: App) returns (xs: seq<Action>)
    requires Inv(a)
    ensures StepAll(a, xs).returned && Inv(StepAll(a, xs))
    decreases Distance(a)
  {
    if a.returned {
      xs := [];
    } else {
      var x := TowardsReturn(a);
      StepsRunOut(a, x);
      StepKeeps(a, x);
      var rest := CanReturn(Step(a, x));
      xs := [x] + rest;
    }
  }

  lemma TowardsReturn(a: App) returns (x: Action)
    requires Inv(a) && !a.returned
    ensures Enabled(a, x)
  {
    match a.waiter {
      case Waiting => x := Signal;
      case Closing(_) => x := CloseNext;
      case Left => x := StoppedAppGoesOn(a);
    }
  }

  /** A failed server alone never ends the run: before any signal or shutdown the waiter keeps it going. */
  lemma FailureAloneDoesNotReturn(a: App)
    requires Inv(a) && a.returned
    ensures AllDown(a)
  {
  }
}

/** The restart loop, the configuration watcher and the one-slot restart channel, interleaved step by step. */
module Restart {
  import App

  datatype Watcher = Watching | Loaded | Validated

  datatype Loop = Setup | Ready | Building | Selecting | Stopping(next: nat) | Finished

  /** What is known of a configuration: it passed validation, it was refused, or nobody has looked yet. */
  datatype Verdict = Passed | Refused | Unchecked

  /** `loads` counts overwrites of the global configuration and so numbers the reloads; `began` is the number current
      when the newest NewApp began; `notified` is the number of the latest validated reload whose callback step is
      over, `validated` how many there were; `config` is the verdict on the global configuration. NewApp goes on
      reading the global until it ends, so `built` collects every verdict in force during the newest NewApp. */
  datatype State = State(
    watcher: Watcher,
    loads: nat,
    notified: nat,
    validated: nat,
    signal: bool,
    loop: Loop,
    began: nat,
    restarts: nat,
    config: Verdict,
    built: set<Verdict>,
    apps: seq<App.App>)

  datatype Action =
    | Load(parsed: bool)
    | Validate(valid: bool)
    | Callback
    | SetCallback
    | BeginNewApp
    | EndNewApp(withMetrics: bool)
    | TakeRestart
    | TakeExit
    | ShutdownNext
    | AppStep(k: nat, x: App.Action)

  const Start := State(Watching, 0, 0, 0, false, Setup, 0, 0, Passed, {}, [])

  function Current(s: State): App.App
    requires |s.apps| > 0
  {
    s.apps[|s.apps| - 1]
  }

  /** The global configuration changes its verdict; an app being built gets to read it. */
  function Judge(s: State, verdict: Verdict): State {
    s.(config := verdict, built := if s.loop == Building then s.built + {verdict} else s.built)
  }

  function Step(s: State, a: Action): State {
    match a
    // The configuration is overwritten before it is known to be good.
    case Load(parsed) =>
      if s.watcher != Watching then s
      else Judge(s, Unchecked).(loads := s.loads + 1, watcher := if parsed then Loaded else Watching)
    case Validate(valid) =>
      if s.watcher != Loaded then s
      else Judge(s, if valid then Passed else Refused).(watcher := if valid then Validated else Watching)
    // Without a callback nothing is sent; a full channel drops the value.
    case Callback =>
      if s.watcher != Validated then s
      else s.(watcher := Watching, notified := s.loads, validated := s.validated + 1,
              signal := s.signal || s.loop != Setup)
    case SetCallback => if s.loop != Setup then s else s.(loop := Ready)
    case BeginNewApp => if s.loop != Ready then s else s.(loop := Building, began := s.loads, built := {s.config})
    case EndNewApp(withMetrics) =>
      if s.loop != Building then s
      else s.(loop := Selecting, apps := s.apps + [App.NewApp(if withMetrics then 2 else 1)])
    case TakeRestart =>
      if s.loop != Selecting || !s.signal then s
      else s.(loop := Stopping(0), signal := false, restarts := s.restarts + 1)
    case TakeExit =>
      if s.loop != Selecting || |s.apps| == 0 || !Current(s).returned then s else s.(loop := Finished)
    case ShutdownNext =>
      if !s.loop.Stopping? || |s.apps| == 0 then s
      else s.(apps := s.apps[|s.apps| - 1 := App.ShutdownStep(Current(s), s.loop.next)],
              loop := if s.loop.next < |Current(s).down| then Stopping(s.loop.next + 1) else Ready)
    case AppStep(k, x) => if k < |s.apps| then s.(apps := s.apps[k := App.Step(s.apps[k], x)]) else s
  }

  function Run(actions: seq<Action>): State {
    if |actions| == 0 then Start
    else Step(Run(actions[..|actions| - 1]), actions[|actions| - 1])
  }

  /** Apps the loop is through with. */
  predicate Replaced(s: State, k: nat) {
    k + 1 < |s.apps| || (k < |s.apps| && (s.loop == Ready || s.loop == Building))
  }

  /** The latest validated reload is not forgotten. */
  predicate NoLostReload(s: State) {
    s.signal || s.loop in {Setup, Ready, Finished} || s.loop.Stopping? || s.notified <= s.began
  }

  predicate LoopInv(s: State) {
    && s.notified <= s.loads && s.began <= s.loads
    && NoLostReload(s)
    && (s.loop == Setup ==> !s.signal)
    && s.restarts + (if s.signal then 1 else 0) <= s.validated
    && |s.apps| == s.restarts + (if s.loop == Selecting || s.loop == Finished then 1 else 0)
    && (s.loop == Setup ==> s.apps == [])
  }

  predicate AppsInv(s: State) {
    && (forall k | 0 <= k < |s.apps| :: App.Inv(s.apps[k]))
    && (forall k | 0 <= k < |s.apps| && Replaced(s, k) :: App.Stopped(s.apps[k]))
    && (s.loop.Stopping? ==> |s.apps| > 0 && App.DownBefore(Current(s), s.loop.next))
    && (s.loop == Finished ==> |s.apps| > 0 && Current(s).returned)
  }

  lemma LoopStepKeeps(s: State, a: Action)
    requires LoopInv(s)
    ensures LoopInv(Step(s, a))
  {
  }

  /** One app changed for a successor in the same shutdown state or further. */
  lemma AppReplacedKeeps(s: State, k: nat, a: App.App, loop: Loop)
    requires AppsInv(s) && k < |s.apps| && App.Inv(a)
    requires App.Stopped(s.apps[k]) ==> App.Stopped(a)
    requires Replaced(s.(loop := loop), k) ==> App.Stopped(a)
    requires k + 1 < |s.apps| ==> loop == s.loop
    requires k + 1 == |s.apps| ==>
      (loop.Stopping? ==> App.DownBefore(a, loop.next)) && (loop == Finished ==> a.returned)
    ensures AppsInv(s.(apps := s.apps[k := a], loop := loop))
  {
  }

  lemma AppsStepKeeps(s: State, a: Action)
    requires AppsInv(s) && LoopInv(s)
    ensures AppsInv(Step(s, a))
  {
    match a {
      case ShutdownNext =>
        if s.loop.Stopping? {
          App.ShutdownKeeps(Current(s), s.loop.next);
          AppReplacedKeeps(s, |s.apps| - 1, App.ShutdownStep(Current(s), s.loop.next), Step(s, a).loop);
        }
      case AppStep(k, x) =>
        if k < |s.apps| {
          App.StepKeeps(s.apps[k], x);
          assert Replaced(s, k) ==> App.Stopped(s.apps[k]);
          assert s.loop.Stopping? ==> App.DownBefore(Current(s), s.loop.next);
          AppReplacedKeeps(s, k, App.Step(s.apps[k], x), s.loop);
        }
      case _ =>
        LoopMovesKeepApps(s, a);
    }
  }

  lemma LoopMovesKeepApps(s: State, a: Action)
    requires AppsInv(s) && LoopInv(s) && !a.ShutdownNext? && !a.AppStep?
    ensures AppsInv(Step(s, a))
  {
  }

  lemma {:induction false} RunKeeps(actions: seq<Action>)
    ensures LoopInv(Run(actions)) && AppsInv(Run(actions))
  {
    if |actions| > 0 {
      var s, a := Run(actions[..|actions| - 1]), actions[|actions| - 1];
      RunKeeps(actions[..|actions| - 1]);
      LoopStepKeeps(s, a);
      AppsStepKeeps(s, a);
    }
  }

  /** No reload is lost: in every interleaving, once the callback step of a validated reload is over, a restart is
      pending, or the next app has yet to be built, or the newest app was begun after that reload was loaded, or the
      loop is over. Restarts never exceed validated reloads. */
  lemma NoReloadIsLost(actions: seq<Action>)
    ensures NoLostReload(Run(actions)) && Run(actions).restarts <= Run(actions).validated
  {
    RunKeeps(actions);
  }

  /** Two apps never hold a port at the same time, even when an old server goroutine is slow to start. */
  lemma OneAppHoldsPorts(actions: seq<Action>, k1: nat, j1: nat, k2: nat, j2: nat)
    requires k1 < |Run(actions).apps| && App.HoldsPort(Run(actions).apps[k1], j1)
    requires k2 < |Run(actions).apps| && App.HoldsPort(Run(actions).apps[k2], j2)
    ensures k1 == k2
  {
    RunKeeps(actions);
    var s := Run(actions);
    forall k: nat, j: nat | Replaced(s, k)
      ensures !App.HoldsPort(s.apps[k], j)
    {
      assert App.Stopped(s.apps[k]);
    }
  }

  /** The run of every replaced app can always go on to its return, on its own steps alone. */
  lemma ReplacedAppsReturn(actions: seq<Action>, k: nat) returns (x: App.Action)
    requires var s := Run(actions); Replaced(s, k) && !s.apps[k].returned
    ensures var s := Run(actions); var s' := Step(s, AppStep(k, x));
      App.Distance(s'.apps[k]) < App.Distance(s.apps[k])
  {
    RunKeeps(actions);
    var s := Run(actions);
    x := App.StoppedAppGoesOn(s.apps[k]);
    App.StepsRunOut(s.apps[k], x);
  }

  lemma RunThen(actions: seq<Action>, a: Action)
    ensures Run(actions + [a]) == Step(Run(actions), a)
  {
    assert (actions + [a])[..|actions|] == actions;
  }

  predicate LoopStep(a: Action) {
    a.TakeRestart? || a.ShutdownNext? || a.BeginNewApp? || a.EndNewApp? || a.TakeExit?
  }

  lemma ShutdownStays(s: State)
    requires AppsInv(s) && LoopInv(s) && s.loop.Stopping? && s.loop.next <= |Current(s).down|
    ensures var t := Step(s, ShutdownNext);
      && (t.loop == if s.loop.next < |Current(s).down| then Stopping(s.loop.next + 1) else Ready)
      && t == s.(loop := t.loop, apps := t.apps) && |t.apps| == |s.apps|
      && |Current(t).down| == |Current(s).down|
      && forall k | 0 <= k < |s.apps| - 1 :: t.apps[k] == s.apps[k]
  {
    App.ShutdownKeeps(Current(s), s.loop.next);
  }

  /** The shutdown of the current app runs to its end. */
  lemma {:induction false} ShutdownEnds(actions: seq<Action>) returns (more: seq<Action>)
    requires var s := Run(actions); s.loop.Stopping? && |s.apps| > 0 && s.loop.next <= |Current(s).down|
    ensures forall a | a in more :: a == ShutdownNext
    ensures var s, t := Run(actions), Run(actions + more);
      t.loop == Ready && t == s.(loop := Ready, apps := t.apps) && |t.apps| == |s.apps|
    decreases |Current(Run(actions)).down| - Run(actions).loop.next
  {
    var s := Run(actions);
    RunKeeps(actions);
    ShutdownStays(s);
    RunThen(actions, ShutdownNext);
    if s.loop.next < |Current(s).down| {
      var rest := ShutdownEnds(actions + [ShutdownNext]);
      more := [ShutdownNext] + rest;
      assert actions + more == actions + [ShutdownNext] + rest;
    } else {
      more := [ShutdownNext];
    }
  }

  lemma TakesRestart(s: State)
    requires LoopInv(s) && AppsInv(s) && s.loop == Selecting && s.signal
    ensures Step(s, TakeRestart) == s.(loop := Stopping(0), signal := false, restarts := s.restarts + 1) && |s.apps| > 0
  {
  }

  lemma BeginsNewApp(s: State)
    requires s.loop == Ready
    ensures var t := Step(s, BeginNewApp);
      t == s.(loop := Building, began := s.loads, built := {s.config})
  {
  }

  lemma FormerIsStopped(actions: seq<Action>)
    requires var t := Run(actions); t.loop == Building && |t.apps| > 0
    ensures App.Stopped(Current(Run(actions)))
  {
    RunKeeps(actions);
    var t := Run(actions);
    assert Replaced(t, |t.apps| - 1);
  }

  lemma RestartStopsApp(actions: seq<Action>) returns (down: seq<Action>)
    requires Run(actions).loop == Selecting && Run(actions).signal
    ensures forall a | a in down :: a == ShutdownNext
    ensures var s, t := Run(actions), Run(actions + [TakeRestart] + down);
      && t == s.(loop := Ready, signal := false, restarts := s.restarts + 1, apps := t.apps)
      && |t.apps| == |s.apps| > 0 && s.loads >= s.notified
  {
    RunKeeps(actions);
    TakesRestart(Run(actions));
    RunThen(actions, TakeRestart);
    down := ShutdownEnds(actions + [TakeRestart]);
  }

  /** A pending restart can always happen, on steps of the loop alone: the current app is shut down and the next one is
      begun, on a configuration at least as new as the reload that asked for it. */
  lemma RestartHappens(actions: seq<Action>) returns (more: seq<Action>)
    requires Run(actions).loop == Selecting && Run(actions).signal
    ensures forall a | a in more :: LoopStep(a)
    ensures var s, t := Run(actions), Run(actions + more);
      && t.loop == Building && t.began == s.loads >= s.notified && t.restarts == s.restarts + 1 && !t.signal
      && |t.apps| == |s.apps| > 0 && App.Stopped(t.apps[|s.apps| - 1]) && t.built == {s.config}
  {
    var down := RestartStopsApp(actions);
    var stopped := actions + [TakeRestart] + down;
    RunThen(stopped, BeginNewApp);
    BeginsNewApp(Run(stopped));
    more := [TakeRestart] + down + [BeginNewApp];
    assert actions + more == stopped + [BeginNewApp];
    FormerIsStopped(actions + more);
  }

  /** A reload that passes validation while an app runs can always take effect: the next app is begun on it. */
  lemma ReloadTakesEffect(actions: seq<Action>) returns (more: seq<Action>)
    requires Run(actions).loop == Selecting && Run(actions).watcher == Watching
    ensures var s, t := Run(actions), Run(actions + [Load(true), Validate(true), Callback] + more);
      && (forall a | a in more :: LoopStep(a))
      && t.loop == Building && t.began == s.loads + 1 && t.built == {Passed} && t.restarts == s.restarts + 1
      && |t.apps| == |s.apps| > 0 && App.Stopped(t.apps[|s.apps| - 1])
  {
    Reloads(actions);
    more := RestartHappens(actions + [Load(true), Validate(true), Callback]);
  }

  lemma Reloads(actions: seq<Action>)
    requires Run(actions).loop == Selecting && Run(actions).watcher == Watching
    ensures var s, t := Run(actions), Run(actions + [Load(true), Validate(true), Callback]);
      t == s.(loads := s.loads + 1, notified := s.loads + 1, validated := s.validated + 1, config := Passed,
              signal := true)
  {
    RunThen(actions, Load(true));
    RunThen(actions + [Load(true)], Validate(true));
    RunThen(actions + [Load(true)] + [Validate(true)], Callback);
    assert actions + [Load(true)] + [Validate(true)] + [Callback] == actions + [Load(true), Validate(true), Callback];
  }

  /** A finished NewApp gives the loop an app of one or two servers, each of which can come to hold its port. */
  lemma NewAppServes(s: State, withMetrics: bool, j: nat)
    requires s.loop == Building && j < if withMetrics then 2 else 1
    ensures var t := Step(s, EndNewApp(withMetrics)); var u := Step(t, AppStep(|s.apps|, App.Serve(j, true)));
      && t == s.(loop := Selecting, apps := t.apps) && |t.apps| == |s.apps| + 1 && t.apps[..|s.apps|] == s.apps
      && |Current(t).servers| == (if withMetrics then 2 else 1) && App.Inv(Current(t)) && !Current(t).returned
      && |u.apps| == |t.apps| && App.HoldsPort(Current(u), j)
  {
  }

  lemma {:induction false} AppStepsRun(actions: seq<Action>, k: nat, xs: seq<App.Action>) returns (more: seq<Action>)
    requires k < |Run(actions).apps|
    ensures forall a | a in more :: a.AppStep? && a.k == k
    ensures Run(actions + more)
         == Run(actions).(apps := Run(actions).apps[k := App.StepAll(Run(actions).apps[k], xs)])
    decreases |xs|
  {
    if |xs| == 0 {
      more := [];
      assert actions + more == actions;
    } else {
      RunThen(actions, AppStep(k, xs[0]));
      assert Run(actions + [AppStep(k, xs[0])])
          == Run(actions).(apps := Run(actions).apps[k := App.Step(Run(actions).apps[k], xs[0])]);
      var rest := AppStepsRun(actions + [AppStep(k, xs[0])], k, xs[1..]);
      more := [AppStep(k, xs[0])] + rest;
      assert actions + more == actions + [AppStep(k, xs[0])] + rest;
    }
  }

  lemma TakesExit(s: State)
    requires s.loop == Selecting && |s.apps| > 0 && Current(s).returned
    ensures Step(s, TakeExit).loop == Finished
  {
  }

  /** A signal to the running app can always end the command. */
  lemma SignalEndsCommand(actions: seq<Action>) returns (more: seq<Action>)
    requires Run(actions).loop == Selecting
    ensures forall a | a in more :: a == TakeExit || (a.AppStep? && a.k == |Run(actions).apps| - 1)
    ensures Run(actions + more).loop == Finished
  {
    RunKeeps(actions);
    var xs := App.CanReturn(Current(Run(actions)));
    var steps := AppStepsRun(actions, |Run(actions).apps| - 1, xs);
    RunThen(actions + steps, TakeExit);
    TakesExit(Run(actions + steps));
    more := steps + [TakeExit];
    assert actions + more == actions + steps + [TakeExit];
  }

  /** The loop ends only after every server of its last app was told to shut down: a server that fails to start does
      not end it. */
  lemma ExitOnlyAfterShutdown(actions: seq<Action>)
    requires Run(actions).loop == Finished
    ensures |Run(actions).apps| > 0 && App.AllDown(Current(Run(actions)))
  {
    RunKeeps(actions);
    App.FailureAloneDoesNotReturn(Current(Run(actions)));
  }

  // ---- which configuration an app is built from ----

  predicate LoadsAt(actions: seq<Action>, i: nat) {
    i < |actions| && actions[i].Load? && Run(actions[..i]).watcher == Watching
  }

  predicate ChecksAt(actions: seq<Action>, i: nat, valid: bool) {
    i < |actions| && actions[i] == Validate(valid) && Run(actions[..i]).watcher == Loaded
  }

  predicate BuildsAt(actions: seq<Action>, i: nat) {
    i < |actions| && actions[i].BeginNewApp? && Run(actions[..i]).loop == Ready
  }

  predicate EndsAt(actions: seq<Action>, i: nat) {
    i < |actions| && actions[i].EndNewApp? && Run(actions[..i]).loop == Building
  }

  /** The latest load among the first n actions. */
  ghost predicate LastLoad(actions: seq<Action>, n: nat, l: nat) {
    l < n && LoadsAt(actions, l) && forall i: nat | l < i < n :: !LoadsAt(actions, i)
  }

  ghost predicate LastBuild(actions: seq<Action>, n: nat, b: nat) {
    b < n && BuildsAt(actions, b) && forall i: nat | b < i < n :: !BuildsAt(actions, i)
  }

  /** After load l and before action n the configuration was validated with this outcome. */
  ghost predicate CheckedAfter(actions: seq<Action>, l: nat, n: nat, valid: bool) {
    exists v: nat :: l < v < n && ChecksAt(actions, v, valid)
  }

  /** The last load among the first n actions passed validation among them, or there was none. */
  ghost predicate PassedBefore(actions: seq<Action>, n: nat) {
    forall l: nat | LastLoad(actions, n, l) :: CheckedAfter(actions, l, n, true)
  }

  ghost predicate RefusedBefore(actions: seq<Action>, n: nat) {
    exists l: nat :: LastLoad(actions, n, l) && CheckedAfter(actions, l, n, false)
  }

  /** The verdict on the global configuration, in terms of what was loaded and checked. */
  ghost predicate VerdictTold(actions: seq<Action>, n: nat)
    requires n <= |actions|
  {
    var s := Run(actions[..n]);
    && (s.config == Passed <==> PassedBefore(actions, n))
    && (s.config == Refused <==> RefusedBefore(actions, n))
    && (s.watcher == Loaded ==> s.config == Unchecked)
  }

  lemma RunOneMore(actions: seq<Action>, n: nat)
    requires n < |actions|
    ensures Run(actions[..n + 1]) == Step(Run(actions[..n]), actions[n])
  {
    assert actions[..n + 1][..n] == actions[..n];
  }

  lemma StepVerdicts(s: State, a: Action)
    ensures var t := Step(s, a);
      && (a.BeginNewApp? && s.loop == Ready ==> t.built == {s.config} && t.loop == Building)
      && t.config == (if a.Load? && s.watcher == Watching then Unchecked
                      else if a == Validate(true) && s.watcher == Loaded then Passed
                      else if a == Validate(false) && s.watcher == Loaded then Refused else s.config)
      && (t.watcher == Loaded ==> (s.watcher == Loaded && !a.Validate?) || (a.Load? && s.watcher == Watching))
  {
  }

  lemma LoadTold(actions: seq<Action>, n: nat)
    requires LoadsAt(actions, n)
    ensures VerdictTold(actions, n + 1)
  {
    RunOneMore(actions, n);
    StepVerdicts(Run(actions[..n]), actions[n]);
    assert LastLoad(actions, n + 1, n);
    OneLastLoad(actions, n + 1);
  }

  lemma OneLastLoad(actions: seq<Action>, n: nat)
    ensures forall l1: nat, l2: nat | LastLoad(actions, n, l1) && LastLoad(actions, n, l2) :: l1 == l2
  {
  }

  lemma SameLastLoad(actions: seq<Action>, n: nat, l: nat)
    requires n < |actions| && !LoadsAt(actions, n)
    ensures LastLoad(actions, n + 1, l) <==> LastLoad(actions, n, l)
  {
  }

  lemma SameChecked(actions: seq<Action>, l: nat, n: nat, valid: bool)
    requires n < |actions| && !ChecksAt(actions, n, valid)
    ensures CheckedAfter(actions, l, n + 1, valid) <==> CheckedAfter(actions, l, n, valid)
  {
    if CheckedAfter(actions, l, n + 1, valid) {
      var v: nat :| l < v < n + 1 && ChecksAt(actions, v, valid);
      assert v < n;
    }
  }

  lemma SamePassed(actions: seq<Action>, n: nat)
    requires n < |actions| && !LoadsAt(actions, n) && !ChecksAt(actions, n, true)
    ensures PassedBefore(actions, n + 1) <==> PassedBefore(actions, n)
  {
    var m := n + 1;
    if l: nat :| LastLoad(actions, m, l) && !CheckedAfter(actions, l, m, true) {
      SameLastLoad(actions, n, l);
      SameChecked(actions, l, n, true);
    }
    if l: nat :| LastLoad(actions, n, l) && !CheckedAfter(actions, l, n, true) {
      SameLastLoad(actions, n, l);
      SameChecked(actions, l, n, true);
    }
  }

  lemma SameRefused(actions: seq<Action>, n: nat)
    requires n < |actions| && !LoadsAt(actions, n) && !ChecksAt(actions, n, false)
    ensures RefusedBefore(actions, n + 1) <==> RefusedBefore(actions, n)
  {
    var m := n + 1;
    if l: nat :| LastLoad(actions, m, l) && CheckedAfter(actions, l, m, false) {
      SameLastLoad(actions, n, l);
      SameChecked(actions, l, n, false);
    }
    if l: nat :| LastLoad(actions, n, l) && CheckedAfter(actions, l, n, false) {
      SameLastLoad(actions, n, l);
      SameChecked(actions, l, n, false);
    }
  }

  lemma OtherTold(actions: seq<Action>, n: nat)
    requires n < |actions| && VerdictTold(actions, n)
    requires !LoadsAt(actions, n) && !ChecksAt(actions, n, true) && !ChecksAt(actions, n, false)
    ensures VerdictTold(actions, n + 1)
  {
    RunOneMore(actions, n);
    StepVerdicts(Run(actions[..n]), actions[n]);
    SamePassed(actions, n);
    SameRefused(actions, n);
  }

  /** A check is the first since the load it is about. */
  lemma CheckTold(actions: seq<Action>, n: nat, valid: bool)
    requires ChecksAt(actions, n, valid) && VerdictTold(actions, n)
    ensures VerdictTold(actions, n + 1)
  {
    RunOneMore(actions, n);
    StepVerdicts(Run(actions[..n]), actions[n]);
    assert !PassedBefore(actions, n) && !RefusedBefore(actions, n);
    var l: nat :| LastLoad(actions, n, l) && !CheckedAfter(actions, l, n, true);
    SameLastLoad(actions, n, l);
    OneLastLoad(actions, n + 1);
    assert l < n && ChecksAt(actions, n, valid);
    assert CheckedAfter(actions, l, n + 1, valid);
    assert !CheckedAfter(actions, l, n, !valid);
    SameChecked(actions, l, n, !valid);
  }

  lemma VerdictAtStart(actions: seq<Action>)
    ensures VerdictTold(actions, 0)
  {
    assert actions[..0] == [];
  }

  lemma VerdictOneMore(actions: seq<Action>, n: nat)
    requires n < |actions| && VerdictTold(actions, n)
    ensures VerdictTold(actions, n + 1)
  {
    if LoadsAt(actions, n) {
      LoadTold(actions, n);
    } else if ChecksAt(actions, n, true) {
      CheckTold(actions, n, true);
    } else if ChecksAt(actions, n, false) {
      CheckTold(actions, n, false);
    } else {
      OtherTold(actions, n);
    }
  }

  lemma {:induction false} VerdictIsTold(actions: seq<Action>, n: nat)
    requires n <= |actions|
    ensures VerdictTold(actions, n)
  {
    if n == 0 {
      VerdictAtStart(actions);
    } else {
      VerdictIsTold(actions, n - 1);
      VerdictOneMore(actions, n - 1);
    }
  }

  // ---- what NewApp reads between its begin and its end ----

  /** NewApp begun at b has not ended before action i. */
  ghost predicate OpenUntil(actions: seq<Action>, b: nat, i: nat) {
    forall e: nat | b < e < i :: !EndsAt(actions, e)
  }

  /** Between the begin at b and the end of that NewApp the configuration was loaded, among the first n actions. */
  ghost predicate LoadedWithin(actions: seq<Action>, b: nat, n: nat) {
    exists i: nat :: b < i < n && LoadsAt(actions, i) && OpenUntil(actions, b, i)
  }

  /** The same for a check with this outcome. */
  ghost predicate CheckedWithin(actions: seq<Action>, b: nat, n: nat, valid: bool) {
    exists i: nat :: b < i < n && ChecksAt(actions, i, valid) && OpenUntil(actions, b, i)
  }

  lemma OpenOneMore(actions: seq<Action>, b: nat, n: nat)
    requires b < n
    ensures OpenUntil(actions, b, n + 1) <==> OpenUntil(actions, b, n) && !EndsAt(actions, n)
  {
  }

  lemma LoadedOneMore(actions: seq<Action>, b: nat, n: nat)
    requires b < n
    ensures LoadedWithin(actions, b, n + 1)
            <==> LoadedWithin(actions, b, n) || (LoadsAt(actions, n) && OpenUntil(actions, b, n))
  {
    var m := n + 1;
    if i: nat :| b < i < m && LoadsAt(actions, i) && OpenUntil(actions, b, i) {
      assert i < n || i == n;
    }
  }

  lemma CheckedOneMore(actions: seq<Action>, b: nat, n: nat, valid: bool)
    requires b < n
    ensures CheckedWithin(actions, b, n + 1, valid)
            <==> CheckedWithin(actions, b, n, valid) || (ChecksAt(actions, n, valid) && OpenUntil(actions, b, n))
  {
    var m := n + 1;
    if i: nat :| b < i < m && ChecksAt(actions, i, valid) && OpenUntil(actions, b, i) {
      assert i < n || i == n;
    }
  }

  /** What the newest NewApp, begun at b, has read by action n, in terms of what was loaded and checked. */
  ghost predicate ReadTold(actions: seq<Action>, b: nat, n: nat)
    requires n <= |actions|
  {
    var s := Run(actions[..n]);
    && (s.loop == Building <==> OpenUntil(actions, b, n))
    && s.built != {}
    && (s.built <= {Passed} <==> PassedBefore(actions, b) && !LoadedWithin(actions, b, n))
    && (Refused in s.built <==> RefusedBefore(actions, b) || CheckedWithin(actions, b, n, false))
    && (s.loop == Building ==> s.config in s.built)
  }

  lemma BuildTold(actions: seq<Action>, b: nat)
    requires BuildsAt(actions, b) && VerdictTold(actions, b)
    ensures ReadTold(actions, b, b + 1)
  {
    RunOneMore(actions, b);
    StepVerdicts(Run(actions[..b]), actions[b]);
    assert Run(actions[..b + 1]).built == {Run(actions[..b]).config};
    assert {Passed} != {Refused} && {Passed} != {Unchecked} by {
      assert Passed in {Passed};
    }
  }

  lemma StepLoop(s: State, a: Action)
    requires !(a.BeginNewApp? && s.loop == Ready)
    ensures Step(s, a).loop == Building <==> s.loop == Building && !a.EndNewApp?
  {
  }

  lemma StepRead(s: State, a: Action)
    requires !(a.BeginNewApp? && s.loop == Ready)
    ensures s.loop != Building ==> Step(s, a).built == s.built
    ensures s.loop == Building ==>
      Step(s, a).built == s.built + (if a.Load? && s.watcher == Watching then {Unchecked}
                                     else if a == Validate(true) && s.watcher == Loaded then {Passed}
                                     else if a == Validate(false) && s.watcher == Loaded then {Refused} else {})
  {
  }

  lemma ReadOneMore(actions: seq<Action>, b: nat, n: nat)
    requires b < n < |actions| && !BuildsAt(actions, n)
    requires ReadTold(actions, b, n) && VerdictTold(actions, n)
    ensures ReadTold(actions, b, n + 1)
  {
    var s, a := Run(actions[..n]), actions[n];
    RunOneMore(actions, n);
    StepVerdicts(s, a);
    StepLoop(s, a);
    StepRead(s, a);
    OpenOneMore(actions, b, n);
    LoadedOneMore(actions, b, n);
    CheckedOneMore(actions, b, n, false);
  }

  lemma NoBuildAfter(actions: seq<Action>, n: nat, b: nat, i: nat)
    requires LastBuild(actions, n, b)
    ensures BuildsAt(actions, b) && b < n && (b < i < n ==> !BuildsAt(actions, i))
  {
  }

  lemma ReadFirst(actions: seq<Action>, b: nat)
    requires BuildsAt(actions, b)
    ensures ReadTold(actions, b, b + 1)
  {
    VerdictIsTold(actions, b);
    BuildTold(actions, b);
  }

  lemma ReadNext(actions: seq<Action>, b: nat, i: nat)
    requires b < i < |actions| && !BuildsAt(actions, i) && ReadTold(actions, b, i)
    ensures ReadTold(actions, b, i + 1)
  {
    VerdictIsTold(actions, i);
    ReadOneMore(actions, b, i);
  }

  lemma {:induction false} ReadIsTold(actions: seq<Action>, n: nat, b: nat, i: nat)
    requires n <= |actions| && LastBuild(actions, n, b) && b < i <= n
    ensures ReadTold(actions, b, i)
  {
    NoBuildAfter(actions, n, b, i - 1);
    if i == b + 1 {
      ReadFirst(actions, b);
    } else {
      ReadIsTold(actions, n, b, i - 1);
      ReadNext(actions, b, i - 1);
    }
  }

  /** In every run the newest NewApp read validated configuration only, if and only if the last load before it began had
      passed by then, or there was none, and no load fell between its begin and its end; it read a refused one if and
      only if that load had been refused or a refusal fell between its begin and its end. */
  lemma BuiltFromValidIff(actions: seq<Action>, b: nat)
    requires LastBuild(actions, |actions|, b)
    ensures Run(actions).built == {Passed} <==> PassedBefore(actions, b) && !LoadedWithin(actions, b, |actions|)
    ensures Refused in Run(actions).built
            <==> RefusedBefore(actions, b) || CheckedWithin(actions, b, |actions|, false)
  {
    assert actions[..|actions|] == actions;
    ReadIsTold(actions, |actions|, b, |actions|);
    var built := Run(actions).built;
    if built <= {Passed} {
      var v :| v in built;
      assert built == {Passed};
    }
  }

  /** An invalid reload does get used: the app begun after it is built from what was refused. */
  lemma InvalidReloadIsUsed()
    ensures var s := Run([SetCallback, Load(true), Validate(false), BeginNewApp]);
      s.built == {Refused} && s.validated == 0 && s.loop == Building
  {
    var actions := [SetCallback, Load(true), Validate(false), BeginNewApp];
    assert actions[..0] == [];
    RunOneMore(actions, 0);
    RunOneMore(actions, 1);
    RunOneMore(actions, 2);
    RunOneMore(actions, 3);
    assert actions[..4] == actions;
  }

  /** So does one that lands while an app is being built from a good configuration. */
  lemma ReloadDuringNewApp()
    ensures var actions := [SetCallback, BeginNewApp, Load(true), Validate(false), EndNewApp(false)];
            var s := Run(actions);
      s.built == {Passed, Unchecked, Refused} && |s.apps| == 1 && PassedBefore(actions, 1)
  {
    var actions := [SetCallback, BeginNewApp, Load(true), Validate(false), EndNewApp(false)];
    assert actions[..0] == [];
    RunOneMore(actions, 0);
    VerdictIsTold(actions, 1);
    RunOneMore(actions, 1);
    RunOneMore(actions, 2);
    RunOneMore(actions, 3);
    RunOneMore(actions, 4);
    assert actions[..5] == actions;
  }
}
