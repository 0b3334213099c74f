/** The hand-off of the taskbar watcher (src-tauri/src/window/taskbar_dock.rs): two atomic flags,
    and any number of mode setters and watchers that interleave between single accesses. */
module Watcher {
  /** Where a thread is. The next access, or the next round of the loop body, is still to come. */
  datatype Pc =
    | Storing(on: bool) // set_display_mode, before it stores TASKBAR_ACTIVE
    | Swapping          // set_display_mode, before the swap in spawn_watcher
    | LoopCheck         // watcher, before the load in the loop condition
    | Working           // watcher, in the loop body
    | Resetting         // watcher, before it stores false to WATCHER_RUNNING
    | Rechecking        // watcher, before the load after the reset
    | Respawning        // watcher, before the swap of its own spawn_watcher call

  /** The two flags and, as threads carry no local state but their position, how many threads
      stand where. */
  datatype State = State(
    windows: bool, active: bool, running: bool,
    storingOn: nat, storingOff: nat, swapping: nat,
    looping: nat, working: nat, resetting: nat, rechecking: nat, respawning: nat)
  {
    function Count(pc: Pc): nat {
      match pc
      case Storing(on) => if on then storingOn else storingOff
      case Swapping => swapping
      case LoopCheck => looping
      case Working => working
      case Resetting => resetting
      case Rechecking => rechecking
      case Respawning => respawning
    }
  }

  datatype Event = Call(mode: string) | Advance(pc: Pc)

  /** normalize_display_mode */
  function NormalizeDisplayMode(mode: string, windows: bool): string {
    if mode == "none" then "none"
    else if mode == "taskbar" && windows then "taskbar"
    else "overlay"
  }

  function Initial(windows: bool): State {
    State(windows, false, false, 0, 0, 0, 0, 0, 0, 0, 0)
  }

  /** The swap in spawn_watcher: only the thread that finds false starts a watcher. */
  function Swap(s: State): State {
    s.(running := true, looping := if s.running then s.looping else s.looping + 1)
  }

  /** One access of a thread that is there. */
  function Access(s: State, pc: Pc): State
    requires s.Count(pc) > 0
  {
    match pc
    case Storing(on) =>
      if on then s.(active := true, storingOn := s.storingOn - 1, swapping := s.swapping + 1)
      else s.(active := false, storingOff := s.storingOff - 1)
    case Swapping => Swap(s.(swapping := s.swapping - 1))
    case LoopCheck =>
      if s.active then s.(looping := s.looping - 1, working := s.working + 1)
      else s.(looping := s.looping - 1, resetting := s.resetting + 1)
    // Away from Windows, placing the strip switches the taskbar mode off.
    case Working => s.(active := s.active && s.windows, working := s.working - 1, looping := s.looping + 1)
    case Resetting => s.(running := false, resetting := s.resetting - 1, rechecking := s.rechecking + 1)
    case Rechecking =>
      s.(rechecking := s.rechecking - 1, respawning := if s.active then s.respawning + 1 else s.respawning)
    case Respawning => Swap(s.(respawning := s.respawning - 1))
  }

  /** A new call of set_display_mode, or one access of one thread; nothing happens when no thread
      is there. */
  function Step(s: State, e: Event): State {
    match e
    case Call(mode) =>
      if NormalizeDisplayMode(mode, s.windows) == "taskbar" then s.(storingOn := s.storingOn + 1)
      else s.(storingOff := s.storingOff + 1)
    case Advance(pc) => if s.Count(pc) == 0 then s else Access(s, pc)
  }

  function Run(s: State, events: seq<Event>): State
    decreases |events|
  {
    if events == [] then s else Run(Step(s, events[0]), events[1..])
  }

  // Safety: at most one watcher, and no lost re-enable.

  /** The watchers that own the loop. */
  function Owners(s: State): nat {
    s.looping + s.working + s.resetting
  }

  function Stores(s: State): nat {
    s.storingOn + s.storingOff
  }

  function Threads(s: State): nat {
    Stores(s) + s.swapping + s.rechecking + s.respawning + Owners(s)
  }

  /** The running flag is set exactly when one watcher owns the loop. */
  predicate OneOwner(s: State) {
    Owners(s) == if s.running then 1 else 0
  }

  /** While the mode is on, some thread is there to start or keep a watcher: a setter before its
      swap, the owner, or a watcher between its reset and its own swap. */
  predicate NothingLost(s: State) {
    s.active ==> s.swapping > 0 || s.running || s.rechecking > 0 || s.respawning > 0
  }

  /** Away from Windows the taskbar mode is never requested. */
  predicate OffPlatform(s: State) {
    !s.windows ==> !s.active && Threads(s) == s.storingOff
  }

  predicate Inv(s: State) {
    OneOwner(s) && NothingLost(s) && OffPlatform(s)
  }

  lemma StepKeeps(s: State, e: Event)
    requires Inv(s)
    ensures Inv(Step(s, e)) && Step(s, e).windows == s.windows
  {}

  lemma {:induction false} RunKeeps(s: State, events: seq<Event>)
    requires Inv(s)
    ensures Inv(Run(s, events)) && Run(s, events).windows == s.windows
    decreases |events|
  {
    hide Step, Inv;
    if events != [] {
      StepKeeps(s, events[0]);
      RunKeeps(Step(s, events[0]), events[1..]);
    }
  }

  /** At most one watcher owns the loop and the flag says whether one does; with the mode on and
      no setter before its swap there is an owner, or a watcher on its way to re-check and
      re-spawn. */
  predicate Safe(s: State) {
    && Owners(s) <= 1 && (s.running <==> Owners(s) == 1)
    && (s.active && s.swapping == 0 ==> Owners(s) == 1 || s.rechecking > 0 || s.respawning > 0)
    && (!s.windows ==> !s.active && Owners(s) == 0)
  }

  lemma InitiallyInv(windows: bool)
    ensures Inv(Initial(windows))
  {}

  lemma InvIsSafe(s: State)
    requires Inv(s)
    ensures Safe(s)
  {}

  /** Safe after any calls and any interleaving. */
  lemma EveryRunIsSafe(windows: bool, events: seq<Event>)
    ensures Safe(Run(Initial(windows), events))
  {
    hide *;
    InitiallyInv(windows);
    RunKeeps(Initial(windows), events);
    InvIsSafe(Run(Initial(windows), events));
  }

  // Progress: once calls stop, only the owner's loop goes on, and only while the mode is on.

  /** A step of a live thread other than a round of the loop while the mode is on. */
  predicate Busy(s: State, pc: Pc) {
    s.Count(pc) > 0 && !(s.active && (pc == LoopCheck || pc == Working))
  }

  /** What is left to do if no store changes the mode any more. */
  function Due(s: State): nat {
    if s.active then 3 * s.resetting + 2 * s.rechecking + s.respawning + s.swapping
    else s.rechecking + 2 * s.resetting + 3 * s.looping + 4 * (s.working + s.respawning + s.swapping)
  }

  /** A bound on the busy steps of at most n threads. */
  function Bound(s: State, n: nat): nat {
    (4 * n + 1) * Stores(s) + Due(s)
  }

  lemma StepCosts(s: State, pc: Pc)
    requires Inv(s) && s.Count(pc) > 0 && !pc.Storing?
    ensures
      var t := Step(s, Advance(pc));
      && Threads(t) <= Threads(s) && Stores(t) == Stores(s)
      && Due(t) + (if Busy(s, pc) then 1 else 0) <= Due(s)
  {}

  lemma StoreCosts(s: State, pc: Pc)
    requires s.Count(pc) > 0 && pc.Storing?
    ensures
      var t := Step(s, Advance(pc));
      Threads(t) <= Threads(s) && Stores(t) == Stores(s) - 1
  {}

  lemma DueIsBounded(s: State)
    ensures Due(s) <= 4 * Threads(s)
  {}

  lemma {:induction false} Lowered(n: nat, stores: nat, due: nat, t: nat, d: nat, busy: nat)
    requires d <= 4 * n && busy <= 1
    requires stores == t + 1 || (stores == t && d + busy <= due)
    ensures (4 * n + 1) * t + d + busy <= (4 * n + 1) * stores + due
  {
    if stores == t + 1 {
      assert (4 * n + 1) * stores == (4 * n + 1) * t + (4 * n + 1);
    }
  }

  lemma StepLowersTheBound(s: State, pc: Pc, n: nat)
    requires Inv(s) && s.Count(pc) > 0 && Threads(s) <= n
    ensures
      var t := Step(s, Advance(pc));
      Threads(t) <= n && Bound(t, n) + (if Busy(s, pc) then 1 else 0) <= Bound(s, n)
  {
    hide Step, Inv, Busy, Due, Stores, Threads;
    var t := Step(s, Advance(pc));
    if pc.Storing? { StoreCosts(s, pc); } else { StepCosts(s, pc); }
    DueIsBounded(t);
    Lowered(n, Stores(s), Due(s), Stores(t), Due(t), if Busy(s, pc) then 1 else 0);
  }

  predicate CallFree(events: seq<Event>) {
    forall e :: e in events ==> e.Advance?
  }

  /** How many events of the run are busy steps. */
  function BusySteps(s: State, events: seq<Event>): nat
    decreases |events|
  {
    if events == [] then 0
    else
      var e := events[0];
      (if e.Advance? && Busy(s, e.pc) then 1 else 0) + BusySteps(Step(s, e), events[1..])
  }

  /** Without further calls the busy steps are bounded, whatever the schedule. */
  lemma {:induction false} BusyStepsAreBounded(s: State, events: seq<Event>, n: nat)
    requires Inv(s) && CallFree(events) && Threads(s) <= n
    ensures BusySteps(s, events) <= Bound(s, n)
    decreases |events|
  {
    if events != [] {
      var pc := events[0].pc;
      if s.Count(pc) > 0 { StepLowersTheBound(s, pc, n); }
      StepKeeps(s, events[0]);
      hide Inv, Busy, Bound, Threads;
      BusyStepsAreBounded(Step(s, events[0]), events[1..], n);
    }
  }

  /** One watcher is in its loop, and no other thread is left. */
  predicate OnlyOneLoops(s: State) {
    Threads(s) == 1 && s.looping + s.working == 1
  }

  lemma NothingBusy(s: State)
    requires forall pc :: !Busy(s, pc)
    ensures Stores(s) == 0 && s.swapping == 0
    ensures s.resetting == 0 && s.rechecking == 0 && s.respawning == 0
    ensures !s.active ==> s.looping == 0 && s.working == 0
  {
    assert !Busy(s, Storing(true));
    assert !Busy(s, Storing(false));
    assert !Busy(s, Swapping);
    assert !Busy(s, LoopCheck);
    assert !Busy(s, Working);
    assert !Busy(s, Resetting);
    assert !Busy(s, Rechecking);
    assert !Busy(s, Respawning);
  }

  lemma Settled(s: State)
    requires Inv(s) && Stores(s) == 0 && s.swapping == 0
    requires s.resetting == 0 && s.rechecking == 0 && s.respawning == 0
    requires !s.active ==> s.looping == 0 && s.working == 0
    ensures if s.active then s.running && OnlyOneLoops(s)
            else !s.running && Threads(s) == 0
  {
  }

  /** When no busy step is left, one watcher loops if the mode is on; if it is off, no thread is
      left and the flag is reset. */
  lemma SettledMeans(windows: bool, events: seq<Event>)
    requires forall pc :: !Busy(Run(Initial(windows), events), pc)
    ensures
      var s := Run(Initial(windows), events);
      if s.active then s.running && OnlyOneLoops(s)
      else !s.running && Threads(s) == 0
  {
    hide *;
    InitiallyInv(windows);
    RunKeeps(Initial(windows), events);
    NothingBusy(Run(Initial(windows), events));
    Settled(Run(Initial(windows), events));
  }

  // The last call decides.

  lemma {:induction false} RunConcat(s: State, a: seq<Event>, b: seq<Event>)
    ensures Run(s, a + b) == Run(Run(s, a), b)
    decreases |a|
  {
    hide Step;
    if a == [] {
      assert a + b == b;
    } else {
      RunConcat(Step(s, a[0]), a[1..], b);
      assert (a + b)[1..] == a[1..] + b;
    }
  }

  /** The only store still to come sets the mode, or the mode is set and no store is to come. */
  predicate Heading(s: State, on: bool) {
    || (Stores(s) == 1 && s.Count(Storing(on)) == 1)
    || (Stores(s) == 0 && s.active == on)
  }

  lemma StepKeepsHeading(s: State, pc: Pc, on: bool)
    requires Heading(s, on) && (on ==> s.windows)
    ensures Heading(Step(s, Advance(pc)), on) && Step(s, Advance(pc)).windows == s.windows
  {}

  lemma {:induction false} RunKeepsHeading(s: State, events: seq<Event>, on: bool)
    requires CallFree(events) && Heading(s, on) && (on ==> s.windows)
    ensures Heading(Run(s, events), on)
    decreases |events|
  {
    hide Step, Heading;
    if events != [] {
      StepKeepsHeading(s, events[0].pc, on);
      RunKeepsHeading(Step(s, events[0]), events[1..], on);
    }
  }

  lemma CallHeads(s: State, mode: string)
    requires Stores(s) == 0
    ensures Heading(Step(s, Call(mode)), s.windows && mode == "taskbar") && Step(s, Call(mode)).windows == s.windows
  {}

  lemma RestingMode(s: State, on: bool)
    requires Heading(s, on) && forall pc :: !Busy(s, pc)
    ensures s.active == on
  {
    NothingBusy(s);
  }

  /** A call that no other call overtakes decides: once the threads have come to rest, one watcher
      loops if it asked for the taskbar on Windows, and otherwise the mode is off and no thread
      is left. */
  lemma LastCallDecides(windows: bool, before: seq<Event>, mode: string, rest: seq<Event>)
    requires Stores(Run(Initial(windows), before)) == 0 && CallFree(rest)
    requires forall pc :: !Busy(Run(Initial(windows), before + [Call(mode)] + rest), pc)
    ensures
      var s := Run(Initial(windows), before + [Call(mode)] + rest);
      if windows && mode == "taskbar" then s.active && s.running && OnlyOneLoops(s)
      else !s.active && !s.running && Threads(s) == 0
  {
    hide Step, Inv, Heading, Busy, Stores, Threads, OnlyOneLoops, CallFree;
    var s := Run(Initial(windows), before);
    InitiallyInv(windows);
    RunKeeps(Initial(windows), before);
    RunConcat(Initial(windows), before, [Call(mode)]);
    RunConcat(Initial(windows), before + [Call(mode)], rest);
    assert Run(s, [Call(mode)]) == Step(s, Call(mode));
    CallHeads(s, mode);
    RunKeepsHeading(Step(s, Call(mode)), rest, windows && mode == "taskbar");
    RestingMode(Run(Initial(windows), before + [Call(mode)] + rest), windows && mode == "taskbar");
    SettledMeans(windows, before + [Call(mode)] + rest);
  }

  /** Every mode becomes one of the three; a mode that is one already stays as it is, except for
      the taskbar away from Windows, and doing it again changes nothing. */
  lemma NormalizedModes(mode: string, windows: bool)
    ensures
      var mode' := NormalizeDisplayMode(mode, windows);
      && (mode' == "none" || mode' == "overlay" || mode' == "taskbar")
      && (mode' == "taskbar" ==> windows)
      && (mode == "none" || mode == "overlay" || (mode == "taskbar" && windows) <==> mode' == mode)
      && (mode' != mode ==> mode' == "overlay")
      && NormalizeDisplayMode(mode', windows) == mode'
  {}
}
