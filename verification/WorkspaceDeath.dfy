/** The death of a workspace as concurrent steps. Strong references to a workspace are dropped by any thread at any
    time; the last one to go starts the destructor, which adds the workspace to the dead list under a mutex of its
    own; the next thread to take the window manager's lock takes the list over and erases the pairs of each workspace
    on it before it does anything else. */
module WorkspaceDeath {
  import opened Sequences

  type Thread = nat
  type Workspace = nat
  type Window = nat

  /** What the thread that has the window manager's lock is doing. `Asking` is the loop of workspaces_containing: the
      pairs of the window it has yet to look at and the strong references it has collected. */
  datatype Lock =
    | Free
    | Entering(holder: Thread)
    | Draining(holder: Thread, rest: seq<Workspace>)
    | Inside(holder: Thread)
    | Asking(holder: Thread, window: Window, todo: set<Workspace>, found: set<Workspace>)

  datatype System = System(
    owners: map<Workspace, multiset<Thread>>,  // the strong references to every workspace ever made
    dying: set<Workspace>,                     // the last reference is gone and the destructor has not queued it yet
    queue: seq<Workspace>,                     // dead_workspaces->workspaces
    lock: Lock,
    pairs: set<(Workspace, Window)>            // workspaces_to_windows, which holds weak references only
  ) {
    predicate Live(ws: Workspace) { ws in owners && owners[ws] != multiset{} }

    predicate Owns(t: Thread, ws: Workspace) { ws in owners && t in owners[ws] }

    /** A thread in the middle of the lock's own work does nothing else. */
    predicate Busy(t: Thread) { !lock.Free? && !lock.Inside? && lock.holder == t }

    function Rest(): seq<Workspace> { if lock.Draining? then lock.rest else [] }
  }

  const START := System(map[], {}, [], Free, {})

  datatype Step =
    | Create(thread: Thread, ws: Workspace)
    | Share(thread: Thread, to: Thread, ws: Workspace)
    | Drop(thread: Thread, ws: Workspace)
    | Destroy(ws: Workspace)
    | Acquire(thread: Thread)
    | TakeQueue
    | Drain
    | Insert(ws: Workspace, window: Window)
    | Remove(ws: Workspace, window: Window)
    | RemoveWindow(window: Window)
    | Ask(window: Window)
    | Try(ws: Workspace)
    | Answered
    | Release

  predicate Enabled(s: System, step: Step) {
    match step
    case Create(t, ws) => !s.Busy(t) && ws !in s.owners
    case Share(t, _, ws) => !s.Busy(t) && s.Owns(t, ws)
    case Drop(t, ws) => !s.Busy(t) && s.Owns(t, ws)
    case Destroy(ws) => ws in s.dying
    case Acquire(_) => s.lock.Free?
    case TakeQueue => s.lock.Entering?
    case Drain => s.lock.Draining?
    case Insert(ws, _) => s.lock.Inside? && s.Owns(s.lock.holder, ws)
    case Remove(ws, _) => s.lock.Inside? && s.Owns(s.lock.holder, ws)
    case RemoveWindow(_) => s.lock.Inside?
    case Ask(_) => s.lock.Inside?
    case Try(ws) => s.lock.Asking? && ws in s.lock.todo
    case Answered => s.lock.Asking? && s.lock.todo == {}
    case Release => s.lock.Inside?
  }

  function Apply(s: System, step: Step): System
    requires Enabled(s, step)
  {
    match step
    case Create(t, ws) => s.(owners := s.owners[ws := multiset{t}])
    case Share(_, to, ws) => s.(owners := s.owners[ws := s.owners[ws] + multiset{to}])
    case Drop(t, ws) =>
      var left := s.owners[ws] - multiset{t};
      s.(owners := s.owners[ws := left], dying := if left == multiset{} then s.dying + {ws} else s.dying)
    case Destroy(ws) => s.(dying := s.dying - {ws}, queue := s.queue + [ws])
    case Acquire(t) => s.(lock := Entering(t))
    case TakeQueue => s.(lock := Draining(s.lock.holder, s.queue), queue := [])
    case Drain =>
      if s.lock.rest == [] then s.(lock := Inside(s.lock.holder))
      else s.(lock := s.lock.(rest := s.lock.rest[1..]), pairs := WithoutWorkspace(s.pairs, s.lock.rest[0]))
    case Insert(ws, w) => s.(pairs := s.pairs + {(ws, w)})
    case Remove(ws, w) => s.(pairs := s.pairs - {(ws, w)})
    case RemoveWindow(w) => s.(pairs := set p | p in s.pairs && p.1 != w)
    case Ask(w) => s.(lock := Asking(s.lock.holder, w, set p | p in s.pairs && p.1 == w :: p.0, {}))
    case Try(ws) =>
      var asked := s.lock.(todo := s.lock.todo - {ws});
      if s.Live(ws) then
        s.(lock := asked.(found := asked.found + {ws}),
           owners := s.owners[ws := s.owners[ws] + multiset{s.lock.holder}])
      else s.(lock := asked)
    case Answered => s.(lock := Inside(s.lock.holder))
    case Release => s.(lock := Free)
  }

  function WithoutWorkspace(pairs: set<(Workspace, Window)>, ws: Workspace): set<(Workspace, Window)> {
    set p | p in pairs && p.0 != ws
  }

  /** A pair whose workspace is dead is still to be drained. */
  ghost predicate PairsAccounted(s: System) {
    forall ws: Workspace, w: Window :: (ws, w) in s.pairs ==> Accounted(s, ws)
  }

  predicate Accounted(s: System, ws: Workspace) {
    ws in s.owners && (s.Live(ws) || ws in s.dying || ws in s.queue || ws in s.Rest())
  }

  /** A workspace on its way out is dead. */
  ghost predicate DeadAreDead(s: System) {
    forall ws: Workspace :: ws in s.dying || ws in s.queue || ws in s.Rest() ==> ws in s.owners && !s.Live(ws)
  }

  /** It is in one place only, and there once. */
  ghost predicate InOnePlace(s: System) {
    && (forall ws: Workspace :: ws in s.dying ==> ws !in s.queue && ws !in s.Rest())
    && (forall ws: Workspace :: ws in s.queue ==> ws !in s.Rest())
    && NoDup(s.queue) && NoDup(s.Rest())
  }

  /** What a query has found is kept alive by the thread that asked. */
  ghost predicate FindsHeld(s: System) {
    s.lock.Asking? ==> forall ws: Workspace :: ws in s.lock.found ==> s.Owns(s.lock.holder, ws)
  }

  ghost predicate Invariant(s: System) {
    PairsAccounted(s) && DeadAreDead(s) && InOnePlace(s) && FindsHeld(s)
  }

  lemma {:induction false} StepKeepsPairsAccounted(s: System, step: Step)
    requires PairsAccounted(s) && Enabled(s, step)
    ensures PairsAccounted(Apply(s, step))
  {
    var s' := Apply(s, step);
    forall ws: Workspace, w: Window | (ws, w) in s'.pairs
      ensures Accounted(s', ws)
    {
      assert (ws, w) in s.pairs || step == Insert(ws, w);
      assert Accounted(s, ws);
      StaysAccounted(s, step, ws);
    }
  }

  /** Until the drain erases its pairs. */
  lemma {:induction false} StaysAccounted(s: System, step: Step, ws: Workspace)
    requires Enabled(s, step) && Accounted(s, ws)
    requires !(step.Drain? && s.lock.rest != [] && s.lock.rest[0] == ws)
    ensures Accounted(Apply(s, step), ws)
  {
    if step.Drain? && s.lock.rest != [] {
      assert s.lock.rest == [s.lock.rest[0]] + Apply(s, step).Rest();
    }
  }

  lemma {:induction false} StepKeepsDeadDead(s: System, step: Step)
    requires DeadAreDead(s) && Enabled(s, step)
    ensures DeadAreDead(Apply(s, step))
  {
    var s' := Apply(s, step);
    forall ws: Workspace | ws in s'.dying || ws in s'.queue || ws in s'.Rest()
      ensures ws in s'.owners && !s'.Live(ws)
    {
      if ws in s.dying || ws in s.queue || ws in s.Rest() {
        DeadStaysDead(s, step, ws);
      } else {
        assert step.Drop? && step.ws == ws;
      }
    }
  }

  /** Nothing brings back a workspace without owners. */
  lemma {:induction false} DeadStaysDead(s: System, step: Step, ws: Workspace)
    requires Enabled(s, step) && ws in s.owners && !s.Live(ws)
    ensures ws in Apply(s, step).owners && !Apply(s, step).Live(ws)
  {
  }

  lemma {:induction false} StepKeepsInOnePlace(s: System, step: Step)
    requires DeadAreDead(s) && InOnePlace(s) && Enabled(s, step)
    ensures InOnePlace(Apply(s, step))
  {
    if step.Destroy? {
      DestroyKeepsInOnePlace(s, step.ws);
    } else if step.Drain? {
      DrainKeepsInOnePlace(s);
    } else if step.Drop? {
      DropKeepsInOnePlace(s, step.thread, step.ws);
    }
  }

  lemma {:induction false} DestroyKeepsInOnePlace(s: System, ws: Workspace)
    requires InOnePlace(s) && ws in s.dying
    ensures InOnePlace(Apply(s, Destroy(ws)))
  {
    ConcatNoDup(s.queue, [ws]);
  }

  lemma {:induction false} DropKeepsInOnePlace(s: System, t: Thread, ws: Workspace)
    requires DeadAreDead(s) && InOnePlace(s) && Enabled(s, Drop(t, ws))
    ensures InOnePlace(Apply(s, Drop(t, ws)))
  {
    assert s.Live(ws);
  }

  lemma {:induction false} DrainKeepsInOnePlace(s: System)
    requires InOnePlace(s) && s.lock.Draining?
    ensures InOnePlace(Apply(s, Drain))
  {
    if s.lock.rest != [] {
      assert s.lock.rest == [s.lock.rest[0]] + Apply(s, Drain).Rest();
    }
  }

  lemma {:induction false} StepKeepsFindsHeld(s: System, step: Step)
    requires FindsHeld(s) && Enabled(s, step)
    ensures FindsHeld(Apply(s, step))
  {
    var s' := Apply(s, step);
    if s.lock.Asking? && s'.lock.Asking? {
      forall ws: Workspace | ws in s'.lock.found
        ensures s'.Owns(s'.lock.holder, ws)
      {
        assert ws in s.lock.found || step == Try(ws);
        HolderKeeps(s, step, s.lock.holder, ws);
      }
    }
  }

  /** No step takes a reference from a thread in the middle of the lock's own work; and a try that finds the workspace
      live gives it one. */
  lemma {:induction false} HolderKeeps(s: System, step: Step, t: Thread, ws: Workspace)
    requires Enabled(s, step) && s.Busy(t)
    ensures s.Owns(t, ws) || (step == Try(ws) && s.Live(ws)) ==> Apply(s, step).Owns(t, ws)
  {
  }

  lemma {:induction false} StepKeepsInvariant(s: System, step: Step)
    requires Invariant(s) && Enabled(s, step)
    ensures Invariant(Apply(s, step))
  {
    StepKeepsPairsAccounted(s, step);
    StepKeepsDeadDead(s, step);
    StepKeepsInOnePlace(s, step);
    StepKeepsFindsHeld(s, step);
  }

  ghost predicate Next(s: System, step: Step, s': System) {
    Enabled(s, step) && s' == Apply(s, step)
  }

  ghost predicate IsRun(states: seq<System>, steps: seq<Step>) {
    && |states| == |steps| + 1
    && forall i :: 0 <= i < |steps| ==> Next(states[i], steps[i], states[i + 1])
  }

  /** In every reachable state, whatever the interleaving. */
  lemma {:induction false} RunsKeepInvariant(states: seq<System>, steps: seq<Step>, i: nat)
    requires IsRun(states, steps) && states[0] == START && i < |states|
    ensures Invariant(states[i])
  {
    if i > 0 {
      RunsKeepInvariant(states, steps, i - 1);
      StepKeepsInvariant(states[i - 1], steps[i - 1]);
    }
  }

  // ----- a dead workspace leaves no pairs behind

  /** ws is dead and its destructor has run. */
  ghost predicate Destroyed(s: System, ws: Workspace) {
    ws in s.owners && !s.Live(ws) && ws !in s.dying
  }

  ghost predicate Unpaired(s: System, ws: Workspace) {
    forall w: Window :: (ws, w) !in s.pairs
  }

  /** It is still queued with nobody past the drain, being drained, or gone for good. */
  ghost predicate OnItsWayOut(s: System, ws: Workspace) {
    && Invariant(s) && Destroyed(s, ws)
    && (|| (ws in s.queue && (s.lock.Free? || s.lock.Entering?))
        || ws in s.Rest()
        || (ws !in s.queue && ws !in s.Rest() && Unpaired(s, ws)))
  }

  lemma {:induction false} StepKeepsDestroyed(s: System, step: Step, s': System, ws: Workspace)
    requires Next(s, step, s') && Destroyed(s, ws)
    ensures Destroyed(s', ws) && (Unpaired(s, ws) ==> Unpaired(s', ws))
  {
  }

  lemma {:induction false} StaysOnItsWayOut(s: System, step: Step, s': System, ws: Workspace)
    requires Next(s, step, s') && OnItsWayOut(s, ws)
    ensures OnItsWayOut(s', ws)
  {
    StepKeepsInvariant(s, step);
    StepKeepsDestroyed(s, step, s', ws);
    if step.Drain? && s.lock.rest != [] {
      assert s.lock.rest == [s.lock.rest[0]] + s'.Rest();
    }
  }

  lemma {:induction false} StaysDestroyed(states: seq<System>, steps: seq<Step>, i: nat, j: nat, ws: Workspace)
    requires IsRun(states, steps) && i <= j < |states| && Destroyed(states[i], ws)
    ensures Destroyed(states[j], ws) && (Unpaired(states[i], ws) ==> Unpaired(states[j], ws))
  {
    if i < j {
      StaysDestroyed(states, steps, i, j - 1, ws);
      StepKeepsDestroyed(states[j - 1], steps[j - 1], states[j], ws);
    }
  }

  lemma {:induction false} GoesOnItsWay(states: seq<System>, steps: seq<Step>, i: nat, j: nat, ws: Workspace)
    requires IsRun(states, steps) && i <= j < |states| && OnItsWayOut(states[i], ws)
    ensures OnItsWayOut(states[j], ws)
  {
    if i < j {
      GoesOnItsWay(states, steps, i, j - 1, ws);
      StaysOnItsWayOut(states[j - 1], steps[j - 1], states[j], ws);
    }
  }

  /** A workspace queued before a lock is taken has no pairs left once the lock is held, and never has any again. */
  lemma {:induction false} DrainedBeforeUse(
      states: seq<System>, steps: seq<Step>, i: nat, j: nat, k: nat, ws: Workspace)
    requires IsRun(states, steps) && states[0] == START && i <= j <= k < |states|
    requires ws in states[i].queue && (states[i].lock.Free? || states[i].lock.Entering?)
    requires states[j].lock.Inside? || states[j].lock.Asking?
    ensures Unpaired(states[k], ws)
  {
    RunsKeepInvariant(states, steps, i);
    GoesOnItsWay(states, steps, i, j, ws);
    StaysDestroyed(states, steps, j, k, ws);
  }

  /** The destructor of a workspace queues it once: no step queues it again. */
  lemma {:induction false} QueuedOnce(states: seq<System>, steps: seq<Step>, i: nat, j: nat, ws: Workspace)
    requires IsRun(states, steps) && states[0] == START && i < j < |steps| && steps[i] == Destroy(ws)
    ensures steps[j] != Destroy(ws)
  {
    RunsKeepInvariant(states, steps, i);
    assert Next(states[i], steps[i], states[i + 1]);
    StaysDestroyed(states, steps, i + 1, j, ws);
    assert Next(states[j], steps[j], states[j + 1]);
  }

  // ----- how long a pair lasts

  /** The steps that take the pair of a workspace and a window away. */
  predicate Unpairs(step: Step, ws: Workspace, w: Window) {
    step == Remove(ws, w) || step == RemoveWindow(w)
  }

  lemma {:induction false} StepOnPair(s: System, step: Step, s': System, ws: Workspace, w: Window)
    requires Next(s, step, s')
    ensures step == Insert(ws, w) ==> (ws, w) in s'.pairs
    ensures Unpairs(step, ws, w) ==> (ws, w) !in s'.pairs
    ensures step != Insert(ws, w) && (ws, w) in s'.pairs ==> (ws, w) in s.pairs
  {
  }

  lemma {:induction false} StepLeavesPair(s: System, step: Step, s': System, ws: Workspace, w: Window)
    requires DeadAreDead(s) && Next(s, step, s') && s.Live(ws) && !Unpairs(step, ws, w)
    ensures (ws, w) in s.pairs ==> (ws, w) in s'.pairs
  {
    if step.Drain? && s.lock.rest != [] {
      assert s.lock.rest[0] in s.Rest();
    }
  }

  /** The last step to decide on the pair, if any. */
  ghost predicate LastToDecide(steps: seq<Step>, i: nat, j: nat, ws: Workspace, w: Window)
    requires i < j <= |steps|
  {
    && (steps[i] == Insert(ws, w) || Unpairs(steps[i], ws, w))
    && forall k :: i < k < j ==> steps[k] != Insert(ws, w) && !Unpairs(steps[k], ws, w)
  }

  /** As long as a workspace is live, it and a window are a pair exactly if the last step to decide on the two put them
      together: no interleaving of owners, deaths, drains and queries loses or invents a pair. */
  lemma {:induction false} PairedByTheLast(
      states: seq<System>, steps: seq<Step>, i: nat, j: nat, ws: Workspace, w: Window)
    requires IsRun(states, steps) && states[0] == START && i < j < |states|
    requires LastToDecide(steps, i, j, ws, w) && LiveThroughout(states, i, j, ws)
    ensures (ws, w) in states[j].pairs <==> steps[i] == Insert(ws, w)
  {
    hide Enabled, Apply;
    RunsKeepInvariant(states, steps, j - 1);
    assert Next(states[j - 1], steps[j - 1], states[j]);
    StepOnPair(states[j - 1], steps[j - 1], states[j], ws, w);
    if i < j - 1 {
      assert LastToDecide(steps, i, j - 1, ws, w);
      assert states[j - 1].Live(ws);
      StepLeavesPair(states[j - 1], steps[j - 1], states[j], ws, w);
      PairedByTheLast(states, steps, i, j - 1, ws, w);
    }
  }

  /** Where no step has put them together they are no pair, live or not. */
  lemma {:induction false} NeverPaired(states: seq<System>, steps: seq<Step>, j: nat, ws: Workspace, w: Window)
    requires IsRun(states, steps) && states[0] == START && j < |states|
    requires Insert(ws, w) !in steps[..j]
    ensures (ws, w) !in states[j].pairs
  {
    if j > 0 {
      assert steps[j - 1] == steps[..j][j - 1];
      assert steps[..j - 1] == steps[..j][..j - 1];
      RunsKeepInvariant(states, steps, j - 1);
      assert Next(states[j - 1], steps[j - 1], states[j]);
      NeverPaired(states, steps, j - 1, ws, w);
      StepOnPair(states[j - 1], steps[j - 1], states[j], ws, w);
    }
  }

  ghost predicate LiveThroughout(states: seq<System>, i: nat, j: nat, ws: Workspace)
    requires i <= j < |states|
  {
    forall k :: i <= k <= j ==> states[k].Live(ws)
  }

  // ----- what a query delivers

  /** A query in progress, begun when the pairs were as given: it has tried and has yet to try workspaces that hold
      the window, and the pairs are still the same. */
  ghost predicate Answering(s: System, w: Window, pairs: set<(Workspace, Window)>) {
    && s.pairs == pairs && s.lock.Asking? && s.lock.window == w
    && forall ws: Workspace :: ws in s.lock.found || ws in s.lock.todo ==> (ws, w) in pairs
  }

  ghost predicate FoundOrToCome(s: System, ws: Workspace) {
    s.lock.Asking? && (ws in s.lock.found || ws in s.lock.todo)
  }

  lemma {:induction false} QueryBegins(s: System, s': System, w: Window)
    requires Next(s, Ask(w), s')
    ensures Answering(s', w, s.pairs) && forall ws: Workspace :: (ws, w) in s.pairs ==> FoundOrToCome(s', ws)
  {
  }

  /** Until it is answered, only the asking thread's own tries matter to it. */
  lemma {:induction false} QueryGoesOn(
      s: System, step: Step, s': System, w: Window, pairs: set<(Workspace, Window)>)
    requires Next(s, step, s') && Answering(s, w, pairs) && s'.lock.Asking?
    ensures Answering(s', w, pairs)
    ensures forall ws :: FoundOrToCome(s, ws) && s.Live(ws) ==> FoundOrToCome(s', ws)
  {
  }

  lemma {:induction false} QueryProceeds(states: seq<System>, steps: seq<Step>, i: nat, j: nat, w: Window)
    requires IsRun(states, steps) && i < j < |states| && steps[i] == Ask(w)
    requires forall k :: i < k <= j ==> states[k].lock.Asking?
    ensures Answering(states[j], w, states[i].pairs)
    ensures forall ws: Workspace :: (ws, w) in states[i].pairs && LiveThroughout(states, i, j, ws) ==>
              FoundOrToCome(states[j], ws)
  {
    if i + 1 == j {
      QueryBegins(states[i], states[j], w);
    } else {
      QueryProceeds(states, steps, i, j - 1, w);
      QueryGoesOn(states[j - 1], steps[j - 1], states[j], w, states[i].pairs);
      forall ws: Workspace | (ws, w) in states[i].pairs && LiveThroughout(states, i, j, ws)
        ensures FoundOrToCome(states[j], ws)
      {
        assert LiveThroughout(states, i, j - 1, ws) && states[j - 1].Live(ws);
      }
    }
  }

  /** When a query is answered it has delivered only live workspaces that hold its window, and every such workspace
      that was live all the while, even though other threads dropped references, ran destructors and queued workspaces
      in between. */
  lemma {:induction false} QueryDeliversTheLive(states: seq<System>, steps: seq<Step>, i: nat, j: nat, w: Window)
    requires IsRun(states, steps) && states[0] == START && i < j < |steps| && steps[i] == Ask(w)
    requires forall k :: i < k <= j ==> states[k].lock.Asking?
    requires steps[j] == Answered
    ensures states[j].pairs == states[i].pairs
    ensures forall ws :: ws in states[j].lock.found ==> states[j].Live(ws) && (ws, w) in states[j].pairs
    ensures forall ws: Workspace :: (ws, w) in states[i].pairs && LiveThroughout(states, i, j, ws) ==>
              ws in states[j].lock.found
  {
    RunsKeepInvariant(states, steps, j);
    QueryProceeds(states, steps, i, j, w);
    assert Next(states[j], steps[j], states[j + 1]);
  }

  lemma {:induction false} StaysTried(states: seq<System>, steps: seq<Step>, i: nat, j: nat, ws: Workspace)
    requires IsRun(states, steps) && i <= j < |states|
    requires forall k :: i <= k <= j ==> states[k].lock.Asking?
    requires ws !in states[i].lock.todo
    ensures ws !in states[j].lock.todo
  {
    if i < j {
      StaysTried(states, steps, i, j - 1, ws);
      assert Next(states[j - 1], steps[j - 1], states[j]);
    }
  }

  /** A query tries each workspace that is paired with its window when it begins, and no other, exactly once. */
  lemma {:induction false} TriedOnce(states: seq<System>, steps: seq<Step>, i: nat, j: nat, w: Window, ws: Workspace)
    requires IsRun(states, steps) && i < j < |steps| && steps[i] == Ask(w) && steps[j] == Answered
    requires forall k :: i < k <= j ==> states[k].lock.Asking?
    ensures (exists k :: i < k < j && steps[k] == Try(ws)) <==> (ws, w) in states[i].pairs
    ensures forall k, l :: i < k < l < j && steps[k] == Try(ws) ==> steps[l] != Try(ws)
  {
    assert Next(states[i], steps[i], states[i + 1]) && Next(states[j], steps[j], states[j + 1]);
    forall k | i < k < j && steps[k] == Try(ws)
      ensures (ws, w) in states[i].pairs && forall l :: k < l < j ==> steps[l] != Try(ws)
    {
      assert Next(states[k], steps[k], states[k + 1]);
      if (ws, w) !in states[i].pairs {
        StaysTried(states, steps, i + 1, k, ws);
      }
      forall l | k < l < j
        ensures steps[l] != Try(ws)
      {
        StaysTried(states, steps, k + 1, l, ws);
        assert Next(states[l], steps[l], states[l + 1]);
      }
    }
    if (ws, w) in states[i].pairs {
      assert ws in states[i + 1].lock.todo && ws !in states[j].lock.todo;
      var _ := TriedBetween(states, steps, i + 1, j, ws);
    }
  }

  lemma {:induction false} TriedBetween(states: seq<System>, steps: seq<Step>, i: nat, j: nat, ws: Workspace)
      returns (k: nat)
    requires IsRun(states, steps) && i < j < |states|
    requires forall k :: i <= k <= j ==> states[k].lock.Asking?
    requires ws in states[i].lock.todo && ws !in states[j].lock.todo
    ensures i <= k < j && steps[k] == Try(ws)
  {
    assert Next(states[j - 1], steps[j - 1], states[j]);
    if ws in states[j - 1].lock.todo {
      k := j - 1;
    } else {
      k := TriedBetween(states, steps, i, j - 1, ws);
    }
  }
}
