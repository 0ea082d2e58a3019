/** Every run of the window manager, from its creation on: the invariants hold throughout. */
module Runs {
  import opened Sequences
  import opened Forest
  import opened ZOrder
  import opened WindowModel
  import opened FocusSelection
  import opened FocusInvariance
  import opened WorkspaceMembership
  import opened RestoreRectangle

  datatype Step =
    | Create(w: Window, spec: NewWindow)
    | Ready(w: Window)
    | Activate(w: Window)
    | Bring(w: Window)
    | ClientRequest(w: Window, request: Modifications, displays: Displays)
    | ShellRequest(w: Window, request: Modifications)
    | Delete(w: Window)
    | Join(w: Window, ws: Workspace)
    | Leave(w: Window, ws: Workspace)
    | Transfer(to: Workspace, from: Workspace)
    | Drop(ws: Workspace)

  const START := Model(map[], [], {}, [], None, [])

  /** What the window manager relies on for a step. A client request that would be refused may come at any time; a
      shell that changes the type of a window that was ever active leaves it one that can be. */
  ghost predicate Enabled(m: Model, s: Step)
    requires WellLinked(m.info)
  {
    match s
    case Create(w, spec) => w !in m.info && (spec.parent.Some? ==> spec.parent.value in m.info)
    case Ready(w) => w in m.info
    case Activate(w) => w in m.info
    case Bring(w) => w in m.info
    case ClientRequest(w, request, displays) =>
      w in m.info && (Granted(m, w, request) ==> KeepsForest(m.info, w, request))
    case ShellRequest(w, request) =>
      && w in m.info && Acceptable(m.info, w, request) && KeepsForest(m.info, w, request)
      && (w in m.mru ==> NewKind(m.info[w], request).CanBeActive())
    case Delete(w) => w in m.info
    case Join(w, ws) => w in m.info
    case Leave(w, ws) => w in m.info
    case Transfer(to, from) => true
    case Drop(ws) => true
  }

  predicate Granted(m: Model, w: Window, request: Modifications)
    requires w in m.info
  {
    ClientMay(m.info, w, request) && Acceptable(m.info, w, request)
  }

  ghost function After(m: Model, s: Step): Model
    requires WellLinked(m.info) && Enabled(m, s)
  {
    match s
    case Create(w, spec) => AddWindow(m, w, spec)
    case Ready(w) => WindowReady(m, w)
    case Activate(w) => Select(m, Some(w)).0
    case Bring(w) => m.(stack := RaiseTree(LinksOf(m.info), m.stack, w))
    case ClientRequest(w, request, displays) =>
      if Granted(m, w, request) then ClientModify(m, w, request, displays) else m
    case ShellRequest(w, request) => ModifyWindow(m, w, request)
    case Delete(w) => RemoveWindow(m, w)
    case Join(w, ws) => AddTree(m, w, ws)
    case Leave(w, ws) => RemoveTree(m, w, ws)
    case Transfer(to, from) => MoveContent(m, to, from)
    case Drop(ws) => DropWorkspace(m, ws)
  }

  /** A run from the start. What a step does is defined where the links are a forest; that they always are is not
      taken for granted here but part of what is proved. */
  ghost predicate IsRun(states: seq<Model>, steps: seq<Step>) {
    && |states| == |steps| + 1 && states[0] == START
    && forall i :: 0 <= i < |steps| && WellLinked(states[i].info) ==>
         Enabled(states[i], steps[i]) && states[i + 1] == After(states[i], steps[i])
  }

  /** A client can never change the type of a window: the cases of the check fall through to the last one, and of
      the types they let through unchanged three are refused on the way. */
  lemma {:induction false} ClientKeepsType(original: WindowType, target: WindowType)
    ensures TypeMayChange(original, target) <==>
            target == original && !original.Normal? && !original.Utility? && !original.Dialog?
  {
  }

  /** Which requests of clients are carried out: those that leave the type alone, that name a parent there is if any,
      that leave normal and utility windows without one and satellites, glosses and tips with one, and that ask for no
      size without area. */
  lemma {:induction false} GrantedExactly(m: Model, w: Window, request: Modifications)
    requires w in m.info
    ensures var i := m.info[w];
            Granted(m, w, request) <==>
              && (request.kind.None? ||
                  (request.kind == Some(i.kind) && !i.kind.Normal? && !i.kind.Utility? && !i.kind.Dialog?))
              && (request.parent.None? || request.parent.value in m.info)
              && (i.kind.Normal? || i.kind.Utility? ==> request.parent.None? && i.node.parent.None?)
              && (i.kind.Satellite? || i.kind.Gloss? || i.kind.Tip? ==> request.parent.Some? || i.node.parent.Some?)
              && (request.size.None? || (request.size.value.width > 0 && request.size.value.height > 0))
  {
    ClientKeepsType(m.info[w].kind, NewKind(m.info[w], request));
  }

  lemma {:induction false} StartFits()
    ensures FocusInvariant(START) && WorkspaceInvariant(START)
  {
    assert Ranked(LinksOf(START.info), map[], 0);
  }

  lemma {:induction false} RaisingKeepsFocus(m: Model, w: Window)
    requires FocusInvariant(m) && w in m.info
    ensures FocusInvariant(m.(stack := RaiseTree(LinksOf(m.info), m.stack, w)))
  {
    RaiseTreeKeepsWindows(LinksOf(m.info), m.stack, w);
  }

  lemma {:induction false} RequestKeepsFocus(m: Model, w: Window, request: Modifications, displays: Displays)
    requires FocusInvariant(m) && w in m.info && (Granted(m, w, request) ==> KeepsForest(m.info, w, request))
    ensures Granted(m, w, request) ==> FocusInvariant(ClientModify(m, w, request, displays))
  {
    hide ModifyWindow, FocusAgrees, StackAgrees, FullscreenAgrees, Synced;
    if Granted(m, w, request) {
      ModifyWindowKeepsFocus(m, w, PlaceAndSizeForState(request, m.info[w], displays));
    }
  }

  lemma {:induction false} StepKeepsFocus(m: Model, s: Step)
    requires FocusInvariant(m) && Enabled(m, s)
    ensures FocusInvariant(After(m, s))
  {
    hide FocusAgrees, MruFit, StackAgrees, FullscreenAgrees, Synced;
    match s
    case Create(w, spec) => AddWindowKeepsFocus(m, w, spec);
    case Ready(w) => WindowReadyKeepsFocus(m, w);
    case Activate(w) => SelectKeepsFocus(m, w);
    case Bring(w) => RaisingKeepsFocus(m, w);
    case ClientRequest(w, request, displays) => RequestKeepsFocus(m, w, request, displays);
    case ShellRequest(w, request) => ModifyWindowKeepsFocus(m, w, request);
    case Delete(w) => RemoveWindowKeepsFocus(m, w);
    case Join(w, ws) => WorkspacesLeaveFocus(m, AddTree(m, w, ws).pairs);
    case Leave(w, ws) => WorkspacesLeaveFocus(m, RemoveTree(m, w, ws).pairs);
    case Transfer(to, from) => WorkspacesLeaveFocus(m, MoveContent(m, to, from).pairs);
    case Drop(ws) => WorkspacesLeaveFocus(m, DropWorkspace(m, ws).pairs);
  }

  /** In every state of every run: the links are a forest, and either no window of the MRU list is visible and
      nothing has the focus, or the last window of the list is visible and has it. */
  lemma {:induction false} RunsKeepFocus(states: seq<Model>, steps: seq<Step>, n: nat)
    requires IsRun(states, steps) && n < |states|
    ensures FocusInvariant(states[n]) && ActiveWindow(states[n]) == states[n].focus
  {
    hide After;
    if n == 0 {
      StartFits();
    } else {
      RunsKeepFocus(states, steps, n - 1);
      StepKeepsFocus(states[n - 1], steps[n - 1]);
    }
    ActiveIsFocused(states[n]);
  }

  // ----- workspaces

  /** The window gets another parent. */
  predicate NewlyParented(m: Model, w: Window, mods: Modifications) {
    w in m.info && NewParent(m.info[w], mods) != m.info[w].node.parent
  }

  /** The window gets another parent that is not in the same workspaces. */
  predicate TornApart(m: Model, w: Window, mods: Modifications) {
    && NewlyParented(m, w, mods) && NewParent(m.info[w], mods).Some?
    && WorkspacesOf(m.pairs, NewParent(m.info[w], mods).value) != WorkspacesOf(m.pairs, w)
  }

  predicate Reparents(m: Model, s: Step) {
    match s
    case ClientRequest(w, request, _) => w in m.info && Granted(m, w, request) && NewlyParented(m, w, request)
    case ShellRequest(w, request) => NewlyParented(m, w, request)
    case _ => false
  }

  predicate TearsApart(m: Model, s: Step) {
    match s
    case ClientRequest(w, request, _) => w in m.info && Granted(m, w, request) && TornApart(m, w, request)
    case ShellRequest(w, request) => TornApart(m, w, request)
    case _ => false
  }

  lemma {:induction false} ModifiedLinks(m: Model, w: Window, mods: Modifications)
    requires WellLinked(m.info) && w in m.info && Acceptable(m.info, w, mods) && KeepsForest(m.info, w, mods)
    ensures var m' := ModifyWindow(m, w, mods);
            && LinksOf(m'.info) == Reparent(LinksOf(m.info), w, NewParent(m.info[w], mods)) && m'.pairs == m.pairs
            && WellLinked(m'.info)
  {
    RelinkedWellLinked(m.info, w, mods);
    StepsKeepLinks(m.info, w, mods);
    StepsKeepLinks(Relinked(m.info, w, mods), w, mods);
    var info2 := Noted(Relinked(m.info, w, mods), w, mods);
    var m3 := m.(info := Placed(info2, w, mods));
    if mods.state.Some? {
      SetStateEffect(m3, w, mods.state.value);
      StateKeepsLinks(m3.info, w, mods.state.value);
      StateKeepsLinks(WithState(m3.info, w, mods.state.value), w, mods.state.value);
    }
  }

  lemma {:induction false} ModifyKeepsWorkspaces(m: Model, w: Window, mods: Modifications)
    requires WorkspaceInvariant(m) && w in m.info && Acceptable(m.info, w, mods) && KeepsForest(m.info, w, mods)
    requires NewParent(m.info[w], mods) == m.info[w].node.parent
    ensures WorkspaceInvariant(ModifyWindow(m, w, mods)) && (Ordered(m) ==> Ordered(ModifyWindow(m, w, mods)))
    ensures ModifyWindow(m, w, mods).pairs == m.pairs
  {
    hide ModifyWindow;
    ModifiedLinks(m, w, mods);
  }

  /** A new parent keeps trees together exactly when it is in the window's workspaces already: reparenting moves no
      window between workspaces. */
  lemma {:induction false} ReparentKeepsTogether(f: Links, pairs: Pairs, w: Window, parent: Option<Window>)
    requires IsForest(f) && TreesTogether(f, pairs) && w in f && (parent.Some? ==> parent.value in f)
    ensures TreesTogether(Reparent(f, w, parent), pairs) <==>
            parent == f[w].parent || parent.None? || WorkspacesOf(pairs, parent.value) == WorkspacesOf(pairs, w)
  {
    var g := Reparent(f, w, parent);
    forall ws: Workspace, x: Window
      ensures ws in WorkspacesOf(pairs, x) <==> (ws, x) in pairs
    {
      InWorkspace(pairs, ws, x);
    }
    ReparentedLinks(f, w, parent);
    if parent.Some? && TreesTogether(g, pairs) {
      assert IsParent(g, parent.value, w);
    }
  }

  lemma {:induction false} ReparentedLinks(f: Links, w: Window, parent: Option<Window>)
    requires w in f && (parent.Some? ==> parent.value in f)
    ensures var g := Reparent(f, w, parent);
            && g.Keys == f.Keys
            && (forall p: Window, c: Window :: c != w ==> (IsParent(g, p, c) <==> IsParent(f, p, c)))
            && forall p: Window :: IsParent(g, p, w) <==> parent == Some(p)
  {
  }

  /** So modify_window keeps them together exactly if it does not give the window a parent elsewhere. */
  lemma {:induction false} ModifyKeepsTogether(m: Model, w: Window, mods: Modifications)
    requires WorkspaceInvariant(m) && w in m.info && Acceptable(m.info, w, mods) && KeepsForest(m.info, w, mods)
    ensures WorkspaceInvariant(ModifyWindow(m, w, mods)) <==> !TornApart(m, w, mods)
  {
    hide ModifyWindow, Reparent, TreesTogether;
    ModifiedLinks(m, w, mods);
    assert m.info[w].node.parent.Some? ==> IsParent(LinksOf(m.info), m.info[w].node.parent.value, w);
    ReparentKeepsTogether(LinksOf(m.info), m.pairs, w, NewParent(m.info[w], mods));
  }

  /** A step keeps windows of one tree in the same workspaces exactly if it does not tear one from its tree's. */
  lemma {:induction false} StepKeepsWorkspaces(m: Model, s: Step)
    requires WorkspaceInvariant(m) && Enabled(m, s)
    ensures WorkspaceInvariant(After(m, s)) <==> !TearsApart(m, s)
  {
    hide ModifyWindow, Forget, AddTree, Root, MoveContent, DropWorkspace, TreesTogether, IsForest, WithNewWindow;
    match s
    case Create(w, spec) => AddWindowKeepsWorkspaces(m, w, spec);
    case Ready(w) =>
      assert LinksOf(m.info[w := m.info[w].(surface := m.info[w].surface.(ready := true))]) == LinksOf(m.info);
    case Activate(w) =>
    case Bring(w) =>
    case ClientRequest(w, request, displays) =>
      if Granted(m, w, request) {
        ModifyKeepsTogether(m, w, PlaceAndSizeForState(request, m.info[w], displays));
      }
    case ShellRequest(w, request) => ModifyKeepsTogether(m, w, request);
    case Delete(w) =>
      ForgetKeepsWorkspaces(m, w);
      RemovedParent(m, w);
    case Join(w, ws) => AddTreeKeepsWorkspaces(m, w, ws);
    case Leave(w, ws) => RemoveTreeKeepsWorkspaces(m, w, ws);
    case Transfer(to, from) => MoveContentKeepsWorkspaces(m, to, from);
    case Drop(ws) => DropWorkspaceKeepsWorkspaces(m, ws);
  }

  /** And parents stay before their children in each workspace unless it reparents. */
  lemma {:induction false} StepKeepsOrder(m: Model, s: Step)
    requires WorkspaceInvariant(m) && Ordered(m) && Enabled(m, s) && !Reparents(m, s)
    ensures Ordered(After(m, s))
  {
    hide ModifyWindow, Forget, AddTree, Root, MoveContent, DropWorkspace, TreesTogether, IsForest, WithNewWindow;
    hide ParentsEarlier;
    match s
    case Create(w, spec) => AddWindowKeepsWorkspaces(m, w, spec);
    case Ready(w) =>
      assert LinksOf(m.info[w := m.info[w].(surface := m.info[w].surface.(ready := true))]) == LinksOf(m.info);
    case Activate(w) =>
    case Bring(w) =>
    case ClientRequest(w, request, displays) =>
      if Granted(m, w, request) {
        ModifyKeepsWorkspaces(m, w, PlaceAndSizeForState(request, m.info[w], displays));
      }
    case ShellRequest(w, request) => ModifyKeepsWorkspaces(m, w, request);
    case Delete(w) =>
      ForgetKeepsWorkspaces(m, w);
      RemovedParent(m, w);
    case Join(w, ws) => AddTreeKeepsWorkspaces(m, w, ws);
    case Leave(w, ws) => RemoveTreeKeepsWorkspaces(m, w, ws);
    case Transfer(to, from) => MoveContentKeepsWorkspaces(m, to, from);
    case Drop(ws) => DropWorkspaceKeepsWorkspaces(m, ws);
  }

  /** In every state of every run in which windows only get parents that are in their workspaces already, two windows
      of one tree are in the same workspaces and no window is in a workspace twice. */
  lemma {:induction false} RunsKeepTreesTogether(states: seq<Model>, steps: seq<Step>, n: nat)
    requires IsRun(states, steps) && n < |states|
    requires forall i :: 0 <= i < n ==> !TearsApart(states[i], steps[i])
    ensures WorkspaceInvariant(states[n]) && NoDup(states[n].pairs)
    ensures forall x, y :: x in states[n].info && y in states[n].info &&
                           Root(LinksOf(states[n].info), x) == Root(LinksOf(states[n].info), y) ==>
                             WorkspacesOf(states[n].pairs, x) == WorkspacesOf(states[n].pairs, y)
  {
    if n == 0 {
      StartFits();
    } else {
      RunsKeepTreesTogether(states, steps, n - 1);
      StepKeepsWorkspaces(states[n - 1], steps[n - 1]);
    }
    var m := states[n];
    forall x, y | x in m.info && y in m.info && Root(LinksOf(m.info), x) == Root(LinksOf(m.info), y)
      ensures WorkspacesOf(m.pairs, x) == WorkspacesOf(m.pairs, y)
    {
      TreeSharesWorkspaces(m, x, y);
    }
  }

  /** And the first step that gives a window a parent elsewhere ends that. */
  lemma {:induction false} TornApartEnds(states: seq<Model>, steps: seq<Step>, n: nat)
    requires IsRun(states, steps) && n < |steps| && TearsApart(states[n], steps[n])
    requires forall i :: 0 <= i < n ==> !TearsApart(states[i], steps[i])
    ensures !WorkspaceInvariant(states[n + 1])
  {
    hide After, TearsApart;
    RunsKeepTreesTogether(states, steps, n);
    StepKeepsWorkspaces(states[n], steps[n]);
  }

  /** As long as no window gets another parent, the windows of each workspace are listed parents first. */
  lemma {:induction false} RunsKeepOrder(states: seq<Model>, steps: seq<Step>, n: nat)
    requires IsRun(states, steps) && n < |states|
    requires forall i :: 0 <= i < n ==> !Reparents(states[i], steps[i])
    ensures WorkspaceInvariant(states[n]) && Ordered(states[n])
  {
    if n == 0 {
      StartFits();
    } else {
      RunsKeepOrder(states, steps, n - 1);
      NoneTorn(states[n - 1], steps[n - 1]);
      StepKeepsWorkspaces(states[n - 1], steps[n - 1]);
      StepKeepsOrder(states[n - 1], steps[n - 1]);
    }
  }

  lemma {:induction false} NoneTorn(m: Model, s: Step)
    requires !Reparents(m, s)
    ensures !TearsApart(m, s)
  {
  }
}
