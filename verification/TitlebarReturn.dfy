/** Back in a workspace, the focus is where it was: when the workspace in between had an active window of its own, the
    search that follows its hiding finds the window that was active before it. */
module TitlebarReturn {
  import opened Sequences
  import opened Forest
  import opened WindowModel
  import opened WindowStates
  import opened FocusSelection
  import opened FocusInvariance
  import opened FocusInWorkspace
  import opened WorkspaceMembership
  import opened TitlebarModel
  import opened TitlebarSwitching
  import opened TitlebarRuns
  import opened TitlebarFocus

  // ----- what a selection comes to depends on the window's tree only

  ghost predicate TreeConcealed(info: Windows, v: Window)
    requires WellLinked(info) && v in info
  {
    forall x :: x in info && Root(LinksOf(info), x) == Root(LinksOf(info), v) ==>
      !info[x].Focusable() && !info[x].VisibleDialog()
  }

  lemma {:induction false} NothingToSelect(info: Windows, v: Window)
    requires WellLinked(info) && v in info && TreeConcealed(info, v)
    ensures Target(info, v).None?
  {
    var f := LinksOf(info);
    NoTarget(info, v);
    forall a | a in info && Below(f, a, v)
      ensures !Stops(info, a)
    {
      RootOfBelow(f, a, v);
      NoDialogsInTree(info, v, a);
    }
  }

  lemma {:induction false} NoDialogsInTree(info: Windows, v: Window, a: Window)
    requires WellLinked(info) && v in info && a in info && TreeConcealed(info, v)
    requires Root(LinksOf(info), a) == Root(LinksOf(info), v)
    ensures !Stops(info, a)
  {
    var f := LinksOf(info);
    forall d | d in info[a].node.children && d in info
      ensures !info[d].VisibleDialog()
    {
      ChildIsOther(f, a, d);
      ParentRank(f, a, d);
      assert Root(f, d) == Root(f, a);
    }
  }

  /** The same links, and in the tree of w the same windows that can have the focus and the same visible dialogs. */
  ghost predicate SameTree(info: Windows, info': Windows, w: Window)
    requires WellLinked(info) && w in info
  {
    && LinksOf(info') == LinksOf(info) && info'.Keys == info.Keys
    && forall x :: x in info && Root(LinksOf(info), x) == Root(LinksOf(info), w) ==>
         info'[x].Focusable() == info[x].Focusable() && info'[x].VisibleDialog() == info[x].VisibleDialog()
  }

  lemma {:induction false} SameDialog(info: Windows, info': Windows, children: seq<Window>)
    requires info'.Keys == info.Keys
    requires forall c :: c in children && c in info ==> info'[c].VisibleDialog() == info[c].VisibleDialog()
    ensures FirstVisibleDialog(info', children) == FirstVisibleDialog(info, children)
  {
    if children != [] {
      SameDialog(info, info', children[1..]);
    }
  }

  lemma {:induction false} SameTarget(info: Windows, info': Windows, w: Window)
    requires WellLinked(info) && w in info && SameTree(info, info', w)
    ensures Target(info', w) == Target(info, w)
    decreases FocusPhase(info, w), FocusSteps(info, w)
  {
    var f := LinksOf(info);
    assert info'[w].node == LinksOf(info')[w] == f[w] == info[w].node;
    forall c | c in info[w].node.children && c in info
      ensures info'[c].VisibleDialog() == info[c].VisibleDialog()
    {
      ChildIsOther(f, w, c);
      assert Root(f, c) == Root(f, w);
    }
    SameDialog(info, info', info[w].node.children);
    var dialog := FirstVisibleDialog(info, info[w].node.children);
    if dialog.Some? {
      FocusStepDown(info, w, dialog.value);
      assert Root(f, dialog.value) == Root(f, w);
      SameTarget(info, info', dialog.value);
    } else if !info[w].Focusable() && info[w].node.parent.Some? {
      FocusStepUp(info, w, info[w].node.parent.value);
      SameTarget(info, info', info[w].node.parent.value);
    }
  }

  // ----- hiding the active window

  /** The MRU list ends on w and v. */
  ghost predicate EndsOn(mru: seq<Window>, w: Window, v: Window) {
    |mru| >= 2 && mru[|mru| - 1] == v && mru[|mru| - 2] == w
  }

  lemma {:induction false} LastButOne(mru: seq<Window>, w: Window, v: Window, good: set<Window>)
    requires EndsOn(mru, w, v) && w in good && v !in good
    ensures LastIn(mru, good) == Some(w)
  {
    assert mru[..|mru| - 1][|mru| - 2] == w;
  }

  lemma {:induction false} PushedLast(mru: seq<Window>, w: Window, v: Window)
    requires |mru| > 0 && mru[|mru| - 1] == w && w != v
    ensures EndsOn(Without(mru, {v}) + [v], w, v)
  {
    assert Without(mru, {v}) == Without(mru[..|mru| - 1], {v}) + [w];
  }

  /** With nothing else visible in the workspaces of v, the focus v gives up goes to the window before it in the
      list. */
  lemma {:induction false} NextInLine(m: Model, v: Window, w: Window)
    requires AboutToConceal(m, v) && TreeConcealed(m.info, v) && EndsOn(m.mru, w, v) && w != v
    requires w in m.info && m.info[w].SurfaceShows() && Target(m.info, w).Some?
    requires forall x :: x in m.mru && x in m.info && x != v && m.info[x].SurfaceShows() ==>
               WorkspacesOf(m.pairs, x) * WorkspacesOf(m.pairs, v) == {}
    ensures Successor(m, v) == Target(m.info, w)
  {
    NothingToSelect(m.info, v);
    assert LastIn(m.mru, Selectable(m, Search(None, Some(WorkspacesOf(m.pairs, v)), Some(v)))).None?;
    LastButOne(m.mru, w, v, Selectable(m, Search(None, None, Some(v))));
  }

  /** Hiding the active window gives the focus to its successor, which comes last in the list, or takes it away. */
  lemma {:induction false} HidingActive(m: Model, v: Window)
    requires FocusInvariant(m) && v in m.info && ActiveWindow(m) == Some(v) && !m.info[v].state.Hidden?
    ensures LinksOf(Recorded(m, v, Hidden).info) == LinksOf(m.info) && AboutToConceal(Recorded(m, v, Hidden), v)
    ensures var m' := SetState(m, v, Hidden);
            && FocusInvariant(m') && ActiveWindow(m') == Successor(Recorded(m, v, Hidden), v) != Some(v)
            && m'.mru ==
               if ActiveWindow(m').None? then m.mru
               else Without(m.mru, {ActiveWindow(m').value}) + [ActiveWindow(m').value]
  {
    hide FocusInvariant;
    SuccessorIsActive(m, v, Hidden);
    FocusIsPassedOn(Recorded(m, v, Hidden), v);
    SetStateKeepsFocus(m, v, Hidden);
    RecordedFits(m, v, Hidden);
    ActiveIsFocused(m);
  }

  /** The same for the policy's hiding of the active window; m is the window manager's state just before set_state. */
  lemma {:induction false} HidingLast(t: Titlebar, v: Window) returns (m: Model)
    requires Sound(t) && Invariants(t) && v in t.m.info && ActiveWindow(t.m) == Some(v) && !t.data[v].inHiddenWorkspace
    ensures FocusInvariant(m) && SameButPlaces(t.m.info, m.info) && m == t.m.(info := m.info)
    ensures ActiveWindow(m) == Some(v)
    ensures !m.info[v].state.Hidden? && ApplyHidden(t, v).m == SetState(m, v, Hidden)
  {
    m := BeforeSetState(t.m, v, Hidden, t.displays);
    ActiveIsFocused(t.m);
    ActiveIsFocused(m);
    assert v in VisibleSurfaces(t.m.info);
  }

  // ----- away

  /** Before the active window w of the workspace `from` is hidden, everything else has been exchanged around it. */
  lemma {:induction false} ExchangedAround(t: Titlebar, from: Workspace, w: Window)
    requires Sound(t) && Invariants(t) && FlaggedAreHidden(t) && ActiveWindow(t.m) == Some(w) && w in t.m.info
    requires !t.IsDecoration(w) && !t.data[w].inHiddenWorkspace
    ensures var t2 := Exchange(t, from, Some(w));
            && Invariants(t2) && SameFocus(t, t2) && ActiveWindow(t2.m) == Some(w) && !t2.data[w].inHiddenWorkspace
  {
    ActiveIsFocused(t.m);
    ExchangeKeeps(t, from, Some(w));
    ExchangeLeavesFocus(t, from, Some(w), w);
    ExchangedFlags(t, from, Some(w));
    ActiveIsFocused(Exchange(t, from, Some(w)).m);
  }

  /** Then it is hidden. */
  lemma {:induction false} SwapHidesLast(t: Titlebar, from: Workspace, w: Window)
    requires Sound(t) && w in t.m.info && (from, w) in t.m.pairs && !t.IsDecoration(w)
    ensures Swap(t, from, Some(w)).m == ApplyHidden(Exchange(t, from, Some(w)), w).m
  {
    ContentKnown(t, from);
  }

  lemma {:induction false} SwitchIsSwap(t: Titlebar, ws: Workspace)
    requires TitlebarInvariant(t) && ws != t.active && ActiveWindow(t.m).Some?
    ensures var w := ActiveWindow(t.m).value;
            && w in t.m.info && SwitchTo(t, ws, None) == Swap(t.(active := ws), t.active, Some(w))
            && !t.IsDecoration(w) && !t.data[w].inHiddenWorkspace && (t.active, w) in t.m.pairs
  {
    ActiveNotHidden(t);
    assert Prepared(t, ws, None) == t.(active := ws);
  }

  /** If another window is active afterwards, it comes last in the MRU list and the former one right before it. */
  lemma {:induction false} LeftNext(t: Titlebar, ws: Workspace)
    requires TitlebarInvariant(t) && ws != t.active && ActiveWindow(t.m).Some?
    ensures var w, v := ActiveWindow(t.m).value, ActiveWindow(SwitchTo(t, ws, None).m);
            v.Some? ==> v.value != w && EndsOn(SwitchTo(t, ws, None).m.mru, w, v.value)
  {
    var w, t0 := ActiveWindow(t.m).value, t.(active := ws);
    SwitchIsSwap(t, ws);
    SwapHidesLast(t0, t.active, w);
    ExchangedAround(t0, t.active, w);
    HiddenNext(Exchange(t0, t.active, Some(w)), w);
  }

  lemma {:induction false} HiddenNext(t: Titlebar, w: Window)
    requires Sound(t) && Invariants(t) && w in t.m.info && ActiveWindow(t.m) == Some(w) && !t.data[w].inHiddenWorkspace
    ensures var m' := ApplyHidden(t, w).m; var v := ActiveWindow(m');
            v.Some? ==> v.value != w && EndsOn(m'.mru, w, v.value)
  {
    hide ActiveWindow, ApplyHidden;
    var m := HidingLast(t, w);
    HidingActive(m, w);
    ActiveIsLast(t.m);
    var v := ActiveWindow(SetState(m, w, Hidden));
    if v.Some? {
      PushedLast(t.m.mru, w, v.value);
    }
  }

  lemma {:induction false} ActiveIsLast(m: Model)
    requires FocusInvariant(m) && ActiveWindow(m).Some?
    ensures |m.mru| > 0 && m.mru[|m.mru| - 1] == ActiveWindow(m).value
  {
    ActiveIsFocused(m);
  }

  // ----- and back

  /** What is visible of windows whose states agree with their surfaces'. */
  lemma {:induction false} SyncedVisible(info: Windows, x: Window)
    requires x in info && info[x].state == info[x].surface.state
    requires info[x].surface.shown || info[x].state.Conceals()
    ensures info[x].IsVisible() == info[x].SurfaceShows() == (!info[x].state.Conceals() && info[x].surface.ready)
  {
  }

  /** A window of the workspace that is back has the state it had, so it is as visible as it was. */
  lemma {:induction false} AsBefore(t: Titlebar, t1: Titlebar, t2: Titlebar, x: Window)
    requires FlagsRight(t) && Kept(t1, t2) && SameIntentions(t, t1)
    requires SameReady(t, t1) && SameReady(t1, t2) && t.m.info.Keys == t1.m.info.Keys == t2.m.info.Keys
    requires t1.data.Keys == t2.data.Keys == t.data.Keys == t.m.info.Keys
    requires x in t.m.info && (t.active, x) in t.m.pairs && !t.IsDecoration(x) && !t2.data[x].inHiddenWorkspace
    ensures t2.m.info[x].state == t.m.info[x].state && t2.m.info[x].kind == t.m.info[x].kind
    ensures t2.m.info[x].surface.ready == t.m.info[x].surface.ready
  {
  }

  /** Every other window of the workspace of v is hidden or cannot have the focus. */
  ghost predicate AloneIn(info: Windows, pairs: Pairs, ws: Workspace, v: Window) {
    forall x :: x in info && x != v && (ws, x) in pairs ==> info[x].state.Hidden? || !info[x].kind.CanBeActive()
  }

  lemma {:induction false} AloneInTree(m: Model, ws: Workspace, v: Window)
    requires WorkspaceInvariant(m) && v in m.info && (ws, v) in m.pairs && m.info[v].state.Conceals()
    requires AloneIn(m.info, m.pairs, ws, v)
    ensures TreeConcealed(m.info, v)
  {
    forall x | x in m.info && Root(LinksOf(m.info), x) == Root(LinksOf(m.info), v)
      ensures !m.info[x].Focusable() && !m.info[x].VisibleDialog()
    {
      TreeSharesWorkspaces(m, x, v);
      InWorkspace(m.pairs, ws, v);
      InWorkspace(m.pairs, ws, x);
    }
  }

  lemma {:induction false} AloneInSearch(m: Model, ws: Workspace, v: Window)
    requires MruFit(m) && OthersSynced(m.info, v) && v in m.info && (ws, v) in m.pairs
    requires AloneIn(m.info, m.pairs, ws, v) && forall u :: (u, v) in m.pairs ==> u == ws
    ensures forall x :: x in m.mru && x in m.info && x != v && m.info[x].SurfaceShows() ==>
              WorkspacesOf(m.pairs, x) * WorkspacesOf(m.pairs, v) == {}
  {
    forall x, u | x in m.mru && x in m.info && x != v && m.info[x].SurfaceShows() && u in WorkspacesOf(m.pairs, v)
      ensures u !in WorkspacesOf(m.pairs, x)
    {
      InWorkspace(m.pairs, u, v);
      InWorkspace(m.pairs, u, x);
    }
  }

  /** What the exchange leaves of the workspaces: the one left is empty but for its active window, and that come back
      to is as it was. */
  ghost predicate BackButFor(t: Titlebar, t2: Titlebar, from: Workspace, v: Window) {
    && LinksOf(t2.m.info) == LinksOf(t.m.info) && t2.m.info.Keys == t.m.info.Keys && t2.m.pairs == t.m.pairs
    && AloneIn(t2.m.info, t2.m.pairs, from, v)
    && forall x :: x in t.m.info && (t.active, x) in t.m.pairs ==>
         && t2.m.info[x].kind == t.m.info[x].kind && t2.m.info[x].surface.ready == t.m.info[x].surface.ready
         && (t.m.info[x].kind.CanBeActive() ==> t2.m.info[x].state == t.m.info[x].state)
  }

  /** The tree of a window that is back offers the same choice as before. */
  lemma {:induction false} SameTreeBack(t: Titlebar, m: Model, w: Window, v: Window)
    requires Sound(t) && Synced(t.m.info) && WorkspaceInvariant(t.m) && w in t.m.info && (t.active, w) in t.m.pairs
    requires LinksOf(m.info) == LinksOf(t.m.info) && m.info.Keys == t.m.info.Keys && OthersSynced(m.info, v)
    requires (t.active, v) !in t.m.pairs
    requires forall x :: x in t.m.info && (t.active, x) in t.m.pairs ==>
               && m.info[x].kind == t.m.info[x].kind && m.info[x].surface.ready == t.m.info[x].surface.ready
               && (t.m.info[x].kind.CanBeActive() ==> m.info[x].state == t.m.info[x].state)
    ensures SameTree(t.m.info, m.info, w)
    ensures t.m.info[w].kind.CanBeActive() ==> m.info[w].SurfaceShows() == t.m.info[w].SurfaceShows()
  {
    forall x | x in t.m.info && Root(LinksOf(t.m.info), x) == Root(LinksOf(t.m.info), w)
      ensures m.info[x].Focusable() == t.m.info[x].Focusable()
      ensures m.info[x].VisibleDialog() == t.m.info[x].VisibleDialog()
    {
      TreeSharesWorkspaces(t.m, x, w);
      InWorkspace(t.m.pairs, t.active, w);
      InWorkspace(t.m.pairs, t.active, x);
      SyncedVisible(t.m.info, x);
      SyncedVisible(m.info, x);
    }
    SyncedVisible(t.m.info, w);
    SyncedVisible(m.info, w);
  }

  /** Hiding the active window v of the workspace that is left gives the focus to the window the former active one
      leads to. */
  lemma {:induction false} ReturnsTo(t: Titlebar, t2: Titlebar, from: Workspace, w: Window, v: Window)
    requires TitlebarInvariant(t) && ActiveWindow(t.m) == Some(w) && from != t.active && w != v
    requires Sound(t2) && Invariants(t2) && v in t2.m.info && ActiveWindow(t2.m) == Some(v)
    requires !t2.data[v].inHiddenWorkspace && (from, v) in t2.m.pairs && InOneWorkspace(t2.m.pairs, v)
    requires BackButFor(t, t2, from, v) && EndsOn(t2.m.mru, w, v)
    ensures w in t.m.info && ActiveWindow(ApplyHidden(t2, v).m) == Target(t.m.info, w)
  {
    hide TitlebarInvariant, ActiveWindow, Sound, ApplyHidden;
    ActiveNotHidden(t);
    var m := HidingLast(t2, v);
    HidingActive(m, v);
    var m1 := Recorded(m, v, Hidden);
    RecordedOnlyHides(t2.m.info, m, v);
    Elsewhere(t.m.pairs, from, t.active, v);
    RecordedAlone(t2, m1, from, v);
    RecordedBack(t, t2, m1, from, v);
    LeadsTo(t, m1, w, v);
  }

  lemma {:induction false} LeadsTo(t: Titlebar, m1: Model, w: Window, v: Window)
    requires TitlebarInvariant(t) && ActiveWindow(t.m) == Some(w) && w in t.m.info && (t.active, w) in t.m.pairs
    requires AboutToConceal(m1, v) && TreeConcealed(m1.info, v) && EndsOn(m1.mru, w, v) && w != v
    requires (t.active, v) !in t.m.pairs && LinksOf(m1.info) == LinksOf(t.m.info) && m1.info.Keys == t.m.info.Keys
    requires forall x :: x in t.m.info && (t.active, x) in t.m.pairs ==>
               && m1.info[x].kind == t.m.info[x].kind && m1.info[x].surface.ready == t.m.info[x].surface.ready
               && (t.m.info[x].kind.CanBeActive() ==> m1.info[x].state == t.m.info[x].state)
    requires forall x :: x in m1.mru && x in m1.info && x != v && m1.info[x].SurfaceShows() ==>
               WorkspacesOf(m1.pairs, x) * WorkspacesOf(m1.pairs, v) == {}
    ensures Successor(m1, v) == Target(t.m.info, w)
  {
    SameTreeBack(t, m1, w, v);
    SameTarget(t.m.info, m1.info, w);
    assert w in t.m.mru && w in VisibleSurfaces(t.m.info);
    ShownHasTarget(t.m, w);
    NextInLine(m1, v, w);
  }

  /** Only rectangles differ, but for v, which is recorded as hidden. */
  ghost predicate OnlyHiding(info: Windows, info': Windows, v: Window) {
    && info'.Keys == info.Keys && LinksOf(info') == LinksOf(info) && v in info && info'[v].state.Hidden?
    && forall x :: x in info && x != v ==>
         && info'[x].kind == info[x].kind && info'[x].state == info[x].state
         && info'[x].surface.ready == info[x].surface.ready
  }

  lemma {:induction false} RecordedOnlyHides(info: Windows, m: Model, v: Window)
    requires SameButPlaces(info, m.info) && v in m.info
    ensures OnlyHiding(info, Recorded(m, v, Hidden).info, v)
  {
  }

  lemma {:induction false} RecordedAlone(t: Titlebar, m1: Model, from: Workspace, v: Window)
    requires WorkspaceInvariant(t.m) && OnlyHiding(t.m.info, m1.info, v) && m1.pairs == t.m.pairs
    requires AboutToConceal(m1, v) && (from, v) in t.m.pairs && InOneWorkspace(t.m.pairs, v)
    requires AloneIn(t.m.info, t.m.pairs, from, v)
    ensures TreeConcealed(m1.info, v)
    ensures forall x :: x in m1.mru && x in m1.info && x != v && m1.info[x].SurfaceShows() ==>
              WorkspacesOf(m1.pairs, x) * WorkspacesOf(m1.pairs, v) == {}
  {
    assert AloneIn(m1.info, m1.pairs, from, v);
    AloneInTree(m1, from, v);
    AloneInSearch(m1, from, v);
  }

  lemma {:induction false} Elsewhere(pairs: Pairs, from: Workspace, to: Workspace, v: Window)
    requires InOneWorkspace(pairs, v) && (from, v) in pairs && from != to
    ensures (to, v) !in pairs
  {
  }

  lemma {:induction false} RecordedBack(t: Titlebar, t2: Titlebar, m1: Model, from: Workspace, v: Window)
    requires BackButFor(t, t2, from, v) && OnlyHiding(t2.m.info, m1.info, v) && (t.active, v) !in t.m.pairs
    ensures LinksOf(m1.info) == LinksOf(t.m.info) && m1.info.Keys == t.m.info.Keys
    ensures forall x :: x in t.m.info && (t.active, x) in t.m.pairs ==>
              && m1.info[x].kind == t.m.info[x].kind && m1.info[x].surface.ready == t.m.info[x].surface.ready
              && (t.m.info[x].kind.CanBeActive() ==> m1.info[x].state == t.m.info[x].state)
  {
  }

  lemma {:induction false} ExchangedAlone(t1: Titlebar, t2: Titlebar, v: Window)
    requires TitlebarInvariant(t1) && Kept(t1, t2) && t2.m.pairs == t1.m.pairs && t2.decorations == t1.decorations
    requires t2.m.info.Keys == t1.m.info.Keys == t1.data.Keys == t2.data.Keys
    requires forall x :: x in t1.m.info && !t1.IsDecoration(x) && (t1.active, x) in t1.m.pairs && x != v ==>
               t2.data[x].inHiddenWorkspace
    ensures AloneIn(t2.m.info, t2.m.pairs, t1.active, v)
  {
  }

  lemma {:induction false} ExchangedBack(t: Titlebar, t1: Titlebar, v: Window)
    requires TitlebarInvariant(t) && TitlebarInvariant(t1) && t1.active != t.active && v in t1.m.info
    requires t1.m.pairs == t.m.pairs && LinksOf(t1.m.info) == LinksOf(t.m.info) && t1.m.info.Keys == t.m.info.Keys
    requires t1.decorations == t.decorations && SameIntentions(t, t1) && SameReady(t, t1)
    ensures BackButFor(t, Exchange(t1.(active := t.active), t1.active, Some(v)), t1.active, v)
  {
    hide Exchange, Kept, Invariants, SameIntentions, SameReady, FlagsRight, FlaggedAreHidden, DecorationsInactive;
    hide Assigned, AloneIn, WellLinked, KnownWindows;
    var t2 := Exchange(t1.(active := t.active), t1.active, Some(v));
    ExchangedKept(t1, t.active, v);
    FlagsAround(t1, t.active, v);
    ExchangedAlone(t1, t2, v);
    ThereAgain(t, t1, t2);
  }

  lemma {:induction false} ExchangedKept(t1: Titlebar, to: Workspace, v: Window)
    requires TitlebarInvariant(t1)
    ensures var t2 := Exchange(t1.(active := to), t1.active, Some(v)); Kept(t1, t2) && SameReady(t1, t2)
  {
    var t0 := t1.(active := to);
    ExchangeKeeps(t0, t1.active, Some(v));
    ChoiceKept(t1, to, Exchange(t0, t1.active, Some(v)));
    ExchangeReady(t0, t1.active, Some(v));
  }

  lemma {:induction false} FlagsAround(t1: Titlebar, to: Workspace, v: Window)
    requires Sound(t1) && to != t1.active
    ensures var t2 := Exchange(t1.(active := to), t1.active, Some(v));
            forall x :: x in t1.m.info && !t1.IsDecoration(x) ==>
              && ((t1.active, x) in t1.m.pairs && x != v ==> t2.data[x].inHiddenWorkspace)
              && ((to, x) in t1.m.pairs && t2.data[x].inHiddenWorkspace ==> (t1.active, x) in t1.m.pairs)
  {
    ExchangedFlags(t1.(active := to), t1.active, Some(v));
  }

  lemma {:induction false} ThereAgain(t: Titlebar, t1: Titlebar, t2: Titlebar)
    requires t.m.info.Keys == t.data.Keys && t1.m.info.Keys == t.m.info.Keys && t1.data.Keys == t.m.info.Keys
    requires t2.m.info.Keys == t.m.info.Keys && t2.data.Keys == t.m.info.Keys && t1.decorations == t.decorations
    requires Assigned(t) && FlagsRight(t) && DecorationsInactive(t) && t1.active != t.active && t1.m.pairs == t.m.pairs
    requires Kept(t1, t2) && SameIntentions(t, t1) && SameReady(t, t1) && SameReady(t1, t2)
    requires forall x :: x in t1.m.info && !t1.IsDecoration(x) && (t.active, x) in t.m.pairs ==>
               (t2.data[x].inHiddenWorkspace ==> (t1.active, x) in t.m.pairs)
    ensures forall x :: x in t.m.info && (t.active, x) in t.m.pairs ==>
              && t2.m.info[x].kind == t.m.info[x].kind && t2.m.info[x].surface.ready == t.m.info[x].surface.ready
              && (t.m.info[x].kind.CanBeActive() ==> t2.m.info[x].state == t.m.info[x].state)
  {
    hide FlagsRight, Invariants, FlaggedAreHidden, Intended;
    forall x | x in t.m.info && (t.active, x) in t.m.pairs
      ensures t2.m.info[x].kind == t.m.info[x].kind && t2.m.info[x].surface.ready == t.m.info[x].surface.ready
      ensures t.m.info[x].kind.CanBeActive() ==> t2.m.info[x].state == t.m.info[x].state
    {
      if !t.IsDecoration(x) {
        assert InOneWorkspace(t.m.pairs, x);
        Elsewhere(t.m.pairs, t.active, t1.active, x);
        AsBefore(t, t1, t2, x);
      }
    }
  }

  /** Back in a workspace, the window that was active there is so again if nothing was active meanwhile; otherwise the
      window that selecting it leads to is, which is another only if it has a visible dialog. */
  lemma {:induction false} FocusComesBack(t: Titlebar, ws: Workspace)
    requires TitlebarInvariant(t) && ws != t.active && ActiveWindow(t.m).Some?
    ensures var w, t1 := ActiveWindow(t.m).value, Switched(t, ws);
            && w in t.m.info
            && ActiveWindow(Switched(t1, t.active).m) ==
               if ActiveWindow(t1.m).None? then Some(w) else Target(t.m.info, w)
  {
    hide Switched, SwitchTo, SameIntentions, SameReady;
    var t1 := Switched(t, ws);
    ActiveNotHidden(t);
    SwitchedKeeps(t, ws);
    if ActiveWindow(t1.m).None? {
      FocusComesBackAlone(t, ws);
    } else {
      LeftNext(t, ws);
      Remembered(t, ws);
      SwitchReady(t, ws);
      FocusReturnsTo(t, t1);
    }
  }

  lemma {:induction false} FocusReturnsTo(t: Titlebar, t1: Titlebar)
    requires TitlebarInvariant(t) && TitlebarInvariant(t1) && t1.active != t.active && ActiveWindow(t.m).Some?
    requires t1.m.pairs == t.m.pairs && LinksOf(t1.m.info) == LinksOf(t.m.info) && t1.m.info.Keys == t.m.info.Keys
    requires t1.decorations == t.decorations && SameIntentions(t, t1) && SameReady(t, t1) && ActiveWindow(t1.m).Some?
    requires ActiveWindow(t1.m) != ActiveWindow(t.m)
    requires EndsOn(t1.m.mru, ActiveWindow(t.m).value, ActiveWindow(t1.m).value)
    ensures var w := ActiveWindow(t.m).value;
            w in t.m.info && ActiveWindow(Switched(t1, t.active).m) == Target(t.m.info, w)
  {
    hide Exchange, ApplyHidden, SameIntentions, SameReady, EndsOn, Target, BackButFor, Invariants, Sound;
    var w, v := ActiveWindow(t.m).value, ActiveWindow(t1.m).value;
    SwitchHidesLast(t1, t.active);
    ExchangedBack(t, t1, v);
    ReturnsTo(t, Exchange(t1.(active := t.active), t1.active, Some(v)), t1.active, w, v);
  }

  /** A switch exchanges everything but the active window and hides that last. */
  lemma {:induction false} SwitchHidesLast(t1: Titlebar, to: Workspace)
    requires TitlebarInvariant(t1) && to != t1.active && ActiveWindow(t1.m).Some?
    ensures var v := ActiveWindow(t1.m).value; var t2 := Exchange(t1.(active := to), t1.active, Some(v));
            && v in t1.m.info && Switched(t1, to).m == ApplyHidden(t2, v).m
            && Sound(t2) && Invariants(t2) && ActiveWindow(t2.m) == Some(v) && !t2.data[v].inHiddenWorkspace
            && (t1.active, v) in t2.m.pairs && InOneWorkspace(t2.m.pairs, v) && t2.m.mru == t1.m.mru
  {
    hide Exchange, ApplyHidden, Swap, ActiveWindow, SameIntentions, FlagsRight, DecorationsInactive, InOneWorkspace;
    var t0, v := t1.(active := to), ActiveWindow(t1.m).value;
    SwitchIsSwap(t1, to);
    SwapHidesLast(t0, t1.active, v);
    assert ActiveWindow(t0.m) == Some(v);
    ExchangedAround(t0, t1.active, v);
  }
}
