/** The focus comes back with the workspace: what the titlebar policy remembers the last active window for. */
module TitlebarFocus {
  import opened Sequences
  import opened Forest
  import opened WindowModel
  import opened WindowStates
  import opened FocusSelection
  import opened FocusInvariance
  import opened WorkspaceMembership
  import opened RestoreRectangle
  import opened TitlebarModel
  import opened TitlebarSwitching
  import opened TitlebarRuns

  // ----- when a change of state leaves the focus alone, and when it takes it

  lemma {:induction false} SetStateLeavesFocus(m: Model, x: Window, value: WindowState)
    requires FocusInvariant(m) && x in m.info && m.focus.Some? && m.focus != Some(x)
    ensures SetState(m, x, value).focus == m.focus && SetState(m, x, value).mru == m.mru
  {
    RecordedFits(m, x, value);
    var m0 := m.(fullscreen := Recorded(m, x, value).fullscreen);
    ActiveIsFocused(m);
    assert ActiveWindow(m0) == ActiveWindow(m);
  }

  /** Only rectangles differ. */
  ghost predicate SameButPlaces(info: Windows, info': Windows) {
    && info'.Keys == info.Keys
    && forall x :: x in info ==>
         && info'[x].kind == info[x].kind && info'[x].state == info[x].state && info'[x].node == info[x].node
         && info'[x].surface == info[x].surface.(rect := info'[x].surface.rect)
  }

  lemma {:induction false} OnlyPlaced(info: Windows, w: Window, mods: Modifications)
    requires WellLinked(info) && w in info && WellLinked(Noted(info, w, mods))
    ensures SameButPlaces(info, Placed(Noted(info, w, mods), w, mods))
  {
    hide Placed;
    assert OnlyRects(Noted(info, w, mods), Placed(Noted(info, w, mods), w, mods));
  }

  /** set_state comes last, and what comes before it does not bear on the focus. */
  lemma {:induction false} BeforeSetState(m: Model, x: Window, value: WindowState, displays: Displays)
    returns (m3: Model)
    requires FocusInvariant(m) && x in m.info
    ensures FocusInvariant(m3) && SameButPlaces(m.info, m3.info) && m3 == m.(info := m3.info)
    ensures ChangeState(m, x, value, displays) == SetState(m3, x, value)
  {
    var mods := PlaceAndSizeForState(OnlyState(value), m.info[x], displays);
    ChangeStateSteps(m, x, value, displays);
    var info2 := Noted(m.info, x, mods);
    m3 := m.(info := Placed(info2, x, mods));
    OnlyPlaced(m.info, x, mods);
    SameForFocusKeeps(m, m3.info);
  }

  lemma {:induction false} ChangeLeavesFocus(m: Model, x: Window, value: WindowState, displays: Displays)
    requires FocusInvariant(m) && x in m.info && m.focus.Some? && m.focus != Some(x)
    ensures var m' := ChangeState(m, x, value, displays); m'.focus == m.focus && m'.mru == m.mru
  {
    var m3 := BeforeSetState(m, x, value, displays);
    SetStateLeavesFocus(m3, x, value);
  }

  ghost predicate NoVisibleDialog(info: Windows, w: Window)
    requires w in info
  {
    forall c :: c in info[w].node.children && c in info ==> !(info[c].kind.Dialog? && !info[c].state.Conceals())
  }

  lemma {:induction false} ChangeTakesFocus(m: Model, w: Window, value: WindowState, displays: Displays)
    requires FocusInvariant(m) && m.focus.None? && w in m.info && m.info[w].state.Conceals() && !value.Conceals()
    requires m.info[w].kind.CanBeActive() && m.info[w].surface.ready && NoVisibleDialog(m.info, w)
    ensures ChangeState(m, w, value, displays).focus == Some(w)
  {
    var m3 := BeforeSetState(m, w, value, displays);
    SetStateTakesFocus(m3, w, value);
  }

  lemma {:induction false} SetStateTakesFocus(m: Model, w: Window, value: WindowState)
    requires FocusInvariant(m) && m.focus.None? && w in m.info && m.info[w].state.Conceals() && !value.Conceals()
    requires m.info[w].kind.CanBeActive() && m.info[w].surface.ready && NoVisibleDialog(m.info, w)
    ensures SetState(m, w, value).focus == Some(w)
  {
    var m0 := m.(fullscreen := Recorded(m, w, value).fullscreen);
    ActiveIsFocused(m);
    assert ActiveWindow(m0) == ActiveWindow(m);
    var m1 := Recorded(m, w, value);
    StateKeepsLinks(m.info, w, value);
    StateKeepsLinks(m1.info, w, value);
    var info2 := WithSurfaceState(m1.info, w, value);
    NotItsOwnChild(m.info, w);
    assert FirstVisibleDialog(info2, info2[w].node.children).None?;
    assert info2[w].Focusable();
    assert Target(info2, w) == Some(w);
  }

  lemma {:induction false} ChildIsOther(f: Links, p: Window, c: Window)
    requires IsForest(f) && p in f && c in f[p].children
    ensures IsParent(f, p, c) && c != p
  {
    ParentRank(f, p, c);
  }

  lemma {:induction false} NotItsOwnChild(info: Windows, w: Window)
    requires WellLinked(info) && w in info
    ensures w !in info[w].node.children
  {
    forall c | c in LinksOf(info)[w].children
      ensures c != w
    {
      ChildIsOther(LinksOf(info), w, c);
    }
  }

  // ----- the exchange of two workspaces

  /** A window that has posted a buffer has done so. */
  ghost predicate SameReady(t: Titlebar, t': Titlebar) {
    forall x :: x in t.m.info && x in t'.m.info ==> t'.m.info[x].surface.ready == t.m.info[x].surface.ready
  }

  lemma {:induction false} RestatedReady(t: Titlebar, w: Window, value: WindowState, entry: PolicyData)
    requires Sound(t) && w in t.m.info
    ensures SameReady(t, Restate(t, w, value, entry))
  {
    ChangeStateEffect(t.m, w, value, t.displays);
    ChangeStateElsewhere(t.m, w, value, t.displays);
  }

  lemma {:induction false} AppliedReady(t: Titlebar, w: Window)
    requires Sound(t) && w in t.m.info
    ensures SameReady(t, ApplyHidden(t, w)) && SameReady(t, ApplyVisible(t, w))
  {
    RestatedReady(t, w, Hidden, PolicyData(true, t.m.info[w].state));
    RestatedReady(t, w, t.data[w].oldState, t.data[w].(inHiddenWorkspace := false));
  }

  lemma {:induction false} ReadyOnwards(a: Titlebar, b: Titlebar, c: Titlebar)
    requires SameReady(a, b) && SameReady(b, c) && a.m.info.Keys == b.m.info.Keys
    ensures SameReady(a, c)
  {
  }

  lemma {:induction false} ShowEachReady(t: Titlebar, windows: seq<Window>)
    requires Sound(t) && forall w :: w in windows ==> w in t.m.info
    ensures SameReady(t, ShowEach(t, windows))
  {
    hide ApplyVisible, ApplyHidden;
    if windows != [] {
      var t1, w := ShowEach(t, windows[..|windows| - 1]), windows[|windows| - 1];
      ShowEachReady(t, windows[..|windows| - 1]);
      AppliedReady(t1, w);
      ReadyOnwards(t, t1, ApplyVisible(t1, w));
    }
  }

  lemma {:induction false} HideEachReady(t: Titlebar, windows: seq<Window>, spared: Option<Window>)
    requires Sound(t) && forall w :: w in windows ==> w in t.m.info
    ensures SameReady(t, HideEach(t, windows, spared))
  {
    hide ApplyHidden, ApplyVisible;
    if windows != [] {
      var t1, w := HideEach(t, windows[..|windows| - 1], spared), windows[|windows| - 1];
      HideEachReady(t, windows[..|windows| - 1], spared);
      AppliedReady(t1, w);
      ReadyOnwards(t, t1, ApplyHidden(t1, w));
    }
  }

  ghost predicate SameFocus(t: Titlebar, t': Titlebar) {
    t'.m.focus == t.m.focus && t'.m.mru == t.m.mru
  }

  lemma {:induction false} ApplyingLeavesFocus(t: Titlebar, x: Window, w: Window)
    requires Sound(t) && Invariants(t) && t.m.focus == Some(w) && x in t.m.info
    ensures x != w ==> SameFocus(t, ApplyHidden(t, x))
    ensures x != w || !t.data[x].inHiddenWorkspace ==> SameFocus(t, ApplyVisible(t, x))
  {
    if x != w {
      ChangeLeavesFocus(t.m, x, Hidden, t.displays);
      ChangeLeavesFocus(t.m, x, t.data[x].oldState, t.displays);
    }
  }

  lemma {:induction false} ShowEachLeavesFocus(t: Titlebar, windows: seq<Window>, w: Window)
    requires Sound(t) && Invariants(t) && FlaggedAreHidden(t) && forall x :: x in windows ==> x in t.m.info
    requires t.m.focus == Some(w) && w in t.m.info && !t.data[w].inHiddenWorkspace
    ensures SameFocus(t, ShowEach(t, windows))
  {
    hide Sound, Invariants, Restate;
    if windows != [] {
      var front, x := windows[..|windows| - 1], windows[|windows| - 1];
      ShowEachLeavesFocus(t, front, w);
      ShowEachKeeps(t, front);
      ShownFlags(t, front);
      ApplyingLeavesFocus(ShowEach(t, front), x, w);
    }
  }

  lemma {:induction false} HideEachLeavesFocus(t: Titlebar, windows: seq<Window>, spared: Option<Window>, w: Window)
    requires Sound(t) && Invariants(t) && FlaggedAreHidden(t) && forall x :: x in windows ==> x in t.m.info
    requires t.m.focus == Some(w) && (w in windows ==> spared == Some(w))
    ensures SameFocus(t, HideEach(t, windows, spared))
  {
    hide LinksOf, FocusInvariant, WorkspaceInvariant, SameIntentions, Restate;
    if windows != [] {
      var front, x := windows[..|windows| - 1], windows[|windows| - 1];
      HideEachLeavesFocus(t, front, spared, w);
      HideEachKeeps(t, front, spared);
      ApplyingLeavesFocus(HideEach(t, front, spared), x, w);
    }
  }

  /** What is shown and hidden before the active window is leaves the focus and the MRU list alone. */
  lemma {:induction false} ExchangeLeavesFocus(t: Titlebar, from: Workspace, was: Option<Window>, w: Window)
    requires Sound(t) && Invariants(t) && FlaggedAreHidden(t) && t.m.focus == Some(w) && w in t.m.info
    requires !t.data[w].inHiddenWorkspace && ((from, w) in t.m.pairs ==> was == Some(w))
    ensures SameFocus(t, Exchange(t, from, was))
  {
    ContentKnown(t, t.active);
    ContentKnown(t, from);
    var shown := ShowEach(t, ContentOf(t.m.pairs, t.active));
    ShowEachLeavesFocus(t, ContentOf(t.m.pairs, t.active), w);
    ShowEachKeeps(t, ContentOf(t.m.pairs, t.active));
    HideEachLeavesFocus(shown, ContentOf(t.m.pairs, from), was, w);
  }

  // ----- away and back

  /** Switching away from an active window remembers it for its workspace. */
  lemma {:induction false} Remembered(t: Titlebar, ws: Workspace)
    requires TitlebarInvariant(t) && ws != t.active && ActiveWindow(t.m).Some?
    ensures var t1 := SwitchTo(t, ws, None);
            && t.active in t1.lastActive && t1.lastActive[t.active] == ActiveWindow(t.m).value
            && t1.active == ws && t1.m.pairs == t.m.pairs
  {
    hide Sound, ContentOf, Invariants, FlaggedAreHidden, Assigned, FlagsRight, DecorationsInactive, VisibleSurfaces;
    ActiveNotHidden(t);
    assert Prepared(t, ws, None) == t.(active := ws);
    ContentKnown(t.(active := ws), t.active);
  }

  lemma {:induction false} SwitchReady(t: Titlebar, ws: Workspace)
    requires TitlebarInvariant(t) && ws != t.active && ActiveWindow(t.m).Some?
    ensures SameReady(t, SwitchTo(t, ws, None))
  {
    ActiveNotHidden(t);
    assert Prepared(t, ws, None) == t.(active := ws);
    SwapReady(t.(active := ws), t.active, ActiveWindow(t.m).value);
  }

  lemma {:induction false} SwapReady(t: Titlebar, from: Workspace, was: Window)
    requires Sound(t) && was in t.m.info
    ensures SameReady(t, Swap(t, from, Some(was)))
  {
    hide ApplyHidden, ApplyVisible;
    var t2 := Exchange(t, from, Some(was));
    ExchangeReady(t, from, Some(was));
    AppliedReady(t2, was);
    ReadyOnwards(t, t2, ApplyHidden(t2, was));
  }

  lemma {:induction false} ExchangeReady(t: Titlebar, from: Workspace, was: Option<Window>)
    requires Sound(t)
    ensures SameReady(t, Exchange(t, from, was))
  {
    ContentKnown(t, t.active);
    ContentKnown(t, from);
    var shown := ShowEach(t, ContentOf(t.m.pairs, t.active));
    ShowEachReady(t, ContentOf(t.m.pairs, t.active));
    HideEachReady(shown, ContentOf(t.m.pairs, from), was);
    ReadyOnwards(t, shown, Exchange(t, from, was));
  }

  lemma {:induction false} ChildElsewhere(f: Links, pairs: Pairs, ws: Workspace, p: Window, c: Window)
    requires IsForest(f) && TreesTogether(f, pairs) && IsParent(f, p, c) && (ws, p) !in pairs
    ensures (ws, c) !in pairs
  {
    ParentRank(f, p, c);
    SameAsRoot(f, pairs, ws, p);
    SameAsRoot(f, pairs, ws, c);
  }

  /** All dialogs of a window of another workspace are hidden. */
  lemma {:induction false} DialogsHiddenToo(t: Titlebar, w: Window)
    requires TitlebarInvariant(t) && w in t.m.info && (t.active, w) !in t.m.pairs
    ensures NoVisibleDialog(t.m.info, w)
  {
    forall c | c in t.m.info[w].node.children && c in t.m.info
      ensures !(t.m.info[c].kind.Dialog? && !t.m.info[c].state.Conceals())
    {
      ChildIsOther(LinksOf(t.m.info), w, c);
      ChildElsewhere(LinksOf(t.m.info), t.m.pairs, t.active, w, c);
      HiddenElsewhere(t, c);
    }
  }

  lemma {:induction false} HiddenElsewhere(t: Titlebar, c: Window)
    requires FlaggedAreHidden(t) && FlagsRight(t) && DecorationsInactive(t) && Sound(t)
    requires c in t.m.info && (t.active, c) !in t.m.pairs
    ensures t.m.info[c].state.Hidden? || !t.m.info[c].kind.CanBeActive()
  {
  }

  /** Back in a workspace with no window active meanwhile, the window that was active there is so again. */
  lemma {:induction false} FocusComesBackAlone(t: Titlebar, ws: Workspace)
    requires TitlebarInvariant(t) && ws != t.active && ActiveWindow(t.m).Some?
    requires ActiveWindow(Switched(t, ws).m).None?
    ensures ActiveWindow(Switched(Switched(t, ws), t.active).m) == ActiveWindow(t.m)
  {
    hide Switched, SwitchTo, SameIntentions, SameReady;
    var w, t1 := ActiveWindow(t.m).value, Switched(t, ws);
    ActiveNotHidden(t);
    SwitchedKeeps(t, ws);
    Remembered(t, ws);
    SwitchReady(t, ws);
    assert InOneWorkspace(t.m.pairs, w);
    FocusReturns(t, t1, w);
  }

  lemma {:induction false} FocusReturns(t: Titlebar, t1: Titlebar, w: Window)
    requires TitlebarInvariant(t) && TitlebarInvariant(t1) && ActiveWindow(t.m) == Some(w) && ActiveWindow(t1.m).None?
    requires w in t.m.info && t1.m.info.Keys == t.m.info.Keys && t1.m.pairs == t.m.pairs && !t1.IsDecoration(w)
    requires (t.active, w) in t.m.pairs && (t1.active, w) !in t.m.pairs
    requires t.active in t1.lastActive && t1.lastActive[t.active] == w
    requires SameIntentions(t, t1) && SameReady(t, t1)
    ensures ActiveWindow(Switched(t1, t.active).m) == Some(w)
  {
    hide ShowLastActive, Exchange, SameIntentions, SameReady, NoVisibleDialog;
    hide Switched, WellLinked, KnownWindows, FlagsRight, Assigned, FlaggedAreHidden, DecorationsInactive;
    DialogsHiddenToo(t1, w);
    TakesFocusBack(t, t1, w);
    FocusStays(t1, t.active, w);
  }

  lemma {:induction false} FocusStays(t1: Titlebar, to: Workspace, w: Window)
    requires TitlebarInvariant(t1) && ActiveWindow(t1.m).None? && to != t1.active && (t1.active, w) !in t1.m.pairs
    requires var t2 := ShowLastActive(t1.(active := to), to);
             && t2.m.focus == Some(w) && w in t2.m.info && !t2.data[w].inHiddenWorkspace
             && Invariants(t2) && FlaggedAreHidden(t2)
    ensures ActiveWindow(Switched(t1, to).m) == Some(w)
  {
    hide ShowLastActive, Exchange, WellLinked, KnownWindows, FlagsRight, Assigned, FlaggedAreHidden;
    ExchangeLeavesFocus(ShowLastActive(t1.(active := to), to), t1.active, None, w);
    SwitchKeeps(t1, to, None);
    ActiveIsFocused(SwitchTo(t1, to, None).m);
  }

  lemma {:induction false} TakesFocusBack(t: Titlebar, t1: Titlebar, w: Window)
    requires TitlebarInvariant(t) && TitlebarInvariant(t1) && ActiveWindow(t.m) == Some(w) && ActiveWindow(t1.m).None?
    requires w in t.m.info && w in t1.m.info && t1.m.pairs == t.m.pairs && !t1.IsDecoration(w)
    requires (t.active, w) in t.m.pairs && (t1.active, w) !in t.m.pairs
    requires t.active in t1.lastActive && t1.lastActive[t.active] == w
    requires SameIntentions(t, t1) && SameReady(t, t1) && NoVisibleDialog(t1.m.info, w)
    ensures var t2 := ShowLastActive(t1.(active := t.active), t.active);
            && t2.m.focus == Some(w) && !t2.data[w].inHiddenWorkspace && w in t2.m.info
            && Sound(t2) && Invariants(t2) && FlaggedAreHidden(t2) && t2.m.pairs == t1.m.pairs
  {
    hide ChangeState;
    var t0 := t1.(active := t.active);
    InWorkspace(t.m.pairs, t.active, w);
    ActiveIsFocused(t1.m);
    assert w in t.m.mru && w in VisibleSurfaces(t.m.info);
    ActiveNotHidden(t);
    StateByWorkspace(t1, w);
    ChangeTakesFocus(t0.m, w, t1.data[w].oldState, t1.displays);
    ShowingKeeps(t0, w);
  }
}
