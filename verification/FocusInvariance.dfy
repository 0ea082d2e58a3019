/** The focus invariant is kept by every operation that changes the windows. */
module FocusInvariance {
  import opened Sequences
  import opened Forest
  import opened WindowModel
  import opened WindowStates
  import opened FocusSelection

  // ----- set_state

  /** The situation inside set_state: the active window w already has its new, concealing state, its surface not
      yet. */
  ghost predicate AboutToConceal(m: Model, w: Window) {
    && WellLinked(m.info) && MruFit(m) && StackAgrees(m)
    && w in m.info && m.info[w].state.Conceals() && ActiveWindow(m) == Some(w)
    && OthersSynced(m.info, w)
  }

  /** A search made there finds some other window, or there is none to find and nothing changes. */
  lemma {:induction false} SearchOthers(m: Model, w: Window, s: Search)
    requires AboutToConceal(m, w) && s.except == Some(w)
    ensures var r := ActivateMostRecent(m, s);
            if r.1.Some? then
              && r.1.value in m.info && r.1.value != w && m.info[r.1.value].Focusable()
              && r.0 == GiveFocus(m, r.1.value) && ActiveWindow(r.0) == r.1
            else r.0 == m && forall c :: c in m.mru && Considers(m, s, c) ==> !m.info[c].SurfaceShows()
  {
    var found := LastIn(m.mru, Selectable(m, s));
    if found.Some? {
      var t := Target(m.info, found.value).value;
      TargetIsFit(m.info, found.value);
      GivenFocusIsActive(m, t);
    } else {
      forall c | c in m.mru && Considers(m, s, c)
        ensures !m.info[c].SurfaceShows()
      {
        if m.info[c].SurfaceShows() {
          ShownHasTarget(m, c);
        }
      }
    }
  }

  /** Which window gets the focus that w gives up. */
  ghost function Successor(m: Model, w: Window): Option<Window>
    requires WellLinked(m.info) && w in m.info
  {
    var sharing := ActivateMostRecent(m, Search(None, Some(WorkspacesOf(m.pairs, w)), Some(w))).1;
    if Target(m.info, w).Some? then Target(m.info, w)
    else if sharing.Some? then sharing
    else ActivateMostRecent(m, Search(None, None, Some(w))).1
  }

  lemma {:induction false} FocusIsPassedOn(m: Model, w: Window)
    requires AboutToConceal(m, w)
    ensures var t := Successor(m, w);
            if t.Some? then
              && t.value in m.info && t.value != w && m.info[t.value].Focusable() && m.info[t.value].SurfaceShows()
              && PassFocusOn(m, w) == GiveFocus(m, t.value)
            else
              && PassFocusOn(m, w) == m.(focus := None)
              && forall c :: c in m.mru && c != w ==> !m.info[c].SurfaceShows()
  {
    hide GiveFocus, Target, WellLinked, SameButFocus;
    if Target(m.info, w).Some? {
      TargetIsFit(m.info, w);
      GivenFocusIsActive(m, Target(m.info, w).value);
    } else {
      SearchOthers(m, w, Search(None, Some(WorkspacesOf(m.pairs, w)), Some(w)));
      SearchOthers(m, w, Search(None, None, Some(w)));
    }
  }

  /** set_state's first steps: the set of fullscreen windows and the recorded state. */
  function Recorded(m: Model, w: Window, value: WindowState): Model
    requires w in m.info
  {
    m.(fullscreen := if value.Fullscreen? then m.fullscreen + {w} else m.fullscreen - {w},
       info := WithState(m.info, w, value))
  }

  /** What keeps the windows of the list as visible as they were, or reveals some while one has the focus. */
  lemma {:induction false} FocusStaysAgreed(m: Model, m': Model)
    requires FocusAgrees(m) && m'.mru == m.mru && m'.focus == m.focus
    requires forall x :: x in m.mru ==>
               x in m.info && x in m'.info && (m.info[x].SurfaceShows() ==> m'.info[x].SurfaceShows())
    requires m.focus.None? ==> forall x :: x in m.mru && m'.info[x].SurfaceShows() ==> m.info[x].SurfaceShows()
    ensures FocusAgrees(m')
  {
    if |m.mru| > 0 {
      assert m.mru[|m.mru| - 1] in m.mru;
    }
  }

  lemma {:induction false} RecordedFits(m: Model, w: Window, value: WindowState)
    requires FocusInvariant(m) && w in m.info
    ensures var m1 := Recorded(m, w, value);
            && LinksOf(m1.info) == LinksOf(m.info) && MruFit(m1) && StackAgrees(m1) && FullscreenAgrees(m1)
            && ActiveWindow(m1) == m.focus
  {
    StateKeepsLinks(m.info, w, value);
    assert VisibleSurfaces(Recorded(m, w, value).info) == VisibleSurfaces(m.info);
    ActiveIsFocused(m);
  }

  lemma {:induction false} ConcealKeepsFocus(m: Model, w: Window, value: WindowState)
    requires FocusInvariant(m) && w in m.info && m.info[w].state != value && value.Conceals()
    ensures FocusInvariant(SetState(m, w, value))
  {
    hide PassFocusOn, MruFit, StackAgrees, FullscreenAgrees;
    var m1 := Recorded(m, w, value);
    RecordedFits(m, w, value);
    assert OthersSynced(m1.info, w);
    if m.focus == Some(w) {
      assert AboutToConceal(m1, w);
      FocusIsPassedOn(m1, w);
      var m2 := PassFocusOn(m1, w);
      if Successor(m1, w).Some? {
        GiveFocusKeeps(m1, Successor(m1, w).value);
        assert m2.mru[|m2.mru| - 1] == Successor(m1, w).value;
      }
      ConcealedAfter(m2, w, value);
    } else {
      assert FocusElsewhere(m1, w);
      ConcealedAfter(m1, w, value);
    }
  }

  ghost predicate OthersSynced(info: Windows, w: Window) {
    forall c :: c in info && c != w ==>
      info[c].state == info[c].surface.state && (info[c].surface.shown || info[c].state.Conceals())
  }

  ghost predicate FocusElsewhere(m: Model, w: Window) {
    if m.focus.None? then forall c :: c in m.mru && c in m.info && c != w ==> !m.info[c].SurfaceShows()
    else
      && |m.mru| > 0 && m.mru[|m.mru| - 1] == m.focus.value
      && m.focus.value != w && m.focus.value in m.info && m.info[m.focus.value].SurfaceShows()
  }

  /** Once the focus is elsewhere, hiding the surface completes the change of state. */
  lemma {:induction false} ConcealedAfter(m: Model, w: Window, value: WindowState)
    requires WellLinked(m.info) && w in m.info && m.info[w].state == value && value.Conceals()
    requires MruFit(m) && StackAgrees(m) && FullscreenAgrees(m)
    requires OthersSynced(m.info, w) && FocusElsewhere(m, w)
    ensures FocusInvariant(m.(info := WithSurfaceState(m.info, w, value)))
  {
    var m1 := m.(info := WithSurfaceState(m.info, w, value));
    StateKeepsLinks(m.info, w, value);
    if m.focus.Some? {
      assert m.focus.value in m1.mru;
    }
  }

  /** A window that appears takes the focus if no window had it. */
  lemma {:induction false} RevealedFits(m: Model, w: Window, value: WindowState)
    requires FocusInvariant(m) && w in m.info && m.info[w].state != value && !value.Conceals()
    ensures var m1 := Recorded(m, w, value);
            var m2 := m1.(info := WithSurfaceState(m1.info, w, value));
            && LinksOf(m2.info) == LinksOf(m.info)
            && MruFit(m2) && StackAgrees(m2) && FullscreenAgrees(m2) && Synced(m2.info)
            && (m.focus.Some? || w !in m.mru || !m.info[w].state.Conceals() ==> FocusAgrees(m2))
  {
    hide LinksOf, IsForest, ActiveWindow, FocusAgrees, Synced, NoDup;
    var m1 := Recorded(m, w, value);
    RevealedSynced(m.info, w, value);
    RecordedFits(m, w, value);
    StateKeepsLinks(m1.info, w, value);
    if m.focus.Some? || w !in m.mru || !m.info[w].state.Conceals() {
      RevealedAgrees(m, w, value);
      FocusAgreesOf(m.(info := WithSurfaceState(m1.info, w, value)), m1.(info := WithSurfaceState(m1.info, w, value)));
    }
  }

  lemma {:induction false} FocusAgreesOf(m: Model, m': Model)
    requires FocusAgrees(m) && m' == m.(fullscreen := m'.fullscreen)
    ensures FocusAgrees(m')
  {
  }

  lemma {:induction false} RevealedSynced(info: Windows, w: Window, value: WindowState)
    requires Synced(info) && w in info
    ensures Synced(WithSurfaceState(WithState(info, w, value), w, value))
  {
  }

  lemma {:induction false} RevealedAgrees(m: Model, w: Window, value: WindowState)
    requires FocusAgrees(m) && MruFit(m) && Synced(m.info) && w in m.info && !value.Conceals()
    requires m.focus.Some? || w !in m.mru || !m.info[w].state.Conceals()
    ensures FocusAgrees(m.(info := WithSurfaceState(WithState(m.info, w, value), w, value)))
  {
    hide FocusAgrees, NoDup;
    FocusStaysAgreed(m, m.(info := WithSurfaceState(WithState(m.info, w, value), w, value)));
  }

  lemma {:induction false} RevealKeepsFocus(m: Model, w: Window, value: WindowState)
    requires FocusInvariant(m) && w in m.info && m.info[w].state != value && !value.Conceals()
    ensures FocusInvariant(SetState(m, w, value))
  {
    var m1 := Recorded(m, w, value);
    var m2 := m1.(info := WithSurfaceState(m1.info, w, value));
    RevealedFits(m, w, value);
    ActiveIsFocused(m);
    var m0 := m.(fullscreen := m1.fullscreen);
    assert ActiveWindow(m0) == m.focus;
    if m.focus.None? && m.info[w].state.Conceals() {
      if w in m.mru {
        assert m2.info[w].Focusable();
        ShownHasTarget(m2, w);
        SelectRestores(m2, w);
      } else {
        SelectKeepsFocus(m2, w);
      }
    }
  }

  lemma {:induction false} SetStateKeepsFocus(m: Model, w: Window, value: WindowState)
    requires FocusInvariant(m) && w in m.info
    ensures FocusInvariant(SetState(m, w, value))
  {
    if m.info[w].state != value {
      if value.Conceals() {
        ConcealKeepsFocus(m, w, value);
      } else {
        RevealKeepsFocus(m, w, value);
      }
    }
  }

  // ----- windows come and go

  lemma {:induction false} ForgetKeepsFocus(m: Model, w: Window)
    requires FocusInvariant(m) && w in m.info
    ensures var m1 := Forget(m, w);
            && WellLinked(m1.info) && Synced(m1.info) && MruFit(m1) && StackAgrees(m1) && FullscreenAgrees(m1)
            && (ActiveWindow(m) != Some(w) ==> FocusAgrees(m1))
            && (ActiveWindow(m) == Some(w) ==> m1.focus == None)
  {
    hide FocusAgrees, MruFit, StackAgrees, FullscreenAgrees, Synced;
    WithoutWindowLinks(m.info, w);
    WithoutWindowSame(m.info, w);
    ForgottenFits(m, w);
    ActiveIsFocused(m);
    if ActiveWindow(m) != Some(w) {
      MruKnown(m);
      ForgottenAgrees(m, Forget(m, w), w);
    }
  }

  lemma {:induction false} MruKnown(m: Model)
    requires MruFit(m)
    ensures forall x :: x in m.mru ==> x in m.info
  {
  }

  lemma {:induction false} ForgottenFits(m: Model, w: Window)
    requires w in m.info && Synced(m.info) && MruFit(m) && StackAgrees(m) && FullscreenAgrees(m)
    ensures var m1 := Forget(m, w);
            Synced(m1.info) && MruFit(m1) && StackAgrees(m1) && FullscreenAgrees(m1)
  {
    hide WithoutWindow;
    WithoutWindowSame(m.info, w);
    WithoutNoDup(m.mru, {w});
    WithoutNoDup(m.stack, {w});
  }

  lemma {:induction false} WithoutWindowSame(info: Windows, w: Window)
    requires w in info
    ensures var r := WithoutWindow(info, w);
            && r.Keys == info.Keys - {w}
            && forall x :: x in r ==> r[x] == info[x].(node := r[x].node)
  {
  }

  lemma {:induction false} ForgottenAgrees(m: Model, m1: Model, w: Window)
    requires FocusAgrees(m) && m.focus != Some(w) && m1.focus == m.focus && m1.mru == Without(m.mru, {w})
    requires forall x :: x in m.mru ==> x in m.info
    requires forall x :: x in m.info && x != w ==> x in m1.info && m1.info[x].SurfaceShows() == m.info[x].SurfaceShows()
    ensures FocusAgrees(m1)
  {
    if m.focus.Some? {
      var last := m.mru[|m.mru| - 1];
      assert m1.mru == Without(m.mru[..|m.mru| - 1], {w}) + [last];
      assert last in m1.mru;
    }
  }

  /** One more attempt: it succeeds and the invariant is back, or it leaves everything as it was. */
  lemma {:induction false} AttemptRestores(m: Model, s: Search)
    requires WellLinked(m.info) && Synced(m.info) && MruFit(m) && StackAgrees(m) && FullscreenAgrees(m)
    ensures var r := ActivateMostRecent(m, s);
            if r.1.Some? then FocusInvariant(r.0) && ActiveWindow(r.0) == r.1
            else r.0 == m && forall c :: c in m.mru && Considers(m, s, c) ==> !m.info[c].SurfaceShows()
  {
    var found := LastIn(m.mru, Selectable(m, s));
    if found.Some? {
      SelectRestores(m, found.value);
    } else {
      forall c | c in m.mru && Considers(m, s, c)
        ensures !m.info[c].SurfaceShows()
      {
        if m.info[c].SurfaceShows() {
          ShownHasTarget(m, c);
        }
      }
    }
  }

  lemma {:induction false} SelectRestores(m: Model, hint: Window)
    requires WellLinked(m.info) && Synced(m.info) && MruFit(m) && StackAgrees(m) && FullscreenAgrees(m)
    requires hint in m.info && Target(m.info, hint).Some?
    ensures FocusInvariant(Select(m, Some(hint)).0)
    ensures ActiveWindow(Select(m, Some(hint)).0) == Target(m.info, hint)
  {
    TargetIsFit(m.info, hint);
    GiveFocusKeeps(m, Target(m.info, hint).value);
    GivenFocusIsActive(m, Target(m.info, hint).value);
  }

  lemma {:induction false} AttemptsRestore(m: Model, application: Application, wss: set<Workspace>)
    requires WellLinked(m.info) && Synced(m.info) && MruFit(m) && StackAgrees(m) && FullscreenAgrees(m)
    requires m.focus == None
    ensures var r := Refocus(m, application, None, wss);
            if r.1.Some? then FocusInvariant(r.0) && ActiveWindow(r.0) == r.1
            else r.0 == m && forall c :: c in m.mru ==> !m.info[c].SurfaceShows()
  {
    var here, anywhere := Search(Some(application), Some(wss), None), Search(None, None, None);
    AttemptRestores(m, here);
    if ActivateMostRecent(m, here).1.None? {
      AttemptRestores(m, Search(None, Some(wss), None));
      if ActivateMostRecent(m, Search(None, Some(wss), None)).1.None? {
        AttemptRestores(m, Search(Some(application), None, None));
        AttemptRestores(m, anywhere);
        assert forall c :: c in m.mru ==> Considers(m, anywhere, c);
      }
    }
  }

  lemma {:induction false} RefocusRestores(
      m: Model, application: Application, parent: Option<Window>, wss: set<Workspace>)
    requires WellLinked(m.info) && Synced(m.info) && MruFit(m) && StackAgrees(m) && FullscreenAgrees(m)
    requires m.focus == None && (parent.Some? ==> parent.value in m.info)
    ensures var r := Refocus(m, application, parent, wss);
            && FocusInvariant(r.0)
            && (if r.1.Some? then ActiveWindow(r.0) == r.1
                else r.0 == m && forall c :: c in m.mru ==> !m.info[c].SurfaceShows())
  {
    if parent.Some? && Target(m.info, parent.value).Some? {
      SelectRestores(m, parent.value);
    } else {
      AttemptsRestore(m, application, wss);
    }
  }

  lemma {:induction false} RemoveWindowKeepsFocus(m: Model, w: Window)
    requires FocusInvariant(m) && w in m.info
    ensures FocusInvariant(RemoveWindow(m, w))
  {
    ForgetKeepsFocus(m, w);
    if ActiveWindow(m) == Some(w) {
      RemovedParent(m, w);
      RefocusRestores(Forget(m, w), m.info[w].application, m.info[w].node.parent, WorkspacesOf(m.pairs, w));
    }
  }

  lemma {:induction false} AddWindowKeepsFocus(m: Model, w: Window, spec: NewWindow)
    requires FocusInvariant(m) && w !in m.info && (spec.parent.Some? ==> spec.parent.value in m.info)
    ensures FocusInvariant(AddWindow(m, w, spec))
  {
    AddedFits(m, w, spec);
    WorkspacesLeaveFocus(Added(m, w, spec), AddWindow(m, w, spec).pairs);
  }

  /** add_surface before the window joins its parent's workspaces. */
  function Added(m: Model, w: Window, spec: NewWindow): Model {
    m.(info := WithNewWindow(m.info, w, spec), stack := m.stack + [w],
       fullscreen := if spec.state.Fullscreen? then m.fullscreen + {w} else m.fullscreen)
  }

  lemma {:induction false} WorkspacesLeaveFocus(m: Model, pairs: Pairs)
    requires FocusInvariant(m)
    ensures FocusInvariant(m.(pairs := pairs))
  {
  }

  lemma {:induction false} AddedFits(m: Model, w: Window, spec: NewWindow)
    requires FocusInvariant(m) && w !in m.info && (spec.parent.Some? ==> spec.parent.value in m.info)
    ensures FocusInvariant(Added(m, w, spec))
  {
    hide WithNewWindow, LinksOf, IsForest, FocusAgrees, Synced;
    var m1 := Added(m, w, spec);
    NewWindowLinks(m.info, w, spec);
    NewWindowFits(m.info, w, spec);
    assert StackAgrees(m1) by {
      ConcatNoDup(m.stack, [w]);
    }
    FocusStaysAgreed(m, m1);
  }

  lemma {:induction false} NewWindowFits(info: Windows, w: Window, spec: NewWindow)
    requires Synced(info) && w !in info && (spec.parent.Some? ==> spec.parent.value in info)
    ensures var info1 := WithNewWindow(info, w, spec);
            && Synced(info1) && info1.Keys == info.Keys + {w} && info1[w].state == spec.state
            && forall x :: x in info ==> info1[x] == info[x].(node := info1[x].node)
  {
  }

  lemma {:induction false} SurfaceKeepsLinks(info: Windows, w: Window, surface: Surface)
    requires w in info
    ensures LinksOf(info[w := info[w].(surface := surface)]) == LinksOf(info)
  {
  }

  lemma {:induction false} ReadyFits(m: Model, w: Window)
    requires FocusInvariant(m) && w in m.info
    ensures FocusInvariant(m.(info := m.info[w := m.info[w].(surface := m.info[w].surface.(ready := true))]))
  {
    hide LinksOf, IsForest, FocusAgrees;
    var m1 := m.(info := m.info[w := m.info[w].(surface := m.info[w].surface.(ready := true))]);
    SurfaceKeepsLinks(m.info, w, m.info[w].surface.(ready := true));
    FocusStaysAgreed(m, m1);
  }

  lemma {:induction false} WindowReadyKeepsFocus(m: Model, w: Window)
    requires FocusInvariant(m) && w in m.info
    ensures FocusInvariant(WindowReady(m, w))
  {
    hide LinksOf, IsForest, Select;
    var m1 := m.(info := m.info[w := m.info[w].(surface := m.info[w].surface.(ready := true))]);
    SurfaceKeepsLinks(m.info, w, m.info[w].surface.(ready := true));
    ReadyFits(m, w);
    if m.info[w].kind.CanBeActive() {
      SelectKeepsFocus(m1, w);
    }
  }

  /** Posting a first buffer makes the window ready, and active if it can be and has no visible dialog; what it leads
      to is active in its place if it leads to any, and nothing else is changed if not. */
  lemma {:induction false} ReadyIsSelected(m: Model, w: Window)
    requires FocusInvariant(m) && w in m.info
    ensures var r := WindowReady(m, w);
            && r.info == m.info[w := m.info[w].(surface := m.info[w].surface.(ready := true))] && WellLinked(r.info)
            && (CanHaveFocus(r.info[w]) && !HasVisibleDialog(r.info, w) ==> ActiveWindow(r) == Some(w))
            && if m.info[w].kind in {Normal, Utility, Dialog, Freestyle, Menu} && Target(r.info, w).Some?
               then ActiveWindow(r) == Target(r.info, w) else r == m.(info := r.info)
  {
    hide LinksOf, IsForest, GiveFocus, Synced, FullscreenAgrees, StackAgrees;
    var m1 := m.(info := m.info[w := m.info[w].(surface := m.info[w].surface.(ready := true))]);
    SurfaceKeepsLinks(m.info, w, m.info[w].surface.(ready := true));
    ReadyFits(m, w);
    if m.info[w].kind.CanBeActive() {
      SelectKeepsFocus(m1, w);
    }
  }

  // ----- modify_window

  /** Changes of geometry, links, limits and cached rectangles, and of types that leave those of the MRU list ones that
      can have the focus. */
  ghost predicate SameForFocus(m: Model, info': Windows) {
    && m.info.Keys == info'.Keys
    && forall x :: x in m.info ==>
         && info'[x].state == m.info[x].state
         && info'[x].surface == m.info[x].surface.(rect := info'[x].surface.rect)
         && (x in m.mru ==> info'[x].kind.CanBeActive())
  }

  lemma {:induction false} SameForFocusKeeps(m: Model, info': Windows)
    requires FocusInvariant(m) && SameForFocus(m, info') && WellLinked(info')
    ensures FocusInvariant(m.(info := info'))
  {
    if |m.mru| > 0 {
      assert m.mru[|m.mru| - 1] in m.mru;
    }
  }

  /** modify_window keeps the invariant as long as the window, if it was ever active, stays of a type that can be. */
  lemma {:induction false} ModifyWindowKeepsFocus(m: Model, w: Window, mods: Modifications)
    requires FocusInvariant(m) && w in m.info && Acceptable(m.info, w, mods) && KeepsForest(m.info, w, mods)
    requires w in m.mru ==> NewKind(m.info[w], mods).CanBeActive()
    ensures FocusInvariant(ModifyWindow(m, w, mods))
  {
    RelinkedWellLinked(m.info, w, mods);
    var info2 := Noted(Relinked(m.info, w, mods), w, mods);
    RelinkedForFocus(m, w, mods);
    SameForFocusKeeps(m, info2);
    PlacedForFocus(m.(info := info2), w, mods);
    var info3 := Placed(info2, w, mods);
    SameForFocusKeeps(m.(info := info2), info3);
    if mods.state.Some? {
      SetStateKeepsFocus(m.(info := info3), w, mods.state.value);
    }
  }

  lemma {:induction false} RelinkedForFocus(m: Model, w: Window, mods: Modifications)
    requires MruFit(m) && w in m.info && (w in m.mru ==> NewKind(m.info[w], mods).CanBeActive())
    ensures SameForFocus(m, Noted(Relinked(m.info, w, mods), w, mods))
  {
    hide NewKind, NewParent, Reparent, LinksOf, Or;
  }

  lemma {:induction false} PlacedForFocus(m: Model, w: Window, mods: Modifications)
    requires WellLinked(m.info) && MruFit(m) && w in m.info
    ensures SameForFocus(m, Placed(m.info, w, mods))
  {
  }

  // ----- what modify_window relies on

  lemma {:induction false} SelectForgetsNone(m: Model, hint: Option<Window>, x: Window)
    requires WellLinked(m.info) && (hint.Some? ==> hint.value in m.info) && x in m.mru
    ensures x in Select(m, hint).0.mru
  {
  }

  lemma {:induction false} ActivateForgetsNone(m: Model, s: Search, x: Window)
    requires WellLinked(m.info) && x in m.mru
    ensures x in ActivateMostRecent(m, s).0.mru
  {
    var found := LastIn(m.mru, Selectable(m, s));
    if found.Some? {
      SelectForgetsNone(m, found, x);
    }
  }

  lemma {:induction false} PassingOnForgetsNone(m: Model, w: Window, x: Window)
    requires WellLinked(m.info) && w in m.info && x in m.mru
    ensures x in PassFocusOn(m, w).mru
  {
    var m1 := Select(m, Some(w)).0;
    SelectForgetsNone(m, Some(w), x);
    var sharing := Search(None, Some(WorkspacesOf(m1.pairs, w)), Some(w));
    ActivateForgetsNone(m1, sharing, x);
    var m2 := if ActiveWindow(m1) in {Some(w), None} then ActivateMostRecent(m1, sharing).0 else m1;
    ActivateForgetsNone(m2, Search(None, None, Some(w)), x);
  }

  lemma {:induction false} SetStateForgetsNone(m: Model, w: Window, value: WindowState, x: Window)
    requires WellLinked(m.info) && w in m.info && x in m.mru
    ensures x in SetState(m, w, value).mru
    ensures x in m.info ==> x in SetState(m, w, value).info && SetState(m, w, value).info[x].kind == m.info[x].kind
  {
    var m1 := Recorded(m, w, value);
    StateKeepsLinks(m.info, w, value);
    if value.Conceals() {
      PassingOnForgetsNone(m1, w, x);
    } else {
      StateKeepsLinks(m1.info, w, value);
      SelectForgetsNone(m1.(info := WithSurfaceState(m1.info, w, value)), Some(w), x);
    }
  }

  /** That is exactly what it takes: a window of the MRU list that gets another type would still be in the list. */
  lemma {:induction false} ModifyWindowFocus(m: Model, w: Window, mods: Modifications)
    requires FocusInvariant(m) && w in m.info && Acceptable(m.info, w, mods) && KeepsForest(m.info, w, mods)
    ensures FocusInvariant(ModifyWindow(m, w, mods)) <==> (w in m.mru ==> NewKind(m.info[w], mods).CanBeActive())
  {
    if w in m.mru && !NewKind(m.info[w], mods).CanBeActive() {
      RelinkedWellLinked(m.info, w, mods);
      var m3 := m.(info := Placed(Noted(Relinked(m.info, w, mods), w, mods), w, mods));
      if mods.state.Some? {
        SetStateForgetsNone(m3, w, mods.state.value, w);
      }
    } else {
      ModifyWindowKeepsFocus(m, w, mods);
    }
  }
}
