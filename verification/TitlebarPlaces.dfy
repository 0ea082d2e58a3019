/** Where a switch of workspaces leaves the windows, and where they can be restored to afterwards. */
module TitlebarPlaces {
  import opened Sequences
  import opened Geometry
  import opened Forest
  import opened WindowModel
  import opened WindowStates
  import opened WorkspaceMembership
  import opened RestoreRectangle
  import opened TitlebarModel
  import opened TitlebarSwitching
  import opened TitlebarRuns

  lemma {:induction false} NowhereElse(info: Windows, w: Window)
    requires WellLinked(info) && w in info
    ensures PlaceAndSize(info, w, info[w].surface.rect.topLeft, info[w].surface.rect.size) == info
  {
  }

  /** A request that gives the window the rectangle it has, or none. */
  lemma {:induction false} PlacedNowhereElse(info: Windows, w: Window, mods: Modifications)
    requires WellLinked(info) && w in info && mods.limits == SAME_LIMITS && mods.place.None?
    requires Or(mods.topLeft, info[w].surface.rect.topLeft) == info[w].surface.rect.topLeft
    requires Or(mods.size, info[w].surface.rect.size) == info[w].surface.rect.size
    ensures Placed(info, w, mods) == info
  {
    NowhereElse(info, w);
  }

  /** A change of state that leaves the window where it is leaves all others as they are. */
  lemma {:induction false} OthersStay(m: Model, w: Window, value: WindowState, displays: Displays)
    requires WellLinked(m.info) && w in m.info
    requires StateChanged(m.info[w], value, displays).surface.rect == m.info[w].surface.rect
    ensures var m' := ChangeState(m, w, value, displays);
            m'.info.Keys == m.info.Keys && forall x :: x in m.info && x != w ==> m'.info[x] == m.info[x]
  {
    hide ChangeState, SetState, Placed;
    var mods := PlaceAndSizeForState(OnlyState(value), m.info[w], displays);
    ChangeStateSteps(m, w, value, displays);
    var info2 := Noted(m.info, w, mods);
    PlacedNowhereElse(info2, w, mods);
    StateSetElsewhere(m.(info := info2), w, value);
  }

  /** Where it is, is where it would be restored to. */
  predicate AtHome(i: WindowInfo) {
    i.EffectiveRestore() == i.surface.rect
  }

  /** The window is where the state it is meant to have puts it. */
  ghost predicate Settled(t: Titlebar, w: Window)
    requires w in t.m.info && w in t.data
  {
    && (t.data[w].inHiddenWorkspace ==> t.m.info[w].state.Hidden?)
    && InPlace(t.m.info[w].(state := Intended(t, w)), t.displays)
  }

  ghost predicate AllSettled(t: Titlebar) {
    forall w :: w in t.m.info && w in t.data ==> Settled(t, w)
  }

  /** No window moves, and one that is where it would be restored to stays so. */
  ghost predicate Still(t: Titlebar, t': Titlebar) {
    && t'.m.info.Keys == t.m.info.Keys && AllSettled(t')
    && forall w :: w in t.m.info ==>
         && t'.m.info[w].surface.rect == t.m.info[w].surface.rect
         && (AtHome(t.m.info[w]) ==> AtHome(t'.m.info[w]))
  }

  lemma {:induction false} StillOnwards(a: Titlebar, b: Titlebar, c: Titlebar)
    requires Still(a, b) && Still(b, c)
    ensures Still(a, c)
  {
    hide AllSettled, AtHome;
  }

  lemma {:induction false} ChangedAtHome(i: WindowInfo, value: WindowState, displays: Displays)
    requires value.Hidden? || (i.state.Hidden? && InPlace(i.(state := value), displays))
    ensures var i' := StateChanged(i, value, displays);
            && i'.surface.rect == i.surface.rect && i'.outputId == i.outputId && i'.state == value
            && (AtHome(i) ==> AtHome(i'))
  {
  }

  lemma {:induction false} RestatedStill(t: Titlebar, w: Window, value: WindowState, entry: PolicyData)
    requires Sound(t) && w in t.m.info && AllSettled(t)
    requires value.Hidden? || (t.m.info[w].state.Hidden? && InPlace(t.m.info[w].(state := value), t.displays))
    requires Intended(t, w) == if entry.inHiddenWorkspace then entry.oldState else value
    requires entry.inHiddenWorkspace ==> value.Hidden?
    ensures Still(t, Restate(t, w, value, entry))
  {
    hide ChangeState, StateChanged, InPlace, AtHome, WellLinked, LinksOf, KnownWindows;
    ChangedAtHome(t.m.info[w], value, t.displays);
    ChangeStateEffect(t.m, w, value, t.displays);
    OthersStay(t.m, w, value, t.displays);
    OneSettled(t, Restate(t, w, value, entry), w, entry);
  }

  lemma {:induction false} OneSettled(t: Titlebar, t': Titlebar, w: Window, entry: PolicyData)
    requires AllSettled(t) && t'.m.info.Keys == t.m.info.Keys && t.data.Keys == t.m.info.Keys && w in t.m.info
    requires t'.data == t.data[w := entry] && t'.displays == t.displays
    requires forall x :: x in t.m.info && x != w ==> t'.m.info[x] == t.m.info[x]
    requires entry.inHiddenWorkspace ==> t'.m.info[w].state.Hidden?
    requires Intended(t', w) == Intended(t, w)
    requires t'.m.info[w].surface.rect == t.m.info[w].surface.rect && t'.m.info[w].outputId == t.m.info[w].outputId
    ensures AllSettled(t')
  {
    hide InPlace;
    forall x | x in t'.m.info && x in t'.data
      ensures Settled(t', x)
    {
      assert Settled(t, x);
      SameInPlace(t.m.info[x].(state := Intended(t, x)), t'.m.info[x].(state := Intended(t', x)), t.displays);
    }
  }

  lemma {:induction false} SameInPlace(i: WindowInfo, i': WindowInfo, displays: Displays)
    requires i'.state == i.state && i'.surface.rect == i.surface.rect && i'.outputId == i.outputId
    ensures InPlace(i', displays) == InPlace(i, displays)
  {
  }

  lemma {:induction false} HidingStill(t: Titlebar, w: Window)
    requires Sound(t) && w in t.m.info && AllSettled(t)
    ensures Still(t, ApplyHidden(t, w))
  {
    hide Restate, AtHome;
    if !t.data[w].inHiddenWorkspace {
      RestatedStill(t, w, Hidden, PolicyData(true, t.m.info[w].state));
    }
  }

  lemma {:induction false} ShowingStill(t: Titlebar, w: Window)
    requires Sound(t) && w in t.m.info && AllSettled(t)
    ensures Still(t, ApplyVisible(t, w))
  {
    hide Restate, AtHome, InPlace;
    assert Settled(t, w);
    if t.data[w].inHiddenWorkspace {
      RestatedStill(t, w, t.data[w].oldState, t.data[w].(inHiddenWorkspace := false));
    }
  }

  lemma {:induction false} ShowEachStill(t: Titlebar, windows: seq<Window>)
    requires Sound(t) && AllSettled(t) && forall w :: w in windows ==> w in t.m.info
    ensures Still(t, ShowEach(t, windows))
  {
    hide ApplyVisible, AllSettled, AtHome;
    if windows != [] {
      var front, w := windows[..|windows| - 1], windows[|windows| - 1];
      ShowEachStill(t, front);
      ShowingStill(ShowEach(t, front), w);
      StillOnwards(t, ShowEach(t, front), ApplyVisible(ShowEach(t, front), w));
    }
  }

  lemma {:induction false} HideEachStill(t: Titlebar, windows: seq<Window>, spared: Option<Window>)
    requires Sound(t) && AllSettled(t) && forall w :: w in windows ==> w in t.m.info
    ensures Still(t, HideEach(t, windows, spared))
  {
    hide ApplyHidden, AllSettled, AtHome;
    if windows != [] {
      var front, w := windows[..|windows| - 1], windows[|windows| - 1];
      HideEachStill(t, front, spared);
      HidingStill(HideEach(t, front, spared), w);
      StillOnwards(t, HideEach(t, front, spared), ApplyHidden(HideEach(t, front, spared), w));
    }
  }

  lemma {:induction false} AdvisingStill(t: Titlebar, ws: Workspace, windows: seq<Window>)
    requires Sound(t) && AllSettled(t) && forall w :: w in windows ==> w in t.m.info
    ensures Still(t, AdviseAdding(t, ws, windows))
  {
    hide ApplyHidden, ApplyVisible, AllSettled, AtHome;
    if windows != [] {
      var t1, w := AdviseAdding(t, ws, windows[..|windows| - 1]), windows[|windows| - 1];
      AdvisingStill(t, ws, windows[..|windows| - 1]);
      HidingStill(t1, w);
      ShowingStill(t1, w);
      StillOnwards(t, t1, AdviseAdding(t, ws, windows));
    }
  }

  /** Only which workspaces the windows are in, which one is active and what is remembered differs. */
  ghost predicate SamePlaced(t: Titlebar, t': Titlebar) {
    t'.m.info == t.m.info && t'.data == t.data && t'.displays == t.displays
  }

  lemma {:induction false} SamePlacedStill(t: Titlebar, t': Titlebar)
    requires SamePlaced(t, t') && AllSettled(t)
    ensures Still(t, t')
  {
    hide AtHome, InPlace;
    forall w | w in t'.m.info && w in t'.data
      ensures Settled(t', w)
    {
      assert Settled(t, w);
    }
  }

  lemma {:induction false} CarriedStill(t: Titlebar, w: Window, from: Workspace, to: Workspace)
    requires Sound(t) && w in t.m.info && AllSettled(t)
    ensures Still(t, Carry(t, w, from, to))
  {
    hide AdviseAdding, AllSettled, AtHome;
    var t1 := t.(m := RemoveTree(t.m, w, from));
    var t2 := Joined(t1, w, to);
    SamePlacedStill(t, t2);
    AdvisingStill(t2, to, Newcomers(t1, w, to));
    StillOnwards(t, t2, Carry(t, w, from, to));
  }

  lemma {:induction false} PreparedStill(t: Titlebar, ws: Workspace, taking: Option<Window>)
    requires Sound(t) && (taking.Some? ==> taking.value in t.m.info) && AllSettled(t)
    ensures Still(t, Prepared(t, ws, taking))
  {
    hide ApplyVisible, Carry, AllSettled, AtHome;
    var t0 := t.(active := ws);
    SamePlacedStill(t, t0);
    SamePlacedStill(t0, t0);
    if ShowLastActive(t0, ws) != t0 {
      ShowingStill(t0, t.lastActive[ws]);
    }
    var t1 := ShowLastActive(t0, ws);
    StillOnwards(t, t0, t1);
    if taking.Some? {
      CarriedStill(t1, taking.value, t.active, ws);
      StillOnwards(t, t1, Carry(t1, taking.value, t.active, ws));
    }
  }

  lemma {:induction false} ExchangedStill(t: Titlebar, from: Workspace, was: Option<Window>)
    requires Sound(t) && AllSettled(t)
    ensures Still(t, Exchange(t, from, was))
  {
    hide ShowEach, HideEach, AllSettled, AtHome;
    ContentKnown(t, t.active);
    ContentKnown(t, from);
    var t1 := ShowEach(t, ContentOf(t.m.pairs, t.active));
    ShowEachStill(t, ContentOf(t.m.pairs, t.active));
    HideEachStill(t1, ContentOf(t.m.pairs, from), was);
    StillOnwards(t, t1, Exchange(t, from, was));
  }

  lemma {:induction false} SwappedStill(t: Titlebar, from: Workspace, was: Option<Window>)
    requires Sound(t) && (was.Some? ==> was.value in t.m.info) && AllSettled(t)
    ensures Still(t, Swap(t, from, was))
  {
    hide ApplyHidden, Exchange, AllSettled, AtHome;
    var t2 := Exchange(t, from, was);
    ExchangedStill(t, from, was);
    if was.Some? {
      var t3 := ApplyHidden(t2, was.value);
      HidingStill(t2, was.value);
      StillOnwards(t, t2, t3);
      SamePlacedStill(t3, t3.(lastActive := t.lastActive[from := was.value]));
      StillOnwards(t, t3, t3.(lastActive := t.lastActive[from := was.value]));
    }
  }

  /** If every window is where its state puts it, a switch, taking a tree along or not, moves none. */
  lemma {:induction false} SwitchStill(t: Titlebar, ws: Workspace, taking: Option<Window>)
    requires Sound(t) && (taking.Some? ==> taking.value in t.m.info)
    requires (forall w :: w in t.m.mru ==> w in t.m.info) && AllSettled(t)
    ensures Still(t, SwitchTo(t, ws, taking))
  {
    hide Prepared, Swap, AllSettled, AtHome;
    if ws == t.active {
      SamePlacedStill(t, t);
    } else {
      PreparedStill(t, ws, taking);
      SwappedStill(Prepared(t, ws, taking), t.active, ActiveWindow(t.m));
      StillOnwards(t, Prepared(t, ws, taking), SwitchTo(t, ws, taking));
    }
  }

  /** Then after a switch to another workspace and back every window is where it was; but the place to restore a window
      to is kept exactly if it was there already. */
  lemma {:induction false} AwayAndBackPlaces(t: Titlebar, ws: Workspace, w: Window)
    requires TitlebarInvariant(t) && AllSettled(t) && ws != t.active
    requires w in t.m.info && !t.IsDecoration(w) && (t.active, w) in t.m.pairs
    ensures var t2 := Switched(Switched(t, ws), t.active);
            && (forall x :: x in t.m.info ==> t2.m.info[x].surface.rect == t.m.info[x].surface.rect)
            && (t2.m.info[w].EffectiveRestore() == t.m.info[w].EffectiveRestore() <==>
                t.m.info[w].surface.rect == t.m.info[w].EffectiveRestore())
  {
    hide Switched, SwitchTo, AllSettled, AtHome, Still;
    var t1 := Switched(t, ws);
    SwitchedKeeps(t, ws);
    SwitchedKeeps(t1, t.active);
    SwitchStill(t, ws, None);
    StillSettled(t, t1);
    SwitchStill(t1, t.active, None);
    HiddenAway(t, t1, w);
    WhereItWas(t, t1, Switched(t1, t.active), w);
  }

  lemma {:induction false} StillSettled(t: Titlebar, t1: Titlebar)
    requires Still(t, t1)
    ensures AllSettled(t1)
  {
  }

  lemma {:induction false} WhereItWas(t: Titlebar, t1: Titlebar, t2: Titlebar, w: Window)
    requires Still(t, t1) && Still(t1, t2) && w in t.m.info && w in t1.m.info && t1.m.info[w].state.Hidden?
    ensures t2.m.info.Keys == t.m.info.Keys
    ensures forall x :: x in t.m.info ==> t2.m.info[x].surface.rect == t.m.info[x].surface.rect
    ensures t2.m.info[w].EffectiveRestore() == t.m.info[w].EffectiveRestore() <==>
            t.m.info[w].surface.rect == t.m.info[w].EffectiveRestore()
  {
    hide AllSettled;
    HomeAgain(t.m.info[w], t1.m.info[w], t2.m.info[w]);
  }

  lemma {:induction false} HomeAgain(i: WindowInfo, i1: WindowInfo, i2: WindowInfo)
    requires i.surface.rect == i1.surface.rect == i2.surface.rect && i1.state.Hidden? && (AtHome(i1) ==> AtHome(i2))
    ensures i2.EffectiveRestore() == i.EffectiveRestore() <==> i.surface.rect == i.EffectiveRestore()
  {
  }

  lemma {:induction false} HiddenAway(t: Titlebar, t1: Titlebar, w: Window)
    requires TitlebarInvariant(t) && TitlebarInvariant(t1) && w in t.m.info && w in t1.m.info && !t1.IsDecoration(w)
    requires t1.m.pairs == t.m.pairs && t1.active != t.active && (t.active, w) in t.m.pairs
    ensures t1.m.info[w].state.Hidden?
  {
    StateByWorkspace(t1, w);
  }

  // ----- requests while a window is hidden away

  /** A hidden window can be restored to where it is, whatever state it is given back. */
  lemma {:induction false} RevealedHome(i: WindowInfo, value: WindowState, displays: Displays)
    requires i.state.Hidden?
    ensures StateChanged(i, value, displays).EffectiveRestore() == i.surface.rect == i.EffectiveRestore()
  {
  }

  /** A request that asks for no more than a rectangle. */
  lemma {:induction false} ModifiedPlaceOnly(m: Model, w: Window, mods: Modifications)
    requires WellLinked(m.info) && w in m.info
    requires mods == NO_CHANGE.(topLeft := mods.topLeft, size := mods.size)
    ensures Acceptable(m.info, w, mods) && KeepsForest(m.info, w, mods)
    ensures ModifyWindow(m, w, mods) == m.(info := Placed(m.info, w, mods))
  {
    hide Placed, LinksOf, IsForest;
    NothingRelinked(m.info, w, mods);
  }

  lemma {:induction false} WantedInPlace(i: WindowInfo, value: WindowState, displays: Displays)
    requires i.state.Hidden?
    ensures var mods := PlaceAndSizeForState(OnlyState(value), i, displays);
            && mods.(state := None) == NO_CHANGE.(topLeft := mods.topLeft, size := mods.size)
            && var rect := Rectangle(Or(mods.topLeft, i.surface.rect.topLeft), Or(mods.size, i.surface.rect.size));
               rect == i.surface.rect <==> InPlace(i.(state := value), displays)
  {
  }

  /** A request for a state that is not passed on still moves the window to where that state puts it. */
  lemma {:induction false} OnlyMoved(m: Model, w: Window, value: WindowState, displays: Displays)
    requires WellLinked(m.info) && w in m.info && m.info[w].state.Hidden?
    ensures var mods := PlaceAndSizeForState(OnlyState(value), m.info[w], displays).(state := None);
            && Acceptable(m.info, w, mods) && KeepsForest(m.info, w, mods)
            && var m1 := ModifyWindow(m, w, mods);
               && WellLinked(m1.info) && w in m1.info
               && m1.info[w] == m.info[w].PlacedAt(m1.info[w].surface.rect)
               && (m1.info[w].surface.rect == m.info[w].surface.rect <==>
                   InPlace(m.info[w].(state := value), displays))
  {
    hide ModifyWindow, Placed, InPlace, PlaceAndSizeForState, LinksOf, IsForest, Acceptable, KeepsForest;
    var mods := PlaceAndSizeForState(OnlyState(value), m.info[w], displays).(state := None);
    WantedInPlace(m.info[w], value, displays);
    ModifiedPlaceOnly(m, w, mods);
    PlacedEffect(m.info, w, mods);
    assert WellLinked(Placed(m.info, w, mods));
  }

  /** What the request leaves of the window and of what is remembered of it. */
  lemma {:induction false} HandledOutOfSight(t: Titlebar, w: Window, value: WindowState)
    requires Sound(t) && w in t.m.info && t.data[w].inHiddenWorkspace && t.m.info[w].state.Hidden?
    ensures var mods := PlaceAndSizeForState(OnlyState(value), t.m.info[w], t.displays);
            && Acceptable(t.m.info, w, mods) && KeepsForest(t.m.info, w, mods)
            && var t1 := HandleModify(t, w, mods);
               && Sound(t1) && w in t1.m.info && t1.data[w] == PolicyData(true, value) && t1.displays == t.displays
               && t1.m.info[w] == t.m.info[w].PlacedAt(t1.m.info[w].surface.rect)
               && (t1.m.info[w].surface.rect == t.m.info[w].surface.rect <==>
                   InPlace(t.m.info[w].(state := value), t.displays))
  {
    hide ModifyWindow, InPlace, LinksOf, IsForest, KnownWindows, Below;
    var mods := PlaceAndSizeForState(OnlyState(value), t.m.info[w], t.displays);
    OnlyMoved(t.m, w, value, t.displays);
    HandledSound(t, w, mods);
  }

  /** Once shown it can be restored to where it was out of sight. */
  lemma {:induction false} ShownHome(t: Titlebar, w: Window)
    requires Sound(t) && w in t.m.info && t.data[w].inHiddenWorkspace && t.m.info[w].state.Hidden?
    ensures var t2 := ApplyVisible(t, w);
            && t2.m.info[w].state == t.data[w].oldState && !t2.data[w].inHiddenWorkspace
            && t2.m.info[w].EffectiveRestore() == t.m.info[w].surface.rect
  {
    hide ChangeState, WellLinked, KnownWindows, LinksOf;
    RevealedHome(t.m.info[w], t.data[w].oldState, t.displays);
    ChangeStateEffect(t.m, w, t.data[w].oldState, t.displays);
  }

  /** A window that is hidden away and asked for a state alone has the place to restore it to when it is shown exactly
      if it already is where that state puts it. A visible one would always keep that place. */
  lemma {:induction false} AskedOutOfSight(t: Titlebar, w: Window, value: WindowState)
    requires Sound(t) && w in t.m.info && t.data[w].inHiddenWorkspace && t.m.info[w].state.Hidden?
    ensures var mods := PlaceAndSizeForState(OnlyState(value), t.m.info[w], t.displays);
            && Acceptable(t.m.info, w, mods) && KeepsForest(t.m.info, w, mods) && Sound(HandleModify(t, w, mods))
            && var t2 := ApplyVisible(HandleModify(t, w, mods), w);
               && t2.m.info[w].state == value && !t2.data[w].inHiddenWorkspace
               && (t2.m.info[w].EffectiveRestore() == t.m.info[w].EffectiveRestore() <==>
                   InPlace(t.m.info[w].(state := value), t.displays))
  {
    hide HandleModify, ApplyVisible, InPlace, Sound, Acceptable, KeepsForest, PlaceAndSizeForState;
    HandledOutOfSight(t, w, value);
    ShownHome(HandleModify(t, w, PlaceAndSizeForState(OnlyState(value), t.m.info[w], t.displays)), w);
  }

  /** Any request to a window that is hidden away: when its workspace is back, and every window is where it is meant to
      be, it is where the request put it, and that is the place to restore it to. */
  lemma {:induction false} AskedMeanwhilePlaces(t: Titlebar, ws: Workspace, w: Window, request: Modifications)
    requires TitlebarInvariant(t) && ws != t.active && w in t.m.info && !t.IsDecoration(w) && (ws, w) in t.m.pairs
    requires Enabled(t, Ask(w, request)) && AllSettled(After(t, Ask(w, request)))
    ensures var t1 := After(t, Ask(w, request));
            && TitlebarInvariant(t1) && t1.active == t.active && w in t1.m.info
            && var t2 := Switched(t1, ws);
               && t2.m.info[w].surface.rect == t1.m.info[w].surface.rect
               && (t2.m.info[w].EffectiveRestore() == t.m.info[w].EffectiveRestore() <==>
                   t1.m.info[w].surface.rect == t.m.info[w].surface.rect)
  {
    hide Switched, SwitchTo, Enabled, After, AllSettled, Invariants, FlaggedAreHidden, Assigned, FlagsRight;
    hide DecorationsInactive, WellLinked, LinksOf, KnownWindows, SameIntentions, IntentionsAfter;
    var t1 := After(t, Ask(w, request));
    AskKeeps(t, w, request);
    AskedWhere(t, w, request);
    OutOfSight(t, ws, w);
    OutOfSight(t1, ws, w);
    SwitchedKeeps(t1, ws);
    MruKnown(t1);
    SwitchStill(t1, ws, None);
    assert AtHome(t1.m.info[w]);
  }

  lemma {:induction false} MruKnown(t: Titlebar)
    requires TitlebarInvariant(t)
    ensures forall w :: w in t.m.mru ==> w in t.m.info
  {
  }
}
