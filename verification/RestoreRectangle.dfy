/** The rectangle a window goes back to when it is restored, under any sequence of changes of state. */
module RestoreRectangle {
  import opened Sequences
  import opened Geometry
  import opened Forest
  import opened WindowModel
  import opened WindowStates

  /** A new window is what it was asked to be, where it was asked to be, and to be restored there; it has no children
      and has not posted a buffer. It comes last among its parent's children, and all else is as it was. */
  lemma {:induction false} NewWindowAsAsked(m: Model, w: Window, spec: NewWindow)
    requires WellLinked(m.info) && w !in m.info && (spec.parent.Some? ==> spec.parent.value in m.info)
    ensures AsAsked(m.info, w, spec, AddWindow(m, w, spec).info)
  {
    hide WithNewWindow, AsAsked, WellLinked, WorkspaceListOf;
    NewWindowLinks(m.info, w, spec);
    NewEntries(m.info, w, spec);
  }

  ghost predicate AsAsked(info: Windows, w: Window, spec: NewWindow, now: Windows) {
    && now.Keys == info.Keys + {w}
    && now[w].application == spec.application && now[w].kind == spec.kind
    && now[w].state == spec.state && now[w].surface.state == spec.state
    && now[w].restoreRect == spec.rect && now[w].surface.rect == spec.rect
    && now[w].limits == spec.limits && now[w].outputId == spec.outputId
    && now[w].node == Node(spec.parent, []) && now[w].surface.shown && !now[w].surface.ready
    && forall x :: x in info ==>
         var Node(parent, children) := info[x].node;
         now[x] == info[x].(node := Node(parent, if spec.parent == Some(x) then children + [w] else children))
  }

  lemma {:induction false} NewEntries(info: Windows, w: Window, spec: NewWindow)
    requires w !in info && (spec.parent.Some? ==> spec.parent.value in info)
    ensures AsAsked(info, w, spec, WithNewWindow(info, w, spec))
  {
    AddLeafLinks(LinksOf(info), w, spec.parent);
  }

  function OnlyState(value: WindowState): Modifications {
    NO_CHANGE.(state := Some(value))
  }

  lemma {:induction false} OnlyStateIsFine(info: Windows, w: Window, value: WindowState)
    requires WellLinked(info) && w in info
    ensures Acceptable(info, w, OnlyState(value)) && KeepsForest(info, w, OnlyState(value))
  {
  }

  /** A request to change the state of w and nothing else. */
  ghost function ChangeState(m: Model, w: Window, value: WindowState, displays: Displays): Model
    requires WellLinked(m.info) && w in m.info
  {
    OnlyStateIsFine(m.info, w, value);
    ClientModify(m, w, OnlyState(value), displays)
  }

  /** set_state touches no window but w, and of w only the state and whether it is shown. */
  lemma {:induction false} SetStateEffect(m: Model, w: Window, value: WindowState)
    requires WellLinked(m.info) && w in m.info
    ensures SetState(m, w, value).pairs == m.pairs
    ensures SetState(m, w, value).info ==
            if m.info[w].state == value then m.info else WithSurfaceState(WithState(m.info, w, value), w, value)
  {
    StateKeepsLinks(m.info, w, value);
  }

  /** What a change of state does to the window's own entry. */
  function StateChanged(i: WindowInfo, value: WindowState, displays: Displays): WindowInfo {
    if i.state == value then i
    else
      var mods := PlaceAndSizeForState(OnlyState(value), i, displays);
      var rect := Rectangle(Or(mods.topLeft, i.surface.rect.topLeft), Or(mods.size, i.surface.rect.size));
      i.(state := value, restoreRect := i.EffectiveRestore(),
         surface := Surface(rect, value, !value.Conceals(), i.surface.ready))
  }

  lemma {:induction false} ChangeStateSteps(m: Model, w: Window, value: WindowState, displays: Displays)
    requires WellLinked(m.info) && w in m.info
    ensures var mods := PlaceAndSizeForState(OnlyState(value), m.info[w], displays);
            var info2 := Noted(m.info, w, mods);
            && WellLinked(info2) && WellLinked(Placed(info2, w, mods))
            && LinksOf(Placed(info2, w, mods)) == LinksOf(m.info)
            && ChangeState(m, w, value, displays) == SetState(m.(info := Placed(info2, w, mods)), w, value)
  {
    hide Placed, LinksOf;
    var mods := PlaceAndSizeForState(OnlyState(value), m.info[w], displays);
    OnlyStateIsFine(m.info, w, value);
    RelinkedWellLinked(m.info, w, mods);
    NothingRelinked(m.info, w, mods);
    StepsKeepLinks(m.info, w, mods);
    StepsKeepLinks(Noted(m.info, w, mods), w, mods);
  }

  lemma {:induction false} ChangeStateEffect(m: Model, w: Window, value: WindowState, displays: Displays)
    requires WellLinked(m.info) && w in m.info
    ensures var m' := ChangeState(m, w, value, displays);
            && LinksOf(m'.info) == LinksOf(m.info)
            && w in m'.info && m'.info[w] == StateChanged(m.info[w], value, displays)
  {
    hide WellLinked, ChangeState, LinksOf, SetState;
    var mods := PlaceAndSizeForState(OnlyState(value), m.info[w], displays);
    ChangeStateSteps(m, w, value, displays);
    PlacedEffect(Noted(m.info, w, mods), w, mods);
    var info3 := Placed(Noted(m.info, w, mods), w, mods);
    SetStateEffect(m.(info := info3), w, value);
    StateKeepsLinks(info3, w, value);
    StateKeepsLinks(WithState(info3, w, value), w, value);
    if m.info[w].state == value {
      assert mods == OnlyState(value);
    }
  }

  /** Of the other windows at most the place changes. */
  ghost predicate OnlyPlacesDiffer(info: Windows, info': Windows, w: Window) {
    && info'.Keys == info.Keys
    && forall x :: x in info && x != w ==> info'[x] == info[x].PlacedAt(info'[x].surface.rect)
  }

  lemma {:induction false} PlacedElsewhere(info: Windows, w: Window, mods: Modifications)
    requires WellLinked(info) && w in info
    ensures OnlyPlacesDiffer(info, Placed(info, w, mods), w)
  {
  }

  lemma {:induction false} ChangeStateElsewhere(m: Model, w: Window, value: WindowState, displays: Displays)
    requires WellLinked(m.info) && w in m.info
    ensures OnlyPlacesDiffer(m.info, ChangeState(m, w, value, displays).info, w)
    ensures ChangeState(m, w, value, displays).pairs == m.pairs
  {
    hide Placed, SetState, LinksOf;
    var mods := PlaceAndSizeForState(OnlyState(value), m.info[w], displays);
    ChangeStateSteps(m, w, value, displays);
    var info2 := Noted(m.info, w, mods);
    PlacedElsewhere(info2, w, mods);
    var m3 := m.(info := Placed(info2, w, mods));
    StateSetElsewhere(m3, w, value);
    OthersUntouched(m.info, info2, m3.info, SetState(m3, w, value).info, w);
  }

  lemma {:induction false} StateSetElsewhere(m: Model, w: Window, value: WindowState)
    requires WellLinked(m.info) && w in m.info
    ensures SetState(m, w, value).pairs == m.pairs && SetState(m, w, value).info.Keys == m.info.Keys
    ensures forall x :: x in m.info && x != w ==> SetState(m, w, value).info[x] == m.info[x]
  {
    SetStateEffect(m, w, value);
  }

  lemma {:induction false} OthersUntouched(info: Windows, info2: Windows, info3: Windows, info4: Windows, w: Window)
    requires info2.Keys == info.Keys && info4.Keys == info3.Keys && OnlyPlacesDiffer(info2, info3, w)
    requires forall x :: x in info && x != w ==> info2[x] == info[x]
    requires forall x :: x in info3 && x != w ==> info4[x] == info3[x]
    ensures OnlyPlacesDiffer(info, info4, w)
  {
  }

  lemma {:induction false} NothingRelinked(info: Windows, w: Window, mods: Modifications)
    requires w in info && mods.parent.None? && mods.kind.None? && mods.outputId.None? && mods.limits == SAME_LIMITS
    ensures Relinked(info, w, mods) == info
  {
    assert Reparent(LinksOf(info), w, info[w].node.parent) == LinksOf(info);
  }

  lemma {:induction false} PlacedEffect(info: Windows, w: Window, mods: Modifications)
    requires WellLinked(info) && w in info && mods.limits == SAME_LIMITS && mods.place.None?
    ensures var rect := info[w].surface.rect;
            Placed(info, w, mods)[w] ==
            info[w].PlacedAt(Rectangle(Or(mods.topLeft, rect.topLeft), Or(mods.size, rect.size)))
  {
  }

  /** A change of state keeps the rectangle to go back to, whatever the displays, exactly when it does not hide a
      window that is away from that rectangle in a state other than restored. */
  lemma {:induction false} RestoreRectKept(m: Model, w: Window, value: WindowState, displays: Displays)
    requires WellLinked(m.info) && w in m.info
    ensures var i := m.info[w]; var m' := ChangeState(m, w, value, displays);
            && w in m'.info
            && (m'.info[w].EffectiveRestore() == i.EffectiveRestore() <==>
                  !value.Hidden? || i.state.Restored? || i.state.Hidden? || i.surface.rect == i.EffectiveRestore())
            && (value.Restored? ==> m'.info[w].surface.rect == i.EffectiveRestore())
  {
    ChangeStateEffect(m, w, value, displays);
  }

  // ----- sequences of changes

  ghost function ChangeStates(m: Model, w: Window, steps: seq<(WindowState, Displays)>): (r: Model)
    requires WellLinked(m.info) && w in m.info
    ensures WellLinked(r.info) && w in r.info
    decreases |steps|
  {
    if steps == [] then m
    else
      var m1 := ChangeStates(m, w, steps[..|steps| - 1]);
      var (value, displays) := steps[|steps| - 1];
      ChangeStateEffect(m1, w, value, displays);
      ChangeState(m1, w, value, displays)
  }

  lemma {:induction false} RestoreRectKeptThroughout(m: Model, w: Window, steps: seq<(WindowState, Displays)>)
    requires WellLinked(m.info) && w in m.info
    requires forall k :: 0 <= k < |steps| ==> !steps[k].0.Hidden?
    ensures ChangeStates(m, w, steps).info[w].EffectiveRestore() == m.info[w].EffectiveRestore()
    decreases |steps|
  {
    if steps != [] {
      RestoreRectKeptThroughout(m, w, steps[..|steps| - 1]);
      var m1 := ChangeStates(m, w, steps[..|steps| - 1]);
      RestoreRectKept(m1, w, steps[|steps| - 1].0, steps[|steps| - 1].1);
    }
  }

  /** However often the state changes and however the displays change meanwhile: short of hiding it, a restored
      window that ends up restored again is back where it was. */
  lemma {:induction false} RoundTrip(m: Model, w: Window, steps: seq<(WindowState, Displays)>)
    requires WellLinked(m.info) && w in m.info && m.info[w].state.Restored?
    requires forall k :: 0 <= k < |steps| ==> !steps[k].0.Hidden?
    requires |steps| > 0 && steps[|steps| - 1].0.Restored?
    ensures ChangeStates(m, w, steps).info[w].surface.rect == m.info[w].surface.rect
  {
    RestoreRectKeptThroughout(m, w, steps[..|steps| - 1]);
    RestoreRectKept(ChangeStates(m, w, steps[..|steps| - 1]), w, steps[|steps| - 1].0, steps[|steps| - 1].1);
  }

  lemma {:induction false} LastStep(
      m: Model, w: Window, steps: seq<(WindowState, Displays)>, step: (WindowState, Displays))
    requires WellLinked(m.info) && w in m.info
    ensures ChangeStates(m, w, steps + [step]).info[w] ==
            StateChanged(ChangeStates(m, w, steps).info[w], step.0, step.1)
  {
    assert (steps + [step])[..|steps + [step]| - 1] == steps;
    ChangeStateEffect(ChangeStates(m, w, steps), w, step.0, step.1);
  }

  lemma {:induction false} ThreeSteps(
      m: Model, w: Window, a: (WindowState, Displays), b: (WindowState, Displays), c: (WindowState, Displays))
    requires WellLinked(m.info) && w in m.info
    ensures ChangeStates(m, w, [a, b, c]).info[w] ==
            StateChanged(StateChanged(StateChanged(m.info[w], a.0, a.1), b.0, b.1), c.0, c.1)
  {
    hide ChangeState;
    LastStep(m, w, [], a);
    assert [] + [a] == [a];
    LastStep(m, w, [a], b);
    assert [a] + [b] == [a, b];
    LastStep(m, w, [a, b], c);
    assert [a, b] + [c] == [a, b, c];
  }

  /** Hidden while maximized, a window does not find back: restoring it leaves it on the whole display area. */
  lemma {:induction false} HiddenWhileMaximized(m: Model, w: Window, displays: Displays)
    requires WellLinked(m.info) && w in m.info && m.info[w].state.Restored?
    ensures var steps := [(Maximized, displays), (Hidden, displays), (Restored, displays)];
            ChangeStates(m, w, steps).info[w].surface.rect == displays.area
  {
    ThreeSteps(m, w, (Maximized, displays), (Hidden, displays), (Restored, displays));
    HiddenEntry(m.info[w], displays);
  }

  lemma {:induction false} HiddenEntry(i: WindowInfo, displays: Displays)
    requires i.state.Restored?
    ensures StateChanged(StateChanged(StateChanged(i, Maximized, displays), Hidden, displays), Restored, displays)
            .surface.rect == displays.area
  {
  }

  /** The rectangle is one the state leaves a window in. */
  predicate InPlace(i: WindowInfo, displays: Displays) {
    var rect, area := i.surface.rect, displays.area;
    match i.state
    case Maximized => rect == area
    case VertMaximized => rect.topLeft.y == area.topLeft.y && rect.size.height == area.size.height
    case HorizMaximized => rect.topLeft.x == area.topLeft.x && rect.size.width == area.size.width
    case Fullscreen => displays.fullscreen(i.outputId, rect) == rect
    case _ => true
  }

  /** Hidden and given its state back, a window that was not hidden before is where it was exactly if it was in place,
      and is restored to where it would have been exactly if it is there already: the cached rectangle is lost. */
  lemma {:induction false} HiddenAndBack(m: Model, w: Window, displays: Displays)
    requires WellLinked(m.info) && w in m.info && !m.info[w].state.Hidden?
    ensures var i := m.info[w]; var m1 := ChangeState(m, w, Hidden, displays);
            && WellLinked(m1.info) && w in m1.info
            && var m2 := ChangeState(m1, w, i.state, displays);
               && w in m2.info && m2.info[w].state == i.state
               && (m2.info[w].surface.rect == i.surface.rect <==> InPlace(i, displays))
               && (InPlace(i, displays) ==>
                     (m2.info[w].EffectiveRestore() == i.EffectiveRestore() <==>
                      i.surface.rect == i.EffectiveRestore()))
  {
    ChangeStateEffect(m, w, Hidden, displays);
    var m1 := ChangeState(m, w, Hidden, displays);
    ChangeStateEffect(m1, w, m.info[w].state, displays);
    BackInPlace(m.info[w], displays);
  }

  lemma {:induction false} BackInPlace(i: WindowInfo, displays: Displays)
    requires !i.state.Hidden?
    ensures var i2 := StateChanged(StateChanged(i, Hidden, displays), i.state, displays);
            && i2.state == i.state && (i2.surface.rect == i.surface.rect <==> InPlace(i, displays))
            && (InPlace(i, displays) ==>
                  (i2.EffectiveRestore() == i.EffectiveRestore() <==> i.surface.rect == i.EffectiveRestore()))
  {
  }
}
