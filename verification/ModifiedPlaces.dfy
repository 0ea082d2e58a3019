/** What modify_window accepts, and what it leaves of a window: its type, parent and limits, and its place. */
module ModifiedPlaces {
  import opened Sequences
  import opened Geometry
  import opened Forest
  import opened WindowModel
  import opened WindowStates
  import opened RestoreRectangle
  import C = ConstrainResizing

  lemma {:induction false} RectIs(info: Windows, w: Window, rect: Option<Rectangle>)
    requires WellLinked(info) && w in info
    ensures PlacedIf(info, w, rect)[w].surface.rect == Or(rect, info[w].surface.rect)
  {
  }

  lemma {:induction false} ParentNotBelow(f: Links, w: Window, p: Window)
    requires IsForest(f) && IsParent(f, p, w)
    ensures p in f && p != w && !Below(f, w, p)
  {
    ParentRank(f, p, w);
    if Below(f, w, p) {
      BelowRank(f, w, p);
    }
  }

  lemma {:induction false} ParentStays(info: Windows, w: Window, rect: Option<Rectangle>)
    requires WellLinked(info) && w in info && info[w].node.parent.Some?
    ensures var p := info[w].node.parent.value; p in info && PlacedIf(info, w, rect)[p] == info[p]
  {
    var p := info[w].node.parent.value;
    assert IsParent(LinksOf(info), p, w);
    ParentNotBelow(LinksOf(info), w, p);
  }

  /** r is the first of the candidates beside the parent that is inside the display. */
  ghost predicate BesideParent(parent: Rectangle, place: RelativePlace, size: Size, r: Rectangle) {
    P.IsFirstFit(place.display, P.Candidates(place.display, parent, place.placing, size),
                 P.Plain(parent, place.placing, size), r)
  }

  /** Of a window that is given a place beside its parent the parent stays where it is, and the window has the first of
      its candidates there that is inside the display. */
  lemma {:induction false} PlacedBeside(info: Windows, w: Window, mods: Modifications)
    requires WellLinked(info) && w in info && mods.place.Some? && info[w].node.parent.Some?
    ensures var p, r := info[w].node.parent.value, Placed(info, w, mods);
            var size := Or(mods.size, Or(NewRect(info[w], mods), info[w].surface.rect).size);
            && p in info && r[p].surface.rect == info[p].surface.rect
            && BesideParent(info[p].surface.rect, mods.place.value, size, r[w].surface.rect)
  {
    var p := info[w].node.parent.value;
    var info1 := PlacedIf(info, w, NewRect(info[w], mods));
    RectIs(info, w, NewRect(info[w], mods));
    ParentStays(info, w, NewRect(info[w], mods));
    RectIs(info1, w, NewRectByParent(info1, w, mods));
    ParentStays(info1, w, NewRectByParent(info1, w, mods));
    P.PlacedIsFirstFit(mods.place.value.display, info[p].surface.rect, mods.place.value.placing,
                       Or(mods.size, info1[w].surface.rect.size));
  }

  /** modify_window leaves the window where placing it does: what set_state does after that moves nothing. */
  lemma {:induction false} ModifiedIsPlaced(m: Model, w: Window, mods: Modifications)
    requires WellLinked(m.info) && w in m.info && Acceptable(m.info, w, mods) && KeepsForest(m.info, w, mods)
    ensures var info2 := Noted(Relinked(m.info, w, mods), w, mods);
            && WellLinked(info2) && w in info2 && ModifyWindow(m, w, mods).info.Keys == m.info.Keys
            && forall x :: x in m.info ==>
                 ModifyWindow(m, w, mods).info[x].surface.rect == Placed(info2, w, mods)[x].surface.rect
  {
    hide Placed, LinksOf, SetState;
    RelinkedWellLinked(m.info, w, mods);
    var info2 := Noted(Relinked(m.info, w, mods), w, mods);
    if mods.state.Some? {
      SetStateEffect(m.(info := Placed(info2, w, mods)), w, mods.state.value);
    }
  }

  // ----- the windows below

  /** The windows below w keep their sizes and their places relative to it, and all that are not below it stay. */
  ghost predicate MovedTogether(f: Links, info: Windows, info': Windows, w: Window)
    requires IsForest(f) && w in f && w in info && w in info'
  {
    var was, now := info[w].surface.rect, info'[w].surface.rect;
    forall x :: x in info && x in info' && x in f && x != w ==>
      var before, after := info[x].surface.rect, info'[x].surface.rect;
      if Below(f, w, x)
      then && after.size == before.size
           && after.Left() - now.Left() == before.Left() - was.Left()
           && after.Top() - now.Top() == before.Top() - was.Top()
      else after == before
  }

  lemma {:induction false} TogetherOnwards(f: Links, a: Windows, b: Windows, c: Windows, w: Window)
    requires IsForest(f) && w in f && w in a && b.Keys == a.Keys && c.Keys == a.Keys
    requires MovedTogether(f, a, b, w) && MovedTogether(f, b, c, w)
    ensures MovedTogether(f, a, c, w)
  {
  }

  lemma {:induction false} PlacingMovesTogether(info: Windows, w: Window, rect: Option<Rectangle>)
    requires WellLinked(info) && w in info
    ensures MovedTogether(LinksOf(info), info, PlacedIf(info, w, rect), w)
  {
  }

  lemma {:induction false} TreeMovesTogether(info: Windows, w: Window, movement: Displacement)
    requires WellLinked(info) && w in info
    ensures var r := MoveTree(info, w, movement);
            && MovedTogether(LinksOf(info), info, r, w)
            && r[w].surface.rect.size == info[w].surface.rect.size
            && r[w].surface.rect.Left() == info[w].surface.rect.Left() + movement.dx
            && r[w].surface.rect.Top() == info[w].surface.rect.Top() + movement.dy
  {
  }

  lemma {:induction false} PlacedTogether(info: Windows, w: Window, mods: Modifications)
    requires WellLinked(info) && w in info
    ensures MovedTogether(LinksOf(info), info, Placed(info, w, mods), w)
  {
    hide MovedTogether, NewRect, NewRectByParent;
    var info1 := PlacedIf(info, w, NewRect(info[w], mods));
    PlacingMovesTogether(info, w, NewRect(info[w], mods));
    PlacingMovesTogether(info1, w, NewRectByParent(info1, w, mods));
    TogetherOnwards(LinksOf(info), info, info1, Placed(info, w, mods), w);
  }

  lemma {:induction false} SameRects(f: Links, a: Windows, a': Windows, b: Windows, b': Windows, w: Window)
    requires IsForest(f) && w in f && w in a && a'.Keys == a.Keys && b.Keys == a.Keys && b'.Keys == a.Keys
    requires MovedTogether(f, a, b, w)
    requires forall x :: x in a ==> a'[x].surface.rect == a[x].surface.rect && b'[x].surface.rect == b[x].surface.rect
    ensures MovedTogether(f, a', b', w)
  {
    hide IsForest, Below;
  }

  /** After the whole of modify_window, however the window is moved, resized or placed, those that are then below it
      have moved along with it, and all others are where they were. */
  lemma {:induction false} ModifiedTogether(m: Model, w: Window, mods: Modifications)
    requires WellLinked(m.info) && w in m.info && Acceptable(m.info, w, mods) && KeepsForest(m.info, w, mods)
    ensures var f := Reparent(LinksOf(m.info), w, NewParent(m.info[w], mods)); var r := ModifyWindow(m, w, mods).info;
            && IsForest(f) && w in f && r.Keys == m.info.Keys && MovedTogether(f, m.info, r, w)
  {
    hide ModifyWindow, Placed, Relinked, Noted, Reparent, NewParent, MovedTogether, CopiedAsAsked;
    RelinkedWellLinked(m.info, w, mods);
    RelinkedAsAsked(m.info, w, mods);
    var info2 := Noted(Relinked(m.info, w, mods), w, mods);
    StepsKeepLinks(m.info, w, mods);
    StepsKeepLinks(Relinked(m.info, w, mods), w, mods);
    PlacedTogether(info2, w, mods);
    ModifiedIsPlaced(m, w, mods);
    SameRects(LinksOf(info2), info2, m.info, Placed(info2, w, mods), ModifyWindow(m, w, mods).info, w);
  }

  // ----- what is accepted and copied

  /** The changes that are accepted: a parent that is known; and another type exactly of these, one without parents only
      if none is asked for, and a satellite only if it has or gets one. */
  lemma {:induction false} AcceptedExactly(info: Windows, w: Window, mods: Modifications)
    requires w in info
    ensures var now := info[w].kind; var wanted := if mods.kind.Some? then mods.kind.value else now;
            Acceptable(info, w, mods) <==>
              && (mods.parent.Some? ==> mods.parent.value in info)
              && (|| wanted == now
                  || (wanted in {Normal, Utility} && now in {Normal, Utility, Dialog, Satellite} && mods.parent.None?)
                  || (wanted == Satellite && now in {Normal, Utility, Dialog, Satellite} &&
                      (mods.parent.Some? || info[w].node.parent.Some?))
                  || (wanted == Dialog && now in {Normal, Utility, Dialog, Menu, Satellite}))
  {
  }

  /** Each limit is the one asked for if one was, and the former one if not. */
  ghost predicate LimitsAsAsked(asked: LimitChanges, former: C.Limits, now: C.Limits) {
    && (if asked.minWidth.Some? then now.minWidth == asked.minWidth.value else now.minWidth == former.minWidth)
    && (if asked.minHeight.Some? then now.minHeight == asked.minHeight.value else now.minHeight == former.minHeight)
    && (if asked.maxWidth.Some? then now.maxWidth == asked.maxWidth.value else now.maxWidth == former.maxWidth)
    && (if asked.maxHeight.Some? then now.maxHeight == asked.maxHeight.value else now.maxHeight == former.maxHeight)
    && (if asked.widthInc.Some? then now.widthInc == asked.widthInc.value else now.widthInc == former.widthInc)
    && (if asked.heightInc.Some? then now.heightInc == asked.heightInc.value else now.heightInc == former.heightInc)
    && (if asked.minAspect.Some? then now.minAspect == asked.minAspect.value else now.minAspect == former.minAspect)
    && (if asked.maxAspect.Some? then now.maxAspect == asked.maxAspect.value else now.maxAspect == former.maxAspect)
  }

  /** What is asked for, and nothing else, is copied: a window that becomes normal or a utility loses its parent. */
  ghost predicate CopiedAsAsked(mods: Modifications, i: WindowInfo, i': WindowInfo) {
    && i'.application == i.application
    && (if mods.kind.Some? then i'.kind == mods.kind.value else i'.kind == i.kind)
    && (if mods.outputId.Some? then i'.outputId == mods.outputId else i'.outputId == i.outputId)
    && LimitsAsAsked(mods.limits, i.limits, i'.limits)
    && (if i'.kind != i.kind && i'.kind in {Normal, Utility} then i'.node.parent.None?
        else if mods.parent.Some? then i'.node.parent == mods.parent else i'.node.parent == i.node.parent)
  }

  lemma {:induction false} RelinkedAsAsked(info: Windows, w: Window, mods: Modifications)
    requires WellLinked(info) && w in info && Acceptable(info, w, mods) && KeepsForest(info, w, mods)
    ensures w in Relinked(info, w, mods)
    ensures var info2 := Noted(Relinked(info, w, mods), w, mods);
            && WellLinked(info2) && info2.Keys == info.Keys
            && CopiedAsAsked(mods, info[w], info2[w]) && info2[w].state == info[w].state
            && info2[w].surface == info[w].surface
            && forall x :: x in info && x != w ==> info2[x] == info[x].(node := info2[x].node)
  {
    hide IsForest, Reparent;
    RelinkedWellLinked(info, w, mods);
    ReparentedParent(LinksOf(info), w, NewParent(info[w], mods));
    RelinkedLinks(info, w, mods);
  }

  lemma {:induction false} ReparentedParent(f: Links, w: Window, parent: Option<Window>)
    requires w in f
    ensures w in Reparent(f, w, parent) && Reparent(f, w, parent)[w].parent == parent
  {
  }

  lemma {:induction false} RelinkedLinks(info: Windows, w: Window, mods: Modifications)
    requires w in info
    ensures var r := Relinked(info, w, mods); var links := Reparent(LinksOf(info), w, NewParent(info[w], mods));
            && r.Keys == info.Keys && r.Keys <= links.Keys
            && forall x :: x in info ==> r[x].node == links[x]
  {
  }

  /** So after modify_window each attribute of the window is the one asked for if it was, and the former one if not; of
      the other windows at most the links and the place are others. */
  lemma {:induction false} ModifiedAsAsked(m: Model, w: Window, mods: Modifications)
    requires WellLinked(m.info) && w in m.info && Acceptable(m.info, w, mods) && KeepsForest(m.info, w, mods)
    ensures var m' := ModifyWindow(m, w, mods);
            && m'.info.Keys == m.info.Keys
            && CopiedAsAsked(mods, m.info[w], m'.info[w])
            && (if mods.state.Some? then m'.info[w].state == mods.state.value
                else m'.info[w].state == m.info[w].state)
            && m'.info[w].surface.ready == m.info[w].surface.ready
            && forall x :: x in m.info && x != w ==>
                 m'.info[x] == m.info[x].(node := m'.info[x].node, surface := m'.info[x].surface) &&
                 m'.info[x].surface == m.info[x].surface.(rect := m'.info[x].surface.rect)
  {
    hide Placed, LinksOf, SetState, Relinked, Noted, CopiedAsAsked, Acceptable, KeepsForest, IsForest;
    RelinkedAsAsked(m.info, w, mods);
    RelinkedWellLinked(m.info, w, mods);
    var info2 := Noted(Relinked(m.info, w, mods), w, mods);
    var m3 := m.(info := Placed(info2, w, mods));
    OnlyCopied(mods, m.info[w], info2[w], m3.info[w]);
    if mods.state.Some? {
      SetStateEffect(m3, w, mods.state.value);
      OnlyCopied(mods, m.info[w], m3.info[w], SetState(m3, w, mods.state.value).info[w]);
    }
  }

  lemma {:induction false} OnlyCopied(mods: Modifications, i: WindowInfo, i1: WindowInfo, i2: WindowInfo)
    requires CopiedAsAsked(mods, i, i1)
    requires i2.application == i1.application && i2.kind == i1.kind && i2.outputId == i1.outputId
    requires i2.limits == i1.limits && i2.node == i1.node
    ensures CopiedAsAsked(mods, i, i2)
  {
  }

  // ----- where the window is then

  /** Anything but aspect ratios is asked for. */
  ghost predicate BoundsAsked(limits: LimitChanges) {
    limits.(minAspect := None, maxAspect := None) != SAME_LIMITS
  }

  /** Without a place beside the parent: a size asked for wins; then new limits have their say on the present size; then
      a position alone moves the window. */
  lemma {:induction false} ModifiedWhere(m: Model, w: Window, mods: Modifications)
    requires WellLinked(m.info) && w in m.info && Acceptable(m.info, w, mods) && KeepsForest(m.info, w, mods)
    requires mods.place.None?
    ensures var m', rect := ModifyWindow(m, w, mods), m.info[w].surface.rect;
            var pos := if mods.topLeft.Some? then mods.topLeft.value else rect.topLeft;
            && m'.info.Keys == m.info.Keys
            && m'.info[w].surface.rect ==
               if mods.size.Some? then Rectangle(pos, mods.size.value)
               else if !BoundsAsked(mods.limits) then Rectangle(pos, rect.size)
               else Or(C.Constrained(m'.info[w].limits, m.info[w].state, rect, pos, rect.size), rect)
  {
    hide ModifyWindow, Placed, PlacedIf, Noted, Relinked, LinksOf;
    ModifiedAsAsked(m, w, mods);
    RelinkedAsAsked(m.info, w, mods);
    var info2 := Noted(Relinked(m.info, w, mods), w, mods);
    ModifiedIsPlaced(m, w, mods);
    AskedTwice(mods.limits, m.info[w].limits, info2[w].limits, ModifyWindow(m, w, mods).info[w].limits);
    RectIs(info2, w, NewRect(info2[w], mods));
    PlacedWithoutPlace(info2, w, mods);
  }

  lemma {:induction false} PlacedWithoutPlace(info: Windows, w: Window, mods: Modifications)
    requires WellLinked(info) && w in info && mods.place.None?
    ensures Placed(info, w, mods) == PlacedIf(info, w, NewRect(info[w], mods))
  {
  }

  lemma {:induction false} AskedTwice(asked: LimitChanges, former: C.Limits, a: C.Limits, b: C.Limits)
    requires LimitsAsAsked(asked, former, a) && LimitsAsAsked(asked, former, b)
    ensures a == b
  {
  }

  /** A restored window that is given new limits, and neither a size nor a place, has the size they make of its own; and
      it stays where it is unless a position is asked for. */
  lemma {:induction false} LimitsTakeEffect(m: Model, w: Window, mods: Modifications)
    requires WellLinked(m.info) && w in m.info && Acceptable(m.info, w, mods) && KeepsForest(m.info, w, mods)
    requires BoundsAsked(mods.limits) && mods.size.None? && mods.place.None? && m.info[w].state.Restored?
    ensures ModifyWindow(m, w, mods).info.Keys == m.info.Keys
    ensures var i, i' := m.info[w], ModifyWindow(m, w, mods).info[w];
            && LimitsAsAsked(mods.limits, i.limits, i'.limits)
            && (C.Defined(i'.limits, i.surface.rect.size) ==>
                  i'.surface.rect.size == C.ConstrainedSize(i'.limits, i.surface.rect.size))
            && (mods.topLeft.None? ==> i'.surface.rect.topLeft == i.surface.rect.topLeft)
  {
    hide WellLinked, ModifyWindow, LinksOf;
    ModifiedAsAsked(m, w, mods);
    ModifiedWhere(m, w, mods);
  }

  /** The rectangle a window would be restored to: on each axis its own where its state leaves that to it, and the
      cached one where not. */
  ghost predicate WouldRestore(i: WindowInfo, back: Rectangle) {
    && (if i.state in {Restored, Hidden, VertMaximized}
        then back.Left() == i.surface.rect.Left() && back.size.width == i.surface.rect.size.width
        else back.Left() == i.restoreRect.Left() && back.size.width == i.restoreRect.size.width)
    && (if i.state in {Restored, Hidden, HorizMaximized}
        then back.Top() == i.surface.rect.Top() && back.size.height == i.surface.rect.size.height
        else back.Top() == i.restoreRect.Top() && back.size.height == i.restoreRect.size.height)
  }

  lemma {:induction false} RestoresThere(i: WindowInfo, back: Rectangle)
    ensures WouldRestore(i, back) <==> back == i.EffectiveRestore()
  {
  }

  /** Where a client's request for another state leaves the window, with or without geometry: what the state leaves to
      the window is as asked for, or else where the window would be restored to; the rest is the displays'. */
  lemma {:induction false} AskedWithGeometry(
      m: Model, w: Window, request: Modifications, displays: Displays, back: Rectangle)
    requires WellLinked(m.info) && w in m.info && Acceptable(m.info, w, request) && KeepsForest(m.info, w, request)
    requires request.place.None? && request.state.Some? && request.state.value != m.info[w].state
    requires WouldRestore(m.info[w], back)
    ensures var m' := ClientModify(m, w, request, displays); var area, value := displays.area, request.state.value;
            && m'.info.Keys == m.info.Keys && m'.info[w].state == value
            && var pos := if request.topLeft.Some? then request.topLeft.value else back.topLeft;
               var size := if request.size.Some? then request.size.value else back.size;
               var r := m'.info[w].surface.rect;
               && (value == Restored ==> r == Rectangle(pos, size))
               && (value == Maximized ==> r == area)
               && (value == VertMaximized ==>
                     r.Left() == pos.x && r.size.width == size.width && r.Top() == area.Top() &&
                     r.size.height == area.size.height)
               && (value == HorizMaximized ==>
                     r.Top() == pos.y && r.size.height == size.height && r.Left() == area.Left() &&
                     r.size.width == area.size.width)
               && (value == Fullscreen ==> r == displays.fullscreen(m.info[w].outputId, m.info[w].surface.rect))
  {
    hide ModifyWindow, LinksOf, WouldRestore;
    RestoresThere(m.info[w], back);
    var mods := PlaceAndSizeForState(request, m.info[w], displays);
    ModifiedAsAsked(m, w, mods);
    ModifiedWhere(m, w, mods);
  }

  /** And a request for the state the window has: it changes nothing more than its geometry asks for, unless the window
      is fullscreen and is to be on another output, which places it anew. */
  lemma {:induction false} PresentStateAsked(m: Model, w: Window, request: Modifications, displays: Displays)
    requires WellLinked(m.info) && w in m.info && Acceptable(m.info, w, request) && KeepsForest(m.info, w, request)
    requires request.place.None? && !BoundsAsked(request.limits) && request.state == Some(m.info[w].state)
    ensures var m', i := ClientModify(m, w, request, displays), m.info[w];
            var pos := if request.topLeft.Some? then request.topLeft.value else i.surface.rect.topLeft;
            var size := if request.size.Some? then request.size.value else i.surface.rect.size;
            && m'.info.Keys == m.info.Keys && m'.info[w].state == i.state
            && m'.info[w].surface.rect ==
               if i.state.Fullscreen? && request.outputId.Some? && request.outputId != i.outputId
               then displays.fullscreen(i.outputId, i.surface.rect) else Rectangle(pos, size)
  {
    hide ModifyWindow, LinksOf;
    var mods := PlaceAndSizeForState(request, m.info[w], displays);
    ModifiedAsAsked(m, w, mods);
    ModifiedWhere(m, w, mods);
  }

  lemma {:induction false} RelinkedStay(info: Windows, w: Window, mods: Modifications)
    requires WellLinked(info) && w in info && Acceptable(info, w, mods) && KeepsForest(info, w, mods)
    ensures var info2 := Noted(Relinked(info, w, mods), w, mods);
            && WellLinked(info2) && info2.Keys == info.Keys && info2[w].node.parent == NewParent(info[w], mods)
            && forall x :: x in info ==> info2[x].surface == info[x].surface
  {
    hide IsForest, LinksOf;
    RelinkedWellLinked(info, w, mods);
  }

  lemma {:induction false} SameButPlace(info: Windows, w: Window, mods: Modifications)
    requires WellLinked(info) && w in info && Acceptable(info, w, mods) && KeepsForest(info, w, mods)
    ensures var without := mods.(place := None);
            && Acceptable(info, w, without) && KeepsForest(info, w, without)
            && w in Relinked(info, w, mods) && Relinked(info, w, without) == Relinked(info, w, mods)
            && Noted(Relinked(info, w, without), w, without) == Noted(Relinked(info, w, mods), w, mods)
  {
    hide LinksOf, IsForest, Reparent;
    RelinkedWellLinked(info, w, mods);
  }

  /** The size a window has before it is placed beside its parent is that which it would have without. */
  lemma {:induction false} SizeWithoutPlace(m: Model, w: Window, mods: Modifications)
    requires WellLinked(m.info) && w in m.info && Acceptable(m.info, w, mods) && KeepsForest(m.info, w, mods)
    ensures var without := mods.(place := None);
            && Acceptable(m.info, w, without) && KeepsForest(m.info, w, without)
            && w in ModifyWindow(m, w, without).info && w in Relinked(m.info, w, mods)
            && var info2 := Noted(Relinked(m.info, w, mods), w, mods);
               w in info2 && ModifyWindow(m, w, without).info[w].surface.rect.size ==
               Or(mods.size, Or(NewRect(info2[w], mods), info2[w].surface.rect).size)
  {
    hide ModifyWindow, Placed, LinksOf, IsForest, KeepsForest, Acceptable, Relinked;
    var without := mods.(place := None);
    SameButPlace(m.info, w, mods);
    ModifiedIsPlaced(m, w, without);
    var info2 := Noted(Relinked(m.info, w, mods), w, mods);
    PlacedWithoutPlace(info2, w, without);
    RectIs(info2, w, NewRect(info2[w], without));
  }

  /** A child that is asked to be beside its parent, whatever else is asked for with it, is placed there first-fit, with
      the size it would have without. */
  lemma {:induction false} ModifiedBeside(m: Model, w: Window, mods: Modifications, p: Window)
    requires WellLinked(m.info) && w in m.info && Acceptable(m.info, w, mods) && KeepsForest(m.info, w, mods)
    requires mods.place.Some? && NewParent(m.info[w], mods) == Some(p)
    ensures ModifyWindow(m, w, mods).info.Keys == m.info.Keys && p in m.info
    ensures var parent := ModifyWindow(m, w, mods).info[p].surface.rect; parent == m.info[p].surface.rect
    ensures var without := mods.(place := None);
            && Acceptable(m.info, w, without) && KeepsForest(m.info, w, without)
            && w in ModifyWindow(m, w, without).info
            && BesideParent(m.info[p].surface.rect, mods.place.value,
                            ModifyWindow(m, w, without).info[w].surface.rect.size,
                            ModifyWindow(m, w, mods).info[w].surface.rect)
  {
    hide ModifyWindow, Placed, LinksOf, IsForest, BesideParent, KeepsForest, Acceptable, Relinked, NewRect;
    SizeWithoutPlace(m, w, mods);
    RelinkedStay(m.info, w, mods);
    PlacedBeside(Noted(Relinked(m.info, w, mods), w, mods), w, mods);
    ModifiedIsPlaced(m, w, mods);
  }
}
