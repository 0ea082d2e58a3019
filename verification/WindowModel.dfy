/** The state of BasicWindowManager as a value, and what each of its operations does to that value. The class
    BasicWindowManager works on fields, step by step; its methods are proved to do what these functions say. */
module WindowModel {
  import opened Sequences
  import opened Geometry
  import opened Forest
  import opened WindowStates
  import opened ZOrder
  import C = ConstrainResizing
  import P = Placement

  type Application = nat
  type Workspace = nat
  type Pairs = seq<(Workspace, Window)>

  datatype WindowType = Normal | Utility | Dialog | Gloss | Freestyle | Menu | InputMethod | Satellite | Tip {
    predicate CanBeActive() { Normal? || Utility? || Dialog? || Freestyle? || Menu? }

    predicate MustHaveParent() { Gloss? || InputMethod? || Satellite? || Tip? }

    predicate MustNotHaveParent() { Normal? || Utility? }

    predicate CanMorphTo(target: WindowType) {
      match target
      case Normal | Utility | Satellite => Normal? || Utility? || Dialog? || Satellite?
      case Dialog => Normal? || Utility? || Dialog? || Menu? || Satellite?
      case _ => false
    }
  }

  /** The Mir surface of a window. It is visible when it is shown and has posted a buffer. */
  datatype Surface = Surface(rect: Rectangle, state: WindowState, shown: bool, ready: bool) {
    predicate Visible() { shown && ready }
  }

  datatype WindowInfo = WindowInfo(
    application: Application,
    kind: WindowType,
    state: WindowState,
    restoreRect: Rectangle,
    limits: C.Limits,
    outputId: Option<int>,
    node: Node,
    surface: Surface)
  {
    /** WindowInfo::is_visible: by the state the window manager keeps. */
    predicate IsVisible() { !state.Conceals() && surface.Visible() }

    /** The visibility the MRU list goes by: the state of the surface. */
    predicate SurfaceShows() { !surface.state.Conceals() && surface.Visible() }

    predicate Focusable() { kind.CanBeActive() && IsVisible() }

    predicate VisibleDialog() { kind.Dialog? && IsVisible() }

    /** The rectangle restoring the window would give it now: the cached one, brought up to date with what the
        present state lets the window choose for itself. */
    function EffectiveRestore(): Rectangle {
      match state
      case Restored | Hidden => surface.rect
      case VertMaximized =>
        Rectangle(Point(surface.rect.topLeft.x, restoreRect.topLeft.y),
                  Size(surface.rect.size.width, restoreRect.size.height))
      case HorizMaximized =>
        Rectangle(Point(restoreRect.topLeft.x, surface.rect.topLeft.y),
                  Size(restoreRect.size.width, surface.rect.size.height))
      case _ => restoreRect
    }

    function PlacedAt(rect: Rectangle): WindowInfo { this.(surface := surface.(rect := rect)) }
  }

  type Windows = map<Window, WindowInfo>

  datatype Model = Model(
    info: Windows,
    mru: seq<Window>,
    fullscreen: set<Window>,
    pairs: Pairs,
    focus: Option<Window>,
    stack: seq<Window>)

  function LinksOf(info: Windows): Links {
    map w | w in info :: info[w].node
  }

  function WithLinks(info: Windows, links: Links): Windows
    requires info.Keys <= links.Keys
  {
    map w | w in info :: info[w].(node := links[w])
  }

  ghost predicate WellLinked(info: Windows) {
    IsForest(LinksOf(info))
  }

  // ----- focus

  function FirstVisibleDialog(info: Windows, children: seq<Window>): (r: Option<Window>)
    ensures r.Some? ==> r.value in children && r.value in info && info[r.value].VisibleDialog()
    ensures r.None? ==> forall c :: c in children && c in info ==> !info[c].VisibleDialog()
  {
    if children == [] then None
    else if children[0] in info && info[children[0]].VisibleDialog() then Some(children[0])
    else FirstVisibleDialog(info, children[1..])
  }

  /** Down to a visible dialog first; then up. Once on a visible dialog there is no way up. */
  ghost function FocusPhase(info: Windows, w: Window): nat
    requires w in info
  {
    if info[w].VisibleDialog() then 0 else 1
  }

  ghost function FocusSteps(info: Windows, w: Window): nat
    requires WellLinked(info) && w in info
  {
    if info[w].VisibleDialog() then Room(LinksOf(info), w) else Rank(LinksOf(info), w)
  }

  lemma {:induction false} FocusStepDown(info: Windows, w: Window, d: Window)
    requires WellLinked(info) && w in info && FirstVisibleDialog(info, info[w].node.children) == Some(d)
    ensures IsParent(LinksOf(info), w, d)
    ensures FocusPhase(info, d) < FocusPhase(info, w) ||
            (FocusPhase(info, d) == FocusPhase(info, w) && FocusSteps(info, d) < FocusSteps(info, w))
  {
    assert d in LinksOf(info)[w].children;
    ParentRank(LinksOf(info), w, d);
  }

  lemma {:induction false} FocusStepUp(info: Windows, w: Window, p: Window)
    requires WellLinked(info) && w in info && !info[w].VisibleDialog() && info[w].node.parent == Some(p)
    ensures p in info && IsParent(LinksOf(info), p, w)
    ensures FocusPhase(info, p) < FocusPhase(info, w) ||
            (FocusPhase(info, p) == FocusPhase(info, w) && FocusSteps(info, p) < FocusSteps(info, w))
  {
    ParentRank(LinksOf(info), p, w);
  }

  /** The window that select_active_window gives the focus to, if any. */
  ghost function Target(info: Windows, hint: Window): Option<Window>
    requires WellLinked(info) && hint in info
    decreases FocusPhase(info, hint), FocusSteps(info, hint)
  {
    var dialog := FirstVisibleDialog(info, info[hint].node.children);
    if dialog.Some? then
      FocusStepDown(info, hint, dialog.value);
      Target(info, dialog.value)
    else if info[hint].Focusable() then
      Some(hint)
    else if info[hint].node.parent.Some? then
      FocusStepUp(info, hint, info[hint].node.parent.value);
      Target(info, info[hint].node.parent.value)
    else None
  }

  function VisibleSurfaces(info: Windows): set<Window> {
    set w | w in info && info[w].SurfaceShows()
  }

  /** active_window(): the most recently used window that is visible. */
  function ActiveWindow(m: Model): Option<Window> {
    LastIn(m.mru, VisibleSurfaces(m.info))
  }

  /** Only the MRU list, the focus and the stacking order may differ. */
  predicate SameButFocus(m: Model, m': Model) {
    m' == m.(mru := m'.mru, focus := m'.focus, stack := m'.stack)
  }

  ghost function Select(m: Model, hint: Option<Window>): (r: (Model, Option<Window>))
    requires WellLinked(m.info) && (hint.Some? ==> hint.value in m.info)
    ensures SameButFocus(m, r.0)
  {
    if hint.None? then
      (if ActiveWindow(m).Some? then m.(focus := None) else m, None)
    else
      var target := Target(m.info, hint.value);
      (if target.Some? then GiveFocus(m, target.value) else m, target)
  }

  ghost function GiveFocus(m: Model, w: Window): Model
    requires WellLinked(m.info)
  {
    m.(mru := Without(m.mru, {w}) + [w], focus := Some(w),
       stack := if w in m.info then RaiseTree(LinksOf(m.info), m.stack, w) else m.stack)
  }

  /** Which windows of the MRU list a search for a new focus looks at. */
  datatype Search = Search(application: Option<Application>, workspaces: Option<set<Workspace>>, except: Option<Window>)

  function WorkspacesOf(pairs: Pairs, w: Window): set<Workspace> {
    set p | p in pairs && p.1 == w :: p.0
  }

  predicate Considers(m: Model, s: Search, w: Window) {
    && w in m.info
    && (s.application.Some? ==> m.info[w].application == s.application.value)
    && (s.workspaces.Some? ==> WorkspacesOf(m.pairs, w) * s.workspaces.value != {})
    && s.except != Some(w)
  }

  ghost function Selectable(m: Model, s: Search): set<Window>
    requires WellLinked(m.info)
  {
    set w | w in m.mru && w in m.info && m.info[w].SurfaceShows() && Considers(m, s, w) && Target(m.info, w).Some?
  }

  /** Select the most recently used window the search considers for which that succeeds. */
  ghost function ActivateMostRecent(m: Model, s: Search): (r: (Model, Option<Window>))
    requires WellLinked(m.info)
    ensures SameButFocus(m, r.0)
  {
    var found := LastIn(m.mru, Selectable(m, s));
    if found.Some? then Select(m, found) else (m, None)
  }

  // ----- window state

  function WithState(info: Windows, w: Window, value: WindowState): Windows
    requires w in info
  {
    info[w := info[w].(state := value)]
  }

  function WithSurfaceState(info: Windows, w: Window, value: WindowState): Windows
    requires w in info
  {
    info[w := info[w].(surface := info[w].surface.(state := value, shown := !value.Conceals()))]
  }

  /** Find another window to be active before the active window w is concealed. */
  ghost function PassFocusOn(m: Model, w: Window): (r: Model)
    requires WellLinked(m.info) && w in m.info
    ensures SameButFocus(m, r)
  {
    var m1 := Select(m, Some(w)).0;
    var m2 := if ActiveWindow(m1) in {Some(w), None}
              then ActivateMostRecent(m1, Search(None, Some(WorkspacesOf(m1.pairs, w)), Some(w))).0 else m1;
    var m3 := if ActiveWindow(m2) in {Some(w), None}
              then ActivateMostRecent(m2, Search(None, None, Some(w))).0 else m2;
    if ActiveWindow(m3) == Some(w) then Select(m3, None).0 else m3
  }

  lemma {:induction false} StateKeepsLinks(info: Windows, w: Window, value: WindowState)
    requires w in info
    ensures LinksOf(WithState(info, w, value)) == LinksOf(info)
    ensures LinksOf(WithSurfaceState(info, w, value)) == LinksOf(info)
  {
  }

  ghost function SetState(m: Model, w: Window, value: WindowState): Model
    requires WellLinked(m.info) && w in m.info
  {
    StateKeepsLinks(m.info, w, value);
    var m0 := m.(fullscreen := if value.Fullscreen? then m.fullscreen + {w} else m.fullscreen - {w});
    if m.info[w].state == value then m0
    else
      var m1 := m0.(info := WithState(m.info, w, value));
      if value.Conceals() then
        var m2 := if ActiveWindow(m1) == Some(w) then PassFocusOn(m1, w) else m1;
        m2.(info := WithSurfaceState(m2.info, w, value))
      else
        StateKeepsLinks(m1.info, w, value);
        var m2 := m1.(info := WithSurfaceState(m1.info, w, value));
        if m.info[w].state.Conceals() && ActiveWindow(m0).None? then Select(m2, Some(w)).0 else m2
  }

  // ----- geometry

  /** The root takes the given rectangle; each window below it moves by as much as the root's corner does. */
  ghost function PlaceAndSize(info: Windows, w: Window, pos: Point, size: Size): Windows
    requires WellLinked(info) && w in info
  {
    var movement := Between(info[w].surface.rect.topLeft, pos);
    map x | x in info ::
      if x == w then info[x].PlacedAt(Rectangle(pos, size))
      else if Below(LinksOf(info), w, x) then Moved(info[x], movement)
      else info[x]
  }

  ghost function MoveTree(info: Windows, w: Window, movement: Displacement): Windows
    requires WellLinked(info) && w in info
  {
    map x | x in info :: if Below(LinksOf(info), w, x) then Moved(info[x], movement) else info[x]
  }

  function Moved(i: WindowInfo, movement: Displacement): WindowInfo {
    i.PlacedAt(Rectangle(Shift(i.surface.rect.topLeft, movement), i.surface.rect.size))
  }

  // ----- modify_window

  /** New limits for the size of a window. */
  datatype LimitChanges = LimitChanges(
    minWidth: Option<int>, minHeight: Option<int>, maxWidth: Option<int>, maxHeight: Option<int>,
    widthInc: Option<int>, heightInc: Option<int>, minAspect: Option<C.AspectRatio>, maxAspect: Option<C.AspectRatio>)
  {
    function AppliedTo(l: C.Limits): C.Limits {
      C.Limits(Or(minWidth, l.minWidth), Or(minHeight, l.minHeight), Or(maxWidth, l.maxWidth),
               Or(maxHeight, l.maxHeight), Or(widthInc, l.widthInc), Or(heightInc, l.heightInc),
               Or(minAspect, l.minAspect), Or(maxAspect, l.maxAspect))
    }

    /** Aspect ratios alone do not make modify_window look at the size. */
    predicate Resizes() {
      minWidth.Some? || minHeight.Some? || maxWidth.Some? || maxHeight.Some? || widthInc.Some? || heightInc.Some?
    }
  }

  const SAME_LIMITS := LimitChanges(None, None, None, None, None, None, None, None)

  /** A request to place a window beside a rectangle of its parent; the active display at that time. */
  datatype RelativePlace = RelativePlace(placing: P.Placing, display: Rectangle)

  /** What a client or the shell may ask of a window, of the properties modelled. */
  datatype Modifications = Modifications(
    parent: Option<Window>,
    kind: Option<WindowType>,
    outputId: Option<int>,
    limits: LimitChanges,
    topLeft: Option<Point>,
    size: Option<Size>,
    place: Option<RelativePlace>,
    state: Option<WindowState>)

  const NO_CHANGE := Modifications(None, None, None, SAME_LIMITS, None, None, None, None)

  /** The displays: their bounding rectangle, and where the display layout puts a fullscreen window. */
  datatype Displays = Displays(area: Rectangle, fullscreen: (Option<int>, Rectangle) -> Rectangle)

  function Or<T>(o: Option<T>, default: T): T {
    if o.Some? then o.value else default
  }

  /** Work out position and size for a requested change of state. */
  function PlaceAndSizeForState(mods: Modifications, i: WindowInfo, displays: Displays): Modifications {
    if mods.state.None? then mods
    else if mods.state.value == i.state &&
            !(mods.state.value.Fullscreen? && mods.outputId.Some? && mods.outputId != i.outputId) then mods
    else
      var restore := i.EffectiveRestore();
      var wanted := Rectangle(Or(mods.topLeft, restore.topLeft), Or(mods.size, restore.size));
      match mods.state.value
      case Restored => mods.(topLeft := Some(wanted.topLeft), size := Some(wanted.size))
      case Maximized => mods.(topLeft := Some(displays.area.topLeft), size := Some(displays.area.size))
      case HorizMaximized =>
        mods.(topLeft := Some(Point(displays.area.topLeft.x, wanted.topLeft.y)),
              size := Some(Size(displays.area.size.width, wanted.size.height)))
      case VertMaximized =>
        mods.(topLeft := Some(Point(wanted.topLeft.x, displays.area.topLeft.y)),
              size := Some(Size(wanted.size.width, displays.area.size.height)))
      case Fullscreen =>
        var rect := displays.fullscreen(i.outputId, i.surface.rect);
        mods.(topLeft := Some(rect.topLeft), size := Some(rect.size))
      case _ => mods
  }

  function NewKind(i: WindowInfo, mods: Modifications): WindowType {
    Or(mods.kind, i.kind)
  }

  function NewParent(i: WindowInfo, mods: Modifications): Option<Window> {
    if NewKind(i, mods) != i.kind && NewKind(i, mods).MustNotHaveParent() then None
    else if mods.parent.Some? then mods.parent else i.node.parent
  }

  /** modify_window throws unless this holds. */
  predicate Acceptable(info: Windows, w: Window, mods: Modifications)
    requires w in info
  {
    var kind := NewKind(info[w], mods);
    && (mods.parent.Some? ==> mods.parent.value in info)
    && (kind != info[w].kind ==>
          && info[w].kind.CanMorphTo(kind)
          && (kind.MustNotHaveParent() ==> mods.parent.None?)
          && (kind.MustHaveParent() ==> NewParent(info[w], mods).Some?))
  }

  /** What modify_window does not check: that the new parent is not the window or one below it. */
  ghost predicate KeepsForest(info: Windows, w: Window, mods: Modifications)
    requires WellLinked(info) && w in info && Acceptable(info, w, mods)
  {
    NewParent(info[w], mods).Some? && NewParent(info[w], mods) != info[w].node.parent ==>
      !Below(LinksOf(info), w, NewParent(info[w], mods).value)
  }

  /** The new type, parent, output and limits. */
  function Relinked(info: Windows, w: Window, mods: Modifications): Windows
    requires w in info
  {
    var kind, outputId := NewKind(info[w], mods), if mods.outputId.Some? then mods.outputId else info[w].outputId;
    var limits := mods.limits.AppliedTo(info[w].limits);
    var info1 := info[w := info[w].(kind := kind, outputId := outputId, limits := limits)];
    WithLinks(info1, Reparent(LinksOf(info), w, NewParent(info[w], mods)))
  }

  /** The rectangle to go back to is noted when the state is about to change. */
  function Noted(info: Windows, w: Window, mods: Modifications): Windows
    requires w in info
  {
    if mods.state.Some? && info[w].state != mods.state.value
    then info[w := info[w].(restoreRect := info[w].EffectiveRestore())] else info
  }

  /** Only rectangles differ. */
  ghost predicate OnlyRects(info: Windows, info': Windows) {
    && info'.Keys == info.Keys
    && forall x :: x in info ==> info'[x] == info[x].PlacedAt(info'[x].surface.rect)
  }

  lemma {:induction false} OnlyRectsKeepsLinks(info: Windows, info': Windows)
    requires OnlyRects(info, info')
    ensures LinksOf(info') == LinksOf(info)
  {
  }

  lemma {:induction false} OnlyRectsOnwards(a: Windows, b: Windows, c: Windows)
    requires OnlyRects(a, b) && OnlyRects(b, c)
    ensures OnlyRects(a, c)
  {
  }

  lemma {:induction false} PlacingMovesOnly(info: Windows, w: Window, pos: Point, size: Size)
    requires WellLinked(info) && w in info
    ensures OnlyRects(info, PlaceAndSize(info, w, pos, size))
  {
  }

  /** The rectangle for a size that was asked for, for new limits or for a position that was asked for, in that order.
      New limits that lead to a division by zero, which the code does not guard against, are taken to do nothing. */
  function NewRect(i: WindowInfo, mods: Modifications): Option<Rectangle> {
    var rect := i.surface.rect;
    var pos := Or(mods.topLeft, rect.topLeft);
    if mods.size.Some? then Some(Rectangle(pos, mods.size.value))
    else if mods.limits.Resizes() then C.Constrained(i.limits, i.state, rect, pos, rect.size)
    else if mods.topLeft.Some? then Some(Rectangle(pos, rect.size))
    else None
  }

  /** The rectangle beside the parent, if that is asked for and there is one. */
  function NewRectByParent(info: Windows, w: Window, mods: Modifications): Option<Rectangle>
    requires w in info
  {
    if mods.place.None? || info[w].node.parent.None? || info[w].node.parent.value !in info then None
    else
      var parent := info[info[w].node.parent.value].surface.rect;
      Some(P.PlacedRelative(mods.place.value.display, parent, mods.place.value.placing,
                            Or(mods.size, info[w].surface.rect.size)))
  }

  ghost function PlacedIf(info: Windows, w: Window, rect: Option<Rectangle>): (r: Windows)
    requires WellLinked(info) && w in info
    ensures OnlyRects(info, r) && LinksOf(r) == LinksOf(info)
  {
    if rect.None? then info
    else
      PlacingMovesOnly(info, w, rect.value.topLeft, rect.value.size);
      OnlyRectsKeepsLinks(info, PlaceAndSize(info, w, rect.value.topLeft, rect.value.size));
      PlaceAndSize(info, w, rect.value.topLeft, rect.value.size)
  }

  ghost function Placed(info: Windows, w: Window, mods: Modifications): (r: Windows)
    requires WellLinked(info) && w in info
    ensures OnlyRects(info, r) && LinksOf(r) == LinksOf(info)
  {
    var info1 := PlacedIf(info, w, NewRect(info[w], mods));
    OnlyRectsOnwards(info, info1, PlacedIf(info1, w, NewRectByParent(info1, w, mods)));
    PlacedIf(info1, w, NewRectByParent(info1, w, mods))
  }

  lemma {:induction false} StepsKeepLinks(info: Windows, w: Window, mods: Modifications)
    requires w in info
    ensures LinksOf(Noted(info, w, mods)) == LinksOf(info)
    ensures WellLinked(info) ==>
              LinksOf(Relinked(info, w, mods)) == Reparent(LinksOf(info), w, NewParent(info[w], mods))
  {
    hide WellLinked;
  }

  lemma {:induction false} RelinkedWellLinked(info: Windows, w: Window, mods: Modifications)
    requires WellLinked(info) && w in info && Acceptable(info, w, mods) && KeepsForest(info, w, mods)
    ensures WellLinked(Relinked(info, w, mods)) && WellLinked(Noted(Relinked(info, w, mods), w, mods))
  {
    var parent := NewParent(info[w], mods);
    StepsKeepLinks(info, w, mods);
    if parent.Some? && parent == info[w].node.parent {
      ParentRank(LinksOf(info), parent.value, w);
    }
    if parent != info[w].node.parent {
      ReparentKeepsForest(LinksOf(info), w, parent);
    }
    StepsKeepLinks(Relinked(info, w, mods), w, mods);
  }

  ghost function ModifyWindow(m: Model, w: Window, mods: Modifications): Model
    requires WellLinked(m.info) && w in m.info && Acceptable(m.info, w, mods) && KeepsForest(m.info, w, mods)
  {
    RelinkedWellLinked(m.info, w, mods);
    var info2 := Noted(Relinked(m.info, w, mods), w, mods);
    StepsKeepLinks(info2, w, mods);
    var m3 := m.(info := Placed(info2, w, mods));
    if mods.state.Some? then SetState(m3, w, mods.state.value) else m3
  }

  // ----- requests from clients

  /** validate_modification_request of a change of type: each case falls through to the next. */
  predicate TypeMayChange(original: WindowType, target: WindowType) {
    var first := original.Normal? || original.Utility? || original.Dialog? || original.Satellite?;
    var second := first || original.Menu?;
    && (first ==> target.Normal? || target.Utility? || target.Dialog? || target.Satellite?)
    && (second ==> target.Menu? || target.Satellite?)
    && target == original
  }

  /** validate_modification_request throws unless this holds. */
  predicate ClientMay(info: Windows, w: Window, mods: Modifications)
    requires w in info
  {
    var target := NewKind(info[w], mods);
    var hasParent := if mods.parent.Some? then mods.parent.value in info else info[w].node.parent.Some?;
    && (mods.kind.Some? ==> TypeMayChange(info[w].kind, target))
    && (target.Normal? || target.Utility? ==> !hasParent)
    && (target.Satellite? || target.Gloss? || target.Tip? ==> hasParent)
    && (mods.size.Some? ==> mods.size.value.width > 0 && mods.size.value.height > 0)
  }

  ghost function ClientModify(m: Model, w: Window, request: Modifications, displays: Displays): Model
    requires WellLinked(m.info) && w in m.info && Acceptable(m.info, w, request)
    requires KeepsForest(m.info, w, request)
  {
    ModifyWindow(m, w, PlaceAndSizeForState(request, m.info[w], displays))
  }

  // ----- workspaces

  function Paired(ws: Workspace, windows: seq<Window>): (r: Pairs)
    ensures forall p :: p in r <==> p.0 == ws && p.1 in windows
  {
    var r := seq(|windows|, i requires 0 <= i < |windows| => (ws, windows[i]));
    assert forall p :: p in r ==> exists i :: 0 <= i < |windows| && r[i] == p;
    assert forall i :: 0 <= i < |windows| ==> r[i] == (ws, windows[i]);
    r
  }

  function WindowsIn(pairs: Pairs, ws: Workspace): set<Window> {
    set p | p in pairs && p.0 == ws :: p.1
  }

  /** The windows of a workspace in the order they came to it. */
  function ContentOf(pairs: Pairs, ws: Workspace): seq<Window> {
    if pairs == [] then []
    else ContentOf(pairs[..|pairs| - 1], ws) + if pairs[|pairs| - 1].0 == ws then [pairs[|pairs| - 1].1] else []
  }

  function AddPairs(pairs: Pairs, ws: Workspace, windows: seq<Window>): Pairs {
    pairs + Paired(ws, Without(windows, WindowsIn(pairs, ws)))
  }

  function RemovePairs(pairs: Pairs, ws: Workspace, windows: seq<Window>): Pairs {
    Without(pairs, set p | p in pairs && p.0 == ws && p.1 in windows)
  }

  ghost function TreeOf(info: Windows, w: Window): seq<Window>
    requires WellLinked(info) && w in info
  {
    Preorder(LinksOf(info), Root(LinksOf(info), w))
  }

  ghost function AddTree(m: Model, w: Window, ws: Workspace): Model
    requires WellLinked(m.info) && w in m.info
  {
    m.(pairs := AddPairs(m.pairs, ws, TreeOf(m.info, w)))
  }

  ghost function RemoveTree(m: Model, w: Window, ws: Workspace): Model
    requires WellLinked(m.info) && w in m.info
  {
    m.(pairs := RemovePairs(m.pairs, ws, TreeOf(m.info, w)))
  }

  function MoveContent(m: Model, to: Workspace, from: Workspace): Model {
    var moved := ContentOf(m.pairs, from);
    m.(pairs := AddPairs(RemovePairs(m.pairs, from, moved), to, moved))
  }

  /** What Locker does for a workspace that has died. */
  function DropWorkspace(m: Model, ws: Workspace): Model {
    m.(pairs := Without(m.pairs, set p | p in m.pairs && p.0 == ws))
  }

  // ----- windows come and go

  datatype NewWindow = NewWindow(
    application: Application,
    kind: WindowType,
    state: WindowState,
    rect: Rectangle,
    limits: C.Limits,
    outputId: Option<int>,
    parent: Option<Window>)

  function WithNewWindow(info: Windows, w: Window, spec: NewWindow): Windows {
    var entry := WindowInfo(spec.application, spec.kind, spec.state, spec.rect, spec.limits, spec.outputId,
                            Node(spec.parent, []), Surface(spec.rect, spec.state, true, false));
    var info1 := info[w := entry];
    WithLinks(info1, AddLeaf(LinksOf(info), w, spec.parent))
  }

  lemma {:induction false} NewWindowLinks(info: Windows, w: Window, spec: NewWindow)
    requires WellLinked(info) && w !in info && (spec.parent.Some? ==> spec.parent.value in info)
    ensures LinksOf(WithNewWindow(info, w, spec)) == AddLeaf(LinksOf(info), w, spec.parent)
    ensures WellLinked(WithNewWindow(info, w, spec))
  {
    AddLeafKeepsForest(LinksOf(info), w, spec.parent);
  }

  /** A window joins the workspaces its parent is in, one after the other. */
  ghost function JoinAll(m: Model, w: Window, wss: seq<Workspace>): (r: Model)
    requires WellLinked(m.info) && w in m.info
    ensures r == m.(pairs := r.pairs)
  {
    if wss == [] then m else AddTree(JoinAll(m, w, wss[..|wss| - 1]), w, wss[|wss| - 1])
  }

  /** The workspaces a window is in, in the order it came to them. */
  function WorkspaceListOf(pairs: Pairs, w: Window): (r: seq<Workspace>)
    ensures forall ws :: ws in r <==> (ws, w) in pairs
  {
    if pairs == [] then []
    else
      assert pairs == pairs[..|pairs| - 1] + [pairs[|pairs| - 1]];
      WorkspaceListOf(pairs[..|pairs| - 1], w) + if pairs[|pairs| - 1].1 == w then [pairs[|pairs| - 1].0] else []
  }

  ghost function AddWindow(m: Model, w: Window, spec: NewWindow): Model
    requires WellLinked(m.info) && w !in m.info && (spec.parent.Some? ==> spec.parent.value in m.info)
  {
    NewWindowLinks(m.info, w, spec);
    var m1 := m.(info := WithNewWindow(m.info, w, spec), stack := m.stack + [w],
                 fullscreen := if spec.state.Fullscreen? then m.fullscreen + {w} else m.fullscreen);
    if spec.parent.Some? then JoinAll(m1, w, WorkspaceListOf(m.pairs, spec.parent.value)) else m1
  }

  function WithoutWindow(info: Windows, w: Window): Windows
    requires w in info
  {
    WithLinks(map x | x in info && x != w :: info[x], EraseNode(LinksOf(info), w))
  }

  lemma {:induction false} WithoutWindowLinks(info: Windows, w: Window)
    requires WellLinked(info) && w in info
    ensures LinksOf(WithoutWindow(info, w)) == EraseNode(LinksOf(info), w)
    ensures WellLinked(WithoutWindow(info, w))
    ensures WithoutWindow(info, w).Keys == info.Keys - {w}
  {
    EraseKeepsForest(LinksOf(info), w);
  }

  /** Everything the window manager and the focus controller know of w is dropped. */
  function Forget(m: Model, w: Window): Model
    requires w in m.info
  {
    Model(WithoutWindow(m.info, w), Without(m.mru, {w}), m.fullscreen - {w},
          Without(m.pairs, set p | p in m.pairs && p.1 == w),
          if m.focus == Some(w) then None else m.focus, Without(m.stack, {w}))
  }

  /** The search for a new focus after the active window went; None if every attempt failed. */
  ghost function Refocus(m: Model, application: Application, parent: Option<Window>, wss: set<Workspace>)
    : (r: (Model, Option<Window>))
    requires WellLinked(m.info) && (parent.Some? ==> parent.value in m.info)
    ensures SameButFocus(m, r.0)
  {
    var byParent := if parent.Some? then Select(m, parent) else (m, None);
    if byParent.1.Some? then byParent else
    var sameBoth := ActivateMostRecent(m, Search(Some(application), Some(wss), None));
    if sameBoth.1.Some? then sameBoth else
    var sameWorkspace := ActivateMostRecent(m, Search(None, Some(wss), None));
    if sameWorkspace.1.Some? then sameWorkspace else
    var sameApplication := ActivateMostRecent(m, Search(Some(application), None, None));
    if sameApplication.1.Some? then sameApplication else
    ActivateMostRecent(m, Search(None, None, None))
  }

  /** remove_window, up to the point where it would cycle through the applications. */
  ghost function RemoveWindow(m: Model, w: Window): Model
    requires WellLinked(m.info) && w in m.info
  {
    WithoutWindowLinks(m.info, w);
    var m1 := Forget(m, w);
    if ActiveWindow(m) == Some(w)
    then
      RemovedParent(m, w);
      Refocus(m1, m.info[w].application, m.info[w].node.parent, WorkspacesOf(m.pairs, w)).0
    else m1
  }

  lemma {:induction false} RemovedParent(m: Model, w: Window)
    requires WellLinked(m.info) && w in m.info
    ensures m.info[w].node.parent.Some? ==> m.info[w].node.parent.value in Forget(m, w).info
  {
    WithoutWindowLinks(m.info, w);
    if m.info[w].node.parent.Some? {
      ParentRank(LinksOf(m.info), m.info[w].node.parent.value, w);
    }
  }

  /** The first buffer was posted; the policy selects the window if it can have the focus. */
  ghost function WindowReady(m: Model, w: Window): Model
    requires WellLinked(m.info) && w in m.info
  {
    var info1 := m.info[w := m.info[w].(surface := m.info[w].surface.(ready := true))];
    assert LinksOf(info1) == LinksOf(m.info);
    var m1 := m.(info := info1);
    if m.info[w].kind.CanBeActive() then Select(m1, Some(w)).0 else m1
  }
}
