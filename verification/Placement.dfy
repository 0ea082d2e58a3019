/** BasicWindowManager::place_relative (miral/basic_window_manager.cpp:1480-1803): where a window goes beside a
    rectangle of its parent, trying the ways its hints allow in a fixed order until one fits the display. */
module Placement {
  import opened Geometry

  datatype Gravity = Center | West | East | North | NorthWest | NorthEast | South | SouthWest | SouthEast {
    function FlipX(): Gravity {
      match this
      case NorthWest => NorthEast
      case NorthEast => NorthWest
      case West => East
      case East => West
      case SouthWest => SouthEast
      case SouthEast => SouthWest
      case _ => this
    }

    function FlipY(): Gravity {
      match this
      case NorthWest => SouthWest
      case North => South
      case NorthEast => SouthEast
      case SouthWest => NorthWest
      case South => North
      case SouthEast => NorthEast
      case _ => this
    }

    function Antipodes(): Gravity {
      match this
      case NorthWest => SouthEast
      case North => South
      case NorthEast => SouthWest
      case West => East
      case East => West
      case SouthWest => NorthEast
      case South => North
      case SouthEast => NorthWest
      case Center => Center
    }
  }

  datatype Hints = Hints(
    flipX: bool, flipY: bool, slideX: bool, slideY: bool, resizeX: bool, resizeY: bool, antipodes: bool)

  /** What is asked for; the rectangle to attach to is given relative to the parent. */
  datatype Placing = Placing(
    hints: Hints, auxRect: Rectangle, rectGravity: Gravity, windowGravity: Gravity, offset: Displacement)

  /** 0.5 * n as an int: truncated. */
  function Half(n: int): int {
    if n >= 0 then n / 2 else -((-n) / 2)
  }

  function FlipDx(d: Displacement): Displacement { Displacement(-d.dx, d.dy) }

  function FlipDy(d: Displacement): Displacement { Displacement(d.dx, -d.dy) }

  function ConstrainTo(rect: Rectangle, point: Point): Point {
    var x := if point.x < rect.Left() then rect.Left() else point.x;
    var y := if point.y < rect.Top() then rect.Top() else point.y;
    Point(if x > rect.Right() then rect.Right() else x, if y > rect.Bottom() then rect.Bottom() else y)
  }

  function AnchorFor(rect: Rectangle, gravity: Gravity): Point {
    var midX, midY := rect.Left() + Half(rect.size.width), rect.Top() + Half(rect.size.height);
    match gravity
    case NorthWest => rect.topLeft
    case North => Point(midX, rect.Top())
    case NorthEast => Point(rect.Right(), rect.Top())
    case West => Point(rect.Left(), midY)
    case Center => Point(midX, midY)
    case East => Point(rect.Right(), midY)
    case SouthWest => Point(rect.Left(), rect.Bottom())
    case South => Point(midX, rect.Bottom())
    case SouthEast => Point(rect.Right(), rect.Bottom())
  }

  function OffsetFor(size: Size, gravity: Gravity): Displacement {
    match gravity
    case NorthWest => Displacement(0, 0)
    case North => Displacement(-Half(size.width), 0)
    case NorthEast => Displacement(-size.width, 0)
    case West => Displacement(0, -Half(size.height))
    case Center => Displacement(-Half(size.width), -Half(size.height))
    case East => Displacement(-size.width, -Half(size.height))
    case SouthWest => Displacement(0, -size.height)
    case South => Displacement(-Half(size.width), -size.height)
    case SouthEast => Displacement(-size.width, -size.height)
  }

  /** The antipode is both flips, and flipping twice is no flip. */
  lemma {:induction false} Flips(g: Gravity)
    ensures g.FlipX().FlipX() == g && g.FlipY().FlipY() == g && g.Antipodes().Antipodes() == g
    ensures g.FlipX().FlipY() == g.FlipY().FlipX() == g.Antipodes()
  {
  }

  // ----- what the gravities mean

  predicate OnLeft(g: Gravity) { g in {NorthWest, West, SouthWest} }

  predicate OnRight(g: Gravity) { g in {NorthEast, East, SouthEast} }

  predicate OnTop(g: Gravity) { g in {NorthWest, North, NorthEast} }

  predicate OnBottom(g: Gravity) { g in {SouthWest, South, SouthEast} }

  /** Where x is on a stretch: at its low end, at its high end, or in the middle, rounded towards the low end. */
  predicate AtPart(x: int, low: int, length: int, atLow: bool, atHigh: bool) {
    if atLow then x == low
    else if atHigh then x == low + length
    else if length >= 0 then 2 * (x - low) <= length < 2 * (x - low) + 2
    else 2 * (x - low) - 2 < length <= 2 * (x - low)
  }

  /** p is the point of the rectangle that the gravity stands for. */
  predicate IsGravityPoint(rect: Rectangle, g: Gravity, p: Point) {
    && AtPart(p.x, rect.topLeft.x, rect.size.width, OnLeft(g), OnRight(g))
    && AtPart(p.y, rect.topLeft.y, rect.size.height, OnTop(g), OnBottom(g))
  }

  /** There is one such point. */
  lemma {:induction false} AnchorIsThere(rect: Rectangle, g: Gravity, p: Point)
    ensures IsGravityPoint(rect, g, p) <==> p == AnchorFor(rect, g)
  {
  }

  /** A window attached by a gravity has the point it stands for where it is attached. */
  lemma {:induction false} AttachedThere(
      parent: Rectangle, aux: Rectangle, rectGravity: Gravity, windowGravity: Gravity, offset: Displacement,
      size: Size, a: Point)
    requires IsGravityPoint(aux, rectGravity, a)
    ensures var r := Attached(parent, aux, rectGravity, windowGravity, offset, size);
            && r.size == size
            && IsGravityPoint(r, windowGravity, ConstrainTo(parent, Point(a.x + offset.dx, a.y + offset.dy)))
  {
    AnchorIsThere(aux, rectGravity, a);
  }

  /** The plain place: the window's point is on the point of the rectangle asked for, which is given relative to the
      parent, plus the offset, brought within the parent. */
  lemma {:induction false} PlainThere(parent: Rectangle, p: Placing, size: Size, a: Point)
    requires IsGravityPoint(Rectangle(Point(parent.topLeft.x + p.auxRect.topLeft.x,
                                            parent.topLeft.y + p.auxRect.topLeft.y), p.auxRect.size),
                            p.rectGravity, a)
    ensures var r := Plain(parent, p, size);
            && r.size == size
            && IsGravityPoint(r, p.windowGravity, ConstrainTo(parent, Point(a.x + p.offset.dx, a.y + p.offset.dy)))
  {
    AttachedThere(parent, Aux(parent, p), p.rectGravity, p.windowGravity, p.offset, size, a);
  }

  /** One flip exchanges left and right and keeps the height, the other top and bottom and keeps the side; the antipode
      is both. Flipping an offset turns it round in the same direction only. */
  lemma {:induction false} FlipsMirror(g: Gravity, d: Displacement)
    ensures OnLeft(g.FlipX()) == OnRight(g) && OnRight(g.FlipX()) == OnLeft(g)
    ensures OnTop(g.FlipX()) == OnTop(g) && OnBottom(g.FlipX()) == OnBottom(g)
    ensures OnTop(g.FlipY()) == OnBottom(g) && OnBottom(g.FlipY()) == OnTop(g)
    ensures OnLeft(g.FlipY()) == OnLeft(g) && OnRight(g.FlipY()) == OnRight(g)
    ensures g.Antipodes() == g.FlipX().FlipY()
    ensures FlipDx(d).dx + d.dx == 0 && FlipDx(d).dy == d.dy && FlipDy(d).dx == d.dx && FlipDy(d).dy + d.dy == 0
  {
  }

  // ----- the candidates

  /** The window attached by one pair of gravities, its anchor kept to the parent. */
  function Attached(parent: Rectangle, aux: Rectangle, rectGravity: Gravity, windowGravity: Gravity,
                    offset: Displacement, size: Size): Rectangle {
    var anchor := ConstrainTo(parent, Shift(AnchorFor(aux, rectGravity), offset));
    Rectangle(Shift(anchor, OffsetFor(size, windowGravity)), size)
  }

  function Flipped(parent: Rectangle, aux: Rectangle, g: Gravity, p: Placing, size: Size): seq<Rectangle> {
    [Attached(parent, aux, g, p.windowGravity, p.offset, size)] +
    (if p.hints.flipX
     then [Attached(parent, aux, g.FlipX(), p.windowGravity.FlipX(), FlipDx(p.offset), size)] else []) +
    (if p.hints.flipY
     then [Attached(parent, aux, g.FlipY(), p.windowGravity.FlipY(), FlipDy(p.offset), size)] else []) +
    (if p.hints.flipX && p.hints.flipY
     then [Attached(parent, aux, g.FlipY().FlipX(), p.windowGravity.FlipY().FlipX(), FlipDx(FlipDy(p.offset)), size)]
     else [])
  }

  function SlidOne(start: int, length: int, low: int, high: int): int {
    if start < low then low else if start + length > high then high - length else start
  }

  function Slid(display: Rectangle, hints: Hints, r: Rectangle): Rectangle {
    Rectangle(Point(if hints.slideX then SlidOne(r.Left(), r.size.width, display.Left(), display.Right()) else r.Left(),
                    if hints.slideY then SlidOne(r.Top(), r.size.height, display.Top(), display.Bottom()) else r.Top()),
              r.size)
  }

  /** Where a stretch begins and how long it is, cut at both ends. */
  function Cut(start: int, length: int, low: int, high: int): (int, int) {
    var overLow, overHigh := start - low, start + length - high;
    var length1 := if overLow < 0 then length + overLow else length;
    (if overLow < 0 then low else start, if overHigh > 0 then length1 - overHigh else length1)
  }

  function Cropped(display: Rectangle, hints: Hints, r: Rectangle): Rectangle {
    var (x, width) := if hints.resizeX then Cut(r.Left(), r.size.width, display.Left(), display.Right())
                      else (r.Left(), r.size.width);
    var (y, height) := if hints.resizeY then Cut(r.Top(), r.size.height, display.Top(), display.Bottom())
                       else (r.Top(), r.size.height);
    Rectangle(Point(x, y), Size(width, height))
  }

  function Gravities(p: Placing): seq<Gravity> {
    [p.rectGravity] + if p.hints.antipodes then [p.rectGravity.Antipodes()] else []
  }

  function AllFlipped(parent: Rectangle, aux: Rectangle, gs: seq<Gravity>, p: Placing, size: Size): seq<Rectangle> {
    if gs == [] then []
    else AllFlipped(parent, aux, gs[..|gs| - 1], p, size) + Flipped(parent, aux, gs[|gs| - 1], p, size)
  }

  function AllSlid(display: Rectangle, parent: Rectangle, aux: Rectangle, gs: seq<Gravity>, p: Placing, size: Size)
    : seq<Rectangle>
  {
    if gs == [] then []
    else AllSlid(display, parent, aux, gs[..|gs| - 1], p, size) +
         [Slid(display, p.hints, Attached(parent, aux, gs[|gs| - 1], p.windowGravity, p.offset, size))]
  }

  /** The size is cut for each gravity from what was left by the one before. */
  function AllCropped(display: Rectangle, parent: Rectangle, aux: Rectangle, gs: seq<Gravity>, p: Placing, size: Size)
    : seq<Rectangle>
  {
    if gs == [] then []
    else
      var before := AllCropped(display, parent, aux, gs[..|gs| - 1], p, size);
      var left := if before == [] then size else before[|before| - 1].size;
      before + [Cropped(display, p.hints, Attached(parent, aux, gs[|gs| - 1], p.windowGravity, p.offset, left))]
  }

  function Aux(parent: Rectangle, p: Placing): Rectangle {
    Rectangle(Point(p.auxRect.topLeft.x + parent.topLeft.x, p.auxRect.topLeft.y + parent.topLeft.y), p.auxRect.size)
  }

  /** Everything tried, in order. */
  function Candidates(display: Rectangle, parent: Rectangle, p: Placing, size: Size): seq<Rectangle> {
    var aux, gs := Aux(parent, p), Gravities(p);
    AllFlipped(parent, aux, gs, p, size) + AllSlid(display, parent, aux, gs, p, size) +
    AllCropped(display, parent, aux, gs, p, size)
  }

  /** The first candidate, unadjusted. */
  function Plain(parent: Rectangle, p: Placing, size: Size): Rectangle {
    Attached(parent, Aux(parent, p), p.rectGravity, p.windowGravity, p.offset, size)
  }

  ghost predicate NoneFits(display: Rectangle, cs: seq<Rectangle>) {
    forall i :: 0 <= i < |cs| ==> !display.Contains(cs[i])
  }

  /** r is the first of the candidates inside the display, or the fallback if none is. */
  ghost predicate IsFirstFit(display: Rectangle, cs: seq<Rectangle>, fallback: Rectangle, r: Rectangle) {
    || (exists i :: 0 <= i < |cs| && r == cs[i] && display.Contains(r) && NoneFits(display, cs[..i]))
    || (NoneFits(display, cs) && r == fallback)
  }

  lemma {:induction false} FitsNow(
      display: Rectangle, cs: seq<Rectangle>, more: seq<Rectangle>, all: seq<Rectangle>, fallback: Rectangle)
    requires NoneFits(display, cs) && |more| > 0 && display.Contains(more[0]) && cs + more <= all
    ensures IsFirstFit(display, all, fallback, more[0])
  {
    assert all[|cs|] == (cs + more)[|cs|] == more[0];
    assert all[..|cs|] == (cs + more)[..|cs|] == cs;
  }

  lemma {:induction false} NotYet(display: Rectangle, cs: seq<Rectangle>, r: Rectangle)
    requires NoneFits(display, cs) && !display.Contains(r)
    ensures NoneFits(display, cs + [r])
  {
  }

  /** One more candidate, the next of a list that is part of all of them. */
  lemma {:induction false} FitsOrNot(display: Rectangle, before: seq<Rectangle>, done: seq<Rectangle>, r: Rectangle,
                                     list: seq<Rectangle>, all: seq<Rectangle>, fallback: Rectangle)
    requires NoneFits(display, before + done) && done + [r] <= list && before + list <= all
    ensures if display.Contains(r) then IsFirstFit(display, all, fallback, r)
            else NoneFits(display, before + (done + [r]))
  {
    assert before + (done + [r]) == (before + done) + [r];
    if display.Contains(r) {
      assert before + list == ((before + done) + [r]) + list[|done| + 1..];
      FitsNow(display, before + done, [r], all, fallback);
    }
  }

  // ----- the search

  method PlaceRelative(display: Rectangle, parent: Rectangle, p: Placing, size: Size) returns (place: Rectangle)
    ensures IsFirstFit(display, Candidates(display, parent, p, size), Plain(parent, p, size), place)
  {
    var aux := Aux(parent, p);
    var gs := [p.rectGravity];
    if p.hints.antipodes {
      gs := gs + [p.rectGravity.Antipodes()];
    }
    ghost var all := Candidates(display, parent, p, size);
    ghost var flipped, slid := AllFlipped(parent, aux, gs, p, size), AllSlid(display, parent, aux, gs, p, size);
    ghost var cropped := AllCropped(display, parent, aux, gs, p, size);
    assert gs == Gravities(p) && all == flipped + slid + cropped;
    var found;
    found, place := TryFlipped(display, parent, aux, gs, p, size, all);
    if found {
      return;
    }
    found, place := TrySlid(display, parent, aux, gs, p, size, all, flipped);
    if found {
      return;
    }
    found, place := TryCropped(display, parent, aux, gs, p, size, all, flipped + slid);
    if found {
      return;
    }
    place := Plain(parent, p, size);
  }

  /** The plain place and its flips, for each gravity. */
  method TryFlipped(display: Rectangle, parent: Rectangle, aux: Rectangle, gs: seq<Gravity>, p: Placing, size: Size,
                    ghost all: seq<Rectangle>) returns (found: bool, place: Rectangle)
    requires AllFlipped(parent, aux, gs, p, size) <= all
    ensures found ==> IsFirstFit(display, all, Plain(parent, p, size), place)
    ensures !found ==> NoneFits(display, AllFlipped(parent, aux, gs, p, size))
  {
    place := Plain(parent, p, size);
    for i := 0 to |gs|
      invariant NoneFits(display, AllFlipped(parent, aux, gs[..i], p, size))
    {
      var g := gs[i];
      ghost var before := AllFlipped(parent, aux, gs[..i], p, size);
      assert gs[..i + 1][..i] == gs[..i];
      assert AllFlipped(parent, aux, gs[..i + 1], p, size) == before + Flipped(parent, aux, g, p, size);
      AllFlippedPrefix(parent, aux, gs, i + 1, p, size);
      found, place := TryFlips(display, parent, aux, g, p, size, all, before);
      if found {
        return;
      }
    }
    assert gs[..|gs|] == gs;
    found := false;
  }

  lemma {:induction false} AllFlippedPrefix(
      parent: Rectangle, aux: Rectangle, gs: seq<Gravity>, i: nat, p: Placing, size: Size)
    requires i <= |gs|
    ensures AllFlipped(parent, aux, gs[..i], p, size) <= AllFlipped(parent, aux, gs, p, size)
    decreases |gs| - i
  {
    if i == |gs| {
      assert gs[..i] == gs;
    } else {
      AllFlippedPrefix(parent, aux, gs, i + 1, p, size);
      assert gs[..i + 1][..i] == gs[..i];
    }
  }

  method TryFlips(display: Rectangle, parent: Rectangle, aux: Rectangle, g: Gravity, p: Placing, size: Size,
                  ghost all: seq<Rectangle>, ghost before: seq<Rectangle>) returns (found: bool, place: Rectangle)
    requires NoneFits(display, before) && before + Flipped(parent, aux, g, p, size) <= all
    ensures found ==> IsFirstFit(display, all, Plain(parent, p, size), place)
    ensures !found ==> NoneFits(display, before + Flipped(parent, aux, g, p, size))
  {
    ghost var rest := Flipped(parent, aux, g, p, size);
    ghost var tried := before;
    place := Attached(parent, aux, g, p.windowGravity, p.offset, size);
    if display.Contains(place) {
      FitsNow(display, tried, rest, all, Plain(parent, p, size));
      return true, place;
    }
    NotYet(display, tried, place);
    tried, rest := tried + [place], rest[1..];
    assert tried + rest == before + Flipped(parent, aux, g, p, size);
    if p.hints.flipX {
      place := Attached(parent, aux, g.FlipX(), p.windowGravity.FlipX(), FlipDx(p.offset), size);
      assert rest[0] == place;
      if display.Contains(place) {
        FitsNow(display, tried, rest, all, Plain(parent, p, size));
        return true, place;
      }
      NotYet(display, tried, place);
      tried, rest := tried + [place], rest[1..];
      assert tried + rest == before + Flipped(parent, aux, g, p, size);
    }
    if p.hints.flipY {
      place := Attached(parent, aux, g.FlipY(), p.windowGravity.FlipY(), FlipDy(p.offset), size);
      assert rest[0] == place;
      if display.Contains(place) {
        FitsNow(display, tried, rest, all, Plain(parent, p, size));
        return true, place;
      }
      NotYet(display, tried, place);
      tried, rest := tried + [place], rest[1..];
      assert tried + rest == before + Flipped(parent, aux, g, p, size);
    }
    if p.hints.flipX && p.hints.flipY {
      place := Attached(parent, aux, g.FlipY().FlipX(), p.windowGravity.FlipY().FlipX(),
                        FlipDx(FlipDy(p.offset)), size);
      assert rest[0] == place;
      if display.Contains(place) {
        FitsNow(display, tried, rest, all, Plain(parent, p, size));
        return true, place;
      }
      NotYet(display, tried, place);
      tried, rest := tried + [place], rest[1..];
    }
    assert rest == [] && tried == before + Flipped(parent, aux, g, p, size);
    found := false;
  }

  method TrySlid(display: Rectangle, parent: Rectangle, aux: Rectangle, gs: seq<Gravity>, p: Placing, size: Size,
                 ghost all: seq<Rectangle>, ghost before: seq<Rectangle>) returns (found: bool, place: Rectangle)
    requires NoneFits(display, before) && before + AllSlid(display, parent, aux, gs, p, size) <= all
    ensures found ==> IsFirstFit(display, all, Plain(parent, p, size), place)
    ensures !found ==> NoneFits(display, before + AllSlid(display, parent, aux, gs, p, size))
  {
    hide IsFirstFit;
    place := Plain(parent, p, size);
    for i := 0 to |gs|
      invariant NoneFits(display, before + AllSlid(display, parent, aux, gs[..i], p, size))
    {
      assert gs[..i + 1][..i] == gs[..i];
      place := Attached(parent, aux, gs[i], p.windowGravity, p.offset, size);
      place := Slide(display, p.hints, place);
      AllSlidPrefix(display, parent, aux, gs, i + 1, p, size);
      FitsOrNot(display, before, AllSlid(display, parent, aux, gs[..i], p, size), place,
                AllSlid(display, parent, aux, gs, p, size), all, Plain(parent, p, size));
      if display.Contains(place) {
        return true, place;
      }
    }
    assert gs[..|gs|] == gs;
    found := false;
  }

  method Slide(display: Rectangle, hints: Hints, candidate: Rectangle) returns (place: Rectangle)
    ensures place == Slid(display, hints, candidate)
  {
    place := candidate;
    if hints.slideX {
      var leftOverhang, rightOverhang := place.Left() - display.Left(), place.Right() - display.Right();
      if leftOverhang < 0 {
        place := place.(topLeft := place.topLeft.(x := place.Left() - leftOverhang));
      } else if rightOverhang > 0 {
        place := place.(topLeft := place.topLeft.(x := place.Left() - rightOverhang));
      }
    }
    if hints.slideY {
      var topOverhang, botOverhang := place.Top() - display.Top(), place.Bottom() - display.Bottom();
      if topOverhang < 0 {
        place := place.(topLeft := place.topLeft.(y := place.Top() - topOverhang));
      } else if botOverhang > 0 {
        place := place.(topLeft := place.topLeft.(y := place.Top() - botOverhang));
      }
    }
  }

  lemma {:induction false} AllSlidPrefix(
      display: Rectangle, parent: Rectangle, aux: Rectangle, gs: seq<Gravity>, i: nat, p: Placing, size: Size)
    requires i <= |gs|
    ensures AllSlid(display, parent, aux, gs[..i], p, size) <= AllSlid(display, parent, aux, gs, p, size)
    decreases |gs| - i
  {
    if i == |gs| {
      assert gs[..i] == gs;
    } else {
      AllSlidPrefix(display, parent, aux, gs, i + 1, p, size);
      assert gs[..i + 1][..i] == gs[..i];
    }
  }

  method TryCropped(display: Rectangle, parent: Rectangle, aux: Rectangle, gs: seq<Gravity>, p: Placing, size: Size,
                    ghost all: seq<Rectangle>, ghost before: seq<Rectangle>) returns (found: bool, place: Rectangle)
    requires NoneFits(display, before) && before + AllCropped(display, parent, aux, gs, p, size) <= all
    ensures found ==> IsFirstFit(display, all, Plain(parent, p, size), place)
    ensures !found ==> NoneFits(display, before + AllCropped(display, parent, aux, gs, p, size))
  {
    place := Plain(parent, p, size);
    var current := size;
    for i := 0 to |gs|
      invariant NoneFits(display, before + AllCropped(display, parent, aux, gs[..i], p, size))
      invariant current == CroppedSize(display, parent, aux, gs[..i], p, size)
    {
      place := Attached(parent, aux, gs[i], p.windowGravity, p.offset, current);
      place := Crop(display, p.hints, place);
      current := place.size;
      CropNext(display, parent, aux, gs, i, p, size);
      AllCroppedPrefix(display, parent, aux, gs, i + 1, p, size);
      FitsOrNot(display, before, AllCropped(display, parent, aux, gs[..i], p, size), place,
                AllCropped(display, parent, aux, gs, p, size), all, Plain(parent, p, size));
      if display.Contains(place) {
        return true, place;
      }
    }
    assert gs[..|gs|] == gs;
    found := false;
  }

  /** The size a resized candidate is left with is the one the next is tried with. */
  ghost function CroppedSize(
      display: Rectangle, parent: Rectangle, aux: Rectangle, gs: seq<Gravity>, p: Placing, size: Size): Size {
    var done := AllCropped(display, parent, aux, gs, p, size);
    if done == [] then size else done[|done| - 1].size
  }

  lemma {:induction false} CropNext(
      display: Rectangle, parent: Rectangle, aux: Rectangle, gs: seq<Gravity>, i: nat, p: Placing, size: Size)
    requires i < |gs|
    ensures var place := Cropped(display, p.hints, Attached(parent, aux, gs[i], p.windowGravity, p.offset,
                                                            CroppedSize(display, parent, aux, gs[..i], p, size)));
            && AllCropped(display, parent, aux, gs[..i + 1], p, size) ==
               AllCropped(display, parent, aux, gs[..i], p, size) + [place]
            && CroppedSize(display, parent, aux, gs[..i + 1], p, size) == place.size
  {
    assert gs[..i + 1][..i] == gs[..i];
  }

  method Crop(display: Rectangle, hints: Hints, candidate: Rectangle) returns (place: Rectangle)
    ensures place == Cropped(display, hints, candidate)
  {
    place := candidate;
    if hints.resizeX {
      place := CropX(display, place);
    }
    if hints.resizeY {
      place := CropY(display, place);
    }
  }

  method CropX(display: Rectangle, r: Rectangle) returns (cropped: Rectangle)
    ensures var (x, width) := Cut(r.Left(), r.size.width, display.Left(), display.Right());
            cropped == Rectangle(Point(x, r.Top()), Size(width, r.size.height))
  {
    cropped := r;
    var leftOverhang, rightOverhang := r.Left() - display.Left(), r.Right() - display.Right();
    if leftOverhang < 0 {
      cropped := Rectangle(Point(r.Left() - leftOverhang, r.Top()), Size(r.size.width + leftOverhang, r.size.height));
    }
    if rightOverhang > 0 {
      cropped := cropped.(size := Size(cropped.size.width - rightOverhang, cropped.size.height));
    }
  }

  method CropY(display: Rectangle, r: Rectangle) returns (cropped: Rectangle)
    ensures var (y, height) := Cut(r.Top(), r.size.height, display.Top(), display.Bottom());
            cropped == Rectangle(Point(r.Left(), y), Size(r.size.width, height))
  {
    cropped := r;
    var topOverhang, botOverhang := r.Top() - display.Top(), r.Bottom() - display.Bottom();
    if topOverhang < 0 {
      cropped := Rectangle(Point(r.Left(), r.Top() - topOverhang), Size(r.size.width, r.size.height + topOverhang));
    }
    if botOverhang > 0 {
      cropped := cropped.(size := Size(cropped.size.width, cropped.size.height - botOverhang));
    }
  }

  lemma {:induction false} AllCroppedPrefix(
      display: Rectangle, parent: Rectangle, aux: Rectangle, gs: seq<Gravity>, i: nat, p: Placing, size: Size)
    requires i <= |gs|
    ensures AllCropped(display, parent, aux, gs[..i], p, size) <= AllCropped(display, parent, aux, gs, p, size)
    decreases |gs| - i
  {
    if i == |gs| {
      assert gs[..i] == gs;
    } else {
      AllCroppedPrefix(display, parent, aux, gs, i + 1, p, size);
      assert gs[..i + 1][..i] == gs[..i];
    }
  }

  // ----- what the search guarantees

  /** The result as a value. */
  function FirstFit(display: Rectangle, cs: seq<Rectangle>, fallback: Rectangle): Rectangle {
    if cs == [] then fallback else if display.Contains(cs[0]) then cs[0] else FirstFit(display, cs[1..], fallback)
  }

  lemma {:induction false} FirstFitIsIt(display: Rectangle, cs: seq<Rectangle>, fallback: Rectangle, i: nat)
    requires i <= |cs| && NoneFits(display, cs[..i])
    ensures IsFirstFit(display, cs, fallback, FirstFit(display, cs[i..], fallback))
    decreases |cs| - i
  {
    if i == |cs| {
      assert cs[..i] == cs;
    } else if !display.Contains(cs[i]) {
      assert cs[i..][1..] == cs[i + 1..] && cs[..i + 1] == cs[..i] + [cs[i]];
      FirstFitIsIt(display, cs, fallback, i + 1);
    }
  }

  function PlacedRelative(display: Rectangle, parent: Rectangle, p: Placing, size: Size): Rectangle {
    FirstFit(display, Candidates(display, parent, p, size), Plain(parent, p, size))
  }

  lemma {:induction false} PlacedIsFirstFit(display: Rectangle, parent: Rectangle, p: Placing, size: Size)
    ensures IsFirstFit(display, Candidates(display, parent, p, size), Plain(parent, p, size),
                       PlacedRelative(display, parent, p, size))
  {
    var cs := Candidates(display, parent, p, size);
    assert cs[..0] == [] && cs[0..] == cs;
    FirstFitIsIt(display, cs, Plain(parent, p, size), 0);
  }

  lemma {:induction false} EarlierFits(display: Rectangle, cs: seq<Rectangle>, i: nat, j: nat)
    requires i < j <= |cs| && display.Contains(cs[i])
    ensures !NoneFits(display, cs[..j])
  {
    assert cs[..j][i] == cs[i];
  }

  /** There is one first fit. */
  lemma {:induction false} FirstFitUnique(
      display: Rectangle, cs: seq<Rectangle>, fallback: Rectangle, a: Rectangle, b: Rectangle)
    requires IsFirstFit(display, cs, fallback, a) && IsFirstFit(display, cs, fallback, b)
    ensures a == b
  {
    if !NoneFits(display, cs) {
      var i :| 0 <= i < |cs| && a == cs[i] && display.Contains(a) && NoneFits(display, cs[..i]);
      var j :| 0 <= j < |cs| && b == cs[j] && display.Contains(b) && NoneFits(display, cs[..j]);
      if i < j {
        EarlierFits(display, cs, i, j);
      } else if j < i {
        EarlierFits(display, cs, j, i);
      }
    }
  }

  lemma {:induction false} FlippedSizes(parent: Rectangle, aux: Rectangle, gs: seq<Gravity>, p: Placing, size: Size)
    ensures forall i :: 0 <= i < |AllFlipped(parent, aux, gs, p, size)| ==>
              AllFlipped(parent, aux, gs, p, size)[i].size == size
  {
    if gs != [] {
      FlippedSizes(parent, aux, gs[..|gs| - 1], p, size);
    }
  }

  lemma {:induction false} SlidSizes(
      display: Rectangle, parent: Rectangle, aux: Rectangle, gs: seq<Gravity>, p: Placing, size: Size)
    ensures var slid := AllSlid(display, parent, aux, gs, p, size);
            |slid| == |gs| && forall i :: 0 <= i < |slid| ==> slid[i].size == size
    ensures |gs| > 0 ==> AllSlid(display, parent, aux, gs, p, size)[0] ==
                           Slid(display, p.hints, Attached(parent, aux, gs[0], p.windowGravity, p.offset, size))
  {
    if gs != [] {
      SlidSizes(display, parent, aux, gs[..|gs| - 1], p, size);
    }
  }

  lemma {:induction false} FitBy(display: Rectangle, cs: seq<Rectangle>, fallback: Rectangle, r: Rectangle, n: nat)
    requires IsFirstFit(display, cs, fallback, r) && n < |cs| && display.Contains(cs[n])
    ensures exists i :: 0 <= i <= n && r == cs[i] && display.Contains(r)
  {
    var i :| 0 <= i < |cs| && r == cs[i] && display.Contains(r) && NoneFits(display, cs[..i]);
    if n < i {
      EarlierFits(display, cs, n, i);
    }
  }

  /** With both slide hints a window no larger than the display ends up inside it, at its full size. */
  lemma {:induction false} SlidingKeepsSize(display: Rectangle, parent: Rectangle, p: Placing, size: Size, r: Rectangle)
    requires p.hints.slideX && p.hints.slideY
    requires size.width <= display.size.width && size.height <= display.size.height
    requires IsFirstFit(display, Candidates(display, parent, p, size), Plain(parent, p, size), r)
    ensures display.Contains(r) && r.size == size
  {
    var aux, gs := Aux(parent, p), Gravities(p);
    var flipped, slid := AllFlipped(parent, aux, gs, p, size), AllSlid(display, parent, aux, gs, p, size);
    var cs := Candidates(display, parent, p, size);
    FlippedSizes(parent, aux, gs, p, size);
    SlidSizes(display, parent, aux, gs, p, size);
    assert cs[|flipped|] == slid[0];
    FitBy(display, cs, Plain(parent, p, size), r, |flipped|);
  }

  /** The candidates at full size. */
  function Unresized(display: Rectangle, parent: Rectangle, p: Placing, size: Size): seq<Rectangle> {
    var aux, gs := Aux(parent, p), Gravities(p);
    AllFlipped(parent, aux, gs, p, size) + AllSlid(display, parent, aux, gs, p, size)
  }

  /** Sliding along an axis moves the window along that axis only, not at all if it is within the display, and else to
      the nearest place where it is, as far as it fits; without the hint it stays. */
  lemma {:induction false} SlidesAlong(display: Rectangle, hints: Hints, r: Rectangle)
    ensures var s := Slid(display, hints, r);
            && s.size == r.size
            && (if hints.slideX then SlidIn(r.topLeft.x, s.topLeft.x, r.size.width, display.Left(), display.Right())
                else s.topLeft.x == r.topLeft.x)
            && (if hints.slideY then SlidIn(r.topLeft.y, s.topLeft.y, r.size.height, display.Top(), display.Bottom())
                else s.topLeft.y == r.topLeft.y)
  {
  }

  /** From start to now: the nearest start that leaves the stretch within the bounds; one too long for them has its
      near end inside. */
  predicate SlidIn(start: int, now: int, length: int, low: int, high: int) {
    if start >= low && start + length <= high then now == start
    else if start < low then now == low
    else now + length == high
  }

  /** Cutting along an axis leaves the part within the display's bounds along that axis; without the hint all. */
  lemma {:induction false} CutAlong(display: Rectangle, hints: Hints, r: Rectangle)
    ensures var c := Cropped(display, hints, r);
            && (if hints.resizeX
                then c.Left() == Max(r.Left(), display.Left()) && c.Right() == Min(r.Right(), display.Right())
                else c.Left() == r.Left() && c.Right() == r.Right())
            && (if hints.resizeY
                then c.Top() == Max(r.Top(), display.Top()) && c.Bottom() == Min(r.Bottom(), display.Bottom())
                else c.Top() == r.Top() && c.Bottom() == r.Bottom())
  {
  }

  /** A rectangle cut on both axes never reaches over the display's edges, but it only has an area if it had a part on
      the display: a place beyond an edge is left with no size or a negative one. */
  lemma {:induction false} CutToDisplay(display: Rectangle, hints: Hints, r: Rectangle)
    requires hints.resizeX && hints.resizeY
    ensures display.Contains(Cropped(display, hints, r))
    ensures display.Contains(r) ==> Cropped(display, hints, r) == r
    ensures display.Overlaps(r) ==> Cropped(display, hints, r) == display.Intersection(r)
    ensures display.size.HasArea() && r.size.HasArea() ==>
              (Cropped(display, hints, r).size.HasArea() <==> display.Overlaps(r))
  {
  }

  lemma {:induction false} FirstCropped(display: Rectangle, parent: Rectangle, p: Placing, size: Size)
    ensures var cropped := AllCropped(display, parent, Aux(parent, p), Gravities(p), p, size);
            |cropped| > 0 && cropped[0] == Cropped(display, p.hints, Plain(parent, p, size))
  {
    var aux, one := Aux(parent, p), [p.rectGravity];
    assert one[..0] == [] && Gravities(p)[..1] == one;
    assert AllCropped(display, parent, aux, one, p, size) == [Cropped(display, p.hints, Plain(parent, p, size))];
    AllCroppedPrefix(display, parent, aux, Gravities(p), 1, p, size);
  }

  /** With both resize hints, and any others: if no candidate fits at full size then what is placed is the plain place
      cut to the display, whatever the antipode. */
  lemma {:induction false} ResizingCrops(display: Rectangle, parent: Rectangle, p: Placing, size: Size, r: Rectangle)
    requires p.hints.resizeX && p.hints.resizeY
    requires IsFirstFit(display, Candidates(display, parent, p, size), Plain(parent, p, size), r)
    requires NoneFits(display, Unresized(display, parent, p, size))
    ensures r == Cropped(display, p.hints, Plain(parent, p, size))
  {
    var full, cs := Unresized(display, parent, p, size), Candidates(display, parent, p, size);
    var plain := Plain(parent, p, size);
    FirstCropped(display, parent, p, size);
    CutToDisplay(display, p.hints, plain);
    assert cs[|full|] == Cropped(display, p.hints, plain);
    FitBy(display, cs, plain, r, |full|);
    var i :| 0 <= i <= |full| && r == cs[i] && display.Contains(r);
    assert i < |full| ==> full[i] == cs[i];
  }

  /** So with both resize hints what is placed has an area if and only if a candidate fits at full size or the plain
      place has a part on the display, in which case it is that part. */
  lemma {:induction false} ResizedHasArea(display: Rectangle, parent: Rectangle, p: Placing, size: Size, r: Rectangle)
    requires p.hints.resizeX && p.hints.resizeY && display.size.HasArea() && size.HasArea()
    requires IsFirstFit(display, Candidates(display, parent, p, size), Plain(parent, p, size), r)
    ensures r.size.HasArea() <==>
            !NoneFits(display, Unresized(display, parent, p, size)) || display.Overlaps(Plain(parent, p, size))
  {
    if NoneFits(display, Unresized(display, parent, p, size)) {
      ResizingCrops(display, parent, p, size, r);
      CutToDisplay(display, p.hints, Plain(parent, p, size));
    } else {
      FullSize(display, parent, p, size, r);
    }
  }

  lemma {:induction false} FullSize(display: Rectangle, parent: Rectangle, p: Placing, size: Size, r: Rectangle)
    requires IsFirstFit(display, Candidates(display, parent, p, size), Plain(parent, p, size), r)
    requires !NoneFits(display, Unresized(display, parent, p, size))
    ensures r.size == size && display.Contains(r)
  {
    var full, cs := Unresized(display, parent, p, size), Candidates(display, parent, p, size);
    FlippedSizes(parent, Aux(parent, p), Gravities(p), p, size);
    SlidSizes(display, parent, Aux(parent, p), Gravities(p), p, size);
    var n :| 0 <= n < |full| && display.Contains(full[n]);
    assert cs[n] == full[n];
    FitBy(display, cs, Plain(parent, p, size), r, n);
    var i :| 0 <= i <= n && r == cs[i];
    assert cs[i] == full[i];
  }

  /** With the resize hints and no others the result is the plain place cut to the display, and that part of it which
      is on the display if any is. */
  lemma {:induction false} OnlyResizing(display: Rectangle, parent: Rectangle, p: Placing, size: Size, r: Rectangle)
    requires p.hints == Hints(false, false, false, false, true, true, false)
    requires IsFirstFit(display, Candidates(display, parent, p, size), Plain(parent, p, size), r)
    ensures var plain := Plain(parent, p, size);
            r == Cropped(display, p.hints, plain) && (display.Overlaps(plain) ==> r == display.Intersection(plain))
  {
    hide Cropped;
    var plain := Plain(parent, p, size);
    var gs := [p.rectGravity];
    assert Gravities(p) == gs && gs[..0] == [];
    var aux := Aux(parent, p);
    assert AllFlipped(parent, aux, gs, p, size) == [plain] && AllSlid(display, parent, aux, gs, p, size) == [plain];
    assert Unresized(display, parent, p, size) == [plain, plain];
    CutToDisplay(display, p.hints, plain);
    if display.Contains(plain) {
      var cs := Candidates(display, parent, p, size);
      assert cs[0] == plain;
      FitBy(display, cs, plain, r, 0);
    } else {
      ResizingCrops(display, parent, p, size, r);
    }
  }

  /** A place 500 pixels to the right of a display of 100 gets a width of -400. */
  lemma {:induction false} BeyondTheEdge()
    ensures var display := Rectangle(Point(0, 0), Size(100, 100));
            var hints := Hints(false, false, false, false, true, true, false);
            Cropped(display, hints, Rectangle(Point(500, 40), Size(20, 20))) ==
            Rectangle(Point(500, 40), Size(-400, 20))
  {
  }

  /** The result reaches over an edge of the display only if every candidate does, and is the plain one then. Without
      resize hints it always has the full size; with them, one that does not may have lost its area. */
  lemma {:induction false} OffDisplay(display: Rectangle, parent: Rectangle, p: Placing, size: Size, r: Rectangle)
    requires IsFirstFit(display, Candidates(display, parent, p, size), Plain(parent, p, size), r)
    ensures display.Contains(r) <==> !NoneFits(display, Candidates(display, parent, p, size))
    ensures !display.Contains(r) ==> r == Plain(parent, p, size)
    ensures r.size == size ||
            (NoneFits(display, Unresized(display, parent, p, size)) && (p.hints.resizeX || p.hints.resizeY))
  {
    hide Attached, AllFlipped, AllSlid, AllCropped, Gravities, Candidates, Unresized;
    FallbackTried(display, parent, p, size);
    if !NoneFits(display, Unresized(display, parent, p, size)) {
      FullSize(display, parent, p, size, r);
    } else if !p.hints.resizeX && !p.hints.resizeY && display.Contains(r) {
      NotResized(display, parent, p, size, r);
    }
  }

  lemma {:induction false} FallbackTried(display: Rectangle, parent: Rectangle, p: Placing, size: Size)
    ensures var cs := Candidates(display, parent, p, size);
            |cs| > 0 && cs[0] == Plain(parent, p, size) && Plain(parent, p, size).size == size
  {
    FirstIsPlain(parent, p, size);
    var flipped := AllFlipped(parent, Aux(parent, p), Gravities(p), p, size);
    assert Candidates(display, parent, p, size)[0] == flipped[0];
  }

  lemma {:induction false} NotResized(display: Rectangle, parent: Rectangle, p: Placing, size: Size, r: Rectangle)
    requires IsFirstFit(display, Candidates(display, parent, p, size), Plain(parent, p, size), r)
    requires NoneFits(display, Unresized(display, parent, p, size)) && display.Contains(r)
    requires !p.hints.resizeX && !p.hints.resizeY
    ensures r.size == size
  {
    hide Attached, AllFlipped, AllSlid, AllCropped, Gravities;
    FallbackTried(display, parent, p, size);
    UncroppedSizes(display, parent, Aux(parent, p), Gravities(p), p, size);
    var full, cs := Unresized(display, parent, p, size), Candidates(display, parent, p, size);
    var cropped := AllCropped(display, parent, Aux(parent, p), Gravities(p), p, size);
    assert cs == full + cropped;
    assert forall k :: 0 <= k < |full| ==> cs[k] == full[k] && !display.Contains(cs[k]);
    var i :| 0 <= i < |cs| && r == cs[i] && display.Contains(r);
    assert cs[i] == cropped[i - |full|];
  }

  lemma {:induction false} UncroppedSizes(
      display: Rectangle, parent: Rectangle, aux: Rectangle, gs: seq<Gravity>, p: Placing, size: Size)
    requires !p.hints.resizeX && !p.hints.resizeY
    ensures forall c :: c in AllCropped(display, parent, aux, gs, p, size) ==> c.size == size
  {
    if gs != [] {
      var before := AllCropped(display, parent, aux, gs[..|gs| - 1], p, size);
      UncroppedSizes(display, parent, aux, gs[..|gs| - 1], p, size);
      assert before != [] ==> before[|before| - 1] in before;
    }
  }

  lemma {:induction false} FirstIsPlain(parent: Rectangle, p: Placing, size: Size)
    ensures var flipped := AllFlipped(parent, Aux(parent, p), Gravities(p), p, size);
            |flipped| > 0 && flipped[0] == Plain(parent, p, size)
  {
    var aux, one := Aux(parent, p), [p.rectGravity];
    assert one[..0] == [];
    assert AllFlipped(parent, aux, one, p, size) == Flipped(parent, aux, p.rectGravity, p, size);
    AllFlippedPrefix(parent, aux, Gravities(p), 1, p, size);
    assert Gravities(p)[..1] == one;
  }

  /** Wherever the window goes in the first round, its anchor is a point of the parent: the nearest one. */
  lemma {:induction false} AnchorOnParent(parent: Rectangle, point: Point, other: Point)
    requires parent.size.width >= 0 && parent.size.height >= 0
    requires parent.Left() <= other.x <= parent.Right() && parent.Top() <= other.y <= parent.Bottom()
    ensures var a := ConstrainTo(parent, point);
            && parent.Left() <= a.x <= parent.Right() && parent.Top() <= a.y <= parent.Bottom()
            && Distance(point.x, a.x) <= Distance(point.x, other.x)
            && Distance(point.y, a.y) <= Distance(point.y, other.y)
  {
  }

  function Distance(a: int, b: int): int { if a < b then b - a else a - b }

  // ----- the order of trying

  /** A place that is tried if the hints allow it. */
  datatype Attempt = Attempt(allowed: bool, place: Rectangle)

  function FirstOf(display: Rectangle, attempts: seq<Attempt>, fallback: Rectangle): Rectangle {
    if attempts == [] then fallback
    else if attempts[0].allowed && display.Contains(attempts[0].place) then attempts[0].place
    else FirstOf(display, attempts[1..], fallback)
  }

  function Allowed(attempts: seq<Attempt>): seq<Rectangle> {
    if attempts == [] then []
    else (if attempts[0].allowed then [attempts[0].place] else []) + Allowed(attempts[1..])
  }

  lemma {:induction false} AllowedConcat(a: seq<Attempt>, b: seq<Attempt>)
    ensures Allowed(a + b) == Allowed(a) + Allowed(b)
  {
    if a == [] {
      assert a + b == b;
    } else {
      assert (a + b)[1..] == a[1..] + b;
      AllowedConcat(a[1..], b);
    }
  }

  lemma {:induction false} FirstOfAllowed(display: Rectangle, attempts: seq<Attempt>, fallback: Rectangle)
    ensures FirstOf(display, attempts, fallback) == FirstFit(display, Allowed(attempts), fallback)
  {
    if attempts != [] {
      FirstOfAllowed(display, attempts[1..], fallback);
      if attempts[0].allowed {
        assert Allowed(attempts)[1..] == Allowed(attempts[1..]);
      } else {
        assert Allowed(attempts) == Allowed(attempts[1..]);
      }
    }
  }

  /** As asked for; flipped sideways; flipped up or down; both. */
  function FlipAttempts(parent: Rectangle, aux: Rectangle, g: Gravity, p: Placing, size: Size, try: bool)
    : seq<Attempt>
  {
    var (wg, d) := (p.windowGravity, p.offset);
    [Attempt(try, Attached(parent, aux, g, wg, d, size)),
     Attempt(try && p.hints.flipX,
             Attached(parent, aux, g.FlipX(), wg.FlipX(), Displacement(-d.dx, d.dy), size)),
     Attempt(try && p.hints.flipY,
             Attached(parent, aux, g.FlipY(), wg.FlipY(), Displacement(d.dx, -d.dy), size)),
     Attempt(try && p.hints.flipX && p.hints.flipY,
             Attached(parent, aux, g.Antipodes(), wg.Antipodes(), Displacement(-d.dx, -d.dy), size))]
  }

  lemma {:induction false} FlipsAllowed(
      parent: Rectangle, aux: Rectangle, g: Gravity, p: Placing, size: Size, try: bool)
    ensures Allowed(FlipAttempts(parent, aux, g, p, size, try)) ==
            if try then Flipped(parent, aux, g, p, size) else []
  {
    hide Attached;
    var a := FlipAttempts(parent, aux, g, p, size, try);
    Flips(g);
    Flips(p.windowGravity);
    FourAllowed(a[0], a[1], a[2], a[3]);
  }

  lemma {:induction false} NextAllowed(a: Attempt, rest: seq<Attempt>)
    ensures Allowed([a] + rest) == (if a.allowed then [a.place] else []) + Allowed(rest)
  {
    assert ([a] + rest)[1..] == rest;
  }

  lemma {:induction false} TwoAllowed(a: Attempt, b: Attempt)
    ensures Allowed([a, b]) == (if a.allowed then [a.place] else []) + if b.allowed then [b.place] else []
  {
    NextAllowed(b, []);
    NextAllowed(a, [b]);
    assert [b] + [] == [b] && [a] + [b] == [a, b];
  }

  lemma {:induction false} FourAllowed(a: Attempt, b: Attempt, c: Attempt, d: Attempt)
    ensures Allowed([a, b, c, d]) ==
            (if a.allowed then [a.place] else []) + (if b.allowed then [b.place] else []) +
            (if c.allowed then [c.place] else []) + (if d.allowed then [d.place] else [])
  {
    TwoAllowed(c, d);
    NextAllowed(b, [c, d]);
    NextAllowed(a, [b, c, d]);
    assert [b] + [c, d] == [b, c, d] && [a] + [b, c, d] == [a, b, c, d];
  }

  /** Everything that is tried, for the gravity asked for and then, if that is allowed, for its antipode: first all
      flips, then sliding, then resizing. */
  function Attempts(display: Rectangle, parent: Rectangle, p: Placing, size: Size): seq<Attempt> {
    var aux := Rectangle(Point(parent.topLeft.x + p.auxRect.topLeft.x, parent.topLeft.y + p.auxRect.topLeft.y),
                         p.auxRect.size);
    var (g, h) := (p.rectGravity, p.rectGravity.Antipodes());
    var cut := Cropped(display, p.hints, Attached(parent, aux, g, p.windowGravity, p.offset, size));
    FlipAttempts(parent, aux, g, p, size, true) + FlipAttempts(parent, aux, h, p, size, p.hints.antipodes) +
    [Attempt(true, Slid(display, p.hints, Attached(parent, aux, g, p.windowGravity, p.offset, size))),
     Attempt(p.hints.antipodes,
             Slid(display, p.hints, Attached(parent, aux, h, p.windowGravity, p.offset, size)))] +
    [Attempt(true, cut),
     Attempt(p.hints.antipodes,
             Cropped(display, p.hints, Attached(parent, aux, h, p.windowGravity, p.offset, cut.size)))]
  }

  lemma {:induction false} TriedFlips(parent: Rectangle, aux: Rectangle, p: Placing, size: Size)
    ensures Allowed(FlipAttempts(parent, aux, p.rectGravity, p, size, true) +
                    FlipAttempts(parent, aux, p.rectGravity.Antipodes(), p, size, p.hints.antipodes)) ==
            AllFlipped(parent, aux, Gravities(p), p, size)
  {
    hide Attached, FlipAttempts, Flipped, Allowed;
    var (g, h) := (p.rectGravity, p.rectGravity.Antipodes());
    FlipsAllowed(parent, aux, g, p, size, true);
    FlipsAllowed(parent, aux, h, p, size, p.hints.antipodes);
    AllowedConcat(FlipAttempts(parent, aux, g, p, size, true),
                  FlipAttempts(parent, aux, h, p, size, p.hints.antipodes));
    assert Gravities(p)[..|Gravities(p)| - 1] == if p.hints.antipodes then [g] else [];
    assert AllFlipped(parent, aux, [], p, size) == [];
    assert [g][..0] == [];
  }

  lemma {:induction false} TriedSlides(display: Rectangle, parent: Rectangle, aux: Rectangle, p: Placing, size: Size)
    ensures var (g, h) := (p.rectGravity, p.rectGravity.Antipodes());
            Allowed([Attempt(true, Slid(display, p.hints, Attached(parent, aux, g, p.windowGravity, p.offset, size))),
                     Attempt(p.hints.antipodes,
                             Slid(display, p.hints, Attached(parent, aux, h, p.windowGravity, p.offset, size)))]) ==
            AllSlid(display, parent, aux, Gravities(p), p, size)
  {
    hide Attached, Slid, Allowed;
    var (g, h) := (p.rectGravity, p.rectGravity.Antipodes());
    TwoAllowed(Attempt(true, Slid(display, p.hints, Attached(parent, aux, g, p.windowGravity, p.offset, size))),
               Attempt(p.hints.antipodes,
                       Slid(display, p.hints, Attached(parent, aux, h, p.windowGravity, p.offset, size))));
    assert Gravities(p)[..|Gravities(p)| - 1] == if p.hints.antipodes then [g] else [];
    assert [g][..0] == [] && AllSlid(display, parent, aux, [], p, size) == [];
  }

  lemma {:induction false} TriedCuts(display: Rectangle, parent: Rectangle, aux: Rectangle, p: Placing, size: Size)
    ensures var (g, h) := (p.rectGravity, p.rectGravity.Antipodes());
            var cut := Cropped(display, p.hints, Attached(parent, aux, g, p.windowGravity, p.offset, size));
            Allowed([Attempt(true, cut),
                     Attempt(p.hints.antipodes,
                             Cropped(display, p.hints,
                                     Attached(parent, aux, h, p.windowGravity, p.offset, cut.size)))]) ==
            AllCropped(display, parent, aux, Gravities(p), p, size)
  {
    hide Attached, Cropped, Allowed;
    var (g, h) := (p.rectGravity, p.rectGravity.Antipodes());
    var cut := Cropped(display, p.hints, Attached(parent, aux, g, p.windowGravity, p.offset, size));
    TwoAllowed(Attempt(true, cut),
               Attempt(p.hints.antipodes,
                       Cropped(display, p.hints, Attached(parent, aux, h, p.windowGravity, p.offset, cut.size))));
    assert Gravities(p)[..|Gravities(p)| - 1] == if p.hints.antipodes then [g] else [];
    assert [g][..0] == [] && AllCropped(display, parent, aux, [], p, size) == [];
    assert AllCropped(display, parent, aux, [g], p, size) == [cut];
  }

  /** What is placed is the first of these attempts that is allowed and inside the display, or else the first. */
  lemma {:induction false} TriedInOrder(display: Rectangle, parent: Rectangle, p: Placing, size: Size, r: Rectangle)
    requires IsFirstFit(display, Candidates(display, parent, p, size), Plain(parent, p, size), r)
    ensures r == FirstOf(display, Attempts(display, parent, p, size), Attempts(display, parent, p, size)[0].place)
  {
    hide Attached, Slid, Cropped, FlipAttempts, AllFlipped, AllSlid, AllCropped, IsFirstFit, FirstFit;
    var attempts := Attempts(display, parent, p, size);
    var aux, plain := Aux(parent, p), Plain(parent, p, size);
    AttemptsAreCandidates(display, parent, p, size);
    FirstOfAllowed(display, attempts, plain);
    PlacedIsFirstFit(display, parent, p, size);
    FirstFitUnique(display, Candidates(display, parent, p, size), plain, r,
                   PlacedRelative(display, parent, p, size));
    FirstAttempt(display, parent, p, size);
  }

  lemma {:induction false} FirstAttempt(display: Rectangle, parent: Rectangle, p: Placing, size: Size)
    ensures |Attempts(display, parent, p, size)| > 0
    ensures Attempts(display, parent, p, size)[0].place == Plain(parent, p, size)
  {
    hide Attached, Slid, Cropped;
    var first := FlipAttempts(parent, Aux(parent, p), p.rectGravity, p, size, true);
    assert Attempts(display, parent, p, size)[0] == first[0];
  }

  lemma {:induction false} AttemptsAreCandidates(display: Rectangle, parent: Rectangle, p: Placing, size: Size)
    ensures Allowed(Attempts(display, parent, p, size)) == Candidates(display, parent, p, size)
  {
    hide Attached, Slid, Cropped, FlipAttempts, AllFlipped, AllSlid, AllCropped, Allowed, Gravities;
    var aux, attempts := Aux(parent, p), Attempts(display, parent, p, size);
    var (g, h) := (p.rectGravity, p.rectGravity.Antipodes());
    var cut := Cropped(display, p.hints, Attached(parent, aux, g, p.windowGravity, p.offset, size));
    var flips := FlipAttempts(parent, aux, g, p, size, true) + FlipAttempts(parent, aux, h, p, size, p.hints.antipodes);
    var slides := [Attempt(true, Slid(display, p.hints, Attached(parent, aux, g, p.windowGravity, p.offset, size))),
                   Attempt(p.hints.antipodes,
                           Slid(display, p.hints, Attached(parent, aux, h, p.windowGravity, p.offset, size)))];
    var cuts := [Attempt(true, cut),
                 Attempt(p.hints.antipodes,
                         Cropped(display, p.hints, Attached(parent, aux, h, p.windowGravity, p.offset, cut.size)))];
    TriedFlips(parent, aux, p, size);
    TriedSlides(display, parent, aux, p, size);
    TriedCuts(display, parent, aux, p, size);
    AllowedConcat(flips, slides);
    AllowedConcat(flips + slides, cuts);
    assert attempts == flips + slides + cuts;
  }
}
