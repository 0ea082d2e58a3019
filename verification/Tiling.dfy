/** The layout of the tiling policy (miral-shell/tiling_window_manager.cpp): its list of tiles, how a display is
    divided among them, and how a window is kept to its tile. */
module Tiling {
  import opened Sequences
  import opened Geometry

  type Tile = nat

  datatype TileData = TileData(tile: Rectangle, oldTile: Rectangle)

  /** The i-th tile, the most recently used first, of n on displays of the given size. Tiles are laid out from the
      origin, wherever the displays begin. */
  function TileAt(total: Size, n: nat, i: nat): Rectangle
    requires i < n
  {
    if n < 3 then
      var x := total.width * i / n;
      Rectangle(Point(x, 0), Size(total.width * (i + 1) / n - x, total.height))
    else
      var dx := total.width / 2;
      if i == 0 then Rectangle(Point(0, 0), Size(dx, total.height))
      else Rectangle(Point(dx, total.height * (i - 1) / (n - 1)), Size(dx, total.height / (n - 1)))
  }

  /** The MRU tile list and the rectangles of its tiles. */
  class TilingWindowManagerPolicy {
    var tiles: seq<Tile>
    var tileData: map<Tile, TileData>

    ghost predicate Valid()
      reads this
    {
      NoDup(tiles) && forall t :: t in tiles ==> t in tileData
    }

    constructor ()
      ensures Valid() && tiles == [] && tileData == map[]
    {
      tiles, tileData := [], map[];
    }

    /** advise_new_app: the data of an application's tile; it is not in the list yet. */
    method NewTile(tile: Tile, guess: Rectangle)
      requires Valid() && tile !in tileData
      modifies this`tileData
      ensures Valid() && tileData == old(tileData)[tile := TileData(guess, guess)]
    {
      tileData := tileData[tile := TileData(guess, guess)];
    }

    method Push(tile: Tile)
      requires Valid() && tile in tileData
      modifies this`tiles
      ensures Valid() && tiles == Without(old(tiles), {tile}) + [tile]
    {
      WithoutNoDup(tiles, {tile});
      ConcatNoDup(Without(tiles, {tile}), [tile]);
      tiles := Without(tiles, {tile}) + [tile];
    }

    method Erase(tile: Tile)
      requires Valid()
      modifies this`tiles
      ensures Valid() && tiles == Without(old(tiles), {tile})
    {
      WithoutNoDup(tiles, {tile});
      tiles := Without(tiles, {tile});
    }

    /** One tile's turn in update_tiles. */
    static method Divide(total: Size, n: nat, index: nat) returns (rect: Rectangle)
      requires index < n
      ensures rect == TileAt(total, n, index)
    {
      if n < 3 {
        var x := total.width * index / n;
        var dx := total.width * (index + 1) / n - x;
        rect := Rectangle(Point(x, 0), Size(dx, total.height));
      } else {
        var dx := total.width / 2;
        if index == 0 {
          rect := Rectangle(Point(0, 0), Size(dx, total.height));
        } else {
          var y := total.height * (index - 1) / (n - 1);
          var dy := total.height / (n - 1);
          rect := Rectangle(Point(dx, y), Size(dx, dy));
        }
      }
    }

    /** Give each tile its share of the displays, the most recently used first, and remember the rectangle it had. Of
        the displays' bounding rectangle, if there is a display, only the size is looked at. */
    method UpdateTiles(bounds: Option<Rectangle>)
      requires Valid()
      modifies this`tileData
      ensures Valid() && tileData == Tiled(bounds, tiles, old(tileData), |tiles|)
    {
      if |tiles| < 1 || bounds.None? {
        return;
      }
      var total := bounds.value.size;
      for index := 0 to |tiles|
        invariant Valid() && tileData == Tiled(bounds, tiles, old(tileData), index)
      {
        var tile := tiles[|tiles| - 1 - index];
        var rect := Divide(total, |tiles|, index);
        tileData := tileData[tile := TileData(rect, tileData[tile].tile)];
      }
    }
  }

  /** The tiles' data after the first `count` of them, the most recently used first, were given their rectangle. */
  function Tiled(bounds: Option<Rectangle>, tiles: seq<Tile>, data: map<Tile, TileData>, count: nat)
    : (r: map<Tile, TileData>)
    requires count <= |tiles| && forall t :: t in tiles ==> t in data
    ensures r.Keys == data.Keys
  {
    if bounds.None? || count == 0 then data
    else
      var before := Tiled(bounds, tiles, data, count - 1);
      var tile := tiles[|tiles| - count];
      before[tile := TileData(TileAt(bounds.value.size, |tiles|, count - 1), before[tile].tile)]
  }

  /** Every tile is given the rectangle of its place in the list, once, and everything else is left alone. */
  lemma {:induction false} TiledOnce(
      bounds: Rectangle, tiles: seq<Tile>, data: map<Tile, TileData>, count: nat, t: Tile)
    requires NoDup(tiles) && count <= |tiles| && t in data && forall u :: u in tiles ==> u in data
    ensures forall i :: 0 <= i < count && tiles[|tiles| - 1 - i] == t ==>
              Tiled(Some(bounds), tiles, data, count)[t] == TileData(TileAt(bounds.size, |tiles|, i), data[t].tile)
    ensures t !in tiles[|tiles| - count..] ==> Tiled(Some(bounds), tiles, data, count)[t] == data[t]
  {
    if count > 0 {
      TiledOnce(bounds, tiles, data, count - 1, t);
      assert tiles[|tiles| - count..] == [tiles[|tiles| - count]] + tiles[|tiles| - count + 1..];
    }
  }

  // ----- the division of the display

  /** One or two tiles divide the width exactly, in halves but for an odd pixel, each as high as the display. */
  lemma {:induction false} FewTilesPartition(total: Size, n: nat)
    requires 1 <= n < 3 && total.width >= 0
    ensures TileAt(total, n, 0).Left() == 0 && TileAt(total, n, n - 1).Right() == total.width
    ensures n == 2 ==>
              && TileAt(total, n, 0).Right() == TileAt(total, n, 1).Left() && TileAt(total, n, 0).size.width >= 0
              && 0 <= TileAt(total, n, 1).size.width - TileAt(total, n, 0).size.width <= 1
    ensures forall i :: 0 <= i < n ==> TileAt(total, n, i).Top() == 0 && TileAt(total, n, i).size.height == total.height
  {
  }

  /** Adding less than m to the dividend adds at most one to the quotient. */
  lemma {:induction false} QuotientStep(a: int, r: int, m: int)
    requires m > 0 && 0 <= r < m
    ensures a / m <= (a + r) / m <= a / m + 1
  {
    var q, s := a / m, a % m;
    assert a == m * q + s;
    var q', s' := (a + r) / m, (a + r) % m;
    assert a + r == m * q' + s';
    assert m * (q' - q) == s + r - s';
    Bounded(m, q' - q, s + r - s');
  }

  lemma {:induction false} Times(m: int, a: int, b: int)
    requires m > 0
    ensures a <= b ==> m * a <= m * b
  {
    if a <= b {
      assert m * b - m * a == m * (b - a);
    }
  }

  lemma {:induction false} Bounded(m: int, d: int, e: int)
    requires m > 0 && m * d == e && -m < e < 2 * m
    ensures 0 <= d <= 1
  {
    Times(m, d, -1);
    Times(m, 2, d);
  }

  lemma {:induction false} QuotientShift(a: int, q: int, m: int)
    requires m > 0
    ensures (m * q + a) / m == q + a / m
  {
    var x, y := (m * q + a) / m, (m * q + a) % m;
    assert m * q + a == m * x + y;
    assert a == m * (a / m) + a % m;
    assert m * (x - q - a / m) == a % m - y;
    Bounded(m, x - q - a / m, a % m - y);
    Times(m, 1, x - q - a / m);
  }

  lemma {:induction false} RowOffset(h: int, m: int, q: int, r: int, k: int)
    requires h == m * q + r
    ensures h * k == m * (q * k) + r * k && h * (k + 1) == m * (q * k + q) + (r * k + r) && h * m == m * h
    ensures h >= 0 && k >= 0 ==> h * k >= 0
  {
    assert h * k == (m * q) * k + r * k;
  }

  /** The rows of m right-hand tiles: each begins at most one pixel after the one above ends, and the last ends at
      most one pixel above the bottom. */
  lemma {:induction false} Rows(h: int, m: int, k: int)
    requires h >= 0 && m > 0 && 0 <= k < m
    ensures h * k / m + h / m <= h * (k + 1) / m <= h * k / m + h / m + 1
    ensures h * m / m == h && 0 <= h * k / m
  {
    var q, r := h / m, h % m;
    RowOffset(h, m, q, r, k);
    QuotientShift(r * k, q * k, m);
    QuotientShift(r * k + r, q * k + q, m);
    QuotientStep(r * k, r, m);
    QuotientShift(0, h, m);
  }

  lemma {:induction false} RowsInOrder(h: int, m: int, i: int, j: int)
    requires h >= 0 && m > 0 && 0 <= i < j <= m
    ensures h * i / m + h / m <= h * j / m
    decreases j
  {
    Rows(h, m, j - 1);
    if i < j - 1 {
      RowsInOrder(h, m, i, j - 1);
    }
    assert h / m >= 0;
  }

  /** Three or more tiles each lie inside a rectangle of the displays' size at the origin. */
  lemma {:induction false} ManyTilesInside(total: Size, n: nat, i: nat)
    requires n >= 3 && i < n && total.width >= 0 && total.height >= 0
    ensures Rectangle(Point(0, 0), total).Contains(TileAt(total, n, i))
  {
    if i > 0 {
      Rows(total.height, n - 1, i - 1);
      RowsInOrder(total.height, n - 1, i - 1, n - 1);
    }
  }

  /** They share no point. */
  lemma {:induction false} ManyTilesDisjoint(total: Size, n: nat, i: nat, j: nat)
    requires n >= 3 && i < j < n && total.width >= 0 && total.height >= 0
    ensures !TileAt(total, n, i).Overlaps(TileAt(total, n, j))
  {
    if i > 0 {
      RowsInOrder(total.height, n - 1, i - 1, j - 1);
    }
  }

  /** The first tile is as wide as the others, which are all of one size; together they leave unused at most the last
      column of pixels and one row of pixels under each right-hand tile. */
  lemma {:induction false} ManyTilesFill(total: Size, n: nat, j: nat)
    requires n >= 3 && 0 < j < n && total.width >= 0 && total.height >= 0
    ensures TileAt(total, n, 0).Left() == 0 && TileAt(total, n, 0).Right() == TileAt(total, n, j).Left()
    ensures total.width - 1 <= TileAt(total, n, j).Right() <= total.width
    ensures TileAt(total, n, j).size.width == TileAt(total, n, 0).size.width
    ensures TileAt(total, n, j).size.height == TileAt(total, n, 1).size.height
    ensures var below := if j + 1 < n then TileAt(total, n, j + 1).Top() else total.height;
            0 <= below - TileAt(total, n, j).Bottom() <= 1
    ensures TileAt(total, n, 1).Top() == 0 && TileAt(total, n, 0).size.height == total.height
  {
    Rows(total.height, n - 1, j - 1);
    assert total.height * 0 / (n - 1) == 0;
  }

  // ----- where the displays are

  ghost predicate AllInside(bounds: Rectangle, n: nat) {
    forall i :: 0 <= i < n ==> bounds.Contains(TileAt(bounds.size, n, i))
  }

  /** The tiles are inside the displays' bounding rectangle exactly if that begins at the origin; three or more also
      if it begins one pixel to the left of it and the width is odd. */
  lemma {:induction false} InsideDisplays(bounds: Rectangle, n: nat)
    requires n >= 1 && bounds.size.width >= 0 && bounds.size.height >= 0
    ensures AllInside(bounds, n) <==>
            bounds.Top() == 0 && (if n < 3 then bounds.Left() == 0 else -(bounds.size.width % 2) <= bounds.Left() <= 0)
  {
    var total := bounds.size;
    if n < 3 {
      FewTilesPartition(total, n);
    } else {
      ManyTilesFill(total, n, 1);
    }
    if AllInside(bounds, n) {
      assert bounds.Contains(TileAt(total, n, 0)) && bounds.Contains(TileAt(total, n, if n < 3 then n - 1 else 1));
    }
    if bounds.Top() == 0 && (if n < 3 then bounds.Left() == 0 else -(total.width % 2) <= bounds.Left() <= 0) {
      forall i | 0 <= i < n
        ensures bounds.Contains(TileAt(total, n, i))
      {
        if n >= 3 {
          ManyTilesInside(total, n, i);
        }
      }
    }
  }

  /** On displays that begin at or beyond their own width or height no tile is on any of them. */
  lemma {:induction false} NoneOnDisplays(bounds: Rectangle, n: nat, i: nat)
    requires i < n && bounds.size.width >= 0 && bounds.size.height >= 0
    requires bounds.Left() >= bounds.size.width || bounds.Top() >= bounds.size.height
    ensures !bounds.Overlaps(TileAt(bounds.size, n, i))
  {
    if n < 3 {
      FewTilesPartition(bounds.size, n);
    } else {
      ManyTilesInside(bounds.size, n, i);
    }
  }

  // ----- keeping to a tile

  datatype Placing = Placing(topLeft: Option<Point>, size: Option<Size>)

  /** One coordinate of constrain_size_and_place. */
  function KeptTo(requested: Option<int>, present: int, length: int, low: int, high: int): int {
    var start := if requested.Some? then Max(low, requested.value) else present;
    if start + length > high then high - length else start
  }

  /** Where the window will be under the given modifications. */
  function Outcome(mods: Placing, window: Rectangle): Rectangle {
    Rectangle(if mods.topLeft.Some? then mods.topLeft.value else window.topLeft,
              if mods.size.Some? then mods.size.value else window.size)
  }

  /** A window ends up inside its tile exactly when its size was asked for or fits, and it was not already beyond the
      tile's near edges: those are only looked at for a position that was asked for. */
  method ConstrainSizeAndPlace(mods: Placing, window: Rectangle, tile: Rectangle) returns (constrained: Placing)
    ensures constrained.size.Some? <==> mods.size.Some?
    ensures var size := if mods.size.Some? then Size(Min(tile.size.width, mods.size.value.width),
                                                     Min(tile.size.height, mods.size.value.height)) else window.size;
            var x := if mods.topLeft.Some? then Some(mods.topLeft.value.x) else None;
            var y := if mods.topLeft.Some? then Some(mods.topLeft.value.y) else None;
            Outcome(constrained, window) ==
            Rectangle(Point(KeptTo(x, window.Left(), size.width, tile.Left(), tile.Right()),
                            KeptTo(y, window.Top(), size.height, tile.Top(), tile.Bottom())), size)
    ensures tile.Contains(Outcome(constrained, window)) <==>
            && (mods.size.Some? || (window.size.width <= tile.size.width && window.size.height <= tile.size.height))
            && (mods.topLeft.Some? || (tile.Left() <= window.Left() && tile.Top() <= window.Top()))
    ensures constrained.topLeft.Some? <==> Outcome(constrained, window).topLeft != window.topLeft
  {
    constrained := mods;
    if constrained.size.Some? {
      var width := Min(tile.size.width, constrained.size.value.width);
      var height := Min(tile.size.height, constrained.size.value.height);
      constrained := constrained.(size := Some(Size(width, height)));
    }
    if constrained.topLeft.Some? {
      var x := Max(tile.topLeft.x, constrained.topLeft.value.x);
      var y := Max(tile.topLeft.y, constrained.topLeft.value.y);
      constrained := constrained.(topLeft := Some(Point(x, y)));
    }
    var rect := Outcome(constrained, window);
    var topLeft := rect.topLeft;
    var overhang := Displacement(rect.Right() - tile.Right(), rect.Bottom() - tile.Bottom());
    if overhang.dx > 0 {
      topLeft := Point(topLeft.x - overhang.dx, topLeft.y);
    }
    if overhang.dy > 0 {
      topLeft := Point(topLeft.x, topLeft.y - overhang.dy);
    }
    if topLeft != window.topLeft {
      constrained := constrained.(topLeft := Some(topLeft));
    } else {
      constrained := constrained.(topLeft := None);
    }
  }
}
