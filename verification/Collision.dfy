/**
  The tile map as the collision code sees it, and the box test of a character: four corners stand
  for the whole box, and rounding a position never changes the outcome.
 */
module Collision {
  import opened Vectors
  import opened Rounding
  import CharacterCore

  const TILE_SOLID := 1
  const TILE_NOHOOK := 3
  const TILE_NOLASER := 4

  /** A map of `width * height` tiles, row by row; there may be none. */
  datatype Map = NoMap | Map(tiles: seq<int>, width: nat, height: nat)

  predicate Loaded(m: Map) {
    m.Map? ==> 0 < m.width && 0 < m.height && |m.tiles| == m.width * m.height
  }

  /** Integer division of the source cuts off towards zero. */
  function TruncDiv(a: int, d: int): int
    requires 0 < d
  {
    if a >= 0 then a / d else -((-a) / d)
  }

  /** The column (or row) of a pixel; pixels outside belong to the border. */
  function TileIndex(c: int, n: int): (t: int)
    requires 0 < n
    ensures 0 <= t < n
  {
    var q := TruncDiv(c, 32);
    if q < 0 then 0 else if q > n - 1 then n - 1 else q
  }

  lemma CellInMap(m: Map, tx: nat, ty: nat)
    requires Loaded(m) && m.Map? && tx < m.width && ty < m.height
    ensures 0 <= ty * m.width + tx < |m.tiles|
  {
    assert ty * m.width <= (m.height - 1) * m.width;
    assert (m.height - 1) * m.width == m.height * m.width - m.width;
  }

  function TileAt(m: Map, tx: nat, ty: nat): int
    requires Loaded(m) && m.Map? && tx < m.width && ty < m.height
  {
    CellInMap(m, tx, ty);
    m.tiles[ty * m.width + tx]
  }

  function GetTile(m: Map, x: int, y: int): int
    requires Loaded(m)
  {
    if m.NoMap? then 0 else
      var index := TileAt(m, TileIndex(x, m.width), TileIndex(y, m.height));
      if TILE_SOLID <= index <= TILE_NOLASER then index else 0
  }

  predicate IsSolid(m: Map, x: int, y: int)
    requires Loaded(m)
  {
    var index := GetTile(m, x, y);
    index == TILE_SOLID || index == TILE_NOHOOK
  }

  predicate CheckPoint(m: Map, p: Vec)
    requires Loaded(m)
  {
    IsSolid(m, RoundToInt(p.x), RoundToInt(p.y))
  }

  /** A corner of the box in solid ground. */
  predicate TestBox(m: Map, pos: Vec, size: Vec)
    requires Loaded(m)
  {
    var hx, hy := size.x * 0.5, size.y * 0.5;
    || CheckPoint(m, Vec(pos.x - hx, pos.y - hy))
    || CheckPoint(m, Vec(pos.x + hx, pos.y - hy))
    || CheckPoint(m, Vec(pos.x - hx, pos.y + hy))
    || CheckPoint(m, Vec(pos.x + hx, pos.y + hy))
  }

  // ---------------------------------------------------------------- the corners stand for the box

  function Axis(c: real, n: int): (t: int)
    requires 0 < n
    ensures 0 <= t < n
  {
    TileIndex(RoundToInt(c), n)
  }

  /** Solidity of a point depends on its tile alone. */
  predicate SolidCell(m: Map, tx: nat, ty: nat)
    requires Loaded(m) && m.Map? && tx < m.width && ty < m.height
  {
    var index := TileAt(m, tx, ty);
    index == TILE_SOLID || index == TILE_NOHOOK
  }

  lemma PointIsCell(m: Map, p: Vec)
    requires Loaded(m) && m.Map?
    ensures CheckPoint(m, p) <==> SolidCell(m, Axis(p.x, m.width), Axis(p.y, m.height))
  {
    hide TileIndex, RoundToInt;
  }

  /** A pixel lies in the tile whose 32 pixels it is among; pixels outside belong to the tile at the border. */
  lemma IndexOfPixel(c: int, n: int, t: int)
    requires 0 <= t < n && (32 * t <= c <= 32 * t + 31 || (t == 0 && c < 0) || (t == n - 1 && 32 * n <= c))
    ensures TileIndex(c, n) == t
  {
  }

  /** What is read at a pixel: the tile of its row and column if it takes part in collisions. */
  lemma TileOfPixel(m: Map, x: int, y: int, tx: nat, ty: nat)
    requires Loaded(m) && m.Map? && tx < m.width && ty < m.height
    requires 32 * tx <= x <= 32 * tx + 31 || (tx == 0 && x < 0) || (tx == m.width - 1 && 32 * m.width <= x)
    requires 32 * ty <= y <= 32 * ty + 31 || (ty == 0 && y < 0) || (ty == m.height - 1 && 32 * m.height <= y)
    ensures 0 <= ty * m.width + tx < |m.tiles|
    ensures var tile := m.tiles[ty * m.width + tx];
      && GetTile(m, x, y) == (if 1 <= tile <= 4 then tile else 0)
      && (IsSolid(m, x, y) <==> tile == 1 || tile == 3)
  {
    hide TileIndex;
    CellInMap(m, tx, ty);
    IndexOfPixel(x, m.width, tx);
    IndexOfPixel(y, m.height, ty);
  }

  lemma TileMonotone(a: int, b: int, n: int)
    requires 0 < n && a <= b
    ensures TileIndex(a, n) <= TileIndex(b, n)
    ensures b <= a + 32 ==> TileIndex(b, n) <= TileIndex(a, n) + 1
  {
  }

  /** Between two coordinates less than a tile apart there are only their own two tiles. */
  lemma AxisBetween(lo: real, c: real, hi: real, n: int)
    requires 0 < n && lo <= c <= hi <= lo + 31.0
    ensures Axis(c, n) == Axis(lo, n) || Axis(c, n) == Axis(hi, n)
  {
    RoundMonotone(lo, c);
    RoundMonotone(c, hi);
    RoundIsNearest(lo);
    RoundIsNearest(hi);
    hide RoundToInt, TileIndex;
    TileMonotone(RoundToInt(lo), RoundToInt(c), n);
    TileMonotone(RoundToInt(c), RoundToInt(hi), n);
    TileMonotone(RoundToInt(lo), RoundToInt(hi), n);
  }

  /** A point of the box, its border included. */
  predicate InBox(p: Vec, pos: Vec, size: Vec) {
    && pos.x - size.x * 0.5 <= p.x <= pos.x + size.x * 0.5
    && pos.y - size.y * 0.5 <= p.y <= pos.y + size.y * 0.5
  }

  /** A point of the box shares its tile with a corner. */
  lemma CornerStandsForPoint(m: Map, pos: Vec, size: Vec, p: Vec)
    requires Loaded(m) && 0.0 <= size.x <= 31.0 && 0.0 <= size.y <= 31.0
    requires InBox(p, pos, size) && CheckPoint(m, p)
    ensures TestBox(m, pos, size)
  {
    hide Axis, SolidCell, CheckPoint;
    if m.Map? {
      var hx, hy := size.x * 0.5, size.y * 0.5;
      AxisBetween(pos.x - hx, p.x, pos.x + hx, m.width);
      AxisBetween(pos.y - hy, p.y, pos.y + hy, m.height);
      PointIsCell(m, p);
      PointIsCell(m, Vec(pos.x - hx, pos.y - hy));
      PointIsCell(m, Vec(pos.x + hx, pos.y - hy));
      PointIsCell(m, Vec(pos.x - hx, pos.y + hy));
      PointIsCell(m, Vec(pos.x + hx, pos.y + hy));
    } else {
      NothingIsSolid(p);
    }
  }

  lemma NothingIsSolid(p: Vec)
    ensures !CheckPoint(NoMap, p)
  {
  }

  ghost predicate SomePointSolid(m: Map, pos: Vec, size: Vec)
    requires Loaded(m)
  {
    exists p: Vec :: InBox(p, pos, size) && CheckPoint(m, p)
  }

  /** For boxes up to 31 units, so for the 28 of a character, the four corners decide about all points. */
  lemma TestBoxIff(m: Map, pos: Vec, size: Vec)
    requires Loaded(m) && 0.0 <= size.x <= 31.0 && 0.0 <= size.y <= 31.0
    ensures TestBox(m, pos, size) <==> SomePointSolid(m, pos, size)
  {
    hide CheckPoint;
    if SomePointSolid(m, pos, size) {
      var p :| InBox(p, pos, size) && CheckPoint(m, p);
      CornerStandsForPoint(m, pos, size, p);
    }
    var hx, hy := size.x * 0.5, size.y * 0.5;
    assert InBox(Vec(pos.x - hx, pos.y - hy), pos, size) && InBox(Vec(pos.x + hx, pos.y - hy), pos, size);
    assert InBox(Vec(pos.x - hx, pos.y + hy), pos, size) && InBox(Vec(pos.x + hx, pos.y + hy), pos, size);
  }

  // ---------------------------------------------------------------- rounding a position

  const PHYSICAL_SIZE := Vec(28.0, 28.0)

  lemma FloorShift(x: real, k: int)
    ensures (x + k as real).Floor == x.Floor + k
  {
  }

  /** Rounding and stepping by `h` commute, except where they straddle zero. */
  lemma RoundShift(c: real, h: int)
    requires h == 14 || h == -14
    ensures var q, r := RoundToInt(c + h as real), RoundToInt(c) + h;
            q == r || (-31 <= q <= 31 && -31 <= r <= 31)
  {
    if c > 0.0 && c + h as real > 0.0 {
      FloorShift(c + 0.5, h);
      assert c + 0.5 + h as real == c + h as real + 0.5;
    } else if c <= 0.0 && c + h as real <= 0.0 {
      FloorShift(0.5 - c, -h);
      assert 0.5 - c + (-h) as real == 0.5 - (c + h as real);
    } else {
      RoundIsNearest(c);
      RoundIsNearest(c + h as real);
    }
  }

  lemma BorderTile(a: int, n: int)
    requires 0 < n && -31 <= a <= 31
    ensures TileIndex(a, n) == 0
  {
  }

  /** Rounding before or after stepping to the corner leads to the same tile. */
  lemma AxisOfRounded(c: real, h: int, n: int)
    requires 0 < n && (h == 14 || h == -14)
    ensures Axis(RoundToInt(c) as real + h as real, n) == Axis(c + h as real, n)
  {
    RoundShift(c, h);
    RoundOfInt(RoundToInt(c) + h);
    assert RoundToInt(c) as real + h as real == (RoundToInt(c) + h) as real;
    hide RoundToInt, TileIndex;
    if RoundToInt(c + h as real) != RoundToInt(c) + h {
      BorderTile(RoundToInt(c + h as real), n);
      BorderTile(RoundToInt(c) + h, n);
    }
  }

  function RoundedPos(p: Vec): Vec {
    Vec(RoundToInt(p.x) as real, RoundToInt(p.y) as real)
  }

  /** Sending a position over the network cannot push a free character into a wall, nor free a stuck one. */
  lemma RoundingKeepsTestBox(m: Map, pos: Vec)
    requires Loaded(m)
    ensures TestBox(m, RoundedPos(pos), PHYSICAL_SIZE) == TestBox(m, pos, PHYSICAL_SIZE)
  {
    hide RoundToInt, Axis, SolidCell, CheckPoint;
    SameCorner(m, pos, -14, -14);
    SameCorner(m, pos, 14, -14);
    SameCorner(m, pos, -14, 14);
    SameCorner(m, pos, 14, 14);
  }

  lemma SameCorner(m: Map, pos: Vec, hx: int, hy: int)
    requires Loaded(m) && (hx == 14 || hx == -14) && (hy == 14 || hy == -14)
    ensures var r := RoundedPos(pos);
      CheckPoint(m, Vec(r.x + hx as real, r.y + hy as real)) ==
      CheckPoint(m, Vec(pos.x + hx as real, pos.y + hy as real))
  {
    hide RoundToInt, Axis, SolidCell, CheckPoint;
    var r := RoundedPos(pos);
    var p, q := Vec(r.x + hx as real, r.y + hy as real), Vec(pos.x + hx as real, pos.y + hy as real);
    if m.Map? {
      AxisOfRounded(pos.x, hx, m.width);
      AxisOfRounded(pos.y, hy, m.height);
      PointIsCell(m, p);
      PointIsCell(m, q);
    } else {
      NothingIsSolid(p);
      NothingIsSolid(q);
    }
  }

  /** So `CCharacterCore::Quantize` cannot do it either. */
  lemma QuantizeKeepsTestBox(m: Map, s: CharacterCore.State)
    requires Loaded(m)
    ensures TestBox(m, CharacterCore.Quantized(s).pos, PHYSICAL_SIZE) == TestBox(m, s.pos, PHYSICAL_SIZE)
  {
    RoundingKeepsTestBox(m, s.pos);
    assert CharacterCore.Quantized(s).pos == RoundedPos(s.pos) by {
      hide RoundToInt;
    }
  }
}
