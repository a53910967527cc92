/**
  Colour conversion over the reals: converting an RGB colour to HSL or HSV and back is exact, across
  all sextants of the hue circle and their borders.
 */
module Colour {
  import opened Rounding
  import opened Vectors

  datatype Rgba = Rgba(r: real, g: real, b: real, a: real)
  datatype Hsla = Hsla(h: real, s: real, l: real, a: real)
  datatype Hsva = Hsva(h: real, s: real, v: real, a: real)

  function Min(a: real, b: real): real {
    if a < b then a else b
  }

  function Max(a: real, b: real): real {
    if a < b then b else a
  }

  predicate InUnit(c: Rgba) {
    0.0 <= c.r <= 1.0 && 0.0 <= c.g <= 1.0 && 0.0 <= c.b <= 1.0
  }

  function Low(c: Rgba): real {
    Min(Min(c.r, c.g), c.b)
  }

  function High(c: Rgba): real {
    Max(Max(c.r, c.g), c.b)
  }

  /** The position on the hue circle, in sextants. */
  function Sextants(c: Rgba): real {
    var d := High(c) - Low(c);
    if d == 0.0 then 0.0
    else if High(c) == c.r then (c.g - c.b) / d + (if c.g < c.b then 6.0 else 0.0)
    else if High(c) == c.g then (c.b - c.r) / d + 2.0
    else (c.r - c.g) / d + 4.0
  }

  function RgbToHue(c: Rgba): real {
    Sextants(c) / 6.0
  }

  /** How far the two extremes can lie apart at lightness `l`. */
  function Room(l: real): real {
    1.0 - Abs(2.0 * l - 1.0)
  }

  lemma RoomIsLeft(hi: real, lo: real)
    requires 0.0 <= lo <= hi <= 1.0
    ensures var room := Room(0.5 * (hi + lo)); hi - lo <= room && (hi != 0.0 && lo != 1.0 ==> 0.0 < room)
  {
  }

  function RgbToHsl(c: Rgba): Hsla
    requires InUnit(c)
  {
    var d := High(c) - Low(c);
    var l := 0.5 * (High(c) + Low(c));
    RoomIsLeft(High(c), Low(c));
    Hsla(RgbToHue(c), if High(c) != 0.0 && Low(c) != 1.0 then d / Room(l) else 0.0, l, c.a)
  }

  /** `fmod(a, 2)`, with the sign of `a`. */
  function Fmod2(a: real): real {
    a - 2.0 * Trunc(a / 2.0) as real
  }

  function Product(a: real, b: real): real {
    a * b
  }

  /** The middle component at hue `h1` sextants. */
  function Second(h1: real, c: real): real {
    Product(c, 1.0 - Abs(Fmod2(h1) - 1.0))
  }

  /** Chroma `c` and middle component `x` on the three components, by sextant. */
  function Arms(sextant: int, c: real, x: real): (real, real, real) {
    match sextant
    case 0 => (c, x, 0.0)
    case 1 => (x, c, 0.0)
    case 2 => (0.0, c, x)
    case 3 => (0.0, x, c)
    case 4 => (x, 0.0, c)
    case 5 => (c, 0.0, x)
    case 6 => (c, 0.0, x)
    case _ => (0.0, 0.0, 0.0)
  }

  /** The components above the lowest one. */
  function Wheel(h1: real, c: real): (real, real, real) {
    Arms(Trunc(h1), c, Second(h1, c))
  }

  function HslToRgb(hsl: Hsla): Rgba {
    var c := Product(Room(hsl.l), hsl.s);
    var w := Wheel(hsl.h * 6.0, c);
    var m := hsl.l - c / 2.0;
    Rgba(w.0 + m, w.1 + m, w.2 + m, hsl.a)
  }

  function HsvToHsl(hsv: Hsva): Hsla {
    var l := hsv.v * (1.0 - hsv.s * 0.5);
    Hsla(hsv.h, if l == 0.0 || l == 1.0 then 0.0 else (hsv.v - l) / Min(l, 1.0 - l), l, hsv.a)
  }

  function HslToHsv(hsl: Hsla): Hsva {
    var v := hsl.l + Product(hsl.s, Min(hsl.l, 1.0 - hsl.l));
    Hsva(hsl.h, if v == 0.0 then 0.0 else 2.0 - 2.0 * hsl.l / v, v, hsl.a)
  }

  function HsvToRgb(hsv: Hsva): Rgba {
    HslToRgb(HsvToHsl(hsv))
  }

  function RgbToHsv(c: Rgba): Hsva
    requires InUnit(c)
  {
    HslToHsv(RgbToHsl(c))
  }

  // ---------------------------------------------------------------- the hue circle

  /** Multiplying by a positive number is strictly monotone; `x` and `y` are the products. */
  lemma TimesLess(d: real, a: real, b: real, x: real, y: real)
    requires 0.0 < d && a < b && x == d * a && y == d * b
    ensures x < y
  {
  }

  /** The ratio `q` of two numbers of which one is at most as large as the other. */
  lemma RatioBounds(p: real, d: real, q: real)
    requires 0.0 < d && -d <= p <= d && p == d * q
    ensures -1.0 <= q <= 1.0
    ensures (q == 1.0 <==> p == d) && (q == -1.0 <==> p == -d) && (q < 0.0 <==> p < 0.0)
  {
    if q > 1.0 {
      TimesLess(d, 1.0, q, d, p);
    } else if q < 1.0 {
      TimesLess(d, q, 1.0, p, d);
    }
    if q > -1.0 {
      TimesLess(d, -1.0, q, -d, p);
    } else if q < -1.0 {
      TimesLess(d, q, -1.0, p, -d);
    }
    if q < 0.0 {
      TimesLess(d, q, 0.0, p, 0.0);
    } else if q > 0.0 {
      TimesLess(d, 0.0, q, 0.0, p);
    }
  }

  lemma Quotient(p: real, d: real)
    requires 0.0 < d && -d <= p <= d
    ensures Product(d, p / d) == p && -1.0 <= p / d <= 1.0
    ensures (p / d == 1.0 <==> p == d) && (p / d == -1.0 <==> p == -d) && (p / d < 0.0 <==> p < 0.0)
  {
    var q := p / d;
    assert d * q == p;
    RatioBounds(p, d, q);
  }

  /** In an even sextant the middle component rises. */
  lemma Rising(h1: real, c: real, k: int)
    requires k in {0, 2, 4} && k as real <= h1 < (k + 1) as real
    ensures Trunc(h1) == k && Second(h1, c) == Product(c, h1 - k as real)
  {
    hide Product;
    assert Trunc(h1 / 2.0) == k / 2;
  }

  /** In an odd one it falls. */
  lemma Falling(h1: real, c: real, k: int)
    requires k in {1, 3, 5} && k as real <= h1 < (k + 1) as real
    ensures Trunc(h1) == k && Second(h1, c) == Product(c, (k + 1) as real - h1)
  {
    hide Product;
    assert Trunc(h1 / 2.0) == k / 2;
  }

  lemma RisingArms(q: real, d: real, k: int, p: real)
    requires k in {0, 2, 4} && 0.0 <= q < 1.0 && p == Product(d, q)
    ensures Wheel(q + k as real, d) == Arms(k, d, p)
  {
    hide Arms, Product, Second;
    Rising(q + k as real, d, k);
    assert q + k as real - k as real == q;
  }

  lemma FallingArms(q: real, d: real, k: int, p: real)
    requires k in {1, 3, 5} && -1.0 <= q < 0.0 && p == Product(d, q)
    ensures Wheel(q + (k + 1) as real, d) == Arms(k, d, -p)
  {
    var h := q + (k + 1) as real;
    Falling(h, d, k);
    assert (k + 1) as real - h == -q;
    assert Product(d, -q) == -p;
    hide Arms, Product, Second;
  }

  /** On the border both components are full. */
  lemma BorderArms(d: real, k: int)
    requires k in {1, 3, 5}
    ensures Wheel(k as real, d) == Arms(k, d, d)
  {
    Falling(k as real, d, k);
    assert (k + 1) as real - k as real == 1.0;
    assert Product(d, 1.0) == d;
    hide Arms, Product, Second;
  }

  /** The highest component is red. */
  lemma RedHighest(r: real, g: real, b: real, d: real)
    requires 0.0 < d && r - g <= d && r - b <= d && g <= r && b <= r && (r - g == d || r - b == d)
    ensures var h := (g - b) / d + if g < b then 6.0 else 0.0;
      0.0 <= h < 6.0 && Wheel(h, d) == (d, d - (r - g), d - (r - b))
  {
    hide Wheel, Product;
    var q := (g - b) / d;
    Quotient(g - b, d);
    if g < b {
      FallingArms(q, d, 5, g - b);
    } else if q == 1.0 {
      BorderArms(d, 1);
    } else {
      RisingArms(q, d, 0, g - b);
    }
  }

  /** The highest component is green, and red is lower. */
  lemma GreenHighest(r: real, g: real, b: real, d: real)
    requires 0.0 < d && g - r <= d && g - b <= d && r < g && b <= g && (g - r == d || g - b == d)
    ensures var h := (b - r) / d + 2.0;
      1.0 < h <= 3.0 && Wheel(h, d) == (d - (g - r), d, d - (g - b))
  {
    hide Wheel, Product;
    var q := (b - r) / d;
    Quotient(b - r, d);
    if b < r {
      FallingArms(q, d, 1, b - r);
    } else if q == 1.0 {
      BorderArms(d, 3);
    } else {
      RisingArms(q, d, 2, b - r);
    }
  }

  /** The highest component is blue, and both others are lower. */
  lemma BlueHighest(r: real, g: real, b: real, d: real)
    requires 0.0 < d && b - r <= d && b - g <= d && r < b && g < b && (b - r == d || b - g == d)
    ensures var h := (r - g) / d + 4.0;
      3.0 < h < 5.0 && Wheel(h, d) == (d - (b - r), d - (b - g), d)
  {
    hide Wheel, Product;
    var q := (r - g) / d;
    Quotient(r - g, d);
    if r < g {
      FallingArms(q, d, 3, r - g);
    } else {
      RisingArms(q, d, 4, r - g);
    }
  }

  /** The wheel turned to the hue of a colour gives back its components above the lowest. */
  lemma WheelOfHue(c: Rgba)
    requires Low(c) != High(c)
    ensures 0.0 <= Sextants(c) < 6.0
    ensures Wheel(Sextants(c), High(c) - Low(c)) == (c.r - Low(c), c.g - Low(c), c.b - Low(c))
  {
    hide Wheel;
    var d := High(c) - Low(c);
    if High(c) == c.r {
      RedHighest(c.r, c.g, c.b, d);
    } else if High(c) == c.g {
      GreenHighest(c.r, c.g, c.b, d);
    } else {
      BlueHighest(c.r, c.g, c.b, d);
    }
  }

  // ---------------------------------------------------------------- RGB to HSL and back

  lemma GreyWheel(h1: real)
    ensures Wheel(h1, 0.0) == (0.0, 0.0, 0.0)
  {
  }

  lemma Chroma(d: real, room: real)
    requires 0.0 <= d <= room && 0.0 < room
    ensures Product(room, d / room) == d && 0.0 <= d / room <= 1.0
  {
    Quotient(d, room);
  }

  /** What the two conversions have in common: chroma and lightness give back the extremes. */
  lemma HslExtremes(c: Rgba)
    requires InUnit(c)
    ensures var hsl := RgbToHsl(c);
      && Product(Room(hsl.l), hsl.s) == High(c) - Low(c)
      && hsl.l - (High(c) - Low(c)) / 2.0 == Low(c)
      && 0.0 <= hsl.s <= 1.0 && 0.0 <= hsl.l <= 1.0
  {
    var d := High(c) - Low(c);
    var l := 0.5 * (High(c) + Low(c));
    RoomIsLeft(High(c), Low(c));
    if High(c) != 0.0 && Low(c) != 1.0 {
      Chroma(d, Room(l));
    }
  }

  /** The lightness is the mean of the extremes, and the saturation their distance over the largest there can be. */
  lemma HslOfExtremes(c: Rgba, hi: real, lo: real)
    requires InUnit(c) && hi in {c.r, c.g, c.b} && lo in {c.r, c.g, c.b}
    requires lo <= c.r <= hi && lo <= c.g <= hi && lo <= c.b <= hi
    ensures var hsl := RgbToHsl(c);
      && 2.0 * hsl.l == hi + lo && hsl.a == c.a
      && hsl.s * (if hsl.l <= 0.5 then 2.0 * hsl.l else 2.0 - 2.0 * hsl.l) == hi - lo
      && (hi == lo ==> hsl.s == 0.0)
  {
    hide Sextants;
    assert High(c) == hi && Low(c) == lo;
    hide High, Low;
    HslExtremes(c);
  }

  lemma HslOfRgbInRange(c: Rgba)
    requires InUnit(c)
    ensures var hsl := RgbToHsl(c); 0.0 <= hsl.h < 1.0 && 0.0 <= hsl.s <= 1.0 && 0.0 <= hsl.l <= 1.0
  {
    hide Low, High, Sextants;
    HslExtremes(c);
    if Low(c) != High(c) {
      WheelOfHue(c);
    } else {
      GreyHue(c);
    }
  }

  lemma GreyHue(c: Rgba)
    requires Low(c) == High(c)
    ensures Sextants(c) == 0.0 && c.r == c.g == c.b == Low(c)
  {
  }

  /** RGB to HSL to RGB is the identity. */
  lemma RgbThroughHsl(c: Rgba)
    requires InUnit(c)
    ensures HslToRgb(RgbToHsl(c)) == c
  {
    var hsl := RgbToHsl(c);
    HslExtremes(c);
    HueTimesSix(c);
    if Low(c) != High(c) {
      WheelOfHue(c);
    } else {
      GreyHue(c);
      GreyWheel(Sextants(c));
    }
    hide Low, High, Sextants, Wheel, Room, RgbToHsl;
    Recompose(hsl, High(c) - Low(c), Low(c), c);
  }

  lemma HueTimesSix(c: Rgba)
    requires InUnit(c)
    ensures RgbToHsl(c).h * 6.0 == Sextants(c) && RgbToHsl(c).a == c.a
  {
    hide Low, High, Sextants, Room;
  }

  lemma Recompose(hsl: Hsla, d: real, lo: real, c: Rgba)
    requires Product(Room(hsl.l), hsl.s) == d && hsl.l - d / 2.0 == lo && hsl.a == c.a
    requires Wheel(hsl.h * 6.0, d) == (c.r - lo, c.g - lo, c.b - lo)
    ensures HslToRgb(hsl) == c
  {
    hide Wheel, Room;
  }

  /** Where the primary and secondary colours stand on the hue circle. */
  lemma HuesOfPrimaries(a: real)
    ensures Sextants(Rgba(1.0, 0.0, 0.0, a)) == 0.0 && Sextants(Rgba(1.0, 1.0, 0.0, a)) == 1.0
    ensures Sextants(Rgba(0.0, 1.0, 0.0, a)) == 2.0 && Sextants(Rgba(0.0, 1.0, 1.0, a)) == 3.0
    ensures Sextants(Rgba(0.0, 0.0, 1.0, a)) == 4.0 && Sextants(Rgba(1.0, 0.0, 1.0, a)) == 5.0
  {
  }

  /** The hue circle closes: hue 1, which a packed hue byte of 255 gives, is hue 0. */
  lemma HueOneIsZero(hsl: Hsla)
    requires hsl.h == 1.0
    ensures HslToRgb(hsl) == HslToRgb(hsl.(h := 0.0))
  {
    hide Product, Room;
    CircleCloses(Product(Room(hsl.l), hsl.s));
  }

  lemma CircleCloses(c: real)
    ensures Wheel(6.0, c) == Wheel(0.0, c) == (c, 0.0, 0.0)
  {
    assert Trunc(6.0) == 6 && Trunc(0.0) == 0 && Trunc(3.0) == 3;
    assert 6.0 / 2.0 == 3.0 && Fmod2(6.0) == 0.0 && Fmod2(0.0) == 0.0;
    assert c * 0.0 == 0.0;
  }

  // ---------------------------------------------------------------- HSV

  /** A lightness at either end leaves no room for saturation. */
  predicate Proper(hsl: Hsla) {
    0.0 <= hsl.s <= 1.0 && 0.0 <= hsl.l <= 1.0 && (hsl.l == 0.0 || hsl.l == 1.0 ==> hsl.s == 0.0)
  }

  lemma Cancel(p: real, m: real)
    requires m != 0.0
    ensures Product(p / m, m) == p && Product(p, m) / m == p
  {
  }

  lemma LightnessBack(v: real, l: real)
    requires v != 0.0
    ensures v * (1.0 - (2.0 - 2.0 * l / v) * 0.5) == l
  {
    var q := 2.0 * l / v;
    assert v * q == 2.0 * l;
    assert v * (1.0 - (2.0 - q) * 0.5) == v * q * 0.5;
  }

  lemma NonNegativeProduct(a: real, b: real)
    requires 0.0 <= a && 0.0 <= b
    ensures 0.0 <= Product(a, b) && (a == 0.0 || b == 0.0 ==> Product(a, b) == 0.0)
  {
  }

  /** HSL to HSV to HSL is the identity exactly on the colours RGB can produce. */
  lemma HslThroughHsvIff(hsl: Hsla)
    requires 0.0 <= hsl.s <= 1.0 && 0.0 <= hsl.l <= 1.0
    ensures HsvToHsl(HslToHsv(hsl)) == hsl <==> Proper(hsl)
  {
    hide Product;
    var m := Min(hsl.l, 1.0 - hsl.l);
    NonNegativeProduct(hsl.s, m);
    if 0.0 < hsl.l < 1.0 {
      var v := hsl.l + Product(hsl.s, m);
      LightnessBack(v, hsl.l);
      Cancel(hsl.s, m);
    }
  }

  lemma HslOfRgbIsProper(c: Rgba)
    requires InUnit(c)
    ensures Proper(RgbToHsl(c))
  {
    HslExtremes(c);
  }

  /** RGB to HSV to RGB is the identity. */
  lemma RgbThroughHsv(c: Rgba)
    requires InUnit(c)
    ensures HsvToRgb(RgbToHsv(c)) == c
  {
    hide HslToRgb, RgbToHsl, HslToHsv, HsvToHsl;
    HslOfRgbIsProper(c);
    HslThroughHsvIff(RgbToHsl(c));
    RgbThroughHsl(c);
  }

  lemma HalfRoom(s: real, l: real)
    requires 0.0 <= l <= 1.0
    ensures Product(s, Min(l, 1.0 - l)) == Product(Room(l), s) / 2.0
  {
    assert Room(l) == 2.0 * Min(l, 1.0 - l);
  }

  lemma CancelLeft(d: real, z: real, w: real)
    requires d != 0.0 && d * z == d * w
    ensures z == w
  {
  }

  lemma Ratio(p: real, d: real)
    requires 0.0 <= p <= d && 0.0 < d
    ensures 2.0 - 2.0 * (d - p / 2.0) / d == p / d && 0.0 <= p / d <= 1.0
  {
    Quotient(p, d);
    var z := 2.0 * (d - p / 2.0) / d;
    assert d * (p / d) == p;
    assert d * z == 2.0 * (d - p / 2.0);
    CancelLeft(d, z, 2.0 - p / d);
  }

  /** The value of an RGB colour is its highest component, the saturation its relative spread; all in range. */
  lemma HsvOfRgb(c: Rgba)
    requires InUnit(c)
    ensures var hsv := RgbToHsv(c);
      && hsv.v == High(c) && (High(c) != 0.0 ==> hsv.s == (High(c) - Low(c)) / High(c))
      && 0.0 <= hsv.h < 1.0 && 0.0 <= hsv.s <= 1.0 && 0.0 <= hsv.v <= 1.0
  {
    hide Product, Room, Sextants;
    HslExtremes(c);
    HslOfRgbInRange(c);
    HalfRoom(RgbToHsl(c).s, RgbToHsl(c).l);
    if High(c) != 0.0 {
      Ratio(High(c) - Low(c), High(c));
    }
  }

  // ---------------------------------------------------------------- the other direction

  lemma SaturationBack(v: real, s: real, l: real)
    requires v != 0.0 && l == v - Product(v, s) / 2.0
    ensures 2.0 - 2.0 * l / v == s
  {
    var z := 2.0 * l / v;
    assert v * z == 2.0 * l;
    CancelLeft(v, z, 2.0 - s);
  }

  /** A factor between zero and one. */
  lemma Share(a: real, b: real)
    requires 0.0 <= a && 0.0 <= b <= 1.0
    ensures 0.0 <= Product(a, b) <= a && (Product(a, b) == 0.0 <==> a == 0.0 || b == 0.0)
  {
    if a > 0.0 {
      Part(a, b);
    }
  }

  /** HSV to HSL to HSV is the identity exactly when the colour is not black, or black without saturation. */
  lemma HsvThroughHslIff(hsv: Hsva)
    requires 0.0 <= hsv.s <= 1.0 && 0.0 <= hsv.v <= 1.0
    ensures HslToHsv(HsvToHsl(hsv)) == hsv <==> (hsv.v != 0.0 || hsv.s == 0.0)
  {
    if hsv.v != 0.0 {
      ColouredThroughHsl(hsv);
    } else {
      hide Product;
      NonNegativeProduct(0.0, 0.0);
      assert HslToHsv(HsvToHsl(hsv)).s == 0.0;
    }
  }

  lemma ColouredThroughHsl(hsv: Hsva)
    requires 0.0 <= hsv.s <= 1.0 && 0.0 < hsv.v <= 1.0
    ensures HslToHsv(HsvToHsl(hsv)) == hsv
  {
    var l := hsv.v * (1.0 - hsv.s * 0.5);
    Share(hsv.v, hsv.s);
    assert l == hsv.v - Product(hsv.v, hsv.s) / 2.0;
    SaturationBack(hsv.v, hsv.s, l);
    hide Product;
    Reassembled(hsv, l);
  }

  lemma Reassembled(hsv: Hsva, l: real)
    requires 0.0 < l <= hsv.v <= 1.0
    requires l == hsv.v * (1.0 - hsv.s * 0.5) && 2.0 - 2.0 * l / hsv.v == hsv.s
    ensures HslToHsv(HsvToHsl(hsv)) == hsv
  {
    hide Product;
    var m := Min(l, 1.0 - l);
    var hsl := HsvToHsl(hsv);
    assert hsl.l == l && hsl.h == hsv.h && hsl.a == hsv.a;
    if l == 1.0 {
      NonNegativeProduct(0.0, m);
    } else {
      Cancel(hsv.v - l, m);
    }
    assert l + Product(hsl.s, m) == hsv.v;
  }

  lemma Part(c: real, t: real)
    requires 0.0 < c && 0.0 <= t <= 1.0
    ensures var x := Product(c, t);
      0.0 <= x <= c && (x == c <==> t == 1.0) && (x == 0.0 <==> t == 0.0) && x / c == t && (-x) / c == -t
  {
  }

  /** The colour whose components stand by `w` above the lowest, `m`. */
  function Above(w: (real, real, real), m: real, a: real): Rgba {
    Rgba(w.0 + m, w.1 + m, w.2 + m, a)
  }

  /** Every position of the hue circle is found again. */
  lemma HueOfWheel(h1: real, c: real, m: real, a: real)
    requires 0.0 < c && 0.0 <= h1 < 6.0
    ensures var col := Above(Wheel(h1, c), m, a); Low(col) == m && High(col) == m + c && Sextants(col) == h1
  {
    hide Product, Second;
    var k := Trunc(h1);
    assert k as real <= h1 < (k + 1) as real && k in {0, 1, 2, 3, 4, 5};
    if k in {0, 2, 4} {
      Rising(h1, c, k);
      Part(c, h1 - k as real);
    } else {
      Falling(h1, c, k);
      Part(c, (k + 1) as real - h1);
    }
  }

  /** HSL to RGB to HSL is the identity exactly on coloured values and on greys written with hue and saturation zero. */
  lemma HslThroughRgbIff(hsl: Hsla)
    requires 0.0 <= hsl.h < 1.0 && 0.0 <= hsl.s <= 1.0 && 0.0 <= hsl.l <= 1.0
    ensures InUnit(HslToRgb(hsl))
    ensures RgbToHsl(HslToRgb(hsl)) == hsl <==> (0.0 < hsl.l < 1.0 && 0.0 < hsl.s) || (hsl.h == 0.0 && hsl.s == 0.0)
  {
    hide Product, Wheel, Low, High, Sextants, RgbToHsl;
    var c := Product(Room(hsl.l), hsl.s);
    var m := hsl.l - c / 2.0;
    var col := HslToRgb(hsl);
    assert col == Above(Wheel(hsl.h * 6.0, c), m, hsl.a);
    ChromaFits(hsl);
    if 0.0 < c {
      HueOfWheel(hsl.h * 6.0, c, m, hsl.a);
      BetweenExtremes(col);
      ColouredBack(hsl, col, c, m);
    } else {
      GreyWheel(hsl.h * 6.0);
      GreyBack(hsl, col);
    }
  }

  lemma BetweenExtremes(c: Rgba)
    requires 0.0 <= Low(c) && High(c) <= 1.0
    ensures InUnit(c)
  {
  }

  lemma ColouredBack(hsl: Hsla, col: Rgba, c: real, m: real)
    requires InUnit(col) && 0.0 <= hsl.l <= 1.0
    requires c == Product(Room(hsl.l), hsl.s) && 0.0 < c <= Room(hsl.l) && m == hsl.l - c / 2.0
    requires Low(col) == m && High(col) == m + c && Sextants(col) == hsl.h * 6.0 && col.a == hsl.a
    ensures RgbToHsl(col) == hsl
  {
    hide Low, High, Sextants, Product;
    var l := 0.5 * (High(col) + Low(col));
    assert l == hsl.l;
    RoomIsLeft(High(col), Low(col));
    CancelRoom(Room(l), hsl.s);
  }

  lemma CancelRoom(room: real, s: real)
    requires room != 0.0
    ensures Product(room, s) / room == s
  {
  }

  lemma GreyBack(hsl: Hsla, col: Rgba)
    requires 0.0 <= hsl.l <= 1.0 && col == Rgba(hsl.l, hsl.l, hsl.l, hsl.a)
    ensures InUnit(col) && RgbToHsl(col) == Hsla(0.0, 0.0, hsl.l, hsl.a)
  {
  }

  lemma ChromaFits(hsl: Hsla)
    requires 0.0 <= hsl.s <= 1.0 && 0.0 <= hsl.l <= 1.0
    ensures var c := Product(Room(hsl.l), hsl.s);
      && 0.0 <= c <= Room(hsl.l) && (c == 0.0 <==> hsl.l == 0.0 || hsl.l == 1.0 || hsl.s == 0.0)
  {
    hide Product;
    Share(Room(hsl.l), hsl.s);
  }
}
