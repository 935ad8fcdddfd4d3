/** The fixed 16-colour PICO-8 palette and the nearest-colour quantiser that all
    three tools share: a linear scan for the smallest squared distance, in which a
    later entry wins only when it is strictly closer, so ties go to the lowest index. */
module Palette {
  import opened Images

  /** A PICO-8 colour index. */
  type Colour = c: int | 0 <= c < 16

  const Pico8Palette: seq<Rgb> := [
    Rgb(0, 0, 0),        // 0: black
    Rgb(29, 43, 83),     // 1: dark blue
    Rgb(126, 37, 83),    // 2: dark purple
    Rgb(0, 135, 81),     // 3: dark green
    Rgb(171, 82, 54),    // 4: brown
    Rgb(95, 87, 79),     // 5: dark grey
    Rgb(194, 195, 199),  // 6: light grey
    Rgb(255, 241, 232),  // 7: white
    Rgb(255, 0, 77),     // 8: red
    Rgb(255, 163, 0),    // 9: orange
    Rgb(255, 236, 39),   // 10: yellow
    Rgb(0, 228, 54),     // 11: green
    Rgb(41, 173, 255),   // 12: blue
    Rgb(131, 118, 156),  // 13: indigo
    Rgb(255, 119, 168),  // 14: pink
    Rgb(255, 204, 170)   // 15: peach
  ]

  function Square(d: int): nat {
    if d < 0 then (-d) * (-d) else d * d
  }

  /** Squared Euclidean distance between two colours, summed channel by channel. */
  function Distance(c: Rgb, q: Rgb): nat {
    Square(c.r - q.r) + Square(c.g - q.g) + Square(c.b - q.b)
  }

  /** `k` is a palette index whose distance to `c` is minimal, and no lower index is as close. */
  predicate IsNearest(c: Rgb, k: int) {
    && 0 <= k < 16
    && (forall j :: 0 <= j < 16 ==> Distance(c, Pico8Palette[k]) <= Distance(c, Pico8Palette[j]))
    && (forall j :: 0 <= j < k ==> Distance(c, Pico8Palette[j]) > Distance(c, Pico8Palette[k]))
  }

  /** The index the scan holds after examining the first `n` palette entries. */
  function NearestAmong(c: Rgb, n: nat): (k: Colour)
    requires 1 <= n <= 16
    ensures k < n
  {
    if n == 1 then 0
    else
      var k := NearestAmong(c, n - 1);
      if Distance(c, Pico8Palette[n - 1]) < Distance(c, Pico8Palette[k]) then n - 1 else k
  }

  /** After the first `n` entries the scan holds an index no scanned entry beats, and every
      lower index is strictly farther: a later entry replaces it only when strictly closer. */
  lemma {:induction false} NearestAmongIsMin(c: Rgb, n: nat)
    requires 1 <= n <= 16
    ensures forall j :: 0 <= j < n ==> Distance(c, Pico8Palette[NearestAmong(c, n)]) <= Distance(c, Pico8Palette[j])
    ensures forall j :: 0 <= j < NearestAmong(c, n) ==>
      Distance(c, Pico8Palette[j]) > Distance(c, Pico8Palette[NearestAmong(c, n)])
  {
    if n > 1 {
      NearestAmongIsMin(c, n - 1);
      var prev, k := NearestAmong(c, n - 1), NearestAmong(c, n);
      var best := Distance(c, Pico8Palette[k]);
      assert best <= Distance(c, Pico8Palette[prev]) && best <= Distance(c, Pico8Palette[n - 1]);
      forall j | 0 <= j < n
        ensures best <= Distance(c, Pico8Palette[j])
      {
        if j < n - 1 {
          assert Distance(c, Pico8Palette[prev]) <= Distance(c, Pico8Palette[j]);
        }
      }
    }
  }

  /** The palette index closest to `c`. */
  function Nearest(c: Rgb): Colour {
    NearestAmong(c, 16)
  }

  /** `Nearest` picks the closest palette entry, the lowest-numbered one on a tie. */
  lemma NearestIsNearest(c: Rgb)
    ensures IsNearest(c, Nearest(c))
  {
    NearestAmongIsMin(c, 16);
  }

  /** What the source denotes by `float('inf')`: a bound every distance lies below. */
  datatype Bound = Finite(value: int) | Infinite

  predicate Below(d: int, b: Bound) {
    b.Infinite? || d < b.value
  }

  /** The palette scan on an RGB triple, as `rgb_to_pico8_color` performs it and as
      `find_closest_pico8_color` performs it once the alpha channel is dealt with. */
  method NearestColor(c: Rgb) returns (closest: Colour)
    ensures IsNearest(c, closest)
    ensures closest == Nearest(c)
  {
    var minDistance := Infinite;
    closest := 0;
    var i := 0;
    while i < 16
      invariant 0 <= i <= 16
      invariant i == 0 ==> minDistance == Infinite && closest == 0
      invariant i > 0 ==> closest == NearestAmong(c, i)
      invariant i > 0 ==> minDistance == Finite(Distance(c, Pico8Palette[closest]))
    {
      minDistance, closest := ScanEntry(c, i, minDistance, closest);
      i := i + 1;
    }
    NearestIsNearest(c);
  }

  /** One round of the scan: entry `i` replaces the held index when strictly closer. */
  method ScanEntry(c: Rgb, i: Colour, minDistance: Bound, closest: Colour) returns (minDistance': Bound, closest': Colour)
    requires i == 0 ==> minDistance == Infinite && closest == 0
    requires i > 0 ==> closest == NearestAmong(c, i) && minDistance == Finite(Distance(c, Pico8Palette[closest]))
    ensures closest' == NearestAmong(c, i + 1)
    ensures minDistance' == Finite(Distance(c, Pico8Palette[closest']))
  {
    minDistance', closest' := minDistance, closest;
    var distance := Distance(c, Pico8Palette[i]);
    if Below(distance, minDistance') {
      minDistance' := Finite(distance);
      closest' := i;
    }
  }

  /** The colour a pixel quantises to: 0 for a transparent RGBA pixel, otherwise the
      nearest palette entry to its first three channels. */
  function Quantize(p: Pixel): (k: Colour)
    ensures p.Transparent() ==> k == 0
  {
    if p.Transparent() then 0 else Nearest(p.Channels())
  }

  /** Any other pixel quantises to the palette entry closest to its colour channels. */
  lemma QuantizeIsNearest(p: Pixel)
    requires !p.Transparent()
    ensures IsNearest(p.Channels(), Quantize(p))
  {
    NearestIsNearest(p.Channels());
  }

  /** `find_closest_pico8_color`: the alpha test on 4-tuples, then the palette scan. */
  method FindClosestPico8Color(p: Pixel) returns (closest: Colour)
    ensures p.Transparent() ==> closest == 0
    ensures !p.Transparent() ==> IsNearest(p.Channels(), closest)
    ensures closest == Quantize(p)
  {
    if p.RGBA? {
      if p.a == 0 {
        return 0;
      }
    }
    closest := NearestColor(p.Channels());
  }

  /** The nearest-colour condition pins down a single index, so the scan's result is
      the only answer the condition admits. */
  lemma NearestIsUnique(c: Rgb, k1: int, k2: int)
    requires IsNearest(c, k1) && IsNearest(c, k2)
    ensures k1 == k2
  {
    assert Distance(c, Pico8Palette[k1]) <= Distance(c, Pico8Palette[k2]);
    assert Distance(c, Pico8Palette[k2]) <= Distance(c, Pico8Palette[k1]);
  }

  lemma SquareZero(d: int)
    ensures Square(d) == 0 <==> d == 0
  {
    if d > 0 {
      assert d * d >= d;
    } else if d < 0 {
      assert (-d) * (-d) >= -d;
    }
  }

  /** Only identical colours are at distance 0. */
  lemma DistanceZero(c: Rgb, q: Rgb)
    ensures Distance(c, q) == 0 <==> c == q
  {
    SquareZero(c.r - q.r);
    SquareZero(c.g - q.g);
    SquareZero(c.b - q.b);
  }

  /** The sixteen palette entries are pairwise different. */
  lemma PaletteDistinct(i: Colour, j: Colour)
    requires Pico8Palette[i] == Pico8Palette[j]
    ensures i == j
  {
  }

  /** Every palette colour quantises to its own index. */
  lemma PaletteColourIsFixed(k: Colour)
    ensures Nearest(Pico8Palette[k]) == k
    ensures Quantize(RGB(Pico8Palette[k].r, Pico8Palette[k].g, Pico8Palette[k].b)) == k
  {
    var c := Pico8Palette[k];
    var m := Nearest(c);
    NearestIsNearest(c);
    DistanceZero(c, c);
    DistanceZero(c, Pico8Palette[m]);
    PaletteDistinct(m, k);
    assert RGB(c.r, c.g, c.b).Channels() == c;
  }

  /** Sprite pixels as colour indices, row by row. */
  type Tile = seq<seq<Colour>>

  predicate IsSquare(t: Tile, n: nat) {
    |t| == n && forall y :: 0 <= y < n ==> |t[y]| == n
  }

  /** Two square tiles with the same cells are the same tile. */
  lemma SameTile(a: Tile, b: Tile, n: nat)
    requires IsSquare(a, n) && IsSquare(b, n)
    requires forall y, x :: 0 <= y < n && 0 <= x < n ==> a[y][x] == b[y][x]
    ensures a == b
  {
    forall y | 0 <= y < n
      ensures a[y] == b[y]
    {
      assert forall x :: 0 <= x < n ==> a[y][x] == b[y][x];
    }
  }
}
