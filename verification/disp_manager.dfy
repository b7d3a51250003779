/** The display manager: the list of display devices and the default one,
    the geometry derived from the chosen device's buffer, `putpixel` with
    its pixel formats, and the drawing routines built on it. The frame
    buffer is modelled as a map from pixel coordinates to the value stored
    for that pixel; the byte address of a pixel is modelled separately. */
module DisplayManager {
  import opened Common
  import opened Registry
  import opened FontManager
  import opened FreeType
  import opened Scan

  /** The display buffer descriptor: resolution and bits per pixel. The
      mapped memory itself is the `Screen` below. */
  datatype DispBuff = DispBuff(xres: int, yres: int, bpp: int)

  /** The device list (head first) and the default device. A node's item
      stands for the driver's function pointers. */
  datatype DisplayManager = DisplayManager(devs: seq<Named<nat>>, default: Option<Named<nat>>)

  /** registerdisplay: head insertion; the default device is not touched. */
  function RegisterDisplay(m: DisplayManager, dev: Named<nat>): (r: DisplayManager)
    ensures |r.devs| == |m.devs| + 1 && r.devs[0] == dev && r.devs[1..] == m.devs
    ensures r.default == m.default
  {
    m.(devs := Register(m.devs, dev))
  }

  /** selectdefaultdisplay: the first device with that name becomes the
      default and 0 is returned; with no such device -1 is returned and
      the default is left as it was. */
  function SelectDefaultDisplay(m: DisplayManager, name: string): (r: (int, DisplayManager))
    ensures r.1.devs == m.devs
    ensures r.0 == 0 || r.0 == -1
    ensures r.0 == -1 <==> forall j :: 0 <= j < |m.devs| ==> m.devs[j].name != name
    ensures r.0 == -1 ==> r.1 == m
    ensures forall i :: 0 <= i < |m.devs| && m.devs[i].name == name
                        && (forall j :: 0 <= j < i ==> m.devs[j].name != name) ==>
              r.1.default == Some(m.devs[i])
  {
    match Lookup(m.devs, name)
    case None => (-1, m)
    case Some(dev) => (0, m.(default := Some(dev)))
  }

  /** What initdefaultdisplay leaves behind: the buffer descriptor, the
      bytes per screen line and the bytes per pixel. */
  datatype Geometry = Geometry(buff: DispBuff, lineWidth: int, pixelWidth: int)

  /** initdefaultdisplay. `initRc` is what the default device's `deviceinit`
      returns, `bufRc` and `buff` what its `getbuffer` returns and fills
      in. None stands for the -1 return. A default device must have been
      selected (the C code dereferences it). */
  function InitDefaultDisplay(m: DisplayManager, initRc: int, bufRc: int, buff: DispBuff): (r: Option<Geometry>)
    requires m.default.Some?
    ensures r.None? <==> initRc != 0 || bufRc != 0
    ensures r.Some? ==> r.value.buff == buff
    ensures r.Some? && buff.xres >= 0 && buff.bpp % 8 == 0 ==>
              r.value.lineWidth == buff.xres * r.value.pixelWidth
    ensures r.Some? && buff.bpp >= 0 ==> r.value.pixelWidth * 8 <= buff.bpp < r.value.pixelWidth * 8 + 8
    ensures r.Some? && buff.xres * buff.bpp >= 0 ==>
              r.value.lineWidth * 8 <= buff.xres * buff.bpp < r.value.lineWidth * 8 + 8
  {
    if initRc != 0 then None
    else if bufRc != 0 then None
    else Some(Geometry(buff, CDiv(buff.xres * buff.bpp, 8), CDiv(buff.bpp, 8)))
  }

  predicate SupportedBpp(bpp: int) {
    bpp == 8 || bpp == 16 || bpp == 32
  }

  /** Byte offset of pixel (x, y) from the start of the frame buffer. */
  function PixelOffset(g: Geometry, x: int, y: int): int {
    y * g.lineWidth + x * g.pixelWidth
  }

  /** With a supported pixel format, distinct on-screen pixels occupy
      disjoint bytes, and every on-screen pixel lies inside the
      `xres * yres * bpp / 8` bytes of the buffer. */
  lemma PixelsDisjoint(m: DisplayManager, initRc: int, bufRc: int, buff: DispBuff,
                       x1: int, y1: int, x2: int, y2: int)
    requires m.default.Some? && initRc == 0 && bufRc == 0
    requires SupportedBpp(buff.bpp)
    requires 0 <= x1 < buff.xres && 0 <= x2 < buff.xres && 0 <= y1 < buff.yres && 0 <= y2 < buff.yres
    requires (x1, y1) != (x2, y2)
    ensures var g := InitDefaultDisplay(m, initRc, bufRc, buff).value;
            PixelOffset(g, x1, y1) + g.pixelWidth <= PixelOffset(g, x2, y2)
            || PixelOffset(g, x2, y2) + g.pixelWidth <= PixelOffset(g, x1, y1)
    ensures var g := InitDefaultDisplay(m, initRc, bufRc, buff).value;
            0 <= PixelOffset(g, x1, y1)
            && PixelOffset(g, x1, y1) + g.pixelWidth <= buff.xres * buff.yres * g.pixelWidth
  {
    var g := InitDefaultDisplay(m, initRc, bufRc, buff).value;
    var pw := g.pixelWidth;
    var xres := buff.xres;
    assert pw > 0;
    var k1 := y1 * xres + x1;
    var k2 := y2 * xres + x2;
    OffsetIsIndex(xres, pw, x1, y1);
    OffsetIsIndex(xres, pw, x2, y2);
    assert PixelOffset(g, x1, y1) == k1 * pw;
    assert PixelOffset(g, x2, y2) == k2 * pw;
    LinearIndexInjective(xres, x1, y1, x2, y2);
    if k1 < k2 {
      MulMono(k1 + 1, k2, pw);
    } else {
      MulMono(k2 + 1, k1, pw);
    }
    LinearIndexBound(xres, buff.yres, x1, y1);
    MulMono(k1 + 1, xres * buff.yres, pw);
    assert 0 <= k1 * pw by { MulMono(0, k1, pw); }
  }

  lemma OffsetIsIndex(xres: int, pw: int, x: int, y: int)
    ensures y * (xres * pw) + x * pw == (y * xres + x) * pw
  {
    calc {
      y * (xres * pw) + x * pw;
      (y * xres) * pw + x * pw;
      (y * xres + x) * pw;
    }
  }

  lemma LinearIndexInjective(xres: int, x1: int, y1: int, x2: int, y2: int)
    requires 0 <= x1 < xres && 0 <= x2 < xres
    requires (x1, y1) != (x2, y2)
    ensures y1 * xres + x1 != y2 * xres + x2
  {
    if y1 == y2 {
    } else if y1 < y2 {
      MulMono(y1 + 1, y2, xres);
    } else {
      MulMono(y2 + 1, y1, xres);
    }
  }

  lemma LinearIndexBound(xres: int, yres: int, x: int, y: int)
    requires 0 <= x < xres && 0 <= y < yres
    ensures 0 <= y * xres + x && y * xres + x + 1 <= xres * yres
  {
    MulMono(y + 1, yres, xres);
    MulMono(0, y, xres);
  }

  lemma MulMono(a: int, b: int, c: int)
    requires a <= b && c >= 0
    ensures a * c <= b * c
  {
  }

  /** The quotient of Euclidean division brackets the dividend. */
  lemma DivBounds(n: int, d: int)
    requires d >= 1
    ensures (n / d) * d <= n < (n / d) * d + d
  {
  }

  /** Quotient and remainder are determined by the bracketing. */
  lemma DivModUnique(k: int, d: int, q: int, m: int)
    requires d >= 1 && k == q * d + m && 0 <= m < d
    ensures k / d == q && k % d == m
  {
    DivBounds(k, d);
    var q2 := k / d;
    if q2 < q {
      MulMono(q2 + 1, q, d);
    } else if q < q2 {
      MulMono(q + 1, q2, d);
    }
  }

  /** Three fields of 5, 6 and 5 bits packed high to low are read back by
      shifting and masking. */
  lemma Pack565(r: int, g: int, b: int)
    requires 0 <= r < 32 && 0 <= g < 64 && 0 <= b < 32
    ensures var v := r * 2048 + g * 32 + b;
            0 <= v < 0x10000 && v / 2048 == r && v / 32 % 64 == g && v % 32 == b
  {
    var v := r * 2048 + g * 32 + b;
    MulMono(r, 31, 2048);
    DivModUnique(v, 2048, r, g * 32 + b);
    DivModUnique(v, 32, r * 64 + g, b);
    DivModUnique(r * 64 + g, 64, r, g);
  }

  /** Red, green and blue bytes of a 0xRRGGBB colour. */
  function Red(c: Color): int { c / 0x10000 % 0x100 }
  function Green(c: Color): int { c / 0x100 % 0x100 }
  function Blue(c: Color): int { c % 0x100 }

  /** RGB888 to RGB565: `((r >> 3) << 11) | ((g >> 2) << 5) | (b >> 3)`. The
      three fields occupy disjoint bits, so the `|` is a sum. */
  function Rgb565(c: Color): (v: int)
    ensures 0 <= v < 0x10000
    ensures v / 2048 == Red(c) / 8
    ensures v / 32 % 64 == Green(c) / 4
    ensures v % 32 == Blue(c) / 8
  {
    Pack565(Red(c) / 8, Green(c) / 4, Blue(c) / 8);
    (Red(c) / 8) * 2048 + (Green(c) / 4) * 32 + Blue(c) / 8
  }

  /** The value putpixel stores for a colour at a pixel format; None for a
      format it does not support. At 8 bits the colour is truncated to its
      low byte by the `unsigned char` store. */
  function Encode(bpp: int, c: Color): (r: Option<int>)
    ensures r.Some? <==> SupportedBpp(bpp)
    ensures r.Some? ==> 0 <= r.value < Pow2(bpp)
    ensures bpp == 8 ==> r == Some(Blue(c))
    ensures bpp == 16 ==> r == Some(Rgb565(c))
    ensures bpp == 32 ==> r == Some(c)
  {
    if bpp == 8 then Some(c % 0x100)
    else if bpp == 16 then Some(Rgb565(c))
    else if bpp == 32 then Some(c)
    else None
  }

  function Pow2(n: int): int {
    if n == 8 then 0x100 else if n == 16 then 0x10000 else if n == 32 then 0x1_0000_0000 else 1
  }

  /** The frame buffer contents: the value stored for each pixel written. */
  datatype Screen = Screen(buff: DispBuff, pixels: map<(int, int), int>)

  /** putpixel: stores the encoded colour at (x, y) and returns 0, or
      returns -1 and writes nothing for an unsupported pixel format. There
      is no bounds check. */
  function PutPixel(s: Screen, x: int, y: int, c: Color): (r: (int, Screen))
    ensures Encode(s.buff.bpp, c).None? ==> r == (-1, s)
    ensures Encode(s.buff.bpp, c).Some? ==>
              r.0 == 0 && r.1.buff == s.buff
              && r.1.pixels == s.pixels[(x, y) := Encode(s.buff.bpp, c).value]
  {
    match Encode(s.buff.bpp, c)
    case None => (-1, s)
    case Some(v) => (0, s.(pixels := s.pixels[(x, y) := v]))
  }

  predicate InRect(p: (int, int), r: Region) {
    r.x <= p.0 < r.x + r.width && r.y <= p.1 < r.y + r.height
  }

  /** The inner loop of draw_region: row `j`, columns `i` up to `xEnd`. */
  function RegionRow(s: Screen, i: int, xEnd: int, j: int, c: Color): (r: Screen)
    requires SupportedBpp(s.buff.bpp)
    ensures r.buff == s.buff
    ensures forall p :: p in r.pixels <==> p in s.pixels || (p.1 == j && i <= p.0 < xEnd)
    ensures forall p :: p in r.pixels ==>
              r.pixels[p] == if p.1 == j && i <= p.0 < xEnd then Encode(s.buff.bpp, c).value else s.pixels[p]
    decreases xEnd - i
  {
    if i >= xEnd then s else RegionRow(PutPixel(s, i, j, c).1, i + 1, xEnd, j, c)
  }

  /** The outer loop of draw_region: rows `j` up to `yEnd`. */
  function RegionRows(s: Screen, r: Region, j: int, c: Color): (t: Screen)
    requires SupportedBpp(s.buff.bpp) && r.y <= j
    ensures t.buff == s.buff
    ensures forall p :: p in t.pixels <==> p in s.pixels || (InRect(p, r) && j <= p.1)
    ensures forall p :: p in t.pixels ==>
              t.pixels[p] == if InRect(p, r) && j <= p.1 then Encode(s.buff.bpp, c).value else s.pixels[p]
    decreases r.y + r.height - j
  {
    if j >= r.y + r.height then s
    else RegionRows(RegionRow(s, r.x, r.x + r.width, j, c), r, j + 1, c)
  }

  /** draw_region: every pixel of the rectangle, and no other, is set to
      the colour; nothing is clipped to the screen. With an unsupported
      pixel format every putpixel fails and the screen is unchanged. */
  function DrawRegion(s: Screen, r: Region, c: Color): (t: Screen)
    ensures t.buff == s.buff
    ensures !SupportedBpp(s.buff.bpp) ==> t == s
    ensures SupportedBpp(s.buff.bpp) ==>
              (forall p :: p in t.pixels <==> p in s.pixels || InRect(p, r))
              && (forall p :: p in t.pixels ==>
                    t.pixels[p] == if InRect(p, r) then Encode(s.buff.bpp, c).value else s.pixels[p])
  {
    if SupportedBpp(s.buff.bpp) then RegionRows(s, r, r.y, c) else s
  }

  predicate OnScreen(p: (int, int), b: DispBuff) {
    0 <= p.0 < b.xres && 0 <= p.1 < b.yres
  }

  /** Index of the mask byte for pixel `p` of a glyph bitmap. */
  function MaskIndex(bm: FontBitmap, p: (int, int)): int {
    (p.1 - bm.region.y) * bm.region.width + (p.0 - bm.region.x)
  }

  /** The mask covers the bitmap's rectangle. */
  predicate MaskCovers(bm: FontBitmap) {
    bm.region.width <= 0 || bm.region.height <= 0
    || |bm.buffer| >= bm.region.width * bm.region.height
  }

  lemma MaskIndexInRange(bm: FontBitmap, p: (int, int))
    requires MaskCovers(bm) && InRect(p, bm.region)
    ensures 0 <= MaskIndex(bm, p) < |bm.buffer|
  {
    var q := p.1 - bm.region.y;
    var w := bm.region.width;
    MulMono(0, q, w);
    MulMono(q + 1, bm.region.height, w);
  }

  /** A pixel drawfontbitmap paints: inside the glyph, on the screen, with a
      non-zero mask byte. */
  predicate GlyphPaints(b: DispBuff, bm: FontBitmap, p: (int, int))
    requires MaskCovers(bm)
  {
    InRect(p, bm.region) && OnScreen(p, b)
    && (MaskIndexInRange(bm, p); bm.buffer[MaskIndex(bm, p)] != 0)
  }

  /** The inner loop of drawfontbitmap: row `j`, columns `i` up to the
      right edge of the glyph. */
  function GlyphRow(s: Screen, bm: FontBitmap, i: int, j: int, c: Color): (r: Screen)
    requires SupportedBpp(s.buff.bpp) && MaskCovers(bm)
    requires bm.region.y <= j < bm.region.y + bm.region.height && bm.region.x <= i
    ensures r.buff == s.buff
    ensures forall p :: p in r.pixels <==>
              p in s.pixels || (p.1 == j && i <= p.0 && GlyphPaints(s.buff, bm, p))
    ensures forall p :: p in r.pixels ==>
              r.pixels[p] == if p.1 == j && i <= p.0 && GlyphPaints(s.buff, bm, p)
                             then Encode(s.buff.bpp, c).value else s.pixels[p]
    decreases bm.region.x + bm.region.width - i
  {
    if i >= bm.region.x + bm.region.width then s
    else if GlyphPaints(s.buff, bm, (i, j)) then
      GlyphRow(PutPixel(s, i, j, c).1, bm, i + 1, j, c)
    else
      GlyphRow(s, bm, i + 1, j, c)
  }

  /** The outer loop of drawfontbitmap: rows `j` down to the bottom edge. */
  function GlyphRows(s: Screen, bm: FontBitmap, j: int, c: Color): (r: Screen)
    requires SupportedBpp(s.buff.bpp) && MaskCovers(bm)
    ensures r.buff == s.buff
    ensures forall p :: p in r.pixels <==> p in s.pixels || (j <= p.1 && GlyphPaints(s.buff, bm, p))
    ensures forall p :: p in r.pixels ==>
              r.pixels[p] == if j <= p.1 && GlyphPaints(s.buff, bm, p)
                             then Encode(s.buff.bpp, c).value else s.pixels[p]
    decreases bm.region.y + bm.region.height - j
  {
    if j >= bm.region.y + bm.region.height then s
    else if j < bm.region.y then GlyphRows(s, bm, bm.region.y, c)
    else GlyphRows(GlyphRow(s, bm, bm.region.x, j, c), bm, j + 1, c)
  }

  /** drawfontbitmap: paints exactly the pixels of the glyph's rectangle
      that are on the screen and whose mask byte is non-zero; everything
      else is left as it was. */
  function DrawFontBitmap(s: Screen, bm: FontBitmap, c: Color): (t: Screen)
    requires MaskCovers(bm)
    ensures t.buff == s.buff
    ensures !SupportedBpp(s.buff.bpp) ==> t == s
    ensures SupportedBpp(s.buff.bpp) ==>
              (forall p :: p in t.pixels <==> p in s.pixels || GlyphPaints(s.buff, bm, p))
              && (forall p :: p in t.pixels ==>
                    t.pixels[p] == if GlyphPaints(s.buff, bm, p) then Encode(s.buff.bpp, c).value else s.pixels[p])
  {
    if SupportedBpp(s.buff.bpp) then GlyphRows(s, bm, bm.region.y, c) else s
  }

  /** The pen origin drawtext_inregioncentral starts from: the string's
      bounding box (Cartesian, y up) is centred in the region, using C's
      truncating division. */
  function TextOrigin(r: Region, box: RegionCar): (o: (int, int))
    ensures var left := o.0 + box.x;
            var right := r.x + r.width - (left + box.width);
            -1 <= (left - r.x) - right <= 1
            && (r.width >= box.width ==> left - r.x <= right)
            && (r.width <= box.width ==> left - r.x >= right)
    ensures var top := o.1 - box.y;
            var bottom := r.y + r.height - (top + box.height);
            -1 <= (top - r.y) - bottom <= 1
            && (r.height >= box.height ==> top - r.y <= bottom)
            && (r.height <= box.height ==> top - r.y >= bottom)
  {
    (r.x + CDiv(r.width - box.width, 2) - box.x,
     r.y + CDiv(r.height - box.height, 2) + box.y)
  }

  /** The glyphs the drawtext loop lays out for `text`, starting at origin
      (ox, oy). `bm` is the loop's bitmap record, carried from one character
      to the next and left uninitialised before the first; `render` is what
      FreeType puts in the glyph slot for a character at a pen origin, and
      `get` the engine's getfontbitmap. The loop stops at the first
      character the engine fails on. */
  function Glyphs(text: string, bm: FontBitmap, ox: int, oy: int,
                  render: (char, int, int) -> Option<GlyphSlot>,
                  get: (FontBitmap, Option<GlyphSlot>) -> Option<FontBitmap>): (gs: seq<FontBitmap>)
    ensures |gs| <= |text|
    decreases |text|
  {
    if |text| == 0 then []
    else
      var cur := bm.(curOriginX := ox, curOriginY := oy);
      match get(cur, render(text[0], ox, oy))
      case None => []
      case Some(nb) => [nb] + Glyphs(text[1..], nb, nb.nextOriginX, nb.nextOriginY, render, get)
  }

  /** With the corrected getfontbitmap, every glyph is rendered at pen
      (x, oy) and placed from the baseline `oy`: its top edge is
      `bitmapTop` mirrored about `oy`, each origin is the previous one
      advanced, and the layout stops exactly at the first character that
      fails to render. */
  lemma {:induction false} CorrectedLayout(text: string, bm: FontBitmap, ox: int, oy: int,
                                           render: (char, int, int) -> Option<GlyphSlot>)
    ensures var gs := Glyphs(text, bm, ox, oy, render, FreeType.GetFontBitmap);
            forall k :: 0 <= k < |gs| ==>
              gs[k].curOriginY == oy && gs[k].nextOriginY == oy
              && render(text[k], gs[k].curOriginX, oy).Some?
              && var g := render(text[k], gs[k].curOriginX, oy).value;
                 gs[k].region == Region(g.bitmapLeft, 2 * oy - g.bitmapTop, g.width, g.rows)
                 && gs[k].buffer == g.buffer
                 && gs[k].nextOriginX == Advance(gs[k].curOriginX, g.advanceX)
    ensures var gs := Glyphs(text, bm, ox, oy, render, FreeType.GetFontBitmap);
            (|gs| > 0 ==> gs[0].curOriginX == ox)
            && (forall k :: 0 <= k < |gs| - 1 ==> gs[k + 1].curOriginX == gs[k].nextOriginX)
    ensures var gs := Glyphs(text, bm, ox, oy, render, FreeType.GetFontBitmap);
            |gs| < |text| ==>
              render(text[|gs|], if |gs| == 0 then ox else gs[|gs| - 1].nextOriginX, oy).None?
    decreases |text|
  {
    if |text| > 0 {
      var cur := bm.(curOriginX := ox, curOriginY := oy);
      var slot := render(text[0], ox, oy);
      if slot.Some? {
        var nb := FreeType.GetFontBitmap(cur, slot).value;
        CorrectedLayout(text[1..], nb, nb.nextOriginX, oy, render);
        var gs := Glyphs(text, bm, ox, oy, render, FreeType.GetFontBitmap);
        var rest := Glyphs(text[1..], nb, nb.nextOriginX, oy, render, FreeType.GetFontBitmap);
        assert gs == [nb] + rest;
        forall k | 0 < k < |gs|
          ensures gs[k] == rest[k - 1] && text[k] == text[1..][k - 1]
        {
        }
      }
    }
  }

  /** The corrected layout does not depend on the uninitialised bitmap
      record the loop starts from. */
  lemma {:induction false} CorrectedIgnoresUninitialised(text: string, bm1: FontBitmap, bm2: FontBitmap,
                                                         ox: int, oy: int,
                                                         render: (char, int, int) -> Option<GlyphSlot>)
    ensures Glyphs(text, bm1, ox, oy, render, FreeType.GetFontBitmap)
            == Glyphs(text, bm2, ox, oy, render, FreeType.GetFontBitmap)
    decreases |text|
  {
    if |text| > 0 {
      var slot := render(text[0], ox, oy);
      if slot.Some? {
        var nb1 := FreeType.GetFontBitmap(bm1.(curOriginX := ox, curOriginY := oy), slot).value;
        var nb2 := FreeType.GetFontBitmap(bm2.(curOriginX := ox, curOriginY := oy), slot).value;
        assert nb1 == nb2;
        CorrectedIgnoresUninitialised(text[1..], nb1, nb2, nb1.nextOriginX, nb1.nextOriginY, render);
      }
    }
  }

  /** As written, every glyph's top edge is measured from the `i_next_originy`
      the uninitialised record happened to hold, never from `oy`. */
  lemma {:induction false} AsWrittenLayout(text: string, bm: FontBitmap, ox: int, oy: int,
                                           render: (char, int, int) -> Option<GlyphSlot>)
    ensures var gs := Glyphs(text, bm, ox, oy, render, FreeType.GetFontBitmapAsWritten);
            forall k :: 0 <= k < |gs| ==>
              gs[k].nextOriginY == bm.nextOriginY
              && render(text[k], gs[k].curOriginX, gs[k].curOriginY).Some?
              && gs[k].region.y == bm.nextOriginY - render(text[k], gs[k].curOriginX, gs[k].curOriginY).value.bitmapTop
    decreases |text|
  {
    if |text| > 0 {
      var cur := bm.(curOriginX := ox, curOriginY := oy);
      var slot := render(text[0], ox, oy);
      if slot.Some? {
        var nb := FreeType.GetFontBitmapAsWritten(cur, slot).value;
        AsWrittenLayout(text[1..], nb, nb.nextOriginX, nb.nextOriginY, render);
        var gs := Glyphs(text, bm, ox, oy, render, FreeType.GetFontBitmapAsWritten);
        var rest := Glyphs(text[1..], nb, nb.nextOriginX, nb.nextOriginY, render, FreeType.GetFontBitmapAsWritten);
        assert gs == [nb] + rest;
        forall k | 0 < k < |gs|
          ensures gs[k] == rest[k - 1] && text[k] == text[1..][k - 1]
        {
        }
      }
    }
  }

  /** For a renderer that moves each character's bearings by the pen,
      the corrected layout puts every glyph's top-left corner at its
      bearings from its origin on the baseline `oy`: `top` pixels above
      it, `left` pixels to the right of the origin. */
  lemma GlyphsSitOnBaseline(text: string, bm: FontBitmap, ox: int, oy: int,
                            render: (char, int, int) -> Option<GlyphSlot>,
                            left: char -> int, top: char -> int)
    requires forall ch, x, y :: render(ch, x, y).Some? ==>
               render(ch, x, y).value.bitmapLeft == x + left(ch)
               && render(ch, x, y).value.bitmapTop == y + top(ch)
    ensures var gs := Glyphs(text, bm, ox, oy, render, FreeType.GetFontBitmap);
            forall k :: 0 <= k < |gs| ==>
              gs[k].region.x == gs[k].curOriginX + left(text[k])
              && gs[k].region.y == oy - top(text[k])
  {
    CorrectedLayout(text, bm, ox, oy, render);
    var gs := Glyphs(text, bm, ox, oy, render, FreeType.GetFontBitmap);
    forall k | 0 <= k < |gs|
      ensures gs[k].region.x == gs[k].curOriginX + left(text[k])
              && gs[k].region.y == oy - top(text[k])
    {
      assert render(text[k], gs[k].curOriginX, oy).Some?;
    }
  }

  /** A concrete case: a glyph 10 pixels tall whose top is 10 pixels above
      its origin, drawn on baseline 100, has `bitmap_top` 110. With the
      record's `i_next_originy` holding 0 it lands at y = -110, off the top
      of the screen, where the corrected version puts it at y = 90. */
  lemma StaleBaselineMisplacesGlyph(bm: FontBitmap)
    requires bm.nextOriginY == 0
    ensures var render := (c: char, x: int, y: int) => Some(GlyphSlot(x, y + 10, 8, 10, 512, seq(80, i => 255)));
            Glyphs("A", bm, 20, 100, render, FreeType.GetFontBitmapAsWritten)[0].region.y == -110
            && Glyphs("A", bm, 20, 100, render, FreeType.GetFontBitmap)[0].region.y == 90
  {
    var render := (c: char, x: int, y: int) => Some(GlyphSlot(x, y + 10, 8, 10, 512, seq(80, i => 255)));
    AsWrittenLayout("A", bm, 20, 100, render);
    CorrectedLayout("A", bm, 20, 100, render);
  }

  /** Well-formed glyph slots give glyph bitmaps whose masks cover them. */
  lemma GlyphMasksCover(text: string, bm: FontBitmap, ox: int, oy: int,
                        render: (char, int, int) -> Option<GlyphSlot>)
    requires forall ch, x, y :: render(ch, x, y).Some? ==> SlotWellFormed(render(ch, x, y).value)
    ensures AllMasksCover(Glyphs(text, bm, ox, oy, render, FreeType.GetFontBitmap))
  {
    CorrectedLayout(text, bm, ox, oy, render);
    var gs := Glyphs(text, bm, ox, oy, render, FreeType.GetFontBitmap);
    forall k | 0 <= k < |gs|
      ensures MaskCovers(gs[k])
    {
      var g := render(text[k], gs[k].curOriginX, oy).value;
      assert SlotWellFormed(g);
    }
  }

  predicate AllMasksCover(gs: seq<FontBitmap>) {
    forall k :: 0 <= k < |gs| ==> MaskCovers(gs[k])
  }

  /** `t` differs from `s` only at pixels inside some glyph's rectangle. */
  predicate ChangesOnlyGlyphs(s: Screen, t: Screen, gs: seq<FontBitmap>) {
    t.buff == s.buff
    && (forall p :: p in t.pixels ==> p in s.pixels || exists k :: 0 <= k < |gs| && InRect(p, gs[k].region))
    && (forall p :: p in s.pixels && (forall k :: 0 <= k < |gs| ==> !InRect(p, gs[k].region)) ==>
          p in t.pixels && t.pixels[p] == s.pixels[p])
  }

  /** Some glyph of `gs` paints pixel `p`. */
  predicate Painted(b: DispBuff, gs: seq<FontBitmap>, p: (int, int))
    requires AllMasksCover(gs)
  {
    exists k :: 0 <= k < |gs| && GlyphPaints(b, gs[k], p)
  }

  /** A pixel is painted by a list of glyphs exactly when the first glyph
      or one of the rest paints it. */
  lemma PaintedCons(b: DispBuff, gs: seq<FontBitmap>, p: (int, int))
    requires |gs| > 0 && AllMasksCover(gs)
    ensures AllMasksCover(gs[1..])
    ensures Painted(b, gs, p) <==> GlyphPaints(b, gs[0], p) || Painted(b, gs[1..], p)
  {
    assert AllMasksCover(gs[1..]) by {
      forall k | 0 <= k < |gs| - 1 ensures MaskCovers(gs[1..][k]) {
        assert gs[1..][k] == gs[k + 1];
      }
    }
    if Painted(b, gs, p) && !GlyphPaints(b, gs[0], p) {
      var k :| 0 <= k < |gs| && GlyphPaints(b, gs[k], p);
      assert gs[1..][k - 1] == gs[k];
    }
    if Painted(b, gs[1..], p) {
      var k :| 0 <= k < |gs| - 1 && GlyphPaints(b, gs[1..][k], p);
      assert gs[1..][k] == gs[k + 1];
    }
  }

  /** Draws each glyph's mask in turn: at a supported pixel format exactly
      the pixels some glyph paints get the colour, and everything else is
      left as it was; at any other format nothing changes. The frame
      `ChangesOnlyGlyphs` is a corollary of the exact clauses, kept for
      readers who only need it. */
  function PaintGlyphs(s: Screen, gs: seq<FontBitmap>, c: Color): (t: Screen)
    requires AllMasksCover(gs)
    ensures ChangesOnlyGlyphs(s, t, gs)
    ensures !SupportedBpp(s.buff.bpp) ==> t == s
    ensures SupportedBpp(s.buff.bpp) ==>
              (forall p :: p in t.pixels <==> p in s.pixels || Painted(s.buff, gs, p))
              && (forall p :: p in t.pixels ==>
                    t.pixels[p] == if Painted(s.buff, gs, p) then Encode(s.buff.bpp, c).value else s.pixels[p])
    decreases |gs|
  {
    if |gs| == 0 then s
    else
      PaintedAll(s.buff, gs);
      PaintGlyphs(DrawFontBitmap(s, gs[0], c), gs[1..], c)
  }

  /** PaintedCons for every pixel at once. */
  lemma PaintedAll(b: DispBuff, gs: seq<FontBitmap>)
    requires |gs| > 0 && AllMasksCover(gs)
    ensures AllMasksCover(gs[1..])
    ensures forall p :: Painted(b, gs, p) <==> GlyphPaints(b, gs[0], p) || Painted(b, gs[1..], p)
  {
    forall p ensures Painted(b, gs, p) <==> GlyphPaints(b, gs[0], p) || Painted(b, gs[1..], p) {
      PaintedCons(b, gs, p);
    }
    PaintedCons(b, gs, (0, 0));
  }

  /** The drawtext loop from origin (ox, oy) with the corrected
      getfontbitmap: exactly the pixels its glyphs paint get the colour
      (the `ChangesOnlyGlyphs` frame is a corollary). */
  function DrawTextAt(s: Screen, text: string, ox: int, oy: int, c: Color,
                      bm: FontBitmap, render: (char, int, int) -> Option<GlyphSlot>): (t: Screen)
    requires forall ch, x, y :: render(ch, x, y).Some? ==> SlotWellFormed(render(ch, x, y).value)
    ensures ChangesOnlyGlyphs(s, t, Glyphs(text, bm, ox, oy, render, FreeType.GetFontBitmap))
    ensures AllMasksCover(Glyphs(text, bm, ox, oy, render, FreeType.GetFontBitmap))
    ensures !SupportedBpp(s.buff.bpp) ==> t == s
    ensures SupportedBpp(s.buff.bpp) ==>
              var gs := Glyphs(text, bm, ox, oy, render, FreeType.GetFontBitmap);
              (forall p :: p in t.pixels <==> p in s.pixels || Painted(s.buff, gs, p))
              && (forall p :: p in t.pixels ==>
                    t.pixels[p] == if Painted(s.buff, gs, p) then Encode(s.buff.bpp, c).value else s.pixels[p])
  {
    GlyphMasksCover(text, bm, ox, oy, render);
    PaintGlyphs(s, Glyphs(text, bm, ox, oy, render, FreeType.GetFontBitmap), c)
  }

  /** drawtext_inregioncentral (with the corrected getfontbitmap): the text
      up to its NUL is laid out from the centred origin and its glyphs
      painted; `box` is what getstring_regioncar left in the bounding-box
      record, and `bm` the uninitialised bitmap record. Exactly the pixels
      the laid-out glyphs paint get the colour; that only pixels inside
      some glyph's rectangle change is a corollary. */
  function DrawTextInRegionCentral(s: Screen, name: string, r: Region, c: Color, box: RegionCar,
                                   bm: FontBitmap, render: (char, int, int) -> Option<GlyphSlot>): (t: Screen)
    requires forall ch, x, y :: render(ch, x, y).Some? ==> SlotWellFormed(render(ch, x, y).value)
    ensures ChangesOnlyGlyphs(s, t, Glyphs(CStr(name), bm, TextOrigin(r, box).0, TextOrigin(r, box).1,
                                           render, FreeType.GetFontBitmap))
    ensures AllMasksCover(Glyphs(CStr(name), bm, TextOrigin(r, box).0, TextOrigin(r, box).1,
                                 render, FreeType.GetFontBitmap))
    ensures !SupportedBpp(s.buff.bpp) ==> t == s
    ensures SupportedBpp(s.buff.bpp) ==>
              var gs := Glyphs(CStr(name), bm, TextOrigin(r, box).0, TextOrigin(r, box).1,
                               render, FreeType.GetFontBitmap);
              (forall p :: p in t.pixels <==> p in s.pixels || Painted(s.buff, gs, p))
              && (forall p :: p in t.pixels ==>
                    t.pixels[p] == if Painted(s.buff, gs, p) then Encode(s.buff.bpp, c).value else s.pixels[p])
  {
    DrawTextAt(s, CStr(name), TextOrigin(r, box).0, TextOrigin(r, box).1, c, bm, render)
  }
}
