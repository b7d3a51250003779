/** The FreeType font engine: face initialisation and sizing, the glyph
    bitmap for one character at a pen origin, and the bounding box of a
    string. The FreeType library itself is external: what its calls
    report (error codes, glyph boxes, rendered slots) is passed in. */
module FreeType {
  import opened Common
  import opened FontManager

  const DEFAULT_FONT_SIZE := 12

  /** The face the engine keeps between calls: only its pixel size matters
      here. */
  datatype Face = Face(pixelSize: int)

  /** freetype_fontinit: `libErr` and `faceErr` are what FT_Init_FreeType
      and FT_New_Face return. Either failing gives -1 and no face; with
      both succeeding the face is sized to the default 12 pixels. */
  function FontInit(libErr: int, faceErr: int): (r: (int, Option<Face>))
    ensures r.0 == 0 || r.0 == -1
    ensures r.0 == 0 <==> libErr == 0 && faceErr == 0
    ensures r.1.Some? <==> r.0 == 0
    ensures r.1.Some? ==> r.1.value.pixelSize == DEFAULT_FONT_SIZE
  {
    if libErr != 0 then (-1, None)
    else if faceErr != 0 then (-1, None)
    else (0, Some(Face(DEFAULT_FONT_SIZE)))
  }

  /** freetype_setfontsize: always succeeds and resizes the face. */
  function SetFontSize(f: Face, size: int): (r: (int, Face))
    ensures r.0 == 0 && r.1.pixelSize == size
  {
    (0, Face(size))
  }

  /** Sizing after a successful initialisation keeps only the last size
      asked for. */
  lemma LastSizeWins(libErr: int, faceErr: int, a: int, b: int)
    requires FontInit(libErr, faceErr).0 == 0
    ensures SetFontSize(SetFontSize(FontInit(libErr, faceErr).1.value, a).1, b).1 == Face(b)
  {
  }

  /** What FT_Load_Char with rendering leaves in the glyph slot after
      FT_Set_Transform was given the pen (the origin times 64, a whole
      number of pixels): the bitmap's left edge and its top edge, both in
      FreeType's y-up pixel coordinates and both including the pen, then
      its size, the horizontal advance in 1/64 pixels and the coverage
      mask. A glyph whose top is `t` pixels above its origin, rendered at
      pen y, has `bitmapTop == y + t`. */
  datatype GlyphSlot = GlyphSlot(
    bitmapLeft: int,
    bitmapTop: int,
    width: int,
    rows: int,
    advanceX: int,
    buffer: seq<int>)

  /** The slot's mask covers its `width` by `rows` rectangle. */
  predicate SlotWellFormed(g: GlyphSlot) {
    g.width <= 0 || g.rows <= 0 || |g.buffer| >= g.width * g.rows
  }

  /** The pixel the next glyph starts at, from the advance of this one
      (C's truncating `/`). */
  function Advance(curX: int, advanceX: int): (x: int)
    ensures advanceX >= 0 ==> (x - curX) * 64 <= advanceX < (x - curX) * 64 + 64
    ensures advanceX <= 0 ==> (x - curX) * 64 - 64 < advanceX <= (x - curX) * 64
  {
    curX + CDiv(advanceX, 64)
  }

  /** freetype_getfontbitmap as written: the bitmap's top edge and the next
      origin's y both come from `i_next_originy`, which the function only
      assigns to itself, so they depend on whatever the caller left there
      rather than on the origin it asked for. None stands for the -1
      return when FT_Load_Char fails. */
  function GetFontBitmapAsWritten(bm: FontBitmap, slot: Option<GlyphSlot>): (r: Option<FontBitmap>)
    ensures r.None? <==> slot.None?
    ensures r.Some? ==>
              r.value.region == Region(slot.value.bitmapLeft, bm.nextOriginY - slot.value.bitmapTop,
                                       slot.value.width, slot.value.rows)
              && r.value.nextOriginY == bm.nextOriginY
              && r.value.nextOriginX == Advance(bm.curOriginX, slot.value.advanceX)
              && r.value.buffer == slot.value.buffer
  {
    match slot
    case None => None
    case Some(g) =>
      Some(bm.(buffer := g.buffer,
               region := Region(g.bitmapLeft, bm.nextOriginY - g.bitmapTop, g.width, g.rows),
               nextOriginX := Advance(bm.curOriginX, g.advanceX),
               nextOriginY := bm.nextOriginY))
  }

  /** freetype_getfontbitmap corrected: the next origin keeps the current
      baseline, and the bitmap's top edge is `bitmapTop` mirrored about
      that baseline (screen y grows downwards, FreeType's y upwards, and
      the pen was given as the current origin). */
  function GetFontBitmap(bm: FontBitmap, slot: Option<GlyphSlot>): (r: Option<FontBitmap>)
    ensures r.None? <==> slot.None?
    ensures r.Some? ==>
              r.value.region == Region(slot.value.bitmapLeft, 2 * bm.curOriginY - slot.value.bitmapTop,
                                       slot.value.width, slot.value.rows)
              && r.value.curOriginX == bm.curOriginX && r.value.curOriginY == bm.curOriginY
              && r.value.nextOriginY == bm.curOriginY
              && r.value.nextOriginX == Advance(bm.curOriginX, slot.value.advanceX)
              && r.value.buffer == slot.value.buffer
    ensures r.Some? ==>
              bm.curOriginY - r.value.region.y == slot.value.bitmapTop - bm.curOriginY
  {
    match slot
    case None => None
    case Some(g) =>
      Some(bm.(buffer := g.buffer,
               region := Region(g.bitmapLeft, 2 * bm.curOriginY - g.bitmapTop, g.width, g.rows),
               nextOriginX := Advance(bm.curOriginX, g.advanceX),
               nextOriginY := bm.curOriginY))
  }

  /** The two versions place the bitmap at the same height exactly when
      the caller's `i_next_originy` holds twice the current origin's y,
      and give the same record only on baseline 0 with `i_next_originy`
      also 0. */
  lemma AsWrittenAgreesOnlyWhenPrimed(bm: FontBitmap, g: GlyphSlot)
    ensures GetFontBitmapAsWritten(bm, Some(g)).value.region == GetFontBitmap(bm, Some(g)).value.region
            <==> bm.nextOriginY == 2 * bm.curOriginY
    ensures GetFontBitmapAsWritten(bm, Some(g)) == GetFontBitmap(bm, Some(g))
            <==> bm.nextOriginY == 0 && bm.curOriginY == 0
  {
    if GetFontBitmapAsWritten(bm, Some(g)) == GetFontBitmap(bm, Some(g)) {
      assert GetFontBitmapAsWritten(bm, Some(g)).value.nextOriginY == GetFontBitmap(bm, Some(g)).value.nextOriginY;
      assert GetFontBitmapAsWritten(bm, Some(g)).value.region.y == GetFontBitmap(bm, Some(g)).value.region.y;
    }
    if GetFontBitmapAsWritten(bm, Some(g)).value.region == GetFontBitmap(bm, Some(g)).value.region {
      assert GetFontBitmapAsWritten(bm, Some(g)).value.region.y == GetFontBitmap(bm, Some(g)).value.region.y;
    }
  }

  /** A glyph's control box, in the units FT_Glyph_Get_CBox reports. */
  datatype BBox = BBox(xMin: int, yMin: int, xMax: int, yMax: int)

  /** The starting box: minima at 32767 and maxima at -32768, so that the
      first glyph replaces all four bounds. */
  const EmptyBox := BBox(32767, 32767, -32768, -32768)

  /** One step of the bounding-box update. */
  function Grow(acc: BBox, g: BBox): (r: BBox)
    ensures r.xMin <= acc.xMin && r.xMin <= g.xMin && (r.xMin == acc.xMin || r.xMin == g.xMin)
    ensures r.yMin <= acc.yMin && r.yMin <= g.yMin && (r.yMin == acc.yMin || r.yMin == g.yMin)
    ensures r.xMax >= acc.xMax && r.xMax >= g.xMax && (r.xMax == acc.xMax || r.xMax == g.xMax)
    ensures r.yMax >= acc.yMax && r.yMax >= g.yMax && (r.yMax == acc.yMax || r.yMax == g.yMax)
  {
    BBox(if g.xMin < acc.xMin then g.xMin else acc.xMin,
         if g.yMin < acc.yMin then g.yMin else acc.yMin,
         if g.xMax > acc.xMax then g.xMax else acc.xMax,
         if g.yMax > acc.yMax then g.yMax else acc.yMax)
  }

  /** The box after the first `|gs|` glyphs: the smallest box holding
      every glyph box and the starting box. */
  function Union(gs: seq<BBox>): (u: BBox)
    ensures forall k :: 0 <= k < |gs| ==>
              u.xMin <= gs[k].xMin && u.yMin <= gs[k].yMin && u.xMax >= gs[k].xMax && u.yMax >= gs[k].yMax
    ensures u.xMin <= EmptyBox.xMin && u.yMin <= EmptyBox.yMin
    ensures u.xMax >= EmptyBox.xMax && u.yMax >= EmptyBox.yMax
    ensures u.xMin == EmptyBox.xMin || exists k :: 0 <= k < |gs| && u.xMin == gs[k].xMin
    ensures u.yMin == EmptyBox.yMin || exists k :: 0 <= k < |gs| && u.yMin == gs[k].yMin
    ensures u.xMax == EmptyBox.xMax || exists k :: 0 <= k < |gs| && u.xMax == gs[k].xMax
    ensures u.yMax == EmptyBox.yMax || exists k :: 0 <= k < |gs| && u.yMax == gs[k].yMax
  {
    if |gs| == 0 then EmptyBox
    else Grow(Union(gs[..|gs| - 1]), gs[|gs| - 1])
  }

  /** What loading one character reports: its box, or a failure of
      FT_Load_Char or of FT_Get_Glyph. */
  datatype GlyphLoad = GlyphOk(box: BBox) | LoadFailed | GetFailed

  /** The boxes of the characters before the first failure, and whether
      every character loaded. */
  function Boxes(loads: seq<GlyphLoad>): (r: Option<seq<BBox>>)
    ensures r.Some? <==> forall k :: 0 <= k < |loads| ==> loads[k].GlyphOk?
    ensures r.Some? ==> |r.value| == |loads| && forall k :: 0 <= k < |loads| ==> r.value[k] == loads[k].box
  {
    if |loads| == 0 then Some([])
    else match loads[0]
      case GlyphOk(b) =>
        (match Boxes(loads[1..])
         case None => None
         case Some(rest) => Some([b] + rest))
      case LoadFailed => None
      case GetFailed => None
  }

  /** freetype_getstring_regioncar: `loads` holds what loading each
      character of the string reports, pen advance included. Any failure
      gives -1 (None). Otherwise the Cartesian region has its top-left
      corner at (xMin, yMax) and spans the box inclusively. */
  function GetStringRegionCar(loads: seq<GlyphLoad>): (r: Option<RegionCar>)
    ensures r.Some? <==> forall k :: 0 <= k < |loads| ==> loads[k].GlyphOk?
    ensures r.Some? ==> forall k :: 0 <= k < |loads| ==>
              var b := loads[k].box;
              r.value.x <= b.xMin && b.xMax <= r.value.x + r.value.width - 1
              && r.value.y - r.value.height + 1 <= b.yMin && b.yMax <= r.value.y
    ensures r.Some? && |loads| == 0 ==> r.value == RegionCar(32767, -32768, -65534, -65534)
  {
    match Boxes(loads)
    case None => None
    case Some(bs) =>
      var u := Union(bs);
      Some(RegionCar(u.xMin, u.yMax, u.xMax - u.xMin + 1, u.yMax - u.yMin + 1))
  }

  /** The region is tight: each of its four edges touches some glyph box. */
  lemma RegionIsTight(loads: seq<GlyphLoad>)
    requires |loads| > 0 && forall k :: 0 <= k < |loads| ==> loads[k].GlyphOk?
    requires forall k :: 0 <= k < |loads| ==>
               var b := loads[k].box;
               -32768 < b.xMin <= b.xMax < 32767 && -32768 < b.yMin <= b.yMax < 32767
    ensures var r := GetStringRegionCar(loads).value;
            (exists k :: 0 <= k < |loads| && r.x == loads[k].box.xMin)
            && (exists k :: 0 <= k < |loads| && r.y == loads[k].box.yMax)
            && (exists k :: 0 <= k < |loads| && r.x + r.width - 1 == loads[k].box.xMax)
            && (exists k :: 0 <= k < |loads| && r.y - r.height + 1 == loads[k].box.yMin)
  {
    var bs := Boxes(loads).value;
    var u := Union(bs);
    assert u.xMin <= bs[0].xMin < EmptyBox.xMin;
    assert u.yMin <= bs[0].yMin < EmptyBox.yMin;
    assert u.xMax >= bs[0].xMax > EmptyBox.xMax;
    assert u.yMax >= bs[0].yMax > EmptyBox.yMax;
  }
}
