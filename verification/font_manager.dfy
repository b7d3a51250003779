/** The font manager: the list of registered font engines, the choice of
    the default engine, and the calls it forwards to that engine. An
    engine's operations are external code (FreeType, say) and are modelled
    as functions of their arguments. */
module FontManager {
  import opened Common
  import opened Registry

  /** A glyph bitmap as passed between the font engine and the display: the
      screen region it covers, the pen origin it was drawn at, the origin of
      the next glyph, and the 8-bit coverage mask, row after row. */
  datatype FontBitmap = FontBitmap(
    region: Region,
    curOriginX: int,
    curOriginY: int,
    nextOriginX: int,
    nextOriginY: int,
    buffer: seq<int>)

  /** The operations a font engine registers. */
  datatype FontOps = FontOps(
    fontInit: string -> int,
    setFontSize: int -> int,
    getFontBitmap: (int, FontBitmap) -> (int, FontBitmap),
    getStringRegionCar: string -> (int, RegionCar))

  /** The engine list (head first) and the default engine. */
  datatype FontManager = FontManager(fonts: seq<Named<FontOps>>, default: Option<Named<FontOps>>)

  /** registerfont: head insertion; the default engine is not touched. */
  function RegisterFont(m: FontManager, engine: Named<FontOps>): (r: FontManager)
    ensures |r.fonts| == |m.fonts| + 1 && r.fonts[0] == engine && r.fonts[1..] == m.fonts
    ensures r.default == m.default
  {
    m.(fonts := Register(m.fonts, engine))
  }

  /** selectandinitfont: finds the first engine with that name; with none
      it returns -1 and changes nothing. Otherwise that engine becomes the
      default, even when its initialisation then fails, and the result of
      its `fontinit` on the font file is returned. */
  function SelectAndInitFont(m: FontManager, name: string, fontFile: string): (r: (int, FontManager))
    ensures r.1.fonts == m.fonts
    ensures (forall j :: 0 <= j < |m.fonts| ==> m.fonts[j].name != name) ==> r.0 == -1 && r.1 == m
    ensures forall i :: 0 <= i < |m.fonts| && m.fonts[i].name == name
                        && (forall j :: 0 <= j < i ==> m.fonts[j].name != name) ==>
              r.1.default == Some(m.fonts[i]) && r.0 == m.fonts[i].item.fontInit(fontFile)
  {
    match Lookup(m.fonts, name)
    case None => (-1, m)
    case Some(engine) => (engine.item.fontInit(fontFile), m.(default := Some(engine)))
  }

  /** setfontsize: forwarded to the default engine (which must be chosen). */
  function SetFontSize(m: FontManager, size: int): (r: int)
    requires m.default.Some?
    ensures r == m.default.value.item.setFontSize(size)
  {
    m.default.value.item.setFontSize(size)
  }

  /** getfontbitmap: forwarded to the default engine. */
  function GetFontBitmap(m: FontManager, code: int, bm: FontBitmap): (r: (int, FontBitmap))
    requires m.default.Some?
    ensures r == m.default.value.item.getFontBitmap(code, bm)
  {
    m.default.value.item.getFontBitmap(code, bm)
  }

  /** getstring_regioncar: forwarded to the default engine. */
  function GetStringRegionCar(m: FontManager, text: string): (r: (int, RegionCar))
    requires m.default.Some?
    ensures r == m.default.value.item.getStringRegionCar(text)
  {
    m.default.value.item.getStringRegionCar(text)
  }

  /** After a successful selection by name, every forwarded call returns
      what the first engine of that name returns for the same arguments,
      whatever engines were registered after or before it under other
      names. */
  lemma SelectedEngineServes(m: FontManager, name: string, fontFile: string, i: nat,
                             size: int, code: int, bm: FontBitmap, text: string)
    requires i < |m.fonts| && m.fonts[i].name == name
    requires forall j :: 0 <= j < i ==> m.fonts[j].name != name
    ensures SelectAndInitFont(m, name, fontFile).1.default.Some?
    ensures SetFontSize(SelectAndInitFont(m, name, fontFile).1, size) == m.fonts[i].item.setFontSize(size)
    ensures GetFontBitmap(SelectAndInitFont(m, name, fontFile).1, code, bm) == m.fonts[i].item.getFontBitmap(code, bm)
    ensures GetStringRegionCar(SelectAndInitFont(m, name, fontFile).1, text)
            == m.fonts[i].item.getStringRegionCar(text)
  {
  }

  /** With two engines registered under one name, the later one is chosen. */
  lemma LaterEngineChosen(m: FontManager, engine: Named<FontOps>, fontFile: string)
    ensures SelectAndInitFont(RegisterFont(m, engine), engine.name, fontFile).1.default == Some(engine)
    ensures SelectAndInitFont(RegisterFont(m, engine), engine.name, fontFile).0 == engine.item.fontInit(fontFile)
  {
    LastRegisteredWins(m.fonts, engine);
  }
}
