# A Dafny model of the sequential core of an embedded touch-screen UI

The system is a small Linux UI stack. Input devices (a touch screen and a UDP
socket) feed a 20-slot ring buffer. A configuration file lists the buttons of
the main page. The main page lays them out as a grid and reacts to touches and
network messages. A display manager draws into a frame buffer. A font manager
forwards calls to the FreeType engine. Threads, sockets, the touch library,
`mmap` and FreeType surround a set of small integer-and-string rules, and those
rules are what this project models, one Dafny module per source file:

- `Common` (`common.dfy`): the region records, C's truncating `/` (`CDiv`) and
  C's `!` (`CNot`).
- `Scan` (`scan.dfy`): NUL-terminated strings, `isspace`, and the `%s` and
  `%d` conversions of `sscanf`.
- `Registry` (`registry.dfy`): the head-insertion list with first-match lookup
  that the input, display, font and page managers each use.
- `InputManager` (`input_manager.dfy`): the ring buffer as a record of 20
  slots and two indices, the queue it represents (`Contents`), the device
  start-up pass and the consumer's call.
- `Config` (`config.dfy`): the line-by-line parse of the configuration file
  and the two lookups.
- `Button` (`button.dfy`): `init_button` and the default press handler.
- `DisplayManager` (`disp_manager.dfy`): device selection, the geometry of
  the buffer, pixel formats, `putpixel`, `draw_region`, `drawfontbitmap` and
  the centred-text routine. The frame buffer is a map from pixel
  coordinates to the value stored for the pixel.
- `FontManager` (`font_manager.dfy`) and `FreeType` (`freetype.dfy`): the
  engine list, and the arithmetic of the FreeType wrapper. Glyph boxes and
  slots come from FreeType and are inputs.
- `MainPage` (`main_page.dfy`): button placement, hit testing, lookup of the
  button an event is for, the press handler, and the longest-name search.
- `PageManager` (`page_manager.dfy`): the page list.

Foreign calls become inputs:

- a device's `deviceinit` result;
- a driver's `getbuffer` result;
- the FreeType error codes, glyph boxes and glyph slots;
- the ring as the consumer finds it after a wake-up.

A font engine's operations are modelled as function values.

Where the headers and the sources disagree, the model follows the evident
intent of the source:

- `get_itemcfg_byname` takes a string, not the `int` the header declares.
- `getdisplaybuffer` returns the buffer descriptor, not an `int`.

A configuration line ends at its first NUL, as `fgets` and `sscanf` see it.

## Model

| member | source | states |
|---|---|---|
| Common.CDiv | display/disp_manager.c:232-233 | C division by a positive divisor truncates towards zero: the remainder has the sign of the dividend and is smaller than the divisor |
| Common.CNot | ui/button.c:54 | `!v` is 1 exactly when `v` is 0, and 0 otherwise |
| Scan.CStr | config/config.c:49-52 | the C string in a buffer is the prefix before the first NUL; it holds no NUL and is followed by one when shorter than the buffer |
| Scan.CStrNoNul | config/config.c:49-52 | a buffer without a NUL is read whole |
| Scan.SkipBlanks | config/config.c:55-57 | only spaces and tabs are skipped, and the result starts at the first other character |
| Scan.SkipSpaces | config/config.c:79-83 | a conversion first skips exactly the leading white space |
| Scan.SpanLen | config/config.c:79-83 | the longest prefix satisfying a character class |
| Scan.Word | config/config.c:79-83 | `%s` fails exactly on all-white-space input; otherwise it yields a non-empty word without white space, preceded only by white space and followed by white space or the end |
| Scan.SplitWord | config/config.c:79-83 | the maximal non-space run at the head of the input and the rest; none exactly when the input is empty or starts with white space |
| Scan.WordReads | config/config.c:79-83 | `%s` reads back a word written in front of white space, leaving the rest unread |
| Scan.WordSkipsSpace | config/config.c:79-83 | white space in front of `%s` does not change what it reads |
| Scan.Integer | config/config.c:79-83 | `%d` fails exactly when, after white space and an optional `+` or `-`, no digit follows; otherwise it reads the digit run's value, negated after `-` (so never positive after `-` and never negative otherwise), and leaves a suffix of the input that does not start with a digit |
| Scan.SignedDigits | config/config.c:79-83 | an optional `+` or `-` followed by digits: fails exactly when no digit follows the sign; otherwise the digit run's value, negated after `-`, and the rest of the text after the run |
| Scan.Digits | config/config.c:79-83 | fails exactly when the text does not start with a digit; otherwise reads the maximal digit run, yields its decimal value and leaves the text after it |
| Scan.Decimal | config/config.c:79-83 | the decimal text of a number is a non-empty digit run |
| Scan.DecimalValue | config/config.c:79-83 | the digit value of a number's decimal text is that number |
| Scan.SignedDecimal | config/config.c:79-83 | the text of an integer starts with a non-space character |
| Scan.IntegerReadsDecimal | config/config.c:79-83 | round trip: `%d` reads back every integer written in decimal in front of white space |
| Scan.IntegerSkipsSpace | config/config.c:79-83 | white space in front of `%d` does not change what it reads |
| Registry.Register | input/input_manager.c:58-62 | the new node becomes the head, followed by the old list unchanged |
| Registry.FindFirst | page/page_manager.c:55-61 | the first position whose key matches; no earlier position matches; none exactly when no position matches |
| Registry.Lookup | page/page_manager.c:51-63 | the node found has the name, no earlier node has it, and NULL means no node has it |
| Registry.LastRegisteredWins | page/page_manager.c:38-63 | with duplicate names the most recently registered node is found |
| Registry.RegisterKeepsOtherLookups | page/page_manager.c:38-63 | registering a node leaves the lookup of every other name unchanged |
| InputManager.Count | input/input_manager.c:195-203 | fewer than 20 events are stored; empty exactly when `read == write`; full exactly when 19 are stored |
| InputManager.Contents | input/input_manager.c:36-39 | the queue the ring represents has `Count` events |
| InputManager.InitialIsEmpty | input/input_manager.c:37-39 | the ring starts empty with both indices in range |
| InputManager.Put | input/input_manager.c:129-136 | a full ring drops the new event and changes nothing; otherwise the event goes to `write`, `write` advances mod 20, `read` and the other slots stay; the queue gains the event at its end |
| InputManager.PutContents | input/input_manager.c:133-134 | storing at `write` appends to the queue |
| InputManager.Get | input/input_manager.c:179-191 | an empty ring gives 0 and changes nothing; otherwise 1, the slot at `read`, `read` advanced mod 20, and the queue loses its oldest event |
| InputManager.GetContents | input/input_manager.c:183-184 | taking the slot at `read` removes the head of the queue |
| InputManager.GetInputEvent | input/input_manager.c:143-172 | 0 with the oldest event when there is one; otherwise one re-check after the wake-up, and -1 when the ring is still empty |
| InputManager.PutAll | input/input_manager.c:129-136 | a run of enqueues keeps the ring well formed |
| InputManager.DrainIsContents | input/input_manager.c:179-191 | dequeuing until empty yields the queue, oldest first |
| InputManager.PutAllKeepsOldest | input/input_manager.c:129-136 | after any run of enqueues the queue is the old queue followed by the new events, cut at 19: everything arriving after the ring filled is lost |
| InputManager.PutAllContents | input/input_manager.c:129-136 | a run of enqueues changes the queue as the drop-newest queue reference says |
| InputManager.EnqueuedKeepsOldest | input/input_manager.c:129-136 | the drop-newest reference keeps the old queue and then the new events, cut at 19 |
| InputManager.Fifo | input/input_manager.c:129-191 | fewer than 20 events enqueued into the initial ring come out in the same order |
| InputManager.FifoFromEmpty | input/input_manager.c:129-191 | the same from an empty ring whatever its indices |
| InputManager.InputDeviceInit | input/input_manager.c:74-91 | a reader is started exactly for the devices whose `deviceinit` returns 0, in list order, and a failure does not stop the walk |
| Config.ScanFields | config/config.c:79-90 | three conversions give a non-empty name and command without white space |
| Config.MissingNumberRejected | config/config.c:79-90 | a line whose second field starts with neither a sign nor a digit fails the `%d` conversion and is not an entry |
| Config.ScanFieldsFormatted | config/config.c:79-90 | the three conversions read back a name, an integer and a command written with single spaces |
| Config.Classify | config/config.c:52-61 | a line is a comment exactly when its first non-blank character is `#`; otherwise it is an entry exactly when the three conversions succeed |
| Config.BlankIgnored | config/config.c:55-57 | a leading space or tab does not change how a line is read |
| Config.Kinds | config/config.c:49-94 | every line is classified on its own |
| Config.ParseConfig | config/config.c:49-94 | at most 30 items, each with its position as index, equal to the reference reading |
| Config.ParseReference | config/config.c:64-93 | the loop stores exactly the first 30 entry lines in file order; comments and malformed lines add nothing; a further non-comment line after the table is full ends the parse |
| Config.CommentAddsNothing | config/config.c:60-61 | a comment line anywhere contributes no item |
| Config.ScanFormatted | config/config.c:52-90 | round trip: a line written from a name, an integer and a command is read back as exactly those fields |
| Config.ParseFormatted | config/config.c:49-94 | round trip: a file written from a list of fields parses to those fields, numbered, up to 30 |
| Config.GetItemCfgByIndex | config/config.c:113-119 | item `index` exactly when `index` is below the count, NULL otherwise |
| Config.GetItemCfgByName | config/config.c:125-134 | an item of the table that has the name, or NULL exactly when no item has it |
| Button.InitButton | ui/button.c:73-81 | sets the name and status 0; copies the region only when given; a NULL handler becomes the default one, a given one is kept |
| Button.StatusColor | ui/button.c:55-56 | pressed colour exactly for a non-zero status, default colour exactly for 0 |
| Button.DefaultOnPressed | ui/button.c:50-56 | flips the status to 0 or 1 and paints in the colour of the new status; nothing else changes |
| Button.PressParity | ui/button.c:54-76 | after `init_button` and `n` presses the status is `n % 2` and nothing else has changed |
| Button.PressTwiceRestores | ui/button.c:54 | two presses restore a button whose status is 0 or 1 |
| DisplayManager.RegisterDisplay | display/disp_manager.c:46-50 | head insertion; the default device is untouched |
| DisplayManager.SelectDefaultDisplay | display/disp_manager.c:58-72 | the first device of the name becomes the default and 0 is returned; with none, -1 and nothing changes |
| DisplayManager.InitDefaultDisplay | display/disp_manager.c:81-100 | -1 exactly when `deviceinit` or `getbuffer` fails; otherwise the pixel width is `bpp / 8` and the line width is `xres * bpp / 8` bytes, both truncated, for every format including sub-byte ones |
| DisplayManager.PixelsDisjoint | display/disp_manager.c:120-123 | at 8, 16 or 32 bits per pixel, distinct on-screen pixels occupy disjoint bytes inside the buffer |
| DisplayManager.Rgb565 | display/disp_manager.c:138-146 | the 16-bit value fits in 16 bits and its three fields hold the top 5, 6 and 5 bits of red, green and blue |
| DisplayManager.Pack565 | display/disp_manager.c:138-146 | fields of 5, 6 and 5 bits packed high to low are read back by shifting and masking |
| DisplayManager.Encode | display/disp_manager.c:131-159 | a value exists exactly for 8, 16 and 32 bits per pixel and fits that width: the low byte at 8, the RGB565 packing at 16, the colour itself at 32 |
| DisplayManager.PutPixel | display/disp_manager.c:120-160 | an unsupported format gives -1 and writes nothing; otherwise 0 and exactly that pixel is set, with no bounds check |
| DisplayManager.RegionRow | display/disp_manager.c:208-211 | one row of the rectangle is set and nothing else changes |
| DisplayManager.RegionRows | display/disp_manager.c:206-212 | the remaining rows of the rectangle are set and nothing else changes |
| DisplayManager.DrawRegion | display/disp_manager.c:199-213 | exactly the pixels of the rectangle get the colour, with no clipping; the rest is unchanged |
| DisplayManager.MaskIndexInRange | display/disp_manager.c:188 | the mask index of a pixel of the glyph is inside the mask |
| DisplayManager.GlyphRow | display/disp_manager.c:182-190 | in one row, exactly the on-screen pixels with a non-zero mask byte are set |
| DisplayManager.GlyphRows | display/disp_manager.c:180-191 | the remaining rows are painted the same way |
| DisplayManager.DrawFontBitmap | display/disp_manager.c:168-192 | exactly the pixels of the glyph that are on the screen and have a non-zero mask byte get the colour |
| DisplayManager.TextOrigin | display/disp_manager.c:232-233 | the string's box is centred in the region: the left and right margins differ by at most one pixel, and so do the top and bottom; when the box fits, truncation leaves the spare pixel on the right and at the bottom |
| DisplayManager.Glyphs | display/disp_manager.c:236-254 | the drawing loop lays out at most one glyph per character of the text |
| DisplayManager.CorrectedLayout | display/disp_manager.c:236-254 | with the corrected engine every glyph is rendered at the baseline `oy` and its top edge is `bitmap_top` mirrored about it; each origin is the previous one advanced; the loop stops at the first character that fails |
| DisplayManager.GlyphsSitOnBaseline | display/disp_manager.c:236-254 | with the corrected engine and a slot that carries the pen in both `bitmap_left` and `bitmap_top`, each glyph's top-left corner is its bearings away from its origin on the baseline |
| DisplayManager.CorrectedIgnoresUninitialised | display/disp_manager.c:222-254 | with the corrected engine the layout does not depend on the uninitialised bitmap record |
| DisplayManager.AsWrittenLayout | font/freetype.c:120-125 | as written, every glyph's top edge is measured from the stale `i_next_originy`, never from the baseline asked for |
| DisplayManager.StaleBaselineMisplacesGlyph | font/freetype.c:117-125 | a glyph 10 pixels tall, 10 pixels above its origin on baseline 100 (`bitmap_top` 110), lands at y = -110 as written and at y = 90 corrected |
| DisplayManager.GlyphMasksCover | display/disp_manager.c:180-188 | well-formed glyph slots give glyph bitmaps whose masks cover them |
| DisplayManager.PaintGlyphs | display/disp_manager.c:249 | at 8, 16 or 32 bits per pixel exactly the pixels some glyph paints (on screen, mask byte non-zero) get the colour and every other pixel keeps its value; at any other format nothing changes; only pixels inside some glyph's rectangle change |
| DisplayManager.DrawTextAt | display/disp_manager.c:236-254 | with the corrected getfontbitmap, drawing a text paints exactly the pixels its laid-out glyphs paint, in the colour, leaves every other pixel as it was, and changes nothing at an unsupported format |
| DisplayManager.DrawTextInRegionCentral | display/disp_manager.c:220-255 | drawing a text centred in a region paints exactly the pixels of the glyphs laid out from the centred origin, in the colour, and leaves every other pixel as it was |
| FontManager.RegisterFont | font/font_manager.c:37-41 | head insertion; the default engine is untouched |
| FontManager.SelectAndInitFont | font/font_manager.c:49-65 | an unknown name gives -1 and changes nothing; otherwise the first engine of the name becomes the default even if its init fails, and its `fontinit` result is returned |
| FontManager.SetFontSize | font/font_manager.c:71-74 | the default engine's `setfontsize` result for the same size |
| FontManager.GetFontBitmap | font/font_manager.c:80-83 | the default engine's `getfontbitmap` result for the same code and record |
| FontManager.GetStringRegionCar | font/font_manager.c:90-93 | the default engine's `getstring_regioncar` result for the same string |
| FontManager.SelectedEngineServes | font/font_manager.c:71-93 | after selection, every forwarded call returns what the selected engine returns |
| FontManager.LaterEngineChosen | font/font_manager.c:49-65 | of two engines with one name, the later one is selected |
| FreeType.FontInit | font/freetype.c:49-74 | -1 exactly when the library or the face fails to open; otherwise a face sized to 12 pixels |
| FreeType.SetFontSize | font/freetype.c:80-84 | always 0, and the face takes the size |
| FreeType.LastSizeWins | font/freetype.c:72-84 | after initialisation the face has the last size asked for |
| FreeType.Advance | font/freetype.c:124 | the next origin is the advance in whole pixels, truncated towards zero |
| FreeType.GetFontBitmapAsWritten | font/freetype.c:91-127 | as written: -1 exactly when loading fails; the bitmap's top and the next origin's y come from the record's stale `i_next_originy` |
| FreeType.GetFontBitmap | font/freetype.c:91-127 | corrected: -1 exactly when loading fails; the glyph's top edge is `bitmap_top` mirrored about the current origin's y, as far above it as `bitmap_top` is, and the next origin keeps its baseline |
| FreeType.AsWrittenAgreesOnlyWhenPrimed | font/freetype.c:120-125 | the two versions place the glyph alike exactly when the record's `i_next_originy` holds twice the current origin's y, and return the same record only when both are 0 |
| FreeType.Grow | font/freetype.c:196-203 | each bound becomes the min or max of the old bound and the glyph's |
| FreeType.Union | font/freetype.c:164-208 | the running box contains every glyph box and the starting sentinels, and each bound is a sentinel or some glyph's bound |
| FreeType.Boxes | font/freetype.c:171-190 | boxes for all characters exactly when no load or get fails |
| FreeType.GetStringRegionCar | font/freetype.c:150-216 | -1 exactly when some glyph fails; otherwise the region contains every glyph box; an empty string gives the sentinel region |
| FreeType.RegionIsTight | font/freetype.c:196-213 | each edge of the region touches some glyph box |
| MainPage.Rows | page/main_page.c:56-58 | the number of rows is the ceiling of `n / n_per_line` |
| MainPage.GenerateButtons | page/main_page.c:29-79 | exactly `n` buttons; button `k` is at column `k % n_per_line` and row `k / n_per_line` of the centred grid, `width - 5` by `height - 5`, named after item `k`, with status 0 and the main page's press handler |
| MainPage.CellIndex | page/main_page.c:62-77 | the `col`-th button of row `row` is button `row * n_per_line + col` |
| MainPage.IsTouchPointInRegion | page/main_page.c:246-254 | a point is inside exactly when `x <= px <= x + width` and `y <= py <= y + height` |
| MainPage.TouchableIsDrawnPlusEdge | page/main_page.c:246-254 | the touchable area is the drawn rectangle plus one column and one row; every drawn pixel is touchable |
| MainPage.FirstHit | page/main_page.c:267-273 | the lowest-index button containing the point, or NULL exactly when none does |
| MainPage.GetButtonByName | page/main_page.c:229-240 | the lowest-index button with the name, or NULL exactly when none has it |
| MainPage.GetButtonByInputEvent | page/main_page.c:261-286 | a touch finds the first button containing the point; a network message finds the first button named by its first token; any other event gives NULL |
| MainPage.TouchFindsGridButton | page/main_page.c:62-79 | in a generated grid, a touch inside button `i`'s drawn rectangle finds button `i` |
| MainPage.CellsApart | page/main_page.c:62-79 | a point drawn inside a later cell of the grid is outside the touchable area of every earlier cell, because of the 5-pixel gap |
| MainPage.MainPageOnPressed | page/main_page.c:98-157 | a touch on a non-touchable item is refused; otherwise it flips the status and reports index 1 with the pressed colour when the new status is set and index 0 with the default colour when it is cleared; a network status maps `ok`/`cancel`/digit/other to index 1/0/2/refused, showing the token for a digit, and never changes the status; any other event is refused |
| MainPage.TouchAgreesWithDefault | page/main_page.c:111-125 | a touch press changes the button and picks the colour as the default handler does |
| MainPage.TouchTwiceRestores | page/main_page.c:120 | two touches of a touchable button restore its status |
| MainPage.AfterPress | page/main_page.c:98-157 | only a touch can change a button, only its status, and a refused touch changes nothing |
| MainPage.HandleEvent | page/main_page.c:307-323 | only the button the event is for can change; an event with no button, or anything but a touch, leaves every button as it was |
| MainPage.LongestNameIndex | page/main_page.c:182-200 | the first button whose name is longest: no name is longer, and every earlier one is shorter |
| PageManager.PageRegister | page/page_manager.c:38-42 | the page becomes the head, the list grows by one, the rest is the old list |
| PageManager.Page | page/page_manager.c:51-63 | a page of the name, or NULL exactly when no page has it, including on an empty list |
| PageManager.PageSystemRegister | page/page_manager.c:30-33 | registers the page named "main" at the head |
| PageManager.MainPageFound | page/page_manager.c:51-63 | after registration "main" finds the main page and other names find what they found before |

## Left out

- The reader threads, the mutex and the condition variable. They only
  serialise the ring transitions. After a wake-up, the consumer sees a ring
  given as a parameter.
- Socket, touch-library and frame-buffer I/O: `open`, `ioctl`, `mmap`,
  `recvfrom` and `ts_read`. Device initialisation and buffer retrieval
  results are inputs. The network driver reports success even when `bind`
  fails; that driver is not part of this model.
- The FreeType library. Its error codes, glyph control boxes, glyph slots
  and advances are inputs. The pen translation that `freetype_getstring_regioncar`
  applies before each glyph is part of those boxes.
- Floating-point sizing: the golden-ratio cell size, `sqrt`, and the font
  scale of `getfontsize_forallbutton`. The cell width, cell height, buttons
  per line and font size are inputs of `GenerateButtons`. Only the
  longest-name step of the font sizing is modelled.
- The command a press runs. The source prints with `printf` where `sprintf`
  was meant and then calls `system`. The model reports the command-status
  index instead.
- Reading the configuration file: `fopen`, `fgets` and `fclose`. The parser
  runs over the lines `fgets` delivers, each at most 99 characters.
- Flushing a region to the hardware. It only passes the call on to the
  driver.
- Pixel byte addresses beyond the offset formula. The frame buffer is a map
  from coordinates to stored values. `PixelsDisjoint` states the byte layout.
- Drawing a button's text when it is pressed. `MainPageOnPressed` reports the
  colour and the caption. `DrawTextInRegionCentral` models the drawing itself.
- Config.GetItemCfgByIndex: requires a non-negative index. A negative index
  reads outside the table in C.
- MainPage.GenerateButtons: requires at least one item and at least one
  button per line. With no items the C code divides by zero.
- MainPage.LongestNameIndex: requires at least one button. With none the C
  code uses an uninitialised index.
- MainPage.MainPageOnPressed: requires two tokens in a network message. With
  fewer, `sscanf` leaves the status buffer unset. It also requires the
  button's item to exist where the handler reads it.
- MainPage.GetButtonByInputEvent: requires a first token in a network
  message, for the same reason.
- MainPage.HandleEvent: models only the main page's press handler.
- MainPage.AfterPress: leaves a button without a configuration item as it
  is. The C handler dereferences a NULL item there; generated buttons
  always have one.
- `%d` overflow and tokens longer than the receiving buffers: values are
  unbounded integers and strings.
- 32-bit wrap-around of the C arithmetic, in pixel offsets, origins and
  counts.
- DisplayManager.TextOrigin: takes the string's box in pixels. The source
  passes 1/64-pixel values: `FT_GLYPH_BBOX_UNSCALED` (font/freetype.c:193)
  gives 26.6 coordinates, and lines 210-213 add 1 to those. Centring such a
  box as pixels, as display/disp_manager.c:232-233 does, does not centre the
  text. The model states the centring for a box given in pixels.
- FreeType.GetStringRegionCar: keeps the box in the units FreeType reports
  it, and says nothing about pixels.
- DisplayManager.DrawTextAt: lays the glyphs out with the corrected
  getfontbitmap, while the C loop calls the version as written; the
  findings table below describes what that version does.
- DisplayManager.DrawTextInRegionCentral: uses the corrected
  getfontbitmap. It takes the bounding box from the record left by
  getstring_regioncar, whose error result the source ignores.
- `get_itemcfg_count`: it is the length of the parsed table.

## Findings

| source | as written | input that shows it | evidently intended | confidence | as-written member | corrected member |
|---|---|---|---|---|---|---|
| font/freetype.c:120-125 | Line 125 assigns `i_next_originy` to itself, and line 120 sets the glyph's top edge to `i_next_originy - bitmap_top`. So both the top edge and the next origin's y come from whatever the caller's record held; in `drawtext_inregioncentral` that record is an uninitialised local. The pen given to `FT_Set_Transform` (lines 99-104) is the current origin, and FreeType adds it to `bitmap_top` in y-up coordinates. | The record holds `i_next_originy = 0`, the text origin is y = 100, and a glyph 10 pixels above its origin has `bitmap_top = 110`. The glyph is drawn at y = -110 instead of 90. | Line 120: `2 * i_cur_originy - bitmap_top`, the top edge mirrored about the baseline. Line 125: `i_next_originy = i_cur_originy`, so the next glyph stays on the current baseline. | medium, not executed | FreeType.GetFontBitmapAsWritten, DisplayManager.AsWrittenLayout, DisplayManager.StaleBaselineMisplacesGlyph | FreeType.GetFontBitmap, DisplayManager.CorrectedLayout, DisplayManager.GlyphsSitOnBaseline, DisplayManager.CorrectedIgnoresUninitialised |
