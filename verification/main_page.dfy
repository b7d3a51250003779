/** The main page: laying the configured items out as a grid of buttons,
    finding the button an input event is meant for, and what a press does
    to a button. Drawing is described by the colour and caption chosen; the
    command a press runs is not modelled. */
module MainPage {
  import opened Common
  import opened Scan
  import opened Registry
  import opened Config
  import opened Button
  import opened InputManager
  import opened DisplayManager

  /** Horizontal and vertical gap left between neighbouring buttons. */
  const X_GAP := 5
  const Y_GAP := 5

  /** Number of rows needed for `n` buttons at `npl` per row: `n / npl`,
      plus one when that leaves some over. */
  function Rows(n: int, npl: int): (r: int)
    requires n >= 0 && npl >= 1
    ensures r >= 0
    ensures (r - 1) * npl < n <= r * npl
  {
    var r := n / npl;
    DivBounds(n, npl);
    if r * npl < n then
      assert (r + 1) * npl == r * npl + npl;
      r + 1
    else
      assert (r - 1) * npl == r * npl - npl;
      r
  }

  /** The rectangle of the `k`-th button: column `k % npl`, row `k / npl`
      of the grid whose top-left cell starts at (startX, startY), shrunk by
      the gaps. */
  function Cell(k: nat, npl: int, startX: int, startY: int, width: int, height: int): Region
    requires npl >= 1
  {
    Region(startX + (k % npl) * width, startY + (k / npl) * height, width - X_GAP, height - Y_GAP)
  }

  /** Left edge of the grid: the row of `npl` cells centred on the screen. */
  function StartX(xres: int, width: int, npl: int): int {
    CDiv(xres - width * npl, 2)
  }

  /** Top edge of the grid: the rows needed for `n` buttons centred. */
  function StartY(yres: int, height: int, n: int, npl: int): int
    requires n >= 0 && npl >= 1
  {
    CDiv(yres - height * Rows(n, npl), 2)
  }

  /** The button generate_buttons makes for item `k`. */
  function GridButton(items: seq<ItemCfg>, k: nat, xres: int, yres: int, width: int, height: int,
                      npl: int, fontSize: int): Button
    requires k < |items| && npl >= 1
  {
    Button(items[k].name, fontSize,
           Cell(k, npl, StartX(xres, width, npl), StartY(yres, height, |items|, npl), width, height),
           DefaultDraw, MainPagePressed, 0)
  }

  lemma CellIndex(row: nat, col: nat, npl: int)
    requires 0 <= col < npl
    ensures (row * npl + col) / npl == row && (row * npl + col) % npl == col
  {
    DivModUnique(row * npl + col, npl, row, col);
  }

  /** generate_buttons: one button per configured item, placed row by row
      and left to right in a grid of `npl` cells of `width` by `height`
      centred on the `xres` by `yres` screen, each named after its item,
      with the default draw handler, the main page's press handler, status
      0 and the font size given. The cell size, the number per row and the
      font size come from floating-point sizing and are inputs. */
  method GenerateButtons(items: seq<ItemCfg>, xres: int, yres: int, width: int, height: int,
                         npl: int, fontSize: int) returns (buttons: seq<Button>)
    requires |items| >= 1 && npl >= 1
    ensures |buttons| == |items|
    ensures forall k :: 0 <= k < |buttons| ==>
              buttons[k] == GridButton(items, k, xres, yres, width, height, npl, fontSize)
    ensures forall k :: 0 <= k < |buttons| ==>
              buttons[k].region.x == StartX(xres, width, npl) + (k % npl) * width
              && buttons[k].region.y == StartY(yres, height, |items|, npl) + (k / npl) * height
              && buttons[k].region.width == width - X_GAP && buttons[k].region.height == height - Y_GAP
              && buttons[k].name == items[k].name && buttons[k].status == 0
  {
    var n := |items|;
    var startX := CDiv(xres - width * npl, 2);
    var rows := n / npl;
    if rows * npl < n {
      rows := rows + 1;
    }
    assert rows == Rows(n, npl);
    var startY := CDiv(yres - height * rows, 2);
    buttons := [];
    var i := 0;
    var row := 0;
    while row < rows && i < n
      invariant 0 <= row && i == |buttons| && i <= n
      invariant i == if row * npl <= n then row * npl else n
      invariant forall k :: 0 <= k < i ==> buttons[k] == GridButton(items, k, xres, yres, width, height, npl, fontSize)
      decreases rows - row
    {
      var preStartX := startX - width;
      var preStartY := startY + row * height;
      var col := 0;
      while col < npl && i < n
        invariant 0 <= col <= npl && i == row * npl + col && i <= n && i == |buttons|
        invariant preStartX == startX + (col - 1) * width
        invariant forall k :: 0 <= k < i ==> buttons[k] == GridButton(items, k, xres, yres, width, height, npl, fontSize)
      {
        var region := Region(preStartX + width, preStartY, width - X_GAP, height - Y_GAP);
        preStartX := region.x;
        PlaceCell(row, col, npl, width);
        var b := InitButton(ZeroButton.(region := region), items[i].name, None, Null, MainPagePressed);
        buttons := buttons + [b.(fontSize := fontSize)];
        i := i + 1;
        col := col + 1;
      }
      assert (row + 1) * npl == row * npl + npl;
      row := row + 1;
    }
    if i < n {
      MulMono(rows, row, npl);
    }
  }

  /** Cell `row * npl + col` lies in column `col` of row `row`, one cell
      width to the right of its left neighbour. */
  lemma PlaceCell(row: nat, col: nat, npl: int, width: int)
    requires 0 <= col < npl
    ensures (row * npl + col) / npl == row && (row * npl + col) % npl == col
    ensures (col - 1) * width + width == col * width
  {
    CellIndex(row, col, npl);
  }

  /** isTouchPointInRegion: both far edges count as inside. */
  function IsTouchPointInRegion(x: int, y: int, r: Region): (inside: bool)
    ensures inside <==> r.x <= x <= r.x + r.width && r.y <= y <= r.y + r.height
  {
    !(x < r.x || x > r.x + r.width || y < r.y || y > r.y + r.height)
  }

  /** The touchable area is the drawn rectangle grown by one pixel to the
      right and below: every pixel draw_region paints can be touched, and
      so can the column and row just past it. */
  lemma TouchableIsDrawnPlusEdge(x: int, y: int, r: Region)
    ensures IsTouchPointInRegion(x, y, r) <==> InRect((x, y), Region(r.x, r.y, r.width + 1, r.height + 1))
    ensures InRect((x, y), r) ==> IsTouchPointInRegion(x, y, r)
  {
  }

  /** The first button, in array order, whose region the point touches. */
  function FirstHit(buttons: seq<Button>, x: int, y: int): (r: Option<nat>)
    ensures r.Some? ==> r.value < |buttons| && IsTouchPointInRegion(x, y, buttons[r.value].region)
    ensures r.Some? ==> forall j :: 0 <= j < r.value ==> !IsTouchPointInRegion(x, y, buttons[j].region)
    ensures r.None? <==> forall j :: 0 <= j < |buttons| ==> !IsTouchPointInRegion(x, y, buttons[j].region)
  {
    if |buttons| == 0 then None
    else if IsTouchPointInRegion(x, y, buttons[0].region) then Some(0)
    else match FirstHit(buttons[1..], x, y)
      case None => None
      case Some(k) => Some(k + 1)
  }

  function ButtonName(b: Button): string {
    b.name
  }

  /** get_button_by_name: the first button with that name, or NULL. */
  function GetButtonByName(buttons: seq<Button>, name: string): (r: Option<nat>)
    ensures r.Some? ==> r.value < |buttons| && buttons[r.value].name == name
    ensures r.Some? ==> forall j :: 0 <= j < r.value ==> buttons[j].name != name
    ensures r.None? <==> forall j :: 0 <= j < |buttons| ==> buttons[j].name != name
  {
    FindFirst(buttons, ButtonName, name)
  }

  /** The tokens `sscanf` reads with `%s` from a network message. */
  function FirstToken(text: string): Option<string> {
    match Word(CStr(text))
    case None => None
    case Some((w, _)) => Some(w)
  }

  function SecondToken(text: string): Option<string> {
    match Word(CStr(text))
    case None => None
    case Some((_, rest)) =>
      match Word(rest)
      case None => None
      case Some((w, _)) => Some(w)
  }

  /** get_button_by_inputevent: for a touch, the first button whose region
      the point touches; for a network message, the first button named by
      its first token (which must be present: `sscanf` leaves the name
      unset otherwise); NULL for any other event type. */
  function GetButtonByInputEvent(buttons: seq<Button>, ev: InputEvent): (r: Option<nat>)
    requires ev.kind == INPUT_TYPE_NET ==> FirstToken(ev.text).Some?
    ensures ev.kind == INPUT_TYPE_TOUCH ==> r == FirstHit(buttons, ev.x, ev.y)
    ensures ev.kind == INPUT_TYPE_NET ==> r == GetButtonByName(buttons, FirstToken(ev.text).value)
    ensures ev.kind != INPUT_TYPE_TOUCH && ev.kind != INPUT_TYPE_NET ==> r.None?
    ensures r.Some? ==> r.value < |buttons|
  {
    if ev.kind == INPUT_TYPE_TOUCH then FirstHit(buttons, ev.x, ev.y)
    else if ev.kind == INPUT_TYPE_NET then GetButtonByName(buttons, FirstToken(ev.text).value)
    else None
  }

  lemma SpanDisjoint(a: int, b: int, w: int, p: int)
    requires w >= X_GAP && a < b
    requires p <= a * w + w - X_GAP
    ensures p < b * w
  {
    MulMono(a + 1, b, w);
    assert (a + 1) * w == a * w + w;
  }

  /** Of two grid positions `j < i`, `j` is on an earlier row, or on the
      same row and an earlier column. */
  lemma RowOrder(j: nat, i: nat, npl: int)
    requires npl >= 1 && j < i
    ensures j / npl <= i / npl
    ensures j / npl == i / npl ==> j % npl < i % npl
  {
    DivBounds(j, npl);
    DivBounds(i, npl);
    if i / npl < j / npl {
      MulMono(i / npl + 1, j / npl, npl);
    }
  }

  /** In a generated grid the touchable areas of different buttons do not
      overlap, so a touch inside the drawn rectangle of button `i` finds
      button `i`. */
  lemma {:induction false} TouchFindsGridButton(buttons: seq<Button>, items: seq<ItemCfg>, xres: int, yres: int,
                                                width: int, height: int, npl: int, fontSize: int, i: nat, x: int, y: int)
    requires npl >= 1 && |buttons| == |items|
    requires forall k :: 0 <= k < |buttons| ==>
               buttons[k] == GridButton(items, k, xres, yres, width, height, npl, fontSize)
    requires i < |buttons| && InRect((x, y), buttons[i].region)
    ensures FirstHit(buttons, x, y) == Some(i)
  {
    var sx := StartX(xres, width, npl);
    var sy := StartY(yres, height, |items|, npl);
    assert IsTouchPointInRegion(x, y, buttons[i].region);
    forall j | 0 <= j < i
      ensures !IsTouchPointInRegion(x, y, buttons[j].region)
    {
      CellsApart(j, i, npl, sx, sy, width, height, x, y);
    }
  }

  lemma CellsApart(j: nat, i: nat, npl: int, sx: int, sy: int, width: int, height: int, x: int, y: int)
    requires npl >= 1 && j < i
    requires InRect((x, y), Cell(i, npl, sx, sy, width, height))
    ensures !IsTouchPointInRegion(x, y, Cell(j, npl, sx, sy, width, height))
  {
    RowOrder(j, i, npl);
    var ci, ri := i % npl, i / npl;
    var cj, rj := j % npl, j / npl;
    assert sx + ci * width <= x < sx + ci * width + width - X_GAP;
    assert sy + ri * height <= y < sy + ri * height + height - Y_GAP;
    if ri == rj {
      if x <= sx + cj * width + width - X_GAP {
        SpanDisjoint(cj, ci, width, x - sx);
      }
    } else {
      if y <= sy + rj * height + height - Y_GAP {
        SpanDisjoint(rj, ri, height, y - sy);
      }
    }
  }

  /** What mainpage_on_pressed does with a press: refuses it (-1), or
      paints the button in `color` with `caption` centred on it and reports
      the command status it would run the item's command with (0 "err",
      1 "ok", 2 "percent"). */
  datatype PressResult =
    | Rejected
    | Pressed(button: Button, color: Color, caption: string, statusIndex: int)

  /** The network status tokens the press handler understands. */
  predicate KnownStatus(status: string) {
    status == "ok" || status == "cancel" || (|status| > 0 && '0' <= status[0] <= '9')
  }

  /** mainpage_on_pressed. A touch toggles the button, unless its item is
      not touchable; a network message "<name> <status>" sets the colour
      and caption from the status token without touching the button's
      status; any other event is refused. The item the button was made
      from must exist whenever the handler reaches it, and a network
      message must carry two tokens. */
  function MainPageOnPressed(b: Button, items: seq<ItemCfg>, ev: InputEvent): (r: PressResult)
    requires ev.kind == INPUT_TYPE_TOUCH ==> GetItemCfgByName(items, b.name).Some?
    requires ev.kind == INPUT_TYPE_NET ==>
               SecondToken(ev.text).Some?
               && (KnownStatus(SecondToken(ev.text).value) ==> GetItemCfgByName(items, b.name).Some?)
    ensures ev.kind != INPUT_TYPE_TOUCH && ev.kind != INPUT_TYPE_NET ==> r.Rejected?
    ensures ev.kind == INPUT_TYPE_TOUCH ==>
              (r.Rejected? <==> GetItemCfgByName(items, b.name).value.canBeTouched == 0)
    ensures ev.kind == INPUT_TYPE_TOUCH && r.Pressed? ==>
              r.button == b.(status := r.button.status)
              && (r.button.status == 0 <==> b.status != 0)
              && r.caption == b.name
              && r.statusIndex == (if r.button.status != 0 then 1 else 0)
    ensures ev.kind == INPUT_TYPE_NET ==>
              (r.Rejected? <==> !KnownStatus(SecondToken(ev.text).value))
    ensures ev.kind == INPUT_TYPE_NET && r.Pressed? ==>
              var status := SecondToken(ev.text).value;
              r.button == b
              && (status == "ok" ==> r.statusIndex == 1)
              && (status == "cancel" ==> r.statusIndex == 0)
              && (status != "ok" && status != "cancel" ==> r.statusIndex == 2 && r.caption == status)
              && (r.statusIndex != 2 ==> r.caption == b.name)
    ensures r.Pressed? ==>
              r.button.status in {0, 1} || r.button.status == b.status
    ensures r.Pressed? ==> 0 <= r.statusIndex <= 2
    ensures r.Pressed? ==> (r.color == BUTTON_PRESSED_COLOR <==> r.statusIndex == 1)
    ensures r.Pressed? ==> (r.color == BUTTON_DEFAULT_COLOR <==> r.statusIndex == 0)
    ensures r.Pressed? ==> (r.color == BUTTON_PERCENT_COLOR <==> r.statusIndex == 2)
  {
    if ev.kind == INPUT_TYPE_TOUCH then
      if GetItemCfgByName(items, b.name).value.canBeTouched == 0 then Rejected
      else
        var nb := b.(status := CNot(b.status));
        if nb.status != 0 then Pressed(nb, BUTTON_PRESSED_COLOR, b.name, 1)
        else Pressed(nb, BUTTON_DEFAULT_COLOR, b.name, 0)
    else if ev.kind == INPUT_TYPE_NET then
      var status := SecondToken(ev.text).value;
      if status == "ok" then Pressed(b, BUTTON_PRESSED_COLOR, b.name, 1)
      else if status == "cancel" then Pressed(b, BUTTON_DEFAULT_COLOR, b.name, 0)
      else if |status| > 0 && '0' <= status[0] <= '9' then Pressed(b, BUTTON_PERCENT_COLOR, status, 2)
      else Rejected
    else Rejected
  }

  /** A touch press paints exactly as the default press handler would. */
  lemma TouchAgreesWithDefault(b: Button, items: seq<ItemCfg>, ev: InputEvent)
    requires ev.kind == INPUT_TYPE_TOUCH && GetItemCfgByName(items, b.name).Some?
    requires GetItemCfgByName(items, b.name).value.canBeTouched != 0
    ensures MainPageOnPressed(b, items, ev).button == DefaultOnPressed(b).0
    ensures MainPageOnPressed(b, items, ev).color == DefaultOnPressed(b).1
  {
  }

  /** Two touches of a touchable button restore its status. */
  lemma TouchTwiceRestores(b: Button, items: seq<ItemCfg>, ev: InputEvent)
    requires ev.kind == INPUT_TYPE_TOUCH && GetItemCfgByName(items, b.name).Some?
    requires GetItemCfgByName(items, b.name).value.canBeTouched != 0
    requires b.status == 0 || b.status == 1
    ensures var once := MainPageOnPressed(b, items, ev).button;
            MainPageOnPressed(once, items, ev).button == b
  {
  }

  /** The button after its press handler has seen the event: the main
      page's handler acts on a touch, a refused press or another handler
      leaves it as it is, and a network message only changes what is drawn.
      A button without a configuration item is left as it is; the C handler
      dereferences NULL there. */
  function AfterPress(b: Button, items: seq<ItemCfg>, ev: InputEvent): (nb: Button)
    ensures ev.kind != INPUT_TYPE_TOUCH ==> nb == b
    ensures nb == b.(status := nb.status)
    ensures (b.onPressed == MainPagePressed && ev.kind == INPUT_TYPE_TOUCH
             && GetItemCfgByName(items, b.name).Some?
             && GetItemCfgByName(items, b.name).value.canBeTouched != 0) ==> nb.status == CNot(b.status)
    ensures b.onPressed != MainPagePressed ==> nb == b
    ensures (ev.kind == INPUT_TYPE_TOUCH && GetItemCfgByName(items, b.name).Some?
             && GetItemCfgByName(items, b.name).value.canBeTouched == 0) ==> nb == b
  {
    if b.onPressed != MainPagePressed || ev.kind != INPUT_TYPE_TOUCH then b
    else if GetItemCfgByName(items, b.name).None? then b
    else
      var res := MainPageOnPressed(b, items, ev);
      if res.Rejected? then b else res.button
  }

  /** One turn of mainpage_run's loop once an event has been read: find the
      button the event is for and let its press handler act on it. Only the
      main page's handler is modelled; a button with another handler is
      left as it is. A network message leaves every button as it was. */
  function HandleEvent(buttons: seq<Button>, items: seq<ItemCfg>, ev: InputEvent): (r: seq<Button>)
    requires ev.kind == INPUT_TYPE_NET ==> FirstToken(ev.text).Some?
    ensures |r| == |buttons|
    ensures GetButtonByInputEvent(buttons, ev).None? ==> r == buttons
    ensures GetButtonByInputEvent(buttons, ev).Some? ==>
              var i := GetButtonByInputEvent(buttons, ev).value;
              r == buttons[i := AfterPress(buttons[i], items, ev)]
    ensures ev.kind != INPUT_TYPE_TOUCH ==> r == buttons
  {
    var hit := GetButtonByInputEvent(buttons, ev);
    if hit.None? then buttons
    else
      var nb := AfterPress(buttons[hit.value], items, ev);
      if ev.kind != INPUT_TYPE_TOUCH then
        assert nb == buttons[hit.value];
        assert buttons[hit.value := nb] == buttons;
        buttons
      else buttons[hit.value := nb]
  }

  /** getfontsize_forallbutton, first step: the first button whose name is
      longest (the comparison is a strict `>`, so ties keep the earlier
      one). There must be at least one button. */
  method LongestNameIndex(buttons: seq<Button>) returns (maxIndex: nat)
    requires |buttons| >= 1
    ensures maxIndex < |buttons|
    ensures forall j :: 0 <= j < |buttons| ==> |CStr(buttons[j].name)| <= |CStr(buttons[maxIndex].name)|
    ensures forall j :: 0 <= j < maxIndex ==> |CStr(buttons[j].name)| < |CStr(buttons[maxIndex].name)|
  {
    var maxLen := -1;
    maxIndex := 0;
    var i := 0;
    while i < |buttons|
      invariant 0 <= i <= |buttons|
      invariant i == 0 ==> maxLen == -1
      invariant maxIndex < |buttons| && (i > 0 ==> maxIndex < i && maxLen == |CStr(buttons[maxIndex].name)|)
      invariant forall j :: 0 <= j < i ==> |CStr(buttons[j].name)| <= maxLen
      invariant forall j :: 0 <= j < maxIndex ==> |CStr(buttons[j].name)| < maxLen
    {
      var len := |CStr(buttons[i].name)|;
      if len > maxLen {
        maxLen := len;
        maxIndex := i;
      }
      i := i + 1;
    }
  }
}
