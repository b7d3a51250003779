/** The button widget: its record, `init_button`, and the toggle-and-colour
    rule of the default press handler. Drawing is described by the colour
    chosen; the pixels it produces are the display manager's business. */
module Button {
  import opened Common

  const BUTTON_DEFAULT_COLOR: Color := 0xFF0000
  const BUTTON_PRESSED_COLOR: Color := 0x00FF00
  const BUTTON_PERCENT_COLOR: Color := 0x0000FF
  const BUTTON_TEXT_COLOR: Color := 0x000000

  /** The function pointer a handler slot holds; `Null` is a NULL pointer. */
  datatype Handler = Null | DefaultDraw | DefaultPressed | MainPagePressed | Custom(id: nat)

  datatype Button = Button(
    name: string,
    fontSize: int,
    region: Region,
    onDraw: Handler,
    onPressed: Handler,
    status: int)

  /** A button in zero-initialised static storage. */
  const ZeroButton := Button("", 0, Region(0, 0, 0, 0), Null, Null, 0)

  /** init_button: sets the name, clears the status, copies the region only
      when one is given, and falls back to the default handlers for NULL
      ones. The font size is left as it was. */
  function InitButton(b: Button, name: string, region: Option<Region>, onDraw: Handler, onPressed: Handler): (r: Button)
    ensures r.name == name && r.status == 0 && r.fontSize == b.fontSize
    ensures region.Some? ==> r.region == region.value
    ensures region.None? ==> r.region == b.region
    ensures onDraw != Null ==> r.onDraw == onDraw
    ensures onPressed != Null ==> r.onPressed == onPressed
    ensures r.onDraw != Null && r.onPressed != Null
    ensures onDraw == Null ==> r.onDraw == DefaultDraw
    ensures onPressed == Null ==> r.onPressed == DefaultPressed
  {
    Button(
      name,
      b.fontSize,
      if region.Some? then region.value else b.region,
      if onDraw == Null then DefaultDraw else onDraw,
      if onPressed == Null then DefaultPressed else onPressed,
      0)
  }

  /** The colour a button is painted in for a given status. */
  function StatusColor(status: int): (c: Color)
    ensures c == BUTTON_PRESSED_COLOR <==> status != 0
    ensures c == BUTTON_DEFAULT_COLOR <==> status == 0
  {
    if status != 0 then BUTTON_PRESSED_COLOR else BUTTON_DEFAULT_COLOR
  }

  /** default_on_pressed: flips the status with C's `!` and paints the
      button in the colour of the new status. */
  function DefaultOnPressed(b: Button): (r: (Button, Color))
    ensures r.0 == b.(status := r.0.status)
    ensures r.0.status == 0 || r.0.status == 1
    ensures (r.0.status == 0) <==> (b.status != 0)
    ensures r.1 == BUTTON_PRESSED_COLOR <==> r.0.status == 1
    ensures r.1 == BUTTON_DEFAULT_COLOR <==> r.0.status == 0
  {
    var nb := b.(status := CNot(b.status));
    (nb, StatusColor(nb.status))
  }

  /** The button after `n` presses of the default handler. */
  function PressTimes(b: Button, n: nat): Button {
    if n == 0 then b else DefaultOnPressed(PressTimes(b, n - 1)).0
  }

  /** Starting from init_button, the status is the parity of the number of
      presses, so it only ever holds 0 or 1, and an even number of presses
      restores it; nothing else about the button changes. */
  lemma {:induction false} PressParity(b: Button, name: string, region: Option<Region>, onDraw: Handler, onPressed: Handler, n: nat)
    ensures PressTimes(InitButton(b, name, region, onDraw, onPressed), n).status == n % 2
    ensures PressTimes(InitButton(b, name, region, onDraw, onPressed), n)
            == InitButton(b, name, region, onDraw, onPressed).(status := n % 2)
  {
    if n > 0 {
      PressParity(b, name, region, onDraw, onPressed, n - 1);
    }
  }

  /** Two presses restore a button whose status is 0 or 1. */
  lemma PressTwiceRestores(b: Button)
    requires b.status == 0 || b.status == 1
    ensures DefaultOnPressed(DefaultOnPressed(b).0).0 == b
  {
  }
}
