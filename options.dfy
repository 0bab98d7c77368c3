/**
 * The option decision of `MouseCommonOptions` (src/vmmouse.c): the
 * "Buttons" count and the "ZAxisMapping" choice.
 *
 * The option string itself is not parsed here.  Its outcome is taken as
 * already tokenised: it names the X axis, names the Y axis, or is whatever
 * `sscanf(s, "%d %d %d %d", ...)` made of it (the count of integers read and
 * the first two of them, which stay 0 when not read).
 */
module Options {
  import opened Bits
  import opened ButtonMap
  import opened Translate

  /** `MSE_MAXBUTTONS`, the largest button number a wheel may be mapped to. */
  const MaxButtons: int := 24

  /** `MSE_DFLTBUTTONS`, the button count when the "Buttons" option is 0 or absent. */
  const DefaultButtons: int := 3

  /** The tokenised "ZAxisMapping" value. */
  datatype ZAxisOption =
    | NameX
    | NameY
    | Scanned(count: int, b1: int, b2: int)

  /** The default value "4 5", as `sscanf` reads it. */
  const DefaultZAxis: ZAxisOption := Scanned(2, 4, 5)

  /** What the options leave in `pMse->buttons` and the four Z-axis fields. */
  datatype MouseConfig = MouseConfig(buttons: int, zmap: ZConfig)

  /** The mask `1 << (b - 1)` of X button `b` in the driver's numbering. */
  function ButtonBit(b: int): (m: bv32)
    requires 1 <= b <= 32
    ensures Bit(m, (b - 1) as Index)
    ensures m & (m - 1) == 0
  {
    (1 as bv32) << (b - 1)
  }

  /** Two scanned numbers, both naming a button from 1 to `MSE_MAXBUTTONS`. */
  predicate ValidButtons(z: ZAxisOption)
  {
    z.Scanned? && z.count >= 2 && 0 < z.b1 <= MaxButtons && 0 < z.b2 <= MaxButtons
  }

  /** The "Buttons" option, 0 when absent, with 0 replaced by the default. */
  function BaseButtons(option: int): int
  {
    if option == 0 then DefaultButtons else option
  }

  function Max(a: int, b: int): int
  {
    if a < b then b else a
  }

  /** The decision of `MouseCommonOptions`. */
  function CommonOptions(buttonsOption: int, z: ZAxisOption): MouseConfig
  {
    var base := BaseButtons(buttonsOption);
    match z
    case NameX => MouseConfig(base, MapToX)
    case NameY => MouseConfig(base, MapToY)
    case Scanned(_, b1, b2) =>
      if ValidButtons(z) then
        MouseConfig(Max(Max(base, b1), b2), ToButtons(ButtonBit(b1), ButtonBit(b2), 0, 0))
      else
        MouseConfig(base, NoMap)
  }

  /**
   * The button count is the option's value, or `MSE_DFLTBUTTONS` for 0,
   * raised to the two wheel buttons when they are taken: it is the least
   * number at least as large as all of them.
   */
  lemma CommonOptionsButtons(buttonsOption: int, z: ZAxisOption)
    ensures var c := CommonOptions(buttonsOption, z);
      var base := if buttonsOption == 0 then DefaultButtons else buttonsOption;
      && c.buttons >= base
      && (ValidButtons(z) ==> c.buttons >= z.b1 && c.buttons >= z.b2)
      && (c.buttons == base || (ValidButtons(z) && (c.buttons == z.b1 || c.buttons == z.b2)))
  {
  }

  /**
   * The axis names map the wheel onto that axis, two valid button numbers
   * onto those buttons with the second wheel unmapped, and anything else
   * turns the mapping off.
   */
  lemma CommonOptionsZAxis(buttonsOption: int, z: ZAxisOption)
    ensures var c := CommonOptions(buttonsOption, z);
      && (c.zmap == MapToX <==> z == NameX)
      && (c.zmap == MapToY <==> z == NameY)
      && (c.zmap == NoMap <==> z.Scanned? && !ValidButtons(z))
      && (c.zmap.ToButtons? <==> ValidButtons(z))
      && (c.zmap.ToButtons? ==> c.zmap.negW == 0 && c.zmap.posW == 0)
      && (ValidButtons(z) ==> c.zmap == ToButtons(ButtonBit(z.b1), ButtonBit(z.b2), 0, 0))
  {
  }

  /** With no options at all: three buttons raised to five, the wheel on buttons 4 and 5. */
  lemma DefaultOptions()
    ensures CommonOptions(0, DefaultZAxis) == MouseConfig(5, ToButtons(0x08, 0x10, 0, 0))
  {
    assert ButtonBit(4) == 0x08;
    assert ButtonBit(5) == 0x10;
  }

  /**
   * With "ZAxisMapping" "N1 N2", one notch down selects button N1, one notch
   * up button N2, and a larger delta (which the driver reserves for the
   * second wheel, left unmapped) selects nothing.
   */
  lemma ScannedWheel(buttonsOption: int, z: ZAxisOption, relative: bool, buttons: bv32, dx: int, dy: int, dz: int)
    requires ValidButtons(z)
    ensures var m := MapZ(CommonOptions(buttonsOption, z).zmap, relative, buttons, dx, dy, dz, 0);
      m.zbutton == (if dz == -1 then ButtonBit(z.b1) else if dz == 1 then ButtonBit(z.b2) else 0)
  {
  }

  /**
   * `reverseBits` exchanges the driver's bits for buttons 1 and 3, so a wheel
   * mapped to button 1 or 3 is posted as the other one; every other button
   * number is posted as itself.
   */
  lemma ButtonBitPosted(b: int)
    requires 1 <= b <= 32
    ensures ReverseBits(ButtonBit(b)) == ButtonBit(if b == 1 then 3 else if b == 3 then 1 else b)
  {
  }
}
