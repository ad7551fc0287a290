/**
 * The driver roster: team colours parsed from hex text, and the three
 * lookups of a driver by number (sidebar rows, car markers, fastest lap).
 */
module Roster {
  import Text

  /**
   * The three 8-bit channels `hexTo565` hands to the display's RGB565
   * packing. The packing itself belongs to the display library and is not
   * part of this model, so a colour is kept as its channels.
   */
  datatype Rgb = Rgb(r: int, g: int, b: int)

  /** The display's `WHITE`: full intensity on every channel. */
  const White: Rgb := Rgb(255, 255, 255)
  /** The name shown for a car whose number is not in the roster. */
  const Unknown: string := "???"

  datatype Driver = Driver(id: int, name: string, colour: Rgb)

  predicate IsByte(v: int)
  {
    0 <= v < 256
  }

  /**
   * `(n >> 16) & 0xFF`, `(n >> 8) & 0xFF` and `n & 0xFF` of a 32-bit `long`.
   * An arithmetic right shift by k is floor division by 2^k and masking with
   * 0xFF keeps the two's-complement residue modulo 256, which is what the
   * Euclidean `/` and `%` compute for a positive divisor.
   */
  function Channels(n: int): (c: Rgb)
    ensures IsByte(c.r) && IsByte(c.g) && IsByte(c.b)
  {
    Rgb((n / 0x1_0000) % 0x100, (n / 0x100) % 0x100, n % 0x100)
  }

  /** `hexTo565` up to the packing: `strtol(hex, NULL, 16)` split into channels. */
  function HexColour(hex: string): Rgb
  {
    Channels(Text.StrToL(hex, 16))
  }

  /** Splitting a packed 0xRRGGBB value returns the bytes it was packed from. */
  lemma ChannelsOfPacked(r: int, g: int, b: int)
    requires IsByte(r) && IsByte(g) && IsByte(b)
    ensures Channels(r * 0x1_0000 + g * 0x100 + b) == Rgb(r, g, b)
  {
    var n := r * 0x1_0000 + g * 0x100 + b;
    assert n / 0x1_0000 == r;
    assert n / 0x100 == r * 0x100 + g;
    assert (r * 0x100 + g) % 0x100 == g;
  }

  predicate HexDigit(ch: char)
  {
    Text.DigitValue(ch) < 16
  }

  /**
   * A six-digit team colour such as "3671C6" gives the channels its digit
   * pairs spell: 0x36, 0x71, 0xC6.
   */
  lemma HexColourOfSixDigits(hex: string)
    requires |hex| == 6 && forall i :: 0 <= i < 6 ==> HexDigit(hex[i])
    ensures HexColour(hex) == Rgb(Pair(hex[0], hex[1]), Pair(hex[2], hex[3]), Pair(hex[4], hex[5]))
  {
    var r, g, b := Pair(hex[0], hex[1]), Pair(hex[2], hex[3]), Pair(hex[4], hex[5]);
    assert !Text.IsSpace(hex[0]) && hex[0] != '-' && hex[0] != '+' && hex[1] != 'x' && hex[1] != 'X';
    assert Text.SkipSpace(hex, 0) == 0;
    SixDigits(hex);
    ChannelsOfPacked(r, g, b);
  }

  /** The byte two hex digits spell. */
  function Pair(hi: char, lo: char): int
  {
    Text.DigitValue(hi) * 16 + Text.DigitValue(lo)
  }

  lemma SixDigits(hex: string)
    requires |hex| == 6 && forall i :: 0 <= i < 6 ==> HexDigit(hex[i])
    ensures Text.Digits(hex, 0, 16, 0)
      == Pair(hex[0], hex[1]) * 0x1_0000 + Pair(hex[2], hex[3]) * 0x100 + Pair(hex[4], hex[5])
  {
    var d := seq(6, i requires 0 <= i < 6 => Text.DigitValue(hex[i]));
    calc {
      Text.Digits(hex, 0, 16, 0);
      Text.Digits(hex, 1, 16, d[0]);
      Text.Digits(hex, 2, 16, d[0] * 16 + d[1]);
      Text.Digits(hex, 3, 16, (d[0] * 16 + d[1]) * 16 + d[2]);
      Text.Digits(hex, 4, 16, ((d[0] * 16 + d[1]) * 16 + d[2]) * 16 + d[3]);
      Text.Digits(hex, 5, 16, (((d[0] * 16 + d[1]) * 16 + d[2]) * 16 + d[3]) * 16 + d[4]);
      ((((d[0] * 16 + d[1]) * 16 + d[2]) * 16 + d[3]) * 16 + d[4]) * 16 + d[5];
    }
  }

  // ---------------------------------------------------------------------
  // Lookups by driver number

  /** The index of the first driver with number `id`, or -1. */
  function FirstIndex(drivers: seq<Driver>, id: int): (k: int)
    ensures k == -1 <==> forall i :: 0 <= i < |drivers| ==> drivers[i].id != id
    ensures k != -1 ==> 0 <= k < |drivers| && drivers[k].id == id
    ensures k != -1 ==> forall i :: 0 <= i < k ==> drivers[i].id != id
  {
    if |drivers| == 0 then -1
    else if drivers[0].id == id then 0
    else
      var k := FirstIndex(drivers[1..], id);
      if k == -1 then -1 else k + 1
  }

  /** The index of the last driver with number `id`, or -1. */
  function LastIndex(drivers: seq<Driver>, id: int): (k: int)
    ensures k == -1 <==> forall i :: 0 <= i < |drivers| ==> drivers[i].id != id
    ensures k != -1 ==> 0 <= k < |drivers| && drivers[k].id == id
    ensures k != -1 ==> forall i :: k < i < |drivers| ==> drivers[i].id != id
  {
    if |drivers| == 0 then -1
    else if drivers[|drivers| - 1].id == id then |drivers| - 1
    else LastIndex(drivers[..|drivers| - 1], id)
  }

  /** The name and colour the sidebar and the markers show for car `id`. */
  function Shown(drivers: seq<Driver>, id: int): (string, Rgb)
  {
    var k := FirstIndex(drivers, id);
    if k == -1 then (Unknown, White) else (drivers[k].name, drivers[k].colour)
  }

  /**
   * The sidebar lookup: scan the roster in order and stop at the first
   * driver with the car's number; without one the row shows "???" in white.
   */
  method Lookup(drivers: seq<Driver>, id: int) returns (name: string, colour: Rgb)
    ensures (exists i :: 0 <= i < |drivers| && drivers[i].id == id) ==>
      var k := FirstIndex(drivers, id);
      name == drivers[k].name && colour == drivers[k].colour
    ensures (forall i :: 0 <= i < |drivers| ==> drivers[i].id != id) ==> name == Unknown && colour == White
    ensures (name, colour) == Shown(drivers, id)
  {
    name, colour := Unknown, White;
    var i := 0;
    while i < |drivers|
      invariant 0 <= i <= |drivers|
      invariant forall j :: 0 <= j < i ==> drivers[j].id != id
      invariant name == Unknown && colour == White
    {
      if drivers[i].id == id {
        name, colour := drivers[i].name, drivers[i].colour;
        return;
      }
      i := i + 1;
    }
  }

  /** The marker lookup: the same first-match scan, for the colour alone. */
  method MarkerColour(drivers: seq<Driver>, id: int) returns (colour: Rgb)
    ensures colour == Shown(drivers, id).1
    ensures FirstIndex(drivers, id) == -1 ==> colour == White
  {
    colour := White;
    var i := 0;
    while i < |drivers|
      invariant 0 <= i <= |drivers|
      invariant forall j :: 0 <= j < i ==> drivers[j].id != id
      invariant colour == White
    {
      if drivers[i].id == id {
        colour := drivers[i].colour;
        return;
      }
      i := i + 1;
    }
  }

  /**
   * The fastest-lap lookup: scan the whole roster without stopping, so the
   * last driver with the number wins; without one the name is left as it
   * was.
   */
  method FastestLapName(drivers: seq<Driver>, fId: int, current: string) returns (name: string)
    ensures var k := LastIndex(drivers, fId);
      name == if k == -1 then current else drivers[k].name
  {
    name := current;
    var i := 0;
    while i < |drivers|
      invariant 0 <= i <= |drivers|
      invariant LastIndex(drivers[..i], fId) == -1 ==> name == current
      invariant LastIndex(drivers[..i], fId) != -1 ==> name == drivers[LastIndex(drivers[..i], fId)].name
    {
      assert drivers[..i + 1][..i] == drivers[..i];
      if drivers[i].id == fId {
        name := drivers[i].name;
      }
      i := i + 1;
    }
    assert drivers[..|drivers|] == drivers;
  }

  predicate UniqueIds(drivers: seq<Driver>)
  {
    forall i, j :: 0 <= i < j < |drivers| ==> drivers[i].id != drivers[j].id
  }

  /**
   * Both scans find a driver exactly when the number is in the roster, and
   * on a roster without repeated numbers they find the same one, so first
   * and last match differ only when a number is listed twice.
   */
  lemma FirstAndLastAgree(drivers: seq<Driver>, id: int)
    ensures FirstIndex(drivers, id) == -1 <==> LastIndex(drivers, id) == -1
    ensures UniqueIds(drivers) ==> FirstIndex(drivers, id) == LastIndex(drivers, id)
  {
  }

  /** With a number listed twice, the sidebar and the fastest-lap line name different drivers. */
  lemma RepeatedNumberDisagrees()
    ensures var ds := [Driver(1, "VER", White), Driver(1, "LAW", White)];
      Shown(ds, 1).0 == "VER" && LastIndex(ds, 1) == 1 && ds[LastIndex(ds, 1)].name == "LAW"
  {
    var ds := [Driver(1, "VER", White), Driver(1, "LAW", White)];
    assert FirstIndex(ds, 1) == 0;
  }
}
