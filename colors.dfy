/**
 Colour resolution: the fixed six-entry palette, the 24-bit ANSI foreground
 escape, and the parsing of a colour token (a palette name in any letter case,
 or six hex digits with an optional leading '#').
 */
module Colors {
  import opened Text

  /** The escape byte 0x1B that starts every ANSI control sequence. */
  const Esc: char := 27 as char

  /** The sequence that closes every coloured span. */
  const Reset: string := [Esc] + "[0m"

  datatype Rgb = Rgb(red: nat, green: nat, blue: nat)

  predicate IsByteTriple(c: Rgb) { c.red < 256 && c.green < 256 && c.blue < 256 }

  /** `ESC[38;2;R;G;Bm`, the three components printed in decimal. */
  function Foreground(c: Rgb): (code: string)
    ensures |code| > 0 && code[0] == Esc
  {
    [Esc] + "[38;2;" + Decimal(c.red) + ";" + Decimal(c.green) + ";" + Decimal(c.blue) + "m"
  }

  // ---------------------------------------------------------------------------
  // The palette

  const PaletteSize: nat := 6

  /** The palette names, in the order in which they are handed out. */
  const PresetOrder: seq<string> := ["red", "green", "orange", "blue", "pink", "purple"]

  /** The colour of each palette entry, in the same order. */
  const PresetRgb: seq<Rgb> := [
    Rgb(255, 105, 97), Rgb(134, 194, 29), Rgb(240, 160, 75),
    Rgb(134, 176, 189), Rgb(255, 164, 164), Rgb(203, 166, 247)]

  /** The escape of each palette entry, written out as a literal table. */
  const NamedCodes: seq<string> := [
    [Esc] + "[38;2;255;105;97m",
    [Esc] + "[38;2;134;194;29m",
    [Esc] + "[38;2;240;160;75m",
    [Esc] + "[38;2;134;176;189m",
    [Esc] + "[38;2;255;164;164m",
    [Esc] + "[38;2;203;166;247m"]

  /** The decimal form of a two-digit number. */
  lemma DecimalTwo(n: nat, d1: char, d0: char)
    requires 10 <= n < 100
    requires d1 as int == '0' as int + n / 10 && d0 as int == '0' as int + n % 10
    ensures Decimal(n) == [d1, d0]
  {
  }

  /** The decimal form of a three-digit number. */
  lemma DecimalThree(n: nat, d2: char, d1: char, d0: char)
    requires 100 <= n < 1000
    requires d2 as int == '0' as int + n / 100 && d1 as int == '0' as int + n / 10 % 10 && d0 as int == '0' as int + n % 10
    ensures Decimal(n) == [d2, d1, d0]
  {
    DecimalTwo(n / 10, d2, d1);
  }

  /** The escape of a byte triple, with each component's digits spelled out. */
  lemma ForegroundDigits(c: Rgb, r: string, g: string, b: string)
    requires Decimal(c.red) == r && Decimal(c.green) == g && Decimal(c.blue) == b
    ensures Foreground(c) == [Esc] + "[38;2;" + r + ";" + g + ";" + b + "m"
  {
  }

  lemma RedEscape()
    ensures NamedCodes[0] == Foreground(PresetRgb[0])
  {
    DecimalThree(255, '2', '5', '5'); DecimalThree(105, '1', '0', '5'); DecimalTwo(97, '9', '7');
    ForegroundDigits(PresetRgb[0], "255", "105", "97");
  }

  lemma GreenEscape()
    ensures NamedCodes[1] == Foreground(PresetRgb[1])
  {
    DecimalThree(134, '1', '3', '4'); DecimalThree(194, '1', '9', '4'); DecimalTwo(29, '2', '9');
    ForegroundDigits(PresetRgb[1], "134", "194", "29");
  }

  lemma OrangeEscape()
    ensures NamedCodes[2] == Foreground(PresetRgb[2])
  {
    DecimalThree(240, '2', '4', '0'); DecimalThree(160, '1', '6', '0'); DecimalTwo(75, '7', '5');
    ForegroundDigits(PresetRgb[2], "240", "160", "75");
  }

  lemma BlueEscape()
    ensures NamedCodes[3] == Foreground(PresetRgb[3])
  {
    DecimalThree(134, '1', '3', '4'); DecimalThree(176, '1', '7', '6'); DecimalThree(189, '1', '8', '9');
    ForegroundDigits(PresetRgb[3], "134", "176", "189");
  }

  lemma PinkEscape()
    ensures NamedCodes[4] == Foreground(PresetRgb[4])
  {
    DecimalThree(255, '2', '5', '5'); DecimalThree(164, '1', '6', '4');
    ForegroundDigits(PresetRgb[4], "255", "164", "164");
  }

  lemma PurpleEscape()
    ensures NamedCodes[5] == Foreground(PresetRgb[5])
  {
    DecimalThree(203, '2', '0', '3'); DecimalThree(166, '1', '6', '6'); DecimalThree(247, '2', '4', '7');
    ForegroundDigits(PresetRgb[5], "203", "166", "247");
  }

  /** The literal table agrees with the palette's colours: each entry is their escape. */
  lemma NamedCodesAreForeground()
    ensures forall i :: 0 <= i < PaletteSize ==> NamedCodes[i] == Foreground(PresetRgb[i])
  {
    forall i | 0 <= i < PaletteSize
      ensures NamedCodes[i] == Foreground(PresetRgb[i])
    {
      if i == 0 { RedEscape(); }
      else if i == 1 { GreenEscape(); }
      else if i == 2 { OrangeEscape(); }
      else if i == 3 { BlueEscape(); }
      else if i == 4 { PinkEscape(); }
      else { PurpleEscape(); }
    }
  }

  /** Every palette escape is non-empty, so it is never mistaken for "no colour". */
  lemma NamedCodesNonEmpty()
    ensures forall i :: 0 <= i < PaletteSize ==> NamedCodes[i] != "" && NamedCodes[i][0] == Esc
  {
  }

  /** No two palette entries share an escape. */
  lemma NamedCodesDistinct()
    ensures forall i, j :: 0 <= i < j < PaletteSize ==> NamedCodes[i] != NamedCodes[j]
  {
    assert NamedCodes[0][7] == '2' && NamedCodes[1][7] == '1' && NamedCodes[2][7] == '2';
    assert NamedCodes[3][7] == '1' && NamedCodes[4][7] == '2' && NamedCodes[5][7] == '2';
    assert NamedCodes[0][9] == '5' && NamedCodes[2][9] == '0' && NamedCodes[4][9] == '5' && NamedCodes[5][9] == '3';
    assert NamedCodes[0][11] == '1' && NamedCodes[4][11] == '1';
    assert NamedCodes[1][11] == '1' && NamedCodes[3][11] == '1';
    assert NamedCodes[0][12] == '0' && NamedCodes[4][12] == '6';
    assert NamedCodes[1][12] == '9' && NamedCodes[3][12] == '7';
  }

  /** The position of `name` in the palette, if it is a palette name. */
  function LookupName(name: string): (r: Option<nat>)
    ensures r.Some? ==> r.value < PaletteSize && PresetOrder[r.value] == name
    ensures r.None? ==> name !in PresetOrder
  {
    LookupNameFrom(name, 0)
  }

  function LookupNameFrom(name: string, i: nat): (r: Option<nat>)
    requires i <= PaletteSize
    ensures r.Some? ==> i <= r.value < PaletteSize && PresetOrder[r.value] == name
    ensures r.None? ==> forall j :: i <= j < PaletteSize ==> PresetOrder[j] != name
    decreases PaletteSize - i
  {
    if i == PaletteSize then None
    else if PresetOrder[i] == name then Some(i)
    else LookupNameFrom(name, i + 1)
  }

  /** The palette entry whose escape is `code`, if any. */
  function SlotOf(code: string): (r: Option<nat>)
    ensures r.Some? ==> r.value < PaletteSize && NamedCodes[r.value] == code
    ensures r.None? ==> code !in NamedCodes
  {
    SlotOfFrom(code, 0)
  }

  /** Because the escapes are distinct, SlotOf finds the one entry with that escape. */
  lemma SlotOfNamedCode(i: nat)
    requires i < PaletteSize
    ensures SlotOf(NamedCodes[i]) == Some(i)
  {
    NamedCodesDistinct();
  }

  function SlotOfFrom(code: string, i: nat): (r: Option<nat>)
    requires i <= PaletteSize
    ensures r.Some? ==> i <= r.value < PaletteSize && NamedCodes[r.value] == code
    ensures r.None? ==> forall j :: i <= j < PaletteSize ==> NamedCodes[j] != code
    decreases PaletteSize - i
  {
    if i == PaletteSize then None
    else if NamedCodes[i] == code then Some(i)
    else SlotOfFrom(code, i + 1)
  }

  // ---------------------------------------------------------------------------
  // Hex colours

  predicate IsHexDigit(c: char) {
    '0' <= c <= '9' || 'a' <= c <= 'f' || 'A' <= c <= 'F'
  }

  function HexValue(c: char): (v: nat)
    requires IsHexDigit(c)
    ensures v < 16
  {
    if '0' <= c <= '9' then c as int - '0' as int
    else if 'a' <= c <= 'f' then c as int - 'a' as int + 10
    else c as int - 'A' as int + 10
  }

  /** The hex digit for `v`, lower-case or upper-case. */
  function HexDigit(v: nat, upper: bool): (c: char)
    requires v < 16
    ensures IsHexDigit(c) && HexValue(c) == v
    ensures !('A' <= c <= 'F') || upper
  {
    if v < 10 then ('0' as int + v) as char
    else if upper then ('A' as int + v - 10) as char
    else ('a' as int + v - 10) as char
  }

  /** Two hex digits at `i` and `i + 1`. */
  predicate HexPairAt(hex: string, i: nat)
    requires i + 1 < |hex|
  {
    IsHexDigit(hex[i]) && IsHexDigit(hex[i + 1])
  }

  function PairValue(hex: string, i: nat): (v: nat)
    requires i + 1 < |hex| && HexPairAt(hex, i)
    ensures v < 256
  {
    16 * HexValue(hex[i]) + HexValue(hex[i + 1])
  }

  /**
   The three components that the scan "%02x%02x%02x" reads from six bytes:
   pairs are read left to right, and the scan stops at the first pair that is
   not two hex digits, leaving that component and the later ones at 0.
   */
  function ScanTriple(hex: string): (c: Rgb)
    requires |hex| == 6
    ensures IsByteTriple(c)
  {
    if !HexPairAt(hex, 0) then Rgb(0, 0, 0)
    else if !HexPairAt(hex, 2) then Rgb(PairValue(hex, 0), 0, 0)
    else if !HexPairAt(hex, 4) then Rgb(PairValue(hex, 0), PairValue(hex, 2), 0)
    else Rgb(PairValue(hex, 0), PairValue(hex, 2), PairValue(hex, 4))
  }

  /** The token without one leading '#', if it has one. */
  function TrimHash(s: string): (r: string)
    ensures |r| == (if |s| > 0 && s[0] == '#' then |s| - 1 else |s|)
    ensures s == (if |s| > 0 && s[0] == '#' then "#" else "") + r
  {
    if |s| > 0 && s[0] == '#' then s[1..] else s
  }

  /**
   The escape for a colour token, or "" when the token is neither a palette
   name (compared after lower-casing) nor six bytes once a leading '#' is
   dropped.
   */
  function ParseColor(token: string): (code: string)
    ensures code != "" ==> Lower(token) in PresetOrder || |TrimHash(token)| == 6
    ensures code == "" || code[0] == Esc
  {
    match LookupName(Lower(token))
    case Some(i) => NamedCodes[i]
    case None =>
      var hex := TrimHash(token);
      if |hex| != 6 then "" else Foreground(ScanTriple(hex))
  }

  /** No two palette names are equal: they differ in length or in their first letter. */
  lemma PresetOrderDistinct()
    ensures forall i, j :: 0 <= i < j < PaletteSize ==> PresetOrder[i] != PresetOrder[j]
  {
    assert |PresetOrder[0]| == 3 && |PresetOrder[1]| == 5 && |PresetOrder[2]| == 6;
    assert |PresetOrder[3]| == 4 && |PresetOrder[4]| == 4 && |PresetOrder[5]| == 6;
    assert PresetOrder[3][0] == 'b' && PresetOrder[4][0] == 'p';
    assert PresetOrder[2][0] == 'o' && PresetOrder[5][0] == 'p';
  }

  /** The name "red", as typed, is already lower-case and is the first palette name. */
  lemma RedNameLower()
    ensures Lower("red") == PresetOrder[0]
  {
    LowerNoUpper("red");
  }

  /** A palette name, in any letter case, resolves to that entry's escape. */
  lemma ParseColorNamed(token: string, i: nat)
    requires i < PaletteSize && Lower(token) == PresetOrder[i]
    ensures ParseColor(token) == NamedCodes[i]
  {
    PresetOrderDistinct();
    var r := LookupName(Lower(token));
    assert r.Some?;
    assert PresetOrder[r.value] == PresetOrder[i];
  }

  /** Any other token resolves to "" exactly when it is not six bytes long once one leading '#' is dropped. */
  lemma ParseColorUnnamed(token: string)
    requires Lower(token) !in PresetOrder
    ensures ParseColor(token) == "" <==> |TrimHash(token)| != 6
  {
    assert LookupName(Lower(token)).None?;
  }

  /** A token that is six hex digits once one leading '#' is dropped. */
  predicate IsHexToken(token: string) {
    var hex := TrimHash(token);
    |hex| == 6 && forall i :: 0 <= i < |hex| ==> IsHexDigit(hex[i])
  }

  /**
   A palette name or a six-hex-digit token resolves to a non-empty escape, the
   foreground escape of a byte triple.
   */
  lemma ParseColorIsForeground(token: string)
    requires Lower(token) in PresetOrder || IsHexToken(token)
    ensures ParseColor(token) != ""
    ensures exists c :: IsByteTriple(c) && ParseColor(token) == Foreground(c)
  {
    match LookupName(Lower(token))
    case Some(i) =>
      NamedCodesAreForeground();
      assert ParseColor(token) == Foreground(PresetRgb[i]);
      assert IsByteTriple(PresetRgb[i]);
    case None =>
      var hex := TrimHash(token);
      var hash := |token| > 0 && token[0] == '#';
      assert token == (if hash then "#" else "") + hex;
      ParseColorHex(hex, hash);
      var c := Rgb(PairValue(hex, 0), PairValue(hex, 2), PairValue(hex, 4));
      assert IsByteTriple(c);
  }

  // ---------------------------------------------------------------------------
  // Round trip: printing a colour in hex and parsing it back

  /** `%02x` of a byte, in the chosen letter case. */
  function HexByte(v: nat, upper: bool): (s: string)
    requires v < 256
    ensures |s| == 2
  {
    [HexDigit(v / 16, upper), HexDigit(v % 16, upper)]
  }

  /** The six-digit hex form of a colour, as `RRGGBB`. */
  function HexString(c: Rgb, upper: bool): (s: string)
    requires IsByteTriple(c)
    ensures |s| == 6
  {
    HexByte(c.red, upper) + HexByte(c.green, upper) + HexByte(c.blue, upper)
  }

  /** A string starting with '#', or with two hex digits, is no palette name. */
  lemma NotAName(s: string)
    requires |s| >= 2 && (s[0] == '#' || (IsHexDigit(s[0]) && IsHexDigit(s[1])))
    ensures s !in PresetOrder
  {
    assert PresetOrder[0][0] == 'r' && PresetOrder[1][0] == 'g' && PresetOrder[2][0] == 'o';
    assert PresetOrder[3][0] == 'b' && PresetOrder[3][1] == 'l';
    assert PresetOrder[4][0] == 'p' && PresetOrder[5][0] == 'p';
  }

  /** Reading a byte's two hex digits back gives the byte. */
  lemma HexByteValue(v: nat, upper: bool, hex: string, i: nat)
    requires v < 256 && i + 1 < |hex| && hex[i..i + 2] == HexByte(v, upper)
    ensures HexPairAt(hex, i) && PairValue(hex, i) == v
  {
    assert hex[i] == HexByte(v, upper)[0] && hex[i + 1] == HexByte(v, upper)[1];
  }

  /** Scanning the six hex digits of a colour gives the colour back. */
  lemma ScanTripleHex(c: Rgb, upper: bool)
    requires IsByteTriple(c)
    ensures ScanTriple(HexString(c, upper)) == c
  {
    var hex := HexString(c, upper);
    HexByteValue(c.red, upper, hex, 0);
    HexByteValue(c.green, upper, hex, 2);
    HexByteValue(c.blue, upper, hex, 4);
  }

  /** A token of six hex digits, with or without a leading '#', is no palette name. */
  lemma HexTokenIsNoName(hex: string, hash: bool)
    requires |hex| == 6 && forall i :: 0 <= i < |hex| ==> IsHexDigit(hex[i])
    ensures Lower((if hash then "#" else "") + hex) !in PresetOrder
  {
    var token := (if hash then "#" else "") + hex;
    var low := Lower(token);
    if hash {
      assert token[0] == '#';
      assert low[0] == '#';
    } else {
      assert token == hex;
      LowerHexDigit(hex[0]);
      LowerHexDigit(hex[1]);
      assert low[0] == LowerChar(hex[0]) && low[1] == LowerChar(hex[1]);
    }
    NotAName(low);
  }

  /** Lower-casing keeps a hex digit a hex digit. */
  lemma LowerHexDigit(c: char)
    requires IsHexDigit(c)
    ensures IsHexDigit(LowerChar(c))
  {
  }

  /**
   Six hex digits in any mix of letter cases, with or without a leading '#',
   resolve to the escape of the three bytes they spell, pair by pair.
   */
  lemma ParseColorHex(hex: string, hash: bool)
    requires |hex| == 6 && forall i :: 0 <= i < 6 ==> IsHexDigit(hex[i])
    ensures ParseColor((if hash then "#" else "") + hex)
      == Foreground(Rgb(PairValue(hex, 0), PairValue(hex, 2), PairValue(hex, 4)))
  {
    var token := (if hash then "#" else "") + hex;
    assert TrimHash(token) == hex;
    HexTokenIsNoName(hex, hash);
    assert LookupName(Lower(token)).None?;
  }

  /**
   Printing a colour as six hex digits (either letter case, with or without a
   leading '#') and parsing it gives that colour's escape.
   */
  lemma ParseColorHexRoundTrip(c: Rgb, upper: bool, hash: bool)
    requires IsByteTriple(c)
    ensures ParseColor((if hash then "#" else "") + HexString(c, upper)) == Foreground(c)
  {
    var hex := HexString(c, upper);
    assert forall i :: 0 <= i < 6 ==> IsHexDigit(hex[i]);
    ParseColorHex(hex, hash);
    ScanTripleHex(c, upper);
  }
}
