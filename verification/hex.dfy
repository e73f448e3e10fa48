/**
 * The colour encoder `rgbToHex`: three integer channels become `#RRGGBB`.
 * A channel is written with `Number.prototype.toString(16)`, padded with one
 * leading zero when that gives a single digit, and upper-cased. Nothing is
 * clamped, so a channel outside 0..255 yields a string that is not a
 * six-digit colour.
 */
module Hex {
  import opened Results
  import opened Strings

  /** One colour with its channels already scaled to integers */
  datatype Rgb = Rgb(r: int, g: int, b: int)

  predicate InRange(c: Rgb) {
    0 <= c.r < 256 && 0 <= c.g < 256 && 0 <= c.b < 256
  }

  predicate IsLowerHexDigit(c: char) {
    '0' <= c <= '9' || 'a' <= c <= 'f'
  }

  predicate IsUpperHexDigit(c: char) {
    '0' <= c <= '9' || 'A' <= c <= 'F'
  }

  /** The lower-case digit `toString(16)` writes for `d` */
  function DigitChar(d: nat): (c: char)
    requires d < 16
    ensures IsLowerHexDigit(c)
  {
    if d < 10 then ('0' as int + d) as char else ('a' as int + d - 10) as char
  }

  /** The value of a hexadecimal digit of either case */
  function DigitValue(c: char): (d: nat)
    requires IsLowerHexDigit(c) || IsUpperHexDigit(c)
    ensures d < 16
  {
    if '0' <= c <= '9' then c as int - '0' as int
    else if 'a' <= c <= 'f' then c as int - 'a' as int + 10
    else c as int - 'A' as int + 10
  }

  /** The base-16 digits of `n`, most significant first, with no leading zero */
  function Digits(n: nat): (r: string)
    ensures 1 <= |r|
    ensures |r| == 1 <==> n < 16
    ensures |r| <= 2 <==> n < 256
    ensures forall i :: 0 <= i < |r| ==> IsLowerHexDigit(r[i])
  {
    if n < 16 then [DigitChar(n)] else Digits(n / 16) + [DigitChar(n % 16)]
  }

  /** `n.toString(16)` for an integer `n`: a sign only for negatives, then the digits of the magnitude */
  function ToRadix16(n: int): (r: string)
    ensures 1 <= |r|
    ensures r[0] == '-' <==> n < 0
    ensures |r| == 1 <==> 0 <= n < 16
    ensures n >= 0 ==> forall i :: 0 <= i < |ToUpper(r)| ==> IsUpperHexDigit(ToUpper(r)[i])
    ensures n >= 0 ==> ParseHex(ToUpper(r)) == n
  {
    ParseDigits(if n < 0 then -n else n);
    if n < 0 then "-" + Digits(-n) else Digits(n)
  }

  /** The value of a string of hexadecimal digits of either case */
  function ParseHex(s: string): nat
    requires forall i :: 0 <= i < |s| ==> IsLowerHexDigit(s[i]) || IsUpperHexDigit(s[i])
  {
    if |s| == 0 then 0 else 16 * ParseHex(s[..|s| - 1]) + DigitValue(s[|s| - 1])
  }

  /** Reading back the upper-cased digits of `n` gives `n` */
  lemma {:induction false} ParseDigits(n: nat)
    ensures forall i :: 0 <= i < |ToUpper(Digits(n))| ==> IsUpperHexDigit(ToUpper(Digits(n))[i])
    ensures ParseHex(ToUpper(Digits(n))) == n
  {
    var u := ToUpper(Digits(n));
    if n < 16 {
      assert u == [UpperChar(DigitChar(n))];
      assert u[..0] == [];
    } else {
      ParseDigits(n / 16);
      ToUpperAppend(Digits(n / 16), [DigitChar(n % 16)]);
      assert u[..|u| - 1] == ToUpper(Digits(n / 16));
    }
  }

  /** Exactly two upper-case hex digits */
  predicate IsTwoDigits(s: string) {
    |s| == 2 && IsUpperHexDigit(s[0]) && IsUpperHexDigit(s[1])
  }

  /** One channel as `rgbToHex` writes it: hex, zero-padded to two characters, upper-cased */
  function Channel(n: int): (r: string)
    ensures 2 <= |r|
    ensures IsTwoDigits(r) <==> 0 <= n < 256
    ensures 0 <= n < 256 ==> ParseHex(r) == n
    ensures n >= 256 ==> |r| >= 3
  {
    var h := ToRadix16(n);
    var padded := if |h| == 1 then "0" + h else h;
    ChannelDigits(n);
    ToUpper(padded)
  }

  lemma ChannelDigits(n: int)
    ensures 0 <= n < 256 ==>
      var h := ToRadix16(n);
      var u := ToUpper(if |h| == 1 then "0" + h else h);
      ParseHex(u) == n && IsUpperHexDigit(u[0]) && IsUpperHexDigit(u[1])
  {
    if 0 <= n < 16 {
      var h := ToRadix16(n);
      assert h == [DigitChar(n)];
      var u := ToUpper("0" + h);
      assert u == ['0', UpperChar(DigitChar(n))];
      assert u[..1] == ['0'] && u[..1][..0] == [];
      assert ParseHex(u[..1]) == 0;
    } else if 16 <= n < 256 {
      ParseDigits(n);
    }
  }

  /** The shape of a well-formed colour: `#` and six upper-case hex digits */
  predicate IsHexColor(s: string) {
    |s| == 7 && s[0] == '#' && forall i :: 1 <= i < 7 ==> IsUpperHexDigit(s[i])
  }

  /** `rgbToHex` on already-rounded channels */
  function RgbToHex(c: Rgb): (r: string)
    ensures InRange(c) <==> IsHexColor(r)
    ensures InRange(c) ==> ParseHexColor(r) == Some(c)
    ensures c.r >= 256 || c.g >= 256 || c.b >= 256 ==> |r| > 7
  {
    var x, y, z := Channel(c.r), Channel(c.g), Channel(c.b);
    ColorLayout(x, y, z);
    "#" + x + y + z
  }

  lemma ColorLayout(x: string, y: string, z: string)
    requires 2 <= |x| && 2 <= |y| && 2 <= |z|
    ensures IsHexColor("#" + x + y + z) <==> IsTwoDigits(x) && IsTwoDigits(y) && IsTwoDigits(z)
    ensures IsHexColor("#" + x + y + z) ==>
      var r := "#" + x + y + z;
      r[1..3] == x && r[3..5] == y && r[5..7] == z
  {
    var r := "#" + x + y + z;
    if |r| == 7 {
      assert |x| == 2 && |y| == 2 && |z| == 2;
      assert r[1] == x[0] && r[2] == x[1];
      assert r[3] == y[0] && r[4] == y[1];
      assert r[5] == z[0] && r[6] == z[1];
      assert r[1..3] == x && r[3..5] == y && r[5..7] == z;
    }
  }

  /** Reads a well-formed colour back into its three channels */
  function ParseHexColor(s: string): Option<Rgb> {
    if IsHexColor(s) then
      Some(Rgb(ParseHex(s[1..3]), ParseHex(s[3..5]), ParseHex(s[5..7])))
    else None
  }

  lemma BlackIsAllZeros()
    ensures RgbToHex(Rgb(0, 0, 0)) == "#000000"
  {
    ChannelExtremes();
  }

  lemma RedIsFF0000()
    ensures RgbToHex(Rgb(255, 0, 0)) == "#FF0000"
  {
    ChannelExtremes();
  }

  lemma ChannelExtremes()
    ensures Channel(0) == "00"
    ensures Channel(255) == "FF"
  {
    assert Digits(0) == "0";
    assert Digits(15) == "f";
    assert Digits(255) == "ff";
  }

  lemma WhiteIsAllFs()
    ensures RgbToHex(Rgb(255, 255, 255)) == "#FFFFFF"
  {
    ChannelExtremes();
  }
}
