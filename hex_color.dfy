/**
 * The integer part of the colour initialiser `Color(hex:)`: the text is
 * sanitised (surrounding whitespace trimmed, every `#` deleted), its leading
 * hexadecimal digits are scanned into an unsigned 64-bit value, and the red,
 * green and blue channels are the three low bytes of that value. The division
 * of each channel by 255 into a floating-point component is not modelled.
 */
module HexColor {

  // ---------------------------------------------------------------------------
  // Sanitising

  /**
   * Foundation's `whitespacesAndNewlines`: the Unicode space separators,
   * line and paragraph separators, U+0009 to U+000D, and U+0085.
   */
  predicate IsWhitespace(c: char)
  {
    ('\t' <= c <= '\r') || c == ' ' || c == '\U{85}' || c == '\U{A0}' || c == '\U{1680}' ||
    ('\U{2000}' <= c <= '\U{200A}') || c == '\U{2028}' || c == '\U{2029}' || c == '\U{202F}' ||
    c == '\U{205F}' || c == '\U{3000}'
  }

  /** The length of the run of whitespace that starts `s`. */
  function LeadingSpace(s: string): (n: nat)
    ensures n <= |s|
    ensures forall k :: 0 <= k < n ==> IsWhitespace(s[k])
    ensures n < |s| ==> !IsWhitespace(s[n])
  {
    if s != [] && IsWhitespace(s[0]) then 1 + LeadingSpace(s[1..]) else 0
  }

  /** The length of the run of whitespace that ends `s`. */
  function TrailingSpace(s: string): (n: nat)
    ensures n <= |s|
    ensures forall k :: |s| - n <= k < |s| ==> IsWhitespace(s[k])
    ensures n < |s| ==> !IsWhitespace(s[|s| - n - 1])
  {
    if s != [] && IsWhitespace(s[|s| - 1]) then 1 + TrailingSpace(s[..|s| - 1]) else 0
  }

  /**
   * `trimmingCharacters(in: .whitespacesAndNewlines)`: the result is no longer
   * than the input and neither starts nor ends with whitespace.
   */
  function Trim(s: string): (t: string)
    ensures |t| <= |s|
    ensures t != [] ==> !IsWhitespace(t[0]) && !IsWhitespace(t[|t| - 1])
  {
    var i := LeadingSpace(s);
    var rest := s[i..];
    var n := TrailingSpace(rest);
    assert |rest| - n > 0 ==> rest[..|rest| - n][0] == s[i] &&
                              rest[..|rest| - n][|rest| - n - 1] == rest[|rest| - n - 1];
    rest[..|rest| - n]
  }

  /**
   * Trimming cuts out the slice of `s` that lies between a run of leading and
   * a run of trailing whitespace.
   */
  lemma TrimSpec(s: string)
    ensures var i := LeadingSpace(s);
            var t := Trim(s);
            i + |t| <= |s| && t == s[i..i + |t|] &&
            (forall k :: 0 <= k < i ==> IsWhitespace(s[k])) &&
            (forall k :: i + |t| <= k < |s| ==> IsWhitespace(s[k]))
  {
    var i := LeadingSpace(s);
    var rest := s[i..];
    var n := TrailingSpace(rest);
    var t := Trim(s);
    assert t == s[i..|s| - n];
    forall k | i + |t| <= k < |s|
      ensures IsWhitespace(s[k])
    {
      assert s[k] == rest[k - i];
    }
  }

  /** `replacingOccurrences(of: "#", with: "")`. */
  function RemoveHashes(s: string): (r: string)
    ensures '#' !in r
    ensures forall c :: c != '#' ==> multiset(r)[c] == multiset(s)[c]
  {
    if s == [] then []
    else
      assert s == [s[0]] + s[1..];
      (if s[0] == '#' then [] else [s[0]]) + RemoveHashes(s[1..])
  }

  /** Deleting `#` works piecewise on a concatenation. */
  lemma {:induction false} RemoveHashesConcat(a: string, b: string)
    ensures RemoveHashes(a + b) == RemoveHashes(a) + RemoveHashes(b)
  {
    if a != [] {
      assert (a + b)[0] == a[0] && (a + b)[1..] == a[1..] + b;
      RemoveHashesConcat(a[1..], b);
    } else {
      assert a + b == b;
    }
  }

  /** A string without `#` is left as it is. */
  lemma {:induction false} RemoveHashesNone(s: string)
    requires '#' !in s
    ensures RemoveHashes(s) == s
  {
    if s != [] {
      RemoveHashesNone(s[1..]);
    }
  }

  /**
   * The string that is handed to the scanner: the trimmed text without any
   * `#`, every other character kept as often as it occurs there.
   */
  function Sanitize(hex: string): (s: string)
    ensures '#' !in s
    ensures forall c :: c != '#' ==> multiset(s)[c] == multiset(Trim(hex))[c]
  {
    RemoveHashes(Trim(hex))
  }

  /**
   * The sanitised string starts and ends without whitespace when the trimmed
   * string neither starts nor ends with `#`.
   */
  lemma SanitizedEnds(hex: string)
    requires Trim(hex) != [] ==> Trim(hex)[0] != '#' && Trim(hex)[|Trim(hex)| - 1] != '#'
    ensures var s := Sanitize(hex);
            s != [] ==> !IsWhitespace(s[0]) && !IsWhitespace(s[|s| - 1])
  {
    TrimSpec(hex);
    var t := Trim(hex);
    if t != [] {
      var n := |t|;
      assert Sanitize(hex)[0] == t[0];
      assert t == t[..n - 1] + [t[n - 1]];
      RemoveHashesConcat(t[..n - 1], [t[n - 1]]);
      assert RemoveHashes([t[n - 1]]) == [t[n - 1]];
    }
  }

  /**
   * Trimming happens before the `#` is deleted, so whitespace that follows a
   * leading `#` survives sanitising.
   */
  lemma SpaceAfterHashSurvives()
    ensures Sanitize("# ff") == " ff"
  {
    assert LeadingSpace("# ff") == 0;
    assert TrailingSpace("# ff") == 0;
    assert Trim("# ff") == "# ff";
    assert "# ff"[0] == '#' && "# ff"[1..] == " ff";
    RemoveHashesNone(" ff");
  }

  // ---------------------------------------------------------------------------
  // Scanning hexadecimal digits

  predicate IsHexDigit(c: char)
  {
    ('0' <= c <= '9') || ('a' <= c <= 'f') || ('A' <= c <= 'F')
  }

  predicate AllHexDigits(d: string)
  {
    forall k :: 0 <= k < |d| ==> IsHexDigit(d[k])
  }

  function DigitValue(c: char): (v: nat)
    requires IsHexDigit(c)
    ensures v < 16
  {
    if c <= '9' then c as int - '0' as int
    else if c <= 'F' then c as int - 'A' as int + 10
    else c as int - 'a' as int + 10
  }

  /** The lower-case digit for `v`. */
  function HexDigit(v: nat): (c: char)
    requires v < 16
    ensures IsHexDigit(c) && DigitValue(c) == v
  {
    if v < 10 then ('0' as int + v) as char else ('a' as int + v - 10) as char
  }

  /** The largest value of an unsigned 64-bit integer. */
  const UInt64Max: nat := 0xFFFF_FFFF_FFFF_FFFF

  /** Overflow of the scanned value stops at the largest 64-bit value. */
  function Saturate(x: nat): nat
  {
    if x > UInt64Max then UInt64Max else x
  }

  /** Scans the leading hex digits of `s` into the accumulator `acc`. */
  function ScanFrom(s: string, acc: nat): (r: nat)
    requires acc <= UInt64Max
    ensures acc <= r <= UInt64Max
  {
    if s != [] && IsHexDigit(s[0]) then ScanFrom(s[1..], Saturate(acc * 16 + DigitValue(s[0])))
    else acc
  }

  /**
   * `scanHexInt64` into a variable that starts at 0: an unsigned 64-bit
   * value, which stays 0 when the text does not start with a hex digit.
   */
  function ScanHex(s: string): (v: nat)
    ensures v <= UInt64Max
    ensures (s == [] || !IsHexDigit(s[0])) ==> v == 0
  {
    ScanFrom(s, 0)
  }

  /** The longest prefix of `s` made of hex digits. */
  function HexPrefix(s: string): (p: string)
    ensures |p| <= |s| && p == s[..|p|]
    ensures AllHexDigits(p)
    ensures |p| < |s| ==> !IsHexDigit(s[|p|])
  {
    if s != [] && IsHexDigit(s[0]) then [s[0]] + HexPrefix(s[1..]) else []
  }

  /** The positional value of a string of hex digits, last digit least significant. */
  function HexValue(d: string): nat
    requires AllHexDigits(d)
  {
    if d == [] then 0 else HexValue(d[..|d| - 1]) * 16 + DigitValue(d[|d| - 1])
  }

  /** The value of `v` followed by the digits `d`, reading the digits first to last. */
  function Shifted(v: nat, d: string): nat
    requires AllHexDigits(d)
    decreases |d|
  {
    if d == [] then v else Shifted(v * 16 + DigitValue(d[0]), d[1..])
  }

  lemma {:induction false} ShiftedSnoc(v: nat, d: string, c: char)
    requires AllHexDigits(d) && IsHexDigit(c)
    ensures AllHexDigits(d + [c])
    ensures Shifted(v, d + [c]) == Shifted(v, d) * 16 + DigitValue(c)
    decreases |d|
  {
    if d != [] {
      assert (d + [c])[0] == d[0] && (d + [c])[1..] == d[1..] + [c];
      ShiftedSnoc(v * 16 + DigitValue(d[0]), d[1..], c);
    }
  }

  lemma {:induction false} ShiftedFromZero(d: string)
    requires AllHexDigits(d)
    ensures Shifted(0, d) == HexValue(d)
  {
    if d != [] {
      var n := |d|;
      ShiftedFromZero(d[..n - 1]);
      assert d == d[..n - 1] + [d[n - 1]];
      ShiftedSnoc(0, d[..n - 1], d[n - 1]);
    }
  }

  lemma {:induction false} ScanFromShifted(s: string, v: nat)
    ensures ScanFrom(s, Saturate(v)) == Saturate(Shifted(v, HexPrefix(s)))
  {
    if s != [] && IsHexDigit(s[0]) {
      var p := HexPrefix(s);
      assert p[0] == s[0] && p[1..] == HexPrefix(s[1..]);
      var d := DigitValue(s[0]);
      assert Saturate(Saturate(v) * 16 + d) == Saturate(v * 16 + d);
      ScanFromShifted(s[1..], v * 16 + d);
    }
  }

  /**
   * The scanner yields the value of the leading hex digits, or the largest
   * 64-bit value once that overflows.
   */
  lemma ScanHexValue(s: string)
    ensures ScanHex(s) == Saturate(HexValue(HexPrefix(s)))
  {
    ScanFromShifted(s, 0);
    ShiftedFromZero(HexPrefix(s));
  }

  // ---------------------------------------------------------------------------
  // Channels

  datatype Rgb = Rgb(red: nat, green: nat, blue: nat)

  predicate IsByteColor(c: Rgb)
  {
    c.red < 256 && c.green < 256 && c.blue < 256
  }

  /**
   * `(n & 0xFF0000) >> 16`, `(n & 0x00FF00) >> 8` and `n & 0x0000FF`, which
   * for a non-negative `n` are its three low bytes, high to low.
   */
  function Channels(n: nat): (c: Rgb)
    ensures IsByteColor(c)
  {
    Rgb((n / 0x1_0000) % 0x100, (n / 0x100) % 0x100, n % 0x100)
  }

  /** The 24-bit value whose three bytes are `c`'s channels. */
  function Pack(c: Rgb): nat
  {
    c.red * 0x1_0000 + c.green * 0x100 + c.blue
  }

  lemma DivAfterHigh(q: nat, m: nat, d: nat)
    requires d == 0x100 || d == 0x1_0000
    requires m < 0x100_0000
    ensures (q * 0x100_0000 + m) / d == q * (0x100_0000 / d) + m / d
  {
    var k := 0x100_0000 / d;
    assert q * 0x100_0000 == q * k * d;
    assert q * 0x100_0000 + m == (q * k + m / d) * d + m % d;
  }

  lemma ByteAfterHigh(k: nat, a: nat)
    ensures (k * 0x100 + a) % 0x100 == a % 0x100
  {
    assert k * 0x100 + a == (k + a / 0x100) * 0x100 + a % 0x100;
  }

  /** The channels see only the low 24 bits of the scanned value. */
  lemma ChannelsLow24(n: nat)
    ensures Channels(n) == Channels(n % 0x100_0000)
  {
    var q, m := n / 0x100_0000, n % 0x100_0000;
    assert n == q * 0x100_0000 + m;
    DivAfterHigh(q, m, 0x1_0000);
    ByteAfterHigh(q, m / 0x1_0000);
    DivAfterHigh(q, m, 0x100);
    ByteAfterHigh(q * 0x100, m / 0x100);
    assert q * 0x1_0000 == q * 0x100 * 0x100;
    assert n % 0x100 == m % 0x100 by {
      ByteAfterHigh(q * 0x1_0000, m);
      assert q * 0x100_0000 == q * 0x1_0000 * 0x100;
    }
  }

  /** A 24-bit value is rebuilt from its channels. */
  lemma PackChannels(n: nat)
    requires n < 0x100_0000
    ensures Pack(Channels(n)) == n
  {
    var r, m := n / 0x1_0000, n % 0x1_0000;
    assert n == r * 0x1_0000 + m;
    assert n / 0x100 == r * 0x100 + m / 0x100;
  }

  /** A colour with byte channels is rebuilt from its packed value. */
  lemma ChannelsPack(c: Rgb)
    requires IsByteColor(c)
    ensures Channels(Pack(c)) == c
  {
    var n := Pack(c);
    assert n / 0x1_0000 == c.red;
    assert n / 0x100 == c.red * 0x100 + c.green;
  }

  /**
   * The channels `Color(hex:)` computes for `hex`, before the division by 255:
   * three bytes that pack back into the low 24 bits of the scanned value.
   */
  function Decode(hex: string): (c: Rgb)
    ensures IsByteColor(c)
    ensures Pack(c) == ScanHex(Sanitize(hex)) % 0x100_0000
  {
    var n := ScanHex(Sanitize(hex));
    ChannelsLow24(n);
    PackChannels(n % 0x100_0000);
    Channels(n)
  }

  /** Text with no leading hex digit once sanitised decodes to black. */
  lemma DecodeWithoutDigits(hex: string)
    requires Sanitize(hex) == [] || !IsHexDigit(Sanitize(hex)[0])
    ensures Decode(hex) == Rgb(0, 0, 0)
  {
    ScanHexValue(Sanitize(hex));
  }

  // ---------------------------------------------------------------------------
  // The "#rrggbb" notation

  /** Two lower-case hex digits for a byte. */
  function Hex2(v: nat): string
    requires v < 256
  {
    [HexDigit(v / 16), HexDigit(v % 16)]
  }

  /** The "#rrggbb" text of a colour with byte channels. */
  function Format(c: Rgb): string
    requires IsByteColor(c)
  {
    "#" + Hex2(c.red) + Hex2(c.green) + Hex2(c.blue)
  }

  lemma HexValueHex2(d: string, v: nat)
    requires AllHexDigits(d) && v < 256
    ensures AllHexDigits(d + Hex2(v))
    ensures HexValue(d + Hex2(v)) == HexValue(d) * 256 + v
  {
    var x, y := HexDigit(v / 16), HexDigit(v % 16);
    var e := d + [x];
    assert d + Hex2(v) == e + [y];
    assert (e + [y])[..|e|] == e;
    assert e[..|d|] == d;
  }

  lemma SanitizeFormat(c: Rgb)
    requires IsByteColor(c)
    ensures Sanitize(Format(c)) == Hex2(c.red) + Hex2(c.green) + Hex2(c.blue)
  {
    var h := Hex2(c.red) + Hex2(c.green) + Hex2(c.blue);
    var text := Format(c);
    assert text == ['#'] + h;
    assert LeadingSpace(text) == 0;
    assert TrailingSpace(text) == 0;
    assert text[0..] == text;
    assert Trim(text) == text;
    RemoveHashesConcat(['#'], h);
    assert RemoveHashes(['#']) == [];
    assert '#' !in h;
    RemoveHashesNone(h);
  }

  lemma HexValueFormat(c: Rgb)
    requires IsByteColor(c)
    ensures AllHexDigits(Hex2(c.red) + Hex2(c.green) + Hex2(c.blue))
    ensures HexValue(Hex2(c.red) + Hex2(c.green) + Hex2(c.blue)) == Pack(c)
  {
    HexValueHex2([], c.red);
    assert [] + Hex2(c.red) == Hex2(c.red);
    HexValueHex2(Hex2(c.red), c.green);
    HexValueHex2(Hex2(c.red) + Hex2(c.green), c.blue);
  }

  /** Every colour written as "#rrggbb" decodes back to its channels. */
  lemma DecodeFormat(c: Rgb)
    requires IsByteColor(c)
    ensures Decode(Format(c)) == c
  {
    var h := Hex2(c.red) + Hex2(c.green) + Hex2(c.blue);
    SanitizeFormat(c);
    HexValueFormat(c);
    assert HexPrefix(h) == h;
    ScanHexValue(h);
    ChannelsPack(c);
  }

  /** The button colour "#a2d8d9" is the product list's icon colour (162, 216, 217). */
  lemma ButtonColor()
    ensures Decode("#a2d8d9") == Rgb(162, 216, 217)
  {
    var c := Rgb(162, 216, 217);
    assert Format(c) == "#a2d8d9";
    DecodeFormat(c);
  }

  /** The text colour "#606367" is (96, 99, 103). */
  lemma TextColor()
    ensures Decode("#606367") == Rgb(96, 99, 103)
  {
    var c := Rgb(96, 99, 103);
    assert Format(c) == "#606367";
    DecodeFormat(c);
  }

  /** The background "#ffffff" is white. */
  lemma BackgroundColor()
    ensures Decode("#ffffff") == Rgb(255, 255, 255)
  {
    var c := Rgb(255, 255, 255);
    assert Format(c) == "#ffffff";
    DecodeFormat(c);
  }
}
