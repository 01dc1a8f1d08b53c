/**
 * The colour formatter `f"#{r:02x}{g:02x}{b:02x}"` that `sync_hls_to_rgb`
 * (app.py:46) and `on_hls_change` (fragments.py:22) both use, applied to
 * `round(c * 255)` for each channel c. Python's `02x` writes an int in
 * lower-case base 16, zero-padded to two characters; a negative int gets a
 * '-' sign before its digits. Python's `round` rounds half to even; here it
 * acts on exact reals.
 */
module HexFormat {
  import opened Wrappers
  import opened Util

  predicate IsLowerHexDigit(c: char)
  {
    '0' <= c <= '9' || 'a' <= c <= 'f'
  }

  predicate AllLowerHex(s: string)
  {
    forall i :: 0 <= i < |s| ==> IsLowerHexDigit(s[i])
  }

  /** The lower-case digit that Python's 'x' format writes for v. */
  function LowerDigit(v: nat): (c: char)
    requires v < 16
    ensures IsLowerHexDigit(c) && IsHexDigit(c) && DigitValue(c) == v
  {
    if v < 10 then ('0' as int + v) as char else ('a' as int + v - 10) as char
  }

  /** `format(n, 'x')` for n >= 0: base-16 digits, no leading zero. */
  function HexDigits(n: nat): (s: string)
    ensures |s| > 0 && AllLowerHex(s) && AllHexDigits(s)
    ensures HexInt(s) == n
    ensures |s| == 1 <==> n < 16
    ensures |s| == 2 <==> 16 <= n < 256
    decreases n
  {
    if n < 16 then [LowerDigit(n)]
    else
      var high := HexDigits(n / 16);
      var s := high + [LowerDigit(n % 16)];
      assert s[..|s| - 1] == high;
      s
  }

  /** `format(n, '02x')`: the sign, then the digits zero-padded to a width of two. */
  function Format02x(n: int): (s: string)
    ensures |s| >= 2
    ensures forall i :: 0 <= i < |s| ==> IsHexDigit(s[i]) || s[i] == '-'
    ensures (|s| == 2 && AllHexDigits(s)) <==> 0 <= n <= 255
    ensures 0 <= n <= 255 ==> AllLowerHex(s) && HexInt(s) == n
  {
    if n < 0 then
      var s := "-" + HexDigits(-n);
      assert !IsHexDigit(s[0]);
      s
    else
      var d := HexDigits(n);
      if |d| < 2 then
        var s := "0" + d;
        assert s[..1] == "0" && s[1] == d[0];
        s
      else d
  }

  /** `f"#{r:02x}{g:02x}{b:02x}"` */
  function FormatHex(r: int, g: int, b: int): (s: string)
    ensures |s| >= 7 && s[0] == '#'
  {
    "#" + Format02x(r) + Format02x(g) + Format02x(b)
  }

  predicate IsByte(k: int)
  {
    0 <= k <= 255
  }

  /** Python's built-in `round` on an exact real: nearest integer, ties to even. */
  function Round(y: real): (k: int)
    ensures -0.5 <= k as real - y <= 0.5
    ensures (k as real - y == 0.5 || y - k as real == 0.5) ==> k % 2 == 0
  {
    var f := y.Floor;
    var frac := y - f as real;
    if frac < 0.5 then f
    else if frac > 0.5 then f + 1
    else if f % 2 == 0 then f
    else f + 1
  }

  /** `round(c * 255)` */
  function ToByte(c: real): (k: int)
    ensures 0.0 <= c <= 1.0 ==> IsByte(k)
  {
    Round(c * 255.0)
  }

  /** For bytes the formatter writes '#' and two lower-case digits per channel, in r, g, b order. */
  lemma FormatHexShape(r: int, g: int, b: int)
    requires IsByte(r) && IsByte(g) && IsByte(b)
    ensures var s := FormatHex(r, g, b);
      && |s| == 7 && s[0] == '#'
      && (forall i :: 1 <= i < 7 ==> IsLowerHexDigit(s[i]) && IsHexDigit(s[i]))
      && ByteAt(s, 1) == r && ByteAt(s, 3) == g && ByteAt(s, 5) == b
  {
    var s := FormatHex(r, g, b);
    var x, y, z := Format02x(r), Format02x(g), Format02x(b);
    assert s == "#" + x + y + z;
    assert s[1..3] == x && s[3..5] == y && s[5..7] == z;
    assert forall i :: 1 <= i < 3 ==> s[i] == x[i - 1];
    assert forall i :: 3 <= i < 5 ==> s[i] == y[i - 3];
    assert forall i :: 5 <= i < 7 ==> s[i] == z[i - 5];
    PairValue(s, 1);
    PairValue(s, 3);
    PairValue(s, 5);
  }

  /** Round trip: parse_hex accepts the formatter's output and gives back k / 255 per channel. */
  lemma FormatParseRoundTrip(r: int, g: int, b: int)
    requires IsByte(r) && IsByte(g) && IsByte(b)
    ensures ParseHex(FormatHex(r, g, b)) == Ok(Rgb(Channel(r), Channel(g), Channel(b)))
  {
    FormatHexShape(r, g, b);
  }

  /** parse_hex accepts the formatter's output exactly when every channel is a byte. */
  lemma FormatAcceptedIffBytes(r: int, g: int, b: int)
    ensures ParseHex(FormatHex(r, g, b)).Ok? <==> IsByte(r) && IsByte(g) && IsByte(b)
  {
    if IsByte(r) && IsByte(g) && IsByte(b) {
      FormatHexShape(r, g, b);
    } else {
      var s := FormatHex(r, g, b);
      var x, y, z := Format02x(r), Format02x(g), Format02x(b);
      assert s == "#" + x + y + z;
      if |s| == 7 {
        assert |x| == 2 && |y| == 2 && |z| == 2;
        if !IsByte(r) {
          assert !AllHexDigits(x);
          var i :| 0 <= i < 2 && !IsHexDigit(x[i]);
          assert s[1 + i] == x[i];
        } else if !IsByte(g) {
          assert !AllHexDigits(y);
          var i :| 0 <= i < 2 && !IsHexDigit(y[i]);
          assert s[3 + i] == y[i];
        } else {
          assert !AllHexDigits(z);
          var i :| 0 <= i < 2 && !IsHexDigit(z[i]);
          assert s[5 + i] == z[i];
        }
      } else if |s| == 8 {
        assert s[7] == z[|z| - 1];
      }
    }
  }

  lemma ToByteOfChannel(k: int)
    requires IsByte(k)
    ensures ToByte(Channel(k)) == k
  {
    assert Channel(k) * 255.0 == k as real;
  }

  /**
   * hex -> rgb -> hex: formatting the bytes of a parsed colour gives back its
   * six digits in lower case, without any trailing newline.
   */
  lemma ParseFormatRoundTrip(h: string)
    requires ParseHex(h).Ok?
    ensures var c := ParseHex(h).value;
      var s := FormatHex(ToByte(c.r), ToByte(c.g), ToByte(c.b));
      |s| == 7 && s[0] == '#' && forall i :: 1 <= i < 7 ==> s[i] == ToLower(h[i])
  {
    var c := ParseHex(h).value;
    var r, g, b := ByteAt(h, 1), ByteAt(h, 3), ByteAt(h, 5);
    ToByteOfChannel(r);
    ToByteOfChannel(g);
    ToByteOfChannel(b);
    var s := FormatHex(r, g, b);
    FormatHexShape(r, g, b);
    FormatDigitsAreLowered(s, h, 1);
    FormatDigitsAreLowered(s, h, 3);
    FormatDigitsAreLowered(s, h, 5);
  }

  lemma FormatDigitsAreLowered(s: string, h: string, i: nat)
    requires i + 1 < |s| && i + 1 < |h|
    requires IsLowerHexDigit(s[i]) && IsLowerHexDigit(s[i + 1])
    requires IsHexDigit(h[i]) && IsHexDigit(h[i + 1])
    requires ByteAt(s, i) == ByteAt(h, i)
    ensures s[i] == ToLower(h[i]) && s[i + 1] == ToLower(h[i + 1])
  {
    ByteAtInjective(s, h, i);
  }

  /** For a canonical lower-case colour, format(parse(h)) == h. */
  lemma CanonicalRoundTrip(h: string)
    requires |h| == 7 && h[0] == '#' && AllLowerHex(h[1..])
    ensures ParseHex(h).Ok?
    ensures var c := ParseHex(h).value; FormatHex(ToByte(c.r), ToByte(c.g), ToByte(c.b)) == h
  {
    assert forall i :: 1 <= i < 7 ==> h[i] == h[1..][i - 1];
    ParseFormatRoundTrip(h);
  }

  /**
   * Whatever channels in [0, 1] the HLS conversion yields, the string written
   * to the session state is one that parse_hex accepts.
   */
  lemma UnitChannelsFormatAccepted(r: real, g: real, b: real)
    requires 0.0 <= r <= 1.0 && 0.0 <= g <= 1.0 && 0.0 <= b <= 1.0
    ensures ParseHex(FormatHex(ToByte(r), ToByte(g), ToByte(b))).Ok?
  {
    FormatAcceptedIffBytes(ToByte(r), ToByte(g), ToByte(b));
  }
}
