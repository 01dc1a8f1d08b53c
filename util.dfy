/**
 * util.py: `parse_hex`, which checks a string against `^#[0-9a-fA-F]{6}$`
 * with `re.match`, raises ValueError when it does not match, and otherwise
 * returns the three two-digit pairs at positions 1, 3 and 5, each read as a
 * base-16 integer and divided by 255. Reals are exact here, so `k / 255` is
 * the exact quotient.
 */
module Util {
  import opened Wrappers
  import PyRe

  /** The ValueError("Invalid hex color") that parse_hex raises. */
  datatype ParseError = InvalidHexColor

  /** The (r, g, b) tuple parse_hex returns. */
  datatype Rgb = Rgb(r: real, g: real, b: real)

  /** `[0-9a-fA-F]` */
  const HexClass: PyRe.Atom := PyRe.Class([('0', '9'), ('a', 'f'), ('A', 'F')])

  /** `^#[0-9a-fA-F]{6}$` */
  const HexPattern: seq<PyRe.Piece> := [PyRe.Piece(PyRe.Literal('#'), 1), PyRe.Piece(HexClass, 6)]

  predicate IsHexDigit(c: char)
  {
    '0' <= c <= '9' || 'a' <= c <= 'f' || 'A' <= c <= 'F'
  }

  predicate AllHexDigits(digits: string)
  {
    forall i :: 0 <= i < |digits| ==> IsHexDigit(digits[i])
  }

  /** What parse_hex accepts: '#', six hex digits of either case, and at most one final newline. */
  predicate IsHexColor(s: string)
  {
    && (|s| == 7 || (|s| == 8 && s[7] == '\n'))
    && s[0] == '#'
    && forall i :: 1 <= i < 7 ==> IsHexDigit(s[i])
  }

  /** The value of one hex digit. */
  function DigitValue(c: char): (v: nat)
    requires IsHexDigit(c)
    ensures v < 16
  {
    if '0' <= c <= '9' then c as int - '0' as int
    else if 'a' <= c <= 'f' then c as int - 'a' as int + 10
    else c as int - 'A' as int + 10
  }

  function Pow16(n: nat): (p: nat)
    ensures p >= 1
  {
    if n == 0 then 1 else 16 * Pow16(n - 1)
  }

  /** Python's `int(digits, 16)` on a non-empty string of hex digits. */
  function HexInt(digits: string): (v: nat)
    requires |digits| > 0 && AllHexDigits(digits)
    ensures v < Pow16(|digits|)
    ensures |digits| == 2 ==> v == 16 * DigitValue(digits[0]) + DigitValue(digits[1])
    decreases |digits|
  {
    var last := |digits| - 1;
    if last == 0 then DigitValue(digits[0])
    else 16 * HexInt(digits[..last]) + DigitValue(digits[last])
  }

  /** The byte written by the two hex digits at positions i and i + 1, high digit first. */
  function ByteAt(s: string, i: nat): (v: nat)
    requires i + 1 < |s| && IsHexDigit(s[i]) && IsHexDigit(s[i + 1])
    ensures v <= 255
  {
    16 * DigitValue(s[i]) + DigitValue(s[i + 1])
  }

  /** A channel value `k / 255`. */
  function Channel(k: int): real
  {
    k as real / 255.0
  }

  predicate InUnitRange(c: Rgb)
  {
    0.0 <= c.r <= 1.0 && 0.0 <= c.g <= 1.0 && 0.0 <= c.b <= 1.0
  }

  /** parse_hex (util.py:4-7). */
  function ParseHex(s: string): (r: Result<Rgb, ParseError>)
    ensures r.Ok? <==> IsHexColor(s)
    ensures r.Err? ==> r.error == InvalidHexColor
    ensures r.Ok? ==> r.value == Rgb(Channel(ByteAt(s, 1)), Channel(ByteAt(s, 3)), Channel(ByteAt(s, 5)))
    ensures r.Ok? ==> InUnitRange(r.value)
  {
    HexPatternMatch(s);
    if !PyRe.Match(HexPattern, s) then Err(InvalidHexColor)
    else
      PairValue(s, 1);
      PairValue(s, 3);
      PairValue(s, 5);
      Ok(Rgb(Channel(HexInt(s[1..3])), Channel(HexInt(s[3..5])), Channel(HexInt(s[5..7]))))
  }

  lemma HexClassIsHexDigit(c: char)
    ensures PyRe.AtomMatches(HexClass, c) <==> IsHexDigit(c)
  {
    var ranges := [('0', '9'), ('a', 'f'), ('A', 'F')];
    if IsHexDigit(c) {
      if '0' <= c <= '9' { assert ranges[0].0 <= c <= ranges[0].1; }
      else if 'a' <= c <= 'f' { assert ranges[1].0 <= c <= ranges[1].1; }
      else { assert ranges[2].0 <= c <= ranges[2].1; }
    }
  }

  /** The regular expression accepts exactly the strings IsHexColor describes. */
  lemma HexPatternMatch(s: string)
    ensures PyRe.Match(HexPattern, s) <==> IsHexColor(s)
  {
    var hash := PyRe.Literal('#');
    var digits := [PyRe.Piece(HexClass, 6)];
    assert HexPattern == [PyRe.Piece(hash, 1)] + digits;
    PyRe.MatchRepeat(hash, 1, digits, s);
    if |s| >= 1 {
      var t := s[1..];
      assert digits == [PyRe.Piece(HexClass, 6)] + [];
      PyRe.MatchRepeat(HexClass, 6, [], t);
      if |s| >= 7 {
        forall i | 0 <= i < 6
          ensures t[i] == s[i + 1]
          ensures PyRe.AtomMatches(HexClass, t[i]) <==> IsHexDigit(t[i])
        {
          HexClassIsHexDigit(t[i]);
        }
        assert t[6..] == s[7..];
        assert s[7..] == [] <==> |s| == 7;
        assert s[7..] == ['\n'] <==> |s| == 8 && s[7] == '\n';
        assert (forall i :: 1 <= i < 7 ==> IsHexDigit(s[i])) <==> (forall i :: 0 <= i < 6 ==> IsHexDigit(t[i])) by {
          forall i | 1 <= i < 7 ensures s[i] == t[i - 1] { }
        }
      }
    }
  }

  /** Python's `int(s[i:i+2], 16)` is the byte the two digits write. */
  lemma PairValue(s: string, i: nat)
    requires i + 1 < |s| && IsHexDigit(s[i]) && IsHexDigit(s[i + 1])
    ensures AllHexDigits(s[i..i + 2]) && HexInt(s[i..i + 2]) == ByteAt(s, i)
  {
    var p := s[i..i + 2];
    assert p[..1] == [s[i]] && p[1] == s[i + 1];
  }

  /** ASCII lower-casing; characters other than 'A'..'Z' are unchanged. */
  function ToLower(c: char): char
  {
    if 'A' <= c <= 'Z' then (c as int - 'A' as int + 'a' as int) as char else c
  }

  predicate SameIgnoringCase(s: string, t: string)
  {
    |s| == |t| && forall i :: 0 <= i < |s| ==> ToLower(s[i]) == ToLower(t[i])
  }

  /** Lower-casing keeps a character a hex digit (or a non-digit) and keeps its value. */
  lemma ToLowerHexDigit(c: char)
    ensures IsHexDigit(ToLower(c)) <==> IsHexDigit(c)
    ensures IsHexDigit(c) ==> DigitValue(ToLower(c)) == DigitValue(c)
    ensures ToLower(c) == '#' <==> c == '#'
    ensures ToLower(c) == '\n' <==> c == '\n'
  {
  }

  /** Two hex digits with the same value are the same digit up to case. */
  lemma DigitValueInjective(c: char, d: char)
    requires IsHexDigit(c) && IsHexDigit(d) && DigitValue(c) == DigitValue(d)
    ensures ToLower(c) == ToLower(d)
  {
  }

  /** Decoding ignores case: strings that differ only in letter case decode alike (or fail alike). */
  lemma ParseHexIgnoresCase(s: string, t: string)
    requires SameIgnoringCase(s, t)
    ensures ParseHex(s) == ParseHex(t)
  {
    forall i | 0 <= i < |s|
      ensures IsHexDigit(s[i]) <==> IsHexDigit(t[i])
      ensures IsHexDigit(s[i]) ==> DigitValue(s[i]) == DigitValue(t[i])
      ensures s[i] == '#' <==> t[i] == '#'
      ensures s[i] == '\n' <==> t[i] == '\n'
    {
      ToLowerHexDigit(s[i]);
      ToLowerHexDigit(t[i]);
    }
    if |s| > 0 {
      assert IsHexColor(s) <==> IsHexColor(t);
    }
  }

  /** Decoding is injective up to case: equal triples come from the same six digits ignoring case. */
  lemma ParseHexInjective(s: string, t: string)
    requires ParseHex(s).Ok? && ParseHex(s) == ParseHex(t)
    ensures SameIgnoringCase(s[..7], t[..7])
  {
    var c := ParseHex(s).value;
    assert c == ParseHex(t).value;
    assert c.r == Channel(ByteAt(s, 1)) == Channel(ByteAt(t, 1));
    assert c.g == Channel(ByteAt(s, 3)) == Channel(ByteAt(t, 3));
    assert c.b == Channel(ByteAt(s, 5)) == Channel(ByteAt(t, 5));
    ChannelInjective(ByteAt(s, 1), ByteAt(t, 1));
    ChannelInjective(ByteAt(s, 3), ByteAt(t, 3));
    ChannelInjective(ByteAt(s, 5), ByteAt(t, 5));
    ByteAtInjective(s, t, 1);
    ByteAtInjective(s, t, 3);
    ByteAtInjective(s, t, 5);
    assert ToLower(s[0]) == ToLower(t[0]);
  }

  lemma ChannelInjective(j: int, k: int)
    requires Channel(j) == Channel(k)
    ensures j == k
  {
    assert j as real == Channel(j) * 255.0;
  }

  /** Equal bytes are written by the same two digits up to case. */
  lemma ByteAtInjective(s: string, t: string, i: nat)
    requires i + 1 < |s| && IsHexDigit(s[i]) && IsHexDigit(s[i + 1])
    requires i + 1 < |t| && IsHexDigit(t[i]) && IsHexDigit(t[i + 1])
    requires ByteAt(s, i) == ByteAt(t, i)
    ensures ToLower(s[i]) == ToLower(t[i]) && ToLower(s[i + 1]) == ToLower(t[i + 1])
  {
    assert DigitValue(s[i]) == DigitValue(t[i]);
    DigitValueInjective(s[i], t[i]);
    DigitValueInjective(s[i + 1], t[i + 1]);
  }

  /** The `$` quirk: one trailing newline after seven characters changes nothing. */
  lemma ParseHexTrailingNewline(s: string)
    requires |s| == 7
    ensures ParseHex(s + "\n") == ParseHex(s)
  {
    var t := s + "\n";
    assert forall i :: 0 <= i < 7 ==> t[i] == s[i];
    if IsHexColor(s) {
      assert IsHexColor(t);
    }
  }

  /** Sample decodes: black, white and the default primary colour. */
  lemma ParseHexExamples()
    ensures ParseHex("#000000") == Ok(Rgb(0.0, 0.0, 0.0))
    ensures ParseHex("#ffffff") == Ok(Rgb(1.0, 1.0, 1.0))
    ensures ParseHex("#ff4b4b") == Ok(Rgb(1.0, 75.0 / 255.0, 75.0 / 255.0))
  {
    DecodesTo("#000000", 0, 0, 0);
    DecodesTo("#ffffff", 255, 255, 255);
    DecodesTo("#ff4b4b", 255, 75, 75);
  }

  /** Upper case and one trailing newline decode like the canonical form. */
  lemma ParseHexQuirkExample()
    ensures ParseHex("#FF4B4B\n") == ParseHex("#ff4b4b")
  {
    ParseHexTrailingNewline("#FF4B4B");
    assert "#FF4B4B" + "\n" == "#FF4B4B\n";
    ParseHexIgnoresCase("#FF4B4B", "#ff4b4b");
  }

  lemma DecodesTo(s: string, r: nat, g: nat, b: nat)
    requires IsHexColor(s)
    requires ByteAt(s, 1) == r && ByteAt(s, 3) == g && ByteAt(s, 5) == b
    ensures ParseHex(s) == Ok(Rgb(r as real / 255.0, g as real / 255.0, b as real / 255.0))
  {
  }

  /** Sample rejections: empty, no '#', five or seven digits, a non-hex digit, extra whitespace. */
  lemma ParseHexRejects()
    ensures ParseHex("") == Err(InvalidHexColor)
    ensures ParseHex("123456") == Err(InvalidHexColor)
    ensures ParseHex("#12345") == Err(InvalidHexColor)
    ensures ParseHex("#1234567") == Err(InvalidHexColor)
    ensures ParseHex("#gggggg") == Err(InvalidHexColor)
    ensures ParseHex("#ff4b4b\n\n") == Err(InvalidHexColor)
    ensures ParseHex("#ff4b4b ") == Err(InvalidHexColor)
  {
    assert !IsHexDigit('g');
    assert "#gggggg"[1] == 'g';
    assert "#1234567"[7] == '7';
    assert "#ff4b4b "[7] == ' ';
  }
}
