/**
 * fragments.py: the parse-then-classify logic of `contrast_summary`. Both
 * colours go through parse_hex first, so a malformed one raises ValueError
 * before any contrast is computed; the ratio then selects one of three badges,
 * AAA before AA before Fail.
 *
 * The contrast ratio and the `passes_AAA` / `passes_AA` tests come from a
 * library whose code is not part of this model, so they are parameters. The
 * WCAG 2.1 thresholds (at least 7 for Success Criterion 1.4.6, at least 4.5
 * for Success Criterion 1.4.3) are given as one instance of them.
 */
module Fragments {
  import opened Wrappers
  import opened Util

  /** The three badges contrast_summary can show. */
  datatype Badge = AAA | AA | Fail

  /** What contrast_summary shows: the ratio (as a metric) and the badge. */
  datatype Summary = Summary(ratio: real, badge: Badge)

  /** The if / elif / else over the two pass tests (fragments.py:55-60). */
  function ChooseBadge(ratio: real, passesAAA: real -> bool, passesAA: real -> bool): Badge
  {
    if passesAAA(ratio) then AAA
    else if passesAA(ratio) then AA
    else Fail
  }

  /** contrast_summary (fragments.py:47-60) without the rendering calls. */
  function ContrastSummary(foreground: string, background: string,
                           contrastRatio: (Rgb, Rgb) -> real,
                           passesAAA: real -> bool, passesAA: real -> bool): (r: Result<Summary, ParseError>)
    ensures r.Ok? <==> IsHexColor(foreground) && IsHexColor(background)
    ensures r.Err? ==> r.error == InvalidHexColor
    ensures r.Ok? ==>
      var ratio := contrastRatio(ParseHex(foreground).value, ParseHex(background).value);
      r.value.ratio == ratio && r.value.badge == ChooseBadge(ratio, passesAAA, passesAA)
  {
    match ParseHex(foreground)
    case Err(e) => Err(e)
    case Ok(fg) =>
      match ParseHex(background)
      case Err(e) => Err(e)
      case Ok(bg) =>
        var ratio := contrastRatio(fg, bg);
        Ok(Summary(ratio, ChooseBadge(ratio, passesAAA, passesAA)))
  }

  /** A malformed colour raises whatever the contrast library would have said. */
  lemma MalformedIgnoresContrast(foreground: string, background: string,
                                 ratio1: (Rgb, Rgb) -> real, aaa1: real -> bool, aa1: real -> bool,
                                 ratio2: (Rgb, Rgb) -> real, aaa2: real -> bool, aa2: real -> bool)
    requires !IsHexColor(foreground) || !IsHexColor(background)
    ensures ContrastSummary(foreground, background, ratio1, aaa1, aa1) == Err(InvalidHexColor)
    ensures ContrastSummary(foreground, background, ratio1, aaa1, aa1)
         == ContrastSummary(foreground, background, ratio2, aaa2, aa2)
  {
  }

  /** Each badge is chosen exactly under its own condition: AAA first, Fail only if both tests fail. */
  lemma ChooseBadgeCases(ratio: real, passesAAA: real -> bool, passesAA: real -> bool)
    ensures ChooseBadge(ratio, passesAAA, passesAA) == AAA <==> passesAAA(ratio)
    ensures ChooseBadge(ratio, passesAAA, passesAA) == AA <==> !passesAAA(ratio) && passesAA(ratio)
    ensures ChooseBadge(ratio, passesAAA, passesAA) == Fail <==> !passesAAA(ratio) && !passesAA(ratio)
  {
  }

  /** Fail < AA < AAA */
  function Rank(b: Badge): nat
  {
    match b
    case Fail => 0
    case AA => 1
    case AAA => 2
  }

  /** A pass test that a higher ratio never fails once a lower one passes. */
  ghost predicate UpwardClosed(passes: real -> bool)
  {
    forall x: real, y: real :: x <= y && passes(x) ==> passes(y)
  }

  /** With upward-closed pass tests, a higher ratio never gets a lower badge. */
  lemma ChooseBadgeMonotone(x: real, y: real, passesAAA: real -> bool, passesAA: real -> bool)
    requires UpwardClosed(passesAAA) && UpwardClosed(passesAA)
    requires x <= y
    ensures Rank(ChooseBadge(x, passesAAA, passesAA)) <= Rank(ChooseBadge(y, passesAAA, passesAA))
  {
    if passesAAA(x) {
      assert passesAAA(y);
    } else if passesAA(x) {
      assert passesAA(y);
    }
  }

  /** WCAG 2.1 Success Criterion 1.4.6 (enhanced contrast), normal text. */
  function PassesAAA(ratio: real): bool
  {
    ratio >= 7.0
  }

  /** WCAG 2.1 Success Criterion 1.4.3 (minimum contrast), normal text. */
  function PassesAA(ratio: real): bool
  {
    ratio >= 4.5
  }

  /** The badge under the WCAG thresholds. */
  function WcagBadge(ratio: real): (b: Badge)
    ensures b == AAA <==> ratio >= 7.0
    ensures b == AA <==> 4.5 <= ratio < 7.0
    ensures b == Fail <==> ratio < 4.5
  {
    ChooseBadge(ratio, PassesAAA, PassesAA)
  }

  /** Under the WCAG thresholds, AAA implies AA and the badge is monotone in the ratio. */
  lemma WcagBadgeMonotone(x: real, y: real)
    requires x <= y
    ensures PassesAAA(x) ==> PassesAA(x)
    ensures Rank(WcagBadge(x)) <= Rank(WcagBadge(y))
  {
    ChooseBadgeMonotone(x, y, PassesAAA, PassesAA);
  }

  /** Sample ratios, the boundaries included. */
  lemma WcagBadgeExamples()
    ensures WcagBadge(7.5) == AAA && WcagBadge(7.0) == AAA
    ensures WcagBadge(5.0) == AA && WcagBadge(4.5) == AA
    ensures WcagBadge(2.0) == Fail && WcagBadge(1.0) == Fail
  {
  }
}
