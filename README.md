# Streamlit theme editor: hex colour codec, theme reconciliation and WCAG badge

This project models the computational core of a Streamlit colour-theme editor
and proves properties of it in Dafny:

- `parse_hex` (util.py): a string is checked with `re.match` against
  `^#[0-9a-fA-F]{6}$`; a non-matching string raises `ValueError`, a matching
  one yields the three channel values `int(pair, 16) / 255` in r, g, b order.
  Module `PyRe` models the part of Python's regular expressions this needs
  (anchored literal and class pieces with fixed repetition counts; Python's
  `$`, which also matches before one final newline), and module `Util` models
  `parse_hex` itself. Channel values are exact reals, so `k / 255` is the
  exact quotient.
- The formatter `f"#{r:02x}{g:02x}{b:02x}"` applied to `round(c * 255)` per
  channel, used by `sync_hls_to_rgb` (app.py:46) and, as the identical
  expression, by `on_hls_change` (fragments.py:22). Module `HexFormat` models
  Python's `02x` format for every integer (negative values get a `-` sign,
  values above 255 get three or more digits) and Python's `round` (ties to
  even) on exact reals.
- `reconcile_theme_config` (app.py:170-178), module `App`: a loop over the four
  theme keys that copies each session value that differs from the option
  store into it with `set_option`, and asks for a rerun if it copied any. The
  option store is the class `App.Config` with an `options` map (an absent name
  reads as `None`) and a ghost log of `set_option` calls. The session state
  is a map parameter. A key missing from the session state raises `KeyError`
  part way through the loop; the model returns `MissingSessionKey(key)` then
  and keeps the writes made before it. The rerun is returned as the outcome
  `Rerun`, not performed. The loop itself is in `App.Reconcile`, which takes
  the key list as a parameter; `App.ReconcileThemeConfig` calls it with the
  four keys of app.py:171.
- The preset colour table (app.py:10-23) as data for `parse_hex`.
- The parse-then-classify logic of `contrast_summary` (fragments.py:47-60),
  module `Fragments`: both colours are parsed first, then the ratio selects
  AAA, AA or Fail. The contrast ratio function and the `passes_AAA` and
  `passes_AA` tests come from the `wcag_contrast_ratio` library, so they are
  function parameters. One instance is given with the WCAG 2.1 normal-text
  thresholds: at least 7 (Success Criterion 1.4.6) and at least 4.5 (Success
  Criterion 1.4.3).

Three behaviours of the code worth stating plainly:

- `parse_hex` also accepts a valid colour followed by one `"\n"` and ignores
  that newline, because of Python's `$` (`Util.ParseHexTrailingNewline`).
- The formatter does not clamp: an out-of-range channel gives a string that
  `parse_hex` rejects (`HexFormat.FormatAcceptedIffBytes`).
- The pass thresholds belong to the `wcag_contrast_ratio` library, so the
  badge lemmas quantify over the pass tests, and the WCAG thresholds are one
  instance of them.

## Model

| member | source | states |
|---|---|---|
| `PyRe.Match` | util.py:5 | `re.match` of an anchored pattern with Python's `$`; no contract of its own, specified by `PyRe.MatchRepeat` and `Util.HexPatternMatch` |
| `PyRe.MatchRepeat` | util.py:5 | a repeated piece `atom{n}` matches exactly when the next n characters each match the atom and the rest of the pattern matches what follows |
| `Util.HexPatternMatch` | util.py:5 | `^#[0-9a-fA-F]{6}$` under `re.match` accepts exactly '#' plus six hex digits of either case, optionally followed by one newline |
| `Util.HexInt` | util.py:7 | `int(digits, 16)`: n digits give a value below 16^n, and two digits give 16 times the first digit's value plus the second's |
| `Util.PairValue` | util.py:7 | `int(s[i:i+2], 16)` equals 16 times the high digit plus the low digit |
| `Util.ParseHex` | util.py:4-7 | accepted exactly when the string has the hex-colour shape; otherwise the error is the invalid-hex-colour ValueError; on success the triple is (r/255, g/255, b/255) for the pairs at positions 1, 3, 5 in that order, each in [0, 1] |
| `Util.HexClassIsHexDigit` | util.py:5 | the class `[0-9a-fA-F]` matches exactly the hex digits |
| `Util.ToLowerHexDigit` | util.py:5 | lower-casing keeps hex digits hex with the same value, and keeps '#' and newline |
| `Util.DigitValueInjective` | util.py:7 | two hex digits with the same value are equal ignoring case |
| `Util.ParseHexIgnoresCase` | util.py:5-7 | strings equal ignoring case give the same result, accepted or rejected |
| `Util.ParseHexInjective` | util.py:7 | two accepted strings with equal triples have the same first seven characters ignoring case |
| `Util.ChannelInjective` | util.py:7 | k/255 determines k |
| `Util.ByteAtInjective` | util.py:7 | equal bytes come from the same digit pair ignoring case |
| `Util.ParseHexTrailingNewline` | util.py:5 | appending one newline to a seven-character string does not change the result |
| `Util.ParseHexExamples` | util.py:7 | "#000000" gives (0,0,0), "#ffffff" gives (1,1,1), "#ff4b4b" gives (1, 75/255, 75/255) |
| `Util.ParseHexQuirkExample` | util.py:5-7 | "#FF4B4B\n" decodes like "#ff4b4b" |
| `Util.ParseHexRejects` | util.py:5-6 | "", "123456", "#12345", "#1234567", "#gggggg", two trailing newlines and a trailing space all raise the invalid-hex-colour error |
| `HexFormat.LowerDigit` | app.py:46 | the digit written for v is a lower-case hex digit whose value is v |
| `HexFormat.HexDigits` | app.py:46 | Python's 'x' digits of n are lower-case hex, read back as n, one digit exactly below 16 and two exactly for 16..255 |
| `HexFormat.Format02x` | app.py:46 | `02x` writes at least two characters, all hex digits or '-'; it writes exactly two hex digits iff n is in 0..255, and then they read back as n in lower case |
| `HexFormat.Round` | app.py:46 | Python's `round`: within 0.5 of the argument, and even on a tie |
| `HexFormat.ToByte` | app.py:46 | `round(c * 255)` is in 0..255 for c in [0, 1] |
| `HexFormat.FormatHex` | app.py:46 | the f-string `#{r:02x}{g:02x}{b:02x}` (also fragments.py:22): at least seven characters, starting with '#'; further specified by `FormatHexShape`, `FormatParseRoundTrip` and `FormatAcceptedIffBytes` |
| `HexFormat.FormatHexShape` | app.py:46 | for bytes r, g, b the string has length 7, starts with '#', has six lower-case hex digits, and its pairs at 1, 3, 5 are r, g, b |
| `HexFormat.FormatParseRoundTrip` | app.py:46 | parse_hex of the formatted bytes r, g, b is (r/255, g/255, b/255) |
| `HexFormat.FormatAcceptedIffBytes` | app.py:46 | parse_hex accepts the formatted string iff every channel is in 0..255 |
| `HexFormat.ToByteOfChannel` | app.py:46 | `round((k/255) * 255)` is k for a byte k |
| `HexFormat.ParseFormatRoundTrip` | app.py:46 | parse_hex (as called at app.py:34) followed directly by the formatter, without the colorsys and slider path in between: formatting the rounded channels of a parsed colour gives '#' and its six digits in lower case |
| `HexFormat.FormatDigitsAreLowered` | app.py:46 | a lower-case digit pair with the same byte as another pair is that pair lower-cased |
| `HexFormat.CanonicalRoundTrip` | app.py:46 | for a lower-case '#rrggbb', formatting the parsed colour gives back the same string |
| `HexFormat.UnitChannelsFormatAccepted` | fragments.py:21-22 | for any channels in [0, 1], the string on_hls_change (and sync_hls_to_rgb) stores is accepted by parse_hex |
| `App.PresetsParse` | app.py:10-23 | every preset colour, the mixed-case "#31333F" included, is accepted by parse_hex; "#31333F" gives (49/255, 51/255, 63/255) |
| `App.OptionName` | app.py:174 | `f'theme.{key}'`; no contract of its own, specified by `App.OptionNameInjective` |
| `App.OptionNameInjective` | app.py:174 | distinct keys have distinct `theme.` option names |
| `App.ThemeKeysDistinct` | app.py:171 | the four theme keys are distinct |
| `App.Config.GetOption` | app.py:174 | `get_option`: the stored value, or None for an option without one; no contract of its own, used by `App.Reconcile` |
| `App.Mismatch` | app.py:174 | the `!=` test between the option and the session value; no contract of its own, used by `App.Sync` and `App.MismatchedNames` |
| `App.Config.SetOption` | app.py:175 | set_option replaces one option and logs one write |
| `App.ReconcileThemeConfig` | app.py:170-178 | the new options, the logged writes and the outcome are those of the loop specification over the four theme keys |
| `App.Reconcile` | app.py:171-178 | the loop with its flag: the new options, the writes and the outcome (rerun iff something was written, KeyError at a missing key) equal the loop specification |
| `App.Sync` | app.py:173-176 | the loop as a function of the keys, options and session; no contract of its own, specified by `SyncStep`, `SyncMissing`, `SyncAgrees`, `SyncFrame`, `SyncWritesMismatched` and `SyncIdempotent` |
| `App.SyncStep` | app.py:173-176 | one loop turn: a missing key stops; a mismatched key is written and recorded; a matching key is skipped |
| `App.SyncMissing` | app.py:173-174 | the loop raises iff some key is missing from the session state, and then at the first missing key |
| `App.SyncAgrees` | app.py:173-176 | after a run without KeyError, every theme option equals its session value |
| `App.SyncFrame` | app.py:174-175 | options other than the keys' own are unchanged, present or absent |
| `App.MismatchedNamesFrame` | app.py:174 | writing one key's option does not change which other keys mismatch |
| `App.SyncWritesMismatched` | app.py:174-176 | the written names are exactly the keys whose option differed before the loop, in key order, each once |
| `App.MismatchedNamesEmpty` | app.py:172-177 | some name is written iff some key's option differed from its session value |
| `App.SyncKeepsAll` | app.py:174-175 | when every key already matches, the options are unchanged |
| `App.ReconcileRerunIff` | app.py:172-178 | for the four theme keys: rerun iff some option differed, no rerun iff all matched, and afterwards every option equals its session value |
| `App.SyncIdempotent` | app.py:170-178 | a second run right after the first writes nothing, changes nothing and reports no change |
| `Fragments.ContrastSummary` | fragments.py:47-60 | raises the invalid-hex-colour error iff either colour is malformed; otherwise the ratio is the contrast of the two parsed colours and the badge is chosen from it |
| `Fragments.MalformedIgnoresContrast` | fragments.py:48-50 | with a malformed colour the result is the error whatever the contrast function and the pass tests are |
| `Fragments.ChooseBadge` | fragments.py:55-60 | the if / elif / else over the pass tests; no contract of its own, specified by `ChooseBadgeCases` and `ChooseBadgeMonotone` |
| `Fragments.ChooseBadgeCases` | fragments.py:55-60 | AAA iff the AAA test passes; AA iff AAA fails and AA passes; Fail iff both fail |
| `Fragments.ChooseBadgeMonotone` | fragments.py:55-60 | with upward-closed pass tests, a higher ratio never gets a lower badge |
| `Fragments.WcagBadge` | fragments.py:55-60 | with the WCAG 2.1 thresholds: AAA iff ratio >= 7, AA iff 4.5 <= ratio < 7, Fail iff ratio < 4.5 |
| `Fragments.WcagBadgeMonotone` | fragments.py:55-60 | with the WCAG thresholds, passing AAA implies passing AA, and the badge is monotone in the ratio |
| `Fragments.WcagBadgeExamples` | fragments.py:55-60 | 7.5 and 7.0 give AAA, 5.0 and 4.5 give AA, 2.0 and 1.0 give Fail |

## Left out

- Streamlit widgets, layout and rendering are not modelled: color pickers, sliders, metrics, markdown and code snippets (app.py:61-165, fragments.py:24-44, fragments.py:53-67, app.py:182-184). They are presentation only.
- `colorsys.rgb_to_hls` and `colorsys.hls_to_rgb` are not modelled, nor are the `round(h*360)`, `round(l*100)` and `round(s*100)` slider conversions. They are floating-point library numerics. The formatter takes the channel values they would give as inputs.
- `sync_rgb_to_hls`, `sync_hls_to_rgb`, `set_color`, `on_color_change` and `on_hls_change` are not modelled as session-state writes. They depend on the colorsys conversions, and only their parse and format steps are modelled.
- `Util.ParseHex`: returns exact reals k / 255, whereas Python returns the nearest binary float (75 / 255 is 0.29411764705882354). The properties proved (distinct bytes give distinct channel values, and `round(c * 255)` gives k back) hold for those floats as well.
- `HexFormat.Round`: acts on exact reals, so binary floating-point error in `c * 255` is not modelled.
- The contrast ratio (`wcag_contrast_ratio.rgb`) and `passes_AA` / `passes_AAA` are parameters, not definitions. They are a foreign library with floating-point luminance maths. The WCAG thresholds are one instance of the pass tests.
- The two-decimal formatting of the ratio (fragments.py:51) is not modelled. It is float formatting.
- `util.ThemeColor`, `util.get_config_theme_color` and `util.generate_color_scheme` are not part of this model: the util.py they would come from does not contain them. As a result the preset table here holds only the two fixed presets, without the one appended from the initial config (app.py:25-27).
- Session-state initialisation and the preset-selection callback (app.py:54-58, app.py:64-72) are not modelled. They are framework event wiring.
- `st._config` is reduced to a map of the options that hold a value. Its internals, the effects of `set_option` beyond storing the value, and `st.rerun` itself are not modelled; the rerun is the returned outcome.
- `App.Config.GetOption`: `get_option` on an unregistered option name raises in Streamlit. The model returns None instead; the four `theme.` options are registered, so the reconcile loop never meets that case.
- Session values are strings; session entries of other types are not modelled.
