# Sanitization: a Dafny model

`Sanitization.cs` is one static class. It holds two string sanitisers that
Razor views use to build CSS class names and HTML ids:

- `CleanCssIdentifier(identifier, filter)` turns free text into a CSS
  identifier in the sense of section 4.1.3 of CSS 2.1 ("Characters and case").
  It works in seven steps:
  1. Choose the caller's substitution table, or the built-in one when the
     argument is `null`.
  2. Hide every `__` behind the placeholder `##`, unless the table has a rule
     for `__`.
  3. Run every rule of the table as a `String.Replace`.
  4. Turn every `##` back into `__`.
  5. Strip every code unit outside the allow-list.
  6. Replace a leading digit, `--`, or `-` followed by a digit with `_`.
  7. Lower-case the result.
- `CleanID(id)` turns free text into an HTML id made of the "name" characters
  of section 6.2 of HTML 4.01, with `:` and `.` also removed. It works in four
  steps:
  1. Map space, `_`, `[` and `]` to `-`.
  2. Lower-case.
  3. Keep only `[A-Za-z0-9_-]`.
  4. Collapse each run of hyphens to one `-`.

## How the model is organised

- `code_units.dfy` (`CodeUnits`) defines the building blocks:
  - A C# `char` is a `CodeUnit`, a UTF-16 code unit in `0..0xFFFF`.
  - A string is a `Text`, a sequence of code units.
  - The character classes and the ASCII lower-case fold live here too.
- `text_ops.dfy` (`TextOps`) models the two primitives that both sanitisers
  use:
  - `ReplaceAll` is .NET `String.Replace`. It scans left to right and
    replaces non-overlapping occurrences of a non-empty key. It never
    rescans the text it has just inserted.
  - `Keep` is a `Regex.Replace` whose pattern is a negated character class
    and whose replacement is empty.
- `css_identifier.dfy` has two modules:
  - `CssIdentifier` holds the steps of `CleanCssIdentifier`. The table is a
    sequence of `Rule`s. `None` stands for the `null` argument, which selects
    the default table in insertion order.
  - `CssProperties` holds the properties of `CleanCssIdentifier`.
    `DefaultScan` is an independent one-pass reference for steps 1-4 under the
    default table, on text without `#`. The main lemmas are:
    - the placeholder round trip;
    - agreement of the replacement chain with `DefaultScan`;
    - the fact that a literal `##` behaves as `__`.
- `html_id.dfy` (`HtmlId`) holds `CleanID`:
  - `MapSeparators` is the chain of four replacements.
  - `CollapseHyphens` is the `-+` → `-` rewrite, with `DropRepeatedHyphens` as
    its reference definition.
  - The lemmas cover the output class, idempotence, dropped units, and the
    behaviour on text that is already an id.
- `examples.dfy` (`Examples`) holds concrete inputs and outputs for both
  functions. Each example takes its input as a parameter pinned by its
  precondition.

The code is followed where it and its comment disagree. The comment at
`Sanitization.cs:35-36` says `##` is turned back into `__` only when the
original identifier held `__`. The code actually restores whenever the table
has no `__` rule. So a literal `##` in the input comes out as `__`.
`CssProperties.PlaceholderCollision` states this for any table without a `__`
rule, and `Examples.CssHashesBecomeUnderscores` shows it on `a##b`. As a
result, the placeholder does collide with input text.

`CleanCssIdentifier` is not idempotent. `Examples.CssNotIdempotent` shows
`1x` → `_x` → `-x`, because the `_` added by step 6 is mapped to `-` by the
default table on a second pass. `CleanID` is idempotent, and
`HtmlId.CleanIDIdempotent` proves it.

## Model

| member | source | states |
|---|---|---|
| CodeUnits.Lower | Sanitization.cs:53 | One code unit is lower-cased: A-Z move to a-z (plus 0x20), every other code unit is unchanged, and the result is never A-Z |
| CodeUnits.ToLower | Sanitization.cs:53 | `ToLower` keeps the length and lower-cases each code unit in place |
| CodeUnits.ToLowerIdentity | Sanitization.cs:62 | Lower-casing changes nothing exactly when the text has no A-Z |
| TextOps.ReplaceAll | Sanitization.cs:32 | `String.Replace` does not lengthen the text when the value is no longer than the key. It keeps the length when both have the same length. A one-unit key that the value does not contain is gone from the result |
| TextOps.ReplaceAllFirst | Sanitization.cs:26-39 | When no occurrence of the key starts inside a prefix, the first occurrence after it is the one replaced: the prefix is kept, the value replaces the key, and the scan resumes right after the key |
| TextOps.ReplaceAllAbsent | Sanitization.cs:32 | A key that occurs nowhere in the text leaves it unchanged |
| TextOps.ReplaceAllUnits | Sanitization.cs:32 | Every code unit of a replacement's result comes from the text or from the value |
| TextOps.ReplaceAllSkipsPrefix | Sanitization.cs:26 | A prefix without the key's first unit passes through a replacement unchanged |
| TextOps.ReplaceAllLeadingKey | Sanitization.cs:39 | A key at the very start is replaced, and scanning resumes right after it, not inside the inserted value |
| TextOps.ReplaceUnitPointwise | Sanitization.cs:58-61 | Replacing one code unit by another maps each position independently |
| TextOps.ReplaceUnitConcat | Sanitization.cs:32 | A one-unit key is replaced piece by piece over a concatenation |
| TextOps.Keep | Sanitization.cs:50 | The regex strip with an empty replacement keeps only admitted units and never lengthens the text |
| TextOps.KeepIdentity | Sanitization.cs:50 | The strip leaves the text unchanged exactly when every unit is admitted |
| TextOps.KeepContents | Sanitization.cs:70 | A unit is in the stripped text exactly when it is in the input and admitted |
| TextOps.KeepConcat | Sanitization.cs:70 | The strip keeps the order of units and works piece by piece over a concatenation |
| CssIdentifier.ApplyRules | Sanitization.cs:30-33 | The loop over the table maps empty to empty. When no value is longer than its key, the loop does not lengthen the text |
| CssIdentifier.ApplyRulesSnoc | Sanitization.cs:30-33 | Rules are applied in sequence: a table extended by one rule applies that rule to the previous result |
| CssIdentifier.TableOf | Sanitization.cs:11-21 | A caller's table is used as given. A `null` filter selects a valid table of five one-unit keys, none of them `__`, whose values are at most one unit long |
| CssIdentifier.Substitute | Sanitization.cs:11-40 | Steps 1-4 map empty to empty and do not lengthen the text under the default table. A table with a `__` rule skips the placeholder and just runs its rules |
| CssIdentifier.FixLeading | Sanitization.cs:52 | The result never starts with a digit, `--` or `-digit`. A text that starts well is unchanged. Otherwise the offending one or two units become a single `_` and the rest is unchanged |
| CssIdentifier.CleanCssIdentifier | Sanitization.cs:9-54 | Every output unit is `-`, a digit, `_`, a-z or at least U+00A1. The output never starts badly. Empty maps to empty. With the default table the output is never longer than the input |
| CssProperties.PlaceholderRoundTrip | Sanitization.cs:23-40 | Hiding `__` behind `##` and restoring it gives back any text that has no `#` of its own |
| CssProperties.DefaultScanConcat | Sanitization.cs:13-20 | The default table's reference scan works chunk by chunk when a chunk does not end in `_` |
| CssProperties.DefaultFilterFacts | Sanitization.cs:13-24 | The default table has non-empty, distinct, one-unit keys and no `__` rule, so the placeholder step runs |
| CssProperties.DefaultRulesChain | Sanitization.cs:13-33 | The loop over the default table is the five replacements in insertion order |
| CssProperties.DefaultRulesOnUnit | Sanitization.cs:15-19 | On a single unit the default table maps space, `_`, `/` and `[` to `-`, deletes `]`, and keeps anything else |
| CssProperties.DefaultSubstituteIsScan | Sanitization.cs:11-40 | On text without `#`, `Substitute` with no filter keeps every `__` pair, maps a lone `_`, space, `/` or `[` to `-`, and deletes `]` |
| CssProperties.DefaultRulesClearKeys | Sanitization.cs:30-33 | After the default loop none of the five default keys is left |
| CssProperties.PlaceholderCollision | Sanitization.cs:35-40 | For any table without a `__` rule, input holding a literal `##` cleans to the same identifier as the input with `__` there |
| CssProperties.DefaultScanAlnumPrefix | Sanitization.cs:13-20 | A leading run of letters and digits passes through the default table unchanged |
| CssProperties.CleanViaScan | Sanitization.cs:42-53 | On text without `#`, the default pipeline is the reference scan followed by the strip, the leading fix and the fold |
| CssProperties.CleanSubstitutedPlain | Sanitization.cs:50-53 | When steps 1-4 yield only a-z, digits, `-` and `_`, the strip and the fold change nothing and only the leading fix acts |
| CssProperties.CleanViaPlainScan | Sanitization.cs:11-53 | On text without `#` whose reference scan holds only a-z, digits, `-` and `_`, the cleaned identifier is the leading fix of the scan |
| CssProperties.CleanPlain | Sanitization.cs:50-53 | Under the default table, text of a-z, digits and `-` is changed only by the leading fix |
| CssProperties.CleanKeepsDoubleUnderscore | Sanitization.cs:24-40 | Under the default table, a `__` between plain words survives and only the leading fix applies |
| HtmlId.CollapseHyphens | Sanitization.cs:73 | The `-+` → `-` rewrite leaves no `--`, never lengthens, keeps the first unit, and leaves text without `--` unchanged |
| HtmlId.CollapseIsReference | Sanitization.cs:73 | The collapse equals the reference that drops each `-` directly after a `-` and keeps every other unit |
| HtmlId.CollapseUnits | Sanitization.cs:73 | Collapsing introduces no new code unit |
| HtmlId.CollapseKeepsOtherUnits | Sanitization.cs:73 | Collapsing keeps the non-hyphen units unchanged and in order |
| HtmlId.MapSeparators | Sanitization.cs:58-61 | The replacement chain keeps the length, turns each space, `_`, `[` and `]` into `-`, and leaves every other unit in place |
| HtmlId.CleanIDUnits | Sanitization.cs:58-70 | After mapping, lower-casing and the strip, only a-z, digits and `-` remain: no `_` comes back |
| HtmlId.CleanID | Sanitization.cs:56-76 | The id holds only a-z, digits and `-` and has no `--`. It is never longer than the input. Empty maps to empty |
| HtmlId.CleanIDIdempotent | Sanitization.cs:56-76 | Cleaning an id a second time changes nothing |
| HtmlId.MapSeparatorsConcat | Sanitization.cs:58-61 | The replacement chain works piece by piece over a concatenation |
| HtmlId.CleanIDDropsUnit | Sanitization.cs:70 | A unit that is neither a separator nor kept after lower-casing, such as `:` or `.`, is dropped with no other effect |
| HtmlId.CleanIDOfIdText | Sanitization.cs:58-73 | On text already made of a-z, digits and `-`, only the hyphen collapse acts |
| Examples.CssLeadingDigit | Sanitization.cs:52 | `123abc` cleans to `_23abc` |
| Examples.CssLeadingDoubleHyphen | Sanitization.cs:52 | `--abc` cleans to `_abc` |
| Examples.CssLeadingHyphenDigit | Sanitization.cs:52 | `-1abc` cleans to `_abc` |
| Examples.CssKeepsPair | Sanitization.cs:24-40 | `my__class` cleans to itself |
| Examples.CssDefaultTable | Sanitization.cs:13-53 | `My Class[Name]` cleans to `my-class-name` |
| Examples.CssTripleUnderscore | Sanitization.cs:26-39 | `___` cleans to `__-`: left-to-right matching pairs the first two underscores |
| Examples.CssHashesAroundPair | Sanitization.cs:23-40 | `#__#` cleans to `____`: the pair is hidden as `##`, and the restore pairs all four `#` |
| Examples.CssHashesBecomeUnderscores | Sanitization.cs:35-40 | `a##b` cleans to `a__b` |
| Examples.CssNotIdempotent | Sanitization.cs:50-53 | `1x` cleans to `_x`, and `_x` cleans to `-x` |
| Examples.IdSeparators | Sanitization.cs:58-75 | `Hello World_Test[1]` becomes `hello-world-test-1-` |
| Examples.IdCollapse | Sanitization.cs:73 | `a---b` becomes `a-b` |
| Examples.IdDropsColonAndPeriod | Sanitization.cs:70 | `a:b.c` becomes `abc` |

## Left out

- CodeUnits.ToLower: only A-Z are folded. Line 53 uses the current culture
  and line 62 uses en-US, and both also lower-case non-ASCII letters. Under
  the real casing, a non-ASCII capital kept by the CSS allow-list would come
  out in lower case. A character such as the Kelvin sign lower-cases to ASCII
  `k` and would survive `CleanID`'s strip. Even ASCII input can differ:
  under a Turkish or Azeri current culture, line 53 maps `I` to U+0131
  (dotless `ı`), while the model maps it to `i`. Culture tables are not
  modelled.
- The .NET regex engine and `RegexOptions.Compiled` are not modelled. Each of
  the three patterns is written out as its own sequence function:
  - `Keep` for lines 50 and 70;
  - `FixLeading` for line 52;
  - `CollapseHyphens` for line 73.
- `Dictionary` enumeration order is not contractual in .NET. The table is a
  sequence, and the rules run in sequence order. The default table's order is
  its insertion order.
- Null arguments are not modelled:
  - a null `identifier` or `id` throws;
  - a null value in the table would act as an empty string.
  Texts are never null here. The `null` filter is `None`.
- An empty key in a caller's table makes `String.Replace` throw. The model
  requires non-empty keys, together with the distinct keys a `Dictionary`
  guarantees, through `ValidFilter`.
- Surrogate pairs are not treated as characters. Each UTF-16 code unit is
  classified on its own, as C# `char` comparisons do. So the allow-list range
  U+00A1-U+FFFF also admits lone surrogate halves.
- CssProperties.DefaultSubstituteIsScan: the one-pass reference is proved
  equal to steps 1-4 only on inputs without `#`. For inputs with `#` there is
  no general characterization:
  - CssProperties.PlaceholderCollision covers one `##` preceded by text
    without `_`;
  - a `#` next to a `__` pair ends up inside a restored `__`.
    `Examples.CssHashesAroundPair` shows `#__#` cleaning to `____`, where
    the scan-then-strip route would give `__`.
- CssProperties.CleanViaScan: stated for inputs without `#` only, for the
  same reason.
- CssProperties.PlaceholderCollision: stated for a `##` preceded by text
  with no `_`, so that no earlier `__` pair can overlap it.
- CssProperties.CleanKeepsDoubleUnderscore: stated for a `__` between words
  of a-z, digits and `-` only.
- Idempotence of `CleanCssIdentifier` does not hold, so it is not claimed.
  `Examples.CssNotIdempotent` shows the counterexample.
