# ScientificNotation — a Dafny model

This project models the `ScientificNotation` value type of AstroSim
(`src/modules/scientific_notation/mod.rs`). A value is a triple:

- a decimal coefficient;
- an `i16` exponent;
- `display_decimals`, the number of coefficient decimals to show.

The type supports four things:

- **Default and builder.** `build()` starts from the default value
  (coefficient 1, exponent 0, two display decimals). Each setter returns the
  value with one field replaced.
- **`parse_from_str`.** It reads text of the form `<coefficient>x10^<exponent>`
  and applies these checks, in this order:
  1. the separator `x10^` must be present;
  2. it must occur only once;
  3. the coefficient text must be a decimal;
  4. the exponent text must be an `i16`.

  On success, `display_decimals` is derived from the coefficient's fractional
  part.
- **`Display`.** It writes the coefficient rounded to `display_decimals`
  places, with ties toward zero, then `x10^` and the exponent.

The modules follow that structure:

- `Wrappers` holds `Option` and `Result`.
- `Digits` holds decimal numerals: their values, shortest and zero-padded
  renderings, and powers of ten.
- `TextSearch` models `str::contains` and `str::split` over `seq<char>`:
  first match, split and join.
- `Decimals` models the part of `rust_decimal` the type uses. A decimal is
  `Decimal(mantissa, scale)`, the value `mantissa / 10^scale`. This module
  covers:
  - the literal grammar accepted by `parse::<Decimal>` (an optional `-`,
    digits, and optionally `.` followed by digits);
  - the `Display` text;
  - `fract()`;
  - `round_dp_with_strategy` with `MidpointTowardZero`.

  The mantissa bound is a parameter, `MantissaRange`. `I64Mantissa` is the
  64-bit range described in the doc comment at mod.rs:9-18.
- `Int16Text` holds the `i16` grammar of `FromStr` (an optional `+` or `-`,
  then one or more digits, within [-32768, 32767]) and the integer `Display`
  text.
- `SciNotation` holds the value type, the builder, `Parse`, `Format` and
  their laws.

Errors are reduced to two kinds:

- `FormatErr` is what the two separator checks raise, with no error code.
- `ParseErr` is raised when a segment does not convert (`SystemErrorCodes::ParseError`).

Two consequences of the code are worth stating directly:

- **Fractional exponent.** A fractional exponent such as `2x10^23.4` fails
  the `i16` parse of the exponent text (mod.rs:63-65), so `Parse` returns
  `ParseErr` (`SciNotation.ExampleFractionalExponentRejected`).
- **Round trip.** `Format(Parse(s)) == s` holds exactly when three
  conditions all hold (`SciNotation.LemmaFormatOfParse`):
  - both segments are in the form `Display` writes, so no `+`, no leading
    zeros and no `-0`;
  - the coefficient's scale is zero or its fractional part is non-zero
    (`5.00x10^2` is written back as `5x10^2`);
  - the scale survives the `as u32` cast.

## Model

| member | source | states |
|---|---|---|
| `SciNotation.Default` | src/modules/scientific_notation/mod.rs:86-94 | the default value has coefficient 1 (scale 0), exponent 0 and two display decimals |
| `SciNotation.Build` | src/modules/scientific_notation/mod.rs:26-28 | `build()` yields the default value: coefficient 1, exponent 0, two display decimals |
| `SciNotation.WithCoefficient` | src/modules/scientific_notation/mod.rs:30-33 | the coefficient setter installs the new coefficient and leaves exponent and display decimals unchanged |
| `SciNotation.WithExponent` | src/modules/scientific_notation/mod.rs:35-38 | the exponent setter installs the new exponent and leaves the other two fields unchanged |
| `SciNotation.WithDisplayDecimals` | src/modules/scientific_notation/mod.rs:40-43 | the display-decimals setter installs the new count and leaves the other two fields unchanged |
| `SciNotation.LemmaBuilderIndependence` | src/modules/scientific_notation/mod.rs:30-43 | setters of different fields commute, a later write to a field overrides an earlier one, and setting the coefficient to its own value changes nothing |
| `SciNotation.LemmaBuilderReachesAll` | src/modules/scientific_notation/mod.rs:26-43 | every value is reached from `build()` by the three setters |
| `SciNotation.Parse` | src/modules/scientific_notation/mod.rs:45-83 | text without the separator is a format error; a successful result carries display decimals derived from its coefficient (0 if the fractional part is zero, else the scale) |
| `SciNotation.LemmaNoSeparatorRejected` | src/modules/scientific_notation/mod.rs:49-52 | text with no `x` cannot contain the separator and is rejected with a format error |
| `SciNotation.LemmaRepeatedSeparatorRejected` | src/modules/scientific_notation/mod.rs:54-57 | two distinct occurrences of the separator give a format error, whatever the segments hold |
| `SciNotation.LemmaFormatErrorIff` | src/modules/scientific_notation/mod.rs:49-57 | parsing fails with a format error exactly when the separator does not occur exactly once |
| `SciNotation.LemmaParseAtSeparator` | src/modules/scientific_notation/mod.rs:59-83 | with one separator, a bad coefficient is a parse error whatever follows; a good coefficient with a bad exponent is a parse error; otherwise the result holds both parsed values and the derived display decimals |
| `SciNotation.LemmaParseSuccess` | src/modules/scientific_notation/mod.rs:54-65 | success implies one separator, input = coefficient text ++ `x10^` ++ exponent text, and the fields are the values those texts denote |
| `SciNotation.DisplayDecimalsOf` | src/modules/scientific_notation/mod.rs:67-76 | the length of the text after the point in the rendered fractional part is 0 for an integral coefficient and the scale otherwise |
| `SciNotation.DisplayedCoefficient` | src/modules/scientific_notation/mod.rs:101-103 | the written coefficient has scale min(scale, display decimals mod 2^32) and is the nearest value at that scale, ties toward zero |
| `SciNotation.LemmaCastToU32` | src/modules/scientific_notation/mod.rs:102 | the `as u32` cast keeps a count exactly when the count is below 2^32 |
| `SciNotation.LemmaDisplayedIff` | src/modules/scientific_notation/mod.rs:96-106 | with derived display decimals, `Display` writes the coefficient unrounded exactly when its scale is 0 or its fraction is non-zero, and the scale is below 2^32 |
| `SciNotation.Format` | src/modules/scientific_notation/mod.rs:96-106 | the text holds the separator once; before it is the canonical text of the rounded coefficient, after it the canonical text of the exponent, and each parses back to its value |
| `SciNotation.LemmaParseOfFormat` | src/modules/scientific_notation/mod.rs:45-106 | parsing what `Display` writes gives back the rounded coefficient (if its mantissa is in range, else a parse error) and the same exponent |
| `SciNotation.LemmaRoundTrip` | src/modules/scientific_notation/mod.rs:45-106 | a coefficient that keeps its digits, written with any exponent, parses to that value with display decimals = scale, and formats back to the same text |
| `SciNotation.LemmaFormatOfParse` | src/modules/scientific_notation/mod.rs:45-106 | a parsed text is written back unchanged if and only if both segments are canonical and the coefficient keeps its digits |
| `SciNotation.LemmaCanonicalFormatsBack` | src/modules/scientific_notation/mod.rs:45-106 | the if-direction of the text-side round trip |
| `SciNotation.LemmaFormatsBackIsCanonical` | src/modules/scientific_notation/mod.rs:45-106 | the only-if direction of the text-side round trip |
| `SciNotation.ExampleDefaultDisplay` | src/modules/scientific_notation/mod.rs:86-106 | the default value is written `1x10^0` |
| `SciNotation.ExampleParseWholeCoefficient` | src/modules/scientific_notation/tests.rs:4-12 | `5x10^15` parses to coefficient 5, exponent 15, display decimals 0 |
| `SciNotation.ExampleParseFractionalCoefficient` | src/modules/scientific_notation/tests.rs:14-22 | `5.1237514651x10^38` parses to 51237514651 at scale 10, exponent 38, display decimals 10 |
| `SciNotation.ExampleFractionalExponentRejected` | src/modules/scientific_notation/tests.rs:24-30 | `2x10^23.4` fails with a parse error |
| `SciNotation.ExampleLetterInCoefficientRejected` | src/modules/scientific_notation/tests.rs:32-38 | `2ax10^20` fails with a parse error |
| `SciNotation.ExampleRepeatedSeparatorRejected` | src/modules/scientific_notation/tests.rs:40-46 | `2x10^x10^23` fails with a format error |
| `SciNotation.ExampleNoSeparatorRejected` | src/modules/scientific_notation/tests.rs:48-54 | `asd1234` fails with a format error |
| `SciNotation.ExampleParseAndDisplayBack` | src/modules/scientific_notation/tests.rs:56-62 | `315.2x10^14` parses and is written back unchanged |
| `SciNotation.ExampleBuilderDisplay` | src/modules/scientific_notation/tests.rs:64-72 | 62.78964 with exponent 20 and three display decimals is written `62.790x10^20` |
| `Decimals.ParseDecimal` | src/modules/scientific_notation/mod.rs:59-61 | a coefficient text is accepted exactly when it matches the literal grammar and its mantissa is within the bound, and then it denotes the literal's value |
| `Decimals.LemmaParseDecimalOfText` | src/modules/scientific_notation/mod.rs:59-61 | the decimal text of any value parses back to that value exactly when its mantissa is within the bound |
| `Decimals.LemmaTextOfParse` | src/modules/scientific_notation/mod.rs:59-61 | an accepted literal is the text of its value if and only if it is canonical |
| `Decimals.ParseLiteral` | src/modules/scientific_notation/mod.rs:59-61 | only text made of digits, `-` and `.` is accepted as a decimal; `Decimals.LemmaTextOfParse` characterizes the accepted texts that are written back unchanged |
| `Decimals.ToText` | src/modules/scientific_notation/mod.rs:100-103 | the decimal text is non-empty, starts with `-` exactly for a negative value, uses only digits, `-` and `.`, and has a point exactly when the scale is positive; `Decimals.LemmaParseOfText` and `Decimals.LemmaTextIsCanonical` show it parses back to the value and is canonical |
| `Decimals.LemmaParseOfText` | src/modules/scientific_notation/mod.rs:71-72 | the text of any decimal parses back to the same decimal, scale included |
| `Decimals.LemmaTextIsCanonical` | src/modules/scientific_notation/mod.rs:100-103 | the text of any decimal is canonical: no superfluous leading zero, digits after any point, no `-0` |
| `Decimals.Fract` | src/modules/scientific_notation/mod.rs:67 | the fractional part keeps the scale, is below one in magnitude, has the sign of the value, differs from the value by a whole number, and is zero exactly when the value is integral |
| `Decimals.LemmaSplitAtPoint` | src/modules/scientific_notation/mod.rs:70-75 | the text of a decimal with fractional digits splits at `.` into two segments, the second as long as the scale |
| `Decimals.RoundDp` | src/modules/scientific_notation/mod.rs:101-103 | a value with at most `dp` decimals is returned unchanged; otherwise the result has scale `dp` and is the nearest multiple, ties toward zero |
| `Decimals.LemmaRoundDpUnique` | src/modules/scientific_notation/mod.rs:101-103 | the nearest-ties-toward-zero result is unique, so it determines the rounding |
| `Int16Text.ParseI16` | src/modules/scientific_notation/mod.rs:63-65 | an exponent text is accepted exactly when it is an optionally signed run of digits whose value is within the `i16` range; a text with a point is never accepted |
| `Int16Text.ParseInteger` | src/modules/scientific_notation/mod.rs:63-65 | a text with a point is never an integer, and an accepted text is non-empty; `Int16Text.LemmaIntTextOfParse` characterizes the accepted texts that are written back unchanged |
| `Int16Text.IntToText` | src/modules/scientific_notation/mod.rs:104 | the text of an integer parses back to that integer and is canonical |
| `Int16Text.LemmaParseI16OfIntText` | src/modules/scientific_notation/mod.rs:63-65 | the text of an integer parses back to it exactly when it is within the `i16` range |
| `Int16Text.LemmaIntTextOfParse` | src/modules/scientific_notation/mod.rs:63-65 | an accepted integer text is the text of its value if and only if it is canonical (no `+`, no leading zeros, no `-0`) |
| `TextSearch.Find` | src/modules/scientific_notation/mod.rs:50 | the first occurrence of a pattern, or none exactly when the pattern does not occur |
| `TextSearch.Split` | src/modules/scientific_notation/mod.rs:54 | the segments join back to the text, none contains the separator, and there is one segment exactly when the separator does not occur |
| `TextSearch.LemmaSplitAtOnlyMatch` | src/modules/scientific_notation/mod.rs:54-57 | text with one occurrence of the separator splits into the parts before and after it |
| `TextSearch.LemmaTwoMatchesSplitThree` | src/modules/scientific_notation/mod.rs:54-57 | two distinct occurrences of a separator whose first character does not recur give more than two segments |

## Left out

- The `Add`, `Sub`, `Mul` and `Div` impls (mod.rs:109-135) are left out. They are `todo!()` stubs with no behaviour to model.
- The `error_mapper` crate is reduced to the two-case `ErrorKind`. This drops `create_new_error!`, message texts and error-code plumbing.
- The `Debug`, `Clone` and `Copy` derives and the `Formatter` plumbing are left out. They have no behaviour of their own.
- Decimals.ParseDecimal: models a strict grammar. `rust_decimal` accepts a wider one, which is not part of this model: a leading `+`, underscores, a bare leading or trailing point, and more.
- Decimals.ParseDecimal: the mantissa bound is a parameter. `rust_decimal`'s own 96-bit mantissa and its 28-digit scale cap are not modelled.
- Decimals.ToText: there is no negative zero. `-0` and `-0.0` parse to the value zero, which is written without a sign.
- Decimals.RoundDp: states only what the type relies on. A value with at most `dp` decimals is returned unchanged, with no padding. Otherwise the value is rounded to the nearest multiple, ties toward zero. Other behaviour of `round_dp_with_strategy` is not modelled, such as special-casing zero.
- SciNotation.WithDisplayDecimals: the count is an unbounded `nat`, not a 64-bit `usize`. Its 64-bit limit is not modelled. The only width that affects behaviour, the `as u32` cast in `Display`, is modelled as reduction modulo 2^32.
- The type mismatches in tests.rs are not modelled. tests.rs:10 and 20 compare the exponent with a `Decimal`, and tests.rs:68 passes a `Decimal` to `.exponent`. The model follows the `i16` signature in mod.rs, and the example lemmas use integer exponents.
