# Currency converter form, modelled in Dafny

The project models the two pieces of logic in a small currency-converter web page.

1. **The converter form component** (`Converter` in
   components/converter-form/converter.tsx). Its state record holds:
   - the amount entered;
   - the converted result;
   - the source and target currencies;
   - a loading flag.

   The form works as follows:
   - Four handlers update that record.
   - `_convert` divides an amount by the source currency's rate and multiplies by the target currency's rate.
   - `render` shows a preloader until the rate table has loaded.
2. **The numeric input's change handler** (`emitChangeEvent` in
   src/components/control/control.jsx). It decides, for the raw text of the field, whether the control reports a number to its owner and which one. It drops one leading `0`, reports 0 for an empty field, stays silent while a decimal number is still being typed, and otherwise reports the `parseFloat` of the text with its first comma made a point, unless that parse is NaN.

There are three files:
- `rates.dfy` (module `Rates`): currencies, the rate table and the conversion rule.
- `converter.dfy` (module `ConverterForm`) holds the component, in two forms:
  - the state as a value (`FormState`), with one transition function per handler, the view and an event-driven session;
  - the component itself, as a class whose methods update its fields in place and are proved to follow those transitions.
- `control.dfy` (module `NumericInput`): the change handler, with a decimal-prefix `parseFloat`, a scanner for the separator pattern and the comma replacement.

The main theorem is `ConverterForm.RunKeepsCoherent`. It assumes a rate table that prices the default pair: USD has a usable rate and RUB has a rate. Every session of events starting from the constructor's state then keeps three facts:
- the two currencies differ;
- the initial state is kept while the rate table loads;
- once the form is shown, the displayed result is the conversion of the entered amount.

## Model

| member | source | states |
|---|---|---|
| Rates.Convert | components/converter-form/converter.tsx:71-74 | the result is an amount exactly when the source currency has a non-zero rate and the target currency has a rate; an absent source rate is reported before an absent target rate, and a zero source rate is reported as such |
| Rates.ConvertKeepsWorth | components/converter-form/converter.tsx:71-74 | the converted amount times the source rate equals the original amount times the target rate |
| Rates.ConvertSameCurrency | components/converter-form/converter.tsx:71-74 | converting into the same currency returns the amount unchanged |
| Rates.ConvertCompose | components/converter-form/converter.tsx:71-74 | converting a to b and then b to c is converting a to c |
| Rates.ConvertRoundTrip | components/converter-form/converter.tsx:71-74 | converting there and back returns the original amount |
| Rates.ConvertZero | components/converter-form/converter.tsx:71-74 | zero converts to zero |
| Rates.ConvertScales | components/converter-form/converter.tsx:71-74 | conversion is linear in the amount |
| Rates.CompleteConvertsEverything | components/converter-form/converter.tsx:71-74 | with every currency priced positively, every conversion yields an amount |
| ConverterForm.Initial | components/converter-form/converter.tsx:21-27 | the constructor's state: amount 0, result 0, USD to RUB (distinct), loading |
| ConverterForm.ConvertStep | components/converter-form/converter.tsx:37-42 | the amount becomes the entered value, both currencies and the loading flag stay, and the result is the conversion of the new amount |
| ConverterForm.SetCurrencyStep | components/converter-form/converter.tsx:44-51 | the target becomes the pick, the amount and source stay, and the result is recomputed; the currencies remain distinct exactly when the pick is not the source currency |
| ConverterForm.SetSourceCurrencyStep | components/converter-form/converter.tsx:53-65 | the source becomes the pick; picking the current target swaps the pair, otherwise the target stays; the result is recomputed and distinct currencies stay distinct |
| ConverterForm.StopLoadingStep | components/converter-form/converter.tsx:67-69 | only the loading flag changes, to false |
| ConverterForm.Render | components/converter-form/converter.tsx:76-101 | the preloader is shown exactly while loading; the form shows the amount and the result, and its target picker excludes exactly the source currency |
| ConverterForm.OnEvent | components/converter-form/converter.tsx:81-86 | while loading, events other than the end of the load change nothing; once the form is shown, an amount, a source pick and an offered target pick are the `convert`, `setSourceCurrency` and `setCurrency` transitions, and the end of the load is `stopLoading` in either view; distinctness and consistency are preserved; after an amount or a source pick the result is consistent; a target pick of the source currency is not offered and changes nothing |
| ConverterForm.OnEventKeepsCoherent | components/converter-form/converter.tsx:37-69 | each event keeps the session invariant (distinct currencies, initial state while loading, consistent result once shown) |
| ConverterForm.RunKeepsCoherent | components/converter-form/converter.tsx:19-74 | every session keeps the invariant; with a complete table the shown result is always an amount |
| ConverterForm.SessionIsCoherent | components/converter-form/converter.tsx:19-35 | the invariant holds in every state reached from the constructor's state |
| ConverterForm.LoadingIgnoresInput | components/converter-form/converter.tsx:99-101 | while the preloader is shown, input events leave the state unchanged |
| ConverterForm.ResultConvertsBack | components/converter-form/converter.tsx:71-74 | with both rates usable, the shown result converts back to the entered amount |
| ConverterForm.SwapTwiceRestores | components/converter-form/converter.tsx:53-65 | picking the target as source swaps the pair, and swapping back restores the state exactly |
| ConverterForm.AmountAndTargetCommute | components/converter-form/converter.tsx:37-51 | entering an amount and picking a target give the same state in either order |
| ConverterForm.FiftyDollarsInRoubles | components/converter-form/converter.tsx:37-42 | 50 dollars show as 5000 roubles with rates {USD: 1, RUB: 100} |
| ConverterForm.Converter.constructor | components/converter-form/converter.tsx:19-28 | the fields hold the initial state and the rate table is empty |
| ConverterForm.Converter.Load | components/converter-form/converter.tsx:33-34 | the rate table becomes the decoded sheet, then loading stops |
| ConverterForm.Converter.Convert | components/converter-form/converter.tsx:37-42 | the fields become the `convert` transition of the old fields under the current table |
| ConverterForm.Converter.SetCurrency | components/converter-form/converter.tsx:44-51 | the fields become the `setCurrency` transition; the currencies are distinct afterwards exactly when the pick differs from the source |
| ConverterForm.Converter.SetSourceCurrency | components/converter-form/converter.tsx:53-65 | the fields become the `setSourceCurrency` transition, including the local reassignment of the target on a collision |
| ConverterForm.Converter.StopLoading | components/converter-form/converter.tsx:67-69 | the fields become the `stopLoading` transition |
| NumericInput.EmitChangeEvent | src/components/control/control.jsx:28-55 | an empty field or a lone "0" reports 0; any number reported is the parse of the text with the leading zero dropped and the first comma made a point |
| NumericInput.SilentExactly | src/components/control/control.jsx:28-55 | the handler is silent exactly when the raw text is neither empty nor a lone "0" and it contains a separator, one or more digits and another separator, or ends in a separator, or does not parse once the leading zero is dropped and the first comma made a point |
| NumericInput.StripDropsOneZero | src/components/control/control.jsx:31-33 | a text starting with '0' loses exactly that character; any other text is kept |
| NumericInput.EndsWithSeparatorIsSuffix | src/components/control/control.jsx:40 | the trailing-separator test holds exactly when the text ends with "," or with "." |
| NumericInput.EmitsParse | src/components/control/control.jsx:51-54 | a non-empty stripped text that passes both separator checks and parses is reported as that parse |
| NumericInput.SilentOnTrailingSeparator | src/components/control/control.jsx:40-49 | a text ending in ',' or '.' reports nothing |
| NumericInput.SilentOnExtraFloatingPoint | src/components/control/control.jsx:41-45 | a text with a separator, one or more digits and another separator reports nothing |
| NumericInput.StripKeepsExtraFloatingPoint | src/components/control/control.jsx:31-41 | dropping the leading zero does not change the separator-pattern test |
| NumericInput.ExtraFloatingPointIsPattern | src/components/control/control.jsx:41 | the left-to-right scanner succeeds exactly when some separator is followed by one or more digits and another separator |
| NumericInput.ScanFinds | src/components/control/control.jsx:41 | what each scanner state is looking for, in terms of the digit run that follows |
| NumericInput.ReplaceFirstComma | src/components/control/control.jsx:51 | the first comma, and no other character, becomes a point; the length is kept |
| NumericInput.ParseFloat | src/components/control/control.jsx:51 | an empty text does not parse, a text starting with a digit parses to a non-negative number, and a text starting with anything other than a digit, a point or a sign does not parse |
| NumericInput.ParseNegative | src/components/control/control.jsx:51 | a leading '-' negates the unsigned parse of the rest, and the text does not parse when the rest does not |
| NumericInput.ParsePositiveSign | src/components/control/control.jsx:51 | a leading '+' gives the unsigned parse of the rest |
| NumericInput.ParseDecimal | src/components/control/control.jsx:51 | `w.f` followed by a non-digit parses as the value of `w` plus the fraction `f` |
| NumericInput.ParseInteger | src/components/control/control.jsx:51 | a digit string parses as its value |
| NumericInput.DecimalInputEmitsValue | src/components/control/control.jsx:28-55 | digits, either separator, then at least one digit report that decimal number |
| NumericInput.IntegerInputEmitsValue | src/components/control/control.jsx:31-55 | a digit string reports its value, with the leading zero ignored |
| NumericInput.SeparatorsInterchangeable | src/components/control/control.jsx:40-51 | ',' and '.' give the same report as the decimal separator |
| NumericInput.AdjacentSeparatorsReportWhole | src/components/control/control.jsx:41-54 | two adjacent separators pass the pattern test, and the whole number before them is reported ("1..5" reports 1) |
| NumericInput.ZeroBeforeAdjacentSilent | src/components/control/control.jsx:31-54 | "0..5" reports nothing, because dropping the zero leaves "..5", which does not parse |
| NumericInput.OnlyOneLeadingZeroDropped | src/components/control/control.jsx:31-33 | "0-5" reports -5, while "00-5" reports 0 because only one zero is dropped |

## Left out

- The fetch of `/api/currencies` and the JSON decoding (converter.tsx lines 31-32) are I/O. `Load` takes the decoded table as a parameter. `_sheet` is kept only through the table it yields.
- Before the load, `_currencyMap` is undefined, and a conversion would throw in JavaScript. The model starts from an empty table, where every lookup misses and is reported as a missing rate.
- JavaScript numbers are IEEE-754 doubles. Amounts and rates here are exact reals. The NaN caused by an absent rate and the NaN or infinity caused by a zero source rate (NaN when the amount or the target rate is also zero, an infinity otherwise) are named causes (`MissingRate`, `ZeroRate`) in the `Conversion` result. Rounding is not modelled.
- The JSX markup, the CSS modules, the `toFixed(2)` output and `stringify` (control.jsx lines 16-21) are display formatting.
- React's `setState` is asynchronous and may batch. Each handler here is one atomic transition that reads the current state.
- `CurrencySelect` is not part of this model. The target picker's exclusion of the source currency is modelled as the view's `targetExcluded` list. A pick from that list does not arise in `OnEvent`.
- The `Currency` enumeration lives in interfaces/currency.interface, which is not part of this model. It is modelled as USD, RUB and EUR. The rate table is keyed by currency rather than by string.
- The `Control` that converter.tsx imports from ../input/control is not part of this model. The modelled handler of src/components/control/control.jsx is therefore not wired to the converter's `convert`.
- NumericInput.ParseFloat covers only a decimal prefix: an optional sign, digits, and an optional point followed by digits. It does not model exponents, leading whitespace or "Infinity".
- The browser's own filtering of the field's text for `type="number"` is not modelled. Any string can reach the handler.
- The optional call `props.onChange?.(0)` and the plain call `props.onChange(...)` are both modelled as reporting a number. A missing callback is not modelled.
- pages/index.tsx holds only page layout.
