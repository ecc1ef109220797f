# Weekday flags visual — a verified model

The plugin shows two weekday selections, "auto flags" and "item flags". Each
selection is a bitmask: Sunday is bit 0 and Saturday is bit 6. On every refresh the
visual checks each configured value, falls back to Sunday when the check fails,
and writes the value's binary numeral, padded on the left with zeros to seven
characters, into its own field. Values outside 0..127 give longer or non-binary texts.

The project has three modules:

- `Js` (`js.dfy`) holds the JavaScript semantics the code relies on:
  - numbers restricted to integers and NaN;
  - ToUint32 and the 32-bit operators `|`, `&` and `<<`;
  - the logical `&&` with truthiness, and `===`, under which NaN is unequal to itself;
  - `Number.prototype.toString(radix)` on integers;
  - `String.prototype.padStart` with a one-character filler;
  - the reading of a binary numeral back into its value.
- `Settings` (`settings.dfy`) holds the `Weekday` enum and the option list of the item-flags selector.
- `Display` (`visual.dfy`) holds:
  - the `isWeekday` check and its mask;
  - the check-or-Sunday choice;
  - the `toString(2).padStart(7, "0")` rendering;
  - the `Visual` class, with the update counter and the two text fields.

## What the code does, and what it appears to intend

The check in `isWeekday` is `(allFlags && value) === value`. It uses the logical
`&&`, not the bitwise `&`. The mask is 127, which is truthy, so the expression
yields `value` and the check reduces to `value === value`. It is therefore true
for every integer and false only for NaN. The model keeps the check as written
(`Display.IsWeekday`).

The function's name and its type guard `value is Weekday` (src/visual.ts:91)
suggest that the bitwise test `(allFlags & value) === value` was meant, which
accepts exactly the combinations of weekday bits. The model states that test as
`Display.IsFlagCombination` and proves it true exactly on 0..127, so that the two
can be compared.

The consequences of the check as written are proved:

- 200 is not replaced by Sunday. It is shown as `"11001000"`, eight characters long.
- A negative value keeps its `-`, and the zeros go in front of it: -1 is shown as `"00000-1"`.
- Only a NaN auto-flags value falls back to Sunday, shown as `"0000001"`.

## Model

| member | source | states |
|---|---|---|
| Js.BitOr | src/visual.ts:92 | the bitwise OR operator: ToUint32 on both operands, OR on 32 bits, read back as a signed 32-bit integer; its contract bounds the result to the signed 32-bit range, and OrBitsIsBitwise gives its bits |
| Js.BitAnd | src/visual.ts:93 | `a & b`, the operator the check does not use, computed like the OR; its contract bounds the result to the signed 32-bit range, and AndBitsIsBitwise gives its bits |
| Js.ShiftLeft | src/settings.ts:38-44 | `a << n`: shift count modulo 32, product wrapped to 32 bits and read as signed; its contract bounds the result to the signed 32-bit range, and ShiftLeftOfOne evaluates the enum's shifts |
| Js.LogicalAnd | src/visual.ts:93 | `a && b` gives `a` when `a` is falsy (NaN or 0), otherwise `b`; IsWeekdayIffNotNaN states what it makes of the check |
| Js.StrictEquals | src/visual.ts:93 | `a === b` on numbers, false whenever either side is NaN; StrictEqualsIsReflexiveExceptNaN states its behaviour on `v === v` |
| Js.StrictEqualsIsReflexiveExceptNaN | src/visual.ts:93 | `v === v` holds exactly when `v` is not NaN |
| Js.ToString | src/visual.ts:84 | `toString(radix)` starts with `-` exactly for negative values, and the rest is digits of the radix |
| Js.PadStart | src/visual.ts:84 | `padStart` gives length max(target, length); the original text is the suffix, preceded only by filler (it never truncates) |
| Js.ParseBinaryOfDigits | src/visual.ts:84 | reading back the binary digits of `n` gives `n` |
| Js.ToBinaryRoundTrip | src/visual.ts:84 | `toString(2)` is undone by reading the digits and applying the sign |
| Js.DigitsLength | src/visual.ts:84 | the binary numeral of `n` has the minimal number of digits: `n < 2^len`, and `2^(len-1) <= n` unless `n` is 0, written `"0"` |
| Js.DigitsPositional | src/visual.ts:84 | the digit at position len-1-i of the binary numeral of `n` is bit i of `n`; the bits beyond the length are 0 |
| Js.ParseBinaryPositional | src/visual.ts:84 | bit i of the value read from a binary text is the digit at position len-1-i |
| Js.ParseBinaryLeadingZeros | src/visual.ts:84 | zeros added on the left do not change the value read |
| Js.ParseBinaryPadded | src/visual.ts:84 | a numeral padded with `'0'` on the left is still binary and reads as the numeral |
| Js.OrBitsIsBitwise | src/visual.ts:92 | below bit k, the 32-bit OR is the OR of the operands bit by bit |
| Js.AndBitsIsBitwise | src/visual.ts:93 | below bit k, the 32-bit AND (the operator the check does not use) is the AND of the operands bit by bit |
| Js.BitsResultFitsWidth | src/visual.ts:92 | the bitwise operators on k bits give results below 2^k |
| Js.BitOrNextBit | src/visual.ts:92 | the OR of 2^j - 1 and 2^j is 2^(j+1) - 1 for the weekday exponents |
| Js.ShiftLeftOfOne | src/settings.ts:38-44 | `1 << i` is 2^i for the shift counts of the enum |
| Settings.Value | src/settings.ts:38-44 | the members' values 1, 2, 4, ..., 64; ValueIsShiftOfOne ties each to its initialiser `1 << index` |
| Settings.EnumValues | src/visual.ts:92 | the numeric members that `Object.values(Weekday)` filtered on `typeof` yields, in declaration order; EnumValuesArePowers states them as 2^0 .. 2^6 |
| Settings.Index | src/settings.ts:37-45 | each member's bit is its position in the declaration, Sunday first |
| Settings.ValueIsShiftOfOne | src/settings.ts:38-44 | each member's value is `1 << index` under the 32-bit shift |
| Settings.ValueIsPowerOfIndex | src/settings.ts:38-44 | each member's value is 2^index |
| Settings.ValueHasOnlyItsOwnBit | src/settings.ts:38-44 | a member's value has exactly one bit set, the bit at its index |
| Settings.SundayIsOne | src/settings.ts:38 | Sunday, the fallback, is 1 |
| Settings.MembersAreDisjoint | src/settings.ts:38-44 | the AND of two distinct members is 0 |
| Settings.ValueIsInjective | src/settings.ts:37-45 | distinct members have distinct values |
| Settings.HasFlagIffBitSet | src/settings.ts:37-45 | for a 32-bit flag set `v`, `(v & member) != 0` exactly when the member's bit is set; the AND is then the member's value |
| Settings.ValuesSumToFullMask | src/settings.ts:37-45 | the seven values add up to 127 = 2^7 - 1 |
| Settings.EnumValuesArePowers | src/visual.ts:92 | the numeric values of the enum, in order, are 2^0 .. 2^6 |
| Settings.Name | src/settings.ts:48-54 | the display name each option gives its member, the member's own name; NameIsInjective proves the names distinct |
| Settings.ItemFlagsOptions | src/settings.ts:47-55 | the item-flags option list, one EnumMember(value, displayName) per weekday, Sunday first; OptionsFollowMembers and OptionsCoverMembersOnce state its order and coverage |
| Settings.OptionsFollowMembers | src/settings.ts:47-55 | the option list has 7 entries in Sunday..Saturday order, each carrying its member's value and name |
| Settings.NameIsInjective | src/settings.ts:48-54 | distinct members have distinct display names |
| Settings.OptionsCoverMembersOnce | src/settings.ts:48-54 | every member is offered, no value is offered twice, and the display names are pairwise distinct |
| Display.FoldOr | src/visual.ts:92 | the `reduce` that ORs each value into the accumulator, from the left; FoldOrOfPowers states what it gives on the weekday bits |
| Display.AllFlags | src/visual.ts:92 | `allFlags`, the fold from 0 over the enum's values; AllFlagsIsFullMask proves it is 127 |
| Display.IsWeekday | src/visual.ts:91-94 | `(allFlags && value) === value` with the logical `&&`, as written; IsWeekdayIffNotNaN states that it rejects only NaN |
| Display.IsFlagCombination | src/visual.ts:93 | the bitwise test `(allFlags & value) === value`, stated for comparison and not used by the visual; IsFlagCombinationIffInRange proves it true exactly on 0..127 |
| Display.FoldOrOfPowers | src/visual.ts:92 | OR-folding 2^j .. 2^6 into the j low bits gives 127 |
| Display.FoldOrOfWeekdayBits | src/visual.ts:92 | OR-folding 2^0 .. 2^6 from 0 gives 127 |
| Display.AllFlagsIsFullMask | src/visual.ts:92 | the mask, the OR of all enum values, is 127 |
| Display.IsWeekdayIffNotNaN | src/visual.ts:91-94 | `isWeekday(v)` is true exactly when `v` is not NaN: every integer passes, 128, 200 and -1 included |
| Display.IsFlagCombinationIffInRange | src/visual.ts:93 | the bitwise test `(127 & v) === v` is true exactly on 0..127 |
| Display.IsWeekdayAdmitsMoreThanCombinations | src/visual.ts:91-94 | every flag combination passes `isWeekday`, and exactly the integers outside 0..127 pass it while failing the bitwise test |
| Display.Selected | src/visual.ts:76-81 | the check-or-Sunday choice keeps every integer and turns NaN into Sunday, 1 |
| Display.Format | src/visual.ts:84 | `v.toString(2).padStart(7, "0")`; FormatRoundTrip, FormatBit, FormatWide and FormatNegative state what it shows in each range |
| Display.FormatNarrowLength | src/visual.ts:84 | on 0..127 the binary numeral has at most 7 digits |
| Display.FormatRoundTrip | src/visual.ts:84 | on 0..127 the text is exactly 7 binary digits and reads back as the value |
| Display.FormatDigitValue | src/visual.ts:84 | on 0..127 the digit at index 6-i is bit i of the value |
| Display.FormatBit | src/visual.ts:84 | on 0..127 the character at index 6-i is `'1'` exactly when bit i is set, and `'0'` exactly when it is clear |
| Display.FormatShowsWeekday | src/visual.ts:84 | on 0..127 the character for weekday d is `'1'` exactly when `(v & d) !== 0` |
| Display.FormatOntoBinaryTexts | src/visual.ts:84 | every 7-character binary text is the rendering of the value in 0..127 that it reads as |
| Display.FormatDigitOfParsed | src/visual.ts:84 | rendering the value of a 7-digit binary text reproduces each digit |
| Display.FormatWide | src/visual.ts:84 | from 128 on, `padStart` adds nothing: the text is the plain numeral, longer than 7, reading back as the value |
| Display.FormatNegative | src/visual.ts:84 | below 0, the text is padded to 7 with zeros in front of the `-`, and the digits after the `-` read as the magnitude |
| Display.FormatOfZero | src/visual.ts:84 | 0 is shown as `"0000000"` |
| Display.FormatOfSunday | src/visual.ts:84 | 1 is shown as `"0000001"` |
| Display.FormatOfSundayAndTuesday | src/visual.ts:84 | 5 is shown as `"0000101"` |
| Display.FormatOfSaturday | src/visual.ts:84 | 64 is shown as `"1000000"` |
| Display.FormatOfAllDays | src/visual.ts:84 | 127 is shown as `"1111111"` |
| Display.FormatOfTwoHundred | src/visual.ts:84 | 200 is shown as `"11001000"` |
| Display.FormatOfMinusOne | src/visual.ts:84 | -1 is shown as `"00000-1"` |
| Display.DisplayText | src/visual.ts:76-87 | a field's text: the value the check-or-Sunday choice keeps, rendered by Format; DisplayTextMeaning states what it shows |
| Display.DisplayTextMeaning | src/visual.ts:76-87 | a field shows `"0000001"` for NaN and the rendering of the integer itself otherwise: 7 binary digits reading back as the value on 0..127, and a longer text from 128 on |
| Display.DisplayOfTwoHundred | src/visual.ts:81-87 | 200 fails the bitwise test yet is shown as `"11001000"`, not as the fallback's text |
| Display.Visual.constructor | src/visual.ts:52-68 | a new visual has counter 0, and both fields hold the counter's decimal text `"0"` |
| Display.Visual.Update | src/visual.ts:72-88 | a refresh overwrites each field with the text for its own input, and leaves the counter as it was |
| Display.RefreshTwice | src/visual.ts:72-88 | a second refresh with the same inputs leaves the texts the first one wrote |
| Display.RefreshScenario | src/visual.ts:49-88 | a new visual refreshed with 5 and 127 shows `"0000101"` and `"1111111"`; refreshed again with NaN and 200, it shows `"0000001"` and `"11001000"` |

## Left out

- DOM construction is not modelled: the `target` element, the paragraph and emphasis elements, `appendChild`, and the `if (document)` and `if (node)` guards. The two text nodes are two string fields that always exist.
- The formatting-settings service is not modelled. The host library's `populateFormattingSettingsModel` and `buildFormattingModel` are called from `update` (src/visual.ts:73) and from the visual's own `getFormattingModel` (src/visual.ts:100-102), which only delegates to the library.
- The settings schema classes `DataPointCardSettings` and `VisualFormattingSettingsModel` are not modelled. Neither is the stylesheet import.
- Reading the configured values out of the settings model is left out: `Number(autoFlagsValue.valueOf())` and the `as any` cast. `Visual.Update` takes the two numbers as inputs instead. The auto value may be NaN. The item value is an integer.
- The reflection `Object.values(Weekday)` and its `typeof` filter are modelled by their result, `Settings.EnumValues`. This is the seven numeric members in declaration order.
- Non-integer numbers are not modelled, nor are ±Infinity or an `undefined` item value. For a finite non-integer, `toString(2)` writes fractional digits. `Number(...)` at src/visual.ts:76 can also give ±Infinity: it passes the check, because `Infinity === Infinity`, and it is shown as `"Infinity"` or `"-Infinity"`, which are already longer than 7 characters and get no padding. An `undefined` value passes the check and then throws in `toString`. All of these are floating-point or dynamic-typing behaviour.
- Js.PadStart: covers only a one-character filler. That is the only filler the visual uses.
- Js.ToString: the properties about the digits are proved for radix 2 only. Radix 10 is used only for the counter's initial 0.
