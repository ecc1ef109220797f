/**
 The visual itself: the weekday check, the choice between the configured
 value and the Sunday fallback, the `toString(2).padStart(7, "0")` rendering, and
 the two text fields that each refresh overwrites.
 */
module Display {
  import Js
  import Settings

  // ---------------------------------------------------------------------------
  // The full mask and the weekday check
  // ---------------------------------------------------------------------------

  /** `reduce((acc, v) => acc | v, acc)` over `vs`, from the left. */
  function FoldOr(vs: seq<int>, acc: int): (r: int)
    decreases |vs|
  {
    if vs == [] then acc else FoldOr(vs[1..], Js.BitOr(acc, vs[0]))
  }

  /** The OR of every numeric member of the enum, starting from 0. */
  function AllFlags(): (mask: int) {
    FoldOr(Settings.EnumValues(), 0)
  }

  /**
   Folding the powers 2^j .. 2^6 into the j low bits gives the seven low bits.
   */
  lemma {:induction false} FoldOrOfPowers(vs: seq<int>, j: nat)
    requires j + |vs| == 7
    requires forall i :: 0 <= i < |vs| ==> vs[i] == Js.Power2(j + i)
    ensures FoldOr(vs, Js.Power2(j) - 1) == 127
    decreases |vs|
  {
    if vs == [] {
      assert Js.Power2(7) == 128;
    } else {
      Js.BitOrNextBit(j);
      FoldOrOfPowers(vs[1..], j + 1);
    }
  }

  /** The mask is 127, the seven weekday bits. */
  lemma {:induction false} AllFlagsIsFullMask()
    ensures AllFlags() == 127
  {
    Settings.EnumValuesArePowers();
    FoldOrOfWeekdayBits(Settings.EnumValues());
  }

  lemma {:induction false} FoldOrOfWeekdayBits(vs: seq<int>)
    requires |vs| == 7
    // `0 + i` is the `j + i` of FoldOrOfPowers at j = 0
    requires forall i :: 0 <= i < |vs| ==> vs[i] == Js.Power2(0 + i)
    ensures FoldOr(vs, 0) == 127
  {
    assert Js.Power2(0) - 1 == 0;
    FoldOrOfPowers(vs, 0);
  }

  /** `isWeekday`: `(allFlags && value) === value`, with the logical `&&`. */
  predicate IsWeekday(value: Js.Number) {
    Js.StrictEquals(Js.LogicalAnd(Js.Int(AllFlags()), value), value)
  }

  /** Since the mask is truthy, the check reduces to `value === value`: it rejects only NaN. */
  lemma {:induction false} IsWeekdayIffNotNaN(value: Js.Number)
    ensures IsWeekday(value) <==> value.Int?
  {
    AllFlagsIsFullMask();
  }

  /**
   The bitwise test `(allFlags & value) === value`, which accepts exactly the
   combinations of weekday bits. The visual does not use it; it is here to be
   compared with `IsWeekday`.
   */
  predicate IsFlagCombination(value: int) {
    Js.BitAnd(AllFlags(), value) == value
  }

  /** The bitwise test accepts exactly 0..127. */
  lemma {:induction false} IsFlagCombinationIffInRange(value: int)
    ensures IsFlagCombination(value) <==> 0 <= value <= 127
  {
    AllFlagsIsFullMask();
    MaskWithWeekdayBits(value);
  }

  lemma {:induction false} MaskWithWeekdayBits(value: int)
    ensures 0 <= Js.BitAnd(127, value) <= 127
    ensures 0 <= value <= 127 ==> Js.BitAnd(127, value) == value
  {
    assert Js.Power2(7) == 128;
    var u := Js.ToUint32(value);
    Js.AndBitsBound(127, u, 32);
    if 0 <= value <= 127 {
      Js.AndBitsLowMask(7, value, 32);
    }
  }

  /**
   Every combination of weekday bits passes `IsWeekday`, but so does every
   other integer: 128, 200, 255 and -1 pass it and fail the bitwise test.
   */
  lemma {:induction false} IsWeekdayAdmitsMoreThanCombinations(value: int)
    ensures IsFlagCombination(value) ==> IsWeekday(Js.Int(value))
    ensures IsWeekday(Js.Int(value)) && !IsFlagCombination(value) <==> value < 0 || value > 127
  {
    IsWeekdayIffNotNaN(Js.Int(value));
    IsFlagCombinationIffInRange(value);
  }

  // ---------------------------------------------------------------------------
  // Choosing the value to show
  // ---------------------------------------------------------------------------

  /** `isWeekday(v) ? v : Weekday.Sunday`: every integer is kept, NaN falls back to Sunday. */
  function Selected(value: Js.Number): (r: int)
    ensures value.Int? ==> r == value.value
    ensures value.NaN? ==> r == Settings.Value(Settings.Sunday) == 1
  {
    IsWeekdayIffNotNaN(value);
    if IsWeekday(value) then value.value else Settings.Value(Settings.Sunday)
  }

  // ---------------------------------------------------------------------------
  // Rendering
  // ---------------------------------------------------------------------------

  /** `v.toString(2).padStart(7, "0")` */
  function Format(v: int): (text: string) {
    Js.PadStart(Js.ToString(v, 2), 7, '0')
  }

  /** On 0..127 the text is exactly seven binary digits, and reading them back gives `v`. */
  lemma {:induction false} FormatRoundTrip(v: int)
    requires 0 <= v <= 127
    ensures |Format(v)| == 7
    ensures Js.IsDigitString(Format(v), 2)
    ensures Js.ParseBinary(Format(v)) == v
  {
    var t := Js.ToString(v, 2);
    var f := Format(v);
    FormatNarrowLength(v);
    Js.ParseBinaryPadded(f, t);
    Js.ToBinaryRoundTrip(v);
  }

  /** The binary digits of a value in 0..127 are at most seven. */
  lemma {:induction false} FormatNarrowLength(v: int)
    requires 0 <= v <= 127
    ensures |Js.ToString(v, 2)| <= 7
  {
    var t := Js.ToString(v, 2);
    Js.DigitsLength(v);
    assert Js.Power2(7) == 128;
    if |t| > 7 {
      Js.Power2Monotonic(7, |t| - 1);
    }
  }

  /** On 0..127 the character at index 6 - i is `1` exactly when bit i of `v` is set. */
  lemma {:induction false} FormatBit(v: int, i: nat)
    requires 0 <= v <= 127 && i < 7
    ensures Format(v)[6 - i] == '1' <==> Js.Bit(v, i) == 1
    ensures Format(v)[6 - i] == '0' <==> Js.Bit(v, i) == 0
  {
    FormatDigitValue(v, i);
    FormatRoundTrip(v);
    assert Js.DigitValue('1') == 1 && Js.DigitValue('0') == 0;
    if Format(v)[6 - i] == '1' || Js.Bit(v, i) == 1 {
      Js.DigitValueInjective(Format(v)[6 - i], '1');
    } else {
      Js.DigitValueInjective(Format(v)[6 - i], '0');
    }
  }

  lemma {:induction false} FormatDigitValue(v: int, i: nat)
    requires 0 <= v <= 127 && i < 7
    ensures |Format(v)| == 7
    ensures Js.DigitValue(Format(v)[6 - i]) == Js.Bit(v, i)
  {
    FormatRoundTrip(v);
    Js.ParseBinaryPositional(Format(v), i);
  }

  /** On 0..127 the character for weekday `d` is `1` exactly when `(v & d) !== 0`. */
  lemma {:induction false} FormatShowsWeekday(v: int, d: Settings.Weekday)
    requires 0 <= v <= 127
    ensures Format(v)[6 - Settings.Index(d)] == '1' <==> Js.BitAnd(v, Settings.Value(d)) != 0
  {
    FormatBit(v, Settings.Index(d));
    Settings.HasFlagIffBitSet(v, d);
  }

  /** Every seven-character binary text is the rendering of exactly one value in 0..127. */
  lemma {:induction false} FormatOntoBinaryTexts(s: string)
    requires |s| == 7 && Js.IsDigitString(s, 2)
    ensures Js.ParseBinary(s) <= 127
    ensures Format(Js.ParseBinary(s)) == s
  {
    assert Js.Power2(7) == 128;
    var v := Js.ParseBinary(s);
    var f := Format(v);
    FormatRoundTrip(v);
    forall k | 0 <= k < 7 ensures Js.DigitValue(f[k]) == Js.DigitValue(s[k]) {
      FormatDigitOfParsed(s, k);
    }
    Js.SameDigitsSameString(f, s);
  }

  lemma {:induction false} FormatDigitOfParsed(s: string, k: nat)
    requires |s| == 7 && Js.IsDigitString(s, 2) && k < 7
    ensures Js.ParseBinary(s) <= 127
    ensures |Format(Js.ParseBinary(s))| == 7
    ensures Js.DigitValue(Format(Js.ParseBinary(s))[k]) == Js.DigitValue(s[k])
  {
    assert Js.Power2(7) == 128;
    FormatDigitValue(Js.ParseBinary(s), 6 - k);
    Js.ParseBinaryPositional(s, 6 - k);
  }

  /** From 128 on, `padStart` adds nothing: the text is the plain numeral, longer than seven. */
  lemma {:induction false} FormatWide(v: int)
    requires v >= 128
    ensures Format(v) == Js.ToString(v, 2)
    ensures |Format(v)| > 7
    ensures Js.ParseBinary(Format(v)) == v
  {
    Js.DigitsLength(v);
    assert Js.Power2(7) == 128;
    if |Js.ToString(v, 2)| <= 7 {
      Js.Power2Monotonic(|Js.ToString(v, 2)|, 7);
    }
    Js.ToBinaryRoundTrip(v);
  }

  /** Below 0 the `-` stays in the text and the zeros go in front of it. */
  lemma {:induction false} FormatNegative(v: int)
    requires v < 0
    ensures var t := Js.ToString(v, 2);
      && |Format(v)| == (if |t| < 7 then 7 else |t|)
      && Format(v)[|Format(v)| - |t|] == '-'
      && (forall k :: 0 <= k < |Format(v)| - |t| ==> Format(v)[k] == '0')
      && Js.ParseBinary(Format(v)[|Format(v)| - |t| + 1..]) == -v
  {
    var t := Js.ToString(v, 2);
    var f := Format(v);
    assert f[|f| - |t|..] == t;
    assert f[|f| - |t| + 1..] == t[1..];
    Js.ToBinaryRoundTrip(v);
  }

  /** No weekday: seven zeros. */
  lemma {:induction false} FormatOfZero()
    ensures Format(0) == "0000000"
  {
  }

  /** Sunday alone, the fallback value. */
  lemma {:induction false} FormatOfSunday()
    ensures Format(1) == "0000001"
  {
  }

  /** Sunday and Tuesday. */
  lemma {:induction false} FormatOfSundayAndTuesday()
    ensures Format(5) == "0000101"
  {
  }

  /** Saturday alone: the leftmost character. */
  lemma {:induction false} FormatOfSaturday()
    ensures Format(64) == "1000000"
  {
  }

  /** Every weekday. */
  lemma {:induction false} FormatOfAllDays()
    ensures Format(127) == "1111111"
  {
  }

  /** Above 127 the numeral is eight characters long. */
  lemma {:induction false} FormatOfTwoHundred()
    ensures Format(200) == "11001000"
  {
  }

  /** Below 0 the sign is kept and the zeros go in front of it. */
  lemma {:induction false} FormatOfMinusOne()
    ensures Format(-1) == "00000-1"
  {
  }

  /** The text a field shows for a configured value: the selected value, rendered. */
  function DisplayText(value: Js.Number): (text: string) {
    Format(Selected(value))
  }

  /**
   What a field shows: `"0000001"` for NaN, the value's seven binary digits
   for 0..127, and a longer numeral from 128 on.
   */
  lemma {:induction false} DisplayTextMeaning(value: Js.Number)
    ensures value.NaN? ==> DisplayText(value) == "0000001"
    ensures value.Int? ==> DisplayText(value) == Format(value.value)
    ensures value.Int? && 0 <= value.value <= 127 ==>
      |DisplayText(value)| == 7 && Js.IsDigitString(DisplayText(value), 2) &&
      Js.ParseBinary(DisplayText(value)) == value.value
    ensures value.Int? && value.value >= 128 ==> |DisplayText(value)| > 7
  {
    match value
    case NaN => FormatOfSunday();
    case Int(v) =>
      if 0 <= v <= 127 {
        FormatRoundTrip(v);
      } else if v >= 128 {
        FormatWide(v);
      }
  }

  /**
   200 is not a combination of weekday bits, yet it is shown as its own
   eight-character numeral rather than replaced by Sunday's `"0000001"`.
   */
  lemma {:induction false} DisplayOfTwoHundred()
    ensures !IsFlagCombination(200)
    ensures DisplayText(Js.Int(200)) == "11001000"
    ensures DisplayText(Js.Int(200)) != DisplayText(Js.NaN)
  {
    IsFlagCombinationIffInRange(200);
    DisplayTextMeaning(Js.Int(200));
    DisplayTextMeaning(Js.NaN);
    FormatOfTwoHundred();
  }

  // ---------------------------------------------------------------------------
  // The visual's state
  // ---------------------------------------------------------------------------

  /**
   The visual: two text fields, one for the auto flags and one for the item
   flags, and the update counter that seeds their first text.
   */
  class Visual {
    var updateCount: int
    var autoFlagsText: string
    var itemFlagsText: string

    /** Both fields start as the counter's decimal text, `"0"`. */
    constructor ()
      ensures updateCount == 0
      ensures autoFlagsText == "0" && itemFlagsText == "0"
    {
      updateCount := 0;
      new;
      autoFlagsText := Js.ToString(updateCount, 10);
      itemFlagsText := Js.ToString(updateCount, 10);
    }

    /**
     A refresh: each configured value is checked, replaced by Sunday if the
     check fails, rendered, and written over its field.
     */
    method Update(autoFlagsNumber: Js.Number, itemFlagsValue: int)
      modifies this
      ensures autoFlagsText == DisplayText(autoFlagsNumber)
      ensures itemFlagsText == DisplayText(Js.Int(itemFlagsValue))
      ensures updateCount == old(updateCount)
    {
      var autoFlags := Selected(autoFlagsNumber);
      var itemFlags := Selected(Js.Int(itemFlagsValue));
      autoFlagsText := Format(autoFlags);
      itemFlagsText := Format(itemFlags);
    }
  }

  /** Refreshing twice with the same configuration leaves the texts the first refresh wrote. */
  method RefreshTwice(v: Visual, autoFlagsNumber: Js.Number, itemFlagsValue: int)
    returns (firstAuto: string, firstItem: string)
    modifies v
    ensures firstAuto == v.autoFlagsText == DisplayText(autoFlagsNumber)
    ensures firstItem == v.itemFlagsText == DisplayText(Js.Int(itemFlagsValue))
  {
    v.Update(autoFlagsNumber, itemFlagsValue);
    firstAuto, firstItem := v.autoFlagsText, v.itemFlagsText;
    v.Update(autoFlagsNumber, itemFlagsValue);
  }

  /** A fresh visual refreshed with auto flags 5 and item flags 127, then with NaN and 200. */
  method RefreshScenario() returns (autoText: string, itemText: string, autoText2: string, itemText2: string)
    ensures autoText == "0000101" && itemText == "1111111"
    ensures autoText2 == "0000001" && itemText2 == "11001000"
  {
    var v := new Visual();
    v.Update(Js.Int(5), 127);
    autoText, itemText := v.autoFlagsText, v.itemFlagsText;
    v.Update(Js.NaN, 200);
    autoText2, itemText2 := v.autoFlagsText, v.itemFlagsText;
    DisplayTextMeaning(Js.Int(5));
    DisplayTextMeaning(Js.Int(127));
    DisplayTextMeaning(Js.NaN);
    DisplayTextMeaning(Js.Int(200));
    FormatOfSundayAndTuesday();
    FormatOfAllDays();
    FormatOfTwoHundred();
  }
}
