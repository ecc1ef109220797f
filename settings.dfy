/**
 The weekday flag enumeration of the visual's settings and the option list
 that the item-flags selector offers: one flag per weekday, Sunday in bit 0
 through Saturday in bit 6.
 */
module Settings {
  import Js

  /** The members of the `Weekday` enum, in declaration order. */
  datatype Weekday = Sunday | Monday | Tuesday | Wednesday | Thursday | Friday | Saturday

  /** Every member once, in declaration order. */
  const Members: seq<Weekday> := [Sunday, Monday, Tuesday, Wednesday, Thursday, Friday, Saturday]

  /** The bit a member occupies, which is also its position in the declaration. */
  function Index(d: Weekday): (i: nat)
    ensures i < |Members| && Members[i] == d
  {
    match d
    case Sunday => 0
    case Monday => 1
    case Tuesday => 2
    case Wednesday => 3
    case Thursday => 4
    case Friday => 5
    case Saturday => 6
  }

  /**
   The value of a member, as the enum's constant initialisers `1 << 0` ..
   `1 << 6` evaluate (see `ValueIsShiftOfOne`).
   */
  function Value(d: Weekday): (v: int) {
    match d
    case Sunday => 1
    case Monday => 2
    case Tuesday => 4
    case Wednesday => 8
    case Thursday => 16
    case Friday => 32
    case Saturday => 64
  }

  /** A member's value is 2^index: bit `Index(d)` alone. */
  lemma {:induction false} ValueIsPowerOfIndex(d: Weekday)
    ensures Value(d) == Js.Power2(Index(d))
  {
    assert Js.Power2(6) == 64;
  }

  /** The member's name, which the option list shows as its display name. */
  function Name(d: Weekday): (name: string) {
    match d
    case Sunday => "Sunday"
    case Monday => "Monday"
    case Tuesday => "Tuesday"
    case Wednesday => "Wednesday"
    case Thursday => "Thursday"
    case Friday => "Friday"
    case Saturday => "Saturday"
  }

  /** The numeric members of the enum object, in the order the object lists them. */
  function EnumValues(): (vs: seq<int>) {
    seq(|Members|, i requires 0 <= i < |Members| => Value(Members[i]))
  }

  /** One entry of a selector's option list. */
  datatype EnumMember = EnumMember(value: int, displayName: string)

  /** The options of the item-flags selector. */
  function ItemFlagsOptions(): (options: seq<EnumMember>) {
    [
      EnumMember(Value(Sunday), "Sunday"),
      EnumMember(Value(Monday), "Monday"),
      EnumMember(Value(Tuesday), "Tuesday"),
      EnumMember(Value(Wednesday), "Wednesday"),
      EnumMember(Value(Thursday), "Thursday"),
      EnumMember(Value(Friday), "Friday"),
      EnumMember(Value(Saturday), "Saturday")
    ]
  }

  /** The enum's initialisers: each member's value is `1 << index` under JavaScript's 32-bit shift. */
  lemma {:induction false} ValueIsShiftOfOne(d: Weekday)
    ensures Value(d) == Js.ShiftLeft(1, Index(d))
  {
    ValueIsPowerOfIndex(d);
    Js.ShiftLeftOfOne(Index(d));
  }

  /** A member's value has exactly one bit set, the bit at its index. */
  lemma {:induction false} ValueHasOnlyItsOwnBit(d: Weekday, i: nat)
    ensures Js.Bit(Value(d), i) == if i == Index(d) then 1 else 0
  {
    ValueIsPowerOfIndex(d);
    PowerOfTwoBits(Index(d), i);
  }

  lemma {:induction false} PowerOfTwoBits(k: nat, i: nat)
    ensures Js.Bit(Js.Power2(k), i) == if i == k then 1 else 0
    decreases k
  {
    if k == 0 {
      if i > 0 {
        Js.BitAboveIsZero(1, 1, i);
      }
    } else if i > 0 {
      PowerOfTwoBits(k - 1, i - 1);
    }
  }

  /** The fallback member of the visual is Sunday, whose value is 1. */
  lemma {:induction false} SundayIsOne()
    ensures Value(Sunday) == 1
  {
  }

  /** Distinct members share no bit. */
  lemma {:induction false} MembersAreDisjoint(a: Weekday, b: Weekday)
    requires a != b
    ensures Js.BitAnd(Value(a), Value(b)) == 0
  {
    ValueIsPowerOfIndex(a);
    ValueIsPowerOfIndex(b);
    assert Js.ToUint32(Value(a)) == Js.Power2(Index(a));
    assert Js.ToUint32(Value(b)) == Js.Power2(Index(b));
    Js.AndBitsDistinctPowers(Index(a), Index(b), 32);
  }

  /**
   For a flag set `v` that fits in 32 bits, the test `(v & member) !== 0`
   holds exactly when the member's bit is set in `v`.
   */
  lemma {:induction false} HasFlagIffBitSet(v: int, d: Weekday)
    requires 0 <= v < Js.TwoTo32
    ensures Js.BitAnd(v, Value(d)) != 0 <==> Js.Bit(v, Index(d)) == 1
    ensures Js.BitAnd(v, Value(d)) == if Js.Bit(v, Index(d)) == 1 then Value(d) else 0
  {
    ValueIsPowerOfIndex(d);
    Js.AndBitsSingleBit(v, Index(d), 32);
  }

  /** The members' values are pairwise distinct. */
  lemma {:induction false} ValueIsInjective(a: Weekday, b: Weekday)
    requires Value(a) == Value(b)
    ensures a == b
  {
    ValueHasOnlyItsOwnBit(a, Index(a));
    ValueHasOnlyItsOwnBit(b, Index(a));
  }

  /** The members' values add up to 127 = 2^7 - 1, the seven low bits. */
  lemma {:induction false} ValuesSumToFullMask()
    ensures Sum(EnumValues()) == 127 == Js.Power2(|Members|) - 1
  {
    var vs := EnumValues();
    assert vs[0] == 1 && vs[1] == 2 && vs[2] == 4 && vs[3] == 8 && vs[4] == 16 && vs[5] == 32 && vs[6] == 64;
    assert vs == [1, 2, 4, 8, 16, 32, 64];
    assert Js.Power2(7) == 128;
  }

  function Sum(vs: seq<int>): (s: int) {
    if vs == [] then 0 else vs[0] + Sum(vs[1..])
  }

  /** The option list has one entry per member, in declaration order, each naming its member. */
  lemma {:induction false} OptionsFollowMembers()
    ensures |ItemFlagsOptions()| == |Members| == 7
    ensures forall i :: 0 <= i < |Members| ==>
      ItemFlagsOptions()[i].value == Value(Members[i]) && ItemFlagsOptions()[i].displayName == Name(Members[i])
  {
  }

  /** Different members have different names. */
  lemma {:induction false} NameIsInjective(a: Weekday, b: Weekday)
    requires Name(a) == Name(b)
    ensures a == b
  {
    assert Name(a)[..2] == Name(b)[..2];
  }

  /** Reading the member list at a member's index gives back that index. */
  lemma {:induction false} IndexOfMember(i: nat)
    requires i < |Members|
    ensures Index(Members[i]) == i
  {
  }

  /** The enum's values, in order, are 2^0 .. 2^6. */
  lemma {:induction false} EnumValuesArePowers()
    ensures |EnumValues()| == 7
    // `0 + i` is the `j + i` of Display.FoldOrOfPowers at j = 0
    ensures forall i :: 0 <= i < |EnumValues()| ==> EnumValues()[i] == Js.Power2(0 + i)
  {
    var vs := EnumValues();
    forall i | 0 <= i < |vs| ensures vs[i] == Js.Power2(0 + i) {
      IndexOfMember(i);
      ValueIsPowerOfIndex(Members[i]);
    }
  }

  /** Every member is offered exactly once, and no two options share a display name. */
  lemma {:induction false} OptionsCoverMembersOnce(d: Weekday)
    ensures exists i :: 0 <= i < |ItemFlagsOptions()| && ItemFlagsOptions()[i].value == Value(d)
    ensures forall i, j :: 0 <= i < j < |ItemFlagsOptions()| ==>
      ItemFlagsOptions()[i].value != ItemFlagsOptions()[j].value &&
      ItemFlagsOptions()[i].displayName != ItemFlagsOptions()[j].displayName
  {
    OptionsFollowMembers();
    assert ItemFlagsOptions()[Index(d)].value == Value(d);
    forall i, j | 0 <= i < j < |ItemFlagsOptions()|
      ensures ItemFlagsOptions()[i].value != ItemFlagsOptions()[j].value
      ensures ItemFlagsOptions()[i].displayName != ItemFlagsOptions()[j].displayName
    {
      IndexOfMember(i);
      IndexOfMember(j);
      if ItemFlagsOptions()[i].value == ItemFlagsOptions()[j].value {
        ValueIsInjective(Members[i], Members[j]);
      }
      if ItemFlagsOptions()[i].displayName == ItemFlagsOptions()[j].displayName {
        NameIsInjective(Members[i], Members[j]);
      }
    }
  }
}
