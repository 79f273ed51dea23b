/** The canonical button set `SteamDeckGamepadButton`: a set of logical
    buttons, stored by the program as a `u32` with one bit per button.
    Bits 0..27 are named; the rest are unused. */
module Buttons {

  /** One logical button, in the order the flags are declared. */
  datatype Button =
    | R1 | R2 | L1 | L2 | NORTH | EAST | WEST | SOUTH
    | DPAD_UP | DPAD_RIGHT | DPAD_LEFT | DPAD_DOWN | START | SELECT | RSTICK | LSTICK
    | STEAM | QAM | R4 | R5 | L4 | L5 | RSTICK_TOUCH | LSTICK_TOUCH
    | LPAD | RPAD | LPAD_TOUCH | RPAD_TOUCH

  /** A value of `SteamDeckGamepadButton`: the buttons whose bits are set. */
  type ButtonSet = set<Button>

  /** Every button, in declaration order (what `all().into_iter()` yields). */
  const AllButtons: seq<Button> :=
    [ R1, R2, L1, L2, NORTH, EAST, WEST, SOUTH,
      DPAD_UP, DPAD_RIGHT, DPAD_LEFT, DPAD_DOWN, START, SELECT, RSTICK, LSTICK,
      STEAM, QAM, R4, R5, L4, L5, RSTICK_TOUCH, LSTICK_TOUCH,
      LPAD, RPAD, LPAD_TOUCH, RPAD_TOUCH ]

  /** The number of defined buttons. */
  const FlagCount: nat := 28

  /** The position of a button in the declaration order. */
  function Index(b: Button): (i: nat)
    ensures i < FlagCount && i < |AllButtons| && AllButtons[i] == b
  {
    match b
    case R1 => 0
    case R2 => 1
    case L1 => 2
    case L2 => 3
    case NORTH => 4
    case EAST => 5
    case WEST => 6
    case SOUTH => 7
    case DPAD_UP => 8
    case DPAD_RIGHT => 9
    case DPAD_LEFT => 10
    case DPAD_DOWN => 11
    case START => 12
    case SELECT => 13
    case RSTICK => 14
    case LSTICK => 15
    case STEAM => 16
    case QAM => 17
    case R4 => 18
    case R5 => 19
    case L4 => 20
    case L5 => 21
    case RSTICK_TOUCH => 22
    case LSTICK_TOUCH => 23
    case LPAD => 24
    case RPAD => 25
    case LPAD_TOUCH => 26
    case RPAD_TOUCH => 27
  }

  /** The `u32` representation. */
  type Bits = bv32

  const Empty: Bits := 0

  /** The declared values `1 << 0` .. `1 << 27`, in declaration order. */
  const AllFlags: seq<Bits> :=
    [ 0x0000_0001, 0x0000_0002, 0x0000_0004, 0x0000_0008,
      0x0000_0010, 0x0000_0020, 0x0000_0040, 0x0000_0080,
      0x0000_0100, 0x0000_0200, 0x0000_0400, 0x0000_0800,
      0x0000_1000, 0x0000_2000, 0x0000_4000, 0x0000_8000,
      0x0001_0000, 0x0002_0000, 0x0004_0000, 0x0008_0000,
      0x0010_0000, 0x0020_0000, 0x0040_0000, 0x0080_0000,
      0x0100_0000, 0x0200_0000, 0x0400_0000, 0x0800_0000 ]

  /** The bits of every defined button (`all().bits()`). */
  const All: Bits := 0x0FFF_FFFF

  /** The declared value of one button. */
  function Value(b: Button): Bits {
    AllFlags[Index(b)]
  }

  /** `contains`: every bit of `flag` is set in `s`. */
  predicate Contains(s: Bits, flag: Bits) {
    s & flag == flag
  }

  /** `flag` is exactly one bit. */
  predicate IsSingleBit(flag: Bits) {
    flag != 0 && flag & (flag - 1) == 0
  }

  /** The union of the first `n` sets of `flags`. */
  function UnionUpTo(flags: seq<Bits>, n: nat): Bits
    requires n <= |flags|
  {
    if n == 0 then Empty else UnionUpTo(flags, n - 1) | flags[n - 1]
  }

  /** The low `n` bits, built bit by bit. */
  function LowBits(n: nat): Bits
    requires n <= 32
  {
    if n == 0 then Empty else (LowBits(n - 1) << 1) | 1
  }

  /** `LowBits(n)` is a run of ones starting at bit 0: adding one carries through all of it. */
  lemma {:induction false} LowBitsIsRun(n: nat)
    requires n <= 32
    ensures LowBits(n) & (LowBits(n) + 1) == Empty
  {
    if n > 0 {
      LowBitsIsRun(n - 1);
    }
  }

  lemma {:induction false} LowBitsMonotone(m: nat, n: nat)
    requires m <= n <= 32
    ensures LowBits(m) & !LowBits(n) == Empty
  {
    if m < n {
      LowBitsMonotone(m, n - 1);
      LowBitsIsRun(n - 1);
    }
  }

  lemma LowBitsOfAll()
    ensures LowBits(FlagCount) == All
  {
    assert LowBits(7) == 0x7F;
    assert LowBits(14) == 0x3FFF;
    assert LowBits(21) == 0x1F_FFFF;
  }

  lemma FlagDoublesLow(i: nat)
    requires 0 < i < 14
    ensures AllFlags[i] == AllFlags[i - 1] << 1
  {
  }

  lemma FlagDoublesHigh(i: nat)
    requires 14 <= i < |AllFlags|
    ensures AllFlags[i] == AllFlags[i - 1] << 1
  {
  }

  /** Each flag is twice the one declared before it. */
  lemma FlagDoubles(i: nat)
    requires 0 < i < |AllFlags|
    ensures AllFlags[i] == AllFlags[i - 1] << 1
  {
    if i < 14 {
      FlagDoublesLow(i);
    } else {
      FlagDoublesHigh(i);
    }
  }

  /** Flag `i` of the declaration order is bit `i`: the value just above the low `i` bits. */
  lemma {:induction false} FlagIsBit(i: nat)
    requires i < |AllFlags|
    ensures AllFlags[i] == LowBits(i) + 1
  {
    if i > 0 {
      FlagIsBit(i - 1);
      FlagDoubles(i);
    }
  }

  /** `flags[i]` is bit `i` for every index: the layout of `AllFlags`. */
  predicate IsBitSequence(flags: seq<Bits>) {
    |flags| <= FlagCount && forall i | 0 <= i < |flags| :: flags[i] == LowBits(i) + 1
  }

  lemma AllFlagsAreBits()
    ensures IsBitSequence(AllFlags)
  {
    forall i | 0 <= i < |AllFlags|
      ensures AllFlags[i] == LowBits(i) + 1
    {
      FlagIsBit(i);
    }
  }

  /** Bit `i` is a single bit inside `All` and outside the low `i` bits. */
  lemma BitAt(i: nat)
    requires i < FlagCount
    ensures IsSingleBit(LowBits(i) + 1)
    ensures Contains(All, LowBits(i) + 1)
    ensures (LowBits(i) + 1) & LowBits(i) == Empty
  {
    LowBitsIsRun(i);
    LowBitsMonotone(i + 1, FlagCount);
    LowBitsOfAll();
  }

  /** Bit `n - 1` together with the low `n - 1` bits gives the low `n` bits. */
  lemma NextBit(n: nat)
    requires 0 < n <= FlagCount
    ensures LowBits(n) == LowBits(n - 1) | (LowBits(n - 1) + 1)
  {
    LowBitsIsRun(n - 1);
  }

  /** Every defined flag is a single bit inside `All`. */
  lemma FlagsAreSingleBits()
    ensures |AllFlags| == FlagCount
    ensures forall i | 0 <= i < |AllFlags| :: IsSingleBit(AllFlags[i]) && Contains(All, AllFlags[i])
  {
    AllFlagsAreBits();
    forall i | 0 <= i < FlagCount
      ensures IsSingleBit(LowBits(i) + 1) && Contains(All, LowBits(i) + 1)
    {
      BitAt(i);
    }
  }

  /** A lower bit lies within the low bits below a higher one. */
  lemma LowerBitBelow(i: nat, j: nat)
    requires i < j <= 32
    ensures (LowBits(i) + 1) & !LowBits(j) == Empty
  {
    LowBitsIsRun(i);
    LowBitsMonotone(i + 1, j);
  }

  /** Distinct defined flags share no bit, so in particular they are distinct values. */
  lemma FlagsDisjoint()
    ensures forall i, j | 0 <= i < |AllFlags| && 0 <= j < |AllFlags| && i != j ::
      AllFlags[i] & AllFlags[j] == Empty
  {
    AllFlagsAreBits();
    forall i, j | 0 <= i < j < FlagCount
      ensures (LowBits(i) + 1) & (LowBits(j) + 1) == Empty
    {
      BitAt(j);
      LowerBitBelow(i, j);
    }
  }

  /** The first `n` bits of a bit sequence occupy exactly the low `n` bits. */
  lemma {:induction false} PrefixCoversLowBits(flags: seq<Bits>, n: nat)
    requires IsBitSequence(flags)
    requires n <= |flags|
    ensures UnionUpTo(flags, n) == LowBits(n)
  {
    if n > 0 {
      PrefixCoversLowBits(flags, n - 1);
      NextBit(n);
    }
  }

  /** Together the defined flags occupy exactly bits 0..27, that is `All`. */
  lemma FlagsCoverAll()
    ensures UnionUpTo(AllFlags, FlagCount) == All
  {
    AllFlagsAreBits();
    PrefixCoversLowBits(AllFlags, FlagCount);
    LowBitsOfAll();
  }

  /** Every button has a single bit of its own inside `All`. */
  lemma ValuesAreDistinctBits()
    ensures forall b :: IsSingleBit(Value(b)) && Contains(All, Value(b))
    ensures forall b, c | b != c :: Value(b) & Value(c) == Empty
  {
    FlagsAreSingleBits();
    FlagsDisjoint();
  }

  /** The union of those of the first `n` flags whose entry in `present` is set. */
  function SelectedUnion(flags: seq<Bits>, present: seq<bool>, n: nat): Bits
    requires n <= |flags| == |present|
  {
    if n == 0 then Empty
    else if present[n - 1] then SelectedUnion(flags, present, n - 1) | flags[n - 1]
    else SelectedUnion(flags, present, n - 1)
  }

  /** Flags `a` and `b` share no bit. */
  predicate Apart(flags: seq<Bits>, a: nat, b: nat)
    requires a < |flags| && b < |flags|
  {
    flags[a] & flags[b] == Empty
  }

  /** Non-zero flags, no two of which share a bit. */
  predicate Distinct(flags: seq<Bits>) {
    && (forall a | 0 <= a < |flags| :: flags[a] != Empty)
    && (forall a, b | 0 <= a < |flags| && 0 <= b < |flags| && a != b :: Apart(flags, a, b))
  }

  lemma OrKeeps(x: Bits, y: Bits, f: Bits)
    ensures Contains(x, f) ==> Contains(x | y, f)
  {
  }

  lemma OrAdds(x: Bits, f: Bits)
    ensures Contains(x | f, f)
  {
  }

  lemma OrClear(x: Bits, y: Bits, f: Bits)
    ensures x & f == Empty && y & f == Empty ==> (x | y) & f == Empty
  {
  }

  lemma OrInside(x: Bits, f: Bits, bound: Bits)
    ensures x & !bound == Empty && Contains(bound, f) ==> (x | f) & !bound == Empty
  {
  }

  lemma ClearNotContains(x: Bits, f: Bits)
    ensures f != Empty && x & f == Empty ==> !Contains(x, f)
  {
  }

  lemma ContainsNonZero(x: Bits, f: Bits)
    ensures f != Empty && Contains(x, f) ==> x != Empty
  {
  }

  /** A selected flag is contained in the union. */
  lemma {:induction false} SelectedHas(flags: seq<Bits>, present: seq<bool>, n: nat, i: nat)
    requires i < n <= |flags| == |present| && present[i]
    ensures Contains(SelectedUnion(flags, present, n), flags[i])
  {
    if i == n - 1 {
      OrAdds(SelectedUnion(flags, present, n - 1), flags[i]);
    } else {
      SelectedHas(flags, present, n - 1, i);
      if present[n - 1] {
        OrKeeps(SelectedUnion(flags, present, n - 1), flags[n - 1], flags[i]);
      }
    }
  }

  /** A flag that is not selected, or not among the first `n`, shares no bit
      with the union, provided the flags are distinct. */
  lemma {:induction false} SelectedLacks(flags: seq<Bits>, present: seq<bool>, n: nat, i: nat)
    requires n <= |flags| == |present| && i < |flags|
    requires n <= i || !present[i]
    requires Distinct(flags)
    ensures SelectedUnion(flags, present, n) & flags[i] == Empty
  {
    if n > 0 {
      SelectedLacks(flags, present, n - 1, i);
      if present[n - 1] {
        assert Apart(flags, n - 1, i);
        OrClear(SelectedUnion(flags, present, n - 1), flags[n - 1], flags[i]);
      }
    }
  }

  /** With distinct flags, flag `i` is in the union exactly when it is selected. */
  lemma SelectedBit(flags: seq<Bits>, present: seq<bool>, n: nat, i: nat)
    requires i < n <= |flags| == |present|
    requires Distinct(flags)
    ensures Contains(SelectedUnion(flags, present, n), flags[i]) <==> present[i]
  {
    if present[i] {
      SelectedHas(flags, present, n, i);
    } else {
      SelectedLacks(flags, present, n, i);
      ClearNotContains(SelectedUnion(flags, present, n), flags[i]);
    }
  }

  /** The union stays inside any bound that holds every flag. */
  lemma {:induction false} SelectedInside(flags: seq<Bits>, present: seq<bool>, n: nat, bound: Bits)
    requires n <= |flags| == |present|
    requires forall k | 0 <= k < |flags| :: Contains(bound, flags[k])
    ensures SelectedUnion(flags, present, n) & !bound == Empty
  {
    if n > 0 {
      SelectedInside(flags, present, n - 1, bound);
      if present[n - 1] {
        var f := flags[n - 1];
        assert Contains(bound, f);
        OrInside(SelectedUnion(flags, present, n - 1), f, bound);
      }
    }
  }

  /** With nothing selected the union is empty. */
  lemma {:induction false} SelectedNone(flags: seq<Bits>, present: seq<bool>, n: nat)
    requires n <= |flags| == |present|
    requires forall k | 0 <= k < n :: !present[k]
    ensures SelectedUnion(flags, present, n) == Empty
  {
    if n > 0 {
      SelectedNone(flags, present, n - 1);
    }
  }

  /** With distinct flags, the union is empty exactly when nothing is selected. */
  lemma SelectedEmpty(flags: seq<Bits>, present: seq<bool>, n: nat)
    requires n <= |flags| == |present|
    requires Distinct(flags)
    ensures SelectedUnion(flags, present, n) == Empty <==> forall k | 0 <= k < n :: !present[k]
  {
    if k :| 0 <= k < n && present[k] {
      SelectedHas(flags, present, n, k);
      ContainsNonZero(SelectedUnion(flags, present, n), flags[k]);
    } else {
      SelectedNone(flags, present, n);
    }
  }

  /** The defined flags are distinct single bits. */
  lemma AllFlagsDistinct()
    ensures Distinct(AllFlags)
  {
    FlagsAreSingleBits();
    FlagsDisjoint();
  }

  /** Which of the declared buttons are in `s`, in declaration order. */
  function Present(s: ButtonSet): seq<bool> {
    seq(FlagCount, k requires 0 <= k < FlagCount => AllButtons[k] in s)
  }

  /** `bits()`: the `u32` representation of a button set, the union of the
      flags of its buttons. */
  function Mask(s: ButtonSet): Bits {
    SelectedUnion(AllFlags, Present(s), FlagCount)
  }

  /** `iter()` on a `u32`: the buttons whose flag is set. */
  function Members(x: Bits): ButtonSet {
    set i | 0 <= i < FlagCount && Contains(x, AllFlags[i]) :: AllButtons[i]
  }

  /** Declared flag `i` is in a set's representation exactly when button `i` is in the set. */
  lemma MaskFlag(s: ButtonSet, i: nat)
    requires i < FlagCount
    ensures Contains(Mask(s), AllFlags[i]) <==> AllButtons[i] in s
  {
    AllFlagsDistinct();
    SelectedBit(AllFlags, Present(s), FlagCount, i);
  }

  /** The representation of a button set: it sets no bit outside `all()`, it is
      empty exactly when the set is, and it holds each button's bit exactly when
      the button is in the set. */
  lemma MaskDecodes(s: ButtonSet)
    ensures Mask(s) & !All == Empty
    ensures Mask(s) == Empty <==> s == {}
    ensures forall b :: Contains(Mask(s), Value(b)) <==> b in s
  {
    FlagsAreSingleBits();
    SelectedInside(AllFlags, Present(s), FlagCount, All);
    AllFlagsDistinct();
    SelectedEmpty(AllFlags, Present(s), FlagCount);
    forall b
      ensures Contains(Mask(s), Value(b)) <==> b in s
    {
      MaskFlag(s, Index(b));
    }
    if s != {} {
      var b :| b in s;
      assert Present(s)[Index(b)];
    }
  }

  /** Reading the buttons back out of a set's representation gives the set. */
  lemma MembersOfMask(s: ButtonSet)
    ensures Members(Mask(s)) == s
  {
    forall i | 0 <= i < FlagCount
      ensures Contains(Mask(s), AllFlags[i]) <==> AllButtons[i] in s
    {
      MaskFlag(s, i);
    }
    forall b | b in s
      ensures b in Members(Mask(s))
    {
      assert AllButtons[Index(b)] == b;
    }
  }

  /** Different button sets have different representations. */
  lemma MaskInjective(s: ButtonSet, t: ButtonSet)
    requires Mask(s) == Mask(t)
    ensures s == t
  {
    MembersOfMask(s);
    MembersOfMask(t);
  }
}
