/** Version 1 of the hidraw protocol (`v1::SteamDeckInterface`): the device
    identifier and the decoder from a 64-byte input report to the canonical
    button set. */
module V1 {
  import opened Wrappers
  import opened Buttons
  import Interface

  /** `get_id`: the Steam Deck controller is Valve's USB device 0x28de:0x1205,
      and its buttons arrive on USB interface 2. */
  function Id(): Interface.DeviceIdentifier {
    Interface.DeviceIdentifier(0x28de, 0x1205, 2)
  }

  /** Discovery accepts only the node whose physical address ends with "input2". */
  lemma IdAddressSuffix()
    ensures Interface.AddressSuffix(Id()) == "input2"
  {
  }

  /** Size of one input report in bytes. */
  const ReportSize: nat := 64

  /** A raw input report, `[u8; 64]`. */
  type Report = r: seq<bv8> | |r| == ReportSize witness seq(64, k => 0)

  /** A byte offset inside a report. */
  type Offset = k: nat | k < ReportSize

  /** Byte 2 tells the kind of report; kind 9 carries the button state. */
  const ReportKindOffset: Offset := 2
  const InputReportKind: bv8 := 9

  // The six byte offsets that carry buttons.
  const Offset8: Offset := 8
  const Offset9: Offset := 9
  const Offset10: Offset := 10
  const Offset11: Offset := 11
  const Offset13: Offset := 13
  const Offset14: Offset := 14

  // ButtonFlags8: the named bits of byte 8.
  const Flags8R2: bv8 := 0x01
  const Flags8L2: bv8 := 0x02
  const Flags8R1: bv8 := 0x04
  const Flags8L1: bv8 := 0x08
  const Flags8NORTH: bv8 := 0x10
  const Flags8EAST: bv8 := 0x20
  const Flags8WEST: bv8 := 0x40
  const Flags8SOUTH: bv8 := 0x80

  // ButtonFlags9: the named bits of byte 9.
  const Flags9DPAD_UP: bv8 := 0x01
  const Flags9DPAD_RIGHT: bv8 := 0x02
  const Flags9DPAD_LEFT: bv8 := 0x04
  const Flags9DPAD_DOWN: bv8 := 0x08
  const Flags9SELECT: bv8 := 0x10
  const Flags9STEAM: bv8 := 0x20
  const Flags9START: bv8 := 0x40
  const Flags9L5: bv8 := 0x80

  // ButtonFlags10: the named bits of byte 10 (0x20 and 0x80 are unnamed).
  const Flags10R5: bv8 := 0x01
  const Flags10LPAD: bv8 := 0x02
  const Flags10RPAD: bv8 := 0x04
  const Flags10LPAD_TOUCH: bv8 := 0x08
  const Flags10RPAD_TOUCH: bv8 := 0x10
  const Flags10LSTICK: bv8 := 0x40

  // ButtonFlags11: the named bit of byte 11.
  const Flags11RSTICK: bv8 := 0x04

  // ButtonFlags13: the named bits of byte 13.
  const Flags13L4: bv8 := 0x02
  const Flags13R4: bv8 := 0x04
  const Flags13LSTICK_TOUCH: bv8 := 0x40
  const Flags13RSTICK_TOUCH: bv8 := 0x80

  // ButtonFlags14: the named bit of byte 14.
  const Flags14QAM: bv8 := 0x04

  /** Every layout declares `const _ = !0`: all eight bits count as known,
      whether or not they carry a name. */
  const KnownBits: bv8 := !0

  /** bitflags' `from_bits`: the byte as a flag set, unless it has a bit the
      layout does not know. Every layout knows all eight bits, so decoding a
      byte never fails. */
  function FromBits(bits: bv8): (r: Option<bv8>)
    ensures r == Some(bits)
  {
    if bits & !KnownBits == 0 then Some(bits) else None
  }

  /** bitflags' `contains` on a byte layout. */
  predicate ByteContains(btns: bv8, flag: bv8) {
    btns & flag == flag
  }

  /** Where a canonical button is read from: a byte of the report and a bit of that byte. */
  datatype Position = Position(offset: Offset, bit: bv8)

  /** The report position of each canonical button, read off the
      `ButtonFlags8..14` declarations (the same names on both sides). */
  function PositionOf(b: Button): (p: Position)
  {
    match b
    case R1 => Position(Offset8, Flags8R1)
    case R2 => Position(Offset8, Flags8R2)
    case L1 => Position(Offset8, Flags8L1)
    case L2 => Position(Offset8, Flags8L2)
    case NORTH => Position(Offset8, Flags8NORTH)
    case EAST => Position(Offset8, Flags8EAST)
    case WEST => Position(Offset8, Flags8WEST)
    case SOUTH => Position(Offset8, Flags8SOUTH)
    case DPAD_UP => Position(Offset9, Flags9DPAD_UP)
    case DPAD_RIGHT => Position(Offset9, Flags9DPAD_RIGHT)
    case DPAD_LEFT => Position(Offset9, Flags9DPAD_LEFT)
    case DPAD_DOWN => Position(Offset9, Flags9DPAD_DOWN)
    case START => Position(Offset9, Flags9START)
    case SELECT => Position(Offset9, Flags9SELECT)
    case RSTICK => Position(Offset11, Flags11RSTICK)
    case LSTICK => Position(Offset10, Flags10LSTICK)
    case STEAM => Position(Offset9, Flags9STEAM)
    case QAM => Position(Offset14, Flags14QAM)
    case R4 => Position(Offset13, Flags13R4)
    case R5 => Position(Offset10, Flags10R5)
    case L4 => Position(Offset13, Flags13L4)
    case L5 => Position(Offset9, Flags9L5)
    case RSTICK_TOUCH => Position(Offset13, Flags13RSTICK_TOUCH)
    case LSTICK_TOUCH => Position(Offset13, Flags13LSTICK_TOUCH)
    case LPAD => Position(Offset10, Flags10LPAD)
    case RPAD => Position(Offset10, Flags10RPAD)
    case LPAD_TOUCH => Position(Offset10, Flags10LPAD_TOUCH)
    case RPAD_TOUCH => Position(Offset10, Flags10RPAD_TOUCH)
  }

  /** `btns` at `offset` sets the bit of button `b`. */
  predicate SetsBitOf(offset: Offset, btns: bv8, b: Button) {
    PositionOf(b).offset == offset && ByteContains(btns, PositionOf(b).bit)
  }

  /** One `if btns.contains(flag) { *out |= button; }` of a `mapN` function. */
  datatype Rule = Rule(flag: bv8, button: Button)

  /** The rules of `map8` .. `map14`, in the order the source tests them. */
  const Rules8: seq<Rule> :=
    [ Rule(Flags8L1, L1), Rule(Flags8L2, L2), Rule(Flags8R1, R1), Rule(Flags8R2, R2),
      Rule(Flags8NORTH, NORTH), Rule(Flags8SOUTH, SOUTH), Rule(Flags8EAST, EAST), Rule(Flags8WEST, WEST) ]
  const Rules9: seq<Rule> :=
    [ Rule(Flags9DPAD_UP, DPAD_UP), Rule(Flags9DPAD_DOWN, DPAD_DOWN),
      Rule(Flags9DPAD_LEFT, DPAD_LEFT), Rule(Flags9DPAD_RIGHT, DPAD_RIGHT),
      Rule(Flags9STEAM, STEAM), Rule(Flags9START, START), Rule(Flags9SELECT, SELECT), Rule(Flags9L5, L5) ]
  const Rules10: seq<Rule> :=
    [ Rule(Flags10R5, R5), Rule(Flags10LSTICK, LSTICK), Rule(Flags10LPAD, LPAD),
      Rule(Flags10LPAD_TOUCH, LPAD_TOUCH), Rule(Flags10RPAD, RPAD), Rule(Flags10RPAD_TOUCH, RPAD_TOUCH) ]
  const Rules11: seq<Rule> := [ Rule(Flags11RSTICK, RSTICK) ]
  const Rules13: seq<Rule> :=
    [ Rule(Flags13L4, L4), Rule(Flags13R4, R4),
      Rule(Flags13LSTICK_TOUCH, LSTICK_TOUCH), Rule(Flags13RSTICK_TOUCH, RSTICK_TOUCH) ]
  const Rules14: seq<Rule> := [ Rule(Flags14QAM, QAM) ]

  /** The six per-byte layouts `ButtonFlags8..14`. */
  datatype ByteLayout = ButtonFlags8 | ButtonFlags9 | ButtonFlags10 | ButtonFlags11 | ButtonFlags13 | ButtonFlags14
  {
    /** The report byte the layout describes. */
    function Offset(): Offset {
      match this
      case ButtonFlags8 => Offset8
      case ButtonFlags9 => Offset9
      case ButtonFlags10 => Offset10
      case ButtonFlags11 => Offset11
      case ButtonFlags13 => Offset13
      case ButtonFlags14 => Offset14
    }

    /** The rules of the layout's `mapN` function. */
    function Rules(): seq<Rule> {
      match this
      case ButtonFlags8 => Rules8
      case ButtonFlags9 => Rules9
      case ButtonFlags10 => Rules10
      case ButtonFlags11 => Rules11
      case ButtonFlags13 => Rules13
      case ButtonFlags14 => Rules14
    }
  }

  /** Runs the rules in order, each OR-ing its button into `out` when its flag is set. */
  function ApplyRules(rules: seq<Rule>, btns: bv8, out: ButtonSet): ButtonSet {
    if rules == [] then out
    else
      var out' := if ByteContains(btns, rules[0].flag) then out + {rules[0].button} else out;
      ApplyRules(rules[1..], btns, out')
  }

  /** `map8` .. `map14`, chosen by layout. */
  function MapFlags(layout: ByteLayout, btns: bv8, out: ButtonSet): ButtonSet {
    ApplyRules(layout.Rules(), btns, out)
  }

  /** Some rule for `b` has its flag set in `btns`. */
  predicate Fires(rules: seq<Rule>, btns: bv8, b: Button) {
    && rules != []
    && ((rules[0].button == b && ByteContains(btns, rules[0].flag)) || Fires(rules[1..], btns, b))
  }

  /** Applying rules adds to `out` exactly the buttons of the rules that fire. */
  lemma {:induction false} ApplyRulesMembers(rules: seq<Rule>, btns: bv8, out: ButtonSet, b: Button)
    ensures b in ApplyRules(rules, btns, out) <==> b in out || Fires(rules, btns, b)
  {
    if rules != [] {
      var out' := if ByteContains(btns, rules[0].flag) then out + {rules[0].button} else out;
      ApplyRulesMembers(rules[1..], btns, out', b);
    }
  }

  /** Every rule of `rules` tests its button's own bit of byte `offset`, and
      every button read from that byte has a rule. */
  predicate Describes(rules: seq<Rule>, offset: Offset) {
    && (forall i | 0 <= i < |rules| :: PositionOf(rules[i].button) == Position(offset, rules[i].flag))
    && (forall b | PositionOf(b).offset == offset :: Rule(PositionOf(b).bit, b) in rules)
  }

  /** When every rule for `b` tests `bit`, a rule for `b` fires exactly when
      `b` has a rule and `btns` sets `bit`. */
  lemma {:induction false} FiresOnBit(rules: seq<Rule>, btns: bv8, b: Button, bit: bv8)
    requires forall i | 0 <= i < |rules| && rules[i].button == b :: rules[i].flag == bit
    ensures Fires(rules, btns, b) <==> Rule(bit, b) in rules && ByteContains(btns, bit)
  {
    if rules != [] {
      var rest := rules[1..];
      assert forall i | 0 <= i < |rest| :: rest[i] == rules[i + 1];
      FiresOnBit(rest, btns, b, bit);
      assert Rule(bit, b) in rules <==> rules[0] == Rule(bit, b) || Rule(bit, b) in rest;
    }
  }

  lemma Flags8Described() ensures Describes(Rules8, Offset8) {}
  lemma Flags9Described() ensures Describes(Rules9, Offset9) {}
  lemma Flags10Described() ensures Describes(Rules10, Offset10) {}
  lemma Flags11Described() ensures Describes(Rules11, Offset11) {}
  lemma Flags13Described() ensures Describes(Rules13, Offset13) {}
  lemma Flags14Described() ensures Describes(Rules14, Offset14) {}

  /** Each `ButtonFlagsN` layout and its `mapN` agree with `PositionOf`. */
  lemma LayoutDescribed(layout: ByteLayout)
    ensures Describes(layout.Rules(), layout.Offset())
  {
    match layout
    case ButtonFlags8 => Flags8Described();
    case ButtonFlags9 => Flags9Described();
    case ButtonFlags10 => Flags10Described();
    case ButtonFlags11 => Flags11Described();
    case ButtonFlags13 => Flags13Described();
    case ButtonFlags14 => Flags14Described();
  }

  /** `mapN` adds to `out` exactly the buttons whose bit byte N sets. */
  lemma MapFlagsMembers(layout: ByteLayout, btns: bv8, out: ButtonSet)
    ensures forall b :: b in MapFlags(layout, btns, out) <==> b in out || SetsBitOf(layout.Offset(), btns, b)
  {
    var rules, offset := layout.Rules(), layout.Offset();
    LayoutDescribed(layout);
    forall b
      ensures b in MapFlags(layout, btns, out) <==> b in out || SetsBitOf(offset, btns, b)
    {
      var p := PositionOf(b);
      ApplyRulesMembers(rules, btns, out, b);
      FiresOnBit(rules, btns, b, p.bit);
      if Rule(p.bit, b) in rules {
        var i :| 0 <= i < |rules| && rules[i] == Rule(p.bit, b);
        assert p.offset == offset;
      }
    }
  }

  /** One step of `parse`: `if let Some(flags) = from_bits(report[N]) { mapN(flags, &mut out) }`. */
  function MapByte(layout: ByteLayout, report: Report, out: ButtonSet): ButtonSet {
    match FromBits(report[layout.Offset()])
    case Some(flags) => MapFlags(layout, flags, out)
    case None => out
  }

  /** The layouts `parse` applies, in the order it applies them. */
  const ParseOrder: seq<ByteLayout> :=
    [ButtonFlags8, ButtonFlags9, ButtonFlags10, ButtonFlags11, ButtonFlags13, ButtonFlags14]

  /** Applies the steps of `parse` for `layouts`, in order. */
  function MapBytes(layouts: seq<ByteLayout>, report: Report, out: ButtonSet): ButtonSet {
    if layouts == [] then out
    else MapBytes(layouts[1..], report, MapByte(layouts[0], report, out))
  }

  /** `parse`: decodes one input report into the canonical button set. A
      report of another kind decodes to no buttons at all. */
  function Parse(report: Report): (r: ButtonSet)
    ensures report[ReportKindOffset] != InputReportKind ==> r == {}
  {
    var out := {};
    if report[ReportKindOffset] == InputReportKind then MapBytes(ParseOrder, report, out)
    else out
  }

  /** The report sets the bit at position `p`. */
  predicate Pressed(report: Report, p: Position) {
    ByteContains(report[p.offset], p.bit)
  }

  /** Some layout of `layouts` reads byte `offset`. */
  predicate Reads(layouts: seq<ByteLayout>, offset: Offset) {
    exists i | 0 <= i < |layouts| :: layouts[i].Offset() == offset
  }

  /** Every button is read from a byte that `parse` reads. */
  lemma PositionRead(b: Button)
    ensures Reads(ParseOrder, PositionOf(b).offset)
  {
    var o := PositionOf(b).offset;
    var i := if o == Offset8 then 0 else if o == Offset9 then 1 else if o == Offset10 then 2
      else if o == Offset11 then 3 else if o == Offset13 then 4 else 5;
    assert ParseOrder[i].Offset() == o;
  }

  /** One step of `parse` adds exactly the buttons whose bit is set in the layout's byte. */
  lemma MapByteMembers(layout: ByteLayout, report: Report, out: ButtonSet, b: Button)
    ensures b in MapByte(layout, report, out) <==>
      b in out || (PositionOf(b).offset == layout.Offset() && Pressed(report, PositionOf(b)))
  {
    MapFlagsMembers(layout, report[layout.Offset()], out);
  }

  /** The steps for `layouts` add exactly the buttons whose bit is set in a byte they read. */
  lemma {:induction false} MapBytesMembers(layouts: seq<ByteLayout>, report: Report, out: ButtonSet, b: Button)
    ensures b in MapBytes(layouts, report, out) <==>
      b in out || (Reads(layouts, PositionOf(b).offset) && Pressed(report, PositionOf(b)))
  {
    if layouts != [] {
      var rest := layouts[1..];
      assert forall i | 0 <= i < |rest| :: rest[i] == layouts[i + 1];
      MapByteMembers(layouts[0], report, out, b);
      MapBytesMembers(rest, report, MapByte(layouts[0], report, out), b);
      var o := PositionOf(b).offset;
      if Reads(layouts, o) && !Reads(rest, o) {
        var i :| 0 <= i < |layouts| && layouts[i].Offset() == o;
        assert i == 0;
      }
    }
  }

  /** `parse` reports button `b` exactly when the report is an input report
      and sets `b`'s bit. */
  lemma ParseMember(report: Report, b: Button)
    ensures b in Parse(report) <==>
      report[ReportKindOffset] == InputReportKind && Pressed(report, PositionOf(b))
  {
    MapBytesMembers(ParseOrder, report, {}, b);
    PositionRead(b);
  }

  /** `parse` as a whole: the set of buttons whose bit the input report sets. */
  lemma ParseDecodes(report: Report)
    ensures forall b :: b in Parse(report) <==>
      report[ReportKindOffset] == InputReportKind && Pressed(report, PositionOf(b))
  {
    forall b {
      ParseMember(report, b);
    }
  }

  /** The `u32` that `parse` returns: no bit outside `all()`, zero exactly
      when the report is not an input report or presses nothing, and holding
      each button's bit exactly when the input report presses that button. */
  lemma ParseBits(report: Report)
    ensures Mask(Parse(report)) & !All == Empty
    ensures Mask(Parse(report)) == Empty <==>
      report[ReportKindOffset] != InputReportKind || forall b :: !Pressed(report, PositionOf(b))
    ensures forall b :: Contains(Mask(Parse(report)), Value(b)) <==>
      report[ReportKindOffset] == InputReportKind && Pressed(report, PositionOf(b))
  {
    var r := Parse(report);
    MaskDecodes(r);
    ParseDecodes(report);
    if r != {} {
      var b :| b in r;
    }
  }

  /** The flags of a layout's rules are pairwise distinct. */
  predicate DistinctFlags(rules: seq<Rule>) {
    forall i, j | 0 <= i < j < |rules| :: rules[i].flag != rules[j].flag
  }

  /** No layout tests the same bit twice. */
  lemma LayoutFlagsDistinct(layout: ByteLayout)
    ensures DistinctFlags(layout.Rules())
  {
  }

  /** The button of the first rule that tests `bit`, if any. */
  function RuleButton(rules: seq<Rule>, bit: bv8): Option<Button> {
    if rules == [] then None
    else if rules[0].flag == bit then Some(rules[0].button)
    else RuleButton(rules[1..], bit)
  }

  lemma {:induction false} RuleButtonFinds(rules: seq<Rule>, bit: bv8, b: Button)
    requires Rule(bit, b) in rules && DistinctFlags(rules)
    ensures RuleButton(rules, bit) == Some(b)
  {
    var rest := rules[1..];
    if rules[0] != Rule(bit, b) {
      assert Rule(bit, b) in rest;
      var j :| 0 <= j < |rest| && rest[j] == Rule(bit, b);
      assert rules[j + 1] == Rule(bit, b);
      assert DistinctFlags(rest) by {
        forall i, k | 0 <= i < k < |rest|
          ensures rest[i].flag != rest[k].flag
        {
          assert rest[i] == rules[i + 1] && rest[k] == rules[k + 1];
        }
      }
      RuleButtonFinds(rest, bit, b);
    }
  }

  lemma {:induction false} RuleButtonSound(rules: seq<Rule>, bit: bv8, b: Button)
    requires RuleButton(rules, bit) == Some(b)
    ensures Rule(bit, b) in rules
  {
    if rules[0].flag != bit {
      RuleButtonSound(rules[1..], bit, b);
      assert Rule(bit, b) in rules[1..];
    }
  }

  /** The button read from position `p`, if any: the layout of `p`'s byte
      read the other way round, from bit to button. */
  function ButtonAt(p: Position): Option<Button> {
    match LayoutAt(p.offset)
    case Some(layout) => RuleButton(layout.Rules(), p.bit)
    case None => None
  }

  /** The layout read from byte `offset`, if any. */
  function LayoutAt(offset: Offset): (r: Option<ByteLayout>)
    ensures r.Some? ==> r.value.Offset() == offset
    ensures forall layout: ByteLayout :: layout.Offset() == offset ==> r == Some(layout)
  {
    if offset == Offset8 then Some(ButtonFlags8)
    else if offset == Offset9 then Some(ButtonFlags9)
    else if offset == Offset10 then Some(ButtonFlags10)
    else if offset == Offset11 then Some(ButtonFlags11)
    else if offset == Offset13 then Some(ButtonFlags13)
    else if offset == Offset14 then Some(ButtonFlags14)
    else None
  }

  /** Every button is found again at its own position. */
  lemma PositionRoundTrip(b: Button)
    ensures ButtonAt(PositionOf(b)) == Some(b)
  {
    var p := PositionOf(b);
    PositionRead(b);
    var i :| 0 <= i < |ParseOrder| && ParseOrder[i].Offset() == p.offset;
    var layout := ParseOrder[i];
    LayoutDescribed(layout);
    LayoutFlagsDistinct(layout);
    RuleButtonFinds(layout.Rules(), p.bit, b);
  }

  /** A position that holds a button is that button's position. */
  lemma ButtonAtRoundTrip(p: Position, b: Button)
    requires ButtonAt(p) == Some(b)
    ensures PositionOf(b) == p
  {
    var layout := LayoutAt(p.offset).value;
    RuleButtonSound(layout.Rules(), p.bit, b);
    LayoutDescribed(layout);
    var i :| 0 <= i < |layout.Rules()| && layout.Rules()[i] == Rule(p.bit, b);
  }

  /** No two buttons share a position: the 28 positions are distinct. */
  lemma PositionInjective(b: Button, c: Button)
    requires PositionOf(b) == PositionOf(c)
    ensures b == c
  {
    PositionRoundTrip(b);
    PositionRoundTrip(c);
  }

  /** `bit` is a single bit of a byte. */
  predicate IsByteBit(bit: bv8) {
    bit == 0x01 || bit == 0x02 || bit == 0x04 || bit == 0x08
    || bit == 0x10 || bit == 0x20 || bit == 0x40 || bit == 0x80
  }

  /** Every button position is a single bit in one of the bytes `parse` reads. */
  lemma PositionShape(b: Button)
    ensures IsByteBit(PositionOf(b).bit)
    ensures Offset8 <= PositionOf(b).offset <= Offset14
  {
  }

  /** Of two single bits, one contains the other only when they are equal. */
  lemma ByteBitContains(x: bv8, y: bv8)
    requires IsByteBit(x) && IsByteBit(y)
    ensures ByteContains(x, y) <==> x == y
  {
  }

  /** An input report that sets exactly the bit at position `p`. */
  function PressAt(p: Position): Report {
    seq(ReportSize, k =>
      if k == ReportKindOffset as int then InputReportKind
      else if k == p.offset as int then p.bit
      else 0)
  }

  /** An input report that sets exactly the bit of button `b`. */
  function PressOnly(b: Button): Report {
    PressAt(PositionOf(b))
  }

  /** In the report that sets only the single bit at `p`, a single-bit position
      `q` outside the kind byte is set exactly when it is `p`. */
  lemma PressAtPresses(p: Position, q: Position)
    requires IsByteBit(p.bit) && IsByteBit(q.bit)
    requires p.offset != ReportKindOffset && q.offset != ReportKindOffset
    ensures Pressed(PressAt(p), q) <==> p == q
  {
    var report := PressAt(p);
    if q.offset == p.offset {
      assert report[q.offset] == p.bit;
      ByteBitContains(p.bit, q.bit);
    } else {
      assert report[q.offset] == 0;
    }
  }

  /** In the report that presses only `b`, the position of `c` is set exactly
      when the two buttons share a position. */
  lemma PressOnlyAt(b: Button, c: Button)
    ensures Pressed(PressOnly(b), PositionOf(c)) <==> PositionOf(b) == PositionOf(c)
  {
    PositionShape(b);
    PositionShape(c);
    PressAtPresses(PositionOf(b), PositionOf(c));
  }

  /** Two buttons share a position exactly when they are the same button. */
  lemma SamePosition(b: Button, c: Button)
    ensures PositionOf(b) == PositionOf(c) <==> b == c
  {
    if PositionOf(b) == PositionOf(c) {
      PositionInjective(b, c);
    }
  }

  /** In the report that presses only `b`, button `c` is pressed exactly when it is `b`. */
  lemma PressOnlyPresses(b: Button, c: Button)
    ensures Pressed(PressOnly(b), PositionOf(c)) <==> c == b
  {
    PressOnlyAt(b, c);
    SamePosition(b, c);
  }

  /** A report with exactly one named bit set decodes to exactly that button. */
  lemma ParseSinglePress(b: Button)
    ensures Parse(PressOnly(b)) == {b}
  {
    forall c
      ensures c in Parse(PressOnly(b)) <==> c == b
    {
      ParseMember(PressOnly(b), c);
      PressOnlyPresses(b, c);
    }
  }

  /** The bits of byte `offset` that carry a button; zero for a byte `parse` does not read. */
  function NamedBits(offset: Offset): bv8 {
    if offset == Offset8 then 0xFF
    else if offset == Offset9 then 0xFF
    else if offset == Offset10 then 0x5F
    else if offset == Offset11 then 0x04
    else if offset == Offset13 then 0xC6
    else if offset == Offset14 then 0x04
    else 0
  }

  /** A bit of a byte carries a button exactly when it is among the byte's named bits. */
  lemma NamedBitsAreButtons(p: Position)
    requires IsByteBit(p.bit)
    ensures ButtonAt(p).Some? <==> ByteContains(NamedBits(p.offset), p.bit)
  {
    if ButtonAt(p).Some? {
      ButtonAtRoundTrip(p, ButtonAt(p).value);
      NamedBitOfButton(ButtonAt(p).value);
    } else if ByteContains(NamedBits(p.offset), p.bit) {
      var b := NamedButton(p);
      PositionRoundTrip(b);
      assert false;
    }
  }

  /** Every button's bit is a named bit of its byte. */
  lemma NamedBitOfButton(b: Button)
    ensures ByteContains(NamedBits(PositionOf(b).offset), PositionOf(b).bit)
  {
  }

  /** The button a named bit stands for. */
  function NamedButton(p: Position): (b: Button)
    requires IsByteBit(p.bit) && ByteContains(NamedBits(p.offset), p.bit)
    ensures PositionOf(b) == p
  {
    if p.offset == Offset8 then NamedButton8(p.bit)
    else if p.offset == Offset9 then NamedButton9(p.bit)
    else if p.offset == Offset10 then NamedButton10(p.bit)
    else if p.offset == Offset11 then RSTICK
    else if p.offset == Offset13 then NamedButton13(p.bit)
    else QAM
  }

  function NamedButton8(bit: bv8): (b: Button)
    requires IsByteBit(bit)
    ensures PositionOf(b) == Position(Offset8, bit)
  {
    if bit == 0x01 then R2 else if bit == 0x02 then L2 else if bit == 0x04 then R1
    else if bit == 0x08 then L1 else if bit == 0x10 then NORTH else if bit == 0x20 then EAST
    else if bit == 0x40 then WEST else SOUTH
  }

  function NamedButton9(bit: bv8): (b: Button)
    requires IsByteBit(bit)
    ensures PositionOf(b) == Position(Offset9, bit)
  {
    if bit == 0x01 then DPAD_UP else if bit == 0x02 then DPAD_RIGHT else if bit == 0x04 then DPAD_LEFT
    else if bit == 0x08 then DPAD_DOWN else if bit == 0x10 then SELECT else if bit == 0x20 then STEAM
    else if bit == 0x40 then START else L5
  }

  function NamedButton10(bit: bv8): (b: Button)
    requires IsByteBit(bit) && ByteContains(NamedBits(Offset10), bit)
    ensures PositionOf(b) == Position(Offset10, bit)
  {
    if bit == 0x01 then R5 else if bit == 0x02 then LPAD else if bit == 0x04 then RPAD
    else if bit == 0x08 then LPAD_TOUCH else if bit == 0x10 then RPAD_TOUCH else LSTICK
  }

  function NamedButton13(bit: bv8): (b: Button)
    requires IsByteBit(bit) && ByteContains(NamedBits(Offset13), bit)
    ensures PositionOf(b) == Position(Offset13, bit)
  {
    if bit == 0x02 then L4 else if bit == 0x04 then R4
    else if bit == 0x40 then LSTICK_TOUCH else RSTICK_TOUCH
  }

  /** Two bytes that agree on the bits of `mask` agree on every flag inside `mask`. */
  lemma MaskedContains(x: bv8, y: bv8, mask: bv8, flag: bv8)
    requires x & mask == y & mask
    requires ByteContains(mask, flag)
    ensures ByteContains(x, flag) <==> ByteContains(y, flag)
  {
  }

  /** Unnamed bits are noise: reports that agree on the kind byte and on
      every named bit decode to the same buttons. */
  lemma ParseIgnoresUnnamedBits(report: Report, other: Report)
    requires report[ReportKindOffset] == other[ReportKindOffset]
    requires forall k: Offset :: report[k] & NamedBits(k) == other[k] & NamedBits(k)
    ensures Parse(report) == Parse(other)
  {
    ParseDecodes(report);
    ParseDecodes(other);
    forall b
      ensures b in Parse(report) <==> b in Parse(other)
    {
      var p := PositionOf(b);
      NamedBitOfButton(b);
      MaskedContains(report[p.offset], other[p.offset], NamedBits(p.offset), p.bit);
    }
  }

  /** Locality: only the kind byte and bytes 8, 9, 10, 11, 13 and 14 matter. */
  lemma ParseLocal(report: Report, other: Report)
    requires forall k: Offset | k == ReportKindOffset || LayoutAt(k).Some? :: report[k] == other[k]
    ensures Parse(report) == Parse(other)
  {
    forall k: Offset
      ensures report[k] & NamedBits(k) == other[k] & NamedBits(k)
    {
      if LayoutAt(k).None? {
        assert NamedBits(k) == 0;
      }
    }
    ParseIgnoresUnnamedBits(report, other);
  }

  /** `flag` inside `x`, and `x` inside `y`, puts `flag` inside `y`. */
  lemma ContainsTransitive(y: bv8, x: bv8, flag: bv8)
    requires ByteContains(y, x) && ByteContains(x, flag)
    ensures ByteContains(y, flag)
  {
  }

  /** Monotonicity: setting more bits in the button bytes never releases a button. */
  lemma ParseMonotone(report: Report, more: Report)
    requires report[ReportKindOffset] == more[ReportKindOffset]
    requires forall k: Offset :: ByteContains(more[k], report[k])
    ensures Parse(report) <= Parse(more)
  {
    ParseDecodes(report);
    ParseDecodes(more);
    forall b | b in Parse(report)
      ensures b in Parse(more)
    {
      var p := PositionOf(b);
      ContainsTransitive(more[p.offset], report[p.offset], p.bit);
    }
  }
}
