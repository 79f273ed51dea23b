/** The display-name tables of `SteamDeckGamepadButton`: `display_name_to_value`
    maps a human-readable name to its one-button value, and
    `value_to_display_name` maps it back. */
module DisplayNames {
  import opened Buttons

  /** The display names, in the order the source lists them. */
  const Names: seq<string> :=
    [ "R1", "R2", "R4", "R5",
      "L1", "L2", "L4", "L5",
      "North (Y)", "South (A)", "East (B)", "West (X)",
      "DPad-Up", "DPad-Down", "DPad-Left", "DPad-Right",
      "Start", "Select", "RStick", "LStick",
      "Steam", "QAM", "RStick (Touch)", "LStick (Touch)",
      "RPad", "LPad", "RPad (Touch)", "LPad (Touch)" ]

  /** The button of each display name: `Named[i]` is the button of `Names[i]`. */
  const Named: seq<Button> :=
    [ R1, R2, R4, R5,
      L1, L2, L4, L5,
      NORTH, SOUTH, EAST, WEST,
      DPAD_UP, DPAD_DOWN, DPAD_LEFT, DPAD_RIGHT,
      START, SELECT, RSTICK, LSTICK,
      STEAM, QAM, RSTICK_TOUCH, LSTICK_TOUCH,
      RPAD, LPAD, RPAD_TOUCH, LPAD_TOUCH ]

  /** `HashMap::from_iter`: inserts the pairs in order, a later pair replacing
      an earlier one with the same key. */
  function FromIter<K, V>(pairs: seq<(K, V)>): map<K, V> {
    if pairs == [] then map[]
    else
      var last := pairs[|pairs| - 1];
      FromIter(pairs[..|pairs| - 1])[last.0 := last.1]
  }

  /** The keys of `pairs` are pairwise distinct. */
  predicate DistinctKeys<K(==), V>(pairs: seq<(K, V)>) {
    forall i, j | 0 <= i < j < |pairs| :: pairs[i].0 != pairs[j].0
  }

  /** With distinct keys, `from_iter` keeps every pair: one entry per pair,
      each key bound to its own value. */
  lemma {:induction false} FromIterKeepsPairs<K, V>(pairs: seq<(K, V)>)
    requires DistinctKeys(pairs)
    ensures |FromIter(pairs)| == |pairs|
    ensures forall i | 0 <= i < |pairs| :: pairs[i].0 in FromIter(pairs) && FromIter(pairs)[pairs[i].0] == pairs[i].1
    ensures forall k | k in FromIter(pairs) :: exists i | 0 <= i < |pairs| :: pairs[i].0 == k
  {
    if pairs != [] {
      var init := pairs[..|pairs| - 1];
      assert DistinctKeys(init);
      FromIterKeepsPairs(init);
      var last := pairs[|pairs| - 1];
      assert last.0 !in FromIter(init);
      assert forall i | 0 <= i < |init| :: init[i] == pairs[i];
    }
  }

  /** The `(name, value)` pairs `display_name_to_value` collects. */
  function Pairs(): seq<(string, ButtonSet)> {
    seq(|Names|, i requires 0 <= i < |Names| => (Names[i], {Named[i]}))
  }

  /** `display_name_to_value`: name to one-button value. */
  function DisplayNameToValue(): map<string, ButtonSet> {
    FromIter(Pairs())
  }

  /** The index of a display name in `Names`, or -1: the table read as a
      lookup, one name at a time. */
  function NameIndex(name: string): int {
    if name == "R1" then 0
    else if name == "R2" then 1
    else if name == "R4" then 2
    else if name == "R5" then 3
    else if name == "L1" then 4
    else if name == "L2" then 5
    else if name == "L4" then 6
    else if name == "L5" then 7
    else if name == "North (Y)" then 8
    else if name == "South (A)" then 9
    else if name == "East (B)" then 10
    else if name == "West (X)" then 11
    else if name == "DPad-Up" then 12
    else if name == "DPad-Down" then 13
    else if name == "DPad-Left" then 14
    else if name == "DPad-Right" then 15
    else if name == "Start" then 16
    else if name == "Select" then 17
    else if name == "RStick" then 18
    else if name == "LStick" then 19
    else if name == "Steam" then 20
    else if name == "QAM" then 21
    else if name == "RStick (Touch)" then 22
    else if name == "LStick (Touch)" then 23
    else if name == "RPad" then 24
    else if name == "LPad" then 25
    else if name == "RPad (Touch)" then 26
    else if name == "LPad (Touch)" then 27
    else -1
  }

  /** The first fourteen names are found at their own index. */
  lemma NamesIndexedLow()
    ensures |Names| == 28 && forall i | 0 <= i < 14 :: NameIndex(Names[i]) == i
  {
  }

  /** The last fourteen names are found at their own index. */
  lemma NamesIndexedHigh()
    ensures |Names| == 28 && forall i | 14 <= i < 28 :: NameIndex(Names[i]) == i
  {
  }

  /** The index of button `b` in `Named`. */
  function EntryIndex(b: Button): nat {
    match b
    case R1 => 0
    case R2 => 1
    case R4 => 2
    case R5 => 3
    case L1 => 4
    case L2 => 5
    case L4 => 6
    case L5 => 7
    case NORTH => 8
    case SOUTH => 9
    case EAST => 10
    case WEST => 11
    case DPAD_UP => 12
    case DPAD_DOWN => 13
    case DPAD_LEFT => 14
    case DPAD_RIGHT => 15
    case START => 16
    case SELECT => 17
    case RSTICK => 18
    case LSTICK => 19
    case STEAM => 20
    case QAM => 21
    case RSTICK_TOUCH => 22
    case LSTICK_TOUCH => 23
    case RPAD => 24
    case LPAD => 25
    case RPAD_TOUCH => 26
    case LPAD_TOUCH => 27
  }

  /** Each button is listed once, at its `EntryIndex`. */
  lemma EntriesIndexed()
    ensures forall i | 0 <= i < |Named| :: EntryIndex(Named[i]) == i
  {
  }

  /** Every button is listed, at its `EntryIndex`. */
  lemma EveryButtonListed()
    ensures forall b :: EntryIndex(b) < |Named| && Named[EntryIndex(b)] == b
  {
  }

  /** The display names are pairwise distinct. */
  lemma NamesDistinct()
    ensures DistinctKeys(Pairs())
  {
    NamesIndexedLow();
    NamesIndexedHigh();
  }

  /** `display_name_to_value` holds one entry per listed pair: 28 entries,
      as many as there are buttons, each name bound to its own button. */
  lemma DisplayNameToValueContents()
    ensures |DisplayNameToValue()| == |Names| == FlagCount
    ensures forall i | 0 <= i < |Names| :: Names[i] in DisplayNameToValue() && DisplayNameToValue()[Names[i]] == {Named[i]}
    ensures forall name | name in DisplayNameToValue() :: exists i | 0 <= i < |Names| :: Names[i] == name
  {
    NamesDistinct();
    NamesIndexedLow();
    FromIterKeepsPairs(Pairs());
    assert forall i | 0 <= i < |Names| :: Pairs()[i] == (Names[i], {Named[i]});
  }

  /** Every button has a display name, and the value of that name is the button alone. */
  lemma EveryButtonNamed(b: Button)
    ensures exists name | name in DisplayNameToValue() :: DisplayNameToValue()[name] == {b}
  {
    DisplayNameToValueContents();
    EveryButtonListed();
    var i := EntryIndex(b);
    assert DisplayNameToValue()[Names[i]] == {b};
  }

  /** Distinct names have distinct values. */
  lemma DisplayValuesInjective(name: string, other: string)
    requires name in DisplayNameToValue() && other in DisplayNameToValue()
    requires DisplayNameToValue()[name] == DisplayNameToValue()[other]
    ensures name == other
  {
    DisplayNameToValueContents();
    EntriesIndexed();
    var i :| 0 <= i < |Names| && Names[i] == name;
    var j :| 0 <= j < |Names| && Names[j] == other;
    assert Named[i] in {Named[j]};
  }

  /** `order` is an order in which the map's entries can be visited: every
      key exactly once. */
  predicate IsIterationOrder<K(==), V>(order: seq<K>, m: map<K, V>) {
    && (forall i | 0 <= i < |order| :: order[i] in m)
    && (forall k | k in m :: k in order)
    && (forall i, j | 0 <= i < j < |order| :: order[i] != order[j])
  }

  /** The entries of `m`, visited in `order`, each turned round to `(value, key)`. */
  function Swapped<K(==), V>(m: map<K, V>, order: seq<K>): seq<(V, K)>
    requires forall i | 0 <= i < |order| :: order[i] in m
  {
    seq(|order|, i requires 0 <= i < |order| => (m[order[i]], order[i]))
  }

  /** No two keys of `m` share a value. */
  predicate Injective<K, V(==)>(m: map<K, V>) {
    forall k, k' | k in m && k' in m && m[k] == m[k'] :: k == k'
  }

  /** Collecting the turned-round entries of an injective map, in any order
      that visits each key once, inverts it: the same number of entries, and
      both round trips return where they started. */
  lemma InvertInjective<K, V>(m: map<K, V>, order: seq<K>)
    requires IsIterationOrder(order, m) && Injective(m)
    ensures |FromIter(Swapped(m, order))| == |m|
    ensures forall k | k in m :: m[k] in FromIter(Swapped(m, order)) && FromIter(Swapped(m, order))[m[k]] == k
    ensures forall v | v in FromIter(Swapped(m, order)) ::
      FromIter(Swapped(m, order))[v] in m && m[FromIter(Swapped(m, order))[v]] == v
  {
    var swapped := Swapped(m, order);
    assert DistinctKeys(swapped);
    FromIterKeepsPairs(swapped);
    var inv := FromIter(swapped);
    forall k | k in m
      ensures m[k] in inv && inv[m[k]] == k
    {
      var i :| 0 <= i < |order| && order[i] == k;
      assert swapped[i] == (m[k], k);
    }
    assert |set i | 0 <= i < |order| :: order[i]| == |order| by {
      DistinctCard(order);
    }
    assert (set i | 0 <= i < |order| :: order[i]) == m.Keys;
  }

  /** `value_to_display_name`: the entries of `display_name_to_value`,
      visited in the map's iteration order `order`, turned round and collected. */
  function ValueToDisplayName(order: seq<string>): map<ButtonSet, string>
    requires IsIterationOrder(order, DisplayNameToValue())
  {
    FromIter(Swapped(DisplayNameToValue(), order))
  }

  /** The listed order is one iteration order. */
  lemma ListedOrderIsIterationOrder()
    ensures IsIterationOrder(Names, DisplayNameToValue())
  {
    var m := DisplayNameToValue();
    DisplayNameToValueContents();
    NamesDistinct();
    assert forall i | 0 <= i < |Names| :: Pairs()[i].0 == Names[i];
    forall name | name in m
      ensures name in Names
    {
      var i :| 0 <= i < |Names| && Names[i] == name;
    }
  }

  /** `value_to_display_name` is the exact inverse of `display_name_to_value`,
      whatever order the map is visited in: it has the same 28 entries, and
      both round trips return where they started. */
  lemma ValueToDisplayNameInverts(order: seq<string>)
    requires IsIterationOrder(order, DisplayNameToValue())
    ensures |ValueToDisplayName(order)| == FlagCount
    ensures forall name | name in DisplayNameToValue() ::
      DisplayNameToValue()[name] in ValueToDisplayName(order)
      && ValueToDisplayName(order)[DisplayNameToValue()[name]] == name
    ensures forall v | v in ValueToDisplayName(order) ::
      ValueToDisplayName(order)[v] in DisplayNameToValue()
      && DisplayNameToValue()[ValueToDisplayName(order)[v]] == v
  {
    var m := DisplayNameToValue();
    DisplayNameToValueContents();
    forall name, other | name in m && other in m && m[name] == m[other]
      ensures name == other
    {
      DisplayValuesInjective(name, other);
    }
    InvertInjective(m, order);
  }

  /** A sequence without repeats has as many distinct elements as positions. */
  lemma {:induction false} DistinctCard<K>(xs: seq<K>)
    requires forall i, j | 0 <= i < j < |xs| :: xs[i] != xs[j]
    ensures |set i | 0 <= i < |xs| :: xs[i]| == |xs|
  {
    if xs != [] {
      var init := xs[..|xs| - 1];
      DistinctCard(init);
      var s := set i | 0 <= i < |init| :: init[i];
      assert (set i | 0 <= i < |xs| :: xs[i]) == s + {xs[|xs| - 1]};
      assert xs[|xs| - 1] !in s;
    }
  }
}
