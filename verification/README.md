# Steam Deck controller over hidraw — a Dafny model

This project models the core of `steamdeck-controller-hidraw`, a Rust library
that finds the Steam Deck's built-in controller among the Linux raw HID device
nodes (`/dev/hidraw*`) and turns its 64-byte input reports into a set of pressed
buttons. The model covers:

- **Buttons** (`buttons.dfy`): the 28 flags of `SteamDeckGamepadButton`.
  The model proves that each flag is a distinct single bit and that together
  they occupy exactly bits 0..27. A button set is modelled as a `set<Button>`.
  `Buttons.Mask` gives its `u32` form, the union of its members' flags.
- **V1** (`v1.dfy`): the version 1 protocol.
  - It covers the device identifier (vendor 0x28de, product 0x1205, interface 2).
  - It covers the six per-byte flag layouts `ButtonFlags8`..`ButtonFlags14` and their mapping tables `map8`..`map14`.
  - It covers the decoder `parse`. The main theorem is `V1.ParseDecodes`: a button is in the decoded set exactly when byte 2 is 9 and the button's own bit is set in its own byte.
- **DisplayNames** (`display_names.dfy`): the two lookup tables.
  - `display_name_to_value` has 28 distinct names, one per button.
  - `value_to_display_name` inverts it exactly, whatever order the hash map is visited in.
- **Interface** (`interface.dfy`): `DeviceIdentifier` and discovery (`load_device`).
  - Discovery returns the first entry of the `/dev` listing that passes every check, in listing order.
  - If the listing cannot be read, that error is returned.
  - Otherwise it returns the error "failed to find hidraw file matching device".
- **SteamDeck** (`device.dfy`): `SteamDeckDevice::v1` and `best`, which are the same discovery.
- **EventLoop** (`event_loop.dfy`): the read–decode–send loop, over a finite stretch of readiness events.
  - The loop reads once per event that carries its token.
  - It sends every non-empty decoded set, in order.
  - It ignores failed reads.
  - It stops at the first failed send.

`wrappers.dfy` holds the `Option` and `Result` types.

## Model

| member | source | states |
|---|---|---|
| Buttons.Index | src/lib.rs:84-112 | Each button has a declaration position below 28, and `AllButtons` lists it at that position. |
| Buttons.FlagIsBit | src/lib.rs:85-112 | The `i`-th declared flag is bit `i`, that is, `1 << i`. |
| Buttons.FlagsAreSingleBits | src/lib.rs:85-112 | There are 28 flags; each is exactly one bit, and that bit lies inside `all()`. |
| Buttons.FlagsDisjoint | src/lib.rs:85-112 | Two different declared flags share no bit. |
| Buttons.FlagsCoverAll | src/lib.rs:84-112 | The union of the 28 flags is `all()` = 0x0FFF_FFFF: bits 0..27 and nothing else. |
| Buttons.ValuesAreDistinctBits | src/lib.rs:85-112 | Every button's value is a single bit inside `all()`, and different buttons' values are disjoint. |
| Buttons.Value | src/lib.rs:84-112 | The declared constant of a button. `Buttons.ValuesAreDistinctBits` states what these constants are. |
| Buttons.Mask | src/lib.rs:80-84 | `bits()` of a button set. `Buttons.MaskDecodes` states what the `u32` holds. |
| Buttons.Members | src/lib.rs:80-84 | `iter()` over a `u32`. `Buttons.MembersOfMask` states that it undoes `Buttons.Mask`. |
| Buttons.SelectedBit | src/lib.rs:80-84 | In a union of distinct flags, a flag is contained exactly when it was one of those joined. |
| Buttons.SelectedInside | src/lib.rs:80-84 | A union of flags that all lie inside a bound stays inside it. |
| Buttons.SelectedEmpty | src/lib.rs:80-84 | A union of distinct non-zero flags is zero exactly when no flag was joined. |
| Buttons.MaskFlag | src/lib.rs:84-112 | The `i`-th declared flag is in a set's `u32` exactly when the `i`-th button is in the set. |
| Buttons.MaskDecodes | src/lib.rs:84-112 | A set's `u32` has no bit outside `all()`. It is zero exactly when the set is empty (`is_empty()`). It contains each button's value exactly when the button is in the set. |
| Buttons.MembersOfMask | src/lib.rs:84-112 | Reading the buttons back out of a set's `u32` gives the set. |
| Buttons.MaskInjective | src/lib.rs:84-112 | Different button sets have different `u32` values. |
| V1.Id | src/v1.rs:15-26 | The version 1 identifier. `V1.IdAddressSuffix` and `SteamDeck.V1AcceptsController` state what discovery makes of it. |
| V1.IdAddressSuffix | src/v1.rs:15-26 | With the version 1 identifier, discovery looks for a physical address ending in "input2". |
| V1.FromBits | src/v1.rs:211-212 | Because every layout declares `const _ = !0`, `from_bits` accepts every byte unchanged. |
| V1.ApplyRules | src/v1.rs:74-106 | A chain of `if btns.contains(F) { out.insert(B) }` steps. `V1.ApplyRulesMembers` states what it adds. |
| V1.MapFlags | src/v1.rs:74-196 | The functions `map8`..`map14`. `V1.MapFlagsMembers` states what they add. |
| V1.ApplyRulesMembers | src/v1.rs:74-106 | A chain of steps that each add button `B` to `out` when `btns` contains flag `F` adds exactly the buttons whose flag is contained, and keeps everything already in `out`. |
| V1.FiresOnBit | src/v1.rs:74-196 | If every rule for a button tests the same bit, the button fires exactly when that bit's rule is in the table and the bit is set. |
| V1.Flags8Described | src/v1.rs:74-106 | `map8` pairs each `ButtonFlags8` flag with the button of the same name, and names every button of byte 8. |
| V1.Flags9Described | src/v1.rs:108-140 | `map9` pairs each `ButtonFlags9` flag with the button of the same name, and names every button of byte 9. |
| V1.Flags10Described | src/v1.rs:142-166 | `map10` pairs each `ButtonFlags10` flag with the button of the same name, and names every button of byte 10. |
| V1.Flags11Described | src/v1.rs:168-172 | `map11` pairs `ButtonFlags11::RSTICK` with `RSTICK`, the only button of byte 11. |
| V1.Flags13Described | src/v1.rs:174-190 | `map13` pairs each `ButtonFlags13` flag with the button of the same name, and names every button of byte 13. |
| V1.Flags14Described | src/v1.rs:192-196 | `map14` pairs `ButtonFlags14::QAM` with `QAM`, the only button of byte 14. |
| V1.LayoutDescribed | src/v1.rs:74-196 | Every mapping table agrees with its byte layout. |
| V1.MapFlagsMembers | src/v1.rs:74-196 | `mapN(btns, out)` adds exactly the buttons whose bit is set in byte N, and keeps `out`. |
| V1.MapByte | src/v1.rs:46-48 | One `from_bits`-then-`mapN` step of `parse`. `V1.MapByteMembers` states what it adds. |
| V1.MapBytes | src/v1.rs:46-67 | The six steps of `parse` in order. `V1.MapBytesMembers` states what they add. |
| V1.PositionOf | src/v1.rs:198-284 | The byte and bit that carry each button. `V1.PositionRoundTrip`, `V1.PositionInjective` and `V1.PositionShape` state its properties. |
| V1.Parse | src/v1.rs:40-71 | A report whose kind byte (byte 2) is not 9 decodes to the empty set. |
| V1.PositionRead | src/v1.rs:46-67 | The byte that carries any button is one that `parse` reads. |
| V1.MapByteMembers | src/v1.rs:46-48 | One `if let Some(flags) = from_bits(report[N]) { mapN(...) }` step adds exactly the buttons pressed in byte N. |
| V1.MapBytesMembers | src/v1.rs:46-67 | The six steps together add exactly the buttons pressed in the bytes they read. |
| V1.ParseMember | src/v1.rs:40-71 | A button is decoded iff byte 2 is 9 and its bit is set in its byte. |
| V1.ParseDecodes | src/v1.rs:40-71 | The decoded set is exactly the set of buttons pressed in an input report (byte 2 = 9). |
| V1.ParseBits | src/v1.rs:40-71 | The `u32` that `parse` returns has no bit outside `all()`. It is zero exactly when the report is not an input report or presses no button. It holds each button's value exactly when the input report presses that button. |
| V1.LayoutFlagsDistinct | src/v1.rs:198-284 | No layout names the same bit twice. |
| V1.RuleButtonFinds | src/v1.rs:74-196 | In a table without repeated flags, looking up a rule's bit finds that rule's button. |
| V1.RuleButtonSound | src/v1.rs:74-196 | A table lookup only answers with a button that the table pairs with that bit. |
| V1.LayoutAt | src/v1.rs:46-67 | Each byte offset belongs to at most one layout, and a layout is found at exactly its own offset. |
| V1.PositionRoundTrip | src/v1.rs:198-284 | Looking up the (byte, bit) position of any button gives back that button. |
| V1.ButtonAtRoundTrip | src/v1.rs:198-284 | A position that names a button is that button's position. |
| V1.PositionInjective | src/v1.rs:198-284 | No two buttons share a (byte, bit) position. |
| V1.SamePosition | src/v1.rs:198-284 | Two buttons have the same (byte, bit) position exactly when they are the same button. |
| V1.PositionShape | src/v1.rs:198-284 | Every button sits on a single bit of one of bytes 8..14. |
| V1.PressOnlyPresses | src/v1.rs:198-284 | The report that presses only `b` presses no other button's position. |
| V1.ParseSinglePress | src/v1.rs:40-196 | The input report with only `b`'s bit set decodes to exactly `{b}`. |
| V1.NamedBitsAreButtons | src/v1.rs:198-284 | A bit of a byte names a button iff it is one of that byte's declared flags. |
| V1.NamedBitOfButton | src/v1.rs:198-284 | Every button's bit is among the declared flags of its byte. |
| V1.NamedButton | src/v1.rs:198-284 | Every declared flag of every byte is the position of some button. |
| V1.ParseIgnoresUnnamedBits | src/v1.rs:211-212 | Bits that no layout names (the `const _ = !0` bits) never change the decoded set. |
| V1.ParseLocal | src/v1.rs:43-67 | The decoded set depends only on bytes 2, 8, 9, 10, 11, 13 and 14. |
| V1.ParseMonotone | src/v1.rs:74-196 | Setting more bits in the same kind of report never removes a decoded button. |
| DisplayNames.FromIter | src/lib.rs:118-150 | `HashMap::from_iter` over a list of pairs. `DisplayNames.FromIterKeepsPairs` states what it builds. |
| DisplayNames.DisplayNameToValue | src/lib.rs:117-155 | The name-to-button map. `DisplayNames.DisplayNameToValueContents` states its contents. |
| DisplayNames.FromIterKeepsPairs | src/lib.rs:118-150 | `HashMap::from_iter` of pairs with distinct keys has one entry per pair, maps each key to its value, and has no other keys. |
| DisplayNames.NamesDistinct | src/lib.rs:119-148 | The 28 display names are pairwise distinct. |
| DisplayNames.DisplayNameToValueContents | src/lib.rs:117-155 | `display_name_to_value` has 28 entries, exactly the listed names, each mapped to its listed button. |
| DisplayNames.EveryButtonNamed | src/lib.rs:152 | Every button has a display name. The `debug_assert_eq!` checks only that the map has as many entries as there are buttons; this lemma states the stronger fact. |
| DisplayNames.DisplayValuesInjective | src/lib.rs:119-148 | No two display names map to the same button. |
| DisplayNames.InvertInjective | src/lib.rs:157-162 | Turning round and collecting an injective map, in any order that visits each key once, gives its exact inverse. |
| DisplayNames.ListedOrderIsIterationOrder | src/lib.rs:117-155 | The listed name order visits every key of `display_name_to_value` exactly once. |
| DisplayNames.ValueToDisplayName | src/lib.rs:157-162 | The button-to-name map, collected in a given iteration order. `DisplayNames.ValueToDisplayNameInverts` states that it inverts the name map. |
| DisplayNames.ValueToDisplayNameInverts | src/lib.rs:157-162 | For every iteration order, `value_to_display_name` has 28 entries and inverts `display_name_to_value` both ways. |
| Interface.Digits | src/lib.rs:194-197 | Formatting a number gives a non-empty string of decimal digits, with no leading zero: the first digit is '0' only for 0. |
| Interface.DigitsRoundTrip | src/lib.rs:194-197 | Reading back the digits of a natural number gives that number. |
| Interface.Decimal | src/lib.rs:194-197 | `format!("{}", n)` for an integer. `Interface.DecimalRoundTrip` states that it can be read back. |
| Interface.DecimalRoundTrip | src/lib.rs:194-197 | Reading back `format!("{}", n)` for any interface number gives `n`, so different interface numbers format to different suffixes. |
| Interface.AddressSuffix | src/lib.rs:194-197 | The suffix `"input<interface>"`. `V1.IdAddressSuffix` gives its value for the version 1 identifier. |
| Interface.Accepts | src/lib.rs:182-197 | The checks made on one listed entry. `SteamDeck.V1AcceptsController` spells them out for the version 1 identifier. |
| Interface.FirstAccepted | src/lib.rs:181-206 | The scan stops at an entry that passes every check, and every earlier entry fails some check; with no stop, no entry passes. |
| Interface.LoadDevice | src/lib.rs:173-211 | A `read_dir` error is returned as is. On success the result is the opened device of the first accepted entry. Otherwise the error is `Other("failed to find hidraw file matching device")`, and no entry passes. |
| Interface.FirstAcceptedAt | src/lib.rs:181-206 | An accepted entry that follows only rejected ones is the one the scan stops at. |
| Interface.RejectedPrefixIrrelevant | src/lib.rs:181-206 | Any number of rejected entries before the listing does not change what discovery returns. |
| SteamDeck.OpenV1 | src/lib.rs:25-30 | `v1()` is the first controller node, with vendor 0x28de, product 0x1205 and interface 2, or the discovery error. |
| SteamDeck.OpenBest | src/lib.rs:32-37 | `best()` yields a device accepted for the version 1 identifier, or the listing's error. |
| SteamDeck.BestIsV1 | src/lib.rs:32-37 | `best()` and `v1()` return the same result for every listing. |
| SteamDeck.V1AcceptsController | src/lib.rs:183-199 | An entry is accepted iff all of these hold: it was listed, exists and is named `hidraw*`; it opens; it is a USB device 0x28de:0x1205; its physical address ends with "input2". |
| EventLoop.Contribution | src/lib.rs:62-72 | One event sends at most one set: the decoded report, and only when the event is ours, the read succeeded and the set is not empty. |
| EventLoop.SendsWhenBitsSet | src/lib.rs:62-64 | For an event of ours whose read succeeds, the `!out.is_empty()` test passes exactly when the decoded `u32` has a bit set. |
| EventLoop.Decodes | src/lib.rs:56-77 | What the loop would send if the receiver stayed. `EventLoop.DecodesComeFromReads`, `EventLoop.DecodesAppend` and `EventLoop.Run` state its properties. |
| EventLoop.ReadCount | src/lib.rs:59-61 | The number of reads, one per event of ours. `EventLoop.ReadCountAppend`, `EventLoop.ReadErrorCountsOnce` and `EventLoop.Run` state its properties. |
| EventLoop.DecodesAppend | src/lib.rs:56-77 | What the loop sends over two stretches of events is what it sends over each, in order. |
| EventLoop.ReadCountAppend | src/lib.rs:59-63 | The number of reads over two stretches of events is the sum of the two. |
| EventLoop.DecodesComeFromReads | src/lib.rs:62-69 | Every sent set is non-empty and is the decoding of a report read for one of our events. |
| EventLoop.SilentEventInvisible | src/lib.rs:59-76 | An event that sends nothing can be removed from anywhere in the stream without changing what is sent. |
| EventLoop.IgnoredEventInvisible | src/lib.rs:59-76 | Events with another token, and events whose read fails, change nothing that is sent. |
| EventLoop.EmptyDecodeInvisible | src/lib.rs:64-66 | A report that decodes to the empty set sends nothing. |
| EventLoop.OtherReportKindsInvisible | src/lib.rs:62-66 | With the version 1 decoder, a report whose byte 2 is not 9 sends nothing. |
| EventLoop.ReadErrorCountsOnce | src/lib.rs:62-72 | An event of ours whose read fails still costs exactly one read. |
| EventLoop.V1SentSetIsPress | src/lib.rs:62-67 | With the version 1 decoder, every sent set is exactly the set of buttons pressed in an input report read for one of our events. |
| EventLoop.SendPending | src/lib.rs:64-70 | When an event has something to send, the whole run sends more than the run before that event, and what was sent so far is a prefix. |
| EventLoop.Run | src/lib.rs:39-78 | The loop exits iff the receiver goes away before everything is sent. If it exits, the receiver got a prefix: the sends that succeeded before it was dropped. The channel is unbounded. Otherwise it got every non-empty decoded set in order, and the loop made one read per event of ours. |

## Left out

- Polling (`mio::Poll`, `Events`, the registration of the file descriptor) and the random token from `rand` are not modelled. The token and the events `poll` returns are parameters, flattened into one finite sequence.
- The source loop never ends unless a send fails or `poll` fails (which panics). The model runs over a finite stretch of events.
- The three `unwrap` panics of `event_loop` are not modelled: `Poll::new()` (src/lib.rs:42), the registration of the device's file descriptor (src/lib.rs:45-51), and `poll.poll(...)` (src/lib.rs:55), which fails on an error such as an interrupted wait.
- The `println!` messages on a read error and on disconnection are left out; the loop's behaviour after them is modelled.
- The channel (`std::sync::mpsc::Sender`) is modelled only by how many sends succeed before the receiver is dropped.
- The decoder is reached through `Box<dyn SteamDeckDeviceInterface>`, so `EventLoop.Run` takes it as a parameter. The lemmas that fix it to `V1.Parse` carry the version 1 facts.
- The operating system is not modelled. The directory listing, the path-exists test, opening a node, `get_raw_info` and `get_physical_address` are data in each directory entry. An open device is an opaque handle.
- `to_string_lossy` is not modelled: file names are already strings.
- `get_device`, `get_device_mut` and `from_device` are plain accessors and a constructor, with no behaviour of their own.
- `SteamDeckGamepadButton` is modelled as a set of buttons. `Buttons.Mask` and `Buttons.Members` convert to and from its `u32` form. The bitflags operators on whole values (`|=`, `insert`, `empty`) are modelled by set union, insertion and `{}`.
- The `bytemuck` derives (`Pod`, `Zeroable`) and `Debug` and `Hash` carry no behaviour and are left out.
- Hash-map iteration order is unspecified in Rust, so `value_to_display_name` takes it as a parameter. Its lemmas hold for every order.
- EventLoop.Run: when the loop exits, the number of reads is only bounded by the reads of the whole stretch. It is not pinned to the read of the event whose send failed.
- SteamDeck.OpenBest: its contract omits the first-match and not-found clauses; they follow from `SteamDeck.BestIsV1` and `SteamDeck.OpenV1`.
- The code builds the no-match error with `io::Error::other` (src/lib.rs:208-210), so its kind is `Other`.
