/** Device discovery (`SteamDeckDeviceInterface::load_device`): scan the
    entries of `/dev` in the order the directory lists them and keep the first
    raw HID node whose metadata names the wanted device and interface. The
    operating system is abstracted away: each directory entry is a record of
    what the queries on it would return. */
module Interface {
  import opened Wrappers

  /** A signed 16-bit integer (`i16`). */
  type I16 = x: int | -0x8000 <= x < 0x8000

  /** `DeviceIdentifier`: USB vendor and product, and the USB interface number. */
  datatype DeviceIdentifier = DeviceIdentifier(vendorId: I16, productId: I16, interface: I16)

  /** The bus a raw HID device sits on; only USB matters here. */
  datatype BusType = Usb | Hil | Bluetooth | Virtual | OtherBus(code: int)

  /** `get_raw_info`: the bus type and the vendor and product ids. */
  datatype RawInfo = RawInfo(busType: BusType, vendor: I16, product: I16)

  /** An `io::Error`: an operating-system error code, or an error made by the
      program itself with `io::Error::other(message)`. */
  datatype IoError = Os(code: int) | Other(message: string)

  /** An opened raw HID device (`hidraw::Device`), with the answers its two
      metadata queries give. */
  datatype Device = Device(handle: nat, rawInfo: Result<RawInfo, IoError>, physicalAddress: Result<string, IoError>)

  /** One entry of the directory listing: whether its path exists, its file
      name, and what opening it gives. */
  datatype DirEntry = DirEntry(present: bool, fileName: string, open: Result<Device, IoError>)

  /** The error `load_device` returns when no entry matches. */
  const NotFoundMessage: string := "failed to find hidraw file matching device"

  /** Raw HID nodes are the entries whose name starts with this. */
  const NodePrefix: string := "hidraw"

  predicate StartsWith(s: string, prefix: string) {
    |prefix| <= |s| && s[..|prefix|] == prefix
  }

  predicate EndsWith(s: string, suffix: string) {
    |suffix| <= |s| && s[|s| - |suffix|..] == suffix
  }

  /** The character of one decimal digit. */
  function DigitChar(d: nat): char
    requires d < 10
  {
    "0123456789"[d]
  }

  /** The decimal digits of `n`, most significant first, without leading zeros. */
  function Digits(n: nat): (s: string)
    ensures 0 < |s|
    ensures forall i | 0 <= i < |s| :: '0' <= s[i] <= '9'
    ensures s[0] == '0' <==> n == 0
    decreases n
  {
    if n < 10 then [DigitChar(n)]
    else
      var high := Digits(n / 10);
      assert (high + [DigitChar(n % 10)])[0] == high[0];
      high + [DigitChar(n % 10)]
  }

  /** `format!("{}", n)` for an integer: an optional minus sign and the digits. */
  function Decimal(n: int): string {
    if n < 0 then "-" + Digits(-n) else Digits(n)
  }

  /** The value of a decimal digit character, or -1. */
  function DigitValue(c: char): int {
    if '0' <= c <= '9' then (c as int) - ('0' as int) else -1
  }

  /** The value of a string of decimal digits. */
  function DigitsValue(s: string): int {
    if s == [] then 0 else DigitsValue(s[..|s| - 1]) * 10 + DigitValue(s[|s| - 1])
  }

  /** The value of an optionally signed decimal numeral. */
  function DecimalValue(s: string): int {
    if 0 < |s| && s[0] == '-' then -DigitsValue(s[1..]) else DigitsValue(s)
  }

  /** Reading the digits of `n` back gives `n`. */
  lemma {:induction false} DigitsRoundTrip(n: nat)
    ensures DigitsValue(Digits(n)) == n
  {
    if n >= 10 {
      DigitsRoundTrip(n / 10);
      var s := Digits(n);
      assert s[..|s| - 1] == Digits(n / 10);
    }
  }

  /** Reading a formatted integer back gives the integer. */
  lemma DecimalRoundTrip(n: int)
    ensures DecimalValue(Decimal(n)) == n
  {
    if n < 0 {
      var digits := Digits(-n);
      DigitsRoundTrip(-n);
      assert Decimal(n) == "-" + digits;
      assert ("-" + digits)[1..] == digits;
    } else {
      var digits := Digits(n);
      DigitsRoundTrip(n);
      assert Decimal(n) == digits;
      assert '0' <= digits[0] <= '9';
    }
  }

  /** What the physical address of interface `interface` ends with: `"input<interface>"`. */
  function AddressSuffix(id: DeviceIdentifier): string {
    "input" + Decimal(id.interface)
  }

  /** The checks `load_device` makes on one listed entry, in the order it
      makes them: the entry was listed, exists and is a raw HID node; it
      opens; its raw info is readable and names the device on USB; its
      physical address is readable and ends with the interface suffix. */
  predicate Accepts(id: DeviceIdentifier, listed: Result<DirEntry, IoError>) {
    && listed.Success?
    && var entry := listed.value;
    && entry.present
    && StartsWith(entry.fileName, NodePrefix)
    && entry.open.Success?
    && var device := entry.open.value;
    && device.rawInfo.Success?
    && device.rawInfo.value.product == id.productId
    && device.rawInfo.value.vendor == id.vendorId
    && device.rawInfo.value.busType == Usb
    && device.physicalAddress.Success?
    && EndsWith(device.physicalAddress.value, AddressSuffix(id))
  }

  /** The index of the first accepted entry, if any. */
  function FirstAccepted(id: DeviceIdentifier, entries: seq<Result<DirEntry, IoError>>): (r: Option<nat>)
    ensures r.Some? ==> r.value < |entries| && Accepts(id, entries[r.value])
    ensures r.Some? ==> forall j | 0 <= j < r.value :: !Accepts(id, entries[j])
    ensures r.None? ==> forall j | 0 <= j < |entries| :: !Accepts(id, entries[j])
  {
    if entries == [] then None
    else if Accepts(id, entries[0]) then Some(0)
    else
      match FirstAccepted(id, entries[1..])
      case Some(i) => Some(i + 1)
      case None => None
  }

  /** `load_device`: the device of the first accepted entry; the error of
      the directory listing if it cannot be read; otherwise the not-found error. */
  function LoadDevice(id: DeviceIdentifier, listing: Result<seq<Result<DirEntry, IoError>>, IoError>): (r: Result<Device, IoError>)
    ensures listing.Failure? ==> r == Failure(listing.error)
    ensures listing.Success? && r.Success? ==>
      exists i | 0 <= i < |listing.value| ::
        && Accepts(id, listing.value[i])
        && r.value == listing.value[i].value.open.value
        && forall j | 0 <= j < i :: !Accepts(id, listing.value[j])
    ensures listing.Success? && r.Failure? ==>
      r.error == Other(NotFoundMessage) && forall j | 0 <= j < |listing.value| :: !Accepts(id, listing.value[j])
  {
    match listing
    case Failure(e) => Failure(e)
    case Success(entries) =>
      match FirstAccepted(id, entries)
      case Some(i) => Success(entries[i].value.open.value)
      case None => Failure(Other(NotFoundMessage))
  }

  /** The first accepted entry is determined by where it sits. */
  lemma FirstAcceptedAt(id: DeviceIdentifier, entries: seq<Result<DirEntry, IoError>>, k: nat)
    requires k < |entries| && Accepts(id, entries[k])
    requires forall j | 0 <= j < k :: !Accepts(id, entries[j])
    ensures FirstAccepted(id, entries) == Some(k)
  {
  }

  /** Entries that are not accepted may be put in front of the listing
      without changing what `load_device` returns. */
  lemma RejectedPrefixIrrelevant(
    id: DeviceIdentifier, skipped: seq<Result<DirEntry, IoError>>, entries: seq<Result<DirEntry, IoError>>)
    requires forall j | 0 <= j < |skipped| :: !Accepts(id, skipped[j])
    ensures LoadDevice(id, Success(skipped + entries)) == LoadDevice(id, Success(entries))
  {
    var all := skipped + entries;
    match FirstAccepted(id, entries)
    case Some(i) =>
      assert all[|skipped| + i] == entries[i];
      forall j | 0 <= j < |skipped| + i
        ensures !Accepts(id, all[j])
      {
        if j >= |skipped| {
          assert all[j] == entries[j - |skipped|];
        }
      }
      FirstAcceptedAt(id, all, |skipped| + i);
    case None =>
      forall j | 0 <= j < |all|
        ensures !Accepts(id, all[j])
      {
        if j >= |skipped| {
          assert all[j] == entries[j - |skipped|];
        }
      }
  }
}
