/** `SteamDeckDevice`: the public handle, a boxed protocol interface. Its two
    constructors, `v1` and `best`, run discovery with the version 1 device
    identifier. The `/dev` listing they scan is a parameter. */
module SteamDeck {
  import opened Wrappers
  import opened Interface
  import V1

  /** A discovered controller; the only protocol version is 1. */
  datatype SteamDeckDevice = SteamDeckDevice(device: Device)

  /** A listing of `/dev`: the directory itself may fail to read, and so may
      each of its entries. */
  type Listing = Result<seq<Result<DirEntry, IoError>>, IoError>

  /** `SteamDeckDevice::v1`: the first raw HID node of the version 1
      controller, or the error discovery reports. */
  function OpenV1(listing: Listing): (r: Result<SteamDeckDevice, IoError>)
    ensures listing.Failure? ==> r == Failure(listing.error)
    ensures r.Success? ==>
      exists i | 0 <= i < |listing.value| ::
        && Accepts(V1.Id(), listing.value[i])
        && r.value == SteamDeckDevice(listing.value[i].value.open.value)
        && forall j | 0 <= j < i :: !Accepts(V1.Id(), listing.value[j])
    ensures listing.Success? && r.Failure? ==>
      r.error == Other(NotFoundMessage) && forall j | 0 <= j < |listing.value| :: !Accepts(V1.Id(), listing.value[j])
  {
    match LoadDevice(V1.Id(), listing)
    case Success(device) => Success(SteamDeckDevice(device))
    case Failure(e) => Failure(e)
  }

  /** `SteamDeckDevice::best`: the best protocol version available, which today
      is version 1. */
  function OpenBest(listing: Listing): (r: Result<SteamDeckDevice, IoError>)
    ensures listing.Failure? ==> r == Failure(listing.error)
    ensures r.Success? ==>
      exists i | 0 <= i < |listing.value| ::
        && Accepts(V1.Id(), listing.value[i])
        && r.value == SteamDeckDevice(listing.value[i].value.open.value)
  {
    match LoadDevice(V1.Id(), listing)
    case Success(device) => Success(SteamDeckDevice(device))
    case Failure(e) => Failure(e)
  }

  /** `best` and `v1` find the same device, or fail the same way. */
  lemma BestIsV1(listing: Listing)
    ensures OpenBest(listing) == OpenV1(listing)
  {
  }

  /** An entry is accepted exactly when it is a USB raw HID node of vendor
      0x28de, product 0x1205, whose physical address ends with "input2". */
  lemma V1AcceptsController(listed: Result<DirEntry, IoError>)
    ensures Accepts(V1.Id(), listed) <==>
      && listed.Success?
      && listed.value.present
      && StartsWith(listed.value.fileName, "hidraw")
      && listed.value.open.Success?
      && listed.value.open.value.rawInfo == Success(RawInfo(Usb, 0x28de, 0x1205))
      && listed.value.open.value.physicalAddress.Success?
      && EndsWith(listed.value.open.value.physicalAddress.value, "input2")
  {
    V1.IdAddressSuffix();
  }
}
