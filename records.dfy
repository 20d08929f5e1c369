// The device records the API receives: motion control systems (MCS) and link adapters.
// Each record's identity is one string field; the decoders fix how wire fields become
// record fields.

module Records {
  import opened Base

  /** A JSON value as it reaches a decoder; `JOther` stands for non-integral numbers,
      arrays and nested objects, which no field rule of these records accepts. */
  datatype Json = JBool(b: bool) | JInt(i: int) | JString(s: string) | JNull | JOther

  /** One decoded JSON object, key to value. */
  type WireObject = map<string, Json>

  /** The group id of a system that belongs to no group. */
  const NoGroup: int := 65535

  /** `setup` values of a group master. */
  const MasterIndicator: seq<string> := [
    "panOnly", "tiltOnly", "panTilt", "slideOnly", "dollyOnly", "panAndSlide", "tiltAndSlide",
    "panAndDolly", "tiltAndDolly", "panTiltAndSlide", "panTiltAndDolly", "panAndJib", "tiltAndJib",
    "panTiltAndJib", "jibOnly", "panAndJibPlus", "tiltAndJibPlus", "panTiltAndJibPlus",
    "jibPlusOnly", "followFocusOnly"]

  /** `setup` values of a group member. */
  const MemberIndicators: seq<string> := ["groupMember"]

  /** `setup` values of a system that is not paired yet. */
  const UnpairedIndicators: seq<string> := ["none", "possibleCanbusMaster"]

  /** No `setup` string is read as two of master, member and unpaired. */
  lemma IndicatorsDisjoint(s: string)
    ensures !(s in MasterIndicator && s in MemberIndicators)
    ensures !(s in MasterIndicator && s in UnpairedIndicators)
    ensures !(s in MemberIndicators && s in UnpairedIndicators)
    ensures |MasterIndicator| == 20
  {
  }

  // ---------------------------------------------------------------------------------------
  // Field decoders shared by the records: a required field that is missing or of the wrong
  // kind makes the whole record fail.

  function DecodeBool(w: WireObject, key: string): (r: Option<bool>)
    ensures r.Some? <==> key in w && w[key].JBool?
    ensures r.Some? ==> w[key] == JBool(r.value)
  {
    if key in w && w[key].JBool? then Some(w[key].b) else None
  }

  function DecodeInt(w: WireObject, key: string): (r: Option<int>)
    ensures r.Some? <==> key in w && w[key].JInt? && IsInt64(w[key].i)
    ensures r.Some? ==> w[key] == JInt(r.value)
  {
    if key in w && w[key].JInt? && IsInt64(w[key].i) then Some(w[key].i) else None
  }

  function DecodeString(w: WireObject, key: string): (r: Option<string>)
    ensures r.Some? <==> key in w && w[key].JString?
    ensures r.Some? ==> w[key] == JString(r.value)
  {
    if key in w && w[key].JString? then Some(w[key].s) else None
  }

  function DecodeDevice(w: WireObject, key: string): (r: Option<EdelkroneDevice>)
    ensures r.Some? ==> key in w && w[key] == JString(DeviceRaw(r.value))
    ensures r.None? ==> forall d :: key !in w || w[key] != JString(DeviceRaw(d))
  {
    match DecodeString(w, key)
    case None => None
    case Some(s) => DeviceFromRaw(s)
  }

  // ---------------------------------------------------------------------------------------
  // Motion control systems

  /** The decoded fields of a motion control system. */
  datatype McsFields = McsFields(
    groupID: int,
    linkPairingActive: bool,
    tiltedCode: int,
    isTilted: bool,
    macAddress: string,
    rssi: int,
    isFirmwareAvailable: bool,
    isRadioUpdateAvailable: bool,
    setup: string,
    deviceType: EdelkroneDevice,
    useInPairing: bool)

  /** The decoder of a motion control system. The `isTilted` key carries an integer that
      defaults to 0; `linkPairigingActive` only records whether a Bool was present. */
  function DecodeMcs(w: WireObject): (r: Option<McsFields>)
    ensures r.Some? <==>
      DecodeInt(w, "groupId").Some? && DecodeString(w, "mac").Some? && DecodeInt(w, "rssi").Some?
      && DecodeBool(w, "isDeviceFirmwareUpdateAvailable").Some?
      && DecodeBool(w, "isRadioFirmwareUpdateAvailable").Some?
      && DecodeString(w, "setup").Some? && DecodeDevice(w, "type").Some?
    ensures r.Some? ==> (r.value.isTilted <==> "isTilted" in w && w["isTilted"] == JInt(1))
    ensures r.Some? ==> (r.value.linkPairingActive <==> "linkPairigingActive" in w && w["linkPairigingActive"].JBool?)
    ensures r.Some? ==> !r.value.useInPairing
    ensures r.Some? ==> JInt(r.value.groupID) == w["groupId"] && JString(r.value.macAddress) == w["mac"]
    ensures r.Some? ==> JString(r.value.setup) == w["setup"]
  {
    var tilt := match DecodeInt(w, "isTilted") case Some(k) => k case None => 0;
    match (DecodeInt(w, "groupId"), DecodeString(w, "mac"), DecodeInt(w, "rssi"))
    case (Some(g), Some(mac), Some(rssi)) =>
      (match (DecodeBool(w, "isDeviceFirmwareUpdateAvailable"), DecodeBool(w, "isRadioFirmwareUpdateAvailable"))
       case (Some(fw), Some(radio)) =>
         (match (DecodeString(w, "setup"), DecodeDevice(w, "type"))
          case (Some(setup), Some(device)) =>
            Some(McsFields(g, DecodeBool(w, "linkPairigingActive").Some?, tilt, tilt == 1, mac, rssi,
                           fw, radio, setup, device, false))
          case _ => None)
       case _ => None)
    case _ => None
  }

  /** A motion control system. Only `groupID` and `useInPairing` are changed by the API
      after decoding; the others are fixed. */
  class MotionControlSystem {
    var groupID: int
    const linkPairingActive: bool
    const isTilted: bool
    const macAddress: string
    const rssi: int
    const setup: string
    const deviceType: EdelkroneDevice
    var useInPairing: bool

    constructor Decoded(f: McsFields)
      ensures groupID == f.groupID && linkPairingActive == f.linkPairingActive && isTilted == f.isTilted
      ensures macAddress == f.macAddress && rssi == f.rssi && setup == f.setup && deviceType == f.deviceType
      ensures useInPairing == f.useInPairing
    {
      groupID := f.groupID;
      linkPairingActive := f.linkPairingActive;
      isTilted := f.isTilted;
      macAddress := f.macAddress;
      rssi := f.rssi;
      setup := f.setup;
      deviceType := f.deviceType;
      useInPairing := f.useInPairing;
    }

    /** The parameterless initialiser: no group, not set up, not selected for pairing. */
    constructor Default()
      ensures groupID == NoGroup && setup == "none" && !useInPairing
      ensures !linkPairingActive && !isTilted && deviceType == HeadOne
    {
      groupID := NoGroup;
      linkPairingActive := false;
      isTilted := false;
      macAddress := "aa:33:3a:f3:b4:4e";
      rssi := 5;
      setup := "none";
      deviceType := HeadOne;
      useInPairing := false;
    }

    /** `id`: the MAC address. */
    function Id(): string {
      macAddress
    }
  }

  /** `MotionControlSystem ==`: the same MAC address. */
  predicate SameSystem(a: MotionControlSystem, b: MotionControlSystem) {
    a.macAddress == b.macAddress
  }

  /** The value `hash(into:)` feeds to the hasher: the MAC address. */
  function McsHashInput(a: MotionControlSystem): string {
    a.macAddress
  }

  /** Equality, hashing and `id` all look at the MAC address alone: equal records hash alike
      (the `Hashable` law), and two records are equal exactly when their ids agree. */
  lemma McsIdentity(a: MotionControlSystem, b: MotionControlSystem)
    ensures SameSystem(a, b) ==> McsHashInput(a) == McsHashInput(b)
    ensures SameSystem(a, b) <==> a.Id() == b.Id()
  {
  }

  // ---------------------------------------------------------------------------------------
  // Link adapters

  datatype ConnectionType = NoConnection | Canbus | Wireless

  function ConnectionTypeFromRaw(s: string): Option<ConnectionType> {
    if s == "none" then Some(NoConnection)
    else if s == "canbus" then Some(Canbus)
    else if s == "wireless" then Some(Wireless)
    else None
  }

  datatype LinkAdapterFields = LinkAdapterFields(
    updateAvailable: bool,
    updateRequired: bool,
    firmwareCorrupted: Option<bool>,
    radioUpdateRequired: bool,
    radioUpdateAvailable: bool,
    connectionType: ConnectionType,
    foundAt: string,
    isPaired: bool,
    isConnected: bool,
    isValid: bool,
    id: string,
    linkType: string,
    portName: string)

  /** The decoder of a link adapter. `isFirmwareCorrupted` is optional; `isPaired` is read
      from `isPairingDone` and `id` from `linkID`; a fresh adapter is never connected. */
  function DecodeLinkAdapter(w: WireObject): (r: Option<LinkAdapterFields>)
    ensures r.Some? <==>
      DecodeBool(w, "isDeviceFirmwareUpdateAvailable").Some? && DecodeBool(w, "isDeviceFirmwareUpdateRequired").Some?
      && DecodeBool(w, "isRadioFirmwareUpdateRequired").Some? && DecodeBool(w, "isRadioFirmwareUpdateAvailable").Some?
      && DecodeString(w, "linkConnectionType").Some?
      && ConnectionTypeFromRaw(DecodeString(w, "linkConnectionType").value).Some?
      && DecodeString(w, "initialFoundEpoch").Some? && DecodeBool(w, "isPairingDone").Some?
      && DecodeBool(w, "isValid").Some? && DecodeString(w, "linkID").Some?
      && DecodeString(w, "linkType").Some? && DecodeString(w, "portName").Some?
    ensures r.Some? ==> !r.value.isConnected
    ensures r.Some? ==> (r.value.firmwareCorrupted.None? <==> "isFirmwareCorrupted" !in w || !w["isFirmwareCorrupted"].JBool?)
    ensures r.Some? ==> JBool(r.value.isPaired) == w["isPairingDone"] && JString(r.value.id) == w["linkID"]
    ensures r.Some? ==> JBool(r.value.isValid) == w["isValid"]
  {
    match (DecodeBool(w, "isDeviceFirmwareUpdateAvailable"), DecodeBool(w, "isDeviceFirmwareUpdateRequired"),
           DecodeBool(w, "isRadioFirmwareUpdateRequired"), DecodeBool(w, "isRadioFirmwareUpdateAvailable"))
    case (Some(ua), Some(ur), Some(rr), Some(ra)) =>
      (match (DecodeString(w, "linkConnectionType"), DecodeString(w, "initialFoundEpoch"), DecodeBool(w, "isPairingDone"))
       case (Some(ct), Some(found), Some(paired)) =>
         (match (ConnectionTypeFromRaw(ct), DecodeBool(w, "isValid"), DecodeString(w, "linkID"))
          case (Some(conn), Some(valid), Some(id)) =>
            (match (DecodeString(w, "linkType"), DecodeString(w, "portName"))
             case (Some(lt), Some(port)) =>
               Some(LinkAdapterFields(ua, ur, DecodeBool(w, "isFirmwareCorrupted"), rr, ra, conn, found,
                                      paired, false, valid, id, lt, port))
             case _ => None)
          case _ => None)
       case _ => None)
    case _ => None
  }

  /** A link adapter. The API only ever changes its `isConnected` flag. */
  class LinkAdapter {
    const id: string
    const isValid: bool
    const isPaired: bool
    var isConnected: bool

    constructor Decoded(f: LinkAdapterFields)
      ensures id == f.id && isValid == f.isValid && isPaired == f.isPaired && isConnected == f.isConnected
    {
      id := f.id;
      isValid := f.isValid;
      isPaired := f.isPaired;
      isConnected := f.isConnected;
    }
  }

  /** `LinkAdapter ==`: the same link id. */
  predicate SameAdapter(a: LinkAdapter, b: LinkAdapter) {
    a.id == b.id
  }

  /** The value `hash(into:)` feeds to the hasher: the link id. */
  function AdapterHashInput(a: LinkAdapter): string {
    a.id
  }

  /** Equal adapters hash alike (the `Hashable` law). */
  lemma AdapterIdentity(a: LinkAdapter, b: LinkAdapter)
    ensures SameAdapter(a, b) ==> AdapterHashInput(a) == AdapterHashInput(b)
  {
  }
}
