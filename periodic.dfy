// The periodic bundle status: the axis descriptions, the per-axis accessors that the motion
// control status reads, the in-place `&=` merge, and the mapping of reading keys to axes.

module Periodic {
  import opened Base

  /** An axis and the device that drives it. */
  datatype AxelIdentifier = AxelIdentifier(axelName: AxelID, device: EdelkroneDevice)

  /** `AxelIdentifier ==` (and its hash): the axis name alone; the device is ignored. */
  predicate SameAxel(a: AxelIdentifier, b: AxelIdentifier) {
    a.axelName == b.axelName
  }

  /** The value `hash(into:)` feeds to the hasher: the axis name. */
  function AxelHashInput(a: AxelIdentifier): AxelID {
    a.axelName
  }

  /** Array equality under `AxelIdentifier ==`: same length, same names position by position. */
  predicate SameAxes(xs: seq<AxelIdentifier>, ys: seq<AxelIdentifier>) {
    |xs| == |ys| && forall i :: 0 <= i < |xs| ==> SameAxel(xs[i], ys[i])
  }

  /** Battery level, tilt and device of one bundled device. Its `==` compares all three
      fields, which is the structural equality of this datatype. */
  datatype BundledDeviceInfo = BundledDeviceInfo(batteryLevel: Double, isTilted: Option<bool>, device: EdelkroneDevice)

  /** The index of the first axis with the given name. */
  function FirstIndexOf(axes: seq<AxelIdentifier>, name: AxelID): (r: Option<nat>)
    ensures r.Some? ==> r.value < |axes| && axes[r.value].axelName == name
  {
    if |axes| == 0 then None
    else if axes[0].axelName == name then Some(0)
    else match FirstIndexOf(axes[1..], name)
      case None => None
      case Some(k) => Some(k + 1)
  }

  /** `FirstIndexOf` finds the first position holding the name, and finds nothing only when
      no position holds it. */
  lemma {:induction false} FirstIndexOfIsFirst(axes: seq<AxelIdentifier>, name: AxelID)
    ensures FirstIndexOf(axes, name).Some? ==>
              forall j :: 0 <= j < FirstIndexOf(axes, name).value ==> axes[j].axelName != name
    ensures FirstIndexOf(axes, name).None? <==> forall j :: 0 <= j < |axes| ==> axes[j].axelName != name
  {
    if |axes| > 0 && axes[0].axelName != name {
      FirstIndexOfIsFirst(axes[1..], name);
      assert forall j :: 1 <= j < |axes| ==> axes[j] == axes[1..][j - 1];
    }
  }

  /** The list kept by the `&=` merge for one axis array: the old array when its names equal
      the new one's position by position, the new array otherwise. */
  function MergedAxes(current: seq<AxelIdentifier>, incoming: seq<AxelIdentifier>): (r: seq<AxelIdentifier>)
    ensures SameAxes(r, incoming)
    ensures r == incoming || r == current
  {
    if SameAxes(current, incoming) then current else incoming
  }

  /** Because the array comparison ignores devices, a merge can keep a stale device. */
  lemma MergedAxesKeepsStaleDevice()
    ensures MergedAxes([AxelIdentifier(HeadPan, HeadOne)], [AxelIdentifier(HeadPan, PanPro)])
         == [AxelIdentifier(HeadPan, HeadOne)]
  {
  }

  /** The value kept by a write that only happens when the values differ: always the incoming one. */
  function Gated<T(==)>(current: T, incoming: T): (r: T)
    ensures r == incoming
  {
    if current != incoming then incoming else current
  }

  /** A reading key names an axis; a key that is not an axis name is read as the head pan. */
  function ReadingKey(k: string): AxelID {
    match AxelFromRaw(k)
    case Some(a) => a
    case None => HeadPan
  }

  lemma ReadingKeyRule(k: string)
    ensures forall a :: AxelRaw(a) == k ==> ReadingKey(k) == a
    ensures (forall a :: AxelRaw(a) != k) ==> ReadingKey(k) == HeadPan
  {
  }

  /** The readings loop of the status decoder: every key of the wire dictionary is mapped to
      its axis, in the dictionary's (unspecified) order; when two keys map to the same axis
      the one visited last wins. */
  method DecodeReadings(raw: map<string, Double>) returns (readings: map<AxelID, Double>)
    ensures readings.Keys == set k | k in raw :: ReadingKey(k)
    ensures forall a :: a in readings ==> exists k :: k in raw && ReadingKey(k) == a && raw[k] == readings[a]
    ensures forall a :: (forall k :: k in raw ==> AxelFromRaw(k).Some?) && AxelRaw(a) in raw ==>
              a in readings && readings[a] == raw[AxelRaw(a)]
  {
    var pending := raw.Keys;
    readings := map[];
    while pending != {}
      invariant pending <= raw.Keys
      invariant readings.Keys == set k | k in raw.Keys - pending :: ReadingKey(k)
      invariant forall a :: a in readings ==>
                  exists k :: k in raw.Keys - pending && ReadingKey(k) == a && raw[k] == readings[a]
      decreases pending
    {
      var k :| k in pending;
      readings := readings[ReadingKey(k) := raw[k]];
      pending := pending - {k};
    }
    forall a | (forall k :: k in raw ==> AxelFromRaw(k).Some?) && AxelRaw(a) in raw
      ensures a in readings && readings[a] == raw[AxelRaw(a)]
    {
      ReadingKeyRule(AxelRaw(a));
      assert a in readings;
      var k :| k in raw && ReadingKey(k) == a && raw[k] == readings[a];
      assert AxelRaw(AxelFromRaw(k).value) == k;
    }
  }

  /** The fields of a periodic status, as one value. */
  datatype PeriodicSnapshot = PeriodicSnapshot(
    calibratedAxes: seq<AxelIdentifier>,
    deviceInfo: seq<BundledDeviceInfo>,
    deviceInfoReady: bool,
    keyposeLoopActive: bool,
    keyposeMotionAimIndex: int,
    keyposeMotionStartIndex: int,
    keyposeSlotsFilled: seq<bool>,
    plannedMotionProgress: Double,
    plannedMotionDuration: Double,
    readings: map<AxelID, Double>,
    realTimeSupportedAxes: seq<AxelIdentifier>,
    state: MotionState,
    supportedAxes: seq<AxelIdentifier>,
    timestampDevice: int,
    timestampEpoch: int)
  {
    /** `deviceFor(name:)`: the device of the first supported axis with that name, else unknown. */
    function DeviceFor(name: AxelID): EdelkroneDevice {
      match FirstIndexOf(supportedAxes, name)
      case Some(k) => supportedAxes[k].device
      case None => Unknown
    }

    /** `positionFor(name:)`: the reading of that axis, 0.0 when there is none. */
    function PositionFor(name: AxelID): Double {
      if name in readings then readings[name] else ZeroDouble
    }

    /** `calibrationStateFor(name:)`: whether a ready status lists the axis as calibrated. */
    predicate CalibrationStateFor(name: AxelID) {
      deviceInfoReady && FirstIndexOf(calibratedAxes, name).Some?
    }

    /** `batteryLevelFor(name:)` indexes `deviceInfo` at the position of the axis in
        `supportedAxes`; it traps when `deviceInfo` is shorter than that. */
    predicate BatteryReadable(name: AxelID) {
      !deviceInfoReady ||
      match FirstIndexOf(supportedAxes, name)
      case None => true
      case Some(k) => k < |deviceInfo|
    }

    /** The names of the supported axes. */
    function SupportedNames(): set<AxelID> {
      set i | 0 <= i < |supportedAxes| :: supportedAxes[i].axelName
    }

    /** Every supported axis has a battery entry (or the status is not ready). */
    predicate BatteryLevelsReadable() {
      forall name :: name in SupportedNames() ==> BatteryReadable(name)
    }

    /** `batteryLevelFor(name:)`: the battery entry at the axis's position, 0.0 when the status
        is not ready or the axis is not supported. */
    function BatteryLevelFor(name: AxelID): Double
      requires BatteryReadable(name)
    {
      if !deviceInfoReady then ZeroDouble
      else match FirstIndexOf(supportedAxes, name)
        case Some(k) => deviceInfo[k].batteryLevel
        case None => ZeroDouble
    }
  }

  /** The axis names of a list, in order. */
  function AxisNames(axes: seq<AxelIdentifier>): (r: seq<AxelID>)
    ensures |r| == |axes|
  {
    if |axes| == 0 then [] else AxisNames(axes[..|axes| - 1]) + [axes[|axes| - 1].axelName]
  }

  /** Position `i` of `AxisNames` is the name at position `i`. */
  lemma {:induction false} AxisNamesAt(axes: seq<AxelIdentifier>, i: nat)
    requires i < |axes|
    ensures AxisNames(axes)[i] == axes[i].axelName
  {
    if i < |axes| - 1 {
      AxisNamesAt(axes[..|axes| - 1], i);
    }
  }

  /** Extending a prefix of the list by one axis appends that axis's name. */
  lemma AxisNamesExtend(axes: seq<AxelIdentifier>, n: nat)
    requires n < |axes|
    ensures AxisNames(axes[..n + 1]) == AxisNames(axes[..n]) + [axes[n].axelName]
  {
    assert axes[..n + 1][..n] == axes[..n];
  }

  /** The names in `AxisNames` are exactly the supported names, and each of them can be
      read by `batteryLevelFor` when all of them can. */
  lemma AxisNamesAreSupported(s: PeriodicSnapshot)
    ensures forall k :: k in AxisNames(s.supportedAxes) <==> k in s.SupportedNames()
  {
    var names := AxisNames(s.supportedAxes);
    forall k | k in s.SupportedNames() ensures k in names {
      var i :| 0 <= i < |s.supportedAxes| && s.supportedAxes[i].axelName == k;
      AxisNamesAt(s.supportedAxes, i);
    }
    forall k | k in names ensures k in s.SupportedNames() {
      var i :| 0 <= i < |names| && names[i] == k;
      AxisNamesAt(s.supportedAxes, i);
    }
  }

  /** The name at a position of the supported axes is a supported name. */
  lemma SupportedNameAt(s: PeriodicSnapshot, i: nat)
    requires i < |s.supportedAxes|
    ensures s.supportedAxes[i].axelName in s.SupportedNames()
    ensures s.BatteryLevelsReadable() ==> s.BatteryReadable(s.supportedAxes[i].axelName)
  {
  }

  /** Equal axis identifiers hash alike, and two arrays are equal under `AxelIdentifier ==`
      exactly when they list the same names in the same order. */
  lemma AxelIdentifierRules(a: AxelIdentifier, b: AxelIdentifier, xs: seq<AxelIdentifier>, ys: seq<AxelIdentifier>)
    ensures SameAxel(a, b) ==> AxelHashInput(a) == AxelHashInput(b)
    ensures SameAxes(xs, ys) <==> AxisNames(xs) == AxisNames(ys)
  {
    if SameAxes(xs, ys) {
      forall i | 0 <= i < |xs| ensures AxisNames(xs)[i] == AxisNames(ys)[i] {
        AxisNamesAt(xs, i);
        AxisNamesAt(ys, i);
      }
    }
    if AxisNames(xs) == AxisNames(ys) {
      forall i | 0 <= i < |xs| ensures SameAxel(xs[i], ys[i]) {
        AxisNamesAt(xs, i);
        AxisNamesAt(ys, i);
      }
    }
  }

  /** Arrays equal under `AxelIdentifier ==` find every name at the same position. */
  lemma {:induction false} FirstIndexOfSameAxes(xs: seq<AxelIdentifier>, ys: seq<AxelIdentifier>, name: AxelID)
    requires SameAxes(xs, ys)
    ensures FirstIndexOf(xs, name) == FirstIndexOf(ys, name)
  {
    if |xs| > 0 {
      assert SameAxel(xs[0], ys[0]);
      assert SameAxes(xs[1..], ys[1..]) by {
        forall i | 0 <= i < |xs[1..]| ensures SameAxel(xs[1..][i], ys[1..][i]) {
          assert SameAxel(xs[i + 1], ys[i + 1]);
        }
      }
      FirstIndexOfSameAxes(xs[1..], ys[1..], name);
    }
  }

  /** `deviceFor(name:)` returns the device of the first supported axis with that name, and
      `unknown` when no supported axis has it. */
  lemma DeviceForFirstMatch(s: PeriodicSnapshot, name: AxelID)
    ensures (forall j :: 0 <= j < |s.supportedAxes| ==> s.supportedAxes[j].axelName != name) ==> s.DeviceFor(name) == Unknown
    ensures forall j :: 0 <= j < |s.supportedAxes| && s.supportedAxes[j].axelName == name
              && (forall i :: 0 <= i < j ==> s.supportedAxes[i].axelName != name)
              ==> s.DeviceFor(name) == s.supportedAxes[j].device
  {
    FirstIndexOfIsFirst(s.supportedAxes, name);
    forall j | 0 <= j < |s.supportedAxes| && s.supportedAxes[j].axelName == name
               && (forall i :: 0 <= i < j ==> s.supportedAxes[i].axelName != name)
      ensures s.DeviceFor(name) == s.supportedAxes[j].device
    {
      var r := FirstIndexOf(s.supportedAxes, name);
      assert r.Some? && r.value == j;
    }
  }

  /** `calibrationStateFor(name:)` holds exactly when the status is ready and some calibrated
      axis has that name. */
  lemma CalibrationStateForListed(s: PeriodicSnapshot, name: AxelID)
    ensures s.CalibrationStateFor(name)
            <==> s.deviceInfoReady && exists j :: 0 <= j < |s.calibratedAxes| && s.calibratedAxes[j].axelName == name
  {
    FirstIndexOfIsFirst(s.calibratedAxes, name);
  }

  /** `batteryLevelFor(name:)` is 0.0 when the status is not ready or the axis is unsupported,
      and otherwise the `deviceInfo` entry at the position of the first supported axis with
      that name. */
  lemma BatteryLevelForFirstMatch(s: PeriodicSnapshot, name: AxelID)
    requires s.BatteryReadable(name)
    ensures !s.deviceInfoReady ==> s.BatteryLevelFor(name) == ZeroDouble
    ensures (forall j :: 0 <= j < |s.supportedAxes| ==> s.supportedAxes[j].axelName != name) ==> s.BatteryLevelFor(name) == ZeroDouble
    ensures forall j :: 0 <= j < |s.supportedAxes| && s.supportedAxes[j].axelName == name && s.deviceInfoReady
              && (forall i :: 0 <= i < j ==> s.supportedAxes[i].axelName != name)
              ==> j < |s.deviceInfo| && s.BatteryLevelFor(name) == s.deviceInfo[j].batteryLevel
  {
    FirstIndexOfIsFirst(s.supportedAxes, name);
  }

  /** The sample status embedded in the parameterless initialiser: a pan-tilt head and a
      slider, ready, six empty keypose slots. */
  const FixtureSnapshot: PeriodicSnapshot := PeriodicSnapshot(
    [AxelIdentifier(Slide, SliderOne)],
    [BundledDeviceInfo(Double(0x3FB9_9999_9999_999A), Some(false), HeadOne),
     BundledDeviceInfo(Double(0x3FC9_9999_9999_999A), Some(true), HeadOne),
     BundledDeviceInfo(Double(0x3FE0_0000_0000_0000), None, SliderOne)],
    true, false, 0, 0, [false, false, false, false, false, false], OneDouble, ZeroDouble,
    map[HeadPan := Double(0x4056_80D5_0000_0000), HeadTilt := Double(0x4056_7F4B_C000_0000), Slide := ZeroDouble],
    [], Idle,
    [AxelIdentifier(HeadPan, HeadOne), AxelIdentifier(HeadTilt, HeadOne), AxelIdentifier(Slide, SliderOne)],
    3631580, 1648073281431)

  /** The property defaults, with both timestamps set to 0. */
  const InitialSnapshot: PeriodicSnapshot := PeriodicSnapshot(
    [], [], false, false, -1, -1, [], ZeroDouble, ZeroDouble, map[], [], Idle, [], 0, 0)

  /** What the parameterless initialiser leaves: the sample with both timestamps 0. */
  const DefaultSnapshot: PeriodicSnapshot := FixtureSnapshot.(timestampDevice := 0, timestampEpoch := 0)

  /** The sample status is ready, supports the pan, tilt and slide axes and has a battery
      entry for each of them. */
  lemma DefaultSnapshotFacts()
    ensures DefaultSnapshot.deviceInfoReady
    ensures DefaultSnapshot.SupportedNames() == {HeadPan, HeadTilt, Slide}
    ensures DefaultSnapshot.BatteryLevelsReadable()
    ensures DefaultSnapshot.DeviceFor(Slide) == SliderOne && DefaultSnapshot.CalibrationStateFor(Slide)
    ensures !DefaultSnapshot.CalibrationStateFor(HeadPan)
  {
    var axes := DefaultSnapshot.supportedAxes;
    assert axes[0].axelName == HeadPan && axes[1].axelName == HeadTilt && axes[2].axelName == Slide;
    assert DefaultSnapshot.SupportedNames() == {HeadPan, HeadTilt, Slide};
    assert FirstIndexOf(axes, HeadPan) == Some(0);
    assert FirstIndexOf(axes[1..], HeadTilt) == Some(0);
    assert FirstIndexOf(axes, HeadTilt) == Some(1);
    assert FirstIndexOf(axes[2..], Slide) == Some(0);
    assert FirstIndexOf(axes[1..], Slide) == Some(1);
    assert FirstIndexOf(axes, Slide) == Some(2);
  }

  /** The status after `&=`: every field of the incoming status, except that an axis array
      whose names did not change is kept, and the two timestamps are not copied. */
  function MergedSnapshot(current: PeriodicSnapshot, incoming: PeriodicSnapshot): PeriodicSnapshot {
    incoming.(calibratedAxes := MergedAxes(current.calibratedAxes, incoming.calibratedAxes),
              realTimeSupportedAxes := MergedAxes(current.realTimeSupportedAxes, incoming.realTimeSupportedAxes),
              supportedAxes := MergedAxes(current.supportedAxes, incoming.supportedAxes),
              timestampDevice := current.timestampDevice,
              timestampEpoch := current.timestampEpoch)
  }

  /** After `&=` every non-timestamp field equals the incoming one (the axis arrays up to
      `AxelIdentifier ==`), and merging the same status again changes nothing. */
  lemma MergedSnapshotFacts(current: PeriodicSnapshot, incoming: PeriodicSnapshot)
    ensures var m := MergedSnapshot(current, incoming);
      SameAxes(m.calibratedAxes, incoming.calibratedAxes)
      && SameAxes(m.realTimeSupportedAxes, incoming.realTimeSupportedAxes)
      && SameAxes(m.supportedAxes, incoming.supportedAxes)
      && m.SupportedNames() == incoming.SupportedNames()
      && m.deviceInfo == incoming.deviceInfo && m.deviceInfoReady == incoming.deviceInfoReady
      && m.keyposeLoopActive == incoming.keyposeLoopActive
      && m.keyposeMotionAimIndex == incoming.keyposeMotionAimIndex
      && m.keyposeMotionStartIndex == incoming.keyposeMotionStartIndex
      && m.keyposeSlotsFilled == incoming.keyposeSlotsFilled
      && m.plannedMotionProgress == incoming.plannedMotionProgress
      && m.plannedMotionDuration == incoming.plannedMotionDuration
      && m.readings == incoming.readings && m.state == incoming.state
      && m.timestampDevice == current.timestampDevice && m.timestampEpoch == current.timestampEpoch
    ensures MergedSnapshot(MergedSnapshot(current, incoming), incoming) == MergedSnapshot(current, incoming)
  {
    var m := MergedSnapshot(current, incoming);
    assert m.SupportedNames() == incoming.SupportedNames() by {
      assert SameAxes(m.supportedAxes, incoming.supportedAxes);
      forall n | n in incoming.SupportedNames() ensures n in m.SupportedNames() {
        var i :| 0 <= i < |incoming.supportedAxes| && incoming.supportedAxes[i].axelName == n;
        assert m.supportedAxes[i].axelName == n;
      }
    }
  }

  /** After `&=` the accessors read what they read from the incoming status: the position,
      the calibration state and the battery level of every axis. The device may differ: a
      kept array can carry a stale device, and `deviceFor` then reads the old one. */
  lemma AccessorsAfterMerge(current: PeriodicSnapshot, incoming: PeriodicSnapshot, name: AxelID)
    ensures var m := MergedSnapshot(current, incoming);
      m.PositionFor(name) == incoming.PositionFor(name)
      && m.CalibrationStateFor(name) == incoming.CalibrationStateFor(name)
      && (incoming.BatteryReadable(name) ==>
            m.BatteryReadable(name) && m.BatteryLevelFor(name) == incoming.BatteryLevelFor(name))
      && (m.DeviceFor(name) == incoming.DeviceFor(name) || m.DeviceFor(name) == current.DeviceFor(name))
  {
    var m := MergedSnapshot(current, incoming);
    FirstIndexOfSameAxes(m.calibratedAxes, incoming.calibratedAxes, name);
    FirstIndexOfSameAxes(m.supportedAxes, incoming.supportedAxes, name);
  }

  /** The periodic status of a bundle, as decoded from the status endpoint. */
  class PeriodicStatus {
    var calibratedAxes: seq<AxelIdentifier>
    var deviceInfo: seq<BundledDeviceInfo>
    var deviceInfoReady: bool
    var keyposeLoopActive: bool
    var keyposeMotionAimIndex: int
    var keyposeMotionStartIndex: int
    var keyposeSlotsFilled: seq<bool>
    var plannedMotionProgress: Double
    var plannedMotionDuration: Double
    var readings: map<AxelID, Double>
    var realTimeSupportedAxes: seq<AxelIdentifier>
    var state: MotionState
    var supportedAxes: seq<AxelIdentifier>
    var timestampDevice: int
    var timestampEpoch: int

    function Snapshot(): PeriodicSnapshot
      reads this
    {
      PeriodicSnapshot(calibratedAxes, deviceInfo, deviceInfoReady, keyposeLoopActive, keyposeMotionAimIndex,
                       keyposeMotionStartIndex, keyposeSlotsFilled, plannedMotionProgress, plannedMotionDuration,
                       readings, realTimeSupportedAxes, state, supportedAxes, timestampDevice, timestampEpoch)
    }

    /** A status holding the given fields (what the decoder produces). */
    constructor (s: PeriodicSnapshot)
      ensures Snapshot() == s
    {
      calibratedAxes, deviceInfo, deviceInfoReady := s.calibratedAxes, s.deviceInfo, s.deviceInfoReady;
      keyposeLoopActive, keyposeMotionAimIndex := s.keyposeLoopActive, s.keyposeMotionAimIndex;
      keyposeMotionStartIndex, keyposeSlotsFilled := s.keyposeMotionStartIndex, s.keyposeSlotsFilled;
      plannedMotionProgress, plannedMotionDuration := s.plannedMotionProgress, s.plannedMotionDuration;
      readings, realTimeSupportedAxes, state := s.readings, s.realTimeSupportedAxes, s.state;
      supportedAxes, timestampDevice, timestampEpoch := s.supportedAxes, s.timestampDevice, s.timestampEpoch;
    }

    /** The parameterless initialiser: the property defaults, merged with the embedded sample. */
    constructor Default()
      ensures Snapshot() == DefaultSnapshot
    {
      calibratedAxes, deviceInfo, deviceInfoReady := [], [], false;
      keyposeLoopActive, keyposeMotionAimIndex, keyposeMotionStartIndex := false, -1, -1;
      keyposeSlotsFilled, plannedMotionProgress, plannedMotionDuration := [], ZeroDouble, ZeroDouble;
      readings, realTimeSupportedAxes, state, supportedAxes := map[], [], Idle, [];
      timestampDevice, timestampEpoch := 0, 0;
      new;
      var sample := new PeriodicStatus(FixtureSnapshot);
      MergeFrom(sample);
      assert MergedAxes([], FixtureSnapshot.supportedAxes) == FixtureSnapshot.supportedAxes;
      assert MergedAxes([], FixtureSnapshot.calibratedAxes) == FixtureSnapshot.calibratedAxes;
    }

    /** `&=`: every field but the two timestamps takes the incoming value; a field is only
        written when it differs, and the axis arrays are compared by axis name only. */
    method MergeFrom(rhs: PeriodicStatus)
      modifies this
      ensures Snapshot() == MergedSnapshot(old(Snapshot()), old(rhs.Snapshot()))
    {
      var incoming := rhs.Snapshot();
      MergeAxisLists(incoming.calibratedAxes, incoming.realTimeSupportedAxes, incoming.supportedAxes);
      MergeDeviceInfo(incoming.deviceInfo, incoming.deviceInfoReady, incoming.keyposeSlotsFilled);
      MergeMotion(incoming.keyposeLoopActive, incoming.keyposeMotionAimIndex, incoming.keyposeMotionStartIndex,
                  incoming.plannedMotionProgress, incoming.plannedMotionDuration);
      MergeReadings(incoming.readings, incoming.state);
    }

    // Each field is written only when it differs; writing an equal value is the same as not
    // writing it, so the helpers below assign every field its gated value.

    method MergeAxisLists(calibrated: seq<AxelIdentifier>, realTime: seq<AxelIdentifier>,
                          supported: seq<AxelIdentifier>)
      modifies this`calibratedAxes, this`realTimeSupportedAxes, this`supportedAxes
      ensures calibratedAxes == MergedAxes(old(calibratedAxes), calibrated)
      ensures realTimeSupportedAxes == MergedAxes(old(realTimeSupportedAxes), realTime)
      ensures supportedAxes == MergedAxes(old(supportedAxes), supported)
    {
      calibratedAxes := MergedAxes(calibratedAxes, calibrated);
      realTimeSupportedAxes := MergedAxes(realTimeSupportedAxes, realTime);
      supportedAxes := MergedAxes(supportedAxes, supported);
    }

    method MergeDeviceInfo(info: seq<BundledDeviceInfo>, ready: bool, slots: seq<bool>)
      modifies this`deviceInfo, this`deviceInfoReady, this`keyposeSlotsFilled
      ensures deviceInfo == info && deviceInfoReady == ready && keyposeSlotsFilled == slots
    {
      deviceInfo := Gated(deviceInfo, info);
      deviceInfoReady := Gated(deviceInfoReady, ready);
      keyposeSlotsFilled := Gated(keyposeSlotsFilled, slots);
    }

    method MergeMotion(loop: bool, aim: int, start: int, progress: Double, duration: Double)
      modifies this`keyposeLoopActive, this`keyposeMotionAimIndex, this`keyposeMotionStartIndex
      modifies this`plannedMotionProgress, this`plannedMotionDuration
      ensures keyposeLoopActive == loop && keyposeMotionAimIndex == aim && keyposeMotionStartIndex == start
      ensures plannedMotionProgress == progress && plannedMotionDuration == duration
    {
      keyposeLoopActive := Gated(keyposeLoopActive, loop);
      keyposeMotionAimIndex := Gated(keyposeMotionAimIndex, aim);
      keyposeMotionStartIndex := Gated(keyposeMotionStartIndex, start);
      plannedMotionProgress := Gated(plannedMotionProgress, progress);
      plannedMotionDuration := Gated(plannedMotionDuration, duration);
    }

    method MergeReadings(values: map<AxelID, Double>, motion: MotionState)
      modifies this`readings, this`state
      ensures readings == values && state == motion
    {
      readings := Gated(readings, values);
      state := Gated(state, motion);
    }
  }
}
