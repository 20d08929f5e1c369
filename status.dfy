// The live motion control status: one `AxelStatus` object per supported axis, refreshed in
// place from each periodic status, plus the keypose and motion fields.

module Status {
  import opened Base
  import opened Periodic
  import opened Degrees

  /** The observable fields of one axis status. */
  datatype AxelView = AxelView(
    device: EdelkroneDevice, calibrated: bool, position: Double, batteryLevel: Double,
    shouldMove: bool, isLastMove: bool, moveValue: Double)

  /** The observable state of a motion control status. */
  datatype StatusView = StatusView(
    axes: map<AxelID, AxelView>, keyposeLoopActive: bool, keyposeTargetIndex: int,
    keyposeStartIndex: int, keyposeMotionProgress: Double, keyposeMotionDuration: Double,
    state: MotionState, filledKeypose: seq<bool>)

  /** The view of an axis after `update(from:)`: the four readings of the axis are re-read,
      the joystick fields are kept. */
  function RefreshedAxel(a: AxelView, p: PeriodicSnapshot, name: AxelID): AxelView
    requires p.BatteryReadable(name)
  {
    a.(device := p.DeviceFor(name), calibrated := p.CalibrationStateFor(name),
       position := p.PositionFor(name), batteryLevel := p.BatteryLevelFor(name))
  }

  /** The view of an axis created by `init(from:forName:)`: the readings of the axis, with the
      joystick fields at rest (not moving, last move, value 0). */
  function FreshAxel(p: PeriodicSnapshot, name: AxelID): AxelView
    requires p.BatteryReadable(name)
  {
    AxelView(p.DeviceFor(name), p.CalibrationStateFor(name), p.PositionFor(name), p.BatteryLevelFor(name),
             false, true, ZeroDouble)
  }

  /** Refreshing an axis from the status it was created from changes nothing, and a refresh
      only depends on the joystick fields of the axis it refreshes. */
  lemma RefreshAfterCreate(p: PeriodicSnapshot, name: AxelID, a: AxelView, b: AxelView)
    requires p.BatteryReadable(name)
    ensures RefreshedAxel(FreshAxel(p, name), p, name) == FreshAxel(p, name)
    ensures RefreshedAxel(RefreshedAxel(a, p, name), p, name) == RefreshedAxel(a, p, name)
    ensures RefreshedAxel(a, p, name) == RefreshedAxel(b, p, name)
            <==> a.shouldMove == b.shouldMove && a.isLastMove == b.isLastMove && a.moveValue == b.moveValue
  {
    var ra, rb := RefreshedAxel(a, p, name), RefreshedAxel(b, p, name);
    if ra == rb {
      assert ra.shouldMove == rb.shouldMove && ra.isLastMove == rb.isLastMove && ra.moveValue == rb.moveValue;
    }
  }

  /** The axis map a ready merge leaves: exactly the supported names, each refreshed if it
      was present and created otherwise. */
  function ReconciledAxes(axes: map<AxelID, AxelView>, p: PeriodicSnapshot): (r: map<AxelID, AxelView>)
    requires p.BatteryLevelsReadable()
    ensures r.Keys == p.SupportedNames()
  {
    map k | k in p.SupportedNames() ::
      if k in axes then RefreshedAxel(axes[k], p, k) else FreshAxel(p, k)
  }

  /** The axis map after one step of the first axis loop of `&=`: the named entry is
      refreshed if present and created otherwise. */
  function UpsertedOne(axes: map<AxelID, AxelView>, p: PeriodicSnapshot, name: AxelID): map<AxelID, AxelView>
    requires p.BatteryReadable(name)
  {
    axes[name := if name in axes then RefreshedAxel(axes[name], p, name) else FreshAxel(p, name)]
  }

  /** The axis map after the first `n` supported axes have been visited. */
  function UpsertedPrefix(axes: map<AxelID, AxelView>, p: PeriodicSnapshot, n: nat): map<AxelID, AxelView>
    requires p.BatteryLevelsReadable() && n <= |p.supportedAxes|
  {
    if n == 0 then axes
    else
      SupportedNameAt(p, n - 1);
      UpsertedOne(UpsertedPrefix(axes, p, n - 1), p, p.supportedAxes[n - 1].axelName)
  }

  /** What visiting the names `names` leaves of the axis map `axes`: every visited name is
      present, holding a refreshed old entry or a new one, and every entry not visited is
      unchanged. */
  ghost predicate UpsertedFacts(axes: map<AxelID, AxelView>, p: PeriodicSnapshot, names: seq<AxelID>, r: map<AxelID, AxelView>)
  {
    (forall k :: k in r <==> k in axes || k in names)
    && (forall k :: k in axes && k in names ==> p.BatteryReadable(k) && r[k] == RefreshedAxel(axes[k], p, k))
    && (forall k :: k in axes && k !in names ==> r[k] == axes[k])
    && (forall k :: k in r && k !in axes ==> p.BatteryReadable(k) && r[k] == FreshAxel(p, k))
  }

  /** One more visit keeps those facts; a name visited twice is refreshed only once in
      effect, because refreshing twice from the same status is refreshing once. */
  lemma UpsertedStep(axes: map<AxelID, AxelView>, p: PeriodicSnapshot, names: seq<AxelID>, name: AxelID,
                     before: map<AxelID, AxelView>)
    requires p.BatteryReadable(name) && UpsertedFacts(axes, p, names, before)
    ensures UpsertedFacts(axes, p, names + [name], UpsertedOne(before, p, name))
  {
    var after := UpsertedOne(before, p, name);
    if name in axes {
      RefreshAfterCreate(p, name, axes[name], axes[name]);
    } else if name in before {
      RefreshAfterCreate(p, name, before[name], before[name]);
    }
    forall k ensures k in after <==> k in axes || k in names + [name] {
      assert k in names + [name] <==> k in names || k == name;
    }
    forall k | k in axes && k in names + [name]
      ensures p.BatteryReadable(k) && after[k] == RefreshedAxel(axes[k], p, k)
    {
      assert k in names || k == name;
    }
    forall k | k in axes && k !in names + [name]
      ensures after[k] == axes[k]
    {
      assert k !in names && k != name;
    }
    forall k | k in after && k !in axes
      ensures p.BatteryReadable(k) && after[k] == FreshAxel(p, k)
    {
    }
  }

  /** After `n` steps the visited names are those of the first `n` supported axes. */
  lemma {:induction false} UpsertedPrefixFacts(axes: map<AxelID, AxelView>, p: PeriodicSnapshot, n: nat)
    requires p.BatteryLevelsReadable() && n <= |p.supportedAxes|
    ensures UpsertedFacts(axes, p, AxisNames(p.supportedAxes[..n]), UpsertedPrefix(axes, p, n))
  {
    if n > 0 {
      UpsertedPrefixFacts(axes, p, n - 1);
      SupportedNameAt(p, n - 1);
      AxisNamesExtend(p.supportedAxes, n - 1);
      UpsertedStep(axes, p, AxisNames(p.supportedAxes[..n - 1]), p.supportedAxes[n - 1].axelName,
                   UpsertedPrefix(axes, p, n - 1));
    }
  }

  /** The declarative axis map of a ready merge is what the two loops of `&=` compute: visit
      every supported axis, then keep only the supported names. */
  lemma ReconciledIsUpsertThenDrop(axes: map<AxelID, AxelView>, p: PeriodicSnapshot)
    requires p.BatteryLevelsReadable()
    ensures var u := UpsertedPrefix(axes, p, |p.supportedAxes|);
      ReconciledAxes(axes, p) == map k | k in u && k in AxisNames(p.supportedAxes) :: u[k]
  {
    var u := UpsertedPrefix(axes, p, |p.supportedAxes|);
    UpsertedPrefixFacts(axes, p, |p.supportedAxes|);
    assert p.supportedAxes[..|p.supportedAxes|] == p.supportedAxes;
    AxisNamesAreSupported(p);
  }

  /** The value filed under a key is one of the map's values. */
  lemma ValueIn<K, V>(m: map<K, V>, k: K)
    ensures k in m ==> m[k] in m.Values
  {
  }

  /** Two maps with the same keys and the same value under each key are equal. */
  lemma SameEntries<K, V>(a: map<K, V>, b: map<K, V>)
    requires a.Keys == b.Keys
    requires forall k :: k in a ==> a[k] == b[k]
    ensures a == b
  {
  }

  /** The keypose slot flags after a merge: replaced only when the count changes. */
  function ResizedSlots(filled: seq<bool>, incoming: seq<bool>): (r: seq<bool>)
    ensures |r| == |incoming|
    ensures |filled| == |incoming| ==> r == filled
    ensures |filled| != |incoming| ==> r == incoming
  {
    if |filled| != |incoming| then incoming else filled
  }

  /** The state after the older merge (without the keypose slot step). */
  function LegacyMergedView(v: StatusView, p: PeriodicSnapshot): StatusView
    requires p.BatteryLevelsReadable()
  {
    if !p.deviceInfoReady then v
    else StatusView(ReconciledAxes(v.axes, p), p.keyposeLoopActive, p.keyposeMotionAimIndex,
                    p.keyposeMotionStartIndex, p.plannedMotionProgress, p.plannedMotionDuration,
                    p.state, v.filledKeypose)
  }

  /** The state after `&=`. */
  function MergedView(v: StatusView, p: PeriodicSnapshot): StatusView
    requires p.BatteryLevelsReadable()
  {
    if !p.deviceInfoReady then v
    else LegacyMergedView(v, p).(filledKeypose := ResizedSlots(v.filledKeypose, p.keyposeSlotsFilled))
  }

  /** A ready merge copies every scalar, keeps exactly the supported axes with the status's
      readings, leaves the joystick fields of surviving axes alone and puts new axes at rest;
      a status that is not ready changes nothing. */
  lemma MergedViewFacts(v: StatusView, p: PeriodicSnapshot)
    requires p.BatteryLevelsReadable()
    ensures !p.deviceInfoReady ==> MergedView(v, p) == v
    ensures p.deviceInfoReady ==> var m := MergedView(v, p);
      m.axes.Keys == p.SupportedNames()
      && m.keyposeLoopActive == p.keyposeLoopActive && m.keyposeTargetIndex == p.keyposeMotionAimIndex
      && m.keyposeStartIndex == p.keyposeMotionStartIndex && m.keyposeMotionProgress == p.plannedMotionProgress
      && m.keyposeMotionDuration == p.plannedMotionDuration && m.state == p.state
      && |m.filledKeypose| == |p.keyposeSlotsFilled|
      && (forall k :: k in m.axes ==>
            m.axes[k].device == p.DeviceFor(k) && m.axes[k].calibrated == p.CalibrationStateFor(k)
            && m.axes[k].position == p.PositionFor(k) && m.axes[k].batteryLevel == p.BatteryLevelFor(k))
      && (forall k :: k in m.axes && k in v.axes ==>
            m.axes[k].shouldMove == v.axes[k].shouldMove && m.axes[k].isLastMove == v.axes[k].isLastMove
            && m.axes[k].moveValue == v.axes[k].moveValue)
      && (forall k :: k in m.axes && k !in v.axes ==>
            !m.axes[k].shouldMove && m.axes[k].isLastMove && m.axes[k].moveValue == ZeroDouble)
  {
  }

  /** Merging the same status twice gives the same state as merging it once. */
  lemma {:induction false} MergeIdempotent(v: StatusView, p: PeriodicSnapshot)
    requires p.BatteryLevelsReadable()
    ensures MergedView(MergedView(v, p), p) == MergedView(v, p)
  {
    if p.deviceInfoReady {
      var once := MergedView(v, p);
      var twice := MergedView(once, p);
      assert twice.axes == once.axes by {
        forall k | k in p.SupportedNames()
          ensures twice.axes[k] == once.axes[k]
        {
          assert k in once.axes;
          RefreshAfterCreate(p, k, if k in v.axes then v.axes[k] else FreshAxel(p, k), once.axes[k]);
        }
      }
    }
  }

  /** The older merge agrees with `&=` on everything but the keypose slots, which it never touches. */
  lemma LegacyMergeDiffersOnlyInSlots(v: StatusView, p: PeriodicSnapshot)
    requires p.BatteryLevelsReadable()
    ensures LegacyMergedView(v, p).filledKeypose == v.filledKeypose
    ensures MergedView(v, p) == LegacyMergedView(v, p).(filledKeypose := MergedView(v, p).filledKeypose)
  {
  }

  /** The status of one axis. Its identity (`==`, hash, `id`) is the axis name. */
  class AxelStatus {
    const axelName: AxelID
    var device: EdelkroneDevice
    var calibrated: bool
    var position: Double
    var batteryLevel: Double
    var shouldMove: bool
    var isLastMove: bool
    var moveValue: Double

    function View(): AxelView
      reads this
    {
      AxelView(device, calibrated, position, batteryLevel, shouldMove, isLastMove, moveValue)
    }

    /** `init(from:forName:)`: the four readings of the named axis; joystick fields at rest. */
    constructor (from: PeriodicSnapshot, forName: AxelID)
      requires from.BatteryReadable(forName)
      ensures axelName == forName
      ensures View() == FreshAxel(from, forName)
    {
      axelName := forName;
      device := from.DeviceFor(forName);
      position := from.PositionFor(forName);
      calibrated := from.CalibrationStateFor(forName);
      batteryLevel := from.BatteryLevelFor(forName);
      shouldMove := false;
      isLastMove := true;
      moveValue := ZeroDouble;
    }

    /** `update(from:)`: re-reads the four readings; the joystick fields are untouched. */
    method Update(from: PeriodicSnapshot)
      requires from.BatteryReadable(axelName)
      modifies this`device, this`calibrated, this`position, this`batteryLevel
      ensures View() == RefreshedAxel(old(View()), from, axelName)
    {
      device := from.DeviceFor(axelName);
      position := from.PositionFor(axelName);
      calibrated := from.CalibrationStateFor(axelName);
      batteryLevel := from.BatteryLevelFor(axelName);
    }

    /** `needsCalibration`. */
    predicate NeedsCalibration()
      reads this
    {
      Base.NeedsCalibration(calibrated, device)
    }
  }

  /** `AxelStatus ==`: the same axis name. */
  predicate SameAxelStatus(a: AxelStatus, b: AxelStatus) {
    a.axelName == b.axelName
  }

  /** The value `hash(into:)` feeds to the hasher: the axis name. */
  function AxelStatusHashInput(a: AxelStatus): AxelID {
    a.axelName
  }

  /** The live status shown by the interface. */
  class MotionControlStatus {
    var axelStatus: map<AxelID, AxelStatus>
    var keyposeLoopActive: bool
    var keyposeTargetIndex: int
    var keyposeStartIndex: int
    var keyposeMotionProgress: Double
    var keyposeMotionDuration: Double
    var state: MotionState
    var filledKeypose: seq<bool>

    /** Each entry is filed under its own axis name (so distinct keys hold distinct objects). */
    ghost predicate Valid()
      reads this`axelStatus
    {
      forall k :: k in axelStatus ==> axelStatus[k].axelName == k
    }

    ghost function AxesView(): map<AxelID, AxelView>
      reads this`axelStatus, axelStatus.Values
    {
      map k | k in axelStatus :: axelStatus[k].View()
    }

    ghost function View(): StatusView
      reads this, axelStatus.Values
    {
      StatusView(AxesView(), keyposeLoopActive, keyposeTargetIndex, keyposeStartIndex,
                 keyposeMotionProgress, keyposeMotionDuration, state, filledKeypose)
    }

    /** `init()`: the property defaults merged with the sample periodic status. */
    constructor ()
      ensures Valid()
      ensures View() == MergedView(StatusView(map[], false, 0, -1, OneDouble, ZeroDouble, Idle, []), DefaultSnapshot)
      ensures axelStatus.Keys == {HeadPan, HeadTilt, Slide}
      ensures filledKeypose == [false, false, false, false, false, false]
    {
      axelStatus := map[];
      keyposeLoopActive := false;
      keyposeTargetIndex := 0;
      keyposeStartIndex := -1;
      keyposeMotionProgress := OneDouble;
      keyposeMotionDuration := ZeroDouble;
      state := Idle;
      filledKeypose := [];
      new;
      DefaultSnapshotFacts();
      Merge(DefaultSnapshot);
    }

    /** `&=`: a status that is not ready is ignored; otherwise the scalars are copied, the axis
        map is reconciled against the supported axes and the keypose slots are re-sized. */
    method Merge(rhs: PeriodicSnapshot)
      requires Valid() && rhs.BatteryLevelsReadable()
      modifies this, axelStatus.Values
      ensures Valid()
      ensures View() == MergedView(old(View()), rhs)
      ensures forall k :: k in axelStatus && k in old(axelStatus) ==> axelStatus[k] == old(axelStatus[k])
      ensures forall k :: k in axelStatus && k !in old(axelStatus) ==> fresh(axelStatus[k])
    {
      if !rhs.deviceInfoReady {
        return;
      }
      ghost var v0 := View();
      MergeScalars(rhs);
      ReconcileAxes(rhs);
      ResizeSlots(rhs.keyposeSlotsFilled);
      assert View() == MergedView(v0, rhs);
    }

    /** The `&=` of the older status type: the same steps without the keypose slots. */
    method MergeLegacy(rhs: PeriodicSnapshot)
      requires Valid() && rhs.BatteryLevelsReadable()
      modifies this, axelStatus.Values
      ensures Valid()
      ensures View() == LegacyMergedView(old(View()), rhs)
      ensures forall k :: k in axelStatus && k in old(axelStatus) ==> axelStatus[k] == old(axelStatus[k])
      ensures forall k :: k in axelStatus && k !in old(axelStatus) ==> fresh(axelStatus[k])
    {
      if !rhs.deviceInfoReady {
        return;
      }
      ghost var v0 := View();
      MergeScalars(rhs);
      ghost var a1 := AxesView();
      assert a1 == v0.axes;
      ReconcileAxes(rhs);
      ghost var a2 := AxesView();
      assert a2 == ReconciledAxes(v0.axes, rhs);
      assert View() == StatusView(a2, keyposeLoopActive, keyposeTargetIndex, keyposeStartIndex,
                                  keyposeMotionProgress, keyposeMotionDuration, state, filledKeypose);
    }

    /** The change-gated scalar copies of `&=`. */
    method MergeScalars(rhs: PeriodicSnapshot)
      modifies this`keyposeLoopActive, this`keyposeTargetIndex, this`keyposeStartIndex
      modifies this`keyposeMotionProgress, this`keyposeMotionDuration, this`state
      ensures keyposeLoopActive == rhs.keyposeLoopActive && keyposeTargetIndex == rhs.keyposeMotionAimIndex
      ensures keyposeStartIndex == rhs.keyposeMotionStartIndex
      ensures keyposeMotionProgress == rhs.plannedMotionProgress
      ensures keyposeMotionDuration == rhs.plannedMotionDuration && state == rhs.state
    {
      keyposeLoopActive := Gated(keyposeLoopActive, rhs.keyposeLoopActive);
      keyposeTargetIndex := Gated(keyposeTargetIndex, rhs.keyposeMotionAimIndex);
      keyposeStartIndex := Gated(keyposeStartIndex, rhs.keyposeMotionStartIndex);
      keyposeMotionProgress := Gated(keyposeMotionProgress, rhs.plannedMotionProgress);
      keyposeMotionDuration := Gated(keyposeMotionDuration, rhs.plannedMotionDuration);
      state := Gated(state, rhs.state);
    }

    /** The keypose step of `&=`: when the slot count differs, a new array of that length is
        filled element by element from the incoming flags. */
    method ResizeSlots(incoming: seq<bool>)
      modifies this`filledKeypose
      ensures filledKeypose == ResizedSlots(old(filledKeypose), incoming)
    {
      if |filledKeypose| != |incoming| {
        filledKeypose := seq(|incoming|, _ => false);
        var idx := 0;
        while idx < |incoming|
          invariant 0 <= idx <= |incoming| && |filledKeypose| == |incoming|
          invariant forall i :: 0 <= i < idx ==> filledKeypose[i] == incoming[i]
        {
          filledKeypose := filledKeypose[idx := incoming[idx]];
          idx := idx + 1;
        }
      }
    }

    /** The axis map holds exactly the keys of `current`, each object showing its view. */
    ghost predicate Mirrors(current: map<AxelID, AxelView>)
      reads this`axelStatus, axelStatus.Values
    {
      axelStatus.Keys == current.Keys && forall k :: k in axelStatus ==> axelStatus[k].View() == current[k]
    }

    /** Refreshes the entry of one supported axis, or creates it. */
    method UpsertAxis(rhs: PeriodicSnapshot, name: AxelID, ghost current: map<AxelID, AxelView>)
      requires Valid() && rhs.BatteryReadable(name)
      requires Mirrors(current)
      modifies this`axelStatus, if name in axelStatus then {axelStatus[name]} else {}
      ensures Valid()
      ensures Mirrors(UpsertedOne(current, rhs, name))
      ensures forall k :: k in old(axelStatus) ==> k in axelStatus && axelStatus[k] == old(axelStatus[k])
      ensures name !in old(axelStatus) ==> fresh(axelStatus[name])
    {
      if name in axelStatus {
        RefreshAxis(rhs, name);
      } else {
        CreateAxis(rhs, name);
      }
    }

    method RefreshAxis(rhs: PeriodicSnapshot, name: AxelID)
      requires Valid() && rhs.BatteryReadable(name) && name in axelStatus
      modifies axelStatus[name]
      ensures axelStatus[name].View() == RefreshedAxel(old(axelStatus[name].View()), rhs, name)
    {
      axelStatus[name].Update(rhs);
    }

    method CreateAxis(rhs: PeriodicSnapshot, name: AxelID)
      requires Valid() && rhs.BatteryReadable(name) && name !in axelStatus
      modifies this`axelStatus
      ensures name in axelStatus && axelStatus == old(axelStatus)[name := axelStatus[name]]
      ensures Valid() && fresh(axelStatus[name]) && axelStatus[name].View() == FreshAxel(rhs, name)
    {
      var q := new AxelStatus(rhs, name);
      axelStatus := axelStatus[name := q];
    }

    /** The first axis loop of `&=`: every supported axis in order is refreshed or created;
        the names visited are returned. */
    method UpsertSupported(rhs: PeriodicSnapshot) returns (supportedNames: seq<AxelID>)
      requires Valid() && rhs.BatteryLevelsReadable()
      modifies this`axelStatus, axelStatus.Values
      ensures Valid()
      ensures supportedNames == AxisNames(rhs.supportedAxes)
      ensures axelStatus.Keys == UpsertedPrefix(old(AxesView()), rhs, |rhs.supportedAxes|).Keys
      ensures forall k :: k in axelStatus ==>
                axelStatus[k].View() == UpsertedPrefix(old(AxesView()), rhs, |rhs.supportedAxes|)[k]
      ensures forall k :: k in old(axelStatus) ==> k in axelStatus && axelStatus[k] == old(axelStatus[k])
      ensures forall k :: k in axelStatus && k !in old(axelStatus) ==> fresh(axelStatus[k])
    {
      ghost var m0 := axelStatus;
      ghost var v0 := AxesView();
      supportedNames := [];
      for index := 0 to |rhs.supportedAxes|
        invariant Valid()
        invariant supportedNames == AxisNames(rhs.supportedAxes[..index])
        invariant Mirrors(UpsertedPrefix(v0, rhs, index))
        invariant forall k :: k in m0 ==> k in axelStatus && axelStatus[k] == m0[k]
        invariant forall k :: k in axelStatus && k !in m0 ==> fresh(axelStatus[k])
      {
        var name := rhs.supportedAxes[index].axelName;
        SupportedNameAt(rhs, index);
        ValueIn(m0, name);
        assert UpsertedPrefix(v0, rhs, index + 1) == UpsertedOne(UpsertedPrefix(v0, rhs, index), rhs, name);
        UpsertAxis(rhs, name, UpsertedPrefix(v0, rhs, index));
        AxisNamesExtend(rhs.supportedAxes, index);
        supportedNames := supportedNames + [name];
      }
      assert rhs.supportedAxes[..|rhs.supportedAxes|] == rhs.supportedAxes;
    }

    /** The second axis loop of `&=`: every key that is not a supported name is removed. */
    method DropUnsupported(supportedNames: seq<AxelID>)
      modifies this`axelStatus
      ensures axelStatus == map k | k in old(axelStatus) && k in supportedNames :: old(axelStatus)[k]
    {
      var keys := axelStatus.Keys;
      ghost var start := axelStatus;
      while keys != {}
        invariant keys <= start.Keys
        invariant axelStatus == map k | k in start && (k in keys || k in supportedNames) :: start[k]
        decreases keys
      {
        var key :| key in keys;
        if key !in supportedNames {
          axelStatus := axelStatus - {key};
        }
        keys := keys - {key};
      }
    }

    /** The axis steps of `&=`. */
    method ReconcileAxes(rhs: PeriodicSnapshot)
      requires Valid() && rhs.BatteryLevelsReadable()
      modifies this`axelStatus, axelStatus.Values
      ensures Valid()
      ensures AxesView() == ReconciledAxes(old(AxesView()), rhs)
      ensures forall k :: k in axelStatus && k in old(axelStatus) ==> axelStatus[k] == old(axelStatus[k])
      ensures forall k :: k in axelStatus && k !in old(axelStatus) ==> fresh(axelStatus[k])
    {
      ghost var v0 := AxesView();
      var supportedNames := UpsertSupported(rhs);
      ghost var u := UpsertedPrefix(v0, rhs, |rhs.supportedAxes|);
      ghost var m1 := axelStatus;
      DropUnsupported(supportedNames);
      ReconciledIsUpsertThenDrop(v0, rhs);
      ghost var r := ReconciledAxes(v0, rhs);
      ghost var w := AxesView();
      assert w.Keys == r.Keys by {
        assert forall k :: k in w <==> k in m1 && k in supportedNames;
        assert forall k :: k in r <==> k in u && k in supportedNames;
      }
      forall k | k in w
        ensures w[k] == r[k]
      {
        assert axelStatus[k] == m1[k];
      }
      SameEntries(w, r);
    }

    predicate HasPan()
      reads this
    {
      HeadPan in axelStatus || JibPlusPan in axelStatus
    }

    predicate HasTilt()
      reads this
    {
      HeadTilt in axelStatus || JibPlusTilt in axelStatus
    }

    predicate HasSlide()
      reads this
    {
      Slide in axelStatus
    }

    predicate HasFocus()
      reads this
    {
      Focus in axelStatus
    }

    /** Equal axis statuses hash alike, and in a status whose entries are filed under their
        own names two entries are equal exactly when they are filed under the same key. */
    lemma FiledIdentity(j: AxelID, k: AxelID)
      requires Valid() && j in axelStatus && k in axelStatus
      ensures SameAxelStatus(axelStatus[j], axelStatus[k]) ==>
                AxelStatusHashInput(axelStatus[j]) == AxelStatusHashInput(axelStatus[k])
      ensures SameAxelStatus(axelStatus[j], axelStatus[k]) <==> j == k
    {
    }

    /** After a ready merge the axis queries answer from the supported axes of the merged
        status: `hasPan` when a head or jib pan is supported, `hasTilt` likewise, `hasSlide`
        and `hasFocus` when that axis is. */
    lemma AxisQueriesAfterMerge(v: StatusView, p: PeriodicSnapshot)
      requires p.BatteryLevelsReadable() && p.deviceInfoReady && View() == MergedView(v, p)
      ensures HasPan() <==> HeadPan in p.SupportedNames() || JibPlusPan in p.SupportedNames()
      ensures HasTilt() <==> HeadTilt in p.SupportedNames() || JibPlusTilt in p.SupportedNames()
      ensures HasSlide() <==> Slide in p.SupportedNames()
      ensures HasFocus() <==> Focus in p.SupportedNames()
    {
      MergedViewFacts(v, p);
      assert axelStatus.Keys == AxesView().Keys;
    }

    /** After a ready merge an axis needs calibration exactly when the merged status does not
        list it as calibrated and the device it reports for the axis can be calibrated. */
    lemma NeedsCalibrationAfterMerge(v: StatusView, p: PeriodicSnapshot, k: AxelID)
      requires p.BatteryLevelsReadable() && p.deviceInfoReady && View() == MergedView(v, p)
      requires k in axelStatus
      ensures axelStatus[k].NeedsCalibration() <==> !p.CalibrationStateFor(k) && CanCalibrate(p.DeviceFor(k))
    {
      MergedViewFacts(v, p);
      assert axelStatus[k].View() == AxesView()[k];
    }

    /** `panTiltObjects()`: the head pan under horizontal and the head tilt under vertical.
        A jib axis makes `hasPan`/`hasTilt` true, but its lookup of the head axis finds
        nothing, and storing nothing leaves the entry out. */
    function PanTiltObjects(): (r: map<DegreeOfFreedom, AxelStatus>)
      reads this
      ensures r.Keys <= {Horizontal, Vertical}
      ensures Horizontal in r <==> HeadPan in axelStatus
      ensures Vertical in r <==> HeadTilt in axelStatus
      ensures Horizontal in r ==> r[Horizontal] == axelStatus[HeadPan]
      ensures Vertical in r ==> r[Vertical] == axelStatus[HeadTilt]
    {
      var pan := if HasPan() && HeadPan in axelStatus then map[Horizontal := axelStatus[HeadPan]] else map[];
      if HasTilt() && HeadTilt in axelStatus then pan[Vertical := axelStatus[HeadTilt]] else pan
    }

    /** `slideObjects()`: the slide under horizontal, if there is one. */
    function SlideObjects(): (r: map<DegreeOfFreedom, AxelStatus>)
      reads this
      ensures r.Keys <= {Horizontal}
      ensures Horizontal in r <==> HasSlide()
      ensures Horizontal in r ==> r[Horizontal] == axelStatus[Slide]
    {
      if HasSlide() then map[Horizontal := axelStatus[Slide]] else map[]
    }

    /** With only jib axes, the status reports pan and tilt but offers no pan-tilt objects. */
    lemma JibOnlyHasNoPanTiltObjects()
      requires JibPlusPan in axelStatus && HeadPan !in axelStatus
      requires JibPlusTilt in axelStatus && HeadTilt !in axelStatus
      ensures HasPan() && HasTilt() && PanTiltObjects() == map[]
    {
    }

    /** `joystickControlled()`: the axis objects whose `shouldMove` is set, each once, in the
        (unspecified) order of the dictionary walk. */
    method JoystickControlled() returns (result: seq<AxelStatus>)
      requires Valid()
      ensures forall i :: 0 <= i < |result| ==>
                result[i].shouldMove && result[i].axelName in axelStatus && axelStatus[result[i].axelName] == result[i]
      ensures forall k :: k in axelStatus && axelStatus[k].shouldMove ==>
                exists i :: 0 <= i < |result| && result[i].axelName == k
      ensures forall i, j :: 0 <= i < j < |result| ==> result[i].axelName != result[j].axelName
    {
      result := [];
      var pending := axelStatus.Keys;
      while pending != {}
        invariant pending <= axelStatus.Keys
        invariant forall i :: 0 <= i < |result| ==>
                    result[i].shouldMove && result[i].axelName in axelStatus - pending
                    && axelStatus[result[i].axelName] == result[i]
        invariant forall k :: k in axelStatus - pending && axelStatus[k].shouldMove ==>
                    exists i :: 0 <= i < |result| && result[i].axelName == k
        invariant forall i, j :: 0 <= i < j < |result| ==> result[i].axelName != result[j].axelName
        decreases pending
      {
        var key :| key in pending;
        var value := axelStatus[key];
        if value.shouldMove {
          ghost var prev := result;
          result := result + [value];
          assert result[|prev|].axelName == key;
          assert forall i :: 0 <= i < |prev| ==> result[i] == prev[i];
        }
        pending := pending - {key};
      }
    }
  }
}
