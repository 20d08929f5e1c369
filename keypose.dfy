// Keypose snapshots: the axis positions of a motion control status, captured slot by slot.

module Keypose {
  import opened Base
  import opened Status

  /** One axis of a keypose. Equality looks at the name and the device, hashing at the name. */
  class KeyposeAxel {
    var axelName: AxelID
    var axelPosition: Double
    var device: EdelkroneDevice
    var calibrated: bool

    /** `init(_:_:_:)`, whose defaults are the slide at 0.0 on a slider one; never calibrated. */
    constructor (name: AxelID, position: Double, device: EdelkroneDevice)
      ensures axelName == name && axelPosition == position && this.device == device && !calibrated
    {
      axelName := name;
      axelPosition := position;
      this.device := device;
      calibrated := false;
    }

    /** `init(_ status:)`: the name, position, device and calibration of the axis status. */
    constructor FromStatus(status: AxelStatus)
      ensures Captures(status)
    {
      axelName := status.axelName;
      axelPosition := status.position;
      device := status.device;
      calibrated := status.calibrated;
    }

    /** The four fields this axis takes from an axis status. */
    predicate Captures(status: AxelStatus)
      reads this, status
    {
      axelName == status.axelName && axelPosition == status.position
      && device == status.device && calibrated == status.calibrated
    }

    /** `needsCalibration`. */
    predicate NeedsCalibration()
      reads this
    {
      Base.NeedsCalibration(calibrated, device)
    }

    /** The hash input: the axis name. */
    function HashKey(): AxelID
      reads this
    {
      axelName
    }
  }

  /** `KeyposeAxel ==`: same axis name and same device. */
  predicate SameKeyposeAxel(a: KeyposeAxel, b: KeyposeAxel)
    reads a, b
  {
    a.axelName == b.axelName && a.device == b.device
  }

  /** Equal axes hash alike; an axis captured from a status needs calibration exactly when
      the status does. */
  lemma KeyposeAxelRules(a: KeyposeAxel, b: KeyposeAxel, s: AxelStatus)
    ensures SameKeyposeAxel(a, b) ==> a.HashKey() == b.HashKey()
    ensures SameKeyposeAxel(a, b) <==> SameKeyposeAxel(b, a)
    ensures a.Captures(s) ==> (a.NeedsCalibration() <==> s.NeedsCalibration())
    ensures a.NeedsCalibration() <==> !a.calibrated && CanCalibrate(a.device)
  {
  }

  /** One slot of a keypose: an index and one captured axis per axis of the status. */
  class KeyposeSlot {
    var index: int
    var axels: map<AxelID, KeyposeAxel>

    /** `init(_ idx:status:)`: captures every entry of the status's axis map under its key. */
    constructor (idx: int, status: MotionControlStatus)
      ensures index == idx
      ensures axels.Keys == status.axelStatus.Keys
      ensures forall k :: k in axels ==> fresh(axels[k]) && axels[k].Captures(status.axelStatus[k])
    {
      index := idx;
      axels := map[];
      new;
      var pending := status.axelStatus.Keys;
      while pending != {}
        invariant index == idx && pending <= status.axelStatus.Keys
        invariant axels.Keys == status.axelStatus.Keys - pending
        invariant forall k :: k in axels ==> fresh(axels[k]) && axels[k].Captures(status.axelStatus[k])
        decreases pending
      {
        var key :| key in pending;
        var axel := new KeyposeAxel.FromStatus(status.axelStatus[key]);
        axels := axels[key := axel];
        pending := pending - {key};
      }
    }
  }

  /** `KeyposeSlot ==`: the slot index alone. */
  predicate SameSlot(a: KeyposeSlot, b: KeyposeSlot)
    reads a, b
  {
    a.index == b.index
  }

  /** The value `hash(into:)` feeds to the hasher: the slot index. */
  function SlotHashInput(a: KeyposeSlot): int
    reads a
  {
    a.index
  }

  /** The slots of a keypose, by slot index. */
  class KeyposeContainer {
    var slots: map<int, KeyposeSlot>

    /** `init(_ maxSlots:)`: stores `nil` under each index below `maxSlots`, which in a
        dictionary of optionals removes the key, so no slot is left. The range `0..<maxSlots`
        traps for a negative bound. */
    constructor WithCapacity(maxSlots: int)
      requires maxSlots >= 0
      ensures slots == map[]
    {
      slots := map[];
      new;
      for k := 0 to maxSlots
        invariant slots == map[]
      {
        slots := slots - {k};
      }
    }

    /** `init(_ status:)`: one fresh slot per keypose flag of the status, filed under its index. */
    constructor FromStatus(status: MotionControlStatus)
      ensures forall i :: i in slots <==> 0 <= i < |status.filledKeypose|
      ensures forall i :: i in slots ==> fresh(slots[i]) && slots[i].index == i
      ensures forall i :: i in slots ==> slots[i].axels.Keys == status.axelStatus.Keys
      ensures forall i, k :: i in slots && k in slots[i].axels ==> slots[i].axels[k].Captures(status.axelStatus[k])
    {
      slots := map[];
      new;
      for idx := 0 to |status.filledKeypose|
        invariant forall i :: i in slots <==> 0 <= i < idx
        invariant forall i :: i in slots ==> fresh(slots[i]) && slots[i].index == i
        invariant forall i :: i in slots ==> slots[i].axels.Keys == status.axelStatus.Keys
        invariant forall i, k :: i in slots && k in slots[i].axels ==> slots[i].axels[k].Captures(status.axelStatus[k])
      {
        var slot := new KeyposeSlot(idx, status);
        slots := slots[idx := slot];
      }
    }

    /** Equal slots hash alike, and in a container whose slots carry their own index two
        slots are equal exactly when they are filed under the same index. */
    lemma SlotIdentity(i: int, j: int)
      requires i in slots && j in slots && slots[i].index == i && slots[j].index == j
      ensures SameSlot(slots[i], slots[j]) ==> SlotHashInput(slots[i]) == SlotHashInput(slots[j])
      ensures SameSlot(slots[i], slots[j]) <==> i == j
    {
    }

    /** `+=` with a decoded keypose reply: it has an empty body and changes nothing. */
    method Absorb(reply: map<string, Double>)
      ensures slots == old(slots)
    {
    }
  }
}
