// Pairing groups: the motion control systems that share a group id, one of them the master.
// Membership is decided by MAC address, the identity of a motion control system.

module Groups {
  import opened Base
  import opened Records

  /** Some member has the given MAC address (`contains` under MAC equality). */
  predicate HasMac(members: seq<MotionControlSystem>, mac: string) {
    exists i :: 0 <= i < |members| && members[i].macAddress == mac
  }

  /** Appending a system adds exactly its MAC. */
  lemma HasMacAppend(members: seq<MotionControlSystem>, m: MotionControlSystem, mac: string)
    ensures HasMac(members + [m], mac) <==> HasMac(members, mac) || m.macAddress == mac
  {
    if HasMac(members + [m], mac) && m.macAddress != mac {
      var i :| 0 <= i < |members + [m]| && (members + [m])[i].macAddress == mac;
      assert members[i].macAddress == mac;
    }
    if HasMac(members, mac) {
      var i :| 0 <= i < |members| && members[i].macAddress == mac;
      assert (members + [m])[i].macAddress == mac;
    }
    if m.macAddress == mac {
      assert (members + [m])[|members|] == m;
    }
  }

  /** A prefix one longer has the MACs of the shorter one and the MAC of its last system. */
  lemma HasMacPrefix(members: seq<MotionControlSystem>, n: nat, mac: string)
    requires n < |members|
    ensures HasMac(members[..n + 1], mac) <==> HasMac(members[..n], mac) || members[n].macAddress == mac
  {
    assert members[..n + 1] == members[..n] + [members[n]];
    HasMacAppend(members[..n], members[n], mac);
  }

  /** The MAC addresses of a list of systems, in order. */
  function MacsOf(members: seq<MotionControlSystem>): (r: seq<string>)
    ensures |r| == |members|
    ensures forall i :: 0 <= i < |members| ==> r[i] == members[i].macAddress
  {
    seq(|members|, i requires 0 <= i < |members| => members[i].macAddress)
  }

  /** `removeAll(where: { $0.macAddress == mac })`: the members with another MAC, in order. */
  function Without(members: seq<MotionControlSystem>, mac: string): (r: seq<MotionControlSystem>)
    ensures forall i :: 0 <= i < |r| ==> r[i] in members && r[i].macAddress != mac
    ensures forall i :: 0 <= i < |members| && members[i].macAddress != mac ==> members[i] in r
    ensures !HasMac(r, mac)
    ensures |r| <= |members|
    ensures !HasMac(members, mac) ==> r == members
    ensures (forall i, j :: 0 <= i < j < |members| ==> members[i].macAddress != members[j].macAddress) ==>
              forall i, j :: 0 <= i < j < |r| ==> r[i].macAddress != r[j].macAddress
  {
    if |members| == 0 then []
    else (if members[0].macAddress == mac then [] else [members[0]]) + Without(members[1..], mac)
  }

  /** Removing a MAC twice is removing it once, and removing one MAC keeps every other. */
  lemma WithoutFacts(members: seq<MotionControlSystem>, mac: string, other: string)
    ensures Without(Without(members, mac), mac) == Without(members, mac)
    ensures mac != other ==> (HasMac(Without(members, mac), other) <==> HasMac(members, other))
  {
    if mac != other && HasMac(members, other) {
      var i :| 0 <= i < |members| && members[i].macAddress == other;
      var r := Without(members, mac);
      assert members[i] in r;
      var j :| 0 <= j < |r| && r[j] == members[i];
    }
  }

  /** `removeAll(where:)` is a filter: removing from a concatenation removes from each part,
      so the members that stay keep their order. */
  lemma {:induction false} WithoutAppend(a: seq<MotionControlSystem>, b: seq<MotionControlSystem>, mac: string)
    ensures Without(a + b, mac) == Without(a, mac) + Without(b, mac)
  {
    if |a| > 0 {
      assert (a + b)[0] == a[0];
      assert (a + b)[1..] == a[1..] + b;
      WithoutAppend(a[1..], b, mac);
    } else {
      assert a + b == b;
    }
  }

  /** `contains` on a list of systems compares with `MotionControlSystem ==`, so it holds
      exactly when some member has the same MAC address. */
  lemma ContainsIsHasMac(members: seq<MotionControlSystem>, m: MotionControlSystem)
    ensures (exists i :: 0 <= i < |members| && SameSystem(members[i], m)) <==> HasMac(members, m.macAddress)
  {
  }

  /** What a group holds: its members in order and its master. */
  datatype Roster = Roster(members: seq<MotionControlSystem>, master: Option<MotionControlSystem>)

  /** The master rule: the master, if any, shares its MAC address with a member. */
  predicate MasterListed(r: Roster) {
    r.master.Some? ==> HasMac(r.members, r.master.value.macAddress)
  }

  /** `addMotionControlSystem` for a system of the group: a MAC not yet present is appended,
      and the system becomes the master when its setup string is a master indicator. */
  function Joined(r: Roster, mcs: MotionControlSystem): (s: Roster)
    ensures HasMac(s.members, mcs.macAddress)
    ensures forall mac :: HasMac(s.members, mac) <==> HasMac(r.members, mac) || mac == mcs.macAddress
    ensures MasterListed(r) ==> MasterListed(s)
  {
    HasMacAppend(r.members, mcs, mcs.macAddress);
    if HasMac(r.members, mcs.macAddress) then r
    else
      assert forall mac :: HasMac(r.members + [mcs], mac) <==> HasMac(r.members, mac) || mac == mcs.macAddress by {
        forall mac ensures HasMac(r.members + [mcs], mac) <==> HasMac(r.members, mac) || mac == mcs.macAddress {
          HasMacAppend(r.members, mcs, mac);
        }
      }
      Roster(r.members + [mcs], if mcs.setup in MasterIndicator then Some(mcs) else r.master)
  }

  /** `removeMotionControlSystem` for a system of the group: every member with the MAC
      leaves, and a master with that MAC is dropped, not replaced. */
  function Left(r: Roster, mac: string): (s: Roster)
    ensures !HasMac(s.members, mac)
    ensures forall other :: other != mac ==> (HasMac(s.members, other) <==> HasMac(r.members, other))
    ensures MasterListed(r) ==> MasterListed(s)
    ensures MasterListed(r) && s.members == [] ==> s.master == None
  {
    forall other | other != mac ensures HasMac(Without(r.members, mac), other) <==> HasMac(r.members, other) {
      WithoutFacts(r.members, mac, other);
    }
    Roster(Without(r.members, mac), if r.master.Some? && r.master.value.macAddress == mac then None else r.master)
  }

  /** Joining twice with the same MAC is joining once, and leaving twice is leaving once. */
  lemma RosterRules(r: Roster, a: MotionControlSystem, b: MotionControlSystem)
    ensures a.macAddress == b.macAddress ==> Joined(Joined(r, a), b) == Joined(r, a)
    ensures Left(Left(r, a.macAddress), a.macAddress) == Left(r, a.macAddress)
  {
    WithoutFacts(r.members, a.macAddress, a.macAddress);
  }

  /** A group of motion control systems. Its identity (`==`, `id`) is the group id. */
  class PairingGroup {
    const groupID: int
    var groupedControlSystems: seq<MotionControlSystem>
    var groupMaster: Option<MotionControlSystem>
    var isConnected: bool

    /** The master, if any, shares its MAC address with a member. */
    ghost predicate Valid()
      reads this`groupedControlSystems, this`groupMaster
    {
      MasterListed(Roster(groupedControlSystems, groupMaster))
    }

    /** The group's members and master. */
    ghost function View(): Roster
      reads this`groupedControlSystems, this`groupMaster
    {
      Roster(groupedControlSystems, groupMaster)
    }

    /** `init(groupID:)`: an empty group without a master. */
    constructor (groupID: int)
      ensures this.groupID == groupID && groupedControlSystems == [] && groupMaster == None && !isConnected
      ensures Valid()
    {
      this.groupID := groupID;
      groupedControlSystems := [];
      groupMaster := None;
      isConnected := false;
    }

    /** `addMotionControlSystem`: a system of this group whose MAC is not yet present is
        appended, and becomes the master when its setup string is a master indicator. */
    method Add(mcs: MotionControlSystem)
      modifies this`groupedControlSystems, this`groupMaster
      ensures old(Valid()) ==> Valid()
      ensures mcs.groupID == groupID && !HasMac(old(groupedControlSystems), mcs.macAddress) ==>
                groupedControlSystems == old(groupedControlSystems) + [mcs]
                && groupMaster == (if mcs.setup in MasterIndicator then Some(mcs) else old(groupMaster))
      ensures !(mcs.groupID == groupID && !HasMac(old(groupedControlSystems), mcs.macAddress)) ==>
                groupedControlSystems == old(groupedControlSystems) && groupMaster == old(groupMaster)
      ensures mcs.groupID == groupID ==> HasMac(groupedControlSystems, mcs.macAddress)
      ensures mcs.groupID == groupID ==> View() == Joined(old(View()), mcs)
    {
      if mcs.groupID == groupID && !HasMac(groupedControlSystems, mcs.macAddress) {
        groupedControlSystems := groupedControlSystems + [mcs];
        assert groupedControlSystems[|groupedControlSystems| - 1] == mcs;
        assert forall i :: 0 <= i < |old(groupedControlSystems)| ==>
                 groupedControlSystems[i] == old(groupedControlSystems)[i];
        if mcs.setup in MasterIndicator {
          groupMaster := Some(mcs);
        }
      }
    }

    /** `removeMotionControlSystem`: for a system of this group or of no group, every member
        with its MAC is removed, and the master is dropped (not replaced) when it has that MAC. */
    method Remove(mcs: MotionControlSystem)
      modifies this`groupedControlSystems, this`groupMaster
      ensures old(Valid()) ==> Valid()
      ensures mcs.groupID == groupID || mcs.groupID == NoGroup ==>
                groupedControlSystems == Without(old(groupedControlSystems), mcs.macAddress)
                && groupMaster == (if old(groupMaster).Some? && old(groupMaster).value.macAddress == mcs.macAddress
                                   then None else old(groupMaster))
      ensures !(mcs.groupID == groupID || mcs.groupID == NoGroup) ==>
                groupedControlSystems == old(groupedControlSystems) && groupMaster == old(groupMaster)
      ensures mcs.groupID == groupID || mcs.groupID == NoGroup ==> View() == Left(old(View()), mcs.macAddress)
    {
      if mcs.groupID == groupID || mcs.groupID == NoGroup {
        groupedControlSystems := Without(groupedControlSystems, mcs.macAddress);
        if groupMaster.Some? && groupMaster.value.macAddress == mcs.macAddress {
          groupMaster := None;
        } else if groupMaster.Some? {
          WithoutFacts(old(groupedControlSystems), mcs.macAddress, groupMaster.value.macAddress);
        }
      }
    }

    /** `isEmpty`. */
    predicate IsEmpty()
      reads this`groupedControlSystems
    {
      |groupedControlSystems| == 0
    }

    /** A group left without members has no master either. */
    lemma EmptyHasNoMaster()
      requires Valid() && IsEmpty()
      ensures groupMaster == None
    {
    }

    /** The values `hash(into:)` feeds to the hasher: the group id, then every member's MAC. */
    function HashInputAsWritten(): (int, seq<string>)
      reads this`groupedControlSystems
    {
      GroupHashInputAsWritten(groupID, MacsOf(groupedControlSystems))
    }
  }

  /** `PairingGroup ==`: the same group id. */
  predicate SameGroup(a: PairingGroup, b: PairingGroup) {
    a.groupID == b.groupID
  }

  /** The hash input of a group as the source computes it, from its id and member MACs. */
  function GroupHashInputAsWritten(groupID: int, macs: seq<string>): (r: (int, seq<string>))
    ensures r.0 == groupID && r.1 == macs
  {
    (groupID, macs)
  }

  /** The hash input of a group that agrees with its equality: the id only. */
  function GroupHashInput(groupID: int): int {
    groupID
  }

  /** Two groups with the same id are equal, yet the source's hash input differs as soon as
      their members differ: equal values hash differently, against the `Hashable` contract. */
  lemma GroupHashAsWrittenBreaksEquality()
    ensures GroupHashInputAsWritten(5, []) != GroupHashInputAsWritten(5, ["24:0A:C4:F1:3B:AA"])
  {
    var a, b := GroupHashInputAsWritten(5, []), GroupHashInputAsWritten(5, ["24:0A:C4:F1:3B:AA"]);
    assert |a.1| != |b.1|;
  }

  /** The corrected hash input is the same for any two equal groups. */
  lemma GroupHashAgreesWithEquality(a: PairingGroup, b: PairingGroup)
    ensures SameGroup(a, b) <==> GroupHashInput(a.groupID) == GroupHashInput(b.groupID)
  {
  }
}
