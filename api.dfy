// The API object: the registry of scanned link adapters and motion control systems, the
// pairing groups built from them, the connection state shown by the interface, the running
// flags of the three polling loops, and the commands built from that state.

module Api {
  import opened Base
  import opened Records
  import opened Periodic
  import opened Status
  import opened Groups
  import opened Commands

  /** `ConnectionState`: which screen of the connection flow is shown. */
  datatype ApiState = PresentLinkAdapters | PairMotionControlSystems | ShowMotionControlInterface

  /** `PairingStatus.pairingState`. */
  datatype PairState = PairIdle | Connecting | ConnectionOk | Problem

  /** `motionControlGroups.removeAll(where: { $0.groupID == id })`: the groups with another id, in order. */
  function WithoutGroup(groups: seq<PairingGroup>, id: int): (r: seq<PairingGroup>)
    ensures forall i :: 0 <= i < |r| ==> r[i] in groups && r[i].groupID != id
    ensures forall i :: 0 <= i < |groups| && groups[i].groupID != id ==> groups[i] in r
    ensures (forall i, j :: 0 <= i < j < |groups| ==> groups[i].groupID != groups[j].groupID) ==>
              forall i, j :: 0 <= i < j < |r| ==> r[i].groupID != r[j].groupID
  {
    if |groups| == 0 then []
    else
      var init := groups[..|groups| - 1];
      var last := groups[|groups| - 1];
      assert forall g :: g in init ==> g in groups;
      WithoutGroup(init, id) + (if last.groupID == id then [] else [last])
  }

  /** Removing by id from a concatenation removes from each part, so the groups that stay
      keep their order. */
  lemma {:induction false} WithoutGroupAppend(a: seq<PairingGroup>, b: seq<PairingGroup>, id: int)
    ensures WithoutGroup(a + b, id) == WithoutGroup(a, id) + WithoutGroup(b, id)
  {
    if |b| > 0 {
      var n := |b| - 1;
      var tail := if b[n].groupID == id then [] else [b[n]];
      assert (a + b)[..|a + b| - 1] == a + b[..n];
      assert (a + b)[|a + b| - 1] == b[n];
      assert WithoutGroup(a + b, id) == WithoutGroup(a + b[..n], id) + tail;
      assert WithoutGroup(b, id) == WithoutGroup(b[..n], id) + tail;
      WithoutGroupAppend(a, b[..n], id);
      assert WithoutGroup(a + b, id) == (WithoutGroup(a, id) + WithoutGroup(b[..n], id)) + tail;
    } else {
      assert a + b == a;
    }
  }

  /** Removing an id no group of the list has leaves the list as it is. */
  lemma {:induction false} WithoutGroupAbsent(groups: seq<PairingGroup>, id: int)
    requires forall i :: 0 <= i < |groups| ==> groups[i].groupID != id
    ensures WithoutGroup(groups, id) == groups
  {
    if |groups| > 0 {
      var init := groups[..|groups| - 1];
      WithoutGroupAbsent(init, id);
      assert init + [groups[|groups| - 1]] == groups;
    }
  }

  /** Removing the groups with an id from a list that ends in a group with that id is
      removing them from the list without it. */
  lemma WithoutGroupAppended(groups: seq<PairingGroup>, g: PairingGroup)
    ensures WithoutGroup(groups + [g], g.groupID) == WithoutGroup(groups, g.groupID)
  {
    assert (groups + [g])[..|groups|] == groups;
  }

  /** The j-th system of a scan reply carries a MAC that is neither registered before the
      reply nor carried by an earlier system of the reply: it is the one that gets registered. */
  predicate FirstNew(known: map<string, MotionControlSystem>, incoming: seq<MotionControlSystem>, j: int)
    requires 0 <= j < |incoming|
  {
    incoming[j].macAddress !in known && !HasMac(incoming[..j], incoming[j].macAddress)
  }

  /** The records of a reply that get registered, in reply order: the first record with each
      MAC not known before. */
  function NewRecords(known: map<string, MotionControlSystem>, incoming: seq<MotionControlSystem>): (r: seq<MotionControlSystem>)
    ensures forall i :: 0 <= i < |r| ==> r[i] in incoming
  {
    if |incoming| == 0 then []
    else
      var n := |incoming| - 1;
      NewRecords(known, incoming[..n]) + (if FirstNew(known, incoming, n) then [incoming[n]] else [])
  }

  /** The new records carry exactly the reply's MACs that were not known. */
  lemma {:induction false} NewRecordsMacs(known: map<string, MotionControlSystem>, incoming: seq<MotionControlSystem>, mac: string)
    ensures HasMac(NewRecords(known, incoming), mac) <==> HasMac(incoming, mac) && mac !in known
  {
    if |incoming| > 0 {
      var n := |incoming| - 1;
      var rest := NewRecords(known, incoming[..n]);
      NewRecordsMacs(known, incoming[..n], mac);
      assert incoming[..n + 1] == incoming;
      HasMacPrefix(incoming, n, mac);
      if FirstNew(known, incoming, n) {
        assert NewRecords(known, incoming) == rest + [incoming[n]];
        HasMacAppend(rest, incoming[n], mac);
      } else {
        assert NewRecords(known, incoming) == rest;
      }
    }
  }

  /** No MAC is carried by two new records. */
  lemma {:induction false} NewRecordsDistinct(known: map<string, MotionControlSystem>, incoming: seq<MotionControlSystem>)
    ensures forall i, j :: 0 <= i < j < |NewRecords(known, incoming)| ==>
              NewRecords(known, incoming)[i].macAddress != NewRecords(known, incoming)[j].macAddress
  {
    if |incoming| > 0 {
      var n := |incoming| - 1;
      var rest := NewRecords(known, incoming[..n]);
      NewRecordsDistinct(known, incoming[..n]);
      assert forall i, j :: 0 <= i < j < |rest| ==> rest[i].macAddress != rest[j].macAddress;
      if FirstNew(known, incoming, n) {
        var r := rest + [incoming[n]];
        assert NewRecords(known, incoming) == r;
        forall i | 0 <= i < |rest| ensures r[i].macAddress != incoming[n].macAddress {
          assert HasMac(rest, rest[i].macAddress);
          NewRecordsMacs(known, incoming[..n], rest[i].macAddress);
        }
        forall i, j | 0 <= i < j < |r| ensures r[i].macAddress != r[j].macAddress {
          if j < |rest| {
            assert r[i] == rest[i] && r[j] == rest[j];
          }
        }
      } else {
        assert NewRecords(known, incoming) == rest;
      }
    }
  }

  /** The systems of a list whose MAC a reply carries, in list order. */
  function Reported(s: seq<MotionControlSystem>, incoming: seq<MotionControlSystem>): (r: seq<MotionControlSystem>)
    ensures forall i :: 0 <= i < |r| ==> r[i] in s && HasMac(incoming, r[i].macAddress)
    ensures forall i :: 0 <= i < |s| && HasMac(incoming, s[i].macAddress) ==> s[i] in r
  {
    if |s| == 0 then []
    else (if HasMac(incoming, s[0].macAddress) then [s[0]] else []) + Reported(s[1..], incoming)
  }

  /** Keeping the reported systems of a concatenation keeps those of each part. */
  lemma {:induction false} ReportedAppend(a: seq<MotionControlSystem>, b: seq<MotionControlSystem>, incoming: seq<MotionControlSystem>)
    ensures Reported(a + b, incoming) == Reported(a, incoming) + Reported(b, incoming)
  {
    if |a| > 0 {
      ReportedAppend(a[1..], b, incoming);
      assert (a + b)[1..] == a[1..] + b;
    } else {
      assert a + b == b;
    }
  }

  /** A list whose every MAC is reported is kept whole. */
  lemma {:induction false} ReportedAll(s: seq<MotionControlSystem>, incoming: seq<MotionControlSystem>)
    requires forall i :: 0 <= i < |s| ==> HasMac(incoming, s[i].macAddress)
    ensures Reported(s, incoming) == s
  {
    if |s| > 0 {
      ReportedAll(s[1..], incoming);
      assert [s[0]] + s[1..] == s;
    }
  }

  /** The systems of a list whose MAC is not in `gone`, in list order. */
  function Keeping(s: seq<MotionControlSystem>, gone: set<string>): (r: seq<MotionControlSystem>)
    ensures forall i :: 0 <= i < |r| ==> r[i] in s && r[i].macAddress !in gone
  {
    if |s| == 0 then []
    else (if s[0].macAddress in gone then [] else [s[0]]) + Keeping(s[1..], gone)
  }

  /** Keeping every MAC keeps the list. */
  lemma {:induction false} KeepingAll(s: seq<MotionControlSystem>)
    ensures Keeping(s, {}) == s
  {
    if |s| > 0 {
      KeepingAll(s[1..]);
      assert [s[0]] + s[1..] == s;
    }
  }

  /** Removing one more MAC from a kept list is keeping one MAC fewer. */
  lemma {:induction false} KeepingWithout(s: seq<MotionControlSystem>, gone: set<string>, mac: string)
    ensures Without(Keeping(s, gone), mac) == Keeping(s, gone + {mac})
  {
    if |s| > 0 {
      KeepingWithout(s[1..], gone, mac);
      var rest := Keeping(s[1..], gone);
      var head := if s[0].macAddress in gone then [] else [s[0]];
      assert Keeping(s, gone) == head + rest;
      if s[0].macAddress in gone {
        assert head + rest == rest;
      } else {
        var kept := [s[0]] + rest;
        assert kept[0] == s[0] && kept[1..] == rest;
        assert Without(kept, mac) == (if s[0].macAddress == mac then [] else [s[0]]) + Without(rest, mac);
      }
    }
  }

  /** Dropping exactly the unreported MACs of a list keeps its reported systems. */
  lemma {:induction false} KeepingReported(s: seq<MotionControlSystem>, gone: set<string>, incoming: seq<MotionControlSystem>)
    requires forall i :: 0 <= i < |s| ==> (s[i].macAddress in gone <==> !HasMac(incoming, s[i].macAddress))
    ensures Keeping(s, gone) == Reported(s, incoming)
  {
    if |s| > 0 {
      KeepingReported(s[1..], gone, incoming);
    }
  }

  /** `knownSystems.subtracting(scannedSystems)`: the known systems whose MAC the reply no
      longer carries (visited in list order). */
  function Vanished(known: seq<MotionControlSystem>, incoming: seq<MotionControlSystem>): (r: seq<MotionControlSystem>)
    ensures forall i :: 0 <= i < |r| ==> r[i] in known
  {
    if |known| == 0 then []
    else
      var last := known[|known| - 1];
      Vanished(known[..|known| - 1], incoming) + (if HasMac(incoming, last.macAddress) then [] else [last])
  }

  /** A MAC is among the vanished systems exactly when it is known and the reply lacks it. */
  lemma {:induction false} VanishedMacs(known: seq<MotionControlSystem>, incoming: seq<MotionControlSystem>, mac: string)
    ensures HasMac(Vanished(known, incoming), mac) <==> HasMac(known, mac) && !HasMac(incoming, mac)
  {
    if |known| > 0 {
      var n := |known| - 1;
      var last := known[n];
      var rest := Vanished(known[..n], incoming);
      VanishedMacs(known[..n], incoming, mac);
      HasMacPrefix(known, n, mac);
      assert known[..n + 1] == known;
      if !HasMac(incoming, last.macAddress) {
        HasMacAppend(rest, last, mac);
      } else {
        assert Vanished(known, incoming) == rest;
      }
    }
  }

  /** `knownSystems.subtracting(scannedSystems)` works on sets, so under `==` and the hash of
      a motion control system: a system is among those removed exactly when an equal one is
      known and no equal one was reported. */
  lemma VanishedIsSubtracting(known: seq<MotionControlSystem>, incoming: seq<MotionControlSystem>, o: MotionControlSystem)
    ensures var gone := Vanished(known, incoming);
            (exists i :: 0 <= i < |gone| && SameSystem(gone[i], o))
            <==> (exists i :: 0 <= i < |known| && SameSystem(known[i], o))
                 && !(exists j :: 0 <= j < |incoming| && SameSystem(incoming[j], o))
  {
    VanishedMacs(known, incoming, o.macAddress);
    ContainsIsHasMac(Vanished(known, incoming), o);
    ContainsIsHasMac(known, o);
    ContainsIsHasMac(incoming, o);
  }

  /** The state of the first loop of the scan callback after the first `idx` records of the
      reply, relative to the scanned list `scanned0`, the registry `dict0`, the ungrouped list
      `ungrouped0` and the group ids `ids0` before it: the scanned list has gained the new
      records of these records, in order; the registered MACs are the earlier ones and those
      of these records, earlier entries are untouched and new ones come from the reply, each
      first occurrence of a new MAC is registered (and listed as ungrouped when it arrived
      without a group), records still to come that will be registered carry their original
      group id (`ids` holds the current ones), no ungrouped system was dropped, and every
      ungrouped system was ungrouped before or is the one now registered under its MAC. */
  ghost predicate AbsorbedUpTo(incoming: seq<MotionControlSystem>, idx: int,
                               scanned: seq<MotionControlSystem>, dict: map<string, MotionControlSystem>,
                               ungrouped: seq<MotionControlSystem>, ids: seq<int>,
                               scanned0: seq<MotionControlSystem>, dict0: map<string, MotionControlSystem>,
                               ungrouped0: seq<MotionControlSystem>, ids0: seq<int>)
  {
    AbsorbedRegistry(incoming, idx, scanned, dict, scanned0, dict0)
    && AbsorbedFiled(incoming, idx, dict, ungrouped, ids, dict0, ungrouped0, ids0)
  }

  /** The scanned-list and registry half of `AbsorbedUpTo`. */
  ghost predicate AbsorbedRegistry(incoming: seq<MotionControlSystem>, idx: int,
                                   scanned: seq<MotionControlSystem>, dict: map<string, MotionControlSystem>,
                                   scanned0: seq<MotionControlSystem>, dict0: map<string, MotionControlSystem>)
  {
    0 <= idx <= |incoming|
    && scanned == scanned0 + NewRecords(dict0, incoming[..idx])
    && (forall mac :: mac in dict <==> mac in dict0 || HasMac(incoming[..idx], mac))
    && (forall mac :: mac in dict0 ==> mac in dict && dict[mac] == dict0[mac])
    && (forall mac :: mac in dict && mac !in dict0 ==> dict[mac] in incoming)
  }

  /** The filed-record, group-id and ungrouped-list half of `AbsorbedUpTo`. */
  ghost predicate AbsorbedFiled(incoming: seq<MotionControlSystem>, idx: int,
                                dict: map<string, MotionControlSystem>, ungrouped: seq<MotionControlSystem>, ids: seq<int>,
                                dict0: map<string, MotionControlSystem>, ungrouped0: seq<MotionControlSystem>, ids0: seq<int>)
  {
    0 <= idx <= |incoming| && |ids| == |incoming| && |ids0| == |incoming|
    && (forall j :: 0 <= j < idx && FirstNew(dict0, incoming, j) ==>
          incoming[j].macAddress in dict && dict[incoming[j].macAddress] == incoming[j]
          && (ids0[j] == NoGroup ==> incoming[j] in ungrouped))
    && (forall j :: idx <= j < |incoming| && FirstNew(dict0, incoming, j) ==> ids[j] == ids0[j])
    && (forall o :: o in ungrouped0 ==> o in ungrouped)
    && (forall o :: o in ungrouped ==> o in ungrouped0 || (o.macAddress in dict && dict[o.macAddress] == o))
  }

  /** One pass of the first loop of the scan callback keeps `AbsorbedUpTo`, one record further:
      the pass appends and registers record `idx` when its MAC is new (listing it as ungrouped
      when it had no group), keeps every other entry and ungrouped system, lists as ungrouped
      only the system registered under that MAC, and changes the group id only of records with
      the MAC of record `idx`. */
  lemma AbsorbStep(incoming: seq<MotionControlSystem>, idx: int,
                   scanned: seq<MotionControlSystem>, dict: map<string, MotionControlSystem>,
                   ungrouped: seq<MotionControlSystem>, ids: seq<int>,
                   scanned': seq<MotionControlSystem>, dict': map<string, MotionControlSystem>,
                   ungrouped': seq<MotionControlSystem>, ids': seq<int>,
                   scanned0: seq<MotionControlSystem>, dict0: map<string, MotionControlSystem>,
                   ungrouped0: seq<MotionControlSystem>, ids0: seq<int>)
    requires AbsorbedUpTo(incoming, idx, scanned, dict, ungrouped, ids, scanned0, dict0, ungrouped0, ids0) && idx < |incoming|
    requires scanned' == scanned + (if incoming[idx].macAddress in dict then [] else [incoming[idx]])
    requires forall mac :: mac in dict' <==> mac in dict || mac == incoming[idx].macAddress
    requires forall mac :: mac in dict ==> mac in dict' && dict'[mac] == dict[mac]
    requires incoming[idx].macAddress !in dict ==>
               dict'[incoming[idx].macAddress] == incoming[idx] && (ids[idx] == NoGroup ==> incoming[idx] in ungrouped')
    requires forall o :: o in ungrouped ==> o in ungrouped'
    requires forall o :: o in ungrouped' ==> o in ungrouped || (o.macAddress in dict' && dict'[o.macAddress] == o)
    requires |ids'| == |incoming|
    requires forall j :: 0 <= j < |incoming| && incoming[j].macAddress != incoming[idx].macAddress ==> ids'[j] == ids[j]
    ensures AbsorbedUpTo(incoming, idx + 1, scanned', dict', ungrouped', ids', scanned0, dict0, ungrouped0, ids0)
  {
    AbsorbRegistryStep(incoming, idx, scanned, dict, scanned', dict', scanned0, dict0);
    AbsorbFiledStep(incoming, idx, dict, ungrouped, ids, dict', ungrouped', ids', dict0, ungrouped0, ids0);
  }

  /** The scanned-list and registry part of `AbsorbStep`. */
  lemma AbsorbRegistryStep(incoming: seq<MotionControlSystem>, idx: int,
                           scanned: seq<MotionControlSystem>, dict: map<string, MotionControlSystem>,
                           scanned': seq<MotionControlSystem>, dict': map<string, MotionControlSystem>,
                           scanned0: seq<MotionControlSystem>, dict0: map<string, MotionControlSystem>)
    requires AbsorbedRegistry(incoming, idx, scanned, dict, scanned0, dict0) && idx < |incoming|
    requires scanned' == scanned + (if incoming[idx].macAddress in dict then [] else [incoming[idx]])
    requires forall mac :: mac in dict' <==> mac in dict || mac == incoming[idx].macAddress
    requires forall mac :: mac in dict ==> mac in dict' && dict'[mac] == dict[mac]
    requires incoming[idx].macAddress !in dict ==> dict'[incoming[idx].macAddress] == incoming[idx]
    ensures AbsorbedRegistry(incoming, idx + 1, scanned', dict', scanned0, dict0)
  {
    var k := incoming[idx];
    forall mac ensures HasMac(incoming[..idx + 1], mac) <==> HasMac(incoming[..idx], mac) || k.macAddress == mac {
      HasMacPrefix(incoming, idx, mac);
    }
    assert FirstNew(dict0, incoming, idx) <==> k.macAddress !in dict;
    NewRecordsStep(dict0, incoming, idx);
  }

  /** The filed-record, group-id and ungrouped-list part of `AbsorbStep`. */
  lemma AbsorbFiledStep(incoming: seq<MotionControlSystem>, idx: int,
                        dict: map<string, MotionControlSystem>, ungrouped: seq<MotionControlSystem>, ids: seq<int>,
                        dict': map<string, MotionControlSystem>, ungrouped': seq<MotionControlSystem>, ids': seq<int>,
                        dict0: map<string, MotionControlSystem>, ungrouped0: seq<MotionControlSystem>, ids0: seq<int>)
    requires AbsorbedFiled(incoming, idx, dict, ungrouped, ids, dict0, ungrouped0, ids0) && idx < |incoming|
    requires forall mac :: mac in dict <==> mac in dict0 || HasMac(incoming[..idx], mac)
    requires forall mac :: mac in dict ==> mac in dict' && dict'[mac] == dict[mac]
    requires incoming[idx].macAddress in dict'
    requires incoming[idx].macAddress !in dict ==>
               dict'[incoming[idx].macAddress] == incoming[idx] && (ids[idx] == NoGroup ==> incoming[idx] in ungrouped')
    requires forall o :: o in ungrouped ==> o in ungrouped'
    requires forall o :: o in ungrouped' ==> o in ungrouped || (o.macAddress in dict' && dict'[o.macAddress] == o)
    requires |ids'| == |incoming|
    requires forall j :: 0 <= j < |incoming| && incoming[j].macAddress != incoming[idx].macAddress ==> ids'[j] == ids[j]
    ensures AbsorbedFiled(incoming, idx + 1, dict', ungrouped', ids', dict0, ungrouped0, ids0)
  {
    var k := incoming[idx];
    forall j | idx + 1 <= j < |incoming| && FirstNew(dict0, incoming, j) ensures ids'[j] == ids0[j] {
      assert incoming[..j][idx] == k;
    }
    forall j | 0 <= j <= idx && FirstNew(dict0, incoming, j)
      ensures incoming[j].macAddress in dict' && dict'[incoming[j].macAddress] == incoming[j]
              && (ids0[j] == NoGroup ==> incoming[j] in ungrouped')
    {
      if j == idx {
        assert k.macAddress !in dict;
      }
    }
  }

  /** The new records of one more record of a reply: that record is added when it is the
      first with a new MAC. */
  lemma NewRecordsStep(known: map<string, MotionControlSystem>, incoming: seq<MotionControlSystem>, idx: int)
    requires 0 <= idx < |incoming|
    ensures NewRecords(known, incoming[..idx + 1])
            == NewRecords(known, incoming[..idx]) + (if FirstNew(known, incoming, idx) then [incoming[idx]] else [])
  {
    assert incoming[..idx + 1][..idx] == incoming[..idx];
    assert FirstNew(known, incoming[..idx + 1], idx) == FirstNew(known, incoming, idx);
  }

  /** What the second loop of the scan callback achieves, from scanned list `scanned1`,
      registry `dict1` and ungrouped list `ungrouped1` to `scanned2`, `dict2` and `ungrouped2`:
      the scanned list keeps exactly its systems whose MAC the reply carries, in order; exactly
      those MACs stay registered, with the same records; the MACs the reply lacks are gone from
      the ungrouped list, every other ungrouped system stays, and none is added. */
  ghost predicate Dropped(incoming: seq<MotionControlSystem>,
                          scanned1: seq<MotionControlSystem>, dict1: map<string, MotionControlSystem>,
                          ungrouped1: seq<MotionControlSystem>,
                          scanned2: seq<MotionControlSystem>, dict2: map<string, MotionControlSystem>,
                          ungrouped2: seq<MotionControlSystem>)
  {
    scanned2 == Reported(scanned1, incoming)
    && (forall mac :: mac in dict2 <==> mac in dict1 && HasMac(incoming, mac))
    && (forall mac :: mac in dict2 ==> mac in dict1 && dict2[mac] == dict1[mac])
    && (forall mac :: mac in dict1 && !HasMac(incoming, mac) ==> !HasMac(ungrouped2, mac))
    && (forall o :: o in ungrouped1 && HasMac(incoming, o.macAddress) ==> o in ungrouped2)
    && (forall o :: o in ungrouped2 ==> o in ungrouped1)
  }

  /** What the scan callback achieves on success, from the scanned list `scanned0`, the
      registry `dict0` and the ungrouped list `ungrouped0` before it (the reply's records
      arrived with group ids `ids0`) to `scanned`, `dict` and `ungrouped`: the scanned list is
      the old one without the vanished systems, followed by the reply's new records in reply
      order; the registered MACs are exactly the reply's; a MAC known before keeps its record;
      the first record of the reply with a new MAC is the one registered, and is in the
      ungrouped list when it arrived without a group; a vanished MAC is gone from the ungrouped
      list, an ungrouped system whose MAC the reply carries stays, and every ungrouped system
      was ungrouped before or is the one registered under its MAC. */
  ghost predicate ScanReconciled(incoming: seq<MotionControlSystem>, ids0: seq<int>,
                                 scanned0: seq<MotionControlSystem>, dict0: map<string, MotionControlSystem>,
                                 ungrouped0: seq<MotionControlSystem>,
                                 scanned: seq<MotionControlSystem>, dict: map<string, MotionControlSystem>,
                                 ungrouped: seq<MotionControlSystem>)
  {
    |ids0| == |incoming|
    && scanned == Reported(scanned0, incoming) + NewRecords(dict0, incoming)
    && (forall mac :: mac in dict <==> HasMac(incoming, mac))
    && (forall mac :: mac in dict0 && HasMac(incoming, mac) ==> mac in dict && dict[mac] == dict0[mac])
    && (forall j :: 0 <= j < |incoming| && FirstNew(dict0, incoming, j) ==>
          incoming[j].macAddress in dict && dict[incoming[j].macAddress] == incoming[j]
          && (ids0[j] == NoGroup ==> incoming[j] in ungrouped))
    && (forall mac :: mac in dict0 && !HasMac(incoming, mac) ==> !HasMac(ungrouped, mac))
    && (forall o :: o in ungrouped0 && HasMac(incoming, o.macAddress) ==> o in ungrouped)
    && (forall o :: o in ungrouped ==> o in ungrouped0 || (o.macAddress in dict && dict[o.macAddress] == o))
  }

  /** The two loops of the scan callback together reconcile the registry with the reply. */
  lemma ScanComposition(incoming: seq<MotionControlSystem>, ids0: seq<int>,
                        scanned0: seq<MotionControlSystem>, dict0: map<string, MotionControlSystem>,
                        ungrouped0: seq<MotionControlSystem>,
                        scanned1: seq<MotionControlSystem>, dict1: map<string, MotionControlSystem>,
                        ungrouped1: seq<MotionControlSystem>,
                        scanned2: seq<MotionControlSystem>, dict2: map<string, MotionControlSystem>,
                        ungrouped2: seq<MotionControlSystem>)
    requires exists ids1 :: AbsorbedUpTo(incoming, |incoming|, scanned1, dict1, ungrouped1, ids1, scanned0, dict0, ungrouped0, ids0)
    requires Dropped(incoming, scanned1, dict1, ungrouped1, scanned2, dict2, ungrouped2)
    ensures ScanReconciled(incoming, ids0, scanned0, dict0, ungrouped0, scanned2, dict2, ungrouped2)
  {
    assert incoming[..|incoming|] == incoming;
    var added := NewRecords(dict0, incoming);
    forall i | 0 <= i < |added| ensures HasMac(incoming, added[i].macAddress) {
      var j :| 0 <= j < |incoming| && incoming[j] == added[i];
    }
    ReportedAppend(scanned0, added, incoming);
    ReportedAll(added, incoming);
    forall j | 0 <= j < |incoming| && FirstNew(dict0, incoming, j)
      ensures HasMac(incoming, incoming[j].macAddress)
    {
    }
    forall o | o in ungrouped2 && o !in ungrouped0 ensures o.macAddress in dict2 && dict2[o.macAddress] == o {
      var i :| 0 <= i < |ungrouped2| && ungrouped2[i] == o;
      assert HasMac(ungrouped2, o.macAddress);
    }
  }

  /** Filing a value under a new key and then removing that key gives back the map. */
  lemma UpdateThenRemove<K, V>(m: map<K, V>, k: K, v: V)
    requires k !in m
    ensures m[k := v] - {k} == m
  {
    assert (m[k := v] - {k}).Keys == m.Keys;
  }

  /** The request that attaches to a bundle: the command and, when the group has a master,
      its MAC address (a missing master leaves the key out). */
  function AttachToBundleRequest(master: Option<string>): (r: Request)
    ensures "command" in r && r["command"] == RString("wirelessPairingAttachToBundle")
    ensures "mac" in r <==> master.Some?
    ensures master.Some? ==> r["mac"] == RString(master.value)
    ensures r.Keys <= {"command", "mac"}
  {
    var base := GetCommand("wirelessPairingAttachToBundle");
    if master.Some? then base["mac" := RString(master.value)] else base
  }

  // ---------------------------------------------------------------------------------------
  // Link adapters

  /** The valid adapters of a reply, in order; duplicates are kept. */
  function ValidOnly(adapters: seq<LinkAdapter>): (r: seq<LinkAdapter>)
    ensures |r| <= |adapters|
    ensures forall i :: 0 <= i < |r| ==> r[i] in adapters && r[i].isValid
    ensures forall i :: 0 <= i < |adapters| && adapters[i].isValid ==> adapters[i] in r
  {
    if |adapters| == 0 then []
    else
      var last := adapters[|adapters| - 1];
      assert forall i :: 0 <= i < |adapters| - 1 ==> adapters[i] == adapters[..|adapters| - 1][i];
      ValidOnly(adapters[..|adapters| - 1]) + (if last.isValid then [last] else [])
  }

  /** Filtering distributes over concatenation, so an adapter reported by two replies is
      appended twice. */
  lemma {:induction false} ValidOnlyAppend(a: seq<LinkAdapter>, b: seq<LinkAdapter>)
    ensures ValidOnly(a + b) == ValidOnly(a) + ValidOnly(b)
  {
    if |b| > 0 {
      var b0 := b[..|b| - 1];
      ValidOnlyAppend(a, b0);
      assert (a + b)[..|a + b| - 1] == a + b0;
      assert (a + b)[|a + b| - 1] == b[|b| - 1];
    } else {
      assert a + b == a;
    }
  }

  /** The adapter dictionary after the valid adapters of a reply are filed by id, in order. */
  function IndexAdapters(dict: map<string, LinkAdapter>, adapters: seq<LinkAdapter>): map<string, LinkAdapter> {
    if |adapters| == 0 then dict
    else
      var last := adapters[|adapters| - 1];
      var init := IndexAdapters(dict, adapters[..|adapters| - 1]);
      if last.isValid then init[last.id := last] else init
  }

  /** One more adapter of a reply: it is appended and filed exactly when it is valid. */
  lemma FilingStep(dict: map<string, LinkAdapter>, data: seq<LinkAdapter>, i: int)
    requires 0 <= i < |data|
    ensures ValidOnly(data[..i + 1]) == ValidOnly(data[..i]) + (if data[i].isValid then [data[i]] else [])
    ensures IndexAdapters(dict, data[..i + 1])
            == if data[i].isValid then IndexAdapters(dict, data[..i])[data[i].id := data[i]] else IndexAdapters(dict, data[..i])
  {
    assert data[..i + 1][..i] == data[..i] && data[..i + 1][i] == data[i];
  }

  /** Some valid adapter of the list has the given id. */
  predicate ReportsId(adapters: seq<LinkAdapter>, id: string) {
    exists i :: 0 <= i < |adapters| && adapters[i].isValid && adapters[i].id == id
  }

  /** Adapters are filed by id, the value their `==` and hash look at: equal valid adapters
      take the same slot, and filing the second one replaces the first. */
  lemma EqualAdaptersShareSlot(dict: map<string, LinkAdapter>, adapters: seq<LinkAdapter>, a: LinkAdapter, b: LinkAdapter)
    requires SameAdapter(a, b) && a.isValid && b.isValid
    ensures IndexAdapters(dict, adapters + [a]).Keys == IndexAdapters(dict, adapters + [b]).Keys
    ensures IndexAdapters(dict, adapters + [a, b]) == IndexAdapters(dict, adapters + [b])
  {
    assert (adapters + [a])[..|adapters|] == adapters;
    assert (adapters + [b])[..|adapters|] == adapters;
    assert (adapters + [a, b])[..|adapters| + 1] == adapters + [a];
  }

  /** The filed ids are the old ones and those of the valid adapters; an id no valid adapter
      reports keeps its old adapter, and a reported id holds the last valid adapter with it. */
  lemma {:induction false} IndexAdaptersFacts(dict: map<string, LinkAdapter>, adapters: seq<LinkAdapter>)
    ensures var r := IndexAdapters(dict, adapters);
      && (forall id :: id in r <==> id in dict || ReportsId(adapters, id))
      && (forall id :: id in dict && !ReportsId(adapters, id) ==> r[id] == dict[id])
      && (forall i :: 0 <= i < |adapters| && adapters[i].isValid
            && (forall j :: i < j < |adapters| && adapters[j].isValid ==> adapters[j].id != adapters[i].id)
            ==> r[adapters[i].id] == adapters[i])
  {
    if |adapters| > 0 {
      var n := |adapters| - 1;
      var init := adapters[..n];
      var last := adapters[n];
      IndexAdaptersFacts(dict, init);
      forall id ensures ReportsId(adapters, id) <==> ReportsId(init, id) || (last.isValid && last.id == id) {
        if ReportsId(init, id) {
          var i :| 0 <= i < |init| && init[i].isValid && init[i].id == id;
          assert adapters[i] == init[i];
        }
        if ReportsId(adapters, id) && !(last.isValid && last.id == id) {
          var i :| 0 <= i < |adapters| && adapters[i].isValid && adapters[i].id == id;
          assert i < n && init[i] == adapters[i];
        }
      }
      forall i | 0 <= i < |adapters| && adapters[i].isValid
          && (forall j :: i < j < |adapters| && adapters[j].isValid ==> adapters[j].id != adapters[i].id)
        ensures IndexAdapters(dict, adapters)[adapters[i].id] == adapters[i]
      {
        if i < n {
          assert init[i] == adapters[i];
          assert forall j :: i < j < |init| && init[j].isValid ==> init[j].id != init[i].id by {
            forall j | i < j < |init| && init[j].isValid ensures init[j].id != init[i].id {
              assert init[j] == adapters[j];
            }
          }
        }
      }
    }
  }

  // ---------------------------------------------------------------------------------------
  // Bundles

  /** The `useInPairing` marks of a list of systems. */
  function Marks(systems: seq<MotionControlSystem>): (r: seq<bool>)
    reads systems
    ensures |r| == |systems| && forall i :: 0 <= i < |systems| ==> r[i] == systems[i].useInPairing
  {
    if |systems| == 0 then [] else Marks(systems[..|systems| - 1]) + [systems[|systems| - 1].useInPairing]
  }

  /** The MAC addresses of the marked systems, in list order. */
  function MarkedMacs(systems: seq<MotionControlSystem>, marks: seq<bool>): seq<string>
    requires |marks| == |systems|
  {
    if |systems| == 0 then []
    else
      var n := |systems| - 1;
      MarkedMacs(systems[..n], marks[..n]) + (if marks[n] then [systems[n].macAddress] else [])
  }

  /** A MAC is in the list exactly when a marked system has it. */
  lemma {:induction false} MarkedMacsMember(systems: seq<MotionControlSystem>, marks: seq<bool>, mac: string)
    requires |marks| == |systems|
    ensures mac in MarkedMacs(systems, marks) <==>
            exists i :: 0 <= i < |systems| && marks[i] && systems[i].macAddress == mac
  {
    if |systems| > 0 {
      var n := |systems| - 1;
      MarkedMacsMember(systems[..n], marks[..n], mac);
      if exists i :: 0 <= i < n && marks[..n][i] && systems[..n][i].macAddress == mac {
        var i :| 0 <= i < n && marks[..n][i] && systems[..n][i].macAddress == mac;
        assert marks[i] && systems[i].macAddress == mac;
      }
      if exists i :: 0 <= i < |systems| && marks[i] && systems[i].macAddress == mac {
        var i :| 0 <= i < |systems| && marks[i] && systems[i].macAddress == mac;
        if i < n {
          assert marks[..n][i] && systems[..n][i].macAddress == mac;
        }
      }
    }
  }

  /** The list is no longer than the systems, and empty exactly when no system is marked. */
  lemma {:induction false} MarkedMacsLength(systems: seq<MotionControlSystem>, marks: seq<bool>)
    requires |marks| == |systems|
    ensures |MarkedMacs(systems, marks)| <= |systems|
    ensures |MarkedMacs(systems, marks)| == 0 <==> forall i :: 0 <= i < |systems| ==> !marks[i]
  {
    if |systems| > 0 {
      var n := |systems| - 1;
      MarkedMacsLength(systems[..n], marks[..n]);
      if forall i :: 0 <= i < |systems| ==> !marks[i] {
        assert forall i :: 0 <= i < n ==> !marks[..n][i];
      }
      if exists i :: 0 <= i < n && marks[..n][i] {
        var i :| 0 <= i < n && marks[..n][i];
        assert marks[i];
      }
    }
  }

  /** The first MAC of the list is that of the first marked system. */
  lemma {:induction false} MarkedMacsFirst(systems: seq<MotionControlSystem>, marks: seq<bool>, i: int)
    requires |marks| == |systems| && 0 <= i < |systems| && marks[i]
    requires forall j :: 0 <= j < i ==> !marks[j]
    ensures |MarkedMacs(systems, marks)| > 0 && MarkedMacs(systems, marks)[0] == systems[i].macAddress
  {
    var n := |systems| - 1;
    if i < n {
      assert marks[..n][i];
      MarkedMacsFirst(systems[..n], marks[..n], i);
    } else {
      MarkedMacsLength(systems[..n], marks[..n]);
    }
  }

  /** The loop of `wirelessPairingCreateBundle` over systems with distinct MACs: the MACs of
      the marked systems in order, the first of them as master, and every mark cleared. */
  method CollectMarked(systems: seq<MotionControlSystem>) returns (pairingMacs: seq<string>, pairingMaster: Option<string>)
    requires forall i, j :: 0 <= i < j < |systems| ==> systems[i].macAddress != systems[j].macAddress
    modifies systems
    ensures pairingMacs == MarkedMacs(systems, old(Marks(systems)))
    ensures pairingMaster == (if |pairingMacs| > 0 then Some(pairingMacs[0]) else None)
    ensures forall i :: 0 <= i < |systems| ==> !systems[i].useInPairing
    ensures forall i :: 0 <= i < |systems| ==> systems[i].groupID == old(systems[i].groupID)
  {
    ghost var marks := Marks(systems);
    pairingMacs, pairingMaster := [], None;
    for i := 0 to |systems|
      invariant pairingMacs == MarkedMacs(systems[..i], marks[..i])
      invariant pairingMaster == (if |pairingMacs| > 0 then Some(pairingMacs[0]) else None)
      invariant forall j :: 0 <= j < i ==> !systems[j].useInPairing
      invariant forall j :: i <= j < |systems| ==> systems[j].useInPairing == marks[j]
      invariant forall j :: 0 <= j < |systems| ==> systems[j].groupID == old(systems[j].groupID)
    {
      var mcs := systems[i];
      assert systems[..i + 1][..i] == systems[..i];
      assert marks[..i + 1][..i] == marks[..i];
      if mcs.useInPairing {
        pairingMacs := pairingMacs + [mcs.macAddress];
        if pairingMaster == None {
          pairingMaster := Some(mcs.macAddress);
        }
        mcs.useInPairing := false;
      }
    }
    assert systems[..|systems|] == systems;
    assert marks[..|marks|] == marks;
  }

  // ---------------------------------------------------------------------------------------
  // Joystick moves

  /** The moving axes as (name, move value) pairs, in order. */
  function MovesOf(moving: seq<AxelStatus>): (r: seq<(AxelID, Double)>)
    reads moving
    ensures |r| == |moving| && forall i :: 0 <= i < |moving| ==> r[i] == (moving[i].axelName, moving[i].moveValue)
  {
    if |moving| == 0 then [] else MovesOf(moving[..|moving| - 1]) + [(moving[|moving| - 1].axelName, moving[|moving| - 1].moveValue)]
  }

  /** The view of a moving axis once its move has been sent: a last move stops the axis. */
  function Debounced(v: AxelView): AxelView {
    if v.isLastMove then v.(shouldMove := false, isLastMove := false) else v
  }

  /** A sent last move leaves the axis still and not on a last move, a move that is not the
      last leaves the axis as it was, and only the two joystick flags ever change. */
  lemma DebounceRules(v: AxelView)
    ensures v.isLastMove ==> !Debounced(v).shouldMove && !Debounced(v).isLastMove
    ensures !v.isLastMove ==> Debounced(v) == v
    ensures Debounced(Debounced(v)) == Debounced(v)
    ensures Debounced(v).(shouldMove := v.shouldMove, isLastMove := v.isLastMove) == v
  {
  }

  /** The names of the axes that should move. */
  function MovingIn(axes: map<AxelID, AxelView>): (r: set<AxelID>)
    ensures forall k :: k in r <==> k in axes && axes[k].shouldMove
  {
    set k | k in axes && axes[k].shouldMove
  }

  /** The axes once every moving one has had its move sent. */
  function JoystickSent(axes: map<AxelID, AxelView>): (r: map<AxelID, AxelView>)
    ensures r.Keys == axes.Keys
    ensures forall k :: k in axes ==> r[k] == if axes[k].shouldMove then Debounced(axes[k]) else axes[k]
  {
    map k | k in axes :: if axes[k].shouldMove then Debounced(axes[k]) else axes[k]
  }

  /** Sending moves leaves exactly the moving axes that were not on their last move still
      moving, changes no move value, and a second send (with no new joystick input) changes
      nothing more. */
  lemma JoystickSentRules(axes: map<AxelID, AxelView>)
    ensures forall k :: k in MovingIn(JoystickSent(axes)) <==> k in MovingIn(axes) && !axes[k].isLastMove
    ensures forall k :: k in axes ==> JoystickSent(axes)[k].moveValue == axes[k].moveValue
    ensures JoystickSent(JoystickSent(axes)) == JoystickSent(axes)
    ensures MovingIn(axes) == {} ==> JoystickSent(axes) == axes
  {
    var once := JoystickSent(axes);
    var twice := JoystickSent(once);
    forall k | k in twice ensures twice[k] == once[k] {
      DebounceRules(axes[k]);
    }
    SameEntries(twice, once);
    if MovingIn(axes) == {} {
      forall k | k in once ensures once[k] == axes[k] {
        assert k !in MovingIn(axes);
      }
      SameEntries(once, axes);
    }
  }

  /** A joystick request for the given axes: the command, and the raw name of exactly every
      moving axis bound to its move value. */
  ghost predicate IsJoystickRequestFor(r: Request, axes: map<AxelID, AxelView>) {
    && "command" in r && r["command"] == RString("joystickMove")
    && (forall a :: AxelRaw(a) in r <==> a in MovingIn(axes))
    && (forall a :: a in MovingIn(axes) ==> r[AxelRaw(a)] == RDouble(axes[a].moveValue))
  }

  /** What `joystickControlled` promises about the objects it returns, on the axis map and its
      view before any move is sent: each is the axis filed under its name and moves, every
      moving axis is among them, and no name comes twice. */
  ghost predicate ControlledBy(axes: map<AxelID, AxelStatus>, before: map<AxelID, AxelView>, moving: seq<AxelStatus>) {
    && before.Keys == axes.Keys
    && (forall k :: k in axes ==> axes[k].axelName == k)
    && (forall i :: 0 <= i < |moving| ==>
          moving[i].axelName in axes && axes[moving[i].axelName] == moving[i] && before[moving[i].axelName].shouldMove)
    && (forall k :: k in before && before[k].shouldMove ==> exists i :: 0 <= i < |moving| && moving[i].axelName == k)
    && (forall i, j :: 0 <= i < j < |moving| ==> moving[i].axelName != moving[j].axelName)
  }

  /** The moves of the controlled axes name each moving axis exactly once, with its move value. */
  lemma ControlledMoves(axes: map<AxelID, AxelStatus>, before: map<AxelID, AxelView>, moving: seq<AxelStatus>,
                        moves: seq<(AxelID, Double)>)
    requires ControlledBy(axes, before, moving)
    requires |moves| == |moving|
    requires forall i :: 0 <= i < |moving| ==> moves[i] == (moving[i].axelName, before[moving[i].axelName].moveValue)
    ensures IsJoystickRequestFor(JoystickRequest(moves), before)
    ensures |moving| == 0 <==> MovingIn(before) == {}
  {
    JoystickRequestKeys(moves);
    JoystickRequestValues(moves);
    var r := JoystickRequest(moves);
    forall a ensures AxelRaw(a) in r <==> a in MovingIn(before) {
      if a in MovingIn(before) {
        var i :| 0 <= i < |moving| && moving[i].axelName == a;
        assert moves[i].0 == a;
      }
    }
    forall a | a in MovingIn(before) ensures r[AxelRaw(a)] == RDouble(before[a].moveValue) {
      var i :| 0 <= i < |moving| && moving[i].axelName == a;
      assert moves[i] == (a, before[a].moveValue);
    }
    if |moving| > 0 {
      assert moving[0].axelName in MovingIn(before);
    }
  }

  /** The loop of `sendJoystickMove` over the controlled axes: each axis's raw name is bound to
      its move value, and every axis on its last move is stopped, so the axis map ends up as
      `JoystickSent` of its view before. */
  method ApplyMoves(moving: seq<AxelStatus>, ghost axes: map<AxelID, AxelStatus>, ghost before: map<AxelID, AxelView>,
                    ghost moves: seq<(AxelID, Double)>) returns (requestDict: Request)
    requires ControlledBy(axes, before, moving)
    requires forall k :: k in axes ==> axes[k].View() == before[k]
    requires |moves| == |moving| && forall i :: 0 <= i < |moving| ==> moves[i] == (moving[i].axelName, moving[i].moveValue)
    modifies moving
    ensures requestDict == JoystickRequest(moves)
    ensures forall k :: k in axes ==> axes[k].View() == JoystickSent(before)[k]
  {
    requestDict := GetCommand("joystickMove");
    for i := 0 to |moving|
      invariant requestDict == JoystickRequest(moves[..i])
      invariant forall j :: 0 <= j < i ==> moving[j].View() == Debounced(before[moving[j].axelName])
      invariant forall j :: i <= j < |moving| ==> moving[j].View() == before[moving[j].axelName]
    {
      var movingAxel := moving[i];
      assert moves[..i + 1][..i] == moves[..i] && moves[..i + 1][i] == moves[i];
      assert JoystickRequest(moves[..i + 1]) == JoystickRequest(moves[..i])[AxelRaw(moves[i].0) := RDouble(moves[i].1)];
      requestDict := requestDict[AxelRaw(movingAxel.axelName) := RDouble(movingAxel.moveValue)];
      Debounce(movingAxel);
      forall j | 0 <= j < |moving| && j != i ensures moving[j] != movingAxel {
        assert moving[j].axelName != moving[i].axelName;
      }
    }
    assert moves[..|moves|] == moves;
    forall k | k in axes ensures axes[k].View() == JoystickSent(before)[k] {
      if before[k].shouldMove {
        var i :| 0 <= i < |moving| && moving[i].axelName == k;
      } else {
        forall i | 0 <= i < |moving| ensures moving[i] != axes[k] {
          assert before[moving[i].axelName].shouldMove;
        }
      }
    }
  }

  /** The tail of one pass of that loop: an axis on its last move is stopped. */
  method Debounce(a: AxelStatus)
    modifies a
    ensures a.View() == Debounced(old(a.View()))
  {
    if a.isLastMove {
      a.shouldMove := false;
      a.isLastMove := false;
    }
  }

  // ---------------------------------------------------------------------------------------
  // The pairing-status reducer

  /** The running flags of the three polling loops. */
  datatype Loops = Loops(scan: bool, pairing: bool, periodic: bool)

  /** What a pairing-status reply leads to: the screen, the loops, and whether the axis map of
      the motion control status is emptied. */
  datatype Reduced = Reduced(state: ApiState, loops: Loops, clearsAxes: bool)

  /** `wirelessPairingStatus_Result` on the screen and loops it finds. A successful reply
      without a result returns at once. `connectionOk`, and a failed poll, swap the pairing
      loop for the periodic one and show the motion control interface; `problem` stops the
      pairing loop and goes back to the adapters; any other state, or none, changes nothing.
      Whenever the screen is then the motion control interface, the axes are emptied. */
  function PairingStatusOutcome(success: bool, reply: Option<Envelope<Option<PairState>>>,
                                state: ApiState, loops: Loops): Reduced
  {
    if success && reply.None? then Reduced(state, loops, false)
    else
      var (s, l) :=
        if !success || reply.value.payload == Some(ConnectionOk) then
          (ShowMotionControlInterface, loops.(pairing := false, periodic := true))
        else if reply.value.payload == Some(Problem) then
          (PresentLinkAdapters, loops.(pairing := false))
        else (state, loops);
      Reduced(s, l, s == ShowMotionControlInterface)
  }

  /** The rules of the pairing-status reducer. */
  lemma PairingStatusRules(success: bool, reply: Option<Envelope<Option<PairState>>>, state: ApiState, loops: Loops)
    ensures var r := PairingStatusOutcome(success, reply, state, loops);
      && ((!success || (reply.Some? && reply.value.payload == Some(ConnectionOk))) ==>
            r.state == ShowMotionControlInterface && !r.loops.pairing && r.loops.periodic
            && r.loops.scan == loops.scan && r.clearsAxes)
      && (success && reply.Some? && reply.value.payload == Some(Problem) ==>
            r.state == PresentLinkAdapters && r.loops == loops.(pairing := false) && !r.clearsAxes)
      && (success && (reply.None? || reply.value.payload !in {Some(ConnectionOk), Some(Problem)}) ==>
            r.state == state && r.loops == loops)
      && (r.clearsAxes <==> r.state == ShowMotionControlInterface && !(success && reply.None?))
  {
  }

  class EdelkroneApi {
    var scannedLinkAdapters: seq<LinkAdapter>
    var adapterDict: map<string, LinkAdapter>
    var scannedMotionControlSystems: seq<MotionControlSystem>
    var ungroupedMotionControlSystems: seq<MotionControlSystem>
    var motionControlSystemsDict: map<string, MotionControlSystem>
    var motionControlGroups: seq<PairingGroup>
    var motionControlGroupDict: map<int, PairingGroup>
    var isConnected: bool
    var isPaired: bool
    var hasAdapters: bool
    var connectedAdapterID: string
    var hasScannedMCS: bool
    var apiState: ApiState
    const periodicMCSStatus: PeriodicStatus
    const motionControlStatus: MotionControlStatus
    var scanResultThreadIsRunning: bool
    var pairingStatusThreadIsRunning: bool
    var periodicStatusThreadIsRunning: bool

    /** The group list and the group dictionary hold the same groups, each filed under its
        own id and keeping its master among its members, no id twice and never the no-group
        id. */
    ghost predicate GroupsInSync()
      reads this`motionControlGroups, this`motionControlGroupDict, motionControlGroupDict.Values
    {
      NoGroup !in motionControlGroupDict
      && (forall id :: id in motionControlGroupDict ==> motionControlGroupDict[id].Valid())
      && (forall i :: 0 <= i < |motionControlGroups| ==>
            motionControlGroups[i].groupID in motionControlGroupDict
            && motionControlGroupDict[motionControlGroups[i].groupID] == motionControlGroups[i])
      && (forall id :: id in motionControlGroupDict ==>
            motionControlGroupDict[id].groupID == id && motionControlGroupDict[id] in motionControlGroups)
      && (forall i, j :: 0 <= i < j < |motionControlGroups| ==>
            motionControlGroups[i].groupID != motionControlGroups[j].groupID)
    }

    /** The scanned list and the dictionary by MAC address hold the same systems, each filed
        under its MAC, and no MAC is scanned twice. */
    ghost predicate RegistryInSync()
      reads this`scannedMotionControlSystems, this`motionControlSystemsDict
    {
      (forall i :: 0 <= i < |scannedMotionControlSystems| ==>
         scannedMotionControlSystems[i].macAddress in motionControlSystemsDict
         && motionControlSystemsDict[scannedMotionControlSystems[i].macAddress] == scannedMotionControlSystems[i])
      && (forall mac :: mac in motionControlSystemsDict ==>
            motionControlSystemsDict[mac].macAddress == mac && HasMac(scannedMotionControlSystems, mac))
      && (forall i, j :: 0 <= i < j < |scannedMotionControlSystems| ==>
            scannedMotionControlSystems[i].macAddress != scannedMotionControlSystems[j].macAddress)
    }

    /** Every group filed now was filed under the same id before, or is new. */
    twostate predicate GroupsKept()
      reads this`motionControlGroupDict
    {
      forall id :: id in motionControlGroupDict ==>
        (id in old(motionControlGroupDict) && motionControlGroupDict[id] == old(motionControlGroupDict[id]))
        || fresh(motionControlGroupDict[id])
    }

    /** The members and master of the group filed under an id; none for an id without a group. */
    ghost function RosterOf(id: int): Roster
      reads this`motionControlGroupDict, motionControlGroupDict.Values
    {
      if id in motionControlGroupDict then motionControlGroupDict[id].View() else Roster([], None)
    }

    /** The groups filed in the group dictionary. */
    ghost function FiledGroups(): set<PairingGroup>
      reads this`motionControlGroupDict
    {
      set id | id in motionControlGroupDict :: motionControlGroupDict[id]
    }

    /** The group filed under an id is one of the filed groups. */
    lemma FiledGroup(id: int)
      ensures id in motionControlGroupDict ==> motionControlGroupDict[id] in FiledGroups()
    {
    }

    /** The systems filed in the dictionary by MAC address. */
    ghost function FiledSystems(): set<MotionControlSystem>
      reads this`motionControlSystemsDict
    {
      set mac | mac in motionControlSystemsDict :: motionControlSystemsDict[mac]
    }

    ghost predicate Valid()
      reads this`motionControlGroups, this`motionControlGroupDict, motionControlGroupDict.Values
      reads this`scannedMotionControlSystems, this`motionControlSystemsDict
      reads motionControlStatus`axelStatus
    {
      GroupsInSync() && RegistryInSync() && motionControlStatus.Valid()
    }

    /** `init()`: empty registries, nothing connected, the adapter screen, no loop running,
        and the default periodic and motion control status. */
    constructor ()
      ensures Valid()
      ensures scannedLinkAdapters == [] && adapterDict == map[]
      ensures scannedMotionControlSystems == [] && ungroupedMotionControlSystems == [] && motionControlSystemsDict == map[]
      ensures motionControlGroups == [] && motionControlGroupDict == map[]
      ensures !isConnected && !isPaired && !hasAdapters && connectedAdapterID == "" && !hasScannedMCS
      ensures apiState == PresentLinkAdapters
      ensures !scanResultThreadIsRunning && !pairingStatusThreadIsRunning && !periodicStatusThreadIsRunning
      ensures periodicMCSStatus.Snapshot() == DefaultSnapshot
      ensures motionControlStatus.View() == MergedView(StatusView(map[], false, 0, -1, OneDouble, ZeroDouble, Idle, []), DefaultSnapshot)
      ensures fresh(periodicMCSStatus) && fresh(motionControlStatus)
    {
      scannedLinkAdapters, adapterDict := [], map[];
      scannedMotionControlSystems, ungroupedMotionControlSystems, motionControlSystemsDict := [], [], map[];
      motionControlGroups, motionControlGroupDict := [], map[];
      isConnected, isPaired, hasAdapters, connectedAdapterID, hasScannedMCS := false, false, false, "", false;
      apiState := PresentLinkAdapters;
      scanResultThreadIsRunning, pairingStatusThreadIsRunning, periodicStatusThreadIsRunning := false, false, false;
      periodicMCSStatus := new PeriodicStatus.Default();
      motionControlStatus := new MotionControlStatus();
    }

    // -------------------------------------------------------------------------------------
    // Reset

    /** Everything `reset` clears apart from the dictionary of systems by MAC: no connection,
        no pairing, empty adapter and system lists, no group, no loop, the adapter screen. */
    ghost predicate ResetState()
      reads this
    {
      && !isConnected && !isPaired && !hasAdapters && !hasScannedMCS && connectedAdapterID == ""
      && scannedLinkAdapters == [] && adapterDict == map[]
      && scannedMotionControlSystems == [] && ungroupedMotionControlSystems == []
      && motionControlGroups == [] && motionControlGroupDict == map[]
      && !scanResultThreadIsRunning && !pairingStatusThreadIsRunning && !periodicStatusThreadIsRunning
      && apiState == PresentLinkAdapters
    }

    /** `reset` as written: it clears the flags, the lists and the groups, stops every loop and
        sends a disconnect (command `disconnect`, the raw value of the unnamed enum case) when
        there is a URL, but keeps `motionControlSystemsDict`. A system filed there is then in no
        list, and since a later scan only removes systems that are on the scanned list, it stays
        filed until a reply reports it again: the registry is out of sync whenever the
        dictionary was not empty. */
    method ResetAsWritten(urlAccepted: bool) returns (request: Option<Request>)
      modifies this`isConnected, this`isPaired, this`hasAdapters, this`hasScannedMCS, this`connectedAdapterID
      modifies this`scannedLinkAdapters, this`adapterDict, this`scannedMotionControlSystems
      modifies this`ungroupedMotionControlSystems, this`motionControlGroups, this`motionControlGroupDict
      modifies this`scanResultThreadIsRunning, this`pairingStatusThreadIsRunning, this`periodicStatusThreadIsRunning
      modifies this`apiState
      ensures ResetState() && GroupsInSync()
      ensures motionControlSystemsDict == old(motionControlSystemsDict)
      ensures old(motionControlSystemsDict) != map[] ==> !RegistryInSync()
      ensures request == if urlAccepted then Some(GetCommand("disconnect")) else None
    {
      ClearConnection();
      ClearRegistry();
      StopAllThreads();
      request := if urlAccepted then Some(GetCommand("disconnect")) else None;
      apiState := PresentLinkAdapters;
      if motionControlSystemsDict != map[] {
        var mac :| mac in motionControlSystemsDict;
        assert !HasMac(scannedMotionControlSystems, mac);
      }
    }

    /** The connection flags `reset` clears. */
    method ClearConnection()
      modifies this`isConnected, this`isPaired, this`hasAdapters, this`hasScannedMCS, this`connectedAdapterID
      ensures !isConnected && !isPaired && !hasAdapters && !hasScannedMCS && connectedAdapterID == ""
    {
      isConnected, isPaired, hasAdapters, hasScannedMCS := false, false, false, false;
      connectedAdapterID := "";
    }

    /** The lists and groups `reset` empties. */
    method ClearRegistry()
      modifies this`scannedLinkAdapters, this`adapterDict, this`scannedMotionControlSystems
      modifies this`ungroupedMotionControlSystems, this`motionControlGroups, this`motionControlGroupDict
      ensures scannedLinkAdapters == [] && adapterDict == map[]
      ensures scannedMotionControlSystems == [] && ungroupedMotionControlSystems == []
      ensures motionControlGroups == [] && motionControlGroupDict == map[]
    {
      scannedLinkAdapters, scannedMotionControlSystems := [], [];
      adapterDict := map[];
      ungroupedMotionControlSystems, motionControlGroups := [], [];
      motionControlGroupDict := map[];
    }

    /** `reset` as intended: the same, with the dictionary of systems emptied too, which puts
        the api back in the state `init` leaves it in (bar the two status objects). */
    method Reset(urlAccepted: bool) returns (request: Option<Request>)
      requires Valid()
      modifies this`isConnected, this`isPaired, this`hasAdapters, this`hasScannedMCS, this`connectedAdapterID
      modifies this`scannedLinkAdapters, this`adapterDict, this`scannedMotionControlSystems
      modifies this`ungroupedMotionControlSystems, this`motionControlGroups, this`motionControlGroupDict
      modifies this`scanResultThreadIsRunning, this`pairingStatusThreadIsRunning, this`periodicStatusThreadIsRunning
      modifies this`apiState, this`motionControlSystemsDict
      ensures Valid() && ResetState() && motionControlSystemsDict == map[]
      ensures request == if urlAccepted then Some(GetCommand("disconnect")) else None
    {
      request := ResetAsWritten(urlAccepted);
      motionControlSystemsDict := map[];
    }

    // -------------------------------------------------------------------------------------
    // Polling loops. A loop's thread handle is present exactly when its running flag is set:
    // starting sets both, and stopping clears both when the handle is present.

    /** `stopAllThreads`. */
    method StopAllThreads()
      modifies this`scanResultThreadIsRunning, this`pairingStatusThreadIsRunning, this`periodicStatusThreadIsRunning
      ensures !scanResultThreadIsRunning && !pairingStatusThreadIsRunning && !periodicStatusThreadIsRunning
    {
      StopScanResultsThread();
      StopPairingStatusThread();
      StopPeriodicStatusThread();
    }

    method StopScanResultsThread()
      modifies this`scanResultThreadIsRunning
      ensures !scanResultThreadIsRunning
    {
      if scanResultThreadIsRunning {
        scanResultThreadIsRunning := false;
      }
    }

    method StartScanResultsThread()
      modifies this`scanResultThreadIsRunning
      ensures scanResultThreadIsRunning
    {
      scanResultThreadIsRunning := true;
    }

    method StopPairingStatusThread()
      modifies this`pairingStatusThreadIsRunning
      ensures !pairingStatusThreadIsRunning
    {
      if pairingStatusThreadIsRunning {
        pairingStatusThreadIsRunning := false;
      }
    }

    method StartPairingStatusThread()
      modifies this`pairingStatusThreadIsRunning
      ensures pairingStatusThreadIsRunning
    {
      pairingStatusThreadIsRunning := true;
    }

    method StopPeriodicStatusThread()
      modifies this`periodicStatusThreadIsRunning
      ensures !periodicStatusThreadIsRunning
    {
      if periodicStatusThreadIsRunning {
        periodicStatusThreadIsRunning := false;
      }
    }

    method StartPeriodicStatusThread()
      modifies this`periodicStatusThreadIsRunning
      ensures periodicStatusThreadIsRunning
    {
      periodicStatusThreadIsRunning := true;
    }

    // -------------------------------------------------------------------------------------
    // Pairing groups

    /** `getPairingGroupFor(id:)`: none for the no-group id; otherwise the registered group,
        or a new empty group appended to the list and filed in the dictionary. */
    method GetPairingGroupFor(id: int) returns (group: Option<PairingGroup>)
      requires GroupsInSync()
      modifies this`motionControlGroups, this`motionControlGroupDict
      ensures GroupsInSync()
      ensures id == NoGroup ==> group == None
      ensures id != NoGroup ==> group.Some? && id in motionControlGroupDict && motionControlGroupDict[id] == group.value
      ensures id == NoGroup || id in old(motionControlGroupDict) ==>
                motionControlGroups == old(motionControlGroups) && motionControlGroupDict == old(motionControlGroupDict)
      ensures id != NoGroup && id !in old(motionControlGroupDict) ==>
                group.Some? && fresh(group.value) && group.value.groupedControlSystems == [] && group.value.groupMaster == None
                && motionControlGroups == old(motionControlGroups) + [group.value]
                && motionControlGroupDict == old(motionControlGroupDict)[id := group.value]
      ensures forall k :: RosterOf(k) == old(RosterOf(k))
    {
      if id == NoGroup {
        return None;
      }
      if id in motionControlGroupDict {
        return Some(motionControlGroupDict[id]);
      }
      var g := new PairingGroup(id);
      motionControlGroups := motionControlGroups + [g];
      motionControlGroupDict := motionControlGroupDict[id := g];
      group := Some(g);
    }

    /** `getPairingGroupFor(mcs.groupID)` followed by `addMotionControlSystem(mcs)`: a system
        of some group ends up in that group, which is created when missing. */
    method JoinGroup(mcs: MotionControlSystem)
      requires GroupsInSync()
      modifies this`motionControlGroups, this`motionControlGroupDict
      modifies if mcs.groupID in motionControlGroupDict then {motionControlGroupDict[mcs.groupID]} else {}
      ensures GroupsInSync() && GroupsKept()
      ensures mcs.groupID == NoGroup ==>
                motionControlGroups == old(motionControlGroups) && motionControlGroupDict == old(motionControlGroupDict)
      ensures mcs.groupID != NoGroup ==>
                mcs.groupID in motionControlGroupDict
                && HasMac(motionControlGroupDict[mcs.groupID].groupedControlSystems, mcs.macAddress)
                && RosterOf(mcs.groupID) == Joined(old(RosterOf(mcs.groupID)), mcs)
      ensures forall k :: k != mcs.groupID ==> RosterOf(k) == old(RosterOf(k))
      ensures forall k :: k in old(motionControlGroupDict) ==>
                k in motionControlGroupDict && motionControlGroupDict[k] == old(motionControlGroupDict[k])
      ensures forall k :: k in motionControlGroupDict && k != mcs.groupID ==> k in old(motionControlGroupDict)
      ensures forall k :: k in motionControlGroupDict && k !in old(motionControlGroupDict) ==> fresh(motionControlGroupDict[k])
    {
      var group := GetPairingGroupFor(mcs.groupID);
      if group.Some? {
        group.value.Add(mcs);
      }
    }

    /** `removeElementFromPairingGroup`: every member with the system's MAC leaves the group of
        the system's id (created first if missing), and a group left empty is deleted from
        both the dictionary and the list. */
    method RemoveElementFromPairingGroup(mcs: MotionControlSystem)
      requires GroupsInSync()
      modifies this`motionControlGroups, this`motionControlGroupDict
      modifies if mcs.groupID in motionControlGroupDict then {motionControlGroupDict[mcs.groupID]} else {}
      ensures GroupsInSync()
      ensures forall k :: k in motionControlGroupDict ==>
                k in old(motionControlGroupDict) && motionControlGroupDict[k] == old(motionControlGroupDict[k])
      ensures mcs.groupID !in old(motionControlGroupDict) ==>
                motionControlGroups == old(motionControlGroups) && motionControlGroupDict == old(motionControlGroupDict)
      ensures mcs.groupID in old(motionControlGroupDict) ==>
                var g := old(motionControlGroupDict[mcs.groupID]);
                g.groupedControlSystems == Without(old(g.groupedControlSystems), mcs.macAddress)
                && (g.groupedControlSystems != [] ==>
                      motionControlGroups == old(motionControlGroups) && motionControlGroupDict == old(motionControlGroupDict))
                && (g.groupedControlSystems == [] ==>
                      motionControlGroups == WithoutGroup(old(motionControlGroups), mcs.groupID)
                      && motionControlGroupDict == old(motionControlGroupDict) - {mcs.groupID})
      ensures RosterOf(mcs.groupID) == Left(old(RosterOf(mcs.groupID)), mcs.macAddress)
      ensures forall k :: k != mcs.groupID ==> RosterOf(k) == old(RosterOf(k))
    {
      var group := GetPairingGroupFor(mcs.groupID);
      if group.None? {
        return;
      }
      LeaveAndPrune(group.value, mcs);
      if mcs.groupID !in old(motionControlGroupDict) {
        WithoutGroupAppended(old(motionControlGroups), group.value);
        WithoutGroupAbsent(old(motionControlGroups), mcs.groupID);
        UpdateThenRemove(old(motionControlGroupDict), mcs.groupID, group.value);
      }
    }

    /** The tail of `removeElementFromPairingGroup`: the system leaves the registered group of
        its id, which is deleted from the dictionary and from the list once it has no members. */
    method LeaveAndPrune(g: PairingGroup, mcs: MotionControlSystem)
      requires GroupsInSync() && g.groupID == mcs.groupID
      requires g.groupID in motionControlGroupDict && motionControlGroupDict[g.groupID] == g
      modifies this`motionControlGroups, this`motionControlGroupDict, g
      ensures GroupsInSync()
      ensures g.View() == Left(old(g.View()), mcs.macAddress)
      ensures g.groupedControlSystems != [] ==>
                motionControlGroups == old(motionControlGroups) && motionControlGroupDict == old(motionControlGroupDict)
      ensures g.groupedControlSystems == [] ==>
                motionControlGroups == WithoutGroup(old(motionControlGroups), g.groupID)
                && motionControlGroupDict == old(motionControlGroupDict) - {g.groupID}
      ensures forall k :: k != g.groupID ==> RosterOf(k) == old(RosterOf(k))
    {
      g.Remove(mcs);
      if g.IsEmpty() {
        var id := g.groupID;
        ghost var before := motionControlGroups;
        motionControlGroupDict := motionControlGroupDict - {id};
        motionControlGroups := WithoutGroup(motionControlGroups, id);
        assert forall i :: 0 <= i < |before| && before[i] != g ==> before[i].groupID != id;
      }
      forall k | k != g.groupID ensures RosterOf(k) == old(RosterOf(k)) {
        if k in motionControlGroupDict {
          assert motionControlGroupDict[k] != g;
        }
      }
    }

    /** `updateMotionControlGroup`: for a system already registered under its MAC, the incoming
        record joins its group; when the registered record reports another group, it leaves
        the old group (and is appended to the ungrouped list if it had one), takes the new
        group id and joins the new group. An unregistered MAC changes nothing. */
    method UpdateMotionControlGroup(mcs: MotionControlSystem)
      requires GroupsInSync() && RegistryInSync()
      modifies this`motionControlGroups, this`motionControlGroupDict, this`ungroupedMotionControlSystems
      modifies if mcs.groupID in motionControlGroupDict then {motionControlGroupDict[mcs.groupID]} else {}
      modifies if mcs.macAddress in motionControlSystemsDict then {motionControlSystemsDict[mcs.macAddress]} else {}
      modifies if mcs.macAddress in motionControlSystemsDict && motionControlSystemsDict[mcs.macAddress].groupID in motionControlGroupDict
               then {motionControlGroupDict[motionControlSystemsDict[mcs.macAddress].groupID]} else {}
      ensures GroupsInSync() && GroupsKept()
      ensures motionControlSystemsDict == old(motionControlSystemsDict)
      ensures scannedMotionControlSystems == old(scannedMotionControlSystems)
      ensures mcs.groupID == old(mcs.groupID)
      ensures mcs.macAddress !in old(motionControlSystemsDict) ==>
                motionControlGroups == old(motionControlGroups) && motionControlGroupDict == old(motionControlGroupDict)
                && ungroupedMotionControlSystems == old(ungroupedMotionControlSystems)
                && unchanged(motionControlGroupDict.Values)
      ensures mcs.macAddress in old(motionControlSystemsDict) ==>
                var orig := old(motionControlSystemsDict[mcs.macAddress]);
                var oldID := old(orig.groupID);
                orig.groupID == mcs.groupID
                && ungroupedMotionControlSystems ==
                     old(ungroupedMotionControlSystems) + (if oldID != mcs.groupID && oldID != NoGroup then [orig] else [])
                && (mcs.groupID != NoGroup ==>
                      mcs.groupID in motionControlGroupDict && RosterOf(mcs.groupID) == Joined(old(RosterOf(mcs.groupID)), mcs))
                && (oldID != mcs.groupID && oldID != NoGroup ==>
                      RosterOf(oldID) == Left(old(RosterOf(oldID)), mcs.macAddress))
      ensures forall o: MotionControlSystem :: old(allocated(o)) && o.macAddress != mcs.macAddress ==> o.groupID == old(o.groupID)
    {
      if mcs.macAddress !in motionControlSystemsDict {
        return;
      }
      Relink(motionControlSystemsDict[mcs.macAddress], mcs);
    }

    /** `updateMotionControlGroup` for a registered record `orig` with the incoming record's
        MAC: the incoming record joins its group, and when `orig` reports another group it
        moves there. */
    method Relink(orig: MotionControlSystem, mcs: MotionControlSystem)
      requires GroupsInSync() && orig.macAddress == mcs.macAddress
      modifies this`motionControlGroups, this`motionControlGroupDict, this`ungroupedMotionControlSystems, orig
      modifies if mcs.groupID in motionControlGroupDict then {motionControlGroupDict[mcs.groupID]} else {}
      modifies if orig.groupID in motionControlGroupDict then {motionControlGroupDict[orig.groupID]} else {}
      ensures GroupsInSync() && GroupsKept()
      ensures orig.groupID == mcs.groupID == old(mcs.groupID)
      ensures ungroupedMotionControlSystems == old(ungroupedMotionControlSystems) +
                (if old(orig.groupID) != mcs.groupID && old(orig.groupID) != NoGroup then [orig] else [])
      ensures mcs.groupID != NoGroup ==>
                mcs.groupID in motionControlGroupDict && RosterOf(mcs.groupID) == Joined(old(RosterOf(mcs.groupID)), mcs)
      ensures old(orig.groupID) != mcs.groupID && old(orig.groupID) != NoGroup ==>
                RosterOf(old(orig.groupID)) == Left(old(RosterOf(orig.groupID)), mcs.macAddress)
    {
      ghost var source := RosterOf(orig.groupID);
      JoinGroup(mcs);
      if orig.groupID != mcs.groupID {
        assert RosterOf(orig.groupID) == source;
        Regroup(orig, mcs.groupID);
        RosterRules(old(RosterOf(mcs.groupID)), mcs, orig);
      }
    }

    /** The second half of `updateMotionControlGroup`: the registered record leaves its old
        group (joining the ungrouped list if it had one), takes the new id and joins that group. */
    method Regroup(orig: MotionControlSystem, newID: int)
      requires GroupsInSync() && orig.groupID != newID
      modifies this`motionControlGroups, this`motionControlGroupDict, this`ungroupedMotionControlSystems, orig
      modifies if orig.groupID in motionControlGroupDict then {motionControlGroupDict[orig.groupID]} else {}
      modifies if newID in motionControlGroupDict then {motionControlGroupDict[newID]} else {}
      ensures GroupsInSync() && GroupsKept()
      ensures orig.groupID == newID
      ensures ungroupedMotionControlSystems ==
                old(ungroupedMotionControlSystems) + (if old(orig.groupID) != NoGroup then [orig] else [])
      ensures old(orig.groupID) != NoGroup ==>
                RosterOf(old(orig.groupID)) == Left(old(RosterOf(orig.groupID)), orig.macAddress)
      ensures newID != NoGroup ==> newID in motionControlGroupDict && RosterOf(newID) == Joined(old(RosterOf(newID)), orig)
    {
      var oldID := orig.groupID;
      ghost var target := RosterOf(newID);
      if oldID != NoGroup {
        RemoveElementFromPairingGroup(orig);
        assert RosterOf(newID) == target;
      }
      ghost var source := RosterOf(oldID);
      Retag(orig, newID);
      assert RosterOf(newID) == target;
      assert RosterOf(oldID) == source;
      JoinGroup(orig);
    }

    /** The middle of the move: a record that had a group is appended to the ungrouped list,
        then takes the new id; no group changes. */
    method Retag(orig: MotionControlSystem, newID: int)
      modifies this`ungroupedMotionControlSystems, orig
      ensures orig.groupID == newID
      ensures ungroupedMotionControlSystems ==
                old(ungroupedMotionControlSystems) + (if old(orig.groupID) != NoGroup then [orig] else [])
      ensures old(GroupsInSync()) ==> GroupsInSync()
      ensures motionControlGroups == old(motionControlGroups) && motionControlGroupDict == old(motionControlGroupDict)
      ensures unchanged(motionControlGroupDict.Values)
      ensures forall k :: RosterOf(k) == old(RosterOf(k))
    {
      if orig.groupID != NoGroup {
        ungroupedMotionControlSystems := ungroupedMotionControlSystems + [orig];
      }
      orig.groupID := newID;
    }

    // -------------------------------------------------------------------------------------
    // Registry reconciliation

    /** Every scanned MAC is filed in the dictionary and every filed MAC is scanned. */
    lemma RegistryMacs()
      requires RegistryInSync()
      ensures forall mac :: mac in motionControlSystemsDict <==> HasMac(scannedMotionControlSystems, mac)
    {
      forall mac | HasMac(scannedMotionControlSystems, mac) ensures mac in motionControlSystemsDict {
        var i :| 0 <= i < |scannedMotionControlSystems| && scannedMotionControlSystems[i].macAddress == mac;
      }
    }

    /** `wirelessPairingScanResults_Result`: on success (whose reply must carry data), the
        registered MACs become exactly the reply's; known records keep their identity, records
        with a new MAC are registered (an ungrouped one also in the ungrouped list), vanished
        MACs leave the scanned list, the dictionary and the ungrouped list, the scanned list is
        the old one without the vanished systems followed by the new records in reply order,
        the ungrouped list gains only registered records, and the pairing
        screen is shown; the adapters, the connection flags, the loops and both status objects
        stay as they were. A failed reply changes nothing. */
    method WirelessPairingScanResultsResult(success: bool, reply: Option<Envelope<Option<seq<MotionControlSystem>>>>)
      requires Valid()
      requires success ==> reply.Some? && reply.value.payload.Some?
      modifies this`scannedMotionControlSystems, this`motionControlSystemsDict, this`ungroupedMotionControlSystems
      modifies this`motionControlGroups, this`motionControlGroupDict, this`hasScannedMCS, this`apiState
      modifies FiledGroups(), FiledSystems()
      modifies if reply.Some? && reply.value.payload.Some? then reply.value.payload.value else []
      ensures Valid()
      ensures !success ==> unchanged(this)
      ensures success ==>
                var incoming := reply.value.payload.value;
                ScanReconciled(incoming, old(GroupIds(incoming)),
                               old(scannedMotionControlSystems), old(motionControlSystemsDict), old(ungroupedMotionControlSystems),
                               scannedMotionControlSystems, motionControlSystemsDict, ungroupedMotionControlSystems)
                && (forall mac :: HasMac(scannedMotionControlSystems, mac) <==> HasMac(incoming, mac))
                && hasScannedMCS && apiState == PairMotionControlSystems
    {
      if success {
        var incoming := reply.value.payload.value;
        Reconcile(incoming);
        ShowScannedSystems();
      }
    }

    /** The end of `wirelessPairingScanResults_Result`: systems have been scanned and the
        pairing screen is shown. */
    method ShowScannedSystems()
      modifies this`hasScannedMCS, this`apiState
      ensures hasScannedMCS && apiState == PairMotionControlSystems
      ensures old(Valid()) ==> Valid()
    {
      hasScannedMCS := true;
      apiState := PairMotionControlSystems;
    }

    /** The two loops of the scan callback: the reply's records are absorbed, then the systems
        whose MAC the reply lacks are forgotten. */
    method Reconcile(incoming: seq<MotionControlSystem>)
      requires GroupsInSync() && RegistryInSync()
      modifies this`scannedMotionControlSystems, this`motionControlSystemsDict, this`ungroupedMotionControlSystems
      modifies this`motionControlGroups, this`motionControlGroupDict
      modifies FiledGroups(), FiledSystems(), incoming
      ensures GroupsInSync() && RegistryInSync()
      ensures unchanged(motionControlStatus)
      ensures ScanReconciled(incoming, old(GroupIds(incoming)),
                             old(scannedMotionControlSystems), old(motionControlSystemsDict), old(ungroupedMotionControlSystems),
                             scannedMotionControlSystems, motionControlSystemsDict, ungroupedMotionControlSystems)
      ensures forall mac :: HasMac(scannedMotionControlSystems, mac) <==> HasMac(incoming, mac)
    {
      ghost var ids0, scanned0, dict0, ungrouped0 :=
        GroupIds(incoming), scannedMotionControlSystems, motionControlSystemsDict, ungroupedMotionControlSystems;
      AbsorbScanned(incoming);
      ghost var scanned1, dict1, ungrouped1 := scannedMotionControlSystems, motionControlSystemsDict, ungroupedMotionControlSystems;
      DropVanished(incoming);
      ScanComposition(incoming, ids0, scanned0, dict0, ungrouped0, scanned1, dict1, ungrouped1,
                      scannedMotionControlSystems, motionControlSystemsDict, ungroupedMotionControlSystems);
      RegistryMacs();
    }

    /** The first loop of the scan callback: every record of the reply is registered when its
        MAC is new and then reconciled with its group. */
    method AbsorbScanned(incoming: seq<MotionControlSystem>)
      requires GroupsInSync() && RegistryInSync()
      modifies this`scannedMotionControlSystems, this`motionControlSystemsDict, this`ungroupedMotionControlSystems
      modifies this`motionControlGroups, this`motionControlGroupDict
      modifies FiledGroups(), FiledSystems(), incoming
      ensures GroupsInSync() && RegistryInSync() && GroupsKept()
      ensures unchanged(motionControlStatus)
      ensures AbsorbedUpTo(incoming, |incoming|, scannedMotionControlSystems, motionControlSystemsDict,
                           ungroupedMotionControlSystems, GroupIds(incoming), old(scannedMotionControlSystems),
                           old(motionControlSystemsDict), old(ungroupedMotionControlSystems), old(GroupIds(incoming)))
    {
      ghost var ids0 := GroupIds(incoming);
      assert scannedMotionControlSystems + NewRecords(motionControlSystemsDict, incoming[..0]) == scannedMotionControlSystems;
      for idx := 0 to |incoming|
        invariant GroupsInSync() && RegistryInSync() && GroupsKept()
        invariant AbsorbedUpTo(incoming, idx, scannedMotionControlSystems, motionControlSystemsDict,
                               ungroupedMotionControlSystems, GroupIds(incoming), old(scannedMotionControlSystems),
                               old(motionControlSystemsDict), old(ungroupedMotionControlSystems), ids0)
      {
        AbsorbNext(incoming, idx, old(scannedMotionControlSystems), old(motionControlSystemsDict),
                   old(ungroupedMotionControlSystems), ids0);
      }
    }

    /** One pass of the first loop, as progress: absorbing record `idx` extends the absorbed
        prefix by one. */
    method AbsorbNext(incoming: seq<MotionControlSystem>, idx: int, ghost scanned0: seq<MotionControlSystem>,
                      ghost dict0: map<string, MotionControlSystem>, ghost ungrouped0: seq<MotionControlSystem>, ghost ids0: seq<int>)
      requires 0 <= idx < |incoming| && GroupsInSync() && RegistryInSync()
      requires AbsorbedUpTo(incoming, idx, scannedMotionControlSystems, motionControlSystemsDict, ungroupedMotionControlSystems,
                            GroupIds(incoming), scanned0, dict0, ungrouped0, ids0)
      modifies this`scannedMotionControlSystems, this`motionControlSystemsDict, this`ungroupedMotionControlSystems
      modifies this`motionControlGroups, this`motionControlGroupDict, incoming[idx], FiledGroups()
      modifies if incoming[idx].macAddress in motionControlSystemsDict then {motionControlSystemsDict[incoming[idx].macAddress]} else {}
      ensures GroupsInSync() && RegistryInSync() && GroupsKept()
      ensures AbsorbedUpTo(incoming, idx + 1, scannedMotionControlSystems, motionControlSystemsDict, ungroupedMotionControlSystems,
                           GroupIds(incoming), scanned0, dict0, ungrouped0, ids0)
    {
      ghost var scanned, dict, ungrouped, ids :=
        scannedMotionControlSystems, motionControlSystemsDict, ungroupedMotionControlSystems, GroupIds(incoming);
      var k := incoming[idx];
      FiledGroup(k.groupID);
      if k.macAddress in motionControlSystemsDict {
        FiledGroup(motionControlSystemsDict[k.macAddress].groupID);
      }
      AbsorbOne(k);
      AbsorbStep(incoming, idx, scanned, dict, ungrouped, ids,
                 scannedMotionControlSystems, motionControlSystemsDict, ungroupedMotionControlSystems, GroupIds(incoming),
                 scanned0, dict0, ungrouped0, ids0);
    }

    /** The group ids a list of records carries. */
    function GroupIds(records: seq<MotionControlSystem>): (r: seq<int>)
      reads records
      ensures |r| == |records| && forall j :: 0 <= j < |records| ==> r[j] == records[j].groupID
    {
      seq(|records|, j requires 0 <= j < |records| reads records => records[j].groupID)
    }

    /** One pass of the first loop of the scan callback: a record with a MAC not yet scanned
        is appended and filed under its MAC (and listed as ungrouped when it has no group);
        then the record is reconciled with its group. */
    method AbsorbOne(k: MotionControlSystem)
      requires GroupsInSync() && RegistryInSync()
      modifies this`scannedMotionControlSystems, this`motionControlSystemsDict, this`ungroupedMotionControlSystems
      modifies this`motionControlGroups, this`motionControlGroupDict, k
      modifies if k.groupID in motionControlGroupDict then {motionControlGroupDict[k.groupID]} else {}
      modifies if k.macAddress in motionControlSystemsDict then {motionControlSystemsDict[k.macAddress]} else {}
      modifies if k.macAddress in motionControlSystemsDict && motionControlSystemsDict[k.macAddress].groupID in motionControlGroupDict
               then {motionControlGroupDict[motionControlSystemsDict[k.macAddress].groupID]} else {}
      ensures GroupsInSync() && RegistryInSync() && GroupsKept()
      ensures forall mac :: mac in motionControlSystemsDict <==> mac in old(motionControlSystemsDict) || mac == k.macAddress
      ensures forall mac :: mac in old(motionControlSystemsDict) ==>
                mac in motionControlSystemsDict && motionControlSystemsDict[mac] == old(motionControlSystemsDict[mac])
      ensures k.macAddress in old(motionControlSystemsDict) ==> scannedMotionControlSystems == old(scannedMotionControlSystems)
      ensures k.macAddress !in old(motionControlSystemsDict) ==>
                scannedMotionControlSystems == old(scannedMotionControlSystems) + [k]
                && motionControlSystemsDict[k.macAddress] == k
                && (old(k.groupID) == NoGroup ==> k in ungroupedMotionControlSystems)
      ensures k.groupID == old(k.groupID)
      ensures k.groupID != NoGroup ==>
                k.groupID in motionControlGroupDict && RosterOf(k.groupID) == Joined(old(RosterOf(k.groupID)), k)
      ensures forall o :: o in old(ungroupedMotionControlSystems) ==> o in ungroupedMotionControlSystems
      ensures forall o :: o in ungroupedMotionControlSystems ==>
                o in old(ungroupedMotionControlSystems) || (o.macAddress in motionControlSystemsDict && motionControlSystemsDict[o.macAddress] == o)
      ensures forall o: MotionControlSystem :: old(allocated(o)) && o.macAddress != k.macAddress ==> o.groupID == old(o.groupID)
    {
      Register(k);
      UpdateMotionControlGroup(k);
    }

    /** The registry part of one pass of the first loop: a record whose MAC is not yet
        scanned is appended, filed under its MAC, and listed as ungrouped when it has no group. */
    method Register(k: MotionControlSystem)
      requires RegistryInSync()
      modifies this`scannedMotionControlSystems, this`motionControlSystemsDict, this`ungroupedMotionControlSystems
      ensures RegistryInSync()
      ensures forall mac :: mac in motionControlSystemsDict <==> mac in old(motionControlSystemsDict) || mac == k.macAddress
      ensures forall mac :: mac in old(motionControlSystemsDict) ==>
                mac in motionControlSystemsDict && motionControlSystemsDict[mac] == old(motionControlSystemsDict[mac])
      ensures k.macAddress in old(motionControlSystemsDict) ==>
                scannedMotionControlSystems == old(scannedMotionControlSystems)
                && ungroupedMotionControlSystems == old(ungroupedMotionControlSystems)
      ensures k.macAddress !in old(motionControlSystemsDict) ==>
                scannedMotionControlSystems == old(scannedMotionControlSystems) + [k]
                && motionControlSystemsDict[k.macAddress] == k
                && ungroupedMotionControlSystems == old(ungroupedMotionControlSystems) + (if k.groupID == NoGroup then [k] else [])
    {
      RegistryMacs();
      if !HasMac(scannedMotionControlSystems, k.macAddress) {
        scannedMotionControlSystems := scannedMotionControlSystems + [k];
        motionControlSystemsDict := motionControlSystemsDict[k.macAddress := k];
        if k.groupID == NoGroup {
          ungroupedMotionControlSystems := ungroupedMotionControlSystems + [k];
        }
        forall mac ensures HasMac(scannedMotionControlSystems, mac) <==> HasMac(old(scannedMotionControlSystems), mac) || k.macAddress == mac {
          HasMacAppend(old(scannedMotionControlSystems), k, mac);
        }
      }
    }

    /** The second loop of the scan callback: every known system whose MAC the reply no longer
        carries is forgotten. */
    method DropVanished(incoming: seq<MotionControlSystem>)
      requires GroupsInSync() && RegistryInSync()
      modifies this`scannedMotionControlSystems, this`motionControlSystemsDict, this`ungroupedMotionControlSystems
      modifies this`motionControlGroups, this`motionControlGroupDict, FiledGroups()
      ensures GroupsInSync() && RegistryInSync()
      ensures unchanged(motionControlStatus)
      ensures Dropped(incoming, old(scannedMotionControlSystems), old(motionControlSystemsDict), old(ungroupedMotionControlSystems),
                      scannedMotionControlSystems, motionControlSystemsDict, ungroupedMotionControlSystems)
      ensures forall id :: id in motionControlGroupDict ==>
                id in old(motionControlGroupDict) && motionControlGroupDict[id] == old(motionControlGroupDict[id])
    {
      RegistryMacs();
      forall id | id in motionControlGroupDict ensures motionControlGroupDict[id] in FiledGroups() {
        FiledGroup(id);
      }
      var toRemove := Vanished(scannedMotionControlSystems, incoming);
      forall mac ensures HasMac(toRemove, mac) <==> HasMac(scannedMotionControlSystems, mac) && !HasMac(incoming, mac) {
        VanishedMacs(scannedMotionControlSystems, incoming, mac);
      }
      ghost var gone: set<string> := {};
      KeepingAll(scannedMotionControlSystems);
      for i := 0 to |toRemove|
        invariant GroupsInSync() && RegistryInSync()
        invariant Pruned(old(scannedMotionControlSystems), old(motionControlSystemsDict), old(ungroupedMotionControlSystems),
                         old(motionControlGroupDict), gone)
        invariant forall mac :: mac in gone <==> HasMac(toRemove[..i], mac)
        invariant forall id :: id in motionControlGroupDict ==> motionControlGroupDict[id] in old(FiledGroups())
      {
        GoneStep(toRemove, i, gone);
        var id := toRemove[i].groupID;
        if id in motionControlGroupDict {
          assert motionControlGroupDict[id] in old(FiledGroups());
        }
        ForgetNext(toRemove[i], old(scannedMotionControlSystems), old(motionControlSystemsDict), old(ungroupedMotionControlSystems),
                   old(motionControlGroupDict), gone);
        gone := gone + {toRemove[i].macAddress};
      }
      assert toRemove[..|toRemove|] == toRemove;
      ghost var scanned0 := old(scannedMotionControlSystems);
      forall i | 0 <= i < |scanned0|
        ensures scanned0[i].macAddress in gone <==> !HasMac(incoming, scanned0[i].macAddress)
      {
        assert HasMac(scanned0, scanned0[i].macAddress);
      }
      KeepingReported(scanned0, gone, incoming);
    }

    /** The MACs forgotten after one more pass of the second loop. */
    static lemma GoneStep(toRemove: seq<MotionControlSystem>, i: int, gone: set<string>)
      requires 0 <= i < |toRemove|
      requires forall mac :: mac in gone <==> HasMac(toRemove[..i], mac)
      ensures forall mac :: mac in gone + {toRemove[i].macAddress} <==> HasMac(toRemove[..i + 1], mac)
    {
      forall mac ensures HasMac(toRemove[..i + 1], mac) <==> HasMac(toRemove[..i], mac) || toRemove[i].macAddress == mac {
        HasMacPrefix(toRemove, i, mac);
      }
    }

    /** Relative to an earlier scanned list `scanned0`, registry `dict0`, ungrouped list
        `ungrouped0` and group dictionary `groups0`: exactly the MACs in `gone` are forgotten,
        from the scanned list (which keeps its order) and the registry; none of them is left in
        the ungrouped list, every other ungrouped system is kept and none is added, and no
        group was added or replaced. */
    ghost predicate Pruned(scanned0: seq<MotionControlSystem>, dict0: map<string, MotionControlSystem>,
                           ungrouped0: seq<MotionControlSystem>, groups0: map<int, PairingGroup>, gone: set<string>)
      reads this`scannedMotionControlSystems, this`motionControlSystemsDict, this`ungroupedMotionControlSystems
      reads this`motionControlGroupDict
    {
      scannedMotionControlSystems == Keeping(scanned0, gone)
      && (forall mac :: mac in motionControlSystemsDict <==> mac in dict0 && mac !in gone)
      && (forall mac :: mac in motionControlSystemsDict ==> motionControlSystemsDict[mac] == dict0[mac])
      && (forall mac :: mac in gone ==> !HasMac(ungroupedMotionControlSystems, mac))
      && (forall o :: o in ungrouped0 && o.macAddress !in gone ==> o in ungroupedMotionControlSystems)
      && (forall o :: o in ungroupedMotionControlSystems ==> o in ungrouped0)
      && (forall id :: id in motionControlGroupDict ==> id in groups0 && motionControlGroupDict[id] == groups0[id])
    }

    /** One pass of the second loop, as progress: forgetting one more system extends the
        forgotten MACs by its MAC. */
    method ForgetNext(removed: MotionControlSystem, ghost scanned0: seq<MotionControlSystem>,
                      ghost dict0: map<string, MotionControlSystem>, ghost ungrouped0: seq<MotionControlSystem>,
                      ghost groups0: map<int, PairingGroup>, ghost gone: set<string>)
      requires GroupsInSync() && RegistryInSync() && Pruned(scanned0, dict0, ungrouped0, groups0, gone)
      modifies this`scannedMotionControlSystems, this`motionControlSystemsDict, this`ungroupedMotionControlSystems
      modifies this`motionControlGroups, this`motionControlGroupDict
      modifies if removed.groupID in motionControlGroupDict then {motionControlGroupDict[removed.groupID]} else {}
      ensures GroupsInSync() && RegistryInSync() && Pruned(scanned0, dict0, ungrouped0, groups0, gone + {removed.macAddress})
    {
      Forget(removed);
      KeepingWithout(scanned0, gone, removed.macAddress);
    }

    /** The body of the second loop: a vanished system leaves the scanned list, the dictionary
        and the ungrouped list, and leaves its group when it has one. Groups are only ever
        deleted, and a surviving group is the same object. */
    method Forget(removed: MotionControlSystem)
      requires GroupsInSync() && RegistryInSync()
      modifies this`scannedMotionControlSystems, this`motionControlSystemsDict, this`ungroupedMotionControlSystems
      modifies this`motionControlGroups, this`motionControlGroupDict
      modifies if removed.groupID in motionControlGroupDict then {motionControlGroupDict[removed.groupID]} else {}
      ensures GroupsInSync() && RegistryInSync()
      ensures scannedMotionControlSystems == Without(old(scannedMotionControlSystems), removed.macAddress)
      ensures motionControlSystemsDict == old(motionControlSystemsDict) - {removed.macAddress}
      ensures ungroupedMotionControlSystems == Without(old(ungroupedMotionControlSystems), removed.macAddress)
      ensures forall mac :: HasMac(ungroupedMotionControlSystems, mac) ==> HasMac(old(ungroupedMotionControlSystems), mac)
      ensures forall id :: id in motionControlGroupDict ==>
                id in old(motionControlGroupDict) && motionControlGroupDict[id] == old(motionControlGroupDict[id])
      ensures removed.groupID != NoGroup && removed.groupID in old(motionControlGroupDict) ==>
                !HasMac(old(motionControlGroupDict[removed.groupID]).groupedControlSystems, removed.macAddress)
    {
      Unregister(removed.macAddress);
      if removed.groupID != NoGroup {
        ghost var s, d, u := scannedMotionControlSystems, motionControlSystemsDict, ungroupedMotionControlSystems;
        RemoveElementFromPairingGroup(removed);
        assert scannedMotionControlSystems == s && motionControlSystemsDict == d && ungroupedMotionControlSystems == u;
      }
    }

    /** The registry part of forgetting a system: its MAC leaves the scanned list, the
        dictionary and the ungrouped list. */
    method Unregister(mac: string)
      requires RegistryInSync()
      modifies this`scannedMotionControlSystems, this`motionControlSystemsDict, this`ungroupedMotionControlSystems
      ensures RegistryInSync()
      ensures scannedMotionControlSystems == Without(old(scannedMotionControlSystems), mac)
      ensures motionControlSystemsDict == old(motionControlSystemsDict) - {mac}
      ensures ungroupedMotionControlSystems == Without(old(ungroupedMotionControlSystems), mac)
      ensures forall m :: HasMac(ungroupedMotionControlSystems, m) ==> HasMac(old(ungroupedMotionControlSystems), m)
      ensures old(GroupsInSync()) ==> GroupsInSync()
    {
      UnfiledInSync(scannedMotionControlSystems, motionControlSystemsDict, mac);
      UnfiledSubset(ungroupedMotionControlSystems, mac);
      scannedMotionControlSystems := Without(scannedMotionControlSystems, mac);
      motionControlSystemsDict := motionControlSystemsDict - {mac};
      ungroupedMotionControlSystems := Without(ungroupedMotionControlSystems, mac);
    }

    /** Dropping one MAC from a scanned list and its dictionary keeps the two in step. */
    static lemma UnfiledInSync(s: seq<MotionControlSystem>, d: map<string, MotionControlSystem>, mac: string)
      requires forall i :: 0 <= i < |s| ==> s[i].macAddress in d && d[s[i].macAddress] == s[i]
      requires forall m :: m in d ==> d[m].macAddress == m && HasMac(s, m)
      requires forall i, j :: 0 <= i < j < |s| ==> s[i].macAddress != s[j].macAddress
      ensures var s', d' := Without(s, mac), d - {mac};
              (forall i :: 0 <= i < |s'| ==> s'[i].macAddress in d' && d'[s'[i].macAddress] == s'[i])
              && (forall m :: m in d' ==> d'[m].macAddress == m && HasMac(s', m))
              && (forall i, j :: 0 <= i < j < |s'| ==> s'[i].macAddress != s'[j].macAddress)
    {
      var s', d' := Without(s, mac), d - {mac};
      forall m | m in d' ensures HasMac(s', m) {
        WithoutFacts(s, mac, m);
      }
      forall i | 0 <= i < |s'| ensures s'[i].macAddress in d' && d'[s'[i].macAddress] == s'[i] {
        var j :| 0 <= j < |s| && s[j] == s'[i];
      }
    }

    /** Every MAC left after dropping one was there before. */
    static lemma UnfiledSubset(u: seq<MotionControlSystem>, mac: string)
      ensures forall m :: HasMac(Without(u, mac), m) ==> HasMac(u, m)
    {
      forall m | HasMac(Without(u, mac), m) ensures HasMac(u, m) {
        WithoutFacts(u, mac, m);
      }
    }

    // -------------------------------------------------------------------------------------
    // Link adapters and the connection

    /** `scanLinkAdaptersResult`: for a successful reply that decoded without a message (its
        data must be present), every valid adapter is appended and filed under its id, and
        `hasAdapters` tells whether any adapter is known; otherwise nothing changes. */
    method ScanLinkAdaptersResult(success: bool, reply: Option<Envelope<Option<seq<LinkAdapter>>>>)
      requires success && reply.Some? && reply.value.message.None? ==> reply.value.payload.Some?
      modifies this`scannedLinkAdapters, this`adapterDict, this`hasAdapters
      ensures !(success && reply.Some? && reply.value.message.None?) ==>
                scannedLinkAdapters == old(scannedLinkAdapters) && adapterDict == old(adapterDict)
                && hasAdapters == old(hasAdapters)
      ensures success && reply.Some? && reply.value.message.None? ==>
                var data := reply.value.payload.value;
                scannedLinkAdapters == old(scannedLinkAdapters) + ValidOnly(data)
                && adapterDict == IndexAdapters(old(adapterDict), data)
                && (hasAdapters <==> |scannedLinkAdapters| > 0)
    {
      if success {
        if reply.Some? && reply.value.message.None? {
          var data := reply.value.payload.value;
          hasAdapters := true;
          FileAdapters(data);
          hasAdapters := |scannedLinkAdapters| > 0;
        }
      }
    }

    /** The loop of `scanLinkAdaptersResult`: every valid adapter of the reply, in order, is
        appended to the scanned list and filed under its id; invalid ones are skipped. */
    method FileAdapters(data: seq<LinkAdapter>)
      modifies this`scannedLinkAdapters, this`adapterDict
      ensures scannedLinkAdapters == old(scannedLinkAdapters) + ValidOnly(data)
      ensures adapterDict == IndexAdapters(old(adapterDict), data)
    {
      ghost var scanned0, dict0 := scannedLinkAdapters, adapterDict;
      for i := 0 to |data|
        invariant scannedLinkAdapters == scanned0 + ValidOnly(data[..i])
        invariant adapterDict == IndexAdapters(dict0, data[..i])
      {
        var k := data[i];
        FilingStep(dict0, data, i);
        if k.isValid {
          scannedLinkAdapters := scannedLinkAdapters + [k];
          adapterDict := adapterDict[k.id := k];
        }
      }
      assert data[..|data|] == data;
    }

    /** `wirelessPairingScanStart(adapter:)`: with a URL the scan-start request is sent (its
        reply goes to `WirelessPairingScanStartResult`); without one the connection is dropped
        and the adapter marked disconnected. */
    method WirelessPairingScanStart(adapter: LinkAdapter, urlAccepted: bool) returns (request: Option<Request>)
      modifies this`isConnected, this`connectedAdapterID, adapter`isConnected
      ensures urlAccepted ==> request == Some(GetCommand("wirelessPairingScanStart"))
                              && isConnected == old(isConnected) && connectedAdapterID == old(connectedAdapterID)
                              && adapter.isConnected == old(adapter.isConnected)
      ensures !urlAccepted ==> request == None && !isConnected && connectedAdapterID == "" && !adapter.isConnected
    {
      if urlAccepted {
        request := Some(GetCommand("wirelessPairingScanStart"));
      } else {
        isConnected := false;
        connectedAdapterID := "";
        adapter.isConnected := false;
        request := None;
      }
    }

    /** `wirelessPairingScanStart_Result`: without an adapter as context the connection is
        dropped; otherwise a success connects to that adapter and starts the scan-results
        loop, and a failure disconnects it. */
    method WirelessPairingScanStartResult(success: bool, context: Option<LinkAdapter>)
      modifies this`isConnected, this`connectedAdapterID, this`scanResultThreadIsRunning
      modifies if context.Some? then {context.value} else {}
      ensures context.None? ==>
                !isConnected && connectedAdapterID == "" && scanResultThreadIsRunning == old(scanResultThreadIsRunning)
      ensures context.Some? && success ==>
                isConnected && context.value.isConnected && connectedAdapterID == context.value.id
                && scanResultThreadIsRunning
      ensures context.Some? && !success ==>
                !isConnected && !context.value.isConnected && connectedAdapterID == ""
                && scanResultThreadIsRunning == old(scanResultThreadIsRunning)
    {
      if context.None? {
        connectedAdapterID := "";
        isConnected := false;
        return;
      }
      var adapter := context.value;
      if success {
        isConnected := true;
        adapter.isConnected := true;
        connectedAdapterID := adapter.id;
        StartScanResultsThread();
      } else {
        isConnected := false;
        adapter.isConnected := false;
        connectedAdapterID := "";
      }
    }

    /** `disconnectResult`: on success every loop stops, the connected adapter (which must be
        filed) is marked disconnected when its id is set, and a new scan is started on it,
        showing the pairing screen. A failure changes nothing. */
    method DisconnectResult(success: bool, urlAccepted: bool) returns (request: Option<Request>)
      requires success ==> connectedAdapterID in adapterDict
      modifies this`scanResultThreadIsRunning, this`pairingStatusThreadIsRunning, this`periodicStatusThreadIsRunning
      modifies this`isConnected, this`connectedAdapterID, this`apiState
      modifies if connectedAdapterID in adapterDict then {adapterDict[connectedAdapterID]} else {}
      ensures !success ==> request == None && unchanged(this)
                           && (old(connectedAdapterID) in adapterDict ==> unchanged(adapterDict[old(connectedAdapterID)]))
      ensures success ==>
                var adapter := adapterDict[old(connectedAdapterID)];
                !scanResultThreadIsRunning && !pairingStatusThreadIsRunning && !periodicStatusThreadIsRunning
                && !isConnected && apiState == PairMotionControlSystems
                && (old(connectedAdapterID) != "" || !urlAccepted ==> !adapter.isConnected)
                && (old(connectedAdapterID) == "" && urlAccepted ==> adapter.isConnected == old(adapter.isConnected))
                && (urlAccepted ==> request == Some(GetCommand("wirelessPairingScanStart"))
                                    && connectedAdapterID == old(connectedAdapterID))
                && (!urlAccepted ==> request == None && connectedAdapterID == "")
    {
      if !success {
        return None;
      }
      StopAllThreads();
      if connectedAdapterID != "" {
        if connectedAdapterID in adapterDict {
          adapterDict[connectedAdapterID].isConnected := false;
        }
      }
      isConnected := false;
      request := WirelessPairingScanStart(adapterDict[connectedAdapterID], urlAccepted);
      apiState := PairMotionControlSystems;
    }

    // -------------------------------------------------------------------------------------
    // Bundles

    /** `wirelessPairingCreateBundle`: the MACs of the systems marked for pairing, in scan
        order, with the first of them as forced master; every mark is cleared. With a URL the
        request is sent. */
    method WirelessPairingCreateBundle(urlAccepted: bool) returns (request: Option<Request>)
      requires RegistryInSync()
      modifies scannedMotionControlSystems
      ensures forall i :: 0 <= i < |scannedMotionControlSystems| ==> !scannedMotionControlSystems[i].useInPairing
      ensures forall i :: 0 <= i < |scannedMotionControlSystems| ==>
                scannedMotionControlSystems[i].groupID == old(scannedMotionControlSystems[i].groupID)
      ensures request.Some? <==> urlAccepted
      ensures request.Some? ==>
                var macs := MarkedMacs(scannedMotionControlSystems, old(Marks(scannedMotionControlSystems)));
                request.value == CreateBundleRequest(macs, if |macs| > 0 then Some(macs[0]) else None)
    {
      var systems := scannedMotionControlSystems;
      assert forall i, j :: 0 <= i < j < |systems| ==> systems[i].macAddress != systems[j].macAddress;
      var pairingMacs, pairingMaster := CollectMarked(systems);
      assert scannedMotionControlSystems == systems;
      if urlAccepted {
        request := Some(CreateBundleRequest(pairingMacs, pairingMaster));
      } else {
        request := None;
      }
    }

    /** `wirelessPairingCreateBundle_Result`: a success swaps the scan-results loop for the
        pairing-status loop. */
    method CreateBundleResult(success: bool)
      modifies this`scanResultThreadIsRunning, this`pairingStatusThreadIsRunning
      ensures success ==> !scanResultThreadIsRunning && pairingStatusThreadIsRunning
      ensures !success ==> scanResultThreadIsRunning == old(scanResultThreadIsRunning)
                           && pairingStatusThreadIsRunning == old(pairingStatusThreadIsRunning)
    {
      if success {
        StopScanResultsThread();
        StartPairingStatusThread();
      }
    }

    /** `attachToBundle_Result`: a success shows the motion control interface, stops every
        loop, empties the axis map and starts the periodic loop. */
    method AttachToBundleResult(success: bool)
      requires Valid()
      modifies this`scanResultThreadIsRunning, this`pairingStatusThreadIsRunning, this`periodicStatusThreadIsRunning
      modifies this`apiState, motionControlStatus`axelStatus
      ensures Valid()
      ensures success ==> apiState == ShowMotionControlInterface && motionControlStatus.axelStatus == map[]
                          && !scanResultThreadIsRunning && !pairingStatusThreadIsRunning && periodicStatusThreadIsRunning
      ensures !success ==> unchanged(this) && unchanged(motionControlStatus)
    {
      if success {
        apiState := ShowMotionControlInterface;
        StopAllThreads();
        motionControlStatus.axelStatus := map[];
        StartPeriodicStatusThread();
      }
    }

    // -------------------------------------------------------------------------------------
    // Pairing status, the periodic status and the connected adapter

    /** The loops' running flags. */
    function RunningLoops(): Loops
      reads this`scanResultThreadIsRunning, this`pairingStatusThreadIsRunning, this`periodicStatusThreadIsRunning
    {
      Loops(scanResultThreadIsRunning, pairingStatusThreadIsRunning, periodicStatusThreadIsRunning)
    }

    /** `wirelessPairingStatus_Result`: the screen and loops become what the reducer says,
        and the axis map is emptied when it says so. */
    method WirelessPairingStatusResult(success: bool, reply: Option<Envelope<Option<PairState>>>)
      requires Valid()
      modifies this`scanResultThreadIsRunning, this`pairingStatusThreadIsRunning, this`periodicStatusThreadIsRunning
      modifies this`apiState, motionControlStatus`axelStatus
      ensures Valid()
      ensures var r := PairingStatusOutcome(success, reply, old(apiState), old(RunningLoops()));
        apiState == r.state && RunningLoops() == r.loops
        && motionControlStatus.axelStatus == (if r.clearsAxes then map[] else old(motionControlStatus.axelStatus))
    {
      if success {
        if reply.None? {
          return;
        }
        match reply.value.payload {
          case None =>
          case Some(PairIdle) =>
          case Some(Connecting) =>
          case Some(ConnectionOk) =>
            StopPairingStatusThread();
            StartPeriodicStatusThread();
            apiState := ShowMotionControlInterface;
          case Some(Problem) =>
            StopPairingStatusThread();
            apiState := PresentLinkAdapters;
        }
      } else {
        StopPairingStatusThread();
        StartPeriodicStatusThread();
        apiState := ShowMotionControlInterface;
      }
      if apiState == ShowMotionControlInterface {
        motionControlStatus.axelStatus := map[];
      }
    }

    /** `attachConnectedAdapter(adapterID:)`: shows the motion control interface for that
        adapter with an empty axis map and starts the periodic loop. */
    method AttachConnectedAdapter(adapterID: string)
      requires Valid()
      modifies this`apiState, this`connectedAdapterID, this`periodicStatusThreadIsRunning, motionControlStatus`axelStatus
      ensures Valid()
      ensures apiState == ShowMotionControlInterface && connectedAdapterID == adapterID
      ensures motionControlStatus.axelStatus == map[] && periodicStatusThreadIsRunning
    {
      apiState := ShowMotionControlInterface;
      connectedAdapterID := adapterID;
      motionControlStatus.axelStatus := map[];
      StartPeriodicStatusThread();
    }

    /** `getPeriodicStatus_Result`: whatever the success flag, a decoded status (a new object
        whose battery entries cover its axes) is merged into the periodic status and then into
        the motion control status; without one nothing changes. */
    method GetPeriodicStatusResult(success: bool, reply: Option<Envelope<PeriodicStatus>>)
      requires Valid()
      requires reply.Some? ==> reply.value.payload != periodicMCSStatus
                               && reply.value.payload.Snapshot().BatteryLevelsReadable()
      modifies periodicMCSStatus, motionControlStatus, motionControlStatus.axelStatus.Values
      ensures Valid()
      ensures reply.None? ==> unchanged(periodicMCSStatus) && unchanged(motionControlStatus)
      ensures reply.Some? ==>
                periodicMCSStatus.Snapshot() == MergedSnapshot(old(periodicMCSStatus.Snapshot()), old(reply.value.payload.Snapshot()))
                && motionControlStatus.View() == MergedView(old(motionControlStatus.View()), old(reply.value.payload.Snapshot()))
    {
      if reply.None? {
        return;
      }
      var k := reply.value.payload;
      periodicMCSStatus.MergeFrom(k);
      motionControlStatus.Merge(k.Snapshot());
    }

    // -------------------------------------------------------------------------------------
    // Joystick moves

    /** `sendJoystickMove`: when some axis should move, one joystick request binds the raw
        name of every moving axis to its move value, and is sent when there is a URL; every
        moving axis on its last move is stopped either way. With no moving axis nothing is
        built and nothing changes. */
    method SendJoystickMove(urlAccepted: bool) returns (request: Option<Request>)
      requires Valid()
      modifies motionControlStatus.axelStatus.Values
      ensures motionControlStatus.AxesView() == JoystickSent(old(motionControlStatus.AxesView()))
      ensures request.Some? <==> urlAccepted && MovingIn(old(motionControlStatus.AxesView())) != {}
      ensures request.Some? ==> IsJoystickRequestFor(request.value, old(motionControlStatus.AxesView()))
    {
      ghost var axes := motionControlStatus.axelStatus;
      ghost var before := motionControlStatus.AxesView();
      var controlled := motionControlStatus.JoystickControlled();
      ghost var moves := MovesOf(controlled);
      assert ControlledBy(axes, before, controlled);
      ControlledMoves(axes, before, controlled, moves);
      if |controlled| == 0 {
        JoystickSentRules(before);
        request := None;
      } else {
        var requestDict := ApplyMoves(controlled, axes, before, moves);
        SameEntries(motionControlStatus.AxesView(), JoystickSent(before));
        request := if urlAccepted then Some(requestDict) else None;
      }
    }
  }
}
