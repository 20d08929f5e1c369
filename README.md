# edelkroneAPI in Dafny

A model of the client side of the edelkrone HTTP API as the Swift package `edelkroneAPI`
implements it. The package talks to edelkrone link adapters and to the motion control systems
(MCS) paired with them. This model covers:

- the registry of scanned link adapters and motion control systems, keyed by link id and by
  MAC address;
- the pairing groups built from the registry, with one master per group;
- the connection screens (`presentLinkAdapters`, `pairMotionControlSystems`,
  `showMotionControlInterface`) and the three polling loops, each of which runs or does not;
- the periodic bundle status and the live motion control status that the interface shows;
- the requests the API builds: joystick moves, bundle creation, attaching to a bundle,
  request URLs, and the rule that decides whether a reply succeeded;
- keypose snapshots, and the small value tables (axis ranks, calibratable devices, degrees of
  freedom).

Modules follow the source:

- `Base` (base.dfy): axis names, device kinds, motion states and the opaque `Double`.
- `Degrees` (degrees.dfy): the `DegreeOfFreedom` option set.
- `Records` (records.dfy): the MCS and link-adapter records and their decoders.
- `Periodic` (periodic.dfy): `PeriodicStatus`, its accessors and its `&=`.
- `Status` (status.dfy): `AxelStatus` and `MotionControlStatus` with its `&=`.
- `Groups` (groups.dfy): `PairingGroup`.
- `Commands` (commands.dfy): request dictionaries, URLs and the completion rule.
- `Keypose` (keypose.dfy): keypose axes, slots and containers.
- `Api` (api.dfy): the `edelkroneAPI` object itself.

Objects the source mutates in place are classes. These are the API object, the status
objects, the axis statuses, the groups, the MCS records (their `groupID` and `useInPairing`)
and the adapters (their `isConnected`). Their methods are proved against pure definitions of
the new state:

- `MergedSnapshot`, `MergedView`, `ReconciledAxes`;
- `JoystickSent` and `JoystickRequest`;
- `ValidOnly` and `IndexAdapters`;
- `MarkedMacs` and `CreateBundleRequest`;
- `Without`, `WithoutGroup` and `Vanished`;
- `PairingStatusOutcome`.

Lemmas prove what the source promises about each of these definitions. Loops that update
state (the merge, the keypose captures, the scan and bundle loops, the joystick send, the
readings decoder) are `while`/`for` loops with invariants. The `removeAll(where:)` filters and
the first-index searches of the accessors are recursive functions (`Without`, `WithoutGroup`,
`FirstIndexOf`) with lemmas about them. The API object keeps three invariants: the
group list and group dictionary stay in sync, the scanned MCS list and the dictionary by MAC
stay in sync, and every axis status is filed under its own name.

Inputs from outside the program become parameters:

- the decoded reply (`Option` of an envelope with an optional `message`) and the success
  flag;
- whether `URL(string:)` accepted the URL (`urlAccepted`);
- host and port for `getURL`.

Methods that send a request return the request dictionary they would send (`Option<Request>`).

## Model

| member | source | states |
|---|---|---|
| Base.ValueTable | Sources/edelkroneAPI/edelkroneModels.swift:429-442 | both pan axes rank 0, both tilt axes 1, the slide 2 and the focus 3, each as an if-and-only-if |
| Base.LessIsStrictWeakOrder | Sources/edelkroneAPI/edelkroneModels.swift:425-427 | `<` is irreflexive, asymmetric and transitive, and incomparability is transitive; `headPan` and `jibPlusPan` are distinct yet neither is less than the other, so the order is not total |
| Base.AxelFromRaw | Sources/edelkroneAPI/edelkroneModels.swift:421-423 | a decoded axis has exactly the given raw name; decoding fails exactly when no axis has it |
| Base.AxelRawRoundTrip | Sources/edelkroneAPI/edelkroneModels.swift:421-423 | decoding the raw name of an axis gives that axis back |
| Base.AxelLabelInjective | Sources/edelkroneAPI/edelkroneModels.swift:444-459 | no two axes share a display label |
| Base.CanCalibrateExactly | Sources/edelkroneAPI/edelkroneModels.swift:123-136 | a device cannot be calibrated exactly when it is sliderOne, sliderOnePro, dollyOne, dollyPlus or dollyPlusPro |
| Base.DeviceFromRaw | Sources/edelkroneAPI/edelkroneModels.swift:105-121 | a decoded device has exactly the given raw name; decoding fails exactly when no device has it |
| Base.DeviceRawRoundTrip | Sources/edelkroneAPI/edelkroneModels.swift:105-121 | decoding the raw name of a device gives that device back |
| Degrees.NumberOfFreedoms | Sources/edelkroneAPI/DataTypes.swift:28-37 | the count is at most 2; it is 0 exactly when neither the horizontal nor the vertical bit is set, and 2 exactly when both are |
| Degrees.NumberOfFreedomsTable | Sources/edelkroneAPI/DataTypes.swift:18-37 | `.none` counts 0, `.horizontal` 1, `.vertical` 1 and `.all` 2 |
| Degrees.NumberOfFreedomsIgnoresOtherBits | Sources/edelkroneAPI/DataTypes.swift:28-37 | raw-value bits other than 1 and 2 do not change the count |
| Degrees.AllIsUnion | Sources/edelkroneAPI/DataTypes.swift:18-21 | `.all` has raw value 3, contains both directions, and a set contains `.all` exactly when it contains both |
| Degrees.HashKey | Sources/edelkroneAPI/DataTypes.swift:25-27 | two option sets feed the hasher the same value exactly when they are equal |
| Records.IndicatorsDisjoint | Sources/edelkroneAPI/Models/MotionControlSystem.swift:55-61 | no setup string is in two of the master, member and unpaired lists; there are 20 master indicators |
| Records.DecodeMcs | Sources/edelkroneAPI/Models/MotionControlSystem.swift:145-172 | decoding succeeds exactly when every required key has the right kind; `isTilted` holds exactly when the wire `isTilted` is the integer 1 (missing counts as 0); `linkPairigingActive` holds whenever the key holds any Bool; `useInPairing` starts false; group id, MAC and setup come from `groupId`, `mac` and `setup` |
| Records.MotionControlSystem.Default | Sources/edelkroneAPI/Models/MotionControlSystem.swift:130-143 | the parameterless record has no group (65535), setup "none", is not marked for pairing, not tilted, and is a headOne |
| Records.McsIdentity | Sources/edelkroneAPI/Models/MotionControlSystem.swift:40-53 | equal records hash alike (the `Hashable` law, with the MAC as the hash input), and two records are equal exactly when their `id`s agree |
| Records.DecodeLinkAdapter | Sources/edelkroneAPI/Models/LinkAdapter.swift:69-99 | decoding succeeds exactly when every required key decodes (the connection type must be a known case); a decoded adapter is never connected; `firmwareCorrupted` is nil exactly when its key is missing or not a Bool; `isPaired`, `id` and `isValid` come from `isPairingDone`, `linkID` and `isValid` |
| Records.AdapterIdentity | Sources/edelkroneAPI/Models/LinkAdapter.swift:43-51 | equal adapters hash alike (the `Hashable` law, with the link id as the hash input) |
| Periodic.FirstIndexOfIsFirst | Sources/edelkroneAPI/Models/ReturnValues.swift:267-274 | the search returns the first position holding the name, and finds nothing exactly when no position holds it |
| Periodic.MergedAxes | Sources/edelkroneAPI/Models/ReturnValues.swift:305-353 | the axis array kept by `&=` matches the incoming one name by name and is one of the two arrays |
| Periodic.MergedAxesKeepsStaleDevice | Sources/edelkroneAPI/Models/ReturnValues.swift:87-89 | because `==` ignores devices, a merge keeps a headOne entry when the incoming entry for the same axis is a panPro |
| Periodic.Gated | Sources/edelkroneAPI/Models/ReturnValues.swift:309-343 | a field written only when it differs always ends up with the incoming value |
| Periodic.ReadingKeyRule | Sources/edelkroneAPI/Models/ReturnValues.swift:252 | a reading key maps to the axis of that raw name; a key that names no axis maps to `headPan` |
| Periodic.DecodeReadings | Sources/edelkroneAPI/Models/ReturnValues.swift:249-255 | the readings hold exactly the axes of the keys; each value comes from a key mapped to that axis; when every key names an axis, each axis holds the value of its own key |
| Periodic.DeviceForFirstMatch | Sources/edelkroneAPI/Models/ReturnValues.swift:267-274 | `deviceFor` is the device of the first supported axis with the name, and `unknown` when no supported axis has it |
| Periodic.AccessorsAfterMerge | Sources/edelkroneAPI/Models/ReturnValues.swift:267-361 | after `&=`, `positionFor`, `calibrationStateFor` and `batteryLevelFor` read what they read from the incoming status; `deviceFor` reads the incoming or the old device (a kept array can carry a stale one) |
| Periodic.AxelIdentifierRules | Sources/edelkroneAPI/Models/ReturnValues.swift:83-89 | equal axis identifiers hash alike (the axis name is the hash input), and two arrays are equal under `AxelIdentifier ==` exactly when they list the same names in the same order |
| Periodic.FirstIndexOfSameAxes | Sources/edelkroneAPI/Models/ReturnValues.swift:267-274 | arrays equal under `AxelIdentifier ==` find every name at the same position |
| Periodic.CalibrationStateForListed | Sources/edelkroneAPI/Models/ReturnValues.swift:282-291 | `calibrationStateFor` holds exactly when the status is ready and some calibrated axis has the name |
| Periodic.BatteryLevelForFirstMatch | Sources/edelkroneAPI/Models/ReturnValues.swift:293-302 | `batteryLevelFor` is 0.0 when the status is not ready or the axis is unsupported; otherwise it is the `deviceInfo` entry at the position of the first supported axis with the name, which must exist |
| Periodic.DefaultSnapshotFacts | Sources/edelkroneAPI/Models/ReturnValues.swift:153-233 | the sample status is ready, supports pan, tilt and slide, has a battery entry for each, drives the slide with a sliderOne, lists the slide as calibrated and the pan as not |
| Periodic.MergedSnapshotFacts | Sources/edelkroneAPI/Models/ReturnValues.swift:305-361 | after `&=` every non-timestamp field equals the incoming one (the axis arrays by name), the supported names are the incoming ones, both timestamps are unchanged, and merging the same status again changes nothing |
| Periodic.PeriodicStatus.constructor | Sources/edelkroneAPI/Models/ReturnValues.swift:235-264 | a status holds exactly the decoded fields it is given |
| Periodic.PeriodicStatus.Default | Sources/edelkroneAPI/Models/ReturnValues.swift:153-233 | the parameterless status is the property defaults merged with the sample, so both timestamps are 0 |
| Periodic.PeriodicStatus.MergeFrom | Sources/edelkroneAPI/Models/ReturnValues.swift:305-361 | the fields after `&=` are `MergedSnapshot` of the old fields and the incoming status |
| Status.RefreshAfterCreate | Sources/edelkroneAPI/Models/MotionControlStatus.swift:48-61 | updating an axis from the status it was created from changes nothing, updating twice is updating once, and two updated axes agree exactly when their joystick fields agree |
| Status.ReconciledAxes | Sources/edelkroneAPI/Models/MotionControlStatus.swift:101-121 | after a ready merge the axis map's keys are exactly the supported axis names |
| Status.ReconciledIsUpsertThenDrop | Sources/edelkroneAPI/Models/MotionControlStatus.swift:101-121 | the declarative axis map is what the two loops compute: visit every supported axis in order, then keep only the supported names |
| Status.MergedViewFacts | Sources/edelkroneAPI/Models/MotionControlStatus.swift:76-131 | a status that is not ready changes nothing. A ready one copies all six scalars, keeps exactly the supported axes and gives every axis the accessor values for its name. Surviving axes keep their joystick fields; new axes start still, on a last move, with value 0. The slot count becomes the incoming one |
| Status.MergeIdempotent | Sources/edelkroneAPI/Models/MotionControlStatus.swift:76-131 | merging the same status twice gives the same state as merging it once |
| Status.LegacyMergeDiffersOnlyInSlots | Sources/edelkroneAPI/edelkroneModels.swift:525-571 | the older `&=` never touches the keypose slots and agrees with the current one on everything else |
| Status.ResizedSlots | Sources/edelkroneAPI/Models/MotionControlStatus.swift:124-130 | the slot flags always have the incoming length; they are replaced by the incoming flags only when the lengths differ, and kept otherwise |
| Status.AxelStatus.constructor | Sources/edelkroneAPI/Models/MotionControlStatus.swift:35-54 | a new axis status reads the four accessors for its name and starts not moving, on a last move, with move value 0 |
| Status.AxelStatus.Update | Sources/edelkroneAPI/Models/MotionControlStatus.swift:56-61 | `update` re-reads the four accessors and leaves the joystick fields unchanged |
| Status.MotionControlStatus.constructor | Sources/edelkroneAPI/Models/MotionControlStatus.swift:133-136 | the new status is the property defaults merged with the sample status: axes pan, tilt and slide, six empty keypose slots |
| Status.MotionControlStatus.Merge | Sources/edelkroneAPI/Models/MotionControlStatus.swift:76-131 | the state after `&=` is `MergedView` of the old state; surviving axes are the same objects and new axes are fresh |
| Status.MotionControlStatus.MergeLegacy | Sources/edelkroneAPI/edelkroneModels.swift:525-571 | the state after the older `&=` is `LegacyMergedView` of the old state, with the same object identity rules |
| Status.MotionControlStatus.MergeScalars | Sources/edelkroneAPI/Models/MotionControlStatus.swift:82-99 | the six change-gated scalar copies end with the incoming values |
| Status.MotionControlStatus.ResizeSlots | Sources/edelkroneAPI/Models/MotionControlStatus.swift:124-130 | the element-by-element refill leaves `ResizedSlots` of the old flags |
| Status.MotionControlStatus.UpsertAxis | Sources/edelkroneAPI/Models/MotionControlStatus.swift:107-115 | one supported axis is updated in place if present and created otherwise; every other entry keeps its object |
| Status.MotionControlStatus.UpsertSupported | Sources/edelkroneAPI/Models/MotionControlStatus.swift:102-116 | the first loop returns the supported names in order and leaves the axis views of `UpsertedPrefix`; old objects survive and new ones are fresh |
| Status.MotionControlStatus.DropUnsupported | Sources/edelkroneAPI/Models/MotionControlStatus.swift:117-121 | the second loop keeps exactly the entries whose key is a supported name |
| Status.MotionControlStatus.ReconcileAxes | Sources/edelkroneAPI/Models/MotionControlStatus.swift:101-121 | both loops together leave the axis views of `ReconciledAxes` |
| Status.MotionControlStatus.PanTiltObjects | Sources/edelkroneAPI/Models/MotionControlStatus.swift:162-172 | horizontal is bound exactly when there is a head pan axis, and to it; vertical exactly when there is a head tilt axis, and to it; no other key |
| Status.MotionControlStatus.SlideObjects | Sources/edelkroneAPI/Models/MotionControlStatus.swift:174-181 | horizontal is bound exactly when there is a slide axis, and to it; no other key |
| Status.MotionControlStatus.AxisQueriesAfterMerge | Sources/edelkroneAPI/Models/MotionControlStatus.swift:138-160 | after a ready merge `hasPan` holds exactly when a head or jib pan axis is supported, `hasTilt` likewise, and `hasSlide`/`hasFocus` exactly when that axis is |
| Status.MotionControlStatus.NeedsCalibrationAfterMerge | Sources/edelkroneAPI/Models/MotionControlStatus.swift:26-31 | after a ready merge an axis needs calibration exactly when the status does not list it as calibrated and the device it reports can be calibrated |
| Status.MotionControlStatus.FiledIdentity | Sources/edelkroneAPI/Models/MotionControlStatus.swift:40-46 | equal axis statuses hash alike (the axis name is the hash input), and two filed entries are equal exactly when they are filed under the same key |
| Status.MotionControlStatus.JibOnlyHasNoPanTiltObjects | Sources/edelkroneAPI/Models/MotionControlStatus.swift:138-172 | with only jib pan and tilt axes, `hasPan` and `hasTilt` hold yet `panTiltObjects` is empty |
| Status.MotionControlStatus.JoystickControlled | Sources/edelkroneAPI/Models/MotionControlStatus.swift:183-191 | the result holds exactly the filed axis objects that should move, each once |
| Groups.Without | Sources/edelkroneAPI/Models/PairingGroup.swift:74 | `removeAll` by MAC keeps exactly the members with another MAC, no longer than before, unchanged when no member has the MAC, and keeps MACs distinct |
| Groups.WithoutAppend | Sources/edelkroneAPI/Models/PairingGroup.swift:74 | removing from a concatenation removes from each part, so the members that stay keep their order |
| Groups.ContainsIsHasMac | Sources/edelkroneAPI/Models/PairingGroup.swift:64 | `contains` under `MotionControlSystem ==` holds exactly when some member has the same MAC address |
| Groups.PairingGroup.EmptyHasNoMaster | Sources/edelkroneAPI/Models/PairingGroup.swift:80-84 | a group for which `isEmpty` holds has no master |
| Groups.WithoutFacts | Sources/edelkroneAPI/Models/PairingGroup.swift:74 | removing a MAC twice is removing it once, and removing one MAC keeps every other |
| Groups.PairingGroup.constructor | Sources/edelkroneAPI/Models/PairingGroup.swift:22-24 | a new group has the given id, no members, no master and is not connected |
| Groups.PairingGroup.Add | Sources/edelkroneAPI/Models/PairingGroup.swift:63-70 | a system of this group whose MAC is new is appended and becomes master exactly when its setup is a master indicator; otherwise nothing changes (so adding again is a no-op); for a system of this group the roster afterwards is `Joined` of the roster before; the master always shares a MAC with a member |
| Groups.PairingGroup.Remove | Sources/edelkroneAPI/Models/PairingGroup.swift:72-79 | for a system of this group or of no group, every member with its MAC is removed and a master with that MAC is dropped (nobody is promoted), so the roster afterwards is `Left` of the roster before; otherwise nothing changes; the master invariant is kept |
| Groups.Joined | Sources/edelkroneAPI/Models/PairingGroup.swift:63-70 | the joined roster carries the system's MAC and exactly the MACs it had before plus that one, and it keeps the master rule |
| Groups.Left | Sources/edelkroneAPI/Models/PairingGroup.swift:72-79 | the left roster carries no member with the MAC and every other MAC it had; it keeps the master rule, and a roster left without members has no master |
| Groups.RosterRules | Sources/edelkroneAPI/Models/PairingGroup.swift:63-79 | joining twice with the same MAC is joining once, and leaving twice is leaving once |
| Groups.GroupHashAsWrittenBreaksEquality | Sources/edelkroneAPI/Models/PairingGroup.swift:48-61 | two equal groups (same id) feed the hasher different values as written |
| Groups.GroupHashAgreesWithEquality | Sources/edelkroneAPI/Models/PairingGroup.swift:48-57 | with the id as the only hash input, groups are equal exactly when their hash inputs are |
| Commands.GetCommand | Sources/edelkroneAPI/edelkroneAPI.swift:255-258 | the request has the `command` key only, bound to the command |
| Commands.SuccessRule | Sources/edelkroneAPI/edelkroneAPI.swift:204-210 | a reply succeeds exactly when it did not decode or carries no message |
| Commands.SessionCallbacks | Sources/edelkroneAPI/edelkroneAPI.swift:183-217 | the corrected session calls the handler once. It reports success exactly when there was no transport error, there was an HTTP response and the reply succeeded, and then it passes the decoded reply |
| Commands.SessionAsWrittenCallsTwice | Sources/edelkroneAPI/edelkroneAPI.swift:183-217 | as written, a transport error calls the handler twice: twice with a failure without a response, and with a response a failure followed by the reply's outcome |
| Commands.SessionCorrectionAgrees | Sources/edelkroneAPI/edelkroneAPI.swift:183-217 | without a transport error both sessions deliver the same calls; with one, the corrected session delivers the first call of the session as written |
| Commands.UndecodableBodyIsSuccess | Sources/edelkroneAPI/edelkroneAPI.swift:199-213 | a body that does not decode is delivered as a success without a result |
| Commands.DecimalRoundTrip | Sources/edelkroneAPI/edelkroneAPI.swift:274 | the decimal text of the port reads back as the port |
| Commands.IntToStringInjective | Sources/edelkroneAPI/edelkroneAPI.swift:274 | distinct ports have distinct texts |
| Commands.GetURLAdapterRule | Sources/edelkroneAPI/edelkroneAPI.swift:270-283 | device URLs ignore the adapter id; link and bundle URLs for different adapters differ |
| Commands.GetURLPortRule | Sources/edelkroneAPI/edelkroneAPI.swift:270-283 | URLs for different ports differ |
| Commands.JoystickRequestKeys | Sources/edelkroneAPI/edelkroneAPI.swift:733-735 | the joystick request names the `joystickMove` command and holds the raw name of exactly the moving axes |
| Commands.JoystickRequestValues | Sources/edelkroneAPI/edelkroneAPI.swift:733-735 | with distinct axes, each raw name is bound to its axis's move value |
| Commands.CreateBundleRequest | Sources/edelkroneAPI/edelkroneAPI.swift:568-571 | the request names the command, holds the device count as the list's length, the MAC list, and the forced master exactly when there is one; nothing else |
| Keypose.KeyposeAxel.constructor | Sources/edelkroneAPI/Models/Keypose.swift:36-43 | the axis holds the given name, position and device and is not calibrated |
| Keypose.KeyposeAxel.FromStatus | Sources/edelkroneAPI/Models/Keypose.swift:45-51 | the axis copies the name, position, device and calibration of the axis status |
| Keypose.KeyposeAxelRules | Sources/edelkroneAPI/Models/Keypose.swift:25-55 | equal axes hash alike; equality is symmetric; a captured axis needs calibration exactly when its axis status does; `needsCalibration` is "not calibrated and calibratable" |
| Keypose.KeyposeSlot.constructor | Sources/edelkroneAPI/Models/Keypose.swift:64-71 | the slot has the given index and one fresh captured axis per key of the status's axis map |
| Keypose.KeyposeContainer.WithCapacity | Sources/edelkroneAPI/Models/Keypose.swift:90-95 | storing nil under each index leaves no slot at all |
| Keypose.KeyposeContainer.FromStatus | Sources/edelkroneAPI/Models/Keypose.swift:97-103 | there is a slot exactly at each index below the status's slot count, each fresh, carrying its own index and one axis per axis of the status, each capturing that axis status |
| Keypose.KeyposeContainer.SlotIdentity | Sources/edelkroneAPI/Models/Keypose.swift:73-79 | equal slots hash alike (the index is the hash input), and slots filed under their own index are equal exactly when they are filed under the same index |
| Keypose.KeyposeContainer.Absorb | Sources/edelkroneAPI/Models/Keypose.swift:86-88 | `+=` changes no slot |
| Api.WithoutGroup | Sources/edelkroneAPI/edelkroneAPI.swift:489 | removing groups by id keeps exactly the groups with another id and keeps ids distinct |
| Api.WithoutGroupAppend | Sources/edelkroneAPI/edelkroneAPI.swift:489 | removing by id from a concatenation removes from each part, so the groups that stay keep their order |
| Api.WithoutGroupAbsent | Sources/edelkroneAPI/edelkroneAPI.swift:489 | removing an id that no group has leaves the list as it is |
| Api.VanishedMacs | Sources/edelkroneAPI/edelkroneAPI.swift:536-538 | a MAC is among the systems to remove exactly when it is known and the reply lacks it |
| Api.VanishedIsSubtracting | Sources/edelkroneAPI/edelkroneAPI.swift:536-538 | under `MotionControlSystem ==` the systems to remove are the set difference: a system is among them exactly when an equal one is known and no equal one was reported |
| Api.AbsorbStep | Sources/edelkroneAPI/edelkroneAPI.swift:523-532 | one pass of the first scan loop extends the absorbed prefix by one record: the scanned list gains the record when it is the first with a new MAC, and the ungrouped list gains only registered records |
| Api.AbsorbRegistryStep | Sources/edelkroneAPI/edelkroneAPI.swift:524-530 | the scanned-list and dictionary half of that step |
| Api.AbsorbFiledStep | Sources/edelkroneAPI/edelkroneAPI.swift:524-531 | the filed-record, group-id and ungrouped-list half of that step |
| Api.NewRecordsStep | Sources/edelkroneAPI/edelkroneAPI.swift:524-527 | one record more adds that record to the new records exactly when it is the first with a new MAC |
| Api.NewRecords | Sources/edelkroneAPI/edelkroneAPI.swift:524-527 | the records a reply registers are records of the reply |
| Api.NewRecordsMacs | Sources/edelkroneAPI/edelkroneAPI.swift:524-527 | the new records carry exactly the reply's MACs that were not known before |
| Api.NewRecordsDistinct | Sources/edelkroneAPI/edelkroneAPI.swift:524-527 | no two new records share a MAC |
| Api.Reported | Sources/edelkroneAPI/edelkroneAPI.swift:536-543 | the kept systems are exactly the list's systems whose MAC the reply carries |
| Api.ReportedAppend | Sources/edelkroneAPI/edelkroneAPI.swift:536-543 | keeping the reported systems of a concatenation keeps those of each part, so the order is kept |
| Api.ReportedAll | Sources/edelkroneAPI/edelkroneAPI.swift:536-543 | a list whose every MAC the reply carries is kept whole |
| Api.Keeping | Sources/edelkroneAPI/edelkroneAPI.swift:540-543 | the systems left after removing a set of MACs are systems of the list with none of those MACs |
| Api.KeepingAll | Sources/edelkroneAPI/edelkroneAPI.swift:540-543 | removing no MAC keeps the list |
| Api.KeepingWithout | Sources/edelkroneAPI/edelkroneAPI.swift:540-543 | removing one more MAC from a kept list is keeping with that MAC added to the removed ones |
| Api.KeepingReported | Sources/edelkroneAPI/edelkroneAPI.swift:536-543 | removing exactly the MACs the reply lacks keeps exactly the reported systems |
| Api.ScanComposition | Sources/edelkroneAPI/edelkroneAPI.swift:516-552 | the two scan loops together reconcile the registry with the reply: the scanned list is the old one without the vanished systems followed by the new records in reply order, and every ungrouped system was ungrouped before or is the one registered under its MAC (see `WirelessPairingScanResultsResult`) |
| Api.AttachToBundleRequest | Sources/edelkroneAPI/edelkroneAPI.swift:590-592 | the request names the attach command and holds the master's MAC exactly when the group has a master |
| Api.ValidOnly | Sources/edelkroneAPI/edelkroneAPI.swift:384-389 | the appended adapters are among the reply's and valid, and every valid adapter of the reply is appended |
| Api.ValidOnlyAppend | Sources/edelkroneAPI/edelkroneAPI.swift:384-389 | filtering distributes over concatenation, so an adapter reported by two replies is appended twice (no de-duplication) |
| Api.EqualAdaptersShareSlot | Sources/edelkroneAPI/edelkroneAPI.swift:384-389 | equal valid adapters are filed under the same key, and filing the second replaces the first |
| Api.IndexAdaptersFacts | Sources/edelkroneAPI/edelkroneAPI.swift:384-389 | the filed ids are the old ones plus those of valid adapters; an unreported id keeps its adapter; a reported id holds the last valid adapter with that id |
| Api.MarkedMacsMember | Sources/edelkroneAPI/edelkroneAPI.swift:559-567 | a MAC is in the list exactly when a marked system has it |
| Api.MarkedMacsLength | Sources/edelkroneAPI/edelkroneAPI.swift:559-567 | the list is no longer than the systems and is empty exactly when nothing is marked |
| Api.MarkedMacsFirst | Sources/edelkroneAPI/edelkroneAPI.swift:562-564 | the first MAC is that of the first marked system |
| Api.CollectMarked | Sources/edelkroneAPI/edelkroneAPI.swift:557-567 | the loop yields the marked MACs in list order, the first as master (none when nothing is marked), clears every mark and changes no group id |
| Api.DebounceRules | Sources/edelkroneAPI/edelkroneAPI.swift:736-739 | a sent last move stops the axis and clears the last-move flag; a move that is not the last changes nothing; only the two flags change; debouncing twice is debouncing once |
| Api.JoystickSentRules | Sources/edelkroneAPI/edelkroneAPI.swift:729-740 | after sending, the axes still moving are exactly the moving ones that were not on their last move; move values are unchanged; a second send changes nothing; with no moving axis nothing changes |
| Api.ControlledMoves | Sources/edelkroneAPI/edelkroneAPI.swift:731-735 | the moves of the controlled axes form a request for exactly the moving axes with their values, and there are none exactly when no axis moves |
| Api.ApplyMoves | Sources/edelkroneAPI/edelkroneAPI.swift:733-740 | the loop builds `JoystickRequest` of the moves and leaves every axis as `JoystickSent` of the views before |
| Api.Debounce | Sources/edelkroneAPI/edelkroneAPI.swift:736-739 | an axis on its last move is stopped, as `Debounced` says; any other is left alone |
| Api.PairingStatusRules | Sources/edelkroneAPI/edelkroneAPI.swift:621-649 | `connectionOk` and a failed poll swap the pairing loop for the periodic one and show the interface; `problem` stops the pairing loop and shows the adapters; other states, or none, change nothing; the axes are emptied exactly when the interface is shown and the reply was not an empty success |
| Api.EdelkroneApi.constructor | Sources/edelkroneAPI/edelkroneAPI.swift:86-146 | everything is empty, nothing is connected, the adapter screen is shown, no loop runs, and the invariants hold. The periodic snapshot is the default one, and the motion control status is what merging that default into an empty status gives |
| Api.EdelkroneApi.ResetAsWritten | Sources/edelkroneAPI/edelkroneAPI.swift:310-330 | `reset` clears the flags, lists and groups, stops every loop, sends a disconnect when there is a URL and shows the adapters; it keeps the dictionary by MAC, so the registry is out of sync whenever that dictionary was not empty |
| Api.EdelkroneApi.Reset | Sources/edelkroneAPI/edelkroneAPI.swift:310-330 | the corrected `reset` does the same and also empties the dictionary by MAC, so every invariant holds again |
| Api.EdelkroneApi.StopAllThreads | Sources/edelkroneAPI/edelkroneAPI.swift:169-173 | no loop runs afterwards |
| Api.EdelkroneApi.StopScanResultsThread | Sources/edelkroneAPI/edelkroneAPI.swift:420-426 | the scan-results loop is not running afterwards |
| Api.EdelkroneApi.StartScanResultsThread | Sources/edelkroneAPI/edelkroneAPI.swift:428-433 | the scan-results loop is running afterwards |
| Api.EdelkroneApi.StopPairingStatusThread | Sources/edelkroneAPI/edelkroneAPI.swift:661-667 | the pairing-status loop is not running afterwards |
| Api.EdelkroneApi.StartPairingStatusThread | Sources/edelkroneAPI/edelkroneAPI.swift:669-674 | the pairing-status loop is running afterwards |
| Api.EdelkroneApi.StopPeriodicStatusThread | Sources/edelkroneAPI/edelkroneAPI.swift:710-716 | the periodic loop is not running afterwards |
| Api.EdelkroneApi.StartPeriodicStatusThread | Sources/edelkroneAPI/edelkroneAPI.swift:718-724 | the periodic loop is running afterwards |
| Api.EdelkroneApi.GetPairingGroupFor | Sources/edelkroneAPI/edelkroneAPI.swift:467-479 | none for the no-group id; otherwise the group filed under the id, created empty, appended and filed when missing, with nothing else changed and the members and master of every id as before; list and dictionary stay in sync |
| Api.EdelkroneApi.JoinGroup | Sources/edelkroneAPI/edelkroneAPI.swift:498-501 | a system with a group ends up as a member of that group's filed group, whose members and master become `Joined` of those before; every other id keeps its members and master; existing groups stay filed |
| Api.EdelkroneApi.RemoveElementFromPairingGroup | Sources/edelkroneAPI/edelkroneAPI.swift:481-493 | every member with the system's MAC leaves the group of its id, whose members and master become `Left` of those before, and a group left empty is deleted from both the dictionary and the list; every other id keeps its members and master; list and dictionary stay in sync |
| Api.EdelkroneApi.LeaveAndPrune | Sources/edelkroneAPI/edelkroneAPI.swift:485-490 | the system leaves the filed group, whose roster becomes `Left` of the roster before; the group is deleted from both collections exactly when it has no members left; every other id keeps its members and master |
| Api.EdelkroneApi.UpdateMotionControlGroup | Sources/edelkroneAPI/edelkroneAPI.swift:494-514 | for a registered MAC the incoming record joins its group, whose members and master become `Joined` of those before. When the registered record had another group, it leaves the old one, whose roster becomes `Left` of the roster before (and the record is appended to the ungrouped list if it had one), and only its group id changes. An unregistered MAC changes nothing |
| Api.EdelkroneApi.Relink | Sources/edelkroneAPI/edelkroneAPI.swift:498-512 | the registered record's half of `updateMotionControlGroup`: the incoming record joins its group, and the registered record takes the incoming group id and moves there when its own differs, with the same roster and ungrouped-list effects |
| Api.EdelkroneApi.Regroup | Sources/edelkroneAPI/edelkroneAPI.swift:502-512 | the registered record leaves its old group, whose roster becomes `Left` of the roster before (and the record joins the ungrouped list if it had one), takes the new id and joins the new group, whose roster becomes `Joined` of the roster before. So a record moved between two groups is listed as ungrouped while it is a member of its new group, and one that joins from no group stays on the ungrouped list |
| Api.EdelkroneApi.Retag | Sources/edelkroneAPI/edelkroneAPI.swift:503-507 | the record takes the new group id and is appended to the ungrouped list when it had a group; the groups and every roster are as before |
| Api.EdelkroneApi.WirelessPairingScanResultsResult | Sources/edelkroneAPI/edelkroneAPI.swift:516-552 | on success the scanned MACs and the filed MACs become exactly the reply's. The scanned list is the old one without the vanished systems, followed by the first record of each new MAC in reply order. Known records keep their identity; the first record with a new MAC is filed, and listed as ungrouped when it came without a group. Vanished MACs leave the ungrouped list; every ungrouped system was ungrouped before or is the record filed under its MAC. Every group keeps its master among its members. The pairing screen is shown and `hasScannedMCS` is set. The frame names only the registry, group and screen fields, so the adapters, the connection flags, the loops and both status objects stay as they were. A failure changes nothing |
| Api.EdelkroneApi.ShowScannedSystems | Sources/edelkroneAPI/edelkroneAPI.swift:549-550 | `hasScannedMCS` is set and the pairing screen is shown; the invariants are kept |
| Api.EdelkroneApi.Reconcile | Sources/edelkroneAPI/edelkroneAPI.swift:523-548 | both scan loops reconcile the registry with the reply and keep both invariants |
| Api.EdelkroneApi.AbsorbScanned | Sources/edelkroneAPI/edelkroneAPI.swift:523-532 | the first scan loop absorbs every record of the reply |
| Api.EdelkroneApi.AbsorbOne | Sources/edelkroneAPI/edelkroneAPI.swift:524-531 | a record with a new MAC is appended and filed (and listed as ungrouped without a group); then it is reconciled with its group, whose roster becomes `Joined` of the roster before; the ungrouped list keeps what it had and gains only the record filed under this MAC; no other system's group id changes |
| Api.EdelkroneApi.Register | Sources/edelkroneAPI/edelkroneAPI.swift:524-530 | a record with a new MAC is appended, filed, and listed as ungrouped exactly when it has no group; a known MAC changes nothing |
| Api.EdelkroneApi.DropVanished | Sources/edelkroneAPI/edelkroneAPI.swift:536-548 | the second scan loop keeps exactly the filed MACs the reply carries, leaves the scanned list as its reported systems in order, removes every vanished MAC from the ungrouped list and adds nothing to it; no group is added or replaced; the motion control status is untouched |
| Api.EdelkroneApi.Forget | Sources/edelkroneAPI/edelkroneAPI.swift:540-547 | a vanished system leaves the scanned list, the dictionary and the ungrouped list (each otherwise kept in order), and its group; no group is added or replaced |
| Api.EdelkroneApi.Unregister | Sources/edelkroneAPI/edelkroneAPI.swift:541-543 | the MAC leaves the scanned list, the dictionary and the ungrouped list, the registry stays in sync and the group invariant is kept |
| Api.EdelkroneApi.ScanLinkAdaptersResult | Sources/edelkroneAPI/edelkroneAPI.swift:379-394 | for a successful reply without a message the valid adapters are appended in order and filed by id, and `hasAdapters` tells whether the list is non-empty; otherwise nothing changes |
| Api.EdelkroneApi.FileAdapters | Sources/edelkroneAPI/edelkroneAPI.swift:384-389 | the loop appends the valid adapters of the reply in order and files each under its id |
| Api.EdelkroneApi.WirelessPairingScanStart | Sources/edelkroneAPI/edelkroneAPI.swift:407-418 | with a URL the scan-start request is sent and nothing changes; without one the connection is dropped and the adapter marked disconnected |
| Api.EdelkroneApi.WirelessPairingScanStartResult | Sources/edelkroneAPI/edelkroneAPI.swift:435-454 | without an adapter the connection is dropped; a success connects the adapter and starts the scan-results loop; a failure disconnects it |
| Api.EdelkroneApi.DisconnectResult | Sources/edelkroneAPI/edelkroneAPI.swift:349-363 | on success every loop stops, the connection is dropped and the pairing screen is shown. With a URL a scan-start request is sent and the adapter id is kept; without one the id is cleared. The adapter filed under the old id is marked disconnected unless that id was empty and the request went out. A failure changes nothing |
| Api.EdelkroneApi.WirelessPairingCreateBundle | Sources/edelkroneAPI/edelkroneAPI.swift:555-576 | every mark is cleared and no group id changes; with a URL the request lists the marked MACs in scan order with the first as forced master |
| Api.EdelkroneApi.CreateBundleResult | Sources/edelkroneAPI/edelkroneAPI.swift:578-587 | a success swaps the scan-results loop for the pairing-status loop; a failure changes no loop |
| Api.EdelkroneApi.AttachToBundleResult | Sources/edelkroneAPI/edelkroneAPI.swift:599-609 | a success shows the interface, empties the axes and leaves only the periodic loop running; a failure changes nothing |
| Api.EdelkroneApi.WirelessPairingStatusResult | Sources/edelkroneAPI/edelkroneAPI.swift:621-649 | the screen, the loops and the axes become what `PairingStatusOutcome` gives |
| Api.EdelkroneApi.AttachConnectedAdapter | Sources/edelkroneAPI/edelkroneAPI.swift:678-683 | the interface is shown for the adapter with empty axes and the periodic loop running |
| Api.EdelkroneApi.GetPeriodicStatusResult | Sources/edelkroneAPI/edelkroneAPI.swift:693-699 | a decoded status is merged into the periodic status (`MergedSnapshot`) and then into the motion control status (`MergedView`), whatever the success flag; without one nothing changes |
| Api.EdelkroneApi.SendJoystickMove | Sources/edelkroneAPI/edelkroneAPI.swift:729-746 | a request is built exactly when some axis moves and sent when there is a URL. It binds the raw name of exactly every moving axis to its move value. Either way every moving axis on its last move is stopped (`JoystickSent`) |

## Left out

- Polling threads: the bodies of `requestScanResults`, `requestPairingStatus` and `requestPeriodicStatus`, with their sleeps and cancellation, are concurrency. Each loop is only its running flag. A thread handle is present exactly when its flag is set, so stopping clears the flag.
- Network I/O: `URLSession` tasks, `detect`, `linkStatus` (empty) and `sendJoystickMove_Result` (empty) are not modelled. A request that would be sent is returned instead. A reply arrives as a parameter.
- `DispatchQueue.main.async` hops and the 200 ms `asyncAfter` in `reset`, which calls `scanLinkAdapters` again: callbacks are applied at once, and the deferred scan is not modelled.
- Request builders that only combine `getCommand` and `getURL` are not separate members. These are `scanLinkAdapters`, `wirelessPairingScanResults`, `wirelessPairingStatus`, `getPeriodicStatus`, `disconnect` and `disconnectNoResult`. The disconnect request `reset` sends is modelled inside `ResetAsWritten`. Its command is the raw value `disconnect` of the unnamed enum case.
- JSON: `commandToJSON`, `getRequestFor`, and `URL(string:)` (a parameter saying whether the URL was accepted). The `getURL` overloads read the stored link id from preferences; host, port and adapter id are parameters. Decoders keep only the field rules stated in the table. The `PeriodicStatus` decoder's other fields are taken as given. The sample status is a constant; its battery values and readings are written as IEEE-754 bit patterns.
- `executeSessionGet` has the same completion logic as `executeSession`, so the same `SessionCallbacks` rules describe it.
- Floating point: every `Double` is an opaque bit pattern compared by representation. Swift's `!=` treats +0.0 and -0.0 as equal and NaN as unequal to itself. So a change-gated write in `&=` can keep the old zero's sign, or rewrite a NaN, differently from the model.
- SwiftUI: `@Published`, `ObservableObject`, `objectWillChange` and `@AppStorage`.
- Demo values: `PairingGroup.init()` with its random id and sample members, `LinkAdapter.init()`, and the `toString` display strings of devices and motion states. For `AxelID.toString`, only the labels' distinctness is modelled.
- Hashing: every `hash(into:)` is modelled as the value it feeds to the hasher (`HashKey`, `McsHashInput`, `AdapterHashInput`, `AxelHashInput`, `AxelStatusHashInput`, `SlotHashInput`, `KeyposeAxel.HashKey`, `GroupHashInputAsWritten`), not as a hasher.
- Keypose.KeyposeContainer.WithCapacity: the trap of `0..<maxSlots` for a negative bound is the precondition `maxSlots >= 0`. No member supplies the default arguments (`maxSlots = 6` here, `idx = 0` for a slot, the slide at 0.0 for a keypose axis); every constructor takes them explicitly.
- The types duplicated in `edelkroneModels.swift` are modelled once, from `Models/`. The exceptions are `AxelID` and `EdelkroneDevice`, which only live there, and the older `MotionControlStatus &=` (`MergeLegacy`).
- Dictionary walk order: the loops over `axelStatus`, `readings` and the status map in `KeyposeSlot` pick keys in an unspecified order, and their contracts hold for every order. The `toRemove` set of the scan callback is walked in scanned-list order instead of set order. The resulting registry is the same for every order; the order of deletions from the group list is not modelled.
- Keypose dictionaries hold optional values in the source. The model stores only present values, because nothing ever stores nil except `init(_ maxSlots:)`, whose nil removes the key.
- Api.EdelkroneApi.WirelessPairingScanResultsResult: states the scanned list and the dictionary exactly; for the ungrouped list it gives bounds, not the list. The new records without a group and every kept ungrouped system are on it, and nothing else but a filed record is. It does not say in what order, or how often, a record moved to another group is appended; `Regroup` states that per record. It does not say which group each system ends in; `UpdateMotionControlGroup` and `Forget` state that per record.
- Api.EdelkroneApi.GetPeriodicStatusResult: requires a decoded status distinct from the stored one (the decoder always builds a new object) with a battery entry for every supported axis (`batteryLevelFor` traps otherwise).
- Api.CollectMarked: requires distinct MACs, which the scanned list always has (`RegistryInSync`). With one object listed twice, the source would list its MAC once, not twice.
- Api.EdelkroneApi.DisconnectResult and WirelessPairingScanResultsResult: their force-unwraps (`adaptertDict[connectedAdapterID]!`, `result!.data!`) become preconditions.

## Findings

| source | as written | input that shows it | evidently intended | confidence | as-written member | corrected member |
|---|---|---|---|---|---|---|
| Sources/edelkroneAPI/Models/PairingGroup.swift:48-61 | `==` compares the group id only, but `hash(into:)` also hashes every member | group 5 with no members vs group 5 with member "24:0A:C4:F1:3B:AA": equal, yet hashed from different inputs, breaking the `Hashable` rule | hash the group id only | not executed; high | Groups.GroupHashAsWrittenBreaksEquality | Groups.GroupHashAgreesWithEquality |
| Sources/edelkroneAPI/edelkroneAPI.swift:185-198 | after the transport-error callback there is no `return`, so the response check runs too | a transport error without a response calls the handler twice with a failure; with a response, a failure then the reply's outcome | report the error once and stop | not executed; high | Commands.SessionAsWrittenCallsTwice | Commands.SessionCallbacks |
| Sources/edelkroneAPI/edelkroneAPI.swift:310-330 | `reset` empties every list and dictionary except `motionControlSystemsDict` | scan a system with MAC m, reset, then receive a reply without m: m stays filed in the dictionary yet in no list. The scan's removal pass (lines 536-547) only walks the scanned list, so m stays filed until a later reply reports m again | empty `motionControlSystemsDict` as well | not executed; medium | Api.EdelkroneApi.ResetAsWritten | Api.EdelkroneApi.Reset |
