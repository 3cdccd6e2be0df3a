# Verified model of the Thread and Matter controller firmware

The firmware under `firmware/main` keeps a small Matter fabric in order: it learns the endpoints of
each node, grants switches access to lights, binds them, puts nodes into groups, and pulls Thread
credentials from a border agent. This project models the four components where that is hard to get
right and proves what they keep. `dafny verify dfyconfig.toml` checks everything.

**Provisioning** (`matter_controller.cpp`). The devices are a map from node id to an ACL, a Binding
list per endpoint, a GroupKeyMap, keysets and group memberships (`Fabric`; Matter Core Specification
sections 9.6, 9.10 and 11.2). A call is a sequence of remote operations, each of which may fail.
`Calls` says which steps a call carries out for every sequence of answers, `Effects` and `Outcomes` what
they leave on every device, `DeviceLists` what the new lists hold, report by report. `Controller` is the
code itself, with the snapshot vectors, the report callbacks, the loops over them and the texts it sends
(`Serialiser`, `Decimal`), proved to carry out exactly those steps. About the steps:

- a switch is authorised before it is bound, at every point of every run: for the devices' own lists
  exactly when each `delete_binding` and each `reset_acl` is safe where it starts, for any other lists
  a read may hand over under a condition on those (`Authorisation`);
- no call and no failure locks the controller out (`Lockout`);
- group membership is a set, kept alike in three places (`Membership`);
- remove undoes add and delete undoes create, exactly on lists in the controller's own form, and a call
  repeated changes nothing, with its exact exceptions (`Undo`);
- a printed list can be read back, so nothing a device is told is ambiguous (`Serialiser`).

`ReadProtocol` is the blocking read beneath these calls: a drained binary semaphore, a shared success
flag and callbacks that may belong to a read that timed out earlier. A returned `ESP_OK` vouches for
the snapshot if and only if no earlier read could still call back when the call was entered. `ReadRuns`
joins the two: the reads of a run of calls are carried out one after another by this protocol, and what
they hand over is what the calls go on with.

**Topology and device table** (`device_manager.cpp`). `Topology` states on the graph of PartsList
attributes (section 9.5 of the Matter Core Specification) what the parent of an endpoint is, and what
that recovers; `ParentResolver` is the breadth-first search, proved against it on cyclic and dangling
graphs. `Endpoints`, `DeviceTable`, `DeviceStore` and `Json` are the table, its file and the reload.
`Interrogation` and `Interrogator` are the callbacks that fill the table, with its second index;
`ReportOrder` says when the outcome depends on the order of the reports.

**CoAP and MeshCoP** (`thread_meshcop.cpp`). `CoapFormat` is the message grammar of section 3 of
RFC 7252 over unbounded integers, with a decoder proved to accept exactly its strings; `CoapWalk` is the
firmware's walk with 16-bit lengths and the strings it accepts; `Coap` is the builder and the parser over
a buffer. `Tlv` is the search.

**Credentials** (`thread_credentials.cpp`). `Hex`, `Metadata` and `Credentials`: the hex codec, the
second TLV walker, and the record that is stored and reloaded.

## Where the code and its promises part

The model follows the code. Each of these comes with the exact condition, and with an input or a whole
class of inputs on which it happens:

- `delete_binding` revokes the switch's grant although another target on the same light may remain
  (`Authorisation.OwnDeleteIsSafeIff`, `DeleteBindingCanStrand`); `reset_acl` does not look at who is
  bound (`ResetAclKeepsIff`, `ResetAclCanStrand`).
- `install_group_key_on_node` and `create_group_binding` take a failed read for an empty list and write
  it back, where comments say that existing entries are preserved (`Membership.InstallKeepsMappingsIff`,
  `AddRefinesIff`, `AddCanUnmap`; `GroupBindingKeepsTargetsIff`, `GroupBindingCanUnbind`), so a later
  remove need not undo the add (`Undo.RemoveUndoesAddIff`, `RemoveCanFailToUndo`). A group mapped
  to another keyset stays there (`InstallMapsToSharedKeyIff`, `InstallCanLeaveOtherKeyset`).
- `create_binding` and `delete_binding` rebuild the light's ACL from Operate/CASE subjects alone, so
  the light's group grants go (`Membership.CreateBindingKeepsMembersIff`, `DeleteBindingKeepsMembersIff`,
  `CreateBindingCanDropGroup`, `DeleteBindingCanDropGroup`).
- `create_binding` takes a group target that carries the light's node and endpoint for the binding
  (`Undo.CreateBindsIff`, `CreateCanBeMistaken`).
- `reset_node_groups` is to clear all group state, but leaves the groups granted on the ACL
  (`Outcomes.ResetGroupsKeepsGrants`).
- A search depth is the shortest distance, so endpoints that list all their descendants tie and the
  earlier one in the table wins (`Topology.FullFamilyRecovery`, `FullFamilyMisplaces`). Where claimants
  tie, the order of the reports decides (`ReportOrder.ParentIsSettledIff`, `AnyDeepestCanWin`).
- Parts that arrive before their endpoint is known are lost (`Interrogation.TableIsFaithful`,
  `PartsNeedTheirEndpoint`, `EarlyPartsAreLost`).
- A 2-byte option length is added in 16 bits, so the parser accepts strings that are no message
  (`CoapWalk.WalkMisreadsIff`, `Coap.LongOptionAccepted`).
- The parser takes three kinds of message that section 3 of RFC 7252 rules out: an empty
  payload after the marker and a token of 9 to 15 bytes, which are format errors, and an unknown version,
  which is to be ignored (`Coap.ConformingIff`, `AcceptedConformsIff`; `EmptyPayloadAccepted`,
  `LongTokenAccepted`, `OtherVersionAccepted`). The grammar of `CoapFormat` admits all three.
- The two TLV walkers read a length byte of 0xFF differently (`Metadata.WalkersAgree`,
  `WalkersCanDiffer`).
- Device types from 2^31 on are clamped by a reload, and larger ids are rounded
  (`DeviceStore.TableReloads`, `BigTypeIsClamped`, `SmallIdsAreExact`).
- The read's comment says that the drain protects against an earlier read that completes late; it does
  so only if that read completes before the next one is entered (`ReadProtocol.FreshIff`,
  `HandsOnlyOwnIff`, `StaleReport`). Otherwise a call can write one device's list to another, and leave a
  bound switch without its grant (`Authorisation.RunsAreAuthorisedIff`, `ReadRuns.LateReportStrands`).

## Model

| member | source | states |
|---|---|---|
| Authorisation.RunsAreAuthorisedIff | firmware/main/matter_controller.cpp:1140-1700 | over any run of the nine calls, with any answers and whatever lists the reads are handed, every state on the way has each unicast OnOff target granted by its light, if and only if every call is safe where it starts |
| Authorisation.OwnRunsAreAuthorisedIff | firmware/main/matter_controller.cpp:1140-1700 | where every read is handed the device's own list, the run keeps the property at every point exactly when every delete_binding and reset_acl in it is safe where it starts |
| Authorisation.OwnSafeIff | firmware/main/matter_controller.cpp:1140-1700 | with the devices' own lists those conditions hold of themselves, but for the guards of delete_binding and reset_acl |
| Authorisation.CallKeepsIff | firmware/main/matter_controller.cpp:1140-1700 | the same for one call: the six that read have a condition on the lists they are handed, reset_acl one on who is bound, two have none |
| Authorisation.StepIsCareful | firmware/main/matter_controller.cpp:874-885 | a single write keeps the property exactly when it neither takes a grant from a bound switch nor binds an ungranted one |
| Authorisation.PutAclIff | firmware/main/matter_controller.cpp:890-912 | an ACL built from anything keeps the property exactly when every switch bound to the light is among its Operate/CASE subjects |
| Authorisation.PutBindingsIff | firmware/main/matter_controller.cpp:914-932 | a Binding list built from anything keeps the property exactly when every light it names grants the switch |
| Authorisation.CreateBindingKeepsIff | firmware/main/matter_controller.cpp:1140-1239 | create_binding keeps the property at every point, whichever operation fails, exactly when the ACL it is handed names every other switch bound to the light and the Binding list it is handed names only this light and lights that grant its switch |
| Authorisation.DeleteBindingKeepsIff | firmware/main/matter_controller.cpp:1241-1279 | delete_binding does exactly when what it leaves of the list it is handed is granted, the ACL it is handed names every other switch bound to the light, and its own switch has no target on that light left |
| Authorisation.OwnDeleteIsSafeIff | firmware/main/matter_controller.cpp:1241-1279 | handed the devices' own lists: exactly when its ACL half does not go through or its first half took every OnOff target the switch has on that light |
| Authorisation.AmongAfterIff | firmware/main/matter_controller.cpp:1250-1263 | who has to be among the subjects once the first half has rewritten the Binding list, in terms of the state before it |
| Authorisation.DeleteBindingCanStrand | firmware/main/matter_controller.cpp:1265-1274 | two targets on one light: deleting one leaves the other without its grant |
| Authorisation.AddGroupMemberKeepsIff | firmware/main/matter_controller.cpp:1456-1509 | add_group_member keeps the property at every point exactly when its ACL write is not reached or the ACL it was handed names every switch bound to the node |
| Authorisation.RemoveGroupMemberKeepsIff | firmware/main/matter_controller.cpp:1511-1557 | the same for remove_group_member, whichever of its best-effort parts happen |
| Authorisation.GroupListsKeepSubjects | firmware/main/matter_controller.cpp:1472-1489 | both group calls leave exactly the same Operate/CASE subjects on the ACL, whatever was on it |
| Authorisation.CreateGroupBindingKeepsIff | firmware/main/matter_controller.cpp:1559-1607 | create_group_binding keeps it exactly when its Binding write is not reached, the list could not be read, or every light in the list it was handed grants the switch |
| Authorisation.DeleteGroupBindingKeepsIff | firmware/main/matter_controller.cpp:1609-1639 | delete_group_binding keeps it exactly when it writes nothing or every light in the list it was handed grants the switch |
| Authorisation.ResetNodeGroupsKeeps | firmware/main/matter_controller.cpp:1641-1665 | holds at every point of reset_node_groups |
| Authorisation.ResetBindingsKeeps | firmware/main/matter_controller.cpp:1680-1700 | holds at every point of reset_bindings |
| Authorisation.ResetAclKeepsIff | firmware/main/matter_controller.cpp:1667-1678 | reset_acl keeps the property exactly when its write fails or nobody has an OnOff target on the node |
| Authorisation.ResetAclCanStrand | firmware/main/matter_controller.cpp:1667-1678 | a bound switch whose light is reset and grants it no more |
| Lockout.NeverLockedOut | firmware/main/matter_controller.cpp:887-912 | after any number of steps of any run, a device whose ACL opened with the controller's Administer grant still does, and one whose ACL has been written has that entry first and no other Administer/CASE entry |
| Lockout.CallsWriteCanonically | firmware/main/matter_controller.cpp:1140-1700 | every ACL any call writes, for any answers, opens with the controller's entry and holds no other Administer/CASE entry |
| Lockout.ListsAreCanonical | firmware/main/matter_controller.cpp:1472-1489 | all three ways of rebuilding an ACL produce such a list from arbitrary entries |
| Membership.MembershipIsASetIff | firmware/main/matter_controller.cpp:1363-1557 | from a device in no group, along any run of successful adds and of removes, key map (shared keyset only), Operate/Group subjects and Groups cluster each hold at every point exactly the groups whose last call was an add, if and only if no call loses anything: each add reads the key map or finds no other group, each remove succeeds throughout or names no member |
| Membership.Added | firmware/main/matter_controller.cpp:1456-1557 | the set of a run holds a group exactly when the last call naming it was an add |
| Membership.AddRefinesIff | firmware/main/matter_controller.cpp:1363-1509 | a successful add changes the set s to s + {g} on all three records exactly when the key map could be read or there was nothing else in it to lose |
| Membership.AddCanUnmap | firmware/main/matter_controller.cpp:1388-1397 | a member of group 5, added to group 6 while its key map cannot be read, that loses the mapping of group 5 |
| Membership.RemoveRefinesIff | firmware/main/matter_controller.cpp:1511-1557 | a remove changes s to s - {g} exactly when all five of its operations succeed or g was no member |
| Effects.AddGoesThroughIff | firmware/main/matter_controller.cpp:1363-1509 | an add succeeds with the map read exactly when the node is there, the shared key is stored and its six operations succeed |
| Effects.RemoveGoesThroughIff | firmware/main/matter_controller.cpp:1511-1557 | all three parts of a remove happen exactly when the node is there and its five operations succeed |
| Effects.AddEffect | firmware/main/matter_controller.cpp:1363-1509 | a successful add leaves the whole network as it was but for one keyset, the mapping, the grant and the membership on that node |
| Effects.AddSucceedsIff | firmware/main/matter_controller.cpp:1363-1509 | an add succeeds exactly when the node is there, the shared key is stored and every operation but the reading of the key map succeeds |
| Effects.InstallEffect | firmware/main/matter_controller.cpp:1363-1399 | a successful install changes that node's keyset and key map and nothing else in the network |
| Effects.RemoveEffect | firmware/main/matter_controller.cpp:1511-1557 | the device after a remove, for each of the eight ways its parts can fail |
| Membership.ListGrants | firmware/main/matter_controller.cpp:1472-1546 | the rebuilt ACL grants Operate to a group exactly when the old one did, but for the group added or removed |
| Membership.MappingChanges | firmware/main/matter_controller.cpp:1390-1395 | adding or removing one mapping changes which groups are mapped by that group alone |
| Membership.CreateBindingKeepsMembersIff | firmware/main/matter_controller.cpp:1140-1239 | a device with members s still has them after create_binding, however far it gets, exactly when s is empty or the ACL was not rewritten |
| Membership.DeleteBindingKeepsMembersIff | firmware/main/matter_controller.cpp:1241-1279 | the same for delete_binding |
| Membership.CreateBindingCanDropGroup | firmware/main/matter_controller.cpp:1188-1192 | a light in group 5 that a successful create_binding takes out of it |
| Membership.DeleteBindingCanDropGroup | firmware/main/matter_controller.cpp:1265-1274 | a light in group 5 that a delete_binding takes out of it |
| Membership.InstallMapsToSharedKeyIff | firmware/main/matter_controller.cpp:1363-1399 | after a successful install_group_key_on_node the group is mapped, and to the shared keyset alone exactly when the map could not be read or no entry of the device named another |
| Membership.InstallKeepsMappingsIff | firmware/main/matter_controller.cpp:1363-1399 | for any key map: a successful install keeps every entry exactly when the map could be read or held only the group's own |
| Membership.InstallCanLeaveOtherKeyset | firmware/main/matter_controller.cpp:1390-1395 | a mapping to keyset 9 that it leaves in place |
| Membership.GroupBindingKeepsTargetsIff | firmware/main/matter_controller.cpp:1572-1588 | a successful create_group_binding keeps the switch's targets exactly when they could be read or there was nothing but that group's target |
| Membership.GroupBindingCanUnbind | firmware/main/matter_controller.cpp:1572-1588 | a bound switch that loses its target when its list cannot be read |
| Effects.GroupBindingEffect | firmware/main/matter_controller.cpp:1559-1607 | a successful create_group_binding changes the switch's Binding lists at the chosen endpoint only |
| Undo.RemoveUndoesAddIff | firmware/main/matter_controller.cpp:1456-1557 | an add that returns ESP_OK, then a remove whose operations all succeed, restore ACL and GroupKeyMap, order included, exactly when both were in the controller's printed form, the ACL in normal form, neither mentioned the group, and the key map could be read or was empty |
| Undo.RemoveCanFailToUndo | firmware/main/matter_controller.cpp:1386-1398 | lists in that form, an add that returns ESP_OK without having read the key map, and a remove after which the mapping of another group is gone |
| Undo.AclRestoredIff | firmware/main/matter_controller.cpp:1472-1546 | the ACL half of it, for any reported ACL |
| Undo.MapRestoredIff | firmware/main/matter_controller.cpp:1388-1397 | the GroupKeyMap half of it |
| Undo.RemoveAfterAdd | firmware/main/matter_controller.cpp:1472-1546 | for any ACL, adding and removing a group gives the list that removing alone gives |
| Undo.AddTwiceIff | firmware/main/matter_controller.cpp:1363-1509 | of two successful adds the second changes nothing in the network exactly when it could read the key map, or that holds this group alone under the shared keyset, and the group is already at the endpoint it meets |
| Undo.DeleteUndoesCreateIff | firmware/main/matter_controller.cpp:1140-1279 | create then delete restores the whole network exactly when the light's ACL is the Administer entry and at most one non-empty, repetition-free Operate entry without the switch, and the switch's list is in printed form without a match |
| Effects.CreateGoesThroughIff | firmware/main/matter_controller.cpp:1140-1239 | create_binding succeeds exactly when endpoints and nodes are there and its four operations succeed |
| Effects.CreateOnLight | firmware/main/matter_controller.cpp:1167-1197 | what any create_binding, complete or not, leaves of the light's ACL, key map and memberships |
| Effects.DeleteOnLight | firmware/main/matter_controller.cpp:1265-1274 | what any delete_binding, complete or not, leaves of the light's ACL, key map and memberships |
| Effects.DeleteGoesThroughIff | firmware/main/matter_controller.cpp:1241-1279 | both halves of delete_binding happen exactly when endpoints and nodes are there and its four operations succeed |
| Undo.GrantRestoredIff | firmware/main/matter_controller.cpp:1167-1274 | the ACL half of it, for any reported ACL |
| Undo.BindingsRestoredIff | firmware/main/matter_controller.cpp:1208-1263 | the Binding half of it, for any reported list |
| Undo.GrantReadsBack | firmware/main/matter_controller.cpp:627-670 | a granted list reads back as its subjects in their order |
| Undo.TargetsReadBack | firmware/main/matter_controller.cpp:588-624 | a written Binding list reads back target by target, reduced to the printed fields |
| Undo.CreateBindsIff | firmware/main/matter_controller.cpp:1140-1239 | after a create_binding that goes through the switch is bound to the light exactly when no group target was mistaken for it |
| Undo.CreateCanBeMistaken | firmware/main/matter_controller.cpp:1212-1224 | a reported group target with the light's node and endpoint, and a create_binding that succeeds without binding |
| Undo.CreateTwiceIff | firmware/main/matter_controller.cpp:1140-1239 | a second create_binding on the resulting network changes nothing exactly when the first was not so mistaken (node 0, endpoint 0 aside) |
| Outcomes.CreateOutcome | firmware/main/matter_controller.cpp:1140-1239 | for every answer and every list handed over: the first answer that is not OK is returned; the grant and the target are written as far as the answers go; the ACL is the controller and everyone handed plus the switch, the list everything handed plus the light unless named, nothing else on any device changes |
| Outcomes.DeleteOutcome | firmware/main/matter_controller.cpp:1241-1279 | the list loses exactly the OnOff targets of the light (on every endpoint if that is unknown), the ACL exactly the switch, each where its answers let it, nothing else changes |
| Outcomes.AddOutcome | firmware/main/matter_controller.cpp:1363-1509 | for every answer: the error returned and the device left, with keyset 1, the mapping to it, the grant in every Operate/Group entry or a new one, and the membership, each as far as the answers go |
| Outcomes.RemoveOutcome | firmware/main/matter_controller.cpp:1511-1557 | each of membership, mapping and grant goes where its answers let it, with the ACL entries that stay |
| Outcomes.CreateGroupOutcome | firmware/main/matter_controller.cpp:1559-1607 | for every answer: the switch is mapped to the group and its list gains the group target, or a new list has it alone when the old could not be read, and the other endpoints keep theirs |
| Outcomes.DeleteGroupOutcome | firmware/main/matter_controller.cpp:1609-1639 | where read and write succeed the list holds exactly what was handed but for the OnOff targets of the group, the other endpoints keep theirs, and the membership of the OnOff endpoint goes when its command succeeds |
| Outcomes.ResetGroupsOutcome | firmware/main/matter_controller.cpp:1641-1665 | for every failure: the key map is empty iff it was or operation 0 succeeded, of the keysets exactly those of 1 to 32 whose removal succeeded go, and the application endpoint is in no group iff it was in none or operation 33 succeeded |
| Outcomes.ResetGroupsKeepsGrants | firmware/main/matter_controller.cpp:1641-1665 | what that makes of a member of s: mapping and membership go with operations 0 and 33, the ACL keeps granting s, so the device is in no group only if s is empty |
| Outcomes.ResetAclOutcome | firmware/main/matter_controller.cpp:1667-1678 | the ACL is the entry of node 112233 with privilege 5 over auth mode 2 alone, and its error is returned |
| Outcomes.ResetBindingsOutcome | firmware/main/matter_controller.cpp:1680-1700 | the list of the first switch endpoint is empty where the write succeeds |
| Outcomes.EndpointsResolved | firmware/main/matter_controller.cpp:1146-1165 | an endpoint given is taken as it is, 0 stands for the first of the device table, and members join on the first OnOff endpoint or 1 |
| Outcomes.ResetTexts | firmware/main/matter_controller.cpp:1641-1700 | the literal texts that the resets send |
| DeviceLists.ListLosesGroup | firmware/main/matter_controller.cpp:1617-1621 | report by report: what is written back is every readable report but the OnOff targets of the group |
| DeviceLists.ListGainsGroup | firmware/main/matter_controller.cpp:1578-1584 | every readable report, and the OnOff target of the group if none was there |
| DeviceLists.ListLosesLight | firmware/main/matter_controller.cpp:1253-1259 | every readable report but the OnOff targets of the light on that endpoint, or on any if it is 0 |
| DeviceLists.ListGainsLight | firmware/main/matter_controller.cpp:1212-1218 | every readable report, and the target if none has its node, endpoint and cluster |
| DeviceLists.MapGains | firmware/main/matter_controller.cpp:1390-1395 | every complete mapping, and the group under keyset 1 if it is in none |
| DeviceLists.MapLoses | firmware/main/matter_controller.cpp:1522-1525 | every complete mapping of another group |
| DeviceLists.AclGains | firmware/main/matter_controller.cpp:1472-1489 | the controller first, then every entry but Administer/CASE ones, with the group in every Operate/Group entry or in a new one |
| DeviceLists.AclLoses | firmware/main/matter_controller.cpp:1533-1551 | the controller first, then every entry with privilege and auth mode but Administer/CASE ones, group entries without the group unless nothing is left of them |
| DeviceLists.GroupTargetsKeepOrder | firmware/main/matter_controller.cpp:1617-1621 | what the loop keeps stays in order |
| Fabric.OperateSubjects | firmware/main/matter_controller.cpp:627-670 | on_acl_read_attr's result names exactly the subjects of Operate/CASE entries, each once |
| Fabric.ReadTargets | firmware/main/matter_controller.cpp:588-624 | the Binding reader keeps exactly the group targets and the unicast targets with endpoint and cluster |
| Fabric.ReadKeyMap | firmware/main/matter_controller.cpp:714-742 | the key map reader keeps exactly the entries with both fields |
| Fabric.AclReadsBack | firmware/main/matter_controller.cpp:674-711 | an ACL that was written reads back entry by entry |
| Fabric.KeyMapReadsBack | firmware/main/matter_controller.cpp:714-742 | a key map that was written reads back entry by entry |
| Fabric.WrittenTargets | firmware/main/matter_controller.cpp:588-624 | the targets read from a written list are exactly the printed forms of those written |
| Fabric.ApplySplit | firmware/main/matter_controller.cpp:874-885 | carrying out two lists of steps one after the other is carrying out their concatenation |
| Calls.Drop | firmware/main/matter_controller.cpp:1268-1271 | removing a subject removes it alone and everywhere, and nothing if it is absent |
| Calls.WithoutTarget | firmware/main/matter_controller.cpp:1253-1259 | delete_binding's list holds exactly the targets that do not match |
| Calls.WithoutGroupTarget | firmware/main/matter_controller.cpp:1617-1621 | delete_group_binding's list holds exactly the targets that are not that group's OnOff target |
| Calls.WithoutMapping | firmware/main/matter_controller.cpp:1522-1525 | the key map without the group's entries, and nothing else missing |
| Controller.Controller.OnBindingReadAttr | firmware/main/matter_controller.cpp:588-624 | the callback replaces its snapshot by exactly the reported targets it accepts |
| Controller.Controller.OnAclReadAttr | firmware/main/matter_controller.cpp:627-670 | the callback replaces its snapshot by the Operate/CASE subjects |
| Controller.Controller.OnAclReadFull | firmware/main/matter_controller.cpp:674-711 | the callback replaces its snapshot by every entry, absent fields as zero |
| Controller.Controller.OnGroupKeyMapReadAttr | firmware/main/matter_controller.cpp:714-742 | the callback replaces its snapshot by the complete entries |
| Controller.Controller.CreateBinding | firmware/main/matter_controller.cpp:1140-1239 | the code, with its snapshots and its two texts, carries out exactly the steps and returns the error that Calls.CreateBinding gives for these answers |
| Controller.Controller.GrantSwitch | firmware/main/matter_controller.cpp:1167-1197 | its first half: on success the light's ACL is the canonical list with the switch in it, otherwise nothing has changed |
| Controller.Controller.BindTarget | firmware/main/matter_controller.cpp:1199-1234 | its second half: on success the light is a target as Calls.WithTarget says, otherwise nothing has changed |
| Controller.Controller.DeleteBinding | firmware/main/matter_controller.cpp:1241-1279 | the same for delete_binding |
| Controller.Controller.UnbindTarget | firmware/main/matter_controller.cpp:1250-1263 | its first half, best effort, leaves the targets that do not match |
| Controller.Controller.RevokeGrant | firmware/main/matter_controller.cpp:1265-1274 | its second half, best effort, leaves the other subjects |
| Controller.Controller.InstallGroupKeyOnNode | firmware/main/matter_controller.cpp:1363-1399 | the same for install_group_key_on_node, a failed read counting as an empty map |
| Controller.Controller.AddGroupMember | firmware/main/matter_controller.cpp:1456-1509 | the same for add_group_member |
| Controller.Controller.AdmitGroup | firmware/main/matter_controller.cpp:1466-1496 | its ACL part, on what the device reported |
| Controller.Controller.RemoveGroupMember | firmware/main/matter_controller.cpp:1511-1557 | the same for remove_group_member and all its partial failures |
| Controller.Controller.UnmapGroup | firmware/main/matter_controller.cpp:1519-1528 | its key map part, best effort |
| Controller.Controller.ExpelGroup | firmware/main/matter_controller.cpp:1530-1552 | its ACL part, best effort |
| Controller.Controller.CreateGroupBinding | firmware/main/matter_controller.cpp:1559-1607 | the same for create_group_binding |
| Controller.Controller.BindGroup | firmware/main/matter_controller.cpp:1574-1591 | its Binding part: a list that cannot be read counts as empty |
| Controller.Controller.DeleteGroupBinding | firmware/main/matter_controller.cpp:1609-1639 | the same for delete_group_binding, whose effect is Outcomes.DeleteGroupOutcome |
| Controller.Controller.ResetNodeGroups | firmware/main/matter_controller.cpp:1641-1665 | the same for reset_node_groups and its 34 best-effort operations, whose effect is Outcomes.ResetGroupsOutcome |
| Controller.Controller.ResetAcl | firmware/main/matter_controller.cpp:1667-1678 | the same for reset_acl |
| Controller.Controller.ResetBindings | firmware/main/matter_controller.cpp:1680-1700 | the same for reset_bindings |
| Controller.AddTarget | firmware/main/matter_controller.cpp:1212-1218 | the loop adds the light's target only if no entry carries its node, endpoint and cluster |
| Controller.StripTarget | firmware/main/matter_controller.cpp:1253-1259 | the loop keeps exactly the targets that do not match, in order |
| Controller.AddGroupTarget | firmware/main/matter_controller.cpp:1578-1584 | the loop adds the group's target only if no group target for it is there |
| Controller.StripGroupTarget | firmware/main/matter_controller.cpp:1617-1621 | the loop keeps exactly the targets other than the group's, in order |
| Controller.StripMapping | firmware/main/matter_controller.cpp:1522-1525 | the loop keeps exactly the other groups' entries, in order |
| Controller.AdmitEntries | firmware/main/matter_controller.cpp:1472-1489 | the loop rebuilds add_group_member's ACL: one canonical Administer entry, the group in every Operate/Group entry or in a new one, all else as it was |
| Controller.ExpelEntries | firmware/main/matter_controller.cpp:1533-1551 | the loop rebuilds remove_group_member's ACL, dropping invalid entries and emptied group entries |
| ReadProtocol.FreshIff | firmware/main/matter_controller.cpp:825-872 | for any kind of read and any state a run can reach between calls: every way of carrying out the next call that returns ESP_OK leaves its own snapshot, if and only if no earlier read can still call back at its entry |
| ReadProtocol.HandsOnlyOwnIff | firmware/main/matter_controller.cpp:825-872 | every way of carrying out the next call that returns ESP_OK hands over the device's own list, whatever that is, if and only if no earlier read can still call back at its entry |
| ReadProtocol.CallOutcome | firmware/main/matter_controller.cpp:825-872 | entered with nothing in flight, a call ends in OK, FAIL, TIMEOUT or NO_MEM; OK only with a whole list of its own reported and its snapshot in place, FAIL only if none was |
| ReadProtocol.OwnListHanded | firmware/main/matter_controller.cpp:825-872 | entered with nothing in flight, a call that returns ESP_OK holds the list of its own device, and that device is there |
| ReadProtocol.LateReadIntrudes | firmware/main/matter_controller.cpp:834-871 | from any state with an earlier read in flight there is, for any list, an explicit run in which that read makes the call return ESP_OK with the list in the snapshot of its kind, although the call's own read has reported nothing |
| ReadProtocol.StaleReport | firmware/main/matter_controller.cpp:834-871 | a whole run from the start: a read times out, and its late report makes the next call return ESP_OK with that old snapshot |
| ReadProtocol.OwnReadSucceeds | firmware/main/matter_controller.cpp:846-871 | entered with nothing in flight, the call whose own read reports a list returns ESP_OK with that list |
| ReadProtocol.PatientRunsAreFresh | firmware/main/matter_controller.cpp:825-872 | in any run whose callers enter only when every earlier read has ended, a snapshot handed out is fresh and stays so until the next call |
| ReadProtocol.StaleSignal | firmware/main/matter_controller.cpp:835-838 | even between such callers the semaphore can hold an old signal when a read starts, so the drain is needed |
| ReadRuns.PatientRunsAreAuthorisedIff | firmware/main/matter_controller.cpp:825-1700 | a run of calls whose reads are carried out by the blocking read, each entered after the earlier ones have ended, keeps every state authorised exactly when every delete_binding and reset_acl is safe where it starts, whatever timed out |
| ReadRuns.LateReportStrands | firmware/main/matter_controller.cpp:825-1239 | a whole run of the blocking read in which a late report hands the subjects of one light to another, and a bound switch loses its grant |
| ReadRuns.PatientReadsSeeOwn | firmware/main/matter_controller.cpp:825-872 | in such a run every read fails or is handed the device's own list |
| ReadRuns.OwnReadsPerform | firmware/main/matter_controller.cpp:1140-1700 | a call whose successful reads are handed the devices' own lists does what it does where no report is late |
| Serialiser.AclTextReadsBack | firmware/main/matter_controller.cpp:890-912 | reading the text of an ACL gives back every printed field, entry by entry |
| Serialiser.BindingTextReadsBack | firmware/main/matter_controller.cpp:914-932 | the same for a Binding list, group and unicast targets mixed |
| Serialiser.KeyMapTextReadsBack | firmware/main/matter_controller.cpp:1327-1338 | the same for a GroupKeyMap |
| Serialiser.TextDeterminesList | firmware/main/matter_controller.cpp:890-932 | two lists with the same text agree on every printed field |
| Serialiser.EmptyTexts | firmware/main/matter_controller.cpp:890-932 | the literal text of an empty list of each kind |
| Serialiser.AdminText | firmware/main/matter_controller.cpp:890-912 | the literal text of the controller entry alone, and what a device reads in it |
| Serialiser.UnicastTextSpelled | firmware/main/matter_controller.cpp:924-928 | the literal text of a unicast target, and what a device reads in it |
| Serialiser.GroupTextSpelled | firmware/main/matter_controller.cpp:920-923 | the literal text of a group target, and what a device reads in it |
| Serialiser.MappingTextSpelled | firmware/main/matter_controller.cpp:1327-1338 | the literal text of one mapping, and what a device reads in it |
| Serialiser.AclTextGrows | firmware/main/matter_controller.cpp:1342-1359 | the text of any ACL in literals: opening, separators, keys, and tail |
| Serialiser.SubjectsGrow | firmware/main/matter_controller.cpp:1351-1354 | the subjects of any entry in literals, by the last |
| Serialiser.BindingTextGrows | firmware/main/matter_controller.cpp:914-932 | the text of any Binding list in literals, by its last target |
| Serialiser.KeyMapTextGrows | firmware/main/matter_controller.cpp:1327-1338 | the text of any key map in literals, by its last entry |
| Serialiser.BuildAclJson | firmware/main/matter_controller.cpp:890-912 | build_acl_json prints the Administer entry and the Operate entry if it has subjects, with no chunk over its 96-byte buffer |
| Serialiser.AppendSubjects | firmware/main/matter_controller.cpp:1351-1354 | the subjects loop prints them comma-separated, each chunk within the buffer |
| Serialiser.BuildAclEntriesJson | firmware/main/matter_controller.cpp:1342-1359 | build_acl_entries_json prints every entry, each chunk within the buffer |
| Serialiser.BuildBindingJson | firmware/main/matter_controller.cpp:914-932 | build_binding_json prints every target in its own form, each chunk within the buffer |
| Serialiser.BuildGroupKeyMapJson | firmware/main/matter_controller.cpp:1327-1338 | build_groupkeymap_json prints every entry, each chunk within the buffer |
| Serialiser.TargetFits | firmware/main/matter_controller.cpp:920-927 | no target, whatever its fields, prints 80 characters or more |
| Decimal.DecWidths | firmware/main/matter_controller.cpp:890-932 | a field of 8, 16, 32 or 64 bits prints in at most 3, 5, 10 or 20 digits |
| Decimal.ValueOfDec | firmware/main/matter_controller.cpp:890-932 | a printed number has that value |
| Decimal.ParsePrinted | firmware/main/matter_controller.cpp:890-932 | a printed number before a non-digit is read back, and what follows is left |
| ParentResolver.ComputeDepths | firmware/main/device_manager.cpp:495-512 | for any parts graph the search ends, pushes each id at most once, and records a depth exactly for the ids reachable from endpoint 0, equal to the length of a shortest path |
| ParentResolver.NoShorterPath | firmware/main/device_manager.cpp:495-512 | once every recorded id is settled, any path from 0 ends at an id with a recorded depth no greater than its length |
| ParentResolver.BfsStep | firmware/main/device_manager.cpp:501-510 | one turn keeps the queue invariant: depths of queued ids ascend and span at most two levels, and popped ids are settled |
| ParentResolver.BuildClaimants | firmware/main/device_manager.cpp:487-493 | the first pass collects for every id who lists it, in table order |
| ParentResolver.PickDeepest | firmware/main/device_manager.cpp:521-531 | the inner loop picks the first claimant of greatest depth, an unreached one counting as 0 |
| ParentResolver.ResolveEndpoints | firmware/main/device_manager.cpp:478-536 | the whole pass sets every parent to the resolved one and nothing else |
| Topology.Depth | firmware/main/device_manager.cpp:495-512 | the depth is the length of a shortest path from endpoint 0, and 0 for what cannot be reached |
| Topology.Claimants | firmware/main/device_manager.cpp:487-493 | the claimants of an id are exactly the endpoints that list it |
| Topology.ResolvedParentIsUnique | firmware/main/device_manager.cpp:514-532 | an endpoint has only one resolved parent |
| Topology.EarliestDeepest | firmware/main/device_manager.cpp:521-531 | it is the earliest endpoint of the table among the deepest claimants |
| Topology.NoParentIffUnclaimed | firmware/main/device_manager.cpp:514-520 | there is none exactly when nobody lists the endpoint |
| Topology.TreeRecovery | firmware/main/device_manager.cpp:478-536 | a tree of any depth is recovered, whether endpoint 0 lists its children or all descendants |
| Topology.FullFamilyRecovery | firmware/main/device_manager.cpp:478-536 | where every endpoint lists all its descendants, the true parent is found exactly when it is the root or stands first in the table among the non-root endpoints that list the child |
| Topology.FamilyDepth | firmware/main/device_manager.cpp:495-512 | in such a tree every endpoint but the root has depth 1 |
| Topology.FullFamilyMisplaces | firmware/main/device_manager.cpp:478-536 | a chain of four such endpoints puts the last under its grandparent |
| Topology.HasRealParent | firmware/main/device_manager.cpp:478-536 | a reachable endpoint other than 0 gets a parent that lists it, in any graph |
| Topology.ParentsLeadToRoot | firmware/main/device_manager.cpp:478-536 | in an acyclic graph with every endpoint reachable, the recorded parents lead from any endpoint to 0 in fewer steps than there are endpoints |
| Topology.TreesLeadToRoot | firmware/main/device_manager.cpp:478-536 | every tree of endpoints, whichever way endpoint 0 lists it, is such a graph |
| DeviceTable.DeviceManager.AddDevice | firmware/main/device_manager.cpp:173-183 | the node is known afterwards, nodes that had one record each still do, and no earlier record changes |
| DeviceTable.EditKeepsNodes | firmware/main/device_manager.cpp:212-268 | no change to one device's endpoints gives a node a second record |
| DeviceTable.EditChangesOne | firmware/main/device_manager.cpp:212-268 | nothing but the endpoints of the first record of the node changes |
| DeviceTable.DeviceManager.AddEndpoint | firmware/main/device_manager.cpp:212-224 | only the endpoint list of that node changes, by at most one entry |
| DeviceTable.DeviceManager.AddDeviceType | firmware/main/device_manager.cpp:226-238 | only that endpoint changes, by a type it did not have; unknown ids are errors and change nothing |
| DeviceTable.DeviceManager.AddEndpointPart | firmware/main/device_manager.cpp:464-476 | only that endpoint changes, by a part it did not list; unknown ids are errors and change nothing |
| DeviceTable.DeviceManager.SetEndpointLabel | firmware/main/device_manager.cpp:249-258 | only that endpoint's label changes |
| DeviceTable.DeviceManager.SetPrimaryDeviceType | firmware/main/device_manager.cpp:240-247 | only that node's primary type changes |
| DeviceTable.DeviceManager.ClearDeviceEndpoints | firmware/main/device_manager.cpp:550-557 | only that node's endpoints go |
| DeviceTable.DeviceManager.ResolveParents | firmware/main/device_manager.cpp:478-536 | every endpoint of the node has its resolved parent, and nothing else in the table changes |
| DeviceTable.DeviceManager.GetOnOffEndpoint | firmware/main/device_manager.cpp:346-367 | the earliest endpoint with one of the device types 0x0100, 0x0101, 0x010A, 0x010C and 0x010D, none exactly if there is none |
| DeviceTable.DeviceManager.GetSwitchEndpoint | firmware/main/device_manager.cpp:369-390 | the earliest endpoint with one of the device types 0x0103, 0x0104, 0x0105 and 0x000F, none exactly if there is none |
| DeviceTable.DeviceManager.Persist | firmware/main/device_manager.cpp:568-627 | the loops build the document of the whole table |
| DeviceTable.DeviceManager.LoadFromDisk | firmware/main/device_manager.cpp:67-141 | an unusable file changes nothing; a usable one appends its devices and sets the next id |
| DeviceTable.FirstHostIsFirst | firmware/main/device_manager.cpp:346-390 | the result is the id of the earliest endpoint with a wanted type, and there is none exactly when no endpoint has one |
| DeviceTable.EndpointsAreFirst | firmware/main/device_manager.cpp:338-390 | the five OnOff and the four switch device types in numbers |
| DeviceTable.SaveAndReload | firmware/main/device_manager.cpp:67-141 | persist, then load into an empty table: the table returns (subscriptions off) exactly when it is storable; a text over 65536 bytes loads as nothing |
| DeviceStore.TableReloads | firmware/main/device_manager.cpp:67-141 | the document gives back the table and next id exactly when every id is a double, every device type is below 2^31 and no text holds a NUL |
| DeviceStore.DeviceReloads | firmware/main/device_manager.cpp:82-136 | the same for one device |
| DeviceStore.EndpointReloads | firmware/main/device_manager.cpp:97-133 | the same for one endpoint |
| DeviceStore.TypesReload | firmware/main/device_manager.cpp:116-123 | device types return exactly when all are below 2^31 |
| DeviceStore.BigTypeIsClamped | firmware/main/device_manager.cpp:116-123 | the device type 2^31 comes back as 2^31 - 1 |
| DeviceStore.SmallIdsAreExact | firmware/main/device_manager.cpp:67-141 | ids up to 2^53 are doubles; 2^53 + 1 is not |
| DeviceStore.TableFields | firmware/main/device_manager.cpp:568-576 | the names of the two fields of the saved document |
| DeviceStore.DeviceFields | firmware/main/device_manager.cpp:576-586 | the names and values of a saved device |
| DeviceStore.EndpointFields | firmware/main/device_manager.cpp:588-606 | the names and values of a saved endpoint, the parent only if there is one |
| DeviceStore.DefaultsAreEmpty | firmware/main/device_manager.cpp:97-133 | fields that are missing or of another type load as 0, empty, false or no parent |
| DeviceStore.EndpointDefaults | firmware/main/device_manager.cpp:97-133 | the same for a saved endpoint: 0, no parent, empty, not included |
| DeviceStore.OnlyNumbersLoad | firmware/main/device_manager.cpp:116-130 | of the saved types and parts exactly the numbers load |
| Interrogation.TableIsFaithful | firmware/main/matter_controller.cpp:267-337 | after any reports in any order the table holds, without duplicates, exactly the endpoints and types reported and the parts listed by a report that comes when its endpoint is known or names that endpoint no later than the part |
| Interrogation.TypesFirstRecordsAll | firmware/main/matter_controller.cpp:267-337 | where each DeviceTypeList comes before its PartsList these are all the parts reported |
| Interrogation.OrderDoesNotMatter | firmware/main/matter_controller.cpp:267-337 | two such orders of the same reports give the same endpoints, types and parts |
| ReportOrder.ParentIsSettledIff | firmware/main/device_manager.cpp:478-536 | every such order gives an endpoint the same parent exactly when no two of its claimants tie for the greatest depth |
| ReportOrder.TreesAreSettled | firmware/main/device_manager.cpp:478-536 | in a tree every such order gives every endpoint the same parent |
| ReportOrder.AnyDeepestCanWin | firmware/main/device_manager.cpp:514-532 | any claimant among the deepest is the parent in some such order |
| ReportOrder.PrimaryIsSettledIff | firmware/main/matter_controller.cpp:202-220 | every such order gives the same primary type exactly when the endpoint it comes from was not described with two different first types |
| Interrogation.PartsNeedTheirEndpoint | firmware/main/matter_controller.cpp:277-290 | any PartsList, repetitions included, is recorded whole exactly when its endpoint is known or every id in it stands at or after a mention of the endpoint itself |
| Interrogation.LatePartsEffect | firmware/main/matter_controller.cpp:277-290 | from a PartsList of an unknown endpoint exactly those parts are recorded that stand at or after its own id |
| Interrogation.EarlyPartsAreLost | firmware/main/matter_controller.cpp:277-316 | one pair of reports in both orders: parts that come first are lost |
| Interrogation.LabelsAreLast | firmware/main/matter_controller.cpp:327-336 | after any reports an endpoint has the label last reported for it |
| Interrogation.NoLabelIsEmpty | firmware/main/matter_controller.cpp:327-336 | and an empty one if none was |
| Interrogation.IndexesAgree | firmware/main/matter_controller.cpp:291-316 | after any reports in any order the table lists the pending types of every endpoint, without their repetitions |
| Interrogation.PrimaryFromEitherIndex | firmware/main/matter_controller.cpp:202-220 | the primary type chosen from the pending map is the one the finished table gives |
| Interrogation.PrimaryIsUnique | firmware/main/matter_controller.cpp:202-220 | the rule determines one type |
| Interrogation.PrimaryIsZeroIffNone | firmware/main/matter_controller.cpp:202-220 | it is 0 exactly when no endpoint has a type other than the root node's |
| Interrogation.MainType | firmware/main/matter_controller.cpp:207-210 | a type listed and not the root node's, or none exactly when there is no such type |
| Interrogation.MainIsFirst | firmware/main/matter_controller.cpp:207-210 | the earliest type in the list other than 0x16 |
| Interrogator.SelectPrimary | firmware/main/matter_controller.cpp:202-220 | the two loops over the ascending map find that type |
| Interrogator.Interrogator.OnAttr | firmware/main/matter_controller.cpp:267-337 | each report changes the table and the pending map as the report says, for that node alone |
| Interrogator.Interrogator.OnDeviceTypes | firmware/main/matter_controller.cpp:291-316 | a DeviceTypeList adds its non-zero types to both indexes |
| Interrogator.Interrogator.OnParts | firmware/main/matter_controller.cpp:277-290 | a PartsList adds endpoints and parts to the table |
| Interrogator.Interrogator.OnDone | firmware/main/matter_controller.cpp:339-365 | the primary type is set, the pending types go, the parents are resolved, and no other device changes |
| Interrogator.Interrogate | firmware/main/matter_controller.cpp:267-365 | from an empty node, any reports and the end of the interrogation: the parents are those of the graph recorded and the primary type is the table's own |
| CoapFormat.DecodeEncode | firmware/main/thread_meshcop.cpp:220-251 | every message of the grammar is decoded to itself |
| CoapFormat.EncodeDecode | firmware/main/thread_meshcop.cpp:220-251 | every string accepted is the encoding of the message decoded |
| CoapFormat.GrammarIsExact | firmware/main/thread_meshcop.cpp:220-251 | so acceptance is being an encoding, of one message only |
| CoapFormat.OptHeaderSpelled | firmware/main/thread_meshcop.cpp:237-246 | an option header by its bytes: 13 announces one byte more, 14 two, after 13 and 269 are taken off |
| CoapFormat.MessageSpelled | firmware/main/thread_meshcop.cpp:220-251 | a message by its bytes |
| CoapWalk.WalkMatchesGrammar | firmware/main/thread_meshcop.cpp:229-249 | the firmware's walk, without a wrapping length, accepts what the grammar accepts, with the same payload |
| CoapWalk.WalkAcceptsIff | firmware/main/thread_meshcop.cpp:229-249 | on any bytes the walk accepts with payload p exactly when they are options whose values are as long as 16 bits make of their announced lengths, followed by p |
| CoapWalk.MisspelledIff | firmware/main/thread_meshcop.cpp:229-249 | such a list is spelled exactly when the walk meets a wrapping length and accepts |
| CoapWalk.WalkMisreadsIff | firmware/main/thread_meshcop.cpp:229-249 | in at most 65536 bytes the walk and the grammar differ in verdict on exactly the strings that spell a list in which some option announces 65536 bytes or more; on all others they agree on the payload too |
| CoapWalk.GrammarRefusesWraps | firmware/main/thread_meshcop.cpp:237-246 | there the grammar refuses every string with such a length |
| Coap.LongOptionAccepted | firmware/main/thread_meshcop.cpp:237-246 | a datagram of seven bytes, with an option of announced length 65536 and no value, that is accepted and is no message of the grammar |
| Coap.PutOption | firmware/main/thread_meshcop.cpp:177-186 | one option is appended and the cursor moved past it, or the buffer is untouched, exactly when delta or length is 13 or more or it does not fit |
| Coap.PutPath | firmware/main/thread_meshcop.cpp:201-206 | the options loop succeeds exactly when every segment is short and all fit, and leaves the encoded options |
| Coap.BuildPost | firmware/main/thread_meshcop.cpp:188-217 | fails exactly when cap is below 8, a segment has 13 bytes or more, or the exact size exceeds cap; otherwise the buffer holds the encoding of the POST and nothing beyond cap is touched |
| Coap.PostRoundTrip | firmware/main/thread_meshcop.cpp:188-251 | what is built parses with code 0x02 and exactly the payload, decodes to version 1, confirmable, the id and the token, and its options are the segments in order, all number 11 |
| Coap.PostSpelled | firmware/main/thread_meshcop.cpp:188-217 | the request byte by byte: 0x44, 0x02, the id high byte first, the token, the path, 0xFF and the payload, and its exact length |
| Coap.PathSpelled | firmware/main/thread_meshcop.cpp:203-208 | its path: each segment after a byte with its length, the first with 11 in the upper half |
| Coap.SkipOption | firmware/main/thread_meshcop.cpp:229-246 | one turn of the parser moves strictly past the option it read, or gives up |
| Coap.Parse | firmware/main/thread_meshcop.cpp:220-251 | on any bytes the parser returns what the walk gives, the payload being the rest of the buffer |
| Coap.ParserMatchesGrammar | firmware/main/thread_meshcop.cpp:220-251 | without a wrapping length exactly the encoded messages are accepted, with their code and payload |
| Coap.ParserMisreadsIff | firmware/main/thread_meshcop.cpp:220-251 | in at most 65536 bytes the verdict on a whole datagram differs from the grammar exactly when its tail spells an overlong option |
| Coap.EndsInMarkerIff | firmware/main/thread_meshcop.cpp:229-236 | an empty payload is reported exactly when the options are followed by the marker alone |
| Coap.ConformingIff | firmware/main/thread_meshcop.cpp:220-251 | the same for datagrams of any size without a wrapping length, where the first three faults are the only ones |
| Coap.AcceptedConformsIff | firmware/main/thread_meshcop.cpp:220-251 | a datagram of at most 65536 bytes is a message of version 1, with a token of at most 8 bytes and no empty payload, exactly when it is accepted and shows none of four faults on its bytes: another version, a longer token, a marker at the end, an overlong option |
| Coap.EmptyPayloadAccepted | firmware/main/thread_meshcop.cpp:220-251 | a datagram with nothing after the payload marker that is accepted |
| Coap.LongTokenAccepted | firmware/main/thread_meshcop.cpp:220-251 | a datagram with a nine-byte token that is accepted |
| Coap.OtherVersionAccepted | firmware/main/thread_meshcop.cpp:220-251 | a datagram of version 2 that is accepted |
| Coap.ReceivesEncoded | firmware/main/thread_meshcop.cpp:220-251 | every message whose option values are below 65536 bytes is received with its code and payload |
| Tlv.Find | firmware/main/thread_meshcop.cpp:293-313 | on any bytes the search returns the first value of the type among the TLVs read, lying inside the buffer, or nothing if there is none |
| Tlv.FindInEncoding | firmware/main/thread_meshcop.cpp:293-313 | on an encoded list, extended lengths included, it finds the list's own first value of the type |
| Tlv.ParseSplits | firmware/main/thread_meshcop.cpp:293-313 | the bytes are the encoding of the TLVs read and a rest that opens with no complete TLV |
| Tlv.ParseIsMaximal | firmware/main/thread_meshcop.cpp:293-313 | no longer list is encoded at the front |
| Tlv.ParseEncoded | firmware/main/thread_meshcop.cpp:293-313 | an encoded list is read back whole |
| Tlv.FirstIsFirst | firmware/main/thread_meshcop.cpp:293-313 | the value searched for is that of the earliest TLV of the type |
| Tlv.TlvSpelled | firmware/main/thread_meshcop.cpp:293-313 | a TLV by its bytes |
| Hex.BytesToHex | firmware/main/thread_credentials.cpp:54-63 | the loop prints two digits a byte |
| Hex.HexToBytes | firmware/main/thread_credentials.cpp:65-84 | succeeds exactly on an even number of hex digits of either case, and what is left in the output otherwise is stated |
| Hex.HexRoundTrip | firmware/main/thread_credentials.cpp:54-84 | decoding undoes encoding for every byte string |
| Hex.HexNormalises | firmware/main/thread_credentials.cpp:54-84 | encoding undoes decoding up to the case of the digits |
| Hex.HexSpelled | firmware/main/thread_credentials.cpp:54-63 | the two digits of every byte by their character codes, upper case |
| Metadata.ParseDatasetMetadata | firmware/main/thread_credentials.cpp:90-119 | from an empty record the loop leaves what the entries tell: each field as the last entry that tells it has it |
| Metadata.LastPanIdWins | firmware/main/thread_credentials.cpp:105-107 | the PAN ID is that of the last entry of its type with two bytes |
| Metadata.PanIdUntouched | firmware/main/thread_credentials.cpp:90-119 | without such an entry the PAN ID stays what it was |
| Metadata.NotesDescribe | firmware/main/thread_credentials.cpp:90-119 | channel from the second and third byte of the last type-0 entry with three, PAN ID from the first two of the last type-1 entry with two, extended PAN ID from the last type-2 entry of eight, name from the last type-3 entry, each unknown without one |
| Metadata.EntriesSplit | firmware/main/thread_credentials.cpp:92-118 | the dataset is its entries, type, length and value after one another, and a rest shorter than it announces |
| Metadata.WalkersAgree | firmware/main/thread_credentials.cpp:90-119 | this walker and the search see the same TLVs exactly when no complete header has length byte 0xFF |
| Metadata.WalkersCanDiffer | firmware/main/thread_credentials.cpp:93-97 | a PAN ID TLV with a 2-byte length that the search reads and this walker does not |
| Metadata.PanIdIsTheFoundOne | firmware/main/thread_credentials.cpp:90-119 | then, with distinct types, the PAN ID is that of the TLV the search finds |
| Credentials.StoreReloads | firmware/main/thread_credentials.cpp:125-193 | what a store writes loads back field by field exactly when the time is a double |
| Credentials.StoredKeeps | firmware/main/thread_credentials.cpp:281-287 | the record holds the dataset whole, what its entries tell, and the host up to a NUL |
| Credentials.StoreReloadsButTime | firmware/main/thread_credentials.cpp:125-193 | whatever becomes of the time, dataset, host and what the entries tell come back |
| Credentials.SavedFields | firmware/main/thread_credentials.cpp:128-138 | the names and values of the other saved fields |
| Credentials.SavedMetadata | firmware/main/thread_credentials.cpp:133-136 | the names and values of the saved metadata |
| Credentials.LoadAcceptsIff | firmware/main/thread_credentials.cpp:178-191 | a document counts as credentials exactly when it says so and its dataset is hex; otherwise nothing but dataset bytes may have changed |
| Credentials.MetadataIsRecomputed | firmware/main/thread_credentials.cpp:178-191 | whatever metadata a file claims, the loaded record holds its dataset and what its entries tell |
| Credentials.StoreAndRestart | firmware/main/thread_credentials.cpp:275-291 | store, restart, load: the dataset given, what its entries tell and the host are back, the time exactly when it is a double, and nothing at all if the text is over 4096 bytes |
| Credentials.TimeReloads | firmware/main/thread_credentials.cpp:187-188 | times up to 2^53 either way reload |
| Credentials.CredentialStore.Store | firmware/main/thread_credentials.cpp:275-291 | a missing, empty or over 256 byte dataset changes nothing; otherwise the record holds the dataset whole, what its entries tell, host and time, also in memory when the write fails |
| Credentials.CredentialStore.PersistLocked | firmware/main/thread_credentials.cpp:125-156 | the file holds the record, or is untouched when the write fails |
| Credentials.CredentialStore.LoadFromDisk | firmware/main/thread_credentials.cpp:158-193 | an unusable file changes nothing, a usable one gives the recomputed record |
| Credentials.CredentialStore.Clear | firmware/main/thread_credentials.cpp:338-346 | the record and the saved credentials go |

## Left out

- MeshCoP session: name resolution, sockets, DTLS, retransmission and the message exchange itself are foreign I/O; the parser is proved for arbitrary bytes.
- Commands: a write or command that returns ESP_OK counts as carried out in one step, any other as not carried out; a device that carries out a write and then reports failure is not modelled.
- Other writers: between two steps of a call no one else changes a device, and calls follow one another; whether the callers of the provisioning API are serialised, and the mutexes of the device table and the pending map, are not part of this model.
- ACL targets and the fabric index: every writer sends null targets and every reader ignores both.
- Group names, KeySetWrite's text, base64 and key generation: a call is told whether the shared epoch key is stored; create_group, delete_group and groupcast_toggle act on the controller's own stack only.
- Read-only views (get_acl, get_binding_table, get_group_state, get_thread_info) and the thread diagnostics callback, which sets the success flag without holding a list.
- ReadProtocol: a report's callback runs between its opening and its closing without another callback in between, as on the stack's single thread; memory exhaustion is the only way to fail before sending.
- The TLV reader: reports arrive as decoded fields with presence flags; a report for another cluster or attribute changes nothing and is omitted.
- Vendor and product names as reported, canvas nodes, subscriptions, the electrical sensor lookup, logging, pairing, factory reset, HTTP, WebSocket and the React application.
- JSON and files: a saved file is a document value and a text size, both parameters where the file system decides; numbers are doubles, and a double out of the target's range, undefined in C, reads as 0 here.
- Coap: an option header so near the end of the address space that the position overflows size_t is not modelled; positions are unbounded.
- Coap.Conforms: the further rules for Empty messages and for particular options are not part of it.
- Coap.BuildPost: the header, the options loop and the payload of one function are three methods.
- ParentResolver: the three passes of one function and their inner loops are methods of their own.
- Controller.Controller.DeleteBinding: its two halves, and the parts of the other calls, are methods of their own.
- Constant buffers: the TLV, hex and dataset functions take their input as a sequence, because they never write to it.
- Membership.MembershipIsASet: the endpoint that the device table gives for the device stays the same over the run.
- Undo.DeleteUndoesCreateIff: both calls meet the same device table.
- OwnLists: the theorems of Membership and Undo that start from what a device holds are about calls whose successful reads are handed the device's own lists; by ReadRuns.PatientReadsSeeOwn and OwnReadsPerform these are the calls whose reads are entered after the earlier ones have ended. What they do with other lists is modelled (Calls, Effects, Controller) and its exact effect proved for authorisation and lock-out only.
- Late reports: a list handed over late may be any list, also one torn while a callback refills it; that a caller copies the snapshot while the callback writes it, a data race, is modelled no further.
