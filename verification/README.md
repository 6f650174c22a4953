# Zoned block device library: a verified model

The library gives programs a Rust interface to zoned block devices: zone reports, zone commands,
positional I/O, exclusive per-zone handles with a locally tracked write pointer, an allocator that
hands those handles out to threads, an asynchronous wrapper, a cursor, and example programs on top.
This project models that stack and proves what its independently written parts must agree on: the
local write pointer and the device's, the allocated set and the handles alive, batched and lazy
reports and the zone list, the byte-level writer and the byte-level reader.

`dafny verify dfyconfig.toml` checks everything.

## How it is laid out

| file | models |
|---|---|
| `zoned_types.dfy` | sectors, zones, errors, filters, byte encodings |
| `device_model.dfy` | the device as a value: layout, index arithmetic, commands, writes, range commands |
| `offset_writes.dfy`, `torn_offset_writes.dfy` | writes at sector offsets, without a handle, and where `write_all_at` may report success wrongly |
| `zoned_device.dfy` | `ZonedDevice` as a class: the kernel's calls as nondeterministic contracts, the FreeBSD platform layer, the public operations with their loops |
| `zone_iterator.dfy` | the lazy zone iterator and the filtered report |
| `handle_model.dfy` | what one handle's operations do to device and handle, as events and runs of events |
| `zone_handle.dfy` | `ZoneHandle` as a class, each method proved against its event |
| `zone_allocator.dfy` | the allocated set and `ZoneAllocator` as classes |
| `torn_writes.dfy` | where `write_all_sequential` may report success wrongly, and exactly when |
| `zone_isolation.dfy` | what one handle's operations leave of other zones |
| `zone_system.dfy` | threads: the steps of allocation, of handle use and of drop, in any interleaving |
| `zone_races.dfy` | lost allocation races, and explicit release of an index in use |
| `zone_calls.dfy` | one allocation call: undisturbed, and what its result says when others interfere |
| `zone_turns.dfy` | interleavings of handles against running each in turn |
| `async_handle.dfy` | tasks sharing one handle behind the mutex |
| `async_payloads.dfy` | what becomes of one task's payload, and how the order of operations relates to time |
| `stored_files.dfy`, `buffered_writer.dfy`, `zone_store.dfy` | the file store: format, buffered writer, both writers, reader |
| `cursor.dfy` | the cursor, against a plain byte array with a position |
| `bench.dfy` | the benchmark's zone-filling loop |

Imperative code is modelled by classes and loops; their contracts equate the new state with a function
of the old one, and the lemmas are about those functions.

## The environment

- **Layout.** Zones are contiguous from sector 0 and as long as the first one, except a last zone that
  may be shorter; `0 < capacity <= len`; the device's length in bytes fits in 64 bits
  (tests/sda_integration.rs:209-253). Zone boundaries are logical block boundaries.
- **Reports** begin with the zone that holds the sector and return any number of consecutive zones from
  one to what was asked for; at or past the end, none. Any report may fail.
- **Writes** are accepted up to any byte, only up to whole sectors when the buffer is whole sectors. In a
  sequential zone they must start at the device's pointer and cannot pass the capacity. A failing write
  changes nothing. A sector partly written counts as written for the device's pointer.
- **Conventional zones** accept writes anywhere, up to the end of the run of conventional zones they are in.
- **Reads** may be short, by whole sectors where whole sectors are asked for; only the device's end gives 0.
- **Commands** follow the diagram at README.md:104-131; one that has no edge there but is accepted
  changes nothing. Zones without a usable write pointer reject every command, except that
  reset-all skips them. A full zone's pointer is `start + len`
  (tests/nullblk_integration.rs:442-458). A reset fills the zone's bytes with a fixed pattern, so that
  stale data is not mistaken for new.
- Sequential-preferred zones behave like sequential-required ones.
- The platform modelled is FreeBSD's, with any ratio of block to sector, and with or without the
  sentinel for full zones. Its `capacity` is the zone length; the model leaves it free below that, since
  handle, allocator and examples are shared with Linux.
- **Integers** have the source's widths. An operation that leaves its type aborts the program, as in builds
  with overflow checks; the model reports that as the outcome `Overflow` (`Aborted` for the cursor), or proves
  that it cannot happen.
- `device.progressive`, where a contract mentions it: a successful write of a non-empty buffer takes at
  least one byte.
- `device.reliable`: kernel calls never fail of themselves; what the device can do, it does. `device.eager`: a
  successful kernel call does as much as it can. `Dependable()` is reliable, writable and progressive. Contracts
  that mention them say when an operation must succeed, those that do not hold on every device.
- The buffered writer is the Rust standard library's: it buffers what is shorter than its spare room,
  flushes before what is longer, and passes on directly what is at least as long as its capacity.

## What came out false, and exactly when it holds

- `remaining_capacity` subtracts below zero exactly on a full zone whose capacity is smaller than its
  length (`RemainingCapacityUnderflow`).
- An explicit `ZoneAllocator::release` breaks exclusive ownership exactly when the index is in someone's
  hands (`ReleaseKeepsExclusive`); a run with one such release ends with two live handles on one zone
  (`ReleaseSharesZone`).
- A handle made from a FreeBSD report starts out of step with its zone exactly when the report hid a full
  zone's pointer (`ConstructAgreesIfShown`).
- A write from a handle in step is sure to keep it in step exactly when the buffer is whole sectors, or the
  handle stands at the capacity (`StepKeptExactly`); for one write, exactly when the device takes whole
  sectors (`EventKeepsStep`).
- Success of `write_all_sequential` means that the buffer lies at the old pointer, for every buffer of a
  length and however its calls are cut, exactly when the zone is not a writable conventional one or the
  length is whole sectors or less than 2 (`WriteAllPlacesExactly`). In every other case some buffer is
  reported as written after the loop has overwritten its own bytes (`WriteAllOverwritesItself`).
- `write_all_at` is documented to have written all bytes when it succeeds (src/device/mod.rs:346-350). They lie at
  the sector, for every buffer of a length and however its calls are cut, exactly when the length is whole
  sectors, or the write does not reach a writable conventional zone with two bytes or more to go
  (`WriteAllAtPlacesExactly`). Inside one zone that zone decides (`TearsInOneZone`); a write that begins in
  a sequential zone reaches a conventional one only by filling zones without a gap at their ends.
- A write is sure to leave other zones alone exactly when it may not cross: it crosses from a writable
  conventional zone with another behind it, if the buffer reaches past the zone's end
  (`ContainedExactly`, `CrossingOverwrites`). Then the order of two handles' operations can matter
  (`CrossingOrderMatters`); otherwise it never does (`SafeInterleavingIsInTurn`), in particular never between
  handles on sequential zones (`SequentialInterleavingIsInTurn`).
- An overflow in `allocate_zone` aborts it before its rollback, so the reservation stays
  (`AllocateZone`, `SomeIndexOverflows`).
- A payload that one task's `write_all_sequential` reported as written stays in one piece whatever the other
  tasks do, unless one of them resets the zone later, or it ends inside a sector of a conventional zone
  (`EveryPayloadIsContiguous`).
- The synchronous file store can store in a sequential zone only files of at most 131064 bytes: beyond
  that its buffer sends the 8-byte header on its own, which puts the handle out of step
  (`WriteFileSync`). The reader refuses an empty file, though the writers store it (`RoundTrip`). A file can
  pass the size check and still not fit once padded (`WriteFileAsync`).
- `reset_zones` is documented to reset all sequential zones overlapping its range
  (src/device/mod.rs:178-186). The reset-all path does (`ResetZones`); the zone-by-zone path stops with an error at the first
  zone that rejects the command, conventional zones among them (`WalkIsRangeCommand`,
  `FullResetPathsAgree`).
- The comment at src/platform/freebsd.rs:687 says the walk visits zones whose start falls in the range;
  the code visits the zones that overlap it, as the public documentation says (`RangeIsOverlap`).

## Model

| member | source | states |
|---|---|---|
| ZonedTypes.RemainingCapacityUnderflow | src/types/mod.rs:260-265 | on every valid zone the subtraction underflows exactly when the pointer lies past the capacity, which with a meaningful pointer means a full zone with capacity below its length; on an active zone the result is the distance to the capacity end, and without a pointer the capacity |
| DeviceModel.Lifecycle | README.md:100-131 | a reset empties a zone and a finish fills it, whatever was commanded before; an opened zone closed and opened again has lost nothing; every command repeated changes nothing more; close and open leave alone what the diagram gives them no edge for |
| DeviceModel.WrittenLifecycle | README.md:107-124 | an accepted write fills a zone exactly when it reaches the last sector of the capacity; otherwise the zone is open, explicitly only if it was, with the pointer just behind the bytes; a reset undoes it |
| DeviceModel.ResetErases | src/device/mod.rs:177-183 | a reset leaves nothing of the zone's bytes and every byte outside it |
| DeviceModel.Reported | src/platform/freebsd.rs:176-195 | a report shows each zone as it is, but for the pointer of a full zone under the sentinel |
| DeviceModel.IndexIsQuotient | src/platform/freebsd.rs:409-418 | in every uniform layout with a shorter last zone, sector divided by zone size is the index of the zone holding the sector |
| DeviceModel.CountIsCapacityRoundedUp | src/platform/freebsd.rs:411-418 | the zone count is the device capacity divided by the zone size, rounded up |
| DeviceModel.IndexTimesSize | src/zone_handle/mod.rs:68-77 | index times zone size is the start of that zone, and lies past the end for every index that names no zone |
| DeviceModel.RangeIsOverlap | src/device/mod.rs:176-183 | the zones between the first and the last index of a range are exactly the zones overlapping the sector range |
| DeviceModel.CommandRangeStep | src/platform/freebsd.rs:689-714 | commanding the next zone extends a range command by exactly that zone, descriptor and bytes |
| ZonedDevices.FlooringKeepsZone | src/platform/freebsd.rs:429-433 | flooring an unaligned sector to a logical block never changes which zone is found, or whether one is |
| ZonedDevices.ZonedDevice.GetDeviceInfo | src/platform/freebsd.rs:390-424 | the zone size and zone count derived from the media size are the first zone's length and the number of zones; fails only where a kernel call did |
| ZonedDevices.ZonedDevice.ReportZones | src/platform/freebsd.rs:426-448 | a non-empty stretch of at most max(n, 1) descriptors beginning with the zone that holds the sector; nothing exactly past the end; exactly that many, or all to the end, where the kernel reports as many as fit |
| ZonedDevices.ZonedDevice.ForEachZoneInRange | src/platform/freebsd.rs:689-714 | terminates without overflow; issues the command once per zone overlapping the range, in ascending order, and to no other; after a failure exactly the zones before it are done, and the next one rejects the command, unless a kernel call failed |
| ZonedDevices.ZonedDevice.ResetZones | src/platform/freebsd.rs:450-461 | rejects exactly empty ranges and those past 64 bits; a range from 0 that reaches zone count times zone size is reset by one command, all or nothing, and on a reliable kernel always, whatever zones reject; any other zone by zone, as far as the first that rejects |
| ZonedDevices.ZonedDevice.CommandZones | src/device/mod.rs:195-216 | open, close and finish over a range: success commands exactly the overlapping zones in order, failure those before the first one that rejects or that the kernel failed |
| ZonedDevices.WalkIsRangeCommand | src/platform/freebsd.rs:689-714 | zone after zone, giving up at the first rejection, gets through exactly when all accept, and then equals the range command |
| ZonedDevices.FullResetPathsAgree | src/platform/freebsd.rs:450-461 | for every range covering the device, shorter last zone included, the walk agrees with reset-all when no zone rejects, and fails otherwise |
| ZonedDevices.ZonedDevice.ReportAllZones | src/device/mod.rs:99-122 | the device's full zone list, each zone once and in order, for every batch size and every short batch; terminates, and fails only where a kernel call did |
| ZonedDevices.ZonedDevice.WriteAllAt | src/device/mod.rs:352-371 | nothing outside the accepted bytes changes, nor any zone they do not reach; for whole-sector buffers the accepted prefix, all of it exactly on success, lies at the sector, and each zone's pointer and condition are as one write of its share leaves them; for all buffers the calls are an execution of the loop that TornOffsetWrites judges; on a dependable device it gives up only where the device cannot take more, and so writes whole sectors that fit their zone |
| TornOffsetWrites.WriteAllAtPlacesExactly | src/device/mod.rs:352-371 | for every sector and length: success of the loop always means that the buffer lies at the sector if and only if the length is whole sectors, or the write reaches no writable conventional zone with two bytes or more to go |
| TornOffsetWrites.WriteAllAtOverwritesItself | src/device/mod.rs:352-371 | in every other case there are a buffer and calls for which the loop succeeds and the device does not hold the buffer |
| TornOffsetWrites.TearsInOneZone | src/device/mod.rs:352-371 | for a write inside one zone that means a writable conventional zone and a length of 2 or more that is not whole sectors |
| ZonedDevices.ZonedDevice.WriteAt | src/device/mod.rs:254-263 | an accepted prefix lies at the sector; a failure changes nothing, and is `InvalidRange` exactly where the byte offset leaves 64 bits; what the device can take is taken on a reliable kernel, all of it on an eager one |
| ZonedDevices.ZonedDevice.WritevAt | src/device/mod.rs:301-310 | the same for the concatenation of the buffers |
| ZonedDevices.ZonedDevice.ReadAt | src/device/mod.rs:271-280 | the bytes read are the device's at the sector, the rest of the buffer is untouched, and 0 means the end; fails only past 64 bits or where the kernel did |
| ZoneIterators.ZoneIterator.constructor | src/device/iter.rs:37-46 | a new iterator stands before the first zone of the list, batch size 0 included |
| ZoneIterators.ZoneIterator.Next | src/device/iter.rs:52-90 | yields exactly the next zone of the device's list, or a report's error, or, once all are yielded, nothing; after an error or the end nothing for ever |
| ZoneIterators.ReportZonesFiltered | src/device/mod.rs:166-175 | the matching zones of the whole list, in order, for every batch size; fails only where a report did |
| ZoneIterators.KeptExactly | src/types/filter.rs:40-49 | a zone of the list is kept if and only if its type is among those given or none is given, and its condition likewise |
| ZoneIterators.FilterZonesOfParts | src/device/mod.rs:166-175 | filtering a list in parts gives the parts of the filtered list, in order |
| ZoneIterators.EmptyFilterKeepsAll | src/types/filter.rs:45-49 | the empty filter keeps every zone: the lazy walk lists what the eager report lists |
| HandleModel.EventKeepsStep | src/zone_handle/mod.rs:103-205 | an operation keeps local and device pointer in agreement; a write if and only if it took whole sectors |
| HandleModel.StepKeptExactly | src/zone_handle/mod.rs:103-115 | before the call: a write is sure to keep a handle in step if and only if the buffer is whole sectors or the handle stands at the capacity |
| HandleModel.WholeBuffersExactly | src/zone_handle/mod.rs:111-113 | before the call: a write is sure to be taken in whole sectors if and only if the buffer is whole sectors or the zone takes no write |
| HandleModel.AppendOnlyLog | src/zone_handle/mod.rs:103-195 | after any run of operations that since the last reset took whole sectors and did not finish the zone, the bytes from the zone's start to the pointer are all bytes accepted since that reset, in order |
| HandleModel.TornWriteBreaksLog | src/zone_handle/mod.rs:111-113 | the proviso is exact: a write keeps the log if and only if it took whole sectors |
| HandleModel.CapacityConserved | src/types/mod.rs:260-265 | over such runs of a handle in step at first, until the zone is full, remaining capacity and bytes accepted since the last reset add up to the capacity, with no underflow |
| HandleModel.RunKeepsStep | src/zone_handle/mod.rs:103-205 | over any run with whole-sector counts the pointers stay in agreement |
| HandleModel.WholeBuffersKeepLog | src/zone_handle/mod.rs:103-195 | the log for every caller who since the last reset offered whole sectors and did not finish, whatever the device took of them |
| HandleModel.WholeBuffersKeepStep | src/zone_handle/mod.rs:103-205 | agreement of the pointers over every run of such a caller |
| HandleModel.WriteAllOutcome | src/zone_handle/mod.rs:160-172 | for whole-sector buffers: a whole-sector prefix, all of the buffer exactly on success, lies at the old pointer, the pointer moved by exactly it, and the log grew by it |
| HandleModel.WriteAllTooLong | src/zone_handle/mod.rs:160-172 | a buffer longer than what is left never succeeds; unless the device fails or takes nothing, the result is `ZoneFull` with the zone filled exactly to its capacity |
| HandleModel.WriteAllSucceeds | src/zone_handle/mod.rs:153-172 | wherever the calls stop, a buffer of whole sectors that fits below the capacity succeeds, unless the loop stops while the zone would take the rest |
| HandleModel.WriteAllFills | src/zone_handle/mod.rs:153-172 | in step, a buffer that does not fit fails with the pointer at the capacity, and exactly what fits accepted, unless the loop stops while the zone would take the rest |
| HandleModel.WriteAllInStep | src/zone_handle/mod.rs:160-172 | in step with its zone, success means the whole buffer lies at the old pointer, whatever its length and wherever calls stopped; in step afterwards exactly for whole sectors |
| TornWrites.WriteAllPlacesExactly | src/zone_handle/mod.rs:160-172 | for every handle and length: success always means that the buffer lies at the old pointer if and only if the zone is not a writable conventional one, or the length is whole sectors or less than 2 |
| TornWrites.WriteAllOverwritesItself | src/zone_handle/mod.rs:160-172 | in every writable conventional zone and for every other length there are a buffer and calls for which the loop succeeds and the device does not hold the buffer |
| TornWrites.SomeZoneTears | src/zone_handle/mod.rs:160-172 | such zones exist for every such length |
| HandleModel.OutOfStepRejects | src/zone_handle/mod.rs:103-115 | a handle out of step with its sequential zone cannot write to it |
| ZoneHandles.ZoneHandle.New | src/zone_handle/mod.rs:63-90 | a handle with the geometry and pointer of a fresh report of its zone; besides a failing kernel call only an index that names no zone fails, with `InvalidRange` or, where index times zone size leaves 64 bits, by aborting |
| ZoneHandles.OpenedValid | src/zone_handle/mod.rs:80-88 | a handle made from a report takes its geometry, and its pointer where one is shown, otherwise the zone's start; it is in step with its zone exactly when the report did not hide a full zone's pointer |
| ZoneHandles.ZoneHandle.WriteSequential | src/zone_handle/mod.rs:103-115 | one write event: pointer advanced by the whole sectors taken, log extended by the bytes taken; `ZoneFull` exactly at the capacity; errors change nothing; where the zone takes writes a reliable kernel takes this one, an eager one all that fits |
| ZoneHandles.ZoneHandle.WritevSequential | src/zone_handle/mod.rs:139-151 | the same for the concatenation of the buffers |
| ZoneHandles.ZoneHandle.WriteAllSequential | src/zone_handle/mod.rs:160-172 | terminates; the calls it made are an execution of the loop whose outcome the HandleModel lemmas describe; on a dependable device it stops only when all is written or the zone takes no more: whole sectors that fit below the capacity get `Ok`, more than that, in step, gets `ZoneFull` with the pointer at the capacity |
| ZoneHandles.ZoneHandle.Reset | src/zone_handle/mod.rs:177-181 | success resets exactly the handle's own zone, which is then empty and in step if it has a pointer, and means that the zone is sequential or the only one; failure changes nothing, and on a reliable kernel means that the zone has no pointer and is not the only one |
| ZoneHandles.ZoneHandle.Manage | src/zone_handle/mod.rs:186-195 | open and close command exactly the handle's own zone and keep the log; an active zone is then explicitly open, or closed unless it was empty; on a reliable kernel success is exactly for zones with a pointer |
| ZoneHandles.ZoneHandle.Finish | src/zone_handle/mod.rs:201-205 | success fills exactly the handle's own zone and moves the pointer to its end; failure changes nothing; on a reliable kernel success is exactly for zones with a pointer |
| ZoneHandles.ZoneHandle.Drop | src/zone_handle/mod.rs:262-268 | gives back its own index and no other, if an allocator issued it |
| AllocatorInners.AllocatorInner.TryAllocate | src/zone_allocator/mod.rs:33-40 | reserves a free index; refuses a taken one and changes nothing |
| AllocatorInners.AllocatorInner.Release | src/zone_allocator/mod.rs:27-31 | takes out exactly the index |
| ZoneAllocators.ZoneAllocator.AllocateZone | src/zone_allocator/mod.rs:116-127 | success reserves the index and returns a handle made from the current report; every failure, which only a kernel call, an index in use or one that names no zone brings about, leaves the set as it was, the rolled-back reservation included; only an abort keeps the reservation |
| ZoneAllocators.SomeIndexOverflows | src/zone_handle/mod.rs:68-69 | for every zone length from 2^32 + 2 sectors on there are a device and a 32-bit index whose product leaves 64 bits |
| ZoneAllocators.ZoneAllocator.Allocate | src/zone_allocator/mod.rs:87-111 | without interference: a handle at its zone's start and in step, for the lowest-index empty sequential-write-required zone not in use; `InvalidRange(0, 0)` only when there is none, and on a reliable kernel no other error |
| ZoneAllocators.ZoneAllocator.Release | src/zone_allocator/mod.rs:133-144 | removes the index; `ZoneNotAllocated` exactly when it was not in the set |
| ZoneSystem.FirstFree | src/zone_allocator/mod.rs:95-104 | the lowest index of the snapshot that may be handed out, and none only if there is none |
| ZoneSystem.StepKeepsExclusive | src/zone_allocator/mod.rs:27-40 | every step but an explicit release keeps the allocated set the disjoint union of indices reserved by calls under way and indices of live handles |
| ZoneSystem.ReleaseKeepsExclusive | src/zone_allocator/mod.rs:133-144 | an explicit release keeps it if and only if nobody holds the index |
| ZoneSystem.OwnershipInEveryRun | src/zone_allocator/mod.rs:87-127 | in every interleaving without explicit release: no index has two owners, none is owned outside the set, each handle matches its zone, and what a constructing call has read is still current |
| ZoneSystem.HandleAgreesInEveryRun | src/zone_handle/mod.rs:63-115 | in every interleaving without explicit release a handle's pointer agrees with its device zone, if since its last reset or finish its own writes took whole sectors and it was not made from a hidden pointer; what other threads write, read or hold does not matter, nor the stale snapshot `allocate` chose from |
| ZoneSystem.PointersAgreeInEveryRun | src/zone_handle/mod.rs:63-90 | the same for all handles at once, with the ownership invariant |
| ZoneSystem.OneHandlePerZone | src/zone_allocator/mod.rs:33-40 | in every interleaving without explicit release two live handles never share a zone, and the zone of each is in the allocated set |
| ZoneSystem.LivePointerAgrees | src/zone_handle/mod.rs:63-90 | the same spelled out: the handle's pointer equals the device's, or both are at or past the capacity |
| ZoneSystem.WholeBuffersAgree | src/zone_handle/mod.rs:63-115 | in terms the user of one handle can meet: every buffer written through it is whole sectors, and it was not made from a hidden pointer |
| ZoneSystem.NothingHidden | src/platform/freebsd.rs:178-185 | where the platform has no sentinel, no handle is ever made from a hidden pointer |
| ZoneSystem.ConstructAgreesIfShown | src/platform/freebsd.rs:178-185 | the proviso is exact: a new handle agrees with its zone if and only if the report showed the zone's pointer |
| ZoneCalls.UndisturbedCall | src/zone_allocator/mod.rs:87-127 | a call of `allocate` or `allocate_zone` that nothing interferes with and nothing fails stands, after any of its steps and however its scan is cut into batches, where the state in which it began says |
| ZoneCalls.UndisturbedAllocate | src/zone_allocator/mod.rs:87-127 | when such an `allocate` ends it has issued a handle, in step and at its start, for the lowest-index empty sequential-write-required zone not in use, which alone has joined the set; or it fails because there is none |
| ZoneCalls.CallGoesOn | src/zone_allocator/mod.rs:87-127 | until it has ended one of its steps is always possible and takes it further |
| ZoneCalls.FailedReadGivesBack | src/zone_allocator/mod.rs:119-126 | a call whose report fails after the reservation leaves everything as it was and returns that error |
| ZoneCalls.DropUndoesIssue | src/zone_handle/mod.rs:262-268 | issuing a handle and dropping it leaves set and handles as they were |
| ZoneCalls.ResetAndDropFrees | src/zone_allocator/mod.rs:95-98 | a sequential-write-required zone reset and given back by its handle can be allocated again |
| ZoneCalls.SeenWasReported | src/zone_allocator/mod.rs:88 | in every run, whatever other threads do, each entry of a snapshot is the descriptor its zone had in some state since the call began |
| ZoneCalls.PickedWasFree | src/zone_allocator/mod.rs:88-103 | in every run, the zone `allocate` picks was not in use at that moment, and empty and sequential-write-required at some moment since the call began |
| ZoneCalls.NothingWasFree | src/zone_allocator/mod.rs:88-110 | in every run, `allocate` reports that there is no zone only after a snapshot of all zones that, with the set at that moment, left none free |
| ZoneRaces.LostRace | src/zone_allocator/mod.rs:89-103 | in every run, if a call chose an index and was then refused it, another call under way reserved that index between the choice and the refusal |
| ZoneRaces.ReleaseSharesZone | src/zone_allocator/mod.rs:133-144 | from every initial state and for every zone a run with one explicit release ends with two live handles on that zone |
| ZoneRaces.OtherHandleFallsBehind | src/zone_handle/mod.rs:103-115 | of two handles in step on one zone, a write through one puts the other out of step |
| ZoneIsolation.NonInterference | src/zone_handle/mod.rs:103-205 | an operation that ends in its own zone leaves descriptor and bytes of every other zone alone |
| ZoneIsolation.SequentialIsContained | src/zone_handle/mod.rs:103-115 | every operation on a sequential zone ends in its own zone |
| ZoneIsolation.CrossingOverwrites | src/zone_handle/mod.rs:103-115 | a write that does not, which only a run of conventional zones allows, puts the rest of its bytes into the next zone |
| ZoneIsolation.ContainedExactly | src/zone_handle/mod.rs:103-115 | before the call: a write is sure to end in its own zone if and only if the zone is not a writable conventional one with another behind it, or the buffer does not reach past its end |
| ZoneIsolation.RunKeepsOthers | src/zone_handle/mod.rs:103-205 | over every run through one handle on a sequential zone every other zone keeps its descriptor and bytes |
| ZoneTurns.EventsCommute | src/zone_handle/mod.rs:103-205 | operations of handles on different zones commute, and neither decides whether the other is possible |
| ZoneTurns.InTurnKeepsOrder | src/zone_handle/mod.rs:103-205 | the run in turn that interleavings are compared with has exactly each handle's operations, in the order in which the interleaving had them |
| ZoneTurns.InTurnOfParts | src/zone_handle/mod.rs:103-205 | and it has all operations of the handles listed first before those of the others |
| ZoneTurns.SequentialInterleavingIsInTurn | src/zone_handle/mod.rs:103-205 | every possible interleaving of operations through live handles on sequential zones ends in exactly the state that running each handle's operations in turn ends in, in whatever order of handles |
| ZoneTurns.AllocatedInterleavingIsInTurn | src/zone_allocator/mod.rs:87-111 | from an initial state, handles that `allocate` issued in any interleaving of threads are on sequential-write-required zones, and every possible interleaving of their operations ends where running them in turn ends |
| ZoneTurns.SafeInterleavingIsInTurn | src/zone_handle/mod.rs:103-205 | the same on any zones, if no buffer offered may cross where it is offered |
| ZoneTurns.InterleavingIsInTurn | src/zone_handle/mod.rs:103-205 | the same for every interleaving in which each write did end in its own zone |
| ZoneTurns.CrossingOrderMatters | src/zone_handle/mod.rs:103-115 | whenever a write may cross into the zone of a handle at its start, an outcome of it and a write of the other end differently in the two orders |
| ZoneTurns.SomeWriteCrosses | src/zone_handle/mod.rs:103-115 | such handles exist, for zones of any length |
| AsyncHandles.Perform | src/async_api/zone_handle.rs:42-115 | what a task runs under the lock is, with its result, one of the sequential executions the interleavings are compared with; on a dependable device it fails only where the zone cannot take it |
| AsyncHandles.StepKeepsSerialized | src/async_api/zone_handle.rs:42-84 | every step of every task keeps: the finished operations ran one after another, and since the last of them only the lock's holder has acted |
| AsyncHandles.EveryRunIsSequential | src/async_api/zone_handle.rs:42-115 | whatever the interleaving, once all tasks have finished, device and handle are where some sequential order of their operations ends, each task's exactly once, with the results it reported |
| AsyncHandles.EveryExecutionRuns | src/async_api/zone_handle.rs:42-115 | the converse: whatever the sequential handle may do with an operation, some run of the steps does, for a task that waits and finds the lock free |
| AsyncHandles.OperationAppends | src/async_api/zone_handle.rs:42-73 | an operation run alone appends the accepted part of its payload; a successful `write_all_sequential` all of it |
| AsyncHandles.LogIsAcceptedPayloads | src/async_api/zone_handle.rs:53-61 | over any order of appending operations the zone holds the accepted payloads in that order and nothing between them |
| AsyncPayloads.ContiguousWhenDone | src/async_api/zone_handle.rs:53-61 | in every reachable state, after any operations of any tasks: each payload reported as written lay in one piece at the pointer it found when its operation was done, unless its length could tear in a writable conventional zone |
| AsyncPayloads.OperationKeeps | src/async_api/zone_handle.rs:42-115 | every operation but a reset, with a buffer of any length, leaves a payload that the pointers have passed as it is |
| AsyncPayloads.EveryPayloadIsContiguous | src/async_api/zone_handle.rs:53-61 | once all tasks have finished, each payload of whole sectors, or of any length in a sequential zone, still lies in one piece, unless a later operation of the order is a reset; earlier resets, finishes and partial-sector writes do not matter |
| AsyncPayloads.OrderRespectsTime | src/async_api/zone_handle.rs:42-115 | in the sequential order an operation that had finished before another task was spawned comes before that task's |
| StoredFiles.PayloadShape | examples/zone_store_async.rs:165-173 | a payload is the size in 8 bytes, byte k being the digit of weight 256^k, then the file, and zeroes up to the next multiple of 4096 |
| StoredFiles.HeaderIsRead | examples/zone_store.rs:212-242 | 8 bytes on the device, byte k being the digit of weight 256^k of a size, are taken for a file of that size, the bytes behind them, unless it is 0 or exceeds the zone |
| ZoneStores.BuildPayload | examples/zone_store_async.rs:167-173 | extending and resizing in place builds exactly that payload |
| StoredFiles.StoredIsReadBack | examples/zone_store.rs:212-242 | the file a reader finds at the zone's start is the stored one, for every length but 0 |
| BufferedWriters.BufWriter.WriteAll | examples/zone_store.rs:175-192 | keeps what fits the buffer; otherwise sends everything held first, and what is as long as the buffer directly |
| BufferedWriters.BufWriter.FlushBuf | examples/zone_store.rs:194 | success sends exactly what was held, in order, and empties the buffer; failure leaves in it exactly what was not taken, and on a dependable device means that the zone takes no more |
| BufferedWriters.BreaksOffOnlyEarly | src/zone_handle/mod.rs:160-172 | writes for which the zone has room never break off because of the zone |
| BufferedWriters.SentPartLeavesOutOfStep | src/zone_handle/mod.rs:103-115 | sending anything but whole sectors to a sequential zone leaves the handle out of step |
| BufferedWriters.OutOfStepSendsNothing | src/zone_handle/mod.rs:103-115 | an out-of-step handle never sends anything with success |
| BufferedWriters.SentFits | src/zone_handle/mod.rs:160-172 | what is sent to a sequential zone with success fits its remaining capacity |
| ZoneStores.Prepare | examples/zone_store.rs:156-170 | success leaves a reset zone, empty and in step if it has a pointer, with the handle at its start and the other zones as they were; too large exactly when file and header exceed the capacity; every other outcome leaves the device as it was, and is not a failure on a reliable kernel if the zone can be reset |
| ZoneStores.WriteFileAsync | examples/zone_store_async.rs:144-184 | success stores the file's payload, which then fits the zone; it fails, on a device that makes progress, only by the device, for an index that names no zone, or when the padded payload exceeds the capacity, and on a dependable device never if the zone can be reset and written and the payload fits; all other zones stay as they were |
| ZoneStores.WriteFileSync | examples/zone_store.rs:141-203 | a file that fits the buffer with its header is stored, unless device, index or capacity prevent it, with the cause reported, and on a dependable device always if the zone can be reset and written and the payload fits; in a sequential zone a longer file never succeeds; all other zones stay as they were |
| ZoneStores.WriteBuffered | examples/zone_store.rs:174-194 | for a file that fits the buffer the calls amount to the loop over its payload; a longer one gets stuck behind a header sent on its own |
| ZoneStores.ReadFile | examples/zone_store.rs:206-256 | whatever the short reads, the result is the file that header and bytes on the device describe, or its refusal; on a reliable kernel it aborts only where a sum leaves 64 bits and fails only for an index that names no zone |
| ZoneStores.ReadLoop | examples/zone_store.rs:232-239 | terminates with the device's bytes, and zeroes where the device has ended; fails only with a read |
| ZoneStores.WriteThenRead | examples/zone_store.rs:141-256 | writing with either writer and reading back returns every non-empty file byte for byte, whatever partial writes and short reads occur, unless the device fails, and writing cannot fail on a dependable device for what fits; the empty file is refused; all other zones stay as they were |
| ZoneStores.OtherFilesSurvive | examples/zone_store.rs:141-203 | a file stored in another zone reads the same after a write |
| ZoneStores.RoundTrip | examples/zone_store.rs:206-256 | what is stored decodes to the file, for every file but the empty one |
| Cursors.ZonedDeviceCursor.AtSector | src/device/cursor.rs:46-51 | the position is the sector's byte, or the call aborts exactly where that leaves 64 bits |
| Cursors.ZonedDeviceCursor.Read | src/device/cursor.rs:67-77 | a read of the plain array at the position, which moves by the bytes read; an unaligned position is refused, and on a reliable kernel nothing else; failures move nothing |
| Cursors.ZonedDeviceCursor.Write | src/device/cursor.rs:81-94 | a write of an accepted prefix, not empty where the device makes progress, into the plain array at the position, which moves by it; failures change nothing, and what the device can take succeeds on a reliable kernel |
| Cursors.ZonedDeviceCursor.Seek | src/device/cursor.rs:102-137 | `Start` leads to its offset and `Current` to position plus delta, exactly where that is a whole sector inside 64 bits; otherwise the position stays; aborts exactly for the least 64-bit integer |
| Cursors.SeekBack | src/device/cursor.rs:102-137 | seeking by a distance and back leads back, and seeking twice leads where seeking by the sum does |
| Cursors.ReadsAreConsecutive | src/device/cursor.rs:67-77 | a run of short or failing reads returns the bytes between its first and last position |
| Cursors.WritesAreConsecutive | src/device/cursor.rs:81-94 | a run of short or failing writes is one write of everything accepted |
| Cursors.WriteSeekRead | src/device/cursor.rs:67-137 | seeking back over written bytes and reading returns what was written, however both runs were cut short |
| Benches.FillZone | examples/zcli.rs:1527-1555 | from a freshly reset zone the loop terminates, fails only with the device, never on a dependable one, never sees `ZoneFull`, and ends exactly at the capacity in a full zone holding beginnings of the buffer, one behind the other |
| Benches.AllocateAndFill | examples/zcli.rs:1482-1555 | allocating, resetting and filling a zone, without interference, ends with the lowest free zone reserved and filled exactly to its capacity, or fails with the device or for want of an empty zone; on a dependable device only for that |

## Left out

- The Linux platform layer: there the kernel walks a range itself; ioctl structures and their layout are not modelled on either platform.
- Opening devices, builder flags, sysfs reads, mount checks and validation: no state beyond one check each.
- `ZoneAllocator::allocated_zones`, `ZoneHandle::report`, scatter reads, accessors, zone predicates and filter builders: they would only add one-line members.
- The `non_seq` and `reset_recommended` flags of a zone report.
- Limits on open and active zones, and the implicit closing of zones by the device.
- `fsync`, page cache, direct I/O alignment, mutex poisoning and panics inside a blocking closure.
- Asynchronous reads, the runtime, and the asynchronous example's reader, which takes one read for the whole payload and panics when it was short.
- Printing, argument parsing, timing and the benchmark's threads; the filling loop is per zone.
- Reset as the device's bytes see it: the pattern stands for data that has become inaccessible.
- Builds without overflow checks, where an index, sector or offset too large wraps around and may name another zone.
- `Interrupted` errors, on which the buffered writer retries.
- HandleModel.AppendOnlyLog: excludes runs with a finish since the last reset, after which the bytes up to the pointer were never written.
- ZoneStores.WriteFileSync: says nothing about what a device of one conventional zone holds after a file longer than the buffer, where the content overwrites the header.
- ZoneSystem.PointersAgreeInEveryRun: the device's zones change only through handles of the one allocator, as the property asks.
