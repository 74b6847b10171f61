# Verified core of esp-open-rtos

This project models the parts of esp-open-rtos whose correctness does not show from reading one function, and
proves what they promise:

- **sysparam** (`Flash`, `SysparamLog`, `SysparamTable`, `SysparamCompact`, `SysparamRegion`, `SysparamScan`,
  `SysparamSet`, `SysparamSize`, `SysparamBoot`, `Sysparam`): the key/value store in NOR flash. Flash is a byte string
  on which programming only clears bits and erasing works by sector. A store that is interrupted by a power loss after
  any flash operation of a set comes back; every run of sets, deletions and reads behaves like a finite map, and a set
  is refused exactly when the new table would not fit into a region or no id is left; compaction keeps the map; and
  the one way a set can report success and store nothing is characterised exactly.
- **The FreeRTOS kernel** (`Rings`, `LinkedList`, `TaskLists`, `Tasks`, `TaskRuns`, `Timers`, `QueueProtocol`,
  `QueueStorage`): the intrusive list, the scheduler's lists and tick, software timers, and queues. Two delayed lists
  and a wrapping tick count refine one unbounded clock; in every run of calls the highest ready priority runs or a
  switch has been asked for, up to a mutex given back in the one case that breaks this; over any run of the timer
  service timers are called back exactly on their schedule; no interleaving of tasks and interrupts loses a wake-up;
  the ring buffer is a bounded sequence.
- **1-Wire** (`OneWireSearch`, `OneWireCrc`): the ROM search finds every device exactly once, in bit order; the fast
  CRC forms compute what the bit-serial forms define, and detect what a CRC of their degree detects.
- **Over-the-air updates and booting** (`RbootWriter`, `TftpReceive`, `RomImage`, `RomVerify`, `RomLoad`,
  `BootSelect`): a TFTP transfer leaves a prefix of the file in the slot at every moment; an image that passes the
  check after an update passes the one at boot, and what is loaded is what was summed; the boot loader falls back to
  the first good slot.
- **MQTT packets** (`MqttPacket`): the remaining-length field and PUBLISH packets survive a round trip, exactly where
  the code makes them.

`dafny verify dfyconfig.toml` checks the whole project.

Conventions. Word widths are explicit: tick counts wrap at a parameter `max` (portMAX_DELAY), addresses at 2^32,
chunk lengths at 2^16, key ids at 0xffe. Mutable objects of the source are classes; loops of the source are loops.
Each method is tied to a specification (a finite map, a sequence, a bounded queue, an unbounded clock, a set of ids)
whose properties are separate lemmas. Predicates and functions whose name ends in `0` and whose first parameter is
`level` (`Kept0`, `Follows0`, ...) are definitions behind two levels of recursion, so that proofs about whole
operations see a name only; a lemma such as `KeptIs` or `Unfold` opens them.

Where code and documentation disagree, the model follows the code:

- `sysparam_create_area` promises to refuse an area that is not empty; its scan also looks at the 24 bytes behind the
  area (core/sysparam.c:599-608). `SysparamBoot.EmptyAreaRefused` says exactly which empty areas are refused.
- `sysparam_set_data` can answer SYSPARAM_OK and store nothing, when the key entry is alive without a value and the
  new value needs a compaction (core/sysparam.c:445-451, 1030). `Sysparam.LoseSet` makes the calls;
  `Sysparam.Loses` is the exact condition, and `Store.WouldLose` computes it beforehand.
- `sysparam_set_data` can answer SYSPARAM_ERR_FULL and have lost the value it was to replace, because compaction
  leaves that value out before the space is looked at again (core/sysparam.c:886-902). `Sysparam.LoseOld` makes the
  calls; if the new table does not fit, this happens exactly if some deleted key is still in the log
  (`Sysparam.Unused`, as `Sysparam.SetResult` says).
- Overwriting in a full queue of items of no size counts one item too many (FreeRTOS/Source/queue.c:1381-1423);
  `QueueStorage.Ring.CopyTo` says that this is the only case in which the count exceeds the length.
- The running task is meant to have the highest ready priority. `vTaskPriorityDisinherit` can end that without anyone
  asking for a switch (FreeRTOS/Source/queue.c:1386, FreeRTOS/Source/tasks.c:2679-2702): `Tasks.LeftBehind` makes the
  calls, `Tasks.KeepsLead` is the exact condition, and `TaskRuns.Run` says that nothing else breaks the rule.
- `rboot_write_flash` for address 0, with a first chunk shorter than a word, computes the last sector as 0xfffff and
  erases everything (extras/rboot-ota/rboot-api.c:145-150). `RbootWriter.ChunkingIndependent` is the exact condition
  under which this shows, and `RbootWriter.WipeMatters` a run.
- `rboot_verify_image` rounds up to 16 bytes behind an irom section and does not ask for the second magic;
  `check_image` does not round up and does ask for it (extras/rboot-ota/rboot-api.c:306-319,
  bootloader/rboot/rboot.c:43-62). `RomVerify.VerifiedBoots` is the exact condition under which an image that passes
  the one passes the other, and `RomVerify.AcceptedNotBootable` gives two that do not.
- `MQTTDeserialize_publish` and `MQTTDeserialize_ack` return the size of the length field when they fail, which is the
  success code 1 for a one-byte field (extras/paho_mqtt_c/MQTTDeserializePublish.c:54-60, 95-99);
  `MqttPacket.FailureLooksLikeSuccess` and `MqttPacket.AckFailureLooksLikeSuccess` say exactly when.

## Model

| member | source | states |
|---|---|---|
| SysparamLog.HeaderRoundTrip | core/sysparam.c:96-100 | a decoded entry header is what was encoded, and no header with a permitted id reads as unwritten flash |
| SysparamLog.ClearHeader | core/sysparam.c:384-404 | programming a header again with flags cleared leaves exactly the new header, although programming can only clear bits |
| SysparamLog.HoldsBegin | core/sysparam.c:346-350 | the first of the three writes of an entry leaves a log with one more, still invalid, entry |
| SysparamLog.HoldsFill | core/sysparam.c:376-382 | the payload write changes that entry's payload and no other entry |
| SysparamLog.HoldsClear | core/sysparam.c:392-404 | clearing a flag in place changes that entry and nothing else |
| SysparamTable.GetIs | core/sysparam.c:637-680 | in a clean log a lookup finds exactly the live value with the id of the live key of that name |
| SysparamTable.PushKey | core/sysparam.c:933-939 | appending a new key changes no lookup and keeps ids increasing along the log |
| SysparamTable.PushShadowed | core/sysparam.c:941-952 | while old and new value are both alive, every lookup still gives the old one |
| SysparamTable.ReplaceValue | core/sysparam.c:941-952 | appending the new value and then deleting the old one sets that key and no other, and keeps the log clean |
| SysparamTable.KillValue | core/sysparam.c:948-952 | deleting a value unsets that key and no other |
| SysparamCompact.CompactedMeaning | core/sysparam.c:418-487 | the compacted log is clean, its ids are 1..n in order, and it means the same table less the value of the key being set |
| SysparamCompact.CompactedSpace | core/sysparam.c:874-902 | compaction gains at least the dead space plus the value left out, so what was counted as reclaimable suffices |
| SysparamCompact.UnusedKeys | core/sysparam.c:884-921 | the unused-key counter is positive exactly when a live key has no value, and then compaction frees an id |
| SysparamCompact.NeverMatchesLater | core/sysparam.c:445-451 | the key id rewritten during the copy never equals the id of a key still to be copied |
| SysparamCompact.LastIsLargest | core/sysparam.c:263-268 | the last key id seen by a scan is the largest in use |
| SysparamRegion.HeaderReads | core/sysparam.c:171-196 | a region header reads back as what was written |
| SysparamRegion.RetireHeader | core/sysparam.c:171-196 | programming a header again without the active flag retires the region |
| SysparamRegion.WriteSteps | core/sysparam.c:342-389 | after each of the three writes of an entry the region holds a well-formed log |
| SysparamRegion.WriteVerifies | core/sysparam.c:122-157 | the read-back after each write finds what was written |
| SysparamRegion.DeleteStep | core/sysparam.c:392-404 | deleting an entry is one recoverable step |
| SysparamRegion.ActivateStep | core/sysparam.c:468-477 | with both headers active the boot scan still chooses a region that holds the table |
| SysparamRegion.RetireStep | core/sysparam.c:468-477 | retiring the old region completes the switch |
| SysparamScan.ScanFor | core/sysparam.c:224-296 | the entry scan stops at the first match from where it stands, or runs off the end, with the counters of exactly the entries passed |
| SysparamScan.FindKey | core/sysparam.c:305-334 | finds the first live key of that name, or none |
| SysparamScan.Lookup | core/sysparam.c:637-680 | a read of the region is a lookup in the table its log stands for |
| SysparamScan.IterNext | core/sysparam.c:1014-1065 | iteration gives the next key that has a value, with that value, skipping keys without one |
| SysparamSet.CompactSets | core/sysparam.c:418-487 | compacting for a set unsets that key and nothing else |
| SysparamSet.CompactedKey | core/sysparam.c:445-451 | after compaction the key being set is absent, or present without a value under its new id |
| SysparamSet.StaleWrite | core/sysparam.c:941-943 | a value written under a stale id is invisible to every lookup |
| SysparamSize.CompactedSize | core/sysparam.c:418-487 | the log compacted for a set takes exactly the bytes of the table it stands for, less the old value, and has as many pairs as the table has keys |
| SysparamSize.ReclaimsAll | core/sysparam.c:874-902 | without unused keys compaction gains exactly what the scan has counted |
| SysparamSize.NoIdsLeft | core/sysparam.c:904-921 | with dense ids, the largest in use and no key unused, the table has as many keys as there are ids |
| SysparamBoot.FindHeader | core/sysparam.c:498-514 | the header scan stops at the first sector that begins with a region header |
| SysparamBoot.Judged | core/sysparam.c:516-560 | from either header the plan is to use the mounted region, recreating the other exactly when its header is gone |
| SysparamBoot.StopsAt | core/sysparam.c:501-514 | the scan stops at the first region if its header stands and otherwise at the second |
| SysparamBoot.ScanEmpty | core/sysparam.c:599-608 | creation proceeds exactly when the area and the 24 bytes behind it are erased |
| SysparamBoot.EmptyAreaRefused | core/sysparam.c:599-608 | the scan refuses an empty area exactly when something lies in the 24 bytes behind it |
| Sysparam.Store.WriteEntry | core/sysparam.c:342-389 | three writes, header, payload, header, each only if the one before reads back; a first header that does not read back is overwritten by a zero header; in every case the flash, the images on the way, end_addr and the status |
| Sysparam.Store.Append | core/sysparam.c:342-389 | an entry appended to the mounted log, and end_addr moved behind it |
| Sysparam.Store.DeleteEntry | core/sysparam.c:392-404 | entry `i` dead, every other one as it was |
| Sysparam.Store.FormatRegion | core/sysparam.c:160-169 | the sectors of the region erased; past the end of the flash an error |
| Sysparam.Store.WriteRegionHeader | core/sysparam.c:171-196 | a header with the flags and the size of this region, relative to the other; one that does not read back is zeroed |
| Sysparam.Store.CopyPairs | core/sysparam.c:433-459 | the copy loop writes exactly the compacted log into the alternate region, and every image on the way mounts the old one |
| Sysparam.Store.Compact | core/sysparam.c:418-487 | the store is mounted on the compacted log, the pending key id is the key's new id, every image on the way mounts the old or the new log |
| Sysparam.Store.MakeSpace | core/sysparam.c:864-902 | compacts when the append does not fit and compacting may help; afterwards the pending entries fit, or they do not fit even behind the compacted log |
| Sysparam.Store.MakeId | core/sysparam.c:904-921 | compacts when the largest id is in use and some key is unused |
| Sysparam.Store.Put | core/sysparam.c:858-952 | sets the key and no other, or reports ERR_FULL; every image on the way has an admissible outcome |
| Sysparam.Store.SetData | core/sysparam.c:777-964 | the whole contract of a set for every key, value and flag, including deletion, no change, bad values, a full region and the lost case; given whether it compacted, the very log it leaves; it compacts only if its entries do not fit or the largest id is in use |
| Sysparam.Store.WouldLose | core/sysparam.c:864-894 | tells before the call whether the set would be lost |
| Sysparam.Store.GetData | core/sysparam.c:637-680 | the value of the key in the table, or NOTFOUND |
| Sysparam.Store.Init | core/sysparam.c:491-580 | from any image that mounts a log, init succeeds with exactly that log, and a power loss during it changes nothing |
| Sysparam.Store.CreateArea | core/sysparam.c:582-627 | an area that mounts the empty table and nothing changed outside it, or a refusal |
| Sysparam.NewArea | core/sysparam.c:491-627 | creating an area and then init gives a mounted store with an empty log |
| Sysparam.PowerLoss | core/sysparam.c:491-580 | a set cut after any number of flash operations and then init: always OK, every other key untouched, the set key old, new, or absent only if compaction ran, for which the entries must not fit or the largest id be in use; with no cut init recomputes the addresses in memory |
| Sysparam.CutSet | core/sysparam.c:777-964 | the image after any prefix of the flash operations of a set mounts a log with an admissible outcome, absence again only with a reason to compact |
| Sysparam.LostSet | core/sysparam.c:874-945 | with the 4060-byte value of a key deleted, a set of 20 bytes in a one-sector region reports success and leaves the key absent |
| Sysparam.LoseSet | core/sysparam.c:777-964 | in any flash: create an area, init, set a key to 4060 bytes, delete it, set it to 20 bytes; the last set answers OK and a read answers NOTFOUND |
| Sysparam.LoseOld | core/sysparam.c:874-902 | set two keys, delete the second, set the first to more than fits: the set answers ERR_FULL and the first key is no longer found |
| Sysparam.TableRefuses | core/sysparam.c:864-921 | a set that is not lost succeeds only if the new table fits into a region and there is an id for the key, and with dense ids also whenever that is so |
| Sysparam.SetStep | core/sysparam.c:777-964 | a set that is not lost does to the finite map what one set may do, refusals included, and keeps ids dense |
| Sysparam.Run | core/sysparam.c:777-964 | every run of sets, deletions and reads, with its answers, is a run of a finite map with a limit on its size and on its number of keys, up to the first set that would be lost |
| Sysparam.RunFromNew | core/sysparam.c:491-964 | every run from a newly created area on is a run of a finite map that starts out empty, in which a set answers ERR_FULL exactly when the new table would not fit into a region or no id is left |
| QueueProtocol.DrainLock | FreeRTOS/Source/queue.c:1439-1535 | the unlock loops wake one waiter per recorded event until either runs out |
| QueueProtocol.UnlockQueue | FreeRTOS/Source/queue.c:1439-1535 | the two loops, run by the task that holds the scheduler, are the two drain steps of the protocol |
| QueueProtocol.StepInv | FreeRTOS/Source/queue.c:546-703 | every step of a task or an interrupt keeps the wake-up accounting, the ownership of the lock and the event lists |
| QueueProtocol.RunInv | FreeRTOS/Source/queue.c:1024-1176 | so does every run from a new queue |
| QueueProtocol.NoLostWakeUp | FreeRTOS/Source/queue.c:913-1176 | in every interleaving a waiting receiver means items at most woken receivers plus recorded sends, and an empty queue when nothing is pending; dually for senders |
| QueueProtocol.NeverBothStuck | FreeRTOS/Source/queue.c:1024-1176 | with nothing pending, receivers and senders do not wait at the same time |
| QueueProtocol.LockedByOwner | FreeRTOS/Source/queue.c:1439-1535 | the queue is locked only by the task that holds the scheduler, and waiters are inside a call of that kind |
| QueueStorage.WriteBehind | FreeRTOS/Source/queue.c:1377-1424 | writing the free slot appends and touches no live item |
| QueueStorage.WriteBefore | FreeRTOS/Source/queue.c:1377-1424 | writing the slot before the first item prepends |
| QueueStorage.ReadOn | FreeRTOS/Source/queue.c:1426-1437 | moving the read position on drops the first item |
| QueueStorage.Ring.constructor | FreeRTOS/Source/queue.c:237-279 | a new queue is empty and its positions are consistent |
| QueueStorage.Ring.CopyTo | FreeRTOS/Source/queue.c:1377-1424 | appends, prepends or replaces, an item of no size being counted and not replaced; the count exceeds the length in exactly that case |
| QueueStorage.Ring.CopyFrom | FreeRTOS/Source/queue.c:1426-1437 | copies the first item out and moves on |
| QueueStorage.Ring.Send | FreeRTOS/Source/queue.c:546-703 | succeeds exactly when there is room or on an overwrite |
| QueueStorage.Ring.Receive | FreeRTOS/Source/queue.c:1024-1176 | takes the first item, or only looks at it when peeking |
| QueueStorage.Run | FreeRTOS/Source/queue.c:1377-1437 | every run of sends, receives, peeks and overwrites, with its answers, is a run of a bounded sequence |
| Rings.AdvanceVisits | FreeRTOS/Source/tasks.c:261-275 | the item returned is the next one due, and goes to the back of the order |
| Rings.InsertEndVisits | FreeRTOS/Source/list.c:101-119 | a new item is visited after every other one, but for the item the cursor is on |
| Rings.EqualShare | FreeRTOS/Source/tasks.c:261-275 | every item of a ring is returned once before any is returned twice |
| Rings.PlaceSorted | FreeRTOS/Source/list.c:122-177 | insertion by value keeps the order and goes behind equal values |
| LinkedList.Splice | FreeRTOS/Source/list.c:101-177 | the pointer writes of an insertion give a well-formed circular doubly linked ring |
| LinkedList.Unsplice | FreeRTOS/Source/list.c:180-201 | so do those of a removal |
| LinkedList.List.InsertEnd | FreeRTOS/Source/list.c:101-119 | the abstract ring gains the item just before the cursor; count and container are kept |
| LinkedList.List.FindPlace | FreeRTOS/Source/list.c:122-166 | the search ends before the first greater value, also for the largest value |
| LinkedList.List.Insert | FreeRTOS/Source/list.c:122-177 | the abstract ring gains the item before the first greater value |
| LinkedList.List.Remove | FreeRTOS/Source/list.c:180-201 | the abstract ring loses the item, and a cursor on it steps back |
| LinkedList.List.Next | FreeRTOS/Source/tasks.c:261-275 | one step of the cursor over the end marker |
| LinkedList.InsertSorted | FreeRTOS/Source/list.c:122-177 | a list sorted by value stays sorted, behind equal values |
| TaskLists.KeptDetach | FreeRTOS/Source/list.c:180-201 | taking a task off its list keeps every other list, and each task on one list at most |
| TaskLists.KeptReady | FreeRTOS/Source/tasks.c:361-365 | a task joins the ready list of its priority and no other list changes |
| TaskLists.KeptTimed | FreeRTOS/Source/tasks.c:2400-2423 | a task joins a delayed list and no other list changes |
| Tasks.DelayKeeps | FreeRTOS/Source/tasks.c:2400-2423 | a wake time that has wrapped goes on the overflow list and stands for the same deadline on the unbounded clock |
| Tasks.TimingWrap | FreeRTOS/Source/tasks.c:323-353 | at the end of an epoch the current list is empty, and swapping the lists keeps every deadline |
| Tasks.TimingMeans | FreeRTOS/Source/tasks.c:1571-1660 | a delayed task's deadline is ahead, and is the next tick exactly when its item value is the next tick count |
| Tasks.AllWoken | FreeRTOS/Source/tasks.c:1601-1660 | when the wake-up loop stops, nobody whose time is up is left |
| Tasks.RankBound | FreeRTOS/Source/tasks.c:251-273 | no ready task has a priority above uxTopReadyPriority |
| Tasks.Kernel.constructor | FreeRTOS/Source/tasks.c:1220-1286 | the scheduler as it starts: idle ready, tick zero, all invariants |
| Tasks.Kernel.CountTick | FreeRTOS/Source/tasks.c:1581-1595 | the unbounded clock moves on by one; the list switched away is empty |
| Tasks.Kernel.WakeDue | FreeRTOS/Source/tasks.c:1597-1665 | exactly the tasks whose deadline is this tick are made ready, and a switch is asked for exactly when one of them ranks with the current task |
| Tasks.Kernel.IncrementTick | FreeRTOS/Source/tasks.c:1571-1703 | running: the tick is counted and the due tasks woken; suspended: it is only recorded |
| Tasks.Kernel.Tick | FreeRTOS/Source/tasks.c:1571-1703 | no tick is lost: ticks counted plus ticks pended are the interrupts so far; unless a switch is asked for, the current task still has the highest ready priority |
| Tasks.Kernel.ReplayTicks | FreeRTOS/Source/tasks.c:1376-1389 | every pended tick is replayed |
| Tasks.Kernel.ResumeAll | FreeRTOS/Source/tasks.c:1336-1403 | on the last resume the clock has caught up, and exactly the pending tasks and those that came due meanwhile are ready; unless it has yielded, the current task still has the highest ready priority |
| Tasks.Kernel.AddCurrentToDelayed | FreeRTOS/Source/tasks.c:2400-2423 | the task is on the right delayed list for its deadline |
| Tasks.Kernel.Delay | FreeRTOS/Source/tasks.c:764-809 | the task is blocked until exactly that many ticks from now; no other task moves |
| Tasks.Kernel.PlaceOnEventList | FreeRTOS/Source/tasks.c:1846-1895 | the task waits for the event, with that deadline or with none |
| Tasks.Kernel.RemoveFromEventList | FreeRTOS/Source/tasks.c:1939-1987 | the task becomes ready, or is pended while the scheduler is suspended |
| Tasks.Kernel.SuspendTask | FreeRTOS/Source/tasks.c:1029-1083 | the task leaves every list for the suspended one |
| Tasks.Kernel.ResumeTask | FreeRTOS/Source/tasks.c:1124-1157 | only a task that is suspended, and not blocked for ever on an event, becomes ready; asks for a switch exactly when that task has at least the priority of the current one, and otherwise the current one still leads |
| Tasks.Kernel.DeleteTask | FreeRTOS/Source/tasks.c:634-681 | the task leaves every list for the one of the dead |
| Tasks.Kernel.CreateTask | FreeRTOS/Source/tasks.c:478-629 | the task is ready at its priority; asks for a switch exactly when its priority is higher, and otherwise the current task still leads |
| Tasks.Kernel.PrioritySet | FreeRTOS/Source/tasks.c:898-1022 | the base priority changes; an inherited one stays; a ready task moves to the list of its priority; says exactly when a switch is asked for, and without one the current task still leads |
| Tasks.Kernel.PriorityInherit | FreeRTOS/Source/tasks.c:2637-2672 | a lower-priority holder is raised to the current task's priority, on its list too if ready; the current task still leads |
| Tasks.Kernel.PriorityDisinherit | FreeRTOS/Source/tasks.c:2679-2702 | the holder falls back to its base priority; the current task still leads if and only if no other ready task is above that, or, if it is not the holder, that is not above it |
| Tasks.Kernel.GiveMutex | FreeRTOS/Source/queue.c:563-622 | the holder falls back and the first waiter is woken; a switch is asked for exactly if that waiter ranks with the current task, and otherwise the same condition decides whether the current task still leads |
| Tasks.LeftBehind | FreeRTOS/Source/queue.c:1381-1391 | calls after which a ready task of a higher priority than the running one waits, and nobody has asked for a switch |
| Tasks.Kernel.FindTop | FreeRTOS/Source/tasks.c:261-270 | the downward search ends at the highest priority with a ready task, while one is ready |
| Tasks.Kernel.SwitchContext | FreeRTOS/Source/tasks.c:1793-1843 | the task selected has the highest priority of all that are ready, and is the next of that priority in turn |
| Tasks.Kernel.NeverLate | FreeRTOS/Source/tasks.c:1571-1703 | every blocked task's deadline is still ahead |
| Tasks.RunTicks | FreeRTOS/Source/tasks.c:1571-1703 | over any number of ticks and wraps, a task blocked with a time limit is made ready by the tick that is its deadline, and by no earlier one |
| TaskRuns.Run | FreeRTOS/Source/tasks.c:478-1987 | any run of creations, delays, waits, wake-ups, suspensions, deletions, resumptions, priority changes, mutexes given back, ticks and switches: each call does what it should, and after each the current task has the highest ready priority or a switch has been asked for, up to the first mutex given back that leaves a task behind |
| Timers.DecidesRight | FreeRTOS/Source/timers.c:475-513 | for commands less than a full turn old the decision is right: expired exactly when the unbounded expiry has passed, otherwise the list of the right epoch |
| Timers.TooLate | FreeRTOS/Source/timers.c:475-513 | a command a whole turn late or more, whose time has certainly come, is found expired exactly when what is left of its age without whole turns reaches the period |
| Timers.Daemon.Insert | FreeRTOS/Source/timers.c:475-513 | the timer is found expired, or is listed with its unbounded due time |
| Timers.Daemon.ProcessExpired | FreeRTOS/Source/timers.c:317-350 | the head is called back at its due time, and an auto-reload timer is due one period later |
| Timers.Daemon.WorkOff | FreeRTOS/Source/timers.c:601-636 | the switching loop ends; each timer left on the list has been called back until it is done or due in the next epoch, no timer is lost and no callback taken back |
| Timers.Daemon.SwitchLists | FreeRTOS/Source/timers.c:587-641 | the lists change roles with every due time kept, every expired timer called back and no timer lost |
| Timers.Daemon.Sample | FreeRTOS/Source/timers.c:452-472 | a wrap of the tick count is noticed, given less than a turn since the service last had nothing left to do, and then every timer of the old epoch called back; without a wrap nothing but the time changes |
| Timers.Daemon.StartTimer | FreeRTOS/Source/timers.c:267-301 | the command records the time it was given |
| Timers.Daemon.Accept | FreeRTOS/Source/timers.c:227-301 | a legal creation and a START of an existing timer are recorded: which timers exist and were started follows the calls made, an auto-reload timer counting from its first START |
| Timers.Daemon.ProcessCommand | FreeRTOS/Source/timers.c:516-584 | a START calls the timer back at once, for the time it was due, exactly when that time has passed, and lists it otherwise |
| Timers.Daemon.CaughtUp | FreeRTOS/Source/timers.c:317-641 | no drift: when the service has nothing left to do, a timer has been called back exactly once for each start + k periods up to now, a one-shot timer for the first only |
| Timers.Daemon.ProcessTimerOrBlock | FreeRTOS/Source/timers.c:377-423 | after the lists were switched, or the expired head was called back, or with nothing changed and the next expiry ahead; no timer is lost |
| Timers.Daemon.ProcessCommands | FreeRTOS/Source/timers.c:516-584 | the command loop ends, whatever times the clock shows on the way, with the queue empty and no timer lost |
| Timers.Daemon.Serve | FreeRTOS/Source/timers.c:353-423 | woken at any time, the service task blocks again, and then every timer that was ever started is on its schedule |
| Timers.Run | FreeRTOS/Source/timers.c:353-641 | over any run of creations, STARTs and wakings with a never-falling clock, each less than a turn apart: the timers are exactly those created, those called back exactly those started, and whenever the service task blocks every one of them is on its schedule up to a time it has read |
| Timers.NthIs | FreeRTOS/Source/timers.c:317-350 | call number k is due k + 1 periods after the start |
| OneWireSearch.WalkBit | extras/onewire/onewire.c:246-296 | one bit of the search: the wired-AND answers, the direction taken and the devices still answering |
| OneWireSearch.Walk | extras/onewire/onewire.c:245-298 | the bit loop ends on the least id wanted, and knows the last left turn on the way |
| OneWireSearch.LeastIsNext | extras/onewire/onewire.c:257-274 | the least id that turns right at the last left turn is the successor of the previous id |
| OneWireSearch.Search.Next | extras/onewire/onewire.c:214-327 | the next id on the bus in bit order, or ONEWIRE_NONE and a search that starts over |
| OneWireSearch.SearchAll | extras/onewire/onewire.c:185-327 | for every finite set of ids with a family code and none all ones, the calls return each id exactly once in bit order, and then ONEWIRE_NONE |
| OneWireSearch.SearchDetermined | extras/onewire/onewire.c:185-327 | there is only one such sequence of answers: the bus alone determines what the search returns |
| OneWireCrc.BitwiseCrc8 | extras/onewire/onewire.c:378-391 | the compact loop computes the bit-serial CRC |
| OneWireCrc.TableIs | extras/onewire/onewire.c:336-352 | every table entry is eight shifts of its index |
| OneWireCrc.TableCrc8 | extras/onewire/onewire.c:365-372 | the table form computes the same CRC |
| OneWireCrc.ResidueZero | extras/onewire/onewire.c:365-391 | a string followed by its CRC leaves the register at zero |
| OneWireCrc.OneByteDetected | extras/onewire/onewire.c:365-391 | any change within one byte changes the CRC |
| OneWireCrc.BurstDetected | extras/onewire/onewire.c:365-391 | every burst of at most eight bits across two bytes changes the CRC |
| OneWireCrc.RoundIs | extras/onewire/onewire.c:437-451 | one round of the parity form is eight shifts of the reflected 0xA001 register |
| OneWireCrc.ParityCrc16 | extras/onewire/onewire.c:431-453 | for strings of up to 65535 bytes the parity form computes the bit-serial CRC16 |
| OneWireCrc.CheckCrc16 | extras/onewire/onewire.c:414-417 | accepts exactly the inverted CRC, low byte first |
| RbootWriter.Writer.constructor | extras/rboot-ota/rboot-api.c:100-109 | nothing written, nothing erased |
| RbootWriter.Writer.EraseUpTo | extras/rboot-ota/rboot-api.c:145-150 | each sector after the last one erased, up to the one computed, is erased once, in order |
| RbootWriter.LastIs | extras/rboot-ota/rboot-api.c:145-150 | the sector computed from address and length leaves the last sector erased where the data handed over says, wrap below zero included |
| RbootWriter.Divides | extras/rboot-ota/rboot-api.c:130-140 | what is left over goes first, and what does not fill a word is left over again |
| RbootWriter.Writer.Write | extras/rboot-ota/rboot-api.c:113-162 | a chunk is taken whole, or not at all if it runs past the flash; one whose 16-bit length wraps is lost |
| RbootWriter.WriteImage | extras/rboot-ota/rboot-api.c:100-162 | the flash ends up with the whole words of the image in exactly the sectors they touch, the rest of the bytes left over |
| RbootWriter.ChunkingIndependent | extras/rboot-ota/rboot-api.c:100-162 | two ways of cutting an image into chunks give the same flash if and only if both or neither begin below a word at address 0, or the sectors above were blank |
| RbootWriter.WipeMatters | extras/rboot-ota/rboot-api.c:100-162 | a run: four bytes for address 0 as one chunk and as two leave different flashes |
| RbootWriter.WipeShows | extras/rboot-ota/rboot-api.c:145-150 | in the exceptional case the flash differs unless everything above was blank already |
| RomImage.SumSection | bootloader/rboot/rboot.c:80-96 | the block loop sums exactly the section's bytes, and fails exactly when they run past the flash |
| RomImage.CheckSections | bootloader/rboot/rboot.c:67-108 | the section loop parses the sections and sums their bytes, and fails exactly when the parse does |
| RomImage.CheckImage | bootloader/rboot/rboot.c:15-123 | answers the address of the loadable header exactly for images with good magic, sections inside the flash and the right checksum, and 0 otherwise |
| RomVerify.SumChunks | extras/rboot-ota/rboot-api.c:290-298 | the sixteen-byte chunk loop sums the section's bytes |
| RomVerify.SkipIrom | extras/rboot-ota/rboot-api.c:269-319 | where the first pass over an image with an irom section leads |
| RomVerify.VerifySections | extras/rboot-ota/rboot-api.c:269-325 | parses the sections within the size limit and sums their bytes |
| RomVerify.VerifyImage | extras/rboot-ota/rboot-api.c:238-355 | accepts exactly the images of the specification, with their length, wherever its unchecked reads stay inside the flash |
| RomVerify.IromBoots | bootloader/rboot/rboot.c:43-62 | both checkers find the same header behind an irom section exactly when the section ends on a 16-byte line |
| RomVerify.VerifiedBoots | bootloader/rboot/rboot.c:15-123 | an image that passes the update check passes the boot check, with the very sections that were summed, if and only if an irom image has the second magic and its irom section ends on a 16-byte line |
| RomVerify.AcceptedNotBootable | extras/rboot-ota/rboot-api.c:238-355 | two images the update check accepts and the boot loader refuses: without the second magic, and with an irom section off the line |
| RomVerify.BootsVerified | extras/rboot-ota/rboot-api.c:238-355 | conversely the update check finds the sections of a bootable image if and only if the image meets its stricter demands on address, word lengths, size limit and irom section |
| RomLoad.LoadSection | bootloader/rboot/rboot-stage2a.c:35-55 | the block loop stores exactly the section's bytes from its address on |
| RomLoad.LoadRom | bootloader/rboot/rboot-stage2a.c:14-59 | memory is what storing the sections one after the other makes it, and the entry point is the header's |
| RomLoad.LoadedAt | bootloader/rboot/rboot-stage2a.c:30-56 | every byte of a section is at its address, unless a later section covers it |
| RomLoad.LoadedElsewhere | bootloader/rboot/rboot-stage2a.c:30-56 | memory no section covers is left alone |
| RomLoad.UpdateThenBoot | extras/rboot-ota/rboot-api.c:238-355 | verified exactly if the image is one of the specification; a verified image that meets the extra conditions boots, and what is loaded is what was summed |
| BootSelect.DefaultIs | bootloader/rboot/rboot.c:356-376 | the default configuration has two slots, at 8 KB and at half the flash plus 8 KB, the first current |
| BootSelect.EachTried | bootloader/rboot/rboot.c:449-463 | walking down cyclically from the current slot tries every slot once |
| BootSelect.Fallback | bootloader/rboot/rboot.c:427-463 | ends, with the first slot in that order that boots, or with none exactly when none boots |
| BootSelect.Chosen | bootloader/rboot/rboot.c:465-475 | the slot stored is the one the next boot begins with |
| BootSelect.Loader.FindImage | bootloader/rboot/rboot.c:251-490 | returns an address exactly if some slot boots, that of the first good slot, and the stored current slot is then the booted one |
| TftpReceive.WriteSegments | extras/rboot-ota/ota-tftp.c:347-377 | the segment loop, realigning or not, programs exactly the packet's bytes |
| TftpReceive.StorePacket | extras/rboot-ota/ota-tftp.c:332-377 | a block behind the prefix stored so far, in a sector erased before its first write, and nothing outside the slot |
| TftpReceive.Receiver.Accept | extras/rboot-ota/ota-tftp.c:329-411 | stores the block; acknowledges it, the last one only when the image verifies with the length received |
| TftpReceive.Receiver.Step | extras/rboot-ota/ota-tftp.c:270-413 | one event: retransmission on a timeout or a repeated block, refusal of anything out of order |
| TftpReceive.Receiver.Receive | extras/rboot-ota/ota-tftp.c:260-414 | the invariant over every sequence of events |
| TftpReceive.KeptMeans | extras/rboot-ota/ota-tftp.c:260-414 | what the invariant says: the first received_len bytes of the file are in the slot and the rest of the flash is as it was |
| TftpReceive.Transfer | extras/rboot-ota/ota-tftp.c:260-414 | for every event sequence: a prefix of the file stored, nothing outside the slot changed, only stored blocks acknowledged; success means the whole file, sound and of matching length; a delivered file is refused only if it is not sound |
| MqttPacket.PacketLenExact | extras/paho_mqtt_c/MQTTPacket.c:83-97 | never below the true length up to 268435455, one above it for four values only, and too small beyond |
| MqttPacket.DecodeLength | extras/paho_mqtt_c/MQTTPacket.c:53-80 | the decoder finds the field's length and value |
| MqttPacket.LengthRoundTrip | extras/paho_mqtt_c/MQTTPacket.c:28-80 | decoding undoes encoding for every permitted length, whatever follows |
| MqttPacket.LengthTooLong | extras/paho_mqtt_c/MQTTPacket.c:28-80 | and for no larger one |
| MqttPacket.PutLength | extras/paho_mqtt_c/MQTTPacket.c:28-45 | the encode loop writes the encoding and nothing else |
| MqttPacket.TopicLength | extras/paho_mqtt_c/MQTTPacket.c:193-251 | the length announced is the length written exactly if the topic is held in one form, or in two of equal length |
| MqttPacket.PutTopic | extras/paho_mqtt_c/MQTTPacket.c:163-206 | a two-byte length and the topic |
| MqttPacket.SerializePublish | extras/paho_mqtt_c/MQTTSerializePublish.c:55-91 | writes exactly the packet, within the buffer length, or nothing |
| MqttPacket.PublishRoundTrip | extras/paho_mqtt_c/MQTTDeserializePublish.c:36-69 | deserialising undoes serialising exactly if the quality of service and its two header bits agree on the packet identifier, as they do from 0 to 3 |
| MqttPacket.FailureLooksLikeSuccess | extras/paho_mqtt_c/MQTTDeserializePublish.c:54-66 | a failed parse is reported as 1 exactly when the length field is one byte |
| MqttPacket.EmptyPublishReportsSuccess | extras/paho_mqtt_c/MQTTDeserializePublish.c:54-66 | such a packet |
| MqttPacket.AckFailureLooksLikeSuccess | extras/paho_mqtt_c/MQTTDeserializePublish.c:82-106 | an acknowledgement is refused and yet reported as 1 exactly when the byte after the header is 0 or 1 |
| MqttPacket.EmptyAckReportsSuccess | extras/paho_mqtt_c/MQTTDeserializePublish.c:82-106 | such an acknowledgement |
| MqttPacket.DeserializePublish | extras/paho_mqtt_c/MQTTDeserializePublish.c:36-69 | reads the buffer as the parse says, refusals, overruns and negative payload lengths included |
| MqttPacket.SendAndReceive | extras/paho_mqtt_c/MQTTSerializePublish.c:55-91 | a message through both ends is the message |
| MqttPacket.SerializeAck | extras/paho_mqtt_c/MQTTSerializePublish.c:104-127 | four bytes or nothing |
| MqttPacket.DeserializeAck | extras/paho_mqtt_c/MQTTDeserializePublish.c:82-106 | reads the buffer as the parse says, refusals and overruns included |
| MqttPacket.AckRoundTrip | extras/paho_mqtt_c/MQTTDeserializePublish.c:82-106 | deserialising undoes serialising for acknowledgements |

## Left out

- sysparam: the string, integer and boolean wrappers, `sysparam_get_data_static`, `sysparam_get_info`, and memory allocation; flash operations that fail are modelled as far as returning an error.
- sysparam: a power loss between writing a new value and deleting the old one leaves two live values; the store then boots and reads the old value, but later sets are not covered by the finite-map claim, which starts from a clean log.
- sysparam: init and power-loss claims assume that no sector inside the first region begins with the four magic bytes; the header and entry-header writes are taken as atomic.
- Sysparam.Run: stops before the first set that would be lost, which `Store.WouldLose` announces; whether a set refused for want of space has dropped the old value of its key is left open there, since the map does not show it.
- TaskRuns.Run: which tasks wait for events after a call that lets time pass is left open; tasks that are woken no longer do.
- FreeRTOS: the configuration is fixed to generic task selection, preemption, mutexes, vTaskSuspend, and no queue sets; `vTaskDelayUntil`, tickless idle, co-routines, trace and statistics, the MPU port and the alternative API would only repeat lemmas.
- FreeRTOS: the order of event lists is not claimed, because priority changes alter an item's value in place (FreeRTOS/Source/tasks.c:990, 2648); which task inherits from which is the caller's business.
- Tasks.Kernel.PlaceOnEventList: the tasks waiting for events are a set; where in an event list the task is put is not stated, for the reason above.
- Tasks.Kernel.RemoveFromEventList: which waiter is at the head of the event list is the caller's choice.
- FreeRTOS queues: `QueueProtocol` counts items and `QueueStorage` stores them; resetting a queue with waiters, and deleting or suspending a task that has just been woken, are not steps of the protocol. Mutex ownership in the ring's storage is not modelled.
- FreeRTOS timers: STOP, CHANGE_PERIOD and DELETE commands; the command queue is taken to have room, as the no-drift claim needs.
- Timers.Daemon.ProcessCommand: models the START branch only.
- Timers.Daemon.StartTimer: not for a timer that is already active; a restart can be overtaken by a late reload command of the same timer that is queued behind it, so that no schedule could be promised.
- Timers.Run: no further commands arrive while the service task is awake, and a START for an active timer is passed over; which of several STARTs a one-shot timer counts from is not stated.
- 1-Wire: the electrical level, `onewire_search_prefix`, and read errors (the error test compares an unsigned value and never fires); an address is modelled as its eight bytes.
- RbootWriter.Writer.Write: the flash driver fails only past the end of the flash, and allocation does not fail.
- RomVerify.SumChunks: makes no claim where a sixteen-byte read falls outside the flash and the chunk keeps old bytes.
- RomVerify.SkipIrom: makes no claim where the second header lies outside the flash.
- RomVerify.VerifySections: makes no claim where the walk relies on such reads.
- RomVerify.VerifyImage: makes no claim where an unchecked read falls outside the flash or a section length wraps 32 bits; error messages and the length reported on failure are not modelled.
- TftpReceive.WriteSegments: not for an unaligned piece of one to three bytes, for which the length left after the first word would be negative.
- TftpReceive.Receiver.Receive: network connections, the request phase and the receive callback; packets shorter than their header; the block comparison of numbers above 65535, which the slot size rules out.
- BootSelect.Loader.FindImage: temporary and GPIO boot, the configuration checksum and flashes mapped beyond 1 MB, which the default build leaves out; between one and four configured slots.
- MqttPacket.SerializePublish: requires the announced topic length to be the written one and a remaining length of at most 268435455; the code checks neither and would overrun the buffer.
- MQTT: CONNECT, SUBSCRIBE and CONNACK packets, `MQTTPacket_read` and `MQTTPacket_readnb`, and the client's socket handling.
- Drivers, lwIP and mbedTLS glue, DHCP, SNTP, PWM, sensors, displays and the examples: hardware plumbing.
