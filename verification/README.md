# Network Engineering Toolkit: a verified model

Dafny models of the stateful and arithmetic cores of the toolkit, with proofs about whole runs, whole
files and whole streams. `dafny verify dfyconfig.toml` checks everything.

**Safe Apply** (`SafeApply*.dfy`). The transaction manager that snapshots an interface, records the
intent, applies, verifies, and then confirms or rolls back. Memory and the state file are separate
values; a run is any sequence of begin, confirm, rollback, watchdog passes, stops and restarts, with a
fault of the state file, the audit log or the executor, or the death of the process, at every call.
`SafeApply` says what each operation does, `SafeApplyManager` is the class whose methods do it in place,
`SafeApplyRuns` has the invariant, `SafeApplyTheorems` the promises, `SafeApplyBegins` what an acknowledged
`begin` means.

**AF_XDP rings** (`Bits`, `FrameRing*`, `Umem`, `Xdp*`). The lock-free descriptor ring is a machine whose
steps are single atomic loads and stores, scheduled in any order; it refines a bounded queue for runs of
any length, u32 wrap-around included. The worker's rings are objects whose other index the kernel moves
between any two of the worker's accesses.

**Hosts section** (`Text`, `ManagedSection`, `Section*`, `Hosts*`). The helper's editor and the agent's
parser, over arbitrary file text. `ManagedSection` and `Section*` treat markers and line format as
parameters; `Hosts*` supplies them and proves the two modules inverse.

**Captures** (`Pcap*`). The PCAP/PCAPNG reader against a reference encoder written from sections 3.1, 3.5,
4.2 and 4.3 of draft-ietf-opsawg-pcapng, over a file whose reads may be short, interrupted or failing.
`PcapTheorems` says what the reader delivers, `PcapMeaning` where that is what the draft means.

**Kernel resources** (`Resources`, `ResourceTheorems`, `ResourceExecutor`), **the calendar arithmetic**
(`Calendar`), **mbuf ownership** (`Mbufs`, `MbufsSending`), **the benchmark runner** (`Runner`) and **the
queue planner** (`Planner`). `Common` holds what several of them share.

## Where the code and its documentation differ

The models follow the code.

- `confirm_at` accepts a record in any of the three unfinished states, not only one that awaits
  confirmation. `ConfirmVouchesIffAwaiting` shows that an acknowledged confirmation means "the requested
  configuration is in force" for exactly one of the three.
- `begin` is documented to apply and verify, but repeated with the same arguments it returns the stored
  record of any unfinished operation as a success. `FirstBeginMeansInForce` shows that a first call means what
  is documented, `RetryMeansInForceIff` that a retry does exactly when the stored record awaits confirmation.
- `replace_managed_section` is documented to keep everything outside the section. It keeps the lines
  (`ReplaceKeepsLines`), but rewrites their line breaks to one kind; `ReplaceKeepsBytesIff` states exactly
  when no byte changes and `ReplaceChangesBytes` gives a file where one does. For the same reason writing
  twice is byte-idempotent only under the condition of `TwiceKeepsBytesIff`.
- `replace_managed_section` is documented to refuse nested markers, but looks only for begin markers inside its
  section. `StrayMarkerIsDeleted` shows it deleting the end marker of another profile there, which makes that
  profile readable. `OtherProfilesUnchangedIff` states exactly when reading another profile is unaffected, and
  `ReadableProfilesKept` that one that could be read always is.
- `restore_driver` and `release_hugepages` are described as verified by reading back, but every call after
  the release answers success without looking at the kernel. `RestoreReadsBackIff` states that a successful
  call read the value back exactly when the snapshot was not yet released; `RetryReadsNothing` is a run where
  one did not, and `SuccessWasReadBack` finds the earlier call that did, with nothing done since.
- The PCAPNG reader ignores the `if_tsoffset` option of section 4.2 of the draft. `DeliversMeaningIff` states
  exactly when its times are nevertheless those the draft means, `OffsetIsIgnored` gives a capture where they
  are not. It also skips the Simple Packet Blocks of section 4.4 and the obsolete Packet Blocks:
  `AllDeliveredIff` and `SimplePacketIsSkipped`.
- `FrameRing::len` is documented as the number of readable descriptors. Its two loads are two steps:
  `LenDuringCall` says what it returns whatever happens between them, `LenByCaller` that it is exact for the
  two threads that own the ring, `NeverOverstatesIff` when it returns more than is there, and
  `OvertakenSeesCapacity` gives a run in which a third thread sees an empty ring as full.

## Model

| member | source | states |
|---|---|---|
| SafeApplyManager.Manager.Begin | crates/helper-core/src/lib.rs:147-242 | the method's new memory, file, network, snapshots, executor calls and result are those of `SafeApply.Begin` for every pattern of faults |
| SafeApplyManager.Manager.ConfirmAt | crates/helper-core/src/lib.rs:258-275 | the same for confirmation |
| SafeApplyManager.Manager.RollbackInternal | crates/helper-core/src/lib.rs:321-339 | the same for a rollback: intent on file, restore, final state on file, audit |
| SafeApplyManager.Manager.RecoverExpired | crates/helper-core/src/lib.rs:295-310 | the same for the watchdog's loop over expired operations |
| SafeApplyManager.Manager.ReplaceRecord | crates/helper-core/src/lib.rs:354-368 | memory changes before the file; a failed write leaves either version on file |
| SafeApplyManager.Manager.Persist | crates/helper-core/src/lib.rs:370-387 | the file afterwards is the old or the new list, by fault |
| SafeApplyTheorems.WriteAhead | crates/helper-core/src/lib.rs:200-242 | in every run, an interface changed for an operation has that operation's record on file, naming the snapshot taken before the apply, unfinished there as long as it is unfinished in memory |
| SafeApplyTheorems.UniqueAndAppliedOnce | crates/helper-core/src/lib.rs:170-242 | in every reachable state operation IDs are unique and each interface has at most one unfinished record, in memory and on file; apply is called at most once per operation across restarts |
| SafeApplyTheorems.RetryReturnsStoredRecord | crates/helper-core/src/lib.rs:170-187 | an identical retry of an unfinished operation changes nothing, calls no executor and returns the stored record |
| SafeApplyTheorems.FinishedOnFile | crates/helper-core/src/lib.rs:341-368 | a record finished on file is never altered and its snapshot never restored by any later run |
| SafeApplyTheorems.FinishedInMemory | crates/helper-core/src/lib.rs:341-368 | between restarts finished records are absorbing in memory too |
| SafeApplyTheorems.DurableConfirm | crates/helper-core/src/lib.rs:258-275 | after an acknowledged confirmation, only possible before the deadline, no later step of any run restores that operation's snapshot |
| SafeApplyTheorems.ConfirmVouchesIffAwaiting | crates/helper-core/src/lib.rs:258-275 | confirming means the requested configuration is in force if and only if the record awaited confirmation |
| SafeApplyBegins.FirstBeginMeansInForce | crates/helper-core/src/lib.rs:189-242 | a first call that is acknowledged has put the requested configuration in force and awaits confirmation, whatever the state before |
| SafeApplyBegins.RetryMeansInForceIff | crates/helper-core/src/lib.rs:170-187 | over all runs, an acknowledged repetition means the configuration is in force if and only if the stored record awaits confirmation; for finished operations there is none |
| SafeApplyBegins.PreparedRetryMisleads | crates/helper-core/src/lib.rs:170-187 | a run in which a repetition is acknowledged though the executor was never called |
| SafeApplyBegins.RollingBackRetryMisleads | crates/helper-core/src/lib.rs:170-187 | a run in which a repetition is acknowledged though the change was refused |
| SafeApplyTheorems.PreparedMayNotBeInForce | crates/helper-core/src/lib.rs:200-226 | a run after which a prepared record is confirmed though nothing was applied |
| SafeApplyTheorems.RollingBackMayNotBeInForce | crates/helper-core/src/lib.rs:321-339 | a run after which a record that is being rolled back is confirmed though the change was refused |
| SafeApplyTheorems.RollbackRestores | crates/helper-core/src/lib.rs:321-339 | a rollback that succeeds puts the interface back to the operation's own snapshot and changes no other interface and no other record |
| SafeApplyTheorems.RollbackFinishes | crates/helper-core/src/lib.rs:321-339 | while storage works a rollback finishes its operation, as rolled back or as failed |
| SafeApplyTheorems.RecoveryRestores | crates/helper-core/src/lib.rs:295-310 | a successful watchdog pass leaves no expired record; every expired operation's interface carries its snapshot; no other record and no other interface changes |
| SafeApplyTheorems.RecoveryProgress | crates/helper-core/src/lib.rs:295-310 | while storage works, a pass that finds expired records leaves strictly fewer, even if restores fail |
| SafeApplyTheorems.RestartUndoesUnconfirmed | crates/helper-core/src/lib.rs:125-140 | wherever the process died, restart and watchdog past the deadline give the interface exactly what it carried when the operation was applied |
| FrameRing.StepRefines | crates/backend-af-xdp/src/lib.rs:612-643 | every atomic step of either thread keeps the ring invariant and is a step of the bounded queue or invisible |
| FrameRing.RefinesBoundedQueue | crates/backend-af-xdp/src/lib.rs:590-643 | under every interleaving and for runs of any length the callers see a bounded first-in first-out queue, whose contents are the slots between the indices |
| FrameRing.NothingLost | crates/backend-af-xdp/src/lib.rs:590-643 | accepted descriptors are the delivered ones followed by those in the slots: none lost, duplicated, torn or overwritten |
| FrameRing.StoreSparesQueue | crates/backend-af-xdp/src/lib.rs:612-626 | a store before publication touches no slot of an unread descriptor |
| FrameRingObject.Ring.TryPush | crates/backend-af-xdp/src/lib.rs:612-626 | accepts exactly when the queue is below capacity and then appends |
| FrameRingObject.Ring.TryPop | crates/backend-af-xdp/src/lib.rs:631-643 | returns and removes the front, or nothing exactly when empty |
| FrameRingObject.Ring.Length | crates/backend-af-xdp/src/lib.rs:647-652 | the wrapped index difference is the number of queued descriptors |
| FrameRingLength.PushRuns | crates/backend-af-xdp/src/lib.rs:612-626 | the six steps of an uninterrupted push with room make one update, seen as one acceptance |
| FrameRingLength.PopRuns | crates/backend-af-xdp/src/lib.rs:631-643 | the six steps of an uninterrupted pop deliver the front |
| FrameRingLength.LenDuringCall | crates/backend-af-xdp/src/lib.rs:647-652 | with any moves between its two loads, `len` is the first length less the deliveries since, wrapped and clipped; not overtaken, it is never more than the length at any moment of the call |
| FrameRingLength.LenByCaller | crates/backend-af-xdp/src/lib.rs:647-652 | `len` is exact for the consumer at its first load and for the producer at its second; unless overtaken it is exact there only if nothing was delivered or nothing taken; for an overtaken third thread it is the capacity |
| FrameRingLength.NeverOverstatesIff | crates/backend-af-xdp/src/lib.rs:647-652 | `len` is at most the length at every moment of the call if and only if no more is delivered between its loads than was there at the first |
| FrameRingLength.OvertakenSeesCapacity | crates/backend-af-xdp/src/lib.rs:647-652 | a run in which `len` returns the capacity of a ring that is empty at both loads |
| Bits.AndMask | crates/backend-af-xdp/src/lib.rs:612-643 | masking with a power of two less one is the remainder |
| Bits.WrapDistance | crates/backend-af-xdp/src/lib.rs:612-652 | the wrapping difference of two u32 images of counters is their distance |
| Umem.FrameDescriptorInside | crates/backend-af-xdp/src/lib.rs:739-768 | a frame descriptor exists exactly for frames of the region with payloads that fit; it passes the worker's check and stays in its chunk |
| Umem.FramesDisjoint | crates/backend-af-xdp/src/lib.rs:739-756 | descriptors of distinct frames do not overlap |
| Umem.MappingCoversRing | crates/backend-af-xdp/src/lib.rs:1554-1575 | with a mapping of the computed length no index access and no masked slot fails its bounds check, whatever the kernel's offsets |
| XdpWorker.SubmitTx | crates/backend-af-xdp/src/lib.rs:317-336 | appends exactly the longest prefix that fits, or, on a rejected descriptor, publishes nothing |
| XdpWorker.RefillFill | crates/backend-af-xdp/src/lib.rs:384-406 | appends the bases of exactly the longest prefix of frames that fits, or publishes nothing |
| XdpWorker.InitializeFillRing | crates/backend-af-xdp/src/lib.rs:1488-1519 | succeeds exactly on a fresh ring with room for all frames; the ring then holds each frame base once, in order |
| XdpWorker.FirstRejected | crates/backend-af-xdp/src/lib.rs:410-424 | the first descriptor outside the region or longer than a chunk |
| XdpReceive.ReceiveInto | crates/backend-af-xdp/src/lib.rs:232-248 | takes exactly the unread prefix that fits the output, or none when one of them is rejected |
| XdpReceive.RecycleCompletions | crates/backend-af-xdp/src/lib.rs:361-376 | takes exactly the unread prefix that fits the output |
| XdpReceive.ReceivePacketInto | crates/backend-af-xdp/src/lib.rs:276-309 | takes the next whole chain or nothing; errors leave the published index |
| XdpReceive.ReceiveNextPacket | crates/backend-af-xdp/src/lib.rs:276-309 | from a packet boundary each successful call delivers the next packet of the stream and ends on a boundary |
| XdpReceive.ReceiveMany | crates/backend-af-xdp/src/lib.rs:276-309 | any number of calls, failing ones included, split the consumed stream into whole chains |
| XdpPackets.PacketsPartition | crates/backend-af-xdp/src/lib.rs:276-309 | up to a boundary, the packets are the stream and each is a whole chain |
| XdpPackets.PacketsAppend | crates/backend-af-xdp/src/lib.rs:276-309 | a whole chain after a boundary is exactly the next packet |
| XdpPackets.ContinuesIsMask | crates/backend-af-xdp/src/lib.rs:276-309 | the continuation flag is the bit the source masks |
| Hosts.ReplaceManagedSection | crates/helper-core/src/hosts.rs:27-94 | the method that builds strings and splits them again computes `Replace` |
| Hosts.RenderSection | crates/helper-core/src/hosts.rs:96-115 | the rendered text is the section's lines, each followed by the newline |
| Hosts.ValidateEntries | crates/helper-core/src/hosts.rs:131-148 | accepts exactly lists whose entries are all valid |
| Hosts.SectionSplits | crates/helper-core/src/hosts.rs:87-87 | trimming the final breaks and splitting gives the section's lines back |
| Hosts.ParseManagedHosts | apps/agent/src/action_hosts.rs:230-313 | the method with its line loop computes `Parse` |
| HostsTheorems.RoundTrip | crates/helper-core/src/hosts.rs:27-115 | for every file, profile and entry list on which the editor succeeds, the parser returns exactly those entries in order, comments trimmed, whatever "#" they contain |
| HostsTheorems.LineReadsBack | apps/agent/src/action_hosts.rs:266-311 | one printed entry line parses to its entry |
| HostsTheorems.AppendKeepsText | crates/helper-core/src/hosts.rs:63-72 | appending keeps the whole old text as a prefix |
| HostsTheorems.ReplaceKeepsLines | crates/helper-core/src/hosts.rs:74-93 | replacing keeps the lines before and after the section |
| HostsTheorems.ReplaceKeepsBytesIff | crates/helper-core/src/hosts.rs:74-93 | cut at line ends around its section, the file keeps the bytes before and after, with the section's text in between, if and only if all line breaks there are of the file's own kind |
| HostsTheorems.ReplaceChangesBytes | crates/helper-core/src/hosts.rs:74-93 | a file with two kinds of line break in which a byte before the section changes |
| HostsTheorems.TwiceKeepsLines | crates/helper-core/src/hosts.rs:27-94 | a second identical replace succeeds and keeps the line sequence |
| HostsTheorems.TwiceKeepsBytesIff | crates/helper-core/src/hosts.rs:38-93 | it keeps the bytes if and only if the section was already there or the file's breaks were of one kind without a bare final "\r" |
| HostsTheorems.TwiceChangesBytes | crates/helper-core/src/hosts.rs:63-72 | a file for which it does not |
| HostsTheorems.OtherProfilesUnchanged | crates/helper-core/src/hosts.rs:38-93 | parsing any other profile with no marker inside the section gives the same result, errors included, before and after |
| HostsTheorems.OtherProfilesUnchangedIff | crates/helper-core/src/hosts.rs:74-93 | parsing another profile gives the same before and after if and only if no end marker of it is in the replaced lines, or its markers are unpaired with those lines and without them |
| HostsTheorems.ReadableProfilesKept | crates/helper-core/src/hosts.rs:74-93 | another profile that parses before parses to the same list afterwards |
| HostsTheorems.StrayMarkerIsDeleted | crates/helper-core/src/hosts.rs:76-79 | a file in which another profile's end marker inside the section is deleted, so that the profile parses only afterwards |
| SectionEdits.EditReadsBack | apps/agent/src/action_hosts.rs:230-313 | reading a section after an edit reads exactly the lines the edit wrote, for any line format |
| SectionEdits.EditTwice | crates/helper-core/src/hosts.rs:74-93 | repeating an edit succeeds and yields the file with its breaks made alike |
| SectionEdits.EditAgain | crates/helper-core/src/hosts.rs:38-93 | after an edit, an edit of the same section with other lines succeeds |
| SectionBytes.RejoinedIff | crates/helper-core/src/hosts.rs:85-92 | rejoining a text's lines gives the text back exactly when its breaks are uniform |
| SectionBytes.EditThriceSameBytes | crates/helper-core/src/hosts.rs:74-93 | from the second write on the bytes stay |
| SectionOthers.OthersUnseen | apps/agent/src/action_hosts.rs:230-265 | an edit does not change what the reader of any other section gets |
| SectionStrays.OthersUnseenIff | crates/helper-core/src/hosts.rs:74-93 | the exact condition under which the reader of another section gets the same, for any markers and line format |
| SectionStrays.ReadableUnseen | apps/agent/src/action_hosts.rs:230-313 | a section that could be read before reads the same afterwards, for any markers and line format |
| SectionKeeps.EditKeepsBytesIff | crates/helper-core/src/hosts.rs:74-93 | the byte-preservation condition for any markers and lines |
| SectionKeeps.CutIsUnique | crates/helper-core/src/hosts.rs:74-93 | there is only one cut of a file at line ends around its section |
| HostsActions.ApplyMutation | apps/agent/src/action_hosts.rs:114-188 | add, remove and toggle, as loops, compute `Mutate` |
| HostsActions.ActReadsBack | apps/agent/src/action_hosts.rs:108-203 | after any action that wrote the file, reading the profile gives the edited list |
| HostsActions.AddThenRemove | apps/agent/src/action_hosts.rs:114-160 | removing a host that was just added succeeds and leaves the list as it was, addresses in printed form |
| PcapFormat.ParseOptions | crates/backend-pcap/src/lib.rs:410-439 | the loop visits the options as the recursive fold does, padding and early end included |
| PcapFormat.RecordConsumes | crates/backend-pcap/src/lib.rs:142-184 | a record consumes at least 12 bytes of the file and an error at least one |
| PcapEncoding.FoldEncoded | crates/backend-pcap/src/lib.rs:410-439 | the parser visits exactly the encoded options, in order, whatever their padding bytes |
| PcapEncoding.QueueRead | crates/backend-pcap/src/lib.rs:384-396 | the queue is the last queue comment's number, else the interface number as far as it fits |
| PcapEncoding.NumberRead | crates/backend-pcap/src/lib.rs:388-392 | parsing a printed queue number gives the number |
| PcapEncoding.ResolutionRead | crates/backend-pcap/src/lib.rs:326-336 | the resolution is that of the last `if_tsresol` option, else microseconds |
| PcapTheorems.TimestampExact | crates/backend-pcap/src/lib.rs:441-458 | for every 64-bit timestamp and resolution the result is the floor of the exact nanoseconds clipped to 64 bits, and an error exactly for unsupported resolutions |
| PcapTheorems.FrameRead | crates/backend-pcap/src/lib.rs:147-166 | a framed block passes all length checks and gives back its type, body and rest |
| PcapTheorems.InterfaceRead | crates/backend-pcap/src/lib.rs:311-343 | an encoded interface block parses to its interface |
| PcapTheorems.PacketRead | crates/backend-pcap/src/lib.rs:345-408 | an encoded packet block within the limits parses to its bytes, exact time, wire length and queue |
| PcapTheorems.DecodesEncoded | crates/backend-pcap/src/lib.rs:142-184 | reading an encoded section body yields exactly its packets in order and then the end |
| PcapTheorems.DecodesFile | crates/backend-pcap/src/lib.rs:75-102 | the same from the first byte of a file with its section header, in either byte order |
| PcapMeaning.TimeRightIff | crates/backend-pcap/src/lib.rs:441-458 | the reader's time is the one the draft means, offset included, if and only if the offset is zero or hidden by clipping |
| PcapMeaning.DeliversMeaningIff | crates/backend-pcap/src/lib.rs:311-343 | the packets delivered for a section are those the draft means if and only if that holds for each of them |
| PcapMeaning.OffsetIsIgnored | crates/backend-pcap/src/lib.rs:326-336 | an encoded capture whose packet the reader dates one second early |
| PcapMeaning.AllDeliveredIff | crates/backend-pcap/src/lib.rs:167-182 | the reader delivers every packet of an encoded section if and only if only enhanced packet blocks carry packets |
| PcapMeaning.SimplePacketIsSkipped | crates/backend-pcap/src/lib.rs:167-182 | an encoded section with an interface and a packet of which the reader delivers nothing |
| PcapTheorems.DecodesRecords | crates/backend-pcap/src/lib.rs:270-309 | encoded classic records yield their packets with exact times |
| PcapTheorems.SectionOpens | crates/backend-pcap/src/lib.rs:243-268 | an encoded section header opens in its byte order, just before the first block |
| PcapSource.FileReader.ReadExactOrEof | crates/backend-pcap/src/lib.rs:460-472 | however reads are split or interrupted: all the bytes, none at the end of the file, or the truncation error |
| PcapSource.CaptureSource.NextNgRecord | crates/backend-pcap/src/lib.rs:142-184 | the block loop yields what `NextBlock` says, and ends because every pass consumes at least 12 bytes |
| PcapSource.CaptureSource.NextClassicRecord | crates/backend-pcap/src/lib.rs:270-309 | one record as `NextClassic` says |
| PcapSource.ParseInterfaceDescription | crates/backend-pcap/src/lib.rs:311-343 | the method over the option loop computes `ParseInterface` |
| PcapSource.ParseEnhancedPacket | crates/backend-pcap/src/lib.rs:345-408 | the method over the option loop computes `ParsePacket` |
| PcapSource.CaptureSource.ReceiveBurst | crates/backend-pcap/src/lib.rs:187-210 | a burst delivers the next packets of what remains, at most its size, keeps the rest, reports the error or the end exactly when they come next, and after an error stands exactly behind the refused record; failing reads never deliver anything else |
| PcapSource.CaptureSource.ReceiveBursts | crates/backend-pcap/src/lib.rs:187-210 | for an error-free capture, any burst sizes and any splitting of reads deliver a prefix of the same packets, each burst exactly its share; after the end every burst is empty |
| Resources.BindIsSound | crates/helper-core/src/linux_resources.rs:299-337 | binding succeeds only when the target driver was read back, and changes nothing without a kernel write |
| Resources.CountIsSound | crates/helper-core/src/linux_resources.rs:361-369 | writing a page count succeeds only when the count was read back |
| ResourceTheorems.OriginalIsKept | crates/helper-core/src/linux_resources.rs:111-280 | over any retried run with any write failing, nothing is touched before the snapshot is on file, the stored original is the value before the first change, and no other resource changes |
| ResourceTheorems.OriginalFromStart | crates/helper-core/src/linux_resources.rs:111-280 | the stored original is the value in the kernel when the run began |
| ResourceTheorems.SuccessMeansDone | crates/helper-core/src/linux_resources.rs:158-193 | a restore that reports success leaves the starting value, a prepare that does leaves its target, with the starting value on file |
| ResourceTheorems.RestoreReadsBackIff | crates/helper-core/src/linux_resources.rs:170-193 | a restore that succeeds read the original back in that call if and only if the snapshot was not yet released; otherwise it did nothing |
| ResourceTheorems.SuccessWasReadBack | crates/helper-core/src/linux_resources.rs:158-193 | in every run, a restore that succeeds read the original back itself, or an earlier restore did and nothing has happened to file or kernel since |
| ResourceTheorems.ReadBackOnce | crates/helper-core/src/linux_resources.rs:176-188 | the call that released an operation is a restore that read the original back after every change of the value, even if it failed in reporting so |
| ResourceTheorems.RetryReadsNothing | crates/helper-core/src/linux_resources.rs:176-193 | a run whose last restore reports success without looking at the kernel |
| ResourceTheorems.ReleaseIsFinal | crates/helper-core/src/linux_resources.rs:135-141 | after a successful restore every prepare is refused and no call touches file or kernel again |
| ResourceTheorems.RestoreIsPossible | crates/helper-core/src/linux_resources.rs:158-193 | whatever happened before, a restore the kernel answers gets back to the starting value |
| ResourceExecutor.NicExecutor.PrepareDpdk | crates/helper-core/src/linux_resources.rs:111-151 | the method follows `Prepare` for every pattern of faults |
| ResourceExecutor.NicExecutor.RestoreDriver | crates/helper-core/src/linux_resources.rs:158-193 | the method follows `Restore` |
| ResourceExecutor.NicExecutor.BindDriver | crates/helper-core/src/linux_resources.rs:299-337 | the sequence of override, unbind, probe and read-back leaves what `BindDriver` says |
| ResourceExecutor.HugepageExecutor.PrepareHugepages | crates/helper-core/src/linux_resources.rs:200-250 | the method follows `Prepare`; a pool that does not exist cannot be read |
| ResourceExecutor.HugepageExecutor.ReleaseHugepages | crates/helper-core/src/linux_resources.rs:257-280 | the method follows `Restore` |
| Calendar.TimestampIsRight | apps/agent/src/action_speed.rs:458-485 | for every second since the epoch the fields form a Gregorian date and time (the fields of section 5.6 of RFC 3339), and counting years, months and days out gives the second back |
| Calendar.OrderIsKept | apps/agent/src/action_speed.rs:458-485 | the order of the fields is the order of time |
| Calendar.ClampNeverFires | apps/agent/src/action_speed.rs:478-483 | the guard against a month below 1 never applies |
| Calendar.YearOfEraIs | apps/agent/src/action_speed.rs:472-472 | the quotient formula finds the year of every day of a 400-year era |
| Mbufs.RxQueue.ReceiveBurst | crates/dpdk-safe/src/lib.rs:576-623 | whichever packet is malformed and wherever the consumer panics, every mbuf of the burst is freed exactly once, no entry still names one, and the consumer saw exactly the packets before, each while its mbuf was held |
| Mbufs.RxQueue.ReleaseBurst | crates/dpdk-safe/src/lib.rs:630-640 | the guard frees exactly what the entries still own |
| MbufsSending.TxQueue.SendBurst | crates/dpdk-sys/src/shim.c:102-127 | allocations equal frees plus accepted frames; the accepted frames are copies of the template; buffers held before are untouched |
| MbufsSending.TxQueue.SendTemplateBurst | crates/dpdk-safe/src/lib.rs:535-561 | the same behind the argument checks |
| MbufsSending.TxQueue.Transmit | crates/backend-dpdk/src/executor.rs:188-201 | the loop ends; on success exactly the requested frames were sent, on failure fewer, and no buffer is kept |
| Runner.BenchmarkRunner.Run | crates/benchmark/src/runner.rs:203-292 | a runner runs once; its report is that of `RunFrom`, and the executed phases are a prefix of the fixed order, namely those the report does not list as skipped |
| Runner.AppendSkipped | crates/benchmark/src/runner.rs:355-366 | appends a skipped record for each remaining phase |
| Runner.ReportIsRight | crates/benchmark/src/runner.rs:203-292 | every report lists all phases in order as completed, at most one failed, then skipped; it says failed exactly when a record does, completed or degraded only when all completed, and never completed with a degraded issue |
| Runner.CanceledIff | crates/benchmark/src/runner.rs:220-286 | a report says canceled if and only if the flag is first seen at a phase boundary with every phase before it ended well |
| Planner.PlanIff | crates/backend-dpdk/src/planning.rs:98-162 | a plan exists exactly when capacities are non-zero, local cores distinct and the request within all limits; queue i then goes to the i-th smallest local core and tx is the smaller of request and capacity |
| Planner.ValidateNeverFails | crates/backend-dpdk/src/planning.rs:58-87 | the closing validation never rejects such a plan |

## Left out

- Safe Apply: conformity of a configuration is equality of its canonical text, SHA-256 is injective, validation of the desired state is a flag, audit text and JSON are not modelled, and nobody else writes the state file.
- Safe Apply: verification never succeeds on an interface that does not carry the requested configuration; snapshots are faithful and their IDs fresh.
- FrameRingLength.NeverOverstatesIff: is silent for calls of `len` during which more than about 2^32 descriptors are delivered; `LenDuringCall` has the value for these too.
- FrameRing: acquire and release are sequentially consistent steps.
- FrameRingObject.Ring.Length: speaks of a caller that is alone; `FrameRingLength` has the other callers.
- XdpWorker: sockets, polling, BPF programs and mmap; the kernel is assumed to move only its own index and to publish only what fits.
- Hosts: `IpAddr` parsing and printing are abstract; only texts of letters, digits and `:.-_` are taken to be addresses. The file is assumed not to change between the agent's read and the helper's write.
- HostsActions: backup, restore and whole-list replacement, operation IDs and the helper's transport.
- PcapSource: a read that meets the end of the file too early is taken to use up what was left, which the standard library leaves open; the header is read as one value, not through split reads; errors are told apart as malformed or unreadable, without their texts.
- Resources: one operation at a time, with nobody else changing the resource; the existence test of the state file is taken to be reliable; a driver override alone binds nothing.
- Calendar: the text form of the fields, and clocks before the epoch, which the source maps to zero.
- Mbufs: port and mempool set-up, queue ownership sets and statistics; the driver's calls appear as methods with assumed preconditions.
- Runner: evidence contents and their size limit, which appear as one flag per phase.
- Planner: `required_mbufs`, which is checked arithmetic in one expression, and 16-bit widths of the queue counts, which the limits already bound.
- Session coordination, node negotiation, storage, speed engine, RIO queues, certification gates, platform adapters, transports and user interfaces.
