# Latch: a verified model of the crash-evidence pipeline

Latch keeps evidence of a crash alive through resets and power cuts until a collector has it. This project models the
parts of Latch on which that promise rests and proves what they guarantee, in Dafny 4.11. `dfyconfig.toml` lists all
files as one project.

## What is modelled

**Storage.** `Storage` is the flash device: a byte array whose writes and erases may be cut short, in which case they take
effect on a prefix of their range, and whose bits can only fall under NOR rules. A failure hits one operation, or is a
power cut after which no operation takes effect any more. `SlotCommit` is the commit protocol (erase, header, payload,
synchronise, commit byte last), `FlashMirror` the two-bank mirror and `WearLevel` the wear leveller. `AtomicStore` says
what both promise, as a specification of whole logs of updates and restarts; `FlashMirror.Run` and `WearRun.Run` produce
only such logs, for every script and every failure armed in every step. `WearRun.Session` follows a leveller that goes on
after failed commits.

**Spool.** `SpoolFormat` is the layout on flash, with `View` reading off the committed records; `Spool`, `SpoolReclaim` and
`SpoolFlush` are append, mount, reclaim and flush. `Outbox` states the promise on histories (nothing is lost, nothing is
made up), and `SpoolRun` shows that every run of appends, flushes and restarts has such a history. `PowerFail` and
`FaultRecord` are the two retained records, torn at any byte or word store. `Promotion` encodes them as envelopes and
moves them into the spool, over runs in which new seals and faults are recorded as well.

**Transport.** `Fragments` cuts and reassembles envelopes; `Stream`, `StreamParser` and `StreamRelay` are the resumable
sender, the collector's resynchronising parser, and the two of them end to end.

**Codecs and windows.** `Tlv` and `Envelope` are the typed fields and the envelope; `ReplayWindow` the replay window;
`RunLength` and `DeltaCoding` the two compressions; `Blackbox` the retained ring.

**Poly1305.** `Poly1305` proves that the arithmetic in 26-bit limbs computes the function of section 2.5 of RFC 8439, and
`Poly1305Mac` that the incremental context does so for every way of cutting a message into updates.

`Bits`, `Words`, `Bitmaps` and `Counting` hold shared arithmetic.

CRC-32 is a parameter everywhere: each statement holds for every checksum function, because the first header byte is
erased first and the commit byte is written last. Envelope validation is a parameter of spool and stream; `Promotion`
uses the one of `Envelope`. Transport and port answers, clocks, the authentication code and the contents of the envelope
fields are parameters too. Every operation takes an armed failure of the device (operation number, bytes that still land,
and whether power is gone) or a budget of stores before power is lost.

## Properties that turned out to need a condition

- An append may return success for an envelope whose event type is not one of 1 to 8: the append never looks at it, and
  the record is then invisible to every reader. `SpoolFormat.CompleteReadsBack` gives the equivalence.
- A flush drops a record unread if and only if the failing operation is the one that reads its payload and power stays on:
  `SpoolFlush.FlushPass` for one record, `SpoolFlush.Flush` with the numbers of these operations for a whole flush, and
  `SpoolRun.ReadErrorLoses` as a run that loses an envelope reported as stored. A power cut never does
  (`SpoolRun.Run`, `Promotion.Run`), because it also stops the acknowledgement.
- The sequence number survives a reclaim and a restart from zero if and only if it is below 2^31, because the mount compares
  with wrap-around: `SpoolReclaim.ReclaimThenMount`. Otherwise only the boot state can bring it back.
- The delivery order is a strict order on the records present if and only if the sequence numbers of each priority span
  less than half their range: `SpoolFlush.OrderIffComparable`. `SpoolFlush.BeforeCycles` shows a cycle beyond that.
- A wear-leveller session that goes on after a failed commit can lose an update that was reported as successful:
  `WearRun.LostUpdate` is such a run on three slots, where a commit lands although its last synchronisation fails. A
  successful update is what a restart finds if and only if no lower slot carries its generation, that is, no commit reported
  as failed has landed there (`WearLevel.AfterSuccess`, `WearRun.Session`). With two slots this always holds, and on any
  number of slots as soon as the last two updates were reported as successful, or no commit has failed.
- The erase counts of a session stay within one plus its failed commits of each other, and only without failures is the
  greatest the ceiling of their mean: `WearRun.Session`.
- A reassembly belongs to the first fragment that passes the checks. A fragment of another envelope that comes first shuts
  an envelope out, whose fragments are all answered busy: `Fragments.ShutOut`. Unless a forged fragment came in, an envelope
  is reported complete if and only if the first fragment to pass since the last fresh start is its own and all its indices
  have been seen: `Fragments.Receive`, and `Fragments.ReceiveGenuine` for fragments of any number of envelopes.
- A seal held by the backup window alone is lost to a later seal call exactly if that call gets past its first 56 bytes
  (`PowerFail.SealArea.SealNow`); one in the retained record survives every later call. A retained fault gives way to the
  next one stored.
- The sender keeps the wire in frames exactly unless a fatal error hits the payload or the trailer of a frame
  (`Stream.Sender.Send`); `StreamRelay.TornRun` is a run in which the next envelope, sent with success, is then swallowed.
- Of two envelopes with the same event, length and checksum, the one whose payload is on the wire is completed whichever is
  passed to the sender: `Stream.Sender.Send`. `StreamRelay.Relay` delivers what was given where these tell envelopes apart.
- The black box keeps as many of the last records as it has cells if and only if these do not straddle a wrap of the 32-bit
  numbers or the capacity divides 2^32 - 1: `Blackbox.AllHeldIff`. Otherwise a copy leaves out the records whose cells were
  reused early (`Blackbox.Ring.Copy`).

Two descriptions differ from the code, and the model follows the code: the spool's file comment speaks of dropping healthy
entries under pressure, where a full spool refuses the new record; the compression's speaks of an LZ-style codec, where
the code is run-length coding.

## Model

| member | source | states |
|---|---|---|
| `Poly1305.KeyValue` | src/security/poly1305.c:78-91 | the five clamped key limbs stand for the clamped key of RFC 8439 |
| `Poly1305.BlockValue` | src/security/poly1305.c:35-39 | the limbs a block is loaded into stand for the block's number, its high bit included |
| `Poly1305.ColumnBounds` | src/security/poly1305.c:40-49 | with the limb bounds kept from block to block, no product column overflows 64 bits |
| `Poly1305.MulValue` | src/security/poly1305.c:40-49 | the five columns with the folded multiples of five are the product of accumulator and key modulo 2^130 - 5 |
| `Poly1305.CarryValue` | src/security/poly1305.c:50-68 | the partial carry changes the value by a multiple of 2^130 - 5 only |
| `Poly1305.BlockStepValue` | src/security/poly1305.c:25-76 | one block is one Horner step of the reference polynomial, and the limb bounds hold again afterwards |
| `Poly1305.CarryFullCanonical` | src/security/poly1305.c:136-150 | the final carry pass leaves every limb below 2^26, although it carries into the lowest limbs only once |
| `Poly1305.CarryFullValue` | src/security/poly1305.c:136-150 | and keeps the residue modulo 2^130 - 5 |
| `Poly1305.FreezeValue` | src/security/poly1305.c:151-175 | the branch-free selection yields the least residue |
| `Poly1305.TagWordsAre` | src/security/poly1305.c:176-183 | packing into words and adding the pad with carries gives the residue plus pad modulo 2^128, little-endian |
| `Poly1305Mac.Context.constructor` | src/security/poly1305.c:78-91 | a new context has absorbed nothing and holds the clamped key and the pad |
| `Poly1305Mac.Context.Blocks` | src/security/poly1305.c:25-76 | absorbing whole blocks is the reference polynomial over them |
| `Poly1305Mac.Context.Update` | src/security/poly1305.c:93-119 | an update of any length appends its bytes to what was absorbed, wherever the block boundaries fall |
| `Poly1305Mac.Context.Finish` | src/security/poly1305.c:121-185 | the tag is the reference tag of key and everything absorbed |
| `Poly1305Mac.HornerSplit` | src/security/poly1305.c:93-119 | the reference polynomial may be evaluated in pieces cut at block boundaries |
| `Poly1305Mac.Authenticate` | src/security/poly1305.c:187-194 | for every key, message and cutting into updates, the tag is that of section 2.5 of RFC 8439 |
| `Storage.ProgramKeeps` | src/storage/storage_sim.c:46-62 | and-ing a byte in leaves exactly that byte if and only if no bit must rise |
| `Storage.Device.Write` | src/storage/storage_sim.c:46-62 | a write lands whole, or as a prefix when interrupted, or not at all when the NOR rule blocks it |
| `Storage.Device.Erase` | src/storage/storage_sim.c:64-73 | an erase takes effect on its range, or on a prefix of it when interrupted |
| `Storage.Device.Read` | src/storage/storage_sim.c:36-44 | a read returns the bytes or fails without effect |
| `Storage.Device.Program` | src/storage/memory_storage.c:68-159 | programming in write units changes only a prefix of the target range; where bits are guarded, by the device or by units of several bytes, none ever rises, and on a quiet device with room it succeeds exactly if none must; a unit of more than 256 bytes or one beyond the end is refused |
| `Storage.Device.ProgramUnits` | src/storage/memory_storage.c:95-159 | the unit loop keeps neighbouring bytes of every unit, composes the prefixes, and lands only what raises no bit |
| `Storage.Device.IsErased` | src/storage/memory_storage.c:161-188 | reports whether every byte of the range is erased |
| `SlotCommit.LayoutIs` | src/storage/flash_mirror.c:53-75 | header, commit unit and payload share no write unit and waste none, and a slot is the least number of erase blocks |
| `SlotCommit.LayoutIff` | src/storage/flash_mirror.c:53-75 | there is a layout exactly for whole write units of up to 256 bytes in an erase block |
| `SlotCommit.NewerIsOrder` | src/storage/flash_mirror.c:107-109 | within half the number range the wrap-around comparison is the order of the numbers |
| `SlotCommit.EraseSlot` | src/storage/flash_mirror.c:167-172 | a cut erase leaves the slot as it was or without its first byte |
| `SlotCommit.FillSlot` | src/storage/flash_mirror.c:184-197 | header, payload and commit byte: the slot is uncommitted until complete |
| `SlotCommit.CommitSlot` | src/storage/flash_mirror.c:161-204 | wherever a commit stops, the slot is as it was, unmistakably dead, or complete, and nothing else has changed |
| `AtomicStore.OnePending` | src/storage/wear_level.c:246-265 | when every failed update is followed by a restart, only one image can be pending |
| `AtomicStore.ApplyBytes` | src/storage/flash_mirror.c:235-239 | an update leaves the bytes written, 0xff where it erases, and all others as they were |
| `FlashMirror.HeaderReadsBack` | src/storage/flash_mirror.c:103-124 | a header as written is valid and carries generation and checksum |
| `FlashMirror.CompleteIsValid` | src/storage/flash_mirror.c:126-159 | a completed bank is valid, with the image and generation committed |
| `FlashMirror.ValidIff` | src/storage/flash_mirror.c:126-159 | a bank is valid if and only if it is the complete bank of its own generation and image |
| `FlashMirror.DeadIsInvalid` | src/storage/flash_mirror.c:126-159 | a bank without first header byte or commit byte is never taken for valid |
| `FlashMirror.RecoverStartsSession` | src/storage/flash_mirror.c:288-315 | choosing the newer of two banks starts a session on it, across the 32-bit wrap |
| `FlashMirror.SessionRecovers` | src/storage/flash_mirror.c:288-315 | in a session, recovery would find the committed image or one whose commit was attempted since |
| `FlashMirror.CommitKeepsSession` | src/storage/flash_mirror.c:223-242 | any outcome of a commit into the other bank keeps the two generations one apart |
| `FlashMirror.FormatOutcome` | src/storage/flash_mirror.c:309-315 | any outcome of formatting leaves nothing, or the blank image |
| `FlashMirror.Mirror.CheckBank` | src/storage/flash_mirror.c:126-159 | the reader finds a bank valid exactly when header, commit byte and payload checksum agree |
| `FlashMirror.Mirror.CommitImage` | src/storage/flash_mirror.c:167-204 | commits the workspace into one bank with an outcome of the protocol |
| `FlashMirror.Mirror.Init` | src/storage/flash_mirror.c:261-329 | mounts the recovered image, or formats a blank device |
| `FlashMirror.Mirror.Update` | src/storage/flash_mirror.c:223-250 | an update replaces the image or leaves it, and the session survives either way |
| `FlashMirror.Mirror.Read` | src/storage/flash_mirror.c:206-221 | reads the committed image |
| `FlashMirror.UpdateThenRead` | src/storage/flash_mirror.c:206-250 | on a working device an update within the capacity succeeds, and a read returns what it left, byte by byte |
| `FlashMirror.Run` | src/storage/flash_mirror.c:126-204 | over every run of updates and restarts cut at any operation, recovery finds the last committed image or one interrupted since |
| `WearLevel.HeaderReadsBack` | src/storage/wear_level.c:105-117 | a header as written is valid and carries generation, erase count and checksum |
| `WearLevel.ValidIff` | src/storage/wear_level.c:119-153 | a slot is valid if and only if it is the complete slot of its own generation, erase count and image |
| `WearLevel.NewestIsTop` | src/storage/wear_level.c:313-340 | the scan over all slots finds the newest generation |
| `WearLevel.CommitOutcome` | src/storage/wear_level.c:177-226 | generations of valid slots stay pairwise distinct through any outcome of a commit into a slot other than the active one |
| `WearLevel.CommitRecovers` | src/storage/wear_level.c:246-265 | after any outcome, recovery finds the old image or the new one |
| `WearLevel.LiveRecovers` | src/storage/wear_level.c:313-340 | in a session with failed commits, the active slot is what a restart finds exactly if no failed commit has landed since and no lower slot carries its generation |
| `WearLevel.AfterFailure` | src/storage/wear_level.c:177-226 | a failed commit, wherever it stopped, leaves the session alive: every valid slot is at most one generation ahead of the active one |
| `WearLevel.AfterSuccess` | src/storage/wear_level.c:177-226 | a successful commit is what a restart finds if and only if no lower slot carried its generation before; with two slots always |
| `WearLevel.RivalKept` | src/storage/wear_level.c:316-332 | a lower slot that carries the generation already is found instead of the slot just committed |
| `WearLevel.WearSpread` | src/storage/wear_level.c:155-226 | balanced erase counts differ by at most one plus the failed commits, and without failures the greatest is the ceiling of the mean |
| `WearLevel.BalanceStep` | src/storage/wear_level.c:155-226 | choosing the least erased inactive slot keeps that balance |
| `WearLevel.Leveller.NextSlot` | src/storage/wear_level.c:155-171 | the next slot is never the active one, has the fewest erases among the others, and is the first such one after the active slot |
| `WearLevel.Leveller.CheckSlot` | src/storage/wear_level.c:119-153 | the reader finds a slot valid exactly when header, commit byte and payload checksum agree |
| `WearLevel.Leveller.Commit` | src/storage/wear_level.c:177-226 | commits into one slot, counts the erase, and refuses when a counter is used up |
| `WearLevel.Leveller.Scan` | src/storage/wear_level.c:313-340 | the scan of the mount |
| `WearLevel.Leveller.Init` | src/storage/wear_level.c:284-386 | mounts the newest image with the erase counts found, or formats slot 0; on a quiet device this succeeds unless the erase counter of the slot to be formatted is used up |
| `WearLevel.Leveller.Update` | src/storage/wear_level.c:246-273 | in any session, failed commits included, an update replaces the image or leaves it and keeps the balance; on a quiet device it succeeds while an erase counter is left |
| `WearLevel.Leveller.Read` | src/storage/wear_level.c:228-244 | reads the committed image |
| `WearRun.Session` | src/storage/wear_level.c:155-273 | any session of updates and failures on a blank device: erase counts within one plus the failed commits, the ceiling of the mean without failures; after a success a restart finds it unless a lower slot carries its generation, and after two in a row, or without failed commits, it finds the image of all updates reported as successful |
| `WearRun.LostUpdate` | src/storage/wear_level.c:177-226 | a run in which a restart finds the image of an update reported as failed in place of the later one reported as successful |
| `WearRun.UpdateRecovers` | src/storage/wear_level.c:246-265 | after an update of a freshly mounted leveller, however it ended, a restart finds the old image or the new one |
| `WearRun.UpdateThenRead` | src/storage/wear_level.c:228-273 | likewise for the leveller while an erase counter is left |
| `WearRun.Run` | src/storage/wear_level.c:119-226 | over every run with a restart after each failed commit, recovery finds the last committed image or the interrupted one; a command is answered as exhausted only on a device whose counters or generations are used up at the end too, and never in a run without failures that has room for its commits |
| `SpoolFormat.CompleteReadsBack` | src/spool/spool.c:136-142 | a completed record is read back byte for byte, and is visible if and only if its event type is known |
| `SpoolFormat.RecordIff` | src/spool/spool.c:136-142 | a slot is read as a record if and only if it carries its header, checksum and payload, two unused bytes aside |
| `SpoolFormat.ViewAfter` | src/spool/spool.c:75-77 | changing one slot changes the committed records there and nowhere else |
| `Spool.AppendSteps` | src/spool/spool.c:327-362 | header, payload and commit byte, each cut at any byte: the slot is invisible or holds exactly the record |
| `Spool.AckView` | src/spool/spool.c:384-397 | programming the state byte removes a record whole or not at all |
| `Spool.ClearLowestCounts` | src/spool/spool.c:399-422 | each retry clears exactly one bit, so the bits count retries |
| `Spool.BeforeIsOrder` | src/spool/spool.c:475-477 | within half the number range, the comparison is by priority and then by age |
| `Spool.Store.FindEmptySlot` | src/spool/spool.c:283-303 | the first slot below the limit of the priority with an erased record header |
| `Spool.Store.Append` | src/spool/spool.c:305-362 | refuses malformed input, otherwise the record becomes visible in a vacant slot or nothing changes; critical records keep out of the slots reserved for emergencies and all others out of the critical reserve, and on a quiet device each succeeds if the first vacant slot below its own reserve is blank; a refusal for want of a slot counts as a drop, and success raises the high watermark to the number of committed records |
| `SpoolReclaim.HeaderReadsBack` | src/spool/spool.c:129-134 | the spool header as committed is valid and carries the sequence floor |
| `SpoolReclaim.HeaderIff` | src/spool/spool.c:129-134 | a spool header is valid if and only if it is the committed one of this configuration |
| `SpoolReclaim.WriteHeader` | src/spool/spool.c:159-183 | touches no slot, wherever it stops |
| `SpoolReclaim.EraseSpool` | src/spool/spool.c:185-200 | erasing a spool without committed records, torn or not, commits none and takes no vacant slot |
| `SpoolReclaim.ReclaimIfDrained` | src/spool/spool.c:424-451 | changes nothing while a record is committed; success on a drained spool frees every slot |
| `SpoolReclaim.ScannedIsNewest` | src/spool/spool.c:202-225 | within half the number range the scan finds the newest sequence of all records, consumed ones included |
| `SpoolReclaim.ScanRecords` | src/spool/spool.c:202-225 | the scan of all slots |
| `SpoolReclaim.Init` | src/spool/spool.c:227-265 | mounting touches no committed record and formats only a device without valid header or record |
| `SpoolReclaim.ReclaimThenMount` | src/spool/spool.c:159-265 | the sequence number held before a reclaim is that of the mount after a reset, unless the runtime brings one that is not older; starting from zero it comes back if and only if it is below 2^31 |
| `SpoolFlush.AcknowledgeRecord` | src/spool/spool.c:384-397 | the record is gone, or everything is as before |
| `SpoolFlush.CountRetry` | src/spool/spool.c:400-407 | the loop clears the lowest set bit |
| `SpoolFlush.IncrementRetries` | src/spool/spool.c:399-422 | counting a failed delivery changes no record and only clears a bit |
| `SpoolFlush.SelectNext` | src/spool/spool.c:462-485 | the scan finds the record to send first, and none exactly when none is committed |
| `SpoolFlush.OrderIffComparable` | src/spool/spool.c:475-477 | the comparison is asymmetric and transitive on the records present if and only if the sequence numbers of each priority span less than half the range |
| `SpoolFlush.BeforeCycles` | src/spool/spool.c:475-477 | beyond half the range three records can each be due before the next |
| `SpoolFlush.ReadPayload` | src/spool/spool.c:487-508 | a record is sound exactly when readable, matching its checksum, and a valid envelope |
| `SpoolFlush.FlushPass` | src/spool/spool.c:487-532 | a record goes only after the transport took it, or as damaged or unreadable, and as unreadable exactly if the first operation of the pass fails with power staying on; a refused one stays, with one more retry counted after a failed send |
| `SpoolFlush.Flush` | src/spool/spool.c:453-536 | each intact record is sent at most once, in delivery order and ahead of what is left; success means that nothing committed is left and every slot is free, and an early stop leaves every unsent record committed with retry bits only cleared further; a record is lost as unreadable if and only if one of the payload reads, whose operation numbers are given, fails with power staying on, and a willing transport leads to one such read for each record |
| `SpoolFlush.RetriesFallTransitive` | src/spool/spool.c:399-422 | retry bits only ever fall, over any number of passes |
| `Outbox.NeverLost` | src/spool/spool.c:305-382 | an intact committed record is still committed, or a transport has taken it, or its payload could not be read |
| `Outbox.NoPhantom` | src/spool/spool.c:453-536 | what is committed or sent was there at the start or was appended |
| `Outbox.DeliveredOrKept` | src/spool/spool.c:487-498 | without failed payload reads, every intact record is committed or delivered |
| `Outbox.SentIntact` | src/spool/spool.c:487-508 | only payloads that match their checksum and are envelopes are sent, and only others go as damaged |
| `SpoolRun.EmergencyReserve` | src/spool/spool.c:267-303 | an emergency append finds a slot while fewer emergency appends than reserved slots were made since the last flush that drained the spool, whatever else was appended or torn |
| `SpoolRun.CriticalReserve` | src/spool/spool.c:267-303 | likewise for critical appends and the slots reserved for critical and emergency |
| `SpoolRun.OrdinaryRoom` | src/spool/spool.c:267-303 | every append finds a slot while fewer appends than there are slots below the critical reserve were made since the last flush that drained the spool |
| `SpoolRun.ReservedAppend` | src/spool/spool.c:305-347 | an append takes at most one slot, below the limit of its priority |
| `SpoolRun.Step` | src/spool/spool.c:227-536 | every command extends the history lawfully |
| `SpoolRun.Run` | src/spool/spool.c:227-536 | over every run with a failure at any operation, each accepted envelope has a commit of its own after which it is still committed byte for byte, or delivered, or was unreadable; where all failures are power cuts, committed or delivered; every commit is of an envelope some append was given |
| `SpoolRun.ReadErrorLoses` | src/spool/spool.c:487-508 | one failed payload read with power on loses an envelope reported as stored, although the transport would have taken it |
| `PowerFail.EncodeReadsBack` | src/core/powerfail.c:73-104 | a committed seal validates and is read back field for field, each at its offset |
| `PowerFail.RetainedIff` | src/core/powerfail.c:73-104 | nothing but a committed record of a known reason and tier is read as a seal |
| `PowerFail.BackupIff` | src/core/powerfail.c:106-138 | nor in the window, where either magic may stand |
| `PowerFail.RetainedTear` | src/core/powerfail.c:205-217 | any prefix of the stores into the retained record leaves it unreadable or complete |
| `PowerFail.BackupTear` | src/core/powerfail.c:56-71 | any prefix of the stores into the backup window leaves the old seal, none, or the new one |
| `PowerFail.SealArea.SealNow` | src/core/powerfail.c:151-230 | after any prefix of its stores a reader finds the previous seal, none, or the complete new one, made of the arguments; a held magic or no reason changes nothing; the window keeps the old seal up to 56 bytes, holds none up to 123, and then the new one |
| `PowerFail.SealArea.Clear` | src/core/powerfail.c:252-257 | withdraws the seal; a cut leaves it, or what the window holds, or none |
| `FaultRecord.CommittedReadsBack` | src/capture/capture.c:315-346 | a committed fault record passes its three checksums and is read back |
| `FaultRecord.ReadIff` | src/capture/capture.c:315-346 | nothing but the words of a record with the checksums its version calls for is read as a fault |
| `FaultRecord.Record.Store` | src/capture/capture.c:125-167 | a reset between any two word stores leaves the record as it was before the first, unreadable before the last, and complete after it |
| `FaultRecord.Record.Clear` | src/capture/capture.c:348-351 | withdraws the fault or leaves it |
| `Promotion.CaptureEvent` | src/core/runtime.c:133-163 | for an emergency, success means that one record with an envelope of the event has become visible; on a working device with a blank slot open to the priority and room for the envelope it does succeed |
| `Promotion.RecoverSeal` | src/core/powerfail.c:266-319 | a seal is withdrawn only after an emergency record with an envelope of it is committed, and it is promoted whenever the device works and there is room |
| `Promotion.RecoverFault` | src/capture/capture.c:383-450 | a fault is withdrawn only after an emergency record with an envelope of it is committed, and it is promoted whenever the device works and there is room |
| `Promotion.PromotedIsSafe` | src/spool/spool.c:510-532 | the record committed for the evidence is still there, or a transport has taken it since, or it could not be read |
| `Promotion.Run` | src/core/runtime.c:37-93 | across resets at any step, evidence retained at the start is still retained, or an emergency record with its envelope was committed and is still there, delivered or, unless all failures are power cuts, unreadable; a seal of the window alone gives way to a later seal, a fault to a later fault |
| `Promotion.SealedRun` | src/core/powerfail.c:151-230 | a seal that got its bytes out, 60 or with a backup window 120, is still held after any run, or secured in the spool |
| `Fragments.Cut` | src/transport/transport.c:216-241 | each fragment carries the bytes its index owns and the shared key |
| `Fragments.CuttableIff` | src/transport/transport.c:215-223 | an envelope can be cut if and only if 65535 fragments hold it |
| `Fragments.SendFragments` | src/transport/transport.c:183-247 | the fragments of an envelope in order, up to the first the transport refuses; oversized input is refused |
| `Fragments.Partition` | src/transport/transport.c:216-241 | the fragments joined are the envelope |
| `Fragments.CheckedIff` | src/transport/transport.c:285-319 | a fragment passes the checks if and only if it covers exactly the bytes its index owns, matches its own checksum, and has room |
| `Fragments.CutChecks` | src/transport/transport.c:285-319 | every fragment cut from an envelope passes the checks where there is room |
| `Fragments.DamagedCut` | src/transport/transport.c:314-317 | a fragment whose payload changed its length or no longer matches its checksum is answered as corrupt |
| `Fragments.Reassembly.Push` | src/transport/transport.c:321-377 | what a push does to bytes, received set and key, conflicting duplicates and checksum failure included; the count is the number of set bits |
| `Fragments.Reassembly.MarkBit` | src/transport/transport.c:353-365 | setting a bit of the bitmap adds exactly that index |
| `Fragments.Receive` | src/transport/transport.c:321-377 | for any fragments in any order, forged ones included: as long as none was forged since the last fresh start, the identical envelope is reported complete exactly when the first fragment to pass since then was its own and its last distinct one arrives |
| `Fragments.ReceiveGenuine` | src/transport/transport.c:321-377 | with fragments of several envelopes, none of them forged, the first to pass decides, that envelope is complete exactly when all its fragments were seen, and the others are turned away |
| `Fragments.ShutOut` | src/transport/transport.c:321-350 | after a first fragment of another envelope, every fragment of the envelope is answered busy |
| `Stream.ParseFrameIs` | src/transport/stream.c:223-257 | the frame parser accepts exactly the frames of valid envelopes within the maximum |
| `Stream.Sender.Send` | src/transport/stream.c:118-187 | the wire carries whole frames and a prefix of the pending one; exactly a fatal error within a frame tears it, at the part it hits, and frames start afresh behind it; the answer is the first refusal of the port, success means the frame is complete, and of which envelope, and exactly a refusal for now keeps it pending |
| `Stream.Sender.WriteFrame` | src/transport/stream.c:144-179 | writes what is missing of the pending frame, resuming at the part that failed |
| `Stream.Sender.Release` | src/transport/stream.c:86-98 | a retryable failure keeps the frame pending, from its start if it was complete |
| `StreamParser.ScanAppend` | tools/latch_collector.py:209-235 | chunking does not matter: scanning may stop anywhere and continue with the undecided bytes |
| `StreamParser.Resync` | tools/latch_collector.py:212-235 | after any bytes at which no frame within the maximum could start, the next frame is met: reported if its checksum is right, skipped whole if not, and the scan goes on behind it |
| `StreamParser.AfterGarbage` | tools/latch_collector.py:222-224 | an envelope sent after such garbage is found |
| `StreamParser.ScanSound` | tools/latch_collector.py:229-235 | only frames in the stream with a right checksum are reported, as envelopes exactly the valid ones |
| `StreamParser.RestBound` | tools/latch_collector.py:213-228 | what is left undecided is shorter than the longest frame |
| `StreamParser.Parser.Turn` | tools/latch_collector.py:212-233 | one turn of the loop is a step of the byte-by-byte scan |
| `StreamParser.Parser.Feed` | tools/latch_collector.py:209-235 | what a chunk yields and what stays in the buffer are together the scan of everything fed, and the buffer stays shorter than the longest frame; an error discards the envelopes found before it |
| `StreamParser.FeedAll` | tools/latch_collector.py:209-235 | in any chunking, feeding on after errors, every event of the stream in one piece is met in turn, and all envelopes are returned but those of the calls that raise |
| `StreamParser.ScanWireAndMore` | tools/latch_collector.py:209-235 | scanning whole frames and a prefix of another yields exactly the whole ones, in order |
| `StreamParser.TornFrameHides` | tools/latch_collector.py:226-232 | after a torn frame the next short envelope is swallowed |
| `StreamRelay.SendAll` | src/transport/stream.c:118-187 | a session of sends through a port that refuses for now: after each call the wire holds the frames of the calls that completed one and part of another, each of an envelope the sender cannot tell from the one given |
| `StreamRelay.Relay` | src/transport/stream.c:118-187 | what is sent under retryable failures is what the parser returns, in order and byte for byte, in any chunking: every call that succeeded, and one that failed exactly if its frame was complete on the wire; where event, length and checksum tell the envelopes apart, each is the one given |
| `StreamRelay.TornRun` | src/transport/stream.c:118-187 | after a fatal error at a payload the next envelope is sent with success, and the collector returns nothing |
| `Tlv.ParsedJoined` | src/envelope/lep.c:1274-1297 | reading fields undoes writing them |
| `Tlv.JoinedParsed` | src/envelope/lep.c:1161-1176 | writing undoes reading: the coded form is unique |
| `Tlv.FieldLayout` | src/core/util.c:109-118 | a field is its kind, its length and its value |
| `Tlv.Writer.Write` | src/core/util.c:83-90 | appends all bytes or none |
| `Tlv.Writer.WriteField` | src/core/util.c:109-118 | appends a whole field or nothing |
| `Tlv.ValidatePayload` | src/envelope/lep.c:1161-1176 | succeeds exactly on rows of whole fields |
| `Tlv.VisitPayload` | src/envelope/lep.c:1274-1297 | hands over exactly the fields, in order, until the visitor objects, and answers with the objection |
| `Envelope.PutString` | src/envelope/lep.c:53-73 | a string is written whole or cut to 255 bytes or the room left, and the cut is reported |
| `Envelope.PutIdentity` | src/envelope/lep.c:85-132 | all fifteen strings are there exactly when 34 bytes fit; a string is cut only at 255 bytes or where the 512 bytes or the room end, and a cut is reported exactly if a string is too long or all together are |
| `Envelope.IdentityReads` | tools/latch_collector.py:144-156 | a reader of the identity finds the fifteen strings, numbered from one |
| `Envelope.PutPayload` | src/envelope/lep.c:977-1025 | mandatory fields are never dropped and optional ones only where they do not fit; it fails exactly if the identity or a mandatory field does not fit; the truncation mark is set exactly if an identity string is cut or a part was dropped, shortened or withheld |
| `Envelope.AssembledValidates` | src/envelope/lep.c:1027-1039 | an envelope put together from its pieces, encrypted or not, validates with its header |
| `Envelope.ValidatedIff` | src/envelope/lep.c:1178-1228 | an envelope validates with a header if and only if it is put together from that header, metadata, payload, checksums and code of the sizes the flags call for; a plain payload is a row of fields |
| `Envelope.FlagsAre` | src/envelope/lep.c:1148-1159 | the six flag bytes that are accepted, and what they stand for |
| `Envelope.HeaderLayout` | src/envelope/lep.c:1027-1039 | where each field of the header is |
| `Envelope.Validate` | src/envelope/lep.c:1178-1228 | the stepwise validation decides the conjunction of all conditions |
| `Envelope.Encode` | src/envelope/lep.c:1041-1146 | a successful unencrypted encode validates with the same header fields and ends in the code of all before it, and its truncation flag is set exactly if an identity string is cut or a part was dropped, shortened or withheld; with room for the identity and all parts it succeeds and drops none |
| `Envelope.Visit` | src/envelope/lep.c:1356-1367 | visits the fields of a valid envelope that is not encrypted |
| `Envelope.EncodeThenVisit` | src/envelope/lep.c:1041-1146 | visiting an encoded envelope yields exactly the fields written, in order: without the truncation flag the whole identity and every part unshortened, with it a cut identity, fewer fields, or a shortened one |
| `ReplayWindow.ForwardIs` | src/envelope/lep.c:1253-1262 | the wrapped differences are those of the unwrapped numbers |
| `ReplayWindow.Window.Accept` | src/envelope/lep.c:1242-1272 | a number is accepted exactly when it is ahead of all, or within the last 64 and not accepted before; bit d stands for the number d behind the highest |
| `ReplayWindow.Runtime.ReplayAccept` | src/security/sha256.c:261-271 | the wrapper that takes a non-zero bitmap for an initialised window keeps the same promise |
| `ReplayWindow.TopIsHighest` | src/envelope/lep.c:1253-1262 | the top an offer is compared with is the highest number accepted before it |
| `ReplayWindow.NeverTwice` | src/envelope/lep.c:1242-1272 | over any run no number is accepted twice unless one more than 2^31 ahead of it was accepted in between |
| `ReplayWindow.Run` | src/envelope/lep.c:1242-1272 | window and wrapper agree on every number of every run, and accept by the rule above relative to the highest number accepted so far |
| `RunLength.Compress` | src/envelope/compression.c:50-86 | the result expands to the input, codes every run of 3 to 128 equal bytes in two bytes, and is at most n + ceil(n/127) bytes, so that this capacity always suffices |
| `RunLength.LiteralEnd` | src/envelope/compression.c:67-77 | a literal ends at the end, before a run, or with at least 127 bytes, and contains no run of three |
| `RunLength.RunCoded` | src/envelope/compression.c:58-66 | an input that is one run is coded as its length and its byte |
| `RunLength.Decompress` | src/envelope/compression.c:87-114 | accepts exactly the well-formed strings that fit, with the bytes they stand for |
| `RunLength.ExpandJoin` | src/envelope/compression.c:87-114 | coded strings may be joined |
| `RunLength.RoundTrip` | src/envelope/compression.c:50-114 | decompressing what was compressed gives the input |
| `DeltaCoding.EncodeVarint` | src/envelope/compression.c:12-28 | writes the variable-length code, or reports that it does not fit |
| `DeltaCoding.DecodeVarint` | src/envelope/compression.c:29-49 | reads a number of up to five bytes, and tells incomplete from overlong codes |
| `DeltaCoding.ReadCases` | src/envelope/compression.c:29-49 | which bytes are a number, incomplete, or too large, exactly |
| `DeltaCoding.ReadsBack` | src/envelope/compression.c:12-49 | decoding a code followed by anything gives its number and consumes exactly the code |
| `DeltaCoding.ZigzagBack` | src/envelope/compression.c:115-121 | zigzag decoding undoes encoding |
| `DeltaCoding.DeltaRoundTrip` | src/envelope/compression.c:122-165 | decoding the coded differences gives every list of values back, wrap-around included |
| `DeltaCoding.CodedLength` | src/envelope/compression.c:122-144 | at most five bytes a value |
| `DeltaCoding.EncodeDeltas` | src/envelope/compression.c:122-144 | writes the coded form exactly when it fits; five bytes a value always do |
| `DeltaCoding.DecodeDeltas` | src/envelope/compression.c:145-165 | returns the decoded values, or the first error |
| `DeltaCoding.RoundTrip` | src/envelope/compression.c:122-165 | decoding what was encoded gives the values |
| `Blackbox.Ring.Add` | src/core/blackbox.c:163-226 | appends the record, its time filled in where it has none, unless the kind is unknown, the ring frozen, or the quiet profile filters it out, which keeps important and error records, watchdog and power |
| `Blackbox.Ring.Clear` | src/core/blackbox.c:91-106 | empties the log |
| `Blackbox.Ring.Copy` | src/core/blackbox.c:304-348 | returns the records still held of the end of the log, as much as fits, in order; all of them unless they straddle a wrap |
| `Blackbox.Ring.GetRecent` | src/core/blackbox.c:350-391 | returns the record of a given age exactly if it is held |
| `Blackbox.Ring.GetStats` | src/core/blackbox.c:393-416 | counts all records and those beyond the capacity, up to 2^32 - 1 |
| `Blackbox.ValidIff` | src/core/blackbox.c:304-325 | a cell is valid if and only if it was sealed with a number |
| `Blackbox.KeepsNext` | src/core/blackbox.c:192-205 | one more record goes to the cell of its number and changes no other |
| `Blackbox.ValidCell` | src/core/blackbox.c:304-325 | a cell is valid exactly when the log has reached it, and holds a record of the last two rounds, across the wrap |
| `Blackbox.AllHeldIff` | src/core/blackbox.c:192-223 | the last records are all held if and only if they do not straddle a wrap or the capacity divides 2^32 - 1 |

## Left out

- Storage.Device.Sync: only counts as an operation that may fail; the failure model has no volatile write cache.
- WearRun.Run: mounts again after each failed commit, and starts no update once the live generations span half their range; WearRun.Session goes on after failed commits.
- WearRun.Session: the balance holds within one session from a blank device, since a torn erase loses the erase count of its slot.
- Spool.Store.Append: the watermark is promised exactly on a quiet device, since a failed read ends the count of records early; success is promised when the first vacant slot is erased throughout, since a torn reclaim may leave an erased header over a dirty payload.
- SpoolFlush.Flush: promises the delivery order while it is one, the sequence numbers of each priority spanning less than half their range.
- Promotion.CaptureEvent: success is promised where the longest identity and all parts fit; a shorter identity or dropped parts may make do with less, as Envelope.PutPayload says.
- Promotion.Run: the fields that describe the evidence in its envelope are parameters.
- FaultRecord.Record.Store: the context sidecar of builds with wide contexts is not part of this model.
- FaultRecord.Record.Clear: nor is withdrawing that sidecar, which only builds with wide contexts have.
- Fragments.Receive: after a forged fragment that passes the checks under the envelope's key, nothing is said of its answers until the next fresh start; Fragments.Reassembly.Push covers each such push.
- Fragments.ReceiveGenuine: says nothing about receptions with forged fragments; Fragments.Receive covers those.
- Stream.Sender.Send: a write consumes its buffer or nothing; calls are sequential, so the busy flag and the state magic are left out.
- StreamRelay.Relay: the port fails for now at worst, and so it does in StreamRelay.SendAll; Stream.Sender.Send and StreamRelay.TornRun cover fatal errors.
- Envelope.Encode: encryption is left out.
- Envelope.PutPayload: the fields after the identity are parameters, and so is whether the writer of each had to shorten or withhold it.
- Tlv.Writer.Write: the output buffer is a value, so what lies beyond its length is not modelled; the same holds for RunLength.Compress and DeltaCoding.EncodeDeltas.
- Blackbox.Ring.Add: fewer than 2^30 cells; the inverse copies of the metadata and their repair after a reset are left out.
- Machine word sizes of lengths and offsets: sizes are unbounded numbers.
- Storage that is not registered, too small, or without an erase callback.
- CRC-32, ChaCha20, SHA-256, HKDF and the authentication code: functions without further properties.
- Selection, registration and mutual exclusion of transports; retry loops around a single send; LSAK acknowledgements.
- Boot state, boot-loop detection, rate limits and deduplication of the event policy.
- Metrics, health, supervisor, mission, time, environment, anomaly and provisioning: small state that would add only easy members.
- Fault-injection hooks, architecture handlers, operating-system and vendor ports, build and release scripts.
