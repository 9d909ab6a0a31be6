# MeshRoute firmware services: models and proofs

This project models the stateful services of the MeshRoute node firmware and proves what they keep over
every run. It is written for Dafny 4.11; `dafny verify dfyconfig.toml` verifies all of it.

The original updates objects and buffers in place, so each service is here twice. A **class or method** has
the source's fields, loops and branches, and its `ensures` ties every call to one step of a **specification
function** on values. The **lemmas** then prove, about those functions, what holds over whole runs.

| part | files | what it is |
|---|---|---|
| remote administration | `AdminRecords`, `AdminLive`, `AdminVerbs`, `AdminRuntime`, `AdminServices`, `AdminTarget`, `AdminRuns`, `AdminSafety`, `AdminOutcomes` | two durable records (an administration root and a ten-slot ACL), a live image, and the prepare / save / commit-or-discard protocol that keeps them together |
| console | `ConsoleQueue`, `ConsoleLines`, `ConsoleReports`, `ConsoleDrain`, `ConsoleWire`, `ConsolePort`, `ConsoleSink` | one byte buffer with three indices, lazy compaction, whole-line dropping, which written lines arrive, and what a reader of the wire sees |
| configuration | `ConfigModel`, `ConfigDrafts`, `ConfigServices` | optimistic concurrency over persisted, effective and draft values, with external writers |
| record stores | `PeerBook`, `PeerContents`, `TargetRecords`, `TargetBookService`, `Keyring` | the peer address book, the target book and the management keyring |
| text | `CommandPolicy`, `CommandMeaning`, `CommandMatcher`, `KeyValues`, `TeamKeyTail`, `Codecs`, `Digits`, `LineIO` | the command policy matcher, the in-place tokenizer, codecs and the byte-stream splitters |

How the surroundings enter:

- A **store** holds one record that is absent, corrupt or stored; every load may fail to answer and every
  save may be refused, and a refused save leaves the record as it was. Records change only by a save
  (the configuration record also by external writers).
- **Entropy** is a sequence of draws; a missing or an all-zero draw refuses, and both may happen anywhere.
- **Key derivation and fingerprints** are arbitrary functions. A 32-byte key is a number, 0 the all-zero one.
- The **serial port** may be absent at any moment, offer any room, and take any part of what it is handed.
- The **policy table** is an arbitrary sequence of rows.

## Where the code and its promises differ

- *"The running readiness equals what a fresh boot installs"* (`src/firmware_admin_runtime.h:255-257`) holds
  after a boot exactly when that boot could read every usable record and got every draw it needed:
  `AdminRuns.ReadinessTracksExactly` is the if-and-only-if, and `EntropyFailedBootCounterexample` is a
  concrete run on which a durable success leaves the node disabled while a reboot would make it accept.
- A console line never fuses with a drop report *unless* the host takes only part of a report: the report is
  written directly after a room check, and the code ignores how much of it was taken.
  `ConsoleWire.FragmentsNeverFuseExactly` is the condition, `CutReportFuses` the run.
- A drop report is promised to be retained and retried until it goes out (`src/console_sink.h:105`, `:114`).
  The code forgets the drops as soon as it has handed the report over, whatever the host takes of it: with
  room offered and no byte taken they are never told (`ConsoleReports.ReportIsLost`). A reader can be told of
  every drop if and only if the host takes every report whole (`ConsoleReports.DropsAreToldExactly`).
- `service()` promises to end a line left open, and looks only at its stored bytes (`src/console_sink.h:107`).
  A line that overflowed before its first byte was stored is not ended: its overflow mark outlives the pass,
  and the next line is dropped whole even if it fits. `ConsoleDrain.ServiceEndsLineExactly` and
  `NextLineIsItsOwnExactly` are the conditions, `OverflowOutlivesThePass` a run.
- `peer_rec_put` answers `unchanged` for a byte-identical book except when the stored count had rotted past
  the array: it is then clamped, and the answer is still `unchanged` (`PeerBook.UnchangedIsIdenticalExactly`, with
  `RottedCountIsClamped` as the book).
- `split_team_key_tail` says that it re-emits the surviving tokens verbatim; it does not print quotes back,
  so a value with a space in it changes (`TeamKeyTail.RestReadsBackExactly`, `TwoWordsAreCut`).
- `split_team_key_tail` checks each byte it copies into `scratch`, and not the terminator behind them: with an
  empty tail and a buffer of no bytes, and only then, it writes outside (`TeamKeyTail.Split`, outcome
  `PastTheEnd`). No caller in the repository passes such a buffer.
- `seg_path` never overruns its buffer, but a buffer too small makes different segments share a path: for
  every directory name exactly when the buffer is shorter than the name and seven bytes
  (`Codecs.SegmentsNeverShareAPathExactly`; `ClippedPathsCollide` is one pair).

## Model

| member | source | states |
|---|---|---|
| AdminRuns.ReadinessTracksExactly | src/firmware_admin_runtime.h:245-326 | after a boot, over every later run of verbs, requests and refusals, live acceptance agrees with the two records if and only if the boot was clean |
| AdminRuns.RunningEqualsFreshBoot | src/firmware_admin_runtime.h:255-257 | after a clean boot and any run, a further clean boot of the same medium installs the same root, ACL image, occupancy and readiness that are already live |
| AdminRuns.RunKeepsCoherent | src/firmware_admin_runtime.h:245-326 | over every run: the live root is the one derived from the stored seed (none if unusable), the live ACL is the image of the stored one, every occupied row has a non-zero epoch, readiness is what those fields say |
| AdminRuns.NextKeepsCoherent | src/firmware_admin_runtime.h:184-225 | each single verb, admission or rollover keeps that, whatever is refused on the way |
| AdminRuns.AclEditKeepsCoherent | src/firmware_admin_acl.h:389-417 | an ACL add, set or remove keeps the live image equal to the stored record |
| AdminRuns.ResetKeepsCoherent | src/firmware_admin_acl.h:363-377 | so does a reset of an invalid ACL record |
| AdminRuns.MintRootKeepsCoherent | src/firmware_admin_identity.h:262-333 | generate, rotate and recover keep the live root equal to the one the stored seed derives |
| AdminRuns.SessionsKeepCoherent | lib/core/remote_session.cpp:1026-1066 | admissions and rollovers never disturb it |
| AdminRuns.BootCoherentExactly | src/firmware_admin_runtime.h:263-326 | a boot installs exactly what the medium describes if and only if it is clean |
| AdminRuns.BootOutcome | src/firmware_admin_runtime.h:263-326 | each half is installed by its own verdict; a refused draw leaves a cleared node that records why |
| AdminRuns.BootReportsWhatItInstalled | src/firmware_admin_runtime.h:319-325 | the state and slot count a boot reports are those of the live block it leaves, and it writes nothing |
| AdminRuns.CoherentReadiness | src/firmware_admin_acl.h:427-429 | the node accepts exactly when both stored records are usable |
| AdminRuns.UncleanBootLosesAHalf | src/firmware_admin_runtime.h:273-317 | a boot that is not clean leaves a usable half out |
| AdminRuns.UncleanBootShows | src/firmware_admin_runtime.h:245-257 | from every unclean boot there is a run of successes after which readiness and records disagree |
| AdminRuns.EntropyFailedBootCounterexample | src/firmware_admin_runtime.h:277-286 | a concrete run: a refused boot draw, then a successful `acl set`, and the node stays disabled although a boot would accept |
| AdminRuns.CandidateValid | src/firmware_admin_acl.h:258-354 | every record an ACL verb composes is valid and has an owner; it is the loaded one with one row changed as asked: a new key in the lowest free slot, the named row with the new role, or the named row emptied |
| AdminRuns.CommitCheckNeverFails | src/firmware_admin_acl.h:389-397 | the candidate check in the commit path never refuses: `store_invalid` means the stored record was already corrupt |
| AdminRuns.CensusIsPopulation | src/firmware_admin_acl.h:159-167 | on a valid record the census of known roles is the stored count |
| AdminRuns.ImageOfValid | src/firmware_admin_runtime.h:85-94 | a valid record's live image is the image of its rows; it is usable exactly when it has an owner |
| AdminSafety.AclEditTouchesOneSlot | src/firmware_admin_runtime.h:112-126 | a successful ACL change draws a fresh epoch (0 for a removed row) for its one slot, ends that slot's admitted requests and leaves every other row, epoch and request; anything else leaves records and live state identical |
| AdminSafety.RootChangeTouchesEverySlot | src/firmware_admin_runtime.h:153-172 | a successful root change installs the derived pair, ten fresh non-zero epochs in draw order, ends every admitted request and keeps the ACL; a refusal changes nothing |
| AdminSafety.RunKeepsSafe | lib/core/remote_session.cpp:339-404 | over every run, boots of any kind included: a live half is the stored one or absent, every admitted request was authenticated under the pair, row and epoch now in service, and a node that accepts is provisioned |
| AdminSafety.NextKeepsSafe | lib/core/remote_session.cpp:374-404 | each single step keeps that |
| AdminSafety.BootIsSafe | src/firmware_admin_runtime.h:263-326 | and every boot establishes it |
| AdminSafety.AclEditKeepsSafe | src/firmware_admin_runtime.h:112-126 | an ACL change never leaves a request admitted under a row that moved |
| AdminSafety.AcceptingIsProvisioned | src/firmware_admin_acl.h:427-429 | no implicit provisioning: acceptance implies a valid root and an ACL with an owner |
| AdminSafety.RunKeepsOwner | src/firmware_admin_acl.h:303-354 | once the stored ACL has an owner, it is valid and has one after every run |
| AdminSafety.ActorKeepsOwnSlot | src/firmware_admin_acl.h:318-343 | no actor, operator or owner, can remove or demote its own slot: after every run in which it asks for the slot edits, the slot holds its key with no lower a role |
| AdminSafety.NextAcl | src/firmware_admin_acl.h:389-417 | the stored ACL changes only to a composed candidate, or from an invalid record to the empty one |
| AdminOutcomes.MintRootSucceedsExactly | src/firmware_admin_identity.h:262-333 | a root verb succeeds if and only if the store answers, the stored root is the one it is for (none for generate, a usable one for rotate, an unusable one for recover), the seed is live, ten good draws come and the save is accepted; then that seed is stored, otherwise nothing changes |
| AdminOutcomes.MintRootRefusals | src/firmware_admin_identity.h:262-288 | which refusal each other stored root gets, both ways |
| AdminOutcomes.RootChangesAsAsked | src/firmware_admin_identity.h:262-288 | the stored root changes only by the verb that is for it |
| AdminOutcomes.UsableRootStays | src/firmware_admin_identity.h:262-288 | over every run a usable stored root stays what it is until a rotate |
| AdminOutcomes.AddSucceedsExactly | src/firmware_admin_acl.h:258-300 | an add succeeds exactly for a new live key with an assignable role, a usable root, an editable ACL with a free slot and an owner afterwards, a draw and an accepted save; the row takes the lowest free slot |
| AdminOutcomes.SetSucceedsExactly | src/firmware_admin_acl.h:303-332 | a role change succeeds exactly on an existing row, when no actor demotes itself and no only owner is demoted; a role already there changes nothing and needs neither draw nor save |
| AdminOutcomes.RemoveSucceedsExactly | src/firmware_admin_acl.h:335-354 | a removal succeeds exactly on an existing row that is not the actor's own and not the only owner's; it needs no draw and empties the row |
| AdminOutcomes.ResetSucceedsExactly | src/firmware_admin_acl.h:363-377 | a reset succeeds exactly on a record that is there and cannot be used |
| AdminOutcomes.AdmitExactly | lib/core/remote_session.cpp:1333-1470 | a request is admitted if and only if the node accepts, its slot is in service, no entry holds it already and one is free; it takes the first free one |
| AdminOutcomes.RunAdmitsOnce | lib/core/remote_session.cpp:1437-1470 | over every run no request is in the pool twice |
| AdminOutcomes.RolloverExactly | lib/core/remote_session.cpp:1026-1066 | a rollover goes through if and only if its slot is in service and the draw is good and new, and then moves that slot's epoch and ends its requests alone |
| AdminRecords.AddKeepsValid | src/firmware_admin_acl.h:115-136 | a new key in a free slot keeps the record valid; the first row must be an owner |
| AdminRecords.SetKeepsValid | src/firmware_admin_acl.h:303-332 | a role change keeps it valid unless it demotes the only owner |
| AdminRecords.RemoveKeepsValid | src/firmware_admin_acl.h:335-354 | so does a removal unless it removes the only owner |
| AdminRecords.UsableWhenNotEmpty | src/firmware_admin_acl.h:115-136 | a valid record with any row has an owner; one without rows is the empty record byte for byte |
| AdminLive.MintedEpochs | src/firmware_admin_runtime.h:117-125 | a successful mint gives a non-zero epoch to exactly the slots in need, each its own draw, in slot order |
| AdminLive.MintSucceeds | src/firmware_admin_runtime.h:117-125 | a mint succeeds exactly when there is a non-zero draw for every slot in need |
| AdminVerbs.LowestFree | src/firmware_admin_acl.h:275-285 | an added row goes to the lowest free slot |
| AdminRuntime.RemoteSession.DrawEpoch | lib/core/node.cpp:91-102 | one checked draw: an all-zero or missing one refuses and is not retried |
| AdminRuntime.RemoteSession.InvalidateSlot | lib/core/remote_session.cpp:305-321 | frees exactly the slot's admitted requests |
| AdminRuntime.RemoteSession.InvalidateEverything | lib/core/remote_session.cpp:323-333 | frees all of them |
| AdminRuntime.RemoteSession.RecomputeReadiness | lib/core/remote_session.cpp:339-350 | ready exactly with a root, an occupied row, and a non-zero epoch on every occupied row |
| AdminRuntime.RemoteSession.InstallEpochs | lib/core/remote_session.cpp:388-400 | replaces exactly the prepared epochs and ends the work of exactly those slots |
| AdminRuntime.RemoteSession.Install | lib/core/remote_session.cpp:374-404 | applying a plan in place is `AdminLive.Install` |
| AdminRuntime.RemoteSession.MarkEntropyFailed | lib/core/remote_session.cpp:357-372 | everything is wiped and the cause recorded |
| AdminRuntime.RemoteSession.Receive | lib/core/remote_session.cpp:1333-1470 | an execute request takes the lowest free entry, once per request id, only while the node accepts and its slot is usable |
| AdminRuntime.RemoteSession.NewSession | lib/core/remote_session.cpp:1026-1066 | a rollover installs one epoch different from the current one, or nothing |
| AdminRuntime.PrepareAclPlan | src/firmware_admin_runtime.h:112-126 | prepares the whole new image and an epoch for exactly the slots that moved, or refuses |
| AdminRuntime.MintMoved | src/firmware_admin_runtime.h:117-125 | the loop of it: one draw per moved and occupied slot, in order |
| AdminRuntime.ImageFromBlob | src/firmware_admin_runtime.h:85-94 | an unrecognised role never becomes a live row |
| AdminRuntime.PrepareResetPlan | src/firmware_admin_runtime.h:132-140 | ten empty rows, ten zero epochs, everything invalidated; no draw |
| AdminRuntime.PrepareRootPlan | src/firmware_admin_runtime.h:153-172 | the derived pair and ten draws, or a refusal; an all-zero seed refuses |
| AdminRuntime.LiveInstall.PrepareAcl | src/firmware_admin_runtime.h:197-202 | arms the object with exactly the prepared plan; a refusal leaves it scrubbed and unarmed |
| AdminRuntime.LiveInstall.PrepareAclReset | src/firmware_admin_runtime.h:203-207 | the same for a reset, which cannot refuse |
| AdminRuntime.LiveInstall.PrepareRoot | src/firmware_admin_runtime.h:191-196 | the same for a root change |
| AdminRuntime.LiveInstall.Commit | src/firmware_admin_runtime.h:210-213 | installs the armed plan and scrubs it; unarmed it installs nothing |
| AdminRuntime.LiveInstall.Discard | src/firmware_admin_runtime.h:214-218 | nothing of a plan survives |
| AdminServices.AclContentCheck | src/firmware_admin_acl.h:115-136 | the one-pass check decides well-formed rows, distinct keys, matching count and an owner when not empty, both ways |
| AdminServices.KeyKnown | src/firmware_admin_acl.h:130-131 | whether an earlier occupied row holds the key |
| AdminServices.AclCensus | src/firmware_admin_acl.h:159-167 | counts the rows of known roles and the owners |
| AdminServices.AclService.Classify | src/firmware_admin_acl.h:145-153 | the state of the record, and an empty record unless it is valid |
| AdminServices.AclService.DecideAdd | src/firmware_admin_acl.h:258-292 | the candidate or the refusal of an add, in the code's order of checks |
| AdminServices.AclService.DecideSet | src/firmware_admin_acl.h:303-331 | the same for a role change |
| AdminServices.AclService.DecideRemove | src/firmware_admin_acl.h:335-353 | the same for a removal |
| AdminServices.AclService.Add | src/firmware_admin_acl.h:258-300 | record, live state and result are those of `AdminVerbs.AclAdd`; at most one save, and only for a change |
| AdminServices.AclService.Set | src/firmware_admin_acl.h:303-332 | the same for `AclSet` |
| AdminServices.AclService.Remove | src/firmware_admin_acl.h:335-354 | the same for `AclRemove` |
| AdminServices.AclService.Recover | src/firmware_admin_acl.h:363-377 | only an invalid record is reset; it needs no entropy |
| AdminServices.AclService.Commit | src/firmware_admin_acl.h:389-417 | validate, compare, prepare, save, install: a refusal anywhere leaves record and live state |
| AdminServices.AdminIdService.State | src/firmware_admin_identity.h:135-143 | the state of the root record |
| AdminServices.AdminIdService.Perform | src/firmware_admin_identity.h:262-288 | record, live state and result are those of `AdminVerbs.MintRoot`, whose success and refusals `AdminOutcomes` states; at most one save |
| AdminServices.AdminIdService.Mint | src/firmware_admin_identity.h:313-333 | seed, plan, save, install in that order; any refusal leaves both stored record and live state |
| AdminServices.RuntimeBoot | src/firmware_admin_runtime.h:263-326 | one plan with both halves, or the entropy-failed state |
| AdminServices.MintMissing | src/firmware_admin_runtime.h:293-306 | the ACL half draws only for slots the root half left out |
| AdminServices.BootInstall | src/firmware_commands.cpp:382-409 | loading both records and installing is `AdminVerbs.Boot` |
| AdminTarget.Target.Perform | src/firmware_commands.cpp:337-409 | every step of the node, as the code runs it, is the step the run theorems reason about |
| ConsoleQueue.RunKeeps | src/console_sink.h:106-170 | over every run and host: sent plus queued bytes are exactly the recorded chunks in order, each recorded line ends with its only newline, the stage is never over capacity, no report waits in the queue, and newlines staged are the lines recorded plus the drops the recorded reports speak of plus the drops pending |
| ConsoleLines.AcceptedAsWritten | src/console_sink.h:136-151 | over every run and host: the recorded lines are, byte for byte and in order, the written lines whose every byte found room and whose end met a host or a waiting queue; all other written lines are exactly the drops; a line not yet ended is staged whole unless a byte of it was lost |
| ConsoleLines.WrittenIsSplit | src/console_sink.h:99-100 | the written lines are the plain split of the staged bytes at their newlines |
| ConsoleLines.WireIsWrittenLines | src/console_sink.h:106-170 | the wire is whole chunks whose lines are the first of those accepted written lines, then at most a proper prefix of the next one |
| ConsoleQueue.RunExtends | src/console_sink.h:142-163 | what was accepted stays accepted in its place and what was sent stays sent: no line is dropped once accepted |
| ConsoleQueue.WireShape | src/console_sink.h:106-163 | the wire is whole recorded chunks in order and then at most a proper prefix of a recorded line |
| ConsoleQueue.StagedKeeps | src/console_sink.h:136-151 | staging one byte keeps the invariant |
| ConsoleQueue.SentKeeps | src/console_sink.h:154-163 | so does a partial drain |
| ConsoleQueue.ToldKeeps | src/console_sink.h:109-118 | so does a drop report |
| ConsoleDrain.PassesDrain | src/console_sink.h:106-119 | with no new writes and a host that takes a byte per pass, the unsent bytes run out within as many passes as there are bytes and two, and a pass with room leaves no drop pending; then every staged line is on the wire, as a line or in a report that can be read, if and only if the host took every report whole |
| ConsoleReports.DropsAreToldExactly | src/console_sink.h:105-118 | over every run and host: the drops no longer pending are those the recorded reports speak of, and full reports speak of all of them if and only if every report was taken whole |
| ConsoleReports.FullReportsExactly | src/console_sink.h:109-118 | the same of any history of whole lines and reports |
| ConsoleReports.ReportIsWholeExactly | src/console_sink.h:114-117 | one report is on the wire in full if and only if the host takes all of it, and its drops are forgotten either way |
| ConsoleReports.ReportIsLost | src/console_sink.h:105-117 | a run: room is offered, nothing is taken, nothing is on the wire and no drop is pending |
| ConsoleReports.ReportTellsTheNumber | src/console_sink.h:110-111 | the text of a report ends with the number of drops in decimal |
| ConsoleDrain.ServiceShrinks | src/console_sink.h:106-119 | with a host that takes a byte, one pass takes at least a byte off the queue, leaves no stored byte of a line begun, and leaves an overflow marked exactly when it was marked with nothing stored |
| ConsoleDrain.ServiceKeeps | src/console_sink.h:106-119 | whatever the host does, a pass keeps the invariant of the queue |
| ConsoleDrain.ServiceIsRun | src/console_sink.h:106-119 | a pass is a run of the queue: two bytes or none, a drain, a report or none |
| ConsoleDrain.ServiceEndsLineExactly | src/console_sink.h:106-107 | after a pass no overflow is marked if and only if a byte of the open line was stored or none was lost |
| ConsoleDrain.NextLineIsItsOwnExactly | src/console_sink.h:106-107 | the next line that fits is accepted by itself if and only if the pass did not leave an overflow behind; otherwise it is dropped whole |
| ConsoleDrain.NextLine | src/console_sink.h:136-151 | a line with room for all of it is accepted as it stands, or dropped whole under a mark left before it |
| ConsoleDrain.OverflowOutlivesThePass | src/console_sink.h:107 | a run: a pass sends all that waits, and still the empty line written next is dropped |
| ConsoleWire.FragmentsNeverFuseExactly | src/console_sink.h:106-119 | a reader of the wire gets exactly the accepted lines and reports, each by itself, if and only if no report was taken in part |
| ConsoleWire.WholeChunksRead | src/console_sink.h:142-163 | uncut chunks read back one by one |
| ConsoleWire.CutChunksLose | src/console_sink.h:109-118 | a cut chunk costs the reader a record |
| ConsoleWire.CutReportFuses | src/console_sink.h:109-118 | a concrete run in which a cut report and the next line become one record |
| ConsoleSink.GuardedConsole.constructor | src/console_sink.h:99-100 | an empty sink is the empty queue |
| ConsoleSink.GuardedConsole.Write | src/console_sink.h:99-100 | a write stages every byte in order and is a run of the ideal queue |
| ConsoleSink.GuardedConsole.Stage | src/console_sink.h:136-141 | staging a byte, wherever the indices stand, is the ideal queue's step |
| ConsoleSink.GuardedConsole.Admit | src/console_sink.h:136-140 | a byte is admitted exactly when unsent bytes plus bytes of its line are below the capacity |
| ConsoleSink.GuardedConsole.Commit | src/console_sink.h:142-151 | a line is accepted whole or dropped whole, and an accepted one is pumped at once |
| ConsoleSink.GuardedConsole.Pump | src/console_sink.h:154-163 | with bytes waiting, a host there and room, the port is handed exactly as much of the front of the queue as it has room for, and what it takes is what leaves; a port that does not refuse gets rid of a byte |
| ConsoleSink.GuardedConsole.Compact | src/console_sink.h:165-170 | moving the bytes to the front changes nothing the queue can see |
| ConsoleSink.GuardedConsole.ServicePass | src/console_sink.h:106-119 | one pass of the main loop is the ideal queue's pass, and a run of it; against a port that does not refuse it takes a byte, and a report stays due only when the host was away or had too little room for it |
| ConsoleSink.GuardedConsole.TellDrops | src/console_sink.h:109-118 | a due report is handed over whole, and directly, if and only if the host is there with room for all of it |
| ConsoleSink.GuardedConsole.Flush | src/console_sink.h:123-131 | the bounded drain is a run of the ideal queue; against a port that does not refuse it sends all there is, or at least a byte in each of its 64 rounds |
| ConsoleSink.UseSink | src/console_sink.h:99-131 | any sequence of writes, service passes and flushes, with any host, is one run of the ideal queue from empty, so the invariant and the written-line link hold of the wire it leaves |
| ConsoleSink.IdlePasses | src/console_sink.h:106-119 | with nothing more written, enough service passes against a port that does not refuse put everything accepted on the wire and report every drop, unless a report found too little room |
| ConfigModel.SaveNeverLosesAnUpdate | src/firmware_config_service.h:402-417 | a save that writes replaces a record whose covered fields are the recorded baseline, changes only covered fields, writes once, applies live only after success and leaves the BLE mode to a reboot; any other outcome changes nothing |
| ConfigModel.LatchHolds | src/firmware_config_service.h:402-417 | a conflict once noted lasts, and nothing is written, until a reload, discard or reopen |
| ConfigModel.NotifiedConflictBlocksSave | src/firmware_config_service.h:466-469 | after a notified external change no save writes until it is resolved, even if the bytes are put back |
| ConfigModel.UncoveredFieldsAreNeverTouched | src/firmware_config_service.h:157-173 | over every interleaving the fields outside the draft are those of the last external writer |
| ConfigModel.BaselineIsLastSynced | src/firmware_config_service.h:329-456 | over every interleaving the baseline is the covered fields as the record held them at the last open, discard, reload or successful save |
| ConfigModel.SaveReplacesLastSynced | src/firmware_config_service.h:402-417 | so over every interleaving a save that writes replaces a record whose covered fields are those the editor last agreed with |
| ConfigModel.ReloadMerges | src/firmware_config_service.h:444-456 | edited fields keep the operator's value, the others take the persisted one, the conflict ends, and a second reload changes nothing |
| ConfigModel.SaveAfterReload | src/firmware_config_service.h:402-456 | after a reload and any run that leaves draft and covered fields alone, a valid save persists exactly the merge, with every other field as the last external writer left it; it answers `no_change` exactly when the merge was already there |
| ConfigModel.MergeLaws | src/firmware_config_service.h:444-456 | the merge is neutral on either unedited side and symmetric when no field was changed on both |
| ConfigDrafts.SetThenSave | src/firmware_config_service.h:370-417 | setting one named field of an editor that agrees with the record, and saving, changes that field of the record to that value and nothing else of it |
| ConfigDrafts.BadSetIsRefused | src/firmware_config_service.h:184-192 | a value outside the field's domain, or a closed editor, changes nothing |
| ConfigDrafts.SaveAdoptsNamedFields | src/firmware_config_service.h:412-416 | after a save the node runs with the record's named fields, the BLE mode excepted; a reboot is asked for exactly when that one differs |
| ConfigDrafts.DraftLaw | src/firmware_config_service.h:329-456 | over every interleaving the draft is what the last open or discard read, changed step by step by the accepted sets, stagings and reloads since |
| ConfigDrafts.LastSetWins | src/firmware_config_service.h:370-375 | through everything but stagings, discards and reloads each named field of the draft is what it was last set to |
| ConfigServices.ConfigService.OpenDraft | src/firmware_config_service.h:329-338 | opening takes draft and baseline from the record, once |
| ConfigServices.ConfigService.SetField | src/firmware_config_service.h:370-375 | one field of an open draft changes, if the value is valid |
| ConfigServices.ConfigService.StageAllFields | src/firmware_config_service.h:379 | the whole draft is staged only while open |
| ConfigServices.ConfigService.CheckValues | src/firmware_config_service.h:184-201 | valid exactly when every field is; otherwise the first bad field is named |
| ConfigServices.ConfigService.NeedsReboot | src/firmware_config_service.h:358-367 | a reboot is needed exactly when a persisted field that is only applied at boot differs from the effective value |
| ConfigServices.ConfigService.SaveDraft | src/firmware_config_service.h:402-417 | the save as coded is the step of the model, result included |
| ConfigServices.ConfigService.DiscardDraft | src/firmware_config_service.h:420-428 | draft and baseline return to the record, or nothing happens when it cannot be read |
| ConfigServices.ConfigService.ReloadDraft | src/firmware_config_service.h:444-456 | the field loop is the three-way merge |
| ConfigServices.ConfigService.NoteExternalWrite | src/firmware_config_service.h:466-469 | latches a conflict exactly when an open draft's baseline no longer matches |
| PeerBook.PinnedIsForever | src/device_nv.h:1242-1263 | a record once pinned stays in the book, pinned, through every sequence of offers, and its key is always the one it was last pinned with |
| PeerBook.PinnedKeyStays | src/device_nv.h:1248 | so it keeps its key through every sequence that does not pin its hash again |
| PeerBook.PutKeepsPin | src/device_nv.h:1242-1263 | one offer keeps every pin, and a re-pin replaces its key |
| PeerBook.PutKeepsGood | src/device_nv.h:1242-1263 | hashes stay distinct and only storable confidences are kept |
| PeerBook.SurvivorsOnlyUpgrade | src/device_nv.h:1221-1263 | the key of a surviving record changes only by a pin of its hash, its confidence never drops, and it moves at most one place to the front |
| PeerBook.VerdictExactly | src/device_nv.h:1242-1263 | `refused_full` exactly for a new hash in a book of sixteen pinned records; inserted, updated and unchanged likewise exactly; the book is byte-identical exactly for unchanged and refused |
| PeerBook.ArrayOrderIsInsertionOrder | src/device_nv.h:1255-1262 | over every sequence of offers, of two records the one further back in the array has the hash that came in later, by insertion or eviction |
| PeerBook.EvictsTheOldest | src/device_nv.h:1256-1262 | so an eviction takes the record that came in first among the unpinned; its hash is gone and every other record is still there |
| PeerBook.RepeatedOfferIsUnchanged | src/device_nv.h:1246-1253 | the same offer twice writes at most once |
| PeerBook.UnchangedIsIdenticalExactly | src/device_nv.h:1245-1250 | `unchanged` means a byte-identical book if and only if the stored count had not rotted past the array |
| PeerBook.RottedCountIsClamped | src/device_nv.h:1245-1248 | a book with count 17: the offer is answered `unchanged` and the book differs |
| PeerContents.NewRecordHoldsOffer | src/device_nv.h:1221-1263 | a new record is the last one and holds the offer's hash, key, confidence and the first 32 bytes of its name |
| PeerContents.UpdatedRecordHolds | src/device_nv.h:1221-1253 | an update touches one record: a carried name replaces the old one, a pin brings its key, and nothing else moves key or confidence |
| PeerContents.UnchangedExactly | src/device_nv.h:1246-1253 | a known hash is answered `unchanged` exactly when the offer would not pin a pinned record, or brings nothing new |
| PeerContents.RefusedConfExactly | src/device_nv.h:1244 | exactly the confidences that may not be stored are refused, and the book stays |
| PeerContents.KeysAreTheOffered | src/device_nv.h:1242-1263 | over every sequence of offers each record's key is that of the offer that brought its hash in, or of its last pin since |
| PeerContents.FromEmptyBook | src/device_nv.h:1213-1263 | in particular from the empty book |
| PeerBook.PeerBlob.PutRecord | src/device_nv.h:1242-1263 | the put in place is the put on values, whose records `PeerContents` describes |
| PeerBook.PeerBlob.Evict | src/device_nv.h:1256-1262 | the shifting loop removes exactly the victim and appends |
| TargetBookService.EditKeepsValid | src/firmware_admin_targets.h:290-361 | every book composed from a valid one is valid, and it is the row asked for: a new one in the lowest free slot, the named one with its administration key kept, or the named one emptied |
| TargetBookService.CommitCheckNeverFails | src/firmware_admin_targets.h:427-433 | the candidate check never refuses: `store_invalid` is answered exactly when the stored book was corrupt |
| TargetBookService.FailureRestoresTheBuffer | src/firmware_admin_targets.h:427-449 | after any refusal the caller's buffer is the book that was loaded (empty if none) and the record is unchanged; after a success buffer and record agree and are valid |
| TargetBookService.KeysAreImmutable | src/firmware_admin_targets.h:321-344 | over every run that does not remove a slot, its administration key never changes |
| TargetBookService.OneCallKeepsKey | src/firmware_admin_targets.h:321-344 | one call keeps it, whatever fails |
| TargetBookService.AddSucceedsExactly | src/firmware_admin_targets.h:290-316 | an add succeeds exactly for a valid target with a new key and label, a free slot and a store that takes it; the lowest free slot then holds every field given |
| TargetBookService.SetSucceedsExactly | src/firmware_admin_targets.h:321-344 | a set succeeds exactly in an unbound, occupied slot, for a valid target whose label no other row has and that changes something; the row then holds every field given, under its old key |
| TargetBookService.RemoveSucceedsExactly | src/firmware_admin_targets.h:348-361 | a removal succeeds exactly on an unbound, occupied slot, and empties it |
| TargetBookService.ResetSucceedsExactly | src/firmware_admin_targets.h:365-375 | a reset succeeds exactly on a book that is there and cannot be used |
| TargetBookService.ContentCheck | src/firmware_admin_targets.h:100-127 | the nested loop decides validity of the whole book, both ways |
| TargetBookService.TargetService.Load | src/firmware_admin_targets.h:271-275 | the caller's buffer holds the stored book, or an empty one |
| TargetBookService.TargetService.AddTarget | src/firmware_admin_targets.h:290-316 | buffer, record and result of an add |
| TargetBookService.TargetService.SetTarget | src/firmware_admin_targets.h:321-344 | the same for a set |
| TargetBookService.TargetService.RemoveTarget | src/firmware_admin_targets.h:348-361 | the same for a removal |
| TargetBookService.TargetService.Recover | src/firmware_admin_targets.h:365-375 | only an invalid book is reset |
| TargetBookService.TargetService.FindClash | src/firmware_admin_targets.h:296-302 | whether an occupied row already has the label or the key |
| TargetBookService.TargetService.LowestSlot | src/firmware_admin_targets.h:303-305 | the lowest free slot |
| TargetBookService.TargetService.CommitRow | src/firmware_admin_targets.h:427-449 | check, compare, save; otherwise put the edited row and count back |
| TargetBookService.TargetService.Restore | src/firmware_admin_targets.h:429-443 | one row and the count restore the whole book |
| TargetRecords.PutKeepsValid | src/firmware_admin_targets.h:100-127 | a valid row that clashes with no other keeps the book valid in any slot |
| TargetRecords.PickFromMask | src/firmware_admin_targets.h:163-171 | none, one or many, exactly as the mask has bits |
| TargetRecords.MaskByLabel | src/firmware_admin_targets.h:173-182 | the mask of exactly the occupied rows with that label |
| TargetRecords.MaskByFingerprint | src/firmware_admin_targets.h:186-196 | the mask of exactly the occupied rows whose fingerprint prints that way |
| TargetRecords.LabelIsUnique | src/firmware_admin_targets.h:100-127 | in a valid book no two rows share a label |
| TargetRecords.ResolveLabel | src/firmware_admin_client_verbs.h:455-475 | a label selector never resolves as ambiguous, and finds a row exactly when there is one |
| TargetRecords.ResolveFingerprint | src/firmware_admin_client_verbs.h:455-475 | a fingerprint selector is ambiguous exactly when two rows print alike; there is no first match |
| Keyring.RunKeepsDistinct | src/firmware_admin_keyring.h:292-399 | over every run the stored identities are pairwise distinct, none is the node's own, and the stored count is the population |
| Keyring.FromNoRecord | src/firmware_admin_keyring.h:359-399 | in particular from a node without a record |
| Keyring.NextKeepsDistinct | src/firmware_admin_keyring.h:292-399 | one call changes at most the named slot, a refusal changes nothing, and the reported public key is the stored seed's |
| Keyring.MintKeepsDistinct | src/firmware_admin_keyring.h:359-399 | generate and import store exactly the new seed in exactly the named slot |
| Keyring.CandidateValid | src/firmware_admin_keyring.h:86-98 | every ring composed from a valid one is valid, because different identities need different seeds |
| Keyring.FinalCheckNeverFails | src/firmware_admin_keyring.h:301-303 | the check of the composed ring never refuses: `store_invalid` is answered exactly when the stored record was already corrupt |
| Keyring.SlotsNeverShift | src/firmware_admin_keyring.h:292-309 | a seed keeps its slot over every run that does not remove that slot |
| Keyring.MintSucceedsExactly | src/firmware_admin_keyring.h:359-399 | generate and import succeed exactly for a free slot and a live seed whose identity is neither the node's nor another slot's; then that very seed is in that slot |
| Keyring.RemoveSucceedsExactly | src/firmware_admin_keyring.h:292-309 | a removal succeeds exactly on an unbound, occupied slot, and empties it |
| Keyring.ResetSucceedsExactly | src/firmware_admin_keyring.h:315-329 | a reset succeeds exactly on a ring that is there and cannot be used |
| Keyring.ContentCheck | src/firmware_admin_keyring.h:86-98 | the loop decides validity, both ways |
| Keyring.KeyService.Classify | src/firmware_admin_keyring.h:107-115 | the state of the ring |
| Keyring.KeyService.IsKnown | src/firmware_admin_keyring.h:379-387 | whether the identity is the node's own or another slot's |
| Keyring.KeyService.MintKey | src/firmware_admin_keyring.h:359-399 | generate and import as coded |
| Keyring.KeyService.RemoveKey | src/firmware_admin_keyring.h:292-309 | removal as coded |
| Keyring.KeyService.RecoverRing | src/firmware_admin_keyring.h:315-329 | only an invalid ring is reset |
| Keyring.KeyService.ListKeys | src/firmware_admin_keyring.h:251-265 | the listing names exactly the occupied slots, with their public keys |
| CommandPolicy.LookupIsFirstLongest | src/firmware_command_authority.h:248-268 | the row found is the first one that no row matches longer, by verb and then by sub-verb; none exactly when no row matches |
| CommandPolicy.NoFallbackToBareFamily | src/firmware_command_authority.h:205-207 | a line that matches a row's sub-verb never falls back to the bare row of that family |
| CommandPolicy.WhiteSpaceDoesNotMatter | src/firmware_command_authority.h:208-268 | lines that differ only in the runs of blanks between tokens find the same row, for every table |
| CommandPolicy.LookupCarried | src/firmware_command_authority.h:248-268 | the same for any position map between two lines with equal tokens |
| CommandPolicy.MatchEndCarried | src/firmware_command_authority.h:208-221 | a spelling matches up to corresponding positions of both lines |
| CommandMeaning.SpellingMatchesExactly | src/firmware_command_authority.h:208-221 | a spelling matches a line if and only if it is not empty, the line with its runs of blanks made single spaces begins with it, and a blank or the end follows |
| CommandMeaning.MatchIsPrefix | src/firmware_command_authority.h:208-221 | on such a line a spelling matches from any position exactly where its letters stand |
| CommandMeaning.CellLenIs | src/firmware_command_authority.h:223-246 | a cell's match is the longest of its spellings the line says there |
| CommandMeaning.PlainCellLists | src/firmware_command_authority.h:223-236 | a cell printed from a list with bars or commas lists that list |
| CommandMeaning.AliasCellLists | src/firmware_command_authority.h:238-246 | with an alias bracket it lists the primary spellings and then the aliases |
| CommandMeaning.RowAppliesExactly | src/firmware_command_authority.h:253-260 | a row applies if and only if the line begins with one of its verbs as a word and, when it has sub-verbs, goes on with one of those; its score is the two longest such lengths |
| CommandMeaning.LookupOnNorm | src/firmware_command_authority.h:248-268 | every lookup is the lookup of the line with its runs of blanks made single spaces |
| CommandMatcher.SpellingMatch | src/firmware_command_authority.h:208-221 | the length one spelling matches, which `CommandMeaning` states by the letters |
| CommandMatcher.AlternativesMatch | src/firmware_command_authority.h:223-236 | the longest match among the trimmed alternatives of a cell |
| CommandMatcher.CellMatch | src/firmware_command_authority.h:238-246 | the longest match among a cell's spellings and its aliases |
| CommandMatcher.LookupRow | src/firmware_command_authority.h:248-268 | the loop over the table is the lookup above |
| CommandMatcher.RemoteVerdictSound | src/firmware_command_authority.h:270-284 | no remote authority passes an unlisted or local-only line, more authority never admits less, and operator and owner verdicts do not depend on spacing |
| CommandMatcher.AdmitsByStanding | src/firmware_command_authority.h:270-284 | who may run a command is a matter of standing: operators up to operator commands, owners up to owner commands, nobody remote beyond; the open authority is also held to the exact words |
| KeyValues.RenderRoundTripsExactly | src/firmware_config_parse.h:61-71 | tokens printed and read again are the same tokens if and only if no value has a space in it |
| KeyValues.QuoteFreeIsUnspaced | src/firmware_config_parse.h:61-71 | no token of a text without quotes has a space in its value |
| KeyValues.TokensOk | src/firmware_config_parse.h:61-71 | what every token looks like |
| KeyValues.QuotedFirst | src/firmware_config_parse.h:69 | a quoted value ends at its closing quote, and what follows is read from there on |
| KeyValues.UnclosedFirst | src/firmware_config_parse.h:69 | one that is never closed runs to the end |
| TeamKeyTail.NextToken | src/firmware_config_parse.h:61-71 | the tokenizer that overwrites delimiters in place yields the first token and the text after it, and writes nothing outside the text |
| TeamKeyTail.Split | src/firmware_config_parse.h:280-313 | verdict, both keys and the remainder are those of the token fold; every write stays inside the four buffers if and only if the scratch buffer has a byte or the tail is not empty |
| TeamKeyTail.TakeExactly | src/firmware_config_parse.h:295-312 | the split succeeds exactly when every team key is 64 digits and the remainder fits, and then passes on all other tokens in order |
| TeamKeyTail.LastOneWins | src/firmware_config_parse.h:296-302 | the keys it ends with are the last ones given |
| TeamKeyTail.VerdictExactly | src/firmware_config_parse.h:310-312 | a split that succeeds answers which of the two keys were given: both, exactly one, or neither |
| TeamKeyTail.RefusalIsTheFirst | src/firmware_config_parse.h:298-304 | one that is refused is refused by the first bad team key, which it names, or the first token that no longer fits |
| TeamKeyTail.RestReadsBackExactly | src/firmware_config_parse.h:280-313 | the remainder tokenizes to the tail without its team keys if and only if no token passed on has a space in its value |
| TeamKeyTail.QuoteFreeReadsBack | src/firmware_config_parse.h:280-313 | so it does for every tail without a quote |
| TeamKeyTail.TwoWordsAreCut | src/firmware_config_parse.h:303-308 | a quoted value of two words loses its second word, which becomes a token of its own |
| Codecs.HexReadsBack | src/firmware_config_parse.h:229-260 | reading a printed 32-byte key gives the key |
| Codecs.HexPrintsLower | src/firmware_admin_identity.h:94-101 | re-printing a parsed key gives its lowercase |
| Codecs.HexDigitsInOrder | src/firmware_admin_identity.h:95 | the digits are the decimal ones and then `a` to `f` |
| Codecs.PrintHex | src/firmware_admin_identity.h:94-101 | the printing loop, its terminator, and nothing written after it |
| Codecs.ReadHex32 | src/firmware_config_parse.h:229-260 | exactly 64 digits are accepted, and the output is written only then |
| Codecs.LayersRoundTrip | src/firmware_admin_client_verbs.h:219-241 | every path the book can hold reads back from the text its row shows |
| Codecs.LayersSound | src/firmware_admin_client_verbs.h:308-318 | whatever is accepted is such a path, and its printed form means the same |
| Codecs.LayersAcceptedExactly | src/firmware_admin_client_verbs.h:219-241 | exactly `none` and the comma lists of one to three decimal texts worth 1 to 255 are accepted, with those values |
| Codecs.ReadLayers | src/firmware_admin_client_verbs.h:219-241 | the parsing loop, refusals included |
| Codecs.ReadIndex | src/firmware_config_parse.h:134-145 | exactly the non-empty digit strings of any length worth at most 2^31-1, with their value |
| Codecs.IndexRoundTrip | src/firmware_config_parse.h:134-145 | a printed index reads back, up to that bound |
| Codecs.WriteSegmentPath | src/device_inbox_seam.h:48-57 | always terminated, never past the buffer, and the whole path when it fits |
| Codecs.CollectDigits | src/device_inbox_seam.h:53-54 | the digits of the index, lowest first, at most five |
| Codecs.SegmentsNeverShareAPathExactly | src/device_inbox_seam.h:44-57 | for every directory and buffer, no two segments share a path if and only if the buffer has seven bytes beyond the directory name |
| Codecs.WholePathsDiffer | src/device_inbox_seam.h:48-57 | then every path is whole, and different segments have different ones |
| Codecs.TwoShare | src/device_inbox_seam.h:44-47 | in any shorter buffer a number and ten times it, or 0 and 1, share a path |
| Codecs.ClippedPathsCollide | src/device_inbox_seam.h:44-47 | with less they need not |
| Digits.DecimalRoundTrip | src/device_inbox_seam.h:53-55 | printed digits stand for the number |
| Digits.DecimalInjective | src/device_inbox_seam.h:53-55 | different numbers never print alike |
| LineIO.IntakeIsLineSplitting | src/device_ble.h:214-307 | what is dispatched is exactly the stream's lines without carriage returns: each non-empty one that fits, one `line_too_long` for each that does not, in order |
| LineIO.SplitsDoNotMatter | src/device_ble.h:298-307 | however the stream is cut into pieces, feeding them one after the other is feeding their concatenation |
| LineIO.LineIntake.ServiceRx | src/device_ble.h:298-307 | the loop over the received bytes is that intake |
| LineIO.LineIntake.DispatchCurrentLine | src/device_ble.h:214-226 | what one newline does |
| LineIO.TxLine | src/device_ble.h:309-323 | the chunks put together are the line, each fits one notification, and only the last is short |
| LineIO.SinkReproducesTheStream | src/dispatch_sink.h:45-49 | for every stream, shipments plus residue are the stream, each shipment is a line or a full buffer, and a newline only ends one |
| LineIO.LineSink.Write | src/dispatch_sink.h:45-49 | one byte into the sink, never past its buffer |
| LineIO.LineSink.WriteAll | src/dispatch_sink.h:50 | a buffer of bytes goes in one by one, in order |
| LineIO.LineSink.Flush | src/dispatch_sink.h:57 | a trailing line without its newline is shipped, once |

## Left out

- Flash, file systems and power cuts: a save either takes effect or leaves the record; the remove-then-write of the adapters, which can lose a record, is device behaviour.
- Record headers: magic and version are part of "corrupt"; only the content checks are modelled byte for byte.
- Services built without a live seam (`nullptr`), used for read-only reports: they skip prepare and commit.
- Key derivation, BLAKE2b fingerprints, secret wiping and entropy quality: arbitrary functions and draws.
- The wire codec, key checks, transcripts, ingress and staging pools and deferred actions of the remote session: only the pool of admitted requests is modelled, because that is what an install may have to end.
- AdminRuntime.RemoteSession.Receive: does not model authentication, the tag comparison of a retry or the ingress pool, because their outcome does not touch readiness, epochs or which entries an install frees.
- AdminRuntime.RemoteSession.NewSession: models the installed rollover, not the encoding of its reply or the busy checks before it.
- The wrap of the console's 32-bit drop counter: `dropped` is a natural number.
- `printf` into the console and capture sinks: a bounded formatting step in front of the same `write`.
- Names of enum values, boot lines, listing rows other than the layer text, and the help text: printing only.
- The contents of the command policy table: the theorems hold for every table whose spellings contain no tab.
- CommandMatcher.RemoteVerdictSound: does not say that the `remote_open` verdict ignores spacing, because that authority compares the whole line with the row's verb.
- `parse_sf_list`, the radio-tail parsers and `team grantkey`: single-pass validators with the same tokenizer.
- The segmented inbox store behind `seg_path`: not part of this model.
- `peer_rec_put` on a book whose stored hashes already repeat: the run theorems start from a book without repetitions, as every book built by puts is.
