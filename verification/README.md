# Verified models of Kandelo's clipboard, extractor, catalog compiler and walkers

This project models six programs of the Kandelo repository in Dafny and proves what
they promise, over every input, every run or every reachable state.

| program | modules |
|---|---|
| the clipboard agent `kclipd`, with the compositor and the kernel device it talks to | SelectionProtocol, SelectionSafety, SelectionTheorems, ClipboardDevice, ClipboardSystem, PasteTable, PasteAgent, PasteSystem, CopyOut, ForeignCopies |
| `bun-extract` | Unicode, ReplaceAll, Remapping, SafePath, Json, Manifest |
| `gencat` | CatalogSource, CatalogText, CatalogImage, CatalogReader |
| the benchmark runner's directory fingerprint | NameOrder, Transcript, DirectoryTree, DirectoryWalk, WalkPaths, Fingerprint |
| the persistence snapshot | Snapshot, SnapshotTheorems, SnapshotTree, SnapshotDigests, SnapshotOrder |
| `klauncher` | AppOrder, Launcher, LauncherRuns, LauncherKeys |

Basics and Decimal hold shared definitions. `dafny verify dfyconfig.toml` checks the
whole project.

Code that changes things in place is written in that form: classes with mutable
fields, arrays filled through moving cursors, loops with invariants. Each such method
is proved against a function, and the theorems are about those functions. `read`,
`write`, `malloc`, `realloc`, `poll`, listings and file contents are parameters, so a theorem
holds whatever they answer. Every lemma is marked `{:induction false}`: its proof is
its body.

## Main results

- **Clipboard ownership.** Agent and compositor run over two FIFO channels with
  arbitrary interleaving, other clients setting, clearing and destroying selections at
  any time. `ReachableInv` holds in every reachable state. From it: the agent never
  reads its own text back (`EchoSafety`), a clear flag means nothing of its own is in
  flight (`ClearFlagMeansNothingInFlight`), a quiet system agrees on the owner and has
  last tried to read the current foreign text (`QuiescentAgreement`), and no event
  reaches a freed source (`NoUseAfterFree`).
- **Copies from other clients.** Over every run each copy-out pipe is exactly one of
  reported, being read, and lost, with the cause (`EveryPipeAccounted`). With the reader
  joined to the protocol, `ReportedExactly` says for every continuation of every run when
  the text of an announced foreign selection is reported, and when an empty text is.
- **Device framing.** Each `HandleOffer` consumes nothing or one whole record, in every
  memory failure, while the host keeps offering, and the answers it gets alone decide
  what becomes of the record. Status 0 means the compositor installed
  that offer's text (`StatusZeroMeansInstalled`).
- **Paste table.** Reference counts are exact over every run, each polled writer is
  pumped once by its own readiness although dispatch has added writers since the poll,
  every client receives a prefix of the text it asked for, and the whole of it once its
  writer is gone, unless the paste was dropped or a write failed (`RunsKeepCountsExact`,
  `TurnSurvivors`, `FinishedPastesWhole`). Table and protocol in lock-step never look up
  a freed source (`CallbacksNeverFail`).
- **Catalog compiler.** Parsing, sorting, emitting and looking a pair up in the emitted
  bytes finds a message exactly when the source defines the pair and the search reaches
  its set (`CompileAndLookup`), which it does for every set if and only if all set ids
  have one sign (`AllReachedIff`). What a source says is laid down line by line
  (`MessageLine`, `DirectiveLine`, `SetInForce`), and entries written out in the format
  mean those entries (`PrintedMeans`).
- **Extractor.** For every text and cache root `RemapLeaves` says whether remapping leaves
  a specifier behind. The manifest reads back as the table's facts, and for every table
  and every answer of `realloc` it is said where the module loop ends (`BuildManifest`).
- **Fingerprint.** The tree a walk sees has a path, with these bytes at its end, exactly
  when the directory graph has it (`TreeExact`), and there is none exactly when something
  on a shown path cannot be read (`FailsExactly`). Two walks of any two filesystems hash
  the same bytes exactly when both show the same paths with the same contents, whatever
  the order of the listings (`EqualHashesEqualPaths`, `OrderIrrelevant`), and the walk
  ends on every directory graph.
- **Snapshot.** It lists exactly the tree, sorted and without duplicates, independently
  of listing order; it exists exactly when the tree can be listed, is well named and has
  at most 10000 paths (`SnapshotExact`, `ListingOrderIrrelevant`, `SucceedsExactly`).
  Entries are visited breadth first and digested greedily, exactly while the two budgets
  last (`BreadthFirst`, `GreedyExact`). A later snapshot is equal if and only if the tree
  and the digested bytes are, and every directory can still be listed; when the files fit
  32 MiB that means every byte (`EqualSnapshotsIff`, `EqualSnapshotsEqualContents`).
- **Launcher.** After every run the match list is exact, the selection indexes it and its
  row is in the window; Return runs the entry highlighted on the screen, and a run acts
  at most once (`RunGood`, `RunsHighlighted`, `OneAction`).

## Where code and documentation differ

- docs/architecture.md (line 4827) says that kclipd reports every selection it did not set.
  `ReportedExactly` says when it does. An announcement opens a read if and only if the pipe
  can be made and nothing of the agent's own is in flight behind it (`SkippedExactly`; a
  run in which it is dropped: `ForeignCopyCanBeMissed`); a newer announcement is otherwise
  queued or requested (`SkippedOnlyIfSuperseded`). An opened read then reports the text
  unless one of these happens. A newer selection replaces the read, even when the text is
  already on its way (a run without any failure: `ReplacedCopyLost`). A read or an
  allocation fails, or the text is over the cap. The `receive` is served when the selection
  is another one (`ServedUnreadExactly`): the compositor closes the pipe unread, and an
  empty text is reported (`StaleCopyReportedEmpty`). Or the client closes the pipe before
  it has written everything, and then the part it wrote is reported: "never a truncated
  copy" (line 4834) is kept for texts over the cap only (`TruncatedCopyReported`). The
  device stores every reported text that is UTF-8 (`GuestRecordAccepted`).
- programs/bun-extract.c (line 447) checks that no "/$bunfs/root/" is left after remapping.
  `RemapLeaves` says when one is left, for every text and cache root. Under an absolute
  root without a dollar sign and outside /root/ that is exactly when two specifiers in the
  text share a slash (`UsualRoot`, `RemapCanLeaveSpecifier`). A root that starts with the
  end of a specifier, such as /root/ or the relative root/, can also complete one
  (`RootCanCompleteSpecifier`), and under a relative root an odd chain of shared slashes
  leaves none (`OddChainGone`).
- programs/bun-extract.c (lines 352-357) grows the loaders buffer to twice the need in
  32-bit `size_t`. A write stays in the buffer if and only if there is room already or
  twice the need fits (`Manifest.Buffer.Append`). Loaders that print in at most 2^31-2
  bytes are always safe, and in 2^32-1 bytes or more never (`SmallTableFits`, `LargeTableOverruns`);
  `RepeatedOverruns` gives tables. In between, `Stop` says it row by row.
- programs/bun-extract.c (line 109) computes the remapping buffer's size in the same
  type. It holds the result if and only if the true size fits (`CapacityExact`,
  `ReplaceAll`); `CapacityCanWrap` gives texts for which it does not.
- examples/gencat.c takes a negative id in a `$set` line and stores it unsigned, after
  sorting it signed. With ids of both signs the table is not ascending and some set is
  never reached (`MixedLost`, `NegativeSetLost`).
- programs/bun-extract.c says a name without ".." segments stays in the output directory.
  This holds if and only if the directory is not the empty string
  (`DestinationConfined`).
- programs/klauncher.c says that its sort makes the list independent of readdir. This
  holds if and only if there are at most 32 entries and no two different ones share a
  name, or all entries are equal (`OrderIndependentIff`, `ReaddirOrderCanShow`).

## Model

| member | source | states |
|---|---|---|
| `SelectionSafety.BootInv` | programs/kclipd.c:408-410 | An agent that connects to any desktop starts in a state satisfying the invariant. |
| `SelectionSafety.AfterKeepsFlag` | programs/kclipd.c:135-142 | The newest source is the last to be cancelled, so the owner flag is set exactly while some own source is live and then names the newest. |
| `SelectionSafety.EchoFindsFlag` | programs/kclipd.c:81-85 | The announcement of an own source always finds the owner flag set. |
| `SelectionSafety.OfferTextKeepsInv` | programs/kclipd.c:364-373 | Creating a source and requesting the selection keeps the invariant, whatever is still queued in either direction. |
| `SelectionSafety.DeliverKeepsInv` | programs/kclipd.c:182-212 | Dispatching any queued cancellation, announcement or reply keeps the invariant, whether or not the copy-out pipe could be made. |
| `SelectionSafety.ReplaceReplay` | programs/wlcompositor/wlcompositor.c:3441-3458 | Cancelling the replaced source and then announcing the new one leaves the agent, once it has dispatched everything, without the replaced source and with the new selection seen. |
| `SelectionSafety.ForeignInstallKeepsInv` | programs/wlcompositor/wlcompositor.c:3441-3458 | Another client setting or clearing the selection at any moment keeps the invariant. |
| `SelectionSafety.ForeignDestroyKeepsInv` | programs/wlcompositor/wlcompositor.c:3487-3499 | Another client destroying its source, current or not, keeps the invariant. |
| `SelectionSafety.PasteKeepsInv` | programs/wlcompositor/wlcompositor.c:3465-3485 | A paste by any client is forwarded only to a live source and keeps the invariant. |
| `SelectionSafety.ServeSetSelectionKeepsInv` | programs/wlcompositor/wlcompositor.c:3663-3676 | Serving the agent's set_selection keeps the invariant. |
| `SelectionSafety.ServeGetDeviceKeepsInv` | programs/wlcompositor/wlcompositor.c:3716-3730 | Binding the device, which announces the current selection at once, keeps the invariant. |
| `SelectionSafety.StepKeepsInv` | programs/kclipd.c:135-212 | Every action of agent, compositor and other clients keeps the invariant. |
| `SelectionSafety.RunKeepsInv` | programs/kclipd.c:135-212 | Every run keeps it. |
| `SelectionSafety.ReachableInv` | programs/kclipd.c:135-212 | It holds in every reachable state. |
| `SelectionTheorems.NoUseAfterFree` | programs/kclipd.c:135-142 | Every queued event that names an own source names a live one, and no cancellation of it is queued before the event: no callback touches a freed source. |
| `SelectionTheorems.EchoSafety` | programs/kclipd.c:182-191 | In no reachable state was a copy-out read opened, or even requested, on the agent's own text. |
| `SelectionTheorems.ClearFlagMeansNothingInFlight` | programs/kclipd.c:81-85 | While the owner flag is clear there is no own set_selection and no own event in flight, the current selection is not the agent's, and no own source is live. |
| `SelectionTheorems.QuiescentAgreement` | programs/kclipd.c:81-85 | With both channels empty the flag is set exactly when the compositor's selection is the agent's latest source, and a foreign text selection is the one the last copy-out read was opened for, unless the pipe for it could not be made. |
| `SelectionTheorems.DoneMeansInstalled` | programs/kclipd.c:371-380 | When the reply to handle_offer's roundtrip is dispatched the compositor has processed its set_selection. |
| `SelectionTheorems.NoProtocolError` | programs/wlcompositor/wlcompositor.c:3663-3672 | The agent never sets a used source, and destroying a cancelled source never clears the selection. |
| `SelectionTheorems.SkippedExactly` | programs/kclipd.c:182-191 | A foreign announcement is dropped by the owner flag if and only if an own set_selection is queued or an own source is named by a later event. |
| `SelectionTheorems.SkippedOnlyIfSuperseded` | docs/architecture.md:4827-4834 | A foreign announcement dispatched while the flag is set is followed by a newer announcement, queued or requested. |
| `SelectionTheorems.ForeignCopyCanBeMissed` | docs/architecture.md:4827-4834 | A concrete run in which a foreign text selection is announced and never read. |
| `SelectionTheorems.BestMime` | programs/kclipd.c:193-195 | An offer is readable if and only if it has one of the three text types, and the type chosen is the best it has. |
| `SelectionTheorems.AsksForBest` | programs/kclipd.c:192-208 | A foreign announcement that is not skipped asks its own source once, for the best type it offers, and not at all if it offers none. |
| `SelectionTheorems.ChangeAnnounced` | programs/wlcompositor/wlcompositor.c:3441-3458 | Whatever action changes the selection, the last event queued for the agent announces the new one. |
| `SelectionTheorems.ClientsDecide` | programs/wlcompositor/wlcompositor.c:3441-3499 | Another client's set, clear and destroy make its source, nothing, or nothing in its place the selection. |
| `SelectionTheorems.OwnInstalled` | programs/wlcompositor/wlcompositor.c:3663-3676 | In every reachable state serving the agent's set_selection makes its source, with all text types, the selection. |
| `SelectionTheorems.PasteForwarded` | programs/wlcompositor/wlcompositor.c:3465-3485 | A paste is sent on to the agent exactly when it is from the agent's current source. |
| `ClipboardDevice.Le32RoundTrip` | crates/runtime-core/src/clipboard.rs:214-216 | A 32-bit word written in little-endian bytes reads back as itself. |
| `ClipboardDevice.HeaderWords` | crates/runtime-core/src/clipboard.rs:214-217 | The four words of a record header are found at its start whatever follows. |
| `ClipboardDevice.KnownHeader` | crates/runtime-core/src/clipboard.rs:214-217 | The bytes of one header in full, lowest byte first. |
| `ClipboardDevice.Device.OfferText` | crates/runtime-core/src/clipboard.rs:157-179 | An offer is refused exactly when no agent is attached, the text is over the cap or not UTF-8, each with its error and without effect; otherwise it gets the next sequence number, wrapping to 1 after the largest positive 32-bit value, replaces an unread offer and leaves a record being read alone. |
| `ClipboardDevice.Device.ReadInto` | crates/runtime-core/src/clipboard.rs:209-231 | A read of any length returns the next bytes of one record, never of two; it answers EAGAIN exactly when no record is begun and the newest offer was taken. |
| `ClipboardDevice.Device.WriteAck` | crates/runtime-core/src/clipboard.rs:293-307 | Only the first answer to the newest offer is kept; a positive status is refused without effect. |
| `ClipboardDevice.ReadRest` | programs/kclipd.c:300-312 | Inside a record read_exact returns exactly the next len bytes of that record, through any short reads, interruptions and host offers in between. |
| `ClipboardDevice.ReadHeader` | programs/kclipd.c:300-312 | On a record boundary it returns a whole header of an offer no older than the newest at the start, or nothing and then nothing was unread. |
| `ClipboardDevice.ReadPayload` | programs/kclipd.c:353-356 | Reading len more bytes ends the record on its boundary with exactly its text. |
| `ClipboardDevice.DrainPayload` | programs/kclipd.c:340-350 | Without memory for the text the payload is drained through the 4096-byte sink and the record ends on its boundary. |
| `ClipboardDevice.BeginOffer` | programs/kclipd.c:324-338 | No header the device can produce is refused. |
| `ClipboardDevice.HandleOffer` | programs/kclipd.c:323-382 | From a record boundary a call takes an offer that waits, and exactly one record or none. Out of memory it answers -ENOMEM, with a finished roundtrip 0, and with a lost connection nothing, in each case if and only if; it acknowledges that record and no other and hands on exactly the offered text. |
| `ClipboardSystem.PlayKeepsInv` | programs/kclipd.c:358-382 | Every run of host, agent, compositor and other clients keeps: each acknowledgement with status 0 names an offer whose text the compositor installed. |
| `ClipboardSystem.StatusZeroMeansInstalled` | crates/runtime-core/src/clipboard.rs:181-198 | Whenever the host polls status 0 for its newest offer, the compositor has installed the text of an offer with that sequence number, and it is the newest offer itself unless 2^31-1 offers lie between them. |
| `ClipboardSystem.StatusFollows` | crates/runtime-core/src/clipboard.rs:157-198 | A new offer is pending, memory failure makes the polled status -ENOMEM, and the end of the roundtrip makes it 0 for the offer whose text the installed source holds. |
| `PasteTable.Pump` | programs/kclipd.c:103-112 | Whatever write answers, a pump only advances within the text, and is done if and only if it is at the end or met a failing write, which leaves it before the end. |
| `PasteTable.PumpSends` | programs/kclipd.c:103-112 | A pump ends exactly where the bytes taken by write, before it blocks or fails, lead, or at the end of the text. |
| `PasteTable.WriterPump` | programs/kclipd.c:103-112 | The loop sends exactly the bytes between the old and the new offset. |
| `PasteTable.SwapRemoveParts` | programs/kclipd.c:96-100 | Closing slot i leaves the slots below i where they were and removes exactly the writer in slot i from the rest. |
| `PasteTable.AllocateKeepsInv` | programs/kclipd.c:351-364 | Allocating a text with its source keeps counts exact and every paste a prefix of what was promised. |
| `PasteTable.CancelKeepsInv` | programs/kclipd.c:135-142 | Cancelling a source keeps counts exact and frees the text only if no writer holds it. |
| `PasteTable.SendKeepsInv` | programs/kclipd.c:116-133 | A paste keeps counts exact, appends at most one writer, and promises the client the text of the source it asked. |
| `PasteTable.PumpSlotKeepsInv` | programs/kclipd.c:448-451 | Pumping and possibly closing any slot keeps counts exact and every other writer intact. |
| `PasteTable.PassSurvivors` | programs/kclipd.c:448-451 | After one pass over the polled slots the table holds, as a multiset, each polled writer pumped at most once by its own readiness and script, and every other writer untouched. |
| `PasteTable.DispatchAppends` | programs/kclipd.c:436-447 | Callbacks dispatched after the poll only append to the table, so polled slots keep their positions. |
| `PasteTable.TurnSurvivors` | programs/kclipd.c:426-451 | One turn of the loop pumps the polled writers with the poll's own results although dispatch has run since; appended writers are kept unpumped and none is lost. |
| `PasteTable.PassSends` | programs/kclipd.c:448-451 | After a pass the client of a polled writer has its text up to what its own answers took if the poll found it ready, and what it had otherwise. |
| `PasteTable.RunsKeepCountsExact` | programs/kclipd.c:92-142 | Over every run from an empty table: refs is one for a live source plus one per writer and positive for every allocated text, writers hold allocated texts and number at most 16, and every client has received a prefix of the text it was promised. |
| `PasteTable.FinishedPastesWhole` | programs/kclipd.c:103-133 | Over every run a client whose writer has left the table has the whole promised text, unless the table was full when it asked or a write to it failed. |
| `PasteAgent.Agent.TextUnref` | programs/kclipd.c:92-94 | The count goes down by one and the text is freed exactly when it reaches zero. |
| `PasteAgent.Agent.WriterClose` | programs/kclipd.c:96-100 | The in-place close is the swap-remove with one reference dropped. |
| `PasteAgent.Agent.SourceSend` | programs/kclipd.c:116-133 | The in-place callback does what the table model says and keeps its invariant. |
| `PasteAgent.Agent.SourceCancelled` | programs/kclipd.c:135-142 | Likewise for a cancelled source. |
| `PasteAgent.Agent.PollPass` | programs/kclipd.c:448-451 | Likewise for the descending pass over the writers array. |
| `PasteSystem.CallbackFinds` | programs/kclipd.c:116-142 | In a joint state that satisfies both invariants, every paste and cancellation the protocol can deliver names a source the table still holds. |
| `PasteSystem.StepKeepsInv` | programs/kclipd.c:116-142 | Protocol and table taking a step together keep the table's sources equal to the protocol's live ones and the counts exact. |
| `PasteSystem.CallbacksNeverFail` | programs/kclipd.c:92-142 | Over every joint run of host, agent, compositor and other clients no callback finds its source freed. |
| `PasteSystem.PasteServed` | programs/kclipd.c:116-133 | A host offer gives its text to the new source; a paste that reaches a source promises the client that source's text and sends a prefix of it. |
| `CopyOut.DrainWhole` | programs/kclipd.c:215-239 | For every sequence of short reads, interruptions and EAGAIN the loop completes only with the whole content of a closed pipe, at most the cap; it waits with exactly what was delivered; it gives up only on a read error or failed allocation it met, or over the cap. |
| `CopyOut.DrainEnds` | programs/kclipd.c:215-239 | From any position in a closed pipe enough ready answers, of any size and between interruptions, end with the whole content, or over the cap by giving up. |
| `CopyOut.GuestRecordAccepted` | crates/runtime-core/src/clipboard.rs:237-266 | The device stores exactly the reported text, and refuses the record only if the text is not UTF-8. |
| `CopyOut.Reader.Open` | programs/kclipd.c:197-208 | A newer selection replaces a read in progress with an empty buffer. |
| `CopyOut.Reader.Pump` | programs/kclipd.c:215-261 | At end of file one record with the whole text is written; on error, over the cap or without memory nothing is, and the reader is closed. |
| `CopyOut.CopyOutAllOrNothing` | programs/kclipd.c:171-261 | Over every run each report is the whole content of one closed pipe, at most the cap, and no pipe is reported twice. |
| `CopyOut.OversizeNeverReported` | programs/kclipd.c:227-233 | A selection over the cap is never reported. |
| `CopyOut.ClosedPipeReported` | programs/kclipd.c:215-261 | Reading on in a closed pipe, from any position and through short reads and interruptions, reports a text if and only if it is the content and fits the cap. |
| `CopyOut.NextAccounted` | programs/kclipd.c:171-261 | Every action moves pipes between reported, being read and lost so that each stays in exactly one of them. |
| `CopyOut.EveryPipeAccounted` | programs/kclipd.c:171-261 | Over every run each pipe opened is exactly one of reported, being read, and lost; lost ones were replaced while being read, met a failed read or allocation, or are over the cap. |
| `CopyOut.FlawlessLosses` | programs/kclipd.c:194-239 | Without read errors and with memory a pipe is lost only by being replaced or over the cap. |
| `ForeignCopies.PlayKeepsInv` | programs/wlcompositor/wlcompositor.c:3460-3485 | Over every run of protocol, compositor, writing clients and reader: each pipe served while its source was the selection carries a prefix of that source's text, and every other served pipe is closed and empty. |
| `ForeignCopies.ReportsExactly` | programs/kclipd.c:182-261 | Over every run each report carries what the client of the read's foreign source had written when it closed the pipe, a prefix of its text and the whole exactly when it wrote everything, or an empty text when the compositor closed the pipe unread. |
| `ForeignCopies.ServedUnreadExactly` | programs/wlcompositor/wlcompositor.c:3460-3485 | A receive is served unread if and only if the selection at the end of the agent's event queue is not its source. |
| `ForeignCopies.ReportedExactly` | docs/architecture.md:4827-4834 | For every announced foreign text in every reachable state and every continuation: a read is opened if and only if the pipe can be made and nothing of the agent's own is in flight; it is then exactly one of reported, being read and lost with its cause; the text itself is reported if and only if the read is over, not lost, and the client was asked in time and wrote everything (or the text is empty). |
| `ForeignCopies.PromptlyReported` | programs/kclipd.c:182-261 | From every reachable state there is a schedule that reports it: dispatched, served, written and read at once, the text is reported if and only if nothing own is in flight, it is still the selection (or empty) and it fits the cap, and an empty text if it is no longer the selection. |
| `ForeignCopies.StaleCopyReportedEmpty` | docs/architecture.md:4827-4834 | A concrete run from the start in which a foreign text is announced with nothing of the agent's own in flight and an empty text is reported instead. |
| `ForeignCopies.ReplacedCopyLost` | programs/kclipd.c:197-200 | A concrete run without any failure in which the read is served in time and the client writes its whole text, and a newer selection has replaced the read: nothing is reported. |
| `ForeignCopies.TruncatedCopyReported` | docs/architecture.md:4833-4834 | A concrete run in which the client closes after one byte of a longer text, and that byte is reported. |
| `CatalogImage.Be32RoundTrip` | examples/gencat.c:31-37 | A word written big-endian reads back as itself. |
| `CatalogImage.KnownWords` | examples/gencat.c:31-37 | The bytes of the magic number and of -1, highest byte first. |
| `CatalogSource.Parser.AddSet` | examples/gencat.c:58-67 | A set id is added once; a new one is refused exactly when 256 are stored. |
| `CatalogSource.Parser.AddMessage` | examples/gencat.c:118-135 | A message is stored with its text NUL-terminated at the recorded offset; it is refused exactly when a table is full. |
| `CatalogSource.Parser.ParseLine` | examples/gencat.c:91-136 | A line, cut at its first NUL, does to the tables what its meaning in the message text format says. |
| `CatalogSource.Parser.ParseFile` | examples/gencat.c:82-138 | Parsing a file yields its sets and messages in order, and fails if and only if they exceed the table sizes. |
| `CatalogText.Classes` | examples/gencat.c:106-114 | Which characters are digits, blanks and spaces. |
| `CatalogText.LineKinds` | examples/gencat.c:96-108 | A line is a message exactly when it begins with a digit and a directive exactly when it begins with "$set". |
| `CatalogText.MessageLine` | examples/gencat.c:110-116 | Digits, blanks, a text and a line ending mean that number, saturated at the largest long, and that text, whatever follows a NUL. |
| `CatalogText.DirectiveLine` | examples/gencat.c:96-103 | "$set", spaces, an optional sign and digits mean that set, whatever else follows. |
| `CatalogText.SetInForce` | examples/gencat.c:89-102 | A message belongs to the last directive before it in its file, or to set 1. |
| `CatalogText.MessageLinesExact` | examples/gencat.c:105-112 | The message lines of a file are those that begin with a digit, in order. |
| `CatalogText.EntriesInOrder` | examples/gencat.c:91-136 | A file has one entry for each line that begins with a digit, in order, in the set in force there. |
| `CatalogText.SetsOpened` | examples/gencat.c:96-118 | The sets of a file are those named by a directive or holding a message. |
| `CatalogText.PrintedMeans` | examples/gencat.c:82-138 | A file written out as "$set N" and "M text" lines has exactly those entries, in order, and exactly their sets. |
| `CatalogImage.CursorAdvances` | examples/gencat.c:176-191 | Past a set's run the cursor stands at the first message of a later set: it never sticks. |
| `CatalogImage.SetTablePartitions` | examples/gencat.c:176-191 | The set table has the given ids, negative ones included, each range holds exactly its set's messages, the ranges are consecutive and end at the last message, and an empty set has count 0. |
| `CatalogImage.ImageEncodes` | examples/gencat.c:4-19 | Every word a reader of the documented layout looks at has its documented meaning. |
| `CatalogImage.Put32be` | examples/gencat.c:31-37 | Storing a word extends the written prefix by its four bytes. |
| `CatalogImage.PutSets` | examples/gencat.c:176-191 | The loop with its single forward cursor writes the set table. |
| `CatalogImage.PutMsgs` | examples/gencat.c:193-200 | The loop writes one row per message. |
| `CatalogImage.Build` | examples/gencat.c:156-203 | The buffer is the documented file image, byte for byte. |
| `CatalogReader.ParseAll` | examples/gencat.c:149-150 | All files parse if and only if together they fit, into tables that represent exactly their entries. |
| `CatalogReader.SortedIsReady` | examples/gencat.c:152-154 | Any sorting permutation of the parsed tables can be emitted and still represents the source. |
| `CatalogReader.CatGets` | examples/gencat.c:4-19 | Looking a pair up in the emitted bytes finds a text if and only if the source defines the pair and the search reaches its set, and then one the source gave it. |
| `CatalogReader.CompileAndLookup` | examples/gencat.c:140-203 | The whole chain of parsing, any qsort, emitting and lookup: it fails if and only if the source exceeds the tables; a pair is found if and only if the source defines it and the search reaches its set, which is always so when the set ids have one sign. |
| `CatalogText.CompilePrinted` | examples/gencat.c:140-203 | Compiled from written-out entries with distinct pairs, each pair is found with its own text and no other pair is found. |
| `CatalogReader.FindSet` | examples/gencat.c:4-19 | The loop over the emitted words is the binary search of the model, and finds only the set asked for. |
| `CatalogReader.AllReachedIff` | examples/gencat.c:152-154 | Every set of a sorted table is reached if and only if no two set ids differ in sign. |
| `CatalogReader.MixedLost` | examples/gencat.c:176-191 | With ids of both signs the first or the last set of the table is not reached, as the sign of its middle id says. |
| `CatalogReader.NegativeSetLost` | examples/gencat.c:96-100 | A concrete table: of the sets -1 and 1 the first is not reached. |
| `CatalogReader.UniqueText` | examples/gencat.c:82-138 | With one text per pair the text found is that text. |
| `Unicode.UnitsAt` | programs/bun-extract.c:181-182 | The units are the little-endian byte pairs; an odd last byte is none. |
| `Unicode.Utf16RoundTrip` | programs/bun-extract.c:181-186 | Decoding and encoding UTF-16 restores every unit, lone surrogates included. |
| `Unicode.Utf8RoundTrip` | programs/bun-extract.c:187-190 | Decoding encoded code points restores them. |
| `Unicode.Utf8Form` | programs/bun-extract.c:187-190 | The length of each UTF-8 form and the range of each of its bytes. |
| `Unicode.KnownForms` | programs/bun-extract.c:181-190 | The forms of five known characters, a lone surrogate and a pair among them. |
| `Unicode.PutCodePoint` | programs/bun-extract.c:187-190 | The four branches append the UTF-8 form of the code point and nothing else. |
| `Unicode.Utf16leToUtf8` | programs/bun-extract.c:170-194 | The conversion is refused exactly when the capacity would wrap or memory is short; otherwise it writes the converted text within the capacity. |
| `Unicode.ConversionLossless` | programs/bun-extract.c:169-194 | The output decodes to the input's code points, and those encode to every whole unit of the input. |
| `ReplaceAll.Find` | programs/bun-extract.c:108-114 | memmem returns the leftmost occurrence, or nothing exactly when there is none. |
| `ReplaceAll.ReplacedJoins` | programs/bun-extract.c:102-120 | The same runs are joined by `from` in the text and by `to` in the result. |
| `ReplaceAll.PiecesClean` | programs/bun-extract.c:113-118 | No copied run contains `from`, and a match is the leftmost one behind its run. |
| `ReplaceAll.ReplacedLength` | programs/bun-extract.c:109-119 | The length is tlen + count * (tolen - flen). |
| `ReplaceAll.CountMatches` | programs/bun-extract.c:107-108 | The first pass counts exactly the matches that the second replaces. |
| `ReplaceAll.CapacityHolds` | programs/bun-extract.c:109 | The true capacity of the first pass is larger than what the second writes. |
| `ReplaceAll.CapacityExact` | programs/bun-extract.c:109 | The capacity computed in 32-bit size_t holds the result if and only if the true capacity fits. |
| `ReplaceAll.FillReplaced` | programs/bun-extract.c:111-119 | The second pass stays in a buffer of any size if and only if the replaced text fits it, and then writes exactly that text. |
| `ReplaceAll.ReplaceAll` | programs/bun-extract.c:105-120 | The two passes yield leftmost non-overlapping replacement; a write leaves the buffer if and only if memory was granted and the capacity does not fit size_t. |
| `ReplaceAll.CapacityCanWrap` | programs/bun-extract.c:109 | Texts of repeated specifiers whose capacity does not fit, such as 524288 of them under an 8192-byte directory. |
| `Remapping.LeavesStep` | programs/bun-extract.c:389-402 | What one replaced match leaves lies in the directory, across its start, across its end or in the rest, and these add up to the condition of the theorem. |
| `Remapping.RemapLeaves` | programs/bun-extract.c:447-455 | For every text and every cache root a specifier is left after remapping if and only if text and directory both hold one, or the text has the start of one before a whole one and the directory starts with what is missing, or specifiers in the text share slashes (under a relative root: in an even chain). |
| `Remapping.UsualRoot` | programs/bun-extract.c:389-402 | Under an absolute root without a dollar sign and outside /root/ this is so exactly when two specifiers in the text share a slash. |
| `Remapping.RemapCanLeaveSpecifier` | programs/bun-extract.c:447-455 | A concrete text leaves one behind under every absolute root. |
| `Remapping.RootCanCompleteSpecifier` | programs/bun-extract.c:389-402 | Under a root that starts with the end of a specifier, a start of one before a whole one is enough. |
| `Remapping.OddChainGone` | programs/bun-extract.c:389-402 | Under a relative root three specifiers sharing slashes leave none, although two do. |
| `SafePath.SplitFindsDotDot` | programs/bun-extract.c:67-77 | A segment is ".." exactly when two dots stand between slashes or ends. |
| `SafePath.DotDotTestExact` | programs/bun-extract.c:70-77 | The four tests are true if and only if some slash-separated segment is "..". |
| `SafePath.DotDotEscapes` | programs/bun-extract.c:67-77 | Joining ".." to a directory leads out of it, for every directory but the absolute root. |
| `SafePath.UpUndoesDown` | programs/bun-extract.c:67-77 | Going down by a name and up again leads back; "." and an empty segment lead nowhere. |
| `SafePath.StripExact` | programs/bun-extract.c:149-156 | The first of the four prefixes a name has is taken off, else its leading slashes and nothing more. |
| `SafePath.SuffixKeepsSafe` | programs/bun-extract.c:320-330 | The entry's ".mjs" suffix cannot turn a segment into "..". |
| `SafePath.PathConfined` | programs/bun-extract.c:377 | For a path without ".." segments, outdir/path normalises to a place at or below outdir if and only if outdir is not empty. |
| `SafePath.DestinationConfined` | programs/bun-extract.c:317-330 | The same for every accepted module name, stripped and with or without the suffix. |
| `Decimal.ValueOfDigits` | programs/bun-extract.c:429 | Decimal digits denote the number they were made from. |
| `Decimal.DigitsExact` | programs/bun-extract.c:429 | Digits count by powers of ten and no number but 0 begins with a zero. |
| `Json.ReadSafe` | programs/bun-extract.c:81-86 | A string that passes the filter reads back as itself from between quotes. |
| `Json.FilterExact` | programs/bun-extract.c:79-86 | A string survives unescaped printing if and only if it passes the filter. |
| `Json.ReadPrinted` | programs/bun-extract.c:346-347 | Every printed value of safe strings reads back, whatever follows it. |
| `Json.ReadPrintedMembers` | programs/bun-extract.c:346-347 | So does every comma-separated member list, in order. |
| `Json.KnownText` | programs/bun-extract.c:429 | One value printed in full. |
| `Manifest.ClassesExact` | programs/bun-extract.c:91-100 | The class of each loader byte, both ways. |
| `Manifest.AssetsExact` | programs/bun-extract.c:338-345 | The listed modules are those of the four asset loaders other than the entry, in table order. |
| `Manifest.LoadersInOrder` | programs/bun-extract.c:337-348 | The loaders are the modules with an asset loader other than the entry, in table order, each by its stripped name and its class. |
| `Manifest.EntryNamed` | programs/bun-extract.c:320-330 | The entry's file name ends in ".mjs", added if missing; every other name is only stripped. |
| `Manifest.PieceFits` | programs/bun-extract.c:345-351 | An accepted name always fits the entry buffer: the "entry too long" branch cannot be taken. |
| `Manifest.Buffer.Append` | programs/bun-extract.c:352-358 | It ends in an out-of-memory exit exactly when the buffer must grow, the need fits size_t and realloc fails; the write leaves the buffer exactly when it must grow and twice the need does not fit size_t; otherwise the buffer holds the old text followed by the entry, NUL-terminated within its size. |
| `Manifest.AddLoader` | programs/bun-extract.c:340-360 | One module appends its entry, with a comma exactly when the object is not empty, if it is listed, or ends the loop as the model says. |
| `Manifest.WalkModules` | programs/bun-extract.c:305-360 | The loop ends at the first module whose name, cut at its first NUL, is too long, unsafe or has a ".." segment, or whose entry finds no memory or leaves the buffer; otherwise it yields the loaders in table order and the entry's name and format. |
| `Manifest.FactsReadBack` | programs/bun-extract.c:426-430 | The printed manifest reads back as the entry, its format and the ordered loaders. |
| `Manifest.BuildManifest` | programs/bun-extract.c:305-430 | From module table and realloc's answers to manifest: it is written if and only if no module ends the loop and the entry exists, and a JSON reader recovers exactly the listed modules. |
| `Manifest.SmallTableFits` | programs/bun-extract.c:352-357 | Loaders that print in at most 2^31-2 bytes never leave the buffer. |
| `Manifest.LargeTableOverruns` | programs/bun-extract.c:352-357 | Loaders that print in 2^32-1 bytes or more always do. |
| `Manifest.RepeatedOverruns` | programs/bun-extract.c:352-357 | Tables that do: more than 2^20 rows with one accepted 4096-byte name. |
| `Transcript.DecodeEncoded` | benchmarks/run.ts:197-204 | A record, with any bytes in its file, is recovered from the front of any stream that begins with it. |
| `Transcript.DecodeAll` | benchmarks/run.ts:197-252 | The byte stream determines the ordered record list. |
| `Transcript.KnownRecord` | benchmarks/run.ts:197-204 | The bytes of one file record in full. |
| `NameOrder.LessTotal` | benchmarks/run.ts:195 | Exactly one of less, equal, greater holds. |
| `NameOrder.LessExact` | benchmarks/run.ts:195 | At the first difference the smaller unit comes first, and a name comes before those it begins. |
| `NameOrder.SortIgnoresOrder` | benchmarks/run.ts:215-216 | Two listings of the same distinct names sort to the same list. |
| `DirectoryTree.SiblingNotBelow` | benchmarks/run.ts:218-220 | The logical path of one entry is never below that of a sibling. |
| `DirectoryTree.RecordsInjective` | benchmarks/run.ts:206-248 | Record lists of two tidy trees under one path are equal only if the trees are, whatever unrelated records follow. |
| `DirectoryWalk.UnfoldTidy` | benchmarks/run.ts:213-246 | The tree a walk sees has valid names in strictly ascending order at every level. |
| `DirectoryWalk.UnfoldNames` | benchmarks/run.ts:192-194 | The children of a directory are exactly its listed entries that are not excluded. |
| `DirectoryWalk.OrderIrrelevant` | benchmarks/run.ts:215-216 | The tree, or the failure, does not depend on the order in which any directory lists its entries. |
| `DirectoryWalk.HashedInjective` | benchmarks/run.ts:250-252 | Hashing the same bytes means the same tree. |
| `DirectoryWalk.EqualHashesEqualTrees` | benchmarks/run.ts:171-272 | Two walks, of any filesystems and exclusions, hash the same bytes if and only if they saw the same tree. |
| `WalkPaths.ExcludedExactly` | benchmarks/run.ts:192-194 | An entry is left out if and only if its path or that of a directory above it is listed. |
| `WalkPaths.ChildrenAre` | benchmarks/run.ts:217-243 | The children of a walked directory are the nodes of its listed entries that are not excluded. |
| `WalkPaths.TreeExact` | benchmarks/run.ts:206-248 | The tree has a path ending at a file with these bytes, a directory, a cycle mark or something else, directly or through a link, if and only if the graph has such a route that visits no directory twice, with no part of it excluded. |
| `WalkPaths.FailsExactly` | benchmarks/run.ts:206-262 | The walk fails if and only if a shown path ends at a directory that cannot be listed, a file that cannot be read or a link that leads nowhere. |
| `WalkPaths.RecordsExact` | benchmarks/run.ts:197-246 | A record is hashed if and only if it is that of a path in the tree, or the cycle mark behind one. |
| `WalkPaths.PathsDetermineTree` | benchmarks/run.ts:206-248 | Two trees with the same paths, ending at the same things, are equal. |
| `WalkPaths.EqualHashesEqualPaths` | benchmarks/run.ts:171-272 | Two fingerprints are equal if and only if the two graphs show the same paths ending at the same things, with the same bytes in every file. |
| `Fingerprint.FeedTotals` | benchmarks/run.ts:197-204 | What was hashed, counted and added up is the encoding, number and size of the records. |
| `Fingerprint.TotalsOfTree` | benchmarks/run.ts:198-204 | Count and size are the number of files in the tree, links to files included, and of their bytes. |
| `Fingerprint.Walker.HashFile` | benchmarks/run.ts:197-204 | A readable file adds one record, one to the count and its size; an unreadable one adds nothing and fails. |
| `Fingerprint.Walker.Walk` | benchmarks/run.ts:206-248 | The recursion ends on every finite directory graph; it feeds exactly the records of the unfolded directory or a cycle mark, and on normal and failing return the active set is what it was on entry. |
| `Fingerprint.Walker.WalkItems` | benchmarks/run.ts:215-244 | The loop fails if and only if some entry that is not excluded cannot be read. |
| `Fingerprint.Walker.WalkEntry` | benchmarks/run.ts:217-243 | One entry adds the records of its kind, or none when excluded. |
| `Fingerprint.FingerprintDirectory` | benchmarks/run.ts:250-271 | The report holds the hash of the unfolded tree, the number of its files and of their bytes, and is a failure if and only if the walk met something unreadable. |
| `Snapshot.OffsetsSound` | examples/run-example-persistence-verification.ts:76-78 | The one to three sample offsets are distinct, ascending and in bounds, and touch both ends of the file. |
| `SnapshotDigests.OffsetsExact` | examples/run-example-persistence-verification.ts:76-78 | The offsets are 0, the middle and the end, without repetition, and how many bytes that samples. |
| `SnapshotDigests.SamplesAre` | examples/run-example-persistence-verification.ts:80-88 | The samples are the ranges at the offsets one after the other, and can be read if and only if each lies in the file. |
| `Snapshot.TypeBits` | examples/run-example-persistence-verification.ts:13-15 | Directories and regular files are told by the four type bits of the mode. |
| `Snapshot.GoodNameExact` | examples/run-example-persistence-verification.ts:45-47 | A name is refused exactly when it is none a directory can list, or one of the two dots. |
| `Snapshot.HashWhole` | examples/run-example-persistence-verification.ts:62-74 | Hashing in 1 MiB chunks feeds the digest the whole file, or fails when a chunk is short; every request lies within the reported size. |
| `Snapshot.HashSamples` | examples/run-example-persistence-verification.ts:80-89 | The sample digest is fed the ranges at the offsets, in order; every request lies within the reported size. |
| `Snapshot.Inspected` | examples/run-example-persistence-verification.ts:50-92 | An entry is hashed whole while it fits the first budget, else sampled while that fits the second, else neither. |
| `Snapshot.VisitAll` | examples/run-example-persistence-verification.ts:44-94 | Visiting a directory's children never adds more to the queue than to the result. |
| `Snapshot.Visit` | examples/run-example-persistence-verification.ts:39-95 | The walk ends: remaining entries plus queue length goes down with every directory. |
| `Snapshot.InspectPersistentFixture` | examples/run-example-persistence-verification.ts:30-97 | The nested loops compute the snapshot of the model, error paths included. |
| `Snapshot.FirstChange` | examples/run-example-persistence-verification.ts:99-107 | The comparison passes if and only if the snapshots are equal, and otherwise names the first difference. |
| `SnapshotTheorems.ListingOrderIrrelevant` | examples/run-example-persistence-verification.ts:41-44 | The snapshot, or the failure to take one, does not depend on listing order although the budgets are spent greedily. |
| `SnapshotTheorems.VisitConserves` | examples/run-example-persistence-verification.ts:37-38 | Bytes digested and bytes left add up to both limits throughout. |
| `SnapshotTheorems.WithinBudgets` | examples/run-example-persistence-verification.ts:9-10 | At most 32 MiB are hashed and 8 MiB sampled. |
| `SnapshotDigests.GreedyExact` | examples/run-example-persistence-verification.ts:60-91 | Over every run, in visiting order, a regular file is hashed whole if and only if it fits what the entries before left of 32 MiB; otherwise it is sampled if and only if it is not empty and its samples fit what is left of 8 MiB; nothing else is digested. |
| `SnapshotDigests.AllHashed` | examples/run-example-persistence-verification.ts:60-74 | If the regular files together fit 32 MiB, every one is hashed whole. |
| `SnapshotOrder.BreadthFirst` | examples/run-example-persistence-verification.ts:39-45 | Every entry is visited behind its directory, and two entries in the order of their directories or of their names within one. |
| `SnapshotOrder.SucceedsExactly` | examples/run-example-persistence-verification.ts:30-50 | If the files have the bytes their sizes announce, there is a snapshot if and only if the root is a directory, every directory of the tree can be listed, every name is good, and there are at most 10000 paths. |
| `SnapshotTree.VisitKeepsInv` | examples/run-example-persistence-verification.ts:39-95 | Over the whole walk paths stay distinct, queued and visited directories are disjoint, and every visited directory's children are all recorded. |
| `SnapshotTree.SnapshotExact` | examples/run-example-persistence-verification.ts:30-97 | The snapshot is strictly ascending by path, and has a path with a stat if and only if the tree does. |
| `SnapshotTree.DigestsFaithful` | examples/run-example-persistence-verification.ts:60-92 | Each digest in the snapshot was fed that file's bytes. |
| `SnapshotTree.EqualSnapshotsEqualTrees` | examples/run-example-persistence-verification.ts:99-107 | Equal snapshots come from trees with the same paths and stats, and with the same bytes in every file hashed or sampled. |
| `SnapshotTree.EqualSnapshotsIff` | examples/run-example-persistence-verification.ts:99-107 | After one successful inspection another gives the same snapshot if and only if the trees have the same paths and stats, every directory can still be listed, and the files hold the bytes that were digested. |
| `SnapshotDigests.EqualSnapshotsEqualContents` | examples/run-example-persistence-verification.ts:99-107 | If the regular files fit 32 MiB, equal snapshots mean that every file is there with the same bytes. |
| `NameOrder.SortStable` | programs/klauncher.c:213-222 | The sort leaves no descent and keeps entries of one name in their order. |
| `NameOrder.SortPermutes` | programs/klauncher.c:213-222 | It is a permutation. |
| `Launcher.SortApps` | programs/klauncher.c:213-222 | The in-place insertion sort computes that sort on the stored entries and touches nothing else. |
| `AppOrder.OrderIndependentIff` | programs/klauncher.c:177-223 | The list is the same for every readdir order if and only if at most 32 entries are found and entries of one name are equal, or all entries are equal. |
| `AppOrder.ReaddirOrderCanShow` | programs/klauncher.c:213 | Two different entries of one name are listed in readdir order. |
| `Launcher.Matches` | programs/klauncher.c:284-292 | The loop is true if and only if the name contains the query, case-insensitively. |
| `Launcher.MatchingExact` | programs/klauncher.c:294-297 | The match list is strictly ascending and holds exactly the matching indices. |
| `Launcher.FillMatches` | programs/klauncher.c:294-297 | The filter loop fills the table with that list. |
| `Launcher.Menu.Refilter` | programs/klauncher.c:294-301 | The stored table becomes that of the current entries and query, and the selection is clamped into it. |
| `Launcher.Menu.EnterLevel` | programs/klauncher.c:266-278 | A level starts with its entries, an empty query, the first row selected and no scroll. |
| `Launcher.Menu.Handle` | programs/klauncher.c:391-454 | Every event keeps the table that of the current entries and query and the selection valid, and does what the model's reaction says, whose laws follow. |
| `Launcher.WindowHolds` | programs/klauncher.c:335-343 | After a redraw 0 <= scroll <= max(0, n_match - visible) and the selected row is in the window. |
| `Launcher.DrawnExact` | programs/klauncher.c:344-357 | The screen shows consecutive matches from the scroll position, as many as fit; the selected one is highlighted, exactly when something matches and a row fits below the prompt. |
| `LauncherKeys.ScrollsLeast` | programs/klauncher.c:338-343 | A redraw moves the list as little as possible to have the selected row in the window. |
| `Launcher.Menu.Render` | programs/klauncher.c:335-357 | A redraw scrolls and draws what the model says. |
| `LauncherRuns.RunGood` | programs/klauncher.c:387-459 | After every run at most 32 entries are stored and 62 query bytes, the selection is a match or 0, and while the launcher runs its row is in the window. |
| `LauncherRuns.ActsExactly` | programs/klauncher.c:418-445 | An event acts if and only if it is Return outside the root menu with something matching; it then runs, or switches to, the entry at the selected place of the match list, whose name contains the query. |
| `LauncherRuns.StopsExactly` | programs/klauncher.c:390-445 | The launcher stops if and only if on Close, on Escape outside a submenu, or on Return unless that opens one. |
| `LauncherKeys.StartsFresh` | programs/klauncher.c:363-365 | The launcher starts in the root menu with "--menu" and in the sorted applications without, with an empty query. |
| `LauncherRuns.RunsHighlighted` | programs/klauncher.c:335-445 | After every run that goes on, at most one row on the screen is highlighted, one is whenever something matches and a row fits, and Return runs or switches to that entry. |
| `LauncherKeys.ReturnOpens` | programs/klauncher.c:423-427 | In the root menu Return opens the themes for the entry "Theme" and else the sorted applications, afresh. |
| `LauncherKeys.EscapeGoesBack` | programs/klauncher.c:395-402 | In a submenu Escape leads back to a fresh root menu. |
| `LauncherKeys.DownReaches` | programs/klauncher.c:407-410 | k presses of Down go k matches on, or to the last, and change nothing else. |
| `LauncherKeys.UpReaches` | programs/klauncher.c:403-406 | k presses of Up go k matches back, or to the first, and change nothing else. |
| `LauncherKeys.TypingAppends` | programs/klauncher.c:447-454 | Text that begins with a printable ASCII byte and leaves at most 62 bytes is appended whole and the selection follows the list; any other text or key changes nothing. |
| `LauncherKeys.ErasingUndoesTyping` | programs/klauncher.c:411-417 | As many backspaces as bytes typed give back the query and the entries. |
| `LauncherKeys.ContainsExact` | programs/klauncher.c:280-292 | A name matches if and only if some part of it is the query with letters A to Z in either case. |
| `LauncherRuns.OneAction` | programs/klauncher.c:418-445 | A run acts at most once, on its last event. |
| `LauncherRuns.TypingNarrows` | programs/klauncher.c:447-454 | A longer query matches no more. |
| `LauncherRuns.BackspaceUndoesByte` | programs/klauncher.c:411-417 | Backspace takes back one typed byte. |
| `LauncherRuns.UpUndoesDown` | programs/klauncher.c:403-410 | Down selects the next match and Up goes back. |
| `LauncherRuns.MenuRoundTrip` | programs/klauncher.c:395-427 | From the root menu Return opens the selected level and Escape leads back to a fresh root menu. |
| `LauncherRuns.RunMenu` | programs/klauncher.c:363-459 | The program's loop over its tables follows the model's runs, in its state, its actions and what is on the screen. |

## Left out

- The kernel beyond the clipboard device's offer, read, acknowledgement and guest-text operations: not part of these programs' promises.
- The agent's exit, the device's owner tracking and release, staging of offers by the host, and the host's own polling loop: they would add only easy members.
- Wayland wire ids and file descriptor numbers: modelled as unique tokens, so reuse of a number is not modelled. Addresses of freed texts and sources may be reused.
- Requests and events that are always sent back to back (create, offer and set_selection; data_offer, offer and selection) are one message each.
- The loss of the compositor connection inside a run: the agent exits there, so runs end before it.
- The UTF-8 test of the clipboard device is an oracle, as are `malloc`, `read`, `write`, `poll` and `pipe`.
- Shifts and masks are written as division and remainder, and bytes as bounded integers.
- CatalogReader.CompileAndLookup: set ids that differ by more than 2^31-1, for which the comparison by subtraction overflows and C leaves the sort undefined, are not modelled.
- CatalogSource.Parser.ParseFile: starts from lines already split; `fgets` splitting an over-long line, and `atoi` on an id too large for `long`, which C leaves undefined, are not modelled. `strtol` saturates at a 32-bit `long`.
- `qsort` is any sorting permutation, and the catalog reader is a binary search over the unsigned words, written from the layout comment; the C library's own reader is not part of this model.
- Remapping.RemapLeaves: the directory is the cache root, a slash, 16 hexadecimal digits and a slash; a root so long that it is cut at 8191 bytes is not modelled.
- ReplaceAll.ReplaceAll: `from` is required not to be empty, as the only caller passes a constant, and the text to be shorter than `SIZE_MAX`, as lines 176 and 369 see to.
- Manifest.BuildManifest: `realloc` is asked for the loaders buffer only; the exits of the content buffer and of failed reads and writes of files are not modelled. What happens after a write outside a buffer is not either: the model ends there.
- SafePath.DestinationConfined: confinement is lexical; symbolic links in the output directory and the 8192-byte path limit are not modelled.
- Container probing, FNV hashing, asset messages and the files written before a refusal in `bun-extract`.
- SHA-256 is modelled by the bytes it is fed; equality of digests is then equality of those bytes.
- Transcript.DecodeAll: names are sequences of UTF-16 units; Node writes a lone surrogate as U+FFFD, which no name it has decoded from UTF-8 holds.
- DirectoryWalk.OrderIrrelevant: listings are required to name each entry once; two byte names that both decode to replacement characters would break that.
- The filesystem does not change during a fingerprint or a snapshot, except that a snapshot's short or missing reads fail as in the code. Paths resolve to real directories through a given map instead of `realpath`.
- The normalisation of exclusion paths (backslashes, sorting) and the report for a missing directory.
- SnapshotTree.SnapshotExact: listings are required to name each entry once.
- Launcher entries are given as parsed: reading the files, trimming and cutting names to 47 bytes and commands to 255 are not modelled, nor are the window, fonts, colours, and the commands' delivery.
- Launcher.Menu.Handle: `char` is signed as on the program's wasm32 target, so text that starts with a non-ASCII byte is not accepted.
