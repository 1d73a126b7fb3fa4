# Verification of the mochiOS system crates

A Dafny model of the protocol and format code of this repository, with proofs about every run
and every input. Nothing here runs the original program, and nothing was executed.

Six parts of the repository are modelled. Each has value-level functions that say what an
operation does, imperative code in the form of the source (classes with mutable fields, loops,
arrays) proved against those functions, and theorems about the functions.

- **TCP connection** (`TcpSpec`, `TcpConnection`, `TcpRuns`, `TcpSend`, `TcpLog`, `TcpReceive`,
  `TcpTheorems`, `TcpClosing`, `TcpReports`, `TcpLimits`): the active-open, stop-and-wait connection.
  A run is any interleaving of API calls, timer polls and arriving segments. Conservation of the
  sent stream, safety of the received stream under any network, closing order, retransmission timing, and 32-bit sequence
  comparison as a refinement of integers. What every arriving segment and every poll reports, exactly.
- **Snapshot store** (`StateCodec`, `StorageSpec`, `Storage`, `NoRollback`, `ShownFloor`,
  `ReadOnlyLoad`, `Reload`): the A/B-slot store over a file system whose writes can be torn, lie or fail,
  with crashes. No load rolls back, exactly which versions shown by read-only loads are lower bounds, and
  what a reload returns.
- **Callback resources** (`ScopeChain`, `FreezeWord`): the linked list of scopes with its blocker
  count, and the freeze word as an atomic-step protocol of any number of threads.
- **ELF signatures** (`ElfSpec` to `ElfCrossing`, `ElfVerified`, `ElfAccepted`, `ElfLocated`): parsing,
  appending a section, locating the record, signing and verifying. Exactly which files parse, which hold a
  record or a manifest, and which signed files verify.
- **HTTP responses** (`HttpSpec`, `HttpFraming`, `HttpStream`, `HttpAgreement`, `HttpDecoders`,
  `HttpMessages`, `HttpHeads`, `HttpBodies`, `HttpPrefixes`): the buffered and the streaming
  decoder, their framing and their agreement, and exactly which byte strings each accepts.
- **UDP table, checksum, wire formats, certificates** (`UdpSpec`, `UdpTable`, `UdpRuns`,
  `UdpOrder`, `UdpPeers`, `Checksum`, `Wire`, `WireAccepted`, `CertificateSpec`, `CertificateCodec`,
  `CertificateLoops`, `CertificateTrust`).

`Machine`, `Text`, `Utf8` and `Pieces` hold integers of fixed width, UTF-8 and byte-string helpers.

## Where the code and its promises differ

- Signing does not always produce a file that verifies. The program header table may start inside
  the file header. Signing then changes what the program headers say, and a segment can come to lie
  over the embedded manifest. `ElfTheorems.SignThenVerifyExactly` states the exact condition,
  `ElfCrossing.SignedButRefused` gives a 348-byte file that is signed and refused, and
  `ElfTheorems.ClearSurvives` shows that files whose program headers start at byte 64 or later are safe.
- What a read-only load returns is not always a lower bound for later loads: a state write that reported
  failure may have reached the disk. `ReadOnlyLoad.ReadOnlyIsNoFloor` is such a run, and
  `ShownFloor.FloorExactly` says exactly when an answer is a lower bound: when no writer session is open, or
  the version was already reported by a persist or a repairing load.
- A load after a reported persist can answer something else for the other kind: a valid snapshot whose own
  persist never succeeded is recovered. `Reload.ReloadExactly` gives the exact condition.
- `TimeWait` and `Closed` do not imply that the own FIN was acknowledged (`TcpClosing.ClosedUnacknowledged`);
  `TcpClosing.EntersTimeWait` and `TcpClosing.FinAckedExactly` say exactly when it was.
- Bytes are taken after the peer FIN, in `CloseWait`, `LastAck` and `TimeWait`
  (`TcpClosing.TakesAfterFin`, `TcpClosing.ClosedUnacknowledged`); `TcpClosing.LateBytesExactly` gives the exact
  guard. The receiving theorems therefore speak of a peer whose FIN is at the end of its stream.
- The Internet checksum of inputs beyond 131,074 bytes can differ from RFC 1071 (`Checksum.BoundIsExact`);
  `Checksum.ChecksumExactly` says for exactly which inputs it does. A stored checksum verifies all the same.

## Model

| member | source | states |
|---|---|---|
| TcpTheorems.SendConservation | crates/network-stack/src/tcp.rs:397-528 | After every run, until a reset: the bytes `queue_send` accepted are the fully acknowledged ones, then the payload in flight, then the send buffer; at most one segment is out, it ends at `send_next`, nothing out means the two send variables are equal, and flight plus buffer stay within the capacity. |
| TcpTheorems.WireIsTheStream | crates/network-stack/src/tcp.rs:445-528 | Every data segment ever emitted carries the accepted bytes its sequence number names; a retransmission repeats the emission before it (sequence, flags, options, payload); a FIN is numbered ISS + 1 + everything accepted, modulo 2^32. |
| TcpTheorems.OnlyTheFinAfterFin | crates/network-stack/src/tcp.rs:502-526 | Whatever is emitted after a FIN repeats that FIN: no data is first sent after it. |
| TcpTheorems.FinAfterAllData | crates/network-stack/src/tcp.rs:397-421 | Once a FIN has gone out, every accepted byte has been acknowledged, and no later call accepts more. |
| TcpTheorems.StateOnlyAdvances | crates/network-stack/src/tcp.rs:530-654 | Whatever a step does, the state stays or moves to a later one in a fixed order: `Closed` is left only for `Reset`, and `Reset` by nothing. |
| TcpTheorems.AtMostSixChanges | crates/network-stack/src/tcp.rs:601-742 | Over every run the state never goes back and changes at most six times. |
| TcpTheorems.NothingAfterReset | crates/network-stack/src/tcp.rs:438-528 | `Reset` is final and nothing is emitted in it. |
| TcpTheorems.RetransmissionTiming | crates/network-stack/src/tcp.rs:445-468 | Retransmission k of a segment repeats its first send and is no earlier after it than its k delays add up to, for every k and timeout; that sum is T * (2^k - 1) for k up to 21 when no delay saturates. |
| TcpTheorems.RetryIndexBound | crates/network-stack/src/tcp.rs:447-468 | No segment is retransmitted more than `retry_limit` times. |
| TcpTheorems.RetryLimitTiming | crates/network-stack/src/tcp.rs:447-468 | `RetryLimit` is reported after `retry_limit` retransmissions of one segment, and no earlier after its first send than all its delays add up to: T * (2^(limit + 1) - 1) for limits up to 20 when no delay saturates. |
| TcpTheorems.AckRefinesIntegers | crates/network-stack/src/tcp.rs:656-671 | In every reachable state before a reset the wrapped send variables stand for integers at most 65,536 apart; `acknowledge` accepts a number exactly when it is congruent to an integer between them, and retires the segment exactly when that integer is the upper one. |
| TcpTheorems.ReceivesAPrefix | crates/network-stack/src/tcp.rs:530-684 | Under any loss, duplication and reordering of a peer stream, what the owner read and then what is buffered is a prefix of that stream, of the length `receive_next` says; the buffer stays within its capacity; a taken FIN means the whole stream was taken. |
| TcpTheorems.AcksCoverOnlyTaken | crates/network-stack/src/tcp.rs:423-436 | No emitted acknowledgment, in a segment or on its own, covers a byte that was not taken. |
| TcpClosing.FinAckedExactly | crates/network-stack/src/tcp.rs:601-742 | In every run, once the own FIN is out and until a reset, nothing is in flight if and only if some processed segment carried the number past the FIN: neither `TimeWait` nor `Closed` implies it. |
| TcpClosing.EntersTimeWait | crates/network-stack/src/tcp.rs:639-653 | Every run enters `TimeWait` by a segment that arrives in `FinWait1` or `FinWait2`, and the own FIN is then acknowledged if and only if the state was `FinWait2` or this segment acknowledges it. |
| TcpClosing.ClosedUnacknowledged | crates/network-stack/src/tcp.rs:639-742 | A concrete run into `TimeWait`, and by the timer into `Closed`, whose own FIN is never acknowledged; it also takes a byte in `TimeWait`. |
| TcpClosing.LateBytesExactly | crates/network-stack/src/tcp.rs:585-637 | In every run, after the peer FIN was taken, no further byte is taken if and only if no arriving segment meets the guard of the payload branch, and one that does meets it in `CloseWait`, `LastAck` or `TimeWait`. |
| TcpClosing.TakesAfterFin | crates/network-stack/src/tcp.rs:619-637 | A concrete run that takes bytes in `CloseWait` and in `LastAck`, after the peer FIN. |
| TcpClosing.RunAfterFin | crates/network-stack/src/tcp.rs:639-653 | Once the peer FIN was taken, every run is in `CloseWait`, `LastAck`, `TimeWait`, `Closed` or `Reset`. |
| TcpClosing.StepTakes | crates/network-stack/src/tcp.rs:585-637 | An event adds to the received bytes exactly the payload of a segment that meets the guard. |
| TcpTheorems.RunKeepsSend | crates/network-stack/src/tcp.rs:397-528 | Every world of a run meets the sending and the log invariants. |
| TcpTheorems.RunKeepsReceive | crates/network-stack/src/tcp.rs:530-684 | Every world of a run fed by one peer meets the receiving and the acknowledgment invariants. |
| TcpSend.StepKeepsSend | crates/network-stack/src/tcp.rs:397-671 | Every API call, timer poll and arriving segment keeps the sending invariant. |
| TcpLog.StepKeepsLog | crates/network-stack/src/tcp.rs:445-528 | Every step keeps the invariant on what was emitted: faithful payloads, retry counts, delays between repetitions, the FIN last. |
| TcpReceive.StepKeepsReceive | crates/network-stack/src/tcp.rs:530-720 | Every step in which only the peer stream arrives keeps the receiving invariant. |
| TcpReceive.StepKeepsAcks | crates/network-stack/src/tcp.rs:423-436 | Every step keeps: emitted acknowledgments cover taken bytes only. |
| TcpReceive.NextPiece | crates/network-stack/src/tcp.rs:619-631 | A payload accepted at `receive_next` is exactly the next piece of the peer stream, although the number has wrapped. |
| TcpSend.AckEffect | crates/network-stack/src/tcp.rs:656-671 | An acceptable number lies between the two send variables counted from the segment in flight, and retires that segment exactly when it is the number past it. |
| TcpRuns.AckWindow | crates/network-stack/src/tcp.rs:757-763 | With at most 65,536 numbers in flight the two wrapped comparisons accept exactly the integers of the window. |
| TcpRuns.SerialOrder | crates/network-stack/src/tcp.rs:757-763 | Within half of the number space the wrapped order is the integer order. |
| TcpConnection.Connection.TryConnect | crates/network-stack/src/tcp.rs:336-395 | Succeeds exactly when handle, ports and MSS are non-zero, with the specified opening state. |
| TcpConnection.Connection.constructor | crates/network-stack/src/tcp.rs:336-395 | A new connection is the specified opening state. |
| TcpConnection.Connection.QueueSend | crates/network-stack/src/tcp.rs:397-413 | Refines the value-level step, in place, with every error case. |
| TcpConnection.Connection.RequestClose | crates/network-stack/src/tcp.rs:415-421 | Refines the value-level step. |
| TcpConnection.Connection.Abort | crates/network-stack/src/tcp.rs:438-443 | Refines the value-level step. |
| TcpConnection.Connection.PollTransmit | crates/network-stack/src/tcp.rs:445-528 | Refines the value-level step: retransmit, give up, send data, send FIN or nothing. |
| TcpConnection.Connection.AcknowledgeTo | crates/network-stack/src/tcp.rs:656-671 | Errs exactly on an unacceptable number, changing nothing; otherwise its loop leaves the acknowledged state. |
| TcpConnection.Connection.OnSegment | crates/network-stack/src/tcp.rs:530-654 | Refines the value-level step for every state and flag combination. |
| TcpConnection.Connection.AckPart | crates/network-stack/src/tcp.rs:601-617 | Refines the acknowledgment stage, including the state change it causes. |
| TcpConnection.Connection.DataSegment | crates/network-stack/src/tcp.rs:601-654 | Refines the in-order path: acknowledgment, payload, FIN. |
| TcpConnection.Connection.FinPart | crates/network-stack/src/tcp.rs:639-653 | Refines the FIN stage. |
| TcpConnection.Connection.Receive | crates/network-stack/src/tcp.rs:673-684 | Moves the oldest buffered bytes into the front of the output array and leaves the rest of both alone. |
| TcpConnection.Connection.DiscardReceived | crates/network-stack/src/tcp.rs:718-720 | Empties the receive buffer and changes nothing else. |
| TcpConnection.Connection.Tick | crates/network-stack/src/tcp.rs:734-742 | Refines the value-level step: `TimeWait` ends when its time has passed. |
| NoRollback.LoadNeverRollsBack | crates/certificate-database/src/storage.rs:73-247 | After every run of loads, persists and checks with torn or lying slot writes and failing state writes and crashes, a load that succeeds returns, for each kind, the content of a slot that validates to a version at least the last one a persist or a repairing load reported. |
| NoRollback.AckedOnlyGrows | crates/certificate-database/src/storage.rs:121-165 | The last reported version of each kind never falls and is never forgotten along a run. |
| NoRollback.RunKeeps | crates/certificate-database/src/storage.rs:73-247 | The store invariant holds in every world of every run. |
| NoRollback.StepKeeps | crates/certificate-database/src/storage.rs:73-191 | Each load, persist, check and crash keeps the store invariant, whatever faults it meets. |
| NoRollback.LoadIsFresh | crates/certificate-database/src/storage.rs:73-119 | Under the invariant any successful load, repairing or read-only, is at least as new as what was reported. |
| NoRollback.StateRecordRoundTrips | crates/certificate-database/src/storage.rs:321-330 | The state record meets the one codec law the store proof uses. |
| ShownFloor.FloorExactly | crates/certificate-database/src/storage.rs:59-119 | In every world of every run: the version a read-only load gives for a kind is a lower bound for every load of every continuation if and only if no writer session is open or that version was already reported by a persist or a repairing load (given that some bytes are not a valid snapshot, or nothing could spoil a slot). |
| ShownFloor.ShownIsFloor | crates/certificate-database/src/storage.rs:66-119 | The first half: under that condition no continuation, whatever faults it meets, can load anything older. |
| ShownFloor.ShownIsLost | crates/certificate-database/src/storage.rs:121-165 | The second half: otherwise persisting the shown bytes again, with a slot write that tears, is possible, and the next load gives an older version or none. |
| ShownFloor.RunKeepsExact | crates/certificate-database/src/storage.rs:73-191 | In every run an open session holds exactly the reported version of each reported kind, and of any other kind version zero and an active slot that is not valid. |
| ReadOnlyLoad.ReadOnlyIsNoFloor | crates/certificate-database/src/storage.rs:66-71 | A concrete run in which a read-only load shows version 5 and a later load version 3. |
| StateCodec.DecodeEncode | crates/certificate-database/src/lib.rs:162-225 | Every storable state is read back from its record. |
| StateCodec.EncodeDecode | crates/certificate-database/src/lib.rs:162-268 | Every accepted record is the encoding of what it decodes to: the encoding is canonical. |
| Storage.BackendFiles.Read | crates/certificate-database/src/storage.rs:35-35 | Reads a file, nothing, or a failure. |
| Storage.BackendFiles.WriteSync | crates/certificate-database/src/std_file.rs:93-107 | Truncates, writes, syncs: the file ends as the outcome says, from untouched to torn to stored. |
| Storage.WriteStateTo | crates/certificate-database/src/storage.rs:321-330 | Refines the value-level write of the state record. |
| Storage.LoadCandidateFrom | crates/certificate-database/src/storage.rs:212-229 | Refines the value-level read of one slot. |
| Storage.LoadKindFrom | crates/certificate-database/src/storage.rs:193-247 | Refines the choice of a snapshot: the recorded slot if it matches, else the newest valid one. |
| Storage.ApplyLoadedTo | crates/certificate-database/src/storage.rs:249-276 | Refines the update of the state and reports exactly whether it changed. |
| Storage.LoadDatabase | crates/certificate-database/src/storage.rs:59-119 | Refines the whole load, repairing or read-only, with every error path. |
| Storage.FinishLoad | crates/certificate-database/src/storage.rs:99-119 | Refines the repair of the state record at the end of a load. |
| Storage.PersistSnapshot | crates/certificate-database/src/storage.rs:121-165 | Refines the whole persist: rollback check, slot write, read back, state write, then the session. |
| Storage.MarkCheckedAt | crates/certificate-database/src/storage.rs:167-191 | Refines the check mark. |
| FreezeWord.WordIsExact | crates/newlib-runtime/src/callback_resources.rs:73-132 | In every world of every interleaving of any number of threads the word is the number of live preparations, or it is the frozen bit with or without the waiting bit, no preparation is live and some thread is capturing. |
| FreezeWord.CaptureExcludes | crates/newlib-runtime/src/callback_resources.rs:120-132 | A capture excludes every live preparation, every operation in progress and every other capture. |
| FreezeWord.CaptureHoldsStill | crates/newlib-runtime/src/callback_resources.rs:120-132 | No step changes the chain or the blocker count while a capture is held. |
| FreezeWord.CapturedIsOpaque | crates/newlib-runtime/src/callback_resources.rs:116-132 | A capture that succeeded saw only fork-opaque scopes, and they stay so while it is held. |
| FreezeWord.NobodyMissesTheThaw | crates/newlib-runtime/src/callback_resources.rs:23-105 | A parked thread is either announced in the frozen word or about to be woken, and a wake frees it. |
| FreezeWord.RunKeeps | crates/newlib-runtime/src/callback_resources.rs:15-132 | The protocol invariant holds in every world of every run. |
| ScopeChain.ApplySettles | crates/newlib-runtime/src/callback_resources.rs:261-327 | Publishing, marking, retiring and abandoning keep: the blocker count is the number of published scopes that are not fork-opaque, and contexts never decrease toward the top. |
| ScopeChain.AbandonedKeepsOuter | crates/newlib-runtime/src/callback_resources.rs:206-225 | Abandoning from a context removes exactly the scopes with at least that context and keeps the others in order. |
| ScopeChain.NoBlockers | crates/newlib-runtime/src/callback_resources.rs:120-132 | The blocker count is zero exactly when every published scope is fork-opaque. |
| ScopeChain.Scope.constructor | crates/newlib-runtime/src/callback_resources.rs:240-255 | A new scope holds its resource, is not published and has dropped nothing. |
| ScopeChain.Scope.DropResource | crates/newlib-runtime/src/callback_resources.rs:306-348 | Drops the resource if it is still there, and counts it. |
| ScopeChain.Chain.constructor | crates/newlib-runtime/src/callback_resources.rs:61-71 | A new chain is empty and valid. |
| ScopeChain.Chain.Activate | crates/newlib-runtime/src/callback_resources.rs:261-279 | Publishes the scope on top of the linked list; the list, the counter and the view agree afterwards. |
| ScopeChain.Chain.AllowForkOpaque | crates/newlib-runtime/src/callback_resources.rs:287-293 | Marks a published scope anywhere in the list and lowers the counter. |
| ScopeChain.Chain.Retire | crates/newlib-runtime/src/callback_resources.rs:306-327 | Unlinks the top scope if it was published, and drops its resource exactly once. |
| ScopeChain.Chain.AbandonFrom | crates/newlib-runtime/src/callback_resources.rs:206-225 | Its loop unlinks exactly the scopes with at least the context, drops each of their resources exactly once and no other. |
| ScopeChain.Chain.DiscardForkOpaque | crates/newlib-runtime/src/callback_resources.rs:140-150 | Empties the chain exactly when nothing blocks, nothing is deferred and the word is zero; then every dropped scope was fork-opaque. |
| ElfTheorems.SignThenVerifyExactly | crates/elf-signature/src/codec.rs:202-312 | For every file `sign_adhoc` accepts, verification of the output succeeds if and only if the file has no manifest, or its program headers, read under the file header signing writes, describe no note or loaded segment over the manifest; it then returns the ad-hoc signature, the digest of the normalized output and the manifest of the input. |
| ElfCrossing.SignedButRefused | crates/elf-signature/src/codec.rs:202-312 | A concrete file, whose program header starts at byte 62, is signed and its output is refused: the condition above cannot be dropped. |
| ElfTheorems.ClearSurvives | crates/elf-signature/src/codec.rs:442-519 | The condition holds for every file with no program headers, or with program headers from byte 64 on. |
| ElfTheorems.SignThenVerify | crates/elf-signature/src/codec.rs:202-294 | For those files whatever `sign_adhoc` accepts `verify` accepts, as ad hoc and without a key. |
| ElfTheorems.EmbedSignVerify | crates/elf-signature/src/manifest.rs:20-97 | After embedding a manifest and signing, `verify_image` succeeds under the same condition and returns exactly the embedded text. |
| ElfTheorems.EmbedThenLocate | crates/elf-signature/src/manifest.rs:20-97 | An embedded manifest is located again, byte for byte. |
| ElfPatch.ParsedNotesInside | crates/elf-signature/src/codec.rs:755-816 | Wherever the program header table starts, a note segment of an extended file that was scanned lies inside the input: no scan reads the new record through it. |
| ElfPatch.NoteWhere | crates/elf-signature/src/codec.rs:782-798 | A program header inside the file header that says "note segment" keeps its range when the header is patched, except at byte 27, where it then starts at zero. |
| ElfPatch.HeaderIsNoNote | crates/elf-signature/src/codec.rs:593-636 | A note area that starts at the file header is always refused. |
| ElfTheorems.RecordIsIsolated | crates/elf-signature/src/codec.rs:526-685 | A located record comes from the one section with the reserved name, and its 146 bytes overlap neither the header nor a table nor a loaded segment nor another section with bytes in the file. |
| ElfTheorems.AppendKeeps | crates/elf-signature/src/codec.rs:442-519 | Appending a section keeps every input byte but three header fields, every section and every name, and the new name stands between two NULs at the end of the old name table. |
| ElfTheorems.FilledParses | crates/elf-signature/src/codec.rs:202-208 | Rewriting bytes of a located descriptor does not change the parse. |
| ElfTheorems.ManifestKept | crates/elf-signature/src/manifest.rs:42-97 | Extending a file keeps its manifest exactly when no segment of the extension crosses it. |
| ElfTheorems.OwnNote | crates/elf-signature/src/codec.rs:399-438 | A freshly written note, scanned, is one signature note. |
| ElfTheorems.OwnRecord | crates/elf-signature/src/codec.rs:691-727 | A freshly written descriptor is parsed as the blank ad-hoc record. |
| ElfAgree.ParseSame | crates/elf-signature/src/codec.rs:733-922 | Files that agree on the header and on the three tables have the same parse. |
| ElfAgree.NotesAgree | crates/elf-signature/src/codec.rs:593-636 | Scanning notes does not read inside the descriptor of a signature note. |
| ElfAgree.RecordLocated | crates/elf-signature/src/codec.rs:526-591 | A located record was read through the one section with the reserved name. |
| ElfAgree.LocateAgree | crates/elf-signature/src/codec.rs:526-591 | Filling the digest changes the digest of the located record and nothing else. |
| ElfReparse.AppendReparses | crates/elf-signature/src/codec.rs:442-519 | A parsed extension has the input sections with their names, then exactly the two new ones. |
| ElfAppend.AppendHolds | crates/elf-signature/src/codec.rs:442-519 | Where the pieces of an extended file are and what its patched header reads. |
| ElfNames.WithNamesIs | crates/elf-signature/src/codec.rs:881-894 | Resolved section names are NUL-free, in the name table, and followed by a NUL. |
| ElfNames.NameAtIs | crates/elf-signature/src/codec.rs:883-893 | One resolved name is the bytes up to the first NUL. |
| ElfLoops.ParseImage | crates/elf-signature/src/codec.rs:733-922 | Computes the parse with loops and every refusal of the source. |
| ElfLoops.ParseProgramsOf | crates/elf-signature/src/codec.rs:755-816 | Computes the program header table or refuses it. |
| ElfLoops.ParseProgramHeaders | crates/elf-signature/src/codec.rs:782-809 | Its loop collects the note and loaded segments of the headers. |
| ElfLoops.ParseSections | crates/elf-signature/src/codec.rs:818-922 | Computes the section table or refuses it. |
| ElfLoops.SectionsOf | crates/elf-signature/src/codec.rs:818-922 | The same from the header fields. |
| ElfLoops.NamedSections | crates/elf-signature/src/codec.rs:842-894 | Reads and names the sections. |
| ElfLoops.NameFrom | crates/elf-signature/src/codec.rs:865-894 | Checks the name table and resolves the names. |
| ElfLoops.ReadSections | crates/elf-signature/src/codec.rs:842-864 | Its loop reads the headers, refusing a section outside the file. |
| ElfLoops.NameAll | crates/elf-signature/src/codec.rs:881-894 | Its loop resolves the names under a shrinking budget. |
| ElfLoops.FirstZeroIn | crates/elf-signature/src/codec.rs:888-892 | Its loop finds the first NUL. |
| ElfLoops.ParseNoteArea | crates/elf-signature/src/codec.rs:593-636 | Its loop finds the signature notes of an area and refuses a third. |
| ElfLoops.ScanOne | crates/elf-signature/src/codec.rs:555-560 | Scans areas in turn, keeping at most two finds. |
| ElfLoops.ScanAll | crates/elf-signature/src/codec.rs:538-560 | Scans every area within the scan limit. |
| ElfLoops.FindSection | crates/elf-signature/src/codec.rs:527-537 | Its loop finds the one section with a name and refuses a second or one that is not a note section. |
| ElfLoops.LocateRecordIn | crates/elf-signature/src/codec.rs:526-591 | Computes the located record, nothing, or a refusal. |
| ElfLoops.CopyHeaders | crates/elf-signature/src/codec.rs:492-496 | Its loop copies the section headers behind what was written. |
| ElfLoops.AppendSectionTo | crates/elf-signature/src/codec.rs:442-519 | Computes the extended file. |
| ElfLoops.FillDigest | crates/elf-signature/src/codec.rs:202-208 | Writes the digest into the array in place and nothing else. |
| HttpFraming.PrefixFree | crates/http-client/src/response.rs:198-286 | No response accepted before the end of the stream is a strict prefix of another. |
| HttpFraming.NoAcceptedExtension | crates/http-client/src/response.rs:198-422 | A response accepted before the end of the stream is refused with anything added to it. |
| HttpFraming.ChunksRoundTrip | crates/http-client/src/response.rs:356-442 | Any body of at most 4 MiB cut into chunks of 1 to 256 KiB, with any UTF-8 extensions that fit the line limit and any trailers the decoder accepts, decodes to itself. |
| HttpFraming.ChunkedResponse | crates/http-client/src/response.rs:198-286 | Any accepted chunked head followed by a blank line and such a body decodes to that head and that body. |
| HttpFraming.HeadBlank | crates/http-client/src/response.rs:198-216 | A head the decoder accepts contains no blank line, so the first one found is the one behind it. |
| HttpFraming.TrailerBlank | crates/http-client/src/response.rs:383-442 | Trailers the decoder accepts contain no blank line, so they end where they were meant to. |
| HttpStream.CutsDoNotMatter | crates/http-client/src/response.rs:98-148 | Error or success, parsed head and output of a download depend only on the concatenated input, not on how it was cut. |
| HttpStream.RunIsOneFeed | crates/http-client/src/response.rs:98-139 | A run of feeds agrees with one feed of everything. |
| HttpStream.FeedJoin | crates/http-client/src/response.rs:98-139 | Two feeds agree with one feed of both. |
| HttpAgreement.StreamedIsBuffered | crates/http-client/src/response.rs:109-286 | What the streaming decoder finishes with at most 4 MiB, the buffered decoder decodes to the same status, headers and body. |
| HttpAgreement.BufferedIsStreamed | crates/http-client/src/response.rs:109-286 | A buffered 200 with Content-Length is accepted by the streaming decoder, however it is cut, if and only if it has no content coding but identity; and then with the same headers and body. |
| HttpAgreement.AcceptedShape | crates/http-client/src/response.rs:109-148 | An accepted download is a head within the limit, a blank line and exactly the announced number of bytes. |
| HttpDecoders.StreamingResponseDecoder.constructor | crates/http-client/src/response.rs:90-92 | A fresh decoder. |
| HttpDecoders.StreamingResponseDecoder.Feed | crates/http-client/src/response.rs:98-107 | Refines the value-level feed: once failed, it stays failed. |
| HttpDecoders.StreamingResponseDecoder.FeedInner | crates/http-client/src/response.rs:109-139 | Refines header collection and body counting. |
| HttpDecoders.StreamingResponseDecoder.ReadHeader | crates/http-client/src/response.rs:114-131 | Its loop takes header bytes one by one up to the blank line or the limit. |
| HttpDecoders.StreamingResponseDecoder.Finish | crates/http-client/src/response.rs:141-148 | Succeeds exactly on a complete response. |
| HttpDecoders.ResponseDecoder.constructor | crates/http-client/src/response.rs:30-33 | An empty decoder. |
| HttpDecoders.ResponseDecoder.Feed | crates/http-client/src/response.rs:35-45 | Appends unless the total passes the limit, then it changes nothing. |
| HttpDecoders.ResponseDecoder.Decode | crates/http-client/src/response.rs:47-50 | Computes the specified decoding of what was fed. |
| HttpDecoders.DecodeBody | crates/http-client/src/response.rs:251-279 | Computes the body by chunks, by length or up to the end of the stream. |
| HttpDecoders.ReadHead | crates/http-client/src/response.rs:212-250 | Computes the head of a buffered response, with every refusal. |
| HttpDecoders.ReadStreamHead | crates/http-client/src/response.rs:155-196 | Computes the head of a streamed response, with every refusal. |
| HttpDecoders.ReadHeaders | crates/http-client/src/response.rs:217-250 | Its loop folds the header lines of either decoder, refusing repeated framing fields. |
| HttpDecoders.DecodeChunked | crates/http-client/src/response.rs:356-422 | Its loop collects chunks with a cursor and computes the specified chunked decoding, with the limits of the source. |
| HttpDecoders.NextChunk | crates/http-client/src/response.rs:360-420 | One chunk and how far it reaches. |
| HttpDecoders.EndOfChunks | crates/http-client/src/response.rs:383-403 | The end of the chunks: a bare line end or checked trailers. |
| HttpDecoders.ValidateTrailers | crates/http-client/src/response.rs:424-442 | Decides a trailer section. |
| HttpDecoders.ReadTrailers | crates/http-client/src/response.rs:433-441 | Its loop checks the trailer lines and their number. |
| HttpDecoders.FindSequence | crates/http-client/src/response.rs:448-452 | Its loop finds the first place of a byte string. |
| UdpRuns.AtMostOneAccepts | crates/network-stack/src/udp.rs:241-280 | In every reachable table at most one binding accepts a destination. |
| UdpOrder.RunsAgree | crates/network-stack/src/udp.rs:142-291 | Two runs of the same events from tables that hold the same bindings in another order report the same at every event, and their tables keep holding the same bindings. |
| UdpOrder.OrderDoesNotMatter | crates/network-stack/src/udp.rs:215-262 | Two orders of the same bindings select the same binding for every destination. |
| UdpRuns.DeliveryIsFifo | crates/network-stack/src/udp.rs:241-291 | What was enqueued to a bound socket is what it received followed by its queue, in order; queue and socket limits hold. |
| UdpRuns.IdentitiesAreFresh | crates/network-stack/src/udp.rs:142-179 | Identities are issued in increasing order, within 64 bits, and never again. |
| UdpRuns.ReceivedIsPrefix | crates/network-stack/src/udp.rs:241-291 | Every identity ever issued, bound or not, received in order a prefix of what was queued to it. |
| UdpRuns.EphemeralExact | crates/network-stack/src/udp.rs:319-336 | Ephemeral allocation fails exactly when all 16,384 ports conflict, and otherwise returns a free port of the range. |
| UdpRuns.StepKeeps | crates/network-stack/src/udp.rs:142-291 | Every operation keeps the table invariant. |
| UdpRuns.RunKeeps | crates/network-stack/src/udp.rs:142-291 | Every reachable table meets the invariant: no two bindings overlap. |
| UdpTable.UdpSocketTable.constructor | crates/network-stack/src/udp.rs:121-130 | An empty table with its limits. |
| UdpTable.UdpSocketTable.PositionOf | crates/network-stack/src/udp.rs:208-213 | Its loop finds the binding of an identity. |
| UdpTable.UdpSocketTable.SelectedBy | crates/network-stack/src/udp.rs:250-257 | Its loop finds the first binding that accepts a destination. |
| UdpTable.UdpSocketTable.ConflictsWith | crates/network-stack/src/udp.rs:313-317 | Its loop decides whether an endpoint overlaps a binding. |
| UdpTable.UdpSocketTable.AllocateEphemeral | crates/network-stack/src/udp.rs:319-336 | Its loop tries the ports from the cursor on, wrapping at the end of the range, and leaves the cursor past the result. |
| UdpTable.UdpSocketTable.BindEndpoint | crates/network-stack/src/udp.rs:142-179 | Refines the value-level step with every refusal. |
| UdpTable.UdpSocketTable.UnbindEndpoint | crates/network-stack/src/udp.rs:215-221 | Refines removal that moves the last binding into the gap. |
| UdpTable.UdpSocketTable.SetPeer | crates/network-stack/src/udp.rs:194-206 | Refines the value-level step. |
| UdpTable.UdpSocketTable.Enqueue | crates/network-stack/src/udp.rs:241-280 | Refines delivery: selection, peer filter, limits, append. |
| UdpTable.UdpSocketTable.ReceiveFor | crates/network-stack/src/udp.rs:283-291 | Refines taking the oldest datagram. |
| Checksum.ChecksumIsOnesComplement | crates/network-stack/src/checksum.rs:1-14 | Up to 131,074 bytes the 32-bit accumulator does not wrap and the checksum is the complement of the one's-complement sum, defined by end-around carry. |
| Checksum.ChecksumExactly | crates/network-stack/src/checksum.rs:1-14 | For every input of any length the checksum is the complement of the one's-complement sum if and only if the word sum fits 32 bits, or loses a multiple of 65,535 carries out of them and does not wrap to zero. |
| Checksum.BoundIsExact | crates/network-stack/src/checksum.rs:1-14 | 131,074 bytes is the longest length at which no input fails: all ones of 131,075 bytes do. |
| Checksum.StoredVerifies | crates/network-stack/src/checksum.rs:1-18 | Storing the checksum in a zeroed even-offset field makes verification succeed, at any length, although the accumulator may wrap. |
| Checksum.FoldIsCanonical | crates/network-stack/src/checksum.rs:10-12 | Folding carries reaches the canonical 16-bit residue. |
| Checksum.OnesSumIsCanonical | crates/network-stack/src/checksum.rs:1-14 | The sum with end-around carry at every word is that residue of the plain sum. |
| Checksum.ComplementFolds | crates/network-stack/src/checksum.rs:10-18 | A sum plus its complement folds to all ones. |
| Checksum.FoldLoop | crates/network-stack/src/checksum.rs:10-12 | Its loop computes the fold. |
| Checksum.ChecksumLoop | crates/network-stack/src/checksum.rs:1-14 | Its loops compute the checksum, with the wrapping accumulator. |
| Wire.UdpRoundTrip | crates/network-stack/src/udp.rs:16-74 | Every datagram that fits a packet and the buffer is encoded, with a checksum field that is never zero, and decodes to itself, with anything behind it. |
| Wire.TcpRoundTrip | crates/network-stack/src/tcp.rs:45-133 | Every segment with supported flags and no urgent pointer that fits, with or without the MSS option, is encoded and decodes to itself. |
| Wire.StoredSumValid | crates/network-stack/src/udp.rs:350-356 | Storing the complement of the pseudo-header and packet sum makes verification succeed. |
| Wire.PacketSumFits | crates/network-stack/src/tcp.rs:168-191 | The sum over pseudo-header and any packet fits the 32-bit accumulator. |
| Wire.SumLoop | crates/network-stack/src/tcp.rs:181-191 | Its loop computes the word sum without overflow. |
| Wire.OptionsLoop | crates/network-stack/src/tcp.rs:136-166 | Its loop computes the parsed options or the error. |
| CertificateCodec.DecodeEncode | crates/certificate/src/lib.rs:227-406 | Every certificate that encodes is read back from its encoding, whose length is `encoded_len`. |
| CertificateCodec.EncodeDecode | crates/certificate/src/lib.rs:253-406 | Every accepted byte string is the encoding of what it decodes to. |
| CertificateCodec.ValidIsSorted | crates/certificate/src/lib.rs:585-605 | In a valid certificate the capabilities are strictly increasing throughout, although only neighbours are compared. |
| CertificateCodec.AdjacentScopes | crates/certificate/src/lib.rs:559-582 | In checked scopes any two, not only neighbours, are in strict order. |
| CertificateCodec.AllowsCapability | crates/certificate/src/lib.rs:501-506 | For every verified certificate the binary search agrees with membership. |
| CertificateCodec.BinarySearch | crates/certificate/src/lib.rs:501-506 | On a sorted list the search finds exactly the members. |
| CertificateLoops.ReadScopes | crates/certificate/src/lib.rs:346-363 | Its loop reads scopes at a cursor, with every refusal. |
| CertificateLoops.ReadCapabilities | crates/certificate/src/lib.rs:365-375 | Its loop reads capabilities at a cursor, with every refusal. |
| CertificateLoops.ReadBody | crates/certificate/src/lib.rs:339-381 | Reads the variable part up to its end. |
| CertificateLoops.WriteBody | crates/certificate/src/lib.rs:467-486 | Its loops append the variable part. |
| CertificateLoops.ValidateScopes | crates/certificate/src/lib.rs:559-582 | Its loop decides scope counts, lengths, kinds and order. |
| CertificateLoops.ValidateCapabilities | crates/certificate/src/lib.rs:585-605 | Its loop decides capability counts, lengths and order. |
| TcpReports.TakenIsAcknowledged | crates/network-stack/src/tcp.rs:619-653 | In every run, a segment whose bytes or FIN were taken is reported for acknowledgment. |
| TcpReports.ReportedExactly | crates/network-stack/src/tcp.rs:585-654 | In every run, what a segment on an open connection reports, by its integer position against the next expected one: duplicate, out of order, acknowledge, duplicate or accepted acknowledgment, closed, and the two errors, each in both directions. |
| TcpReports.ResetExactly | crates/network-stack/src/tcp.rs:538-548 | A segment resets the connection, and then empties it and changes nothing else, exactly when its RST acknowledges the SYN or stands at the next number. |
| TcpLimits.QueuedExactly | crates/network-stack/src/tcp.rs:397-413 | In every run bytes are accepted exactly when the connection can send and they fit with everything accepted and not yet acknowledged. |
| TcpLimits.RequestedExactly | crates/network-stack/src/tcp.rs:415-421 | In every run closing is pending exactly when it was asked for at a time the connection could send. |
| TcpLimits.PolledExactly | crates/network-stack/src/tcp.rs:445-528 | In every run, exactly when a poll sends nothing, repeats, gives up, sends data, and how much, or sends the FIN. |
| TcpLimits.AnnouncedExactly | crates/network-stack/src/tcp.rs:549-617 | The peer segment size, window and first number are those the last taken segment and the SYN-ACK announced; only the SYN-ACK that acknowledges the SYN establishes. |
| TcpLimits.RepeatedExactly | crates/network-stack/src/tcp.rs:574-586 | The SYN-ACK that opened the connection is acknowledged again exactly while nothing was taken or acknowledged since. |
| TcpLimits.LingersExactly | crates/network-stack/src/tcp.rs:639-742 | In every run a connection that entered `TimeWait` is closed by a tick exactly when 30 seconds have passed since, whatever arrived meanwhile. |
| Reload.ReloadExactly | crates/certificate-database/src/storage.rs:73-119 | A load without faults of files whose record is the session answers exactly that state and the active slots, recovers nothing and writes nothing, if and only if no kind has a valid snapshot that was never acknowledged. |
| Reload.RecoversNewest | crates/certificate-database/src/storage.rs:193-247 | If any slot is valid there is an answer: the snapshot the record describes, or one no slot is newer than; the other slot is taken only if strictly newer. |
| Reload.PersistThenLoad | crates/certificate-database/src/storage.rs:121-165 | After every persist that succeeded in a run its kind has the new snapshot with the given tag and check time and the other kind is unchanged; the next load answers exactly that if and only if the other kind has no valid snapshot that was never acknowledged. |
| Reload.MarkThenLoad | crates/certificate-database/src/storage.rs:167-191 | After every check that was recorded in a run: the new check time, and all other metadata and bytes kept; with the same condition on the next load. |
| Reload.LoadThenLoad | crates/certificate-database/src/storage.rs:59-119 | After every load that succeeded in a run, loading again answers the same and changes nothing. |
| Reload.PersistSucceedsExactly | crates/certificate-database/src/storage.rs:121-165 | In every world of every run a persist without faults succeeds if and only if the snapshot is valid and newer than the version last acknowledged, its tag can be stored and the generation is not used up. |
| FreezeWord.DecidedExactly | crates/newlib-runtime/src/callback_resources.rs:120-132 | In every run a capture leaves its tests only by deciding, and then succeeds if and only if no callback is deferred, every published scope is fork-opaque and, when emptiness was asked for, none is published. |
| FreezeWord.DecidedThaws | crates/newlib-runtime/src/callback_resources.rs:23-30 | In every run a decided capture leaves its place only by thawing, which zeroes the word and wakes exactly when a waiter was announced. |
| ElfVerified.VerifiedExactly | crates/elf-signature/src/codec.rs:250-312 | An image verifies exactly when its manifest is readable, its record is legal, its stored digest is the hash of the file with digest and signature zeroed, and a keyed record is confirmed by its key. |
| ElfVerified.VerifiedIsHashed | crates/elf-signature/src/codec.rs:375-397 | What verifies stores the hash of its own zeroed bytes, and reports it. |
| ElfVerified.ChangedIsRefused | crates/elf-signature/src/codec.rs:202-294 | A file made from a signed one, with its record at the same place and the same digest, verifies only if its zeroed form has the same hash; then it is the signed file, or the two forms are a collision. |
| ElfAccepted.ParsedExactly | crates/elf-signature/src/codec.rs:733-922 | Exactly which files parse: the header, every program header, every section header, the name table and every name, with powers of two and remainders said as such. |
| ElfAccepted.ParsedSays | crates/elf-signature/src/codec.rs:733-922 | What a parsed file says is what its bytes say: sections with their names, the note and load segments, the tables. |
| ElfAccepted.NamesExactly | crates/elf-signature/src/codec.rs:924-932 | Names are resolved exactly when each ends in a NUL inside the table and together they fit the budget. |
| ElfLocated.NotesExactly | crates/elf-signature/src/codec.rs:593-636 | A note area is read exactly when notes tile it, and yields the descriptors of the signature notes. |
| ElfLocated.RecordExactly | crates/elf-signature/src/codec.rs:526-689 | Exactly when a parsed file holds a record: one note section of the reserved name, one signature note, seen through it and at most once more through a segment over the same bytes, in bytes nothing else uses. |
| ElfLocated.ManifestExactly | crates/elf-signature/src/manifest.rs:42-97 | Exactly when a parsed file holds a manifest, and which text. |
| ElfLocated.SignedOnlyOnce | crates/elf-signature/src/codec.rs:399-440 | A signed file can neither be signed again nor given a manifest. |
| ElfLocated.EmbeddedOnlyOnce | crates/elf-signature/src/manifest.rs:20-40 | A file with a manifest cannot be given another. |
| HttpMessages.NumberReads | crates/http-client/src/response.rs:229-231 | Every 64-bit number is read back from its decimal form, with or without a plus sign. |
| HttpMessages.FieldReads | crates/http-client/src/response.rs:317-354 | Every well-formed header line is read back as its name and value. |
| HttpMessages.StatusReads | crates/http-client/src/response.rs:288-315 | Every status line is read back as its code and reason. |
| HttpMessages.LengthResponse | crates/http-client/src/response.rs:198-286 | A response written out with a length field decodes, buffered, to its parts. |
| HttpMessages.LengthDownload | crates/http-client/src/response.rs:98-196 | The same response decodes, streamed in any pieces, to its parts. |
| HttpMessages.TransferResponse | crates/http-client/src/response.rs:198-422 | A response written out with a chunked body decodes to its parts. |
| HttpMessages.CloseResponse | crates/http-client/src/response.rs:251-279 | Without framing a body lasts to the end of the stream: incomplete before, then what was sent, up to 4 MiB; a status without a body has none. |
| HttpHeads.FieldExactly | crates/http-client/src/response.rs:317-354 | A line is read as a header field exactly when it spells it, with any blanks around the value. |
| HttpHeads.StatusExactly | crates/http-client/src/response.rs:288-315 | A line is read as a status exactly when it spells it. |
| HttpHeads.HeadExactly | crates/http-client/src/response.rs:198-250 | The buffered decoder reads a head exactly when its lines spell a status and at most 64 headers whose lengths agree, which name `chunked` at most once, and which do not frame twice. |
| HttpHeads.StreamHeadExactly | crates/http-client/src/response.rs:155-196 | The streaming decoder reads a head exactly when it spells status 200 and headers with one length, no transfer coding and no content coding but identity. |
| HttpBodies.NumberExactly | crates/http-client/src/response.rs:229-231 | Exactly which byte strings are read as which 64-bit number. |
| HttpBodies.SizeExactly | crates/http-client/src/response.rs:356-380 | Exactly which lines announce which chunk size. |
| HttpBodies.TrailersExactly | crates/http-client/src/response.rs:424-442 | Exactly which trailers are accepted. |
| HttpBodies.ChunkedExactly | crates/http-client/src/response.rs:356-422 | A chunked payload decodes to a body exactly when it is that body in chunks, with acceptable trailers at the very end, and at most 4 MiB long. |
| HttpBodies.DecodedExactly | crates/http-client/src/response.rs:198-286 | Exactly which byte strings the buffered decoder accepts, and as which response. |
| HttpBodies.DownloadedExactly | crates/http-client/src/response.rs:98-196 | Exactly which inputs, cut in whatever pieces, the streaming decoder accepts, and what it writes. |
| UdpPeers.PeerIsLastSet | crates/network-stack/src/udp.rs:194-206 | In every run the peer of a socket is the last one set for it while it was bound. |
| UdpPeers.ArrivalExactly | crates/network-stack/src/udp.rs:241-280 | In every run, exactly what becomes of a datagram a socket accepts: queued, last and to that socket alone, unless it is too long, the last peer set is someone else, or the queue is full. |
| UdpPeers.QueuedWasHeard | crates/network-stack/src/udp.rs:194-280 | Every packet ever queued to an identity arrived while the last peer set for it was its sender or there was none. |
| UdpPeers.BindExactly | crates/network-stack/src/udp.rs:142-179 | In every run, exactly when an endpoint is bound, and where. |
| UdpPeers.UnbindExactly | crates/network-stack/src/udp.rs:215-221 | Releasing an identity takes away its socket and no other. |
| UdpPeers.ReceiveExactly | crates/network-stack/src/udp.rs:283-291 | In every run receiving hands out the oldest packet not yet received, nothing exactly when all were, and an error exactly when the identity is not bound. |
| UdpPeers.OverlapIsShared | crates/network-stack/src/udp.rs:97-102 | Two endpoints overlap exactly when some destination would reach both. |
| WireAccepted.UdpAcceptedExactly | crates/network-stack/src/udp.rs:16-39 | Exactly which packets decode to which datagram: the sum with the pseudo-header is all ones, or the checksum field is zero. |
| WireAccepted.TcpAcceptedExactly | crates/network-stack/src/tcp.rs:95-134 | Exactly which packets decode to which segment: the sum is all ones, the header legal, and the options spell a list whose last size counts. |
| WireAccepted.OptionsExactly | crates/network-stack/src/tcp.rs:136-166 | Option bytes are read exactly when they spell a list of options. |
| WireAccepted.UdpSentExactly | crates/network-stack/src/udp.rs:41-80 | Exactly which datagrams are encoded, with each refusal, and they read back. |
| WireAccepted.TcpSentExactly | crates/network-stack/src/tcp.rs:45-93 | Exactly which segments are encoded, with each refusal, and they read back. |
| WireAccepted.TcpDamageIsFound | crates/network-stack/src/tcp.rs:95-191 | Changing any one 16-bit word of an accepted segment to another value makes it refused. |
| WireAccepted.UdpDamageIsFound | crates/network-stack/src/udp.rs:16-39 | Changing one word of a checksummed datagram outside its length is found, exactly unless it clears the checksum. |
| CertificateTrust.AcceptedExactly | crates/certificate/src/lib.rs:408-440 | A certificate speaks for a package exactly when it is valid, signed by the usable root it names, the time is in its range, and a scope covers the package name. |
| CertificateTrust.RefusalIsTrue | crates/certificate/src/lib.rs:408-440 | Each refusal names something that is wrong. |
| CertificateTrust.MatchesWholeSegments | crates/certificate/src/lib.rs:93-103 | The byte comparison decides coverage by whole dotted segments, for any two byte strings. |
| CertificateTrust.ValidExactly | crates/certificate/src/lib.rs:198-225 | Exactly which certificates are valid. |
| CertificateTrust.PackageIdExactly | crates/certificate/src/lib.rs:525-548 | A package name is legal exactly when it has two or more legal segments in at most 255 bytes. |
| CertificateTrust.ScopesExactly | crates/certificate/src/lib.rs:559-583 | Checking neighbours decides that every scope is legal and every two are in strict order. |
| CertificateTrust.CapabilitiesExactly | crates/certificate/src/lib.rs:585-607 | Checking neighbours decides that every capability is legal and every two are in strict order. |
| CertificateTrust.LegalIsSmall | crates/certificate/src/lib.rs:219-246 | The other limits keep every certificate under 198,129 bytes, so the size limit refuses nothing. |
| Utf8.ValidExactly | crates/certificate/src/lib.rs:339-375 | A byte string passes the UTF-8 check exactly when it encodes scalar values. |
| Reload.LoadSucceedsExactly | crates/certificate-database/src/storage.rs:59-119 | Exactly when a load succeeds, whatever fails: the files it needs can be read, no snapshot found is refused, and a repair, if wanted and needed, is written. |
| Reload.PersistUnderFaults | crates/certificate-database/src/storage.rs:121-165 | Under any faults a persist succeeds exactly when it would without them, the bytes are in the slot and both writes report success. |
| StateCodec.TagExactly | crates/certificate-database/src/lib.rs:270-290 | A tag can be stored exactly when it is absent, or quoted visible text, weak or strong, of at most 128 bytes. |
| FreezeWord.OperationsAreSerial | crates/newlib-runtime/src/callback_resources.rs:23-132 | In every run the chain between operations is what the finished operations make of it one after the other, whatever shapes the threads saw in between. |
| CertificateTrust.InvalidIsTrue | crates/certificate/src/lib.rs:198-225 | Every validation error names something that is wrong. |
| HttpHeads.LinesJoined | crates/http-client/src/response.rs:214-216 | Splitting a head into lines loses nothing. |
| HttpHeads.LinesAreSingle | crates/http-client/src/response.rs:214-216 | No line of a head holds a line end. |
| ElfLocated.ScanExactly | crates/elf-signature/src/codec.rs:541-560 | The scan of all note areas succeeds exactly when each lies inside the file and is made of notes. |
| ElfLocated.NoRecordExactly | crates/elf-signature/src/codec.rs:526-560 | A file has no record exactly when no section has the name, every note reads and none is a signature note. |
| UdpPeers.ArrivalOutcome | crates/network-stack/src/udp.rs:241-280 | In every run a datagram that is not too long is refused as a mismatch exactly when no socket listens to it, for capacity exactly when the one that does is full, and is otherwise queued. |
| HttpPrefixes.PrefixIsIncomplete | crates/http-client/src/response.rs:198-422 | Every strict prefix of a message accepted without waiting for the end of the stream is reported incomplete, or ended too early at the end of the stream, and as nothing else. |
| HttpPrefixes.OtherStatus | crates/http-client/src/response.rs:155-168 | A streamed head with any other status is refused for it, the five redirects as such. |
| FreezeWord.ByTheirOwners | crates/newlib-runtime/src/callback_resources.rs:23-132 | In every run a preparation is dropped, and an operation begun under it, only by the thread that took it, and an operation finished only by the thread that began it. |

## Left out

- Passive open, `SynReceived`, listeners and the connection table (`tcp/passive.rs`, `tcp/dispatch.rs`): the model covers connections made by `try_connect`.
- SHA-256, Ed25519 and key parsing are arbitrary functions and predicates; `sign_ed25519` is not modelled.
- Allocation failure, zeroizing, pinning and raw-pointer details.
- Error texts and payloads: every ELF refusal is one value, and certificate decoding errors carry no offsets.
- Encoders of state records, certificates, datagrams and segments return values of a known length; writing into a caller's buffer in place is not modelled.
- One writer session at a time: the store runs have a single open session, and read-only loads beside it.
- A stored state record that is torn is taken not to decode to an unrelated state.
- An entity tag that is a lone quote, or `W/` and a lone quote, makes the source slice out of range (`crates/certificate-database/src/lib.rs:277-284`); the model calls it invalid.
- Memory orderings weaker than sequential consistency: each atomic operation is one step, waiting is compare-and-park, and a wake frees every parked thread.
- `ScopeChain` takes callback deferral as a parameter; deferral guards and notifications are not modelled.
- Sinks that refuse bytes: the streaming decoder is modelled with a sink that accepts everything.
- The port-only UDP helpers (`bind`, `unbind`, `receive`, `queued`) and peeking.
- ARP, DHCP, DNS, routing, Ethernet, the fixed wire messages, the rest of the C runtime and the scripts: they would add small members only.
