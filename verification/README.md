# Verification of the UU remote bridge

A Dafny model of the parts of this repository whose correctness is a matter of
algorithm and protocol, with proofs. `dafny verify dfyconfig.toml` checks it.

| module | what it models |
|---|---|
| `Basics` | bytes and optional values |
| `InputTypes` | the input records and constants that broker and helper share |
| `Utf8` | the encoder of the helper, the recogniser of the clipboard helper, and the grammar of RFC 3629 they both serve |
| `Utf16Text` | the helper's streaming UTF-16 decoder with its carried surrogate and CR |
| `SemanticEdit` | the broker's credit of inserted characters and the clamp on Backspaces |
| `ChordTranslator` | the translation of phone text into key chords and segments |
| `X11Helper` | a session of the native helper: paste, keys, buttons, and what is held down |
| `InputBroker` | the broker's routes: clipboard text, X11 keys, and the relay as fallback |
| `RevisionSafety` | broker, helper and document together |
| `BrokerRuns` | the broker object over many batches, whatever becomes of each |
| `BackspaceKey` | where the Backspace key of the X server is after a batch |
| `SelectionStatus` | the line reader for the selection owner's diagnostics |
| `LoginDigest` | the directory digest and the login comparison of a promotion |
| `Promotion` | the promotion transaction, its recovery, and the manager that drives it |
| `ControllerTrace` | the pairing of recorded presses |
| `MaskedSearch`, `ReleasePatch`, `PatchedFile` | the masked search, disjoint patches, and the patch and restore commands |
| `NameFilter`, `IfAddrsFilter`, `NameIndexFilter` | the preloaded interface lists and their allocations |
| `TerminalProxy`, `TerminalBridge` | the terminal frames, their two senders and their parser |

Code that changes things step by step is modelled by methods and classes that
do the same; each is proved against functions of its inputs, and the theorems
are lemmas about those functions or invariants over runs. System calls are
nondeterministic: each may fail where the code checks for it. A crash of a
promotion may follow every step, including those of recovery.

## Results that are not what one might expect

* A reset or expiry of the broker's allowance does not reach the helper. If the
  helper holds a trailing CR, the next LF is swallowed there but credited here,
  and one Backspace reaches older text. `RevisionSafety.SafeIff` gives the exact
  condition for every state, `RevisionSafety.ResetIsSafeIff` for a reset.
* `send_x11_clipboard_text` resets the allowance when a send fails, but not when
  it gives a batch up at an untranslatable input after sending a segment.
  `RevisionSafety.AbandonedIsSafeIff` says when that is safe, and
  `RevisionSafety.AbandonedBatchKeepsStaleCredit` gives a batch for which it is not.
* A Backspace release whose press came in an earlier batch is dropped, so the key
  stays down: `BackspaceKey.SplitMattersIff` says exactly when, and
  `BackspaceKey.SplitPress` is such a run of the broker.
* `login_state_is_preserved` compares empty digests as equal: a directory that
  cannot be read before and after passes on its counts
  (`LoginDigest.DirectoryPreservedIff`, `LoginDigest.UnreadableChangePasses`).
* Of every task it records as blocked the manager says that the previous prefix
  was restored. That is wrong while a marker stands, as after a failed recovery
  (`Promotion.RecoveryLost`). With no marker it is wrong exactly if something has
  committed since the transaction of the task began (`Promotion.Host.AnyRun`).
  `Promotion.apply` removes the marker before it writes `result.json`, so that
  happens when this write fails (`Promotion.ResultLost`), when the helper does
  not reach its exit, and when the machine stops between the commit and the
  record, because the task is then run again and refused
  (`Promotion.CommitForgotten`).
* A backup copy that was cut short and left a part is never replaced:
  `patch_file` then refuses until it is removed. The file is still the original
  (`PatchedFile.ProgramFile.AnyRun`).
* `greedy_pairs` is optimal for the lists the recorder makes of keys, and of
  buttons with known numbers; with unknown buttons among known ones it can miss
  a pair (`ControllerTrace.LargestIffNoContention`).
* A diagnostic line of 511 bytes or more is seen without its first multiple of
  511 bytes, so an error on it can be missed (`SelectionStatus.MissedError`);
  `SelectionStatus.NoteUnchangedIff` says which lines lose nothing.

## Model

| member | source | states |
|---|---|---|
| RevisionSafety.FreshConnectionStaysCoupled | src/uu_input_broker.c:459-611 | after any run of successful text batches on a fresh connection the broker's pending surrogate and CR flag are the helper's, its credit is the length of the pasted tail, and the older text is still a prefix of the document |
| RevisionSafety.RunKeepsPrefix | src/uu_input_broker.c:502-611 | from every state in which the text behind the older one covers the credit and an open debt, no Backspace of any run of batches reaches the older text |
| RevisionSafety.BatchKeepsPrefix | src/uu_input_broker.c:521-591 | within one batch, after every input, document, helper state and prospective credit stay related |
| RevisionSafety.DeliveredIsBatchStep | src/uu_input_broker.c:502-611 | what `send_x11_clipboard_text` reports as success is exactly one such batch step of broker, helper and document |
| RevisionSafety.RequestsOnDesk | src/uu_x11_input.c:1200-1304 | cutting a batch into requests does not change what happens to the document |
| RevisionSafety.SafeIff | src/uu_input_broker.c:435-611 | whatever broker and helper remember and whatever the counter holds: the older text is safe from every run of successful batches if and only if the text behind it is at least as long as the credit, plus one if a debt is open: the helper will swallow a line feed that the broker will credit |
| RevisionSafety.AbandonedIsSafeIff | src/uu_input_broker.c:534-556 | a batch given up after some of its inputs were confirmed is safe if and only if these inputs brought at least as many characters as they forwarded Backspaces, and one more if a debt is open |
| RevisionSafety.ResetIsSafeIff | src/uu_input_broker.c:435-446 | after a reset or expiry of the broker alone, all text is safe in every run if and only if the helper does not hold a trailing CR with no surrogate pending |
| RevisionSafety.SwallowedLineFeed | src/uu_x11_input.c:660-663 | from every state in which the helper remembers a CR and the broker does not, one LF and one Backspace delete the last character of the document |
| RevisionSafety.AbandonedBatchKeepsStaleCredit | src/uu_input_broker.c:534-556 | the failing input: Backspace, character, untranslatable input from an allowance of one; what is left standing deletes older text |
| BrokerRuns.AnyTurns | src/uu_input_broker.c:502-611 | the broker itself over any batches: from the first world to the last each turn is one delivered, reset or given-up step of broker, helper and document, delivered exactly when success was reported; and if every turn is secured the older text is there at the end |
| BrokerRuns.SecuredRunKeepsPrefix | src/uu_input_broker.c:435-611 | through every run with failed sends, lost connections, resets, expiry and batches given up the older text stays, if each turn is secured: a cleared allowance does not meet a trailing CR in the helper with nothing behind the older text, and an allowance left by a batch given up is no more than the credit worked out for it, less a debt |
| BrokerRuns.UnsecuredTurnIsExposed | src/uu_input_broker.c:435-611 | the first turn that is not secured, after a reset or expiry, or after a batch given up from an exact allowance, finds the older text exposed: successful batches can delete from it |
| BrokerRuns.SecuredByCounts | src/uu_input_broker.c:534-556 | after a batch given up, with the allowance not expired, a turn is secured if and only if the confirmed inputs brought at least as many characters as Backspaces, and one more for a debt |
| BrokerRuns.AttemptOnDesk | src/uu_input_broker.c:521-611 | whatever part of the requests tried was done, it is what some first inputs of the batch say |
| BrokerRuns.PartKeepsPrefix | src/uu_input_broker.c:521-611 | whatever first inputs of a batch were done when it failed, the older text is still there and covers the prospective credit |
| BrokerRuns.GivenUpOnDesk | src/uu_input_broker.c:534-556 | a batch given up leaves helper and document exactly where its confirmed inputs led |
| BackspaceKey.HeldAfterBatch | src/uu_input_broker.c:527-541 | after any part of a batch the X server holds Backspace if and only if the last Backspace event forwarded was a press, or the key was down before and no press was forwarded |
| BackspaceKey.SplitMattersIff | src/uu_input_broker.c:527-541 | sending a batch in two parts leaves the key in another position than sending it whole if and only if the first part ends with the key down and the second releases it without pressing it again; then it stays down |
| BackspaceKey.SplitPress | src/uu_input_broker.c:527-541 | on the broker itself: a press, and its release with a character in the next batch, both reported as delivered, leave the key held |
| BackspaceKey.SplitPressSteps | src/uu_input_broker.c:527-541 | from every state with credit the first of these batches succeeds, and the second if and only if the helper accepts the character, as it does every ordinary one |
| SemanticEdit.ClampClosedForm | src/uu_input_broker.c:520-567 | from the starting credit and the batch alone, for every prefix of it: the number clamped is the furthest that Backspace presses ever run ahead of characters and credit, the rest is forwarded, and the final credit is start plus characters minus forwarded |
| SemanticEdit.ClampBalance | src/uu_input_broker.c:520-567 | also with a saturating counter: every press is forwarded or clamped, the credit is conserved, and forwarded releases never overtake forwarded presses |
| SemanticEdit.CreditSemanticText | src/uu_input_broker.c:459-500 | the loop computes the unit-by-unit credit |
| SemanticEdit.CreditFollowsDecoder | src/uu_input_broker.c:474-498 | credit and helper decoder advance alike: one credited character per emitted code point, same surrogate and CR state |
| InputBroker.Admit | src/uu_input_broker.c:520-567 | the admission of one input: skipped, untranslatable or an event, with the new allowance |
| InputBroker.Broker.SendRelayInputs | src/uu_input_broker.c:784-937 | at most one of helper and relay acts on a batch; in every outcome what acted did at most once a first part of it; an accepted batch has been delivered whole and in order by exactly the route reported |
| InputBroker.Broker.SendX11ClipboardText | src/uu_input_broker.c:502-611 | in every outcome the helper did a first part of the requests tried, which are the clamped batch up to some input; not-used means it did nothing; success means all of it; a failed send clears the allowance, a batch given up leaves it and everything sent before confirmed |
| InputBroker.Broker.SendX11Events | src/uu_input_broker.c:307-371 | one request under every connect, write, reply and injection failure: its effect happens at most once and in order, success means all of it, not-used nothing |
| InputBroker.Broker.SendX11Inputs | src/uu_input_broker.c:373-389 | the ordinary route: a first part of the batch at most, all of it on success, nothing when not used |
| InputBroker.Broker.SendTranslated | src/uu_input_broker.c:841-936 | chords first to the helper, then to the relay only if the helper did nothing; each did at most a first part of the translation; what each route leaves of the allowance |
| InputBroker.Broker.Relay | src/uu_input_broker.c:907-921 | what SendInput took is a first part of the translated inputs, all of them on success |
| InputBroker.PhoneTextUsesClipboard | src/uu_input_broker.c:393-433 | true exactly when a character is pressed and the mode, a Backspace or a character without plain key asks for the clipboard |
| ChordTranslator.TranslateInputs | src/uu_input_broker.c:705-752 | for at most 2048 inputs the translation fails only on a pressed character without chord, and otherwise fills both arrays as specified |
| ChordTranslator.FailsOnlyOnUnmappable | src/uu_input_broker.c:705-752 | the translation exists if and only if every pressed character has a chord |
| ChordTranslator.TranslationFits | src/uu_input_broker.c:12-14 | eight events an input and one segment an input always suffice |
| ChordTranslator.SegmentsTile | src/uu_input_broker.c:687-752 | segments cover the translation without gap or overlap; each is one whole chord or a run of untouched inputs |
| ChordTranslator.ReplayTypesTheText | src/uu_input_broker.c:645-752 | replaying a batch of characters from released modifiers types exactly the pressed characters and releases every modifier |
| ChordTranslator.ReplayChord | src/uu_input_broker.c:645-685 | one chord types one character and releases its modifiers |
| ChordTranslator.AppendCharacterChord | src/uu_input_broker.c:645-685 | appends the chord of a mappable character if there is room for eight events |
| Utf16Text.RunAppend | src/uu_x11_input.c:623-701 | decoding a then b with the carried state is decoding a + b: same success, output and state |
| Utf16Text.AcceptsExactlyWellFormed | src/uu_x11_input.c:623-701 | from a fresh connection a stream is accepted with nothing pending if and only if it is well-formed UTF-16 without NUL (section 2 of RFC 2781) |
| Utf16Text.DecodesWellFormed | src/uu_x11_input.c:623-701 | the output is the code points with CR LF and CR turned into LF, across any cuts |
| Utf16Text.AcceptsOnlyWellFormed | src/uu_x11_input.c:623-701 | whatever is accepted is such text, save for a high surrogate still waiting |
| Utf16Text.RunLength | src/uu_x11_input.c:1215 | the output has at most three bytes a unit and one more |
| Utf16Text.TextEventsToUtf8 | src/uu_x11_input.c:623-701 | the look-ahead decoder on a fixed buffer computes the unit-by-unit one, its output is valid text, and with 3n + 2 bytes it never fails for lack of room |
| Utf16Text.ReadItem | src/uu_x11_input.c:653-698 | one round of the decoding loop agrees with one or two single steps |
| Utf8.ValidUtf8Text | src/uu_x11_clipboard.c:201-243 | accepts exactly the encodings of nonzero Unicode scalar values |
| Utf8.ReadCharacter | src/uu_x11_clipboard.c:206-240 | one round accepts exactly one character of the grammar in section 4 of RFC 3629 |
| Utf8.RangeTestIsTheGrammar | src/uu_x11_clipboard.c:235-240 | the code-point range test is equivalent to the byte ranges of section 4 of RFC 3629 |
| Utf8.TextIffDecodable | src/uu_x11_clipboard.c:201-243 | a byte string is text if and only if the reference decoder accepts it |
| Utf8.DecodeEncode | src/uu_x11_input.c:572-614 | decoding what was encoded gives the code points back |
| Utf8.EncodeDecode | src/uu_x11_input.c:572-614 | encoding what was decoded gives the bytes back |
| Utf8.EncodingIsUnique | src/uu_x11_input.c:572-614 | different code points have different encodings |
| Utf8.AppendUtf8 | src/uu_x11_input.c:572-614 | writes the encoding behind the given length, or changes nothing, and leaves room for the NUL |
| X11Helper.Session.Serve | src/uu_x11_input.c:1200-1304 | one request: a first part of its effect in every outcome, all of it on success, nothing when unsupported; where the Backspace key is after a success |
| X11Helper.Session.ServeText | src/uu_x11_input.c:1213-1240 | a text request: exact decoder state and paste on success; refused if and only if the text is malformed, and the surrogate is then dropped; after a failed injection it is the decoder's; the CR flag moves on success only |
| X11Helper.Session.ServeInputs | src/uu_x11_input.c:1242-1304 | a key or pointer request is refused exactly when some event is unsupported, before anything is injected; otherwise the count says what was injected, and the server was told that and at most a first part of the next event |
| X11Helper.Session.InjectEvents | src/uu_x11_input.c:1264-1300 | events go to the server in order up to the first refusal; of the refused one at most a first part |
| X11Helper.Session.PasteChord | src/uu_x11_input.c:730-775 | the Shift+Insert chord under every failure: all held keys stay on record, no other key changes, and a Shift already held stays held |
| X11Helper.Session.ReleaseChord | src/uu_x11_input.c:768-775 | the clean-up after a broken chord releases exactly what the chord pressed |
| X11Helper.Session.InjectClipboardText | src/uu_x11_input.c:703-776 | success means the text was pasted; failure is ambiguous and says so |
| X11Helper.Session.InjectMouseEvent | src/uu_x11_input.c:938-1003 | the server receives motion, buttons and wheel clicks of the flags in order, or a first part of them |
| X11Helper.Session.InjectKey | src/uu_x11_input.c:1265-1283 | a key change is recorded, under its keycode and with its direction, exactly when the server took it |
| X11Helper.Session.EndSession | src/uu_x11_input.c:1134-1158 | after the release loop nothing the session pressed is down and the next session starts idle |
| SelectionStatus.Status.Update | src/uu_x11_input.c:260-317 | whatever the read sizes, flags and request number are a function of what has been printed, and so is the buffer, save that a full unfinished line may or may not have been dropped yet |
| SelectionStatus.Status.Round | src/uu_x11_input.c:265-316 | one read with its lines, including the drop of a full buffer |
| SelectionStatus.Status.NoteLines | src/uu_x11_input.c:283-306 | every complete line in the buffer is noted once and in order |
| SelectionStatus.ShortLinesAreTold | src/uu_x11_input.c:269-283 | with lines of at most 510 bytes the result is the fold over all complete lines in full |
| SelectionStatus.NoteUnchangedIff | src/uu_x11_input.c:269-306 | for a line of any length: what is left of it in the buffer tells the same as the whole line, whatever was told before, if and only if each of the two messages lies behind the dropped bytes if it is there at all and the first number behind them is the first number of the line |
| SelectionStatus.ToldInFullIfRests | src/uu_x11_input.c:269-306 | if that holds of every complete line nothing is missed |
| SelectionStatus.FirstLineToldIff | src/uu_x11_input.c:269-306 | and for a first line what is told differs from the whole line exactly when it does not |
| SelectionStatus.MissedError | src/uu_x11_input.c:269-270 | the failing input: "X Error" and 504 more bytes |
| SelectionStatus.OnlyThePast | src/uu_x11_input.c:260-317 | what has been told depends only on the bytes read |
| LoginDigest.SameStreamIffSameTree | scripts/promote-approved-release.py:122-161 | the hashed streams of two directories are equal if and only if they hold the same paths with the same contents |
| LoginDigest.StreamIsInjective | scripts/promote-approved-release.py:136-147 | path, NUL, size, NUL, content, file by file, is uniquely decodable |
| LoginDigest.RecordIsSelfDelimiting | scripts/promote-approved-release.py:136-147 | the end of one record is determined by its beginning |
| LoginDigest.DirectoryState | scripts/promote-approved-release.py:122-161 | the loop measures the walk: counts of the files outside the ignored paths, and the digest of their stream unless a read error came first |
| LoginDigest.KeptIsListing | scripts/promote-approved-release.py:122-161 | the files of a walk outside the ignored paths list the tree without these paths, each path once |
| LoginDigest.DirectoryPreservedIff | scripts/promote-approved-release.py:220-237 | with a collision-free hash two measured directories compare as preserved if and only if there was none, or both can be read and hold the same files outside the ignored paths, or neither can be read and the counts up to the first read error agree |
| LoginDigest.LoginPreservedIff | scripts/promote-approved-release.py:202-237 | `login_state_is_preserved` on two measured accounts holds if and only if both are usable, the registry logins are the same and both directories compare so |
| LoginDigest.UnreadableChangePasses | scripts/promote-approved-release.py:148-154 | the failing input: a changed file in front of a read error passes on the strength of its size |
| Promotion.Host.AnyRun | scripts/uu_update_manager.py:2261-2270 | after any run of commands with crashes anywhere: installer at most once per work directory; without a marker the live prefix is the last fully verified release or the first prefix, with its account state; a task recorded as promoted has committed with its result on file; and for a blocked task whose transaction began, with no marker, the prefix it began from is live if and only if nothing has committed since, which for the latest transaction means that it has not committed itself |
| Promotion.Host.Apply | scripts/promote-approved-release.py:711-767 | an existing marker or work directory stops it before any change; it reports success if and only if one verified release was committed and its result written; after an error the previous prefix is live without a marker, or the recovery raised and the marker stands, or the release is committed with no result on file |
| Promotion.Host.Recover | scripts/promote-approved-release.py:676-709 | from every state a crash can leave, including one inside recovery: the prefix to restore is never lost and the marker goes last |
| Promotion.Host.RestoreSnapshot | scripts/promote-approved-release.py:691-697 | the two renames with a stop after either; the failed prefix is kept |
| Promotion.Host.Snapshot | scripts/promote-approved-release.py:591-623 | a finished snapshot is the current prefix, and an unfinished copy is never taken for one |
| Promotion.Host.RunInstaller | scripts/promote-approved-release.py:625-647 | an arbitrary change to the live prefix keeps the transaction recoverable |
| Promotion.Host.VerifyAndCommit | scripts/promote-approved-release.py:724-740 | the marker is removed only for a prefix that passed the login, manifest and runtime checks, and the result file says promoted if and only if its write succeeded after that |
| Promotion.Host.Guarded | scripts/promote-approved-release.py:719-767 | after an error recovery has been started unless the release was committed, and its outcome tells which state is left; nothing is reported as promoted otherwise |
| Promotion.ResultLost | scripts/promote-approved-release.py:737-766 | a run of the manager in which writing the result fails: the task is blocked, the new release is live and accepted, and no result says so |
| Promotion.RecoveryLost | scripts/promote-approved-release.py:753-766 | a run in which installer and recovery fail: the task is blocked while whatever the installer left is live under a standing marker |
| Promotion.CommitForgotten | scripts/uu_update_manager.py:1926-1995 | a run in which the machine stops between the commit and the record: the next run of the task is refused, the task is blocked, and the new release is live |
| Promotion.Host.RestoredForIff | scripts/uu_update_manager.py:1981-1995 | the prefix a transaction began from is live, with no marker, if and only if nothing committed since; if no other transaction began since, if and only if it has not committed |
| Promotion.LaterCommit | scripts/uu_update_manager.py:1746-1833 | a rolled-back transaction and a later committed one: the prefix the first began from is not live, although it never committed |
| Promotion.CommitIsNumbered | scripts/promote-approved-release.py:711-740 | in every serial log the release of a committed transaction follows directly on the prefix it began from |
| Promotion.History.SoundFacts | scripts/promote-approved-release.py:711-740 | in every sound history the installer ran at most once per work directory and the current prefix passed every check |
| Promotion.History.LoginKept | scripts/promote-approved-release.py:220-237 | the account state of the first prefix survives any chain of releases |
| Promotion.SerialCounts | scripts/uu_update_manager.py:1746-1833 | begun, installed, committed and rolled-back transactions balance; at most one is open |
| Promotion.ClosedBeforeNext | scripts/uu_update_manager.py:1746-1833 | between two transactions lies the end of the first |
| Promotion.Host.RecoverInterrupted | scripts/uu_update_manager.py:1746-1833 | a leftover marker is dealt with before anything else, and nothing new is begun |
| Promotion.Host.RunPromotion | scripts/uu_update_manager.py:1835-1995 | a work directory that exists already is never used again; a task is recorded as promoted, also when the manager stops right after, only with one more accepted release and its result on file; for a task recorded as blocked, with no marker, the prefix its transaction began from is live if and only if nothing has committed since it began, in this call or before |
| Promotion.Host.Monitor | scripts/uu_update_manager.py:2261-2270 | with a marker present the step can only roll it back |
| Promotion.Host.PromoteNow | scripts/uu_update_manager.py:1997-2053 | the same for the manual command, which may queue a blocked release in a fresh directory |
| Promotion.Host.Requeue | scripts/uu_update_manager.py:2001-2046 | success queues the task with a fresh work directory; an error leaves every task as it was, or this one with a fresh directory |
| Promotion.Host.QueuePromotion | scripts/uu_update_manager.py:836-923 | promoted and blocked tasks are left alone, another pending task is not displaced, a new task gets its own directory |
| Promotion.Host.FinishTask | scripts/uu_update_manager.py:1952-1995 | in every outcome the pending file is gone only if the record was written |
| ControllerTrace.GreedyPairs | scripts/uu_controller_trace.py:556-572 | the loop with its shrinking list computes the greedy pairs, which form a matching; it is largest whenever no event without button contends with a later one with a button |
| ControllerTrace.LargestIffNoContention | scripts/uu_controller_trace.py:556-572 | the greedy count is the largest possible for every second list if and only if there is no such contention |
| ControllerTrace.GreedyIsLargest | scripts/uu_controller_trace.py:556-572 | no matching has more pairs than the greedy one |
| ControllerTrace.FollowGreedy | scripts/uu_controller_trace.py:560-571 | any matching can be turned into one that agrees with the greedy choices without losing a pair |
| ControllerTrace.Exchange | scripts/uu_controller_trace.py:560-571 | one exchange step |
| ControllerTrace.TrapSprings | scripts/uu_controller_trace.py:567-568 | the failing input: a second list on which contention costs a pair |
| ControllerTrace.CountPairs | scripts/uu_controller_trace.py:575-613 | the three counts of the summary are sizes of matchings; those of keys are always the largest possible, that of buttons whenever unknown ones do not contend |
| ControllerTrace.ChosenIsSorted | scripts/uu_controller_trace.py:801-804 | the lists that the summary filters out of the sorted events are sorted |
| MaskedSearch.MaskedCandidates | scripts/gameviewer_patchlib.py:339-370 | exactly the in-range positions where all unchanged bytes match, in increasing order; none for a patch without unchanged bytes |
| MaskedSearch.SearchAnchor | scripts/gameviewer_patchlib.py:356-369 | the search by one anchor finds what a search at every position finds |
| MaskedSearch.Coalesce | scripts/gameviewer_patchlib.py:348-353 | runs are the maximal ranges of consecutive positions |
| MaskedSearch.ChangedByteRanges | scripts/gameviewer_patchlib.py:324-336 | the ranges cover exactly the changed bytes, in order with gaps between them |
| MaskedSearch.ProposedReplacement | scripts/audit-gameviewer.py:123-127 | changed bytes from the baseline, the rest from the file; at a masked match this is the baseline replacement |
| MaskedSearch.AllOccurrences | scripts/audit-gameviewer.py:112-120 | exactly the positions of the needle, in increasing order |
| ReleasePatch.OverlapCheck | scripts/gameviewer_patchlib.py:191-194 | comparing neighbours in offset order accepts exactly the pairwise disjoint patches |
| ReleasePatch.OrderDoesNotMatter | scripts/gameviewer_patchlib.py:302-311 | every order of disjoint patches gives the same bytes |
| ReleasePatch.RenderedIsRendering | scripts/gameviewer_patchlib.py:306-311 | each byte is the one of the patch that covers it, or the old one |
| ReleasePatch.ChangesExactly | scripts/gameviewer_patchlib.py:306-311 | a byte changes if and only if its patch changes it |
| ReleasePatch.SwapUndoes | scripts/gameviewer_patchlib.py:302-311 | swapping originals and replacements takes the patches back |
| ReleasePatch.RenderingHolds | scripts/gameviewer_patchlib.py:302-314 | where an original stood its replacement stands |
| ReleasePatch.ApplyPatches | scripts/gameviewer_patchlib.py:306-311 | the in-place loop computes the rendering and keeps the length |
| ReleasePatch.SortKeepsDisjointness | scripts/gameviewer_patchlib.py:191 | sorting neither creates nor hides an overlap |
| PatchedFile.ProgramFile.AnyRun | scripts/patch-gameviewer.py:49-101 | any run of patch and restore, wherever copies are cut short: the file is original or patched, original unless the backup is the original, and the backup is what the first copy that left anything has left |
| PatchedFile.BackupIsOriginalIff | scripts/patch-gameviewer.py:61-75 | the backup is the original if and only if the first copy that left anything left all of it |
| PatchedFile.ProgramFile.PatchFile | scripts/patch-gameviewer.py:49-78 | when it succeeds, exactly; anything else leaves the file alone; an existing backup that is not the original makes it refuse |
| PatchedFile.ProgramFile.RestoreFile | scripts/patch-gameviewer.py:81-101 | success puts the backup in place; refused for another release |
| PatchedFile.ProgramFile.SecureBackup | scripts/patch-gameviewer.py:61-75 | an existing backup must be the matching original, a new one is checked |
| PatchedFile.MakePatched | scripts/gameviewer_patchlib.py:302-321 | succeeds exactly when manifest and file fit, with the approved bytes |
| PatchedFile.VerifySignatures | scripts/gameviewer_patchlib.py:284-299 | every signature occurs at its offset and nowhere else |
| PatchedFile.Classify | scripts/gameviewer_patchlib.py:272-281 | original, patched or unknown, by the only manifest that knows the content |
| PatchedFile.PatchedFileCanBeReverted | scripts/gameviewer_patchlib.py:302-321 | the patched file determines the original through the swapped patches |
| IfAddrsFilter.Preload.AnyRun | src/uu_network_filter.c:76-190 | after any calls whose results are all freed no node and no record is left allocated; free demands a live one, so each was freed once |
| NameFilter.Position | src/uu_network_filter.c:70-74 | every kept entry is named like the selected interface or "lo", and stood in the list |
| NameFilter.KeptInOrder | src/uu_network_filter.c:119-142 | kept entries stay in their order |
| NameFilter.KeptIsComplete | src/uu_network_filter.c:119-142 | no entry to keep is missing |
| NameFilter.KeptMentions | src/uu_network_filter.c:143-146 | the copy of a list with the selected interface is not empty, so that exit is never taken |
| IfAddrsFilter.Preload.GetIfAddrs | src/uu_network_filter.c:76-157 | the filtered copy exactly when the selected interface is listed and no allocation is denied, otherwise the untouched list |
| IfAddrsFilter.Preload.FreeIfAddrs | src/uu_network_filter.c:159-190 | frees exactly what stands behind the pointer: list, original list and record |
| IfAddrsFilter.Preload.TryFilter | src/uu_network_filter.c:115-156 | a denied allocation at any point gives everything back |
| IfAddrsFilter.Preload.Unlink | src/uu_network_filter.c:168-176 | rewriting the link takes out the record of the pointer and keeps the list linked |
| NameIndexFilter.NamePreload.AnyRun | src/uu_network_filter.c:192-279 | the same for arrays, duplicated names and their records |
| NameIndexFilter.NamePreload.IfNameIndex | src/uu_network_filter.c:192-250 | the filtered array exactly when the selected interface is listed and no allocation is denied, otherwise the untouched array |
| NameIndexFilter.NamePreload.IfFreeNameIndex | src/uu_network_filter.c:252-279 | frees exactly the array, its names and its record |
| NameIndexFilter.NamePreload.TryFilter | src/uu_network_filter.c:220-249 | a denied allocation gives everything back |
| NameIndexFilter.NamePreload.Unlink | src/uu_network_filter.c:261-269 | takes the record out of the registry |
| TerminalProxy.Proxy.Session | src/uu_terminal_proxy.c:59-135 | every interleaving, fragmentation, size and ending: the shell gets a first part of what was typed; no frame is rejected while sizes are in range, and then all of it arrives, with the last size, once everything is delivered |
| TerminalProxy.Proxy.AnyRun | src/uu_terminal_proxy.c:94-135 | whatever the schedule and wherever a send fails, the wire holds whole frames and at most one cut frame, in the order of typing |
| TerminalProxy.Proxy.Send | src/uu_terminal_proxy.c:27-41 | partial sends under the lock keep frames whole |
| TerminalProxy.Proxy.PollConsole | src/uu_terminal_proxy.c:113-135 | a changed size, and only that, is queued |
| TerminalProxy.Proxy.ReadConsole | src/uu_terminal_proxy.c:94-111 | input is queued as data, its end as the end frame |
| TerminalProxy.Delivered | src/uu_terminal_bridge.c:266-296 | what the bridge has after any first part of the wire, also when it rejected a frame or was stopped |
| TerminalProxy.PartCarries | src/uu_terminal_proxy.c:59-73 | any first part of the wire is whole frames and at most one cut frame |
| TerminalBridge.StreamAcceptedIff | src/uu_terminal_bridge.c:170-186 | a stream of frames is accepted if and only if every size lies in 1..1000; the frames in front of the first one refused are done in order |
| TerminalBridge.RelayGrows | src/uu_terminal_bridge.c:266-296 | what has reached the shell stays there, however the session goes on |
| TerminalBridge.RelayFrom | src/uu_terminal_bridge.c:266-296 | from every frame boundary the frames are applied in order up to the first whose size is out of range, which ends the session |
| TerminalBridge.Bridge.RelaySession | src/uu_terminal_bridge.c:238-301 | the frame loop computes the relay of its stream, for any fragmentation |
| TerminalBridge.Bridge.ReadFrame | src/uu_terminal_bridge.c:266-296 | one frame: accepted, waited for or rejected exactly as the parser says |
| TerminalBridge.Bridge.ReadExact | src/uu_terminal_bridge.c:63-81 | reads exactly the bytes asked for, whatever pieces arrive |
| TerminalBridge.ParseEncoded | src/terminal_bridge_protocol.h:20-34 | an encoded frame parses as itself in front of anything |
| TerminalBridge.ParseCut | src/uu_terminal_bridge.c:63-81 | a cut frame is waited for, not rejected |

## Left out

- Win32, Wine, X11, XTEST, xclip, pseudo terminal, socket and systemd calls: nondeterministic operations with the effects the code relies on; `VkKeyScanW`, `MapVirtualKeyW` and the keyboard map are parameters.
- Timing: focus waits, key pacing, socket deadlines and selection timeouts; clock readings are parameters and a timeout is a failure.
- Concurrency inside one process beyond the two terminal workers: the pthread lock of the interface filter makes each call atomic, and the broker serves one batch at a time.
- `src/uu_input_bridge.c` and the pipe in front of the broker: it may repeat a whole request, so at-most-once is stated at the broker.
- RevisionSafety.RunKeepsPrefix: runs consist of clipboard batches of characters and Backspaces (successful ones here, any in BrokerRuns.SecuredRunKeepsPrefix); batches on the key or relay routes reset or recompute the allowance and are covered only by the at-most-once result.
- RevisionSafety.AbandonedIsSafeIff: the confirmed inputs do not saturate the 32-bit counter; RevisionSafety.SafeIff has no such bound.
- SemanticEdit.ClampClosedForm: the characters of the batch do not saturate the 32-bit counter; with saturation SemanticEdit.ClampBalance still holds.
- BrokerRuns.AnyTurns: what the helper itself remembers after a failed send is left open, as any state.
- BackspaceKey.SplitPress: neither key of the paste chord is the Backspace key, and the keys are what `MapVirtualKeyW` reports for a standard keyboard.
- RevisionSafety.FreshConnectionStaysCoupled: exact equality of credit and tail needs fewer than 2^32 inputs in the run, because the counter saturates; without that bound the credit is still covered by the tail (RunKeepsPrefix).
- X11Helper.Session.EndSession: the client's connection ends the session; the releases themselves are taken to succeed, since the helper does not check them.
- X11Helper.Session.InjectMouseEvent: absolute coordinates are passed on without the scaling to the screen.
- X11Helper.Session.InjectClipboardText: starting the selection owners and waiting for their requests is one step that may fail.
- Flag words are sets of one-bit masks, bytes are integers below 256, shifts are divisions; widths and saturation are written out where they matter.
- LoginDigest.LoginPreservedIff: SHA-256 is a collision-free function and the file list is sorted by some strict order; symbolic links, files that change while they are read, and the selection of the login sections of the registry file are not modelled.
- Promotion.Host.AnyRun: the running client is taken not to change a prefix after it was verified, the installer is an arbitrary change, and a work directory is identified by its creation, so a retired task keeps its own.
- Promotion.Host.Apply: each step of the machine ends as a schedule says, which is a parameter, and a write of a file either happens or does not.
- Promotion.Host.QueuePromotion: metadata checks, the checkout and the release record are left out; they only add ways to raise before anything is written.
- PatchedFile.Classify: a digest is identified with the content it stands for; a digest of no known content is some content that never occurs.
- PatchedFile.ProgramFile.PatchFile: file modes are left out, and replacing the target is one step, as the code arranges by a rename.
- ControllerTrace.CountPairs: the verdict that `summarize` words from the counts is left out.
- ControllerTrace.GreedyPairs: the second list is taken to be sorted, as the recorder sorts it (ChosenIsSorted).
- SelectionStatus.Status.Update: the stream holds no NUL, which would hide the rest of a line; the NUL written over each newline is not modelled, since only the line in front of it is read afterwards.
- TerminalProxy.Proxy.Send: that a failed send makes every later one fail is an assumption about the socket.
- TerminalBridge.Bridge.RelaySession: the handshake, the direction from the shell to the client and the reaping of shells are left out; writes to the terminal and the size ioctl succeed or stop the session between two frames.
- IfAddrsFilter.Preload.GetIfAddrs: the caller frees each result once and does not edit the list, as the interface demands; `errno` is left out.
- Update endpoints, downloads, Codex runs, health checks, manifest field checks, argument parsing and log texts: orchestration and single-branch facts.
