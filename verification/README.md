# Proofs about the shop server's stateful core

A Dafny model of the small protocols and state machines that the POS server, its CLI and its report
builder rely on, with proofs over every input, every run or every interleaving.
`dafny verify dfyconfig.toml` checks everything.

**Refresh-token chains** are the centre. Seven files:

- `RefreshRotation.dfy`: the rule `judgeRefresh`, one chain's row, and the history of one chain as a
  sequence of attempts with its generations g0, g1, ... of jtis. A chain never forks, each jti is
  honoured at most twice, anything older than the previous generation revokes the chain for good.
- `RefreshClients.dfy`: what the grace rule gives honest users. The exact condition under which a client
  that loses replies is never refused, and how two holders of one token converge.
- `RefreshHolders.dfy`: two holders of one token over whole schedules with lost replies: the exact
  condition under which neither of them is ever refused.
- `RefreshSystem.dfy`: the table of all chains with logins, Postgres's clock, the API's clock and the
  prune. Class `RefreshFamilies` runs `rotateRefreshChain` statement by statement. Each chain's part of
  every run is a run of `RefreshRotation`, as long as the clocks differ by at most a day minus 30 s; that
  bound is exact.
- `RefreshTransactions.dfy`: the same table under concurrent READ COMMITTED transactions with row locks,
  waiting inserts and deletes, uncommitted writes and aborts. Every schedule equals a serial run, in an
  order that respects real time.
- `RefreshSkew.dfy`: the same skew bound is exact for that too: beyond it some schedule equals no serial run.
- `RefreshExpiry.dfy`: the 04:00 expiry with the calendar and the printed zone offset.

**The rest**:

- `PasswordChange.dfy`: change-password as read, hash, conditional update, interleaved with resets.
- `Uuid.dfy`: `newUuid` for a clock that stalls or goes back: string order, form and decoding.
- `SnapshotZip.dfy`, `SnapshotJson.dfy`: the backup's ZIP rules and its streamed JSON, written and read.
- `ZipUpload.dfy`, `Prompter.dfy`: two event machines, over every order of their events.
- `TenantSnapshot.dfy`: grouping, shift split and carry-forward of unknown stores.
- `ReportText.dfy`, `ReportReferences.dfy`, `ReportNumbering.dfy`: the report builder's labels, its two
  counting passes, its bibliography and its citations.
- `Bits.dfy`, `Characters.dfy`, `Options.dfy`, `Sequences.dfy`: shared helpers.

Objects that the source updates in place are classes whose methods are proved against the function that
the laws are about (`Handle`, `Advance`, `Refresh`, `Labelled`, `Captions`, `Deduped`); loops are loops
with invariants.

Where the code and what is said of it differ, the model follows the code:

- The refresh expiry is documented as 04:00 of the tenant's zone. For offsets between -60 and 0 minutes,
  the printed hours are `-00` and lose their sign, so the token ends early, not at 04:00. It is right for
  every other whole-minute offset (`RefreshExpiry.CalculateRefreshExpiry`). A tenant's zone is stored as it
  is given, so an offset zone such as `-00:30` gets there (`RefreshExpiry.HalfHourWest`).
- Forward references in the report are meant to resolve. The label of a printed figure or table resolves
  to the number printed under it exactly when no directive of its kind in the chapter, up to and including
  itself, is indented: the pre-pass looks at column 0, the rendering pass at the stripped line. An indented
  directive is printed with a number, but its own label shows "?" (`ReportNumbering.ForwardReferencesResolve`,
  `ReportNumbering.IndentedFigureIsUnresolved`).
- The grace rule is said to cover a reply that was lost and two tabs that share a token. It covers each of
  them, not both at once: while both holders are still to present, one lost reply gets one of them refused
  (`RefreshHolders.TwoHoldersNeverRefused`, `RefreshHolders.LossAndSecondHolder`).
- Unknown stores are carried forward unless their name is one that every JavaScript object has, such as
  `constructor`, because the loop asks with `in` (`TenantSnapshot.ConstructorIsDropped`). The app stashes
  only stores named `sa_...` under `unknownstore:`, and no server code writes such rows to tenant_meta, so
  such a name has to come from a row written by other means.

## Model

| member | source | states |
|---|---|---|
| RefreshRotation.RuleByGeneration | server/src/auth/refresh-rotation.ts:41-54 | After any history, an unrevoked chain rotates its youngest generation n, answers n - 1 with n once and within a day, and revokes itself on any other generation; a revoked one changes nothing |
| RefreshRotation.RowHoldsYoungest | server/src/auth/auth.service.ts:561-585 | In every history the row names exactly the last two generations, no jti repeats, and the expiry never changes |
| RefreshRotation.AnswersFollowGenerations | server/src/auth/auth.service.ts:569-585 | Every answer given to generation p carries generation p + 1 |
| RefreshRotation.NeverForks | server/src/auth/refresh-rotation.ts:8-13 | Two honoured presentations of one jti got the same successor |
| RefreshRotation.GraceIsRecorded | server/src/auth/auth.service.ts:579-585 | After a grace answer the row keeps it recorded as long as that generation is the previous one |
| RefreshRotation.HonouredTwice | server/src/auth/refresh-rotation.ts:41-54 | Of two honoured presentations of one jti the first rotated and the second was the grace answer |
| RefreshRotation.NeverHonouredThrice | server/src/auth/refresh-rotation.ts:15-16 | No jti is honoured three times |
| RefreshRotation.RevocationStays | server/src/auth/refresh-rotation.ts:43 | A revoked row never changes again and every later answer is the revoked refusal |
| RefreshRotation.ReuseEndsChain | server/src/auth/auth.service.ts:586-598 | After one reuse no token of the chain is honoured |
| RefreshClients.LoneClientNeverRefused | server/src/auth/refresh-rotation.ts:8-12 | A client alone on its chain is never refused if and only if it never loses two replies in a row before another attempt and retries each lost one within a day |
| RefreshClients.ClientView | server/src/auth/refresh-rotation.ts:8-21 | What the row holds for such a client: its token is current after a delivered reply, previous after a lost one, with the grace answer unused or used accordingly |
| RefreshClients.HoldersInvariant | server/src/auth/refresh-rotation.ts:11-13 | While nobody was refused, one of two holders of a chain has the current token and a holder of the previous one still has its grace answer |
| RefreshClients.HoldersConverge | server/src/auth/refresh-rotation.ts:11-13 | When no reply was lost, the next presentation is honoured if and only if the presenter is at most one generation behind (and then in time), and a holder that was behind gets the other's token, the current one |
| RefreshHolders.TwoHoldersNeverRefused | server/src/auth/refresh-rotation.ts:8-21 | Over any schedule with lost replies, neither of two holders is ever refused if and only if, while both are still to present, no reply is lost and each rotation is followed by the other holder within a day, and the one that is left then keeps the lone client's condition |
| RefreshHolders.LossAndSecondHolder | server/src/auth/refresh-rotation.ts:11-18 | A lost reply, the second holder's answer and the first one's retry end in a refusal |
| RefreshHolders.DoomedIsRefused | server/src/auth/refresh-rotation.ts:15-19 | A token that is older than the previous one, or previous with its grace answer spent, is refused whenever its holder presents it |
| RefreshSystem.RefreshFamilies.RotateRefreshChain | server/src/auth/auth.service.ts:520-600 | On the table, case by case: a malformed id or unknown chain changes nothing; a created row is the new one, every other row a day past its expiry is gone and the rest is unchanged; a row is refused, rotated, answered by grace or revoked. The same is the atomic step that the laws are about |
| RefreshSystem.SameChainSameExpiry | server/src/auth/auth.service.ts:484-492 | All tokens of one chain carry the same expiry |
| RefreshSystem.RefreshIsChainStep | server/src/auth/auth.service.ts:520-600 | On a verifying token's own chain the table step is the chain step and never the unknown refusal |
| RefreshSystem.RunKeepsInv | server/src/auth/auth.service.ts:541-599 | In every run of logins, ticks and presentations all chains keep their invariant: history, row, expiry and issued tokens agree |
| RefreshSystem.IssuedExactly | server/src/auth/auth.service.ts:484-492 | In every run the tokens in circulation are exactly those of logins and those that an honoured refresh signed, with its chain and expiry |
| RefreshSystem.LogIsPresented | server/src/auth/auth.service.ts:520-600 | The log is the presented tokens in order |
| RefreshSystem.ChainHistory | server/src/auth/auth.service.ts:541-599 | Whatever the other chains and the prune do, each chain's log is a run of the single-chain model with one expiry |
| RefreshSystem.HonouredAlike | server/src/auth/auth.service.ts:571-585 | In the log of a whole run, two honoured presentations of one token were a rotation and a later grace answer with the same successor |
| RefreshSystem.ReusedChainIsDead | server/src/auth/auth.service.ts:586-596 | In the log of a whole run, every presentation after a reuse of its chain is refused as revoked |
| RefreshSystem.SkewBoundIsExact | server/src/auth/auth.service.ts:550-556 | A verifying token can meet the unknown-chain refusal if and only if the clock skew may exceed a day minus the verifier's 30 s |
| RefreshSystem.VerifyingChainIsNotStale | server/src/auth/jwt-keys.service.ts:109-114 | Within the skew bound a token that passes the verifier's expiry check belongs to a row the prune spares |
| RefreshTransactions.StmtSimulates | server/src/auth/auth.service.ts:541-599 | Every statement of every transaction is one atomic event on the committed table or none |
| RefreshTransactions.StmtKeepsDbInv | server/src/auth/auth.service.ts:561-568 | What a transaction has read under its locks stays justified until it commits, whatever others do |
| RefreshTransactions.CommitPrunes | server/src/auth/auth.service.ts:550-556 | A commit that creates its chain's row removes exactly the other rows a day past their expiry |
| RefreshTransactions.LocksAlwaysHeld | server/src/auth/auth.service.ts:494-505 | In every schedule a key is locked only by a transaction that has written it and has not ended, and such a transaction holds its chain's key |
| RefreshTransactions.NobodyIsStuck | server/src/auth/auth.service.ts:494-505 | In every schedule a served transaction that has not ended can take a step, or waits for a key whose holder has not ended and frees it when it commits or rolls back |
| RefreshTransactions.RetryAfterRollback | server/src/auth/auth.service.ts:498-505 | After a first refresh is rolled back the client's retry can insert |
| RefreshTransactions.TxAsBegun | server/src/auth/auth.service.ts:520-543 | A transaction works for the token it began with, by Postgres's clock at its beginning |
| RefreshTransactions.ScheduleIsSerial | server/src/auth/auth.service.ts:514-518 | Every interleaving, racing first inserts and aborts included, has the replies, log, signed tokens and table of a serial run of atomic steps |
| RefreshTransactions.FinishedReplyIsLogged | server/src/auth/auth.service.ts:511-512 | The reply that a finished transaction gave is the serial run's entry for its token, answer included |
| RefreshTransactions.RacingRefreshesConverge | server/src/auth/auth.service.ts:514-518 | Of two concurrent presentations of one token, both honoured means the earlier commit rotated, the later got the grace answer, and both got the same successor |
| RefreshTransactions.RealTimeOrder | server/src/auth/auth.service.ts:514-518 | The serial order respects real time: a transaction that had replied before another one began stands before it in the log, whatever the skew |
| RefreshTransactions.LoneClientUnderConcurrency | server/src/auth/refresh-rotation.ts:8-12 | The lone-client condition holds unchanged under every interleaving of everybody's transactions |
| RefreshTransactions.TwoHoldersUnderConcurrency | server/src/auth/refresh-rotation.ts:8-21 | So does the condition for two holders |
| RefreshSkew.SerialKnowsFirst | server/src/auth/auth.service.ts:541-558 | Whatever the skew, no serial run refuses a login's own token as unknown |
| RefreshSkew.SerialBoundIsExact | server/src/auth/auth.service.ts:541-568 | Every interleaving is serial if and only if the clock skew is at most a day minus the verifier's 30 s |
| PasswordChange.RunKeepsInv | server/src/auth/auth.service.ts:629-709 | Over every interleaving of requests, resets and time, each request in flight and each change made rests on a temporary password it has seen |
| PasswordChange.SingleUse | server/src/auth/auth.service.ts:606-616 | Each temporary password is replaced at most once, by a password checked to differ from that very one, for a token not older than it |
| PasswordChange.OvertakenRequestRefused | server/src/auth/auth.service.ts:676-693 | A request overtaken by a reset or another change is refused by its own update and changes nothing |
| PasswordChange.RowIsLatest | server/src/auth/auth.service.ts:676-693 | In every run the row holds the password that the last successful request chose, with no temporary one left, or the temporary password of the last reset |
| PasswordChange.UpdateCommits | server/src/auth/auth.service.ts:676-693 | An update commits exactly when the hash it read is still in the row, the password is still temporary and its expiry lies ahead; then the chosen password is in the row, otherwise nothing changed |
| PasswordChange.ReadRefuses | server/src/auth/auth.service.ts:648-658 | A token is refused at the read exactly when the password is not temporary or is newer than the token, to the second |
| PasswordChange.UndisturbedChange | server/src/auth/auth.service.ts:629-709 | A request that nobody disturbs succeeds, unless it chose the temporary password again |
| PasswordChange.ResetInstalls | server/src/platform/platform-tenants.service.ts:216-225 | A reset installs its temporary password with its hours to live |
| RefreshExpiry.DateIsUnique | server/src/auth/auth.service.ts:896-902 | A day number has exactly one valid Gregorian date, so the formatter's parts are the model's |
| RefreshExpiry.KnownDays | server/src/auth/auth.service.ts:896-904 | Days of the calendar with a century that has no leap day and one that has |
| RefreshExpiry.OffsetReadBack | server/src/auth/auth.service.ts:911-922 | The parsed offset is the zone's, except that -59 to -1 minutes come back positive |
| RefreshExpiry.NextFourIsUnique | server/src/auth/auth.service.ts:871-875 | There is one local 04:00 more than one and at most 25 hours ahead |
| RefreshExpiry.OneDayLater | server/src/auth/auth.service.ts:904-908 | The next day's 04:00 across month and year ends |
| RefreshExpiry.CalculateRefreshExpiry | server/src/auth/auth.service.ts:876-926 | The result is that 04:00 if and only if the offset is not between -60 and 0 minutes, and otherwise ends early by twice the offset |
| RefreshExpiry.HalfHourWest | server/src/auth/auth.service.ts:916-925 | In the zone `-00:30` at one given instant the token ends at 03:00, an hour before the zone's 04:00 |
| Uuid.MintOrder | server/src/common/ids.ts:16-32 | Any two ids of one process sort as strings in mint order, whatever the clock and the random bytes did |
| Uuid.EncodeKeepsOrder | server/src/common/ids.ts:25-31 | Bytes, hex and dashes carry the order of (timestamp, counter) into string order |
| Uuid.EncodeDecodes | server/src/common/ids.ts:25-49 | A printed id is accepted by parseUuid, has version 7 and variant 10, and holds its exact timestamp and counter |
| Uuid.KeysIncrease | server/src/common/ids.ts:17-24 | (timestamp, counter) strictly increases over any calls, also when the clock stalls or goes back |
| Uuid.StalledLead | server/src/common/ids.ts:18-24 | After k calls without a reset the timestamp leads the accepted clock value by exactly (start + k) div 4096, start at most 0x7ff |
| Uuid.MasksAreArithmetic | server/src/common/ids.ts:20-29 | All five shift and mask operations of newUuid are division, remainder and addition on the values it uses |
| Uuid.AcceptedIsPrinted | server/src/common/ids.ts:34-54 | parseUuid accepts exactly the strings that the 16 bytes of a uuid print as, and no two values print alike |
| Uuid.Generator.NewUuid | server/src/common/ids.ts:16-32 | The new state case by case; an id is returned exactly below 2^48 ms, is accepted by parseUuid, has version 7 and variant 10, and holds the state's timestamp and counter and the 62 random bits |
| Uuid.MintsBelow48Bits | server/src/common/ids.ts:25-26 | A call returns an id exactly when the timestamp in force fits in 48 bits |
| Uuid.RandomReachesId | server/src/common/ids.ts:25-30 | The bytes of an id end with the random bytes, all but the two variant bits |
| SnapshotZip.CheckEntries | server/src/backup/snapshot-zip.ts:207-234 | Accepts if and only if the declared format holds, finds exactly its files, and blames a fault the list really has |
| SnapshotZip.FormatInNumbers | server/src/backup/snapshot-zip.ts:200-234 | The format with its names and numbers |
| SnapshotZip.ImageNames | server/src/backup/snapshot-zip.ts:22 | An image name is `images/`, 32 lower-case hexadecimal digits and `.webp`, and gives those digits |
| SnapshotZip.TotalAdds | server/src/backup/snapshot-zip.ts:216-221 | Sizes add up over any split of the list |
| SnapshotZip.OrderDoesNotMatter | server/src/backup/snapshot-zip.ts:200-206 | Acceptance, data file and key map are the same for every permutation of the entries |
| SnapshotZip.CollectImageKeys | server/src/backup/snapshot-zip.ts:60-67 | The distinct well-formed keys in order of first appearance |
| SnapshotZip.KeysInOrder | server/src/backup/snapshot-zip.ts:62-66 | The keys are those of the products that name a well-formed key first, in their order |
| SnapshotZip.WriteEntries | server/src/backup/snapshot-zip.ts:90-105 | The entry list is data.json and one image for each distinct key on disk, and images + missingImages is the number of distinct keys |
| SnapshotZip.OnDiskInOrder | server/src/backup/snapshot-zip.ts:94-104 | The images written are those on disk, in the order of the keys |
| SnapshotZip.ExportIsAccepted | server/src/backup/snapshot-zip.ts:236-244 | The reader accepts an export if and only if its sizes and its number of entries are within the limits |
| SnapshotZip.ExportReadsBack | server/src/backup/snapshot-zip.ts:69-76 | What is read from an accepted export: the data file and exactly the named keys that were on disk, with their sizes |
| SnapshotZip.ForEachZipImage | server/src/backup/snapshot-zip.ts:236-289 | Serves, in the order of the wanted set, each wanted key of an acceptable file once and nothing else, and serves nothing from any other list |
| SnapshotZip.WantedInOrder | server/src/backup/snapshot-zip.ts:283 | Each wanted key is served at its first place |
| SnapshotZip.ServedInOrder | server/src/backup/snapshot-zip.ts:283-287 | The images served are those that the file holds, in the order of the keys |
| SnapshotZip.ExportServes | server/src/backup/snapshot-zip.ts:277-289 | Export, then import: the images served are exactly the wanted ones that the products name and that were on disk, each with its size |
| SnapshotZip.CopyChunks | server/src/backup/snapshot-zip.ts:116-125 | With short writes the copy succeeds exactly when every write took something; then the file is whole, else a proper beginning |
| SnapshotJson.SnapshotJson | server/src/backup/snapshot-zip.ts:48-57 | The concatenated chunks are the one-shot serialisation of the members that are not undefined |
| SnapshotJson.CharsReadBack | server/src/backup/snapshot-zip.ts:53 | An escaped string reads back character by character, whatever follows it |
| SnapshotJson.ValueReadsBack | server/src/backup/snapshot-zip.ts:53 | Every printed value parses back to itself and leaves the rest of the text |
| SnapshotJson.DataJsonReadsBack | server/src/backup/snapshot-zip.ts:258-271 | Parsing an exported data.json gives the same members in the same order |
| SnapshotJson.StreamReadsBack | server/src/backup/snapshot-zip.ts:48-57 | The members read back from the streamed text are those members of the snapshot that have a value, null included, each once and in order |
| SnapshotJson.ClosedDrawer | server/src/backup/snapshot-zip.ts:51-53 | The text of a snapshot whose only member is a null drawer |
| SnapshotJson.EscapesAre | server/src/backup/snapshot-zip.ts:53 | The escapes of quotes, backslashes and control characters |
| SnapshotJson.LiteralsAre | server/src/backup/snapshot-zip.ts:53 | The words, brackets, commas and colons of the text |
| ZipUpload.FirstDecisiveEventDecides | server/src/backup/zip-upload.ts:60-110 | In every order of events the first decisive one fixes outcome, recorded path, removal and reply |
| ZipUpload.OneOutcome | server/src/backup/zip-upload.ts:69-81 | At most one reply; a stored upload was within the limit when settled; every failure asks for the file's removal |
| ZipUpload.DeclaredDecides | server/src/backup/zip-upload.ts:61-66 | A declared length over the limit is answered with 413 whatever happens next, and any other request starts unanswered |
| ZipUpload.UndecidedExactly | server/src/backup/zip-upload.ts:82-107 | Nothing is decided as long as no failure, no end of the file and no byte over the limit has come |
| ZipUpload.WhichOutcome | server/src/backup/zip-upload.ts:82-107 | On the events themselves: what the first decisive one makes of path, file and reply, for good |
| ZipUpload.Upload.constructor | server/src/backup/zip-upload.ts:61-71 | A declared length over the limit is answered at once and nothing else happens |
| ZipUpload.Upload.FailWith | server/src/backup/zip-upload.ts:70-81 | fail on fields is Fail, a no-op once settled |
| ZipUpload.Upload.Dispatch | server/src/backup/zip-upload.ts:82-109 | The callbacks on fields are Handle on the state, for every event |
| Prompter.ReadsGetTheirLines | server/src/cli/platform.ts:132-156 | With no line after the close, read i gets line i, and exactly the reads beyond the lines are rejected, those asked after the close included |
| Prompter.NthReadGetsNthLine | server/src/cli/platform.ts:132-156 | The same law on the events themselves: the i-th read event gets the line of the i-th line event, or is rejected, or waits |
| Prompter.AlwaysFair | server/src/cli/platform.ts:132-156 | In every interleaving buffer and waiters are never both non-empty, lines are handed out first in first out, none lost and none twice |
| Prompter.Prompter.OnLine | server/src/cli/platform.ts:136-140 | The callback on fields is Handle |
| Prompter.Prompter.OnClose | server/src/cli/platform.ts:141-147 | Rejects exactly the waiting reads |
| Prompter.Prompter.NextLine | server/src/cli/platform.ts:151-156 | Takes a buffered line, else rejects after the close, else waits |
| TenantSnapshot.GroupByParent | server/src/backup/tenant-snapshot.ts:185-193 | The Map holds for each parent exactly its rows in query order |
| TenantSnapshot.ChildrenAt | server/src/backup/tenant-snapshot.ts:185-193 | A parent's rows are all rows that name it, each once, in query order |
| TenantSnapshot.EveryChildOnce | server/src/backup/tenant-snapshot.ts:437-448 | All child rows appear once if and only if every row's parent is exported; otherwise exactly those with a parent do |
| TenantSnapshot.SplitShifts | server/src/backup/tenant-snapshot.ts:468-476 | The first active shift is the drawer, all others keep their order, and shiftHistory + cashDrawer is the number of shifts |
| TenantSnapshot.CarriedExactly | server/src/backup/tenant-snapshot.ts:585-596 | Known stores are untouched, and an unknown one is exported, with its first row's value, if and only if its name is not inherited by every object |
| TenantSnapshot.ConstructorIsDropped | server/src/backup/tenant-snapshot.ts:586-588 | A row `unknownstore:constructor` is dropped, whatever its value |
| TenantSnapshot.CarriedOnRows | server/src/backup/tenant-snapshot.ts:585-596 | On the rows themselves: a store is exported with the parsed value of its first row, or with its text when that does not parse |
| TenantSnapshot.AppStoresAreCarried | server/src/backup/tenant-snapshot.ts:586-588 | Every store named `sa_...` is carried |
| TenantSnapshot.CarryForward | server/src/backup/tenant-snapshot.ts:580-596 | The loop computes exactly the carried stores, values parsed or raw |
| ReportNumbering.CountsAgree | docs/report/src/build.py:292-351 | The two ways to count agree if and only if no directive is indented |
| ReportNumbering.LabelIsPrintedNumber | docs/report/src/build.py:292-351 | In one chapter the label of any printed directive that alone carries it resolves to the number printed under it if and only if no directive of its kind up to and including it is indented |
| ReportNumbering.ForwardReferencesResolve | docs/report/src/build.py:470-476 | The same over all chapters and their files |
| ReportNumbering.IndentedFigureIsUnresolved | docs/report/src/build.py:295-299 | A chapter whose only line is an indented figure prints number 1 and leaves its label without a number |
| ReportText.LabelOfStripped | docs/report/src/build.py:295 | The label found in a line does not depend on white space at its end |
| ReportNumbering.CaptionsConcat | docs/report/src/build.py:472-476 | Counters run on from one file of a chapter into the next |
| ReportNumbering.CountAt | docs/report/src/build.py:313-343 | The counter counts the lines whose stripped text starts with the keyword |
| ReportNumbering.CaptionsAt | docs/report/src/build.py:313-343 | Captions are printed for exactly the directives, in order, with the chapter and the number of directives of their kind so far |
| ReportNumbering.LastLabelWins | docs/report/src/build.py:292-303 | A label has the number of the last directive that carries it at column 0 |
| ReportText.StripIs | docs/report/src/build.py:317 | Stripping removes the white space at both ends and nothing else |
| ReportText.LabelFromIs | docs/report/src/build.py:295 | A label stands in braces after a hash sign, as `fig:` or `tab:` and a word |
| ReportText.LabelIsFound | docs/report/src/build.py:295 | Whatever stands so is a label |
| ReportText.LabelIsLast | docs/report/src/build.py:295 | The label of a line is the last one in it |
| ReportReferences.DedupedKeys | docs/report/src/build.py:305-311 | The bibliography loses no reference, invents none and repeats no key |
| ReportReferences.DedupedInOrder | docs/report/src/build.py:307-310 | New references are numbered in the order in which a file first names their key |
| ReportNumbering.Builder.Prepass | docs/report/src/build.py:292-303 | labels is the declarative labelling of the chapter |
| ReportNumbering.Builder.Chapter | docs/report/src/build.py:313-351 | The cursor loop prints exactly the captions of its lines, table rows skipped |
| ReportNumbering.Builder.RegisterRefs | docs/report/src/build.py:305-311 | Appends exactly the references with a new key and maps every local number |
| ReportNumbering.Builder.Cite | docs/report/src/build.py:158-173 | The numbers printed for a bracket are ascending, each once, and name exactly the references it cites; every number without a reference is recorded as missing |
| ReportReferences.ExactOnRefs | docs/report/src/build.py:158-173 | On the references themselves: each printed number names a reference of the bracket, and each reference of the bracket has a printed number |
| ReportReferences.UnresolvedCount | docs/report/src/build.py:168-171 | The missing ones are counted once for each place where a number without a reference stands |
| ReportReferences.ExactStays | docs/report/src/build.py:305-311 | What a bracket printed still names exactly the same references when the bibliography has grown |
| ReportNumbering.Builder.Build | docs/report/src/build.py:469-480 | Over the whole report labels, captions and bibliography are the declarative ones, and in the end the numbers printed for every bracket name exactly the references it cites |

## Left out

- The user, tenant, password and device checks of `refreshTokenPayload` before the chain: they only refuse. Signatures, `kid`, issuer and type checks, audit rows, row-level security and rate limits belong to other components.
- `randomUUID` is taken to draw a fresh jti; `now()` is any transaction start not after the present, so rotation times need not be monotone, but Postgres's clock itself does not go back.
- RefreshTransactions.ScheduleIsSerial: needs a skew, request time included, of at most a day minus 30 s. Beyond it a row can vanish between a conflicting INSERT and its SELECT, which no serial order gives (RefreshSkew.SerialBoundIsExact).
- RefreshSystem.ChainHistory: needs the same bound, which is exact (RefreshSystem.SkewBoundIsExact).
- Isolation levels other than READ COMMITTED, the detection of deadlocks and the foreign keys of Postgres; an abort may happen at any statement, which is how a deadlock of two prunes ends.
- PasswordChange.SingleUse: argon2 is idealised, a hash standing for its password and a salt that is never reused. The password rules, tenant and user status and the tokens signed afterwards are not modelled.
- RefreshExpiry.CalculateRefreshExpiry: one fixed whole-minute offset; daylight-saving changes, zones with seconds in their offset, the fallback zone and clocks before 1970 are not modelled. Intl's formatter is an oracle for the calendar fields and the offset text.
- SnapshotJson.ValueReadsBack: numbers are their own text, as the JavaScript engine prints and reads doubles; text is Unicode scalar values, so lone surrogates and surrogate-pair escapes are not modelled, nor is the UTF-8 encoding.
- SnapshotJson.DataJsonReadsBack: members are a list; how a JavaScript object merges duplicate keys and orders integer-like ones is not modelled.
- SnapshotZip.ExportReadsBack: compression, the ZIP container, yauzl's name checks, the limit on inflated bytes in `readEntry`, and fsync, rename, hash and size check after the copy.
- ZipUpload.OneOutcome: `received` goes on growing after the upload is settled, so the limit is stated for the moment of settling; pipes, back-pressure and the pruning of leftovers are not modelled.
- Prompter.ReadsGetTheirLines: readline and terminal muting; a line after the close is handled as the code does (Prompter.AlwaysFair), the law about which read gets which line excludes it.
- TenantSnapshot: the SQL queries and the conversion of rows to JSON with rounding and dates; record counts are lengths of the lists.
- ReportNumbering: `\w` and ref_key are parameters, the numbers in a bracket are given as the bracket expression finds them, abbreviations and the document itself are not modelled, and a table without rows ends the original's run.
- Sales, returns, imports, caching and the other services of the server.
