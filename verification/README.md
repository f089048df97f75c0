# Proofs about the household manager's protocols and parsers

A Dafny model of the parts of the household manager where an interleaving, a crash, a
malformed input or a rounding could break a promise, and proofs of those promises. `dafny verify
dfyconfig.toml` checks all of it.

| files | what they model |
|---|---|
| `CspReportThrottle`, `CspProtocol`, `CspHistory`, `CspSafety`, `CspBudgets`, `CspAnswers`, `CspTightness`, `CspWaits` | the per-address limit on `POST /csp-report`, on every replica at once |
| `RateLimit`, `RateLimitProtocol`, `RateLimitSafety`, `RateLimitBudgets`, `RateLimitAnswers`, `RateLimitRace`, `RateLimitWaits` | the sliding-window limits kept in `rate_limit_log` |
| `AttachmentReconcile`, `AvatarStorage`, `AvatarSafety`, `AvatarOutcomes`, `AvatarRace` | profile photos, account purges and the reconciliation pass on one bucket |
| `JpegGrammar`, `JpegSof`, `JpegPastScan`, `JpegHeader`, `JpegScan`, `JpegExamples`, `JpegReader`, `CeilingDivision`, `JpegBounds` | the JPEG header walk, its reader, the coefficient buffer (ITU-T T.81) |
| `BodyLimits`, `GuardedBody` | the pacing of request bodies |
| `UploadGate` | the two limits on concurrent uploads |
| `ClientIp` | the client address behind the proxy chain |
| `Migrations`, `MigrationPass` | the diff of two migration histories, and the pass that applies what is pending |
| `Categories`, `ColourMix` | the category file's closure, and the colour chain of a shared event |
| `Prelude` | options, results, counting in a log of instants |

## How the concurrent parts are modelled

Each protocol is a state machine. A shared `Db` holds the clock, the committed rows and ghost
history (every admission ever committed, every key ever chosen); each actor has a transaction
state. One step is one SQL statement, one storage request or one clock tick, any actor may step
next, and any transaction may be dropped at any point (`Abort`, `Stop`, `Crash`). A transaction's
writes become visible at its commit; a row it updated or deleted is locked until then, and a
writer that meets the lock waits and re-checks. Advisory lock keys are not injective in the
subject: two subjects may share one. `Reachable` states are those some finite sequence of enabled
steps leads to, from an empty database at any clock value. Every safety result is about all of
them, through an invariant that every step keeps (`StepPreserves`).

Where the source changes something step by step, so does the model: `Entry.Admit`,
`AdmissionLog.Admit`, `Classify`, `ScanHeader`, `IccPast`, `Pieces.Read`, `Body.Poll`, the gate's
methods, `Resolve`, `ComputeDrift`, `Close`, `Emit` and `CombinedMemberColour` are methods on
fields or loops, each proved equal to a specification function (or, for `Close`, `Poll` and
`Read`, to a property stated outright) about which the lemmas speak.

## Where the code differs from what is written about it

- The limiter is documented as letting through at most `limit` requests per sliding window
  (apps/api/src/rate_limit.rs:25). With the clock and the row read by two statements, another
  subject's admission can reclaim the row in between, and `limit + 1` recorded instants then fall
  in one window: `LimiterRace.OneMoreThanTheLimit` is such a run. The condition is exact. An
  admission agrees with a store that never forgets unless it found no row
  (`LimiterBudgets.DecisionAgainstFullHistory`, an equivalence), and the documented limit holds of
  every interval exactly when no admission found its row gone with `limit` admissions still
  younger than the window (`LimiterBudgets.SlidingBudget`, which also bounds every interval by
  `limit + 1`).
- The report limit's "at most `MAX_REPORTS` per `WINDOW`" (apps/api/src/csp_report_throttle.rs:7)
  is about its own windows, which do not overlap. In an interval of that length placed anywhere,
  the most is `2 * MAX_REPORTS - 1`, and that is attained.
- The reconciliation pass says its order of listing and reading can only err in the safe direction
  (apps/api/src/attachment_reconcile.rs:291-296). That rests on uploads committing within the
  age limit, and on that alone: `PhotoRace.SafeExactly` proves that a pass with age limit m never
  reaps what a committed row names, then or later, exactly when uploads commit within m of writing
  their object. For any longer time `PhotoRace.SlowUploadIsReaped` is a run that reaps a committed
  photo.
- `judge` announces an instant it calls the next at which the verdict can change. That is exact
  unless the 64-bit nanoseconds saturate, which `BodyLimits.RecheckIsFirstBreach` characterises;
  the limits shipped never do (`BodyLimits.ProductionIsExact`), limits of eleven centuries can
  (`BodyLimits.AnnouncementCutShort`).
- The colour chain is the average, in any order, for exact weights. With the four decimals written
  this holds exactly when there are at most two members or they have one colour
  (`MemberColour.OrderShowsExactly`, `MemberColour.AverageExactly`); otherwise the order shows,
  within a bound that is proved.

## Model

| member | source | states |
|---|---|---|
| CspEntry.Entry.Admit | apps/api/src/csp_report_throttle.rs:125-139 | the entry updated in place is the row the protocol's proofs reason about, with its decision |
| CspEntry.UnchangedExactlyWhenRefused | apps/api/src/csp_report_throttle.rs:246-251 | skipping the UPDATE of an unchanged entry skips exactly the refusals, so none is counted and no admission is lost |
| CspEntry.RetryAfterIsExact | apps/api/src/csp_report_throttle.rs:132-136 | `retry_after` is positive and names the first instant at which a request would be admitted |
| CspAnswers.ReadingDecides | apps/api/src/csp_report_throttle.rs:232-251 | an address with a row is refused at its row reading exactly when its open window holds MAX_REPORTS admissions, with the exact time left; one without a row is a newcomer |
| CspAnswers.AnswerIsCounted | apps/api/src/csp_report_throttle.rs:220-306 | a caller is told Allow exactly when the commit counts one admission, at its clock reading, in the open window or a new one; no other address is touched |
| CspAnswers.StatementsGoOn | apps/api/src/csp_report_throttle.rs:220-306 | each clock reading is the clock under the lock just taken, an UPDATE of no row makes a newcomer, and only a commit ends an admission |
| CspAnswers.RoomLetsNewcomersIn | apps/api/src/csp_report_throttle.rs:274-279 | with room in the table a newcomer deletes nothing and is counted |
| CspAnswers.OtherRowsAreKept | apps/api/src/csp_report_throttle.rs:313-324 | a commit changes no other address's row but those its transaction deleted |
| CspAnswers.PurgeDeletes | apps/api/src/csp_report_throttle.rs:313-324 | each row a purge deletes is over at its instant, and stays deleted |
| CspAnswers.PurgeIsComplete | apps/api/src/csp_report_throttle.rs:278-285 | the rows counted after an admission's purge all have an open window |
| CspProtocol.Earliest | apps/api/src/csp_report_throttle.rs:280-285 | `min(window_start)`: a lower bound that some row attains, nothing for no row |
| CspHistory.AppendInWindow | apps/api/src/csp_report_throttle.rs:125-139 | counting a request on a row that matches an address's history keeps its windows disjoint and within budget |
| CspSafety.StepPreserves | apps/api/src/csp_report_throttle.rs:220-306 | every statement of any admission or purge keeps the invariant: histories, rows, locks and pending deletions agree |
| CspHistory.AppendOver | apps/api/src/csp_report_throttle.rs:106-111 | a newcomer's first row opens a window after all of its address's earlier ones |
| CspBudgets.TwiceTheBudgetSpansAWindow | apps/api/src/csp_report_throttle.rs:125-139 | 2 * MAX_REPORTS consecutive admissions of an address take at least one WINDOW |
| CspBudgets.SlidingBudget | apps/api/src/csp_report_throttle.rs:220-306 | in every run, at most 2 * MAX_REPORTS - 1 admissions of an address in any half-open interval one WINDOW long |
| CspTightness.SlidingBudgetIsAttained | apps/api/src/csp_report_throttle.rs:220-306 | a run with exactly that many, so the bound cannot be lowered |
| CspBudgets.WindowBudget | apps/api/src/csp_report_throttle.rs:220-306 | in every run, an address's windows do not overlap and none holds more than MAX_REPORTS admissions |
| CspBudgets.TableCeiling | apps/api/src/csp_report_throttle.rs:274-294 | in every run, at most MAX_TRACKED rows, each counting exactly its address's last window |
| CspBudgets.InsertNeverConflicts | apps/api/src/csp_report_throttle.rs:295-304 | no committed or pending row is in the way of an INSERT |
| CspBudgets.OpenWindowsAreKept | apps/api/src/csp_report_throttle.rs:313-324 | no step of any admission or purge removes a row whose window is open |
| CspBudgets.RefusedOnlyWhenFull | apps/api/src/csp_report_throttle.rs:146-154 | a newcomer is refused only while MAX_TRACKED open windows are held, and is told when the first of them ends |
| CspWaits.WaitsOnLaterPhase | apps/api/src/csp_report_throttle.rs:160-163 | whatever an admission waits for is held by one in a strictly later phase |
| CspWaits.NoWaitCycle | apps/api/src/csp_report_throttle.rs:225-306 | no reachable state has a cycle of admissions waiting on one another over address, table and row locks |
| CspWaits.UnblockedGoesOn | apps/api/src/csp_report_throttle.rs:220-306 | an admission that waits for nobody has a next statement it can take, at every point of the protocol |
| CspWaits.SomeAdmissionGoesOn | apps/api/src/csp_report_throttle.rs:220-306 | while admissions are under way and no hourly purge is, one of them can always take its next statement |
| SlidingWindow.AdmissionLog.Retain | apps/api/src/rate_limit.rs:63 | trimming in place keeps, in order, the admissions younger than the window |
| SlidingWindow.AdmissionLog.Admit | apps/api/src/rate_limit.rs:62-69 | the log updated in place and its answer are those the protocol's proofs reason about |
| SlidingWindow.AdmitKeepsExactlyTheWindow | apps/api/src/rate_limit.rs:58-69 | what is kept is exactly what is in the window, as often as it was recorded, and the request, admitted exactly when fewer than `limit` are |
| SlidingWindow.AdmitKeepsOrder | apps/api/src/rate_limit.rs:62-69 | a log in the order of its instants stays so |
| SlidingWindow.EmptyOnlyAtZeroLimit | apps/api/src/rate_limit.rs:178-186 | the branch that deletes the subject's own row is reached exactly with a limit of zero and everything out of the window |
| SlidingWindow.SqlTestIsForgets | apps/api/src/rate_limit.rs:204-211 | the DELETE's `max(a)` test is the rule's own on a non-empty log, and only there |
| SlidingWindow.InsideIsSuffix | apps/api/src/rate_limit.rs:63 | of a log in order, trimming keeps a suffix |
| LimiterSafety.StepPreserves | apps/api/src/rate_limit.rs:149-220 | every statement of any admission or purge keeps each stored row the end of its subject's never-forgetting history |
| LimiterSafety.AdmissionIsAlwaysStored | apps/api/src/rate_limit.rs:187-199 | an admitted request is never left out of the store by the unchanged-log test |
| LimiterSafety.OwnRowIsKept | apps/api/src/rate_limit.rs:201-217 | the DELETE at the end of an admission never selects the row that admission just wrote |
| LimiterBudgets.DecisionAgainstFullHistory | apps/api/src/rate_limit.rs:149-220 | against a store that never forgets: admitted exactly when fewer than `limit` admissions are younger than the window at the clock reading or no row was found, and never with `limit` of them still younger at the row reading |
| LimiterBudgets.FoundIsStored | apps/api/src/rate_limit.rs:164-175 | the row reading finds a row exactly when one is stored: an empty log read always means no row |
| LimiterAnswers.AnswerIsCounted | apps/api/src/rate_limit.rs:149-220 | the caller is let through exactly when the commit records one admission, at its clock reading |
| LimiterAnswers.OnlyTheForgottenGo | apps/api/src/rate_limit.rs:200-217 | an admission deletes only rows of other subjects of its own limit whose admissions all left that window, the purge only such rows; what is selected goes |
| LimiterAnswers.ForgettingDeletes | apps/api/src/rate_limit.rs:205-213 | each row a DELETE takes is forgotten by the rule of its own kind |
| LimiterBudgets.LastReadAWindowLater | apps/api/src/rate_limit.rs:149-220 | among `limit + 1` consecutive admissions, the last one's row is read at least a window after the first one's recorded instant |
| LimiterBudgets.SlidingBudget | apps/api/src/rate_limit.rs:149-220 | at most `limit + 1` recorded instants in any half-open interval one window long; at most `limit` in every such interval exactly when no admission found its row gone with `limit` admissions still younger than the window |
| LimiterAnswers.ShippedBudgets | apps/api/src/rate_limit.rs:91-102 | the bound with the numbers of the four limits shipped |
| LimiterBudgets.StoredRowsForgetByTheRule | apps/api/src/rate_limit.rs:227-246 | in every run, the purge's SQL test on a stored row is `forgets` |
| LimiterRace.OneMoreThanTheLimit | apps/api/src/rate_limit.rs:149-220 | a run that records `limit + 1` admissions within one window |
| LimiterWaits.WaitsOnLaterPhase | apps/api/src/rate_limit.rs:200-217 | whatever a transaction waits for is held by one in a strictly later phase, and one that has stored its row never waits |
| LimiterWaits.NoWaitCycle | apps/api/src/rate_limit.rs:200-217 | no cycle of admissions, or of admissions and one purge, waiting on one another over subject and row locks |
| LimiterWaits.SomeoneGoesOn | apps/api/src/rate_limit.rs:200-217 | while a transaction is under way, one of them can always take its next statement |
| Reconcile.Classify | apps/api/src/attachment_reconcile.rs:125-145 | the loop's scan is the one the properties below are about |
| Reconcile.OrphansExactly | apps/api/src/attachment_reconcile.rs:125-145 | orphans are exactly the listed objects no row names whose known instant is strictly before the cutoff |
| Reconcile.EveryObjectCountedOnce | apps/api/src/attachment_reconcile.rs:167 | the four counts of the summary add up to the objects listed |
| Reconcile.ScanExactly | apps/api/src/attachment_reconcile.rs:132-142 | each list and count of the scan on its own, in order and with repeats |
| Reconcile.OrphansMonotone | apps/api/src/attachment_reconcile.rs:118-124 | knowing fewer keys, or a later cutoff, never clears an orphan |
| PhotoSafety.StepPreserves | apps/api/src/avatar.rs:691-725 | every step of uploads, removals, purges and passes, stops included, keeps the invariant |
| PhotoSafety.PassReapsOnlyTheDead | apps/api/src/attachment_reconcile.rs:283-324 | when uploads commit within a pass's age limit, it deletes no object whose key a committed row names then or in any later state, whatever other passes do |
| PhotoRace.SafeExactly | apps/api/src/attachment_reconcile.rs:283-324 | an age limit is safe in that sense exactly when uploads commit within it |
| PhotoSafety.NamedWhenListedIsProtected | apps/api/src/attachment_reconcile.rs:291-298 | listing before reading alone protects every object a row named when it was listed, whatever its age |
| PhotoRace.SlowUploadIsReaped | apps/api/src/attachment_reconcile.rs:36-41 | for every age limit shorter than uploads may take, a run reaps the object of a key committed one instant past the limit after the object was written |
| PhotoSafety.DiscardNeverHitsANamedKey | apps/api/src/avatar.rs:718-725 | an upload's or a purge's deletion of the previous object never hits a key a row names, then or later |
| PhotoOutcomes.CommittedKeysAreStored | apps/api/src/avatar.rs:749-770 | a committed key names a stored object, unless a removal of that very key is between its erase and its commit or stopped there, or a pass with an age limit shorter than uploads may take reaped it |
| PhotoOutcomes.NothingIsLeftBehind | apps/api/src/attachment_reconcile.rs:14-22 | a stored object no row names belongs to an upload about to commit it, is about to be deleted, or was left by an interrupted one |
| PhotoOutcomes.CommitLeaves | apps/api/src/avatar.rs:762-769 | what a finished upload, removal or purge leaves in the row and the bucket, and that nothing else changes |
| PhotoOutcomes.ReplacedIsDeletedNext | apps/api/src/avatar.rs:716-725 | a commit that takes a key away goes on to delete exactly that key's object |
| PhotoOutcomes.PurgedStays | apps/api/src/avatar.rs:693-704 | no upload writes a key on a purged account |
| PhotoOutcomes.LockReadsTheRow | apps/api/src/avatar.rs:697-704 | at the row lock each handler reads the key as it is, and an upload of a purged account stops |
| PhotoOutcomes.StatementsGoOn | apps/api/src/avatar.rs:745-771 | past the lock nothing but a commit or a stop lets the row go |
| PhotoOutcomes.UnblockedGoesOn | apps/api/src/avatar.rs:745-771 | whoever is not kept from its row by another has a next statement at every point |
| PhotoOutcomes.ListingNotes | apps/api/src/attachment_reconcile.rs:297 | a listing notes each object it meets with the instant it was written, if the storage gave one |
| PhotoOutcomes.ReapedExactly | apps/api/src/attachment_reconcile.rs:297-301 | a pass reaps exactly the listed objects no row names at the table read and whose instant is before `now` less the age limit |
| JpegSof.ParsesExactly | apps/api/src/avatar.rs:343-376 | a SOF segment parses exactly when it spells a frame with good factors, byte by byte as section B.2.2 of T.81 orders them, and to that frame |
| JpegSof.SpelledParses | apps/api/src/avatar.rs:343-376 | round trip: every frame's spelling parses to its width, height, coding and factors, whatever follows |
| JpegSof.SofMarkers | apps/api/src/avatar.rs:300 | which markers are SOF, and which coding each says |
| JpegFrame.ParsedFrame | apps/api/src/avatar.rs:343-376 | a frame that parses has 1 to 255 components with factors 1 to 4 and sides of 16 bits |
| JpegGrammar.WalkSound | apps/api/src/avatar.rs:250-305 | what the header's grammar reads is well-formed and spells the bytes it was read from |
| JpegGrammar.WalkReads | apps/api/src/avatar.rs:250-305 | the grammar is unambiguous: what fill bytes, standalone markers, segments and a tail spell reads back as them |
| JpegPastScan.IccExactly | apps/api/src/avatar.rs:314-341 | an APP2 marker is found exactly when scans' data, stuffed bytes, fill bytes, markers without length and other segments lead up to one |
| JpegScan.IccPast | apps/api/src/avatar.rs:321-341 | the loop answers what `IccExactly` is about |
| JpegScan.ScanHeader | apps/api/src/avatar.rs:250-305 | the index-driven walk answers what the grammar says, its slices joined |
| JpegHeader.ScannedExactly | apps/api/src/avatar.rs:250-305 | a header is accepted exactly when its SOF segments parse, one is there and no APP2 marker follows the first scan's start in the sense of `IccExactly`; what is kept is the file minus exactly the header's APP2 segments |
| JpegHeader.RefusedOutsideTheGrammar | apps/api/src/avatar.rs:250-305 | bytes that spell no header are unreadable |
| JpegHeader.WithoutIccMembers | apps/api/src/avatar.rs:295-298 | the segments kept are exactly those that are not APP2 |
| JpegHeader.FrameWithoutIcc | apps/api/src/avatar.rs:299-302 | cutting APP2 segments leaves the declared frame as it was |
| JpegHeader.ScanIsIdempotent | apps/api/src/avatar.rs:250-305 | scanning what a scan kept gives the same frame and drops nothing more |
| JpegExamples.ProfileIsCut | apps/api/src/avatar.rs:250-311 | a whole file byte by byte: fill byte, restart marker, profile and frame, answered with the profile alone cut and the frame read |
| JpegExamples.ProfilePastScanIsRefused | apps/api/src/avatar.rs:278-283 | the same file with a profile past its start of scan, stuffed data in between, is too large |
| JpegExamples.StandaloneMarkers | apps/api/src/avatar.rs:270 | the markers without length are TEM and the eight restart markers |
| JpegReader.Pieces.Read | apps/api/src/avatar.rs:458-468 | one read serves the next bytes in order into the buffer's start, none only at the end or into no buffer |
| JpegReader.Pieces.ReadInto | apps/api/src/avatar.rs:458-468 | any sequence of buffer sizes delivers the slices byte for byte, all of them once enough reads are made |
| JpegBounds.AxisHoldsComponent | apps/api/src/avatar.rs:401-402 | along an axis the reckoned blocks hold the component's ceil(size * factor / max) samples in whole blocks of eight, with less than one MCU over |
| JpegBounds.BufferHoldsEveryComponent | apps/api/src/avatar.rs:395-408 | the reckoned buffer is at least what the frame's components need together |
| JpegBounds.BufferOvershootsLittle | apps/api/src/avatar.rs:395-408 | the reckoned buffer is less than one MCU along each axis of each component above the need |
| JpegBounds.BufferIsExactForWholeMcus | apps/api/src/avatar.rs:395-408 | for a frame of whole MCUs it is exactly the need |
| JpegBounds.MaxIsReached | apps/api/src/avatar.rs:396-397 | the factors reckoned with are some component's |
| JpegBounds.AdmittedPhoto | apps/api/src/avatar.rs:202-205 | 3200 by 2400 in 4:2:0 needs 23.0 MB |
| JpegBounds.BufferGrows | apps/api/src/avatar.rs:395-408 | a wider or taller frame never needs less |
| JpegBounds.BufferFits64Bits | apps/api/src/avatar.rs:403-407 | no frame a SOF segment can declare overflows 64 bits |
| BodyLimits.AverageIsExact | apps/http_guard/src/limits.rs:86-93 | the floor division decides elapsed * min_bytes_per_sec > received * 10^9 with no rounding, a rate of zero standing for one |
| BodyLimits.VerdictExactly | apps/http_guard/src/limits.rs:79-93 | which breach is answered, when: the total first, then silence, then the rate from grace on |
| BodyLimits.ProductionVerdicts | apps/http_guard/src/limits.rs:30-40 | the limits shipped are fifteen minutes, thirty seconds of silence, and a thousand bytes a second from ten seconds on |
| BodyLimits.RecheckIsFirstBreach | apps/http_guard/src/limits.rs:79-102 | the announced instant is in the future, every earlier verdict announces it and it is a breach, exactly when 64 bits do not cut it short |
| BodyLimits.ProductionIsExact | apps/http_guard/src/limits.rs:35-40 | with the limits shipped the announced instant is always the exact first breach |
| BodyLimits.AnnouncementCutShort | apps/http_guard/src/limits.rs:96-97 | limits and a body for which 64 bits cut the announcement short: nothing breaks at the instant announced |
| BodyLimits.MoreBytesNeverBreach | apps/http_guard/src/limits.rs:79-102 | more bytes or a more recent chunk never turn a wait within bounds into a breach |
| BodyLimits.RecheckWithinBounds | apps/http_guard/src/limits.rs:98-101 | the announced instant is no later than the total, nor than the last chunk plus the silence allowed |
| GuardedBody.AnnouncedIsFirstBreach | apps/http_guard/src/body.rs:126-127 | the deadline armed is the first instant at which a bound breaks if no byte comes |
| GuardedBody.BreachedStays | apps/http_guard/src/body.rs:140-141 | judged again later with no byte come, a breach is still a breach, on which the loop relies to end |
| GuardedBody.Body.Poll | apps/http_guard/src/body.rs:82-145 | Pending only with a timer at the exact first breach; at most two rounds; a breach found is latched and answered ever after; a ready frame is delivered unjudged and data moves the clock |
| UploadSlots.ReleaseUndoesTake | apps/http_guard/src/gate.rs:64-81 | giving back a slot just taken restores the map, absent key included |
| UploadSlots.Gate.TakeSlot | apps/http_guard/src/gate.rs:64-71 | the map edited in place and the answer are those of the interleaving proofs |
| UploadSlots.Gate.ReleaseSlot | apps/http_guard/src/gate.rs:73-81 | the map edited in place is that of the interleaving proofs |
| UploadSlots.Gate.TryAcquire | apps/http_guard/src/gate.rs:123-142 | on its own, a permit takes one slot and one place for that account; a refusal, for its account or the pool, changes nothing |
| UploadSlots.Gate.Drop | apps/http_guard/src/gate.rs:99-104 | dropping a permit gives back one slot and one place |
| UploadGate.StepPreserves | apps/http_guard/src/gate.rs:123-142 | every critical section of any acquisition or drop keeps both counts exact |
| UploadGate.CountsAreExact | apps/http_guard/src/gate.rs:123-142 | in every interleaving an account's count is its undropped permits and its attempts between slot and pool, never stored as zero, never past the limit |
| UploadGate.PoolIsConserved | apps/http_guard/src/gate.rs:130-136 | permits out and places left are always the pool's |
| UploadGate.ReleaseFindsItsAccount | apps/http_guard/src/gate.rs:73-81 | giving a slot back never meets an absent account |
| UploadGate.AllDroppedRestoresAll | apps/http_guard/src/gate.rs:99-104 | once every upload is over the map is empty and the pool full |
| UploadGate.RefusedOnlyWhenFull | apps/http_guard/src/gate.rs:130-140 | an attempt that has its slot is refused exactly when every place of the pool is taken |
| ForwardedHeader.Resolve | apps/api/src/client_ip.rs:112-152 | the loop from the right answers what the specification of the walk says |
| ForwardedHeader.ResolvedIs | apps/api/src/client_ip.rs:127-151 | behind a trusted peer: the rightmost untrusted address of the longest parseable end of the header, else that end's leftmost, else the peer |
| ForwardedHeader.PeerIsClient | apps/api/src/client_ip.rs:117-125 | no peer gives the unspecified address; an untrusted peer, or one that sent no header, is the client |
| ForwardedHeader.TrimExactly | apps/api/src/client_ip.rs:133-136 | trimming an entry takes the blanks at both ends and nothing else |
| ForwardedHeader.ForwardedGives | apps/api/src/client_ip.rs:127-130 | each proxy that appends the address it saw adds exactly that address at the end, whatever was there before |
| ForwardedHeader.ClientIsResolved | apps/api/src/client_ip.rs:112-152 | an untrusted client behind any number of appending trusted proxies is resolved whatever header it sent |
| SchemaHistory.ComputeDrift | apps/api/src/migrations.rs:263-291 | the two loops' four sorted lists are the diff the properties below are about |
| SchemaHistory.SortedAscending | apps/api/src/migrations.rs:282-289 | sorting orders the versions and neither adds nor loses an occurrence |
| SchemaHistory.DriftExactly | apps/api/src/migrations.rs:170-184 | for unique versions each list holds exactly the versions that differ in its way |
| SchemaHistory.DriftListsAreApart | apps/api/src/migrations.rs:170-184 | the lists are sorted and no version is in two of them |
| SchemaHistory.CurrentExactly | apps/api/src/migrations.rs:187-193 | no drift exactly when the recorded version-to-checksum map is the embedded one and every row succeeded |
| MigrationPass.StepPreserves | apps/api/src/migrations.rs:509-540 | every step of a pass, a crash included, keeps what is committed equal to what is recorded, and what the open transaction wrote a whole beginning of its migration |
| MigrationPass.EffectsMatchHistory | apps/api/src/migrations.rs:462-490 | in every run a migration's statements are committed, all of them and once each, exactly when its row is: the transaction publishes what it ran and nothing else |
| MigrationPass.StoppedLeavesOnlyPending | apps/api/src/migrations.rs:493-505 | wherever a pass stopped, the drift is pending migrations only, exactly those without a row, and the next pass is not refused |
| MigrationPass.StartsExactly | apps/api/src/migrations.rs:255-262 | a pass starts exactly when the diff lists nothing failed, modified or unknown |
| MigrationPass.TimeIsFilledIn | apps/api/src/migrations.rs:529-537 | the statement after the commit writes the time into the migration's own row and changes nothing else |
| MigrationPass.AppliedInTurn | apps/api/src/migrations.rs:509-540 | from an empty database, through any crashes, what took effect is a prefix of the migrations, whole and in order; all of them once a pass finished |
| MigrationPass.FinishedIsCurrent | apps/api/src/migrations.rs:509-540 | a pass that finishes, after any number of crashed ones, leaves no drift |
| MigrationPass.CanFinish | apps/api/src/migrations.rs:509-540 | from wherever a run stopped, some continuation without a further crash finishes the pass |
| CategoryClosure.Close | apps/api/data/build_off_categories.py:61-67 | the worklist ends, with the least set that holds the named categories and is closed under parents in the taxonomy, whatever order it starts in |
| CategoryClosure.KeptExactly | apps/api/data/build_off_categories.py:9-11 | kept is exactly: named in French, or an ancestor of such a category |
| CategoryClosure.Emit | apps/api/data/build_off_categories.py:73-76 | one line for each kept category and no other, with the entry's kept parents in its order |
| CategoryClosure.AscentIsWritten | apps/api/data/build_off_categories.py:9-11 | no way up from a named category is cut: each step is a parent written in a line |
| CategoryClosure.ParentsAreLines | apps/api/data/build_off_categories.py:73-76 | every parent written is itself a line, and only parents the taxonomy lacks are left out |
| MemberColour.CombinedMemberColour | apps/web/src/app.rs:677-693 | the accumulator loop builds the chain the properties below are about, `--accent` for nobody, the plain colour for one |
| MemberColour.ExactChainIsAverage | apps/web/src/app.rs:650-654 | with exact weights the chain evaluates to the average |
| MemberColour.ExactChainInAnyOrder | apps/web/src/app.rs:650-654 | with exact weights no order of the members shows |
| MemberColour.WrittenChainIsClose | apps/web/src/app.rs:683-690 | with the weights as written, the chain is within (n - 1) * spread * 5 * 10^-7 of the average |
| MemberColour.FourPlacesExactly | apps/web/src/app.rs:688 | a weight is written as the nearest ten-thousandth of a percent, a tie as the even one |
| MemberColour.WrittenChainInAnyOrder | apps/web/src/app.rs:683-690 | with the weights as written, any two orders differ by at most twice that |
| MemberColour.OrderShowsExactly | apps/web/src/app.rs:683-690 | with the weights as written, no order shows exactly when there are at most two members or they have one colour |
| MemberColour.AverageExactly | apps/web/src/app.rs:650-654 | the written colour is the average in every order exactly then |
| MemberColour.SwapShows | apps/web/src/app.rs:683-690 | swapping the second and third of three or more members shows whenever their colours differ |
| MemberColour.WrittenOrderShows | apps/web/src/app.rs:683-690 | three colours whose order does show |

## Left out

- SQL text, connection pools, object-store requests, the clock: only the visible effect of each statement is modelled, on natural-number instants of one clock that never goes back.
- The purges' callers: the hourly purge reads its process's clock (apps/api/src/jobs/retention_purge.rs:125), the model gives it any instant not after the database's clock. With a process clock ahead of the database's, it could drop open windows.
- Wait cycles through the hourly purge: it takes row locks in whatever order the rows come, so the lock results of the report limit are about admissions; those of the sliding limits include one purge, as `scheduled_pass` runs one at a time (apps/api/src/jobs/retention_purge.rs:135-140).
- CspBudgets.SlidingBudget: a DELETE is modelled one row at a time and may stop anywhere before its commit, more than Postgres allows; an admission's own purge does have to be complete before it counts.
- LimiterBudgets.SlidingBudget: rows a DELETE skips or has not reached are both simply not deleted; the order in which waiters get a lock is any order.
- Pseudonyms: a subject is its pseudonym, so two subjects with one pseudonym are one here; the hashing is not modelled.
- Stored counts are naturals: the casts between the column's `integer` and `u32`, and the instants' range, are not modelled.
- PhotoSafety.PassReapsOnlyTheDead: object instants and the pass's `now` are of one clock, and storage requests take effect when made. Its condition on uploads is necessary (`PhotoRace.SafeExactly`).
- Attachments' own rows and keys in the reconciliation pass, `parse_args`, the dry run, the row-level-security check, the account purge's other tables.
- JpegHeader.ScannedExactly: the decoder is not modelled, so that it ignores the colour profile is not claimed; APP2 past the first scan is what `icc_past` takes it to be.
- PNG metadata, bounds on decoded sizes, re-encoding, EXIF orientation, cropping: decoder crates, or branches read at a glance.
- GuardedBody.Body.Poll: instants are naturals that never go back, so saturating `Instant` subtraction never saturates; `total` is taken to fit 64-bit nanoseconds; wakers and the inner body's own behaviour are left out. A timer found due is due, one found pending may be late.
- The gate's mutex poisoning and `in_flight`.
- ForwardedHeader.ClientIsResolved: address parsing, printing and network containment are parameters, with printing required to give one unpadded token that parses back; blanks are space and tab, the only ones a header value can hold.
- `-- no-transaction` migrations (the repository has none), several passes at once (the migrator's lock), statements that fail for their content (a failing statement is a crash).
- MigrationPass.AppliedInTurn: versions are in the order the binary embeds them; the execution time, which a crash may leave at -1, is modelled but not timed.
- The category file: `french_names`' filtering (an entry has the names it gives), the sorted order of the lines (any order is allowed), the text and compression of the file.
- MemberColour.WrittenChainIsClose: weights are rounded from exact quotients to four decimals, a tie to the even one; double-precision rounding before that and the browser's own arithmetic are not modelled. The CSS is a tree, not its text.
- Pages, routing, sign-in, error mapping, origin checks, shutdown: plumbing, or rules readable branch by branch.
