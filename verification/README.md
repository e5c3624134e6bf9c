# Verified models of the add-on cores

Dafny models of the parts of this repository whose correctness is hardest to see by reading, with
proofs of what they promise.  Each module follows one component.

- `StorageMachine`, `SpaceGuard`, `Reconcile`, `PowerLoss`, `StorageWriter`, `MidnightStart`: the
  py-syslog storage sink.  Its log directory is a map from structured names (active base, daily archives, numbered
  segments, orphans, tmp partials, other files) to contents, and every step after which a fault may
  fall is an event of one state machine.  The class `Writer` has the source's fields and methods; each
  method appends the events it performed to a ghost history, so every history a writer can produce,
  cut short anywhere by a raised error or a dead process, is a run the machine's theorems speak about.
- `SlotWalk`, `DayChain`, `ProvisionalLine`: the lazy, early-exit walks of wxverify over its day
  records, proved equal to plain filters and sorts over all records.
- `Updater`: the py-ddns reconcile loop against a ghost DNS record and an environment that may fail at
  every call.
- `DnsMessage`, `Hostname`: the DNS query builder, the reply parser and the name validation in front
  of them.
- `StoredLine`, `Rfc5424`: the py-syslog escaper, line renderer and RFC 5424 parser.
- `Cadence`, `Scheduler`: the py-weather interval estimator and earliest-due loop.

`dafny verify dfyconfig.toml` checks the whole project.

## What the proofs found

Most of what the documentation promises holds as stated.  Where the code does something else, the
model follows the code, and a theorem says exactly when the promise holds.

- A writer start whose clock reads straddle midnight archives the base it finds under its own open
  date, and the first write then replaces that archive.  `StraddlingStartLosesTheBase`: a start and
  first write keep or prune every line if and only if the start does not straddle midnight over a
  non-empty base last written on the open date and within retention; `StraddlingStartExample` is one
  losing run.  The docstring (writer.py:376-379) concedes a same-day collision.  `Writer.Boot` covers
  every start.  The whole-run theorems assume `SafeRun`, which excludes starts that straddle midnight
  over any base of the open date: over an empty one nothing is lost, but an empty archive is left and
  later replaced, which the no-overwrite theorem would not allow.
- A start that dies while it gzips an orphan can leave the orphan beside its own tmp partial
  (`InterruptedOrphanTrips`).  The next start gzips the orphan, which renames that partial away, and
  then fails to unlink the name it listed earlier: the start raises and only the one after it works.
  `Writer.Boot` succeeds, short of failing calls, if and only if no orphan without an archive has a tmp
  partial of its own.  Nothing is lost either way.
- When `close()` raises in the size roll, the handle stays set but closed, and every line is refused
  until the date changes.  When it raises in the daily rollover, the next write rolls over after all:
  closing again does nothing.  `Writer.Write` succeeds exactly when no call fails, swallowed deletions
  aside, and it does not meet such a handle on its open date.
- A line can be stored, and count as accepted, although `write` raises: the size roll after it may fail.
- A ring-buffer deletion whose directory fsync fails has happened but is not counted, neither as a
  deletion nor in bytes; every other one is (`CountedUnlessUnsynced`).
- `_undone_spans` returns nothing when no day is done and the records end before now, although the days
  are undone; `UndoneSpansMissesExactly` says this is the only case and `UndoneDayIsMissed` is one.
- The hostname label pattern ends in `$`, which also matches before a closing line feed.  Accepted
  labels are letters, digits and hyphens if and only if the normalised name holds no line feed
  (`AcceptedLabelsAreLdhIff`, with `LineFeedLabelIsAccepted` as an instance).
- The STRUCTURED-DATA splitter misreads lines that RFC 5424 allows.  `SplitRoundTripIff` and
  `LineRoundTripIff` say exactly which come back: those with no `[` in any SD-ID, PARAM-NAME or
  PARAM-VALUE outside a backslash pair, and with no element that has no parameters and whose SD-ID
  leaves a backslash to escape the closing bracket.  Three instances are given.
- The startup self-heal is over after the first cycle even when that cycle failed.  With drift checks
  off and a first cycle that applied nothing, the record is healed by later cycles if and only if it was
  right to begin with or the last-known value was not the detected one (`StartupHeals`);
  `StaleRecordStays` is a start after which it never is.
- A DNS reply with any rcode except 3 is read as a success (`ReplyRoundTrip`).

## Assumptions

The clock never goes back.  Directory contents survive a process crash once flushed; the separate
`PowerLoss` machine covers what fsync is for.  The walks assume what the docstrings state of the day
records: no gap and one date apart (`Chain`), local dates within a day of the UTC date of their start
(`LocalDates`), `done_at` not falling as the date rises (`DoneAtRises`), and every slot of a day
earlier than the end of the next day (`InDayOrder`).  A sleep lasts at least as long as asked unless it
is stopped.

## Model

| member | source | states |
|---|---|---|
| StorageMachine.StepKeepsInv | py-syslog/pysyslog/writer.py:346-409 | every step, faulty or not, that does not archive a base of the open date at a start keeps the directory invariant, the process invariant and the conservation of accepted lines |
| StorageMachine.NoLineLost | py-syslog/pysyslog/writer.py:600-619 | after any run, with safe starts, of writes, rotations, failures, crashes and restarts, every accepted line is in the base, an orphan or a complete archive, or was pruned |
| StorageMachine.NothingDuplicated | py-syslog/pysyslog/writer.py:395-409 | unless a gzip stops between its rename and its unlink, no line is held twice, nor both held and pruned |
| StorageMachine.NoArchiveOverwritten | py-syslog/pysyslog/writer.py:383-393 | in every reachable state a rename lands on an absent name or on an archive with the same content |
| StorageMachine.NothingInvented | py-syslog/pysyslog/writer.py:600-619 | with no failed flush, nothing unaccepted is ever held or pruned, whatever crashes or stops |
| StorageMachine.RunBalances | py-syslog/pysyslog/writer.py:346-409 | with no failed flush and no stop between rename and unlink, the multiset of lines held and pruned equals the lines accepted |
| StorageMachine.StopsOnlyDuplicate | py-syslog/pysyslog/writer.py:395-409 | with gzips stopped anywhere lines may only be held more than once |
| StorageMachine.AlwaysInOrder | py-syslog/pysyslog/writer.py:346-352 | over any run at all, whatever fails or crashes, the lines of every file are in the order they were submitted, and those still waiting come after the base's |
| MidnightStart.StraddlingStartLosesTheBase | py-syslog/pysyslog/writer.py:346-381 | a start and first write keep or prune every line exactly when they do not straddle midnight over a non-empty base of the open date within retention |
| MidnightStart.StraddlingStartExample | py-syslog/pysyslog/writer.py:368-381 | one such start from a sound state loses an accepted line |
| SpaceGuard.VictimsAreOldest | py-syslog/pysyslog/writer.py:116-131 | none that is left is older by date, or within a day by number with the daily archive ahead of every segment, than one of the first n; and they are n archives, or all of them |
| SpaceGuard.PrefixIsVictims | py-syslog/pysyslog/writer.py:546-565 | any down-closed set of archives is exactly the first so many in key order |
| SpaceGuard.PruneFrees | py-syslog/pysyslog/writer.py:417-429 | deleting an archive lowers the directory's weight by that archive's size and nothing else |
| SpaceGuard.WeightIs | py-syslog/pysyslog/writer.py:417-429 | the weight counts the base, every orphan, partial, archive and other file at its own size, and nothing else |
| SpaceGuard.LimitsMean | py-syslog/pysyslog/writer.py:511-518 | the integer tests are the percentage limits: weight*100 > total*cap, and free*100 <= total*floor - 100 |
| SpaceGuard.OverBudgetMeans | py-syslog/pysyslog/writer.py:511-521 | over budget is exactly that one of the two percentages does not hold |
| Reconcile.StepKeepsNormal | py-syslog/pysyslog/writer.py:264-315 | no reconciliation step, at any stage it may stop, changes the normal form the directory is heading for |
| Reconcile.InterruptedRunsConverge | py-syslog/pysyslog/writer.py:250-315 | however often reconciliation is cut short, what is left still heads for the normal form of the first directory |
| Reconcile.PassesReachNormal | py-syslog/pysyslog/writer.py:250-262 | the base pass and then the orphan pass reach that normal form |
| Reconcile.NormalHoldsEverything | py-syslog/pysyslog/writer.py:274-282 | the normal form has no orphan and no partial; every orphan's and a stale base's content is in its archive and other archives are untouched |
| Reconcile.NormalIsFixed | py-syslog/pysyslog/writer.py:250-315 | a second reconciliation changes nothing |
| Reconcile.InterruptedOrphanTrips | py-syslog/pysyslog/writer.py:283-315 | dying inside an orphan's gzip leaves a directory whose next start trips over its own listing |
| PowerLoss.NothingIsLostToPower | py-syslog/pysyslog/writer.py:395-409 | after each system call, whatever subset of unsynced directory operations a power loss takes, the source or the complete fsynced gzip is there, and a final name never holds a partial |
| PowerLoss.UnlinkBeforeFsyncLoses | py-syslog/pysyslog/writer.py:406-409 | with the unlink before the directory fsync, one power loss takes both |
| StorageWriter.Writer.constructor | py-syslog/pysyslog/writer.py:182-206 | a writer begins one start event after any sound state an earlier run left |
| StorageWriter.Writer.Sound | py-syslog/pysyslog/writer.py:162-180 | in every state a writer with a safe start can be in, the machine's invariant and conservation hold |
| StorageWriter.Writer.Boot | py-syslog/pysyslog/writer.py:208-211 | a start that succeeds leaves exactly the archives, orphans and stale base within retention, each as the archive of its own key with its content, and the base open; short of failing calls it succeeds exactly when no orphan trips it; it is safe exactly when it does not find a base of its open date past midnight |
| StorageWriter.Writer.ReconcileStaleBase | py-syslog/pysyslog/writer.py:264-272 | a base of an earlier day becomes that day's archive; any other base stays |
| StorageWriter.Writer.ReconcileOrphans | py-syslog/pysyslog/writer.py:274-315 | in any order of orphans and partials, all are settled or the listing trips, and it trips only in the stated case |
| StorageWriter.Writer.PruneExpired | py-syslog/pysyslog/writer.py:317-342 | an archive, daily or segment, is left exactly when its date is at most the retention days back; a failure never takes one that is; the rest is untouched |
| StorageWriter.Writer.OpenBase | py-syslog/pysyslog/writer.py:346-352 | the base is opened for the day, or nothing changed |
| StorageWriter.Writer.RotateIfNeeded | py-syslog/pysyslog/writer.py:354-366 | on another date exactly the archives within retention are left, the base and then its buffer as that of the old open date, with an empty base open; the same date changes nothing; it fails exactly when a call fails |
| StorageWriter.Writer.FileDay | py-syslog/pysyslog/writer.py:359-364 | the buffer lands in the base and the base becomes the archive of its open date |
| StorageWriter.Writer.AtomicGzip | py-syslog/pysyslog/writer.py:395-409 | wherever it stops, the directory is one of the five stages; it reports success only at the last |
| StorageWriter.Writer.LogDirBytes | py-syslog/pysyslog/writer.py:417-429 | the scan returns the sum of all file sizes |
| StorageWriter.Writer.NextSeq | py-syslog/pysyslog/writer.py:431-446 | the number is above every same-day segment and its predecessor, if any, exists |
| StorageWriter.Writer.RollSegment | py-syslog/pysyslog/writer.py:475-481 | the base becomes the numbered segment and a new base is open on the same date |
| StorageWriter.Writer.RotateBySizeIfNeeded | py-syslog/pysyslog/writer.py:448-483 | a roll happens exactly when the threshold is reached and a number up to 999 is left: the base is then that segment, an empty base is open and the n oldest of all archives are gone; counters gain exactly that; it succeeds exactly when no call fails but a swallowed deletion |
| StorageWriter.Writer.OldestPrunable | py-syslog/pysyslog/writer.py:546-565 | every other archive is of a later day, or of the same day with a higher number; none exactly when there is no archive |
| StorageWriter.Writer.SpaceTurn | py-syslog/pysyslog/writer.py:504-544 | one turn deletes and counts the next oldest archive only when over budget, or stops for a stated reason |
| StorageWriter.Writer.DropVictim | py-syslog/pysyslog/writer.py:529-537 | a deletion is counted with its size when both calls work, and ends the loop when one fails |
| StorageWriter.Writer.EnforceSpace | py-syslog/pysyslog/writer.py:485-544 | exactly n archives go, none that is left older than one of them, each while over budget, until none is left, a step fails or the free space and the weight satisfy both percentages; the counters gain the deletions and their bytes, all but a last unsynced one |
| StorageWriter.EnforcedMeans | py-syslog/pysyslog/writer.py:504-521 | at each deletion one of the two percentages did not hold, and both do when the call ends saying so |
| StorageWriter.CountedUnlessUnsynced | py-syslog/pysyslog/writer.py:529-537 | while the process lives the counters equal the deletions and their bytes exactly when the last fsync did not fail |
| StorageWriter.EnforcedIsDetermined | py-syslog/pysyslog/writer.py:485-544 | unless a deletion fails, the measurements alone fix how many archives go, why it stops, the counters and the state |
| StorageWriter.Writer.Flush | py-syslog/pysyslog/writer.py:615-616 | behind the lines of the base come those of the buffer and then the new one; a failure appends a prefix of these and keeps the rest waiting |
| StorageWriter.Writer.PrepareBase | py-syslog/pysyslog/writer.py:611-614 | rolls over and opens a missing base; a handle is unusable afterwards exactly when its close had failed and the date is still the open date |
| StorageWriter.Writer.AcceptLine | py-syslog/pysyslog/writer.py:610-618 | an accepted line is the last of the base, behind the old lines and the buffer on the same date and alone on a new one, whose rotation filed those; it is accepted exactly when no call fails and the handle is usable |
| StorageWriter.Writer.Write | py-syslog/pysyslog/writer.py:600-619 | the whole new state and the counters of a successful write: behind the rotation the line is the last of the base or, when that has been rolled, of its segment, after which only oldest archives go; only this line is newly accepted; and exactly when it succeeds |
| StorageWriter.Writer.Shutdown | py-syslog/pysyslog/writer.py:621-629 | the handle ends unset, with a prefix of the buffer, all of it without failure, in the base |
| SlotWalk.Summarise | wxverify/wxverify/close_monitor.py:802-810 | the min and any expressions computed by one loop over a group |
| SlotWalk.SlotFromIs | wxverify/wxverify/close_monitor.py:757-766 | a group's slot has its earliest try, and its earliest answered try exactly when it has one |
| SlotWalk.DaySlots | wxverify/wxverify/close_monitor.py:780-811 | the grouping loop returns, in the order they are first seen, one slot for each set of tries that share an interval, a close attempt or an evening name and hold an answered or outage try |
| SlotWalk.GroupsShare | wxverify/wxverify/close_monitor.py:791-800 | two tries are grouped together exactly when both are daytime in one step-long interval from the start of the day, both gap-fill of one attempt with a missing one counted as 0, or both of one evening name |
| SlotWalk.SlotsOfDayAre | wxverify/wxverify/close_monitor.py:783-790 | each slot is the earliest try and the earliest answer of exactly the tries that share with one of them, and every answered or outage try shares with one slot |
| SlotWalk.NewestFirstSorts | wxverify/wxverify/close_monitor.py:838-842 | the sort is descending, a permutation, and stable at equal times |
| SlotWalk.StreamIsSorted | wxverify/wxverify/close_monitor.py:814-842 | the lazy walk yields exactly the stable newest-first sort of the slots of all days read |
| SlotWalk.SlotStream.Next | wxverify/wxverify/close_monitor.py:827-842 | each pull returns the next slot of that order and reads no further day while one is ready |
| SlotWalk.ProviderDown | wxverify/wxverify/close_monitor.py:845-880 | the early-exit walk over the lazy stream gives the verdict defined on the whole list |
| SlotWalk.ProviderDownOnDays | wxverify/wxverify/close_monitor.py:780-880 | from the tries on: for days in order, the alert is the verdict on the full sorted list of the slots, in that sense, of the newest 91 days |
| DayChain.FirstOverlapping | wxverify/wxverify/provisional_line.py:118-151 | across all three walks, the oldest record overlapping the range, none exactly when there is none |
| DayChain.WalkDates | wxverify/wxverify/provisional_line.py:145-151 | the date-by-date walk finds it from the day before the start's UTC date on |
| DayChain.DaySpans | wxverify/wxverify/provisional_line.py:154-177 | equals the plain filter of the records overlapping the range, oldest first |
| DayChain.UndoneFrom | wxverify/wxverify/provisional_line.py:191-203 | where the undone days begin, after the done prefix or at the first record |
| DayChain.UndoneSpans | wxverify/wxverify/provisional_line.py:180-208 | the started, not-done records, unless the records have run out with nothing done |
| DayChain.UndoneSpansMissesExactly | wxverify/wxverify/provisional_line.py:183-190 | it differs from the plain filter exactly in that case |
| DayChain.UndoneDayIsMissed | wxverify/wxverify/provisional_line.py:194-198 | one record list with an undone started day it does not return |
| DayChain.DoneDays | wxverify/wxverify/close_monitor.py:245-275 | the early-exit walk keeps every done day whose `done_at` reads and is within the window, newest first, and no readable one outside it |
| DayChain.NothingUsable | wxverify/wxverify/close_monitor.py:424-447 | a station is named exactly when some variable is missing on its three newest counted days; from `since` on no named variable has a value, and `since` is the earliest such day |
| DayChain.SiteNothingUsable | wxverify/wxverify/close_monitor.py:391-449 | from the day walk on, each station is judged by the closed days within the window on which it was enabled, listed and heard from |
| ProvisionalLine.DrawDay | wxverify/wxverify/obs/hourly_values.py:105-119 | exactly the whole hours inside the day that are over, all of them once the day has ended, in order |
| ProvisionalLine.LastDrawnIs | wxverify/wxverify/provisional_line.py:249-252 | the carried value is the station's value at the greatest earlier drawn hour that has one |
| ProvisionalLine.OkReadings | wxverify/wxverify/provisional_line.py:237-284 | the mutable carry and cache give the readings that pass against the declarative previous value, and carry on for every station |
| ProvisionalLine.OkSpecAre | wxverify/wxverify/provisional_line.py:237-284 | an hour's readings are, in listed order, the recorded values of the stations that pass the jump check, have an elevation and count |
| ProvisionalLine.Line | wxverify/wxverify/provisional_line.py:337-351 | over all points, drawn hours and values are those of the declarative form |
| ProvisionalLine.SiteHours | wxverify/wxverify/provisional_line.py:287-356 | an hour is drawn exactly when it is a whole hour, over by now or of an ended day, inside a started day not yet done, unless the records have run out; strictly increasing, with the consensus of the passing readings of values read up to the running hour, and the latest reading of any of them |
| Updater.JitterBounds | py-ddns/pyddns/updater.py:67-92 | every delay is within 0 to 72 seconds, and within a fifth of 2 then 4 seconds or of what Retry-After asks, at most 60 |
| Updater.RetryRunner.Run | py-ddns/pyddns/updater.py:95-139 | at most three attempts, a delay after each transient failure but the last, governed by the latest Retry-After; only transient failures are retried |
| Updater.Updater.CycleApi | py-ddns/pyddns/updater.py:224-297 | a persisted value is the one the record holds then; a completed authoritative cycle ends with both on the detected value; nothing detected, nothing touched |
| Updater.Updater.CycleCallback | py-ddns/pyddns/updater.py:301-365 | a fire is held back only when the name just resolved to the last-known value; only the post-fire answer is persisted |
| Updater.Updater.FireAndConfirm | py-ddns/pyddns/updater.py:367-410 | at most three questions, again only after a failed one; a resolved last answer, and nothing else, is persisted |
| Updater.Updater.RunOnce | py-ddns/pyddns/updater.py:190-212 | a failed cycle never changes the persisted value, and the first cycle is over whatever happened |
| Updater.Updater.Converge | py-ddns/pyddns/updater.py:224-266 | with nothing changing outside, record and last-known settle on the detected value and stay, and nothing is applied again |
| Updater.Updater.LaterCycles | py-ddns/pyddns/updater.py:240-266 | with drift checks off, fair later cycles end on the detected value exactly when the record held it or last-known was another |
| Updater.Updater.StartupHeals | py-ddns/pyddns/updater.py:190-212 | a first cycle of any outcome and fair ones after: healed exactly under that condition when the first applied nothing, as in any provider outage |
| Updater.StaleRecordStays | py-ddns/pyddns/updater.py:211-212 | one failed first read after which a stale record is never healed |
| DnsMessage.SkipName | py-ddns/pyddns/resolver.py:77-87 | on every byte string the loop ends, after hops over labels whose length octet is below 192, at the root, a pointer or the end of the data |
| DnsMessage.ParseResponse | py-ddns/pyddns/resolver.py:90-129 | on every byte string the loops end, read in bounds and agree with the recursive parse; a short header or another transaction id is an error, rcode 3 no record, and an address is the rdata of a type-A record of four octets |
| DnsMessage.CutReplyIsAnError | py-ddns/pyddns/resolver.py:110-126 | a serialised reply cut anywhere before the end of a record with no address in front of it is an error, unless the rcode is 3 |
| DnsMessage.SkipsName | py-ddns/pyddns/resolver.py:77-87 | from an encoded name of labels, labels and pointer, or pointer, the walk stops right after it |
| DnsMessage.ReplyRoundTrip | py-ddns/pyddns/resolver.py:90-129 | any serialised reply parses to its first address, or to no record exactly when there is none or the rcode is 3 |
| DnsMessage.FirstAddressIs | py-ddns/pyddns/resolver.py:110-129 | that address is the first type-A record with four octets, in terms of positions |
| Hostname.ValidateHostname | py-ddns/pyddns/config.py:202-230 | accepted exactly when the name is white space around dot-separated labels of letters, digits and hyphens in any case (a Kelvin sign as `k`, a line feed after a label let through), at most 253 characters and one trailing dot aside; each error names the first thing wrong |
| Hostname.FormIsAccepted | py-ddns/pyddns/config.py:171-175 | a name of that form is accepted, and its normal form is the labels joined |
| Hostname.BuildQuery | py-ddns/pyddns/resolver.py:48-74 | the header octets, the labels with their lengths, the root and the question octets; refused exactly when a label is too long |
| Hostname.OctetsSpell | py-ddns/pyddns/resolver.py:58-71 | the octets of a label spell it up to case |
| Hostname.StripDotsIs | py-ddns/pyddns/resolver.py:57 | every trailing dot is dropped before the labels are split, and nothing else |
| Hostname.AcceptedNameIsSent | py-ddns/pyddns/config.py:171-175 | the name put on the wire is the validated one up to case |
| Hostname.AcceptedNameBuildsALegalQuery | py-ddns/pyddns/resolver.py:48-74 | an accepted name never makes the builder raise; its query is the standard encoding, its QNAME fits 255 octets, and the name walk stops four octets before the end |
| Hostname.AcceptedIsText | py-ddns/pyddns/config.py:220-230 | every character of an accepted name is ASCII or the Kelvin sign |
| Hostname.AcceptedLabelsAreLdhIff | py-ddns/pyddns/config.py:84-88 | accepted labels are letters, digits and hyphens exactly when the normalised name has no line feed |
| Hostname.LineFeedLabelIsAccepted | py-ddns/pyddns/config.py:225-230 | one accepted name whose first label ends in a line feed |
| Hostname.DerivedLabelIffUnderZone | py-ddns/pyddns/config.py:288-315 | a label is derived exactly when the normalised name is that non-empty label, a dot and the normalised zone |
| StoredLine.Escape | py-syslog/pysyslog/models.py:132-167 | the loop computes the code point by code point escape |
| StoredLine.EscapeIs | py-syslog/pysyslog/models.py:151-166 | each escape spelled out, character by character |
| StoredLine.PlainTextPasses | py-syslog/pysyslog/models.py:142-143 | text with no control, line break or backslash is stored as it is |
| StoredLine.EscapeRoundTrip | py-syslog/pysyslog/models.py:132-167 | a decoder recovers every text from its escape |
| StoredLine.EscapeIsOneToken | py-syslog/pysyslog/models.py:151-166 | each code point's escape is one non-empty token whatever follows, and clean |
| StoredLine.PrefixFree | py-syslog/pysyslog/models.py:151-166 | no code point's escape begins another's |
| StoredLine.EscapeDistributes | py-syslog/pysyslog/models.py:132-167 | escaping distributes over concatenation |
| StoredLine.EscapeIsClean | py-syslog/pysyslog/models.py:140-144 | an escape holds no C0, DEL, C1, U+2028 or U+2029 code point |
| StoredLine.RejectControlChars | py-syslog/pysyslog/config.py:113-131 | a site or host passes exactly when it is clean |
| StoredLine.OneLine | py-syslog/pysyslog/models.py:170-205 | every stored line has exactly one line break, at its end |
| StoredLine.LineHolds | py-syslog/pysyslog/models.py:170-205 | the line's program, sender timestamp, structured data and body, the raw datagram of a malformed record, all decode to what they were |
| Rfc5424.SplitStructuredData | py-syslog/pysyslog/parser.py:140-183 | on every tail: after `-` and a space all is message, after `-` and anything else nothing, without `[` the whole tail; else the SD is the longest run of elements, or both are empty when one never closes |
| Rfc5424.SplitIsExact | py-syslog/pysyslog/parser.py:148-151 | with a non-empty SD, the tail is SD, at most one space and the message, and SD is a run of elements whose brackets outside escapes balance exactly at each end |
| Rfc5424.SplitRoundTripIff | py-syslog/pysyslog/parser.py:159-183 | rendered legal elements and message come back exactly when no id, name or value holds a `[` outside a backslash pair and no closing bracket is swallowed |
| Rfc5424.BracketInIdIsMisread | py-syslog/pysyslog/parser.py:168-169 | a legal id with a `[` loses the message |
| Rfc5424.BackslashInIdIsMisread | py-syslog/pysyslog/parser.py:165-167 | a legal id that ends in a backslash loses the message |
| Rfc5424.BracketInValueIsMisread | py-syslog/pysyslog/parser.py:168-169 | a legal value with a `[` loses the message |
| Rfc5424.HeaderRoundTrip | py-syslog/pysyslog/parser.py:107-137 | timestamp unless `-`, program with process id unless `-`, and the split of the rest come back from a rendered header |
| Rfc5424.ParseMeans | py-syslog/pysyslog/parser.py:229-248 | every datagram, without its closing line ends: malformed exactly when no one to three digits in angle brackets open it, of the RFC 5424 form exactly when what follows is a version, five tokens and a rest |
| Rfc5424.LineRoundTripIff | py-syslog/pysyslog/parser.py:229-248 | a whole line of legal elements comes back exactly under that condition |
| Cadence.BaseIntervalBounds | py-weather/pyweather/cadence.py:70-80 | the learned interval stays within the configured floor and 1800 |
| Cadence.LearnedIs | py-weather/pyweather/cadence.py:53-80 | the interval is four fifths of the median difference of the events that parse, to the nearest second with halves to the even one, within the floor and 1800; the floor when there are none |
| Cadence.MedianIs | py-weather/pyweather/cadence.py:80 | the median is the mean of the two middle values in order |
| Cadence.MajorityPullsMedian | py-weather/pyweather/cadence.py:70-80 | a strict majority of values in a band puts the median in it |
| Cadence.BaseIntervalIsRobust | py-weather/pyweather/cadence.py:65-80 | outliers short of half leave the interval between the clamped four fifths of the band's ends |
| Cadence.HalfIsNotEnough | py-weather/pyweather/cadence.py:70-80 | with exactly half the gaps in a band the median can leave it |
| Cadence.ScheduledInterval | py-weather/pyweather/cadence.py:83-87 | with jitter within 15 per cent the scheduled value is within the rounded band and never below 51 |
| Scheduler.OverdueIsPolledSoon | py-weather/pyweather/scheduler.py:251-259 | once a station is overdue, at most n - 1 polls of others happen before its own |
| Scheduler.Scheduler.constructor | py-weather/pyweather/scheduler.py:239-242 | first polls are staggered by position, and each window resumes from the boot state |
| Scheduler.Scheduler.PollStation | py-weather/pyweather/scheduler.py:169-228 | a new observation time joins the window, whose last six are kept; the rest is the learned interval of that window within 15 per cent, 86400 for an offline station, or the backoff of the fault, each at least 51 seconds |
| Scheduler.Scheduler.Earliest | py-weather/pyweather/scheduler.py:253 | the chosen station has the least due time |
| Scheduler.Scheduler.Turn | py-weather/pyweather/scheduler.py:251-259 | a turn polls the earliest due station, not before its due time, learns and reschedules it past the poll by its rest; a stop changes nothing |

## Left out

- Gzip compression, chunked copying and inodes: an archive is whole or cut, and file sizes are arbitrary functions of content.
- StorageWriter.Writer.Flush: a failed flush stores a whole number of lines, so a partly written line, and what is later written behind it, is not modelled.
- File names are structured keys: name patterns, invalid dates in names and symbolic links are not modelled, and a listing's order is free except that an orphan precedes its own partial.
- The writer's warnings, directory creation and the two gauges.
- Sockets, HTTP, TLS, signals, logging and file reading: their results are parameters or arbitrary choices.
- Updater.Updater.CycleApi: one clock value serves a whole cycle, and changes from outside fall right before the cycle's own calls.
- DnsMessage.ParseResponse: the transport and the system resolver around it, which turn its errors into failed queries, are not modelled.
- Hostname.ValidateHostname: a non-ASCII character other than the Kelvin sign stands for its own lower case, so which error a name with one gets, and the label it names, may differ; that it is refused does not.
- Hostname.BuildQuery: takes names of ASCII characters and Kelvin signs, as every accepted name is; IDNA beyond those is not modelled.
- Rfc5424.LineRoundTripIff: PRI and version are ASCII digits, the priority text table and the RFC 3164 body are not modelled.
- SQL and the tables behind the day walks: records, tries, stored rows and settings are values, with their documented guarantees as predicates.
- DayChain.SiteNothingUsable: what the presence and observation tables hold is given, and the findings are keyed by station instead of sorted by its name.
- ProvisionalLine.SiteHours: `hourly_values`, `qc_flag`, `compute_consensus`, elevations and stored values are arbitrary functions; the empty line for a switched-off close, another variable or a missing site is not modelled.
- The other alerts of the close monitor and `_undone_days`: query plumbing and message formatting.
- Floating point: cadence, jitter and backoff use exact real arithmetic.
- The endless loops of the updater and the scheduler: proved turn by turn and over every finite run.
- Scheduler.Scheduler.PollStation: the staleness warning and the save seam are not modelled.
- Option range checks, server counters, throttles and command-line checks are not modelled.
