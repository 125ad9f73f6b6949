# Verified model of fortibackup

fortibackup fetches firewall configurations, keeps deduplicated versions of them on disk,
prunes old ones, and alerts when a device has not been backed up for too long. This project
models its store, the text processing that feeds it, the watchdog that watches it, and the
small protocols around them, and proves what they promise over every input and every history.

| module | models |
|---|---|
| `Utf8`, `Text`, `Sequences`, `Wrappers` | UTF-8 (strict and lossy), `str::lines`, `str::find`, shared facts |
| `Normalize`, `NormalizeLaws` | the normal form under the dedup hash |
| `Hillstone`, `HillstoneLaws` | reading a StoneOS session and cutting out the configuration |
| `Clock` | Gregorian date-times, file-name stems |
| `Storage`, `StorageLaws` | one device's directory: listing, saving, retention, marker |
| `History` | the store as times and hashes, compared with everything fetched |
| `Backup`, `BackupLaws` | a whole run, and every directory a history of runs leads to |
| `Watchdog`, `WatchdogLaws`, `Monitoring` | alerts, alone and together with the store |
| `UrlCodec`, `Report`, `ReportLaws` | percent and form encoding, months, CSV export |
| `Config`, `Scheduler`, `Flight` | unique names, job table and hot reload, "Run now" |

How the model is set up:

- The directory is the class `Storage.DeviceDir` with a mutable map from file name to bytes; a
  directory that does not exist yet is the empty map. Its methods are proved against step
  relations (`SaveStep`, `RetentionStep`, `RunStep`), because the directory hands out its files
  in any order and equal times may be listed either way. `Backup.Reaches` chains the steps from
  an empty directory; the theorems about histories hold for every directory it admits. A
  history may contain completed runs, failed fetches, and plain saves cut off between the
  configuration and its sidecar. They may be of any length.
- The theorems about the store's contents are for histories that are well timed
  (`BackupLaws.WellTimed`): fetches in strictly later and later seconds, and no retention that
  finds more than 2^32 backups, which is where its 32-bit positions end. The suffix theorems also
  need that no retention emptied the store (`History.NeverEmptied`), and that condition is shown
  to be exact. What is proved about the marker, the watchdog and runs completing needs none of
  this: it holds for fetch times in any order.
- SHA-256, gzip, the sidecar's JSON and the marker's RFC 3339 text are arbitrary functions
  (`Storage.Codecs`) with the round-trip laws in `Lawful`. That equal hashes mean equal contents
  is assumed only where a statement says `CollisionFree`.
- Times are nanoseconds since the start of year 0. Clock readings are parameters.
- `Monitoring.World` interleaves events on any number of device directories with checks of the
  shared alert map; `WatchdogLaws.Rounds` is the map and the notices after any such checks.
- `for_hash`, `clean_hillstone`, `read_until`, `decode_segment`, the CSV loop, `check_once`,
  `validate` and `install_jobs` are loops proved against functions; the laws are about those
  functions.

Findings, where the code does something other than one might expect:

- `README.md:266-267` of the program says a no_change run does not trigger retention;
  `src/backup.rs:179` applies it on every successful run. The model follows the code.
- The stop test of the StoneOS reader is weaker than what makes stopping safe
  (`HillstoneLaws.StopIsSafeExactly`, `StopTestAcceptsCutLine`, `StopTestAcceptsBanner`): it
  accepts a last line cut off after `End`, and an `End` line in the banner.
- A second normalisation is not always the identity (`NormalizeLaws.IdempotentExactly`), nor is
  a second cleaning (`HillstoneLaws.IdempotentExactly`); each has its witness.
- A private-key header that is never closed hides all later changes of the configuration
  (`NormalizeLaws.OpenKeyBlockErasesRest`).
- With `min_copies` 0 a no_change run can delete the only copy of the unchanged configuration
  (`History.NoChangeMayEmpty`, `History.PruneEmptiesExactly`).
- A changed configuration fetched in the second of the newest backup damages that backup: in the
  same form it takes its file, in the other form the two share a sidecar
  (`BackupLaws.UsedStem`, `BackupLaws.SaveKeepsAllExactly`).
- A compressed save cut off before its sidecar is listed under the hash of its compressed bytes
  (`BackupLaws.CutOffCompressedSave`).
- The comment at `src/scheduler.rs:78-80` says a bad cron expression leaves that one device
  without a job. Installing in fact stops there, and the jobs already installed are live but no
  longer tracked; they survive every later reload with their old configuration
  (`Scheduler.ReloadExactly`, `Scheduler.FailedInstallLeaks`), as do jobs whose removal failed
  (`Scheduler.FailedRemovalLeaks`).
- `decode_segment` reads `%+A` as a byte, because `from_str_radix` takes a leading plus sign
  (`UrlCodec.PlusCountsAsDigit`); on input without such a sequence it is the RFC's decoder
  (`UrlCodec.StrictExactly`).

## Model

| member | source | states |
|---|---|---|
| Normalize.ForHash | src/normalize.rs:20-55 | the single pass with its in-PEM flag computes the normal form defined by reading the text as plain lines, encrypted values and key blocks; non-UTF-8 input is returned as it is |
| NormalizeLaws.KeyBlockIsErased | src/normalize.rs:26-66 | lines from one with any of the four private-key headers to the first with `-----END`, which may be the same, become one `<PEM-BLOB>` line; the text around them is normalised as it would be without them |
| NormalizeLaws.OpenKeyBlockErasesRest | src/normalize.rs:26-42 | without a closing line the block takes the rest of the text |
| NormalizeLaws.EncryptedValueIsErased | src/normalize.rs:44-50 | a line with no header is cut after its first ` ENC `, whose value becomes `<BLOB>` |
| NormalizeLaws.PlainLineIsKept | src/normalize.rs:51-52 | a line with neither stays as it is |
| NormalizeLaws.NoPrivateKeyIsPlain | src/normalize.rs:57-66 | a line without `PRIVATE KEY-----` opens no block, so certificates are ordinary text |
| NormalizeLaws.ItemsLossless | src/normalize.rs:20-55 | that reading keeps every source line, so only secrets can be lost by erasing them |
| NormalizeLaws.Kernel | src/normalize.rs:20-66 | two contents count as unchanged if and only if they are equal non-UTF-8 bytes, or texts that are the same once every secret is forgotten |
| NormalizeLaws.SecretChangeIsHidden | src/normalize.rs:44-50 | another encrypted value on any line outside a key block leaves the normal form as it was |
| NormalizeLaws.KeyChangeIsHidden | src/normalize.rs:26-42 | another key block of any kind and length in the place of one leaves the normal form as it was |
| NormalizeLaws.PlainChangeShows | src/normalize.rs:51-52 | changing any ordinary line changes the normal form, whatever follows it |
| NormalizeLaws.Compositional | src/normalize.rs:24-54 | whole lines with no key block open are normalised independently of what follows |
| NormalizeLaws.IdempotentExactly | src/normalize.rs:24-54 | normalising twice equals normalising once if and only if no plain line ends in CR |
| NormalizeLaws.NotAlwaysIdempotent | src/normalize.rs:24-54 | a text for which it does not |
| Hillstone.CleanHillstone | src/transport/ssh.rs:376-407 | the loop over the lines yields the output of the seeking-copying-done automaton |
| Hillstone.ReadUntil | src/transport/ssh.rs:219-254 | what is in the buffer after any sequence of data, idle, deadline and close events |
| HillstoneLaws.ReceivedExactly | src/transport/ssh.rs:219-262 | what is read is all data up to and with the first event that is the deadline, the close, an idle gap after some data, or (if asked) data after which a line of the text is `End`; without such an event, all data |
| HillstoneLaws.StopIsSafeExactly | src/transport/ssh.rs:233-262 | no continuation can change the cleaned configuration if and only if whole lines hold a start line followed by the terminator |
| HillstoneLaws.EarlyStopLosesNothing | src/transport/ssh.rs:219-254 | a session stopped on complete output gives the configuration that reading to its end gives |
| HillstoneLaws.CompleteStops | src/transport/ssh.rs:256-262 | the stop test fires on complete output |
| HillstoneLaws.StopTestAcceptsCutLine | src/transport/ssh.rs:256-262 | the stop test fires on a cut-off `End` line that a continuation can change |
| HillstoneLaws.StopTestAcceptsBanner | src/transport/ssh.rs:256-262 | the stop test fires on an `End` line before the configuration |
| HillstoneLaws.FramingIsRemoved | src/transport/ssh.rs:359-407 | of lines padded with any white space: banner, the line `Running configuration:`, lines with `--More--`, padding and everything after `End` vanish; the texts of the other lines stay |
| HillstoneLaws.UnfinishedIsKept | src/transport/ssh.rs:376-407 | without `End` the lines so far are the configuration; without a start line there is none |
| HillstoneLaws.TrimExactly | src/transport/ssh.rs:380 | trimming removes the white space at the end, all of it and nothing else |
| HillstoneLaws.IdempotentExactly | src/transport/ssh.rs:376-407 | cleaning twice equals cleaning once if and only if the raw session has no start line, or that line is a comment, or it is the anchor and the next line that is no pager prompt, if any, is a comment |
| HillstoneLaws.NotAlwaysIdempotent | src/transport/ssh.rs:376-407 | a session whose second cleaning loses everything |
| Clock.StemRoundTrip | src/storage.rs:185 | the stem of a fetch time parses back to that time without its fraction |
| Clock.TextsRead | src/storage.rs:185 | date, time and stem hold year, month, day, hour, minute and second in decimal at their places |
| Clock.SecondsAreEven | src/storage.rs:392 | from each second to the next through the calendar, every carry included, instants advance by 10^9 nanoseconds |
| Clock.Gregorian | src/storage.rs:392 | years have 366 or 365 days by the Gregorian rule, 400 of them 146097 |
| Clock.StemInjective | src/storage.rs:341-345 | two stems of the same instant are the same stem |
| Storage.DeviceDir.ListEntries | src/storage.rs:265-311 | for any order of the directory: every backup file once, oldest first, with the sidecar's hash or the recomputed one; an error if and only if some backup file has a bad name or sidecar |
| Storage.DeviceDir.LatestHash | src/storage.rs:140-143 | the hash of the newest entry of a listing |
| Storage.DeviceDir.SaveBackup | src/storage.rs:153-217 | writes configuration and sidecar unless the newest hash equals the new one; then nothing changes and the newest path is reported |
| StorageLaws.BackupNamesExactly | src/storage.rs:236-243 | backups are exactly the files ending in `.conf` or `.conf.gz` |
| StorageLaws.EntryExactly | src/storage.rs:276-305 | a backup can be listed if and only if its stem is a time and its sidecar, if any, can be read; then by its own name, size and time, under the sidecar's hash or the recomputed one |
| BackupLaws.SaveIsDescribed | src/storage.rs:165-216 | a save that writes leaves the content under the name of its time and form, and in its sidecar the size and hashes of that content, its form, and all the fetch reported; nothing else changes |
| BackupLaws.SaveSkipsExactly | src/storage.rs:165-183 | without hash collisions a save writes nothing if and only if the newest stored content has the same normal form |
| Storage.PickVictims | src/storage.rs:385-407 | the filter over the newest-first order with its 32-bit index |
| Storage.DeviceDir.DeleteVictims | src/storage.rs:409-419 | removes each file and its sidecar in turn, stopping at a missing file |
| StorageLaws.DeletesUpToMissing | src/storage.rs:409-419 | deleting stops at the first missing file; exactly the backups before it and their sidecars are gone |
| Storage.DeviceDir.ApplyRetention | src/storage.rs:355-364 | the directory loses exactly the victims of a listing and their sidecars |
| Storage.DeviceDir.PlanRetention | src/storage.rs:370-383 | the victims of a listing, with the directory unchanged |
| Storage.DeviceDir.RecordSuccess | src/storage.rs:111-120 | only the marker changes |
| StorageLaws.NamesAgree | src/storage.rs:185-188 | the written names end in `.conf`, `.conf.gz` and `.json`; the first two classify as their stem and form, and listing, deletion and mirroring agree on the sidecar |
| StorageLaws.ClassifiedName | src/backup.rs:208-214 | the mirror step and the listing agree on the sidecar of every backup file |
| Storage.SidecarIsNoBackup | src/storage.rs:28-31 | sidecars and the marker are never listed as backups |
| StorageLaws.RetentionExact | src/storage.rs:385-407 | for any order and ties, up to 2^32 entries: victims are the tail of the newest-first order, all older than the cutoff, and max(min(min_copies, n), recent) survive |
| StorageLaws.PositionsWrap | src/storage.rs:398 | with all entries old, exactly the min_copies newest survive if and only if there are at most 2^32 entries; past that more survive |
| StorageLaws.ListingIsUnique | src/storage.rs:265-311 | with distinct stems a directory has a single listing |
| StorageLaws.RetentionIsStable | src/storage.rs:385-407 | survivors have no victims at the same instant, and with min_copies at least 1 the newest hash survives |
| StorageLaws.PlannedIsDeleted | src/main.rs:233-258 | what prune prints is deleted by the later apply, whatever the order of the two listings |
| Backup.Execute | src/backup.rs:149-206 | fetch, save, retention, marker, in that order; failures of fetch and save end the run unchanged, a failed retention does not |
| BackupLaws.RunReports | src/backup.rs:149-206 | a run fails if and only if nothing was fetched or the directory cannot be listed, and then changes nothing; else it reports the size and dedup hash of the fetch and whether the newest hash was another |
| BackupLaws.RunIsDescribed | src/backup.rs:154-184 | after a run that found something new and need not delete even the newest backup, the file is there in the configured form with a true sidecar |
| BackupLaws.AddedIsConsistent | src/storage.rs:185-210 | a save in a later second, and a plain one cut off before its sidecar, append one truthful entry to the listing |
| BackupLaws.AddedEntry | src/storage.rs:190-210 | the new file reads back as the fetched content, under its dedup hash |
| BackupLaws.RetentionRefines | src/storage.rs:355-419 | retention on a consistent directory drops the oldest entries, keeps it consistent, and leaves the marker alone |
| BackupLaws.RetentionTwice | src/storage.rs:355-419 | applying retention twice at one instant removes nothing the second time and keeps the next dedup verdict |
| BackupLaws.RunRefines | src/backup.rs:149-206 | a run on a consistent directory succeeds, is save-then-prune on the abstract store, and leaves its finishing time in the marker |
| BackupLaws.RunIsSound | src/backup.rs:149-206 | on a directory whose backup names and sidecars can be read, which every reachable one is, a run with a fetched configuration succeeds whatever its times, keeps it so, and leaves its finishing time in `.last_success` |
| BackupLaws.DirectoryRefinesStore | src/backup.rs:149-206 | after any well-timed history the directory is consistent and its listing is the abstract store |
| History.StoreIsSuffixOfRle | src/storage.rs:169-183 | as long as no retention empties it, the abstract store is a suffix of the run-length compression of all fetches, not empty once anything was fetched |
| History.RecentHistoryExactly | src/storage.rs:385-407 | that holds at every point of a history if and only if each retention had min_copies at least 1 or a newest backup not older than its cutoff |
| History.PruneEmptiesExactly | src/storage.rs:398-401 | retention deletes everything if and only if min_copies is 0 and the newest backup is older than the cutoff |
| History.EveryStateIsRecoverable | src/storage.rs:169-183 | for every fetch not older than the oldest stored snapshot, the newest snapshot at or before it has its hash |
| History.NoChangeMayEmpty | src/backup.rs:179-184 | with min_copies 0, of two completed runs the first keeps its copy and the second, a no_change run, deletes it once it is older than the cutoff |
| BackupLaws.ListingIsRecentHistory | src/backup.rs:149-206 | every listing after any well-timed history in which no retention emptied the store is a recent suffix of the compressed fetch history, not empty once anything was fetched, and neighbours differ |
| BackupLaws.EveryFetchIsRecoverable | src/backup.rs:154-192 | for every fetch inside the retained window, stored or skipped, the newest file at or before it holds a configuration with the same dedup hash, and the same normal form if the hash has no collisions |
| BackupLaws.SidecarIsACache | src/storage.rs:284-300 | a plain backup is listed the same without its sidecar |
| BackupLaws.CutOffSaveIsSeenAlike | src/storage.rs:190-210 | a plain save cut off before its sidecar leaves the same listing and newest hash as a completed one |
| BackupLaws.CutOffCompressedSave | src/storage.rs:289-294 | a cut-off save is listed under its dedup hash if and only if it is plain or the hash of the compressed bytes happens to be that hash; without collisions, if and only if it is plain or compressing it gives its normal form |
| BackupLaws.NewStemKeepsAll | src/storage.rs:185-210 | a save under an unused stem leaves every earlier backup as it was, listed as it was, and truthful |
| BackupLaws.UsedStem | src/storage.rs:185-210 | under the stem of a stored backup: the same form overwrites its file, the other form leaves it but lists it under the new hash, which is its own hash or a lie |
| BackupLaws.SaveKeepsAllExactly | src/storage.rs:169-210 | a changed configuration not older than any stored one leaves all earlier backups as they were and listed as they were if and only if it is from a later second |
| BackupLaws.SameSecondOverwrites | src/storage.rs:185-195 | in any directory the same form in the same second takes the stored file and adds none |
| Watchdog.Watch.CheckOnce | src/watchdog.rs:90-138 | one tick over the shared map: new states and notices in device order |
| WatchdogLaws.IndependentMachines | src/watchdog.rs:99-137 | with distinct names each checked device steps and is notified as if it were alone |
| WatchdogLaws.Untouched | src/watchdog.rs:100-104 | a device without a marker keeps its state and gets no notice |
| WatchdogLaws.NoticesInOrder | src/watchdog.rs:99-137 | a check sends at most one notice per device, dated now, in the order of the devices |
| WatchdogLaws.RoundsAreIndependent | src/watchdog.rs:68-137 | over any sequence of checks with any configured devices, each device's entry in the shared map and its notices are those of its own machine over its own ticks |
| WatchdogLaws.TraceShape | src/watchdog.rs:90-138 | over any checks of the shared map, for every device: stale if and only if an alert is remembered, its messages form (Alert+ Recovered)*, and alerts without a recovery between are at least 24h apart |
| WatchdogLaws.AlertsSpan | src/watchdog.rs:147-151 | k alerts in a row span at least (k - 1) * 24h |
| WatchdogLaws.StaleStretchIsReported | src/watchdog.rs:90-162 | through a stale stretch that begins anywhere the device is not stale, with checks at most g apart: alert at the first check, alerts only, and with k alerts it is shorter than (k - 1) * (24h + g) + 24h |
| Monitoring.MarkerIsLastDone | src/storage.rs:101-134 | after any history at all, whatever the fetch times, the directory can be listed and the marker holds the finishing time of the last completed run, whether it wrote a file or not |
| Monitoring.AlertMeansOverdue | src/watchdog.rs:90-138 | at any check of the shared map, after any interleaving of all devices' runs and checks, with runs of the device finishing in order, a device with a completed run counts as stale if and only if no run of its was completed within stale_after; an alert is sent if and only if it does and was not alerted less than 24h ago in this stretch, a recovery if and only if it was stale and no longer is |
| Monitoring.NoBaselineIsQuiet | src/watchdog.rs:100-104 | a device that never completed a run is never reported |
| UrlCodec.DecodeSegment | src/webui.rs:1568-1586 | the index loop computes the lossy text of the unescaped bytes |
| UrlCodec.SegmentRoundTrip | src/webui.rs:1557-1586 | decoding an escaped string gives the string back, for every string |
| UrlCodec.EscapedExactly | src/webui.rs:1557-1566 | escaping leaves the unreserved characters of section 2.3 of RFC 3986 and no others |
| UrlCodec.AnyEscapeDecodes | src/webui.rs:918-924 | whatever is escaped, with digits of either case, decodes to what was meant; a plus sign is itself in a segment and a space in a form field |
| UrlCodec.AnyQueryParses | src/webui.rs:911-924 | a query of fields escaped in any such way, and of pieces without `=`, parses to the last-wins map of its fields |
| UrlCodec.QueryRoundTrip | src/webui.rs:911-924 | any list of escaped pairs joined by `=` and `&` parses to the last-wins map |
| UrlCodec.LastPairCounts | src/webui.rs:911-916 | what that map holds for a name is the value of its last pair |
| UrlCodec.NamesOccur | src/webui.rs:911-916 | it holds exactly the names that occur |
| Utf8.LossyAround | src/webui.rs:1585 | lossy decoding splits at each byte that is ASCII, kept as it is, or in no well-formed text, replaced by U+FFFD |
| UrlCodec.StrictExactly | src/webui.rs:1568-1584 | the decoder returns the text that section 2.1 of RFC 3986 gives if and only if no percent sign is followed by a plus sign and a hexadecimal digit |
| UrlCodec.PlusCountsAsDigit | src/webui.rs:1573-1576 | `%+A` decodes to a line feed, where the RFC leaves it alone |
| Report.ReportCsv | src/webui.rs:1501-1514 | the loop writes the header and one row per entry |
| ReportLaws.CsvRoundTrip | src/webui.rs:1501-1536 | an RFC 4180 reader gets the header and a record per entry with its date, time, device, size, hash and file in this order, for arbitrary device and file names, given hashes that need no quotes |
| ReportLaws.HexCsvRoundTrip | src/webui.rs:1501-1536 | so for the hexadecimal hashes the program computes |
| ReportLaws.MonthsTile | src/webui.rs:1229-1244 | a month's end is the next month's start, later than its own start, independent of the clock |
| ReportLaws.ExactlyOneMonth | src/webui.rs:1229-1244 | a backup time lies in its own calendar month and in no other |
| ReportLaws.MonthlyReportsCountEverything | src/webui.rs:1270-1286 | the monthly counts add up to the number of stored backups |
| ReportLaws.StringLeIsByteOrder | src/webui.rs:1280-1284 | the order of device names is that of their UTF-8 bytes |
| ReportLaws.ReportIsExact | src/webui.rs:1270-1286 | a month's entries are those in its interval, each as often as stored, by time and then device |
| Config.ValidateDevices | src/config.rs:340-347 | accepts if and only if names are distinct and no device has a problem; otherwise reports the first fault |
| Config.LookupFindsFirst | src/config.rs:307-309 | looking up a name finds the first device that has it, and nothing if and only if none has |
| Config.LookupFindsItself | src/config.rs:307-309 | each device is found under its name if and only if no two different devices share one |
| Scheduler.JobScheduler.InstallJobs | src/scheduler.rs:95-130 | jobs for the devices before the first failure are live; the ids are returned only if none failed |
| Scheduler.JobScheduler.Reload | src/scheduler.rs:65-90 | the table after one reload, for every way the backend may answer |
| Scheduler.ReloadedJobs | src/scheduler.rs:65-130 | after a reload an old job lives on, unchanged, if and only if it was not tracked or its own removal failed; the other live jobs are one per device before the first refused one |
| Scheduler.ReloadExactly | src/scheduler.rs:65-90 | after a reload live equals tracked if and only if every removal succeeded and installing failed nowhere or at the very first device; there is one job per device if and only if everything succeeded |
| Scheduler.ReloadsKeepJobs | src/scheduler.rs:60-90 | over any sequence of successful reloads the live jobs are the tracked ones, one per device of the newest configuration |
| Scheduler.LeakedJobsStay | src/scheduler.rs:72-90 | a live job that is not tracked survives every later reload |
| Scheduler.FailedInstallLeaks | src/scheduler.rs:81-129 | when installing fails part way, every job already installed is live, untracked, and stays so through all later reloads |
| Scheduler.FailedRemovalLeaks | src/scheduler.rs:72-76 | a job whose removal failed is live and untracked for good |
| Scheduler.JobRunsItsDevice | src/scheduler.rs:106-116 | under a validated configuration each job runs the device it was installed for |
| Flight.WebState.Request | src/webui.rs:1136-1144 | a request for an unknown device is over at once; a known one may reserve |
| Flight.WebState.TryReserve | src/webui.rs:1146-1157 | reserves the device, or reports a conflict if and only if it is reserved |
| Flight.WebState.DropGuard | src/webui.rs:1127-1133 | releases the handler's own reservation |
| Flight.AlwaysExclusive | src/webui.rs:1136-1166 | under any interleaving the reserved devices are those with a running handler, at most one each |
| Flight.UnknownNeverRuns | src/webui.rs:1136-1144 | a request for a device that is not configured never reserves anything |
| Flight.KnownRunsExactly | src/webui.rs:1136-1157 | a request for a configured device runs at its first try if and only if no other handler runs for it, and reserves just that device |
| Flight.RejectedReleasesNothing | src/webui.rs:1151-1156 | a handler that was turned away never changes a reservation |
| Flight.RejectedExactly | src/webui.rs:1151-1156 | a request is rejected if and only if another handler runs for its device |
| Flight.EndFreesTheDevice | src/webui.rs:1118-1133 | however a run ends, the next request for its device succeeds, and not before |
| Flight.QuietMeansFree | src/webui.rs:1118-1133 | with no handler running nothing is reserved |

## Left out

- HTTP, SSH, SMTP, webhook, S3 and Prometheus clients; HTML, CSS, CLI and packaging; Basic auth and same-origin checks: thin or user-facing layers outside the promises above. A fetch is an arbitrary artifact or a failure.
- Bodies of SHA-256, gzip, JSON, TOML, cron, `humantime` and `similar`: abstract functions with the stated laws, or not part of this model.
- Years outside 0-9999 in file names, leap seconds, chrono's lenient reading of non-canonical stems, and date overflow for huge `retention_days`: stems are canonical and dates in range. A non-canonical stem is an invalid file name in the model.
- I/O errors, and crashes at points other than between a plain configuration and its sidecar; a crash between the writes of a compressed save is covered for its listed hash only (`CutOffCompressedSave`), not in histories.
- Real time in `read_until`: idle and overall timeouts are events in an arbitrary order.
- Poisoning of the in-flight lock. `in_flight` does not exclude scheduled runs, which call the pipeline directly (`src/scheduler.rs:114`); two overlapping runs on one directory are not part of this model.
- Job ids are naturals never handed out twice, for UUIDs; why the backend refuses a job is not modelled, only at which position.
- `validate_device` and the notification and watchdog checks of `validate`: a device carries what its own check finds.
- Metadata extraction, `validate_hillstone`, `retry_with_backoff`, `human_size`, `short_hash`: helpers with no state and no interplay with the rest.
