# Mailbox in Dafny

A model of the message store and service layer of the Go module
`github.com/rbaliyan/mailbox`, with machine-checked proofs of what whole runs of
it keep. The design relies on atomic store operations instead of distributed
locks (store/store.go), so most results are about every interleaving of several
callers, every run of operations and events, or every list of inputs.

`dafny verify dfyconfig.toml` checks everything. Dafny 4.11, no libraries.

## What is modelled

| file | part of the system |
|---|---|
| Messages, Strings, Tally, Decimals | message records, string order, sums over maps, decimal counters |
| Attachments | reference counts with rollback and failing releases |
| CleanupRaces | sends, permanent deletes and any number of cleanup instances as a step system |
| Cleanup | one cleanup from scan to release, as imperative code |
| Paging, Iterator | index-of-cursor and keyset pages, the pull iterator |
| BulkMove | the paginated loop that moves the rows it pages over |
| Quota | trimming of a user's oldest messages |
| Uuids, Filters, BulkUpdates | filter semantics in memory, compilation to numbered SQL, the UUID column, bulk UPDATE statements |
| Stats, StatsRuns, StatsUnread | recount, event handlers, mutations, runs of the in-process stats cache |
| StatsHash, StatsLevels, HashTotals | the flat hash of the distributed cache, both cache levels side by side, the hash over runs of mutations |
| Notify, NotifyRuns | event log, bounded channel, backfill, polling, lossy live delivery |
| Locks | per-message locks, conditional folder moves |
| Delivery, DeliveryRuns, Upserts, IdempotencyRace | idempotent creation, delivery, sending a draft, racing upserts and deletes, the memory store's two-step creation under concurrency |
| RuleCache, Rules | cache of compiled conditions, rule processing |
| Outbox | mutation and event in one transaction |

Conventions. A source object that updates fields is a class, and its methods are
proved against functions on the old state. Concurrency is a state machine whose
steps are the source's atomic steps; theorems quantify over all step sequences.
Clocks, generated IDs, quota answers, store errors, compiled conditions and
their evaluation are parameters. Times are integers and compare as instants. The
memory store compares times with Go's `==`, which also looks at location and
monotonic reading (store/memory/helpers.go:91-95), and it keeps nanoseconds where
the database keeps microseconds; the model takes all times in one zone, without
monotonic reading and in the database's precision. Text compares by code point
(the C collation in SQL), fits its column, and contains no NUL, which the database
rejects. Filter lists are flat, and a time sent for a text column is its number.

## Properties that do not hold, and exactly when they do

- Rolling back added references restores the counts only if none was at zero
  before (`Attachments.RollbackRestoresIff`). A send whose reference cannot be
  added releases twice, once in `addAttachmentRefs` and once in its caller; it is
  harmless only if none of the attachments is known
  (`Attachments.FailedAddNeutralIff`), and it can delete a file in use
  (`Attachments.FailedAddCanDropAFileInUse`).
- Quota trimming releases references before the delete. The counts stay right only
  if every release works where the delete does, and none where it fails
  (`Quota.TrimmedBalancedIff`).
- Index and keyset paging agree on a stored cursor only if it still matches the
  filter or nothing follows it. A cursor that is gone is an error for keyset and
  an empty page for index paging (`Paging.SamePageIff`).
- The paginated move checks the target folder, the one-shot update does not, and
  the one-shot update counts only the matches it changes. With a valid folder the
  stores always agree, and the counts if no match is in the folder with that time
  already; with an invalid folder they agree only if every match is
  (`BulkMove.CompareWithOneShot`).
- The iterator's documentation says `Message` is out of bounds after the end. It
  is so only when the list ended with a whole batch (`Iterator.BatchIterator.Next`
  and `Iterator.BatchIterator.Message`).
- Re-marking a read message, or marking unread, breaks the cached unread count
  unless nothing is unread (`StatsUnread.SetReadAgreesIff`); a recount counts
  unread sent copies that the cache does not (`StatsUnread.RecountAgreesIff`).
  Marking a folder read takes unread sent copies in it off the cached count, which
  is right only if the folder holds all unread received messages, so that the
  subtraction is clamped (`StatsUnread.ReadAllAgreesIff`).
- Stats survive the distributed cache only with colon-free folder IDs
  (`StatsHash.DecodeEncodeIff`). Writing over an existing hash keeps stale folders
  (`StatsLevels.SetReadsBackIff`). The two cache levels part as soon as a counter
  at zero is decremented (`StatsLevels.EventLevelsIff`).
- SQL arguments are numbered past a nil value that is never bound
  (`Filters.BoundRightIff`). In memory the status equals only values of the status
  type, so it never equals a plain text and always differs from one
  (`Filters.StatusAgreesIff`), and a body filter is skipped
  (`Filters.BodyAgreesIff`); existence of a time is a type error in SQL although
  the TTL cleanup asks for it (`Filters.TimeExistsFaults`).
- The ID column is a UUID: a filter with any other text fails the query
  (`Filters.BadIdFails`), and another spelling of a stored ID is found in SQL but
  not in memory (`Filters.OtherSpellingDiffers`). On one row the exact condition is
  `Filters.IdAgreesIff`; equality and lists agree on every row if and only if each
  text is a UUID and comes with its canonical spelling
  (`Filters.IdAgreesEverywhereIff`).
- Excluding a nil list, which `NotIn()` without values makes, selects nothing in
  SQL and everything in memory; a nil among the values, an empty list on a missing
  time, and list columns differ too (`Filters.NotInAgreesIff`).
- SQL removes every occurrence of a tag, the memory store the first one
  (`BulkUpdates.RemoveTagAgreesIff`). When adding a tag the memory store also
  touches and counts the messages that hold it already; SQL skips them
  (`BulkUpdates.AddTagAgreesIff`, `BulkUpdates.AddTagDiffers`).
- A subscription may skip events if its last event ID is unknown, the log is
  empty, and a later event gets that ID (`NotifyRuns.ContiguousIff`).
- Rules whose IDs contain NUL can share a cache key with another rule and be given
  its program; every run over a set of rules hands out own programs exactly when
  no two of them can be confused so (`RuleCache.OwnProgramIff`,
  `RuleCache.ForeignProgram`).
- The memory store's idempotent creation has exactly one creator if and only if no
  caller looks for the message between another one's index entry and its message
  (`IdempotencyRace.OneCreatorIff`, `IdempotencyRace.TwoCreators`).
- An error from a transactional mutation means that nothing was stored, except
  that a commit may take effect although its acknowledgement is lost
  (`Outbox.Service.WithOutboxCtx`).

## Model

| member | source | states |
|---|---|---|
| `Attachments.AttachmentManager.AddRef` | attachment.go:127-130 | one reference more for a known attachment, an error and no change otherwise |
| `Attachments.AttachmentManager.RemoveRef` | attachment.go:134-153 | one reference less; at zero the metadata and then the file go; the error cases of both stores |
| `Attachments.AttachmentManager.AddAttachmentRefs` | attachment.go:157-188 | all references added, or the first failure reported, after the earlier ones were released again, together with exactly the rollbacks that failed |
| `Attachments.AttachmentManager.ReleaseAttachmentRefs` | attachment.go:192-210 | every reference released in order, carrying on after failures |
| `Attachments.AddAllCount` | attachment.go:157-188 | adding a list raises each count by its number of occurrences |
| `Attachments.ReleaseCount` | attachment.go:192-210 | faultless releases subtract occurrences, stop at zero and drop exactly the attachments that reach it |
| `Attachments.RollbackRestoresIff` | attachment.go:168-178 | rollback undoes the additions if and only if every listed count was positive before |
| `Attachments.FailedAddNeutralIff` | send.go:127-137 | a failed add followed by the caller's release changes nothing if and only if no attachment is known |
| `Attachments.FailedAddCanDropAFileInUse` | send.go:293-297 | the counts and file of an attachment another message uses can be lost that way |
| `Messages.ValidFolderIff` | store/message.go:55-65 | by name: a folder ID is valid if it is one of the seven reserved names, or not empty and without the reserved prefix |
| `CleanupRaces.CountsCoverReferences` | cleanup.go:63-89 | in every interleaving of sends, permanent deletes and cleanup instances, with any failures, each count is live plus owed plus lost references; whatever a live message refers to has metadata and file |
| `CleanupRaces.FaultlessCountsAreExact` | cleanup.go:286-299 | without failures counts are exactly live plus owed, and unused attachments have neither metadata nor file |
| `CleanupRaces.FaultlessWithoutFaults` | cleanup.go:286-299 | a run in which no release fails and no worker stops half-way is one of the faultless runs |
| `CleanupRaces.WinsAtMostOnce` | store/mongo/create.go:299-328 | a used message ID is won at most once, and only while live |
| `CleanupRaces.ExactlyOneWinner` | mutate.go:148-188 | over any run exactly one worker wins a message that was sent and is gone, none otherwise |
| `Cleanup.CleanupService.ScanExpiredMessages` | cleanup.go:237-281 | the paged scan returns all selected IDs in listing order with their attachments |
| `Cleanup.CleanupService.DeleteMessagesByIDs` | store/memory/create.go:268-281 | exactly the listed messages go, and exactly the listed IDs that were stored are reported, each once |
| `Cleanup.CleanupService.ReleaseAttachmentRefs` | cleanup.go:286-299 | the references of the won messages are released in order, failures included |
| `Cleanup.CleanupService.CleanupWithAttachments` | cleanup.go:201-229 | exactly the selected messages are deleted and counted, and without failures reference counts still equal the references in stored messages |
| `Cleanup.CleanupService.CleanupTrash` | cleanup.go:63-89 | by fields: exactly the visible trash untouched since the cutoff is deleted and counted, and counts stay balanced without failures |
| `Cleanup.CleanupService.CleanupExpiredMessages` | cleanup.go:105-156 | by fields: after both passes exactly the visible messages past retention or past their own expiry are gone, each counted once, and counts stay balanced without failures |
| `Cleanup.ReleaseKeepsBalance` | cleanup.go:286-299 | deleting messages and releasing what was recorded for them keeps counts equal to references |
| `Cleanup.ScanFacts` | cleanup.go:237-281 | the scan finds every selected message once, with the attachments it has |
| `Paging.SortMessages` | store/memory/helpers.go:323-360 | the in-place sort yields a permutation in order of the named field and direction |
| `Paging.MemoryFind` | store/memory/query.go:68-128 | exactly the visible matches, by fields, sorted by the named field; the page behind the first message with the cursor's ID, of at most the limit, with total and more-flag; an unknown cursor gives an empty page |
| `Paging.ListingUnique` | store/mongo/query.go:102-190 | the listing is the only sorted sequence of its rows |
| `Paging.ListedByTime` | store/mongo/query.go:102-190 | the listing goes by creation time, newest first unless ascending, and by ID among equal times |
| `Paging.ListingAfter` | store/mongo/query.go:102-190 | the rows beyond the k-th listed row, listed, are the rest of the listing |
| `Paging.KeysetPageIsFront` | store/mongo/query.go:140-198 | a keyset page with one row over-fetched is the front of the listing and its more-flag is exact |
| `Paging.SamePageIff` | store/mongo/query.go:78-198 | for every cursor, index-of-cursor and keyset find give the same answer if and only if the cursor is empty, or stored and either still matches the filter or followed by nothing; a cursor that is gone is an error for keyset and an empty page for index |
| `Paging.SortedIsListing` | store/memory/query.go:84-88 | with distinct creation times the sorted matches are the keyset listing |
| `Paging.SamePageFrom` | store/memory/query.go:95-128 | from a listed cursor both give the same page and more-flag |
| `Iterator.KeysetFetches` | iterator.go:115-159 | successive keyset fetches partition the listing, for every batch size |
| `Iterator.IndexFetches` | iterator.go:115-159 | the same for index-of-cursor fetches with distinct creation times |
| `Iterator.BatchIterator.Next` | iterator.go:115-159 | advances by exactly one message of the list, ends after the last, fails when disconnected |
| `Iterator.BatchIterator.Message` | iterator.go:161-175 | the message at the current position, with the exact out-of-bounds case |
| `Iterator.BatchIterator.Drain` | iterator.go:115-159 | pulling to the end yields the whole list, each message once and in order |
| `Iterator.Stream` | iterator.go:210-227 | over either kind of store the iterator yields the whole filtered listing; only index paging needs distinct creation times |
| `BulkMove.RowsBehindCursor` | store/mongo/query.go:102-150 | moving rows already passed leaves the rows beyond the cursor as they were, although the cursor row itself may no longer match |
| `BulkMove.NextPage` | mutate.go:452-472 | the next keyset page is the next stretch of the original result |
| `BulkMove.KeysetStore.MoveByFilter` | mutate.go:442-472 | the loop ends and moves each message that matched at the start exactly once; folder and time of those are new, every other field and message is as before |
| `BulkMove.MovesAreMoveAll` | store/mongo/write.go:404-417 | moving the original result is the one-shot update; the loop counts all matches, the one-shot update those it changes, and the counts are equal if and only if no match has that folder and time already |
| `BulkMove.CompareWithOneShot` | mutate.go:442-472 | exactly when loop and one-shot update leave the same store and return the same count, and exactly when they leave the same store |
| `Quota.QuotaService.DeletePage` | quota_enforce.go:169-198 | deletes what can be deleted of a page and counts it; the reference counts afterwards, with failing releases and deletes |
| `Quota.QuotaService.DeleteOldest` | quota_enforce.go:131-199 | ends even when deletes fail; removes only eligible messages and at most the excess; without failures exactly the oldest min(excess, eligible) |
| `Quota.QuotaService.EnforceUserQuota` | quota_enforce.go:87-216 | by the fields of messages and policy: no change without an applicable policy; only old enough messages of the user go; never below the limit; without failures min(excess, old enough) go and none of them is newer than one that stays |
| `Quota.OldestLeft` | quota_enforce.go:154-160 | after removing the d oldest the remaining ones are the rest of the oldest-first list |
| `Quota.TrimmedBalancedIff` | quota_enforce.go:175-189 | one trim keeps counts equal to references if and only if every release gives up its reference when the delete works, and none when it fails |
| `Quota.TrimLedgerCount` | quota_enforce.go:175-189 | whether or not its deletes work, a page lowers every count by exactly the references it gives up |
| `Uuids.ParseShow` | store/postgres/store.go:116 | the canonical spelling of any UUID reads back as that UUID |
| `Uuids.ShowOrder` | store/postgres/store.go:116 | UUIDs are equal and ordered as their canonical spellings are |
| `Uuids.ShowShape` | store/postgres/store.go:116 | canonical spellings have 36 characters with hyphens behind 8, 12, 16 and 20 digits |
| `Uuids.UuidEnds` | store/postgres/store.go:116 | a text read as a UUID has at least 32 characters and starts and ends with a digit, or does so inside a pair of braces |
| `Filters.FilterToCondition` | store/postgres/query.go:409-471 | condition, argument and next number of one filter |
| `Filters.TextKeysMean` | store/memory/helpers.go:35-44 | which field of the message each text key compares |
| `Filters.LinkKeysMean` | store/memory/helpers.go:47-54 | the same for the IDs of other messages and the status |
| `Filters.TimeKeysMean` | store/memory/helpers.go:55-84 | the same for times |
| `Filters.FlagKeysMean` | store/memory/helpers.go:25-60 | the same for flags and lists |
| `Filters.TextOperatorsMean` | store/memory/helpers.go:89-113 | what each operator asks of a text |
| `Filters.TimeOperatorsMean` | store/memory/helpers.go:61-113 | what each operator asks of an optional time and of a list; a missing time passes only a test for absence |
| `Filters.BuildWhereClauseFrom` | store/postgres/query.go:383-407 | the clause and argument list of a list of filters |
| `Filters.PlaceholdersCountUp` | store/postgres/query.go:383-407 | placeholders are start, start+1, … in order, none skipped or repeated |
| `Filters.BoundRightIff` | store/postgres/query.go:392-400 | every placeholder is bound to its own filter's value if and only if no comparison value is nil |
| `Filters.ConditionAgrees` | store/memory/helpers.go:19-113 | a supported filter's condition fails on a row exactly when an ID is compared with a text that is no UUID; otherwise it is true of exactly the messages accepted in memory with IDs in canonical spelling |
| `Filters.ClauseAgrees` | store/postgres/query.go:383-471 | the same for every list of supported filters under three-valued logic, wherever its arguments stand; with canonical IDs it never fails and accepts what the memory store accepts |
| `Filters.EqAnyIsMember` | store/memory/helpers.go:154-174 | ANY over a list is membership |
| `Filters.ColumnIs` | store/postgres/query.go:409-471 | a condition on a character column or the ID, for every operator and value, fails exactly when the test cannot be made and otherwise says what the test means for the text |
| `Filters.StatusAgreesIff` | store/memory/helpers.go:47-48 | for every operator and value: the stores agree on a status filter if and only if the database can make the test with the outcome of the memory store's comparison of types; spelled out for plain texts, lists of texts, statuses and existence |
| `Filters.BodyAgreesIff` | store/memory/helpers.go:85-87 | for every operator and value: the stores agree on a body filter if and only if the database can make the test and the body passes it; spelled out for equality with texts and flags |
| `Filters.IdAgreesIff` | store/postgres/store.go:116 | exactly when the stores agree on an ID filter on a row, for every operator and value, spelled out for texts, lists of texts and nil lists |
| `Filters.IdAgreesEverywhereIff` | store/postgres/store.go:116 | ID equality and lists agree on every row if and only if each text is a UUID and comes with its canonical spelling |
| `Filters.BadIdFails` | store/postgres/create.go:397-399 | a text that is no UUID fails the query on every row, where the memory store rejects |
| `Filters.OtherSpellingDiffers` | store/postgres/store.go:116 | every row has a spelling of its ID that SQL finds and the memory store does not |
| `Filters.TimeExistsFaults` | store/postgres/query.go:455-467 | existence of a time column is a type error for every row |
| `Filters.NotInAgreesIff` | store/postgres/query.go:446-449 | on text, time, flag and list fields, excluding a list agrees if and only if: a nil list, no value; a value, it is listed or no nil is; no value, the list is not empty; and never on list fields |
| `BulkUpdates.MemoryStore.IterateFiltered` | store/memory/write.go:331-372 | by fields: exactly the visible messages of the owner that pass the filters are changed, touched and counted |
| `BulkUpdates.BulkWhere` | store/postgres/write.go:340-347 | owner first, filter arguments from number two |
| `BulkUpdates.WhereAgrees` | store/postgres/write.go:340-347 | the clause fails exactly on an ID that is no UUID, and otherwise selects what the memory store selects with canonical IDs, whatever arguments are appended |
| `BulkUpdates.MoveByFilter` | store/postgres/write.go:378-397 | the statement it builds, executed with its numbered arguments on any table, does what the memory store does and affects exactly the messages the memory store counts; an ID that is no UUID fails it on every table, and other IDs are taken in canonical spelling |
| `BulkUpdates.MarkReadByFilter` | store/postgres/write.go:349-376 | the statement it builds, executed with its numbered arguments on any table, does what the memory store does and affects exactly the messages the memory store counts; an ID that is no UUID fails it on every table, and other IDs are taken in canonical spelling |
| `BulkUpdates.AddTagByFilter` | store/postgres/write.go:403-423 | rows and count the statement leaves on any table; it does what the memory store does if and only if it can be executed and every selected message with the tag was last updated at this very time, and counts the same if and only if there is none; an ID that is no UUID fails it on every table, and other IDs are taken in canonical spelling |
| `BulkUpdates.RemoveTagByFilter` | store/postgres/write.go:425-444 | rows and count the statement leaves on any table; it does what the memory store does if and only if it can be executed and no selected message holds the tag twice; an ID that is no UUID fails it on every table, and other IDs are taken in canonical spelling |
| `BulkUpdates.MoveAgrees` | store/memory/write.go:389-396 | effect and affected rows of the statement on every table are those of the memory store with canonical IDs, or the statement fails on an ID that is no UUID |
| `BulkUpdates.MarkReadAgrees` | store/memory/write.go:374-387 | effect and affected rows of the statement on every table are those of the memory store with canonical IDs, or the statement fails on an ID that is no UUID |
| `BulkUpdates.AddTagIs` | store/postgres/write.go:403-423 | on every table the statement is the memory store's update with canonical IDs except that selected messages with the tag stay as they are and are not counted, or it fails on an ID that is no UUID |
| `BulkUpdates.AddTagAgreesIff` | store/memory/write.go:407-419 | the same effect if and only if all IDs are UUIDs and every selected message with the tag carries this update time; the same count if and only if there is none |
| `BulkUpdates.AddTagDiffers` | store/memory/write.go:331-372 | one tagged message on which the memory store sets a new time and returns 1 while the table keeps the old time and returns 0 |
| `BulkUpdates.RemoveTagAgreesIff` | store/memory/write.go:421-433 | the same effect if and only if all IDs are UUIDs and no selected message holds the tag twice; rows and count in every case |
| `Stats.Recount` | store/memory/stats.go:81-116 | every counter is the number of stored messages it stands for, by fields, globally and per folder |
| `Stats.StatsService.OnMessageSent` | stats.go:119-148 | the cached entries after the event, for every owner |
| `Stats.StatsService.OnMessageRead` | stats.go:151-170 | the cached entries after the event, for every owner |
| `Stats.StatsService.OnMessageDeleted` | stats.go:173-204 | the cached entries after the event, for every owner |
| `Stats.StatsService.OnMessageMoved` | stats.go:208-242 | the cached entries after the event, for every owner |
| `StatsRuns.MailboxService.GetAndVerify` | mutate.go:365-374 | found and owned, not found, or not authorized |
| `StatsRuns.MailboxService.MoveAndPublishEvent` | mutate.go:379-396 | no event and no move to the same folder; a claim on another folder is refused |
| `StatsRuns.MailboxService.MoveToFolder` | mutate.go:191-217 | by fields: the failure reported for every reason to refuse, the message and the event after success, and no change after failure |
| `StatsRuns.MailboxService.Delete` | mutate.go:97-119 | by fields: the failure reported for every reason to refuse, the message and the event after success, and no change after failure |
| `StatsRuns.MailboxService.Restore` | mutate.go:122-145 | by fields: the same, with Sent as the target for the owner's own messages and the inbox for all others |
| `StatsRuns.MailboxService.PermanentlyDelete` | mutate.go:148-188 | by fields: the failure reported for every reason to refuse, the deleted message and its event after success, and no change after failure |
| `StatsRuns.MailboxService.SetRead` | mutate.go:67-91 | by fields: the failure reported, flag and time after success; only marking read emits an event |
| `StatsRuns.PerformTotals` | stats.go:119-242 | after any mutation the entry with the event applied has the totals of the new store, and no total was clamped |
| `StatsRuns.CachedTotalsAreRecounts` | stats.go:32-103 | in every run with delayed events, cached totals with pending events applied equal the recount, globally and per folder, and no clamp on a total ever fires |
| `StatsUnread.ReadService.StoreMarkAllRead` | store/memory/write.go:52-85 | exactly the unread messages of the user in the folder get flag and time, and are counted |
| `StatsUnread.ReadService.MarkAllRead` | mutate.go:276-339 | the same, and the direct subtraction from the cached entry |
| `StatsUnread.ReadAllUnread` | mutate.go:324-339 | the subtraction takes exactly the folder's unread messages off global and folder counts |
| `StatsUnread.ReadAllAgreesIff` | mutate.go:324-339 | marking a folder read keeps agreeing counts agreeing if and only if no sent copy in the folder is unread or the folder holds all unread received messages |
| `StatsUnread.SetReadAgreesIff` | mutate.go:67-91 | setting the read flag keeps agreeing counts agreeing if and only if the message was unread, or is marked read while nothing is unread |
| `StatsUnread.RecountAgreesIff` | stats.go:120-128 | a recount agrees with the received messages if and only if no sent copy of the owner is unread |
| `StatsUnread.AllowedIff` | mutate.go:324-339 | of the bulk marks of a cached user, and of the recounts, exactly those the runs allow keep the counts right |
| `StatsUnread.CachedUnreadIsReceivedUnread` | stats.go:151-242 | in every event-synchronous run whose single and bulk marks meet the conditions above, cached unread counts are the numbers of unread received messages |
| `Decimals.ParsePrint` | statscache/redis/cache.go:171-174 | printed counters parse back if and only if they fit in 64 bits |
| `Decimals.PrintIs` | statscache/redis/cache.go:139-150 | counters are printed in decimal notation |
| `StatsHash.FieldsDiffer` | stats_cache.go:31-42 | field names of different counters differ, whatever the folder IDs |
| `StatsHash.FieldNames` | stats_cache.go:31-42 | the names of the fields, by their text |
| `StatsHash.EncodeStats` | statscache/redis/cache.go:139-150 | the hash holds the printed counters and nothing else |
| `StatsHash.DecodeStats` | statscache/redis/cache.go:157-208 | fails exactly on an unparsable counter; otherwise the counters of all three-part folder fields |
| `StatsHash.DecodesOnce` | statscache/redis/cache.go:157-208 | a hash decodes to at most one value |
| `StatsHash.DecodeEncodeIff` | statscache/redis/cache.go:139-208 | decoding inverts encoding if and only if no folder ID contains a colon |
| `StatsLevels.DistCache.Get` | statscache/redis/cache.go:55-74 | the decoded hash, nothing when absent, and a corrupt hash dropped |
| `StatsLevels.DistCache.Set` | statscache/redis/cache.go:77-92 | encoded fields overlaid on the existing hash |
| `StatsLevels.DistCache.Invalidate` | statscache/redis/cache.go:124-129 | the hash is gone |
| `StatsLevels.DistCache.Incr` | statscache/redis/cache.go:97-121 | one field incremented, no hash created |
| `StatsLevels.DistCache.OnMessageSent` | stats.go:127-145 | the hashes after the event, for every owner |
| `StatsLevels.DistCache.OnMessageRead` | stats.go:164-167 | the hashes after the event, for every owner |
| `StatsLevels.DistCache.OnMessageDeleted` | stats.go:192-203 | the hashes after the event, for every owner |
| `StatsLevels.DistCache.OnMessageMoved` | stats.go:229-240 | the hashes after the event, for every owner |
| `StatsLevels.IncrByShows` | statscache/redis/cache.go:108-121 | an increment changes one counter of the value the hash shows |
| `StatsLevels.EventLevelsIff` | stats.go:119-242 | after any event hash and entry show the same counters if and only if no decremented counter was at zero |
| `StatsLevels.SetReadsBackIff` | statscache/redis/cache.go:77-92 | a value written over a hash is read back if and only if the hash named no other folder |
| `StatsLevels.LevelsAgree` | stats.go:32-83 | in every run of events, misses, loads and expiries an owner's hash decodes to the counters of the in-process entry |
| `StatsLevels.Refills` | stats.go:32-83 | an owner without a hash gets one by a miss, and again after it expired |
| `HashTotals.EventTotals` | stats.go:119-242 | an event that finds no total at zero keeps the totals of hash and entry equal, whatever happens to unread counters |
| `HashTotals.HashTotalsAreRecounts` | stats.go:119-242 | in every run of mutations with delayed events the hash can be decoded, and with nothing pending its totals are those of a recount, globally and per folder |
| `HashTotals.Refills` | stats.go:32-83 | whenever nothing is pending an owner without a hash gets one, and again after it expired |
| `Notify.EventStore.Save` | notify/memory/store.go:35-48 | the event gets the next number and is appended to its user's log only |
| `Notify.EventStore.List` | notify/memory/store.go:51-91 | the events behind the first one with the given ID, at most the limit or 100; from the front for an empty or unknown ID |
| `Notify.EventStore.Cleanup` | notify/memory/store.go:94-116 | every log keeps exactly the events not older than the time, in the same order and none twice |
| `Notify.Stream.constructor` | notify/notifier.go:190-231 | backfill enqueues the listed events while there is room and sets the cursor to the last of them |
| `Notify.Stream.Next` | notify/stream.go:42-52 | the oldest event of the channel |
| `Notify.Stream.DeliverLocal` | notify/notifier.go:289-311 | enqueued or dropped and counted, the poll cursor untouched |
| `Notify.Stream.PollStore` | notify/stream.go:111-138 | the listed events up to the free room, in order, and the cursor at the last one |
| `NotifyRuns.ContiguousIff` | notify/stream.go:30-37 | in every run, if and only if the last event ID is stable, the backfilled and polled events are the log from the start position to the cursor, in order and without gaps |
| `NotifyRuns.UnstableSkips` | notify/notifier.go:212-231 | otherwise a run in which an event is never polled |
| `NotifyRuns.DrainsTheLog` | notify/stream.go:96-138 | as many rounds of one poll and one read as events are outstanding deliver all of them, for every buffer size; what came from the log is all of it from the start position on |
| `NotifyRuns.SubscriptionDrains` | notify/stream.go:96-138 | after every run of a subscription with a stable last event ID, finishing the poll under way and those rounds deliver every outstanding event, and the polled events are the whole log from the start position, in order |
| `NotifyRuns.RoundIsRun` | notify/stream.go:111-138 | a round is a run of at most 102 steps |
| `Locks.MemoryStore.MarkMessage` | store/memory/write.go:12-47 | by fields: flag and read time after success, and the refusals |
| `Locks.MemoryStore.Move` | store/memory/write.go:91-130 | by fields: the folder after success, and the refusals of conditional moves |
| `Locks.MemoryStore.Tag` | store/memory/write.go:134-170 | by fields: the tag is appended unless it is there |
| `Locks.MemoryStore.Untag` | store/memory/write.go:174-215 | by fields: the first occurrence of the tag goes |
| `Locks.MemoryStore.SoftDelete` | store/memory/write.go:219-248 | by fields: the message is in trash |
| `Locks.MemoryStore.Remove` | store/memory/write.go:252-277 | the message is gone; drafts and unknown IDs are refused |
| `Locks.MemoryStore.Undelete` | store/memory/write.go:281-315 | by fields: only from trash, the owner's own messages to Sent and all others to the inbox |
| `Locks.MemoryStore.UpdateOne` | store/memory/write.go:342-370 | one message of a filtered bulk update, selected again under its lock |
| `Locks.MemoryStore.MarkOne` | store/memory/write.go:66-80 | one message of MarkAllRead, skipped if it is read, foreign or elsewhere by now |
| `Locks.TagRoundTrip` | store/memory/write.go:134-215 | adding a new tag and removing it gives back the tags |
| `Locks.Linearizable` | store/memory/store.go:25-30 | every interleaving of lock, load, store and unlock steps, the per-message steps of bulk updates and MarkAllRead included, gives store and results of the serial run in lock order |
| `Locks.ClaimsAlternate` | store/memory/write.go:119-122 | between two successful claims on a folder some other call moved the message back |
| `Delivery.KeysDiffer` | send.go:264 | the text of the keys, and that keys of different copies differ for sender IDs of equal length, whatever the recipient IDs contain |
| `Delivery.DeduplicateRecipients` | send.go:181-191 | each recipient once, at the place of the first occurrence, in order |
| `Delivery.Mailbox.CreateMessageIdempotent` | store/memory/create.go:128-171 | the existing message, or a new one under the key; a stale index entry is replaced |
| `Delivery.Mailbox.CreateCopies` | store/memory/create.go:84-95 | one result per recipient, and the store grows by exactly the missing copies |
| `Delivery.Mailbox.SettleCopies` | send.go:277-325 | delivered, newly delivered and failed recipients; a copy without references is gone again |
| `Delivery.Mailbox.DeliverToRecipients` | send.go:207-325 | who has the copy, who got it now, who has none, for every combination of failures, told from the failures alone; nothing else is stored |
| `Delivery.Mailbox.CreateSenderMessage` | send.go:103-150 | by fields: the queued copy of the sender in the outbox, or an unchanged store |
| `Delivery.Mailbox.FinalizeDelivery` | send.go:348-364 | the copy is in Sent and the saved draft gone |
| `Delivery.Mailbox.SendDraft` | send.go:394-542 | a message comes back if and only if the draft is valid, every target is a recipient, the sender's copy is stored and some target is refused by no quota, store or reference failure; then exactly those targets get one inbox copy each, the sender one sent copy, and the draft goes; otherwise nothing is stored |
| `Delivery.OneCopyEach` | send.go:240-266 | a send adds one message to the sender's Sent folder, one unread message to each delivered inbox, none to any other; every field of the new messages is that of the letter |
| `DeliveryRuns.AtMostOneCopy` | send.go:193-206 | over any sequence of deliveries and removals a recipient holds at most one copy of a sender message, and new deliveries exceed removals by one exactly while it does |
| `DeliveryRuns.CanBeRemoved` | send.go:193-206 | any delivered copy can be removed in a run, after which the recipient has none |
| `Upserts.CreatedIff` | store/mongo/create.go:202-236 | a caller is told it created the message exactly when the key was free |
| `Upserts.CreatorsBalance` | store/mongo/create.go:189-239 | creators minus removals of a key is whether it is stored |
| `Upserts.ExactlyOneCreator` | store/mongo/create.go:189-239 | of any number of concurrent creations, among any deletions of other messages, one caller is the creator and all get the same ID |
| `Upserts.TwoCallers` | store/mongo/create.go:189-239 | two concurrent creations of one key: the first is the creator, both get its ID |
| `Upserts.AtMostOneWinner` | store/mongo/create.go:299-328 | of any number of deletions of an ID at most one is reported as done |
| `IdempotencyRace.OneCreatorIff` | store/memory/create.go:128-171 | when all callers are through, exactly one is the creator if and only if no caller ever found an index entry whose message was not stored yet; then all others got its message |
| `IdempotencyRace.TwoCreators` | store/memory/create.go:140-168 | a run of two callers that both create a message |
| `RuleCache.Engine.CompileOrCache` | rules/engine.go:225-260 | the cached program, or the compilation of the rule's condition, and the cache after the call, emptied first when full; the program is that of some rule asked for so far with the same key, the rule's own unless two of them can be confused |
| `RuleCache.Engine.Close` | rules/engine.go:79-84 | the cache is empty |
| `RuleCache.OwnProgram` | rules/engine.go:225-260 | in every interleaving of lookups, compilations, insertions, evictions and closing, over rules no two of which can be confused, each caller gets its own program |
| `RuleCache.OwnProgramIff` | rules/engine.go:225-260 | over a set of rules every run hands out own programs if and only if no two of the rules share a key and compile differently |
| `RuleCache.WithinLimit` | rules/engine.go:251-257 | in every run, over any rules, the cache stays within its limit |
| `RuleCache.Closes` | rules/engine.go:79-84 | closing is possible in every state, empties the cache and disturbs no caller |
| `RuleCache.NoConfusionWithoutClashes` | rules/engine.go:226 | rules without clashing keys cannot be confused whatever their IDs contain, and rules with NUL-free IDs never clash |
| `RuleCache.ClashIff` | rules/engine.go:226 | a rule ID can share a key with a NUL-free one under another condition if and only if it contains NUL |
| `RuleCache.ForeignProgram` | rules/engine.go:226-233 | then a run in which a rule is given the other's program |
| `Rules.FetchRules` | rules/engine.go:183-203 | all global and user rules, by priority |
| `Rules.ProcessIsFold` | rules/engine.go:151-172 | processing rule by rule is applying one list: the actions of the matching rules up to the first stop or error, evaluated on the snapshot |
| `Rules.ActionLands` | rules/engine.go:286-319 | by fields: what each action makes of a stored message, that no other message changes, when it fails, and that a missing message is never changed |
| `Rules.ActionsOne` | rules/engine.go:276-283 | no action changes nothing, and a list of one is that action; with the concatenation law this fixes every list |
| `Rules.SendOnlyIs` | rules/rule.go:51-63 | which actions are applied on sending, by kind, and that their order is kept |
| `Rules.RulesEngine.Apply` | rules/engine.go:276-283 | actions in order up to the first failure |
| `Rules.RulesEngine.ApplySend` | rules/engine.go:263-273 | the same with the actions not valid on sending left out |
| `Rules.RulesEngine.OnMessageReceived` | rules/engine.go:131-172 | refused for a missing or foreign message; rules that cannot be fetched are an error exactly in strict mode; otherwise, unless rules are confused, the fold over some priority order with the error of strict mode |
| `Rules.RulesEngine.AfterSend` | rules/engine.go:93-123 | rules that cannot be fetched are an error exactly in strict mode; otherwise, unless rules are confused, the fold over the send actions of the rules |
| `Rules.RulesEngine.OneRuleLands` | rules/engine.go:131-172 | after one matching rule with one action the stored message is where that action puts it, and on sending only the allowed actions do anything |
| `Outbox.Service.OpAndPublish` | outbox_helpers.go:14-37 | with an outbox both or neither; success means both, an error means neither unless it comes from the commit, whose acknowledgement may be lost; without an outbox exactly when the event is lost and when that is reported |
| `Outbox.Service.WithOutboxCtx` | store/postgres/outbox.go:26-49 | mutation and event are stored together or not at all; success if and only if begin, operation, publish and an acknowledged commit succeed; a commit error leaves either state |
| `Outbox.CommittedIffRecorded` | store/postgres/outbox.go:26-49 | in every run of concurrent transactions, with errors, crashes and lost acknowledgements anywhere, a mutation is committed if and only if its event is in the outbox, once, and the store is the replay of the outbox |

## Left out

- Servers and clients: gRPC, the admin handler, webhooks, database, search and file-store drivers are not modelled; their atomic operations are.
- crypto, compress and content: they rest on library results.
- Validation, options, configuration, error mapping, tracing, tickers and background loops: single-branch facts or no functional state.
- Mongo's filter builder and Search, UpdateByFilter's slow path, EnforceQuotas' loop over users, TagByFilter and UntagByFilter loops, CountByFolders: they would add easy members or have no clean specification.
- IdempotencyRace.OneCreatorIff: callers with one fresh key, without deletions in between; a stale entry at the start is the single-caller case of `Delivery.Mailbox.CreateMessageIdempotent`.
- Cleanup interruption by a cancelled context: a stopped worker in `CleanupRaces` covers its effect on counts.
- Expiry of notification events during a run: the log only grows in `NotifyRuns`.
- Filters.ClauseAgrees: covers text, ID and time comparisons and lists, flag equality, list items, list existence and text existence. Where status, body, ID, excluded lists and time existence differ is stated by the other lemmas of `Filters`; for the remaining pairs of operator and value (a nil comparison value, a text for a time or flag column, existence of a flag, order of flags, Contains on a single text) agreement is not stated.
- StatsRuns.CachedTotalsAreRecounts: assumes that stored messages are not scheduled for later and that refreshes happen when no event is pending.
- StatsUnread.CachedUnreadIsReceivedUnread: events reach the cache before the next operation.
- StatsLevels.LevelsAgree: one process, counters within the 64-bit range, and no decrement at zero, which for totals follows in runs of mutations (`HashTotals.HashTotalsAreRecounts`) and for unread counters is assumed; marking a whole folder read does not reach the distributed cache and is not a step.
- Paging.MemoryFind: result order among equal sort keys follows the in-place sort and is not fixed by the contract.
- Delivery.Mailbox.SendDraft: rollback deletes and the move to Sent succeed, hooks leave recipients alone, and generated IDs are new; attachment counts are the subject of `CleanupRaces`.
