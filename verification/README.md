# A verified model of the temporary-mail service

The service receives mail over SMTP (the MX server, Go), keeps it in PostgreSQL, serves it
through a REST API and is run from an admin panel (both Python). This project models the
parts of it that keep state or do arithmetic and proves, for every input and every run, what
its comments, tests and schema promise; where the code does less than it says, the exact
condition under which it keeps the promise is proved instead.

`dafny verify dfyconfig.toml` checks the whole project.

## How it is organised

| file | models |
|---|---|
| `MailTables.dfy` | the four tables, their constraints, the cascades and the orphan trigger |
| `MailOps.dfy` | delivery, the per-address cap, retention, expiry, delete and purge as functions on the tables |
| `MailStore.dfy` | the same operations statement by statement, as methods of a `Database` |
| `StorageCap.dfy` | the global storage cap and its window sum |
| `MailboxCap.dfy` | the per-address cap as a concurrent protocol of deliveries and pending jobs |
| `CapOverlap.dfy` | the same protocol with cap statements that overlap each other and deliveries |
| `Addresses.dfy` | creation of temporary and permanent addresses, name reuse, the random retry loop |
| `MailRuns.dfy` | whole histories: invariant, isolation, the cap, permanent mailboxes, what the trigger is needed for |
| `SlidingWindow.dfy`, `HourlyWindow.dfy` | the two rate limiters against history-based definitions |
| `Utf8Text.dfy`, `LikeSearch.dfy` | UTF-8-safe clean-up of sender text, search-term escaping |
| `ConfigValues.dfy`, `ConfigPatch.dfy`, `PatchLaws.dfy` | parsed YAML values, `apply_patch`, and its laws |
| `LiveSettings.dfy` | the live settings object, assigned field by field |
| `ConfigFile.dfy` | `config.yaml` and its backup under crashes |
| `AdminConfig.dfy` | commit with roll-back, the domain and configuration routes |
| `Reload.dfy`, `WriteRace.dfy` | hot reload of the MX server, on its own and during a write of the file |
| `SmtpSession.dfy`, `DataAmongOthers.dfy` | the SMTP session, and its store loop in the middle of everything else |
| `Wrappers.dfy`, `Text.dfy` | `Option`, string operations |

The Python and Go code that works step by step is modelled by classes and methods
(`Database`, `RateLimiter`, `MessageLimiter`, `ConfigDict`, `Settings`, `Disk`, `ConfigCell`,
`Session`), each proved equal to a function of the old state; the laws are then lemmas
about those functions.

## Where the code does less than its comments

* `EnforceEmailLimit` collects orphaned messages in the same statement that drops the links
  (`mx/database.go:239-259`). Its `NOT EXISTS` sees the rows as they were before, so it never
  finds one; the trigger of `db/init/schema.sql:121-139` does that work
  (`MailStore.SnapshotSeesNoOrphan`). The comments speak of messages shared between
  mailboxes, which the schema allows; but every delivery writes its own row, so each message
  has exactly one link in every reachable state (`MailRuns.EveryMessageHasOneLink`). Without
  the trigger the cap is therefore sound iff the mailbox is within its cap, and the removal
  of addresses iff they have no mail (`MailRuns.BareCapSoundIffWithinCap`,
  `MailRuns.BareRemovalSoundIffEmpty`); purge, retention and the owner's delete do not need
  the trigger.
* A domain that `config.yaml` already lists is refused with a permanent 550 iff the session's
  snapshot lacks it and somebody else has consumed the change
  (`SmtpSession.ListedDomainRefusedIff`), against the comment at `mx/session.go:109-113`.
  A reload caused by one recipient drops the domain of another that was accepted before iff
  it finds a changed, loadable file without that domain
  (`SmtpSession.AcceptedDomainDroppedIff`).
* `max_mime_parts: 0` is documented as unlimited (`mx/config.go:49-50`) but refuses every
  message with a boundary line (`SmtpSession.ZeroMimePartsRefusesMultipart`).
* The backup beside `config.yaml` protects against a crash (`api/app/runtime_config.py:143-176`)
  iff no beginning of the new text parses as a third configuration. Block-style YAML does
  tear into one (`ConfigFile.TornTwoLineFile`). A write is safe to start, in that some
  configuration can be read whatever happens, iff the main file is not itself a torn one
  (`ConfigFile.WriteIsSafeIffMainIsIntact`).
* The file is hashed and loaded by two reads (`mx/reload.go:40-45`), and at start-up loaded
  long before it is hashed (`mx/main.go:27-71`). If an edit falls in between, the cell records
  the hash of a configuration it does not hold, exactly when that edit changed the
  configuration (`Reload.SplitReadStaysInStepIff`, `Reload.StartUpInStepIff`).
* A sweep of the sliding-window limiter drops keys idle for an hour. The limiter keeps its
  limit for a key on every run iff the key's window is no longer
  (`SlidingWindow.LimitHoldsIffWindowAtMostOneHour`). All windows in use are one minute.
* Two cap statements that overlap may choose different victims among messages received at the
  same instant, and together delete more than the cap asks for. Every run leaves the n newest
  iff no such tie lies across the n-th place
  (`CapOverlap.HoldsTheNewestIffNoTieAcrossTheCap`).
* The MX server polls the very file that the API rewrites in place. Ticks during a write leave
  an old or the new configuration in force iff no beginning of the new text loads as another
  one (`WriteRace.TicksAreSafeIffTextLoadsHarmlessly`). The first tick after the write repairs
  that, unless the write repeats a text the server has not read yet and some beginning of it
  loads differently (`WriteRace.FirstTickAfterTheWriteRepairsIff`).
* An address under a domain that is configured with capitals can be created and opened but
  never receives mail (`MailRuns.PermanentMailboxIsForEver`).
* Whether a patch that sets both username bounds is accepted depends on the order of its
  keys (`PatchLaws.BoundsOrderMatters`, for a patch with any other keys).

## Assumptions

* Each limiter call is atomic and its clock readings do not decrease. (Both limiters read the
  clock before they take their lock.)
* A database transaction is one atomic step, but for the cap statement in `CapOverlap`; row
  ids are never reused and are compared as numbers. Ties in `received_at` are left to the
  database: the cap may drop any of the oldest.
* Each operation reads the clock once. (`create_address` reads it for the expiry of the name's
  holder and again for the expiry of the new address; DATA stores its copies at one time,
  except in `DataAmongOthers`, where each turn has its own.)
* `yaml.safe_load`, `yaml.safe_dump`, `yaml.Unmarshal` and SHA-256 are parameters. The lemmas
  that need `safe_load(safe_dump(v)) == v`, for the configurations actually written, or
  distinct sums for distinct contents, say so.
* Requests that edit the configuration or create permanent mailboxes are served one at a time.

## Model

| member | source | states |
|---|---|---|
| `MailTables.OrphanIffLastLinkGone` | db/init/schema.sql:121-139 | the trigger deletes a message iff none of its links survives the statement |
| `MailTables.DeleteLinksExactly` | db/init/schema.sql:77-139 | unlinking removes exactly the named links, a message iff its last link went, an attachment iff its message went, and alters nothing else |
| `MailTables.DeleteLinksKeepsConsistency` | db/init/schema.sql:121-139 | foreign keys, unique columns and "every message is in a mailbox" survive any unlinking |
| `MailTables.DeleteEmailsExactly` | db/init/schema.sql:77-106 | removing messages takes exactly their links and attachments along, and alters nothing else |
| `MailTables.DeleteAddressesExactly` | db/init/schema.sql:77-139 | removing addresses takes along exactly their links and the messages, with attachments, that only they had |
| `MailTables.DeleteAddressesKeepsConsistency` | db/init/schema.sql:80-139 | so they do the removal of addresses, which unlinks exactly the links of those addresses |
| `MailTables.DeleteEmailsKeepsConsistency` | db/init/schema.sql:79-100 | and the removal of messages with their cascades |
| `MailOps.ExpiryRulesDifferOnlyAtTheInstant` | api/app/models/address.py:28-34 | what the MX accepts the API can open; the two rules and the clean-up differ only at the very instant of expiry |
| `MailOps.StoreKeepsConsistency` | mx/database.go:99-173 | a delivery, complete or failed at any statement, keeps the tables consistent |
| `MailOps.StoreSucceedsIff` | mx/database.go:99-211 | a message is stored, in mailbox a, iff no statement fails, its row ids are new and distinct and a bears the lower-cased name without an expiry or with a later one; attachments make no difference |
| `MailOps.StoreAddsExactly` | mx/database.go:107-163 | a stored message adds itself, one link and one row per attachment with its name and size, and changes no other row; a failed one changes nothing |
| `MailOps.CapChoiceExists` | mx/database.go:244-252 | there are always links that ORDER BY received_at DESC OFFSET n may name, so the cap statement never gets stuck |
| `MailOps.CapLeaves` | mx/database.go:229-260 | the cap statement leaves the mailbox cut to the configured number of links, 100 without one, the newest kept, and every other mailbox whole |
| `MailStore.Database.DeleteRecipients` | db/init/schema.sql:121-139 | firing the row trigger once per deleted link, in any order, has the exact effect of DeleteLinks |
| `MailStore.Database.RunDelivery` | mx/database.go:99-173 | a transaction that fails at any statement, duplicate id or missing address leaves the committed rows unchanged; any other yields the rows of Store, which the two lemmas on it pin down |
| `MailStore.Database.StoreEmail` | mx/database.go:99-173 | the exact condition of success, and exactly the rows of the message become visible or none; a cap job is started only after COMMIT, for the mailbox that got the message |
| `MailStore.Database.InsertAttachments` | mx/database.go:146-158 | the loop adds one row per attachment iff every insert succeeds |
| `MailStore.Database.EnforceEmailLimit` | mx/database.go:229-266 | the statement drops all but the newest links of one mailbox, as many as are configured or 100, and, by the trigger, the messages nobody else has |
| `MailStore.SnapshotSeesNoOrphan` | mx/database.go:239-259 | the statement's own NOT EXISTS finds nothing: every touched message still has a link in its snapshot |
| `MailStore.Database.EnforceStorageLimit` | api/app/cleanup.py:53-97 | the job with its early return equals Enforce; without a positive cap it deletes nothing |
| `MailStore.Database.CleanupRetention` | api/app/cleanup.py:110-148 | retention equals Retain: old links of permanent mailboxes go, counted by links |
| `MailStore.Database.CleanupExpiredAddresses` | db/init/schema.sql:148-160 | expiry removes exactly the addresses past their time |
| `MailStore.Database.DeleteEmail` | api/app/routers/emails.py:339-379 | 404 unless the live token owns a link to the message; otherwise that one link goes, and the message iff nobody else has it |
| `MailStore.Database.AdminDeleteEmail` | api/app/routers/admin.py:390-399 | 404 iff the message is unknown, else the message goes with its cascades |
| `MailStore.Database.AdminDeleteAddress` | api/app/routers/admin.py:279-291 | 404 iff the address is unknown, else it goes with its links and the mail only it had |
| `MailStore.Database.PurgePermanentEmails` | api/app/routers/admin.py:823-844 | 404 unless a permanent mailbox, which otherwise loses all its links and keeps its address |
| `StorageCap.KeptIsPrefixThatFits` | api/app/cleanup.py:73-86 | what stays is a newest-first prefix whose total size fits the cap |
| `StorageCap.KeptIsLongest` | api/app/cleanup.py:73-86 | it contains every newest-first prefix that fits |
| `StorageCap.EarlyReturnIffNothingOverflows` | api/app/cleanup.py:69-71 | the early return is taken iff the window query would delete nothing |
| `StorageCap.EnforceKeepsLongestFittingPrefix` | api/app/cleanup.py:53-97 | under a cap of n MB, n times 1048576 bytes: the total is within it, what goes is older than all that stays, a newest-first prefix fits iff it is part of what was kept, links and attachments go with their messages only, and the count is right; without a positive cap nothing changes |
| `StorageCap.EnforceIsIdempotent` | api/app/cleanup.py:53-97 | a second run deletes nothing |
| `MailboxCap.RunKeeps` | mx/database.go:165-170 | the protocol invariant holds after every run of deliveries, cap jobs, failed jobs and other steps, each cap statement being one step; times of receipt may tie |
| `MailboxCap.MailboxStaysBounded` | mx/database.go:229-259 | at every point of every run a mailbox exceeds the cap by at most its pending and failed jobs, and each lost message is outnumbered by newer ones still held |
| `MailboxCap.BoundIsReached` | mx/database.go:165-170 | the bound is sharp: for every cap and k a run ends with cap + k messages and k pending jobs |
| `MailboxCap.MailboxAtRestHoldsTheNewest` | mx/database.go:165-259 | with a fixed cap n and no job left, a mailbox holds n newest of everything ever delivered to it |
| `MailboxCap.NewestIsUnique` | mx/database.go:244-252 | with distinct arrival times there is only one such choice |
| `MailboxCap.InterleavingDoesNotMatter` | mx/database.go:165-259 | confluence of runs of such steps: the same deliveries at distinct times leave the same mailbox, in whatever order the jobs ran |
| `CapOverlap.RunKeeps` | mx/database.go:229-260 | with the choice of victims and their deletion apart, and anything in between: every link lost or chosen is outnumbered by the cap's worth of others as new, and without any one choice in flight the mailbox exceeds the cap by no more than the jobs yet to choose, chosen later or failed |
| `CapOverlap.MailboxStaysBounded` | mx/database.go:229-259 | the bound and the outnumbering at every point of every run of overlapping statements; without a tie across the cap, outnumbered by newer messages still held |
| `CapOverlap.MailboxAtRestHoldsTheNewest` | mx/database.go:165-260 | with a fixed cap n, no job left and no tie across it, the mailbox holds the n newest of everything ever delivered to it, however the statements overlapped |
| `CapOverlap.NewestIsUnique` | mx/database.go:244-252 | without a tie across the cap there is only one such choice |
| `CapOverlap.InterleavingDoesNotMatter` | mx/database.go:165-260 | confluence under every interleaving of deliveries, choices and deletions |
| `CapOverlap.TieLosesMail` | mx/database.go:244-252 | for any deliveries with a tie across the cap, a run of overlapping statements that ends with fewer than n of them |
| `CapOverlap.HoldsTheNewestIffNoTieAcrossTheCap` | mx/database.go:229-260 | the exact condition: every run over given deliveries ends with the n newest iff no tie lies across the n-th place |
| `CapOverlap.AtomicRunIsARun` | mx/database.go:229-260 | every run in which each statement is one step is a run of this protocol, with the same mailbox at its end |
| `Addresses.CreateAddress` | api/app/routers/addresses.py:77-144 | the route, with every refusal, equals CreateTemp |
| `Addresses.PickRandomName` | api/app/routers/addresses.py:109-123 | the bounded retry loop yields the first unused of ten candidates, or 500 |
| `Addresses.FirstUnusedIsUnused` | api/app/routers/addresses.py:111-123 | a candidate is found iff one of the ten is unused, and it is unused |
| `Addresses.GrantedTempNameIsFree` | api/app/routers/addresses.py:89-123 | a name is granted only when free or held by an expired temporary address |
| `Addresses.TempEvictsOnlyExpired` | api/app/routers/addresses.py:94-142 | name reuse removes nobody but an expired temporary holder of that name, the new mailbox starts empty, a refusal changes nothing |
| `Addresses.TempRequestOutcome` | api/app/routers/addresses.py:77-144 | for every request: which refusal with which status, or which name (the custom one, or the first random one that nobody bears) and which row are granted, and what happens to the holder of the name |
| `Addresses.CreatePermanentAddress` | api/app/routers/permanent.py:33-94 | the route, with every refusal in its order, equals CreatePermanent |
| `Addresses.PermanentEvictsOnlyExpired` | api/app/routers/permanent.py:74-94 | the same promise for permanent mailboxes |
| `Addresses.PermanentRequestOutcome` | api/app/routers/permanent.py:33-94 | the same for permanent mailboxes, with the cap on their number, the bounds on the length and the trimmed, lower-cased name |
| `Addresses.ReplaceExactly` | api/app/routers/permanent.py:74-92 | exact effect of a granted name on addresses, links and consistency |
| `Addresses.PermanentCreationRespectsCap` | api/app/routers/permanent.py:47-55 | one request never takes the permanent count past a positive cap |
| `Addresses.ReachableIffLowerCase` | mx/database.go:175-187 | some delivery reaches an address iff its stored name is in lower case and it has not expired |
| `Addresses.PermanentMailboxReceivesIff` | api/app/routers/permanent.py:63-94 | in the tables its creation left, a permanent mailbox can receive mail at any later time iff its domain is configured in lower case |
| `Addresses.TempAddressReceivesIff` | api/app/routers/addresses.py:129-142 | a created temporary address receives mail exactly until it expires, and its token opens it until then |
| `MailRuns.OwnerDeletesTheirLink` | api/app/routers/emails.py:353-377 | the owner's delete succeeds iff the token opens a live mailbox holding the message, drops that one link and the message iff nobody else has it; otherwise nothing changes |
| `MailRuns.RetentionLeavesTheRecent` | api/app/cleanup.py:118-141 | after retention over n days exactly the links of temporary mailboxes and those to messages of the last n days remain, with their messages, and the count is right; zero days or fewer switch it off |
| `MailRuns.ExpiryLeavesTheLiving` | db/init/schema.sql:148-160 | after expiry exactly the addresses that have not run out remain, with all their links and messages, and the count is right; a second run deletes nothing |
| `MailRuns.PurgeEmptiesOneMailbox` | api/app/routers/admin.py:826-844 | after a purge the permanent mailbox is empty, its address and every other mailbox's links remain, and the count is right; any other address is left alone |
| `MailRuns.SweepReplacesTrigger` | api/app/cleanup.py:126-141 | purge and retention have the same effect with and without the trigger |
| `MailRuns.OwnerSweepReplacesTrigger` | api/app/routers/emails.py:365-377 | so has the owner's delete |
| `MailRuns.SweptMessages` | api/app/cleanup.py:134-141 | on any tables the second statements find exactly the messages without a link; that of retention only the old ones |
| `MailRuns.EveryMessageHasOneLink` | mx/database.go:107-144 | in every reachable state each message has exactly one link, although the schema allows sharing |
| `MailRuns.BareUnlinkSoundIffNothingGoes` | db/init/schema.sql:121-139 | without the trigger, plain unlinking of such tables is sound iff no link goes |
| `MailRuns.BareCapSoundIffWithinCap` | mx/database.go:242-260 | so the cap statement needs the trigger exactly when the mailbox is over its cap |
| `MailRuns.BareRemovalSoundIffEmpty` | api/app/routers/admin.py:287-290 | and the removal of addresses exactly when one of them has mail |
| `MailRuns.StepIsUnlink` | mx/database.go:239-259 | each of the link-dropping jobs and routes is one DeleteLinks, its own sweep included |
| `MailRuns.PerformJob` | api/app/cleanup.py:12-148 | the steps of a history are what the methods of Database do: deliveries and jobs |
| `MailRuns.PerformUnlink` | api/app/routers/emails.py:339-379 | the routes that unlink |
| `MailRuns.PerformDelete` | api/app/routers/admin.py:279-399 | the routes that delete rows |
| `MailRuns.PerformCreation` | api/app/routers/addresses.py:33-144 | the routes that create addresses |
| `MailRuns.PerformCap` | mx/database.go:229-266 | and the cap job, for a choice the database makes |
| `MailRuns.StepKeepsConsistency` | db/init/schema.sql:12-139 | each of the eleven operations keeps the tables consistent |
| `MailRuns.RunFrom` | db/init/schema.sql:12-139 | every state reachable from consistent tables by any history of those operations is consistent |
| `MailRuns.OtherMailboxesAreUntouched` | mx/database.go:239-259 | isolation: cap, retention, expiry, delete, purge, creation and delivery never remove or alter a link, message or attachment of a mailbox they do not target |
| `MailRuns.PermanentCountStaysCapped` | api/app/routers/permanent.py:47-55 | over every history with one positive cap, the permanent count stays within it |
| `MailRuns.UntargetedStepIsElsewhere` | mx/database.go:229-260 | any operation that neither targets a mailbox nor delivers to it is a step that the cap protocol of that mailbox allows for the rest of the server |
| `MailRuns.HistoryIsRun` | mx/database.go:165-260 | refinement: every history that leaves a mailbox to its cap is a run of the cap protocol |
| `MailRuns.HistoryStaysBounded` | mx/database.go:165-260 | after every such history the mailbox exceeds the cap by at most its pending and failed jobs, and each lost message is outnumbered by newer ones still held |
| `MailRuns.HistoryHoldsTheNewest` | mx/database.go:165-260 | once no job is left, the history has left the mailbox the n newest messages it ever got, whatever else the service did |
| `MailRuns.NewMailboxStarts` | api/app/routers/addresses.py:129-142 | every newly granted address is a start of such a history |
| `MailRuns.PermanentSurvives` | api/app/routers/permanent.py:3-5 | the row of a permanent mailbox survives, unaltered, every history in which the admin does not delete it |
| `MailRuns.PermanentMailboxIsForEver` | api/app/routers/permanent.py:3-5 | after its creation and any such history, at any time, its token opens it and it can receive mail iff its domain is configured in lower case |
| `SlidingWindow.RateLimiter.SweepLocked` | api/app/rate_limit.py:28-38 | the sweep drops exactly the stale keys, at most once a minute and only from large tables |
| `SlidingWindow.SweepExactly` | api/app/rate_limit.py:28-38 | at most once in 60 seconds, only among 512 keys or more, and then exactly the keys without an admission for 3600 seconds go |
| `SlidingWindow.RateLimiter.IsAllowed` | api/app/rate_limit.py:41-53 | the method with its head-popping loop equals Allow |
| `SlidingWindow.RateLimiter.Check` | api/app/rate_limit.py:87-107 | the dependency equals Step; a limit of zero or less always passes |
| `SlidingWindow.CacheDecidesLikeFullHistory` | api/app/rate_limit.py:28-53 | for every call sequence over any keys, a request passes iff fewer than `limit` earlier admissions of its key are younger than its window, if that is at most an hour, whatever the windows of other keys |
| `SlidingWindow.SweepForgetsLongWindows` | api/app/rate_limit.py:36-38 | a run on which the cache admits what the full history refuses, for any longer window |
| `SlidingWindow.AgreementIffWindowAtMostOneHour` | api/app/rate_limit.py:28-53 | cache and history agree about a key on every run iff its window is at most 3600 seconds |
| `SlidingWindow.WindowHoldsAtMostLimit` | api/app/rate_limit.py:41-53 | of what the cached limiter itself admits, every half-open window of a key, if at most an hour long, holds at most the limit in force at the last admission in it, however limits change |
| `SlidingWindow.LimitHoldsIffWindowAtMostOneHour` | api/app/rate_limit.py:28-53 | it does so for a key, on every run with a monotone clock, iff its window is at most 3600 seconds |
| `SlidingWindow.ForgetfulRunBreaksLimit` | api/app/rate_limit.py:36-38 | for any longer window, a run on which two requests get past a limit of one |
| `SlidingWindow.RetryAfterIsHonoured` | api/app/rate_limit.py:102-107 | for windows of any length, a refused client that waits out Retry-After, with no other admission of its key, is admitted |
| `HourlyWindow.MessageLimiter.AllowMessageFrom` | mx/session.go:357-386 | the method with its pruning loop equals Allow |
| `HourlyWindow.AllowExactly` | mx/session.go:357-386 | the answer and the table after any call: no limit, no record; passed iff there is no open window or room in it; others keep their windows, but for those over an hour old in a table of more than 4096 |
| `HourlyWindow.PruningNeverChangesADecision` | mx/session.go:368-385 | every call is answered as if its address had a private window that is never pruned |
| `HourlyWindow.HourHoldsLessThanTwiceTheLimit` | mx/session.go:357-386 | no closed hour holds more than 2L-1 admitted messages of one address |
| `HourlyWindow.TwiceTheLimitLessOneIsReached` | mx/session.go:376-385 | for every limit some run reaches that bound |
| `Utf8Text.TruncateRunes` | mx/database.go:87-97 | the result is the longest valid prefix within maxBytes when the input is valid |
| `Utf8Text.CutIsValidIff` | mx/database.go:92-96 | a cut of valid UTF-8 is valid iff it does not fall on a continuation byte |
| `Utf8Text.ToValidKeepsValidPrefix` | mx/database.go:77-79 | replacing invalid bytes leaves a valid beginning untouched |
| `Utf8Text.ToValidCollapsesRun` | mx/database.go:77-79 | a run of invalid bytes becomes one question mark |
| `Utf8Text.SanitizeText` | mx/database.go:71-85 | for every byte string: valid UTF-8, no NUL, within the column; and the longest such beginning of text that is valid without its NUL bytes |
| `Utf8Text.SanitizeKeepsAllItCan` | mx/database.go:71-97 | what is left is the longest valid beginning within the column of the text without NUL, repaired if need be; all of it without a limit |
| `Utf8Text.RemoveNulKeepsTheRest` | mx/database.go:76 | dropping NUL keeps exactly the other bytes, in order |
| `Utf8Text.EncodedIsValid` | mx/database.go:77 | every sequence of encoded Unicode characters is valid text |
| `Utf8Text.ValidIsEncoded` | mx/database.go:77 | and valid text is always such a sequence |
| `Utf8Text.SanitizeFixesExactlyTheStorable` | mx/database.go:71-85 | a string passes unchanged iff it was storable |
| `Utf8Text.SanitizeIsIdempotent` | mx/database.go:71-85 | cleaning twice is cleaning once |
| `Text.LowerIsPointwise` | mx/session.go:107 | lower-casing maps the letters A to Z one by one and leaves all else |
| `Text.StripCutsBlanks` | api/app/routers/permanent.py:63 | trimming cuts white space off both ends and nothing else |
| `Text.SplitThenJoin` | mx/session.go:102 | the parts of a split, joined again, are the text, and none holds the separator |
| `LikeSearch.ChainedReplacesEscapeEachChar` | api/app/utils.py:50-57 | the three chained replacements equal one character-by-character map |
| `LikeSearch.UnescapedWildcardsMatchTooMuch` | api/app/utils.py:50-57 | without escaping, a percent sign finds every text and an underscore every text but the empty one |
| `LikeSearch.EscapedTermIsLiteral` | api/app/utils.py:50-57 | an escaped term in a pattern matches exactly itself, up to folding |
| `LikeSearch.SearchFindsExactlyOccurrences` | api/app/routers/emails.py:108-116 | the built pattern matches a text iff the term occurs in it, up to folding |
| `ConfigPatch.ConfigDict.ApplyPatch` | api/app/runtime_config.py:210-283 | the nested loops over the dictionary equal Apply, refusals and raised errors included |
| `ConfigPatch.ConfigDict.ApplySection` | api/app/runtime_config.py:227-272 | so does the inner loop over one section |
| `PatchLaws.WritesExactly` | api/app/runtime_config.py:227-272 | afterwards each key of the patch holds its normalised value and every other key what it held |
| `PatchLaws.ReportsChanges` | api/app/runtime_config.py:270-271 | a key is reported iff its stored value changed |
| `PatchLaws.BoundsKept` | api/app/runtime_config.py:261-265 | a successful patch leaves the username bounds in order if it touches one or they were |
| `PatchLaws.SuccessfulPatch` | api/app/runtime_config.py:210-283 | all of it together: whitelisted keys only, exact report, bounds in order, panel never locked away |
| `PatchLaws.PatchIsIdempotent` | api/app/runtime_config.py:210-283 | sending a successful patch again succeeds and reports nothing |
| `PatchLaws.KeyOrderDoesNotMatter` | api/app/runtime_config.py:221-272 | two key orders that both succeed give the same configuration and report |
| `PatchLaws.PatchPassesIff` | api/app/runtime_config.py:221-272 | the loops get through a patch iff every key is whitelisted and well typed in a section that is a mapping, and each new bound fits its partner, set earlier in the patch or stored |
| `PatchLaws.PatchSucceedsIff` | api/app/runtime_config.py:210-283 | apply_patch succeeds iff in addition the patch leaves access open or ends with a panel host name |
| `PatchLaws.BoundsOrderMatters` | api/app/runtime_config.py:261-265 | exactly when a patch that sets both bounds, among any other keys, passes in a given order |
| `PatchLaws.OneOrderPasses` | api/app/runtime_config.py:261-265 | bounds that are in order always pass in that order or with the two exchanged |
| `PatchLaws.ObjectsSetKeysOnce` | api/app/runtime_config.py:221-227 | the edits of a JSON object of objects never set a key twice, which is what the other laws ask of a patch |
| `PatchLaws.EditsAreThePatch` | api/app/runtime_config.py:221-229 | the loops set exactly what the patch gives |
| `PatchLaws.MisshapenEdits` | api/app/runtime_config.py:222-225 | and meet a refusal iff a section may not be patched or is no object |
| `PatchLaws.RulesKeyByKey` | api/app/runtime_config.py:38-259 | for each key that may be patched, which values pass |
| `PatchLaws.StoredValue` | api/app/runtime_config.py:267-268 | host names are stored trimmed and in lower case, other values as they are |
| `ConfigValues.NumbersAreEqualByValue` | api/app/runtime_config.py:270 | a changed key is told by Python equality, under which numbers of all types compare by value |
| `ConfigValues.OthersAreEqualByParts` | api/app/runtime_config.py:270 | and texts, lists and mappings by their parts |
| `ConfigValues.HostnameIff` | api/app/runtime_config.py:118-120 | which labels make a host name and which a configured domain |
| `LiveSettings.Settings.Apply` | api/app/config.py:17-130 | field-by-field assignment that may stop half-way equals ApplyConfig; run to its end it leaves the settings of the file or their defaults |
| `LiveSettings.AppliedSettings` | api/app/config.py:24-130 | the username bounds, reserved names, custom-username flag, lifetime, storage and mailbox caps, retention days, rate limits and credentials flag that result, key by key with their defaults |
| `LiveSettings.ReservedByDefault` | api/app/config.py:62-66 | the reserved names when the file gives none |
| `LiveSettings.CredentialsAreApplied` | api/app/config.py:101-111 | the credentials flag is the file's, switched off iff it is truthy and the origins hold the wildcard |
| `ConfigValues.FalseValues` | api/app/config.py:109 | which values count as false |
| `LiveSettings.Settings.ReloadSettings` | api/app/config.py:151-169 | reload validates before it assigns, and equals Reload |
| `LiveSettings.ReloadSucceedsIff` | api/app/config.py:151-169 | a reload goes through iff the file is a mapping with non-empty domains that _apply gets through; any other kind of file leaves the settings untouched |
| `LiveSettings.ApplyForgetsThePast` | api/app/config.py:17-130 | success and result of _apply depend on the configuration alone |
| `LiveSettings.ReloadForgetsThePast` | api/app/config.py:151-169 | so do those of a reload, whatever an interrupted _apply left behind |
| `LiveSettings.ApplySucceedsIff` | api/app/config.py:17-130 | _apply runs to its end iff every section it reads is a mapping or absent and `'*' in origins` is defined |
| `LiveSettings.DomainsFollowTheFile` | api/app/config.py:24-25 | no later assignment of _apply disturbs the served domains |
| `LiveSettings.WildcardNeverWithCredentials` | api/app/config.py:101-111 | applied settings never pair a wildcard origin with credentials |
| `ConfigFile.Disk.WriteConfig` | api/app/runtime_config.py:169-187 | the new text and, in the backup, the old one unless it was empty; and that the disk goes through exactly the states MayBeLeft describes |
| `ConfigFile.Disk.ReadConfig` | api/app/runtime_config.py:143-166 | the method with its fall-back equals Read |
| `ConfigFile.ReadIs` | api/app/runtime_config.py:143-166 | the main file if it is a non-empty mapping, else the backup if that is one, else None or an empty mapping |
| `ConfigFile.CrashRecoversIffTextTearsHarmlessly` | api/app/runtime_config.py:143-187 | a crash at any step of a write leaves the old or the new configuration iff no beginning of the new text parses as a third one |
| `ConfigFile.BlockTextTearsIntoAThirdConfiguration` | api/app/runtime_config.py:184-185 | block-style text can be torn into a configuration that was never written |
| `ConfigFile.TornTwoLineFile` | api/app/runtime_config.py:154-155 | a concrete two-line file on which that happens |
| `ConfigFile.WriteIsSafeIffMainIsIntact` | api/app/runtime_config.py:143-187 | as long as a configuration can be read, every crash during the next write leaves one to be read iff the main file is missing, empty or a configuration |
| `ConfigFile.SecondCrashSurvivedIff` | api/app/runtime_config.py:169-187 | after one crash on a good disk something can be read, and a second crash is survived iff the first left no torn file |
| `ConfigFile.SecondCrashCanLoseEverything` | api/app/runtime_config.py:179-184 | the failing run of two crashes |
| `ConfigFile.TwoTornWrites` | api/app/runtime_config.py:179-184 | a concrete instance of it |
| `ConfigFile.CompletedWriteRestoresProtection` | api/app/runtime_config.py:169-187 | after a completed write a crash in the next one leaves one of the two configurations, again iff the text tears harmlessly |
| `AdminConfig.CommitConfig` | api/app/routers/admin.py:107-120 | commit with roll-back equals Commit |
| `AdminConfig.CommitIsAllOrNothing` | api/app/routers/admin.py:107-120 | file and live settings end up both new or both previous; new iff the new configuration loads |
| `AdminConfig.CommitEndsInStepIff` | api/app/routers/admin.py:107-120 | file and settings agree afterwards iff the new or the previous configuration loads |
| `AdminConfig.Handle` | api/app/routers/admin.py:462-545 | the three routes equal Serve on the world and on success |
| `AdminConfig.StartUpIsSound` | api/app/config.py:11-15 | a start on a file with a sound configuration that loads establishes the invariant of those runs |
| `AdminConfig.LoadableIff` | api/app/config.py:151-169 | a configuration with a sound domain list loads iff every section read is a mapping or absent and the CORS origins are a container |
| `AdminConfig.OneDomainIsEnough` | api/app/config.py:17-130 | a file that lists one domain and nothing else is sound and loads |
| `AdminConfig.AcceptedRequestIsKept` | api/app/routers/admin.py:462-545 | from a sound state, with a written configuration that reads back, the routes never need the roll-back: a request is kept iff it passes the checks of its route, otherwise changes nothing, and the state stays sound |
| `AdminConfig.KeptDomainIsAppended` | api/app/routers/admin.py:462-482 | adding a domain is kept iff the trimmed, lower-cased name is well formed, not listed and fewer than 100 are; the list in the file then ends with it and no other key differs |
| `AdminConfig.KeptRemovalCutsOneOut` | api/app/routers/admin.py:485-499 | removing one is kept iff it is listed and not the last; the list then lacks just that entry |
| `AdminConfig.KeptPatchIsInTheFile` | api/app/routers/admin.py:522-536 | a patch is kept iff it fits; the file then holds its values, and the old ones for all other keys |
| `AdminConfig.WithoutRemovesOne` | api/app/routers/admin.py:498 | removing a domain from a duplicate-free list removes that one and nothing else |
| `AdminConfig.ProposedIsSound` | api/app/routers/admin.py:462-534 | what a route wants to commit has 1 to 100 distinct domains and a reachable panel |
| `AdminConfig.RunStaysSound` | api/app/routers/admin.py:462-545 | at every point of every run of the routes whose written configurations read back, the file stays so, holds what the accepted requests make of it, and the live settings are those of the file |
| `AdminConfig.EveryHistoryHasARun` | api/app/routers/admin.py:462-545 | for every list of requests to a sound configuration that loads there is a file format and a start of which that is true |
| `AdminConfig.ServedDomainsAreListed` | api/app/routers/admin.py:466-482 | in every state of such a run the API serves exactly the domains the file lists |
| `AdminConfig.LiveSettingsFollowTheFile` | api/app/routers/admin.py:107-120 | and the other settings are those of the file, key by key, or their defaults |
| `AdminConfig.RemoveUndoesAdd` | api/app/routers/admin.py:462-499 | removing a domain that was just added restores the configuration |
| `Reload.GetDomainMap` | mx/config.go:146-161 | the loop yields exactly the trimmed, lower-cased, non-blank entries |
| `Reload.LoadedLimits` | mx/config.go:91-191 | which files load, and the domains and limits then in force with their defaults |
| `Reload.UnreadableDoesNotLoad` | mx/config.go:91-101 | a file that cannot be read or parsed does not load |
| `Reload.ConfigCell.ReloadIfChanged` | mx/reload.go:36-56 | the method equals AfterReload on cell, hash and result |
| `Reload.AtomicReload` | mx/reload.go:36-56 | the current configuration is the load of the content whose hash is recorded; a failed load changes nothing; a loadable file is in force |
| `Reload.Run` | mx/reload.go:58-77 | so over every run of file edits and reloads, and after a tick on a loadable file that file is in force |
| `Reload.SplitReadStaysInStepIff` | mx/reload.go:40-52 | a write between the two reads is harmless iff it did not change the configuration |
| `Reload.SplitReadHealsUnlessFileReturns` | mx/reload.go:40-52 | otherwise the next tick repairs the cell, unless the file is put back to what was hashed |
| `Reload.StartUpInStepIff` | mx/main.go:27-71 | start-up ends in step iff no edit before the hash changed the configuration |
| `WriteRace.MomentsAreTheWritesOfTheApi` | api/app/runtime_config.py:184-187 | what a tick can find in the file during a write is exactly what a crash of that write could leave there |
| `WriteRace.TicksAreSafeIffTextLoadsHarmlessly` | mx/reload.go:36-56 | whatever ticks fall into a write, an old or the new configuration is in force iff no beginning of the new text loads as another one |
| `WriteRace.FirstTickAfterTheWriteRepairsIff` | mx/reload.go:36-56 | the first tick after a write puts the new configuration in force, whatever ticks fell into it, iff the text was not already in the file, unread, with a beginning that loads differently |
| `SmtpSession.CountMimeParts` | mx/session.go:388-401 | the loop with its ceiling counts the boundary-like lines |
| `SmtpSession.PartsAreBoundaries` | mx/session.go:388-401 | the count is the number of lines longer than two that begin with two dashes, up to 100000 |
| `SmtpSession.Session.Mail` | mx/session.go:82-88 | a new sender and an empty queue, nothing else |
| `SmtpSession.Session.Reset` | mx/session.go:233-238 | no sender and an empty queue; settings and domains stay |
| `SmtpSession.Session.Rcpt` | mx/session.go:90-155 | the method equals AfterRcpt on session, shared cell and reply |
| `SmtpSession.RcptAcceptsIff` | mx/session.go:94-154 | accepted iff well-formed, known and in a served domain after a reload if need be; the queue grows by that recipient at most and stays duplicate-free and lower-case; the reply is a 4xx iff the database failed |
| `SmtpSession.RcptAnswers` | mx/session.go:94-139 | each refusal with its code, and what the reload for an unknown domain does to the session and the shared cell |
| `SmtpSession.PartsIff` | mx/session.go:94-107 | an address is well formed iff it has exactly one @ |
| `SmtpSession.AddressIsAcceptedIff` | mx/session.go:94-154 | local@domain is accepted, and queued in lower case, iff it is known and its lower-cased domain is served |
| `SmtpSession.QueueIsSound` | mx/session.go:82-155 | over every sequence of commands and of reloads by the watcher or other sessions, each queued recipient was accepted in this transaction, when it was known and its domain served; the queue has no duplicates |
| `SmtpSession.Session.Data` | mx/session.go:157-231 | limits in their order, each with its reply and without touching the store; then the store loop. An oversize or unreadable message costs no hourly budget; the refusal is final iff the message is too large or, once in budget, has too many parts or does not parse |
| `SmtpSession.AdmitAnswers` | mx/session.go:157-195 | the reply before the store loop, in order of precedence, and what is counted against the hourly budget |
| `SmtpSession.Session.StoreCopies` | mx/session.go:217-230 | the loop equals StoreFrom: it stops at the first failure with 451 |
| `SmtpSession.StoreRunOf` | mx/session.go:217-227 | every DATA is a chain of single deliveries, complete iff it succeeded |
| `SmtpSession.TurnReachesItsMailbox` | mx/session.go:217-227 | each turn of the store loop, whatever ran before it, adds one link to the mailbox of its recipient, none to any other, and loses nothing |
| `SmtpSession.TurnStoresTheMessage` | mx/session.go:217-227 | the stored copy bears the recipient's name and the message's own time, size and attachments |
| `SmtpSession.OneCopyPerRecipient` | mx/session.go:217-230 | the loop on its own: success stores exactly one copy per recipient; failure after n copies leaves exactly the first n, and the next one cannot be stored |
| `DataAmongOthers.OneCopyAmongOthers` | mx/session.go:217-230 | as steps of any history, cap jobs, deletes and other deliveries between them: a mailbox gains its copy at its turn, under a link it never had, and nothing at another |
| `DataAmongOthers.PermanentGetsOneCopy` | mx/session.go:217-230 | of which a permanent recipient is sure as long as the admin does not delete it |
| `SmtpSession.ListedDomainRefusedIff` | mx/session.go:109-126 | a listed domain is refused iff the snapshot lacks it and the change was already consumed |
| `SmtpSession.AddedDomainCanBounce` | mx/reload.go:33-43 | the run on which that happens: a session opens, a domain is added, the watcher ticks |
| `SmtpSession.AcceptedDomainDroppedIff` | mx/session.go:114-122 | when exactly a RCPT drops the served domain of a recipient already queued, who stays queued |
| `SmtpSession.AcceptedDomainCanBeDropped` | mx/session.go:114-122 | the session on which that happens: MAIL, an accepted RCPT, an edit of the file, another RCPT |
| `SmtpSession.ZeroMimePartsRefusesMultipart` | mx/session.go:183-186 | with max_mime_parts 0 a message passes iff it would pass without the check and has no boundary line |

## Left out

- Database errors in the clean-up jobs and routes, which roll back and change nothing: only delivery is modelled with failing statements.
- Columns without a constraint or a reader here: subject, bodies, headers, raw message, DKIM/SPF/DMARC results, read marks, content type and data of attachments, creation times. `sanitizeText` is proved on its own and not linked into the stored rows.
- The CHECK on the shape of an address and the column widths; `varchar(n)` counts characters where `sanitizeText` counts bytes.
- `Text` maps case and trims on ASCII only; Unicode case folding is not modelled.
- `LikeSearch` takes the folding of ILIKE as a parameter on single characters.
- Concurrent requests: two simultaneous configuration edits can lose one (the lock covers single reads and writes), and two simultaneous creations can pass the permanent cap together. Both are modelled one at a time.
- SmtpSession.OneCopyPerRecipient: describes the loop with nothing else running, because its result is a function of the tables alone; DataAmongOthers.OneCopyAmongOthers states the loop among all other operations, and what cap jobs drop afterwards is MailRuns.HistoryHoldsTheNewest.
- `MailRuns` takes the cap statement as one step, as `MailboxCap` does; overlapping statements are in `CapOverlap`, where the rest of the server is one kind of step. Lock waits and serialisation failures appear as delays and failed jobs.
- `_commit_config` when the disk itself refuses a write, and bytes that are not UTF-8 in `config.yaml`: I/O errors are not part of the model, a crash during a write is.
- Infinite and not-a-number values in YAML; `domains` values that are not lists (the admin routes then see an empty list).
- The request schemas (username pattern, lower-casing of requested names and domains), the integration API key, admin authentication, `get_client_ip`: they filter or name what reaches the modelled functions.
- Random tokens, names and row ids are inputs; `generate_random_email` and `generate_token` are not part of this model.
- go-smtp's command sequencing and connection limits, `mail.ParseAddress`, enmime and the DKIM, SPF and DMARC validators: their results are inputs. Every order of MAIL, RCPT, DATA and RSET is covered.
- Configuration keys of the MX server that the session, the cap job and the reload do not read (ports, host name, TLS files, pool size); re-evaluation of TLS after a reload.
- DNS-over-HTTPS checks, TLS certificates and certbot jobs, OpenAPI generation, health check, pool watchdog, logging, the front end.
- Listing, paging, counts, statistics, secret masking, `write_web_config`, the setup wizard and key regeneration would only add easy members.
- `run_cleanup_loop` and `run_cleanup_now` call the three jobs in turn; `MailRuns` covers every order of them.
