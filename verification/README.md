# Rufaqaa backend: a Dafny model of its rules, protocols and migrations

This project models the stateful and arithmetic core of the Rufaqaa backend and proves what
that core is relied on for. `dafny verify dfyconfig.toml` checks all of it.

| files | what they model |
|---|---|
| `Registration`, `Protocol`, `ProtocolRuns`, `FreshRuns`, `RegistrationFacts`, `Session` | `create_orphan_record`: alone in the database, as the imperative body over one session, and as any number of interleaved calls over committed and uncommitted rows |
| `Crypto`, `Migrations`, `IntakeChain` | national-id encryption and blind indexing, migrations 0018, 0020 and 0021, and the chain from the plaintext schema into concurrent registration |
| `WindowLog`, `MemoryLimiter`, `CapacityChanges`, `RedisLimiter`, `LimiterAgreement`, `ClientKeys` | both rate limiters against one untrimmed admission log, what a change of capacity does, and the middleware's callers over either backend |
| `Calendar`, `Arrears`, `Reporting`, `SeedCalendar` | dates, late-payment and reporting rules, the month helpers of both demo seeds |
| `Decimals`, `Wish` | decimal rounding and `progress_percent` |
| `Ledger`, `LedgerFacts`, `SeedUpserts`, `Purge`, `PurgeFacts` | the demo seed: payment history and totals, get-or-create loops over repeated runs, the ordered purge against the schema's foreign keys |

## How the source is read

* Python errors are values. `ValueError` and `OverflowError` of date arithmetic are `None`, HTTP
  errors are verdicts, `IntegrityError` is a conflict, a failing statement or migration leaves
  the committed state as it was.
* Years run from 1 to 9999 as in `datetime.date`. Amounts with two decimals are integers of
  cents. In-process time is a real number, Redis time an integer of milliseconds.
* Encryption is symbolic: a token is its key, nonce and plaintext, a digest its key and message.
  `lower`, `upper` and regular-expression matching are arbitrary functions, `lower` being one
  function for Python and SQL.
* The database is READ COMMITTED. A statement sees committed rows and its own; an insert that
  collides with a committed row on a unique index is rejected, one that collides with another
  call's uncommitted row waits. When several indexes collide, the one created first is reported.
  Ids and codes are not assumed fresh: such a collision ends the call in a 500. A call may also
  die between any two steps, and orphans may be soft-deleted at any time.
* One row of the orphans table never changes position, so a position stands for a row id.

## What the proofs turned up

* The Redis script hands EXPIRE a number of milliseconds, which Redis reads as seconds; keys live
  a thousand times longer than the window. This is harmless: `RedisIsExact`. Redis expires keys by
  its own clock; all that is assumed of it is that it does not run a thousand times faster than
  the callers' (`RedisLimiter.Pace`).
* The Redis script stores milliseconds as set members, so admitted hits of one millisecond count
  once. The window bound then survives exactly for a capacity of at most one or an empty window:
  `BoundSurvivesSharedMillisecondsIff`.
* The two limiters are not interchangeable: two hits exactly one window apart get different answers
  (`EdgeRunDiffers`). They agree on a run exactly if no hit is at that edge (`AgreeIffNeverAtEdge`),
  and on all runs only where nothing is limited or nothing admitted (`AlwaysAgreeIff`).
* The unique indexes answer a loser with a 409, as documented, unless its random id or code is taken
  too: `FailsExactly` says when a call ends in a 500, and with draws that never repeat only a crash
  does (`FailsIffCrashed`).
* The in-process limiter starts an empty bucket when a key's capacity changes. Two positive
  capacities in turn are admitted without end (`AlternatingCapacities`), and the bound survives two
  capacities exactly when they are equal, admit nothing, or the window is empty
  (`BoundSurvivesCapacitiesIff`). The middleware's keys fix the capacity (`KeyFixesCapacity`).
* Over Redis the middleware's allowance bounds the milliseconds with admitted requests, not the
  requests: for arbitrary traffic the bound holds exactly for an allowance of at most one
  (`RedisCallerBoundedIff`).
* `months_behind` keeps counting after a committed term has ended, `installments_due` does not, and
  the late-payers report prints both. They agree with what was paid exactly while the term has not
  been outlived by a month: `InstallmentsConservedIff`, with a fully paid term that counts as three
  instalments behind in `OutlivedByThreeMonths`.
* The `while` version of `_month_window` raises for December 9999 and for windows after the
  current year, where the other version answers: `WindowsAgreeIff`.
* `is_late_payer` accepts negative grace. "Late means something is owed" holds exactly for a grace
  of at least -1, or one so low that no cutoff date exists: `LateMeansBehindIff`.
* Migration 0018 loses an id exactly when a row held a plaintext and a ciphertext of a different
  id: `NothingLostIff`. The plaintext wins (`CiphertextOverwritten`).
* With a negative grace the set-based report counts overlap and disagree with the row-level status;
  they agree exactly for a grace of at least 0: `CountsAgreeIff`. The reports always use 7 days.
* An overdue sponsorship of the demo seed stores `months_overdue` but, by the collections rule, is
  one instalment further behind: `OverdueOwesOneMore`.
* The demo seed looks codes up across all organisations and does not autoflush, so "each code
  exactly once in the demo organisation" has an exact condition: `ExactlyOnceIff`.
* `_purge` is documented to delete everything scoped to the demo organisation. It can fail, and
  does so exactly when a row of a table it never names forbids a deletion: `PurgeSucceedsIff`. One message of a user
  is enough: `MessageBlocks`.

## Model

| member | source | states |
|---|---|---|
| Registration.AcceptedIff | backend/app/services/orphans.py:223-411 | alone in the database, a create is accepted if and only if the dar belongs to the organisation, the national id obeys the country rule, and no stored row collides with the new orphan or family on any unique index |
| Registration.VerdictExactly | backend/app/services/orphans.py:243-398 | which of the 400, 422, the two 409s and the 500 a create gets, each with its exact reason; the name conflict quotes the code of a live duplicate, and a rejected create changes nothing |
| RegistrationFacts.AnsweredExactly | backend/app/services/orphans.py:168-398 | the status of a create alone in the database, spelled out on the request and the stored rows: 400 for a foreign dar, 422 by the country rule (required and missing, wrong length, wrong form; nothing without a nationality or a rule, country code upper-cased), 409 for a live row with the same names up to case, birth date and father or the same id up to whitespace, 500 for a taken id or code, else 201; the name conflict quotes a live duplicate's code, and deleted rows never count |
| Registration.SerialStores | backend/app/services/orphans.py:273-409 | an accepted create appends one orphan row with the request's own organisation, partner, dar, names, birth date, father, status pending_review, an id that decrypts to the request's and is indexed without whitespace; a family exactly when none is pinned and the address says anything, each line in its column, blanks as NULL, and linked; and one audit row naming the user, the row and the channel |
| Registration.FindDuplicateSpec | backend/app/services/orphans.py:414-429 | the friendly pre-check finds a row if and only if the no-duplicate index would reject the insert, and the row it finds is such a duplicate |
| Registration.SerialKeepsUnique | backend/app/services/orphans.py:374-398 | a create never breaks a unique index, whatever its verdict |
| Registration.UniqueNationalIds | backend/app/services/orphans.py:334-341 | in a unique, indexed database two live orphans of one organisation never hold ids that agree after removing whitespace |
| Registration.DeleteKeepsUnique | backend/app/api/v1/orphans.py:1080-1099 | soft deletion keeps every unique index and the ciphertext/index agreement |
| RegistrationFacts.DeleteExactly | backend/app/api/v1/orphans.py:1080-1099 | a deletion marks exactly the rows of the given organisation and id, changes no other row, and adds one audit row exactly if such a row was live |
| RegistrationFacts.DeletedIff | backend/app/api/v1/orphans.py:1087-1088 | after any history a row is deleted if and only if it was from the start, or its deletion was asked for by its id in its organisation once it was there |
| Session.DbSession.CreateOrphanRecord | backend/app/services/orphans.py:223-411 | the body with its flushes, rollback and commit turns the committed database into exactly the serial outcome, stores on success what the request says column by column, and leaves no flushed row behind on any path |
| Session.DbSession.AddHomeFamily | backend/app/services/orphans.py:273-312 | flushing the family without coordinates and then updating them yields the family row the request describes, or nothing on a collision |
| Protocol.StepKeepsInv | backend/app/services/orphans.py:243-411 | every step of every concurrent call keeps the protocol invariant: unique committed rows, uncommitted rows apart from each other and from committed ones, and a history that replays to the database |
| ProtocolRuns.Linearisable | backend/app/services/orphans.py:253-261 | in every run of any number of interleaved calls the history holds each finished call once with the answer it received, and replaying it one call after another gives the committed rows and the same status for each call that is not a 500 |
| ProtocolRuns.RealTimeOrder | backend/app/services/orphans.py:243-411 | a call that answered before another arrived comes before it in that order, each finished call is recorded once with its own answer, and that answer never changes |
| ProtocolRuns.NothingHalfWritten | backend/app/services/orphans.py:273-312 | after any run the orphans, families and creation audits are the initial ones followed by exactly those of the successful calls, one orphan and one audit row each |
| RegistrationFacts.EveryCreateStores | backend/app/services/orphans.py:273-409 | in every run each success stores, at its place in the serial order, exactly what its request says column by column, and those rows stay but for later deletion |
| RegistrationFacts.PreCheckExactly | backend/app/services/orphans.py:253-261 | in any state the pre-check answers with the code of a live committed duplicate if there is one, and otherwise only moves on |
| RegistrationFacts.FlushExactly | backend/app/services/orphans.py:374-398 | in any state the insert is answered by the first index it violates: 500 for a taken id or code, then the name conflict, then the national id, else the row is pending |
| RegistrationFacts.WaitsForRival | backend/app/services/orphans.py:289-376 | a call that cannot take its next step is at one of its inserts and waits for an unfinished call with a colliding uncommitted row, while nothing committed collides |
| RegistrationFacts.AnythingCanHappen | backend/app/services/orphans.py:223-411 | arrivals, crashes of unfinished calls and deletions are possible in every state |
| ProtocolRuns.NoFamilyAlone | backend/app/services/orphans.py:263-290 | no run ever commits a family without an orphan of the same organisation and partner living in it |
| FreshRuns.FailsExactly | backend/app/services/orphans.py:289-398 | a step ends a call in a 500 if and only if it is a crash, or an insert whose drawn id or code is taken by a committed row |
| FreshRuns.FailsIffCrashed | backend/app/services/orphans.py:374-398 | in every run whose drawn ids and codes are unused and never repeat, a call ends in a 500 if and only if it crashed |
| FreshRuns.EveryAnswerIsSerial | backend/app/services/orphans.py:253-261 | in such a run every call that does not crash is answered as a serial create at its place would be, never with a 500 |
| FreshRuns.ConflictExactly | backend/app/services/orphans.py:253-261 | in such a run, deletions and crashes of others included, a call that does not crash gets a 409 if and only if it is valid and a live row holds its name key or its national id at its place in the serial order |
| FreshRuns.LoserGetsConflict | backend/app/services/orphans.py:374-398 | in such a run a loser on either index always gets a 409: a valid call that does not crash and is decided after a success it collides with, nothing deleted before |
| ProtocolRuns.LoserConflictsOrFails | backend/app/services/orphans.py:374-398 | in any run at all, repeated codes included, that loser gets a 409 or a 500, never a success |
| ProtocolRuns.RejectedNeverWrites | backend/app/services/orphans.py:374-398 | in every run, no step of a call that does not succeed changes the committed rows |
| ProtocolRuns.ConflictIsReal | backend/app/services/orphans.py:253-261 | a 409 is never spurious: at the call's place in the serial order a live duplicate existed |
| ProtocolRuns.AtMostOneWinner | backend/app/services/orphans.py:374-398 | without deletions two successful creates of a run differ in name key, and in national id up to whitespace within one organisation |
| ProtocolRuns.RunKeepsIndexed | backend/app/services/orphans.py:334-341 | every run keeps blind index and ciphertext in step: both or neither, and the index is over the text the ciphertext decrypts to |
| ProtocolRuns.SomeoneCanMove | backend/app/services/orphans.py:374-411 | waiting never deadlocks: while a call is unfinished, some unfinished call can take its next step |
| Crypto.NormalizeDeletesSpaces | backend/app/core/crypto.py:86-95 | splitting into words and joining them deletes the whitespace characters and nothing else |
| Crypto.DecryptsExactly | backend/app/core/crypto.py:45-60 | a token decrypts to its text under its own key only, corrupt bytes never, and another draw gives another token |
| Crypto.NormalizeIdempotent | backend/app/core/crypto.py:86-95 | normalising a normalised id changes nothing |
| Crypto.SameIndexIff | backend/app/core/crypto.py:98-110 | two ids share a blind index if and only if their non-whitespace characters agree in order |
| Migrations.LegacyTable.EncryptAll | backend/migrations/versions/0018_encrypt_national_ids.py:46-55 | the backfill loop encrypts and nulls exactly the rows with a plaintext and leaves the others as they were |
| Migrations.Upgrade0018 | backend/migrations/versions/0018_encrypt_national_ids.py:44-55 | both tables are encrypted, each from its own rows |
| Migrations.EncryptIdempotent | backend/migrations/versions/0018_encrypt_national_ids.py:44-55 | running 0018 again, with any nonces, changes nothing |
| Migrations.PlaintextsSurvive | backend/migrations/versions/0018_encrypt_national_ids.py:44-55 | after 0018 no plaintext remains, every former plaintext decrypts to itself, and other ciphertexts are untouched |
| Migrations.NothingLostIff | backend/migrations/versions/0018_encrypt_national_ids.py:50-55 | a row loses an id if and only if it held a plaintext and a readable ciphertext of another id |
| Migrations.CiphertextOverwritten | backend/migrations/versions/0018_encrypt_national_ids.py:50-55 | such a row: the id in its ciphertext can no longer be recovered |
| Migrations.GroupSizes | backend/migrations/versions/0021_orphan_registration_fields_and_blind_index.py:90-98 | a group exists exactly for a key some live indexed row holds, and has more than one code exactly when two rows hold it |
| Migrations.ReportedGroups | backend/migrations/versions/0021_orphan_registration_fields_and_blind_index.py:90-105 | the error reports exactly the keys that two live indexed rows share, each with the codes of exactly those rows |
| Migrations.CheckIsExact | backend/migrations/versions/0021_orphan_registration_fields_and_blind_index.py:90-114 | the GROUP BY check is empty if and only if the partial unique index can be built |
| Migrations.OrphanTable.Upgrade0021 | backend/migrations/versions/0021_orphan_registration_fields_and_blind_index.py:67-114 | 0021 applies if and only if every ciphertext decrypts and the backfilled ids are distinct; then every row is backfilled and the index exists, else nothing changed and the error names a row that does not decrypt, or the duplicate groups |
| IntakeChain.Migrate | backend/migrations/versions/0020_drop_plaintext_national_id.py:37-41 | 0018, 0020 and 0021 in sequence succeed if and only if every kept ciphertext fits the key and no two live rows of one organisation hold the same id |
| IntakeChain.MigrationsSucceedIff | backend/migrations/versions/0021_orphan_registration_fields_and_blind_index.py:77-105 | the success condition of 0021 restated on the legacy rows before 0018 |
| IntakeChain.MigrationEstablishes | backend/migrations/versions/0021_orphan_registration_fields_and_blind_index.py:68-114 | a successful chain leaves a database with all unique indexes and a blind index exactly where there is a ciphertext |
| IntakeChain.ChainThenRuns | backend/app/services/orphans.py:334-341 | after the chain and any later run of creates and deletions both invariants hold, and every id the migrations act on, plaintext or ciphertext before 0018, still decrypts from its row |
| WindowLog.AdmitKeepsBounded | backend/app/core/ratelimit.py:60-66 | admitting only while the closing window has room keeps every closed window within capacity |
| MemoryLimiter.Bucket.Take | backend/app/core/ratelimit.py:60-66 | trimming from the left and then refusing or appending gives the specified verdict and deque |
| MemoryLimiter.InMemoryLimiter.Hit | backend/app/core/ratelimit.py:52-66 | a hit answers from its own key's bucket, updates that bucket and no other |
| MemoryLimiter.MemoryIsExact | backend/app/core/ratelimit.py:52-66 | in every run with non-decreasing times a hit is refused if and only if the closed window before it already holds capacity admissions, and remaining is exact |
| MemoryLimiter.MemoryIsBounded | backend/app/core/ratelimit.py:52-66 | no closed interval of the window's length ever holds more than capacity admissions of a key |
| MemoryLimiter.OtherKeysIrrelevant | backend/app/core/ratelimit.py:56-59 | hits on other keys never change a verdict |
| RedisLimiter.SortedSet.RunScript | backend/app/core/ratelimit.py:76-89 | the script's commands, with keys expiring by the server's own clock, give the specified verdict and key |
| RedisLimiter.RedisIsExact | backend/app/core/ratelimit.py:81-88 | an answer depends on the distinct milliseconds admitted in the half-open window alone: on every run whose server clock keeps pace, EXPIRE never drops one of them |
| RedisLimiter.HeldIffPace | backend/app/core/ratelimit.py:86-87 | whatever the key held, a later hit still counts an admitted one if and only if that lies in its window and the server's clock kept pace |
| RedisLimiter.DistinctBounded | backend/app/core/ratelimit.py:81-88 | no half-open window holds more than capacity distinct admitted milliseconds |
| RedisLimiter.RedisIsBounded | backend/app/core/ratelimit.py:76-89 | with strictly increasing milliseconds every half-open window holds at most capacity admissions |
| RedisLimiter.BurstAdmitted | backend/app/core/ratelimit.py:86 | with a capacity of at least two, any burst inside one millisecond is admitted whole |
| RedisLimiter.BoundSurvivesSharedMillisecondsIff | backend/app/core/ratelimit.py:81-88 | with shared milliseconds the bound holds for all runs if and only if the capacity is at most one or the window is empty |
| LimiterAgreement.LimitersAgree | backend/app/core/ratelimit.py:60-89 | on strictly increasing milliseconds with no two hits exactly one window apart both limiters give every answer alike |
| LimiterAgreement.AgreeIffNeverAtEdge | backend/app/core/ratelimit.py:60-89 | on a run of strictly increasing milliseconds both limiters give every answer alike if and only if no hit comes exactly one window after an admission while the half-open window still has room |
| LimiterAgreement.DifferOnlyAtTheEdge | backend/app/core/ratelimit.py:60-89 | while a run's admissions have been equal, the next answers differ exactly at such a hit, and one limiter refuses what the other admits exactly when that old admission fills the in-process window |
| LimiterAgreement.EdgeRunDiffers | backend/app/core/ratelimit.py:60-89 | a run where they differ, for every positive window and capacity: two hits one window apart; with capacity 1 only the script admits the second |
| LimiterAgreement.AlwaysAgreeIff | backend/app/core/ratelimit.py:60-89 | they agree on all such runs if and only if the capacity or the window is not positive |
| ClientKeys.KeyFixesCapacity | backend/app/core/ratelimit.py:125-134 | requests with the same key always carry the same allowance |
| ClientKeys.SameBucketIff | backend/app/core/ratelimit.py:125-134 | two requests share a bucket if and only if both carry tokens that agree in their first 24 characters, or neither does and their hosts agree, a missing one counting as unknown |
| ClientKeys.EveryCallerBounded | backend/app/core/ratelimit.py:116-162 | with the in-process backend one process admits no caller more often than its allowance in any 60 seconds: the authenticated allowance with a bearer token, the public one without |
| ClientKeys.CallerAnswered | backend/app/core/ratelimit.py:140-162 | and refuses nobody earlier: every request is answered from its caller's own admissions of the last 60 seconds against that allowance |
| ClientKeys.EveryCallerBoundedInRedis | backend/app/core/ratelimit.py:116-162 | with the Redis backend the admissions of a caller in any 60 seconds fall into at most as many milliseconds as that allowance, and are no more than it if no two requests share a millisecond |
| ClientKeys.OthersDoNotCount | backend/app/core/ratelimit.py:103-106 | traffic of other buckets never changes what a caller is admitted over Redis |
| ClientKeys.RedisCallerBoundedIff | backend/app/core/ratelimit.py:116-162 | for arbitrary traffic over Redis the caller's bound holds if and only if its allowance is at most one request |
| CapacityChanges.AlternatingCapacities | backend/app/core/ratelimit.py:57-59 | after any run whose last hit on the key did not ask for the first capacity, n hits at one instant that ask for two different positive capacities in turn are all admitted, for every n |
| CapacityChanges.BoundSurvivesCapacitiesIff | backend/app/core/ratelimit.py:57-66 | over all runs whose hits on a key ask for one of two capacities, the larger bounds every window if and only if the two are equal, or admit nothing, or the window is empty |
| Calendar.OrderIsOrdinalOrder | backend/app/core/collections.py:49 | comparing dates by year, month and day is comparing their ordinals, and an ordinal names one day |
| Calendar.PlusDays | backend/app/core/collections.py:35 | date plus or minus days moves the ordinal by exactly that, and fails exactly outside years 1 to 9999 |
| Calendar.MinusOneDay | backend/app/scripts/demo_seed.py:313 | subtracting one day is the calendar's previous day |
| Arrears.FloorNeverBinds | backend/app/core/collections.py:61-66 | past the first test the month count is never negative, so the final max is not needed |
| Arrears.ElapsedCountsMoves | backend/app/core/collections.py:53-66 | months_elapsed is the number of monthly moves of the due date that fit between start and today, for every start day |
| Arrears.ElapsedMonotone | backend/app/core/collections.py:53-66 | later days never lower the count |
| Arrears.TermStopsTheClock | backend/app/core/collections.py:69-76 | capping at the committed term equals stopping the clock at its end |
| Arrears.ScheduledClosedForm | backend/app/scripts/demo_seed.py:297-301 | k moves of the due date advance the month by k and clamp the day at 28; they fail exactly past December 9999 |
| Arrears.ArrearsConserved | backend/app/core/collections.py:79-88 | whatever the dates, with k instalments settled the arrears are the months elapsed beyond k, ignoring any term, and settling one more lowers them by one, never below zero |
| Arrears.MoneyConserved | backend/app/core/collections.py:91-95 | k instalments paid plus the outstanding amount is the amount for all months elapsed, to the cent: what is due without a committed term |
| Arrears.InstallmentsConservedIff | backend/app/core/collections.py:69-88 | paid plus missed instalments are what installments_due returns, term included, if and only if no more than the elapsed months were paid and the term has not been outlived by a month |
| Arrears.MoneyConservedIff | backend/app/core/collections.py:69-95 | the same in money for every optional term, unless the amount is zero |
| Arrears.TermOutlived | backend/app/core/collections.py:69-88 | a fully paid term that was outlived leaves nothing due, and as many instalments behind as months passed since |
| Arrears.OutlivedByThreeMonths | backend/app/api/v1/reports.py:262-279 | an input where the report prints 2 due, 2 paid and 3 behind |
| Arrears.OutstandingIsNearestCent | backend/app/core/collections.py:91-95 | for finer amounts the result is the nearest cent, the even one on a tie |
| Arrears.LateMeansBehind | backend/app/core/collections.py:38-50 | with non-negative grace a late payer owes an instalment, stays late and never owes less as days pass |
| Arrears.LateMeansBehindIff | backend/app/core/collections.py:27-50 | late implies something owed, for all dates, exactly for a grace of at least -1 or one below every cutoff |
| Arrears.LateIffPastGrace | backend/app/core/collections.py:27-50 | late is exactly a chased status with a due date more than the grace days before today |
| Arrears.LatenessDefined | backend/app/core/collections.py:38-50 | without a due date nobody is late, and the question fails exactly for a chased sponsorship without a cutoff date |
| Reporting.CountsAgree | backend/app/api/v1/orphans.py:713-735 | with non-negative grace, for every list of rows the three set-based counts equal the row-level ones and add up to the total |
| Reporting.CountsAgreeIff | backend/app/core/reporting.py:42-44 | that agreement holds for every list of rows if and only if the grace is not negative |
| Reporting.StatusByDaysSince | backend/app/core/reporting.py:47-68 | the status switches exactly after cadence and after cadence plus grace days |
| Reporting.StatusOnlyWorsens | backend/app/core/reporting.py:47-68 | without a new report a child's status never improves |
| Reporting.OrganisationStatus | backend/app/core/reporting.py:71-73 | an organisation without a cadence, or with 0, is classified at 90 and 97 days; otherwise at its own cadence and 7 days later |
| SeedCalendar.AddMonthsIndex | backend/scripts/seed_demo.py:337-342 | the month index moves by exactly the given months and the day is clamped; fails exactly outside the calendar |
| SeedCalendar.AddMonthsIncreasing | backend/scripts/seed_demo.py:337-342 | strictly increasing in the number of months despite clamping |
| SeedCalendar.ElapsedAfterAddMonths | backend/scripts/seed_demo.py:337-342 | months_elapsed inverts _add_months: clamping never costs a month |
| SeedCalendar.BackAndForth | backend/scripts/seed_demo.py:337-342 | k months back and k forth never passes the start day, and returns to it exactly when that day exists in the earlier month |
| SeedCalendar.MonthWindowIsWholeMonth | backend/scripts/seed_demo.py:350-354 | the window is the whole month months_ago before today, or an error outside the calendar |
| SeedCalendar.MonthWindowByLoop | backend/app/scripts/demo_seed.py:304-314 | the while version terminates for every input and gives that month, or an error after the current year and for December 9999 |
| SeedCalendar.WindowsAgreeIff | backend/app/scripts/demo_seed.py:304-314 | the two versions agree if and only if neither of those errors separates them |
| SeedCalendar.WindowsTile | backend/scripts/seed_demo.py:350-354 | consecutive windows tile the calendar, and window 0 contains today |
| Decimals.HalfEvenNearest | backend/app/core/collections.py:95 | default rounding is the unique nearest integer, even on ties |
| Decimals.HalfUpNearest | backend/app/schemas/wish.py:50 | ROUND_HALF_UP is the unique nearest integer, away from zero on ties |
| Wish.DoubleRounding | backend/app/schemas/wish.py:50 | rounding the 28-digit quotient half up gives the half-up percentage of the exact quotient |
| Wish.ProgressIsExact | backend/app/schemas/wish.py:44-51 | for all Numeric(10,2) amounts the result is the exact fraction in percent, rounded half up and clamped |
| Wish.ProgressMonotone | backend/app/schemas/wish.py:44-51 | raising more never shows less progress |
| Wish.ProgressBand | backend/app/schemas/wish.py:44-51 | a percentage p strictly inside 0 to 100 is shown exactly from p - 0.5 up to but excluding p + 0.5 |
| Wish.ProgressEnds | backend/app/schemas/wish.py:44-51 | 100 is shown exactly from 99.5 per cent on, 0 exactly below 0.5, negative sums included, and always without a positive target |
| Wish.QuotientDigits | backend/app/schemas/wish.py:50 | the quotient keeps exactly 28 significant digits, or at least 28 when it is whole |
| Ledger.PaymentDays | backend/scripts/seed_demo.py:1049-1052 | the m-th payment day exists and is not after today exactly for the months the loop pays |
| Ledger.PaymentLedger.PayMonths | backend/scripts/seed_demo.py:1049-1097 | the inner loop adds one completed, consecutively numbered payment per month from the start, and its running total, count and last day are those of the rows |
| Ledger.Donor.Credit | backend/scripts/seed_demo.py:1093-1097 | one more gift keeps the donor's total and first and last donation equal to those of its rows |
| Ledger.PaymentLedger.PostSponsorship | backend/scripts/seed_demo.py:1043-1131 | one pass adds, for each month up to today, one completed payment of the sponsorship on its day, completed that day or on the 28th if later and converted half up at 0.307, then one pending row for the 11th and one failed for the 12th; all columns equal the sums, counts and extremes of the rows |
| Ledger.PaymentLedger.PostPayments | backend/scripts/seed_demo.py:1040-1131 | after the whole loop this is the history of every sponsorship at once, there are no other rows, and every donor's columns equal the extremes and sums of its rows, with the next due date each sponsorship should have |
| LedgerFacts.NumbersDistinct | backend/scripts/seed_demo.py:1053-1082 | payment codes are pairwise distinct and receipt numbers increase along the completed rows |
| LedgerFacts.GiftsAreExtremes | backend/scripts/seed_demo.py:1093-1096 | first and last donation are attained bounds over the donor's completed payments |
| LedgerFacts.GiftsByPaymentDay | backend/scripts/seed_demo.py:1055-1057 | in calendar terms: the first and last donation are dated by payments of the donor capped at the 28th, no payment was due before the first or, up to that cap, after the last |
| LedgerFacts.ConversionDrift | backend/scripts/seed_demo.py:1059-1061 | converting payment by payment differs from converting the total by at most half a cent per payment |
| LedgerFacts.NoDriftInDefault | backend/scripts/seed_demo.py:1062-1064 | in the default currency there is no drift at all |
| LedgerFacts.HistoryIsComplete | backend/scripts/seed_demo.py:1044-1052 | a sponsorship started k months ago gets exactly k + 1 payments, the last one k months after the start: the break is never taken |
| LedgerFacts.ActiveIsCurrent | backend/scripts/seed_demo.py:1103-1104 | the due date set for an active seeded sponsorship lies strictly after today, so it is not late and nothing is owed |
| LedgerFacts.OverdueOwesOneMore | backend/scripts/seed_demo.py:1105-1106 | with the due date set for it, an overdue one is months_overdue + 1 instalments behind by the collections rule |
| LedgerFacts.SeededStanding | backend/scripts/seed_demo.py:1099-1106 | what the whole loop leaves for a sponsorship started k months ago: k + 1 completed payments, that many monthly amounts, and the due date and standing its status promises |
| LedgerFacts.DueDateKept | backend/scripts/seed_demo.py:1103-1106 | a paused sponsorship, or an active one without a payment, keeps its due date |
| SeedUpserts.SeedTable.Upsert | backend/scripts/seed_demo.py:731-770 | a get-or-create loop adds one row for each key that no flushed row matches, and nothing else |
| SeedUpserts.SeedTable.SeedOrphans | backend/scripts/seed_demo.py:773-1034 | one run upserts the orphans by code, keeps codes unique and stamps the available ones |
| SeedUpserts.RowsAfterRuns | backend/scripts/seed_demo.py:557-589 | after any n >= 1 runs the organisation holds what it held of a key, plus the fixtures' occurrences if the lookup found none |
| SeedUpserts.ExactlyOnceIff | backend/scripts/seed_demo.py:557-589 | a fixture key is there exactly once if and only if it was before, or was not found and is named once |
| SeedUpserts.NamesakesElsewhere | backend/scripts/seed_demo.py:734-738 | guardians of the same name in other organisations never change how many this one gets |
| SeedUpserts.CodeTakenElsewhere | backend/scripts/seed_demo.py:557-589 | a code taken in another organisation is never created in this one |
| SeedUpserts.StampedOnce | backend/app/services/orphans.py:63-74 | available_since is the value a row came with or the clock of the first run that made it available, and never changes after |
| Purge.PurgeSession.Purge | backend/scripts/seed_demo.py:1522-1551 | the purge commits exactly the state after its sixteen statements, which PurgeIsExact describes, or commits nothing when one of them is refused or the organisation does not exist |
| Purge.DeleteKeepsResolved | backend/scripts/seed_demo.py:1531-1550 | a successful statement, with its cascades and nulled references, leaves every foreign key resolved |
| PurgeFacts.PurgeSucceedsIff | backend/scripts/seed_demo.py:1531-1550 | all sixteen statements succeed if and only if no row of the organisation in an unnamed table forbids deleting a row of a named one |
| PurgeFacts.MessageBlocks | backend/scripts/seed_demo.py:1531-1550 | a well-formed database where it cannot succeed: an organisation whose user sent a message |
| PurgeFacts.StuckMeansBlocked | backend/scripts/seed_demo.py:1531-1550 | a refused statement is always due to such a row, and no other transaction on that database could complete |
| PurgeFacts.SurvivorsExactly | backend/scripts/seed_demo.py:1531-1550 | a row survives a completed purge if and only if it is another organisation's, or is of a table no statement names and has no cascading reference into a named one |
| PurgeFacts.PurgeIsExact | backend/scripts/seed_demo.py:1531-1551 | a completed purge leaves exactly those rows, unchanged but for references to rows that are gone, and after every statement on the way all foreign keys resolve |
| PurgeFacts.AuditRowsRemain | backend/scripts/seed_demo.py:1531-1550 | the audit log is untouched by the purge |
| PurgeFacts.PurgeLeavesNothing | backend/scripts/seed_demo.py:1531-1551 | with nothing but seeded rows and login sessions, no row of the organisation remains anywhere |

## Left out

- HTTP routing, authentication, role checks, visibility rules, logging, email, object storage and payment gateways: plumbing, or settled by one branch.
- Orphan columns that no modelled rule reads, row-level security, PATCH updates, profile completion and the advisory name lookup: independent of the registration protocol.
- Statement-level scheduling inside PostgreSQL: a call may answer as soon as a committed row collides, even if another colliding row is still uncommitted; more interleavings than the server produces, never fewer.
- Foreign-key failures of a create (an unknown family, say): they end in a 500 like `Crash`, at any step.
- Key derivation and rotation, Fernet's timestamp, and collisions of HMAC-SHA256: encryption and digest are injective by construction.
- Regular expressions and Unicode case mapping: arbitrary functions, so the results hold for every choice.
- Guardians' blind index: the source has none.
- The documented downgrade steps of the migrations: 0018's does nothing, the other two only change columns.
- Floating-point rounding of the limiter's clock, clock steps backwards, Redis being unreachable (the source then lets the request through) and the exempted paths of the middleware.
- The `window_seconds` field of a bucket is stored but never read by the source, and no claim depends on it.
- AmountOutstanding: does not model the rounding of a product beyond the 28 digits of the decimal context, which amounts of the schema never reach.
- The payment and roll-up loops of backend/app/scripts/demo_seed.py: the same sums as in scripts/seed_demo.py over a random number of payments; its last payment date is not the latest one.
- Random draws, reports, media, documents and summaries of the demo seed, and its full-state behaviour on a re-run: amounts may change with the random sequence, so only keys, multiplicities and available_since are claimed.
- SeedOrphans: does not model the other columns a run rewrites on existing rows.
- Purge: references to countries and currencies are not modelled, and audit_log has no foreign keys, so audit rows remain.
- The donor-page progress of the frontend, which uses doubles: no agreement is claimed.
