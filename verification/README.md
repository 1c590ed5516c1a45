# Verified models of caslink's core algorithms

This project models, in Dafny 4.11, five parts of the caslink server and proves what they are for:

1. **The GraphQL lexer and parser** (`src/graphql/parser.go`). `GraphQLLexer` and `GraphQLSyntax` give the lexical
   and the token grammar; `GraphQLDocument` gives the documents they denote and a printer; `GraphQLParser` holds the
   parser as the source writes it, a class with a mutable position. The parser is sound, complete and unambiguous for
   the grammar, down to bytes, and printing any well-formed document and parsing the bytes gives it back.
   `GraphQLLexemes` and `GraphQLMeaning` spell out what each token and construct stands for, `GraphQLResolve` what
   becomes of arguments and variables.
2. **Backup retention** (`src/backup/retention.go`). `RetentionPolicy` says which set of backups a policy keeps;
   `RetentionHistory` proves the laws over whole histories, with and without a size cap; `BackupRetention` holds the
   loops that sort, mark, delete and enforce the cap.
3. **The scheduler** (`src/scheduler`). `CronField`, `CronSchedule`, `CronMeaning`, `CronUtc` and `Calendar` cover cron
   parsing, what expressions mean and the search for the next run; `SchedulerTask` says what each operation does to a task and its row; `Scheduler` holds
   the objects that change in place; `SchedulerCluster` is a state machine of several nodes sharing one row, whose
   steps are critical sections and database statements. The theorems about every run are in `SchedulerCluster` (one
   execution per node), `SchedulerStarts` (what starts one), `SchedulerRecords` (how it ends), `SchedulerLock` and
   `SchedulerSlots` (the lock), `SchedulerEnabled` (enabled bit, startup) and `SchedulerRetries`; `SchedulerRuns` builds example runs, and `SchedulerSteps` ties the objects to the steps.
4. **The rate limiter and the request ring** (`src/server`). `RateLimitHistory` and `RateLimiter` relate buckets that
   compact themselves and are garbage-collected to the whole history of requests; `RequestRing` does the same for the
   1440-slot counter.
5. **Archive and restore** (`src/backup/backup.go`). `ArchivePaths`, `BackupArchive` and `BackupFiles` cover the names
   and entries of an archive, its round trip, and the loops that write and restore it; `ArchiveMeaning` says what an
   archive holds and what each entry does.

`dafny verify dfyconfig.toml` checks everything.

## How the model relates to the code

- Code that changes things in place is a class or a method over arrays, proved against a function or a ghost
  history; the properties are lemmas about that function or history.
- Bytes are `char`s and strings are sequences of them. Every theorem holds for all characters, so for all bytes. Only
  in cron expressions a `char` is a Unicode code point, since `strings.Fields` splits at spaces of any kind; the
  expression is taken to be valid UTF-8.
- A Go error is `Err`, `None` or a Boolean; its text is not modelled. An index out of range at run time is the
  outcome `Panicked`.
- Floats are carried as their lexeme; which lexemes `strconv.ParseFloat` accepts is the parameter `okFloat`.
  `time.ParseDuration` is the parameter `parseDuration`. A time zone is an arbitrary function from minutes to civil
  fields; UTC is defined by stepping a calendar from day to day.
- Instants are nanoseconds since 1 January of year 1, the zero of Go's clock; the seconds in a row are counted from
  the same instant, a constant shift of Unix time.
- A database statement is one atomic step that may fail without effect (`wrote`, `read`, `works`). A startup serves no
  request and runs no task before it is through (`src/server/server.go:1283-1304`).
- A backup is written over one of the same name (`src/backup/backup.go:433`), so a history may replace backups.

## What the proofs found

- **Cron steps can panic.** `v += step` in `src/scheduler/cronexpr.go:134` wraps in 64 bits, so a field such as
  `1-5/9223372036854775807` makes `v` negative and `bits[v]` panics (`CronField.HugeStepPanics`).
  `CronField.PanicsExactly` gives the exact condition.
- **The cron fallback is reachable.** The comment at `src/scheduler/cronexpr.go:162-164` says it is not, but
  `0 0 31 2 *` always takes it (`CronUtc.ThirtyFirstOfFebruary`) and `0 0 13 * 5` takes it again and again
  (`CronUtc.FridayTheThirteenth`). `CronUtc.MatchesExactly` gives the exact condition for every schedule: no stretch
  of 366 days without a selected day, or 367 if both the first and the last minute of the day are selected.
- **Executions of a global task can overlap.** A startup clears whatever lock there is, although the comment at
  `src/scheduler/scheduler.go:373-378` speaks of a stale lock this node held; a lock expires after 300 s while its run
  goes on; and `Stop` releases the lock of a run it gave up waiting for. `SchedulerLock.StartupOverlaps`,
  `ExpiryOverlaps` and `StopOverlaps` are runs, no statement failing, that end with two nodes in the body.
  `SchedulerLock.OverlapsExactly` gives the exact condition: an acquisition whose statement succeeds and that finds the
  lock more than 300 s old or comes after such a forced release. `SchedulerLock.MutualExclusion` follows from it.
- **A global task can run once per node for the same time.** `src/scheduler/scheduler.go:50` says one node in cluster
  mode, but every node keeps its own next run: when one has run the task and released the lock, another that is due at
  the same time runs it again (`SchedulerSlots.SlotRunsTwice`). `SchedulerSlots.RunsOnceExactly` gives the exact
  condition for a single run.
- **Toggles can be lost or seen on one node only.** `SetTaskEnabled` changes memory under the mutex and the row outside
  it, other nodes are not told, and a startup writes back the bit it read. With every statement succeeding, memory and
  row can be left apart by two overlapping calls, on another node, and by a startup that read before the toggle and
  synced after it: `SchedulerEnabled.OverlappingTogglesDisagree`, `OtherNodeDisagrees` and `StartupLosesToggle`.
  `SchedulerEnabled.ToggleStaysExactly` and `ToggleAgreesExactly` give the exact conditions, `QuietToggleAgrees` and
  `QuietStartAgrees` the cases in which nothing interferes.
- **The size cap depends on history.** Applied daily with a cap, retention can delete an old backup that one
  application over the whole history would keep: `RetentionHistory.CapDependsOnHistory` and, with the daily tier
  alone, `ReplacementDependsOnHistory`. `RetentionHistory.CapAgreesExactly` gives the exact condition and
  `DailyTierAgrees` shows that it holds for the policy the configuration ships.
- **Names with two dots break a restore.** A file called `a..b` is archived, and the restore then refuses the archive
  (`BackupArchive.TwoDotsAreRefused`); `BackupArchive.RoundTripExactly` gives the exact condition.

## Model

| member | source | states |
|---|---|---|
| GraphQLLexer.ScanExact | src/graphql/parser.go:99-176 | the lexer splits a text into a list of pieces if and only if that list is a lexical derivation of the text; derivations are unique |
| GraphQLLexer.LexOneEof | src/graphql/parser.go:99-176 | a lexed document has exactly one end marker, at its end, and every other token can be spelled |
| GraphQLLexer.LexSpell | src/graphql/parser.go:99-176 | spelling any list of tokens, strings with arbitrary bytes included, and lexing the bytes gives the tokens back |
| GraphQLLexer.EscapeExact | src/graphql/parser.go:115-145 | every string has an escaped form that the literal scanner accepts and that unescapes to it |
| GraphQLLexer.LexString | src/graphql/parser.go:115-145 | the string loop fails exactly when the literal never closes, and otherwise returns the unescaped body and its end |
| GraphQLLexer.LexNumber | src/graphql/parser.go:153-169 | the number loop ends where the maximal literal ends, and knows a float by its mark |
| GraphQLLexer.LexName | src/graphql/parser.go:146-152 | the name loop ends where the maximal name ends |
| GraphQLLexer.LexComment | src/graphql/parser.go:108-111 | a comment ends at the newline or the end of input and yields no token |
| GraphQLLexer.LexGraphQL | src/graphql/parser.go:99-176 | the main loop returns the tokens of the unique lexical derivation, or an error if there is none |
| GraphQLLexemes.UnescapeExactly | src/graphql/parser.go:118-140 | a string body stands for s if and only if it is a concatenation of spellings of the bytes of s: newline and tab also as backslash n and t, any other byte also behind a backslash |
| GraphQLLexemes.StringMeans | src/graphql/parser.go:115-145 | a literal whose body spells s lexes to the one string s |
| GraphQLLexemes.OneCharacter | src/graphql/parser.go:121-138 | the literal of one escape is a newline for n, a tab for t and the byte itself for every other |
| GraphQLLexemes.OneByte | src/graphql/parser.go:84-176 | which single bytes are a token, and which, which are nothing and which are errors |
| GraphQLLexemes.AfterLetter | src/graphql/parser.go:86-96 | a name goes on with letters, digits and underscores and with nothing else |
| GraphQLLexemes.AfterDigit | src/graphql/parser.go:153-169 | a number goes on with digits as an integer, and with a dot or an exponent mark as a float |
| GraphQLLexemes.AfterExponent | src/graphql/parser.go:156-158 | a sign goes on a number exactly behind an exponent mark |
| GraphQLLexemes.BlankIsNothing | src/graphql/parser.go:106-107 | blanks, line ends and commas in front of a text do not change its tokens |
| GraphQLLexemes.CommentIsNothing | src/graphql/parser.go:108-111 | neither does a comment up to its line end, whatever it holds |
| GraphQLSyntax.ParserExact | src/graphql/parser.go:183-488 | a token list parses to a tree if and only if it derives that tree in the grammar with 64-bit integers: sound, complete and unambiguous |
| GraphQLSyntax.ValueSound | src/graphql/parser.go:412-488 | a value that is read was derived by exactly the tokens consumed |
| GraphQLSyntax.ValueComplete | src/graphql/parser.go:412-488 | the tokens of any value, whatever follows, are read back as that value |
| GraphQLSyntax.FieldComplete | src/graphql/parser.go:338-384 | the tokens of any field, before anything that may follow a field, are read back as that field |
| GraphQLDocument.ParseQueryExact | src/graphql/parser.go:183-488 | a query parses to a document if and only if its bytes derive, lexically and then in the grammar, a tree that means the document |
| GraphQLDocument.ErasureInvisible | src/graphql/parser.go:242-292 | adding or removing directives, variable definitions and the operation name never changes the document; it changes whether the tokens parse exactly when a literal in the erased parts is not accepted |
| GraphQLDocument.ParsePrint | src/graphql/parser.go:99-488 | printing any well-formed document as bytes and parsing them gives the same document |
| GraphQLDocument.ParseWellFormed | src/graphql/parser.go:99-488 | whatever parses is a well-formed document: valid names, 64-bit integers, accepted floats |
| GraphQLDocument.WellFormedExactly | src/graphql/parser.go:183-488 | the documents that queries denote are exactly the well-formed ones |
| GraphQLMeaning.OneTokenValue | src/graphql/parser.go:412-447 | which value each single token is: strings, 64-bit integers, accepted floats, true, false and null as what they stand for, every other token no value |
| GraphQLMeaning.VariableMeans | src/graphql/parser.go:415-421 | a dollar sign and a name are the variable of that name |
| GraphQLMeaning.ListMeans | src/graphql/parser.go:450-462 | an empty list, and a value in front of the others of a list |
| GraphQLMeaning.ObjectMeans | src/graphql/parser.go:463-484 | an empty object, and an entry in front of the others |
| GraphQLMeaning.LastWins | src/graphql/parser.go:390-409 | entries become the map with just their keys, each with the last value written for it |
| GraphQLMeaning.PlainField | src/graphql/parser.go:340-353 | a name is a field, and with a name and a colon in front a field with that alias |
| GraphQLMeaning.FieldWithParts | src/graphql/parser.go:354-384 | arguments and a selection set belong to the field, directives and their arguments do not |
| GraphQLMeaning.ShorthandMeans | src/graphql/parser.go:220-232 | a selection set alone is a query |
| GraphQLMeaning.OperationMeans | src/graphql/parser.go:233-257 | a query and a mutation are what their keyword says; name, variables, types and defaults are dropped |
| GraphQLMeaning.NoOtherDocument | src/graphql/parser.go:220-257 | nothing else begins a document, a subscription included |
| GraphQLParser.Parser.Next | src/graphql/parser.go:204-210 | takes the current token and never moves past the end marker |
| GraphQLParser.Parser.ExpectPunct | src/graphql/parser.go:212-218 | succeeds exactly on the punctuator and then moves one token |
| GraphQLParser.Parser.ParseValue | src/graphql/parser.go:412-488 | returns the value the grammar derives from the tokens left and stops where it ends; fails exactly when there is none |
| GraphQLParser.Parser.ParseItems | src/graphql/parser.go:450-462 | the list loop reads exactly the derived values up to the bracket |
| GraphQLParser.Parser.ParseEntries | src/graphql/parser.go:390-409 | the loop over `key: value` pairs builds the map in which the last of repeated keys wins |
| GraphQLParser.Parser.ParseArguments | src/graphql/parser.go:386-410 | reads a parenthesised argument list exactly |
| GraphQLParser.Parser.SkipDirectives | src/graphql/parser.go:363-374 | skips exactly the derived directives, arguments included |
| GraphQLParser.Parser.ParseHeader | src/graphql/parser.go:340-353 | reads a name with its optional alias |
| GraphQLParser.Parser.ParseField | src/graphql/parser.go:338-384 | returns the field the grammar derives and stops where it ends |
| GraphQLParser.Parser.ParseSelectionSet | src/graphql/parser.go:316-336 | the field loop returns exactly the derived selection set |
| GraphQLParser.Parser.SkipType | src/graphql/parser.go:294-314 | skips exactly one derived type |
| GraphQLParser.Parser.SkipVariableDefinitions | src/graphql/parser.go:263-292 | skips exactly the derived variable definitions |
| GraphQLParser.Parser.ParseOperation | src/graphql/parser.go:220-257 | returns the derived operation; subscriptions fail |
| GraphQLParser.ParseTokens | src/graphql/parser.go:183-198 | a token list ending in its end marker parses exactly as the grammar prescribes, nothing left over |
| GraphQLParser.ParseDocument | src/graphql/parser.go:184-198 | lexing and parsing a query returns exactly the document its bytes denote, or an error |
| GraphQLResolve.ResolveDependsOnItsVariables | src/graphql/parser.go:44-77 | two variable maps give the same argument if and only if they agree on every variable that occurs in it |
| GraphQLResolve.ResolveMeans | src/graphql/parser.go:45-77 | constants are themselves, a variable is its value or nil, lists and objects are resolved item by item, in place |
| GraphQLResolve.ResolveEmbed | src/graphql/parser.go:45-77 | any plain value, lists and maps included, written as a literal is resolved to itself whatever the variables |
| GraphQLResolve.ResolveSubstitutes | src/graphql/parser.go:45-77 | resolving a value is resolving it without any variables once each is replaced by the literal of its value, or by null |
| Decimal.ParsePrintInt | src/graphql/parser.go:425-431 | a 64-bit integer printed in decimal is read back as itself |
| Decimal.ParseInt64Exactly | src/graphql/parser.go:425-431 | a text is read as n if and only if n is a 64-bit integer and the text is its decimal form behind any zeros and an optional sign |
| RetentionHistory.OnlineIsOffline | src/backup/retention.go:79-126 | with the cap off, applying retention after every backup, replaced ones included, leaves exactly what one application over the complete history leaves, for any history, order of arrival and bucket functions |
| RetentionHistory.FilesExactly | src/backup/backup.go:433 | over a history in which nothing is deleted, what is there is each backup whose path was not written again |
| RetentionPolicy.TierOfClosed | src/backup/retention.go:158-174 | deleting backups, but none the tier keeps that is newer than what stays, does not change what it keeps of those that stay |
| RetentionPolicy.KeepIgnoresTheUnkept | src/backup/retention.go:82-116 | deleting backups the tiers do not keep does not change what they keep |
| RetentionPolicy.CappedMembers | src/backup/retention.go:128-150 | the cap keeps a backup if and only if it is the newest or everything from it upwards fits |
| RetentionPolicy.TierSaturates | src/backup/retention.go:158-174 | seen from any backup, the kept ones alone show all newer buckets or the full number of them |
| RetentionPolicy.KeepSize | src/backup/retention.go:82-116 | no more backups are kept than the limits add up to |
| RetentionPolicy.TierSize | src/backup/retention.go:158-174 | a tier keeps at most its limit |
| RetentionPolicy.KeepMonotone | src/backup/retention.go:82-116 | raising any limit only grows the kept set |
| RetentionPolicy.DailyTier | src/backup/retention.go:84-91 | the daily tier is exactly the backups with fewer than n newer ones |
| RetentionPolicy.KeepExactly | src/backup/retention.go:82-116 | a backup is kept if and only if fewer than max(1, MaxBackups) are newer, or it is the newest of its week with fewer than KeepWeekly weeks newer, or the same with months and KeepMonthly, or with years and KeepYearly |
| RetentionPolicy.SurvivesExactly | src/backup/retention.go:82-152 | a backup survives if and only if it is kept for one of those reasons and is the newest kept one or fits the cap with all newer kept ones |
| RetentionPolicy.CappedExactly | src/backup/retention.go:128-150 | the cap loop leaves a set if and only if it is a newest-first segment that fits or is a single backup, and one more backup would not fit; that set is unique |
| RetentionPolicy.SurvivorsStable | src/backup/retention.go:82-152 | applying the policy, cap included, to its own survivors deletes nothing |
| RetentionPolicy.NewestSurvives | src/backup/retention.go:82-152 | the newest backup is always among the survivors |
| RetentionHistory.OnlineCappedExactly | src/backup/retention.go:79-150 | for a history whose days are in order, daily runs under a cap leave exactly the backups the tiers keep of the whole history that at no point since they were last written were crowded out by newer kept ones |
| RetentionHistory.CapAgreesExactly | src/backup/retention.go:79-150 | daily runs and one run under a cap leave the same backups if and only if no survivor of the one run was crowded out before |
| RetentionHistory.CapAgreesThroughout | src/backup/retention.go:79-150 | they agree after every backup if and only if no single run brings back what the one before had dropped |
| RetentionHistory.DailyTierAgrees | src/backup/retention.go:84-150 | with only the daily tier they agree for every history in order, whatever the sizes, if one backup is kept or none is replaced by a smaller one |
| RetentionHistory.OnlineCappedIsOffline | src/backup/retention.go:79-150 | in any order, while what the tiers keep fits the cap, applying retention daily with the cap equals applying it once |
| RetentionHistory.CapDependsOnHistory | src/backup/retention.go:128-150 | a history for which applying the capped policy daily and once leave different backups |
| RetentionHistory.ReplacementDependsOnHistory | src/backup/retention.go:128-150 | the same with only the daily tier, by a backup replaced by a smaller one of the same day |
| BackupRetention.SortNewestFirst | src/backup/retention.go:79-80 | the directory as a list, newest first |
| BackupRetention.MarkDaily | src/backup/retention.go:84-91 | the daily loop marks exactly the daily tier |
| BackupRetention.KeepPeriodic | src/backup/retention.go:158-174 | the loop with its `seen` map marks exactly the newest backup of each of the n newest buckets |
| BackupRetention.MarkAll | src/backup/retention.go:82-116 | the marks after all four loops are exactly what the tiers keep |
| BackupRetention.CollectMarked | src/backup/retention.go:130-135 | collects the marked backups in list order |
| BackupRetention.BackupDir.DeleteBackup | src/backup/retention.go:176-185 | removes the archive and then its manifest, and says which is gone when one cannot be removed |
| BackupRetention.BackupDir.DeleteUnmarked | src/backup/retention.go:118-126 | deletes exactly the unmarked backups, and no marked one even when a delete fails |
| BackupRetention.BackupDir.EnforceCap | src/backup/retention.go:136-150 | deletes exactly what the cap requires, oldest first |
| BackupRetention.BackupDir.ApplyRetention | src/backup/retention.go:46-153 | leaves exactly the prescribed survivors and their manifests, succeeds exactly when every backup to be dropped can be removed, and never loses a survivor when a delete fails midway |
| BackupRetention.BackupDir.RunHistory | src/scheduler/scheduler.go:847-868 | writing backups and applying retention after each leaves the archives that the laws over histories speak of |
| CronField.SetBits | src/scheduler/cronexpr.go:134-138 | the stepping loop sets exactly lo, lo + step, ... up to hi, in 64-bit arithmetic, or panics exactly on overflow |
| CronField.ParseCronRange | src/scheduler/cronexpr.go:96-140 | one part sets exactly the values it denotes and is rejected exactly outside its interval |
| CronField.ParseCronField | src/scheduler/cronexpr.go:87-94 | a field sets exactly the union over its comma parts; the first part that is not accepted decides |
| CronField.FieldRoundTrip | src/scheduler/cronexpr.go:87-140 | any non-empty set of values in range, printed as a comma list, parses back to that set |
| CronField.AcceptedFieldNonEmpty | src/scheduler/cronexpr.go:87-140 | an accepted field selects something, and only values of its interval |
| CronField.PanicsExactly | src/scheduler/cronexpr.go:96-140 | a field makes the parser panic if and only if its first unaccepted part is in range with a step that overflows 64 bits |
| CronField.HugeStepPanics | src/scheduler/cronexpr.go:134-138 | 1-5/9223372036854775807 as a minute field makes the parser panic |
| CronMeaning.PartMeans | src/scheduler/cronexpr.go:131-139 | a part in range selects lo, lo + step, ... up to hi and nothing else, or panics |
| CronMeaning.StepFields | src/scheduler/cronexpr.go:87-140 | the fields `N-M`, `N-M/k` and a star with a step, printed and read back, select just the values they name |
| CronMeaning.StarMeans | src/scheduler/cronexpr.go:110-111 | a star selects exactly the values of the interval |
| CronMeaning.NumberMeans | src/scheduler/cronexpr.go:123-129 | a printed number selects exactly itself |
| CronSchedule.ParseFiveFields | src/scheduler/cronexpr.go:59-80 | five fields are accepted exactly when each is, and the bit arrays hold exactly what they select |
| CronSchedule.ParseCronSchedule | src/scheduler/cronexpr.go:37-81 | an expression or shorthand is accepted exactly when it denotes a schedule, and the result is that schedule |
| CronMeaning.ExpressionMeans | src/scheduler/cronexpr.go:59-80 | five words with spaces between them are read as five fields |
| CronMeaning.SpacesAround | src/scheduler/cronexpr.go:38 | white space around an expression does not change what it is read as |
| CronMeaning.SpacesBetween | src/scheduler/cronexpr.go:59 | white space separates the fields, however much there is of it |
| CronMeaning.EveryMeans | src/scheduler/cronexpr.go:40-48 | @every d adds d each time; a duration that is not positive or not read is rejected |
| CronMeaning.ShorthandsMean | src/scheduler/cronexpr.go:49-56 | the shorthands are accepted and fire every hour, every day, every Sunday and every first of the month |
| CronMeaning.FieldsMean | src/scheduler/cronexpr.go:155-157 | a schedule matches a time exactly if its minute, hour, day, month and weekday are each selected by the field of that place |
| CronMeaning.DailyText | src/scheduler/cronexpr.go:37-166 | `m h * * *` is accepted, and its next run is at h:m UTC within one day |
| CronSchedule.ReadFieldNonEmpty | src/scheduler/cronexpr.go:64-80 | a parsed field has a bit set, and none outside its interval |
| CronSchedule.ScanMinutes | src/scheduler/cronexpr.go:154-161 | the scan returns the first matching minute of its range, if there is one |
| CronSchedule.Next | src/scheduler/cronexpr.go:144-166 | returns the next time the specification gives |
| CronSchedule.NextIsLeastMatch | src/scheduler/cronexpr.go:144-166 | for any zone, t is returned if and only if it is the least matching whole minute after `from`, or nothing in the scan matches and t is one minute later |
| CronSchedule.NextIsLater | src/scheduler/cronexpr.go:144-166 | the next run is strictly later than `from` |
| CronUtc.MatchesExactly | src/scheduler/cronexpr.go:154-165 | for every schedule and from whatever instant on, the scan in UTC always finds a match if and only if a time of day is selected and no stretch of 366 days (367 if the first and the last minute of the day are selected) of the 400-year cycle is without a selected day |
| CronUtc.AnyWeekdayMatches | src/scheduler/cronexpr.go:154-165 | with every weekday allowed, the scan always finds a match if and only if some selected day exists in some selected month of every year |
| CronUtc.AnyDayMatches | src/scheduler/cronexpr.go:154-165 | with every day and month allowed, every scan in UTC finds a match |
| CronUtc.ParsedExpressionMatches | src/scheduler/cronexpr.go:59-166 | a parsed expression with a full weekday field and a day up to 28, or with full day and month fields, never takes the fallback in UTC |
| CronUtc.ImpossibleDateFallsBack | src/scheduler/cronexpr.go:162-165 | a schedule whose selected days exist in none of its months always takes the fallback |
| CronUtc.ThirtyFirstOfFebruary | src/scheduler/cronexpr.go:162-165 | 0 0 31 2 * is accepted and always takes the fallback |
| CronUtc.FridayTheThirteenth | src/scheduler/cronexpr.go:162-165 | 0 0 13 * 5 is accepted and takes the fallback after any given instant |
| Calendar.AnniversaryWithinYear | src/scheduler/cronexpr.go:154-161 | any 366 consecutive days contain every day of the year that all years have, leap years included |
| Calendar.DateOfOrdinal | src/scheduler/cronexpr.go:154-161 | stepping day by day reaches every valid date, after exactly its day count |
| Calendar.SameDayNextCycle | src/scheduler/cronexpr.go:154-161 | 146097 days later it is the same day of the same month |
| SchedulerTask.LoadedIsCurrent | src/scheduler/scheduler.go:347-406 | after loading, the next run is not in the past, critical tasks are enabled, and a row that was read decides the enabled bit of every other task |
| SchedulerStarts.LoadMeans | src/scheduler/scheduler.go:379-405 | the state after loading, field by field: the row decides the bit and the next run, moved to now if missed within the window and to the next scheduled time if missed by more |
| SchedulerStarts.StartupWrites | src/scheduler/scheduler.go:357-405 | the row after a startup: unlocked, with the bit in memory, its counts kept, its next run moved only if missed by more than the window |
| SchedulerStarts.FirstTickExactly | src/scheduler/scheduler.go:315-405 | the first tick after a startup starts an execution if and only if the task was loaded switched on and its time has come, a run missed within the window counting as come |
| SchedulerStarts.StartsExactly | src/scheduler/scheduler.go:315-340 | a tick starts an execution if and only if the bit is on, the flag off and the next run not after the clock; a request if and only if the flag is off; nothing else does |
| SchedulerStarts.OffStartsNothing | src/scheduler/scheduler.go:321 | from an accepted off-toggle, or a load that found the bit off, until the node's next accepted on-toggle or start, no step but a request on that node starts an execution there |
| SchedulerStarts.TickStartsExactly | src/scheduler/scheduler.go:315-340 | over any run, a tick starts an execution if and only if nothing runs on the node, its next run has come and the last step to set its bit set it on |
| SchedulerRecords.AcquireMeans | src/scheduler/scheduler.go:422-431 | a request for the lock succeeds if and only if its statement does and finds the row free or locked more than 300 s before, and decides between the body and the next scheduled time |
| SchedulerRecords.RunsInOrder | src/scheduler/scheduler.go:412-484 | an execution that took the lock and leaves has finished, recorded and asked for the release, in this order |
| SchedulerRecords.CountStep | src/scheduler/scheduler.go:532-540 | recording adds one to the count of its outcome and stores the next run in seconds; no other step changes a count |
| SchedulerRecords.RowCounts | src/scheduler/scheduler.go:516-544 | over any run the counts of successes and failures in the row grow by exactly the numbers of recorded executions whose bodies returned so |
| SchedulerTask.RetriesLaterExactly | src/scheduler/scheduler.go:446-455 | every retry is strictly later than the failure if and only if the longest delay fits in 63 bits, and then the delays are exact |
| SchedulerTask.RetriesTotal | src/scheduler/scheduler.go:446-455 | n retries wait retryDelay * (2^n - 1) in all |
| SchedulerTask.WrapExactly | src/scheduler/scheduler.go:449-452 | the 64-bit arithmetic of the delays keeps values modulo 2^64 |
| SchedulerCluster.OneExecutionPerNode | src/scheduler/scheduler.go:315-340 | in every run of every interleaving, the live executions of a task on a node number 0 or 1, as its running flag says |
| SchedulerLock.OverlapsExactly | src/scheduler/scheduler.go:412-514 | while an execution of a global task is in the body, no other enters exactly as long as no acquisition whose statement succeeds finds the lock more than 300 s old or comes after the sync of a startup or the stop of the holder |
| SchedulerLock.TakesExactly | src/scheduler/scheduler.go:490-504 | after a lock was taken, the next acquisition takes it if and only if its statement succeeds and the lock has been cleared meanwhile or is found stale |
| SchedulerLock.StartupOverlaps | src/scheduler/scheduler.go:383-385 | a run, no statement failing, in which a starting node clears the lock of a run and both nodes end up in the body |
| SchedulerLock.ExpiryOverlaps | src/scheduler/scheduler.go:494-496 | the same by a body that takes longer than 300 s |
| SchedulerLock.StopOverlaps | src/scheduler/scheduler.go:286-294 | the same by stopping the node that holds the lock |
| SchedulerLock.MutualExclusion | src/scheduler/scheduler.go:412-514 | if two executions of a global task are in the body at once, the later took the lock more than 300 s after the earlier, or in between some node started up or the holder was stopped |
| SchedulerLock.OverlapNeedsExpiryOrForce | src/scheduler/scheduler.go:490-514 | in every reachable state, two executions overlap only if their locks are more than 300 s apart or a lock was force-released |
| SchedulerLock.LockPersists | src/scheduler/scheduler.go:490-504 | while its holder is in the body, the lock stays with it until an acquisition more than 300 s later or a forced release |
| SchedulerLock.LateReleaseHarmless | src/scheduler/scheduler.go:506-514 | the release of any other execution, however late, leaves the lock of one in the body alone |
| SchedulerSlots.RunsOnceExactly | src/scheduler/scheduler.go:315-340 | after a run for a scheduled time, no other follows for the same time if and only if every later request for it fails or meets the lock taken last still held and at most 300 s old |
| SchedulerSlots.SlotRunsTwice | src/scheduler/scheduler.go:315-340 | a run, no statement failing and no executions overlapping, in which two nodes run the task for the same scheduled time |
| SchedulerEnabled.CriticalAlwaysEnabled | src/scheduler/scheduler.go:241-245 | a critical task is enabled on every node in every reachable state, whatever row was stored |
| SchedulerEnabled.MemoryHolds | src/scheduler/admin.go:120-131 | the bit of a node is the one of its last accepted toggle, or the one it loaded if it has accepted none since |
| SchedulerEnabled.RowHolds | src/scheduler/scheduler.go:357-387 | the bit of the row is the one last set by a toggle, a sync or an insertion, or the one found in the beginning |
| SchedulerEnabled.ToggleStaysExactly | src/scheduler/scheduler.go:353-387 | a toggle that was written stays in the row until the next one, through any restarts, if and only if every startup that had read before and synced after holds the same bit |
| SchedulerEnabled.ToggleAgreesExactly | src/scheduler/admin.go:120-138 | in every reachable state and for every node, memory and row agree if and only if the last step that set the one and the last that set the other set the same value |
| SchedulerEnabled.QuietToggleAgrees | src/scheduler/admin.go:120-138 | once a call that no other call overlaps is over, its write having succeeded with no startup between read and sync, row and memory of the node hold the toggle until the next one anywhere |
| SchedulerEnabled.QuietStartAgrees | src/scheduler/scheduler.go:347-406 | once a node is up that started with no call and no other startup under way, row and memory agree until the next accepted toggle anywhere |
| SchedulerEnabled.OverlappingTogglesDisagree | src/scheduler/admin.go:120-138 | a run in which two overlapping calls, every statement succeeding, leave memory and row different |
| SchedulerEnabled.OtherNodeDisagrees | src/scheduler/admin.go:129-137 | a run in which one call on one node leaves the memory of another different from the row |
| SchedulerEnabled.StartupLosesToggle | src/scheduler/scheduler.go:353-385 | a run in which a startup writes back the bit it had read and a toggle written in between is lost |
| SchedulerEnabled.RestartReproducesToggle | src/scheduler/scheduler.go:347-387 | a start that reads its row has the enabled bit of the last toggle written, on whichever node it was made, if no startup under way then has synced since |
| SchedulerEnabled.StartIsCurrent | src/scheduler/scheduler.go:261-272 | from its loading until it is up, the next run of a node is at or after the instant it started at, nothing is running and the attempt counter is zero |
| SchedulerRetries.AttemptCountsFailures | src/scheduler/scheduler.go:445-463 | the attempt counter is the number of consecutive failures since the last success or start |
| SchedulerRetries.RetryDiscipline | src/scheduler/scheduler.go:445-463 | over whole runs, the i-th consecutive failure up to maxRetries is retried after retryDelay * 2^(i-1), every other run follows cron, and the next run is strictly after the finish |
| Scheduler.DoubleDelay | src/scheduler/scheduler.go:449-452 | the doubling loop computes the exponential delay in 64-bit arithmetic |
| Scheduler.Task.TryBegin | src/scheduler/scheduler.go:320-325 | sets the running flag exactly when the task is enabled, idle and due |
| Scheduler.Task.BeginNow | src/scheduler/admin.go:151-157 | sets the running flag, or reports that it was set |
| Scheduler.Task.FinishRun | src/scheduler/scheduler.go:445-465 | changes the fields as the retry rule prescribes |
| Scheduler.TaskTable.Acquire | src/scheduler/scheduler.go:494-503 | takes the lock exactly when it is free or stale, and changes nothing else |
| Scheduler.TaskTable.Release | src/scheduler/scheduler.go:506-514 | clears the lock only if this node holds it |
| Scheduler.TaskTable.ReleaseAll | src/scheduler/scheduler.go:292-294 | clears exactly the locks this node holds |
| Scheduler.TaskTable.Record | src/scheduler/scheduler.go:532-540 | records the outcome in the row and leaves its lock and enabled bit alone |
| Scheduler.TaskTable.Sync | src/scheduler/scheduler.go:383-385 | sets the enabled bit and clears whatever lock there is |
| Scheduler.SchedulerNode.Tick | src/scheduler/scheduler.go:315-340 | starts exactly the ready tasks, in order; for each task this is the tick step of the cluster |
| Scheduler.SchedulerNode.FindTask | src/scheduler/admin.go:55-62 | finds a registered task by id, or none |
| Scheduler.SchedulerNode.SetTaskEnabled | src/scheduler/admin.go:120-138 | all replies and the whole new state; critical tasks cannot be switched off; an accepted call is a memory step and then a row step of the cluster |
| Scheduler.SchedulerNode.RunNow | src/scheduler/admin.go:145-169 | starts exactly the named task if it is idle, enabled or not, as the step of the cluster does |
| Scheduler.SchedulerNode.BeginExecution | src/scheduler/scheduler.go:422-431 | a global task runs exactly when its lock was taken, and is otherwise put off to its next scheduled time: the acquire step of the cluster |
| Scheduler.SchedulerNode.FinishExecution | src/scheduler/scheduler.go:433-467 | the fields and then the row after a run: the finish and the record step of the cluster |
| Scheduler.SchedulerNode.EndExecution | src/scheduler/scheduler.go:413-430 | releases the lock, then the running flag: the release and the leave step of the cluster |
| Scheduler.SchedulerNode.LoadTask | src/scheduler/scheduler.go:347-406 | loads a task and its row as the catch-up rule prescribes: the read and the writes of a startup, step by step |
| Scheduler.SchedulerNode.Stop | src/scheduler/scheduler.go:292-294 | releases every lock this node holds and no other |
| Scheduler.AddTasks | src/scheduler/scheduler.go:237-257 | registers exactly the tasks whose schedule is accepted, in order, critical ones enabled |
| Scheduler.AcceptedExactly | src/scheduler/scheduler.go:249-255 | an entry is registered if and only if its schedule is accepted, in its place and whatever the others are |
| Scheduler.RegisteredDistinct | src/scheduler/scheduler.go:247-257 | tasks registered from distinct entries make a valid scheduler |
| RateLimitHistory.WindowNeverExceeded | src/server/middleware.go:212-232 | every interval of the length of a window holds at most `limit` allowed calls of its key |
| RateLimitHistory.RefusedExactlyWhenFull | src/server/middleware.go:227-229 | a call is refused if and only if the window that ends at it holds `limit` allowed calls of its key, and it never holds more |
| RateLimiter.Bucket.Evict | src/server/middleware.go:218-225 | the compaction in the same buffer keeps exactly the entries inside the window, in order |
| RateLimiter.Bucket.Append | src/server/middleware.go:230 | appends one time, whether or not the buffer has to grow |
| RateLimiter.Bucket.Allow | src/server/middleware.go:212-232 | allows exactly when fewer than `limit` entries are left in the window, and remembers the call |
| RateLimiter.Bucket.IsStale | src/server/middleware.go:265-266 | stale means empty, or a last entry older than the cutoff |
| RateLimiter.Limiter.BucketOf | src/server/middleware.go:276-285 | returns the bucket of the key, created empty if there was none, and changes no other |
| RateLimiter.Limiter.Allow | src/server/middleware.go:287-291 | decides every call exactly as the rule over the whole history does, whatever was compacted or swept before |
| RateLimiter.Limiter.Sweep | src/server/middleware.go:256-273 | drops exactly the buckets idle for two hours and forgets nothing a later call can depend on |
| RateLimiter.LimiterGuarantee | src/server/middleware.go:212-291 | of all calls a limiter ever decided, no window-length interval holds more than `limit` allowed ones of a key, and a call was refused exactly when `limit` lay in the window before it |
| RateLimiter.Limiter.DropStale | src/server/middleware.go:263-271 | the loop over the map it deletes from drops exactly the stale keys |
| RateLimiter.CallKeepsConsistent | src/server/middleware.go:212-232 | a call decided from what is stored is decided as by the history, and the stored times stay sufficient |
| RateLimiter.SweepKeepsConsistent | src/server/middleware.go:256-273 | after a sweep the stored times still answer whatever the rule can ask, for windows up to two hours |
| RateLimiter.ForgetStale | src/server/middleware.go:261-270 | a bucket idle for two hours holds nothing a window of at most two hours can see |
| RequestRing.Counters.Begin | src/server/server.go:301-315 | counts a request and keeps every slot equal to the count of its latest minute |
| RequestRing.Counters.End | src/server/server.go:303 | ends a request |
| RequestRing.Counters.Last24h | src/server/server.go:837-844 | the health sum, between the requests of the last 1440 minutes and all requests, and exact if and only if each older request was followed within the last 1440 minutes by one at its minute of the day |
| RequestRing.SlotAfter | src/server/server.go:305-315 | how one request changes what each slot stands for |
| RequestRing.SumCoversWindow | src/server/server.go:297-318 | the reported sum never misses a request of the last 1440 minutes, and is exact if and only if no slot still holds an older minute |
| RequestRing.SumExactly | src/server/server.go:297-318 | the same for the sum over the slots, in terms of the requests alone |
| RequestRing.SumWithinAll | src/server/server.go:297-318 | the reported sum never exceeds the number of requests ever made |
| RequestRing.SumExactWhenCovered | src/server/server.go:297-318 | with less than a day of traffic, or traffic in each of the last 1440 minutes, the sum is exact |
| ArchivePaths.ReadArchiveName | src/backup/backup.go:327-334 | the name under which a path is archived is restored to the same prefix and path |
| ArchivePaths.DotDotInName | src/backup/backup.go:323-326 | an archive name is refused if and only if some component of its path contains two dots |
| ArchiveMeaning.NameMeans | src/backup/backup.go:482-490 | the names of an archive: the prefix and the names below it, each followed by a slash but for that of a file |
| ArchiveMeaning.ArchiveHolds | src/backup/backup.go:395-412 | an archive holds exactly the directories and files that can be found in its sources, below config and data, files with all their bytes |
| ArchiveMeaning.WalkExactly | src/backup/backup.go:470-506 | a walk yields an entry for exactly the paths at which a directory or a file can be found |
| ArchiveMeaning.ImageExactly | src/backup/backup.go:283-412 | what the round trip recreates is the tree: at every path the directory or the bytes that can be found there |
| ArchiveMeaning.EntryMeans | src/backup/backup.go:319-331 | where an entry of any archive goes: refused for two dots, skipped without a configured prefix, otherwise to its cleaned path below that target alone |
| ArchiveMeaning.ItemMeans | src/backup/backup.go:339-362 | what an entry does below its target, failures included: a directory with its parents, or a file with its first 2^30 bytes |
| ArchiveMeaning.CleanExactly | src/backup/backup.go:331 | cleaning drops the empty and "." components of a path and no others |
| ArchiveMeaning.CutExactly | src/backup/backup.go:352-353 | a file comes back with its first 2^30 bytes |
| BackupArchive.RestoreWalk | src/backup/backup.go:340-363 | restoring the entries of a tree over whatever is there succeeds if and only if no directory of it is an existing file and no file of it an existing directory, and then adds exactly its directories and files |
| BackupArchive.WalkDotDot | src/backup/backup.go:470-506 | the entries of a tree hold two dots if and only if some archived name does |
| BackupArchive.RestoreItemRecords | src/backup/backup.go:312-363 | restoring the entries below a prefix changes only its target |
| BackupArchive.RestoreOver | src/backup/backup.go:283-363 | restoring an archive over existing targets succeeds if and only if no name contains two dots and both trees can be laid over what is there, and then does just that, whichever source was written first |
| BackupArchive.RestoreArchive | src/backup/backup.go:283-363 | restoring an archive into empty targets, whichever source was written first, recreates both trees or is refused |
| BackupArchive.RoundTripExactly | src/backup/backup.go:283-412 | the round trip is exact, paths and bytes, if and only if no archived name contains two dots and no file exceeds 2^30 bytes |
| BackupArchive.TwoDotsAreRefused | src/backup/backup.go:323-326 | a config directory with a file a..b is archived and cannot be restored |
| BackupFiles.TarWriter.AddTree | src/backup/backup.go:470-506 | appends exactly the entries of the tree, a directory before its content, special files skipped |
| BackupFiles.CreateArchive | src/backup/backup.go:395-412 | the loop over the sources writes exactly their entries, in the order visited, and lists the prefixes present |
| BackupFiles.ArchiveOfSources | src/backup/backup.go:395-412 | the two sources in either order give the archive of the round trip |
| BackupFiles.TargetDir.MakeAll | src/backup/backup.go:342-345 | makes a directory and its parents; fails exactly when a file is in the way |
| BackupFiles.TargetDir.Write | src/backup/backup.go:348-360 | writes at most 2^30 bytes over what was there; fails exactly on a directory or when the copy fails, which leaves the bytes copied so far |
| BackupFiles.TargetDir.RestoreEntry | src/backup/backup.go:341-363 | one entry: succeeds exactly when it can be restored and its copy does not fail; a failure changes no other file |
| BackupFiles.RunRestore | src/backup/backup.go:312-363 | succeeds exactly when every entry can be restored and no copy fails, and then the targets hold exactly what the entries say |

## Left out

- The bodies of the scheduled jobs, resolvers, HTTP handlers, templates, the admin interface, configuration, authentication, the updater, Tor, the client, metrics, audit log and translations: input and output, library calls, or easy properties only. A job is a success or a failure that takes some time.
- GraphQL: error messages, and the difference between an absent argument list or selection set and an empty one. Fragments, enums, subscriptions and several operations in one document are refused by the code and by the model.
- GraphQL floats: the value of a float literal; it is carried as its lexeme.
- Retention: the file name pattern, date parsing, `parseMaxTotalSize` and the disk capacity. The cap is an optional integer, and a total of sizes beyond 64 bits is not modelled.
- RetentionHistory.OnlineCappedExactly: for histories whose days never go back, as those of a clock that does not.
- RetentionHistory.DailyTierAgrees: one direction; the exact condition is RetentionHistory.CapAgreesExactly.
- Retention ties: the code's sort leaves the order of backups of one day open. The model fixes it, the plain archive being newer than the encrypted one of the same day, in both sorts.
- Retention buckets: `ISOWeek` and date formatting; the bucket functions are arbitrary.
- Cron in zones other than UTC: the least-match theorem covers any zone, the existence of a match is for UTC only.
- Cron instants beyond what `time.Time` can represent.
- Scheduler node ids: two processes that run at the same time are taken to differ in host name or process id. An id may come back after a restart.
- Scheduler clock: the second clock reading of `acquireLock` is the time of its step.
- Scheduler rows: history rows, last status and error, name, type and schedule columns. The 30 seconds `Stop` waits are not modelled: it may release the locks at any time.
- `@every` durations: `time.ParseDuration` is a parameter.
- RateLimitHistory.WindowNeverExceeded: windows are positive and at most two hours and, like limits, fixed per key, as the sweep requires; a call of Allow is one step, so the interleaving in which the sweep drops a bucket between `bucket` and `allow` is not modelled.
- The choice of rules by request path, and the ticker of the sweep.
- RequestRing.Counters.Begin: requests are counted one at a time and minutes never go back; the races of the compare-and-swap between concurrent requests are not modelled.
- Faults while writing an archive, and opening or making a directory failing for other reasons than a file or directory in the way.
- Archive: gzip, tar encoding, encryption, checksums, the manifest file, file modes, and the content of symbolic links. File names are not empty and hold no slash, as on disk.
- The check in `RunRestore` that the destination stays inside its target: for names without two dots it fails only when the target is the root directory, which is not modelled.
- BackupFiles.RunRestore: entries no archive of the program holds, of another kind than file or directory or naming the target directory itself as a file, are outside the model.
- BackupArchive.RoundTripExactly: a source that is a single file instead of a directory is not covered; its entry has no slash and a restore skips it.
