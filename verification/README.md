# Verified models of the toolkit's algorithmic cores

This project models, in Dafny, the parts of the repository that decide something rather than move
data, and proves what those parts promise. Each file holds one module.

- `RoutePattern.dfy`: what a rate-limit route pattern accepts, `match`, and the syntactic comparison
  of two patterns. The comparison is proved to return exactly the relationship of the two request
  sets (equal, strict superset, strict subset, no common request, or a proper overlap).
- `PatternParser.dfy`: `newPattern` and the grammar of patterns, proved in both directions.
  `PathPieces.dfy`: which piece of a configured text makes it fail and why, and which requested paths a
  configured text covers.
- `FixedWindow.dfy`: windows and the multi-window limiter as classes, specified by functions on
  window states. `LimiterRuns.dfy`: bounds over whole runs. `OverrideRuns.dfy`: what overrides let
  through over whole runs.
- `RateLimitManager.dfy`: loading a configuration in an arbitrary order of its paths, and routing.
  `ManagerRuns.dfy`: what whole runs of a loaded manager keep, for all keys and paths together.
- `ArrayText.dfy`: the PostgreSQL array parser (section 8.15.6 of the PostgreSQL documentation).
  `ArrayGrammar.dfy`: the one-dimensional grammar it accepts, its dimension counters, the printer and
  the round trip. `ArrayShapes.dfy`: exactly which nested texts it accepts and what its dimensions mean.
  `ArrayErrors.dfy`: what the offset in an error means.
- `ConnString.dfy`: the option scanner and parser (section 34.1.1.1 of the PostgreSQL 14
  documentation). `ConnGrammar.dfy`: the exact grammar of option texts, errors included.
  `ConnPrinter.dfy`: the printer and exactly when the parser undoes it.
- `Scheduler.dfy`: reconciling the schedule with live configurations. `JobLatch.dfy`: the latch
  around a job's executions.
- `ErrorFields.dfy`, `ChatThreads.dfy`, `SnakeCase.dfy`: three loops proved against one-line
  definitions of their results.

## How it is modelled

- Objects whose fields the code updates are classes (`Window`, the limiter, `Manager`, `Scanner`,
  `Options`, `Scheduler`, `Job`, `InProcessJob`). Each method is tied to a function of the old state,
  and the theorems are about those functions. Inner loops of long functions are methods of their own.
- Iteration over a Go map is a choice of an arbitrary remaining key, so a contract that holds holds
  for every order.
- Panics and error returns are outcomes. A request or a configuration that would index the last
  segment of a pattern without segments ends in `Crashed` or `IndexFailure`.
- Times are nanoseconds since the zero time of the clock, durations are 64-bit, and the difference of
  two times saturates. A clock is assumed to be further from the zero time than the longest duration
  (292 years), which makes fresh windows count as expired.
- The clock, the override lookup, configuration fetches and job bodies are parameters.
- Strings are sequences of characters. The array parser compares with a few ASCII characters only, so bytes and
  characters behave alike there. `toSnakeCase` looks at one byte before the current character; a byte
  of a longer character is never a capital, so the model looks at the previous character, and its
  results hold for every input, not only ASCII.

## Where the code and its own comments differ

The model follows the code.

- `newPattern` states that the path starts with '/', but tests only that it contains one. Without a
  leading slash the first character is dropped. `PatternParser.FaithfulIffLeadingSlash` says exactly
  when the parsed pattern is faithful to its text, and `PatternParser.FirstCharacterLost` is an
  instance.
- The path "/" is accepted and has no segments. A loaded manager then indexes position -1 on a request
  exactly when some configured path is "/" for the request's verb, whatever path is requested
  (`RateLimitManager.CrashIffRoot`, `RateLimitManager.RootPathLoadsAndCrashes`); comparing two
  configured paths does so exactly when one of them is "/", the other is not, and their verbs can meet
  (`RateLimitManager.ComparableIffRoots`).
- `Allow` says that no other pattern can match once one has. Nested patterns do match together
  (`RateLimitManager.NestedPathsMatchTogether`); the first match is the most specific one
  (`RateLimitManager.FirstMatchIsMostSpecific`).
- `Allow` promises the duration to wait. After an override that shortens a full window the duration can
  be negative (`OverrideRuns.OverrideDeniesWithoutWait`); `OverrideRuns.DenialWait` says exactly when it
  is positive.
- `parseArray` says that dimensions must match. It only tests that each of them divides the number of
  elements, and each is the width of the last node of its level (`ArrayShapes.ParsesExactlyArrays`,
  `ArrayShapes.NotOnlyRectangular`).
- A configuration that cannot be fetched is logged as "skipping job", but the zero configuration is
  used and remembered: the job is taken off the schedule, and a new interval can be lost
  (`Scheduler.ScheduledIffLastEnabled`, `Scheduler.FailedFetchHidesNewInterval`).
- A slash at the end of a configured path is dropped, but one at the end of a requested path is a piece
  of its own: a configured path with such a slash does not cover the request for the same path
  (`PathPieces.LiteralCovers`, `RateLimitManager.SamePathWithSlashIsNotCovered`).
- `toSnakeCase` says that sequences of capitals such as URL are not separated. A sequence with small
  letters behind it takes in the first capital of the next word: the words of "URLValue" are "urlv"
  and "alue" (`SnakeCase.CamelCaseWords`).
- Escaping for connection strings stops after 100 backslashes and 100 quotes, so printing can be
  undone exactly below that (`ConnPrinter.ConnectionStringReadsBackIff`).

## Model

| member | source | states |
|---|---|---|
| RoutePattern.Match | internal/resttooling/ratelimiter/v2/pattern.go:307-346 | the length tests and the loop accept exactly the requests of the piece-by-piece definition |
| RoutePattern.CombineIsConjunction | internal/resttooling/ratelimiter/v2/pattern.go:268-304 | combining two parts is conjunction on "they meet" and on each inclusion, and commutes with taking the inverse |
| RoutePattern.PathRelationInverse | internal/resttooling/ratelimiter/v2/pattern.go:194-258 | comparing in the other order gives the inverse relationship |
| RoutePattern.CommonPath | internal/resttooling/ratelimiter/v2/pattern.go:194-258 | path lists that are not disjoint accept a common path, which is constructed |
| RoutePattern.OnlySecond | internal/resttooling/ratelimiter/v2/pattern.go:194-258 | when the first list does not cover the second, a path accepted only by the second is constructed |
| RoutePattern.PathIncluded | internal/resttooling/ratelimiter/v2/pattern.go:194-258 | an equivalent or more general list accepts every path the other accepts |
| RoutePattern.NoCommonPath | internal/resttooling/ratelimiter/v2/pattern.go:194-258 | disjoint lists accept no common path |
| RoutePattern.ComparisonIsExact | internal/resttooling/ratelimiter/v2/pattern.go:149-168 | for all well-formed patterns the syntactic comparison is the relationship of the accepted request sets |
| RoutePattern.ComparePaths | internal/resttooling/ratelimiter/v2/pattern.go:194-228 | the accumulating loop with its early exits computes the front-to-back relation |
| RoutePattern.ComparePathsAndVerbs | internal/resttooling/ratelimiter/v2/pattern.go:160-168 | returns the meaning of the relationship: equal, superset, subset, no common request, or overlap |
| RoutePattern.CompatibleIffNested | internal/resttooling/ratelimiter/v2/rate_limiter.go:167-189 | patterns may be loaded together exactly when no request matches both, or one strictly includes the other |
| RoutePattern.PrecedenceTransitive | internal/resttooling/ratelimiter/v2/rate_limiter.go:167-189 | a pattern between two others orders those two |
| PatternParser.NewPattern | internal/resttooling/ratelimiter/v2/pattern.go:63-143 | the loop computes the parse result, with the same errors in the same order |
| PatternParser.ParseMeaning | internal/resttooling/ratelimiter/v2/pattern.go:63-133 | every pattern of the grammar is parsed to itself; results are well formed; only "/" has no segments |
| PatternParser.ParseSound | internal/resttooling/ratelimiter/v2/pattern.go:84-131 | a parsed path with a leading slash prints as its text up to one trailing slash, with distinct non-empty names and a multi only at the end |
| PatternParser.PathComplete | internal/resttooling/ratelimiter/v2/pattern.go:84-131 | printing good segments and parsing them gives the segments back |
| PatternParser.FaithfulIffLeadingSlash | internal/resttooling/ratelimiter/v2/pattern.go:79-87 | a parsed pattern is faithful to its text exactly when the path starts with '/' |
| PatternParser.FirstCharacterLost | internal/resttooling/ratelimiter/v2/pattern.go:84-87 | "ab/" is read as the single segment "b" |
| PathPieces.ParseByPieces | internal/resttooling/ratelimiter/v2/pattern.go:63-133 | exactly when a text is refused and with which error: the first faulty piece decides, a repeated name refers to any piece before it |
| PathPieces.AcceptsIffCovers | internal/resttooling/ratelimiter/v2/pattern.go:307-346 | a parsed pattern accepts exactly the requests whose path its text covers, piece by piece on the characters |
| PathPieces.LiteralCovers | internal/resttooling/ratelimiter/v2/pattern.go:84-131 | without names a configured path covers exactly the request for the same text, or for the text without its last slash |
| PathPieces.JoinedCovers | internal/resttooling/ratelimiter/v2/pattern.go:307-346 | for texts given by their pieces, a name stands for any piece and a rest for any pieces |
| FixedWindow.Window.Allow | internal/rate/fixed_window.go:26-39 | one request against one window: reset when expired, count or refuse with the remaining time |
| FixedWindow.AllowWindows | internal/rate/fixed_window.go:52-61 | the round over a key's windows in place, up to the first refusal |
| FixedWindow.WouldAllowWindows | internal/rate/fixed_window.go:63-72 | the answer of the first window without room, changing nothing |
| FixedWindow.MultiBucketFixedWindowLimiter.Allow | internal/rate/fixed_window.go:116-130 | one round on the key's windows, created on first use; the windows of all other keys are unchanged |
| FixedWindow.MultiBucketFixedWindowLimiter.WouldAllow | internal/rate/fixed_window.go:134-145 | asks without changing anything; unknown keys are let through |
| FixedWindow.MultiBucketFixedWindowLimiter.OverrideWindows | internal/rate/fixed_window.go:150-168 | replaces limits and durations of a known key only, keeping counts and start times |
| LimiterRuns.RoundOfWindow | internal/rate/fixed_window.go:52-61 | a window is stepped exactly when all windows before it allowed; a request is admitted exactly when all allow |
| LimiterRuns.LessThanTwiceTheLimit | internal/rate/fixed_window.go:26-61 | every window of a key admits at most 2 * limit - 1 requests in any half-open interval of its length |
| LimiterRuns.CapIsReached | internal/rate/fixed_window.go:26-39 | for every positive limit and duration above one tick some run reaches 2 * limit - 1 |
| LimiterRuns.KeysAreIndependent | internal/rate/fixed_window.go:116-130 | in a limiter shared by all keys each key is served as if it were alone |
| LimiterRuns.LessThanTwiceTheLimitForKey | internal/rate/fixed_window.go:89-130 | the bound for one key under arbitrary traffic of all keys |
| LimiterRuns.DenialIsFirm | internal/rate/fixed_window.go:26-61 | a denial's wait is at most the refusing window's duration and positive with it; nothing is admitted before it ends; then that window has room again |
| LimiterRuns.DenialIsFirmAfterAnyRun | internal/rate/fixed_window.go:26-61 | the same after any history of the key with a clock that does not run backwards |
| LimiterRuns.WouldAllowAgrees | internal/rate/fixed_window.go:41-72 | on unexpired windows asking without counting gives the verdict and wait of a request |
| LimiterRuns.DeniedStaysDenied | internal/rate/fixed_window.go:42-72 | after a denied round, asking without counting is denied at any later time |
| OverrideRuns.AtMostOneUncounted | internal/resttooling/ratelimiter/v2/rate_limiter.go:91-116 | with a constant override answer a whole run lets at most one request through uncounted, whatever the windows |
| OverrideRuns.DenialWait | internal/rate/fixed_window.go:42-72 | a denial, with or without an override, comes from a full window and its wait is the rest of it, positive exactly when that window has not ended under the duration now in force |
| OverrideRuns.DenialInstallsOverrides | internal/rate/fixed_window.go:150-168 | a refused round installs every override: new limits and durations, the same counts and starts |
| OverrideRuns.OutcomeMeaning | internal/resttooling/ratelimiter/v2/rate_limiter.go:91-116 | a request is let through uncounted exactly when its round refused it and the overrides leave room in every window |
| OverrideRuns.ConfigInForce | internal/resttooling/ratelimiter/v2/rate_limiter.go:102-116 | the overrides are in force from the first refused round of a run on, and the original configuration before |
| OverrideRuns.OverrideDeniesWithoutWait | internal/rate/fixed_window.go:150-168 | limit 1 and duration 100 used up, overridden by duration 10 after 50 ticks: denied with a wait of -40 |
| OverrideRuns.BetweenResets | internal/resttooling/ratelimiter/v2/rate_limiter.go:91-116 | between two resets a window counts at most the larger of the two limits, and one uncounted request is added at most |
| OverrideRuns.UncountedNeedsHigherLimit | internal/rate/fixed_window.go:134-168 | with one window an uncounted request needs an override above the configured limit |
| RateLimitManager.AcceptableIffNested | internal/resttooling/ratelimiter/v2/rate_limiter.go:157-205 | without "/" a configuration loads exactly when all paths parse and the requests of any two are apart or strictly nested |
| RateLimitManager.InsertKeepsOrder | internal/resttooling/ratelimiter/v2/rate_limiter.go:167-204 | inserting at the found place keeps the list free of conflicts and of general patterns before specific ones |
| RateLimitManager.Manager.FindPlace | internal/resttooling/ratelimiter/v2/rate_limiter.go:167-195 | finds the first less specific pattern after checking all of them, or the first clash |
| RateLimitManager.Manager.AddPath | internal/resttooling/ratelimiter/v2/rate_limiter.go:157-205 | inserts pattern and an unused limiter at the same position, or leaves both lists alone with the reason |
| RateLimitManager.Manager.ParseConfig | internal/resttooling/ratelimiter/v2/rate_limiter.go:139-210 | in any order of the paths loading succeeds exactly when all parse and no two clash; the list is ordered, limiter i belongs to pattern i and no limiter holds windows yet; an error names a path to blame |
| RateLimitManager.FirstMatchIsMostSpecific | internal/resttooling/ratelimiter/v2/rate_limiter.go:81-97 | the first match is strictly more specific than every other matching pattern |
| RateLimitManager.RoutingIgnoresLoadOrder | internal/resttooling/ratelimiter/v2/rate_limiter.go:157-205 | two load orders of one configuration route every request to the same pattern |
| RateLimitManager.Manager.FindRoute | internal/resttooling/ratelimiter/v2/rate_limiter.go:81-84 | the loop finds the first match |
| RateLimitManager.CrashIffRoot | internal/resttooling/ratelimiter/v2/pattern.go:307-321 | a loaded list indexes position -1 on a request exactly when a configured path is "/" for the request's verb |
| RateLimitManager.RootPathLoadsAndCrashes | internal/resttooling/ratelimiter/v2/pattern.go:84-133 | the configuration of "/" alone is accepted, and every request then crashes |
| RateLimitManager.ComparableIffRoots | internal/resttooling/ratelimiter/v2/pattern.go:160-228 | comparing two configured paths indexes position -1 exactly when one is "/", the other is not, and their verbs can meet |
| RateLimitManager.NestedPathsMatchTogether | internal/resttooling/ratelimiter/v2/rate_limiter.go:91-97 | paths such as "/foo/bar" and "/foo/{id}" load together and both match one request |
| RateLimitManager.RoutesByPieces | internal/resttooling/ratelimiter/v2/rate_limiter.go:75-81 | a requested path is cut at its slashes behind the first one |
| RateLimitManager.RoutedIffCovered | internal/resttooling/ratelimiter/v2/rate_limiter.go:75-84 | a loaded list routes exactly the requests that some configured text covers, to a pattern whose text covers them |
| RateLimitManager.SamePathIsRouted | internal/resttooling/ratelimiter/v2/rate_limiter.go:75-84 | a configured path without names routes the request for the same path |
| RateLimitManager.SamePathWithSlashIsNotCovered | internal/resttooling/ratelimiter/v2/pattern.go:84-131 | unless the path ends in a slash: then it does not cover the request for the same path |
| RateLimitManager.Manager.Allow | internal/resttooling/ratelimiter/v2/rate_limiter.go:67-136 | windows and decision are those of one routed visit; it passes a request by exactly when no configured text covers it, crashes exactly when one is "/" for the verb, and never refuses in reporting mode |
| RateLimitManager.RefusalMeaning | internal/resttooling/ratelimiter/v2/rate_limiter.go:91-132 | a refusal happens in enforcing mode only, and its wait is the rest of a full window |
| RateLimitManager.ServeKey | internal/resttooling/ratelimiter/v2/rate_limiter.go:91-116 | count, or install overrides and ask again without counting |
| ManagerRuns.EachKeyAlone | internal/resttooling/ratelimiter/v2/rate_limiter.go:81-132 | under any traffic of all keys on all paths, a key is served at a limiter as if it were alone there |
| ManagerRuns.AtMostOneUncountedPerKey | internal/resttooling/ratelimiter/v2/rate_limiter.go:91-116 | from any state, a whole run lets through at most one uncounted request per key and pattern while override answers are constant |
| ManagerRuns.RefusedIff | internal/resttooling/ratelimiter/v2/rate_limiter.go:91-132 | a request is refused exactly in enforcing mode, when its round refuses it and no override leaves room in every window |
| ManagerRuns.OverridesTakeEffect | internal/resttooling/ratelimiter/v2/rate_limiter.go:102-116 | in a loaded manager an overridden key keeps the configured limits until a round refuses it and has the overrides from then on, under any traffic |
| ManagerRuns.LoadedManagerKeepsLimits | internal/resttooling/ratelimiter/v2/rate_limiter.go:81-97 | a newly loaded manager keeps every window of a key without override below twice its limit, under any traffic |
| Common.JoinSplit | internal/resttooling/ratelimiter/v2/rate_limiter.go:75-79 | splitting a path into pieces loses nothing and leaves no separator in a piece |
| ArrayText.ParseArray | internal/rdb/array.go:182-285 | total on every text; computes the parse result with the same error offsets |
| ArrayText.ReadElement | internal/rdb/array.go:204-249 | the loop at the label Element, on the array of counters |
| ArrayText.ReadClosing | internal/rdb/array.go:251-263 | the loop between elements, on the array of counters |
| ArrayGrammar.DimensionsFitElements | internal/rdb/array.go:277-284 | on success every dimension is positive and divides the element count; a single one equals it |
| ArrayGrammar.ScansExactlyLinearTexts | internal/rdb/array.go:176-300 | the linear scanner accepts exactly the texts of the one-dimensional grammar and returns the values of their items |
| ArrayGrammar.ScansWrittenTexts | internal/rdb/array.go:116-133 | a list of items is refused exactly for its first unquoted NULL, and otherwise scanned to the written texts |
| ArrayGrammar.EscapeIsShortest | internal/rdb/array.go:159-174 | no other quoted text of a string is as short, so nothing else is escaped |
| ArrayGrammar.EmptyPrintIsShortest | internal/rdb/array.go:136-157 | no text that scans to the empty array is shorter than the printed one |
| ArrayGrammar.ScanErrors | internal/rdb/array.go:116-133 | a text that is no linear array is refused with the parser's reason |
| ArrayGrammar.RoundTrip | internal/rdb/array.go:116-174 | scanning a printed array of strings gives it back, for all strings |
| ArrayGrammar.PrintingIsInjective | internal/rdb/array.go:136-174 | different arrays have different texts |
| ArrayShapes.ParsesExactlyArrays | internal/rdb/array.go:182-285 | for any number of dimensions the parser accepts exactly nested empty braces and the texts of trees with no leaf deeper than the first whose dimensions divide the element count; a dimension is the width of its level's last node |
| ArrayShapes.RaggedIff | internal/rdb/array.go:277-284 | the text of an array is refused for its counts exactly when some dimension does not divide the element count |
| ArrayShapes.NotLinearIff | internal/rdb/array.go:287-300 | the linear scanner refuses exactly the arrays of two or more dimensions for their shape, and names the dimensions |
| ArrayErrors.UnexpectedIsFirst | internal/rdb/array.go:182-275 | the offset of an unexpected character is the length of the longest beginning of the text without one |
| ArrayErrors.MissedBraces | internal/rdb/array.go:185-187 | an opening brace is missed exactly where there is none, a closing one only at the end |
| ArrayShapes.ReadsTree | internal/rdb/array.go:204-263 | wherever a part of such an array stands, the parser reads its elements, sets the counters of the levels it opens and leaves the others |
| ArrayShapes.ListSound | internal/rdb/array.go:204-263 | whatever the parser reads up to a closing brace is the text of a list of such parts |
| ArrayShapes.RectangularParses | internal/rdb/array.go:182-285 | every rectangular array is parsed to its dimensions and its elements in order |
| ArrayShapes.NotOnlyRectangular | internal/rdb/array.go:277-284 | an element beside an array, as in {{a},b}, is accepted although it is not rectangular |
| ArrayGrammar.AppendQuoted | internal/rdb/array.go:159-174 | appends the quoted item with every quote and backslash escaped |
| ArrayGrammar.Value | internal/rdb/array.go:136-157 | prints the array text; nil has none |
| ArrayGrammar.ScanBytes | internal/rdb/array.go:116-133 | scans to strings, refusing NULL at its first position |
| ConnString.Scanner.SkipToNonSpace | internal/rdb/internal/driver/dsn.go:74-80 | the next character that is not a space |
| ConnString.SpacesAreWhiteSpace | internal/rdb/internal/driver/dsn.go:74-80 | spaces are the 25 characters with the Unicode property White_Space |
| ConnString.ReadQuoted | internal/rdb/internal/driver/dsn.go:142-158 | the loop over a quoted value |
| ConnString.ReadBare | internal/rdb/internal/driver/dsn.go:126-140 | the loop over an unquoted value |
| ConnString.Options.ParseOpts | internal/rdb/internal/driver/dsn.go:87-164 | stores the parsed assignments in order, also those before an error |
| ConnGrammar.BareAssignmentParses | internal/rdb/internal/driver/dsn.go:95-140 | an unquoted value is assigned to its key, with any spaces around the equals sign, and the text behind its end is left |
| ConnGrammar.AssignmentParses | internal/rdb/internal/driver/dsn.go:95-161 | the same for quoted and unquoted values |
| ConnGrammar.EveryTextHasForm | internal/rdb/internal/driver/dsn.go:87-164 | every text is a list of assignments and one of six tails, three of which are the errors |
| ConnGrammar.ParsesExactlyForms | internal/rdb/internal/driver/dsn.go:87-164 | the parser's assignments and error are exactly those its text's form means |
| ConnPrinter.OnePass | internal/sqltooling/conn.go:22-27 | the two nested capped replacements are one pass with two budgets |
| ConnPrinter.ValueReadsBackIffWithinCaps | internal/sqltooling/conn.go:22-27 | a printed value is read back exactly when it has at most 100 backslashes and 100 quotes |
| ConnPrinter.HundredIsTheLimit | internal/sqltooling/conn.go:22-27 | n quotes, or n backslashes, are read back exactly when n is at most 100 |
| ConnPrinter.PairsReadBackIffWithinCaps | internal/rdb/internal/driver/dsn.go:87-164 | printed pairs are parsed back in order without an error exactly when all values are within the caps |
| ConnPrinter.KVConnectionString | internal/sqltooling/conn.go:30-53 | prints the seven pairs, with the default for an empty sslmode |
| ConnPrinter.ConnectionStringReadsBackIff | internal/sqltooling/conn.go:29-53 | the parser reads a connection string as the seven printed pairs exactly when all fields are within the caps |
| ConnPrinter.FieldsAreFound | internal/sqltooling/conn.go:29-53 | within the caps host, database, user, password, port, sslmode (or disable) and client_encoding are each found under their key |
| ConnPrinter.PlainText | internal/sqltooling/conn.go:29-53 | the text for fields without quotes and backslashes, written out |
| ConnPrinter.DecimalIsFaithful | internal/sqltooling/conn.go:40-40 | a printed number, negative ones included, is read back |
| ConnPrinter.DigitsAreFaithful | internal/sqltooling/conn.go:40-40 | it has digits only and no leading zero |
| Scheduler.ScheduledIffLastEnabled | internal/scheduletooling/update.go:57-127 | after any run of ticks a job is scheduled exactly when its last configuration was fetched and enabled |
| Scheduler.TriggerMeaning | internal/scheduletooling/cfg.go:64-72 | a trigger follows the cron expression, and the interval exactly when there is none |
| Scheduler.FailedFetchIsRemembered | internal/scheduletooling/update.go:58-85 | a failed fetch is remembered as the zero configuration |
| Scheduler.TriggerFollowsIff | internal/scheduletooling/update.go:71-121 | from any state, a tick leaves the trigger right exactly when the job is new, its trigger is right already, or the interval changes alone |
| Scheduler.TriggerFollowsRunIff | internal/scheduletooling/update.go:57-127 | over a run the trigger matches the remembered configuration after every tick exactly when it does at the start and every change is one it keeps up with |
| Scheduler.FailedFetchHidesNewInterval | internal/scheduletooling/update.go:58-105 | a failed fetch between two intervals leaves the job running with the old one |
| Scheduler.Scheduler.Add | internal/scheduletooling/scheduletooling.go:38-62 | refuses unreadable or late jobs and drops disabled ones |
| Scheduler.Scheduler.Start | internal/scheduletooling/scheduletooling.go:65-128 | the collected jobs themselves become known and scheduled, the last one of each key, with their triggers unchanged and nothing remembered |
| Scheduler.LastOfKeysMeaning | internal/scheduletooling/scheduletooling.go:65-84 | every key of a collected job is there, with the last job collected under it |
| Scheduler.AddAndStart | internal/scheduletooling/scheduletooling.go:38-128 | a job that is added while enabled and then started is the one that is scheduled, with the trigger it was added with |
| Scheduler.Scheduler.Reconcile | internal/scheduletooling/update.go:57-127 | the tick's work for one job, leaving every other job alone |
| Scheduler.Scheduler.Tick | internal/scheduletooling/update.go:49-128 | after a tick, in any order of the jobs, each is scheduled exactly when its configuration was fetched and enabled |
| JobLatch.LatchHolds | internal/scheduletooling/job.go:60-103 | in every interleaving the counter is the number of running executions, within the maximum, without alarms, and every execution is accounted for |
| JobLatch.SkippedIffFull | internal/scheduletooling/job.go:63-79 | an execution is skipped exactly when the maximum is running |
| JobLatch.InProcessJob.Take | internal/scheduletooling/job.go:62-70 | the atomic update that takes the latch |
| JobLatch.InProcessJob.Release | internal/scheduletooling/job.go:80-100 | the atomic update that releases it and reports a non-positive counter |
| ErrorFields.VisitsAreLevels | internal/clouderr/clouderr.go:110-124 | the queue visits the tree level by level |
| ErrorFields.LevelsFollowOrder | internal/clouderr/clouderr.go:110-124 | a level lists the errors in the order of the errors that wrap them |
| ErrorFields.DeepestIsWritten | internal/clouderr/clouderr.go:105-124 | writing level by level leaves, per key, the field of the last carrier at the greatest depth |
| ErrorFields.UnwrapFields | internal/clouderr/clouderr.go:105-129 | terminates with exactly one field per key of the tree, the deepest one |
| ChatThreads.FindThreads | app/telegramsearch/internal/pkg/controllers/controllerv1/story_dump_chat_history.go:133-156 | computes the threads of the roots in input order |
| ChatThreads.KeptIffChain | app/telegramsearch/internal/pkg/controllers/controllerv1/story_dump_chat_history.go:138-154 | a message is kept exactly when its replies lead back through earlier messages to a thread starter |
| ChatThreads.ChainEndsInRoot | app/telegramsearch/internal/pkg/controllers/controllerv1/story_dump_chat_history.go:138-154 | with distinct ids the thread is the one the chain ends in |
| ChatThreads.LatestDecides | app/telegramsearch/internal/pkg/controllers/controllerv1/story_dump_chat_history.go:145-152 | even when ids repeat, an answer joins the thread of the latest earlier kept message with that id, and none without such a message |
| ChatThreads.RootsIncrease | app/telegramsearch/internal/pkg/controllers/controllerv1/story_dump_chat_history.go:139-144 | threads are listed once, in input order of their starters |
| ChatThreads.PositionsAreExact | app/telegramsearch/internal/pkg/controllers/controllerv1/story_dump_chat_history.go:133-156 | the positions of a thread increase and are exactly those of its messages |
| ChatThreads.ThreadHoldsItsMessages | app/telegramsearch/internal/pkg/controllers/controllerv1/story_dump_chat_history.go:133-156 | a thread holds the messages at its positions, in order |
| ChatThreads.ThreadOpensWithRoot | app/telegramsearch/internal/pkg/controllers/controllerv1/story_dump_chat_history.go:139-144 | a thread opens with its starter |
| ChatThreads.NothingLost | app/telegramsearch/internal/pkg/controllers/controllerv1/story_dump_chat_history.go:133-156 | messages in threads and skipped messages add up to the input |
| ChatThreads.LongIffAnswered | app/telegramsearch/internal/pkg/controllers/controllerv1/story_dump_chat_history.go:170-172 | a thread is longer than its starter exactly when a later message belongs to it |
| ChatThreads.ThreadsWithAnswers | app/telegramsearch/internal/pkg/controllers/controllerv1/story_dump_chat_history.go:159-178 | takes exactly the messages of type "message", in order, and returns the threads of exactly the starters that were answered, in order |
| SnakeCase.TwoPassesAreSnake | internal/logfmt/logfmt.go:191-257 | the two passes with trimming compute the one-pass definition of where separators stand |
| SnakeCase.ToSnakeCase | internal/logfmt/logfmt.go:191-257 | the loops compute that definition |
| SnakeCase.CamelCaseWords | internal/logfmt/logfmt.go:191-231 | where words end in a key of letters and digits: at every capital behind a small letter, and behind several capitals |
| SnakeCase.OthersEndWords | internal/logfmt/logfmt.go:218-257 | other characters end a word, however many there are, and are dropped at the ends |
| SnakeCase.LowerIsSmallLetter | internal/logfmt/logfmt.go:259-265 | capitals become the small letters at their place in the alphabet; small letters and digits stay |
| SnakeCase.SnakeCaseIsNormalForm | internal/logfmt/logfmt.go:189-257 | the result is in snake case, keeps letters and digits in order, leaves snake case alone, and is idempotent |

## Left out

- Locking, metrics, logging, configuration hashing and the reload loop of the rate limiters: each public call is one atomic step.
- RateLimitManager.Manager.Allow: the override answer of one call is a parameter.
- ManagerRuns.AtMostOneUncountedPerKey: is about override answers that stay constant per key and pattern, and about runs between two reloads, as a reload starts with unused limiters.
- PatternParser.FaithfulIffLeadingSlash: nothing is said about texts whose parse fails, beyond the error that is returned.
- ConnPrinter.FieldsAreFound: says nothing beyond the caps, where a value could be assigned again by text inside another field; the ordered list of assignments is exact in both directions instead.
- Delimiters other than ',' in the array parser: no caller in this file uses one.
- ConnString.Options.ParseOpts: does not model the replacement of invalid UTF-8 when a string becomes characters.
- `parseURL` and `parseDSN`: they rest on a URL library that is not part of this model.
- The underlying scheduler: a set of scheduled keys whose schedule and delete calls succeed; firing times are not modelled.
- Scheduler.Scheduler.Add: validation of configurations and of cron expressions happens inside the fetch, whose answer is a parameter.
- JobLatch.LatchHolds: the job body is one step between taking and releasing the latch.
- ErrorFields.UnwrapFields: returns the fields by key; the order of the resulting list is arbitrary in the code.
- ChatThreads.ThreadsWithAnswers: decoding of the export and rendering of threads are not modelled.
- The remaining rate limiters, database, HTTP, Telegram and migration code: they wrap libraries that are not part of this model.
