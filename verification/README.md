# A verified model of the Basic Next toolchain

This project models the parts of the Basic Next compiler, runtime and tools whose
promises quantify over every input or every run, and proves those promises:

- **Module loader** (`ModuleGraph`): the depth-first search over imports, as a class
  whose `Visit` updates the marks and the module list. A load succeeds exactly on the
  programs whose reachable files are good and acyclic, the graph is the post-order of
  the search, and every failure names a defect of a reachable file.
- **Calendar, text and time zones** (`Civil`, `Temporal`, `TimeGrammar`, `TimeZone`,
  `ZoneCalendar`): era arithmetic against day numbers defined by counting, the exact
  grammar of RFC 3339 text in both directions, the daylight rules against their intervals
  and by the calendar alone, and local time to UTC.
- **Front end** (`Lexer`, `LexerLayout`, `LexerRun`, `Classifier`, `ScannerAgreement`,
  `Brackets`, `Submission`, `SubmissionText`, `FrontendSession`): two scanners that agree,
  also on what they leave open, the two stacks of a submission against the grammar of
  balanced text, and the snapshot session over whole runs.
- **Text formats** (`CatalogFile`, `CatalogLines`, `Templates`, `Diagnostics`): the catalog
  file as an exact inverse and as anybody may write it, templates as simultaneous
  replacement, and rendering that cannot fail.
- **Runtime** (`Bits`, `Integers`, `Checksum`, `Cidr`, `NetHandles`, `DebugSession`):
  exact-or-trap integers, the Internet checksum, address prefixes, the socket quota and
  the debugger's two-thread protocol.

Code that the repository writes as loops over mutable state is a method or a class
here, specified by a function of its inputs or of the old state; the lemmas are about
those functions. Foreign answers (files, sockets, the parser's verdict) are parameters.

## Results that differ from what one would expect

Each of these is proved, with the exact condition or a concrete input.

- The era formula of `civil_from_days` gives the Gregorian date of a 32-bit day number
  exactly from 0000-03-01 on, and before it on one day in each 400-year era, the last;
  every other earlier day is read a day late within its March-based year
  (`Civil.EraFormulaIsExact`, against the calendar of `Civil.GregorianIsCalendar`). So
  0000-02-28 and 0000-02-29 both read as 0000-02-29 (`Civil.EraFormulaLeavesCalendar`).
  The range test is still exact on every 32-bit day number (`Civil.InRangeIsExact`).
- The southern daylight rules answer false for all of UTC year 9999, whose interval
  would end in year 10000, and in year 1 they count the tail of an interval that would
  have begun in year 0 (`TimeZone.SouthernExact`). The Brazilian rule is cut at the
  start of UTC year 2019, in the middle of an interval (`TimeZone.BrazilIsCut`).
- Text made for an instant outside the civil range whose local time lies inside it does
  not parse back; all other zone text does (`TimeZone.ZoneTextRoundTrip`).
- A catalog value round-trips exactly when it is not empty and does not end in white
  space that no escape covers (`CatalogFile.LineRoundTrip`).
- The stale set is not always closed under importers. An upsert keeps it closed exactly
  when its source imports nothing that is, or by this change becomes, stale; registering
  an import keeps it closed unless the imported source is stale and the importer is not;
  cancelling and removing always do (`FrontendSession.ClosureIsKept`). Four calls on an
  empty session lead to a state that an upsert breaks (`FrontendSession.ClosureCanBreak`).
- A request issued at the saturated revision can be accepted for another text, and a
  rejected one can be accepted again; below saturation neither happens
  (`FrontendSession.AcceptedOnlyForItsSnapshot`, `FrontendSession.RejectedForGood`).
- `SHR` of a negative number by 0 traps, because the logical pattern does not fit the
  signed type (`Integers.RightShiftIsLogical`); `NOT` traps on every unsigned value and
  unary minus on every unsigned value but 0 (`Integers.UnaryExact`).
- `Cidr::contains` subtracts a prefix length past 32 from 32 when an IPv6 prefix meets an
  IPv4 address. The model gives no answer exactly there (`Cidr.ContainsIsInterval`); a
  build without overflow checks answers false, one with them panics. The 32-bit sum of the
  checksum is modelled as a build without overflow checks computes it.
- A changed word of a correct packet escapes the Internet checksum exactly when it moved
  between 0 and 65535 and the changed packet is not all zero (`Checksum.ChangeIsDetected`).

## Model

| member | source | states |
|---|---|---|
| `ModuleGraph.Load` | crates/bn_frontend/src/module_graph.rs:163-187 | A load succeeds if and only if every file reachable from the entry is good, no reachable import closes a cycle and the files fit 32-bit ids; then ids are positions, imports have smaller ids, paths are distinct, the root is last, the modules are exactly the reachable files in depth-first post-order; a failure names a defect of a reachable file and, short of the id limit, the first that the search meets |
| `ModuleGraph.Loader.constructor` | crates/bn_frontend/src/module_graph.rs:173-180 | A loader starts with no marks and no modules |
| `ModuleGraph.Loader.Visit` | crates/bn_frontend/src/module_graph.rs:303-390 | One visit keeps the invariant of marks, modules and the chain being visited, appends exactly the post-order of what was unvisited, returns the id of its path, terminates on every graph, and fails only with a true defect |
| `ModuleGraph.Loader.VisitImports` | crates/bn_frontend/src/module_graph.rs:348-367 | The import loop yields one id per followed import, in file order, each an already finished module at the path the import resolves to |
| `ModuleGraph.VisitingClosesCycle` | crates/bn_frontend/src/module_graph.rs:323-336 | A file met again while Visiting lies on a real cycle through its importer, so a cycle report is never false |
| `ModuleGraph.DefectRefutes` | crates/bn_frontend/src/module_graph.rs:303-390 | Every reported defect shows that the program could not load |
| `ModuleGraph.GraphIsLoadable` | crates/bn_frontend/src/module_graph.rs:303-390 | A graph with the promised shape exists only for an acyclic program of good files |
| `ModuleGraph.EdgeGoesDown` | crates/bn_frontend/src/module_graph.rs:363-389 | An import edge leads to a module with a smaller id: ids are a topological order |
| `ModuleGraph.ReachedIsLoaded` | crates/bn_frontend/src/module_graph.rs:303-390 | Whatever can be reached from a loaded module is itself loaded, with an id no larger |
| `ModuleGraph.FullGraphIsDefect` | crates/bn_frontend/src/module_graph.rs:369-376 | Running out of 32-bit ids means that more files than ids are reachable |
| `ModuleGraph.OneFailure` | crates/bn_frontend/src/module_graph.rs:303-390 | The defect that the search meets first, after imports that are settled, is one: the error of a failed load is determined |
| `ModuleGraph.FailingIsUnsettled` | crates/bn_frontend/src/module_graph.rs:303-390 | A file on which the search fails reaches a bad file or a cycle, so no import passed before could have failed |
| `ModuleGraph.LoadedIsSettled` | crates/bn_frontend/src/module_graph.rs:323-325 | A module that is loaded has only good files and no cycle below it |
| `ModuleGraph.FollowedAre` | crates/bn_frontend/src/module_graph.rs:350-362 | Exactly the imports that do not begin with `HOST` are followed |
| `Civil.DateRoundTrip` | crates/bn_core_text/src/civil.rs:74-112 | Every date of years 1 to 9999 comes back from its day number |
| `Civil.DayRoundTrip` | crates/bn_core_text/src/civil.rs:74-112 | Every day number of the range is an existing date whose day number it is |
| `Civil.SuccessorIsNextDay` | crates/bn_core_text/src/civil.rs:74-93 | One more day is the Gregorian successor date, leap years included |
| `Civil.NextDayIsSuccessor` | crates/bn_core_text/src/civil.rs:98-112 | The successor date has the next day number |
| `Civil.DayNumberOrders` | crates/bn_core_text/src/civil.rs:74-93 | A later day is a later date |
| `Civil.DatesOrderDays` | crates/bn_core_text/src/civil.rs:98-112 | A later date has a larger day number |
| `Civil.YearOfEraFinds` | crates/bn_core_text/src/civil.rs:74-93 | The division formula finds the year that a day of the 400-year era lies in, for all 146097 days |
| `Civil.InRangeIsExact` | crates/bn_core_text/src/civil.rs:68-70 | On every 32-bit day number the range test accepts exactly 0001-01-01 to 9999-12-31 |
| `Civil.GregorianIsCalendar` | crates/bn_core_text/src/civil.rs:74-93 | The calendar to compare with: with the era rounded down alone, day 0 is 1970-01-01 and each next day the successor date, leap years included, over all 32-bit day numbers |
| `Civil.EraFormulaIsExact` | crates/bn_core_text/src/civil.rs:74-93 | On every 32-bit day number the code's date is the Gregorian one if and only if the day is 0000-03-01 or later, or the last of its 400-year era |
| `Civil.EraFormulaLeavesCalendar` | crates/bn_core_text/src/civil.rs:74-93 | An instance: 0000-02-28 is read as the next day, which is read rightly |
| `Civil.YearOfDay` | crates/bn_core_text/src/civil.rs:74-93 | A day belongs to a year exactly when it lies from that new year to before the next |
| `Civil.MidYear` | crates/bn_core_text/src/civil.rs:98-112 | Dates from February to November lie at least a month inside their year |
| `Civil.DayNumberCounts` | crates/bn_core_text/src/civil.rs:98-112 | The day number of a date is the number of days since 0001-01-01, counted year by year, month by month and day by day |
| `Civil.NoOtherDateHasDay` | crates/bn_core_text/src/civil.rs:98-122 | A year, month and day give a day number if and only if the number their formula yields is in range and reads back as them |
| `Civil.SomeDates` | crates/bn_core_text/src/civil.rs:98-122 | Instances: 2023-02-29, 1900-02-29, 2024-04-31, a month 13 and a day 0 give none; 2000-02-29 and 2024-02-29 do |
| `Temporal.SplitIsExact` | crates/bn_core_text/src/civil.rs:59-64 | A timestamp splits into a day and a time exactly in years 1 to 9999 |
| `Temporal.JoinIsExact` | crates/bn_core_text/src/civil.rs:49-64 | Day and time join to the timestamp they are split from, without overflow for 32-bit values, a negative time counting as midnight |
| `Temporal.DateTextParses` | crates/bn_core_text/src/temporal.rs:13-22 | The ten characters written for a date read back as that date |
| `Temporal.FormatTimeParses` | crates/bn_core_text/src/temporal.rs:34-72 | The twelve characters written for a time of day read back as it, with and without required milliseconds |
| `Temporal.SplitOffsetSigned` | crates/bn_core_text/src/temporal.rs:96-116 | A signed hour and minute suffix is cut off and read as its signed offset |
| `Temporal.SplitOffsetZ` | crates/bn_core_text/src/temporal.rs:96-116 | A `Z` suffix is cut off and read as offset 0 |
| `Temporal.DigitsParseExactly` | crates/bn_core_text/src/temporal.rs:118-123 | A text parses to a number if and only if the number fits 64 bits and the text is its decimal digits padded with zeros to whatever width |
| `Temporal.TextParses` | crates/bn_core_text/src/temporal.rs:76-94 | A date, time and offset parse to the instant they name, and to nothing exactly when it leaves the civil range |
| `Temporal.Rfc3339RoundTrip` | crates/bn_core_text/src/civil.rs:42-45 | Exactly the timestamps of the civil range have RFC 3339 text, and it reads back as the timestamp |
| `Temporal.ParsedIsCanonical` | crates/bn_core_text/src/temporal.rs:76-94 | Every accepted text has a canonical form that parses to the same instant |
| `TimeGrammar.FractionExact` | crates/bn_core_text/src/temporal.rs:45-70 | A fraction of any length is accepted if and only if it names whole milliseconds, and is read as them: `0.5` as 500 |
| `TimeGrammar.TimeExact` | crates/bn_core_text/src/temporal.rs:34-72 | A text is a time, in either mode, if and only if it is two digits each of hour, minute and second in range and then nothing or a point and such a fraction, of three digits in the strict mode; it reads as the milliseconds it shows |
| `TimeGrammar.ClockParses` | crates/bn_core_text/src/temporal.rs:34-72 | Every such text parses exactly when its fraction names whole milliseconds |
| `TimeGrammar.YmdExact` | crates/bn_core_text/src/temporal.rs:13-22 | A text reads as a date if and only if it is four, two and two digits with dashes |
| `TimeGrammar.SuffixSplits` | crates/bn_core_text/src/temporal.rs:96-116 | `Z` and every signed offset in range are cut off and read |
| `TimeGrammar.SplitIsSuffix` | crates/bn_core_text/src/temporal.rs:96-116 | Nothing else is cut off as an offset |
| `TimeGrammar.Rfc3339Exact` | crates/bn_core_text/src/temporal.rs:76-94 | A text parses to an instant if and only if it is an existing date, `T`, such a time and an offset that together name that instant, and the instant lies in years 1 to 9999 |
| `TimeGrammar.CanonicalText` | crates/bn_core_text/src/civil.rs:42-45 | The text written for an instant is such a text with three digits of milliseconds and `Z` |
| `TimeZone.NthSundayIs` | crates/bn_core_text/src/timezone.rs:538-543 | The n-th Sunday is a Sunday in the n-th week of an existing month |
| `TimeZone.LastSundayIs` | crates/bn_core_text/src/timezone.rs:546-557 | The last Sunday is a Sunday in the last seven days of the month |
| `TimeZone.TransitionsInYear` | crates/bn_core_text/src/timezone.rs:579-721 | Both transitions of a rule exist and fall inside their UTC year, for every zone offset |
| `TimeZone.NorthernExact` | crates/bn_core_text/src/timezone.rs:579-619 | In the northern zones daylight time holds exactly in the interval from start to end of one year, over the whole range |
| `TimeZone.SouthernExact` | crates/bn_core_text/src/timezone.rs:621-721 | The per-year southern test equals membership of an interval from one year's start to the next year's end, with no seam at the new year, except in years 1 and 9999 as stated |
| `TimeZone.AustralasiaExact` | crates/bn_core_text/src/timezone.rs:655-721 | The same for the Australian and New Zealand rules as dispatched from a zone |
| `TimeZone.BrazilExact` | crates/bn_core_text/src/timezone.rs:621-653 | The Brazilian rule is the southern one, and false from UTC year 2019 on |
| `TimeZone.BrazilIsCut` | crates/bn_core_text/src/timezone.rs:621-624 | The cut falls inside an interval: the last millisecond of 2018 is daylight time, the next is not |
| `ZoneCalendar.WeekdayZeroIsSunday` | crates/bn_core_text/src/timezone.rs:532-535 | Weekday 0 falls on day 3, Sunday 1970-01-04, and on every seventh day from it |
| `ZoneCalendar.SundayIn` | crates/bn_core_text/src/timezone.rs:538-557 | Any seven days in a row of a month have exactly one Sunday |
| `ZoneCalendar.UsCanadaByCalendar` | crates/bn_core_text/src/timezone.rs:579-599 | Daylight time runs from standard 02:00 on the Sunday of March 8 to 14 to summer 02:00 on the Sunday of November 1 to 7 |
| `ZoneCalendar.EuUkByCalendar` | crates/bn_core_text/src/timezone.rs:601-619 | It runs from 01:00 UTC on the Sunday of March 25 to 31 to 01:00 UTC on the Sunday of October 25 to 31 |
| `ZoneCalendar.BrazilByCalendar` | crates/bn_core_text/src/timezone.rs:621-653 | Through UTC year 2018 it runs except from 02:00 UTC on the Sunday of February 15 to 21 to 03:00 UTC on the Sunday of October 15 to 21 |
| `ZoneCalendar.AuEastByCalendar` | crates/bn_core_text/src/timezone.rs:655-687 | It runs except from summer 03:00 on the Sunday of April 1 to 7 to standard 02:00 on the Sunday of October 1 to 7, and not in UTC year 9999 |
| `ZoneCalendar.NzByCalendar` | crates/bn_core_text/src/timezone.rs:689-721 | The same, starting on the Sunday of September 24 to 30 |
| `ZoneCalendar.OtherwiseStandard` | crates/bn_core_text/src/timezone.rs:723-736 | Without a rule, and outside the civil range, the clock never changes |
| `TimeZone.ZoneTextRoundTrip` | crates/bn_core_text/src/timezone.rs:740-758 | For every 64-bit timestamp and known zone there is text exactly when the local time is in range, and it parses to the timestamp exactly when that is in range |
| `ZoneCalendar.ZoneTextShowsLocalTime` | crates/bn_core_text/src/timezone.rs:740-758 | The text of an instant shows the date and time of the zone's clock, then `Z` at offset 0 and otherwise the signed offset |
| `TimeZone.LocalToUtc` | crates/bn_core_text/src/timezone.rs:762-785 | The returned instant reads as the given local time whenever one does; in an overlap it is the standard-time one, in a gap local time minus the standard offset |
| `TimeZone.NoDstAtEnd` | crates/bn_core_text/src/timezone.rs:723-736 | No daylight time in the last day of the range, so the conversion needs no exception there |
| `FrontendSession.Session.constructor` | crates/bn_frontend/src/frontend_session.rs:18-29 | A session starts empty |
| `FrontendSession.Session.InvalidateFrom` | crates/bn_frontend/src/frontend_session.rs:124-134 | The queue loop ends on every import graph, cycles included, and adds exactly the sources reachable through importers that were not stale |
| `FrontendSession.Session.UpsertSource` | crates/bn_frontend/src/frontend_session.rs:30-49 | A new snapshot gets the next revision of its source and the importers of a replaced one go stale; the whole new state is stated |
| `FrontendSession.Session.UpsertIfChanged` | crates/bn_frontend/src/frontend_session.rs:57-68 | An equal text changes nothing and returns the current snapshot; the result always is the snapshot now stored, with the given text |
| `FrontendSession.Session.RegisterImport` | crates/bn_frontend/src/frontend_session.rs:70-75 | One importer is added to one source |
| `FrontendSession.Session.RequestAnalysis` | crates/bn_frontend/src/frontend_session.rs:78-92 | An issued request is at once acceptable and gives the current snapshot |
| `FrontendSession.Session.Cancel` | crates/bn_frontend/src/frontend_session.rs:102-112 | Cancelling takes effect exactly for an acceptable request |
| `FrontendSession.Session.RemoveSource` | crates/bn_frontend/src/frontend_session.rs:116-122 | Removing returns the stored snapshot, keeps the revision counter and makes the importers stale |
| `FrontendSession.Reached` | crates/bn_frontend/src/frontend_session.rs:124-134 | The set an invalidation adds is the set of ends of importer paths that avoid stale sources |
| `FrontendSession.ChangeReachesEveryImporter` | crates/bn_frontend/src/frontend_session.rs:30-49 | If the rest of the stale set was closed, a replaced source ends fresh, every transitive importer ends stale and nothing else becomes stale |
| `FrontendSession.ClosureIsKept` | crates/bn_frontend/src/frontend_session.rs:30-134 | A closed stale set stays closed under an operation if and only if a condition the caller can read before the call holds, for each of the five operations |
| `FrontendSession.UpsertKeepsClosed` | crates/bn_frontend/src/frontend_session.rs:30-49 | For an upsert the condition is that its source imports no source that is stale or, when an existing one changes, imports it |
| `FrontendSession.ClosureCanBreak` | crates/bn_frontend/src/frontend_session.rs:30-134 | The condition can fail: two upserts, a registered import and a cancellation lead to a closed stale set that re-reading the importer breaks |
| `FrontendSession.RunKeepsConsistent` | crates/bn_frontend/src/frontend_session.rs:30-134 | Over whole runs snapshots carry their counters' revisions and no revision decreases, even across removal |
| `FrontendSession.UpsertRaises` | crates/bn_frontend/src/frontend_session.rs:30-49 | Every new snapshot raises its source's revision until the counter saturates, and its request is accepted |
| `FrontendSession.ChangeRejectsImporters` | crates/bn_frontend/src/frontend_session.rs:30-134 | When a source is replaced, cancelled or removed and the other stale sources were closed, the requests of exactly its transitive importers are rejected, at any revision, and none is issued for them; all other sources are as before, and a cancelled or removed source is rejected |
| `FrontendSession.RemovingStaleChangesNothing` | crates/bn_frontend/src/frontend_session.rs:116-134 | Removing a source that is already stale rejects its own requests alone |
| `FrontendSession.OthersKeepTheirRequests` | crates/bn_frontend/src/frontend_session.rs:57-122 | An operation that changes no stored source leaves every source it does not read alone |
| `FrontendSession.StaleUntilReread` | crates/bn_frontend/src/frontend_session.rs:78-134 | Over every run a stale source is neither accepted nor issued until it is read again |
| `FrontendSession.ImportersWaitToBeReread` | crates/bn_frontend/src/frontend_session.rs:30-134 | Over every run an importer of a changed source is rejected until it is read again |
| `FrontendSession.RegisteredImportCounts` | crates/bn_frontend/src/frontend_session.rs:70-75 | A registered import counts from then on, with those before it |
| `FrontendSession.OnlyNewTextIsUpserted` | crates/bn_frontend/src/frontend_session.rs:57-68 | Entering a text changes nothing exactly when the source has it already, and is an upsert otherwise |
| `FrontendSession.NewSourceIsNew` | crates/bn_frontend/src/frontend_session.rs:30-35 | Below saturation a source made without an identifier gets one that no such source had before |
| `FrontendSession.AcceptedOnlyForItsSnapshot` | crates/bn_frontend/src/frontend_session.rs:78-92 | An accepted request gives the snapshot it was issued for in every later state if and only if its revision is below saturation |
| `FrontendSession.RejectedForGood` | crates/bn_frontend/src/frontend_session.rs:87-92 | A rejected request stays rejected in every later state if and only if its revision is below saturation |
| `Lexer.SymbolIsSpelled` | crates/bn_frontend/src/lexer.rs:257-327 | The symbol found is spelled in the text and as wide as its spelling |
| `Lexer.SymbolIsLongest` | crates/bn_frontend/src/lexer.rs:257-327 | A symbol is found wherever any is spelled, and every other one spelled there is shorter |
| `Lexer.TokensInOrder` | crates/bn_frontend/src/lexer.rs:40-71 | Lexed tokens follow the text in order without overlap and end in an end of file after a line break |
| `LexerLayout.TextIsTokens` | crates/bn_frontend/src/lexer.rs:40-71 | Between the tokens of an accepted source lie only blanks, the first half of line breaks, and comments |
| `LexerLayout.CommentIs` | crates/bn_frontend/src/lexer.rs:133-162 | A block comment ends at its first end mark, holds no other start mark, and gives one token for each of its line breaks |
| `LexerLayout.LiteralIsSpelled` | crates/bn_frontend/src/lexer.rs:163-209 | An accepted string literal is the spelling of its value, which holds no control character |
| `LexerLayout.SpelledLexes` | crates/bn_frontend/src/lexer.rs:163-209 | Every value without control characters is read back from its spelling, wherever it stands |
| `LexerLayout.StringsFail` | crates/bn_frontend/src/lexer.rs:163-209 | After any characters a string may hold it fails, each with its own error, at a line break, another control character, a backslash that escapes neither itself nor a quote, and the end of the text |
| `LexerLayout.NumbersAre` | crates/bn_frontend/src/lexer.rs:210-241 | A number is well formed if and only if it is `0b` or `0x` with digits of its base, decimal digits, or decimal digits, a point and decimal digits; only the last has a point |
| `LexerLayout.LiteralKinds` | crates/bn_frontend/src/lexer.rs:210-256 | A run of number characters is an integer, a float or an error by that form, and a word is special, a keyword or an identifier by the word lists, in that order |
| `LexerLayout.StepsFail` | crates/bn_frontend/src/lexer.rs:40-62 | A lone carriage return, a point before a digit and a character that starts nothing are each refused with their own error |
| `SourceText.RunsAre` | crates/bn_frontend/src/lexer.rs:329-334 | The characters of words, numbers, blanks and comments, among ASCII |
| `Lexer.SymbolChars` | crates/bn_frontend/src/lexer.rs:257-327 | An operator is one to three symbol characters and never starts a comment |
| `LexerRun.LexerObject.Advance` | crates/bn_frontend/src/lexer.rs:105-110 | Advancing returns the character passed, none at the end, and keeps line and column equal to those counted from the text unless that character is a line feed, which the caller counts |
| `LexerRun.LexerObject.PushToken` | crates/bn_frontend/src/lexer.rs:111-116 | A pushed token of any kind spans from its start to where the lexer stands |
| `LexerRun.LexerObject.NewlineToken` | crates/bn_frontend/src/lexer.rs:117-124 | A line end gives one token and moves to the next line's first column |
| `LexerRun.LexerObject.SkipWhile` | crates/bn_frontend/src/lexer.rs:125-132 | Skipping stops at the first character that fails the test |
| `LexerRun.LexerObject.BlockComment` | crates/bn_frontend/src/lexer.rs:133-162 | A block comment ends, or fails as nested, unterminated or with a bare return, where the specification says, keeping its line ends as tokens |
| `LexerRun.LexerObject.StringToken` | crates/bn_frontend/src/lexer.rs:163-209 | A string ends at its first unescaped quote and carries its unescaped value, or fails where the specification says |
| `LexerRun.LexerObject.NumberToken` | crates/bn_frontend/src/lexer.rs:210-241 | A number token spans the run of number characters and is kept only when well formed |
| `LexerRun.LexerObject.WordToken` | crates/bn_frontend/src/lexer.rs:242-256 | A word spans the maximal run of word characters |
| `LexerRun.LexerObject.SymbolToken` | crates/bn_frontend/src/lexer.rs:257-327 | An operator token has the width of the operator found, and an unknown character is an error |
| `LexerRun.LexerObject.Step` | crates/bn_frontend/src/lexer.rs:40-62 | One turn of the main loop does what one step of the specification does |
| `LexerRun.LexerObject.Run` | crates/bn_frontend/src/lexer.rs:40-71 | The lexer object, with its mutable offset, line and column, yields exactly the tokens of the specification at the positions counted from the text, or its error |
| `Classifier.ScanClassifiedTokens` | crates/bn_frontend/src/session.rs:521-751 | The classifying loop yields the specified tokens and what was left open |
| `Classifier.NextStep` | crates/bn_frontend/src/session.rs:521-751 | One turn of the loop consumes at least one character and stays in the text |
| `Classifier.TokensTile` | crates/bn_frontend/src/session.rs:521-751 | On every source the classified tokens are contiguous and their texts concatenate to the source |
| `Classifier.KindsAre` | crates/bn_frontend/src/session.rs:521-751 | The kind of a classified token says how its text starts, and for operators and symbols which character it is |
| `ScannerAgreement.ScannersAgree` | crates/bn_frontend/src/session.rs:521-751 | On every source the lexer accepts both scanners mark the same words, numbers and strings at the same offsets, lines and columns, in both directions, and the classifier leaves nothing open |
| `ScannerAgreement.StepsAgree` | crates/bn_frontend/src/lexer.rs:40-62 | Whatever one lexer step consumes, the classifier crosses with the same marks |
| `ScannerAgreement.CommentsAgree` | crates/bn_frontend/src/lexer.rs:133-162 | Where the lexer ends a block comment the classifier closes it |
| `ScannerAgreement.StringsAgree` | crates/bn_frontend/src/lexer.rs:163-209 | Where the lexer ends a string the classifier closes it |
| `ScannerAgreement.ScannersAgreeOnOpen` | crates/bn_frontend/src/session.rs:99-133 | When the lexer fails because a string or comment runs to the end of the text, the classifier has reported just that, so the fallback on the lexer's error never decides |
| `Brackets.MatchIsUnclosed` | crates/bn_frontend/src/session.rs:148-205 | The stack left by the matching pass is exactly the sequence of openers that no closer matches, by the grammar of balanced text |
| `Brackets.MatchIffCompletable` | crates/bn_frontend/src/session.rs:148-205 | A mismatch is reported exactly when no continuation could balance the text |
| `Brackets.ClosersBalance` | crates/bn_frontend/src/session.rs:148-205 | Closing the left-over openers, innermost first, balances the text |
| `Submission.DelimiterPass` | crates/bn_frontend/src/session.rs:148-205 | The delimiter loop is the matching of the parentheses and brackets of the tokens |
| `Submission.BlockPass` | crates/bn_frontend/src/session.rs:207-377 | The block loop is the matching of block openers and `END` terminators, although it skips two tokens at a terminator |
| `Submission.IsBlockIf` | crates/bn_frontend/src/session.rs:291-311 | The look-ahead holds exactly when the line's first `THEN` ends the line |
| `Submission.ThenEndsLine` | crates/bn_frontend/src/session.rs:291-311 | The condition of a block `IF`, by positions in the line |
| `Submission.TerminatorOpensNothing` | crates/bn_frontend/src/session.rs:317-350 | The keyword after `END` opens no block, so skipping it loses nothing |
| `Submission.OpenersAre` | crates/bn_frontend/src/session.rs:213-316 | Each block keyword opens its block except after `END`, `EXIT`, `CONTINUE` or `ELSE` as the case is, and `IF` only when its line's first `THEN` ends the line |
| `Submission.ClosersAre` | crates/bn_frontend/src/session.rs:317-331 | A block is closed by `END` and its own keyword |
| `Submission.DelimitersAre` | crates/bn_frontend/src/session.rs:148-205 | Parentheses and brackets are the delimiters |
| `Submission.ContinuationsAre` | crates/bn_frontend/src/session.rs:389-424 | A submission goes on after every symbol but a delimiter, a point, a colon and an increment or decrement, and after the eight joining keywords |
| `Submission.ReasonsAre` | crates/bn_frontend/src/session.rs:381-427 | What is open is listed as delimiters, then blocks, each outermost first, then the continuation |
| `Submission.Classify` | crates/bn_frontend/src/session.rs:139-436 | On lexed tokens the verdict is justified by the grammars: `Complete` implies balanced delimiters and every terminator closing the innermost block, `Incomplete` lists exactly what is open, `Invalid` means no continuation helps or the tokens do not parse |
| `SubmissionText.ClassifySubmission` | crates/bn_frontend/src/session.rs:99-436 | On a source text: if it lexes, the verdict is the one justified on its own tokens; an open string or comment makes it incomplete for that reason; any other lexical error makes it invalid unless the classifier found something open |
| `SubmissionText.TokensAre` | crates/bn_frontend/src/session.rs:99-147 | The passes see keywords by their text and symbols by what they are |
| `Submission.VerdictIsUnique` | crates/bn_frontend/src/session.rs:99-436 | On tokens with something to run only one verdict is justified |
| `Submission.TrimNewlines` | crates/bn_frontend/src/session.rs:507-517 | The kept slice drops only line and file ends, and all of them at its edges |
| `CatalogFile.UnescapeText` | crates/bn_catalog/src/entry_format.rs:45-67 | The unescaping loop is the specified reading, errors included |
| `CatalogFile.EscapeText` | crates/bn_catalog/src/entry_format.rs:86-108 | The escaping loop and its treatment of outer spaces are the specified writing |
| `CatalogFile.EscapeRoundTrip` | crates/bn_catalog/src/entry_format.rs:45-108 | Unescaping an escaped value gives it back, for every string |
| `CatalogFile.EscapeShape` | crates/bn_catalog/src/entry_format.rs:86-108 | An escaped value is its inner text between one `\s` for every outer space |
| `CatalogFile.Parse` | crates/bn_catalog/src/entry_format.rs:21-37 | The parsing loop yields the entries of the lines in order, or the first error |
| `CatalogFile.LineRoundTrip` | crates/bn_catalog/src/entry_format.rs:21-108 | A written line reads back as its entry if and only if the value is not empty and ends in no uncovered white space |
| `CatalogFile.FileRoundTrip` | crates/bn_catalog/src/entry_format.rs:21-108 | A file written from any list of entries with proper keys parses to exactly that list if and only if the format can hold every value |
| `CatalogLines.LinesAre` | crates/bn_catalog/src/entry_format.rs:21-23 | A line ends at a line feed, with or without a carriage return before it, or at the end |
| `CatalogLines.SkippedExactly` | crates/bn_catalog/src/entry_format.rs:24-28 | A line is skipped if and only if it is blank or its first character past the indent is `#` |
| `CatalogLines.PartsParse` | crates/bn_catalog/src/entry_format.rs:24-37 | An indented key, blanks, the separator and a text give the key and the text unescaped, or the error of its first bad escape |
| `CatalogLines.LineIsParts` | crates/bn_catalog/src/entry_format.rs:24-37 | Every line that is not skipped or refused for want of a separator is made of such parts |
| `CatalogLines.FileIsItsLines` | crates/bn_catalog/src/entry_format.rs:21-37 | A file parses if and only if every line does, to their entries in order, and otherwise fails with the error of the first bad line |
| `CatalogLines.EscapesAre` | crates/bn_catalog/src/entry_format.rs:45-98 | The escapes letter by letter |
| `CatalogLines.BadEscapesFail` | crates/bn_catalog/src/entry_format.rs:45-67 | Any other escaped character, and a backslash before nothing, is its own error |
| `Templates.Substitute` | crates/bn_diag/src/lib.rs:916-935 | The in-place edit loop, which moves its cursor past inserted text, ends and equals the expansion of the original pattern |
| `Templates.PiecesSpell` | crates/bn_diag/src/lib.rs:916-935 | The pieces of a pattern spell it and are in normal form |
| `Templates.SpellPieces` | crates/bn_diag/src/lib.rs:916-935 | Normal-form pieces are the only ones of the pattern they spell |
| `Templates.ExpandIsSimultaneous` | crates/bn_diag/src/lib.rs:916-935 | Substitution succeeds exactly when the pattern is closed and every argument is given, and is then the simultaneous replacement of the pattern's own arguments |
| `Templates.PatternArguments` | crates/bn_diag/src/lib.rs:699-712 | The listed arguments are those of the pattern's pieces, in order, and an error means an unclosed one |
| `Templates.ShownValues` | crates/bn_diag/src/lib.rs:317-326 | Texts show themselves, Booleans their names, numbers their digits without leading zeros, behind a minus sign when negative |
| `Templates.LookupIsFirst` | crates/bn_diag/src/lib.rs:916-935 | The value under a name is that of the first argument with it |
| `Diagnostics.ValidateCatalogEntry` | crates/bn_diag/src/lib.rs:678-697 | An entry passes exactly when all its patterns are closed and name only schema arguments |
| `Diagnostics.ValidatePattern` | crates/bn_diag/src/lib.rs:678-697 | The same for one pattern |
| `Diagnostics.ValidateArguments` | crates/bn_diag/src/lib.rs:747-775 | Arguments pass exactly when names are distinct, all of the schema's are given and kinds agree; a reported error is true |
| `Diagnostics.ArgumentsMatchSchema` | crates/bn_diag/src/lib.rs:747-775 | For a schema without repeats: as many arguments as it lists, each listed name given with its kind |
| `Diagnostics.ValidPatternIs` | crates/bn_diag/src/lib.rs:678-712 | A pattern is valid exactly when it is spelled by pieces whose arguments are all of the schema |
| `Diagnostics.ValidEntryIs` | crates/bn_diag/src/lib.rs:678-697 | An entry is valid exactly when title, message, causes, help and label texts are |
| `Diagnostics.FillSucceeds` | crates/bn_diag/src/lib.rs:678-775 | A valid pattern with valid arguments is filled, never refused |
| `Diagnostics.RenderIsTotal` | crates/bn_diag/src/lib.rs:584-630 | With a loaded catalog rendering fails exactly for invalid arguments; otherwise every text is the replacement of its own pattern and explicit label texts win |
| `Diagnostics.RenderedLabels` | crates/bn_diag/src/lib.rs:603-621 | A label keeps its place and style, and its own text before that of its entry for its style |
| `Diagnostics.FilledIs` | crates/bn_diag/src/lib.rs:916-935 | A filled pattern is its pieces in order with every argument shown in place |
| `Diagnostics.LoadEntries` | crates/bn_diag/src/lib.rs:545-566 | Loading accepts exactly the entry lists that are valid, free of repeated identifiers and codes, and complete; then every known identifier has its valid entry |
| `Diagnostics.CodesAreDistinct` | crates/bn_diag/src/lib.rs:557-561 | The code check holds exactly when no two entries share a code |
| `Diagnostics.LoadOverlay` | crates/bn_diag/src/lib.rs:505-535 | An overlay is accepted exactly when its entries are valid and none repeats an identifier, across all shards |
| `Diagnostics.OverlayKeepsLoaded` | crates/bn_diag/src/lib.rs:505-535 | An accepted overlay replaces exactly the entries it names, leaves the others, and keeps the catalog able to render everything |
| `DebugSession.Session.ControlCallback` | crates/bn_dap/src/lib.rs:307-378 | The callback's first lock-held section, with its new state and whether it waits |
| `DebugSession.Session.TestWait` | crates/bn_dap/src/lib.rs:368-378 | One test of the wait condition decides between waiting, terminating and running |
| `DebugSession.Session.ResumeSession` | crates/bn_dap/src/lib.rs:392-402 | Resuming arms the step, clears the pause and queues one `continued` |
| `DebugSession.Session.PauseSession` | crates/bn_dap/src/lib.rs:412-418 | A pause request only sets its flag |
| `DebugSession.Session.TerminateSession` | crates/bn_dap/src/lib.rs:420-427 | Terminating sets its flag and clears the pause |
| `DebugSession.Session.Drain` | crates/bn_dap/src/lib.rs:77-83 | The event thread takes all queued events in order and leaves none |
| `DebugSession.ActKeepsSafe` | crates/bn_dap/src/lib.rs:307-427 | Every action of either thread keeps the safety invariant |
| `DebugSession.PauseIsSafe` | crates/bn_dap/src/lib.rs:307-427 | In every interleaving no instruction runs while paused, and two `stopped` events always have a `continued` between them |
| `DebugSession.PauseIsHonoured` | crates/bn_dap/src/lib.rs:337-378 | A pause request is never lost: the next callback stops and says so |
| `DebugSession.OnlyResumeReleases` | crates/bn_dap/src/lib.rs:368-402 | A waiting program runs on only after a resume |
| `DebugSession.TerminateIsFinal` | crates/bn_dap/src/lib.rs:368-427 | After a terminate request every callback, waiting or new, ends the program |
| `DebugSession.StepEndsAtDepth` | crates/bn_dap/src/lib.rs:338-364 | Stepping over or out runs through all deeper calls without a stop and stops at the first instruction back at its depth |
| `DebugSession.BreakpointStops` | crates/bn_dap/src/lib.rs:331-378 | A breakpoint stops every running program that is not terminated, and says `breakpoint` before any other reason |
| `DebugSession.CallbackStops` | crates/bn_dap/src/lib.rs:337-378 | Off breakpoints a callback stops if and only if a pause is pending, the entry is to be stopped at, or the step is done: into, at another line, depth or function; over, below its depth or elsewhere at it; out, elsewhere at or below its depth; it gives the first of these as its reason and otherwise says nothing |
| `DebugSession.StateIsHistory` | crates/bn_dap/src/lib.rs:307-427 | In every run the session remembers exactly the last callback's frame, whether there was one, a pause request since it, and a terminate request |
| `DebugSession.EntryIsFirstCallback` | crates/bn_dap/src/lib.rs:344-378 | The first instruction stops exactly a program launched to stop on entry or asked to pause before it |
| `DebugSession.ResumeReleases` | crates/bn_dap/src/lib.rs:368-402 | A resumed program runs on with the step it was given, and the client has been told |
| `DebugSession.EventsAreSent` | crates/bn_dap/src/lib.rs:77-83 | The event thread sends what is queued, in order, and loses nothing |
| `Bits.BitwiseIsPerBit` | crates/bn_interp/src/executor.rs:156-158 | The recursive bit operators act on each two's-complement bit alone, for all integers |
| `Bits.BitwiseSums` | crates/bn_interp/src/executor.rs:156-158 | OR and AND of two numbers add up to their sum, and XOR is OR less AND |
| `Integers.RangeIsWidth` | crates/bn_interp/src/numeric.rs:97-108 | The ranges written as literals are those of the widths |
| `Integers.ExactOrTrap` | crates/bn_interp/src/executor.rs:131-159 | Arithmetic and the left shift return the mathematical result exactly when there is one in the type's range, and trap otherwise, whatever the 128-bit intermediates did |
| `Integers.PowAdds` | crates/bn_interp/src/executor.rs:140-150 | Powers obey the law of exponents |
| `Integers.PowStarts` | crates/bn_interp/src/executor.rs:140-150 | Exponents 0 and 1 give 1 and the base |
| `Integers.PowerOfTwo` | crates/bn_interp/src/executor.rs:140-150 | Two to the power n is the n-th power of two where the type holds it |
| `Integers.TrapsSayWhy` | crates/bn_interp/src/executor.rs:137-160 | A zero divisor, a negative exponent, one past 32 bits and a shift count outside the width each have their own trap |
| `Integers.DivisionPair` | crates/bn_interp/src/executor.rs:137-139 | The Euclidean remainder never traps for a divisor other than zero, the quotient only on the least value by -1, and the two give the dividend back |
| `Integers.BitwiseNeverTraps` | crates/bn_interp/src/executor.rs:156-158 | AND, OR and XOR of values in range stay in range and act bit by bit |
| `Integers.RightShiftIsLogical` | crates/bn_interp/src/executor.rs:220-240 | A right shift is the logical shift of the width-bit pattern, and traps exactly for a negative value shifted by 0 |
| `Integers.UnaryExact` | crates/bn_interp/src/executor.rs:20-25 | Negation and NOT succeed exactly when their result is in range |
| `Checksum.IcmpChecksum` | crates/bn_core_net/src/icmp.rs:205-218 | The wrapping sum and the folding loop end and give the complement of the folded word sum |
| `Checksum.Folded` | crates/bn_core_net/src/icmp.rs:214-217 | Folding ends, fits 16 bits, keeps the sum modulo 65535, and is 0 only for 0 |
| `Checksum.NoOverflow` | crates/bn_core_net/src/icmp.rs:205-213 | Packets of up to 131072 bytes do not overflow the 32-bit sum |
| `Checksum.WordSumIs` | crates/bn_core_net/src/icmp.rs:207-213 | Each pair of bytes adds a big-endian word, and an odd last byte counts as if a zero followed it |
| `Checksum.ZeroChecksum` | crates/bn_core_net/src/icmp.rs:205-218 | A packet checks as correct exactly when its words add up to a positive multiple of 65535 |
| `Checksum.ChecksumVerifies` | crates/bn_core_net/src/icmp.rs:205-218 | Storing the checksum of a packet whose field is zero makes the checksum of the whole packet 0 |
| `Checksum.ChangeIsDetected` | crates/bn_core_net/src/icmp.rs:205-218 | Changing one word of a correct packet goes unnoticed exactly when it moves between the two zeros and leaves some word set |
| `Cidr.Mask` | crates/bn_core_net/src/cidr.rs:71-90 | The mask clears exactly the bits past the prefix and keeps the family |
| `Cidr.MaskMonotone` | crates/bn_core_net/src/cidr.rs:71-90 | Masking is idempotent, and masking twice is masking with the shorter prefix |
| `Cidr.MaskedIsAccepted` | crates/bn_core_net/src/cidr.rs:66-90 | Masking any address gives an accepted prefix that contains it |
| `Cidr.ParseIsExact` | crates/bn_core_net/src/cidr.rs:28-53 | A text parses to a prefix if and only if it spells an address, a slash and the length's canonical digits, and the address has no host bits |
| `Cidr.HostBitsAreReported` | crates/bn_core_net/src/cidr.rs:48-52 | A well-formed text is refused for host bits exactly when the address is not a multiple of the block size |
| `Cidr.ParseErrorsAre` | crates/bn_core_net/src/cidr.rs:28-47 | No slash, no address before the first one, no plain decimal up to 255 after it, and a length past the width are each their own error, exactly then |
| `Cidr.ContainsIsInterval` | crates/bn_core_net/src/cidr.rs:66-90 | Containment is membership of the block from the network on, in its family, and is undefined exactly for an IPv4 address against an IPv6 prefix past 32 |
| `Cidr.BlockFits` | crates/bn_core_net/src/cidr.rs:48-52 | The block of an accepted prefix ends inside the family |
| `Cidr.MembersCount` | crates/bn_core_net/src/cidr.rs:66-90 | Exactly 2^(width - prefix) addresses are members |
| `Cidr.NestedOrDisjoint` | crates/bn_core_net/src/cidr.rs:28-90 | Two accepted prefixes of a family are nested or share no address |
| `Cidr.ReparseSucceeds` | crates/bn_host_net/src/lib.rs:588-591 | An accepted prefix, printed as network and length, always parses back to itself |
| `NetHandles.NetProvider.constructor` | crates/bn_host_net/src/lib.rs:87-98 | A provider starts with empty tables and counters at 1 |
| `NetHandles.NetProvider.HeldSockets` | crates/bn_host_net/src/lib.rs:141-143 | The sum over streams, sockets and all listener sets, in any order of the map |
| `NetHandles.NetProvider.BindUdp` | crates/bn_host_net/src/lib.rs:138-160 | The new tables and reply of `UDPBind` for every answer of the system |
| `NetHandles.NetProvider.BindAll` | crates/bn_core_net/src/tcp.rs:90-102 | All endpoints bind, one socket each, or none is kept |
| `NetHandles.NetProvider.ListenTcp` | crates/bn_host_net/src/lib.rs:716-751 | The new tables and reply of `TCPListen`, with quota, backlog and endpoint-count errors in that order |
| `NetHandles.NetProvider.ConnectTcp` | crates/bn_host_net/src/lib.rs:787-810 | The new tables and reply of `TCPConnect` |
| `NetHandles.NetProvider.AcceptTcp` | crates/bn_host_net/src/lib.rs:973-1006 | The new tables and reply of `Accept`: quota first, then a closed listener |
| `NetHandles.NetProvider.CloseTcpStream` | crates/bn_host_net/src/lib.rs:811-823 | Closing forgets one handle and never fails |
| `NetHandles.NetProvider.CloseTcpListener` | crates/bn_host_net/src/lib.rs:1007-1019 | Closing a listener forgets its whole set |
| `NetHandles.NetProvider.CloseUdpSocket` | crates/bn_host_net/src/lib.rs:342-354 | Closing a socket forgets one handle |
| `NetHandles.CallConserves` | crates/bn_host_net/src/lib.rs:716-1019 | Every call conserves sockets: held afterwards is held before, plus opened, minus released |
| `NetHandles.CallKeepsValid` | crates/bn_host_net/src/lib.rs:716-1019 | Every call keeps the quota, the id bounds and one to sixteen sockets per listener, and reuses no id |
| `NetHandles.RunKeepsQuota` | crates/bn_host_net/src/lib.rs:138-160 | In every reachable state the sockets held are those opened and not released, and at most the quota |
| `NetHandles.RunReusesNothing` | crates/bn_host_net/src/lib.rs:716-823 | No insertion of a run overwrites a live handle and a closed handle stays closed |
| `NetHandles.HandlesAreDistinct` | crates/bn_host_net/src/lib.rs:716-823 | No two calls of a run return the same handle |
| `NetHandles.RefusedExactlyWhenFull` | crates/bn_host_net/src/lib.rs:138-1019 | Over the life of a provider a call is refused for the quota if and only if what it asks for does not fit beside the sockets opened and not yet released |
| `NetHandles.GrantedWhenRoom` | crates/bn_host_net/src/lib.rs:138-1006 | With room and the system's agreement a call yields a handle and exactly the sockets it asked for |
| `NetHandles.HandleHoldsItsSockets` | crates/bn_host_net/src/lib.rs:138-1006 | A returned handle is live with the very sockets the system gave, in the order of the endpoints, and the other tables are as before |
| `NetHandles.CloseForgetsOne` | crates/bn_host_net/src/lib.rs:342-1019 | Closing forgets one handle, live or not, and says it is done |
| `NetHandles.FailuresAre` | crates/bn_host_net/src/lib.rs:138-1006 | A failure changes nothing, and with room each one has its exact cause |

## Left out

- Files, sockets, processes, clocks, name resolution: foreign calls; each answer is a parameter or an arbitrary success or failure.
- Import path search, path normalization, overlay text and `BN_HOME`: the loader's `World` holds one fixed resolution per import.
- `export_selectors`, `standard_module` and root provenance of loaded modules: copied beside what is modelled.
- Snapshots that a load records in the frontend session: only the texts read matter to the graph.
- Parser, semantic analysis, lowering and the interpreter loop: their result is one parameter (`parses`, a file's items).
- Floating-point, comparison, Boolean and string operators and literal parsing: no exact model, or only easy members.
- Non-ASCII text in scanners and temporal parsers: their text is a sequence of ASCII characters; catalog text is not limited, and its white space is that of Unicode.
- Spelling of diagnostics and the position a lexical error points at: an error is its kind.
- Line and column of classified tokens after a line break inside a string: such sources are not accepted by the lexer, and only offsets are claimed for them.
- The time-zone table: a zone is a whole-minute base offset of at most 14 hours and a rule.
- Unsigned 32-bit wrap of intermediates in `civil_from_days`: written out as a conversion where the code casts, unbounded elsewhere.
- Fluent shard parsing and message severity: entries arrive parsed, and severity is copied.
- Debug protocol framing, breakpoints' line table, scopes and variables: presentation; whether a callback is at a breakpoint is a parameter.
- Poisoned mutexes: a callback with a poisoned lock terminates at once.
- Order in which a set of importers is queued: any order, since the result is proved independent of it.
- Panics of builds with overflow checks: not modelled, except as the missing answer of the prefix test named above.
- Overflow of 64-bit handle counters: `NetHandles.Table` counts without bound.
- Trying the listeners of a set in turn on `Accept`, and time-outs: one answer stands for the set.
- Cidr.ReparseSucceeds: does not prove that a printed address parses back, because both directions belong to Rust's standard library and are not part of this model; `Cidr.Parse` takes the address parser as a parameter and assumes only that it yields addresses of the family's width.
- Sending, receiving and socket options: they read the tables and change none.
