# Relayward SDK: a verified model

Relayward connects a center, Agents on nodes, and plugins. Its SDK fixes what they say to each other: billing
periods that center and Agent must compute alike, identifiers and digests that must mean the same on both
sides of a JSON transport, cursor and generation protocols, and the promise-based bridge a plugin's UI talks
through. This project models that code and proves what it is relied on for.

| module | what it models |
|---|---|
| `Calendar`, `Zones`, `Timestamps` | Go's calendar, time zones and RFC 3339 timestamps |
| `Periods`, `PeriodTheorems`, `PeriodLimits` | `CurrentPeriod`, what periods promise, and where that stops |
| `RequestIds`, `UiClient`, `UiTheorems`, `UiMessages` | the UI bridge client as a class, every interleaving of its callbacks, and what each message does by its fields |
| `Text`, `Keys`, `Sorting`, `Policies` | NUL-joined keys, sorted lists, policy snapshots and their canonical order |
| `Regex`, `Patterns`, `PatternShapes`, `Versions` | regular expressions, identifiers and what they are position by position, the semantic-version validator |
| `JsonText`, `JsonMeaning`, `JsonTokens`, `Encoding`, `Messages` | the encoder's scanner and what it preserves, the same told token by token without a scanner, JSON objects as they are written and read |
| `Commands`, `PluginCommands`, `Events` | commands, plugin reconcile commands and events: encoded, carried and decoded, with their digests and IDs |
| `Words`, `Telemetry`, `NodePlugin`, `Configuration`, `Subscriptions` | 64-bit words and the validated exchanges with plugins |

## How the code is modelled

- Go strings and byte slices are strings whose characters stand for bytes. Errors are `None` or `false`: which
  error is reported is not modelled, whether one is reported always is.
- Instants are nanoseconds since Go's zero time, over all integers. A zone is a pair of functions, instant to
  wall clock and wall clock to instant (`time.Date`); `Zones.Table` is a zone as Go loads it, a list of transitions
  with the two-step offset lookup of `time.Date`. Civil dates are computed by adding up month lengths.
- 64-bit sequences and generations are a bounded type `Word`, and `+ 1` on them wraps (`Words.Add`).
- Go's `/` and `%` truncate: `Periods.TruncDiv` and `Periods.TruncMod`.
- Loops that update variables are methods with loops, proved against a function or predicate; `SortPolicies`
  works in place on an array; the UI client, the fixture plugin and the event digest writer are classes.

Premises are hypotheses of the lemmas that need them, never axioms:

- `Zones.Regular(zone, timeOfDay, first, last)`: on the days from `first` to `last` the wall-clock time is neither
  skipped nor repeated. Other days do not matter, so local-mean-time transitions of the nineteenth century, or a
  future change of the clocks at midnight, leave the promises for other years alone. On a table the premise is
  characterised exactly (`Zones.TableRegular`).
- `Periods.Recurring(host, rule, first, last)`: the rule is valid, recurring, and its zone regular at the rule's time
  of day from boundary `first` to boundary `last`. `PeriodTheorems.Promised(host, rule, from, limit)`: such boundaries
  enclose the instants from `from` to `limit`; never-reset rules need nothing. `Asked` says an instant is one of those,
  not before an authorization that starts after Go's zero time.
- `Periods.Ends`: the interval rule's back-up loop ends, which the code's own termination needs. It is shown exactly
  when it does on tables, and that it always does where the zone is regular.
- `Codec.NoCollision`: SHA-256 tells the two texts at hand apart; only where a lemma says so.
- `Codec.Sound`: `json.Valid` accepts the text at hand only if its bytes and strings are as RFC 8259 has them
  (`JsonText.Lexical`), and then also accepts its compacted and escaped forms.

## Results that are false of the code without a condition

- `PeriodLimits.DailyExact`: in a zone given by a table the daily rule keeps its promise at every instant exactly
  when no transition skips or repeats a midnight, save by setting the clocks back to exactly midnight west of
  Greenwich. Otherwise `HarmedMidnightBreaks` gives the instant, on that day or the day before.
- `PeriodLimits.BackUpEndsExactly`: the back-up loop of the interval rule ends for every anchor and instant exactly
  when the step is at least two days or the zone skips no whole day. Otherwise `BackUpCanStall` gives an anchor and
  an instant from which it steps back to where it was, for ever.
- `PeriodTheorems.EndAtZeroTimeIsLost`: a recurring period has no end exactly when its end is Go's zero time;
  under `Promised` that cannot happen.
- `PeriodTheorems.AdjacentMonthRoundTrip`: a month back and forth is the identity exactly for years from 0 on
  (and for January of any year).
- `Text.JoinOrderNeedsNulFree`: joined keys and tuples order differently once a component contains NUL.
- `Timestamps.ShownInstant`: a printed timestamp denotes the instant it was printed for exactly when the offset has
  no seconds, because the layout drops them.
- `Commands.CommandDigestSurvives`: a command's digest survives transport exactly when the escaped payload, up
  to six times longer than the one validated, is still within 512 KiB and the times, without the seconds of their
  offsets, are still in order and print as before. For UTC times only the length remains.
- `PluginCommands.ReconcileSurvives`: the Agent decodes the value a plugin reconcile command was made from exactly when
  the escaped configuration is still within 384 KiB, and that configuration has the digest of the one sent exactly
  when it holds no `<`, `>`, `&`, U+2028 or U+2029.
- `Events.AcceptedEventSurvives`: an accepted event is still accepted after it was encoded, carried and decoded exactly
  when its time can be written (a four-digit year, an offset under a day), its offset has no seconds, and its
  payload holds none of those characters. Events made by `NewEvent` arrive as they were sent exactly when their year
  has four digits (`Events.NewEventSurvives`).
- `RequestIds.RequestIdsDistinct`: two request IDs coincide only beyond 2^53 calls, where `++` stops counting.

## Model

| member | source | states |
|---|---|---|
| Calendar.DateRoundTrip | policy/v1/period.go:173-188 | numbering valid Gregorian dates, as `time.Date` does, is undone by reading the date off the day number, so the numbering is a bijection on all integers |
| Calendar.NextDay | policy/v1/period.go:99-108 | the date of day n+1 is the calendar successor of the date of day n, across month ends, leap days and year ends: what `AddDate` relies on |
| Calendar.YearStart | policy/v1/period.go:186-188 | adding up month lengths agrees with the leap-year closed form at every year, before and after year 1 |
| Calendar.FirstOfYear | policy/v1/period.go:186-188 | January 1 of every year has the closed form's day number |
| Calendar.MonthUnique | policy/v1/period.go:173-184 | a day lies in one month only |
| Calendar.MonthLengthIs | policy/v1/period.go:173-179 | the lengths of the months but February, as a table; `YearStart` leaves February the rest |
| Calendar.EpochDate | policy/v1/period.go:186-188 | the day numbered 719162 is 1970-01-01, which places all others |
| Zones.FixedOffsetRegular | policy/v1/period.go:91-133 | every fixed offset satisfies the wall-clock premise at every time of day, on all days |
| Zones.TableRegular | policy/v1/period.go:91-133 | a zone with any number of transitions satisfies the premise on a range of days if and only if no transition harms the reading on those days |
| Zones.PassedExactly | policy/v1/period.go:97-99 | a reading is passed once, at the instant `time.Date` gives, if and only if each transition leaves it alone or sets the clocks back to exactly it west of Greenwich |
| Zones.TouchedInstant | policy/v1/period.go:97-99 | which of the two offsets `time.Date` settles on for a reading a transition skips or repeats |
| Zones.InstantIsThreshold | policy/v1/period.go:97-99 | for such a reading, an instant has reached `time.Date` of it exactly when the wall clock has |
| Timestamps.FormatRoundTrip | agent/v1/commands.go:27-32 | parsing a printed RFC 3339 timestamp gives back the wall-clock reading to the nanosecond, with trailing fraction zeros dropped, and the whole minutes of the offset |
| Timestamps.ShownInstant | agent/v1/commands.go:27-32 | what is printed denotes the same instant if and only if the offset has no seconds |
| Timestamps.FormatUtcInjective | policy/v1/period.go:190-197 | two instants with the same UTC text are the same instant, in any year |
| Timestamps.FourDigitYearIs | agent/v1/commands.go:27-32 | the times that can be written, from 0000-01-01 up to 10000-01-01, are exactly those whose year has at most four digits |
| Timestamps.FormatFields | agent/v1/commands.go:27-32 | a printed timestamp position by position: year, month, day, `T`, hours, minutes, seconds, each with its separators, then fraction and offset |
| Timestamps.FractionDigit | agent/v1/commands.go:27-32 | digit k of the fraction is that digit of the nanoseconds, and a digit left out is zero |
| Timestamps.FractionShape | agent/v1/commands.go:27-32 | no fraction for zero nanoseconds, else a point and at most nine digits of which the last is not zero |
| Timestamps.ZoneFields | agent/v1/commands.go:27-32 | the offset is `Z` for zero, else a sign, two digits of hours, a colon and two of minutes |
| Periods.FloorFromTrunc | policy/v1/period.go:122-127 | truncating division with the negative-remainder correction is floor division |
| Periods.WeeklyBounds | policy/v1/period.go:100-108 | the branch's statements, with ISO weekday and remainder, compute the weekly span that SpanIsCell characterises |
| Periods.MonthlyBounds | policy/v1/period.go:109-118 | the branch's reassignments of start, year and month compute the monthly span that SpanIsCell characterises |
| Periods.IntervalIndex | policy/v1/period.go:120-127 | the corrected index is the floor of the civil-day difference by the step, for anchors in the past or the future |
| Periods.BackUp | policy/v1/period.go:129-131 | where the loop ends, it leaves the first start not after the instant, after the fewest steps |
| Periods.IntervalBounds | policy/v1/period.go:119-132 | where the loop ends, the branch computes the floor's start, stepped back the fewest times, and the end one step later |
| Periods.CurrentPeriod | policy/v1/period.go:79-145 | where the evaluation ends, accepts exactly the valid rules with set times not before the authorization, and returns the clamped span with the identifier whose text PeriodIdText spells out |
| PeriodTheorems.BoundariesIncrease | policy/v1/period.go:92-133 | the boundaries of every recurring rule strictly increase; for monthly rules across short months, leap years and year ends |
| PeriodTheorems.SpanIsCell | policy/v1/period.go:92-133 | for each kind the computed bounds are two consecutive boundaries with the instant between them |
| PeriodTheorems.BackUpOnce | policy/v1/period.go:128-131 | where the zone is regular one step back always suffices, so the loop turns at most once |
| PeriodTheorems.PromisedEnds | policy/v1/period.go:128-131 | within the promised stretch every evaluation ends |
| PeriodTheorems.StartIsGreatestBoundary | policy/v1/period.go:119-133 | the unclamped start is the last boundary not after the instant; for intervals, the greatest anchor + k * step civil days |
| PeriodTheorems.SpanInCivilTerms | policy/v1/period.go:92-133 | on calendar and clock: a day is from midnight to midnight, a week starts on the rule's ISO weekday, a month on the clamped billing day, an interval a multiple of the step after the anchor |
| PeriodTheorems.CellUnique | policy/v1/period.go:92-133 | an instant lies between one pair of consecutive boundaries only |
| PeriodTheorems.MonthlyBoundaryIs | policy/v1/period.go:173-179 | day 0 of the next month is the last day of this one, and the boundary is midnight of the smaller of the requested day and that day |
| PeriodTheorems.OneBoundaryPerMonth | policy/v1/period.go:109-118 | every calendar month has its boundary, on the requested day or the month's last day |
| PeriodTheorems.AdjacentMonthRoundTrip | policy/v1/period.go:181-184 | -1 then +1 is the identity exactly for years from 0 on, or January |
| PeriodTheorems.Containment | policy/v1/period.go:76-145 | the period contains the instant, does not predate the authorization, and has an end exactly for recurring rules |
| PeriodTheorems.Tiling | policy/v1/period.go:76-145 | evaluating at a period's end, within the promised stretch, gives a period that starts exactly there |
| PeriodTheorems.Partition | policy/v1/period.go:76-145 | an instant yields the same period exactly when the period covers it |
| PeriodTheorems.ComputedPeriodIsValid | policy/v1/period.go:147-161 | every computed period passes `ValidatePeriod` |
| PeriodTheorems.SamePeriodIsBoundaries | policy/v1/period.go:163-171 | among valid periods `SamePeriod` is equality of the boundaries, hence equality |
| PeriodTheorems.ReEvaluationIsExact | agent/v1/policies.go:134-140 | re-evaluating at the period's own start accepts exactly the periods some instant produces, clamped starts included |
| PeriodTheorems.TablePromises | policy/v1/period.go:91-133 | a zone given by a table keeps the promises between two boundaries if and only if no transition harms the rule's time of day on the days between them |
| PeriodTheorems.EndAtZeroTimeIsLost | policy/v1/period.go:139-142 | outside the promised domain, the end is dropped exactly when it is Go's zero time |
| PeriodTheorems.PeriodInputInjective | policy/v1/period.go:190-197 | the hashed text determines both boundaries and whether there is an end |
| PeriodTheorems.PeriodIdDetermines | policy/v1/period.go:190-197 | equal IDs mean equal periods if the truncated hash does not collide on the two texts |
| PeriodTheorems.PeriodIdText | policy/v1/period.go:190-197 | every period's ID is the hex of the first 16 bytes of the hash of a text that, cut at its first NUL, is the start in UTC and then the end in UTC, or nothing without an end |
| PeriodLimits.DailyExact | policy/v1/period.go:96-99 | on every table, containment and tiling hold at every instant if and only if no transition harms a midnight |
| PeriodLimits.HarmedMidnightBreaks | policy/v1/period.go:96-99 | a harmed midnight, skipped or repeated, breaks the daily rule at an instant of that day or the day before |
| PeriodLimits.EarlyMorningJumpIsHarmless | policy/v1/period.go:96-99 | transitions that change the clocks within a day, after its midnight, leave the daily rule right at every instant |
| PeriodLimits.BackUpEndsExactly | policy/v1/period.go:128-131 | on every table, the loop ends for every anchor and instant if and only if the step is at least two days or no whole day is skipped |
| PeriodLimits.BackUpCanStall | policy/v1/period.go:128-131 | after every skipped day there are an anchor and an instant for which the loop never ends |
| PeriodLimits.StepsBack | policy/v1/period.go:130 | a step of two days or more always goes back, one of a day unless the zone skips a day |
| PeriodLimits.EvaluationEnds | policy/v1/period.go:79-145 | so every evaluation of such a rule ends, whatever the anchor's time of day |
| Text.JoinOrder | agent/v1/policies.go:164-168 | comparing `a NUL x` with `b NUL y` is comparing the pairs, prefixes included |
| Text.JoinInjective | policy/v1/period.go:190-197 | a NUL-joined text splits in one way only |
| Text.JoinOrderNeedsNulFree | agent/v1/policies.go:164-168 | two components, one with NUL, for which the orders disagree |
| Text.LessIsBytewise | agent/v1/policies.go:164-168 | Go's string order: a proper prefix comes first, otherwise the first byte that differs decides |
| Text.HexAt | policy/v1/period.go:196 | byte i is printed at 2i and 2i+1, high half first, in lower-case digits |
| Text.DecimalAt | agent/v1/events.go:27-33 | a number is printed digit by digit, the least significant last |
| Keys.PairKeyOrder | agent/v1/policies.go:164-168 | two-part keys order as pairs |
| Keys.TripleKeyOrder | nodeplugin/v1/validate.go:274-297 | three-part block keys order as triples |
| Keys.NeighboursSort | agent/v1/policies.go:156-169 | comparing neighbours is strict sortedness of the whole list, hence uniqueness |
| Sorting.SortSlice | agent/v1/policies.go:241-246 | the array ends up in order and a permutation of what it was |
| Sorting.StrictlySortedUnique | agent/v1/policies.go:240-248 | two strictly sorted lists with the same elements are equal |
| Policies.BindingKeyOrder | agent/v1/policies.go:158-168 | on bindings that pass the patterns, comparing the texts plugin, NUL, service is comparing the plugin and, under one plugin, the service |
| Policies.ValidateBindings | agent/v1/policies.go:153-169 | accepts exactly at most 256 well-formed bindings, strictly sorted by plugin and service |
| Policies.ValidateAuthorizationPolicy | agent/v1/policies.go:121-171 | where the evaluation of the period ends, accepts exactly the policies in bounds whose period re-evaluates to itself and whose bindings are strictly sorted |
| Policies.AcceptedPeriodIsProduced | agent/v1/policies.go:134-140 | the period checks pass exactly for the periods `CurrentPeriod` can produce |
| Policies.AcceptedBindingsAscend | agent/v1/policies.go:153-169 | in an accepted policy any two bindings ascend by plugin ID, or have the same and ascend by service ID |
| Policies.ValidatePolicyReconcileCommand | agent/v1/policies.go:101-119 | accepts exactly snapshots in bounds of accepted policies strictly sorted by authorization |
| Policies.SortPolicies | agent/v1/policies.go:240-248 | in place: same policies up to the order of bindings, sorted by ID, each with sorted bindings |
| Policies.SortedByFields | agent/v1/policies.go:240-248 | whatever passes for sorted comes by authorization ID, and the bindings of each policy by plugin ID and then by service ID |
| Policies.SortPassesChecks | agent/v1/policies.go:108-117 | without duplicate IDs and bindings the result passes both ordering checks |
| Policies.SortIsCanonical | agent/v1/policies.go:240-248 | inputs that are permutations of each other, outside and inside, become identical |
| Patterns.IdentifiersAreClean | contract/version.go:23-32 | no string matching the UUID, component, plugin or dotted-name pattern contains NUL, a quote, a backslash or any other foreign character |
| Patterns.UuidLength | policy/v1/period.go:22 | a UUID match has at most 36 bytes |
| PatternShapes.UuidIs | agent/v1/validate.go:13 | a text matches if and only if it has 36 characters: dashes at 8, 13, 18 and 23, `1` to `5` at 14, one of `89ab` at 19, lower-case hexadecimal digits elsewhere |
| PatternShapes.ComponentIdIs | agent/v1/validate.go:17 | a text matches if and only if it has 1 to 64 characters, letters and digits, after the first also dots, underscores and dashes |
| PatternShapes.PluginIdIs | contract/version.go:23 | a text matches if and only if it starts with a letter or digit and every other character is one or a dot or dash with one behind it |
| PatternShapes.DottedNameIs | agent/v1/commands.go:24 | a text matches if and only if it starts with a letter, holds a mark, and every mark has a letter or digit behind it |
| Versions.ValidatorIsGrammar | contract/version.go:34-58 | pattern, split and scan accept exactly the strings of at most 128 bytes that print some version of the Semantic Versioning 2.0.0 grammar |
| Versions.ReadPrint | contract/version.go:24 | cutting at the first `+`, the first `-` and the dots recovers every component, with dashes in identifiers and build metadata |
| Versions.UniqueReading | contract/version.go:24 | a string is the print of one version only |
| Versions.ShapeOfMatch | contract/version.go:24 | every string the regular expression matches is the print of some version shape |
| Versions.MatchPrint | contract/version.go:24 | every version shape prints to a string the regular expression matches |
| Versions.ScannedIsPreRelease | contract/version.go:38-43 | the identifiers the loop scans are the pre-release ones, never build metadata |
| Versions.ScanIsPreRelease | contract/version.go:38-49 | the scan passes exactly when no numeric pre-release identifier has a leading zero |
| JsonText.ScanTwice | agent/v1/commands.go:68-78 | compacting or escaping the encoder's own output is a single pass: whitespace removal and escaping are idempotent and compose |
| JsonMeaning.CompactIsTight | agent/v1/plugins.go:165-168 | compacted text has no whitespace outside strings |
| JsonMeaning.TightIsCompact | agent/v1/plugins.go:165-168 | compacting such text changes nothing, so nothing else is ever dropped |
| JsonMeaning.WhitespaceIgnored | agent/v1/plugins.go:165-168 | whitespace added anywhere outside strings does not show in the compacted text |
| JsonMeaning.ScanKeepsMeaning | agent/v1/commands.go:72 | compacted or escaped, text reads the same once whitespace is skipped and the encoder's escapes are decoded, whatever escapes it already held |
| JsonMeaning.EscapeIsSafe | agent/v1/events.go:51-56 | the encoder's form has no whitespace between tokens and nothing left to escape, and reads the same |
| JsonText.EscapeIsCompact | agent/v1/plugins.go:161-171 | escaped and compacted forms agree exactly when the text holds nothing to escape |
| JsonText.ScanConcat | agent/v1/commands.go:27-32 | a complete text is scanned independently of what follows it |
| JsonText.ObjectSurvives | agent/v1/plugins.go:150-159 | a text that passes the object check still passes after either scan |
| JsonTokens.ScanIsTokens | agent/v1/plugins.go:165-168 | for every list of tokens the compacted text is the tokens without the blanks, and the encoder's text has `<`, `>`, `&`, U+2028 and U+2029 in strings written as their escapes |
| JsonTokens.FormsOfText | agent/v1/plugins.go:165-168 | every text of the lexical form is such a list of tokens, so this says what both forms of it are |
| JsonTokens.MeaningIsTokens | agent/v1/commands.go:72 | the meaning of a text without `\u` is its tokens without the blanks |
| JsonTokens.EncodedMeaning | agent/v1/commands.go:72 | and the encoder's text decodes to it |
| JsonTokens.EscapableIs | agent/v1/events.go:51-56 | a text holds something to escape if and only if it has one of those characters at some position |
| JsonTokens.ObjectTextIs | agent/v1/plugins.go:154-157 | the object check passes if and only if a `{` has only trimmed characters before it and a later `}` only trimmed characters after it |
| Encoding.CarryIsEscape | agent/v1/plugins.go:72-102 | nesting a raw message in any number of documents escapes it once |
| Encoding.CarryKeepsMeaning | agent/v1/plugins.go:72-102 | however often a raw message is carried, it reads the same, even where its digest changes |
| Encoding.CarryFixed | agent/v1/commands.go:68-78 | text the encoder leaves alone stays the same at any nesting |
| Commands.DecodeCommandText | agent/v1/commands.go:27-32 | decoding the encoded command gives back the kind, both times to the whole minute of their offset, and the escaped payload |
| Commands.CarriedCommand | agent/v1/commands.go:124-137 | the same after carrying the command in any number of envelopes |
| Commands.ReceivedText | agent/v1/commands.go:68-78 | the received command encodes as the sent one did if and only if both times print again as they did |
| Commands.CommandDigestSurvives | agent/v1/commands.go:68-78 | the digest after transport is the digest before, if and only if the escaped payload is within the limit, the received times are in order and print as before |
| Commands.CommandDigestIs | agent/v1/commands.go:27-32 | the text that is hashed, literally: the four members in order under their names, the payload in the encoder's form |
| Commands.DigestIgnoresWhitespace | agent/v1/plugins.go:161-171 | compacting a configuration does not change its digest |
| Commands.DigestIgnoresAddedSpace | agent/v1/plugins.go:161-171 | nor does whitespace added between tokens |
| Commands.ConfigurationDigestIs | agent/v1/plugins.go:161-171 | the configuration digest hashes the configuration's tokens without the blanks |
| Commands.ConfigurationHasTokens | agent/v1/plugins.go:161-171 | and every accepted configuration is such a list of tokens |
| Commands.ConfigurationDigestSurvives | agent/v1/plugins.go:161-171 | a configuration carried as a raw message keeps its digest if and only if it holds nothing to escape |
| PluginCommands.NewCommandSucceeds | agent/v1/plugins.go:72-85 | a command is made exactly for a valid value and valid times whose encoding is within 512 KiB |
| PluginCommands.ReconcileTextIs | agent/v1/plugins.go:43-50 | the encoded value, literally: its members in order under their names, up to the desired state |
| PluginCommands.DesiredTextIs | agent/v1/plugins.go:43-50 | and version, artifact and configuration, where there is an artifact |
| PluginCommands.ArtifactTextIs | agent/v1/plugins.go:37-41 | the encoded artifact, literally: URL, size, digest |
| PluginCommands.UrlTextIs | agent/v1/plugins.go:37-41 | a URL is written character by character, three characters as escapes |
| PluginCommands.ReadReconcileText | agent/v1/plugins.go:87-102 | reading the encoded value gives it back, URL and omitted members included, with its configuration escaped |
| PluginCommands.CommandArrives | agent/v1/plugins.go:72-102 | the command arrives exactly as it was made, through any number of documents |
| PluginCommands.ReconcileSurvives | agent/v1/plugins.go:72-102 | end to end, the value decodes if and only if the escaped configuration is within its limit, and its digest is the same if and only if nothing was escaped |
| Events.BigEndianInjective | agent/v1/events.go:84-86 | eight big-endian bytes determine the number |
| Events.BigEndianOrder | agent/v1/events.go:84-86 | the encodings order as the numbers do: most significant byte first |
| Events.DigestWriter.WriteField | agent/v1/events.go:212-217 | appends the 8-byte big-endian length and then the bytes |
| Events.EventId | agent/v1/events.go:65-91 | the running hash state amounts to hashing one nested pre-image, exactly for valid content and stream; EventIdText says what it holds |
| Events.EventIdText | agent/v1/events.go:80-90 | the text behind every ID, taken apart by an 8-byte big-endian length and that many bytes at a time, is API version, node, stream, eight bytes worth the sequence, kind, the UTC timestamp and the compacted payload, with nothing left over |
| Events.FieldInjective | agent/v1/events.go:212-217 | a length-prefixed field is told apart from what follows it |
| Events.PreimageInjective | agent/v1/events.go:80-90 | equal digest input means equal node, stream, sequence, kind, UTC instant and compact payload |
| Events.NewEvent | agent/v1/events.go:51-63 | succeeds exactly for content that has an ID, and the event, in UTC, passes `ValidateEventForNode` |
| Events.DeliveredEvent | agent/v1/events.go:27-33 | an encoded event decodes to itself, its offset cut to whole minutes and its payload escaped, exactly when its time can be written |
| Events.EventTextIs | agent/v1/events.go:27-33 | an encoded event, literally: its five members in order under their names |
| Events.BatchTextIs | agent/v1/events.go:35-42 | an encoded batch, literally: its header members in order, then the list |
| Events.EventsTextIs | agent/v1/events.go:35-42 | the list is the first event's text behind a comma and then the rest's |
| Events.NewEventSurvives | agent/v1/events.go:51-63 | an event made by `NewEvent` arrives as it was sent, ID and all, if and only if its year has four digits |
| Events.AcceptedEventSurvives | agent/v1/events.go:100-112 | any accepted event is still accepted on arrival if and only if its time can be written, its offset has no seconds and its payload holds nothing to escape |
| Events.EventBelongsToOneStream | agent/v1/events.go:100-112 | an event accepted for one node and stream is accepted for no other |
| Events.ValidateEventForNode | agent/v1/events.go:93-112 | accepts exactly when the ID is the one computed from node, stream and content, and the sequence is then in range |
| Events.ValidateEvents | agent/v1/events.go:130-137 | the loop, in wrapping 64-bit arithmetic, accepts exactly events that are accepted one by one and numbered without a gap in plain arithmetic |
| Events.ValidateEventBatch | agent/v1/events.go:114-146 | accepts exactly 1 to 500 accepted events with sequence first + i, matching bounds, times that can be written and an encoded length within the limit |
| Events.BatchIdsDistinct | agent/v1/events.go:114-146 | event IDs within an accepted batch are pairwise distinct if the hash does not collide on the two |
| RequestIds.RequestIdDeterminesSequence | ui/src/index.ts:108 | whatever the clock shows, backwards included, the text after the last dash recovers the sequence number |
| RequestIds.RequestIdsDistinct | ui/src/index.ts:89-108 | two calls share an ID only if the earlier already exhausted the 2^53 counter |
| RequestIds.Natural36At | ui/src/index.ts:108 | `toString(36)` digit by digit: digits, then lower-case letters, the least significant last |
| RequestIds.RequestIdIs | ui/src/index.ts:108 | an ID is `ui-`, the clock, a dash and the sequence number |
| UiClient.Client.BeginCall | ui/src/index.ts:105-114 | a call up to `send`: refused when disposed or not serializable within 512 KiB, else numbered, pending and timed |
| UiClient.Client.SendThrows | ui/src/index.ts:123-127 | the catch block removes the timer and the pending entry and rejects, whatever ran during `send` |
| UiClient.Client.ReceiveMessage | ui/src/index.ts:92-103 | settles exactly the pending call a well-formed response names, else changes nothing; SuccessResolves and FailureRejects say with what |
| UiClient.Client.TimerFires | ui/src/index.ts:110-113 | removes and rejects the call |
| UiClient.Client.DisposeClient | ui/src/index.ts:152-161 | the loop rejects all pending calls, clears their timers and empties `pending`; a second dispose does nothing |
| UiTheorems.StepKeepsInv | ui/src/index.ts:89-163 | every event, at any point of a send, keeps unsettled calls, live timers and pending entries the same set |
| UiTheorems.ReachableInv | ui/src/index.ts:89-163 | so in every reachable state they are the same set, of the same size |
| UiTheorems.IdsDistinct | ui/src/index.ts:108-114 | no two calls are ever sent under one ID |
| UiTheorems.StepAnswers | ui/src/index.ts:92-127 | a waiting call is settled by an event addressed to it and with that event's outcome, and by no other event |
| UiTheorems.FirstAnswerSettles | ui/src/index.ts:89-163 | over every run a call ends with its first answer: not a later one, not another call's |
| UiTheorems.SettledForGood | ui/src/index.ts:89-163 | a settled promise never changes again |
| UiTheorems.WaitingCallCanExpire | ui/src/index.ts:110-113 | no promise hangs: whenever the event loop runs, a waiting call's timer can fire and settles it |
| UiTheorems.DisposeSettlesEverything | ui/src/index.ts:152-161 | dispose settles every waiting call |
| UiTheorems.NothingAfterDispose | ui/src/index.ts:105-106 | after dispose nothing is ever pending or waiting again and every later call is refused |
| UiMessages.SuccessResolves | ui/src/index.ts:92-103 | a message object with `ok` true and no `problem`, addressed to a waiting call, resolves it with `result`, or `undefined` where the field is absent |
| UiMessages.FailureRejects | ui/src/index.ts:92-103 | one with `ok` false and no `result` rejects it with the problem given, or the internal one where none is |
| UiMessages.OthersAreIgnored | ui/src/index.ts:92-95 | any other value, and any message for a call that is not pending, changes nothing |
| UiMessages.SuccessIsFinal | ui/src/index.ts:89-163 | in every run a call whose first answer is a success ends up resolved with its result |
| UiMessages.FailureIsFinal | ui/src/index.ts:89-163 | in every run a call whose first answer is a failure ends up rejected with its problem |
| UiMessages.SendFailureRejects | ui/src/index.ts:123-127 | a throwing `send` rejects its own call if it still waits, and no other |
| UiMessages.BeginDecides | ui/src/index.ts:105-114 | a new call is refused when disposed or not JSON within 512 KiB, else it waits, with a timer and the next number in its ID |
| Telemetry.ValidateCounters | nodeplugin/v1/validate.go:192-202 | accepts exactly well-formed counters strictly sorted by authorization and service |
| Telemetry.AcceptedCountersAscend | nodeplugin/v1/validate.go:192-202 | in an accepted page any two counters ascend by authorization ID, or have the same and ascend by service ID |
| Telemetry.ValidateEvents | nodeplugin/v1/validate.go:206-215 | accepts exactly well-formed events numbered from the cursor on without a gap, in plain arithmetic even at cursor MaxInt64 |
| Telemetry.ValidateCollectTelemetryResponse | nodeplugin/v1/validate.go:179-223 | accepts exactly the legal pages |
| Telemetry.CollectedIsContiguous | nodeplugin/v1/validate.go:166-223 | over any run of accepted exchanges the events are exactly first cursor + 1 to final cursor: no gap, no duplicate, no wrap |
| Telemetry.FullPagesAdvance | nodeplugin/v1/validate.go:219-221 | a page that announces more moves the cursor by exactly `maximum_events` |
| Telemetry.NothingAfterTheLastSequence | nodeplugin/v1/validate.go:206-221 | at cursor MaxInt64 only an empty last page is accepted |
| NodePlugin.SearchStrings | nodeplugin/v1/validate.go:79 | binary search finds the first value not below the wanted one on a sorted list |
| NodePlugin.HasCapability | nodeplugin/v1/validate.go:78-81 | never claims a missing capability, and is membership on sorted lists |
| NodePlugin.ValidateCapabilities | nodeplugin/v1/validate.go:58-67 | accepts exactly well-formed, strictly sorted capabilities |
| NodePlugin.ValidateInfoResponse | nodeplugin/v1/validate.go:39-76 | accepts exactly the right identity, sorted capabilities, and a stream ID if and only if recent activity is listed |
| NodePlugin.ValidateReplaceDynamicBlocksRequest | nodeplugin/v1/validate.go:261-299 | accepts exactly well-formed blocks strictly sorted as triples |
| NodePlugin.AcceptedBlocksAscend | nodeplugin/v1/validate.go:274-297 | in an accepted request any two blocks ascend by authorization ID, then by service ID, then by address |
| Configuration.CenterDigest | centerplugin/v1/validate.go:507-515 | the center's two extra checks never change the outcome: it is the Agent's digest |
| Configuration.AcceptedAdvances | centerplugin/v1/validate.go:209-227 | an accepted exchange advances the generation by one without wrapping |
| Configuration.GenerationsCount | centerplugin/v1/validate.go:193-227 | over any chained run generations count up by one, within MaxInt64 |
| Configuration.AdvanceReachesNode | nodeplugin/v1/validate.go:83-98 | from generation 0 every accepted result, with its JSON, is a request the node plugin accepts |
| Configuration.Plugin.ApplyConfiguration | pluginfixture/plugin.go:293-304 | a valid request replaces generation, digest and degrade flag, resets the count and is echoed; an invalid one changes nothing |
| Configuration.Plugin.GetStatus | pluginfixture/plugin.go:306-320 | reports the fields as they were and counts the call once configured |
| Configuration.StateIsHistory | pluginfixture/plugin.go:293-320 | after any history the fields are those of the last accepted request, and the count is positive exactly if status was asked for since |
| Configuration.StatusAlwaysValid | nodeplugin/v1/validate.go:126-164 | every reachable status passes `ValidateStatusResponse`, names the last configuration applied, and is unhealthy exactly for a degrading one already asked about |
| Configuration.ContainsIs | pluginfixture/plugin.go:300 | a configuration degrades if and only if the literal text stands somewhere in it |
| Configuration.ChainReported | pluginfixture/plugin.go:293-320 | end to end: after the i-th advance of a chain is applied, status reports generation i + 1 and the digest of its JSON |
| Subscriptions.AddUris | centerplugin/v1/validate.go:400-410 | accepts exactly valid, strictly sorted URIs and adds up their lengths |
| Subscriptions.AddContribution | centerplugin/v1/validate.go:391-424 | accepts exactly valid contributions, adds exactly the length of all their texts put together, and stays within 4,980,736 midway |
| Subscriptions.ValidateRenderSubscriptionRequest | centerplugin/v1/validate.go:341-371 | accepts exactly 1 to 256 well-formed services strictly sorted by ID |
| Subscriptions.ValidateContributions | centerplugin/v1/validate.go:383-428 | accepts exactly contributions that answer the services one for one in order within 512 KiB; the accumulator is the length of all URIs, Mihomo proxies and sing-box outbounds put together |
| Subscriptions.ValidateRenderSubscriptionResponse | centerplugin/v1/validate.go:373-430 | accepts exactly such responses to accepted requests, and what an accepted one holds is at most 524,288 bytes put together |
| Subscriptions.TotalIsLength | centerplugin/v1/validate.go:400-426 | the budget counts every byte of every text of every service once |
| Subscriptions.AnsweredOnce | centerplugin/v1/validate.go:384-390 | an accepted response names every service once, in ascending order |
| Subscriptions.MidwayBound | centerplugin/v1/validate.go:409-427 | a full budget and one more contribution is at most 4,980,736 bytes |

## Left out

- docs/authorization-policy-v1.md:17 says period IDs hash the start; the code hashes both boundaries
  (policy/v1/period.go:190-197), and so does the model.
- The zone premise is sufficient for every rule, and exactly necessary for the daily rule on every table; for weekly,
  monthly and interval rules its necessity is not analysed.
- Periods.CurrentPeriod: requires that the back-up loop ends where the code reaches it; a loop that does not end has
  no result to state. `EvaluationEnds` and `PromisedEnds` say when it does.
- Policies.ValidateAuthorizationPolicy: inherits that requirement, as does the reconcile validator for its policies.
- PeriodLimits.BackUpEndsExactly: tables with offsets in whole seconds, as Go's are.
- Zones.TableRegular: offsets are under a day, jumps at most a day and transitions at least three days apart, which
  holds of the IANA database; the database itself and `time.LoadLocation` are a map from names to zones.
- Events.PreimageInjective: instants within Go's range of 64-bit seconds, so that every field length fits its prefix.
- Events.EventIdText: the same range of instants.
- UiClient.Client.BeginCall: requires fewer than 2^53 earlier calls.
- UiClient.Client.DisposeClient: requires pending entries to name existing calls, which every reachable state
  satisfies; `unsubscribe` is assumed not to throw.
- The UI client's `context`, `rpc`, `navigate` and `confirm` wrappers, `browserUITransport`, and values whose
  `toJSON` or `then` re-enter the client.
- Commands.DecodeCommandText: the decoder reads members in the order the encoder writes them; other orders and
  strict rejection of unknown members are the decoder's concern.
- JsonMeaning.ScanKeepsMeaning: of the escapes a text may hold, only the five the encoder writes are decoded; the
  others are compared as written.
- PluginCommands.ReconcileSurvives: download URLs are printable ASCII without quotes and backslashes; absent plugins,
  which carry no configuration, are read back by `ReadReconcileText` only; that the encoder's own text is valid JSON
  is a premise.
- Policies.SortPolicies: bindings are a value inside each policy, so two policies sharing one slice in memory
  are not distinguished; which permutation `sort.Slice` gives equal elements is left open.
- Telemetry.ValidateEvents: the Agent's check of an access event's own fields is a parameter.
- Configuration.Plugin.GetStatus: the call count is unbounded and the mutex is taken as making each call one step.
- `strings.TrimSpace` and `bytes.TrimSpace` are modelled for ASCII; display-name, URI and canonical-IP checks,
  SHA-256 and `json.Valid` are parameters.
- Error texts, and which of several errors is reported first.
- Generated protobuf code, `conformance/`, `cmd/`, `manifest/`, `protocol/`, and the one-branch field checks of
  registration, status and access events: easy members only.
- The Agent's queue, the center's store, quota ledger and soft-IP slots are described in `docs/` but their code
  is not part of the repository.
