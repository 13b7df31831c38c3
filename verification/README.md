# Verification of the persistence promise

This project models a C++ wrapper of SQLite that saves and fetches plain structs, and proves what it promises: **what is
saved is what is fetched, and a predicate selects what it says**. Three layers are modelled and proved together:

1. **Calendar and ISO 8601 text** (`Machine`, `Calendar`, `YearMonths`, `WeekDates`, `TimeOfDay`, `DecimalText`, `WideInput`,
   `FromStream`, `IsoText`, `TimePoint`, `WeekText`). The closed-form day-number arithmetic is proved against a naive calendar
   that walks one day at a time; the stream reader is a class with a cursor and fail bits whose digit loops are proved against
   functions on the text; printing and parsing of a `TimePoint`, and of an ISO week date, are proved inverse exactly on the
   years of at most four digits.
2. **Predicates as a small compiler** (`SqlLexer`, `SqlParser`, `QueryPredicates`, `PredicateObjects`). Predicate trees are made
   from pointers to members, cloned and printed as the library does; a lexer and parser of the SQL subset (sections 5.3 and 8.12
   of SQL-92) read the text back. Parsing the printed text gives the same tree, and evaluating it on a stored row decides the
   criterion on the record.
3. **The record store** (`Reflection`, `StringUtilities`, `Records`, `SqlEngine`, `Queries`, `Quoting`, `RecordTables`,
   `Fetching`, `Transactions`, `RecordStore`, `Requests`, `IdPredicates`, `RecordDatabase`, `Increments`, `Persistence`,
   `ReferenceModel`, `Outcomes`). Every statement text is generated from reflection metadata exactly as the library generates
   it, lexed, parsed, and run on an abstract connection: tables as maps from ids to rows, column affinities, and transactions
   whose statements may fault. Over every run of requests, with any faults at any point, the committed tables are one map of
   records for each type; without faults they are what a reference model with no text, tables or transactions holds after the
   same requests.

Methods that change state (`WideStream`, `ReflectionRegister`, `PredicateNode`, `Sqlite`, `Database`, `Hydrate`) are proved against
specification functions; the lemmas are about those functions.

What the proofs found, with exact conditions:

- `FromSystemTime(SystemTime(t)) == t` holds if and only if the year of `t` has at most four digits. Beyond that the year is
  printed whole but read with a limit of four digits, the parse fails and the epoch is returned
  (`TimePoint.RoundTripIff`, `TimePoint.LongYearParsesToEpoch`).
- A text parses to a second if and only if every part of a time stands at its place in it and the parts name that second
  (`IsoText.ParsesIff`). Seconds may have a decimal point among their two characters: five tenths count as none, more as a second
  (`IsoText.PointInSeconds`). Only the low byte of a wide character is looked at where a digit or sign is wanted; separators must
  match whole.
- A member value survives saving and fetching if and only if it is no integer beyond 32 bits and no time beyond four-digit
  years (`Records.ReadBackIff`, `Persistence.SavedIsFetched`).
- A pointer to member names its member if and only if no zero byte of the member's offset lies below a non-zero byte, which
  in structs below 64 KiB fails for the offsets 256, 512, 768 and so on (`Reflection.PointerNamesMemberIff`,
  `Reflection.GapIffMultiple`). A predicate tree made from pointers is the tree that was meant if and only if this holds of every
  member in it (`QueryPredicates.BuildFromPointersIff`).
- `id` follows the fields, so 32 fields of 8 bytes put it at offset 256. Fetching or deleting by id works for all tables and ids
  if and only if the offset of `id` survives (`IdPredicates.DeleteByIdIff`, `IdPredicates.FetchByIdIff`), and so does fetching
  what was just saved (`Persistence.SavedIsFetchedIff`). Otherwise the predicate compares another member: behind an integer field,
  deleting an id removes the records whose field holds that number (`IdPredicates.DeleteByIdMisdirected`,
  `IdPredicates.OffsetOf256DeletesAnother`).
- The week date of a date, as computed, is the ISO 8601 one for every valid date except 1 and 2 January of the year -32767. Their
  week-year wraps to the value that means "not set", so parsing does not take its week-date path and fails
  (`WeekDates.WeekDateIsIso8601`, `WeekDates.WeekDateRoundTrip`). As text under `%G-W%V-%u` a date reads back if and only if its
  week-year has at most four digits (`WeekText.WeekTextRoundTripIff`).
- A week number that is read is not checked: 00 to 99 all make some date, and it has the week-year and week number of the text if
  and only if the week-year has that week (`WeekText.AnyWeekMakesDate`, `WeekText.WeekDateIsKeptIff`).
- Text is wrapped in quotes and not escaped, so an INSERT stores the contents of all members if and only if none of them holds a
  quote (`Quoting.InsertKeepsContentsIff`); doubled quotes are halved (`Quoting.DoubledQuotesAreHalved`).
- The id that auto-increment gives is greater than every id of the type if and only if those ids are below 2^31; otherwise
  the ids start over and repeat (`Increments.AutoIncrementIsFresh`, `Increments.AutoIncrementRepeats`).
- An execution leaves its transaction open if and only if BEGIN succeeded, the statement's failure (if any) did not end the
  transaction, and the closing COMMIT or ROLLBACK failed without ending it. From then on every execution fails until
  some failure ends it (`Transactions.ExecutedByFaults`, `Transactions.NeverStuckIff`, `Transactions.StaysStuck`), and after a
  failed COMMIT the wrapper's own fetches see the uncommitted statement (`Transactions.FailedCommitIsVisible`).
- A compound predicate with an empty operand never parses (`QueryPredicates.EvaluateParses`), so deleting with the empty
  predicate fails and changes nothing (`Queries.DeleteParses`), and fetching with such a compound closes the connection
  (`Fetching.GetResults`).
- Looking a type up before it is registered leaves an empty description that registration keeps
  (`Reflection.LookupBlocksRegistration`).

Assumptions on inputs, as the code needs them: text holds no single quote and no NUL (src/queries.cc:124); a `LIKE` value may be
any text. Reals are whole millionths, kept as integers. Times lie in the years `date::year` holds. Type and member names are
identifiers other than SQL keywords, distinct without regard to case, type names do not start with "sqlite_", and a record has at
least one member besides `id`; registration then yields types of the required form (`RecordStore.RegisteredTypesAreValid`).
Offsets are distinct and below 2^56, and a pointer to member has 8 bytes. Batches have fewer than 2^31 models, since the loop index
is an `int` (include/database.h:228).

Where a comment and the code differ, the model follows the code: a printed year is not padded to four digits
(src/internal/date.h:3074), although the combined form of section 4.3.2 of ISO 8601:2004 has four digits.

Run `dafny verify dfyconfig.toml` to check the project.

## Model

| member | source | states |
|---|---|---|
| Calendar.ToDays | src/internal/date.h:2970-2987 | every intermediate fits its unsigned or signed type for any year, and the day number of any such date lies within 13 million days of the epoch |
| Calendar.CivilFromDays | src/internal/date.h:3084-3102 | the fields computed from a day number form a valid date whose count of days is that number, for every day number up to the overflow limit |
| Calendar.DateOfEra | src/internal/date.h:3091-3102 | each of the 146097 days of an era decomposes into the valid date that lies that many days after the start of the era |
| Calendar.DayOfEraSplits | src/internal/date.h:3093-3095 | the year-of-era formula puts every day of an era into the year that holds it, day 365 only in leap years, and nothing underflows |
| Calendar.ToDaysIsSerial | src/internal/date.h:2970-2987 | the nested truncating divisions compute the floor-based day count, also before the year 0 |
| Calendar.SerialOfNext | src/internal/date.h:1694-1697 | the successor date, by the month lengths and leap-year rule, has the next day number |
| Calendar.SerialOfWalk | src/internal/date.h:2734-2748 | walking n days from 1970-01-01, forwards or backwards, reaches the date with day number n |
| Calendar.SerialIsMonotone | src/internal/date.h:3029-3039 | the order of valid dates is the order of their day numbers, in both directions |
| Calendar.ToDaysIsMonotone | src/internal/date.h:3029-3039 | `operator<` on `ok()` dates agrees with `<` on `to_days` |
| Calendar.CivilFromDaysIsWalk | src/internal/date.h:3084-3103 | `from_days` agrees with walking that many days in the naive calendar |
| Calendar.ToDaysIsWalk | src/internal/date.h:2970-2987 | walking `to_days` days from 1970-01-01 leads to the date |
| Calendar.FromDaysOfToDays | src/internal/date.h:2970-2987 | `from_days(to_days(d)) == d` for every `ok()` date |
| Calendar.ToDaysOfFromDays | src/internal/date.h:3084-3103 | `to_days(from_days(z)) == z` with an `ok()` date if and only if the year of z fits `date::year` |
| Calendar.FromDaysIsWalk | src/internal/date.h:3084-3103 | `from_days` is the date that many days from 1970-01-01 on its whole domain, apart from the year, which wraps to 16 bits |
| YearMonths.PlusMoves | src/internal/date.h:2274-2284 | adding months yields a month of 1..12 and moves by exactly that many months if and only if the year fits 16 bits; otherwise it is off by whole cycles of 2^16 years |
| YearMonths.DifferenceThenPlus | src/internal/date.h:2304-2311 | the months between two year-months, subtracted unsigned, are the difference of their indexes for all stored months, and lead from one to the other if and only if its month is in 1..12 |
| YearMonths.PlusThenDifference | src/internal/date.h:2304-2311 | the difference after adding months gives them back if and only if the year fits 16 bits |
| YearMonths.PlusIsAdditive | src/internal/date.h:2274-2284 | adding months in two steps is adding their sum, backwards too and even where the year wraps round in between |
| WeekDates.WeekdayFromDaysIsResidue | src/internal/date.h:1820-1827 | the formula with unsigned wrap-around is (z + 4) mod 7 for every 32-bit z |
| WeekDates.WeekdayOfOtherDay | src/internal/date.h:1912-1920 | adding any number of days to a weekday, forwards or backwards, gives the weekday of the day that far away |
| WeekDates.WeekdayDifferenceThenPlus | src/internal/date.h:1902-1920 | a weekday difference lies in 0..6, and y + (x - y) == x |
| WeekDates.WeekdayOfMonthFromThenTo | src/internal/date.h:3275-3292 | a day number survives the n-th-weekday form if and only if its year fits `date::year` |
| WeekDates.WeekdayOfMonthToThenFrom | src/internal/date.h:3275-3292 | every `ok()` n-th weekday of a month is recovered from its day number |
| WeekDates.WeekdayOfMonthOkIffDayExists | src/internal/date.h:3259-3271 | `ok()` accepts a weekday and index if and only if the month has a day with that weekday and index, so index 5 exactly when there is a fifth |
| WeekDates.LastThursdayIsThursday | src/internal/date.h:3466-3473 | the last Thursday of December is a Thursday within the last seven days of its year |
| WeekDates.WeekOneHoldsJanuaryFourth | src/internal/date.h:5345-5351 | week 1 starts on a Monday within three days of the new year, so it holds January 4th |
| WeekDates.WeekYearHoldsWeek | src/internal/date.h:5345-5351 | the week-year is the year that holds the Thursday of the date's week, and its first week starts less than 53 weeks before, for every date but the first two; at the other end two wrap-arounds cancel |
| WeekDates.WeekDateIsIso8601 | src/internal/date.h:5809-5819 | the printed week date is the one of section 4.1.4 of ISO 8601:2004, with the week in 1..53, for every `ok()` date if and only if its week-year fits `date::year` |
| WeekDates.WeekDateRoundTrip | src/internal/date.h:7712-7729 | the week-date path of parsing leads from the computed week-year, week and weekday back to the same date if and only if the week-year fits `date::year`; otherwise the week-year is the "not set" value and the path is not taken |
| TimeOfDay.FloorDaysBrackets | src/internal/date.h:1251-1257 | the remainder after whole days lies in [0, 86400), also before 1970 |
| TimeOfDay.MakeTimeRebuilds | src/internal/date.h:4082-4104 | splitting a duration and rebuilding it is the identity, and the parts are in conventional range exactly within one day |
| TimeOfDay.SplitIsUnique | src/internal/date.h:4082-4104 | a day number and a conventional time of day with the same total can only be the computed ones |
| DecimalText.ValueOfNatText | src/string_utilities.cc:43-45 | the decimal text of a number consists of digits and stands for that number |
| DecimalText.FourDigits | src/internal/date.h:6945-6946 | a number takes at most four digits if and only if it is below 10000 |
| WideInput.WideStream.Peek | src/internal/date.h:6326-6328 | looking ahead sets the end-of-file bit past the end and the fail bit on a stream that is not good, and never moves |
| WideInput.WideStream.ReadUnsigned | src/internal/date.h:6318-6341 | the loop takes the longest run of at most M digits, or of any length for M = 0, yields its value modulo 2^32, and fails below m digits, from any stream state |
| WideInput.WideStream.ReadSigned | src/internal/date.h:6343-6367 | one sign is taken and applied to the value as a 32-bit int; nothing there is a failure unless m is 0 |
| WideInput.WideStream.ReadLongDouble | src/internal/date.h:6369-6419 | the loop takes the longest run of at most M characters with at most one point, accumulates whole part and fraction modulo 2^64, and divides the fraction by its power of ten |
| WideInput.WideStream.ReadLiteral | src/internal/date.h:6468-6489 | a literal advances over its character only, and fails at the end or on another one |
| WideInput.DigitRunIs | src/internal/date.h:6324-6337 | the number of characters a digit loop takes is determined by its stopping condition |
| WideInput.UnsignedIsSmall | src/internal/date.h:6334-6336 | a width limit of M <= 9 digits bounds the value by 10^M, so the accumulator does not wrap |
| FromStream.ReadDate | src/internal/date.h:6937-6950 | the reads of %F and the three `checked_set`s do to the stream and the registers what the specification of %F says, on every failure path |
| FromStream.ReadTime | src/internal/date.h:7300-7315 | the reads of %T and the three `checked_set`s do to the stream and the registers what the specification of %T says |
| FromStream.RoundToEven | src/internal/date.h:1278-1295 | the seconds read are rounded to a whole number at most one half away, and to the even one of two that are equally near |
| FromStream.CheckedSet | src/internal/date.h:6546-6558 | setting a register succeeds if and only if it was not set or agrees, and then it holds what was read |
| FromStream.SetRegistersStay | src/internal/date.h:6546-6558 | under any format a parse that succeeds has changed no register that was set: repeated directives must agree |
| FromStream.LiteralFormatReads | src/internal/date.h:7495-7508 | a format of literal characters, with %% for a percent sign, reads exactly that text from the stream, and fails if and only if the stream goes on otherwise |
| FromStream.SetRegister | src/internal/date.h:6546-6558 | a register is set once; a different later value sets the fail bit |
| FromStream.ReadWeekYear | src/internal/date.h:7404-7421 | the read of %G and its `checked_set` do what the specification of %G says |
| FromStream.ReadWeek | src/internal/date.h:7440-7457 | the read of %V and its `checked_set` do what the specification of %V says; no week number is refused |
| FromStream.ReadWeekday | src/internal/date.h:6662-6708 | the read of %u fails outside 1..7, takes 7 for Sunday, and sets the weekday once |
| FromStream.ReadFields | src/internal/date.h:6631-6642 | interpreting a format of %F, %T, %G, %V, %u, %% and literals character by character until a failure equals the recursive specification; contradictory registers take the exit at `broken`, and the assembled fields are stored only without failure |
| FromStream.NeverBroken | src/internal/date.h:7651-7897 | for no text and no format without week-date directives, so not for `%FT%TZ`, is the exit at `broken` taken |
| FromStream.InterpretKeepsRange | src/internal/date.h:7440-7457 | whatever the text, week number and weekday stay in the range for which assembling a date is defined |
| WeekText.BrokenIff | src/internal/date.h:7712-7827 | the exit at `broken` is taken exactly when a complete week date makes another date than the year, month or day set, or, without one, the date has another weekday, week-year or week number |
| WeekText.AgreeingRegistersMakeDate | src/internal/date.h:7709-7829 | registers that agree with a date and determine it, as year, month and day or as a week date, make that date |
| WeekText.AssembledAgrees | src/internal/date.h:7709-7829 | a date that was assembled agrees with every register that is set, except week-year and week number when these made it |
| WeekText.WeekDateIsKeptIff | src/internal/date.h:7712-7729 | a complete week date makes a date of that week-year and week number if and only if the week-year has that week |
| WeekText.AnyWeekMakesDate | src/internal/date.h:7712-7729 | every four-digit week-year, every week number from 00 to 99 and every weekday make a date |
| WeekText.PrintWeekDate | src/internal/date.h:5795-5822 | the steps of printing %G, %V and %u yield the specified text, the week computed as the source does |
| WeekText.WeekTextShape | src/internal/date.h:1793-1803 | the printed week date has at least four digits of the year after its sign, more only as needed, two of the week number where the week-year fits, and one of the weekday, each standing for its value |
| WeekText.InterpretWeek | src/internal/date.h:6631-6642 | the week-date format reads a week-year, a week number and a weekday with its literals, stopping at the first failure |
| WeekText.WeekTextRoundTripIff | src/internal/date.h:7996-8010 | the printed week date of a date reads back as that date if and only if its week-year has at most four digits, and does not parse otherwise |
| FromStream.DateStepBounds | src/internal/date.h:6945-6949 | a successful %F leaves a year of at most four digits, a month and a day of at most two |
| FromStream.AssembleInBounds | src/internal/date.h:7709-7880 | registers within those bounds become the date and the time of day unchanged |
| TimePoint.SystemTime | src/time_point.cc:65-78 | the stream writes exactly the specified text for every second count with a 32-bit day number |
| TimePoint.SystemTimeIsWritten | src/internal/date.h:3067-3082 | the text has the year with as many digits as it has and "-" only before a negative one, two digits for every other part, and ends at the Z; each part stands for its field of the date and the time of day |
| TimePoint.FromSystemTime | src/time_point.cc:58-63 | the method over the stream returns what the specification parses from the text, or the epoch |
| IsoText.ParseTimeIs | src/internal/date.h:8014-8030 | a text parses exactly when the format is matched and the numbers form a valid date and a conventional time of day, and then to their seconds |
| TimePoint.SecondsOfSplits | src/internal/date.h:8025-8028 | parsed seconds split back into the parsed date and time of day, with h < 24, m < 60 and s < 60 |
| IsoText.ParsesIsoText | src/internal/date.h:7651-7880 | every text of the shape, padded or not, signed or not, whatever follows it, parses to what its numbers stand for |
| IsoText.LayoutParses | src/internal/date.h:6937-6950 | a text with each number of a time at its place, of one to four or one or two digits behind its separator, parses to the seconds these numbers stand for |
| IsoText.ReadsHaveLayout | src/internal/date.h:6468-6489 | nothing else is read: if every read of `%FT%TZ` succeeds, the sign, the digits, each separator and the closing Z stand at their places |
| IsoText.ParsesIff | src/time_point.cc:58-63 | for every text and second: the text parses to that second if and only if it has such a layout and its numbers name that second |
| IsoText.NarrowTextParsesIff | src/time_point.cc:58-63 | a text of characters below 256 without a point parses to a second if and only if it is a sign, numbers and separators of the shape, followed by anything, that name that second |
| IsoText.PointInSeconds | src/internal/date.h:7300-7315 | a point among the two characters of the seconds: tenths count as the nearer second and five tenths as none; a point behind a digit or alone adds nothing |
| TimePoint.ShortYearRoundTrip | src/time_point.cc:58-78 | within four-digit years the printed text parses back to the same second |
| TimePoint.RoundTripIff | src/time_point.cc:58-78 | `FromSystemTime(SystemTime(t)) == t` if and only if the year of t lies in [-9999, 9999] |
| TimePoint.LongYearParsesToEpoch | src/internal/date.h:6945-6946 | for the other years of `date::year` the limit of four digits makes the parse fail and the epoch is returned |
| TimePoint.TimeOfTextHasShortYear | src/time_point.cc:58-63 | whatever the text, the result lies in a year of at most four digits |
| TimePoint.ParsingIsIdempotent | src/time_point.cc:58-78 | `FromSystemTime(SystemTime(FromSystemTime(s))) == FromSystemTime(s)` for every string s |
| TimePoint.SystemTimeTextIsInjective | src/internal/date.h:3067-3082 | different times have different texts over all years of `date::year`, even where the texts do not parse |
| StringUtilities.ToIntOfFromInt | src/string_utilities.cc:34-45 | an integer read back from its text is itself if it fits 32 bits, and 0 otherwise |
| StringUtilities.ToIntReads | src/string_utilities.cc:34-41 | digits are read behind any spaces and one sign, whatever follows them; a number that does not fit 32 bits counts as 0 |
| StringUtilities.ToIntOfNoDigits | src/string_utilities.cc:34-41 | a text without digits there counts as 0 |
| StringUtilities.FromDouble | src/string_utilities.cc:56-64 | the erasing loop ends, and leaves the text without its trailing zeros |
| StringUtilities.RealTextShape | src/string_utilities.cc:56-57 | before trimming, the text of a real has a whole part without needless zeros, a point and exactly six digits, and stands for the real |
| StringUtilities.TrimIsUnique | src/string_utilities.cc:59-61 | the result is the only prefix without a trailing zero that leaves only zeros behind, so trimming again changes nothing |
| StringUtilities.TrimKeepsPoint | src/string_utilities.cc:58-61 | trimming stops at the decimal point: it never takes the point or a digit before it |
| StringUtilities.TrimmedRealParses | src/string_utilities.cc:56-64 | the trimmed text of a real still stands for the same real |
| StringUtilities.RealTextParses | src/string_utilities.cc:47-54 | the text with six decimals reads back as the same real |
| StringUtilities.JoinOfMore | src/string_utilities.cc:78-95 | the left fold puts the separator between every two items; one item stays as it is and none is the empty text |
| StringUtilities.Remove | src/query_predicates.cc:95-102 | erasing first occurrences ends with no occurrence left; for one character all others stay in order |
| Reflection.ReflectionRegister.GetRecordFromTypeId | src/reflection.cc:35-39 | a lookup returns the description, and inserts an empty one when there is none |
| Reflection.ReflectionRegister.Register | include/reflection.h:199-225 | the first registration stores `id` and then the fields in order; later ones change nothing |
| Reflection.ReflectionRegister.RegisterAll | include/reflection.h:227-229 | static initialisation registers structs in any order, each as often as its header is included |
| Reflection.FirstRegistrationWins | include/reflection.h:199-229 | after any sequence of repeated registrations each type has the name of its first registration and holds `id` followed by every field of it, in order, exactly once |
| RecordStore.DescribedIsValid | include/reflection.h:208-222 | registration makes a table type of every struct with legal, distinct names: `id` first, then every field in order |
| RecordStore.RegisteredTypesAreValid | include/reflection.h:199-229 | whatever the order and number of registrations, the register holds types that meet what every store result assumes |
| Reflection.LookupBlocksRegistration | include/reflection.h:203-206 | a lookup before registration leaves a description registration does not fill |
| Reflection.OffsetFromStart | include/reflection.h:104-113 | the copied offset is the number its bytes hold before the first zero byte |
| Reflection.OffsetSurvivesIff | include/reflection.h:108-111 | the offset survives the copy if and only if no zero byte lies below a non-zero one |
| Reflection.MemberAt | include/query_predicates.h:71-77 | the loop finds the first member with the offset, and nothing exactly when no member has it |
| Reflection.PointerNamesMemberIff | include/query_predicates.h:69-77 | with distinct offsets a pointer to member finds its own member if and only if its offset survives the copy |
| Reflection.GapIffMultiple | include/reflection.h:104-113 | below 64 KiB the offsets that do not survive the copy are the multiples of 256 other than 0 |
| Reflection.OffsetOf256IsTakenForStart | include/reflection.h:108-111 | an input that fails: offset 256 is read as 0 |
| Records.ReadBackIff | src/queries.cc:342-360 | a member value of any storage class survives saving and fetching if and only if it is a 32-bit integer, a time in a four-digit year, or of another class |
| Records.ColumnTypesDiffer | include/reflection.h:77-91 | integers and booleans share their declared type, no other two classes do, and only that of times is none of SQLite's own |
| Records.ContentConverts | src/queries.cc:80-124 | the quoted text of a member value becomes its own cell under the affinity of its column |
| Records.CellHydrates | src/queries.cc:281-330 | the text read from the cell sets the member to the value written, up to what `ReadBackIff` says is lost |
| Records.CellReads | src/queries.cc:281-330 | whatever a member held: NULL and empty text leave it, an integer is read as 32 bits and is true only as 1, and a text in a date column is parsed |
| QueryPredicates.CloneIsSame | src/query_predicates.cc:32-50 | deep cloning keeps the tree |
| PredicateObjects.PredicateNode.Clone | src/query_predicates.cc:32-42 | a clone is made of new objects only and has the same tree |
| PredicateObjects.PredicateNode.Connective | src/query_predicates.cc:104-121 | a connective owns new clones of both operands, which may be one object |
| PredicateObjects.PredicateNode.Combine | src/query_predicates.cc:44-50 | `And` and `Or` yield a new object that shares nothing with its operands |
| PredicateObjects.PredicateNode.Text | src/query_predicates.cc:52-109 | the text of an object tree is the text of its tree |
| PredicateObjects.OperandMayGo | src/query_predicates.cc:104-121 | a compound keeps its meaning and text when an operand changes afterwards |
| SqlParser.PrimaryOfTokens | src/query_predicates.cc:107-109 | fully parenthesised tokens parse to the condition they came from, whatever follows |
| SqlParser.AndBindsTighter | src/query_predicates.cc:107-123 | why the parentheses matter: without them `a OR b AND c` parses as `a OR (b AND c)` |
| QueryPredicates.EvaluateLexes | src/query_predicates.cc:52-54 | the printed text splits into the tree's tokens, even when quoted values hold parentheses, " AND " or " OR " |
| QueryPredicates.EvaluateParses | src/query_predicates.cc:107-123 | the printed text parses back to the same tree for any nesting, and parses at all if and only if no part is empty |
| QueryPredicates.EmptyOperandFails | src/query_predicates.cc:36-38 | a connective with an empty operand at any depth never parses |
| QueryPredicates.LikeStringForValue | src/query_predicates.cc:88-92 | the LIKE literal is the value's text, rendered by the storage class of the member found, without quotes between percent signs |
| QueryPredicates.LikeTextIs | src/query_predicates.cc:52-92 | what LIKE looks for is the printed integer, "1" or "0", the real with six decimals without its trailing zeros but with its point, the text without quotes, or the stored text of the time: the same text that an INSERT stores |
| QueryPredicates.LikeFindsOwnValue | src/query_predicates.cc:88-92 | LIKE with a member's own value, without wildcards, finds the member, in all five classes |
| QueryPredicates.PredicateTexts | src/query_predicates.cc:107-109 | a comparison prints as member, operator and value, and a combination as its two operands in their order around AND or OR, in parentheses |
| QueryPredicates.ValueTextWellFormed | src/query_predicates.cc:56-92 | the literal is a number or well quoted; a LIKE literal for any text at all |
| QueryPredicates.LikeFindsOccurrences | src/query_predicates.cc:88-92 | a LIKE literal without wildcards of its own matches exactly the values its text occurs in, in either case |
| SqlEngine.FoldedTogether | src/query_predicates.cc:88-92 | LIKE takes two characters for the same only if they are equal or the two cases of one ASCII letter |
| SqlEngine.TextOfRealParses | tests/database_test.cc:328 | a LIKE search sees a stored real as its shortest decimal with a digit behind the point, so "5000." occurs in the text of 15000.0 |
| QueryPredicates.MakePredicate | include/query_predicates.h:65-78 | the constructor loop names the member found at the offset and renders the value by that member's storage class, or leaves both empty |
| QueryPredicates.PointerBuildsIff | include/query_predicates.h:65-78 | the predicate made from a pointer is the comparison of that member if and only if its offset survives the copy |
| QueryPredicates.BuildFromPointersIff | include/query_predicates.h:65-78 | a whole tree made from pointers is the tree of the members meant if and only if every offset in it survives the copy |
| QueryPredicates.BuildFromPointersRedirects | include/query_predicates.h:69-77 | otherwise it is the tree of the members the pointers find, as long as their classes agree |
| QueryPredicates.EqualityPreserved | src/query_predicates.cc:56-86 | equality with the printed literal on the stored cell is equality of the member values, for all five classes |
| QueryPredicates.OrderPreserved | src/query_predicates.cc:56-86 | the four orders on stored cells are the orders of the numbers |
| QueryPredicates.MeaningPreserved | src/query_predicates.cc:52-123 | evaluating the printed predicate on the stored row decides the criterion on the record, for every tree and every record |
| Queries.GetValues | src/queries.cc:76-128 | the loop yields the quoted text of every member in the order of the metadata |
| SqlLexer.WrappedIsItselfIff | src/queries.cc:124 | a value wrapped in quotes, with no quote behind it, stands for itself if and only if it holds no quote, whatever follows |
| SqlLexer.DoubledQuoteIsHalved | src/queries.cc:124 | an input that changes: two quotes in a row are stored as one |
| Queries.InsertSql | src/queries.cc:170-180 | the method assembles the INSERT text the parse lemmas are about |
| Queries.UpdateSql | src/queries.cc:185-207 | the method pairs every column but the first with the value at its position |
| Queries.CreateParses | src/queries.cc:142-157 | the CREATE TABLE text declares every member with the type of its class and `id` alone as the key |
| Queries.InsertParses | src/queries.cc:170-180 | the INSERT text names every column in order and gives it the value of the same member |
| Quoting.InsertKeepsContentsIff | src/queries.cc:170-183 | the INSERT text gives every column the content of its member if and only if no content holds a quote |
| Quoting.EscapedInsertParses | src/queries.cc:170-183 | contents whose quotes were doubled are stored as the texts they were before |
| Quoting.DoubledQuotesAreHalved | src/queries.cc:124 | the input: contents with doubled quotes are not stored as they are |
| Queries.UpdateParses | src/queries.cc:185-207 | the UPDATE text assigns every member but `id` its own value, where the id is the record's |
| Queries.DeleteParses | src/queries.cc:161-165 | the DELETE text removes where the predicate's tree holds; with an empty part it does not parse |
| Queries.FetchParses | src/queries.cc:332-340 | the SELECT text reads everything for the empty predicate alone, else where the predicate's tree holds |
| Queries.MaxParses | src/queries.cc:218-220 | the text asks for the greatest `id` of the type's table |
| RecordTables.InsertRuns | src/queries.cc:170-180 | running the INSERT adds the record under its id, and fails if and only if the id is taken |
| RecordTables.UpdateRuns | src/queries.cc:185-207 | running the UPDATE gives exactly the record with that id its new values, never writes an id, and touches no other row |
| RecordTables.DeleteRuns | src/queries.cc:161-165 | running the DELETE removes exactly the records that satisfy the criterion |
| RecordTables.SelectRuns | src/queries.cc:252-279 | running the SELECT yields the rows of exactly the admitted records |
| RecordTables.MaxRuns | src/queries.cc:222-241 | the greatest id is an id of the type and none is greater; NULL without records |
| Fetching.GetResults | src/queries.cc:252-279 | the two loops collect the text of every column of every row; a statement that cannot be prepared returns nothing and closes the connection, and no other one does |
| Fetching.Hydrate | src/queries.cc:281-330 | the loop over the columns sets every member from its text in place and leaves members with empty text as they were |
| Fetching.HydrateAll | include/database.h:196-205 | a new model is hydrated for every row, in order |
| Fetching.HydratedIsRecovered | src/queries.cc:281-330 | hydrating a new model from a record's row recovers the record, whatever the new model held |
| Fetching.RecoveredIff | src/queries.cc:281-360 | a record is recovered as it was saved if and only if all its values are faithful |
| Fetching.FetchYields | src/database.cc:75-78 | a fetch returns the column names of the type and exactly the admitted records, each as it is recovered |
| Fetching.ModelsAre | src/database.cc:75-78 | the models of a fetch are exactly the admitted records in the order of their ids, each as it is recovered |
| Fetching.OnlyOneIff | include/database.h:81-91 | a fetch that demands one record succeeds if and only if exactly one is admitted, and returns that one recovered |
| Fetching.ResultsFit | src/queries.cc:281-284 | whatever the predicate, the rows of a type's table have a text for every member that is hydrated |
| Fetching.GetMaxId | src/queries.cc:222-241 | the method returns the greatest id as specified, and closes the connection exactly when the query cannot be prepared |
| Fetching.MaxIdIs | src/queries.cc:222-241 | the id returned is the greatest one read as 32 bits, and 0 for an empty table |
| Fetching.NextIdIsFreshIff | include/database.h:214-217 | the id after it exceeds all ids of the type if and only if they are below 2^31 |
| Transactions.Execute | src/queries.cc:62-74 | the method takes the connection through BEGIN, the statement and COMMIT or ROLLBACK as specified, with its three exceptions |
| Transactions.ExecutedByFaults | src/queries.cc:62-74 | which exception is thrown, what is committed and whether a transaction stays open, exactly, from the faults of the three statements and the statement's own effect |
| Transactions.ExecutedIsAtomic | src/queries.cc:62-74 | an execution applies its whole statement or leaves what is committed as it was, from any state |
| Transactions.FailedCommitIsVisible | src/queries.cc:71-73 | a COMMIT that fails and leaves its transaction open throws, yet the connection itself sees the whole effect |
| Transactions.StaysStuck | src/queries.cc:62-66 | once a transaction stays open every later execution fails and changes nothing, as long as no failure ends it |
| Transactions.NeverStuckIff | src/queries.cc:62-74 | over any run, whatever statements fail in it, no transaction is ever left open if and only if every execution closes cleanly: no COMMIT or ROLLBACK that closes one fails without ending it |
| Transactions.FailedStatementCloses | src/queries.cc:67-70 | a failed statement whose ROLLBACK succeeds changes nothing and leaves no transaction open |
| RecordStore.ChangeRefines | include/database.h:134-179 | the statement text of a change fails if and only if the change does, and otherwise the tables represent the changed records |
| RecordStore.TypesAreIsolated | include/database.h:134-179 | what changes make of the records of a type depends on its own changes alone |
| Requests.StepRefines | src/queries.cc:62-74 | an executed change is applied to the committed store as a whole or not at all; without faults it is done exactly when it can be applied |
| Requests.BatchRefines | include/database.h:223-238 | a batch leaves exactly the changes before its first failure, whatever the faults; without faults that is the first change that cannot be applied |
| Requests.RunRefines | include/database.h:61-238 | over every run of requests with any faults the committed tables represent the store that the done changes make |
| IdPredicates.ByIdAdmits | include/database.h:81-91 | the comparison of `id` with a number admits exactly the record with that id: for fetching one or none, for deleting that one |
| IdPredicates.IdPredicateIs | include/database.h:85 | the predicate made from `&T::id` is that comparison if and only if the offset of `id` survives the copy of the pointer |
| IdPredicates.DeleteByIdIff | include/database.h:154-170 | deleting by id removes exactly the record with that id, for all tables of the type and all ids, if and only if the offset of `id` survives |
| IdPredicates.FetchByIdIff | include/database.h:81-91 | fetching by id reads exactly the record with that id, for all tables of the type and all ids, if and only if the offset of `id` survives |
| IdPredicates.DeleteByIdMisdirected | include/database.h:164-170 | when the pointer finds another integer member, deleting an id removes exactly the records in which that member holds the number |
| IdPredicates.OffsetOf256DeletesAnother | include/database.h:164-170 | the input: `id` at offset 256 behind an integer field; deleting an id no record has removes a record, and deleting that record's own id keeps it |
| IdPredicates.NamelessFails | include/query_predicates.h:69-77 | a pointer that finds no member makes a predicate whose statements do not parse |
| ReferenceModel.MaxIsGreatest | src/queries.cc:222-241 | the query for the greatest id returns the greatest key of the type's map, read as 32 bits |
| ReferenceModel.RequestIsServed | include/database.h:134-238 | without faults a request, auto-incremented or not, does to the tables what it does to the map of records |
| ReferenceModel.FaultlessRunIsModel | include/database.h:61-238 | without faults any run of requests leaves exactly the records that the reference model, a map of records for each type, holds after the same requests |
| Outcomes.SavesAreStored | include/database.h:223-238 | whatever the faults, after n of the models of a save are done the store holds just these, each under its own or its new id that was free and with all other members as given, next to all records that were there; without faults only a taken id stops the save |
| Outcomes.SaveIsStored | include/database.h:209-219 | one model saved, under its own id or the greatest + 1, is in the store with all other members as given, and nothing else has changed |
| Outcomes.UpdatesAreStored | include/database.h:143-150 | whatever the faults, each id that was there holds the last of its models that was done, ids that were not there stay away, and nothing else changes; without faults all are done |
| Outcomes.DeletionIsStored | include/database.h:174-179 | a deletion that is done removes exactly the records that satisfy the criterion, one that fails changes nothing, and without faults only the empty predicate fails |
| RecordDatabase.Database.constructor | src/database.cc:57-69 | the tables of all registered types are created one execution after another, up to the first exception |
| RecordDatabase.Database.Save | include/database.h:209-219 | saving one model, under its own or the next id, leaves the connection as the specified request does, and closes it only if the greatest id cannot be read |
| RecordDatabase.Database.SaveAll | include/database.h:223-238 | the loop saves models until the first exception and numbers them from the greatest id read once |
| RecordDatabase.Database.Update | include/database.h:134-139 | updating one model leaves the connection as the specified request does |
| RecordDatabase.Database.UpdateAll | include/database.h:143-150 | the loop updates models until the first exception |
| RecordDatabase.Database.Delete | include/database.h:174-179 | deleting by any predicate is one execution of its DELETE |
| RecordDatabase.Database.DeleteById | include/database.h:164-170 | deleting by id makes the predicate from `&T::id` and executes its DELETE; if the offset of `id` survives that is the request to delete just that record |
| RecordDatabase.Database.DeleteModel | include/database.h:154-160 | deleting a model deletes by its id |
| RecordDatabase.DeletionIsRequest | include/database.h:174-179 | deleting by the predicate of a criterion is the request to delete exactly what satisfies it |
| RecordDatabase.Database.Fetch | include/database.h:71-78 | fetching by any predicate hydrates the rows of its SELECT, and closes the connection exactly when that cannot be prepared |
| RecordDatabase.FetchedModels | include/database.h:71-78 | fetching by the predicate of a criterion returns exactly what satisfies it, recovered, in the order of the ids |
| RecordDatabase.Database.FetchAll | include/database.h:60-67 | all records of the type are returned, recovered, in the order of their ids |
| RecordDatabase.Database.FetchOne | include/database.h:81-91 | the predicate is made from `&T::id`; if the offset of `id` survives, the record with the id is returned, recovered, and an exception is thrown if and only if there is none |
| RecordDatabase.FetchedById | include/database.h:81-91 | if the offset of `id` survives, fetching an id reads the record the tables hold under it and nothing else |
| Increments.InsertionsApply | include/database.h:223-238 | insertions all succeed if and only if no id is taken or repeated; they add their records and leave all other records and types |
| Increments.AutoInsertionsAre | include/database.h:226-233 | the i-th model is inserted under the greatest id + 1 + i, with every other member as it was |
| Increments.BatchStopsAtFirstClash | include/database.h:223-238 | without faults a batch save stops exactly at the first model whose id is taken or repeated, and keeps the models before it |
| Increments.AutoIncrementIsFresh | include/database.h:226-233 | the ids are consecutive, from 1 for an empty table, and exceed all ids there if and only if those are below 2^31; then every model is in the store under its new id with all its other members, next to every record that was there |
| Increments.AutoIncrementRepeats | include/database.h:214-217 | with an id of 2^31 or more, the next save is given the id just saved and fails |
| Persistence.CreationRefines | src/database.cc:57-69 | opening a database keeps the records its tables have and makes the missing tables empty |
| Persistence.NewDatabaseIsEmpty | src/database.cc:57-69 | a new database represents the store without records |
| Persistence.SaveSucceedsIff | include/database.h:209-219 | a save succeeds if and only if no transaction is open, its three statements meet no fault and the id is free, and then adds just that record |
| Persistence.SavedIsFetched | include/database.h:81-91 | a saved record is what its id fetches, for every metadata list in which the offset of `id` survives and every storable value, equal if and only if its values are faithful |
| Persistence.SavedIsFetchedIff | include/database.h:81-91 | for a type without records, every record saved without faults is what its id fetches if and only if the offset of `id` survives |
| Persistence.FetchAfterRun | include/database.h:61-238 | after any run, whatever failed in it, a fetch returns exactly the admitted records of the store that the done changes make |
| Persistence.RunIsolates | include/database.h:61-238 | after any run the records of a type are what the run's changes to that type alone would have left |

## Left out

- SQLite itself: files and locking. Faults strike BEGIN, statement, COMMIT and ROLLBACK; a SELECT fails only when its text cannot be
  prepared.
- Fetching.GetResults: a failing step is not modelled: the loop would not end while steps keep failing. What becomes of a connection
  after it is closed is not modelled either, since using it is undefined.
- A SELECT without ORDER BY is taken to visit rows by ascending key.
- Updates of a primary key and tables without a leading INTEGER PRIMARY KEY, which the library never writes, are rejected by the
  engine model.
- `Database::Sql` and `SqlQuery`: arbitrary text with no contract.
- `ToUtf8` and `FromUtf8`: text is a sequence of characters with the identity codec, so an invalid encoding cannot arise.
- IEEE doubles: reals are whole millionths. Infinite values, exponents and hexadecimal forms read by `stod` are not modelled.
- StringUtilities.ToDouble: reads an optional '-', digits, a point and at most six digits, as every real column gives back; other
  texts that `stod` would read count as 0.
- WideInput.WideStream.ReadLongDouble: `long double` arithmetic is exact here; for the at most two characters that the formats read,
  rounding could not change the nearest second. A width limit of 0 is left out.
- WideInput.WideStream.ReadSigned: negating the least `int`, which only widths of ten digits or more can reach, is undefined and
  excluded.
- Records.Storable: text with single quotes, except in LIKE values, is followed through the INSERT text only, in `Quoting`; text
  with NUL is not followed.
- QueryPredicates.MakePredicate: what a value's bytes read as when the member found has another class is a parameter, since the
  language leaves it open; the exact results assume only that it is some literal.
- `Like` calls its own `GetStringForValue` while its base class is constructed; the model takes that call to reach `Like`'s
  version, the class being final.
- FromStream.ReadFields: the format letters other than %F, %T, %G, %V, %u and %%, their registers, widths and modifiers, white space
  in formats, locale facets, time zones and am/pm.
- FromStream.NeverBroken: is about formats without week-date directives; for the others `WeekText.BrokenIff` says when it fails.
- Stream plumbing: sentries, saved flags, fill and width; the decimal point is '.'.
- The C++20 branch of `TimePoint` and the Windows macros.
- Years outside 16 bits and second counts whose day number does not fit an `int`.
- Raw pointer casts and addresses: a record is a sequence of typed values indexed by its metadata, and a registered type is
  looked up by its type id, so aliasing of a caller's struct is not captured.
- QueryPredicates.CloneIsSame: is about trees as values; ownership is in `PredicateObjects`, apart from freeing.
- `Finalize`, `Initialize` and the lifetime of the singletons.
- Requests.RunRefines: a run holds requests only; fetches are results about the states between them. Deletions in a run remove by a
  criterion: by an id, that is what the library does if the offset of `id` survives.
- WeekDates.WeekdayOfMonthToThenFrom: indexes below 16, since the index is a bit-field of four bits.
