# interval — a Dafny model

This project models the Go package `interval`. The package provides intervals over ordered values. Each interval has a left end, a right end and a one-byte open/closed flag. Bit 1 (`ClosedOpen`, value 2) marks a closed left end. Bit 0 (`OpenClosed`, value 1) marks a closed right end.

Four kinds of interval are modelled, each with its membership test (`Contains`) and its text form (`String`):

- the generic interval, ordered by a caller's three-way `CompareTo`;
- `BaseInterval`, ordered by Go's native `<` and `==`;
- `TimeInterval`, over points in time;
- `NullableTimeInterval`, whose ends may be missing (nil).

The text form looks like `[1,2)` or `(2022-01-01T13:12:11Z, null]`:

- the first and last bytes are the brackets;
- a single comma separates the two values;
- spaces around each value are ignored.

The parsers are `ParseStrInterval`, `ParseIntInterval`, `ParseTimeInterval` and `ParseNullableTimeInterval`. Each one checks the text's structure first, then its brackets, then the left value and then the right value.

Modules, one per source file (plus helpers):

- `Consts` (const.go): flag values, bracket, separator and layout constants, bracket tables.
- `Errors` (error.go): the three sentinel errors, plus `Result`/`Option` for Go's `(value, err)` pairs and nil pointers.
- `Sortable` (sortable.go): what a comparator must satisfy, and the comparison a native order induces.
- `GoStrings`: the byte-level behaviour of `strings.Split`, `strings.Trim` and `strings.ToUpper` as the package uses them.
- `Intervals` (interval.go): flag queries, the generic interval, `blowUp`, `isClosedFlag`, `getOpenClosedType` and the shared notation `Render`.
- `BaseIntervals` (base.go): native-order intervals and the string and int64 parsers.
- `TimeIntervals` (time.go): time intervals.
- `NullableTimeIntervals` (nullabletime.go): time intervals with optional ends, and the `NULL` token.

How the model is built:

- Go strings are byte strings. A Dafny `string` here stands for one `char` per byte, so lengths, indexing, splitting and trimming work on bytes as in Go.
- A `time.Time` is reduced to the instant it denotes (`Instant = int`). `After`, `Before` and `Equal` compare instants.
- Code from other packages becomes a function parameter: `strconv.ParseInt` is `parseInt`, `fmt.Sprint` is `sprint`, `time.Parse` is `parseTime(layout, value)` and `Time.Format` is `format(instant, layout)`.
- A parser error from those functions is carried as `ValueParseErr(cause)`.
- Step-by-step code stays imperative: `getOpenClosedType` accumulates bits in a local, and every `String` appends to a buffer. Every `Parse*` function is an early-return chain.
- Each such method is proved equal to a specification function (`FlagsOf`, `Render`, `StrIntervalOf`, `IntIntervalOf`, `TimeIntervalOf`, `NullableTimeIntervalOf`), and the properties are proved about those functions.

Points where the code was followed:

- The default time layout is `"2006-01-02T15:04:05Z"` (const.go:12). This layout ends in a literal `Z`, not a time-zone directive, so it is not RFC 3339. The model uses the code's constant.
- Formatting and parsing back give the same interval only when the two rendered values are together at least 2 bytes long. Take the string interval with two empty ends and `ClosedOpen` (what `"[ , )"` parses to). Its text is `"[,)"`, and `blowUp` rejects that as too short. `StrBlankEndpoints` and `StrBlankEndpointsTooShort` state this case. Every round-trip lemma carries the length condition.
- Bracket direction is never checked, so `"]"` is accepted as a left flag and `"["` as a right flag. `IsClosedFlag` and `StrIntervalOf` state this.

## Model

| member | source | states |
|---|---|---|
| Consts.FlagValues | const.go:4-9 | Open, OpenClosed, ClosedOpen and Closed are 0, 1, 2 and 3; Closed is ClosedOpen OR OpenClosed; Default is ClosedOpen |
| Consts.FlagTables | const.go:24-27 | OpenFlags is exactly {"(", ")"}, ClosedFlags is exactly {"[", "]"}, and they are disjoint |
| Sortable.CompareOfIsTotalOrder | sortable.go:9-16 | the three-way comparison induced by a strict total order is a total order (sign flip, transitive at-most) and is 0 exactly on equal values |
| Sortable.StringLessIsStrictTotalOrder | base.go:106-110 | Go's byte-wise string `<` is irreflexive, transitive and connected |
| Sortable.StringLess | base.go:106-110 | Go's byte-wise string `<`: a string is never below itself, and a proper prefix is below the longer string |
| GoStrings.Split | interval.go:97 | strings.Split gives one more part than there are separators, and no part holds the separator |
| GoStrings.JoinSplit | interval.go:97 | joining the parts of a split with the separator gives back the input |
| GoStrings.SplitTwo | interval.go:97-100 | a text with exactly one separator splits into the text before it and the text after it |
| GoStrings.Trim | interval.go:101 | the trimmed value neither starts nor ends with the cutset byte and is no longer than the input |
| GoStrings.TrimNothing | interval.go:101 | a value with no cutset byte at either edge trims to itself |
| GoStrings.TrimKeepsOut | interval.go:101 | trimming adds no byte that was not in the input |
| GoStrings.TrimPadding | interval.go:101 | padding a value with cutset bytes on either side does not change its trimmed form |
| GoStrings.ToUpper | nullabletime.go:135 | ToUpper keeps the length and upper-cases each ASCII letter, leaving other bytes alone |
| Intervals.LeftClosed | interval.go:49-51 | left-closed iff the flag value mod 4 is at least 2, i.e. bit 1 is set |
| Intervals.RightClosed | interval.go:54-56 | right-closed iff the flag value is odd, i.e. bit 0 is set |
| Intervals.NamedFlags | interval.go:49-56 | Closed closes both ends, Open neither, ClosedOpen only the left and OpenClosed only the right; Default is left-closed and right-open |
| Intervals.HighBitsIgnored | interval.go:49-56 | two flag values that agree on the low two bits answer both queries alike |
| Intervals.FlagsFor | interval.go:114-127 | the flag value built for given closed ends is at most Closed and answers the two queries with exactly those ends |
| Intervals.FlagsForQueries | interval.go:114-127 | every flag value 0..3 is rebuilt from its two query answers |
| Intervals.Interval.Contains | interval.go:58-69 | every point strictly between the ends is a member and so is a closed end; an open end is a member only as the other, closed end; a point on neither end is a member iff it lies strictly between them |
| Intervals.ContainsOrdered | interval.go:58-69 | under a total order with left before right, membership is the textbook one: above left (or equal at a closed left end) and below right (or equal at a closed right end) |
| Intervals.ContainsPoint | interval.go:58-69 | when left and right compare equal, the interval holds only that point and only if some end is closed; Closed holds exactly the point, Open holds nothing |
| Intervals.ContainsInverted | interval.go:58-69 | when left is after right, only a closed end itself can be contained |
| Intervals.Interval.String | interval.go:72-88 | the text is the left bracket of LeftClosed, the rendered left value, a comma, the rendered right value and the right bracket of RightClosed |
| Intervals.Render | interval.go:72-88 | the text is the values' lengths plus 3 bytes: the left bracket of the left end's closedness, the left value, a comma at the byte after it, the right value, and the right bracket of the right end's closedness |
| Intervals.BlowUp | interval.go:90-102 | ParseTooShortErr iff the text is under 5 bytes; otherwise ValueStrErr iff the inside does not hold exactly one comma; otherwise success, with the first and last bytes as flags and two trimmed values |
| Intervals.BlowUpValues | interval.go:95-101 | a bracket, a comma-free value, a comma, a comma-free value and a bracket (values together at least 2 bytes) blow up into those brackets and the two trimmed values |
| Intervals.BlowUpPadding | interval.go:101 | extra spaces around either value do not change what blowUp returns |
| Intervals.IsClosedFlag | interval.go:104-112 | "(" or ")" gives open, "[" or "]" gives closed, in either position; any other string gives OpenClosedFlagErr |
| Intervals.FlagsOf | interval.go:114-127 | a bad left flag is reported whatever the right flag is; success iff both flags are brackets; the result is at most Closed, with bit 1 iff the left flag is closed and bit 0 iff the right flag is closed |
| Intervals.FlagsOfBrackets | interval.go:114-127 | any left bracket byte with any right bracket byte decodes to the flag value of their two closed ends |
| Intervals.GetOpenClosedType | interval.go:114-127 | the accumulating method returns FlagsOf's value or its error; on a bad left flag the value is Open, on a bad right flag it is the left flag's bit alone |
| Intervals.RenderRoundTrip | interval.go:72-127 | rendering flags 0..3 with two clean values (together at least 2 bytes), then blowing up and decoding the flags, gives back the values and flags |
| BaseIntervals.NewBaseInterval | base.go:15-25 | the ends are stored verbatim with no ordering check; the flags are the first supplied, or Default (ClosedOpen) when none is supplied |
| BaseIntervals.BaseInterval.Contains | base.go:106-110 | every value strictly between the ends under `<` is a member and so is a closed end; a value equal to neither end is a member iff it lies strictly between; every member is an end or strictly between |
| BaseIntervals.ContainsAgrees | base.go:106-110 | with a strict total order for `<`, native membership equals generic membership under the induced comparison |
| BaseIntervals.NativeContainsAgree | base.go:106-110 | for string and int64 ends, native membership is generic membership under a comparison that is a total order |
| BaseIntervals.BaseInterval.String | base.go:113-129 | the text is the bracket of each end's closedness around the two rendered values and a comma |
| BaseIntervals.StrIntervalOf | base.go:28-38 | blowUp's error is passed through; when blowUp succeeds but a flag is not a bracket the error is OpenClosedFlagErr; success iff blowUp succeeds and both bracket bytes are brackets; the ends are blowUp's trimmed values and the flags come from the brackets |
| BaseIntervals.ParseStrInterval | base.go:28-38 | the early-return chain returns exactly StrIntervalOf |
| BaseIntervals.IntIntervalOf | base.go:41-58 | blowUp's error first, then the flag error, then the left number's parse error, then the right number's; success iff the string parse and both number parses succeed; the ends are the parsed numbers and the flags those of the string parse |
| BaseIntervals.ParseIntInterval | base.go:41-58 | the early-return chain returns exactly IntIntervalOf |
| BaseIntervals.StrRoundTrip | base.go:28-38 | a string interval with flags 0..3 and clean ends (together at least 2 bytes) parses back from its text |
| BaseIntervals.StrReparse | base.go:113-129 | every parsed string interval whose ends total at least 2 bytes parses back from its own text |
| BaseIntervals.StrParse | base.go:28-38 | a well-formed text parses to its two trimmed values and the flags of its two bracket bytes |
| BaseIntervals.StrBlankEndpoints | base.go:28-38 | "[ , )" parses to two empty ends with ClosedOpen |
| BaseIntervals.IntRoundTrip | base.go:41-58 | given a number parser that undoes the printer, and printed numbers that are clean and non-empty, every int64 interval with flags 0..3 parses back from its text |
| BaseIntervals.IntWhitespaceTolerance | base.go:41-58 | spaces around the values do not change the parsed int64 interval |
| BaseIntervals.IntParse | base.go:41-58 | a well-formed text parses to its two trimmed values read as numbers and the flags of its bracket bytes |
| BaseIntervals.IntParsePadded | base.go:41-58 | a right value preceded by spaces parses like the value without them |
| BaseIntervals.IntExampleClosed | base_test.go:26-30 | "[1,2]" gives (1, 2, Closed) |
| BaseIntervals.IntExampleClosedOpen | base_test.go:31-35 | "[1,2)" gives (1, 2, ClosedOpen) |
| BaseIntervals.IntExamplePadded | base_test.go:36-40 | "[1,  20000)" gives (1, 20000, ClosedOpen) |
| BaseIntervals.IntExampleOpen | base_test.go:41-45 | "(0,  20000)" gives (0, 20000, Open) |
| BaseIntervals.IntExampleNegative | base_test.go:46-50 | "(-1,  20000)" gives (-1, 20000, Open) |
| TimeIntervals.NewTimeInterval | time.go:16-26 | the instants are stored as given; the flags are the first supplied, or Default (ClosedOpen) when none is supplied |
| TimeIntervals.LayoutOf | time.go:38-41 | the layout is the first supplied, or the package default |
| TimeIntervals.TimeInterval.Contains | time.go:78-82 | every instant strictly between the ends is a member and so is a closed end; an instant equal to neither end is a member iff it lies strictly between; every member is an end or between the ends |
| TimeIntervals.TimeContainsAgrees | time.go:78-82 | time membership equals generic membership under the comparison of instants, which is a total order |
| TimeIntervals.TimeContainsOrdered | time.go:78-82 | with left before right, membership is the textbook one for each end's closedness |
| TimeIntervals.TimeInterval.String | time.go:85-105 | the text is each instant formatted in the chosen layout, joined by a comma inside the brackets of the two flags |
| TimeIntervals.TimeIntervalOf | time.go:29-50 | structural and flag errors come before any time-parse error, and the left value's parse error is reported before the right value's, each as ValueParseErr; success iff all succeed; the ends are the instants parsed in the chosen layout and the flags come from the brackets |
| TimeIntervals.ParseTimeInterval | time.go:29-50 | the early-return chain returns exactly TimeIntervalOf |
| TimeIntervals.TimeParse | time.go:29-50 | a well-formed text parses to its trimmed values read as instants and the flags of its bracket bytes, whatever the values |
| TimeIntervals.TimeParsePadded | time.go:29-50 | a right value preceded by spaces parses like the value without them |
| TimeIntervals.TimeRoundTrip | time.go:85-105 | given a time parser that undoes the formatter in the chosen layout, with clean non-empty formatted instants, every time interval with flags 0..3 parses back from its text |
| TimeIntervals.StampExample | time_test.go:20-63 | the test texts with any pair of bracket bytes give the two instants and the flags of those brackets |
| TimeIntervals.TimeExampleClosed | time_test.go:20-30 | "[…, …]" gives Closed |
| TimeIntervals.TimeExampleOpen | time_test.go:31-41 | "(…, …)" gives Open |
| TimeIntervals.TimeExampleOpenClosed | time_test.go:42-52 | "(…, …]" gives OpenClosed |
| TimeIntervals.TimeExampleClosedOpen | time_test.go:53-63 | "[…, …)" gives ClosedOpen |
| TimeIntervals.TimeExampleLayout | time_test.go:64-75 | with layout "2006-01-02", "[2022-01-01, 2022-05-01)" gives the two dates with ClosedOpen |
| NullableTimeIntervals.NewNullableTimeInterval | nullabletime.go:21-31 | the optional ends are stored as given; the flags are the first supplied, or Default (ClosedOpen) when none is supplied |
| NullableTimeIntervals.NullableTimeInterval.Contains | nullabletime.go:84-101 | only a present element can be a member, and only of an interval with some end; a member is not before a lone left end nor after a lone right end; a present closed end contains itself |
| NullableTimeIntervals.NothingForNull | nullabletime.go:84-94 | a missing element is in no interval, and an interval with both ends missing contains nothing |
| NullableTimeIntervals.BothEndsAgree | nullabletime.go:89-92 | with both ends present, membership is that of the time interval with those ends |
| NullableTimeIntervals.LeftUnbounded | nullabletime.go:95-96 | with the left end missing, membership is that of a time interval whose left end is any instant below the element: below right, or equal at a closed right end; the left flag plays no part |
| NullableTimeIntervals.RightUnbounded | nullabletime.go:97-98 | with the right end missing, membership is that of a time interval whose right end is any instant above the element: above left, or equal at a closed left end; the right flag plays no part |
| NullableTimeIntervals.ContainsExamples | nullabletime_test.go:58-164 | the expected answers of the twelve Contains tests, on the intervals the test texts denote |
| NullableTimeIntervals.IsNullToken | nullabletime.go:135 | a value is the null token iff it has NULL's 4 bytes after upper-casing each byte |
| NullableTimeIntervals.NullableTimeInterval.String | nullabletime.go:104-132 | the text is each present end formatted in the chosen layout and each missing end as NULL, joined by a comma inside the brackets of the two flags |
| NullableTimeIntervals.NullTokenSpelling | nullabletime.go:135 | a value is the null token iff it is "null" in any mix of upper and lower case |
| NullableTimeIntervals.NullableTimeOf | nullabletime.go:134-143 | the null token reads as a missing end; any other value reads as the instant the time parser gives, or as its error |
| NullableTimeIntervals.NullableTimeIntervalOf | nullabletime.go:34-55 | structural and flag errors come first, then the left value's read error, then the right value's; on success each end is read as NULL or as an instant, and the flags come from the brackets |
| NullableTimeIntervals.ParseNullableTimeInterval | nullabletime.go:34-55 | the early-return chain returns exactly NullableTimeIntervalOf |
| NullableTimeIntervals.NullableParse | nullabletime.go:34-55 | a well-formed text with clean values parses to each value read as NULL or as an instant, with the flags of its bracket bytes whether or not the ends are missing |
| NullableTimeIntervals.NullFlagReadsBack | nullabletime.go:115-125 | NULL, as String writes a missing end, is a clean 4-byte value that reads back as a missing end |
| NullableTimeIntervals.EndTextReadsBack | nullabletime.go:115-143 | one end as String writes it reads back as that end |
| NullableTimeIntervals.NullableRoundTrip | nullabletime.go:104-143 | given a time parser that undoes the formatter, with formatted instants that are clean, non-empty and not a spelling of null, every nullable interval with flags 0..3 parses back from its text |
| NullableTimeIntervals.NullableExampleBothNull | nullabletime_test.go:29-34 | "[null,null)" gives (missing, missing, ClosedOpen) |
| NullableTimeIntervals.NullableExampleLeftNull | nullabletime_test.go:21-27 | "[null,2022-10-01T00:00:00Z]" gives (missing, tm, Closed) |
| NullableTimeIntervals.NullableExampleRightNull | nullabletime_test.go:35-42 | "(2022-10-01 00:00:00,null)" in layout "2006-01-02 15:04:05" gives (tm, missing, Open) |

## Left out

- Float endpoints (`ParseFloatInterval`, `BaseInterval[float64]`, the Inf tests): floating-point parsing and NaN ordering are not modelled. `IsStrictTotalOrder` does not hold for Go's `<` on floats.
- `strconv.ParseInt`, `fmt.Sprint`/`fmt.Sprintf`, `time.Parse` and `Time.Format` belong to other packages. They are function parameters, so layout semantics, int64 range checks and the exact error texts are not modelled. The round-trip lemmas assume, as preconditions, that parsing undoes formatting.
- `time.Time` beyond its instant (location, monotonic reading) is not modelled. `reflect.DeepEqual` in the tests also compares those.
- GoStrings.ToUpper: only ASCII letters are upper-cased. Go's Unicode case mapping of multi-byte characters is not modelled, and it cannot turn a non-ASCII value into "NULL".
- Concurrency, pointer identity of the returned `*Interval` values, and the internals of `bytes.Buffer` are not modelled. A buffer is a local string that each write appends to.
- The `IInterval` interface and the accessors `Left`, `Right` and `OpenClosedType` are not separate members: they are the datatype fields. The per-type `LeftClosed`/`RightClosed` methods are the shared `Intervals.LeftClosed`/`Intervals.RightClosed`.
- sortable.go's `Compare` only delegates to the caller's `CompareTo`, so it is the `compareTo` parameter. `baseSortable` is the native `less` parameter. The nil-tolerant `CompareTo` of sortable_test.go is caller code and is not modelled.
- Intervals.BlowUp: a flag is the one-byte string of its byte. Go's `string(str[0])` makes a byte of 0x80 or above into its two-byte UTF-8 encoding. Neither form is in a flag table, so both give OpenClosedFlagErr and no parse result differs.
- A generic interval is not constructed or parsed by the source, so the model has no constructor or parser for it.
- The error's message text (error.go) is not modelled; each sentinel is a constructor.
