# Post parser and date stamp, modelled in Dafny

This project models two small pure cores of a news-article generator.

The first core is the web client's `parseResponse` (`index.tsx`). It turns the raw text a language model returns into an ordered list of posts, each with a `title`, an `angle`, an `imageKeyword` and a `content`. It works in four steps:

1. Strip Markdown code fences.
2. Split on `---POST_DIVIDER---` and keep the pieces whose trimmed length is over 20.
3. Cut each field out of a piece between its `$$$NAME$$$` tag and the next `$$$\w+$$$` tag.
4. Put fixed defaults in place of empty fields.

The same file holds one more step, `handleRewrite`'s update. A single post is re-generated and replaced in a copy of the list.

The second core is the server's `getDate` (`api/generate.ts`). It turns epoch seconds into a `YYYY-MM-DD` UTC string. The model builds it on the time-value arithmetic of ECMA-262 section 21.4.1: Day, DaysInYear, DayFromYear, YearFromTime, InLeapYear, MonthFromTime, DateFromTime and MakeDay.

The Dafny modules:

- `JsString` (`jsstring.dfy`): the ECMAScript string operations the parser uses, on `seq<char>`. These are the `\s` and `\w` classes, `trim`, `indexOf`, `split` with a string separator, `filter`, and an anchored strip of a leading run.
- `PostParser` (`post_parser.dfy`): `parseResponse`, `extractField` and the defaults.
- `PostRewrite` (`post_rewrite.dfy`): the list update in `handleRewrite`.
- `EcmaTime` (`ecma_time.dfy`): the ECMA-262 day, year, month and date arithmetic on integer time values.
- `DateStamp` (`date_stamp.dfy`): `getDate`. This covers `new Date(seconds * 1000)` with TimeClip and NaN, `getUTCFullYear`, `getUTCMonth`, `getUTCDate`, Number-to-string, the `('0' + n).slice(-2)` padding and the template string.

`parseResponse` and `getDate` are Dafny functions. They depend only on their arguments, so equal inputs give equal outputs by construction.

The parser in `index.tsx:108-130` is the plain one the code shows. In particular:
- tags are `TITLE`, `ANGLE`, `IMAGE_KEYWORD` and `CONTENT`, matched case-sensitively;
- chunks are passed on untrimmed;
- the threshold is a trimmed length over 20.

## Model

| member | source | states |
|---|---|---|
| PostParser.StripFenceOpeners | index.tsx:109 | The global replacement of ```` ```[a-z]*\n? ```` (case-insensitive letters) by nothing; the result is no longer than the input. What it keeps is stated by `KeepPrefix`, `OpenerDropped` and `CloserDropped` |
| PostParser.StripFences | index.tsx:109 | The global replacement of ```` ``` ```` by nothing; the result is no longer than the input |
| PostParser.Clean | index.tsx:109 | The cleaned text is no longer than the raw text. `CleanFenceFree` states what it removes and `CleanUnwrapsFence` what it keeps |
| PostParser.KeepPrefix | index.tsx:109 | Text in front of the first fence passes through the first replacement unchanged |
| PostParser.OpenerDropped | index.tsx:109 | An opening fence, a language name of ASCII letters and one line feed are removed together, and nothing after them is touched |
| PostParser.CloserDropped | index.tsx:109 | A fence-free text followed by a closing fence comes out of the first replacement as that text, including when it ends in one or two backticks |
| PostParser.CleanUnwrapsFence | index.tsx:109 | A fence-free reply wrapped in a code fence (opening fence, optional language name, line feed, reply, closing fence) cleans to the reply itself |
| PostParser.ParseUnwrapsFence | index.tsx:108-112 | A fence-free reply wrapped in a code fence parses to exactly the posts of the bare reply |
| PostParser.StripFencesFenceFree | index.tsx:109 | After the second replacement the text contains no ```` ``` ````: removing fences left to right cannot create a new one |
| PostParser.StripFenceOpenersFenceFree | index.tsx:109 | The first replacement alone already leaves no ```` ``` ```` |
| PostParser.FenceFreeUnchanged | index.tsx:109 | Both replacements leave a text without fences unchanged |
| PostParser.CleanFenceFree | index.tsx:109 | The cleaned text is fence-free; the second replacement never changes anything; cleaning is idempotent; and it changes a text exactly when the text holds a fence |
| JsString.Split | index.tsx:110 | `split` with the divider yields at least one piece |
| JsString.SplitPieces | index.tsx:110 | No piece contains the divider, and there is more than one piece exactly when the text contains it |
| JsString.JoinSplit | index.tsx:110 | Joining the pieces with the divider gives back the cleaned text: split loses nothing |
| JsString.SplitJoin | index.tsx:110 | Splitting a join gives back the pieces, when no occurrence of the divider starts inside a piece (not even one running on into the divider that follows it) |
| JsString.JoinLength | index.tsx:110 | A join of n pieces is at least (n - 1) divider lengths long |
| JsString.IsSpace | index.tsx:120 | The `\s` class, and what `trim` strips: the ECMAScript WhiteSpace and LineTerminator characters. Its relations to the other classes are stated by `CharClassFacts` |
| JsString.IsWordChar | index.tsx:118 | The `\w` class: ASCII letters, digits and `_`. Described by `CharClassFacts` and `TagAtIsMatch` |
| JsString.CharClassFacts | index.tsx:109-120 | `\s` and `\w` are disjoint, `[\s:：]` contains `\s`, `[a-z]` under the `i` flag lies inside `\w`, `$` is not a word character, and neither colon is white space |
| JsString.Trim | index.tsx:110 | `trim` returns a string no longer than its input |
| JsString.TrimShape | index.tsx:110 | The trimmed string is a slice of the input with only white space before and after it, and it neither starts nor ends with white space |
| JsString.TrimEmptyIff | index.tsx:110 | Trimming leaves nothing exactly when every character is white space |
| JsString.TrimOfTrimmed | index.tsx:120 | A string that starts and ends with non-space characters is its own trim |
| JsString.Filter | index.tsx:110 | `filter` keeps only elements the predicate accepts, and no more elements than it is given |
| JsString.FilterSurvivorsAt | index.tsx:110 | Each kept element is the input element at a surviving index, and the number of survivors equals the filter's length |
| JsString.SurvivorsIncreasing | index.tsx:110 | Surviving indices are strictly increasing: the filter keeps the order |
| JsString.SurvivorsComplete | index.tsx:110 | An index survives exactly when the predicate accepts its element: the filter drops nothing it should keep |
| PostParser.IsPostChunk | index.tsx:110 | The filter `c => c.trim().length > 20`. `ChunksFromPieces` and `ParseResponseFromPieces` state that exactly the pieces it accepts become posts, in order |
| PostParser.Pieces | index.tsx:110 | The split of the cleaned text has at least one piece |
| PostParser.Chunks | index.tsx:110 | Every surviving chunk has a trimmed length over 20, and there are at most as many chunks as pieces |
| PostParser.ChunksFromPieces | index.tsx:110 | The chunks are exactly the pieces with trimmed length over 20, in their original order; none is invented or dropped |
| PostParser.ParseResponse | index.tsx:108-130 | One post per surviving chunk, the i-th post built from the i-th chunk, and every field of every post non-empty |
| PostParser.ParseResponseFromPieces | index.tsx:110-112 | Post i is built from a piece at index idx[i]. The indices increase. A piece yields a post exactly when its trimmed length is over 20 |
| PostParser.ParseResponseCount | index.tsx:110 | There are at most as many posts as dividers plus one, and the dividers fit in the text |
| JsString.IndexOfFrom | index.tsx:115 | The search returns the first occurrence at or after its start, or none when there is none |
| JsString.IndexOf | index.tsx:115-116 | `indexOf` finds the first occurrence, and finds none (JavaScript's -1) exactly when the pattern does not occur |
| JsString.IndexOfIs | index.tsx:115 | An occurrence with none before it is the one `indexOf` returns |
| PostParser.StartTag | index.tsx:114 | The start tag `$$$${tagName}$$$`. Described by `StartTagIsTag` and `MissingTagGivesDefault` |
| PostParser.StartTagIsTag | index.tsx:114-118 | The start tag of a non-empty word-character name is itself a match of `/\$\$\$\w+\$\$\$/`, so a field's text stops at the next field's start tag |
| PostParser.TagAt | index.tsx:118 | The test "`/\$\$\$\w+\$\$\$/` matches here". Its agreement with the regular expression, both ways, is `TagAtIsMatch` |
| PostParser.TagAtWitness | index.tsx:118 | A position the model treats as a tag is a match of `/\$\$\$\w+\$\$\$/` |
| PostParser.MatchIsTagAt | index.tsx:118 | Every match of `/\$\$\$\w+\$\$\$/` is a position the model treats as a tag |
| PostParser.TagAtIsMatch | index.tsx:118 | The tag test holds exactly where the regular expression matches |
| PostParser.FirstTagFrom | index.tsx:118 | The search returns the leftmost tag at or after its start, or none |
| PostParser.FirstTag | index.tsx:118 | `match` finds the leftmost tag, or reports that none exists |
| PostParser.Cut | index.tsx:118-119 | The field ends at the first tag after the start tag, or at the chunk's end when no tag follows |
| PostParser.CutInChunk | index.tsx:117-119 | In chunk positions, the end index falls on the leftmost tag at or after `contentStart`, or on the chunk's length |
| JsString.DropWhile | index.tsx:120 | `.replace(/^[\s:：]+/, '')` returns a string no longer than its input; `DropWhileShape` states what it removes |
| JsString.DropWhileShape | index.tsx:120 | The result is a suffix of the input, everything removed before it belongs to the class, and the result does not start with a character of the class: the leading run is removed whole, and nothing else |
| PostParser.Tidy | index.tsx:120 | `.replace(/^[\s:：]+/, '').trim()` returns no more than it is given |
| PostParser.TidyShape | index.tsx:120 | The tidied value is a slice of the input, preceded only by white space and colons and followed only by white space. It does not start with white space, `:` or `：`, and does not end with white space |
| PostParser.TidyUnique | index.tsx:120 | Any slice with those properties is the tidied value: the description determines the result |
| PostParser.FieldAfter | index.tsx:114-120 | The field is "" when the start tag does not occur |
| PostParser.ExtractField | index.tsx:113-121 | `extractField(tag)` is "" when `$$$tag$$$` does not occur in the chunk |
| PostParser.FieldAfterFirstOccurrence | index.tsx:115-120 | Only the first occurrence counts: a chunk `prefix + tag + rest` with no earlier tag yields the field cut from `rest` |
| PostParser.FieldAfterIsSlice | index.tsx:117-120 | The field lies in the chunk after the start tag and before the cut, with only white space and colons before it and only white space after it. It holds no `$$$\w+$$$` match, does not start with white space, `:` or `：`, and does not end with white space |
| PostParser.ExtractFieldIsSlice | index.tsx:113-121 | A non-empty field implies the tag occurs, and the field has all the properties of `FieldAfterIsSlice` |
| PostParser.BuildPost | index.tsx:123-128 | Each field falls back to its literal default (`爆款深度内容`, `实时观察`, `news`) exactly when its extraction is empty, and `content` falls back to the whole untrimmed chunk. The first three fields are never empty, and neither is the content of a non-empty chunk |
| PostParser.MissingTagGivesDefault | index.tsx:116-126 | A chunk lacking a tag gets that field's default |
| PostRewrite.ApplyRewrite | index.tsx:186-188 | The copy has the list's length. Position `index` becomes `parsed[0]` when `parsed` is non-empty, and every other position is unchanged. With an empty `parsed` the list is unchanged |
| PostRewrite.Rewrite | index.tsx:185-188 | On the model's reply, the list keeps its length and only `index` may change. It changes exactly when the reply holds a post chunk, to the post built from the first such chunk. A list whose posts all have non-empty fields keeps that property |
| EcmaTime.Day | api/generate.ts:27 | Day(t) is floor(t / msPerDay): msPerDay·Day(t) ≤ t < msPerDay·(Day(t) + 1) |
| EcmaTime.DaysInYear | api/generate.ts:28 | 366 exactly in Gregorian leap years, 365 otherwise |
| EcmaTime.DayFromYear | api/generate.ts:28 | ECMA-262's DayFromYear formula. `DayFromNextYear` ties it to DaysInYear and `DayFromYearMonotone` shows it increasing |
| EcmaTime.DayFromNextYear | api/generate.ts:28 | DayFromYear(y + 1) = DayFromYear(y) + DaysInYear(y) |
| EcmaTime.DayFromYearMonotone | api/generate.ts:28 | Years start in increasing order |
| EcmaTime.YearSplit | api/generate.ts:28 | Walking year by year finds the year holding a day, with the day's index inside it |
| EcmaTime.YearFromDay | api/generate.ts:28 | The year of a day starts at or before the day, and the next year starts after it |
| EcmaTime.YearFromDayIsLargest | api/generate.ts:28 | YearFromDay(d) is the largest y with DayFromYear(y) ≤ d, in both directions |
| EcmaTime.YearFromTime | api/generate.ts:28 | The year of `t` starts at or before `t`, and the next year starts after it: TimeFromYear(y) ≤ t < TimeFromYear(y + 1) |
| EcmaTime.YearFromTimeIsLargest | api/generate.ts:28 | YearFromTime(t) is the largest y with TimeFromYear(y) ≤ t, which is the standard's definition |
| EcmaTime.YearFromDayUnique | api/generate.ts:28 | A day lying in year y has year y |
| EcmaTime.DayWithinYear | api/generate.ts:29-30 | The index of a day in its year is within 0..DaysInYear − 1 |
| EcmaTime.InLeapYear | api/generate.ts:29-30 | The leap flag is DaysInYear − 365 |
| EcmaTime.MonthOfYearDay | api/generate.ts:29 | MonthFromTime's table of month boundaries. `YearDayCivil` and `CivilYearDay` tie it to the month lengths of `DaysInMonth`, both ways |
| EcmaTime.DateOfYearDay | api/generate.ts:30 | DateFromTime's table. `YearDayCivil` and `CivilYearDay` show that it gives a date within the month and finds every such date again |
| EcmaTime.MonthFromTime | api/generate.ts:29 | The month of a time value is in 0..11 |
| EcmaTime.DateFromTime | api/generate.ts:30 | The date of a time value is between 1 and the length of its month in its year |
| EcmaTime.DaysInMonth | api/generate.ts:29-30 | Reference definition, not called by the source: the Gregorian month lengths, against which the tables are proved in `YearDayCivil`, `CivilYearDay` and `MonthStartsAddUp` |
| EcmaTime.MakeDay | api/generate.ts:28-30 | Reference definition, not called by the source: ECMA-262's MakeDay for an in-range month, the inverse of the year, month and date functions, by `CivilOfDay` and `DayOfCivil` |
| EcmaTime.MonthStartsAddUp | api/generate.ts:29-30 | Month starts add up the month lengths, and the last month ends with the year |
| EcmaTime.YearDayCivil | api/generate.ts:29-30 | For a day of the year, the month tables give a month 0..11 and a date within that month's length, and the month start plus the date gives the day back |
| EcmaTime.CivilYearDay | api/generate.ts:29-30 | A date within its month's length is found again by the month and date tables |
| EcmaTime.CivilOfDay | api/generate.ts:28-30 | For any day: month in 0..11, date in 1..length of that month, and MakeDay(year, month, date) returns the day |
| EcmaTime.DayOfCivil | api/generate.ts:28-30 | For any existing calendar date, the year, month and date of MakeDay(y, m, d) are y, m and d |
| DateStamp.TimeClip | api/generate.ts:27 | A time value is kept exactly when its magnitude is at most 8.64·10^15 ms, and becomes NaN otherwise |
| DateStamp.NewDate | api/generate.ts:27 | `new Date(timestamp * 1000)` is a date exactly when the timestamp is in range, and its time value is the timestamp in milliseconds |
| DateStamp.GetUTCFullYear | api/generate.ts:28 | NaN exactly for an invalid date; otherwise the year y with TimeFromYear(y) ≤ t < TimeFromYear(y + 1) |
| DateStamp.GetUTCMonth | api/generate.ts:29 | NaN exactly for an invalid date; otherwise a month number in 0..11 |
| DateStamp.GetUTCDate | api/generate.ts:30 | NaN exactly for an invalid date; otherwise a day that exists in the date's month |
| DateStamp.Succ | api/generate.ts:29 | `getUTCMonth() + 1`, with NaN staying NaN. Described by `GetDateShape` (the month comes out in 1..12) and `GetDateInvalid` |
| DateStamp.Digits | api/generate.ts:31 | The decimal form of a natural number has at least one character |
| DateStamp.DigitsRoundTrip | api/generate.ts:31 | The decimal form is all digits, has no leading zero except for 0, and reads back as the number |
| DateStamp.NumberToString | api/generate.ts:29-31 | Number-to-string for integers of magnitude at most 2^53, which covers every year, month and date `getDate` formats, and NaN. Described by `NumberToStringRoundTrip` |
| DateStamp.NumberToStringRoundTrip | api/generate.ts:29-31 | NaN gives "NaN"; a non-negative integer gives digits that read back as it; a negative one gives "-" and then digits that read back as its magnitude |
| DateStamp.SliceLast | api/generate.ts:29-30 | `slice(-k)` keeps min(k, length) characters, which are the last characters of the string |
| DateStamp.TwoDigits | api/generate.ts:29-30 | Two decimal digits whose value is n, for 0..99 |
| DateStamp.Pad2 | api/generate.ts:29-30 | The padding `('0' + n).slice(-2)`. Described by `Pad2Digits` (two digits for 0..99) and `Pad2NaN` |
| DateStamp.Pad2BelowTen | api/generate.ts:29-30 | For n in 0..9 the padding is "0" followed by the digit |
| DateStamp.Pad2FromTen | api/generate.ts:29-30 | For n in 10..99 the padding is the plain decimal |
| DateStamp.Pad2Digits | api/generate.ts:29-30 | For n in 0..99 the padding gives exactly two digits encoding n |
| DateStamp.Pad2NaN | api/generate.ts:29-30 | The padding of NaN is "aN" |
| DateStamp.DayOfSeconds | api/generate.ts:27 | Scaling seconds by 1000 puts the date on day floor(timestamp / 86400) |
| DateStamp.DateFieldsOfDay | api/generate.ts:27-30 | For a valid timestamp, the UTC year, month and date are those of day floor(timestamp / 86400) |
| DateStamp.GetDateShape | api/generate.ts:26-31 | A valid timestamp gives the year's decimal form + "-" + MM + "-" + DD. MM is two digits for a month in 1..12. DD is two digits for a date that exists in that month. That calendar date is day floor(timestamp / 86400) |
| DateStamp.GetDate | api/generate.ts:26-32 | `getDate(timestamp)`. Described by `GetDateShape`, `GetDateHyphens`, `GetDateInvalid`, `GetDateSameDay` and `GetDateEpoch` |
| DateStamp.GetDateHyphens | api/generate.ts:31 | For a date in year 0 or later, the string has exactly two hyphens, at length − 6 and length − 3, and everything before them is digits |
| DateStamp.GetDateInvalid | api/generate.ts:27-31 | A timestamp outside the time range gives "NaN-aN-aN" |
| DateStamp.GetDateSameDay | api/generate.ts:27 | Two timestamps with the same floor(t / 86400) give the same string, when both are valid or both are not |
| DateStamp.SameDayAtRangeEnd | api/generate.ts:27 | The last valid second and the next one share a day but give different strings; this is why `GetDateSameDay` has its condition |
| DateStamp.GetDateEpoch | api/generate.ts:26-31 | Timestamp 0, and every second of that day, gives "1970-01-01" |

## Left out

- `LinkifiedText` (`index.tsx:30-79`) is JSX rendering whose URL test relies on a global regular expression's `lastIndex`. It is not part of this model.
- The rest of the UI is I/O and presentation, and is not modelled:
  - `callServerApi` and `fetch`;
  - `handleGenerate` and its prompts;
  - React state (`setPosts`, `setEditingIndex`, `setRewriting`);
  - the clipboard;
  - `alert` and the `try`/`catch` around the rewrite.

  `Rewrite` takes the model's reply text as a parameter in place of the awaited call.
- The serverless `handler` is HTTP plumbing and foreign SHA-256/HMAC calls, none of which the core's logic depends on, so it is not modelled. This covers environment variables, the Tencent Cloud and Google GenAI calls, `getHash` and the TC3-HMAC-SHA256 signing.
- Strings are sequences of Unicode characters. JavaScript lengths count UTF-16 code units, so the model's "trimmed length over 20" counts a character outside the Basic Multilingual Plane once where JavaScript counts it twice. `\s` is the ECMAScript WhiteSpace and LineTerminator set written out with today's Zs characters.
- `getDate`'s argument is an integer. The caller passes `Math.floor(Date.now() / 1000)`. Fractional, NaN and infinite arguments are not modelled, so Number-to-string is modelled for integers of magnitude at most 2^53, which covers every year, month and date `getDate` formats, and NaN. Above 2^53 JavaScript rounds to the nearest double and switches to exponent form from 10^21, while `Digits` writes every digit exactly; no valid date reaches those values, since a year lies within ±275760.
- `PostRewrite.ApplyRewrite`, `PostRewrite.Rewrite`: both require `index` to be a position of the list, because the caller passes the index of a rendered post. An index past the end could not reach the update anyway: `targetPost` (`index.tsx:172`) would be `undefined`, and reading `targetPost.content` (`index.tsx:178`) throws inside the `try` before the assignment at `index.tsx:188`. So the sparse-array growth that such an assignment would cause never happens.
- `DateStamp.GetDateHyphens`: stated only for dates in year 0 or later. For a year before 0 the year's decimal form carries a hyphen of its own.
- `DateStamp.GetDateSameDay`: stated for two timestamps that are both valid or both invalid. `SameDayAtRangeEnd` shows the one day where this condition matters.
- `DateStamp.GetDateEpoch`: proves that the first day of 1970 gives "1970-01-01". It does not evaluate other dates. `GetDateShape` and `DayOfCivil` describe every other date.
- Local time zones do not enter the model, since `getDate` uses only the UTC getters.
