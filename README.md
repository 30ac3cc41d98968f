# Scoring API field validation and nginx log selection, modelled in Dafny

This project models two Python 2 programs.

The first is the request layer of the scoring API (`hw3/api_undef.py`). It covers:

- the eight typed fields, with their shared `clean` rule and their `check_field` acceptance tests;
- the three request classes (`ClientsInterestsRequest`, `OnlineScoreRequest`, `MethodRequest`), modelled as tables of field declarations;
- `check_auth`, with SHA-512 and the clock given as parameters;
- `method_handler`, the loop that cleans every key of a request with the envelope field of the same name.

The second is the text-processing core of the nginx log analyser (`hw1/log_analyzer.py`). It covers:

- `parse_logs_line`;
- the grouping and error-threshold loop of `collect_lines`;
- the file-name matching and latest-date selection of `select_log_file` and `check_report_existance`;
- the building, ordering and truncation of the report table in `make_log_table`.

The model follows the code where the code does something other than what its messages or names suggest:

- A nullable field given an empty value still goes through its check.
- `ClientIDsField` accepts any list.
- `BirthDayField` never succeeds.
- `method_handler` always answers with the score, and never looks at a required field that is absent.
- The file-name patterns refuse October and the 10th and 20th of a month.
- `parse_logs_line` takes any two matches, not one URL and one time.

Each of these is proved as a lemma. Where the code is evidently wrong, a corrected definition stands beside the as-written one, with its intended property proved (see "## Findings"). The rest of the model (`Clean`, `MethodHandler`, `SelectLogFile`) runs the checks and patterns as written, because that is what the program does.

Python 2 has two integer types: a machine `int` (64 bits here) and an unbounded `long`. The model's integers are unbounded, and one `Int` value stands for both: a value within 64 bits is an `int`, any other a `long`. This matters only where the code asks `type(x) is int`. No arithmetic in the core overflows. Strings are sequences of characters, read byte by byte. Floor division and `int()` of digit strings are written out.

Modules, in dependency order:

- `Outcomes`: `Option` and `Result`.
- `Text`: character classes, decimal text, `split`/`join`.
- `Calendar`: `datetime.date` validity, order and ordinals.
- `Strptime`: `%d.%m.%Y`.
- `Values`: the request values (no floats), and the 64-bit bounds of Python 2's `int`.
- `ApiConstants`.
- `Fields`, `Schemas`, `Handler` and `Auth`: the API.
- `Floats`: which texts `float()` accepts.
- `LogLines`, `LogCollect`, `LogSelect`, `LogTable` and `LogReport`: the analyser.
- `FieldExamples` and `LogExamples`: worked values, including the two sample requests of the API module.

## Model

| member | source | states |
|---|---|---|
| Text.NatToDecimalDigits | hw3/api_undef.py:114 | `str(n)` of a natural number is a non-empty digit string, and `int` of it gives back `n` |
| Text.IntToDecimalDigitsIff | hw3/api_undef.py:114-115 | `str(i)` is all digits exactly when `i` is not negative |
| Text.Pad2 | hw3/api_undef.py:162 | the `%02d` text is two digits whose value is the number |
| Text.Pad4 | hw3/api_undef.py:162 | the `%Y` text is four digits whose value is the year |
| Text.UpToNewline | hw1/log_analyzer.py:118 | `.*` matches the longest newline-free prefix: a prefix, with no newline in it, ending at the end or at a newline |
| Text.Split | hw1/log_analyzer.py:117 | `re.split('"', …)` gives at least one fragment, and no fragment holds the separator |
| Text.SplitNoSeparator | hw1/log_analyzer.py:117 | a text without the separator is a single fragment |
| Text.SplitAfterPrefix | hw1/log_analyzer.py:117 | the text before the first separator is the first fragment, and the rest splits on its own |
| Text.JoinSplit | hw1/log_analyzer.py:117 | splitting loses nothing: joining the fragments with the separator gives back the line |
| Calendar.DaysInMonth | hw3/api_undef.py:101 | every month has 28 to 31 days |
| Calendar.DateLeTotal | hw1/log_analyzer.py:85 | date order is total and antisymmetric, so `max` of dates is well defined |
| Calendar.DateLeTransitive | hw1/log_analyzer.py:85 | date order is transitive |
| Strptime.DayToken | hw3/api_undef.py:101 | a `%d` token stands for a day from 1 to 31 |
| Strptime.MonthToken | hw3/api_undef.py:101 | a `%m` token stands for a month from 1 to 12 |
| Strptime.ParseDate | hw3/api_undef.py:101 | whatever `strptime(value, '%d.%m.%Y')` accepts is a valid calendar date |
| Strptime.ParseFormatDate | hw3/api_undef.py:101 | every valid date is read back from its own `%d.%m.%Y` text (a round trip) |
| Strptime.DayTokenOfPadded | hw3/api_undef.py:101 | each two-digit day from 01 to 31 is read by `%d` as that day |
| Strptime.MonthTokenOfPadded | hw3/api_undef.py:101 | each two-digit month from 01 to 12 is read by `%m` as that month |
| Strptime.SplitThree | hw3/api_undef.py:101 | a text made of three dot-free parts joined by dots splits into exactly those three parts |
| Fields.CheckChar | hw3/api_undef.py:79-83 | `CharField` accepts exactly the strings, returns them unchanged, and otherwise raises its own `ValueError` |
| Fields.CheckArguments | hw3/api_undef.py:106-110 | `ArgumentsField` accepts exactly the dicts, unchanged |
| Fields.CheckGender | hw3/api_undef.py:129-133 | `GenderField` accepts exactly an `int` that is a key of `GENDERS` (0, 1 or 2), unchanged; a bool is not an `int` |
| Fields.BodyEnd | hw3/api_undef.py:87 | `$` matches at the end of the text or just before a final newline |
| Fields.IndexOf | hw3/api_undef.py:87 | the position found is the first `@`; none is found only when there is no `@` |
| Fields.EmailMatchesSound | hw3/api_undef.py:87-88 | what the deterministic scan finds is a way for `^\S*@(.*)\.([a-z].*)$` to match |
| Fields.EmailPatternComplete | hw3/api_undef.py:87-88 | every way for the regular expression to match is found by the scan |
| Fields.EmailMatchesIff | hw3/api_undef.py:87-88 | the scan and the regular expression agree on every string |
| Fields.CheckEmail | hw3/api_undef.py:85-90 | a string is accepted exactly when it is in the language of the regular expression, and is returned unchanged; a non-string raises `TypeError`, not `ValueError` |
| Fields.CheckClientIds | hw3/api_undef.py:92-96 | as written, `ClientIDsField` accepts exactly the lists, whatever their elements, unchanged |
| Fields.CheckClientIdsIntended | hw3/api_undef.py:94 | the intended rule accepts exactly the lists whose elements are all of type `int`, that is, integers within 64 bits, neither a `bool` nor a `long` |
| Fields.CheckDate | hw3/api_undef.py:98-104 | `DateField` accepts exactly the strings `strptime` reads as a valid date and returns the text; a non-string raises `TypeError` |
| Fields.BirthDayNeverSucceeds | hw3/api_undef.py:120-126 | as written, `BirthDayField` fails on every input: with `TypeError` exactly when the value is a string that passes the date check, or is no string at all |
| Fields.BirthDayIntendedIff | hw3/api_undef.py:123-126 | the intended rule accepts exactly the dates at least 2190 and fewer than 36500 days before today, that is, 5 < days / 365 < 100 |
| Fields.PhoneAcceptsIff | hw3/api_undef.py:112-117 | `PhoneField` accepts exactly a non-empty digit string or a non-negative `int`, and returns its decimal text; `None`, bools, signs and containers are refused |
| Fields.CleanInvalidRequestIff | hw3/api_undef.py:67-77 | `clean` raises the 422 error naming the field's class exactly when the value is one of the six empty values and the field is required and not nullable; in every other case it returns what the check returns |
| Fields.NullRejectedByEveryField | hw3/api_undef.py:67-77 | `None` fails every field, nullable or not; for the e-mail and date fields the error is a `TypeError` |
| Fields.EmptyValuesThatPass | hw3/api_undef.py:67-77 | of the empty values that reach a check, only `""` and `" "` as text, `[]` as ids and `{}` as arguments are accepted |
| Schemas.DeclaredSchemasHaveDistinctNames | hw3/api_undef.py:136-154 | the three request classes declare each field name once |
| Schemas.Lookup | hw3/api_undef.py:177 | `getattr` on a class finds a field exactly when the class declares that name, and the field found is one declared under it |
| Schemas.LookupDeclared | hw3/api_undef.py:136-154 | in a table with distinct names, looking up a declared name finds the field declared under it |
| Schemas.ArgumentFieldsInvalidRequestIff | hw3/api_undef.py:136-146 | of the argument fields of both methods, only an empty `client_ids` makes `clean` raise the 422 error |
| Schemas.EnvelopeFieldsInvalidRequestIff | hw3/api_undef.py:149-154 | of the envelope fields, only an empty `method` makes `clean` raise the 422 error |
| Handler.CleanItems | hw3/api_undef.py:176-177 | one clean result per request item, each made by the same-named envelope field |
| Handler.EnvelopeLookup | hw3/api_undef.py:149-154 | each of the five envelope names finds the declared field, and any other name finds none |
| Handler.EnvelopeCleanCases | hw3/api_undef.py:149-154 | what the clean of each envelope name accepts: text for `account`, `login` and `token`; a dict for `arguments`; non-empty text for `method` |
| Handler.CleanEntryKeepsValue | hw3/api_undef.py:177 | every envelope clean that succeeds hands back the value it was given |
| Handler.OutcomeStep | hw3/api_undef.py:176-177 | an error ends the loop with that error, and a value lets it go on to the rest |
| Handler.OutcomeIff | hw3/api_undef.py:176-179 | the loop gets through exactly when every clean succeeds, and then answers with the score; otherwise it ends with the first error |
| Handler.ValidatedStep | hw3/api_undef.py:177 | `setdefault` keeps the first value of a name and adds a new name with its value |
| Handler.MethodHandler | hw3/api_undef.py:169-180 | the loop over the request items, filling `validated_request`, gives the outcome of the items' cleans in order |
| Handler.HandlerOutcomeIff | hw3/api_undef.py:169-180 | a call succeeds exactly when every item cleans, and then returns `{"score": "42"}`; otherwise it fails with the error of the first item that does not clean |
| Handler.UnknownKeyFails | hw3/api_undef.py:177 | a key the envelope does not declare (`is_admin` included) makes the call fail, with `AttributeError` when the items before it clean |
| Handler.PrefixClean | hw3/api_undef.py:176-177 | when a prefix of the items cleans, each item in it cleans |
| Handler.CleanEntryInvalidRequestIff | hw3/api_undef.py:149-154 | an item's clean raises the 422 error exactly when it is `method` with an empty value |
| Handler.ValidationErrorOfCharField | hw3/api_undef.py:74 | the 422 message names the class `CharField` |
| Handler.InvalidRequestOnlyFromMethod | hw3/api_undef.py:169-180 | a failed call with the 422 error has an empty `method` item, and its message is "Validation error field 'CharField'" |
| Handler.AbsentFieldsNotChecked | hw3/api_undef.py:176-179 | an empty request, and one holding only a method name, both return the score: absent required fields are never checked |
| Handler.NullLoginFails | hw3/api_undef.py:151 | a `login` of `None` fails `CharField`'s check although the field is nullable |
| Handler.EmptyMethodFails | hw3/api_undef.py:154 | a lone empty `method` gives the 422 error |
| Handler.WellFormedRequestScores | hw3/api_undef.py:169-180 | a request of accepted items, in any order and with repeats, returns the score |
| Handler.WellFormedItemCleans | hw3/api_undef.py:149-154 | an accepted item cleans |
| Handler.SamplesWellFormed | hw3/api_undef.py:38-61 | the items of both sample requests are accepted by the envelope |
| Handler.SampleRequestsScore | hw3/api_undef.py:182-183 | both sample calls return `{"score": "42"}`, for every order of their items (any sequence with the same multiset of items) |
| Auth.HourStamp | hw3/api_undef.py:162 | the `%Y%m%d%H` stamp is ten digits |
| Auth.HourStampInjective | hw3/api_undef.py:162 | two stamps are equal exactly when year, month, day and hour are equal |
| Auth.StampParts | hw3/api_undef.py:162 | year, month, day and hour can be cut back out of a stamp |
| Auth.CheckAuthErrors | hw3/api_undef.py:160-167 | `check_auth` raises exactly in two cases: a `TypeError` when an ordinary user's account or login is missing, and a `ValueError` from `strftime` when an administrator is checked before the year 1900 |
| Auth.CheckAuthAccepts | hw3/api_undef.py:160-167 | for the login `admin` (from 1900 on) the answer is true exactly when the token is the digest of the `%Y%m%d%H` stamp followed by `42`; for anyone else with an account and a login, exactly when it is the digest of account, login and `Otus` run together |
| Auth.NoTokenNoAccess | hw3/api_undef.py:165-167 | without a token nobody is let in, whatever the digest function |
| Auth.OrdinaryAuthTimeless | hw3/api_undef.py:163-167 | an ordinary user's answer does not depend on the clock |
| Auth.OrdinaryCredentialIsConcatenation | hw3/api_undef.py:164 | accounts and logins that concatenate to the same text share a token |
| Auth.AdminAuthWithinHour | hw3/api_undef.py:161-162 | within one clock hour the administrator's answer stays the same |
| Auth.AdminTokenExpires | hw3/api_undef.py:161-167 | an administrator's token that works in one clock hour is refused in any other hour, provided the digest does not collide on the two hours' credentials, which always differ |
| Auth.SampleTokensNeverAuthenticate | hw3/api_undef.py:38-61 | with a 128-character hex digest, neither sample token (106 characters) is ever accepted |
| Floats.StripLeft | hw1/log_analyzer.py:70 | stripping leading whitespace leaves a text no longer than the input that does not start with whitespace |
| Floats.StripRight | hw1/log_analyzer.py:70 | stripping trailing whitespace leaves a text no longer than the input that does not end with whitespace |
| Floats.StripLeftSuffix | hw1/log_analyzer.py:70 | left stripping drops only whitespace and keeps the rest as a suffix |
| Floats.StripRightPrefix | hw1/log_analyzer.py:70 | right stripping drops only whitespace and keeps the rest as a prefix |
| Floats.FirstIndex | hw1/log_analyzer.py:70 | the position found is the first occurrence of the character, or the length |
| Floats.ExponentIndex | hw1/log_analyzer.py:70 | the position found is the first `e` or `E`, or the length |
| Floats.LowerText | hw1/log_analyzer.py:70 | case folding changes the ASCII capitals only, character by character |
| Floats.DecimalTimeIsFloat | hw1/log_analyzer.py:70 | a request time as nginx writes it (digits, a dot, three digits) is accepted by `float()` |
| Floats.PathNotFloat | hw1/log_analyzer.py:70 | a text starting with `/`, as a request path does, is refused by `float()` |
| LogLines.MatchUrl | hw1/log_analyzer.py:118-125 | the request pattern matches exactly the fragments starting with `GET ` or `POST `, and the URL is the rest of the fragment up to a newline |
| LogLines.TimeEndFrom | hw1/log_analyzer.py:119 | the position found is the largest end, up to the bound, at which `.` and three digits finish |
| LogLines.MatchTime | hw1/log_analyzer.py:119-127 | the time pattern matches exactly when it can end somewhere, and the match runs from the digit after the space to the greedy (last) end |
| LogLines.UrlAndTimeExclusive | hw1/log_analyzer.py:118-119 | no fragment matches both patterns |
| LogLines.FragmentMatches | hw1/log_analyzer.py:121-127 | each fragment adds at most one match |
| LogLines.ParseLogsLine | hw1/log_analyzer.py:116-130 | the loop over the fragments collects the matches in order and returns the pair exactly when there are two |
| LogLines.MatchesStep | hw1/log_analyzer.py:121-127 | one more fragment appends its own match to those before |
| LogLines.MatchesFromFragments | hw1/log_analyzer.py:121-127 | every collected match comes from its own fragment, and matches keep the order of their fragments |
| LogLines.ParsedFromTwoFragments | hw1/log_analyzer.py:117-130 | a parsed line's two values are the matches of two different fragments, the first one earlier |
| LogLines.MatchesPrefixGrows | hw1/log_analyzer.py:121-127 | the matches of a longer prefix of fragments outnumber or equal those of a shorter one |
| LogCollect.Append | hw1/log_analyzer.py:69-70 | appending puts an empty list under a new URL first, adds the time at the end of that URL's list, and leaves every other URL alone |
| LogCollect.Classify | hw1/log_analyzer.py:63-70 | a line is unparsed exactly when `parse_logs_line` gives `None`, and is an entry exactly when its time passes `float()` |
| LogCollect.ClassifyAll | hw1/log_analyzer.py:61-63 | one classification per line, in order |
| LogCollect.CollectLines | hw1/log_analyzer.py:57-71 | the loop over the lines ends the way the fold of the loop body over them ends |
| LogCollect.ReadLine | hw1/log_analyzer.py:62-70 | one pass of the loop body gives the next counters and dictionary, or the way the loop stops |
| LogCollect.RunStep | hw1/log_analyzer.py:61 | running one more line is one more loop body |
| LogCollect.StopHere | hw1/log_analyzer.py:66-70 | a run stopped at a line ends the way it stopped |
| LogCollect.StoppedStays | hw1/log_analyzer.py:66-70 | once the loop has stopped, later lines are never read |
| LogCollect.FirstFailure | hw1/log_analyzer.py:64-70 | the position found is the first line the body does not get through, every earlier line being an entry |
| LogCollect.Pairs | hw1/log_analyzer.py:69-70 | the (URL, time) pairs of the lines, in order |
| LogCollect.TimesFor | hw1/log_analyzer.py:70 | a URL's times are no more than the pairs |
| LogCollect.TimesForAppend | hw1/log_analyzer.py:70 | one more pair adds its time to its own URL's times only |
| LogCollect.GroupKeys | hw1/log_analyzer.py:69 | the dictionary has a key for exactly the URLs of the pairs |
| LogCollect.GroupValues | hw1/log_analyzer.py:70 | each URL's list holds the times paired with it, in line order |
| LogCollect.TimesForAbsent | hw1/log_analyzer.py:69-70 | a URL in no pair collects no time |
| LogCollect.TotalLengthRemove | hw1/log_analyzer.py:69-70 | the total number of times does not depend on which key is counted first |
| LogCollect.GroupTotalLength | hw1/log_analyzer.py:69-70 | the list lengths add up to the number of pairs |
| LogCollect.RunAllOk | hw1/log_analyzer.py:57-71 | while every line gets through, the loop holds the grouped pairs, no parse error, and the number of lines |
| LogCollect.OutcomeAllOk | hw1/log_analyzer.py:57-71 | when every line gets through, the result is the grouped dictionary and the line count |
| LogCollect.OutcomeFirstFailure | hw1/log_analyzer.py:64-70 | at the first failing line the loop exits when the threshold is 1, raises `TypeError` for an unparsed line below it, and raises `ValueError` when the time is not a float |
| LogCollect.OutcomeNoThreshold | hw1/log_analyzer.py:66-68 | a threshold of zero or less exits on the first line, whatever it holds |
| LogCollect.CollectedIff | hw1/log_analyzer.py:57-71 | `collect_lines` returns exactly when the threshold has room (or there are no lines) and every line parses with a numeric time |
| LogCollect.CollectStops | hw1/log_analyzer.py:64-70 | the first failing line decides how `collect_lines` ends, and its count is its line number |
| LogCollect.FirstFailureIs | hw1/log_analyzer.py:64-70 | a failing line with only entries before it is the first failure |
| LogCollect.CollectedDictionary | hw1/log_analyzer.py:57-71 | a returned dictionary holds each URL's times in line order; its keys are exactly the parsed URLs, its list lengths add up to the number of lines, and the line count is the number of lines |
| LogSelect.MonthFieldOfNumber | hw1/log_analyzer.py:76 | of the two-digit months, the month group refuses October only |
| LogSelect.MonthFieldText | hw1/log_analyzer.py:76 | besides digit strings, the month group lets exactly `1,` through |
| LogSelect.DayFieldOfNumber | hw1/log_analyzer.py:76 | of the two-digit days, the day group refuses the 10th and the 20th |
| LogSelect.MonthFieldIntendedOfNumber | hw1/log_analyzer.py:76 | the intended month group accepts a two-digit number exactly when it is 1 to 12 |
| LogSelect.MonthFieldIntendedIff | hw1/log_analyzer.py:76 | the intended month group accepts the two-digit months, October included, and nothing else |
| LogSelect.DayFieldIntendedIff | hw1/log_analyzer.py:76 | the intended day group accepts the two-digit days, the 10th and 20th included, and nothing else |
| LogSelect.MatchLogName | hw1/log_analyzer.py:76-80 | a matching log name starts with the prefix, four digits and the month and day groups; its key is that text, with `.gz` when it follows |
| LogSelect.LogNameMatches | hw1/log_analyzer.py:76-78 | every name of that shape matches, whatever follows (the pattern is anchored at the start only) |
| LogSelect.MatchReportName | hw1/log_analyzer.py:98-103 | a matching report name has any character where the unescaped dots stand, and its key is the first 22 characters |
| LogSelect.ReportNameMatches | hw1/log_analyzer.py:98-101 | every report name of that shape matches, whatever follows |
| LogSelect.ToDate | hw1/log_analyzer.py:80 | `date(int(year), int(month), int(day))` is a valid date made of the groups' values, and `1,` as the month raises `ValueError` |
| LogSelect.LogNameOfDate | hw1/log_analyzer.py:76-80 | a log named for a date outside October and the 10th and 20th is found with that date |
| LogSelect.ReportNameOfDate | hw1/log_analyzer.py:98-103 | a report written for a date outside October and the 10th and 20th is found with that date |
| LogSelect.ReportNameMissed | hw1/log_analyzer.py:98 | a report written for an October date, or for a 10th or a 20th, is never recognised |
| LogSelect.ScanStep | hw1/log_analyzer.py:77-80 | the scan of one more name adds that name's key and date |
| LogSelect.ScanErrStays | hw1/log_analyzer.py:80 | a conversion error ends the scan |
| LogSelect.ScanOkIff | hw1/log_analyzer.py:77-80 | the scan succeeds exactly when every matching name converts to a date |
| LogSelect.ScanKeys | hw1/log_analyzer.py:77-80 | a successful scan has a key for exactly the matching names |
| LogSelect.ScanDates | hw1/log_analyzer.py:80 | each key of a successful scan carries the date of a matching name with that key |
| LogSelect.ScanSpec | hw1/log_analyzer.py:77-80 | the three scan facts together |
| LogSelect.LogKeyDetermines | hw1/log_analyzer.py:76-80 | two log names with one key share one date |
| LogSelect.MatchedLogDated | hw1/log_analyzer.py:80 | the date stored under a matching log's key is that log's own date |
| LogSelect.LatestUnique | hw1/log_analyzer.py:85 | there is at most one largest date |
| LogSelect.LatestExists | hw1/log_analyzer.py:85 | a non-empty dictionary has a largest date |
| LogSelect.LatestOf | hw1/log_analyzer.py:85 | `max` of the dictionary's dates is a largest date |
| LogSelect.LatestDate | hw1/log_analyzer.py:85 | the loop over the dictionary finds its largest date |
| LogSelect.CheckReportExistance | hw1/log_analyzer.py:95-114 | the last report date, `None` when the directory is missing, nothing matches or a conversion raises |
| LogSelect.LastReportIsLatest | hw1/log_analyzer.py:99-110 | a found report date is the date of a matching report, and no matching report is later |
| LogSelect.ReportKeyDetermines | hw1/log_analyzer.py:98-103 | two report names with one key share one date |
| LogSelect.LastReportNoneIff | hw1/log_analyzer.py:95-114 | no report date is found exactly when the directory is missing, nothing matches, or a match does not convert |
| LogSelect.JoinPath | hw1/log_analyzer.py:91 | `os.path.join` ends with the name and starts with the directory, unless the name is absolute, when it is the name |
| LogSelect.SelectLogFile | hw1/log_analyzer.py:73-93 | the outcome is one `select_log_file` may have, for whatever order the dictionary gives its keys in |
| LogSelect.SelectedIsLatest | hw1/log_analyzer.py:81-93 | a selected file is a matching log whose date is the latest of all matching logs, and no report exists for that date |
| LogSelect.NoLogsIff | hw1/log_analyzer.py:81-83 | the run stops for want of logs exactly when no name matches |
| LogSelect.CrashedIff | hw1/log_analyzer.py:80 | `select_log_file` raises exactly when some matching log name does not convert to a date |
| LogTable.RowOf | hw1/log_analyzer.py:160-165 | a URL's row carries the URL and, as `count`, the length of its list |
| LogTable.MakeRows | hw1/log_analyzer.py:159-168 | the loop makes exactly one row for every URL of the dictionary |
| LogTable.Insert | hw1/log_analyzer.py:169 | inserting a row adds exactly that row |
| LogTable.SortDescending | hw1/log_analyzer.py:169 | sorting keeps the number of rows |
| LogTable.InsertNonIncreasing | hw1/log_analyzer.py:169 | inserting into an ordered table keeps it ordered |
| LogTable.SortNonIncreasing | hw1/log_analyzer.py:169 | the sorted table is ordered by `time_sum`, largest first |
| LogTable.SortPermutes | hw1/log_analyzer.py:169 | sorting only reorders the rows |
| LogTable.InsertWithSum | hw1/log_analyzer.py:169 | an inserted row goes ahead of the rows with its own `time_sum` |
| LogTable.SortStable | hw1/log_analyzer.py:169 | the sort is stable: rows with the same `time_sum` keep their relative order |
| LogTable.Slice | hw1/log_analyzer.py:169 | `[:n]` is a prefix of `n` rows, or of all rows when there are fewer, and a negative `n` counts from the end |
| LogTable.SliceKeepsLargest | hw1/log_analyzer.py:169 | a prefix of an ordered table keeps rows no smaller than any left out |
| LogTable.MakeTable | hw1/log_analyzer.py:158-169 | the table is the dictionary's rows in dictionary order, sorted and cut to `REPORT_SIZE` |
| LogTable.SortedRowsOf | hw1/log_analyzer.py:169 | sorting the rows of a dictionary gives rows of that dictionary again |
| LogTable.MissingNoLarger | hw1/log_analyzer.py:169 | a URL left out of the cut is no larger than any row kept |
| LogTable.TableProperties | hw1/log_analyzer.py:159-169 | the table is ordered by `time_sum`; it holds `min(REPORT_SIZE, number of URLs)` rows; each row is its URL's row, with `count` the length of its list; no URL appears twice; a URL left out is no larger than any kept; a full table covers every URL |
| LogReport.MakeLogTable | hw1/log_analyzer.py:151-170 | the outcome is one `make_log_table` may have: its two exits, an exception, or the table with the log's date |
| LogReport.ReportProperties | hw1/log_analyzer.py:151-170 | a finished table belongs to a matching log with the latest date, for which no report exists; every line of that log parsed with a numeric time; the table is ordered and no longer than `REPORT_SIZE` |
| FieldExamples.DateAcceptsPadded | hw3/api_undef.py:98-104 | `01.01.2000` is a date |
| FieldExamples.ParseThreeParts | hw3/api_undef.py:101 | a text of three converting parts is parsed to that date when it is valid, and refused otherwise |
| FieldExamples.DateAcceptsShortForms | hw3/api_undef.py:101 | `%d` also takes a space before one digit, and `%m` one digit |
| FieldExamples.DateRejectsIsoForm | hw3/api_undef.py:101-104 | `2000-01-01` is refused |
| FieldExamples.DateRejectsDay32 | hw3/api_undef.py:101-104 | a 32nd day is refused |
| FieldExamples.DateRejectsNonLeapFebruary29 | hw3/api_undef.py:101-104 | 29 February of a common year is refused |
| FieldExamples.SampleBirthdayRejected | hw3/api_undef.py:120-126 | the first sample's birthday, with its three-digit year, fails the date check |
| FieldExamples.EmailAcceptsSample | hw3/api_undef.py:85-90 | the sample e-mail is accepted |
| FieldExamples.EmailAcceptsTrailingNewline | hw3/api_undef.py:87-88 | `$` also matches before a final newline |
| FieldExamples.EmailRejectsSpace | hw3/api_undef.py:87-90 | whitespace before `@` is refused |
| FieldExamples.EmailRejectsNull | hw3/api_undef.py:87-88 | `None` makes `re` raise `TypeError` |
| FieldExamples.PhoneRejectsSignsAndNone | hw3/api_undef.py:112-117 | a leading `+`, a negative number, `None` and `""` are refused |
| FieldExamples.ClientIdsExamples | hw3/api_undef.py:92-96 | `[1, "2", 3]`, `[]` and a list holding 2**63 pass as written, and a tuple is refused; the intended rule refuses the string element and the `long` |
| FieldExamples.GenderExamples | hw3/api_undef.py:129-133 | 0, 1 and 2 pass; 3, -1, `True` and `"1"` are refused |
| FieldExamples.BirthDayIntendedAge20 | hw3/api_undef.py:124-125 | with today 2020-01-01, a person aged 20 passes the intended rule |
| FieldExamples.BirthDayIntendedAge100 | hw3/api_undef.py:124-126 | with today 2020-01-01, a person aged 100 fails the intended rule |
| LogExamples.ShortLineParses | hw1/log_analyzer.py:116-130 | a shortened `ui_short` line parses to its request path and its request time |
| LogExamples.FiveFragmentsParse | hw1/log_analyzer.py:116-130 | a five-fragment line whose fragments match twice parses to those two matches |
| LogExamples.TwoRequestsParse | hw1/log_analyzer.py:120-129 | a line with two quoted requests and no time also parses, to the two paths |

## Left out

- The HTTP server, option parsing, `scoring`, `uuid`, `pprint` and logging (hw3/api_undef.py:1-12): boundary code that no validation depends on.
- SHA-512 itself: `check_auth` takes the hex digest function as a parameter.
- `datetime.datetime.now()`: it is a parameter, namely the moment `check_auth` reads and the `today` of the intended birthday rule.
- `INTERNAL_METHOD` and `requests_map`: they are declared and never used, so there is no dispatch to model.
- `method_handler`'s `ctx` and `store`: they are never read.
- The dictionary `validated_request`: it is modelled by the function `Validated`, but it is never returned. The class-level `is_admin` is always true, so the answer is always the score.
- Python 2 builds with a 32-bit `int`: the bound between `int` and `long` is that of a 64-bit build.
- Floats in a request: `Json` has no float value. In the code a float is refused by every check, and `EmailField` and `DateField` raise `TypeError` on one. The model cannot state these cases.
- Exception messages: only their kind is modelled, plus the text of the 422 error.
- Python 2 `unicode`: `PhoneField` returns its text, and the difference between `str` and `unicode` is not modelled.
- The values of the request times: `float()` is modelled only as the set of texts it accepts (`Floats.FloatText`), and times stay text.
- `time_sum`: it is a parameter mapping a URL's list of times to a real number. `round`, `mean`, `median`, `max`, `time_perc` and `count_perc` are floating point and are left out.
- `ZeroDivisionError` for `time_perc` when every time sums to zero: it is floating point.
- `open_log`, gzip, `os.listdir` and `os.path.exists`:
  - the lines of a log come from a parameter `readLog`;
  - the listings are sequences of names;
  - the report directory's existence is a flag.
- `open_log` failing and returning `None`: not modelled.
- `os.path.makedirs`: it does not exist, so the call raises `AttributeError`, which is caught. This is modelled as its outcome, `None`.
- `exit(0)`: it is an outcome (`Exited`, `ThresholdExceeded`, `NoLogs`, `AlreadyPrepared`), and the logging around it is dropped.
- Dictionary iteration order: it is left open, and the selection and the table are stated for every order.
- LogSelect.SelectLogFile: with several matching logs of the latest date (a plain and a `.gz` copy), which one is taken is not fixed.
- LogTable.MakeTable: the row order before the sort comes from the dictionary and is left open; the stable sort is modelled.
- `parse_arguments`, `load_config`, `write_report` (apart from the report name it writes), `make_success_report` and `main`: configuration and file output.
- `REPORT_SIZE` and `ERR_THRS`: they are parameters, since a configuration file may override them.

## Findings

| source | as written | input that shows it | evidently intended | confidence | as-written member | corrected member |
|---|---|---|---|---|---|---|
| hw3/api_undef.py:94 | `all([True for x in value if type(x) is int])` keeps only `True`s, so every list passes | `[1, "2", 3]` | a list of integers only | high; not executed | Fields.CheckClientIds, FieldExamples.ClientIdsExamples | Fields.CheckClientIdsIntended |
| hw3/api_undef.py:122-123 | the date check returns the text, and a `str` is subtracted from a `date` | `"01.01.2000"` fails with `TypeError` | the age from the parsed date, strictly between 5 and 100 years | high; not executed | Fields.BirthDayNeverSucceeds | Fields.BirthDayIntendedIff |
| hw1/log_analyzer.py:76 | the month group (two-digit `0` then `1`-`9`, or `1` then one of `1`, `,`, `2`) and the day group (`0`-`2` then `1`-`9`, or `30`, `31`), here and in the report pattern at line 98 | `nginx-access-ui.log-20171001` is never found, and the report for 2017-06-20 is never recognised | every valid two-digit month and day | high; not executed | LogSelect.MonthFieldOfNumber, LogSelect.DayFieldOfNumber, LogSelect.ReportNameMissed | LogSelect.MonthFieldIntendedIff, LogSelect.DayFieldIntendedIff |
