# Calorie extraction and meal history, modelled in Dafny

The upload handler of the food-photo service sends a meal photo to a vision
model. The reply is free text. The handler turns it into a list of
`{name, calories}` records and a total, then appends the result to the user's
meal history. This project models those two pure steps and proves what they
guarantee.

- **The extractor** (`CalorieExtract`). The reply is split on line feeds. A line
  is kept when its lower-cased form contains `calories` and it has a colon.
  The record's name is the text before the first colon, with white space
  stripped from both ends. The calories value is every ASCII digit between the
  first and the second colon, concatenated and read as one decimal number. A
  line whose digits cannot be read as a number is skipped. Every kept record is
  appended in order and added to the running total.
- **The Python built-ins the loop relies on.**
  - `PyText`: `str.lower`, `in`, `str.split`, `str.strip` and
    `filter(str.isdigit, …)`.
  - `PyInt`: `int` on a digit string. It fails on the empty string and on
    strings longer than CPython's 4300-digit limit; the bare `except` turns
    either failure into a skipped line.
- **The generic fold** (`Partial`). It maps a partial function over a sequence
  and keeps the defined results. It carries the ordering and provenance proofs
  so that they do not depend on the details of one line's parsing.
- **The history update** (`History`). The in-memory
  `history.setdefault(user_id, []).append(data)` is modelled as an update of a
  map from user id to entry list, together with the entry one upload adds.
- **Worked replies** (`Samples`): a range, a list marker, a summary line, and a
  line without a number.

The code does not average ranges, strip list markers or keep summary lines out
of the total:

- A range such as `100-200 calories` is not averaged. Its digits are read
  together, which gives 100200 (`RangeConcatenated`, `RangeSample`).
- List markers such as `- ` stay part of the name (`MarkerSample`).
- A summary line such as `Total calories: 280 calories` is recorded and added
  to the total like any other line (`SummarySample`).
- Text after a second colon does not change the record's name or value,
  though a `calories` there still lets the line through the filter
  (`SecondColonIgnored`).

`str.lower` is modelled on ASCII letters only. For the one thing the lower-cased
line is used for, the test for `calories`, this is exact. ASCII characters
other than letters are unchanged both by Python and by the model. Every
non-ASCII character lower-cases to non-ASCII text, except U+0130 and U+212A:

- U+0130 becomes `i` followed by U+0307, so its `i` is never followed by the
  `e` that comes after `i` in `calories`.
- U+212A becomes `k`, which does not occur in `calories`.

`str.strip` is modelled with CPython's complete white-space set.

## Model

| member | source | states |
|---|---|---|
| PyText.Lower | main.py:43 | the lower-cased line has the same length, no ASCII capital is left in it, each capital became the small letter whose upper case it is, and every other character is kept |
| CalorieExtract.CandidateCaseInsensitive | main.py:43 | a line passes the filter exactly when "calories" occurs in it with each letter in either case, so the lower-casing makes the test case-insensitive |
| PyText.ContainsAt | main.py:43 | `"calories" in s` holds exactly when the keyword occurs at some position of `s` |
| CalorieExtract.CandidateSuffix | main.py:43 | a line whose ending mentions the keyword passes the filter whatever precedes it |
| PyText.Split | main.py:42 | `split` gives at least one piece, no piece contains the separator, and there are two or more pieces exactly when the separator occurs |
| PyText.JoinSplit | main.py:42 | re-joining the lines of a reply with line feeds gives the reply back, so splitting loses no text |
| PyText.SplitJoin | main.py:42 | splitting separator-free lines joined by the separator gives the same lines back |
| PyText.SplitFirst | main.py:44-46 | the first piece is the text before the first separator, or the whole text when there is none |
| PyText.SplitSecond | main.py:44-48 | the second piece is the text between the first and second separators, or the whole rest when there is no second one |
| PyText.Strip | main.py:46 | the stripped name sits inside the field with white-space-only margins on both sides and neither starts nor ends with white space |
| PyText.StripUnique | main.py:46 | any text described that way is exactly what `strip()` returns |
| PyText.StripPlain | main.py:46 | a name with no white space at either end is kept as it is |
| PyText.StripIdempotent | main.py:46 | stripping a stripped name changes nothing |
| PyText.Digits | main.py:48 | the digit filter keeps only digits and never lengthens its input |
| PyText.DigitsAppend | main.py:48 | the digit filter works piece by piece, keeping the order of the digits |
| PyText.DigitsOf | main.py:48 | a digit string is kept whole, and the filter gives nothing exactly when there is no digit |
| PyInt.DecimalValue | main.py:48 | a digit string of length n denotes a number below 10^n |
| PyInt.IntOfDigits | main.py:47-52 | `int` succeeds exactly on non-empty digit strings of at most 4300 digits, with a value below 10^length |
| PyInt.ValueOfToDecimal | main.py:48 | reading back the decimal spelling of n gives n |
| PyInt.IntOfToDecimal | main.py:48 | `int(str(n)) == n` within the digit limit |
| PyInt.ToDecimalOfValue | main.py:48 | a spelling without leading zero is the spelling of its own value |
| PyInt.ValueOfConcat | main.py:48 | the value of two digit strings read together is the first value shifted by the length of the second, plus the second |
| PyInt.LeadingZero | main.py:48 | a leading zero does not change the value |
| CalorieExtract.ParseLine | main.py:43-52 | a line produces a record only if its lower-cased form contains "calories" and it has a colon |
| CalorieExtract.ParseLineCharacterised | main.py:43-52 | a line produces a record exactly when it passes the filter, has a colon, and the digits between its first two colons are 1 to 4300 in number; the record is (stripped text before the first colon, value of those digits) |
| CalorieExtract.SplitFields | main.py:44-46 | the first two pieces of `line.split(":")` are the text before the first colon and the text between the first and second colons |
| CalorieExtract.SingleColonLine | main.py:43-52 | a candidate line with one colon gives the record read from the two sides of the colon, or nothing when that side holds no readable number |
| CalorieExtract.SecondColonIgnored | main.py:44-48 | two candidate lines that differ only after their second colon give the same result |
| CalorieExtract.NumberRead | main.py:46-49 | a line "name: N calories" gives the record (stripped name, N) |
| CalorieExtract.RangeConcatenated | main.py:48 | a range "lo-hi" gives lo * 10^len(hi) + hi, not an average |
| CalorieExtract.ParseLines | main.py:39-52 | the total equals the sum of the recorded calories, and there is at most one record per line |
| CalorieExtract.Parse | main.py:39-52 | on a whole reply: the total is the sum of the records' calories, with at most one record per line of the reply |
| CalorieExtract.ExtractCalories | main.py:39-52 | the loop with a mutable list and total computes exactly `Parse`, and its total is the sum of its records |
| CalorieExtract.ExtractLines | main.py:39-52 | the `for` loop over a list of lines computes exactly `ParseLines` of that list, and its total is the sum of its records |
| CalorieExtract.ProcessLine | main.py:43-52 | one pass of the loop body keeps the total equal to the sum of the list's calories, because every append comes with its add; the list only grows, by one record exactly when the line yields one, and the pass agrees with one step of the pure extractor |
| CalorieExtract.OneMoreLine | main.py:42-52 | processing one more line of the reply is one more pass of the loop body on the result so far |
| CalorieExtract.ParseLinesAppend | main.py:42-50 | processing two blocks of lines concatenates their record lists and adds their totals |
| CalorieExtract.SumCaloriesAppend | main.py:50 | the running total over two blocks of records is the sum of the two blocks' totals |
| CalorieExtract.RecordAppended | main.py:49-50 | a line with a record appends it last and adds its calories to the total |
| CalorieExtract.SkippedLine | main.py:47-52 | a line without a record changes nothing, and processing carries on with the following lines |
| CalorieExtract.NothingToRecord | main.py:39-40 | lines that all yield nothing give an empty list and a zero total |
| CalorieExtract.NoCandidateLines | main.py:39-43 | a reply in which no line mentions "calories" gives an empty list and a zero total |
| CalorieExtract.EmptyReply | main.py:39-42 | the empty reply gives an empty list and a zero total |
| CalorieExtract.IngredientsAreFilterMap | main.py:42-49 | the records are the per-line results of the lines that have one, in line order |
| CalorieExtract.Provenance | main.py:42-49 | the k-th record is the record of the k-th producing line; the producing positions ascend, and a line is among them exactly when it yields a record |
| Samples.RangeSample | main.py:48 | "Chicken: 100-200 calories" gives ("Chicken", 100200) |
| Samples.MarkerSample | main.py:46 | "- Rice: 280 calories" gives ("- Rice", 280) |
| Samples.SummaryLineSample | main.py:43-50 | "Total calories: 280 calories" gives the record ("Total calories", 280) |
| Samples.SummarySample | main.py:39-52 | a reply with an item and a summary line records both and totals 560 |
| Samples.NoNumberSample | main.py:47-52 | "Estimated: unknown calories" gives no record |
| Samples.TwoRecords | main.py:42-50 | two producing lines give both records in order, and the sum of their calories |
| History.Append | main.py:70 | the user gains a key if absent, and their list becomes the old list (or the empty list) followed by the new entry |
| History.AppendExtends | main.py:70 | the user's old entries stay in place, the list grows by one, and the new entry is last |
| History.AppendLeavesOthers | main.py:70 | every other user's presence and list are unchanged |
| History.EntryFor | main.py:54-58 | the stored entry carries the meal label and the extractor's list and total, the total being the sum of the list |
| History.Upload | main.py:39-70 | one upload adds exactly one entry, built from the reply, at the end of the uploader's list and touches no other user |
| History.UploadConsistent | main.py:39-70 | uploads keep every stored total equal to the sum of its ingredients' calories |
| History.AppendAllEntries | main.py:70 | after a series of uploads by a user, their list is the old list followed by the new entries in upload order |
| History.AppendAllOthers | main.py:70 | a series of uploads by a user leaves every other user's list unchanged |
| History.AppendCommutes | main.py:70 | uploads by two different users may be applied in either order |

## Left out

- The HTTP endpoint, form and multipart handling, and the JSON response (main.py:1-6, 75) are framework plumbing.
- The file name built from the clock and `os.urandom`, and the write of the image to disk (main.py:8-16), are not modelled: they are nondeterministic I/O.
- The base64 encoding of the image (main.py:19) is a library call.
- The chat-completion call and the access to its reply (main.py:22-36) go over the network. The reply text is a free input of `Parse` and `Upload`. A reply whose content is `None` makes the Python code fail on `split`; that case is not modelled.
- The `date`, `image_file` and `timestamp` fields of the stored entry (main.py:55, 59, 60) depend on the clock and the random name, so `Entry` keeps only the meal, total and ingredients.
- Reading the history file with its fallback to `{}`, and writing it back (main.py:64-69, 72-73), are file I/O. Only the in-memory update at line 70 is modelled.
- The key order of the Python dictionary is not modelled. A new user goes last in the JSON file, but the model uses a map.
- Concurrent uploads racing on the history file are not modelled.
- PyText.Lower: only ASCII letters are lower-cased. The argument above shows this decides the `calories` test exactly, but the lower-cased text itself differs from Python's for other scripts.
- PyText.Digits: only ASCII `0`-`9` count as digits. Python's `isdigit` also accepts other scripts' decimal digits, which `int` reads, and characters such as superscripts, which make `int` fail and the line be skipped.
- PyInt.IntOfDigits: the 4300-digit limit is the default of CPython 3.11 and later and of the 3.7.14, 3.8.14, 3.9.14 and 3.10.7 security releases. Earlier interpreters read any length, and the limit can be changed at run time.
