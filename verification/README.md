# Verified model of PersonalProject

This Dafny project models the parts of the repository that carry real algorithms and proves
what they are for.

- **The record store** (`apue_db.c`): two files, hash chains and a free list threaded
  through an index file, and decimal fields. `Bytes` has the C strings and the decimal
  codec, `IndexRecord` the record format and its parser, `FileImage` the files seen as
  pointer cells, records and data extents, `Lists` the linked lists, `Directory` the map
  from keys to records, `Database` the handle with its operations as imperative methods,
  `Runs` whole runs and full scans, and `StaleWalk` the walks as the code is written. In
  `Runs` a `Ledger` holds all that decides what an operation does: the map, the sizes on the
  free list and the lengths of the files.
  The three layers are the bytes, an image of records and lists (`Book`), and a plain map
  (`Contents`). `Rep` ties bytes to the image; `Sound` says the lists and keys fit.
- **The calendar** (`Date.cpp`, `Date.h`): module `Calendar`.
- **Exact fractions** (`Fraction.cpp`): module `Fractions`.
- **Boolean expressions** (`Interpreter_Pattern.cpp`, `VariableExp.cpp`, `Context.cpp`):
  module `Expressions`.
- **The producer and consumer** (`player.c`): module `Player`, a state machine over every
  interleaving of the two threads.
- **The space normaliser** (`trim_string.cpp`): module `Trim`, in place on an array.

`dafny verify dfyconfig.toml` checks everything.

## Where the code does not do what it is for

- `_db_readidx` never stores the pointer field it reads (`apue_db.c:347-362`, `:411`). The
  `Database` module decodes it, as every caller expects; that is the one change to the
  logic. `StaleWalk` keeps the code as written: it proves exactly when a fetch, a delete and
  each path of a store are still right and exactly when a walk never ends, and follows two stores ("a", "dC") after which the search for "fB" never ends.
- The length field read there has no terminator before `atoi` (`apue_db.c:338`, `:363`).
  It is modelled as terminated.
- A store that needs a new record beyond `PTR_MAX` returns 0 but the key is lost
  (`apue_db.c:598-602`, `:652`, `:675`). `Db.Store` says exactly when: the record is in the
  file, no list reaches it, and an old value of the key is gone. `Runs.LoseTheOnlyKey` is a
  run on which it happens.
- A scan skips a live key of nothing but spaces and lists lost records
  (`apue_db.c:756-765`). `Runs.ScanIsMapExactlyWhen` shows nothing else keeps it from being
  the map; `Runs.ListBlankKey` and `Runs.ListLostKey` are runs on which it is not.
- A lookup between two reads of a scan moves the descriptor they share
  (`apue_db.c:313`, `:341`). `Runs.NextAfterFetch` says where the scan goes on, and
  `Runs.ScanCutShort` is a run on which it ends before its first record.
- `getDMY` on a negative count wraps the day (`Date.cpp:79-88`); the count comes back from
  the date exactly from the base date on.
- `simplify` leaves a fraction alone when a part is 0 or 1 (`Fraction.cpp:102`), so `0/5` and
  `0/3` are equal with different parts, and `1/-1` stays while every other form of -1 becomes
  `-1/1`. `Fractions.CanonicalExactlyWhen` shows there are no other cases.
- `f.divide(f)` gives 1 divided by the denominator of `f` (`Fraction.cpp:91-97`); by
  `Fractions.RunExactExactlyWhen` nothing else keeps a run from being exact.
- Replacing a variable replaces every variable whose name is a prefix of it, and an empty
  context answers false where any other throws (`VariableExp.cpp:32`, `Context.cpp:14-18`).
- The reader of `player.c` ends the stream outside the mutex (`player.c:102-103`), and the
  printer may be taking the last line at the time (`player.c:128-133`). If the reader fetches
  `queue_current` after the printer has cleared it, or the printer frees the node the reader
  is about to use, the reader crashes. If it gets through, but marks the end only after the
  printer has read the last node's successor, `queue_start` stays null and the printer waits
  for ever. `Player.MaximalRunsEnd` shows that every run ends in one of these two ways or
  with both threads returned, exactly when which happens, and that every line is taken in all
  three; there is a run for each.
- `trim_string` can leave one trailing space (`trim_string.cpp:48`); `Trim` says when.

## Model

| member | source | states |
|---|---|---|
| Bytes.DecimalLength | apue_db.c:552-558 | a printed number has at most k digits exactly when it is below 10 to the k |
| Bytes.PadLength | apue_db.c:558 | a padded field has its width exactly when the number fits in it |
| Bytes.PadDigits | apue_db.c:552-558 | each column of a padded field: the ASCII digit of its power of ten, or a space where the number has none |
| Bytes.AtolPad | apue_db.c:331 | reading a padded decimal field back gives the number, for every number |
| Bytes.AtolNumber | apue_db.c:331 | on any string that starts with white space, a sign, zeros and digits, the signed number up to the first other character |
| Bytes.AtolNothing | apue_db.c:331 | 0 for every other string |
| IndexRecord.Encode | apue_db.c:552-558 | the printed record has exactly the size its length field announces |
| IndexRecord.RecordLayout | apue_db.c:552-575 | six columns of pointer, four of length, then the key, a colon, the offset, a colon, the length and a newline |
| IndexRecord.ParseEncoded | apue_db.c:334-411 | a record written anywhere in a file reads back field for field: pointer, length, key, data offset, data length |
| IndexRecord.ParseBodyExactlyWhen | apue_db.c:381-410 | a text is accepted exactly when it has two colons, the second part is a number from 0 on and the third one from 1 to 1024; the entry has those parts |
| IndexRecord.ParseIdxExactlyWhen | apue_db.c:334-411 | a record is read exactly where six bytes, four bytes with a number from 6 to 1024, and a text of that length with a newline at its end stand in the file, and the text is accepted |
| FileImage.ReadCell | apue_db.c:308-332 | reading a pointer cell gives the pointer the image has there |
| FileImage.ReadRecord | apue_db.c:334-411 | reading at a record's offset gives exactly that record's fields |
| FileImage.WriteCell | apue_db.c:594-614 | writing a pointer changes that one cell of the image and nothing else in either file |
| FileImage.RewriteRecord | apue_db.c:569-583 | rewriting a record under a key of equal length refills exactly its bytes; all other cells, records and data stay |
| FileImage.RewriteData | apue_db.c:507-522 | refilling a data extent with as many bytes leaves every other extent as it was |
| FileImage.AppendRecord | apue_db.c:650-651 | appending adds one record and one extent, keeps the tiling of both files and everything already there |
| FileImage.EveryByteOwned | apue_db.c:569-583 | each byte behind the header of the index file belongs to exactly one record |
| FileImage.EveryDataByteOwned | apue_db.c:507-522 | each byte of the data file belongs to the extent of exactly one record |
| Lists.Unlink | apue_db.c:703-723 | bypassing a record at any position leaves well-formed disjoint lists without it |
| Lists.Push | apue_db.c:646-652 | putting an unlisted record at the head of a list leaves well-formed disjoint lists with it |
| Lists.Move | apue_db.c:480-485 | the three pointer writes of a delete, or of a reuse, move one record to the front of another list |
| Directory.HashCell | apue_db.c:262-306 | every key hashes to one of the 137 chain heads, never to the free-list head |
| Directory.HashSumInClosedForm | apue_db.c:295-306 | for every key the sum is that of each signed character times its place, wrapped once to 64 bits |
| Directory.HashSumWeights | apue_db.c:301-304 | the next character at place i raises the sum by i + 1 |
| Directory.HashCellIs | apue_db.c:262-306 | the cell in numbers: 6 and 6 times that sum modulo 137 |
| Directory.OnExactlyOneList | apue_db.c:262-292 | each addressable record is on exactly one list: blank on the free list, or live on the chain of its own key |
| Directory.DeletedSound | apue_db.c:457-485 | blanking and moving a record keeps the structure sound and removes exactly that key |
| Directory.ReusedSound | apue_db.c:656-658 | refilling a free record keeps the structure sound and adds exactly that key and value |
| Directory.AppendedSound | apue_db.c:650-652 | linking a new record keeps the structure sound and adds the key, unless the offset is beyond PTR_MAX, when the map stays as it was |
| Directory.OverwrittenSound | apue_db.c:679 | overwriting data in place changes exactly that key's value |
| Directory.DeletedOthers | apue_db.c:457-485 | a delete moves no record, touches no other key's record or data, and shifts one record from live to free |
| Directory.ReusedOthers | apue_db.c:656-658 | a reuse touches no other key's record or data |
| Directory.ReusedCount | apue_db.c:656-659 | a reuse shifts one record from free to live |
| Directory.AppendedOthers | apue_db.c:650-652 | an append touches no other key's record or data |
| Directory.AppendedCount | apue_db.c:650-653 | an append adds one live record, or one stray record beyond PTR_MAX |
| Directory.OverwrittenOthers | apue_db.c:679-680 | an overwrite touches no other key and changes no count |
| Database.ListStep | apue_db.c:282-291 | reading the record at any position of a list yields its fields and the next position |
| Database.DeleteWrites | apue_db.c:478-485 | the four writes of a delete, in their order, turn the files of one database into those of the database without the key |
| Database.ReuseWrites | apue_db.c:656-658 | the three writes into a free record yield the files of the database with the key |
| Database.AppendWrites | apue_db.c:650-652 | the three appending writes yield the files of the database with the new record |
| Database.Db.Create | apue_db.c:147-170 | the header built by the loop is an empty, balanced database; each of its 829 bytes |
| Database.Db.SplitText | apue_db.c:381-410 | succeeds exactly on texts with two separators and legal numbers, and yields their parts |
| Database.Db.ReadIdx | apue_db.c:334-411 | on any file, -1 exactly as the parser fails, otherwise the parsed fields, the decoded pointer and the position behind the record |
| Database.Db.ReadDat | apue_db.c:414-433 | the data of the extent as a C string, or nothing for a short read or a missing newline |
| Database.DatAtExactlyWhen | apue_db.c:414-433 | that in bytes: the extent is in the file and ends in a newline, and the string ends there or at its first NUL |
| Database.Db.WriteIdx | apue_db.c:533-592 | the encoded record at the offset or the end if pointer and length are legal, otherwise no write |
| Database.Db.Hash | apue_db.c:295-306 | the sum of signed characters times their places, in 64-bit arithmetic, modulo 137 |
| Database.Db.FindAndLock | apue_db.c:258-293 | terminates; finds the key exactly when it is in the map, and leaves its record, its fields and the cell that points to it in the handle |
| Database.Db.FindFree | apue_db.c:693-731 | terminates; takes the first free record whose key and data lengths both match off the list, exactly when there is one |
| Database.Db.BlankBuffers | apue_db.c:463-472 | both buffers become spaces of the lengths they had |
| Database.Db.DoDelete | apue_db.c:457-491 | the located record is blanked and moved to the free list, and both files keep their lengths |
| Database.Db.AppendEntry | apue_db.c:650-652 | the files hold the database with the new record, and their lengths grow by the record and its data |
| Database.Db.ReuseEntry | apue_db.c:656-658 | the files hold the database with the free record refilled, at the same lengths |
| Database.Db.StoreNew | apue_db.c:646-660 | a new key reuses a record exactly when one fits, else appends; contents, lengths, free sizes and counters follow; only an append needs room in the record format |
| Database.Db.Relocate | apue_db.c:671-676 | a value of another length is stored in a new record and the old one is freed |
| Database.Db.Overwrite | apue_db.c:679-680 | a value of the same length is replaced in place |
| Database.Db.Put | apue_db.c:646-681 | the path taken is the one the lookup, the free list and the lengths call for, with the files, the free sizes, the map, the record counts and the counters it leaves |
| Database.Db.Store | apue_db.c:616-691 | with 1 to 1023 bytes of data, flag 1 returns 0 or, for a key that is there, 1; flag 2 returns 0 or, for one that is not, -1; flag 3 returns 0; all else returns -1; only 0 changes the map. The path taken fixes lengths, free sizes, record counts and counters; past PTR_MAX a store that needs a new record loses exactly its key, and the record is in the file |
| Database.Db.Delete | apue_db.c:435-455 | return code and new map are those of a plain map; no other key is disturbed; the files keep their lengths |
| Database.Db.Fetch | apue_db.c:236-256 | the value of the key in the map, or nothing exactly when it is not there, and where the descriptor is left |
| Database.Db.Rewind | apue_db.c:733-743 | the descriptor stands between records, with every record ahead of it |
| Database.Db.NextRec | apue_db.c:745-781 | between records, the next record in file order that is not blank, with its data, or nothing exactly at the end; where no record can be read, nothing |
| Runs.Perform | apue_db.c:236-691 | one operation replies as the map does and takes the map, the free sizes and both file lengths to exactly what the ledger says, and keeps the record counts balanced |
| Runs.Run | apue_db.c:236-691 | over any sequence of operations the record format can take, at any file length, every reply and the final map, free sizes and file lengths are the ledger's, and the counters account for every record |
| Runs.PlainMapExactlyWhen | apue_db.c:616-691 | along a run the map is the plain map's after every step exactly when no store is lost |
| Runs.NothingLost | apue_db.c:236-691 | if no store is lost, all replies and the final map are those of a plain map |
| Runs.LosesExactlyWhen | apue_db.c:598-602 | a store is lost exactly when it is done, needs a new record, and the index file is longer than 999999 bytes |
| Runs.InsertThenInsert | apue_db.c:663-667 | inserting a missing key twice returns 0 and then 1, or 0 again if the first was lost |
| Runs.DeleteThenReplace | apue_db.c:638-645 | replacing a key just deleted returns -1 |
| Runs.StoreThenFetch | apue_db.c:236-256 | a value just stored is fetched, unless it was lost |
| Runs.InsertAndReplaceAreStore | apue_db.c:636-667 | of inserting and replacing one does what storing does, by whether the key is there, and the other leaves everything as it was |
| Runs.LoseTheOnlyKey | apue_db.c:671-676 | a database grown past PTR_MAX by stores of one key, on which one more store returns 0 and leaves the map empty, with a record that a scan lists |
| Runs.WalkAll | apue_db.c:745-770 | walking by record sizes visits exactly the records that are not blank, in increasing order |
| Runs.ListAll | apue_db.c:733-781 | rewinding and reading until the end lists the records that are not blank, in file order; the list is the map, each pair once, exactly when no live key is blank and no record with something in it was lost |
| Runs.ScanVisits | apue_db.c:745-781 | the scan meets every record that is not blank once, lost ones included; those within PTR_MAX are the live keys with their values |
| Runs.ScanIsMapExactlyWhen | apue_db.c:745-781 | a scan is exactly the map precisely when no live key is all spaces and every record beyond PTR_MAX is blank |
| Runs.ListLostKey | apue_db.c:733-781 | a database with an empty map whose scan lists a key |
| Runs.ListBlankKey | apue_db.c:756-765 | a database with one key, a space, whose scan lists nothing |
| Runs.NextAfterFetch | apue_db.c:236-341 | after a lookup the scan goes on behind the record found or the last of its chain; for an empty chain it ends at once if the next but one chain is empty too |
| Runs.ScanCutShort | apue_db.c:236-341 | a database with one key, rewound, on which a lookup of another key makes the next read report the end |
| Runs.FilesDetermineContents | apue_db.c:334-433 | two readings of the same two files as a database give the same map |
| StaleWalk.WholeSearch | apue_db.c:282-292 | as written, a walk along a list looks at no more than the head and the record the handle last pointed to |
| StaleWalk.NeverEndsExactlyWhen | apue_db.c:282-292 | as written, a walk never ends exactly when neither record it looks at is wanted and the stale pointer is not the end |
| StaleWalk.RightForKey | apue_db.c:282-292 | a search is right when it stops at the record of the key, or reports a missing key |
| StaleWalk.SearchRightExactlyWhen | apue_db.c:282-411 | as written, a walk for a key or a free record is right exactly when the list is empty, its head is wanted, or the stale pointer leads to the first record wanted, or to the end if there is none |
| StaleWalk.FetchesRightExactlyWhen | apue_db.c:236-292 | as written, a fetch is right exactly when the key heads its chain or the stale pointer leads to it, or it is missing and its chain is empty or the pointer is 0 |
| StaleWalk.SearchTakesOutExactlyWhen | apue_db.c:693-731 | as written, walking a list and relinking it leaves the list without the record wanted exactly when it heads the list and the stale pointer is the second record, or nothing is wanted and the walk is right |
| StaleWalk.SearchDeletesRightExactlyWhen | apue_db.c:435-491 | as written, a whole delete leaves the right pointers exactly when the key heads its chain and the stale pointer is the second record, or the key is missing and its chain is empty or the pointer is 0 |
| StaleWalk.StoresRightExactlyWhen | apue_db.c:616-691 | as written, each path of a store searches and relinks right exactly under a condition on the head of its chain, the head of the free list and the stale pointer |
| StaleWalk.StoresFresh | apue_db.c:616-660 | as written, with the stale pointer 0 and no free record, a new key is appended, and the pointer kept is the old head of its chain |
| StaleWalk.AfterTwoStores | apue_db.c:616-691 | on a new handle, storing two keys of one chain as written leaves a pointer from which the search for a third key of that chain never ends |
| StaleWalk.SomeSearchNeverEnds | apue_db.c:282-292 | with "a" and "dC" so stored, the search for "fB" never ends |
| Calendar.TomorrowIsNext | Date.h:40-44 | one more day is the calendar successor across months, years and leap days |
| Calendar.CountsFollowDates | Date.h:25-33 | day counts are ordered, and equal, exactly as dates are by year, month and day |
| Calendar.CountAndDate | Date.cpp:79-88 | advancing the calendar n days from the base date and counting days are inverse, and the date is unique |
| Calendar.LeapYearExactlyWhen | Date.cpp:125-136 | a multiple of 4 that is no century, or a century whose number is a multiple of 4 |
| Calendar.ValidExactlyWhen | Date.cpp:45-48 | a date is accepted exactly from the year 1000 on if its month and day exist |
| Calendar.CountInNumbers | Date.cpp:50-61 | the count in closed form: years, leap days, months and days |
| Calendar.Anchors | Date.cpp:9-88 | counts 0, 24392 and 365302 are 1 January 1000, 14 October 1066 and 1 March 2000 |
| Calendar.DateOfCount | Date.cpp:43-62 | every valid date from the base year on comes back from its count |
| Calendar.ComesBackExactlyWhenValid | Date.cpp:43-62 | a date comes back from its count exactly when it is valid |
| Calendar.YearsInClosedForm | Date.cpp:52-55 | the sum of year lengths equals 365 days a year plus the leap days between |
| Calendar.WeekDaysCount | Date.cpp:108-123 | on every valid date the century, year and month tables agree with counting days modulo 7 |
| Calendar.FourCenturies | Date.cpp:81-87 | 146097 days later it is the same day, month and weekday 400 years on |
| Calendar.Date.FromDMY | Date.cpp:37-41 | the count of a valid date, the base date for any other; 24392 for 14 October 1066 |
| Calendar.Date.ToDays | Date.cpp:43-62 | the two loops sum years and months to the day count, which is the closed form; 0 for an invalid date |
| Calendar.Date.YearOf | Date.cpp:81-84 | the year loop stops in the year that contains the day |
| Calendar.Date.MonthOf | Date.cpp:85-87 | the month loop stops by December, in the month that contains the day |
| Calendar.Date.GetDMY | Date.cpp:79-88 | the calendar advanced that many days, from 1 January 1000, or for a negative count the wrapped day of January 1000; the count comes back from the date exactly when it is not negative |
| Calendar.Date.GetWeekDay | Date.cpp:108-123 | the weekday index is the count plus 2 modulo 7, down to 9 days before the base date, and what the unsigned sum wraps to for every negative count |
| Calendar.Date.LessThan | Date.h:25-28 | comparing counts is comparing the dates by year, month and day |
| Calendar.Date.Equals | Date.h:30-33 | equal counts are equal dates |
| Calendar.Date.DaysAfter | Date.h:35-38 | the number of days by which the other date must be advanced to reach this one |
| Calendar.Date.AddDays | Date.h:40-44 | the calendar advanced that many days; 146097 of them keep day and month and add 400 years |
| Fractions.QuotRem | Fraction.cpp:115-127 | truncating division: exact decomposition, remainder smaller than the divisor and signed like the dividend |
| Fractions.GcdIsGreatest | Fraction.cpp:115-127 | for any signs the loop's result is a common divisor that every common divisor divides |
| Fractions.GcdOneStep | Fraction.cpp:115-127 | the loop is Euclid's algorithm: the divisor after an exact division, otherwise the result for divisor and remainder |
| Fractions.GcdSign | Fraction.cpp:115-127 | the result has the sign of the second operand after an odd number of divisions and of the first one after an even number; of both if they have one sign |
| Fractions.DivisionsOfSizes | Fraction.cpp:115-127 | the number of divisions is a matter of the absolute values |
| Fractions.SimplifiedSign | Fraction.cpp:100-113 | parts of one sign come out positive; of different signs, the numerator takes the minus exactly after an odd number of divisions, but for 1/-1 |
| Fractions.GcdScales | Fraction.cpp:115-127 | scaling both operands by any nonzero factor scales the result, sign included |
| Fractions.OneDivision | Fraction.cpp:106-112 | after one division the gcd is 1 for all inputs, so the loop of simplify runs at most once |
| Fractions.SimplifiedMeaning | Fraction.cpp:100-113 | simplifying keeps the exact value and leaves coprime parts unless the value is 0 |
| Fractions.CanonicalExactlyWhen | Fraction.cpp:100-113 | equal fractions simplify to equal parts exactly when zeros have the same denominator, or, for other values, both or neither are given as 1/-1 |
| Fractions.NotCanonicalExamples | Fraction.cpp:102-105 | 0/5 and 0/3, and 1/-1 and -1/1, are equal and keep different parts |
| Fractions.SelfQuotient | Fraction.cpp:91-97 | a fraction divided by itself comes out as 1 over its denominator, which is 1 exactly when the denominator is 1 |
| Fractions.Fraction.constructor | Fraction.cpp:15-19 | lowest terms of the given value, with the signs that simplifying gives |
| Fractions.Fraction.Set | Fraction.cpp:20-25 | lowest terms of the given value; positive for parts of one sign, and where the minus stands for others |
| Fractions.Fraction.ComputeGcd | Fraction.cpp:115-127 | terminates for every nonzero divisor with the signed gcd, positive or negative with both operands |
| Fractions.Fraction.Simplify | Fraction.cpp:100-113 | terminates within one round, keeps the value, leaves lowest terms with these signs |
| Fractions.Fraction.Add | Fraction.cpp:61-70 | the exact sum in lowest terms, also when added to itself |
| Fractions.Fraction.Substract | Fraction.cpp:72-81 | the exact difference in lowest terms |
| Fractions.Fraction.Multiply | Fraction.cpp:83-89 | the exact product in lowest terms |
| Fractions.Fraction.Divide | Fraction.cpp:91-97 | the exact quotient in lowest terms by another fraction, and the exact outcome by itself |
| Fractions.ZeroDenominatorExactlyWhen | Fraction.cpp:61-105 | an operation leaves denominator 0 exactly when it meets one or divides by 0, and only a set ends that |
| Fractions.ZeroDenominatorParts | Fraction.cpp:61-105 | the parts are then the products as they are |
| Fractions.StepExactExactlyWhen | Fraction.cpp:61-113 | where exact arithmetic has a result, an operation gives it in lowest terms, except for a division by itself, which does so exactly when the denominator is 1 |
| Fractions.RunExactExactlyWhen | Fraction.cpp:61-113 | along a run the parts hold the exact rational value after every operation exactly when no division by itself is done with a denominator other than 1 |
| Fractions.Perform | Fraction.cpp:20-97 | any operation, by a new fraction or by itself, zero denominators included, leaves the parts these theorems are about |
| Fractions.Run | Fraction.cpp:20-97 | any sequence of operations leaves those parts, and with them the exact rational value in lowest terms |
| Expressions.Context.Assign | Context.cpp:21-25 | the context with that one name bound, which the next lookup returns |
| Expressions.OperatorsAreBoolean | Interpreter_Pattern.cpp:20-71 | where both sides have a value, and, or and not are those of the booleans |
| Expressions.OperatorsThrow | Interpreter_Pattern.cpp:20-71 | an operator throws exactly when its left side does, or its right side does and is evaluated |
| Expressions.BoundHasValue | Interpreter_Pattern.cpp:20-98 | with every variable bound nothing throws |
| Expressions.EmptyIsAllFalse | Context.cpp:12-20 | an empty context never throws and evaluates every expression as one that binds all its variables to false |
| Expressions.MatchesIsPrefix | VariableExp.cpp:32 | a name matches exactly when the variable's own name, folded to small letters, is a prefix of it, folded |
| Expressions.MatchesExactlyWhen | VariableExp.cpp:32 | that character by character: the same one, or the two cases of one letter |
| Expressions.ReplacedByLonger | VariableExp.cpp:30-37 | a variable is replaced under any change of case and any longer name |
| Expressions.KeptByOther | VariableExp.cpp:30-37 | it is kept under a shorter name and under one with another character |
| Expressions.Substitution | Interpreter_Pattern.cpp:20-31 | evaluating after a replacement is evaluating with every matching variable taking the outcome of the inserted expression, failures and short-circuits included |
| Expressions.AssignIsReplaceExactlyWhen | VariableExp.cpp:25-37 | assigning a variable and replacing it by a constant agree on all expressions over a set of names exactly when they agree on each name |
| Expressions.ReplaceCommutesExactlyWhen | VariableExp.cpp:30-42 | two replacements commute, the second also applied to the first's insert, exactly when they do on each variable that matches the second name |
| Expressions.ReplaceCommutes | VariableExp.cpp:30-42 | they commute when no variable matches both names and none of the second insert matches the first name |
| Player.StepKeeps | player.c:55-138 | every step keeps order, list shape, mutual exclusion and wake-ups, and crashes exactly when it follows a pointer the reader holds that is null or freed, with every node taken |
| Player.EveryRun | player.c:55-138 | under every interleaving, lines printed, in hand, queued and unread are the input in order, in a well-formed list, with no lost wake-up |
| Player.AllPrinted | player.c:107-145 | when the printer returns, the whole input has been printed in order |
| Player.CrashOnlyWhenDrained | player.c:102-103 | a run can crash only in the two statements that end the stream, and only with nothing queued or unread |
| Player.DoomedExactlyWhen | player.c:102-142 | a run has crashed or can only crash exactly when the reader has fetched a cleared queue_current or the printer has freed the node it held |
| Player.StrandedExactlyWhen | player.c:102-129 | short of a crash, queue_start is null for good exactly when line 102 was executed with it null already |
| Player.ReaderCanCrash | player.c:102-133 | for every line there is a run that crashes |
| Player.PrinterCanHang | player.c:102-133 | for every line there is a run that prints it and ends with the reader done and the printer waiting, no step left but a spurious wake-up |
| Player.WakingIsNoHelp | player.c:120-127 | that wake-up leads back to the same state |
| Player.BothCanReturn | player.c:102-145 | for every line there is a run that prints it and in which both threads return |
| Player.SomeoneMoves | player.c:55-138 | some step is possible without a spurious wake-up exactly until the reader is done and the printer is done or waits |
| Player.SomeoneMovesSafely | player.c:55-138 | a step that does not crash is possible exactly unless the printer is done or waits while the reader is done or holds a null or freed pointer |
| Player.RankFalls | player.c:55-145 | every step brings the two threads nearer to their end, but for spurious wake-ups |
| Player.RunsAreBounded | player.c:55-145 | no run is longer than 26 steps a line, 22 more, and three for every spurious wake-up |
| Player.MaximalRunsEnd | player.c:43-169 | a run carried on until no thread can move has taken every line; it crashed exactly when a step doomed the reader, and otherwise printed the input, with the printer waiting for ever exactly when the end was marked late and both threads done if not |
| Trim.SqueezeKeepsWords | trim_string.cpp:25-47 | the loop keeps the sequence of words |
| Trim.OneWord | trim_string.cpp:25-47 | a string without spaces is one word |
| Trim.SpaceParts | trim_string.cpp:25-47 | a space parts the words on its two sides |
| Trim.TrimmedMeaning | trim_string.cpp:10-56 | same words, no leading space, no two adjacent spaces, no longer than before |
| Trim.KeepsTrailingSpaceExactlyWhen | trim_string.cpp:48-51 | one trailing space stays exactly when the string has a word, ends in a space and has a space at the index of the squeezed length |
| Trim.TrailingSpaceExamples | trim_string.cpp:48-51 | "abc  " keeps a trailing space and "abc " does not |
| Trim.TrimString | trim_string.cpp:10-56 | in place, within the buffer, the string becomes its trimmed form and nothing behind the old terminator changes |

## Left out

- Locks, other processes and failing system calls in `apue_db.c`: one handle works on in-memory files, and no concurrency is claimed for it.
- Opening a database without creating it with an empty header, and `db_close`.
- Database.Db.ReadIdx: returns the decoded pointer field, where the code returns the stale `db->ptrval`; `StaleWalk` models the code.
- Database.Db.Store: a store that is not refused needs a key without `:` or NUL, and one that takes a new record a text of `IDXLEN_MIN` to `IDXLEN_MAX` bytes. The code does not check this: a text that is too short (an empty key with less than three digits behind it) or one byte too long is not written and the chain head is set to the offset the handle last used, a still longer one overruns the buffer, and a `:` in the key makes a record no search can read.
- Database.Db.StoreNew: the same.
- Database.Db.Put: the same.
- Runs.Perform: the same.
- Runs.Run: asks the same of every store of the run, and nothing else.
- What a run of `apue_db.c` as written leaves behind after its first wrong step: `StaleWalk` judges one operation at a time, from a sound database.
- The key buffer that `_db_dodelete` passes as both source and target of `sprintf` is modelled as copied.
- Machine integers wider than the model needs: years, day counts and fraction parts are unbounded; the hash, the signed characters and the wrapped day are modelled at their widths.
- `setToToday`, `toString`, `toDouble` and month names: clocks, formatting and floating point.
- Memory ownership in the expression classes, which are an immutable datatype here; `Copy` is therefore the identity.
- Failures of `malloc`, `getline` and the pthread calls in `player.c`; a `getline` result is an element of the input.
- The null argument and the failed allocation of `trim_string`.
- The other programs of the repository: design-pattern exercises with one-branch behaviour, and terminal, signal, timer, socket and kernel plumbing.
