# libical 0.44 in Dafny

A model, with proofs, of the parts of the bundled libical 0.44 that have state or arithmetic
worth getting wrong:

- **Component trees** (`icalcomponent.c`). `Component.dfy` is the mutable component: property
  and child lists with their cursors, parent links, and the lazily sorted array of timezones that
  serves as an index over the VTIMEZONE children. Its invariant `Ok` is kept by every routine;
  `Valid` says that a whole tree is made of such components and that nothing in it is shared, and an
  edit anywhere in the tree keeps it exactly if it leaves the TZID of an attached VTIMEZONE as it is.
  Each routine is proved against the value of the tree, and what the routines are for is proved about
  values in `Tree.dfy` (cloning, error stripping and conversion), `Paths.dfy` (what a change at one
  place means for the whole, and moves), `Serialise.dfy` (text and comparison), with `Fold.dfy` (the
  folding of property lines in `icalproperty.c`) and `Kinds.dfy` (the names of components), and `Merge.dfy` (merging two calendars).
  `Recurrence.dfy` is the expansion of recurrences with its four loops over one cursor, and
  `TzidConflict.dfy` the choice of a TZID for a VTIMEZONE whose own is taken.
- **Calendar arithmetic** (`caldate.c`). `CalDate.dfy`: `juldat` and `caldat` on whole days, against
  a day number defined from the lengths of years and months.
- **Durations** (`icalduration.c`), section 4.3.6 of RFC 2445. `Duration.dfy`: parser, printer and
  conversions, with C's 32-bit unsigned fields.
- **The pointer-type table** of `netical_wrap.c`. `SwigTable.dfy`: equivalence table, lazy sort,
  bucket index and cache.
- **Supporting state**. `Attach.dfy` (reference-counted attachments and the values that hold
  them), `IcalArray.dfy` (the growable array), `Strcmp.dfy` (string order and sorting), `Decimal.dfy`
  (decimal numbers), `Sequences.dfy` (facts about sequences), `Wrappers.dfy` (optional values).

## How the C is rendered

- A pvl list is the sequence of its data, and a cursor the position of an element or NULL. A removal
  moves a cursor that is at the removed element to the next one, as the routines do.
- An icalproperty is an object with a kind, parameters, a value and a parent link. Its text is a
  parameter; how the text is folded into lines is modelled. Theorems about components' texts say what
  they need of the lines (`Serialise.Faithful`), and `Serialise.FoldedFaithful` says when folded lines meet it.
- `ICAL_ERRORS_ARE_FATAL` is defined (as 0) and icalerror.h only asks whether it is, so a failed
  `icalerror_assert` aborts: that a property to be added has no parent, and one to be removed has one, is
  therefore a precondition and not an error path. For a component to be added that has a parent the code
  sets `icalerrno` and goes on, and so does the model.
- A time has an instant, a clock reading and a flag for DATE values. They are compared as `icaltime_compare`
  does: by day, and on one day a DATE before every DATE-TIME.
- Ghost parameters and ghost fields (`tree`, `Repr`, `depth`, the indices of loop turns) carry the
  proofs and nothing else. Where a C routine has one loop with a long body, the body is a method of
  its own.
- Integer division in `caldate.c` comes from casts of doubles: each constant is an exact rational, and
  a cast truncates toward zero, which is modelled.
- `int` arithmetic that wraps, or fields that do not fit in an int when printed with `%d`, are modelled
  in `Duration.dfy`; a value too large for `sscanf` is excluded where the C leaves it undefined.

## Where the code and its comments differ

- `icalproperty.c:314-318` promises lines of fewer than 75 octets; with the space in front of it a line can
  have 75. The text is folded together with its CRLF, so a break can come between these two characters
  (`Fold.BrokenBreak`); unfolding gives the text back all the same.
- `icalcomponent.c:898-899`: the comment says that the loop stops when the rule's time is later than
  the time tested; the test is true when it is earlier. `Recurrence.RuleExcludesExact` says
  what the code excludes.
- `icalcomponent.c:2197` compares the calendar, not the existing VTIMEZONE, with the new one. For a
  calendar without a TZID property the result is always -1, so nothing is ever renamed.
- `caldate.c` is right before year 1 as well, but for January and February of year 0: `juldat` on every
  date, `caldat` on every day from -1402 on and before that on one 29 February in four years. Its day of
  the year tests only divisibility by 4 and ignores the ten days of the reform.
- `netical_wrap.c:373` never advances the place the next cache slot is written to, so slot 0 is the only
  one used; and `netical_wrap.c:198-204` never compares the last node of a chain.
- `netical_wrap.c:354` ends the search at the first entry that is no prefix of the type, so a mapping that
  fits may be missed; `SwigTable.SearchExact` says what is found.
- `icalcomponent.c:1331-1346` compares a name with the table up to the length of the table's name, and "X"
  stands before the other names that start with it: `Kinds.KindRoundTrip`.
- `icalduration.c` reads no plus sign, which section 4.3.6 of RFC 2445 allows, and takes hours, minutes and
  seconds in any order; `Duration.ReadText` says what is read.
- `icaltime.c:1192` promises that adjacent spans do not overlap; `Recurrence.OverlapsExact` covers
  this and the case of spans of no length.

## Model

| member | source | states |
|---|---|---|
| `CalDate.DayNumberCounts` | Support Libs/libical-0.44/src/libical/caldate.c:131-176 | The reference for what follows: the day number, defined from year and month lengths, sends the day after a date (15 October 1582 after 4 October 1582) to the next integer |
| `CalDate.DayNumberInjective` | Support Libs/libical-0.44/src/libical/caldate.c:131-176 | Distinct dates have distinct reference day numbers |
| `CalDate.JulianDayExact` | Support Libs/libical-0.44/src/libical/caldate.c:148-175 | For every real date, in every year: juldat gives the reference day number if and only if the date is not in January or February of year 0 |
| `CalDate.CivilDateExact` | Support Libs/libical-0.44/src/libical/caldate.c:72-94 | For every day number: caldat gives a real date, and the one whose reference day number it is, if and only if the number is -1402 or more or -1402 less a multiple of 1461 (a 29 February) |
| `CalDate.YearSplit` | Support Libs/libical-0.44/src/libical/caldate.c:79-81 | What is left of a day count after whole years from March is 123..488, and 488 only at the end of a fourth year |
| `CalDate.MonthSplit` | Support Libs/libical-0.44/src/libical/caldate.c:81-94 | From what is left, the month count ke is 4..15 and the day at most that month's length; so the ke == 3 case never arises, and the clamp meets only a 29 February |
| `CalDate.EarlyDay` | Support Libs/libical-0.44/src/libical/caldate.c:72-175 | Up to day -1402, where the quotient for the year is rounded the other way: caldat gives the right date if and only if the day is one of those, and juldat gives the day back if and only if it is |
| `CalDate.DateRoundTrip` | Support Libs/libical-0.44/src/libical/caldate.c:72-175 | For every real date: caldat after juldat gives back year, month and day if and only if it is not in January or February of year 0 and its day number is one of those above |
| `CalDate.DayRoundTrip` | Support Libs/libical-0.44/src/libical/caldate.c:72-175 | For every day number: juldat after caldat gives it back if and only if it is one of those above and not one of 1721058..1721117 |
| `CalDate.ConsecutiveDays` | Support Libs/libical-0.44/src/libical/caldate.c:148-175 | juldat sends a date and its successor to consecutive integers, the reform included, if and only if the date is not the last one before or the last one of the two wrong months |
| `CalDate.WeekdayAdvances` | Support Libs/libical-0.44/src/libical/caldate.c:96-100 | For every real date: the weekday is in 0..6 if and only if the day number is -1 or more or the remainder is 0; and it advances by one modulo 7 to the next date if and only if that holds of the next day and the two day numbers are consecutive |
| `CalDate.WeekdayExact` | Support Libs/libical-0.44/src/libical/caldate.c:96-175 | For every real date away from January and February of year 0: after juldat the weekday, 0 for Sunday, is that counted from Friday 15 October 1582 if and only if it is not negative, and that less seven otherwise; in those two months it is that of the next day |
| `CalDate.OrdinalDayExact` | Support Libs/libical-0.44/src/libical/caldate.c:101-111 | The day of the year is right if and only if the date is neither after February of a century year that is not leap nor after the reform in 1582, and by how much it is off there |
| `CalDate.UtInstant.Caldat` | Support Libs/libical-0.44/src/libical/caldate.c:58-112 | The in-place routine leaves in the record the date, weekday and day of year of the functions above and nothing else changed; on every convertible day the weekday is that of the date, counted from Friday 15 October 1582 |
| `CalDate.UtInstant.Juldat` | Support Libs/libical-0.44/src/libical/caldate.c:131-176 | The in-place routine leaves in the record the day number and weekday of the date, for every real date away from January and February of year 0 the one counted from Friday 15 October 1582 |
| `CalDate.ThereAndBack` | Support Libs/libical-0.44/src/libical/caldate.c:58-176 | juldat then caldat on one record, for every real date: the date is unchanged if and only if the round trip holds, and the two routines agree on the weekday |
| `Duration.FromIntExact` | Support Libs/libical-0.44/src/libical/icalduration.c:47-73 | For every int but the least one: as_int of from_int is the number, the sign is its sign, and the fields are in their ranges, weeks alone if and only if the number is a multiple of a week |
| `Duration.AsIntExact` | Support Libs/libical-0.44/src/libical/icalduration.c:265-273 | as_int is the one int congruent modulo 2^32 to the sum of the fields in seconds, with its sign |
| `Duration.AsIntInRange` | Support Libs/libical-0.44/src/libical/icalduration.c:265-273 | as_int is that signed sum whenever it fits in an int |
| `Duration.DurationFromInt` | Support Libs/libical-0.44/src/libical/icalduration.c:47-73 | The in-place computation of from_int gives the duration that FromInt specifies |
| `Duration.AsIcalString` | Support Libs/libical-0.44/src/libical/icalduration.c:209-261 | The appending printer gives exactly the specified text, wrap-around and %d of large fields included |
| `Duration.AppendSegment` | Support Libs/libical-0.44/src/libical/icalduration.c:188-198 | One segment is the number as a signed int and its letter |
| `Duration.AppendTime` | Support Libs/libical-0.44/src/libical/icalduration.c:238-252 | The T and the time segments that are not zero, appended to the text so far |
| `Duration.AppendDate` | Support Libs/libical-0.44/src/libical/icalduration.c:229-252 | The weeks, days and time segments that are not zero, appended to the text so far |
| `Duration.DurationFromString` | Support Libs/libical-0.44/src/libical/icalduration.c:75-184 | The character loop with its flags computes the specified result on every string |
| `Duration.ReadText` | Support Libs/libical-0.44/src/libical/icalduration.c:75-184 | For every sign, all lists of segments before and after a T, each any unit with any digits of a number that fits in an int: the text is read as it is meant (the number of the last segment with a unit is its field) if days alone stand before the T and hours, minutes and seconds after it in any order, or weeks stand alone, a unit being given again only after zeros; else it is a bad duration |
| `Duration.ForeignIsBad` | Support Libs/libical-0.44/src/libical/icalduration.c:171-173 | A character that is no sign, letter of the grammar or digit makes any string a bad duration |
| `Duration.LateP` | Support Libs/libical-0.44/src/libical/icalduration.c:103-107 | So does a P after the second character |
| `Duration.NoP` | Support Libs/libical-0.44/src/libical/icalduration.c:132-170 | So does a number or a unit when there is no P |
| `Duration.PrintedForm` | Support Libs/libical-0.44/src/libical/icalduration.c:209-261 | The printed form is the sign, P, the fields that are not zero in the order W, D, T, H, M, S, with T if and only if there is one after it; PT0S for a total of zero |
| `Duration.SignedExact` | Support Libs/libical-0.44/src/libical/icalduration.c:188-198 | A field is printed as the int it is read as, one of 2^31 or more with a minus sign |
| `Duration.EveryString` | Support Libs/libical-0.44/src/libical/icalduration.c:91-184 | On every string the parser reports a bad duration or returns one where weeks exclude all other fields (for numbers too large for sscanf, whose result C leaves open, taking them as read exactly); and every field fits in an int if all the numbers do |
| `Duration.PrintParse` | Support Libs/libical-0.44/src/libical/icalduration.c:75-261 | Parsing undoes printing if and only if the duration is null, or has a non-zero total, a sign of 0 or 1, weeks alone or no weeks, and fields that fit in an int |
| `Duration.SecondsRoundTrip` | Support Libs/libical-0.44/src/libical/icalduration.c:47-273 | For every int but the least one: parsing the printed form of from_int gives it back, and as_int of that is the number |
| `Duration.ParsePrintParse` | Support Libs/libical-0.44/src/libical/icalduration.c:75-273 | For every string whose numbers fit in an int, parse, print and parse keeps the as_int value, also when the total wraps |
| `Duration.LateMinus` | Support Libs/libical-0.44/src/libical/icalduration.c:94-107 | A minus sign after the first character makes any string a bad duration |
| `Decimal.ScanPrint` | Support Libs/libical-0.44/src/libical/icalduration.c:133-135 | Reading the digits at the start of a text undoes printing them before anything that is not a digit |
| `Decimal.PrintShort` | Support Libs/libical-0.44/src/libical/icalduration.c:188-198 | A number is printed without a zero in front |
| `Decimal.ValueExact` | Support Libs/libical-0.44/src/libical/icalduration.c:133-135 | The number read is the sum of the digits, each times its power of ten |
| `SwigTable.TypeTable.FillStart` | Support Libs/libical-0.44/src/Net-ICal-Libical/netical_wrap.c:312-321 | The bucket index is computed in place: each entry is the least position of a name whose first letter is that letter or a later one |
| `SwigTable.BucketSearch` | Support Libs/libical-0.44/src/Net-ICal-Libical/netical_wrap.c:344-352 | In a sorted table with that index, the first prefix match in the bucket is the first one of the whole table, or neither exists |
| `SwigTable.TypeTable.SortTable` | Support Libs/libical-0.44/src/Net-ICal-Libical/netical_wrap.c:310-325 | Sorting keeps the entries, orders them, refills the index and flushes every cache slot |
| `SwigTable.TypeTable.ScanCache` | Support Libs/libical-0.44/src/Net-ICal-Libical/netical_wrap.c:327-342 | The cyclic scan visits all eight slots once; a hit is what the full search finds, and without a hit no slot matches |
| `SwigTable.TypeTable.SlowSearch` | Support Libs/libical-0.44/src/Net-ICal-Libical/netical_wrap.c:344-381 | The search over bucket and chains finds the first node of the specified search, within the table |
| `SwigTable.TypeTable.FindInBucket` | Support Libs/libical-0.44/src/Net-ICal-Libical/netical_wrap.c:344-352 | The loop over the bucket gives the first prefix match of the whole table, or its length |
| `SwigTable.TypeTable.WalkChain` | Support Libs/libical-0.44/src/Net-ICal-Libical/netical_wrap.c:357-377 | The loop over a chain gives the first node whose name with the rest of the type is the class, or that a name is too long, or nothing |
| `SwigTable.TypeTable.GetPtr` | Support Libs/libical-0.44/src/Net-ICal-Libical/netical_wrap.c:305-394 | With the invariant (every valid slot agrees with the search while the table counts as sorted), each call answers as the search alone would, from the cache or not, and keeps the invariant; there is no error if and only if the search comes to a mapping that fits class and type, and then the pointer is the given one with the cast of that mapping, if any, applied; else the error is the class and the pointer the given one, or none when the search comes to a name of 255 characters or more |
| `SwigTable.SearchExact` | Support Libs/libical-0.44/src/Net-ICal-Libical/netical_wrap.c:344-381 | What is accepted, for any table: a node is the answer if and only if replacing its entry's name at the start of the type by its own gives the class, all entries from the first prefix of the type on to that one are prefixes, and no node before it fits or is too long; and the search ends at a name that is too long if and only if it comes to one |
| `SwigTable.AnswerExact` | Support Libs/libical-0.44/src/Net-ICal-Libical/netical_wrap.c:305-394 | The same of the value, for any table, sorted or not |
| `SwigTable.SubstitutedExact` | Support Libs/libical-0.44/src/Net-ICal-Libical/netical_wrap.c:361-363 | The name that is compared is the equivalent name and the rest of the type, as far as 255 characters go |
| `SwigTable.RegisterAndGet` | Support Libs/libical-0.44/src/Net-ICal-Libical/netical_wrap.c:168-394 | After a mapping has been registered with a cast f, a pointer that is accepted because of its node comes out as f of it; only a name registered as equivalent to itself gets no node |
| `SwigTable.KnownExact` | Support Libs/libical-0.44/src/Net-ICal-Libical/netical_wrap.c:198-204 | A mapping counts as known if and only if the entry has nodes and the name is the entry's or that of a node before the last |
| `SwigTable.MappingHonoured` | Support Libs/libical-0.44/src/Net-ICal-Libical/netical_wrap.c:344-381 | A registered mapping that fits is the answer if and only if the search comes to it |
| `SwigTable.RunInterrupted` | Support Libs/libical-0.44/src/Net-ICal-Libical/netical_wrap.c:353-380 | A mapping that fits and is not honoured: a sorted table where an entry that is no prefix stands before it |
| `SwigTable.TypeTable.RegisterMapping` | Support Libs/libical-0.44/src/Net-ICal-Libical/netical_wrap.c:168-213 | Registering extends the table by the mapping and clears the sort flag, or changes the cast of a node already there; the invariant is kept |
| `SwigTable.TypeTable.RegisterInChain` | Support Libs/libical-0.44/src/Net-ICal-Libical/netical_wrap.c:198-212 | The walk along one chain: a node is added at its end if and only if no node but the last, nor the entry, has the name |
| `SwigTable.AskTwice` | Support Libs/libical-0.44/src/Net-ICal-Libical/netical_wrap.c:305-394 | The same question twice gets the same answer |
| `SwigTable.SortedUnique` | Support Libs/libical-0.44/src/Net-ICal-Libical/netical_wrap.c:151-155 | Two sorted tables with the same entries and distinct names are the same table |
| `SwigTable.AnswerOfMappings` | Support Libs/libical-0.44/src/Net-ICal-Libical/netical_wrap.c:310-381 | The answer depends on which entries there are, not on the order they were registered in |
| `Attach.Ledger.NewAttachment` | Support Libs/libical-0.44/src/libical/icalattach.c:40-63 | A new attachment has one reference, the program's; the invariant: refcount equals the references held, and released exactly at 0 |
| `Attach.Ledger.Ref` | Support Libs/libical-0.44/src/libical/icalattach.c:95-101 | One more reference held by the program, the count with it |
| `Attach.Ledger.Unref` | Support Libs/libical-0.44/src/libical/icalattach.c:104-125 | One fewer; the attachment is released if and only if it was the last |
| `Attach.Ledger.SetAttach` | Support Libs/libical-0.44/src/libical/icalderivedvalue.c:1117-1133 | The value holds the new attachment, which is not released even when it is the one already held; the old one is released if and only if the value was its last holder and it is another one |
| `Attach.Ledger.NewAttachValue` | Support Libs/libical-0.44/src/libical/icalderivedvalue.c:1100-1114 | A new value holds the attachment and no attachment is released |
| `Attach.Ledger.FreeValue` | Support Libs/libical-0.44/src/libical/icalvalue.c:701-703 | Freeing a value releases its attachment if and only if it was the last holder |
| `Attach.Ledger.ValueHolds` | Support Libs/libical-0.44/src/libical/icalattach.c:58-125 | Nor is the attachment a value holds |
| `Attach.Attachment.Ref` | Support Libs/libical-0.44/src/libical/icalattach.c:95-101 | The count goes up by one unless it is not positive |
| `Attach.Attachment.Unref` | Support Libs/libical-0.44/src/libical/icalattach.c:104-125 | The count goes down by one unless it is not positive, and the attachment is released if and only if it was 1 |
| `IcalArray.IcalArray.Append` | Support Libs/libical-0.44/src/libical/icalarray.c:85-94 | The contents are the old ones and the new element, whether or not the buffer had to grow |
| `IcalArray.IcalArray.ElementAt` | Support Libs/libical-0.44/src/libical/icalarray.c:98-105 | The element at a position of the contents |
| `IcalArray.IcalArray.Expand` | Support Libs/libical-0.44/src/libical/icalarray.c:139-167 | Moving to a larger buffer keeps the contents |
| `IcalArray.IcalArray.RemoveElementAt` | Support Libs/libical-0.44/src/libical/icalarray.c:109-126 | The element goes, the others keep their order |
| `IcalArray.IcalArray.Sort` | Support Libs/libical-0.44/src/libical/icalarray.c:130-135 | A permutation in the order of the keys |
| `Strcmp.Sort` | Support Libs/libical-0.44/src/libical/icalarray.c:130-135 | What qsort is taken to do: a permutation in the order of the keys |
| `Tree.CloneExact` | Support Libs/libical-0.44/src/libical/icalcomponent.c:180-215 | For every tree: a tree is its clone if and only if it has the same kind and the very same properties, and its children are such copies of the VTIMEZONEs in reverse and then of the others in order, at every level |
| `Paths.CloneKeepsAll` | Support Libs/libical-0.44/src/libical/icalcomponent.c:180-215 | Every component with its kind and properties, and every property, is as often in the clone as in the tree |
| `Tree.CloneOfOneZone` | Support Libs/libical-0.44/src/libical/icalcomponent.c:180-215 | A tree with at most one VTIMEZONE at each level, in front, is its own clone |
| `Tree.CloneTwice` | Support Libs/libical-0.44/src/libical/icalcomponent.c:180-215 | For every tree: cloning twice gives the tree back if and only if at every level the VTIMEZONEs come first |
| `Tree.CloneIsOrdered` | Support Libs/libical-0.44/src/libical/icalcomponent.c:180-215 | A clone has the VTIMEZONEs first at every level, whatever the tree |
| `Tree.CloneSides` | Support Libs/libical-0.44/src/libical/icalcomponent.c:205-211 | Cloning children with the VTIMEZONEs first reverses the VTIMEZONEs and keeps the order of the others |
| `Tree.CloneTzids` | Support Libs/libical-0.44/src/libical/icalcomponent.c:180-215 | A clone resolves exactly the same TZIDs |
| `Tree.AddKeepsZonesFirst` | Support Libs/libical-0.44/src/libical/icalcomponent.c:541-570 | Adding a child keeps all VTIMEZONEs before all others |
| `Tree.RemoveKeepsZonesFirst` | Support Libs/libical-0.44/src/libical/icalcomponent.c:574-618 | So does removing any child |
| `Tree.StripClean` | Support Libs/libical-0.44/src/libical/icalcomponent.c:1158-1184 | After strip_errors count_errors is 0, and exactly as many properties are gone as there were errors |
| `Tree.StripFixed` | Support Libs/libical-0.44/src/libical/icalcomponent.c:1158-1184 | strip_errors leaves a tree alone if and only if it has no errors |
| `Tree.StripExact` | Support Libs/libical-0.44/src/libical/icalcomponent.c:1158-1184 | A tree is the stripped one if and only if at every level it has the properties that are no errors, in order, and the same children stripped |
| `Tree.ConvertKeepsCounts` | Support Libs/libical-0.44/src/libical/icalcomponent.c:1187-1251 | convert_errors keeps the shape of the tree and the number of properties at every node |
| `Tree.ConvertAccounts` | Support Libs/libical-0.44/src/libical/icalcomponent.c:1187-1251 | Every error that has one of the five mapped types goes, one REQUEST-STATUS comes for each, and the other errors stay counted |
| `Tree.StatusExact` | Support Libs/libical-0.44/src/libical/icalenums.c:60-64 | The status of an error is 3.0 for a property, 3.1 for its value, 3.2 for a parameter, 3.3 for its value and 3.4 for a component, as the table of statuses words them, and no other error has one |
| `Tree.ConvertExact` | Support Libs/libical-0.44/src/libical/icalcomponent.c:1187-1251 | A tree is the converted one if and only if at every level the errors that have a status are gone, one REQUEST-STATUS comes for each behind the other properties, in order, with that status and the error's text, and the children are the same converted |
| `Tree.FirstErrorTypeExact` | Support Libs/libical-0.44/src/libical/icalcomponent.c:1201-1207 | The type of an error is the first X-LIC-ERRORTYPE parameter |
| `Tree.PropsTzidExact` | Support Libs/libical-0.44/src/libical/icalcomponent.c:2464-2480 | The TZID of a component is the text of the first TZID property |
| `Tree.ErrorsAreCounted` | Support Libs/libical-0.44/src/libical/icalcomponent.c:1124-1153 | The number count_errors gives is that of the error properties of the whole tree |
| `Tree.ErrorsKeepTzid` | Support Libs/libical-0.44/src/libical/icalcomponent.c:1158-1251 | Neither routine changes the TZID of a tree |
| `Fold.GetNextLineStart` | Support Libs/libical-0.44/src/libical/icalproperty.c:268-311 | The two loops find the last separator before the limit, else the last place where a character of UTF-8 starts, else the limit; it always takes fewer than 75 characters |
| `Fold.NextLineExact` | Support Libs/libical-0.44/src/libical/icalproperty.c:268-311 | Of 75 bytes or more the next line ends with the last ; : or space up to position 73; if there is none, before the last byte up to position 74 that starts a character of UTF-8; else after 74 bytes |
| `Fold.FoldedPieces` | Support Libs/libical-0.44/src/libical/icalproperty.c:320-366 | A folded text is made of pieces of 1 to 74 bytes, with a line break and a space between them, that make up the text; if the text is UTF-8 so is each piece: no character is broken |
| `Fold.CutUtf8` | Support Libs/libical-0.44/src/libical/icalproperty.c:286-303 | UTF-8 may be cut exactly in front of bytes that are no continuation |
| `Fold.FoldPropertyLine` | Support Libs/libical-0.44/src/libical/icalproperty.c:320-366 | The loop, with a break before every line but the first, gives the specified folded text |
| `Fold.UnfoldFolded` | Support Libs/libical-0.44/src/libical/icalproperty.c:320-366 | Taking out every break undoes the folding, wherever the text was broken and whatever follows that does not begin with a space; the one newline of the text is its last character |
| `Fold.FoldedApart` | Support Libs/libical-0.44/src/libical/icalproperty.c:320-366 | When the folded line of one text starts that of another, the longer one goes on with a space |
| `Fold.FoldInjective` | Support Libs/libical-0.44/src/libical/icalproperty.c:320-366 | Texts of one line are equal if and only if their folded lines are |
| `Fold.NoPrefixCode` | Support Libs/libical-0.44/src/libical/icalproperty.c:268-366 | A whole folded line can start another one: an empty COMMENT and one of 80 letters |
| `Fold.BrokenBreak` | Support Libs/libical-0.44/src/libical/icalproperty.c:293-311 | A folded line need not end with a line break: after 73 letters one comes between the two characters of the last |
| `Kinds.KindToString` | Support Libs/libical-0.44/src/libical/icalcomponent.c:1317-1329 | The loop over the table gives the name of the kind |
| `Kinds.StringToKind` | Support Libs/libical-0.44/src/libical/icalcomponent.c:1331-1346 | The loop stops at the first name that the string starts with, in any case |
| `Kinds.KindRoundTrip` | Support Libs/libical-0.44/src/libical/icalcomponent.c:1274-1346 | The name of a kind stands for that kind if and only if it does not start with an X; such a name is taken for that of an X component, which stands before them in the table |
| `Kinds.AnyCase` | Support Libs/libical-0.44/src/libical/icalcomponent.c:1331-1346 | Capitals or small letters make no difference to what a string stands for |
| `Serialise.TextOfTokens` | Support Libs/libical-0.44/src/libical/icalcomponent.c:301-370 | The text of a component is a BEGIN line, its property lines, the texts of its children and an END line |
| `Serialise.ReadBack` | Support Libs/libical-0.44/src/libical/icalcomponent.c:301-370 | Read with a stack of open components, the lines of a component give the component: every END closes what its BEGIN opened, the properties come before the children, all in order |
| `Serialise.AsStringInjective` | Support Libs/libical-0.44/src/libical/icalcomponent.c:301-370 | Two trees have the same text if and only if they are the same, when no property line is comparable with BEGIN: or END:, and where one line starts another one nothing can begin with what is left |
| `Serialise.Unique` | Support Libs/libical-0.44/src/libical/icalcomponent.c:301-370 | Under the same assumption the text of a tree, followed by anything, can be read in one way only |
| `Serialise.CompareExact` | Support Libs/libical-0.44/src/libical/icalcomponent.c:2490-2515 | Under the same assumption the comparison of two zones that have a TZID gives 1 if and only if they are equal but for the TZID, and 0 if and only if not |
| `Serialise.CompareMissing` | Support Libs/libical-0.44/src/libical/icalcomponent.c:2464-2480 | The comparison gives -1 if and only if one of the two has no TZID |
| `Serialise.EqualButTzidExact` | Support Libs/libical-0.44/src/libical/icalcomponent.c:2490-2515 | Equal but for the TZID means: the same kind and children, and the same properties but for the value of the first TZID |
| `Serialise.PropsWithTzidExact` | Support Libs/libical-0.44/src/libical/icalcomponent.c:2490-2515 | Setting the TZID changes the value of the first TZID property and nothing else |
| `Serialise.FoldedFaithful` | Support Libs/libical-0.44/src/libical/icalproperty.c:320-366 | Lines as they are folded meet that assumption if and only if the texts are distinct, for texts of one line that begin with no space, BEGIN: or END: |
| `Serialise.CompareFolded` | Support Libs/libical-0.44/src/libical/icalcomponent.c:2490-2515 | So the comparison of two zones with such texts is exact for the lines that are really printed |
| `Component.Component.constructor` | Support Libs/libical-0.44/src/libical/icalcomponent.c:116-143 | An empty component satisfies the invariant: lists of distinct objects linked to it, cursors null or at an element, the array of timezones in step with the children |
| `Component.Component.AddProperty` | Support Libs/libical-0.44/src/libical/icalcomponent.c:415-425 | The property goes to the end of the list; invariant and cursors kept |
| `Component.Component.RemoveProperty` | Support Libs/libical-0.44/src/libical/icalcomponent.c:429-454 | The property goes, with its parent link, and nothing else; a cursor at it moves to the next element, any other stays at its element; a property that is not there changes nothing |
| `Component.Component.AttachProperty` | Support Libs/libical-0.44/src/libical/icalcomponent.c:415-425 | Adding a property that is no part of a tree makes a tree of it and the property |
| `Component.Component.TakeProperty` | Support Libs/libical-0.44/src/libical/icalcomponent.c:429-454 | Removing a property from a tree leaves a tree without it |
| `Component.CursorKeepsElement` | Support Libs/libical-0.44/src/libical/pvl.c:373-433 | After a removal every cursor is at the same element as before, or, if that is gone, at the one that came after it |
| `Component.Component.CountProperties` | Support Libs/libical-0.44/src/libical/icalcomponent.c:458-478 | The count is the length of the matching subsequence |
| `Component.Component.VisitProperties` | Support Libs/libical-0.44/src/libical/icalcomponent.c:493-533 | The first/next loop visits the matching subsequence, each once and in order, and ends with the cursor null |
| `Component.Component.GetFirstProperty` | Support Libs/libical-0.44/src/libical/icalcomponent.c:493-509 | The cursor goes to the first match, or to null |
| `Component.Component.GetNextProperty` | Support Libs/libical-0.44/src/libical/icalcomponent.c:512-533 | The cursor goes to the next match after it, or to null, and stays null once there |
| `Component.Component.AddComponent` | Support Libs/libical-0.44/src/libical/icalcomponent.c:541-570 | A VTIMEZONE goes in front and gets its entry in the array, anything else goes to the end; invariant kept and the cursor at the element it was at |
| `Component.Component.LookUpTzid` | Support Libs/libical-0.44/src/libical/icaltimezone.c:297-435 | The TZID of an entry is that of the first TZID property of the VTIMEZONE, if any; the invariant of the VTIMEZONE is kept, and the cursors over the properties of its STANDARD and DAYLIGHT children are at the end if there is a TZID |
| `Component.Component.Adopt` | Support Libs/libical-0.44/src/libical/icalcomponent.c:541-570 | Adding a tree to a tree it shares nothing with makes a tree of the objects of both |
| `Component.Component.Detach` | Support Libs/libical-0.44/src/libical/icalcomponent.c:574-618 | Removing a child leaves two trees that share nothing, the child's value unchanged |
| `Component.Component.EditAt` | Support Libs/libical-0.44/src/libical/icalcomponent.c:415-1251 | Adding or removing a property or a component, stripping or converting errors, a lookup or a move of a cursor, called on the component at the end of any path in a tree: exactly that node has changed as specified; the whole is a tree again, with the index of every component above in step, if and only if the node is the root or no VTIMEZONE or keeps its TZID; and what is taken out is what the edit names, has no parent and shares nothing with the tree |
| `Component.Component.ChildChangedIndex` | Support Libs/libical-0.44/src/libical/icalcomponent.c:558-618 | After any change of a child that keeps its kind, the array of its parent is in step if and only if the child is no VTIMEZONE or keeps its TZID |
| `Component.ZonesUpdated` | Support Libs/libical-0.44/src/libical/icalcomponent.c:558-618 | The same of the lists: the entries that belong in the array are the same as a multiset if and only if the TZID stays |
| `Component.StaleLookups` | Support Libs/libical-0.44/src/libical/icalcomponent.c:2395-2430 | An array that was in step finds exactly the TZIDs there are after a change of a child if and only if these are the same before and after |
| `Component.Component.LookUpAfterEdit` | Support Libs/libical-0.44/src/libical/icalcomponent.c:415-2430 | After any edit below a component, a lookup finds exactly the TZIDs its children had before it |
| `Component.Component.MoveComponent` | Support Libs/libical-0.44/src/libical/icalcomponent.c:541-618 | Taking a component out anywhere in a tree and adding it anywhere else gives a tree with the moved value, index and all |
| `Component.Component.MoveProperty` | Support Libs/libical-0.44/src/libical/icalcomponent.c:415-490 | The same of a property, and the whole is a tree again if and only if it does not become the first TZID of a VTIMEZONE that is somebody's child |
| `Paths.ChildMoveKeeps` | Support Libs/libical-0.44/src/libical/icalcomponent.c:541-618 | A move of a component keeps every component and every property of the tree, as multisets |
| `Paths.PropertyMoveKeeps` | Support Libs/libical-0.44/src/libical/icalcomponent.c:415-490 | A move of a property keeps every property of the tree |
| `Component.WithinKeepsTzid` | Support Libs/libical-0.44/src/libical/icalcomponent.c:1158-1251 | All of these but the first four keep it by themselves |
| `Paths.ReplacedAt` | Support Libs/libical-0.44/src/libical/icalcomponent.c:415-618 | What a path leads to after a replacement is the new tree, and putting the old one there changes nothing |
| `Paths.ReplacedElsewhere` | Support Libs/libical-0.44/src/libical/icalcomponent.c:415-618 | What a path leads to that is no part of the path replaced, nor the other way round, is as it was |
| `Paths.EditKeepsTzids` | Support Libs/libical-0.44/src/libical/icalcomponent.c:2395-2430 | An edit below a component changes none of the TZIDs that can be looked up in it if it keeps that of a child, or is further down |
| `Component.LateTzid` | Support Libs/libical-0.44/src/libical/icalcomponent.c:558-568 | The commonest case: a TZID given to a VTIMEZONE after it was added gets no entry in the array |
| `Component.Component.RemoveComponent` | Support Libs/libical-0.44/src/libical/icalcomponent.c:574-618 | The child and its entry in the array go and nothing else; a cursor at it moves to the next one; a component that is not a child changes nothing |
| `Component.Component.GetFirstComponent` | Support Libs/libical-0.44/src/libical/icalcomponent.c:656-674 | The cursor goes to the first match, or to null |
| `Component.Component.GetNextComponent` | Support Libs/libical-0.44/src/libical/icalcomponent.c:678-698 | The cursor goes to the next match after it, or to null, and stays null once there |
| `Component.Component.CountComponents` | Support Libs/libical-0.44/src/libical/icalcomponent.c:622-640 | The count is the length of the matching subsequence |
| `Component.Component.VisitComponents` | Support Libs/libical-0.44/src/libical/icalcomponent.c:656-698 | The first/next loop visits the matching children, each once and in order, and ends with the cursor null |
| `Component.MatchingAndOthers` | Support Libs/libical-0.44/src/libical/icalcomponent.c:622-640 | The matching children and the others are all the children, each once |
| `Component.Component.RemoveComponents` | Support Libs/libical-0.44/examples/access_components.c:302-317 | Fetching the next match before removing the current one removes all matches and only them |
| `Component.Component.GetTimezone` | Support Libs/libical-0.44/src/libical/icalcomponent.c:2395-2430 | A zone is found if and only if some VTIMEZONE child has the TZID, and it is one of these; the invariant is kept while the array is sorted behind the caller's back |
| `Component.Component.GetEntry` | Support Libs/libical-0.44/src/libical/icalcomponent.c:2395-2430 | The same of any array, in step with the children or not: an entry is found if and only if there is one with the TZID, and the entries stay the same |
| `Component.Component.SortTimezones` | Support Libs/libical-0.44/src/libical/icalcomponent.c:2404-2408 | Sorting rearranges the array, and the flag then tells the truth |
| `Component.Component.SearchTimezones` | Support Libs/libical-0.44/src/libical/icalcomponent.c:2410-2429 | The binary search ends, with a match or with none in the whole array |
| `Component.TzidIndexed` | Support Libs/libical-0.44/src/libical/icalcomponent.c:541-618 | An array in step with the children has an entry for a TZID if and only if some VTIMEZONE child has it |
| `Component.ZoneDropped` | Support Libs/libical-0.44/src/libical/icalcomponent.c:587-600 | Dropping the first entry of a child keeps the array in step with the list without that child |
| `Component.Component.NewClone` | Support Libs/libical-0.44/src/libical/icalcomponent.c:180-215 | The copy shares no object with the tree, has no parent and is its clone in the sense above; the tree is untouched |
| `Component.Component.AsIcalString` | Support Libs/libical-0.44/src/libical/icalcomponent.c:301-370 | The appending routine gives the specified text of the tree |
| `Component.Component.CountAllErrors` | Support Libs/libical-0.44/src/libical/icalcomponent.c:1124-1153 | The recursive count is that of the value |
| `Component.Component.StripErrors` | Support Libs/libical-0.44/src/libical/icalcomponent.c:1158-1184 | The loop that saves the next element before removing turns the tree into its stripped value, at every level |
| `Component.Component.ConvertErrors` | Support Libs/libical-0.44/src/libical/icalcomponent.c:1187-1251 | The loop that adds to and removes from the list it walks turns the tree into its converted value, at every level |
| `Merge.CompareVtimezones` | Support Libs/libical-0.44/src/libical/icalcomponent.c:2456-2516 | The result is the specified comparison, and afterwards both trees are what they were |
| `Merge.CompareUnderTzid` | Support Libs/libical-0.44/src/libical/icalcomponent.c:2484-2515 | Setting the TZID for the time of the comparison and setting it back leaves the second tree as it was, and the first alone |
| `Merge.MergeVtimezone` | Support Libs/libical-0.44/src/libical/icalcomponent.c:2152-2205 | The VTIMEZONE moves over if and only if it has a TZID the calendar does not know; otherwise both calendars are unchanged |
| `Merge.ZoneIsNew` | Support Libs/libical-0.44/src/libical/icalcomponent.c:2161-2204 | The decision: new if and only if it has a TZID the calendar does not know; both trees are left as they were |
| `Merge.MergeZones` | Support Libs/libical-0.44/src/libical/icalcomponent.c:2111-2120 | The first loop takes over the zones one after the other and leaves the rest in the second calendar, its cursor surviving the removals |
| `Merge.MoveOthers` | Support Libs/libical-0.44/src/libical/icalcomponent.c:2134-2144 | The second loop moves all but the VTIMEZONEs, in order |
| `Merge.AbsorbAllExact` | Support Libs/libical-0.44/src/libical/icalcomponent.c:2111-2120 | Over any list of zones: a known TZID keeps its VTIMEZONEs, any other one gets the first that is offered |
| `Merge.MergeComponent` | Support Libs/libical-0.44/src/libical/icalcomponent.c:2094-2148 | The calendar has the specified merged value, and the very objects that are not VTIMEZONEs of the first, then of the second, in order, each once |
| `Merge.MergedExact` | Support Libs/libical-0.44/src/libical/icalcomponent.c:2094-2205 | Of the merged value: the other children of both in order; a TZID resolves if and only if it did in either; the VTIMEZONEs with a TZID are those of the first calendar if it knew it, else the first one of the second |
| `Merge.MergedInOrder` | Support Libs/libical-0.44/src/libical/icalcomponent.c:2094-2205 | The children of the merged value are the second calendar's VTIMEZONEs that are the first with a TZID new to the first one, in reverse, then the first one's children, then the second one's others |
| `Merge.MergedCounts` | Support Libs/libical-0.44/src/libical/icalcomponent.c:2094-2205 | A known TZID has as many VTIMEZONEs as before, a new one exactly one |
| `Merge.MeaningKept` | Support Libs/libical-0.44/src/libical/icalcomponent.c:2094-2205 | A TZID used by a moved component leads to a VTIMEZONE that the second calendar had under it if and only if the first did not know it or knew only such ones by it |
| `Merge.MergeAgain` | Support Libs/libical-0.44/src/libical/icalcomponent.c:2094-2205 | Offering the same zones to the merged calendar changes nothing |
| `Merge.MergeAndLookUp` | Support Libs/libical-0.44/src/libical/icalcomponent.c:2094-2430 | After the merge a lookup succeeds if and only if the TZID was known to one of the two, and gives one of the first calendar's VTIMEZONEs if it knew it, else the first one of the second |
| `Recurrence.ForeachRecurrence` | Support Libs/libical-0.44/src/libical/icalcomponent.c:983-1109 | In terms of DTSTART, DTEND and the limits: the callback gets a span if and only if it is that of an occurrence at the time of no EXDATE or EXRULE, starts as much after DTSTART as its clock reading does, has the length of the event and, unless it is an RDATE's, meets the time from start to end (or to the last second of 32 bits); and in the order DTSTART, each RRULE's, then the RDATEs, whatever moves the cursor |
| `Recurrence.HandedOverExact` | Support Libs/libical-0.44/src/libical/icalcomponent.c:1003-1109 | The same of the list of calls; the length is DTEND less DTSTART, or 0 without a DTEND, and 86399 more for DATEs |
| `Recurrence.LengthInDays` | Support Libs/libical-0.44/src/libical/icaltime.c:1149-1179 | For DATEs the length is a second less than the days from DTSTART's to DTEND's, both counted |
| `Recurrence.LimitedAt` | Support Libs/libical-0.44/src/libical/icalcomponent.c:1046-1075 | Each later time of a rule counts once, in order |
| `Recurrence.VisitRule` | Support Libs/libical-0.44/src/libical/icalcomponent.c:1043-1083 | The times of one RRULE but the first, each tested and handed over, the cursor where it was after each |
| `Recurrence.VisitDate` | Support Libs/libical-0.44/src/libical/icalcomponent.c:1086-1108 | The time of one RDATE unless it is null, without a test for overlap |
| `Recurrence.OccurrencesExact` | Support Libs/libical-0.44/src/libical/icalcomponent.c:1026-1108 | An occurrence is DTSTART, a time of an RRULE after its first, or the time of an RDATE, and nothing else |
| `Recurrence.CallsExact` | Support Libs/libical-0.44/src/libical/icalcomponent.c:1026-1108 | A span is handed over if and only if it is that of a wanted occurrence |
| `Recurrence.NoExRuleExact` | Support Libs/libical-0.44/src/libical/icalcomponent.c:1026-1108 | Without an EXRULE a span is handed over if and only if it belongs to DTSTART, a later time of an RRULE or an RDATE, at the time of no EXDATE, and, but for RDATEs, overlaps the limits |
| `Recurrence.CallsShifted` | Support Libs/libical-0.44/src/libical/icalcomponent.c:1064-1067 | Every span has the length of the base span and is shifted by the difference of the clock times |
| `Recurrence.AllTimesSplit` | Support Libs/libical-0.44/src/libical/icalcomponent.c:1043-1108 | Each property of the list contributes its own times exactly once and in its place |
| `Recurrence.NothingLost` | Support Libs/libical-0.44/src/libical/icalcomponent.c:1026-1108 | When nothing is excluded and all overlap, there is one call for each occurrence, in order |
| `Recurrence.IsExcluded` | Support Libs/libical-0.44/src/libical/icalcomponent.c:847-908 | Excluded if and only if a time is null, an EXDATE has it, or an EXRULE excludes it; the cursor is where it was |
| `Recurrence.CompareEqual` | Support Libs/libical-0.44/src/libical/icaltime.c:841-890 | Two times are equal if and only if both are DATEs of one day or both are DATE-TIMEs of one instant |
| `Recurrence.CompareOrder` | Support Libs/libical-0.44/src/libical/icaltime.c:841-890 | Up to that the comparison is a total order |
| `Recurrence.DateKeepsTimes` | Support Libs/libical-0.44/src/libical/icalcomponent.c:863-875 | EXDATEs that are DATEs exclude no DATE-TIME, not even midnight |
| `Recurrence.MatchDates` | Support Libs/libical-0.44/src/libical/icalcomponent.c:863-875 | The EXDATE loop on the shared cursor: matched if and only if some EXDATE has the time |
| `Recurrence.MatchRules` | Support Libs/libical-0.44/src/libical/icalcomponent.c:877-904 | The EXRULE loop on the shared cursor: matched if and only if some EXRULE excludes the time |
| `Recurrence.RuleExcludesExact` | Support Libs/libical-0.44/src/libical/icalcomponent.c:885-901 | An EXRULE excludes a time if and only if one of its times is equal and all before that one are later |
| `Recurrence.IncreasingRule` | Support Libs/libical-0.44/src/libical/icalcomponent.c:885-901 | For increasing times only the first is ever excluded; so the rule does what it should if and only if the time is not one of its later ones |
| `Recurrence.SecondDayIsKept` | Support Libs/libical-0.44/src/libical/icalcomponent.c:898-899 | A concrete rule and time where the early break lets an occurrence through |
| `Recurrence.OverlapsExact` | Support Libs/libical-0.44/src/libical/icaltime.c:1196-1222 | Two spans overlap if and only if they share an inner instant, one is a point inside the other, or they are the same |
| `TzidConflict.ChooseTzid` | Support Libs/libical-0.44/src/libical/icalcomponent.c:2208-2297 | The choice is right: the TZID of a VTIMEZONE with the same prefix that compares as equal, if there is one; else the prefix with a number, unknown to the calendar, above all numbers with the prefix and by one above the largest |
| `TzidConflict.FindSameZone` | Support Libs/libical-0.44/src/libical/icalcomponent.c:2239-2276 | The loop over the entries stops at the first one that compares as equal, with the largest number seen before it |
| `TzidConflict.HasPrefix` | Support Libs/libical-0.44/src/libical/icalcomponent.c:2245-2250 | Comparing lengths and characters decides whether the prefixes are equal |
| `TzidConflict.OutcomeRight` | Support Libs/libical-0.44/src/libical/icalcomponent.c:2239-2297 | From the entries of the array to all children: the choice the loop leads to is right |
| `TzidConflict.ChoiceExact` | Support Libs/libical-0.44/src/libical/icalcomponent.c:2241-2262 | A new TZID is chosen if and only if no VTIMEZONE with the prefix is equal but for its TZID |
| `TzidConflict.SuffixedIsNew` | Support Libs/libical-0.44/src/libical/icalcomponent.c:2284-2294 | A prefix followed by a number above those of all known TZIDs with the prefix is not known |
| `TzidConflict.Suffixed` | Support Libs/libical-0.44/src/libical/icalcomponent.c:2284-2314 | Stripping the digits and reading them undoes putting a number after a prefix |
| `TzidConflict.NumberAtEnd` | Support Libs/libical-0.44/src/libical/icalcomponent.c:2264-2272 | Any digits behind a prefix that does not end in one, leading zeros too, are read as their number |
| `TzidConflict.GetTzidPrefixLen` | Support Libs/libical-0.44/src/libical/icalcomponent.c:2301-2314 | The loop from the end finds the length without trailing digits |
| `TzidConflict.PrefixLengthUnique` | Support Libs/libical-0.44/src/libical/icalcomponent.c:2301-2314 | It is the only length after which there are digits only, and before which there is none |

## Left out

- CalDate: time of day and the rounding of doubles.
- Duration.FromInt: the least int, whose negation overflows in C.
- Duration.ParsePrintParse: numbers that do not fit in an int, which `sscanf` leaves undefined.
- Component.Component.AddComponent: a component that is a child of this one already, which the C code lists a second time; and what becomes of another parent the component had, which keeps it in its list.
- Component.Component.EditAt: an edit in a tree whose index is out of step already. `EditAt` says exactly when an edit brings a tree there, and `LookUpAfterEdit` what lookups then find.
- Freeing (`icalcomponent_free`), allocation failure and `errno`.
- Component.Component.LookUpTzid: the other properties icaltimezone.c looks up for an entry; only the TZID is kept, and the VTIMEZONE's own cursors end up anywhere.
- Component.Component.ConvertErrors: an error without a type parameter, on which the C code would dereference null, is excluded; the ghost `depth` bounds the height of the tree.
- Component.Component.AsIcalString: the printing of a single property up to its folding (name, parameters, value) is a parameter.
- X components: the clone loses the name and the END line uses the kind's name.
- The array of timezones is a sequence here; that the growable array behaves like one is proved in IcalArray.dfy. The nodes of a pvl list and their counts are not modelled one by one.
- Merge.MergeComponent: the calendar merged into has no TZID property of its own; with one, icalcomponent.c:2261-2262 and 2342-2344 store and read string bytes where pointers are meant. What is left of the second calendar is not freed.
- TzidConflict.ChooseTzid: the table of TZIDs to be renamed, and numbers at the end of a TZID that do not leave room for a larger int.
- Recurrence.ForeachRecurrence: DTSTART, DTEND, the busy status and the limits are given; callbacks do not change the property list; rules have finitely many times; icalrecur.c and time zones are behind the functions of a Reading.
- SwigTable.TypeTable.GetPtr: the unpacking of Perl values, the growth of the table by `realloc`, names of 255 characters and more in the cache buffers, and the read past the last entry at netical_wrap.c:354, which is bounded by the table here.
- SWIG_MakePtr and everything after line 394 of netical_wrap.c.
- Attach.Ledger.SetAttach: the free function of attachments made from data.
- `icalcomponent_set_due` with a DURATION, the getters and setters of single properties, the lookup tables and the parser of whole components.
