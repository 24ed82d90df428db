# Models of the Bubba network manager and of the scripts it ships

The repository holds a network manager for a small home server, written in C++, and the
browser libraries of its web interface. This project models the parts of both that are hard to
get right by reading one function, and proves what they promise, for all inputs and all runs.
Where a promise does not hold as it is usually put, the exact condition is proved, and an input
that breaks it is given.

The parts, from the browser side to the server side:

- **Selectors.** `Forest` (documents and plain walks), `Combinators` (what a chain of parts and
  combinators means, and the greedy search from right to left), `CombinatorLimits` (when that
  search loses matches), `Sizzle` (the engine as it runs: an array rewritten in place, walks
  that leave marks on the nodes and reuse each other's answers).
- **Dates.** `Calendar` (day numbers and civil dates), `IsoWeek`, `Decimal` (numerals),
  `DateFormat` (formats as tokens, printing and parsing by token), `DateRoundTrip`, `DatePicker`
  (printer and parser as they run, with their two cursors).
- **Slider.** Trimming to steps and the two handles of a range.
- **Small protocols.** `FxQueue` (the effects queue and its sentinel), `AjaxRequests` (the life
  of requests and the global counter), `DataCache` (numbers on elements, data in one cache),
  `EventNamespaces` (the pattern made from namespaces).
- **LAN configuration.** `Interfaces` (the shared store, profiles, the interface objects),
  `LanCommands` (static, dynamic and raw commands as steps, and runs of them), `LanMove` (moving
  the LAN role), `LanController` (the methods that do all this on shared, mutable state),
  `Strings` (order, sorting and dropping duplicates, lines).
- **Wireless.** `SimpleCfg` (a file of keys and values: its lines, the map read from them, and what
  becomes of a value when its line is read again), `WlanAuth` (authentication settings, written and
  read back), `WlanUpdates` (whole updates, and runs of them with restarts), `WlanRestart` (what an
  update leaves in the file and what a restart makes of it), `WlanCfg` (the methods with their
  numbered loops, over the file), `HtCapabilities`.
- **Hosts file.** `Hosts`.

Most parts come in two forms that are proved equal: a function or step that says what happens,
about which the properties are proved, and a class whose methods change fields and arrays as the
source does.

Where the code and what is said about it differ, the code is followed:

- The greedy search loses matches for more chains than those with a child or adjacent step left
  of a descendant step: also for a general sibling step left of a descendant step, and for an
  adjacent step left of a general sibling step. It loses none where a child step is left of an
  adjacent or sibling step (`CombinatorLimits.CompleteExactlyWhenOrderly`).
- Handles of a slider never cross, also when the range is no whole number of steps and handles are
  shown past the maximum (`Slider.HandlesNeverCross`).
- A request whose send fails completes a second time when a terminal event reaches it
  (`AjaxRequests.CountedExactlyWhenFailsAlone`).
- The pattern of namespaces counts: a namespace asked for twice must be there twice
  (`EventNamespaces.PatternMeansContained`).
- Keeping to four keys at a time is not enough for the numbered WEP keys to stay contiguous: an
  empty one, or one with `=` in it, which is lost as soon as another is removed, can leave a gap
  (`WlanAuth.StaysContiguousExactly`, `WlanAuth.EqualsStopsTheLoop`).
- A WEP default key and a WPA mode are never both stored while the program runs, but a value with a
  newline in it can bring both into the file, for the next start to read
  (`WlanUpdates.SsidBringsBothModes`, `WlanUpdates.BothModesExactlyWhenAmong`).
- An empty ssid or interface is not written, so the old one is back after a restart
  (`WlanRestart.UpdateThenRestart`); and WPA keys beyond the first come back with an empty one behind
  them, or not at all (`WlanRestart.WpaKeysReturnExactly`).
- Two-digit years before 1900 are printed with a minus sign (`DateRoundTrip.ShortYearIsShortExactly`).
- A refused update of the access point can leave its values in memory
  (`WlanUpdates.RefusedLeavesMemoryExactly`).
- A capability comes back that was not listed if a name holds its block, and none does if a name
  holds `=` (`HtCapabilities.WriteThenRead`).
- A move of the LAN role forgets the `auto` flag of the port, leaves a list of one null in
  place of an empty address list, and a move that is refused is not undone (`LanMove.RestoredExactlyWhenPlain`,
  `LanMove.RolePassesExactlyWhenKnown`).
- A command on a bridge reports an error after it has been carried out if the default LAN
  interface is unknown (`LanCommands.FailsCleanlyExactlyWhenUsable`).

## Model

| member | source | states |
|---|---|---|
| Combinators.SearchIsSound | contrib/jquery/jquery-1.4.2.js:2713-2756 | For every document, context and chain of parts: a candidate that survives the right-to-left loop has a real element for each part, each related by its combinator, up to the context |
| Combinators.SearchIsExactOnOrderlyChains | contrib/jquery/jquery-1.4.2.js:2713-2756 | On a chain in which no clashing pair of combinators stands side by side, a candidate survives if and only if the chain selects it (the declarative meaning of sections 8.1 to 8.3 of Selectors Level 3) |
| CombinatorLimits.CompleteExactlyWhenOrderly | contrib/jquery/jquery-1.4.2.js:2713-2756 | For every list of combinators: the loop finds every match in every document, context and choice of parts if and only if the list has no clash (a descendant step right of a step that is none, or a general sibling step right of an adjacent one); for each clash a document is built on which a match is lost |
| Combinators.NearestLeads | contrib/jquery/jquery-1.4.2.js:2930-3001 | Stepping to the nearest match keeps the search at the element of any given chain, or below it, or after it, according to the combinator |
| Forest.FirstMatchIsNearest | contrib/jquery/jquery-1.4.2.js:3573-3640 | The plain walk in a direction finds a match whenever one lies beyond, and no match lies between it and the start |
| Sizzle.Engine.Walk | contrib/jquery/jquery-1.4.2.js:3604-3640 | One walk with node marks: the answer is that of the plain walk to the first match, even when it is taken from an earlier entry; without XML each step that goes on marks an element not marked in this pass, so the number of elements examined is the number of new marks |
| Sizzle.Engine.WalkEntry | contrib/jquery/jquery-1.4.2.js:3604-3640 | One entry of the array, walked in place: it becomes its own answer, no other entry changes, the marks stay right |
| Sizzle.Engine.WalkAll | contrib/jquery/jquery-1.4.2.js:3573-3640 | The whole memoised pass gives every entry the answer of its own plain walk from the entry as it was, for any forest and any array, and examines at most as many elements as the document has |
| Sizzle.Engine.ChildAll | contrib/jquery/jquery-1.4.2.js:2953-2980 | `>` sets each entry to its parent if the part selects it, to false if not, or to whether the parent is the context |
| Sizzle.Engine.PreviousElement | contrib/jquery/jquery-1.4.2.js:2941-2941 | The inner loop finds the previous sibling that is an element, or nothing |
| Sizzle.Engine.AdjacentAll | contrib/jquery/jquery-1.4.2.js:2930-2952 | `+` sets each entry to the element before it if the part selects that, to false if not, or to whether it is the context |
| Sizzle.Engine.Relative | contrib/jquery/jquery-1.4.2.js:2929-3001 | Each of the four relations advances every entry of the array as the search over single nodes does |
| Sizzle.Engine.Select | contrib/jquery/jquery-1.4.2.js:2707-2756 | For every chain the main loop, all passes sharing the marks on the nodes, returns exactly the candidates that the chain selects, in their order, if the chain is orderly, and only such candidates if it is not; the candidates of a selector of one part are returned as they are, and where they lie inside the context, as `find` delivers them, they are those that it selects |
| Sizzle.SurvivorsAreTheMatches | contrib/jquery/jquery-1.4.2.js:2707-2756 | For every chain, that of one part included, the candidates accepted by the search over single nodes are, if it is orderly, those the chain selects, in their order, and otherwise only such |
| Calendar.DayNumberRoundTrip | contrib/jquery/jquery-ui-1.8.12.js:8814-8816 | Day numbers of the proleptic Gregorian calendar, with the normalisation of section 15.9.1.12 of ECMA-262 5th edition: every day number is that of the civil date computed from it |
| Calendar.CivilRoundTrip | contrib/jquery/jquery-ui-1.8.12.js:8237-8239 | Every valid civil date is the date of its day number |
| Calendar.CountsFromTheEpoch | contrib/jquery/jquery-ui-1.8.12.js:8237-8239 | The count is that of the real calendar: 1 January 1970 is day 0 and a Thursday, and the day after a date has the next number |
| Calendar.WeekDayIsDayOfWeek | contrib/jquery/jquery-ui-1.8.12.js:8096-8104 | Counting days modulo seven gives, for every date, the weekday of the perpetual calendar, which is computed from year, month and day alone |
| Calendar.DaysInMonthIsMonthLength | contrib/jquery/jquery-ui-1.8.12.js:8814-8816 | 32 minus the day that day 32 normalises to is the real length of the month, for every month of every year but February of the year 0, and not for that one |
| IsoWeek.Iso8601Week | contrib/jquery/jquery-ui-1.8.12.js:8096-8104 | For every date the number lies in 1 to 53 and is that of the date's week in the civil calendar: at most three days away lies a Thursday, by the perpetual calendar, and the number counts the Thursdays of its year up to it; that is the week by section 2.2.10 of ISO 8601:2004, counted from the one that holds the first Thursday |
| IsoWeek.WeeksAreThoseOfThursdays | contrib/jquery/jquery-ui-1.8.12.js:8096-8104 | For every date, year and number: the week counted over day numbers is the week counted over civil dates and their Thursdays |
| IsoWeek.FirstWeekOf2011 | contrib/jquery/jquery-ui-1.8.12.js:8096-8104 | Monday 3 January 2011 lies in the first week of 2011 |
| IsoWeek.FirstThursdayIsFirst | contrib/jquery/jquery-ui-1.8.12.js:8098-8099 | The day the definition starts from is a Thursday among the first seven days of the year |
| IsoWeek.WeekIsUnique | contrib/jquery/jquery-ui-1.8.12.js:8096-8104 | Every date lies in one week of one year only, so the definition determines the number |
| IsoWeek.WeekBounds | contrib/jquery/jquery-ui-1.8.12.js:8096-8104 | Weeks are numbered 1 to 53, and 53 only in a year with 53 Thursdays |
| IsoWeek.WeekRunsFromMonday | contrib/jquery/jquery-ui-1.8.12.js:8096-8104 | A date has the same week of the same year as another if and only if they have the same Monday, also across year ends |
| DateRoundTrip.ParseOfWrite | contrib/jquery/jquery-ui-1.8.12.js:8118-8241 | Parsing what was printed gives the date back, for every date of the years 100 to 9999, every set of names none of which begins another, and every format that names the whole date and prints no number short right before a digit; fields may repeat |
| DateRoundTrip.ParseInTakenYear | contrib/jquery/jquery-ui-1.8.12.js:8118-8241 | Parsing what was printed when the format leaves the year out, gives two digits of it or all: the day comes back in the year of the clock, in the one year of the window that ends in the two digits, or in its own year; called by month and day, or by its ordinal; and as an error if that year has no such day |
| DateRoundTrip.ShortYearIsInWindow | contrib/jquery/jquery-ui-1.8.12.js:8221-8225 | Two digits give, for every cutoff, the one year congruent to them modulo 100 that lies above `century + cutoff - 100` and at most at `century + cutoff`, the cutoff counting as -1 if it is smaller and as 99 if it is greater |
| DateRoundTrip.ShortYearRoundTrip | contrib/jquery/jquery-ui-1.8.12.js:8118-8241 | With a two-digit year the date comes back if and only if its year lies in that window |
| DateRoundTrip.ShortYearIsShortExactly | contrib/jquery/jquery-ui-1.8.12.js:8340-8342 | The short year is printed as two digits, those of the year, if and only if the year is from 1900 or ends a century; otherwise it is printed with a minus sign |
| DateRoundTrip.ChecksExactly | contrib/jquery/jquery-ui-1.8.12.js:8237-8241 | From the year 100 the fields make the date that they name, or an error if and only if there is no such date |
| DateRoundTrip.TextShows | contrib/jquery/jquery-ui-1.8.12.js:8320-8343 | What each letter prints: the name of the weekday by the perpetual calendar, short or long, that of the month, and for numbers a numeral that reads as day, month, year or place in the year, two or three digits wide if doubled |
| DateRoundTrip.ReadsExactlyWhatFits | contrib/jquery/jquery-ui-1.8.12.js:8143-8171 | Of any text a token takes the first characters if and only if they fit it: the literal character, one to two, three or four digits and as many as there are, or the first name of the list that is there in whatever case; an error names the place where the token began |
| DateRoundTrip.NamesIgnoreCase | contrib/jquery/jquery-ui-1.8.12.js:8156-8165 | A name that begins no other is found whatever the case of its ASCII letters |
| DateFormat.QuotedTextIsLiteral | contrib/jquery/jquery-ui-1.8.12.js:8172-8214 | Text between quotes stands for itself, letters of the format included, and two quotes for one |
| DateRoundTrip.RoundTripExactlyWhenReadable | contrib/jquery/jquery-ui-1.8.12.js:8143-8154 | For formats that set each field once the round trip holds if and only if every number is printed as wide as the parser reads, or no digit follows it |
| DateRoundTrip.SeparatedFormatsRoundTrip | contrib/jquery/jquery-ui-1.8.12.js:8118-8241 | For formats in which every unpadded number, and every year, is followed by something that can not begin with a digit, the round trip holds for all those dates |
| DateRoundTrip.AtomFormatRoundTrips | contrib/jquery/jquery-ui-1.8.12.js:8244-8255 | So it does for the standard format `yy-mm-dd`, whatever the names of days and months |
| DateRoundTrip.UnpaddedDayIsMisread | contrib/jquery/jquery-ui-1.8.12.js:8143-8154 | Without that it fails: with day, year and padded month in a row 5 February 2011 does not come back |
| DateRoundTrip.CountsFromNewYear | contrib/jquery/jquery-ui-1.8.12.js:8330-8332 | The printed day of the year is the ordinal of the date, counting from 1, if and only if the year is not one of 0 to 99 |
| DateRoundTrip.SpreadOrdinalFinds | contrib/jquery/jquery-ui-1.8.12.js:8226-8236 | The loop over the months ends, for every year outside 0 to 99 and every ordinal, at the one month and day with that ordinal, or behind December if the year has no such day |
| DateRoundTrip.OrdinalIsChecked | contrib/jquery/jquery-ui-1.8.12.js:8226-8240 | From the year 100 an ordinal is accepted if and only if it is one of the year, and then as the one date that has it |
| DatePicker.Printer.FormatNumber | contrib/jquery/jquery-ui-1.8.12.js:8302-8308 | The padding loop prints the number with zeros in front up to the width if the letter is doubled, and moves the cursor over the second letter |
| DatePicker.Printer.FormatDate | contrib/jquery/jquery-ui-1.8.12.js:8287-8361 | The loop with its cursor and quote mode prints the tokens of the format one after the other |
| DatePicker.Reader.GetNumber | contrib/jquery/jquery-ui-1.8.12.js:8144-8154 | Reads the longest run of digits up to the width of the field, or fails if there is none, and moves both cursors |
| DatePicker.Reader.GetName | contrib/jquery/jquery-ui-1.8.12.js:8156-8165 | Reads the first name of the list that the text begins with, upper and lower case alike, or fails |
| DatePicker.Reader.SpreadDays | contrib/jquery/jquery-ui-1.8.12.js:8226-8236 | The loop over the months in place leaves month and day as spreading the ordinal gives them |
| DatePicker.Reader.ReadFields | contrib/jquery/jquery-ui-1.8.12.js:8173-8220 | The loop over the format reads the same tokens that the printer prints, doubled letters and quotes included, and stops at the first error |
| DatePicker.Reader.ParseDate | contrib/jquery/jquery-ui-1.8.12.js:8118-8241 | The whole parser, with the missing and the short year, the ordinal and the final check, computes the token-wise parser of the lemmas above for every format and text: the same date or the same error |
| DatePicker.PrintThenParse | contrib/jquery/jquery-ui-1.8.12.js:8118-8361 | Running the printer and then the parser on its output gives the day back in the year that format and clock determine, so the date if the format names it whole and is readable, and for formats that set each field once if and only if it is |
| Decimal.ReadPrint | contrib/jquery/jquery-ui-1.8.12.js:8153-8153 | Reading a printed number gives it back |
| Decimal.AtoiExactly | bubba-networkmanager/utils/WlanCfg.cpp:276-276 | A number is read from any text that begins with it after white space, up to the first character that is no digit; a text without one reads as 0 |
| Slider.TrimIsNear | contrib/jquery/jquery-ui-1.8.12.js:10750-10768 | A value between the bounds moves to the nearest whole number of steps from the minimum, and half way between two to the upper one |
| Slider.SlideArrives | contrib/jquery/jquery-ui-1.8.12.js:10555-10595 | A handle that may slide to a trimmed value is shown there afterwards, or where the other handle stops it; the other one stays, and both do if the callback refuses |
| Slider.KeysGoOneStep | contrib/jquery/jquery-ui-1.8.12.js:10336-10363 | From a place on the grid Up goes on by exactly one step, or to the maximum, and Down back by one; Home and End go to the bounds, a page or the mouse to the nearest place, and at a bound nothing is done |
| Slider.TrimStaysInBounds | contrib/jquery/jquery-ui-1.8.12.js:10750-10768 | Trimming stays within the bounds for every value if and only if no value below the maximum is rounded past it, a condition on minimum, maximum and step; a range of whole steps meets it |
| Slider.TrimIsMonotone | contrib/jquery/jquery-ui-1.8.12.js:10750-10768 | Trimming keeps the order of values, up to the maximum |
| Slider.TwiceIsCut | contrib/jquery/jquery-ui-1.8.12.js:10750-10768 | Trimming twice is trimming once and cutting off at the maximum, so it is idempotent where the first result is in bounds |
| Slider.SlideKeepsOrder | contrib/jquery/jquery-ui-1.8.12.js:10555-10595 | One slide of either handle, to any value, allowed or refused, keeps the lower handle at or below the upper one and in bounds |
| Slider.HandlesNeverCross | contrib/jquery/jquery-ui-1.8.12.js:10296-10369 | Over every run of key presses and mouse moves, for any bounds, any step and any answers of the callback, handles that start in order never cross |
| Slider.TrimmedSlideKeepsOrder | contrib/jquery/jquery-ui-1.8.12.js:10555-10595 | One slide to a trimmed value, which is all that the callers pass, keeps the handles in order, also when both are past the maximum |
| Slider.AimIsTrimmed | contrib/jquery/jquery-ui-1.8.12.js:10336-10363 | The value handed to the slide is trimmed, for every key and every place of the mouse |
| Slider.OnePastMaximum | contrib/jquery/jquery-ui-1.8.12.js:10750-10768 | Only one value past the maximum can come out of trimming: the first grid value after it |
| Slider.ArbitraryTargetsKeepOrderExactlyInBounds | contrib/jquery/jquery-ui-1.8.12.js:10555-10595 | What the slide by itself would guarantee for values that no caller passes: order over all runs if and only if the lower handle is not shown past the maximum at the start |
| Slider.WholeStepsAreInBounds | contrib/jquery/jquery-ui-1.8.12.js:10555-10595 | When the range is a whole number of steps every start meets that condition |
| Slider.Range.SlideTo | contrib/jquery/jquery-ui-1.8.12.js:10555-10595 | The method on the stored values: they become what the slide says, read through the trimming getters |
| Slider.Range.Act | contrib/jquery/jquery-ui-1.8.12.js:10329-10365 | A key press or a mouse move on the stored values does what the action says |
| FxQueue.QueueRunsInOrder | contrib/jquery/jquery-1.4.2.js:1117-1181 | Over every run in which each function signals once: functions are started in the order of insertion, each once, never two unfinished together; the sentinel is at the head exactly while one is unfinished; when none is, all have been started |
| FxQueue.StepKeepsGood | contrib/jquery/jquery-1.4.2.js:1140-1161 | Each step keeps that what waits behind the sentinel is exactly what has not been started, in order |
| FxQueue.HarmMeansTwoRunning | contrib/jquery/jquery-1.4.2.js:1126-1148 | A stray signal, or a queue replaced by an array, empty or not, does no harm when nothing runs, and otherwise always leads to two functions running together |
| FxQueue.Queue.DequeueNext | contrib/jquery/jquery-1.4.2.js:1140-1161 | dequeue on the array, with shift and unshift in place, takes the step |
| FxQueue.Queue.Add | contrib/jquery/jquery-1.4.2.js:1165-1181 | queue with a function appends it and starts it unless the sentinel is there |
| FxQueue.Queue.ReplaceBy | contrib/jquery/jquery-1.4.2.js:1130-1181 | queue with an array drops what waits and starts the first of the array, even while one is running |
| AjaxRequests.EveryRunIsAccounted | contrib/jquery/jquery-1.4.2.js:5147-5291 | Over every interleaving of state changes, timeouts, aborts, returns and failing sends of any number of requests: each completes once for each failed send and once more if a terminal event reaches it; `active` is the number of started, unfinished global requests less the completions beyond the first; start and stop notices alternate |
| AjaxRequests.CountedExactlyWhenFailsAlone | contrib/jquery/jquery-1.4.2.js:5147-5291 | No request completes twice if and only if none whose send fails is reached by a terminal event or fails again; `active` is right if and only if this holds of the global requests |
| AjaxRequests.EveryRunIsCounted | contrib/jquery/jquery-1.4.2.js:5147-5291 | While no send fails each request completes at most once, `active` is the number of started, unfinished global requests, and the notices alternate |
| AjaxRequests.TerminalEventCompletes | contrib/jquery/jquery-1.4.2.js:5163-5262 | Once a terminal event has reached a request whose send did not fail it has completed exactly once, whatever came before and whatever follows, for this request or others |
| AjaxRequests.StepKeepsGood | contrib/jquery/jquery-1.4.2.js:5147-5291 | Every step, of any request, keeps these books |
| AjaxRequests.FailedSendCompletesOnceExactly | contrib/jquery/jquery-1.4.2.js:5250-5257 | A request whose send fails once completes once if no terminal event reaches it before or after, and twice otherwise |
| AjaxRequests.Xhr.OnReadyStateChange | contrib/jquery/jquery-1.4.2.js:5163-5224 | The handler closure, with the abort it makes on a timeout, does to flags, transport and counter what the step says |
| AjaxRequests.Xhr.AbortNow | contrib/jquery/jquery-1.4.2.js:5227-5238 | The replaced abort, with or without a state change fired by the browser |
| AjaxRequests.Xhr.Send | contrib/jquery/jquery-1.4.2.js:5250-5262 | Sending, with its catch, and the extra call of the handler for requests that are not asynchronous |
| DataCache.Cache.Set | contrib/jquery/jquery-1.4.2.js:1001-1040 | Setting a key changes that key of that element's own map and nothing else, the numbers of elements staying distinct and in step with the cache entries |
| DataCache.Cache.Get | contrib/jquery/jquery-1.4.2.js:1001-1040 | Looking up gives the element's own value or nothing, and gives out no number to an element without data |
| DataCache.Cache.SetAll | contrib/jquery/jquery-1.4.2.js:1023-1025 | Setting an object replaces the element's map by a copy |
| DataCache.Cache.Remove | contrib/jquery/jquery-1.4.2.js:1042-1077 | Removing a key removes just that key; with an element's last key go its number and its cache entry |
| DataCache.WithoutExactly | contrib/jquery/jquery-1.4.2.js:1054-1063 | What removing leaves: every other name of every element with its value, and an element if and only if a name of it is left |
| DataCache.Cache.RemoveAll | contrib/jquery/jquery-1.4.2.js:1065-1076 | Removing all data of an element drops its number and its entry and leaves all other elements as they were |
| EventNamespaces.PatternMeansContained | contrib/jquery/jquery-1.4.2.js:1717-1744 | The pattern built from the sorted requested namespaces matches the sorted text of a handler if and only if the handler has each namespace at least as often as it is requested: only whole segments match |
| EventNamespaces.ContainedMeansAmong | contrib/jquery/jquery-1.4.2.js:1717-1744 | Matching is the same as having every requested namespace, whatever the handler, if and only if the request has no duplicates |
| EventNamespaces.DoomedMeansContained | contrib/jquery/jquery-1.4.2.js:1733-1767 | Unbinding takes away a handler if and only if it is the one asked for and has all the namespaces asked for |
| EventNamespaces.TypeTextIsRead | contrib/jquery/jquery-1.4.2.js:1619-1628 | A type and its namespaces are read back from the text that joins them by dots |
| EventNamespaces.SplitExactly | contrib/jquery/jquery-1.4.2.js:1610-1610 | Splitting gives the one list of parts without the separator that the text is made of |
| EventNamespaces.TypesStopAtEmpty | contrib/jquery/jquery-1.4.2.js:1615-1615 | The types of a text are all its parts up to the first empty one |
| EventNamespaces.BindsEachType | contrib/jquery/jquery-1.4.2.js:1608-1668 | Binding any list of types appends to the handlers of each kind one for each of its types, in order, and to no other |
| EventNamespaces.UnbindsEachType | contrib/jquery/jquery-1.4.2.js:1708-1778 | Unbinding any list of types leaves of each kind, in order, exactly the handlers that none of its types asks for |
| EventNamespaces.UnboundAfterBound | contrib/jquery/jquery-1.4.2.js:1610-1770 | Binding a handler under a text of one type and unbinding it under another of the same type takes it away if and only if it has all the namespaces asked for, with those before it that have to go |
| EventNamespaces.BindThenUnbind | contrib/jquery/jquery-1.4.2.js:1559-1794 | The two methods, run one after the other on such texts, do that |
| EventNamespaces.Bindings.Add | contrib/jquery/jquery-1.4.2.js:1630-1664 | Binding one type appends the handler with its namespaces sorted and joined |
| EventNamespaces.Bindings.Bind | contrib/jquery/jquery-1.4.2.js:1608-1668 | Binding a text of several types binds each in turn, up to the first empty one |
| EventNamespaces.Bindings.Unbind | contrib/jquery/jquery-1.4.2.js:1708-1778 | Unbinding such a text unbinds each in turn, up to the first empty one |
| EventNamespaces.Bindings.Remove | contrib/jquery/jquery-1.4.2.js:1733-1778 | The loops that splice the list while they run over it leave exactly the handlers to be kept, in order, and drop the event type when none is left |
| LanCommands.ExecuteHasEffect | bubba-networkmanager/controllers/InterfaceController.cpp:316-628 | A static, dynamic or raw command passes its checks or fails and changes nothing; one that passes leaves its interface in the commanded mode, whatever mode it was in, and everything else of the store as it was, and reports an error only for a bridge when the default LAN interface can not be used |
| LanCommands.SucceedsExactlyWhenAccepted | bubba-networkmanager/controllers/InterfaceController.cpp:267-628 | A command succeeds if and only if its interface is found, its request has what static addressing and bridges need, null passing for a list, and for a bridge the default LAN interface can be used |
| LanCommands.FailsCleanlyExactlyWhenUsable | bubba-networkmanager/controllers/InterfaceController.cpp:422-426 | Every failing command on an interface leaves the state alone if and only if it is no bridge or the default LAN interface is known; for each bridge, in any mode, a command that fails after the change is given |
| LanCommands.OtherInterfacesStay | bubba-networkmanager/controllers/InterfaceController.cpp:316-628 | No command changes the mode, options or flags of another interface |
| LanCommands.FailureChangesNothing | bubba-networkmanager/controllers/InterfaceController.cpp:316-628 | A command that fails its checks has changed nothing; one that passes and fails all the same has been carried out on a bridge |
| LanCommands.SaysWhatIsWrongFirst | bubba-networkmanager/controllers/InterfaceController.cpp:267-628 | A failing command reports what is wrong first: an interface that is not found, static settings, the members of a bridge in their order, an address that is no text, and at the very end the default LAN interface |
| LanCommands.SuccessStoresRequest | bubba-networkmanager/controllers/InterfaceController.cpp:316-538 | A successful static or dynamic command leaves its mode and the options it was given: all keys and values, ports as a set, and for a bridge what was missing, which is the configured waiting times and, as ports in order, the default LAN interface and the current wireless one, and nothing else; the flag is set by the request, or kept if the mode was the same; an empty list of static addresses of the LAN interface, or null, is stored as a list of one null |
| LanCommands.NoRequestKeepsOrDrops | bubba-networkmanager/controllers/InterfaceController.cpp:430-538 | A dynamic command without a request keeps the options if the interface was dynamic and is no bridge, drops them otherwise, and gives a bridge those it has to have |
| LanCommands.HostsFollowCommand | bubba-networkmanager/controllers/InterfaceController.cpp:399-416 | A command that passes its checks on the LAN interface leaves in the hosts file the rewrite of its lines to the first static address, to `256.0.0.1` for a dynamic one, or the lines that do not hold the host for raw; on another interface it leaves the file alone |
| LanCommands.CurrentWlanGoesWithLan | bubba-networkmanager/controllers/InterfaceController.cpp:129-187 | The current wireless interface is a listed one if there is any: of those among the ports of the LAN's addressed bridge the first, and if there are none the first of all |
| LanCommands.NamesAreThoseListed | bubba-networkmanager/controllers/InterfaceController.cpp:91-127 | An interface is listed for a type if and only if the kernel names it, it is of that type and no loopback, or it is `br0`, bridges are asked for and none is listed |
| LanCommands.FoundExactly | bubba-networkmanager/controllers/InterfaceController.cpp:68-84 | An interface is found if and only if it is listed and its type is known, with one error or the other if not |
| LanCommands.PassesExactly | bubba-networkmanager/controllers/InterfaceController.cpp:267-284 | Static settings pass if and only if they hold a list of addresses and one of netmasks; the complaint is about the address first, and about a missing member or one that is no list |
| LanCommands.AddressIsFirst | bubba-networkmanager/controllers/InterfaceController.cpp:399-406 | The address that goes into the hosts file is the first of the list, and empty if the list is |
| LanCommands.RunLeavesLastModes | bubba-networkmanager/controllers/InterfaceController.cpp:316-628 | After every run of commands an interface has the one profile of its last successful command if and only if it is no bridge or the default LAN interface is known |
| LanCommands.RunLeavesLastOptions | bubba-networkmanager/controllers/InterfaceController.cpp:316-628 | And it has the options and the flag of its last successful command, with what a bridge has to have, whatever commands came before and after |
| LanController.Controller.SetStaticCfg | bubba-networkmanager/controllers/InterfaceController.cpp:316-428 | The method on store, hosts file and interface object makes the state and the error that the command says |
| LanController.Controller.SetDynamicCfg | bubba-networkmanager/controllers/InterfaceController.cpp:430-538 | The same for dynamic addressing |
| LanController.Controller.SetRawCfg | bubba-networkmanager/controllers/InterfaceController.cpp:540-628 | The same for raw |
| LanController.Controller.CompleteBridge | bubba-networkmanager/controllers/InterfaceController.cpp:286-314 | The missing members of a bridge configuration are filled in, in place, or a member that is neither a list nor null is reported |
| LanController.Controller.GetInterfaces | bubba-networkmanager/controllers/InterfaceController.cpp:91-127 | The loop lists the interfaces of the type, without loopback, and adds the virtual bridge when none is there |
| LanController.Controller.GetCurrentWlan | bubba-networkmanager/controllers/InterfaceController.cpp:129-187 | The method computes the current wireless interface that the lemma above describes, or the error of a LAN interface that is not found |
| LanController.Controller.SetPromisc | bubba-networkmanager/controllers/InterfaceController.cpp:243-263 | Writing the flag writes back what was read: every stored profile reads as before, and it fails only for an unknown interface |
| Interfaces.Interface.SetConfiguration | bubba-networkmanager/datamodel/BridgeInterface.cpp:78-132 | Stores one profile of a bridge or a port, or refuses one of the other kind and then changes nothing |
| Interfaces.Interface.SetConfigurations | bubba-networkmanager/datamodel/EthernetInterface.cpp:124-129 | Stores all profiles in turn and reads the object back from the shared store |
| Interfaces.StoredPortsAreSorted | bubba-networkmanager/datamodel/BridgeInterface.cpp:91-101 | The stored bridge ports are strictly sorted, with exactly the requested names |
| Interfaces.StringsAreItems | bubba-networkmanager/datamodel/BridgeInterface.cpp:91-94 | Of a list of ports the texts are taken, each as often as it is there, and nothing else |
| Interfaces.SavedOptionsAreFixed | bubba-networkmanager/datamodel/BridgeInterface.cpp:78-102 | Storing stored options again changes nothing |
| Interfaces.WritingBackIsIdentity | bubba-networkmanager/datamodel/EthernetInterface.cpp:38-129 | Writing back what was read changes nothing that can be read, of any interface, while the ports of all bridges are in order |
| Interfaces.WritesBackExactlyWhenInOrder | bubba-networkmanager/datamodel/BridgeInterface.cpp:40-138 | For one interface it changes nothing if and only if its own ports are in order or it is no addressed bridge |
| LanMove.ThereAndBack | bubba-networkmanager/Dispatcher.cpp:243-352 | Moving the LAN from a static or dynamic port, whatever bridge members it holds, to a raw bridge and back restores addressing and options of the port without those members (null options as empty, an empty address list as a list of one null), leaves the bridge raw and changes no other interface |
| LanMove.RestoredExactlyWhenPlain | bubba-networkmanager/Dispatcher.cpp:262-327 | The port then reads exactly as before if and only if it held no `auto` flag, its options were an object without bridge members, and its static addresses were neither an empty list nor null |
| LanMove.MovesToBridge | bubba-networkmanager/Dispatcher.cpp:289-320 | The way there: the bridge gets the port's options with bridge members added, the port is raw, nothing else changes |
| LanMove.MovesToPort | bubba-networkmanager/Dispatcher.cpp:262-292 | The way back: the port gets the bridge's options without the bridge members |
| LanMove.BridgeJoinsLan | bubba-networkmanager/Dispatcher.cpp:289-320 | After every successful move from a port to a bridge, in whatever mode and with whatever options, the ports stored for the bridge are exactly the default LAN interface and the wireless one that goes with it, in order, and the wait is the configured one, or 0 |
| LanMove.MoveCarriesOptions | bubba-networkmanager/Dispatcher.cpp:243-352 | After every successful move between interfaces of any kind the new one is addressed as the old one was, with the same options but for the members of a bridge and an address list without an address; the old one is raw, and nothing else is touched but the LAN role |
| LanMove.MoveWritesHosts | bubba-networkmanager/Dispatcher.cpp:278-352 | Such a move leaves in the hosts file the rewrite of its lines to the address that moves, or to `256.0.0.1` if it is not known yet |
| LanMove.MoveSucceedsExactlyWhenMovable | bubba-networkmanager/Dispatcher.cpp:243-360 | A move between known interfaces goes through if and only if both are found, the old one is static or dynamic, the options that are moved pass for the new one, and for a bridge the default LAN interface can be used |
| LanMove.RolePassesExactlyWhenKnown | bubba-networkmanager/Dispatcher.cpp:219-360 | Refused or not, the move passes the LAN role on in memory if and only if both interfaces are of known types |
| LanMove.RawInterfaceStops | bubba-networkmanager/Dispatcher.cpp:257-261 | Moving the role away from a raw interface ends the program, with the role passed on in memory only |
| LanMove.NetmaskIsMissed | bubba-networkmanager/Dispatcher.cpp:243-360 | A static port with an address and no netmask is refused: only the LAN role has changed |
| LanController.Controller.MoveLan | bubba-networkmanager/Dispatcher.cpp:219-360 | The move as the dispatcher makes it, step by step on the shared store, computes the move of the lemmas above, which say its ports, its options and its conditions, from an interface of any type and mode |
| Strings.SortIsSorted | bubba-networkmanager/datamodel/BridgeInterface.cpp:95-95 | Sorting gives an ordered list with the same names, each as often |
| Strings.SortUniqueIsStrict | bubba-networkmanager/datamodel/BridgeInterface.cpp:95-98 | Sorting and dropping neighbours that are equal gives a strictly sorted list with the same names, and doing it again changes nothing |
| Strings.LessIsLexicographic | bubba-networkmanager/datamodel/BridgeInterface.cpp:95-95 | The order is that of a dictionary: by the first place where two strings differ, a string before those that continue it |
| Hosts.RewriteKeepsLines | bubba-networkmanager/controllers/InterfaceController.cpp:408-414 | Find, UpdateIP, Delete, Add keeps all unmatched lines in order, puts after them one line for each matched one, with the new address in place of its first word and the rest as it was, or as it was altogether if its address begins with 127 and it names localhost, or makes one when none matched and there is an address |
| Hosts.UpdatedIsFound | bubba-networkmanager/utils/Hosts.cpp:77-93 | The written lines are the ones found next time if and only if each matched line names the host besides the address it loses |
| Hosts.IdempotentExactlyWhenNamedLast | bubba-networkmanager/controllers/InterfaceController.cpp:408-414 | Doing the rewrite again changes nothing if and only if no line matched, or the lines that name the host besides the address come last among those that matched |
| Hosts.NameAsFirstWordIsLost | bubba-networkmanager/utils/Hosts.cpp:90-90 | A host named only in the first word of its line is not found afterwards |
| Hosts.FileRoundTrip | bubba-networkmanager/utils/Hosts.cpp:47-173 | Reading what was written gives the same entries if and only if there is no empty line and no word is empty, holds a blank or a newline, or starts with `#` |
| Hosts.File.constructor | bubba-networkmanager/utils/Hosts.cpp:47-63 | Reading the text keeps the words of each line before the first comment word, and no empty lines |
| Hosts.ParseLine | bubba-networkmanager/utils/Hosts.cpp:50-58 | The loop over the words of one line stops at a comment |
| Hosts.WordsExactly | bubba-networkmanager/utils/Hosts.cpp:50-53 | The words of a line are what stands between its spaces and tabs, in whatever mixture and number |
| Hosts.File.Find | bubba-networkmanager/utils/Hosts.cpp:119-127 | The lines that hold the word, in order |
| Hosts.File.Delete | bubba-networkmanager/utils/Hosts.cpp:129-135 | Erasing while iterating leaves exactly the lines that do not hold the word, in order, also when the last line is erased and the iterator goes round |
| Hosts.File.WriteBack | bubba-networkmanager/utils/Hosts.cpp:147-173 | The text has the words of each line with tabs between them and a newline behind |
| Hosts.UpdateIP | bubba-networkmanager/utils/Hosts.cpp:77-93 | The loop puts the address on each line that is not the real loopback, or makes the line of a new host |
| Hosts.File.Move | bubba-networkmanager/controllers/InterfaceController.cpp:408-414 | The four calls in turn make the rewrite |
| WlanAuth.WepRoundTrip | bubba-networkmanager/utils/WlanCfg.cpp:652-683 | From every store with contiguous keys, of whatever form, in a file of single lines: written to the file and read again, the keys come back if and only if none is empty, holds `=` or a newline or has outer spaces and no old key that stayed is read behind them; mode and default key come back unless a key holds a newline |
| WlanCfg.WriteThenRestart | bubba-networkmanager/utils/WlanCfg.cpp:200-267 | The methods, run on a file and on the text they write, do that |
| WlanAuth.SyncWepOverwrites | bubba-networkmanager/utils/WlanCfg.cpp:652-681 | What is stored then: the given keys, and behind them exactly the old ones that the erasing loop did not reach and that were not lost when the lines were read again |
| WlanAuth.StoresExactlyTheKeys | bubba-networkmanager/utils/WlanCfg.cpp:663-681 | Exactly the given keys are stored if and only if no old key with a higher number stays |
| WlanAuth.StaysContiguousExactly | bubba-networkmanager/utils/WlanCfg.cpp:663-681 | The numbers stay contiguous if and only if the old keys that stay leave no gap |
| WlanAuth.SteadyKeysGo | bubba-networkmanager/utils/WlanCfg.cpp:663-674 | Of old keys that are not empty, hold no `=` and have no outer spaces none stays |
| WlanAuth.EqualsStopsTheLoop | bubba-networkmanager/utils/WlanCfg.cpp:663-674 | Over the keys `c`, `a=b` and `d` the key `x` is written and `d` stays with a gap; with two keys `d` is read as the third |
| WlanAuth.NoneRemovesFour | bubba-networkmanager/utils/WlanCfg.cpp:643-651 | Turning authentication off removes all numbered keys if and only if every key from the fifth on holds `=` |
| WlanAuth.StaleKeysComeBack | bubba-networkmanager/utils/WlanCfg.cpp:643-681 | Keys from the fifth on outlive that and are read from the file behind the next four, as far as they are read again from their lines |
| WlanAuth.WpaRoundTrip | bubba-networkmanager/utils/WlanCfg.cpp:684-733 | Through the file: WPA settings with a first key of one line come back with the mode, and with that key as it is read again before the keys of its own file; whatever the first key, if no such file is read it comes back if and only if it is not empty, holds no `=` and no newline and has no outer spaces |
| WlanAuth.AuthOpsApply | bubba-networkmanager/utils/WlanCfg.cpp:640-741 | Writing the settings is a run of single updates and removals on the file, which do to the map what is said of it |
| WlanAuth.RefusedPartLeavesMemoryExactly | bubba-networkmanager/utils/WlanCfg.cpp:314-384 | A refused authentication part leaves the memory as it was if and only if it is no WEP part, or its default key and its keys are absent or those held |
| WlanUpdates.UpdateKeepsGoodExactly | bubba-networkmanager/utils/WlanCfg.cpp:472-541 | From a store of at most four contiguous keys that are not empty, hold no `=` and have no outer spaces, an update leaves such a store if and only if such keys are in memory once the request has been taken over |
| WlanUpdates.RunKeepsGood | bubba-networkmanager/utils/WlanCfg.cpp:472-541 | Over every run of updates with at most four such keys, whatever else they hold, the stored keys stay contiguous and at most four |
| WlanUpdates.RestartsKeepGood | bubba-networkmanager/utils/WlanCfg.cpp:472-541 | Over every such run with restarts, when all that is written is single lines, this holds in memory and on the disk |
| WlanUpdates.ChangeFollows | bubba-networkmanager/utils/WlanCfg.cpp:532-540 | An update keeps map, index and lines of the file in step, and writes the file just when it succeeds |
| WlanAuth.RestartedIsGood | bubba-networkmanager/utils/WlanCfg.cpp:269-280 | Starting from a file whose map is of that kind finds just the keys that are there |
| WlanUpdates.RunKeepsOneMode | bubba-networkmanager/utils/WlanCfg.cpp:472-541 | Over every run of updates whatever, newlines included, `wep_default_key` and `wpa` are never both stored, until the file is read again |
| WlanUpdates.RestartsKeepOneMode | bubba-networkmanager/utils/WlanCfg.cpp:472-541 | Over every run of updates and restarts in which all that is written is single lines they are never both stored, in memory or on the disk |
| WlanUpdates.BothModesExactlyWhenAmong | bubba-networkmanager/utils/WlanCfg.cpp:269-280 | Whatever the file holds, both are read at a restart if and only if both keys are among the pieces into which newlines cut its lines |
| WlanUpdates.SsidBringsBothModes | bubba-networkmanager/utils/WlanCfg.cpp:743-747 | In WEP mode one update with an ssid of two lines, the second of which is `wpa=2`, leaves one mode in memory and both after a restart |
| WlanRestart.LastWordStands | static-libs/libeutils-0.7.39/libeutils/SimpleCfg.cpp:49-122 | Over every run of updates and removals, what is read again of a key is the value of the last update of it, as its line is read, or nothing after a removal, whatever is done to other keys |
| WlanRestart.SettingsAreWritten | bubba-networkmanager/utils/WlanCfg.cpp:743-778 | Writing all settings puts each under its own key, in the words of the access point's program, whatever was there; an empty ssid or interface is not written, and its key keeps what it had |
| WlanRestart.RequestReachesFile | bubba-networkmanager/utils/WlanCfg.cpp:472-541 | After a successful update the file on the disk says what was asked for: the first letter of the radio mode, 1 or 0 for 802.11n, 0 for a visible and 1 for a hidden network, the channel as a numeral, 0 to accept, 1 to deny and nothing for no access mode, and the texts as their lines are read |
| WlanRestart.UpdateThenRestart | bubba-networkmanager/utils/WlanCfg.cpp:269-279 | After a successful update and a restart channel, radio mode, 802.11n, visibility and access mode are as before, whatever they are; an ssid or interface of one line is if and only if it holds no `=` and has no outer spaces, or is empty and the file had nothing under its key; and of the capabilities the known ones that are listed, under the exact condition on `=` and blocks |
| WlanRestart.TwoLinesAreLost | bubba-networkmanager/utils/WlanCfg.cpp:269-279 | An ssid or interface of more lines never comes back |
| WlanRestart.ListsReturn | bubba-networkmanager/utils/WlanCfg.cpp:164-198 | The lists of addresses come back if and only if they are of single lines, when access is restricted; otherwise they are not read |
| WlanRestart.AuthReachesFileAndReturns | bubba-networkmanager/utils/WlanCfg.cpp:200-267 | After a successful update the file says the authentication that was asked for, and no other, and a restart brings back the mode with the WEP default key or the kind of WPA |
| WlanRestart.WpaKeysReturnExactly | bubba-networkmanager/utils/WlanCfg.cpp:241-262 | A list of WPA keys of single lines comes back if and only if it is one key that is not empty, holds no `=` and has no outer spaces, and no file of further keys is read; if one is, an empty key is added behind, and only a list of empty keys is as before |
| WlanCfg.UpdateThenStart | bubba-networkmanager/utils/WlanCfg.cpp:269-280 | The methods, an update and then a start from the text that it wrote, do that: the same answer, the settings and the authentication as the lemmas say |
| WlanUpdates.RefusedExactly | bubba-networkmanager/utils/WlanCfg.cpp:472-541 | An update is refused if and only if a part of the request is, the radio mode is unknown, or the authentication mode has no keys |
| WlanUpdates.TakenExactlyWhenFit | bubba-networkmanager/utils/WlanCfg.cpp:472-530 | A request is taken over if and only if its radio mode begins with a, b or g, its access mode is none, accept or deny, and its authentication is fit |
| WlanAuth.AcceptedExactlyWhenFit | bubba-networkmanager/utils/WlanCfg.cpp:314-384 | That is so if and only if it names no mode, or none; or WEP with a default key that is no further than the end of the keys; or WPA of a known kind; and then the mode named is set |
| WlanUpdates.RefusedLeavesMemoryExactly | bubba-networkmanager/utils/WlanCfg.cpp:472-541 | A refused update leaves the memory as it was if and only if what it would set, up to where it is refused, is held already; it leaves the store as it was if a part of the request is refused, and otherwise with what was written before |
| WlanUpdates.RefusedDefaultIsStoredLater | bubba-networkmanager/utils/WlanCfg.cpp:314-327 | A refused default key stays in memory and is stored by the next update of anything else |
| WlanCfg.AccessPoint.EraseKeys | bubba-networkmanager/utils/WlanCfg.cpp:663-674 | The do-while loop over numbered keys ends; each removal takes one line away and reads the map again from the others |
| WlanCfg.AccessPoint.ReadKeys | bubba-networkmanager/utils/WlanCfg.cpp:213-224 | The reading loop ends and collects the keys up to the first that is missing or empty |
| WlanCfg.AccessPoint.SyncAuth | bubba-networkmanager/utils/WlanCfg.cpp:640-741 | The method makes the lines, the map, the files and the answer that the step says, for all three modes |
| WlanCfg.AccessPoint.SyncWithCfg | bubba-networkmanager/utils/WlanCfg.cpp:743-778 | All settings are written in order, up to the first that can not be |
| WlanCfg.AccessPoint.GetAuth | bubba-networkmanager/utils/WlanCfg.cpp:200-267 | Reading sets mode and keys from the store and leaves the rest of the object |
| WlanCfg.AccessPoint.ParseConfig | bubba-networkmanager/utils/WlanCfg.cpp:269-280 | Starting sets every setting from its key, with the defaults 6 for the channel, 0 for 802.11n and 0 for hiding |
| WlanCfg.AccessPoint.GetACLMode | bubba-networkmanager/utils/WlanCfg.cpp:164-198 | The access mode is read as 0 or 1, and the lists from their files only then |
| WlanCfg.AccessPoint.GetHWMode | bubba-networkmanager/utils/WlanCfg.cpp:150-162 | The radio mode is read as one of three letters, and otherwise stays what the memory held |
| WlanCfg.AccessPoint.JsonToAuth | bubba-networkmanager/utils/WlanCfg.cpp:353-384 | A request sets the mode only if its part is there and accepted |
| WlanCfg.AccessPoint.JsonToBasics | bubba-networkmanager/utils/WlanCfg.cpp:472-525 | The other parts of a request are taken over in order, up to the first that is refused |
| WlanCfg.AccessPoint.UpdateCFG | bubba-networkmanager/utils/WlanCfg.cpp:472-541 | One update as a whole, with all its parts, its lines and the text it writes, is the step of the runs above |
| HtCapabilities.ContainsMeansMember | bubba-networkmanager/utils/WlanCfg.cpp:140-147 | The written string holds a name in brackets if and only if the name is on the list, for names without brackets |
| HtCapabilities.FoundIsAmong | bubba-networkmanager/utils/WlanCfg.cpp:118-148 | Searching for any table of such names gives those on the list, in the order of the table |
| HtCapabilities.ContainsMeansShown | bubba-networkmanager/utils/WlanCfg.cpp:140-147 | For every list: the written string holds a name in brackets if and only if one of the written blocks does |
| HtCapabilities.FoundIsAmongExactly | bubba-networkmanager/utils/WlanCfg.cpp:118-148 | For every list: searching for a table of such names gives those on the list, in the order of the table, if and only if no name on the list holds the block of a further one |
| HtCapabilities.KeptIsAmongExactly | bubba-networkmanager/utils/WlanCfg.cpp:118-148 | What is read again of the written list gives exactly the listed names of a table, in table order, if and only if no name holds `=` and none holds the block of a further name, or a name holds `=` and no name of the table is listed |
| HtCapabilities.WriteThenRead | bubba-networkmanager/utils/WlanCfg.cpp:118-148 | The same through the lines of the file, for every list of names without newlines; so it holds when no name holds `=` or a bracket |
| HtCapabilities.BracketsMislead | bubba-networkmanager/utils/WlanCfg.cpp:625-638 | A list on which this fails |
| SimpleCfg.PlainMeansWellFormed | static-libs/libeutils-0.7.39/libeutils/SimpleCfg.cpp:49-71 | A key and value are read back from their line if and only if neither holds `=` or begins or ends with a space and the key does not begin with `#` |
| SimpleCfg.ReadAgainExactlyWhenWellFormed | static-libs/libeutils-0.7.39/libeutils/SimpleCfg.cpp:101-122 | A new entry is still there after the lines have been read again if and only if it is of that form |
| SimpleCfg.ValuesSay | static-libs/libeutils-0.7.39/libeutils/SimpleCfg.cpp:49-71 | The map read from the lines holds just the keys that some line has, each with its value, when no key is on two lines |
| SimpleCfg.LineIsReread | static-libs/libeutils-0.7.39/libeutils/SimpleCfg.cpp:49-71 | A line written for a plain key is read as that key with the value without outer spaces, or as no pair if the value holds `=` |
| SimpleCfg.InStepRereads | static-libs/libeutils-0.7.39/libeutils/SimpleCfg.cpp:49-71 | Whatever values were stored, reading the lines again gives the map with every value as it is read again |
| SimpleCfg.FileRereads | static-libs/libeutils-0.7.39/libeutils/SimpleCfg.cpp:41-99 | So does writing the file and reading it, as long as no line holds a newline |
| SimpleCfg.LinesExactly | static-libs/libeutils-0.7.39/libeutils/FileUtils.cpp:100-114 | Of any text the lines that end in a newline are read, and one that does not if it is not empty |
| SimpleCfg.DoAllFollows | static-libs/libeutils-0.7.39/libeutils/SimpleCfg.cpp:49-122 | Over every run of updates and removals with whatever values, lines, map and index stay in step, and the map is what the operations make of it |
| SimpleCfg.LineStays | static-libs/libeutils-0.7.39/libeutils/SimpleCfg.cpp:49-122 | A line stays in the file whatever is written or removed under other keys, also when its value is no value any more |
| SimpleCfg.ReadKeysAreThosePieces | static-libs/libeutils-0.7.39/libeutils/SimpleCfg.cpp:41-99 | A file that was written and is read again has exactly the keys of the pieces into which newlines cut its lines |
| SimpleCfg.Cfg.CreateIndex | static-libs/libeutils-0.7.39/libeutils/SimpleCfg.cpp:49-71 | The loop builds map and index from the lines, in step when no key is on two lines |
| SimpleCfg.Cfg.Update | static-libs/libeutils-0.7.39/libeutils/SimpleCfg.cpp:101-112 | Sets the one key in the map and its line, or adds a line, and keeps map, index and lines in step whatever the value |
| SimpleCfg.Cfg.Remove | static-libs/libeutils-0.7.39/libeutils/SimpleCfg.cpp:114-122 | Removes the line of the key and reads all others again: the map loses the key and the values with `=`, and outer spaces of the rest |

## Left out

Selectors:

- Splitting selector text into parts, the filters behind a simple part, positional selectors,
  comma groups and the final sort: a part is the set of elements it selects.
- `dirNodeCheck` and `dirCheck` are one method: they differ in how an element is compared, and in
  that the former also looks at the names of nodes that are no elements, which match no tag.
- Elements outside a document: every element has a parent node. A chain that starts with a
  combinator starts from an element; from the document node it selects nothing.

Dates and slider:

- The `@` and `!` formats, time of day, daylight saving and the limits of the Date type.
- Years 0 to 99 in the round trip, which starts at the year 100: the Date constructor moves them to
  the 20th century (`DateRoundTrip.CountsFromNewYear`).
- DateRoundTrip.RoundTripExactlyWhenReadable: formats that set a field twice, where a number that is
  misread can be put right by a later one.
- DateRoundTrip.ParseInTakenYear: formats with both two-digit and full years, and years before 100,
  which the clock would have to show.
- Upper and lower case outside ASCII, in names of days and months.
- Values of the slider are counted in units of 0.00001, to which the source rounds, so binary
  fractions do not appear; the minimum is not above the maximum; sliders with one value. Where the
  mouse points, and how far a page is, can be any value.

Small protocols:

- FxQueue: only the `fx` queue; other queues do not start by themselves.
- Ajax: script and JSONP transport, a missing XMLHttpRequest, callbacks that throw or abort the
  request they are called for; what success and error callbacks are given.
- Data: elements that may hold none, the window, and browsers that can not delete the expando;
  values are numbers.
- Events: special types and their hooks, triggering and handling, unbinding by namespace for all
  types at once; names with a bar, a dot or a line end in them, which the pattern reads differently.

LAN:

- Text of the interfaces file (its line builders in `include/netifrc.h` are not part of this
  model): the store is the map in memory.
- Kernel state of interfaces, stopping the DHCP client, services and files they are made of;
  writing files succeeds.
- Profiles that a wireless interface has from hostapd: to the store it is a port.
- LanController.Controller.MoveLan: stored options that are neither an object nor null, on which an
  assertion of the JSON library ends the program; the restoring branch, which no run reaches.
- Interfaces files in which the ports of a bridge are not in order, except for
  `Interfaces.WritesBackExactlyWhenInOrder`.
- The configuration given to a raw command, which is kept in memory but never stored.

Wireless and hosts:

- WlanRestart.WpaKeysReturnExactly: keys of several lines.
- WlanRestart.UpdateThenRestart: files in which a value has a newline, but for
  `WlanRestart.TwoLinesAreLost` and `WlanUpdates.BothModesExactlyWhenAmong`.
- WlanRestart.ListsReturn: settings under which two of the three further files have one name.
- WlanAuth.WepRoundTrip, WlanAuth.WpaRoundTrip, WlanAuth.StaleKeysComeBack: the file before is one of
  single lines, as a file is when it has been read.
- WlanUpdates.RestartsKeepGood: which numbered keys a restart finds when values do hold newlines, but
  for `SimpleCfg.ReadKeysAreThosePieces`; and configuration files that hold a key twice.
- HtCapabilities.WriteThenRead: names with a newline, which breaks the line of the file.
- The country that is read at the start, which comes from the time zone.
- Numbers wider than the machine's integers; `Hosts::UpdateHostname`.
- Hosts.File.Delete: the end of the list is followed by its first element, as in the linked ring
  behind the container; by the standard of the language that step is undefined.

Whole components: the disk manager, policies, routes, resolver, `Nl80211`, the web pages and the
scripts around them, which are wrappers or finite tables.
