# Tables and dates

The pages of this repository show server status in tables and let the user pick dates. The logic
behind that lives in three browser libraries that the repository ships: DataTables (the table
engine), moment (dates and durations) and bootstrap-datepicker (the date pickers). This project
models that logic in Dafny and proves what it is relied on to do.

Dates are UTC instants: whole milliseconds, unbounded, on one proleptic Gregorian calendar
(`Gregorian`, `Dates`) with MakeDay as in section 15.9.1.12 of ECMA-262 5.1. A month is an absolute
number, 12 * year + month. Both date libraries are built on it.

Objects that the libraries update in place are classes (`Dates.JsDate`, `Moments.Moment`,
`Durations.Duration`, `MonthGrid.DayView`, `RangePicker.DateRangePicker`, `DrawProtocol.ServerTable`,
`HeaderDraw.TableHead`, `TableSettings.Settings`); every method states its new state as a function of
the old one, and the lemmas are about those functions.

## What is proved

**The table engine.** `Table` has the state of a table and its operations, `TableSettings` the
settings object that carries them out, with the loops of the source.
Over every run of additions, updates, removals, searches, sorts, redraws, page and length changes
(`TableRuns`), the master list is a permutation of the row positions, the displayed list a
duplicate-free part of it, and every row node knows the position of its row. A search displays exactly the
rows that pass all searches, even when it narrows the last result instead of starting afresh. Narrowing
one input to another is right in all tables if and only if every word of the old input lies in a word of
the new one, or nothing can match the new one (`TableFiltering.ReuseIff`). Runs in which typing extends
the input allow just these extensions; inputs without quotes always qualify. Sorting gives the one order the
comparator allows, which is the stable sort by the columns, whatever algorithm sorts. Removing a
selection that is renumbered while it is being removed removes the rows selected, and no others unless
a row is selected twice and some row behind it is not (`TableCoherence.RemoveAllExact`). The header algorithm
reads and redraws any tiling by rectangles, also with columns hidden. Paging covers all records. The
draw protocol never replaces newer data by older data, if the server echoes draw numbers. Writing to a
path and reading it again gives a matching value back.

**Dates.** The picker's month mover, which steps through shorter months and overflows on the way, is
clamped month addition. moment's month addition is the same, up to an exact condition. Whole-month
differences are floors, period boundaries partition time, week dates and ordinal dates convert both
ways, durations bubble without loss. The picker's month grid is six whole weeks whose cells decode to
their dates, formatted dates parse back, and a row of pickers that all have dates stays in order; with
empty ones there is an exact condition.

## Where the code is not what it seems

The model follows the code. Each of these is a theorem below.

- `Date.UTC` takes the years 0 to 99 for 1900 to 1999. moment reads month lengths through it, so it
  clamps wrongly for the 29th to 31st in those years, exactly when a February gains or loses its leap
  day by the shift (`MonthArithmetic.SetMonthExact`). The picker's grid then shows a month 1900 years
  later (`MonthGrid.TwoDigitGrid`), and clicks miss the date shown, but for the cells of the month
  after the one laid out; outside those years a click misses just the dates in them (`MonthGrid.ClickRoundTrip`).
- An overflow of that kind can put a month past the instant it is compared with, and then one
  decrement is not enough for a whole-month difference (`MonthArithmetic.DifferenceIsFloor`). The
  comment in monthDiff that b lies strictly within a month of the anchor fails in the same case
  (`MonthArithmetic.AdjustWithinMonth`). `MonthArithmetic.SkipHappens` has an input for all of these.
- dayOfYearFromWeeks inverts weekOfYear for every day if and only if weeks start on Sunday or Monday
  or the first week contains January 1 (`WeekDates.AlwaysRoundTrips`).
- formatDate writes the sign of a negative year as a minus, which parseDate takes for punctuation
  (`DateText.FormatParseRoundTrip`). A picker can hold a date with a time of day, which the text does not
  have: it parses back at the time of day of today's date, midnight.
- A picker that does not accept a date passed on to it drops the date
  (`RangePicker.NeighboursFollow`). dateUpdated has a branch to fill empty pickers, but getUTCDate returns
  a Date object for them, too, so they stay empty (`RangePicker.CascadeIs`). An empty picker stops the
  others from being moved along: `RangePicker.OrderKept` says exactly when pickers get out of order,
  `RangePicker.EmptyStartBreaks` and `RangePicker.ClearedGapBreaks` have inputs.
- An event from an element that is no picker of the range leaves the updating flag set for good
  (`RangePicker.DateRangePicker.DateUpdated`).
- Typing a quote can widen a search: from two quotes and a b to two quotes, a b and a quote
  (`TableSearch.QuotesWiden`). The result shown is then too small.
- The getter takes brackets without a name, for rows that are arrays; the setter writes elsewhere
  (`ObjectPath.UnnamedWrite`, `ObjectPath.UnnamedLost`).
- A jump to the page right behind the last record is accepted (`Paging.PageChangeKeeps`).
- A header row in which no cell starts has no TR of its own: it is drawn into the TR of a row above,
  which it empties: the exact condition is in `HeaderDraw.HeaderRoundTrip`, and
  `HeaderDraw.TallCellLost` is a header that loses a cell.
- A server that sends no draw number back is taken at its word (`DrawProtocol.StaleWithoutEcho`).
- A row selected twice takes along rows behind it that are not selected (`TableCoherence.RemoveAllExact`
  has the exact condition, `TableCoherence.TwiceSelected` an input).
- A cursor left behind the records goes to the last page that is full, not to a shorter one after it
  (`Paging.OverflowIs`).
- A jump to a negative page moves the cursor in front of the rows, and drawing the page throws
  (`TableSettings.Settings.ChangePage`).

## Model

| member | source | states |
|---|---|---|
| TableRuns.RunsExact | htdocs/plugins/datatables/jquery.dataTables.js:2957-2997 | at the end of any run from an empty table the state is coherent, and an operation that searches displays exactly the rows passing the searches it asks for, in master order, and keeps those searches |
| TableRuns.StepSound | htdocs/plugins/datatables/jquery.dataTables.js:2099-2129 | every operation keeps coherence, keeps the last result fit for reuse, and leaves no sort undrawn |
| TableRuns.StepFrame | htdocs/plugins/datatables/jquery.dataTables.js:2099-2129 | what every operation sets and what it leaves: searches, sorting, lengths, data, lists and cursor; page changes, redraws and typing draw the rows of the page |
| TableRuns.SearchesExact | htdocs/plugins/datatables/jquery.dataTables.js:2837-2882 | typing shows what passes the text typed, a search by API what passes that search, a column search what passes it in its column, a redraw what passes the searches there are, sorted; stale caches included |
| TableRuns.Run | htdocs/plugins/datatables/jquery.dataTables.js:2099-2129 | runs are defined through the invariant: each state reached is sound again |
| TableRuns.Empty | htdocs/plugins/datatables/jquery.dataTables.js:1433-1438 | a table without rows is sound, whatever its search, columns and sorting |
| TableRuns.TypeSound | htdocs/plugins/datatables/jquery.dataTables.js:2769-2787 | typing into the search box goes on from the last result, searches for the text typed, displays what a full search for it would, and draws the first page |
| TableRuns.RedrawSound | htdocs/plugins/datatables/jquery.dataTables.js:2099-2129 | a redraw makes the master list its stable sort by the sorting columns, displays exactly its rows that pass, and draws the first page |
| TableRuns.ColumnSound | htdocs/plugins/datatables/jquery.dataTables.js:8729-8756 | a column search searches everything again, for the column searches with the new one and the global input |
| TableRuns.DrawSound | htdocs/plugins/datatables/jquery.dataTables.js:1958-2088 | drawing makes nodes but changes neither list |
| TableRuns.PageSound | htdocs/plugins/datatables/jquery.dataTables.js:3498-3561 | changing the page keeps the table sound, even if drawing a negative page throws |
| TableRuns.LengthSound | htdocs/plugins/datatables/jquery.dataTables.js:3358-3367 | so does changing the page length, which leaves the cursor on a page |
| TableRuns.CursorStep | htdocs/plugins/datatables/jquery.dataTables.js:3498-3561 | redraws, length changes, removals and changed inputs leave the cursor on a page; any other operation keeps it on one if and only if a jump goes to a page there is, clearing finds it at 0, and a search by API has more rows passing than are before it |
| TableRuns.RunsOnPage | htdocs/plugins/datatables/jquery.dataTables.js:3498-3561 | so over any run of a table whose steps meet these conditions the page length divides the cursor and the cursor is below the record count or zero |
| TableFiltering.SearchIsFull | htdocs/plugins/datatables/jquery.dataTables.js:2957-2997 | a search displays the full filter of the master list if it starts afresh, or narrows a reusable result |
| TableFiltering.ReuseIff | htdocs/plugins/datatables/jquery.dataTables.js:2977-2995 | reusing the last result is right in every table if and only if every old word lies in a new word, or nothing matches the new input |
| TableFiltering.ReuseIsFull | htdocs/plugins/datatables/jquery.dataTables.js:2957-2997 | filtering the last result for something narrower is filtering the master list |
| TableFiltering.PlainTyping | htdocs/plugins/datatables/jquery.dataTables.js:2769-2787 | typing on without quotes, or with smart search off, may always reuse the last result |
| TableFiltering.CompleteIs | htdocs/plugins/datatables/jquery.dataTables.js:2837-2882 | the global search and all column searches in turn are one filter by their conjunction |
| TableFiltering.ColumnsShow | htdocs/plugins/datatables/jquery.dataTables.js:2927-2944 | the column searches, one after the other, filter by all of them at once |
| TableFiltering.ColumnsPass | htdocs/plugins/datatables/jquery.dataTables.js:2922-2945 | a column search tests the cell of its own column, one without input passes every row |
| TableFiltering.RemoveFiltered | htdocs/plugins/datatables/jquery.dataTables.js:7803-7829 | removing a row from the lists and then filtering is filtering and then removing it |
| TableFiltering.RemoveAllFiltered | htdocs/plugins/datatables/jquery.dataTables.js:7803-7829 | so the result stays reusable when a selection is removed |
| TableFiltering.AddFiltered | htdocs/plugins/datatables/jquery.dataTables.js:1006-1041 | a row added is not displayed until its text is cached, and spoils nothing |
| TableFiltering.UpdateFiltered | htdocs/plugins/datatables/jquery.dataTables.js:1487-1529 | nor does a row whose cached text is dropped |
| TableFiltering.DrawFiltered | htdocs/plugins/datatables/jquery.dataTables.js:1958-2088 | drawing changes no text |
| TableSettings.Settings.FilterGlobal | htdocs/plugins/datatables/jquery.dataTables.js:2957-2997 | the loop that splices rows out from the end leaves the filter of the list it starts from: the master list, or the last result |
| TableSettings.Settings.FilterColumn | htdocs/plugins/datatables/jquery.dataTables.js:2927-2944 | the column loop leaves the rows whose cell matches, in order; an empty input leaves all |
| TableSettings.Settings.FilterData | htdocs/plugins/datatables/jquery.dataTables.js:3056-3118 | every row gets its cached text, and the result says whether any had none |
| TableSettings.Settings.FilterTable | htdocs/plugins/datatables/jquery.dataTables.js:2837-2882 | the global search, saving it, then every column search |
| TableSettings.Settings.RemoveRows | htdocs/plugins/datatables/jquery.dataTables.js:7803-7829 | for any selection, repeated rows included, the rows and both lists after the removals, and exactly when each is what it is meant to be |
| TableSettings.Settings.RemoveRow | htdocs/plugins/datatables/jquery.dataTables.js:7803-7829 | one removal: rows, node positions, both lists and the cursor; an entry behind the last row removes nothing |
| TableSettings.Settings.AddData | htdocs/plugins/datatables/jquery.dataTables.js:1006-1041 | the new row is last in the store and the master list, with a node unless rendering is deferred |
| TableSettings.Settings.CreateTr | htdocs/plugins/datatables/jquery.dataTables.js:1659-1678 | a row without a node gets a new one that has its position |
| TableSettings.Settings.ClearTable | htdocs/plugins/datatables/jquery.dataTables.js:1433-1438 | store and lists are emptied, the rest stays |
| TableSettings.Settings.Invalidate | htdocs/plugins/datatables/jquery.dataTables.js:1487-1529 | the row has its new data, and its cached text is dropped |
| TableSettings.Settings.SortMaster | htdocs/plugins/datatables/jquery.dataTables.js:4535-4658 | the master list is sorted by the sorting columns, or left alone if there are none; the sorted flag is set either way |
| TableSettings.Settings.DrawTable | htdocs/plugins/datatables/jquery.dataTables.js:1958-2088 | the rows of the page have nodes, and the sorted flag is cleared; in front of the first row drawing throws and changes nothing |
| TableSettings.Settings.ReDraw | htdocs/plugins/datatables/jquery.dataTables.js:2099-2129 | sort, search, first page, draw, as the features say |
| TableSettings.Settings.ChangePage | htdocs/plugins/datatables/jquery.dataTables.js:3498-3561 | the cursor moves as PageTargets says and the page is drawn if it did; drawing throws if and only if the cursor was moved in front of the rows, by a jump to a negative page |
| TableSettings.Settings.ChangeLength | htdocs/plugins/datatables/jquery.dataTables.js:3358-3367 | for a positive length or -1, the length is set and the cursor moved back onto a page |
| TableSettings.Settings.TypeSearch | htdocs/plugins/datatables/jquery.dataTables.js:2769-2787 | a changed input is searched for without force, from the first page |
| TableSettings.Settings.ApiSearch | htdocs/plugins/datatables/jquery.dataTables.js:8703-8726 | a search by API is forced, unless searching is off |
| TableSettings.Settings.ApiColumnSearch | htdocs/plugins/datatables/jquery.dataTables.js:8729-8756 | a column search by API is forced, unless searching is off |
| TableCoherence.RemoveAllExact | htdocs/plugins/datatables/jquery.dataTables.js:7803-7829 | removing a selection that is renumbered as it goes leaves exactly the rows not selected, in order, if and only if every row behind one selected twice is selected, too; the same for the master list, and for the displayed list with its own rows; a selection without duplicates always does; the table stays coherent, the cursor on a page |
| TableCoherence.RemoveAllIs | htdocs/plugins/datatables/jquery.dataTables.js:7803-7829 | for any selection the rows and lists left are those of the removals done one by one, and the table is coherent |
| TableCoherence.RemoveCoherent | htdocs/plugins/datatables/jquery.dataTables.js:7803-7829 | one removal keeps the permutation, the subset and the positions the nodes know, and backs the cursor up if there is nothing left to show |
| TableCoherence.ReindexedFits | htdocs/plugins/datatables/jquery.dataTables.js:7811-7816 | after the loop over the rows every node has the position of its row |
| TableCoherence.AddCoherent | htdocs/plugins/datatables/jquery.dataTables.js:1006-1041 | adding a row keeps the table coherent; the row is the last of the store and of the master list, has the data, keys and texts given, and a node unless rendering is deferred |
| TableCoherence.UpdateCoherent | htdocs/plugins/datatables/jquery.dataTables.js:1487-1529 | an updated row has the new data, keys and texts, nothing cached and its old node; nothing else changes |
| TableCoherence.DrawCoherent | htdocs/plugins/datatables/jquery.dataTables.js:1958-2088 | drawing keeps the table coherent; the rows with nodes afterwards are those that had them and those displayed from the cursor on, less than a page length away |
| TableCoherence.NodesOnly | htdocs/plugins/datatables/jquery.dataTables.js:1659-1678 | making nodes changes no data, and gives new nodes their positions |
| TableCoherence.FilterCoherent | htdocs/plugins/datatables/jquery.dataTables.js:2837-2882 | searching keeps the table coherent, whatever the state of the last result |
| TableCoherence.SortCoherent | htdocs/plugins/datatables/jquery.dataTables.js:4535-4658 | sorting keeps the master list a permutation |
| TableCoherence.RedrawCoherent | htdocs/plugins/datatables/jquery.dataTables.js:2099-2129 | a redraw keeps the table coherent |
| TableCoherence.TwiceSelected | htdocs/plugins/datatables/jquery.dataTables.js:7803-7829 | the condition fails for a table of two rows with the first selected twice, and both go |
| IndexLists.DeleteIndex | htdocs/plugins/datatables/jquery.dataTables.js:1448-1468 | greater entries are one less and the last entry that is the target is cut out, which leaves a list without duplicates without its target; without splice nothing is cut |
| Selections.SameRow | htdocs/plugins/datatables/jquery.dataTables.js:7803-7829 | a surviving position, moved down past what is gone, has the row it had |
| Selections.RowsExact | htdocs/plugins/datatables/jquery.dataTables.js:7803-7829 | one by one, the removals take exactly the rows selected if and only if every row behind one selected twice is selected, too; otherwise they take too many |
| Selections.ListExact | htdocs/plugins/datatables/jquery.dataTables.js:1448-1468 | the same for a list of rows, whatever rows it lists: it loses entries or has them too low exactly if some listed row behind a repetition is not selected |
| Selections.Fate | htdocs/plugins/datatables/jquery.dataTables.js:1448-1468 | a listed row that is selected goes; any other moves down by the number of entries below it, or goes along, which takes a repetition below it |
| Selections.RepetitionsCount | htdocs/plugins/datatables/jquery.dataTables.js:7803-7829 | the entries below a row are as many as the rows selected below it exactly if none of them is repeated |
| IndexLists.DeletedUnique | htdocs/plugins/datatables/jquery.dataTables.js:1448-1468 | a list without duplicates has none afterwards, and is one shorter exactly if it had the target |
| IndexLists.DeletedMembers | htdocs/plugins/datatables/jquery.dataTables.js:1448-1468 | the entries left are the renumbered others, and no more |
| IndexLists.FilterDeleted | htdocs/plugins/datatables/jquery.dataTables.js:1448-1468 | deletion commutes with any filter by properties of the rows |
| TableSort.Canonical | htdocs/plugins/datatables/jquery.dataTables.js:4599-4623 | a permutation is ordered by the comparator if and only if it is the stable sort by the columns: the outcome does not depend on the algorithm |
| TableSort.Compare | htdocs/plugins/datatables/jquery.dataTables.js:4601-4623 | the comparator is negative, positive or zero exactly as one row comes before the other by the columns, then by old position |
| TableSort.ComesTotal | htdocs/plugins/datatables/jquery.dataTables.js:4601-4623 | of two rows with different old positions exactly one comes first, and none before itself |
| TableSort.ComesTransitive | htdocs/plugins/datatables/jquery.dataTables.js:4601-4623 | coming before is transitive |
| TableSort.StableSortIs | htdocs/plugins/datatables/jquery.dataTables.js:4570-4623 | the stable sort is a permutation, ordered lexicographically by the columns, rows alike in their old order |
| TableSort.OneOrder | htdocs/plugins/datatables/jquery.dataTables.js:4599-4623 | two ordered permutations of the same list are the same |
| TableSort.ArraySort | htdocs/plugins/datatables/jquery.dataTables.js:4599-4623 | sorting with the comparator and the recorded positions is the stable sort by columns, which uses no positions |
| TableSort.RecordPositions | htdocs/plugins/datatables/jquery.dataTables.js:4574-4576 | aiOrig has the position of every row before the sort |
| TableSort.SortTwice | htdocs/plugins/datatables/jquery.dataTables.js:4570-4623 | sorting by some columns and then by others is sorting by the others first, then by those |
| TableSort.SortIdempotent | htdocs/plugins/datatables/jquery.dataTables.js:4570-4623 | sorting again changes nothing |
| TableSort.LessTotal | htdocs/plugins/datatables/jquery.dataTables.js:4611-4616 | the order of keys is total |
| TableSort.LessAt | htdocs/plugins/datatables/jquery.dataTables.js:4611-4616 | keys are ordered by the first place in which they differ, or the shorter one comes first |
| TableSort.LessNumbers | htdocs/plugins/datatables/jquery.dataTables.js:4611-4616 | number keys are ordered as the numbers |
| TableSort.NumbersSorted | htdocs/plugins/datatables/jquery.dataTables.js:4599-4623 | sorted by a column of numbers, they increase down the list for an ascending column and decrease for a descending one |
| TableSearch.NarrowerIff | htdocs/plugins/datatables/jquery.dataTables.js:3009-3036 | an input matches only what another one matches, in all texts, if and only if every word of the other lies in one of its words, or it matches nothing |
| TableSearch.SmartMatch | htdocs/plugins/datatables/jquery.dataTables.js:3009-3036 | a smart input without quotes matches a text on one line exactly when each of its stretches between spaces is found in it, in any order |
| TableSearch.PhraseMatch | htdocs/plugins/datatables/jquery.dataTables.js:3023-3030 | a phrase in quotes matches where it is found as it stands, spaces included |
| TableSearch.FoundIs | htdocs/plugins/datatables/jquery.dataTables.js:3035-3036 | a word is found exactly where its characters stand, in any letter case if the search is insensitive |
| TableSearch.CaseBlind | htdocs/plugins/datatables/jquery.dataTables.js:3035-3036 | an insensitive search does not see the case of text or words |
| TableSearch.MatchCaseBlind | htdocs/plugins/datatables/jquery.dataTables.js:3009-3036 | an insensitive search matches the same texts whatever the letter case of input and text, quotes included |
| TableSearch.OneLine | htdocs/plugins/datatables/jquery.dataTables.js:3032-3032 | a smart search matches no text of several lines |
| Table.FoundInCell | htdocs/plugins/datatables/jquery.dataTables.js:3112-3113 | a word without spaces is found in the text of a row exactly when it is found in one of its cells |
| Table.TwoCells | htdocs/plugins/datatables/jquery.dataTables.js:3112-3113 | the text of a row has two spaces between its cells |
| TableSearch.ExtensionNarrows | htdocs/plugins/datatables/jquery.dataTables.js:3009-3036 | extending an input without quotes, or a search that is not smart, can only narrow it |
| TableSearch.NarrowsSuffices | htdocs/plugins/datatables/jquery.dataTables.js:3009-3036 | if every old word lies in a new word, a text with the new words has the old ones |
| TableSearch.Escapes | htdocs/plugins/datatables/jquery.dataTables.js:3009-3036 | if some word lies in none of the others, a text has all the others and not that word |
| TableSearch.TokenShape | htdocs/plugins/datatables/jquery.dataTables.js:3023-3030 | a token has no space or is a phrase between two quotes |
| TableSearch.WordShape | htdocs/plugins/datatables/jquery.dataTables.js:3023-3030 | no word on one line has both a space and a quote in it |
| TableSearch.PlainTokens | htdocs/plugins/datatables/jquery.dataTables.js:3023-3023 | each word of an input without quotes lies in a word of any extension without quotes |
| TableSearch.QuotesWiden | htdocs/plugins/datatables/jquery.dataTables.js:3023-3030 | a quote typed at the end can widen a search |
| Paging.PageChangeKeeps | htdocs/plugins/datatables/jquery.dataTables.js:3498-3561 | a page change keeps the cursor on a page if and only if it is no jump to a negative page or right behind the records |
| Paging.PageTargets | htdocs/plugins/datatables/jquery.dataTables.js:3498-3561 | first, previous, next, last and jumps go to the pages they name: the previous window ends where the present one starts, the next starts where it ends, the last ends with the records |
| Paging.NextPrevious | htdocs/plugins/datatables/jquery.dataTables.js:3498-3561 | previous undoes next |
| Paging.OverflowEstablishes | htdocs/plugins/datatables/jquery.dataTables.js:5251-5273 | whatever the cursor was, it is on a page afterwards |
| Paging.OverflowIs | htdocs/plugins/datatables/jquery.dataTables.js:5251-5273 | the cursor goes to the beginning of the page it lies in, or, with no record left there, of the last full page, or to 0 |
| Paging.OverflowKeeps | htdocs/plugins/datatables/jquery.dataTables.js:5251-5273 | a cursor on a page stays |
| Paging.RunsStayOnPage | htdocs/plugins/datatables/jquery.dataTables.js:3498-3561 | over any run of page changes, length changes and removals the length divides the cursor, and the cursor is below the record count or zero |
| Paging.WalkCovers | htdocs/plugins/datatables/jquery.dataTables.js:3498-3561 | walking next from the first page shows all records, each once and in order, and ends where last goes |
| HeaderDraw.HeaderRoundTrip | htdocs/plugins/datatables/jquery.dataTables.js:1860-1950 | reading a tiling, spans of 1 written out or not and anything else between the cells, hiding any columns and drawing it leaves exactly the HTML of the restricted tiling, and reading that gives the restricted tiling; with the exact condition on rows in which no cell starts |
| HeaderDraw.RedrawnExact | htdocs/plugins/datatables/jquery.dataTables.js:1860-1950 | drawing gives every row its cells if and only if no row without cells of its own empties the TR of one that shows some |
| HeaderDraw.TrsOfDetected | htdocs/plugins/datatables/jquery.dataTables.js:2292-2356 | the detected TR of a row is its own if a cell starts in it, or that of such a row above |
| HeaderDraw.TallCellLost | htdocs/plugins/datatables/jquery.dataTables.js:1893-1946 | a cell over two rows, the second with no cell of its own, is lost when its header is read and drawn as it is |
| HeaderDraw.TableHead.DrawHead | htdocs/plugins/datatables/jquery.dataTables.js:1860-1950 | each TR holds the cells of its rows that cover a shown column, once, with the spans of their rectangles restricted to the shown columns |
| HeaderDraw.TableHead.DrawLocal | htdocs/plugins/datatables/jquery.dataTables.js:1893-1946 | drawing the grid of shown columns gives the HTML of its tiling, row by row |
| HeaderDraw.TableHead.DrawRow | htdocs/plugins/datatables/jquery.dataTables.js:1893-1946 | one row: its TR is emptied and gets the cells that start in it |
| HeaderDraw.Expand | htdocs/plugins/datatables/jquery.dataTables.js:1918-1941 | growing a cell down and to the right finds its rectangle and marks it |
| HeaderDraw.HideColumns | htdocs/plugins/datatables/jquery.dataTables.js:1878-1891 | the splice loop leaves the shown columns |
| HeaderDraw.ShownIs | htdocs/plugins/datatables/jquery.dataTables.js:1887-1887 | a column is drawn if hidden ones are included or it is visible |
| HeaderLayout.DetectHtml | htdocs/plugins/datatables/jquery.dataTables.js:2292-2356 | detecting the HTML of any tiling by rectangles gives the tiling back, cell by cell |
| HeaderLayout.DetectLoose | htdocs/plugins/datatables/jquery.dataTables.js:2292-2356 | detecting a header gives its tiling back, whether its spans of 1 are written out or not, and whatever stands between its cells |
| HeaderLayout.PlainCell | htdocs/plugins/datatables/jquery.dataTables.js:2329-2330 | a cell without span attributes takes one place |
| HeaderLayout.DetectHeader | htdocs/plugins/datatables/jquery.dataTables.js:2292-2356 | the detection loops are the placement function, error case included |
| HeaderLayout.PlaceCell | htdocs/plugins/datatables/jquery.dataTables.js:2331-2350 | one cell is put at the first free column and copied over its spans |
| HeaderLayout.OwnRows | htdocs/plugins/datatables/jquery.dataTables.js:2292-2356 | if every row starts a cell, every row keeps its own TR |
| HeaderGrid.HtmlOnce | htdocs/plugins/datatables/jquery.dataTables.js:1893-1946 | the HTML has every cell once, in the row it starts in, with the spans of its rectangle |
| HeaderGrid.RestrictTiles | htdocs/plugins/datatables/jquery.dataTables.js:1878-1891 | hiding columns leaves a tiling by the shrunk rectangles |
| DrawProtocol.AppliedOnlyIfLatest | htdocs/plugins/datatables/jquery.dataTables.js:2676-2715 | in every reachable state a response is applied if and only if no newer request has been issued, applied draw numbers never decrease, and the page shown is that of the last response applied, with a server that echoes; without, every response is applied |
| DrawProtocol.LatestStays | htdocs/plugins/datatables/jquery.dataTables.js:2676-2715 | once the latest response has been applied nothing but a new request changes what is shown |
| DrawProtocol.LatestRequested | htdocs/plugins/datatables/jquery.dataTables.js:2537-2548 | the draw number is that of the latest request |
| DrawProtocol.DeferredOnce | htdocs/plugins/datatables/jquery.dataTables.js:1996-2010 | deferred loading skips one request: the second draw sends request number 2 |
| DrawProtocol.StaleWithoutEcho | htdocs/plugins/datatables/jquery.dataTables.js:2684-2692 | without draw numbers in the responses an older page can replace a newer one |
| DrawProtocol.ServerTable.AjaxUpdateDraw | htdocs/plugins/datatables/jquery.dataTables.js:2676-2715 | a response out of sequence changes nothing; any other replaces rows, lists and counts |
| DrawProtocol.ServerTable.AjaxUpdate | htdocs/plugins/datatables/jquery.dataTables.js:2537-2548 | a request is sent with the next draw number, unless a response is being drawn |
| DrawProtocol.ServerTable.Draw | htdocs/plugins/datatables/jquery.dataTables.js:1995-2010 | deferred loading skips the first request |
| ObjectPath.WriteReads | htdocs/plugins/datatables/jquery.dataTables.js:1313-1413 | a value written to any path of any data reads back exactly in the cases ReadsBack lists: nothing but objects, arrays and missing nodes in the way, arrays where the path has named brackets, entries alike; for brackets without a name, a value that reading gave anyway |
| ObjectPath.SetReturns | htdocs/plugins/datatables/jquery.dataTables.js:1340-1400 | writing throws exactly when a primitive is in the way or brackets before the end meet null or undefined |
| ObjectPath.UnnamedWrite | htdocs/plugins/datatables/jquery.dataTables.js:1249-1252 | brackets without a name read the same after a write, whatever was written |
| ObjectPath.UnnamedLost | htdocs/plugins/datatables/jquery.dataTables.js:1249-1252 | a matching value written through them is lost |
| ObjectPath.WriteFrames | htdocs/plugins/datatables/jquery.dataTables.js:1313-1413 | every property off the written path is unchanged |
| ObjectPath.WriteTwice | htdocs/plugins/datatables/jquery.dataTables.js:1313-1413 | the last of two writes wins, whenever the first does not throw |
| ObjectPath.ReadWrites | htdocs/plugins/datatables/jquery.dataTables.js:1190-1300 | writing what a plain path reads changes nothing |
| ObjectPath.PlainReads | htdocs/plugins/datatables/jquery.dataTables.js:1232-1284 | reading a plain path throws for missing data only, and ends with undefined at a node that is null or a property that is missing |
| ObjectPath.SplitJoin | htdocs/plugins/datatables/jquery.dataTables.js:1175-1180 | joining names with dots and splitting again gives the names |
| MonthMover.MoveMonth | htdocs/plugins/datepicker/bootstrap-datepicker.js:1055-1103 | for every date and distance the loop terminates in the month exactly that far away, on the same day or the last of the month; zero returns the date itself |
| MonthMover.MoveYear | htdocs/plugins/datepicker/bootstrap-datepicker.js:1105-1107 | twelve months a year |
| MonthMover.MovedParts | htdocs/plugins/datepicker/bootstrap-datepicker.js:1055-1103 | the month is right, the day clamped, the time of day kept |
| MonthMover.ResetStep | htdocs/plugins/datepicker/bootstrap-datepicker.js:1098-1101 | one turn of the resetting loop from a wrong month |
| MonthMover.WrappedMonth | htdocs/plugins/datepicker/bootstrap-datepicker.js:1079-1083 | the month number compared with after December and before January |
| MonthAgreement.MoversAgree | htdocs/plugins/daterangepicker/moment.js:675-690 | the loop of the picker and the closed form of moment agree if and only if Date.UTC does not mislead moment |
| MonthArithmetic.SetMonthExact | htdocs/plugins/daterangepicker/moment.js:675-690 | setMonth clamps to the end of the target month, except exactly for the 29th and later of the years 0 to 99 into a February whose leap day depends on the century |
| MonthArithmetic.DaysInMonthIsLength | htdocs/plugins/daterangepicker/moment.js:587-589 | daysInMonth is the length of the month, in the year Date.UTC makes of it |
| MonthArithmetic.Lands | htdocs/plugins/daterangepicker/moment.js:675-690 | where added months land |
| MonthArithmetic.AddMonthsIncreases | htdocs/plugins/daterangepicker/moment.js:1785-1803 | one month more is later |
| MonthArithmetic.AddMonthsOrder | htdocs/plugins/daterangepicker/moment.js:1785-1803 | more months are later |
| MonthArithmetic.DifferenceIsFloor | htdocs/plugins/daterangepicker/moment.js:1741-1753 | for base before other, months are at least 0 and base + months + milliseconds = other; milliseconds are at least 0 and other < base + (months + 1) if and only if no misled overflow skips other |
| MonthArithmetic.SkippedByOne | htdocs/plugins/daterangepicker/moment.js:1741-1753 | if one does, the difference is one month too many |
| MonthArithmetic.FloorUnique | htdocs/plugins/daterangepicker/moment.js:1741-1753 | only one pair of months and milliseconds is such a floor |
| MonthArithmetic.MonthDiffTruncates | htdocs/plugins/daterangepicker/moment.js:1901-1919 | the truncated fractional difference is minus the whole-month difference, if and only if no misled overflow skips other |
| MonthArithmetic.AdjustWithinMonth | htdocs/plugins/daterangepicker/moment.js:1901-1919 | the linear adjustment lies strictly between -1 and 1, exactly without such an overflow, and is negative exactly before the anchor |
| MonthArithmetic.SpanIs | htdocs/plugins/daterangepicker/moment.js:1901-1919 | the divisor is the length of a month of clamped addition and not zero |
| MonthArithmetic.MonthDiffExact | htdocs/plugins/daterangepicker/moment.js:1901-1919 | minus the difference, less the whole months, is what b is off the anchor as a share of the month on that side |
| MonthArithmetic.MonthDiffBackwards | htdocs/plugins/daterangepicker/moment.js:1901-1919 | for every b up to a the truncated difference is the least number of months, as a negative one, that reaches b or passes it |
| MonthArithmetic.SkipHappens | htdocs/plugins/daterangepicker/moment.js:1741-1753 | from noon on the last day of the year 99 to March 1 of the year 100, month setting clamps wrongly, the difference is no floor, the truncation differs from it and the adjustment leaves the bounds |
| Periods.PeriodsPartitionTime | htdocs/plugins/daterangepicker/moment.js:1997-2046 | every instant is between its startOf and endOf, startOf is idempotent, instants share a startOf exactly if they share a period, and the instant after endOf is the next startOf |
| Periods.PeriodExact | htdocs/plugins/daterangepicker/moment.js:1997-2046 | a period is exactly the instants with its index |
| Periods.BoundaryFields | htdocs/plugins/daterangepicker/moment.js:1997-2038 | boundaries have the fields their unit resets: first months, first days, first weekdays, midnight, whole hours, minutes and seconds |
| Moments.Moment.StartOf | htdocs/plugins/daterangepicker/moment.js:1997-2038 | the fall-through switch and the fix-ups for weeks and quarters arrive at the beginning of the period |
| Moments.Moment.EndOf | htdocs/plugins/daterangepicker/moment.js:2040-2046 | adding one unit to startOf and subtracting a millisecond arrives at the end of the period |
| Moments.Moment.Add | htdocs/plugins/daterangepicker/moment.js:1785-1803 | milliseconds, then days, then months |
| Moments.AddedIs | htdocs/plugins/daterangepicker/moment.js:1785-1803 | a span added or subtracted moves the instant by its milliseconds and days, and from there by its months, in the direction of the sign |
| Moments.AddedLands | htdocs/plugins/daterangepicker/moment.js:1785-1803 | it lands in the month that many months on or back, on the same day or the last of that month, except where Date.UTC misleads |
| Moments.Moment.SetMonth | htdocs/plugins/daterangepicker/moment.js:675-690 | the day is clamped before the month is set |
| Moments.Moment.ResetTime | htdocs/plugins/daterangepicker/moment.js:2012-2022 | the time fields that survive |
| Moments.PositiveMomentsDifference | htdocs/plugins/daterangepicker/moment.js:1741-1753 | computed on clones, base and other unchanged |
| Moments.MonthDifference | htdocs/plugins/daterangepicker/moment.js:1901-1919 | computed on clones, a and b unchanged |
| Moments.NextPeriod | htdocs/plugins/daterangepicker/moment.js:2040-2046 | one unit after a boundary, less a millisecond, is the end of the period, also for quarters and weeks |
| Moments.WeekFixUp | htdocs/plugins/daterangepicker/moment.js:2025-2027 | setting the locale weekday to 0 goes back to the first day of the week |
| Moments.IsoWeekFixUp | htdocs/plugins/daterangepicker/moment.js:2028-2030 | setting the ISO weekday to 1 goes back to Monday, Sundays too |
| Moments.QuarterFixUp | htdocs/plugins/daterangepicker/moment.js:2033-2035 | setting the month goes back to the first of the quarter |
| Moments.SwitchResets | htdocs/plugins/daterangepicker/moment.js:2001-2022 | what the fall-through cases leave |
| WeekDates.WeekDateRoundTrip | htdocs/plugins/daterangepicker/moment.js:933-952 | week date and back denotes the original day, across both ends of the year, if and only if its year is not misplaced |
| WeekDates.AlwaysRoundTrips | htdocs/plugins/daterangepicker/moment.js:1002-1016 | every day round-trips if and only if weeks start on Sunday or Monday, or the first week is the one with January 1 |
| WeekDates.OrdinalRoundTrip | htdocs/plugins/daterangepicker/moment.js:1002-1016 | a week number the year has and a position in the week denote a day with that week date and position, if and only if the year is not misplaced |
| WeekDates.OrdinalYear | htdocs/plugins/daterangepicker/moment.js:1012-1015 | the ordinal date is in the year asked for, or in the one before if the day lies before it |
| WeekDates.WeekIs | htdocs/plugins/daterangepicker/moment.js:933-952 | the week number counts the weeks from the first one that has the anchor weekday |
| WeekDates.WeekYearIs | htdocs/plugins/daterangepicker/moment.js:933-952 | the week year is the year of the week's anchor day |
| WeekDates.WeekCount | htdocs/plugins/daterangepicker/moment.js:2120-2122 | a year has 52 or 53 weeks, those whose anchor lies within it |
| WeekDates.FirstAnchorCases | htdocs/plugins/daterangepicker/moment.js:1002-1010 | where daysToAdd misses the first week |
| WeekDates.AnchorWeekday | htdocs/plugins/daterangepicker/moment.js:1002-1010 | the anchor of a year is a day of weekday doy |
| Durations.Duration.Bubble | htdocs/plugins/daterangepicker/moment.js:2806-2846 | the in-place carries give the fields |
| Durations.ClockConserved | htdocs/plugins/daterangepicker/moment.js:2806-2823 | milliseconds, seconds, minutes, hours and the days carried out are the milliseconds, each within its unit and of their sign |
| Durations.DateConserved | htdocs/plugins/daterangepicker/moment.js:2825-2843 | no day or month is lost: years taken from the days, 30-day months, 12-month years; fields within their units |
| Durations.YearsTakenOut | htdocs/plugins/daterangepicker/moment.js:2848-2857 | what is left of the days is below 367, of their sign, and 0 on whole 400-year cycles |
| Durations.YearsAreMeans | htdocs/plugins/daterangepicker/moment.js:2848-2857 | the days of years are the whole days of their mean length, the years of days the greatest number whose mean length they reach |
| Durations.BubbleIsOdd | htdocs/plugins/daterangepicker/moment.js:2806-2846 | the opposite duration has the opposite fields |
| Durations.ClockUnique | htdocs/plugins/daterangepicker/moment.js:2806-2823 | no other clock fields within their units and of one sign make up the milliseconds |
| MonthGrid.DayView.Fill | htdocs/plugins/datepicker/bootstrap-datepicker.js:758-811 | the loop renders 42 days from the first cell on, with their row and week-number tags |
| MonthGrid.GridLayout | htdocs/plugins/datepicker/bootstrap-datepicker.js:758-811 | the html is six complete weeks from weekStart on, with at least a day before the month and the whole month inside |
| MonthGrid.HtmlAt | htdocs/plugins/datepicker/bootstrap-datepicker.js:764-811 | where everything is in the html: six rows opened and closed, each with its week number if asked for and its seven days in order |
| MonthGrid.ClickRoundTrip | htdocs/plugins/datepicker/bootstrap-datepicker.js:981-1005 | clicking a cell gives the date rendered there if and only if the date is not out of reach: for a viewed year outside 0 to 99 its year must be outside, too; for one of those years the cell must be of the last month laid out, and the month after the one viewed before the year 100 |
| MonthGrid.ClickTwoDigit | htdocs/plugins/datepicker/bootstrap-datepicker.js:981-1005 | in the years 0 to 99 a click yields the month after the one viewed, moved 1900 years while it is before the year 100 |
| MonthGrid.TwoDigitGrid | htdocs/plugins/datepicker/bootstrap-datepicker.js:758-811 | for the years 0 to 99 every cell is marked as of a later month |
| MonthGrid.CellClasses | htdocs/plugins/datepicker/bootstrap-datepicker.js:700-710 | old and new exactly as the month of the day is before or after the one viewed, never both |
| MonthGrid.CalWeekIsWeekOfYear | htdocs/plugins/datepicker/bootstrap-datepicker.js:770-787 | the week number shown is that of weekOfYear for the same first weekday, exactly when Date.UTC does not move the year |
| MonthGrid.DaysInMonthAgree | htdocs/plugins/datepicker/bootstrap-datepicker.js:1448-1453 | getDaysInMonth is the length of the month |
| MonthGrid.FirstCellReached | htdocs/plugins/datepicker/bootstrap-datepicker.js:758-761 | the three steps from the 28th of the month before reach the first cell |
| DateText.FormatParseRoundTrip | htdocs/plugins/datepicker/bootstrap-datepicker.js:1466-1598 | parsing a formatted date gives its day at the time of day of today, and so the date back if and only if its year is not negative and the times of day agree; for any order and repetition of the parts |
| DateText.TypedDate | htdocs/plugins/datepicker/bootstrap-datepicker.js:1499-1570 | whatever numbers are typed for year, month and day: the month counts modulo twelve within the year, a day beyond the month goes on into the next |
| DateText.MonthTyped | htdocs/plugins/datepicker/bootstrap-datepicker.js:1509-1519 | a month alone keeps today's year, and its day as far as the month has it |
| DateText.NothingTyped | htdocs/plugins/datepicker/bootstrap-datepicker.js:1530-1570 | a text with too few or too many words, or without numbers, is today |
| DateText.FormatDate | htdocs/plugins/datepicker/bootstrap-datepicker.js:1573-1598 | the text is the parts, each after its separator, and the last separator |
| DateText.ThreeParts | htdocs/plugins/datepicker/bootstrap-datepicker.js:1589-1597 | a format of three parts: each part after its separator, the last separator at the end |
| DateText.PartWidths | htdocs/plugins/datepicker/bootstrap-datepicker.js:1578-1589 | mm and dd have two characters, m and d no leading zero |
| DateText.DigitsEnd | htdocs/plugins/datepicker/bootstrap-datepicker.js:1578-1587 | a number is written with its last digit after the others |
| DateText.ParseDate | htdocs/plugins/datepicker/bootstrap-datepicker.js:1498-1572 | the loops of the parser, with today for what is missing |
| DateText.SetMonthOf | htdocs/plugins/datepicker/bootstrap-datepicker.js:1509-1518 | the month setter terminates, on the last day of a month that is too short |
| DateText.SetPart | htdocs/plugins/datepicker/bootstrap-datepicker.js:1501-1526 | the setter of each part |
| DateText.NeverRelative | htdocs/plugins/datepicker/bootstrap-datepicker.js:1473-1476 | formatted text has no letter and is never taken for a relative date |
| DateText.TokensOfText | htdocs/plugins/datepicker/bootstrap-datepicker.js:1455-1455 | splitting formatted text gives the digits of the parts |
| DateText.UsualSeparators | htdocs/plugins/datepicker/bootstrap-datepicker.js:1455-1455 | the usual separators split words, letters and digits do not |
| DateText.ParseDigits | htdocs/plugins/datepicker/bootstrap-datepicker.js:1544-1544 | numbers read back, leading zero or not |
| DateText.ParseNumber | htdocs/plugins/datepicker/bootstrap-datepicker.js:1544-1544 | a word is read as the number it begins with, and is not a number if it begins with none |
| RangePicker.DateRangePicker.DateUpdated | htdocs/plugins/datepicker/bootstrap-datepicker.js:1276-1311 | re-entrant calls change nothing; otherwise the pickers and the dates are those of the sweep, and the flag is cleared, except for a foreign target |
| RangePicker.DateRangePicker.SetUTCDate | htdocs/plugins/datepicker/bootstrap-datepicker.js:490-498 | setting a date updates the picker and runs the handler, or only updates it while one is running |
| RangePicker.DateRangePicker.Clear | htdocs/plugins/datepicker/bootstrap-datepicker.js:939-949 | clearing a picker empties it and changes no other |
| RangePicker.KeptIs | htdocs/plugins/datepicker/bootstrap-datepicker.js:636-642 | a picker keeps a date from its start to its end, both included, and no other |
| RangePicker.CascadeIs | htdocs/plugins/datepicker/bootstrap-datepicker.js:1276-1311 | a move sets exactly the picker moved and those it reaches, up to the first empty one, and empties those that do not accept the date; an empty picker stays empty, and a picker that does not accept its own date reaches none |
| RangePicker.OrderKept | htdocs/plugins/datepicker/bootstrap-datepicker.js:1276-1311 | from any pickers in order, empty ones included, those with a date stay in order if and only if the picker moved drops its date or reaches all it passes, no empty one on the way or in its own place |
| RangePicker.NeighboursFollow | htdocs/plugins/datepicker/bootstrap-datepicker.js:1276-1311 | every neighbour with a date is at the minimum, or maximum, of its date and the new one if and only if the picker moved accepts it, reaches all it passes, and these accept it, too |
| RangePicker.FullRowKept | htdocs/plugins/datepicker/bootstrap-datepicker.js:1276-1311 | a row without empty pickers keeps its order, and keeps its dates if and only if the picker moved and all it passes accept the new one |
| RangePicker.RunsKeepOrder | htdocs/plugins/datepicker/bootstrap-datepicker.js:1276-1311 | over any run of moves and clearings, from empty pickers or others in order, they are in order all along if and only if every picker moved reaches all it passes or drops its date |
| RangePicker.FullRunsKeepOrder | htdocs/plugins/datepicker/bootstrap-datepicker.js:1276-1311 | without bounds, empty pickers and clearings no run of moves gets them out of order |
| RangePicker.EmptyStartBreaks | htdocs/plugins/datepicker/bootstrap-datepicker.js:1291-1294 | from two empty pickers, the second set first, the first goes past it: no picker is filled and none swept |
| RangePicker.ClearedGapBreaks | htdocs/plugins/datepicker/bootstrap-datepicker.js:1297-1307 | a picker cleared between two others stops the sweep, and the first goes past the last |
| Dates.UTCDateRoundTrip | htdocs/plugins/datepicker/bootstrap-datepicker.js:27-29 | the date of the fields of a day is that day, if and only if its year is not one of 0 to 99 |
| Dates.UTCDateFields | htdocs/plugins/datepicker/bootstrap-datepicker.js:27-29 | the fields of a valid date are those it was made of, with the same exception |
| Gregorian.Epoch | htdocs/plugins/daterangepicker/moment.js:1002-1003 | day 0 is Thursday, January 1 of 1970 |

## Left out

- DOM structure, events, callbacks, CSS classes other than old and new, scrolling and column widths: header cells and row nodes are identities, and a draw is what it does to them. Draws cancelled by a preDraw callback are not modelled.
- A TH element that is appended while it is still in another TR moves there in a browser; since every TR drawn is emptied first, the model leaves that out.
- Local time zones, daylight saving and the 8.64e15 ms limit of dates: everything is UTC and unbounded.
- Floating point: month differences are exact reals, durations and offsets whole numbers.
- Locales, month names and weekday names, and with them the format parts yy, M, MM, D and DD; moment's string parser; relative dates such as +1m in parseDate.
- parseInt on words with leading blanks or signs, which the word splitting cannot produce from formatted text.
- Searches in regex mode, the custom filters of ext.search, case folding beyond ASCII, and characters beyond the Basic Multilingual Plane as pairs of code units.
- HTML entities and line breaks in cell data, column type detection, and formatters: cached texts and sort keys are taken as given. Sort keys are strings of code units, or numbers as lists of one; NaN keys and comparators of old sort plug-ins are not modelled.
- The order in which Array.sort calls the comparator: one algorithm stands for all, since the outcome is proved not to depend on it.
- Rows read from TR elements of the page, and initial positions restored from saved state.
- TableRuns.LengthSound: page lengths of 0, which make the cursor NaN, and below -1 are not modelled.
- TableSettings.Settings.ChangeLength: the same lengths are not modelled.
- Redraws that hold the position.
- Runs of tables are of those whose rows are all in the browser; for the others the protocol alone is modelled, without network errors.
- Numeric array indexes, array lengths, join strings, function segments and escaped dots in paths. Strings are primitive values: brackets do not iterate over their characters, and property reads see neither their length nor anything on a prototype. Path data are trees, written as new values: sharing between rows and update in place are not captured.
- Multidate pickers and the disabled, today and range classes of cells.
- The other scripts of the repository (htdocs/plugins/daterangepicker/daterangepicker.js, htdocs/bootstrap/js/bootstrap.js, htdocs/plugins/slimScroll/jquery.slimscroll.js, htdocs/js): interface code, or easier versions of what is proved here.
