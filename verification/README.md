# Medical timeline: layout, row conversion and category matching

This project models the logic of the single-page medical timeline
(`app/page.tsx`). The page reads its events from a spreadsheet, classifies
each one into one of seven categories and lays the visible events out on a
vertical timeline with year markers. The following parts are modelled:

- **Layout** (`layout.dfy`, `sorting.dfy`). This is the memoised computation of the page:
  - keep the events whose category is active;
  - annotate each with its index in the filtered list, its time stamp and its year;
  - sort stably by time stamp;
  - give each event a vertical position with a running cursor. The cursor
    starts at 60, adds 60 before the first event of every year and 140 after
    every event;
  - place a marker for every year from 2019 to 2027;
  - size the canvas.
- **Category matching** (`categories.dfy`, `text.dfy`). The label is
  lower-cased and the category keys are tried in the order the colour table
  declares them. The first key contained in the label wins. When no key is
  contained, the result is `injury`.
- **Row conversion** (`rows.dfy`). This is the loop of the fetch handler over
  the decoded spreadsheet rows:
  - the header row is skipped;
  - short rows are skipped;
  - the left/right side alternates over the remaining rows;
  - rows with no date or no title are dropped after the flip;
  - the category cell is trimmed and matched.
- **Click handlers** (`ui.dfy`). These are toggling a category in the legend
  and expanding or collapsing an event card.

Date parsing belongs to the JavaScript runtime. The layout therefore takes
every event with its time stamp and year already computed
(`Events.Dated`). The fetch itself, JSON decoding, toasts and rendering are
outside the model. The row loop works on already decoded rows of string cells.

Line 130 also moves the cursor down by 60 before the very first event, so
two 2020 events and one 2021 event sit at 120, 260 and 460, with markers at
90 and 430 and a canvas 660 high; `Layout.ThreeEventPositions`,
`Layout.ThreeEventMarkers` and `Layout.ThreeEventHeight` prove these numbers.

## Model

| member | source | states |
|---|---|---|
| Layout.FilterActive | app/page.tsx:117 | an event survives the filter exactly when its category is active, and it appears as often as in the input |
| Layout.FilterAppend | app/page.tsx:117 | filtering keeps relative order: it distributes over concatenation |
| Layout.FilterSameMembership | app/page.tsx:117 | the filtered list depends only on which categories are active, not on their order or repetition |
| Layout.FilterKeepsAll | app/page.tsx:117 | when every event's category is active, the filter returns the events unchanged |
| Layout.Visible | app/page.tsx:117-124 | the display order: filter, annotate, stable sort (its properties are in `Layout.VisibleIsStableSort`) |
| Layout.Annotate | app/page.tsx:118-123 | each annotated element carries its index in the filtered list and that event's date data |
| Sorting.Insert | app/page.tsx:124 | insertion adds exactly one element to the multiset |
| Sorting.InsertSorted | app/page.tsx:124 | insertion keeps a time-ordered list time-ordered |
| Sorting.InsertStable | app/page.tsx:124 | inserting an element that precedes all others in input order keeps the list stably sorted |
| Sorting.SortByTimestamp | app/page.tsx:124 | the sort returns a permutation of its input ordered by time stamp |
| Sorting.SortIsStable | app/page.tsx:124 | elements with equal time stamps keep their input order |
| Sorting.StableSortUnique | app/page.tsx:124 | any two stably sorted permutations of the same elements are equal, so the stable sort's result is determined |
| Layout.VisibleIsStableSort | app/page.tsx:117-124 | the display order is a stably sorted permutation of the annotated filtered events, and each element is the filtered event its index names |
| Layout.Here | app/page.tsx:129-130 | the cursor value an event takes: the cursor itself for a seen year, the cursor plus 60 (the value of `Math.max(c, c + 60)`) at a new year |
| Layout.Record | app/page.tsx:129-131 | a new year is recorded at the cursor plus 60; the years already recorded keep their starts |
| Layout.Place | app/page.tsx:125-135 | the loop positions every event in order and records a start for every year it sees, keeping the starts already recorded |
| Layout.NewYearsCountsYears | app/page.tsx:129-131 | the number of padding steps equals the number of distinct years not seen before |
| Layout.PlaceClosedForm | app/page.tsx:125-135 | the i-th position equals the starting cursor plus 140 i plus 60 per year opened among the first i + 1 events |
| Layout.PositionAt | app/page.tsx:125-135 | from the base offset, position i is 60 + 140 i + 60 times the number of distinct years among events 0..i |
| Layout.PositionClosedForm | app/page.tsx:125-135 | the closed form above holds for every index |
| Layout.FirstOfYearIff | app/page.tsx:129 | an event opens a year exactly when its year is absent from the events before it |
| Layout.YearsCountStep | app/page.tsx:129-131 | the distinct-year count grows by one exactly at the first event of a year |
| Layout.PlacedStepAt | app/page.tsx:129-134 | consecutive events are 140 apart, or 200 when the later one opens a year |
| Layout.PlacedSpacing | app/page.tsx:126-134 | the first event sits at 120, and every step is 140 or 200 as above |
| Layout.PlacedGap | app/page.tsx:134 | positions strictly increase, by at least 140 per intervening event |
| Layout.PlaceYearStart | app/page.tsx:129-133 | the start recorded for a year is the position of that year's first event |
| Layout.PlacedYearStarts | app/page.tsx:127-133 | starts are recorded for exactly the years of the visible events, each at its first event's position |
| Layout.MaxOf | app/page.tsx:144 | the maximum of a non-empty list is an element no smaller than any other |
| Layout.EarlierYearsWithStart | app/page.tsx:142 | the earlier years are exactly the range years below the given year that have a start |
| Layout.PositionsOfYear | app/page.tsx:145 | the list holds exactly the positions of the events of the given year |
| Layout.YearMarker | app/page.tsx:137-151 | the marker of one year: its start minus 30, else the lowest event of the latest earlier year with a start plus 140, else 60 (its properties are in the marker lemmas below) |
| Layout.YearPositions | app/page.tsx:136-152 | there is a marker for every year of 2019..2027 and for no other year |
| Layout.LatestEarlierYear | app/page.tsx:142-144 | the latest earlier year with a start is the one with no year with a start between it and the given year |
| Layout.MarkerAfterYear | app/page.tsx:141-147 | given an event of the latest earlier year with a start, a year without a start gets the lowest event position of that year plus 140 |
| Layout.PlacedMarkerAfterYear | app/page.tsx:141-147 | for the loop's output, a range year without events gets the lowest event position of the latest earlier year with events plus 140 |
| Layout.PlacedStartsHaveEvents | app/page.tsx:145-146 | every year the loop records a start for has an event, so the fallback to the recorded start is never taken |
| Layout.TotalHeight | app/page.tsx:153 | the height is 1000 with no events; otherwise it is some event's position plus 200, and no event's position plus 200 exceeds it |
| Layout.SpacedMax | app/page.tsx:153 | in a list increasing by at least 140, the maximum is the last entry |
| Layout.PlacedHeight | app/page.tsx:153 | the height is the last position plus 200 (no event lies lower), or 1000 with no events |
| Layout.ComputeLayout | app/page.tsx:116-155 | the memoised layout: positioned events, year markers and height of the visible events (its properties are in the `Layout.Layout*` lemmas) |
| Layout.LayoutSameMembership | app/page.tsx:116-155 | the whole layout depends on the active categories only through membership |
| Layout.LayoutPositions | app/page.tsx:116-135 | one positioned event per visible event, in display order, spaced as above, and in closed form |
| Layout.LayoutHeight | app/page.tsx:153 | the layout height is the last position plus 200, or 1000 with no visible event |
| Layout.LayoutMarkersWithEvents | app/page.tsx:136-140 | every range year has a marker, and a year with visible events has it 30 above its first event |
| Layout.LayoutMarkerAfterEarlierYear | app/page.tsx:141-147 | a range year without events that follows a year with events has its marker 140 below the lowest event of the latest such year |
| Layout.LayoutMarkerBeforeAnyEvent | app/page.tsx:148-150 | a range year without events, with no earlier range year having events, has its marker at 60 |
| Layout.ThreeEventPositions | app/page.tsx:125-135 | two 2020 events and one 2021 event sit at 120, 260 and 460 |
| Layout.ThreeEventMarkers | app/page.tsx:136-140 | for those events, the 2020 marker is at 90 and the 2021 marker at 430 |
| Layout.ThreeEventHeight | app/page.tsx:153 | for those events, the canvas is 660 high |
| Categories.Key | app/page.tsx:8-16 | the table key of each category, which is the text searched for; `Categories.Declared` lists the categories in table order |
| Categories.Rank | app/page.tsx:8-16 | every category has a unique position in the declaration order of the colour table |
| Categories.FirstHitFrom | app/page.tsx:19-23 | the loop from the k-th key returns the earliest-declared category at or after k whose key occurs, or injury when none does |
| Categories.MatchCategory | app/page.tsx:17-24 | the result's key occurs in the lower-cased label and no earlier-declared key does; with no key occurring, the result is injury |
| Categories.MatchIsFirstHit | app/page.tsx:17-24 | the converse: a category whose key occurs, with no earlier key occurring, is the result |
| Categories.MatchIgnoresCase | app/page.tsx:18 | classification gives the same result on the label and on its lower-cased form |
| Categories.HolisticTherapyIsTherapy | app/page.tsx:8-24 | "holistic therapy" is therapy, because "therapy" is declared before "holistic" |
| Categories.LumbarInjectionIsInjection | app/page.tsx:8-24 | "lumbar injection therapy" is injection, because "injection" is declared before "therapy" |
| Categories.UnknownLabelIsInjury | app/page.tsx:23 | "x-ray" contains no key and falls back to injury |
| Text.LowerChar | app/page.tsx:18 | exactly the letters A-Z move to their lower-case form; the result is never upper-case |
| Text.ToLower | app/page.tsx:18 | lower-casing keeps the length and lowers each character |
| Text.ToLowerIdempotent | app/page.tsx:18 | lower-casing twice equals lower-casing once |
| Text.ToLowerFixesLower | app/page.tsx:18 | a string without upper-case letters is unchanged by lower-casing |
| Text.Includes | app/page.tsx:21 | `includes` as a scan for a position where the key is a prefix (characterised by `Text.IncludesIffOccurs`) |
| Text.IncludesIffOccurs | app/page.tsx:21 | the substring scan succeeds exactly when the key occurs at some index of the label |
| Text.MissingCharExcludes | app/page.tsx:21 | a label missing one of the key's characters does not contain the key |
| Text.EarlyCharExcludes | app/page.tsx:21 | a label whose only occurrences of the key's k-th character lie before index k does not contain the key |
| Text.TrimStart | app/page.tsx:166 | the result is a suffix, only white space was cut, and it does not start with white space |
| Text.TrimEnd | app/page.tsx:166 | the result is a prefix, only white space was cut, and it does not end with white space |
| Text.TrimStartEnd | app/page.tsx:166 | trimming the front and then the back cuts white space only, leaving a slice of the input |
| Text.Trim | app/page.tsx:166 | the result is a slice of the input, only white space was cut on either side, and it neither starts nor ends with white space |
| Rows.LongRowsBeforeCounts | app/page.tsx:163-168 | the number of side flips before row n is the number of long data rows below n |
| Rows.CategoryLabel | app/page.tsx:166 | the fifth cell, or "injury" when it is empty or missing, trimmed |
| Rows.RowEvent | app/page.tsx:167 | the event of a row: date, title, description and link cells (empty when missing), the matched category and the current side |
| Rows.Emits | app/page.tsx:165-169 | a row is emitted when it has at least three cells and a non-empty date and title |
| Rows.EmittedBelowSpec | app/page.tsx:163-170 | the emitted row indices are increasing, each names a long row with a date and a title, and every such row is listed |
| Rows.ConvertRows | app/page.tsx:166-167 | the reference conversion yields one event per emitted row |
| Rows.ConvertRowsAt | app/page.tsx:166-168 | element k of the reference conversion is row k's event, drawn on the side the alternation assigns |
| Rows.RowStep | app/page.tsx:163-171 | one row of the loop extends the emitted rows by that row exactly when it emits, and flips the side exactly when the row is long |
| Rows.ParseRows | app/page.tsx:161-171 | the loop's result is the reference conversion of the emitted rows, and every event has a date and a title |
| Rows.EmittedHaveDateAndTitle | app/page.tsx:169 | every converted event has a non-empty date and title |
| Rows.SideFlipsPerLongRow | app/page.tsx:165-169 | a long row flips the side for the next long row even when it is dropped; short rows in between do not flip it |
| Rows.FirstLongRowIsLeft | app/page.tsx:162 | the first long data row is drawn on the left |
| Rows.MissingCategoryIsInjury | app/page.tsx:166-167 | a row with an empty or missing category cell is an injury |
| Rows.InjuryLabel | app/page.tsx:166 | the default label "injury" trims to itself and classifies as injury |
| Ui.Remove | app/page.tsx:182 | removal drops every occurrence of the category and keeps every other one as often as before |
| Ui.RemoveAbsent | app/page.tsx:182 | removing an absent category changes nothing |
| Ui.ToggleCategory | app/page.tsx:182 | the toggled category's membership flips and every other category's is kept; an inactive one is appended at the end |
| Ui.ToggleTwiceSameMembership | app/page.tsx:182 | toggling twice restores the set of active categories |
| Ui.ToggleTwiceRestores | app/page.tsx:182 | toggling an inactive category on and off restores the list exactly |
| Ui.LayoutToggleRoundTrip | app/page.tsx:182 | toggling a category twice leaves the layout unchanged |
| Ui.ToggleOffHides | app/page.tsx:182 | switching an active category off hides exactly its events |
| Ui.InitiallyAllActive | app/page.tsx:110 | every category is active when the page opens |
| Ui.AllActiveKeepsAll | app/page.tsx:110 | with the initial categories, the filter keeps every event |
| Ui.HandleEventClick | app/page.tsx:183 | the clicked card goes on top, its expanded state flips, and every other card keeps its state |
| Ui.ClickTwiceRestoresExpanded | app/page.tsx:183 | clicking the same card twice restores the expanded set |

## Left out

- Date parsing (`new Date(...)`, `getTime`, `getFullYear`) and the date formatting at app/page.tsx:25-29 belong to the JavaScript runtime. The layout receives each event's time stamp and year as integers.
- Invalid dates are not modelled. In the code they give `NaN` time stamps, and the comparator then reports "equal" for every pair that involves one, while valid pairs still compare by their difference; the comparator is then inconsistent and the resulting order is implementation-defined. Here time stamps are always integers.
- The fetch, JSON decoding, the loading flag, toasts and console output at app/page.tsx:156-181 are I/O. Rows are given as decoded sequences of string cells.
- Rows.RowEvent: a cell that is present but not a string (a number, say) is not modelled. The code's `.toString()` and `||` defaults on such cells are not represented, and a cell is either a string or missing.
- Text.LowerChar: only ASCII letters are lower-cased. `toLowerCase` also maps non-ASCII letters, but no category key contains one.
- Layout.YearMarker: the fallback `yearStarts.get(lastYear) || 0` is modelled as the recorded start. For a numeric start the two agree, and `Layout.PlacedStartsHaveEvents` shows the fallback is never taken for the loop's output.
- Rendering, the welcome dialog, the legend markup and the clipboard sharing are not modelled.
- A refresh that overlaps an earlier one is not modelled. The model treats one response at a time.
- next.config.ts holds only build configuration and is not part of this model.
