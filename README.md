# Process dashboard: a verified model of the shared data pipeline

The dashboard is four browser scripts that read one Google Sheet of tasks,
published as CSV. Each script renders the sheet a different way:

- `detailed_process_script.js` draws a filterable table. Its status badges and
  memo buttons write changes back to the sheet.
- `script.js` draws one card per main team (`메인팀`).
- `main_script.js` draws an overview with a completion percentage and a table
  of tasks that have a problem (`문제`) or are on hold (`보류`).
- `schedule_script.js` draws a grid with one row per main task (`메인업무`) and
  one column per day.

Under the markup the four scripts share one small pipeline, and this project
models that pipeline:

- the naive CSV parser;
- the five-status cycle and its badge colours;
- the team option lists built with `new Set`;
- the two-key team filter;
- the `reduce` that groups tasks by a column;
- the overview counts;
- the update requests;
- the placement of tasks in the schedule grid.

The modules are:

| module | contents |
|---|---|
| `Prelude` | `undefined` as `Option`, `indexOf`, `new Set` de-duplication, `filter`, subsequences |
| `Text` | `trim` and `split` on one character, with JavaScript's whitespace set |
| `Csv` | `parseCSV`; the detailed view's `rowIndex` stamp is a flag |
| `Status` | `statusOrder`, the next-status rule, `statusColors` with its `secondary` fallback |
| `Engine` | team options, `applyFilters`, and grouping by a column |
| `Overview` | `renderMainPage`'s counts and lists |
| `Schedule` | the day range and the grid placement |
| `Updates` | the status badge and the memo cell as objects; the requests sent to the sheet |
| `Board` | the page state (`allTasks` and the options) and what a filter selection shows |

State that the scripts update in place is modelled as classes:

- the badge text and colour;
- the memo cell;
- the global `allTasks` with its option lists.

Loops are methods proved against reference functions:

- `forEach` filling a row object;
- `map` over the lines;
- the `reduce` grouping;
- the day loop;
- the placement loops.

Most properties are stated about those reference functions.

A selection of `''` means "all" (the `모두` button). So a team option whose
value is the empty string, which a task with an empty team cell produces, also
shows every task. The model keeps this behaviour: `Engine.Selected` treats `""`
as no selection, as `if (selectedMainTeam)` does.

Tasks without a team column give an `undefined` option, whose button carries
the text "undefined". That button shows nothing unless some cell literally
reads "undefined" (`Board.MainTeamButtonShowsTasks`).

## Model

| member | source | states |
|---|---|---|
| Prelude.IndexOf | detailed_process_script.js:80 | `indexOf`: the first position holding the value, or -1 exactly when the value is absent |
| Prelude.LastIndexOf | detailed_process_script.js:29-31 | The last position holding a value, or -1 when absent (the column whose value a repeated header keeps) |
| Prelude.Distinct | detailed_process_script.js:158-159 | `[...new Set(xs)]` has no duplicates, is no longer than `xs` and holds every element of `xs` |
| Prelude.DistinctMember | detailed_process_script.js:158-159 | A value is in `[...new Set(xs)]` exactly when it is in `xs` |
| Prelude.IndexOfUnique | detailed_process_script.js:80 | In a duplicate-free list, `indexOf` finds an element at its own position |
| Prelude.IndexOfSnoc | detailed_process_script.js:158 | Appending an element does not move the first occurrence of anything already present |
| Prelude.DistinctFirstSeen | detailed_process_script.js:158-159 | The de-duplicated values come in the order of their first occurrence |
| Prelude.DistinctOfConstant | script.js:178-185 | If every element equals `v`, the de-duplicated list is `[]` or `[v]` |
| Prelude.Filter | detailed_process_script.js:208 | `filter` keeps only elements satisfying the predicate and never grows the list |
| Prelude.FilterCount | detailed_process_script.js:208 | `filter` keeps every copy of each kept element and none of the others |
| Prelude.FilterSubsequence | detailed_process_script.js:208 | `filter` keeps the input order (its result is a subsequence) |
| Prelude.FilterAll | detailed_process_script.js:205 | Filtering with a predicate that holds everywhere returns the list unchanged |
| Prelude.FilterExt | detailed_process_script.js:207-212 | Filters by predicates that agree everywhere give the same result |
| Prelude.FilterCompose | detailed_process_script.js:207-212 | Filtering by `p` and then by `q` is filtering once by `p && q` |
| Text.TrimStart | detailed_process_script.js:24 | The result is a suffix of the input; the part cut off is whitespace; the result does not start with whitespace |
| Text.TrimEnd | detailed_process_script.js:24 | The result is a prefix of the input; the part cut off is whitespace; the result does not end with whitespace |
| Text.Trim | detailed_process_script.js:24 | `trim` returns a result that neither starts nor ends with whitespace and is no longer than the input |
| Text.TrimInfix | detailed_process_script.js:24 | The trimmed string is an infix `s[i..j]` of the input, with whitespace-only text on both sides |
| Text.TrimIdempotent | detailed_process_script.js:27 | Trimming twice is trimming once |
| Text.TrimEmptyIff | detailed_process_script.js:24 | `trim` yields the empty string exactly when the text is all whitespace |
| Text.TrimWithin | detailed_process_script.js:27 | Every character of the trimmed string occurs in the original |
| Text.Split | detailed_process_script.js:24-27 | `split(sep)` has at least one part, and no part contains the separator |
| Text.SplitCount | detailed_process_script.js:24-27 | `split(sep)` gives one more part than the text has separators |
| Text.JoinSplit | detailed_process_script.js:24-27 | Joining the parts of `split` with the separator gives back the text |
| Text.SplitNoSeparator | detailed_process_script.js:27 | A text without the separator splits into itself alone (`''.split(',')` is `['']`) |
| Text.SplitLeadingSeparator | detailed_process_script.js:27 | A leading separator gives an empty first part |
| Text.SplitLeadingCharacter | detailed_process_script.js:27 | A leading non-separator character is part of the first piece |
| Text.SplitAfterPiece | detailed_process_script.js:27 | Splitting `p + sep + t`, for `p` without the separator, gives `p` followed by the parts of `t` |
| Text.JoinPrepend | detailed_process_script.js:27 | Prepending a character to the first part prepends it to the joined text |
| Text.SplitJoin | detailed_process_script.js:24-27 | Splitting the join of separator-free parts gives back the parts |
| Csv.Fields | detailed_process_script.js:29-31 | The row object's properties are exactly the header names |
| Csv.Lines | detailed_process_script.js:24 | The trimmed text always has at least one line, the header line |
| Csv.Parse | main_script.js:14-26 | `parseCSV` gives one row per line feed of the trimmed text, that is, one per line after the header |
| Csv.FieldsSnoc | detailed_process_script.js:29-31 | One more `forEach` step assigns the next header its positional cell, overriding an earlier column of the same name |
| Csv.BuildRow | detailed_process_script.js:28-31 | The `forEach` loop that fills the row object builds exactly `Fields(headers, values)` |
| Csv.BuildRecord | detailed_process_script.js:26-33 | One `map` callback builds the reference row, stamping `rowIndex = index + 2` in the detailed view |
| Csv.MapRecords | detailed_process_script.js:26-34 | `lines.slice(1).map(...)` gives one row per data line, the `k`-th being the record of line `k` |
| Csv.ParseCsv | schedule_script.js:14-26 | The parser as the script runs it (`map` over the data lines) returns exactly the reference parse |
| Csv.ParseIsRecords | detailed_process_script.js:23-36 | A list holding the record of each data line, in order, equals the reference parse |
| Csv.CellsAreClean | detailed_process_script.js:25-27 | A line has one more cell than commas, and every cell is trimmed and holds no comma or line feed |
| Csv.PieceIsClean | detailed_process_script.js:27 | Each trimmed piece of a line is trimmed and holds no comma or line feed |
| Csv.PieceWithinJoin | detailed_process_script.js:27 | Every character of a split piece occurs in the joined text |
| Csv.FieldsLastColumnWins | detailed_process_script.js:29-31 | A header's value is the trimmed cell at its last position, or `''` when the line is shorter (`values[i] \|\| ''`) |
| Csv.FieldsDropExtraCells | detailed_process_script.js:29-31 | Cells past the last header are dropped |
| Csv.ParseBlank | detailed_process_script.js:23-35 | Empty or whitespace-only text yields no rows |
| Csv.ParseRowIndex | detailed_process_script.js:32 | Data row `k` gets `rowIndex = k + 2` in the detailed view, so the indexes start at 2 and strictly increase; other views add none |
| Csv.EmptyIsClean | detailed_process_script.js:30 | The `''` default is itself a clean cell |
| Csv.FieldsAreClean | detailed_process_script.js:29-31 | Clean header names and cells give a row whose names and values are all clean |
| Csv.FieldIsClean | detailed_process_script.js:29-31 | One property of a row has a clean name (a header) and a clean value (a cell or `''`) |
| Csv.CellIsClean | detailed_process_script.js:30 | `values[i] \|\| ''` is clean when every cell of the line is |
| Csv.CellOrEmpty | detailed_process_script.js:30 | `values[i] \|\| ''` is `''` exactly for a position past the end or an empty cell; any other result is a cell of the line |
| Csv.RecordViewsAgree | detailed_process_script.js:26-33 | The detailed view's row and the other views' row of a line agree on every column but `rowIndex`, which becomes the line number `k + 2` |
| Csv.GetOfRecord | detailed_process_script.js:26-33 | On the record of one data line, a string cell exists exactly for a header's name (less `rowIndex` in the detailed view), and it is that header's last cell or `''` |
| Csv.GetOfParsed | detailed_process_script.js:29-41 | `task[column]` reads a string cell exactly when a header names the column; in the detailed view a `rowIndex` column is replaced by the number `k + 2`, held in `Row.rowIndex`. A cell is the column's last cell on the line or `''`, and clean |
| Csv.ParseRowShape | script.js:14-25 | Every row has exactly the header names as properties (minus `rowIndex` in the detailed view), all trimmed and free of commas and line feeds |
| Status.IndexOfOrder | detailed_process_script.js:50 | `statusOrder.indexOf(statusOrder[i]) == i` |
| Status.NextIsIndexSuccessor | detailed_process_script.js:78-82 | The next-status rule is `statusOrder[(indexOf(current) + 1) % 5]`, including the -1 case, so the next status is always one of the five labels |
| Status.Next | script.js:42-46 | A click always changes the label; `NextIsIndexSuccessor` proves the rule is `statusOrder[(indexOf + 1) % 5]` |
| Status.NextOfKnown | detailed_process_script.js:78-82 | `statusOrder[i]` moves to `statusOrder[(i + 1) % 5]` |
| Status.NextOfUnknown | script.js:42-46 | Any label outside the order moves to `대기` |
| Status.NextWraps | script.js:40-46 | `문제` wraps to `대기` |
| Status.NextNAdd | script.js:42-49 | `a` clicks then `b` clicks equal `a + b` clicks |
| Status.NextNPeriodic | script.js:40-46 | For a known status only the number of clicks modulo five matters |
| Status.NextCycle | script.js:40-46 | Five clicks return any known status to itself |
| Status.ColorsCoverOrder | detailed_process_script.js:14-20 | `statusColors` has a colour for exactly the five statuses |
| Status.ColorOf | detailed_process_script.js:129 | A known status gets its own colour; the colour is `secondary` exactly for a missing, unknown or `대기` status |
| Engine.TeamOptions | detailed_process_script.js:158-159 | The team options are duplicate-free and include every team that occurs |
| Engine.TeamOptionsExactly | script.js:142-143 | A team is offered exactly when some task carries it |
| Engine.TeamOptionsFirstSeen | script.js:142-143 | The options come in first-seen order |
| Engine.WithValue | detailed_process_script.js:208 | The one-column filter keeps only tasks with that value, never more tasks than given |
| Engine.Matching | detailed_process_script.js:201-212 | Every task of the reference two-key filter passes both selections |
| Engine.SelectedIsBothFilters | detailed_process_script.js:207-212 | A selection is the two `task[...] === selected` callbacks, each applied only for a non-empty selection; a task without the column passes only an empty selection |
| Engine.ApplyFilters | detailed_process_script.js:201-212 | Filtering by main team, then by work team (each only when selected), equals the one-pass reference filter |
| Engine.MatchingAll | detailed_process_script.js:205-212 | With both selections `''` every task is returned, in order |
| Engine.MatchingExactly | detailed_process_script.js:201-212 | The filter keeps exactly the selected tasks, every copy of each, in sheet order |
| Engine.WithValueExactly | main_script.js:47-49 | A one-column filter keeps exactly the tasks whose cell equals the value, with multiplicity and order |
| Engine.Group | detailed_process_script.js:39-48 | Every task of a group has that group's key |
| Engine.GroupCount | detailed_process_script.js:39-48 | A group holds every copy of each task with its key and nothing else |
| Engine.GroupSubsequence | detailed_process_script.js:39-48 | A group keeps the tasks' sheet order |
| Engine.KeyOfMerges | detailed_process_script.js:41-45 | Two tasks share a group exactly when their cells are equal, except that a missing cell and a cell reading "undefined" share the `"undefined"` group |
| Engine.KeysCountGroups | detailed_process_script.js:40-45 | Each key occurs in the list of keys once per task of its group |
| Engine.GroupOfAbsentKey | detailed_process_script.js:42-44 | A key no task carries has an empty group |
| Engine.KeysStep | detailed_process_script.js:42-44 | The next task adds its key to the group names only when the key is new; a new key's group is still empty |
| Engine.GroupStep | detailed_process_script.js:45 | The next task is appended to its own key's group and to no other |
| Engine.PushStep | detailed_process_script.js:42-45 | Pushing the task onto its key's array keeps every array equal to its reference group |
| Engine.GroupedStep | detailed_process_script.js:40-46 | One `reduce` callback keeps the accumulator equal to the grouping of the tasks seen so far |
| Engine.GroupedEmpty | detailed_process_script.js:47 | The empty accumulator `{}` describes no tasks |
| Engine.KeysAfterStep | detailed_process_script.js:42-44 | After one more task the key order is the first-seen order of the longer prefix |
| Engine.GroupsAfterStep | detailed_process_script.js:42-45 | After one more task every array is the group of its key over the longer prefix |
| Engine.GroupBy | detailed_process_script.js:39-48 | `reduce` yields one group per distinct key, in first-seen order, each equal to the reference group |
| Engine.GroupPartition | script.js:29-38 | A task is in a group exactly when the group is its own key's, and its key is always a group name |
| Engine.GroupsNonEmpty | script.js:29-38 | Every group that is created holds at least one task |
| Engine.GroupOrder | script.js:29-38 | Input order is kept within groups, and groups are created in first-seen order (the order `for ... in` visits them) |
| Engine.ConcatCount | detailed_process_script.js:39-48 | The groups under distinct keys together hold each task as often as the sheet does when its key is among them |
| Engine.GroupsArePermutation | detailed_process_script.js:39-48 | The groups together are a permutation of the tasks |
| Engine.FilteredGroups | script.js:172-186 | Every task of every rendered group passes the filter; with a main team selected there is at most one group, named after it |
| Overview.WithValueLength | main_script.js:47 | `filter(...).length` equals the independent count |
| Overview.CountsWithinTotal | main_script.js:46-49 | Three distinct statuses never match more tasks than there are |
| Overview.Summarize | main_script.js:46-51 | Total is the row count; completed is the `완료` count and at most the total; list lengths are the `문제` and `보류` counts; the percent is 0 with no tasks, else `completed / total * 100`, within [0, 100] |
| Overview.PercentOf | main_script.js:51 | `(completed / total) * 100` lies in [0, 100] when `completed <= total` |
| Overview.Issues | main_script.js:85 | The issue list is as long as the two lists together |
| Overview.SummaryLists | main_script.js:48-49 | The problem and on-hold lists hold exactly the tasks with that status, in order; they are disjoint; completed plus both lists is at most the total |
| Overview.IssuesOrder | main_script.js:85-86 | The issue table lists all problem rows (`danger`) before all on-hold rows (`warning`) |
| Overview.ShowsIssuesIff | main_script.js:65 | The issues table is drawn exactly when the issue list is non-empty, exactly when some task has status `문제` or `보류` |
| Schedule.DayRange | schedule_script.js:46-51 | The day loop yields the inclusive ascending run of consecutive days, none when the range is empty |
| Schedule.ScheduleDays | schedule_script.js:46-51 | The grid has the five days 2025-08-13 to 2025-08-17 |
| Schedule.OnDay | schedule_script.js:81-87 | A cell holds only tasks dated on its day |
| Schedule.OnDayCount | schedule_script.js:81-87 | A cell holds every task of its group dated that day, and nothing else |
| Schedule.OnDaySubsequence | schedule_script.js:81-86 | Within a cell, tasks keep their group's order |
| Schedule.PlaceCell | schedule_script.js:80-88 | The inner `forEach` produces exactly the reference cell |
| Schedule.PlaceLane | schedule_script.js:79-89 | One row of the grid has one cell per day, each the reference cell |
| Schedule.PlaceTasks | schedule_script.js:66-91 | One lane per distinct main task in first-seen order, each cell the tasks of that main task dated that day |
| Schedule.CellExactly | schedule_script.js:79-87 | A task is in cell (`key`, `day`) exactly when its main task is `key` and its date is `day`; the cell is a subsequence of the group |
| Schedule.AtMostOneCell | schedule_script.js:79-87 | A task appears in at most one cell |
| Schedule.UndatedUnplaced | schedule_script.js:82-83 | A task without a `날짜` cell has no day (`new Date(undefined)` is an invalid date) and is in no cell |
| Schedule.OutOfRangeUnplaced | schedule_script.js:82-83 | A task dated outside the range, or with an invalid date, is in no cell |
| Schedule.InRangePlaced | schedule_script.js:75-87 | A task dated on a grid day is in its own main task's row, in that day's cell |
| Updates.UpdatePayload | detailed_process_script.js:63-68 | `action` is `updateStatus` exactly when the column is `상태`, otherwise `addMemo`; row, column and value pass unchanged |
| Updates.MemoRequest | detailed_process_script.js:90-97 | A request is produced exactly for a non-empty answer, and it writes that answer to `메모` of the row with `addMemo` |
| Updates.LabelsTrimmed | detailed_process_script.js:79 | `trim` leaves each status label unchanged |
| Updates.NextIsTrimmed | script.js:43-47 | The label a click leaves on a badge is trimmed, so the next click's `trim` returns it unchanged |
| Updates.ClicksFollowCycle | script.js:42-50 | `n` clicks on a badge, each trimming and advancing its text, give `n` steps of the status cycle from the trimmed text |
| Updates.Badge.constructor | detailed_process_script.js:129-137 | A new badge shows the status cell (`undefined` when missing) with the colour `ColorOf` gives, which is the colour of the label shown |
| Updates.Badge.Advance | detailed_process_script.js:79-85 | The index arithmetic gives `Next(current)` and its colour from `statusColors` |
| Updates.Badge.CycleStatus | script.js:42-50 | A click sets the badge to the next status of its trimmed text, with that status's colour |
| Updates.Badge.ChangeStatus | detailed_process_script.js:78-88 | As `CycleStatus`, and the request is an `updateStatus` for the row with the new status |
| Updates.MemoCell.constructor | script.js:117 | A new memo cell holds the task's memo |
| Updates.MemoCell.EditMemo | script.js:52-58 | A non-empty answer replaces the cell text; a cancelled or empty one changes nothing |
| Updates.MemoCell.AddMemo | detailed_process_script.js:90-97 | As `EditMemo`, and the request is `MemoRequest`: sent exactly for a non-empty answer |
| Board.TaskBoard.constructor | detailed_process_script.js:154 | `allTasks` starts empty, with no options |
| Board.TaskBoard.Load | detailed_process_script.js:225-228 | After loading, `allTasks` is the parse of the sheet and the option lists are its team options |
| Board.TaskBoard.FilteredTasks | detailed_process_script.js:201-214 | The rendered rows are exactly the reference filter of `allTasks` |
| Board.TaskBoard.FilteredGroups | script.js:172-186 | The rendered cards are the groups by main team of the filtered tasks, in first-seen order |
| Board.MainTeamButtonShowsTasks | detailed_process_script.js:158-212 | On a loaded board, the button of a main-team option shows some task exactly when the option is a cell value or some cell reads "undefined"; the `undefined` option's button (`data-filter-value="undefined"`) otherwise shows nothing |
| Board.WorkTeamButtonShowsTasks | detailed_process_script.js:159-212 | The same for the work-team buttons |

## Left out

- DOM construction, `innerHTML` templates, event listeners and the `window.*` globals are not modelled. They are presentation only. HTML escaping of cell text is not modelled either.
- `prompt` is not modelled. Its answer is the parameter `input` (`None` for a cancelled dialog).
- `fetch` of the CSV, the `no-cors` POST in `updateGoogleSheet` and the error banners are not modelled. They are network I/O. Only the request body is modelled.
- `console.log` and `console.error` are not modelled. They are output only.
- JavaScript `Date`, `toDateString` and `setDate` are not modelled; they depend on the time zone. Days are integer ordinals, and reading a `날짜` cell is the parameter `parseDay`.
- `toFixed(2)` and floating-point division are not modelled. The percentage is an exact real.
- Object-key ordering quirks of the `reduce` accumulator are not modelled. Integer-like keys are visited first, and names such as `constructor` or `__proto__` clash with the prototype. Groups are an ordered key list plus a map, visited in first-seen order.
- The same prototype-name clash is not modelled for header names in the row object, nor for `statusColors` lookups. A status cell reading `toString`, for example, finds an inherited function rather than the `secondary` fallback.
- The memo button is not modelled. Assigning `textContent` removes the `추가` button together with the old memo; the model keeps only the cell text.
- The stray `});` at detailed_process_script.js:235 is not modelled. It makes that file unparseable as written; the model follows the intended logic.
- RFC 4180 quoting is not modelled, because the scripts do not implement it. A quoted comma or line feed still splits a cell.
- Characters outside the Basic Multilingual Plane are not modelled. JavaScript sees them as two UTF-16 code units; the model's `char` is one Unicode scalar value.
- The labels, titles and CSS classes of the schedule grid and tables are not modelled. That includes `status-${상태}` and the `M/D` headers.
