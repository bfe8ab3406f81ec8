# Grouping controller of a YUI data table

`DataTableGrouper` (a wrapper around a YUI `DataTable`) and `GroupedDataTable`
(a `DataTable` subclass) add row grouping to a table. Both keep the same four
pieces of state, and their methods have the same logic. They differ only in
how they reach the grouping field and the host table, and in how
`insertGroup` sets up its listeners. The state is:

- the pending group list `groups`;
- the current group marker `currentGroupName`;
- the reset flag `resetGroups`;
- the selected header `selectedGroup`.

This project models that controller once, as the class
`DataTableGrouper.Grouper` over an array of table rows. The table before
"Model" pairs each method with its lines in both files.

- **Boundary detection.** The host calls `rowFormatter` on each row in render
  order. A row whose key is loosely unequal (JavaScript `!=`) to the previous
  key starts a group. That row gains `group-first-row`, and the controller
  appends a record `{name, row, group: null}`.
  - `Detection` gives a pass a pure specification: the rows that start a
    maximal run of loosely-equal adjacent keys (`RunStarts`).
  - `Grouper.FormatRows` drives `RowFormatter` over all rows and is proved
    against that specification.
- **Materialisation.** `initGroups`/`insertGroup` build one header per
  record, in list order. A header is expanded by default. It takes over the
  row's `yui-dt-first` marker as `group-first`, and gets the row's width. A
  header sits in its leading row's first cell, so `Header.row` is fixed for
  the header's lifetime. The reset flag makes a second call do nothing.
- **Width resync.** `resizeGroups` sets each header's width to its row's
  width.
- **Collapse and expand.** `toggleVisibility` swaps classes on the header and
  on its leading row. It then walks forward over the following rows, hiding
  or showing each one, and stops at the next row that carries either
  leading-row class. `Visibility` specifies the walk as a pure function on
  row sequences.
- **Selection.** `selectGroup`/`unselectGroup` keep at most one header
  carrying `group-selected`. `unselectGroup` keeps the reference to the
  header it unselects.

Keys are `null`, `undefined`, strings or integral numbers. `Keys.LooseEq`
models `==` on them:

- `null` and `undefined` equal each other and nothing else;
- a string and a number compare through ToNumber.

Layout measurements such as `Dom.getRegion(row).width` are an integer
attribute of a row. The host table's row selection is a set of row indices.

Behaviours of the code a reader might not expect:

- The first row of a pass starts a group only when its key is not loosely
  equal to `null`, because the marker starts as `null`. A table in which no
  record has the grouping field therefore gets no groups at all.
- A header is inserted into the first cell of its leading row, in front of
  the cell's first child. Although the doc comment at datatablegrouper.js:157
  reads "Inserts a group before the specified row", the header is not a
  sibling placed before that row.
- A render pass over zero rows never calls the row formatter. The previous
  list of records therefore stays in `groups` and `initGroups` does nothing.
- `unselectGroup` removes the selected class but never clears
  `selectedGroup`.
- `resizeGroups` on a record whose header was never built (a formatting pass
  with no `initGroups` after it) throws a `TypeError` in the source. In the
  model, `ResizeGroups` stops at that record and returns `fault`.

The prototype methods of `GroupedDataTable` have the same logic as the
wrapper's methods, so each member below is cited once, against the wrapper.
The corresponding lines of the prototype are:

| method | datatablegrouper.js | groupeddatatable.js |
|---|---|---|
| `rowFormatter` | 99-115 | 80-98 (reads the field from `configs.groupBy`) |
| `initGroups` | 122-131 | 105-114 |
| `resizeGroups` | 138-143 | 121-126 |
| `setGroupWidth` | 152-154 | 135-137 |
| `insertGroup` | 163-205 | 146-188 (registers its listeners with a different scope) |
| `selectGroup` | 239-253 | 222-236 (calls `getSelectedTrEls` and `unselectRow` on itself) |
| `unselectGroup` | 259-263 | 242-246 |
| `toggleVisibility` | 271-308 | 254-291 |

## Model

| member | source | states |
|---|---|---|
| DataTableGrouper.Grouper.constructor | datatablegrouper.js:30-68 | a new controller has no groups, the marker `null`, the reset flag set and no selected header |
| DataTableGrouper.Grouper.RowFormatter | datatablegrouper.js:99-115 | with the reset flag set, the list and marker are cleared first. A record `{key, row, null}` is appended and the row gains `group-first-row` exactly when the key is loosely unequal to the marker; otherwise the list and the row are unchanged. The marker becomes the key, the flag is cleared, the call returns true and no other row changes |
| DataTableGrouper.Grouper.FormatRows | datatablegrouper.js:99-115 | a pass over all rows from a reset state leaves one record per run start of loosely-equal adjacent keys, in row order, with no header. Exactly those rows gain `group-first-row`, and the marker is the last row's key. Over zero rows nothing changes |
| DataTableGrouper.Grouper.InitGroups | datatablegrouper.js:122-131 | with the reset flag clear, every record gets its own fresh header in list order, built from the rows as they were, and no two records share a header. The leading rows lose `yui-dt-first` and nothing else changes. Headers of earlier passes stay known to the controller, and only fresh ones are added. With the flag set, nothing changes. The flag ends set |
| DataTableGrouper.Grouper.RenderPass | datatablegrouper.js:99-131 | formatting every row and then materialising gives each run start one fresh, distinct header in row order, built from its marked row; only those rows lose `yui-dt-first`. Headers of earlier passes stay known, and only fresh ones are added |
| DataTableGrouper.RenderedHeaders | datatablegrouper.js:163-192 | after a render pass, header `k` sits on the `k`th run start and shows that row's key and width. It has `group` and `group-expanded`, and has `group-first` exactly when the row had `yui-dt-first` |
| DataTableGrouper.Grouper.InsertGroup | datatablegrouper.js:163-196 | the new header has `group` and `group-expanded`, plus `group-first` exactly when the row had `yui-dt-first`. The row loses that marker and nothing else, the header takes the row's width, and it belongs to that row |
| DataTableGrouper.Grouper.SetGroupWidth | datatablegrouper.js:152-154 | the header's width becomes its row's width; its classes are unchanged |
| DataTableGrouper.Grouper.ResizeGroups | datatablegrouper.js:138-143 | each header of the list up to the first record without one takes its row's width, and every other header keeps its width. A missing header is reported as a fault. With no records, no width changes |
| DataTableGrouper.Grouper.SelectGroup | datatablegrouper.js:239-253 | the previous header loses `group-selected`, the new one gains it and is recorded, and no row stays selected. Afterwards at most the new header carries the class, and no width changes |
| DataTableGrouper.Grouper.UnselectGroup | datatablegrouper.js:259-263 | the recorded header loses `group-selected` and the reference is kept. Afterwards no header carries the class, and no other header changes |
| DataTableGrouper.Grouper.UnselectRow | datatablegrouper.js:251 | `unselectRow` removes exactly that row from the host's selection |
| DataTableGrouper.Grouper.ToggleVisibility | datatablegrouper.js:271-308 | an expanded header becomes collapsed (and the reverse), and its leading row's class swaps the same way. Exactly the rows after the leading row, up to the next leading row or the end, are hidden (or shown). No other row or attribute changes, and the header's width is kept |
| Scenarios.UnselectTwice | datatablegrouper.js:259-263 | unselecting twice has the effect of unselecting once, and the reference is kept |
| Scenarios.SelectThenRowClick | datatablegrouper.js:239-263 | selecting a header and then clicking a row leaves no header and no row selected, while the reference to the header is kept |
| Scenarios.RerenderThenToggleOld | datatablegrouper.js:195-196 | a header from an earlier pass stays in its row after another render pass. It is still one of the controller's headers, and toggling it swaps its classes as for any other header |
| Detection.RunStarts | datatablegrouper.js:99-115 | the run starts of a key sequence are in bounds and strictly increasing, and are exactly the rows whose key is loosely unequal to the previous key (to `null` for the first row) |
| Detection.PassRecordsRunStarts | datatablegrouper.js:99-115 | a pass from a reset state records exactly the run starts, in order, each under its own key and with no header. Afterwards the marker is the last key and the flag is clear |
| Detection.PassDetects | groupeddatatable.js:80-98 | a pass from a reset state leaves exactly one record per run start, in row order |
| Detection.ExampleRuns | datatablegrouper.js:99-115 | keys `[a,a,b,b,b,a]` give groups led by rows 0, 2 and 5 |
| Detection.ExampleAdjacentOnly | datatablegrouper.js:108 | keys `"0", 0, "00"` form one group, because each key is compared only with the previous one |
| Detection.FirstRowLeadsUnlessNullish | datatablegrouper.js:100-111 | the first row leads a group exactly when its key is neither `null` nor `undefined` |
| Detection.NullishKeysStartNoGroup | groupeddatatable.js:81-94 | when every key is `null` or `undefined`, for instance because no record has the field, a pass detects no group |
| Keys.GetData | datatablegrouper.js:106 | `record.getData(groupBy)` yields the field's value; a missing field yields `undefined`, which is loosely equal to the initial `null` marker |
| Keys.LooseEq | datatablegrouper.js:108 | the boundary test: a nullish key is loosely equal only to a nullish key, and every key is loosely equal to itself |
| Keys.NullishLooseEqNull | datatablegrouper.js:108 | a key is loosely equal to the initial `null` marker exactly when it is `null` or `undefined` |
| Keys.LooseEqSymmetric | datatablegrouper.js:108 | the group-boundary comparison is symmetric |
| Keys.LooseEqNotTransitive | datatablegrouper.js:108 | loose equality is not transitive: `"0" == 0` and `0 == "00"`, yet `"0" != "00"` |
| Keys.EmptyStringLooseEqZero | datatablegrouper.js:108 | an empty string and the number 0 fall into one group, while an empty string after `null` starts a group |
| Dom.ReplaceClass | datatablegrouper.js:279 | after a replace, the target class is present, the replaced class is absent, and no other class changes |
| Dom.Header.constructor | datatablegrouper.js:164-168 | a header is created on its row with its name, classes and width |
| Visibility.RunEnd | datatablegrouper.js:295-307 | the forward walk stops at the first row from its start that carries either leading-row class, or at the end, and passes only non-leading rows |
| Visibility.ToggledTouchesOnlyTheRun | groupeddatatable.js:269-290 | a toggle swaps the leading row's class and sets the display of exactly the rows of the run; every other row and attribute is unchanged |
| Visibility.CollapseThenExpand | datatablegrouper.js:276-307 | collapsing and then expanding shows exactly the rows the collapse hid, restores the leading row, and leaves every other row as it was |
| Visibility.RunEndIsNextLeader | datatablegrouper.js:297-298 | when the leading rows are exactly the run starts, the walk from a group's leading row stops at the next group's leading row, or at the end for the last group |

## Left out

- DOM construction in `insertGroup` is not modelled. This covers the liner, icon and label elements, `innerHTML = name`, and the insertion into `cells[0]`. Only the header-to-row link and the class and width effects are modelled.
- Event wiring is not modelled: the `subscribe` calls, `Event.addListener`, `onGroupClick`, `handleGroupClick`, `onEventSelectGroup` and `stopEvent`. It is host plumbing with no logic of its own. Clicks are modelled as calls taking the header directly. `getAncestorByClassName` and `getAncestorByTagName` are replaced by `Header.row`.
- `init` and the `GroupedDataTable` constructor are not modelled. This includes the guard at groupeddatatable.js:7: `! 'groupBy' in oConfigs` parses as `false in oConfigs`, so the plain-table path is taken only when the configuration has a property named `"false"`. The saved `_oldFormatRow` is never called. `RenderPass` stands in for the host's render cycle.
- `Dom.getRegion(row).width` is a layout measurement and may be fractional. It is taken as an integer attribute of the row.
- The host's `getSelectedTrEls` and `unselectRow` are modelled as a set of row indices, `selectedRows`, and `UnselectRow` removes one index from it. How the host itself selects rows is host plumbing and is not modelled.
- `Keys.StringToNumber` covers only the empty string and optionally signed decimal integers. Leading and trailing white space, fractions, exponents, hexadecimal, `Infinity` and `NaN` are not modelled, because keys are modelled as integral. Any other string, including ones JavaScript maps to an integer such as `"1.0"`, `" 5"` or `"1e1"`, is treated as unequal to every number.
- Keys: numbers are exact unbounded integers rather than IEEE doubles. There is no rounding above 2^53 (in JavaScript `"9007199254740993" == 9007199254740992` holds, in the model it does not), no fractions, no `NaN` (which is unequal to itself, so every `NaN` row would start a group) and no infinities. Booleans (`true == 1`, `false == ""`), objects and Dates (compared by identity or through ToPrimitive) are not key values.
- A header created on a row that already holds one would, in the source, be stacked in front of the earlier header in the same cell. The model keeps one `Header` object per materialisation and does not model the cell's children.
- `Grouper.ResizeGroups`: the `TypeError` thrown on a record without a header is modelled as a `fault` result that stops the loop, not as an exception that unwinds the caller.
- The prototype fields of `GroupedDataTable` (`groups : []` shared by all instances until a row formatter call replaces it) are not modelled; the model gives each controller its own state.
