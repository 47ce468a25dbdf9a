# Table editor stores, dependency tracer and canvas viewport — a Dafny model

This project models four parts of a spreadsheet-like table editor written in
TypeScript and React, and proves properties of the model:

- **The row store** (`src/cool-table/models/useRow.ts`). It holds the list of
  rows and the `rowsMap` index that is rebuilt from that list. It hands out
  `row-N` ids from a counter that starts at 4. It provides `getRows`,
  `createRow` and `rowInsertCol`, and the last two ask the cell store for one
  cell per (row, column).
- **The table store** (`src/cool-table/models/useTable.ts`). It holds the list
  of tables and the `tablesMap` index. It hands out `table-N` ids from a
  counter that starts at 2. It provides `createTable`, `insertRow` (create a
  row with the table's columns, then push its id) and `insertCol` (add the new
  column to every row of the table that the row store finds, then to the
  table).
- **The dependency tracer** of the instantiation service
  (`src/di/instantiation/instantiation-service/trace.ts`). Each trace records
  `(id, first, child)` entries. `stop` adds the trace's duration to a running
  total, then prints a report when the trace took more than 2 ms or caused a
  creation. The report holds a header, the tab-indented `CREATES` / `uses`
  tree, and a timing line.
- **The canvas table container**
  (`src/cool-table-canvas/konva/table/index.tsx`). It derives row heights from
  each row's first cell and column widths from the first row. It merges
  partial scroll reports into the stored offset and turns the visible rows
  into keyed row elements. It lays out four panes: corner, row header, column
  header and body. The row header gets only the vertical offset, and the
  column header only the horizontal one.

## How the model is built

- **Maps built by `forEach`/`set`.** These indexes are `KeyedIndex.IndexMap`,
  in which the last element with a key wins. `KeyedIndex.BuildIndex` is the
  loop that builds one.
- **Stores as classes.** Each store is a `class` whose fields are its state:
  `rows`/`rowsMap`, `tables`/`tablesMap`, and the id counters. The index is
  recomputed whenever the list changes, as the memoised map is after a
  re-render.
- **Rows and tables as values.** The source pushes onto the `colIds` /
  `rowIds` of the object the index holds. The model replaces that element of
  the list, which is the last one with that id.
- **`createCell` calls** are recorded in `RowStore.cells`.
- **`createCol`** belongs to the column store. Its result is a parameter of
  `InsertCol`.
- **Trace objects** live in one table, `TraceStore.nodes`, and are referred to
  by position. A child's position is always larger than its parent's.
- **Durations** (`Date.now()` differences) are a whole-millisecond parameter
  of `Stop`. `Decimal.Fixed2` is `toFixed(2)` on a whole number: its decimal
  digits followed by `.00`.

## Model

| member | source | states |
|---|---|---|
| KeyedIndex.IndexMap | src/cool-table/models/useRow.ts:13-17 | the map that `forEach` + `set` builds from the ids and records, later entries overwriting earlier ones; characterised by `IndexMapLast` |
| KeyedIndex.LastIndex | src/cool-table/models/useRow.ts:13-17 | the position of the last element with a key, or -1 exactly when no element has it |
| KeyedIndex.IndexMapLast | src/cool-table/models/useRow.ts:13-17 | the map built by `forEach`/`set` has exactly the keys of the list, and each key maps to the value at the key's last position |
| KeyedIndex.IndexMapAppend | src/cool-table/models/useRow.ts:44 | appending an element to the list adds or overwrites the entry under its key and changes nothing else in the map |
| KeyedIndex.IndexMapUpdate | src/cool-table/models/useRow.ts:52-61 | changing the element that the map holds for a key changes that key's entry and nothing else |
| KeyedIndex.BuildIndex | src/cool-table/models/useRow.ts:13-17 | the `forEach`/`set` loop yields exactly the map of the list |
| KeyedIndex.Lookup | src/cool-table/models/useRow.ts:19-30 | `getRows` returns no more rows than ids were asked for, and each returned row is the map's entry under a requested id |
| KeyedIndex.LookupAppend | src/cool-table/models/useRow.ts:22-26 | the lookup keeps request order: the rows found for `a + b` are those found for `a`, then those found for `b` |
| KeyedIndex.LookupAllPresent | src/cool-table/models/useRow.ts:22-26 | when every requested id is present, exactly one row comes back per id, in order |
| KeyedIndex.Count | src/cool-table/models/useTable.ts:57-60 | the number of occurrences of an id is zero exactly when the id is absent |
| KeyedIndex.CountDistinct | src/cool-table/models/useTable.ts:57-60 | in a list of distinct ids, each listed id occurs once |
| Decimal.Digits | src/cool-table/models/useRow.ts:35 | the decimal rendering of a natural is digits only, and is one character long exactly for numbers below 10 |
| Decimal.DigitsInjective | src/cool-table/models/useRow.ts:35 | different naturals render differently |
| Decimal.IntText | src/cool-table-canvas/konva/table/index.tsx:43 | an integer's rendering starts with '-' exactly when the integer is negative |
| Decimal.IntTextInjective | src/cool-table-canvas/konva/table/index.tsx:43 | different integers render differently |
| Decimal.Fixed2Injective | src/di/instantiation/instantiation-service/trace.ts:65 | different whole-millisecond durations print differently with two decimals |
| Decimal.Name | src/cool-table/models/useRow.ts:35 | a generated id starts with its prefix and has at least one digit after it |
| Decimal.NameDigits | src/cool-table/models/useRow.ts:35 | every character of a generated id after its prefix is a decimal digit |
| Decimal.NameInjective | src/cool-table/models/useRow.ts:35 | ids made from the same prefix and different counter values differ |
| Decimal.IssuedDistinct | src/cool-table/models/useRow.ts:35 | ids issued from consecutive counter values are pairwise distinct |
| RowModel.RowIndexSound | src/cool-table/models/useRow.ts:13-17 | `rowsMap` has an entry for an id exactly when some row has that id, and the entry is the last such row |
| RowModel.CellsFor | src/cool-table/models/useRow.ts:40-42 | `createRow` asks for exactly one cell per column id |
| RowModel.ColumnCells | src/cool-table/models/useTable.ts:58-60 | one `createCell(rowId, colId)` per found row, in the order of the rows |
| RowModel.InsertColInto | src/cool-table/models/useRow.ts:52-61 | the row list after `rowInsertCol`: same length; its effect on the index is stated by `InsertColIntoIndex` |
| RowModel.FanOut | src/cool-table/models/useTable.ts:58-60 | the row list after one `rowInsertCol` per id, in order: same length; its effect on the index is stated by `FanOutIndex` |
| RowModel.InsertColIntoIndex | src/cool-table/models/useRow.ts:50-64 | `rowInsertCol` keeps the row ids; in the index, only the entry under the id gains the column at the end; an unknown id changes nothing |
| RowModel.FanOutSnoc | src/cool-table/models/useTable.ts:58-60 | one more `rowInsertCol` call extends the fan-out by one id |
| RowModel.FanOutIndex | src/cool-table/models/useTable.ts:58-60 | calling `rowInsertCol` for a list of ids keeps the index's keys, and each row gains the column once per occurrence of its id |
| RowModel.LookupRowsRequested | src/cool-table/models/useRow.ts:19-30 | every row `getRows` returns has a requested id, is indexed, and is the index's entry under that id |
| RowModel.LookupRowsCount | src/cool-table/models/useTable.ts:57 | for an indexed id, the rows `getRows` finds carry the id as often as the request lists it |
| RowModel.FanOutFound | src/cool-table/models/useTable.ts:57-60 | `insertCol`'s fan-out gives each indexed row the column once per occurrence in the table's `rowIds`; rows not listed are unchanged |
| RowModel.FanOutFoundDistinct | src/cool-table/models/useTable.ts:57-62 | when the table lists each row once, every listed indexed row gains exactly the one new column and every other row is unchanged |
| RowModel.RowStore.IssuedIdsDistinct | src/cool-table/models/useRow.ts:32-37 | the row ids `createRow` has handed out are pairwise distinct |
| RowModel.RowStore.constructor | src/cool-table/models/useRow.ts:11-17 | the store starts with the given rows, their index, the counter at 4 and no cells created |
| RowModel.RowStore.Reindex | src/cool-table/models/useRow.ts:13-17 | `rowsMap` becomes the index of the current rows |
| RowModel.RowStore.GetRows | src/cool-table/models/useRow.ts:19-30 | the loop returns the indexed rows for the requested ids, in request order, skipping missing ids |
| RowModel.RowStore.CreateRow | src/cool-table/models/useRow.ts:32-48 | returns `row-N` for the old counter N and increments the counter; appends the row with the given columns; indexes it; creates one cell per column in order |
| RowModel.RowStore.RowInsertCol | src/cool-table/models/useRow.ts:50-64 | an unknown id changes nothing; otherwise the indexed row gains the column at the end and exactly one cell is created; the counter is kept |
| TableModel.TableIndexSound | src/cool-table/models/useTable.ts:15-19 | `tablesMap` has an entry for an id exactly when some table has it, and the entry is the last such table |
| TableModel.SetTable | src/cool-table/models/useTable.ts:41-42 | the table list after the push into the table the index holds: same length; its effect is stated by `SetTableIndex` |
| TableModel.SetTableIndex | src/cool-table/models/useTable.ts:35-42 | changing the indexed table in place keeps the list's length, replaces the table at the id's last position, updates that index entry, and leaves every other position unchanged |
| TableModel.TableStore.IssuedIdsDistinct | src/cool-table/models/useTable.ts:21-23 | the table ids `createTable` has handed out are pairwise distinct |
| TableModel.TableStore.constructor | src/cool-table/models/useTable.ts:11-19 | the store starts with the given tables, their index and the counter at 2 |
| TableModel.TableStore.Reindex | src/cool-table/models/useTable.ts:15-19 | `tablesMap` becomes the index of the current tables |
| TableModel.TableStore.CreateTable | src/cool-table/models/useTable.ts:21-30 | returns `table-N` for the old counter N and increments the counter; appends an empty table and indexes it |
| TableModel.TableStore.InsertRow | src/cool-table/models/useTable.ts:33-45 | an unknown table changes nothing in either store; otherwise one row with the table's columns (and its cells) is created, and its id is appended to the table's `rowIds` |
| TableModel.TableStore.EachRowInsertCol | src/cool-table/models/useTable.ts:58-60 | the loop of `rowInsertCol` calls leaves the row list as the fan-out over the rows' ids, and creates one cell per row in order |
| TableModel.TableStore.InsertCol | src/cool-table/models/useTable.ts:48-66 | an unknown table changes nothing; otherwise each found row gains the column once per listed occurrence, one cell per found row is created, and the column is appended to the table's `colIds` |
| Tracing.Join | src/di/instantiation/instantiation-service/trace.ts:59 | `join(sep)` over a list of strings; `JoinAppend` and `JoinSnoc` state how it composes |
| Tracing.Tabs | src/di/instantiation/instantiation-service/trace.ts:46 | joining an array of n + 1 holes with a tab gives exactly n tab characters |
| Tracing.Render | src/di/instantiation/instantiation-service/trace.ts:50-56 | one `CREATES -> id` or `uses -> id` line after its depth's prefix; `RenderIndent` states its shape |
| Tracing.RenderIndent | src/di/instantiation/instantiation-service/trace.ts:50-56 | each printed line starts with exactly its depth in tabs, and the next character is 'C' for a `CREATES` line and 'u' for a `uses` line |
| Tracing.Lines | src/di/instantiation/instantiation-service/trace.ts:47-57 | the lines of `printChild` for the first k entries: each entry's line, then for a first creation the lines of its trace one level deeper; stated by `LinesDepth`, `LinesAtDepth`, `CreatesLineIff` |
| Tracing.ChildLines | src/di/instantiation/instantiation-service/trace.ts:44-60 | all the lines of `printChild(n, trace)` |
| Tracing.JoinAppend | src/di/instantiation/instantiation-service/trace.ts:59 | joining two non-empty lists with newlines joins their joins with one newline |
| Tracing.JoinSnoc | src/di/instantiation/instantiation-service/trace.ts:59 | pushing onto `res` adds a newline and the pushed text to the join, or just the text when `res` was empty |
| Tracing.TextEmpty | src/di/instantiation/instantiation-service/trace.ts:51-54 | a nested printout is empty exactly when the nested trace has no entries, which is what `if (nested)` tests |
| Tracing.TextAppend | src/di/instantiation/instantiation-service/trace.ts:59 | the text of two non-empty line runs is their texts joined by a newline |
| Tracing.LinesDepth | src/di/instantiation/instantiation-service/trace.ts:44-60 | every line `printChild(n, …)` produces is at depth n or deeper |
| Tracing.LinesAtDepth | src/di/instantiation/instantiation-service/trace.ts:47-57 | at depth n there is exactly one line per entry, in insertion order, marked `CREATES` exactly for first creations |
| Tracing.CreatesLineIff | src/di/instantiation/instantiation-service/trace.ts:48-50 | a `CREATES` line appears anywhere in the tree exactly when one of the trace's own entries is a first creation |
| Tracing.PrintChild | src/di/instantiation/instantiation-service/trace.ts:44-60 | the recursive loop returns the text of the trace's lines, and `causedCreation` holds exactly when some entry is a first creation |
| Tracing.RemoveNewlines | src/di/instantiation/instantiation-service/trace.ts:14 | the result has no newline and is no longer than the input |
| Tracing.RemoveNewlinesCounts | src/di/instantiation/instantiation-service/trace.ts:14 | every character other than a newline is kept, as often as it occurs in the input |
| Tracing.RemoveNewlinesAppend | src/di/instantiation/instantiation-service/trace.ts:14 | removal works piece by piece, so the kept characters stay in order, and a lone newline disappears |
| Tracing.RemoveNewlinesKeeps | src/di/instantiation/instantiation-service/trace.ts:14 | text without newlines is returned unchanged |
| Tracing.InvocationName | src/di/instantiation/instantiation-service/trace.ts:13-15 | a non-empty constructor name is kept; otherwise the name is the source's first 42 characters with the newlines removed, so at most 42 characters with no newline, and exactly those characters when they hold no newline |
| Tracing.Header | src/di/instantiation/instantiation-service/trace.ts:63 | `CREATE name` for a creation trace, `CALL name` otherwise |
| Tracing.DoneLine | src/di/instantiation/instantiation-service/trace.ts:65 | the timing line with the duration and the running total to two decimals |
| Tracing.Report | src/di/instantiation/instantiation-service/trace.ts:62-69 | the three report lines joined by newlines; `ReportFirstLine` and `TraceStore.Stop` state it |
| Tracing.ReportFirstLine | src/di/instantiation/instantiation-service/trace.ts:62-66 | the report begins with `CREATE name` for a creation trace, `CALL name` otherwise, then a newline |
| Tracing.TraceStore.constructor | src/di/instantiation/instantiation-service/trace.ts:21 | no traces exist and the running total is 0 |
| Tracing.TraceStore.TraceInvocation | src/di/instantiation/instantiation-service/trace.ts:13-15 | adds one invocation trace, named by `InvocationName`, with no entries |
| Tracing.TraceStore.TraceCreation | src/di/instantiation/instantiation-service/trace.ts:17-19 | adds one creation trace named after the constructor, with no entries |
| Tracing.TraceStore.Branch | src/di/instantiation/instantiation-service/trace.ts:31-35 | adds a fresh branch trace named by the id, appends `(id, first, child)` to the parent's entries, and leaves every other trace unchanged |
| Tracing.TraceStore.Stop | src/di/instantiation/instantiation-service/trace.ts:37-71 | adds the duration to the total; prints exactly when the trace took more than 2 ms or caused a creation; the printout is header, tree text and timing line joined by newlines |
| CanvasView.Heights | src/cool-table-canvas/konva/table/index.tsx:25-30 | one height per row, the height of that row's first cell |
| CanvasView.CellWidths | src/cool-table-canvas/konva/table/index.tsx:33 | one width per cell, in order |
| CanvasView.Widths | src/cool-table-canvas/konva/table/index.tsx:32-34 | one width per column, the width of the first row's cell in that column |
| CanvasView.MergeOffset | src/cool-table-canvas/konva/table/index.tsx:19-22 | `{ ...pre, ...offset }`; `MergeOffsetAxes` states its effect |
| CanvasView.MergeOffsetAxes | src/cool-table-canvas/konva/table/index.tsx:18-23 | a scroll report sets the axes it supplies and keeps the others; merging the same report twice equals merging once; an empty report changes nothing |
| CanvasView.RowKey | src/cool-table-canvas/konva/table/index.tsx:43 | the key `row-<data index>`; `RenderRowKeysDistinct` states when two keys agree |
| CanvasView.RenderRows | src/cool-table-canvas/konva/table/index.tsx:36-52 | one element per visible row, in order, keyed `row-<data index>`, numbered by position, showing the data row or nothing when the index is outside the table |
| CanvasView.RenderRowKeysDistinct | src/cool-table-canvas/konva/table/index.tsx:43 | two elements share a key exactly when they show the same data row index |
| CanvasView.PaneLayout | src/cool-table-canvas/konva/table/index.tsx:54-98 | the four panes' positions, sizes and offsets; stated by `PaneOffsets` and `PanesTile` |
| CanvasView.PaneOffsets | src/cool-table-canvas/konva/table/index.tsx:57-77 | the row header follows only the vertical offset, the column header only the horizontal one, and the corner and the body frame neither |
| CanvasView.PanesTile | src/cool-table-canvas/konva/table/index.tsx:57-96 | the body viewport is the box less the headers, as wide as the column header and as tall as the row header; the panes tile the box |
| CanvasView.TableView.constructor | src/cool-table-canvas/konva/table/index.tsx:14-15 | the offset starts at (0, 0) |
| CanvasView.TableView.HandleScroll | src/cool-table-canvas/konva/table/index.tsx:18-23 | the stored offset becomes the old offset with the reported axes merged in |

## Left out

- React and `hox` machinery is not modelled: `useState`, `useMemo`, `useCallback` and the shared-model wrapper. Each state update is applied at once, and the derived index is recomputed right away. In the source, a callback that runs twice in one render sees its render's stale `rowsMap`/`tablesMap`. For `createTable`, which copies `tables` instead of using the previous state, the second call would lose the first one's table.
- Object identity and aliasing are not modelled. Rows and tables are values, and an in-place push changes the list element the index points at. A row object shared by two list entries, or mutation through a reference held outside the store, is not captured.
- JavaScript numbers are IEEE doubles, and the model uses unbounded integers. Three consequences are not modelled:
  - From 2^53 on, `rowIdx++` and `tableIdx++` no longer increase, so issued ids would repeat. The two `IssuedIdsDistinct` lemmas hold of the source only below 2^53.
  - From 1e21 on, `${n}` and `toFixed(2)` switch to exponent notation. The trace's running total is a sum of doubles.
  - Offsets, cell widths and heights, and the box size may be fractional in the source.
- The id counters are fields of each store. In the source they are module-level variables shared by every instance of the hook.
- The cell store (`useCell.ts`) and column store (`useCol.ts`) are not part of this model. `createCell` calls are only recorded, and `createCol`'s id is a parameter of `InsertCol`.
- `Date.now()` and `console.log` are left out. `Stop` takes the duration as a whole number of milliseconds and returns the report instead of printing it.
- `toFixed(2)` is modelled only for whole numbers, since durations are millisecond differences. Rounding of fractional values is not modelled.
- A trace whose name is `null` or `undefined` is not modelled: such a name would print as `null` or `undefined`. Names are strings.
- Tracing.InvocationName: the constructor's source text (`ctor.toString()`) is a parameter.
- Tracing.InvocationName: `substring(0, 42)` counts UTF-16 code units, while the model counts characters. A source head holding characters outside the Basic Multilingual Plane would be cut differently.
- The trace's `_start` field is not modelled. It is only read to compute the duration.
- CanvasView.Heights and CanvasView.Widths require a first cell or a first row. Without one, the source reads a property of `undefined` and throws.
- CanvasView.MergeOffsetAxes: a `Partial<IOffset>` whose key is present with the value `undefined` is not modelled. Spreading it would overwrite the axis with `undefined`; here an axis is either supplied with a number or absent.
- The scroll view (`../base/scroll-view`), the header and row components, and the styled `Box`/`CanvasBox` are not part of this model. `boxWidth` and `boxHeight` are parameters of `PaneLayout`. The header contents (`header.rowHeaders`/`colHeaders`) are passed through unchanged and are not modelled.
- The `setTable` updater of the canvas container is never called there and is not modelled. The container's table is fixed after construction.
