/**
 * The row store of the table editor: the list of rows, the id-to-row index
 * rebuilt from it whenever it changes, the row-id counter, and the
 * operations `getRows`, `createRow` and `rowInsertCol`.
 */
module RowModel {
  import opened KeyedIndex
  import Decimal

  /** A row: its id and the ids of its columns, in order. */
  datatype Row = Row(rowId: string, colIds: seq<string>)

  /** One call of the cell store's `createCell(rowId, colId)`. */
  datatype CellKey = CellKey(rowId: string, colId: string)

  /** The row-id counter starts after the three mock rows. */
  const InitialRowIdx: nat := 3 + 1

  /** `row-${n}` */
  function RowName(n: nat): string
  {
    Decimal.Name("row-", n)
  }

  function RowIds(rows: seq<Row>): (ids: seq<string>)
    ensures |ids| == |rows|
  {
    seq(|rows|, i requires 0 <= i < |rows| => rows[i].rowId)
  }

  lemma RowIdsSnoc(rows: seq<Row>, row: Row)
    ensures RowIds(rows + [row]) == RowIds(rows) + [row.rowId]
  {
  }

  /** `rowsMap`: the index the store rebuilds from `rows`. */
  function RowIndex(rows: seq<Row>): map<string, Row>
  {
    IndexMap(RowIds(rows), rows)
  }

  /**
   * `rowsMap` has an entry for exactly the ids of the rows in the list, and
   * the entry under an id is a row with that id, the last one in the list.
   */
  lemma RowIndexSound(rows: seq<Row>, id: string)
    ensures id in RowIndex(rows) <==> exists i :: 0 <= i < |rows| && rows[i].rowId == id
    ensures id in RowIndex(rows) ==>
      var i := LastIndex(RowIds(rows), id);
      0 <= i < |rows| && RowIndex(rows)[id] == rows[i] && rows[i].rowId == id
  {
    IndexMapLast(RowIds(rows), rows);
    if exists i :: 0 <= i < |rows| && rows[i].rowId == id {
      var i :| 0 <= i < |rows| && rows[i].rowId == id;
      assert RowIds(rows)[i] == id;
    }
  }

  /** The cells `createRow` asks for: one per column id, in order. */
  function CellsFor(rowId: string, colIds: seq<string>): (cs: seq<CellKey>)
    ensures |cs| == |colIds|
  {
    seq(|colIds|, i requires 0 <= i < |colIds| => CellKey(rowId, colIds[i]))
  }

  /** The cells one column adds to each of the given rows, in order. */
  function ColumnCells(rowIds: seq<string>, colId: string): (cs: seq<CellKey>)
    ensures |cs| == |rowIds|
    ensures forall i :: 0 <= i < |rowIds| ==> cs[i] == CellKey(rowIds[i], colId)
  {
    if |rowIds| == 0 then []
    else ColumnCells(rowIds[..|rowIds| - 1], colId) + [CellKey(rowIds[|rowIds| - 1], colId)]
  }

  /**
   * The list after `rowInsertCol(rowId, colId)`: the row the index holds
   * under `rowId` gains `colId` at the end of its columns.
   */
  function InsertColInto(rows: seq<Row>, rowId: string, colId: string): (r: seq<Row>)
    ensures |r| == |rows|
  {
    var k := LastIndex(RowIds(rows), rowId);
    if k < 0 then rows
    else rows[k := rows[k].(colIds := rows[k].colIds + [colId])]
  }

  /**
   * `rowInsertCol` keeps every row id in place, and in the index it changes
   * only the entry under `rowId`, appending `colId` to its columns; an id
   * without an entry changes nothing.
   */
  lemma InsertColIntoIndex(rows: seq<Row>, rowId: string, colId: string)
    ensures RowIds(InsertColInto(rows, rowId, colId)) == RowIds(rows)
    ensures var m := RowIndex(rows);
      RowIndex(InsertColInto(rows, rowId, colId)) ==
        if rowId in m then m[rowId := m[rowId].(colIds := m[rowId].colIds + [colId])] else m
  {
    var ks := RowIds(rows);
    var k := LastIndex(ks, rowId);
    IndexMapLast(ks, rows);
    if k >= 0 {
      var v := rows[k].(colIds := rows[k].colIds + [colId]);
      assert RowIds(rows[k := v]) == ks;
      IndexMapUpdate(ks, rows, k, v);
    } else {
      assert rowId !in RowIndex(rows);
    }
  }

  /** The list after `rowInsertCol(id, colId)` for each id of `ids` in turn. */
  function FanOut(rows: seq<Row>, ids: seq<string>, colId: string): (r: seq<Row>)
    ensures |r| == |rows|
  {
    if |ids| == 0 then rows
    else InsertColInto(FanOut(rows, ids[..|ids| - 1], colId), ids[|ids| - 1], colId)
  }

  /** One more `rowInsertCol` after a fan-out extends it by one id. */
  lemma FanOutSnoc(rows: seq<Row>, ids: seq<string>, rowId: string, colId: string)
    ensures FanOut(rows, ids + [rowId], colId) == InsertColInto(FanOut(rows, ids, colId), rowId, colId)
  {
    assert (ids + [rowId])[..|ids|] == ids;
  }

  /**
   * Inserting a column into the rows named by `ids` keeps the index's keys,
   * and the row under each id gains the column once per occurrence of the
   * id in `ids`: once for a row named once, not at all for the others.
   */
  lemma {:induction false} FanOutIndex(rows: seq<Row>, ids: seq<string>, colId: string)
    ensures RowIds(FanOut(rows, ids, colId)) == RowIds(rows)
    ensures var m, m' := RowIndex(rows), RowIndex(FanOut(rows, ids, colId));
      m'.Keys == m.Keys &&
      forall id :: id in m ==>
        m'[id] == m[id].(colIds := m[id].colIds + Repeat(colId, Count(ids, id)))
  {
    var m := RowIndex(rows);
    if |ids| == 0 {
      forall id | id in m ensures m[id] == m[id].(colIds := m[id].colIds + Repeat(colId, 0)) {
        assert m[id].colIds + Repeat(colId, 0) == m[id].colIds;
      }
    } else {
      var n := |ids| - 1;
      var prev := FanOut(rows, ids[..n], colId);
      FanOutIndex(rows, ids[..n], colId);
      InsertColIntoIndex(prev, ids[n], colId);
      GainStep(m, RowIndex(prev), RowIndex(FanOut(rows, ids, colId)), ids, colId);
    }
  }

  /**
   * The map-level step of `FanOutIndex`: one more `rowInsertCol` for the last
   * id of `ids` turns "each row gained the column once per occurrence in the
   * earlier ids" into the same statement for all of `ids`.
   */
  lemma GainStep(m: map<string, Row>, prev: map<string, Row>, next: map<string, Row>, ids: seq<string>, colId: string)
    requires |ids| > 0
    requires prev.Keys == m.Keys
    requires forall id :: id in m ==>
      prev[id] == m[id].(colIds := m[id].colIds + Repeat(colId, Count(ids[..|ids| - 1], id)))
    requires var last := ids[|ids| - 1];
      next == if last in prev then prev[last := prev[last].(colIds := prev[last].colIds + [colId])] else prev
    ensures next.Keys == m.Keys
    ensures forall id :: id in m ==>
      next[id] == m[id].(colIds := m[id].colIds + Repeat(colId, Count(ids, id)))
  {
    var n := |ids| - 1;
    forall id | id in m
      ensures next[id] == m[id].(colIds := m[id].colIds + Repeat(colId, Count(ids, id)))
    {
      RepeatCountSnoc(m[id].colIds, ids, id, colId);
    }
  }

  /**
   * One step of calling `rowInsertCol` for each row of `rows` in turn: the
   * next row's id is still indexed, and one more call extends both the
   * fan-out and the cells by that row.
   */
  lemma FanOutRowStep(rows0: seq<Row>, rows: seq<Row>, i: nat, colId: string)
    requires i < |rows| && rows[i].rowId in RowIndex(rows0)
    ensures rows[i].rowId in RowIndex(FanOut(rows0, RowIds(rows[..i]), colId))
    ensures FanOut(rows0, RowIds(rows[..i + 1]), colId) ==
      InsertColInto(FanOut(rows0, RowIds(rows[..i]), colId), rows[i].rowId, colId)
    ensures ColumnCells(RowIds(rows[..i + 1]), colId) ==
      ColumnCells(RowIds(rows[..i]), colId) + [CellKey(rows[i].rowId, colId)]
  {
    var done := RowIds(rows[..i]);
    var next := RowIds(rows[..i + 1]);
    assert next == done + [rows[i].rowId];
    assert next[..|done|] == done;
    FanOutIndex(rows0, done, colId);
    FanOutSnoc(rows0, done, rows[i].rowId, colId);
  }

  /**
   * `getRows` over `rowsMap` returns only rows whose id was requested and is
   * in the index, each being the index's entry under its id.
   */
  lemma {:induction false} LookupRowsRequested(rows: seq<Row>, ids: seq<string>)
    ensures forall r :: r in Lookup(RowIndex(rows), ids) ==>
      r.rowId in ids && r.rowId in RowIndex(rows) && RowIndex(rows)[r.rowId] == r
  {
    var m := RowIndex(rows);
    forall r | r in Lookup(m, ids)
      ensures r.rowId in ids && r.rowId in m && m[r.rowId] == r
    {
      var k :| k in ids && k in m && m[k] == r;
      RowIndexSound(rows, k);
    }
  }

  /** Every entry of the map is a row filed under its own id. */
  ghost predicate KeyedById(m: map<string, Row>)
  {
    forall k :: k in m ==> m[k].rowId == k
  }

  lemma RowIndexKeyed(rows: seq<Row>)
    ensures KeyedById(RowIndex(rows))
  {
    forall k | k in RowIndex(rows) ensures RowIndex(rows)[k].rowId == k {
      RowIndexSound(rows, k);
    }
  }

  /**
   * Looking up rows filed under their own ids, the ids of the rows found
   * name each filed row as often as the request does.
   */
  lemma {:induction false} LookupIdsCount(m: map<string, Row>, ids: seq<string>, id: string)
    requires KeyedById(m) && id in m
    ensures Count(RowIds(Lookup(m, ids)), id) == Count(ids, id)
  {
    if |ids| > 0 {
      var n := |ids| - 1;
      LookupIdsCount(m, ids[..n], id);
      CountSnoc(ids, id);
      var found := Lookup(m, ids[..n]);
      if ids[n] in m {
        assert Lookup(m, ids) == found + [m[ids[n]]];
        RowIdsSnoc(found, m[ids[n]]);
        CountAppendOne(RowIds(found), ids[n], id);
      } else {
        assert Lookup(m, ids) == found;
      }
    }
  }

  /**
   * The ids of the rows `getRows(ids)` finds name each indexed row as often
   * as `ids` does.
   */
  lemma LookupRowsCount(rows: seq<Row>, ids: seq<string>, id: string)
    requires id in RowIndex(rows)
    ensures Count(RowIds(Lookup(RowIndex(rows), ids)), id) == Count(ids, id)
  {
    RowIndexKeyed(rows);
    LookupIdsCount(RowIndex(rows), ids, id);
  }

  /**
   * `insertCol`'s fan-out: calling `rowInsertCol` for every row `getRows(ids)`
   * finds keeps the index's keys, and each indexed row gains the column once
   * per occurrence of its id in `ids`; rows not named there are unchanged.
   */
  lemma FanOutFound(rows: seq<Row>, ids: seq<string>, colId: string)
    ensures var m := RowIndex(rows);
      var m' := RowIndex(FanOut(rows, RowIds(Lookup(m, ids)), colId));
      m'.Keys == m.Keys &&
      forall id :: id in m ==>
        m'[id] == m[id].(colIds := m[id].colIds + Repeat(colId, Count(ids, id)))
  {
    var found := RowIds(Lookup(RowIndex(rows), ids));
    FanOutIndex(rows, found, colId);
    forall id | id in RowIndex(rows)
      ensures Count(found, id) == Count(ids, id)
    {
      LookupRowsCount(rows, ids, id);
    }
  }

  /**
   * `insertCol` on a table whose rows are listed once each: every listed
   * indexed row gains exactly the one new column, and every other row is
   * unchanged.
   */
  lemma FanOutFoundDistinct(rows: seq<Row>, ids: seq<string>, colId: string)
    requires forall i, j :: 0 <= i < j < |ids| ==> ids[i] != ids[j]
    ensures var m := RowIndex(rows);
      var m' := RowIndex(FanOut(rows, RowIds(Lookup(m, ids)), colId));
      m'.Keys == m.Keys &&
      forall id :: id in m ==>
        m'[id] == if id in ids then m[id].(colIds := m[id].colIds + [colId]) else m[id]
  {
    var m := RowIndex(rows);
    FanOutFound(rows, ids, colId);
    forall id | id in m
      ensures m[id].colIds + Repeat(colId, Count(ids, id)) ==
        if id in ids then m[id].colIds + [colId] else m[id].colIds
    {
      CountDistinct(ids, id);
      if id in ids {
        assert Repeat(colId, 1) == [colId];
      } else {
        assert m[id].colIds + Repeat(colId, 0) == m[id].colIds;
      }
    }
  }

  /**
   * The row store. `rows` and `rowsMap` are the store's state, `rowIdx` the
   * id counter, `cells` the `createCell` calls made so far; `issued` records
   * every id the counter has handed out.
   */
  class RowStore {
    var rows: seq<Row>
    var rowsMap: map<string, Row>
    var rowIdx: nat
    var cells: seq<CellKey>
    ghost var issued: seq<string>

    ghost predicate Valid()
      reads this
    {
      rowsMap == RowIndex(rows) &&
      rowIdx == InitialRowIdx + |issued| &&
      forall k :: 0 <= k < |issued| ==> issued[k] == RowName(InitialRowIdx + k)
    }

    /** Ids handed out by `createRow` are pairwise distinct. */
    lemma IssuedIdsDistinct()
      requires Valid()
      ensures forall i, j :: 0 <= i < j < |issued| ==> issued[i] != issued[j]
    {
      Decimal.IssuedDistinct("row-", InitialRowIdx, issued);
    }

    constructor (initial: seq<Row>)
      ensures Valid()
      ensures rows == initial && rowIdx == InitialRowIdx && cells == [] && issued == []
    {
      var index := BuildIndex(RowIds(initial), initial);
      rows := initial;
      rowsMap := index;
      rowIdx := InitialRowIdx;
      cells := [];
      issued := [];
    }

    /** `rowsMap` recomputed after `rows` changed. */
    method Reindex()
      modifies this`rowsMap
      ensures rowsMap == RowIndex(rows)
    {
      rowsMap := BuildIndex(RowIds(rows), rows);
    }

    /** The rows under `rowIds`, in that order, skipping ids with no row. */
    method GetRows(rowIds: seq<string>) returns (list: seq<Row>)
      requires Valid()
      ensures list == Lookup(rowsMap, rowIds)
    {
      list := [];
      var i := 0;
      while i < |rowIds|
        invariant 0 <= i <= |rowIds|
        invariant list == Lookup(rowsMap, rowIds[..i])
      {
        assert rowIds[..i + 1][..i] == rowIds[..i];
        if rowIds[i] in rowsMap {
          list := list + [rowsMap[rowIds[i]]];
        }
        i := i + 1;
      }
      assert rowIds[..i] == rowIds;
    }

    /**
     * A new row `row-N` with a copy of `colIds`, one cell per column, appended
     * after the existing rows; returns its id.
     */
    method CreateRow(colIds: seq<string>) returns (rowId: string)
      requires Valid()
      modifies this
      ensures Valid()
      ensures rowId == RowName(old(rowIdx)) && rowIdx == old(rowIdx) + 1
      ensures issued == old(issued) + [rowId]
      ensures rows == old(rows) + [Row(rowId, colIds)]
      ensures rowsMap == old(rowsMap)[rowId := Row(rowId, colIds)]
      ensures cells == old(cells) + CellsFor(rowId, colIds)
    {
      rowId := RowName(rowIdx);
      rowIdx := rowIdx + 1;
      issued := issued + [rowId];
      var row := Row(rowId, colIds);
      var created := cells;
      var i := 0;
      while i < |colIds|
        invariant 0 <= i <= |colIds|
        invariant created == old(cells) + CellsFor(rowId, colIds[..i])
      {
        created := created + [CellKey(rowId, colIds[i])];
        i := i + 1;
      }
      assert colIds[..i] == colIds;
      cells := created;
      IndexMapAppend(RowIds(rows), rows, rowId, row);
      RowIdsSnoc(rows, row);
      rows := rows + [row];
      Reindex();
    }

    /**
     * Appends `colId` to the columns of the row under `rowId`, creating its
     * cell; an id with no row changes nothing.
     */
    method RowInsertCol(rowId: string, colId: string)
      requires Valid()
      modifies this
      ensures Valid()
      ensures rowIdx == old(rowIdx) && issued == old(issued)
      ensures rows == InsertColInto(old(rows), rowId, colId)
      ensures rowId !in old(rowsMap) ==>
        rows == old(rows) && rowsMap == old(rowsMap) && cells == old(cells)
      ensures rowId in old(rowsMap) ==>
        rowsMap == old(rowsMap)[rowId := old(rowsMap)[rowId].(colIds := old(rowsMap)[rowId].colIds + [colId])] &&
        cells == old(cells) + [CellKey(rowId, colId)]
    {
      InsertColIntoIndex(rows, rowId, colId);
      RowIndexSound(rows, rowId);
      if rowId !in rowsMap {
        assert rowId !in RowIds(rows);
        return;
      }
      var row := rowsMap[rowId];
      cells := cells + [CellKey(row.rowId, colId)];
      // `row` is the list's last row with this id; the push changes it in place
      var k := LastIndex(RowIds(rows), rowId);
      rows := rows[k := row.(colIds := row.colIds + [colId])];
      Reindex();
    }
  }
}
