/**
 * The table store of the table editor: the list of tables, the
 * id-to-table index rebuilt from it, the table-id counter, and the
 * operations `createTable`, `insertRow` and `insertCol`, which reach into
 * the row store.
 */
module TableModel {
  import opened KeyedIndex
  import opened RowModel
  import Decimal

  /** A table: its id and the ids of its rows and of its columns, in order. */
  datatype Table = Table(tableId: string, rowIds: seq<string>, colIds: seq<string>)

  /** The table-id counter starts after the mock table. */
  const InitialTableIdx: nat := 1 + 1

  /** `table-${n}` */
  function TableName(n: nat): string
  {
    Decimal.Name("table-", n)
  }

  function TableIds(tables: seq<Table>): (ids: seq<string>)
    ensures |ids| == |tables|
  {
    seq(|tables|, i requires 0 <= i < |tables| => tables[i].tableId)
  }

  lemma TableIdsSnoc(tables: seq<Table>, table: Table)
    ensures TableIds(tables + [table]) == TableIds(tables) + [table.tableId]
  {
  }

  /** `tablesMap`: the index the store rebuilds from `tables`. */
  function TableIndex(tables: seq<Table>): map<string, Table>
  {
    IndexMap(TableIds(tables), tables)
  }

  /**
   * `tablesMap` has an entry for exactly the ids of the tables in the list,
   * and the entry under an id is the last table in the list with that id.
   */
  lemma TableIndexSound(tables: seq<Table>, id: string)
    ensures id in TableIndex(tables) <==> exists i :: 0 <= i < |tables| && tables[i].tableId == id
    ensures id in TableIndex(tables) ==>
      var i := LastIndex(TableIds(tables), id);
      0 <= i < |tables| && TableIndex(tables)[id] == tables[i] && tables[i].tableId == id
  {
    IndexMapLast(TableIds(tables), tables);
    if exists i :: 0 <= i < |tables| && tables[i].tableId == id {
      var i :| 0 <= i < |tables| && tables[i].tableId == id;
      assert TableIds(tables)[i] == id;
    }
  }

  /**
   * The list after the table object that the index holds under `t.tableId`
   * has been changed in place into `t`.
   */
  function SetTable(tables: seq<Table>, t: Table): (r: seq<Table>)
    ensures |r| == |tables|
  {
    var k := LastIndex(TableIds(tables), t.tableId);
    if k < 0 then tables else tables[k := t]
  }

  /**
   * Changing the table the index holds under an id, keeping the id, changes
   * that one entry of the index; in the list it replaces the table at the
   * id's last position and leaves every other position as it was.
   */
  lemma SetTableIndex(tables: seq<Table>, t: Table)
    requires t.tableId in TableIndex(tables)
    ensures |SetTable(tables, t)| == |tables|
    ensures TableIndex(SetTable(tables, t)) == TableIndex(tables)[t.tableId := t]
    ensures var k := LastIndex(TableIds(tables), t.tableId);
      0 <= k < |tables| && tables[k] == TableIndex(tables)[t.tableId] && SetTable(tables, t)[k] == t &&
      forall i :: 0 <= i < |tables| && i != k ==> SetTable(tables, t)[i] == tables[i]
  {
    TableIndexSound(tables, t.tableId);
    var k := LastIndex(TableIds(tables), t.tableId);
    assert TableIds(tables[k := t]) == TableIds(tables);
    IndexMapUpdate(TableIds(tables), tables, k, t);
  }

  /**
   * The table store, over the row store it shares. `issued` records every id
   * the table counter has handed out.
   */
  class TableStore {
    var tables: seq<Table>
    var tablesMap: map<string, Table>
    var tableIdx: nat
    ghost var issued: seq<string>
    const rowStore: RowStore

    ghost predicate Valid()
      reads this, rowStore
    {
      tablesMap == TableIndex(tables) &&
      rowStore.Valid() &&
      tableIdx == InitialTableIdx + |issued| &&
      forall k :: 0 <= k < |issued| ==> issued[k] == TableName(InitialTableIdx + k)
    }

    /** Ids handed out by `createTable` are pairwise distinct. */
    lemma IssuedIdsDistinct()
      requires Valid()
      ensures forall i, j :: 0 <= i < j < |issued| ==> issued[i] != issued[j]
    {
      Decimal.IssuedDistinct("table-", InitialTableIdx, issued);
    }

    constructor (initial: seq<Table>, rowStore: RowStore)
      requires rowStore.Valid()
      ensures Valid()
      ensures tables == initial && tableIdx == InitialTableIdx && issued == []
      ensures this.rowStore == rowStore
    {
      var index := BuildIndex(TableIds(initial), initial);
      tables := initial;
      tablesMap := index;
      tableIdx := InitialTableIdx;
      issued := [];
      this.rowStore := rowStore;
    }

    /** `tablesMap` recomputed after `tables` changed. */
    method Reindex()
      modifies this`tablesMap
      ensures tablesMap == TableIndex(tables)
    {
      tablesMap := BuildIndex(TableIds(tables), tables);
    }

    /** A new empty table `table-N` after the existing tables; returns its id. */
    method CreateTable() returns (tableId: string)
      requires Valid()
      modifies this
      ensures Valid()
      ensures tableId == TableName(old(tableIdx)) && tableIdx == old(tableIdx) + 1
      ensures issued == old(issued) + [tableId]
      ensures tables == old(tables) + [Table(tableId, [], [])]
      ensures tablesMap == old(tablesMap)[tableId := Table(tableId, [], [])]
    {
      tableId := TableName(tableIdx);
      tableIdx := tableIdx + 1;
      issued := issued + [tableId];
      var table := Table(tableId, [], []);
      IndexMapAppend(TableIds(tables), tables, tableId, table);
      TableIdsSnoc(tables, table);
      tables := tables + [table];
      Reindex();
    }

    /**
     * Creates a row with the table's columns and appends its id to the
     * table's rows; an unknown table id changes nothing.
     */
    method InsertRow(tableId: string)
      requires Valid()
      modifies this, rowStore
      ensures Valid()
      ensures tableIdx == old(tableIdx) && issued == old(issued)
      ensures tableId !in old(tablesMap) ==> unchanged(this) && unchanged(rowStore)
      ensures tableId in old(tablesMap) ==>
        var t := old(tablesMap)[tableId];
        var rowId := RowName(old(rowStore.rowIdx));
        var t' := t.(rowIds := t.rowIds + [rowId]);
        tables == SetTable(old(tables), t') &&
        tablesMap == old(tablesMap)[tableId := t'] &&
        rowStore.rows == old(rowStore.rows) + [Row(rowId, t.colIds)] &&
        rowStore.cells == old(rowStore.cells) + CellsFor(rowId, t.colIds) &&
        rowStore.rowIdx == old(rowStore.rowIdx) + 1
    {
      if tableId !in tablesMap {
        return;
      }
      var table := tablesMap[tableId];
      TableIndexSound(tables, tableId);
      var rowId := rowStore.CreateRow(table.colIds);
      // `table` is the list's last table with this id; the push changes it in place
      var updated := table.(rowIds := table.rowIds + [rowId]);
      SetTableIndex(tables, updated);
      var k := LastIndex(TableIds(tables), tableId);
      tables := tables[k := updated];
      Reindex();
    }

    /**
     * `rows.forEach((row) => rowInsertCol(row.rowId, colId))` over rows the
     * row store holds.
     */
    method EachRowInsertCol(rows: seq<Row>, colId: string)
      requires rowStore.Valid()
      requires forall r :: r in rows ==> r.rowId in rowStore.rowsMap
      modifies rowStore
      ensures rowStore.Valid()
      ensures rowStore.rows == FanOut(old(rowStore.rows), RowIds(rows), colId)
      ensures rowStore.cells == old(rowStore.cells) + ColumnCells(RowIds(rows), colId)
      ensures rowStore.rowIdx == old(rowStore.rowIdx) && rowStore.issued == old(rowStore.issued)
    {
      ghost var rows0 := rowStore.rows;
      var i := 0;
      while i < |rows|
        invariant 0 <= i <= |rows|
        invariant rowStore.Valid()
        invariant rowStore.rows == FanOut(rows0, RowIds(rows[..i]), colId)
        invariant rowStore.cells == old(rowStore.cells) + ColumnCells(RowIds(rows[..i]), colId)
        invariant rowStore.rowIdx == old(rowStore.rowIdx) && rowStore.issued == old(rowStore.issued)
      {
        assert rows[i] in rows;
        FanOutRowStep(rows0, rows, i, colId);
        rowStore.RowInsertCol(rows[i].rowId, colId);
        i := i + 1;
      }
      assert rows[..i] == rows;
    }

    /**
     * Appends the new column `colId` (the id the column store's `createCol`
     * returned) to every row of the table that the row store finds, one
     * `rowInsertCol` per row, then to the table's columns; an unknown table
     * id changes nothing.
     */
    method InsertCol(tableId: string, colId: string)
      requires Valid()
      modifies this, rowStore
      ensures Valid()
      ensures tableIdx == old(tableIdx) && issued == old(issued)
      ensures tableId !in old(tablesMap) ==> unchanged(this) && unchanged(rowStore)
      ensures tableId in old(tablesMap) ==>
        var t := old(tablesMap)[tableId];
        var t' := t.(colIds := t.colIds + [colId]);
        var found := RowIds(Lookup(old(rowStore.rowsMap), t.rowIds));
        tables == SetTable(old(tables), t') &&
        tablesMap == old(tablesMap)[tableId := t'] &&
        rowStore.rows == FanOut(old(rowStore.rows), found, colId) &&
        rowStore.cells == old(rowStore.cells) + ColumnCells(found, colId) &&
        rowStore.rowIdx == old(rowStore.rowIdx)
      ensures tableId in old(tablesMap) ==>
        var t := old(tablesMap)[tableId];
        rowStore.rowsMap.Keys == old(rowStore.rowsMap).Keys &&
        forall id :: id in old(rowStore.rowsMap) ==>
          rowStore.rowsMap[id] ==
            old(rowStore.rowsMap)[id].(colIds := old(rowStore.rowsMap)[id].colIds + Repeat(colId, Count(t.rowIds, id)))
    {
      if tableId !in tablesMap {
        return;
      }
      var table := tablesMap[tableId];
      TableIndexSound(tables, tableId);
      ghost var rows0 := rowStore.rows;
      var rows := rowStore.GetRows(table.rowIds);
      LookupRowsRequested(rows0, table.rowIds);
      EachRowInsertCol(rows, colId);
      FanOutFound(rows0, table.rowIds, colId);
      // `table` is the list's last table with this id; the push changes it in place
      var updated := table.(colIds := table.colIds + [colId]);
      SetTableIndex(tables, updated);
      var k := LastIndex(TableIds(tables), tableId);
      tables := tables[k := updated];
      Reindex();
    }
  }
}
