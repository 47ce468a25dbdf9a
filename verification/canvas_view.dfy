/**
 * The canvas table container: it derives the per-row heights and per-column
 * widths the scroll view is sized by, keeps the scroll offset the scroll view
 * reports, maps the scroll view's visible rows to row elements, and lays out
 * the four panes (corner, row header, column header, body), handing each
 * header the one offset axis it scrolls along.
 */
module CanvasView {
  import opened Wrappers
  import Decimal

  /** The size of one cell of the canvas table. */
  datatype Cell = Cell(width: int, height: int)
  datatype SheetRow = SheetRow(cells: seq<Cell>)

  /** The body's scroll position. */
  datatype Offset = Offset(x: int, y: int)

  /** `Partial<IOffset>`: the axes a scroll report supplies. */
  datatype PartialOffset = PartialOffset(x: Option<int>, y: Option<int>)

  const ColHeaderHeight: int := 24
  const RowHeaderWidth: int := 50

  /** The offset before any scrolling. */
  const InitialOffset := Offset(0, 0)

  /** `heights`: each row's height, read off its first cell. */
  function Heights(rows: seq<SheetRow>): (hs: seq<int>)
    requires forall i :: 0 <= i < |rows| ==> |rows[i].cells| > 0
    ensures |hs| == |rows|
    ensures forall i :: 0 <= i < |rows| ==> hs[i] == rows[i].cells[0].height
  {
    if |rows| == 0 then []
    else Heights(rows[..|rows| - 1]) + [rows[|rows| - 1].cells[0].height]
  }

  function CellWidths(cells: seq<Cell>): (ws: seq<int>)
    ensures |ws| == |cells|
    ensures forall j :: 0 <= j < |cells| ==> ws[j] == cells[j].width
  {
    if |cells| == 0 then []
    else CellWidths(cells[..|cells| - 1]) + [cells[|cells| - 1].width]
  }

  /** `widths`: each column's width, read off the first row's cells. */
  function Widths(rows: seq<SheetRow>): (ws: seq<int>)
    requires |rows| > 0
    ensures |ws| == |rows[0].cells|
    ensures forall j :: 0 <= j < |ws| ==> ws[j] == rows[0].cells[j].width
  {
    CellWidths(rows[0].cells)
  }

  /** `{ ...pre, ...partial }` */
  function MergeOffset(pre: Offset, partial: PartialOffset): Offset
  {
    Offset(if partial.x.Some? then partial.x.value else pre.x,
           if partial.y.Some? then partial.y.value else pre.y)
  }

  /**
   * A scroll report overwrites exactly the axes it supplies: reporting an
   * axis sets it, leaving one out keeps the previous value, and reporting the
   * same thing twice changes nothing the second time.
   */
  lemma MergeOffsetAxes(pre: Offset, partial: PartialOffset)
    ensures partial.x == None ==> MergeOffset(pre, partial).x == pre.x
    ensures partial.y == None ==> MergeOffset(pre, partial).y == pre.y
    ensures partial.x.Some? ==> MergeOffset(pre, partial).x == partial.x.value
    ensures partial.y.Some? ==> MergeOffset(pre, partial).y == partial.y.value
    ensures MergeOffset(MergeOffset(pre, partial), partial) == MergeOffset(pre, partial)
    ensures MergeOffset(pre, PartialOffset(None, None)) == pre
  {
  }

  /** A visible row as the scroll view reports it: the index of the data row. */
  datatype RenderAttrRow = RenderAttrRow(rowIndex: int)

  /** One `<Row>` element of `renderRows`. */
  datatype RowElement = RowElement(key: string, renderAttrRow: RenderAttrRow, row: Option<SheetRow>, visibleRowIdx: nat)

  /** `rows[i]`, undefined outside the list. */
  function RowAt(rows: seq<SheetRow>, i: int): Option<SheetRow>
  {
    if 0 <= i < |rows| then Some(rows[i]) else None
  }

  /** `row-${dataRowIdx}` */
  function RowKey(dataRowIdx: int): string
  {
    "row-" + Decimal.IntText(dataRowIdx)
  }

  /**
   * `renderRows`: one row element per visible row, in order, keyed by its
   * data row index, showing that data row, and numbered by its position.
   */
  function RenderRows(rows: seq<SheetRow>, attrs: seq<RenderAttrRow>): (els: seq<RowElement>)
    ensures |els| == |attrs|
    ensures forall i :: 0 <= i < |attrs| ==>
      els[i].visibleRowIdx == i &&
      els[i].renderAttrRow == attrs[i] &&
      els[i].key == RowKey(attrs[i].rowIndex) &&
      els[i].row == RowAt(rows, attrs[i].rowIndex)
  {
    if |attrs| == 0 then []
    else
      var i := |attrs| - 1;
      RenderRows(rows, attrs[..i]) + [RowElement(RowKey(attrs[i].rowIndex), attrs[i], RowAt(rows, attrs[i].rowIndex), i)]
  }

  /** Two row elements share a key exactly when they show the same data row. */
  lemma RenderRowKeysDistinct(rows: seq<SheetRow>, attrs: seq<RenderAttrRow>, i: nat, j: nat)
    requires i < |attrs| && j < |attrs|
    ensures RenderRows(rows, attrs)[i].key == RenderRows(rows, attrs)[j].key <==>
      attrs[i].rowIndex == attrs[j].rowIndex
  {
    var els := RenderRows(rows, attrs);
    if els[i].key == els[j].key {
      assert Decimal.IntText(attrs[i].rowIndex) == els[i].key[4..];
      assert Decimal.IntText(attrs[j].rowIndex) == els[j].key[4..];
      Decimal.IntTextInjective(attrs[i].rowIndex, attrs[j].rowIndex);
    }
  }

  /**
   * One pane of the container: its position and size, and the offset axes
   * it is given (`None` for an axis it does not scroll along).
   */
  datatype Pane = Pane(left: int, top: int, width: int, height: int, offsetX: Option<int>, offsetY: Option<int>)

  datatype Layout = Layout(corner: Pane, rowHeader: Pane, colHeader: Pane, body: Pane)

  /**
   * The container's panes for a box of `boxWidth` by `boxHeight` and the
   * current offset. The body is the scroll view itself, which reports the
   * offset rather than receiving it.
   */
  function PaneLayout(boxWidth: int, boxHeight: int, offset: Offset): Layout
  {
    Layout(
      Pane(0, 0, RowHeaderWidth, ColHeaderHeight, None, None),
      Pane(0, ColHeaderHeight, RowHeaderWidth, boxHeight - ColHeaderHeight, None, Some(offset.y)),
      Pane(RowHeaderWidth, 0, boxWidth - RowHeaderWidth, ColHeaderHeight, Some(offset.x), None),
      Pane(RowHeaderWidth, ColHeaderHeight, boxWidth - RowHeaderWidth, boxHeight - ColHeaderHeight, None, None))
  }

  /**
   * The row header follows only the vertical offset, the column header only
   * the horizontal one, and the corner and the body's frame neither.
   */
  lemma PaneOffsets(boxWidth: int, boxHeight: int, o1: Offset, o2: Offset)
    ensures var l1, l2 := PaneLayout(boxWidth, boxHeight, o1), PaneLayout(boxWidth, boxHeight, o2);
      (l1.rowHeader == l2.rowHeader <==> o1.y == o2.y) &&
      (l1.colHeader == l2.colHeader <==> o1.x == o2.x) &&
      l1.corner == l2.corner && l1.body == l2.body
  {
  }

  /**
   * The panes tile the box: the body's viewport is the box less the headers,
   * as wide as the column header and as tall as the row header, and each
   * header starts where the corner ends.
   */
  lemma PanesTile(boxWidth: int, boxHeight: int, offset: Offset)
    ensures var l := PaneLayout(boxWidth, boxHeight, offset);
      l.body.width == boxWidth - RowHeaderWidth && l.body.height == boxHeight - ColHeaderHeight &&
      l.body.width == l.colHeader.width && l.body.height == l.rowHeader.height &&
      l.rowHeader.top == l.corner.height && l.colHeader.left == l.corner.width &&
      l.body.left == l.rowHeader.width && l.body.top == l.colHeader.height &&
      l.corner.width + l.colHeader.width == boxWidth && l.corner.height + l.rowHeader.height == boxHeight
  {
  }

  /** The container's state: the table's rows and the scroll offset. */
  class TableView {
    var rows: seq<SheetRow>
    var offset: Offset

    constructor (rows: seq<SheetRow>)
      ensures this.rows == rows && offset == InitialOffset
    {
      this.rows := rows;
      offset := InitialOffset;
    }

    /** `handleScroll`: merges the reported axes into the stored offset. */
    method HandleScroll(partial: PartialOffset)
      modifies this`offset
      ensures offset == MergeOffset(old(offset), partial)
    {
      offset := MergeOffset(offset, partial);
    }
  }
}
