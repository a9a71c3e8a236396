/**
  The vocabulary shared by the header layout and the row codecs: the style
  descriptor a header node or a body column carries, the content of one
  spreadsheet cell, one cell written to the sheet, and one merged region.
 */
module Grid {
  import opened Base

  datatype HAlign = Left | Center | Right
  datatype VAlign = Top | VCenter | Bottom

  /** ExcelStyle: an opaque presentation descriptor that only the workbook
      interprets. Unset members are None (Java null); a font size of 0 means
      "keep the workbook default". */
  datatype Style = Style(
    fontName: Option<string>,
    fontSize: int,
    bold: bool,
    backgroundColor: Option<nat>,
    alignment: Option<HAlign>,
    verticalAlignment: Option<VAlign>)

  /** The content and type of one cell (POI's CellType): a cell the
      generator creates but never fills is Blank; Other stands for formula
      and error cells, which the generator never writes. */
  datatype Cell =
    | StringCell(text: string)
    | NumericCell(number: real)
    | BooleanCell(flag: bool)
    | BlankCell
    | OtherCell

  /** One cell written to the sheet, with the style descriptor applied to it
      (None: the workbook's default style, as for a node without a style). */
  datatype CellWrite = CellWrite(row: nat, col: nat, content: Cell, style: Option<Style>)

  /** CellRangeAddress: an inclusive rectangle of merged cells. */
  datatype Region = Region(firstRow: nat, lastRow: nat, firstCol: nat, lastCol: nat)
  {
    /** A region the sheet accepts: at least one row and one column, and more
        than one cell in all. */
    predicate IsMergeable() {
      firstRow <= lastRow && firstCol <= lastCol && (firstRow < lastRow || firstCol < lastCol)
    }
  }
}
