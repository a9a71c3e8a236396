/**
  generateExcel: the header is rendered from (0, 0), the leaves of the header
  tree give the columns, and each record of the data list fills one row
  below the header, one cell per leaf, styled from the body style map or by
  defaultBodyStyle.

  The workbook is the list of cells written and the list of regions merged;
  the pure definition Export is what GenerateExcel builds, and the lemmas
  after it say where every header title and every value ends up.
 */
module ExcelExport {
  import opened Base
  import opened Grid
  import opened HeaderTree
  import opened HeaderLayout
  import opened FieldMapper

  /** The sheet as it stands when the file would be written. */
  datatype Workbook = Workbook(cells: seq<CellWrite>, merges: seq<Region>)

  /** The body style map: a style per field name; a null entry is None. */
  type StyleMap = map<string, Option<Style>>

  const DefaultFontName: string := "맑은 고딕"

  // ---------------------------------------------------------------------------
  // One body cell

  /** defaultBodyStyle: the default font at 10 points, vertically centred;
      numbers right-aligned, anything else (null included) centred. */
  function DefaultBodyStyle(value: Option<Value>): (s: Style)
    ensures s.fontName == Some(DefaultFontName) && s.fontSize == 10
    ensures !s.bold && s.backgroundColor.None? && s.verticalAlignment == Some(VCenter)
    ensures s.alignment == Some(Right) <==> value.Some? && IsNumber(value.value)
    ensures s.alignment == Some(Center) <==> !(value.Some? && IsNumber(value.value))
  {
    var horizontal := if value.Some? && IsNumber(value.value) then Right else Center;
    Style(Some(DefaultFontName), 10, false, None, Some(horizontal), Some(VCenter))
  }

  /** What the body loop writes into a cell: nothing for null, the
      doubleValue of a Number, the toString of anything else. */
  function EncodeCell(value: Option<Value>): (c: Cell)
    ensures c.BlankCell? <==> value.None?
    ensures c.NumericCell? <==> value.Some? && IsNumber(value.value)
    ensures c.NumericCell? ==> c.number == NumberValue(value.value)
    ensures c.StringCell? ==> c.text == Text(value.value)
    ensures !c.BooleanCell? && !c.OtherCell?
  {
    match value
    case None => BlankCell
    case Some(v) => if IsNumber(v) then NumericCell(NumberValue(v)) else StringCell(Text(v))
  }

  /** A number is right-aligned by default exactly when it is written as a
      numeric cell; text and blank cells are centred. */
  lemma DefaultAlignmentFollowsContent(value: Option<Value>)
    ensures DefaultBodyStyle(value).alignment == Some(Right) <==> EncodeCell(value).NumericCell?
    ensures DefaultBodyStyle(value).alignment == Some(Center) <==> !EncodeCell(value).NumericCell?
  {
  }

  /** bodyStyleMap.getOrDefault(fieldName, defaultBodyStyle(value)). */
  function BodyStyle(styles: StyleMap, fieldName: string, value: Option<Value>): (s: Option<Style>)
    ensures fieldName in styles ==> s == styles[fieldName]
    ensures s.None? ==> fieldName in styles
    ensures fieldName !in styles ==>
              && s.Some? && s.value.fontName == Some(DefaultFontName)
              && (s.value.alignment == Some(Right) <==> value.Some? && IsNumber(value.value))
  {
    if fieldName in styles then styles[fieldName] else Some(DefaultBodyStyle(value))
  }

  /** getFieldValue throws for this record and this leaf column. */
  predicate Unreadable(dto: Record, leaf: Node) {
    leaf.fieldName.None? || leaf.fieldName.value !in dto
  }

  /** The cell the value of leaf in dto becomes at (row, col). */
  function ValueCell(dto: Record, leaf: Node, styles: StyleMap, row: nat, col: nat): CellWrite
    requires !Unreadable(dto, leaf)
  {
    var value := dto[leaf.fieldName.value];
    CellWrite(row, col, EncodeCell(value), BodyStyle(styles, leaf.fieldName.value, value))
  }

  /** One turn of the inner loop: read the field, then write the cell. */
  function BodyCell(dto: Record, leaf: Node, styles: StyleMap, row: nat, col: nat): Result<CellWrite> {
    match GetFieldValue(dto, leaf.fieldName)
    case Failure(e) => Failure(e)
    case Success(value) =>
      Success(CellWrite(row, col, EncodeCell(value), BodyStyle(styles, leaf.fieldName.value, value)))
  }

  // ---------------------------------------------------------------------------
  // Rows and the whole sheet

  /** The cells of one record on the given row, one per leaf, from column 0;
      the first unreadable field aborts. */
  function RowCells(leaves: seq<Node>, dto: Record, styles: StyleMap, row: nat): Result<seq<CellWrite>> {
    if leaves == [] then Success([])
    else
      match RowCells(leaves[..|leaves| - 1], dto, styles, row)
      case Failure(e) => Failure(e)
      case Success(cells) =>
        match BodyCell(dto, leaves[|leaves| - 1], styles, row, |leaves| - 1)
        case Failure(e) => Failure(e)
        case Success(w) => Success(cells + [w])
  }

  /** The outcome of each record's row, record k on row row0 + k. */
  function RowsOf(leaves: seq<Node>, data: seq<Record>, styles: StyleMap, row0: nat): seq<Result<seq<CellWrite>>> {
    seq(|data|, k requires 0 <= k < |data| => RowCells(leaves, data[k], styles, row0 + k))
  }

  /** The rows one after the other; the first failing row aborts. */
  function Flatten<T>(rows: seq<Result<seq<T>>>): Result<seq<T>> {
    if rows == [] then Success([])
    else
      match Flatten(rows[..|rows| - 1])
      case Failure(e) => Failure(e)
      case Success(cells) =>
        match rows[|rows| - 1]
        case Failure(e) => Failure(e)
        case Success(last) => Success(cells + last)
  }

  /** The cells of every record, record by record. */
  function BodyRows(leaves: seq<Node>, data: seq<Record>, styles: StyleMap, row0: nat): Result<seq<CellWrite>> {
    Flatten(RowsOf(leaves, data, styles, row0))
  }

  /** The sheet generateExcel writes to the file: the header from (0, 0),
      then the body from row getDepth(headerRoot). */
  function Export(root: Node, data: seq<Record>, styles: StyleMap): (r: Result<Workbook>)
    ensures data == [] ==> r == Success(Workbook(HeaderCells(root, 0, 0), HeaderMerges(root, 0, 0)))
    ensures r.Success? ==> r.value.merges == HeaderMerges(root, 0, 0)
  {
    assert data == [] ==> RowsOf(Leaves(root), data, styles, Depth(root)) == [] &&
                          BodyRows(Leaves(root), data, styles, Depth(root)) == Success([]);
    assert HeaderCells(root, 0, 0) + [] == HeaderCells(root, 0, 0);
    match BodyRows(Leaves(root), data, styles, Depth(root))
    case Failure(e) => Failure(e)
    case Success(body) => Success(Workbook(HeaderCells(root, 0, 0) + body, HeaderMerges(root, 0, 0)))
  }

  // ---------------------------------------------------------------------------
  // generateExcel

  /** generateExcel, up to the point where the workbook is written out. */
  method GenerateExcel(headerRoot: Node, dataList: seq<Record>, bodyStyleMap: StyleMap)
    returns (r: Result<Workbook>)
    ensures r == Export(headerRoot, dataList, bodyStyleMap)
  {
    var sheet := new Sheet();
    var _ := RenderHeader(sheet, headerRoot, 0, 0);
    assert sheet.cells == HeaderCells(headerRoot, 0, 0) && sheet.merges == HeaderMerges(headerRoot, 0, 0);
    var leafNodes := CollectLeafNodes(headerRoot);
    var failure := WriteBody(sheet, leafNodes, dataList, bodyStyleMap, Depth(headerRoot));
    if failure.Some? {
      return Failure(failure.value);
    }
    return Success(Workbook(sheet.cells, sheet.merges));
  }

  /** The body loop of generateExcel: the records one per row from row0 on,
      until a field cannot be read. */
  method WriteBody(sheet: Sheet, leafNodes: seq<Node>, dataList: seq<Record>, bodyStyleMap: StyleMap, row0: nat)
    returns (failure: Option<Error>)
    modifies sheet
    ensures sheet.merges == old(sheet.merges)
    ensures BodyRows(leafNodes, dataList, bodyStyleMap, row0).Failure? ==>
              failure == Some(BodyRows(leafNodes, dataList, bodyStyleMap, row0).error)
    ensures BodyRows(leafNodes, dataList, bodyStyleMap, row0).Success? ==>
              failure.None? && sheet.cells == old(sheet.cells) + BodyRows(leafNodes, dataList, bodyStyleMap, row0).value
  {
    var rowIdx := row0;
    ghost var body: seq<CellWrite> := [];
    for k := 0 to |dataList|
      invariant rowIdx == row0 + k
      invariant sheet.cells == old(sheet.cells) + body
      invariant sheet.merges == old(sheet.merges)
      invariant BodyRows(leafNodes, dataList[..k], bodyStyleMap, row0) == Success(body)
    {
      BodyRowsStep(leafNodes, dataList, bodyStyleMap, row0, k, body);
      failure := WriteRecord(sheet, leafNodes, dataList[k], bodyStyleMap, rowIdx);
      if failure.Some? {
        BodyRowsFailurePersists(leafNodes, dataList, bodyStyleMap, row0, k + 1);
        return;
      }
      body := body + RowCells(leafNodes, dataList[k], bodyStyleMap, rowIdx).value;
      rowIdx := rowIdx + 1;
    }
    assert dataList[..|dataList|] == dataList;
    return None;
  }

  /** The inner loop of generateExcel: one cell per leaf on row rowIdx,
      from column 0, until a field cannot be read. */
  method WriteRecord(sheet: Sheet, leafNodes: seq<Node>, dto: Record, bodyStyleMap: StyleMap, rowIdx: nat)
    returns (failure: Option<Error>)
    modifies sheet
    ensures sheet.merges == old(sheet.merges)
    ensures RowCells(leafNodes, dto, bodyStyleMap, rowIdx).Failure? ==>
              failure == Some(RowCells(leafNodes, dto, bodyStyleMap, rowIdx).error)
    ensures RowCells(leafNodes, dto, bodyStyleMap, rowIdx).Success? ==>
              failure.None? && sheet.cells == old(sheet.cells) + RowCells(leafNodes, dto, bodyStyleMap, rowIdx).value
  {
    var colIdx := 0;
    ghost var rowCells: seq<CellWrite> := [];
    for j := 0 to |leafNodes|
      invariant colIdx == j
      invariant sheet.cells == old(sheet.cells) + rowCells
      invariant sheet.merges == old(sheet.merges)
      invariant RowCells(leafNodes[..j], dto, bodyStyleMap, rowIdx) == Success(rowCells)
    {
      var leaf := leafNodes[j];
      var col := colIdx;
      colIdx := colIdx + 1;
      var value := GetFieldValue(dto, leaf.fieldName);
      RowCellsStep(leafNodes, dto, bodyStyleMap, rowIdx, j, rowCells);
      if value.Failure? {
        RowCellsFailurePersists(leafNodes, dto, bodyStyleMap, rowIdx, j + 1);
        return Some(value.error);
      }
      var style := BodyStyle(bodyStyleMap, leaf.fieldName.value, value.value);
      sheet.SetCell(rowIdx, col, EncodeCell(value.value), style);
      rowCells := rowCells + [CellWrite(rowIdx, col, EncodeCell(value.value), style)];
    }
    assert leafNodes[..|leafNodes|] == leafNodes;
    return None;
  }

  /** One more leaf after a successful prefix: the row fails with what
      getFieldValue throws, or gains the cell of that leaf. */
  lemma RowCellsStep(leaves: seq<Node>, dto: Record, styles: StyleMap, row: nat, j: nat, cells: seq<CellWrite>)
    requires j < |leaves| && RowCells(leaves[..j], dto, styles, row) == Success(cells)
    ensures Unreadable(dto, leaves[j]) ==>
              RowCells(leaves[..j + 1], dto, styles, row) == Failure(GetFieldValue(dto, leaves[j].fieldName).error)
    ensures !Unreadable(dto, leaves[j]) ==>
              RowCells(leaves[..j + 1], dto, styles, row) == Success(cells + [ValueCell(dto, leaves[j], styles, row, j)])
  {
    assert leaves[..j + 1][..j] == leaves[..j];
  }

  /** One more record after a successful prefix: the body fails as that
      record's row does, or gains that row. */
  lemma BodyRowsStep(leaves: seq<Node>, data: seq<Record>, styles: StyleMap, row0: nat, k: nat, cells: seq<CellWrite>)
    requires k < |data| && BodyRows(leaves, data[..k], styles, row0) == Success(cells)
    ensures RowCells(leaves, data[k], styles, row0 + k).Failure? ==>
              BodyRows(leaves, data[..k + 1], styles, row0) == RowCells(leaves, data[k], styles, row0 + k)
    ensures RowCells(leaves, data[k], styles, row0 + k).Success? ==>
              BodyRows(leaves, data[..k + 1], styles, row0) == Success(cells + RowCells(leaves, data[k], styles, row0 + k).value)
  {
    var rows := RowsOf(leaves, data[..k + 1], styles, row0);
    assert rows[..k] == RowsOf(leaves, data[..k], styles, row0);
  }

  /** Once a prefix of the leaves fails, the whole row fails the same way. */
  lemma {:induction false} RowCellsFailurePersists(leaves: seq<Node>, dto: Record, styles: StyleMap, row: nat, j: nat)
    requires j <= |leaves| && RowCells(leaves[..j], dto, styles, row).Failure?
    ensures RowCells(leaves, dto, styles, row) == RowCells(leaves[..j], dto, styles, row)
    decreases |leaves| - j
  {
    if j == |leaves| {
      assert leaves[..j] == leaves;
    } else {
      var p := leaves[..|leaves| - 1];
      assert p[..j] == leaves[..j];
      RowCellsFailurePersists(p, dto, styles, row, j);
    }
  }

  /** Once a prefix of the rows fails, all of them fail the same way. */
  lemma {:induction false} FlattenFailurePersists<T>(rows: seq<Result<seq<T>>>, k: nat)
    requires k <= |rows| && Flatten(rows[..k]).Failure?
    ensures Flatten(rows) == Flatten(rows[..k])
    decreases |rows| - k
  {
    if k == |rows| {
      assert rows[..k] == rows;
    } else {
      var p := rows[..|rows| - 1];
      assert p[..k] == rows[..k];
      FlattenFailurePersists(p, k);
    }
  }

  /** Once a prefix of the records fails, the whole body fails the same way. */
  lemma BodyRowsFailurePersists(leaves: seq<Node>, data: seq<Record>, styles: StyleMap, row0: nat, k: nat)
    requires k <= |data| && BodyRows(leaves, data[..k], styles, row0).Failure?
    ensures BodyRows(leaves, data, styles, row0) == BodyRows(leaves, data[..k], styles, row0)
  {
    var rows := RowsOf(leaves, data, styles, row0);
    assert rows[..k] == RowsOf(leaves, data[..k], styles, row0);
    FlattenFailurePersists(rows, k);
  }

  // ---------------------------------------------------------------------------
  // What the sheet holds

  /** The j-th leaf is the first column whose field cannot be read. */
  predicate FirstUnreadable(leaves: seq<Node>, dto: Record, j: int) {
    0 <= j < |leaves| && Unreadable(dto, leaves[j]) &&
    forall i :: 0 <= i < j ==> !Unreadable(dto, leaves[i])
  }

  /** A row succeeds exactly when every field of its leaves can be read; it
      then holds the value of leaf j in column j, and otherwise it fails with
      what getFieldValue throws for the first unreadable leaf. */
  lemma {:induction false} RowCellsSpec(leaves: seq<Node>, dto: Record, styles: StyleMap, row: nat)
    ensures RowCells(leaves, dto, styles, row).Success? <==>
              forall j :: 0 <= j < |leaves| ==> !Unreadable(dto, leaves[j])
    ensures RowCells(leaves, dto, styles, row).Success? ==>
              var cells := RowCells(leaves, dto, styles, row).value;
              |cells| == |leaves| &&
              forall j :: 0 <= j < |leaves| ==> cells[j] == ValueCell(dto, leaves[j], styles, row, j)
    ensures RowCells(leaves, dto, styles, row).Failure? ==>
              exists j :: FirstUnreadable(leaves, dto, j) &&
                RowCells(leaves, dto, styles, row).error == GetFieldValue(dto, leaves[j].fieldName).error
  {
    if leaves != [] {
      var p, x := leaves[..|leaves| - 1], leaves[|leaves| - 1];
      RowCellsSpec(p, dto, styles, row);
      assert forall j :: 0 <= j < |p| ==> leaves[j] == p[j];
      if RowCells(p, dto, styles, row).Failure? {
        var j :| FirstUnreadable(p, dto, j) &&
          RowCells(p, dto, styles, row).error == GetFieldValue(dto, p[j].fieldName).error;
        assert FirstUnreadable(leaves, dto, j);
      } else if Unreadable(dto, x) {
        assert FirstUnreadable(leaves, dto, |leaves| - 1);
      }
    }
  }

  /** Where the cells of record k start in the body: k runs of n cells,
      counted one run at a time. */
  function CellsBefore(k: nat, n: nat): nat {
    if k == 0 then 0 else CellsBefore(k - 1, n) + n
  }

  /** The count is the product k * n. */
  lemma {:induction false} CellsBeforeIsProduct(k: nat, n: nat)
    ensures CellsBefore(k, n) == k * n
  {
    if k > 0 {
      CellsBeforeIsProduct(k - 1, n);
      assert k * n == (k - 1) * n + n;
    }
  }

  /** The run of an earlier record ends before a later record begins. */
  lemma {:induction false} CellsBeforeGrows(k: nat, m: nat, n: nat)
    requires k < m
    ensures CellsBefore(k, n) + n <= CellsBefore(m, n)
    decreases m
  {
    if k + 1 < m {
      CellsBeforeGrows(k, m - 1, n);
    }
  }

  /** Slices of a concatenation that fall within one of its two parts. */
  lemma SliceOfAppend<T>(a: seq<T>, b: seq<T>, i: nat, j: nat)
    requires i <= j
    ensures j <= |a| ==> (a + b)[i..j] == a[i..j]
    ensures i == |a| && j == |a| + |b| ==> (a + b)[i..j] == b
  {
  }

  /** A row, when it succeeds, has one cell per leaf. */
  lemma {:induction false} RowCellsLength(leaves: seq<Node>, dto: Record, styles: StyleMap, row: nat)
    requires RowCells(leaves, dto, styles, row).Success?
    ensures |RowCells(leaves, dto, styles, row).value| == |leaves|
  {
    if leaves != [] {
      RowCellsLength(leaves[..|leaves| - 1], dto, styles, row);
    }
  }

  /** Rows of n cells each: the flattening succeeds exactly when every row
      does, and row k then fills the k-th run of n cells. */
  lemma {:induction false} FlattenSpec<T>(rows: seq<Result<seq<T>>>, n: nat)
    requires forall k :: 0 <= k < |rows| && rows[k].Success? ==> |rows[k].value| == n
    ensures Flatten(rows).Success? <==> forall k :: 0 <= k < |rows| ==> rows[k].Success?
    ensures Flatten(rows).Success? ==>
              |Flatten(rows).value| == CellsBefore(|rows|, n) &&
              forall k :: 0 <= k < |rows| ==>
                CellsBefore(k, n) + n <= |Flatten(rows).value| &&
                Flatten(rows).value[CellsBefore(k, n)..CellsBefore(k, n) + n] == rows[k].value
  {
    if rows != [] {
      var p, m := rows[..|rows| - 1], |rows| - 1;
      FlattenSpec(p, n);
      assert forall k :: 0 <= k < m ==> rows[k] == p[k];
      if Flatten(rows).Success? {
        var before, last := Flatten(p).value, rows[m].value;
        assert Flatten(rows).value == before + last;
        forall k | 0 <= k < |rows|
          ensures CellsBefore(k, n) + n <= |Flatten(rows).value|
          ensures Flatten(rows).value[CellsBefore(k, n)..CellsBefore(k, n) + n] == rows[k].value
        {
          if k < m {
            CellsBeforeGrows(k, m, n);
          }
          SliceOfAppend(before, last, CellsBefore(k, n), CellsBefore(k, n) + n);
        }
      }
    }
  }

  /** The body succeeds exactly when the row of every record does; record k
      then fills the k-th run of |leaves| cells with its row, row0 + k. */
  lemma BodyRowsSpec(leaves: seq<Node>, data: seq<Record>, styles: StyleMap, row0: nat)
    ensures BodyRows(leaves, data, styles, row0).Success? <==>
              forall k :: 0 <= k < |data| ==> RowCells(leaves, data[k], styles, row0 + k).Success?
    ensures BodyRows(leaves, data, styles, row0).Success? ==>
              var cells := BodyRows(leaves, data, styles, row0).value;
              var n := |leaves|;
              |cells| == CellsBefore(|data|, n) &&
              forall k :: 0 <= k < |data| ==>
                CellsBefore(k, n) + n <= |cells| &&
                cells[CellsBefore(k, n)..CellsBefore(k, n) + n] == RowCells(leaves, data[k], styles, row0 + k).value
  {
    var rows := RowsOf(leaves, data, styles, row0);
    assert forall k :: 0 <= k < |data| ==> rows[k] == RowCells(leaves, data[k], styles, row0 + k);
    forall k | 0 <= k < |rows| && rows[k].Success?
      ensures |rows[k].value| == |leaves|
    {
      RowCellsLength(leaves, data[k], styles, row0 + k);
    }
    FlattenSpec(rows, |leaves|);
  }

  /** Row k of a successful flattening, alone. */
  lemma FlattenAt<T>(rows: seq<Result<seq<T>>>, n: nat, k: nat)
    requires forall i :: 0 <= i < |rows| && rows[i].Success? ==> |rows[i].value| == n
    requires Flatten(rows).Success? && k < |rows|
    ensures rows[k].Success?
    ensures CellsBefore(k, n) + n <= |Flatten(rows).value|
    ensures Flatten(rows).value[CellsBefore(k, n)..CellsBefore(k, n) + n] == rows[k].value
  {
    FlattenSpec(rows, n);
  }

  /** Every row of the body has one cell per leaf. */
  lemma RowsOfUniform(leaves: seq<Node>, data: seq<Record>, styles: StyleMap, row0: nat)
    ensures forall i :: 0 <= i < |RowsOf(leaves, data, styles, row0)| && RowsOf(leaves, data, styles, row0)[i].Success? ==>
              |RowsOf(leaves, data, styles, row0)[i].value| == |leaves|
  {
    forall i | 0 <= i < |data| && RowCells(leaves, data[i], styles, row0 + i).Success?
      ensures |RowCells(leaves, data[i], styles, row0 + i).value| == |leaves|
    {
      RowCellsLength(leaves, data[i], styles, row0 + i);
    }
  }

  /** A successful body has |leaves| cells per record. */
  lemma BodyRowsLength(leaves: seq<Node>, data: seq<Record>, styles: StyleMap, row0: nat)
    requires BodyRows(leaves, data, styles, row0).Success?
    ensures |BodyRows(leaves, data, styles, row0).value| == CellsBefore(|data|, |leaves|)
  {
    RowsOfUniform(leaves, data, styles, row0);
    FlattenSpec(RowsOf(leaves, data, styles, row0), |leaves|);
  }

  /** Record k, column j: the body holds the value of leaf j of record k at
      offset k * |leaves| + j, on row row0 + k. */
  lemma BodyCellAt(leaves: seq<Node>, data: seq<Record>, styles: StyleMap, row0: nat, k: nat, j: nat)
    requires BodyRows(leaves, data, styles, row0).Success?
    requires k < |data| && j < |leaves|
    ensures !Unreadable(data[k], leaves[j])
    ensures CellsBefore(k, |leaves|) + j < |BodyRows(leaves, data, styles, row0).value|
    ensures BodyRows(leaves, data, styles, row0).value[CellsBefore(k, |leaves|) + j]
         == ValueCell(data[k], leaves[j], styles, row0 + k, j)
  {
    var n := |leaves|;
    var rows := RowsOf(leaves, data, styles, row0);
    var cells := Flatten(rows).value;
    RowsOfUniform(leaves, data, styles, row0);
    FlattenAt(rows, n, k);
    var row := rows[k].value;
    assert cells[CellsBefore(k, n)..CellsBefore(k, n) + n][j] == cells[CellsBefore(k, n) + j];
    assert rows[k] == RowCells(leaves, data[k], styles, row0 + k);
    RowCellsSpec(leaves, data[k], styles, row0 + k);
  }

  /** The body fails exactly when some record lacks the field of some leaf. */
  lemma BodyRowsFailure(leaves: seq<Node>, data: seq<Record>, styles: StyleMap, row0: nat)
    ensures BodyRows(leaves, data, styles, row0).Failure? <==>
              exists k, j :: 0 <= k < |data| && 0 <= j < |leaves| && Unreadable(data[k], leaves[j])
  {
    BodyRowsSpec(leaves, data, styles, row0);
    if BodyRows(leaves, data, styles, row0).Failure? {
      var k :| 0 <= k < |data| && RowCells(leaves, data[k], styles, row0 + k).Failure?;
      RowCellsSpec(leaves, data[k], styles, row0 + k);
      var j :| FirstUnreadable(leaves, data[k], j);
      assert Unreadable(data[k], leaves[j]);
    } else {
      forall k, j | 0 <= k < |data| && 0 <= j < |leaves|
        ensures !Unreadable(data[k], leaves[j])
      {
        RowCellsSpec(leaves, data[k], styles, row0 + k);
      }
    }
  }

  /** generateExcel fails exactly when some record meets a leaf that has
      no field name or whose field the record lacks; with no records it
      never fails. */
  lemma ExportFailure(root: Node, data: seq<Record>, styles: StyleMap)
    ensures Export(root, data, styles).Failure? <==>
              exists k, j :: 0 <= k < |data| && 0 <= j < |Leaves(root)| && Unreadable(data[k], Leaves(root)[j])
  {
    assert Export(root, data, styles).Failure? <==> BodyRows(Leaves(root), data, styles, Depth(root)).Failure?;
    BodyRowsFailure(Leaves(root), data, styles, Depth(root));
  }

  /** Otherwise the sheet holds the header, one cell per header node,
      followed by |Leaves(root)| cells per record (CellsBefore(k, n) is
      k * n); the merged regions are the header's. */
  lemma ExportLayout(root: Node, data: seq<Record>, styles: StyleMap)
    requires Export(root, data, styles).Success?
    ensures var wb := Export(root, data, styles).value;
            var h, n := |PreOrder(root)|, |Leaves(root)|;
            && wb.merges == HeaderMerges(root, 0, 0)
            && |wb.cells| == h + CellsBefore(|data|, n)
            && wb.cells[..h] == HeaderCells(root, 0, 0)
  {
    var wb := Export(root, data, styles).value;
    var header := HeaderCells(root, 0, 0);
    var body := BodyRows(Leaves(root), data, styles, Depth(root)).value;
    assert wb == Workbook(header + body, HeaderMerges(root, 0, 0));
    SliceOfAppend(header, body, 0, |header|);
    OneCellPerNodeOneRegionPerGroup(root, 0, 0);
    BodyRowsLength(Leaves(root), data, styles, Depth(root));
  }

  /** Record k, leaf j: after the header, the k-th run of |Leaves(root)|
      cells holds at its j-th place the value of leaf j in record k, on row
      getDepth(root) + k, column j. */
  lemma ExportCellAt(root: Node, data: seq<Record>, styles: StyleMap, k: nat, j: nat)
    requires Export(root, data, styles).Success?
    requires k < |data| && j < |Leaves(root)|
    ensures !Unreadable(data[k], Leaves(root)[j])
    ensures var wb := Export(root, data, styles).value;
            var i := |PreOrder(root)| + CellsBefore(k, |Leaves(root)|) + j;
            i < |wb.cells| && wb.cells[i] == ValueCell(data[k], Leaves(root)[j], styles, Depth(root) + k, j)
  {
    var wb := Export(root, data, styles).value;
    var header := HeaderCells(root, 0, 0);
    var body := BodyRows(Leaves(root), data, styles, Depth(root)).value;
    assert wb == Workbook(header + body, HeaderMerges(root, 0, 0));
    OneCellPerNodeOneRegionPerGroup(root, 0, 0);
    BodyCellAt(Leaves(root), data, styles, Depth(root), k, j);
  }

  /** Every value sits under its title: the title of leaf j is written in
      column j on a header row, and the value of that leaf in record k is
      written in the same column on row getDepth(root) + k, below every
      header row. */
  lemma ValueUnderItsTitle(root: Node, data: seq<Record>, styles: StyleMap, k: nat, j: nat)
    requires Export(root, data, styles).Success?
    requires k < |data| && j < |Leaves(root)|
    ensures var wb := Export(root, data, styles).value;
            var leaf := Leaves(root)[j];
            && !Unreadable(data[k], leaf)
            && LeafLevel(root, j) < Depth(root)
            && Written(wb.cells, LeafLevel(root, j), j, StringCell(leaf.title), leaf.style)
            && Written(wb.cells, Depth(root) + k, j, EncodeCell(data[k][leaf.fieldName.value]),
                       BodyStyle(styles, leaf.fieldName.value, data[k][leaf.fieldName.value]))
  {
    var body := BodyRows(Leaves(root), data, styles, Depth(root)).value;
    var i := CellsBefore(k, |Leaves(root)|) + j;
    BodyCellAt(Leaves(root), data, styles, Depth(root), k, j);
    LeafTitleInColumn(root, 0, 0, j);
    assert body[i] in body;
  }

  /** The header and the body never share a row: header cells lie in the
      first getDepth(root) rows and within the leaf columns, body cells on
      the |data| rows after them, within the same columns. */
  lemma BodyBelowHeader(root: Node, data: seq<Record>, styles: StyleMap)
    requires Export(root, data, styles).Success?
    ensures var wb := Export(root, data, styles).value;
            var h := |PreOrder(root)|;
            && h <= |wb.cells|
            && (forall i :: 0 <= i < h ==> wb.cells[i].row < Depth(root) && wb.cells[i].col < |Leaves(root)|)
            && (forall i :: h <= i < |wb.cells| ==>
                  Depth(root) <= wb.cells[i].row < Depth(root) + |data| && wb.cells[i].col < |Leaves(root)|)
  {
    var wb := Export(root, data, styles).value;
    var body := BodyRows(Leaves(root), data, styles, Depth(root)).value;
    OneCellPerNodeOneRegionPerGroup(root, 0, 0);
    HeaderCellsInBlock(root, 0, 0);
    BodyCellsInBlock(Leaves(root), data, styles, Depth(root));
    assert wb.cells == HeaderCells(root, 0, 0) + body;
    forall i | 0 <= i < |PreOrder(root)|
      ensures wb.cells[i].row < Depth(root) && wb.cells[i].col < |Leaves(root)|
    {
      assert wb.cells[i] in HeaderCells(root, 0, 0);
    }
    forall i | |PreOrder(root)| <= i < |wb.cells|
      ensures Depth(root) <= wb.cells[i].row < Depth(root) + |data| && wb.cells[i].col < |Leaves(root)|
    {
      assert wb.cells[i] == body[i - |PreOrder(root)|];
      assert wb.cells[i] in body;
    }
  }

  /** Every element of the flattening comes from one of the rows. */
  lemma {:induction false} FlattenMembers<T>(rows: seq<Result<seq<T>>>)
    requires Flatten(rows).Success?
    ensures forall x :: x in Flatten(rows).value ==> exists k :: 0 <= k < |rows| && rows[k].Success? && x in rows[k].value
  {
    if rows != [] {
      var p := rows[..|rows| - 1];
      FlattenMembers(p);
      assert forall k :: 0 <= k < |p| ==> rows[k] == p[k];
    }
  }

  /** Every body cell lies on the record rows and within the leaf columns. */
  lemma BodyCellsInBlock(leaves: seq<Node>, data: seq<Record>, styles: StyleMap, row0: nat)
    requires BodyRows(leaves, data, styles, row0).Success?
    ensures forall w :: w in BodyRows(leaves, data, styles, row0).value ==>
              row0 <= w.row < row0 + |data| && w.col < |leaves|
  {
    var rows := RowsOf(leaves, data, styles, row0);
    FlattenMembers(rows);
    forall w | w in BodyRows(leaves, data, styles, row0).value
      ensures row0 <= w.row < row0 + |data| && w.col < |leaves|
    {
      var k :| 0 <= k < |rows| && rows[k].Success? && w in rows[k].value;
      RowCellsSpec(leaves, data[k], styles, row0 + k);
      var j :| 0 <= j < |rows[k].value| && rows[k].value[j] == w;
    }
  }
}
