/**
  parseExcelToDto: the header labels are read from one row of the first
  sheet, the title map is built from the header tree, and every later row
  that is not blank becomes one record: a fresh instance of the record class
  whose fields are set, column by column, from the cells under a label the
  title map knows.

  The sheet is a sequence of rows indexed by row number (None: no row there)
  and a row a sequence of cells indexed by column (None: no cell there). The
  pure definition Parse is what ParseExcelToDto computes.
 */
module ExcelImport {
  import opened Base
  import opened Grid
  import opened HeaderTree
  import opened FieldMapper
  import ExcelExport

  /** The cells of one row by column; None where the row has no cell. */
  type Row = seq<Option<Cell>>

  /** The first sheet of the workbook, its rows by row number. Its last row
      number is |rows| - 1; rows past the last one present are None. */
  datatype Document = Document(rows: seq<Option<Row>>)

  /** Sheet.getRow: null outside the sheet or where no row exists. */
  function GetRow(doc: Document, i: int): Option<Row> {
    if 0 <= i < |doc.rows| then doc.rows[i] else None
  }

  /** Row.getCell: null where the row has no cell. */
  function GetCell(row: Row, j: int): Option<Cell> {
    if 0 <= j < |row| then row[j] else None
  }

  // ---------------------------------------------------------------------------
  // isEmptyRow

  /** A null row, or one whose every cell is missing or BLANK. */
  predicate Blank(row: Option<Row>) {
    row.None? || forall j :: 0 <= j < |row.value| ==> row.value[j].None? || row.value[j].value.BlankCell?
  }

  /** isEmptyRow: stops at the first cell that is present and not blank. */
  method IsEmptyRow(row: Option<Row>) returns (empty: bool)
    ensures empty <==> Blank(row)
    ensures !empty ==> exists j :: 0 <= j < |row.value| && row.value[j].Some? && !row.value[j].value.BlankCell?
  {
    if row.None? {
      return true;
    }
    var cells := row.value;
    for j := 0 to |cells|
      invariant forall i :: 0 <= i < j ==> cells[i].None? || cells[i].value.BlankCell?
    {
      if cells[j].Some? && !cells[j].value.BlankCell? {
        return false;
      }
    }
    return true;
  }

  // ---------------------------------------------------------------------------
  // Header labels

  /** Cell.getStringCellValue: the text of a STRING cell, "" for a BLANK
      one, IllegalStateException for any other type. */
  function StringCellValue(c: Cell): (r: Result<string>)
    ensures r.Success? <==> c.StringCell? || c.BlankCell?
    ensures c.BlankCell? ==> r == Success("")
    ensures r.Failure? ==> r.error == IllegalState
  {
    match c
    case StringCell(s) => Success(s)
    case BlankCell => Success("")
    case _ => Failure(IllegalState)
  }

  /** The trimmed text of every cell present in the header row, in column
      order: the iteration skips the columns without a cell. */
  function HeaderLabels(row: Row): (r: Result<seq<string>>)
    ensures r.Failure? ==> r.error == IllegalState
  {
    if row == [] then Success([])
    else
      match HeaderLabels(row[..|row| - 1])
      case Failure(e) => Failure(e)
      case Success(labels) =>
        match row[|row| - 1]
        case None => Success(labels)
        case Some(c) =>
          match StringCellValue(c)
          case Failure(e) => Failure(e)
          case Success(text) => Success(labels + [Trim(text)])
  }

  /** The columns of the cells present in a row, left to right. */
  function PresentColumns(row: Row): (r: seq<nat>)
    ensures forall i :: 0 <= i < |r| ==> r[i] < |row| && row[r[i]].Some?
  {
    if row == [] then []
    else PresentColumns(row[..|row| - 1]) + (if row[|row| - 1].Some? then [|row| - 1] else [])
  }

  /** PresentColumns lists every present cell once, in increasing order. */
  lemma {:induction false} PresentColumnsSpec(row: Row)
    ensures forall i, k :: 0 <= i < k < |PresentColumns(row)| ==> PresentColumns(row)[i] < PresentColumns(row)[k]
    ensures forall j :: 0 <= j < |row| && row[j].Some? ==> j in PresentColumns(row)
  {
    if row != [] {
      var p := row[..|row| - 1];
      PresentColumnsSpec(p);
      assert forall j :: 0 <= j < |p| ==> row[j] == p[j];
    }
  }

  /** A header cell getStringCellValue accepts: missing, text or blank. */
  predicate Readable(cell: Option<Cell>) {
    cell.None? || StringCellValue(cell.value).Success?
  }

  /** One more cell reads exactly when the cells before it read and the
      cell itself is readable. */
  lemma HeaderLabelsStep(row: Row)
    requires row != []
    ensures HeaderLabels(row).Success? <==> HeaderLabels(row[..|row| - 1]).Success? && Readable(row[|row| - 1])
  {
  }

  /** The header row reads exactly when every cell in it is readable. */
  lemma {:induction false} HeaderLabelsFailure(row: Row)
    ensures HeaderLabels(row).Success? <==> forall j :: 0 <= j < |row| ==> Readable(row[j])
  {
    if row != [] {
      var p := row[..|row| - 1];
      HeaderLabelsFailure(p);
      HeaderLabelsStep(row);
      if HeaderLabels(row).Success? {
        assert HeaderLabels(p).Success? && Readable(row[|row| - 1]);
        forall j | 0 <= j < |row|
          ensures Readable(row[j])
        {
          if j < |p| {
            assert row[j] == p[j] && Readable(p[j]);
          } else {
            assert j == |row| - 1;
          }
        }
      } else if HeaderLabels(p).Failure? {
        var j :| 0 <= j < |p| && !Readable(p[j]);
        assert row[j] == p[j];
      }
    }
  }

  /** Label i is the trimmed text of the i-th present cell, which is in
      column i only when no cell before it is missing. */
  lemma {:induction false} HeaderLabelsSpec(row: Row)
    requires HeaderLabels(row).Success?
    ensures |HeaderLabels(row).value| == |PresentColumns(row)|
    ensures forall i :: 0 <= i < |PresentColumns(row)| ==>
              StringCellValue(row[PresentColumns(row)[i]].value).Success? &&
              HeaderLabels(row).value[i] == Trim(StringCellValue(row[PresentColumns(row)[i]].value).value)
  {
    HeaderLabelsCount(row);
    if row != [] {
      var p, last := row[..|row| - 1], row[|row| - 1];
      assert HeaderLabels(p).Success?;
      HeaderLabelsSpec(p);
      var cols, prev := PresentColumns(p), HeaderLabels(p).value;
      var present, labels := PresentColumns(row), HeaderLabels(row).value;
      assert present == cols + (if last.Some? then [|row| - 1] else []);
      assert last.None? ==> labels == prev;
      assert last.Some? ==> labels == prev + [Trim(StringCellValue(last.value).value)];
      forall i | 0 <= i < |present|
        ensures StringCellValue(row[present[i]].value).Success? &&
                labels[i] == Trim(StringCellValue(row[present[i]].value).value)
      {
        if i < |cols| {
          assert present[i] == cols[i] && labels[i] == prev[i] && row[cols[i]] == p[cols[i]];
        } else {
          assert last.Some? && present[i] == |row| - 1;
        }
      }
    }
  }

  /** One label per present cell. */
  lemma {:induction false} HeaderLabelsCount(row: Row)
    requires HeaderLabels(row).Success?
    ensures |HeaderLabels(row).value| == |PresentColumns(row)|
  {
    if row != [] {
      HeaderLabelsCount(row[..|row| - 1]);
    }
  }

  /** With no gap in the header row, label j belongs to column j. */
  lemma {:induction false} NoGapNoShift(row: Row)
    requires forall j :: 0 <= j < |row| ==> row[j].Some?
    ensures PresentColumns(row) == seq(|row|, j => j)
  {
    if row != [] {
      NoGapNoShift(row[..|row| - 1]);
    }
  }

  /** When the first header cell is missing, the first label is the text
      of column 1, and every label is one or more columns to the left of
      the cell it was read from: the decode loop pairs label j with
      column j. */
  lemma HeaderGapShiftsLabels(row: Row)
    requires |row| >= 2 && row[0].None? && row[1].Some?
    requires HeaderLabels(row).Success?
    ensures |PresentColumns(row)| >= 1 && PresentColumns(row)[0] == 1
    ensures forall i :: 0 <= i < |PresentColumns(row)| ==> i < PresentColumns(row)[i]
    ensures |HeaderLabels(row).value| >= 1 && StringCellValue(row[1].value).Success? &&
            HeaderLabels(row).value[0] == Trim(StringCellValue(row[1].value).value)
  {
    var p := PresentColumns(row);
    PresentColumnsSpec(row);
    HeaderLabelsSpec(row);
    assert 1 in p;
    var k :| 0 <= k < |p| && p[k] == 1;
    assert p[0] <= p[k];
    assert p[0] != 0 by {
      assert row[p[0]].Some?;
    }
    forall i | 0 <= i < |p|
      ensures i < p[i]
    {
      IncreasingFrom(p, i);
    }
  }

  /** In a strictly increasing sequence, entry i is at least i above the
      first. */
  lemma {:induction false} IncreasingFrom(p: seq<nat>, i: nat)
    requires forall a, b :: 0 <= a < b < |p| ==> p[a] < p[b]
    requires i < |p|
    ensures p[0] + i <= p[i]
  {
    if i > 0 {
      IncreasingFrom(p, i - 1);
    }
  }


  /** Once a prefix of the header row fails, the whole row fails. */
  lemma {:induction false} HeaderLabelsFailurePersists(row: Row, j: nat)
    requires j <= |row| && HeaderLabels(row[..j]).Failure?
    ensures HeaderLabels(row) == HeaderLabels(row[..j])
    decreases |row| - j
  {
    if j == |row| {
      assert row[..j] == row;
    } else {
      var p := row[..|row| - 1];
      assert p[..j] == row[..j];
      HeaderLabelsFailurePersists(p, j);
    }
  }

  // ---------------------------------------------------------------------------
  // Decoding one row

  /** The value the switch on the cell type hands to setFieldValue: the
      text of a STRING cell, the Double of a NUMERIC one, the Boolean of a
      BOOLEAN one, null for every other type. */
  function CellImportValue(c: Cell): (v: Option<Value>)
    ensures c.StringCell? <==> v.Some? && v.value.VString?
    ensures c.NumericCell? <==> v.Some? && v.value.VDouble?
    ensures c.BooleanCell? <==> v.Some? && v.value.VBoolean?
    ensures v.Some? ==> v.value.VString? || v.value.VDouble? || v.value.VBoolean?
  {
    match c
    case StringCell(s) => Some(VString(s))
    case NumericCell(x) => Some(VDouble(x))
    case BooleanCell(b) => Some(VBoolean(b))
    case _ => None
  }

  /** One turn of the column loop: a missing cell or a label the title map
      does not know leaves the record as it is; otherwise the field the
      label maps to is set from the cell. */
  function DecodeColumn(cls: DtoClass, title: string, titleMap: map<string, string>, cell: Option<Cell>, dto: Record)
    : Result<Record>
  {
    if cell.None? || title !in titleMap then Success(dto)
    else SetField(cls, dto, titleMap[title], CellImportValue(cell.value))
  }

  /** The record after the first n columns. */
  function DecodeColumns(cls: DtoClass, headers: seq<string>, titleMap: map<string, string>, row: Row, dto: Record, n: nat)
    : (r: Result<Record>)
    requires n <= |headers|
    ensures r.Success? ==> forall f :: f in dto ==> f in r.value
    ensures r.Failure? ==> SetterError(r.error)
  {
    if n == 0 then Success(dto)
    else
      match DecodeColumns(cls, headers, titleMap, row, dto, n - 1)
      case Failure(e) => Failure(e)
      case Success(d) => DecodeColumn(cls, headers[n - 1], titleMap, GetCell(row, n - 1), d)
  }

  /** The record decoded from a row: a fresh instance, then every column
      that has a label. */
  function DecodeRow(cls: DtoClass, headers: seq<string>, titleMap: map<string, string>, row: Row): (r: Result<Record>)
    ensures r == Failure(NoSuchConstructor) <==> cls.newInstance.None?
    ensures r.Success? ==> forall f :: f in cls.newInstance.value ==> f in r.value
    ensures r.Failure? ==> r.error == NoSuchConstructor || SetterError(r.error)
  {
    match cls.newInstance
    case None => Failure(NoSuchConstructor)
    case Some(dto) => DecodeColumns(cls, headers, titleMap, row, dto, |headers|)
  }

  /** Column j sets field f: it has a cell with a value, under a label the
      title map sends to f. */
  predicate Targets(headers: seq<string>, titleMap: map<string, string>, row: Row, j: int, f: string) {
    0 <= j < |headers| && GetCell(row, j).Some? && headers[j] in titleMap && titleMap[headers[j]] == f &&
    CellImportValue(GetCell(row, j).value).Some?
  }

  /** Column j makes setFieldValue throw. */
  predicate ColumnFails(cls: DtoClass, headers: seq<string>, titleMap: map<string, string>, row: Row, j: int) {
    0 <= j < |headers| && GetCell(row, j).Some? && headers[j] in titleMap &&
    SetFails(cls, titleMap[headers[j]], CellImportValue(GetCell(row, j).value))
  }

  /** The columns fail exactly when one of them makes setFieldValue throw. */
  lemma {:induction false} DecodeColumnsFailure(cls: DtoClass, headers: seq<string>, titleMap: map<string, string>, row: Row, dto: Record, n: nat)
    requires n <= |headers|
    ensures DecodeColumns(cls, headers, titleMap, row, dto, n).Failure? <==>
              exists j :: 0 <= j < n && ColumnFails(cls, headers, titleMap, row, j)
  {
    if n > 0 {
      DecodeColumnsFailure(cls, headers, titleMap, row, dto, n - 1);
      var prev := DecodeColumns(cls, headers, titleMap, row, dto, n - 1);
      if prev.Success? {
        var cell := GetCell(row, n - 1);
        assert DecodeColumn(cls, headers[n - 1], titleMap, cell, prev.value).Failure? <==>
               ColumnFails(cls, headers, titleMap, row, n - 1);
      }
    }
  }

  /** A field no column sets keeps the value the instance started with:
      unmapped labels, missing cells and cells without a value change
      nothing. */
  lemma {:induction false} UntargetedFieldsKept(cls: DtoClass, headers: seq<string>, titleMap: map<string, string>, row: Row, dto: Record, n: nat, f: string)
    requires n <= |headers| && DecodeColumns(cls, headers, titleMap, row, dto, n).Success?
    requires forall j :: 0 <= j < n ==> !Targets(headers, titleMap, row, j, f)
    ensures var d := DecodeColumns(cls, headers, titleMap, row, dto, n).value;
            (f in d <==> f in dto) && (f in dto ==> d[f] == dto[f])
  {
    if n > 0 {
      UntargetedFieldsKept(cls, headers, titleMap, row, dto, n - 1, f);
      var prev := DecodeColumns(cls, headers, titleMap, row, dto, n - 1).value;
      var cell := GetCell(row, n - 1);
      if cell.Some? && headers[n - 1] in titleMap {
        var next := SetField(cls, prev, titleMap[headers[n - 1]], CellImportValue(cell.value));
        assert !Targets(headers, titleMap, row, n - 1, f);
        if titleMap[headers[n - 1]] == f {
          assert next == Success(prev);
        } else {
          assert (f in next.value <==> f in prev) && (f in prev ==> next.value[f] == prev[f]);
        }
      }
    }
  }

  /** The last column that sets a field with a setter decides its value:
      the cell's value converted to the setter's parameter type. */
  lemma {:induction false} LastColumnWins(cls: DtoClass, headers: seq<string>, titleMap: map<string, string>, row: Row, dto: Record, n: nat, f: string, j: nat)
    requires n <= |headers| && DecodeColumns(cls, headers, titleMap, row, dto, n).Success?
    requires j < n && Targets(headers, titleMap, row, j, f)
    requires forall i :: j < i < n ==> !Targets(headers, titleMap, row, i, f)
    requires |f| > 0 && FindSetter(cls.methods, SetterName(f)).Some?
    ensures var d := DecodeColumns(cls, headers, titleMap, row, dto, n).value;
            f in d && d[f] == Some(ConvertValue(CellImportValue(GetCell(row, j).value).value, SetterParam(cls, f)))
  {
    var prev := DecodeColumns(cls, headers, titleMap, row, dto, n - 1).value;
    var cell := GetCell(row, n - 1);
    if n - 1 > j {
      LastColumnWins(cls, headers, titleMap, row, dto, n - 1, f, j);
      assert !Targets(headers, titleMap, row, n - 1, f);
      if cell.Some? && headers[n - 1] in titleMap {
        var next := SetField(cls, prev, titleMap[headers[n - 1]], CellImportValue(cell.value));
        if titleMap[headers[n - 1]] == f {
          assert next == Success(prev);
        } else {
          assert f in next.value && next.value[f] == prev[f];
        }
      }
    } else {
      var next := SetField(cls, prev, f, CellImportValue(cell.value));
      assert next.value == prev[f := Some(ConvertValue(CellImportValue(cell.value).value, SetterParam(cls, f)))];
    }
  }

  /** Once the first n columns fail, all of them do. */
  lemma {:induction false} DecodeColumnsFailurePersists(cls: DtoClass, headers: seq<string>, titleMap: map<string, string>, row: Row, dto: Record, n: nat, m: nat)
    requires n <= m <= |headers| && DecodeColumns(cls, headers, titleMap, row, dto, n).Failure?
    ensures DecodeColumns(cls, headers, titleMap, row, dto, m) == DecodeColumns(cls, headers, titleMap, row, dto, n)
    decreases m
  {
    if m > n {
      DecodeColumnsFailurePersists(cls, headers, titleMap, row, dto, n, m - 1);
    }
  }

  /** The column loop of parseExcelToDto for one row. */
  method ReadRecord(dtoClass: DtoClass, headers: seq<string>, titleToFieldNameMap: map<string, string>, row: Row)
    returns (r: Result<Record>)
    ensures r == DecodeRow(dtoClass, headers, titleToFieldNameMap, row)
  {
    if dtoClass.newInstance.None? {
      return Failure(NoSuchConstructor);
    }
    var dto := dtoClass.newInstance.value;
    for j := 0 to |headers|
      invariant DecodeColumns(dtoClass, headers, titleToFieldNameMap, row, dtoClass.newInstance.value, j) == Success(dto)
    {
      var cell := GetCell(row, j);
      if cell.None? {
        continue;
      }
      if headers[j] !in titleToFieldNameMap {
        continue;
      }
      var fieldName := titleToFieldNameMap[headers[j]];
      var value := CellImportValue(cell.value);
      var updated := SetFieldValue(dtoClass, dto, fieldName, value);
      if updated.Failure? {
        DecodeColumnsFailurePersists(dtoClass, headers, titleToFieldNameMap, row, dtoClass.newInstance.value, j + 1, |headers|);
        return Failure(updated.error);
      }
      dto := updated.value;
    }
    return Success(dto);
  }

  // ---------------------------------------------------------------------------
  // Reading back what generateExcel wrote

  /** A value written by generateExcel and read back into a field of its
      own type comes back unchanged for Integer, Long, Double and String
      fields: numbers travel as a numeric cell and are truncated back, text
      travels as a string cell. A null travels as a blank cell and is read
      as null, which leaves the field alone. Numbers are exact here: a Long
      beyond 2^53 comes back rounded in Java, since the numeric cell holds
      a double. */
  lemma CellRoundTrip(v: Value, t: Ty)
    requires t == TInteger || t == TLong || t == TDouble || t == TString
    requires Accepts(t, v)
    ensures CellImportValue(ExcelExport.EncodeCell(Some(v))).Some?
    ensures ConvertValue(CellImportValue(ExcelExport.EncodeCell(Some(v))).value, t) == v
    ensures CellImportValue(ExcelExport.EncodeCell(None)).None?
  {
    if v.VInteger? || v.VLong? {
      var i := TruncateTowardZero(v.i as real);
      assert i == v.i;
    }
  }

  /** A Boolean is written as the text "true" or "false" and read back as
      that String, which a Boolean setter refuses: re-reading a generated
      sheet into a record with a Boolean property throws. */
  lemma BooleanDoesNotRoundTrip(cls: DtoClass, f: string, b: bool)
    requires |f| > 0 && FindSetter(cls.methods, SetterName(f)).Some? && SetterParam(cls, f) == TBoolean
    ensures CellImportValue(ExcelExport.EncodeCell(Some(VBoolean(b)))) == Some(VString(if b then "true" else "false"))
    ensures SetFails(cls, f, CellImportValue(ExcelExport.EncodeCell(Some(VBoolean(b)))))
  {
  }

  /** Reading a row: when the last column that sets field f holds the cell
      generateExcel wrote for a value v of the setter's type (Integer, Long,
      Double or String), the record decoded from the row holds v in f. */
  lemma FieldRoundTrip(cls: DtoClass, headers: seq<string>, titleMap: map<string, string>, row: Row, dto: Record, f: string, j: nat, v: Value)
    requires j < |headers| && DecodeColumns(cls, headers, titleMap, row, dto, |headers|).Success?
    requires GetCell(row, j) == Some(ExcelExport.EncodeCell(Some(v)))
    requires headers[j] in titleMap && titleMap[headers[j]] == f
    requires forall i :: j < i < |headers| ==> !Targets(headers, titleMap, row, i, f)
    requires |f| > 0 && FindSetter(cls.methods, SetterName(f)).Some?
    requires var t := SetterParam(cls, f); (t == TInteger || t == TLong || t == TDouble || t == TString) && Accepts(t, v)
    ensures var d := DecodeColumns(cls, headers, titleMap, row, dto, |headers|).value;
            f in d && d[f] == Some(v)
  {
    CellRoundTrip(v, SetterParam(cls, f));
    LastColumnWins(cls, headers, titleMap, row, dto, |headers|, f, j);
  }

  /** The row generateExcel wrote, as the import reads it back: cell j of
      the row holds the content of the j-th cell written. */
  function WrittenRow(cells: seq<CellWrite>): (row: Row)
    ensures |row| == |cells|
    ensures forall j :: 0 <= j < |cells| ==> row[j] == Some(cells[j].content)
  {
    seq(|cells|, j requires 0 <= j < |cells| => Some(cells[j].content))
  }

  /** The last column in [j, n) that sets f, given that column j does. */
  lemma {:induction false} LastTarget(headers: seq<string>, titleMap: map<string, string>, row: Row, f: string, j: nat, n: nat)
    returns (i: nat)
    requires j < n <= |headers| && Targets(headers, titleMap, row, j, f)
    ensures j <= i < n && Targets(headers, titleMap, row, i, f)
    ensures forall k :: i < k < n ==> !Targets(headers, titleMap, row, k, f)
    decreases n
  {
    if Targets(headers, titleMap, row, n - 1, f) {
      i := n - 1;
    } else {
      i := LastTarget(headers, titleMap, row, f, j, n - 1);
    }
  }

  /** Reading back the row generateExcel wrote for a record dto, under the
      leaf titles as labels and a title map that sends each leaf's title to
      its field name: every field of dto that a leaf names, holds a non-null
      value and has an Integer, Long, Double or String setter comes back
      with that value (up to double rounding of a large Long, which the
      model does not have). */
  lemma RowRoundTrip(cls: DtoClass, leaves: seq<Node>, dto: Record, styles: ExcelExport.StyleMap, r: nat,
                     headers: seq<string>, titleMap: map<string, string>, j: nat)
    requires ExcelExport.RowCells(leaves, dto, styles, r).Success?
    requires |headers| == |leaves| && forall k :: 0 <= k < |leaves| ==> headers[k] == leaves[k].title
    requires forall k :: 0 <= k < |leaves| && leaves[k].fieldName.Some? ==>
               leaves[k].title in titleMap && titleMap[leaves[k].title] == leaves[k].fieldName.value
    requires DecodeRow(cls, headers, titleMap, WrittenRow(ExcelExport.RowCells(leaves, dto, styles, r).value)).Success?
    requires j < |leaves| && leaves[j].fieldName.Some?
    requires var f := leaves[j].fieldName.value;
             f in dto && dto[f].Some? && |f| > 0 && FindSetter(cls.methods, SetterName(f)).Some? &&
             var t := SetterParam(cls, f); (t == TInteger || t == TLong || t == TDouble || t == TString) && Accepts(t, dto[f].value)
    ensures var d := DecodeRow(cls, headers, titleMap, WrittenRow(ExcelExport.RowCells(leaves, dto, styles, r).value)).value;
            var f := leaves[j].fieldName.value;
            f in d && d[f] == dto[f]
  {
    var cells := ExcelExport.RowCells(leaves, dto, styles, r).value;
    var row := WrittenRow(cells);
    var f := leaves[j].fieldName.value;
    var v := dto[f].value;
    ExcelExport.RowCellsSpec(leaves, dto, styles, r);
    CellRoundTrip(v, SetterParam(cls, f));
    assert GetCell(row, j) == Some(ExcelExport.EncodeCell(Some(v)));
    assert Targets(headers, titleMap, row, j, f);
    var i := LastTarget(headers, titleMap, row, f, j, |headers|);
    assert !ExcelExport.Unreadable(dto, leaves[i]);
    assert leaves[i].fieldName.value == f;
    assert GetCell(row, i) == Some(ExcelExport.EncodeCell(Some(v)));
    FieldRoundTrip(cls, headers, titleMap, row, cls.newInstance.value, f, i, v);
  }

  /** The same for a header tree whose mapped titles are distinct: labels
      that are its leaf titles and its own title map read every such field
      back from the row written for it. */
  lemma ExportedRowRoundTrip(cls: DtoClass, root: Node, dto: Record, styles: ExcelExport.StyleMap, r: nat, j: nat)
    requires MappedTitlesDistinct(root)
    requires ExcelExport.RowCells(Leaves(root), dto, styles, r).Success?
    requires var leaves := Leaves(root);
             var headers := seq(|leaves|, k requires 0 <= k < |leaves| => leaves[k].title);
             DecodeRow(cls, headers, TitleMap(root), WrittenRow(ExcelExport.RowCells(leaves, dto, styles, r).value)).Success?
    requires j < |Leaves(root)| && Leaves(root)[j].fieldName.Some?
    requires var f := Leaves(root)[j].fieldName.value;
             f in dto && dto[f].Some? && |f| > 0 && FindSetter(cls.methods, SetterName(f)).Some? &&
             var t := SetterParam(cls, f); (t == TInteger || t == TLong || t == TDouble || t == TString) && Accepts(t, dto[f].value)
    ensures var leaves := Leaves(root);
            var headers := seq(|leaves|, k requires 0 <= k < |leaves| => leaves[k].title);
            var d := DecodeRow(cls, headers, TitleMap(root), WrittenRow(ExcelExport.RowCells(leaves, dto, styles, r).value)).value;
            var f := leaves[j].fieldName.value;
            f in d && d[f] == dto[f]
  {
    var leaves := Leaves(root);
    var headers := seq(|leaves|, k requires 0 <= k < |leaves| => leaves[k].title);
    forall k | 0 <= k < |leaves| && leaves[k].fieldName.Some?
      ensures leaves[k].title in TitleMap(root) && TitleMap(root)[leaves[k].title] == leaves[k].fieldName.value
    {
      TitleMapOfLeaf(root, k);
    }
    RowRoundTrip(cls, leaves, dto, styles, r, headers, TitleMap(root), j);
  }

  // ---------------------------------------------------------------------------
  // Decoding the rows

  /** The rows in [lo, hi) that are not blank, in order. */
  function KeptRows(doc: Document, lo: nat, hi: nat): (r: seq<nat>)
    ensures forall k :: 0 <= k < |r| ==> lo <= r[k] < hi && !Blank(GetRow(doc, r[k]))
    decreases hi
  {
    if hi <= lo then []
    else KeptRows(doc, lo, hi - 1) + (if Blank(GetRow(doc, hi - 1)) then [] else [hi - 1])
  }

  /** KeptRows is increasing and misses no row that is not blank. */
  lemma {:induction false} KeptRowsSpec(doc: Document, lo: nat, hi: nat)
    ensures forall k, l :: 0 <= k < l < |KeptRows(doc, lo, hi)| ==> KeptRows(doc, lo, hi)[k] < KeptRows(doc, lo, hi)[l]
    ensures forall i :: lo <= i < hi && !Blank(GetRow(doc, i)) ==> i in KeptRows(doc, lo, hi)
    decreases hi
  {
    if hi > lo {
      KeptRowsSpec(doc, lo, hi - 1);
    }
  }

  /** The records of the rows in [lo, hi): blank rows are skipped, the
      others decoded in order; the first failure aborts. */
  function DecodeRows(doc: Document, cls: DtoClass, headers: seq<string>, titleMap: map<string, string>, lo: nat, hi: nat)
    : (r: Result<seq<Record>>)
    ensures r.Success? ==> |r.value| == |KeptRows(doc, lo, hi)|
    ensures r.Failure? ==> r.error == NoSuchConstructor || SetterError(r.error)
    decreases hi
  {
    if hi <= lo then Success([])
    else
      match DecodeRows(doc, cls, headers, titleMap, lo, hi - 1)
      case Failure(e) => Failure(e)
      case Success(records) =>
        var row := GetRow(doc, hi - 1);
        if Blank(row) then Success(records)
        else
          match DecodeRow(cls, headers, titleMap, row.value)
          case Failure(e) => Failure(e)
          case Success(dto) => Success(records + [dto])
  }

  /** Row i is present and decodes. */
  predicate RowDecodes(doc: Document, cls: DtoClass, headers: seq<string>, titleMap: map<string, string>, i: int) {
    GetRow(doc, i).Some? && DecodeRow(cls, headers, titleMap, GetRow(doc, i).value).Success?
  }

  /** Every row listed is present and decodes. */
  predicate AllDecode(doc: Document, cls: DtoClass, headers: seq<string>, titleMap: map<string, string>, rows: seq<nat>) {
    forall k :: 0 <= k < |rows| ==> RowDecodes(doc, cls, headers, titleMap, rows[k])
  }

  lemma RowsDecodeSnoc(doc: Document, cls: DtoClass, headers: seq<string>, titleMap: map<string, string>, rows: seq<nat>, x: nat)
    ensures AllDecode(doc, cls, headers, titleMap, rows + [x]) <==>
            AllDecode(doc, cls, headers, titleMap, rows) && RowDecodes(doc, cls, headers, titleMap, x)
  {
    var all := rows + [x];
    assert forall k :: 0 <= k < |rows| ==> all[k] == rows[k];
    assert all[|rows|] == x;
  }

  /** The decoding of the rows in [lo, hi) succeeds exactly when each row
      kept decodes. */
  lemma {:induction false} DecodeRowsSucceed(doc: Document, cls: DtoClass, headers: seq<string>, titleMap: map<string, string>, lo: nat, hi: nat)
    ensures DecodeRows(doc, cls, headers, titleMap, lo, hi).Success? <==> AllDecode(doc, cls, headers, titleMap, KeptRows(doc, lo, hi))
    decreases hi
  {
    if hi > lo {
      DecodeRowsSucceed(doc, cls, headers, titleMap, lo, hi - 1);
      var before, kept := KeptRows(doc, lo, hi - 1), KeptRows(doc, lo, hi);
      if Blank(GetRow(doc, hi - 1)) {
        assert kept == before;
        assert DecodeRows(doc, cls, headers, titleMap, lo, hi) == DecodeRows(doc, cls, headers, titleMap, lo, hi - 1);
      } else {
        assert kept == before + [hi - 1];
        assert DecodeRows(doc, cls, headers, titleMap, lo, hi).Success? <==>
               DecodeRows(doc, cls, headers, titleMap, lo, hi - 1).Success? && RowDecodes(doc, cls, headers, titleMap, hi - 1);
        RowsDecodeSnoc(doc, cls, headers, titleMap, before, hi - 1);
      }
    }
  }

  /** Record k of a successful decoding is the decoding of the k-th row
      kept. */
  lemma {:induction false} DecodeRowsRecords(doc: Document, cls: DtoClass, headers: seq<string>, titleMap: map<string, string>, lo: nat, hi: nat)
    requires DecodeRows(doc, cls, headers, titleMap, lo, hi).Success?
    ensures var records := DecodeRows(doc, cls, headers, titleMap, lo, hi).value;
            |records| == |KeptRows(doc, lo, hi)| &&
            forall k :: 0 <= k < |records| ==>
              DecodeRow(cls, headers, titleMap, GetRow(doc, KeptRows(doc, lo, hi)[k]).value) == Success(records[k])
    decreases hi
  {
    if hi > lo {
      DecodeRowsRecords(doc, cls, headers, titleMap, lo, hi - 1);
      var before, kept := KeptRows(doc, lo, hi - 1), KeptRows(doc, lo, hi);
      var prev := DecodeRows(doc, cls, headers, titleMap, lo, hi - 1).value;
      var records := DecodeRows(doc, cls, headers, titleMap, lo, hi).value;
      if Blank(GetRow(doc, hi - 1)) {
        assert kept == before && records == prev;
      } else {
        assert kept == before + [hi - 1];
        assert records == prev + [DecodeRow(cls, headers, titleMap, GetRow(doc, hi - 1).value).value];
        assert forall k :: 0 <= k < |before| ==> kept[k] == before[k] && records[k] == prev[k];
      }
    }
  }

  /** One record per row that is not blank, in row order: the decoding
      succeeds exactly when each of those rows decodes, and record k is then
      the decoding of the k-th of them. */
  lemma DecodeRowsSpec(doc: Document, cls: DtoClass, headers: seq<string>, titleMap: map<string, string>, lo: nat, hi: nat)
    ensures DecodeRows(doc, cls, headers, titleMap, lo, hi).Success? <==>
              forall k :: 0 <= k < |KeptRows(doc, lo, hi)| ==>
                DecodeRow(cls, headers, titleMap, GetRow(doc, KeptRows(doc, lo, hi)[k]).value).Success?
    ensures DecodeRows(doc, cls, headers, titleMap, lo, hi).Success? ==>
              var records := DecodeRows(doc, cls, headers, titleMap, lo, hi).value;
              |records| == |KeptRows(doc, lo, hi)| &&
              forall k :: 0 <= k < |records| ==>
                DecodeRow(cls, headers, titleMap, GetRow(doc, KeptRows(doc, lo, hi)[k]).value) == Success(records[k])
  {
    DecodeRowsSucceed(doc, cls, headers, titleMap, lo, hi);
    if DecodeRows(doc, cls, headers, titleMap, lo, hi).Success? {
      DecodeRowsRecords(doc, cls, headers, titleMap, lo, hi);
    }
  }

  /** Once the rows before i fail, all of them do. */
  lemma {:induction false} DecodeRowsFailurePersists(doc: Document, cls: DtoClass, headers: seq<string>, titleMap: map<string, string>, lo: nat, i: nat, hi: nat)
    requires i <= hi && DecodeRows(doc, cls, headers, titleMap, lo, i).Failure?
    ensures DecodeRows(doc, cls, headers, titleMap, lo, hi) == DecodeRows(doc, cls, headers, titleMap, lo, i)
    decreases hi
  {
    if hi > i {
      DecodeRowsFailurePersists(doc, cls, headers, titleMap, lo, i, hi - 1);
    }
  }

  // ---------------------------------------------------------------------------
  // parseExcelToDto

  /** What parseExcelToDto returns for the first sheet doc: a missing header
      row throws, a header cell that is not text throws, and otherwise the
      rows after the header row are decoded. */
  function Parse(doc: Document, cls: DtoClass, headerEndRow: int, root: Node): (r: Result<seq<Record>>)
    ensures r.Success? ==> 0 <= headerEndRow && |r.value| == |KeptRows(doc, headerEndRow + 1, |doc.rows|)|
    ensures r.Failure? ==> r.error in {NullPointer, IllegalState, NoSuchConstructor} || SetterError(r.error)
  {
    match GetRow(doc, headerEndRow)
    case None => Failure(NullPointer)
    case Some(headerRow) =>
      match HeaderLabels(headerRow)
      case Failure(e) => Failure(e)
      case Success(headers) => DecodeRows(doc, cls, headers, TitleMap(root), headerEndRow + 1, |doc.rows|)
  }

  /** The loop over the header row: the trimmed text of each cell present,
      in column order. */
  method ReadHeaders(headerRow: Row) returns (r: Result<seq<string>>)
    ensures r == HeaderLabels(headerRow)
  {
    var headers: seq<string> := [];
    for j := 0 to |headerRow|
      invariant HeaderLabels(headerRow[..j]) == Success(headers)
    {
      ghost var upTo := headerRow[..j + 1];
      assert upTo[..j] == headerRow[..j] && upTo[j] == headerRow[j];
      if headerRow[j].Some? {
        var text := StringCellValue(headerRow[j].value);
        if text.Failure? {
          HeaderLabelsFailurePersists(headerRow, j + 1);
          return Failure(text.error);
        }
        headers := headers + [Trim(text.value)];
      }
    }
    assert headerRow[..|headerRow|] == headerRow;
    return Success(headers);
  }

  /** parseExcelToDto, from the opened first sheet on. */
  method ParseExcelToDto(doc: Document, dtoClass: DtoClass, headerEndRow: int, headerRoot: Node)
    returns (r: Result<seq<Record>>)
    ensures r == Parse(doc, dtoClass, headerEndRow, headerRoot)
  {
    var titleToFieldNameMap := BuildTitleToFieldNameMap(headerRoot);
    var headerRow := GetRow(doc, headerEndRow);
    if headerRow.None? {
      return Failure(NullPointer);
    }
    var read := ReadHeaders(headerRow.value);
    if read.Failure? {
      return Failure(read.error);
    }
    r := ReadRows(doc, dtoClass, read.value, titleToFieldNameMap, headerEndRow + 1);
  }

  /** The loop over the rows after the header row: blank rows are skipped,
      the others decoded into records in order, until one fails. */
  method ReadRows(doc: Document, dtoClass: DtoClass, headers: seq<string>, titleToFieldNameMap: map<string, string>, lo: nat)
    returns (r: Result<seq<Record>>)
    ensures r == DecodeRows(doc, dtoClass, headers, titleToFieldNameMap, lo, |doc.rows|)
  {
    var result: seq<Record> := [];
    if |doc.rows| < lo {
      return Success(result);
    }
    for i := lo to |doc.rows|
      invariant DecodeRows(doc, dtoClass, headers, titleToFieldNameMap, lo, i) == Success(result)
    {
      var row := GetRow(doc, i);
      if row.None? {
        continue;
      }
      var empty := IsEmptyRow(row);
      if empty {
        continue;
      }
      var dto := ReadRecord(dtoClass, headers, titleToFieldNameMap, row.value);
      if dto.Failure? {
        DecodeRowsFailurePersists(doc, dtoClass, headers, titleToFieldNameMap, lo, i + 1, |doc.rows|);
        return Failure(dto.error);
      }
      result := result + [dto.value];
    }
    return Success(result);
  }

  /** The outcome of parseExcelToDto: its two ways to fail before any row
      is read, and then one record per row after the header row that is not
      blank, in row order, each decoded under the header labels and the
      title map of the header tree. */
  lemma ParseSpec(doc: Document, cls: DtoClass, headerEndRow: int, root: Node)
    ensures GetRow(doc, headerEndRow).None? ==> Parse(doc, cls, headerEndRow, root) == Failure(NullPointer)
    ensures GetRow(doc, headerEndRow).Some? && HeaderLabels(GetRow(doc, headerEndRow).value).Failure? ==>
              Parse(doc, cls, headerEndRow, root) == Failure(IllegalState)
    ensures GetRow(doc, headerEndRow).Some? && HeaderLabels(GetRow(doc, headerEndRow).value).Success? &&
            Parse(doc, cls, headerEndRow, root).Success? ==>
              var headers := HeaderLabels(GetRow(doc, headerEndRow).value).value;
              var kept := KeptRows(doc, headerEndRow + 1, |doc.rows|);
              var records := Parse(doc, cls, headerEndRow, root).value;
              |records| == |kept| &&
              forall k :: 0 <= k < |records| ==>
                DecodeRow(cls, headers, TitleMap(root), GetRow(doc, kept[k]).value) == Success(records[k])
  {
    if GetRow(doc, headerEndRow).Some? {
      var headerRow := GetRow(doc, headerEndRow).value;
      if HeaderLabels(headerRow).Success? {
        DecodeRowsSpec(doc, cls, HeaderLabels(headerRow).value, TitleMap(root), headerEndRow + 1, |doc.rows|);
      }
    }
  }
}
