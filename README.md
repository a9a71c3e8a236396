# ExcelGenerator, modelled in Dafny

This project models `ExcelGenerator` from PoiCustom. That class writes a list of Java records to an Excel sheet under a multi-level header, and reads such a sheet back into records. The model covers three parts:

- **The header tree** (`ExcelHeaderNode`). The model lays the tree out on the sheet (`renderHeader`, `getDepth`), lists its leaves in column order (`collectLeafNodes`), and builds the title-to-field-name map (`buildTitleToFieldNameMap`, `collectMapping`).
- **The field mapper.** The model covers reflective reads of a field (`getFieldValue`), setter calls (`setFieldValue`) and the type coercion between them (`convertValue`).
- **The two row codecs.**
  - The body loop of `generateExcel` writes one row per record, one cell per leaf. It uses the default body style (`defaultBodyStyle`) unless the style map has an entry for the field.
  - The read loop of `parseExcelToDto` reads the header labels and skips blank rows (`isEmptyRow`). It decodes every other row into a fresh record.

Modules, in dependency order:

- `Base` (`base.dfy`): `Option`, and `Result` standing in for thrown exceptions. It also holds `String.trim`, `Character.toUpperCase` and the decimal text of integers.
- `Grid` (`grid.dfy`): style descriptors, cell contents, one written cell, and merged regions.
- `HeaderTree` (`header_tree.dfy`): header nodes, depth, leaves, pre-order, the title map, and the `collectLeafNodes` and `collectMapping` methods.
- `HeaderLayout` (`header_layout.dfy`): the `Sheet` class that cells and merged regions are written to, and the `renderHeader` method. Beside them sit `HeaderCells` and `HeaderMerges`, the pure description of what `renderHeader` writes, with lemmas about where it writes.
- `FieldMapper` (`field_mapper.dfy`): values, parameter types, `convertValue`, `toString`, records, and the setter lookup.
- `ExcelExport` (`excel_export.dfy`): `generateExcel` and the pure `Export` it computes.
- `ExcelImport` (`excel_import.dfy`): `parseExcelToDto` and the pure `Parse` it computes.

A record is a map from field name to value, where `None` stands for Java `null`. A record class is described by two things:

- the record its no-argument constructor builds;
- its public methods, each with a name and parameter types.

Reflection is replaced by lookups in these tables. Every Java exception becomes a `Failure` carrying the exception's kind.

## Model

| member | source | states |
|---|---|---|
| HeaderTree.Depth | src/bumil/custom/excel/ExcelGenerator.java:63-66 | A depth is at least 1, and it is exactly 1 for a node with no children. |
| HeaderTree.MaxDepth | src/bumil/custom/excel/ExcelGenerator.java:65 | The `max().orElse(0)` over the children is 0 exactly when there are no children. |
| HeaderTree.MaxDepthIsMaximum | src/bumil/custom/excel/ExcelGenerator.java:65 | The `max().orElse(0)` over the children bounds every child's depth and is reached by one of them when there are children. |
| HeaderTree.DepthOfGroup | src/bumil/custom/excel/ExcelGenerator.java:63-66 | A depth is at least 1. Every child is shallower than its group, and some child is exactly one level shallower. |
| HeaderTree.Leaves | src/bumil/custom/excel/ExcelGenerator.java:73-83 | Every node has at least one leaf under it, and every node listed is a leaf. |
| HeaderTree.LeafLevel | src/bumil/custom/excel/ExcelGenerator.java:33-56 | The row offset at which a leaf's title is written lies inside the header depth. It is 0 exactly when the node is itself a leaf. |
| HeaderTree.CollectLeafNodes | src/bumil/custom/excel/ExcelGenerator.java:73-83 | The list built child by child equals the leaves of the tree, left to right. |
| HeaderTree.PreOrder | src/bumil/custom/excel/ExcelGenerator.java:306-315 | The pre-order walk collectMapping follows is never empty and begins with the node itself, before any child. |
| HeaderTree.LeavesArePreOrderLeaves | src/bumil/custom/excel/ExcelGenerator.java:73-83 | The leaf list is exactly the leaves of the pre-order walk, in the same order. |
| HeaderTree.LeafFilterMembers | src/bumil/custom/excel/ExcelGenerator.java:73-83 | Every leaf collected from a list of nodes is one of those nodes. |
| HeaderTree.PutAllKeys | src/bumil/custom/excel/ExcelGenerator.java:306-315 | After the puts, a title is a key iff it was one before or some visited node has that title and a non-null field name. |
| HeaderTree.PutAllLastWins | src/bumil/custom/excel/ExcelGenerator.java:307-309 | A duplicated title maps to the field name of the last node that put it. |
| HeaderTree.TitleMap | src/bumil/custom/excel/ExcelGenerator.java:300-315 | The keys are exactly the titles of nodes with a field name. Each maps to the field name of the last such node in pre-order. |
| HeaderTree.CollectMapping | src/bumil/custom/excel/ExcelGenerator.java:306-315 | The map after the call is the given map with the entries of the node and its subtrees put in pre-order. |
| HeaderTree.BuildTitleToFieldNameMap | src/bumil/custom/excel/ExcelGenerator.java:300-304 | The map returned is the title map of the tree. |
| HeaderTree.TitleMapOfLeaf | src/bumil/custom/excel/ExcelGenerator.java:300-315 | When no mapped node shares its title with a node before it in pre-order, the map sends the title of each leaf that has a field name to that field name. |
| HeaderLayout.HeaderCells | src/bumil/custom/excel/ExcelGenerator.java:33-48 | A node placed at (r, c) writes its own title, with its style, at (r, c) before anything else. Every header cell holds text. |
| HeaderLayout.ChildCells | src/bumil/custom/excel/ExcelGenerator.java:45-48 | Laying out a group's children writes at least one cell per child, and every cell holds text. |
| HeaderLayout.GroupRegion | src/bumil/custom/excel/ExcelGenerator.java:50-54 | A group's region covers at least two cells and starts at the group's own cell. It spans a single row or a single column. |
| HeaderLayout.HeaderMerges | src/bumil/custom/excel/ExcelGenerator.java:41-56 | A node asks for no merged region exactly when it has no children. Otherwise its own region comes last and starts at its own cell. |
| HeaderLayout.Sheet.constructor | src/bumil/custom/excel/ExcelGenerator.java:181-182 | A new sheet holds no cells and no merged regions. |
| HeaderLayout.Sheet.SetCell | src/bumil/custom/excel/ExcelGenerator.java:35-39 | One cell is appended with its content and style, and the merged regions are unchanged. |
| HeaderLayout.Sheet.AddMergedRegion | src/bumil/custom/excel/ExcelGenerator.java:50-54 | One region is appended, and the cells are unchanged. |
| HeaderLayout.RenderHeader | src/bumil/custom/excel/ExcelGenerator.java:33-56 | The width returned is the number of leaves under the node. The sheet gains exactly the node's header cells and merged regions, in the order the recursion writes them. |
| HeaderLayout.RenderChildren | src/bumil/custom/excel/ExcelGenerator.java:45-48 | The loop over a group's children returns their total number of leaves. The sheet gains exactly their cells and regions, each child laid out right of its elder siblings' columns. |
| HeaderLayout.HeaderCellsInBlock | src/bumil/custom/excel/ExcelGenerator.java:33-56 | Every header cell of a node placed at (r, c) lies in rows [r, r + depth) and columns [c, c + width). |
| HeaderLayout.EveryHeaderRowWritten | src/bumil/custom/excel/ExcelGenerator.java:33-56 | Each of the depth rows of the header holds at least one cell. |
| HeaderLayout.LeafTitleInColumn | src/bumil/custom/excel/ExcelGenerator.java:33-56 | The title and style of the j-th leaf are written in column c + j, at its leaf level. |
| HeaderLayout.OneCellPerNodeOneRegionPerGroup | src/bumil/custom/excel/ExcelGenerator.java:33-56 | One cell is written per node and one merged region per group. Leaves get no region. |
| HeaderLayout.GroupRegionRule | src/bumil/custom/excel/ExcelGenerator.java:50-54 | A group's region is written after its children's. It is horizontal over its own row when it is wider than one column, and vertical down the group's depth when it is one column wide. |
| HeaderLayout.MergesInBlock | src/bumil/custom/excel/ExcelGenerator.java:50-54 | Every region covers at least two cells and lies inside the node's block. |
| HeaderLayout.NestedSingleColumnGroupsOverlap | src/bumil/custom/excel/ExcelGenerator.java:52-54 | For any group with a single leaf whose child is itself a group, at any (r, c): the child asks for rows r+1 to r+depth-1 of column c, then the group for rows r to r+depth-1 of the same column, and the two overlap. POI refuses the second of these, so generateExcel throws on such a tree. |
| FieldMapper.TruncateTowardZero | src/bumil/custom/excel/ExcelGenerator.java:128 | `Double.intValue` gives the integer part, rounded toward zero, for both signs. |
| FieldMapper.ConvertValue | src/bumil/custom/excel/ExcelGenerator.java:125-146 | A Double goes to Integer or Long by truncation. Any Number, Float or BigDecimal included, goes to Double. Anything goes to String through `toString`. Every other combination is passed through unchanged. |
| FieldMapper.Text | src/bumil/custom/excel/ExcelGenerator.java:139 | `toString` of a String is the string itself. An Integer or Long prints with a leading minus sign exactly when it is negative. A Boolean prints as "true" or "false" according to its value. |
| FieldMapper.InstanceOf | src/bumil/custom/excel/ExcelGenerator.java:113 | Every value is an Object. A value is a Number exactly when it is one of the number kinds, and a String is a CharSequence and a Comparable. |
| FieldMapper.SupertypeParameterTakesValue | src/bumil/custom/excel/ExcelGenerator.java:125-146 | A Number parameter takes any number, and a CharSequence or Comparable parameter takes a String, unconverted. |
| FieldMapper.ConvertIdempotent | src/bumil/custom/excel/ExcelGenerator.java:125-146 | Converting a converted value again changes nothing. |
| FieldMapper.ConvertedAccepted | src/bumil/custom/excel/ExcelGenerator.java:112-113 | Says exactly when `invoke` accepts the converted value: String and Object parameters always; otherwise the value is already an instance of the parameter type (a subclass or implementor included), or the conversion produced one. |
| FieldMapper.GetFieldValue | src/bumil/custom/excel/ExcelGenerator.java:92-96 | A null field name throws NullPointerException. An undeclared field throws NoSuchFieldException. Otherwise the result is the field's value. |
| Base.Trim | src/bumil/custom/excel/ExcelGenerator.java:253 | `trim` leaves an infix of its argument, with only spaces and control characters removed from either end, and none left at either end of the result. |
| FieldMapper.SetterName | src/bumil/custom/excel/ExcelGenerator.java:107 | "set", then the upper-cased first letter, then the rest of the field name. |
| FieldMapper.FindSetter | src/bumil/custom/excel/ExcelGenerator.java:108-116 | Returns the first public method with the setter's name and one parameter, or none when there is no such method. |
| FieldMapper.SetField | src/bumil/custom/excel/ExcelGenerator.java:105-117 | A null value or a missing setter leaves the record as it is. Otherwise the field holds the converted value, and no other field changes. The call fails exactly on an empty field name or a converted value that is not an instance of the setter's parameter type. |
| FieldMapper.NumberSetterTakesDouble | src/bumil/custom/excel/ExcelGenerator.java:105-117 | A setter declared with a `Number` parameter stores the Double of a numeric cell as it is. |
| FieldMapper.SetFieldValue | src/bumil/custom/excel/ExcelGenerator.java:105-117 | The method's scan over the methods gives SetField's result. |
| ExcelExport.DefaultBodyStyle | src/bumil/custom/excel/ExcelGenerator.java:220-232 | The font is "맑은 고딕" at 10 points, not bold, with no fill, vertically centred. It is right-aligned exactly for instances of Number, whatever the subclass, and centred otherwise. |
| ExcelExport.EncodeCell | src/bumil/custom/excel/ExcelGenerator.java:199-205 | A null value leaves the cell blank. Any Number, Float or BigDecimal included, is written as a numeric cell holding its double value. Anything else is written as the text of `toString`. |
| ExcelExport.BodyStyle | src/bumil/custom/excel/ExcelGenerator.java:208 | A style in the map for the field is used as given. Without one, the default style is used, with the default font, right-aligned exactly for a non-null Number. |
| ExcelExport.Export | src/bumil/custom/excel/ExcelGenerator.java:180-211 | With no records, the sheet is the header alone. Whenever it succeeds, its merged regions are the header's. |
| ExcelExport.GenerateExcel | src/bumil/custom/excel/ExcelGenerator.java:180-211 | The sheet written, or the exception thrown, is `Export` of the header tree, the records and the style map. |
| ExcelExport.WriteBody | src/bumil/custom/excel/ExcelGenerator.java:192-211 | The loop over the records appends the body cells after the header and leaves the merged regions as they are. It stops with the first unreadable field's exception. |
| ExcelExport.WriteRecord | src/bumil/custom/excel/ExcelGenerator.java:194-210 | For one record, appends one cell per leaf, or stops at the first leaf whose field cannot be read. |
| ExcelExport.RowCellsSpec | src/bumil/custom/excel/ExcelGenerator.java:196-210 | A record's row succeeds iff every leaf's field can be read. Cell j is then the leaf's value in column j. Otherwise the error is that of the first unreadable leaf. |
| ExcelExport.BodyRowsSpec | src/bumil/custom/excel/ExcelGenerator.java:193-211 | The body succeeds iff every record's row does. It is then the records' rows, one after another. |
| ExcelExport.BodyCellAt | src/bumil/custom/excel/ExcelGenerator.java:192-211 | Cell k·n + j of the body is record k's value for leaf j, in row `depth + k` and column j. |
| ExcelExport.BodyRowsFailure | src/bumil/custom/excel/ExcelGenerator.java:193-211 | The body fails iff some record meets a leaf that has no field name or whose field the record lacks. |
| ExcelExport.ExportFailure | src/bumil/custom/excel/ExcelGenerator.java:180-211 | generateExcel throws iff some record meets a leaf of the header tree that has no field name or whose field the record lacks. |
| ExcelExport.ExportLayout | src/bumil/custom/excel/ExcelGenerator.java:186-211 | The sheet holds the header cells first, then one cell per leaf and record. The only merged regions are the header's. |
| ExcelExport.ExportCellAt | src/bumil/custom/excel/ExcelGenerator.java:192-211 | The cell after the header at index k·n + j is record k's value for leaf j. |
| ExcelExport.ValueUnderItsTitle | src/bumil/custom/excel/ExcelGenerator.java:186-211 | Leaf j's title is in column j of a header row. Record k's value for that leaf is in the same column, in body row `depth + k`. |
| ExcelExport.BodyBelowHeader | src/bumil/custom/excel/ExcelGenerator.java:186-211 | Header cells lie above row `depth`. Body cells lie in rows [depth, depth + records), and all cells lie within the leaf columns. |
| ExcelExport.BodyCellsInBlock | src/bumil/custom/excel/ExcelGenerator.java:192-211 | Every body cell lies in the body's block of rows and columns. |
| ExcelImport.IsEmptyRow | src/bumil/custom/excel/ExcelGenerator.java:289-297 | A row is empty iff it is null or every cell in it is missing or blank. Otherwise some cell is neither. |
| ExcelImport.PresentColumns | src/bumil/custom/excel/ExcelGenerator.java:252-254 | The cell iterator visits only columns that hold a cell. |
| ExcelImport.PresentColumnsSpec | src/bumil/custom/excel/ExcelGenerator.java:252-254 | The iterator visits every column that holds a cell, once, in increasing order. |
| ExcelImport.StringCellValue | src/bumil/custom/excel/ExcelGenerator.java:253 | `getStringCellValue` gives the text of a STRING cell and "" for a BLANK cell. It throws IllegalStateException for every other cell type. |
| ExcelImport.HeaderLabels | src/bumil/custom/excel/ExcelGenerator.java:251-254 | The only exception the header loop throws is IllegalStateException. |
| ExcelImport.HeaderLabelsFailure | src/bumil/custom/excel/ExcelGenerator.java:250-254 | The header row reads iff every cell in it is text or blank. |
| ExcelImport.HeaderLabelsSpec | src/bumil/custom/excel/ExcelGenerator.java:250-254 | Label i is the trimmed text of the i-th cell present. |
| ExcelImport.HeaderLabelsCount | src/bumil/custom/excel/ExcelGenerator.java:251-254 | There is one label per cell present in the header row. |
| ExcelImport.NoGapNoShift | src/bumil/custom/excel/ExcelGenerator.java:252-254 | When no header cell is missing, the i-th cell present is in column i. |
| ExcelImport.HeaderGapShiftsLabels | src/bumil/custom/excel/ExcelGenerator.java:250-265 | In any header row whose first cell is missing and whose second is present, the first label is the text of column 1, and every label i comes from a column to the right of i. The decode loop uses label i for column i. |
| ExcelImport.ReadHeaders | src/bumil/custom/excel/ExcelGenerator.java:251-254 | The header loop computes the header labels or throws. |
| ExcelImport.CellImportValue | src/bumil/custom/excel/ExcelGenerator.java:268-273 | A STRING cell gives a String, a NUMERIC cell a Double, and a BOOLEAN cell a Boolean. Every other cell type gives null. |
| ExcelImport.DecodeColumns | src/bumil/custom/excel/ExcelGenerator.java:261-276 | The column loop keeps every field the record already had. The only exceptions it throws are those of setFieldValue. |
| ExcelImport.DecodeRow | src/bumil/custom/excel/ExcelGenerator.java:260-276 | A row fails with NoSuchMethodException exactly when the class has no no-argument constructor. A record decoded keeps every field of the new instance, and any other exception comes from setFieldValue. |
| ExcelImport.DecodeColumnsFailure | src/bumil/custom/excel/ExcelGenerator.java:261-275 | Decoding a row fails iff some column with a cell, under a mapped label, makes setFieldValue throw. |
| ExcelImport.UntargetedFieldsKept | src/bumil/custom/excel/ExcelGenerator.java:261-275 | A field that no column sets keeps the value the new instance had. |
| ExcelImport.LastColumnWins | src/bumil/custom/excel/ExcelGenerator.java:261-275 | A field with a setter holds the converted value of the last column that sets it. |
| ExcelImport.ReadRecord | src/bumil/custom/excel/ExcelGenerator.java:260-275 | The column loop for one row computes DecodeRow. |
| ExcelImport.CellRoundTrip | src/bumil/custom/excel/ExcelGenerator.java:199-205 | An Integer, Long, Double or String value written to a cell reads back unchanged into a field of its own type, numbers being exact (a Long beyond 2^53 comes back rounded in Java). A null value reads back as null. |
| ExcelImport.BooleanDoesNotRoundTrip | src/bumil/custom/excel/ExcelGenerator.java:203 | A Boolean is written as the text "true" or "false", and a Boolean setter refuses that text when it is read back. |
| ExcelImport.FieldRoundTrip | src/bumil/custom/excel/ExcelGenerator.java:260-275 | When the last column setting field f holds the cell written for a value v of f's type, the decoded record holds v in f. |
| ExcelImport.WrittenRow | src/bumil/custom/excel/ExcelGenerator.java:194-210 | The row read back holds in column j the content of the j-th cell written. |
| ExcelImport.RowRoundTrip | src/bumil/custom/excel/ExcelGenerator.java:260-276 | Read back under the leaf titles, with a map from each leaf title to its field, the row written for a record gives every named, non-null Integer, Long, Double or String field its original value, numbers being exact (a Long beyond 2^53 comes back rounded in Java). |
| ExcelImport.ExportedRowRoundTrip | src/bumil/custom/excel/ExcelGenerator.java:244-276 | The same for the header tree's own title map, when no mapped title repeats an earlier one in pre-order. |
| ExcelImport.KeptRows | src/bumil/custom/excel/ExcelGenerator.java:256-258 | The kept rows lie after the header and are not blank. |
| ExcelImport.KeptRowsSpec | src/bumil/custom/excel/ExcelGenerator.java:256-258 | The kept rows are in increasing order, and every row that is not blank is kept. |
| ExcelImport.DecodeRows | src/bumil/custom/excel/ExcelGenerator.java:256-278 | One record per kept row, on success. The only exceptions are NoSuchMethodException and those of setFieldValue. |
| ExcelImport.DecodeRowsSucceed | src/bumil/custom/excel/ExcelGenerator.java:256-278 | The rows decode iff every kept row decodes. |
| ExcelImport.DecodeRowsRecords | src/bumil/custom/excel/ExcelGenerator.java:256-278 | Record k is the decoding of the k-th kept row. |
| ExcelImport.DecodeRowsSpec | src/bumil/custom/excel/ExcelGenerator.java:256-277 | There is one record per kept row, in row order. Decoding succeeds iff every kept row decodes. |
| ExcelImport.ParseExcelToDto | src/bumil/custom/excel/ExcelGenerator.java:242-281 | The records returned, or the exception thrown, are `Parse` of the sheet. |
| ExcelImport.ReadRows | src/bumil/custom/excel/ExcelGenerator.java:256-278 | The loop over the rows after the header computes the decoding of those rows. |
| ExcelImport.Parse | src/bumil/custom/excel/ExcelGenerator.java:242-281 | On success, there is one record per non-blank row after the header row. The exceptions thrown are NullPointerException, IllegalStateException, NoSuchMethodException and those of setFieldValue. |
| ExcelImport.ParseSpec | src/bumil/custom/excel/ExcelGenerator.java:242-281 | A missing header row throws NullPointerException, and a header cell that is not text throws IllegalStateException. Otherwise record k is the decoding of the k-th non-blank row after the header. |

## Left out

- Apache POI is replaced by a plain model. The workbook, the `rowMap` cache and `createRow` are not modelled. The sheet written is the sequence of written cells and merged regions, and the sheet read is a sequence of optional rows of optional cells.
- `createCellStyle` is not modelled: a style is an opaque descriptor, recorded on the cell as given, and `null` stands for the workbook default.
- Writing, reading and closing the file are not modelled. `generateExcel` ends with the sheet in memory, and `parseExcelToDto` starts from the first sheet of an opened workbook.
- Reflection is replaced by tables. A class is the record its constructor builds plus its method signatures.
- Setters are assumed to follow the JavaBean convention: `setX` stores its argument into field `x`.
- `Method.invoke` accepts exactly the instances of the parameter's type, subclasses and implementors included. The supertypes of the JDK's own boxes and of String are spelled out, without the `Constable` and `ConstantDesc` interfaces added in Java 12; any other class carries the names of its supertypes with its value. Unboxing and primitive widening (an Integer passed to a `long` parameter, say) are not modelled, so such calls are modelled as failing.
- HeaderLayout.Sheet.AddMergedRegion: POI 3.16 and later throws IllegalStateException when a new region overlaps one already on the sheet. The model appends every region and does not check for overlap, so `GenerateExcel` succeeds where POI would throw on nested one-column groups.
- Records are values, not objects, so aliasing between records is not modelled.
- Numbers are unbounded. `Integer`/`Long` overflow and `double` rounding are not modelled: a Double is an exact real, so `Double.intValue` is plain truncation with no saturation at the integer bounds.
- FieldMapper.DoubleText: `Double.toString` is approximated. It prints at most 17 fraction digits of the exact value, and switches to scientific notation outside [10^-3, 10^7). The shortest digits that identify the double are not modelled.
- Base.UpperCase: `Character.toUpperCase` is modelled for ASCII letters only.
- Formula cells are treated like any other non-text cell. In the header row, one of these makes `getStringCellValue` throw, even where POI would return a cached string result.
- A `null` element of `dataList` is not modelled. A record is always a map.
- The loops of `generateExcel` and `parseExcelToDto` are modelled as a method each, split into helper methods: `WriteBody` (the loop over the records) and `WriteRecord` (the loop over the leaves); `ReadHeaders` (the header loop), `ReadRows` (the loop over the rows) and `ReadRecord` (the loop over the columns). The loop of `renderHeader` over the children is the helper method `RenderChildren`.
- `ExcelStyle`, `ExcelHeaderNode`'s accessors and `Main.java` are not part of this model.

Behaviour of the code worth knowing, as modelled:

- A leaf never gets a merged region, not even a vertical one.
- Nested one-column groups ask for overlapping merged regions (`NestedSingleColumnGroupsOverlap`). POI refuses an overlapping region, so `generateExcel` throws on such a header tree.
- When leaves sit at different depths, the rows between a shallow leaf and the bottom of the header are left without a cell.
- A Boolean field exported by `generateExcel` makes `parseExcelToDto` throw when read back (`BooleanDoesNotRoundTrip`).
- The header labels come from the cells present only. A missing first header cell shifts the labels one or more columns to the left of their cells (`HeaderGapShiftsLabels`).
