/**
  renderHeader: laying a header tree out on the sheet. A node writes its
  title at (row, col); its children are laid out one row down, side by side,
  each starting after the columns of the siblings before it; a group then
  asks the sheet to merge either its row across all its columns (when it
  spans several) or its column down to the bottom of its subtree (when it
  spans one). Leaves return before any merge is asked for.

  HeaderCells and HeaderMerges say what one call appends to the sheet; the
  lemmas below say where those cells and regions lie.
 */
module HeaderLayout {
  import opened Base
  import opened Grid
  import opened HeaderTree

  // ---------------------------------------------------------------------------
  // What one call of renderHeader appends

  /** The cells written for n placed at (r, c): its own title, then the
      cells of its children. */
  function HeaderCells(n: Node, r: nat, c: nat): (cells: seq<CellWrite>)
    ensures |cells| >= 1 && cells[0] == CellWrite(r, c, StringCell(n.title), n.style)
    ensures forall k :: 0 <= k < |cells| ==> cells[k].content.StringCell?
    decreases n
  {
    [CellWrite(r, c, StringCell(n.title), n.style)] + ChildCells(n.children, r + 1, c)
  }

  /** The cells written for the siblings ns laid out from (r, c) on. */
  function ChildCells(ns: seq<Node>, r: nat, c: nat): (cells: seq<CellWrite>)
    ensures |cells| >= |ns|
    ensures forall k :: 0 <= k < |cells| ==> cells[k].content.StringCell?
    decreases ns
  {
    if ns == [] then []
    else
      var p := ns[..|ns| - 1];
      ChildCells(p, r, c) + HeaderCells(ns[|ns| - 1], r, c + |LeavesOf(p)|)
  }

  /** The region a group at (r, c) asks for once its children are laid out. */
  function GroupRegion(n: Node, r: nat, c: nat): (g: Region)
    requires !n.IsLeaf()
    ensures g.IsMergeable() && g.firstRow == r && g.firstCol == c
    ensures g.firstRow == g.lastRow || g.firstCol == g.lastCol
  {
    var width := |LeavesOf(n.children)|;
    if width > 1 then Region(r, r, c, c + width - 1)
    else Region(r, r + Depth(n) - 1, c, c)
  }

  /** The regions merged for n placed at (r, c): those of its children, then
      its own, if it is a group. */
  function HeaderMerges(n: Node, r: nat, c: nat): (merges: seq<Region>)
    ensures merges == [] <==> n.IsLeaf()
    ensures !n.IsLeaf() ==> merges[|merges| - 1].firstRow == r && merges[|merges| - 1].firstCol == c
    decreases n
  {
    if n.IsLeaf() then [] else ChildMerges(n.children, r + 1, c) + [GroupRegion(n, r, c)]
  }

  function ChildMerges(ns: seq<Node>, r: nat, c: nat): seq<Region>
    decreases ns
  {
    if ns == [] then []
    else
      var p := ns[..|ns| - 1];
      ChildMerges(p, r, c) + HeaderMerges(ns[|ns| - 1], r, c + |LeavesOf(p)|)
  }

  // ---------------------------------------------------------------------------
  // The sheet and renderHeader

  /** The part of a worksheet the generator writes: the cells in the order
      they are set and the merged regions in the order they are added. */
  class Sheet {
    var cells: seq<CellWrite>
    var merges: seq<Region>

    constructor ()
      ensures cells == [] && merges == []
    {
      cells := [];
      merges := [];
    }

    /** Row.createCell followed by setCellValue and setCellStyle. */
    method SetCell(row: nat, col: nat, content: Cell, style: Option<Style>)
      modifies this
      ensures cells == old(cells) + [CellWrite(row, col, content, style)]
      ensures merges == old(merges)
    {
      cells := cells + [CellWrite(row, col, content, style)];
    }

    /** Sheet.addMergedRegion. */
    method AddMergedRegion(region: Region)
      modifies this
      ensures merges == old(merges) + [region]
      ensures cells == old(cells)
    {
      merges := merges + [region];
    }
  }

  /** renderHeader: lays node out from (rowIdx, colIdx) and returns the
      number of columns it spans, which is its number of leaves. */
  method RenderHeader(sheet: Sheet, node: Node, rowIdx: nat, colIdx: nat) returns (width: nat)
    modifies sheet
    ensures width == |Leaves(node)|
    ensures sheet.cells == old(sheet.cells) + HeaderCells(node, rowIdx, colIdx)
    ensures sheet.merges == old(sheet.merges) + HeaderMerges(node, rowIdx, colIdx)
    decreases node, 1
  {
    sheet.SetCell(rowIdx, colIdx, StringCell(node.title), node.style);
    if node.IsLeaf() {
      assert ChildCells(node.children, rowIdx + 1, colIdx) == [];
      return 1;
    }

    width := RenderChildren(sheet, node.children, rowIdx + 1, colIdx);
    AppendAssoc(old(sheet.cells), [CellWrite(rowIdx, colIdx, StringCell(node.title), node.style)],
                ChildCells(node.children, rowIdx + 1, colIdx));
    ghost var childMerges := ChildMerges(node.children, rowIdx + 1, colIdx);

    if width > 1 {
      sheet.AddMergedRegion(Region(rowIdx, rowIdx, colIdx, colIdx + width - 1));
    } else {
      sheet.AddMergedRegion(Region(rowIdx, rowIdx + Depth(node) - 1, colIdx, colIdx));
    }
    assert sheet.merges == (old(sheet.merges) + childMerges) + [GroupRegion(node, rowIdx, colIdx)];
    AppendAssoc(old(sheet.merges), childMerges, [GroupRegion(node, rowIdx, colIdx)]);
  }

  /** The loop of renderHeader over the children of a group: each child is
      laid out one row down, right of the columns its elder siblings took. */
  method RenderChildren(sheet: Sheet, children: seq<Node>, rowIdx: nat, colIdx: nat) returns (width: nat)
    modifies sheet
    ensures width == |LeavesOf(children)|
    ensures sheet.cells == old(sheet.cells) + ChildCells(children, rowIdx, colIdx)
    ensures sheet.merges == old(sheet.merges) + ChildMerges(children, rowIdx, colIdx)
    decreases children, 0
  {
    ghost var cells0, merges0 := sheet.cells, sheet.merges;
    width := 0;
    for i := 0 to |children|
      invariant width == |LeavesOf(children[..i])|
      invariant sheet.cells == cells0 + ChildCells(children[..i], rowIdx, colIdx)
      invariant sheet.merges == merges0 + ChildMerges(children[..i], rowIdx, colIdx)
    {
      var w := RenderHeader(sheet, children[i], rowIdx, colIdx + width);
      ExtendSiblings(cells0, merges0, children, i, rowIdx, colIdx, colIdx + width);
      width := width + w;
    }
    assert children[..|children|] == children;
  }

  lemma AppendAssoc<T>(a: seq<T>, b: seq<T>, c: seq<T>)
    ensures (a + b) + c == a + (b + c)
  {
  }

  /** Laying out one more sibling extends the cells, the regions and the
      columns used by exactly that sibling's own. */
  lemma SiblingsStep(ns: seq<Node>, i: nat, r: nat, c: nat)
    requires i < |ns|
    ensures var off := c + |LeavesOf(ns[..i])|;
      && ChildCells(ns[..i + 1], r, c) == ChildCells(ns[..i], r, c) + HeaderCells(ns[i], r, off)
      && ChildMerges(ns[..i + 1], r, c) == ChildMerges(ns[..i], r, c) + HeaderMerges(ns[i], r, off)
      && LeavesOf(ns[..i + 1]) == LeavesOf(ns[..i]) + Leaves(ns[i])
  {
    assert ns[..i + 1][..i] == ns[..i];
  }

  /** SiblingsStep, on top of what the sheet held before the siblings. */
  lemma ExtendSiblings(cells0: seq<CellWrite>, merges0: seq<Region>, ns: seq<Node>, i: nat, r: nat, c: nat, off: nat)
    requires i < |ns| && off == c + |LeavesOf(ns[..i])|
    ensures
      && cells0 + ChildCells(ns[..i + 1], r, c) == (cells0 + ChildCells(ns[..i], r, c)) + HeaderCells(ns[i], r, off)
      && merges0 + ChildMerges(ns[..i + 1], r, c) == (merges0 + ChildMerges(ns[..i], r, c)) + HeaderMerges(ns[i], r, off)
      && |LeavesOf(ns[..i + 1])| == |LeavesOf(ns[..i])| + |Leaves(ns[i])|
  {
    SiblingsStep(ns, i, r, c);
    AppendAssoc(cells0, ChildCells(ns[..i], r, c), HeaderCells(ns[i], r, off));
    AppendAssoc(merges0, ChildMerges(ns[..i], r, c), HeaderMerges(ns[i], r, off));
  }

  // ---------------------------------------------------------------------------
  // Where the cells lie

  /** (row, col) lies in the rows [r0, r1) and the columns [c0, c1). */
  predicate InBlock(row: nat, col: nat, r0: nat, r1: nat, c0: nat, c1: nat) {
    r0 <= row < r1 && c0 <= col < c1
  }

  /** Every cell written for n at (r, c) lies in its block: the Depth(n)
      rows from r and the |Leaves(n)| columns from c. */
  lemma {:induction false} HeaderCellsInBlock(n: Node, r: nat, c: nat)
    ensures forall w :: w in HeaderCells(n, r, c) ==>
              InBlock(w.row, w.col, r, r + Depth(n), c, c + |Leaves(n)|)
    decreases n, 1
  {
    if !n.IsLeaf() {
      ChildCellsInBlock(n.children, r + 1, c);
    }
  }

  lemma {:induction false} ChildCellsInBlock(ns: seq<Node>, r: nat, c: nat)
    ensures forall w :: w in ChildCells(ns, r, c) ==>
              InBlock(w.row, w.col, r, r + MaxDepth(ns), c, c + |LeavesOf(ns)|)
    decreases ns, 0
  {
    if ns != [] {
      var p := ns[..|ns| - 1];
      ChildCellsInBlock(p, r, c);
      HeaderCellsInBlock(ns[|ns| - 1], r, c + |LeavesOf(p)|);
    }
  }

  /** The cells of the i-th sibling are among the cells of the siblings. */
  lemma {:induction false} ChildBlockIncluded(ns: seq<Node>, i: nat, r: nat, c: nat)
    requires i < |ns|
    ensures forall w :: w in HeaderCells(ns[i], r, c + |LeavesOf(ns[..i])|) ==> w in ChildCells(ns, r, c)
  {
    var p := ns[..|ns| - 1];
    if i == |ns| - 1 {
      assert ns[..i] == p;
    } else {
      assert p[i] == ns[i] && p[..i] == ns[..i];
      ChildBlockIncluded(p, i, r, c);
    }
  }

  /** The header occupies exactly Depth(n) rows: each of them holds at least
      one cell written for n. */
  lemma {:induction false} EveryHeaderRowWritten(n: Node, r: nat, c: nat, d: nat)
    requires d < Depth(n)
    ensures exists w :: w in HeaderCells(n, r, c) && w.row == r + d
    decreases n
  {
    if d == 0 {
      assert HeaderCells(n, r, c)[0].row == r;
    } else {
      DepthOfGroup(n);
      var i :| 0 <= i < |n.children| && Depth(n.children[i]) == Depth(n) - 1;
      var off := c + |LeavesOf(n.children[..i])|;
      EveryHeaderRowWritten(n.children[i], r + 1, off, d - 1);
      ChildBlockIncluded(n.children, i, r + 1, c);
      var w :| w in HeaderCells(n.children[i], r + 1, off) && w.row == r + 1 + (d - 1);
      assert w in HeaderCells(n, r, c);
    }
  }

  /** The cell (row, col) was written with this content and style. */
  predicate Written(cells: seq<CellWrite>, row: nat, col: nat, content: Cell, style: Option<Style>) {
    CellWrite(row, col, content, style) in cells
  }

  /** Column order: the j-th leaf of n has its title written in column
      c + j, on the row of its level in the tree (which lies in n's block,
      LeafLevel(n, j) < Depth(n)). */
  lemma {:induction false} LeafTitleInColumn(n: Node, r: nat, c: nat, j: nat)
    requires j < |Leaves(n)|
    ensures Written(HeaderCells(n, r, c), r + LeafLevel(n, j), c + j,
                    StringCell(Leaves(n)[j].title), Leaves(n)[j].style)
    decreases n, 1
  {
    if n.IsLeaf() {
      assert HeaderCells(n, r, c)[0] == CellWrite(r, c + j, StringCell(Leaves(n)[j].title), Leaves(n)[j].style);
    } else {
      LeafTitleInColumnOf(n.children, r + 1, c, j);
    }
  }

  lemma {:induction false} LeafTitleInColumnOf(ns: seq<Node>, r: nat, c: nat, j: nat)
    requires j < |LeavesOf(ns)|
    ensures Written(ChildCells(ns, r, c), r + LeafLevelOf(ns, j), c + j,
                    StringCell(LeavesOf(ns)[j].title), LeavesOf(ns)[j].style)
    decreases ns, 0
  {
    var p, x := ns[..|ns| - 1], ns[|ns| - 1];
    if j < |LeavesOf(p)| {
      LeafTitleInColumnOf(p, r, c, j);
    } else {
      LeafTitleInColumn(x, r, c + |LeavesOf(p)|, j - |LeavesOf(p)|);
    }
  }

  /** One cell per node, and one merged region per group: leaves ask for
      none. */
  lemma {:induction false} OneCellPerNodeOneRegionPerGroup(n: Node, r: nat, c: nat)
    ensures |HeaderCells(n, r, c)| == |PreOrder(n)|
    ensures |HeaderMerges(n, r, c)| == |PreOrder(n)| - |Leaves(n)|
    decreases n, 1
  {
    if n.IsLeaf() {
      assert PreOrderOf(n.children) == [] && ChildCells(n.children, r + 1, c) == [];
    } else {
      OneCellPerNodeOneRegionPerGroupOf(n.children, r + 1, c);
    }
  }

  lemma {:induction false} OneCellPerNodeOneRegionPerGroupOf(ns: seq<Node>, r: nat, c: nat)
    ensures |ChildCells(ns, r, c)| == |PreOrderOf(ns)|
    ensures |ChildMerges(ns, r, c)| == |PreOrderOf(ns)| - |LeavesOf(ns)|
    decreases ns, 0
  {
    if ns != [] {
      var p := ns[..|ns| - 1];
      OneCellPerNodeOneRegionPerGroupOf(p, r, c);
      OneCellPerNodeOneRegionPerGroup(ns[|ns| - 1], r, c + |LeavesOf(p)|);
    }
  }

  /** The region a group asks for: its row across all its columns when it
      spans several, otherwise its column down to the last header row of
      its subtree. It is the last region its call adds. */
  lemma GroupRegionRule(n: Node, r: nat, c: nat)
    requires !n.IsLeaf()
    ensures |HeaderMerges(n, r, c)| >= 1
    ensures HeaderMerges(n, r, c)[|HeaderMerges(n, r, c)| - 1]
         == if |Leaves(n)| > 1 then Region(r, r, c, c + |Leaves(n)| - 1)
            else Region(r, r + Depth(n) - 1, c, c)
  {
  }

  /** Every merged region covers at least two cells and lies inside the
      block of the node that asked for it. */
  lemma {:induction false} MergesInBlock(n: Node, r: nat, c: nat)
    ensures forall g :: g in HeaderMerges(n, r, c) ==>
              g.IsMergeable() &&
              InBlock(g.firstRow, g.firstCol, r, r + Depth(n), c, c + |Leaves(n)|) &&
              InBlock(g.lastRow, g.lastCol, r, r + Depth(n), c, c + |Leaves(n)|)
    decreases n, 1
  {
    if !n.IsLeaf() {
      ChildMergesInBlock(n.children, r + 1, c);
      MaxDepthIsMaximum(n.children);
      assert Depth(n.children[0]) >= 1;
    }
  }

  lemma {:induction false} ChildMergesInBlock(ns: seq<Node>, r: nat, c: nat)
    ensures forall g :: g in ChildMerges(ns, r, c) ==>
              g.IsMergeable() &&
              InBlock(g.firstRow, g.firstCol, r, r + MaxDepth(ns), c, c + |LeavesOf(ns)|) &&
              InBlock(g.lastRow, g.lastCol, r, r + MaxDepth(ns), c, c + |LeavesOf(ns)|)
    decreases ns, 0
  {
    if ns != [] {
      var p := ns[..|ns| - 1];
      ChildMergesInBlock(p, r, c);
      MergesInBlock(ns[|ns| - 1], r, c + |LeavesOf(p)|);
    }
  }

  /** Two regions share at least one cell. */
  predicate Overlap(a: Region, b: Region) {
    a.firstRow <= b.lastRow && b.firstRow <= a.lastRow &&
    a.firstCol <= b.lastCol && b.firstCol <= a.lastCol
  }

  /** The regions are not disjoint in general: a group with a single leaf
      whose child is itself a group asks for a column region that contains
      its child's column region. */
  lemma NestedSingleColumnGroupsOverlap(n: Node, r: nat, c: nat)
    requires !n.IsLeaf() && |Leaves(n)| == 1 && !n.children[0].IsLeaf()
    ensures |n.children| == 1
    ensures GroupRegion(n.children[0], r + 1, c) == Region(r + 1, r + Depth(n) - 1, c, c)
    ensures GroupRegion(n, r, c) == Region(r, r + Depth(n) - 1, c, c)
    ensures GroupRegion(n.children[0], r + 1, c) in HeaderMerges(n, r, c)
    ensures HeaderMerges(n, r, c)[|HeaderMerges(n, r, c)| - 1] == GroupRegion(n, r, c)
    ensures Overlap(GroupRegion(n.children[0], r + 1, c), GroupRegion(n, r, c))
  {
    var child := n.children[0];
    assert n.children == [child];
    assert [child][..0] == [];
    assert LeavesOf([child]) == Leaves(child);
    assert MaxDepth([child]) == Depth(child);
    assert ChildMerges([child], r + 1, c) == HeaderMerges(child, r + 1, c);
    var m := HeaderMerges(child, r + 1, c);
    assert m[|m| - 1] == GroupRegion(child, r + 1, c);
  }
}
