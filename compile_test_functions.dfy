/** The `CompileTestFunctions` preprocessor: it strips hidden blocks from
    every cell into one accumulator, records the first code cell, and, when
    the accumulator is non-empty, hands the hidden code to the build and
    prepends `from tests.<notebook> import *` to the recorded cell. */
module CompileTests {
  import opened PyStrings
  import opened Notebooks
  import opened HiddenBlocks

  /** The build step, kept opaque: the module source
      `"\n".join(hidden_block_lines)` is written to
      `release/<assignment>/tests/<notebook>.py` and compiled there. */
  datatype BuildRequest = BuildRequest(assignmentId: string, notebookId: string, source: string)

  /** What `_process_hidden_blocks` leaves: the rewritten cell and
      `removed_block`, or the `RuntimeError` it raises. */
  datatype Processed = Processed(cell: Cell, removedBlock: bool) | Raised(error: BlockError)

  /** How `preprocess` ends: it returns, or a cell's error propagates. */
  datatype Status = Done | Error(error: BlockError)

  /** The effect of `_process_hidden_blocks` on one cell, apart from the
      lines it appends to the accumulator. */
  function CellResult(cell: Cell, d: Delimiters): Processed {
    match Extract(Split(cell.source), d).outcome
    case Extracted(vis, removed) => Processed(cell.(source := Join(vis)), removed)
    case Failed(e) => Raised(e)
  }

  /** A cell whose lines hold neither delimiter is left as it is, adds
      nothing to the accumulator and reports no removal. */
  lemma CellWithoutDelimiters(cell: Cell, d: Delimiters)
    requires forall k :: 0 <= k < |Split(cell.source)| ==> IsPlain(Split(cell.source)[k], d)
    ensures Extract(Split(cell.source), d).hidden == []
    ensures CellResult(cell, d) == Processed(cell, false)
  {
    ExtractBlockFree(Split(cell.source), d);
    JoinSplit(cell.source);
  }

  /** The pass over all cells: the rewritten cells and all hidden lines in
      cell order, or, at the first failing cell, the cells rewritten before
      it, the hidden lines appended so far and the error. */
  datatype NotebookScan =
    | Scanned(cells: seq<Cell>, hidden: seq<string>)
    | Stopped(cells: seq<Cell>, hidden: seq<string>, error: BlockError)

  function ScanCells(cells: seq<Cell>, d: Delimiters): (r: NotebookScan)
    ensures r.Scanned? ==> |r.cells| == |cells|
    ensures r.Stopped? ==> |r.cells| < |cells|
  {
    if cells == [] then Scanned([], [])
    else ScanCell(ScanCells(cells[..|cells| - 1], d), cells[|cells| - 1], d)
  }

  /** The notebook scan advanced by one more cell; a stopped scan stays as it is. */
  function ScanCell(prev: NotebookScan, cell: Cell, d: Delimiters): (r: NotebookScan)
    ensures prev.Stopped? ==> r == prev
    ensures prev.Scanned? && r.Scanned? ==> |r.cells| == |prev.cells| + 1
    ensures prev.Scanned? && r.Stopped? ==> r.cells == prev.cells
  {
    if prev.Stopped? then prev
    else
      var hidden := prev.hidden + Extract(Split(cell.source), d).hidden;
      match CellResult(cell, d)
      case Processed(c, _) => Scanned(prev.cells + [c], hidden)
      case Raised(e) => Stopped(prev.cells, hidden, e)
  }

  /** Every cell before the stopping point (all cells, without an error) is
      replaced by its rewritten self, and the scan stops exactly at the first
      cell whose scan raises, with that cell's error. */
  lemma {:induction false} ScanCellsMeaning(cells: seq<Cell>, d: Delimiters)
    ensures var r := ScanCells(cells, d);
      (forall k :: 0 <= k < |r.cells| ==>
        CellResult(cells[k], d).Processed? && r.cells[k] == CellResult(cells[k], d).cell) &&
      (r.Stopped? ==> CellResult(cells[|r.cells|], d) == Raised(r.error))
  {
    if cells != [] {
      var n := |cells| - 1;
      ScanCellsMeaning(cells[..n], d);
      assert forall k :: 0 <= k < n ==> cells[..n][k] == cells[k];
    }
  }

  /** A notebook without delimiters anywhere passes through unchanged and
      yields no hidden lines, so nothing is built. */
  lemma {:induction false} NotebookWithoutDelimiters(cells: seq<Cell>, d: Delimiters)
    requires forall i, k :: 0 <= i < |cells| && 0 <= k < |Split(cells[i].source)| ==>
      IsPlain(Split(cells[i].source)[k], d)
    ensures ScanCells(cells, d) == Scanned(cells, [])
  {
    if cells != [] {
      var n := |cells| - 1;
      NotebookWithoutDelimiters(cells[..n], d);
      CellWithoutDelimiters(cells[n], d);
      assert cells[..n] + [cells[n]] == cells;
    }
  }

  /** The position of the first code cell, or -1 when there is none. */
  function FirstCodeIndex(cells: seq<Cell>): (r: int)
    ensures -1 <= r < |cells|
    ensures r >= 0 ==> cells[r].cellType == Code
    ensures forall k :: 0 <= k < |cells| && (r == -1 || k < r) ==> cells[k].cellType != Code
  {
    if cells == [] then -1
    else
      var p := FirstCodeIndex(cells[..|cells| - 1]);
      if p >= 0 then p
      else if cells[|cells| - 1].cellType == Code then |cells| - 1
      else -1
  }

  /** Once a code cell has been seen, later cells do not move the index. */
  lemma {:induction false} FirstCodeIndexStable(a: seq<Cell>, b: seq<Cell>)
    requires FirstCodeIndex(a) >= 0
    ensures FirstCodeIndex(a + b) == FirstCodeIndex(a)
    decreases |b|
  {
    if b == [] {
      assert a + b == a;
    } else {
      var b' := b[..|b| - 1];
      FirstCodeIndexStable(a, b');
      assert (a + b)[..|a + b| - 1] == a + b';
    }
  }

  /** Python's `cells[i]` position for an index that may be negative. */
  function PyIndex(i: int, n: nat): int {
    if i < 0 then n + i else i
  }

  /** The cell that receives the import: the first code cell, or, when there
      is none, `nb.cells[-1]`, the last cell. */
  lemma ImportTarget(cells: seq<Cell>)
    requires |cells| > 0
    ensures var t := PyIndex(FirstCodeIndex(cells), |cells|);
      0 <= t < |cells| &&
      ((exists k :: 0 <= k < |cells| && cells[k].cellType == Code) ==>
        cells[t].cellType == Code && forall k :: 0 <= k < t ==> cells[k].cellType != Code) &&
      ((forall k :: 0 <= k < |cells| ==> cells[k].cellType != Code) ==> t == |cells| - 1)
  {
  }

  function ImportLine(notebookId: string): string {
    "from tests." + notebookId + " import *"
  }

  /** The notebook's cells after the import has been prepended at `target`. */
  function WithImport(cells: seq<Cell>, target: nat, notebookId: string): (r: seq<Cell>)
    requires target < |cells|
    ensures |r| == |cells|
    ensures forall k :: 0 <= k < |cells| && k != target ==> r[k] == cells[k]
  {
    cells[target := cells[target].(source := ImportLine(notebookId) + "\n" + cells[target].source)]
  }

  /** The import becomes the target cell's first line, ahead of all of its
      old lines; the cell keeps its type and metadata. */
  lemma ImportLineFirst(cells: seq<Cell>, target: nat, notebookId: string)
    requires target < |cells|
    requires '\n' !in notebookId
    ensures var c := WithImport(cells, target, notebookId)[target];
      Split(c.source) == [ImportLine(notebookId)] + Split(cells[target].source) &&
      c.cellType == cells[target].cellType && c.metadata == cells[target].metadata
  {
    var line := ImportLine(notebookId);
    forall k | 0 <= k < |line| ensures line[k] != '\n' {
      if 11 <= k < 11 + |notebookId| {
        assert line[k] == notebookId[k - 11];
      }
    }
    SplitLineThen(line, cells[target].source);
  }

  class CompileTestFunctions {
    /** `begin_block_delimiter` and `end_block_delimiter`. */
    const delimiters: Delimiters
    /** `hidden_block_lines`, the accumulator shared by all cells of a notebook. */
    var hiddenBlockLines: seq<string>
    /** `first_cell_code_index`. */
    var firstCellCodeIndex: int
    var assignmentId: string
    var notebookId: string
    /** Every build this preprocessor has started, oldest first. */
    var builds: seq<BuildRequest>

    constructor (delimiters: Delimiters)
      ensures this.delimiters == delimiters
      ensures hiddenBlockLines == [] && firstCellCodeIndex == -1 && builds == []
    {
      this.delimiters := delimiters;
      hiddenBlockLines := [];
      firstCellCodeIndex := -1;
      assignmentId := "";
      notebookId := "";
      builds := [];
    }

    /** `_process_hidden_blocks`: scans the cell's lines, appending the lines
        inside blocks to the accumulator (also when it then raises). */
    method ProcessHiddenBlocks(cell: Cell) returns (r: Processed)
      modifies this`hiddenBlockLines
      ensures hiddenBlockLines == old(hiddenBlockLines) + Extract(Split(cell.source), delimiters).hidden
      ensures r == CellResult(cell, delimiters)
    {
      var lines := Split(cell.source);
      var newLines: seq<string> := [];
      var inBlock := false;
      var removedBlock := false;
      ghost var before := hiddenBlockLines;
      var i := 0;
      while i < |lines|
        invariant 0 <= i <= |lines|
        invariant !Scan(Start, lines[..i], delimiters).nested
        invariant Scan(Start, lines[..i], delimiters).visible == newLines
        invariant Scan(Start, lines[..i], delimiters).inBlock == inBlock
        invariant Scan(Start, lines[..i], delimiters).removed == removedBlock
        invariant hiddenBlockLines == before + Scan(Start, lines[..i], delimiters).hidden
      {
        var line := lines[i];
        assert lines[..i + 1] == lines[..i] + [line];
        ScanSnoc(Start, lines[..i], line, delimiters);
        if Contains(line, delimiters.begin) {
          if inBlock {
            assert lines == lines[..i + 1] + lines[i + 1..];
            ScanFrozen(Scan(Start, lines[..i + 1], delimiters), lines[i + 1..], delimiters);
            ScanAppend(Start, lines[..i + 1], lines[i + 1..], delimiters);
            return Raised(NestedBeginBlock);
          }
          inBlock := true;
          removedBlock := true;
        } else if Contains(line, delimiters.end) {
          inBlock := false;
        } else if !inBlock {
          newLines := newLines + [line];
        } else {
          hiddenBlockLines := hiddenBlockLines + [line];
        }
        i := i + 1;
      }
      assert lines[..i] == lines;
      if inBlock {
        return Raised(NoEndBlock);
      }
      return Processed(cell.(source := Join(newLines)), removedBlock);
    }

    /** `preprocess_cell`: records the first code cell's index, then strips
        the cell's hidden blocks. */
    method PreprocessCell(cell: Cell, index: nat) returns (r: Processed)
      modifies this`hiddenBlockLines, this`firstCellCodeIndex
      ensures firstCellCodeIndex ==
        if old(firstCellCodeIndex) < 0 && cell.cellType == Code then index else old(firstCellCodeIndex)
      ensures hiddenBlockLines == old(hiddenBlockLines) + Extract(Split(cell.source), delimiters).hidden
      ensures r == CellResult(cell, delimiters)
    {
      if firstCellCodeIndex < 0 && cell.cellType == Code {
        firstCellCodeIndex := index;
      }
      r := ProcessHiddenBlocks(cell);
    }

    /** The cell loop that `preprocess` inherits from nbconvert's
        `Preprocessor.preprocess`: `preprocess_cell` on every cell in order,
        each result stored back at its index; an error stops the loop. */
    method PreprocessCells(nb: Notebook) returns (status: Status)
      modifies this`hiddenBlockLines, this`firstCellCodeIndex, nb`cells
      ensures hiddenBlockLines == old(hiddenBlockLines) + ScanCells(old(nb.cells), delimiters).hidden
      ensures ScanCells(old(nb.cells), delimiters).Stopped? ==>
        var s := ScanCells(old(nb.cells), delimiters);
        status == Error(s.error) &&
        nb.cells == s.cells + old(nb.cells)[|s.cells|..] &&
        (old(firstCellCodeIndex) == -1 ==> firstCellCodeIndex == FirstCodeIndex(old(nb.cells)[..|s.cells| + 1]))
      ensures ScanCells(old(nb.cells), delimiters).Scanned? ==>
        status == Done &&
        nb.cells == ScanCells(old(nb.cells), delimiters).cells &&
        (old(firstCellCodeIndex) == -1 ==> firstCellCodeIndex == FirstCodeIndex(old(nb.cells)))
    {
      ghost var cells0 := nb.cells;
      ghost var hidden0 := hiddenBlockLines;
      ghost var index0 := firstCellCodeIndex;
      var i := 0;
      while i < |nb.cells|
        invariant 0 <= i <= |cells0| == |nb.cells|
        invariant ScanCells(cells0[..i], delimiters).Scanned?
        invariant nb.cells == ScanCells(cells0[..i], delimiters).cells + cells0[i..]
        invariant hiddenBlockLines == hidden0 + ScanCells(cells0[..i], delimiters).hidden
        invariant index0 == -1 ==> firstCellCodeIndex == FirstCodeIndex(cells0[..i])
      {
        var cell := nb.cells[i];
        assert cell == cells0[i];
        ScanCellsStep(cells0, i, delimiters);
        ghost var prev := ScanCells(cells0[..i], delimiters);
        ghost var x := Extract(Split(cell.source), delimiters).hidden;
        ConcatAssoc(hidden0, prev.hidden, x);
        var r := PreprocessCell(cell, i);
        if r.Raised? {
          ScanCellsStopped(cells0, i, delimiters);
          return Error(r.error);
        }
        nb.cells := nb.cells[i := r.cell];
        i := i + 1;
      }
      assert cells0[..i] == cells0;
      return Done;
    }

    /** `preprocess`: resets the index and the accumulator, runs
        `preprocess_cell` over every cell, and, only when hidden lines were
        found, starts the build and prepends the import to the recorded cell
        (Python's `nb.cells[-1]`, the last cell, when no code cell exists). */
    method Preprocess(nb: Notebook, resources: Resources) returns (status: Status)
      modifies this, nb
      ensures nb.metadata == old(nb.metadata)
      ensures hiddenBlockLines == ScanCells(old(nb.cells), delimiters).hidden
      ensures ScanCells(old(nb.cells), delimiters).Stopped? ==>
        var s := ScanCells(old(nb.cells), delimiters);
        status == Error(s.error) &&
        nb.cells == s.cells + old(nb.cells)[|s.cells|..] &&
        firstCellCodeIndex == FirstCodeIndex(old(nb.cells)[..|s.cells| + 1]) &&
        builds == old(builds) && assignmentId == old(assignmentId) && notebookId == old(notebookId)
      ensures ScanCells(old(nb.cells), delimiters).Scanned? ==>
        var s := ScanCells(old(nb.cells), delimiters);
        status == Done &&
        firstCellCodeIndex == FirstCodeIndex(old(nb.cells)) &&
        assignmentId == resources.assignment && notebookId == resources.notebook &&
        (s.hidden == [] ==> nb.cells == s.cells && builds == old(builds)) &&
        (s.hidden != [] ==>
          |s.cells| > 0 &&
          builds == old(builds) + [BuildRequest(resources.assignment, resources.notebook, Join(s.hidden))] &&
          nb.cells == WithImport(s.cells, PyIndex(firstCellCodeIndex, |s.cells|), resources.notebook))
    {
      firstCellCodeIndex := -1;
      hiddenBlockLines := [];
      status := PreprocessCells(nb);
      if status.Error? {
        return;
      }
      assignmentId := resources.assignment;
      notebookId := resources.notebook;
      if hiddenBlockLines != [] {
        builds := builds + [BuildRequest(assignmentId, notebookId, Join(hiddenBlockLines))];
        var target := PyIndex(firstCellCodeIndex, |nb.cells|);
        var cell := nb.cells[target];
        nb.cells := nb.cells[target := cell.(source := ImportLine(notebookId) + "\n" + cell.source)];
      }
    }
  }

  /** After the nested error nothing changes any more. */
  lemma {:induction false} ScanFrozen(st: ScanState, lines: seq<string>, d: Delimiters)
    requires st.nested
    ensures Scan(st, lines, d) == st
    decreases |lines|
  {
    if lines != [] {
      ScanFrozen(Step(st, lines[0], d), lines[1..], d);
    }
  }

  /** One more cell on top of a prefix that scanned without error: the
      notebook scan, the cell list with the new cell stored back, and the
      first code index all advance by that cell. */
  lemma ScanCellsStep(cells: seq<Cell>, i: nat, d: Delimiters)
    requires i < |cells|
    requires ScanCells(cells[..i], d).Scanned?
    ensures var prev := ScanCells(cells[..i], d);
      var hidden := prev.hidden + Extract(Split(cells[i].source), d).hidden;
      |prev.cells| == i &&
      ScanCells(cells[..i + 1], d) == (
        match CellResult(cells[i], d)
        case Processed(c, _) => Scanned(prev.cells + [c], hidden)
        case Raised(e) => Stopped(prev.cells, hidden, e)) &&
      (CellResult(cells[i], d).Processed? ==>
        (prev.cells + cells[i..])[i := CellResult(cells[i], d).cell] ==
          ScanCells(cells[..i + 1], d).cells + cells[i + 1..])
    ensures FirstCodeIndex(cells[..i + 1]) ==
      if FirstCodeIndex(cells[..i]) < 0 && cells[i].cellType == Code then i else FirstCodeIndex(cells[..i])
  {
    assert cells[..i + 1][..i] == cells[..i];
    var prev := ScanCells(cells[..i], d);
    if CellResult(cells[i], d).Processed? {
      var c := CellResult(cells[i], d).cell;
      assert (prev.cells + cells[i..])[i := c] == (prev.cells + [c]) + cells[i + 1..];
    }
  }

  /** A scan that stops at cell `i` is the notebook scan of every longer prefix. */
  lemma ScanCellsStopped(cells: seq<Cell>, i: nat, d: Delimiters)
    requires i < |cells|
    requires ScanCells(cells[..i + 1], d).Stopped?
    ensures ScanCells(cells, d) == ScanCells(cells[..i + 1], d)
  {
    StoppedPrefix(cells, i, |cells|, d);
    assert cells[..|cells|] == cells;
  }

  /** Every prefix longer than the stopping one scans to the same result. */
  lemma {:induction false} StoppedPrefix(cells: seq<Cell>, i: nat, j: nat, d: Delimiters)
    requires i < j <= |cells|
    requires ScanCells(cells[..i + 1], d).Stopped?
    ensures ScanCells(cells[..j], d) == ScanCells(cells[..i + 1], d)
    decreases j
  {
    if j > i + 1 {
      StoppedPrefix(cells, i, j - 1, d);
      assert cells[..j][..j - 1] == cells[..j - 1];
    }
  }
}
