/** The notebook of `test_parse_test_funcs`: one code cell whose source opens
    with a hidden `test_bar` block, followed by visible code. */
module ParseTestFuncs {
  import opened PyStrings
  import opened Notebooks
  import opened HiddenBlocks
  import opened CompileTests

  const BlockBegin := "### BEGIN HIDDEN BLOCK"
  const BlockEnd := "### END HIDDEN BLOCK"
  /** The lines inside the block. */
  const Body := ["def test_bar():", "    pass", ""]
  /** The lines after the block. */
  const Rest := ["", "def test_foo(bar):", "    assert bar is True, 'bar must be true'", "",
                 "def foo(bar):", "    # YOUR SOLUTION", "    test_foo(bar)", "", "foo(True)"]

  /** The lines of a block followed by visible lines, as segments, and split
      back out of their join. */
  lemma OneBlockLines(open: string, body: seq<string>, close: string, rest: seq<string>)
    requires '\n' !in open && '\n' !in close
    requires forall k :: 0 <= k < |body| ==> '\n' !in body[k]
    requires forall k :: 0 <= k < |rest| ==> '\n' !in rest[k]
    ensures var lines := [open] + body + [close] + rest;
      Render([Hidden(open, body, close), Shown(rest)]) == lines && Split(Join(lines)) == lines
  {
    var lines := [open] + body + [close] + rest;
    forall k | 0 <= k < |lines| ensures '\n' !in lines[k] {
      if 0 < k < |body| + 1 {
        assert lines[k] == body[k - 1];
      } else if |body| + 1 < k {
        assert lines[k] == rest[k - |body| - 2];
      }
    }
    SplitJoin(lines);
    var segs := [Hidden(open, body, close), Shown(rest)];
    assert segs[1..] == [Shown(rest)] && [Shown(rest)][1..] == [];
    assert Render(segs) == [open] + body + [close] + (rest + Render([]));
  }

  /** Scanning a block followed by visible lines. */
  lemma OneBlockExtract(open: string, body: seq<string>, close: string, rest: seq<string>, d: Delimiters)
    requires WellFormed(Hidden(open, body, close), d) && WellFormed(Shown(rest), d)
    ensures Extract(Render([Hidden(open, body, close), Shown(rest)]), d) == Extraction(body, Extracted(rest, true))
  {
    var segs := [Hidden(open, body, close), Shown(rest)];
    ExtractRender(segs, d);
    assert segs[1..] == [Shown(rest)] && [Shown(rest)][1..] == [];
    assert ShownLines(segs) == [] + (rest + ShownLines([])) == rest;
    assert HiddenLines(segs) == body + ([] + HiddenLines([])) == body;
    assert AnyHidden(segs);
  }

  /** A one-cell notebook holding a block followed by visible lines: the
      scan keeps the visible lines and hands over the block body. */
  lemma OneBlockNotebook(open: string, body: seq<string>, close: string, rest: seq<string>,
                         kind: CellType, d: Delimiters)
    requires WellFormed(Hidden(open, body, close), d) && WellFormed(Shown(rest), d)
    requires '\n' !in open && '\n' !in close
    requires forall k :: 0 <= k < |body| ==> '\n' !in body[k]
    requires forall k :: 0 <= k < |rest| ==> '\n' !in rest[k]
    ensures var cell := Cell(kind, Join([open] + body + [close] + rest), map[]);
      ScanCells([cell], d) == Scanned([cell.(source := Join(rest))], body)
  {
    var lines := [open] + body + [close] + rest;
    var cell := Cell(kind, Join(lines), map[]);
    OneBlockLines(open, body, close, rest);
    OneBlockExtract(open, body, close, rest, d);
    assert Extract(Split(cell.source), d) == Extraction(body, Extracted(rest, true));
    assert [cell][..0] == [];
  }

  /** The test's delimiter lines are a begin line and an end line. */
  lemma DelimiterLines()
    ensures IsBegin(BlockBegin, DefaultDelimiters) && IsEnd(BlockEnd, DefaultDelimiters)
    ensures '\n' !in BlockBegin && '\n' !in BlockEnd
  {
    BeginLine();
    EndLine();
  }

  lemma BeginLine()
    ensures IsBegin(BlockBegin, DefaultDelimiters)
  {
    assert OccursAt(BlockBegin, DefaultDelimiters.begin, 4);
  }

  lemma EndLine()
    ensures IsEnd(BlockEnd, DefaultDelimiters)
  {
    assert OccursAt(BlockEnd, DefaultDelimiters.end, 4);
    AbsentCharNotContained(BlockEnd, DefaultDelimiters.begin, 'G');
  }

  /** A line without a 'G' (in the begin delimiter), a 'D' (in the end
      delimiter) or a newline. */
  predicate Clean(line: string) {
    'G' !in line && 'D' !in line && '\n' !in line
  }

  /** Lines without a 'G' (which the begin delimiter has) and without a 'D'
      (which the end delimiter has) hold neither delimiter. */
  lemma PlainLines(ls: seq<string>)
    requires forall k :: 0 <= k < |ls| ==> Clean(ls[k])
    ensures WellFormed(Shown(ls), DefaultDelimiters)
  {
    forall k | 0 <= k < |ls| ensures IsPlain(ls[k], DefaultDelimiters) {
      AbsentCharNotContained(ls[k], DefaultDelimiters.begin, 'G');
      AbsentCharNotContained(ls[k], DefaultDelimiters.end, 'D');
    }
  }

  /** The whole preprocessor on a one-cell notebook holding the test's
      delimiter lines around `body`, followed by `rest`: one build of the
      block body, and the import as the cell's first line, followed by the
      visible lines. */
  method RunOneBlockNotebook(open: string, body: seq<string>, close: string, rest: seq<string>,
                             r: Resources)
    returns (status: Status, builds: seq<BuildRequest>, lines: seq<string>)
    requires open == BlockBegin && close == BlockEnd
    requires forall k :: 0 <= k < |body| ==> Clean(body[k])
    requires forall k :: 0 <= k < |rest| ==> Clean(rest[k])
    requires body != [] && rest != [] && '\n' !in r.notebook
    ensures status == Done
    ensures builds == [BuildRequest(r.assignment, r.notebook, Join(body))]
    ensures lines == [ImportLine(r.notebook)] + rest
  {
    DelimiterLines();
    PlainLines(body);
    PlainLines(rest);
    var cell := Cell(Code, Join([open] + body + [close] + rest), map[]);
    var nb := new Notebook([cell], map[]);
    var p := new CompileTestFunctions(DefaultDelimiters);
    OneBlockNotebook(open, body, close, rest, Code, DefaultDelimiters);
    assert [cell][..0] == [];
    ghost var scanned := [cell.(source := Join(rest))];
    status := p.Preprocess(nb, r);
    builds := p.builds;
    assert nb.cells == WithImport(scanned, 0, r.notebook);
    ImportLineFirst(scanned, 0, r.notebook);
    SplitJoin(rest);
    lines := Split(nb.cells[0].source);
  }

  /** `test_parse_test_funcs` with its resources (`ps1`, `problem1`): the
      hidden code goes to a build of `ps1/problem1`, and the cell's first line
      becomes `from tests.problem1 import *`. */
  method RunParseTestFuncs() returns (status: Status, builds: seq<BuildRequest>, first: string)
    ensures status == Done
    ensures builds == [BuildRequest("ps1", "problem1", Join(Body))]
    ensures first == "from tests.problem1 import *"
  {
    BodyChars();
    RestChars();
    var lines;
    status, builds, lines := RunOneBlockNotebook(BlockBegin, Body, BlockEnd, Rest, Resources("ps1", "problem1"));
    first := lines[0];
    ProblemImport();
  }

  /** No line of the block body or of the visible code has a 'G', a 'D' or
      a newline. */
  lemma BodyChars()
    ensures forall k :: 0 <= k < |Body| ==> Clean(Body[k])
  {
  }

  lemma RestChars()
    ensures forall k :: 0 <= k < |Rest| ==> Clean(Rest[k])
  {
    RestHead();
    RestLong();
    RestTail();
  }

  lemma RestHead()
    ensures forall k :: 0 <= k < 2 ==> Clean(Rest[k])
  {
  }

  lemma RestLong()
    ensures Clean(Rest[2])
  {
  }

  lemma RestTail()
    ensures forall k :: 3 <= k < |Rest| ==> Clean(Rest[k])
  {
  }

  lemma ProblemImport()
    ensures ImportLine("problem1") == "from tests.problem1 import *"
  {
  }
}
