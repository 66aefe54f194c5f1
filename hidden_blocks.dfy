/** The line scanner of `CompileTestFunctions._process_hidden_blocks` as a
    pure specification, with a declarative account of what it computes.

    The scanner looks at the lines of one cell in order. A line holding the
    begin delimiter opens a hidden block (or, inside one, is the nested-block
    error); otherwise a line holding the end delimiter closes the current
    block, if any; every other line is kept visible outside a block and
    moved to the hidden accumulator inside one. Delimiter lines go nowhere. */
module HiddenBlocks {
  import opened PyStrings

  /** `begin_block_delimiter` and `end_block_delimiter`, matched as substrings. */
  datatype Delimiters = Delimiters(begin: string, end: string)

  const DefaultDelimiters := Delimiters("BEGIN HIDDEN BLOCK", "END HIDDEN BLOCK")

  /** A line the scanner treats as a begin line. */
  predicate IsBegin(line: string, d: Delimiters) {
    Contains(line, d.begin)
  }

  /** A line the scanner treats as an end line: begin is tested first, so a
      line holding both delimiters is a begin line, not an end line. */
  predicate IsEnd(line: string, d: Delimiters) {
    !Contains(line, d.begin) && Contains(line, d.end)
  }

  /** A line holding neither delimiter. */
  predicate IsPlain(line: string, d: Delimiters) {
    !Contains(line, d.begin) && !Contains(line, d.end)
  }

  /** The scanner's variables: `new_lines`, the lines appended to the hidden
      accumulator during this scan, `in_block`, `removed_block`, and whether
      the nested-block error has been raised (after which nothing changes). */
  datatype ScanState = ScanState(
    visible: seq<string>,
    hidden: seq<string>,
    inBlock: bool,
    removed: bool,
    nested: bool)

  const Start := ScanState([], [], false, false, false)

  /** One iteration of the scanner's loop. */
  function Step(st: ScanState, line: string, d: Delimiters): ScanState {
    if st.nested then st
    else if Contains(line, d.begin) then
      if st.inBlock then st.(nested := true)
      else st.(inBlock := true, removed := true)
    else if Contains(line, d.end) then st.(inBlock := false)
    else if !st.inBlock then st.(visible := st.visible + [line])
    else st.(hidden := st.hidden + [line])
  }

  /** The scanner's loop over `lines`, starting from `st`. */
  function Scan(st: ScanState, lines: seq<string>, d: Delimiters): ScanState
    decreases |lines|
  {
    if lines == [] then st else Scan(Step(st, lines[0], d), lines[1..], d)
  }

  lemma {:induction false} ScanAppend(st: ScanState, a: seq<string>, b: seq<string>, d: Delimiters)
    ensures Scan(st, a + b, d) == Scan(Scan(st, a, d), b, d)
    decreases |a|
  {
    if a == [] {
      assert a + b == b;
    } else {
      assert (a + b)[0] == a[0];
      assert (a + b)[1..] == a[1..] + b;
      ScanAppend(Step(st, a[0], d), a[1..], b, d);
    }
  }

  lemma ScanSnoc(st: ScanState, a: seq<string>, x: string, d: Delimiters)
    ensures Scan(st, a + [x], d) == Step(Scan(st, a, d), x, d)
  {
    ScanAppend(st, a, [x], d);
  }

  /** The two `RuntimeError`s the scanner raises. */
  datatype BlockError = NestedBeginBlock | NoEndBlock

  /** What the caller sees: the new visible lines and `removed_block`, or the error. */
  datatype Outcome = Extracted(visible: seq<string>, removedBlock: bool) | Failed(error: BlockError)

  /** The outcome, together with the lines appended to the accumulator; those
      are appended before an error is raised, too. */
  datatype Extraction = Extraction(hidden: seq<string>, outcome: Outcome)

  /** The whole scan of one cell's lines, including the final unterminated-block check. */
  function Extract(lines: seq<string>, d: Delimiters): Extraction {
    var st := Scan(Start, lines, d);
    Extraction(
      st.hidden,
      if st.nested then Failed(NestedBeginBlock)
      else if st.inBlock then Failed(NoEndBlock)
      else Extracted(st.visible, st.removed))
  }

  // ---------------------------------------------------------------------
  // A declarative account of the scan, stated on positions in the cell.
  // ---------------------------------------------------------------------

  /** After `lines`, a block is open: some begin line has no end line after it. */
  ghost predicate InBlock(lines: seq<string>, d: Delimiters) {
    exists i :: 0 <= i < |lines| && IsBegin(lines[i], d) &&
      forall k :: i < k < |lines| ==> !IsEnd(lines[k], d)
  }

  /** Some begin line is met while a block is open. */
  ghost predicate HasNested(lines: seq<string>, d: Delimiters) {
    exists j :: 0 <= j < |lines| && IsBegin(lines[j], d) && InBlock(lines[..j], d)
  }

  /** Some line holds the begin delimiter. */
  ghost predicate HasBegin(lines: seq<string>, d: Delimiters) {
    exists i :: 0 <= i < |lines| && IsBegin(lines[i], d)
  }

  /** The delimiter-free lines that stand outside every block, in order. */
  ghost function OutsideLines(lines: seq<string>, d: Delimiters): seq<string> {
    if lines == [] then []
    else
      var n := |lines| - 1;
      OutsideLines(lines[..n], d) +
        (if IsPlain(lines[n], d) && !InBlock(lines[..n], d) then [lines[n]] else [])
  }

  /** The delimiter-free lines that stand inside a block, in order. */
  ghost function InsideLines(lines: seq<string>, d: Delimiters): seq<string> {
    if lines == [] then []
    else
      var n := |lines| - 1;
      InsideLines(lines[..n], d) +
        (if IsPlain(lines[n], d) && InBlock(lines[..n], d) then [lines[n]] else [])
  }

  lemma InBlockSnoc(a: seq<string>, x: string, d: Delimiters)
    ensures InBlock(a + [x], d) <==> IsBegin(x, d) || (!IsEnd(x, d) && InBlock(a, d))
  {
    var lines := a + [x];
    var n := |a|;
    if InBlock(lines, d) {
      var i :| 0 <= i < |lines| && IsBegin(lines[i], d) &&
        forall k :: i < k < |lines| ==> !IsEnd(lines[k], d);
      if i < n {
        assert !IsEnd(lines[n], d);
        assert forall k :: i < k < |a| ==> lines[k] == a[k];
        assert InBlock(a, d);
      }
    }
    if IsBegin(x, d) {
      assert lines[n] == x;
    } else if !IsEnd(x, d) && InBlock(a, d) {
      var i :| 0 <= i < |a| && IsBegin(a[i], d) &&
        forall k :: i < k < |a| ==> !IsEnd(a[k], d);
      assert lines[i] == a[i];
      assert forall k :: i < k < |lines| ==> !IsEnd(lines[k], d);
    }
  }

  lemma HasNestedSnoc(a: seq<string>, x: string, d: Delimiters)
    ensures HasNested(a + [x], d) <==> HasNested(a, d) || (IsBegin(x, d) && InBlock(a, d))
  {
    var lines := a + [x];
    assert lines[..|a|] == a;
    assert forall j :: 0 <= j < |a| ==> lines[..j] == a[..j] && lines[j] == a[j];
    if HasNested(lines, d) {
      var j :| 0 <= j < |lines| && IsBegin(lines[j], d) && InBlock(lines[..j], d);
      if j < |a| {
        assert HasNested(a, d);
      }
    }
    if HasNested(a, d) {
      var j :| 0 <= j < |a| && IsBegin(a[j], d) && InBlock(a[..j], d);
      assert IsBegin(lines[j], d) && InBlock(lines[..j], d);
    }
  }

  lemma HasBeginSnoc(a: seq<string>, x: string, d: Delimiters)
    ensures HasBegin(a + [x], d) <==> HasBegin(a, d) || IsBegin(x, d)
  {
    var lines := a + [x];
    assert forall j :: 0 <= j < |a| ==> lines[j] == a[j];
    assert lines[|a|] == x;
  }

  lemma OutsideSnoc(a: seq<string>, x: string, d: Delimiters)
    ensures OutsideLines(a + [x], d) ==
      OutsideLines(a, d) + (if IsPlain(x, d) && !InBlock(a, d) then [x] else [])
  {
    assert (a + [x])[..|a|] == a;
  }

  lemma InsideSnoc(a: seq<string>, x: string, d: Delimiters)
    ensures InsideLines(a + [x], d) ==
      InsideLines(a, d) + (if IsPlain(x, d) && InBlock(a, d) then [x] else [])
  {
    assert (a + [x])[..|a|] == a;
  }

  /** The scanner state `st` after `lines`, read declaratively: the error
      flag is set exactly when a begin line met an open block; `removed_block`
      is set exactly when a begin line was seen; and, without the error,
      `in_block` says whether a block is open, the visible lines are the
      plain lines outside blocks and the appended lines are the plain lines
      inside blocks, each in their original order. */
  ghost predicate Describes(st: ScanState, lines: seq<string>, d: Delimiters) {
    (st.nested <==> HasNested(lines, d)) &&
    (st.removed <==> HasBegin(lines, d)) &&
    (!st.nested ==>
      (st.inBlock <==> InBlock(lines, d)) &&
      st.visible == OutsideLines(lines, d) &&
      st.hidden == InsideLines(lines, d))
  }

  /** One more line keeps the declarative reading of the state. */
  lemma StepDescribes(st: ScanState, a: seq<string>, x: string, d: Delimiters)
    requires Describes(st, a, d)
    ensures Describes(Step(st, x, d), a + [x], d)
  {
    InBlockSnoc(a, x, d);
    HasNestedSnoc(a, x, d);
    HasBeginSnoc(a, x, d);
    OutsideSnoc(a, x, d);
    InsideSnoc(a, x, d);
    if st.nested {
      var j :| 0 <= j < |a| && IsBegin(a[j], d) && InBlock(a[..j], d);
      assert HasBegin(a, d);
    } else if st.inBlock {
      var i :| 0 <= i < |a| && IsBegin(a[i], d) &&
        forall k :: i < k < |a| ==> !IsEnd(a[k], d);
      assert HasBegin(a, d);
    }
  }

  /** The scanner's state after any number of lines means what `Describes` says. */
  lemma {:induction false} ScanMeaning(lines: seq<string>, d: Delimiters)
    ensures Describes(Scan(Start, lines, d), lines, d)
    decreases |lines|
  {
    if lines == [] {
      assert OutsideLines(lines, d) == [] && InsideLines(lines, d) == [];
    } else {
      var n := |lines| - 1;
      var a, x := lines[..n], lines[n];
      assert lines == a + [x];
      ScanSnoc(Start, a, x, d);
      ScanMeaning(a, d);
      StepDescribes(Scan(Start, a, d), a, x, d);
    }
  }

  /** The nested-block error is raised exactly when a begin line is met
      inside an open block. */
  lemma ExtractNested(lines: seq<string>, d: Delimiters)
    ensures Extract(lines, d).outcome == Failed(NestedBeginBlock) <==> HasNested(lines, d)
  {
    ScanMeaning(lines, d);
  }

  /** The "No end hidden block" error is raised exactly when there is no
      nested begin and a block is still open after the last line. */
  lemma ExtractNoEnd(lines: seq<string>, d: Delimiters)
    ensures Extract(lines, d).outcome == Failed(NoEndBlock) <==>
      !HasNested(lines, d) && InBlock(lines, d)
  {
    ScanMeaning(lines, d);
  }

  /** Without the nested error the accumulator receives exactly the plain
      lines inside blocks; on success the visible lines are exactly the plain
      lines outside blocks, and `removed_block` holds exactly when some line
      held the begin delimiter. */
  lemma ExtractRoutes(lines: seq<string>, d: Delimiters)
    ensures !HasNested(lines, d) ==> Extract(lines, d).hidden == InsideLines(lines, d)
    ensures Extract(lines, d).outcome.Extracted? ==>
      Extract(lines, d).outcome.visible == OutsideLines(lines, d) &&
      (Extract(lines, d).outcome.removedBlock <==> HasBegin(lines, d))
  {
    ScanMeaning(lines, d);
  }

  /** Plain lines only extend the visible or the hidden lines, as the state says. */
  lemma {:induction false} ScanPlain(st: ScanState, lines: seq<string>, d: Delimiters)
    requires !st.nested
    requires forall k :: 0 <= k < |lines| ==> IsPlain(lines[k], d)
    ensures Scan(st, lines, d) ==
      if st.inBlock then st.(hidden := st.hidden + lines) else st.(visible := st.visible + lines)
    decreases |lines|
  {
    if lines != [] {
      ScanPlain(Step(st, lines[0], d), lines[1..], d);
      assert [lines[0]] + lines[1..] == lines;
    }
  }

  /** A cell without delimiters keeps every line visible and hides nothing. */
  lemma ExtractBlockFree(lines: seq<string>, d: Delimiters)
    requires forall k :: 0 <= k < |lines| ==> IsPlain(lines[k], d)
    ensures Extract(lines, d) == Extraction([], Extracted(lines, false))
  {
    ScanPlain(Start, lines, d);
    assert [] + lines == lines;
  }

  /** An end line while no block is open is dropped and changes nothing else. */
  lemma StrayEndDropped(a: seq<string>, e: string, b: seq<string>, d: Delimiters)
    requires IsEnd(e, d) && !InBlock(a, d)
    ensures Extract(a + [e] + b, d) == Extract(a + b, d)
  {
    ScanMeaning(a, d);
    ScanSnoc(Start, a, e, d);
    ScanAppend(Start, a + [e], b, d);
    ScanAppend(Start, a, b, d);
  }

  /** A line holding both delimiters opens a block rather than closing one:
      inside a block it is the nested error, otherwise the block it opens is
      still open at the end of the cell. */
  lemma BothDelimitersOpen(a: seq<string>, x: string, d: Delimiters)
    requires Contains(x, d.begin) && Contains(x, d.end)
    ensures Extract(a + [x], d).outcome ==
      if HasNested(a, d) || InBlock(a, d) then Failed(NestedBeginBlock) else Failed(NoEndBlock)
  {
    HasNestedSnoc(a, x, d);
    InBlockSnoc(a, x, d);
    ExtractNested(a + [x], d);
    ExtractNoEnd(a + [x], d);
  }

  /** A second begin line with no end line since the first always raises the
      nested error, whatever surrounds the two. */
  lemma NestedRaises(a: seq<string>, x: string, b: seq<string>, y: string, c: seq<string>, d: Delimiters)
    requires IsBegin(x, d) && IsBegin(y, d)
    requires forall k :: 0 <= k < |b| ==> !IsEnd(b[k], d)
    ensures Extract(a + [x] + b + [y] + c, d).outcome == Failed(NestedBeginBlock)
  {
    var lines := a + [x] + b + [y] + c;
    var j := |a| + 1 + |b|;
    var pre := lines[..j];
    assert pre == a + [x] + b;
    assert pre[|a|] == x;
    assert forall k :: |a| < k < |pre| ==> pre[k] == b[k - |a| - 1];
    assert InBlock(pre, d);
    assert lines[j] == y;
    ExtractNested(lines, d);
  }

  // ---------------------------------------------------------------------
  // Cells made of well-formed pieces.
  // ---------------------------------------------------------------------

  /** A piece of a cell: plain visible lines, or a hidden block with its
      begin line, its plain body and its end line. */
  datatype Segment = Shown(lines: seq<string>) | Hidden(open: string, body: seq<string>, close: string)

  predicate WellFormed(seg: Segment, d: Delimiters) {
    match seg
    case Shown(ls) => forall k :: 0 <= k < |ls| ==> IsPlain(ls[k], d)
    case Hidden(o, b, c) => IsBegin(o, d) && IsEnd(c, d) && forall k :: 0 <= k < |b| ==> IsPlain(b[k], d)
  }

  function SegmentLines(seg: Segment): seq<string> {
    match seg
    case Shown(ls) => ls
    case Hidden(o, b, c) => [o] + b + [c]
  }

  function Render(segs: seq<Segment>): seq<string> {
    if segs == [] then [] else SegmentLines(segs[0]) + Render(segs[1..])
  }

  function ShownLines(segs: seq<Segment>): seq<string> {
    if segs == [] then [] else (if segs[0].Shown? then segs[0].lines else []) + ShownLines(segs[1..])
  }

  function HiddenLines(segs: seq<Segment>): seq<string> {
    if segs == [] then [] else (if segs[0].Hidden? then segs[0].body else []) + HiddenLines(segs[1..])
  }

  predicate AnyHidden(segs: seq<Segment>) {
    segs != [] && (segs[0].Hidden? || AnyHidden(segs[1..]))
  }

  /** One well-formed piece, scanned outside a block, leaves the scanner
      outside a block, having kept its plain lines or handed over its body. */
  lemma ScanSegment(st: ScanState, seg: Segment, d: Delimiters)
    requires !st.nested && !st.inBlock
    requires WellFormed(seg, d)
    ensures Scan(st, SegmentLines(seg), d) == st.(
      visible := st.visible + (if seg.Shown? then seg.lines else []),
      hidden := st.hidden + (if seg.Hidden? then seg.body else []),
      removed := st.removed || seg.Hidden?)
  {
    match seg
    case Shown(ls) =>
      ScanPlain(st, ls, d);
      assert st.hidden + [] == st.hidden;
    case Hidden(o, b, c) =>
      ScanAppend(st, [o] + b, [c], d);
      ScanAppend(st, [o], b, d);
      var inside := Step(st, o, d);
      assert Scan(st, [o], d) == inside;
      ScanPlain(inside, b, d);
      assert Scan(inside, [c], d) == Step(inside, c, d);
      assert st.visible + [] == st.visible;
  }

  lemma ConcatAssoc(a: seq<string>, b: seq<string>, c: seq<string>)
    ensures (a + b) + c == a + (b + c)
  {
  }

  lemma {:induction false} ScanRender(st: ScanState, segs: seq<Segment>, d: Delimiters)
    requires !st.nested && !st.inBlock
    requires forall i :: 0 <= i < |segs| ==> WellFormed(segs[i], d)
    ensures Scan(st, Render(segs), d) ==
      ScanState(st.visible + ShownLines(segs), st.hidden + HiddenLines(segs), false,
        st.removed || AnyHidden(segs), false)
    decreases |segs|
  {
    if segs == [] {
      assert st.visible + [] == st.visible && st.hidden + [] == st.hidden;
    } else {
      var seg, rest := segs[0], segs[1..];
      assert Render(segs) == SegmentLines(seg) + Render(rest);
      ScanAppend(st, SegmentLines(seg), Render(rest), d);
      ScanSegment(st, seg, d);
      var sh := if seg.Shown? then seg.lines else [];
      var hd := if seg.Hidden? then seg.body else [];
      var mid := ScanState(st.visible + sh, st.hidden + hd, false, st.removed || seg.Hidden?, false);
      assert Scan(st, SegmentLines(seg), d) == mid;
      assert forall i :: 0 <= i < |rest| ==> rest[i] == segs[i + 1];
      ScanRender(mid, rest, d);
      assert ShownLines(segs) == sh + ShownLines(rest);
      assert HiddenLines(segs) == hd + HiddenLines(rest);
      assert AnyHidden(segs) == (seg.Hidden? || AnyHidden(rest));
      var v, h := st.visible + ShownLines(segs), st.hidden + HiddenLines(segs);
      ConcatAssoc(st.visible, sh, ShownLines(rest));
      ConcatAssoc(st.hidden, hd, HiddenLines(rest));
      var after := Scan(mid, Render(rest), d);
      assert after == ScanState(v, h, false, st.removed || AnyHidden(segs), false);
      assert Scan(st, Render(segs), d) == after;
    }
  }

  /** A cell built from visible runs and well-formed hidden blocks keeps
      exactly the visible runs, hands over exactly the block bodies, in
      order, and reports a removal exactly when it has a block. */
  lemma ExtractRender(segs: seq<Segment>, d: Delimiters)
    requires forall i :: 0 <= i < |segs| ==> WellFormed(segs[i], d)
    ensures Extract(Render(segs), d) ==
      Extraction(HiddenLines(segs), Extracted(ShownLines(segs), AnyHidden(segs)))
  {
    ScanRender(Start, segs, d);
    assert [] + ShownLines(segs) == ShownLines(segs);
    assert [] + HiddenLines(segs) == HiddenLines(segs);
  }
}
