/** The `Execute` preprocessor: it runs only the graded and solution cells,
    fills in a default kernel argument, and retries a failing run a bounded
    number of times. The execution engine is an oracle `engine(k)` giving
    whether the k-th call (counting from 0) succeeds; the cell predicates
    `is_grade` and `is_solution` are opaque parameters. */
module Execution {
  import opened Notebooks

  /** The kernel argument disabling IPython's on-disk history. */
  const HistoryInMemory := "--HistoryManager.hist_file=:memory:"

  /** `nb.metadata.get('kernelspec', {}).get('name', 'python')`. */
  function KernelName(metadata: map<string, map<string, string>>): (r: string)
    ensures ("kernelspec" !in metadata || "name" !in metadata["kernelspec"]) ==> r == "python"
    ensures "kernelspec" in metadata && "name" in metadata["kernelspec"] ==> r == metadata["kernelspec"]["name"]
  {
    if "kernelspec" in metadata && "name" in metadata["kernelspec"] then metadata["kernelspec"]["name"]
    else "python"
  }

  /** The `extra_arguments` used for a run: the history argument when none
      are configured and the kernel is "python", else the configured ones. */
  function DefaultExtraArguments(args: seq<string>, kernel: string): seq<string> {
    if args == [] && kernel == "python" then [HistoryInMemory] else args
  }

  /** A python kernel with no configured arguments gets the in-memory
      history argument; configured arguments, and the arguments of any other
      kernel (an empty list stays empty), are kept. Filling in the default
      twice is filling it in once, so a retry sees the same arguments as the
      first attempt. */
  lemma DefaultExtraArgumentsIdempotent(args: seq<string>, kernel: string)
    ensures DefaultExtraArguments(DefaultExtraArguments(args, kernel), kernel) ==
      DefaultExtraArguments(args, kernel)
    ensures args == [] && kernel == "python" ==> DefaultExtraArguments(args, kernel) == [HistoryInMemory]
    ensures kernel != "python" ==> DefaultExtraArguments(args, kernel) == args
    ensures args != [] ==> DefaultExtraArguments(args, kernel) == args
  {
  }

  /** The cells with `is_grade(cell) or is_solution(cell)`, in their order. */
  function Select(cells: seq<Cell>, isGrade: Cell -> bool, isSolution: Cell -> bool): seq<Cell> {
    if cells == [] then []
    else
      var n := |cells| - 1;
      Select(cells[..n], isGrade, isSolution) +
        (if isGrade(cells[n]) || isSolution(cells[n]) then [cells[n]] else [])
  }

  /** The positions of the selected cells, in increasing order. */
  function SelectedPositions(cells: seq<Cell>, isGrade: Cell -> bool, isSolution: Cell -> bool): seq<nat> {
    if cells == [] then []
    else
      var n := |cells| - 1;
      SelectedPositions(cells[..n], isGrade, isSolution) +
        (if isGrade(cells[n]) || isSolution(cells[n]) then [n] else [])
  }

  /** The subset is exactly the graded or solution cells, in their original
      relative order: there are strictly increasing positions covering every
      such cell, and nothing else, whose cells form the subset. */
  lemma {:induction false} SelectExactly(cells: seq<Cell>, isGrade: Cell -> bool, isSolution: Cell -> bool)
    ensures var sel := Select(cells, isGrade, isSolution);
      var pos := SelectedPositions(cells, isGrade, isSolution);
      |pos| == |sel| &&
      (forall m :: 0 <= m < |pos| ==> pos[m] < |cells| && sel[m] == cells[pos[m]]) &&
      (forall m, m' :: 0 <= m < m' < |pos| ==> pos[m] < pos[m']) &&
      (forall i :: 0 <= i < |cells| ==> (i in pos <==> isGrade(cells[i]) || isSolution(cells[i])))
  {
    if cells != [] {
      var n := |cells| - 1;
      SelectExactly(cells[..n], isGrade, isSolution);
      assert forall i :: 0 <= i < n ==> cells[..n][i] == cells[i];
    }
  }

  /** Selecting from the subset changes nothing: every retry runs the same cells. */
  lemma {:induction false} SelectIdempotent(cells: seq<Cell>, isGrade: Cell -> bool, isSolution: Cell -> bool)
    ensures Select(Select(cells, isGrade, isSolution), isGrade, isSolution) == Select(cells, isGrade, isSolution)
  {
    if cells != [] {
      var n := |cells| - 1;
      var prev := Select(cells[..n], isGrade, isSolution);
      SelectIdempotent(cells[..n], isGrade, isSolution);
      if isGrade(cells[n]) || isSolution(cells[n]) {
        var sel := prev + [cells[n]];
        assert sel[..|sel| - 1] == prev;
        assert Select(sel, isGrade, isSolution) == Select(prev, isGrade, isSolution) + [cells[n]];
      } else {
        assert Select(cells, isGrade, isSolution) == prev + [] == prev;
      }
    }
  }

  /** The subset is the whole cell list exactly when every cell is graded or
      a solution; otherwise restoring the subset loses cells. */
  lemma {:induction false} SelectKeepsAll(cells: seq<Cell>, isGrade: Cell -> bool, isSolution: Cell -> bool)
    ensures Select(cells, isGrade, isSolution) == cells <==>
      forall i :: 0 <= i < |cells| ==> isGrade(cells[i]) || isSolution(cells[i])
  {
    SelectShorter(cells, isGrade, isSolution);
    if cells != [] {
      var n := |cells| - 1;
      SelectKeepsAll(cells[..n], isGrade, isSolution);
      SelectShorter(cells[..n], isGrade, isSolution);
      assert cells[..n] + [cells[n]] == cells;
      assert forall i :: 0 <= i < n ==> cells[..n][i] == cells[i];
      var prev := Select(cells[..n], isGrade, isSolution);
      if isGrade(cells[n]) || isSolution(cells[n]) {
        if prev + [cells[n]] == cells {
          assert prev == cells[..n];
        }
      }
    }
  }

  lemma {:induction false} SelectShorter(cells: seq<Cell>, isGrade: Cell -> bool, isSolution: Cell -> bool)
    ensures |Select(cells, isGrade, isSolution)| <= |cells|
  {
    if cells != [] {
      SelectShorter(cells[..|cells| - 1], isGrade, isSolution);
    }
  }

  /** The loop that builds `autograde_cells`. */
  method AutogradeCells(cells: seq<Cell>, isGrade: Cell -> bool, isSolution: Cell -> bool)
    returns (autograde: seq<Cell>)
    ensures autograde == Select(cells, isGrade, isSolution)
  {
    autograde := [];
    for i := 0 to |cells|
      invariant autograde == Select(cells[..i], isGrade, isSolution)
    {
      assert cells[..i + 1][..i] == cells[..i];
      if isGrade(cells[i]) || isSolution(cells[i]) {
        autograde := autograde + [cells[i]];
      }
    }
    assert cells[..|cells|] == cells;
  }

  /** The retry budget: the `retries` argument, or `execute_retries` when it is None. */
  function RetryBudget(retries: Option<nat>, executeRetries: nat): nat {
    match retries
    case Some(n) => n
    case None => executeRetries
  }

  datatype Option<T> = None | Some(value: T)

  /** The first attempt among 0..budget that the engine lets succeed. */
  function FirstSuccess(engine: nat -> bool, budget: nat): (r: Option<nat>)
    ensures r.Some? ==> r.value <= budget && engine(r.value) && forall j :: 0 <= j < r.value ==> !engine(j)
    ensures r.None? ==> forall j :: 0 <= j <= budget ==> !engine(j)
  {
    if budget == 0 then (if engine(0) then Some(0) else None)
    else
      match FirstSuccess(engine, budget - 1)
      case Some(k) => Some(k)
      case None => if engine(budget) then Some(budget) else None
  }

  /** An engine that fails `k` times and then succeeds: with a budget of at
      least `k` the run succeeds on call `k + 1`; with less, every one of the
      `budget + 1` calls fails. */
  lemma FailThenSucceed(engine: nat -> bool, k: nat, budget: nat)
    requires forall j :: 0 <= j < k ==> !engine(j)
    requires engine(k)
    ensures budget >= k ==> FirstSuccess(engine, budget) == Some(k)
    ensures budget < k ==> FirstSuccess(engine, budget) == None
  {
  }

  datatype ExecOutcome = Executed | UnresponsiveKernel

  class Execute {
    /** `extra_arguments`. */
    var extraArguments: seq<string>
    /** `execute_retries`. */
    const executeRetries: nat

    /** The configuration defaults are no extra arguments and no retries. */
    constructor (extraArguments: seq<string> := [], executeRetries: nat := 0)
      ensures this.extraArguments == extraArguments && this.executeRetries == executeRetries
    {
      this.extraArguments := extraArguments;
      this.executeRetries := executeRetries;
    }

    /** `preprocess(nb, resources, retries)`, its recursion on `retries - 1`
        written as a loop. Each attempt selects the cells, snapshots
        `nb.cells`, swaps in the subset, fills in the default arguments and
        calls the engine; a success restores that attempt's snapshot, a
        failure with no retries left raises `UnresponsiveKernelError`.
        `calls` counts the engine calls. */
    method Preprocess(nb: Notebook, retries: Option<nat>, isGrade: Cell -> bool, isSolution: Cell -> bool,
                      engine: nat -> bool)
      returns (outcome: ExecOutcome, calls: nat)
      modifies this, nb
      ensures var budget := RetryBudget(retries, executeRetries);
        match FirstSuccess(engine, budget)
        case Some(k) => outcome == Executed && calls == k + 1
        case None => outcome == UnresponsiveKernel && calls == budget + 1
      ensures nb.cells ==
        if outcome == Executed && calls == 1 then old(nb.cells)
        else Select(old(nb.cells), isGrade, isSolution)
      ensures nb.metadata == old(nb.metadata)
      ensures extraArguments == DefaultExtraArguments(old(extraArguments), KernelName(nb.metadata))
    {
      var budget := RetryBudget(retries, executeRetries);
      ghost var cells0 := nb.cells;
      ghost var args0 := extraArguments;
      ghost var subset := Select(cells0, isGrade, isSolution);
      var kernel := KernelName(nb.metadata);
      SelectIdempotent(cells0, isGrade, isSolution);
      DefaultExtraArgumentsIdempotent(args0, kernel);
      var remaining := budget;
      calls := 0;
      while true
        invariant calls + remaining == budget
        invariant forall j :: 0 <= j < calls ==> !engine(j)
        invariant nb.cells == if calls == 0 then cells0 else subset
        invariant nb.metadata == old(nb.metadata)
        invariant kernel == KernelName(nb.metadata)
        invariant extraArguments == if calls == 0 then args0 else DefaultExtraArguments(args0, kernel)
        decreases remaining
      {
        var autograde := AutogradeCells(nb.cells, isGrade, isSolution);
        var oldCells := nb.cells;
        nb.cells := autograde;
        kernel := KernelName(nb.metadata);
        if extraArguments == [] && kernel == "python" {
          extraArguments := [HistoryInMemory];
        }
        var ok := engine(calls);
        calls := calls + 1;
        if ok {
          nb.cells := oldCells;
          outcome := Executed;
          return;
        }
        if remaining == 0 {
          outcome := UnresponsiveKernel;
          return;
        }
        remaining := remaining - 1;
      }
    }

    /** `preprocess` with the snapshot taken once, before the first attempt,
        and restored after whichever attempt succeeds: every successful run
        leaves the full original cell list. */
    method PreprocessRestoring(nb: Notebook, retries: Option<nat>, isGrade: Cell -> bool, isSolution: Cell -> bool,
                               engine: nat -> bool)
      returns (outcome: ExecOutcome, calls: nat)
      modifies this, nb
      ensures var budget := RetryBudget(retries, executeRetries);
        match FirstSuccess(engine, budget)
        case Some(k) => outcome == Executed && calls == k + 1
        case None => outcome == UnresponsiveKernel && calls == budget + 1
      ensures nb.cells ==
        if outcome == Executed then old(nb.cells) else Select(old(nb.cells), isGrade, isSolution)
      ensures nb.metadata == old(nb.metadata)
      ensures extraArguments == DefaultExtraArguments(old(extraArguments), KernelName(nb.metadata))
    {
      var budget := RetryBudget(retries, executeRetries);
      ghost var args0 := extraArguments;
      var original := nb.cells;
      var kernel := KernelName(nb.metadata);
      DefaultExtraArgumentsIdempotent(args0, kernel);
      var remaining := budget;
      calls := 0;
      while true
        invariant calls + remaining == budget
        invariant forall j :: 0 <= j < calls ==> !engine(j)
        invariant nb.cells == if calls == 0 then original else Select(original, isGrade, isSolution)
        invariant nb.metadata == old(nb.metadata)
        invariant kernel == KernelName(nb.metadata)
        invariant extraArguments == if calls == 0 then args0 else DefaultExtraArguments(args0, kernel)
        decreases remaining
      {
        var autograde := AutogradeCells(original, isGrade, isSolution);
        nb.cells := autograde;
        if extraArguments == [] && kernel == "python" {
          extraArguments := [HistoryInMemory];
        }
        var ok := engine(calls);
        calls := calls + 1;
        if ok {
          nb.cells := original;
          outcome := Executed;
          return;
        }
        if remaining == 0 {
          outcome := UnresponsiveKernel;
          return;
        }
        remaining := remaining - 1;
      }
    }
  }
}

/** A graded code cell followed by an ungraded markdown cell, run with one
    retry by an engine that fails once and then succeeds. */
module RetryScenario {
  import opened Notebooks
  import opened Execution

  const Graded := Cell(Code, "x = 1", map["grade" := "true"])
  const Prose := Cell(Markdown, "Notes", map[])

  function IsGrade(c: Cell): bool { "grade" in c.metadata }
  function NeverSolution(c: Cell): bool { false }
  function FailsOnce(k: nat): bool { k >= 1 }

  /** As written, the successful second attempt restores its own snapshot,
      which is already the graded subset: the markdown cell is gone. */
  method RetryDropsCells() returns (outcome: ExecOutcome, calls: nat, cells: seq<Cell>)
    ensures outcome == Executed && calls == 2
    ensures cells == [Graded]
  {
    var nb := new Notebook([Graded, Prose], map[]);
    var ex := new Execute([], 1);
    assert FirstSuccess(FailsOnce, 1) == Some(1);
    assert Select([Graded, Prose][..1], IsGrade, NeverSolution) == [Graded] by {
      assert [Graded, Prose][..1][..0] == [];
    }
    outcome, calls := ex.Preprocess(nb, None, IsGrade, NeverSolution, FailsOnce);
    cells := nb.cells;
  }

  /** With the snapshot taken once, the same run keeps both cells. */
  method RetryKeepsCells() returns (outcome: ExecOutcome, calls: nat, cells: seq<Cell>)
    ensures outcome == Executed && calls == 2
    ensures cells == [Graded, Prose]
  {
    var nb := new Notebook([Graded, Prose], map[]);
    var ex := new Execute([], 1);
    assert FirstSuccess(FailsOnce, 1) == Some(1);
    outcome, calls := ex.PreprocessRestoring(nb, None, IsGrade, NeverSolution, FailsOnce);
    cells := nb.cells;
  }

  /** With the default configuration there is no retry: an engine that fails
      once makes the first call the last, and the run raises. */
  method DefaultRunDoesNotRetry() returns (outcome: ExecOutcome, calls: nat)
    ensures outcome == UnresponsiveKernel && calls == 1
  {
    var nb := new Notebook([Graded, Prose], map[]);
    var ex := new Execute();
    assert FirstSuccess(FailsOnce, 0) == None;
    outcome, calls := ex.Preprocess(nb, None, IsGrade, NeverSolution, FailsOnce);
  }
}
