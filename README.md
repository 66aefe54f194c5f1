# nbgrader hidden-block compilation and retrying execution, in Dafny

This project models two nbgrader preprocessors and proves properties of the model.

**`CompileTestFunctions`** scans every cell of a notebook for hidden blocks. A hidden block is a run of lines between a line holding the begin delimiter (default `BEGIN HIDDEN BLOCK`) and a line holding the end delimiter (default `END HIDDEN BLOCK`). The preprocessor:

- moves the lines inside hidden blocks out of the cells into one accumulator;
- rejects a nested begin and a block that is never closed;
- records the first code cell;
- when anything was hidden, starts a build of the hidden code as a native test module, and prepends `from tests.<notebook> import *` to the recorded cell.

The helper that the generated `setup.py` uses to drop the platform tag from the compiled file name is modelled too.

**`Execute`** runs a notebook with only its graded and solution cells. It fills in the default kernel argument, retries an engine failure up to a retry budget, and raises `UnresponsiveKernelError` once the budget is spent.

Files:

- `py_strings.dfy` (`PyStrings`): the Python `str` operations the code relies on. These are `in`, `find`, `split("\n")`, `"\n".join`, `replace(pat, "")` and POSIX `os.path.splitext`, written out on `seq<char>` with their properties.
- `notebooks.dfy` (`Notebooks`): cells as values (type, source, metadata) and a `Notebook` class whose `cells` the preprocessors reassign.
- `hidden_blocks.dfy` (`HiddenBlocks`): the line scanner as a pure left fold (`Scan`). It comes with a declarative reading of that fold:
  - which lines are inside a block;
  - when the nested error fires;
  - which lines stay visible.

  It also proves a segment view: a cell built from visible runs and well-formed blocks keeps exactly the runs and hands over exactly the block bodies.
- `setup_template.dfy` (`SetupTemplate`): `get_ext_filename_without_platform_suffix`.
- `compile_test_functions.dfy` (`CompileTests`): the preprocessor as a class. Its methods follow the Python methods, loops included, and each is proved against the pure specification (`Extract`, `ScanCells`, `FirstCodeIndex`, `WithImport`).
- `scenario.dfy` (`ParseTestFuncs`): the notebook of the repository's `test_parse_test_funcs`, run through the whole preprocessor.
- `execute.dfy` (`Execution`, `RetryScenario`): the retrying executor as a class whose recursion is a bounded loop. It also holds the corrected variant and the concrete runs described under Findings.

Boundaries of the model:

- The execution engine is a parameter `engine: nat -> bool`, telling whether the k-th engine call, counting from 0, succeeds.
- `is_grade` and `is_solution` are parameters.
- The file system work and the Cython build are an opaque `BuildRequest(assignment, notebook, source)` appended to a `builds` log.
- `EXT_SUFFIX` is a parameter.

In these points the model follows the code exactly:

- The notebook id goes into the import line and the build request verbatim; it is not normalised.
- On success the executor restores a deep copy of the cells taken before the run, so the run's outputs never reach the returned cells; the model states this but cannot exhibit it (see Left out).
- After a retry, the restored copy is the graded subset (see Findings).
- The scanner processes every cell, whatever its type.
- With no code cell, the import goes into `nb.cells[-1]`, the last cell, which may be a markdown cell.

## Model

| member | source | states |
|---|---|---|
| PyStrings.Find | nbgrader/preprocessors/compiletestfunctions.py:28 | `find` gives -1 exactly when the pattern occurs nowhere; otherwise it gives an occurrence with none earlier |
| PyStrings.Split | nbgrader/preprocessors/compiletestfunctions.py:64 | `split("\n")` gives at least one piece, and no piece holds a newline |
| PyStrings.JoinSplit | nbgrader/preprocessors/compiletestfunctions.py:64-92 | joining the split lines with newlines gives the source back, so a cell without blocks keeps its text |
| PyStrings.SplitJoin | nbgrader/preprocessors/compiletestfunctions.py:92 | splitting the join of newline-free lines gives those lines back |
| PyStrings.Join | nbgrader/preprocessors/compiletestfunctions.py:92 | `"\n".join`; JoinSplit and SplitJoin make it the inverse of Split |
| PyStrings.Contains | nbgrader/preprocessors/compiletestfunctions.py:71-80 | the `in` test for the delimiters: true exactly when Find finds an occurrence |
| PyStrings.SplitLineThen | nbgrader/preprocessors/compiletestfunctions.py:138 | a newline-free line put before a newline becomes its own first piece, ahead of the old pieces |
| PyStrings.RemoveAll | nbgrader/preprocessors/compiletestfunctions.py:27 | `replace(ext, '')` never lengthens the text, and an empty pattern leaves it unchanged |
| PyStrings.RemoveAllShortens | nbgrader/preprocessors/compiletestfunctions.py:27 | removing a non-empty pattern leaves the text unchanged exactly when the pattern does not occur in it |
| PyStrings.SplitExt | nbgrader/preprocessors/compiletestfunctions.py:21 | `splitext` cuts the name into stem and extension; the extension is empty or one dot followed by no dot and no slash |
| HiddenBlocks.ScanMeaning | nbgrader/preprocessors/compiletestfunctions.py:63-94 | the fold over the lines has the declarative meaning. Inside a block means after a begin line with no end line since. The nested error is a begin line inside a block. The visible lines are the plain lines outside blocks and the hidden lines are those inside them, each in order |
| HiddenBlocks.Step | nbgrader/preprocessors/compiletestfunctions.py:71-87 | one pass of the line loop; what it does to each variable is given by StepDescribes and ScanMeaning |
| HiddenBlocks.Scan | nbgrader/preprocessors/compiletestfunctions.py:70-87 | the line loop as a left fold; its meaning is ScanMeaning, and ProcessHiddenBlocks is proved equal to it |
| HiddenBlocks.Extract | nbgrader/preprocessors/compiletestfunctions.py:63-94 | the lines `_process_hidden_blocks` hands to the accumulator and its result or error; its meaning is ExtractNested, ExtractNoEnd and ExtractRoutes |
| HiddenBlocks.ExtractNested | nbgrader/preprocessors/compiletestfunctions.py:71-75 | the scan raises the nested-block error exactly when some begin line comes while a block is open |
| HiddenBlocks.ExtractNoEnd | nbgrader/preprocessors/compiletestfunctions.py:89-90 | the scan raises the missing-end error exactly when there is no nested error and a block is still open after the last line |
| HiddenBlocks.ExtractRoutes | nbgrader/preprocessors/compiletestfunctions.py:70-94 | without a nested error, the hidden lines are the in-block plain lines. On success the kept lines are the out-of-block plain lines, and `removed_block` holds exactly when a begin line was seen |
| HiddenBlocks.ExtractBlockFree | nbgrader/preprocessors/compiletestfunctions.py:64-94 | lines holding neither delimiter are all kept, nothing is hidden and no removal is reported |
| HiddenBlocks.StrayEndDropped | nbgrader/preprocessors/compiletestfunctions.py:80-81 | an end line outside any block is dropped without other effect: the scan is as if it were absent |
| HiddenBlocks.BothDelimitersOpen | nbgrader/preprocessors/compiletestfunctions.py:71-81 | a last line holding both delimiters opens a block, because begin is tested first: inside a block it is the nested error, otherwise the missing-end error |
| HiddenBlocks.NestedRaises | nbgrader/preprocessors/compiletestfunctions.py:71-75 | two begin lines with no end line between them raise the nested-block error, whatever surrounds them |
| HiddenBlocks.ExtractRender | nbgrader/preprocessors/compiletestfunctions.py:63-94 | a cell made of visible runs and well-formed blocks keeps exactly the runs and hides exactly the block bodies, in order. It reports a removal exactly when it has a block |
| SetupTemplate.ExtFilenameWithoutPlatformSuffix | nbgrader/preprocessors/compiletestfunctions.py:20-33 | the file name is returned unchanged when `EXT_SUFFIX` equals the extension or the platform tag does not occur in the stem |
| SetupTemplate.PlatformTag | nbgrader/preprocessors/compiletestfunctions.py:27 | `EXT_SUFFIX` with the extension removed; RemoveAllShortens says when that changes it |
| SetupTemplate.CutsStemAtFirstTag | nbgrader/preprocessors/compiletestfunctions.py:27-33 | the result is always a prefix of the stem plus the extension. When `EXT_SUFFIX` is not the extension and the tag occurs in the stem, the result is `name[:idx] + ext` for the first occurrence `idx`; a shortened stem happens only then |
| SetupTemplate.StripsPlatformTag | nbgrader/preprocessors/compiletestfunctions.py:20-39 | `<stem><tag><ext>`, built for an `EXT_SUFFIX` of `<tag><ext>`, becomes `<stem><ext>` |
| CompileTests.CellResult | nbgrader/preprocessors/compiletestfunctions.py:63-94 | the rewritten cell and `removed_block`, or the raised error; CellWithoutDelimiters and ScanCellsMeaning give its meaning |
| CompileTests.CellWithoutDelimiters | nbgrader/preprocessors/compiletestfunctions.py:63-94 | a cell without delimiters is left as it is and adds nothing to the accumulator |
| CompileTests.ScanCells | nbgrader/preprocessors/compiletestfunctions.py:100 | a completed pass rewrites every cell, and a stopped pass rewrote fewer cells than there are |
| CompileTests.ScanCell | nbgrader/preprocessors/compiletestfunctions.py:144-152 | one more cell adds one rewritten cell or stops the pass, and a stopped pass stays stopped |
| CompileTests.ScanCellsMeaning | nbgrader/preprocessors/compiletestfunctions.py:100 | each cell before the stop is replaced by its own rewrite, and the pass stops at the first cell whose scan raises, with that cell's error |
| CompileTests.NotebookWithoutDelimiters | nbgrader/preprocessors/compiletestfunctions.py:96-105 | a notebook without delimiters passes through unchanged with an empty accumulator, so nothing is built |
| CompileTests.FirstCodeIndex | nbgrader/preprocessors/compiletestfunctions.py:146-147 | the recorded index is a code cell with no code cell before it, or -1 when there is none |
| CompileTests.FirstCodeIndexStable | nbgrader/preprocessors/compiletestfunctions.py:146 | once a code cell has been recorded, later cells do not change the index |
| CompileTests.PyIndex | nbgrader/preprocessors/compiletestfunctions.py:137 | Python's position for a possibly negative index; ImportTarget states where it lands |
| CompileTests.ImportLine | nbgrader/preprocessors/compiletestfunctions.py:138 | the import line `from tests.<notebook> import *`; ImportLineFirst shows it becomes the cell's first line |
| CompileTests.ImportTarget | nbgrader/preprocessors/compiletestfunctions.py:137 | the import goes to the first code cell, or to the last cell (Python's index -1) when no cell is code |
| CompileTests.WithImport | nbgrader/preprocessors/compiletestfunctions.py:137-138 | prepending the import changes the target cell and no other |
| CompileTests.ImportLineFirst | nbgrader/preprocessors/compiletestfunctions.py:138 | the import becomes the target cell's first line, ahead of all of its old lines, and the cell keeps its type and metadata |
| CompileTests.CompileTestFunctions.constructor | nbgrader/preprocessors/compiletestfunctions.py:49-61 | a new preprocessor has the configured delimiters, an empty accumulator and no builds |
| CompileTests.CompileTestFunctions.ProcessHiddenBlocks | nbgrader/preprocessors/compiletestfunctions.py:63-94 | the loop appends exactly the specified hidden lines to the accumulator (also before raising), and returns the specified rewritten cell and flag or the specified error |
| CompileTests.CompileTestFunctions.PreprocessCell | nbgrader/preprocessors/compiletestfunctions.py:144-152 | records the index of the first code cell only, then strips the cell's blocks |
| CompileTests.CompileTestFunctions.PreprocessCells | nbgrader/preprocessors/compiletestfunctions.py:100 | the inherited cell loop stores each rewritten cell back in order. On an error it keeps the later cells untouched and the lines appended so far, and returns the error |
| CompileTests.CompileTestFunctions.Preprocess | nbgrader/preprocessors/compiletestfunctions.py:96-142 | resets the index and the accumulator first. On an error nothing is built. Otherwise it sets the ids, and exactly when lines were hidden it logs one build of their join and prepends the import to the first code cell (or the last cell) |
| ParseTestFuncs.OneBlockNotebook | nbgrader/tests/preprocessors/test_compiletestfunctions.py:64-87 | a one-cell notebook of one block followed by visible lines keeps the visible lines and hands over the block body |
| ParseTestFuncs.RunOneBlockNotebook | nbgrader/tests/preprocessors/test_compiletestfunctions.py:64-97 | the whole preprocessor on such a notebook builds the block body once, and leaves the import as the first line followed by the visible lines |
| ParseTestFuncs.RunParseTestFuncs | nbgrader/tests/preprocessors/test_compiletestfunctions.py:64-97 | on the test's notebook and resources, the hidden `test_bar` goes to a build of `ps1/problem1`, and the first line is `from tests.problem1 import *` |
| Execution.KernelName | nbgrader/preprocessors/execute.py:49 | the kernel name is the kernelspec's `name`, defaulting to "python" when the section or the key is missing |
| Execution.DefaultExtraArgumentsIdempotent | nbgrader/preprocessors/execute.py:19-25 | an empty argument list for a python kernel becomes `[--HistoryManager.hist_file=:memory:]`; any other kernel keeps its list (an empty one stays empty), and an explicit list is kept. Filling in the default twice equals filling it in once |
| Execution.Select | nbgrader/preprocessors/execute.py:40-42 | the graded and solution cells in order; its meaning is SelectExactly, and AutogradeCells is proved equal to it |
| Execution.DefaultExtraArguments | nbgrader/preprocessors/execute.py:51-52 | the arguments of a run; DefaultExtraArgumentsIdempotent states each case |
| Execution.SelectExactly | nbgrader/preprocessors/execute.py:40-42 | the subset is exactly the graded or solution cells, picked at strictly increasing positions |
| Execution.SelectIdempotent | nbgrader/preprocessors/execute.py:40-47 | filtering the subset again changes nothing, so every retry runs the same cells |
| Execution.SelectKeepsAll | nbgrader/preprocessors/execute.py:46-47 | the subset is the whole cell list exactly when every cell is graded or a solution |
| Execution.AutogradeCells | nbgrader/preprocessors/execute.py:36-42 | the loop builds exactly the specified subset |
| Execution.RetryBudget | nbgrader/preprocessors/execute.py:54-55 | `retries`, or `execute_retries` when it is None; Execute.Preprocess counts its calls against it |
| Execution.FirstSuccess | nbgrader/preprocessors/execute.py:57-64 | the first engine call within the budget that succeeds, with every earlier call failing, or none when all `budget + 1` calls fail |
| Execution.FailThenSucceed | nbgrader/preprocessors/execute.py:57-64 | an engine that fails `k` times and then succeeds makes a run with budget at least `k` succeed on call `k + 1`, and a run with less fail after `budget + 1` calls |
| Execution.Execute.constructor | nbgrader/preprocessors/execute.py:19-33 | a new executor holds the configured `extra_arguments` and `execute_retries`, which default to no arguments and 0 retries |
| Execution.Execute.Preprocess | nbgrader/preprocessors/execute.py:35-68 | the budget is `retries`, or `execute_retries` when that is None. When some call within the budget succeeds, the run returns after `k + 1` engine calls, where `k` is the 0-based index of the first successful call; otherwise it raises after `budget + 1` calls. The cells end as the original list only when the first call succeeds, else as the subset. The metadata is kept and the default argument is filled in |
| Execution.Execute.PreprocessRestoring | nbgrader/preprocessors/execute.py:46-66 | the corrected restore: every successful run, retried or not, ends with the full original cell list |
| RetryScenario.RetryDropsCells | nbgrader/preprocessors/execute.py:46-66 | a graded cell and a markdown cell, run with one retry by an engine that fails once, end as the graded cell alone |
| RetryScenario.DefaultRunDoesNotRetry | nbgrader/preprocessors/execute.py:27-33 | with the default `execute_retries` of 0, an engine that fails once makes the run raise after exactly one call |
| RetryScenario.RetryKeepsCells | nbgrader/preprocessors/execute.py:46-66 | the same run under the corrected restore keeps both cells |

## Left out

- The file system and the build (compiletestfunctions.py:106-134, 140): creating `release/<assignment>/tests`, writing `__init__.py`, the module and `setup.py`, running the Cython build, the cleanup and the working-directory changes. They appear only as one `BuildRequest` per build; build failures are not modelled.
- The template text of `setup.py` (compiletestfunctions.py:9-46): only the file-name helper inside it is modelled.
- `SetupTemplate.ExtFilenameWithoutPlatformSuffix`: does not model `EXT_SUFFIX` being None, because the helper has no branch for it.
- `SetupTemplate.ExtFilenameWithoutPlatformSuffix`: `splitext` is POSIX only; Windows drive letters and backslashes are not modelled.
- Logging (`self.log.info`, `self.log.warning`): no observable effect on the model's state.
- The traitlets configuration machinery: delimiters, `extra_arguments` and `execute_retries` are plain constructor arguments.
- The missing-key errors when `resources` lacks `nbgrader.assignment` or `nbgrader.notebook`: resources always hold both ids.
- The class-level default `hidden_block_lines = []`, shared by all instances: `preprocess` replaces it with a fresh list before use, so only that fresh accumulator is modelled.
- The `removed_block` result: `preprocess_cell` ignores it. `PreprocessCell` returns it, but nothing else uses it.
- The object identity of cells: cells are values, so in-place edits of a cell object held elsewhere and surviving deep-copy aliasing are not modelled.
- The engine's internals: kernel start-up, timeouts, per-cell outputs and the classification of `RuntimeError`s. Each attempt is one boolean from `engine`.
- The engine's changes to the executed cells: the engine is a yes/no oracle, so the model cannot show that the restored deep copy (execute.py:46, 66) drops a run's outputs, even after a first-attempt success. Only the cell lists are modelled.
- The engine's writes to the notebook metadata (such as `language_info`): `Execution.Execute.Preprocess` keeps `nb.metadata` only because the oracle cannot touch it.
- The `is_grade` and `is_solution` predicates: they are parameters.
- `Execution.Execute.Preprocess`: does not model a negative `retries` or `execute_retries`. In Python a negative budget retries without end (until the recursion limit), because only 0 stops it; the budget here is a `nat`.
- The Python recursion limit on many retries: the recursion is a loop.
- `nbgrader/email.py`: not part of this model.

## Findings

| source | as written | input that shows it | evidently intended | confidence | as-written member | corrected member |
|---|---|---|---|---|---|---|
| nbgrader/preprocessors/execute.py:46-47,64,66 | each attempt snapshots `nb.cells`, which on a retry is already the graded subset, and restores that snapshot on success | cells [graded code cell, ungraded markdown cell], `execute_retries` 1, engine fails once then succeeds: the notebook ends with the graded cell alone | a successful run restores the notebook's full original cell list whether or not it was retried | medium, not executed | RetryScenario.RetryDropsCells | Execution.Execute.PreprocessRestoring |
