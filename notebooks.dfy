/** The parts of an nbformat notebook that the two preprocessors touch. */
module Notebooks {

  datatype CellType = Code | Markdown | Raw

  /** A cell is a value: `metadata` stands for the nbgrader cell metadata,
      which only the grade/solution predicates look at. */
  datatype Cell = Cell(cellType: CellType, source: string, metadata: map<string, string>)

  /** `resources['nbgrader']['assignment']` and `resources['nbgrader']['notebook']`. */
  datatype Resources = Resources(assignment: string, notebook: string)

  /** A notebook whose cell list the preprocessors reassign in place.
      `metadata` maps a top-level metadata key (such as "kernelspec") to
      that section's string entries. */
  class Notebook {
    var cells: seq<Cell>
    var metadata: map<string, map<string, string>>

    constructor (cells: seq<Cell>, metadata: map<string, map<string, string>>)
      ensures this.cells == cells && this.metadata == metadata
    {
      this.cells := cells;
      this.metadata := metadata;
    }
  }
}
