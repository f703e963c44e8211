/**
 * The part of `System.Data.DataTable` the core uses: typed columns, rows of cells in column
 * order, and the extended properties an analyzer or table view attaches for later navigation.
 */
module DataTables {
  import opened Wrappers
  import opened Strings
  import opened TypeSystem

  /** The `DataType` of a column, as far as the Markdown export distinguishes them. */
  datatype ColumnType = StringType | Int16Type | Int32Type | Int64Type | OtherType

  datatype Column = Column(name: string, dataType: ColumnType)

  /**
   * A cell: every column the core creates holds an `int` or a `string`; a cell that a row
   * leaves out when it is added holds `DBNull`.
   */
  datatype Value = IntValue(i: int32) | StrValue(s: string) | NullValue

  /** A cell's `ToString ()`: an int in decimal, a string as it is, `DBNull` as the empty string. */
  function CellText(v: Value): string
  {
    match v
    case IntValue(i) => Decimal(i)
    case StrValue(s) => s
    case NullValue => ""
  }

  /** The analyzers whose tables carry an "Analyzer" property, by their class name. */
  datatype AnalyzerId = MethodUsesAnalyzer | PInvokeFinderAnalyzer

  /** The extended properties: "PE", "Metadata" (a table name), "Analyzer", "MetadataModule". */
  datatype Properties = Properties(pe: Option<PEFile>, metadata: Option<string>, analyzer: Option<AnalyzerId>,
                                   metadataModule: bool)

  const NoProperties := Properties(None, None, None, false)

  datatype Table = Table(columns: seq<Column>, rows: seq<seq<Value>>, properties: Properties)

  /** Every row has one cell per column. */
  predicate WellShaped(t: Table)
  {
    forall r :: 0 <= r < |t.rows| ==> |t.rows[r]| == |t.columns|
  }

  /** The names of the columns, in order. */
  function ColumnNames(cols: seq<Column>): (names: seq<string>)
    ensures |names| == |cols|
    ensures forall k :: 0 <= k < |cols| ==> names[k] == cols[k].name
  {
    if |cols| == 0 then [] else [cols[0].name] + ColumnNames(cols[1..])
  }
}
