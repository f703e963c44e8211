/** The column style that shows an `int` cell as a hex token (ColumnStyles.cs). */
module ColumnStyles {
  import opened HexFormat
  import opened TypeSystem
  import opened DataTables

  /**
   * `IntHex8`: an int as "0x" and the eight hex digits of its 32-bit pattern; any other value as its
   * `ToString ()`. The analyzers register it on their Token column, and it changes only what the
   * terminal draws: the Markdown export writes the cell itself, an int in decimal (`CellText`).
   */
  function IntHex8(v: Value): string
  {
    match v
    case IntValue(i) => "0x" + Hex(ToUInt32(i), 8)
    case _ => CellText(v)
  }

  /**
   * An int always shows as ten characters, "0x" and eight hex digits that read back to the
   * int's two's-complement pattern, so a negative int shows with a leading digit of 8 or more.
   */
  lemma IntHex8Spec(i: int32)
    ensures |IntHex8(IntValue(i))| == 10
    ensures IntHex8(IntValue(i))[..2] == "0x"
    ensures forall k :: 2 <= k < 10 ==> IsHexChar(IntHex8(IntValue(i))[k])
    ensures ParseHex(IntHex8(IntValue(i))[2..]) == ToUInt32(i)
    ensures ToInt32(ParseHex(IntHex8(IntValue(i))[2..])) == i
    ensures i < 0 <==> ParseHex(IntHex8(IntValue(i))[2..]) >= 0x8000_0000
  {
    var s := IntHex8(IntValue(i));
    assert s[2..] == Hex(ToUInt32(i), 8);
    HexDigits(ToUInt32(i), 8);
    assert Pow16(8) == 0x1_0000_0000;
    ParseHexOfHex(ToUInt32(i), 8);
  }
}

/**
 * Exporting a table view as Markdown (ExportableTableView.cs) and the analyzer view on top of it
 * (Analyzers/AnalyzerView.cs): a title block, the table, a footer; and the cell that Ctrl+D
 * hands to the documentation search.
 */
module TableViews {
  import opened Wrappers
  import opened Strings
  import opened TextLines
  import opened TypeSystem
  import opened DataTables
  import MethodUses
  import PInvokeFinder
  import TreeNodes
  import TreeViewHelpers

  /** A `TextWriter`: what has been written so far. */
  class Writer {
    var text: string

    constructor ()
      ensures text == ""
    {
      text := "";
    }

    method Write(s: string)
      modifies this
      ensures text == old(text) + s
    {
      text := text + s;
    }

    /** `WriteLine` ends the line with "\n". */
    method WriteLine(s: string)
      modifies this
      ensures text == old(text) + s + "\n"
    {
      text := text + s + "\n";
    }
  }

  // ---------------------------------------------------------------------------------------
  // Lines and Markdown table rows

  /** Each part written as "| part ". */
  function Cells(parts: seq<string>): string
  {
    if |parts| == 0 then "" else Cells(parts[..|parts| - 1]) + "| " + parts[|parts| - 1] + " "
  }

  /** A Markdown table row: each part as "| part ", then the closing "|". */
  function Line(parts: seq<string>): string
  {
    Cells(parts) + "|"
  }

  /** The cells of a table row between the bars: each part with a space on either side. */
  function Padded(parts: seq<string>): (r: seq<string>)
    ensures |r| == |parts|
  {
    seq(|parts|, i requires 0 <= i < |parts| => " " + parts[i] + " ")
  }

  /** A cell written after some cells is the text of the longer list. */
  lemma WroteCell(start: string, parts: seq<string>, i: nat)
    requires i < |parts|
    ensures start + Cells(parts[..i]) + ("| " + parts[i] + " ") == start + Cells(parts[..i + 1])
  {
    assert parts[..i + 1][..i] == parts[..i];
  }

  lemma {:induction false} CellsJoin(parts: seq<string>)
    ensures Cells(parts) == Join([""] + Padded(parts), "|")
  {
    if |parts| > 0 {
      var init := parts[..|parts| - 1];
      var x := parts[|parts| - 1];
      CellsJoin(init);
      assert Padded(parts) == Padded(init) + [" " + x + " "];
      assert [""] + Padded(parts) == ([""] + Padded(init)) + [" " + x + " "];
      JoinSnoc([""] + Padded(init), " " + x + " ", "|");
    } else {
      assert [""] + Padded(parts) == [""];
    }
  }

  /**
   * Splitting a table row at its bars gives an empty piece before the first bar, each part with
   * its two spaces, and an empty piece after the last bar.
   */
  lemma LineSplit(parts: seq<string>)
    requires forall k :: 0 <= k < |parts| ==> '|' !in parts[k]
    ensures Split(Line(parts), '|') == [""] + Padded(parts) + [""]
  {
    CellsJoin(parts);
    JoinSnoc([""] + Padded(parts), "", "|");
    var pieces := [""] + Padded(parts) + [""];
    assert Line(parts) == Join(pieces, "|");
    forall k | 0 <= k < |pieces|
      ensures '|' !in pieces[k]
    {
      if 1 <= k <= |parts| {
        assert pieces[k] == " " + parts[k - 1] + " ";
      }
    }
    SplitJoin(pieces, '|');
  }

  /** A table row holds no line break when its parts hold none. */
  lemma {:induction false} LineNoBreak(parts: seq<string>)
    requires forall k :: 0 <= k < |parts| ==> '\n' !in parts[k]
    ensures '\n' !in Line(parts)
  {
    CellsJoin(parts);
    var pieces := [""] + Padded(parts);
    forall k | 0 <= k < |pieces|
      ensures '\n' !in pieces[k]
    {
      if 1 <= k {
        assert pieces[k] == " " + parts[k - 1] + " ";
      }
    }
    JoinNoChar(pieces, "|", '\n');
  }

  // ---------------------------------------------------------------------------------------
  // ExportableTableView.ExportMarkdown

  /** The alignment marker of a column by its data type: strings left, integers right, the rest centred. */
  function AlignMarker(t: ColumnType): string
  {
    match t
    case StringType => ":----"
    case Int16Type => "----:"
    case Int32Type => "----:"
    case Int64Type => "----:"
    case OtherType => ":---:"
  }

  function AlignMarkers(cols: seq<Column>): (r: seq<string>)
    ensures |r| == |cols|
  {
    seq(|cols|, i requires 0 <= i < |cols| => AlignMarker(cols[i].dataType))
  }

  /** A row's cell in column `i`; a row with fewer cells holds `DBNull` in the rest. */
  function CellAt(row: seq<Value>, i: nat): Value
  {
    if i < |row| then row[i] else NullValue
  }

  function RowTexts(row: seq<Value>, width: nat): (r: seq<string>)
    ensures |r| == width
  {
    seq(width, i requires 0 <= i < width => CellText(CellAt(row, i)))
  }

  /** The lines of the export: the header, the alignment row, one line per data row. */
  function MarkdownLines(t: Table): (ls: seq<string>)
    ensures |ls| == 2 + |t.rows|
  {
    [Line(ColumnNames(t.columns)), Line(AlignMarkers(t.columns))]
      + seq(|t.rows|, k requires 0 <= k < |t.rows| => Line(RowTexts(t.rows[k], |t.columns|)))
  }

  function TableMarkdown(t: Table): string
  {
    Lines(MarkdownLines(t))
  }

  /** No column name and no cell text holds a line break. */
  predicate NoBreaks(t: Table)
  {
    && (forall i :: 0 <= i < |t.columns| ==> '\n' !in t.columns[i].name)
    && (forall k, i :: 0 <= k < |t.rows| && 0 <= i < |t.columns| ==> '\n' !in CellText(CellAt(t.rows[k], i)))
  }

  /**
   * The export has 2 + rows lines: the header names every column in order, the alignment row
   * gives one marker per column by its type, and data row `k` gives the text of each of its cells.
   */
  lemma MarkdownSpec(t: Table)
    requires NoBreaks(t)
    ensures Split(TableMarkdown(t), '\n') == MarkdownLines(t) + [""]
    ensures |Split(TableMarkdown(t), '\n')| == 3 + |t.rows|
  {
    MarkdownNoBreaks(t);
    LinesSplit(MarkdownLines(t));
  }

  lemma MarkdownNoBreaks(t: Table)
    requires NoBreaks(t)
    ensures Unbroken(MarkdownLines(t))
  {
    var ls := MarkdownLines(t);
    LineNoBreak(ColumnNames(t.columns));
    var markers := AlignMarkers(t.columns);
    forall i | 0 <= i < |markers| ensures '\n' !in markers[i] {
      assert markers[i] == AlignMarker(t.columns[i].dataType);
    }
    LineNoBreak(markers);
    forall k | 2 <= k < |ls| ensures '\n' !in ls[k] {
      RowNoBreaks(t, k - 2);
    }
  }

  lemma RowNoBreaks(t: Table, k: nat)
    requires NoBreaks(t) && k < |t.rows|
    ensures '\n' !in MarkdownLines(t)[2 + k]
  {
    var texts := RowTexts(t.rows[k], |t.columns|);
    forall i | 0 <= i < |texts| ensures '\n' !in texts[i] {
      assert texts[i] == CellText(CellAt(t.rows[k], i));
    }
    LineNoBreak(texts);
  }

  /** The header row splits at its bars into the column names, in order. */
  lemma HeaderSpec(t: Table)
    requires forall i :: 0 <= i < |t.columns| ==> '|' !in t.columns[i].name
    ensures
      var pieces := Split(MarkdownLines(t)[0], '|');
      && |pieces| == |t.columns| + 2
      && forall i :: 0 <= i < |t.columns| ==> pieces[i + 1] == " " + t.columns[i].name + " "
  {
    LineSplit(ColumnNames(t.columns));
  }

  /** The alignment row gives each column its marker: left for strings, right for 16-, 32- and 64-bit integers, centred otherwise. */
  lemma AlignSpec(t: Table)
    ensures
      var pieces := Split(MarkdownLines(t)[1], '|');
      && |pieces| == |t.columns| + 2
      && forall i :: 0 <= i < |t.columns| ==>
           pieces[i + 1] == (match t.columns[i].dataType
                             case StringType => " :---- "
                             case OtherType => " :---: "
                             case _ => " ----: ")
  {
    var markers := AlignMarkers(t.columns);
    forall i | 0 <= i < |markers| ensures '|' !in markers[i] {
      assert markers[i] == AlignMarker(t.columns[i].dataType);
    }
    LineSplit(markers);
  }

  /** A row's text in column `i` when the text holds no bar; a row line always has one cell per column. */
  lemma RowSpec(t: Table, k: nat)
    requires k < |t.rows|
    requires forall i :: 0 <= i < |t.columns| ==> '|' !in CellText(CellAt(t.rows[k], i))
    ensures
      var pieces := Split(MarkdownLines(t)[2 + k], '|');
      && |pieces| == |t.columns| + 2
      && forall i :: 0 <= i < |t.columns| ==> pieces[i + 1] == " " + CellText(CellAt(t.rows[k], i)) + " "
  {
    var texts := RowTexts(t.rows[k], |t.columns|);
    forall i | 0 <= i < |texts| ensures '|' !in texts[i] {
      assert texts[i] == CellText(CellAt(t.rows[k], i));
    }
    LineSplit(texts);
  }

  class ExportableTableView {
    var table: Table
    var title: Option<string>
    var selectedRow: int

    constructor (t: Table)
      ensures table == t && title == None && selectedRow == 0
    {
      table := t;
      title := None;
      selectedRow := 0;
    }

    /** Writes the header, the alignment row and each data row, column by column. */
    method ExportMarkdown(writer: Writer)
      modifies writer
      ensures writer.text == old(writer.text) + TableMarkdown(table)
    {
      var t := table;
      var start := writer.text;
      ghost var lines := MarkdownLines(t);
      assert lines[..0] == [];
      WriteHeader(writer, t.columns);
      WroteNextLine(start, lines, 0);
      WriteAlignment(writer, t.columns);
      WroteNextLine(start, lines, 1);
      for k := 0 to |t.rows|
        invariant writer.text == start + Lines(lines[..2 + k])
      {
        WriteRow(writer, t.rows[k], |t.columns|);
        WroteNextLine(start, lines, 2 + k);
      }
      assert lines[..2 + |t.rows|] == lines;
    }
  }

  /** The header line: each column's name. */
  method WriteHeader(writer: Writer, columns: seq<Column>)
    modifies writer
    ensures writer.text == old(writer.text) + Line(ColumnNames(columns)) + "\n"
  {
    var start := writer.text;
    ghost var names := ColumnNames(columns);
    for i := 0 to |columns|
      invariant writer.text == start + Cells(names[..i])
    {
      writer.Write("| " + columns[i].name + " ");
      WroteCell(start, names, i);
    }
    assert names[..|columns|] == names;
    writer.WriteLine("|");
  }

  /** The alignment line: each column's marker by its data type. */
  method WriteAlignment(writer: Writer, columns: seq<Column>)
    modifies writer
    ensures writer.text == old(writer.text) + Line(AlignMarkers(columns)) + "\n"
  {
    var start := writer.text;
    ghost var markers := AlignMarkers(columns);
    for i := 0 to |columns|
      invariant writer.text == start + Cells(markers[..i])
    {
      MarkerCell(columns[i].dataType);
      match columns[i].dataType {
        case StringType => writer.Write("| :---- ");
        case Int16Type => writer.Write("| ----: ");
        case Int32Type => writer.Write("| ----: ");
        case Int64Type => writer.Write("| ----: ");
        case OtherType => writer.Write("| :---: ");
      }
      WroteCell(start, markers, i);
    }
    assert markers[..|columns|] == markers;
    writer.WriteLine("|");
  }

  /** The cell each alignment marker takes in the row. */
  lemma MarkerCell(t: ColumnType)
    ensures "| " + AlignMarker(t) + " " == (match t
                                             case StringType => "| :---- "
                                             case OtherType => "| :---: "
                                             case _ => "| ----: ")
  {
  }

  /** A data line: the text of each of the row's cells, one per column. */
  method WriteRow(writer: Writer, row: seq<Value>, width: nat)
    modifies writer
    ensures writer.text == old(writer.text) + Line(RowTexts(row, width)) + "\n"
  {
    var start := writer.text;
    ghost var texts := RowTexts(row, width);
    for i := 0 to width
      invariant writer.text == start + Cells(texts[..i])
    {
      writer.Write("| " + CellText(CellAt(row, i)) + " ");
      WroteCell(start, texts, i);
    }
    assert texts[..width] == texts;
    writer.WriteLine("|");
  }

  // ---------------------------------------------------------------------------------------
  // AnalyzerView

  /** The class name of each analyzer (`analyzer.GetType ().Name`). */
  function AnalyzerName(a: AnalyzerId): string
  {
    match a
    case MethodUsesAnalyzer => "MethodUses"
    case PInvokeFinderAnalyzer => "PInvokeFinder"
  }

  /** "Generated by [Cilurbo](https://github.com/spouliot/cilurbo)", a Markdown link to the project. */
  const Footer := "Generated by " + "[Cilurbo]" + "(https://github.com/spouliot/cilurbo)"

  /** The title block: the analyzer's name as a heading, then the assembly and its location when the table records a module. */
  function TitleLines(a: AnalyzerId, pe: Option<PEFile>): seq<string>
  {
    match pe
    case Some(f) => ["# " + AnalyzerName(a), "", "Assembly: " + f.fullName, "", "Location: " + f.fileName, "", ""]
    case None => ["# " + AnalyzerName(a), "", ""]
  }

  /** `AnalyzerView.ExportMarkdown` as text: nothing unless the table names its analyzer. */
  function AnalyzerMarkdown(t: Table): string
  {
    match t.properties.analyzer
    case None => ""
    case Some(a) => Lines(AnalyzerLines(a, t))
  }

  /** The title block, the table's lines, a blank line and the footer. */
  function AnalyzerLines(a: AnalyzerId, t: Table): seq<string>
  {
    TitleLines(a, t.properties.pe) + MarkdownLines(t) + ["", Footer]
  }

  /**
   * The lines of an analyzer export: the heading "# " and the analyzer's name, a blank line, the
   * Assembly and Location lines (each followed by a blank line) only when the table records a
   * module, one more blank line, the table's own lines, a blank line and the footer.
   */
  lemma AnalyzerLinesShape(a: AnalyzerId, t: Table)
    ensures
      var ls := AnalyzerLines(a, t);
      var h := if t.properties.pe.Some? then 7 else 3;
      && |ls| == h + |t.rows| + 4
      && ls[0] == "# " + AnalyzerName(a) && ls[1] == ""
      && (t.properties.pe.Some? ==>
            ls[2] == "Assembly: " + t.properties.pe.value.fullName && ls[3] == ""
            && ls[4] == "Location: " + t.properties.pe.value.fileName && ls[5] == "")
      && ls[h - 1] == ""
      && ls[h..h + 2 + |t.rows|] == MarkdownLines(t)
      && ls[h + 2 + |t.rows|] == "" && ls[h + 3 + |t.rows|] == Footer
  {
    var title := TitleLines(a, t.properties.pe);
    var ls := AnalyzerLines(a, t);
    assert ls[|title|..|title| + 2 + |t.rows|] == MarkdownLines(t);
  }

  /**
   * Read line by line, an analyzer export is exactly its lines (the title block, the table's
   * lines, a blank line and the footer), each ended by a line break; `AnalyzerLinesShape`
   * says what those lines are.
   */
  lemma AnalyzerMarkdownSpec(t: Table)
    requires t.properties.analyzer.Some? && NoBreaks(t)
    requires t.properties.pe.Some? ==> '\n' !in t.properties.pe.value.fullName && '\n' !in t.properties.pe.value.fileName
    ensures Split(AnalyzerMarkdown(t), '\n') == AnalyzerLines(t.properties.analyzer.value, t) + [""]
  {
    var a := t.properties.analyzer.value;
    var title := TitleLines(a, t.properties.pe);
    var table := MarkdownLines(t);
    MarkdownNoBreaks(t);
    TitleNoBreaks(a, t.properties.pe);
    FooterNoBreak();
    assert Unbroken(["", Footer]);
    UnbrokenAppend(title, table);
    UnbrokenAppend(title + table, ["", Footer]);
    LinesSplit(AnalyzerLines(a, t));
  }

  lemma TitleNoBreaks(a: AnalyzerId, pe: Option<PEFile>)
    requires pe.Some? ==> '\n' !in pe.value.fullName && '\n' !in pe.value.fileName
    ensures Unbroken(TitleLines(a, pe))
  {
    HeadingNoBreak(a);
    match pe {
      case Some(f) =>
        NoBreakJoin("Assembly: ", f.fullName);
        NoBreakJoin("Location: ", f.fileName);
      case None =>
    }
  }

  lemma HeadingNoBreak(a: AnalyzerId)
    ensures '\n' !in "# " + AnalyzerName(a)
  {
    match a {
      case MethodUsesAnalyzer => assert "# " + AnalyzerName(a) == "# MethodUses";
      case PInvokeFinderAnalyzer => assert "# " + AnalyzerName(a) == "# PInvokeFinder";
    }
  }

  lemma FooterNoBreak()
    ensures '\n' !in Footer
  {
    assert '\n' !in "Generated by " && '\n' !in "[Cilurbo]" && '\n' !in "(https://github.com/spouliot/cilurbo)";
  }

  class AnalyzerView {
    /** The view it extends. */
    const base: ExportableTableView

    constructor (t: Table)
      ensures fresh(base) && base.table == t && base.title == None && base.selectedRow == 0
    {
      base := new ExportableTableView(t);
    }

    /** The title block, the table as the base view writes it, and the footer; the title becomes the analyzer's name. */
    method ExportMarkdown(writer: Writer)
      modifies base, writer
      ensures writer.text == old(writer.text) + AnalyzerMarkdown(base.table)
      ensures base.table == old(base.table) && base.selectedRow == old(base.selectedRow)
      ensures base.title == (match base.table.properties.analyzer
                             case Some(a) => Some(AnalyzerName(a))
                             case None => old(base.title))
    {
      var t := base.table;
      match t.properties.analyzer {
        case None =>
        case Some(a) =>
          base.title := Some(AnalyzerName(a));
          WriteAnalysis(writer, base, a);
      }
    }
  }

  /** The title block, the table as the view writes it, a blank line and the footer. */
  method WriteAnalysis(writer: Writer, view: ExportableTableView, a: AnalyzerId)
    modifies writer
    ensures writer.text == old(writer.text) + Lines(AnalyzerLines(a, view.table))
  {
    var t := view.table;
    var start := writer.text;
    ghost var title := TitleLines(a, t.properties.pe);
    ghost var all := title + MarkdownLines(t);
    WriteTitle(writer, a, t.properties.pe);
    view.ExportMarkdown(writer);
    WroteLines(start, title, MarkdownLines(t));
    writer.WriteLine("");
    WroteLine(start, all, "");
    writer.WriteLine(Footer);
    WroteLine(start, all + [""], Footer);
    SnocPair(all, "", Footer);
  }

  /** The heading, the module's assembly name and location when there is one, and a blank line. */
  method WriteTitle(writer: Writer, a: AnalyzerId, pe: Option<PEFile>)
    modifies writer
    ensures writer.text == old(writer.text) + Lines(TitleLines(a, pe))
  {
    var start := writer.text;
    ghost var ls := TitleLines(a, pe);
    assert writer.text == start + Lines(ls[..0]);
    WriteListed(writer, "# " + AnalyzerName(a), start, ls, 0);
    WriteListed(writer, "", start, ls, 1);
    ghost var n := 2;
    match pe {
      case Some(f) =>
        WriteListed(writer, "Assembly: " + f.fullName, start, ls, 2);
        WriteListed(writer, "", start, ls, 3);
        WriteListed(writer, "Location: " + f.fileName, start, ls, 4);
        WriteListed(writer, "", start, ls, 5);
        n := 6;
      case None =>
    }
    WriteListed(writer, "", start, ls, n);
    WroteAll(start, ls, n + 1);
  }

  /** `WriteLine (s)` where `s` is line `n` of the lines `ls` being written after `start`. */
  method WriteListed(writer: Writer, s: string, ghost start: string, ghost ls: seq<string>, ghost n: nat)
    modifies writer
    requires n < |ls| && ls[n] == s && writer.text == start + Lines(ls[..n])
    ensures writer.text == start + Lines(ls[..n + 1])
  {
    writer.WriteLine(s);
    WroteNextLine(start, ls, n);
  }

  // ---------------------------------------------------------------------------------------
  // Ctrl+D: the symbol handed to the documentation search

  /** The searched symbol, a `null` one (the cell is not a string), or an exception. */
  datatype DashQuery = Search(symbol: string) | NullSymbol | Throws

  function SearchColumn(a: AnalyzerId): nat
  {
    match a
    case MethodUsesAnalyzer => MethodUses.ExternallySearchableColumn
    case PInvokeFinderAnalyzer => PInvokeFinder.ExternallySearchableColumn
  }

  /**
   * The selected row's cell in the analyzer's searchable column, as a string. Without an
   * "Analyzer" property, with no row selected, or with the column missing, the lookup throws.
   */
  function DashSymbol(t: Table, selectedRow: int): (q: DashQuery)
    ensures q.Search? ==> t.properties.analyzer.Some? && 0 <= selectedRow < |t.rows|
    ensures q.Search? ==> CellAt(t.rows[selectedRow], SearchColumn(t.properties.analyzer.value)) == StrValue(q.symbol)
  {
    match t.properties.analyzer
    case None => Throws
    case Some(a) =>
      var column := SearchColumn(a);
      if !(0 <= selectedRow < |t.rows|) || column >= |t.columns| then Throws
      else
        match CellAt(t.rows[selectedRow], column)
        case StrValue(s) => Search(s)
        case _ => NullSymbol
  }

  /** On a MethodUses table, Ctrl+D searches for the full name of the entity the selected row lists. */
  lemma DashOnUses(pe: PEFile, u: seq<MethodUses.Use>, k: nat)
    requires MethodUses.TokensFit(u) && k < |u|
    ensures DashSymbol(Table(MethodUses.Schema, MethodUses.Rows(u), MethodUses.UsesProperties(pe)), k) == Search(u[k].entity.fullName)
  {
    assert MethodUses.Rows(u)[k] == MethodUses.UseRow(k, u[k]);
  }

  /** On a PInvokeFinder table, Ctrl+D searches for the imported entry point's name of the selected row. */
  lemma DashOnFinds(forest: seq<TreeNodes.Node>, path: TreeViewHelpers.Path, k: nat)
    requires TreeViewHelpers.NodeAt(forest, path).Some? && PInvokeFinder.Target(forest, path).Some?
    requires k < |PInvokeFinder.Finds(PInvokeFinder.Target(forest, path).value.0, PInvokeFinder.Target(forest, path).value.1)|
    ensures
      var (pe, mr) := PInvokeFinder.Target(forest, path).value;
      && DashSymbol(PInvokeFinder.FinderTable(forest, path), k) == Search(PInvokeFinder.Finds(pe, mr)[k].imported.importName)
      && DashSymbol(PInvokeFinder.ReferenceTable(forest, path), k) == Search(PInvokeFinder.Finds(pe, mr)[k].imported.importName)
  {
    var (pe, mr) := PInvokeFinder.Target(forest, path).value;
    var fs := PInvokeFinder.Finds(pe, mr);
    var props := PInvokeFinder.FinderProperties(pe);
    assert PInvokeFinder.FinderTable(forest, path) == Table(PInvokeFinder.FinderSchema, PInvokeFinder.FoundRows(PInvokeFinder.TokenColumn, fs), props);
    assert PInvokeFinder.ReferenceTable(forest, path) == Table(PInvokeFinder.ReferenceSchema, PInvokeFinder.FoundRows(PInvokeFinder.RidColumn, fs), props);
    DashOnFoundRows(PInvokeFinder.FinderSchema, PInvokeFinder.TokenColumn, pe, fs, k);
    DashOnFoundRows(PInvokeFinder.ReferenceSchema, PInvokeFinder.RidColumn, pe, fs, k);
  }

  /** On a finder table of either layout over the finds `fs`, Ctrl+D searches for the `k`th find's entry point. */
  lemma DashOnFoundRows(schema: seq<Column>, layout: PInvokeFinder.Layout, pe: PEFile, fs: seq<PInvokeFinder.Found>, k: nat)
    requires |schema| == 4 && k < |fs|
    ensures DashSymbol(Table(schema, PInvokeFinder.FoundRows(layout, fs), PInvokeFinder.FinderProperties(pe)), k)
      == Search(fs[k].imported.importName)
  {
    assert PInvokeFinder.FoundRows(layout, fs)[k] == PInvokeFinder.FoundRow(layout, k, fs[k]);
  }
}
