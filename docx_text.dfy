/** `WordProcessor.process_docx`: the text and metadata of a `.docx` document.
    The library's parsed document is taken as plain data: the text of every
    paragraph, the text of every cell of every row of every table, and the
    number of sections. */
module DocxText {
  import opened Wrappers
  import opened PyText
  import opened Content

  /** The text of each cell of a table row. */
  type Row = seq<string>

  type Table = seq<Row>

  datatype Document = Document(paragraphs: seq<string>, tables: seq<Table>, sectionCount: nat)

  /** What opening the file with the document library gives: the parsed document,
      or the message of the exception it raised. */
  datatype Parsed = Parsed(doc: Document) | Unreadable(cause: string)

  /** Separates the kept paragraphs, the paragraph text from the tables, and
      the table blocks from each other. */
  const BlankLine := "\n\n"
  const CellSeparator := " | "
  const RowSeparator := "\n"

  /** The paragraphs kept in `paragraphs`: those whose stripped text is not empty,
      in document order and unstripped. */
  function KeptParagraphs(ps: seq<string>): (r: seq<string>)
    ensures |r| <= |ps|
    ensures forall i :: 0 <= i < |r| ==> Trim(r[i]) != []
  {
    if ps == [] then []
    else
      var p := ps[|ps| - 1];
      var rest := KeptParagraphs(ps[..|ps| - 1]);
      if Trim(p) != [] then rest + [p] else rest
  }

  /** The entries of `row_text`: the stripped text of each cell that is not blank. */
  function RowCells(row: Row): (r: seq<string>)
    ensures |r| <= |row|
    ensures forall i :: 0 <= i < |r| ==> r[i] != [] && Trim(r[i]) == r[i]
      {
    if row == [] then []
    else
      var c := row[|row| - 1];
      var rest := RowCells(row[..|row| - 1]);
      TrimIdempotent(c);
      if Trim(c) != [] then rest + [Trim(c)] else rest
  }

  /** The entries of `table_text`: one line per row that has a non-blank cell,
      its cells joined by " | ". */
  function TableLines(table: Table): (r: seq<string>)
    ensures |r| <= |table|
    ensures forall i :: 0 <= i < |r| ==> r[i] != []
  {
    if table == [] then []
    else
      var cells := RowCells(table[|table| - 1]);
      var rest := TableLines(table[..|table| - 1]);
      if cells != [] then rest + [Join(CellSeparator, cells)] else rest
  }

  /** The entries of `table_texts`: one block per table that has a non-empty row,
      its lines joined by "\n". */
  function TableTexts(tables: seq<Table>): (r: seq<string>)
    ensures |r| <= |tables|
    ensures forall i :: 0 <= i < |r| ==> r[i] != []
  {
    if tables == [] then []
    else
      var lines := TableLines(tables[|tables| - 1]);
      var rest := TableTexts(tables[..|tables| - 1]);
      if lines != [] then rest + [Join(RowSeparator, lines)] else rest
  }

  /** `full_text`: the kept paragraphs joined by a blank line, then, when some
      table rendered to text, a blank line and the tables joined by blank lines. */
  function FullText(doc: Document): string {
    var paragraphText := Join(BlankLine, KeptParagraphs(doc.paragraphs));
    var tables := TableTexts(doc.tables);
    if tables == [] then paragraphText
    else paragraphText + BlankLine + Join(BlankLine, tables)
  }

  /** The metadata dict. Its page count is the number of sections, under the key
      "page count" (with a space); `has_tables` and `paragraph_count` look at
      every table and every paragraph, blank or not. */
  function DocxMetadata(doc: Document, fileSize: nat): Metadata {
    map[
      "page count" := IntValue(doc.sectionCount),
      "has_tables" := BoolValue(|doc.tables| > 0),
      "paragraph_count" := IntValue(|doc.paragraphs|),
      "file_size" := IntValue(fileSize)
    ]
  }

  /** The message of the exception `process_docx` raises when the document
      library fails. */
  function DocxError(cause: string): string {
    "Error processing Word document: " + cause
  }

  /** The innermost loop of `process_docx`: the stripped text of each non-blank
      cell of one row, in order. */
  method CollectRowText(row: Row) returns (rowText: seq<string>)
    ensures rowText == RowCells(row)
  {
    rowText := [];
    for c := 0 to |row|
      invariant rowText == RowCells(row[..c])
    {
      var cell := row[c];
      assert row[..c + 1][..c] == row[..c];
      if Trim(cell) != [] {
        rowText := rowText + [Trim(cell)];
      }
    }
    assert row[..|row|] == row;
  }

  /** `process_docx`: the nested loops that collect paragraphs, row texts and
      table texts, then the concatenation and the metadata. */
  method ProcessDocx(parsed: Parsed, fileSize: nat) returns (r: Result<Extraction>)
    ensures parsed.Unreadable? ==> r == Err(DocxError(parsed.cause))
    ensures parsed.Parsed? ==>
      r == Ok(Extraction(FullText(parsed.doc), DocxMetadata(parsed.doc, fileSize)))
  {
    if parsed.Unreadable? {
      return Err(DocxError(parsed.cause));
    }
    var doc := parsed.doc;

    var paragraphs: seq<string> := [];
    for i := 0 to |doc.paragraphs|
      invariant paragraphs == KeptParagraphs(doc.paragraphs[..i])
    {
      var para := doc.paragraphs[i];
      assert doc.paragraphs[..i + 1][..i] == doc.paragraphs[..i];
      if Trim(para) != [] {
        paragraphs := paragraphs + [para];
      }
    }
    assert doc.paragraphs[..|doc.paragraphs|] == doc.paragraphs;

    var tableTexts: seq<string> := [];
    for t := 0 to |doc.tables|
      invariant tableTexts == TableTexts(doc.tables[..t])
    {
      var table := doc.tables[t];
      var tableText: seq<string> := [];
      for k := 0 to |table|
        invariant tableText == TableLines(table[..k])
      {
        var rowText := CollectRowText(table[k]);
        assert table[..k + 1][..k] == table[..k];
        if rowText != [] {
          tableText := tableText + [Join(CellSeparator, rowText)];
        }
      }
      assert table[..|table|] == table;
      assert doc.tables[..t + 1][..t] == doc.tables[..t];
      if tableText != [] {
        tableTexts := tableTexts + [Join(RowSeparator, tableText)];
      }
    }
    assert doc.tables[..|doc.tables|] == doc.tables;

    var fullText := Join(BlankLine, paragraphs);
    if tableTexts != [] {
      fullText := fullText + BlankLine + Join(BlankLine, tableTexts);
    }
    r := Ok(Extraction(fullText, DocxMetadata(doc, fileSize)));
  }

  // ---------------------------------------------------------------------------
  // What the assembled text means

  /** Every string of `ps` is blank. */
  ghost predicate AllBlank(ps: seq<string>) {
    forall i :: 0 <= i < |ps| ==> IsBlank(ps[i])
  }

  /** Every cell of every row of `table` is blank. */
  ghost predicate BlankTable(table: Table) {
    forall k :: 0 <= k < |table| ==> AllBlank(table[k])
  }

  /** Filtering paragraphs commutes with concatenation: the kept paragraphs stay
      in document order, and each paragraph is judged on its own. */
  lemma {:induction false} KeptParagraphsAppend(a: seq<string>, b: seq<string>)
    ensures KeptParagraphs(a + b) == KeptParagraphs(a) + KeptParagraphs(b)
  {
    if b != [] {
      var init := b[..|b| - 1];
      assert (a + b)[..|a + b| - 1] == a + init;
      KeptParagraphsAppend(a, init);
    } else {
      assert a + b == a;
    }
  }

  /** A paragraph appears in the output list exactly when it is one of the
      document's paragraphs and its stripped text is not empty. */
  lemma {:induction false} KeptParagraphsMember(ps: seq<string>, p: string)
    ensures p in KeptParagraphs(ps) <==> p in ps && !IsBlank(p)
  {
    TrimEmptyIffBlank(p);
    if ps != [] {
      var init := ps[..|ps| - 1];
      KeptParagraphsMember(init, p);
      assert ps == init + [ps[|ps| - 1]];
      TrimEmptyIffBlank(ps[|ps| - 1]);
    }
  }

  /** No paragraph text survives exactly when every paragraph is blank. */
  lemma {:induction false} KeptParagraphsEmptyIff(ps: seq<string>)
    ensures KeptParagraphs(ps) == [] <==> AllBlank(ps)
  {
    if ps != [] {
      var init := ps[..|ps| - 1];
      KeptParagraphsEmptyIff(init);
      TrimEmptyIffBlank(ps[|ps| - 1]);
      if AllBlank(ps) {
        assert AllBlank(init);
      }
    }
  }

  /** A row contributes no cell text exactly when all its cells are blank. */
  lemma {:induction false} RowCellsEmptyIff(row: Row)
    ensures RowCells(row) == [] <==> AllBlank(row)
  {
    if row != [] {
      var init := row[..|row| - 1];
      RowCellsEmptyIff(init);
      TrimEmptyIffBlank(row[|row| - 1]);
      if AllBlank(row) {
        assert AllBlank(init);
      }
    }
  }

  /** A table renders no line exactly when all its cells are blank. */
  lemma {:induction false} TableLinesEmptyIff(table: Table)
    ensures TableLines(table) == [] <==> BlankTable(table)
  {
    if table != [] {
      var init := table[..|table| - 1];
      TableLinesEmptyIff(init);
      RowCellsEmptyIff(table[|table| - 1]);
      if BlankTable(table) {
        assert BlankTable(init);
      }
    }
  }

  /** Cells are judged one by one and keep their order in the row. */
  lemma {:induction false} RowCellsAppend(a: Row, b: Row)
    ensures RowCells(a + b) == RowCells(a) + RowCells(b)
  {
    if b != [] {
      var init := b[..|b| - 1];
      assert (a + b)[..|a + b| - 1] == a + init;
      RowCellsAppend(a, init);
    } else {
      assert a + b == a;
    }
  }

  /** A single cell contributes its stripped text, or nothing when it is blank. */
  lemma RowCellsOne(c: string)
    ensures RowCells([c]) == if IsBlank(c) then [] else [Trim(c)]
  {
    TrimEmptyIffBlank(c);
    assert [c][..0] == [];
  }

  /** Rows are rendered one by one and keep their order in the table. */
  lemma {:induction false} TableLinesAppend(a: Table, b: Table)
    ensures TableLines(a + b) == TableLines(a) + TableLines(b)
  {
    if b != [] {
      var init := b[..|b| - 1];
      assert (a + b)[..|a + b| - 1] == a + init;
      TableLinesAppend(a, init);
    } else {
      assert a + b == a;
    }
  }

  /** A single row renders as its kept cells joined by " | ", or as nothing
      when all its cells are blank. */
  lemma TableLinesOne(row: Row)
    ensures TableLines([row]) == if AllBlank(row) then [] else [Join(CellSeparator, RowCells(row))]
  {
    RowCellsEmptyIff(row);
    assert [row][..0] == [];
  }

  /** A single table renders as its lines joined by "\n", or as nothing when
      all its cells are blank. */
  lemma TableTextsOne(table: Table)
    ensures TableTexts([table]) == if BlankTable(table) then [] else [Join(RowSeparator, TableLines(table))]
  {
    TableLinesEmptyIff(table);
    assert [table][..0] == [];
  }

  /** No table contributes text exactly when every cell of every table is blank. */
  lemma {:induction false} TableTextsEmptyIff(tables: seq<Table>)
    ensures TableTexts(tables) == [] <==> forall j :: 0 <= j < |tables| ==> BlankTable(tables[j])
  {
    if tables != [] {
      var init := tables[..|tables| - 1];
      TableTextsEmptyIff(init);
      TableLinesEmptyIff(tables[|tables| - 1]);
    }
  }

  /** Table blocks are collected table by table, in document order. */
  lemma {:induction false} TableTextsAppend(a: seq<Table>, b: seq<Table>)
    ensures TableTexts(a + b) == TableTexts(a) + TableTexts(b)
  {
    if b != [] {
      var init := b[..|b| - 1];
      assert (a + b)[..|a + b| - 1] == a + init;
      TableTextsAppend(a, init);
    } else {
      assert a + b == a;
    }
  }

  /** The document yields the empty string exactly when all its paragraphs and
      all its table cells are blank. */
  lemma FullTextEmptyIff(doc: Document)
    ensures FullText(doc) == [] <==>
      AllBlank(doc.paragraphs) && forall j :: 0 <= j < |doc.tables| ==> BlankTable(doc.tables[j])
  {
    KeptParagraphsEmptyIff(doc.paragraphs);
    TableTextsEmptyIff(doc.tables);
    var kept := KeptParagraphs(doc.paragraphs);
    if kept != [] {
      TrimEmptyIffBlank(kept[0]);
    }
  }

  /** The table block is appended only when some table has a non-blank cell;
      otherwise the text is exactly the paragraph join. */
  lemma FullTextShape(doc: Document)
    ensures (forall j :: 0 <= j < |doc.tables| ==> BlankTable(doc.tables[j])) ==>
      FullText(doc) == Join(BlankLine, KeptParagraphs(doc.paragraphs))
    ensures (exists j :: 0 <= j < |doc.tables| && !BlankTable(doc.tables[j])) ==>
      FullText(doc) == Join(BlankLine, KeptParagraphs(doc.paragraphs)) + BlankLine
                       + Join(BlankLine, TableTexts(doc.tables)) &&
      TableTexts(doc.tables) != []
  {
    TableTextsEmptyIff(doc.tables);
  }

  /** With no surviving paragraph but some surviving table, the text starts with
      the blank-line separator. */
  lemma LeadingSeparator(doc: Document)
    requires AllBlank(doc.paragraphs)
    requires exists j :: 0 <= j < |doc.tables| && !BlankTable(doc.tables[j])
    ensures |FullText(doc)| >= 2 && FullText(doc)[..2] == "\n\n"
  {
    KeptParagraphsEmptyIff(doc.paragraphs);
    TableTextsEmptyIff(doc.tables);
  }

  /** Inserting a blank paragraph anywhere leaves the text unchanged (the
      paragraph count, see DocxMetadataKeys, still counts it). */
  lemma BlankParagraphIgnored(doc: Document, i: nat, p: string)
    requires i <= |doc.paragraphs| && IsBlank(p)
    ensures FullText(doc.(paragraphs := doc.paragraphs[..i] + [p] + doc.paragraphs[i..])) == FullText(doc)
  {
    var ps := doc.paragraphs;
    KeptParagraphsSkipsBlank(ps[..i], p, ps[i..]);
    assert ps[..i] + ps[i..] == ps;
    FullTextDependsOnSurvivors(doc.(paragraphs := ps[..i] + [p] + ps[i..]), doc);
  }

  /** The text depends only on the surviving paragraphs and table blocks. */
  lemma FullTextDependsOnSurvivors(d1: Document, d2: Document)
    requires KeptParagraphs(d1.paragraphs) == KeptParagraphs(d2.paragraphs)
    requires TableTexts(d1.tables) == TableTexts(d2.tables)
    ensures FullText(d1) == FullText(d2)
  {
  }

  lemma KeptParagraphsSkipsBlank(a: seq<string>, p: string, b: seq<string>)
    requires IsBlank(p)
    ensures KeptParagraphs(a + [p] + b) == KeptParagraphs(a + b)
  {
    KeptParagraphsAppend(a + [p], b);
    KeptParagraphsAppend(a, [p]);
    KeptParagraphsAppend(a, b);
    TrimEmptyIffBlank(p);
    assert [p][..0] == [];
  }

  /** Inserting a table whose cells are all blank leaves the text unchanged (yet
      `has_tables`, see DocxMetadataKeys, then reports a table). */
  lemma BlankTableIgnored(doc: Document, i: nat, table: Table)
    requires i <= |doc.tables| && BlankTable(table)
    ensures FullText(doc.(tables := doc.tables[..i] + [table] + doc.tables[i..])) == FullText(doc)
  {
    var ts := doc.tables;
    TableTextsAppend(ts[..i] + [table], ts[i..]);
    TableTextsAppend(ts[..i], [table]);
    TableTextsAppend(ts[..i], ts[i..]);
    assert TableTexts([table]) == [] by {
      TableLinesEmptyIff(table);
      assert [table][..0] == [];
    }
    assert ts[..i] + ts[i..] == ts;
  }

  /** A table with rows `[x, y]` and `["", z]`, for stripped non-empty cell texts
      `x`, `y` and `z`, renders as the line "x | y" and then the line "z": the
      empty cell is dropped (for instance "a | b\nc"). */
  lemma TwoRowTable(x: string, y: string, z: string)
    requires x != [] && Trim(x) == x && y != [] && Trim(y) == y && z != [] && Trim(z) == z
    ensures TableTexts([[[x, y], ["", z]]]) == [x + CellSeparator + y + RowSeparator + z]
  {
    var table: Table := [[x, y], ["", z]];
    StrippedPairCells(x, y);
    BlankFirstCell(z);
    TableLinesOfTwoRows([x, y], ["", z]);
    JoinTwo(CellSeparator, x, y);
    JoinTwo(RowSeparator, x + CellSeparator + y, z);
    assert [table][..0] == [];
  }

  lemma StrippedPairCells(x: string, y: string)
    requires x != [] && Trim(x) == x && y != [] && Trim(y) == y
    ensures RowCells([x, y]) == [x, y]
  {
    assert [x, y][..1] == [x];
    assert [x][..0] == [];
  }

  lemma BlankFirstCell(z: string)
    requires z != [] && Trim(z) == z
    ensures RowCells(["", z]) == [z]
  {
    assert Trim("") == "";
    assert ["", z][..1] == [""];
    assert [""][..0] == [];
  }

  lemma TableLinesOfTwoRows(r1: Row, r2: Row)
    requires RowCells(r1) != [] && RowCells(r2) != []
    ensures TableLines([r1, r2]) == [Join(CellSeparator, RowCells(r1)), Join(CellSeparator, RowCells(r2))]
  {
    assert [r1, r2][..1] == [r1];
    assert [r1][..0] == [];
  }

  lemma JoinTwo(sep: string, x: string, y: string)
    ensures Join(sep, [x, y]) == x + sep + y
  {
    assert [x, y][1..] == [y];
  }

  /** The two pipelines disagree on the page-count key: this one writes
      "page count" and never "page_count". */
  lemma DocxMetadataKeys(doc: Document, fileSize: nat)
    ensures DocxMetadata(doc, fileSize).Keys == {"page count", "has_tables", "paragraph_count", "file_size"}
    ensures "page_count" !in DocxMetadata(doc, fileSize)
    ensures DocxMetadata(doc, fileSize)["page count"] == IntValue(doc.sectionCount)
    ensures DocxMetadata(doc, fileSize)["has_tables"] == BoolValue(|doc.tables| > 0)
    ensures DocxMetadata(doc, fileSize)["paragraph_count"] == IntValue(|doc.paragraphs|)
  {
  }
}
