/**
 * The structured-table extractor (`extract_table_from_html_fbref`): finds a
 * statistics table, possibly hidden inside an HTML comment, walks its body
 * rows and turns every data row into a record keyed by the cells'
 * `data-stat` attributes. HTML parsing itself is not modelled: a page is
 * given by what the parser finds in it.
 */
module Extract {
  import opened Wrappers
  import opened Frames

  /**
   * A `th` or `td` cell: its `data-stat` attribute, if any, and its text as
   * `get_text(strip=True)` gives it, every text fragment below the cell
   * stripped of surrounding white space and the fragments joined with no
   * separator (`<a><span>eng</span> ENG</a>` gives "engENG"). Computing that
   * text is the parser's work and is not modelled.
   */
  datatype Cell = Cell(stat: Option<string>, text: string)

  /**
   * A `tr` of the table body: its class list (empty when it has no `class`
   * attribute), whether it has `th`/`td` children of its own, and every
   * `th`/`td` cell below it in document order.
   */
  datatype RowMarkup = RowMarkup(classes: seq<string>, hasDirectCells: bool, cells: seq<Cell>)

  /** What one parsed markup fragment yields when asked for the table with the wanted id: its body rows, when it has one. */
  datatype Fragment = Fragment(table: Option<seq<RowMarkup>>)

  /**
   * A fetched page, for one table id: the first comment whose text mentions
   * `id="<table id>"`, parsed as a document of its own, if there is such a
   * comment; and the page itself.
   */
  datatype Page = Page(comment: Option<Fragment>, document: Fragment)

  /** A Python dict built cell by cell: its keys in first-insertion order, and its contents. */
  datatype Dict = Dict(keys: seq<string>, values: Record)

  /** A comment that mentions the id is searched instead of the page, never in addition to it. */
  function LocateTable(p: Page): Option<seq<RowMarkup>>
  {
    if p.comment.Some? then p.comment.value.table else p.document.table
  }

  predicate IsSpacerClass(c: string)
  {
    |c| >= 7 && c[..7] == "spacer_"
  }

  /** A repeated header row or a spacer row, recognised by its classes. */
  predicate IsMarkerRow(row: RowMarkup)
  {
    "thead" in row.classes || exists c :: c in row.classes && IsSpacerClass(c)
  }

  predicate IsSkipped(row: RowMarkup)
  {
    IsMarkerRow(row) || !row.hasDirectCells
  }

  /** The field a cell fills: its `data-stat`, when present and non-empty. */
  function StatName(c: Cell): Option<string>
  {
    if c.stat.Some? && c.stat.value != "" then c.stat else None
  }

  /** The dict built from a row's cells, a later cell overwriting an earlier one with the same field. */
  function RowDict(cells: seq<Cell>): Dict
  {
    if cells == [] then Dict([], map[])
    else
      var d := RowDict(cells[..|cells| - 1]);
      var c := cells[|cells| - 1];
      match StatName(c)
      case None => d
      case Some(name) =>
        Dict(if name in d.values then d.keys else d.keys + [name], d.values[name := c.text])
  }

  predicate HasPlayer(r: Record)
  {
    PlayerKey in r && r[PlayerKey] != ""
  }

  /** The dicts of the body rows that are neither skipped nor without a player, in order. */
  function KeptDicts(body: seq<RowMarkup>): seq<Dict>
  {
    if body == [] then []
    else
      var kept := KeptDicts(body[..|body| - 1]);
      var row := body[|body| - 1];
      if IsSkipped(row) then kept
      else
        var d := RowDict(row.cells);
        if HasPlayer(d.values) then kept + [d] else kept
  }

  function AllKeys(dicts: seq<Dict>): seq<string>
  {
    if dicts == [] then [] else AllKeys(dicts[..|dicts| - 1]) + dicts[|dicts| - 1].keys
  }

  /** `pd.DataFrame(list_of_dicts)`: columns in order of first appearance, one row per dict. */
  function FrameOf(dicts: seq<Dict>): Table
  {
    Table(FirstOccurrences(AllKeys(dicts)), seq(|dicts|, i requires 0 <= i < |dicts| => dicts[i].values))
  }

  /** The table the extractor yields for a page; an empty frame when the table is missing. */
  function ExtractSpec(p: Page): Table
  {
    match LocateTable(p)
    case None => EmptyTable
    case Some(body) => FrameOf(KeptDicts(body))
  }

  /** The extractor's row and cell loops (b1.py:58-86). */
  method ExtractTable(p: Page) returns (t: Table)
    ensures t == ExtractSpec(p)
  {
    var located := LocateTable(p);
    if located.None? {
      return EmptyTable;
    }
    var body := located.value;
    var dataRows: seq<Dict> := [];
    for i := 0 to |body|
      invariant dataRows == KeptDicts(body[..i])
    {
      assert body[..i + 1][..i] == body[..i];
      var row := body[i];
      if IsMarkerRow(row) {
        continue;
      }
      if !row.hasDirectCells {
        continue;
      }
      var rowData := Dict([], map[]);
      for j := 0 to |row.cells|
        invariant rowData == RowDict(row.cells[..j])
      {
        assert row.cells[..j + 1][..j] == row.cells[..j];
        var cell := row.cells[j];
        if cell.stat.Some? && cell.stat.value != "" {
          var name := cell.stat.value;
          var keys := if name in rowData.values then rowData.keys else rowData.keys + [name];
          rowData := Dict(keys, rowData.values[name := cell.text]);
        }
      }
      assert row.cells[..|row.cells|] == row.cells;
      if PlayerKey in rowData.values && rowData.values[PlayerKey] != "" {
        dataRows := dataRows + [rowData];
      }
    }
    assert body[..|body|] == body;
    t := FrameOf(dataRows);
  }

  /** A row's dict has exactly the fields some cell carries, each listed once. */
  lemma {:induction false} RowDictFields(cells: seq<Cell>)
    ensures forall k :: k in RowDict(cells).keys <==> k in RowDict(cells).values
    ensures NoDuplicates(RowDict(cells).keys)
    ensures forall k :: k in RowDict(cells).values <==>
      exists j :: 0 <= j < |cells| && StatName(cells[j]) == Some(k)
  {
    if cells != [] {
      var init := cells[..|cells| - 1];
      RowDictFields(init);
      forall k ensures k in RowDict(cells).values <==> exists j :: 0 <= j < |cells| && StatName(cells[j]) == Some(k) {
        if k in RowDict(cells).values && k in RowDict(init).values {
          var j :| 0 <= j < |init| && StatName(init[j]) == Some(k);
          assert cells[j] == init[j];
        }
        if exists j :: 0 <= j < |cells| && StatName(cells[j]) == Some(k) {
          var j :| 0 <= j < |cells| && StatName(cells[j]) == Some(k);
          if j < |init| {
            assert init[j] == cells[j];
          }
        }
      }
    }
  }

  /** The value of a field is the text of the last cell that carries it. */
  lemma {:induction false} RowDictLastWins(cells: seq<Cell>, k: string, j: nat)
    requires j < |cells| && StatName(cells[j]) == Some(k)
    requires forall l :: j < l < |cells| ==> StatName(cells[l]) != Some(k)
    ensures k in RowDict(cells).values && RowDict(cells).values[k] == cells[j].text
  {
    var init := cells[..|cells| - 1];
    if j < |cells| - 1 {
      forall l | j < l < |init| ensures StatName(init[l]) != Some(k) {
        assert init[l] == cells[l];
      }
      RowDictLastWins(init, k, j);
    }
  }

  /** Every kept dict has a player and comes from a body row that is not skipped. */
  lemma {:induction false} KeptDictsFromDataRows(body: seq<RowMarkup>)
    ensures forall d :: d in KeptDicts(body) ==>
      HasPlayer(d.values) && exists row :: row in body && !IsSkipped(row) && d == RowDict(row.cells)
  {
    if body != [] {
      var init := body[..|body| - 1];
      KeptDictsFromDataRows(init);
      forall d | d in KeptDicts(body)
        ensures HasPlayer(d.values) && exists row :: row in body && !IsSkipped(row) && d == RowDict(row.cells)
      {
        if d in KeptDicts(init) {
          var row :| row in init && !IsSkipped(row) && d == RowDict(row.cells);
          assert row in body;
        } else {
          assert body[|body| - 1] in body;
        }
      }
    }
  }

  /** The kept dicts of two consecutive stretches of body rows are those of each, in body order. */
  lemma {:induction false} KeptDictsAppend(a: seq<RowMarkup>, b: seq<RowMarkup>)
    ensures KeptDicts(a + b) == KeptDicts(a) + KeptDicts(b)
  {
    if b == [] {
      assert a + b == a;
    } else {
      var init := b[..|b| - 1];
      assert (a + b)[..|a + b| - 1] == a + init;
      KeptDictsAppend(a, init);
    }
  }

  /** A body row that is not skipped and has a player is kept. */
  lemma {:induction false} DataRowKept(body: seq<RowMarkup>, n: nat)
    requires n < |body| && !IsSkipped(body[n]) && HasPlayer(RowDict(body[n].cells).values)
    ensures RowDict(body[n].cells) in KeptDicts(body)
  {
    if n < |body| - 1 {
      var init := body[..|body| - 1];
      assert init[n] == body[n];
      DataRowKept(init, n);
    }
  }

  /**
   * Every extracted record has a non-empty player and is the record of a
   * body row that is neither a header, a spacer nor cell-less; a missing
   * table yields an empty frame.
   */
  lemma ExtractedRowsAreDataRows(p: Page)
    ensures LocateTable(p).None? ==> ExtractSpec(p) == EmptyTable
    ensures forall r :: r in ExtractSpec(p).rows ==> HasPlayer(r)
    ensures forall r :: r in ExtractSpec(p).rows ==>
      exists row :: row in LocateTable(p).value && !IsSkipped(row) && r == RowDict(row.cells).values
  {
    if LocateTable(p).Some? {
      var dicts := KeptDicts(LocateTable(p).value);
      KeptDictsFromDataRows(LocateTable(p).value);
      forall r | r in ExtractSpec(p).rows
        ensures HasPlayer(r)
        ensures exists row :: row in LocateTable(p).value && !IsSkipped(row) && r == RowDict(row.cells).values
      {
        var i :| 0 <= i < |dicts| && r == dicts[i].values;
        assert dicts[i] in dicts;
      }
    }
  }

  /** Every body row that is neither skipped nor without a player yields a record. */
  lemma ExtractedRowsComplete(p: Page, n: nat)
    requires LocateTable(p).Some? && n < |LocateTable(p).value|
    requires !IsSkipped(LocateTable(p).value[n]) && HasPlayer(RowDict(LocateTable(p).value[n].cells).values)
    ensures RowDict(LocateTable(p).value[n].cells).values in ExtractSpec(p).rows
  {
    var dicts := KeptDicts(LocateTable(p).value);
    DataRowKept(LocateTable(p).value, n);
    var i :| 0 <= i < |dicts| && dicts[i] == RowDict(LocateTable(p).value[n].cells);
    assert ExtractSpec(p).rows[i] == dicts[i].values;
  }

  /** A table whose body rows are all headers, spacers or cell-less yields no records. */
  lemma {:induction false} SkippedRowsYieldNothing(body: seq<RowMarkup>)
    requires forall row :: row in body ==> IsSkipped(row)
    ensures KeptDicts(body) == []
  {
    if body != [] {
      var init := body[..|body| - 1];
      assert body[|body| - 1] in body;
      forall row | row in init ensures IsSkipped(row) {
        var i :| 0 <= i < |init| && init[i] == row;
        assert body[i] == row;
      }
      SkippedRowsYieldNothing(init);
    }
  }

  lemma {:induction false} AllKeysMembers(dicts: seq<Dict>)
    ensures forall c :: c in AllKeys(dicts) <==> exists i :: 0 <= i < |dicts| && c in dicts[i].keys
  {
    if dicts != [] {
      var init := dicts[..|dicts| - 1];
      AllKeysMembers(init);
      forall c ensures c in AllKeys(dicts) <==> exists i :: 0 <= i < |dicts| && c in dicts[i].keys {
        if c in AllKeys(init) {
          var i :| 0 <= i < |init| && c in init[i].keys;
          assert dicts[i] == init[i];
        }
        if exists i :: 0 <= i < |dicts| && c in dicts[i].keys {
          var i :| 0 <= i < |dicts| && c in dicts[i].keys;
          if i < |init| {
            assert init[i] == dicts[i];
          }
        }
      }
    }
  }

  /** A dict whose key list names exactly its contents. */
  ghost predicate KeysMatch(d: Dict)
  {
    forall k :: k in d.keys <==> k in d.values
  }

  lemma KeptDictsKeysMatch(body: seq<RowMarkup>)
    ensures forall d :: d in KeptDicts(body) ==> KeysMatch(d)
  {
    KeptDictsFromDataRows(body);
    forall d | d in KeptDicts(body) ensures KeysMatch(d) {
      var row :| row in body && !IsSkipped(row) && d == RowDict(row.cells);
      RowDictFields(row.cells);
    }
  }

  lemma FrameOfColumns(dicts: seq<Dict>)
    requires forall d :: d in dicts ==> KeysMatch(d)
    ensures forall c :: c in FrameOf(dicts).columns <==> exists r :: r in FrameOf(dicts).rows && c in r
  {
    var t := FrameOf(dicts);
    AllKeysMembers(dicts);
    forall c ensures c in t.columns <==> exists r :: r in t.rows && c in r {
      if c in t.columns {
        var i :| 0 <= i < |dicts| && c in dicts[i].keys;
        assert dicts[i] in dicts;
        assert t.rows[i] == dicts[i].values;
      }
      if exists r :: r in t.rows && c in r {
        var r :| r in t.rows && c in r;
        var i :| 0 <= i < |dicts| && r == dicts[i].values;
        assert dicts[i] in dicts;
      }
    }
  }

  /** The frame's columns are the fields of its records, each listed once. */
  lemma ExtractedColumns(p: Page)
    ensures NoDuplicates(ExtractSpec(p).columns)
    ensures forall c :: c in ExtractSpec(p).columns <==> exists r :: r in ExtractSpec(p).rows && c in r
  {
    if LocateTable(p).Some? {
      KeptDictsKeysMatch(LocateTable(p).value);
      FrameOfColumns(KeptDicts(LocateTable(p).value));
    }
  }

  /** A non-empty extraction always has the player column. */
  lemma NonEmptyExtractionHasPlayer(p: Page)
    requires ExtractSpec(p).rows != []
    ensures PlayerKey in ExtractSpec(p).columns
  {
    ExtractedRowsAreDataRows(p);
    ExtractedColumns(p);
    assert ExtractSpec(p).rows[0] in ExtractSpec(p).rows;
  }
}
