/**
 * The script's main flow (b1.py:115-231): one page per statistics
 * category, extraction, the checks on the `standard` table, the merge,
 * deduplication, clean-up and the output table. Fetching the pages is the
 * parameter `fetch`.
 */
module Pipeline {
  import opened Wrappers
  import opened Frames
  import opened Extract
  import opened Merge
  import opened Dedup
  import opened Normalize
  import opened ColumnMap
  import opened Output

  /** The categories in the order the configuration lists them. */
  const Categories: seq<string> :=
    ["standard", "keepers", "shooting", "passing", "passing_types", "gca", "defense", "possession", "misc"]

  /** Why the script stops before writing anything. */
  datatype PipelineError = NoTables | NoStandardTable

  /** The category tables kept for `cats`: those whose extraction is not an empty frame, in order. */
  function Collected(fetch: string -> Page, cats: seq<string>): seq<(string, Table)>
  {
    if cats == [] then []
    else
      var init := Collected(fetch, cats[..|cats| - 1]);
      var cat := cats[|cats| - 1];
      var t := ExtractSpec(fetch(cat));
      if IsEmptyFrame(t) then init else init + [(cat, t)]
  }

  /** The page loop (b1.py:119-126). */
  method CollectTables(fetch: string -> Page, cats: seq<string>) returns (tables: seq<(string, Table)>)
    ensures tables == Collected(fetch, cats)
  {
    tables := [];
    for i := 0 to |cats|
      invariant tables == Collected(fetch, cats[..i])
    {
      assert cats[..i + 1][..i] == cats[..i];
      var t := ExtractTable(fetch(cats[i]));
      if !IsEmptyFrame(t) {
        tables := tables + [(cats[i], t)];
      }
    }
    assert cats[..|cats|] == cats;
  }

  /** `dict.get`: the table last stored under `cat`. */
  function FindTable(tables: seq<(string, Table)>, cat: string): Option<Table>
  {
    if tables == [] then None
    else if tables[|tables| - 1].0 == cat then Some(tables[|tables| - 1].1)
    else FindTable(tables[..|tables| - 1], cat)
  }

  /** The table found for a category is its page's extraction, unless that is an empty frame. */
  lemma {:induction false} FindCollected(fetch: string -> Page, cats: seq<string>, cat: string)
    ensures FindTable(Collected(fetch, cats), cat) ==
      if cat in cats && !IsEmptyFrame(ExtractSpec(fetch(cat))) then Some(ExtractSpec(fetch(cat))) else None
  {
    if cats != [] {
      var init := cats[..|cats| - 1];
      FindCollected(fetch, init, cat);
      assert cats == init + [cats[|cats| - 1]];
    }
  }

  /** No table is kept exactly when every category's extraction is an empty frame. */
  lemma {:induction false} CollectedEmpty(fetch: string -> Page, cats: seq<string>)
    ensures Collected(fetch, cats) == [] <==> forall c :: c in cats ==> IsEmptyFrame(ExtractSpec(fetch(c)))
  {
    if cats != [] {
      var init := cats[..|cats| - 1];
      CollectedEmpty(fetch, init);
      assert cats == init + [cats[|cats| - 1]];
    }
  }

  /** The table after merge, deduplication and clean-up, for a given `standard` table and category tables. */
  function Cleaned(standard: Table, tables: seq<(string, Table)>): Table
  {
    CleanUp(DropDuplicatePlayers(MergeSpec(standard, tables)))
  }

  /** What the script writes when it gets that far. */
  function FinalTable(fetch: string -> Page): Table
  {
    Cleaned(ExtractSpec(fetch(PrimaryCategory)), Collected(fetch, Categories))
  }

  /**
   * Everything after the checks: merge, deduplication, clean-up, and the
   * output laid out in the declared columns.
   */
  method Assemble(standard: Table, tables: seq<(string, Table)>) returns (out: Results)
    ensures Presents(out, Cleaned(standard, tables), DeclaredColumns())
  {
    var merged := MergeCategories(standard, tables);
    var final := CleanUp(DropDuplicatePlayers(merged));
    var header := OrderColumns(DisplayNames());
    out := BuildResults(final, header);
  }

  /**
   * The whole run. It fails exactly when the `standard` page yields an empty
   * frame; otherwise the output has the declared columns, the shape the
   * source gives it, and in each cell the cleaned table's value or `N/a`.
   */
  method Run(fetch: string -> Page) returns (r: Result<Results, PipelineError>)
    ensures r.Failure? <==> IsEmptyFrame(ExtractSpec(fetch(PrimaryCategory)))
    ensures r.Failure? ==> r.error == if Collected(fetch, Categories) == [] then NoTables else NoStandardTable
    ensures r.Success? ==> Presents(r.value, FinalTable(fetch), DeclaredColumns())
  {
    var tables := CollectTables(fetch, Categories);
    FindCollected(fetch, Categories, PrimaryCategory);
    if tables == [] {
      CollectedEmpty(fetch, Categories);
      return Failure(NoTables);
    }
    var found := FindTable(tables, PrimaryCategory);
    if found.None? {
      return Failure(NoStandardTable);
    }
    var standard := found.value;
    NonEmptyExtractionHasPlayer(fetch(PrimaryCategory));
    // The source's check for a missing player column (b1.py:138-140) cannot fail.
    assert PlayerKey in standard.columns;
    var out := Assemble(standard, tables);
    return Success(out);
  }

  /** A `standard` table with a player column leaves the cleaned table with the `Player` column. */
  lemma CleanedHasPlayerColumn(standard: Table, tables: seq<(string, Table)>)
    requires PlayerKey in standard.columns
    ensures PlayerColumn in Cleaned(standard, tables).columns
  {
    var merged := MergeSpec(standard, tables);
    MergedColumnsStartWithStandard(standard, tables);
    var i :| 0 <= i < |standard.columns| && standard.columns[i] == PlayerKey;
    assert merged.columns[i] == PlayerKey;
    var deduped := DropDuplicatePlayers(merged);
    DropDuplicatePlayersSpec(merged);
    PlayerEntry();
    assert RenameColumns(deduped).columns[i] == PlayerColumn;
    CleanUpSpec(deduped);
  }

  /** When the run succeeds, the cleaned table has the `Player` column, so the output's first column holds the players. */
  lemma FinalHasPlayerColumn(fetch: string -> Page)
    requires !IsEmptyFrame(ExtractSpec(fetch(PrimaryCategory)))
    ensures PlayerColumn in FinalTable(fetch).columns
  {
    NonEmptyExtractionHasPlayer(fetch(PrimaryCategory));
    CleanedHasPlayerColumn(ExtractSpec(fetch(PrimaryCategory)), Collected(fetch, Categories));
  }

  /**
   * The cleaned table has at most one row per player, unless a merged row
   * has another field that the dictionary renames to `Player`.
   */
  lemma FinalPlayersUnique(standard: Table, tables: seq<(string, Table)>)
    requires PlayerKey in MergeSpec(standard, tables).columns
    requires forall r :: r in MergeSpec(standard, tables).rows ==> PlayerNameFree(r)
    ensures forall i, j :: 0 <= i < j < |Cleaned(standard, tables).rows| ==>
      DisplayPlayer(Cleaned(standard, tables).rows[i]) != DisplayPlayer(Cleaned(standard, tables).rows[j])
  {
    var merged := MergeSpec(standard, tables);
    var deduped := DropDuplicatePlayers(merged);
    DropDuplicatePlayersSpec(merged);
    forall r | r in deduped.rows ensures PlayerNameFree(r) {
      var m :| 0 <= m < |deduped.rows| && deduped.rows[m] == r;
      if MinutesKey in merged.columns {
        assert IsBestRow(merged.rows, deduped.rows[m]);
      } else {
        assert IsFirstRow(merged.rows, deduped.rows[m]);
      }
    }
    CleanUpKeepsPlayersUnique(deduped);
  }
}
