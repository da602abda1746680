/**
 * The output table (b1.py:202-231): every display name of the field
 * dictionary becomes a column, `Player` first; values the frame lacks, and
 * blank values, become the sentinel `N/a`.
 */
module Output {
  import opened Wrappers
  import opened Text
  import opened Frames
  import opened Sorting
  import opened ColumnMap
  import opened ColumnNames

  const Sentinel := "N/a"

  predicate NotPlayer(n: string)
  {
    n != PlayerColumn
  }

  /** The names of `names` other than `Player`. */
  lemma OtherNames(names: seq<string>)
    ensures forall n :: n in Filter(names, NotPlayer) <==> n in names && n != PlayerColumn
  {
  }

  /** `Player`, then the names of `names` other than `Player`, each once. */
  function ColumnOrder(names: seq<string>): seq<string>
  {
    FirstOccurrences([PlayerColumn] + Filter(names, NotPlayer))
  }

  /** The declared output columns: `Player`, then the other display names in dictionary order. */
  function DeclaredColumns(): seq<string>
  {
    ColumnOrder(DisplayNames())
  }

  /** The list the column-order loop builds: `Player`, then every other name in order (b1.py:202). */
  method PlayerFirst(names: seq<string>) returns (order: seq<string>)
    ensures order == [PlayerColumn] + Filter(names, NotPlayer)
  {
    order := [PlayerColumn];
    for j := 0 to |names|
      invariant order == [PlayerColumn] + Filter(names[..j], NotPlayer)
    {
      FilterPrefixStep(names, j, NotPlayer);
      if NotPlayer(names[j]) {
        order := order + [names[j]];
      }
    }
    assert names[..|names|] == names;
  }

  /** The column order with the `seen`-set de-duplication of b1.py:203-208. */
  method OrderColumns(names: seq<string>) returns (columns: seq<string>)
    ensures columns == ColumnOrder(names)
  {
    var order := PlayerFirst(names);
    columns := DedupNames(order);
  }

  /**
   * `Player` comes first and only there; after it come the other names of
   * `names`, each once, in the order of their first occurrence.
   */
  lemma ColumnOrderSpec(names: seq<string>)
    ensures ColumnOrder(names) == [PlayerColumn] + FirstOccurrences(Filter(names, NotPlayer))
    ensures NoDuplicates(ColumnOrder(names))
    ensures forall n :: n in ColumnOrder(names) <==> n == PlayerColumn || n in names
  {
    OtherNames(names);
    FirstOccurrencesAfter(PlayerColumn, Filter(names, NotPlayer));
  }

  /** A list that starts with `Player` and repeats no name is its own column order. */
  lemma ColumnOrderOfDistinct(names: seq<string>)
    requires |names| > 0 && names[0] == PlayerColumn && NoDuplicates(names)
    ensures ColumnOrder(names) == names
  {
    var rest := names[1..];
    assert names == [PlayerColumn] + rest;
    forall n | n in rest
      ensures NotPlayer(n)
    {
      var k :| 0 <= k < |rest| && rest[k] == n;
      assert names[k + 1] == n;
    }
    FilterKeepsAll(rest, NotPlayer);
    assert Filter([PlayerColumn], NotPlayer) == [] by {
      FilterSnoc([], PlayerColumn, NotPlayer);
      assert [] + [PlayerColumn] == [PlayerColumn];
    }
    FilterAppend([PlayerColumn], rest, NotPlayer);
    assert Filter(names, NotPlayer) == rest;
    FirstOccurrencesOfDistinct(names);
  }

  /**
   * The declared columns are the dictionary's display names in declaration
   * order: `Player` first, then every other display name once.
   */
  lemma DeclaredColumnsSpec()
    ensures DeclaredColumns() == DisplayNames()
    ensures |DeclaredColumns()| > 0 && DeclaredColumns()[0] == PlayerColumn
    ensures NoDuplicates(DeclaredColumns())
  {
    PlayerEntry();
    DisplayNamesDistinct();
    ColumnOrderOfDistinct(DisplayNames());
  }

  /** `fillna("N/a")` followed by the blank-to-sentinel pass. */
  function Fill(v: Option<string>): (s: string)
    ensures s == Sentinel || (v == Some(s) && !IsBlank(s))
    ensures v.Some? && !IsBlank(v.value) ==> s == v.value
  {
    match v
    case None => Sentinel
    case Some(x) => if IsBlank(x) then Sentinel else x
  }

  lemma SentinelNotBlank()
    ensures !IsBlank(Sentinel)
  {
    assert !IsSpace(Sentinel[0]);
  }

  /** Some declared column is a column of the frame. */
  predicate SharesColumn(t: Table, header: seq<string>)
  {
    exists c :: c in header && c in t.columns
  }

  /**
   * The number of output rows: the frame's, except that an empty frame
   * sharing no column with the header yields one row of sentinels.
   */
  function Height(t: Table, header: seq<string>): nat
  {
    if IsEmptyFrame(t) && !SharesColumn(t, header) && header != [] then 1 else |t.rows|
  }

  /** The output value of column `c` in row `i`. */
  function CellOf(t: Table, c: string, i: nat): string
    requires c in t.columns ==> i < |t.rows|
  {
    if c in t.columns then Fill(Get(t.rows[i], c)) else Sentinel
  }

  /** The output, column by column, as the source's dictionary of series holds it. */
  datatype Results = Results(columns: seq<string>, data: seq<seq<string>>)

  predicate Shaped(out: Results, height: nat)
  {
    && |out.data| == |out.columns|
    && forall c :: 0 <= c < |out.data| ==> |out.data[c]| == height
  }

  /**
   * `out` lays `t` out under `header`: the header's columns, the expected
   * number of rows, and in each cell the frame's filled value or the sentinel.
   */
  predicate Presents(out: Results, t: Table, header: seq<string>)
  {
    && out.columns == header
    && Shaped(out, Height(t, header))
    && forall c, i :: 0 <= c < |header| && 0 <= i < Height(t, header) ==>
      (header[c] in t.columns ==> i < |t.rows|) && out.data[c][i] == CellOf(t, header[c], i)
  }

  /** Builds the output columns from the frame (b1.py:210-231). */
  method BuildResults(t: Table, header: seq<string>) returns (out: Results)
    ensures out.columns == header
    ensures Shaped(out, Height(t, header))
    ensures forall c, i :: 0 <= c < |header| && 0 <= i < Height(t, header) ==>
      (header[c] in t.columns ==> i < |t.rows|) && out.data[c][i] == CellOf(t, header[c], i)
  {
    var height := |t.rows|;
    var shared := false;
    for c := 0 to |header|
      invariant shared <==> exists k :: 0 <= k < c && header[k] in t.columns
    {
      if header[c] in t.columns {
        shared := true;
      }
    }
    if IsEmptyFrame(t) && !shared && |header| > 0 {
      height := 1;
    }
    assert height == Height(t, header);
    var data: seq<seq<string>> := [];
    for c := 0 to |header|
      invariant |data| == c
      invariant forall k :: 0 <= k < c ==> |data[k]| == height
      invariant forall k, i :: 0 <= k < c && 0 <= i < height ==>
        (header[k] in t.columns ==> i < |t.rows|) && data[k][i] == CellOf(t, header[k], i)
    {
      var name := header[c];
      var column: seq<string> := [];
      for i := 0 to height
        invariant |column| == i
        invariant name in t.columns ==> height <= |t.rows|
        invariant forall j :: 0 <= j < i ==> (name in t.columns ==> j < |t.rows|) && column[j] == CellOf(t, name, j)
      {
        if name in t.columns {
          column := column + [Fill(Get(t.rows[i], name))];
        } else {
          column := column + [Sentinel];
        }
      }
      data := data + [column];
    }
    out := Results(header, data);
  }

  /** Every output cell is the sentinel or a non-blank value. */
  lemma CellsComplete(t: Table, c: string, i: nat)
    requires c in t.columns ==> i < |t.rows|
    ensures CellOf(t, c, i) == Sentinel || !IsBlank(CellOf(t, c, i))
    ensures !IsBlank(CellOf(t, c, i))
  {
    SentinelNotBlank();
  }
}
