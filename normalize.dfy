/**
 * The clean-up between deduplication and output (b1.py:171-200): fields
 * renamed to their display names, nationality reduced to its country
 * code, age cut at its first dash, players with at most 90 minutes
 * dropped, and rows ordered by first name.
 */
module Normalize {
  import opened Wrappers
  import opened Text
  import opened Frames
  import opened Sorting
  import opened Numbers
  import opened ColumnMap

  const NationColumn := "Nation"
  const AgeColumn := "Age"
  const MinutesColumn := "Minutes"

  /** Players must have played strictly more than this many minutes to be kept. */
  const MinMinutes := 90

  // ---------------------------------------------------------------------
  // Renaming (b1.py:171-172)
  // ---------------------------------------------------------------------

  /** The first dictionary entry at or after `i` naming `n` whose field `r` holds and is renamed to `n`. */
  function MappedSourceFrom(r: Record, n: string, i: nat): (o: Option<string>)
    requires i <= |Entries|
    decreases |Entries| - i
    ensures o.Some? ==> o.value in r && Renamed(o.value) == n
    ensures o.None? ==> forall j :: i <= j < |Entries| && Entries[j].1 == n && Entries[j].0 in r ==>
      DisplayOf(Entries[j].0) != Some(n)
  {
    if i == |Entries| then None
    else if Entries[i].1 == n && Entries[i].0 in r && DisplayOf(Entries[i].0) == Some(n) then Some(Entries[i].0)
    else MappedSourceFrom(r, n, i + 1)
  }

  /** When no mapped field of `r` is renamed to `n`, `n` is itself an unmapped field of `r`. */
  lemma UnmappedSource(r: Record, n: string)
    requires exists k :: k in r && Renamed(k) == n
    requires MappedSourceFrom(r, n, 0).None?
    ensures n in r && Renamed(n) == n
  {
    var k :| k in r && Renamed(k) == n;
  }

  /** The field whose value column `n` holds after renaming: a mapped field when there is one. */
  function SourceField(r: Record, n: string): (k: string)
    requires exists k :: k in r && Renamed(k) == n
    ensures k in r && Renamed(k) == n
  {
    match MappedSourceFrom(r, n, 0)
    case Some(k) => k
    case None => UnmappedSource(r, n); n
  }

  function RenamedKeys(r: Record): set<string>
  {
    set k | k in r :: Renamed(k)
  }

  /** A row after `rename(columns=...)`. */
  function RenameRow(r: Record): Record
  {
    map n | n in RenamedKeys(r) :: r[SourceField(r, n)]
  }

  /** No other field of `r` is renamed to the name `k` is renamed to. */
  ghost predicate RenamesAlone(r: Record, k: string)
  {
    forall k2 :: k2 in r && Renamed(k2) == Renamed(k) ==> k2 == k
  }

  /**
   * After renaming, a row has exactly the renamed names of its fields, and
   * a field that shares its new name with no other field keeps its value.
   */
  lemma RenameRowSpec(r: Record)
    ensures forall n :: n in RenameRow(r) <==> exists k :: k in r && Renamed(k) == n
    ensures forall k :: k in r && RenamesAlone(r, k) ==> Renamed(k) in RenameRow(r) && RenameRow(r)[Renamed(k)] == r[k]
  {
    forall k | k in r && RenamesAlone(r, k)
      ensures Renamed(k) in RenameRow(r) && RenameRow(r)[Renamed(k)] == r[k]
    {
      assert Renamed(k) in RenamedKeys(r);
      assert SourceField(r, Renamed(k)) == k;
    }
  }

  function RenameColumns(t: Table): (u: Table)
    ensures |u.columns| == |t.columns| && |u.rows| == |t.rows|
    ensures forall i :: 0 <= i < |t.columns| ==> u.columns[i] == Renamed(t.columns[i])
    ensures forall i :: 0 <= i < |t.rows| ==> u.rows[i] == RenameRow(t.rows[i])
  {
    Table(seq(|t.columns|, i requires 0 <= i < |t.columns| => Renamed(t.columns[i])),
          seq(|t.rows|, i requires 0 <= i < |t.rows| => RenameRow(t.rows[i])))
  }

  // ---------------------------------------------------------------------
  // Nationality (b1.py:173-180)
  // ---------------------------------------------------------------------

  predicate AllUpper(s: string)
  {
    forall i :: 0 <= i < |s| ==> IsUpper(s[i])
  }

  /** `c` is the longest run of capital letters that `s` ends with. */
  predicate IsUpperTail(c: string, s: string)
  {
    && |c| <= |s| && c == s[|s| - |c|..] && AllUpper(c)
    && (|c| < |s| ==> !IsUpper(s[|s| - |c| - 1]))
  }

  function TrailingUpper(s: string): (r: string)
    ensures IsUpperTail(r, s)
  {
    if s == [] || !IsUpper(s[|s| - 1]) then []
    else
      var r := TrailingUpper(s[..|s| - 1]) + [s[|s| - 1]];
      assert s[..|s| - 1][|s| - |r|..] + [s[|s| - 1]] == s[|s| - |r|..];
      r
  }

  /** The longest tail is unique. */
  lemma UpperTailUnique(c: string, d: string, s: string)
    requires IsUpperTail(c, s) && IsUpperTail(d, s)
    ensures c == d
  {
  }

  /** Where `$` can match: the end of the text, or before one final newline. */
  function BeforeFinalNewline(s: string): string
  {
    if s != [] && s[|s| - 1] == '\n' then s[..|s| - 1] else s
  }

  /**
   * `re.search(r'([A-Z]+)$', s)`: the capital letters that end the text
   * (before an optional final newline); the text itself when there are none.
   * The source's second test (three characters, all upper case) returns the
   * text too, so it changes nothing.
   */
  function NationCode(s: string): (c: string)
    ensures c == s || (c != [] && IsUpperTail(c, BeforeFinalNewline(s)))
    ensures c == s <==> TrailingUpper(BeforeFinalNewline(s)) == [] || TrailingUpper(BeforeFinalNewline(s)) == s
  {
    var run := TrailingUpper(BeforeFinalNewline(s));
    if run == [] then s else run
  }

  /** A code is its own code: the step is idempotent. */
  lemma NationCodeIdempotent(s: string)
    ensures NationCode(NationCode(s)) == NationCode(s)
  {
    var c := NationCode(s);
    if c != s {
      assert BeforeFinalNewline(c) == c;
      assert IsUpperTail(c, c);
      UpperTailUnique(TrailingUpper(c), c, c);
    }
  }

  /** A code after the country name is extracted. */
  lemma NationCodeAfterName()
    ensures NationCode("eng ENG") == "ENG"
  {
    assert IsUpperTail("ENG", "eng ENG");
    UpperTailUnique(TrailingUpper("eng ENG"), "ENG", "eng ENG");
  }

  /** `$` also matches before a final newline. */
  lemma NationCodeFinalNewline()
    ensures NationCode("ENG\n") == "ENG"
  {
    assert BeforeFinalNewline("ENG\n") == "ENG";
    assert IsUpperTail("ENG", "ENG");
    UpperTailUnique(TrailingUpper("ENG"), "ENG", "ENG");
  }

  /** A bare code is kept. */
  lemma NationCodeBareCode()
    ensures NationCode("BRA") == "BRA"
  {
    assert IsUpperTail("BRA", "BRA");
    UpperTailUnique(TrailingUpper("BRA"), "BRA", "BRA");
  }

  /** Text that does not end in capitals is kept. */
  lemma NationCodeNoCode()
    ensures NationCode("Unknown") == "Unknown"
  {
    assert IsUpperTail("", "Unknown");
    UpperTailUnique(TrailingUpper("Unknown"), "", "Unknown");
  }

  /** Nationality text replaced by its code; a missing value stays missing. */
  function FixNation(t: Table): (u: Table)
    ensures u.columns == t.columns && |u.rows| == |t.rows|
    ensures forall i :: 0 <= i < |t.rows| ==>
      if NationColumn in t.columns && NationColumn in t.rows[i]
      then u.rows[i] == t.rows[i][NationColumn := NationCode(t.rows[i][NationColumn])]
      else u.rows[i] == t.rows[i]
  {
    if NationColumn !in t.columns then t
    else Table(t.columns, seq(|t.rows|, i requires 0 <= i < |t.rows| =>
      var r := t.rows[i];
      if NationColumn in r then r[NationColumn := NationCode(r[NationColumn])] else r))
  }

  // ---------------------------------------------------------------------
  // Age (b1.py:182-185)
  // ---------------------------------------------------------------------

  /** `x.split(c)[0]`: the text before the first `c`, or all of it. */
  function Before(x: string, c: char): (p: string)
    ensures p <= x && c !in p
    ensures |p| < |x| ==> x[|p|] == c
  {
    if x == [] || x[0] == c then [] else [x[0]] + Before(x[1..], c)
  }

  lemma {:induction false} BeforeIdempotent(x: string, c: char)
    ensures Before(Before(x, c), c) == Before(x, c)
  {
    if x != [] && x[0] != c {
      BeforeIdempotent(x[1..], c);
    }
  }

  /** `str(v)` for a cell: a missing value prints as `nan`. */
  function CellText(v: Option<string>): string
  {
    match v
    case None => "nan"
    case Some(s) => s
  }

  /** The age column's text: years before the `-days` part. */
  function AgeText(v: Option<string>): (a: string)
    ensures a <= CellText(v) && '-' !in a
    ensures |a| < |CellText(v)| ==> CellText(v)[|a|] == '-'
  {
    Before(CellText(v), '-')
  }

  lemma AgeTextExamples()
    ensures AgeText(Some("27-045")) == "27"
    ensures AgeText(Some("31")) == "31"
    ensures AgeText(None) == "nan"
  {
    assert Before("27-045", '-') == "2" + Before("7-045", '-');
    assert Before("7-045", '-') == "7" + Before("-045", '-');
    assert Before("31", '-') == "3" + Before("1", '-');
    assert Before("1", '-') == "1" + Before("", '-');
  }

  /** Every row gets an age text, missing values included. */
  function FixAge(t: Table): (u: Table)
    ensures u.columns == t.columns && |u.rows| == |t.rows|
    ensures forall i :: 0 <= i < |t.rows| ==>
      if AgeColumn in t.columns
      then u.rows[i] == t.rows[i][AgeColumn := AgeText(Get(t.rows[i], AgeColumn))]
      else u.rows[i] == t.rows[i]
  {
    if AgeColumn !in t.columns then t
    else Table(t.columns, seq(|t.rows|, i requires 0 <= i < |t.rows| =>
      t.rows[i][AgeColumn := AgeText(Get(t.rows[i], AgeColumn))]))
  }

  // ---------------------------------------------------------------------
  // Minutes filter (b1.py:186-191)
  // ---------------------------------------------------------------------

  /** The row's minutes parse and exceed the threshold. */
  predicate PlayedEnough(r: Record)
  {
    var m := ParseMinutes(Get(r, MinutesColumn));
    m.Some? && m.value > MinMinutes
  }

  function FilterMinutes(t: Table): (u: Table)
    ensures u.columns == t.columns
    ensures multiset(u.rows) <= multiset(t.rows)
    ensures MinutesColumn in t.columns ==> forall r :: r in u.rows <==> r in t.rows && PlayedEnough(r)
    ensures MinutesColumn !in t.columns ==> u == t
  {
    if MinutesColumn in t.columns then Table(t.columns, Filter(t.rows, PlayedEnough)) else t
  }

  /** The threshold is strict: exactly 90 minutes is not enough. */
  lemma NinetyMinutesDropped()
    ensures !PlayedEnough(map[MinutesColumn := "90"])
  {
    assert DecimalString(90) == "90" by { assert DecimalString(9) == "9"; }
    ParseDecimalString(90);
    assert Get(map[MinutesColumn := "90"], MinutesColumn) == Some("90");
  }

  lemma NinetyOneMinutesKept()
    ensures PlayedEnough(map[MinutesColumn := "91"])
  {
    assert DecimalString(91) == "91" by { assert DecimalString(9) == "9"; }
    ParseDecimalString(91);
    assert Get(map[MinutesColumn := "91"], MinutesColumn) == Some("91");
  }

  lemma SeparatorRemoved()
    ensures RemoveCommas("1,234") == "1234"
  {
    RemoveCommasConcat("1,", "234");
    RemoveCommasConcat("1", ",");
    assert "1," + "234" == "1,234";
    assert "1" + "," == "1,";
  }

  lemma ReadsThousands()
    ensures ParseNumber("1234") == Some(1234)
  {
    assert DecimalString(1234) == "1234" by {
      assert DecimalString(1) == "1";
      assert DecimalString(12) == "12";
      assert DecimalString(123) == "123";
    }
    ParseDecimalString(1234);
  }

  /** A thousands separator is read through. */
  lemma SeparatedMinutesKept()
    ensures PlayedEnough(map[MinutesColumn := "1,234"])
  {
    SeparatorRemoved();
    ReadsThousands();
    assert Get(map[MinutesColumn := "1,234"], MinutesColumn) == Some("1,234");
  }

  // ---------------------------------------------------------------------
  // Ordering by first name (b1.py:192-200)
  // ---------------------------------------------------------------------

  /** The sort key: the text before the first space, the text itself, or a placeholder for empty text. */
  function FirstNameKey(x: string): (k: string)
    ensures x == [] ==> k == "N/A_Player"
    ensures x != [] && ' ' !in x ==> k == x
    ensures x != [] && ' ' in x ==> k + " " <= x && ' ' !in k
  {
    if x != [] && ' ' in x then Before(x, ' ') else if x != [] then x else "N/A_Player"
  }

  function FirstNameOf(r: Record): string
  {
    FirstNameKey(CellText(Get(r, PlayerColumn)))
  }

  predicate FirstNameLe(a: Record, b: Record)
  {
    StrLe(FirstNameOf(a), FirstNameOf(b))
  }

  lemma FirstNameLeTotalPreorder()
    ensures TotalPreorder(FirstNameLe)
  {
    forall a, b ensures FirstNameLe(a, b) || FirstNameLe(b, a) {
      if FirstNameOf(a) != FirstNameOf(b) {
        StrLtTotal(FirstNameOf(a), FirstNameOf(b));
      }
    }
    forall a, b, c | FirstNameLe(a, b) && FirstNameLe(b, c) ensures FirstNameLe(a, c) {
      if FirstNameOf(a) != FirstNameOf(b) && FirstNameOf(b) != FirstNameOf(c) {
        StrLtTransitive(FirstNameOf(a), FirstNameOf(b), FirstNameOf(c));
      }
    }
  }

  function SortByFirstName(t: Table): (u: Table)
    ensures u.columns == t.columns
    ensures multiset(u.rows) == multiset(t.rows)
    ensures PlayerColumn in t.columns ==> Sorted(u.rows, FirstNameLe)
  {
    if PlayerColumn in t.columns && !IsEmptyFrame(t) then
      FirstNameLeTotalPreorder();
      Table(t.columns, InsertionSort(t.rows, FirstNameLe))
    else t
  }

  /** The whole clean-up, in the source's order. */
  function CleanUp(t: Table): Table
  {
    SortByFirstName(FilterMinutes(FixAge(FixNation(RenameColumns(t)))))
  }

  /** The player's display name after renaming. */
  function DisplayPlayer(r: Record): Option<string>
  {
    Get(r, PlayerColumn)
  }

  /** No field of `r` but the player field is renamed to `Player`. */
  ghost predicate PlayerNameFree(r: Record)
  {
    forall k :: k in r && k != PlayerKey ==> Renamed(k) != PlayerColumn
  }

  /** Renaming moves the player field, present or missing, to `Player`. */
  lemma RenameKeepsPlayer(r: Record)
    requires PlayerNameFree(r)
    ensures DisplayPlayer(RenameRow(r)) == PlayerOf(r)
  {
    PlayerEntry();
    RenameRowSpec(r);
    if PlayerKey in r {
      assert RenamesAlone(r, PlayerKey);
    }
  }

  /**
   * The clean-up keeps the renamed columns, keeps only rows with more than
   * 90 minutes when there is a minutes column, orders the rows by first
   * name when there is a player column, and never adds a row.
   */
  lemma CleanUpSpec(t: Table)
    ensures CleanUp(t).columns == RenameColumns(t).columns
    ensures MinutesColumn in RenameColumns(t).columns ==> forall r :: r in CleanUp(t).rows ==> PlayedEnough(r)
    ensures PlayerColumn in RenameColumns(t).columns ==> Sorted(CleanUp(t).rows, FirstNameLe)
    ensures |CleanUp(t).rows| <= |t.rows|
  {
    var a := RenameColumns(t);
    var c := FixAge(FixNation(a));
    var d := FilterMinutes(c);
    var e := SortByFirstName(d);
    assert e == CleanUp(t);
    assert c.columns == a.columns && |c.rows| == |t.rows|;
    SubMultisetShorter(d.rows, c.rows);
    assert |e.rows| == |d.rows| by {
      assert |multiset(e.rows)| == |multiset(d.rows)|;
    }
    if MinutesColumn in a.columns {
      forall r | r in e.rows ensures PlayedEnough(r) {
        assert r in multiset(d.rows);
      }
    }
  }

  /**
   * When no player shares a row with another field renamed to `Player`,
   * the cleaned table has at most one row per player, as the deduplicated
   * table it starts from does.
   */
  lemma CleanUpKeepsPlayersUnique(t: Table)
    requires UniquePlayers(t.rows)
    requires forall r :: r in t.rows ==> PlayerNameFree(r)
    ensures forall i, j :: 0 <= i < j < |CleanUp(t).rows| ==>
      DisplayPlayer(CleanUp(t).rows[i]) != DisplayPlayer(CleanUp(t).rows[j])
  {
    var c := FixAge(FixNation(RenameColumns(t)));
    forall i | 0 <= i < |c.rows| ensures DisplayPlayer(c.rows[i]) == PlayerOf(t.rows[i]) {
      RenameKeepsPlayer(t.rows[i]);
    }
    var d := FilterMinutes(c);
    DistinctKeysSurvive(d.rows, c.rows, DisplayPlayer);
    DistinctKeysSurvive(CleanUp(t).rows, d.rows, DisplayPlayer);
  }
}
