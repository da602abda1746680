/**
 * The cross-category merge engine (b1.py:134-159): starting from the
 * `standard` table, every other non-empty category table contributes its
 * player key plus its non-identity columns through a left join on the
 * player name. On a column-name clash the accumulated table keeps its column
 * and the newcomer is renamed `<column>_<category>_dup`.
 */
module Merge {
  import opened Wrappers
  import opened Frames
  import opened Sorting

  /** Fields owned by the `standard` table that no other category may contribute (b1.py:142). */
  const IdentityColumns: seq<string> :=
    ["nationality", "position", "team", "age", "games", "games_starts", "minutes"]

  const PrimaryCategory := "standard"

  predicate IsIdentity(c: string)
  {
    c in IdentityColumns
  }

  /** The player key and the identity fields: the fields whose values only the primary table supplies. */
  predicate OwnedByPrimary(c: string)
  {
    c == PlayerKey || IsIdentity(c)
  }

  /** A column a secondary category may contribute: neither the player key nor an identity field. */
  predicate Contributed(c: string)
  {
    !OwnedByPrimary(c)
  }

  /** The columns a secondary table contributes: its columns other than the player key and the identity fields. */
  lemma ContributedColumns(columns: seq<string>)
    ensures forall c :: c in Filter(columns, Contributed) <==> c in columns && !OwnedByPrimary(c)
  {
  }

  /** `unique_cols_to_bring` (b1.py:150-155): the player key first, then each other non-identity column once. */
  method ColumnsToBring(columns: seq<string>) returns (unique: seq<string>)
    ensures unique == FirstOccurrences([PlayerKey] + Filter(columns, Contributed))
    ensures |unique| > 0 && unique[0] == PlayerKey && NoDuplicates(unique)
    ensures forall c :: c in unique <==> c == PlayerKey || (c in columns && !IsIdentity(c))
  {
    var toBring := [PlayerKey];
    for i := 0 to |columns|
      invariant toBring == [PlayerKey] + Filter(columns[..i], Contributed)
    {
      FilterPrefixStep(columns, i, Contributed);
      if Contributed(columns[i]) {
        toBring := toBring + [columns[i]];
      }
    }
    assert columns[..|columns|] == columns;
    ContributedColumns(columns);
    unique := DedupNames(toBring);
  }

  /** `df[cols]`: a row restricted to the selected columns. */
  function Project(r: Record, cols: seq<string>): (p: Record)
    ensures forall k :: k in p <==> k in r && k in cols
    ensures forall k :: k in p ==> p[k] == r[k]
  {
    map k | k in r && k in cols :: r[k]
  }

  /** The name a secondary column gets when the accumulated table already has one of that name. */
  function DupName(c: string, category: string): string
  {
    c + "_" + category + "_dup"
  }

  function JoinedName(c: string, baseColumns: seq<string>, category: string): string
  {
    if c in baseColumns then DupName(c, category) else c
  }

  /** The names the joined secondary columns take, in order, after the accumulated table's own. */
  function JoinedColumns(cols: seq<string>, baseColumns: seq<string>, category: string): seq<string>
  {
    if cols == [] then []
    else
      var init, c := cols[..|cols| - 1], cols[|cols| - 1];
      if c == PlayerKey then JoinedColumns(init, baseColumns, category)
      else JoinedColumns(init, baseColumns, category) + [JoinedName(c, baseColumns, category)]
  }

  /** The cells a matching secondary row `m` brings, under their joined names. */
  function JoinPart(m: Record, cols: seq<string>, baseColumns: seq<string>, category: string): Record
  {
    if cols == [] then map[]
    else
      var init, c := cols[..|cols| - 1], cols[|cols| - 1];
      var part := JoinPart(m, init, baseColumns, category);
      if c != PlayerKey && c in m then part[JoinedName(c, baseColumns, category) := m[c]] else part
  }

  /** A base row joined with one matching secondary row; the base row's own cells always win. */
  function Extend(b: Record, m: Record, cols: seq<string>, baseColumns: seq<string>, category: string): Record
  {
    JoinPart(m, cols, baseColumns, category) + b
  }

  /** The secondary rows whose player equals `key`, in order. */
  function Matches(key: Option<string>, right: seq<Record>): seq<Record>
  {
    if right == [] then []
    else (if PlayerOf(right[0]) == key then [right[0]] else []) + Matches(key, right[1..])
  }

  /** The rows one base row turns into: one per match, or itself alone when nothing matches. */
  function JoinRow(b: Record, right: seq<Record>, cols: seq<string>, baseColumns: seq<string>, category: string): seq<Record>
  {
    var ms := Matches(PlayerOf(b), right);
    if ms == [] then [b]
    else seq(|ms|, i requires 0 <= i < |ms| => Extend(b, ms[i], cols, baseColumns, category))
  }

  /** `pd.merge(base, right, on="player", how="left")` over rows, base order first. */
  function LeftJoinRows(base: seq<Record>, right: seq<Record>, cols: seq<string>, baseColumns: seq<string>, category: string): seq<Record>
  {
    if base == [] then []
    else JoinRow(base[0], right, cols, baseColumns, category) + LeftJoinRows(base[1..], right, cols, baseColumns, category)
  }

  /** Left join of the projected secondary table `sub` onto `final`, with the `_<category>_dup` suffix on clashes. */
  function LeftJoin(final: Table, sub: Table, category: string): Table
  {
    Table(final.columns + JoinedColumns(sub.columns, final.columns, category),
          LeftJoinRows(final.rows, sub.rows, sub.columns, final.columns, category))
  }

  function ProjectRows(rows: seq<Record>, cols: seq<string>): (p: seq<Record>)
    ensures |p| == |rows|
    ensures forall i :: 0 <= i < |rows| ==> p[i] == Project(rows[i], cols)
  {
    seq(|rows|, i requires 0 <= i < |rows| => Project(rows[i], cols))
  }

  /** One round of the merge loop (b1.py:144-159). */
  function MergeStep(final: Table, category: string, t: Table): Table
  {
    if category == PrimaryCategory || IsEmptyFrame(t) || PlayerKey !in t.columns then final
    else
      var cols := FirstOccurrences([PlayerKey] + Filter(t.columns, Contributed));
      LeftJoin(final, Table(cols, ProjectRows(t.rows, cols)), category)
  }

  /** The merge loop's result after the given category tables, in order. */
  function MergeSpec(standard: Table, tables: seq<(string, Table)>): Table
  {
    if tables == [] then standard
    else
      var last := tables[|tables| - 1];
      MergeStep(MergeSpec(standard, tables[..|tables| - 1]), last.0, last.1)
  }

  /** The merge loop over the extracted category tables (b1.py:143-159). */
  method MergeCategories(standard: Table, tables: seq<(string, Table)>) returns (merged: Table)
    ensures merged == MergeSpec(standard, tables)
  {
    merged := standard;
    for i := 0 to |tables|
      invariant merged == MergeSpec(standard, tables[..i])
    {
      assert tables[..i + 1][..i] == tables[..i];
      var (category, t) := tables[i];
      if category == PrimaryCategory {
        continue;
      }
      if IsEmptyFrame(t) {
        continue;
      }
      if PlayerKey !in t.columns {
        continue;
      }
      var cols := ColumnsToBring(t.columns);
      var subset := Table(cols, ProjectRows(t.rows, cols));
      merged := LeftJoin(merged, subset, category);
    }
    assert tables[..|tables|] == tables;
  }

  /** Every cell of `b` is in `r` with the same value. */
  ghost predicate Extends(r: Record, b: Record)
  {
    forall k :: k in b ==> k in r && r[k] == b[k]
  }

  /** `r` has the player key and an identity field exactly when `b` does. */
  ghost predicate KeepsOwned(r: Record, b: Record)
  {
    forall k :: OwnedByPrimary(k) ==> (k in r <==> k in b)
  }

  /** A suffixed duplicate never takes the name of the player key or of an identity field. */
  lemma DupNameNotOwned(c: string, category: string)
    ensures !OwnedByPrimary(DupName(c, category))
  {
    var d := DupName(c, category);
    assert d[|d| - 1] == 'p';
  }

  lemma {:induction false} JoinPartKeys(m: Record, cols: seq<string>, baseColumns: seq<string>, category: string)
    ensures forall k :: k in JoinPart(m, cols, baseColumns, category) ==>
      exists c :: c in cols && c != PlayerKey && k == JoinedName(c, baseColumns, category)
  {
    if cols != [] {
      var init := cols[..|cols| - 1];
      JoinPartKeys(m, init, baseColumns, category);
      forall k | k in JoinPart(m, cols, baseColumns, category)
        ensures exists c :: c in cols && c != PlayerKey && k == JoinedName(c, baseColumns, category)
      {
        if k in JoinPart(m, init, baseColumns, category) {
          var c :| c in init && c != PlayerKey && k == JoinedName(c, baseColumns, category);
          assert c in cols;
        } else {
          assert cols[|cols| - 1] in cols;
        }
      }
    }
  }

  /**
   * Joining never overwrites the base row: all its cells survive, and the
   * player key and identity fields are present exactly where the base row
   * has them.
   */
  lemma ExtendKeepsBase(b: Record, m: Record, cols: seq<string>, baseColumns: seq<string>, category: string)
    requires forall c :: c in cols ==> !IsIdentity(c)
    ensures Extends(Extend(b, m, cols, baseColumns, category), b)
    ensures KeepsOwned(Extend(b, m, cols, baseColumns, category), b)
  {
    var part := JoinPart(m, cols, baseColumns, category);
    JoinPartKeys(m, cols, baseColumns, category);
    forall k | k in part ensures !OwnedByPrimary(k) {
      var c :| c in cols && c != PlayerKey && k == JoinedName(c, baseColumns, category);
      DupNameNotOwned(c, category);
    }
  }

  /**
   * A secondary column that is new to the accumulated table arrives under
   * its own name with the matching secondary row's value.
   */
  lemma {:induction false} JoinPartValue(m: Record, cols: seq<string>, baseColumns: seq<string>, category: string, c: string)
    requires c in cols && c != PlayerKey && c in m && c !in baseColumns
    requires forall d :: d in cols ==> DupName(d, category) != c
    ensures c in JoinPart(m, cols, baseColumns, category)
    ensures JoinPart(m, cols, baseColumns, category)[c] == m[c]
  {
    var init, last := cols[..|cols| - 1], cols[|cols| - 1];
    assert cols == init + [last];
    if last != c {
      assert c in init;
      JoinPartValue(m, init, baseColumns, category, c);
      assert JoinedName(last, baseColumns, category) != c;
    }
  }

  lemma ExtendBringsNewColumn(b: Record, m: Record, cols: seq<string>, baseColumns: seq<string>, category: string, c: string)
    requires c in cols && c != PlayerKey && c in m && c !in baseColumns && c !in b
    requires forall d :: d in cols ==> DupName(d, category) != c
    ensures c in Extend(b, m, cols, baseColumns, category)
    ensures Extend(b, m, cols, baseColumns, category)[c] == m[c]
  {
    JoinPartValue(m, cols, baseColumns, category, c);
  }

  lemma {:induction false} MatchesHaveKey(key: Option<string>, right: seq<Record>)
    ensures forall x :: x in Matches(key, right) ==> x in right && PlayerOf(x) == key
  {
    if right != [] {
      MatchesHaveKey(key, right[1..]);
    }
  }

  lemma {:induction false} NoMatches(key: Option<string>, right: seq<Record>)
    requires forall x :: x in right ==> PlayerOf(x) != key
    ensures Matches(key, right) == []
  {
    if right != [] {
      assert right[0] in right;
      NoMatches(key, right[1..]);
    }
  }

  /** Every secondary row with the key is among the matches. */
  lemma {:induction false} MatchesComplete(key: Option<string>, right: seq<Record>, m: Record)
    requires m in right && PlayerOf(m) == key
    ensures m in Matches(key, right)
  {
    if right[0] != m {
      assert m in right[1..];
      MatchesComplete(key, right[1..], m);
    }
  }

  /** With unique secondary players, a base row has at most one match. */
  lemma {:induction false} MatchesAtMostOne(key: Option<string>, right: seq<Record>)
    requires UniquePlayers(right)
    ensures |Matches(key, right)| <= 1
  {
    if right != [] {
      var rest := right[1..];
      if PlayerOf(right[0]) == key {
        forall x | x in rest ensures PlayerOf(x) != key {
          var j :| 0 <= j < |rest| && rest[j] == x;
          assert right[j + 1] == x;
        }
        NoMatches(key, rest);
      } else {
        MatchesAtMostOne(key, rest);
      }
    }
  }

  /** Every joined row extends one base row and takes no identity field from elsewhere. */
  lemma {:induction false} LeftJoinRowsFromBase(base: seq<Record>, right: seq<Record>, cols: seq<string>, baseColumns: seq<string>, category: string)
    requires forall c :: c in cols ==> !IsIdentity(c)
    ensures forall r :: r in LeftJoinRows(base, right, cols, baseColumns, category) ==>
      exists b :: b in base && Extends(r, b) && KeepsOwned(r, b)
  {
    if base != [] {
      LeftJoinRowsFromBase(base[1..], right, cols, baseColumns, category);
      var b := base[0];
      forall r | r in JoinRow(b, right, cols, baseColumns, category)
        ensures Extends(r, b) && KeepsOwned(r, b)
      {
        var ms := Matches(PlayerOf(b), right);
        if ms != [] {
          var i :| 0 <= i < |ms| && r == Extend(b, ms[i], cols, baseColumns, category);
          ExtendKeepsBase(b, ms[i], cols, baseColumns, category);
        }
      }
      forall r | r in LeftJoinRows(base, right, cols, baseColumns, category)
        ensures exists b :: b in base && Extends(r, b) && KeepsOwned(r, b)
      {
        if r !in JoinRow(b, right, cols, baseColumns, category) {
          assert r in LeftJoinRows(base[1..], right, cols, baseColumns, category);
          var b' :| b' in base[1..] && Extends(r, b') && KeepsOwned(r, b');
        }
      }
    }
  }

  /**
   * The left join keeps every base row: each is extended by some joined
   * row, and a base row without a match is kept unchanged, its new columns
   * missing.
   */
  lemma {:induction false} LeftJoinRowsKeepBase(base: seq<Record>, right: seq<Record>, cols: seq<string>, baseColumns: seq<string>, category: string)
    ensures forall b :: b in base ==>
      exists r :: r in LeftJoinRows(base, right, cols, baseColumns, category) && Extends(r, b)
    ensures forall b :: b in base && Matches(PlayerOf(b), right) == [] ==>
      b in LeftJoinRows(base, right, cols, baseColumns, category)
  {
    if base != [] {
      LeftJoinRowsKeepBase(base[1..], right, cols, baseColumns, category);
      var b := base[0];
      var rows := JoinRow(b, right, cols, baseColumns, category);
      var ms := Matches(PlayerOf(b), right);
      var r := rows[0];
      assert Extends(r, b);
      assert r in LeftJoinRows(base, right, cols, baseColumns, category);
      forall b' | b' in base ensures exists r :: r in LeftJoinRows(base, right, cols, baseColumns, category) && Extends(r, b') {
        if b' != b {
          assert b' in base[1..];
          var r' :| r' in LeftJoinRows(base[1..], right, cols, baseColumns, category) && Extends(r', b');
          assert r' in LeftJoinRows(base, right, cols, baseColumns, category);
        }
      }
    }
  }

  /** A base row joined with each of its matches is a row of the join. */
  lemma {:induction false} LeftJoinRowsMatched(base: seq<Record>, right: seq<Record>, cols: seq<string>, baseColumns: seq<string>, category: string, b: Record, m: Record)
    requires b in base && m in Matches(PlayerOf(b), right)
    ensures Extend(b, m, cols, baseColumns, category) in LeftJoinRows(base, right, cols, baseColumns, category)
  {
    if base[0] == b {
      var ms := Matches(PlayerOf(b), right);
      var i :| 0 <= i < |ms| && ms[i] == m;
      assert JoinRow(b, right, cols, baseColumns, category)[i] == Extend(b, m, cols, baseColumns, category);
    } else {
      assert b in base[1..];
      LeftJoinRowsMatched(base[1..], right, cols, baseColumns, category, b, m);
    }
  }

  /** With unique secondary players the join neither adds nor removes rows. */
  lemma {:induction false} LeftJoinRowsCount(base: seq<Record>, right: seq<Record>, cols: seq<string>, baseColumns: seq<string>, category: string)
    requires UniquePlayers(right)
    ensures |LeftJoinRows(base, right, cols, baseColumns, category)| == |base|
  {
    if base != [] {
      MatchesAtMostOne(PlayerOf(base[0]), right);
      LeftJoinRowsCount(base[1..], right, cols, baseColumns, category);
    }
  }

  /** What one merge round keeps of the accumulated table. */
  lemma MergeStepKeepsBase(final: Table, category: string, t: Table)
    ensures forall r :: r in MergeStep(final, category, t).rows ==>
      exists b :: b in final.rows && Extends(r, b) && KeepsOwned(r, b)
    ensures forall b :: b in final.rows ==>
      exists r :: r in MergeStep(final, category, t).rows && Extends(r, b)
    ensures UniquePlayers(t.rows) ==> |MergeStep(final, category, t).rows| == |final.rows|
    ensures |MergeStep(final, category, t).columns| >= |final.columns|
    ensures MergeStep(final, category, t).columns[..|final.columns|] == final.columns
  {
    var merged := MergeStep(final, category, t);
    if merged == final {
      forall r | r in final.rows ensures Extends(r, r) && KeepsOwned(r, r) {}
    } else {
      var cols := FirstOccurrences([PlayerKey] + Filter(t.columns, Contributed));
      var right := ProjectRows(t.rows, cols);
      BroughtColumns(t);
      assert forall c :: c in cols ==> !IsIdentity(c);
      LeftJoinRowsFromBase(final.rows, right, cols, final.columns, category);
      LeftJoinRowsKeepBase(final.rows, right, cols, final.columns, category);
      if UniquePlayers(t.rows) {
        assert PlayerKey in cols;
        assert forall i :: 0 <= i < |right| ==> PlayerOf(right[i]) == PlayerOf(t.rows[i]);
        LeftJoinRowsCount(final.rows, right, cols, final.columns, category);
      }
    }
  }

  /** The columns a round brings: the player key, and no identity field. */
  lemma BroughtColumns(t: Table)
    ensures PlayerKey in FirstOccurrences([PlayerKey] + Filter(t.columns, Contributed))
    ensures forall c :: c in FirstOccurrences([PlayerKey] + Filter(t.columns, Contributed)) ==>
      c == PlayerKey || (c in t.columns && !OwnedByPrimary(c))
  {
    ContributedColumns(t.columns);
  }

  /**
   * In the join, a base row whose player matches the secondary row `m` gains
   * each column of `m` that is new to the accumulated table, with `m`'s value.
   */
  lemma LeftJoinBringsValues(base: seq<Record>, right: seq<Record>, cols: seq<string>, baseColumns: seq<string>, category: string, b: Record, m: Record, c: string)
    requires b in base && m in right && PlayerOf(m) == PlayerOf(b)
    requires c in cols && c != PlayerKey && c in m && c !in baseColumns && c !in b
    requires forall d :: DupName(d, category) != c
    ensures exists r :: r in LeftJoinRows(base, right, cols, baseColumns, category) && Extends(r, b) && c in r && r[c] == m[c]
  {
    MatchesComplete(PlayerOf(b), right, m);
    LeftJoinRowsMatched(base, right, cols, baseColumns, category, b, m);
    ExtendBringsNewColumn(b, m, cols, baseColumns, category, c);
    var r := Extend(b, m, cols, baseColumns, category);
    assert Extends(r, b);
  }

  /**
   * In a round that joins table `t`, a row of the accumulated table whose
   * player matches a row `s` of `t` gains each column of `s` that is new to
   * the table, with the value `s` has there.
   */
  lemma MergeStepBringsValues(final: Table, category: string, t: Table, b: Record, s: Record, c: string)
    requires category != PrimaryCategory && !IsEmptyFrame(t) && PlayerKey in t.columns
    requires b in final.rows && s in t.rows && PlayerOf(s) == PlayerOf(b)
    requires c in t.columns && !OwnedByPrimary(c) && c in s && c !in final.columns && c !in b
    requires forall d :: DupName(d, category) != c
    ensures exists r :: r in MergeStep(final, category, t).rows && Extends(r, b) && c in r && r[c] == s[c]
  {
    var cols := FirstOccurrences([PlayerKey] + Filter(t.columns, Contributed));
    var right := ProjectRows(t.rows, cols);
    BroughtColumns(t);
    ContributedColumns(t.columns);
    assert c in cols;
    var m := Project(s, cols);
    var j :| 0 <= j < |t.rows| && t.rows[j] == s;
    assert right[j] == m;
    LeftJoinBringsValues(final.rows, right, cols, final.columns, category, b, m, c);
  }

  /** One more table is one more round. */
  lemma MergeSpecStep(standard: Table, tables: seq<(string, Table)>, i: nat)
    requires i < |tables|
    ensures MergeSpec(standard, tables[..i + 1]) == MergeStep(MergeSpec(standard, tables[..i]), tables[i].0, tables[i].1)
  {
    assert tables[..i + 1][..i] == tables[..i];
  }

  /** Merging the tables of `a` and then those of `b` is merging the tables of `a + b`. */
  lemma {:induction false} MergeSpecSplit(standard: Table, a: seq<(string, Table)>, b: seq<(string, Table)>)
    ensures MergeSpec(standard, a + b) == MergeSpec(MergeSpec(standard, a), b)
  {
    if b == [] {
      assert a + b == a;
    } else {
      var init := b[..|b| - 1];
      assert (a + b)[..|a + b| - 1] == a + init;
      MergeSpecSplit(standard, a, init);
    }
  }

  /** Each row of `c` extends a row of `b` that extends a row of `a`: then it extends that row of `a`. */
  lemma ExtendsCompose(a: seq<Record>, b: seq<Record>, c: seq<Record>)
    requires forall r :: r in c ==> exists m :: m in b && Extends(r, m) && KeepsOwned(r, m)
    requires forall m :: m in b ==> exists x :: x in a && Extends(m, x) && KeepsOwned(m, x)
    ensures forall r :: r in c ==> exists x :: x in a && Extends(r, x) && KeepsOwned(r, x)
  {
    forall r | r in c ensures exists x :: x in a && Extends(r, x) && KeepsOwned(r, x) {
      var m :| m in b && Extends(r, m) && KeepsOwned(r, m);
      var x :| x in a && Extends(m, x) && KeepsOwned(m, x);
      assert Extends(r, x) && KeepsOwned(r, x);
    }
  }

  /** Each row of `a` is extended by a row of `b`, which is extended by a row of `c`. */
  lemma ExtendedCompose(a: seq<Record>, b: seq<Record>, c: seq<Record>)
    requires forall x :: x in a ==> exists m :: m in b && Extends(m, x)
    requires forall m :: m in b ==> exists r :: r in c && Extends(r, m)
    ensures forall x :: x in a ==> exists r :: r in c && Extends(r, x)
  {
    forall x | x in a ensures exists r :: r in c && Extends(r, x) {
      var m :| m in b && Extends(m, x);
      var r :| r in c && Extends(r, m);
      assert Extends(r, x);
    }
  }

  /**
   * Merging never overwrites the primary data: every merged row carries all
   * cells of one `standard` row, and its player key and identity fields are
   * exactly those of that row.
   */
  lemma {:induction false} MergedRowsExtendStandard(standard: Table, tables: seq<(string, Table)>)
    ensures forall r :: r in MergeSpec(standard, tables).rows ==>
      exists b :: b in standard.rows && Extends(r, b) && KeepsOwned(r, b)
  {
    if tables == [] {
      forall r | r in standard.rows ensures Extends(r, r) && KeepsOwned(r, r) {}
    } else {
      var init, last := tables[..|tables| - 1], tables[|tables| - 1];
      var before := MergeSpec(standard, init);
      MergedRowsExtendStandard(standard, init);
      MergeStepKeepsBase(before, last.0, last.1);
      ExtendsCompose(standard.rows, before.rows, MergeStep(before, last.0, last.1).rows);
    }
  }

  /** Every `standard` row survives the merge, extended by the other categories' columns. */
  lemma {:induction false} MergeKeepsStandardRows(standard: Table, tables: seq<(string, Table)>)
    ensures forall b :: b in standard.rows ==>
      exists r :: r in MergeSpec(standard, tables).rows && Extends(r, b)
  {
    if tables == [] {
      forall b | b in standard.rows ensures Extends(b, b) {}
    } else {
      var init, last := tables[..|tables| - 1], tables[|tables| - 1];
      var before := MergeSpec(standard, init);
      MergeKeepsStandardRows(standard, init);
      MergeStepKeepsBase(before, last.0, last.1);
      ExtendedCompose(standard.rows, before.rows, MergeStep(before, last.0, last.1).rows);
    }
  }

  /**
   * The values a round brings survive the later rounds: after all tables,
   * some row extends the matched row and has the secondary value in `c`.
   */
  lemma MergeBringsValues(standard: Table, tables: seq<(string, Table)>, i: nat, b: Record, s: Record, c: string)
    requires i < |tables|
    requires tables[i].0 != PrimaryCategory && !IsEmptyFrame(tables[i].1) && PlayerKey in tables[i].1.columns
    requires b in MergeSpec(standard, tables[..i]).rows && s in tables[i].1.rows && PlayerOf(s) == PlayerOf(b)
    requires c in tables[i].1.columns && !OwnedByPrimary(c) && c in s
    requires c !in MergeSpec(standard, tables[..i]).columns && c !in b
    requires forall d :: DupName(d, tables[i].0) != c
    ensures exists r :: r in MergeSpec(standard, tables).rows && Extends(r, b) && c in r && r[c] == s[c]
  {
    var before := MergeSpec(standard, tables[..i]);
    var after := MergeSpec(standard, tables[..i + 1]);
    MergeSpecStep(standard, tables, i);
    MergeStepBringsValues(before, tables[i].0, tables[i].1, b, s, c);
    var r :| r in after.rows && Extends(r, b) && c in r && r[c] == s[c];
    LaterRoundsKeepRow(standard, tables, i + 1, r);
    var r' :| r' in MergeSpec(standard, tables).rows && Extends(r', r);
    assert Extends(r', b);
  }

  /** A row after the first `k` rounds is extended by a row of the final table. */
  lemma LaterRoundsKeepRow(standard: Table, tables: seq<(string, Table)>, k: nat, r: Record)
    requires k <= |tables| && r in MergeSpec(standard, tables[..k]).rows
    ensures exists r' :: r' in MergeSpec(standard, tables).rows && Extends(r', r)
  {
    var mid := MergeSpec(standard, tables[..k]);
    assert tables == tables[..k] + tables[k..];
    MergeSpecSplit(standard, tables[..k], tables[k..]);
    MergeKeepsStandardRows(mid, tables[k..]);
  }

  /** When no category lists a player twice, the merge has exactly one row per `standard` row. */
  lemma {:induction false} MergeRowCount(standard: Table, tables: seq<(string, Table)>)
    requires forall i :: 0 <= i < |tables| ==> UniquePlayers(tables[i].1.rows)
    ensures |MergeSpec(standard, tables).rows| == |standard.rows|
  {
    if tables != [] {
      var init, last := tables[..|tables| - 1], tables[|tables| - 1];
      MergeRowCount(standard, init);
      MergeStepKeepsBase(MergeSpec(standard, init), last.0, last.1);
    }
  }

  /** The merged table's columns start with the `standard` table's columns, in their order. */
  lemma {:induction false} MergedColumnsStartWithStandard(standard: Table, tables: seq<(string, Table)>)
    ensures |MergeSpec(standard, tables).columns| >= |standard.columns|
    ensures MergeSpec(standard, tables).columns[..|standard.columns|] == standard.columns
  {
    if tables != [] {
      var init, last := tables[..|tables| - 1], tables[|tables| - 1];
      var before := MergeSpec(standard, init);
      MergedColumnsStartWithStandard(standard, init);
      MergeStepKeepsBase(before, last.0, last.1);
      var after := MergeSpec(standard, tables);
      assert after.columns[..|standard.columns|] == after.columns[..|before.columns|][..|standard.columns|];
    }
  }
}
