/**
 * Deduplication by player (b1.py:161-169): with a minutes column the rows
 * are sorted by player ascending and minutes descending (missing minutes
 * last) and the first row per player is kept; without one the first
 * occurrence of each player is kept.
 */
module Dedup {
  import opened Wrappers
  import opened Text
  import opened Frames
  import opened Sorting
  import opened Numbers

  const MinutesKey := "minutes"

  /** A row's minutes as the dedup sort reads them. */
  function MinutesOf(r: Record): Option<nat>
  {
    ParseMinutes(Get(r, MinutesKey))
  }

  /** Minutes `a` rank no higher than `b`; a missing value ranks below every number. */
  predicate RankLe(a: Option<nat>, b: Option<nat>)
  {
    match a
    case None => true
    case Some(x) => b.Some? && x <= b.value
  }

  /** Ascending player order, missing last; meant for two different keys. */
  predicate PlayerBefore(a: Option<string>, b: Option<string>)
  {
    match a
    case None => false
    case Some(x) => b.None? || StrLt(x, b.value)
  }

  /** Descending minutes, missing last; meant for two different values. */
  predicate MinutesBefore(a: Option<nat>, b: Option<nat>)
  {
    match a
    case None => false
    case Some(x) => b.None? || x > b.value
  }

  /**
   * The order of `sort_values(['player', minutes], ascending=[True, False])`
   * on rows paired with their position; pandas' multi-key sort is stable,
   * which the position as last key expresses.
   */
  predicate DedupLe(a: (nat, Record), b: (nat, Record))
  {
    var pa, pb := PlayerOf(a.1), PlayerOf(b.1);
    if pa != pb then PlayerBefore(pa, pb)
    else
      var ma, mb := MinutesOf(a.1), MinutesOf(b.1);
      if ma != mb then MinutesBefore(ma, mb) else a.0 <= b.0
  }

  function PairPlayer(p: (nat, Record)): Option<string>
  {
    PlayerOf(p.1)
  }

  lemma PlayerBeforeTotal(a: Option<string>, b: Option<string>)
    requires a != b
    ensures PlayerBefore(a, b) || PlayerBefore(b, a)
  {
    if a.Some? && b.Some? {
      StrLtTotal(a.value, b.value);
    }
  }

  lemma PlayerBeforeTransitive(a: Option<string>, b: Option<string>, c: Option<string>)
    requires PlayerBefore(a, b) && PlayerBefore(b, c)
    ensures PlayerBefore(a, c)
  {
    if c.Some? {
      StrLtTransitive(a.value, b.value, c.value);
    }
  }

  lemma PlayerBeforeAsymmetric(a: Option<string>, b: Option<string>)
    requires PlayerBefore(a, b)
    ensures !PlayerBefore(b, a) && a != b
  {
    if b.Some? {
      StrLtAsymmetric(a.value, b.value);
      StrLtIrreflexive(a.value);
    }
  }

  lemma DedupLeTransitive(a: (nat, Record), b: (nat, Record), c: (nat, Record))
    requires DedupLe(a, b) && DedupLe(b, c)
    ensures DedupLe(a, c)
  {
    var pa, pb, pc := PlayerOf(a.1), PlayerOf(b.1), PlayerOf(c.1);
    if pa != pb && pb != pc {
      PlayerBeforeTransitive(pa, pb, pc);
      PlayerBeforeAsymmetric(pa, pc);
    } else if pa != pb {
      assert pb == pc;
    } else if pb != pc {
      assert pa == pb;
    }
  }

  lemma DedupLeTotalPreorder()
    ensures TotalPreorder(DedupLe)
  {
    forall a, b ensures DedupLe(a, b) || DedupLe(b, a) {
      if PlayerOf(a.1) != PlayerOf(b.1) {
        PlayerBeforeTotal(PlayerOf(a.1), PlayerOf(b.1));
      }
    }
    forall a, b, c | DedupLe(a, b) && DedupLe(b, c) ensures DedupLe(a, c) {
      DedupLeTransitive(a, b, c);
    }
  }

  /** Each row paired with its position in the frame (the frame's index). */
  function Indexed(rows: seq<Record>): (p: seq<(nat, Record)>)
    ensures |p| == |rows|
    ensures forall i :: 0 <= i < |rows| ==> p[i] == (i, rows[i])
  {
    seq(|rows|, i requires 0 <= i < |rows| => (i, rows[i]))
  }

  /** The sort-then-`drop_duplicates` of b1.py:165-166 over the frame's rows. */
  function SortedForDedup(rows: seq<Record>): (s: seq<(nat, Record)>)
    ensures Sorted(s, DedupLe)
    ensures multiset(s) == multiset(Indexed(rows))
  {
    DedupLeTotalPreorder();
    InsertionSort(Indexed(rows), DedupLe)
  }

  function MaxMinutesRows(rows: seq<Record>): seq<Record>
  {
    var kept := KeepFirst(SortedForDedup(rows), PairPlayer);
    seq(|kept|, i requires 0 <= i < |kept| => kept[i].1)
  }

  /** The frame after the dedup step. */
  function DropDuplicatePlayers(t: Table): Table
  {
    if MinutesKey in t.columns && PlayerKey in t.columns then Table(t.columns, MaxMinutesRows(t.rows))
    else if PlayerKey in t.columns then Table(t.columns, KeepFirst(t.rows, PlayerOf))
    else t
  }

  /**
   * Row `i` is the one the dedup keeps for its player: no row of that
   * player has more minutes, and no earlier row has as many.
   */
  ghost predicate BestForPlayer(rows: seq<Record>, i: int)
    requires 0 <= i < |rows|
  {
    forall j :: 0 <= j < |rows| && PlayerOf(rows[j]) == PlayerOf(rows[i]) ==>
      RankLe(MinutesOf(rows[j]), MinutesOf(rows[i])) && (MinutesOf(rows[j]) == MinutesOf(rows[i]) ==> i <= j)
  }

  lemma InSortedForDedup(rows: seq<Record>, j: nat)
    requires j < |rows|
    ensures exists q :: 0 <= q < |SortedForDedup(rows)| && SortedForDedup(rows)[q] == (j, rows[j])
  {
    var s := SortedForDedup(rows);
    assert Indexed(rows)[j] == (j, rows[j]);
    assert (j, rows[j]) in multiset(s);
  }

  /** Between two rows of one player, the order puts more minutes first, then the earlier row. */
  lemma SamePlayerOrder(a: (nat, Record), b: (nat, Record))
    requires DedupLe(a, b) && PlayerOf(a.1) == PlayerOf(b.1)
    ensures RankLe(MinutesOf(b.1), MinutesOf(a.1))
    ensures MinutesOf(b.1) == MinutesOf(a.1) ==> a.0 <= b.0
  {
  }

  /** An element at position `n` of the sorted pairs with no earlier same-player pair is its player's best row. */
  lemma FirstOfPlayerIsBest(rows: seq<Record>, n: nat)
    requires n < |SortedForDedup(rows)|
    requires !SeenBefore(SortedForDedup(rows), n, PairPlayer)
    ensures SortedForDedup(rows)[n].0 < |rows|
    ensures rows[SortedForDedup(rows)[n].0] == SortedForDedup(rows)[n].1
    ensures BestForPlayer(rows, SortedForDedup(rows)[n].0)
  {
    var s := SortedForDedup(rows);
    assert s[n] in multiset(Indexed(rows));
    var i :| 0 <= i < |rows| && Indexed(rows)[i] == s[n];
    assert s[n] == (i, rows[i]);
    forall j | 0 <= j < |rows| && PlayerOf(rows[j]) == PlayerOf(rows[i])
      ensures RankLe(MinutesOf(rows[j]), MinutesOf(rows[i])) && (MinutesOf(rows[j]) == MinutesOf(rows[i]) ==> i <= j)
    {
      InSortedForDedup(rows, j);
      var q :| 0 <= q < |s| && s[q] == (j, rows[j]);
      if q < n {
        assert false;
      } else if q == n {
        assert j == i;
      } else {
        assert DedupLe(s[n], s[q]);
        SamePlayerOrder(s[n], s[q]);
      }
    }
  }

  /** Every player of `rows` has a row in `kept`. */
  ghost predicate CoversPlayers(rows: seq<Record>, kept: seq<Record>)
  {
    forall j :: 0 <= j < |rows| ==> exists m :: 0 <= m < |kept| && PlayerOf(kept[m]) == PlayerOf(rows[j])
  }

  /** `x` is a row of `rows` that is its player's best row. */
  ghost predicate IsBestRow(rows: seq<Record>, x: Record)
  {
    exists i :: 0 <= i < |rows| && rows[i] == x && BestForPlayer(rows, i)
  }

  /** Every row of `kept` is its player's best row of `rows`. */
  ghost predicate KeepsBest(rows: seq<Record>, kept: seq<Record>)
  {
    forall m :: 0 <= m < |kept| ==> IsBestRow(rows, kept[m])
  }

  /** Row `i` is the first row of its player. */
  ghost predicate FirstOfPlayer(rows: seq<Record>, i: int)
    requires 0 <= i < |rows|
  {
    forall j :: 0 <= j < i ==> PlayerOf(rows[j]) != PlayerOf(rows[i])
  }

  /** `x` is a row of `rows` that is the first row of its player. */
  ghost predicate IsFirstRow(rows: seq<Record>, x: Record)
  {
    exists i :: 0 <= i < |rows| && rows[i] == x && FirstOfPlayer(rows, i)
  }

  /** Every row of `kept` is the first row of its player in `rows`. */
  ghost predicate KeepsFirst(rows: seq<Record>, kept: seq<Record>)
  {
    forall m :: 0 <= m < |kept| ==> IsFirstRow(rows, kept[m])
  }

  /** Under the minutes path every kept row is its player's best row of the input. */
  lemma MaxMinutesRowsAreBest(rows: seq<Record>)
    ensures KeepsBest(rows, MaxMinutesRows(rows))
  {
    var s := SortedForDedup(rows);
    var kept := KeepFirst(s, PairPlayer);
    var r := MaxMinutesRows(rows);
    KeepFirstOrigins(s, PairPlayer);
    forall m | 0 <= m < |r|
      ensures IsBestRow(rows, r[m])
    {
      var n :| 0 <= n < |s| && s[n] == kept[m] && !SeenBefore(s, n, PairPlayer);
      FirstOfPlayerIsBest(rows, n);
      var i := s[n].0;
      assert rows[i] == r[m] && BestForPlayer(rows, i);
    }
  }

  /** Under the minutes path no two kept rows share a player. */
  lemma MaxMinutesRowsUnique(rows: seq<Record>)
    ensures UniquePlayers(MaxMinutesRows(rows))
  {
    var s := SortedForDedup(rows);
    var kept := KeepFirst(s, PairPlayer);
    KeepFirstUnique(s, PairPlayer);
    forall i, j | 0 <= i < j < |MaxMinutesRows(rows)|
      ensures PlayerOf(MaxMinutesRows(rows)[i]) != PlayerOf(MaxMinutesRows(rows)[j])
    {
      assert PairPlayer(kept[i]) != PairPlayer(kept[j]);
    }
  }

  /** Under the minutes path every player of the input keeps a row. */
  lemma MaxMinutesRowsCover(rows: seq<Record>)
    ensures CoversPlayers(rows, MaxMinutesRows(rows))
  {
    var s := SortedForDedup(rows);
    var kept := KeepFirst(s, PairPlayer);
    var r := MaxMinutesRows(rows);
    KeepFirstCovers(s, PairPlayer);
    forall j | 0 <= j < |rows|
      ensures exists m :: 0 <= m < |r| && PlayerOf(r[m]) == PlayerOf(rows[j])
    {
      InSortedForDedup(rows, j);
      var q :| 0 <= q < |s| && s[q] == (j, rows[j]);
      var m :| 0 <= m < |kept| && PairPlayer(kept[m]) == PairPlayer(s[q]);
      assert r[m] == kept[m].1;
    }
  }

  /** Under the player-only path the rows kept are unique per player, cover every player and are first occurrences. */
  lemma FirstOccurrencesKept(rows: seq<Record>)
    ensures UniquePlayers(KeepFirst(rows, PlayerOf))
    ensures CoversPlayers(rows, KeepFirst(rows, PlayerOf))
    ensures KeepsFirst(rows, KeepFirst(rows, PlayerOf))
  {
    var r := KeepFirst(rows, PlayerOf);
    KeepFirstUnique(rows, PlayerOf);
    KeepFirstCovers(rows, PlayerOf);
    KeepFirstOrigins(rows, PlayerOf);
    forall m | 0 <= m < |r|
      ensures IsFirstRow(rows, r[m])
    {
      var n :| 0 <= n < |rows| && rows[n] == r[m] && !SeenBefore(rows, n, PlayerOf);
      assert FirstOfPlayer(rows, n);
    }
  }

  /**
   * The dedup step keeps the columns, leaves one row per player, loses no
   * player, and keeps only input rows: the best-minutes row when there is
   * a minutes column, the first row of the player otherwise.
   */
  lemma DropDuplicatePlayersSpec(t: Table)
    requires PlayerKey in t.columns
    ensures DropDuplicatePlayers(t).columns == t.columns
    ensures UniquePlayers(DropDuplicatePlayers(t).rows)
    ensures CoversPlayers(t.rows, DropDuplicatePlayers(t).rows)
    ensures MinutesKey in t.columns ==> KeepsBest(t.rows, DropDuplicatePlayers(t).rows)
    ensures MinutesKey !in t.columns ==> KeepsFirst(t.rows, DropDuplicatePlayers(t).rows)
  {
    if MinutesKey in t.columns {
      MaxMinutesRowsUnique(t.rows);
      MaxMinutesRowsCover(t.rows);
      MaxMinutesRowsAreBest(t.rows);
    } else {
      FirstOccurrencesKept(t.rows);
    }
  }
}
