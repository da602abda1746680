/**
 * The data frames the pipeline passes from stage to stage. A row is a map
 * from column name to the cell's text; a missing value (pandas' NaN) is an
 * absent key. The frame's column list is kept separately because a column
 * exists even when every row lacks it (a left join that matched nothing).
 */
module Frames {
  import opened Wrappers

  type Record = map<string, string>

  datatype Table = Table(columns: seq<string>, rows: seq<Record>)

  const EmptyTable := Table([], [])

  /** The identity field every category table is keyed by. */
  const PlayerKey := "player"

  function Get(r: Record, c: string): Option<string>
  {
    if c in r then Some(r[c]) else None
  }

  /** `Get(r, "player")`: missing values compare equal to each other, as NaN keys do in pandas joins. */
  function PlayerOf(r: Record): Option<string>
  {
    Get(r, PlayerKey)
  }

  /** pandas' `DataFrame.empty`: no rows or no columns. */
  predicate IsEmptyFrame(t: Table)
  {
    |t.rows| == 0 || |t.columns| == 0
  }

  /** No two rows share a player key (a missing key counts as one value). */
  predicate UniquePlayers(rows: seq<Record>)
  {
    forall i, j :: 0 <= i < j < |rows| ==> PlayerOf(rows[i]) != PlayerOf(rows[j])
  }

  predicate NoDuplicates(xs: seq<string>)
  {
    forall i, j :: 0 <= i < j < |xs| ==> xs[i] != xs[j]
  }

  /** The position of the first occurrence of `x` in `xs`. */
  function FirstIndex(xs: seq<string>, x: string): (k: nat)
    requires x in xs
    ensures k < |xs| && xs[k] == x && x !in xs[..k]
  {
    var init := xs[..|xs| - 1];
    assert xs == init + [xs[|xs| - 1]];
    if x in init then
      var k := FirstIndex(init, x);
      assert xs[..k] == init[..k];
      k
    else
      assert xs[..|xs| - 1] == init;
      |xs| - 1
  }

  /**
   * The names of `xs` with every repeat after the first occurrence removed:
   * each name once, in the order of its first occurrence.
   */
  function FirstOccurrences(xs: seq<string>): (ys: seq<string>)
    ensures NoDuplicates(ys)
    ensures forall x :: x in ys <==> x in xs
    ensures |xs| > 0 ==> |ys| > 0 && ys[0] == xs[0]
  {
    if xs == [] then []
    else
      var ys := FirstOccurrences(xs[..|xs| - 1]);
      assert xs == xs[..|xs| - 1] + [xs[|xs| - 1]];
      if xs[|xs| - 1] in ys then ys else ys + [xs[|xs| - 1]]
  }

  /** The first occurrences keep the order in which the names first occur in `xs`. */
  lemma {:induction false} FirstOccurrencesOrder(xs: seq<string>)
    ensures forall i, j :: 0 <= i < j < |FirstOccurrences(xs)| ==>
      FirstIndex(xs, FirstOccurrences(xs)[i]) < FirstIndex(xs, FirstOccurrences(xs)[j])
  {
    if xs != [] {
      var init, last := xs[..|xs| - 1], xs[|xs| - 1];
      assert xs == init + [last];
      FirstOccurrencesOrder(init);
      var ys := FirstOccurrences(init);
      forall y | y in ys ensures FirstIndex(xs, y) == FirstIndex(init, y) {
        assert y in init;
      }
    }
  }

  /** A list without repeats is its own first occurrences. */
  lemma {:induction false} FirstOccurrencesOfDistinct(xs: seq<string>)
    requires NoDuplicates(xs)
    ensures FirstOccurrences(xs) == xs
  {
    if xs != [] {
      var init := xs[..|xs| - 1];
      assert xs == init + [xs[|xs| - 1]];
      FirstOccurrencesOfDistinct(init);
    }
  }

  /** A name that does not recur stays in front of the first occurrences of the rest. */
  lemma {:induction false} FirstOccurrencesAfter(x: string, ys: seq<string>)
    requires x !in ys
    ensures FirstOccurrences([x] + ys) == [x] + FirstOccurrences(ys)
  {
    if ys != [] {
      var init := ys[..|ys| - 1];
      assert ys == init + [ys[|ys| - 1]];
      assert [x] + ys == ([x] + init) + [ys[|ys| - 1]];
      FirstOccurrencesAfter(x, init);
    }
  }

  /** The `seen`-set loop the source uses to drop repeated column names (b1.py:154-155, 203-208). */
  method DedupNames(xs: seq<string>) returns (ys: seq<string>)
    ensures ys == FirstOccurrences(xs)
  {
    var seen: set<string> := {};
    ys := [];
    for i := 0 to |xs|
      invariant ys == FirstOccurrences(xs[..i])
      invariant forall x :: x in seen <==> x in ys
    {
      assert xs[..i + 1] == xs[..i] + [xs[i]];
      if xs[i] !in seen {
        ys := ys + [xs[i]];
        seen := seen + {xs[i]};
      }
    }
    assert xs[..|xs|] == xs;
  }
}
