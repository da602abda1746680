/**
 * The 75 display names of the field dictionary are pairwise distinct, so
 * the output column order loop (b1.py:202-208) keeps all of them, in
 * declaration order.
 */
module ColumnNames {
  import opened Frames
  import opened ColumnMap

  /*
   * The proof is a certificate: `SortedNames` lists the names ordered by a
   * short signature, `Rank` and `Unrank` are the permutation between the two
   * orders, and the signatures of consecutive sorted names strictly
   * increase. Each fact about the literals is checked a slice at a time.
   */

  type Signature = (nat, char, char, char, char)

  /** The length of `s` and four of its characters. */
  function SignatureOf(s: string): Signature
  {
    if |s| < 3 then (|s|, ' ', ' ', ' ', ' ')
    else (|s|, s[0], s[|s| - 1], s[|s| - 3], s[|s| / 2 + 1])
  }

  /** Lexicographic order on signatures. */
  predicate Precedes(a: Signature, b: Signature)
  {
    || a.0 < b.0
    || (a.0 == b.0 && a.1 < b.1)
    || (a.0 == b.0 && a.1 == b.1 && a.2 < b.2)
    || (a.0 == b.0 && a.1 == b.1 && a.2 == b.2 && a.3 < b.3)
    || (a.0 == b.0 && a.1 == b.1 && a.2 == b.2 && a.3 == b.3 && a.4 < b.4)
  }

  const SortedNames: seq<string> :=
    [
      "Age", "GCA", "SCA", "GCA90", "Goals",
      "SCA90", "Squad", "Nation", "Player", "Starts",
      "Assists", "Minutes", "Position", "Red cards", "Blocks: Sh"
    ]
    + [
      "Long: Cmp%", "Per 90: xG", "Total: Cmp", "Blocks: Int", "Per 90: xGA",
      "Per 90: Gls", "Per 90: Ast", "Short: Cmp%", "Total: Cmp%", "Aerials: Won",
      "Blocks: Pass", "Carries: 1/3", "Carries: CPA", "Carries: Dis", "Carries: Mis"
    ]
    + [
      "Expected: xG", "Expected: KP", "Medium: Cmp%", "Tackles: Tkl", "TakeOns: Att",
      "Yellow cards", "Aerials: Won%", "Aerials: Lost", "Expected: 1/3", "Expected: PPA",
      "Expected: xAG", "Tackles: TklW", "Blocks: Blocks", "Matches played", "Receiving: Rec"
    ]
    + [
      "Standard: SoT%", "Standard: G/Sh", "Standard: Dist", "TakeOns: Succ%", "TakeOns: Tkld%",
      "Total: TotDist", "Challenges: Att", "Expected: CrsPA", "Touches Att 3rd", "Touches Att Pen",
      "Carries: Carries", "Carries: PrgDist", "Challenges: Lost", "Performance: CS%", "Performance: Fld"
    ]
    + [
      "Performance: Off", "Performance: Crs", "Performance: Fls", "Standard: SoT/90", "Touches: Def 3rd",
      "Touches: Mid 3rd", "Touches: Def Pen", "Touches: Touches", "Performance: GA90", "Progression: PrgC",
      "Progression: PrgP", "Progression: PrgR", "Performance: Save%", "Performance: Recov", "Penalty Kicks: Save%"
    ]

  /** `Rank[i]` is the position of display name `i` in `SortedNames`. */
  const Rank: seq<nat> :=
    [
      8, 7, 6, 12, 0, 11, 43, 9, 4, 10, 35, 13, 30, 40, 69
    ]
    + [
      70, 71, 20, 21, 16, 19, 68, 72, 58, 74, 45, 63, 46, 47, 17
    ]
    + [
      23, 50, 22, 32, 15, 31, 38, 39, 52, 2, 5, 1, 3, 33, 41
    ]
    + [
      51, 57, 42, 14, 25, 18, 67, 66, 64, 65, 53, 54, 34, 48, 49
    ]
    + [
      55, 56, 26, 27, 29, 28, 44, 62, 59, 60, 61, 73, 24, 37, 36
    ]

  /** `Unrank[r]` is the display name at sorted position `r`. */
  const Unrank: seq<nat> :=
    [
      4, 41, 39, 42, 8, 40, 2, 1, 0, 7, 9, 5, 3, 11, 48
    ]
    + [
      34, 19, 29, 50, 20, 17, 18, 32, 30, 72, 49, 62, 63, 65, 64
    ]
    + [
      12, 35, 33, 43, 57, 10, 74, 73, 36, 37, 13, 44, 47, 6, 66
    ]
    + [
      25, 27, 28, 58, 59, 31, 45, 38, 55, 56, 60, 61, 46, 23, 68
    ]
    + [
      69, 70, 67, 26, 53, 54, 52, 51, 21, 14, 15, 16, 22, 71, 24
    ]













  lemma RankInverse0()
    ensures forall i :: 0 <= i < 15 ==> Rank[i] < |Unrank| && Unrank[Rank[i]] == i
  {
  }

  lemma RankInverse15()
    ensures forall i :: 15 <= i < 30 ==> Rank[i] < |Unrank| && Unrank[Rank[i]] == i
  {
  }

  lemma RankInverse30()
    ensures forall i :: 30 <= i < 45 ==> Rank[i] < |Unrank| && Unrank[Rank[i]] == i
  {
  }

  lemma RankInverse45()
    ensures forall i :: 45 <= i < 60 ==> Rank[i] < |Unrank| && Unrank[Rank[i]] == i
  {
  }

  lemma RankInverse60()
    ensures forall i :: 60 <= i < 75 ==> Rank[i] < |Unrank| && Unrank[Rank[i]] == i
  {
  }

  lemma SortedSlice0()
    ensures forall r :: 0 <= r < 8 ==> Unrank[r] < |Entries| && SortedNames[r] == Entries[Unrank[r]].1
  {
  }

  lemma SortedSlice8()
    ensures forall r :: 8 <= r < 15 ==> Unrank[r] < |Entries| && SortedNames[r] == Entries[Unrank[r]].1
  {
  }

  lemma SortedSlice15()
    ensures forall r :: 15 <= r < 23 ==> Unrank[r] < |Entries| && SortedNames[r] == Entries[Unrank[r]].1
  {
  }

  lemma SortedSlice23()
    ensures forall r :: 23 <= r < 30 ==> Unrank[r] < |Entries| && SortedNames[r] == Entries[Unrank[r]].1
  {
  }

  lemma SortedSlice30()
    ensures forall r :: 30 <= r < 38 ==> Unrank[r] < |Entries| && SortedNames[r] == Entries[Unrank[r]].1
  {
  }

  lemma SortedSlice38()
    ensures forall r :: 38 <= r < 45 ==> Unrank[r] < |Entries| && SortedNames[r] == Entries[Unrank[r]].1
  {
  }

  lemma SortedSlice45()
    ensures forall r :: 45 <= r < 53 ==> Unrank[r] < |Entries| && SortedNames[r] == Entries[Unrank[r]].1
  {
  }

  lemma SortedSlice53()
    ensures forall r :: 53 <= r < 60 ==> Unrank[r] < |Entries| && SortedNames[r] == Entries[Unrank[r]].1
  {
  }

  lemma SortedSlice60()
    ensures forall r :: 60 <= r < 68 ==> Unrank[r] < |Entries| && SortedNames[r] == Entries[Unrank[r]].1
  {
  }

  lemma SortedSlice68()
    ensures forall r :: 68 <= r < 75 ==> Unrank[r] < |Entries| && SortedNames[r] == Entries[Unrank[r]].1
  {
  }

  lemma Ascending0()
    ensures forall r :: 0 <= r < 8 ==> Precedes(SignatureOf(SortedNames[r]), SignatureOf(SortedNames[r + 1]))
  {
  }

  lemma Ascending8()
    ensures forall r :: 8 <= r < 16 ==> Precedes(SignatureOf(SortedNames[r]), SignatureOf(SortedNames[r + 1]))
  {
  }

  lemma Ascending16()
    ensures forall r :: 16 <= r < 24 ==> Precedes(SignatureOf(SortedNames[r]), SignatureOf(SortedNames[r + 1]))
  {
  }

  lemma Ascending24()
    ensures forall r :: 24 <= r < 32 ==> Precedes(SignatureOf(SortedNames[r]), SignatureOf(SortedNames[r + 1]))
  {
  }

  lemma Ascending32()
    ensures forall r :: 32 <= r < 40 ==> Precedes(SignatureOf(SortedNames[r]), SignatureOf(SortedNames[r + 1]))
  {
  }

  lemma Ascending40()
    ensures forall r :: 40 <= r < 48 ==> Precedes(SignatureOf(SortedNames[r]), SignatureOf(SortedNames[r + 1]))
  {
  }

  lemma Ascending48()
    ensures forall r :: 48 <= r < 56 ==> Precedes(SignatureOf(SortedNames[r]), SignatureOf(SortedNames[r + 1]))
  {
  }

  lemma Ascending56()
    ensures forall r :: 56 <= r < 64 ==> Precedes(SignatureOf(SortedNames[r]), SignatureOf(SortedNames[r + 1]))
  {
  }

  lemma Ascending64()
    ensures forall r :: 64 <= r < 72 ==> Precedes(SignatureOf(SortedNames[r]), SignatureOf(SortedNames[r + 1]))
  {
  }

  lemma Ascending72()
    ensures forall r :: 72 <= r < 74 ==> Precedes(SignatureOf(SortedNames[r]), SignatureOf(SortedNames[r + 1]))
  {
  }

  lemma AdjacentAscending()
    ensures forall r :: 0 <= r < |SortedNames| - 1 ==> Precedes(SignatureOf(SortedNames[r]), SignatureOf(SortedNames[r + 1]))
  {
    Ascending0(); Ascending8(); Ascending16(); Ascending24(); Ascending32();
    Ascending40(); Ascending48(); Ascending56(); Ascending64(); Ascending72();
  }

  /** Signatures strictly increase along `SortedNames`. */
  lemma {:induction false} SortedSignaturesAscend(i: nat, j: nat)
    requires i < j < |SortedNames|
    ensures Precedes(SignatureOf(SortedNames[i]), SignatureOf(SortedNames[j]))
    decreases j - i
  {
    AdjacentAscending();
    if i + 1 < j {
      SortedSignaturesAscend(i, j - 1);
    }
  }

  /** Signatures strictly increase along `SortedNames`, between any two positions. */
  lemma SortedSignatures()
    ensures forall r, q :: 0 <= r < q < |SortedNames| ==> Precedes(SignatureOf(SortedNames[r]), SignatureOf(SortedNames[q]))
  {
    forall r, q | 0 <= r < q < |SortedNames|
      ensures Precedes(SignatureOf(SortedNames[r]), SignatureOf(SortedNames[q]))
    {
      SortedSignaturesAscend(r, q);
    }
  }

  /** Display name `i` sits at position `Rank[i]` of `SortedNames`, and `Unrank` undoes `Rank`. */
  lemma SortedCopy()
    ensures forall i :: 0 <= i < |Entries| ==>
      Rank[i] < |SortedNames| && Rank[i] < |Unrank| && Unrank[Rank[i]] == i && SortedNames[Rank[i]] == DisplayNames()[i]
  {
    RankInverse0(); RankInverse15(); RankInverse30(); RankInverse45(); RankInverse60();
    SortedSlice0(); SortedSlice8(); SortedSlice15(); SortedSlice23(); SortedSlice30();
    SortedSlice38(); SortedSlice45(); SortedSlice53(); SortedSlice60(); SortedSlice68();
  }

  /**
   * A list is free of repeats when an injective placement puts it into a
   * list whose signatures strictly increase.
   */
  lemma DistinctBySortedCopy(names: seq<string>, sorted: seq<string>, rank: seq<nat>, unrank: seq<nat>)
    requires |rank| == |names|
    requires forall i :: 0 <= i < |names| ==>
      rank[i] < |sorted| && rank[i] < |unrank| && unrank[rank[i]] == i && sorted[rank[i]] == names[i]
    requires forall r, q :: 0 <= r < q < |sorted| ==> Precedes(SignatureOf(sorted[r]), SignatureOf(sorted[q]))
    ensures NoDuplicates(names)
  {
    forall i, j | 0 <= i < j < |names|
      ensures names[i] != names[j]
    {
      if rank[i] < rank[j] {
        assert Precedes(SignatureOf(sorted[rank[i]]), SignatureOf(sorted[rank[j]]));
      } else {
        assert Precedes(SignatureOf(sorted[rank[j]]), SignatureOf(sorted[rank[i]]));
      }
    }
  }

  /** No two entries of the dictionary share a display name. */
  lemma DisplayNamesDistinct()
    ensures NoDuplicates(DisplayNames())
  {
    SortedCopy();
    SortedSignatures();
    DistinctBySortedCopy(DisplayNames(), SortedNames, Rank, Unrank);
  }
}
