/**
 * The field-mapping dictionary (`FBREF_TO_CSV_COLUMN_MAP`): each statistics
 * field the site tags its cells with, paired with the column name the output
 * file uses for it, in declaration order.
 */
module ColumnMap {
  import opened Wrappers

  const Entries: seq<(string, string)> :=
    [
      ("player", "Player"), ("nationality", "Nation"), ("team", "Squad"),
      ("position", "Position"), ("age", "Age"), ("minutes", "Minutes"),
      ("games", "Matches played"), ("games_starts", "Starts"), ("goals", "Goals"),
      ("assists", "Assists"), ("cards_yellow", "Yellow cards"), ("cards_red", "Red cards"),
      ("xg", "Expected: xG"), ("xg_assist", "Expected: xAG"), ("progressive_carries", "Progression: PrgC")
    ]
    + [
      ("progressive_passes", "Progression: PrgP"), ("progressive_passes_received", "Progression: PrgR"), ("goals_per90", "Per 90: Gls"),
      ("assists_per90", "Per 90: Ast"), ("xg_per90", "Per 90: xG"), ("gk_xg_against_per90", "Per 90: xGA"),
      ("gk_goals_against_per90", "Performance: GA90"), ("gk_save_pct", "Performance: Save%"), ("gk_clean_sheets_pct", "Performance: CS%"),
      ("gk_pens_save_pct", "Penalty Kicks: Save%"), ("shots_on_target_pct", "Standard: SoT%"), ("shots_on_target_per90", "Standard: SoT/90"),
      ("goals_per_shot", "Standard: G/Sh"), ("average_shot_distance", "Standard: Dist"), ("passes_completed", "Total: Cmp")
    ]
    + [
      ("passes_pct", "Total: Cmp%"), ("passes_progressive_distance", "Total: TotDist"), ("passes_pct_short", "Short: Cmp%"),
      ("passes_pct_medium", "Medium: Cmp%"), ("passes_pct_long", "Long: Cmp%"), ("assisted_shots", "Expected: KP"),
      ("passes_into_final_third", "Expected: 1/3"), ("passes_into_penalty_area", "Expected: PPA"), ("crosses_into_penalty_area", "Expected: CrsPA"),
      ("sca", "SCA"), ("sca_per90", "SCA90"), ("gca", "GCA"),
      ("gca_per90", "GCA90"), ("tackles", "Tackles: Tkl"), ("tackles_won", "Tackles: TklW")
    ]
    + [
      ("challenges_attempted", "Challenges: Att"), ("challenges_lost", "Challenges: Lost"), ("blocks", "Blocks: Blocks"),
      ("blocked_shots", "Blocks: Sh"), ("blocked_passes", "Blocks: Pass"), ("interceptions", "Blocks: Int"),
      ("touches", "Touches: Touches"), ("touches_def_pen_area", "Touches: Def Pen"), ("touches_def_3rd", "Touches: Def 3rd"),
      ("touches_mid_3rd", "Touches: Mid 3rd"), ("touches_att_3rd", "Touches Att 3rd"), ("touches_att_pen_area", "Touches Att Pen"),
      ("take_ons_attempted", "TakeOns: Att"), ("take_ons_successful_pct", "TakeOns: Succ%"), ("take_ons_tackled_pct", "TakeOns: Tkld%")
    ]
    + [
      ("carries", "Carries: Carries"), ("carries_progressive_distance", "Carries: PrgDist"), ("carries_into_final_third", "Carries: 1/3"),
      ("carries_into_penalty_area", "Carries: CPA"), ("carries_miscontrols", "Carries: Mis"), ("carries_dispossessed", "Carries: Dis"),
      ("passes_received", "Receiving: Rec"), ("fouls", "Performance: Fls"), ("fouled", "Performance: Fld"),
      ("offsides", "Performance: Off"), ("crosses", "Performance: Crs"), ("ball_recoveries", "Performance: Recov"),
      ("aerials_won", "Aerials: Won"), ("aerials_lost", "Aerials: Lost"), ("aerials_won_pct", "Aerials: Won%")
    ]

  /** The output name of the player field. */
  const PlayerColumn := "Player"

  /** The display name of the first entry of `m` at or after position `i` for field `k`. */
  function LookupFrom(m: seq<(string, string)>, k: string, i: nat): (o: Option<string>)
    requires i <= |m|
    decreases |m| - i
    ensures o.Some? ==> exists j :: i <= j < |m| && m[j] == (k, o.value)
    ensures o.None? ==> forall j :: i <= j < |m| ==> m[j].0 != k
  {
    if i == |m| then None
    else if m[i].0 == k then Some(m[i].1)
    else LookupFrom(m, k, i + 1)
  }

  /** The display name the dictionary gives field `k`, if any. */
  function DisplayOf(k: string): (o: Option<string>)
    ensures o.Some? ==> exists j :: 0 <= j < |Entries| && Entries[j] == (k, o.value)
    ensures o.None? ==> forall j :: 0 <= j < |Entries| ==> Entries[j].0 != k
  {
    LookupFrom(Entries, k, 0)
  }

  /** The column name a field has after the source's rename: its display name, or itself when unmapped. */
  function Renamed(k: string): string
  {
    DisplayOf(k).GetOr(k)
  }

  function Seconds(m: seq<(string, string)>): (names: seq<string>)
    ensures |names| == |m|
    ensures forall i :: 0 <= i < |m| ==> names[i] == m[i].1
  {
    seq(|m|, i requires 0 <= i < |m| => m[i].1)
  }

  /** The dictionary's display names, in declaration order. */
  function DisplayNames(): (names: seq<string>)
    ensures |names| == |Entries|
    ensures forall i :: 0 <= i < |Entries| ==> names[i] == Entries[i].1
  {
    Seconds(Entries)
  }

  /** The player field comes first and keeps its name's capitalised form. */
  lemma PlayerEntry()
    ensures Entries[0] == ("player", PlayerColumn)
    ensures DisplayOf("player") == Some(PlayerColumn)
    ensures DisplayNames()[0] == PlayerColumn
  {
  }

}
