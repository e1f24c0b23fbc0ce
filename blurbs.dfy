/** The four blurb generators: one sentence per region, filled from the
    region's display name (`alternative_name`), its rank text and, for the
    Redfin figures, the latest month label. */
module Blurbs {
  import opened Common
  import opened Tables
  import opened RegionKeys
  import opened Ranking

  /** The census blurbs' common ending, after the rank. */
  function InTheNation(measure: string): string
  {
    " in the nation in " + measure + " among states, DC, and Puerto Rico."
  }

  /** The Redfin blurbs' common ending, after the rank: the measure and the
      month of the data. */
  function RedfinEnding(measure: string, date: Option<RawCell>): string
  {
    " " + measure + " in the nation among states, DC, and Puerto Rico, according to Redfin data from " + RenderCell(date) + "."
  }

  // ------------------------------------------------------------- templates

  /** `process_blurb_population_data`: the rank is used verbatim (and the
      template has two spaces after it). */
  function PopulationBlurb(name: Option<RawCell>, rank: Value): string
  {
    RenderCell(name) + " is " + TextOf(rank) + (" " + InTheNation("population"))
  }

  /** The income blurb says "the highest" for rank "1st". */
  function IncomeRankText(rank: Value): string
  {
    if rank == Text("1st") then "the highest" else TextOf(rank)
  }

  function IncomeBlurb(name: Option<RawCell>, rank: Value): string
  {
    RenderCell(name) + " is " + IncomeRankText(rank) + InTheNation("median household income")
  }

  /** The sale price and affordability blurbs say "single" for rank "1st"
      ("has the single highest ..."). */
  function SingleRankText(rank: Value): string
  {
    if rank == Text("1st") then "single" else TextOf(rank)
  }

  function SalePriceBlurb(name: Option<RawCell>, rank: Value, date: Option<RawCell>): string
  {
    RenderCell(name) + " has the " + SingleRankText(rank) + RedfinEnding("highest median sale price on homes", date)
  }

  /** The affordability rank text: a missing rank reads "N/A". */
  function AffordabilityRankText(rank: Value): string
  {
    if rank.NA? then "N/A" else SingleRankText(rank)
  }

  /** The affordability blurb names a region without a keys entry
      "Region (<key>)", and has a short form for an N/A rank. */
  function AffordabilityName(name: Option<RawCell>, key: Value): string
  {
    if name.None? then "Region (" + TextOf(key) + ")" else RenderCell(name)
  }

  function AffordabilityBlurb(name: Option<RawCell>, key: Value, rank: Value, date: Option<RawCell>): string
  {
    var rankText := AffordabilityRankText(rank);
    if rankText == "N/A" then AffordabilityName(name, key) + " has an N/A house affordability ratio."
    else AffordabilityName(name, key) + " has the " + rankText + RedfinEnding("lowest house affordability ratio", date)
  }

  // ------------------------------------------------------------ per region

  function PopulationBlurbValue(keys: Frame, key: Value, rank: Value): Result<Value>
  {
    var name :- FindKeyRow(keys, key, AlternativeNameColumn);
    Ok(Text(PopulationBlurb(name, rank)))
  }

  function IncomeBlurbValue(keys: Frame, key: Value, rank: Value): Result<Value>
  {
    var name :- FindKeyRow(keys, key, AlternativeNameColumn);
    Ok(Text(IncomeBlurb(name, rank)))
  }

  function SalePriceBlurbValue(keys: Frame, key: Value, rank: Value, date: Option<RawCell>): Result<Value>
  {
    var name :- FindKeyRow(keys, key, AlternativeNameColumn);
    Ok(Text(SalePriceBlurb(name, rank, date)))
  }

  function AffordabilityBlurbValue(keys: Frame, key: Value, rank: Value, date: Option<RawCell>): Result<Value>
  {
    var name :- FindKeyRow(keys, key, AlternativeNameColumn);
    Ok(Text(AffordabilityBlurb(name, key, rank, date)))
  }

  /** Which of the four generators, with the Redfin month where it is used. */
  datatype BlurbKind = PopulationKind | IncomeKind | SalePriceKind(date: Option<RawCell>) | AffordabilityKind(date: Option<RawCell>)

  function BlurbValue(kind: BlurbKind, keys: Frame, key: Value, rank: Value): Result<Value>
  {
    match kind
    case PopulationKind => PopulationBlurbValue(keys, key, rank)
    case IncomeKind => IncomeBlurbValue(keys, key, rank)
    case SalePriceKind(date) => SalePriceBlurbValue(keys, key, rank, date)
    case AffordabilityKind(date) => AffordabilityBlurbValue(keys, key, rank, date)
  }

  function BlurbOutcomes(kind: BlurbKind, keys: Frame, regionKeys: seq<Value>, ranks: seq<Value>)
    : (outs: seq<Result<Value>>)
    requires |regionKeys| == |ranks|
    ensures |outs| == |regionKeys|
    ensures forall i :: 0 <= i < |outs| ==> outs[i] == BlurbValue(kind, keys, regionKeys[i], ranks[i])
  {
    seq(|regionKeys|, i requires 0 <= i < |regionKeys| => BlurbValue(kind, keys, regionKeys[i], ranks[i]))
  }

  /** The `for _, row in combined_df.iterrows()` loop of each generator:
      the blurb dict, or the first region's lookup error. */
  method ProcessBlurbs(kind: BlurbKind, keys: Frame, regionKeys: seq<Value>, ranks: seq<Value>)
      returns (r: Result<Dict>)
    requires |regionKeys| == |ranks|
    ensures r == Collect(regionKeys, BlurbOutcomes(kind, keys, regionKeys, ranks))
  {
    r := FillDict(regionKeys, BlurbOutcomes(kind, keys, regionKeys, ranks));
  }

  // ------------------------------------------------------------ properties

  /** The text between a known prefix and a known suffix. */
  function Between(s: string, prefix: string, suffix: string): (m: string)
    requires |prefix| + |suffix| <= |s|
  {
    s[|prefix|..|s| - |suffix|]
  }

  lemma BetweenOf(prefix: string, m: string, suffix: string)
    ensures Between(prefix + m + suffix, prefix, suffix) == m
  {
    var s := prefix + m + suffix;
    assert s[|prefix|..|s| - |suffix|] == m;
  }

  /** The population blurb holds the rank text verbatim. */
  lemma PopulationBlurbKeepsRank(name: Option<RawCell>, rank: Value)
    ensures var b := PopulationBlurb(name, rank);
            var prefix := RenderCell(name) + " is ";
            |prefix| + |(" " + InTheNation("population"))| <= |b| && Between(b, prefix, (" " + InTheNation("population"))) == TextOf(rank)
  {
    BetweenOf(RenderCell(name) + " is ", TextOf(rank), (" " + InTheNation("population")));
  }

  lemma OrdinalFirst(n: nat)
    ensures Ordinal(n) == "1st" <==> n == 1
  {
    OrdinalDigits(n);
    if Ordinal(n) == "1st" {
      var s := Ordinal(n);
      assert s[..|s| - 2] == "1";
      assert DigitsValue("1") == 1;
    }
  }

  /** The income blurb says "the highest" for the first rank and holds every
      other rank verbatim. */
  lemma IncomeBlurbRank(name: Option<RawCell>, rank: Option<nat>)
    ensures var b := IncomeBlurb(name, Text(RankText(rank)));
            var prefix := RenderCell(name) + " is ";
            |prefix| + |InTheNation("median household income")| <= |b| &&
            Between(b, prefix, InTheNation("median household income")) == if rank == Some(1) then "the highest" else RankText(rank)
  {
    if rank.Some? {
      OrdinalFirst(rank.value);
    }
    BetweenOf(RenderCell(name) + " is ", IncomeRankText(Text(RankText(rank))), InTheNation("median household income"));
  }

  /** The sale price blurb says "single" for the first rank, holds every other
      rank verbatim (so a missing rank reads "has the N/A highest"), and ends
      with the month. */
  lemma SalePriceBlurbRank(name: Option<RawCell>, rank: Option<nat>, date: Option<RawCell>)
    ensures var b := SalePriceBlurb(name, Text(RankText(rank)), date);
            var prefix := RenderCell(name) + " has the ";
            var suffix := RedfinEnding("highest median sale price on homes", date);
            |prefix| + |suffix| <= |b| &&
            Between(b, prefix, suffix) == if rank == Some(1) then "single" else RankText(rank)
  {
    if rank.Some? {
      OrdinalFirst(rank.value);
    }
    var prefix := RenderCell(name) + " has the ";
    var m := SingleRankText(Text(RankText(rank)));
    var suffix := RedfinEnding("highest median sale price on homes", date);
    assert SalePriceBlurb(name, Text(RankText(rank)), date) == prefix + m + suffix;
    BetweenOf(prefix, m, suffix);
  }

  /** Without a rank the affordability blurb is the short sentence, and
      without a keys entry it names the region by its key. */
  lemma AffordabilityBlurbMissingRank(name: Option<RawCell>, key: Value, rank: Value, date: Option<RawCell>)
    requires rank.NA? || rank == Text("N/A")
    ensures AffordabilityBlurb(name, key, rank, date) == AffordabilityName(name, key) + " has an N/A house affordability ratio."
  {
  }

  lemma AffordabilityRankOfOrdinal(n: nat)
    ensures AffordabilityRankText(Text(Ordinal(n))) == if n == 1 then "single" else Ordinal(n)
    ensures AffordabilityRankText(Text(Ordinal(n))) != "N/A"
  {
    OrdinalFirst(n);
    OrdinalIsNotAWord(n);
  }

  /** A present rank gives the long sentence, with "single" for the first. */
  lemma AffordabilityBlurbRank(name: Option<RawCell>, key: Value, n: nat, date: Option<RawCell>)
    ensures var b := AffordabilityBlurb(name, key, Text(Ordinal(n)), date);
            var prefix := AffordabilityName(name, key) + " has the ";
            var suffix := RedfinEnding("lowest house affordability ratio", date);
            |prefix| + |suffix| <= |b| &&
            Between(b, prefix, suffix) == if n == 1 then "single" else Ordinal(n)
  {
    AffordabilityRankOfOrdinal(n);
    var prefix := AffordabilityName(name, key) + " has the ";
    var m := AffordabilityRankText(Text(Ordinal(n)));
    var suffix := RedfinEnding("lowest house affordability ratio", date);
    assert AffordabilityBlurb(name, key, Text(Ordinal(n)), date) == prefix + m + suffix;
    BetweenOf(prefix, m, suffix);
  }

  lemma PrefixOfConcat(a: string, b: string)
    ensures a <= a + b
  {
    assert (a + b)[..|a|] == a;
  }

  lemma PrefixOfConcat3(a: string, b: string, c: string)
    ensures a <= a + b + c
  {
    assert (a + b + c)[..|a|] == a;
  }

  /** A region the keys table does not know reads "None" in the first three
      blurbs. */
  lemma MissingNameInPopulationBlurb(rank: Value)
    ensures "None is " <= PopulationBlurb(None, rank)
  {
    PrefixOfConcat3(RenderCell(None) + " is ", TextOf(rank), (" " + InTheNation("population")));
  }

  lemma MissingNameInIncomeBlurb(rank: Value)
    ensures "None is " <= IncomeBlurb(None, rank)
  {
    PrefixOfConcat3(RenderCell(None) + " is ", IncomeRankText(rank), InTheNation("median household income"));
  }

  lemma PrefixExtend(x: string, y: string, z: string)
    requires x <= y
    ensures x <= y + z
  {
    assert (y + z)[..|x|] == y[..|x|];
  }

  lemma MissingNameInSalePriceBlurb(rank: Value, date: Option<RawCell>)
    ensures "None has the " <= SalePriceBlurb(None, rank, date)
  {
    PrefixOfConcat3(RenderCell(None) + " has the ", SingleRankText(rank), RedfinEnding("highest median sale price on homes", date));
  }

  /** The affordability blurb names such a region by its key instead. */
  lemma MissingNameFallback(key: Value, rank: Value, date: Option<RawCell>)
    ensures "Region (" + TextOf(key) + ")" <= AffordabilityBlurb(None, key, rank, date)
  {
    var name := AffordabilityName(None, key);
    if AffordabilityRankText(rank) == "N/A" {
      PrefixOfConcat(name, " has an N/A house affordability ratio.");
    } else {
      var p := name + " has the ";
      PrefixOfConcat(name, " has the ");
      PrefixExtend(name, p, AffordabilityRankText(rank));
      PrefixExtend(name, p + AffordabilityRankText(rank), RedfinEnding("lowest house affordability ratio", date));
    }
  }
}
