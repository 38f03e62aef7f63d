/** The series of the stacked bar chart (`print_highchart`, the part that
    builds `categories` and `series`). Each trinket has one DPS sample per
    item level, 0 meaning missing. The chart stacks, for every level of the
    ordering, how much that level adds over the next one, so each ordinary
    series holds marginal values; a raw series for the legendary level comes
    first. */
module Series {
  import opened Borders

  /** The values, or Python's IndexError with the index that was out of range. */
  datatype Result<T> = Ok(value: T) | IndexError(index: int)

  /** One entry of the chart's `series` list. */
  datatype SeriesEntry = SeriesEntry(name: int, colour: string, data: seq<int>)

  /** The categories (trinket names) and the series of the chart. */
  datatype Chart = Chart(categories: seq<string>, series: seq<SeriesEntry>)

  /** Python's `int(d / 2.0)`: half of `d`, truncated toward zero. */
  function TruncHalf(d: int): (h: int)
    ensures 0 <= d ==> 0 <= 2 * h <= d && d - 2 * h <= 1
    ensures d < 0 ==> d <= 2 * h <= 0 && 2 * h - d <= 1
  {
    if d >= 0 then d / 2 else -((-d) / 2)
  }

  /** Python's `levels[idx]` for an index that may be negative: -1 is the
      last element. */
  function Wrapped(levels: seq<int>, idx: int): (level: int)
    requires -|levels| <= idx < |levels|
    ensures level == levels[(idx + |levels|) % |levels|]
  {
    if idx < 0 then levels[idx + |levels|] else levels[idx]
  }

  /** Every level of the ordering has a sample in the trinket. */
  predicate HasLevels(trinket: map<int, int>, levels: seq<int>) {
    forall k :: 0 <= k < |levels| ==> levels[k] in trinket
  }

  /** The value one trinket contributes to the series of `levels[i]`, given
      the trinket's borders. */
  function DeltaValue(trinket: map<int, int>, levels: seq<int>, i: int, lowest: int, highest: int): (r: Result<int>)
    requires 0 <= i < |levels| && HasLevels(trinket, levels)
    ensures r.IndexError? ==> i == |levels| - 2 && r.index == |levels|
  {
    var n := |levels|;
    var level := levels[i];
    if level == levels[n - 1] then
      // the last level of the ordering is the base of the stack
      Ok(trinket[level])
    else
      var next := levels[i + 1];
      if trinket[level] == 0 then
        if lowest < level < highest then
          Ok(TruncHalf(trinket[Wrapped(levels, i - 1)] - trinket[next]))
        else
          Ok(0)
      else if trinket[level] - trinket[next] < 0 then
        Ok(0)
      else if trinket[next] == 0 && next > lowest then
        if i + 2 < n then Ok(TruncHalf(trinket[level] - trinket[levels[i + 2]]))
        else IndexError(i + 2)
      else
        Ok(trinket[level] - trinket[next])
  }

  /** The value one trinket contributes to the series of `levels[i]`. */
  ghost function Delta(trinket: map<int, int>, levels: seq<int>, i: int): Result<int>
    requires 0 <= i < |levels| && HasLevels(trinket, levels)
  {
    DeltaValue(trinket, levels, i, Lowest(trinket), Highest(trinket))
  }

  /** What the source looks up without a guard: every named trinket, its
      legendary sample and its sample at every level, and a colour for
      every level. */
  predicate Covers(trinkets: map<string, map<int, int>>, names: seq<string>, levels: seq<int>,
                   legendary: int, colours: map<int, string>)
  {
    (forall j :: 0 <= j < |names| ==>
       names[j] in trinkets && legendary in trinkets[names[j]] && HasLevels(trinkets[names[j]], levels)) &&
    (forall k :: 0 <= k < |levels| ==> levels[k] in colours)
  }

  /** The first series: the raw legendary samples, one per trinket in
      category order. */
  predicate IsLegendarySeries(entry: SeriesEntry, trinkets: map<string, map<int, int>>, names: seq<string>,
                              legendary: int, legendaryColour: string)
    requires forall j :: 0 <= j < |names| ==> names[j] in trinkets && legendary in trinkets[names[j]]
  {
    entry.name == legendary && entry.colour == legendaryColour && |entry.data| == |names| &&
    forall j :: 0 <= j < |names| ==> entry.data[j] == trinkets[names[j]][legendary]
  }

  /** Entry `k + 1` of `series` is the series of `levels[k]`: named after
      the level, in the level's colour, one marginal value per trinket in
      category order. */
  ghost predicate IsLevelSeries(series: seq<SeriesEntry>, trinkets: map<string, map<int, int>>, names: seq<string>,
                                levels: seq<int>, colours: map<int, string>, k: int)
    requires 0 <= k < |levels| && levels[k] in colours && k + 1 < |series|
    requires forall j :: 0 <= j < |names| ==> names[j] in trinkets && HasLevels(trinkets[names[j]], levels)
  {
    var entry := series[k + 1];
    entry.name == levels[k] && entry.colour == colours[levels[k]] && |entry.data| == |names| &&
    forall j :: 0 <= j < |names| ==> Delta(trinkets[names[j]], levels, k) == Ok(entry.data[j])
  }

  /** Builds the categories and the series: the legendary series first, then
      one series per level of the ordering. Fails with IndexError when some
      trinket needs the sample two levels past the second-to-last one. */
  method BuildSeries(trinkets: map<string, map<int, int>>, names: seq<string>, levels: seq<int>,
                     legendary: int, legendaryColour: string, colours: map<int, string>)
    returns (r: Result<Chart>)
    requires Covers(trinkets, names, levels, legendary, colours)
    ensures r.IndexError? <==>
      exists k, j :: 0 <= k < |levels| && 0 <= j < |names| && Delta(trinkets[names[j]], levels, k).IndexError?
    ensures r.IndexError? ==> r.index == |levels|
    ensures r.Ok? ==> r.value.categories == names && |r.value.series| == |levels| + 1
    ensures r.Ok? ==> IsLegendarySeries(r.value.series[0], trinkets, names, legendary, legendaryColour)
    ensures r.Ok? ==> forall k :: 0 <= k < |levels| ==>
      IsLevelSeries(r.value.series, trinkets, names, levels, colours, k)
  {
    var categories := [];
    for j := 0 to |names|
      invariant categories == names[..j]
    {
      categories := categories + [names[j]];
    }

    var legendaryData := [];
    for j := 0 to |names|
      invariant |legendaryData| == j
      invariant forall j' :: 0 <= j' < j ==> legendaryData[j'] == trinkets[names[j']][legendary]
    {
      legendaryData := legendaryData + [trinkets[names[j]][legendary]];
    }
    var series := [SeriesEntry(legendary, legendaryColour, legendaryData)];

    for i := 0 to |levels|
      invariant |series| == i + 1
      invariant IsLegendarySeries(series[0], trinkets, names, legendary, legendaryColour)
      invariant forall k :: 0 <= k < i ==> IsLevelSeries(series, trinkets, names, levels, colours, k)
      invariant forall k, j :: 0 <= k < i && 0 <= j < |names| ==> Delta(trinkets[names[j]], levels, k).Ok?
    {
      var data := [];
      for j := 0 to |names|
        invariant |data| == j
        invariant forall j' :: 0 <= j' < j ==> Delta(trinkets[names[j']], levels, i) == Ok(data[j'])
      {
        var trinket := trinkets[names[j]];
        var lowest, highest := DpsIlevelBorders(trinket);
        var v := DeltaValue(trinket, levels, i, lowest, highest);
        if v.IndexError? {
          assert Delta(trinkets[names[j]], levels, i).IndexError?;
          return IndexError(v.index);
        }
        data := data + [v.value];
      }
      ghost var before := series;
      series := series + [SeriesEntry(levels[i], colours[levels[i]], data)];
      forall k | 0 <= k < i + 1 ensures IsLevelSeries(series, trinkets, names, levels, colours, k) {
        if k < i {
          assert IsLevelSeries(before, trinkets, names, levels, colours, k);
          assert series[k + 1] == before[k + 1];
        }
      }
    }
    assert categories == names;
    return Ok(Chart(categories, series));
  }

  // ---------------------------------------------------------------------
  // What each branch emits

  /** The base of the stack: for the last level of the ordering (and any
      level equal to it) the series holds the raw sample. */
  lemma TerminalTierIsRaw(trinket: map<int, int>, levels: seq<int>, i: int)
    requires 0 <= i < |levels| && HasLevels(trinket, levels)
    requires levels[i] == levels[|levels| - 1]
    ensures Delta(trinket, levels, i) == Ok(trinket[levels[i]])
  {
  }

  /** A missing sample strictly between the trinket's borders is rebuilt as
      half the difference of the previous and the next level's samples,
      truncated toward zero (the previous level of the first one is the last
      level, as Python's index -1); outside the borders it is 0. */
  lemma MissingSample(trinket: map<int, int>, levels: seq<int>, i: int)
    requires 0 <= i < |levels| && HasLevels(trinket, levels)
    requires levels[i] != levels[|levels| - 1] && trinket[levels[i]] == 0
    ensures i + 1 < |levels|
    ensures Lowest(trinket) < levels[i] < Highest(trinket) ==>
      Delta(trinket, levels, i) == Ok(TruncHalf(trinket[Wrapped(levels, i - 1)] - trinket[levels[i + 1]]))
    ensures !(Lowest(trinket) < levels[i] < Highest(trinket)) ==> Delta(trinket, levels, i) == Ok(0)
  {
  }

  /** A present sample contributes 0 when the next level's sample is larger,
      and otherwise its plain difference to the next level, unless the next
      level's sample is a missing one above the lowest border. */
  lemma PresentSample(trinket: map<int, int>, levels: seq<int>, i: int)
    requires 0 <= i < |levels| && HasLevels(trinket, levels)
    requires levels[i] != levels[|levels| - 1] && trinket[levels[i]] != 0
    ensures i + 1 < |levels|
    ensures trinket[levels[i]] < trinket[levels[i + 1]] ==> Delta(trinket, levels, i) == Ok(0)
    ensures (trinket[levels[i]] >= trinket[levels[i + 1]] &&
             !(trinket[levels[i + 1]] == 0 && levels[i + 1] > Lowest(trinket))) ==>
      Delta(trinket, levels, i) == Ok(trinket[levels[i]] - trinket[levels[i + 1]])
  {
  }

  /** A present sample followed by a missing one above the lowest border is
      bridged over two levels: half the difference to the sample two levels
      on, truncated toward zero; from the second-to-last level that sample
      does not exist and the source raises IndexError. */
  lemma GapBridge(trinket: map<int, int>, levels: seq<int>, i: int)
    requires 0 <= i < |levels| && HasLevels(trinket, levels)
    requires levels[i] != levels[|levels| - 1] && trinket[levels[i]] != 0
    requires i + 1 < |levels| && trinket[levels[i]] >= trinket[levels[i + 1]]
    requires trinket[levels[i + 1]] == 0 && levels[i + 1] > Lowest(trinket)
    ensures i + 2 < |levels| ==>
      Delta(trinket, levels, i) == Ok(TruncHalf(trinket[levels[i]] - trinket[levels[i + 2]]))
    ensures i + 2 == |levels| ==> Delta(trinket, levels, i) == IndexError(|levels|)
  {
  }

  /** With non-negative samples, a negative value only comes out of one of
      the two halving rules; the clamp keeps every plain difference >= 0. */
  lemma NegativeOnlyFromHalving(trinket: map<int, int>, levels: seq<int>, i: int)
    requires 0 <= i < |levels| && HasLevels(trinket, levels)
    requires forall k :: 0 <= k < |levels| ==> trinket[levels[k]] >= 0
    requires Delta(trinket, levels, i).Ok? && Delta(trinket, levels, i).value < 0
    ensures levels[i] != levels[|levels| - 1] && i + 1 < |levels| &&
      ((trinket[levels[i]] == 0 && Lowest(trinket) < levels[i] < Highest(trinket)) ||
       (trinket[levels[i]] != 0 && trinket[levels[i + 1]] == 0 && levels[i + 1] > Lowest(trinket)))
  {
  }

  // ---------------------------------------------------------------------
  // The stack

  /** The height of one trinket's bar from the segment of `levels[i]` down
      to the base of the stack. */
  ghost function StackHeight(trinket: map<int, int>, levels: seq<int>, i: int): int
    requires 0 <= i <= |levels| && HasLevels(trinket, levels)
    decreases |levels| - i
  {
    if i == |levels| then 0
    else
      var d := Delta(trinket, levels, i);
      (if d.Ok? then d.value else 0) + StackHeight(trinket, levels, i + 1)
  }

  /** When every sample from `levels[i]` on is present and no later level
      has a larger sample, the stacked segments add up to the sample at
      `levels[i]`: the bar shows the absolute DPS at every level. */
  lemma {:induction false} StackSumsToSample(trinket: map<int, int>, levels: seq<int>, i: int)
    requires 0 <= i < |levels| && HasLevels(trinket, levels)
    requires forall k :: i <= k < |levels| - 1 ==> levels[k] != levels[|levels| - 1]
    requires forall k :: i <= k < |levels| ==> trinket[levels[k]] != 0
    requires forall k :: i <= k < |levels| - 1 ==> trinket[levels[k]] >= trinket[levels[k + 1]]
    ensures forall k :: i <= k < |levels| ==> Delta(trinket, levels, k).Ok?
    ensures StackHeight(trinket, levels, i) == trinket[levels[i]]
    decreases |levels| - i
  {
    if i < |levels| - 1 {
      StackSumsToSample(trinket, levels, i + 1);
      assert Delta(trinket, levels, i) == Ok(trinket[levels[i]] - trinket[levels[i + 1]]);
    }
  }

  // ---------------------------------------------------------------------
  // Two worked inputs

  /** Levels 300, 200, 100 (highest first) with samples 700, missing, 500:
      the top level is bridged over the gap to half of 700 - 500, the gap
      itself is rebuilt as the same half, the base keeps its raw 500, and
      the bar still reaches 700. */
  lemma WorkedExample()
    ensures var trinket := map[300 := 700, 200 := 0, 100 := 500];
      var levels := [300, 200, 100];
      Delta(trinket, levels, 0) == Ok(100) &&
      Delta(trinket, levels, 1) == Ok(100) &&
      Delta(trinket, levels, 2) == Ok(500) &&
      StackHeight(trinket, levels, 0) == 700
  {
    var trinket := map[300 := 700, 200 := 0, 100 := 500];
    var levels := [300, 200, 100];
    assert Present(trinket) == {100, 300};
    assert {LowestStart} + Present(trinket) == {1200, 100, 300};
    assert {HighestStart} + Present(trinket) == {0, 100, 300};
    assert Lowest(trinket) == 100;
    assert Highest(trinket) == 300;
    assert StackHeight(trinket, levels, 3) == 0;
    assert StackHeight(trinket, levels, 2) == 500;
    assert StackHeight(trinket, levels, 1) == 600;
  }

  /** Levels 100, 200, 300 (lowest first) with samples 500, missing, 700:
      both halving rules give half of 500 - 700, so two series hold -100.
      The bar still ends at the sample of the first level. */
  lemma NegativeExample()
    ensures var trinket := map[100 := 500, 200 := 0, 300 := 700];
      var levels := [100, 200, 300];
      Delta(trinket, levels, 0) == Ok(-100) &&
      Delta(trinket, levels, 1) == Ok(-100) &&
      Delta(trinket, levels, 2) == Ok(700) &&
      StackHeight(trinket, levels, 0) == 500
  {
    var trinket := map[100 := 500, 200 := 0, 300 := 700];
    var levels := [100, 200, 300];
    assert Present(trinket) == {100, 300};
    assert {LowestStart} + Present(trinket) == {1200, 100, 300};
    assert {HighestStart} + Present(trinket) == {0, 100, 300};
    assert Lowest(trinket) == 100;
    assert Highest(trinket) == 300;
    assert StackHeight(trinket, levels, 3) == 0;
    assert StackHeight(trinket, levels, 2) == 700;
    assert StackHeight(trinket, levels, 1) == 600;
  }

  /** Levels 100, 200, 300 with samples missing, 500, missing: the
      second-to-last level asks for the sample at index 3 and fails. */
  lemma IndexErrorExample()
    ensures Delta(map[100 := 0, 200 := 500, 300 := 0], [100, 200, 300], 1) == IndexError(3)
  {
    var trinket := map[100 := 0, 200 := 500, 300 := 0];
    assert Present(trinket) == {200};
    assert {LowestStart} + Present(trinket) == {1200, 200};
    assert Lowest(trinket) == 200;
  }
}
