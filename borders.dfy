/** The item-level borders of one trinket (`__get_dps_ilevel_borders`).
    A trinket maps each simulated item level to its DPS sample; a sample of
    0 means the simulation produced no value for that level. */
module Borders {

  /** Starting value of the lowest border: above any real item level. */
  const LowestStart := 1200
  /** Starting value of the highest border. */
  const HighestStart := 0

  /** The levels of a trinket whose sample is present. */
  function Present(trinket: map<int, int>): set<int> {
    set level | level in trinket && trinket[level] != 0
  }

  lemma HasElement(s: set<int>)
    requires s != {}
    ensures exists x :: x in s
  {
    assert (forall x :: x !in s) ==> s == {};
  }

  ghost function SetMin(s: set<int>): (m: int)
    requires s != {}
    ensures m in s && forall x :: x in s ==> m <= x
  {
    HasElement(s);
    var x :| x in s;
    if s == {x} then x
    else
      var m' := SetMin(s - {x});
      assert forall y :: y in s ==> y == x || y in s - {x};
      if x < m' then x else m'
  }

  ghost function SetMax(s: set<int>): (m: int)
    requires s != {}
    ensures m in s && forall x :: x in s ==> x <= m
  {
    HasElement(s);
    var x :| x in s;
    if s == {x} then x
    else
      var m' := SetMax(s - {x});
      assert forall y :: y in s ==> y == x || y in s - {x};
      if x > m' then x else m'
  }

  /** The lowest border: the least present level, or the start value 1200
      when that is smaller. */
  ghost function Lowest(trinket: map<int, int>): int {
    SetMin({LowestStart} + Present(trinket))
  }

  /** The highest border: the greatest present level, or the start value 0
      when that is larger. */
  ghost function Highest(trinket: map<int, int>): int {
    SetMax({HighestStart} + Present(trinket))
  }

  /** Walks the levels of the trinket in any order and keeps the smallest
      present level below the current lowest border and the largest present
      level above the current highest border. */
  method DpsIlevelBorders(trinket: map<int, int>) returns (lowest: int, highest: int)
    ensures lowest == Lowest(trinket) && highest == Highest(trinket)
  {
    lowest, highest := LowestStart, HighestStart;
    var todo := trinket.Keys;
    while todo != {}
      invariant todo <= trinket.Keys
      invariant lowest in {LowestStart} + (Present(trinket) - todo)
      invariant forall x :: x in {LowestStart} + (Present(trinket) - todo) ==> lowest <= x
      invariant highest in {HighestStart} + (Present(trinket) - todo)
      invariant forall x :: x in {HighestStart} + (Present(trinket) - todo) ==> x <= highest
      decreases todo
    {
      HasElement(todo);
      var level :| level in todo;
      if level < lowest && trinket[level] != 0 {
        lowest := level;
      }
      if level > highest && trinket[level] != 0 {
        highest := level;
      }
      todo := todo - {level};
    }
    assert Present(trinket) - todo == Present(trinket);
  }

  /** The lowest border is the smallest present level when one lies below
      1200, and 1200 otherwise; the highest border is the largest present
      level when one lies above 0, and 0 otherwise. */
  lemma BordersAreExtremes(trinket: map<int, int>)
    ensures (exists l :: l in trinket && trinket[l] != 0 && l < LowestStart) ==>
      Lowest(trinket) in trinket && trinket[Lowest(trinket)] != 0 &&
      forall l :: l in trinket && trinket[l] != 0 ==> Lowest(trinket) <= l
    ensures (forall l :: l in trinket && trinket[l] != 0 ==> LowestStart <= l) ==>
      Lowest(trinket) == LowestStart
    ensures (exists l :: l in trinket && trinket[l] != 0 && l > HighestStart) ==>
      Highest(trinket) in trinket && trinket[Highest(trinket)] != 0 &&
      forall l :: l in trinket && trinket[l] != 0 ==> l <= Highest(trinket)
    ensures (forall l :: l in trinket && trinket[l] != 0 ==> l <= HighestStart) ==>
      Highest(trinket) == HighestStart
  {
    var lo, hi := Lowest(trinket), Highest(trinket);
    assert forall l :: l in trinket && trinket[l] != 0 ==> l in Present(trinket);
    assert forall l :: l in Present(trinket) ==> l in {LowestStart} + Present(trinket);
    assert forall l :: l in Present(trinket) ==> l in {HighestStart} + Present(trinket);
    if exists l :: l in trinket && trinket[l] != 0 && l < LowestStart {
      var l :| l in trinket && trinket[l] != 0 && l < LowestStart;
      assert l in Present(trinket);
      assert lo in Present(trinket);
    }
    if forall l :: l in trinket && trinket[l] != 0 ==> LowestStart <= l {
      assert forall x :: x in Present(trinket) ==> LowestStart <= x;
    }
    if exists l :: l in trinket && trinket[l] != 0 && l > HighestStart {
      var l :| l in trinket && trinket[l] != 0 && l > HighestStart;
      assert l in Present(trinket);
      assert hi in Present(trinket);
    }
    if forall l :: l in trinket && trinket[l] != 0 ==> l <= HighestStart {
      assert forall x :: x in Present(trinket) ==> x <= HighestStart;
    }
  }

  /** A trinket with no present sample gets the borders (1200, 0), between
      which no level lies, so no gap is ever filled for it. */
  lemma NothingBetweenWhenAllMissing(trinket: map<int, int>)
    requires forall l :: l in trinket ==> trinket[l] == 0
    ensures Lowest(trinket) == LowestStart && Highest(trinket) == HighestStart
    ensures Highest(trinket) < Lowest(trinket)
  {
    assert forall x :: x in Present(trinket) <==> x in {};
    assert Present(trinket) == {};
    assert {LowestStart} + Present(trinket) == {LowestStart};
    assert {HighestStart} + Present(trinket) == {HighestStart};
  }
}
