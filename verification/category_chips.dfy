/**
 * `components/CategoryChips.tsx`: the chip row above the list. An "All"
 * chip carrying the total count comes first, then one chip per category in
 * the order given; the chip whose name equals the current value is active,
 * and pressing a chip reports its name.
 */
module CategoryChips {
  import opened Categories

  /** The string value of a core category. */
  function CatName(c: CoreCat): (name: string)
    ensures name != AllName
  {
    match c
    case Restaurant => "Restaurant"
    case Bar => "Bar"
    case Cafe => "Cafe"
  }

  lemma CatNameInjective(a: CoreCat, b: CoreCat)
    ensures CatName(a) == CatName(b) ==> a == b
  {
  }

  const AllName := "All"

  /** One entry of `categories`. */
  datatype Cat = Cat(name: CoreCat, count: int)

  /** A chip as rendered: the "All" chip or a category's. */
  datatype Chip = Chip(name: string, count: int)

  /** `categories.reduce((a, c) => a + c.count, 0)`: left to right. */
  function Total(cats: seq<Cat>): int {
    if |cats| == 0 then 0 else Total(cats[..|cats| - 1]) + cats[|cats| - 1].count
  }

  /** The sum of the counts, read from the front: an independent definition. */
  function SumCounts(cats: seq<Cat>): int {
    if |cats| == 0 then 0 else cats[0].count + SumCounts(cats[1..])
  }

  lemma {:induction false} SumCountsAppend(a: seq<Cat>, b: seq<Cat>)
    ensures SumCounts(a + b) == SumCounts(a) + SumCounts(b)
    decreases |a|
  {
    if |a| > 0 {
      assert (a + b)[1..] == a[1..] + b;
      SumCountsAppend(a[1..], b);
    } else {
      assert a + b == b;
    }
  }

  /** The fold and the sum agree. */
  lemma {:induction false} TotalIsSum(cats: seq<Cat>)
    ensures Total(cats) == SumCounts(cats)
    decreases |cats|
  {
    if |cats| > 0 {
      var init := cats[..|cats| - 1];
      TotalIsSum(init);
      SumCountsAppend(init, [cats[|cats| - 1]]);
      assert init + [cats[|cats| - 1]] == cats;
    }
  }

  /** Splitting the list splits the total. */
  lemma TotalAppend(a: seq<Cat>, b: seq<Cat>)
    ensures Total(a + b) == Total(a) + Total(b)
  {
    TotalIsSum(a + b);
    TotalIsSum(a);
    TotalIsSum(b);
    SumCountsAppend(a, b);
  }

  /** With no negative counts the total bounds every count. */
  lemma {:induction false} TotalBoundsEach(cats: seq<Cat>, i: nat)
    requires i < |cats|
    requires forall k :: 0 <= k < |cats| ==> cats[k].count >= 0
    ensures 0 <= cats[i].count <= Total(cats)
    decreases |cats|
  {
    if i < |cats| - 1 {
      TotalBoundsEach(cats[..|cats| - 1], i);
    } else if |cats| > 1 {
      TotalBoundsEach(cats[..|cats| - 1], 0);
    }
  }

  /** `[{ name: "All", count: total }, ...categories]`. */
  function Chips(cats: seq<Cat>): (chips: seq<Chip>)
    ensures |chips| == |cats| + 1
    ensures chips[0] == Chip(AllName, SumCounts(cats))
    ensures forall i :: 0 <= i < |cats| ==> chips[i + 1] == Chip(CatName(cats[i].name), cats[i].count)
  {
    TotalIsSum(cats);
    [Chip(AllName, Total(cats))] + seq(|cats|, i requires 0 <= i < |cats| => Chip(CatName(cats[i].name), cats[i].count))
  }

  /** `value === c.name`. */
  predicate Active(value: string, c: Chip) { value == c.name }

  /** What pressing a chip reports: `"All"` for the first, the name for the rest. */
  function Selected(c: Chip): (v: string)
    ensures v == c.name
  {
    if c.name == AllName then AllName else c.name
  }

  /** Pressing a chip makes that chip the active one. */
  lemma SelectingActivates(cats: seq<Cat>, i: nat)
    requires i < |cats| + 1
    ensures Active(Selected(Chips(cats)[i]), Chips(cats)[i])
  {
  }

  /** With distinct categories, at most one chip is active whatever the value. */
  lemma AtMostOneActive(cats: seq<Cat>, value: string)
    requires forall i, j :: 0 <= i < j < |cats| ==> cats[i].name != cats[j].name
    ensures var chips := Chips(cats);
      forall i, j :: 0 <= i < j < |chips| && Active(value, chips[i]) ==> !Active(value, chips[j])
  {
    var chips := Chips(cats);
    forall i, j | 0 <= i < j < |chips| && Active(value, chips[i])
      ensures !Active(value, chips[j])
    {
      if i > 0 {
        CatNameInjective(cats[i - 1].name, cats[j - 1].name);
      }
    }
  }

  /** The "All" chip is active exactly when the value is "All". */
  lemma AllActiveIff(cats: seq<Cat>, value: string)
    ensures Active(value, Chips(cats)[0]) <==> value == AllName
  {
  }
}
