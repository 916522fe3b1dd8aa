/** The timeline layout: filter the events by the active categories, sort
    them stably by time stamp, give each a vertical position with a running
    cursor, place a marker for every year of the fixed range, and size the
    canvas. */
module Layout {
  import opened Categories
  import opened Events
  import opened Sorting

  /** Vertical distance between consecutive events, in pixels. */
  const MinEventSpacing: int := 140
  /** Extra gap before the first event of a year, and the base offset. */
  const BaseYearPadding: int := 60
  /** How far a year marker sits above the first event of its year. */
  const MarkerLift: int := 30
  /** Space below the last event. */
  const BottomMargin: int := 200
  /** Canvas height when no event is visible. */
  const EmptyHeight: int := 1000
  /** The years that always get a marker, in order. */
  const MarkerYears: seq<int> := [2019, 2020, 2021, 2022, 2023, 2024, 2025, 2026, 2027]

  /** `Math.max` of two numbers. */
  function Max(a: int, b: int): int {
    if a >= b then a else b
  }

  /** `Math.max(...xs)` on a non-empty list: an element no smaller than any. */
  function MaxOf(xs: seq<int>): (m: int)
    requires |xs| > 0
    ensures m in xs
    ensures forall x :: x in xs ==> x <= m
  {
    if |xs| == 1 then xs[0]
    else
      assert xs == [xs[0]] + xs[1..];
      Max(xs[0], MaxOf(xs[1..]))
  }

  // ---------------------------------------------------------------------
  // Filtering
  // ---------------------------------------------------------------------

  /** `events.filter(e => activeCategories.includes(e.category))`: each
      event whose category is active, as often as it occurs in the input;
      every other event not at all. */
  function FilterActive(events: seq<Dated>, active: seq<Category>): (r: seq<Dated>)
    ensures forall e :: e in r <==> e in events && e.event.category in active
    ensures forall e :: multiset(r)[e] == if e.event.category in active then multiset(events)[e] else 0
  {
    if |events| == 0 then []
    else
      var rest := FilterActive(events[1..], active);
      assert events == [events[0]] + events[1..];
      if events[0].event.category in active then [events[0]] + rest else rest
  }

  /** Filtering keeps relative order: it distributes over concatenation. */
  lemma {:induction false} FilterAppend(a: seq<Dated>, b: seq<Dated>, active: seq<Category>)
    ensures FilterActive(a + b, active) == FilterActive(a, active) + FilterActive(b, active)
    decreases |a|
  {
    if |a| > 0 {
      assert (a + b)[1..] == a[1..] + b;
      FilterAppend(a[1..], b, active);
    } else {
      assert a + b == b;
    }
  }

  /** When every event's category is active, nothing is filtered out. */
  lemma {:induction false} FilterKeepsAll(events: seq<Dated>, active: seq<Category>)
    requires forall k :: 0 <= k < |events| ==> events[k].event.category in active
    ensures FilterActive(events, active) == events
    decreases |events|
  {
    if |events| > 0 {
      var rest := events[1..];
      forall k | 0 <= k < |rest|
        ensures rest[k].event.category in active
      {
        assert rest[k] == events[k + 1];
      }
      FilterKeepsAll(rest, active);
      assert events[0].event.category in active;
      assert events == [events[0]] + rest;
    }
  }

  /** The filtered list depends only on which categories are active, not on
      the order or repetition of `active`. */
  lemma {:induction false} FilterSameMembership(events: seq<Dated>, a: seq<Category>, b: seq<Category>)
    requires forall c :: c in a <==> c in b
    ensures FilterActive(events, a) == FilterActive(events, b)
    decreases |events|
  {
    if |events| > 0 {
      FilterSameMembership(events[1..], a, b);
    }
  }

  // ---------------------------------------------------------------------
  // Annotation and sorting
  // ---------------------------------------------------------------------

  /** The `withDates` step: each filtered event with its index in the
      filtered list and its parsed date. */
  function Annotate(filtered: seq<Dated>): (r: seq<Annotated>)
    ensures |r| == |filtered|
    ensures forall i :: 0 <= i < |r| ==> r[i].originalIndex == i
    ensures forall i :: 0 <= i < |r| ==> Dated(r[i].event, r[i].timestamp, r[i].year) == filtered[i]
  {
    seq(|filtered|, i requires 0 <= i < |filtered| =>
      Annotated(filtered[i].event, i, filtered[i].timestamp, filtered[i].year))
  }

  /** The visible events in display order. */
  function Visible(events: seq<Dated>, active: seq<Category>): seq<Annotated> {
    SortByTimestamp(Annotate(FilterActive(events, active)))
  }

  /** The display order is the stable sort of the filtered events: a
      permutation of them, by time stamp, ties in filtered order, and each
      element is the filtered event its `originalIndex` names. */
  lemma {:induction false} VisibleIsStableSort(events: seq<Dated>, active: seq<Category>)
    ensures |Visible(events, active)| == |FilterActive(events, active)|
    ensures multiset(Visible(events, active)) == multiset(Annotate(FilterActive(events, active)))
    ensures StablySorted(Visible(events, active))
    ensures forall k :: 0 <= k < |Visible(events, active)| ==>
              var v := Visible(events, active)[k];
              v.originalIndex < |FilterActive(events, active)|
              && FilterActive(events, active)[v.originalIndex] == Dated(v.event, v.timestamp, v.year)
  {
    var f := FilterActive(events, active);
    var a := Annotate(f);
    var v := Visible(events, active);
    SortIsStable(a);
    forall k | 0 <= k < |v|
      ensures v[k].originalIndex < |f| && f[v[k].originalIndex] == Dated(v[k].event, v[k].timestamp, v[k].year)
    {
      assert v[k] in multiset(a);
      var i :| 0 <= i < |a| && a[i] == v[k];
    }
  }

  // ---------------------------------------------------------------------
  // Positions
  // ---------------------------------------------------------------------

  /** The years of a list of events. */
  function YearsOf(s: seq<Annotated>): (r: set<int>)
    ensures forall y :: y in r <==> exists k :: 0 <= k < |s| && s[k].year == y
  {
    if |s| == 0 then {}
    else
      var rest := YearsOf(s[1..]);
      assert forall k :: 1 <= k < |s| ==> s[k] == s[1..][k - 1];
      {s[0].year} + rest
  }

  lemma {:induction false} YearsOfCons(s: seq<Annotated>)
    requires |s| > 0
    ensures YearsOf(s) == {s[0].year} + YearsOf(s[1..])
  {
  }

  lemma {:induction false} YearsOfSnoc(s: seq<Annotated>, k: nat)
    requires k < |s|
    ensures YearsOf(s[..k + 1]) == YearsOf(s[..k]) + {s[k].year}
  {
    assert s[..k + 1] == s[..k] + [s[k]];
  }

  /** Index of the first event of year `y`. */
  function FirstIndexOfYear(s: seq<Annotated>, y: int): (k: nat)
    requires y in YearsOf(s)
    ensures k < |s| && s[k].year == y
    ensures forall j :: 0 <= j < k ==> s[j].year != y
  {
    YearsOfCons(s);
    if s[0].year == y then 0 else 1 + FirstIndexOfYear(s[1..], y)
  }

  lemma {:induction false} FirstIndexStep(s: seq<Annotated>, y: int)
    requires y in YearsOf(s) && s[0].year != y
    ensures y in YearsOf(s[1..]) && FirstIndexOfYear(s, y) == 1 + FirstIndexOfYear(s[1..], y)
  {
    YearsOfCons(s);
  }

  /** The `k`-th event is the first of its year. */
  predicate FirstOfYear(s: seq<Annotated>, k: nat)
    requires k < |s|
  {
    forall j :: 0 <= j < k ==> s[j].year != s[k].year
  }

  /** Result of the position loop: the positioned events and, per year seen,
      the cursor value at that year's first event. */
  datatype Placement = Placement(positioned: seq<Positioned>, yearStarts: map<int, int>)

  /** The cursor value an event takes: at the first event of a year not
      yet seen the cursor first moves down by the padding (the code takes the
      larger of the cursor and the cursor plus the padding). */
  function Here(e: Annotated, cursor: int, starts: map<int, int>): (r: int)
    ensures e.year in starts ==> r == cursor
    ensures e.year !in starts ==> r == cursor + BaseYearPadding
  {
    if e.year in starts then cursor else Max(cursor, cursor + BaseYearPadding)
  }

  /** The year starts after visiting `e`: a year not yet seen is recorded
      with the cursor value its first event takes. */
  function Record(e: Annotated, cursor: int, starts: map<int, int>): (r: map<int, int>)
    ensures r.Keys == starts.Keys + {e.year}
    ensures e.year !in starts ==> r[e.year] == cursor + BaseYearPadding
    ensures forall y :: y in starts ==> r[y] == starts[y]
  {
    if e.year in starts then starts else starts[e.year := Here(e, cursor, starts)]
  }

  /** The position loop from some point on: `cursor` is the running
      position and `starts` the years seen so far. Every event takes the
      cursor value `Here`, after which the cursor moves on by the spacing. */
  function Place(s: seq<Annotated>, cursor: int, starts: map<int, int>): (r: Placement)
    ensures |r.positioned| == |s|
    ensures forall i :: 0 <= i < |s| ==> r.positioned[i].item == s[i]
    ensures r.yearStarts.Keys == starts.Keys + YearsOf(s)
    ensures forall y :: y in starts ==> r.yearStarts[y] == starts[y]
    decreases |s|
  {
    if |s| == 0 then Placement([], starts)
    else
      var here := Here(s[0], cursor, starts);
      var rest := Place(s[1..], here + MinEventSpacing, Record(s[0], cursor, starts));
      YearsOfCons(s);
      Placement([Positioned(s[0], here)] + rest.positioned, rest.yearStarts)
  }

  /** One step of the loop: the first event takes `Here`, the others are
      placed by the rest of the loop. */
  lemma {:induction false} PlaceStep(s: seq<Annotated>, cursor: int, starts: map<int, int>, i: nat)
    requires i < |s|
    ensures Place(s, cursor, starts).positioned[i].position
            == if i == 0 then Here(s[0], cursor, starts)
               else Place(s[1..], Here(s[0], cursor, starts) + MinEventSpacing,
                          Record(s[0], cursor, starts)).positioned[i - 1].position
    ensures Place(s, cursor, starts).yearStarts
            == Place(s[1..], Here(s[0], cursor, starts) + MinEventSpacing, Record(s[0], cursor, starts)).yearStarts
  {
    var rest := Place(s[1..], Here(s[0], cursor, starts) + MinEventSpacing, Record(s[0], cursor, starts));
    assert Place(s, cursor, starts) == Placement([Positioned(s[0], Here(s[0], cursor, starts))] + rest.positioned, rest.yearStarts);
  }

  /** The loop over the whole sorted list, from the base offset. */
  function Placed(s: seq<Annotated>): Placement {
    Place(s, BaseYearPadding, map[])
  }

  /** Number of events in `t` that open a year not in `seen` and not opened
      earlier in `t`. */
  function NewYears(t: seq<Annotated>, seen: set<int>): nat {
    if |t| == 0 then 0
    else (if t[0].year in seen then 0 else 1) + NewYears(t[1..], seen + {t[0].year})
  }

  /** Counting year openings is counting distinct unseen years. */
  lemma {:induction false} NewYearsCountsYears(t: seq<Annotated>, seen: set<int>)
    ensures NewYears(t, seen) == |YearsOf(t) - seen|
    decreases |t|
  {
    if |t| == 0 {
      assert YearsOf(t) == {};
    } else {
      var y := t[0].year;
      NewYearsCountsYears(t[1..], seen + {y});
      YearsOfCons(t);
      var rest := YearsOf(t[1..]) - (seen + {y});
      if y in seen {
        assert YearsOf(t) - seen == rest;
      } else {
        assert YearsOf(t) - seen == rest + {y};
        assert y !in rest;
      }
    }
  }

  /** One step of the year-opening count. */
  lemma {:induction false} NewYearsStep(s: seq<Annotated>, seen: set<int>, i: nat)
    requires i < |s|
    ensures NewYears(s[..i + 1], seen)
            == (if s[0].year in seen then 0 else 1) + NewYears(s[1..][..i], seen + {s[0].year})
  {
    assert s[..i + 1][0] == s[0];
    assert s[..i + 1][1..] == s[1..][..i];
  }

  /** Positions of the loop in closed form: the `i`-th event sits the
      spacing times `i` below the starting cursor, plus the padding once for
      every year opened among the first `i + 1` events. */
  lemma {:induction false} PlaceClosedForm(s: seq<Annotated>, cursor: int, starts: map<int, int>, i: nat)
    requires i < |s|
    ensures Place(s, cursor, starts).positioned[i].position
            == cursor + 140 * i + 60 * NewYears(s[..i + 1], starts.Keys)
    decreases i
  {
    PlaceStep(s, cursor, starts, i);
    NewYearsStep(s, starts.Keys, i);
    if i > 0 {
      PlaceClosedForm(s[1..], Here(s[0], cursor, starts) + MinEventSpacing, Record(s[0], cursor, starts), i - 1);
    }
  }

  /** The year start the loop records is the position of that year's first
      event. */
  lemma {:induction false} PlaceYearStart(s: seq<Annotated>, cursor: int, starts: map<int, int>, y: int)
    requires y in YearsOf(s) && y !in starts
    ensures Place(s, cursor, starts).yearStarts[y]
            == Place(s, cursor, starts).positioned[FirstIndexOfYear(s, y)].position
    decreases |s|
  {
    if s[0].year == y {
      PlaceStep(s, cursor, starts, 0);
    } else {
      FirstIndexStep(s, y);
      PlaceYearStart(s[1..], Here(s[0], cursor, starts) + MinEventSpacing, Record(s[0], cursor, starts), y);
      PlaceStep(s, cursor, starts, FirstIndexOfYear(s, y));
    }
  }

  /** Closed form of one position of the whole list. */
  lemma {:induction false} PositionAt(s: seq<Annotated>, i: nat)
    requires i < |s|
    ensures Placed(s).positioned[i].position == 60 + 140 * i + 60 * |YearsOf(s[..i + 1])|
  {
    PlaceClosedForm(s, BaseYearPadding, map[], i);
    NewYearsCountsYears(s[..i + 1], {});
    assert YearsOf(s[..i + 1]) - {} == YearsOf(s[..i + 1]);
  }

  /** Closed form for the whole list: `position[i] = 60 + 140 i + 60 d(i)`
      where `d(i)` is the number of distinct years among events `0..i`. */
  lemma {:induction false} PositionClosedForm(s: seq<Annotated>)
    ensures forall i :: 0 <= i < |s| ==>
              Placed(s).positioned[i].position
              == 60 + 140 * i + 60 * |YearsOf(s[..i + 1])|
  {
    forall i | 0 <= i < |s|
      ensures Placed(s).positioned[i].position
              == 60 + 140 * i + 60 * |YearsOf(s[..i + 1])|
    {
      PositionAt(s, i);
    }
  }

  /** An event opens a year exactly when its year is not among the years of
      the events before it. */
  lemma {:induction false} FirstOfYearIff(s: seq<Annotated>, i: nat)
    requires i < |s|
    ensures FirstOfYear(s, i) <==> s[i].year !in YearsOf(s[..i])
  {
    if !FirstOfYear(s, i) {
      var j :| 0 <= j < i && s[j].year == s[i].year;
      assert s[..i][j] == s[j];
    }
  }

  lemma {:induction false} CardAddOne(a: set<int>, x: int)
    ensures |a + {x}| == |a| + (if x in a then 0 else 1)
  {
    if x in a {
      assert a + {x} == a;
    }
  }

  /** One step of the spacing: 140, or 200 before the first event of a
      year. */
  lemma {:induction false} PlacedStepAt(s: seq<Annotated>, i: nat)
    requires 0 < i < |s|
    ensures Placed(s).positioned[i].position - Placed(s).positioned[i - 1].position
            == 140 + (if FirstOfYear(s, i) then 60 else 0)
  {
    PositionAt(s, i);
    PositionAt(s, i - 1);
    assert s[..i - 1 + 1] == s[..i];
    YearsCountStep(s, i);
    StepArithmetic(Placed(s).positioned[i].position, Placed(s).positioned[i - 1].position, i,
                   |YearsOf(s[..i + 1])|, |YearsOf(s[..i])|, FirstOfYear(s, i));
  }

  /** The difference of two consecutive closed-form positions. */
  lemma {:induction false} StepArithmetic(p: int, q: int, i: int, a: int, b: int, opens: bool)
    requires p == 60 + 140 * i + 60 * a
    requires q == 60 + 140 * (i - 1) + 60 * b
    requires a == b + (if opens then 1 else 0)
    ensures p - q == 140 + (if opens then 60 else 0)
  {
  }

  /** The number of distinct years grows by one exactly at the first event
      of a year. */
  lemma {:induction false} YearsCountStep(s: seq<Annotated>, i: nat)
    requires i < |s|
    ensures |YearsOf(s[..i + 1])| == |YearsOf(s[..i])| + (if FirstOfYear(s, i) then 1 else 0)
  {
    YearsOfSnoc(s, i);
    FirstOfYearIff(s, i);
    CardAddOne(YearsOf(s[..i]), s[i].year);
  }

  /** Spacing: the first event sits at 120; each later event sits 140 below
      its predecessor, or 200 when it is the first event of its year. */
  lemma {:induction false} PlacedSpacing(s: seq<Annotated>)
    ensures |s| > 0 ==> Placed(s).positioned[0].position == 120
    ensures forall i :: 0 < i < |s| ==>
              Placed(s).positioned[i].position - Placed(s).positioned[i - 1].position
              == 140 + (if FirstOfYear(s, i) then 60 else 0)
  {
    if |s| > 0 {
      PositionAt(s, 0);
      YearsOfSnoc(s, 0);
    }
    forall i | 0 < i < |s|
      ensures Placed(s).positioned[i].position - Placed(s).positioned[i - 1].position
              == 140 + (if FirstOfYear(s, i) then 60 else 0)
    {
      PlacedStepAt(s, i);
    }
  }

  lemma {:induction false} PlacedStepAtLeast(s: seq<Annotated>, i: nat)
    requires 0 < i < |s|
    ensures Placed(s).positioned[i - 1].position + 140 <= Placed(s).positioned[i].position
  {
    PlacedStepAt(s, i);
  }

  /** Consecutive entries of `xs` are at least the spacing apart. */
  predicate Spaced(xs: seq<int>) {
    forall k :: 0 < k < |xs| ==> xs[k - 1] + 140 <= xs[k]
  }

  /** In a spaced list, entries `j - i` apart differ by at least `140 (j - i)`. */
  lemma {:induction false} SpacedGap(xs: seq<int>, i: nat, j: nat)
    requires Spaced(xs) && i < j < |xs|
    ensures xs[i] + 140 * (j - i) <= xs[j]
    decreases j - i
  {
    if i + 1 < j {
      SpacedGap(xs, i, j - 1);
    }
  }

  /** The positions of a placed list are spaced. */
  lemma {:induction false} PlacedSpaced(s: seq<Annotated>)
    ensures Spaced(Positions(Placed(s).positioned))
  {
    forall k | 0 < k < |s|
      ensures Positions(Placed(s).positioned)[k - 1] + 140 <= Positions(Placed(s).positioned)[k]
    {
      PlacedStepAtLeast(s, k);
    }
  }

  /** Positions strictly increase, by at least the spacing per step. */
  lemma {:induction false} PlacedGap(s: seq<Annotated>, i: nat, j: nat)
    requires i < j < |s|
    ensures Placed(s).positioned[i].position + 140 * (j - i) <= Placed(s).positioned[j].position
  {
    PlacedSpaced(s);
    SpacedGap(Positions(Placed(s).positioned), i, j);
  }

  /** `Placed` records a start for exactly the years of the list, namely
      the position of each year's first event. */
  lemma {:induction false} PlacedYearStarts(s: seq<Annotated>)
    ensures Placed(s).yearStarts.Keys == YearsOf(s)
    ensures forall y :: y in YearsOf(s) ==>
              Placed(s).yearStarts[y] == Placed(s).positioned[FirstIndexOfYear(s, y)].position
  {
    forall y | y in YearsOf(s)
      ensures Placed(s).yearStarts[y] == Placed(s).positioned[FirstIndexOfYear(s, y)].position
    {
      PlaceYearStart(s, BaseYearPadding, map[], y);
    }
  }

  // ---------------------------------------------------------------------
  // Year markers and height
  // ---------------------------------------------------------------------

  /** `years.filter(y => y < year && yearStarts.has(y))` over `ys`. */
  function EarlierYearsWithStart(ys: seq<int>, year: int, starts: map<int, int>): (r: seq<int>)
    ensures forall y :: y in r <==> y in ys && y < year && y in starts
  {
    if |ys| == 0 then []
    else
      var rest := EarlierYearsWithStart(ys[1..], year, starts);
      assert ys == [ys[0]] + ys[1..];
      if ys[0] < year && ys[0] in starts then [ys[0]] + rest else rest
  }

  /** The positions of the events of year `y`, in display order. */
  function PositionsOfYear(p: seq<Positioned>, y: int): (r: seq<int>)
    ensures forall k :: 0 <= k < |p| && p[k].item.year == y ==> p[k].position in r
    ensures forall x :: x in r ==> exists k :: 0 <= k < |p| && p[k].item.year == y && p[k].position == x
  {
    if |p| == 0 then []
    else
      var rest := PositionsOfYear(p[1..], y);
      assert forall k :: 1 <= k < |p| ==> p[k] == p[1..][k - 1];
      assert forall x :: x in rest ==> exists k :: 0 <= k < |p| && p[k].item.year == y && p[k].position == x by {
        forall x | x in rest
          ensures exists k :: 0 <= k < |p| && p[k].item.year == y && p[k].position == x
        {
          var k :| 0 <= k < |p[1..]| && p[1..][k].item.year == y && p[1..][k].position == x;
          assert p[k + 1] == p[1..][k];
        }
      }
      if p[0].item.year == y then [p[0].position] + rest else rest
  }

  /** The marker of one year: 30 above its recorded start when it has
      events; otherwise one spacing below the lowest event of the latest
      earlier year of the range that has a start; otherwise the base offset.
      (The code falls back to that year's start when it has no events, which
      cannot happen for starts the loop records.) */
  function YearMarker(year: int, p: seq<Positioned>, starts: map<int, int>): int {
    if year in starts then starts[year] - MarkerLift
    else
      var prev := EarlierYearsWithStart(MarkerYears, year, starts);
      if |prev| > 0 then
        var last := MaxOf(prev);
        var ps := PositionsOfYear(p, last);
        var lastEventPos := if |ps| > 0 then MaxOf(ps) else starts[last];
        lastEventPos + MinEventSpacing
      else BaseYearPadding
  }

  /** The `yearPos` map: a marker for every year of the range. */
  function YearPositions(p: seq<Positioned>, starts: map<int, int>): (r: map<int, int>)
    ensures forall y :: y in r <==> y in MarkerYears
  {
    map y | y in MarkerYears :: YearMarker(y, p, starts)
  }

  function Positions(p: seq<Positioned>): (r: seq<int>)
    ensures |r| == |p|
    ensures forall k :: 0 <= k < |p| ==> r[k] == p[k].position
  {
    seq(|p|, k requires 0 <= k < |p| => p[k].position)
  }

  /** Canvas height: the lowest position plus the bottom margin, or the
      fixed height when nothing is visible. */
  function TotalHeight(p: seq<Positioned>): (r: int)
    ensures |p| == 0 ==> r == EmptyHeight
    ensures forall k :: 0 <= k < |p| ==> p[k].position + BottomMargin <= r
    ensures |p| > 0 ==> exists k :: 0 <= k < |p| && r == p[k].position + BottomMargin
  {
    if |p| > 0 then
      var xs := Positions(p);
      assert forall k :: 0 <= k < |p| ==> xs[k] in xs;
      MaxOf(xs) + BottomMargin
    else EmptyHeight
  }

  /** The largest entry of a spaced list is its last one. */
  lemma {:induction false} SpacedMax(xs: seq<int>)
    requires |xs| > 0 && Spaced(xs)
    ensures MaxOf(xs) == xs[|xs| - 1]
  {
    forall k | 0 <= k < |xs| - 1
      ensures xs[k] < xs[|xs| - 1]
    {
      SpacedGap(xs, k, |xs| - 1);
    }
    assert xs[|xs| - 1] in xs;
  }

  /** Height of a placed list: the last position plus the margin, or the
      fixed height when the list is empty. */
  lemma {:induction false} PlacedHeight(s: seq<Annotated>)
    ensures TotalHeight(Placed(s).positioned)
            == if |s| > 0 then Placed(s).positioned[|s| - 1].position + 200 else 1000
    ensures forall k :: 0 <= k < |s| ==> Placed(s).positioned[k].position + 200 <= TotalHeight(Placed(s).positioned)
  {
    if |s| > 0 {
      var xs := Positions(Placed(s).positioned);
      PlacedSpaced(s);
      SpacedMax(xs);
      forall k | 0 <= k < |s|
        ensures Placed(s).positioned[k].position + 200 <= TotalHeight(Placed(s).positioned)
      {
        assert xs[k] in xs;
      }
    }
  }

  /** The latest year of the range before `year` that has a start is `last`
      when no year of the range between them has one. */
  lemma {:induction false} LatestEarlierYear(year: int, starts: map<int, int>, last: int)
    requires last in MarkerYears && last < year && last in starts
    requires forall z :: z in MarkerYears && last < z < year ==> z !in starts
    ensures |EarlierYearsWithStart(MarkerYears, year, starts)| > 0
    ensures MaxOf(EarlierYearsWithStart(MarkerYears, year, starts)) == last
  {
    assert last in EarlierYearsWithStart(MarkerYears, year, starts);
  }

  /** The marker of a year without a start that follows the year `last`,
      which has an event at index `k`: one spacing below the lowest event of
      `last`. */
  lemma {:induction false} MarkerAfterYear(year: int, p: seq<Positioned>, starts: map<int, int>, last: int, k: nat)
    requires year !in starts
    requires last in MarkerYears && last < year && last in starts
    requires forall z :: z in MarkerYears && last < z < year ==> z !in starts
    requires k < |p| && p[k].item.year == last
    ensures |PositionsOfYear(p, last)| > 0
    ensures YearMarker(year, p, starts) == MaxOf(PositionsOfYear(p, last)) + MinEventSpacing
    ensures exists j :: 0 <= j < |p| && p[j].item.year == last && YearMarker(year, p, starts) == p[j].position + 140
    ensures forall j :: 0 <= j < |p| && p[j].item.year == last ==> p[j].position + 140 <= YearMarker(year, p, starts)
  {
    LatestEarlierYear(year, starts, last);
    assert p[k].position in PositionsOfYear(p, last);
  }

  /** Every year the loop records a start for has an event, so the
      `yearStarts.get(lastYear) || 0` fallback of the marker is never
      taken for the loop's output. */
  lemma {:induction false} PlacedStartsHaveEvents(s: seq<Annotated>)
    ensures forall y :: y in Placed(s).yearStarts ==> |PositionsOfYear(Placed(s).positioned, y)| > 0
  {
    PlacedYearStarts(s);
    forall y | y in Placed(s).yearStarts
      ensures |PositionsOfYear(Placed(s).positioned, y)| > 0
    {
      var k := FirstIndexOfYear(s, y);
      assert Placed(s).positioned[k].item.year == y;
    }
  }

  // ---------------------------------------------------------------------
  // The whole computation
  // ---------------------------------------------------------------------

  datatype TimelineLayout = TimelineLayout(
    spacedEvents: seq<Positioned>,
    yearPositions: map<int, int>,
    totalHeight: int)

  /** The layout of the events visible under `active`. */
  function ComputeLayout(events: seq<Dated>, active: seq<Category>): TimelineLayout {
    var placed := Placed(Visible(events, active));
    TimelineLayout(
      placed.positioned,
      YearPositions(placed.positioned, placed.yearStarts),
      TotalHeight(placed.positioned))
  }

  /** The layout depends on the active categories only through membership. */
  lemma {:induction false} LayoutSameMembership(events: seq<Dated>, a: seq<Category>, b: seq<Category>)
    requires forall c :: c in a <==> c in b
    ensures ComputeLayout(events, a) == ComputeLayout(events, b)
  {
    FilterSameMembership(events, a, b);
  }

  /** Positions of the layout: one per visible event in display order, the
      first at 120, each later one 140 below its predecessor or 200 when it
      opens a year, and in closed form `60 + 140 i + 60 d(i)`. */
  lemma {:induction false} LayoutPositions(events: seq<Dated>, active: seq<Category>)
    ensures var s := Visible(events, active);
            var p := ComputeLayout(events, active).spacedEvents;
            && |p| == |s|
            && (forall i :: 0 <= i < |s| ==> p[i].item == s[i])
            && (|s| > 0 ==> p[0].position == 120)
            && (forall i :: 0 < i < |s| ==>
                  p[i].position - p[i - 1].position
                  == 140 + (if FirstOfYear(s, i) then 60 else 0))
            && (forall i :: 0 <= i < |s| ==>
                  p[i].position == 60 + 140 * i + 60 * |YearsOf(s[..i + 1])|)
  {
    var s := Visible(events, active);
    PlacedSpacing(s);
    PositionClosedForm(s);
  }

  /** Height: the last position plus the margin when an event is visible
      (the last event is the lowest one), 1000 otherwise. */
  lemma {:induction false} LayoutHeight(events: seq<Dated>, active: seq<Category>)
    ensures ComputeLayout(events, active).totalHeight
            == if |ComputeLayout(events, active).spacedEvents| > 0
               then ComputeLayout(events, active).spacedEvents[|ComputeLayout(events, active).spacedEvents| - 1].position + 200
               else 1000
    ensures forall k :: 0 <= k < |ComputeLayout(events, active).spacedEvents| ==>
              ComputeLayout(events, active).spacedEvents[k].position + 200 <= ComputeLayout(events, active).totalHeight
  {
    PlacedHeight(Visible(events, active));
  }

  /** Every year of the range has a marker. A year with events gets the
      position of its first event minus 30. */
  lemma {:induction false} LayoutMarkersWithEvents(events: seq<Dated>, active: seq<Category>)
    ensures forall y :: y in ComputeLayout(events, active).yearPositions <==> y in MarkerYears
    ensures var s := Visible(events, active);
            var l := ComputeLayout(events, active);
            forall y :: y in MarkerYears && y in YearsOf(s) ==>
              l.yearPositions[y] == l.spacedEvents[FirstIndexOfYear(s, y)].position - MarkerLift
  {
    PlacedYearStarts(Visible(events, active));
  }

  /** `MarkerAfterYear` for a placed list, stated over its years. */
  lemma {:induction false} PlacedMarkerAfterYear(s: seq<Annotated>, year: int, last: int)
    requires year in MarkerYears && year !in YearsOf(s)
    requires last in MarkerYears && last < year && last in YearsOf(s)
    requires forall z :: z in MarkerYears && last < z < year ==> z !in YearsOf(s)
    ensures exists k :: 0 <= k < |s| && s[k].year == last
              && YearMarker(year, Placed(s).positioned, Placed(s).yearStarts) == Placed(s).positioned[k].position + 140
    ensures forall k :: 0 <= k < |s| && s[k].year == last ==>
              Placed(s).positioned[k].position + 140 <= YearMarker(year, Placed(s).positioned, Placed(s).yearStarts)
  {
    PlacedYearStarts(s);
    MarkerAfterYear(year, Placed(s).positioned, Placed(s).yearStarts, last, FirstIndexOfYear(s, last));
  }

  /** A year of the range without events, after an earlier year of the
      range that has events: the marker sits one spacing below the lowest
      event of the latest such year `last`. */
  lemma {:induction false} LayoutMarkerAfterEarlierYear(events: seq<Dated>, active: seq<Category>, year: int, last: int)
    requires year in MarkerYears && year !in YearsOf(Visible(events, active))
    requires last in MarkerYears && last < year && last in YearsOf(Visible(events, active))
    requires forall z :: z in MarkerYears && last < z < year ==> z !in YearsOf(Visible(events, active))
    ensures exists k :: 0 <= k < |Visible(events, active)| && Visible(events, active)[k].year == last
              && ComputeLayout(events, active).yearPositions[year]
                 == ComputeLayout(events, active).spacedEvents[k].position + 140
    ensures forall k :: 0 <= k < |Visible(events, active)| && Visible(events, active)[k].year == last ==>
              ComputeLayout(events, active).spacedEvents[k].position + 140
              <= ComputeLayout(events, active).yearPositions[year]
  {
    PlacedMarkerAfterYear(Visible(events, active), year, last);
  }

  /** A year of the range without events and with no earlier year of the
      range having events: the marker sits at the base offset. */
  lemma {:induction false} LayoutMarkerBeforeAnyEvent(events: seq<Dated>, active: seq<Category>, year: int)
    requires year in MarkerYears && year !in YearsOf(Visible(events, active))
    requires forall z :: z in MarkerYears && z < year ==> z !in YearsOf(Visible(events, active))
    ensures ComputeLayout(events, active).yearPositions[year] == BaseYearPadding
  {
    PlacedYearStarts(Visible(events, active));
  }

  /** A worked example: two events in 2020 and one in 2021, in display
      order, sit at 120, 260 and 460. */
  lemma {:induction false} ThreeEventPositions(s: seq<Annotated>)
    requires |s| == 3 && s[0].year == 2020 && s[1].year == 2020 && s[2].year == 2021
    ensures Placed(s).positioned[0].position == 120
    ensures Placed(s).positioned[1].position == 260
    ensures Placed(s).positioned[2].position == 460
  {
    PlacedStepAt(s, 1);
    PlacedStepAt(s, 2);
    PlacedSpacing(s);
    assert !FirstOfYear(s, 1) && FirstOfYear(s, 2);
  }

  /** The canvas for the three events is 660 high. */
  lemma {:induction false} ThreeEventHeight(s: seq<Annotated>)
    requires |s| == 3 && s[0].year == 2020 && s[1].year == 2020 && s[2].year == 2021
    ensures TotalHeight(Placed(s).positioned) == 660
  {
    ThreeEventPositions(s);
    PlacedHeight(s);
  }

  /** The markers of the years with events sit 30 above their first events:
      2020 at 90 and 2021 at 430. */
  lemma {:induction false} ThreeEventMarkers(s: seq<Annotated>)
    requires |s| == 3 && s[0].year == 2020 && s[1].year == 2020 && s[2].year == 2021
    ensures YearPositions(Placed(s).positioned, Placed(s).yearStarts)[2020] == 90
    ensures YearPositions(Placed(s).positioned, Placed(s).yearStarts)[2021] == 430
  {
    ThreeEventPositions(s);
    assert s[0].year in YearsOf(s) && s[2].year in YearsOf(s);
    PlaceYearStart(s, BaseYearPadding, map[], 2020);
    PlaceYearStart(s, BaseYearPadding, map[], 2021);
    assert FirstIndexOfYear(s, 2020) == 0;
    assert FirstIndexOfYear(s, 2021) == 2;
  }
}
