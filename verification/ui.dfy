/** The two click handlers of the page: toggling a category in the legend
    and expanding or collapsing an event card. */
module Ui {
  import opened Categories
  import opened Events
  import opened Layout

  /** The active categories when the page opens: all of them, in the order
      the category table declares them. */
  const InitialActive: seq<Category> := Declared

  /** `prev.filter(c => c !== category)`. */
  function Remove(s: seq<Category>, c: Category): (r: seq<Category>)
    ensures c !in r
    ensures forall d :: d != c ==> (d in r <==> d in s)
    ensures forall d :: d != c ==> multiset(r)[d] == multiset(s)[d]
  {
    if |s| == 0 then []
    else
      assert s == [s[0]] + s[1..];
      if s[0] == c then Remove(s[1..], c) else [s[0]] + Remove(s[1..], c)
  }

  /** Removing a category that is absent changes nothing. */
  lemma {:induction false} RemoveAbsent(s: seq<Category>, c: Category)
    requires c !in s
    ensures Remove(s, c) == s
  {
    if |s| > 0 {
      assert s[0] != c && c !in s[1..];
      RemoveAbsent(s[1..], c);
    }
  }

  /** Removing distributes over concatenation. */
  lemma {:induction false} RemoveAppend(a: seq<Category>, b: seq<Category>, c: Category)
    ensures Remove(a + b, c) == Remove(a, c) + Remove(b, c)
    decreases |a|
  {
    if |a| == 0 {
      assert a + b == b;
    } else {
      assert (a + b)[1..] == a[1..] + b;
      RemoveAppend(a[1..], b, c);
    }
  }

  /** `toggleCategory`: an active category is removed (every occurrence of
      it), an inactive one is appended at the end. */
  function ToggleCategory(active: seq<Category>, c: Category): (r: seq<Category>)
    ensures c in r <==> c !in active
    ensures forall d :: d != c ==> (d in r <==> d in active)
    ensures c !in active ==> r == active + [c]
    ensures c in active ==> forall d :: d != c ==> multiset(r)[d] == multiset(active)[d]
  {
    if c in active then Remove(active, c) else active + [c]
  }

  /** Toggling twice restores the set of active categories. */
  lemma {:induction false} ToggleTwiceSameMembership(active: seq<Category>, c: Category)
    ensures forall d :: d in ToggleCategory(ToggleCategory(active, c), c) <==> d in active
  {
  }

  /** Toggling an inactive category on and off again restores the list
      exactly. */
  lemma {:induction false} ToggleTwiceRestores(active: seq<Category>, c: Category)
    requires c !in active
    ensures ToggleCategory(ToggleCategory(active, c), c) == active
  {
    RemoveAppend(active, [c], c);
    RemoveAbsent(active, c);
    assert Remove([c], c) == [];
  }

  /** Switching a category off and on again leaves the layout unchanged, even
      though the category moves to the end of the active list. */
  lemma {:induction false} LayoutToggleRoundTrip(events: seq<Dated>, active: seq<Category>, c: Category)
    ensures ComputeLayout(events, ToggleCategory(ToggleCategory(active, c), c)) == ComputeLayout(events, active)
  {
    ToggleTwiceSameMembership(active, c);
    LayoutSameMembership(events, ToggleCategory(ToggleCategory(active, c), c), active);
  }

  /** Switching an active category off hides exactly its events. */
  lemma {:induction false} ToggleOffHides(events: seq<Dated>, active: seq<Category>, c: Category)
    requires c in active
    ensures forall e :: e in FilterActive(events, ToggleCategory(active, c)) <==>
              e in FilterActive(events, active) && e.event.category != c
  {
  }

  /** Every category is active initially. */
  lemma {:induction false} InitiallyAllActive(c: Category)
    ensures c in InitialActive
  {
    assert Declared[Rank(c)] == c;
  }

  /** With every category active, nothing is filtered out. */
  lemma {:induction false} AllActiveKeepsAll(events: seq<Dated>)
    ensures FilterActive(events, InitialActive) == events
  {
    forall k | 0 <= k < |events|
      ensures events[k].event.category in InitialActive
    {
      InitiallyAllActive(events[k].event.category);
    }
    FilterKeepsAll(events, InitialActive);
  }

  datatype Option<T> = None | Some(value: T)

  /** The expanded cards (by position in the display order) and the card
      drawn on top. */
  datatype ViewState = ViewState(expanded: set<int>, topEvent: Option<int>)

  /** `handleEventClick`: the clicked card goes on top and its expanded
      state flips; every other card keeps its state. */
  function HandleEventClick(state: ViewState, index: int): (r: ViewState)
    ensures r.topEvent == Some(index)
    ensures index in r.expanded <==> index !in state.expanded
    ensures forall j :: j != index ==> (j in r.expanded <==> j in state.expanded)
  {
    ViewState(if index in state.expanded then state.expanded - {index} else state.expanded + {index}, Some(index))
  }

  /** Clicking the same card twice restores the expanded set. */
  lemma {:induction false} ClickTwiceRestoresExpanded(state: ViewState, index: int)
    ensures HandleEventClick(HandleEventClick(state, index), index).expanded == state.expanded
  {
  }
}
