/** The view projection of the Pokédex component: the search filter over the
    fetched records, the "no results" condition, and the card each shown record
    becomes (type badges and four stat bars). */
module Apokedex {
  import opened Text
  import opened TypeColors

  /** A fetched creature. `types` holds the `type.name` of each entry of the
      record's types, `stats` the `base_stat` of each entry of its stats, both
      in the order the record lists them. */
  datatype Record = Record(id: int, name: string, types: seq<string>, stats: seq<int>)

  // ---------------------------------------------------------------------------
  // Search filter
  // ---------------------------------------------------------------------------

  /** The filter's test: the lower-cased name includes the lower-cased query.
      The empty query matches every record, and a matching query is never
      longer than the name. */
  predicate Matches(r: Record, query: string)
    ensures query == "" ==> Matches(r, query)
    ensures Matches(r, query) ==> |query| <= |r.name|
  {
    Includes(Lower(r.name), Lower(query))
  }

  /** `list.filter(p => Matches(p, query))`. Array filtering visits the records
      from the front; peeling off the last record gives the same list. */
  function FilterByName(list: seq<Record>, query: string): (kept: seq<Record>)
    ensures |kept| <= |list|
    ensures forall x :: x in kept <==> x in list && Matches(x, query)
    decreases |list|
  {
    if list == [] then []
    else
      var init, last := list[..|list| - 1], list[|list| - 1];
      assert list == init + [last];
      if Matches(last, query) then FilterByName(init, query) + [last]
      else FilterByName(init, query)
  }

  /** `filteredPokemons`: the whole list while the search box is empty,
      otherwise the records whose name matches the query. */
  function FilteredPokemons(list: seq<Record>, search: string): (shown: seq<Record>)
    ensures search == "" ==> shown == list
    ensures |shown| <= |list|
    ensures forall x :: x in shown <==> x in list && Matches(x, search)
  {
    if search == "" then list else FilterByName(list, search)
  }

  // ---------------------------------------------------------------------------
  // The filter as a selection of positions
  // ---------------------------------------------------------------------------

  ghost predicate Increasing(idx: seq<int>) {
    forall j, k :: 0 <= j < k < |idx| ==> idx[j] < idx[k]
  }

  /** `shown` is `list[idx[0]], list[idx[1]], ...` for increasing positions
      `idx`, and those positions are exactly the ones whose record matches. */
  ghost predicate SelectedAt(shown: seq<Record>, list: seq<Record>, query: string, idx: seq<int>) {
    && |idx| == |shown|
    && Increasing(idx)
    && (forall k :: 0 <= k < |idx| ==> 0 <= idx[k] < |list| && shown[k] == list[idx[k]])
    && (forall i :: 0 <= i < |list| ==> (Matches(list[i], query) <==> i in idx))
  }

  /** `shown` keeps, in their original order, exactly the matching records. */
  ghost predicate IsSelection(shown: seq<Record>, list: seq<Record>, query: string) {
    exists idx :: SelectedAt(shown, list, query, idx)
  }

  /** Appending a position beyond every listed one keeps the positions increasing. */
  lemma IncreasingSnoc(idx: seq<int>, n: int)
    requires Increasing(idx) && forall k :: 0 <= k < |idx| ==> idx[k] < n
    ensures Increasing(idx + [n])
  {
  }

  /** Appending a matching record to the list extends a selection by that record. */
  lemma SelectedAtSnocKept(kept: seq<Record>, init: seq<Record>, query: string, idx: seq<int>, last: Record)
    requires SelectedAt(kept, init, query, idx) && Matches(last, query)
    ensures SelectedAt(kept + [last], init + [last], query, idx + [|init|])
  {
    var list, n := init + [last], |init|;
    var kept', idx' := kept + [last], idx + [n];
    IncreasingSnoc(idx, n);
    assert forall i :: 0 <= i < n ==> list[i] == init[i];
    assert forall k :: 0 <= k < |idx| ==> idx'[k] == idx[k];
  }

  /** Appending a record that does not match leaves a selection as it is. */
  lemma SelectedAtSnocDropped(kept: seq<Record>, init: seq<Record>, query: string, idx: seq<int>, last: Record)
    requires SelectedAt(kept, init, query, idx) && !Matches(last, query)
    ensures SelectedAt(kept, init + [last], query, idx)
  {
    var list, n := init + [last], |init|;
    assert forall i :: 0 <= i < n ==> list[i] == init[i];
    assert n !in idx;
    assert forall k :: 0 <= k < |idx| ==> 0 <= idx[k] < |list| && kept[k] == list[idx[k]];
  }

  /** The filter keeps exactly the matching positions, in order. */
  lemma {:induction false} FilterSelectedAt(list: seq<Record>, query: string) returns (idx: seq<int>)
    ensures SelectedAt(FilterByName(list, query), list, query, idx)
    decreases |list|
  {
    if list == [] {
      idx := [];
    } else {
      var n := |list| - 1;
      var init, last := list[..n], list[n];
      assert list == init + [last];
      var prev := FilterSelectedAt(init, query);
      if Matches(last, query) {
        SelectedAtSnocKept(FilterByName(init, query), init, query, prev, last);
        idx := prev + [n];
      } else {
        SelectedAtSnocDropped(FilterByName(init, query), init, query, prev, last);
        idx := prev;
      }
    }
  }

  /** Two increasing sequences with the same elements are equal. */
  lemma {:induction false} IncreasingSameElements(a: seq<int>, b: seq<int>)
    requires Increasing(a) && Increasing(b)
    requires forall x :: x in a <==> x in b
    ensures a == b
    decreases |a|
  {
    if a != [] {
      assert a[0] in a;
    }
    if b != [] {
      assert b[0] in b;
    }
    if a != [] && b != [] {
      assert a[0] == b[0];
      forall x
        ensures x in a[1..] <==> x in b[1..]
      {
        assert x in a[1..] <==> x in a && x != a[0];
        assert x in b[1..] <==> x in b && x != b[0];
      }
      IncreasingSameElements(a[1..], b[1..]);
      assert a == [a[0]] + a[1..];
      assert b == [b[0]] + b[1..];
    }
  }

  /** At most one list keeps exactly the matching records in their original order. */
  lemma SelectionUnique(shown1: seq<Record>, shown2: seq<Record>, list: seq<Record>, query: string)
    requires IsSelection(shown1, list, query) && IsSelection(shown2, list, query)
    ensures shown1 == shown2
  {
    var idx1 :| SelectedAt(shown1, list, query, idx1);
    var idx2 :| SelectedAt(shown2, list, query, idx2);
    IncreasingSameElements(idx1, idx2);
  }

  /** An empty query matches every name, so the filter alone would already
      leave the list as it is: the ternary on the query only skips work. */
  lemma {:induction false} FilterEmptyQuery(list: seq<Record>)
    ensures FilterByName(list, "") == list
    decreases |list|
  {
    if list != [] {
      var n := |list| - 1;
      FilterEmptyQuery(list[..n]);
      IncludesEmpty(Lower(list[n].name));
      assert list == list[..n] + [list[n]];
    }
  }

  /** The ternary never changes the outcome. */
  lemma FilteredIsFilter(list: seq<Record>, search: string)
    ensures FilteredPokemons(list, search) == FilterByName(list, search)
  {
    if search == "" {
      FilterEmptyQuery(list);
    }
  }

  /** The shown list is the one and only list that keeps, in their original
      order, exactly the records whose lower-cased name includes the
      lower-cased query. */
  lemma FilteredCharacterised(list: seq<Record>, search: string, shown: seq<Record>)
    ensures shown == FilteredPokemons(list, search) <==> IsSelection(shown, list, search)
  {
    FilteredIsFilter(list, search);
    var idx := FilterSelectedAt(list, search);
    if IsSelection(shown, list, search) {
      SelectionUnique(shown, FilteredPokemons(list, search), list, search);
    }
  }

  /** Filtering a list whose every record matches leaves it unchanged. */
  lemma {:induction false} FilterAllMatching(list: seq<Record>, query: string)
    requires forall x :: x in list ==> Matches(x, query)
    ensures FilterByName(list, query) == list
    decreases |list|
  {
    if list != [] {
      var n := |list| - 1;
      assert list == list[..n] + [list[n]];
      FilterAllMatching(list[..n], query);
    }
  }

  /** Searching again with the same query changes nothing. */
  lemma FilteredIdempotent(list: seq<Record>, search: string)
    ensures FilteredPokemons(FilteredPokemons(list, search), search) == FilteredPokemons(list, search)
  {
    FilteredIsFilter(list, search);
    FilteredIsFilter(FilteredPokemons(list, search), search);
    FilterAllMatching(FilterByName(list, search), search);
  }

  /** Filtering depends on the query only through which records it matches. */
  lemma {:induction false} FilterSameMatches(list: seq<Record>, q1: string, q2: string)
    requires forall x :: x in list ==> (Matches(x, q1) <==> Matches(x, q2))
    ensures FilterByName(list, q1) == FilterByName(list, q2)
    decreases |list|
  {
    if list != [] {
      var n := |list| - 1;
      assert list == list[..n] + [list[n]];
      FilterSameMatches(list[..n], q1, q2);
    }
  }

  /** The search is case-insensitive: queries that agree once lower-cased show
      the same records. */
  lemma FilteredCaseInsensitive(list: seq<Record>, q1: string, q2: string)
    requires Lower(q1) == Lower(q2)
    ensures FilteredPokemons(list, q1) == FilteredPokemons(list, q2)
  {
    FilteredIsFilter(list, q1);
    FilteredIsFilter(list, q2);
    FilterSameMatches(list, q1, q2);
  }

  /** Filtering by `q1` and then by `q2` is filtering by `q2` alone, when every
      record `q2` matches is also matched by `q1`. */
  lemma {:induction false} FilterNarrowing(list: seq<Record>, q1: string, q2: string)
    requires forall x :: x in list && Matches(x, q2) ==> Matches(x, q1)
    ensures FilterByName(FilterByName(list, q1), q2) == FilterByName(list, q2)
    decreases |list|
  {
    if list != [] {
      var n := |list| - 1;
      var init, last := list[..n], list[n];
      assert list == init + [last];
      FilterNarrowing(init, q1, q2);
      if Matches(last, q1) {
        var prefix := FilterByName(init, q1);
        assert (prefix + [last])[..|prefix|] == prefix;
      }
    }
  }

  /** Typing more into the search box only narrows what is shown: when the old
      query occurs in the new one (case-insensitively), the new results are the
      old results filtered by the new query. */
  lemma FilteredRefines(list: seq<Record>, oldSearch: string, newSearch: string)
    requires Includes(Lower(newSearch), Lower(oldSearch))
    ensures FilteredPokemons(list, newSearch) == FilterByName(FilteredPokemons(list, oldSearch), newSearch)
  {
    forall x | x in list && Matches(x, newSearch)
      ensures Matches(x, oldSearch)
    {
      IncludesTransitive(Lower(x.name), Lower(newSearch), Lower(oldSearch));
    }
    FilteredIsFilter(list, oldSearch);
    FilteredIsFilter(list, newSearch);
    FilterNarrowing(list, oldSearch, newSearch);
  }

  /** Appending one character to the query narrows the results. */
  lemma FilteredTypingNarrows(list: seq<Record>, search: string, c: char)
    ensures FilteredPokemons(list, search + [c]) == FilterByName(FilteredPokemons(list, search), search + [c])
  {
    LowerAppend(search, [c]);
    IncludesPrefix(Lower(search), Lower([c]));
    FilteredRefines(list, search, search + [c]);
  }

  /** When exactly one record matches, the grid shows exactly that record. */
  lemma FilteredSingleMatch(list: seq<Record>, search: string, i: int)
    requires 0 <= i < |list| && Matches(list[i], search)
    requires forall j :: 0 <= j < |list| && j != i ==> !Matches(list[j], search)
    ensures FilteredPokemons(list, search) == [list[i]]
  {
    assert SelectedAt([list[i]], list, search, [i]);
    FilteredCharacterised(list, search, [list[i]]);
  }

  // ---------------------------------------------------------------------------
  // "No results"
  // ---------------------------------------------------------------------------

  /** The "no results" paragraph is rendered when the filtered list is empty,
      which is exactly when no record matches the search. It does not look at
      the loading flag. */
  predicate NoResults(list: seq<Record>, search: string)
    ensures NoResults(list, search) <==> forall x :: x in list ==> !Matches(x, search)
  {
    var shown := FilteredPokemons(list, search);
    assert shown != [] ==> shown[0] in shown;
    |shown| == 0
  }

  /** With an empty search box the message shows exactly when there are no
      records at all; with no records it shows whatever the search. */
  lemma NoResultsIff(list: seq<Record>, search: string)
    ensures search == "" ==> (NoResults(list, search) <==> list == [])
    ensures list == [] ==> NoResults(list, search)
  {
    if list != [] {
      assert list[0] in list;
    }
  }

  // ---------------------------------------------------------------------------
  // Cards
  // ---------------------------------------------------------------------------

  /** `stats?.[i]?.base_stat || 0`: the stat at position `i`, or 0 when the
      record has no such position. A present 0 is replaced by 0. */
  function Stat(stats: seq<int>, i: nat): (v: int)
    ensures i < |stats| ==> v == stats[i]
    ensures i >= |stats| ==> v == 0
  {
    if i < |stats| && stats[i] != 0 then stats[i] else 0
  }

  /** `Math.min(value, 100)`: the bar width in percent, capped from above only. */
  function BarWidth(value: int): (w: int)
    ensures w <= 100 && w <= value
    ensures w == value || w == 100
  {
    if value <= 100 then value else 100
  }

  /** Nothing raises a bar's width: a negative stat gives a negative width. */
  lemma BarWidthNoLowerClamp(value: int)
    requires value < 0
    ensures BarWidth(value) == value && BarWidth(value) < 0
  {
  }

  /** One row of the stats panel: the caption, the raw value printed beside it,
      and the width of its bar. */
  datatype StatBar = StatBar(caption: string, value: int, width: int)

  /** One type badge: the type's name and its background class. */
  datatype TypeBadge = TypeBadge(typeName: string, colorClass: string)

  /** What the grid renders for one record. */
  datatype Card = Card(id: int, name: string, badges: seq<TypeBadge>, bars: seq<StatBar>)

  /** The four stat labels, in the order of the first four stats. */
  const StatLabels: seq<string> := ["PS", "ATQ", "DEF", "ESP-ATQ"]

  /** One `[label, value]` row: the caption and the raw value as given, and a
      bar exactly `min(value, 100)` wide. */
  function Bar(caption: string, value: int): (b: StatBar)
    ensures b.caption == caption && b.value == value
    ensures b.width <= 100 && (value <= 100 ==> b.width == value)
    ensures value > 100 ==> b.width == 100
  {
    StatBar(caption, value, BarWidth(value))
  }

  /** The card of one record: its id and name, one badge per type in order,
      and the bars for HP, attack, defense and special attack. */
  function ToCard(r: Record): (c: Card)
    ensures c.id == r.id && c.name == r.name
    ensures |c.badges| == |r.types|
    ensures forall j :: 0 <= j < |r.types| ==>
      c.badges[j].typeName == r.types[j] &&
      (r.types[j] in Table ==> c.badges[j].colorClass == Table[r.types[j]]) &&
      (r.types[j] !in Table ==> c.badges[j].colorClass == DefaultColor)
    ensures |c.bars| == |StatLabels|
    ensures forall k :: 0 <= k < |StatLabels| ==>
      c.bars[k].caption == StatLabels[k] &&
      (k < |r.stats| ==> c.bars[k].value == r.stats[k]) &&
      (k >= |r.stats| ==> c.bars[k].value == 0) &&
      c.bars[k].width <= 100 &&
      (c.bars[k].value <= 100 ==> c.bars[k].width == c.bars[k].value) &&
      (c.bars[k].value > 100 ==> c.bars[k].width == 100)
  {
    var hp := Stat(r.stats, 0);
    var attack := Stat(r.stats, 1);
    var defense := Stat(r.stats, 2);
    var specialAttack := Stat(r.stats, 3);
    var badges := seq(|r.types|, j requires 0 <= j < |r.types| => TypeBadge(r.types[j], TypeColor(r.types[j])));
    Card(r.id, r.name, badges,
         [Bar("PS", hp), Bar("ATQ", attack), Bar("DEF", defense), Bar("ESP-ATQ", specialAttack)])
  }

  /** The grid: one card per shown record, in the shown order. */
  function Project(list: seq<Record>, search: string): (cards: seq<Card>)
    ensures |cards| == |FilteredPokemons(list, search)|
    ensures forall k :: 0 <= k < |cards| ==> cards[k] == ToCard(FilteredPokemons(list, search)[k])
  {
    var shown := FilteredPokemons(list, search);
    seq(|shown|, k requires 0 <= k < |shown| => ToCard(shown[k]))
  }

  /** The grid is empty exactly when the "no results" message is shown. */
  lemma ProjectEmptyIff(list: seq<Record>, search: string)
    ensures Project(list, search) == [] <==> NoResults(list, search)
  {
  }

  /** With an empty search box the grid has one card per record, in list order. */
  lemma ProjectEmptySearch(list: seq<Record>)
    ensures |Project(list, "")| == |list|
    ensures forall k :: 0 <= k < |list| ==> Project(list, "")[k].id == list[k].id
  {
  }

  /** When exactly one record matches the search, the grid shows one card, the
      card of that record. */
  lemma ProjectSingleMatch(list: seq<Record>, search: string, i: int)
    requires 0 <= i < |list| && Matches(list[i], search)
    requires forall j :: 0 <= j < |list| && j != i ==> !Matches(list[j], search)
    ensures Project(list, search) == [ToCard(list[i])]
    ensures Project(list, search)[0].id == list[i].id
  {
    FilteredSingleMatch(list, search, i);
  }
}
