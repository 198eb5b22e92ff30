# Pokédex view projection

A Dafny model of the view projection of `ApokedexComponent`, the single React
component of this Pokédex. The component fetches the first 151 creatures and
renders them as a searchable grid of cards. This model covers what happens
after the fetch, on every render:

- the **search filter** `filteredPokemons`. An empty search box shows the whole
  list. Otherwise the grid keeps, in their original order, the records whose
  lower-cased name includes the lower-cased query;
- the **"no results"** paragraph, shown when the filtered list is empty;
- the **card** of each shown record:
  - one badge per type, coloured through the static `typeColors` table, with
    `"bg-gray-400"` as the fallback;
  - four stat bars (PS, ATQ, DEF, ESP-ATQ). They read `stats[0..3].base_stat`,
    and a missing entry counts as 0. Each bar prints the raw value and has a
    width of `Math.min(value, 100)` percent.

Everything here is an expression in the source, so the model is made of
datatypes, functions and lemmas, in three modules:

- `Text` (`text.dfy`): `toLowerCase` restricted to ASCII (`Lower`) and
  `String.prototype.includes` (`Includes`), with `Includes` proved equal to
  "occurs at some position".
- `TypeColors` (`type_colors.dfy`): the eighteen-entry colour table and the
  lookup with its default.
- `Apokedex` (`apokedex.dfy`): records, the filter, the no-results condition,
  stat extraction, bar width, cards and the grid.

The filter has an independent reference definition, `IsSelection`. A list is a
selection when it is `list[idx[0]], list[idx[1]], …` for increasing positions
`idx`, and those positions are exactly the ones whose record matches.
`FilteredCharacterised` proves that the shown list is the one and only such
selection. Idempotence, case-insensitivity, narrowing as the user types, and
the grid for a search that matches exactly one record (e.g. "pika" among the
first 151) all follow from it or from the filter's own contract.

Three facts about the code that the model keeps as they are:

- The bar width is capped from above only (`Math.min(value, 100)` at line 121),
  so a negative stat gives a negative width (`BarWidthNoLowerClamp`).
- The "no results" message at line 134 does not look at `loading`. While the
  first fetch is in flight the list is empty, so the message shows together
  with the "Cargando..." button. `NoResults` therefore takes no loading flag.
- Badges follow the record's `types` sequence (line 100), order and repeats
  included, so `ToCard` keeps a sequence of badges.

## Model

| member | source | states |
|---|---|---|
| `Text.LowerChar` | src/components/ApokedexComponent.jsx:57 | lower-casing one character never yields an upper-case ASCII letter; it keeps every other character and maps A..Z onto a..z |
| `Text.Lower` | src/components/ApokedexComponent.jsx:57 | `toLowerCase` keeps the length, lower-cases position by position, and leaves no upper-case letter |
| `Text.LowerFixedPoint` | src/components/ApokedexComponent.jsx:57 | lower-casing leaves a string unchanged exactly when it has no upper-case letter |
| `Text.LowerIdempotent` | src/components/ApokedexComponent.jsx:57 | lower-casing twice equals lower-casing once |
| `Text.LowerAppend` | src/components/ApokedexComponent.jsx:57 | lower-casing distributes over concatenation |
| `Text.OccursInTail` | src/components/ApokedexComponent.jsx:57 | when `t` is not a prefix of a non-empty `s`, `t` occurs in `s` exactly when it occurs in the tail of `s` |
| `Text.Includes` | src/components/ApokedexComponent.jsx:57 | `s.includes(t)`, defined by trying each start position from the left; it holds exactly when `t` occurs in `s` at some position |
| `Text.IncludesEmpty` | src/components/ApokedexComponent.jsx:57 | every string includes the empty string |
| `Text.IncludesTransitive` | src/components/ApokedexComponent.jsx:57 | if `s` includes `t` and `t` includes `u`, then `s` includes `u` |
| `Text.IncludesPrefix` | src/components/ApokedexComponent.jsx:57 | a string includes each of its prefixes |
| `TypeColors.TypeColor` | src/components/ApokedexComponent.jsx:103 | the lookup `typeColors[name]` with its fallback, over the constants `Table` (the eighteen entries of lines 3-22) and `DefaultColor`: a type listed in the table gets its listed class, because no listed class is empty; any other name gets `"bg-gray-400"` |
| `TypeColors.TableKeys` | src/components/ApokedexComponent.jsx:3-22 | the keys of `Table` are exactly the eighteen names lines 4-21 list |
| `TypeColors.TypeNamesCount` | src/components/ApokedexComponent.jsx:3-22 | the eighteen type names are distinct |
| `TypeColors.TableSize` | src/components/ApokedexComponent.jsx:3-22 | the table has exactly eighteen entries |
| `TypeColors.TypeColorInTable` | src/components/ApokedexComponent.jsx:103 | every badge class, the default included, is one of the table's classes |
| `TypeColors.TableInjective` | src/components/ApokedexComponent.jsx:3-22 | two different listed types get different classes |
| `TypeColors.SteelLooksUnknown` | src/components/ApokedexComponent.jsx:19 | the badge is the default class exactly for "steel" and for unlisted names, so the colouring is not injective |
| `Apokedex.Matches` | src/components/ApokedexComponent.jsx:57 | the `.filter` callback: the lower-cased name includes the lower-cased query; the empty query matches every record, and a matching query is never longer than the name |
| `Apokedex.FilterByName` | src/components/ApokedexComponent.jsx:56-58 | the filtered list is no longer than the input, and a record is in it exactly when it is in the input and its lower-cased name includes the lower-cased query |
| `Apokedex.FilteredPokemons` | src/components/ApokedexComponent.jsx:55-59 | an empty search shows the list unchanged; in every case the shown records are exactly the input's matching records, and there are no more of them than inputs |
| `Apokedex.FilterSelectedAt` | src/components/ApokedexComponent.jsx:56-58 | the filter keeps the matching positions and only those, in increasing order |
| `Apokedex.SelectionUnique` | src/components/ApokedexComponent.jsx:56-58 | at most one list keeps exactly the matching records in their original order |
| `Apokedex.FilterEmptyQuery` | src/components/ApokedexComponent.jsx:55-59 | filtering with the empty query returns the list unchanged, so the ternary on the search only skips work |
| `Apokedex.FilteredIsFilter` | src/components/ApokedexComponent.jsx:55-59 | the shown list always equals the plain filter, whatever the search |
| `Apokedex.FilteredCharacterised` | src/components/ApokedexComponent.jsx:55-59 | a list is the shown list if and only if it keeps, in their original order, exactly the matching records |
| `Apokedex.FilterAllMatching` | src/components/ApokedexComponent.jsx:56-58 | filtering a list whose every record matches returns it unchanged |
| `Apokedex.FilteredIdempotent` | src/components/ApokedexComponent.jsx:55-59 | filtering the shown list again with the same search changes nothing |
| `Apokedex.FilterSameMatches` | src/components/ApokedexComponent.jsx:56-58 | two queries that match the same records give the same filtered list |
| `Apokedex.FilteredCaseInsensitive` | src/components/ApokedexComponent.jsx:57 | two searches that agree once lower-cased show the same records |
| `Apokedex.FilterNarrowing` | src/components/ApokedexComponent.jsx:56-58 | when every record that `q2` matches is also matched by `q1`, filtering by `q1` then by `q2` equals filtering by `q2` alone |
| `Apokedex.FilteredRefines` | src/components/ApokedexComponent.jsx:55-59 | when the lower-cased old search occurs in the lower-cased new one, the new results are the old results filtered by the new search |
| `Apokedex.FilteredTypingNarrows` | src/components/ApokedexComponent.jsx:55-59 | typing one more character shows the old results filtered by the longer search |
| `Apokedex.FilteredSingleMatch` | src/components/ApokedexComponent.jsx:55-59 | when exactly one record matches, the shown list is exactly that record |
| `Apokedex.NoResults` | src/components/ApokedexComponent.jsx:134 | the condition `filteredPokemons.length === 0`; it holds exactly when no record of the list matches the search |
| `Apokedex.NoResultsIff` | src/components/ApokedexComponent.jsx:134-136 | with an empty search the message shows exactly when the list is empty; with an empty list it shows whatever the search |
| `Apokedex.Stat` | src/components/ApokedexComponent.jsx:79-82 | the stat at a position is the record's value there when that position exists, and 0 when it does not |
| `Apokedex.BarWidth` | src/components/ApokedexComponent.jsx:121 | the width is at most 100 and at most the value, and equals either the value or 100, i.e. `min(value, 100)` |
| `Apokedex.BarWidthNoLowerClamp` | src/components/ApokedexComponent.jsx:121 | a negative value gives the same negative width: there is no lower clamp |
| `Apokedex.Bar` | src/components/ApokedexComponent.jsx:112-122 | one `[label, value]` row: the caption and the raw value are kept as given, the bar is exactly `min(value, 100)` wide: as wide as the value up to 100, and 100 above it |
| `Apokedex.ToCard` | src/components/ApokedexComponent.jsx:78-127 | a card keeps the record's id and name and has one badge per type, in order, coloured from the table or the default. It has four bars labelled with `StatLabels` (PS, ATQ, DEF, ESP-ATQ); each shows the raw stat (0 when missing) and has a width of at most 100 that equals the value up to 100 |
| `Apokedex.Project` | src/components/ApokedexComponent.jsx:78-130 | the grid has one card per shown record, in the shown order, each the card of that record |
| `Apokedex.ProjectEmptyIff` | src/components/ApokedexComponent.jsx:134-136 | the grid is empty exactly when the "no results" message is shown |
| `Apokedex.ProjectEmptySearch` | src/components/ApokedexComponent.jsx:55-59 | with an empty search the grid has one card per record, with the ids in list order |
| `Apokedex.ProjectSingleMatch` | src/components/ApokedexComponent.jsx:78-130 | when exactly one record matches, the grid is that record's card alone and carries its id |

## Left out

- `fetchPokemons` (src/components/ApokedexComponent.jsx:29-49) is not modelled. That covers the HTTP requests, the `Promise.all` over the per-entry requests, the `loading` flag, the error logging, and the start-up and button triggers. It is network I/O and asynchronous control flow; the record list is a parameter instead.
- The React state hooks and the input's `onChange` are left out. The search text is a parameter.
- The JSX markup, Tailwind classes other than the colour table, and inline styles are left out as presentation. So are the button's label and its `disabled={loading}`.
- The artwork URL built from the id (src/components/ApokedexComponent.jsx:90) is not modelled; it is a plain string template.
- `Text.Lower`: lower-cases ASCII letters only. JavaScript's `toLowerCase` applies full Unicode case mapping, which can also change a string's length.
- `Apokedex.Stat`: a stat is an integer, and a missing entry is an index past the end of `stats`. JavaScript's `|| 0` also turns `null`, `undefined`, `NaN` or a missing `stats` array into 0. Non-integer values are not modelled.
- `TypeColors.TypeColor`: looks up the eighteen own keys of the table only. A JavaScript object lookup would also find names inherited from the object prototype, such as `constructor`.
- `Apokedex.BarWidth`: works on integers. `Math.min` on `NaN` or on non-numbers is not modelled.
- The React `key` attributes and the uniqueness of ids are not modelled.
- `Apokedex.Record`: `name` and `types` are always present. The source throws a TypeError when they are missing: at line 57 for `name` (only with a non-empty search, since the ternary at line 55 skips the filter otherwise), and at line 100 for `types`.
