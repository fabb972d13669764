# Pokémon browser data layer, modelled in Dafny

This project models the state and derivation layer of a Vue/Pinia Pokémon browser.
The client fetches a page of Pokémon from PokeAPI, flattens each detail response into
a `Pokemon` record, and linearises evolution chains. It keeps a list, favourites,
filters and a page cursor in a store, and derives filtered, paginated and favourite views.

Modules, one per concern:

- `PokemonTypes` (`pokemon_types.dfy`): the records (`Pokemon`, `PokemonStat`,
  `PokemonEvolution`), the API shapes (`PokemonDetails`, `EvolutionChain`) and `Thrown`.
  `Thrown` is what a request can throw: an `Error`, a plain object with or without a
  `response` field, or anything else.
- `Text` (`text.dfy`): the string operations the code uses. These are ASCII
  `toLowerCase`, `includes`, `split("/")` and decimal `parseInt`, with `Join` and
  `Decimal` as their inverses.
- `Seqs` (`seqs.dfy`): `Array.prototype.filter` and the subsequence relation.
- `Pagination` (`pagination.dfy`): the `usePagination` composable. It includes
  `Array.prototype.slice` with its negative-index rules, and a `Paginator` class whose
  `currentPage` field `GoToPage` updates.
- `Evolution` (`evolution.dfy`): `parseEvolutionChain`. The store, the service and
  `store/api.ts` carry identical copies, modelled once as a `while` loop over the tree.
  It is proved equal to the first-child path.
- `PokemonService` (`pokemon_service.dfy`): `transformPokemonData`, `handleError`,
  and the all-or-nothing `getPokemonList` and `getEvolutionChain`.
- `StoreApi` (`store_api.dfy`): the standalone `fetchPokemonList` and
  `fetchEvolutionChain`. These drop failed detail requests instead of failing the call.
- `PokemonStore` (`pokemon_store.dfy`): the Pinia store. Its views are functions; the
  class `Store` holds the state, and `ToggleFavorite`, `FetchPokemon`, `LoadFromCache`
  and `LoadFavorites` update it.

Network requests are not modelled. Each operation that fetches takes the outcome of its
requests as a parameter. A `ListOutcome` is either what the list request threw, or one
detail outcome per listed result, in result order. The two `localStorage` entries are
the store fields `storedList` and `storedFavorites`.

Three behaviours of the code worth knowing, all modelled as written:

- The store's `fetchEvolutionChain` does not set `error` when a request fails. It only
  logs and returns `[]` (`src/store/pokemon.store.ts:148-151`).
- In `getPokemonList`, `Promise.all(...)` is returned from the `try` block without
  `await`. A failed detail request therefore escapes the `catch`: the caller sees the
  value the request threw, not an error built by `handleError`. `GetPokemonList` keeps
  that distinction as `ServiceError.Unhandled` versus `ServiceError.Handled`.
- `fetchPokemon` guards on a non-empty list, not on an earlier fetch. A first fetch
  that fails or brings no Pokémon leaves the list empty, so the next call fetches again
  and its Pokémon make up the list (`FetchTwiceThenToggleTwice`).

## Model

| member | source | states |
|---|---|---|
| `Text.ToLower` | src/store/pokemon.store.ts:47 | the lower-cased string has the same length, folds each character on its own, and has no upper-case letter left |
| `Text.Includes` | src/store/pokemon.store.ts:47 | the left-to-right scan behind `includes`; `IncludesIff` and `IncludesEmpty` state what it decides |
| `Text.IncludesIff` | src/store/pokemon.store.ts:47 | `includes` is true exactly when the needle occurs at some index of the haystack |
| `Text.IncludesEmpty` | src/store/pokemon.store.ts:47 | every name includes the empty search term |
| `Text.Split` | src/store/api.ts:107 | `split("/")` yields at least one piece |
| `Text.SplitPiecesHaveNoSeparator` | src/store/api.ts:107 | no piece of `split("/")` contains the separator |
| `Text.JoinSplit` | src/store/api.ts:107 | joining the pieces of `split` with the separator gives the URL back |
| `Text.SplitAround` | src/store/api.ts:107 | a separator between two strings separates their pieces |
| `Text.SplitNoSeparator` | src/store/api.ts:107 | a segment without `/` is one piece |
| `Text.LeadingDigits` | src/store/api.ts:107 | the digits `parseInt` reads are the longest all-digit prefix |
| `Text.ParseInt` | src/store/api.ts:107 | `parseInt` gives NaN exactly when the text does not start with a digit, else a non-negative number |
| `Text.Decimal` | src/store/api.ts:107 | the printed numeral is non-empty and all digits |
| `Text.DecimalValue` | src/store/api.ts:107 | the digits of a printed numeral have its value |
| `Text.ParseIntDecimal` | src/store/api.ts:107 | `parseInt` reads back the number a URL segment prints |
| `Seqs.Filter` | src/store/pokemon.store.ts:45-52 | `filter` keeps only accepted elements, keeps every accepted element, invents none and never grows |
| `Seqs.FilterIsSubsequence` | src/store/pokemon.store.ts:45-52 | what `filter` keeps is a subsequence of the input, order kept |
| `Seqs.FilterKeepsAll` | src/store/pokemon.store.ts:45-52 | a filter that accepts everything returns the input unchanged |
| `Seqs.FilterAppend` | src/store/pokemon.store.ts:45-52 | filtering a concatenation is concatenating the filtered parts |
| `Pagination.Slice` | src/composables/usePagination.ts:10 | `slice(start, end)` with `0 <= start <= end` has length `max(0, min(end, len) - start)` and element `k` is `s[start + k]` |
| `Pagination.PageStart` | src/composables/usePagination.ts:9 | the first index of a page `>= 1` is non-negative; `PageBoundaries` states it is `(page - 1) * size` and that the next page starts `size` later |
| `Pagination.Page` | src/composables/usePagination.ts:8-11 | `paginatedItems` for a page `>= 1` holds at most `itemsPerPage` items, exactly `min(size, max(0, len - start))` of them, and is the run starting at `(page - 1) * size` |
| `Pagination.PageCount` | src/composables/usePagination.ts:6 | `totalPages` is the ceiling of `total / itemsPerPage`: enough pages for every item, and no more than needed (0 for an empty list) |
| `Pagination.PageBeyondLastIsEmpty` | src/composables/usePagination.ts:8-11 | a page after the last one is empty |
| `Pagination.AllPagesPrefix` | src/composables/usePagination.ts:8-11 | the first `n` pages laid end to end are the first `n * size` items |
| `Pagination.PagesCoverItems` | src/composables/usePagination.ts:5-11 | pages `1..totalPages` laid end to end are exactly the items |
| `Pagination.NextPage` | src/composables/usePagination.ts:13-17 | `goToPage(n)` sets the page to `n` when `1 <= n <= totalPages`, and leaves it unchanged otherwise |
| `Pagination.NextPageKeepsPositive` | src/composables/usePagination.ts:13-17 | `goToPage` keeps `currentPage >= 1` |
| `Pagination.NextPageIdempotent` | src/composables/usePagination.ts:13-17 | calling `goToPage(n)` twice is calling it once |
| `Pagination.NextPageOnEmpty` | src/composables/usePagination.ts:13-17 | on an empty list `goToPage` never changes the page |
| `Pagination.Paginator.constructor` | src/composables/usePagination.ts:3-4 | `currentPage` starts at 1 |
| `Pagination.Paginator.Total` | src/composables/usePagination.ts:5 | `total`, the number of items; `TotalPages` and `PagesCoverItems` state how the pages cover it |
| `Pagination.Paginator.TotalPages` | src/composables/usePagination.ts:6 | `totalPages` is the fewest pages of `itemsPerPage` items that hold every item |
| `Pagination.Paginator.PaginatedItems` | src/composables/usePagination.ts:8-11 | for `currentPage >= 1`, at most `itemsPerPage` items, exactly `min(itemsPerPage, max(0, total - start))` of them, being the run of `items` starting at `(currentPage - 1) * itemsPerPage` |
| `Pagination.Paginator.GoToPage` | src/composables/usePagination.ts:13-17 | the new `currentPage` is the requested page when it is in range and the old one otherwise, from any current page (the ref can be written directly); a current page `>= 1` stays `>= 1` |
| `Evolution.SpeciesId` | src/store/api.ts:107 | the id read from a species URL is NaN (`None`) or a non-negative number; `SpeciesIdOfUrl` states which |
| `Evolution.Entry` | src/store/api.ts:105-108 | the `{name, id}` pushed for one node; `FirstChildPathAt` and `ParseEvolutionChain` state where each entry lands |
| `Evolution.FirstChild` | src/store/api.ts:109 | `current = current.evolves_to[0]`, `undefined` being `None`; `RemainingStep` states that one loop turn emits the node and moves here, and `FirstChildPathAt` that the walk follows it |
| `Evolution.SpeciesIdOfUrl` | src/store/api.ts:107 | the id read from a URL `<prefix>/<n>/` is `n` |
| `Evolution.SpeciesIdExample` | src/store/api.ts:107 | `.../pokemon-species/4/` gives id 4 |
| `Evolution.FirstChildPath` | src/services/pokemon.service.ts:77-90 | the linearisation has one entry per node on the first-child path, root first |
| `Evolution.FirstChildPathAt` | src/store/api.ts:100-113 | entry `i` is the `i`-th node on the first-child path; each earlier node has children and the next node is its first child; the walk stops at the first node with empty `evolves_to` |
| `Evolution.OtherBranchesIgnored` | src/services/pokemon.service.ts:86 | only `evolves_to[0]` matters: pruning every other branch leaves the result unchanged |
| `Evolution.BranchingExample` | src/store/pokemon.store.ts:154-167 | A→[B, C], B→[D] yields A, B, D |
| `Evolution.ParseEvolutionChain` | src/store/pokemon.store.ts:154-167 | the `while (current)` loop returns exactly the first-child path linearisation |
| `PokemonService.TypeNames` | src/services/pokemon.service.ts:68 | `types` keeps length and order, element `i` being `types[i].type.name` |
| `PokemonService.StatValues` | src/services/pokemon.service.ts:69-72 | `stats` keeps length and order, element `i` being `{name: stats[i].stat.name, value: stats[i].base_stat}` |
| `PokemonService.TransformPokemonData` | src/services/pokemon.service.ts:64-73 | `id` and `name` are copied, `image` is `sprites.front_default`, `species` is `species.url`, and `types`/`stats` are mapped element-wise in order |
| `PokemonService.HandleError` | src/services/pokemon.service.ts:92-106 | an `Error` keeps its message, even with a `response`; another object with `response` gives `response.data.message`; anything else gives "Failed to fetch Pokemon data" |
| `PokemonService.TransformAll` | src/services/pokemon.service.ts:33-38 | `Promise.all` succeeds exactly when every detail succeeds, with one transformed Pokemon per result in order; otherwise it fails with one of the detail failures |
| `PokemonService.GetPokemonList` | src/services/pokemon.service.ts:28-42 | a list failure is rethrown through `handleError`; otherwise the result is one Pokemon per result in order, or, if any detail fails, that raw failure |
| `PokemonService.GetEvolutionChain` | src/services/pokemon.service.ts:44-54 | the linearised chain, or the request failure rethrown through `handleError` |
| `StoreApi.KeepSuccesses` | src/store/api.ts:40-76 | dropping failed items never makes the list longer than the results |
| `StoreApi.KeepSuccessesFromSuccesses` | src/store/api.ts:40-76 | every kept Pokemon is the transform of some successful detail |
| `StoreApi.KeepSuccessesKeepsAll` | src/store/api.ts:40-76 | the transform of every successful detail is kept |
| `StoreApi.KeepSuccessesFullIff` | src/store/api.ts:40-76 | the list has one entry per result exactly when no detail request failed |
| `StoreApi.KeepSuccessesAppend` | src/store/api.ts:74-76 | dropping failed items keeps the relative order of the rest |
| `StoreApi.FetchPokemonList` | src/store/api.ts:31-83 | a list failure, and only that, gives "Falha ao buscar a lista de Pokémon."; otherwise the result is the list of successful transforms in result order (`KeepSuccesses`, whose lemmas give its contents), no longer than the results |
| `StoreApi.TolerantAgreesWithStrict` | src/store/api.ts:74-78 | when no detail fails, the tolerant fetch returns the same list as the all-or-nothing service |
| `StoreApi.FetchEvolutionChain` | src/store/api.ts:85-98 | the linearised chain, or "Falha ao buscar a cadeia de evolução." when a request fails |
| `PokemonStore.MatchesFilters` | src/store/pokemon.store.ts:46-51 | the filter callback of `filteredPokemon`; `MatchesFiltersIff` states it |
| `PokemonStore.FilterPokemon` | src/store/pokemon.store.ts:44-53 | `filteredPokemon`; `FilterPokemonSound`, `FilterWithoutCriteria` and `SearchExample` state what it keeps |
| `PokemonStore.PaginatePokemon` | src/store/pokemon.store.ts:55-59 | `paginatedPokemon`; `PaginatedIsPageOfFiltered` states which run it is |
| `PokemonStore.IsFavorite` | src/store/pokemon.store.ts:62-64 | the filter callback of `favoritePokemon`; `SelectFavoritesExact` states that exactly the entries whose id is a favourite pass it |
| `PokemonStore.SelectFavorites` | src/store/pokemon.store.ts:61-65 | `favoritePokemon`; `SelectFavoritesExact` states what it keeps |
| `PokemonStore.FilterWithoutCriteria` | src/store/pokemon.store.ts:44-53 | with an empty search term and no selected type, `filteredPokemon` is `pokemonList`, order kept |
| `PokemonStore.FilterPokemonSound` | src/store/pokemon.store.ts:44-53 | `filteredPokemon` is a subsequence of `pokemonList`; every entry in it passes the filters, and every entry of the list that passes them is in it |
| `PokemonStore.MatchesFiltersIff` | src/store/pokemon.store.ts:46-51 | an entry passes when the lower-cased term occurs in the lower-cased name and, if types are selected, one of its types is selected |
| `PokemonStore.SearchExample` | src/store/pokemon.store.ts:44-53 | searching "char" in [Charmander, Squirtle] gives [Charmander] |
| `PokemonStore.PaginatedIsPageOfFiltered` | src/store/pokemon.store.ts:55-59 | `paginatedPokemon` is the run of `filteredPokemon` starting at `(currentPage - 1) * 20`, at most 20 long, of length `min(20, max(0, len - start))` |
| `PokemonStore.SelectFavoritesExact` | src/store/pokemon.store.ts:61-65 | `favoritePokemon` is a subsequence of `pokemonList`; it holds only entries whose id is a favourite, and every such entry |
| `PokemonStore.IndexOf` | src/store/pokemon.store.ts:170 | `indexOf` returns -1 exactly when the id is absent, else the first index holding it |
| `PokemonStore.Toggle` | src/store/pokemon.store.ts:169-175 | the `push`/`splice` update of `toggleFavorite`; `ToggleFlips`, `ToggleKeepsNoDuplicates` and the `ToggleTwice*` lemmas state its effect |
| `PokemonStore.ToggleFlips` | src/store/pokemon.store.ts:169-177 | `toggleFavorite` adds an absent id, removes a present one from a duplicate-free list, and leaves other ids alone |
| `PokemonStore.ToggleKeepsNoDuplicates` | src/store/pokemon.store.ts:169-177 | `toggleFavorite` keeps a duplicate-free favourites list duplicate-free |
| `PokemonStore.ToggleTwiceSameMembers` | src/store/pokemon.store.ts:169-177 | toggling twice restores the set of favourite ids |
| `PokemonStore.ToggleTwiceAbsent` | src/store/pokemon.store.ts:171-172 | toggling an absent id twice restores the list exactly |
| `PokemonStore.ToggleTwicePresent` | src/store/pokemon.store.ts:173-174 | toggling a present id in a duplicate-free list twice removes it and appends it at the end |
| `PokemonStore.ToggleTwiceLast` | src/store/pokemon.store.ts:169-177 | toggling the last favourite twice restores the list exactly |
| `PokemonStore.Store.constructor` | src/store/pokemon.store.ts:34-42 | the store starts with an empty list, no favourites, page 1, no filters, not loading and no error |
| `PokemonStore.Store.FilteredPokemon` | src/store/pokemon.store.ts:44-53 | the filtered view is never longer than `pokemonList` and each entry in it passes the search and type filters |
| `PokemonStore.Store.PaginatedPokemon` | src/store/pokemon.store.ts:55-59 | for `currentPage >= 1` the paginated view holds at most 20 entries |
| `PokemonStore.Store.FavoritePokemon` | src/store/pokemon.store.ts:61-65 | the favourites view is never longer than `pokemonList` and holds only entries whose id is a favourite |
| `PokemonStore.Store.LoadFromCache` | src/store/pokemon.store.ts:67-73 | a stored list replaces the list and sets `totalItems`; with none stored nothing changes |
| `PokemonStore.Store.LoadFavorites` | src/store/pokemon.store.ts:179-184 | stored favourites replace the favourites; with none stored nothing changes |
| `PokemonStore.Store.ToggleFavorite` | src/store/pokemon.store.ts:169-177 | the favourites become their toggle and are written to storage; nothing else changes |
| `PokemonStore.Store.FetchPokemon` | src/store/pokemon.store.ts:79-140 | a call while loading changes nothing. With a non-empty list, only `error` is cleared. Otherwise success appends the successful items in order, updates `totalItems` and storage, and clears `error`. A list failure keeps the list and sets the fixed message. `isLoading` ends false |
| `PokemonStore.Store.FetchEvolutionChain` | src/store/pokemon.store.ts:142-152 | the linearised chain, or `[]` when a request fails; the store is not changed |
| `PokemonStore.FetchTwiceThenToggleTwice` | src/store/pokemon.store.ts:79-177 | a second fetch after one that brought Pokemon keeps the list; after a first fetch that failed or brought none, a successful second fetch makes up the list; toggling a favourite twice restores the favourite set; loading ends false |

## Left out

- HTTP requests, `Promise.all` concurrency, the `setTimeout` stagger and `console` logging. Request outcomes are parameters.
- The interleaving of async calls. Each store operation runs to completion in the model. A call made while a fetch is in flight is modelled by `isLoading` being true on entry.
- The request URLs built from `page`, `limit` and `offset`. They only choose which list is fetched, so they are part of the outcome parameter.
- `PokemonService.TransformAll`: when several detail requests fail, `Promise.all` rejects with whichever fails first in time. The model picks the lowest index, and its contract only promises one of the failures.
- JSON serialisation and `localStorage` errors. Storage holds typed values, and `JSON.parse` of malformed text is not modelled. A `setItem` that throws inside `fetchPokemon` would land in its `catch`; that path is not modelled.
- Malformed API payloads: missing fields, a `null` `front_default`, a `response` object without `data`. Detail and chain responses are typed records, so reading them cannot throw.
- Unicode case folding: `toLowerCase` is modelled on ASCII letters only.
- `Text.ParseInt`: leading whitespace, a sign, the `0x` prefix and precision beyond 2^53 are not modelled. Only leading decimal digits are read.
- JavaScript numbers: ids, stats and page numbers are unbounded integers. Fractional page numbers passed to `goToPage` are not modelled.
- `Pagination.Paginator.constructor`: requires `itemsPerPage > 0`. With 0, `Math.ceil(n / 0)` gives `Infinity` or `NaN`, which the integer model does not represent.
- `src/services/api.service.ts`, `src/services/pokemonService.ts` and `src/main.ts` are not part of this model. They hold an axios client, thin request wrappers and app start-up.
- `searchTerm`, `selectedTypes` and `currentPage` are assigned directly by the UI. They are public fields of `Store` with no operations of their own.
