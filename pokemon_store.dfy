/** The Pinia store `usePokemonStore`: the fetched list, favourites, filters and
    pagination cursor, the views derived from them, and the operations that change them. */
module PokemonStore {
  import opened Wrappers
  import opened PokemonTypes
  import opened Text
  import opened Seqs
  import opened Pagination
  import opened Evolution
  import PokemonService
  import StoreApi

  /** `itemsPerPage`. */
  const ItemsPerPage: nat := 20

  /** The `error` a failed list request leaves behind. */
  const FetchFailedMessage := "Failed to fetch Pokemon. Please try again later."

  /** The filter of `filteredPokemon`: the lower-cased name includes the lower-cased search
      term, and, when some types are selected, the Pokemon has at least one of them. */
  predicate MatchesFilters(p: Pokemon, searchTerm: string, selectedTypes: seq<string>)
  {
    Includes(ToLower(p.name), ToLower(searchTerm)) &&
    (|selectedTypes| == 0 || exists k :: 0 <= k < |p.types| && p.types[k] in selectedTypes)
  }

  /** The filter callback of `filteredPokemon`. */
  function Matcher(searchTerm: string, selectedTypes: seq<string>): Pokemon -> bool
  {
    (p: Pokemon) => MatchesFilters(p, searchTerm, selectedTypes)
  }

  /** `filteredPokemon`. */
  function FilterPokemon(list: seq<Pokemon>, searchTerm: string, selectedTypes: seq<string>): seq<Pokemon>
  {
    Filter(list, Matcher(searchTerm, selectedTypes))
  }

  /** `paginatedPokemon`: page `currentPage` of the filtered list. */
  function PaginatePokemon(filtered: seq<Pokemon>, currentPage: int): seq<Pokemon>
  {
    Page(filtered, currentPage, ItemsPerPage)
  }

  /** The filter callback of `favoritePokemon`. */
  function IsFavorite(favorites: seq<int>): Pokemon -> bool
  {
    (p: Pokemon) => p.id in favorites
  }

  /** `favoritePokemon`. */
  function SelectFavorites(list: seq<Pokemon>, favorites: seq<int>): seq<Pokemon>
  {
    Filter(list, IsFavorite(favorites))
  }

  /** With no search term and no selected type, the filtered view is the whole list, in order. */
  lemma FilterWithoutCriteria(list: seq<Pokemon>)
    ensures FilterPokemon(list, "", []) == list
  {
    forall k | 0 <= k < |list|
      ensures MatchesFilters(list[k], "", [])
    {
      assert ToLower("") == "";
      IncludesEmpty(ToLower(list[k].name));
    }
    FilterKeepsAll(list, Matcher("", []));
  }

  /** The filtered view is a subsequence of the list; every entry in it passes the
      filters, and every entry of the list that passes them is in it. */
  lemma FilterPokemonSound(list: seq<Pokemon>, searchTerm: string, selectedTypes: seq<string>)
    ensures IsSubsequence(FilterPokemon(list, searchTerm, selectedTypes), list)
    ensures forall p :: p in FilterPokemon(list, searchTerm, selectedTypes) ==> MatchesFilters(p, searchTerm, selectedTypes)
    ensures forall k :: 0 <= k < |list| && MatchesFilters(list[k], searchTerm, selectedTypes) ==>
              list[k] in FilterPokemon(list, searchTerm, selectedTypes)
  {
    FilterIsSubsequence(list, Matcher(searchTerm, selectedTypes));
  }

  /** Passing the filters means: the lower-cased search term occurs somewhere in the
      lower-cased name, and, when types are selected, one of the Pokemon's types is selected. */
  lemma MatchesFiltersIff(p: Pokemon, searchTerm: string, selectedTypes: seq<string>)
    ensures MatchesFilters(p, searchTerm, selectedTypes) <==>
              (exists i: nat :: OccursAt(ToLower(p.name), ToLower(searchTerm), i)) &&
              (|selectedTypes| == 0 || exists t :: t in p.types && t in selectedTypes)
  {
    IncludesIff(ToLower(p.name), ToLower(searchTerm));
    assert Includes(ToLower(p.name), ToLower(searchTerm)) <==> exists i: nat :: OccursAt(ToLower(p.name), ToLower(searchTerm), i);
    assert (exists k :: 0 <= k < |p.types| && p.types[k] in selectedTypes) <==>
           (exists t :: t in p.types && t in selectedTypes) by {
      if t :| t in p.types && t in selectedTypes {
        var k :| 0 <= k < |p.types| && p.types[k] == t;
        assert p.types[k] in selectedTypes;
      }
    }
  }

  /** Searching "char" in [Charmander, Squirtle] keeps Charmander only. */
  lemma SearchExample(charmander: Pokemon, squirtle: Pokemon)
    requires charmander.name == "Charmander" && squirtle.name == "Squirtle"
    ensures FilterPokemon([charmander, squirtle], "char", []) == [charmander]
  {
    var keep := Matcher("char", []);
    assert keep(charmander) by { CharmanderMatches(charmander); }
    assert !keep(squirtle) by { SquirtleDoesNotMatch(squirtle); }
    assert [charmander, squirtle][1..] == [squirtle];
    assert [squirtle][1..] == [];
    assert Filter([squirtle], keep) == [] + Filter([], keep);
    assert Filter([charmander, squirtle], keep) == [charmander] + Filter([squirtle], keep);
  }

  /** The search term "char" folds to itself. */
  lemma SearchTermIsLowerCase()
    ensures ToLower("char") == "char"
  {
    var t := ToLower("char");
    assert t[0] == 'c' && t[1] == 'h' && t[2] == 'a' && t[3] == 'r';
  }

  /** "Charmander" passes the search for "char". */
  lemma CharmanderMatches(p: Pokemon)
    requires p.name == "Charmander"
    ensures MatchesFilters(p, "char", [])
  {
    SearchTermIsLowerCase();
    var name := ToLower(p.name);
    assert name[0] == LowerChar('C') == 'c';
    assert name[1] == 'h' && name[2] == 'a' && name[3] == 'r';
    assert name[0..4] == "char";
    assert OccursAt(name, "char", 0);
    IncludesIff(name, "char");
  }

  /** "Squirtle" fails the search for "char": its name has no "c". */
  lemma SquirtleDoesNotMatch(p: Pokemon)
    requires p.name == "Squirtle"
    ensures !MatchesFilters(p, "char", [])
  {
    SearchTermIsLowerCase();
    var name := ToLower(p.name);
    assert forall k :: 0 <= k < |name| ==> name[k] == LowerChar(p.name[k]);
    assert forall k :: 0 <= k < |name| ==> name[k] != 'c';
    IncludesIff(name, "char");
    forall i: nat ensures !OccursAt(name, "char", i) {
      if i + 4 <= |name| {
        assert name[i..i + 4][0] == name[i];
      }
    }
  }

  /** The paginated view is the contiguous run of at most 20 filtered entries starting at
      `(currentPage - 1) * 20`, cut short at the end of the filtered list. */
  lemma PaginatedIsPageOfFiltered(filtered: seq<Pokemon>, currentPage: int)
    requires currentPage >= 1
    ensures |PaginatePokemon(filtered, currentPage)| <= ItemsPerPage
    ensures |PaginatePokemon(filtered, currentPage)| ==
              Min(ItemsPerPage, Max(0, |filtered| - (currentPage - 1) * ItemsPerPage))
    ensures forall k :: 0 <= k < |PaginatePokemon(filtered, currentPage)| ==>
              PaginatePokemon(filtered, currentPage)[k] == filtered[(currentPage - 1) * ItemsPerPage + k]
  {
  }

  /** The favourites view is exactly the list entries whose id is a favourite, in list order. */
  lemma SelectFavoritesExact(list: seq<Pokemon>, favorites: seq<int>)
    ensures IsSubsequence(SelectFavorites(list, favorites), list)
    ensures forall p :: p in SelectFavorites(list, favorites) ==> p in list && p.id in favorites
    ensures forall k :: 0 <= k < |list| && list[k].id in favorites ==> list[k] in SelectFavorites(list, favorites)
  {
    FilterIsSubsequence(list, IsFavorite(favorites));
  }

  /** `favorites.indexOf(id)`: the first index holding `id`, or -1. */
  function IndexOf(s: seq<int>, x: int): (i: int)
    ensures -1 <= i < |s|
    ensures i == -1 <==> x !in s
    ensures i >= 0 ==> s[i] == x && x !in s[..i]
  {
    if |s| == 0 then -1
    else if s[0] == x then 0
    else
      var j := IndexOf(s[1..], x);
      assert j >= 0 ==> s[..j + 1] == [s[0]] + s[1..][..j];
      if j == -1 then -1 else j + 1
  }

  /** `toggleFavorite` on the array: push `id` when absent, else splice out its first occurrence. */
  function Toggle(favorites: seq<int>, id: int): seq<int>
  {
    var index := IndexOf(favorites, id);
    if index == -1 then favorites + [id] else favorites[..index] + favorites[index + 1..]
  }

  predicate NoDuplicates(s: seq<int>)
  {
    forall i, j :: 0 <= i < j < |s| ==> s[i] != s[j]
  }

  /** In a duplicate-free list, nothing after the first occurrence of an id repeats it. */
  lemma NoRepeatAfterFirst(favorites: seq<int>, id: int)
    requires NoDuplicates(favorites) && id in favorites
    ensures id !in favorites[IndexOf(favorites, id) + 1..]
  {
    var index := IndexOf(favorites, id);
    forall k | index < k < |favorites| ensures favorites[k] != id {
      assert favorites[index] != favorites[k];
    }
  }

  /** Toggling changes the membership of `id` only: an absent `id` is added, a present
      one is removed from a duplicate-free list, and every other id stays as it was. */
  lemma ToggleFlips(favorites: seq<int>, id: int)
    ensures id !in favorites ==> id in Toggle(favorites, id)
    ensures id in favorites && NoDuplicates(favorites) ==> id !in Toggle(favorites, id)
    ensures forall x :: x != id ==> (x in Toggle(favorites, id) <==> x in favorites)
  {
    var index := IndexOf(favorites, id);
    if index != -1 {
      var before, after := favorites[..index], favorites[index + 1..];
      assert favorites == before + [id] + after;
      assert Toggle(favorites, id) == before + after;
      if NoDuplicates(favorites) {
        NoRepeatAfterFirst(favorites, id);
      }
    }
  }

  /** Toggling keeps the favourites duplicate-free. */
  lemma ToggleKeepsNoDuplicates(favorites: seq<int>, id: int)
    requires NoDuplicates(favorites)
    ensures NoDuplicates(Toggle(favorites, id))
  {
    var index := IndexOf(favorites, id);
    var r := Toggle(favorites, id);
    if index != -1 {
      forall i, j | 0 <= i < j < |r|
        ensures r[i] != r[j]
      {
        var i' := if i < index then i else i + 1;
        var j' := if j < index then j else j + 1;
        assert r[i] == favorites[i'] && r[j] == favorites[j'];
      }
    } else {
      forall i, j | 0 <= i < j < |r|
        ensures r[i] != r[j]
      {
        if j == |favorites| { assert r[i] in favorites; }
      }
    }
  }

  /** Toggling twice restores the set of favourite ids. */
  lemma ToggleTwiceSameMembers(favorites: seq<int>, id: int)
    requires NoDuplicates(favorites)
    ensures forall x :: x in Toggle(Toggle(favorites, id), id) <==> x in favorites
  {
    ToggleFlips(favorites, id);
    ToggleKeepsNoDuplicates(favorites, id);
    ToggleFlips(Toggle(favorites, id), id);
  }

  /** Toggling an absent id twice gives the list back. */
  lemma ToggleTwiceAbsent(favorites: seq<int>, id: int)
    requires id !in favorites
    ensures Toggle(Toggle(favorites, id), id) == favorites
  {
    var once := Toggle(favorites, id);
    assert once == favorites + [id];
    assert once[..|favorites|] == favorites;
    assert IndexOf(once, id) == |favorites|;
    assert once[|favorites| + 1..] == [];
  }

  /** In a duplicate-free list, an id found last is found nowhere earlier. */
  lemma LastIsFirstOccurrence(favorites: seq<int>, id: int)
    requires NoDuplicates(favorites) && |favorites| > 0 && favorites[|favorites| - 1] == id
    ensures IndexOf(favorites, id) == |favorites| - 1
  {
    var index := IndexOf(favorites, id);
    assert favorites[index] == favorites[|favorites| - 1];
  }

  /** Toggling a present id twice (in a duplicate-free list) moves it to the end. */
  lemma ToggleTwicePresent(favorites: seq<int>, id: int)
    requires NoDuplicates(favorites) && id in favorites
    ensures Toggle(Toggle(favorites, id), id) ==
              favorites[..IndexOf(favorites, id)] + favorites[IndexOf(favorites, id) + 1..] + [id]
  {
    var index := IndexOf(favorites, id);
    NoRepeatAfterFirst(favorites, id);
    var once := favorites[..index] + favorites[index + 1..];
    assert id !in once;
  }

  /** Toggling the most recently added favourite twice gives the list back. */
  lemma ToggleTwiceLast(favorites: seq<int>, id: int)
    requires NoDuplicates(favorites) && |favorites| > 0 && favorites[|favorites| - 1] == id
    ensures Toggle(Toggle(favorites, id), id) == favorites
  {
    ToggleTwicePresent(favorites, id);
    LastIsFirstOccurrence(favorites, id);
    assert favorites[..|favorites| - 1] + [id] == favorites;
  }

  /** The store's state; `storedList` and `storedFavorites` stand for the
      `localStorage` entries "pokemonList" and "favorites" (`None` when absent). */
  class Store {
    var pokemonList: seq<Pokemon>
    var favorites: seq<int>
    var currentPage: int
    var totalItems: int
    var searchTerm: string
    var selectedTypes: seq<string>
    var isLoading: bool
    var error: Option<string>
    var storedList: Option<seq<Pokemon>>
    var storedFavorites: Option<seq<int>>

    /** A fresh store over whatever storage holds. */
    constructor (storedList: Option<seq<Pokemon>>, storedFavorites: Option<seq<int>>)
      ensures pokemonList == [] && favorites == [] && currentPage == 1 && totalItems == 0
      ensures searchTerm == "" && selectedTypes == [] && !isLoading && error == None
      ensures this.storedList == storedList && this.storedFavorites == storedFavorites
    {
      pokemonList := [];
      favorites := [];
      currentPage := 1;
      totalItems := 0;
      searchTerm := "";
      selectedTypes := [];
      isLoading := false;
      error := None;
      this.storedList := storedList;
      this.storedFavorites := storedFavorites;
    }

    function FilteredPokemon(): (r: seq<Pokemon>)
      reads this
      ensures |r| <= |pokemonList|
      ensures forall k :: 0 <= k < |r| ==> MatchesFilters(r[k], searchTerm, selectedTypes)
    {
      FilterPokemon(pokemonList, searchTerm, selectedTypes)
    }

    function PaginatedPokemon(): (r: seq<Pokemon>)
      reads this
      ensures currentPage >= 1 ==> |r| <= ItemsPerPage
    {
      PaginatePokemon(FilteredPokemon(), currentPage)
    }

    function FavoritePokemon(): (r: seq<Pokemon>)
      reads this
      ensures |r| <= |pokemonList|
      ensures forall k :: 0 <= k < |r| ==> r[k].id in favorites
    {
      SelectFavorites(pokemonList, favorites)
    }

    /** `loadFromCache`: adopt the stored list, if there is one. */
    method LoadFromCache()
      modifies this
      ensures storedList.Some? ==> pokemonList == storedList.value && totalItems == |storedList.value|
      ensures old(storedList).None? ==> pokemonList == old(pokemonList) && totalItems == old(totalItems)
      ensures storedList == old(storedList) && storedFavorites == old(storedFavorites)
      ensures favorites == old(favorites) && currentPage == old(currentPage) && searchTerm == old(searchTerm)
      ensures selectedTypes == old(selectedTypes) && isLoading == old(isLoading) && error == old(error)
    {
      if storedList.Some? {
        pokemonList := storedList.value;
        totalItems := |pokemonList|;
      }
    }

    /** `loadFavorites`: adopt the stored favourites, if there are any. */
    method LoadFavorites()
      modifies this
      ensures favorites == if storedFavorites.Some? then storedFavorites.value else old(favorites)
      ensures storedList == old(storedList) && storedFavorites == old(storedFavorites)
      ensures pokemonList == old(pokemonList) && totalItems == old(totalItems) && currentPage == old(currentPage)
      ensures searchTerm == old(searchTerm) && selectedTypes == old(selectedTypes)
      ensures isLoading == old(isLoading) && error == old(error)
    {
      if storedFavorites.Some? {
        favorites := storedFavorites.value;
      }
    }

    /** `toggleFavorite(id)`: flip `id` in the favourites and store the new array. */
    method ToggleFavorite(id: int)
      modifies this
      ensures favorites == Toggle(old(favorites), id)
      ensures storedFavorites == Some(favorites)
      ensures pokemonList == old(pokemonList) && storedList == old(storedList) && totalItems == old(totalItems)
      ensures currentPage == old(currentPage) && searchTerm == old(searchTerm)
      ensures selectedTypes == old(selectedTypes) && isLoading == old(isLoading) && error == old(error)
    {
      var index := IndexOf(favorites, id);
      if index == -1 {
        favorites := favorites + [id];
      } else {
        favorites := favorites[..index] + favorites[index + 1..];
      }
      storedFavorites := Some(favorites);
    }

    /** `fetchPokemon`, with the list and detail requests replaced by their outcome.
        A call made while a fetch is in flight changes nothing. A call on a non-empty
        list only clears `error`. Otherwise the fetched Pokemon whose details arrived
        are appended and stored, or, when the list request fails, the list stays as it
        was and `error` says so; `isLoading` ends false either way. */
    method FetchPokemon(response: ListOutcome)
      modifies this
      ensures old(isLoading) ==> unchanged(this)
      ensures !old(isLoading) ==> !isLoading
      ensures !old(isLoading) && |old(pokemonList)| > 0 ==>
                pokemonList == old(pokemonList) && error == None &&
                totalItems == old(totalItems) && storedList == old(storedList)
      ensures !old(isLoading) && |old(pokemonList)| == 0 && response.Success? ==>
                pokemonList == old(pokemonList) + StoreApi.KeepSuccesses(response.value) &&
                error == None && totalItems == |pokemonList| && storedList == Some(pokemonList)
      ensures !old(isLoading) && |old(pokemonList)| == 0 && response.Failure? ==>
                pokemonList == old(pokemonList) && error == Some(FetchFailedMessage) &&
                totalItems == old(totalItems) && storedList == old(storedList)
      ensures favorites == old(favorites) && storedFavorites == old(storedFavorites)
      ensures currentPage == old(currentPage) && searchTerm == old(searchTerm) && selectedTypes == old(selectedTypes)
    {
      if isLoading {
        return;
      }
      isLoading := true;
      error := None;

      if |pokemonList| > 0 {
        isLoading := false;
        return;
      }

      match response {
        case Success(details) =>
          pokemonList := pokemonList + StoreApi.KeepSuccesses(details);
          totalItems := |pokemonList|;
          storedList := Some(pokemonList);
        case Failure(_) =>
          error := Some(FetchFailedMessage);
      }
      isLoading := false;
    }

    /** `fetchEvolutionChain`: the linearised chain, or an empty list when the species or
        chain request fails; the store's state is not touched. */
    method FetchEvolutionChain(outcome: Result<EvolutionChain, Thrown>) returns (evolutions: seq<PokemonEvolution>)
      ensures outcome.Success? ==> evolutions == FirstChildPath(outcome.value)
      ensures outcome.Failure? ==> evolutions == []
    {
      match outcome {
        case Success(chain) =>
          evolutions := ParseEvolutionChain(chain);
        case Failure(_) =>
          evolutions := [];
      }
    }
  }

  /** Once a fetch has brought at least one Pokemon, a second `fetchPokemon` keeps the
      list whatever the second outcome would have been. A first fetch that fails or
      brings none leaves the list empty, so the second one fetches again and its
      Pokemon make up the list. A favourite toggled twice is a favourite again exactly
      when it was before. */
  method FetchTwiceThenToggleTwice(s: Store, first: ListOutcome, second: ListOutcome, id: int)
    requires !s.isLoading && NoDuplicates(s.favorites)
    modifies s
    ensures |old(s.pokemonList)| == 0 && first.Success? && |StoreApi.KeepSuccesses(first.value)| > 0 ==>
              s.pokemonList == StoreApi.KeepSuccesses(first.value)
    ensures |old(s.pokemonList)| == 0 && (first.Failure? || |StoreApi.KeepSuccesses(first.value)| == 0) &&
            second.Success? ==>
              s.pokemonList == StoreApi.KeepSuccesses(second.value)
    ensures forall x :: x in s.favorites <==> x in old(s.favorites)
    ensures !s.isLoading
  {
    s.FetchPokemon(first);
    s.FetchPokemon(second);
    s.ToggleFavorite(id);
    s.ToggleFavorite(id);
    ToggleTwiceSameMembers(old(s.favorites), id);
  }
}
