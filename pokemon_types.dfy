/** The records the client works with, and the raw shapes of the PokeAPI responses it reads. */
module PokemonTypes {
  import opened Wrappers

  /** One base statistic of a Pokemon, flattened from the API's `{stat: {name}, base_stat}`. */
  datatype PokemonStat = PokemonStat(name: string, value: int)

  /** A Pokemon as the client keeps it; identity is `id`. */
  datatype Pokemon = Pokemon(
    id: int,
    name: string,
    image: string,
    types: seq<string>,
    stats: seq<PokemonStat>,
    species: string)

  /** One stage of an evolution line; `id` is `None` where `parseInt` yields `NaN`. */
  datatype PokemonEvolution = PokemonEvolution(id: Option<int>, name: string)

  /** The API's evolution tree: `{species: {name, url}, evolves_to: [...]}`. */
  datatype EvolutionChain = EvolutionChain(
    speciesName: string,
    speciesUrl: string,
    evolvesTo: seq<EvolutionChain>)

  /** `{type: {name}}` in a Pokemon detail response. */
  datatype TypeSlot = TypeSlot(typeName: string)

  /** `{stat: {name}, base_stat}` in a Pokemon detail response. */
  datatype StatSlot = StatSlot(statName: string, baseStat: int)

  /** The fields of a Pokemon detail response that the client reads. */
  datatype PokemonDetails = PokemonDetails(
    id: int,
    name: string,
    frontDefault: string,
    types: seq<TypeSlot>,
    stats: seq<StatSlot>,
    speciesUrl: string)

  /** A value thrown by a request: an `Error` instance (an axios error carries the
      `response.data.message` of the reply, if any), a plain object that may have a
      `response` field, or anything else (a string, `null`, ...). */
  datatype Thrown =
    | ErrorInstance(message: string, response: Option<string>)
    | PlainObject(response: Option<string>)
    | Primitive

  /** The outcome of one detail request. */
  type DetailOutcome = Result<PokemonDetails, Thrown>

  /** The outcome of a list request: the detail outcomes, one per listed result, in
      result order, or what the list request threw. */
  type ListOutcome = Result<seq<DetailOutcome>, Thrown>
}
