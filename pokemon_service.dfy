/** `PokemonService`: the list-with-details and evolution-chain requests, the
    detail-to-Pokemon field mapping, and the error classification. */
module PokemonService {
  import opened Wrappers
  import opened PokemonTypes
  import opened Evolution

  /** The message `handleError` falls back to. */
  const FallbackMessage := "Failed to fetch Pokemon data"

  /** `types.map(type => type.type.name)`. */
  function TypeNames(slots: seq<TypeSlot>): (r: seq<string>)
    ensures |r| == |slots|
    ensures forall k :: 0 <= k < |slots| ==> r[k] == slots[k].typeName
  {
    if |slots| == 0 then [] else [slots[0].typeName] + TypeNames(slots[1..])
  }

  /** `stats.map(stat => ({name: stat.stat.name, value: stat.base_stat}))`. */
  function StatValues(slots: seq<StatSlot>): (r: seq<PokemonStat>)
    ensures |r| == |slots|
    ensures forall k :: 0 <= k < |slots| ==> r[k] == PokemonStat(slots[k].statName, slots[k].baseStat)
  {
    if |slots| == 0 then [] else [PokemonStat(slots[0].statName, slots[0].baseStat)] + StatValues(slots[1..])
  }

  /** `transformPokemonData`: the flat Pokemon record of a detail response. Scalar
      fields are copied, `image` and `species` are lifted out of their nested objects,
      and `types`/`stats` keep the response's length and order. */
  function TransformPokemonData(data: PokemonDetails): (p: Pokemon)
    ensures p.id == data.id && p.name == data.name
    ensures p.image == data.frontDefault && p.species == data.speciesUrl
    ensures |p.types| == |data.types|
    ensures forall k :: 0 <= k < |data.types| ==> p.types[k] == data.types[k].typeName
    ensures |p.stats| == |data.stats|
    ensures forall k :: 0 <= k < |data.stats| ==>
              p.stats[k].name == data.stats[k].statName && p.stats[k].value == data.stats[k].baseStat
  {
    Pokemon(data.id, data.name, data.frontDefault, TypeNames(data.types), StatValues(data.stats), data.speciesUrl)
  }

  /** `handleError`: the message of the `Error` the service rethrows. An `Error` keeps its
      own message (even when it also carries a response); any other object with a
      `response` field gives `response.data.message`; everything else gives the fallback. */
  function HandleError(thrown: Thrown): (message: string)
    ensures thrown.ErrorInstance? ==> message == thrown.message
    ensures thrown.PlainObject? && thrown.response.Some? ==> message == thrown.response.value
    ensures thrown.Primitive? || thrown == PlainObject(None) ==> message == FallbackMessage
  {
    match thrown
    case ErrorInstance(m, _) => m
    case PlainObject(Some(m)) => m
    case _ => FallbackMessage
  }

  /** What `getPokemonList` rejects with: the `Error` built by `handleError`, or, for a
      failed detail request, the thrown value itself. */
  datatype ServiceError = Handled(message: string) | Unhandled(cause: Thrown)

  /** `Promise.all` over the detail requests: every detail transformed, in result order,
      or the failure of the first failed request. */
  function TransformAll(details: seq<DetailOutcome>): (r: Result<seq<Pokemon>, Thrown>)
    ensures r.Success? <==> forall k :: 0 <= k < |details| ==> details[k].Success?
    ensures r.Success? ==> |r.value| == |details|
    ensures r.Success? ==> forall k :: 0 <= k < |details| ==> r.value[k] == TransformPokemonData(details[k].value)
    ensures r.Failure? ==> exists k :: 0 <= k < |details| && details[k] == Failure(r.error)
  {
    if |details| == 0 then Success([])
    else match details[0]
      case Failure(e) => Failure(e)
      case Success(d) =>
        match TransformAll(details[1..])
        case Failure(e) => Failure(e)
        case Success(rest) => Success([TransformPokemonData(d)] + rest)
  }

  /** `getPokemonList`: all or nothing. A failed list request is rethrown through
      `handleError`; otherwise there is one Pokemon per listed result, in order, unless a
      detail request failed, in which case that failure escapes as thrown (the
      `Promise.all` is returned without `await`, so the `catch` never sees it). */
  function GetPokemonList(response: ListOutcome): (r: Result<seq<Pokemon>, ServiceError>)
    ensures response.Failure? ==> r == Failure(Handled(HandleError(response.error)))
    ensures response.Success? ==>
              (r.Success? <==> forall k :: 0 <= k < |response.value| ==> response.value[k].Success?)
    ensures response.Success? && r.Success? ==>
              |r.value| == |response.value| &&
              forall k :: 0 <= k < |response.value| ==> r.value[k] == TransformPokemonData(response.value[k].value)
    ensures response.Success? && r.Failure? ==>
              r.error.Unhandled? &&
              exists k :: 0 <= k < |response.value| && response.value[k] == Failure(r.error.cause)
  {
    match response
    case Failure(e) => Failure(Handled(HandleError(e)))
    case Success(details) =>
      match TransformAll(details)
      case Failure(e) => Failure(Unhandled(e))
      case Success(list) => Success(list)
  }

  /** `getEvolutionChain`: the linearised chain, or the failure of the species or chain
      request rethrown through `handleError`. */
  method GetEvolutionChain(outcome: Result<EvolutionChain, Thrown>) returns (r: Result<seq<PokemonEvolution>, string>)
    ensures outcome.Success? ==> r == Success(FirstChildPath(outcome.value))
    ensures outcome.Failure? ==> r == Failure(HandleError(outcome.error))
  {
    match outcome {
      case Success(chain) =>
        var evolutions := ParseEvolutionChain(chain);
        r := Success(evolutions);
      case Failure(e) =>
        r := Failure(HandleError(e));
    }
  }
}
