/** The standalone `fetchPokemonList` / `fetchEvolutionChain` helpers, which tolerate
    failed detail requests by dropping those items. */
module StoreApi {
  import opened Wrappers
  import opened PokemonTypes
  import opened Evolution
  import PokemonService

  const ListFailureMessage := "Falha ao buscar a lista de Pokémon."

  const ChainFailureMessage := "Falha ao buscar a cadeia de evolução."

  /** The transformed details of the requests that succeeded, in result order; a failed
      request (its `catch` returns `null`) is filtered out. */
  function KeepSuccesses(details: seq<DetailOutcome>): (r: seq<Pokemon>)
    ensures |r| <= |details|
  {
    if |details| == 0 then []
    else
      var rest := KeepSuccesses(details[1..]);
      match details[0]
      case Success(d) => [PokemonService.TransformPokemonData(d)] + rest
      case Failure(_) => rest
  }

  /** Nothing is invented: every kept Pokémon is the transform of a successful detail. */
  lemma {:induction false} KeepSuccessesFromSuccesses(details: seq<DetailOutcome>)
    ensures forall p :: p in KeepSuccesses(details) ==>
              exists k :: 0 <= k < |details| && details[k].Success? &&
                          p == PokemonService.TransformPokemonData(details[k].value)
  {
    if |details| > 0 {
      KeepSuccessesFromSuccesses(details[1..]);
      var rest := KeepSuccesses(details[1..]);
      forall p | p in KeepSuccesses(details)
        ensures exists k :: 0 <= k < |details| && details[k].Success? &&
                            p == PokemonService.TransformPokemonData(details[k].value)
      {
        if p in rest {
          var k :| 0 <= k < |details[1..]| && details[1..][k].Success? &&
                   p == PokemonService.TransformPokemonData(details[1..][k].value);
          assert details[k + 1] == details[1..][k];
        } else {
          assert details[0].Success? && p == PokemonService.TransformPokemonData(details[0].value);
        }
      }
    }
  }

  /** Nothing successful is lost: the transform of every successful detail is kept. */
  lemma {:induction false} KeepSuccessesKeepsAll(details: seq<DetailOutcome>)
    ensures forall k :: 0 <= k < |details| && details[k].Success? ==>
              PokemonService.TransformPokemonData(details[k].value) in KeepSuccesses(details)
  {
    if |details| > 0 {
      KeepSuccessesKeepsAll(details[1..]);
      forall k | 0 <= k < |details| && details[k].Success?
        ensures PokemonService.TransformPokemonData(details[k].value) in KeepSuccesses(details)
      {
        if k > 0 {
          assert details[1..][k - 1] == details[k];
        }
      }
    }
  }

  /** The result has one entry per detail exactly when no request failed. */
  lemma {:induction false} KeepSuccessesFullIff(details: seq<DetailOutcome>)
    ensures |KeepSuccesses(details)| == |details| <==> forall k :: 0 <= k < |details| ==> details[k].Success?
  {
    if |details| > 0 {
      KeepSuccessesFullIff(details[1..]);
      if details[0].Failure? {
        assert |KeepSuccesses(details)| < |details|;
      } else if forall k :: 0 <= k < |details[1..]| ==> details[1..][k].Success? {
        assert forall k :: 0 <= k < |details| ==> details[k].Success? by {
          forall k | 0 <= k < |details| ensures details[k].Success? {
            if k > 0 { assert details[1..][k - 1] == details[k]; }
          }
        }
      } else {
        var k :| 0 <= k < |details[1..]| && !details[1..][k].Success?;
        assert !details[k + 1].Success?;
      }
    }
  }

  /** `KeepSuccesses` keeps relative order: it works piece by piece. */
  lemma {:induction false} KeepSuccessesAppend(a: seq<DetailOutcome>, b: seq<DetailOutcome>)
    ensures KeepSuccesses(a + b) == KeepSuccesses(a) + KeepSuccesses(b)
  {
    if |a| == 0 {
      assert a + b == b;
    } else {
      assert (a + b)[0] == a[0];
      assert (a + b)[1..] == a[1..] + b;
      KeepSuccessesAppend(a[1..], b);
      var head := if a[0].Success? then [PokemonService.TransformPokemonData(a[0].value)] else [];
      assert KeepSuccesses(a + b) == head + KeepSuccesses(a[1..] + b);
      assert KeepSuccesses(a) == head + KeepSuccesses(a[1..]);
    }
  }

  /** `fetchPokemonList`: a failed list request becomes the fixed message; otherwise the
      successfully fetched Pokemon, in order, with failed details dropped. */
  function FetchPokemonList(response: ListOutcome): (r: Result<seq<Pokemon>, string>)
    ensures response.Failure? <==> r == Failure(ListFailureMessage)
    ensures response.Success? ==> r == Success(KeepSuccesses(response.value))
    ensures response.Success? ==> r.Success? && |r.value| <= |response.value|
  {
    match response
    case Failure(_) => Failure(ListFailureMessage)
    case Success(details) => Success(KeepSuccesses(details))
  }

  /** When no detail request fails, the tolerant fetch and the all-or-nothing service
      return the same list. */
  lemma {:induction false} TolerantAgreesWithStrict(details: seq<DetailOutcome>)
    requires forall k :: 0 <= k < |details| ==> details[k].Success?
    ensures PokemonService.GetPokemonList(Success(details)).Success?
    ensures FetchPokemonList(Success(details)) == Success(PokemonService.GetPokemonList(Success(details)).value)
  {
    if |details| > 0 {
      TolerantAgreesWithStrict(details[1..]);
    }
  }

  /** `fetchEvolutionChain`: the linearised chain, or the fixed message when the species
      or chain request fails. */
  method FetchEvolutionChain(outcome: Result<EvolutionChain, Thrown>) returns (r: Result<seq<PokemonEvolution>, string>)
    ensures outcome.Success? ==> r == Success(FirstChildPath(outcome.value))
    ensures outcome.Failure? ==> r == Failure(ChainFailureMessage)
  {
    match outcome {
      case Success(chain) =>
        var evolutions := ParseEvolutionChain(chain);
        r := Success(evolutions);
      case Failure(_) =>
        r := Failure(ChainFailureMessage);
    }
  }
}
