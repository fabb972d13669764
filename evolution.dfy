/** `parseEvolutionChain`, which appears with the same body in the store, the
    service and the standalone API module: it walks the evolution tree from the
    root, always into the first child, and records each species it passes. */
module Evolution {
  import opened Wrappers
  import opened Text
  import opened PokemonTypes

  /** `parseInt(url.split("/").slice(-2, -1)[0])`: the number in the second-to-last
      `/`-separated segment; `None` (NaN) when there is no such segment or it does
      not start with a digit. */
  function SpeciesId(url: string): (r: Option<int>)
    ensures r.Some? ==> r.value >= 0
  {
    var segments := Split(url, '/');
    if |segments| >= 2 then ParseInt(segments[|segments| - 2]) else None
  }

  /** A species URL of the form `<prefix>/<n>/` carries the id `n`. */
  lemma SpeciesIdOfUrl(prefix: string, n: nat)
    ensures SpeciesId(prefix + "/" + Decimal(n) + "/") == Some(n)
  {
    var d := Decimal(n);
    assert '/' !in d;
    assert prefix + "/" + d + "/" == prefix + ['/'] + (d + ['/'] + "");
    SplitAround(prefix, '/', d + ['/'] + "");
    SplitAround(d, '/', "");
    SplitNoSeparator(d, '/');
    var segments := Split(prefix, '/') + [d] + [""];
    assert Split(prefix + "/" + d + "/", '/') == segments;
    ParseIntDecimal(n);
  }

  /** The id of the fourth species, read from the URL the API gives for it. */
  lemma SpeciesIdExample()
    ensures SpeciesId("https://pokeapi.co/api/v2/pokemon-species/4/") == Some(4)
  {
    var prefix := "https://pokeapi.co/api/v2/pokemon-species";
    assert Decimal(4) == "4";
    SpeciesIdOfUrl(prefix, 4);
    assert prefix + "/" + Decimal(4) + "/" == "https://pokeapi.co/api/v2/pokemon-species/4/";
  }

  /** The `{name, id}` record emitted for one node of the tree. */
  function Entry(node: EvolutionChain): PokemonEvolution
  {
    PokemonEvolution(SpeciesId(node.speciesUrl), node.speciesName)
  }

  /** The number of nodes on the first-child path from `chain` down. */
  function Depth(chain: EvolutionChain): (n: nat)
    ensures n >= 1
  {
    1 + if |chain.evolvesTo| == 0 then 0 else Depth(chain.evolvesTo[0])
  }

  /** The `i`-th node on the first-child path (the root is node 0). */
  function NodeAt(chain: EvolutionChain, i: nat): EvolutionChain
    requires i < Depth(chain)
  {
    if i == 0 then chain else NodeAt(chain.evolvesTo[0], i - 1)
  }

  /** The linearisation of an evolution tree: root first, then the first child of each node. */
  function FirstChildPath(chain: EvolutionChain): (r: seq<PokemonEvolution>)
    ensures |r| == Depth(chain)
    ensures r[0] == Entry(chain)
  {
    [Entry(chain)] + if |chain.evolvesTo| == 0 then [] else FirstChildPath(chain.evolvesTo[0])
  }

  /** Entry `i` of the linearisation is the `i`-th node on the first-child path; each node
      before the last has a child and the next node is its first child; the walk stops at
      the first node without children. */
  lemma {:induction false} FirstChildPathAt(chain: EvolutionChain, i: nat)
    requires i < Depth(chain)
    ensures FirstChildPath(chain)[i] == Entry(NodeAt(chain, i))
    ensures i + 1 < Depth(chain) ==> |NodeAt(chain, i).evolvesTo| > 0
    ensures i + 1 < Depth(chain) ==> NodeAt(chain, i + 1) == NodeAt(chain, i).evolvesTo[0]
    ensures i + 1 == Depth(chain) ==> NodeAt(chain, i).evolvesTo == []
  {
    if i > 0 {
      FirstChildPathAt(chain.evolvesTo[0], i - 1);
    }
  }

  /** The tree with every branch but the first removed, at every level. */
  function FirstBranchOnly(chain: EvolutionChain): EvolutionChain
  {
    EvolutionChain(chain.speciesName, chain.speciesUrl,
      if |chain.evolvesTo| == 0 then [] else [FirstBranchOnly(chain.evolvesTo[0])])
  }

  /** Only the first branch matters: dropping all the others leaves the result unchanged. */
  lemma {:induction false} OtherBranchesIgnored(chain: EvolutionChain)
    ensures FirstChildPath(FirstBranchOnly(chain)) == FirstChildPath(chain)
  {
    if |chain.evolvesTo| > 0 {
      OtherBranchesIgnored(chain.evolvesTo[0]);
    }
  }

  /** A -> [B, C], B -> [D] is linearised as A, B, D: the branch to C is dropped. */
  lemma BranchingExample(ua: string, ub: string, uc: string, ud: string)
    ensures var d := EvolutionChain("D", ud, []);
            var b := EvolutionChain("B", ub, [d]);
            var c := EvolutionChain("C", uc, []);
            var a := EvolutionChain("A", ua, [b, c]);
            FirstChildPath(a) == [Entry(a), Entry(b), Entry(d)]
  {
  }

  /** What is left to emit once the walk has reached `current`. */
  function Remaining(current: Option<EvolutionChain>): seq<PokemonEvolution>
  {
    if current.Some? then FirstChildPath(current.value) else []
  }

  /** `current = current.evolves_to[0]`: the first child, or `undefined` (`None`). */
  function FirstChild(node: EvolutionChain): Option<EvolutionChain>
  {
    if |node.evolvesTo| > 0 then Some(node.evolvesTo[0]) else None
  }

  /** One turn of the loop emits the current node and moves to its first child. */
  lemma RemainingStep(node: EvolutionChain)
    ensures Remaining(Some(node)) == [Entry(node)] + Remaining(FirstChild(node))
  {
  }

  /** The `while (current)` loop of `parseEvolutionChain`. */
  method ParseEvolutionChain(chain: EvolutionChain) returns (evolutions: seq<PokemonEvolution>)
    ensures evolutions == FirstChildPath(chain)
  {
    evolutions := [];
    var current: Option<EvolutionChain> := Some(chain);
    while current.Some?
      invariant evolutions + Remaining(current) == FirstChildPath(chain)
      decreases |Remaining(current)|
    {
      var node := current.value;
      RemainingStep(node);
      ghost var before := evolutions;
      evolutions := evolutions + [Entry(node)];
      current := FirstChild(node);
      assert evolutions + Remaining(current) == before + ([Entry(node)] + Remaining(current));
    }
    assert evolutions + [] == evolutions;
  }
}
