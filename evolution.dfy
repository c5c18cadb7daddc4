/**
 The population and one generation of the main loop of genetic_text.py:
 threshold, in-order pairing of eligible parents, breeding, tagging the
 children with the next generation, and evicting the old generations.
 */
module Evolution {
  import opened Wrappers
  import opened Specimens
  import opened Operators
  import opened Selection

  /** Size of the population the program starts from. */
  const InitialSize: nat := 32

  /** How many generations a specimen lives, its birth generation included. */
  const Lifetime: nat := 3

  /** The stored fitness is the fitness of the stored code, which has the goal's length. */
  predicate Consistent(s: Specimen, goal: string)
  {
    |s.code| == |goal| && s.fitness == MatchCount(s.code, goal)
  }

  /**
   `s[2] > gen - 3`, the eviction test: a specimen born no later than `gen`
   survives exactly when it was born in one of the last three generations.
   */
  predicate Alive(s: Specimen, gen: int)
    ensures s.generation <= gen ==>
      (Alive(s, gen) <==> s.generation == gen || s.generation == gen - 1 || s.generation == gen - 2)
  {
    s.generation > gen - Lifetime
  }

  /**
   Every stored fitness is that of its stored code, and every specimen was
   born in one of the last three generations up to `gen`, none after it.
   */
  predicate Current(population: seq<Specimen>, goal: string, gen: int)
  {
    forall i :: 0 <= i < |population| ==>
      Consistent(population[i], goal) && Alive(population[i], gen) && population[i].generation <= gen
  }

  /**
   The specimens the pairing pass buffers as parents: those whose fitness
   reaches the threshold, in population order.
   */
  function Eligible(population: seq<Specimen>, minFitness: nat): (e: seq<Specimen>)
    ensures |e| <= |population|
  {
    if population == [] then []
    else
      var init := population[..|population| - 1];
      var last := population[|population| - 1];
      assert population == init + [last];
      if last.fitness >= minFitness then Eligible(init, minFitness) + [last] else Eligible(init, minFitness)
  }

  /** The eligible specimens are exactly the population's specimens that reach the threshold. */
  lemma {:induction false} EligibleMembers(population: seq<Specimen>, minFitness: nat, s: Specimen)
    ensures s in Eligible(population, minFitness) <==> s in population && s.fitness >= minFitness
  {
    if population != [] {
      var init := population[..|population| - 1];
      assert population == init + [population[|population| - 1]];
      EligibleMembers(init, minFitness, s);
    }
  }

  /**
   The specimen stored for a child of `a` and `b`: its code, the fitness of
   that code, and the generation it is tagged with.
   */
  function Child(a: Specimen, b: Specimen, d: BreedDraw, goal: string, generation: nat): (c: Specimen)
    requires |goal| > 0 && |a.code| == |goal| && |b.code| == |goal| && DrawFits(d, |goal|)
    ensures Consistent(c, goal) && c.generation == generation
  {
    BredDiffersInAtMostOne(a.code, b.code, d);
    var code := Bred(a.code, b.code, d).value;
    Specimen(code, MatchCount(code, goal), generation)
  }

  /**
   The children the pairing pass produces from the eligible specimens `e`:
   child `j` is bred from `e[2j]` and `e[2j+1]` with the `j`th draws, so an
   odd last parent has no partner and breeds nothing.
   */
  function Offspring(e: seq<Specimen>, draws: seq<BreedDraw>, goal: string, generation: nat): (children: seq<Specimen>)
    requires CodesFit(e, goal)
    requires |draws| >= |e| / 2 && forall i :: 0 <= i < |draws| ==> DrawFits(draws[i], |goal|)
    ensures |children| == |e| / 2
    ensures forall j :: 0 <= j < |children| ==>
      Consistent(children[j], goal) && children[j].generation == generation
  {
    seq(|e| / 2, j requires 0 <= j < |e| / 2 => Child(e[2 * j], e[2 * j + 1], draws[j], goal, generation))
  }

  /**
   Child `j` is bred, with the `j`th draws, from the consecutive eligible
   specimens `2j` and `2j+1`: its code has the goal's length and, except at
   the one position a mutation may overwrite, agrees with the crossover of
   the pair, so each of those genes is the gene of one of the two parents.
   */
  lemma OffspringPairs(e: seq<Specimen>, draws: seq<BreedDraw>, goal: string, generation: nat, j: nat)
    requires CodesFit(e, goal)
    requires |draws| >= |e| / 2 && forall i :: 0 <= i < |draws| ==> DrawFits(draws[i], |goal|)
    requires j < |e| / 2
    ensures Bred(e[2 * j].code, e[2 * j + 1].code, draws[j]).Success?
    ensures Offspring(e, draws, goal, generation)[j].code == Bred(e[2 * j].code, e[2 * j + 1].code, draws[j]).value
    ensures |Offspring(e, draws, goal, generation)[j].code| == |goal|
    ensures forall i :: 0 <= i < |goal| && (!draws[j].mutate || i != draws[j].position) ==>
      && Offspring(e, draws, goal, generation)[j].code[i] == Crossover(e[2 * j].code, e[2 * j + 1].code, draws[j].fromA)[i]
      && (Offspring(e, draws, goal, generation)[j].code[i] == e[2 * j].code[i]
          || Offspring(e, draws, goal, generation)[j].code[i] == e[2 * j + 1].code[i])
  {
    var a, b := e[2 * j].code, e[2 * j + 1].code;
    BredDiffersInAtMostOne(a, b, draws[j]);
    var c := Offspring(e, draws, goal, generation)[j].code;
    assert c == Bred(a, b, draws[j]).value;
    forall i | 0 <= i < |goal| && (!draws[j].mutate || i != draws[j].position)
      ensures c[i] == Crossover(a, b, draws[j].fromA)[i] && (c[i] == a[i] || c[i] == b[i])
    {
    }
  }

  /** `[s for s in population if s[2] > gen - 3]`. */
  function Survivors(population: seq<Specimen>, gen: int): (r: seq<Specimen>)
    ensures |r| <= |population|
  {
    if population == [] then []
    else if Alive(population[0], gen) then [population[0]] + Survivors(population[1..], gen)
    else Survivors(population[1..], gen)
  }

  /** The survivors are exactly the specimens of the population still alive at `gen`. */
  lemma {:induction false} SurvivorsMembers(population: seq<Specimen>, gen: int, s: Specimen)
    ensures s in Survivors(population, gen) <==> s in population && Alive(s, gen)
  {
    if population != [] {
      SurvivorsMembers(population[1..], gen, s);
      assert population == [population[0]] + population[1..];
    }
  }

  /** Eviction keeps the relative order: it filters each part of a concatenation on its own. */
  lemma {:induction false} SurvivorsAppend(a: seq<Specimen>, b: seq<Specimen>, gen: int)
    ensures Survivors(a + b, gen) == Survivors(a, gen) + Survivors(b, gen)
  {
    if a != [] {
      assert (a + b)[0] == a[0];
      assert (a + b)[1..] == a[1..] + b;
      SurvivorsAppend(a[1..], b, gen);
    } else {
      assert a + b == b;
    }
  }

  /** Eviction removes nothing when every specimen is still alive. */
  lemma {:induction false} SurvivorsAllAlive(population: seq<Specimen>, gen: int)
    requires forall i :: 0 <= i < |population| ==> Alive(population[i], gen)
    ensures Survivors(population, gen) == population
  {
    if population != [] {
      SurvivorsAllAlive(population[1..], gen);
    }
  }

  /** Scanning one more specimen extends the eligible list by it or by nothing. */
  lemma EligibleStep(population: seq<Specimen>, i: nat, minFitness: nat)
    requires i < |population|
    ensures population[i].fitness >= minFitness ==>
      Eligible(population[..i + 1], minFitness) == Eligible(population[..i], minFitness) + [population[i]]
    ensures population[i].fitness < minFitness ==>
      Eligible(population[..i + 1], minFitness) == Eligible(population[..i], minFitness)
  {
    assert population[..i + 1][..i] == population[..i];
  }

  /** Child `j` of the offspring is the child of eligible specimens `2j` and `2j+1`. */
  lemma OffspringAt(e: seq<Specimen>, draws: seq<BreedDraw>, goal: string, generation: nat, j: nat)
    requires CodesFit(e, goal)
    requires |draws| >= |e| / 2 && forall i :: 0 <= i < |draws| ==> DrawFits(draws[i], |goal|)
    requires j < |e| / 2
    ensures 2 * j + 1 < |e|
    ensures Offspring(e, draws, goal, generation)[j] == Child(e[2 * j], e[2 * j + 1], draws[j], goal, generation)
  {
  }

  /** Appending one eligible specimen leaves the children already bred unchanged. */
  lemma {:induction false} OffspringPrefix(e: seq<Specimen>, s: Specimen, draws: seq<BreedDraw>, goal: string, generation: nat)
    requires |s.code| == |goal| > 0 && CodesFit(e, goal)
    requires |draws| >= (|e| + 1) / 2 && forall i :: 0 <= i < |draws| ==> DrawFits(draws[i], |goal|)
    ensures CodesFit(e + [s], goal)
    ensures Offspring(e + [s], draws, goal, generation)[..|e| / 2] == Offspring(e, draws, goal, generation)
  {
    var e' := e + [s];
    assert CodesFit(e', goal);
    var before, after := Offspring(e, draws, goal, generation), Offspring(e', draws, goal, generation);
    forall j | 0 <= j < |before|
      ensures after[j] == before[j]
    {
      OffspringAt(e, draws, goal, generation, j);
      OffspringAt(e', draws, goal, generation, j);
      assert e'[2 * j] == e[2 * j] && e'[2 * j + 1] == e[2 * j + 1];
    }
  }

  /** The specimen completing the last pair of an odd list is bred with the list's last one. */
  lemma OffspringLast(e: seq<Specimen>, s: Specimen, draws: seq<BreedDraw>, goal: string, generation: nat)
    requires |s.code| == |goal| > 0 && CodesFit(e + [s], goal) && |e| % 2 == 1
    requires |draws| >= (|e| + 1) / 2 && forall i :: 0 <= i < |draws| ==> DrawFits(draws[i], |goal|)
    ensures |Offspring(e + [s], draws, goal, generation)| == |e| / 2 + 1
    ensures Offspring(e + [s], draws, goal, generation)[|e| / 2] ==
      Child(e[|e| - 1], s, draws[|e| / 2], goal, generation)
  {
    var k := |e| / 2;
    OffspringAt(e + [s], draws, goal, generation, k);
    assert (e + [s])[2 * k] == e[|e| - 1] && (e + [s])[2 * k + 1] == s;
  }

  /** An eligible specimen opening a pair adds no child. */
  lemma OffspringOpen(e: seq<Specimen>, s: Specimen, draws: seq<BreedDraw>, goal: string, generation: nat)
    requires |s.code| == |goal| > 0 && CodesFit(e, goal) && |e| % 2 == 0
    requires |draws| >= (|e| + 1) / 2 && forall i :: 0 <= i < |draws| ==> DrawFits(draws[i], |goal|)
    ensures CodesFit(e + [s], goal)
    ensures Offspring(e + [s], draws, goal, generation) == Offspring(e, draws, goal, generation)
  {
    OffspringPrefix(e, s, draws, goal, generation);
    var after := Offspring(e + [s], draws, goal, generation);
    assert after == after[..|e| / 2];
  }

  /** An eligible specimen completing a pair adds exactly one child after the earlier ones. */
  lemma OffspringClose(e: seq<Specimen>, s: Specimen, draws: seq<BreedDraw>, goal: string, generation: nat)
    requires |s.code| == |goal| > 0 && CodesFit(e, goal) && |e| % 2 == 1
    requires |draws| >= (|e| + 1) / 2 && forall i :: 0 <= i < |draws| ==> DrawFits(draws[i], |goal|)
    ensures CodesFit(e + [s], goal)
    ensures var after := Offspring(e + [s], draws, goal, generation);
      |after| == |e| / 2 + 1 && after == Offspring(e, draws, goal, generation) + [after[|e| / 2]]
  {
    OffspringPrefix(e, s, draws, goal, generation);
    var k := |e| / 2;
    var after := Offspring(e + [s], draws, goal, generation);
    assert after == after[..k] + [after[k]];
  }

  /** An eligible specimen completing a pair adds one child; one opening a pair adds none. */
  lemma OffspringStep(e: seq<Specimen>, s: Specimen, draws: seq<BreedDraw>, goal: string, generation: nat)
    requires |s.code| == |goal| > 0 && CodesFit(e, goal)
    requires |draws| >= (|e| + 1) / 2 && forall i :: 0 <= i < |draws| ==> DrawFits(draws[i], |goal|)
    ensures |e| % 2 == 0 ==> Offspring(e + [s], draws, goal, generation) == Offspring(e, draws, goal, generation)
    ensures |e| % 2 == 1 ==>
      (Offspring(e + [s], draws, goal, generation) ==
       Offspring(e, draws, goal, generation) + [Child(e[|e| - 1], s, draws[|e| / 2], goal, generation)])
  {
    if |e| % 2 == 1 {
      OffspringClose(e, s, draws, goal, generation);
      OffspringLast(e, s, draws, goal, generation);
    } else {
      OffspringOpen(e, s, draws, goal, generation);
    }
  }

  /**
   One eligible specimen joining the parent buffer, which holds the eligible
   specimens left over after the pairs bred so far: a buffer it fills is bred
   into the next child, otherwise it waits for a partner.
   */
  lemma PairStep(e: seq<Specimen>, parents: seq<Specimen>, children: seq<Specimen>, s: Specimen,
                 draws: seq<BreedDraw>, goal: string, generation: nat)
    requires |s.code| == |goal| > 0 && CodesFit(e, goal)
    requires |draws| >= (|e| + 1) / 2 && forall i :: 0 <= i < |draws| ==> DrawFits(draws[i], |goal|)
    requires |parents| < 2 && |e| == 2 * |children| + |parents|
    requires |parents| == 1 ==> parents == [e[|e| - 1]]
    requires children == Offspring(e, draws, goal, generation)
    ensures CodesFit(e + [s], goal)
    ensures |parents| == 1 ==>
      && |children| < |draws| && |parents[0].code| == |goal|
      && Offspring(e + [s], draws, goal, generation) == children + [Child(parents[0], s, draws[|children|], goal, generation)]
    ensures |parents| == 0 ==> Offspring(e + [s], draws, goal, generation) == children
  {
    OffspringStep(e, s, draws, goal, generation);
  }

  /** Breeds one full parent buffer and stores the child with its fitness and generation. */
  method BreedPair(a: Specimen, b: Specimen, d: BreedDraw, goal: string, generation: nat) returns (childInfo: Specimen)
    requires |goal| > 0 && |a.code| == |goal| && |b.code| == |goal| && DrawFits(d, |goal|)
    ensures childInfo == Child(a, b, d, goal, generation)
  {
    var child := Breed(a.code, b.code, d);
    BredDiffersInAtMostOne(a.code, b.code, d);
    var fitness := SpecimenFitness(child.value, goal);
    childInfo := Specimen(child.value, fitness, generation);
  }

  /**
   The state of the pairing pass after scanning the specimens whose eligible
   ones are `e`: every pair of them has been bred into `newGeneration`, and
   the parent buffer holds the one left over, if any.
   */
  predicate Buffered(e: seq<Specimen>, parents: seq<Specimen>, newGeneration: seq<Specimen>,
                     draws: seq<BreedDraw>, goal: string, generation: nat)
  {
    && CodesFit(e, goal)
    && |draws| >= |e| / 2 && (forall i :: 0 <= i < |draws| ==> DrawFits(draws[i], |goal|))
    && |parents| < 2 && |e| == 2 * |newGeneration| + |parents|
    && (|parents| == 1 ==> parents == [e[|e| - 1]])
    && newGeneration == Offspring(e, draws, goal, generation)
  }

  /**
   One iteration of the pairing pass, for specimen `s`: an eligible specimen
   joins the parent buffer, and a full buffer is bred into one child, tagged
   `generation`, and emptied.
   */
  method ScanSpecimen(s: Specimen, minBreedFitness: nat, parents: seq<Specimen>, newGeneration: seq<Specimen>,
                      ghost e: seq<Specimen>, draws: seq<BreedDraw>, goal: string, generation: nat)
    returns (parents': seq<Specimen>, newGeneration': seq<Specimen>)
    requires minBreedFitness > 0 && Consistent(s, goal)
    requires |draws| >= (|e| + 1) / 2
    requires Buffered(e, parents, newGeneration, draws, goal, generation)
    ensures Buffered(if s.fitness >= minBreedFitness then e + [s] else e, parents', newGeneration', draws, goal, generation)
  {
    parents', newGeneration' := parents, newGeneration;
    // `|parents| < 2` always holds here: a full buffer is emptied at once.
    if s.fitness >= minBreedFitness && |parents'| < 2 {
      PairStep(e, parents, newGeneration, s, draws, goal, generation);
      parents' := parents' + [s];
    }
    if |parents'| == 2 {
      var childInfo := BreedPair(parents'[0], parents'[1], draws[|newGeneration'|], goal, generation);
      newGeneration' := newGeneration' + [childInfo];
      parents' := [];
    }
  }

  /**
   The pairing pass: scanning `population` in order, each specimen whose
   fitness reaches `minBreedFitness` joins a two-slot parent buffer; a full
   buffer is bred into one child, tagged `generation`, and emptied. A parent
   left alone in the buffer at the end is dropped.
   */
  method PairingPass(population: seq<Specimen>, minBreedFitness: nat, draws: seq<BreedDraw>, goal: string, generation: nat)
    returns (newGeneration: seq<Specimen>)
    requires minBreedFitness > 0
    requires forall i :: 0 <= i < |population| ==> Consistent(population[i], goal)
    requires |draws| >= |population| / 2 && forall i :: 0 <= i < |draws| ==> DrawFits(draws[i], |goal|)
    ensures CodesFit(Eligible(population, minBreedFitness), goal)
    ensures newGeneration == Offspring(Eligible(population, minBreedFitness), draws, goal, generation)
  {
    var parents: seq<Specimen> := [];
    newGeneration := [];
    ghost var eligible: seq<Specimen> := [];
    for i := 0 to |population|
      invariant eligible == Eligible(population[..i], minBreedFitness)
      invariant Buffered(eligible, parents, newGeneration, draws, goal, generation)
    {
      var s := population[i];
      EligibleStep(population, i, minBreedFitness);
      parents, newGeneration := ScanSpecimen(s, minBreedFitness, parents, newGeneration, eligible, draws, goal, generation);
      eligible := if s.fitness >= minBreedFitness then eligible + [s] else eligible;
    }
    assert population[..|population|] == population;
  }

  /** Every code has the goal's length, and that length is not zero. */
  predicate CodesFit(e: seq<Specimen>, goal: string)
  {
    forall k :: 0 <= k < |e| ==> |e[k].code| == |goal| > 0
  }

  /** With a positive threshold, only non-empty codes of the goal's length are eligible. */
  lemma {:induction false} EligibleConsistent(population: seq<Specimen>, minBreedFitness: nat, goal: string)
    requires minBreedFitness > 0
    requires forall i :: 0 <= i < |population| ==> Consistent(population[i], goal)
    ensures CodesFit(Eligible(population, minBreedFitness), goal)
  {
    if population != [] {
      var n := |population| - 1;
      EligibleConsistent(population[..n], minBreedFitness, goal);
      assert Consistent(population[n], goal);
    }
  }

  /**
   The population after one generation at threshold `minBreedFitness`: the
   old population followed by the children tagged `gen + 1`, without what
   is then older than the last three generations. It keeps every stored
   fitness consistent, and grows by at most half the old population.
   */
  function NextPopulation(population: seq<Specimen>, minBreedFitness: nat, draws: seq<BreedDraw>, goal: string, gen: nat)
    : (next: seq<Specimen>)
    requires minBreedFitness > 0
    requires forall i :: 0 <= i < |population| ==> Consistent(population[i], goal) && population[i].generation <= gen
    requires |draws| >= |population| / 2 && forall i :: 0 <= i < |draws| ==> DrawFits(draws[i], |goal|)
    ensures Current(next, goal, gen + 1)
    ensures |next| <= |population| + |population| / 2
  {
    EligibleConsistent(population, minBreedFitness, goal);
    var e := Eligible(population, minBreedFitness);
    var children := Offspring(e, draws, goal, gen + 1);
    assert |children| <= |population| / 2 by {
      assert |children| == |e| / 2 && |e| <= |population|;
    }
    var next := Survivors(population + children, gen + 1);
    SurvivorsKeepInvariant(population, children, goal, gen);
    assert |next| <= |population| + |children|;
    next
  }

  /** The population after one generation, as the main loop computes it. */
  lemma NextPopulationDefinition(population: seq<Specimen>, minBreedFitness: nat, draws: seq<BreedDraw>, goal: string, gen: nat)
    requires minBreedFitness > 0
    requires forall i :: 0 <= i < |population| ==> Consistent(population[i], goal) && population[i].generation <= gen
    requires |draws| >= |population| / 2 && forall i :: 0 <= i < |draws| ==> DrawFits(draws[i], |goal|)
    ensures CodesFit(Eligible(population, minBreedFitness), goal)
    ensures NextPopulation(population, minBreedFitness, draws, goal, gen) ==
      Survivors(population + Offspring(Eligible(population, minBreedFitness), draws, goal, gen + 1), gen + 1)
  {
    EligibleConsistent(population, minBreedFitness, goal);
  }

  /**
   Appending children of generation `gen + 1` to a population no younger than
   `gen` and then evicting leaves only consistent specimens of the last three
   generations.
   */
  lemma SurvivorsKeepInvariant(population: seq<Specimen>, children: seq<Specimen>, goal: string, gen: nat)
    requires forall i :: 0 <= i < |population| ==> Consistent(population[i], goal) && population[i].generation <= gen
    requires forall i :: 0 <= i < |children| ==> Consistent(children[i], goal) && children[i].generation == gen + 1
    ensures Current(Survivors(population + children, gen + 1), goal, gen + 1)
  {
    var next := Survivors(population + children, gen + 1);
    forall k | 0 <= k < |next|
      ensures Consistent(next[k], goal) && Alive(next[k], gen + 1) && next[k].generation <= gen + 1
    {
      var t := next[k];
      SurvivorsMembers(population + children, gen + 1, t);
      assert t in population + children;
      if t in population {
        var m :| 0 <= m < |population| && population[m] == t;
      } else {
        var m :| 0 <= m < |children| && children[m] == t;
      }
    }
  }

  /**
   After one generation the population is the old population's survivors,
   in their old order, followed by every child: children are never evicted
   in the generation they are born, and a trailing unpaired parent adds none.
   */
  lemma NextPopulationOrder(population: seq<Specimen>, minBreedFitness: nat, draws: seq<BreedDraw>, goal: string, gen: nat)
    requires minBreedFitness > 0
    requires forall i :: 0 <= i < |population| ==> Consistent(population[i], goal) && population[i].generation <= gen
    requires |draws| >= |population| / 2 && forall i :: 0 <= i < |draws| ==> DrawFits(draws[i], |goal|)
    ensures CodesFit(Eligible(population, minBreedFitness), goal)
    ensures NextPopulation(population, minBreedFitness, draws, goal, gen) ==
      Survivors(population, gen + 1) + Offspring(Eligible(population, minBreedFitness), draws, goal, gen + 1)
    ensures |NextPopulation(population, minBreedFitness, draws, goal, gen)| ==
      |Survivors(population, gen + 1)| + |Eligible(population, minBreedFitness)| / 2
  {
    EligibleConsistent(population, minBreedFitness, goal);
    var children := Offspring(Eligible(population, minBreedFitness), draws, goal, gen + 1);
    SurvivorsAppend(population, children, gen + 1);
    SurvivorsAllAlive(children, gen + 1);
  }

  /** The population and generation counter the program keeps at module level. */
  class Population {
    const goal: string
    var specimens: seq<Specimen>
    var gen: nat

    /** The invariant the main loop keeps: the population is `Current` at `gen`. */
    ghost predicate Valid()
      reads this
    {
      Current(specimens, goal, gen)
    }

    /**
     The initial population: `InitialSize` random specimens at generation 0,
     `picks[i]` being the character draws for specimen `i`.
     */
    constructor (goal: string, picks: seq<seq<nat>>)
      requires |picks| == InitialSize
      requires forall p :: p in picks ==> |p| >= |goal| && forall k :: 0 <= k < |p| ==> p[k] < |Alphabet|
      ensures Valid() && this.goal == goal && gen == 0 && |specimens| == InitialSize
      ensures forall i :: 0 <= i < InitialSize ==> specimens[i].generation == 0
    {
      var population: seq<Specimen> := [];
      for i := 0 to InitialSize
        invariant |population| == i
        invariant forall j :: 0 <= j < i ==> Consistent(population[j], goal) && population[j].generation == 0
      {
        var specimen := GenerateSpecimen(|goal|, "", picks[i]);
        var fitness := SpecimenFitness(specimen, goal);
        population := population + [Specimen(specimen, fitness, 0)];
      }
      this.goal := goal;
      specimens := population;
      gen := 0;
    }

    /**
     One pass of the main loop's body. `ok` is false when no specimen has
     positive fitness: median_low then raises, before anything changes.
     `draws[j]` are the random draws of the `j`th breeding.
     */
    method Step(draws: seq<BreedDraw>) returns (ok: bool)
      requires Valid()
      requires |draws| >= |specimens| / 2 && forall i :: 0 <= i < |draws| ==> DrawFits(draws[i], |goal|)
      modifies this
      ensures Valid()
      ensures ok <==> MinimumBreedFitness(old(specimens)).Success?
      ensures !ok ==> specimens == old(specimens) && gen == old(gen)
      ensures ok ==> gen == old(gen) + 1
      ensures ok ==>
        specimens == NextPopulation(old(specimens), MinimumBreedFitness(old(specimens)).value, draws, goal, old(gen))
    {
      var minBreed := MinimumBreedFitness(specimens);
      if minBreed.Failure? {
        return false;
      }
      Advance(minBreed.value, draws);
      return true;
    }

    /**
     The rest of the pass once the threshold is known: pair and breed the
     specimens that reach it, append the children tagged with the next
     generation, advance the counter and evict the old generations.
     */
    method Advance(minBreedFitness: nat, draws: seq<BreedDraw>)
      requires Valid() && minBreedFitness > 0
      requires |draws| >= |specimens| / 2 && forall i :: 0 <= i < |draws| ==> DrawFits(draws[i], |goal|)
      modifies this
      ensures Valid()
      ensures gen == old(gen) + 1
      ensures specimens == NextPopulation(old(specimens), minBreedFitness, draws, goal, old(gen))
    {
      var population := specimens;
      var newGeneration := PairingPass(population, minBreedFitness, draws, goal, gen + 1);
      NextPopulationDefinition(population, minBreedFitness, draws, goal, gen);
      population := population + newGeneration;
      gen := gen + 1;
      population := Survivors(population, gen);
      specimens := population;
    }
  }
}
