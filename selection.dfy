/**
 Selection helpers of genetic_text.py: the fittest specimen and the
 fitness a specimen needs to breed (`find_fittest`, `minimum_breed_fitness`).
 */
module Selection {
  import opened Wrappers
  import opened Specimens

  /**
   `population[k]` is the specimen find_fittest reports: it has positive
   fitness, no specimen is fitter, and every earlier one is strictly less fit.
   */
  predicate IsFirstFittest(population: seq<Specimen>, k: nat)
  {
    && k < |population|
    && population[k].fitness > 0
    && (forall j :: 0 <= j < |population| ==> population[j].fitness <= population[k].fitness)
    && (forall j :: 0 <= j < k ==> population[j].fitness < population[k].fitness)
  }

  /**
   `find_fittest`: a running maximum that starts at fitness 0 and is replaced
   only by a strictly greater fitness. `None` is the empty tuple find_fittest
   returns when no specimen has positive fitness.
   */
  method FindFittest(population: seq<Specimen>) returns (fittest: Option<Specimen>)
    ensures fittest.None? <==> forall j :: 0 <= j < |population| ==> population[j].fitness == 0
    ensures fittest.Some? ==>
      exists k: nat :: IsFirstFittest(population, k) && population[k] == fittest.value
  {
    var maxFit := 0;
    fittest := None;
    ghost var at := 0;
    for i := 0 to |population|
      invariant fittest.None? <==> maxFit == 0
      invariant fittest.None? ==> forall j :: 0 <= j < i ==> population[j].fitness == 0
      invariant fittest.Some? ==> at < i && population[at] == fittest.value && maxFit == fittest.value.fitness
      invariant fittest.Some? ==> IsFirstFittest(population[..i], at)
    {
      var s := population[i];
      if s.fitness > maxFit {
        fittest := Some(s);
        maxFit := s.fitness;
        at := i;
      }
    }
    assert population[..|population|] == population;
  }

  /** `[s[1] for s in population if s[1] > 0]`. */
  function PositiveFitnesses(population: seq<Specimen>): (fs: seq<nat>)
    ensures |fs| <= |population|
    ensures forall i :: 0 <= i < |fs| ==> fs[i] > 0
  {
    if population == [] then []
    else
      var rest := PositiveFitnesses(population[1..]);
      if population[0].fitness > 0 then [population[0].fitness] + rest else rest
  }

  /** Fitness `v` occurs among the positive fitnesses exactly when a specimen has it. */
  lemma {:induction false} PositiveFitnessesHold(population: seq<Specimen>, v: nat)
    ensures v in PositiveFitnesses(population) <==>
      v > 0 && exists j :: 0 <= j < |population| && population[j].fitness == v
  {
    if population != [] {
      PositiveFitnessesHold(population[1..], v);
      if v > 0 && population[0].fitness != v {
        assert (exists j :: 0 <= j < |population| && population[j].fitness == v) <==>
               (exists j :: 0 <= j < |population[1..]| && population[1..][j].fitness == v) by {
          forall j | 0 <= j < |population| && population[j].fitness == v
            ensures 0 <= j - 1 < |population[1..]| && population[1..][j - 1].fitness == v
          {
          }
        }
      }
    }
  }

  /** Every fitness of the population, in order: the reference PositiveFitnessesCount counts against. */
  function Fitnesses(population: seq<Specimen>): (fs: seq<nat>)
    ensures |fs| == |population|
    ensures forall i :: 0 <= i < |fs| ==> fs[i] == population[i].fitness
  {
    seq(|population|, i requires 0 <= i < |population| => population[i].fitness)
  }

  /**
   The filter keeps every positive fitness once per specimen that has it and
   drops every zero: as multisets the positive fitnesses are the population's
   fitnesses without the zeros.
   */
  lemma {:induction false} PositiveFitnessesCount(population: seq<Specimen>, v: nat)
    ensures multiset(PositiveFitnesses(population))[v] == if v > 0 then multiset(Fitnesses(population))[v] else 0
  {
    if population != [] {
      PositiveFitnessesCount(population[1..], v);
      assert Fitnesses(population) == [population[0].fitness] + Fitnesses(population[1..]);
    }
  }

  predicate SortedUp(xs: seq<nat>)
  {
    forall i, j :: 0 <= i < j < |xs| ==> xs[i] <= xs[j]
  }

  function Insert(x: nat, xs: seq<nat>): (r: seq<nat>)
    requires SortedUp(xs)
    ensures |r| == |xs| + 1
    ensures r[0] == if xs == [] || x <= xs[0] then x else xs[0]
    ensures SortedUp(r) && multiset(r) == multiset(xs) + multiset{x}
  {
    if xs == [] then [x]
    else if x <= xs[0] then
      InsertAfterHead(x, xs);
      [x] + xs
    else
      var rest := Insert(x, xs[1..]);
      InsertAfterHead(xs[0], rest);
      assert xs == [xs[0]] + xs[1..];
      [xs[0]] + rest
  }

  /** A value no larger than the head of a sorted sequence can go in front of it. */
  lemma InsertAfterHead(y: nat, rest: seq<nat>)
    requires SortedUp(rest) && rest != [] && y <= rest[0]
    ensures SortedUp([y] + rest)
  {
    var r := [y] + rest;
    forall i, j | 0 <= i < j < |r| ensures r[i] <= r[j] {
      if i > 0 {
        assert r[i] == rest[i - 1] && r[j] == rest[j - 1];
      } else {
        assert r[j] == rest[j - 1] && rest[0] <= rest[j - 1];
      }
    }
  }

  /** Python's `sorted` on a list of fitnesses, as an insertion sort. */
  function Sort(xs: seq<nat>): (r: seq<nat>)
    ensures |r| == |xs|
    ensures SortedUp(r) && multiset(r) == multiset(xs)
  {
    if xs == [] then []
    else
      assert xs == [xs[0]] + xs[1..];
      Insert(xs[0], Sort(xs[1..]))
  }

  /** How many of `xs` are smaller than `v`. */
  function CountBelow(xs: seq<nat>, v: nat): (n: nat)
    ensures n <= |xs|
  {
    if xs == [] then 0 else (if xs[0] < v then 1 else 0) + CountBelow(xs[1..], v)
  }

  /** How many of `xs` are at most `v`. */
  function CountAtMost(xs: seq<nat>, v: nat): (n: nat)
    ensures n <= |xs|
  {
    if xs == [] then 0 else (if xs[0] <= v then 1 else 0) + CountAtMost(xs[1..], v)
  }

  /** `statistics.median_low`: element `(n-1)/2` of the sorted data, an error on no data. */
  function MedianLow(xs: seq<nat>): (r: Result<nat>)
    ensures r.Failure? <==> xs == []
    ensures r.Failure? ==> r.error == NoMedian
    ensures r.Success? ==> r.value in xs
  {
    if xs == [] then Failure(NoMedian)
    else
      var sorted := Sort(xs);
      assert sorted[(|xs| - 1) / 2] in multiset(sorted);
      Success(sorted[(|xs| - 1) / 2])
  }

  /** `minimum_breed_fitness`: the lower median of the positive fitnesses. */
  function MinimumBreedFitness(population: seq<Specimen>): (r: Result<nat>)
    ensures r.Failure? <==> forall j :: 0 <= j < |population| ==> population[j].fitness == 0
    ensures r.Success? ==> r.value > 0 && exists j :: 0 <= j < |population| && population[j].fitness == r.value
  {
    var fs := PositiveFitnesses(population);
    if fs == [] then
      forall j | 0 <= j < |population| ensures population[j].fitness == 0 {
        PositiveFitnessesHold(population, population[j].fitness);
      }
      Failure(NoMedian)
    else
      var m := MedianLow(fs);
      PositiveFitnessesHold(population, m.value);
      PositiveFitnessesHold(population, fs[0]);
      m
  }

  /**
   The breeding threshold is the lower median of the positive fitnesses: at
   most `(n-1)/2` of them lie below it and more than `(n-1)/2` at or below it.
   */
  lemma MinimumBreedFitnessIsLowerMedian(population: seq<Specimen>)
    requires MinimumBreedFitness(population).Success?
    ensures var fs := PositiveFitnesses(population);
      var v := MinimumBreedFitness(population).value;
      && fs != []
      && v == Sort(fs)[(|fs| - 1) / 2]
      && CountBelow(fs, v) <= (|fs| - 1) / 2 < CountAtMost(fs, v)
  {
    var fs := PositiveFitnesses(population);
    MinimumBreedFitnessIsElement(population);
    LowerMedianRank(fs, (|fs| - 1) / 2);
  }

  /** The threshold is element `(n-1)/2` of the sorted positive fitnesses. */
  lemma MinimumBreedFitnessIsElement(population: seq<Specimen>)
    requires MinimumBreedFitness(population).Success?
    ensures var fs := PositiveFitnesses(population);
      fs != [] && MinimumBreedFitness(population).value == Sort(fs)[(|fs| - 1) / 2]
  {
  }

  /**
   The lower median, element `(n-1)/2` of the sorted data, splits the data:
   at most `(n-1)/2` values lie strictly below it, and more than `(n-1)/2`
   lie at or below it.
   */
  lemma {:induction false} LowerMedianRank(xs: seq<nat>, m: nat)
    requires m < |xs|
    ensures CountBelow(xs, Sort(xs)[m]) <= m
    ensures CountAtMost(xs, Sort(xs)[m]) >= m + 1
  {
    var sorted := Sort(xs);
    SortPreservesCount(xs, sorted[m]);
    SortedRank(sorted, m);
  }

  /** Counting is blind to order, so sorting does not change it. */
  lemma {:induction false} SortPreservesCount(xs: seq<nat>, v: nat)
    ensures CountBelow(Sort(xs), v) == CountBelow(xs, v)
    ensures CountAtMost(Sort(xs), v) == CountAtMost(xs, v)
  {
    if xs != [] {
      SortPreservesCount(xs[1..], v);
      InsertCount(xs[0], Sort(xs[1..]), v);
    }
  }

  lemma {:induction false} InsertCount(x: nat, xs: seq<nat>, v: nat)
    requires SortedUp(xs)
    ensures CountBelow(Insert(x, xs), v) == CountBelow([x] + xs, v)
    ensures CountAtMost(Insert(x, xs), v) == CountAtMost([x] + xs, v)
  {
    InsertCountBelow(x, xs, v);
    InsertCountAtMost(x, xs, v);
  }

  /** Inserting keeps the number of values below `v`. */
  lemma {:induction false} InsertCountBelow(x: nat, xs: seq<nat>, v: nat)
    requires SortedUp(xs)
    ensures CountBelow(Insert(x, xs), v) == CountBelow([x] + xs, v)
  {
    if xs != [] && x > xs[0] {
      var rest := Insert(x, xs[1..]);
      assert Insert(x, xs) == [xs[0]] + rest;
      InsertCountBelow(x, xs[1..], v);
      CountCons(xs[0], rest, v);
      CountCons(x, xs[1..], v);
      CountCons(x, xs, v);
      assert xs == [xs[0]] + xs[1..];
      CountCons(xs[0], xs[1..], v);
    } else if xs == [] {
      assert [x] + xs == [x];
    }
  }

  /** Inserting keeps the number of values at most `v`. */
  lemma {:induction false} InsertCountAtMost(x: nat, xs: seq<nat>, v: nat)
    requires SortedUp(xs)
    ensures CountAtMost(Insert(x, xs), v) == CountAtMost([x] + xs, v)
  {
    if xs != [] && x > xs[0] {
      var rest := Insert(x, xs[1..]);
      assert Insert(x, xs) == [xs[0]] + rest;
      InsertCountAtMost(x, xs[1..], v);
      CountCons(xs[0], rest, v);
      CountCons(x, xs[1..], v);
      CountCons(x, xs, v);
      assert xs == [xs[0]] + xs[1..];
      CountCons(xs[0], xs[1..], v);
    } else if xs == [] {
      assert [x] + xs == [x];
    }
  }

  /** Counting a sequence with one more value in front. */
  lemma CountCons(y: nat, ys: seq<nat>, v: nat)
    ensures CountBelow([y] + ys, v) == (if y < v then 1 else 0) + CountBelow(ys, v)
    ensures CountAtMost([y] + ys, v) == (if y <= v then 1 else 0) + CountAtMost(ys, v)
  {
    assert ([y] + ys)[1..] == ys;
  }

  /** In a sorted sequence, element `m` has at most `m` values below it and `m+1` at or below it. */
  lemma {:induction false} SortedRank(s: seq<nat>, m: nat)
    requires SortedUp(s) && m < |s|
    ensures CountBelow(s, s[m]) <= m
    ensures CountAtMost(s, s[m]) >= m + 1
  {
    if m == 0 {
      NoneBelow(s, s[0]);
    } else {
      assert SortedUp(s[1..]);
      SortedRank(s[1..], m - 1);
      assert s[1..][m - 1] == s[m];
      assert s[0] <= s[m];
    }
  }

  /** Nothing in a sorted sequence lies below its first element. */
  lemma {:induction false} NoneBelow(s: seq<nat>, v: nat)
    requires forall i :: 0 <= i < |s| ==> v <= s[i]
    ensures CountBelow(s, v) == 0
  {
    if s != [] {
      NoneBelow(s[1..], v);
    }
  }

  /** The lower median of `[0, 0, 3, 5, 5, 7]`'s positive part `[3, 5, 5, 7]` is 5. */
  lemma MedianExample(population: seq<Specimen>)
    requires |population| == 6
    requires population[0].fitness == 0 && population[1].fitness == 0
    requires population[2].fitness == 3 && population[3].fitness == 5
    requires population[4].fitness == 5 && population[5].fitness == 7
    ensures MinimumBreedFitness(population) == Success(5)
  {
    assert PositiveFitnesses(population[6..]) == [];
    assert population[5..][1..] == population[6..];
    assert PositiveFitnesses(population[5..]) == [7];
    assert population[4..][1..] == population[5..];
    assert PositiveFitnesses(population[4..]) == [5, 7];
    assert population[3..][1..] == population[4..];
    assert PositiveFitnesses(population[3..]) == [5, 5, 7];
    assert population[2..][1..] == population[3..];
    assert PositiveFitnesses(population[2..]) == [3, 5, 5, 7];
    assert population[1..][1..] == population[2..];
    assert PositiveFitnesses(population[1..]) == [3, 5, 5, 7];
    assert PositiveFitnesses(population) == [3, 5, 5, 7];
    var fs: seq<nat> := [3, 5, 5, 7];
    assert fs[1..] == [5, 5, 7] && fs[1..][1..] == [5, 7] && fs[1..][1..][1..] == [7];
    assert Sort(fs) == [3, 5, 5, 7];
  }
}
