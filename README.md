# genetic-text, modelled in Dafny

`genetic_text.py` evolves random strings ("specimens") toward a fixed goal
string. Each specimen is stored as a tuple `(code, fitness, generation)`.
Fitness is the number of positions at which the code agrees with the goal.
Each generation computes a breeding threshold, the lower median of the
positive fitnesses. It scans the population in order and pairs the eligible
specimens two by two. Each pair breeds one child by per-position crossover,
with an optional point mutation. The children are tagged with the next
generation and appended. The counter is then incremented, and every specimen
not born in the last three generations is evicted.

This project models that core:

- `wrappers.dfy` (`Wrappers`): `Option`, for the empty tuple `()` that
  `find_fittest` returns, and `Result` with the two exceptions the core can
  raise.
- `specimen.dfy` (`Specimens`): the alphabet, the specimen tuple, code
  generation, and the fitness count with its properties.
- `operators.dfy` (`Operators`): mutation and crossover/breeding.
- `selection.dfy` (`Selection`): `find_fittest`, and `minimum_breed_fitness`
  as the lower median.
- `evolution.dfy` (`Evolution`): the eligibility filter, the pairing pass, the
  eviction filter, the next population, and a class `Population` that holds
  the program's module-level `population` and `gen` and takes one step.

Every random draw is a parameter, and its range is a precondition.
`random.choice(seq)` is modelled as the index it picked (`seq[k]`). A
character draw is therefore an index below 27 into `"a".."z"` plus space. A
crossover coin is a `bool` (true means `'a'`). The mutation coin
`randint(0, 1) == 1` is `mutate`, and `randint(0, len - 1)` is `position`.

Edge cases, decided as the code decides them:

- Fitness only needs the goal to be at least as long as the specimen, not
  equally long.
- Eviction keeps `generation > gen - 3`, counted after the increment.
- When no specimen has positive fitness, `minimum_breed_fitness` on its own
  fails: `statistics.median_low` raises on empty data. `Population.Step`
  models that as `ok == false` with the state unchanged. In the program as
  written this branch is never reached. Every population that reaches line
  168 was first passed to `print_population_info` (line 161, then line 186).
  With every fitness zero, `find_fittest` returns `()` and `fittest[0]` on
  line 144 raises `IndexError` there first. The display code is not part of
  this model, so `Step` keeps the threshold's own failure.
- `mutation` of an empty string raises in `randint(0, -1)`. This is the
  `EmptyRange` failure, and `breed` propagates it.
- A negative length given to `generate_specimen` yields the empty string, as
  `range` and slicing do.

The comment on line 165 says parents need a fitness above the generation
number. The code compares against the breeding threshold instead (lines 168
and 173), and the model follows the code. The guard `len(parents) < 2` on
line 173 is always true when it is evaluated. The model keeps it, and the
predicate `Buffered`, which the pairing loop maintains, shows why: the buffer
holds at most the one eligible specimen left over after the pairs bred so far.

## Model

| member | source | states |
|---|---|---|
| `Specimens.GenerateSpecimen` | genetic_text.py:27-45 | The result has exactly `length` characters (none when `length` is negative). With a seed, character `i` is `seed[i mod len(seed)]`. Without one, character `i` is the alphabet character drawn for position `i`. |
| `Specimens.SeededExamples` | genetic_text.py:31-33 | Seed `'a'` with length 5 gives `'aaaaa'`. Seed `'abc'` with length 10 gives `'abcabcabca'`. |
| `Specimens.MatchCount` | genetic_text.py:48-53 | The number of matching positions never exceeds the specimen's length. |
| `Specimens.SpecimenFitness` | genetic_text.py:48-53 | The accumulator loop returns the size of the set of positions `i < len(s)` with `s[i] == g[i]`. The result lies in `[0, len(s)]`. |
| `Specimens.MatchCountIsMatchIndices` | genetic_text.py:50-52 | The recursive count equals the number of agreeing positions. |
| `Specimens.SelfFitness` | genetic_text.py:48-53 | A code scored against itself gets its full length. |
| `Specimens.PrefixGoal` | genetic_text.py:50-51 | Fitness depends only on the first `len(s)` characters of the goal. |
| `Specimens.PerfectFitness` | genetic_text.py:164 | The fitness is `len(s)` if and only if `s` equals the goal's prefix of that length. This is the stopping condition of the main loop. |
| `Operators.Mutated` | genetic_text.py:56-62 | Mutating an empty string fails with `EmptyRange`. Otherwise the length is kept, the chosen position holds the drawn character, and every other position is unchanged. |
| `Operators.Mutation` | genetic_text.py:56-62 | The copy-and-overwrite on a mutable buffer yields exactly `Mutated`. |
| `Operators.Gene` | genetic_text.py:69-87 | The gene at position `i` comes from a parent that has an index `i`. |
| `Operators.Crossover` | genetic_text.py:66-87 | The child has the longer parent's length. Each position holds the character of a parent that has that index. |
| `Operators.CrossoverGenes` | genetic_text.py:72-87 | Where both parents have a position, the coin picks the gene (`'a'` is the first parent). Past the shorter parent, the longer one is copied. |
| `Operators.Bred` | genetic_text.py:65-93 | What `breed` returns fails, with `EmptyRange`, exactly when it mutates and both parents are empty. Otherwise the child has the longer parent's length. |
| `Operators.Breed` | genetic_text.py:65-93 | The position loop builds exactly `Crossover`, then mutates it when the coin says so. Breeding fails only if it mutates and both parents are empty. |
| `Operators.BreedIdentical` | genetic_text.py:65-93 | Breeding a code with itself, without mutation, returns that code. |
| `Operators.BredDiffersInAtMostOne` | genetic_text.py:89-93 | With a non-empty parent, breeding succeeds. The child has the longer parent's length and differs from the crossover at most at the mutated position. |
| `Selection.FindFittest` | genetic_text.py:101-108 | Returns nothing if and only if every fitness is 0. Otherwise it returns a specimen that has positive, maximum fitness and is strictly fitter than every earlier one, i.e. the first maximum. |
| `Selection.PositiveFitnesses` | genetic_text.py:113 | The comprehension keeps only positive fitnesses and never grows the list. |
| `Selection.PositiveFitnessesHold` | genetic_text.py:113 | A value is among the positive fitnesses if and only if it is positive and some specimen has it. |
| `Selection.PositiveFitnessesCount` | genetic_text.py:113 | Each positive value occurs among the positive fitnesses exactly as many times as specimens have it, and zero never occurs. Duplicates are kept, so the median is taken over one fitness per specimen. |
| `Selection.Sort` | genetic_text.py:114 | The sorted data is ascending and is a permutation of the data. |
| `Selection.MedianLow` | genetic_text.py:114 | Fails with `NoMedian` exactly on empty data. Otherwise it returns one of the data values. |
| `Selection.LowerMedianRank` | genetic_text.py:114 | Element `m` of the sorted data has at most `m` values strictly below it and more than `m` values at or below it. |
| `Selection.MinimumBreedFitness` | genetic_text.py:111-114 | Fails if and only if no specimen has positive fitness. Otherwise the result is positive and is some specimen's fitness. |
| `Selection.MinimumBreedFitnessIsLowerMedian` | genetic_text.py:111-114 | The threshold is the lower median of the `n` positive fitnesses: at most `(n-1)/2` of them lie below it, and more than `(n-1)/2` lie at or below it. |
| `Selection.MedianExample` | genetic_text.py:111-114 | Fitnesses `[0,0,3,5,5,7]` give threshold 5. |
| `Evolution.Eligible` | genetic_text.py:171-174 | The eligible specimens are at most as many as the population. |
| `Evolution.EligibleMembers` | genetic_text.py:173 | A specimen is eligible if and only if it is in the population and reaches the threshold. |
| `Evolution.EligibleConsistent` | genetic_text.py:173 | With a positive threshold, only codes of the goal's (non-zero) length are eligible. |
| `Evolution.Child` | genetic_text.py:176-178 | A stored child's fitness is the fitness of its code against the goal, and it carries the given generation. |
| `Evolution.Offspring` | genetic_text.py:171-180 | `k` eligible specimens give `floor(k/2)` children. Each child's fitness is consistent and its generation is the tag. |
| `Evolution.OffspringPairs` | genetic_text.py:171-180 | Breeding eligible specimens `2j` and `2j+1` cannot fail; child `j` has the goal's length, and at every position except the one a mutation may overwrite it keeps the crossover's gene, which is the gene of one of its two parents. |
| `Evolution.OffspringStep` | genetic_text.py:173-180 | An eligible specimen that completes a pair adds exactly the child of that pair after the earlier children. One that opens a pair adds nothing. |
| `Evolution.BreedPair` | genetic_text.py:176-178 | Breeding a full buffer and scoring the child stores exactly `Child` of the two parents. |
| `Evolution.ScanSpecimen` | genetic_text.py:172-180 | One iteration keeps `Buffered`: after the specimen, every pair of eligible specimens has been bred in order, and the buffer holds the one left over. |
| `Evolution.PairingPass` | genetic_text.py:166-180 | The in-order scan with a two-slot parent buffer produces exactly `Offspring` of the eligible specimens. A trailing single parent is dropped. |
| `Evolution.Alive` | genetic_text.py:183 | The eviction test `s[2] > gen - 3`: a specimen born no later than `gen` passes exactly when it was born in generation `gen`, `gen - 1` or `gen - 2`. |
| `Evolution.Survivors` | genetic_text.py:183 | The filter never adds a specimen. |
| `Evolution.SurvivorsMembers` | genetic_text.py:183 | A specimen survives if and only if it was in the population and `generation > gen - 3`. |
| `Evolution.SurvivorsAppend` | genetic_text.py:183 | Eviction keeps relative order: filtering a concatenation filters each part in place. |
| `Evolution.SurvivorsAllAlive` | genetic_text.py:183 | Eviction removes nothing when every specimen is inside the window. |
| `Evolution.SurvivorsKeepInvariant` | genetic_text.py:181-183 | Appending children of generation `gen + 1` to a population born no later than `gen`, then evicting, leaves only consistent specimens of the last three generations. |
| `Evolution.NextPopulation` | genetic_text.py:181-183 | After `gen += 1`, every remaining specimen has consistent fitness, was born after `gen - 3`, and was born no later than `gen`. The population grows by at most half its old size. |
| `Evolution.NextPopulationOrder` | genetic_text.py:171-183 | The new population is the old population's survivors, in order, followed by every child. Its size is the surviving count plus `floor(k/2)`. |
| `Evolution.Population.constructor` | genetic_text.py:151-158 | Builds 32 random specimens at generation 0 with consistent fitness, so the population invariant holds at the start. |
| `Evolution.Population.Step` | genetic_text.py:166-183 | Keeps the invariant (consistent fitness, and every specimen in the last three generations). Fails, leaving the state unchanged, if and only if no fitness is positive. Otherwise it increments `gen` and the population becomes `NextPopulation`. |
| `Evolution.Population.Advance` | genetic_text.py:171-183 | With a positive threshold, keeps the invariant, increments `gen`, and makes the population `NextPopulation`. |

## Left out

- `colour_match`, `print_match` and `print_population_info` (lines 117-147) only build ANSI strings and print. `print_population_info` would fail on the empty tuple from `find_fittest`, but that is display code.
- The `input("Continue? [Y/n]")` prompt and the unbounded main `while` loop (lines 163-188) are interactive I/O with no termination bound. One generation (`Population.Step`) is modelled instead.
- The random number generator is not modelled. Its draws are parameters, as described above.
- `remove_older_generation` (lines 96-98) is never called, and it only rebinds a local name. The eviction that matters is the comprehension on line 183.
- `statistics.median_low` is modelled by its definition: sorted data (an insertion sort stands in for `sorted`) indexed at `(n-1)/2`.
- `SpecimenFitness` and `MatchCount` require the goal to be at least as long as the specimen. A shorter goal makes `goal[i]` raise `IndexError`, and that crash is not modelled. The program only scores codes of the goal's length.
- The order in which one breeding draws its random values (coins, then the mutation coin, then the character, then the position) is not modelled. Each breeding's draws are one parameter record.
