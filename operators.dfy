/**
 The genetic operators of genetic_text.py: point mutation and crossover
 (`mutation` and `breed`). Every random draw is a parameter: a character
 draw is the alphabet index `random.choice` picked, a position is what
 `random.randint` returned, a coin is `random.choice('ab') == 'a'`.
 */
module Operators {
  import opened Wrappers
  import opened Specimens

  /**
   What `mutation` returns: `s` with the character at `position` replaced by
   `Alphabet[pick]`, or the error randint raises when `s` is empty.
   */
  function Mutated(s: string, pick: nat, position: nat): (r: Result<string>)
    requires pick < |Alphabet|
    requires s != [] ==> position < |s|
    ensures r.Failure? <==> s == []
    ensures r.Failure? ==> r.error == EmptyRange
    ensures r.Success? ==> |r.value| == |s| && r.value[position] == Alphabet[pick]
    ensures r.Success? ==> forall i :: 0 <= i < |s| && i != position ==> r.value[i] == s[i]
  {
    if s == [] then Failure(EmptyRange) else Success(s[position := Alphabet[pick]])
  }

  /**
   `mutation`: copies the code into a mutable buffer and overwrites one
   cell. The new character may equal the old one.
   */
  method Mutation(specimen: string, pick: nat, position: nat) returns (r: Result<string>)
    requires pick < |Alphabet|
    requires specimen != [] ==> position < |specimen|
    ensures r == Mutated(specimen, pick, position)
  {
    if |specimen| == 0 {
      return Failure(EmptyRange);
    }
    var newValue := Alphabet[pick];
    var mutable := new char[|specimen|](i requires 0 <= i < |specimen| => specimen[i]);
    mutable[position] := newValue;
    assert mutable[..] == specimen[position := newValue];
    r := Success(mutable[..]);
  }

  /**
   The gene crossover keeps at position `i`: from `a` when only `a` has an
   index `i` or when both have one and the coin says 'a', otherwise from `b`.
   */
  function Gene(a: string, b: string, fromA: seq<bool>, i: nat): (c: char)
    requires i < |a| || i < |b|
    requires i < |fromA|
    ensures (i < |a| && c == a[i]) || (i < |b| && c == b[i])
  {
    if i < |a| && (i >= |b| || fromA[i]) then a[i] else b[i]
  }

  /** The child `breed` assembles before its optional mutation. */
  function Crossover(a: string, b: string, fromA: seq<bool>): (child: string)
    requires |fromA| >= |a| && |fromA| >= |b|
    ensures |child| == if |a| < |b| then |b| else |a|
    ensures forall i :: 0 <= i < |child| ==>
      (i < |a| && child[i] == a[i]) || (i < |b| && child[i] == b[i])
  {
    var n := if |a| < |b| then |b| else |a|;
    seq(n, i requires 0 <= i < n => Gene(a, b, fromA, i))
  }

  /**
   Where both parents have a position the coin picks the gene; past the
   shorter parent the longer one is copied.
   */
  lemma CrossoverGenes(a: string, b: string, fromA: seq<bool>)
    requires |fromA| >= |a| && |fromA| >= |b|
    ensures var child := Crossover(a, b, fromA);
      && (forall i :: 0 <= i < |a| && 0 <= i < |b| ==> child[i] == if fromA[i] then a[i] else b[i])
      && (forall i :: |b| <= i < |a| ==> child[i] == a[i])
      && (forall i :: |a| <= i < |b| ==> child[i] == b[i])
  {
  }

  /** One breeding event's random draws, beside the parents. */
  datatype BreedDraw = BreedDraw(fromA: seq<bool>, mutate: bool, pick: nat, position: nat)

  /** The draws are in range for parents of lengths at most `size`. */
  predicate DrawFits(d: BreedDraw, size: nat)
  {
    |d.fromA| >= size && d.pick < |Alphabet| && (size > 0 ==> d.position < size)
  }

  /** What `breed` returns: the crossover, mutated when the coin says so. */
  function Bred(a: string, b: string, d: BreedDraw): (r: Result<string>)
    requires DrawFits(d, if |a| < |b| then |b| else |a|)
    ensures r.Failure? <==> d.mutate && a == [] && b == []
    ensures r.Failure? ==> r.error == EmptyRange
    ensures r.Success? ==> |r.value| == if |a| < |b| then |b| else |a|
  {
    var child := Crossover(a, b, d.fromA);
    if d.mutate then Mutated(child, d.pick, d.position) else Success(child)
  }

  /** The position loop of `breed`, followed by its mutation coin. */
  method Breed(parentA: string, parentB: string, d: BreedDraw) returns (r: Result<string>)
    requires DrawFits(d, if |parentA| < |parentB| then |parentB| else |parentA|)
    ensures r == Bred(parentA, parentB, d)
    ensures r.Failure? <==> d.mutate && parentA == [] && parentB == []
  {
    var childSize := if |parentA| < |parentB| then |parentB| else |parentA|;
    var child := "";
    for i := 0 to childSize
      invariant child == Crossover(parentA, parentB, d.fromA)[..i]
    {
      ghost var gene := Crossover(parentA, parentB, d.fromA)[i];
      assert Crossover(parentA, parentB, d.fromA)[..i + 1] == child + [gene];
      var genePool, geneA, geneB := "", "", "";
      if i < |parentA| {
        genePool := genePool + "a";
        geneA := [parentA[i]];
      }
      if i < |parentB| {
        genePool := genePool + "b";
        geneB := [parentB[i]];
      }
      var geneSource;
      if |genePool| > 1 {
        geneSource := if d.fromA[i] then "a" else "b";
      } else {
        geneSource := genePool;
      }
      assert "b"[0] != "a"[0];
      assert geneSource == "a" ==> geneA == [gene];
      assert geneSource != "a" ==> geneB == [gene];
      if geneSource == "a" {
        child := child + geneA;
      } else {
        child := child + geneB;
      }
    }
    assert child == Crossover(parentA, parentB, d.fromA);
    if d.mutate {
      r := Mutation(child, d.pick, d.position);
    } else {
      r := Success(child);
    }
  }

  /** Without its mutation, breeding a code with itself gives the code back. */
  lemma BreedIdentical(a: string, d: BreedDraw)
    requires DrawFits(d, |a|) && !d.mutate
    ensures Bred(a, a, d) == Success(a)
  {
    var child := Crossover(a, a, d.fromA);
    CrossoverGenes(a, a, d.fromA);
    assert child == a;
  }

  /**
   A bred child has the longer parent's length, and differs from the
   crossover in at most the mutated position.
   */
  lemma BredDiffersInAtMostOne(a: string, b: string, d: BreedDraw)
    requires DrawFits(d, if |a| < |b| then |b| else |a|)
    requires a != [] || b != []
    ensures Bred(a, b, d).Success?
    ensures |Bred(a, b, d).value| == if |a| < |b| then |b| else |a|
    ensures forall i :: 0 <= i < |Bred(a, b, d).value| && (!d.mutate || i != d.position) ==>
      Bred(a, b, d).value[i] == Crossover(a, b, d.fromA)[i]
  {
  }
}
