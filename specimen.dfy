/**
 Specimens, how their codes are generated, and how their fitness is scored
 against the goal (genetic_text.py, generate_specimen and specimen_fitness).
 */
module Specimens {

  /** `string.ascii_lowercase + ' '`: the characters random codes are drawn from. */
  const Alphabet: string := "abcdefghijklmnopqrstuvwxyz "

  /** The `(code, fitness, generation)` tuple the program stores per specimen. */
  datatype Specimen = Specimen(code: string, fitness: nat, generation: nat)

  /**
   Generates a code of `length` characters. A non-empty `seed` is repeated
   and cut to `length`; an empty seed draws each character from the alphabet,
   `picks[i]` being the index that draw i chose. A negative length gives the
   empty code in both branches, as `range` and slicing do.
   */
  method GenerateSpecimen(length: int, seed: string, picks: seq<nat>) returns (specimen: string)
    requires seed == "" ==> |picks| >= length && forall k :: 0 <= k < |picks| ==> picks[k] < |Alphabet|
    ensures |specimen| == if length < 0 then 0 else length
    ensures seed == "" ==> forall i :: 0 <= i < |specimen| ==> i < |picks| && specimen[i] == Alphabet[picks[i]]
    ensures seed != "" ==> forall i :: 0 <= i < |specimen| ==> specimen[i] == seed[i % |seed|]
  {
    specimen := "";
    if seed == "" {
      var n := if length < 0 then 0 else length;
      return seq(n, i requires 0 <= i < n => Alphabet[picks[i]]);
    } else {
      while |specimen| < length
        invariant |specimen| % |seed| == 0
        invariant |specimen| < (if length < 0 then 0 else length) + |seed|
        invariant forall i :: 0 <= i < |specimen| ==> specimen[i] == seed[i % |seed|]
        decreases length - |specimen|
      {
        ghost var done := |specimen|;
        specimen := specimen + seed;
        ModUnique(|specimen|, |seed|, done / |seed| + 1, 0);
        forall i | done <= i < |specimen|
          ensures specimen[i] == seed[i % |seed|]
        {
          ShiftedMod(done, i - done, |seed|);
        }
      }
      return specimen[..if length < 0 then 0 else length];
    }
  }

  /** The two examples of generate_specimen's documentation. */
  method SeededExamples() returns (a: string, abc: string)
    ensures a == "aaaaa" && abc == "abcabcabca"
  {
    a := GenerateSpecimen(5, "a", []);
    assert a == "aaaaa" by {
      forall i | 0 <= i < 5 ensures a[i] == "aaaaa"[i] {
        assert i % 1 == 0;
      }
    }
    abc := GenerateSpecimen(10, "abc", []);
    assert abc == "abcabcabca" by {
      assert abc[0] == "abc"[0 % 3] && abc[1] == "abc"[1 % 3] && abc[2] == "abc"[2 % 3];
      assert abc[3] == "abc"[3 % 3] && abc[4] == "abc"[4 % 3] && abc[5] == "abc"[5 % 3];
      assert abc[6] == "abc"[6 % 3] && abc[7] == "abc"[7 % 3] && abc[8] == "abc"[8 % 3];
      assert abc[9] == "abc"[9 % 3];
    }
  }

  /** A whole number of periods followed by an offset inside one period. */
  lemma ShiftedMod(m: nat, j: nat, n: nat)
    requires n > 0 && m % n == 0 && j < n
    ensures (m + j) % n == j
  {
    ModUnique(m + j, n, m / n, j);
  }

  /** Euclidean division leaves one remainder only. */
  lemma ModUnique(a: int, n: int, q: int, r: int)
    requires n > 0 && 0 <= r < n && a == n * q + r
    ensures a % n == r
  {
    var d := q - a / n;
    assert n * d == a % n - r;
    if d > 0 {
      MulAtLeast(n, d);
    } else if d < 0 {
      MulAtLeast(n, -d);
    }
  }

  lemma MulAtLeast(n: int, d: int)
    requires n > 0 && d >= 1
    ensures n * d >= n
  {
  }

  /**
   Number of positions `i < |s|` at which `s` and `g` agree: what
   specimen_fitness counts. `g` may be longer than `s`, never shorter.
   */
  function MatchCount(s: string, g: string): (n: nat)
    requires |s| <= |g|
    ensures n <= |s|
  {
    if s == [] then 0
    else MatchCount(s[..|s| - 1], g) + (if s[|s| - 1] == g[|s| - 1] then 1 else 0)
  }

  /** The set of positions at which `s` and `g` agree. */
  function MatchIndices(s: string, g: string): set<nat>
    requires |s| <= |g|
  {
    set i: nat | i < |s| && s[i] == g[i]
  }

  /** The accumulator loop of specimen_fitness. */
  method SpecimenFitness(specimen: string, goal: string) returns (result: nat)
    requires |specimen| <= |goal|
    ensures result == MatchCount(specimen, goal)
    ensures result == |MatchIndices(specimen, goal)|
    ensures result <= |specimen|
  {
    result := 0;
    for i := 0 to |specimen|
      invariant result == MatchCount(specimen[..i], goal)
    {
      if specimen[i] == goal[i] {
        result := result + 1;
      }
      assert specimen[..i + 1][..i] == specimen[..i];
    }
    assert specimen[..|specimen|] == specimen;
    MatchCountIsMatchIndices(specimen, goal);
  }

  /** The recursive count and the set of matching positions have the same size. */
  lemma {:induction false} MatchCountIsMatchIndices(s: string, g: string)
    requires |s| <= |g|
    ensures MatchCount(s, g) == |MatchIndices(s, g)|
  {
    if s != [] {
      var p := s[..|s| - 1];
      MatchCountIsMatchIndices(p, g);
      var last: nat := |s| - 1;
      if s[last] == g[last] {
        assert MatchIndices(s, g) == MatchIndices(p, g) + {last};
      } else {
        assert MatchIndices(s, g) == MatchIndices(p, g);
      }
    }
  }

  /** Self-match is perfect: a code scores its own length against itself. */
  lemma {:induction false} SelfFitness(s: string)
    ensures MatchCount(s, s) == |s|
  {
    if s != [] {
      var p := s[..|s| - 1];
      SelfFitness(p);
      assert MatchCount(p, s) == MatchCount(p, p) by { PrefixGoal(p, s, p); }
    }
  }

  /** Only the first |s| characters of the goal matter. */
  lemma {:induction false} PrefixGoal(s: string, g: string, h: string)
    requires |s| <= |g| && |s| <= |h| && g[..|s|] == h[..|s|]
    ensures MatchCount(s, g) == MatchCount(s, h)
  {
    if s != [] {
      var p := s[..|s| - 1];
      assert g[..|p|] == g[..|s|][..|p|] && h[..|p|] == h[..|s|][..|p|];
      PrefixGoal(p, g, h);
      assert g[|s| - 1] == g[..|s|][|s| - 1] && h[|s| - 1] == h[..|s|][|s| - 1];
    }
  }

  /**
   A code scores its full length exactly when it equals the goal's prefix of
   that length: the loop's stopping test `highest_fitness < len(goal)`.
   */
  lemma {:induction false} PerfectFitness(s: string, g: string)
    requires |s| <= |g|
    ensures MatchCount(s, g) == |s| <==> s == g[..|s|]
  {
    if s != [] {
      var p := s[..|s| - 1];
      PerfectFitness(p, g);
      if s == g[..|s|] {
        assert p == g[..|p|];
      }
      if MatchCount(s, g) == |s| {
        assert MatchCount(p, g) == |p|;
        assert s == p + [s[|s| - 1]];
        assert g[..|s|] == g[..|p|] + [g[|s| - 1]];
      }
    }
  }
}
