/** `check_mendelian_inheritance`: can the offspring's genotype at one marker
    be formed by taking one allele from each parent? */
module Mendelian {
  import opened Optional
  import opened Ordering
  import opened Genotypes

  /** The second half of the verdict. The source renders it as a message; the
      model keeps what the message is made of: the set of genotypes the
      parents can pass on and the offspring's genotype in sorted order. */
  datatype Detail = MissingGenotypeData | Compared(expected: set<Genotype>, actual: Genotype)

  /** Python truthiness of a parsed genotype: a missing value and an empty
      list are both false. */
  predicate Present(g: Option<Genotype>)
  {
    g.Some? && g.value != []
  }

  /** The candidates that pair allele `a` of the first parent with each allele
      of the second parent in turn: one pass of the inner loop. */
  function Row(a: Allele, p2: Genotype): seq<Genotype>
    decreases |p2|
  {
    if p2 == [] then [] else Row(a, p2[..|p2| - 1]) + [Sort([a, p2[|p2| - 1]])]
  }

  /** The list `possible_offspring` after the outer loop has run over `p1`. */
  function Candidates(p1: Genotype, p2: Genotype): seq<Genotype>
    decreases |p1|
  {
    if p1 == [] then [] else Candidates(p1[..|p1| - 1], p2) + Row(p1[|p1| - 1], p2)
  }

  /** The set of genotypes the two parents can pass on, defined directly. */
  function ExpectedSet(p1: Genotype, p2: Genotype): set<Genotype>
  {
    set a, b | a in p1 && b in p2 :: Sort([a, b])
  }

  /** `g` is one allele of the first parent next to one of the second, sorted. */
  predicate Formable(p1: Genotype, p2: Genotype, g: Genotype)
  {
    exists a, b :: a in p1 && b in p2 && g == Sort([a, b])
  }

  /** What `check_mendelian_inheritance` returns: false with the missing-data
      detail unless all three genotypes are present, and otherwise whether the
      sorted offspring genotype is formable from the parents. */
  function Verdict(p1: Option<Genotype>, p2: Option<Genotype>, off: Option<Genotype>): (bool, Detail)
  {
    if Present(p1) && Present(p2) && Present(off) then
      (Formable(p1.value, p2.value, Sort(off.value)),
       Compared(ExpectedSet(p1.value, p2.value), Sort(off.value)))
    else (false, MissingGenotypeData)
  }

  // ---------------------------------------------------------------------
  // The candidate list.

  lemma {:induction false} RowAt(a: Allele, p2: Genotype, j: nat)
    requires j < |p2|
    ensures |Row(a, p2)| == |p2| && Row(a, p2)[j] == Sort([a, p2[j]])
    decreases |p2|
  {
    var n := |p2|;
    RowLength(a, p2[..n - 1]);
    if j < n - 1 {
      RowAt(a, p2[..n - 1], j);
    }
  }

  lemma {:induction false} RowLength(a: Allele, p2: Genotype)
    ensures |Row(a, p2)| == |p2|
    decreases |p2|
  {
    if p2 != [] { RowLength(a, p2[..|p2| - 1]); }
  }

  /** The candidate list has one entry per pair of parental alleles. */
  lemma {:induction false} CandidatesLength(p1: Genotype, p2: Genotype)
    ensures |Candidates(p1, p2)| == |p1| * |p2|
    decreases |p1|
  {
    if p1 != [] {
      var n := |p1|;
      CandidatesLength(p1[..n - 1], p2);
      RowLength(p1[n - 1], p2);
      assert (n - 1) * |p2| + |p2| == n * |p2|;
    }
  }

  lemma Stride(i: nat, j: nat, m: nat, n: nat)
    requires i < n && j < m
    ensures i * m + j < n * m
  {
    assert (i + 1) * m <= n * m;
  }

  /** Entry `i * |p2| + j` pairs allele `i` of the first parent with allele `j`
      of the second: the order of the two nested loops. */
  lemma {:induction false} CandidateAt(p1: Genotype, p2: Genotype, i: nat, j: nat)
    requires i < |p1| && j < |p2|
    ensures i * |p2| + j < |Candidates(p1, p2)|
    ensures Candidates(p1, p2)[i * |p2| + j] == Sort([p1[i], p2[j]])
    decreases |p1|
  {
    var n, m := |p1|, |p2|;
    var init := p1[..n - 1];
    var k := i * m + j;
    CandidatesLength(init, p2);
    CandidatesLength(p1, p2);
    Stride(i, j, m, n);
    if i < n - 1 {
      Stride(i, j, m, n - 1);
      CandidateAt(init, p2, i, j);
      assert init[i] == p1[i];
      assert Candidates(p1, p2)[k] == Candidates(init, p2)[k];
    } else {
      RowAt(p1[n - 1], p2, j);
      assert k == (n - 1) * m + j;
      assert Candidates(p1, p2)[k] == Row(p1[n - 1], p2)[j];
    }
  }

  lemma {:induction false} RowMembership(a: Allele, p2: Genotype, g: Genotype)
    ensures g in Row(a, p2) <==> exists b :: b in p2 && g == Sort([a, b])
    decreases |p2|
  {
    if p2 != [] {
      var n := |p2|;
      var init := p2[..n - 1];
      RowMembership(a, init, g);
      assert p2 == init + [p2[n - 1]];
      if exists b :: b in p2 && g == Sort([a, b]) {
        var b :| b in p2 && g == Sort([a, b]);
        if b != p2[n - 1] { assert b in init; }
      }
    }
  }

  /** A genotype is on the candidate list exactly when it is formable from
      the parents. */
  lemma {:induction false} CandidatesMembership(p1: Genotype, p2: Genotype, g: Genotype)
    ensures g in Candidates(p1, p2) <==> Formable(p1, p2, g)
    decreases |p1|
  {
    if p1 != [] {
      var n := |p1|;
      var init := p1[..n - 1];
      CandidatesMembership(init, p2, g);
      RowMembership(p1[n - 1], p2, g);
      assert p1 == init + [p1[n - 1]];
      if Formable(p1, p2, g) {
        var a, b :| a in p1 && b in p2 && g == Sort([a, b]);
        if a != p1[n - 1] { assert a in init; }
      }
      if Formable(init, p2, g) {
        var a, b :| a in init && b in p2 && g == Sort([a, b]);
        assert a in p1;
      }
    }
  }

  lemma ExpectedSetMembers(p1: Genotype, p2: Genotype, g: Genotype)
    ensures g in ExpectedSet(p1, p2) <==> Formable(p1, p2, g)
  {
    if Formable(p1, p2, g) {
      var a, b :| a in p1 && b in p2 && g == Sort([a, b]);
      assert Sort([a, b]) in ExpectedSet(p1, p2);
    }
  }

  /** `set(tuple(x) for x in possible_offspring)` is the expected set. */
  lemma CandidatesSet(p1: Genotype, p2: Genotype)
    ensures (set g | g in Candidates(p1, p2)) == ExpectedSet(p1, p2)
  {
    forall g ensures g in Candidates(p1, p2) <==> g in ExpectedSet(p1, p2) {
      CandidatesMembership(p1, p2, g);
      ExpectedSetMembers(p1, p2, g);
    }
  }

  /** One more step of the inner loop appends one candidate. */
  lemma RowStep(a: Allele, p2: Genotype, j: nat)
    requires j < |p2|
    ensures Row(a, p2[..j + 1]) == Row(a, p2[..j]) + [Sort([a, p2[j]])]
  {
    assert p2[..j + 1][..j] == p2[..j];
  }

  /** One more step of the outer loop appends a whole row. */
  lemma CandidatesStep(p1: Genotype, p2: Genotype, i: nat)
    requires i < |p1|
    ensures Candidates(p1[..i + 1], p2) == Candidates(p1[..i], p2) + Row(p1[i], p2)
  {
    var q := p1[..i + 1];
    assert q[..|q| - 1] == p1[..i];
    assert q[|q| - 1] == p1[i];
  }

  // ---------------------------------------------------------------------
  // The check itself.

  /** `check_mendelian_inheritance(parent1, parent2, offspring)`: builds the
      candidate list with two nested loops and looks the sorted offspring
      genotype up in it. */
  method CheckMendelianInheritance(p1: Option<Genotype>, p2: Option<Genotype>, off: Option<Genotype>)
    returns (consistent: bool, detail: Detail)
    ensures (consistent, detail) == Verdict(p1, p2, off)
  {
    if !(Present(p1) && Present(p2) && Present(off)) {
      return false, MissingGenotypeData;
    }
    var g1, g2 := p1.value, p2.value;
    var possible: seq<Genotype> := [];
    for i := 0 to |g1|
      invariant possible == Candidates(g1[..i], g2)
    {
      for j := 0 to |g2|
        invariant possible == Candidates(g1[..i], g2) + Row(g1[i], g2[..j])
      {
        RowStep(g1[i], g2, j);
        possible := possible + [Sort([g1[i], g2[j]])];
      }
      assert g2[..|g2|] == g2;
      CandidatesStep(g1, g2, i);
    }
    assert g1[..|g1|] == g1;
    var offspringSorted := Sort(off.value);
    consistent := offspringSorted in possible;
    var expected := set g | g in possible;
    detail := Compared(expected, offspringSorted);
    CandidatesMembership(g1, g2, offspringSorted);
    CandidatesSet(g1, g2);
  }

  // ---------------------------------------------------------------------
  // What the verdict means.

  /** Consistency in Mendelian terms: all three genotypes are present and the
      offspring holds exactly one allele of each parent, in either order. */
  lemma VerdictMeansOneFromEach(p1: Option<Genotype>, p2: Option<Genotype>, off: Option<Genotype>)
    ensures Verdict(p1, p2, off).0 <==>
      Present(p1) && Present(p2) && Present(off) &&
      exists a, b :: a in p1.value && b in p2.value && multiset(off.value) == multiset{a, b}
  {
    if Present(p1) && Present(p2) && Present(off) {
      var o := off.value;
      SortSpec(o);
      if Verdict(p1, p2, off).0 {
        var a, b :| a in p1.value && b in p2.value && Sort(o) == Sort([a, b]);
        SortSpec([a, b]);
        assert multiset([a, b]) == multiset{a, b};
      }
      if exists a, b :: a in p1.value && b in p2.value && multiset(o) == multiset{a, b} {
        var a, b :| a in p1.value && b in p2.value && multiset(o) == multiset{a, b};
        assert multiset([a, b]) == multiset{a, b};
        SortPermutationInvariant(o, [a, b]);
      }
    }
  }

  /** A consistent offspring genotype has exactly two alleles: a parsed
      "A/B/C" is never consistent. */
  lemma ConsistentHasTwoAlleles(p1: Option<Genotype>, p2: Option<Genotype>, off: Option<Genotype>)
    requires Verdict(p1, p2, off).0
    ensures |off.value| == 2
  {
    VerdictMeansOneFromEach(p1, p2, off);
    var a, b :| a in p1.value && b in p2.value && multiset(off.value) == multiset{a, b};
    assert |multiset(off.value)| == 2;
  }

  /** Swapping the two parents changes neither the verdict nor the detail. */
  lemma VerdictSymmetric(p1: Option<Genotype>, p2: Option<Genotype>, off: Option<Genotype>)
    ensures Verdict(p1, p2, off) == Verdict(p2, p1, off)
  {
    if Present(p1) && Present(p2) && Present(off) {
      var g1, g2 := p1.value, p2.value;
      forall g ensures Formable(g1, g2, g) <==> Formable(g2, g1, g) {
        if Formable(g1, g2, g) {
          var a, b :| a in g1 && b in g2 && g == Sort([a, b]);
          SortPair(a, b);
          assert g == Sort([b, a]);
        }
        if Formable(g2, g1, g) {
          var b, a :| b in g2 && a in g1 && g == Sort([b, a]);
          SortPair(b, a);
          assert g == Sort([a, b]);
        }
      }
      forall g ensures g in ExpectedSet(g1, g2) <==> g in ExpectedSet(g2, g1) {
        ExpectedSetMembers(g1, g2, g);
        ExpectedSetMembers(g2, g1, g);
      }
      assert ExpectedSet(g1, g2) == ExpectedSet(g2, g1);
      var o := Sort(off.value);
      assert Formable(g1, g2, o) == Formable(g2, g1, o);
    }
  }

  /** The order of the offspring's alleles does not matter. */
  lemma VerdictOffspringOrder(p1: Option<Genotype>, p2: Option<Genotype>, o: Genotype, o': Genotype)
    requires multiset(o) == multiset(o')
    ensures Verdict(p1, p2, Some(o)) == Verdict(p1, p2, Some(o'))
  {
    assert |o| == |multiset(o)| == |o'|;
    SortPermutationInvariant(o, o');
  }

  /** A missing or empty genotype in any of the three positions gives the
      missing-data verdict, whatever the other two are. */
  lemma VerdictMissing(p: Option<Genotype>, q: Option<Genotype>)
    ensures Verdict(p, q, None) == (false, MissingGenotypeData)
    ensures Verdict(None, p, q) == (false, MissingGenotypeData)
    ensures Verdict(p, None, q) == (false, MissingGenotypeData)
    ensures Verdict(p, q, Some([])) == (false, MissingGenotypeData)
    ensures Verdict(Some([]), p, q) == (false, MissingGenotypeData)
    ensures Verdict(p, Some([]), q) == (false, MissingGenotypeData)
  {
  }

  // ---------------------------------------------------------------------
  // Worked cases.

  /** A/A × B/B can only give A/B: C/C, A/A and B/B are all excluded. */
  lemma HomozygousParents(off: Genotype)
    ensures Verdict(Some(["A", "A"]), Some(["B", "B"]), Some(off)).0 <==> multiset(off) == multiset{"A", "B"}
  {
    VerdictMeansOneFromEach(Some(["A", "A"]), Some(["B", "B"]), Some(off));
    if multiset(off) == multiset{"A", "B"} {
      assert "A" in ["A", "A"] && "B" in ["B", "B"];
    }
  }

  /** A/A × B/B against an offspring C/C: inconsistent. */
  lemma HomozygousParentsExcludeStranger()
    ensures !Verdict(Some(["A", "A"]), Some(["B", "B"]), Some(["C", "C"])).0
  {
    HomozygousParents(["C", "C"]);
    assert "C" in multiset(["C", "C"]);
  }

  /** A/B × A/C against an offspring C/B: consistent, B from the first parent
      and C from the second. */
  lemma SharedAlleleParents()
    ensures Verdict(Some(["A", "B"]), Some(["A", "C"]), Some(["C", "B"])).0
  {
    VerdictMeansOneFromEach(Some(["A", "B"]), Some(["A", "C"]), Some(["C", "B"]));
    assert "B" in ["A", "B"] && "C" in ["A", "C"];
    assert multiset(["C", "B"]) == multiset{"B", "C"};
  }
}
