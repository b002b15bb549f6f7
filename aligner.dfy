/** Cross-cohort aligner: the loop of `run` that folds the cohort records into
    one gene set, one patient set and one gene -> case-set map, followed by the
    minimum-frequency filter and the numbering of the surviving genes in sorted
    order (find_exclusive_sets.py, lines 90-115). */
module Aligner {
  import opened Common
  import Lex

  /** What the mutation-data loader yields for one cohort: its gene list, its
      patient list and, per gene, the set of patients with a mutation in it. */
  datatype Cohort = Cohort(genes: seq<string>, patients: seq<string>, geneToCases: map<string, set<string>>)

  /** The state of `run` while the cohorts are folded in. */
  datatype Accumulator = Accumulator(
    genes: set<string>,
    patients: set<string>,
    geneToCases: map<string, set<string>>,
    typeToGenes: seq<seq<string>>,
    typeToGeneIndex: seq<map<string, nat>>)

  /** The aligned data that the rest of `run` shares read-only. */
  datatype Alignment = Alignment(
    genes: set<string>,
    patients: set<string>,
    geneToCases: map<string, set<string>>,
    typeToGenes: seq<seq<string>>,
    typeToGeneIndex: seq<map<string, nat>>,
    geneToIndex: map<string, nat>,
    numAllGenes: nat,
    numPatients: nat,
    numGenes: nat)

  /** `dict(zip(genes, range(len(genes))))`: each gene to its position in the
      cohort's list; a gene listed twice keeps its last position. */
  function LocalIndex(genes: seq<string>): (index: map<string, nat>)
    ensures index.Keys == Elems(genes)
    ensures forall g :: g in index ==> index[g] < |genes| && genes[index[g]] == g
    ensures forall j :: 0 <= j < |genes| ==> j <= index[genes[j]]
    decreases |genes|
  {
    if genes == [] then map[]
    else
      var init := genes[..|genes| - 1];
      var index := LocalIndex(init)[genes[|genes| - 1] := |genes| - 1];
      assert forall g :: g in init ==> g in LocalIndex(init);
      index
  }

  /** For a duplicate-free gene list the local map is exactly j-th gene -> j. */
  lemma LocalIndexOfDistinct(genes: seq<string>, j: int)
    requires Distinct(genes) && 0 <= j < |genes|
    ensures LocalIndex(genes)[genes[j]] == j
  {
    var index := LocalIndex(genes);
    assert genes[index[genes[j]]] == genes[j];
  }

  function CasesOf(m: map<string, set<string>>, g: string): set<string>
  {
    if g in m then m[g] else {}
  }

  /** `for g, cases in m.iteritems(): acc[g] |= cases` on a defaultdict(set). */
  function MergeInto(acc: map<string, set<string>>, m: map<string, set<string>>): map<string, set<string>>
  {
    map g | g in acc.Keys + m.Keys :: CasesOf(acc, g) + CasesOf(m, g)
  }

  /** One turn of the cohort loop (lines 98-106). */
  function Step(acc: Accumulator, c: Cohort): Accumulator
  {
    Accumulator(
      acc.genes + Elems(c.genes),
      acc.patients + Elems(c.patients),
      MergeInto(acc.geneToCases, c.geneToCases),
      acc.typeToGenes + [c.genes],
      acc.typeToGeneIndex + [LocalIndex(c.genes)])
  }

  /** The whole cohort loop as a left fold, starting from empty collections. */
  function Fold(cohorts: seq<Cohort>): Accumulator
    decreases |cohorts|
  {
    if cohorts == [] then Accumulator({}, {}, map[], [], [])
    else Step(Fold(cohorts[..|cohorts| - 1]), cohorts[|cohorts| - 1])
  }

  /** Line 111: keep a gene when it is listed and mutated in at least
      `minFrequency` patients. */
  function Filter(genes: set<string>, geneToCases: map<string, set<string>>, minFrequency: int): map<string, set<string>>
  {
    map g | g in geneToCases && g in genes && |geneToCases[g]| >= minFrequency :: geneToCases[g]
  }

  /** `dict(zip(order, range(len(order))))` for a list without repetitions. */
  function Number(order: seq<string>): map<string, nat>
    requires Distinct(order)
  {
    map i | 0 <= i < |order| :: order[i] := i
  }

  lemma NumberAt(order: seq<string>)
    requires Distinct(order)
    ensures Number(order).Keys == Elems(order)
    ensures forall i :: 0 <= i < |order| ==> Number(order)[order[i]] == i
  {
    var index := Number(order);
    forall i | 0 <= i < |order| ensures index[order[i]] == i {
      var j :| 0 <= j < |order| && order[j] == order[i] && index[order[i]] == j;
    }
  }

  /** Line 114: number the kept genes 0..N-1 in sorted order. */
  function GeneIndex(genes: set<string>): map<string, nat>
  {
    var order := Lex.Sorted(genes);
    Lex.StrictlySortedDistinct(order);
    Number(order)
  }

  /** Lines 108-114 applied to the folded state. */
  function Finish(acc: Accumulator, minFrequency: int): Alignment
  {
    var geneToCases := Filter(acc.genes, acc.geneToCases, minFrequency);
    var genes := geneToCases.Keys;
    Alignment(genes, acc.patients, geneToCases, acc.typeToGenes, acc.typeToGeneIndex,
              GeneIndex(genes), |acc.genes|, |acc.patients|, |genes|)
  }

  /** The aligner as a pure reduction over the cohort list. */
  function AlignSpec(cohorts: seq<Cohort>, minFrequency: int): Alignment
  {
    Finish(Fold(cohorts), minFrequency)
  }

  /** `merged` is `acc` with the case sets of `m` merged in for every gene of
      `m` outside `todo`. */
  ghost predicate MergedExcept(merged: map<string, set<string>>, acc: map<string, set<string>>,
                               m: map<string, set<string>>, todo: set<string>)
  {
    && todo <= m.Keys
    && merged.Keys == acc.Keys + (m.Keys - todo)
    && forall g :: g in merged ==> merged[g] == CasesOf(acc, g) + (if g in todo then {} else CasesOf(m, g))
  }

  lemma MergedExceptNothing(merged: map<string, set<string>>, acc: map<string, set<string>>, m: map<string, set<string>>)
    requires MergedExcept(merged, acc, m, {})
    ensures merged == MergeInto(acc, m)
  {
    var expected := MergeInto(acc, m);
    assert merged.Keys == expected.Keys;
    forall g | g in merged ensures merged[g] == expected[g] {
    }
  }

  lemma MergedExceptStep(merged: map<string, set<string>>, acc: map<string, set<string>>,
                         m: map<string, set<string>>, todo: set<string>, g: string)
    requires MergedExcept(merged, acc, m, todo) && g in todo
    ensures MergedExcept(merged[g := CasesOf(merged, g) + m[g]], acc, m, todo - {g})
  {
    var next := merged[g := CasesOf(merged, g) + m[g]];
    forall h | h in next
      ensures next[h] == CasesOf(acc, h) + (if h in todo - {g} then {} else CasesOf(m, h))
    {
      if h == g {
        assert CasesOf(merged, g) == CasesOf(acc, g);
      }
    }
  }

  /** The inner loop of line 102: union-merge one cohort's case sets into the
      running gene -> cases map. */
  method MergeCaseSets(acc: map<string, set<string>>, m: map<string, set<string>>)
    returns (merged: map<string, set<string>>)
    ensures merged == MergeInto(acc, m)
  {
    merged := acc;
    var todo := m.Keys;
    while todo != {}
      invariant MergedExcept(merged, acc, m, todo)
      decreases |todo|
    {
      var g :| g in todo;
      MergedExceptStep(merged, acc, m, todo, g);
      merged := merged[g := CasesOf(merged, g) + m[g]];
      todo := todo - {g};
    }
    MergedExceptNothing(merged, acc, m);
  }

  /** The cohort loop, filter and numbering of `run` (lines 90-115). */
  method Align(cohorts: seq<Cohort>, minFrequency: int) returns (a: Alignment)
    ensures a == AlignSpec(cohorts, minFrequency)
  {
    var genes: set<string>, patients: set<string> := {}, {};
    var geneToCases: map<string, set<string>> := map[];
    var typeToGenes: seq<seq<string>>, typeToGeneIndex: seq<map<string, nat>> := [], [];
    for i := 0 to |cohorts|
      invariant Accumulator(genes, patients, geneToCases, typeToGenes, typeToGeneIndex) == Fold(cohorts[..i])
    {
      var c := cohorts[i];
      patients := patients + Elems(c.patients);
      genes := genes + Elems(c.genes);
      geneToCases := MergeCaseSets(geneToCases, c.geneToCases);
      typeToGenes := typeToGenes + [c.genes];
      typeToGeneIndex := typeToGeneIndex + [LocalIndex(c.genes)];
      assert cohorts[..i + 1][..i] == cohorts[..i];
    }
    assert cohorts[..|cohorts|] == cohorts;
    var numAllGenes, numPatients := |genes|, |patients|;
    var kept := Filter(genes, geneToCases, minFrequency);
    var keptGenes := kept.Keys;
    a := Alignment(keptGenes, patients, kept, typeToGenes, typeToGeneIndex,
                   GeneIndex(keptGenes), numAllGenes, numPatients, |keptGenes|);
  }

  // ---------------------------------------------------------------------------
  // What the fold computes

  /** Genes and patients are the unions of the cohorts' lists. */
  lemma {:induction false} FoldUnions(cohorts: seq<Cohort>)
    ensures forall g :: g in Fold(cohorts).genes <==> exists i :: 0 <= i < |cohorts| && g in cohorts[i].genes
    ensures forall p :: p in Fold(cohorts).patients <==> exists i :: 0 <= i < |cohorts| && p in cohorts[i].patients
    decreases |cohorts|
  {
    if cohorts != [] {
      var init := cohorts[..|cohorts| - 1];
      FoldUnions(init);
      forall g
        ensures g in Fold(cohorts).genes <==> exists i :: 0 <= i < |cohorts| && g in cohorts[i].genes
      {
        if g in Fold(cohorts).genes && g !in Fold(init).genes {
          assert g in cohorts[|cohorts| - 1].genes;
        }
        if exists i :: 0 <= i < |cohorts| && g in cohorts[i].genes {
          var i :| 0 <= i < |cohorts| && g in cohorts[i].genes;
          if i < |cohorts| - 1 {
            assert init[i] == cohorts[i];
          }
        }
      }
      forall p
        ensures p in Fold(cohorts).patients <==> exists i :: 0 <= i < |cohorts| && p in cohorts[i].patients
      {
        if p in Fold(cohorts).patients && p !in Fold(init).patients {
          assert p in cohorts[|cohorts| - 1].patients;
        }
        if exists i :: 0 <= i < |cohorts| && p in cohorts[i].patients {
          var i :| 0 <= i < |cohorts| && p in cohorts[i].patients;
          if i < |cohorts| - 1 {
            assert init[i] == cohorts[i];
          }
        }
      }
    }
  }

  /** The merged map has a key for every gene some cohort maps, and its case
      set is the union of the cohorts' case sets for that gene. */
  lemma {:induction false} FoldCases(cohorts: seq<Cohort>)
    ensures forall g :: g in Fold(cohorts).geneToCases <==> exists i :: 0 <= i < |cohorts| && g in cohorts[i].geneToCases
    ensures forall g, p :: g in Fold(cohorts).geneToCases ==>
              (p in Fold(cohorts).geneToCases[g] <==>
               exists i :: 0 <= i < |cohorts| && g in cohorts[i].geneToCases && p in cohorts[i].geneToCases[g])
    decreases |cohorts|
  {
    if cohorts != [] {
      var init := cohorts[..|cohorts| - 1];
      var last := cohorts[|cohorts| - 1];
      FoldCases(init);
      var before, after := Fold(init).geneToCases, Fold(cohorts).geneToCases;
      forall g
        ensures g in after <==> exists i :: 0 <= i < |cohorts| && g in cohorts[i].geneToCases
      {
        if exists i :: 0 <= i < |cohorts| && g in cohorts[i].geneToCases {
          var i :| 0 <= i < |cohorts| && g in cohorts[i].geneToCases;
          if i < |cohorts| - 1 {
            assert init[i] == cohorts[i];
          }
        }
      }
      forall g, p | g in after
        ensures p in after[g] <==>
                exists i :: 0 <= i < |cohorts| && g in cohorts[i].geneToCases && p in cohorts[i].geneToCases[g]
      {
        assert after[g] == CasesOf(before, g) + CasesOf(last.geneToCases, g);
        if p in after[g] {
          if p in CasesOf(before, g) {
            var i :| 0 <= i < |init| && g in init[i].geneToCases && p in init[i].geneToCases[g];
            assert cohorts[i] == init[i];
          } else {
            assert g in cohorts[|cohorts| - 1].geneToCases;
          }
        }
        if exists i :: 0 <= i < |cohorts| && g in cohorts[i].geneToCases && p in cohorts[i].geneToCases[g] {
          var i :| 0 <= i < |cohorts| && g in cohorts[i].geneToCases && p in cohorts[i].geneToCases[g];
          if i < |cohorts| - 1 {
            assert init[i] == cohorts[i];
            assert g in before;
          }
        }
      }
    }
  }

  /** One record per cohort, in input order: its gene list and its local
      gene -> position map. */
  lemma {:induction false} FoldRecords(cohorts: seq<Cohort>)
    ensures |Fold(cohorts).typeToGenes| == |cohorts| == |Fold(cohorts).typeToGeneIndex|
    ensures forall i :: 0 <= i < |cohorts| ==>
              Fold(cohorts).typeToGenes[i] == cohorts[i].genes &&
              Fold(cohorts).typeToGeneIndex[i] == LocalIndex(cohorts[i].genes)
    decreases |cohorts|
  {
    if cohorts != [] {
      var init := cohorts[..|cohorts| - 1];
      FoldRecords(init);
      forall i | 0 <= i < |cohorts| - 1
        ensures Fold(cohorts).typeToGenes[i] == cohorts[i].genes
        ensures Fold(cohorts).typeToGeneIndex[i] == LocalIndex(cohorts[i].genes)
      {
        assert init[i] == cohorts[i];
      }
    }
  }

  // ---------------------------------------------------------------------------
  // What the filter and the numbering compute

  /** A gene is kept iff some cohort lists it and the union of its case sets
      has at least `minFrequency` patients (equality is kept); the kept case
      sets are the merged ones, and the gene set is the kept map's key set. */
  lemma KeptGenes(cohorts: seq<Cohort>, minFrequency: int, g: string)
    ensures var a := AlignSpec(cohorts, minFrequency);
            var merged := Fold(cohorts).geneToCases;
            && a.genes == a.geneToCases.Keys
            && (g in a.genes <==>
                  (exists i :: 0 <= i < |cohorts| && g in cohorts[i].genes) &&
                  g in merged && |merged[g]| >= minFrequency)
            && (g in a.genes ==> a.geneToCases[g] == merged[g])
  {
    FoldUnions(cohorts);
  }

  /** `index` numbers the strictly sorted list `order` by position. */
  ghost predicate NumbersInOrder(order: seq<string>, index: map<string, nat>)
  {
    && Lex.StrictlySorted(order)
    && (forall i :: 0 <= i < |order| ==> order[i] in index && index[order[i]] == i)
    && (forall g :: g in index ==> index[g] < |order| && order[index[g]] == g)
  }

  /** Numbering a sorted list by position gives a numbering in order. */
  lemma NumberInOrder(order: seq<string>)
    requires Lex.StrictlySorted(order) && Distinct(order)
    ensures Number(order).Keys == Elems(order)
    ensures NumbersInOrder(order, Number(order))
  {
    var index := Number(order);
    NumberAt(order);
    forall g | g in index ensures index[g] < |order| && order[index[g]] == g {
      var i :| 0 <= i < |order| && order[i] == g;
    }
  }

  /** The numbering read both ways: the i-th sorted gene gets i, and the gene
      numbered k is the k-th sorted gene. */
  lemma GeneIndexAt(genes: set<string>)
    ensures GeneIndex(genes).Keys == genes
    ensures NumbersInOrder(Lex.Sorted(genes), GeneIndex(genes))
  {
    var order := Lex.Sorted(genes);
    Lex.StrictlySortedDistinct(order);
    NumberInOrder(order);
  }

  lemma NumbersOnto(order: seq<string>, index: map<string, nat>)
    requires NumbersInOrder(order, index)
    ensures forall k: nat :: k in index.Values <==> k < |order|
  {
    forall k: nat ensures k in index.Values <==> k < |order| {
      if k < |order| {
        assert index[order[k]] == k;
      }
    }
  }

  lemma NumbersFollowOrder(order: seq<string>, index: map<string, nat>)
    requires NumbersInOrder(order, index)
    ensures forall g, h :: g in index && h in index && index[g] == index[h] ==> g == h
    ensures forall g, h :: g in index && h in index && Lex.Less(g, h) ==> index[g] < index[h]
  {
    forall g, h | g in index && h in index && Lex.Less(g, h)
      ensures index[g] < index[h]
    {
      var a, b := index[g], index[h];
      assert order[a] == g && order[b] == h;
      if b < a {
        Lex.LessAsymmetric(h, g);
      } else if a == b {
        Lex.LessIrreflexive(g);
      }
    }
  }

  /** `geneToIndex` is a bijection from the kept genes onto [0, N) that follows
      sorted order. */
  lemma {:induction false} GeneIndexBijection(genes: set<string>)
    ensures var index := GeneIndex(genes);
            && index.Keys == genes
            && (forall k: nat :: k in index.Values <==> k < |genes|)
            && (forall g, h :: g in index && h in index && index[g] == index[h] ==> g == h)
            && (forall g, h :: g in index && h in index && Lex.Less(g, h) ==> index[g] < index[h])
  {
    GeneIndexAt(genes);
    NumbersOnto(Lex.Sorted(genes), GeneIndex(genes));
    NumbersFollowOrder(Lex.Sorted(genes), GeneIndex(genes));
  }

  /** The genes of `genes` that sort before `g`. */
  function SortsBefore(genes: set<string>, g: string): set<string>
  {
    set h | h in genes && Lex.Less(h, g)
  }

  lemma NumbersPrefix(order: seq<string>, index: map<string, nat>, g: string)
    requires NumbersInOrder(order, index) && g in index
    ensures SortsBefore(index.Keys, g) == Elems(order[..index[g]])
  {
    var k := index[g];
    var prefix := order[..k];
    NumbersFollowOrder(order, index);
    forall h | h in SortsBefore(index.Keys, g) ensures h in Elems(prefix) {
      assert prefix[index[h]] == h;
    }
    forall h | h in Elems(prefix) ensures h in SortsBefore(index.Keys, g) {
      var i :| 0 <= i < k && prefix[i] == h;
      assert order[k] == g && Lex.Less(order[i], order[k]);
    }
  }

  /** The genes sorting before `g` are exactly the sorted genes in front of it. */
  lemma SortsBeforeIsPrefix(genes: set<string>, g: string)
    requires g in genes
    ensures GeneIndex(genes)[g] <= |Lex.Sorted(genes)|
    ensures SortsBefore(genes, g) == Elems(Lex.Sorted(genes)[..GeneIndex(genes)[g]])
  {
    GeneIndexAt(genes);
    NumbersPrefix(Lex.Sorted(genes), GeneIndex(genes), g);
  }

  lemma {:induction false} NumbersRank(order: seq<string>, index: map<string, nat>, g: string)
    requires NumbersInOrder(order, index) && g in index
    ensures index[g] == |SortsBefore(index.Keys, g)|
  {
    var prefix := order[..index[g]];
    NumbersPrefix(order, index, g);
    assert Lex.StrictlySorted(prefix);
    Lex.StrictlySortedDistinct(prefix);
    DistinctCard(prefix);
  }

  /** Independent reading of the numbering: a kept gene's index is the number
      of kept genes that sort before it. */
  lemma {:induction false} GeneIndexIsRank(genes: set<string>, g: string)
    requires g in genes
    ensures GeneIndex(genes)[g] == |SortsBefore(genes, g)|
  {
    GeneIndexAt(genes);
    NumbersRank(Lex.Sorted(genes), GeneIndex(genes), g);
  }

  // ---------------------------------------------------------------------------
  // Whole-run properties

  lemma MergeNothing(acc: map<string, set<string>>)
    ensures MergeInto(acc, map[]) == acc
  {
    forall g | g in acc ensures MergeInto(acc, map[])[g] == acc[g] {
    }
  }

  lemma FoldEmptyCohort(cohorts: seq<Cohort>, c: Cohort)
    requires c.genes == [] && c.geneToCases == map[]
    ensures var acc := Fold(cohorts);
            Fold(cohorts + [c]) == Accumulator(acc.genes, acc.patients + Elems(c.patients), acc.geneToCases,
                                               acc.typeToGenes + [[]], acc.typeToGeneIndex + [map[]])
  {
    var all := cohorts + [c];
    assert all[..|all| - 1] == cohorts;
    var acc := Fold(cohorts);
    assert Fold(all) == Step(acc, c);
    MergeNothing(acc.geneToCases);
    assert Elems(c.genes) == {};
    assert LocalIndex(c.genes) == map[];
  }

  /** A cohort with no genes and no mutations changes nothing but the patient
      set and the per-cohort records. */
  lemma EmptyCohortChangesNothing(cohorts: seq<Cohort>, c: Cohort, minFrequency: int)
    requires c.genes == [] && c.geneToCases == map[]
    ensures var before, after := AlignSpec(cohorts, minFrequency), AlignSpec(cohorts + [c], minFrequency);
            && after.genes == before.genes
            && after.geneToCases == before.geneToCases
            && after.geneToIndex == before.geneToIndex
            && after.numAllGenes == before.numAllGenes
            && after.patients == before.patients + Elems(c.patients)
            && after.typeToGenes == before.typeToGenes + [[]]
  {
    FoldEmptyCohort(cohorts, c);
  }

  /** With duplicate-free, pairwise disjoint patient lists, the global patient
      count is the sum of the cohort patient counts. */
  function TotalPatients(cohorts: seq<Cohort>): nat
    decreases |cohorts|
  {
    if cohorts == [] then 0
    else TotalPatients(cohorts[..|cohorts| - 1]) + |cohorts[|cohorts| - 1].patients|
  }

  lemma {:induction false} DisjointPatientCount(cohorts: seq<Cohort>)
    requires forall i :: 0 <= i < |cohorts| ==> Distinct(cohorts[i].patients)
    requires forall i, j :: 0 <= i < j < |cohorts| ==> Elems(cohorts[i].patients) !! Elems(cohorts[j].patients)
    ensures |Fold(cohorts).patients| == TotalPatients(cohorts)
    decreases |cohorts|
  {
    if cohorts != [] {
      var init := cohorts[..|cohorts| - 1];
      var last := cohorts[|cohorts| - 1];
      DisjointPatientCount(init);
      FoldUnions(init);
      DistinctCard(last.patients);
      assert Fold(init).patients !! Elems(last.patients) by {
        forall p | p in Fold(init).patients ensures p !in Elems(last.patients) {
          var i :| 0 <= i < |init| && p in init[i].patients;
          assert init[i] == cohorts[i];
          assert p in Elems(cohorts[i].patients);
        }
      }
    }
  }
}
