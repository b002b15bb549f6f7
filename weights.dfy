/** Weight matrix merger: `load_weight_files` (find_exclusive_sets.py, lines
    60-76). Each cohort's local gene x patient weight array is copied into one
    global gene x patient matrix, cohort by cohort, into consecutive column
    blocks; afterwards every exact-zero cell is replaced by the smallest
    strictly positive cell (the pseudocount). */
module WeightMerger {
  import opened Common
  import Aligner

  /** A cohort's weight array as `np.load` yields it: `cols` columns (its
      patients) and one row per local gene. */
  datatype Matrix = Matrix(cols: nat, rows: seq<seq<real>>)

  /** The inputs the merger reads: per cohort its weight array, its gene list
      and its local gene -> row map, and the set of kept genes. */
  datatype Layout = Layout(
    weights: seq<Matrix>,
    typeToGenes: seq<seq<string>>,
    typeToGeneIndex: seq<map<string, nat>>,
    genes: set<string>)

  datatype WeightError = NoPositiveWeight

  /** Every array is rectangular, and every kept gene a cohort lists has a
      row in that cohort's array. */
  ghost predicate Shaped(L: Layout)
  {
    && |L.weights| == |L.typeToGenes| == |L.typeToGeneIndex|
    && (forall i, r :: 0 <= i < |L.weights| && 0 <= r < |L.weights[i].rows| ==> |L.weights[i].rows[r]| == L.weights[i].cols)
    && (forall i, g :: 0 <= i < |L.weights| && g in L.typeToGenes[i] && g in L.genes ==>
          g in L.typeToGeneIndex[i] && L.typeToGeneIndex[i][g] < |L.weights[i].rows|)
  }

  /** `geneToIndex` sends the kept genes to distinct rows below `m`. */
  ghost predicate RowIndex(geneToIndex: map<string, nat>, genes: set<string>, m: nat)
  {
    && (forall g :: g in genes ==> g in geneToIndex && geneToIndex[g] < m)
    && (forall g, h :: g in genes && h in genes && geneToIndex[g] == geneToIndex[h] ==> g == h)
  }

  /** The global rows that hold kept genes. */
  ghost function Rows(geneToIndex: map<string, nat>, genes: set<string>): set<nat>
    requires forall g :: g in genes ==> g in geneToIndex
  {
    set g | g in genes :: geneToIndex[g]
  }

  function Zeros(k: nat): (z: seq<real>)
    ensures |z| == k && forall j :: 0 <= j < k ==> z[j] == 0.0
  {
    seq(k, _ => 0.0)
  }

  /** The running `patient_index`: where cohort `i`'s column block starts. */
  function Offset(weights: seq<Matrix>, i: nat): nat
    requires i <= |weights|
  {
    if i == 0 then 0 else Offset(weights, i - 1) + weights[i - 1].cols
  }

  function TotalColumns(weights: seq<Matrix>): nat
  {
    Offset(weights, |weights|)
  }

  /** Cohort `i`'s part of kept gene `g`'s global row: the cohort's own row for
      `g` if it lists `g`, zeros otherwise. */
  function Block(L: Layout, i: nat, g: string): (b: seq<real>)
    requires Shaped(L) && i < |L.weights| && g in L.genes
    ensures |b| == L.weights[i].cols
  {
    if g in L.typeToGenes[i] then L.weights[i].rows[L.typeToGeneIndex[i][g]] else Zeros(L.weights[i].cols)
  }

  /** The blocks of the first `i` cohorts, side by side. */
  function Prefix(L: Layout, i: nat, g: string): (p: seq<real>)
    requires Shaped(L) && i <= |L.weights| && g in L.genes
    ensures |p| == Offset(L.weights, i)
  {
    if i == 0 then [] else Prefix(L, i - 1, g) + Block(L, i - 1, g)
  }

  /** Gene `g`'s global row before the pseudocount pass: every cohort's block
      in cohort order, then zeros up to `n` columns. */
  function MergedRow(L: Layout, g: string, n: nat): (row: seq<real>)
    requires Shaped(L) && g in L.genes && TotalColumns(L.weights) <= n
    ensures |row| == n
  {
    Prefix(L, |L.weights|, g) + Zeros(n - TotalColumns(L.weights))
  }

  /** Some merged cell is strictly positive. */
  ghost predicate HasPositive(L: Layout, n: nat)
    requires Shaped(L) && TotalColumns(L.weights) <= n
  {
    exists g, c :: g in L.genes && 0 <= c < n && MergedRow(L, g, n)[c] > 0.0
  }

  /** `v` is the smallest strictly positive merged cell. */
  ghost predicate IsMinPositive(L: Layout, n: nat, v: real)
    requires Shaped(L) && TotalColumns(L.weights) <= n
  {
    && v > 0.0
    && (exists g, c :: g in L.genes && 0 <= c < n && MergedRow(L, g, n)[c] == v)
    && (forall g, c :: g in L.genes && 0 <= c < n && MergedRow(L, g, n)[c] > 0.0 ==> v <= MergedRow(L, g, n)[c])
  }

  // ---------------------------------------------------------------------------
  // The global matrix before the pseudocount pass

  /** Column `Offset(i) + j` of the first `k` blocks is column `j` of block `i`. */
  lemma {:induction false} PrefixAt(L: Layout, k: nat, g: string, i: nat, j: nat)
    requires Shaped(L) && k <= |L.weights| && g in L.genes
    requires i < k && j < L.weights[i].cols
    ensures Offset(L.weights, i) + j < Offset(L.weights, k)
    ensures Prefix(L, k, g)[Offset(L.weights, i) + j] == Block(L, i, g)[j]
  {
    if i < k - 1 {
      PrefixAt(L, k - 1, g, i, j);
    }
  }

  /** Where each cohort's weights land: for every kept gene and every column
      of cohort `i`, the merged cell at `Offset(i) + j` is the cohort's own
      cell for that gene, or 0 when the cohort does not list the gene. */
  lemma BlockPlacement(L: Layout, n: nat, g: string, i: nat, j: nat)
    requires Shaped(L) && TotalColumns(L.weights) <= n && g in L.genes
    requires i < |L.weights| && j < L.weights[i].cols
    ensures Offset(L.weights, i) + j < n
    ensures MergedRow(L, g, n)[Offset(L.weights, i) + j] ==
            if g in L.typeToGenes[i] then L.weights[i].rows[L.typeToGeneIndex[i][g]][j] else 0.0
  {
    PrefixAt(L, |L.weights|, g, i, j);
  }

  /** Columns past the last block stay 0. */
  lemma PastBlocks(L: Layout, n: nat, g: string, c: nat)
    requires Shaped(L) && TotalColumns(L.weights) <= n && g in L.genes
    requires TotalColumns(L.weights) <= c < n
    ensures MergedRow(L, g, n)[c] == 0.0
  {
  }

  /** The blocks are contiguous and in cohort order: every column below the
      total lies in some cohort's block ... */
  lemma ColumnOwner(weights: seq<Matrix>, c: nat)
    requires c < TotalColumns(weights)
    ensures exists i :: 0 <= i < |weights| && Offset(weights, i) <= c < Offset(weights, i + 1)
  {
    OwnerExists(weights, |weights|, c);
  }

  /** ... and in no other cohort's block. */
  lemma ColumnOwnerUnique(weights: seq<Matrix>, c: nat, i: nat, i': nat)
    requires i < |weights| && i' < |weights|
    requires Offset(weights, i) <= c < Offset(weights, i + 1)
    requires Offset(weights, i') <= c < Offset(weights, i' + 1)
    ensures i == i'
  {
    if i < i' {
      OffsetMonotone(weights, i + 1, i');
    } else if i' < i {
      OffsetMonotone(weights, i' + 1, i);
    }
  }

  lemma {:induction false} OwnerExists(weights: seq<Matrix>, k: nat, c: nat)
    requires k <= |weights| && c < Offset(weights, k)
    ensures exists i :: 0 <= i < k && Offset(weights, i) <= c < Offset(weights, i + 1)
  {
    if c < Offset(weights, k - 1) {
      OwnerExists(weights, k - 1, c);
    }
  }

  lemma {:induction false} OffsetMonotone(weights: seq<Matrix>, i: nat, j: nat)
    requires i <= j <= |weights|
    ensures Offset(weights, i) <= Offset(weights, j)
    decreases j
  {
    if i < j {
      OffsetMonotone(weights, i, j - 1);
    }
  }

  /** With one weight column per cohort patient and pairwise disjoint,
      duplicate-free patient lists, the blocks fill exactly the global patient
      count, so the blocks fit. */
  lemma {:induction false} BlocksFitDisjointCohorts(cohorts: seq<Aligner.Cohort>, weights: seq<Matrix>, minFrequency: int)
    requires |weights| == |cohorts|
    requires forall i :: 0 <= i < |cohorts| ==> weights[i].cols == |cohorts[i].patients|
    requires forall i :: 0 <= i < |cohorts| ==> Distinct(cohorts[i].patients)
    requires forall i, j :: 0 <= i < j < |cohorts| ==> Elems(cohorts[i].patients) !! Elems(cohorts[j].patients)
    ensures TotalColumns(weights) == Aligner.AlignSpec(cohorts, minFrequency).numPatients
  {
    Aligner.DisjointPatientCount(cohorts);
    OffsetIsTotalPatients(cohorts, weights, |cohorts|);
    assert cohorts[..|cohorts|] == cohorts;
    assert Aligner.AlignSpec(cohorts, minFrequency).numPatients == |Aligner.Fold(cohorts).patients|;
  }

  lemma {:induction false} OffsetIsTotalPatients(cohorts: seq<Aligner.Cohort>, weights: seq<Matrix>, k: nat)
    requires |weights| == |cohorts| && k <= |cohorts|
    requires forall i :: 0 <= i < |cohorts| ==> weights[i].cols == |cohorts[i].patients|
    ensures Offset(weights, k) == Aligner.TotalPatients(cohorts[..k])
  {
    if k > 0 {
      OffsetIsTotalPatients(cohorts, weights, k - 1);
      assert cohorts[..k][..k - 1] == cohorts[..k - 1];
    }
  }

  // ---------------------------------------------------------------------------
  // The imperative merger

  /** The cells of row `r`. */
  function RowOf(P: array2<real>, r: nat): (row: seq<real>)
    requires r < P.Length0
    reads P
    ensures |row| == P.Length1 && forall c :: 0 <= c < P.Length1 ==> row[c] == P[r, c]
  {
    seq(P.Length1, c requires 0 <= c < P.Length1 reads P => P[r, c])
  }

  /** One row of the slice assignment at line 71: `row` goes to row `r`,
      starting at column `offset`. */
  method CopyRow(P: array2<real>, r: nat, offset: nat, row: seq<real>)
    requires r < P.Length0 && offset + |row| <= P.Length1
    modifies P
    ensures forall j :: 0 <= j < |row| ==> P[r, offset + j] == row[j]
    ensures forall r', c :: 0 <= r' < P.Length0 && 0 <= c < P.Length1 && !(r' == r && offset <= c < offset + |row|) ==>
              P[r', c] == old(P[r', c])
  {
    for j := 0 to |row|
      invariant forall j' :: 0 <= j' < j ==> P[r, offset + j'] == row[j']
      invariant forall r', c :: 0 <= r' < P.Length0 && 0 <= c < P.Length1 && !(r' == r && offset <= c < offset + j) ==>
                  P[r', c] == old(P[r', c])
    {
      P[r, offset + j] := row[j];
    }
  }

  /** Line 71 for one cohort: the rows of the cohort's kept genes go to their
      global rows, inside the column block starting at `offset`. */
  method CopyCohort(P: array2<real>, w: Matrix, localIndex: map<string, nat>, geneToIndex: map<string, nat>,
                    tyGenes: set<string>, offset: nat)
    requires forall r :: 0 <= r < |w.rows| ==> |w.rows[r]| == w.cols
    requires forall g :: g in tyGenes ==> g in localIndex && localIndex[g] < |w.rows|
    requires RowIndex(geneToIndex, tyGenes, P.Length0)
    requires offset + w.cols <= P.Length1
    modifies P
    ensures forall g, j :: g in tyGenes && 0 <= j < w.cols ==>
              P[geneToIndex[g], offset + j] == w.rows[localIndex[g]][j]
    ensures forall r, c ::
              0 <= r < P.Length0 && 0 <= c < P.Length1 && !(r in Rows(geneToIndex, tyGenes) && offset <= c < offset + w.cols)
              ==> P[r, c] == old(P[r, c])
  {
    var todo := tyGenes;
    while todo != {}
      invariant todo <= tyGenes
      invariant forall g, j :: g in tyGenes - todo && 0 <= j < w.cols ==>
                  P[geneToIndex[g], offset + j] == w.rows[localIndex[g]][j]
      invariant forall r, c ::
                  0 <= r < P.Length0 && 0 <= c < P.Length1 && !(r in Rows(geneToIndex, tyGenes - todo) && offset <= c < offset + w.cols)
                  ==> P[r, c] == old(P[r, c])
      decreases |todo|
    {
      var g :| g in todo;
      CopyRow(P, geneToIndex[g], offset, w.rows[localIndex[g]]);
      todo := todo - {g};
    }
  }

  /** After the first `i` cohorts: each kept gene's row holds the first `i`
      blocks and zeros beyond, and rows of no kept gene are all zero. */
  ghost predicate Placed(P: array2<real>, L: Layout, geneToIndex: map<string, nat>, i: nat)
    requires Shaped(L) && i <= |L.weights| && RowIndex(geneToIndex, L.genes, P.Length0)
    reads P
  {
    && (forall g, c :: g in L.genes && 0 <= c < P.Length1 ==>
          P[geneToIndex[g], c] == if c < Offset(L.weights, i) then Prefix(L, i, g)[c] else 0.0)
    && (forall r, c :: 0 <= r < P.Length0 && 0 <= c < P.Length1 && r !in Rows(geneToIndex, L.genes) ==> P[r, c] == 0.0)
  }

  /** `np.min(P[P > 0])`, or `found == false` when no cell is positive. */
  method MinPositiveCell(P: array2<real>) returns (found: bool, least: real)
    ensures found <==> exists r, c :: 0 <= r < P.Length0 && 0 <= c < P.Length1 && P[r, c] > 0.0
    ensures found ==> least > 0.0
    ensures found ==> exists r, c :: 0 <= r < P.Length0 && 0 <= c < P.Length1 && P[r, c] == least
    ensures found ==> forall r, c :: 0 <= r < P.Length0 && 0 <= c < P.Length1 && P[r, c] > 0.0 ==> least <= P[r, c]
  {
    found, least := false, 0.0;
    for r := 0 to P.Length0
      invariant MinSoFar(P, r, 0, found, least)
    {
      for c := 0 to P.Length1
        invariant MinSoFar(P, r, c, found, least)
      {
        if P[r, c] > 0.0 && (!found || P[r, c] < least) {
          found, least := true, P[r, c];
        }
      }
    }
  }

  /** Cell (r', c') comes before (r, c) in row-major order. */
  predicate Before(r': int, c': int, r: int, c: int)
  {
    r' < r || (r' == r && c' < c)
  }

  /** `found`/`least` describe the positive cells before (r, c). */
  ghost predicate MinSoFar(P: array2<real>, r: int, c: int, found: bool, least: real)
    reads P
  {
    && (found ==> least > 0.0)
    && (found ==> exists r', c' :: 0 <= r' < P.Length0 && 0 <= c' < P.Length1 && Before(r', c', r, c) && P[r', c'] == least)
    && (forall r', c' :: 0 <= r' < P.Length0 && 0 <= c' < P.Length1 && Before(r', c', r, c) && P[r', c'] > 0.0 ==>
          found && least <= P[r', c'])
  }

  /** `P[P == 0] = least`. */
  method FillZeros(P: array2<real>, least: real)
    modifies P
    ensures forall r, c :: 0 <= r < P.Length0 && 0 <= c < P.Length1 ==>
              P[r, c] == if old(P[r, c]) == 0.0 then least else old(P[r, c])
  {
    for r := 0 to P.Length0
      invariant forall r', c :: 0 <= r' < P.Length0 && 0 <= c < P.Length1 ==>
                  P[r', c] == if r' < r && old(P[r', c]) == 0.0 then least else old(P[r', c])
    {
      for c := 0 to P.Length1
        invariant forall r', c' :: 0 <= r' < P.Length0 && 0 <= c' < P.Length1 ==>
                    P[r', c'] == if Before(r', c', r, c) && old(P[r', c']) == 0.0 then least else old(P[r', c'])
      {
        if P[r, c] == 0.0 {
          P[r, c] := least;
        }
      }
    }
  }

  /** What `load_weight_files` promises of its result: one row of `n` cells
      per kept gene, no cell zero, every nonzero merged cell kept, every zero
      merged cell replaced by the smallest positive merged cell. */
  ghost predicate LoadedRows(L: Layout, n: nat, rows: map<string, seq<real>>)
    requires Shaped(L) && TotalColumns(L.weights) <= n
  {
    && rows.Keys == L.genes
    && (forall g :: g in rows ==> |rows[g]| == n)
    && (forall g, c :: g in L.genes && 0 <= c < n ==>
          && rows[g][c] != 0.0
          && (MergedRow(L, g, n)[c] != 0.0 ==> rows[g][c] == MergedRow(L, g, n)[c])
          && (MergedRow(L, g, n)[c] == 0.0 ==> IsMinPositive(L, n, rows[g][c])))
  }

  /** `load_weight_files`, with the kept gene set passed in. The result maps
      each kept gene to its global row: its cohorts' weights in their column
      blocks, every exact zero replaced by the smallest positive cell; it is an
      error when no cell is positive. */
  method LoadWeights(weights: seq<Matrix>, m: nat, n: nat, typeToGenes: seq<seq<string>>,
                     typeToGeneIndex: seq<map<string, nat>>, geneToIndex: map<string, nat>, genes: set<string>)
    returns (result: Result<map<string, seq<real>>, WeightError>)
    requires Shaped(Layout(weights, typeToGenes, typeToGeneIndex, genes))
    requires RowIndex(geneToIndex, genes, m)
    requires TotalColumns(weights) <= n
    ensures var L := Layout(weights, typeToGenes, typeToGeneIndex, genes);
            result.Err? <==> !HasPositive(L, n)
    ensures var L := Layout(weights, typeToGenes, typeToGeneIndex, genes);
            result.Ok? ==> LoadedRows(L, n, result.value)
  {
    var L := Layout(weights, typeToGenes, typeToGeneIndex, genes);
    var P := new real[m, n]((_, _) => 0.0);
    PlaceAll(P, L, geneToIndex);
    result := Pseudocount(P, L, geneToIndex);
  }

  /** The cohort loop of lines 64-72 on a zero matrix: every kept gene's row
      becomes its merged row, and the other rows stay zero. */
  method PlaceAll(P: array2<real>, L: Layout, geneToIndex: map<string, nat>)
    requires Shaped(L) && RowIndex(geneToIndex, L.genes, P.Length0)
    requires TotalColumns(L.weights) <= P.Length1
    requires forall r, c :: 0 <= r < P.Length0 && 0 <= c < P.Length1 ==> P[r, c] == 0.0
    modifies P
    ensures forall g, c :: g in L.genes && 0 <= c < P.Length1 ==> P[geneToIndex[g], c] == MergedRow(L, g, P.Length1)[c]
    ensures forall r, c :: 0 <= r < P.Length0 && 0 <= c < P.Length1 && r !in Rows(geneToIndex, L.genes) ==> P[r, c] == 0.0
  {
    var patientIndex := 0;
    for i := 0 to |L.weights|
      invariant patientIndex == Offset(L.weights, i)
      invariant Placed(P, L, geneToIndex, i)
    {
      var tyGenes := set g | g in L.typeToGenes[i] && g in L.genes;
      PlaceCohort(P, L, geneToIndex, i, tyGenes, patientIndex);
      patientIndex := patientIndex + L.weights[i].cols;
    }
    PlacedIsMerged(P, L, geneToIndex, P.Length1);
  }

  /** Lines 73-75 on the placed matrix: find the smallest positive cell, fail
      when there is none, else fill every zero with it and read the rows out. */
  method Pseudocount(P: array2<real>, L: Layout, geneToIndex: map<string, nat>)
    returns (result: Result<map<string, seq<real>>, WeightError>)
    requires Shaped(L) && RowIndex(geneToIndex, L.genes, P.Length0)
    requires TotalColumns(L.weights) <= P.Length1
    requires forall g, c :: g in L.genes && 0 <= c < P.Length1 ==> P[geneToIndex[g], c] == MergedRow(L, g, P.Length1)[c]
    requires forall r, c :: 0 <= r < P.Length0 && 0 <= c < P.Length1 && r !in Rows(geneToIndex, L.genes) ==> P[r, c] == 0.0
    modifies P
    ensures result.Err? <==> !HasPositive(L, P.Length1)
    ensures result.Ok? ==> LoadedRows(L, P.Length1, result.value)
  {
    var found, least := MinPositiveCell(P);
    MinPositiveIsMerged(P, L, geneToIndex, P.Length1, found, least);
    if !found {
      return Err(NoPositiveWeight);
    }
    FillZeros(P, least);
    FilledRowsLoaded(P, L, geneToIndex, least);
    result := Ok(map g | g in L.genes :: RowOf(P, geneToIndex[g]));
  }

  /** Reading the filled rows out gives what `load_weight_files` promises. */
  lemma FilledRowsLoaded(P: array2<real>, L: Layout, geneToIndex: map<string, nat>, least: real)
    requires Shaped(L) && RowIndex(geneToIndex, L.genes, P.Length0)
    requires TotalColumns(L.weights) <= P.Length1
    requires IsMinPositive(L, P.Length1, least)
    requires forall g, c :: g in L.genes && 0 <= c < P.Length1 ==>
               P[geneToIndex[g], c] == if MergedRow(L, g, P.Length1)[c] == 0.0 then least else MergedRow(L, g, P.Length1)[c]
    ensures LoadedRows(L, P.Length1, map g | g in L.genes :: RowOf(P, geneToIndex[g]))
  {
  }

  /** One turn of the cohort loop (lines 66-72), kept apart so that its frame
      reasoning stays small. */
  method PlaceCohort(P: array2<real>, L: Layout, geneToIndex: map<string, nat>, i: nat,
                     tyGenes: set<string>, offset: nat)
    requires Shaped(L) && i < |L.weights| && RowIndex(geneToIndex, L.genes, P.Length0)
    requires TotalColumns(L.weights) <= P.Length1
    requires tyGenes == set g | g in L.typeToGenes[i] && g in L.genes
    requires offset == Offset(L.weights, i)
    requires Placed(P, L, geneToIndex, i)
    modifies P
    ensures Placed(P, L, geneToIndex, i + 1)
  {
    OffsetMonotone(L.weights, i + 1, |L.weights|);
    CopyCohort(P, L.weights[i], L.typeToGeneIndex[i], geneToIndex, tyGenes, offset);
    var next := Offset(L.weights, i + 1);
    forall g, c | g in L.genes && 0 <= c < P.Length1
      ensures P[geneToIndex[g], c] == if c < next then Prefix(L, i + 1, g)[c] else 0.0
    {
      if offset <= c < next && geneToIndex[g] in Rows(geneToIndex, tyGenes) {
        var h :| h in tyGenes && geneToIndex[h] == geneToIndex[g];
        assert h == g;
      }
    }
  }

  /** Once every cohort is placed, each kept gene's row is its merged row. */
  lemma PlacedIsMerged(P: array2<real>, L: Layout, geneToIndex: map<string, nat>, n: nat)
    requires Shaped(L) && RowIndex(geneToIndex, L.genes, P.Length0)
    requires P.Length1 == n && TotalColumns(L.weights) <= n
    requires Placed(P, L, geneToIndex, |L.weights|)
    ensures forall g, c :: g in L.genes && 0 <= c < n ==> P[geneToIndex[g], c] == MergedRow(L, g, n)[c]
  {
  }

  /** The array minimum over positive cells is the merged-row minimum. */
  lemma MinPositiveIsMerged(P: array2<real>, L: Layout, geneToIndex: map<string, nat>, n: nat, found: bool, least: real)
    requires Shaped(L) && RowIndex(geneToIndex, L.genes, P.Length0)
    requires P.Length1 == n && TotalColumns(L.weights) <= n
    requires forall g, c :: g in L.genes && 0 <= c < n ==> P[geneToIndex[g], c] == MergedRow(L, g, n)[c]
    requires forall r, c :: 0 <= r < P.Length0 && 0 <= c < P.Length1 && r !in Rows(geneToIndex, L.genes) ==> P[r, c] == 0.0
    requires found <==> exists r, c :: 0 <= r < P.Length0 && 0 <= c < P.Length1 && P[r, c] > 0.0
    requires found ==> least > 0.0
    requires found ==> exists r, c :: 0 <= r < P.Length0 && 0 <= c < P.Length1 && P[r, c] == least
    requires found ==> forall r, c :: 0 <= r < P.Length0 && 0 <= c < P.Length1 && P[r, c] > 0.0 ==> least <= P[r, c]
    ensures found <==> HasPositive(L, n)
    ensures found ==> IsMinPositive(L, n, least)
  {
    if found {
      var r, c :| 0 <= r < P.Length0 && 0 <= c < P.Length1 && P[r, c] == least;
      var g :| g in L.genes && geneToIndex[g] == r;
      assert MergedRow(L, g, n)[c] == least;
    }
    if HasPositive(L, n) {
      var g, c :| g in L.genes && 0 <= c < n && MergedRow(L, g, n)[c] > 0.0;
      assert P[geneToIndex[g], c] > 0.0;
    }
  }
}
