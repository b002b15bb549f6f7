# Cross-cohort mutual-exclusivity search: a verified model of its core

This project models the core of `find_exclusive_sets.py` in Dafny. The script
searches for sets of genes whose mutations are mutually exclusive across
patients, pooling several cancer cohorts. The model covers four parts.

- **Aligner** (`aligner.dfy`, module `Aligner`, lines 90-115). It folds the
  cohorts into one gene set, one patient set and one gene -> case-set map, and
  keeps the per-cohort gene lists and local gene -> row maps. It then drops
  genes mutated in fewer than `min_frequency` patients. Finally it numbers the
  surviving genes 0..N-1 in sorted order. The fold is a function (`Fold`,
  `AlignSpec`); the loops of `run` are methods (`MergeCaseSets`, `Align`)
  proved equal to it. Python's string order and `sorted` on a set live in
  `lex.dfy` (module `Lex`).
- **Weight matrix merger** (`weights.dfy`, module `WeightMerger`, lines
  60-76). It copies each cohort's gene x patient weight array into
  consecutive column blocks of one global `array2<real>`. It then replaces
  every exact zero with the smallest positive cell. The merged row of each
  gene is specified by a function (`MergedRow`); the imperative merger is
  proved against it.
- **Permutation file grouper** (`permutations.dfy`, module
  `PermutationGrouper`, lines 49-58). It turns per-directory listings into
  rounds, where round r holds the r-th file of every directory. It is
  modelled as written and as evidently intended.
- **Argument checks and dispatch** (`dispatch.dfy`, module `Dispatch`, lines
  80-84 and 136-160). This covers the consistency checks, the choice of
  Enumerate or MCMC, and the Enumerate candidate list, which holds every
  k-subset of the kept genes exactly once (line 141).

`common.dfy` holds the shared `Result` type and the view of a sequence as a set.

The Permutational/MCMC check is at line 82, before the cohort-loading loop
at line 92; the model makes it before any data is read.

## Model

| member | source | states |
|---|---|---|
| Lex.Least | find_exclusive_sets.py:114 | the string it picks is in the set and sorts strictly before every other member |
| Lex.Sorted | find_exclusive_sets.py:114 | `sorted(genes)` holds exactly the members of the set, each once, in strictly increasing Python string order |
| Aligner.LocalIndex | find_exclusive_sets.py:106 | `dict(zip(type_genes, range(...)))` has the listed genes as keys and sends each to a position holding that gene; a repeated gene keeps its last position |
| Aligner.LocalIndexOfDistinct | find_exclusive_sets.py:106 | for a list without repeats, the j-th gene is sent to j |
| Aligner.MergeCaseSets | find_exclusive_sets.py:102 | the inner loop leaves, for every gene of either map, the union of its old and new case sets |
| Aligner.Align | find_exclusive_sets.py:90-115 | the cohort loop, the filter and the numbering produce exactly the reduction `AlignSpec` over the cohort list |
| Aligner.FoldUnions | find_exclusive_sets.py:98-99 | a gene (patient) is in the global set iff some cohort lists it |
| Aligner.FoldCases | find_exclusive_sets.py:102 | a gene has a case set iff some cohort maps it, and a patient is in it iff some cohort records that patient for that gene |
| Aligner.FoldRecords | find_exclusive_sets.py:105-106 | one gene list and one local gene -> position map per cohort, in input order |
| Aligner.KeptGenes | find_exclusive_sets.py:111-113 | a gene is kept iff some cohort lists it and its merged case set has at least `min_frequency` patients; kept case sets are the merged ones; the gene set is the kept map's key set |
| Aligner.GeneIndexAt | find_exclusive_sets.py:114 | the i-th sorted gene gets index i, and the gene with index k is the k-th sorted gene |
| Aligner.GeneIndexBijection | find_exclusive_sets.py:114 | `geneToIndex` is a bijection from the kept genes onto 0..N-1 that preserves sorted order |
| Aligner.SortsBeforeIsPrefix | find_exclusive_sets.py:114 | the genes sorting before g are exactly the sorted genes in front of g's index |
| Aligner.GeneIndexIsRank | find_exclusive_sets.py:114 | a kept gene's index equals the number of kept genes that sort before it |
| Aligner.EmptyCohortChangesNothing | find_exclusive_sets.py:92-114 | a cohort with no genes and no mutations leaves the kept genes, case sets, numbering and gene count unchanged and only adds its patients and an empty record |
| Aligner.DisjointPatientCount | find_exclusive_sets.py:108 | with duplicate-free, pairwise disjoint patient lists, `num_patients` is the sum of the cohort patient counts |
| WeightMerger.PrefixAt | find_exclusive_sets.py:71-72 | column `Offset(i)+j` of the blocks placed so far is column j of cohort i's block |
| WeightMerger.BlockPlacement | find_exclusive_sets.py:63-72 | in each kept gene's merged row, the cell at `Offset(i)+j` is cohort i's own cell for that gene, or 0 when cohort i does not list it |
| WeightMerger.PastBlocks | find_exclusive_sets.py:62 | columns past the last block stay 0 |
| WeightMerger.ColumnOwner | find_exclusive_sets.py:63-72 | every column below the total lies in some cohort's block |
| WeightMerger.ColumnOwnerUnique | find_exclusive_sets.py:63-72 | no column lies in two cohorts' blocks |
| WeightMerger.OffsetMonotone | find_exclusive_sets.py:72 | `patient_index` never decreases from one cohort to the next |
| WeightMerger.BlocksFitDisjointCohorts | find_exclusive_sets.py:125 | with one weight column per cohort patient and disjoint, duplicate-free patient lists, the blocks fill exactly `num_patients` columns |
| WeightMerger.CopyRow | find_exclusive_sets.py:71 | one row of the slice assignment writes the cohort row at the block offset and changes no other cell |
| WeightMerger.CopyCohort | find_exclusive_sets.py:68-71 | every kept gene of the cohort gets its cohort row in the cohort's block; cells outside those rows and that block are unchanged |
| WeightMerger.PlaceCohort | find_exclusive_sets.py:64-72 | after cohort i, each kept gene's row holds the first i+1 blocks followed by zeros, and rows of no kept gene are still zero |
| WeightMerger.PlaceAll | find_exclusive_sets.py:62-72 | after the cohort loop, every kept gene's row is its merged row and every other row is zero |
| WeightMerger.PlacedIsMerged | find_exclusive_sets.py:62-72 | once every cohort is placed, each kept gene's array row equals its merged row |
| WeightMerger.MinPositiveCell | find_exclusive_sets.py:75 | `np.min(P[P > 0])`: reports whether some cell is positive and, if so, returns a positive cell no larger than any other positive cell |
| WeightMerger.MinPositiveIsMerged | find_exclusive_sets.py:75 | the array's smallest positive cell is the smallest positive cell of the merged rows, and one exists iff a merged cell is positive |
| WeightMerger.FillZeros | find_exclusive_sets.py:75 | `P[P == 0] = least`: exactly the zero cells become `least`; all other cells keep their value |
| WeightMerger.FilledRowsLoaded | find_exclusive_sets.py:75-76 | reading the filled rows out gives one row of n cells per kept gene, with no zero cell, nonzero merged cells kept and zero cells set to the smallest positive merged cell |
| WeightMerger.Pseudocount | find_exclusive_sets.py:74-76 | fails exactly when no merged cell is positive; otherwise returns the rows described in `LoadedRows` |
| WeightMerger.LoadWeights | find_exclusive_sets.py:60-76 | fails exactly when no merged cell is positive; otherwise maps every kept gene to a row of n cells, none zero, each equal to its merged cell or, where that is 0, to the smallest positive merged cell |
| PermutationGrouper.SliceTo | find_exclusive_sets.py:55 | `xs[:k]` is a prefix of xs whose length follows Python's slice rule, including negative k |
| PermutationGrouper.Paths | find_exclusive_sets.py:54 | one path per listed file |
| PermutationGrouper.MinLength | find_exclusive_sets.py:58 | the shortest list's length: no list is shorter and some list has it |
| PermutationGrouper.Zip | find_exclusive_sets.py:58 | `zip(*lists)` has as many rounds as the shortest list, and round r holds the r-th element of every list in list order |
| PermutationGrouper.CollectPermutedLists | find_exclusive_sets.py:51-55 | the loop builds, per directory in order, its paths cut to `num_permutations` |
| PermutationGrouper.GroupPermutedFilesAsWritten | find_exclusive_sets.py:49-58 | as written, there are as many rounds as the shortest cut listing (never more than `num_permutations`), and round r pairs the r-th file of every directory |
| PermutationGrouper.AsWrittenDropsRounds | find_exclusive_sets.py:56-58 | directories with 2 and 1 files and `num_permutations = 2` give one round, although the first directory has 2 files |
| PermutationGrouper.GroupPermutedFiles | find_exclusive_sets.py:49-58 | succeeds iff every directory has at least `num_permutations >= 0` files, otherwise names the first directory that has too few; on success there are exactly `num_permutations` rounds (none when there are no directories), round r pairing the r-th file of every directory |
| Dispatch.CheckArgumentsAsWritten | find_exclusive_sets.py:80-84 | as written, every Permutational and every Weighted run stops on a missing attribute |
| Dispatch.CheckArguments | find_exclusive_sets.py:80-84 | accepts a run iff a Permutational run has one permuted-matrix directory per mutation file and no MCMC, and a Weighted run has one weight file per mutation file |
| Dispatch.AsWrittenRejectsConsistentRuns | find_exclusive_sets.py:80-84 | every consistent Permutational or Weighted run is accepted by the corrected checks and rejected by the checks as written |
| Dispatch.SelectStrategy | find_exclusive_sets.py:139-160 | `Enumerate` and `MCMC` are recognised; any other name is the not-implemented error naming it |
| Dispatch.CombinationsSound | find_exclusive_sets.py:141 | every tuple `combinations` yields has k distinct genes from the list |
| Dispatch.CombinationsComplete | find_exclusive_sets.py:141 | every k-subset of the list is yielded |
| Dispatch.CombinationsDistinct | find_exclusive_sets.py:141 | no subset is yielded twice |
| Dispatch.CombinationsCount | find_exclusive_sets.py:141-142 | `num_sets` is C(n, k) by Pascal's rule |
| Dispatch.EnumerateCandidates | find_exclusive_sets.py:141-142 | the candidate list holds each k-subset of the kept genes exactly once and nothing else, C(N, k) entries |
| Dispatch.Dispatch | find_exclusive_sets.py:139-160 | Enumerate tests every subset of the first requested size (error when no size is given); MCMC hands all sizes to the sampler; any other name is an error; the test mode is passed on unchanged |
| Dispatch.LookUpMethodAsWritten | find_exclusive_sets.py:136 | as written, the method lookup fails for every Permutational run |
| Dispatch.AsWrittenNeverSearchesPermutational | find_exclusive_sets.py:136 | as written, no Permutational run reaches a search, whatever its arguments |
| Aligner.Step | find_exclusive_sets.py:98-106 | no contract of its own: one turn of the cohort loop; `FoldUnions`, `FoldCases` and `FoldRecords` state what the turns add up to |
| Aligner.Fold | find_exclusive_sets.py:92-106 | no contract of its own: the cohort loop as a left fold; `FoldUnions` (gene and patient unions), `FoldCases` (merged case sets) and `FoldRecords` (per-cohort lists and local indices) state its meaning |
| Aligner.Filter | find_exclusive_sets.py:111 | no contract of its own: `KeptGenes` states that a gene is kept iff some cohort lists it and it is mutated in at least `min_frequency` patients |
| Aligner.GeneIndex | find_exclusive_sets.py:114 | no contract of its own: `GeneIndexBijection` and `GeneIndexIsRank` state that it numbers the kept genes 0..N-1 one-to-one, in sorted order, each gene getting its rank |
| WeightMerger.Offset | find_exclusive_sets.py:72 | no contract of its own: the running `patient_index`; `OffsetMonotone`, `BlockPlacement` and `OffsetIsTotalPatients` state that the blocks are consecutive and end at the total patient count |
| Dispatch.Combinations | find_exclusive_sets.py:141 | no contract of its own: `CombinationsSound`, `CombinationsComplete`, `CombinationsDistinct` and `CombinationsCount` state that it yields each k-subset once, C(n, k) in all |
| Dispatch.RunAsWritten | find_exclusive_sets.py:80-160 | as written, a run reaches a search only if its arguments are consistent and it is not Permutational, and then it makes the same call as the corrected run |
| Dispatch.Run | find_exclusive_sets.py:80-160 | a run reaches a search iff its arguments are consistent and the dispatch succeeds; a consistent run makes exactly the dispatch's call (so Enumerate tests each k-subset of the kept genes once, MCMC gets all sizes); it keeps the test mode; a Permutational run never reaches the sampler, and Permutational with MCMC always fails |

## Left out

- Command-line parsing (`get_parser`, lines 15-47) is not modelled. The parsed arguments are a datatype. The parser's `choices` restrictions are taken as given.
- Reading files is not modelled: `load_mutation_data`, `np.load` and `os.listdir`. Their results (cohort records, weight arrays, directory listings) are inputs.
- The statistical tests, the sampler and the output writers are not part of this model. They are `permutational_test`, `test_sets`, `mcmc`, `output_enumeration_table` and `output_mcmc`. A dispatch yields the call it would make (`SearchCall`), not its results.
- Parallelism (`num_cores`), the MCMC random seed taken from the clock, and progress printing (`verbose`) are not modelled.
- The iteration order of a Python set, used by `combinations(genes, k)` at line 141, is an input `order`. It is any duplicate-free list of the kept genes.
- Line 115 (`gene_indices`) computes a value nothing uses, so it is not modelled.
- `load_weight_files` reads `genes` at lines 68 and 76, and `run` passes `weights_files` at line 125; neither name is defined in that scope. The model passes the kept gene set and one weight array per cohort explicitly. `-wf` takes a single path in the parser; the model follows the checks at line 84 and the loop at line 64, which expect one weight file per cohort.
- The weight arrays hold mathematical reals, not 64-bit floats.
- The empty `np.min` of line 75, which raises an error, is modelled as the `NoPositiveWeight` result.
- The line-136 method lookup for Weighted and Unweighted runs always succeeds in the model, because the parser restricts `--method` to the known names. The choice of method is not modelled.
- The Permutational parameters reaching `permutational_test` (line 147) and the weights reaching the tests are not part of `SearchCall`. Only the test mode and the candidate sets or sizes are.
- Dispatch.SelectStrategy: as written, line 160 formats `args.strategy`, which the parser does not define (it defines `search_strategy`), so the source raises an AttributeError there instead of the NotImplementedError. The model raises the intended error naming the strategy. The branch is unreachable through the parser's `choices` for `--search_strategy`.
- WeightMerger.LoadWeights: its preconditions exclude two error paths of line 71. When cohorts share patients, the blocks run past the global patient count (`TotalColumns(weights) > n`), the slice of `P` is truncated and numpy raises a shape-mismatch ValueError, except that a one-column block starting at or past column n broadcasts into the empty slice and is silently dropped. When a weight array has fewer rows than its cohort's gene list (not `Shaped`), indexing it raises an IndexError. The model leaves both errors out.
- Dispatch.RunAsWritten: line 131 reads `args.permuted_matrix_directories`, undefined like line 81, before the lookup at line 136. The model reads it as `permuted_matrix_files`, so that the line-136 defect can be shown.
- Dispatch.Run: it models the path after alignment only. The loading steps between line 84 and line 139 are the `Aligner` and `WeightMerger` members and are not chained into it.

## Findings

| source | as written | input that shows it | evidently intended | confidence | as-written member | corrected member |
|---|---|---|---|---|---|---|
| find_exclusive_sets.py:56 | `assert` is applied to a generator expression, which is always true, so listings of the wrong length pass and `zip` silently drops rounds | directories `a` with files `x`, `y` and `b` with file `z`, `num_permutations = 2`: one round, no error | every directory supplies exactly `num_permutations` files, otherwise the run stops | not executed | PermutationGrouper.GroupPermutedFilesAsWritten, PermutationGrouper.AsWrittenDropsRounds | PermutationGrouper.GroupPermutedFiles |
| find_exclusive_sets.py:81-84 | the checks read `args.permuted_matrix_directories`, `args.strategy` and `args.weights_files`, and line 131 reads `args.permuted_matrix_directories` again; the parser defines none of them | any Permutational run, e.g. one mutation file, one permuted-matrix directory, strategy Enumerate: stops at line 81 | compare counts using `permuted_matrix_files`, `search_strategy` and `weights_file`, with `-wf` (line 42) taking a list of paths (`nargs='*'`) so that `len(args.weights_file)` counts files, not the characters of one path | not executed | Dispatch.CheckArgumentsAsWritten, Dispatch.AsWrittenRejectsConsistentRuns | Dispatch.CheckArguments |
| find_exclusive_sets.py:136 | `nameToMethod[args.method]` runs for every test, but the Permutational sub-command has no `--method` | any Permutational run with strategy Enumerate whose checks pass, with lines 81 and 131 reading `permuted_matrix_files`: stops at line 136 | look the method up only where it is bound, as line 150 does | not executed | Dispatch.LookUpMethodAsWritten, Dispatch.AsWrittenNeverSearchesPermutational | Dispatch.Run |
