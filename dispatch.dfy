/** The argument checks at the top of `run` (find_exclusive_sets.py, lines
    80-84), the choice of search strategy (lines 139, 155, 159-160) and the
    candidate list that Enumerate tests (line 141). The statistical tests, the
    sampler and the output writers are external; a dispatch yields the call
    it would make. */
module Dispatch {
  import opened Common

  datatype TestMode = Permutational | Weighted | Unweighted
  datatype Strategy = Enumerate | MCMC

  /** The parsed command line, as far as the checks and the dispatch read it.
      `permutedMatrixFiles` belongs to the Permutational sub-command and
      `weightsFile` (one weight file per cohort) to the Weighted one. */
  datatype Args = Args(
    mutationFiles: seq<string>,
    test: TestMode,
    searchStrategy: string,
    geneSetSizes: seq<nat>,
    permutedMatrixFiles: seq<string>,
    weightsFile: seq<string>)

  datatype RunError =
    | MissingAttribute(name: string)
    | PermutationDirectoryCountMismatch
    | PermutationalWithMcmc
    | WeightsFileCountMismatch
    | StrategyNotImplemented(name: string)
    | NoGeneSetSize

  /** The call `run` makes into the search engine. */
  datatype SearchCall =
    | TestEnumerated(test: TestMode, sets: seq<set<string>>)
    | RunMcmc(test: TestMode, sizes: seq<nat>)

  // ---------------------------------------------------------------------------
  // Argument checks

  /** Lines 80-84 as written: they read `permuted_matrix_directories`,
      `strategy` and `weights_files`, none of which the parser defines, so
      every Permutational and every Weighted run stops on the first of them. */
  function CheckArgumentsAsWritten(args: Args): (r: Result<(), RunError>)
    ensures r.Err? <==> args.test != Unweighted
  {
    match args.test
    case Permutational => Err(MissingAttribute("permuted_matrix_directories"))
    case Weighted => Err(MissingAttribute("weights_files"))
    case Unweighted => Ok(())
  }

  /** What the checks of lines 80-84 require of a run. */
  ghost predicate Consistent(args: Args)
  {
    && (args.test == Permutational ==>
          |args.mutationFiles| == |args.permutedMatrixFiles| && args.searchStrategy != "MCMC")
    && (args.test == Weighted ==> |args.mutationFiles| == |args.weightsFile|)
  }

  /** Lines 80-84 reading the parser's own names (`permuted_matrix_files`,
      `search_strategy`, `weights_file`): one permuted-matrix directory per
      mutation file and no MCMC for a Permutational run, one weight file per
      mutation file for a Weighted run. */
  function CheckArguments(args: Args): (r: Result<(), RunError>)
    ensures r.Ok? <==> Consistent(args)
    ensures r.Err? ==> args.test != Unweighted
    ensures r == Err(PermutationalWithMcmc) ==> args.test == Permutational && args.searchStrategy == "MCMC"
  {
    match args.test
    case Permutational =>
      if |args.mutationFiles| != |args.permutedMatrixFiles| then Err(PermutationDirectoryCountMismatch)
      else if args.searchStrategy == "MCMC" then Err(PermutationalWithMcmc)
      else Ok(())
    case Weighted =>
      if |args.mutationFiles| != |args.weightsFile| then Err(WeightsFileCountMismatch) else Ok(())
    case Unweighted => Ok(())
  }

  /** Every consistent Permutational or Weighted run that the corrected
      checks accept is one the checks as written reject. */
  lemma AsWrittenRejectsConsistentRuns(args: Args)
    requires Consistent(args) && args.test != Unweighted
    ensures CheckArguments(args).Ok? && CheckArgumentsAsWritten(args).Err?
  {
  }

  // ---------------------------------------------------------------------------
  // Strategy

  /** Lines 139, 155 and 159-160: Enumerate and MCMC are the strategies;
      any other name is an error. */
  function SelectStrategy(name: string): (r: Result<Strategy, RunError>)
    ensures r == Ok(Enumerate) <==> name == "Enumerate"
    ensures r == Ok(MCMC) <==> name == "MCMC"
    ensures r.Err? ==> r.error == StrategyNotImplemented(name)
  {
    if name == "Enumerate" then Ok(Enumerate)
    else if name == "MCMC" then Ok(MCMC)
    else Err(StrategyNotImplemented(name))
  }

  // ---------------------------------------------------------------------------
  // The Enumerate candidate list

  /** Pascal's rule for the binomial coefficient C(n, k). */
  function Binomial(n: nat, k: nat): nat
  {
    if k == 0 then 1 else if n == 0 then 0 else Binomial(n - 1, k - 1) + Binomial(n - 1, k)
  }

  function WithEach(x: string, sets: seq<set<string>>): (r: seq<set<string>>)
    ensures |r| == |sets| && forall i :: 0 <= i < |sets| ==> r[i] == {x} + sets[i]
  {
    seq(|sets|, i requires 0 <= i < |sets| => {x} + sets[i])
  }

  /** `combinations(order, k)`, each tuple taken as a set, in the order Python
      yields them: those with the first element, then those without it. */
  function Combinations(order: seq<string>, k: nat): seq<set<string>>
    decreases |order|
  {
    if k == 0 then [{}]
    else if order == [] then []
    else WithEach(order[0], Combinations(order[1..], k - 1)) + Combinations(order[1..], k)
  }

  lemma DistinctTail(order: seq<string>)
    requires Distinct(order) && order != []
    ensures Distinct(order[1..]) && order[0] !in Elems(order[1..])
  {
    forall j | 0 <= j < |order| - 1 ensures order[1..][j] != order[0] {
      assert order[1..][j] == order[j + 1];
    }
  }

  lemma AddNew(x: string, t: set<string>, pool: set<string>)
    requires t <= pool && x !in pool
    ensures |{x} + t| == |t| + 1 && {x} + t <= {x} + pool
  {
  }

  /** Every candidate has k genes, all from the list. */
  lemma {:induction false} CombinationsSound(order: seq<string>, k: nat)
    requires Distinct(order)
    ensures forall s :: s in Combinations(order, k) ==> |s| == k && s <= Elems(order)
    decreases |order|
  {
    if k > 0 && order != [] {
      var x, rest := order[0], order[1..];
      DistinctTail(order);
      CombinationsSound(rest, k - 1);
      CombinationsSound(rest, k);
      assert Elems(order) == {x} + Elems(rest);
      var with := Combinations(rest, k - 1);
      forall s | s in WithEach(x, with)
        ensures |s| == k && s <= Elems(order)
      {
        var i :| 0 <= i < |with| && s == WithEach(x, with)[i];
        assert with[i] in with;
        AddNew(x, with[i], Elems(rest));
      }
    }
  }

  /** Every k-subset of the list is a candidate. */
  lemma {:induction false} CombinationsComplete(order: seq<string>, k: nat, s: set<string>)
    requires Distinct(order) && s <= Elems(order) && |s| == k
    ensures s in Combinations(order, k)
    decreases |order|
  {
    if k == 0 {
      assert s == {};
    } else if order == [] {
      assert false;
    } else {
      var x, rest := order[0], order[1..];
      DistinctTail(order);
      assert Elems(order) == {x} + Elems(rest);
      if x in s {
        var t := s - {x};
        CombinationsComplete(rest, k - 1, t);
        var i :| 0 <= i < |Combinations(rest, k - 1)| && Combinations(rest, k - 1)[i] == t;
        assert WithEach(x, Combinations(rest, k - 1))[i] == s;
      } else {
        CombinationsComplete(rest, k, s);
      }
    }
  }

  lemma WithEachDistinct(x: string, sets: seq<set<string>>)
    requires Distinct(sets) && forall t :: t in sets ==> x !in t
    ensures Distinct(WithEach(x, sets))
  {
    var r := WithEach(x, sets);
    forall i, j | 0 <= i < j < |r| ensures r[i] != r[j] {
      assert sets[i] in sets && sets[j] in sets;
      assert r[i] - {x} == sets[i] && r[j] - {x} == sets[j];
    }
  }

  lemma ConcatDistinct(a: seq<set<string>>, b: seq<set<string>>)
    requires Distinct(a) && Distinct(b) && forall s :: s in a ==> s !in b
    ensures Distinct(a + b)
  {
    var ab := a + b;
    forall i, j | 0 <= i < j < |ab| ensures ab[i] != ab[j] {
      if j < |a| {
        assert ab[i] == a[i] && ab[j] == a[j];
      } else if i < |a| {
        assert ab[i] == a[i] && a[i] in a && ab[j] == b[j - |a|];
      } else {
        assert ab[i] == b[i - |a|] && ab[j] == b[j - |a|];
      }
    }
  }

  /** No candidate drawn from the tail holds the head. */
  lemma AvoidsFirst(order: seq<string>, k: nat)
    requires Distinct(order) && order != []
    ensures forall t :: t in Combinations(order[1..], k) ==> order[0] !in t
  {
    DistinctTail(order);
    CombinationsSound(order[1..], k);
  }

  lemma WithEachSeparated(x: string, with: seq<set<string>>, without: seq<set<string>>)
    requires forall t :: t in without ==> x !in t
    ensures forall s :: s in WithEach(x, with) ==> s !in without
  {
    forall s | s in WithEach(x, with) ensures s !in without {
      var i :| 0 <= i < |with| && s == WithEach(x, with)[i];
      assert x in s;
    }
  }

  /** No candidate is listed twice. */
  lemma {:induction false} CombinationsDistinct(order: seq<string>, k: nat)
    requires Distinct(order)
    ensures Distinct(Combinations(order, k))
    decreases |order|
  {
    if k > 0 && order != [] {
      var x, rest := order[0], order[1..];
      DistinctTail(order);
      var with, without := Combinations(rest, k - 1), Combinations(rest, k);
      CombinationsDistinct(rest, k - 1);
      CombinationsDistinct(rest, k);
      AvoidsFirst(order, k - 1);
      AvoidsFirst(order, k);
      WithEachDistinct(x, with);
      WithEachSeparated(x, with, without);
      ConcatDistinct(WithEach(x, with), without);
    }
  }

  /** There are C(n, k) candidates for a list of n genes. */
  lemma {:induction false} CombinationsCount(order: seq<string>, k: nat)
    ensures |Combinations(order, k)| == Binomial(|order|, k)
    decreases |order|
  {
    if k > 0 && order != [] {
      CombinationsCount(order[1..], k - 1);
      CombinationsCount(order[1..], k);
    }
  }

  /** Line 141: the Enumerate candidates over the kept genes, with `order`
      the iteration order of the gene set. Each k-subset of the genes occurs
      exactly once, there are C(|genes|, k) of them, and every one has k
      genes. */
  function EnumerateCandidates(genes: set<string>, order: seq<string>, k: nat): (sets: seq<set<string>>)
    requires Distinct(order) && Elems(order) == genes
    ensures forall s :: s in sets ==> |s| == k && s <= genes
    ensures forall s :: s <= genes && |s| == k ==> s in sets
    ensures Distinct(sets)
    ensures |sets| == Binomial(|genes|, k)
  {
    CombinationsSound(order, k);
    CombinationsDistinct(order, k);
    CombinationsCount(order, k);
    DistinctCard(order);
    assert forall s :: s <= genes && |s| == k ==> s in Combinations(order, k) by {
      forall s | s <= genes && |s| == k ensures s in Combinations(order, k) {
        CombinationsComplete(order, k, s);
      }
    }
    Combinations(order, k)
  }

  // ---------------------------------------------------------------------------
  // Dispatch

  /** Lines 139-160: Enumerate tests every candidate of the first requested
      size (an empty size list has no first size); MCMC hands all sizes to
      the sampler; any other strategy name is an error. */
  function Dispatch(args: Args, genes: set<string>, order: seq<string>): (r: Result<SearchCall, RunError>)
    requires Distinct(order) && Elems(order) == genes
    ensures r.Ok? ==> r.value.test == args.test
    ensures r.Ok? && r.value.TestEnumerated? ==>
              && args.searchStrategy == "Enumerate" && |args.geneSetSizes| > 0
              && (forall s :: s in r.value.sets <==> s <= genes && |s| == args.geneSetSizes[0])
              && Distinct(r.value.sets)
              && |r.value.sets| == Binomial(|genes|, args.geneSetSizes[0])
    ensures r.Ok? && r.value.RunMcmc? ==> args.searchStrategy == "MCMC" && r.value.sizes == args.geneSetSizes
    ensures r.Err? <==> (args.searchStrategy != "Enumerate" && args.searchStrategy != "MCMC") ||
                        (args.searchStrategy == "Enumerate" && |args.geneSetSizes| == 0)
  {
    match SelectStrategy(args.searchStrategy)
    case Err(e) => Err(e)
    case Ok(Enumerate) =>
      if |args.geneSetSizes| == 0 then Err(NoGeneSetSize)
      else Ok(TestEnumerated(args.test, EnumerateCandidates(genes, order, args.geneSetSizes[0])))
    case Ok(MCMC) => Ok(RunMcmc(args.test, args.geneSetSizes))
  }

  // ---------------------------------------------------------------------------
  // The run after alignment

  /** Line 136 as written: `nameToMethod[args.method]` for every test, but
      only the Weighted and Unweighted sub-commands define `method`. */
  function LookUpMethodAsWritten(args: Args): (r: Result<(), RunError>)
    ensures r.Err? <==> args.test == Permutational
  {
    if args.test == Permutational then Err(MissingAttribute("method")) else Ok(())
  }

  /** The steps of `run` that decide whether a search is made and which: the
      checks of lines 80-84 (read with the parser's names), the method lookup
      of line 136 as written, then the dispatch of lines 139-160. Line 131,
      which reads the same undefined name as line 81, is read as the
      parser's `permuted_matrix_files` here. Only a consistent run that is
      not Permutational reaches a search. */
  function RunAsWritten(args: Args, genes: set<string>, order: seq<string>): (r: Result<SearchCall, RunError>)
    requires Distinct(order) && Elems(order) == genes
    ensures r.Ok? ==> args.test != Permutational && Consistent(args)
    ensures r.Ok? ==> r == Run(args, genes, order)
  {
    match CheckArguments(args)
    case Err(e) => Err(e)
    case Ok(_) =>
      match LookUpMethodAsWritten(args)
      case Err(e) => Err(e)
      case Ok(_) => Dispatch(args, genes, order)
  }

  /** As written, no Permutational run reaches the search, however
      consistent its arguments. */
  lemma AsWrittenNeverSearchesPermutational(args: Args, genes: set<string>, order: seq<string>)
    requires Distinct(order) && Elems(order) == genes
    requires args.test == Permutational
    ensures RunAsWritten(args, genes, order).Err?
  {
  }

  /** The same steps with the method looked up only where a method is bound
      (the Weighted and Unweighted branches, as line 150 does). A run
      proceeds exactly when its arguments are consistent and the dispatch
      succeeds, and a Permutational run never reaches the sampler. */
  function Run(args: Args, genes: set<string>, order: seq<string>): (r: Result<SearchCall, RunError>)
    requires Distinct(order) && Elems(order) == genes
    ensures r.Ok? <==> Consistent(args) && Dispatch(args, genes, order).Ok?
    ensures Consistent(args) ==> r == Dispatch(args, genes, order)
    ensures r.Ok? ==> r.value.test == args.test
    ensures r.Ok? && r.value.RunMcmc? ==> args.test != Permutational
    ensures args.test == Permutational && args.searchStrategy == "MCMC" ==> r.Err?
  {
    match CheckArguments(args)
    case Err(e) => Err(e)
    case Ok(_) => Dispatch(args, genes, order)
  }
}
