/** Permutation file grouper: `get_permuted_files` (find_exclusive_sets.py,
    lines 49-58). Each directory's listing is turned into paths and cut to
    `num_permutations`; `zip` then forms the rounds, round r holding the r-th
    file of every directory. The directory listings (`os.listdir`) are
    inputs. */
module PermutationGrouper {
  import opened Common

  datatype GroupError = WrongFileCount(directory: nat)

  /** Python's `xs[:k]`; a negative `k` drops `-k` elements from the end. */
  function SliceTo<T>(xs: seq<T>, k: int): (r: seq<T>)
    ensures |r| == if k >= 0 then (if k <= |xs| then k else |xs|) else (if |xs| + k >= 0 then |xs| + k else 0)
    ensures r == xs[..|r|]
  {
    if k >= 0 then (if k <= |xs| then xs[..k] else xs)
    else if |xs| + k >= 0 then xs[..|xs| + k]
    else []
  }

  /** `'{}/{}'.format(dir, f)` for every listed file `f`. */
  function Paths(dir: string, files: seq<string>): (paths: seq<string>)
    ensures |paths| == |files|
  {
    seq(|files|, j requires 0 <= j < |files| => dir + "/" + files[j])
  }

  /** The length of the shortest list; 0 when there is none. */
  function MinLength(lists: seq<seq<string>>): (k: nat)
    ensures forall d :: 0 <= d < |lists| ==> k <= |lists[d]|
    ensures |lists| > 0 ==> exists d :: 0 <= d < |lists| && k == |lists[d]|
    ensures |lists| == 0 ==> k == 0
  {
    if |lists| == 0 then 0
    else if |lists| == 1 then |lists[0]|
    else
      var rest := MinLength(lists[1..]);
      assert forall d :: 1 <= d < |lists| ==> lists[d] == lists[1..][d - 1];
      if |lists[0]| <= rest then |lists[0]| else rest
  }

  /** `zip(*lists)`: one round per index below the shortest length, round r
      holding the r-th element of every list in list order. */
  function Zip(lists: seq<seq<string>>): (rounds: seq<seq<string>>)
    ensures |rounds| == MinLength(lists)
    ensures forall r :: 0 <= r < |rounds| ==> |rounds[r]| == |lists|
    ensures forall r, d :: 0 <= r < |rounds| && 0 <= d < |lists| ==> rounds[r][d] == lists[d][r]
  {
    seq(MinLength(lists), r requires 0 <= r < MinLength(lists) =>
      seq(|lists|, d requires 0 <= d < |lists| => lists[d][r]))
  }

  /** What the loop of lines 52-55 builds: per directory, its paths cut to
      `numPermutations`. */
  function PermutedLists(dirs: seq<string>, listings: seq<seq<string>>, numPermutations: int): seq<seq<string>>
    requires |listings| == |dirs|
  {
    seq(|dirs|, d requires 0 <= d < |dirs| => SliceTo(Paths(dirs[d], listings[d]), numPermutations))
  }

  /** The loop of lines 51-55. */
  method CollectPermutedLists(dirs: seq<string>, listings: seq<seq<string>>, numPermutations: int)
    returns (lists: seq<seq<string>>)
    requires |listings| == |dirs|
    ensures lists == PermutedLists(dirs, listings, numPermutations)
  {
    lists := [];
    for d := 0 to |dirs|
      invariant lists == PermutedLists(dirs[..d], listings[..d], numPermutations)
    {
      var paths := Paths(dirs[d], listings[d]);
      lists := lists + [SliceTo(paths, numPermutations)];
    }
    assert dirs[..|dirs|] == dirs && listings[..|listings|] == listings;
  }

  /** `get_permuted_files` as written: the assertion of line 56 is applied to
      a generator object, which is always true, so `zip` silently drops every
      round past the shortest list. The rounds pair the r-th file of every
      directory, and there are as many as the shortest cut list. */
  method GroupPermutedFilesAsWritten(dirs: seq<string>, listings: seq<seq<string>>, numPermutations: int)
    returns (rounds: seq<seq<string>>)
    requires |listings| == |dirs|
    ensures forall d :: 0 <= d < |dirs| ==> |rounds| <= |SliceTo(listings[d], numPermutations)|
    ensures |dirs| > 0 ==> exists d :: 0 <= d < |dirs| && |rounds| == |SliceTo(listings[d], numPermutations)|
    ensures |dirs| == 0 ==> rounds == []
    ensures numPermutations >= 0 ==> |rounds| <= numPermutations
    ensures forall r, d :: 0 <= r < |rounds| && 0 <= d < |dirs| ==>
              r < |listings[d]| && |rounds[r]| == |dirs| && rounds[r][d] == dirs[d] + "/" + listings[d][r]
  {
    var lists := CollectPermutedLists(dirs, listings, numPermutations);
    rounds := Zip(lists);
    assert forall d :: 0 <= d < |dirs| ==> |lists[d]| == |SliceTo(listings[d], numPermutations)|;
    if |dirs| > 0 && numPermutations >= 0 {
      assert |rounds| <= |lists[0]|;
    }
    forall r, d | 0 <= r < |rounds| && 0 <= d < |dirs|
      ensures rounds[r][d] == dirs[d] + "/" + listings[d][r]
    {
      assert rounds[r][d] == lists[d][r];
    }
  }

  /** `get_permuted_files` with the check of line 56 made to work: every
      directory must supply exactly `numPermutations` files after the cut;
      otherwise the grouping is an error naming the first directory that
      does not. */
  method GroupPermutedFiles(dirs: seq<string>, listings: seq<seq<string>>, numPermutations: int)
    returns (result: Result<seq<seq<string>>, GroupError>)
    requires |listings| == |dirs|
    ensures result.Ok? <==> forall d :: 0 <= d < |dirs| ==> 0 <= numPermutations <= |listings[d]|
    ensures result.Err? ==> var d := result.error.directory;
              && d < |dirs| && !(0 <= numPermutations <= |listings[d]|)
              && forall d' :: 0 <= d' < d ==> 0 <= numPermutations <= |listings[d']|
    ensures result.Ok? ==> |result.value| == (if |dirs| == 0 then 0 else numPermutations)
    ensures result.Ok? ==> forall r, d :: 0 <= r < |result.value| && 0 <= d < |dirs| ==>
              |result.value[r]| == |dirs| && result.value[r][d] == dirs[d] + "/" + listings[d][r]
  {
    var lists := CollectPermutedLists(dirs, listings, numPermutations);
    for d := 0 to |dirs|
      invariant forall d' :: 0 <= d' < d ==> 0 <= numPermutations <= |listings[d']|
    {
      assert |lists[d]| == numPermutations <==> 0 <= numPermutations <= |listings[d]| by {
        assert lists[d] == SliceTo(Paths(dirs[d], listings[d]), numPermutations);
      }
      if |lists[d]| != numPermutations {
        result := Err(WrongFileCount(d));
        assert result.error.directory == d;
        return;
      }
    }
    var rounds := Zip(lists);
    if |dirs| > 0 {
      assert |rounds| == numPermutations by {
        var d :| 0 <= d < |dirs| && |rounds| == |lists[d]|;
      }
    }
    forall r, d | 0 <= r < |rounds| && 0 <= d < |dirs|
      ensures rounds[r][d] == dirs[d] + "/" + listings[d][r]
    {
      assert rounds[r][d] == lists[d][r];
    }
    result := Ok(rounds);
  }

  /** As written, two directories with 2 and 1 files and `num_permutations = 2`
      give a single round, where the line-56 check meant to reject them. */
  lemma AsWrittenDropsRounds()
    ensures var lists := PermutedLists(["a", "b"], [["x", "y"], ["z"]], 2);
            |Zip(lists)| == 1 && |lists[0]| == 2
  {
    var lists := PermutedLists(["a", "b"], [["x", "y"], ["z"]], 2);
    assert |lists[0]| == 2 && |lists[1]| == 1;
  }
}
