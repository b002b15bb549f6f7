/** Lexicographic order on strings, as Python compares `str` values, and the
    sorted sequence of a finite set of strings (what `sorted(genes)` yields). */
module Lex {
  import opened Common

  /** `a < b` on Python strings: compare code points left to right; a proper
      prefix is smaller than the longer string. */
  predicate Less(a: string, b: string)
    decreases |a|
  {
    if |a| == 0 then |b| > 0
    else if |b| == 0 then false
    else if a[0] == b[0] then Less(a[1..], b[1..])
    else a[0] < b[0]
  }

  lemma {:induction false} LessIrreflexive(a: string)
    ensures !Less(a, a)
    decreases |a|
  {
    if |a| > 0 {
      LessIrreflexive(a[1..]);
    }
  }

  lemma {:induction false} LessAsymmetric(a: string, b: string)
    ensures Less(a, b) ==> !Less(b, a)
    decreases |a|
  {
    if |a| > 0 && |b| > 0 && a[0] == b[0] {
      LessAsymmetric(a[1..], b[1..]);
    }
  }

  lemma {:induction false} LessTransitive(a: string, b: string, c: string)
    requires Less(a, b) && Less(b, c)
    ensures Less(a, c)
    decreases |a|
  {
    if |a| > 0 && a[0] == b[0] && b[0] == c[0] {
      LessTransitive(a[1..], b[1..], c[1..]);
    }
  }

  lemma {:induction false} LessTotal(a: string, b: string)
    ensures a == b || Less(a, b) || Less(b, a)
    decreases |a|
  {
    if |a| > 0 && |b| > 0 && a[0] == b[0] {
      LessTotal(a[1..], b[1..]);
      if a[1..] == b[1..] {
        assert a == [a[0]] + a[1..] && b == [b[0]] + b[1..];
      }
    }
  }

  /** The two facts about `Less` that make the least element of a set unique. */
  lemma LessIsStrict()
    ensures forall a: string, b: string :: Less(a, b) ==> !Less(b, a)
  {
    forall a: string, b: string
      ensures Less(a, b) ==> !Less(b, a)
    {
      LessAsymmetric(a, b);
    }
  }

  /** `m` comes strictly before every other element of `s`. */
  predicate IsLeast(m: string, s: set<string>)
  {
    m in s && forall h :: h in s && h != m ==> Less(m, h)
  }

  lemma {:induction false} LeastExists(s: set<string>)
    requires s != {}
    ensures exists m :: IsLeast(m, s)
    decreases |s|
  {
    var x :| x in s;
    if s != {x} {
      var rest := s - {x};
      LeastExists(rest);
      var m :| IsLeast(m, rest);
      LessTotal(x, m);
      if Less(x, m) {
        forall h | h in s && h != x
          ensures Less(x, h)
        {
          if h != m {
            LessTransitive(x, m, h);
          }
        }
        assert IsLeast(x, s);
      } else {
        assert IsLeast(m, s);
      }
    } else {
      assert IsLeast(x, s);
    }
  }

  /** The least string of a non-empty set (the first element `sorted` yields). */
  function Least(s: set<string>): (m: string)
    requires s != {}
    ensures IsLeast(m, s)
  {
    LeastExists(s);
    LessIsStrict();
    var m :| IsLeast(m, s);
    m
  }

  /** Every element comes strictly before every later one. */
  predicate StrictlySorted(xs: seq<string>)
  {
    forall i, j :: 0 <= i < j < |xs| ==> Less(xs[i], xs[j])
  }

  /** Putting the least element in front of a sorted rest keeps it sorted. */
  lemma LeastInFront(m: string, s: set<string>, rest: seq<string>)
    requires IsLeast(m, s) && Elems(rest) == s - {m} && StrictlySorted(rest)
    ensures StrictlySorted([m] + rest)
  {
    var xs := [m] + rest;
    forall i, j | 0 <= i < j < |xs| ensures Less(xs[i], xs[j]) {
      assert xs[j] == rest[j - 1] && rest[j - 1] in Elems(rest);
      if i > 0 {
        assert xs[i] == rest[i - 1];
      }
    }
  }

  /** `sorted(s)` for a set `s` of strings: its elements in increasing order. */
  function Sorted(s: set<string>): (xs: seq<string>)
    ensures |xs| == |s|
    ensures Elems(xs) == s
    ensures StrictlySorted(xs)
    decreases |s|
  {
    if s == {} then []
    else
      var m := Least(s);
      var rest := Sorted(s - {m});
      assert Elems([m] + rest) == {m} + Elems(rest);
      LeastInFront(m, s, rest);
      [m] + rest
  }

  /** A strictly sorted sequence holds no element twice. */
  lemma StrictlySortedDistinct(xs: seq<string>)
    requires StrictlySorted(xs)
    ensures Distinct(xs)
  {
    forall i, j | 0 <= i < j < |xs| ensures xs[i] != xs[j] {
      LessIrreflexive(xs[i]);
    }
  }
}
