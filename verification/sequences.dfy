/** Order-preserving subsequences, and the row filter that every `dropna`
    of the cleaning passes is an instance of. Everything here is read from
    the back of a sequence (`Init`, `Last`), so that the filters, the
    subsequence relation and their lemmas share one induction shape. */
module Sequences {

  function Init<T>(s: seq<T>): seq<T>
    requires s != []
  {
    s[..|s| - 1]
  }

  function Last<T>(s: seq<T>): T
    requires s != []
  {
    s[|s| - 1]
  }

  /** `xs` is `ys` with zero or more elements deleted and the order kept. */
  predicate SubseqOf<T(==)>(xs: seq<T>, ys: seq<T>)
    decreases |ys|
  {
    xs == [] ||
    (ys != [] &&
     ((Last(xs) == Last(ys) && SubseqOf(Init(xs), Init(ys))) || SubseqOf(xs, Init(ys))))
  }

  lemma {:induction false} SubseqRefl<T>(s: seq<T>)
    ensures SubseqOf(s, s)
    decreases |s|
  {
    if s != [] {
      SubseqRefl(Init(s));
    }
  }

  /** A subsequence is never longer than the sequence it is taken from. */
  lemma {:induction false} SubseqShorter<T>(xs: seq<T>, ys: seq<T>)
    requires SubseqOf(xs, ys)
    ensures |xs| <= |ys|
    decreases |ys|
  {
    if xs != [] {
      if Last(xs) == Last(ys) && SubseqOf(Init(xs), Init(ys)) {
        SubseqShorter(Init(xs), Init(ys));
      } else {
        SubseqShorter(xs, Init(ys));
      }
    }
  }

  /** Every element of a subsequence is an element of the whole. */
  lemma {:induction false} SubseqMembers<T>(xs: seq<T>, ys: seq<T>)
    requires SubseqOf(xs, ys)
    ensures forall x :: x in xs ==> x in ys
    decreases |ys|
  {
    if xs != [] {
      if Last(xs) == Last(ys) && SubseqOf(Init(xs), Init(ys)) {
        SubseqMembers(Init(xs), Init(ys));
        assert xs == Init(xs) + [Last(xs)];
        assert ys == Init(ys) + [Last(ys)];
      } else {
        SubseqMembers(xs, Init(ys));
        assert ys == Init(ys) + [Last(ys)];
      }
    }
  }

  /** Deleting from a sequence obtained by deleting is deleting. */
  lemma {:induction false} SubseqTrans<T>(xs: seq<T>, ys: seq<T>, zs: seq<T>)
    requires SubseqOf(xs, ys) && SubseqOf(ys, zs)
    ensures SubseqOf(xs, zs)
    decreases |zs|
  {
    if xs == [] {
    } else if ys == [] {
    } else if Last(ys) == Last(zs) && SubseqOf(Init(ys), Init(zs)) {
      if Last(xs) == Last(ys) && SubseqOf(Init(xs), Init(ys)) {
        SubseqTrans(Init(xs), Init(ys), Init(zs));
      } else {
        SubseqTrans(xs, Init(ys), Init(zs));
      }
    } else {
      SubseqTrans(xs, ys, Init(zs));
    }
  }

  /** The elements of `s` that satisfy `keep`, in their original order
      (pandas keeps the surviving rows of a boolean mask in index order). */
  function Filter<T(==)>(s: seq<T>, keep: T -> bool): (out: seq<T>)
    ensures SubseqOf(out, s)
    ensures forall i :: 0 <= i < |out| ==> keep(out[i])
    ensures forall i :: 0 <= i < |s| && keep(s[i]) ==> s[i] in out
    decreases |s|
  {
    if s == [] then []
    else
      var rest := Filter(Init(s), keep);
      assert s == Init(s) + [Last(s)];
      if keep(Last(s)) then
        assert Init(rest + [Last(s)]) == rest;
        rest + [Last(s)]
      else rest
  }

  /** One step of `Filter`, read from the back. */
  lemma FilterStep<T>(s: seq<T>, keep: T -> bool)
    requires s != []
    ensures keep(Last(s)) ==> Filter(s, keep) == Filter(Init(s), keep) + [Last(s)]
    ensures !keep(Last(s)) ==> Filter(s, keep) == Filter(Init(s), keep)
  {
  }

  /** `Filter` keeps every copy of an element that passes and no copy of
      one that fails: equal rows are all kept, none merged. */
  lemma {:induction false} FilterKeepsCount<T>(s: seq<T>, keep: T -> bool)
    ensures forall x :: multiset(Filter(s, keep))[x] == if keep(x) then multiset(s)[x] else 0
    decreases |s|
  {
    if s != [] {
      var rest := Filter(Init(s), keep);
      FilterKeepsCount(Init(s), keep);
      assert s == Init(s) + [Last(s)];
      assert multiset(s) == multiset(Init(s)) + multiset{Last(s)};
      if keep(Last(s)) {
        assert multiset(rest + [Last(s)]) == multiset(rest) + multiset{Last(s)};
      }
    }
  }
}
