/** Sums over a sequence, and what does not change them. */
module Sums {

  function SumOf<T>(f: T -> int, xs: seq<T>): int {
    if xs == [] then 0 else SumOf(f, xs[..|xs| - 1]) + f(xs[|xs| - 1])
  }

  predicate All<T>(ok: T -> bool, xs: seq<T>) {
    forall i | 0 <= i < |xs| :: ok(xs[i])
  }

  lemma AllGrows<T>(ok: T -> bool, xs: seq<T>, i: nat)
    requires i < |xs|
    ensures All(ok, xs[..i + 1]) <==> All(ok, xs[..i]) && ok(xs[i])
  {
    assert xs[..i + 1][i] == xs[i];
    assert forall j | 0 <= j < i :: xs[..i + 1][j] == xs[..i][j];
  }

  lemma {:induction false} SumOfConcat<T>(f: T -> int, xs: seq<T>, ys: seq<T>)
    ensures SumOf(f, xs + ys) == SumOf(f, xs) + SumOf(f, ys)
    decreases |ys|
  {
    if ys == [] {
      assert xs + ys == xs;
    } else {
      SumOfConcat(f, xs, ys[..|ys| - 1]);
      assert (xs + ys)[..|xs + ys| - 1] == xs + ys[..|ys| - 1];
    }
  }

  lemma SumOfOne<T>(f: T -> int, x: T)
    ensures SumOf(f, [x]) == f(x)
  {
    assert [x][..0] == [];
  }

  lemma CutAt<T>(xs: seq<T>, k: nat)
    requires k < |xs|
    ensures xs == xs[..k] + [xs[k]] + xs[k + 1..]
    ensures multiset(xs[..k] + xs[k + 1..]) == multiset(xs) - multiset{xs[k]}
  {
    assert xs == xs[..k] + [xs[k]] + xs[k + 1..];
  }

  lemma WithoutOne<T>(f: T -> int, xs: seq<T>, k: nat)
    requires k < |xs|
    ensures SumOf(f, xs) == SumOf(f, xs[..k] + xs[k + 1..]) + f(xs[k])
  {
    var a, b := xs[..k], xs[k + 1..];
    CutAt(xs, k);
    SumOfConcat(f, a + [xs[k]], b);
    SumOfConcat(f, a, [xs[k]]);
    SumOfConcat(f, a, b);
    SumOfOne(f, xs[k]);
  }

  lemma FindIn<T>(x: T, ys: seq<T>) returns (k: nat)
    requires x in multiset(ys)
    ensures k < |ys| && ys[k] == x
  {
    k :| k < |ys| && ys[k] == x;
  }

  /** Taking the same element out of two permutations leaves two permutations. */
  lemma StillPermutation<T>(xs: seq<T>, j: nat, ys: seq<T>, k: nat)
    requires multiset(xs) == multiset(ys) && j < |xs| && k < |ys| && xs[j] == ys[k]
    ensures multiset(xs[..j] + xs[j + 1..]) == multiset(ys[..k] + ys[k + 1..])
  {
    CutAt(xs, j);
    CutAt(ys, k);
  }

  lemma {:induction false} SumOfPermutation<T>(f: T -> int, xs: seq<T>, ys: seq<T>)
    requires multiset(xs) == multiset(ys)
    ensures SumOf(f, xs) == SumOf(f, ys)
    decreases |xs|
  {
    if xs == [] {
      assert |ys| == |multiset(ys)|;
    } else {
      assert xs[0] in multiset(xs);
      var k := FindIn(xs[0], ys);
      StillPermutation(xs, 0, ys, k);
      WithoutOne(f, xs, 0);
      WithoutOne(f, ys, k);
      SumOfPermutation(f, xs[..0] + xs[0 + 1..], ys[..k] + ys[k + 1..]);
    }
  }
}
