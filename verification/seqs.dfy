/** Generic folds over sequences used by the extraction and merge models. */
module Seqs {

  /** `f` applied to every element, the results concatenated in order. */
  function FlatMap<A, B>(xs: seq<A>, f: A -> seq<B>): seq<B>
  {
    if |xs| == 0 then []
    else FlatMap(xs[..|xs| - 1], f) + f(xs[|xs| - 1])
  }

  lemma FlatMapStep<A, B>(xs: seq<A>, i: int, f: A -> seq<B>)
    requires 0 <= i < |xs|
    ensures FlatMap(xs[..i + 1], f) == FlatMap(xs[..i], f) + f(xs[i])
  {
    assert xs[..i + 1][..i] == xs[..i];
  }

  lemma FlatMapSingle<A, B>(x: A, f: A -> seq<B>)
    ensures FlatMap([x], f) == f(x)
  {
    assert [x][..0] == [];
    assert FlatMap<A, B>([], f) == [];
  }

  /** Slicing a suffix is slicing the original further along. */
  lemma SuffixSlices<A>(s: seq<A>, i: int, n: int)
    requires 0 <= i && 0 <= n && i + n <= |s|
    ensures s[i..][..n] == s[i..i + n]
    ensures s[i..][n..] == s[i + n..]
  {
  }

  /** FlatMap distributes over concatenation. */
  lemma {:induction false} FlatMapAppend<A, B>(xs: seq<A>, ys: seq<A>, f: A -> seq<B>)
    ensures FlatMap(xs + ys, f) == FlatMap(xs, f) + FlatMap(ys, f)
    decreases |ys|
  {
    if |ys| == 0 {
      assert xs + ys == xs;
    } else {
      var init := ys[..|ys| - 1];
      var xy := xs + ys;
      assert xy[..|xy| - 1] == xs + init;
      assert xy[|xy| - 1] == ys[|ys| - 1];
      FlatMapAppend(xs, init, f);
    }
  }

  /** Everything FlatMap produces comes from `f` of some element. */
  lemma {:induction false} FlatMapMember<A, B>(xs: seq<A>, f: A -> seq<B>, y: B)
    requires y in FlatMap(xs, f)
    ensures exists i :: 0 <= i < |xs| && y in f(xs[i])
    decreases |xs|
  {
    var init := xs[..|xs| - 1];
    if y in FlatMap(init, f) {
      FlatMapMember(init, f, y);
      var i :| 0 <= i < |init| && y in f(init[i]);
      assert xs[i] == init[i];
    } else {
      assert y in f(xs[|xs| - 1]);
    }
  }

  /** Everything `f` produces for an element shows up in the FlatMap. */
  lemma {:induction false} FlatMapCovers<A, B>(xs: seq<A>, f: A -> seq<B>, i: int, y: B)
    requires 0 <= i < |xs| && y in f(xs[i])
    ensures y in FlatMap(xs, f)
    decreases |xs|
  {
    if i < |xs| - 1 {
      var init := xs[..|xs| - 1];
      assert init[i] == xs[i];
      FlatMapCovers(init, f, i, y);
    }
  }
}
