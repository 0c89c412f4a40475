/**
 Generic sequence helpers shared by the chunker and the ranking code.
 */
module Seqs {

  /** Apply `f` to every element and concatenate the results, in order
      (a nested `for` loop that appends to one list). */
  function FlatMap<A, B>(xs: seq<A>, f: A -> seq<B>): (r: seq<B>)
    ensures |xs| == 0 ==> r == []
  {
    if |xs| == 0 then [] else FlatMap(xs[..|xs| - 1], f) + f(xs[|xs| - 1])
  }

  /** One more element appends its image at the end. */
  lemma FlatMapSnoc<A, B>(xs: seq<A>, i: nat, f: A -> seq<B>)
    requires i < |xs|
    ensures FlatMap(xs[..i + 1], f) == FlatMap(xs[..i], f) + f(xs[i])
  {
    assert xs[..i + 1][..i] == xs[..i];
  }

  /** `FlatMap` distributes over concatenation, so it keeps the order of its input. */
  lemma {:induction false} FlatMapAppend<A, B>(xs: seq<A>, ys: seq<A>, f: A -> seq<B>)
    ensures FlatMap(xs + ys, f) == FlatMap(xs, f) + FlatMap(ys, f)
    decreases |ys|
  {
    if |ys| == 0 {
      assert xs + ys == xs;
    } else {
      var ys' := ys[..|ys| - 1];
      assert (xs + ys)[..|xs + ys| - 1] == xs + ys';
      assert (xs + ys)[|xs + ys| - 1] == ys[|ys| - 1];
      FlatMapAppend(xs, ys', f);
    }
  }

  /** Mapping in two stages is mapping once with the composed stage. */
  lemma {:induction false} FlatMapCompose<A, B, C>(xs: seq<A>, f: A -> seq<B>, g: B -> seq<C>, h: A -> seq<C>)
    requires forall x :: h(x) == FlatMap(f(x), g)
    ensures FlatMap(xs, h) == FlatMap(FlatMap(xs, f), g)
  {
    if |xs| > 0 {
      var init := xs[..|xs| - 1];
      FlatMapCompose(init, f, g, h);
      FlatMapAppend(FlatMap(init, f), f(xs[|xs| - 1]), g);
    }
  }

  /** An element of the result comes from the image of some input element,
      and every element of every image is in the result. */
  lemma FlatMapMembers<A, B>(xs: seq<A>, f: A -> seq<B>, y: B)
    ensures y in FlatMap(xs, f) <==> exists x :: x in xs && y in f(x)
  {
    if y in FlatMap(xs, f) {
      FlatMapOrigin(xs, f, y);
    }
    if exists x :: x in xs && y in f(x) {
      var x :| x in xs && y in f(x);
      FlatMapIntro(xs, f, x, y);
    }
  }

  /** Each element of the result comes from the image of an input element. */
  lemma {:induction false} FlatMapOrigin<A, B>(xs: seq<A>, f: A -> seq<B>, y: B)
    requires y in FlatMap(xs, f)
    ensures exists x :: x in xs && y in f(x)
  {
    var init := xs[..|xs| - 1];
    var last := xs[|xs| - 1];
    if y in FlatMap(init, f) {
      FlatMapOrigin(init, f, y);
      var x :| x in init && y in f(x);
      assert x in xs;
    } else {
      assert last in xs;
    }
  }

  /** Each element of each image is in the result. */
  lemma {:induction false} FlatMapIntro<A, B>(xs: seq<A>, f: A -> seq<B>, x: A, y: B)
    requires x in xs && y in f(x)
    ensures y in FlatMap(xs, f)
  {
    var init := xs[..|xs| - 1];
    var last := xs[|xs| - 1];
    if x != last {
      assert xs == init + [last];
      assert x in init;
      FlatMapIntro(init, f, x, y);
    }
  }

  /** A property every image element has holds of every result element. */
  lemma FlatMapAll<A, B>(xs: seq<A>, f: A -> seq<B>, p: B -> bool)
    requires forall x, y :: x in xs && y in f(x) ==> p(y)
    ensures forall y :: y in FlatMap(xs, f) ==> p(y)
  {
    forall y | y in FlatMap(xs, f) ensures p(y) {
      FlatMapOrigin(xs, f, y);
    }
  }

  /** The sequence in reverse order. */
  function Reverse<T>(s: seq<T>): (r: seq<T>)
    ensures |r| == |s|
    ensures forall i :: 0 <= i < |s| ==> r[i] == s[|s| - 1 - i]
  {
    if |s| == 0 then [] else Reverse(s[1..]) + [s[0]]
  }

  function Min(a: int, b: int): int {
    if a <= b then a else b
  }
}
