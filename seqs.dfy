/** Concatenating per-element sequences, the shape of a loop that appends what each input yields. */
module Seqs {

  /** `f(xs[0]) + f(xs[1]) + ... + f(xs[|xs| - 1])`. */
  function FlatMap<T, U>(f: T -> seq<U>, xs: seq<T>): seq<U>
    decreases |xs|
  {
    if xs == [] then [] else FlatMap(f, xs[..|xs| - 1]) + f(xs[|xs| - 1])
  }

  /** Appending one input appends what it yields. */
  lemma FlatMapSnoc<T, U>(f: T -> seq<U>, xs: seq<T>, x: T)
    ensures FlatMap(f, xs + [x]) == FlatMap(f, xs) + f(x)
  {
    assert (xs + [x])[..|xs|] == xs;
  }

  /** `FlatMap` distributes over concatenation. */
  lemma {:induction false} FlatMapAppend<T, U>(f: T -> seq<U>, xs: seq<T>, ys: seq<T>)
    ensures FlatMap(f, xs + ys) == FlatMap(f, xs) + FlatMap(f, ys)
    decreases |ys|
  {
    if ys == [] {
      assert xs + ys == xs;
    } else {
      var ys', y := ys[..|ys| - 1], ys[|ys| - 1];
      calc {
        FlatMap(f, xs + ys);
        { assert xs + ys == (xs + ys') + [y]; FlatMapSnoc(f, xs + ys', y); }
        FlatMap(f, xs + ys') + f(y);
        { FlatMapAppend(f, xs, ys'); }
        (FlatMap(f, xs) + FlatMap(f, ys')) + f(y);
        { assert ys == ys' + [y]; FlatMapSnoc(f, ys', y); }
        FlatMap(f, xs) + FlatMap(f, ys);
      }
    }
  }
}
