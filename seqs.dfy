/** Sequences of sequences: the batches, chunks and row groups of the pipeline. */
module Seqs {

  /** All inner sequences joined in order; for strings, plain concatenation. */
  function Flatten<T>(xss: seq<seq<T>>): seq<T>
  {
    if xss == [] then [] else xss[0] + Flatten(xss[1..])
  }

  /** Flattening distributes over concatenation of the outer sequence. */
  lemma {:induction false} FlattenAppend<T>(a: seq<seq<T>>, b: seq<seq<T>>)
    ensures Flatten(a + b) == Flatten(a) + Flatten(b)
  {
    if a != [] {
      assert (a + b)[0] == a[0];
      assert (a + b)[1..] == a[1..] + b;
      FlattenAppend(a[1..], b);
    } else {
      assert a + b == b;
    }
  }

  /** Flattening a sequence with one more inner sequence at the end appends that sequence. */
  lemma FlattenSnoc<T>(a: seq<seq<T>>, x: seq<T>)
    ensures Flatten(a + [x]) == Flatten(a) + x
  {
    FlattenAppend(a, [x]);
    assert Flatten([x]) == x + Flatten([]);
  }

  /** The results of `f` on each element of `xs`, joined in order. */
  function ConcatMap<T, U>(f: T -> seq<U>, xs: seq<T>): seq<U>
  {
    if xs == [] then [] else ConcatMap(f, xs[..|xs| - 1]) + f(xs[|xs| - 1])
  }

  /** Joining distributes over concatenation of the elements. */
  lemma {:induction false} ConcatMapAppend<T, U>(f: T -> seq<U>, a: seq<T>, b: seq<T>)
    ensures ConcatMap(f, a + b) == ConcatMap(f, a) + ConcatMap(f, b)
    decreases |b|
  {
    if b == [] {
      assert a + b == a;
    } else {
      var init := b[..|b| - 1];
      assert (a + b)[..|a + b| - 1] == a + init;
      assert (a + b)[|a + b| - 1] == b[|b| - 1];
      ConcatMapAppend(f, a, init);
    }
  }

  /** Removing the element at `j` removes one occurrence of it from the multiset. */
  lemma RemoveAt<T>(b: seq<T>, j: nat)
    requires j < |b|
    ensures multiset(b[..j] + b[j + 1..]) == multiset(b) - multiset{b[j]}
  {
    assert b == b[..j] + [b[j]] + b[j + 1..];
  }

  /** Taking the same element out of two orderings of one multiset leaves two orderings of the rest. */
  lemma RemoveMatching<T>(a: seq<T>, b: seq<T>, j: nat)
    requires multiset(a) == multiset(b) && a != [] && j < |b| && b[j] == a[0]
    ensures multiset(a[1..]) == multiset(b[..j] + b[j + 1..])
  {
    calc {
      multiset(a[1..]);
    == { assert a == [a[0]] + a[1..]; }
      multiset(a) - multiset{a[0]};
    == { RemoveAt(b, j); }
      multiset(b[..j] + b[j + 1..]);
    }
  }

  /** `f` maps a concatenation to the concatenation of its results. */
  ghost predicate Additive<T(!new), U>(f: seq<T> -> seq<U>)
  {
    forall a: seq<T>, b: seq<T> {:trigger f(a + b)} :: f(a + b) == f(a) + f(b)
  }

  /**
   * An additive `f` applied to the flattening of any reordering of the
   * inner sequences yields the same elements, possibly in another order.
   */
  lemma {:induction false} AdditiveReorder<T(!new), U>(f: seq<T> -> seq<U>, a: seq<seq<T>>, b: seq<seq<T>>)
    requires Additive(f) && multiset(a) == multiset(b)
    ensures multiset(f(Flatten(a))) == multiset(f(Flatten(b)))
    decreases |a|
  {
    if a == [] {
      assert |b| == |multiset(b)| == 0;
    } else {
      var x := a[0];
      assert x in multiset(b);
      var j :| 0 <= j < |b| && b[j] == x;
      var front, back := b[..j], b[j + 1..];
      assert b == front + [x] + back;
      var rest := front + back;
      RemoveMatching(a, b, j);
      AdditiveReorder(f, a[1..], rest);
      assert f(Flatten(a)) == f(x) + f(Flatten(a[1..])) by {
        assert Flatten(a) == x + Flatten(a[1..]);
      }
      assert f(Flatten(b)) == f(Flatten(front)) + f(x) + f(Flatten(back)) by {
        FlattenSnoc(front, x);
        FlattenAppend(front + [x], back);
        assert f(Flatten(b)) == f(Flatten(front) + x) + f(Flatten(back));
      }
      assert f(Flatten(rest)) == f(Flatten(front)) + f(Flatten(back)) by {
        FlattenAppend(front, back);
      }
      var fx, ff, fb := f(x), f(Flatten(front)), f(Flatten(back));
      calc {
        multiset(f(Flatten(a)));
        multiset(fx) + multiset(f(Flatten(a[1..])));
        multiset(fx) + multiset(ff + fb);
        multiset(ff) + multiset(fx) + multiset(fb);
        multiset(ff + fx + fb);
      }
    }
  }
}
