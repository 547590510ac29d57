/** Small shared vocabulary: optional values, results, machine integers and a few
    facts about sequences. */
module Prelude {
  datatype Option<+T> = None | Some(value: T)

  datatype Result<+T, +E> = Ok(value: T) | Err(error: E)

  newtype byte = x: int | 0 <= x < 256

  const U64_LIMIT := 0x1_0000_0000_0000_0000

  type u64 = x: int | 0 <= x < U64_LIMIT

  /** Concatenates the pieces in order. */
  function Flatten<T>(pieces: seq<seq<T>>): seq<T> {
    if pieces == [] then [] else Flatten(pieces[..|pieces| - 1]) + pieces[|pieces| - 1]
  }

  lemma {:induction false} FlattenAppend<T>(a: seq<seq<T>>, b: seq<seq<T>>)
    ensures Flatten(a + b) == Flatten(a) + Flatten(b)
    decreases |b|
  {
    if b == [] {
      assert a + b == a;
    } else {
      var n := |b| - 1;
      FlattenAppend(a, b[..n]);
      assert (a + b)[..|a + b| - 1] == a + b[..n];
      assert Flatten(a + b) == Flatten(a) + Flatten(b[..n]) + b[n];
    }
  }

  lemma {:induction false} FlattenSingle<T>(a: seq<T>)
    ensures Flatten([a]) == a
  {
    assert [a][..0] == [];
  }

  /** The images of the elements, one after another. */
  function FlatMap<T, U>(xs: seq<T>, f: T -> seq<U>): seq<U> {
    if xs == [] then [] else FlatMap(xs[..|xs| - 1], f) + f(xs[|xs| - 1])
  }

  lemma {:induction false} FlatMapAppend<T, U>(a: seq<T>, b: seq<T>, f: T -> seq<U>)
    ensures FlatMap(a + b, f) == FlatMap(a, f) + FlatMap(b, f)
    decreases |b|
  {
    if b == [] {
      assert a + b == a;
    } else {
      var n := |b| - 1;
      FlatMapAppend(a, b[..n], f);
      assert (a + b)[..|a + b| - 1] == a + b[..n];
      assert FlatMap(a, f) + FlatMap(b[..n], f) + f(b[n]) == FlatMap(a, f) + (FlatMap(b[..n], f) + f(b[n]));
    }
  }

  lemma {:induction false} CancelOne<T>(m: multiset<T>, n: multiset<T>, x: T)
    requires m + multiset{x} == n + multiset{x}
    ensures m == n
  {
    forall y ensures m[y] == n[y] {
      assert (m + multiset{x})[y] == m[y] + multiset{x}[y];
      assert (n + multiset{x})[y] == n[y] + multiset{x}[y];
    }
  }

  /** Taking one element out of the middle takes its image out. */
  lemma {:induction false} FlatMapMiddle<T, U>(l: seq<T>, x: T, r: seq<T>, f: T -> seq<U>)
    ensures multiset(l + [x] + r) == multiset(l + r) + multiset{x}
    ensures multiset(FlatMap(l + [x] + r, f)) == multiset(FlatMap(l + r, f)) + multiset(f(x))
  {
    FlatMapAppend(l + [x], r, f);
    FlatMapAppend(l, [x], f);
    FlatMapAppend(l, r, f);
    assert [x][..0] == [] && FlatMap([x], f) == [] + f(x);
  }

  /** The order of the elements decides nothing but the order of their images. */
  lemma {:induction false} FlatMapPermutes<T, U>(a: seq<T>, b: seq<T>, f: T -> seq<U>)
    requires multiset(a) == multiset(b)
    ensures multiset(FlatMap(a, f)) == multiset(FlatMap(b, f))
    decreases |a|
  {
    hide FlatMap;
    if a == [] {
      assert |multiset(b)| == |b|;
      assert a == b;
    } else {
      var front, x := a[..|a| - 1], a[|a| - 1];
      assert a == front + [x] + [];
      assert x in multiset(b);
      var k :| 0 <= k < |b| && b[k] == x;
      var l, r := b[..k], b[k + 1..];
      assert b == l + [x] + r;
      FlatMapMiddle(front, x, [], f);
      FlatMapMiddle(l, x, r, f);
      assert front + [] == front;
      CancelOne(multiset(front), multiset(l + r), x);
      FlatMapPermutes(front, l + r, f);
    }
  }

  lemma {:induction false} SomeElement<T>(s: set<T>) returns (y: T)
    requires s != {}
    ensures y in s
  {
    y :| y in s;
  }
}
