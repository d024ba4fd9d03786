/** Small shared vocabulary: an optional value and first-match search. */
module Common {

  /** Python's `None` or a present value. */
  datatype Option<T> = None | Some(value: T)

  /** `k` is the first index of `xs` whose element satisfies `p`. */
  ghost predicate FirstAt<T>(xs: seq<T>, p: T -> bool, k: int) {
    0 <= k < |xs| && p(xs[k]) && forall i :: 0 <= i < k ==> !p(xs[i])
  }

  /** First-match search: the index of the first element satisfying `p`,
      or `|xs|` when there is none. */
  function First<T>(xs: seq<T>, p: T -> bool): (k: nat)
    ensures k <= |xs|
    ensures k < |xs| ==> FirstAt(xs, p, k)
    ensures k == |xs| ==> forall i :: 0 <= i < |xs| ==> !p(xs[i])
    decreases |xs|
  {
    if |xs| == 0 then 0
    else if p(xs[0]) then 0
    else 1 + First(xs[1..], p)
  }

  /** The first match is the only index that can be a first match. */
  lemma FirstIsUnique<T>(xs: seq<T>, p: T -> bool, k: int)
    requires FirstAt(xs, p, k)
    ensures First(xs, p) == k
  {
  }

  /** A match inside a prefix is found in the prefix whatever follows it. */
  lemma {:induction false} FirstOfExtension<T>(xs: seq<T>, more: seq<T>, p: T -> bool)
    requires First(xs, p) < |xs|
    ensures First(xs + more, p) == First(xs, p)
    decreases |xs|
  {
    if !p(xs[0]) {
      assert (xs + more)[1..] == xs[1..] + more;
      FirstOfExtension(xs[1..], more, p);
    }
  }

  /** The elements of `xs` satisfying `p`, in their original order. */
  function Filter<T>(xs: seq<T>, p: T -> bool): (ys: seq<T>)
    ensures |ys| <= |xs|
    ensures forall i :: 0 <= i < |ys| ==> ys[i] in xs && p(ys[i])
    ensures forall i :: 0 <= i < |xs| && p(xs[i]) ==> xs[i] in ys
    decreases |xs|
  {
    if |xs| == 0 then []
    else if p(xs[0]) then [xs[0]] + Filter(xs[1..], p)
    else Filter(xs[1..], p)
  }

  /** Filtering distributes over concatenation, so order is kept. */
  lemma {:induction false} FilterAppend<T>(a: seq<T>, b: seq<T>, p: T -> bool)
    ensures Filter(a + b, p) == Filter(a, p) + Filter(b, p)
    decreases |a|
  {
    if |a| == 0 {
      assert a + b == b;
    } else {
      assert (a + b)[0] == a[0];
      assert (a + b)[1..] == a[1..] + b;
      FilterAppend(a[1..], b, p);
    }
  }

  /** A filter that keeps everything is the identity. */
  lemma {:induction false} FilterKeepsAll<T>(xs: seq<T>, p: T -> bool)
    requires forall i :: 0 <= i < |xs| ==> p(xs[i])
    ensures Filter(xs, p) == xs
    decreases |xs|
  {
    if |xs| > 0 {
      FilterKeepsAll(xs[1..], p);
    }
  }

  /** A filter that keeps nothing gives the empty sequence. */
  lemma {:induction false} FilterKeepsNone<T>(xs: seq<T>, p: T -> bool)
    requires forall i :: 0 <= i < |xs| ==> !p(xs[i])
    ensures Filter(xs, p) == []
    decreases |xs|
  {
    if |xs| > 0 {
      FilterKeepsNone(xs[1..], p);
    }
  }

  /** Filtering by a weaker test first changes nothing for a stronger one. */
  lemma {:induction false} FilterOfFilter<T>(xs: seq<T>, weak: T -> bool, strong: T -> bool)
    requires forall x :: strong(x) ==> weak(x)
    ensures Filter(Filter(xs, weak), strong) == Filter(xs, strong)
    decreases |xs|
  {
    if |xs| > 0 {
      FilterOfFilter(xs[1..], weak, strong);
      if weak(xs[0]) {
        assert ([xs[0]] + Filter(xs[1..], weak))[0] == xs[0];
        assert ([xs[0]] + Filter(xs[1..], weak))[1..] == Filter(xs[1..], weak);
      }
    }
  }

  /** Left fold: `f` applied to the accumulator and each element in turn. */
  function Fold<A, B>(f: (A, B) -> A, acc: A, xs: seq<B>): A
    decreases |xs|
  {
    if |xs| == 0 then acc else Fold(f, f(acc, xs[0]), xs[1..])
  }

  /** A fold whose step takes the description of a prefix to the
      description of the prefix extended by one element computes the
      description of the whole sequence. */
  lemma {:induction false} FoldTracks<A, B>(f: (A, B) -> A, describe: seq<B> -> A, done: seq<B>, rest: seq<B>)
    requires forall d: seq<B>, x: B :: f(describe(d), x) == describe(d + [x])
    ensures Fold(f, describe(done), rest) == describe(done + rest)
    decreases |rest|
  {
    if |rest| == 0 {
      assert done + rest == done;
    } else {
      FoldTracks(f, describe, done + [rest[0]], rest[1..]);
      assert (done + [rest[0]]) + rest[1..] == done + rest;
    }
  }

  /** Updating an index of the front part of a concatenation updates the
      front part only. */
  lemma UpdateInFront<T>(front: seq<T>, back: seq<T>, k: nat, v: T)
    requires k < |front|
    ensures (front + back)[k := v] == front[k := v] + back
  {
    var updated := (front + back)[k := v];
    var parts := front[k := v] + back;
    assert forall i :: 0 <= i < |updated| ==> updated[i] == parts[i];
  }
}
