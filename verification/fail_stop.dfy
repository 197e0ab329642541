/** `ResultIterator` (src/errors.rs): a decorator over an iterator of
    `Result<T, E>` that passes items through until the first `Err` and
    answers `None` from then on, without touching the inner iterator. */
module FailStop {
  import opened Wrappers

  /** The wrapped iterator: the answers its `next()` gives, read from a
      cursor. It may answer `None` and later `Some` again; past the end of
      `items` it answers `None`. */
  datatype Stream<X> = Stream(items: seq<Option<X>>, pos: nat) {

    /** The answer of the `k`-th call to `next()` from here (counting from 0). */
    function At(k: nat): Option<X> {
      if pos + k < |items| then items[pos + k] else None
    }

    /** What the next call to `next()` answers. */
    function Peek(): Option<X> {
      At(0)
    }

    /** The iterator after one call to `next()`. */
    function Advance(): (s: Stream<X>)
      ensures s.items == items
      ensures forall k: nat :: s.At(k) == At(k + 1)
    {
      Stream(items, pos + 1)
    }

    /** The answers of the next `n` calls to `next()`. */
    function Window(n: nat): (w: seq<Option<X>>)
      ensures |w| == n
      ensures forall k :: 0 <= k < n ==> w[k] == At(k)
    {
      seq(n, k requires 0 <= k => At(k))
    }
  }

  /** Some item of `xs` is `Some(Err(_))`. */
  predicate HasErr<T, E>(xs: seq<Option<Result<T, E>>>) {
    exists i :: 0 <= i < |xs| && IsSomeErr(xs[i])
  }

  lemma HasErrConcat<T, E>(a: seq<Option<Result<T, E>>>, b: seq<Option<Result<T, E>>>)
    ensures HasErr(a + b) <==> HasErr(a) || HasErr(b)
  {
    if HasErr(a + b) {
      var i :| 0 <= i < |a + b| && IsSomeErr((a + b)[i]);
      if i < |a| {
        assert a[i] == (a + b)[i];
      } else {
        assert b[i - |a|] == (a + b)[i];
      }
    }
    if HasErr(a) {
      var i :| 0 <= i < |a| && IsSomeErr(a[i]);
      assert (a + b)[i] == a[i];
    }
    if HasErr(b) {
      var i :| 0 <= i < |b| && IsSomeErr(b[i]);
      assert (a + b)[|a| + i] == b[i];
    }
  }

  lemma HasErrSingle<T, E>(x: Option<Result<T, E>>)
    ensures HasErr([x]) <==> IsSomeErr(x)
  {
    if IsSomeErr(x) {
      assert [x][0] == x;
    }
  }

  /** Splitting off the first item. */
  lemma HasErrCons<T, E>(xs: seq<Option<Result<T, E>>>)
    requires xs != []
    ensures HasErr(xs) <==> IsSomeErr(xs[0]) || HasErr(xs[1..])
  {
    assert xs == [xs[0]] + xs[1..];
    HasErrConcat([xs[0]], xs[1..]);
    HasErrSingle(xs[0]);
  }

  /** Splitting off the last item. */
  lemma HasErrSnoc<T, E>(xs: seq<Option<Result<T, E>>>, x: Option<Result<T, E>>)
    ensures HasErr(xs + [x]) <==> HasErr(xs) || IsSomeErr(x)
  {
    HasErrConcat(xs, [x]);
    HasErrSingle(x);
  }

  /** `xs` cut off just after its first `Some(Err(_))`. */
  function Cut<T, E>(xs: seq<Option<Result<T, E>>>): (r: seq<Option<Result<T, E>>>)
    ensures |r| <= |xs| && r == xs[..|r|]
    ensures !HasErr(xs) ==> r == xs
  {
    if xs == [] then []
    else if IsSomeErr(xs[0]) then [xs[0]]
    else
      HasErrCons(xs);
      [xs[0]] + Cut(xs[1..])
  }

  function Nones<X>(n: nat): (r: seq<Option<X>>)
    ensures |r| == n && forall k :: 0 <= k < n ==> r[k] == None
  {
    seq(n, _ => None)
  }

  lemma NonesHaveNoErr<T, E>(n: nat)
    ensures !HasErr(Nones<Result<T, E>>(n))
  {
  }

  /** What the wrapper answers to `|xs|` calls when the inner iterator would
      answer `xs`: `xs` up to and including its first error, then `None`. */
  function FailStopView<T, E>(xs: seq<Option<Result<T, E>>>): (r: seq<Option<Result<T, E>>>)
    ensures |r| == |xs|
  {
    Cut(xs) + Nones(|xs| - |Cut(xs)|)
  }

  /** A cut holds an error exactly when its input does; it then holds one
      error only, and that error is its last item. */
  lemma {:induction false} CutEndsAtFirstErr<T, E>(xs: seq<Option<Result<T, E>>>)
    ensures HasErr(Cut(xs)) <==> HasErr(xs)
    ensures HasErr(xs) ==>
              |Cut(xs)| > 0 && IsSomeErr(Cut(xs)[|Cut(xs)| - 1]) &&
              !HasErr(Cut(xs)[..|Cut(xs)| - 1])
  {
    if xs == [] {
    } else if IsSomeErr(xs[0]) {
      HasErrCons(xs);
      HasErrSingle(xs[0]);
      assert Cut(xs)[..0] == [];
    } else {
      var c := Cut(xs[1..]);
      CutEndsAtFirstErr(xs[1..]);
      HasErrCons(xs);
      assert Cut(xs) == [xs[0]] + c;
      HasErrConcat([xs[0]], c);
      HasErrSingle(xs[0]);
      if HasErr(xs) {
        assert Cut(xs)[..|Cut(xs)| - 1] == [xs[0]] + c[..|c| - 1];
        HasErrConcat([xs[0]], c[..|c| - 1]);
      }
    }
  }

  /** Appending one answer to the inner sequence: once an error has been
      cut at, the cut stays; before that, the new answer is kept. */
  lemma {:induction false} CutSnoc<T, E>(xs: seq<Option<Result<T, E>>>, x: Option<Result<T, E>>)
    ensures Cut(xs + [x]) == if HasErr(xs) then Cut(xs) else xs + [x]
  {
    if xs == [] {
      assert [] + [x] == [x];
    } else {
      assert (xs + [x])[0] == xs[0];
      assert (xs + [x])[1..] == xs[1..] + [x];
      HasErrCons(xs);
      if !IsSomeErr(xs[0]) {
        CutSnoc(xs[1..], x);
        if !HasErr(xs) {
          assert [xs[0]] + (xs[1..] + [x]) == xs + [x];
        }
      }
    }
  }

  /** The wrapper's answers hold an error exactly when the inner answers do. */
  lemma FailStopViewHasErr<T, E>(xs: seq<Option<Result<T, E>>>)
    ensures HasErr(FailStopView(xs)) <==> HasErr(xs)
  {
    CutEndsAtFirstErr(xs);
    HasErrConcat(Cut(xs), Nones<Result<T, E>>(|xs| - |Cut(xs)|));
    NonesHaveNoErr<T, E>(|xs| - |Cut(xs)|);
  }

  /** Answering one more call extends the wrapper's answers by one item:
      `None` once an error has been answered, the inner answer otherwise. */
  lemma FailStopViewSnoc<T, E>(xs: seq<Option<Result<T, E>>>, x: Option<Result<T, E>>)
    ensures FailStopView(xs + [x]) == FailStopView(xs) + [if HasErr(xs) then None else x]
  {
    CutSnoc(xs, x);
    if HasErr(xs) {
      assert Nones<Result<T, E>>(|xs| + 1 - |Cut(xs)|) == Nones(|xs| - |Cut(xs)|) + [None];
    }
  }

  /** One more call on the inner iterator, seen through the wrapper. */
  lemma ViewStep<T, E>(o: Stream<Result<T, E>>, n: nat)
    ensures o.Window(n + 1) == o.Window(n) + [o.At(n)]
    ensures FailStopView(o.Window(n + 1)) ==
              FailStopView(o.Window(n)) + [if HasErr(o.Window(n)) then None else o.At(n)]
    ensures Cut(o.Window(n + 1)) == if HasErr(o.Window(n)) then Cut(o.Window(n)) else o.Window(n + 1)
    ensures HasErr(o.Window(n + 1)) <==> HasErr(o.Window(n)) || IsSomeErr(o.At(n))
  {
    var w := o.Window(n);
    assert o.Window(n + 1) == w + [o.At(n)];
    FailStopViewSnoc(w, o.At(n));
    CutSnoc(w, o.At(n));
    HasErrSnoc(w, o.At(n));
  }

  /** Whatever the inner iterator answers after its first error, the wrapper
      answers the items before it, the error, and `None` from then on. */
  lemma {:induction false} FailStopAfterFirstErr<T, E>(xs: seq<Option<Result<T, E>>>, k: nat)
    requires k < |xs| && IsSomeErr(xs[k])
    requires forall j :: 0 <= j < k ==> !IsSomeErr(xs[j])
    ensures FailStopView(xs) == xs[..k + 1] + Nones(|xs| - k - 1)
  {
    assert xs[..k + 1] == xs[..k] + [xs[k]];
    CutSnoc(xs[..k], xs[k]);
    HasErrSnoc(xs[..k], xs[k]);
    CutPrefixStable(xs, k + 1);
  }

  /** What std's `Iterator::last` returns when `next()` answers `xs`: the
      last item before the first `None`, or `None` if there is none. */
  function LastYielded<X>(xs: seq<Option<X>>): Option<X> {
    if xs == [] || xs[0].None? then None
    else
      var rest := LastYielded(xs[1..]);
      if rest.None? then xs[0] else rest
  }

  /** `last()` of items that are all `Some` up to `x`, followed by a `None`
      or by nothing, is `x`. */
  lemma {:induction false} LastYieldedBeforeNone<X>(p: seq<Option<X>>, x: Option<X>, rest: seq<Option<X>>)
    requires forall j :: 0 <= j < |p| ==> p[j].Some?
    requires x.Some? && (rest == [] || rest[0].None?)
    ensures LastYielded(p + [x] + rest) == x
  {
    if p == [] {
      assert [] + [x] + rest == [x] + rest;
      assert ([x] + rest)[1..] == rest;
    } else {
      assert (p + [x] + rest)[1..] == p[1..] + [x] + rest;
      LastYieldedBeforeNone(p[1..], x, rest);
    }
  }

  /** The test `unterminated_string` of src/test.rs: when the inner iterator
      answers no `None` before its first error, `last()` on the wrapper is
      that error, whatever the inner iterator would answer afterwards. */
  lemma LastIsFirstErr<T, E>(xs: seq<Option<Result<T, E>>>, k: nat)
    requires k < |xs| && IsSomeErr(xs[k])
    requires forall j :: 0 <= j < k ==> xs[j].Some? && !IsSomeErr(xs[j])
    ensures LastYielded(FailStopView(xs)) == xs[k]
  {
    FailStopAfterFirstErr(xs, k);
    var nones := Nones<Result<T, E>>(|xs| - k - 1);
    assert xs[..k + 1] == xs[..k] + [xs[k]];
    LastYieldedBeforeNone(xs[..k], xs[k], nones);
  }

  /** Once the first `n` answers hold an error, later answers do not change
      the cut. */
  lemma {:induction false} CutPrefixStable<T, E>(xs: seq<Option<Result<T, E>>>, n: nat)
    requires n <= |xs| && HasErr(xs[..n])
    ensures Cut(xs) == Cut(xs[..n])
    decreases |xs| - n
  {
    if n < |xs| {
      assert xs[..n + 1] == xs[..n] + [xs[n]];
      CutSnoc(xs[..n], xs[n]);
      HasErrSnoc(xs[..n], xs[n]);
      CutPrefixStable(xs, n + 1);
    } else {
      assert xs[..n] == xs;
    }
  }

  /** Wrapping an already fail-stop sequence once more changes nothing. */
  lemma {:induction false} FailStopViewIdempotent<T, E>(xs: seq<Option<Result<T, E>>>)
    ensures FailStopView(FailStopView(xs)) == FailStopView(xs)
  {
    var c := Cut(xs);
    var v := FailStopView(xs);
    if HasErr(xs) {
      CutEndsAtFirstErr(xs);
      var p := c[..|c| - 1];
      assert c == p + [c[|c| - 1]];
      CutSnoc(p, c[|c| - 1]);
      assert v[..|c|] == c;
      HasErrSnoc(p, c[|c| - 1]);
      CutPrefixStable(v, |c|);
      assert Cut(v) == c;
    } else {
      assert v == xs;
    }
  }

  /** Clean exhaustion does not latch: after the inner iterator answers
      `None`, whatever it answers next is passed through. */
  lemma ExhaustionDoesNotLatch<T, E>(xs: seq<Option<Result<T, E>>>, x: Option<Result<T, E>>)
    requires !HasErr(xs)
    ensures FailStopView(xs + [None, x]) == xs + [None, x]
  {
    HasErrSnoc(xs, None);
    assert xs + [None, x] == (xs + [None]) + [x];
    CutSnoc(xs + [None], x);
  }

  /** The fail-stop decorator. `origin` and `produced` are the ghost view:
      the inner iterator as it was handed over, and every item answered so
      far. */
  class ResultIterator<T, E> {
    var inner: Stream<Result<T, E>>
    var errored: bool
    ghost var origin: Stream<Result<T, E>>
    ghost var produced: seq<Option<Result<T, E>>>

    ghost predicate Valid()
      reads this
    {
      inner.items == origin.items &&
      produced == FailStopView(origin.Window(|produced|)) &&
      errored == HasErr(produced) &&
      inner.pos == origin.pos + |Cut(origin.Window(|produced|))|
    }

    /** `ResultIterator::new`: not errored, holding the given iterator. */
    constructor (it: Stream<Result<T, E>>)
      ensures Valid()
      ensures this.inner == it && !errored
      ensures origin == it && produced == []
    {
      this.inner := it;
      errored := false;
      origin := it;
      produced := [];
    }

    /** `Iterator::next`. */
    method Next() returns (item: Option<Result<T, E>>)
      requires Valid()
      modifies this
      ensures Valid() && origin == old(origin)
      ensures produced == old(produced) + [item]
      ensures old(errored) ==> item == None && inner == old(inner) && errored
      ensures !old(errored) ==>
                item == old(inner).Peek() &&
                inner == old(inner).Advance() &&
                errored == IsSomeErr(item)
    {
      ghost var n := |produced|;
      ghost var w := origin.Window(n);
      FailStopViewHasErr(w);
      ViewStep(origin, n);
      FailStopViewHasErr(origin.Window(n + 1));
      if errored {
        item := None;
      } else {
        assert Cut(w) == w && inner.Peek() == origin.At(n);
        item := inner.Peek();
        inner := inner.Advance();
        if item.Some? && item.value.Err? {
          errored := true;
        }
      }
      produced := produced + [item];
    }
  }
}
