/** Array helpers shared by the list-building loops of the wrapper: keeping the
    recognised items of a list, and concatenating a list of strings. */
module Seqs {
  import opened JsText

  /** The results of `f` on the elements it recognises, in order: what a
      `forEach` that pushes every successful match builds. */
  function FilterMap<A, B>(xs: seq<A>, f: A -> Option<B>): (r: seq<B>)
    ensures |r| <= |xs|
  {
    if xs == [] then []
    else
      var last := f(xs[|xs| - 1]);
      FilterMap(xs[..|xs| - 1], f) + (if last.Some? then [last.value] else [])
  }

  /** `parts.join('')`. */
  function Flatten(parts: seq<string>): string
  {
    if parts == [] then [] else Flatten(parts[..|parts| - 1]) + parts[|parts| - 1]
  }

  lemma {:induction false} FilterMapAppend<A, B>(xs: seq<A>, ys: seq<A>, f: A -> Option<B>)
    ensures FilterMap(xs + ys, f) == FilterMap(xs, f) + FilterMap(ys, f)
    decreases |ys|
  {
    if ys == [] {
      assert xs + ys == xs;
    } else {
      var ys' := ys[..|ys| - 1];
      assert (xs + ys)[..|xs + ys| - 1] == xs + ys';
      FilterMapAppend(xs, ys', f);
    }
  }

  /** Every recognised element contributes exactly its result, in input order;
      unrecognised ones contribute nothing. */
  lemma {:induction false} FilterMapCons<A, B>(x: A, xs: seq<A>, f: A -> Option<B>)
    ensures FilterMap([x] + xs, f) == (if f(x).Some? then [f(x).value] else []) + FilterMap(xs, f)
  {
    FilterMapAppend([x], xs, f);
    assert [x][..0] == [];
  }

  /** Nothing is recognised exactly when the result is empty. */
  lemma {:induction false} FilterMapEmpty<A, B>(xs: seq<A>, f: A -> Option<B>)
    ensures FilterMap(xs, f) == [] <==> forall i :: 0 <= i < |xs| ==> f(xs[i]).None?
    decreases |xs|
  {
    if xs != [] {
      FilterMapEmpty(xs[..|xs| - 1], f);
    }
  }

  /** The loop behind every `forEach` that pushes the matches of one recogniser. */
  method Collect<A, B>(xs: seq<A>, f: A -> Option<B>) returns (res: seq<B>)
    ensures res == FilterMap(xs, f)
  {
    res := [];
    var i := 0;
    while i < |xs|
      invariant 0 <= i <= |xs|
      invariant res == FilterMap(xs[..i], f)
    {
      var m := f(xs[i]);
      if m.Some? {
        res := res + [m.value];
      }
      assert xs[..i + 1][..i] == xs[..i];
      i := i + 1;
    }
    assert xs[..|xs|] == xs;
  }

  /** The first position in `from .. n` where `at` holds. */
  function FirstFrom(from: nat, n: nat, at: nat -> bool): (r: Option<nat>)
    ensures r.Some? ==> from <= r.value < n && at(r.value)
    ensures r.Some? ==> forall q :: from <= q < r.value ==> !at(q)
    ensures r.None? ==> forall q :: from <= q < n ==> !at(q)
    decreases n - from
  {
    if from >= n then None
    else if at(from) then Some(from)
    else FirstFrom(from + 1, n, at)
  }

  /** The elements kept by `keep`, mapped by `f`, in order; the first
      exception `f` raises ends the walk, as it ends a `forEach`. */
  function TryMap<A, B>(xs: seq<A>, keep: A -> bool, f: A -> Outcome<B>): Outcome<seq<B>>
  {
    if xs == [] then Ok([])
    else
      match TryMap(xs[..|xs| - 1], keep, f)
      case Thrown(m) => Thrown(m)
      case Ok(done) =>
        var x := xs[|xs| - 1];
        if !keep(x) then Ok(done)
        else match f(x)
          case Thrown(m) => Thrown(m)
          case Ok(y) => Ok(done + [y])
  }

  /** One more element of the walk: skipped, thrown, or appended. */
  lemma {:induction false} TryMapStep<A, B>(xs: seq<A>, i: nat, keep: A -> bool, f: A -> Outcome<B>, done: seq<B>)
    requires i < |xs| && TryMap(xs[..i], keep, f) == Ok(done)
    ensures !keep(xs[i]) ==> TryMap(xs[..i + 1], keep, f) == Ok(done)
    ensures keep(xs[i]) && f(xs[i]).Ok? ==> TryMap(xs[..i + 1], keep, f) == Ok(done + [f(xs[i]).value])
    ensures keep(xs[i]) && f(xs[i]).Thrown? ==> TryMap(xs, keep, f) == Thrown(f(xs[i]).message)
  {
    assert xs[..i + 1][..i] == xs[..i];
    if keep(xs[i]) && f(xs[i]).Thrown? {
      TryMapThrownPrefix(xs, i + 1, keep, f);
    }
  }

  /** Once an element has thrown, no later element can change the outcome. */
  lemma {:induction false} TryMapThrownPrefix<A, B>(xs: seq<A>, n: nat, keep: A -> bool, f: A -> Outcome<B>)
    requires n <= |xs| && TryMap(xs[..n], keep, f).Thrown?
    ensures TryMap(xs, keep, f) == TryMap(xs[..n], keep, f)
    decreases |xs| - n
  {
    if n < |xs| {
      assert xs[..n + 1][..n] == xs[..n];
      TryMapThrownPrefix(xs, n + 1, keep, f);
    } else {
      assert xs[..n] == xs;
    }
  }

  /** Nothing comes back (and nothing threw) exactly when no element is kept;
      `f` itself never yields an empty result, so a kept element either
      throws or contributes. */
  lemma {:induction false} TryMapEmpty<A, B>(xs: seq<A>, keep: A -> bool, f: A -> Outcome<B>)
    ensures TryMap(xs, keep, f) == Ok([]) <==> forall i :: 0 <= i < |xs| ==> !keep(xs[i])
    decreases |xs|
  {
    if xs != [] {
      var init := xs[..|xs| - 1];
      TryMapEmpty(init, keep, f);
      if TryMap(init, keep, f).Thrown? {
        assert TryMap(xs, keep, f).Thrown?;
        assert forall i :: 0 <= i < |init| ==> init[i] == xs[i];
      } else {
        assert forall i :: 0 <= i < |init| ==> init[i] == xs[i];
      }
    }
  }

  /** Every result comes from some element, in place. */
  lemma {:induction false} FilterMapMember<A, B>(xs: seq<A>, f: A -> Option<B>, k: nat)
    requires k < |FilterMap(xs, f)|
    ensures exists i :: 0 <= i < |xs| && f(xs[i]) == Some(FilterMap(xs, f)[k])
    decreases |xs|
  {
    var init := xs[..|xs| - 1];
    var last := f(xs[|xs| - 1]);
    if k < |FilterMap(init, f)| {
      FilterMapMember(init, f, k);
      var i :| 0 <= i < |init| && f(init[i]) == Some(FilterMap(init, f)[k]);
      assert xs[i] == init[i];
    } else {
      assert f(xs[|xs| - 1]) == Some(FilterMap(xs, f)[k]);
    }
  }

  /** `a` is `b` with some elements left out, the rest in their order. */
  predicate IsSubsequence<T(==)>(a: seq<T>, b: seq<T>)
    decreases |b|
  {
    if a == [] then true
    else if b == [] then false
    else (a[|a| - 1] == b[|b| - 1] && IsSubsequence(a[..|a| - 1], b[..|b| - 1])) || IsSubsequence(a, b[..|b| - 1])
  }

  /** A prefix of a subsequence is a subsequence. */
  lemma {:induction false} SubsequencePrefix<T>(a: seq<T>, b: seq<T>, k: nat)
    requires k <= |a| && IsSubsequence(a, b)
    ensures IsSubsequence(a[..k], b)
    decreases |b|
  {
    if k == |a| {
      assert a[..k] == a;
    } else if k > 0 {
      if a[|a| - 1] == b[|b| - 1] && IsSubsequence(a[..|a| - 1], b[..|b| - 1]) {
        SubsequencePrefix(a[..|a| - 1], b[..|b| - 1], k);
        assert a[..|a| - 1][..k] == a[..k];
      } else {
        SubsequencePrefix(a, b[..|b| - 1], k);
      }
    }
  }

  /** Splitting off the head of the left operand of a concatenation. */
  lemma {:induction false} ConsAppend<T>(a: seq<T>, h: seq<T>)
    requires a != []
    ensures [a[0]] + (a[1..] + h) == a + h
  {
    assert a == [a[0]] + a[1..];
  }

  /** Some element satisfies `p`. */
  /** A walk over growing prefixes whose outcome, once thrown, stays thrown
      for every longer prefix. */
  lemma {:induction false} ThrownStays<A, T>(walk: seq<A> -> Outcome<T>, xs: seq<A>, n: nat)
    requires n <= |xs| && walk(xs[..n]).Thrown?
    requires forall k :: n < k <= |xs| && walk(xs[..k - 1]).Thrown? ==> walk(xs[..k]) == walk(xs[..k - 1])
    ensures walk(xs) == walk(xs[..n])
    decreases |xs| - n
  {
    if n < |xs| {
      assert walk(xs[..n + 1]) == walk(xs[..n]);
      ThrownStays(walk, xs, n + 1);
    } else {
      assert xs[..n] == xs;
    }
  }

  predicate Any<A>(xs: seq<A>, p: A -> bool) {
    exists i :: 0 <= i < |xs| && p(xs[i])
  }

  /** An element satisfying `p` is the last one or among the others. */
  lemma {:induction false} AnyStep<A>(xs: seq<A>, p: A -> bool)
    requires xs != []
    ensures Any(xs, p) <==> Any(xs[..|xs| - 1], p) || p(xs[|xs| - 1])
  {
    var init := xs[..|xs| - 1];
    if Any(xs, p) {
      var i :| 0 <= i < |xs| && p(xs[i]);
      if i < |init| {
        assert init[i] == xs[i];
      }
    }
    if Any(init, p) {
      var i :| 0 <= i < |init| && p(init[i]);
      assert xs[i] == init[i];
    }
  }
}
