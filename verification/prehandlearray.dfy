/** `ExpressionMatcher._PreHandleArray` of bin/GDBWrapper/out/GDBTextParser.js:
    every `{` that opens an array (the next character is `{`, a digit or `"`)
    is replaced, together with the `}` that closes it, by a pair of sentinels,
    so that a later rewrite can turn exactly those pairs into `[` and `]`.

    The brace structure is specified by the running depth: the `}` at `j`
    closes the `{` at `i` when the depth comes back to its level before `i`
    for the first time right after `j`. */
module PreHandleArray {
  import opened JsText
  import opened Seqs

  const OpenSentinel: string := "<0#0>"
  const CloseSentinel: string := "<1#1>"

  /** The message of the TypeError raised by reading `isBorder` of the
      `undefined` that popping an empty stack gives. */
  const UnmatchedCloseMessage: string := "Cannot read properties of undefined (reading 'isBorder')"

  function BraceStep(c: char): int {
    if c == '{' then 1 else if c == '}' then -1 else 0
  }

  /** Opening minus closing braces among the first `k` characters. */
  function Depth(s: string, k: nat): int
    requires k <= |s|
  {
    if k == 0 then 0 else Depth(s, k - 1) + BraceStep(s[k - 1])
  }

  /** Some `}` has no `{` left to close. */
  predicate Unbalanced(s: string) {
    exists k :: 0 < k <= |s| && Depth(s, k) < 0
  }

  /** The `}` at `j` closes the `{` at `i`. */
  predicate Closes(s: string, i: nat, j: nat) {
    i < j < |s| && s[i] == '{' && s[j] == '}' && Depth(s, j + 1) == Depth(s, i)
    && forall m :: i < m <= j ==> Depth(s, m) > Depth(s, i)
  }

  /** `_isBorder`: the character after `i` is `{`, a decimal digit or `"`. */
  predicate IsBorder(s: string, i: nat) {
    i + 1 < |s| && (s[i + 1] == '{' || IsDigit(s[i + 1]) || s[i + 1] == '"')
  }

  predicate OpensArray(s: string, i: nat) {
    IsBorder(s, i) && exists j :: i < j < |s| && Closes(s, i, j)
  }

  predicate ClosesArray(s: string, j: nat) {
    exists i :: 0 <= i < j && Closes(s, i, j) && IsBorder(s, i)
  }

  /** What the character at `k` becomes. */
  function Marked(s: string, k: nat): string
    requires k < |s|
  {
    if OpensArray(s, k) then OpenSentinel
    else if ClosesArray(s, k) then CloseSentinel
    else [s[k]]
  }

  function MarkedAll(s: string): seq<string> {
    seq(|s|, k requires 0 <= k < |s| => Marked(s, k))
  }

  /** The result of `_PreHandleArray`: an exception when a `}` has nothing to
      close, the marked text otherwise. */
  function PreHandled(s: string): Outcome<string> {
    if Unbalanced(s) then Thrown(UnmatchedCloseMessage) else Ok(Flatten(MarkedAll(s)))
  }

  // ---------------------------------------------------------------------------
  // Facts about the brace structure

  /** No `}` closes two different `{`. */
  lemma {:induction false} ClosesUnique(s: string, i1: nat, i2: nat, j: nat)
    requires Closes(s, i1, j) && Closes(s, i2, j)
    ensures i1 == i2
  {
  }

  /** Text without braces passes through unchanged. */
  lemma {:induction false} NoBracesUnchanged(s: string)
    requires forall k :: 0 <= k < |s| ==> s[k] != '{' && s[k] != '}'
    ensures PreHandled(s) == Ok(s)
  {
    assert forall k :: 0 <= k <= |s| ==> Depth(s, k) == 0 by {
      forall k | 0 <= k <= |s| ensures Depth(s, k) == 0 {
        DepthZero(s, k);
      }
    }
    assert MarkedAll(s) == seq(|s|, k requires 0 <= k < |s| => [s[k]]);
    FlattenSingletons(s);
  }

  lemma {:induction false} DepthZero(s: string, k: nat)
    requires k <= |s|
    requires forall m :: 0 <= m < |s| ==> s[m] != '{' && s[m] != '}'
    ensures Depth(s, k) == 0
  {
    if k > 0 {
      DepthZero(s, k - 1);
    }
  }

  lemma {:induction false} FlattenSingletons(s: string)
    ensures Flatten(seq(|s|, k requires 0 <= k < |s| => [s[k]])) == s
    decreases |s|
  {
    if s != [] {
      var parts := seq(|s|, k requires 0 <= k < |s| => [s[k]]);
      var front := s[..|s| - 1];
      assert parts[..|parts| - 1] == seq(|front|, k requires 0 <= k < |front| => [front[k]]);
      FlattenSingletons(front);
      assert front + [s[|s| - 1]] == s;
    }
  }

  // ---------------------------------------------------------------------------
  // The algorithm: a stack of open braces, then an in-place rewrite

  /** The entries on the stack are the `{` still open at `i`, innermost last,
      each with its `_isBorder` flag. */
  ghost predicate StackInv(s: string, i: nat, stack: seq<(nat, bool)>)
    requires i <= |s|
  {
    |stack| == Depth(s, i)
    && (forall m :: 0 <= m < |stack| ==> stack[m].0 < i && s[stack[m].0] == '{')
    && (forall m :: 0 <= m < |stack| ==> Depth(s, stack[m].0) == m)
    && (forall m :: 0 <= m < |stack| ==> stack[m].1 == IsBorder(s, stack[m].0))
    && (forall m, t :: 0 <= m < |stack| && stack[m].0 < t <= i ==> Depth(s, t) > m)
  }

  /** The recorded ranges are exactly the array brace pairs closed before `i`. */
  ghost predicate RangesInv(s: string, i: nat, ranges: seq<(nat, nat)>) {
    (forall q :: 0 <= q < |ranges| ==> ranges[q].1 < i && Closes(s, ranges[q].0, ranges[q].1) && IsBorder(s, ranges[q].0))
    && (forall a: nat, b: nat :: b < i && Closes(s, a, b) && IsBorder(s, a) ==> (a, b) in ranges)
  }

  lemma {:induction false} PushStep(s: string, i: nat, stack: seq<(nat, bool)>)
    requires i < |s| && s[i] == '{' && StackInv(s, i, stack)
    ensures StackInv(s, i + 1, stack + [(i, IsBorder(s, i))])
  {
    var st := stack + [(i, IsBorder(s, i))];
    forall m, t | 0 <= m < |st| && st[m].0 < t <= i + 1
      ensures Depth(s, t) > m
    {
      if t == i + 1 {
        assert Depth(s, i + 1) == |stack| + 1;
      }
    }
  }

  lemma {:induction false} PopStep(s: string, i: nat, stack: seq<(nat, bool)>, ranges: seq<(nat, nat)>)
    requires i < |s| && s[i] == '}' && stack != []
    requires StackInv(s, i, stack) && RangesInv(s, i, ranges)
    ensures Closes(s, stack[|stack| - 1].0, i)
    ensures StackInv(s, i + 1, stack[..|stack| - 1])
    ensures var top := stack[|stack| - 1];
      RangesInv(s, i + 1, if top.1 then ranges + [(top.0, i)] else ranges)
  {
    var top := stack[|stack| - 1];
    assert Depth(s, i + 1) == |stack| - 1;
    assert Closes(s, top.0, i);
    var ranges' := if top.1 then ranges + [(top.0, i)] else ranges;
    forall a: nat, b: nat | b < i + 1 && Closes(s, a, b) && IsBorder(s, a)
      ensures (a, b) in ranges'
    {
      if b == i {
        ClosesUnique(s, a, top.0, i);
      }
    }
  }

  lemma {:induction false} OtherStep(s: string, i: nat, stack: seq<(nat, bool)>, ranges: seq<(nat, nat)>)
    requires i < |s| && s[i] != '{' && s[i] != '}'
    requires StackInv(s, i, stack) && RangesInv(s, i, ranges)
    ensures StackInv(s, i + 1, stack) && RangesInv(s, i + 1, ranges)
  {
    assert Depth(s, i + 1) == Depth(s, i);
  }

  /** The first pass of `_PreHandleArray`: the `forEach` that pushes every
      `{` with its `_isBorder` flag on `cSatck` and, at each `}`, pops the
      innermost one and records the pair in `rangeList` when the flag is set.
      It fails exactly when a `}` finds the stack empty. */
  method BraceRanges(s: string) returns (ok: bool, ranges: seq<(nat, nat)>)
    ensures ok <==> !Unbalanced(s)
    ensures ok ==> RangesInv(s, |s|, ranges)
  {
    var stack: seq<(nat, bool)> := [];
    ranges := [];
    var i := 0;
    while i < |s|
      invariant 0 <= i <= |s|
      invariant WalkInv(s, i, stack, ranges)
    {
      if s[i] == '{' {
        PushWalk(s, i, stack, ranges);
        stack := stack + [(i, IsBorder(s, i))];
      } else if s[i] == '}' {
        if stack == [] {
          ClosesEmpty(s, i, stack, ranges);
          return false, ranges;
        }
        var top := stack[|stack| - 1];
        PopWalk(s, i, stack, ranges);
        if top.1 {
          ranges := ranges + [(top.0, i)];
        }
        stack := stack[..|stack| - 1];
      } else {
        OtherWalk(s, i, stack, ranges);
      }
      i := i + 1;
    }
    ok := true;
  }

  /** What the walk keeps after the first `i` characters: the stack and
      the recorded ranges, and no `}` so far without its `{`. */
  ghost predicate WalkInv(s: string, i: nat, stack: seq<(nat, bool)>, ranges: seq<(nat, nat)>)
    requires i <= |s|
  {
    StackInv(s, i, stack) && RangesInv(s, i, ranges) && forall k :: 0 < k <= i ==> Depth(s, k) >= 0
  }

  lemma {:induction false} PushWalk(s: string, i: nat, stack: seq<(nat, bool)>, ranges: seq<(nat, nat)>)
    requires i < |s| && s[i] == '{' && WalkInv(s, i, stack, ranges)
    ensures WalkInv(s, i + 1, stack + [(i, IsBorder(s, i))], ranges)
  {
    PushStep(s, i, stack);
    OtherRanges(s, i, ranges);
  }

  lemma {:induction false} PopWalk(s: string, i: nat, stack: seq<(nat, bool)>, ranges: seq<(nat, nat)>)
    requires i < |s| && s[i] == '}' && stack != [] && WalkInv(s, i, stack, ranges)
    ensures var top := stack[|stack| - 1];
      WalkInv(s, i + 1, stack[..|stack| - 1], if top.1 then ranges + [(top.0, i)] else ranges)
  {
    PopStep(s, i, stack, ranges);
  }

  lemma {:induction false} OtherWalk(s: string, i: nat, stack: seq<(nat, bool)>, ranges: seq<(nat, nat)>)
    requires i < |s| && s[i] != '{' && s[i] != '}' && WalkInv(s, i, stack, ranges)
    ensures WalkInv(s, i + 1, stack, ranges)
  {
    OtherStep(s, i, stack, ranges);
  }

  /** A `}` with the stack empty takes the depth below zero. */
  lemma {:induction false} ClosesEmpty(s: string, i: nat, stack: seq<(nat, bool)>, ranges: seq<(nat, nat)>)
    requires i < |s| && s[i] == '}' && stack == [] && WalkInv(s, i, stack, ranges)
    ensures Unbalanced(s)
  {
    assert Depth(s, i + 1) < 0;
  }

  /** A `{` closes nothing, so the recorded ranges carry over. */
  lemma {:induction false} OtherRanges(s: string, i: nat, ranges: seq<(nat, nat)>)
    requires i < |s| && s[i] != '}' && RangesInv(s, i, ranges)
    ensures RangesInv(s, i + 1, ranges)
  {
  }

  /** Each recorded pair is a `{` and a `}` of the text. */
  predicate BracePairs(s: string, ranges: seq<(nat, nat)>) {
    forall p :: 0 <= p < |ranges| ==>
      ranges[p].0 < |s| && ranges[p].1 < |s| && s[ranges[p].0] == '{' && s[ranges[p].1] == '}'
  }

  /** The second pass: the characters of the text in an array, with both ends
      of every recorded pair overwritten by the sentinels. */
  method WriteSentinels(s: string, ranges: seq<(nat, nat)>) returns (parts: seq<string>)
    requires BracePairs(s, ranges)
    ensures |parts| == |s|
    ensures forall p :: 0 <= p < |ranges| ==> parts[ranges[p].0] == OpenSentinel && parts[ranges[p].1] == CloseSentinel
    ensures forall k :: 0 <= k < |s| && NotInRanges(ranges, k) ==> parts[k] == [s[k]]
  {
    var res := new string[|s|](k => if 0 <= k < |s| then [s[k]] else "");
    var q := 0;
    while q < |ranges|
      invariant 0 <= q <= |ranges|
      invariant forall p :: 0 <= p < q ==> res[ranges[p].0] == OpenSentinel && res[ranges[p].1] == CloseSentinel
      invariant forall k :: 0 <= k < |s| && NotInRanges(ranges[..q], k) ==> res[k] == [s[k]]
    {
      var a, b := ranges[q].0, ranges[q].1;
      assert s[a] == '{' && s[b] == '}';
      ghost var old_res := res[..];
      res[a] := OpenSentinel;
      res[b] := CloseSentinel;
      assert forall k :: 0 <= k < |s| && k != a && k != b ==> res[k] == old_res[k];
      forall p | 0 <= p < q + 1
        ensures res[ranges[p].0] == OpenSentinel && res[ranges[p].1] == CloseSentinel
      {
        assert s[ranges[p].0] == '{' && s[ranges[p].1] == '}';
      }
      forall k | 0 <= k < |s| && NotInRanges(ranges[..q + 1], k)
        ensures res[k] == [s[k]]
      {
        assert ranges[..q + 1][q] == ranges[q];
        assert NotInRanges(ranges[..q], k) by {
          assert forall p :: 0 <= p < q ==> ranges[..q + 1][p] == ranges[..q][p];
        }
      }
      q := q + 1;
    }
    assert ranges[..|ranges|] == ranges;
    parts := res[..];
  }

  /** The second pass gives each position what the specification marks. */
  lemma {:induction false} PartsMarked(s: string, ranges: seq<(nat, nat)>, parts: seq<string>)
    requires RangesInv(s, |s|, ranges) && |parts| == |s|
    requires forall p :: 0 <= p < |ranges| ==> parts[ranges[p].0] == OpenSentinel && parts[ranges[p].1] == CloseSentinel
    requires forall k :: 0 <= k < |s| && NotInRanges(ranges, k) ==> parts[k] == [s[k]]
    ensures parts == MarkedAll(s)
  {
    forall k | 0 <= k < |s| ensures parts[k] == Marked(s, k) {
      MarkedFromRanges(s, ranges, k);
      if !NotInRanges(ranges, k) {
        var p :| 0 <= p < |ranges| && (ranges[p].0 == k || ranges[p].1 == k);
        assert Closes(s, ranges[p].0, ranges[p].1);
        if ranges[p].0 == k {
          assert OpensArray(s, k) by {
            assert k < ranges[p].1 < |s|;
          }
        } else {
          assert ClosesArray(s, k) by {
            assert 0 <= ranges[p].0 < k;
          }
          if OpensArray(s, k) {
            assert s[k] == '{';
          }
        }
      }
    }
  }

  /** `_PreHandleArray` with the sentinel pair fixed to `<0#0>` / `<1#1>`. */
  method PreHandleArray(s: string) returns (r: Outcome<string>)
    ensures r == PreHandled(s)
  {
    var ok, ranges := BraceRanges(s);
    if !ok {
      return Thrown(UnmatchedCloseMessage);
    }
    var parts := WriteSentinels(s, ranges);
    PartsMarked(s, ranges, parts);
    r := Ok(Flatten(parts));
  }

  predicate NotInRanges(rs: seq<(nat, nat)>, k: nat) {
    forall p :: 0 <= p < |rs| ==> rs[p].0 != k && rs[p].1 != k
  }

  /** Once all array brace pairs are recorded, a position is an end of a
      recorded pair exactly when it opens or closes an array. */
  lemma {:induction false} MarkedFromRanges(s: string, ranges: seq<(nat, nat)>, k: nat)
    requires k < |s| && RangesInv(s, |s|, ranges)
    ensures OpensArray(s, k) ==> exists p :: 0 <= p < |ranges| && ranges[p].0 == k
    ensures ClosesArray(s, k) ==> exists p :: 0 <= p < |ranges| && ranges[p].1 == k
    ensures NotInRanges(ranges, k) ==> !OpensArray(s, k) && !ClosesArray(s, k)
  {
    if OpensArray(s, k) {
      var j :| k < j < |s| && Closes(s, k, j);
      assert (k, j) in ranges;
    }
    if ClosesArray(s, k) {
      var i :| 0 <= i < k && Closes(s, i, k) && IsBorder(s, i);
      assert (i, k) in ranges;
    }
  }
}
