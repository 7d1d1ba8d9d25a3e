/** The device-name completion of the configuration editor
    (src/AutoComplete.ts): the devices whose label starts with the typed
    word, in device-list order, up to a limit. The editor glue that finds
    the word in the line is outside the model. */
module AutoComplete {
  import opened JsText
  import opened Seqs
  import opened LaunchConfig

  /** `new RegExp('^' + word + '\\w*').test(label)` for a word without
      regular-expression metacharacters: `\w*` may match nothing, so the
      test is a prefix test. */
  predicate LabelMatches(word: string, text: string) {
    StartsWith(text, word)
  }

  /** Every device whose label matches, in list order. */
  function Matching(list: seq<CompletionItem>, word: string): (r: seq<CompletionItem>)
    ensures |r| <= |list|
  {
    if list == [] then []
    else
      var last := list[|list| - 1];
      Matching(list[..|list| - 1], word) + (if LabelMatches(word, last.text) then [last] else [])
  }

  /** The matches are exactly the devices of the list whose label matches. */
  lemma {:induction false} MatchingMembers(list: seq<CompletionItem>, word: string)
    ensures forall x :: x in Matching(list, word) ==> x in list && LabelMatches(word, x.text)
    ensures forall x :: x in list && LabelMatches(word, x.text) ==> x in Matching(list, word)
    decreases |list|
  {
    if list != [] {
      var last := list[|list| - 1];
      MatchingMembers(list[..|list| - 1], word);
      assert list == list[..|list| - 1] + [last];
    }
  }

  /** The number of items after which the walk stops: `limit ? limit : 50`,
      and at least one, since the count is compared only after a push. */
  function Limit(limit: Option<int>): (n: nat)
    ensures limit.None? || limit.value == 0 ==> n == 50
    ensures limit.Some? && limit.value >= 1 ==> n == limit.value
    ensures n >= 1
  {
    var l := if limit.Some? && limit.value != 0 then limit.value else 50;
    if l < 1 then 1 else l
  }

  function Take<T>(s: seq<T>, n: nat): seq<T> {
    if |s| <= n then s else s[..n]
  }

  /** What `GetMatchedList` returns: the matching devices, cut at the limit. */
  function MatchedList(list: seq<CompletionItem>, word: string, limit: Option<int>): seq<CompletionItem> {
    Take(Matching(list, word), Limit(limit))
  }

  /** `GetMatchedList`: walks the device list, pushes each match, and stops
      once the count reaches the limit. */
  method GetMatchedList(list: seq<CompletionItem>, word: string, limit: Option<int>) returns (cList: seq<CompletionItem>)
    ensures cList == MatchedList(list, word, limit)
  {
    cList := [];
    var limitNum := if limit.Some? && limit.value != 0 then limit.value else 50;
    var i, j := 0, 0;
    while i < |list|
      invariant 0 <= i <= |list|
      invariant cList == Matching(list[..i], word) && j == |cList| && j < Limit(limit)
    {
      MatchingStep(list, word, i);
      if LabelMatches(word, list[i].text) {
        cList := cList + [list[i]];
        j := j + 1;
        if j >= limitNum {
          MatchedAtLimit(list, word, limit, i + 1);
          return;
        }
      }
      i := i + 1;
    }
    assert list[..i] == list;
  }

  /** One more element of the walk: pushed when its label matches. */
  lemma {:induction false} MatchingStep(list: seq<CompletionItem>, word: string, i: nat)
    requires i < |list|
    ensures Matching(list[..i + 1], word)
         == Matching(list[..i], word) + (if LabelMatches(word, list[i].text) then [list[i]] else [])
  {
    assert list[..i + 1][..i] == list[..i];
  }

  /** Once the matches of a prefix fill the limit, they are the result. */
  lemma {:induction false} MatchedAtLimit(list: seq<CompletionItem>, word: string, limit: Option<int>, k: nat)
    requires k <= |list| && |Matching(list[..k], word)| == Limit(limit)
    ensures MatchedList(list, word, limit) == Matching(list[..k], word)
  {
    MatchingPrefix(list, word, k);
  }

  /** The matches among a prefix of the list are a prefix of the matches. */
  lemma {:induction false} MatchingPrefix(list: seq<CompletionItem>, word: string, k: nat)
    requires k <= |list|
    ensures |Matching(list[..k], word)| <= |Matching(list, word)|
    ensures Matching(list, word)[..|Matching(list[..k], word)|] == Matching(list[..k], word)
    decreases |list| - k
  {
    if k == |list| {
      assert list[..k] == list;
    } else {
      MatchingPrefix(list[..|list| - 1], word, k);
      assert list[..|list| - 1][..k] == list[..k];
    }
  }

  lemma {:induction false} MatchingIsSubsequence(list: seq<CompletionItem>, word: string)
    ensures IsSubsequence(Matching(list, word), list)
    decreases |list|
  {
    if list != [] {
      var init := list[..|list| - 1];
      MatchingIsSubsequence(init, word);
      var m := Matching(list, word);
      if LabelMatches(word, list[|list| - 1].text) {
        assert m[..|m| - 1] == Matching(init, word);
        assert m[|m| - 1] == list[|list| - 1];
      } else {
        assert m == Matching(init, word);
      }
    }
  }

  /** The result holds only matching devices, at most `limit` of them (50
      when no limit is given), taken from the device list without
      reordering or repetition; when fewer devices match than the limit,
      all of them are returned. */
  lemma {:induction false} MatchedListProperties(list: seq<CompletionItem>, word: string, limit: Option<int>)
    ensures var r := MatchedList(list, word, limit);
      && |r| <= Limit(limit)
      && (forall x :: x in r ==> LabelMatches(word, x.text))
      && IsSubsequence(r, list)
      && (|Matching(list, word)| <= Limit(limit) ==> forall x :: x in list && LabelMatches(word, x.text) ==> x in r)
  {
    var m := Matching(list, word);
    MatchingMembers(list, word);
    MatchingIsSubsequence(list, word);
    if |m| > Limit(limit) {
      SubsequencePrefix(m, list, Limit(limit));
      forall x | x in m[..Limit(limit)] ensures LabelMatches(word, x.text) {
        assert x in m;
      }
    }
  }
}
