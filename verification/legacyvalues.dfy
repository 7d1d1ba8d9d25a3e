/** The value decoder of the older MI parser
    (bin/GDBWrapper/GDBTextParser.js): `ToJsonString`, `ConvertCharArray`,
    `_parseValue` and `ParseToValue`.

    Its patterns read `name = value` with a greedy `(.+)` for the name, so
    the name runs up to the LAST `=` after which the pattern's value shape
    fits; the value is what follows, without its surrounding white space.
    There is no fallback: a statement no pattern fits makes `_parseValue`
    read a failed match, which throws. `.` in the patterns is read as any
    character (the lines are split at line breaks before they get here). */
module LegacyValues {
  import opened JsText
  import opened Seqs
  import opened GdbProtocol
  import opened UnfoldRepeat
  import ExpressionMatcher
  import ExpressionValues

  // ---------------------------------------------------------------------------
  // The statement patterns

  /** `\{[^=]+\}|".+"`: braces around text without `=`, or a quoted text. */
  predicate IsArrayText(v: string) {
    (|v| >= 3 && v[0] == '{' && v[|v| - 1] == '}' && forall i :: 1 <= i < |v| - 1 ==> v[i] != '=')
    || ExpressionValues.IsStringText(v)
  }

  /** The value shapes of the statement patterns. */
  datatype Shape = IntegerShape | HexShape | FloatShape | ArrayShape | ObjectShape

  predicate Fits(shape: Shape, v: string) {
    match shape
    case IntegerShape => ExpressionValues.IsIntegerText(v)
    case HexShape => ExpressionValues.IsHexText(v)
    case FloatShape => ExpressionValues.IsFloatText(v)
    case ArrayShape => IsArrayText(v)
    case ObjectShape => ExpressionValues.IsObjectText(v)
  }

  /** The pattern `(.+)\s*=\s*VALUE` can split `s` at its `=` at `k`. */
  predicate SplitsAt(s: string, shape: Shape, k: nat) {
    1 <= k < |s| && s[k] == '=' && Fits(shape, Trim(s[k + 1..]))
  }

  /** The last `=` before `n`, not at the very start. */
  function LastEquals(s: string, n: nat): (r: Option<nat>)
    requires n <= |s|
    ensures r.Some? ==> 1 <= r.value < n && s[r.value] == '=' && forall j :: r.value < j < n ==> s[j] != '='
    ensures r.None? ==> forall j :: 1 <= j < n ==> s[j] != '='
    decreases n
  {
    if n <= 1 then None
    else if s[n - 1] == '=' then Some(n - 1)
    else LastEquals(s, n - 1)
  }

  /** The last `=` before `n` at which the pattern can split `s`: the split
      `exec` finds, the name group being greedy. */
  function LastSplit(s: string, shape: Shape, n: nat): (r: Option<nat>)
    requires n <= |s|
    ensures r.Some? ==> r.value < n && SplitsAt(s, shape, r.value)
    decreases n
  {
    match LastEquals(s, n)
    case None => None
    case Some(k) => if SplitsAt(s, shape, k) then Some(k) else LastSplit(s, shape, k)
  }

  /** No later `=` splits: the split found is the last one, and none is
      found only when there is none. */
  lemma {:induction false} LastSplitIsLast(s: string, shape: Shape, n: nat)
    requires n <= |s|
    ensures LastSplit(s, shape, n).Some? ==>
      forall k: nat :: LastSplit(s, shape, n).value < k < n ==> !SplitsAt(s, shape, k)
    ensures LastSplit(s, shape, n).None? ==> forall k: nat :: k < n ==> !SplitsAt(s, shape, k)
    decreases n
  {
    match LastEquals(s, n)
    case None =>
      forall k: nat | k < n ensures !SplitsAt(s, shape, k) {
        if 1 <= k {
          assert s[k] != '=';
        }
      }
    case Some(e) =>
      forall k: nat | e < k < n ensures !SplitsAt(s, shape, k) {
        assert s[k] != '=';
      }
      if !SplitsAt(s, shape, e) {
        LastSplitIsLast(s, shape, e);
        assert LastSplit(s, shape, n) == LastSplit(s, shape, e);
        var v: nat := if LastSplit(s, shape, e).Some? then LastSplit(s, shape, e).value + 1 else 0;
        forall k: nat | v <= k < n ensures !SplitsAt(s, shape, k) {
          if k > e {
            assert s[k] != '=';
          } else if k == e {
            assert !SplitsAt(s, shape, e);
          }
        }
      }
  }

  function SplitAt(s: string, shape: Shape): (r: Option<nat>)
    ensures r.Some? ==> SplitsAt(s, shape, r.value)
  {
    LastSplit(s, shape, |s|)
  }

  /** The pattern fails to match exactly when no `=` splits. */
  lemma {:induction false} SplitAtNone(s: string, shape: Shape)
    ensures SplitAt(s, shape).None? <==> forall k: nat :: !SplitsAt(s, shape, k)
  {
    LastSplitIsLast(s, shape, |s|);
  }

  /** With one `=` after the first character, the split is there or nowhere. */
  lemma {:induction false} SplitAtOnly(s: string, shape: Shape, k: nat, v: string)
    requires 1 <= k < |s| && s[k] == '='
    requires forall j :: 1 <= j < |s| && j != k ==> s[j] != '='
    requires Trim(s[k + 1..]) == v
    ensures SplitAt(s, shape) == if Fits(shape, v) then Some(k) else None
  {
    EqualsOnlyAt(s, k);
    LastSplitAt(s, shape, k);
  }

  /** With `k` the only `=`, the split is there or nowhere. */
  lemma {:induction false} LastSplitAt(s: string, shape: Shape, k: nat)
    requires k <= |s| && LastEquals(s, k) == None && LastEquals(s, |s|) == Some(k)
    ensures SplitAt(s, shape) == if SplitsAt(s, shape, k) then Some(k) else None
  {
    assert LastSplit(s, shape, k) == None;
  }

  /** The only `=` after the first character is the last one, and none
      comes before it. */
  lemma {:induction false} EqualsOnlyAt(s: string, k: nat)
    requires 1 <= k < |s| && s[k] == '='
    requires forall j :: 1 <= j < |s| && j != k ==> s[j] != '='
    ensures LastEquals(s, k) == None && LastEquals(s, |s|) == Some(k)
  {
  }

  // ---------------------------------------------------------------------------
  // `ToJsonString`

  /** `[\$\w]` */
  predicate IsNameChar(c: char) { IsWordChar(c) || c == '$' }

  /** `replace(/KEY+\s*=/g, ...)`: a run of key characters followed by
      white space and `=` becomes the quoted run, `gap` and `=`. */
  function QuoteKeys(s: string, key: char -> bool, gap: string): string
    decreases |s|
  {
    if s == [] then []
    else
      var m := KeyMatch(s, key);
      KeyPiece(s, m, gap) + QuoteKeys(s[KeyNext(m)..], key, gap)
  }

  /** Whether the pattern of `QuoteKeys` matches at the start of a text:
      `Key(w, e)` when the key is `s[..w]` and `s[e]` is the `=`. */
  datatype KeyMatchResult = NoKey | Key(end: nat, equals: nat)

  function KeyMatch(s: string, key: char -> bool): (r: KeyMatchResult)
    ensures r.Key? ==> 1 <= r.end <= r.equals < |s|
  {
    var w := Span(s, key);
    var sp := Span(s[w..], IsSpace);
    if w >= 1 && w + sp < |s| && s[w + sp] == '=' then Key(w, w + sp) else NoKey
  }

  /** Where `QuoteKeys` goes on after a match, or after one character. */
  function KeyNext(m: KeyMatchResult): nat {
    if m.Key? then m.equals + 1 else 1
  }

  /** What `QuoteKeys` makes of the start of `s` up to where it goes on. */
  function KeyPiece(s: string, m: KeyMatchResult, gap: string): string
    requires s != [] && (m.Key? ==> m.end <= m.equals < |s|)
  {
    match m
    case Key(w, _) => "\"" + s[..w] + "\"" + gap + "="
    case NoKey => [s[0]]
  }

  /** `replace(/=\s*[a-zA-Z_]\w*(}|,)/g, ...)`: an identifier value that
      ends a field is quoted, and the white space before it goes. */
  function QuoteWords(s: string): string
    decreases |s|
  {
    if s == [] then []
    else
      var m := WordMatch(s);
      WordPiece(s, m) + QuoteWords(s[WordNext(m)..])
  }

  /** Where `QuoteWords` goes on after a match, or after one character. */
  function WordNext(m: WordMatchResult): nat {
    if m.Word? then m.end + 1 else 1
  }

  /** What `QuoteWords` makes of the start of `s` up to where it goes on. */
  function WordPiece(s: string, m: WordMatchResult): string
    requires s != [] && (m.Word? ==> m.start <= m.end < |s|)
  {
    match m
    case Word(p, e) => "=\"" + s[p..e] + "\"" + [s[e]]
    case NoWord => [s[0]]
  }

  /** Whether the pattern of `QuoteWords` matches at the start of a text:
      `Word(p, e)` when the identifier is `s[p..e]` and `s[e]` is the `}`
      or `,` after it. */
  datatype WordMatchResult = NoWord | Word(start: nat, end: nat)

  function WordMatch(s: string): (r: WordMatchResult)
    ensures r.Word? ==> 1 <= r.start <= r.end < |s|
  {
    if s == [] then NoWord
    else
      var p := 1 + Span(s[1..], IsSpace);
      var w := if p < |s| then Span(s[p..], IsWordChar) else 0;
      if s[0] == '=' && p < |s| && IsIdentStart(s[p]) && p + w < |s| && (s[p + w] == '}' || s[p + w] == ',') then
        Word(p, p + w)
      else NoWord
  }

  /** `replace(/(?:0x|0X)[0-9a-fA-F]+/g, ...)`: every hexadecimal literal,
      wherever it starts, becomes its value in decimal. */
  function HexToDecimal(s: string): string
    decreases |s|
  {
    if s == [] then []
    else
      var e := HexLiteralEnd(s);
      var next := if e == 0 then 1 else e;
      HexPiece(s, e) + HexToDecimal(s[next..])
  }

  /** Where the hexadecimal literal at the start of `s` ends, or 0 when
      there is none. */
  function HexLiteralEnd(s: string): (e: nat)
    ensures e == 0 || 3 <= e <= |s|
  {
    if |s| >= 3 && s[0] == '0' && (s[1] == 'x' || s[1] == 'X') && IsHexDigit(s[2]) then
      2 + Span(s[2..], IsHexDigit)
    else 0
  }

  /** What `HexToDecimal` makes of the start of `s` up to where it goes on. */
  function HexPiece(s: string, e: nat): string
    requires s != [] && (e == 0 || 2 <= e <= |s|)
  {
    if e == 0 then [s[0]] else NatToString(RadixValue(s[2..e], 16))
  }

  /** `ToJsonString`: names quoted, identifier values quoted, hexadecimal
      made decimal, then every `=` a `:`. */
  function ToJsonString(s: string): (r: string)
    ensures forall i :: 0 <= i < |r| ==> r[i] != '='
  {
    var t := HexToDecimal(QuoteWords(QuoteKeys(s, IsNameChar, " ")));
    ReplaceAllChar(t, '=', ':');
    ReplaceAll(t, "=", ":")
  }

  lemma {:induction false} QuoteKeysUnfold(s: string, key: char -> bool, gap: string)
    requires s != []
    ensures QuoteKeys(s, key, gap) == KeyPiece(s, KeyMatch(s, key), gap) + QuoteKeys(s[KeyNext(KeyMatch(s, key))..], key, gap)
  {
  }

  lemma {:induction false} KeyMatchNext(s: string, key: char -> bool, w: nat, e: nat)
    requires KeyMatch(s, key) == Key(w, e)
    ensures KeyNext(KeyMatch(s, key)) == e + 1 <= |s|
  {
  }

  lemma {:induction false} QuoteKeysFrom(s: string, key: char -> bool, gap: string, k: nat)
    requires k <= |s| && KeyNext(KeyMatch(s, key)) == k
    ensures QuoteKeys(s[KeyNext(KeyMatch(s, key))..], key, gap) == QuoteKeys(s[k..], key, gap)
  {
  }

  lemma {:induction false} KeyPieceOf(s: string, m: KeyMatchResult, gap: string, w: nat, e: nat)
    requires s != [] && m == Key(w, e) && w <= e < |s|
    ensures KeyPiece(s, m, gap) == "\"" + s[..w] + "\"" + gap + "="
  {
  }

  /** One match of the pattern, rewritten. */
  lemma {:induction false} QuoteKeysMatch(s: string, key: char -> bool, gap: string, w: nat, e: nat)
    requires s != [] && KeyMatch(s, key) == Key(w, e)
    ensures w <= e < |s| && QuoteKeys(s, key, gap) == "\"" + s[..w] + "\"" + gap + "=" + QuoteKeys(s[e + 1..], key, gap)
  {
    QuoteKeysUnfold(s, key, gap);
    KeyMatchNext(s, key, w, e);
    QuoteKeysFrom(s, key, gap, e + 1);
    KeyPieceOf(s, KeyMatch(s, key), gap, w, e);
  }

  lemma {:induction false} QuoteKeysNoMatch(s: string, key: char -> bool, gap: string)
    requires s != [] && KeyMatch(s, key) == NoKey
    ensures QuoteKeys(s, key, gap) == [s[0]] + QuoteKeys(s[1..], key, gap)
  {
  }

  lemma {:induction false} QuoteKeysSkip(c: char, t: string, key: char -> bool, gap: string)
    requires !key(c)
    ensures QuoteKeys([c] + t, key, gap) == [c] + QuoteKeys(t, key, gap)
  {
    var s := [c] + t;
    assert KeyMatch(s, key) == NoKey by {
      assert s[0] == c;
    }
    QuoteKeysNoMatch(s, key, gap);
    assert s[1..] == t;
  }

  lemma {:induction false} SpaceLayout(sp: string, t: string)
    requires forall i :: 0 <= i < |sp| ==> IsSpace(sp[i])
    ensures var r := sp + "=" + t;
      Span(r, IsSpace) == |sp| && r[|sp|] == '=' && r[|sp| + 1..] == t
  {
    var r := sp + "=" + t;
    assert r == sp + ("=" + t);
    SpanOfConcat(sp, "=" + t, IsSpace);
    assert r[|sp| + 1..] == t;
  }

  /** How `QuoteKeys` sees a key, white space and `=`. */
  lemma {:induction false} KeyLayout(name: string, sp: string, t: string, key: char -> bool)
    requires forall i :: 0 <= i < |name| ==> key(name[i])
    requires forall i :: 0 <= i < |sp| ==> IsSpace(sp[i])
    requires !key('=') && (sp == [] || !key(sp[0]))
    ensures var s := name + sp + "=" + t;
      Span(s, key) == |name| && Span(s[|name|..], IsSpace) == |sp| && s[|name| + |sp|] == '='
      && s[..|name|] == name && s[|name| + |sp| + 1..] == t
  {
    var r := sp + "=" + t;
    SpaceLayout(sp, t);
    var s := name + sp + "=" + t;
    assert s == name + r;
    SpanOfConcat(name, r, key);
    assert s[|name|..] == r;
    assert s[|name| + |sp| + 1..] == r[|sp| + 1..];
  }

  /** The pattern matches a key, white space and `=`. */
  lemma {:induction false} KeyMatchLayout(name: string, sp: string, t: string, key: char -> bool)
    requires name != [] && forall i :: 0 <= i < |name| ==> key(name[i])
    requires forall i :: 0 <= i < |sp| ==> IsSpace(sp[i])
    requires !key('=') && (sp == [] || !key(sp[0]))
    ensures var s := name + sp + "=" + t;
      KeyMatch(s, key) == Key(|name|, |name| + |sp|) && s[..|name|] == name && s[|name| + |sp| + 1..] == t
  {
    KeyLayout(name, sp, t, key);
  }

  /** A key, white space and `=` are rewritten at once. */
  lemma {:induction false} QuoteKeysKey(name: string, sp: string, t: string, key: char -> bool, gap: string)
    requires name != [] && forall i :: 0 <= i < |name| ==> key(name[i])
    requires forall i :: 0 <= i < |sp| ==> IsSpace(sp[i])
    requires !key('=') && (sp == [] || !key(sp[0]))
    ensures QuoteKeys(name + sp + "=" + t, key, gap) == "\"" + name + "\"" + gap + "=" + QuoteKeys(t, key, gap)
  {
    KeyMatchLayout(name, sp, t, key);
    QuoteKeysMatch(name + sp + "=" + t, key, gap, |name|, |name| + |sp|);
  }

  /** Without an `=` the pattern does not match. */
  lemma {:induction false} KeyMatchPlain(s: string, key: char -> bool)
    requires NoEquals(s)
    ensures KeyMatch(s, key) == NoKey
  {
  }

  /** Text without `=` is left as it is. */
  lemma {:induction false} QuoteKeysPlain(s: string, key: char -> bool, gap: string)
    requires forall i :: 0 <= i < |s| ==> s[i] != '='
    ensures QuoteKeys(s, key, gap) == s
    decreases |s|
  {
    if s != [] {
      KeyMatchPlain(s, key);
      QuoteKeysNoMatch(s, key, gap);
      PlainTail(s);
      QuoteKeysPlain(s[1..], key, gap);
    }
  }

  lemma {:induction false} PlainTail(s: string)
    requires s != [] && NoEquals(s)
    ensures NoEquals(s[1..]) && [s[0]] + s[1..] == s
  {
  }

  lemma {:induction false} QuoteWordsPlain(s: string)
    requires forall i :: 0 <= i < |s| ==> s[i] != '='
    ensures QuoteWords(s) == s
    decreases |s|
  {
    if s != [] {
      QuoteWordsPlain(s[1..]);
      assert [s[0]] + s[1..] == s;
    }
  }

  lemma {:induction false} QuoteWordsPrefix(a: string, t: string)
    requires forall i :: 0 <= i < |a| ==> a[i] != '='
    ensures QuoteWords(a + t) == a + QuoteWords(t)
    decreases |a|
  {
    if a != [] {
      assert (a + t)[1..] == a[1..] + t;
      assert QuoteWords(a + t) == [a[0]] + QuoteWords(a[1..] + t);
      QuoteWordsPrefix(a[1..], t);
      ConsAppend(a, QuoteWords(t));
    } else {
      assert a + t == t;
    }
  }

  /** An `=` followed by white space and a value that does not start an
      identifier is kept. */
  lemma {:induction false} QuoteWordsNonWord(sp: string, t: string)
    requires forall i :: 0 <= i < |sp| ==> IsSpace(sp[i])
    requires t != [] && !IsSpace(t[0]) && !IsIdentStart(t[0])
    ensures QuoteWords("=" + sp + t) == "=" + QuoteWords(sp + t)
  {
    var s := "=" + sp + t;
    assert s[1..] == sp + t;
    SpanOfConcat(sp, t, IsSpace);
    assert s[1 + |sp|] == t[0];
  }

  lemma {:induction false} HexToDecimalStep(s: string, e: nat)
    requires s != [] && HexLiteralEnd(s) == e
    ensures e == 0 ==> HexToDecimal(s) == [s[0]] + HexToDecimal(s[1..])
    ensures e != 0 ==> 3 <= e <= |s| && HexToDecimal(s) == NatToString(RadixValue(s[2..e], 16)) + HexToDecimal(s[e..])
  {
  }

  /** Text without `0x` or `0X` has no hexadecimal literal. */
  lemma {:induction false} HexToDecimalPrefix(a: string, t: string)
    requires NoHexStart(a)
    requires t == [] || !IsX(t[0])
    ensures HexToDecimal(a + t) == a + HexToDecimal(t)
    decreases |a|
  {
    if a != [] {
      HexStartShape(a, t);
      HexToDecimalStep(a + t, 0);
      if |a| > 1 {
        HexToDecimalPrefix(a[1..], t);
      }
      PrefixJoin(a, HexToDecimal(a + t), HexToDecimal(a[1..] + t), HexToDecimal(t));
    } else {
      assert a + t == t;
    }
  }

  /** No literal starts at the front of `a + t`, and the rest of `a` has
      no `0x` either. */
  lemma {:induction false} HexStartShape(a: string, t: string)
    requires a != [] && NoHexStart(a) && (t == [] || !IsX(t[0]))
    ensures HexLiteralEnd(a + t) == 0 && (a + t)[0] == a[0] && (a + t)[1..] == a[1..] + t
    ensures |a| == 1 ==> a[1..] + t == t
    ensures |a| > 1 ==> NoHexStart(a[1..])
  {
    var s := a + t;
    assert s[1..] == a[1..] + t;
    assert |s| >= 2 ==> !(s[0] == '0' && IsX(s[1])) by {
      if |a| >= 2 {
        assert s[0] == a[0] && s[1] == a[1];
      }
    }
    if |a| > 1 {
      var b := a[1..];
      forall i | 0 <= i < |b| - 1 ensures !(b[i] == '0' && IsX(b[i + 1])) {
        assert b[i] == a[i + 1] && b[i + 1] == a[i + 2];
      }
    }
  }

  /** Where a literal followed by a non-digit ends. */
  lemma {:induction false} HexLiteralLayout(h: string, t: string)
    requires h != [] && AllHexDigits(h) && (t == [] || !IsHexDigit(t[0]))
    ensures var s := "0x" + h + t;
      HexLiteralEnd(s) == 2 + |h| && s[2..2 + |h|] == h && s[2 + |h|..] == t
  {
    var s := "0x" + h + t;
    assert s[2..] == h + t;
    SpanOfConcat(h, t, IsHexDigit);
    assert s[2..2 + |h|] == h;
    assert s[2 + |h|..] == t;
  }

  /** A literal becomes the decimal text of its value. */
  lemma {:induction false} HexToDecimalLiteral(h: string, t: string)
    requires h != [] && AllHexDigits(h) && (t == [] || !IsHexDigit(t[0]))
    ensures HexToDecimal("0x" + h + t) == NatToString(RadixValue(h, 16)) + HexToDecimal(t)
  {
    HexLiteralLayout(h, t);
    HexToDecimalStep("0x" + h + t, 2 + |h|);
  }

  lemma {:induction false} HexToDecimalPlain(t: string)
    requires NoHexStart(t)
    ensures HexToDecimal(t) == t
  {
    HexToDecimalPrefix(t, []);
    assert t + [] == t;
  }

  predicate IsX(c: char) { c == 'x' || c == 'X' }

  /** No `0x` or `0X` in `s`, so no hexadecimal literal starts in it. */
  predicate NoHexStart(s: string) { forall i :: 0 <= i < |s| - 1 ==> !(s[i] == '0' && IsX(s[i + 1])) }

  /** Text without `x` or `X` at all, such as digits. */
  predicate NoX(s: string) { forall i :: 0 <= i < |s| ==> !IsX(s[i]) }

  lemma {:induction false} NoXNoHexStart(s: string)
    requires NoX(s)
    ensures NoHexStart(s)
  {
    forall i | 0 <= i < |s| - 1 ensures !(s[i] == '0' && IsX(s[i + 1])) {
      assert !IsX(s[i + 1]);
    }
  }

  predicate IsFieldName(n: string) {
    n != [] && (forall i :: 0 <= i < |n| ==> IsWordChar(n[i])) && NoHexStart(n)
  }

  /** How the text of one field splits around its `=` for the first pass. */
  lemma {:induction false} KeysPieces(n: string, v: string)
    ensures "{" + n + " = " + v + "}" == ['{'] + (n + " " + "=" + (" " + (v + "}")))
    ensures ['{'] + ("\"" + n + "\"" + " " + "=" + (" " + (v + "}"))) == "{\"" + n + "\" = " + v + "}"
  {
  }

  /** How the quoted field splits around its `=` for the second pass. */
  lemma {:induction false} WordsPieces(n: string, v: string)
    requires IsFieldName(n)
    ensures "{\"" + n + "\" " + ("=" + (" " + (v + "}"))) == "{\"" + n + "\" = " + v + "}"
    ensures forall i :: 0 <= i < |"{\"" + n + "\" "| ==> ("{\"" + n + "\" ")[i] != '='
  {
    var a := "{\"" + n + "\" ";
    forall i | 0 <= i < |a| ensures a[i] != '=' {
      if 2 <= i < |n| + 2 {
        assert a[i] == n[i - 2];
      }
    }
  }

  /** The first pass on one field: the name is quoted. */
  lemma {:induction false} QuoteKeysField(n: string, v: string)
    requires IsFieldName(n) && forall i :: 0 <= i < |v| ==> v[i] != '='
    ensures QuoteKeys("{" + n + " = " + v + "}", IsNameChar, " ") == "{\"" + n + "\" = " + v + "}"
  {
    var rest := " " + (v + "}");
    assert forall i :: 0 <= i < |n| ==> IsNameChar(n[i]);
    assert !IsNameChar('=') && !IsNameChar(' ') && !IsNameChar('{');
    assert forall i :: 0 <= i < |rest| ==> rest[i] != '=';
    QuoteKeysKey(n, " ", rest, IsNameChar, " ");
    QuoteKeysSkip('{', n + " " + "=" + rest, IsNameChar, " ");
    QuoteKeysPlain(rest, IsNameChar, " ");
    KeysPieces(n, v);
  }

  /** The second pass on one quoted field: a value that does not start an
      identifier is kept. */
  lemma {:induction false} QuoteWordsField(n: string, v: string)
    requires IsFieldName(n)
    requires v != [] && !IsSpace(v[0]) && !IsIdentStart(v[0]) && forall i :: 0 <= i < |v| ==> v[i] != '='
    ensures QuoteWords("{\"" + n + "\" = " + v + "}") == "{\"" + n + "\" = " + v + "}"
  {
    var rest := " " + (v + "}");
    assert forall i :: 0 <= i < |rest| ==> rest[i] != '=';
    QuoteWordsNonWord(" ", v + "}");
    QuoteWordsPlain(rest);
    WordsPieces(n, v);
    QuoteWordsPrefix("{\"" + n + "\" ", "=" + rest);
  }

  /** The first two passes on one field: the name is quoted, a value that
      is not an identifier is kept. */
  lemma {:induction false} QuotedField(n: string, v: string)
    requires IsFieldName(n)
    requires v != [] && !IsSpace(v[0]) && !IsIdentStart(v[0]) && forall i :: 0 <= i < |v| ==> v[i] != '='
    ensures QuoteWords(QuoteKeys("{" + n + " = " + v + "}", IsNameChar, " ")) == "{\"" + n + "\" = " + v + "}"
  {
    QuoteKeysField(n, v);
    QuoteWordsField(n, v);
  }

  predicate NoEquals(s: string) { forall i :: 0 <= i < |s| ==> s[i] != '=' }

  /** The quoted field around its `=`, for the last pass. */
  lemma {:induction false} ColonPieces(n: string, v: string)
    requires IsFieldName(n) && NoEquals(v)
    ensures var a := "{\"" + n + "\" "; var b := " " + v + "}";
      "{\"" + n + "\" = " + v + "}" == a + "=" + b && a + ":" + b == "{\"" + n + "\" : " + v + "}"
      && NoEquals(a) && NoEquals(b)
  {
    var a := "{\"" + n + "\" ";
    forall i | 0 <= i < |a| ensures a[i] != '=' {
      if 2 <= i < |n| + 2 {
        assert a[i] == n[i - 2];
      }
    }
    var b := " " + v + "}";
    forall i | 0 <= i < |b| ensures b[i] != '=' {
      if 1 <= i <= |v| {
        assert b[i] == v[i - 1];
      }
    }
  }

  /** The quoted field before its value, for the hexadecimal pass. */
  lemma {:induction false} HexPieces(n: string, v: string)
    requires IsFieldName(n)
    ensures var p := "{\"" + n + "\" = ";
      "{\"" + n + "\" = " + v + "}" == p + (v + "}") && NoHexStart(p)
  {
    var p := "{\"" + n + "\" = ";
    forall i | 0 <= i < |p| - 1 ensures !(p[i] == '0' && IsX(p[i + 1])) {
      if 2 <= i < |n| + 1 {
        assert p[i] == n[i - 2] && p[i + 1] == n[i - 1];
      } else if i == |n| + 1 {
        assert p[i + 1] == '"';
      }
    }
  }

  /** The last pass on a quoted field whose value has no `=`. */
  lemma {:induction false} ColonField(n: string, v: string)
    requires IsFieldName(n) && NoEquals(v)
    ensures ReplaceAll("{\"" + n + "\" = " + v + "}", "=", ":") == "{\"" + n + "\" : " + v + "}"
  {
    var a := "{\"" + n + "\" ";
    var b := " " + v + "}";
    assert "{\"" + n + "\" = " + v + "}" == a + "=" + b && a + ":" + b == "{\"" + n + "\" : " + v + "}"
      && NoEquals(a) && NoEquals(b) by {
      ColonPieces(n, v);
    }
    EqualsToColon("{\"" + n + "\" = " + v + "}", a, b);
  }

  /** `ToJsonString` on a one-field object with a decimal value: the name
      quoted and `=` made `:`. */
  lemma {:induction false} ToJsonDecimalField(n: string, d: string)
    requires IsFieldName(n) && d != [] && AllDigits(d)
    ensures ToJsonString("{" + n + " = " + d + "}") == "{\"" + n + "\" : " + d + "}"
  {
    var t := "{\"" + n + "\" = " + d + "}";
    assert NoEquals(d);
    assert HexToDecimal(t) == t by {
      var p := "{\"" + n + "\" = ";
      HexPieces(n, d);
      assert NoX(d + "}");
      NoXNoHexStart(d + "}");
      HexToDecimalPrefix(p, d + "}");
      HexToDecimalPlain(d + "}");
    }
    QuotedField(n, d);
    ColonField(n, d);
  }

  /** The third pass on one quoted field with a hexadecimal value. */
  lemma {:induction false} HexToDecimalField(n: string, h: string)
    requires IsFieldName(n) && h != [] && AllHexDigits(h)
    ensures HexToDecimal("{\"" + n + "\" = " + ("0x" + h) + "}")
         == "{\"" + n + "\" = " + NatToString(RadixValue(h, 16)) + "}"
  {
    var p := "{\"" + n + "\" = ";
    var dec := NatToString(RadixValue(h, 16));
    assert HexToDecimal("0x" + h + "}") == dec + "}" by {
      assert HexToDecimal("}") == "}";
      HexToDecimalLiteral(h, "}");
    }
    HexPieces(n, "0x" + h);
    HexPieces(n, dec);
    HexToDecimalPrefix(p, "0x" + h + "}");
  }

  /** `ToJsonString` on a one-field object with a hexadecimal value: the
      name quoted, the value in decimal and `=` made `:`. */
  lemma {:induction false} ToJsonHexField(n: string, h: string)
    requires IsFieldName(n) && h != [] && AllHexDigits(h)
    ensures ToJsonString("{" + n + " = " + ("0x" + h) + "}") == "{\"" + n + "\" : " + NatToString(RadixValue(h, 16)) + "}"
  {
    HexLiteralText(h);
    QuotedField(n, "0x" + h);
    HexToDecimalField(n, h);
    var dec := NatToString(RadixValue(h, 16));
    assert forall i :: 0 <= i < |dec| ==> dec[i] != '=';
    ColonField(n, dec);
  }

  /** A hexadecimal literal starts with `0` and holds no `=`. */
  lemma {:induction false} HexLiteralText(h: string)
    requires AllHexDigits(h)
    ensures var t := "0x" + h; t != [] && t[0] == '0' && forall i :: 0 <= i < |t| ==> t[i] != '='
  {
    var t := "0x" + h;
    forall i | 0 <= i < |t| ensures t[i] != '=' {
      if 2 <= i {
        assert t[i] == h[i - 2];
      }
    }
  }

  /** The last pass on text with one `=`. */
  lemma {:induction false} EqualsToColon(t: string, a: string, b: string)
    requires t == a + "=" + b
    requires forall i :: 0 <= i < |a| ==> a[i] != '='
    requires forall i :: 0 <= i < |b| ==> b[i] != '='
    ensures ReplaceAll(t, "=", ":") == a + ":" + b
  {
    ReplaceAllChar(t, '=', ':');
    var r := ReplaceAll(t, "=", ":");
    assert forall i :: 0 <= i < |r| ==> r[i] == (a + ":" + b)[i];
  }

  // ---------------------------------------------------------------------------
  // `ToJsonString` on a whole structure

  /** A field value as gdb prints it inside a structure: decimal digits, a
      hexadecimal literal, or an identifier such as an enumerator. */
  datatype FieldValue = DecimalValue(digits: string) | HexValue(hexDigits: string) | WordValue(word: string)

  /** One field of a printed structure. */
  datatype Field = Field(name: string, value: FieldValue)

  /** Names and identifier values are word characters without `0x` or `0X`
      (so that no hexadecimal literal starts inside them); an identifier
      value starts with a letter or `_`. */
  predicate ValidField(f: Field) {
    IsFieldName(f.name) &&
    match f.value
    case DecimalValue(d) => d != [] && AllDigits(d)
    case HexValue(h) => h != [] && AllHexDigits(h)
    case WordValue(w) => IsFieldName(w) && IsIdentStart(w[0])
  }

  predicate ValidFields(fs: seq<Field>) { forall i :: 0 <= i < |fs| ==> ValidField(fs[i]) }

  function Quoted(s: string): string { "\"" + s + "\"" }

  /** The value of a field after `stage` passes of `ToJsonString`: an
      identifier is quoted, without the space before it, from the second
      pass on; a hexadecimal literal is decimal from the third. */
  function ValueAfter(v: FieldValue, stage: nat): string {
    match v
    case DecimalValue(d) => " " + d
    case HexValue(h) => " " + (if stage < 3 then "0x" + h else NatToString(RadixValue(h, 16)))
    case WordValue(w) => if stage < 2 then " " + w else Quoted(w)
  }

  /** A field after `stage` passes: 0 as gdb prints it, `name = value`; the
      name is quoted from the first pass on, and the `=` is a `:` after
      the fourth. */
  function FieldText(f: Field, stage: nat): string {
    (if stage == 0 then f.name else Quoted(f.name)) + " " + (if stage >= 4 then ":" else "=") + ValueAfter(f.value, stage)
  }

  /** The fields after `stage` passes, separated by `, `, with the closing
      brace. */
  function FieldsText(fs: seq<Field>, stage: nat): string
    requires fs != []
    decreases |fs|
  {
    FieldText(fs[0], stage) + (if |fs| == 1 then "}" else ", " + FieldsText(fs[1..], stage))
  }

  /** `{a = 1, b = 0x10, c = RED}`: a structure as gdb prints it. */
  function ObjectText(fs: seq<Field>): string
    requires fs != []
  {
    "{" + FieldsText(fs, 0)
  }

  /** `{"a" : 1, "b" : 16, "c" :"RED"}`: the same structure as JSON. */
  function JsonObjectText(fs: seq<Field>): string
    requires fs != []
  {
    "{" + FieldsText(fs, 4)
  }

  /** `ToJsonString` turns a printed structure of decimal, hexadecimal and
      identifier fields into JSON: every name quoted, every identifier
      value quoted, every hexadecimal value in decimal and every `=` a
      `:`. */
  lemma {:induction false} ToJsonObject(fs: seq<Field>)
    requires fs != [] && ValidFields(fs)
    ensures ToJsonString(ObjectText(fs)) == JsonObjectText(fs)
  {
    KeysObject(fs);
    WordsObject(fs);
    HexObject(fs);
    ColonObject(fs);
  }

  lemma {:induction false} KeysObject(fs: seq<Field>)
    requires fs != [] && ValidFields(fs)
    ensures QuoteKeys(ObjectText(fs), IsNameChar, " ") == "{" + FieldsText(fs, 1)
  {
    QuoteKeysSkip('{', FieldsText(fs, 0), IsNameChar, " ");
    KeysFields(fs);
  }

  lemma {:induction false} WordsObject(fs: seq<Field>)
    requires fs != [] && ValidFields(fs)
    ensures QuoteWords("{" + FieldsText(fs, 1)) == "{" + FieldsText(fs, 2)
  {
    QuoteWordsPrefix("{", FieldsText(fs, 1));
    WordsFields(fs);
  }

  lemma {:induction false} HexObject(fs: seq<Field>)
    requires fs != [] && ValidFields(fs)
    ensures HexToDecimal("{" + FieldsText(fs, 2)) == "{" + FieldsText(fs, 3)
  {
    FieldsStart(fs, 2);
    HexToDecimalPrefix("{", FieldsText(fs, 2));
    HexFields(fs);
  }

  lemma {:induction false} ColonObject(fs: seq<Field>)
    requires fs != [] && ValidFields(fs)
    ensures ReplaceAll("{" + FieldsText(fs, 3), "=", ":") == JsonObjectText(fs)
  {
    ReplaceAllCharAppend("{", FieldsText(fs, 3), '=', ':');
    ColonFields(fs);
  }

  /** From the first pass on, the fields start with a quote. */
  lemma {:induction false} FieldsStart(fs: seq<Field>, stage: nat)
    requires fs != [] && stage >= 1
    ensures FieldsText(fs, stage)[0] == '"'
  {
    assert FieldText(fs[0], stage)[0] == '"';
  }

  /** A field followed by `c` ends where `c` is. */
  lemma {:induction false} FieldsSplit(fs: seq<Field>, stage: nat)
    requires fs != []
    ensures |fs| == 1 ==> FieldsText(fs, stage) == FieldText(fs[0], stage) + ['}'] + []
    ensures |fs| > 1 ==> FieldsText(fs, stage) == FieldText(fs[0], stage) + [','] + (" " + FieldsText(fs[1..], stage))
  {
  }

  /** Characters that none of the passes acts on. */
  predicate Inert(s: string) { NoEquals(s) && NoHexStart(s) }

  lemma {:induction false} InertAppend(a: string, b: string)
    ensures NoEquals(a) && NoEquals(b) ==> NoEquals(a + b)
    ensures NoHexStart(a) && NoHexStart(b) && (a == [] || b == [] || a[|a| - 1] != '0' || !IsX(b[0]))
      ==> NoHexStart(a + b)
  {
    forall i | 0 <= i < |a + b| ensures (a + b)[i] == if i < |a| then a[i] else b[i - |a|] { }
  }

  /** The quoted name, the space after it and every value but an
      unconverted hexadecimal literal hold neither `=` nor `0x`. */
  lemma {:induction false} FieldPiecesInert(f: Field, stage: nat)
    requires ValidField(f)
    ensures Inert(Quoted(f.name) + " ")
    ensures NoEquals(ValueAfter(f.value, stage))
    ensures !f.value.HexValue? || stage >= 3 ==> Inert(ValueAfter(f.value, stage))
  {
    InertAppend("\"", f.name);
    InertAppend("\"" + f.name, "\"");
    InertAppend(Quoted(f.name), " ");
    match f.value
    case DecimalValue(d) =>
      InertAppend(" ", d);
    case HexValue(h) =>
      if stage < 3 {
        var v := " " + ("0x" + h);
        forall i | 0 <= i < |v| ensures v[i] != '=' {
          if i >= 3 { assert v[i] == h[i - 3]; }
        }
      } else {
        InertAppend(" ", NatToString(RadixValue(h, 16)));
      }
    case WordValue(w) =>
      if stage < 2 {
        InertAppend(" ", w);
      } else {
        InertAppend("\"", w);
        InertAppend("\"" + w, "\"");
      }
  }

  /** The pattern cannot match at the start of text without `=` that does
      not end in a key character or white space. */
  lemma {:induction false} KeyMatchPrefix(a: string, t: string, key: char -> bool)
    requires NoEquals(a) && a != [] && !key(a[|a| - 1]) && !IsSpace(a[|a| - 1])
    ensures KeyMatch(a + t, key) == NoKey
  {
    var s := a + t;
    var w := Span(s, key);
    SpanFrom(s, 0, key);
    assert s[0..] == s;
    SpanFrom(s, w, IsSpace);
    assert s[|a| - 1] == a[|a| - 1];
  }

  /** `QuoteKeys` passes over text without `=` that does not end in a key
      character or white space. */
  lemma {:induction false} QuoteKeysPrefix(a: string, t: string, key: char -> bool, gap: string)
    requires NoEquals(a) && a != [] && !key(a[|a| - 1]) && !IsSpace(a[|a| - 1])
    ensures QuoteKeys(a + t, key, gap) == a + QuoteKeys(t, key, gap)
    decreases |a|
  {
    KeyMatchPrefix(a, t, key);
    QuoteKeysNoMatch(a + t, key, gap);
    PrefixShape(a, t);
    if |a| > 1 {
      QuoteKeysPrefix(a[1..], t, key, gap);
    }
    PrefixJoin(a, QuoteKeys(a + t, key, gap), QuoteKeys(a[1..] + t, key, gap), QuoteKeys(t, key, gap));
  }

  /** `x` is `a` and then `h`, one character at a time. */
  lemma {:induction false} PrefixJoin(a: string, x: string, y: string, h: string)
    requires a != [] && x == [a[0]] + y
    requires |a| > 1 ==> y == a[1..] + h
    requires |a| == 1 ==> y == h
    ensures x == a + h
  {
    ConsAppend(a, h);
    if |a| == 1 {
      assert a[1..] + h == h;
    }
  }

  /** How `a + t` looks after its first character. */
  lemma {:induction false} PrefixShape(a: string, t: string)
    requires a != []
    ensures (a + t)[0] == a[0] && (a + t)[1..] == a[1..] + t
    ensures |a| == 1 ==> a[1..] + t == t
    ensures |a| > 1 ==> a[1..][|a[1..]| - 1] == a[|a| - 1] && (NoEquals(a) ==> NoEquals(a[1..]))
  {
    assert (a + t)[1..] == a[1..] + t;
  }

  /** The value of a field followed by `c`: neither `=` nor, once converted,
      `x` in it, and `c` at its end. */
  lemma {:induction false} ValueEnd(f: Field, stage: nat, c: char)
    requires ValidField(f) && (c == ',' || c == '}')
    ensures var a := ValueAfter(f.value, stage) + [c];
      a != [] && a[|a| - 1] == c && NoEquals(a) && (!f.value.HexValue? || stage >= 3 ==> NoHexStart(a))
  {
    FieldPiecesInert(f, stage);
    InertAppend(ValueAfter(f.value, stage), [c]);
  }

  lemma {:induction false} NameKeys(n: string)
    requires IsFieldName(n)
    ensures n != [] && forall i :: 0 <= i < |n| ==> IsNameChar(n[i])
  {
  }

  lemma {:induction false} KeysShape(f: Field, c: char, t: string, u: string)
    ensures FieldText(f, 0) + [c] + t == f.name + " " + "=" + (ValueAfter(f.value, 0) + [c] + t)
    ensures "\"" + f.name + "\"" + " " + "=" + (ValueAfter(f.value, 0) + [c] + u) == FieldText(f, 1) + [c] + u
  {
  }

  lemma {:induction false} KeysFieldAt(f: Field, c: char, t: string)
    requires ValidField(f) && (c == ',' || c == '}')
    ensures QuoteKeys(FieldText(f, 0) + [c] + t, IsNameChar, " ") == FieldText(f, 1) + [c] + QuoteKeys(t, IsNameChar, " ")
  {
    NameKeys(f.name);
    KeysShape(f, c, t, QuoteKeys(t, IsNameChar, " "));
    QuoteKeysKey(f.name, " ", ValueAfter(f.value, 0) + [c] + t, IsNameChar, " ");
    KeysValueAt(f, c, t);
  }

  /** `QuoteKeys` passes over a field's value and the `c` after it. */
  lemma {:induction false} KeysValueAt(f: Field, c: char, t: string)
    requires ValidField(f) && (c == ',' || c == '}')
    ensures QuoteKeys(ValueAfter(f.value, 0) + [c] + t, IsNameChar, " ") == ValueAfter(f.value, 0) + [c] + QuoteKeys(t, IsNameChar, " ")
  {
    ValueEnd(f, 0, c);
    QuoteKeysPrefix(ValueAfter(f.value, 0) + [c], t, IsNameChar, " ");
  }

  lemma {:induction false} QuoteWordsUnfold(s: string)
    requires s != []
    ensures QuoteWords(s) == WordPiece(s, WordMatch(s)) + QuoteWords(s[WordNext(WordMatch(s))..])
  {
  }

  lemma {:induction false} WordMatchNext(s: string, p: nat, e: nat)
    requires WordMatch(s) == Word(p, e)
    ensures WordNext(WordMatch(s)) == e + 1 <= |s|
  {
  }

  lemma {:induction false} QuoteWordsFrom(s: string, k: nat)
    requires k <= |s| && WordNext(WordMatch(s)) == k
    ensures QuoteWords(s[WordNext(WordMatch(s))..]) == QuoteWords(s[k..])
  {
  }

  lemma {:induction false} WordPieceOf(s: string, m: WordMatchResult, p: nat, e: nat)
    requires s != [] && m == Word(p, e) && p <= e < |s|
    ensures WordPiece(s, m) == "=\"" + s[p..e] + "\"" + [s[e]]
  {
  }

  /** One match of the pattern, rewritten. */
  lemma {:induction false} QuoteWordsMatch(s: string, p: nat, e: nat)
    requires s != [] && WordMatch(s) == Word(p, e)
    ensures p <= e < |s| && QuoteWords(s) == "=\"" + s[p..e] + "\"" + [s[e]] + QuoteWords(s[e + 1..])
  {
    QuoteWordsUnfold(s);
    WordMatchNext(s, p, e);
    QuoteWordsFrom(s, e + 1);
    WordPieceOf(s, WordMatch(s), p, e);
  }

  /** The pattern matches at the start of `s`, with the identifier at `p`
      and `n` characters long. */
  predicate WordAt(s: string, p: nat, n: nat) {
    1 <= p && p + n < |s| && s[0] == '=' && 1 + Span(s[1..], IsSpace) == p
    && IsIdentStart(s[p]) && Span(s[p..], IsWordChar) == n && (s[p + n] == '}' || s[p + n] == ',')
  }

  lemma {:induction false} WordMatchAt(s: string, p: nat, n: nat)
    requires WordAt(s, p, n)
    ensures WordMatch(s) == Word(p, p + n)
  {
  }

  /** Where `QuoteWords` finds the pieces of `= w` followed by `c`. */
  lemma {:induction false} WordLayout(w: string, c: char, t: string)
    requires IsFieldName(w) && IsIdentStart(w[0]) && (c == ',' || c == '}')
    ensures var s := "=" + (" " + w + [c] + t);
      WordMatch(s) == Word(2, 2 + |w|) && s[2 + |w|] == c && s[2..2 + |w|] == w && s[2 + |w| + 1..] == t
  {
    var s := "=" + (" " + w + [c] + t);
    WordPieces(s, w, c, t);
    WordAtPieces(s, w, c);
    WordMatchAt(s, 2, |w|);
  }

  lemma {:induction false} WordPieces(s: string, w: string, c: char, t: string)
    requires s == "=" + (" " + w + [c] + t)
    ensures |s| == |w| + |t| + 3 && s[0] == '=' && s[1] == ' ' && s[2 + |w|] == c
    ensures s[2..2 + |w|] == w && s[2 + |w| + 1..] == t
  {
    assert s == "= " + w + [c] + t;
  }

  lemma {:induction false} WordAtPieces(s: string, w: string, c: char)
    requires IsFieldName(w) && IsIdentStart(w[0]) && (c == ',' || c == '}')
    requires |s| > |w| + 2 && s[0] == '=' && s[1] == ' ' && s[2 + |w|] == c && s[2..2 + |w|] == w
    ensures WordAt(s, 2, |w|)
  {
    var a, b := s[1..], s[2..];
    assert a[1] == w[0];
    SpanIs(a, 1, IsSpace);
    forall i | 0 <= i < |w| ensures IsWordChar(b[i]) {
      assert b[i] == s[2..2 + |w|][i];
    }
    SpanIs(b, |w|, IsWordChar);
  }

  /** An identifier value after `=` and a space, ended by `c`. */
  lemma {:induction false} QuoteWordsWord(w: string, c: char, t: string)
    requires IsFieldName(w) && IsIdentStart(w[0]) && (c == ',' || c == '}')
    ensures QuoteWords("=" + (" " + w + [c] + t)) == "=" + (Quoted(w) + [c] + QuoteWords(t))
  {
    WordLayout(w, c, t);
    QuoteWordsMatch("=" + (" " + w + [c] + t), 2, 2 + |w|);
    QuotedValueText(w, c, QuoteWords(t));
  }

  lemma {:induction false} QuotedValueText(w: string, c: char, u: string)
    ensures "=\"" + w + "\"" + [c] + u == "=" + (Quoted(w) + [c] + u)
  {
  }

  /** From the first pass to the third, a field followed by `c` and `t`
      splits at its `=`. */
  lemma {:induction false} FieldTextAround(f: Field, stage: nat, c: char, t: string)
    requires 1 <= stage <= 3
    ensures FieldText(f, stage) + [c] + t == (Quoted(f.name) + " ") + ("=" + (ValueAfter(f.value, stage) + [c] + t))
  {
  }

  /** A number after `=` and a space is left as it is. */
  lemma {:induction false} QuoteWordsNumber(x: string, c: char, t: string)
    requires x != [] && IsDigit(x[0]) && NoEquals(x) && c != '='
    ensures QuoteWords("=" + (" " + x + [c] + t)) == "=" + (" " + x + [c] + QuoteWords(t))
  {
    NumberShape(x, c, t, QuoteWords(t));
    QuoteWordsNonWord(" ", x + [c] + t);
    NumberWords(x, c, t);
  }

  /** `QuoteWords` passes over a number and the `c` after it. */
  lemma {:induction false} NumberWords(x: string, c: char, t: string)
    requires NoEquals(x) && c != '='
    ensures QuoteWords(" " + x + [c] + t) == " " + x + [c] + QuoteWords(t)
  {
    InertAppend(" ", x);
    InertAppend(" " + x, [c]);
    QuoteWordsPrefix(" " + x + [c], t);
  }

  lemma {:induction false} NumberShape(x: string, c: char, t: string, u: string)
    ensures "=" + (" " + x + [c] + t) == "=" + " " + (x + [c] + t)
    ensures " " + (x + [c] + t) == (" " + x + [c]) + t
    ensures "=" + ((" " + x + [c]) + u) == "=" + (" " + x + [c] + u)
  {
  }

  /** The second pass on the value of a field. */
  lemma {:induction false} ValueWords(f: Field, c: char, t: string)
    requires ValidField(f) && (c == ',' || c == '}')
    ensures QuoteWords("=" + (ValueAfter(f.value, 1) + [c] + t)) == "=" + (ValueAfter(f.value, 2) + [c] + QuoteWords(t))
  {
    match f.value
    case WordValue(w) =>
      QuoteWordsWord(w, c, t);
    case DecimalValue(d) =>
      QuoteWordsNumber(d, c, t);
    case HexValue(h) =>
      InertAppend("0x", h);
      QuoteWordsNumber("0x" + h, c, t);
  }

  lemma {:induction false} WordsFieldAt(f: Field, c: char, t: string)
    requires ValidField(f) && (c == ',' || c == '}')
    ensures QuoteWords(FieldText(f, 1) + [c] + t) == FieldText(f, 2) + [c] + QuoteWords(t)
  {
    FieldPiecesInert(f, 1);
    FieldTextAround(f, 1, c, t);
    QuoteWordsPrefix(Quoted(f.name) + " ", "=" + (ValueAfter(f.value, 1) + [c] + t));
    ValueWords(f, c, t);
    FieldTextAround(f, 2, c, QuoteWords(t));
  }

  lemma {:induction false} HexFieldShape(f: Field, c: char, t: string, u: string)
    requires f.value.HexValue?
    ensures var p := Quoted(f.name) + " " + "=" + " ";
      FieldText(f, 2) + [c] + t == p + ("0x" + f.value.hexDigits + ([c] + t))
      && p + (NatToString(RadixValue(f.value.hexDigits, 16)) + ([c] + u)) == FieldText(f, 3) + [c] + u
  {
  }

  lemma {:induction false} PlainShape(f: Field, c: char)
    requires !f.value.HexValue?
    ensures FieldText(f, 2) + [c] == (Quoted(f.name) + " " + "=") + (ValueAfter(f.value, 2) + [c])
    ensures FieldText(f, 3) == FieldText(f, 2)
  {
  }

  lemma {:induction false} HexFieldAt(f: Field, c: char, t: string)
    requires ValidField(f) && (c == ',' || c == '}') && (t == [] || t[0] == ' ')
    ensures HexToDecimal(FieldText(f, 2) + [c] + t) == FieldText(f, 3) + [c] + HexToDecimal(t)
  {
    if f.value.HexValue? {
      HexFieldLiteral(f, c, t);
    } else {
      HexFieldPlain(f, c, t);
    }
  }

  /** The name before a value holds no literal. */
  lemma {:induction false} NameInert(f: Field)
    requires ValidField(f)
    ensures NoHexStart(Quoted(f.name) + " " + "=") && NoHexStart(Quoted(f.name) + " " + "=" + " ")
  {
    FieldPiecesInert(f, 2);
    var q := Quoted(f.name) + " ";
    assert q[|q| - 1] == ' ' && (q + "=")[|q|] == '=';
    InertAppend(q, "=");
    InertAppend(q + "=", " ");
  }

  lemma {:induction false} HexFieldLiteral(f: Field, c: char, t: string)
    requires ValidField(f) && f.value.HexValue? && (c == ',' || c == '}') && (t == [] || t[0] == ' ')
    ensures HexToDecimal(FieldText(f, 2) + [c] + t) == FieldText(f, 3) + [c] + HexToDecimal(t)
  {
    var h := f.value.hexDigits;
    NameInert(f);
    HexFieldShape(f, c, t, HexToDecimal(t));
    HexToDecimalPrefix(Quoted(f.name) + " " + "=" + " ", "0x" + h + ([c] + t));
    HexToDecimalLiteral(h, [c] + t);
    HexToDecimalPrefix([c], t);
  }

  lemma {:induction false} HexFieldPlain(f: Field, c: char, t: string)
    requires ValidField(f) && !f.value.HexValue? && (c == ',' || c == '}') && (t == [] || t[0] == ' ')
    ensures HexToDecimal(FieldText(f, 2) + [c] + t) == FieldText(f, 3) + [c] + HexToDecimal(t)
  {
    NameInert(f);
    ValueEnd(f, 2, c);
    PlainShape(f, c);
    InertAppend(Quoted(f.name) + " " + "=", ValueAfter(f.value, 2) + [c]);
    HexToDecimalPrefix(FieldText(f, 2) + [c], t);
  }

  lemma {:induction false} ColonFieldAt(f: Field, c: char, t: string)
    requires ValidField(f) && (c == ',' || c == '}')
    ensures ReplaceAll(FieldText(f, 3) + [c] + t, "=", ":") == FieldText(f, 4) + [c] + ReplaceAll(t, "=", ":")
  {
    FieldPiecesInert(f, 3);
    var a := Quoted(f.name) + " ";
    var v := ValueAfter(f.value, 3);
    var b := v + [c];
    assert NoEquals(b) by {
      forall i | 0 <= i < |b| ensures b[i] != '=' { if i < |v| { assert b[i] == v[i]; } }
    }
    assert FieldText(f, 3) + [c] == a + "=" + b;
    EqualsToColon(FieldText(f, 3) + [c], a, b);
    ReplaceAllCharAppend(FieldText(f, 3) + [c], t, '=', ':');
    assert ValueAfter(f.value, 4) == v;
    assert FieldText(f, 4) + [c] == a + ":" + b;
  }

  lemma {:induction false} FieldsTail(fs: seq<Field>)
    requires |fs| > 1 && ValidFields(fs)
    ensures ValidField(fs[0]) && fs[1..] != [] && ValidFields(fs[1..])
  {
  }

  lemma {:induction false} QuoteKeysSpace(t: string)
    ensures QuoteKeys(" " + t, IsNameChar, " ") == " " + QuoteKeys(t, IsNameChar, " ")
  {
    QuoteKeysSkip(' ', t, IsNameChar, " ");
  }

  lemma {:induction false} KeysFields(fs: seq<Field>)
    requires fs != [] && ValidFields(fs)
    ensures QuoteKeys(FieldsText(fs, 0), IsNameChar, " ") == FieldsText(fs, 1)
    decreases |fs|
  {
    FieldsSplit(fs, 0);
    FieldsSplit(fs, 1);
    if |fs| == 1 {
      KeysFieldAt(fs[0], '}', []);
    } else {
      var rest := FieldsText(fs[1..], 0);
      FieldsTail(fs);
      KeysFieldAt(fs[0], ',', " " + rest);
      QuoteKeysSpace(rest);
      KeysFields(fs[1..]);
    }
  }

  lemma {:induction false} WordsFields(fs: seq<Field>)
    requires fs != [] && ValidFields(fs)
    ensures QuoteWords(FieldsText(fs, 1)) == FieldsText(fs, 2)
    decreases |fs|
  {
    FieldsSplit(fs, 1);
    FieldsSplit(fs, 2);
    if |fs| == 1 {
      WordsFieldAt(fs[0], '}', []);
    } else {
      var rest := FieldsText(fs[1..], 1);
      FieldsTail(fs);
      WordsFieldAt(fs[0], ',', " " + rest);
      QuoteWordsPrefix(" ", rest);
      WordsFields(fs[1..]);
    }
  }

  lemma {:induction false} HexFields(fs: seq<Field>)
    requires fs != [] && ValidFields(fs)
    ensures HexToDecimal(FieldsText(fs, 2)) == FieldsText(fs, 3)
    decreases |fs|
  {
    FieldsSplit(fs, 2);
    FieldsSplit(fs, 3);
    if |fs| == 1 {
      HexFieldAt(fs[0], '}', []);
    } else {
      var rest := FieldsText(fs[1..], 2);
      FieldsTail(fs);
      HexFieldAt(fs[0], ',', " " + rest);
      FieldsStart(fs[1..], 2);
      HexToDecimalPrefix(" ", rest);
      HexFields(fs[1..]);
    }
  }

  lemma {:induction false} ColonFields(fs: seq<Field>)
    requires fs != [] && ValidFields(fs)
    ensures ReplaceAll(FieldsText(fs, 3), "=", ":") == FieldsText(fs, 4)
    decreases |fs|
  {
    FieldsSplit(fs, 3);
    FieldsSplit(fs, 4);
    if |fs| == 1 {
      ColonFieldAt(fs[0], '}', []);
    } else {
      var rest := FieldsText(fs[1..], 3);
      FieldsTail(fs);
      ColonFieldAt(fs[0], ',', " " + rest);
      ReplaceAllCharAppend(" ", rest, '=', ':');
      ColonFields(fs[1..]);
    }
  }

  // ---------------------------------------------------------------------------
  // `ConvertCharArray`

  predicate IsAsciiLetter(c: char) { 'a' <= c <= 'z' || 'A' <= c <= 'Z' }

  /** What the callback makes of the digits after a doubled backslash: a
      single digit gives its own character code, more digits their value
      in base 10. */
  function EscapeValue(digits: string): nat
    requires digits != []
  {
    if |digits| == 1 then digits[0] as nat else RadixValue(digits, 10)
  }

  /** `replace(/\\\\([0-9]+|[a-zA-Z])/g, ...)`: two backslashes and digits,
      or two backslashes and a letter, become a number and a comma. */
  function DecodeCharEscapes(s: string): string
    decreases |s|
  {
    if |s| >= 3 && s[0] == '\\' && s[1] == '\\' && IsDigit(s[2]) then
      var d := Span(s[2..], IsDigit);
      NatToString(EscapeValue(s[2..2 + d])) + "," + DecodeCharEscapes(s[2 + d..])
    else if |s| >= 3 && s[0] == '\\' && s[1] == '\\' && IsAsciiLetter(s[2]) then
      NatToString(s[2] as nat) + "," + DecodeCharEscapes(s[3..])
    else if s == [] then []
    else [s[0]] + DecodeCharEscapes(s[1..])
  }

  /** `replace(/,\s*$/g, '')`: a comma that only white space follows goes,
      with that white space. */
  function DropTrailingComma(s: string): (r: string)
    ensures r == s || (var t := TrimRight(s); t != [] && t[|t| - 1] == ',' && r == t[..|t| - 1])
  {
    var t := TrimRight(s);
    if t != [] && t[|t| - 1] == ',' then t[..|t| - 1] else s
  }

  /** Where the quote that closes a `"` at the start of `s` is, when at
      least one character lies between. */
  function ClosingQuote(s: string): (r: Option<nat>)
    requires s != [] && s[0] == '"'
    ensures r.Some? ==> 2 <= r.value < |s| && s[r.value] == '"' && forall i :: 1 <= i < r.value ==> s[i] != '"'
  {
    match IndexOf(s[1..], '"')
    case None => None
    case Some(k) => if k == 0 then None else Some(k + 1)
  }

  /** `ConvertCharArray`: each `"…"` with at least one character inside
      becomes `[…]` around its decoded escapes, without a final comma. */
  function ConvertCharArray(s: string): string
    decreases |s|
  {
    if s == [] then []
    else if s[0] == '"' && ClosingQuote(s).Some? then
      var j := ClosingQuote(s).value;
      "[" + DropTrailingComma(DecodeCharEscapes(s[1..j])) + "]" + ConvertCharArray(s[j + 1..])
    else [s[0]] + ConvertCharArray(s[1..])
  }

  /** One escape as gdb writes it inside a char array. */
  datatype CharEscape = DigitEscape(digits: string) | LetterEscape(letter: char)

  predicate ValidEscape(e: CharEscape) {
    match e
    case DigitEscape(d) => d != [] && AllDigits(d)
    case LetterEscape(c) => IsAsciiLetter(c)
  }

  function EscapeText(e: CharEscape): string {
    match e
    case DigitEscape(d) => "\\\\" + d
    case LetterEscape(c) => "\\\\" + [c]
  }

  function EscapesText(es: seq<CharEscape>): string {
    if es == [] then "" else EscapeText(es[0]) + EscapesText(es[1..])
  }

  function EscapeCode(e: CharEscape): nat
    requires ValidEscape(e)
  {
    match e
    case DigitEscape(d) => EscapeValue(d)
    case LetterEscape(c) => c as nat
  }

  predicate ValidEscapes(es: seq<CharEscape>) { forall i :: 0 <= i < |es| ==> ValidEscape(es[i]) }

  /** The numbers the escapes stand for, as decimal texts. */
  function CodeTexts(es: seq<CharEscape>): seq<string>
    requires ValidEscapes(es)
  {
    if es == [] then [] else [NatToString(EscapeCode(es[0]))] + CodeTexts(es[1..])
  }

  lemma {:induction false} EscapeStep(e: CharEscape, rest: string)
    requires ValidEscape(e) && (rest == [] || rest[0] == '\\')
    ensures DecodeCharEscapes(EscapeText(e) + rest) == NatToString(EscapeCode(e)) + "," + DecodeCharEscapes(rest)
  {
    match e
    case DigitEscape(d) => DigitEscapeStep(d, rest);
    case LetterEscape(c) => LetterEscapeStep(c, rest);
  }

  lemma {:induction false} DigitEscapeStep(d: string, rest: string)
    requires d != [] && AllDigits(d) && (rest == [] || rest[0] == '\\')
    ensures DecodeCharEscapes("\\\\" + d + rest) == NatToString(EscapeValue(d)) + "," + DecodeCharEscapes(rest)
  {
    var s := "\\\\" + d + rest;
    assert s[2..] == d + rest;
    SpanOfConcat(d, rest, IsDigit);
    assert s[2..2 + |d|] == d;
    assert s[2 + |d|..] == rest;
  }

  lemma {:induction false} LetterEscapeStep(c: char, rest: string)
    requires IsAsciiLetter(c)
    ensures DecodeCharEscapes("\\\\" + [c] + rest) == NatToString(c as nat) + "," + DecodeCharEscapes(rest)
  {
    var s := "\\\\" + [c] + rest;
    assert !IsDigit(s[2]);
    assert s[3..] == rest;
  }

  /** The escapes come out as their numbers, each followed by a comma. */
  lemma {:induction false} DecodeEscapesText(es: seq<CharEscape>)
    requires ValidEscapes(es) && es != []
    ensures DecodeCharEscapes(EscapesText(es)) == Join(CodeTexts(es), ",") + ","
    decreases |es|
  {
    var rest := EscapesText(es[1..]);
    assert rest == [] || rest[0] == '\\';
    EscapeStep(es[0], rest);
    if |es| == 1 {
      assert rest == [];
    } else {
      DecodeEscapesText(es[1..]);
      assert CodeTexts(es) == [NatToString(EscapeCode(es[0]))] + CodeTexts(es[1..]);
      assert |CodeTexts(es[1..])| >= 1 by { assert CodeTexts(es[1..])[0] == NatToString(EscapeCode(es[1])); }
      assert Join(CodeTexts(es), ",") == NatToString(EscapeCode(es[0])) + "," + Join(CodeTexts(es[1..]), ",");
    }
  }

  /** Escapes are written with backslashes, digits and letters only. */
  lemma {:induction false} EscapesTextChars(es: seq<CharEscape>)
    requires ValidEscapes(es)
    ensures forall i :: 0 <= i < |EscapesText(es)| ==>
      EscapesText(es)[i] == '\\' || IsDigit(EscapesText(es)[i]) || IsAsciiLetter(EscapesText(es)[i])
    ensures es != [] ==> EscapesText(es) != []
    decreases |es|
  {
    if es != [] {
      EscapesTextChars(es[1..]);
      var head := EscapeText(es[0]);
      assert forall i :: 0 <= i < |head| ==> head[i] == '\\' || IsDigit(head[i]) || IsAsciiLetter(head[i]);
      assert EscapesText(es) == head + EscapesText(es[1..]);
    }
  }

  /** A quoted run of escapes becomes the bracketed list of their numbers;
      a one-digit escape gives the code of that digit, not its value. */
  lemma {:induction false} ConvertEscapes(es: seq<CharEscape>)
    requires ValidEscapes(es) && es != []
    ensures ConvertCharArray("\"" + EscapesText(es) + "\"") == "[" + Join(CodeTexts(es), ",") + "]"
  {
    var body := EscapesText(es);
    EscapesTextChars(es);
    ConvertQuoted(body);
    DecodeEscapesText(es);
    DropCommaOf(Join(CodeTexts(es), ","));
  }

  lemma {:induction false} ClosingQuoteOf(body: string)
    requires body != [] && forall i :: 0 <= i < |body| ==> body[i] != '"'
    ensures ClosingQuote("\"" + body + "\"") == Some(|body| + 1)
  {
    var s := "\"" + body + "\"";
    assert s[1..] == body + "\"";
    assert (body + "\"")[|body|] == '"';
    assert forall j :: 0 <= j < |body| ==> (body + "\"")[j] == body[j];
  }

  /** A quoted text without quotes inside is one segment. */
  lemma {:induction false} ConvertQuoted(body: string)
    requires body != [] && forall i :: 0 <= i < |body| ==> body[i] != '"'
    ensures ConvertCharArray("\"" + body + "\"") == "[" + DropTrailingComma(DecodeCharEscapes(body)) + "]"
  {
    var s := "\"" + body + "\"";
    assert s[1..|body| + 1] == body;
    assert s[|body| + 2..] == [];
    ClosingQuoteOf(body);
    assert ConvertCharArray(s) == "[" + DropTrailingComma(DecodeCharEscapes(body)) + "]" + ConvertCharArray([]);
  }

  lemma {:induction false} DropCommaOf(x: string)
    ensures DropTrailingComma(x + ",") == x
  {
    var d := x + ",";
    assert TrimRight(d) == d;
    assert d[..|d| - 1] == x;
  }

  /** Text without a quote is left as it is. */
  lemma {:induction false} ConvertCharArrayPlain(s: string)
    requires forall i :: 0 <= i < |s| ==> s[i] != '"'
    ensures ConvertCharArray(s) == s
    decreases |s|
  {
    if s != [] {
      ConvertCharArrayPlain(s[1..]);
      assert [s[0]] + s[1..] == s;
    }
  }

  // ---------------------------------------------------------------------------
  // `_parseValue`

  /** `replace(/^\s*{/g, '[')` then `replace(/}\s*$/g, ']')`. */
  function BracketEnds(s: string): string {
    var u := TrimLeft(s);
    var a := if u != [] && u[0] == '{' then "[" + u[1..] else s;
    var t := TrimRight(a);
    if t != [] && t[|t| - 1] == '}' then t[..|t| - 1] + "]" else a
  }

  /** The value of an array that is not a quoted text: char arrays inside
      converted, repeats unfolded, made JSON, outer braces made brackets. */
  function ArrayValue(v: string): string {
    BracketEnds(ToJsonString(UnfoldedAsWritten(ConvertCharArray(v))))
  }

  /** The value of an object: repeats unfolded, made JSON. */
  function ObjectValue(v: string): string {
    ToJsonString(UnfoldedAsWritten(v))
  }

  /** The message reading a failed match raises. */
  const NullMatchMessage: string := ExpressionValues.NullMatchMessage

  /** No pattern fits at any `=`. */
  predicate NoShape(s: string) {
    forall k: nat :: k < |s| ==>
      !SplitsAt(s, IntegerShape, k) && !SplitsAt(s, HexShape, k) && !SplitsAt(s, FloatShape, k)
      && !SplitsAt(s, ArrayShape, k) && !SplitsAt(s, ObjectShape, k)
  }

  /** The expression built from the split at `k` for the given type. */
  function Statement(s: string, k: nat, t: DataType, val: string): Expression
    requires k < |s|
  {
    Expression(Trim(s[..k]), t, val)
  }

  /** `_parseValue`: integer (decimal, then hexadecimal), float, array (a
      quoted text being a char array), object; with no pattern fitting, the
      failed object match is read and throws. */
  function ParseValue(s: string): (r: Outcome<Expression>)
    ensures r.Thrown? ==> r.message == NullMatchMessage
    ensures r.Ok? ==> r.value.dataType != Original
  {
    Classified(s, SplitAt(s, IntegerShape), SplitAt(s, HexShape), SplitAt(s, FloatShape),
      SplitAt(s, ArrayShape), SplitAt(s, ObjectShape))
  }

  /** The branch of `_parseValue` that reads a statement. */
  datatype Reading = IntegerReading | FloatReading | ArrayReading | ObjectReading

  /** The first pattern that fits, in the order `_parseValue` tries them
      (decimal and hexadecimal integers before floats, then arrays, then
      objects), with the `=` it splits at. */
  function Decide(isInt: Option<nat>, isHex: Option<nat>, isFloat: Option<nat>,
                  isArray: Option<nat>, isObject: Option<nat>): (r: Option<(Reading, nat)>)
    ensures r.None? <==> isInt.None? && isHex.None? && isFloat.None? && isArray.None? && isObject.None?
    ensures r.Some? ==> Some(r.value.1) in {isInt, isHex, isFloat, isArray, isObject}
  {
    if isInt.Some? then Some((IntegerReading, isInt.value))
    else if isHex.Some? then Some((IntegerReading, isHex.value))
    else if isFloat.Some? then Some((FloatReading, isFloat.value))
    else if isArray.Some? then Some((ArrayReading, isArray.value))
    else if isObject.Some? then Some((ObjectReading, isObject.value))
    else None
  }

  /** A value matched by `".+"` is a char array; the array pattern's value
      is never empty. */
  predicate IsQuoted(v: string) { v != [] && v[0] == '"' }

  function TypeOf(reading: Reading, v: string): (t: DataType)
    ensures t != Original
  {
    match reading
    case IntegerReading => Integer
    case FloatReading => Float
    case ArrayReading => if IsQuoted(v) then CharArray else ArrayType
    case ObjectReading => ObjectType
  }

  function ValueOf(reading: Reading, v: string): string {
    match reading
    case ArrayReading => if IsQuoted(v) then ConvertCharArray(v) else ArrayValue(v)
    case ObjectReading => ObjectValue(v)
    case _ => v
  }

  /** What `_parseValue` returns once each pattern has been tried. */
  function Classified(s: string, isInt: Option<nat>, isHex: Option<nat>, isFloat: Option<nat>,
                      isArray: Option<nat>, isObject: Option<nat>): (r: Outcome<Expression>)
    requires isInt.Some? ==> isInt.value < |s|
    requires isHex.Some? ==> isHex.value < |s|
    requires isFloat.Some? ==> isFloat.value < |s|
    requires isArray.Some? ==> isArray.value < |s|
    requires isObject.Some? ==> isObject.value < |s|
    ensures r.Thrown? <==> isInt.None? && isHex.None? && isFloat.None? && isArray.None? && isObject.None?
    ensures r.Thrown? ==> r.message == NullMatchMessage
    ensures r.Ok? ==> r.value.dataType != Original
  {
    match Decide(isInt, isHex, isFloat, isArray, isObject)
    case None => Thrown(NullMatchMessage)
    case Some((reading, k)) =>
      var v := Trim(s[k + 1..]);
      Ok(Statement(s, k, TypeOf(reading, v), ValueOf(reading, v)))
  }

  /** `_parseValue` throws exactly when no pattern fits at any `=`. */
  lemma {:induction false} ParseValueThrows(s: string)
    ensures ParseValue(s).Thrown? <==> NoShape(s)
  {
    SplitAtNone(s, IntegerShape);
    SplitAtNone(s, HexShape);
    SplitAtNone(s, FloatShape);
    SplitAtNone(s, ArrayShape);
    SplitAtNone(s, ObjectShape);
  }

  /** The pattern fits at no `=` of the statement. */
  predicate NoSplit(s: string, shape: Shape) {
    forall k: nat :: k < |s| ==> !SplitsAt(s, shape, k)
  }

  /** `k` is the last `=` where the pattern fits: the one `exec` splits at. */
  predicate LastSplitsAt(s: string, shape: Shape, k: nat) {
    SplitsAt(s, shape, k) && forall j: nat :: k < j < |s| ==> !SplitsAt(s, shape, j)
  }

  /** The split the pattern finds is its last fitting `=`. */
  lemma {:induction false} SplitAtLast(s: string, shape: Shape, k: nat)
    requires LastSplitsAt(s, shape, k)
    ensures SplitAt(s, shape) == Some(k)
  {
    var r := LastSplit(s, shape, |s|);
    LastSplitIsLast(s, shape, |s|);
    var found := SplitsAt(s, shape, k);
    assert found && k < |s|;
    assert r.Some?;
    var at := SplitsAt(s, shape, r.value);
    assert at;
    assert !(r.value < k);
    assert !(k < r.value);
  }

  /** The decimal pattern fits: the statement is an integer split at the
      last `=` where it fits. */
  lemma {:induction false} ReadingInteger(s: string, k: nat)
    requires LastSplitsAt(s, IntegerShape, k)
    ensures ParseValue(s) == Ok(Statement(s, k, Integer, Trim(s[k + 1..])))
  {
    SplitAtLast(s, IntegerShape, k);
    ClassifiedInteger(s, k, SplitAt(s, HexShape), SplitAt(s, FloatShape), SplitAt(s, ArrayShape), SplitAt(s, ObjectShape));
  }

  /** Only the hexadecimal pattern of the two integer ones fits: an integer. */
  lemma {:induction false} ReadingHex(s: string, k: nat)
    requires NoSplit(s, IntegerShape) && LastSplitsAt(s, HexShape, k)
    ensures ParseValue(s) == Ok(Statement(s, k, Integer, Trim(s[k + 1..])))
  {
    NoSplitNone(s, IntegerShape);
    SplitAtLast(s, HexShape, k);
    ClassifiedHex(s, k, SplitAt(s, FloatShape), SplitAt(s, ArrayShape), SplitAt(s, ObjectShape));
  }

  lemma {:induction false} ClassifiedHex(s: string, k: nat, flt: Option<nat>, arr: Option<nat>, obj: Option<nat>)
    requires k < |s| && (flt.Some? ==> flt.value < |s|) && (arr.Some? ==> arr.value < |s|) && (obj.Some? ==> obj.value < |s|)
    ensures Classified(s, None, Some(k), flt, arr, obj) == Ok(Statement(s, k, Integer, Trim(s[k + 1..])))
  {
    assert Decide(None, Some(k), flt, arr, obj) == Some((IntegerReading, k));
  }

  /** No integer pattern fits and the float one does: a float. */
  lemma {:induction false} ReadingFloat(s: string, k: nat)
    requires NoSplit(s, IntegerShape) && NoSplit(s, HexShape) && LastSplitsAt(s, FloatShape, k)
    ensures ParseValue(s) == Ok(Statement(s, k, Float, Trim(s[k + 1..])))
  {
    NoSplitNone(s, IntegerShape);
    NoSplitNone(s, HexShape);
    SplitAtLast(s, FloatShape, k);
    ClassifiedFloat(s, k, SplitAt(s, ArrayShape), SplitAt(s, ObjectShape));
  }

  lemma {:induction false} ClassifiedFloat(s: string, k: nat, arr: Option<nat>, obj: Option<nat>)
    requires k < |s| && (arr.Some? ==> arr.value < |s|) && (obj.Some? ==> obj.value < |s|)
    ensures Classified(s, None, None, Some(k), arr, obj) == Ok(Statement(s, k, Float, Trim(s[k + 1..])))
  {
    assert Decide(None, None, Some(k), arr, obj) == Some((FloatReading, k));
  }

  /** No number pattern fits and the array one does: a char array when the
      value is quoted, otherwise an array made JSON. */
  lemma {:induction false} ReadingArray(s: string, k: nat)
    requires NoSplit(s, IntegerShape) && NoSplit(s, HexShape) && NoSplit(s, FloatShape)
    requires LastSplitsAt(s, ArrayShape, k)
    ensures IsQuoted(Trim(s[k + 1..])) ==>
      ParseValue(s) == Ok(Statement(s, k, CharArray, ConvertCharArray(Trim(s[k + 1..]))))
    ensures !IsQuoted(Trim(s[k + 1..])) ==>
      ParseValue(s) == Ok(Statement(s, k, ArrayType, ArrayValue(Trim(s[k + 1..]))))
  {
    NoSplitNone(s, IntegerShape);
    NoSplitNone(s, HexShape);
    NoSplitNone(s, FloatShape);
    SplitAtLast(s, ArrayShape, k);
    ClassifiedArray(s, k, SplitAt(s, ObjectShape));
  }

  /** Only the object pattern fits: an object, its repeats unfolded and
      made JSON. */
  lemma {:induction false} ReadingObject(s: string, k: nat)
    requires NoSplit(s, IntegerShape) && NoSplit(s, HexShape) && NoSplit(s, FloatShape) && NoSplit(s, ArrayShape)
    requires LastSplitsAt(s, ObjectShape, k)
    ensures ParseValue(s) == Ok(Statement(s, k, ObjectType, ObjectValue(Trim(s[k + 1..]))))
  {
    NoSplitNone(s, IntegerShape);
    NoSplitNone(s, HexShape);
    NoSplitNone(s, FloatShape);
    NoSplitNone(s, ArrayShape);
    SplitAtLast(s, ObjectShape, k);
    ClassifiedObject(s, k);
  }

  lemma {:induction false} ClassifiedObject(s: string, k: nat)
    requires k < |s|
    ensures Classified(s, None, None, None, None, Some(k)) == Ok(Statement(s, k, ObjectType, ObjectValue(Trim(s[k + 1..]))))
  {
    assert Decide(None, None, None, None, Some(k)) == Some((ObjectReading, k));
  }

  lemma {:induction false} NoSplitNone(s: string, shape: Shape)
    requires NoSplit(s, shape)
    ensures SplitAt(s, shape) == None
  {
    SplitAtNone(s, shape);
  }

  /** `name = value` with a plain name and a value without `=`: the `=`
      after the name is the only one. */
  lemma {:induction false} OnlyEquals(name: string, value: string)
    requires ExpressionValues.PlainName(name) && forall i :: 0 <= i < |value| ==> value[i] != '='
    ensures var s := name + " = " + value;
      s[|name| + 1] == '=' && (forall k :: 0 <= k < |s| && k != |name| + 1 ==> s[k] != '=')
      && Trim(s[..|name| + 1]) == name && s[|name| + 2..] == " " + value
  {
    var s := name + " = " + value;
    forall k | 0 <= k < |s| && k != |name| + 1 ensures s[k] != '=' {
      if k < |name| {
        assert s[k] == name[k];
      } else if k > |name| + 2 {
        assert s[k] == value[k - |name| - 3];
      }
    }
    ExpressionValues.SplitStatementOf(name, value);
    assert s[..|name| + 1] == name + " ";
  }

  /** A value that starts with none of `-`, a digit, `{` and `"` fits no
      pattern. */
  lemma {:induction false} FitsNothing(v: string, shape: Shape)
    requires v != [] && v[0] != '-' && v[0] != '{' && v[0] != '"' && !IsDigit(v[0])
    ensures !Fits(shape, v)
  {
    if shape == FloatShape {
      assert Span(v, IsDigit) == 0;
    }
  }

  /** `name = DIGITS` is an integer with those digits. */
  lemma {:induction false} ParseValueInteger(name: string, d: string)
    requires ExpressionValues.PlainName(name) && d != [] && AllDigits(d)
    ensures ParseValue(name + " = " + d) == Ok(Expression(name, Integer, d))
  {
    var s := name + " = " + d;
    IntegerSplitsAt(name, d);
    ClassifiedInteger(s, |name| + 1, SplitAt(s, HexShape), SplitAt(s, FloatShape), SplitAt(s, ArrayShape),
      SplitAt(s, ObjectShape));
  }

  lemma {:induction false} IntegerSplitsAt(name: string, d: string)
    requires ExpressionValues.PlainName(name) && d != [] && AllDigits(d)
    ensures var s := name + " = " + d;
      SplitAt(s, IntegerShape) == Some(|name| + 1) && Trim(s[..|name| + 1]) == name && Trim(s[|name| + 2..]) == d
  {
    IntegerStatement(name, d);
    SplitAtOnly(name + " = " + d, IntegerShape, |name| + 1, d);
  }

  lemma {:induction false} IntegerStatement(name: string, d: string)
    requires ExpressionValues.PlainName(name) && d != [] && AllDigits(d)
    ensures StatementAt(name + " = " + d, |name| + 1, name, d) && Fits(IntegerShape, d)
  {
    assert forall i :: 0 <= i < |d| ==> d[i] != '=' by {
      forall i | 0 <= i < |d| ensures d[i] != '=' {
        assert IsDigit(d[i]);
      }
    }
    assert IsDigit(d[0]) && IsDigit(d[|d| - 1]);
    StatementParts(name, d);
  }

  /** The integer branch, whatever the later patterns give. */
  lemma {:induction false} ClassifiedInteger(s: string, k: nat, hex: Option<nat>, flt: Option<nat>, arr: Option<nat>, obj: Option<nat>)
    requires k < |s| && (hex.Some? ==> hex.value < |s|) && (flt.Some? ==> flt.value < |s|)
    requires (arr.Some? ==> arr.value < |s|) && (obj.Some? ==> obj.value < |s|)
    ensures Classified(s, Some(k), hex, flt, arr, obj) == Ok(Statement(s, k, Integer, Trim(s[k + 1..])))
  {
    assert Decide(Some(k), hex, flt, arr, obj) == Some((IntegerReading, k));
  }

  /** `name = "ESCAPES"` is a char array of the escapes' numbers. */
  lemma {:induction false} ParseValueEscapes(name: string, es: seq<CharEscape>)
    requires ExpressionValues.PlainName(name) && ValidEscapes(es) && es != []
    ensures ParseValue(name + " = " + ("\"" + EscapesText(es) + "\""))
         == Ok(Expression(name, CharArray, "[" + Join(CodeTexts(es), ",") + "]"))
  {
    var v := "\"" + EscapesText(es) + "\"";
    assert ExpressionValues.IsStringText(v) && (forall i :: 0 <= i < |v| ==> v[i] != '=')
      && ConvertCharArray(v) == "[" + Join(CodeTexts(es), ",") + "]" by {
      QuotedEscapesText(es);
      ConvertEscapes(es);
    }
    ParseValueQuoted(name, v);
  }

  /** A quoted text fits the array pattern and no number pattern. */
  lemma {:induction false} QuotedFits(v: string)
    requires ExpressionValues.IsStringText(v)
    ensures !Fits(IntegerShape, v) && !Fits(HexShape, v) && !Fits(FloatShape, v) && Fits(ArrayShape, v)
  {
    assert Span(v, IsDigit) == 0;
  }

  /** `s` has its only `=` (past the first character) at `k`, with `name`
      before it and `v` after it once trimmed. */
  predicate StatementAt(s: string, k: nat, name: string, v: string) {
    1 <= k < |s| && s[k] == '=' && (forall j :: 1 <= j < |s| && j != k ==> s[j] != '=')
    && Trim(s[..k]) == name && Trim(s[k + 1..]) == v
  }

  /** `name = value` with a plain name and a trimmed value without `=`:
      the `=` after the name is the only one, with the name before it and
      the value after it. */
  lemma {:induction false} StatementParts(name: string, v: string)
    requires ExpressionValues.PlainName(name) && forall i :: 0 <= i < |v| ==> v[i] != '='
    requires v != [] && !IsSpace(v[0]) && !IsSpace(v[|v| - 1])
    ensures StatementAt(name + " = " + v, |name| + 1, name, v)
  {
    OnlyEquals(name, v);
    ExpressionValues.TrimOfSpaced(v);
  }

  /** `name = 0xDIGITS` is an integer with that literal. */
  lemma {:induction false} ParseValueHex(name: string, digits: string)
    requires ExpressionValues.PlainName(name) && digits != [] && AllHexDigits(digits)
    ensures ParseValue(name + " = " + ("0x" + digits)) == Ok(Expression(name, Integer, "0x" + digits))
  {
    HexText(digits);
    NumberStatement(name, "0x" + digits);
  }

  lemma {:induction false} HexText(digits: string)
    requires digits != [] && AllHexDigits(digits)
    ensures var h := "0x" + digits;
      && ExpressionValues.IsHexText(h) && !ExpressionValues.IsIntegerText(h)
      && (forall i :: 0 <= i < |h| ==> h[i] != '=')
      && !IsSpace(h[0]) && !IsSpace(h[|h| - 1])
  {
    var h := "0x" + digits;
    forall i | 0 <= i < |h| ensures h[i] != '=' {
      if i >= 2 {
        assert h[i] == digits[i - 2];
      }
    }
    assert h[2..] == digits;
    assert h[|h| - 1] == digits[|digits| - 1];
    assert !IsDigit(h[1]);
  }

  /** `name = DIGITS.DIGITS` is a float with that text. */
  lemma {:induction false} ParseValueFloat(name: string, whole: string, fraction: string)
    requires ExpressionValues.PlainName(name)
    requires whole != [] && AllDigits(whole) && fraction != [] && AllDigits(fraction)
    ensures ParseValue(name + " = " + (whole + "." + fraction))
         == Ok(Expression(name, Float, whole + "." + fraction))
  {
    FloatShapeOf(whole, fraction);
    FloatChars(whole, fraction);
    NumberStatement(name, whole + "." + fraction);
  }

  lemma {:induction false} FloatShapeOf(whole: string, fraction: string)
    requires whole != [] && AllDigits(whole) && fraction != [] && AllDigits(fraction)
    ensures var f := whole + "." + fraction;
      ExpressionValues.IsFloatText(f) && !ExpressionValues.IsIntegerText(f) && !ExpressionValues.IsHexText(f)
  {
    var f := whole + "." + fraction;
    SpanOfConcat(whole, "." + fraction, IsDigit);
    assert f == whole + ("." + fraction);
    assert f[|whole|] == '.';
    assert f[|whole| + 1..] == fraction;
    assert !IsDigit(f[|whole|]);
    assert f[0] == whole[0];
  }

  lemma {:induction false} FloatChars(whole: string, fraction: string)
    requires whole != [] && AllDigits(whole) && fraction != [] && AllDigits(fraction)
    ensures var f := whole + "." + fraction;
      && (forall i :: 0 <= i < |f| ==> f[i] != '=')
      && !IsSpace(f[0]) && !IsSpace(f[|f| - 1])
  {
    var f := whole + "." + fraction;
    forall i | 0 <= i < |f| ensures f[i] != '=' {
      if i < |whole| {
        assert f[i] == whole[i];
      } else if i > |whole| {
        assert f[i] == fraction[i - |whole| - 1];
      }
    }
    assert f[0] == whole[0] && f[|f| - 1] == fraction[|fraction| - 1];
  }

  /** `name = v` with a hex or float `v` that is not a decimal integer is
      read as an integer or a float with that text. */
  lemma {:induction false} NumberStatement(name: string, v: string)
    requires ExpressionValues.PlainName(name) && forall i :: 0 <= i < |v| ==> v[i] != '='
    requires v != [] && !IsSpace(v[0]) && !IsSpace(v[|v| - 1])
    requires !ExpressionValues.IsIntegerText(v) && (ExpressionValues.IsHexText(v) || ExpressionValues.IsFloatText(v))
    ensures ExpressionValues.IsHexText(v) ==> ParseValue(name + " = " + v) == Ok(Expression(name, Integer, v))
    ensures !ExpressionValues.IsHexText(v) ==> ParseValue(name + " = " + v) == Ok(Expression(name, Float, v))
  {
    StatementParts(name, v);
    OnlyReading(name + " = " + v, |name| + 1, name, v);
  }

  /** With its only `=` at `k`, a statement splits for a pattern at `k` or
      nowhere. */
  lemma {:induction false} OnlySplit(s: string, k: nat, name: string, v: string, shape: Shape)
    requires StatementAt(s, k, name, v)
    ensures Fits(shape, v) ==> LastSplitsAt(s, shape, k)
    ensures !Fits(shape, v) ==> NoSplit(s, shape)
  {
    SplitAtOnly(s, shape, k, v);
    SplitAtNone(s, shape);
  }

  /** A statement whose only `=` splits it into `name` and a hex or float
      value takes the hex or float reading. */
  lemma {:induction false} OnlyReading(s: string, k: nat, name: string, v: string)
    requires StatementAt(s, k, name, v) && !ExpressionValues.IsIntegerText(v)
    requires ExpressionValues.IsHexText(v) || ExpressionValues.IsFloatText(v)
    ensures ExpressionValues.IsHexText(v) ==> ParseValue(s) == Ok(Expression(name, Integer, v))
    ensures !ExpressionValues.IsHexText(v) ==> ParseValue(s) == Ok(Expression(name, Float, v))
  {
    OnlySplit(s, k, name, v, IntegerShape);
    OnlySplit(s, k, name, v, HexShape);
    if ExpressionValues.IsHexText(v) {
      ReadingHex(s, k);
    } else {
      OnlySplit(s, k, name, v, FloatShape);
      ReadingFloat(s, k);
    }
  }

  /** `name = "TEXT"` is a char array of the converted text. */
  lemma {:induction false} ParseValueQuoted(name: string, v: string)
    requires ExpressionValues.PlainName(name) && ExpressionValues.IsStringText(v)
    requires forall i :: 0 <= i < |v| ==> v[i] != '='
    ensures ParseValue(name + " = " + v) == Ok(Expression(name, CharArray, ConvertCharArray(v)))
  {
    assert StatementAt(name + " = " + v, |name| + 1, name, v) by {
      StatementParts(name, v);
    }
    QuotedArraySplits(name + " = " + v, |name| + 1, name, v);
  }

  /** A quoted run of escapes is a quoted text without `=`. */
  lemma {:induction false} QuotedEscapesText(es: seq<CharEscape>)
    requires ValidEscapes(es) && es != []
    ensures var v := "\"" + EscapesText(es) + "\"";
      ExpressionValues.IsStringText(v) && forall i :: 0 <= i < |v| ==> v[i] != '='
  {
    var v := "\"" + EscapesText(es) + "\"";
    EscapesTextChars(es);
    forall i | 0 <= i < |v| ensures v[i] != '=' {
      if 0 < i < |v| - 1 {
        assert v[i] == EscapesText(es)[i - 1];
      }
    }
  }

  /** A quoted value after the only `=` is read as a char array. */
  lemma {:induction false} QuotedArraySplits(s: string, k: nat, name: string, v: string)
    requires StatementAt(s, k, name, v) && ExpressionValues.IsStringText(v)
    ensures ParseValue(s) == Ok(Expression(name, CharArray, ConvertCharArray(v)))
  {
    QuotedSplitsAt(s, k, v);
    var o := SplitAt(s, ObjectShape);
    ClassifiedQuoted(s, k, o);
    assert ParseValue(s) == Classified(s, None, None, None, Some(k), o);
  }

  /** The array branch with a quoted value. */
  lemma {:induction false} ClassifiedQuoted(s: string, k: nat, o: Option<nat>)
    requires SplitsAt(s, ArrayShape, k) && (o.Some? ==> o.value < |s|)
    requires Trim(s[k + 1..])[0] == '"'
    ensures Classified(s, None, None, None, Some(k), o) == Ok(Statement(s, k, CharArray, ConvertCharArray(Trim(s[k + 1..]))))
  {
    ClassifiedArray(s, k, o);
    QuotedReading(Trim(s[k + 1..]));
  }

  /** Only the array pattern matched: the array branch decides. */
  lemma {:induction false} ClassifiedArray(s: string, k: nat, o: Option<nat>)
    requires k < |s| && (o.Some? ==> o.value < |s|)
    ensures var v := Trim(s[k + 1..]);
      Classified(s, None, None, None, Some(k), o) == Ok(Statement(s, k, TypeOf(ArrayReading, v), ValueOf(ArrayReading, v)))
  {
    assert Decide(None, None, None, Some(k), o) == Some((ArrayReading, k));
  }

  lemma {:induction false} QuotedReading(v: string)
    requires v != [] && v[0] == '"'
    ensures TypeOf(ArrayReading, v) == CharArray && ValueOf(ArrayReading, v) == ConvertCharArray(v)
  {
  }

  /** Where the patterns split a statement with a quoted value. */
  lemma {:induction false} QuotedSplitsAt(s: string, k: nat, v: string)
    requires 1 <= k < |s| && s[k] == '=' && forall j :: 1 <= j < |s| && j != k ==> s[j] != '='
    requires Trim(s[k + 1..]) == v && ExpressionValues.IsStringText(v)
    ensures SplitAt(s, IntegerShape) == None && SplitAt(s, HexShape) == None && SplitAt(s, FloatShape) == None
    ensures SplitAt(s, ArrayShape) == Some(k)
  {
    QuotedFits(v);
    SplitAtOnly(s, IntegerShape, k, v);
    SplitAtOnly(s, HexShape, k, v);
    SplitAtOnly(s, FloatShape, k, v);
    SplitAtOnly(s, ArrayShape, k, v);
  }

  /** `name = <optimized out>` fits no pattern, so it throws; the current
      parser reads it as an optimized-out value instead. */
  lemma {:induction false} ParseValueOptimizedOut(name: string)
    requires ExpressionValues.PlainName(name)
    ensures ParseValue(name + " = <optimized out>") == Thrown(NullMatchMessage)
  {
    OptimizedOutNoShape(name);
    ParseValueThrows(name + " = <optimized out>");
  }

  lemma {:induction false} OptimizedOutNoShape(name: string)
    requires ExpressionValues.PlainName(name)
    ensures NoShape(name + " = <optimized out>")
  {
    var v := "<optimized out>";
    assert name + " = <optimized out>" == name + " = " + v;
    OptimizedOutValue();
    StatementNoShape(name, v);
  }

  /** `name = value` fits no pattern when the value fits none. */
  lemma {:induction false} StatementNoShape(name: string, v: string)
    requires ExpressionValues.PlainName(name) && forall i :: 0 <= i < |v| ==> v[i] != '='
    requires Trim(" " + v) == v
    requires !Fits(IntegerShape, v) && !Fits(HexShape, v) && !Fits(FloatShape, v) && !Fits(ArrayShape, v) && !Fits(ObjectShape, v)
    ensures NoShape(name + " = " + v)
  {
    var s := name + " = " + v;
    OnlyEquals(name, v);
    assert Trim(s[|name| + 2..]) == v;
    NoShapeAt(s, |name| + 1, v);
  }

  lemma {:induction false} OptimizedOutValue()
    ensures var v := "<optimized out>";
      (forall i :: 0 <= i < |v| ==> v[i] != '=') && Trim(" " + v) == v
      && !Fits(IntegerShape, v) && !Fits(HexShape, v) && !Fits(FloatShape, v) && !Fits(ArrayShape, v) && !Fits(ObjectShape, v)
  {
    var v := "<optimized out>";
    assert v[0] == '<' && v[|v| - 1] == '>';
    ExpressionValues.TrimOfSpaced(v);
    forall shape: Shape ensures !Fits(shape, v) {
      FitsNothing(v, shape);
    }
  }

  /** With one `=`, no pattern fits when none fits the value after it. */
  lemma {:induction false} NoShapeAt(s: string, k: nat, v: string)
    requires k < |s| && forall j :: 0 <= j < |s| && j != k ==> s[j] != '='
    requires Trim(s[k + 1..]) == v
    requires !Fits(IntegerShape, v) && !Fits(HexShape, v) && !Fits(FloatShape, v) && !Fits(ArrayShape, v) && !Fits(ObjectShape, v)
    ensures NoShape(s)
  {
    forall j: nat | j < |s|
      ensures !SplitsAt(s, IntegerShape, j) && !SplitsAt(s, HexShape, j) && !SplitsAt(s, FloatShape, j)
        && !SplitsAt(s, ArrayShape, j) && !SplitsAt(s, ObjectShape, j)
    {
      if j != k {
        assert s[j] != '=';
      }
    }
  }

  // ---------------------------------------------------------------------------
  // `ParseToValue`

  function Decoder(): string -> Outcome<Expression> {
    s => ParseValue(s)
  }

  /** `ParseToValue`: the decoded lines that have the shape `lhs = rhs`, in
      order; an exception of `_parseValue` ends the walk and leaves the
      parser. */
  method ParseToValue(lines: seq<string>) returns (r: Outcome<seq<Expression>>)
    ensures r == TryMap(lines, ExpressionMatcher.IsExpression, Decoder())
  {
    var res: seq<Expression> := [];
    var i := 0;
    while i < |lines|
      invariant 0 <= i <= |lines|
      invariant TryMap(lines[..i], ExpressionMatcher.IsExpression, Decoder()) == Ok(res)
    {
      TryMapStep(lines, i, ExpressionMatcher.IsExpression, Decoder(), res);
      if ExpressionMatcher.IsExpression(lines[i]) {
        var e := ParseValue(lines[i]);
        assert Decoder()(lines[i]) == e;
        if e.Thrown? {
          return Thrown(e.message);
        }
        res := res + [e.value];
      }
      i := i + 1;
    }
    assert lines[..|lines|] == lines;
    r := Ok(res);
  }

  /** The list is empty exactly when no line has the shape `lhs = rhs`; it
      is never `undefined`. */
  lemma {:induction false} ValuesEmpty(lines: seq<string>)
    ensures TryMap(lines, ExpressionMatcher.IsExpression, Decoder()) == Ok([])
        <==> forall i :: 0 <= i < |lines| ==> !ExpressionMatcher.IsExpression(lines[i])
  {
    TryMapEmpty(lines, ExpressionMatcher.IsExpression, Decoder());
  }
}
