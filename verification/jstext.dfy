/** The JavaScript string and number primitives the debugger bridge relies on:
    whitespace trimming, literal global replacement, splitting and joining,
    `Number.parseInt`, number-to-text and `String.fromCharCode`. */
module JsText {

  datatype Option<+T> = None | Some(value: T)

  /** A computation that either returns a value or throws an exception carrying
      the exception's message. */
  datatype Outcome<+T> = Ok(value: T) | Thrown(message: string)

  /** A JavaScript number as produced by `Number.parseInt`: an integer or NaN. */
  datatype Num = Finite(n: int) | NaN

  /** The characters matched by `\s` and removed by `String.prototype.trim`. */
  predicate IsSpace(c: char) {
    c == ' ' || c == '\t' || c == '\n' || c == '\r' || c == '\U{000B}' || c == '\U{000C}'
    || c == '\U{00A0}' || c == '\U{1680}' || ('\U{2000}' <= c <= '\U{200A}')
    || c == '\U{2028}' || c == '\U{2029}' || c == '\U{202F}' || c == '\U{205F}'
    || c == '\U{3000}' || c == '\U{FEFF}'
  }

  predicate IsDigit(c: char) { '0' <= c <= '9' }

  predicate IsHexDigit(c: char) { IsDigit(c) || 'a' <= c <= 'f' || 'A' <= c <= 'F' }

  /** `\w`: letters, digits and underscore. */
  predicate IsWordChar(c: char) { IsDigit(c) || 'a' <= c <= 'z' || 'A' <= c <= 'Z' || c == '_' }

  predicate AllDigits(s: string) { forall i :: 0 <= i < |s| ==> IsDigit(s[i]) }

  predicate AllHexDigits(s: string) { forall i :: 0 <= i < |s| ==> IsHexDigit(s[i]) }

  predicate StartsWith(s: string, p: string) { |p| <= |s| && s[..|p|] == p }

  predicate EndsWith(s: string, p: string) { |p| <= |s| && s[|s| - |p|..] == p }

  /** Ending with a one-character string is having that character last. */
  lemma {:induction false} EndsWithChar(s: string, c: char)
    ensures EndsWith(s, [c]) <==> s != [] && s[|s| - 1] == c
  {
    if s != [] {
      assert s[|s| - 1..] == [s[|s| - 1]];
    }
  }

  predicate OccursAt(s: string, p: string, i: nat) { i + |p| <= |s| && s[i..i + |p|] == p }

  predicate Contains(s: string, p: string) { exists i: nat :: i <= |s| && OccursAt(s, p, i) }

  /** `Number.isInteger` for a finite number. */
  predicate IsInteger(x: real) { x == x.Floor as real }

  function TrimLeft(s: string): (r: string)
    ensures |r| <= |s|
    ensures r == [] || !IsSpace(r[0])
    ensures forall i :: 0 <= i < |s| - |r| ==> IsSpace(s[i])
  {
    if s == [] || !IsSpace(s[0]) then s else TrimLeft(s[1..])
  }

  function TrimRight(s: string): (r: string)
    ensures |r| <= |s|
    ensures r == [] || !IsSpace(r[|r| - 1])
    ensures forall i :: |r| <= i < |s| ==> IsSpace(s[i])
  {
    if s == [] || !IsSpace(s[|s| - 1]) then s else TrimRight(s[..|s| - 1])
  }

  /** `String.prototype.trim`. */
  function Trim(s: string): string {
    TrimRight(TrimLeft(s))
  }

  /** `s.replace(/pat/g, rep)` for a pattern without metacharacters: occurrences
      are found left to right and never overlap. */
  function ReplaceAll(s: string, pat: string, rep: string): (r: string)
    requires pat != []
    decreases |s|
  {
    if |s| < |pat| then s
    else if s[..|pat|] == pat then rep + ReplaceAll(s[|pat|..], pat, rep)
    else [s[0]] + ReplaceAll(s[1..], pat, rep)
  }

  /** `parts.join(sep)`. */
  function Join(parts: seq<string>, sep: string): string {
    if parts == [] then ""
    else if |parts| == 1 then parts[0]
    else parts[0] + sep + Join(parts[1..], sep)
  }

  /** `s.split(sep)` for a non-empty literal separator. */
  function Split(s: string, sep: string): (r: seq<string>)
    requires sep != []
    ensures |r| >= 1
    decreases |s|
  {
    if |s| < |sep| then [s]
    else if s[..|sep|] == sep then [""] + Split(s[|sep|..], sep)
    else
      var rest := Split(s[1..], sep);
      [[s[0]] + rest[0]] + rest[1..]
  }

  /** The length of the longest prefix of `s` whose characters all satisfy `p`. */
  function Span(s: string, p: char -> bool): (n: nat)
    ensures n <= |s|
    ensures forall i :: 0 <= i < n ==> p(s[i])
    ensures n < |s| ==> !p(s[n])
  {
    if s == [] || !p(s[0]) then 0 else 1 + Span(s[1..], p)
  }

  /** The length of the longest suffix of `s` whose characters all satisfy `p`. */
  function SpanBack(s: string, p: char -> bool): (n: nat)
    ensures n <= |s|
    ensures forall i :: |s| - n <= i < |s| ==> p(s[i])
    ensures n < |s| ==> !p(s[|s| - n - 1])
  {
    if s == [] || !p(s[|s| - 1]) then 0 else 1 + SpanBack(s[..|s| - 1], p)
  }

  /** `s.indexOf(c)`, with `None` for -1. */
  function IndexOf(s: string, c: char): (r: Option<nat>)
    ensures r.Some? ==> r.value < |s| && s[r.value] == c && forall j :: 0 <= j < r.value ==> s[j] != c
    ensures r.None? ==> forall j :: 0 <= j < |s| ==> s[j] != c
  {
    if s == [] then None
    else if s[0] == c then Some(0)
    else match IndexOf(s[1..], c)
      case None => None
      case Some(k) => Some(k + 1)
  }

  /** `s.lastIndexOf(c)`, with `None` for -1. */
  function LastIndexOf(s: string, c: char): (r: Option<nat>)
    ensures r.Some? ==> r.value < |s| && s[r.value] == c && forall j :: r.value < j < |s| ==> s[j] != c
    ensures r.None? ==> forall j :: 0 <= j < |s| ==> s[j] != c
  {
    if s == [] then None
    else if s[|s| - 1] == c then Some(|s| - 1)
    else LastIndexOf(s[..|s| - 1], c)
  }

  /** The value of a digit character in bases up to 36 (letters count from 10). */
  function DigitValue(c: char): nat {
    if '0' <= c <= '9' then c as nat - '0' as nat
    else if 'a' <= c <= 'z' then c as nat - 'a' as nat + 10
    else if 'A' <= c <= 'Z' then c as nat - 'A' as nat + 10
    else 36
  }

  /** The longest prefix of `s` made of digits of the given radix. */
  function RadixPrefix(s: string, radix: nat): (r: string)
    ensures |r| <= |s| && r == s[..|r|]
    ensures forall i :: 0 <= i < |r| ==> DigitValue(r[i]) < radix
    ensures |r| < |s| ==> DigitValue(s[|r|]) >= radix
  {
    if s == [] || DigitValue(s[0]) >= radix then [] else [s[0]] + RadixPrefix(s[1..], radix)
  }

  /** The value of a string of radix digits, most significant first. */
  function RadixValue(s: string, radix: nat): nat {
    if s == [] then 0 else RadixValue(s[..|s| - 1], radix) * radix + DigitValue(s[|s| - 1])
  }

  /** `Number.parseInt(s, radix)`; radix 0 stands for "no radix given", in which
      case a `0x`/`0X` prefix selects base 16 and base 10 is used otherwise. */
  function ParseInt(s: string, radix: nat): Num
    requires radix == 0 || 2 <= radix <= 36
  {
    var t := TrimLeft(s);
    if t != [] && t[0] == '-' then Negated(ParseUnsigned(t[1..], radix))
    else if t != [] && t[0] == '+' then ParseUnsigned(t[1..], radix)
    else ParseUnsigned(t, radix)
  }

  function Negated(v: Num): Num {
    match v
    case NaN => NaN
    case Finite(n) => Finite(-n)
  }

  /** `parseInt` after the sign: the optional `0x` prefix and the digits. */
  function ParseUnsigned(u: string, radix: nat): Num
    requires radix == 0 || 2 <= radix <= 36
  {
    var hexPrefix := (radix == 0 || radix == 16) && |u| >= 2 && u[0] == '0' && (u[1] == 'x' || u[1] == 'X');
    var base := if hexPrefix then 16 else if radix == 0 then 10 else radix;
    var body := if hexPrefix then u[2..] else u;
    var digits := RadixPrefix(body, base);
    if digits == [] then NaN else Finite(RadixValue(digits, base))
  }

  /** The decimal text of a natural number, as `Number.prototype.toString` gives it. */
  function NatToString(n: nat): (r: string)
    ensures r != [] && AllDigits(r)
    ensures |r| > 1 ==> r[0] != '0'
    decreases n
  {
    if n < 10 then [('0' as nat + n) as char]
    else NatToString(n / 10) + [('0' as nat + n % 10) as char]
  }

  function IntToString(i: int): string {
    if i < 0 then "-" + NatToString(-i) else NatToString(i)
  }

  function NumToString(x: Num): string {
    match x
    case NaN => "NaN"
    case Finite(n) => IntToString(n)
  }

  /** `String.fromCharCode(v)`: the code unit `v` modulo 2^16. A lone surrogate
      code unit cannot be a Dafny character and becomes U+FFFD. */
  function FromCharCode(v: int): char {
    var u := v % 0x1_0000;
    if 0xD800 <= u <= 0xDFFF then '\U{FFFD}' else u as char
  }

  /** `c.charCodeAt(0)` for one code point `c`: its first UTF-16 code unit. */
  function CodeUnit(c: char): nat {
    if c as int < 0x1_0000 then c as nat else 0xD800 + (c as nat - 0x1_0000) / 0x400
  }

  /** ASCII lower-casing, which is what a case-insensitive match of an ASCII
      pattern amounts to. */
  function LowerAscii(c: char): char {
    if 'A' <= c <= 'Z' then (c as int + 32) as char else c
  }

  function LowerAsciiString(s: string): (r: string)
    ensures |r| == |s|
    ensures forall i :: 0 <= i < |s| ==> r[i] == LowerAscii(s[i])
  {
    if s == [] then [] else [LowerAscii(s[0])] + LowerAsciiString(s[1..])
  }

  /** Every backslash doubled. */
  function DoubleBackslashes(s: string): (r: string)
    ensures |r| == |s| + CountOf(s, '\\')
  {
    if s == [] then [] else (if s[0] == '\\' then "\\\\" else [s[0]]) + DoubleBackslashes(s[1..])
  }

  function CountOf(s: string, c: char): nat {
    if s == [] then 0 else (if s[0] == c then 1 else 0) + CountOf(s[1..], c)
  }

  predicate IsLowerHexDigit(c: char) { IsDigit(c) || 'a' <= c <= 'f' }

  predicate IsIdentStart(c: char) { 'a' <= c <= 'z' || 'A' <= c <= 'Z' || c == '_' }

  // ---------------------------------------------------------------------------
  // Lemmas

  lemma {:induction false} ReplaceAllAbsent(s: string, pat: string, rep: string)
    requires pat != []
    requires forall i: nat :: !OccursAt(s, pat, i)
    ensures ReplaceAll(s, pat, rep) == s
    decreases |s|
  {
    if |s| >= |pat| {
      assert !OccursAt(s, pat, 0);
      forall i: nat ensures !OccursAt(s[1..], pat, i) {
        assert !OccursAt(s, pat, i + 1);
        if i + |pat| <= |s[1..]| {
          assert s[1..][i..i + |pat|] == s[i + 1..i + 1 + |pat|];
        }
      }
      ReplaceAllAbsent(s[1..], pat, rep);
      assert [s[0]] + s[1..] == s;
    }
  }

  /** A pattern holding a character the text lacks changes nothing. */
  lemma {:induction false} ReplaceAllMissing(s: string, pat: string, rep: string, c: char)
    requires pat != [] && c in pat && c !in s
    ensures ReplaceAll(s, pat, rep) == s
  {
    forall i: nat ensures !OccursAt(s, pat, i) {
    }
    ReplaceAllAbsent(s, pat, rep);
  }

  /** Replacing every occurrence of one character by another keeps the
      length and changes exactly the positions that held it. */
  lemma {:induction false} ReplaceAllChar(s: string, c: char, d: char)
    ensures |ReplaceAll(s, [c], [d])| == |s|
    ensures forall i :: 0 <= i < |s| ==> ReplaceAll(s, [c], [d])[i] == if s[i] == c then d else s[i]
    decreases |s|
  {
    if |s| >= 1 {
      ReplaceAllChar(s[1..], c, d);
      assert s[..1] == [c] <==> s[0] == c;
    }
  }

  /** Replacing one character by another works piece by piece. */
  lemma {:induction false} ReplaceAllCharAppend(a: string, b: string, c: char, d: char)
    ensures ReplaceAll(a + b, [c], [d]) == ReplaceAll(a, [c], [d]) + ReplaceAll(b, [c], [d])
  {
    ReplaceAllChar(a + b, c, d);
    ReplaceAllChar(a, c, d);
    ReplaceAllChar(b, c, d);
    var r, ra, rb := ReplaceAll(a + b, [c], [d]), ReplaceAll(a, [c], [d]), ReplaceAll(b, [c], [d]);
    forall i | 0 <= i < |r|
      ensures r[i] == (ra + rb)[i]
    {
      if i < |a| {
        assert (a + b)[i] == a[i];
      } else {
        assert (a + b)[i] == b[i - |a|];
      }
    }
  }

  lemma {:induction false} RadixValueAppend(s: string, c: char, radix: nat)
    ensures RadixValue(s + [c], radix) == RadixValue(s, radix) * radix + DigitValue(c)
  {
    assert (s + [c])[..|s + [c]| - 1] == s;
  }

  lemma {:induction false} NatToStringValue(n: nat)
    ensures RadixValue(NatToString(n), 10) == n
    decreases n
  {
    if n < 10 {
      assert NatToString(n)[..0] == [];
    } else {
      NatToStringValue(n / 10);
      RadixValueAppend(NatToString(n / 10), ('0' as nat + n % 10) as char, 10);
    }
  }

  lemma {:induction false} RadixPrefixAllDigits(s: string)
    requires AllDigits(s)
    ensures RadixPrefix(s, 10) == s
    decreases |s|
  {
    if s != [] {
      RadixPrefixAllDigits(s[1..]);
    }
  }

  /** A text made only of digits of the radix is its own digit prefix. */
  lemma {:induction false} RadixPrefixWhole(s: string, radix: nat)
    requires forall i :: 0 <= i < |s| ==> DigitValue(s[i]) < radix
    ensures RadixPrefix(s, radix) == s
  {
    var r := RadixPrefix(s, radix);
    if |r| < |s| {
      assert false;
    }
    assert s[..|s|] == s;
  }

  /** `parseInt` with an explicit radix other than 16 reads a text made
      only of digits of that radix as their value. */
  lemma {:induction false} ParseIntOfDigits(s: string, radix: nat)
    requires 2 <= radix <= 36 && radix != 16
    requires s != [] && forall i :: 0 <= i < |s| ==> DigitValue(s[i]) < radix
    ensures ParseInt(s, radix) == Finite(RadixValue(s, radix))
  {
    assert DigitValue(s[0]) < radix;
    TrimLeftNoSpace(s);
    RadixPrefixWhole(s, radix);
  }

  lemma {:induction false} ParseUnsignedDigits(d: string)
    requires d != [] && AllDigits(d)
    ensures ParseUnsigned(d, 0) == Finite(RadixValue(d, 10))
  {
    assert !(|d| >= 2 && d[0] == '0' && (d[1] == 'x' || d[1] == 'X')) by {
      if |d| >= 2 { assert IsDigit(d[1]); }
    }
    RadixPrefixAllDigits(d);
  }

  lemma {:induction false} ParseIntUnsignedDigits(d: string)
    requires d != [] && AllDigits(d)
    ensures ParseInt(d, 0) == Finite(RadixValue(d, 10))
  {
    TrimLeftNoSpace(d);
    ParseUnsignedDigits(d);
  }

  lemma {:induction false} ParseIntNegativeDigits(d: string)
    requires d != [] && AllDigits(d)
    ensures ParseInt("-" + d, 0) == Finite(-(RadixValue(d, 10) as int))
  {
    var s := "-" + d;
    TrimLeftNoSpace(s);
    assert s[1..] == d;
    ParseUnsignedDigits(d);
  }

  /** `Number.parseInt` reads back what `toString` wrote, sign included. */
  lemma {:induction false} ParseIntOfIntToString(i: int)
    ensures ParseInt(IntToString(i), 0) == Finite(i)
  {
    if i < 0 {
      NatToStringValue(-i);
      ParseIntNegativeDigits(NatToString(-i));
    } else {
      NatToStringValue(i);
      ParseIntUnsignedDigits(NatToString(i));
    }
  }

  lemma {:induction false} SplitNoSeparator(s: string, sep: string)
    requires |sep| == 1 && forall i :: 0 <= i < |s| ==> s[i] != sep[0]
    ensures Split(s, sep) == [s]
    decreases |s|
  {
    if |s| >= 1 {
      SplitNoSeparator(s[1..], sep);
      assert [s[0]] + s[1..] == s;
    }
  }

  /** Splitting at a one-character separator that the first part avoids. */
  lemma {:induction false} SplitAtSeparator(a: string, sep: string, b: string)
    requires |sep| == 1 && forall i :: 0 <= i < |a| ==> a[i] != sep[0]
    ensures Split(a + sep + b, sep) == [a] + Split(b, sep)
    decreases |a|
  {
    if a == [] {
      assert a + sep + b == sep + b;
      assert (sep + b)[..1] == sep && (sep + b)[1..] == b;
    } else {
      SplitAtSeparator(a[1..], sep, b);
      assert (a + sep + b)[1..] == a[1..] + sep + b;
      assert [a[0]] + a[1..] == a;
    }
  }

  /** A run of characters satisfying `p`, followed by one that does not, is
      measured exactly. */
  lemma {:induction false} SpanOfConcat(x: string, y: string, p: char -> bool)
    requires forall i :: 0 <= i < |x| ==> p(x[i])
    requires y == [] || !p(y[0])
    ensures Span(x + y, p) == |x|
    decreases |x|
  {
    if x != [] {
      assert (x + y)[1..] == x[1..] + y;
      SpanOfConcat(x[1..], y, p);
    } else {
      assert x + y == y;
    }
  }

  /** The same, for a run that starts a string and ends at `n`. */
  lemma {:induction false} SpanIs(s: string, n: nat, p: char -> bool)
    requires n <= |s| && (forall i :: 0 <= i < n ==> p(s[i])) && (n == |s| || !p(s[n]))
    ensures Span(s, p) == n
    decreases n
  {
    if n != 0 {
      assert s[1..][n - 1..] == s[n..];
      SpanIs(s[1..], n - 1, p);
    }
  }

  /** The run measured from `w` lies in `s` itself from `w` on. */
  lemma {:induction false} SpanFrom(s: string, w: nat, p: char -> bool)
    requires w <= |s|
    ensures w + Span(s[w..], p) <= |s|
    ensures forall i :: w <= i < w + Span(s[w..], p) ==> p(s[i])
  {
    var y := s[w..];
    forall i | w <= i < w + Span(y, p)
      ensures p(s[i])
    {
      assert s[i] == y[i - w];
    }
  }

  lemma {:induction false} SpanBackOfConcat(x: string, y: string, p: char -> bool)
    requires forall i :: 0 <= i < |y| ==> p(y[i])
    requires x == [] || !p(x[|x| - 1])
    ensures SpanBack(x + y, p) == |y|
    decreases |y|
  {
    if y != [] {
      assert (x + y)[..|x + y| - 1] == x + y[..|y| - 1];
      SpanBackOfConcat(x, y[..|y| - 1], p);
    } else {
      assert x + y == x;
    }
  }

  /** What `TrimLeft` keeps is a suffix, and what `TrimRight` keeps a prefix. */
  lemma {:induction false} TrimLeftSuffix(s: string)
    ensures TrimLeft(s) == s[|s| - |TrimLeft(s)|..]
    decreases |s|
  {
    if s != [] && IsSpace(s[0]) {
      TrimLeftSuffix(s[1..]);
    }
  }

  lemma {:induction false} TrimRightPrefix(s: string)
    ensures TrimRight(s) == s[..|TrimRight(s)|]
    decreases |s|
  {
    if s != [] && IsSpace(s[|s| - 1]) {
      TrimRightPrefix(s[..|s| - 1]);
    }
  }

  /** `trim` keeps a run of the text's own characters, with no white
      space at either end. */
  lemma {:induction false} TrimChars(s: string)
    ensures forall c :: c in Trim(s) ==> c in s
    ensures Trim(s) == [] || (!IsSpace(Trim(s)[0]) && !IsSpace(Trim(s)[|Trim(s)| - 1]))
  {
    var u := TrimLeft(s);
    var t := TrimRight(u);
    TrimLeftSuffix(s);
    TrimRightPrefix(u);
    forall c | c in t ensures c in s {
      var i :| 0 <= i < |t| && t[i] == c;
      assert t[i] == u[i];
      assert u[i] == s[|s| - |u| + i];
    }
    if t != [] {
      assert t[0] == u[0];
    }
  }

  lemma {:induction false} TrimLeftNoSpace(s: string)
    requires s == [] || !IsSpace(s[0])
    ensures TrimLeft(s) == s
  {
  }

  lemma {:induction false} TrimOfTrimmed(s: string)
    requires s != [] && !IsSpace(s[0]) && !IsSpace(s[|s| - 1])
    ensures Trim(s) == s
  {
  }
}
