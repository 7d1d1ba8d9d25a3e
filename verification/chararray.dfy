/** `ExpressionMatcher.ConvertCharArray` of bin/GDBWrapper/out/GDBTextParser.js:
    the body of a quoted `char[]` value, as gdb prints it inside an MI console
    record, becomes the list of its character codes, `[c1,c2,...]`.

    Inside an MI record gdb's own backslashes are doubled, so a byte gdb prints
    as `\033` reaches the wrapper as two backslashes and `033`, a backslash as
    four backslashes and a double quote as three backslashes and the quote. */
module CharArray {
  import opened JsText
  import opened Seqs

  // ---------------------------------------------------------------------------
  // The code as written: escape normalisation pass by pass, then a walk

  /** The first seven of the eleven global replacements the source applies
      in turn: each named escape becomes a backslash pair and three octal
      digits. */
  function NamedEscapesReplaced(s: string): string {
    var s1 := ReplaceAll(s, "\\\\a", "\\\\007");
    var s2 := ReplaceAll(s1, "\\\\b", "\\\\010");
    var s3 := ReplaceAll(s2, "\\\\f", "\\\\014");
    var s4 := ReplaceAll(s3, "\\\\n", "\\\\012");
    var s5 := ReplaceAll(s4, "\\\\r", "\\\\015");
    var s6 := ReplaceAll(s5, "\\\\t", "\\\\011");
    ReplaceAll(s6, "\\\\v", "\\\\013")
  }

  /** The remaining four: the escaped quotes and the escaped backslash become
      a backslash pair and three octal digits, then every backslash pair
      becomes one backslash. */
  function EscapeNormalized(s: string): string {
    var s7 := NamedEscapesReplaced(s);
    var s8 := ReplaceAll(s7, "\\\\\\'", "\\\\047");
    var s9 := ReplaceAll(s8, "\\\\\\\"", "\\\\042");
    var s10 := ReplaceAll(s9, "\\\\\\\\", "\\\\134");
    ReplaceAll(s10, "\\\\", "\\")
  }

  /** What the character walk produces from normalised text: a character
      other than a backslash gives its first UTF-16 code unit; a backslash
      opens a group of four characters read as a base-8 number, and a second
      backslash inside the group starts the group again from there; a group
      cut short by the end of the text gives nothing. */
  function CodesOf(s: string): (r: seq<Num>)
    ensures |r| <= |s|
    decreases |s|
  {
    if s == [] then []
    else if s[0] != '\\' then [Finite(CodeUnit(s[0]))] + CodesOf(s[1..])
    else if |s| >= 2 && s[1] == '\\' then CodesOf(s[1..])
    else if |s| >= 3 && s[2] == '\\' then CodesOf(s[2..])
    else if |s| >= 4 && s[3] == '\\' then CodesOf(s[3..])
    else if |s| >= 4 then [ParseInt(s[1..4], 8)] + CodesOf(s[4..])
    else []
  }

  /** The walk over the normalised text (`escCount`, `isEscChar`,
      `escString`). */
  method CharCodes(t: string) returns (res: seq<Num>)
    ensures res == CodesOf(t)
  {
    res := [];
    var isEscChar := false;
    var escString := "";
    var i := 0;
    ghost var rest := t;
    assert escString + rest == t;
    while i < |t|
      invariant 0 <= i <= |t| && rest == t[i..]
      invariant isEscChar ==> OpenGroup(escString)
      invariant !isEscChar ==> escString == []
      invariant res + CodesOf(escString + rest) == CodesOf(t)
    {
      var c := t[i];
      if c == '\\' {
        KeepBackslash(res, escString, rest, CodesOf(t));
        isEscChar := true;
        escString := "\\";
      } else if isEscChar {
        if |escString| == 3 {
          KeepGroupEnd(res, escString, rest, CodesOf(t));
          res := res + [ParseInt((escString + [c])[1..], 8)];
          isEscChar := false;
          escString := "";
        } else {
          KeepGroupOpen(res, escString, rest, CodesOf(t));
          escString := escString + [c];
        }
      } else {
        KeepPlain(res, rest, CodesOf(t));
        res := res + [Finite(CodeUnit(c))];
      }
      i := i + 1;
      rest := rest[1..];
    }
    if isEscChar {
      EscapeIncomplete(escString);
    }
    assert escString + [] == escString;
  }

  // One lemma per branch of the walk: each carries the loop invariant over
  // one character.

  lemma {:induction false} KeepBackslash(res: seq<Num>, esc: string, rest: string, total: seq<Num>)
    requires esc == [] || OpenGroup(esc)
    requires rest != [] && rest[0] == '\\'
    requires res + CodesOf(esc + rest) == total
    ensures res + CodesOf("\\" + rest[1..]) == total
  {
    assert rest == "\\" + rest[1..];
    StepBackslash(esc, rest[1..]);
  }

  lemma {:induction false} KeepGroupEnd(res: seq<Num>, esc: string, rest: string, total: seq<Num>)
    requires OpenGroup(esc) && |esc| == 3
    requires rest != [] && rest[0] != '\\'
    requires res + CodesOf(esc + rest) == total
    ensures (res + [ParseInt((esc + [rest[0]])[1..], 8)]) + CodesOf("" + rest[1..]) == total
  {
    var g := (esc + [rest[0]])[1..];
    var tail := rest[1..];
    GroupText(esc, rest);
    CodesOfGroup(g, tail);
    var code := ParseInt(g, 8);
    assert "" + tail == tail;
    assert (res + [code]) + CodesOf(tail) == res + ([code] + CodesOf(tail));
  }

  lemma {:induction false} GroupText(esc: string, rest: string)
    requires OpenGroup(esc) && |esc| == 3
    requires rest != [] && rest[0] != '\\'
    ensures |(esc + [rest[0]])[1..]| == 3 && NoBackslash((esc + [rest[0]])[1..])
    ensures esc + rest == "\\" + (esc + [rest[0]])[1..] + rest[1..]
  {
    var g := (esc + [rest[0]])[1..];
    assert g == esc[1..] + [rest[0]];
    assert esc == "\\" + esc[1..];
    assert rest == [rest[0]] + rest[1..];
  }

  lemma {:induction false} KeepGroupOpen(res: seq<Num>, esc: string, rest: string, total: seq<Num>)
    requires OpenGroup(esc) && |esc| < 3
    requires rest != [] && rest[0] != '\\'
    requires res + CodesOf(esc + rest) == total
    ensures OpenGroup(esc + [rest[0]])
    ensures res + CodesOf((esc + [rest[0]]) + rest[1..]) == total
  {
    assert rest == [rest[0]] + rest[1..];
    StepGroup(esc, rest[0], rest[1..]);
  }

  lemma {:induction false} KeepPlain(res: seq<Num>, rest: string, total: seq<Num>)
    requires rest != [] && rest[0] != '\\'
    requires res + CodesOf("" + rest) == total
    ensures (res + [Finite(CodeUnit(rest[0]))]) + CodesOf("" + rest[1..]) == total
  {
    assert "" + rest == [rest[0]] + rest[1..];
    StepPlain(rest[0], rest[1..]);
    assert "" + rest[1..] == rest[1..];
  }

  /** A backslash and at most two more characters, none of them a backslash:
      a group the walk has opened and not yet completed. */
  predicate OpenGroup(esc: string) {
    1 <= |esc| <= 3 && esc[0] == '\\' && NoBackslash(esc[1..])
  }

  lemma {:induction false} StepBackslash(esc: string, rest: string)
    requires esc == [] || OpenGroup(esc)
    ensures CodesOf(esc + ("\\" + rest)) == CodesOf("\\" + rest)
  {
    if esc == [] {
      assert esc + ("\\" + rest) == "\\" + rest;
    } else {
      EscapeRestart(esc, "\\" + rest);
    }
  }

  lemma {:induction false} StepGroup(esc: string, c: char, rest: string)
    requires OpenGroup(esc) && |esc| < 3 && c != '\\'
    ensures OpenGroup(esc + [c])
    ensures CodesOf(esc + ([c] + rest)) == CodesOf((esc + [c]) + rest)
  {
    var e := esc + [c];
    assert esc + ([c] + rest) == e + rest;
    assert e[1..] == esc[1..] + [c];
  }

  lemma {:induction false} StepPlain(c: char, rest: string)
    requires c != '\\'
    ensures CodesOf([] + ([c] + rest)) == [Finite(CodeUnit(c))] + CodesOf(rest)
  {
    assert [] + ([c] + rest) == [c] + rest;
    assert ([c] + rest)[1..] == rest;
  }

  /** An open group followed by a backslash restarts at that backslash. */
  lemma {:induction false} EscapeRestart(esc: string, rest: string)
    requires OpenGroup(esc)
    requires rest != [] && rest[0] == '\\'
    ensures CodesOf(esc + rest) == CodesOf(rest)
  {
    var s := esc + rest;
    assert forall k :: 1 <= k < |esc| ==> s[k] == esc[1..][k - 1];
    assert s[|esc|] == '\\';
    assert s[|esc|..] == rest;
  }

  /** A group cut short by the end of the text gives nothing. */
  lemma {:induction false} EscapeIncomplete(esc: string)
    requires OpenGroup(esc)
    ensures CodesOf(esc) == []
  {
    assert forall k :: 1 <= k < |esc| ==> esc[k] == esc[1..][k - 1];
  }

  /** `'[' + codes.join(',') + ']'`. */
  function CodeListText(codes: seq<Num>): string {
    "[" + Join(seq(|codes|, i requires 0 <= i < |codes| => NumToString(codes[i])), ",") + "]"
  }

  /** What `ConvertCharArray` returns: the code list of the walk over the
      text after the eleven replacement passes. */
  function ConvertedCharArray(s: string): string {
    CodeListText(CodesOf(EscapeNormalized(s)))
  }

  /** `ConvertCharArray` as written. */
  method ConvertCharArray(s: string) returns (r: string)
    ensures r == ConvertedCharArray(s)
  {
    var codes := CharCodes(EscapeNormalized(s));
    r := CodeListText(codes);
  }

  // ---------------------------------------------------------------------------
  // Properties of the walk

  predicate NoBackslash(s: string) { forall i :: 0 <= i < |s| ==> s[i] != '\\' }

  /** Text without backslashes gives one code unit per character. */
  lemma {:induction false} CodesOfPlain(s: string)
    requires NoBackslash(s)
    ensures CodesOf(s) == seq(|s|, i requires 0 <= i < |s| => Finite(CodeUnit(s[i])))
    decreases |s|
  {
    if s != [] {
      CodesOfPlain(s[1..]);
    }
  }

  /** A backslash and three characters without a backslash form one base-8
      group. */
  lemma {:induction false} CodesOfGroup(g: string, rest: string)
    requires |g| == 3 && NoBackslash(g)
    ensures CodesOf("\\" + g + rest) == [ParseInt(g, 8)] + CodesOf(rest)
  {
    var s := "\\" + g + rest;
    assert s[1..4] == g;
    assert s[4..] == rest;
  }

  /** Codes of two texts concatenate when the first does not end inside a
      group. */
  lemma {:induction false} CodesOfAppendPlain(x: string, y: string)
    requires NoBackslash(x)
    ensures CodesOf(x + y) == CodesOf(x) + CodesOf(y)
    decreases |x|
  {
    if x != [] {
      assert (x + y)[1..] == x[1..] + y;
      CodesOfAppendPlain(x[1..], y);
    } else {
      assert x + y == y;
    }
  }

  // ---------------------------------------------------------------------------
  // The evidently intended decoding: one left-to-right scan

  /** The code a named escape letter stands for. */
  function NamedEscape(c: char): (r: Option<nat>)
    ensures r.Some? ==> r.value < 32
  {
    match c
    case 'a' => Some(7)
    case 'b' => Some(8)
    case 'f' => Some(12)
    case 'n' => Some(10)
    case 'r' => Some(13)
    case 't' => Some(9)
    case 'v' => Some(11)
    case _ => None
  }

  predicate IsOctalDigit(c: char) { '0' <= c <= '7' }

  /** The codes of the text, reading each escape where it starts: four
      backslashes, three backslashes and a quote, two backslashes and a named
      letter, and two backslashes and three octal digits each stand for one
      code; every other character stands for its code unit. */
  function DecodeCString(s: string): (r: seq<nat>)
    ensures |r| <= |s|
    decreases |s|
  {
    if s == [] then []
    else if StartsWith(s, "\\\\\\\\") then [92] + DecodeCString(s[4..])
    else if StartsWith(s, "\\\\\\\"") then [34] + DecodeCString(s[4..])
    else if StartsWith(s, "\\\\\\'") then [39] + DecodeCString(s[4..])
    else if |s| >= 3 && s[0] == '\\' && s[1] == '\\' && NamedEscape(s[2]).Some? then
      [NamedEscape(s[2]).value] + DecodeCString(s[3..])
    else if |s| >= 5 && s[0] == '\\' && s[1] == '\\' && IsOctalDigit(s[2]) && IsOctalDigit(s[3]) && IsOctalDigit(s[4]) then
      [RadixValue(s[2..5], 8)] + DecodeCString(s[5..])
    else [CodeUnit(s[0])] + DecodeCString(s[1..])
  }

  function AsNums(codes: seq<nat>): seq<Num> {
    seq(|codes|, i requires 0 <= i < |codes| => Finite(codes[i]))
  }

  /** The code list of the text with each escape read where it starts, in
      one left-to-right scan. */
  function ConvertCharArrayIntended(s: string): string {
    CodeListText(AsNums(DecodeCString(s)))
  }

  /** The three octal digits of a byte. */
  function OctalDigits(b: nat): (r: string)
    requires b < 256
    ensures |r| == 3 && forall i :: 0 <= i < 3 ==> IsOctalDigit(r[i])
  {
    [('0' as nat + b / 64) as char, ('0' as nat + b / 8 % 8) as char, ('0' as nat + b % 8) as char]
  }

  lemma {:induction false} OctalDigitsValue(b: nat)
    requires b < 256
    ensures RadixValue(OctalDigits(b), 8) == b
  {
    var d := OctalDigits(b);
    assert d[..2][..1] == [d[0]];
    assert d[..2] == [d[0], d[1]];
    assert d[..3] == d;
    assert RadixValue(d[..1], 8) == b / 64 by {
      assert d[..1][..0] == [];
    }
    assert RadixValue(d[..2], 8) == (b / 64) * 8 + b / 8 % 8;
  }

  /** How gdb prints one byte of a `char` array inside an MI console record:
      printable characters stand for themselves, the backslash and the
      double quote are escaped, the seven named control characters use their
      letters and any other byte uses three octal digits. */
  function RenderByte(b: nat): (r: string)
    requires b < 256
    ensures r != []
  {
    if b == 92 then "\\\\\\\\"
    else if b == 34 then "\\\\\\\""
    else if 32 <= b <= 126 then [b as char]
    else if b == 7 then "\\\\a"
    else if b == 8 then "\\\\b"
    else if b == 12 then "\\\\f"
    else if b == 10 then "\\\\n"
    else if b == 13 then "\\\\r"
    else if b == 9 then "\\\\t"
    else if b == 11 then "\\\\v"
    else "\\\\" + OctalDigits(b)
  }

  predicate AllBytes(bs: seq<nat>) { forall i :: 0 <= i < |bs| ==> bs[i] < 256 }

  function Render(bs: seq<nat>): string
    requires AllBytes(bs)
  {
    if bs == [] then [] else RenderByte(bs[0]) + Render(bs[1..])
  }

  lemma {:induction false} DecodeRenderByte(b: nat, rest: string)
    requires b < 256
    ensures DecodeCString(RenderByte(b) + rest) == [b] + DecodeCString(rest)
  {
    if b == 92 || b == 34 {
      DecodeRenderEscaped(b, rest);
    } else if 32 <= b <= 126 {
      DecodeRenderPrintable(b, rest);
    } else if b == 7 || b == 8 || b == 12 || b == 10 || b == 13 || b == 9 || b == 11 {
      DecodeRenderNamed(b, rest);
    } else {
      DecodeRenderOctal(b, rest);
    }
  }

  lemma {:induction false} DecodeRenderEscaped(b: nat, rest: string)
    requires b == 92 || b == 34
    ensures DecodeCString(RenderByte(b) + rest) == [b] + DecodeCString(rest)
  {
    var s := RenderByte(b) + rest;
    assert s[4..] == rest;
  }

  lemma {:induction false} DecodeRenderPrintable(b: nat, rest: string)
    requires 32 <= b <= 126 && b != 92 && b != 34
    ensures DecodeCString(RenderByte(b) + rest) == [b] + DecodeCString(rest)
  {
    var s := RenderByte(b) + rest;
    assert s[0] == b as char && s[0] != '\\';
    assert s[1..] == rest;
  }

  lemma {:induction false} DecodeRenderNamed(b: nat, rest: string)
    requires b == 7 || b == 8 || b == 12 || b == 10 || b == 13 || b == 9 || b == 11
    ensures DecodeCString(RenderByte(b) + rest) == [b] + DecodeCString(rest)
  {
    var c := RenderByte(b)[2];
    assert RenderByte(b) == "\\\\" + [c];
    assert NamedEscape(c) == Some(b);
    DecodeNamedLetter(c, rest);
  }

  lemma {:induction false} DecodeNamedLetter(c: char, rest: string)
    requires NamedEscape(c).Some?
    ensures DecodeCString("\\\\" + [c] + rest) == [NamedEscape(c).value] + DecodeCString(rest)
  {
    var s := "\\\\" + [c] + rest;
    assert s[2] == c && c != '\\' && c != '"' && c != '\'';
    assert s[3..] == rest;
  }

  lemma {:induction false} DecodeRenderOctal(b: nat, rest: string)
    requires b < 256 && !(32 <= b <= 126) && b !in {7, 8, 9, 10, 11, 12, 13}
    ensures DecodeCString(RenderByte(b) + rest) == [b] + DecodeCString(rest)
  {
    var d := OctalDigits(b);
    var s := RenderByte(b) + rest;
    assert s == "\\\\" + d + rest;
    assert s[2..5] == d;
    assert s[5..] == rest;
    assert NamedEscape(s[2]).None?;
    OctalDigitsValue(b);
  }

  /** Reading gdb's rendering of a byte array gives the bytes back. */
  lemma {:induction false} DecodeRender(bs: seq<nat>)
    requires AllBytes(bs)
    ensures DecodeCString(Render(bs)) == bs
    decreases |bs|
  {
    if bs != [] {
      DecodeRenderByte(bs[0], Render(bs[1..]));
      DecodeRender(bs[1..]);
    }
  }

  /** The intended conversion of gdb's rendering of a byte array lists
      exactly those bytes. */
  lemma {:induction false} ConvertCharArrayIntendedRender(bs: seq<nat>)
    requires AllBytes(bs)
    ensures ConvertCharArrayIntended(Render(bs)) == CodeListText(AsNums(bs))
  {
    DecodeRender(bs);
  }

  // ---------------------------------------------------------------------------
  // Where the two readings agree

  /** Without a backslash none of the eleven passes finds anything. */
  lemma {:induction false} EscapeNormalizedPlain(s: string)
    requires NoBackslash(s)
    ensures EscapeNormalized(s) == s
  {
    assert '\\' !in s;
    ReplaceAllMissing(s, "\\\\a", "\\\\007", '\\');
    ReplaceAllMissing(s, "\\\\b", "\\\\010", '\\');
    ReplaceAllMissing(s, "\\\\f", "\\\\014", '\\');
    ReplaceAllMissing(s, "\\\\n", "\\\\012", '\\');
    ReplaceAllMissing(s, "\\\\r", "\\\\015", '\\');
    ReplaceAllMissing(s, "\\\\t", "\\\\011", '\\');
    ReplaceAllMissing(s, "\\\\v", "\\\\013", '\\');
    ReplaceAllMissing(s, "\\\\\\'", "\\\\047", '\\');
    ReplaceAllMissing(s, "\\\\\\\"", "\\\\042", '\\');
    ReplaceAllMissing(s, "\\\\\\\\", "\\\\134", '\\');
    ReplaceAllMissing(s, "\\\\", "\\", '\\');
  }

  /** Without a backslash the scan reads one code unit per character. */
  lemma {:induction false} DecodePlain(s: string)
    requires NoBackslash(s)
    ensures DecodeCString(s) == seq(|s|, i requires 0 <= i < |s| => CodeUnit(s[i]))
    decreases |s|
  {
    if s != [] {
      assert s[0] != '\\';
      DecodePlain(s[1..]);
    }
  }

  /** On text without a backslash both readings list the code units of its
      characters. */
  lemma {:induction false} ConversionsAgreePlain(s: string)
    requires NoBackslash(s)
    ensures ConvertedCharArray(s) == CodeListText(seq(|s|, i requires 0 <= i < |s| => Finite(CodeUnit(s[i]))))
    ensures ConvertedCharArray(s) == ConvertCharArrayIntended(s)
  {
    EscapeNormalizedPlain(s);
    CodesOfPlain(s);
    DecodePlain(s);
    assert AsNums(DecodeCString(s)) == CodesOf(s);
  }

  /** Printable bytes other than the backslash and the double quote, which
      gdb renders as themselves. */
  predicate PlainBytes(bs: seq<nat>) {
    forall i :: 0 <= i < |bs| ==> 32 <= bs[i] <= 126 && bs[i] != 92 && bs[i] != 34
  }

  /** The rendering of plain bytes is those bytes as characters. */
  lemma {:induction false} RenderPlain(bs: seq<nat>)
    requires PlainBytes(bs)
    ensures AllBytes(bs) && Render(bs) == seq(|bs|, i requires 0 <= i < |bs| => bs[i] as char)
    decreases |bs|
  {
    if bs != [] {
      assert PlainBytes(bs[1..]) by {
        assert forall i :: 0 <= i < |bs| - 1 ==> bs[1..][i] == bs[i + 1];
      }
      RenderPlain(bs[1..]);
    }
  }

  /** The conversion as written reads gdb's rendering of plain bytes back
      as exactly those bytes, as the one-scan reading does. */
  lemma {:induction false} ConvertedPlainBytes(bs: seq<nat>)
    requires PlainBytes(bs)
    ensures AllBytes(bs) && ConvertedCharArray(Render(bs)) == CodeListText(AsNums(bs))
    ensures AllBytes(bs) && ConvertedCharArray(Render(bs)) == ConvertCharArrayIntended(Render(bs))
  {
    RenderPlain(bs);
    var t := Render(bs);
    ConversionsAgreePlain(t);
    ConvertCharArrayIntendedRender(bs);
  }

  // The finding: a backslash followed by the letter `a`. Every text below
  // is a parameter fixed by a precondition.

  /** Four backslashes and `a`, as gdb renders the bytes 92 and 97. */
  predicate IsFourBackslashA(s: string) {
    |s| == 5 && s[0] == '\\' && s[1] == '\\' && s[2] == '\\' && s[3] == '\\' && s[4] == 'a'
  }

  /** Four backslashes and `007`, what the `a` pass makes of it. */
  predicate IsFourBackslash007(s: string) {
    |s| == 7 && s[..4] == "\\\\\\\\" && s[4..] == "007"
  }

  lemma {:induction false} ReplaceAllAtHead(s: string, pat: string, rep: string)
    requires pat != [] && StartsWith(s, pat)
    ensures ReplaceAll(s, pat, rep) == rep + ReplaceAll(s[|pat|..], pat, rep)
  {
  }

  lemma {:induction false} ReplaceAllPastHead(s: string, pat: string, rep: string)
    requires pat != [] && |pat| <= |s| && !StartsWith(s, pat)
    ensures ReplaceAll(s, pat, rep) == [s[0]] + ReplaceAll(s[1..], pat, rep)
  {
  }

  lemma {:induction false} BackslashAFirstPass(s: string)
    requires IsFourBackslashA(s)
    ensures IsFourBackslash007(ReplaceAll(s, "\\\\a", "\\\\007"))
  {
    var pat, rep := "\\\\a", "\\\\007";
    assert s[2..][..3] == pat;
    ReplaceAllAtHead(s[2..], pat, rep);
    assert s[2..][3..] == [];
    assert s[1..][..3] != pat by {
      assert s[1..][2] == '\\';
    }
    ReplaceAllPastHead(s[1..], pat, rep);
    assert s[1..][1..] == s[2..];
    assert s[..3] != pat by {
      assert s[2] == '\\';
    }
    ReplaceAllPastHead(s, pat, rep);
    var r := [s[0]] + ([s[1]] + rep);
    assert r[..4] == "\\\\\\\\" && r[4..] == "007";
  }

  /** When the `a` pass leaves none of the other six letters, the other
      named passes change nothing. */
  lemma {:induction false} NamedPassesAfterA(s: string, t: string)
    requires ReplaceAll(s, "\\\\a", "\\\\007") == t
    requires 'b' !in t && 'f' !in t && 'n' !in t && 'r' !in t && 't' !in t && 'v' !in t
    ensures NamedEscapesReplaced(s) == t
  {
    ReplaceAllMissing(t, "\\\\b", "\\\\010", 'b');
    ReplaceAllMissing(t, "\\\\f", "\\\\014", 'f');
    ReplaceAllMissing(t, "\\\\n", "\\\\012", 'n');
    ReplaceAllMissing(t, "\\\\r", "\\\\015", 'r');
    ReplaceAllMissing(t, "\\\\t", "\\\\011", 't');
    ReplaceAllMissing(t, "\\\\v", "\\\\013", 'v');
  }

  lemma {:induction false} NoLetters007(t: string)
    requires IsFourBackslash007(t)
    ensures forall c :: c in t ==> c == '\\' || c == '0' || c == '7'
  {
    assert t == t[..4] + t[4..];
  }

  lemma {:induction false} BackslashANamed(s: string)
    requires IsFourBackslashA(s)
    ensures IsFourBackslash007(NamedEscapesReplaced(s))
  {
    var t := ReplaceAll(s, "\\\\a", "\\\\007");
    BackslashAFirstPass(s);
    NoLetters007(t);
    NamedPassesAfterA(s, t);
  }

  /** A backslash and `134007`. */
  predicate IsBackslash134007(s: string) {
    |s| == 7 && s[0] == '\\' && s[1..4] == "134" && s[4..] == "007"
  }

  lemma {:induction false} BackslashALastPasses(t: string)
    requires IsFourBackslash007(t)
    ensures IsBackslash134007(ReplaceAll(ReplaceAll(t, "\\\\\\\\", "\\\\134"), "\\\\", "\\"))
  {
    var u := ReplaceAll(t, "\\\\\\\\", "\\\\134");
    ReplaceAllAtHead(t, "\\\\\\\\", "\\\\134");
    ReplaceAllMissing(t[4..], "\\\\\\\\", "\\\\134", '\\');
    assert u == "\\\\134" + t[4..];
    assert u[..2] == "\\\\";
    ReplaceAllAtHead(u, "\\\\", "\\");
    assert u[2..] == "134" + t[4..];
    ReplaceAllMissing(u[2..], "\\\\", "\\", '\\');
  }

  lemma {:induction false} BackslashANormalized(s: string)
    requires IsFourBackslashA(s)
    ensures IsBackslash134007(EscapeNormalized(s))
  {
    var t := NamedEscapesReplaced(s);
    BackslashANamed(s);
    NoLetters007(t);
    ReplaceAllMissing(t, "\\\\\\'", "\\\\047", '\'');
    ReplaceAllMissing(t, "\\\\\\\"", "\\\\042", '"');
    BackslashALastPasses(t);
  }

  lemma {:induction false} OctalValue134(g: string)
    requires g == "134"
    ensures ParseInt(g, 8) == Finite(92)
  {
    ParseIntOfDigits(g, 8);
    var h := g[..2];
    assert RadixValue(h[..1], 8) == 1 by {
      assert h[..1][..0] == [] && h[..1][0] == '1';
    }
    assert h[1] == '3' && g[2] == '4';
    assert RadixValue(h, 8) == 11;
    assert RadixValue(g, 8) == 92;
  }

  lemma {:induction false} BackslashACodes(s: string)
    requires IsBackslash134007(s)
    ensures CodesOf(s) == [Finite(92), Finite(48), Finite(48), Finite(55)]
  {
    var g, rest := s[1..4], s[4..];
    assert s == "\\" + g + rest;
    CodesOfGroup(g, rest);
    OctalValue134(g);
    PlainCodes007(rest);
  }

  lemma {:induction false} PlainCodes007(s: string)
    requires s == "007"
    ensures CodesOf(s) == [Finite(48), Finite(48), Finite(55)]
  {
    CodesOfPlain(s);
  }

  lemma {:induction false} RenderBackslashA(bs: seq<nat>)
    requires bs == [92, 97]
    ensures AllBytes(bs) && IsFourBackslashA(Render(bs))
  {
    assert bs[1..] == [97];
    assert bs[1..][1..] == [];
    assert Render(bs[1..]) == "a";
  }

  /** The code as written misreads a backslash followed by the letter `a`:
      the `a` pass turns the last two of the four backslashes and the `a`
      into an escape first, so the text decodes as a backslash and `007`. */
  lemma {:induction false} ConvertCharArrayMisreadsBackslash(bs: seq<nat>)
    requires bs == [92, 97]
    ensures AllBytes(bs) && Render(bs) == "\\\\\\\\a"
    ensures DecodeCString(Render(bs)) == bs
    ensures CodesOf(EscapeNormalized(Render(bs))) == [Finite(92), Finite(48), Finite(48), Finite(55)]
  {
    RenderBackslashA(bs);
    DecodeRender(bs);
    BackslashANormalized(Render(bs));
    BackslashACodes(EscapeNormalized(Render(bs)));
  }
}
