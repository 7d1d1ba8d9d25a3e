/** The value decoder of bin/GDBWrapper/out/GDBTextParser.js: `_parseValue`
    classifies one `name = value` statement printed by `print` or
    `info locals`, and `ParseToValue` cuts the console lines into statements
    and decodes each.

    Two regular-expression rewrites are kept abstract and passed in as
    functions: `ToJsonString` and the per-line pre-pass of `ParseToValue`
    that unwraps pointer values, `<repeats N times>` runs and character
    literals. */
module ExpressionValues {
  import opened JsText
  import opened Seqs
  import opened GdbProtocol
  import opened CharArray
  import opened PreHandleArray
  import ExpressionMatcher

  /** The two rewrites the model leaves abstract. */
  datatype Rewriters = Rewriters(toJson: string -> string, prePass: string -> string)

  /** The message of the TypeError raised by reading group 1 of a failed
      match (`null`). */
  const NullMatchMessage: string := "Cannot read properties of null (reading '1')"

  /** The statement separator `ParseToValue` puts in place of empty lines. */
  const StatementSeparator: string := "<0#0>"

  // ---------------------------------------------------------------------------
  // The shapes of the right-hand side, after trimming

  /** `-?\s*[0-9]+` */
  predicate IsIntegerText(t: string) {
    var u := if t != [] && t[0] == '-' then TrimLeft(t[1..]) else t;
    u != [] && AllDigits(u)
  }

  /** `(?:0x|0X)[0-9a-fA-F]+` */
  predicate IsHexText(t: string) {
    |t| >= 3 && t[0] == '0' && (t[1] == 'x' || t[1] == 'X') && AllHexDigits(t[2..])
  }

  /** `-?\s*[0-9]+\.[0-9]+` */
  predicate IsFloatText(t: string) {
    var u := if t != [] && t[0] == '-' then TrimLeft(t[1..]) else t;
    var d := Span(u, IsDigit);
    d >= 1 && d + 1 < |u| && u[d] == '.' && AllDigits(u[d + 1..])
  }

  /** `\{["\{0-9].*\}` */
  predicate IsArrayText(t: string) {
    |t| >= 3 && t[0] == '{' && (t[1] == '"' || t[1] == '{' || IsDigit(t[1])) && t[|t| - 1] == '}'
  }

  /** `"(.+)"` */
  predicate IsStringText(t: string) {
    |t| >= 3 && t[0] == '"' && t[|t| - 1] == '"'
  }

  /** `\{\s*\w+\s*=.+\}`: a brace, a field name, `=`, at least one character
      and the closing brace. */
  predicate IsObjectText(t: string) {
    |t| >= 2 && t[0] == '{' && t[|t| - 1] == '}'
    && var u := t[1..];
    var a := Span(u, IsSpace);
    var w := Span(u[a..], IsWordChar);
    var b := Span(u[a + w..], IsSpace);
    w >= 1 && 1 + a + w + b + 1 < |t| - 1 && u[a + w + b] == '='
  }

  /** The value of an array: brace pairs that open arrays become `[`/`]`
      after the JSON rewrite, through the sentinels. */
  function ArrayValue(t: string, toJson: string -> string): Outcome<string> {
    match PreHandled(t)
    case Thrown(m) => Thrown(m)
    case Ok(u) => Ok(ReplaceAll(ReplaceAll(toJson(u), OpenSentinel, "["), CloseSentinel, "]"))
  }

  /** The split every pattern of `_parseValue` starts with: the trimmed text
      before the first `=` and everything after it. The patterns demand at
      least one character before that `=`. */
  function SplitStatement(s: string): (r: Option<(string, string)>)
    ensures r.None? <==> IndexOf(s, '=').None? || IndexOf(s, '=') == Some(0)
    ensures r.Some? ==> '=' !in r.value.0 && |r.value.0| + |r.value.1| < |s|
  {
    match IndexOf(s, '=')
    case None => None
    case Some(k) =>
      if k == 0 then None
      else
        TrimChars(s[..k]);
        Some((Trim(s[..k]), s[k + 1..]))
  }

  /** The tests of `_parseValue` on the right-hand side, in order:
      `<optimized out>`, an integer, a hexadecimal literal, a float, an
      array, a string and an object; anything else is kept as it is. A
      string is read by the pass-by-pass conversion. */
  function ClassifyValue(name: string, rhs: string, rw: Rewriters): (r: Outcome<Expression>)
    ensures r.Thrown? ==> r.message == UnmatchedCloseMessage
    ensures r.Thrown? ==> IsArrayText(Trim(rhs))
    ensures r.Ok? && r.value.dataType == Original ==>
      r.value.name == name + " <optimized out>" || r.value.name == name + " <original>"
    ensures r.Ok? && r.value.dataType != Original ==> r.value.name == name
    ensures r.Ok? && (r.value.dataType == Integer || r.value.dataType == Float) ==> r.value.val == Trim(rhs)
    ensures r.Ok? && r.value.dataType == Integer ==> IsIntegerText(Trim(rhs)) || IsHexText(Trim(rhs))
    ensures r.Ok? && r.value.dataType == CharArray ==>
      IsStringText(Trim(rhs)) && r.value.val == ConvertedCharArray(Trim(Trim(rhs)[1..|Trim(rhs)| - 1]))
    ensures r.Ok? && r.value.dataType == ObjectType ==> IsObjectText(Trim(rhs)) && r.value.val == rw.toJson(Trim(rhs))
  {
    var t := Trim(rhs);
    if StartsWith(TrimLeft(rhs), "<optimized out>") then
      Ok(Expression(name + " <optimized out>", Original, "null"))
    else if IsIntegerText(t) || IsHexText(t) then Ok(Expression(name, Integer, t))
    else if IsFloatText(t) then Ok(Expression(name, Float, t))
    else ClassifyBracketed(name, t, rw)
  }

  /** The tests of `_parseValue` after the numeric ones, on the trimmed
      right-hand side `t`. */
  function ClassifyBracketed(name: string, t: string, rw: Rewriters): (r: Outcome<Expression>)
    ensures r.Thrown? ==> r.message == UnmatchedCloseMessage && IsArrayText(t)
    ensures r.Ok? ==> r.value.dataType != Integer && r.value.dataType != Float
    ensures r.Ok? && r.value.dataType == Original ==> r.value.name == name + " <original>"
    ensures r.Ok? && r.value.dataType != Original ==> r.value.name == name
    ensures r.Ok? && r.value.dataType == CharArray ==>
      IsStringText(t) && r.value.val == ConvertedCharArray(Trim(t[1..|t| - 1]))
    ensures r.Ok? && r.value.dataType == ObjectType ==> IsObjectText(t) && r.value.val == rw.toJson(t)
  {
    if IsArrayText(t) then
      match ArrayValue(t, rw.toJson)
      case Thrown(m) => Thrown(m)
      case Ok(v) => Ok(Expression(name, ArrayType, v))
    else if IsStringText(t) then
      Ok(Expression(name, CharArray, ConvertedCharArray(Trim(t[1..|t| - 1]))))
    else if IsObjectText(t) then Ok(Expression(name, ObjectType, rw.toJson(t)))
    else Ok(Expression(name + " <original>", Original, t))
  }

  /** `_parseValue`: with no `=` after the first character every pattern
      fails and reading the failed match throws; otherwise the right-hand
      side is classified. */
  function ParseValue(s: string, rw: Rewriters): (r: Outcome<Expression>)
    ensures r == Thrown(NullMatchMessage) <==> (IndexOf(s, '=').None? || IndexOf(s, '=') == Some(0))
    ensures r.Thrown? ==> r.message == NullMatchMessage || r.message == UnmatchedCloseMessage
  {
    match SplitStatement(s)
    case None => Thrown(NullMatchMessage)
    case Some((name, rhs)) => ClassifyValue(name, rhs, rw)
  }

  // ---------------------------------------------------------------------------
  // What `_parseValue` gives for the lines gdb prints

  /** A variable name as gdb prints it: no `=` and no white space at its ends. */
  predicate PlainName(name: string) {
    name != [] && '=' !in name && !IsSpace(name[0]) && !IsSpace(name[|name| - 1])
  }

  /** `name = value` splits into the name and the value after one space. */
  lemma {:induction false} SplitStatementOf(name: string, value: string)
    requires PlainName(name)
    ensures SplitStatement(name + " = " + value) == Some((name, " " + value))
  {
    var s := name + " = " + value;
    assert s[|name| + 1] == '=';
    forall j | 0 <= j < |name| + 1 ensures s[j] != '=' {
      if j < |name| {
        assert s[j] == name[j];
      }
    }
    assert s[..|name| + 1] == name + " ";
    assert s[|name| + 2..] == " " + value;
    assert TrimLeft(name + " ") == name + " " by {
      TrimLeftNoSpace(name + " ");
    }
    assert TrimRight(name + " ") == TrimRight(name) by {
      assert (name + " ")[..|name + " "| - 1] == name;
    }
    TrimOfTrimmed(name);
    TrimLeftNoSpace(name);
  }

  lemma {:induction false} TrimOfSpaced(value: string)
    requires value != [] && !IsSpace(value[0]) && !IsSpace(value[|value| - 1])
    ensures TrimLeft(" " + value) == value
    ensures Trim(" " + value) == value
  {
    assert (" " + value)[1..] == value;
    TrimLeftNoSpace(value);
    TrimOfTrimmed(value);
  }

  /** `name = value` takes the kind of the first shape of the trimmed value
      that fits, in the order `_parseValue` tests them: `<optimized out>`,
      a decimal integer, a hexadecimal integer, a float, an array, a string,
      an object; a value of none of these shapes is kept as it is, under
      the name marked ` <original>`. */
  lemma {:induction false} ParseValueShapes(name: string, value: string, rw: Rewriters)
    requires PlainName(name)
    ensures var r := ParseValue(name + " = " + value, rw);
      var t := Trim(value);
      var opt := StartsWith(TrimLeft(value), "<optimized out>");
      var number := IsIntegerText(t) || IsHexText(t) || IsFloatText(t);
      && (opt ==> r == Ok(Expression(name + " <optimized out>", Original, "null")))
      && (!opt && IsIntegerText(t) ==> r == Ok(Expression(name, Integer, t)))
      && (!opt && !IsIntegerText(t) && IsHexText(t) ==> r == Ok(Expression(name, Integer, t)))
      && (!opt && !IsIntegerText(t) && !IsHexText(t) && IsFloatText(t) ==> r == Ok(Expression(name, Float, t)))
      && (!opt && !number && IsArrayText(t) ==>
            r == match ArrayValue(t, rw.toJson)
                 case Ok(v) => Ok(Expression(name, ArrayType, v))
                 case Thrown(m) => Thrown(m))
      && (!opt && !number && !IsArrayText(t) && IsStringText(t) ==>
            r == Ok(Expression(name, CharArray, ConvertedCharArray(Trim(t[1..|t| - 1])))))
      && (!opt && !number && !IsArrayText(t) && !IsStringText(t) && IsObjectText(t) ==>
            r == Ok(Expression(name, ObjectType, rw.toJson(t))))
      && (!opt && !number && !IsArrayText(t) && !IsStringText(t) && !IsObjectText(t) ==>
            r == Ok(Expression(name + " <original>", Original, t)))
  {
    SplitStatementOf(name, value);
    assert (" " + value)[1..] == value;
    assert TrimLeft(" " + value) == TrimLeft(value);
  }

  /** `name = DIGITS` is an integer with those digits. */
  lemma {:induction false} ParseValueInteger(name: string, d: string, rw: Rewriters)
    requires PlainName(name) && d != [] && AllDigits(d)
    ensures ParseValue(name + " = " + d, rw) == Ok(Expression(name, Integer, d))
  {
    SplitStatementOf(name, d);
    IntegerValue(name, d, rw);
  }

  lemma {:induction false} IntegerValue(name: string, d: string, rw: Rewriters)
    requires d != [] && AllDigits(d)
    ensures ClassifyValue(name, " " + d, rw) == Ok(Expression(name, Integer, d))
  {
    assert IsDigit(d[0]) && IsDigit(d[|d| - 1]);
    TrimOfSpaced(d);
    assert !StartsWith(d, "<optimized out>") by {
      assert d[0] != '<';
    }
    assert IsIntegerText(d);
  }

  /** `name = <optimized out>...` has no value, whatever follows. */
  lemma {:induction false} ParseValueOptimized(name: string, rest: string, rw: Rewriters)
    requires PlainName(name) && StartsWith(rest, "<optimized out>")
    ensures ParseValue(name + " = " + rest, rw) == Ok(Expression(name + " <optimized out>", Original, "null"))
  {
    SplitStatementOf(name, rest);
    OptimizedValue(name, rest, rw);
  }

  lemma {:induction false} OptimizedValue(name: string, rest: string, rw: Rewriters)
    requires StartsWith(rest, "<optimized out>")
    ensures ClassifyValue(name, " " + rest, rw) == Ok(Expression(name + " <optimized out>", Original, "null"))
  {
    assert (" " + rest)[1..] == rest;
    assert rest[0] == '<';
    TrimLeftNoSpace(rest);
  }

  /** `name = "..."`, with gdb's rendering of printable bytes other than
      the backslash and the quote between the quotes, is a character array
      listing exactly those bytes. */
  lemma {:induction false} ParseValueCharArray(name: string, bs: seq<nat>, rw: Rewriters)
    requires PlainName(name) && PlainBytes(bs) && bs != [] && bs[0] != 32 && bs[|bs| - 1] != 32
    ensures AllBytes(bs)
    ensures ParseValue(name + " = \"" + Render(bs) + "\"", rw)
         == Ok(Expression(name, CharArray, CodeListText(AsNums(bs))))
  {
    RenderedBody(bs);
    ParseValueString(name, Render(bs), rw);
  }

  lemma {:induction false} RenderedBody(bs: seq<nat>)
    requires PlainBytes(bs) && bs != [] && bs[0] != 32 && bs[|bs| - 1] != 32
    ensures AllBytes(bs) && Render(bs) != [] && Trim(Render(bs)) == Render(bs)
    ensures AllBytes(bs) && ConvertedCharArray(Trim(Render(bs))) == CodeListText(AsNums(bs))
  {
    ConvertedPlainBytes(bs);
    RenderTrimmed(bs);
  }

  /** The rendering of the bytes 92 and 97 (a backslash and `a`) between
      quotes is read as the codes 92, 48, 48 and 55. */
  lemma {:induction false} ParseValueMisreadsBackslash(name: string, bs: seq<nat>, rw: Rewriters)
    requires PlainName(name) && bs == [92, 97]
    ensures AllBytes(bs) && ParseValue(name + " = \"" + Render(bs) + "\"", rw)
         == Ok(Expression(name, CharArray, CodeListText([Finite(92), Finite(48), Finite(48), Finite(55)])))
  {
    ConvertCharArrayMisreadsBackslash(bs);
    var t := Render(bs);
    assert Trim(t) == t by {
      assert !IsSpace(t[0]) && !IsSpace(t[|t| - 1]);
      TrimOfTrimmed(t);
    }
    ParseValueString(name, t, rw);
  }

  lemma {:induction false} RenderTrimmed(bs: seq<nat>)
    requires AllBytes(bs) && bs != [] && bs[0] != 32 && bs[|bs| - 1] != 32
    ensures Render(bs) != [] && Trim(Render(bs)) == Render(bs)
  {
    var r := Render(bs);
    RenderEnds(bs);
    assert r != [] && !IsSpace(r[0]) && !IsSpace(r[|r| - 1]);
    TrimOfTrimmed(r);
  }

  /** `name = "BODY"` is a character array read from the trimmed body. */
  lemma {:induction false} ParseValueString(name: string, body: string, rw: Rewriters)
    requires PlainName(name) && body != []
    ensures ParseValue(name + " = \"" + body + "\"", rw)
         == Ok(Expression(name, CharArray, ConvertedCharArray(Trim(body))))
  {
    var t := "\"" + body + "\"";
    assert name + " = \"" + body + "\"" == name + " = " + t;
    SplitStatementOf(name, t);
    StringValue(name, body, rw);
  }

  /** A quoted body is read as a character array. */
  lemma {:induction false} StringValue(name: string, body: string, rw: Rewriters)
    requires body != []
    ensures var t := "\"" + body + "\"";
      ClassifyValue(name, " " + t, rw) == Ok(Expression(name, CharArray, ConvertedCharArray(Trim(body))))
  {
    QuotedFacts(body);
  }

  lemma {:induction false} QuotedFacts(body: string)
    requires body != []
    ensures var t := "\"" + body + "\"";
      && TrimLeft(" " + t) == t && Trim(" " + t) == t && t[1..|t| - 1] == body && IsStringText(t)
      && !StartsWith(t, "<optimized out>")
      && !IsIntegerText(t) && !IsHexText(t) && !IsFloatText(t) && !IsArrayText(t)
  {
    var t := "\"" + body + "\"";
    assert t[0] == '"' && t[|t| - 1] == '"';
    TrimOfSpaced(t);
    assert t[1..|t| - 1] == body;
    QuotedShapes(t);
  }

  /** Text that opens with a quote is none of the shapes checked before the
      string. */
  lemma {:induction false} QuotedShapes(t: string)
    requires t != [] && t[0] == '"'
    ensures !StartsWith(t, "<optimized out>")
    ensures !IsIntegerText(t) && !IsHexText(t) && !IsFloatText(t) && !IsArrayText(t)
  {
    assert !IsDigit(t[0]);
    assert Span(t, IsDigit) == 0;
  }

  lemma {:induction false} RenderByteEnds(b: nat)
    requires b < 256 && b != 32
    ensures var r := RenderByte(b); !IsSpace(r[0]) && !IsSpace(r[|r| - 1])
  {
    if b >= 127 || b < 32 {
      if b !in {7, 8, 12, 10, 13, 9, 11} {
        var d := OctalDigits(b);
        assert RenderByte(b) == "\\\\" + d;
        assert IsOctalDigit(d[2]);
      }
    }
  }

  /** A non-empty rendering starts and ends with a character that is not
      white space unless the byte there is a space. */
  lemma {:induction false} RenderEnds(bs: seq<nat>)
    requires AllBytes(bs) && bs != [] && bs[0] != 32 && bs[|bs| - 1] != 32
    ensures Render(bs) != [] && !IsSpace(Render(bs)[0]) && !IsSpace(Render(bs)[|Render(bs)| - 1])
  {
    var r := RenderByte(bs[0]);
    assert Render(bs) == r + Render(bs[1..]);
    assert Render(bs)[0] == r[0];
    RenderLast(bs);
    RenderByteEnds(bs[0]);
    RenderByteEnds(bs[|bs| - 1]);
  }

  lemma {:induction false} RenderLast(bs: seq<nat>)
    requires AllBytes(bs) && bs != []
    ensures var r := RenderByte(bs[|bs| - 1]);
      Render(bs) != [] && Render(bs)[|Render(bs)| - 1] == r[|r| - 1]
    decreases |bs|
  {
    var r := RenderByte(bs[0]);
    assert Render(bs) == r + Render(bs[1..]);
    if |bs| > 1 {
      RenderLast(bs[1..]);
      assert bs[1..][|bs[1..]| - 1] == bs[|bs| - 1];
    } else {
      assert Render(bs[1..]) == [];
    }
  }

  // ---------------------------------------------------------------------------
  // `ParseToValue`

  /** `filter(x => x !== '')`. */
  function DropEmpty(pieces: seq<string>): (r: seq<string>)
    ensures |r| <= |pieces|
    ensures forall i :: 0 <= i < |r| ==> r[i] != []
    ensures forall i :: 0 <= i < |pieces| && pieces[i] != [] ==> pieces[i] in r
  {
    if pieces == [] then []
    else
      var init := DropEmpty(pieces[..|pieces| - 1]);
      var last := pieces[|pieces| - 1];
      assert forall i :: 0 <= i < |pieces| - 1 ==> pieces[..|pieces| - 1][i] == pieces[i];
      if last == [] then init else init + [last]
  }

  /** One line as it enters the statement text: an empty line becomes the
      separator, any other line goes through the pre-pass. */
  function PreparedLine(line: string, rw: Rewriters): string {
    if line == "" then StatementSeparator else rw.prePass(line)
  }

  /** The statements: the prepared lines are joined, cut at the separators,
      and the empty pieces dropped. */
  function ValueSegments(lines: seq<string>, rw: Rewriters): seq<string> {
    var mapped := seq(|lines|, i requires 0 <= i < |lines| => PreparedLine(lines[i], rw));
    DropEmpty(Split(Flatten(mapped), StatementSeparator))
  }

  /** The decoder applied to each statement. */
  function Decoder(rw: Rewriters): string -> Outcome<Expression> {
    s => ParseValue(s, rw)
  }

  /** `ParseToValue`: the decoded statements that have the shape
      `lhs = rhs`, `undefined` when there are none; an exception of
      `_parseValue` ends the walk. */
  function ValuesOf(lines: seq<string>, rw: Rewriters): Outcome<Option<seq<Expression>>> {
    match TryMap(ValueSegments(lines, rw), ExpressionMatcher.IsExpression, Decoder(rw))
    case Thrown(m) => Thrown(m)
    case Ok(exprs) => Ok(if exprs == [] then None else Some(exprs))
  }

  method ParseToValue(lines: seq<string>, rw: Rewriters) returns (r: Outcome<Option<seq<Expression>>>)
    ensures r == ValuesOf(lines, rw)
  {
    var segments := ValueSegments(lines, rw);
    var res: seq<Expression> := [];
    var i := 0;
    while i < |segments|
      invariant 0 <= i <= |segments|
      invariant TryMap(segments[..i], ExpressionMatcher.IsExpression, Decoder(rw)) == Ok(res)
    {
      TryMapStep(segments, i, ExpressionMatcher.IsExpression, Decoder(rw), res);
      if ExpressionMatcher.IsExpression(segments[i]) {
        var e := Decoder(rw)(segments[i]);
        if e.Thrown? {
          return Thrown(e.message);
        }
        res := res + [e.value];
      }
      i := i + 1;
    }
    assert segments[..|segments|] == segments;
    r := Ok(if res == [] then None else Some(res));
  }

  /** `undefined` comes back exactly when no statement has the shape
      `lhs = rhs`. */
  lemma {:induction false} ValuesOfNone(lines: seq<string>, rw: Rewriters)
    ensures var segs := ValueSegments(lines, rw);
      ValuesOf(lines, rw) == Ok(None) <==> forall i :: 0 <= i < |segs| ==> !ExpressionMatcher.IsExpression(segs[i])
  {
    var segs := ValueSegments(lines, rw);
    TryMapEmpty(segs, ExpressionMatcher.IsExpression, Decoder(rw));
  }
}
