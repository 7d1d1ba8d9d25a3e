/** The line recognisers of the wrapper's `ExpressionMatcher`
    (bin/GDBWrapper/out/GDBTextParser.js). Each regular expression becomes a
    function that either recognises a console line and returns what the
    expression's groups capture, or returns `None`; each `ParseTo*` loop
    becomes a method that keeps the recognised lines, in order. */
module ExpressionMatcher {
  import opened JsText
  import opened Seqs
  import opened GdbProtocol

  // ---------------------------------------------------------------------------
  // `file_No_Symbol`

  const NoSymbolsText: string := "no debugging symbols found"

  /** `/No debugging symbols found/i`: the phrase occurs in any letter case. */
  predicate MentionsNoSymbols(line: string) {
    Contains(LowerAsciiString(line), NoSymbolsText)
  }

  method IsFileNoSymbol(lines: seq<string>) returns (found: bool)
    ensures found <==> exists i :: 0 <= i < |lines| && MentionsNoSymbols(lines[i])
  {
    var i := 0;
    while i < |lines|
      invariant 0 <= i <= |lines|
      invariant forall j :: 0 <= j < i ==> !MentionsNoSymbols(lines[j])
    {
      if MentionsNoSymbols(lines[i]) {
        return true;
      }
      i := i + 1;
    }
    return false;
  }

  // ---------------------------------------------------------------------------
  // `is_expression`

  /** `^.+\s*=\s*.+$`: some `=` has at least one character on each side. */
  predicate IsExpression(s: string) {
    exists k :: 1 <= k < |s| - 1 && s[k] == '='
  }

  // ---------------------------------------------------------------------------
  // `breakpoint_Set`: `Breakpoint N at 0xADDR: file PATH, line L.`

  /** `ADDR: file ` with ADDR lower-case hexadecimal: the text after it. */
  function AddressHead(c: string): (r: Option<string>)
    ensures r.Some? ==> |r.value| < |c|
  {
    var h := Span(c, IsLowerHexDigit);
    var d := c[h..];
    if h == 0 || !StartsWith(d, ": file ") then None else Some(d[7..])
  }

  /** `N at 0xADDR: file ` after `Breakpoint `: the breakpoint number and the
      text after the header. */
  function BreakpointHead(a: string): (r: Option<(nat, string)>)
    ensures r.Some? ==> |r.value.1| < |a|
  {
    var n := Span(a, IsDigit);
    var b := a[n..];
    if n == 0 || !StartsWith(b, " at 0x") then None
    else
      match AddressHead(b[6..])
      case None => None
      case Some(rest) => Some((RadixValue(a[..n], 10), rest))
  }

  /** `PATH, line L` and one more character: the path and the line. The path
      ends at the `, line ` that precedes the final digits. */
  function BreakpointTail(e: string): (r: Option<(string, nat)>)
    ensures r.Some? ==> r.value.0 != []
  {
    if e == [] then None
    else
      var body := e[..|e| - 1];
      var dl := SpanBack(body, IsDigit);
      var front := body[..|body| - dl];
      if dl == 0 || |front| < 8 || !EndsWith(front, ", line ") then None
      else Some((front[..|front| - 7], RadixValue(body[|front|..], 10)))
  }

  /** The breakpoint that a `Breakpoint N at 0xADDR: file PATH, line L.` line
      reports; any one character may stand for the final dot. */
  function ParseBreakpointLine(s: string): (r: Option<BaseBreakPoint>)
    ensures r.Some? ==> r.value.verified && r.value.id.Some? && r.value.lineNum.Some?
    ensures r.Some? ==> StartsWith(s, "Breakpoint ")
  {
    if !StartsWith(s, "Breakpoint ") then None
    else
      match BreakpointHead(s[11..])
      case None => None
      case Some(head) =>
        match BreakpointTail(head.1)
        case None => None
        case Some(tail) =>
          Some(BaseBreakPoint(Trim(tail.0), true, Some(head.0), Some(tail.1), false, None))
  }

  /** The text gdb prints after setting a breakpoint. */
  function BreakpointLine(id: nat, addr: string, file: string, line: nat): string {
    "Breakpoint " + NatToString(id) + " at 0x" + addr + ": file " + file + ", line " + NatToString(line) + "."
  }

  lemma {:induction false} AddressHeadOf(addr: string, rest: string)
    requires addr != [] && forall i :: 0 <= i < |addr| ==> IsLowerHexDigit(addr[i])
    ensures AddressHead(addr + ": file " + rest) == Some(rest)
  {
    var d := ": file " + rest;
    assert addr + ": file " + rest == addr + d;
    SpanOfConcat(addr, d, IsLowerHexDigit);
    assert (addr + d)[|addr|..] == d;
    assert d[..7] == ": file ";
    assert d[7..] == rest;
  }

  lemma {:induction false} DigitsHeadOf(ids: string, b: string)
    requires ids != [] && AllDigits(ids)
    requires StartsWith(b, " at 0x") && AddressHead(b[6..]).Some?
    ensures BreakpointHead(ids + b) == Some((RadixValue(ids, 10), AddressHead(b[6..]).value))
  {
    assert b[0] == ' ';
    SpanOfConcat(ids, b, IsDigit);
    assert (ids + b)[..|ids|] == ids;
    assert (ids + b)[|ids|..] == b;
  }

  lemma {:induction false} BreakpointHeadOf(id: nat, addr: string, rest: string)
    requires addr != [] && forall i :: 0 <= i < |addr| ==> IsLowerHexDigit(addr[i])
    ensures BreakpointHead(NatToString(id) + " at 0x" + addr + ": file " + rest) == Some((id, rest))
  {
    var c := addr + ": file " + rest;
    var b := " at 0x" + c;
    assert NatToString(id) + " at 0x" + addr + ": file " + rest == NatToString(id) + b;
    assert b[..6] == " at 0x" && b[6..] == c;
    AddressHeadOf(addr, rest);
    DigitsHeadOf(NatToString(id), b);
    NatToStringValue(id);
  }

  lemma {:induction false} BreakpointTailOf(file: string, line: nat, last: char)
    requires file != []
    ensures BreakpointTail(file + ", line " + NatToString(line) + [last]) == Some((file, line))
  {
    var lines := NatToString(line);
    var e := file + ", line " + lines + [last];
    var body := file + ", line " + lines;
    assert e[..|e| - 1] == body;
    SpanBackOfConcat(file + ", line ", lines, IsDigit);
    assert body[..|body| - |lines|] == file + ", line ";
    assert body[|body| - |lines|..] == lines;
    assert (file + ", line ")[..|file|] == file;
    NatToStringValue(line);
  }

  lemma {:induction false} PrefixedBreakpoint(a: string)
    requires BreakpointHead(a).Some? && BreakpointTail(BreakpointHead(a).value.1).Some?
    ensures ParseBreakpointLine("Breakpoint " + a)
         == Some(BaseBreakPoint(Trim(BreakpointTail(BreakpointHead(a).value.1).value.0), true,
                                Some(BreakpointHead(a).value.0),
                                Some(BreakpointTail(BreakpointHead(a).value.1).value.1), false, None))
  {
    assert ("Breakpoint " + a)[..11] == "Breakpoint ";
    assert ("Breakpoint " + a)[11..] == a;
  }

  /** A line in gdb's format gives back the number, file and line it reports. */
  lemma {:induction false} BreakpointLineRoundTrip(id: nat, addr: string, file: string, line: nat)
    requires addr != [] && forall i :: 0 <= i < |addr| ==> IsLowerHexDigit(addr[i])
    requires file != [] && !IsSpace(file[0]) && !IsSpace(file[|file| - 1])
    ensures ParseBreakpointLine(BreakpointLine(id, addr, file, line))
         == Some(BaseBreakPoint(file, true, Some(id), Some(line), false, None))
  {
    var rest := file + ", line " + NatToString(line) + ".";
    var a := NatToString(id) + " at 0x" + addr + ": file " + rest;
    assert BreakpointLine(id, addr, file, line) == "Breakpoint " + a;
    BreakpointHeadOf(id, addr, rest);
    BreakpointTailOf(file, line, '.');
    PrefixedBreakpoint(a);
    TrimOfTrimmed(file);
  }

  // ---------------------------------------------------------------------------
  // `Memory_Value`: `ADDR: VALUE ...`

  predicate IsMemoryChar(c: char) { IsHexDigit(c) || c == 'x' || c == 'X' }

  /** The `:` at `p` has a run of address characters before it and a run of
      value characters after it, separated from it by white space only. */
  predicate MemoryColonAt(s: string, p: nat) {
    p < |s| && s[p] == ':'
    && (var before := TrimRight(s[..p]); before != [] && IsMemoryChar(before[|before| - 1]))
    && (var after := TrimLeft(s[p + 1..]); after != [] && IsMemoryChar(after[0]))
  }

  /** Where a colon with an address before it and a value after it sits. */
  function MemoryColons(s: string): nat -> bool {
    (q: nat) => MemoryColonAt(s, q)
  }

  function FirstMemoryColon(s: string, from: nat): (r: Option<nat>)
    ensures r.Some? ==> from <= r.value && MemoryColonAt(s, r.value)
    ensures r.Some? ==> forall q :: from <= q < r.value ==> !MemoryColonAt(s, q)
    ensures r.None? ==> forall q :: from <= q < |s| ==> !MemoryColonAt(s, q)
  {
    var r := FirstFrom(from, |s|, MemoryColons(s));
    assert forall q: nat :: MemoryColons(s)(q) == MemoryColonAt(s, q);
    r
  }

  /** The first value of an `x/1xw` dump line: the run of hexadecimal
      characters after the first colon that has an address before it. */
  function ParseMemoryLine(s: string): (r: Option<Expression>)
    ensures r.Some? ==> r.value.name == "result" && r.value.dataType == Integer && r.value.val != []
    ensures r.Some? ==> forall i :: 0 <= i < |r.value.val| ==> IsMemoryChar(r.value.val[i])
    ensures r.None? <==> forall q :: 0 <= q < |s| ==> !MemoryColonAt(s, q)
    ensures r.Some? ==>
      exists p: nat :: MemoryColonAt(s, p) && (forall q :: 0 <= q < p ==> !MemoryColonAt(s, q))
        && r.value.val == MemoryValueAfter(s, p)
  {
    match FirstMemoryColon(s, 0)
    case None => None
    case Some(p) => Some(Expression("result", Integer, MemoryValueAfter(s, p)))
  }

  /** The run of hexadecimal characters after the colon, past white space. */
  function MemoryValueAfter(s: string, p: nat): (v: string)
    requires MemoryColonAt(s, p)
    ensures v != [] && forall i :: 0 <= i < |v| ==> IsMemoryChar(v[i])
  {
    var after := TrimLeft(s[p + 1..]);
    after[..Span(after, IsMemoryChar)]
  }

  /** The first colon with an address before it gives the line's value. */
  lemma {:induction false} MemoryLineAt(s: string, p: nat)
    requires MemoryColonAt(s, p) && forall q :: 0 <= q < p ==> !MemoryColonAt(s, q)
    ensures ParseMemoryLine(s) == Some(Expression("result", Integer, MemoryValueAfter(s, p)))
  {
    var f := FirstMemoryColon(s, 0);
    assert f.Some? && f.value == p;
  }

  /** Where the pieces of a dump line in gdb's layout sit in it. */
  lemma {:induction false} MemoryLineLayout(addr: string, value: string, rest: string)
    requires addr != [] && forall i :: 0 <= i < |addr| ==> IsMemoryChar(addr[i])
    requires value != [] && forall i :: 0 <= i < |value| ==> IsMemoryChar(value[i])
    requires rest == [] || !IsMemoryChar(rest[0])
    ensures var s := addr + ":\t" + value + rest;
      && MemoryColonAt(s, |addr|) && (forall q :: 0 <= q < |addr| ==> !MemoryColonAt(s, q))
      && MemoryValueAfter(s, |addr|) == value
  {
    var s := addr + ":\t" + value + rest;
    var p := |addr|;
    var vr := value + rest;
    assert s[..p] == addr;
    assert s[p] == ':';
    assert s[p + 1..] == "\t" + vr;
    MemoryColonOf(s, p, vr);
    SpanOfConcat(value, rest, IsMemoryChar);
    assert vr[..|value|] == value;
    NoMemoryColonBefore(s, addr);
  }

  /** A colon followed by a tab and a value, with an address before it. */
  lemma {:induction false} MemoryColonOf(s: string, p: nat, vr: string)
    requires p < |s| && s[p] == ':' && s[p + 1..] == "\t" + vr
    requires p != 0 && IsMemoryChar(s[p - 1]) && vr != [] && IsMemoryChar(vr[0])
    ensures MemoryColonAt(s, p) && TrimLeft(s[p + 1..]) == vr
  {
    assert ("\t" + vr)[1..] == vr;
    TrimLeftNoSpace(vr);
    assert s[..p][p - 1] == s[p - 1];
  }

  /** No colon sits inside a run of address characters. */
  lemma {:induction false} NoMemoryColonBefore(s: string, addr: string)
    requires |addr| <= |s| && s[..|addr|] == addr
    requires forall i :: 0 <= i < |addr| ==> IsMemoryChar(addr[i])
    ensures forall q :: 0 <= q < |addr| ==> !MemoryColonAt(s, q)
  {
    forall q | 0 <= q < |addr|
      ensures !MemoryColonAt(s, q)
    {
      assert s[q] == addr[q];
    }
  }

  /** A dump line in gdb's layout, `ADDR:<tab>VALUE` and whatever follows the
      value, gives back that value. */
  lemma {:induction false} MemoryLineRoundTrip(addr: string, value: string, rest: string)
    requires addr != [] && forall i :: 0 <= i < |addr| ==> IsMemoryChar(addr[i])
    requires value != [] && forall i :: 0 <= i < |value| ==> IsMemoryChar(value[i])
    requires rest == [] || !IsMemoryChar(rest[0])
    ensures ParseMemoryLine(addr + ":\t" + value + rest) == Some(Expression("result", Integer, value))
  {
    MemoryLineLayout(addr, value, rest);
    MemoryLineAt(addr + ":\t" + value + rest, |addr|);
  }

  // ---------------------------------------------------------------------------
  // `Value_Registers`: `NAME  0xDIGITS ...`

  /** `s` splits at `w` and `v` into a word, white space, and `0x` followed by
      a decimal digit. */
  predicate RegisterSplit(s: string, w: nat, v: nat) {
    1 <= w < v && v + 3 <= |s|
    && (forall i :: 0 <= i < w ==> IsWordChar(s[i]))
    && (forall i :: w <= i < v ==> IsSpace(s[i]))
    && s[v] == '0' && s[v + 1] == 'x' && IsDigit(s[v + 2])
  }

  /** A split is where the word and the white space after it end. */
  lemma {:induction false} RegisterSplitSpans(s: string)
    ensures forall w: nat, v: nat :: RegisterSplit(s, w, v) ==>
      Span(s, IsWordChar) == w && Span(s[w..], IsSpace) == v - w
  {
    forall w: nat, v: nat | RegisterSplit(s, w, v)
      ensures Span(s, IsWordChar) == w && Span(s[w..], IsSpace) == v - w
    {
      RegisterSplitSpan(s, w, v);
    }
  }

  lemma {:induction false} RegisterSplitSpan(s: string, w: nat, v: nat)
    requires RegisterSplit(s, w, v)
    ensures Span(s, IsWordChar) == w && Span(s[w..], IsSpace) == v - w
  {
    SpanIs(s, w, IsWordChar);
    var y := s[w..];
    assert forall i :: 0 <= i < v - w ==> y[i] == s[w + i];
    assert y[v - w] == '0';
    SpanIs(y, v - w, IsSpace);
  }

  /** The word and the white space after it, followed by `0x` and a digit,
      are a split. */
  lemma {:induction false} SpansRegisterSplit(s: string, w: nat, v: nat)
    requires w == Span(s, IsWordChar) && v == w + Span(s[w..], IsSpace)
    requires w != 0 && v != w && v + 3 <= |s| && s[v] == '0' && s[v + 1] == 'x' && IsDigit(s[v + 2])
    ensures RegisterSplit(s, w, v)
  {
    SpanFrom(s, w, IsSpace);
  }

  /** The word before `w` and `0x` with the `d` digits after it at `v`. */
  lemma {:induction false} RegisterValueDigits(s: string, w: nat, v: nat, d: nat)
    requires 0 < w <= v && v + 2 + d <= |s| && s[v] == '0' && s[v + 1] == 'x'
    requires d == Span(s[v + 2..], IsDigit) && d != 0
    ensures var e := Expression(s[..w], Integer, s[v..v + 2 + d]);
      && e.dataType == Integer && e.name != [] && StartsWith(s, e.name)
      && StartsWith(e.val, "0x") && |e.val| >= 3 && AllDigits(e.val[2..])
  {
    assert s[v..v + 2 + d][..2] == "0x";
    assert s[v..v + 2 + d][2..] == s[v + 2..][..d];
  }

  /** A register line: a word, white space, then `0x` and decimal digits; the
      value stops at the first character that is not a decimal digit. */
  function ParseRegisterLine(s: string): (r: Option<Expression>)
    ensures r.Some? ==> r.value.dataType == Integer && r.value.name != [] && StartsWith(s, r.value.name)
    ensures r.Some? ==> StartsWith(r.value.val, "0x") && |r.value.val| >= 3 && AllDigits(r.value.val[2..])
  {
    var w := Span(s, IsWordChar);
    var v := w + Span(s[w..], IsSpace);
    if w == 0 || v == w || |s| < v + 3 || s[v] != '0' || s[v + 1] != 'x' then None
    else
      var d := Span(s[v + 2..], IsDigit);
      if d == 0 then None
      else
        RegisterValueDigits(s, w, v, d);
        Some(Expression(s[..w], Integer, s[v..v + 2 + d]))
  }

  /** A line is a register line exactly when it splits into a word, white
      space and `0x` with a digit. */
  lemma {:induction false} RegisterLineSplits(s: string)
    ensures ParseRegisterLine(s).Some? <==> exists w: nat, v: nat :: RegisterSplit(s, w, v)
  {
    var w := Span(s, IsWordChar);
    var v := w + Span(s[w..], IsSpace);
    if ParseRegisterLine(s).Some? {
      SpansRegisterSplit(s, w, v);
    } else {
      RegisterSplitSpans(s);
    }
  }

  /** Wherever a line splits into a word, white space and `0x` with a digit,
      the register is that word and its value is `0x` and the digits. */
  lemma {:induction false} RegisterLineOfSplit(s: string, w: nat, v: nat)
    requires RegisterSplit(s, w, v)
    ensures ParseRegisterLine(s) == Some(Expression(s[..w], Integer, s[v..v + 2 + Span(s[v + 2..], IsDigit)]))
  {
    RegisterSplitSpans(s);
    assert s[v..v + 2] == "0x";
  }

  /** The same, with the register's name and value given. */
  lemma {:induction false} RegisterLineIs(s: string, w: nat, v: nat, d: nat, name: string, val: string)
    requires RegisterSplit(s, w, v) && Span(s[v + 2..], IsDigit) == d
    requires s[..w] == name && v + 2 + d <= |s| && s[v..v + 2 + d] == val
    ensures ParseRegisterLine(s) == Some(Expression(name, Integer, val))
  {
    RegisterLineOfSplit(s, w, v);
  }

  lemma {:induction false} RegisterSplitOf(name: string, spaces: string, tail: string)
    requires name != [] && forall i :: 0 <= i < |name| ==> IsWordChar(name[i])
    requires spaces != [] && forall i :: 0 <= i < |spaces| ==> IsSpace(spaces[i])
    requires |tail| >= 3 && tail[0] == '0' && tail[1] == 'x' && IsDigit(tail[2])
    ensures RegisterSplit(name + spaces + tail, |name|, |name| + |spaces|)
  {
    var s := name + spaces + tail;
    assert forall i :: 0 <= i < |name| ==> s[i] == name[i];
    assert forall i :: |name| <= i < |name| + |spaces| ==> s[i] == spaces[i - |name|];
  }

  /** Where the pieces of a register line in gdb's layout sit in it. */
  lemma {:induction false} RegisterLineLayout(name: string, spaces: string, digits: string, rest: string)
    requires name != [] && forall i :: 0 <= i < |name| ==> IsWordChar(name[i])
    requires spaces != [] && forall i :: 0 <= i < |spaces| ==> IsSpace(spaces[i])
    requires digits != [] && AllDigits(digits)
    requires rest == [] || !IsDigit(rest[0])
    ensures var s := name + spaces + "0x" + digits + rest; var v := |name| + |spaces|;
      && RegisterSplit(s, |name|, v) && s[..|name|] == name
      && Span(s[v + 2..], IsDigit) == |digits| && v + 2 + |digits| <= |s| && s[v..v + 2 + |digits|] == "0x" + digits
  {
    var s := name + spaces + "0x" + digits + rest;
    var v := |name| + |spaces|;
    assert s[v + 2..] == digits + rest;
    RegisterSplitOf(name, spaces, "0x" + digits + rest);
    assert s == name + spaces + ("0x" + digits + rest);
    SpanOfConcat(digits, rest, IsDigit);
    assert s[..|name|] == name;
    assert s[v..v + 2 + |digits|] == "0x" + digits;
  }

  /** A register line in gdb's layout gives back the register's name and its
      `0x` value up to the first character that is not a decimal digit. */
  lemma {:induction false} RegisterLineRoundTrip(name: string, spaces: string, digits: string, rest: string)
    requires name != [] && forall i :: 0 <= i < |name| ==> IsWordChar(name[i])
    requires spaces != [] && forall i :: 0 <= i < |spaces| ==> IsSpace(spaces[i])
    requires digits != [] && AllDigits(digits)
    requires rest == [] || !IsDigit(rest[0])
    ensures ParseRegisterLine(name + spaces + "0x" + digits + rest) == Some(Expression(name, Integer, "0x" + digits))
  {
    var s := name + spaces + "0x" + digits + rest;
    var v := |name| + |spaces|;
    RegisterLineLayout(name, spaces, digits, rest);
    RegisterLineIs(s, |name|, v, |digits|, name, "0x" + digits);
  }

  // ---------------------------------------------------------------------------
  // `Variables_Define`: `TYPE ... NAME[N] ...;`

  /** The identifiers a line starts with (separated by white space), the last
      of them, and the text after it. */
  datatype IdentRun = IdentRun(count: nat, last: string, rest: string)

  function LeadingIdents(s: string): (r: IdentRun)
    ensures r.count > 0 ==> r.last != [] && IsIdentStart(r.last[0])
    ensures r.count > 0 ==> forall i :: 0 <= i < |r.last| ==> IsWordChar(r.last[i])
    decreases |s|
  {
    var u := TrimLeft(s);
    if u == [] || !IsIdentStart(u[0]) then IdentRun(0, "", s)
    else
      var word := IdentAt(u);
      var after := u[|word|..];
      if after != [] && IsSpace(after[0]) then
        var more := LeadingIdents(after);
        if more.count == 0 then IdentRun(1, word, after) else IdentRun(more.count + 1, more.last, more.rest)
      else IdentRun(1, word, after)
  }

  /** The identifier that opens `u`: the run of word characters. */
  function IdentAt(u: string): (w: string)
    requires u != [] && IsIdentStart(u[0])
    ensures w != [] && IsIdentStart(w[0]) && |w| <= |u| && w == u[..|w|]
    ensures forall i :: 0 <= i < |w| ==> IsWordChar(w[i])
    ensures |w| < |u| ==> !IsWordChar(u[|w|])
  {
    u[..Span(u, IsWordChar)]
  }

  /** `[` decimal digits `]` at the start of `s`. */
  predicate StartsWithIndex(s: string) {
    |s| >= 3 && s[0] == '[' && var d := Span(s[1..], IsDigit); d >= 1 && 1 + d < |s| && s[1 + d] == ']'
  }

  /** A declaration line of `info variables`: at least two identifiers, the
      last of which is the variable, and a `;` at the end; an index in
      brackets right after the name marks an array. */
  function ParseVariableLine(s: string): (r: Option<VariablesDefine>)
    ensures r.Some? ==> r.value.name != [] && IsIdentStart(r.value.name[0])
    ensures r.Some? ==> (var t := TrimRight(s); t != [] && t[|t| - 1] == ';')
    ensures r.None? <==> LeadingIdents(s).count < 2 || !EndsWith(TrimRight(s), ";")
    ensures r.Some? ==> r.value.name == LeadingIdents(s).last
    ensures r.Some? ==> (r.value.isArray <==> StartsWithIndex(TrimLeft(LeadingIdents(s).rest)))
  {
    var run := LeadingIdents(s);
    var t := TrimRight(s);
    EndsWithChar(t, ';');
    if run.count < 2 || t == [] || t[|t| - 1] != ';' then None
    else Some(VariablesDefine(run.last, StartsWithIndex(TrimLeft(run.rest))))
  }

  /** An identifier in the C sense. */
  predicate IsIdent(w: string) {
    w != [] && IsIdentStart(w[0]) && forall i :: 0 <= i < |w| ==> IsWordChar(w[i])
  }

  /** An identifier followed by a character that cannot continue it opens
      the text, and what follows it is that character on. */
  lemma {:induction false} IdentOpens(w: string, after: string)
    requires IsIdent(w)
    requires after == [] || !IsWordChar(after[0])
    ensures TrimLeft(w + after) == w + after
    ensures IdentAt(w + after) == w && (w + after)[|w|..] == after
  {
    TrimLeftNoSpace(w + after);
    SpanOfConcat(w, after, IsWordChar);
    assert (w + after)[..|w|] == w;
  }

  /** One space before an identifier changes nothing about the run. */
  lemma {:induction false} LeadingIdentsAfterSpace(more: string)
    requires more != [] && IsIdentStart(more[0])
    ensures LeadingIdents(" " + more) == LeadingIdents(more)
  {
    assert (" " + more)[1..] == more;
    TrimLeftNoSpace(more);
  }

  /** An identifier followed by text that starts with neither white space nor
      a word character is a run of one. */
  lemma {:induction false} LeadingIdentsOfOne(w: string, after: string)
    requires IsIdent(w)
    requires after == [] || (!IsSpace(after[0]) && !IsWordChar(after[0]))
    ensures LeadingIdents(w + after) == IdentRun(1, w, after)
  {
    IdentOpens(w, after);
  }

  /** An identifier, one space and a run of `n` identifiers make a run of
      `n + 1`. */
  lemma {:induction false} LeadingIdentsOfMore(w: string, more: string, n: nat, last: string, tail: string)
    requires IsIdent(w)
    requires more != [] && IsIdentStart(more[0])
    requires n != 0 && LeadingIdents(more) == IdentRun(n, last, tail)
    ensures LeadingIdents(w + (" " + more)) == IdentRun(n + 1, last, tail)
  {
    IdentOpens(w, " " + more);
    LeadingIdentsAfterSpace(more);
  }

  /** Joined words start with the first word's first character. */
  lemma {:induction false} JoinStart(words: seq<string>, sep: string, tail: string)
    requires words != [] && words[0] != []
    ensures Join(words, sep) + tail != [] && (Join(words, sep) + tail)[0] == words[0][0]
  {
  }

  /** Identifiers joined by single spaces, followed by text that starts with
      neither white space nor a word character, are read as a run whose last
      identifier is the last word and whose rest is that text. */
  lemma {:induction false} LeadingIdentsOfWords(words: seq<string>, tail: string)
    requires words != [] && forall k :: 0 <= k < |words| ==> IsIdent(words[k])
    requires tail == [] || (!IsSpace(tail[0]) && !IsWordChar(tail[0]))
    ensures LeadingIdents(Join(words, " ") + tail) == IdentRun(|words|, words[|words| - 1], tail)
    decreases |words|
  {
    var w := words[0];
    if |words| == 1 {
      assert Join(words, " ") + tail == w + tail;
      LeadingIdentsOfOne(w, tail);
    } else {
      var rest := words[1..];
      var more := Join(rest, " ") + tail;
      assert Join(words, " ") + tail == w + (" " + more);
      assert rest[0] == words[1] && rest[|rest| - 1] == words[|words| - 1];
      LeadingIdentsOfWords(rest, tail);
      JoinStart(rest, " ", tail);
      LeadingIdentsOfMore(w, more, |rest|, words[|words| - 1], tail);
    }
  }

  /** A declaration as `info variables` lists it: the type's words, the
      variable's name, an optional array length in brackets, and `;`. */
  function Declaration(types: seq<string>, name: string, length: Option<nat>): string {
    Join(types + [name], " ") + DeclarationTail(length)
  }

  /** A declaration gives back the variable's name, and marks it as an array
      exactly when a length follows the name. */
  lemma {:induction false} DeclarationRoundTrip(types: seq<string>, name: string, length: Option<nat>)
    requires types != [] && forall k :: 0 <= k < |types| ==> IsIdent(types[k])
    requires IsIdent(name)
    ensures ParseVariableLine(Declaration(types, name, length)) == Some(VariablesDefine(name, length.Some?))
  {
    var words := types + [name];
    var tail := DeclarationTail(length);
    var s := Declaration(types, name, length);
    assert s == Join(words, " ") + tail;
    DeclarationTailStarts(length);
    LeadingIdentsOfWords(words, tail);
    assert s[|s| - 1] == ';';
    VariableLineIs(s, |words|, name, tail, length.Some?);
  }

  /** What follows the name in a declaration. */
  function DeclarationTail(length: Option<nat>): string {
    (if length.Some? then "[" + NatToString(length.value) + "]" else "") + ";"
  }

  /** The text after a declared name opens with an index exactly when the
      declaration gives a length. */
  lemma {:induction false} DeclarationTailStarts(length: Option<nat>)
    ensures var tail := DeclarationTail(length);
      && tail != [] && !IsSpace(tail[0]) && !IsWordChar(tail[0])
      && TrimLeft(tail) == tail && (StartsWithIndex(tail) <==> length.Some?)
  {
    var tail := DeclarationTail(length);
    TrimLeftNoSpace(tail);
    if length.Some? {
      var digits := NatToString(length.value);
      assert tail[1..] == digits + "];";
      SpanOfConcat(digits, "];", IsDigit);
      assert StartsWithIndex(tail);
    } else {
      assert !StartsWithIndex(tail);
    }
  }

  /** A line that starts with a run of at least two identifiers and ends in
      `;` declares the run's last identifier. */
  lemma {:induction false} VariableLineIs(s: string, n: nat, name: string, tail: string, isArray: bool)
    requires n >= 2 && LeadingIdents(s) == IdentRun(n, name, tail)
    requires s != [] && s[|s| - 1] == ';'
    requires StartsWithIndex(TrimLeft(tail)) == isArray
    ensures ParseVariableLine(s) == Some(VariablesDefine(name, isArray))
  {
    assert TrimRight(s) == s;
  }

  // ---------------------------------------------------------------------------
  // `Call_Stack`: `#N  [0xADDR in] FUNC (...) at FILE:LINE`

  /** The last `at ` that ends at or before `c`. */
  function LastAtBefore(s: string, c: nat): (r: Option<nat>)
    requires c <= |s|
    ensures r.Some? ==> r.value + 3 <= c && OccursAt(s, "at ", r.value)
    ensures r.Some? ==> forall j: nat :: r.value < j && j + 3 <= c ==> !OccursAt(s, "at ", j)
    ensures r.None? ==> forall j: nat :: j + 3 <= c ==> !OccursAt(s, "at ", j)
    decreases c
  {
    if c < 3 then None
    else if s[c - 3..c] == "at " then Some(c - 3)
    else LastAtBefore(s, c - 1)
  }

  /** The function name starting at `p`: the word there, cut short so that it
      ends at or before the `at ` at `j`. */
  function FuncAt(s: string, p: nat, j: nat): (r: Option<string>)
    requires p <= |s|
    ensures r.Some? ==> r.value != [] && p + |r.value| <= j && p + |r.value| <= |s| && r.value == s[p..p + |r.value|]
  {
    var w := Span(s[p..], IsWordChar);
    if w == 0 || j < p + 1 then None
    else Some(s[p..p + (if w < j - p then w else j - p)])
  }

  /** `0x`, digits, optional white space and `in` at `p`: the address and
      where the text after `in` and its white space starts. */
  function AddressAt(s: string, p: nat, isAddrDigit: char -> bool): (r: Option<(string, nat)>)
    requires p <= |s|
    ensures r.Some? ==> p < r.value.1 <= |s|
  {
    var t := s[p..];
    if !StartsWith(t, "0x") then None
    else
      var d := Span(t[2..], isAddrDigit);
      var ws := Span(t[2 + d..], IsSpace);
      var afterIn := 2 + d + ws + 2;
      if d == 0 || afterIn > |t| || t[2 + d + ws..afterIn] != "in" then None
      else Some((t[..2 + d], p + afterIn + Span(t[afterIn..], IsSpace)))
  }

  /** `#N` and white space: the frame number's digit count and where the
      text after the white space starts. */
  function StackHead(s: string): (r: Option<(nat, nat)>)
    ensures r.Some? ==> 1 <= r.value.0 && 1 + r.value.0 < r.value.1 <= |s|
  {
    if s == [] || s[0] != '#' then None
    else
      var n := Span(s[1..], IsDigit);
      var ws := Span(s[1 + n..], IsSpace);
      if n == 0 || ws == 0 then None else Some((n, 1 + n + ws))
  }

  /** `:LINE` at the end, optionally followed by white space: where the colon
      is and where the line number ends. */
  function StackLineNumber(s: string, trailingSpace: bool): (r: Option<(nat, nat)>)
    ensures r.Some? ==> r.value.0 < r.value.1 <= |s| && s[r.value.0] == ':'
    ensures r.Some? ==> AllDigits(s[r.value.0 + 1..r.value.1])
  {
    var t := if trailingSpace then |TrimRight(s)| else |s|;
    var dl := SpanBack(s[..t], IsDigit);
    if dl == 0 || t - dl < 1 || s[t - dl - 1] != ':' then None
    else Some((t - dl - 1, t))
  }

  /** The address and function name, given where the text after `#N` starts
      and where the `at ` before the file is. */
  function StackFunction(s: string, p1: nat, j: nat, isAddrDigit: char -> bool): (r: Option<(string, string)>)
    requires p1 <= |s|
    ensures r.Some? ==> r.value.1 != []
  {
    var withAddr :=
      match AddressAt(s, p1, isAddrDigit)
      case None => None
      case Some(ap) => if FuncAt(s, ap.1, j).Some? then Some((ap.0, FuncAt(s, ap.1, j).value)) else None;
    if withAddr.Some? then withAddr
    else if FuncAt(s, p1, j).Some? then Some(("0x00000000", FuncAt(s, p1, j).value))
    else None
  }

  /** A frame line of `info stack`. The frame number is the digits after `#`;
      an address is tried first and, when the rest does not fit, the text is
      read as the function name instead; the file runs from the last `at ` to
      the colon before the final line number. `trailingSpace` says whether
      white space may follow the line number. */
  function ParseStackLineWith(s: string, trailingSpace: bool, isAddrDigit: char -> bool): (r: Option<GDBFrame>)
    ensures r.Some? ==> r.value.id.Some? && r.value.line.Some? && r.value.file.Some? && r.value.args == []
    ensures r.Some? ==> r.value.func != [] && AllDigits(r.value.line.value) && r.value.line.value != []
    ensures r.Some? ==> |s| >= 2 && s[0] == '#' && r.value.id == Some(RadixValue(s[1..1 + Span(s[1..], IsDigit)], 10))
    ensures r.None? <==>
      || StackHead(s).None?
      || StackLineNumber(s, trailingSpace).None?
      || LastAtBefore(s, StackLineNumber(s, trailingSpace).value.0).None?
      || StackFunction(s, StackHead(s).value.1, LastAtBefore(s, StackLineNumber(s, trailingSpace).value.0).value,
                       isAddrDigit).None?
  {
    match StackHead(s)
    case None => None
    case Some(head) =>
      match StackLineNumber(s, trailingSpace)
      case None => None
      case Some(ln) =>
        match LastAtBefore(s, ln.0)
        case None => None
        case Some(j) =>
          match StackFunction(s, head.1, j, isAddrDigit)
          case None => None
          case Some(af) => Some(FrameOf(s, head.0, ln.0, ln.1, j, af))
  }

  /** The frame made of the pieces of a recognised line: the number after
      `#`, the address and function, the trimmed text between the `at ` at
      `j` and the colon at `c`, and the digits after the colon up to `e`. */
  function FrameOf(s: string, n: nat, c: nat, e: nat, j: nat, af: (string, string)): (f: GDBFrame)
    requires 1 + n <= |s| && j + 3 <= c < e <= |s|
    ensures f.addr == af.0 && f.func == af.1 && f.args == []
    ensures f.file == Some(Trim(s[j + 3..c])) && f.id == Some(RadixValue(s[1..1 + n], 10)) && f.line == Some(s[c + 1..e])
  {
    GDBFrame(af.0, af.1, [], Some(Trim(s[j + 3..c])), Some(RadixValue(s[1..1 + n], 10)), Some(s[c + 1..e]))
  }

  /** What gdb prints before the function name when the frame has an
      address. */
  function FramePrefix(addr: Option<string>): string {
    if addr.Some? then "0x" + addr.value + " in " else ""
  }

  /** A frame line as `info stack` prints it. */
  function FrameLine(id: nat, addr: Option<string>, func: string, file: string, line: nat): string {
    "#" + NatToString(id) + "  " + FramePrefix(addr) + func + " () at " + file + ":" + NatToString(line)
  }

  lemma {:induction false} StackHeadOf(ids: string, body: string)
    requires ids != [] && AllDigits(ids)
    requires body != [] && !IsSpace(body[0])
    ensures StackHead("#" + ids + "  " + body) == Some((|ids|, |ids| + 3))
  {
    var s := "#" + ids + "  " + body;
    assert s[1..] == ids + ("  " + body);
    SpanOfConcat(ids, "  " + body, IsDigit);
    assert s[1 + |ids|..] == "  " + body;
    SpanOfConcat("  ", body, IsSpace);
  }

  lemma {:induction false} StackLineNumberOf(x: string, lns: string, trailingSpace: bool, c: nat)
    requires x != [] && c + 1 == |x| && x[c] == ':'
    requires lns != [] && AllDigits(lns)
    ensures StackLineNumber(x + lns, trailingSpace) == Some((c, |x + lns|))
  {
    var s := x + lns;
    assert TrimRight(s) == s;
    assert s[..|s|] == s;
    SpanBackOfConcat(x, lns, IsDigit);
    assert s[|s| - |lns| - 1] == ':';
  }

  /** An `at ` with no other one after it before `c` is the last one. */
  lemma {:induction false} LastAtBeforeIs(s: string, c: nat, j: nat)
    requires c <= |s| && j + 3 <= c && OccursAt(s, "at ", j)
    requires forall k: nat :: j < k && k + 3 <= c ==> !OccursAt(s, "at ", k)
    ensures LastAtBefore(s, c) == Some(j)
  {
  }

  /** After `at ` and a file without `at ` in it, no `at ` starts before the
      file ends. */
  lemma {:induction false} NoAtInFile(s: string, j: nat, file: string)
    requires OccursAt(s, "at ", j) && j + 3 + |file| <= |s| && s[j + 3..j + 3 + |file|] == file
    requires forall k: nat :: !OccursAt(file, "at ", k)
    ensures forall k: nat :: j < k && k + 3 <= j + 3 + |file| ==> !OccursAt(s, "at ", k)
  {
    forall k: nat | j < k && k + 3 <= j + 3 + |file|
      ensures !OccursAt(s, "at ", k)
    {
      if k < j + 3 {
        NoAtRightAfterAt(s, j, k);
      } else {
        NoAtInside(s, j + 3, file, k);
      }
    }
  }

  /** No `at ` starts inside another one. */
  lemma {:induction false} NoAtRightAfterAt(s: string, j: nat, k: nat)
    requires OccursAt(s, "at ", j) && j < k < j + 3
    ensures !OccursAt(s, "at ", k)
  {
    assert s[k] == s[j..j + 3][k - j];
  }

  /** An `at ` inside a copy of `file` in `s` would be one in `file`. */
  lemma {:induction false} NoAtInside(s: string, b: nat, file: string, k: nat)
    requires b + |file| <= |s| && s[b..b + |file|] == file
    requires b <= k && k + 3 <= b + |file|
    requires forall m: nat :: !OccursAt(file, "at ", m)
    ensures !OccursAt(s, "at ", k)
  {
    var m := k - b;
    assert !OccursAt(file, "at ", m);
    var x, y := s[k..k + 3], file[m..m + 3];
    forall i | 0 <= i < 3
      ensures x[i] == y[i]
    {
      assert s[k + i] == s[b..b + |file|][m + i];
    }
    assert x == y;
  }

  /** A word at `p` that ends at or before `j` is the function name there. */
  lemma {:induction false} FuncAtOf(s: string, p: nat, func: string, j: nat)
    requires IsIdent(func)
    requires p + |func| < |s| && s[p..p + |func|] == func && !IsWordChar(s[p + |func|])
    requires p + |func| <= j
    ensures FuncAt(s, p, j) == Some(func)
  {
    assert s[p..] == func + s[p + |func|..];
    SpanOfConcat(func, s[p + |func|..], IsWordChar);
  }

  lemma {:induction false} AddressAtOf(s: string, p: nat, addr: string, u: string, isAddrDigit: char -> bool)
    requires p <= |s| && s[p..] == "0x" + addr + " in " + u
    requires addr != [] && (forall i :: 0 <= i < |addr| ==> isAddrDigit(addr[i])) && !isAddrDigit(' ')
    requires u != [] && !IsSpace(u[0])
    ensures AddressAt(s, p, isAddrDigit).Some?
    ensures AddressAt(s, p, isAddrDigit).value.0 == "0x" + addr && AddressAt(s, p, isAddrDigit).value.1 == p + |addr| + 6
  {
    AddressTextSpans(s[p..], addr, u, isAddrDigit);
  }

  /** How `0x`, the address, ` in ` and what follows are measured. */
  lemma {:induction false} AddressTextSpans(t: string, addr: string, u: string, isAddrDigit: char -> bool)
    requires t == "0x" + addr + " in " + u
    requires addr != [] && (forall i :: 0 <= i < |addr| ==> isAddrDigit(addr[i])) && !isAddrDigit(' ')
    requires u != [] && !IsSpace(u[0])
    ensures var d := |addr|;
      && StartsWith(t, "0x") && Span(t[2..], isAddrDigit) == d && Span(t[2 + d..], IsSpace) == 1
      && 2 + d + 3 <= |t| && t[2 + d + 1..2 + d + 3] == "in" && Span(t[2 + d + 3..], IsSpace) == 1
      && t[..2 + d] == "0x" + addr
  {
    var d := |addr|;
    assert forall i :: 0 <= i < d ==> t[2 + i] == addr[i];
    assert t[2 + d] == ' ' && t[2 + d + 3] == ' ' && t[2 + d + 4] == u[0];
    var t2 := t[2..];
    assert forall i :: 0 <= i < d ==> t2[i] == addr[i];
    SpanIs(t2, d, isAddrDigit);
    var t3 := t[2 + d..];
    assert t3[0] == ' ' && t3[1] == 'i';
    SpanIs(t3, 1, IsSpace);
    var t4 := t[2 + d + 3..];
    assert t4[0] == ' ' && t4[1] == u[0];
    SpanIs(t4, 1, IsSpace);
    assert t[2 + d + 1..2 + d + 3] == "in";
    assert t[..2 + d] == "0x" + addr;
  }

  /** Text that does not start with `0` has no address. */
  lemma {:induction false} AddressAtNone(s: string, p: nat, isAddrDigit: char -> bool)
    requires p < |s| && s[p] != '0'
    ensures AddressAt(s, p, isAddrDigit).None?
  {
    assert s[p..][0] == s[p];
  }

  /** Without an address, the function is the word after the frame number. */
  lemma {:induction false} StackFunctionPlain(s: string, p1: nat, j: nat, func: string, isAddrDigit: char -> bool)
    requires p1 <= |s| && AddressAt(s, p1, isAddrDigit).None? && FuncAt(s, p1, j) == Some(func)
    ensures StackFunction(s, p1, j, isAddrDigit) == Some(("0x00000000", func))
  {
  }

  /** With an address, the function is the word after `in`. */
  lemma {:induction false} StackFunctionAddressed(s: string, p1: nat, j: nat, addr: string, p2: nat, func: string,
                               isAddrDigit: char -> bool)
    requires p1 <= p2 <= |s| && AddressAt(s, p1, isAddrDigit).Some?
    requires AddressAt(s, p1, isAddrDigit).value.0 == addr && AddressAt(s, p1, isAddrDigit).value.1 == p2
    requires FuncAt(s, p2, j) == Some(func)
    ensures StackFunction(s, p1, j, isAddrDigit) == Some((addr, func))
  {
  }

  /** A line whose pieces are recognised gives the frame they make up: the
      number after `#`, the address and function read after it, the trimmed
      text between the last `at ` and the colon, and the digits after the
      colon. */
  lemma {:induction false} ParseStackLineOf(s: string, trailingSpace: bool, isAddrDigit: char -> bool,
                         n: nat, p1: nat, c: nat, e: nat, j: nat, addr: string, func: string)
    requires StackHead(s) == Some((n, p1)) && p1 <= |s|
    requires StackLineNumber(s, trailingSpace) == Some((c, e))
    requires LastAtBefore(s, c) == Some(j)
    requires StackFunction(s, p1, j, isAddrDigit) == Some((addr, func))
    ensures 1 + n <= |s| && j + 3 <= c < e <= |s|
    ensures ParseStackLineWith(s, trailingSpace, isAddrDigit) == Some(FrameOf(s, n, c, e, j, (addr, func)))
  {
  }

  /** Where the pieces of a frame line sit in it, with its `at ` at `j` and
      its final colon at `c`. */
  lemma {:induction false} FrameLineLayout(s: string, ids: string, pre: string, func: string, u: string, file: string, lns: string,
                        j: nat, c: nat)
    requires u == " () at " + file + ":" + lns
    requires s == "#" + ids + "  " + pre + func + " () at " + file + ":" + lns
    requires j == |ids| + 3 + |pre| + |func| + 4 && c == j + 3 + |file|
    ensures s == "#" + ids + "  " + (pre + func + u)
    ensures s == ("#" + ids + "  " + pre + func + " () at " + file + ":") + lns
    ensures c < |s| && s[1..1 + |ids|] == ids && s[|ids| + 3..] == pre + func + u
    ensures OccursAt(s, "at ", j) && s[j + 3..c] == file && s[c + 1..|s|] == lns
  {
    var a := "#" + ids + "  " + pre + func + " () ";
    assert s == a + ("at " + (file + (":" + lns)));
    assert |a| == j;
    assert s == ("#" + ids + "  ") + (pre + func + u);
  }

  /** The function and address of a frame line, read after its `#N` and white
      space at `p1`, with its `at ` at `j`. */
  lemma {:induction false} FrameFunctionOf(s: string, p1: nat, j: nat, addr: Option<string>, func: string, u: string,
                        isAddrDigit: char -> bool)
    requires addr.Some? ==> addr.value != [] && (forall i :: 0 <= i < |addr.value| ==> isAddrDigit(addr.value[i])) && !isAddrDigit(' ')
    requires IsIdent(func) && u != [] && u[0] == ' '
    requires p1 <= |s| && s[p1..] == FramePrefix(addr) + func + u
    requires p1 + |FramePrefix(addr)| + |func| <= j
    ensures StackFunction(s, p1, j, isAddrDigit) == Some((if addr.Some? then "0x" + addr.value else "0x00000000", func))
  {
    FramePrefixJoin(addr, func, u);
    if addr.Some? {
      FrameFunctionAddressed(s, p1, j, addr.value, func, u, isAddrDigit);
    } else {
      FrameFunctionPlain(s, p1, j, func, u, isAddrDigit);
    }
  }

  /** The prefix of a frame line followed by its function and the rest. */
  lemma {:induction false} FramePrefixJoin(addr: Option<string>, func: string, u: string)
    ensures addr.Some? ==> FramePrefix(addr) + func + u == "0x" + addr.value + " in " + (func + u)
    ensures addr.None? ==> FramePrefix(addr) + func + u == func + u
  {
  }

  /** A word that the text at `p` continues with after `pre`. */
  lemma {:induction false} WordAfter(s: string, p: nat, pre: string, func: string, u: string)
    requires p <= |s| && s[p..] == pre + (func + u) && u != []
    ensures p + |pre| + |func| < |s|
    ensures s[p + |pre|..p + |pre| + |func|] == func && s[p + |pre| + |func|] == u[0]
  {
    var t := s[p..];
    assert t[|pre|..|pre| + |func|] == func;
    assert t[|pre| + |func|] == u[0];
  }

  /** `0x`, the address, ` in ` and the function name. */
  lemma {:induction false} FrameFunctionAddressed(s: string, p1: nat, j: nat, addr: string, func: string, u: string,
                               isAddrDigit: char -> bool)
    requires addr != [] && (forall i :: 0 <= i < |addr| ==> isAddrDigit(addr[i])) && !isAddrDigit(' ')
    requires IsIdent(func) && u != [] && u[0] == ' '
    requires p1 <= |s| && s[p1..] == "0x" + addr + " in " + (func + u)
    requires p1 + |addr| + 6 + |func| <= j
    ensures StackFunction(s, p1, j, isAddrDigit) == Some(("0x" + addr, func))
  {
    var p2 := p1 + |addr| + 6;
    assert s[p1..] == ("0x" + addr + " in ") + (func + u);
    WordAfter(s, p1, "0x" + addr + " in ", func, u);
    FuncAtOf(s, p2, func, j);
    AddressAtOf(s, p1, addr, func + u, isAddrDigit);
    StackFunctionAddressed(s, p1, j, "0x" + addr, p2, func, isAddrDigit);
  }

  /** The function name alone. */
  lemma {:induction false} FrameFunctionPlain(s: string, p1: nat, j: nat, func: string, u: string, isAddrDigit: char -> bool)
    requires IsIdent(func) && u != [] && u[0] == ' '
    requires p1 <= |s| && s[p1..] == func + u
    requires p1 + |func| <= j
    ensures StackFunction(s, p1, j, isAddrDigit) == Some(("0x00000000", func))
  {
    assert s[p1..] == "" + (func + u);
    WordAfter(s, p1, "", func, u);
    FuncAtOf(s, p1, func, j);
    assert s[p1] == func[0];
    AddressAtNone(s, p1, isAddrDigit);
    StackFunctionPlain(s, p1, j, func, isAddrDigit);
  }

  /** The frame number of a frame line in gdb's layout. */
  lemma {:induction false} FrameLineHead(id: nat, addr: Option<string>, func: string, file: string, line: nat, j: nat, c: nat)
    requires IsIdent(func)
    requires j == |NatToString(id)| + 3 + |FramePrefix(addr)| + |func| + 4 && c == j + 3 + |file|
    ensures var s := FrameLine(id, addr, func, file, line);
      && c < |s| && s[1..1 + |NatToString(id)|] == NatToString(id) && s[j + 3..c] == file && s[c + 1..|s|] == NatToString(line)
      && StackHead(s) == Some((|NatToString(id)|, |NatToString(id)| + 3))
  {
    var ids := NatToString(id);
    var lns := NatToString(line);
    var pre := FramePrefix(addr);
    var u := " () at " + file + ":" + lns;
    var s := FrameLine(id, addr, func, file, line);
    FrameLineLayout(s, ids, pre, func, u, file, lns, j, c);
    var body := pre + func + u;
    assert body[0] == (if addr.Some? then '0' else func[0]);
    StackHeadOf(ids, body);
  }

  /** The line number of a frame line in gdb's layout. */
  lemma {:induction false} FrameLineNumber(id: nat, addr: Option<string>, func: string, file: string, line: nat,
                        trailingSpace: bool, c: nat)
    requires c == |NatToString(id)| + 3 + |FramePrefix(addr)| + |func| + 7 + |file|
    ensures StackLineNumber(FrameLine(id, addr, func, file, line), trailingSpace)
         == Some((c, |FrameLine(id, addr, func, file, line)|))
  {
    var ids := NatToString(id);
    var lns := NatToString(line);
    var x := "#" + ids + "  " + FramePrefix(addr) + func + " () at " + file + ":";
    assert FrameLine(id, addr, func, file, line) == x + lns;
    assert |x| == c + 1;
    StackLineNumberOf(x, lns, trailingSpace, c);
  }

  /** The `at ` before the file and the function of a frame line in gdb's
      layout. */
  lemma {:induction false} FrameLineMiddle(id: nat, addr: Option<string>, func: string, file: string, line: nat,
                        isAddrDigit: char -> bool, j: nat, c: nat)
    requires addr.Some? ==> addr.value != [] && (forall i :: 0 <= i < |addr.value| ==> isAddrDigit(addr.value[i])) && !isAddrDigit(' ')
    requires IsIdent(func)
    requires forall k: nat :: !OccursAt(file, "at ", k)
    requires j == |NatToString(id)| + 3 + |FramePrefix(addr)| + |func| + 4 && c == j + 3 + |file|
    ensures var s := FrameLine(id, addr, func, file, line);
      && c <= |s| && LastAtBefore(s, c) == Some(j)
      && StackFunction(s, |NatToString(id)| + 3, j, isAddrDigit)
         == Some((if addr.Some? then "0x" + addr.value else "0x00000000", func))
  {
    var ids := NatToString(id);
    var lns := NatToString(line);
    var pre := FramePrefix(addr);
    var u := " () at " + file + ":" + lns;
    var s := FrameLine(id, addr, func, file, line);
    FrameLineLayout(s, ids, pre, func, u, file, lns, j, c);
    NoAtInFile(s, j, file);
    LastAtBeforeIs(s, c, j);
    FrameFunctionOf(s, |ids| + 3, j, addr, func, u, isAddrDigit);
  }

  /** A frame line in gdb's layout gives back the frame number, the address
      (or the placeholder when there is none), the function, the file and the
      line, whether or not white space may follow the line number. */
  lemma {:induction false} FrameLineRoundTrip(id: nat, addr: Option<string>, func: string, file: string, line: nat,
                           trailingSpace: bool, isAddrDigit: char -> bool)
    requires addr.Some? ==> addr.value != [] && (forall i :: 0 <= i < |addr.value| ==> isAddrDigit(addr.value[i])) && !isAddrDigit(' ')
    requires IsIdent(func)
    requires file != [] && !IsSpace(file[0]) && !IsSpace(file[|file| - 1])
    requires forall k: nat :: !OccursAt(file, "at ", k)
    ensures ParseStackLineWith(FrameLine(id, addr, func, file, line), trailingSpace, isAddrDigit)
         == Some(GDBFrame(if addr.Some? then "0x" + addr.value else "0x00000000", func, [], Some(file),
                          Some(id), Some(NatToString(line))))
  {
    var ids := NatToString(id);
    var s := FrameLine(id, addr, func, file, line);
    var j := |ids| + 3 + |FramePrefix(addr)| + |func| + 4;
    var c := j + 3 + |file|;
    FrameLineHead(id, addr, func, file, line, j, c);
    FrameLineNumber(id, addr, func, file, line, trailingSpace, c);
    FrameLineMiddle(id, addr, func, file, line, isAddrDigit, j, c);
    var a := if addr.Some? then "0x" + addr.value else "0x00000000";
    ParseStackLineFrom(s, trailingSpace, isAddrDigit, |ids|, c, j, a, func, file, id, NatToString(line));
  }

  /** A line whose pieces sit where a frame line's do gives the frame. */
  lemma {:induction false} ParseStackLineFrom(s: string, trailingSpace: bool, isAddrDigit: char -> bool, n: nat, c: nat, j: nat,
                           addr: string, func: string, file: string, id: nat, lns: string)
    requires StackHead(s) == Some((n, n + 3)) && n + 3 <= |s|
    requires StackLineNumber(s, trailingSpace) == Some((c, |s|))
    requires LastAtBefore(s, c) == Some(j)
    requires StackFunction(s, n + 3, j, isAddrDigit) == Some((addr, func))
    requires s[j + 3..c] == file && file != [] && !IsSpace(file[0]) && !IsSpace(file[|file| - 1])
    requires s[1..1 + n] == NatToString(id) && s[c + 1..|s|] == lns
    ensures ParseStackLineWith(s, trailingSpace, isAddrDigit)
         == Some(GDBFrame(addr, func, [], Some(file), Some(id), Some(lns)))
  {
    ParseStackLineOf(s, trailingSpace, isAddrDigit, n, n + 3, c, |s|, j, addr, func);
    FrameOfIs(s, n, c, |s|, j, (addr, func), file, id, lns);
  }

  /** The frame of the pieces, field by field. */
  lemma {:induction false} FrameOfIs(s: string, n: nat, c: nat, e: nat, j: nat, af: (string, string), file: string, id: nat, lns: string)
    requires 1 + n <= |s| && j + 3 <= c < e <= |s|
    requires s[j + 3..c] == file && file != [] && !IsSpace(file[0]) && !IsSpace(file[|file| - 1])
    requires s[1..1 + n] == NatToString(id) && s[c + 1..e] == lns
    ensures FrameOf(s, n, c, e, j, af) == GDBFrame(af.0, af.1, [], Some(file), Some(id), Some(lns))
  {
    NatToStringValue(id);
    TrimOfTrimmed(file);
  }


  /** The current variant's `Call_Stack`: decimal address digits, white space
      allowed after the line number. */
  function ParseStackLine(s: string): Option<GDBFrame> {
    ParseStackLineWith(s, true, IsDigit)
  }

  // ---------------------------------------------------------------------------
  // The `ParseTo*` loops

  method ParseToVariablesDefine(lines: seq<string>) returns (res: seq<VariablesDefine>)
    ensures res == FilterMap(lines, ParseVariableLine)
  {
    res := Collect(lines, ParseVariableLine);
  }

  method ParseToRegisterValue(lines: seq<string>) returns (res: seq<Expression>)
    ensures res == FilterMap(lines, ParseRegisterLine)
  {
    res := Collect(lines, ParseRegisterLine);
  }

  method ParseToStacks(lines: seq<string>) returns (res: seq<GDBFrame>)
    ensures res == FilterMap(lines, ParseStackLine)
  {
    res := Collect(lines, ParseStackLine);
  }

  /** The breakpoint of the last line that reports one. */
  function LastBreakpoint(lines: seq<string>): Option<BaseBreakPoint> {
    var found := FilterMap(lines, ParseBreakpointLine);
    if found == [] then None else Some(found[|found| - 1])
  }

  method ParseToBreakpointInfo(lines: seq<string>) returns (res: Option<BaseBreakPoint>)
    ensures res == LastBreakpoint(lines)
    ensures res.None? <==> forall i :: 0 <= i < |lines| ==> ParseBreakpointLine(lines[i]).None?
  {
    res := None;
    var i := 0;
    while i < |lines|
      invariant 0 <= i <= |lines|
      invariant res == LastBreakpoint(lines[..i])
    {
      var m := ParseBreakpointLine(lines[i]);
      if m.Some? {
        res := m;
      }
      assert lines[..i + 1][..i] == lines[..i];
      i := i + 1;
    }
    assert lines[..|lines|] == lines;
    FilterMapEmpty(lines, ParseBreakpointLine);
  }

  /** `undefined` when no line holds a memory value. */
  method ParseToMemoryValue(lines: seq<string>) returns (res: Option<seq<Expression>>)
    ensures res.None? <==> forall i :: 0 <= i < |lines| ==> ParseMemoryLine(lines[i]).None?
    ensures res.Some? ==> res.value == FilterMap(lines, ParseMemoryLine)
  {
    var found := Collect(lines, ParseMemoryLine);
    FilterMapEmpty(lines, ParseMemoryLine);
    res := if |found| > 0 then Some(found) else None;
  }
}
