/** Path helpers of the extension's `File` class (src/File.ts): the name
    without its suffix, a path relative to a base directory, the `file://`
    URI, and the filter that lists files before directories. Whether a
    path is a file or a directory is a file-system query; here each entry
    carries the answer. */
module File {
  import opened JsText

  /** The two path conventions `path.sep` can stand for. */
  datatype Platform = Windows | Posix

  // ---------------------------------------------------------------------------
  // GetNoSuffixName

  /** `name.split('.')`, drop the last part, `join('.')`, when there are at
      least two parts; the name itself otherwise. */
  function GetNoSuffixName(name: string): string {
    var parts := Split(name, ".");
    if |parts| > 1 then Join(parts[..|parts| - 1], ".") else name
  }

  /** The name loses its last dot and what follows it; a name without a
      dot is kept whole. */
  lemma {:induction false} NoSuffixName(name: string)
    ensures LastIndexOf(name, '.').None? ==> GetNoSuffixName(name) == name
    ensures LastIndexOf(name, '.').Some? ==> GetNoSuffixName(name) == name[..LastIndexOf(name, '.').value]
  {
    match LastIndexOf(name, '.')
    case None =>
      SplitNoSeparator(name, ".");
    case Some(k) =>
      assert name == name[..k] + "." + name[k + 1..];
      SplitLast(name[..k], name[k + 1..]);
      JoinSplit(name[..k]);
  }

  /** Splitting before a last part that has no dot. */
  lemma {:induction false} SplitLast(a: string, b: string)
    requires forall i :: 0 <= i < |b| ==> b[i] != '.'
    ensures Split(a + "." + b, ".") == Split(a, ".") + [b]
    decreases |a|
  {
    if a == [] {
      assert a + "." + b == "." + b;
      assert ("." + b)[..1] == "." && ("." + b)[1..] == b;
      SplitNoSeparator(b, ".");
    } else {
      var t := a + "." + b;
      assert t[1..] == a[1..] + "." + b;
      SplitLast(a[1..], b);
      if a[0] == '.' {
        assert t[..1] == ".";
        assert a[..1] == ".";
      } else {
        assert t[..1] != ".";
        if |a| >= 1 { assert a[..1] != "."; }
      }
    }
  }

  /** Joining the parts of a split with the same separator gives the text back. */
  lemma {:induction false} JoinSplit(s: string)
    ensures Join(Split(s, "."), ".") == s
    decreases |s|
  {
    if |s| >= 1 {
      JoinSplit(s[1..]);
      var rest := Split(s[1..], ".");
      if s[..1] == "." {
        assert s == "." + s[1..];
      } else {
        if |rest| == 1 {
          assert Join(rest, ".") == rest[0];
        } else {
          assert Join(rest, ".") == rest[0] + "." + Join(rest[1..], ".");
        }
        assert [s[0]] + s[1..] == s;
      }
    }
  }

  // ---------------------------------------------------------------------------
  // GetRelativePath

  predicate IsLineTerminator(c: char) {
    c == '\n' || c == '\r' || c == '\U{2028}' || c == '\U{2029}'
  }

  /** How one character of the base path matches under the `i` flag: a dot
      matches any character but a line terminator, anything else matches
      itself up to ASCII case. */
  predicate CharMatches(p: char, c: char) {
    if p == '.' then !IsLineTerminator(c) else LowerAscii(p) == LowerAscii(c)
  }

  /** `s` begins with text matching the base path character by character. */
  predicate PrefixMatches(path: string, s: string) {
    |path| <= |s| && forall i :: 0 <= i < |path| ==> CharMatches(path[i], s[i])
  }

  /** The length of the match of the regular expression source `src`,
      anchored at the start of `s`: `\\` matches a backslash, `.` any
      character but a line terminator, every other character itself up to
      ASCII case. */
  function MatchPrefix(src: string, s: string): (r: Option<nat>)
    ensures r.Some? ==> r.value <= |s|
    decreases |src|
  {
    if src == [] then Some(0)
    else if s == [] then None
    else
      var ok := if |src| >= 2 && src[0] == '\\' && src[1] == '\\' then s[0] == '\\'
                else CharMatches(src[0], s[0]);
      var next := if |src| >= 2 && src[0] == '\\' && src[1] == '\\' then src[2..] else src[1..];
      if !ok then None
      else match MatchPrefix(next, s[1..])
        case None => None
        case Some(n) => Some(n + 1)
  }

  /** `GetRelativePath`: the regular expression is `'^'` and the base path
      with every backslash doubled, matched case-insensitively; on a match
      the matched prefix is removed. */
  function GetRelativePath(path: string, absPath: string): (r: Option<string>)
    ensures r.Some? <==> PrefixMatches(path, absPath)
    ensures r.Some? ==> absPath == absPath[..|path|] + r.value
  {
    MatchEscaped(path, absPath);
    match MatchPrefix(DoubleBackslashes(path), absPath)
    case None => None
    case Some(n) => Some(absPath[n..])
  }

  /** Matching the escaped source is matching the base path itself, and the
      match is exactly as long as the path. */
  lemma {:induction false} MatchEscaped(path: string, s: string)
    ensures MatchPrefix(DoubleBackslashes(path), s) == if PrefixMatches(path, s) then Some(|path|) else None
    decreases |path|
  {
    if path != [] && s != [] {
      MatchEscaped(path[1..], s[1..]);
      var src := DoubleBackslashes(path);
      if path[0] == '\\' {
        assert src == "\\\\" + DoubleBackslashes(path[1..]);
        assert src[2..] == DoubleBackslashes(path[1..]);
        assert CharMatches('\\', s[0]) <==> s[0] == '\\';
      } else {
        assert src == [path[0]] + DoubleBackslashes(path[1..]);
        assert src[1..] == DoubleBackslashes(path[1..]);
      }
      if PrefixMatches(path[1..], s[1..]) && CharMatches(path[0], s[0]) {
        assert PrefixMatches(path, s) by {
          forall i | 0 <= i < |path| ensures CharMatches(path[i], s[i]) {
            if i > 0 { assert path[i] == path[1..][i - 1] && s[i] == s[1..][i - 1]; }
          }
        }
      }
      if PrefixMatches(path, s) {
        assert CharMatches(path[0], s[0]);
        assert PrefixMatches(path[1..], s[1..]) by {
          forall i | 0 <= i < |path| - 1 ensures CharMatches(path[1..][i], s[1..][i]) {
            assert CharMatches(path[i + 1], s[i + 1]);
          }
        }
      }
    }
  }

  /** A path below the base gives back what follows the base, whatever
      the ASCII case of the base in it. */
  lemma {:induction false} RelativeOfJoined(path: string, rest: string)
    ensures GetRelativePath(path, path + rest) == Some(rest)
    ensures GetRelativePath(path, LowerAsciiString(path) + rest) == Some(rest)
  {
    assert (path + rest)[..|path|] == path;
    assert PrefixMatches(path, path + rest) by {
      forall i | 0 <= i < |path| ensures CharMatches(path[i], (path + rest)[i]) {
      }
    }
    var low := LowerAsciiString(path) + rest;
    assert PrefixMatches(path, low) by {
      forall i | 0 <= i < |path| ensures CharMatches(path[i], low[i]) {
        assert low[i] == LowerAscii(path[i]);
        assert path[i] == '.' ==> low[i] == '.';
      }
    }
    assert low[|path|..] == rest;
  }

  // ---------------------------------------------------------------------------
  // ToUri

  /** `'/'` and the path with its separators made forward slashes: on
      Windows the separator regular expression `\\` matches each
      backslash; elsewhere it is `//`, and each doubled slash becomes one. */
  function ToNoProtocolUri(path: string, platform: Platform): (r: string)
    ensures r != [] && r[0] == '/'
    ensures platform == Windows ==> |r| == |path| + 1 && forall i :: 0 <= i < |r| ==> r[i] != '\\'
  {
    if platform == Windows then
      ReplaceAllChar(path, '\\', '/');
      "/" + ReplaceAll(path, "\\", "/")
    else "/" + ReplaceAll(path, "//", "/")
  }

  function ToUri(path: string, platform: Platform): (r: string)
    ensures StartsWith(r, "file:///")
  {
    var u := ToNoProtocolUri(path, platform);
    assert ("file://" + u)[..8] == "file://" + u[..1];
    "file://" + u
  }

  // ---------------------------------------------------------------------------
  // Filter

  /** A listed entry: its name and what the file system says it is. */
  datatype FileEntry = FileEntry(name: string, isFile: bool, isDir: bool)

  predicate OfKind(f: FileEntry, wantFile: bool) {
    if wantFile then f.isFile else f.isDir
  }

  /** No filter list lets everything through; a list lets a name through
      when one of its patterns accepts it. */
  predicate Passes(filters: Option<seq<string -> bool>>, name: string) {
    filters.None? || exists k :: 0 <= k < |filters.value| && filters.value[k](name)
  }

  /** The entries of one kind that pass the filters, in input order. */
  function Selected(fList: seq<FileEntry>, wantFile: bool, filters: Option<seq<string -> bool>>): (r: seq<FileEntry>)
    ensures |r| <= |fList|
  {
    if fList == [] then []
    else
      var f := fList[|fList| - 1];
      Selected(fList[..|fList| - 1], wantFile, filters) + (if OfKind(f, wantFile) && Passes(filters, f.name) then [f] else [])
  }

  /** `Filter`: the passing files, then the passing directories. */
  method Filter(fList: seq<FileEntry>, fileFilter: Option<seq<string -> bool>>, dirFilter: Option<seq<string -> bool>>)
    returns (res: seq<FileEntry>)
    ensures res == Selected(fList, true, fileFilter) + Selected(fList, false, dirFilter)
  {
    res := Select([], fList, true, fileFilter);
    res := Select(res, fList, false, dirFilter);
  }

  /** One of the two `forEach` passes of `Filter`. */
  method Select(res0: seq<FileEntry>, fList: seq<FileEntry>, wantFile: bool, filters: Option<seq<string -> bool>>)
    returns (res: seq<FileEntry>)
    ensures res == res0 + Selected(fList, wantFile, filters)
  {
    res := res0;
    var i := 0;
    while i < |fList|
      invariant 0 <= i <= |fList|
      invariant res == res0 + Selected(fList[..i], wantFile, filters)
    {
      var f := fList[i];
      assert fList[..i + 1][..i] == fList[..i];
      if OfKind(f, wantFile) {
        var passes := true;
        if filters.Some? {
          passes := AnyAccepts(filters.value, f.name);
        }
        if passes {
          res := res + [f];
        }
      }
      i := i + 1;
    }
    assert fList[..i] == fList;
  }

  /** The scan over the patterns of one filter: does any of them accept `name`? */
  method AnyAccepts(patterns: seq<string -> bool>, name: string) returns (b: bool)
    ensures b <==> exists k :: 0 <= k < |patterns| && patterns[k](name)
  {
    var k := 0;
    while k < |patterns|
      invariant 0 <= k <= |patterns|
      invariant forall q :: 0 <= q < k ==> !patterns[q](name)
    {
      if patterns[k](name) {
        return true;
      }
      k := k + 1;
    }
    return false;
  }

  /** An entry is selected exactly when it is listed, is of the kind and
      passes the filters. */
  lemma {:induction false} SelectedMembers(fList: seq<FileEntry>, wantFile: bool, filters: Option<seq<string -> bool>>)
    ensures forall f :: f in Selected(fList, wantFile, filters) <==> f in fList && OfKind(f, wantFile) && Passes(filters, f.name)
    decreases |fList|
  {
    if fList != [] {
      var init := fList[..|fList| - 1];
      SelectedMembers(init, wantFile, filters);
      assert fList == init + [fList[|fList| - 1]];
    }
  }
}
