/** The path and compiler-flag helpers of the build system's header: `StrCat`, the `As*`
    prefix helpers, slash conversion, quoting, the `Strip*` and `ExtensionOf` path
    manipulations, the path predicates and the level count of `AsAbsolutePath`. A path
    argument (`const auto& path`) is either a literal or a `String<N>`: an `Operand`. */
module PathHelpers {
  import opened FixedString

  /** The capacity of the scratch `String<4096>` buffers. */
  const ScratchSize: nat := 4096

  // ---------------------------------------------------------------- helpers not shown

  /** `FindLastOf(s, chars)`: the position of the last character of `s` that belongs to
      `chars`, or `InvalidStringIndex` when there is none. */
  function FindLastOf(s: seq<char>, chars: seq<char>): (index: nat)
    requires |s| < InvalidStringIndex
    ensures index == InvalidStringIndex || (index < |s| && s[index] in chars)
    ensures index == InvalidStringIndex ==> forall i :: 0 <= i < |s| ==> s[i] !in chars
    ensures index != InvalidStringIndex ==> forall i :: index < i < |s| ==> s[i] !in chars
  {
    LastOfBefore(s, chars, |s|)
  }

  /** The last position before `n` holding a character of `chars`. */
  function LastOfBefore(s: seq<char>, chars: seq<char>, n: nat): (index: nat)
    requires n <= |s| < InvalidStringIndex
    ensures index == InvalidStringIndex || (index < n && s[index] in chars)
    ensures index == InvalidStringIndex ==> forall i :: 0 <= i < n ==> s[i] !in chars
    ensures index != InvalidStringIndex ==> forall i :: index < i < n ==> s[i] !in chars
  {
    if n == 0 then InvalidStringIndex
    else if s[n - 1] in chars then n - 1
    else LastOfBefore(s, chars, n - 1)
  }

  /** `ContainsAnyOf(s, chars)`: some character of `s` belongs to `chars`. */
  predicate ContainsAnyOf(s: seq<char>, chars: seq<char>) {
    exists i :: 0 <= i < |s| && s[i] in chars
  }

  /** `index--` on a `size_t`: zero wraps round to `InvalidStringIndex`. */
  function Decrement(index: nat): nat {
    if index == 0 then InvalidStringIndex else index - 1
  }

  // ---------------------------------------------------------------- StrCat and the flag prefixes

  /** `Helpers::StrCat`: a `String<aSize + bSize - 1>` holding `a` then `b`. The overloads
      with a `String` operand are `a + b`; the one for two literals appends twice itself. */
  method StrCat(a: Operand, b: Operand) returns (r: String)
    requires a.Valid() && b.Valid() && (a.Literal? || b.Literal?)
    ensures fresh(r) && fresh(r.mString) && r.Terminated()
    ensures r.MaxSize() == a.Size() + b.Size() - 1 && r.Text() == a.text + b.text
  {
    if a.Literal? && b.Literal? {
      r := new String(a.Size() + b.Size() - 1);
      r.Append(a.text, InvalidStringIndex, 0);
      AppendedFits([], r.MaxSize(), a.text);
      r.Append(b.text, InvalidStringIndex, 0);
      AppendedFits(a.text, r.MaxSize(), b.text);
    } else {
      r := Plus(a, b);
    }
  }

  /** `AsInclude`: `-I` directly followed by the path. */
  method AsInclude(path: Operand) returns (r: String)
    requires path.Valid()
    ensures fresh(r) && fresh(r.mString) && r.Terminated()
    ensures r.MaxSize() == path.Size() + 2 && r.Text() == "-I" + path.text
  {
    r := StrCat(Literal("-I"), path);
  }

  /** `AsSystemInclude`: `-isystem` directly followed by the path. */
  method AsSystemInclude(path: Operand) returns (r: String)
    requires path.Valid()
    ensures fresh(r) && fresh(r.mString) && r.Terminated()
    ensures r.MaxSize() == path.Size() + 8 && r.Text() == "-isystem" + path.text
  {
    r := StrCat(Literal("-isystem"), path);
  }

  /** `AsLibrary`: `-l` directly followed by the library name. */
  method AsLibrary(library: Operand) returns (r: String)
    requires library.Valid()
    ensures fresh(r) && fresh(r.mString) && r.Terminated()
    ensures r.MaxSize() == library.Size() + 2 && r.Text() == "-l" + library.text
  {
    r := StrCat(Literal("-l"), library);
  }

  /** `AsLibraryPath`: `-L` directly followed by the path. */
  method AsLibraryPath(path: Operand) returns (r: String)
    requires path.Valid()
    ensures fresh(r) && fresh(r.mString) && r.Terminated()
    ensures r.MaxSize() == path.Size() + 2 && r.Text() == "-L" + path.text
  {
    r := StrCat(Literal("-L"), path);
  }

  /** `AsDefine`: `-D` directly followed by the macro name. */
  method AsDefine(name: Operand) returns (r: String)
    requires name.Valid()
    ensures fresh(r) && fresh(r.mString) && r.Terminated()
    ensures r.MaxSize() == name.Size() + 2 && r.Text() == "-D" + name.text
  {
    r := StrCat(Literal("-D"), name);
  }

  // ---------------------------------------------------------------- slash conversion

  /** Every `from` in `s` replaced by `to`. */
  function Replace(s: seq<char>, from: char, to: char): (r: seq<char>)
    ensures |r| == |s|
  {
    seq(|s|, i requires 0 <= i < |s| => if s[i] == from then to else s[i])
  }

  /** The text `ToWinPath` produces: backslashes for slashes. */
  function WinPath(s: seq<char>): seq<char> {
    Replace(s, '/', '\\')
  }

  /** The text `ToProperPath` produces: slashes for backslashes. */
  function ProperPath(s: seq<char>): seq<char> {
    Replace(s, '\\', '/')
  }

  /** Replacing one non-NUL character by another leaves every other character, the length and
      the position of the terminator alone, and removes every `from`. */
  lemma ReplaceKeeps(s: seq<char>, from: char, to: char)
    requires from != '\0' && to != '\0' && from != to
    ensures from !in Replace(s, from, to)
    ensures forall i :: 0 <= i < |s| && s[i] != from ==> Replace(s, from, to)[i] == s[i]
    ensures CLength(Replace(s, from, to)) == CLength(s)
    ensures Replace(s, from, to)[..CLength(s)] == Replace(s[..CLength(s)], from, to)
  {
    var r, n := Replace(s, from, to), CLength(s);
    assert NulFree(r[..n]) by {
      forall i | 0 <= i < n ensures r[..n][i] != '\0' {
        assert s[..n][i] == s[i];
      }
    }
    CLengthIs(r, n);
  }

  /** `ToProperPath` undoes `ToWinPath` on a path that has no backslash of its own. */
  lemma {:induction false} ProperPathUndoesWinPath(p: seq<char>)
    requires '\\' !in p
    ensures ProperPath(WinPath(p)) == p
  {
    var w := WinPath(p);
    forall i | 0 <= i < |p| ensures ProperPath(w)[i] == p[i] {
      assert p[i] != '\\';
    }
  }

  /** `ToWinPath` and `ToProperPath`: copy the path into a new buffer and overwrite every
      `from` with `to`. A `String<N>` is copied into a `String<N>` and converted over its
      whole capacity; a literal is `strncpy`-d into a `String<4096>` and converted up to
      its length. */
  method Converted(path: Operand, from: char, to: char) returns (r: String)
    requires path.Valid() && (path.Literal? ==> |path.text| < ScratchSize)
    requires from != '\0' && to != '\0' && from != to
    ensures fresh(r) && fresh(r.mString) && r.Terminated()
    ensures r.MaxSize() == (if path.Buffer? then path.size else ScratchSize)
    ensures r.Text() == Replace(path.text, from, to)
  {
    if path.Buffer? {
      r := new String.FromText(path.size, path.text);
      ghost var before := r.mString[..];
      ConvertUpTo(r, r.MaxSize(), from, to);
      ReplaceKeeps(before, from, to);
    } else {
      r := new String(ScratchSize);
      // strncpy(newPath.data(), pPath, pathLength), with pathLength = strlen(pPath); the
      // buffer after the copied characters is still zero
      var pathLength := |path.text|;
      var k := 0;
      while k < pathLength
        invariant k <= pathLength
        invariant forall j :: 0 <= j < ScratchSize ==>
          r.mString[j] == if j < k then path.text[j] else '\0'
      {
        r.mString[k] := path.text[k];
        k := k + 1;
      }
      assert r.mString[..][..|path.text|] == path.text;
      CLengthIs(r.mString[..], |path.text|);
      var newPathLength := r.Length();
      ghost var before := r.mString[..];
      ConvertUpTo(r, newPathLength, from, to);
      ReplaceKeeps(before, from, to);
    }
  }

  /** The conversion loop: every `from` among the first `limit` characters becomes `to`; no
      `from` lies beyond them, so the whole buffer is converted. */
  method ConvertUpTo(r: String, limit: nat, from: char, to: char)
    requires limit <= r.MaxSize()
    requires forall j :: limit <= j < r.MaxSize() ==> r.mString[j] != from
    modifies r.mString
    ensures r.mString[..] == Replace(old(r.mString[..]), from, to)
  {
    ghost var before := r.mString[..];
    var i := 0;
    while i < limit
      invariant i <= limit
      invariant forall j :: 0 <= j < r.MaxSize() ==>
        r.mString[j] == if j < i && before[j] == from then to else before[j]
    {
      if r.At(i) == from {
        r.Set(i, to);
      }
      i := i + 1;
    }
    assert forall j :: 0 <= j < r.MaxSize() ==> r.mString[j] == Replace(before, from, to)[j];
  }

  /** `Helpers::ToWinPath`. */
  method ToWinPath(path: Operand) returns (r: String)
    requires path.Valid() && (path.Literal? ==> |path.text| < ScratchSize)
    ensures fresh(r) && fresh(r.mString) && r.Terminated()
    ensures r.MaxSize() == (if path.Buffer? then path.size else ScratchSize)
    ensures r.Text() == WinPath(path.text)
  {
    r := Converted(path, '/', '\\');
  }

  /** `Helpers::ToProperPath`. */
  method ToProperPath(path: Operand) returns (r: String)
    requires path.Valid() && (path.Literal? ==> |path.text| < ScratchSize)
    ensures fresh(r) && fresh(r.mString) && r.Terminated()
    ensures r.MaxSize() == (if path.Buffer? then path.size else ScratchSize)
    ensures r.Text() == ProperPath(path.text)
  {
    r := Converted(path, '\\', '/');
  }

  // ---------------------------------------------------------------- AsPath

  /** The first `n` characters of `s`, or all of them. */
  function Truncated(s: seq<char>, n: nat): seq<char> {
    s[..Min(|s|, n)]
  }

  /** The text `AsPath` produces: the path, in double quotes when it contains a space, cut
      to the 4095 characters a `String<4096>` holds, with backslashes for slashes. */
  function AsPathText(p: seq<char>): seq<char> {
    WinPath(QuotedIfSpaced(p))
  }

  /** A path that fits is quoted exactly when it contains a space, and otherwise only has
      its slashes turned round; for a path without backslashes, turning them back gives the
      quoted or unquoted path. */
  lemma AsPathShort(p: seq<char>)
    requires |p| + 2 < ScratchSize
    ensures ' ' in p ==> AsPathText(p) == WinPath("\"" + p + "\"")
    ensures ' ' !in p ==> AsPathText(p) == WinPath(p)
    ensures '\\' !in p ==> ProperPath(AsPathText(p)) == if ' ' in p then "\"" + p + "\"" else p
  {
    var q := if ' ' in p then "\"" + p + "\"" else p;
    assert ContainsAnyOf(p, " ") <==> ' ' in p by {
      if ' ' in p {
        var i :| 0 <= i < |p| && p[i] == ' ';
        assert p[i] in " ";
      }
    }
    assert Truncated(q, ScratchSize - 1) == q;
    if '\\' !in p {
      assert '\\' !in q by {
        if ' ' in p {
          assert forall i :: 0 <= i < |q| ==> q[i] == '"' || q[i] == p[i - 1];
        }
      }
      ProperPathUndoesWinPath(q);
    }
  }

  /** `ret[0] = '"'; ret.append(path); ret.append("\"")` in a `String<4096>` gives the quoted
      path cut to capacity. */
  lemma QuotedAppends(p: seq<char>)
    ensures |"\""| < ScratchSize
    ensures var t := Appended("\"", ScratchSize, p, InvalidStringIndex, 0);
      |t| < ScratchSize &&
      Appended(t, ScratchSize, "\"", InvalidStringIndex, 0) == Truncated("\"" + p + "\"", ScratchSize - 1)
  {
    var t := Appended("\"", ScratchSize, p, InvalidStringIndex, 0);
    AppendedWhole("\"", ScratchSize, p);
    AppendedWhole(t, ScratchSize, "\"");
    var u := Appended(t, ScratchSize, "\"", InvalidStringIndex, 0);
    var q := "\"" + p + "\"";
    if |p| + 1 < ScratchSize - 1 {
      assert t == "\"" + p;
      assert u == q;
    } else {
      assert |t| == ScratchSize - 1;
      assert t == q[..ScratchSize - 1];
      assert u == t;
    }
  }

  /** The path, double-quoted when it contains a space, cut to what a `String<4096>` holds. */
  function QuotedIfSpaced(p: seq<char>): seq<char> {
    Truncated(if ContainsAnyOf(p, " ") then "\"" + p + "\"" else p, ScratchSize - 1)
  }

  /** The first half of `AsPath`: into the empty `ret`, either `ret[0] = '"'` and two
      appends, or `ret = path`. */
  method QuoteInto(ret: String, path: Operand)
    requires path.Valid() && ret.MaxSize() == ScratchSize
    requires forall i :: 0 <= i < ScratchSize ==> ret.mString[i] == '\0'
    modifies ret.mString
    ensures ret.Terminated() && ret.Text() == QuotedIfSpaced(path.text)
  {
    if ContainsAnyOf(path.text, " ") {
      ret.Set(0, '"');
      assert ret.mString[..][..1] == "\"";
      CLengthIs(ret.mString[..], 1);
      ret.Append(path.text, InvalidStringIndex, 0);
      ret.Append("\"", InvalidStringIndex, 0);
      QuotedAppends(path.text);
    } else {
      ghost var before := ret.mString[..];
      ret.Copy(path.text, 0, InvalidStringIndex, 0);
      CopiedText(before, path.text, 0, InvalidStringIndex, 0);
    }
  }

  /** `AsPath`: a `String<4096>` with the path, double-quoted when it contains a space, then
      passed through `ToWinPath`. `IsValidPath` always holds, so its early exit is never
      taken and is not written here. */
  method AsPath(path: Operand) returns (r: String)
    requires path.Valid()
    ensures fresh(r) && fresh(r.mString) && r.Terminated()
    ensures r.MaxSize() == ScratchSize && r.Text() == AsPathText(path.text)
  {
    r := new String(ScratchSize);
    QuoteInto(r, path);
    var win := ToWinPath(Of(r));
    ghost var before := r.mString[..];
    r.Copy(win.Text(), 0, InvalidStringIndex, 0);
    CopiedText(before, win.Text(), 0, InvalidStringIndex, 0);
  }

  // ---------------------------------------------------------------- AsAbsolutePath

  /** The longest prefix of `s` made of `.` and `/`. */
  function DotSlashRun(s: seq<char>): (r: seq<char>)
    ensures |r| <= |s| && r == s[..|r|]
    ensures forall i :: 0 <= i < |r| ==> r[i] == '.' || r[i] == '/'
    ensures |r| < |s| ==> s[|r|] != '.' && s[|r|] != '/'
  {
    if s != [] && (s[0] == '.' || s[0] == '/') then [s[0]] + DotSlashRun(s[1..]) else []
  }

  /** The number of slashes in `s`. */
  function SlashCount(s: seq<char>): (n: nat)
    ensures n <= |s|
  {
    if s == [] then 0 else SlashCount(s[..|s| - 1]) + (if s[|s| - 1] == '/' then 1 else 0)
  }

  /** `levelsUp` and its `uint16` increment, which wraps after 65535. */
  const LevelsModulus: nat := 65536

  /** The pointer loop of `AsAbsolutePath`: starting after the first character, walk the run
      of `.` and `/` and count its slashes in a `uint16`. */
  method CountLevelsUp(path: seq<char>) returns (levelsUp: nat)
    requires |path| >= 1
    ensures levelsUp < LevelsModulus
    ensures levelsUp == SlashCount(DotSlashRun(path[1..])) % LevelsModulus
  {
    var p := 1;
    levelsUp := 0;
    while p < |path| && (path[p] == '.' || path[p] == '/')
      invariant 1 <= p <= |path|
      invariant forall j :: 1 <= j < p ==> path[j] == '.' || path[j] == '/'
      invariant levelsUp == SlashCount(path[1..p]) % LevelsModulus
    {
      assert path[1..p + 1][..p - 1] == path[1..p];
      if path[p] == '/' {
        levelsUp := if levelsUp == LevelsModulus - 1 then 0 else levelsUp + 1;
      }
      p := p + 1;
    }
    DotSlashRunIs(path[1..], p - 1);
    assert path[1..][..p - 1] == path[1..p];
  }

  /** The run is determined by its length: a prefix of `.` and `/` followed by anything else
      or by the end. */
  lemma {:induction false} DotSlashRunIs(s: seq<char>, k: nat)
    requires k <= |s|
    requires forall i :: 0 <= i < k ==> s[i] == '.' || s[i] == '/'
    requires k < |s| ==> s[k] != '.' && s[k] != '/'
    ensures DotSlashRun(s) == s[..k]
  {
    if k > 0 {
      DotSlashRunIs(s[1..], k - 1);
      assert s[..k] == [s[0]] + s[1..][..k - 1];
    }
  }

  /** The path predicates, which at present answer the same for every path. */
  function IsValidPath(path: Operand): (r: bool)
    ensures r
  {
    true
  }

  function IsAbsolutePath(path: Operand): (r: bool)
    ensures !r
  {
    false
  }

  function IsRelativePath(path: Operand): (r: bool)
    ensures !r
  {
    false
  }

  /** `path[0]`: the first character, or the terminator of an empty path. */
  function First(path: Operand): char {
    if path.text == [] then '\0' else path.text[0]
  }

  /** The part of `AsAbsolutePath` in this model: since `IsValidPath` always holds and
      `IsAbsolutePath` never does, both early returns are dead (shown by `assert false`
      in each), and a path not starting with `.` becomes `AsPath(cwd / path)`;
      for one starting with `.` the number of levels to climb is counted and `joined` is
      null, the climbing itself not being modelled. `cwd` is the working directory. */
  method AsAbsolutePath(path: Operand, cwd: Operand) returns (joined: String?, levelsUp: nat)
    requires path.Valid() && cwd.Valid() && cwd.Buffer?
    ensures First(path) != '.' ==>
      joined != null && fresh(joined) && joined.Terminated() && levelsUp == 0 &&
      joined.Text() == AsPathText(cwd.text + "/" + path.text)
    ensures First(path) == '.' ==>
      joined == null && levelsUp == SlashCount(DotSlashRun(path.text[1..])) % LevelsModulus
  {
    if !IsValidPath(path) {
      assert false;
    }
    if IsAbsolutePath(path) {
      assert false;
    }
    if First(path) != '.' {
      var both := Slash(cwd, path);
      joined := AsPath(Of(both));
      levelsUp := 0;
    } else {
      joined := null;
      levelsUp := CountLevelsUp(path.text);
    }
  }

  // ---------------------------------------------------------------- path manipulation

  /** The text `StripExtension` produces: the path up to the last `.`, less one more
      character; the whole path when there is no `.` or the `.` comes first. */
  function StripExtensionText(p: seq<char>): seq<char>
    requires |p| < InvalidStringIndex
  {
    var k := FindLastOf(p, ".");
    if k == InvalidStringIndex || k == 0 then p else p[..k - 1]
  }

  /** The text `StripFileName` produces: the path up to the last separator, less one more
      character; the whole path when there is no separator or it comes first. */
  function StripFileNameText(p: seq<char>): seq<char>
    requires |p| < InvalidStringIndex
  {
    var k := FindLastOf(p, "\\/");
    if k == InvalidStringIndex || k == 0 then p else p[..k - 1]
  }

  /** The text `StripPath` produces: the path from its last separator on, separator
      included; the whole path when there is none. */
  function StripPathText(p: seq<char>): seq<char>
    requires |p| < InvalidStringIndex
  {
    var k := FindLastOf(p, "\\/");
    if k == InvalidStringIndex then p else p[k..]
  }

  /** The text `ExtensionOf` produces: what follows the last `.`, or nothing. */
  function ExtensionOfText(p: seq<char>): (r: seq<char>)
    requires |p| < InvalidStringIndex
  {
    var k := FindLastOf(p, ".");
    if k == InvalidStringIndex then [] else p[k + 1..]
  }

  /** The extension is free of dots; when the path has a dot it is exactly what follows the
      last one, and otherwise it is empty. */
  lemma ExtensionOfSpec(p: seq<char>)
    requires |p| < InvalidStringIndex
    ensures var r := ExtensionOfText(p);
      '.' !in r &&
      ('.' !in p ==> r == []) &&
      ('.' in p ==> |r| < |p| && p[|p| - |r| - 1] == '.' && p[|p| - |r|..] == r)
  {
    var k := FindLastOf(p, ".");
    var r := ExtensionOfText(p);
    if k != InvalidStringIndex {
      assert forall i :: 0 <= i < |r| ==> r[i] == p[k + 1 + i];
    }
  }

  /** Without a `.` `StripExtension` gives back the path, and without a separator so do
      `StripPath` and, contrary to its description, `StripFileName`. */
  lemma StripWithoutMark(p: seq<char>)
    requires |p| < InvalidStringIndex
    ensures '.' !in p ==> StripExtensionText(p) == p
    ensures '/' !in p && '\\' !in p ==> StripPathText(p) == p && StripFileNameText(p) == p
  {
  }

  /** `String<sizeof(path)> ret; ret.copy(path, 0, stringLength)`: the path's first
      `stringLength` characters, or all of them. */
  method CopyHead(path: Operand, stringLength: nat) returns (r: String)
    requires path.Valid()
    ensures fresh(r) && fresh(r.mString) && r.Terminated() && r.MaxSize() == path.Size()
    ensures r.Text() == path.text[..Min(|path.text|, Requested(path.text, stringLength))]
  {
    r := new String(path.Size());
    ghost var before := r.mString[..];
    r.Copy(path.text, 0, stringLength, 0);
    CopiedText(before, path.text, 0, stringLength, 0);
  }

  /** `String<sizeof(path)> ret; ret.copy(path, 0, InvalidStringIndex, stringOffset)`: the
      path from `stringOffset` on. */
  method CopyTail(path: Operand, stringOffset: nat) returns (r: String)
    requires path.Valid() && stringOffset <= |path.text|
    ensures fresh(r) && fresh(r.mString) && r.Terminated() && r.MaxSize() == path.Size()
    ensures r.Text() == path.text[stringOffset..]
  {
    r := new String(path.Size());
    ghost var before := r.mString[..];
    r.Copy(path.text, 0, InvalidStringIndex, stringOffset);
    CopiedText(before, path.text, 0, InvalidStringIndex, stringOffset);
  }

  /** `StripExtension`. */
  method StripExtension(path: Operand) returns (r: String)
    requires path.Valid() && |path.text| < InvalidStringIndex
    ensures fresh(r) && r.Terminated() && r.MaxSize() == path.Size()
    ensures r.Text() == StripExtensionText(path.text)
  {
    var index := FindLastOf(path.text, ".");
    if index != InvalidStringIndex {
      index := Decrement(index);
    }
    r := CopyHead(path, index);
  }

  /** `StripFileName`. */
  method StripFileName(path: Operand) returns (r: String)
    requires path.Valid() && |path.text| < InvalidStringIndex
    ensures fresh(r) && r.Terminated() && r.MaxSize() == path.Size()
    ensures r.Text() == StripFileNameText(path.text)
  {
    var index := FindLastOf(path.text, "\\/");
    if index != InvalidStringIndex {
      index := Decrement(index);
    }
    r := CopyHead(path, index);
  }

  /** `StripPath`. */
  method StripPath(path: Operand) returns (r: String)
    requires path.Valid() && |path.text| < InvalidStringIndex
    ensures fresh(r) && r.Terminated() && r.MaxSize() == path.Size()
    ensures r.Text() == StripPathText(path.text)
  {
    var index := FindLastOf(path.text, "\\/");
    if index == InvalidStringIndex {
      index := 0;
    }
    r := CopyTail(path, index);
  }

  /** `ExtensionOf`: empty when there is no `.`, else a copy from just after the last one. */
  method ExtensionOf(path: Operand) returns (r: String)
    requires path.Valid() && |path.text| < InvalidStringIndex
    ensures fresh(r) && r.Terminated() && r.MaxSize() == path.Size()
    ensures r.Text() == ExtensionOfText(path.text)
  {
    var index := FindLastOf(path.text, ".");
    if index == InvalidStringIndex {
      r := new String(path.Size());
      return;
    }
    r := CopyTail(path, index + 1);
  }

  // ---------------------------------------------------------------- what the Strip* texts lose

  /** As written, `StripExtension` loses the character just before the last `.`: put back,
      it and the dot and the extension rebuild the path. */
  lemma StripExtensionLosesOneChar(p: seq<char>)
    requires |p| < InvalidStringIndex
    requires FindLastOf(p, ".") != InvalidStringIndex && FindLastOf(p, ".") > 0
    ensures var k := FindLastOf(p, ".");
      |StripExtensionText(p)| == k - 1 &&
      StripExtensionText(p) + [p[k - 1]] + "." + ExtensionOfText(p) == p
  {
    var k := FindLastOf(p, ".");
    assert p == p[..k - 1] + [p[k - 1]] + [p[k]] + p[k + 1..];
  }

  /** `StripExtension("file.txt")` is `"fil"`. */
  lemma StripExtensionExample()
    ensures StripExtensionText("file.txt") == "fil"
  {
    assert FindLastOf("file.txt", ".") == 4 by {
      assert "file.txt"[4] in ".";
    }
  }

  /** As written, `StripFileName` loses the last character of the directory as well as the
      separator, and `StripPath` keeps the separator. */
  lemma StripFileNameAndPathAsWritten(p: seq<char>)
    requires |p| < InvalidStringIndex
    requires FindLastOf(p, "\\/") != InvalidStringIndex && FindLastOf(p, "\\/") > 0
    ensures var k := FindLastOf(p, "\\/");
      StripFileNameText(p) + [p[k - 1]] + StripPathText(p) == p &&
      StripPathText(p)[0] == p[k] && (p[k] == '/' || p[k] == '\\')
  {
    var k := FindLastOf(p, "\\/");
    var head, tail := p[..k - 1], p[k..];
    assert StripFileNameText(p) == head;
    assert StripPathText(p) == tail;
    assert p == head + [p[k - 1]] + tail;
    assert tail[0] == p[k] && p[k] in "\\/";
  }

  /** `StripFileName("dir/file")` is `"di"` and `StripPath("dir/file")` is `"/file"`. */
  lemma StripFileNameAndPathExample()
    ensures StripFileNameText("dir/file") == "di"
    ensures StripPathText("dir/file") == "/file"
  {
    assert FindLastOf("dir/file", "\\/") == 3 by {
      assert "dir/file"[3] in "\\/";
      assert "dir/file"[4] !in "\\/";
    }
  }

  /** `StripExtension` as its description reads: the path with the last `.` and what follows
      it removed. */
  function StripExtensionIntended(p: seq<char>): seq<char>
    requires |p| < InvalidStringIndex
  {
    var k := FindLastOf(p, ".");
    if k == InvalidStringIndex then p else p[..k]
  }

  /** `StripFileName` as its description reads where a separator exists: the directory,
      without the separator. */
  function StripFileNameIntended(p: seq<char>): seq<char>
    requires |p| < InvalidStringIndex
  {
    var k := FindLastOf(p, "\\/");
    if k == InvalidStringIndex then p else p[..k]
  }

  /** `StripPath` as its description reads: the file name only, empty when the path ends in a
      separator. */
  function StripPathIntended(p: seq<char>): seq<char>
    requires |p| < InvalidStringIndex
  {
    var k := FindLastOf(p, "\\/");
    if k == InvalidStringIndex then p else p[k + 1..]
  }

  /** The intended `StripExtension` and `ExtensionOf` split a path with a dot at its last
      dot: stem, dot and extension rebuild it, and the stem keeps every earlier character. */
  lemma StripExtensionIntendedSplits(p: seq<char>)
    requires |p| < InvalidStringIndex && '.' in p
    ensures StripExtensionIntended(p) + "." + ExtensionOfText(p) == p
    ensures '.' !in ExtensionOfText(p)
  {
    ExtensionOfSpec(p);
    var k := FindLastOf(p, ".");
    assert k != InvalidStringIndex;
    assert p == p[..k] + [p[k]] + p[k + 1..];
  }

  /** The intended `StripFileName` and `StripPath` split a path with a separator at its last
      separator: directory, separator and file name rebuild it, and the file name has no
      separator. */
  lemma StripIntendedSplits(p: seq<char>)
    requires |p| < InvalidStringIndex && ('/' in p || '\\' in p)
    ensures var k := FindLastOf(p, "\\/");
      k < |p| && StripFileNameIntended(p) + [p[k]] + StripPathIntended(p) == p &&
      '/' !in StripPathIntended(p) && '\\' !in StripPathIntended(p)
  {
    var k := FindLastOf(p, "\\/");
    assert k != InvalidStringIndex by {
      var j :| 0 <= j < |p| && (p[j] == '/' || p[j] == '\\');
      assert p[j] in "\\/";
    }
    var name := StripPathIntended(p);
    forall i | 0 <= i < |name|
      ensures name[i] != '/' && name[i] != '\\'
    {
      assert name[i] == p[k + 1 + i];
      assert p[k + 1 + i] !in "\\/";
    }
    assert p == p[..k] + [p[k]] + p[k + 1..];
  }
}
