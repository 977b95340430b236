/** The amalgamator: one pass over the root header that copies it to the output, replacing
    each `TBS_InjectFile` directive after the injection marker by the contents of the file
    named in the next `#include "..."`, less a leading `#pragma once` span. Reading a file is
    a lookup in `files`; writing the output is appending to a sequence. Where the program
    would dereference a null pointer or read past a buffer, the model reports a `Fault`. */
module Amalgamator {
  import opened FixedString

  const DefineDirective: seq<char> := "#define"
  const InjectToken: seq<char> := "TBS_InjectFile"
  const IncludeDirective: seq<char> := "#include"
  const PragmaOnce: seq<char> := "#pragma once"
  const SourcesDir: seq<char> := "Sources"

  /** `defineDirective * TBSInjectFile`: the injection marker `#define TBS_InjectFile`. */
  const Marker: seq<char> := DefineDirective + " " + InjectToken

  /** `defineTBSInjectFileStr.max_size()`: `String<8> * String<15>` is a `String<23>`, so the
      marker and the byte after it are skipped. */
  const MarkerSkip: nat := 23

  /** `pragmaOnceDirective.max_size()`: the guard and the byte after it are dropped. */
  const PragmaSkip: nat := 13

  /** The capacity of the `String<4096>` that holds the path of a file to inject. */
  const PathSize: nat := 4096

  datatype Option<T> = None | Some(value: T)

  /** The points at which the program would crash or read outside a buffer. */
  datatype Fault =
    | MarkerAtEnd                // the marker ends the file: the cursor lands past the terminator
    | NoInclude                  // no `#include` after the cursor: `strchr(nullptr, ...)`
    | NoOpeningQuote             // no `"` after the `#include`
    | NoClosingQuote             // no second `"`
    | Unreadable(path: seq<char>)    // `ReadFile` gives a null buffer
    | GuardBeyondEnd(path: seq<char>) // a file that is just `#pragma once`: the size underflows

  datatype Result<T> = Ok(value: T) | Err(fault: Fault)

  /** Output already written, followed by what the rest of the run produces. */
  function Prepend(out: seq<char>, rest: Result<seq<char>>): Result<seq<char>> {
    match rest
    case Ok(s) => Ok(out + s)
    case Err(f) => Err(f)
  }

  // ---------------------------------------------------------------- strstr and strchr

  /** `pat` occurs in `s` at position `i`. */
  predicate IsAt(s: seq<char>, pat: seq<char>, i: nat) {
    i + |pat| <= |s| && MatchesFrom(s, pat, i, 0)
  }

  /** The characters of `pat` from the `k`-th on agree with `s` from `i + k`, compared one
      at a time as `strstr` does. */
  predicate MatchesFrom(s: seq<char>, pat: seq<char>, i: nat, k: nat)
    requires i + |pat| <= |s| && k <= |pat|
    decreases |pat| - k
  {
    k == |pat| || (s[i + k] == pat[k] && MatchesFrom(s, pat, i, k + 1))
  }

  lemma {:induction false} MatchesFromAll(s: seq<char>, pat: seq<char>, i: nat, k: nat)
    requires i + |pat| <= |s| && k <= |pat|
    ensures MatchesFrom(s, pat, i, k) <==> forall j :: k <= j < |pat| ==> s[i + j] == pat[j]
    decreases |pat| - k
  {
    if k < |pat| {
      MatchesFromAll(s, pat, i, k + 1);
    }
  }

  /** `IsAt` is the slice comparison. */
  lemma IsAtSlice(s: seq<char>, pat: seq<char>, i: nat)
    ensures IsAt(s, pat, i) <==> i + |pat| <= |s| && s[i..i + |pat|] == pat
  {
    if i + |pat| <= |s| {
      MatchesFromAll(s, pat, i, 0);
      if s[i..i + |pat|] == pat {
        var slice := s[i..i + |pat|];
        assert forall j :: 0 <= j < |pat| ==> s[i + j] == slice[j];
      }
    }
  }

  /** `strstr(s + from, pat)`: the first occurrence of `pat` at or after `from`. */
  function Find(s: seq<char>, pat: seq<char>, from: nat): (r: Option<nat>)
    requires from <= |s|
    ensures r.Some? ==> from <= r.value && IsAt(s, pat, r.value)
    decreases |s| - from
  {
    if IsAt(s, pat, from) then Some(from)
    else if from == |s| then None
    else Find(s, pat, from + 1)
  }

  /** What `Find` finds is the first occurrence; when it finds nothing there is none. */
  lemma {:induction false} FindIsFirst(s: seq<char>, pat: seq<char>, from: nat)
    requires from <= |s|
    ensures forall i :: from <= i && (Find(s, pat, from).None? || i < Find(s, pat, from).value) ==> !IsAt(s, pat, i)
    decreases |s| - from
  {
    if !IsAt(s, pat, from) && from < |s| {
      FindIsFirst(s, pat, from + 1);
    }
  }

  /** `strchr(s + from, c)`: the first `c` at or after `from`. */
  function FindChar(s: seq<char>, c: char, from: nat): (r: Option<nat>)
    requires from <= |s|
    ensures r.Some? ==> from <= r.value < |s| && s[r.value] == c
    decreases |s| - from
  {
    if from == |s| then None
    else if s[from] == c then Some(from)
    else FindChar(s, c, from + 1)
  }

  /** What `FindChar` finds is the first `c`; when it finds nothing there is none. */
  lemma {:induction false} FindCharIsFirst(s: seq<char>, c: char, from: nat)
    requires from <= |s|
    ensures forall i :: from <= i < |s| && (FindChar(s, c, from).None? || i < FindChar(s, c, from).value) ==> s[i] != c
    decreases |s| - from
  {
    if from < |s| && s[from] != c {
      FindCharIsFirst(s, c, from + 1);
    }
  }

  /** `strstr(s, pat) != nullptr`. */
  predicate Contains(s: seq<char>, pat: seq<char>) {
    Find(s, pat, 0).Some?
  }

  // ---------------------------------------------------------------- one directive

  /** The `#include` found from the cursor and the two quotes around the file name. */
  datatype Include = Include(directive: nat, open: nat, close: nat)

  /** From the cursor `p`: the next `#include`, the first `"` after it and the next `"`. The
      search starts at the cursor, not at the `TBS_InjectFile` token, and the new cursor,
      just past the closing quote, is beyond the old one. */
  function LocateInclude(root: seq<char>, p: nat): (r: Result<Include>)
    requires p <= |root|
    ensures r.Ok? ==>
      var d := r.value;
      p <= d.directive <= d.open < d.close < |root| && IsAt(root, IncludeDirective, d.directive) &&
      root[d.open] == '"' && root[d.close] == '"'
  {
    match Find(root, IncludeDirective, p)
    case None => Err(NoInclude)
    case Some(directive) =>
      match FindChar(root, '"', directive)
      case None => Err(NoOpeningQuote)
      case Some(open) =>
        match FindChar(root, '"', open + 1)
        case None => Err(NoClosingQuote)
        case Some(close) => Ok(Include(directive, open, close))
  }

  /** Each fault names the search that failed, and a located directive is the first
      `#include` from the cursor, with no quote between it and the opening quote nor
      inside the name. */
  lemma LocateIncludeFirst(root: seq<char>, p: nat)
    requires p <= |root|
    ensures LocateInclude(root, p) == Err(NoInclude) <==> Find(root, IncludeDirective, p).None?
    ensures LocateInclude(root, p).Ok? ==>
      var d := LocateInclude(root, p).value;
      Find(root, IncludeDirective, p) == Some(d.directive) &&
      (forall i :: d.directive <= i < d.open ==> root[i] != '"') &&
      (forall i :: d.open < i < d.close ==> root[i] != '"')
  {
    var directive := Find(root, IncludeDirective, p);
    if directive.Some? {
      FindCharIsFirst(root, '"', directive.value);
      var open := FindChar(root, '"', directive.value);
      if open.Some? {
        FindCharIsFirst(root, '"', open.value + 1);
      }
    }
  }

  /** The path that is read: `Sources`, `/`, then the quoted name, in a `String<4096>`. */
  function InjectPath(name: seq<char>): (path: seq<char>)
  {
    (SourcesDir + "/" + name)[..Min(|name| + 8, PathSize - 1)]
  }

  /** A name that fits is read as `Sources/<name>`; a longer one is cut so that the path,
      always under `Sources/`, stays within the 4095 characters the buffer holds. */
  lemma InjectPathShape(name: seq<char>)
    ensures |name| + 8 < PathSize ==> InjectPath(name) == SourcesDir + "/" + name
    ensures |InjectPath(name)| < PathSize && SourcesDir + "/" <= InjectPath(name)
    ensures |name| + 8 >= PathSize ==> InjectPath(name) == SourcesDir + "/" + name[..PathSize - 9]
  {
    var full := SourcesDir + "/" + name;
    if |name| + 8 >= PathSize {
      assert full[..PathSize - 1] == SourcesDir + "/" + name[..PathSize - 9];
    }
  }

  /** What is emitted for a file: all of it, unless `#pragma once` occurs anywhere in it, in
      which case the first 13 bytes are dropped whatever they are. */
  function Injected(path: seq<char>, content: seq<char>): (r: Result<seq<char>>)
  {
    if Contains(content, PragmaOnce) then
      if |content| < PragmaSkip then Err(GuardBeyondEnd(path)) else Ok(content[PragmaSkip..])
    else Ok(content)
  }

  /** What is emitted is the file itself or the file less its first 13 bytes; a header that
      starts with the guard and a line break is emitted from the following line on, and a
      file without the guard is emitted whole. */
  lemma InjectedSuffix(path: seq<char>, content: seq<char>, body: seq<char>, brk: char)
    ensures Injected(path, content).Ok? ==>
      var v := Injected(path, content).value;
      (v == content || (|content| >= PragmaSkip && v == content[PragmaSkip..]))
    ensures Injected(path, content).Err? <==> Contains(content, PragmaOnce) && |content| < PragmaSkip
    ensures !Contains(content, PragmaOnce) ==> Injected(path, content) == Ok(content)
    ensures Contains(content, PragmaOnce) && |content| >= PragmaSkip ==>
      Injected(path, content) == Ok(content[PragmaSkip..])
    ensures content == PragmaOnce + [brk] + body ==> Injected(path, content) == Ok(body)
  {
    if content == PragmaOnce + [brk] + body {
      assert content[..|PragmaOnce|] == PragmaOnce;
      IsAtSlice(content, PragmaOnce, 0);
      assert content[PragmaSkip..] == body;
    }
  }

  /** `ReadFile(path)` followed by the guard check: the text that is written for `path`. It
      succeeds only for a file that exists, with the whole file or the file less its first
      13 bytes, and it fails exactly for a missing file or a guarded file too short to skip. */
  function Load(files: map<seq<char>, seq<char>>, path: seq<char>): (r: Result<seq<char>>)
    ensures path !in files ==> r == Err(Unreadable(path))
    ensures path in files ==> r == Injected(path, files[path])
    ensures r.Ok? ==>
      path in files &&
      (r.value == files[path] || (|files[path]| >= PragmaSkip && r.value == files[path][PragmaSkip..]))
    ensures r.Err? <==> path !in files || (Contains(files[path], PragmaOnce) && |files[path]| < PragmaSkip)
  {
    if path !in files then Err(Unreadable(path)) else Injected(path, files[path])
  }

  // ---------------------------------------------------------------- the whole pass

  /** What the loop finds from cursor `p`: no further `TBS_InjectFile` (the loop ends), a
      fault while locating the `#include`, or the token at `next` and its `#include`. */
  datatype Step = Done | Failed(fault: Fault) | Directive(next: nat, found: Include)

  function NextStep(root: seq<char>, p: nat): (s: Step)
    requires p <= |root|
    ensures s.Directive? ==> p <= s.next <= |root| && p <= s.found.open < s.found.close < |root|
  {
    match Find(root, InjectToken, p)
    case None => Done
    case Some(next) =>
      match LocateInclude(root, p)
      case Err(f) => Failed(f)
      case Ok(d) => Directive(next, d)
  }

  /** The loop ends exactly when no `TBS_InjectFile` follows the cursor; otherwise the step is
      the first token from the cursor with the `#include` located from the cursor, or the
      fault met while locating it. */
  lemma NextStepCases(root: seq<char>, p: nat)
    requires p <= |root|
    ensures NextStep(root, p).Done? <==> Find(root, InjectToken, p).None?
    ensures NextStep(root, p).Directive? ==>
      Find(root, InjectToken, p) == Some(NextStep(root, p).next) &&
      LocateInclude(root, p) == Ok(NextStep(root, p).found)
    ensures NextStep(root, p).Failed? ==>
      Find(root, InjectToken, p).Some? && LocateInclude(root, p) == Err(NextStep(root, p).fault)
  {
  }

  /** The quoted file name of a directive, as a path under `Sources`. */
  function RequestedPath(root: seq<char>, d: Include): seq<char>
    requires d.open < d.close <= |root|
  {
    InjectPath(root[d.open + 1..d.close])
  }

  /** The output from cursor `p` on: while a `TBS_InjectFile` follows, the root up to it,
      then the injected file, then the output from past the closing quote; after the last
      one a newline and the rest of the root. Injected text is never searched. */
  function Splice(root: seq<char>, files: map<seq<char>, seq<char>>, p: nat): Result<seq<char>>
    requires p <= |root|
    decreases |root| - p
  {
    match NextStep(root, p)
    case Done => Ok(['\n'] + root[p..])
    case Failed(f) => Err(f)
    case Directive(next, d) =>
      match Load(files, RequestedPath(root, d))
      case Err(f) => Err(f)
      case Ok(content) => Prepend(root[p..next] + content, Splice(root, files, d.close + 1))
  }

  /** Where the cursor stops: the position after the last directive the root yields. */
  function FinalCursor(root: seq<char>, p: nat): (q: nat)
    requires p <= |root|
    ensures p <= q <= |root|
    decreases |root| - p
  {
    match NextStep(root, p)
    case Directive(_, d) => FinalCursor(root, d.close + 1)
    case _ => p
  }

  /** The merged output of the root `root`, or the fault at which the program would fail.
      Without the marker the root is copied through; with it, the root before the marker
      comes first, and the marker and the byte after it are not written. */
  function Amalgamate(root: seq<char>, files: map<seq<char>, seq<char>>): (r: Result<seq<char>>)
    ensures !Contains(root, Marker) ==> r == Ok(root)
    ensures Contains(root, Marker) && r.Ok? ==>
      var m := Find(root, Marker, 0).value;
      m + MarkerSkip <= |root| && root[..m] <= r.value
  {
    match Find(root, Marker, 0)
    case None => Ok(root)
    case Some(m) =>
      if m + MarkerSkip > |root| then Err(MarkerAtEnd)
      else Prepend(root[..m], Splice(root, files, m + MarkerSkip))
  }

  // ---------------------------------------------------------------- properties

  /** The paths read from `p` on, in order; they depend on the root alone. */
  function Requests(root: seq<char>, p: nat): seq<seq<char>>
    requires p <= |root|
    decreases |root| - p
  {
    match NextStep(root, p)
    case Directive(_, d) => [RequestedPath(root, d)] + Requests(root, d.close + 1)
    case _ => []
  }

  /** Single-level inlining: which files are read is decided by the root alone, so two file
      maps that agree on those paths give the same output, whatever directives the injected
      texts themselves hold. */
  lemma {:induction false} SpliceReadsOnlyRequests(root: seq<char>, files1: map<seq<char>, seq<char>>,
                                                   files2: map<seq<char>, seq<char>>, p: nat)
    requires p <= |root|
    requires AgreeOnAll(files1, files2, Requests(root, p))
    ensures Splice(root, files1, p) == Splice(root, files2, p)
    decreases |root| - p
  {
    if NextStep(root, p).Directive? {
      RequestsStep(root, files1, files2, p);
      SpliceReadsOnlyRequests(root, files1, files2, NextStep(root, p).found.close + 1);
      SameStep(root, files1, files2, p);
    } else {
      SpliceNoDirective(root, files1, files2, p);
    }
  }

  /** The first path requested from `p` is the directive's, and the rest are from past it. */
  lemma RequestsStep(root: seq<char>, files1: map<seq<char>, seq<char>>, files2: map<seq<char>, seq<char>>, p: nat)
    requires p <= |root| && NextStep(root, p).Directive?
    requires AgreeOnAll(files1, files2, Requests(root, p))
    ensures var d := NextStep(root, p).found;
      Agree(files1, files2, RequestedPath(root, d)) && AgreeOnAll(files1, files2, Requests(root, d.close + 1))
  {
    assert Requests(root, p)[1..] == Requests(root, NextStep(root, p).found.close + 1);
  }

  /** Where no directive follows, no file is read. */
  lemma SpliceNoDirective(root: seq<char>, files1: map<seq<char>, seq<char>>, files2: map<seq<char>, seq<char>>, p: nat)
    requires p <= |root| && !NextStep(root, p).Directive?
    ensures Splice(root, files1, p) == Splice(root, files2, p)
  {
  }

  /** The two file maps hold the same file, or both lack it, at `path`. */
  predicate Agree(files1: map<seq<char>, seq<char>>, files2: map<seq<char>, seq<char>>, path: seq<char>) {
    (path in files1 <==> path in files2) && (path in files1 ==> files1[path] == files2[path])
  }

  /** The two file maps agree at every path of `paths`. */
  predicate AgreeOnAll(files1: map<seq<char>, seq<char>>, files2: map<seq<char>, seq<char>>, paths: seq<seq<char>>) {
    |paths| == 0 || (Agree(files1, files2, paths[0]) && AgreeOnAll(files1, files2, paths[1..]))
  }

  /** One step of the above: the same text loaded and the same rest give the same output. */
  lemma SameStep(root: seq<char>, files1: map<seq<char>, seq<char>>, files2: map<seq<char>, seq<char>>, p: nat)
    requires p <= |root| && NextStep(root, p).Directive?
    requires var d := NextStep(root, p).found;
      Agree(files1, files2, RequestedPath(root, d)) &&
      Splice(root, files1, d.close + 1) == Splice(root, files2, d.close + 1)
    ensures Splice(root, files1, p) == Splice(root, files2, p)
  {
  }

  /** After the last directive the output is a newline and then the root from the final
      cursor on, unchanged: it is `before` followed by that tail. */
  lemma {:induction false} SpliceEndsWithTail(root: seq<char>, files: map<seq<char>, seq<char>>, p: nat)
    returns (before: seq<char>)
    requires p <= |root|
    ensures Splice(root, files, p).Ok? ==>
      Splice(root, files, p).value == before + (['\n'] + root[FinalCursor(root, p)..])
    decreases |root| - p
  {
    if NextStep(root, p).Directive? {
      var rest := SpliceEndsWithTail(root, files, NextStep(root, p).found.close + 1);
      before := EndsWithTailStep(root, files, p, rest);
    } else {
      before := EndsWithTailLast(root, files, p);
    }
  }

  /** `SpliceEndsWithTail` where no directive follows: nothing comes before the tail. */
  lemma EndsWithTailLast(root: seq<char>, files: map<seq<char>, seq<char>>, p: nat) returns (before: seq<char>)
    requires p <= |root| && !NextStep(root, p).Directive?
    ensures Splice(root, files, p).Ok? ==> Splice(root, files, p).value == before + (['\n'] + root[FinalCursor(root, p)..])
  {
    before := [];
    if NextStep(root, p).Done? {
      SpliceDone(root, files, p);
    }
  }

  /** The induction step of `SpliceEndsWithTail`. */
  lemma EndsWithTailStep(root: seq<char>, files: map<seq<char>, seq<char>>, p: nat, rest: seq<char>)
    returns (before: seq<char>)
    requires p <= |root| && NextStep(root, p).Directive?
    requires var q := NextStep(root, p).found.close + 1;
      Splice(root, files, q).Ok? ==> Splice(root, files, q).value == rest + (['\n'] + root[FinalCursor(root, q)..])
    ensures Splice(root, files, p).Ok? ==> Splice(root, files, p).value == before + (['\n'] + root[FinalCursor(root, p)..])
  {
    before := [];
    if Splice(root, files, p).Ok? {
      var q := NextStep(root, p).found.close + 1;
      var written := SpliceOkStep(root, files, p);
      before := written + rest;
      Associative(written, rest, ['\n'] + root[FinalCursor(root, q)..]);
    }
  }

  lemma Associative(a: seq<char>, b: seq<char>, c: seq<char>)
    ensures a + (b + c) == (a + b) + c
  {
  }

  /** A successful step: what it writes, then a successful rest. */
  lemma SpliceOkStep(root: seq<char>, files: map<seq<char>, seq<char>>, p: nat) returns (written: seq<char>)
    requires p <= |root| && NextStep(root, p).Directive? && Splice(root, files, p).Ok?
    ensures var q := NextStep(root, p).found.close + 1;
      FinalCursor(root, p) == FinalCursor(root, q) && Splice(root, files, q).Ok? &&
      Splice(root, files, p).value == written + Splice(root, files, q).value
  {
    var s := NextStep(root, p);
    SpliceUnfold(root, files, p);
    written := root[p..s.next] + Load(files, RequestedPath(root, s.found)).value;
  }

  /** Each step writes the root from the cursor up to the token unchanged, then the injected
      text, and moves the cursor past the closing quote, beyond the old cursor. */
  lemma SpliceStep(root: seq<char>, files: map<seq<char>, seq<char>>, p: nat)
    requires p <= |root| && NextStep(root, p).Directive?
    ensures var s := NextStep(root, p);
      p < s.found.close + 1 <= |root| &&
      (Load(files, RequestedPath(root, s.found)).Err? ==>
        Splice(root, files, p) == Err(Load(files, RequestedPath(root, s.found)).fault)) &&
      (Load(files, RequestedPath(root, s.found)).Ok? && Splice(root, files, p).Ok? ==>
        root[p..s.next] + Load(files, RequestedPath(root, s.found)).value <= Splice(root, files, p).value)
  {
  }

  /** `Splice` at a directive, one level unfolded. */
  lemma SpliceUnfold(root: seq<char>, files: map<seq<char>, seq<char>>, p: nat)
    requires p <= |root| && NextStep(root, p).Directive?
    ensures var d := NextStep(root, p).found; var next := NextStep(root, p).next;
      Splice(root, files, p) == match Load(files, RequestedPath(root, d))
        case Err(f) => Err(f)
        case Ok(content) => Prepend(root[p..next] + content, Splice(root, files, d.close + 1))
  {
  }

  /** A root with the marker and exactly one directive, whose file has no guard: the output is
      the root before the marker, the root between marker and directive, the file, a newline
      and the root after the closing quote. */
  lemma OneDirective(root: seq<char>, files: map<seq<char>, seq<char>>, m: nat, next: nat, d: Include)
    requires Find(root, Marker, 0) == Some(m) && m + MarkerSkip <= |root|
    requires NextStep(root, m + MarkerSkip) == Directive(next, d) && NextStep(root, d.close + 1).Done?
    requires RequestedPath(root, d) in files && !Contains(files[RequestedPath(root, d)], PragmaOnce)
    ensures Amalgamate(root, files) ==
      Ok(root[..m] + ((root[m + MarkerSkip..next] + files[RequestedPath(root, d)]) + (['\n'] + root[d.close + 1..])))
  {
    SpliceLast(root, files, m + MarkerSkip, next, d);
    AmalgamateUnfold(root, files, m);
  }

  /** `Splice` at the last directive, whose file has no guard. */
  lemma SpliceLast(root: seq<char>, files: map<seq<char>, seq<char>>, p: nat, next: nat, d: Include)
    requires p <= |root| && NextStep(root, p) == Directive(next, d) && NextStep(root, d.close + 1).Done?
    requires RequestedPath(root, d) in files && !Contains(files[RequestedPath(root, d)], PragmaOnce)
    ensures Splice(root, files, p) == Ok((root[p..next] + files[RequestedPath(root, d)]) + (['\n'] + root[d.close + 1..]))
  {
    SpliceLoaded(root, files, p, next, d, files[RequestedPath(root, d)]);
    SpliceDone(root, files, d.close + 1);
  }

  /** `Splice` where no directive follows. */
  lemma SpliceDone(root: seq<char>, files: map<seq<char>, seq<char>>, p: nat)
    requires p <= |root| && NextStep(root, p).Done?
    ensures Splice(root, files, p) == Ok(['\n'] + root[p..])
  {
  }

  /** `Amalgamate` where the marker is found at `m`. */
  lemma AmalgamateUnfold(root: seq<char>, files: map<seq<char>, seq<char>>, m: nat)
    requires Find(root, Marker, 0) == Some(m) && m + MarkerSkip <= |root|
    ensures Amalgamate(root, files) == Prepend(root[..m], Splice(root, files, m + MarkerSkip))
  {
  }

  /** Running the amalgamator on an output that holds no marker gives it back unchanged. */
  lemma AmalgamateIdempotent(root: seq<char>, files: map<seq<char>, seq<char>>)
    requires Amalgamate(root, files).Ok?
    requires !Contains(Amalgamate(root, files).value, Marker)
    ensures Amalgamate(Amalgamate(root, files).value, files) == Amalgamate(root, files)
  {
  }

  // ---------------------------------------------------------------- the program

  /** `String<4096> fileToInject = sourcesDir; append("/"); append(filenameBegin + 1, len)`
      gives `InjectPath` of the quoted name. */
  lemma FileToInjectText(root: seq<char>, open: nat, close: nat)
    requires open < close <= |root|
    ensures var first := Appended(SourcesDir, PathSize, "/", InvalidStringIndex, 0);
      |first| < PathSize &&
      Appended(first, PathSize, root[open + 1..], close - open - 1, 0) == InjectPath(root[open + 1..close])
  {
    AppendedFits(SourcesDir, PathSize, "/");
    var src := root[open + 1..];
    var n := CopyCount(PathSize, |src|, 8, Requested(src, close - open - 1), 0);
    assert n == Min(close - open - 1, PathSize - 1 - 8);
    assert src[..n] == root[open + 1..close][..n];
  }

  /** The path of the file to inject, built in a `String<4096>` from `sourcesDir`. */
  method FileToInject(sourcesDir: String, root: seq<char>, open: nat, close: nat) returns (path: seq<char>)
    requires sourcesDir.Terminated() && sourcesDir.Text() == SourcesDir
    requires NulFree(root) && open < close < |root|
    ensures path == InjectPath(root[open + 1..close])
  {
    var fileToInject := new String.FromText(PathSize, sourcesDir.Text());
    fileToInject.Append("/", InvalidStringIndex, 0);
    fileToInject.Append(root[open + 1..], close - open - 1, 0);
    FileToInjectText(root, open, close);
    path := fileToInject.Text();
  }

  /** The bytes of `buffer` that are written: from `pBuffer`, `bufferSize` of them. */
  method Strip(pragmaOnceDirective: String, path: seq<char>, buffer: seq<char>) returns (r: Result<seq<char>>)
    requires pragmaOnceDirective.Terminated() && pragmaOnceDirective.Text() == PragmaOnce
    requires pragmaOnceDirective.MaxSize() == PragmaSkip
    ensures r == Injected(path, buffer)
  {
    var pBuffer, bufferSize := 0, |buffer|;
    if Find(buffer, pragmaOnceDirective.Text(), 0).Some? {
      if bufferSize < pragmaOnceDirective.MaxSize() {
        return Err(GuardBeyondEnd(path));
      }
      pBuffer := pBuffer + pragmaOnceDirective.MaxSize();
      bufferSize := bufferSize - pragmaOnceDirective.MaxSize();
    }
    assert buffer[pBuffer..pBuffer + bufferSize] == buffer[pBuffer..];
    r := Ok(buffer[pBuffer..pBuffer + bufferSize]);
  }

  /** From the cursor: `strstr` for `#include`, then `strchr` for the two quotes. */
  method Locate(root: seq<char>, p: nat, includeDirective: String) returns (r: Result<Include>)
    requires p <= |root|
    requires includeDirective.Terminated() && includeDirective.Text() == IncludeDirective
    ensures r == LocateInclude(root, p)
  {
    var directive := Find(root, includeDirective.Text(), p);
    if directive.None? {
      return Err(NoInclude);
    }
    var filenameBegin := FindChar(root, '"', directive.value);
    if filenameBegin.None? {
      return Err(NoOpeningQuote);
    }
    var filenameEnd := FindChar(root, '"', filenameBegin.value + 1);
    if filenameEnd.None? {
      return Err(NoClosingQuote);
    }
    r := Ok(Include(directive.value, filenameBegin.value, filenameEnd.value));
  }

  /** One turn of the inject loop, entered with `pNext` at a `TBS_InjectFile` token: the root
      up to the token, then the `#include` and its quotes, then the file. `q` is the new cursor. */
  method InjectNext(root: seq<char>, files: map<seq<char>, seq<char>>, p: nat, pNext: nat,
                    sourcesDir: String, includeDirective: String, pragmaOnceDirective: String)
    returns (r: Result<seq<char>>, q: nat)
    requires NulFree(root) && p <= |root| && Find(root, InjectToken, p) == Some(pNext)
    requires sourcesDir.Terminated() && sourcesDir.Text() == SourcesDir
    requires includeDirective.Terminated() && includeDirective.Text() == IncludeDirective
    requires pragmaOnceDirective.Terminated() && pragmaOnceDirective.Text() == PragmaOnce
    requires pragmaOnceDirective.MaxSize() == PragmaSkip
    ensures r.Err? ==> Splice(root, files, p) == Err(r.fault)
    ensures r.Ok? ==> p < q <= |root| && Splice(root, files, p) == Prepend(r.value, Splice(root, files, q))
  {
    var written := root[p..pNext];
    q := p;
    var located := Locate(root, p, includeDirective);
    if located.Err? {
      return Err(located.fault), q;
    }
    var d := located.value;
    assert NextStep(root, p) == Directive(pNext, d);
    q := d.close + 1;
    var path := FileToInject(sourcesDir, root, d.open, d.close);
    if path !in files {
      return Err(Unreadable(path)), q;
    }
    var content := Strip(pragmaOnceDirective, path, files[path]);
    assert content == Load(files, RequestedPath(root, d));
    if content.Err? {
      return Err(content.fault), q;
    }
    r := Ok(written + content.value);
    SpliceLoaded(root, files, p, pNext, d, content.value);
  }

  /** `Splice` at a directive whose file loads as `content`. */
  lemma SpliceLoaded(root: seq<char>, files: map<seq<char>, seq<char>>, p: nat, next: nat, d: Include, content: seq<char>)
    requires p <= |root| && NextStep(root, p) == Directive(next, d)
    requires Load(files, RequestedPath(root, d)) == Ok(content)
    ensures Splice(root, files, p) == Prepend(root[p..next] + content, Splice(root, files, d.close + 1))
  {
    SpliceUnfold(root, files, p);
  }

  /** Nothing written yet. */
  lemma PrependNothing(rest: Result<seq<char>>)
    ensures Prepend([], rest) == rest
  {
    if rest.Ok? {
      assert [] + rest.value == rest.value;
    }
  }

  /** Output written in two pieces. */
  lemma PrependTwice(out: seq<char>, piece: seq<char>, rest: Result<seq<char>>)
    ensures Prepend(out, Prepend(piece, rest)) == Prepend(out + piece, rest)
  {
    if rest.Ok? {
      assert out + (piece + rest.value) == (out + piece) + rest.value;
    }
  }

  /** The inject loop from cursor `p`, with its look-ahead `pNext`, then the tail: a newline
      and the rest of the root. The output written from `p` on is `out`. */
  method InjectFrom(root: seq<char>, files: map<seq<char>, seq<char>>, p: nat, sourcesDir: String,
                    includeDirective: String, pragmaOnceDirective: String, tbsInjectFile: String)
    returns (r: Result<seq<char>>)
    requires NulFree(root) && p <= |root|
    requires sourcesDir.Terminated() && sourcesDir.Text() == SourcesDir
    requires includeDirective.Terminated() && includeDirective.Text() == IncludeDirective
    requires pragmaOnceDirective.Terminated() && pragmaOnceDirective.Text() == PragmaOnce
    requires pragmaOnceDirective.MaxSize() == PragmaSkip
    requires tbsInjectFile.Terminated() && tbsInjectFile.Text() == InjectToken
    ensures r == Splice(root, files, p)
  {
    var out := [];
    PrependNothing(Splice(root, files, p));
    var cursor := p;
    var pNext := Find(root, tbsInjectFile.Text(), cursor);
    while pNext.Some?
      invariant cursor <= |root|
      invariant pNext == Find(root, InjectToken, cursor)
      invariant Splice(root, files, p) == Prepend(out, Splice(root, files, cursor))
      decreases |root| - cursor
    {
      var written, q := InjectNext(root, files, cursor, pNext.value, sourcesDir, includeDirective, pragmaOnceDirective);
      if written.Err? {
        return Err(written.fault);
      }
      PrependTwice(out, written.value, Splice(root, files, q));
      out := out + written.value;
      cursor := q;
      pNext := Find(root, tbsInjectFile.Text(), cursor);
    }
    SpliceDone(root, files, cursor);
    PrependTwice(out, ['\n'], Ok(root[cursor..]));
    out := out + ['\n'];
    out := out + root[cursor..];
    r := Ok(out);
  }

  /** A `String<size>` initialised from a literal that fits. */
  method FromLiteral(size: nat, s: seq<char>) returns (t: String)
    requires |s| < size && NulFree(s)
    ensures fresh(t.mString) && t.Terminated() && t.Text() == s && t.MaxSize() == size
  {
    t := new String.FromText(size, s);
    assert s[..Min(|s|, size - 1)] == s;
  }

  /** The constant strings `main` declares, and the marker `defineDirective * TBSInjectFile`. */
  method Directives() returns (sourcesDir: String, includeDirective: String, pragmaOnceDirective: String,
                               tbsInjectFile: String, marker: String)
    ensures sourcesDir.Terminated() && sourcesDir.Text() == SourcesDir
    ensures includeDirective.Terminated() && includeDirective.Text() == IncludeDirective
    ensures pragmaOnceDirective.Terminated() && pragmaOnceDirective.Text() == PragmaOnce
    ensures pragmaOnceDirective.MaxSize() == PragmaSkip
    ensures tbsInjectFile.Terminated() && tbsInjectFile.Text() == InjectToken
    ensures marker.Terminated() && marker.Text() == Marker && marker.MaxSize() == MarkerSkip
  {
    sourcesDir := FromLiteral(8, SourcesDir);
    includeDirective := FromLiteral(9, IncludeDirective);
    pragmaOnceDirective := FromLiteral(13, PragmaOnce);
    var defineDirective := FromLiteral(8, DefineDirective);
    tbsInjectFile := FromLiteral(15, InjectToken);
    marker := Times(Of(defineDirective), Of(tbsInjectFile));
  }

  /** `main` from reading the root on: the marker search, the root before the marker, and the
      inject loop from just past the marker's `max_size()`. */
  method Generate(root: seq<char>, files: map<seq<char>, seq<char>>) returns (r: Result<seq<char>>)
    requires NulFree(root)
    ensures r == Amalgamate(root, files)
  {
    var sourcesDir, includeDirective, pragmaOnceDirective, tbsInjectFile, defineTBSInjectFileStr := Directives();
    var injectDirective := Find(root, defineTBSInjectFileStr.Text(), 0);
    if injectDirective.None? {
      return Ok(root);
    }
    var out := root[..injectDirective.value];
    var p := injectDirective.value + defineTBSInjectFileStr.MaxSize();
    if p > |root| {
      return Err(MarkerAtEnd);
    }
    AmalgamateUnfold(root, files, injectDirective.value);
    var rest := InjectFrom(root, files, p, sourcesDir, includeDirective, pragmaOnceDirective, tbsInjectFile);
    r := Prepend(out, rest);
  }
}
