# Trauma Build System: amalgamator, fixed-capacity string and path helpers

This project models three parts of the Trauma Build System in Dafny and proves properties
of the model.

- **The amalgamator** (`Sources/GenerateTBS.cpp`, module `Amalgamator`, file
  `amalgamator.dfy`). This program merges the build system's root header into one file.
  - If the root holds no `#define TBS_InjectFile`, it copies the root through unchanged.
  - Otherwise it writes the root up to that marker and skips the marker's `max_size()`
    (23 bytes).
  - For every later `TBS_InjectFile` token it writes the root up to the token. It then
    finds the next `#include "..."` from the cursor, reads `Sources/<name>` and writes that
    file. If `#pragma once` occurs anywhere in the file, its first 13 bytes are dropped.
  - After the last token it writes a newline and the rest of the root.

  `Amalgamate` is the pure recursive definition. `Generate` is the program's loop, with its
  cursor, its look-ahead and its output, proved equal to it. Reading a file is a lookup in a
  map from paths to contents. Writing the output is appending to a sequence.
- **`String<MaxSize>`** (`Sources/String.hpp`, module `FixedString`, file
  `fixed_string.dfy`). A class over a NUL-terminated `array<char>` of `MaxSize`
  characters. It has the bounded `copy`, `append` built on `copy`, `length`, `is_empty`,
  indexing, the two character-set scans and the operators `+`, `*` (space) and `/` (slash).
  A string argument (`const char (&)[N]` or `String<N>`) is an `Operand`.
- **The path and flag helpers** (`Sources/TraumaBuildSystem.hpp`, module `PathHelpers`,
  file `path_helpers.dfy`):
  - `StrCat` and the `As*` compiler-flag prefixes;
  - `ToWinPath` and `ToProperPath`;
  - `AsPath`, and the part of `AsAbsolutePath` up to its level count;
  - `StripExtension`, `StripFileName`, `StripPath` and `ExtensionOf`;
  - the three path predicates.

C strings are modelled as sequences without a NUL. `InvalidStringIndex` is 2^64 - 1. The
places where the amalgamator would dereference a null pointer or read outside a buffer are
modelled as values of the datatype `Fault`, in the error case of a `Result`:
- no `#include`;
- no opening or closing quote;
- a file that cannot be read;
- a guarded file shorter than 13 bytes;
- a marker at the very end of the root.

## Model

| member | source | states |
|---|---|---|
| Amalgamator.Generate | Sources/GenerateTBS.cpp:27-67 | The whole program from reading the root on produces exactly `Amalgamate(root, files)`, output and faults alike. |
| Amalgamator.Amalgamate | Sources/GenerateTBS.cpp:29-67 | A root without the marker is copied through unchanged. With the marker at `m`, a successful output starts with `root[..m]`, and `m + 23` lies within the root. |
| Amalgamator.AmalgamateUnfold | Sources/GenerateTBS.cpp:32-36 | With the marker at `m`, the output is the root before `m` followed by what the loop produces from `m + 23`. The marker and the byte after it are never written. One-step unfolding of the definition, used by the proofs. |
| Amalgamator.AmalgamateIdempotent | Sources/GenerateTBS.cpp:66-67 | Running the amalgamator again on an output that holds no marker gives the same output back. |
| Amalgamator.Splice | Sources/GenerateTBS.cpp:37-64 | Definition, no contract. From cursor `p`: with no further token, a newline and `root[p..]`. On a fault, the fault. Otherwise `root[p..next]`, the loaded file, and the same from past the closing quote. `InjectFrom` is proved equal to it. |
| Amalgamator.Requests | Sources/GenerateTBS.cpp:46-50 | Definition, no contract. The paths the loop reads from `p` on, in order, taken from the root alone. |
| Amalgamator.RequestedPath | Sources/GenerateTBS.cpp:42-48 | Definition, no contract. `InjectPath` of the characters strictly between a directive's two quotes. |
| Amalgamator.OneDirective | Sources/GenerateTBS.cpp:27-64 | For a root with the marker and one directive whose file has no guard, the output is: the root before the marker, the root between the marker and the token, the file, a newline, and the root after the closing quote. |
| Amalgamator.InjectFrom | Sources/GenerateTBS.cpp:37-64 | The inject loop and the tail, run from cursor `p`, produce exactly `Splice(root, files, p)`. |
| Amalgamator.InjectNext | Sources/GenerateTBS.cpp:40-58 | On a fault, one turn of the loop fails as `Splice` does. On success it returns the text written and a new cursor strictly beyond the old one, and `Splice` from the old cursor is that text followed by `Splice` from the new one. |
| Amalgamator.SpliceStep | Sources/GenerateTBS.cpp:40-44 | Each step moves the cursor strictly forward and fails when the named file fails to load. A successful step's output begins with `root[p..next]` unchanged, followed by the loaded file. |
| Amalgamator.SpliceOkStep | Sources/GenerateTBS.cpp:38-62 | A successful step writes some text. The rest, from past the closing quote, also succeeds, and the final cursor is the same from both places. |
| Amalgamator.SpliceLoaded | Sources/GenerateTBS.cpp:40-58 | At a directive whose file loads as `content`, the output is `root[p..next] + content` followed by the output from past the closing quote. One-step unfolding of the definition, used by the proofs. |
| Amalgamator.SpliceLast | Sources/GenerateTBS.cpp:40-64 | At the last directive, when its file has no guard, the output is the root up to the token, the file, a newline and the rest of the root. |
| Amalgamator.SpliceDone | Sources/GenerateTBS.cpp:63-64 | When no token follows the cursor, the output is a newline and the rest of the root. One-step unfolding of the definition, used by the proofs. |
| Amalgamator.SpliceEndsWithTail | Sources/GenerateTBS.cpp:63-64 | Every successful output ends with a newline and the root from the final cursor on, verbatim. |
| Amalgamator.SpliceReadsOnlyRequests | Sources/GenerateTBS.cpp:61 | Inlining is single-level. Two file maps that agree on the paths the root itself requests give the same output, whatever the injected files contain. |
| Amalgamator.RequestsStep | Sources/GenerateTBS.cpp:46-50 | The first path requested from a directive is that directive's own path. The remaining paths are those requested from past its closing quote. One-step unfolding of the definition, used by the proofs. |
| Amalgamator.SpliceNoDirective | Sources/GenerateTBS.cpp:38 | When no directive follows, the output does not depend on the files. One-step unfolding of the definition, used by the proofs. |
| Amalgamator.SameStep | Sources/GenerateTBS.cpp:50-58 | If the same file is loaded and the same rest follows, the step produces the same output. One-step unfolding of the definition, used by the proofs. |
| Amalgamator.NextStep | Sources/GenerateTBS.cpp:37-44 | A directive step lies within the root, and its quotes come after the cursor. |
| Amalgamator.NextStepCases | Sources/GenerateTBS.cpp:37-43 | The loop ends exactly when `strstr` finds no further token. Otherwise the step is the first token together with the `#include` located from the cursor, or the fault met while locating it. One-step unfolding of the definition, used by the proofs. |
| Amalgamator.FinalCursor | Sources/GenerateTBS.cpp:44 | The cursor only moves forward and stays within the root. |
| Amalgamator.IsAt | Sources/GenerateTBS.cpp:29 | Definition, no contract. The pattern occurs at position `i`, compared one character at a time. |
| Amalgamator.MatchesFrom | Sources/GenerateTBS.cpp:29 | Definition, no contract. The pattern characters from the `k`-th on agree with the text. |
| Amalgamator.Contains | Sources/GenerateTBS.cpp:52 | Definition, no contract. `strstr(s, pat) != nullptr`. |
| Amalgamator.Find | Sources/GenerateTBS.cpp:29 | `strstr` finds an occurrence of the pattern at or after the start position. |
| Amalgamator.FindIsFirst | Sources/GenerateTBS.cpp:37 | What `strstr` finds is the first occurrence. When it finds nothing, there is no occurrence at all. |
| Amalgamator.IsAtSlice | Sources/GenerateTBS.cpp:29 | The character-by-character match is the same as comparing the slice with the pattern. |
| Amalgamator.MatchesFromAll | Sources/GenerateTBS.cpp:29 | Matching from `k` on holds exactly when every later character agrees. |
| Amalgamator.FindChar | Sources/GenerateTBS.cpp:42-43 | `strchr` finds a position at or after the start that holds the character. |
| Amalgamator.FindCharIsFirst | Sources/GenerateTBS.cpp:42-43 | What `strchr` finds is the first such position. When it finds nothing, there is none. |
| Amalgamator.LocateInclude | Sources/GenerateTBS.cpp:41-44 | A located directive is an `#include` at or after the cursor, followed by an opening and a closing quote, in that order and within the root. |
| Amalgamator.LocateIncludeFirst | Sources/GenerateTBS.cpp:41-43 | A missing `#include` is reported exactly when `strstr` finds none. The located `#include` is the first from the cursor, and no quote lies between it and the opening quote or inside the name. |
| Amalgamator.Locate | Sources/GenerateTBS.cpp:41-43 | The `strstr`/`strchr` code locates exactly what `LocateInclude` describes. |
| Amalgamator.InjectPath | Sources/GenerateTBS.cpp:46-48 | Definition, no contract. `Sources`, `/` and the name, cut to the 4095 characters of a `String<4096>`. Its properties are `InjectPathShape`. |
| Amalgamator.InjectPathShape | Sources/GenerateTBS.cpp:46-48 | The path always starts with `Sources/` and is shorter than 4096 characters. A name that fits gives exactly `Sources/<name>`. A longer name is cut to its first 4087 characters. |
| Amalgamator.FileToInjectText | Sources/GenerateTBS.cpp:46-48 | The two `append`s into `String<4096>` give `InjectPath` of the characters strictly between the quotes. |
| Amalgamator.FileToInject | Sources/GenerateTBS.cpp:46-48 | The `String<4096>` built from `sourcesDir` holds `InjectPath` of the quoted name. |
| Amalgamator.Injected | Sources/GenerateTBS.cpp:52-58 | Definition, no contract. The whole file, or, when `#pragma once` occurs anywhere in it, the file less its first 13 bytes, with a fault if it is shorter. Its properties are `InjectedSuffix`. |
| Amalgamator.InjectedSuffix | Sources/GenerateTBS.cpp:52-58 | What is written is the whole file or the file less exactly its first 13 bytes. A file without the guard is written whole, and a guarded file of at least 13 bytes loses exactly its first 13. It fails exactly when the guard occurs and the file is shorter than 13 bytes. A file that starts with `#pragma once` and a line break is written from the following line on. |
| Amalgamator.Strip | Sources/GenerateTBS.cpp:51-58 | The pointer and size arithmetic writes exactly `Injected(path, buffer)`. |
| Amalgamator.Load | Sources/GenerateTBS.cpp:50-58 | Loading succeeds only for a file that exists, and then yields the whole file or the file less its first 13 bytes. It fails exactly when the file is missing or is guarded and shorter than 13 bytes. A missing file is an `Unreadable` fault. |
| Amalgamator.FromLiteral | Sources/GenerateTBS.cpp:10-16 | A `StaticString` made from a literal that fits holds exactly that literal, in a buffer of the given capacity. |
| Amalgamator.Directives | Sources/GenerateTBS.cpp:10-17 | The constant strings hold `Sources`, `#include`, `#pragma once` (capacity 13) and `TBS_InjectFile`. `defineDirective * TBSInjectFile` holds `#define TBS_InjectFile` with capacity 23. |
| FixedString.CLength | Sources/String.hpp:102-108 | The length is at most the size. No NUL lies before it, and a NUL lies at it unless it is the end. |
| FixedString.CLengthIs | Sources/String.hpp:102-108 | Those three facts determine the length. |
| FixedString.CopyContinues | Sources/String.hpp:90 | Definition, no contract. The guard of `copy`'s loop at step `c`. |
| FixedString.Requested | Sources/String.hpp:87-88 | Definition, no contract. `stringLength` after its default: `InvalidStringIndex` means the length of the source. |
| FixedString.CopyCount | Sources/String.hpp:90 | The number of characters `copy` moves: the loop guard holds at every earlier step and fails at this one. The count leaves room for the terminator and stays within the source. |
| FixedString.Copied | Sources/String.hpp:84-96 | The buffer after `copy` has the same capacity. |
| FixedString.CopiedIsTerminated | Sources/String.hpp:84-96 | `copy` stores a NUL at `offset + n`, so the length is at most `MaxSize - 1`, whatever was in the buffer. |
| FixedString.CopiedText | Sources/String.hpp:86-95 | When no NUL precedes `offset`, the text after `copy` is exactly the old text up to `offset` followed by the source's characters from `stringOffset` on, `n` of them. |
| FixedString.Appended | Sources/String.hpp:43-44 | Definition, no contract. The text after `append`: the old text followed by the `CopyCount` characters of the source from `stringOffset` on. `String.Append` is proved to produce it. |
| FixedString.AppendedWhole | Sources/String.hpp:43-44 | `append(x)` with its defaults gives the old text followed by `x`, cut to `MaxSize - 1` characters. |
| FixedString.AppendedFits | Sources/String.hpp:43-44 | If there is room, `append(x)` adds all of `x`. |
| FixedString.String.MaxSize | Sources/String.hpp:48 | Definition, no contract. `max_size()`: the length of the array, which is the template capacity. |
| FixedString.String.Terminated | Sources/String.hpp:95 | Definition, no contract. A NUL lies inside the buffer. |
| FixedString.String.Text | Sources/String.hpp:98 | The text holds no NUL and is shorter than the capacity. |
| FixedString.String.constructor | Sources/String.hpp:20 | A default `String` is all NUL, its text is empty and its capacity is the template size. |
| FixedString.String.FromText | Sources/String.hpp:21-27 | Constructing from a string holds its first `MaxSize - 1` characters. |
| FixedString.String.Copy | Sources/String.hpp:84-96 | The array after the loop is exactly `Copied` of the old array: copied characters, a NUL, and every other position unchanged. The buffer stays terminated. |
| FixedString.String.Append | Sources/String.hpp:43-44 | The new text is `Appended` of the old text: the old text followed by the requested part of the source, cut to capacity. |
| FixedString.String.Length | Sources/String.hpp:98-108 | The loop stops at the first NUL, and that position is the length of the text. |
| FixedString.String.IsEmpty | Sources/String.hpp:49 | `is_empty()` holds exactly when the length is zero. |
| FixedString.String.At | Sources/String.hpp:34 | Reading by index gives the character stored there. Below the text's length that is the text's character, never NUL. At the text's length it is the terminator. |
| FixedString.String.Set | Sources/String.hpp:33 | Writing by index changes that one character and nothing else. |
| FixedString.String.FindFirstOfChars | Sources/String.hpp:51-66 | Either no character before the length is in the set, or the result is the smallest such position. |
| FixedString.String.FindLastOfChars | Sources/String.hpp:68-82 | Either no position in `1 .. length-1` holds a character of the set, or the result is the largest such position. Position 0 is never reported. |
| FixedString.Of | Sources/String.hpp:36 | A `String` used as an argument is a valid operand with the same capacity. |
| FixedString.Plus | Sources/String.hpp:117-142 | `a + b` has capacity `aSize + bSize - 1` and holds all of `a` followed by all of `b`, with no truncation. |
| FixedString.Times | Sources/String.hpp:144-172 | `a * b` has capacity `aSize + bSize` and holds `a`, a space and `b`, with no truncation. |
| FixedString.Slash | Sources/String.hpp:174-192 | `a / b` has capacity `aSize + bSize` and holds `a`, a slash and `b`, with no truncation. |
| FixedString.Joined | Sources/String.hpp:144-192 | Three appends into `String<aSize + bSize>` hold `a`, the separator and `b`. |
| PathHelpers.FindLastOf | Sources/TraumaBuildSystem.hpp:392 | The result is the last position holding a character of the set, or `InvalidStringIndex` when no such position exists. |
| PathHelpers.LastOfBefore | Sources/TraumaBuildSystem.hpp:392 | The same search restricted to positions before `n`. |
| PathHelpers.StrCat | Sources/TraumaBuildSystem.hpp:173-186 | Capacity `aSize + bSize - 1`, holding `a` followed by `b`. |
| PathHelpers.AsInclude | Sources/TraumaBuildSystem.hpp:292 | `-I` directly followed by the path. |
| PathHelpers.AsSystemInclude | Sources/TraumaBuildSystem.hpp:293 | `-isystem` directly followed by the path. |
| PathHelpers.AsLibrary | Sources/TraumaBuildSystem.hpp:294 | `-l` directly followed by the library. |
| PathHelpers.AsLibraryPath | Sources/TraumaBuildSystem.hpp:295 | `-L` directly followed by the path. |
| PathHelpers.AsDefine | Sources/TraumaBuildSystem.hpp:296 | `-D` directly followed by the name. |
| PathHelpers.Replace | Sources/TraumaBuildSystem.hpp:206-208 | The replacement keeps the length. |
| PathHelpers.WinPath | Sources/TraumaBuildSystem.hpp:199-226 | Definition, no contract. `Replace` of `/` by `\`. `ToWinPath` is proved to produce it. |
| PathHelpers.ProperPath | Sources/TraumaBuildSystem.hpp:228-255 | Definition, no contract. `Replace` of `\` by `/`. `ToProperPath` is proved to produce it. |
| PathHelpers.ReplaceKeeps | Sources/TraumaBuildSystem.hpp:199-226 | After the replacement no `from` is left and every other character is unchanged. The terminator stays where it was, and the text is the replacement of the old text. |
| PathHelpers.ProperPathUndoesWinPath | Sources/TraumaBuildSystem.hpp:199-255 | `ToProperPath(ToWinPath(p)) == p` for a path without backslashes. |
| PathHelpers.Converted | Sources/TraumaBuildSystem.hpp:199-255 | A `String<N>` converts into a `String<N>` and a literal into a `String<4096>`. The text is the path with every `from` replaced. |
| PathHelpers.ConvertUpTo | Sources/TraumaBuildSystem.hpp:219-222 | The conversion loop replaces every `from` in the buffer. |
| PathHelpers.ToWinPath | Sources/TraumaBuildSystem.hpp:199-226 | The text is the path with every `/` turned into `\`. |
| PathHelpers.ToProperPath | Sources/TraumaBuildSystem.hpp:228-255 | The text is the path with every `\` turned into `/`. |
| PathHelpers.ContainsAnyOf | Sources/TraumaBuildSystem.hpp:306 | Definition, no contract. Some character of the text belongs to the set. |
| PathHelpers.Truncated | Sources/TraumaBuildSystem.hpp:302 | Definition, no contract. The first `n` characters, or all of them. |
| PathHelpers.QuotedIfSpaced | Sources/TraumaBuildSystem.hpp:306-313 | Definition, no contract. The path, double-quoted when it contains a space, cut to 4095 characters. |
| PathHelpers.AsPathText | Sources/TraumaBuildSystem.hpp:300-320 | Definition, no contract. `WinPath` of `QuotedIfSpaced`. `AsPath` is proved to produce it, and `AsPathShort` states what it is. |
| PathHelpers.AsPathShort | Sources/TraumaBuildSystem.hpp:306-318 | A path that fits is double-quoted exactly when it contains a space, then slash-converted. For a path without backslashes, converting back gives the quoted or plain path. A backslash in the path comes back as a slash. |
| PathHelpers.QuotedAppends | Sources/TraumaBuildSystem.hpp:308-310 | `ret[0] = '"'` and the two appends give the quoted path, cut to 4095 characters. |
| PathHelpers.QuoteInto | Sources/TraumaBuildSystem.hpp:306-313 | The buffer holds the path, quoted if it contains a space, cut to capacity. |
| PathHelpers.AsPath | Sources/TraumaBuildSystem.hpp:300-320 | A `String<4096>` holding the quoted-if-spaced path with backslashes for slashes. |
| PathHelpers.DotSlashRun | Sources/TraumaBuildSystem.hpp:341 | The run is the longest prefix made only of `.` and `/`. |
| PathHelpers.DotSlashRunIs | Sources/TraumaBuildSystem.hpp:341-346 | A prefix of `.` and `/` followed by another character, or by the end, is the run. |
| PathHelpers.SlashCount | Sources/TraumaBuildSystem.hpp:343-344 | The count is at most the length. |
| PathHelpers.CountLevelsUp | Sources/TraumaBuildSystem.hpp:338-346 | `levelsUp` is the number of `/` in the run of `.` and `/` after the first character, modulo 65536 (`uint16`). |
| PathHelpers.IsValidPath | Sources/TraumaBuildSystem.hpp:462-466 | Always true. |
| PathHelpers.IsAbsolutePath | Sources/TraumaBuildSystem.hpp:470-474 | Always false. |
| PathHelpers.IsRelativePath | Sources/TraumaBuildSystem.hpp:478-482 | Always false. |
| PathHelpers.First | Sources/TraumaBuildSystem.hpp:335 | Definition, no contract. `path[0]`: the first character, or the terminator of an empty path. |
| PathHelpers.AsAbsolutePath | Sources/TraumaBuildSystem.hpp:324-346 | The `!IsValidPath` and `IsAbsolutePath` early returns are written out and proved dead (`assert false` in each). A path not starting with `.` becomes `AsPath(cwd / path)`. For one starting with `.`, the number of levels is counted. |
| PathHelpers.Decrement | Sources/TraumaBuildSystem.hpp:376 | Definition, no contract. `index--` on a `size_t`: 0 wraps round to `InvalidStringIndex`, which `copy` reads as "the whole source". |
| PathHelpers.StripExtensionText | Sources/TraumaBuildSystem.hpp:368-380 | Definition, no contract. The path up to one character before its last dot, or the whole path when there is no dot or the dot comes first. `StripExtension` is proved to produce it. |
| PathHelpers.StripFileNameText | Sources/TraumaBuildSystem.hpp:384-399 | Definition, no contract. The same with the last separator. `StripFileName` is proved to produce it. |
| PathHelpers.StripPathText | Sources/TraumaBuildSystem.hpp:403-418 | Definition, no contract. The path from its last separator on, or the whole path. `StripPath` is proved to produce it. |
| PathHelpers.ExtensionOfText | Sources/TraumaBuildSystem.hpp:422-436 | Definition, no contract. What follows the last dot, or nothing. `ExtensionOf` is proved to produce it. |
| PathHelpers.ExtensionOfSpec | Sources/TraumaBuildSystem.hpp:430-435 | The extension holds no dot. It is empty when the path has no dot, and otherwise it is exactly what follows the last dot. |
| PathHelpers.StripWithoutMark | Sources/TraumaBuildSystem.hpp:368-418 | Without a dot, `StripExtension` returns the path. Without a separator, `StripPath` and `StripFileName` return it too. |
| PathHelpers.CopyHead | Sources/TraumaBuildSystem.hpp:378 | `ret.copy(path, 0, n)` into `String<sizeof(path)>` holds the first `n` characters of the path, or all of them. |
| PathHelpers.CopyTail | Sources/TraumaBuildSystem.hpp:416 | `ret.copy(path, 0, InvalidStringIndex, k)` holds the path from `k` on. |
| PathHelpers.StripExtension | Sources/TraumaBuildSystem.hpp:368-380 | The result is `StripExtensionText`: the path up to one character before the last dot, or the whole path. |
| PathHelpers.StripFileName | Sources/TraumaBuildSystem.hpp:384-399 | The result is `StripFileNameText`: the path up to one character before the last separator, or the whole path. |
| PathHelpers.StripPath | Sources/TraumaBuildSystem.hpp:403-418 | The result is `StripPathText`: the path from its last separator on, separator included, or the whole path. |
| PathHelpers.ExtensionOf | Sources/TraumaBuildSystem.hpp:422-436 | The result is empty without a dot, and otherwise is a copy from after the last dot. |
| PathHelpers.StripExtensionLosesOneChar | Sources/TraumaBuildSystem.hpp:374-378 | As written, the result is one character shorter than the stem. Putting that character back, with the dot and the extension, rebuilds the path. |
| PathHelpers.StripExtensionExample | Sources/TraumaBuildSystem.hpp:374-378 | `StripExtension("file.txt")` is `"fil"`. |
| PathHelpers.StripFileNameAndPathAsWritten | Sources/TraumaBuildSystem.hpp:392-417 | As written, `StripFileName` also loses the character before the separator, and `StripPath` keeps the separator. |
| PathHelpers.StripFileNameAndPathExample | Sources/TraumaBuildSystem.hpp:392-417 | `StripFileName("dir/file")` is `"di"` and `StripPath("dir/file")` is `"/file"`. |
| PathHelpers.StripExtensionIntended | Sources/TraumaBuildSystem.hpp:55 | Definition, no contract. The corrected `StripExtension`: the path up to its last dot, or the whole path. |
| PathHelpers.StripFileNameIntended | Sources/TraumaBuildSystem.hpp:57 | Definition, no contract. The corrected `StripFileName`: the path up to its last separator, or the whole path, as the code does when there is no separator. |
| PathHelpers.StripPathIntended | Sources/TraumaBuildSystem.hpp:56 | Definition, no contract. The corrected `StripPath`: what follows the last separator, empty when the path ends in one. |
| PathHelpers.StripExtensionIntendedSplits | Sources/TraumaBuildSystem.hpp:55 | The intended stem, a dot and the extension rebuild the path, and the extension holds no dot. |
| PathHelpers.StripIntendedSplits | Sources/TraumaBuildSystem.hpp:56-57 | The intended directory, the separator and the file name rebuild the path, and the file name holds no separator. |

## Left out

- Amalgamator: reading and writing files. `ReadFile` is a lookup in a map. The output is a
  sequence instead of `fopen`/`fwrite`/`fputc`/`fclose`, and freeing the buffers is not
  modelled.
- Amalgamator: lines 21-25 of `Sources/GenerateTBS.cpp` (the build directory and the
  compiler call). They are operating-system calls.
- A Dafny `char` stands for one C byte (`char`). Capacities, the 13-byte guard drop and
  path truncation all count bytes, so a multi-byte encoding of a character is not modelled:
  text must be read byte by byte.
- Amalgamator: a C string is modelled without a NUL. `strstr` on a file with an embedded NUL
  would stop there, but the model searches the whole file for `#pragma once`.
- Amalgamator.Generate: the cases where the program would crash or read outside a buffer
  are modelled as `Fault` results, not as undefined behaviour. The program's output up to
  the crash is not modelled.
- FixedString: `size_t` overflow is not modelled. Capacities and offsets are unbounded
  naturals, and scans require `MaxSize` to be at most `InvalidStringIndex`.
- FixedString.String.Copy: requires `offset < max_size()` and `stringOffset <= |src|`. A
  larger offset writes the terminator outside the buffer, and a larger source offset starts
  reading past the source's end. Both are undefined behaviour.
- FixedString.String.FindLastOfChars: requires `length() >= 1`. On an empty string the
  program starts at index 2^64 - 1 and reads outside the buffer.
- FixedString: the overloads for literals and for `String<N>` are one `Operand` type. A
  literal's size counts its terminator. `max_size()` and `c_str()` have no separate
  members.
- PathHelpers: `FindLastOf`, `ContainsAnyOf`, `SizeOf` and `Length` of an argument are free
  helpers whose code is not part of this model. They are defined by their evident
  contracts: the last position of a character of the set, any character of the set, and
  the template size.
- PathHelpers.AsAbsolutePath: the code after line 346 (climbing `levelsUp` directories
  with `FindLastOf` and assembling the result) is not modelled, because it depends on the
  unseen `FindLastOf` with an extra argument. The method returns the level count and no
  string for a path that starts with `.`. The current working directory is a parameter.
- PathHelpers: `IsValidPath` always holds, so the early `return ret` of every helper is
  never taken. It is written out, and proved dead, only in `AsAbsolutePath`.
- PathHelpers.Converted: requires a literal argument shorter than 4096 characters, and so
  do `ToWinPath` and `ToProperPath`. A longer literal makes `strncpy` write past the end of
  the `String<4096>`, which is undefined behaviour and is not modelled.
- PathHelpers: the `_WIN32` operating-system helpers (`Exists`, `CreateDirectory`,
  `DeleteDirectory`, `CurrentWorkingDirectory`, `ForEachFile`, `DeleteFile`, `CopyFile`,
  the wide-string conversions, library loading) are left out, along with `Call`, `Compile`,
  `Build` and the console functions. They are operating-system calls or process execution.
- `Sources/TraumaBuildSystem.cpp`, `Sources/TypeTraits.hpp` and `Sources/DynamicArray.hpp`
  are not part of this model. They hold the build pipeline's operating-system plumbing,
  compile-time type classification, and a wrapper over `std::vector`.
- PathHelpers.StripFileName: without a separator the code returns the whole path, while
  the description at line 57 says it returns an empty string. The model follows the code
  (`StripWithoutMark`).

## Findings

| source | as written | input that shows it | evidently intended | confidence | as-written member | corrected member |
|---|---|---|---|---|---|---|
| Sources/TraumaBuildSystem.hpp:374-378 | `index--` before `copy(path, 0, index)` copies one character fewer than the stem | `"file.txt"` gives `"fil"` | the path up to the last dot: `"file"` | medium, not executed; depends on `FindLastOf` returning the 0-based position | PathHelpers.StripExtensionLosesOneChar | PathHelpers.StripExtensionIntendedSplits |
| Sources/TraumaBuildSystem.hpp:392-397 | `index--` before `copy(path, 0, index)` drops the last character of the directory as well as the separator | `"dir/file"` gives `"di"` | the directory: `"dir"` | medium, not executed; depends on `FindLastOf` returning the 0-based position | PathHelpers.StripFileNameAndPathAsWritten | PathHelpers.StripIntendedSplits |
| Sources/TraumaBuildSystem.hpp:411-416 | `copy(path, 0, InvalidStringIndex, index)` starts at the separator itself | `"dir/file"` gives `"/file"` | the file name only: `"file"` | medium, not executed; depends on `FindLastOf` returning the 0-based position | PathHelpers.StripFileNameAndPathExample | PathHelpers.StripIntendedSplits |
