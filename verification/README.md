# compile_commands generators — a Dafny model

Two scripts write a `compile_commands.json` database, one entry
(`directory`, `file`, `command`) per compiled C file:

- `waf_compile_commands.py` recovers the commands from a build log. Each log
  line is scanned with two regular expressions, `'(?:[^']|'{2})+'` for the quoted
  command tokens and `'([^']+\.c)'` for quoted C source names. The two lists are
  joined with single spaces, and the line becomes an entry when the command
  mentions `gcc` and a name was found. The script also defines `process_line`,
  which rewrites escaped `#` signs, resolves the file against the root, checks
  that it exists and builds an entry. `main` never calls it.
- `gen_compile_commands.py` synthesises the commands. It takes every `.c` file
  found under the working directory and the directory of every `.h` file found,
  each directory once. Every source file gets
  `gcc -std=gnu11 -I<dir>… -c -o <object> <file>`.

The model is functional: strings are `seq<char>`, lists are `seq`, and every
operation is a total function, lemma or loop method.

- `wrappers.dfy`: `Option` and `Result`.
- `text.dfy` (`Text`): the Python `str` operations used: `in`, `startswith`,
  `" ".join`, `split`, `rfind` and `replace`.
- `paths.dfy` (`Paths`): `posixpath.join`, `normpath`, `abspath`, `dirname`
  and `splitext`.
- `scanning.dfy` (`Scanning`): the scanning discipline of `re.findall`. It is
  stated over a table that gives the end of the match starting at each position.
- `patterns.dfy` (`Patterns`): the two patterns.
  - Each is a single-position matcher that transcribes the backtracking engine:
    a greedy repetition first tries one more round and falls back only on failure.
  - `FindAll` instantiates the scan over each pattern's table.
  - The file adds the doubled-quote convention the token pattern is written for:
    `Escape`, `Unescape` and `QuoteArg`. These are used to build command lines
    whose tokenisation is known.
- `compile_db.dfy` (`CompileDb`): the entry record.
- `waf.dfy` (`WafCompileCommands`): the per-line filter, the extraction over a
  log, and `process_line`.
- `gen.dfy` (`GenCompileCommands`): the ignore filter, the header-directory
  list, `gen_cflags`, `gen_compile_command` and `main`'s entry loop.

What the log extractor's code does, and the model with it:

- The command is the joined tokens *with* their quotes. Doubled quotes inside a
  token are kept verbatim, because the token pattern has no capture group and
  nothing decodes it.
- Source names are found by scanning the *raw line*, not the command tokens. A
  quoted name is therefore reported whether or not it is also a token.
- `main` neither resolves the file, nor checks that it exists, nor rewrites
  escapes. Those happen only in `process_line`, which is modelled on its own
  (`ProcessLine`).
- Among the possible failures, the code raises only the missing-file error of
  `process_line`. `main` skips every other line without a message.

`normpath` keeps exactly two leading slashes, as POSIX allows. The "clean
components" property therefore holds after the leading slashes.

## Model

| member | source | states |
|---|---|---|
| Patterns.CloseTokenSound | waf_compile_commands.py:80 | where the repetition-then-quote continuation succeeds, it ends on a quote, and the text it crossed is a run of non-quotes and doubled quotes (non-empty on the first round) |
| Patterns.CloseTokenLongest | waf_compile_commands.py:80 | the backtracking continuation reaches every well-formed closing quote; it never stops short of the longest one |
| Patterns.MatchTokenIsLongest | waf_compile_commands.py:80-81 | a token match at a position is a well-formed quoted token, and it is the longest well-formed token starting there (greedy matching) |
| Patterns.QuotedBodyEvenRuns | waf_compile_commands.py:80 | a token body is exactly a text in which every maximal run of quotes has even length (both directions) |
| Patterns.CloseFileExact | waf_compile_commands.py:83 | the file pattern's continuation ends at `e` if and only if the text up to `e` is quote-free, ends in `.c'`, and leaves at least one character before `.c` |
| Patterns.MatchFileIsUnique | waf_compile_commands.py:83-84 | a file match is a quoted, quote-free name ending in `.c`; any such quoted name at the position is the match (it is the only one) |
| Scanning.Scan | waf_compile_commands.py:91-92 | findall's spans lie in the text, each is the match at its start, and they are non-overlapping and in left-to-right order |
| Scanning.ScanFirstGap | waf_compile_commands.py:91-92 | no match starts before the first reported span (or anywhere, if none is reported) |
| Scanning.ScanLastGap | waf_compile_commands.py:91-92 | no match starts after the last reported span |
| Scanning.ScanInnerGaps | waf_compile_commands.py:91-92 | no match starts between two neighbouring reported spans |
| Scanning.ScanSkips | waf_compile_commands.py:91-92 | positions where nothing matches are passed over without changing the result |
| Patterns.FindAll | waf_compile_commands.py:91-92 | for either pattern, findall's spans lie in the line, each is that pattern's match at its start, and they do not overlap and are in order |
| Patterns.FindAllStep | waf_compile_commands.py:91-92 | findall is leftmost: a match at the scan position is taken and scanning resumes at its end, otherwise at the next position |
| Patterns.FindAllSkipsOnlyNonMatches | waf_compile_commands.py:91-92 | every position findall passes over, before, between or after its matches, has no match |
| Patterns.FindAllSkips | waf_compile_commands.py:91-92 | a stretch without matches does not change what findall reports |
| Patterns.FindAllOfNoMatch | waf_compile_commands.py:91-92 | a text without matches yields nothing |
| Patterns.TokensAreQuoted | waf_compile_commands.py:80-81 | every command token starts and ends with a quote, and its body is non-empty and made of non-quotes and doubled quotes |
| Patterns.SourceCaptureIsBare | waf_compile_commands.py:83 | the group of a file match has no quote, ends in `.c` and is at least three characters long |
| Patterns.SourceNamesAreBare | waf_compile_commands.py:83-92 | every captured source name has no quote, ends in `.c` and is at least three characters long |
| Patterns.NoQuoteNoMatch | waf_compile_commands.py:91-92 | a line without a quote yields no tokens and no names |
| Patterns.UnescapeEscape | waf_compile_commands.py:80 | doubling the quotes of an argument and undoubling them gives the argument back |
| Patterns.EscapeUnescape | waf_compile_commands.py:80 | every token body is the doubled form of exactly one argument |
| Patterns.QuotedBodyAppend | waf_compile_commands.py:80 | token bodies compose: after a complete body, the rest is a body exactly when the whole is |
| Patterns.QuoteArgIsToken | waf_compile_commands.py:80 | a quoted non-empty argument is a well-formed token |
| Patterns.QuotedArgMatches | waf_compile_commands.py:80-81 | a quoted argument followed by a space or by the end of the line is matched exactly, no further |
| Patterns.TokenizeCommandLine | waf_compile_commands.py:80-91 | tokenising quoted non-empty arguments joined by spaces gives back exactly the quoted arguments, in order |
| Patterns.ScanQuotedArgs | waf_compile_commands.py:91 | from the start of such a command line inside a longer line, findall reports exactly its quoted arguments |
| Patterns.QuotedArgSource | waf_compile_commands.py:83-84 | a quoted quote-free argument is a file match exactly when it ends in `.c` after at least one character; otherwise no file match starts anywhere in it |
| Patterns.SourceStep | waf_compile_commands.py:92 | scanning a command line for names reports an argument when it looks like a C source, and then carries on with the next argument |
| Patterns.ScanSourceArgs | waf_compile_commands.py:92 | the names found in a command line of quote-free arguments are exactly the arguments that look like C sources, in order |
| Text.ContainsAt | waf_compile_commands.py:97 | `sub in s` holds exactly when `sub` occurs at some position of `s` |
| Text.JoinEmpty | waf_compile_commands.py:94-100 | joining non-empty strings gives the empty string only for the empty list |
| Text.JoinSplit | waf_compile_commands.py:94-95 | splitting at a character and joining with it gives the string back |
| Text.SplitJoin | waf_compile_commands.py:94-95 | joining pieces free of the separator and splitting again gives the pieces back |
| WafCompileCommands.LineAccepted | waf_compile_commands.py:94-107 | a line is kept if and only if its joined command contains `gcc` and a name was found (the `not cmd` test never decides); the entry holds the root, the joined unresolved names and the joined quoted tokens |
| WafCompileCommands.UnquotedLineIgnored | waf_compile_commands.py:91-101 | a line without a quote has no tokens, no names and no entry |
| WafCompileCommands.Extract | waf_compile_commands.py:90-109 | at most one entry per line, and every entry has the root as directory, a command containing `gcc` and a non-empty file |
| WafCompileCommands.ExtractConcat | waf_compile_commands.py:90-109 | lines are handled independently and in log order: a split log yields the entries of its first part followed by those of its second |
| WafCompileCommands.ExtractLine | waf_compile_commands.py:90-109 | a one-line log yields that line's entry, or nothing |
| WafCompileCommands.CommandLineEntry | waf_compile_commands.py:91-107 | for unquoted text followed by quoted arguments, the tokens are the quoted arguments and the names are the source-like arguments; the line is kept exactly when the quoted command contains `gcc` and some argument is a source |
| WafCompileCommands.SampleLine | waf_compile_commands.py:91-107 | the line `cc1 'gcc' '-c' 'main.c'` yields the file `main.c` and the quoted command `'gcc' '-c' 'main.c'` |
| Text.ReplaceAllAbsent | waf_compile_commands.py:66 | `replace` leaves a string without the pattern unchanged |
| Text.ReplaceAllLeftmost | waf_compile_commands.py:66 | `replace` rewrites the leftmost occurrence and continues after it, so occurrences are rewritten left to right without overlap |
| Text.ReplaceAllShrinks | waf_compile_commands.py:66 | replacing with a string no longer than the pattern never lengthens the text |
| WafCompileCommands.RewriteEscapesBounds | waf_compile_commands.py:66 | rewriting the escapes never lengthens the prefix, and leaves a prefix without `\#` and `$(pound)` unchanged |
| Paths.PathJoin | waf_compile_commands.py:69 | an absolute second path replaces the first; otherwise the result is the first path followed by the second, directly when the first is empty or ends in a separator, and otherwise with exactly one separator between them |
| Paths.InitialSlashes | waf_compile_commands.py:69 | `normpath` keeps at most two leading separators, and some exactly when the path is absolute |
| Paths.CollapseSnoc | waf_compile_commands.py:68-69 | `normpath`'s component loop handles a path one component at a time, left to right |
| Paths.CollapseDot | waf_compile_commands.py:68-69 | a `.` component changes nothing |
| Paths.CollapseParent | waf_compile_commands.py:68-69 | in an absolute path, `..` cancels the clean component before it |
| Paths.CollapseParentAtRoot | waf_compile_commands.py:68-69 | in an absolute path, `..` at the root is dropped |
| Paths.CollapseParentLeading | waf_compile_commands.py:68-69 | in a relative path, a leading `..` is kept |
| Paths.CollapseClean | waf_compile_commands.py:69 | collapsing `.`, `..` and empty components of a rooted path leaves only clean components |
| Paths.CollapseOfClean | waf_compile_commands.py:69 | collapsing clean components changes nothing |
| Paths.NormPathOfAbsolute | waf_compile_commands.py:68-69 | the normal form of an absolute path is absolute, and it has only clean components after its leading separators |
| Paths.NormalIsFixpoint | waf_compile_commands.py:69 | a path already in normal form is its own normal form |
| Paths.NormPathIdempotent | waf_compile_commands.py:69 | normalising an absolute path twice is normalising it once |
| Paths.AbsPathIsNormal | waf_compile_commands.py:69 | with an absolute working directory, `abspath` is absolute and normal, and an absolute argument ignores the working directory |
| WafCompileCommands.ResolvePathRule | waf_compile_commands.py:68-69 | with an absolute root, an absolute file path ignores the root, and a relative one is normalised after the root and one separator; the result is always absolute and normal |
| WafCompileCommands.ProcessLine | waf_compile_commands.py:66-76 | fails, naming the resolved path, exactly when that path does not exist; otherwise the entry has the root, the resolved path, and the rewritten prefix directly followed by the file path as given |
| WafCompileCommands.ProcessLineEntry | waf_compile_commands.py:68-76 | a successful entry names an absolute, normal file, and its command is no longer than the prefix and path together |
| GenCompileCommands.KeepPaths | gen_compile_commands.py:29-31 | the kept paths are found paths that pass the filter, and every found path that passes it is kept |
| GenCompileCommands.KeepPathsConcat | gen_compile_commands.py:29-31 | the filter works path by path, in the order the paths were found |
| GenCompileCommands.KeepAllWithoutIgnore | gen_compile_commands.py:30 | with an empty `ignore`, every found path is kept, in order |
| GenCompileCommands.FirstOccurrencesElements | gen_compile_commands.py:46-47 | de-duplication keeps every element exactly once |
| GenCompileCommands.FirstOccurrencesOrder | gen_compile_commands.py:46-47 | de-duplication lists elements in the order of their first occurrences |
| GenCompileCommands.IncludeDirsStep | gen_compile_commands.py:44-47 | a kept header whose directory is new appends that directory; any other header changes nothing |
| GenCompileCommands.IncludeDirs | gen_compile_commands.py:43-49 | the loop yields the de-duplicated directories of the kept headers in first-found order, with no directory twice and every kept header's directory present |
| GenCompileCommands.IncludeDirsShape | gen_compile_commands.py:43-49 | the include list has no duplicates; each entry is among the directories of the kept headers, and the directory of every kept header is in it |
| Paths.DirnameShape | gen_compile_commands.py:45 | `dirname` is a prefix of the path, empty exactly when the path has no separator, and without trailing separators unless all separators, in which case the whole run of separators up to the last one is kept (`//a` gives `//`); only separators and the final component follow it |
| GenCompileCommands.GenCflags | gen_compile_commands.py:51-62 | `-std=gnu11`, then `-I` and each include in order, then `-D` and each define in order; the length is 1 plus both list lengths |
| Paths.SplitExt | gen_compile_commands.py:78 | root and extension concatenate to the path; the extension is empty or starts with its only dot and has no separator; it is non-empty exactly when the final component has a dot after a non-dot |
| Paths.SplitExtFindsExtension | gen_compile_commands.py:78 | an extension exists exactly when the last dot comes after the last separator and after some non-dot of the final component |
| GenCompileCommands.ObjectNameRule | gen_compile_commands.py:78 | the object name cuts the file name at its extension's dot and adds `.o`, or appends `.o` when there is no extension |
| GenCompileCommands.ObjectNameReplacesExtension | gen_compile_commands.py:78 | `dir/x.c` has the object name `dir/x.o` |
| GenCompileCommands.ObjectNameLeadingDot | gen_compile_commands.py:78 | a leading dot is no extension: `.bashrc` has the object name `.bashrc.o` |
| GenCompileCommands.ParseGenCompileCommand | gen_compile_commands.py:64-83 | a generated command has `flags + 5` words; it starts with the toolchain, ends with the object and the file, and reads back as toolchain, flags and file |
| GenCompileCommands.SingleFlagIsList | gen_compile_commands.py:70-71 | a single flag string gives the same command as the one-flag list |
| GenCompileCommands.GenEntries | gen_compile_commands.py:103-114 | one entry per source file, in order, each with the root as directory, the file as given and the space-joined generated command |
| GenCompileCommands.EntryCommandReadsBack | gen_compile_commands.py:106 | when no word contains a space, an entry's command splits back into the generated words, which read back as `gcc`, the flags and the file |
| GenCompileCommands.GenMain | gen_compile_commands.py:86-114 | with no ignore string and no defines, every found source file gets one entry, in order, compiled with `-std=gnu11` and the de-duplicated header directories |

## Left out

- Argument parsing and the `abspath` of the directory argument
  (`waf_compile_commands.py` lines 20-43) are not modelled. The root is an input.
  `ProcessLine` accepts any root and resolves a relative one against `cwd`; the
  lemmas about it assume an absolute root, which `abspath` guarantees.
- Reading `build.log` and writing the JSON output are file I/O and library
  serialisation, and are not modelled: `open`, `json.dump`, indentation and key
  order. A log is a sequence of lines.
- `glob.glob`, `os.getcwd` and the `print` calls of the generator touch the
  file system or the console. The found `.c` and `.h` paths and the root are
  inputs.
- `os.path.exists` is the parameter `fileExists` of `ProcessLine`. The current
  working directory that `abspath` uses is the parameter `cwd`.
- The `extra` argument of `gen_cflags` has no effect, so it is omitted.
- GenCompileCommands.GenCflags takes lists. The default `""` arguments and a
  string passed in their place are not modelled: iterating a string would yield
  its characters.
- GenCompileCommands.GenMain fixes the toolchain to `gcc` as the code does. The
  unused `toolchain` variable of `main` is not modelled.
- The imports the scripts never use (`logging`, `subprocess`, `sys`, `re` in the
  generator) have no behaviour to model.
- Patterns models the two fixed patterns only, not a general regular-expression
  engine. Characters are compared exactly, with no Unicode normalisation.
