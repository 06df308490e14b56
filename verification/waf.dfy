/**
 The build-log extractor: each log line is scanned for quoted command
 tokens and quoted `.c` names, and becomes at most one database entry.
 `ProcessLine` is the escape-rewriting, path-resolving entry builder the
 script also defines; the per-line loop never calls it, so the two are
 modelled separately.
 */
module WafCompileCommands {
  import opened Wrappers
  import opened Text
  import opened Paths
  import opened Patterns
  import opened CompileDb

  /** Every quoted token of the line, quotes and doubled quotes kept. */
  function CommandTokens(line: string): seq<string> {
    FindAllText(CommandToken, line)
  }

  /** The text inside every quoted `.c` name of the raw line. */
  function SourceNames(line: string): seq<string> {
    FindAllText(SourceFile, line)
  }

  /** The entry one log line contributes, if any: the tokens and the names are
      each joined with single spaces; a command without `gcc`, or a line with
      no name or no command, contributes nothing. */
  function LineEntry(root: string, line: string): Option<Entry> {
    var cmd := Join(" ", CommandTokens(line));
    var file := Join(" ", SourceNames(line));
    if !Contains(cmd, "gcc") then None
    else if file == "" || cmd == "" then None
    else Some(Entry(root, file, cmd))
  }

  /** A line is kept exactly when its joined command contains `gcc` and it
      has at least one source name; the `cmd` emptiness test never decides
      anything. A kept line's entry records the root, the joined names
      (unresolved) and the joined tokens. */
  lemma LineAccepted(root: string, line: string)
    ensures LineEntry(root, line).Some? <==>
      Contains(Join(" ", CommandTokens(line)), "gcc") && SourceNames(line) != []
    ensures LineEntry(root, line).Some? ==>
      LineEntry(root, line).value == Entry(root, Join(" ", SourceNames(line)), Join(" ", CommandTokens(line)))
  {
    SourceNamesAreBare(line);
    JoinEmpty(" ", SourceNames(line));
    var cmd := Join(" ", CommandTokens(line));
    if Contains(cmd, "gcc") {
      ContainsNeedsRoom(cmd, "gcc");
    }
  }

  /** A line without any quote has no tokens, no names and no entry. */
  lemma UnquotedLineIgnored(root: string, line: string)
    requires Quote !in line
    ensures CommandTokens(line) == [] && SourceNames(line) == []
    ensures LineEntry(root, line) == None
  {
    NoQuoteNoMatch(CommandToken, line);
    NoQuoteNoMatch(SourceFile, line);
  }

  /** The entry of one line as a list of zero or one entries. */
  function LineEntries(root: string, line: string): seq<Entry> {
    match LineEntry(root, line)
    case Some(e) => [e]
    case None => []
  }

  /** The database the log yields: each line's entry, in line order. */
  function Extract(root: string, lines: seq<string>): (r: seq<Entry>)
    ensures |r| <= |lines|
    ensures forall e <- r :: e.directory == root && Contains(e.command, "gcc") && e.file != ""
    decreases |lines|
  {
    if lines == [] then []
    else LineEntries(root, lines[0]) + Extract(root, lines[1..])
  }

  /** Lines are handled independently and in order: the entries of a log
      split in two are the entries of the first part followed by those of
      the second. */
  lemma {:induction false} ExtractConcat(root: string, a: seq<string>, b: seq<string>)
    ensures Extract(root, a + b) == Extract(root, a) + Extract(root, b)
    decreases |a|
  {
    if a != [] {
      assert (a + b)[0] == a[0];
      assert (a + b)[1..] == a[1..] + b;
      ExtractConcat(root, a[1..], b);
      var here := LineEntries(root, a[0]);
      assert Extract(root, a + b) == here + Extract(root, a[1..] + b);
      assert Extract(root, a) == here + Extract(root, a[1..]);
    } else {
      assert a + b == b;
    }
  }

  /** A single line yields its own entry or nothing. */
  lemma ExtractLine(root: string, line: string)
    ensures Extract(root, [line]) == match LineEntry(root, line) case Some(e) => [e] case None => []
  {
    assert [line][1..] == [];
  }

  /** A line that is some unquoted text followed by a command line of
      quote-free arguments: its tokens are the quoted arguments, its names are
      the arguments that look like C sources, and it is kept exactly when the
      quoted command contains `gcc` and some argument looks like a source. */
  lemma CommandLineEntry(root: string, lead: string, args: seq<string>)
    requires Quote !in lead
    requires forall v <- args :: v != "" && Quote !in v
    ensures CommandTokens(lead + CommandLine(args)) == QuoteArgs(args)
    ensures SourceNames(lead + CommandLine(args)) == SourceArgs(args)
    ensures LineEntry(root, lead + CommandLine(args)) ==
      if Contains(CommandLine(args), "gcc") && SourceArgs(args) != []
      then Some(Entry(root, Join(" ", SourceArgs(args)), CommandLine(args)))
      else None
  {
    var s := lead + CommandLine(args);
    assert s[|lead|..] == CommandLine(args);
    forall p: Pattern
      ensures NoMatchIn(p, s, 0, |lead|)
    {
      forall j | 0 <= j < |lead|
        ensures MatchAt(p, s, j).None?
      {
        assert s[j] == lead[j];
        assert lead[j] in lead;
      }
    }
    FindAllSkips(CommandToken, s, 0, |lead|);
    FindAllSkips(SourceFile, s, 0, |lead|);
    ScanQuotedArgs(s, |lead|, args);
    ScanSourceArgs(s, |lead|, args);
    LineAccepted(root, s);
  }

  /** The arguments of the sample compile line below. */
  const SampleArgs: seq<string> := ["gcc", "-c", "main.c"]

  /** Only the last sample argument looks like a C source. */
  lemma SampleSources()
    ensures SourceArgs(SampleArgs) == ["main.c"]
    ensures Join(" ", SourceArgs(SampleArgs)) == "main.c"
    ensures forall v <- SampleArgs :: v != "" && Quote !in v
  {
    assert SampleArgs[1..][1..] == ["main.c"];
  }

  /** The sample command contains `gcc`. */
  lemma SampleMentionsGcc()
    ensures Contains(CommandLine(SampleArgs), "gcc")
  {
    var cmd := CommandLine(SampleArgs);
    var head := QuoteArg(SampleArgs[0]);
    assert head == [Quote] + "gcc" + [Quote] by {
      QuoteArgPlain(SampleArgs[0]);
    }
    assert cmd[..|head|] == head by {
      CommandLineCons(SampleArgs);
    }
    assert cmd[1..4] == head[1..4];
    assert OccursAt(cmd, "gcc", 1);
    ContainsAt(cmd, "gcc");
  }

  /** The sample build-log line `cc1 'gcc' '-c' 'main.c'`: the command is the quoted part with its quotes,
      and the file is the bare captured name. */
  lemma SampleLine(root: string)
    ensures LineEntry(root, "cc1 " + CommandLine(SampleArgs)) == Some(Entry(root, "main.c", CommandLine(SampleArgs)))
  {
    SampleSources();
    SampleMentionsGcc();
    CommandLineEntry(root, "cc1 ", SampleArgs);
  }

  // ---------------------------------------------------------------------------
  // process_line

  /** The log escapes `#` as `\#` or as `$(pound)`; both become `#`, the
      first spelling in a full pass before the second. */
  function RewriteEscapes(prefix: string): string {
    ReplaceAll(ReplaceAll(prefix, "\\#", "#"), "$(pound)", "#")
  }

  /** Rewriting never lengthens the prefix, and a prefix with neither escaped
      spelling is returned unchanged (so rewriting such a prefix again changes
      nothing). */
  lemma RewriteEscapesBounds(prefix: string)
    ensures |RewriteEscapes(prefix)| <= |prefix|
    ensures !Contains(prefix, "\\#") && !Contains(prefix, "$(pound)") ==> RewriteEscapes(prefix) == prefix
  {
    var once := ReplaceAll(prefix, "\\#", "#");
    ReplaceAllShrinks(prefix, "\\#", "#");
    ReplaceAllShrinks(once, "$(pound)", "#");
    if !Contains(prefix, "\\#") && !Contains(prefix, "$(pound)") {
      ReplaceAllAbsent(prefix, "\\#", "#");
      ReplaceAllAbsent(prefix, "$(pound)", "#");
    }
  }

  /** `abspath(join(root, file_path))`, with the working directory as `cwd`. */
  function ResolvePath(root: string, filePath: string, cwd: string): string {
    AbsPath(PathJoin(root, filePath), cwd)
  }

  /** With an absolute root: an absolute file path ignores the root, a
      relative one is appended to the root after one separator, and either
      way the result is absolute and normalised. */
  lemma ResolvePathRule(root: string, filePath: string, cwd: string)
    requires IsAbsolute(root)
    ensures IsAbsolute(filePath) ==> ResolvePath(root, filePath, cwd) == NormPath(filePath)
    ensures !IsAbsolute(filePath) && root[|root| - 1] != Sep ==>
      ResolvePath(root, filePath, cwd) == NormPath(root + "/" + filePath)
    ensures !IsAbsolute(filePath) && root[|root| - 1] == Sep ==>
      ResolvePath(root, filePath, cwd) == NormPath(root + filePath)
    ensures IsAbsolute(ResolvePath(root, filePath, cwd)) && IsNormal(ResolvePath(root, filePath, cwd))
  {
    AbsPathIsNormal(PathJoin(root, filePath), cwd);
  }

  /** The error `process_line` raises: `File <path> not found`. */
  datatype MissingFile = FileNotFound(path: string)

  /** `process_line`: rewrites the escapes of the prefix, resolves the file
      against the root and checks it exists (`fileExists` stands for the file
      system), then builds the entry. The command is the rewritten prefix
      directly followed by the file path as given. */
  function ProcessLine(root: string, prefix: string, filePath: string, cwd: string,
                       fileExists: string -> bool): (r: Result<Entry, MissingFile>)
    ensures r.Failure? <==> !fileExists(ResolvePath(root, filePath, cwd))
    ensures r.Failure? ==> r.error == FileNotFound(ResolvePath(root, filePath, cwd))
    ensures r.Success? ==> r.value.directory == root && r.value.file == ResolvePath(root, filePath, cwd)
    ensures r.Success? ==>
      StartsWith(r.value.command, RewriteEscapes(prefix)) && EndsWith(r.value.command, filePath)
      && |r.value.command| == |RewriteEscapes(prefix)| + |filePath|
  {
    var absPath := ResolvePath(root, filePath, cwd);
    if !fileExists(absPath) then Failure(FileNotFound(absPath))
    else Success(Entry(root, absPath, RewriteEscapes(prefix) + filePath))
  }

  /** With an absolute root, a successful entry names an absolute, normalised
      file, and its command is no longer than the prefix and path together. */
  lemma ProcessLineEntry(root: string, prefix: string, filePath: string, cwd: string,
                         fileExists: string -> bool)
    requires IsAbsolute(root)
    ensures var r := ProcessLine(root, prefix, filePath, cwd, fileExists);
      r.Success? ==>
        IsAbsolute(r.value.file) && IsNormal(r.value.file) && |r.value.command| <= |prefix| + |filePath|
  {
    ResolvePathRule(root, filePath, cwd);
    RewriteEscapesBounds(prefix);
  }
}
