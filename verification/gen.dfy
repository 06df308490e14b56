/**
 The synthetic generator: every `.c` file found under the working directory
 becomes one database entry whose command compiles it with `gcc`, the
 directories of all found headers as `-I` flags, `-c -o <object> <file>`.
 The paths the two recursive globs find are inputs here.
 */
module GenCompileCommands {
  import opened Wrappers
  import opened Text
  import opened Paths
  import opened CompileDb

  // ---------------------------------------------------------------------------
  // The ignore filter of both searches

  /** A found path is kept unless a non-empty `ignore` occurs in it. */
  predicate Kept(ignore: string, path: string) {
    ignore == "" || !Contains(path, ignore)
  }

  /** The found paths the filter keeps, in the order they were found. */
  function KeepPaths(ignore: string, paths: seq<string>): (r: seq<string>)
    ensures |r| <= |paths|
    ensures forall p <- r :: p in paths && Kept(ignore, p)
    ensures forall p <- paths :: Kept(ignore, p) ==> p in r
    decreases |paths|
  {
    if paths == [] then []
    else (if Kept(ignore, paths[0]) then [paths[0]] else []) + KeepPaths(ignore, paths[1..])
  }

  /** Filtering a concatenation filters each part and keeps them in order, so
      the kept paths are a subsequence of the found ones. */
  lemma {:induction false} KeepPathsConcat(ignore: string, a: seq<string>, b: seq<string>)
    ensures KeepPaths(ignore, a + b) == KeepPaths(ignore, a) + KeepPaths(ignore, b)
    decreases |a|
  {
    if a == [] {
      assert a + b == b;
    } else {
      assert (a + b)[1..] == a[1..] + b;
      KeepPathsConcat(ignore, a[1..], b);
    }
  }

  /** With no `ignore` string every found path is kept, in order. */
  lemma {:induction false} KeepAllWithoutIgnore(paths: seq<string>)
    ensures KeepPaths("", paths) == paths
    decreases |paths|
  {
    if paths != [] {
      KeepAllWithoutIgnore(paths[1..]);
      assert [paths[0]] + paths[1..] == paths;
    }
  }

  // ---------------------------------------------------------------------------
  // Header directories

  /** The directory of each path. */
  function Dirnames(paths: seq<string>): (r: seq<string>)
    ensures |r| == |paths| && forall k :: 0 <= k < |paths| ==> r[k] == Dirname(paths[k])
  {
    seq(|paths|, k requires 0 <= k < |paths| => Dirname(paths[k]))
  }

  /** No element occurs twice. */
  predicate NoDuplicates(xs: seq<string>) {
    forall i, j :: 0 <= i < j < |xs| ==> xs[i] != xs[j]
  }

  /** Each element at its first occurrence only: an element is kept when it
      did not occur before it. */
  function FirstOccurrences(xs: seq<string>): seq<string>
    decreases |xs|
  {
    if xs == [] then []
    else
      var init := xs[..|xs| - 1];
      FirstOccurrences(init) + (if xs[|xs| - 1] in init then [] else [xs[|xs| - 1]])
  }

  /** `FirstOccurrences` keeps exactly the elements of `xs`, once each. */
  lemma {:induction false} FirstOccurrencesElements(xs: seq<string>)
    ensures NoDuplicates(FirstOccurrences(xs))
    ensures forall x :: x in FirstOccurrences(xs) <==> x in xs
    decreases |xs|
  {
    if xs != [] {
      var init := xs[..|xs| - 1];
      var last := xs[|xs| - 1];
      FirstOccurrencesElements(init);
      assert xs == init + [last];
      var f := FirstOccurrences(init);
      if last !in init {
        assert FirstOccurrences(xs) == f + [last];
        assert last !in f;
      }
    }
  }

  /** The position of the first occurrence of `x` in `xs`. */
  function FirstIndex(xs: seq<string>, x: string): (k: nat)
    requires x in xs
    ensures k < |xs| && xs[k] == x && x !in xs[..k]
    decreases |xs|
  {
    if xs[0] == x then 0
    else
      var k := 1 + FirstIndex(xs[1..], x);
      assert xs[..k] == [xs[0]] + xs[1..][..k - 1];
      k
  }

  /** `FirstOccurrences` lists the elements in the order of their first
      occurrences. */
  lemma {:induction false} FirstOccurrencesOrder(xs: seq<string>)
    ensures forall i, j :: 0 <= i < j < |FirstOccurrences(xs)| ==>
      FirstOccurrences(xs)[i] in xs && FirstOccurrences(xs)[j] in xs &&
      FirstIndex(xs, FirstOccurrences(xs)[i]) < FirstIndex(xs, FirstOccurrences(xs)[j])
    decreases |xs|
  {
    if xs != [] {
      var init := xs[..|xs| - 1];
      var last := xs[|xs| - 1];
      var f := FirstOccurrences(init);
      var r := FirstOccurrences(xs);
      FirstOccurrencesOrder(init);
      FirstOccurrencesElements(init);
      assert xs == init + [last];
      forall x | x in init
        ensures x in xs && FirstIndex(xs, x) == FirstIndex(init, x)
      {
        FirstIndexPrefix(init, [last], x);
      }
      forall i, j | 0 <= i < j < |r|
        ensures r[i] in xs && r[j] in xs && FirstIndex(xs, r[i]) < FirstIndex(xs, r[j])
      {
        if j < |f| {
          assert r[i] == f[i] && r[j] == f[j];
        } else {
          assert r == f + [last] && r[j] == last && r[i] == f[i];
          assert FirstIndex(xs, last) == |init| by {
            assert xs[..|init|] == init;
          }
          assert FirstIndex(init, f[i]) < |init|;
        }
      }
      assert forall i, j :: 0 <= i < j < |r| ==>
        r[i] in xs && r[j] in xs && FirstIndex(xs, r[i]) < FirstIndex(xs, r[j]);
      assert r == FirstOccurrences(xs);
    } else {
      assert FirstOccurrences(xs) == [];
    }
  }

  /** The first occurrence of an element of `a` in `a + b` is its first
      occurrence in `a`. */
  lemma FirstIndexPrefix(a: seq<string>, b: seq<string>, x: string)
    requires x in a
    ensures x in a + b && FirstIndex(a + b, x) == FirstIndex(a, x)
  {
    var k := FirstIndex(a, x);
    assert (a + b)[k] == x;
  }

  /** One more header: a kept header whose directory is new adds it at the
      end; any other header changes nothing. */
  lemma IncludeDirsStep(ignore: string, headers: seq<string>, i: nat)
    requires i < |headers|
    ensures var before := FirstOccurrences(Dirnames(KeepPaths(ignore, headers[..i])));
      var dir := Dirname(headers[i]);
      FirstOccurrences(Dirnames(KeepPaths(ignore, headers[..i + 1]))) ==
        if Kept(ignore, headers[i]) && dir !in before then before + [dir] else before
  {
    var f := headers[i];
    var before := Dirnames(KeepPaths(ignore, headers[..i]));
    assert headers[..i + 1] == headers[..i] + [f];
    KeepPathsConcat(ignore, headers[..i], [f]);
    assert KeepPaths(ignore, [f]) == if Kept(ignore, f) then [f] else [];
    if Kept(ignore, f) {
      var after := Dirnames(KeepPaths(ignore, headers[..i + 1]));
      assert after == before + [Dirname(f)];
      assert after[..|after| - 1] == before;
      FirstOccurrencesElements(before);
    } else {
      assert KeepPaths(ignore, headers[..i + 1]) == KeepPaths(ignore, headers[..i]);
    }
  }

  /** `get_include_file_path` after the glob: the directory of every kept
      header, each directory once, in the order first met. */
  method IncludeDirs(ignore: string, headers: seq<string>) returns (dirs: seq<string>)
    ensures dirs == FirstOccurrences(Dirnames(KeepPaths(ignore, headers)))
    ensures NoDuplicates(dirs)
    ensures forall h <- headers :: Kept(ignore, h) ==> Dirname(h) in dirs
  {
    dirs := [];
    var i := 0;
    while i < |headers|
      invariant 0 <= i <= |headers|
      invariant dirs == FirstOccurrences(Dirnames(KeepPaths(ignore, headers[..i])))
    {
      var f := headers[i];
      IncludeDirsStep(ignore, headers, i);
      if ignore == "" || !Contains(f, ignore) {
        var dir := Dirname(f);
        if dir !in dirs {
          dirs := dirs + [dir];
        }
      }
      i := i + 1;
    }
    assert headers[..i] == headers;
    IncludeDirsShape(ignore, headers);
  }

  /** What the header search promises: no directory twice, every directory
      that of a kept header, and every kept header's directory present. (The
      order is that of `FirstOccurrencesOrder`.) */
  lemma IncludeDirsShape(ignore: string, headers: seq<string>)
    ensures var dirs := FirstOccurrences(Dirnames(KeepPaths(ignore, headers)));
      && NoDuplicates(dirs)
      && (forall d <- dirs :: d in Dirnames(KeepPaths(ignore, headers)))
      && (forall h <- headers :: Kept(ignore, h) ==> Dirname(h) in dirs)
  {
    var kept := KeepPaths(ignore, headers);
    var names := Dirnames(kept);
    FirstOccurrencesElements(names);
    forall h | h in headers && Kept(ignore, h)
      ensures Dirname(h) in names
    {
      var k :| 0 <= k < |kept| && kept[k] == h;
      assert names[k] == Dirname(h);
    }
  }

  // ---------------------------------------------------------------------------
  // gen_cflags

  /** `gen_cflags`: the language standard, one `-I` per include directory,
      then one `-D` per define, each list in its given order. */
  method GenCflags(includeDirs: seq<string>, defines: seq<string>) returns (cflags: seq<string>)
    ensures |cflags| == 1 + |includeDirs| + |defines|
    ensures cflags[0] == "-std=gnu11"
    ensures forall k :: 0 <= k < |includeDirs| ==> cflags[1 + k] == "-I" + includeDirs[k]
    ensures forall k :: 0 <= k < |defines| ==> cflags[1 + |includeDirs| + k] == "-D" + defines[k]
  {
    cflags := ["-std=gnu11"];
    var i := 0;
    while i < |includeDirs|
      invariant 0 <= i <= |includeDirs|
      invariant |cflags| == 1 + i && cflags[0] == "-std=gnu11"
      invariant forall k :: 0 <= k < i ==> cflags[1 + k] == "-I" + includeDirs[k]
    {
      cflags := cflags + ["-I" + includeDirs[i]];
      i := i + 1;
    }
    var j := 0;
    while j < |defines|
      invariant 0 <= j <= |defines|
      invariant |cflags| == 1 + |includeDirs| + j && cflags[0] == "-std=gnu11"
      invariant forall k :: 0 <= k < |includeDirs| ==> cflags[1 + k] == "-I" + includeDirs[k]
      invariant forall k :: 0 <= k < j ==> cflags[1 + |includeDirs| + k] == "-D" + defines[k]
    {
      cflags := cflags + ["-D" + defines[j]];
      j := j + 1;
    }
  }

  // ---------------------------------------------------------------------------
  // gen_compile_command

  /** The flags argument: a single string stands for a one-flag list. */
  datatype Flags = Single(flag: string) | Many(flags: seq<string>)

  /** The flags as a list. */
  function FlagList(c: Flags): seq<string> {
    match c
    case Single(f) => [f]
    case Many(fs) => fs
  }

  /** The object file: the name with its extension (if any) replaced by `.o`. */
  function ObjectName(filename: string): string {
    SplitExt(filename).0 + ".o"
  }

  /** `ObjectName` replaces an extension and otherwise appends: a name with an
      extension loses everything from its last dot, one without gets `.o`
      added at the end. */
  lemma ObjectNameRule(filename: string)
    ensures HasExtension(filename) ==>
      var d := RFind(filename, '.');
      0 <= d && ObjectName(filename) == filename[..d] + ".o" && Sep !in filename[d..]
    ensures !HasExtension(filename) ==> ObjectName(filename) == filename + ".o"
  {
    var (root, ext) := SplitExt(filename);
    if HasExtension(filename) {
      var d := RFind(filename, '.');
      SplitExtFindsExtension(filename);
      assert root == filename[..d];
      assert ext == filename[d..];
    }
  }

  /** `dir/x.c` compiles to `dir/x.o`. */
  lemma ObjectNameReplacesExtension()
    ensures ObjectName("dir/x.c") == "dir/x.o"
  {
    var f := "dir/x.c";
    assert HasExtension(f) by {
      assert f[4] != '.' && f[5] == '.' && Sep !in f[4..];
    }
    ObjectNameRule(f);
    assert RFind(f, '.') == 5;
    assert f[..5] == "dir/x";
  }

  /** A leading dot is no extension: `.bashrc` compiles to `.bashrc.o`. */
  lemma ObjectNameLeadingDot()
    ensures ObjectName(".bashrc") == ".bashrc.o"
  {
    var g := ".bashrc";
    assert !HasExtension(g) by {
      forall d | 0 <= d < |g| && g[d] == '.'
        ensures d == 0
      {
      }
    }
    ObjectNameRule(g);
  }

  /** `gen_compile_command`: the toolchain, the flags, `-c -o`, the object
      file and the source file. */
  function GenCompileCommand(filename: string, toolchain: string, cflags: Flags): seq<string> {
    [toolchain] + FlagList(cflags) + ["-c", "-o", ObjectName(filename), filename]
  }

  /** Reading a generated command back: the toolchain, the flags and the
      source file, provided the command ends in `-c -o <object> <file>` with
      the object named after the file. */
  function ParseCommand(command: seq<string>): Option<(string, seq<string>, string)> {
    var n := |command|;
    if n >= 5 && command[n - 4] == "-c" && command[n - 3] == "-o"
       && command[n - 2] == ObjectName(command[n - 1])
    then Some((command[0], command[1..n - 4], command[n - 1]))
    else None
  }

  /** A generated command reads back as the toolchain, the flags and the file
      it was made from, so it has `|flags| + 5` words, starts with the
      toolchain and ends with the object and the source file. */
  lemma ParseGenCompileCommand(filename: string, toolchain: string, cflags: Flags)
    ensures var c := GenCompileCommand(filename, toolchain, cflags);
      && |c| == |FlagList(cflags)| + 5
      && c[0] == toolchain && c[|c| - 1] == filename && c[|c| - 2] == ObjectName(filename)
      && ParseCommand(c) == Some((toolchain, FlagList(cflags), filename))
  {
    var c := GenCompileCommand(filename, toolchain, cflags);
    assert c[1..|c| - 4] == FlagList(cflags);
  }

  /** A single flag string gives the same command as the one-flag list. */
  lemma SingleFlagIsList(filename: string, toolchain: string, flag: string)
    ensures GenCompileCommand(filename, toolchain, Single(flag)) ==
      GenCompileCommand(filename, toolchain, Many([flag]))
  {
  }

  // ---------------------------------------------------------------------------
  // main

  /** The entry `main` writes for one source file. */
  function EntryFor(rootDir: string, file: string, cflags: seq<string>): Entry {
    Entry(rootDir, file, Join(" ", GenCompileCommand(file, "gcc", Many(cflags))))
  }

  /** `main`'s loop: one entry per source file, in order. */
  method GenEntries(rootDir: string, sources: seq<string>, cflags: seq<string>)
    returns (entries: seq<Entry>)
    ensures |entries| == |sources|
    ensures forall k :: 0 <= k < |sources| ==>
      entries[k].directory == rootDir && entries[k].file == sources[k]
    ensures forall k :: 0 <= k < |sources| ==>
      entries[k].command == Join(" ", GenCompileCommand(sources[k], "gcc", Many(cflags)))
  {
    entries := [];
    var i := 0;
    while i < |sources|
      invariant 0 <= i <= |sources|
      invariant |entries| == i
      invariant forall k :: 0 <= k < i ==> entries[k] == EntryFor(rootDir, sources[k], cflags)
    {
      entries := entries + [EntryFor(rootDir, sources[i], cflags)];
      i := i + 1;
    }
  }

  /** When no word has a space in it, the command line of an entry splits at
      spaces back into the generated words, which read back as `gcc`, the
      flags and the file. */
  lemma EntryCommandReadsBack(rootDir: string, file: string, cflags: seq<string>)
    requires ' ' !in file && forall f <- cflags :: ' ' !in f
    ensures var words := Split(EntryFor(rootDir, file, cflags).command, ' ');
      && words == GenCompileCommand(file, "gcc", Many(cflags))
      && ParseCommand(words) == Some(("gcc", cflags, file))
  {
    var words := GenCompileCommand(file, "gcc", Many(cflags));
    var root := SplitExt(file).0;
    assert root == file[..|root|];
    assert ' ' !in root by {
      forall k | 0 <= k < |root|
        ensures root[k] != ' '
      {
        assert root[k] == file[k];
      }
    }
    assert ' ' !in ObjectName(file);
    forall w | w in words
      ensures ' ' !in w
    {
      var k :| 0 <= k < |words| && words[k] == w;
      if 1 <= k < |words| - 4 {
        assert w == cflags[k - 1];
      }
    }
    SplitJoin(words, ' ');
    ParseGenCompileCommand(file, "gcc", Many(cflags));
  }

  /** The `-I` flag of each directory, in order. */
  function IncludeFlags(dirs: seq<string>): seq<string> {
    seq(|dirs|, j requires 0 <= j < |dirs| => "-I" + dirs[j])
  }

  /** Flags built from include directories and no defines are the standard
      followed by the `-I` flags. */
  lemma IncludeOnlyFlags(dirs: seq<string>, cflags: seq<string>)
    requires |cflags| == 1 + |dirs| && cflags[0] == "-std=gnu11"
    requires forall k :: 0 <= k < |dirs| ==> cflags[1 + k] == "-I" + dirs[k]
    ensures cflags == ["-std=gnu11"] + IncludeFlags(dirs)
  {
    var expected := ["-std=gnu11"] + IncludeFlags(dirs);
    forall k | 0 <= k < |cflags|
      ensures cflags[k] == expected[k]
    {
      if k > 0 {
        assert expected[k] == IncludeFlags(dirs)[k - 1];
      }
    }
  }

  /** `main`: no ignore string, the found headers' directories as includes, no
      defines, and one entry per found source file. */
  method GenMain(rootDir: string, cFiles: seq<string>, headers: seq<string>)
    returns (entries: seq<Entry>)
    ensures |entries| == |cFiles|
    ensures forall k :: 0 <= k < |cFiles| ==>
      entries[k].directory == rootDir && entries[k].file == cFiles[k]
    ensures forall k :: 0 <= k < |cFiles| ==>
      var cflags := ["-std=gnu11"] + IncludeFlags(FirstOccurrences(Dirnames(headers)));
      entries[k].command == Join(" ", GenCompileCommand(cFiles[k], "gcc", Many(cflags)))
  {
    var sources := KeepPaths("", cFiles);
    KeepAllWithoutIgnore(cFiles);
    var dirs := IncludeDirs("", headers);
    KeepAllWithoutIgnore(headers);
    assert dirs == FirstOccurrences(Dirnames(headers));
    var cflags := GenCflags(dirs, []);
    IncludeOnlyFlags(dirs, cflags);
    entries := GenEntries(rootDir, sources, cflags);
  }
}
