/**
 The two regular expressions the log extractor applies to each line, written
 out as scanners with the meaning Python's `re.findall` gives them:

   command tokens   '(?:[^']|'{2})+'   (no group: the whole match, quotes included)
   source files     '([^']+\.c)'       (one group: the text between the quotes)

 Each single-position matcher transcribes the backtracking engine: a greedy
 repetition first tries one more round and only falls back to the rest of the
 pattern at the current position when that fails. `FindAll` then scans left to
 right, taking the match at the leftmost position that has one and resuming
 right after it.
 */
module Patterns {
  import opened Wrappers
  import opened Text
  import opened Scanning

  const Quote: char := '\''

  /** The inside of a quoted token: characters other than a quote, and quotes
      that come in doubled pairs. */
  predicate QuotedBody(b: string)
    decreases |b|
  {
    if b == [] then true
    else if b[0] != Quote then QuotedBody(b[1..])
    else |b| >= 2 && b[1] == Quote && QuotedBody(b[2..])
  }

  /** A text the command-token pattern matches as a whole. */
  predicate IsToken(t: string) {
    |t| >= 3 && t[0] == Quote && t[|t| - 1] == Quote && QuotedBody(t[1..|t| - 1])
  }

  /** A text the source-file pattern matches as a whole: a quoted run of at
      least one non-quote character followed by `.c`. */
  predicate IsFileMatch(t: string) {
    |t| >= 5 && t[0] == Quote && t[|t| - 1] == Quote && Quote !in t[1..|t| - 1]
    && t[|t| - 3] == '.' && t[|t| - 2] == 'c'
  }

  // ---------------------------------------------------------------------------
  // '(?:[^']|'{2})+'

  /** From position `j`, inside the repetition `(?:[^']|'{2})+` (`repeated`
      tells whether one round has been matched already), the end of the match
      once the closing quote is found, trying the longest repetition first. */
  function CloseToken(s: string, j: nat, repeated: bool): (r: Option<nat>)
    requires j <= |s|
    ensures r.Some? ==> j < r.value <= |s|
    decreases |s| - j
  {
    var longer :=
      if j < |s| && s[j] != Quote then CloseToken(s, j + 1, true)
      else if j + 1 < |s| && s[j] == Quote && s[j + 1] == Quote then CloseToken(s, j + 2, true)
      else None;
    if longer.Some? then longer
    else if repeated && j < |s| && s[j] == Quote then Some(j + 1)
    else None
  }

  /** Where `CloseToken` succeeds, the match ends in a quote after a
      well-formed body, non-empty unless a round was already matched. */
  lemma {:induction false} CloseTokenSound(s: string, j: nat, repeated: bool)
    requires j <= |s|
    ensures var r := CloseToken(s, j, repeated);
      r.Some? ==> s[r.value - 1] == Quote && QuotedBody(s[j..r.value - 1]) && (repeated || j < r.value - 1)
    decreases |s| - j
  {
    var r := CloseToken(s, j, repeated);
    if r.Some? {
      var e := r.value;
      if j < |s| && s[j] != Quote && CloseToken(s, j + 1, true).Some? {
        CloseTokenSound(s, j + 1, true);
        assert s[j..e - 1][1..] == s[j + 1..e - 1];
      } else if j + 1 < |s| && s[j] == Quote && s[j + 1] == Quote && CloseToken(s, j + 2, true).Some? {
        CloseTokenSound(s, j + 2, true);
        assert s[j..e - 1][2..] == s[j + 2..e - 1];
      } else {
        assert e == j + 1;
      }
    }
  }

  /** No quote-terminated, well-formed body from `j` reaches further than the
      end `CloseToken` reports: the backtracking finds the longest one. */
  lemma {:induction false} CloseTokenLongest(s: string, j: nat, repeated: bool, e: nat)
    requires j < e <= |s|
    requires s[e - 1] == Quote && QuotedBody(s[j..e - 1]) && (repeated || j < e - 1)
    ensures CloseToken(s, j, repeated).Some? && e <= CloseToken(s, j, repeated).value
    decreases |s| - j
  {
    if e - 1 > j {
      var b := s[j..e - 1];
      if s[j] != Quote {
        assert b[1..] == s[j + 1..e - 1];
        CloseTokenLongest(s, j + 1, true, e);
      } else {
        assert b[2..] == s[j + 2..e - 1];
        CloseTokenLongest(s, j + 2, true, e);
      }
    }
  }

  /** The end of the command-token match starting at `i`, if any. */
  function MatchToken(s: string, i: nat): (r: Option<nat>)
    ensures r.Some? ==> i < r.value <= |s|
  {
    if i < |s| && s[i] == Quote then CloseToken(s, i + 1, false) else None
  }

  /** The command-token matcher finds exactly the longest token starting at
      `i`, and nothing when no token starts there. */
  lemma MatchTokenIsLongest(s: string, i: nat)
    requires i <= |s|
    ensures MatchToken(s, i).Some? ==> IsToken(s[i..MatchToken(s, i).value])
    ensures forall e :: i < e <= |s| && IsToken(s[i..e]) ==>
      MatchToken(s, i).Some? && e <= MatchToken(s, i).value
  {
    if i < |s| && s[i] == Quote {
      CloseTokenSound(s, i + 1, false);
      if MatchToken(s, i).Some? {
        var e := MatchToken(s, i).value;
        SliceOfSlice(s, i, e, 1, e - i - 1);
      }
    }
    forall e | i < e <= |s| && IsToken(s[i..e])
      ensures MatchToken(s, i).Some? && e <= MatchToken(s, i).value
    {
      SliceOfSlice(s, i, e, 1, e - i - 1);
      CloseTokenLongest(s, i + 1, false, e);
    }
  }

  // ---------------------------------------------------------------------------
  // '([^']+\.c)'

  /** From position `j`, inside the repetition `[^']+` (`taken` tells whether a
      character has been matched already), the end of the match once `.c'`
      follows, trying the longest repetition first. */
  function CloseFile(s: string, j: nat, taken: bool): (r: Option<nat>)
    requires j <= |s|
    ensures r.Some? ==> j + (if taken then 3 else 4) <= r.value <= |s|
    decreases |s| - j
  {
    var longer := if j < |s| && s[j] != Quote then CloseFile(s, j + 1, true) else None;
    if longer.Some? then longer
    else if taken && j + 3 <= |s| && s[j] == '.' && s[j + 1] == 'c' && s[j + 2] == Quote then Some(j + 3)
    else None
  }

  /** A slice without quotes has no quote at any of its positions. */
  lemma QuoteFreeSlice(s: string, lo: nat, hi: nat)
    requires lo <= hi <= |s| && Quote !in s[lo..hi]
    ensures forall k :: lo <= k < hi ==> s[k] != Quote
  {
    forall k | lo <= k < hi
      ensures s[k] != Quote
    {
      assert s[lo..hi][k - lo] == s[k];
    }
  }

  /** Characterisation of `CloseFile`: it ends right after the first quote at or
      after `j`, when that quote follows `.c` and leaves room for `[^']+`. */
  lemma {:induction false} CloseFileExact(s: string, j: nat, taken: bool, e: nat)
    requires j <= |s|
    ensures CloseFile(s, j, taken) == Some(e) <==>
      (j + (if taken then 3 else 4) <= e <= |s| && Quote !in s[j..e - 1] && s[e - 1] == Quote
       && s[e - 3] == '.' && s[e - 2] == 'c')
    decreases |s| - j
  {
    if j < |s| && s[j] != Quote {
      CloseFileExact(s, j + 1, true, e);
      var longer := CloseFile(s, j + 1, true);
      if longer.Some? {
        CloseFileExact(s, j + 1, true, longer.value);
        QuoteFreeSlice(s, j + 1, longer.value - 1);
        if j + (if taken then 3 else 4) <= e <= |s| && Quote !in s[j..e - 1] && s[e - 1] == Quote {
          assert s[j..e - 1][1..] == s[j + 1..e - 1];
        }
      } else if j + (if taken then 3 else 4) <= e <= |s| && Quote !in s[j..e - 1] && s[e - 1] == Quote {
        if e - 3 > j {
          assert s[j..e - 1][1..] == s[j + 1..e - 1];
        }
      }
    }
  }

  /** The end of the source-file match starting at `i`, if any. */
  function MatchFile(s: string, i: nat): (r: Option<nat>)
    ensures r.Some? ==> i + 5 <= r.value <= |s|
  {
    if i < |s| && s[i] == Quote then CloseFile(s, i + 1, false) else None
  }

  /** A source-file match is unique where it exists: the matcher succeeds at
      `i` exactly when some text starting there fits the pattern, and then it
      ends at that text's end. */
  lemma MatchFileIsUnique(s: string, i: nat)
    requires i <= |s|
    ensures MatchFile(s, i).Some? ==> IsFileMatch(s[i..MatchFile(s, i).value])
    ensures forall e :: i < e <= |s| && IsFileMatch(s[i..e]) ==> MatchFile(s, i) == Some(e)
  {
    if MatchFile(s, i).Some? {
      var e := MatchFile(s, i).value;
      CloseFileExact(s, i + 1, false, e);
      SliceOfSlice(s, i, e, 1, e - i - 1);
    }
    forall e | i < e <= |s| && IsFileMatch(s[i..e])
      ensures MatchFile(s, i) == Some(e)
    {
      SliceOfSlice(s, i, e, 1, e - i - 1);
      CloseFileExact(s, i + 1, false, e);
    }
  }

  // ---------------------------------------------------------------------------
  // findall

  datatype Pattern = CommandToken | SourceFile

  /** The end of the match of `p` that starts at `i`, if any. */
  function MatchAt(p: Pattern, s: string, i: nat): (r: Option<nat>)
    ensures r.Some? ==> i < r.value <= |s|
    ensures r.Some? && p == SourceFile ==> i + 5 <= r.value
  {
    match p
    case CommandToken => MatchToken(s, i)
    case SourceFile => MatchFile(s, i)
  }

  /** Where the match of `p` starting at each position of `s` ends. */
  function MatchTable(p: Pattern, s: string): (m: seq<Option<nat>>)
    ensures |m| == |s| && ValidTable(m)
    ensures forall j :: 0 <= j < |s| ==> m[j] == MatchAt(p, s, j)
  {
    seq(|s|, j requires 0 <= j < |s| => MatchAt(p, s, j))
  }

  /** No match of `p` starts anywhere in `[lo, hi)`. */
  predicate NoMatchIn(p: Pattern, s: string, lo: nat, hi: nat) {
    forall j :: lo <= j < hi ==> MatchAt(p, s, j).None?
  }

  /** `NoMatchIn` is the table's silence over the same range. */
  lemma NoMatchInTable(p: Pattern, s: string, lo: nat, hi: nat)
    requires hi <= |s|
    ensures NoMatchIn(p, s, lo, hi) <==> Silent(MatchTable(p, s), lo, hi)
  {
    var m := MatchTable(p, s);
    if Silent(m, lo, hi) {
      forall j | lo <= j < hi
        ensures MatchAt(p, s, j).None?
      {
        assert m[j].None?;
      }
    }
  }

  /** `re.findall`'s scan from position `i`: the spans of the successive
      matches, each the match of `p` at its start, in left-to-right order and
      without overlap. */
  function FindAll(p: Pattern, s: string, i: nat): (r: seq<Span>)
    requires i <= |s|
    ensures i == |s| ==> r == []
    ensures forall k :: 0 <= k < |r| ==>
      i <= r[k].start < r[k].end <= |s| && MatchAt(p, s, r[k].start) == Some(r[k].end)
    ensures forall k :: 0 <= k < |r| - 1 ==> r[k].end <= r[k + 1].start
  {
    var m := MatchTable(p, s);
    var r := Scan(m, i);
    assert forall k :: 0 <= k < |r| ==> m[r[k].start] == MatchAt(p, s, r[k].start);
    r
  }

  /** One step of the scan: a match at `i` is reported and the scan resumes at
      its end; otherwise the scan moves on to `i + 1`. */
  lemma FindAllStep(p: Pattern, s: string, i: nat)
    requires i < |s|
    ensures MatchAt(p, s, i).Some? ==>
      FindAll(p, s, i) == [Span(i, MatchAt(p, s, i).value)] + FindAll(p, s, MatchAt(p, s, i).value)
    ensures MatchAt(p, s, i).None? ==> FindAll(p, s, i) == FindAll(p, s, i + 1)
  {
    assert MatchTable(p, s)[i] == MatchAt(p, s, i);
  }

  /** The scan is leftmost: no match starts in any gap it leaves, before the
      first match, between two neighbours or after the last. */
  lemma FindAllSkipsOnlyNonMatches(p: Pattern, s: string, i: nat)
    requires i <= |s|
    ensures var r := FindAll(p, s, i);
      && NoMatchIn(p, s, i, if r == [] then |s| else r[0].start)
      && (forall k :: 0 <= k < |r| - 1 ==> NoMatchIn(p, s, r[k].end, r[k + 1].start))
      && (r != [] ==> NoMatchIn(p, s, r[|r| - 1].end, |s|))
  {
    var m := MatchTable(p, s);
    var r := FindAll(p, s, i);
    ScanFirstGap(m, i);
    ScanInnerGaps(m, i);
    ScanLastGap(m, i);
    NoMatchInTable(p, s, i, if r == [] then |s| else r[0].start);
    forall k | 0 <= k < |r| - 1
      ensures NoMatchIn(p, s, r[k].end, r[k + 1].start)
    {
      NoMatchInTable(p, s, r[k].end, r[k + 1].start);
    }
    if r != [] {
      NoMatchInTable(p, s, r[|r| - 1].end, |s|);
    }
  }

  /** Positions where no match starts are passed over. */
  lemma FindAllSkips(p: Pattern, s: string, i: nat, j: nat)
    requires i <= j <= |s|
    requires NoMatchIn(p, s, i, j)
    ensures FindAll(p, s, i) == FindAll(p, s, j)
  {
    NoMatchInTable(p, s, i, j);
    ScanSkips(MatchTable(p, s), i, j);
  }

  /** Where no match starts, the scan finds nothing. */
  lemma FindAllOfNoMatch(p: Pattern, s: string, i: nat)
    requires i <= |s|
    requires NoMatchIn(p, s, i, |s|)
    ensures FindAll(p, s, i) == []
  {
    FindAllSkips(p, s, i, |s|);
  }

  /** What `findall` reports for one match: the whole match when the pattern
      has no group, the text of its one group otherwise. */
  function Capture(p: Pattern, s: string, sp: Span): string
    requires MatchAt(p, s, sp.start) == Some(sp.end)
  {
    match p
    case CommandToken => s[sp.start..sp.end]
    case SourceFile => s[sp.start + 1..sp.end - 1]
  }

  /** What `findall` reports for a run of matches. */
  function Captures(p: Pattern, s: string, spans: seq<Span>): seq<string>
    requires forall k :: 0 <= k < |spans| ==> MatchAt(p, s, spans[k].start) == Some(spans[k].end)
  {
    seq(|spans|, k requires 0 <= k < |spans| => Capture(p, s, spans[k]))
  }

  /** Python's `re.findall(p, s)`. */
  function FindAllText(p: Pattern, s: string): seq<string> {
    Captures(p, s, FindAll(p, s, 0))
  }

  /** Every command token keeps its quotes and is well formed. */
  lemma TokensAreQuoted(s: string)
    ensures forall t <- FindAllText(CommandToken, s) :: IsToken(t)
  {
    var spans := FindAll(CommandToken, s, 0);
    forall k | 0 <= k < |spans|
      ensures IsToken(Capture(CommandToken, s, spans[k]))
    {
      MatchTokenIsLongest(s, spans[k].start);
    }
  }

  /** The group of one source-file match: no quote, `.c` at the end and at
      least one character before it. */
  lemma SourceCaptureIsBare(s: string, sp: Span)
    requires MatchAt(SourceFile, s, sp.start) == Some(sp.end)
    ensures var f := Capture(SourceFile, s, sp); |f| >= 3 && Quote !in f && f[|f| - 2..] == ".c"
  {
    MatchFileIsUnique(s, sp.start);
    var t := s[sp.start..sp.end];
    SliceOfSlice(s, sp.start, sp.end, 1, |t| - 1);
    var f := Capture(SourceFile, s, sp);
    assert f == t[1..|t| - 1];
    assert f[|f| - 2..] == [t[|t| - 3], t[|t| - 2]];
  }

  /** Every captured source name is free of quotes, ends in `.c` and has at
      least one character before it. */
  lemma SourceNamesAreBare(s: string)
    ensures forall f <- FindAllText(SourceFile, s) :: |f| >= 3 && Quote !in f && f[|f| - 2..] == ".c"
  {
    var spans := FindAll(SourceFile, s, 0);
    forall k | 0 <= k < |spans|
      ensures var f := Capture(SourceFile, s, spans[k]); |f| >= 3 && Quote !in f && f[|f| - 2..] == ".c"
    {
      SourceCaptureIsBare(s, spans[k]);
    }
  }

  /** Both patterns begin with a quote, so a line without one yields nothing. */
  lemma NoQuoteNoMatch(p: Pattern, s: string)
    requires Quote !in s
    ensures FindAllText(p, s) == []
  {
    forall j | 0 <= j < |s|
      ensures MatchAt(p, s, j).None?
    {
      assert s[j] in s;
    }
    FindAllOfNoMatch(p, s, 0);
  }

  // ---------------------------------------------------------------------------
  // Quote runs inside a token

  /** The number of quotes at the start of `t`. */
  function QuoteRun(t: string): (n: nat)
    ensures n <= |t|
    decreases |t|
  {
    if t != [] && t[0] == Quote then 1 + QuoteRun(t[1..]) else 0
  }

  /** Position `j` starts a maximal run of quotes. */
  predicate RunStart(b: string, j: nat) {
    j < |b| && b[j] == Quote && (j == 0 || b[j - 1] != Quote)
  }

  /** Every maximal run of quotes has even length. */
  predicate EvenRuns(b: string) {
    forall j {:trigger RunStart(b, j)} :: 0 <= j < |b| && RunStart(b, j) ==> QuoteRun(b[j..]) % 2 == 0
  }

  /** A token body is exactly a text whose maximal runs of quotes all have
      even length: non-quote characters and doubled quotes, nothing else. */
  lemma QuotedBodyEvenRuns(b: string)
    ensures QuotedBody(b) <==> EvenRuns(b)
  {
    if QuotedBody(b) {
      QuotedBodyHasEvenRuns(b);
    }
    if EvenRuns(b) {
      EvenRunsAreQuotedBody(b);
    }
  }

  /** Runs that start past the first `d` characters are runs of `b[d..]`. */
  lemma RunShift(b: string, d: nat, j: nat)
    requires d < j < |b|
    ensures RunStart(b, j) <==> RunStart(b[d..], j - d)
    ensures b[d..][j - d..] == b[j..]
  {
  }

  /** Two leading quotes add two to the run at the start of `b`. */
  lemma LeadingPair(b: string)
    requires |b| >= 2 && b[0] == Quote && b[1] == Quote
    ensures QuoteRun(b) == 2 + QuoteRun(b[2..])
  {
    assert b[1..][1..] == b[2..];
  }

  lemma {:induction false} QuotedBodyHasEvenRuns(b: string)
    requires QuotedBody(b)
    ensures EvenRuns(b)
    decreases |b|
  {
    if b != [] {
      var d := if b[0] != Quote then 1 else 2;
      var t := b[d..];
      QuotedBodyHasEvenRuns(t);
      assert d == 2 ==> b[1] == Quote;
      forall j | 0 <= j < |b| && RunStart(b, j)
        ensures QuoteRun(b[j..]) % 2 == 0
      {
        if j == 0 {
          LeadingPair(b);
          assert b[0..] == b;
          if t != [] && t[0] == Quote {
            assert RunStart(t, 0) && t[0..] == t;
          }
        } else if j == d {
          assert RunStart(t, 0) && t[0..] == b[j..];
        } else {
          RunShift(b, d, j);
        }
      }
    }
  }

  lemma {:induction false} EvenRunsAreQuotedBody(b: string)
    requires EvenRuns(b)
    ensures QuotedBody(b)
    decreases |b|
  {
    if b != [] {
      if b[0] == Quote {
        assert RunStart(b, 0) && b[0..] == b;
        assert QuoteRun(b) == 1 + QuoteRun(b[1..]);
        assert b[1..] != [] && b[1..][0] == Quote;
        LeadingPair(b);
      }
      var d := if b[0] != Quote then 1 else 2;
      var t := b[d..];
      forall j | 0 <= j < |t| && RunStart(t, j)
        ensures QuoteRun(t[j..]) % 2 == 0
      {
        if j == 0 && d == 2 {
          assert t[0..] == t;
        } else if j > 0 {
          RunShift(b, d, j + d);
        } else {
          assert RunStart(b, 1) && t[0..] == b[1..];
        }
      }
      EvenRunsAreQuotedBody(t);
    }
  }

  // ---------------------------------------------------------------------------
  // The doubling convention the command-token pattern is written for

  /** Writes an argument for the inside of a quoted token: each quote doubled. */
  function Escape(v: string): (b: string)
    ensures QuotedBody(b)
    ensures |b| >= |v|
    decreases |v|
  {
    if v == [] then []
    else if v[0] == Quote then [Quote, Quote] + Escape(v[1..])
    else [v[0]] + Escape(v[1..])
  }

  /** Reads an argument back from the inside of a quoted token: each doubled
      quote stands for one. */
  function Unescape(b: string): string
    requires QuotedBody(b)
    decreases |b|
  {
    if b == [] then []
    else if b[0] != Quote then [b[0]] + Unescape(b[1..])
    else [Quote] + Unescape(b[2..])
  }

  /** Reading back what was written gives the argument. */
  lemma {:induction false} UnescapeEscape(v: string)
    ensures Unescape(Escape(v)) == v
    decreases |v|
  {
    if v != [] {
      UnescapeEscape(v[1..]);
      var b := Escape(v);
      if v[0] == Quote {
        assert b[2..] == Escape(v[1..]);
      } else {
        assert b[1..] == Escape(v[1..]);
      }
      assert [v[0]] + v[1..] == v;
    }
  }

  /** Every well-formed token body is the written form of its reading. */
  lemma {:induction false} EscapeUnescape(b: string)
    requires QuotedBody(b)
    ensures Escape(Unescape(b)) == b
    decreases |b|
  {
    if b != [] {
      if b[0] != Quote {
        EscapeUnescape(b[1..]);
        assert ([b[0]] + Unescape(b[1..]))[1..] == Unescape(b[1..]);
        assert [b[0]] + b[1..] == b;
      } else {
        EscapeUnescape(b[2..]);
        assert ([Quote] + Unescape(b[2..]))[1..] == Unescape(b[2..]);
        assert [Quote, Quote] + b[2..] == b;
      }
    }
  }

  /** Parsing a well-formed body never straddles its end: after it, the rest
      is well formed exactly when it is well formed on its own. */
  lemma {:induction false} QuotedBodyAppend(b: string, x: string)
    requires QuotedBody(b)
    ensures QuotedBody(b + x) <==> QuotedBody(x)
    decreases |b|
  {
    if b != [] {
      if b[0] != Quote {
        assert (b + x)[1..] == b[1..] + x;
        QuotedBodyAppend(b[1..], x);
      } else {
        assert (b + x)[2..] == b[2..] + x;
        QuotedBodyAppend(b[2..], x);
      }
    } else {
      assert b + x == x;
    }
  }

  /** One argument written as a quoted token. */
  function QuoteArg(v: string): string {
    [Quote] + Escape(v) + [Quote]
  }

  /** Each argument written as a quoted token. */
  function QuoteArgs(args: seq<string>): (r: seq<string>)
    ensures |r| == |args| && forall k :: 0 <= k < |args| ==> r[k] == QuoteArg(args[k])
  {
    seq(|args|, k requires 0 <= k < |args| => QuoteArg(args[k]))
  }

  /** A quoted non-empty argument is a token, and the longest one where it
      starts when it is followed by a space or by nothing. */
  lemma QuotedArgMatches(s: string, i: nat, v: string)
    requires v != []
    requires i + |QuoteArg(v)| <= |s| && s[i..i + |QuoteArg(v)|] == QuoteArg(v)
    requires i + |QuoteArg(v)| < |s| ==> s[i + |QuoteArg(v)|] == ' '
    ensures MatchAt(CommandToken, s, i) == Some(i + |QuoteArg(v)|)
  {
    var n := |QuoteArg(v)|;
    QuoteArgIsToken(v);
    MatchTokenIsLongest(s, i);
    var e := MatchToken(s, i).value;
    if e > i + n {
      NoLongerToken(s, i, v, e);
    }
  }

  /** A quoted non-empty argument is a well-formed token. */
  lemma QuoteArgIsToken(v: string)
    requires v != []
    ensures IsToken(QuoteArg(v))
  {
    var t := QuoteArg(v);
    assert t[1..|t| - 1] == Escape(v);
  }

  /** No token starting at a quoted argument runs past the space after it. */
  lemma NoLongerToken(s: string, i: nat, v: string, e: nat)
    requires i + |QuoteArg(v)| < e <= |s| && s[i..i + |QuoteArg(v)|] == QuoteArg(v)
    requires s[i + |QuoteArg(v)|] == ' '
    ensures !IsToken(s[i..e])
  {
    SliceOfSlice(s, i, e, 1, e - i - 1);
    var t := QuoteArg(v);
    var n := |t|;
    var body := Escape(v);
    var x := s[i + n - 1..e - 1];
    assert s[i + 1..i + n - 1] == body by {
      assert t[1..n - 1] == body;
      SliceOfSlice(s, i, i + n, 1, n - 1);
    }
    assert s[i + 1..e - 1] == s[i + 1..i + n - 1] + x;
    assert x[0] == Quote by {
      assert s[i + n - 1] == s[i..i + n][n - 1];
    }
    QuotedBodyAppend(body, x);
  }

  /** The written-out form of the arguments, joined by single spaces. */
  function CommandLine(args: seq<string>): string {
    Join(" ", QuoteArgs(args))
  }

  /** Tokenising a command line made of quoted non-empty arguments, joined by
      single spaces, gives back exactly those quoted arguments, in order. */
  lemma TokenizeCommandLine(args: seq<string>)
    requires forall v <- args :: v != ""
    ensures FindAllText(CommandToken, CommandLine(args)) == QuoteArgs(args)
  {
    var s := CommandLine(args);
    ScanQuotedArgs(s, 0, args);
  }

  /** The command line of two or more arguments: the first quoted, a space,
      then the command line of the rest. */
  lemma CommandLineCons(args: seq<string>)
    requires |args| >= 2
    ensures CommandLine(args) == QuoteArg(args[0]) + " " + CommandLine(args[1..])
  {
    assert QuoteArgs(args) == [QuoteArg(args[0])] + QuoteArgs(args[1..]);
    JoinCons(" ", QuoteArg(args[0]), QuoteArgs(args[1..]));
  }

  /** Captures of a run of matches: the first one's, then the others'. */
  lemma CapturesCons(p: Pattern, s: string, sp: Span, rest: seq<Span>)
    requires MatchAt(p, s, sp.start) == Some(sp.end)
    requires forall k :: 0 <= k < |rest| ==> MatchAt(p, s, rest[k].start) == Some(rest[k].end)
    ensures Captures(p, s, [sp] + rest) == [Capture(p, s, sp)] + Captures(p, s, rest)
  {
  }

  /** Reading a line positioned at `i` as `a`, a space, then `b`. */
  lemma SplitLineAt(s: string, i: nat, a: string, b: string)
    requires i <= |s| && s[i..] == a + " " + b
    ensures i + |a| < |s| && s[i..i + |a|] == a && s[i + |a|] == ' ' && s[i + |a| + 1..] == b
  {
    assert s[i..][..|a|] == a;
    assert s[i..][|a|] == ' ';
    assert s[i..][|a| + 1..] == b;
  }

  /** `TokenizeCommandLine`, from any position where the rest of the line is a
      command line. */
  lemma {:induction false} ScanQuotedArgs(s: string, i: nat, args: seq<string>)
    requires i <= |s| && s[i..] == CommandLine(args)
    requires forall v <- args :: v != ""
    ensures Captures(CommandToken, s, FindAll(CommandToken, s, i)) == QuoteArgs(args)
    decreases |args|
  {
    if args == [] {
      assert |s[i..]| == 0;
    } else {
      var v := args[0];
      assert v in args;
      var t := QuoteArg(v);
      var n := |t|;
      CommandLineLayout(s, i, args);
      QuotedArgMatches(s, i, v);
      var tail := FindAll(CommandToken, s, i + n);
      assert FindAll(CommandToken, s, i) == [Span(i, i + n)] + tail;
      CapturesCons(CommandToken, s, Span(i, i + n), tail);
      assert QuoteArgs(args) == [t] + QuoteArgs(args[1..]);
      if |args| == 1 {
        assert tail == [];
      } else {
        var rest := args[1..];
        var next := i + n + 1;
        assert MatchAt(CommandToken, s, i + n).None?;
        assert tail == FindAll(CommandToken, s, next);
        forall u | u in rest ensures u != "" { assert u in args; }
        ScanQuotedArgs(s, next, rest);
      }
    }
  }

  // ---------------------------------------------------------------------------
  // Source names on a command line of quote-free arguments

  /** An argument the source-file pattern captures when it stands alone in
      quotes: at least one character, then `.c`. */
  predicate LooksLikeSource(v: string) {
    |v| >= 3 && v[|v| - 2] == '.' && v[|v| - 1] == 'c'
  }

  /** The arguments that look like C sources, in order. */
  function SourceArgs(args: seq<string>): seq<string>
    decreases |args|
  {
    if args == [] then []
    else (if LooksLikeSource(args[0]) then [args[0]] else []) + SourceArgs(args[1..])
  }

  /** An argument without quotes is written as it is. */
  lemma {:induction false} EscapeQuoteFree(v: string)
    requires Quote !in v
    ensures Escape(v) == v
    decreases |v|
  {
    if v != [] {
      EscapeQuoteFree(v[1..]);
      assert [v[0]] + v[1..] == v;
    }
  }

  /** An argument without quotes is quoted by wrapping it in quotes. */
  lemma QuoteArgPlain(v: string)
    requires Quote !in v
    ensures QuoteArg(v) == [Quote] + v + [Quote]
  {
    EscapeQuoteFree(v);
  }

  /** A source-file match from `j` cannot run past a quote at `q`. */
  lemma FileMatchStopsAtQuote(s: string, j: nat, q: nat)
    requires j < q < |s| && s[q] == Quote
    ensures MatchFile(s, j).Some? ==> MatchFile(s, j).value - 1 <= q
  {
    MatchFileIsUnique(s, j);
  }

  /** How the source-file pattern treats one quoted quote-free argument that is
      followed by nothing or by a space and another quoted argument: it
      matches the whole quoted argument when it looks like a source, and
      otherwise no match starts anywhere up to the next argument. */
  lemma QuotedArgSource(s: string, i: nat, v: string)
    requires v != [] && Quote !in v
    requires i + |v| + 2 <= |s| && s[i..i + |v| + 2] == [Quote] + v + [Quote]
    requires i + |v| + 2 < |s| ==> i + |v| + 3 < |s| && s[i + |v| + 2] == ' ' && s[i + |v| + 3] == Quote
    ensures LooksLikeSource(v) ==> MatchAt(SourceFile, s, i) == Some(i + |v| + 2)
    ensures !LooksLikeSource(v) ==>
      NoMatchIn(SourceFile, s, i, if i + |v| + 2 == |s| then |s| else i + |v| + 3)
  {
    if LooksLikeSource(v) {
      QuotedSourceMatches(s, i, v);
    } else {
      QuotedNonSourceSilent(s, i, v);
    }
  }

  /** A quoted argument that looks like a source is one source-file match. */
  lemma QuotedSourceMatches(s: string, i: nat, v: string)
    requires Quote !in v && LooksLikeSource(v)
    requires i + |v| + 2 <= |s| && s[i..i + |v| + 2] == [Quote] + v + [Quote]
    ensures MatchAt(SourceFile, s, i) == Some(i + |v| + 2)
  {
    var n := |v| + 2;
    var t := s[i..i + n];
    assert t[1..n - 1] == v;
    assert IsFileMatch(t);
    MatchFileIsUnique(s, i);
  }

  /** A source-file match at a quoted quote-free argument covers exactly that
      argument, so the argument looks like a source. */
  lemma QuotedArgFileMatch(s: string, i: nat, v: string)
    requires Quote !in v
    requires i + |v| + 2 <= |s| && s[i..i + |v| + 2] == [Quote] + v + [Quote]
    requires MatchFile(s, i).Some?
    ensures LooksLikeSource(v)
  {
    var n := |v| + 2;
    var e := MatchFile(s, i).value;
    FileMatchStopsAtQuote(s, i, i + n - 1);
    MatchFileIsUnique(s, i);
    assert s[e - 1] == Quote by {
      assert IsFileMatch(s[i..e]);
      assert s[i..e][e - 1 - i] == s[e - 1];
    }
    forall k | i < k < i + n - 1
      ensures s[k] != Quote
    {
      assert s[k] == s[i..i + n][k - i];
      assert v[k - i - 1] in v;
    }
    assert e == i + n;
    assert s[i..e][n - 3] == v[|v| - 2];
  }

  /** A quoted argument that does not look like a source starts no match up to
      the next argument. */
  lemma QuotedNonSourceSilent(s: string, i: nat, v: string)
    requires v != [] && Quote !in v && !LooksLikeSource(v)
    requires i + |v| + 2 <= |s| && s[i..i + |v| + 2] == [Quote] + v + [Quote]
    requires i + |v| + 2 < |s| ==> i + |v| + 3 < |s| && s[i + |v| + 2] == ' ' && s[i + |v| + 3] == Quote
    ensures NoMatchIn(SourceFile, s, i, if i + |v| + 2 == |s| then |s| else i + |v| + 3)
  {
    var n := |v| + 2;
    forall j | i <= j < (if i + n == |s| then |s| else i + n + 1)
      ensures MatchAt(SourceFile, s, j).None?
    {
      if j == i {
        if MatchFile(s, i).Some? {
          QuotedArgFileMatch(s, i, v);
        }
      } else if j < i + n - 1 {
        assert s[j] == s[i..i + n][j - i];
        assert v[j - i - 1] in v;
      } else if j == i + n - 1 && i + n < |s| {
        FileMatchStopsAtQuote(s, j, i + n + 1);
      }
    }
  }

  /** One step of the source-file scan over a quoted quote-free argument:
      its name is captured when it looks like a source, and the scan goes on
      at the next argument (`next`). */
  lemma SourceStep(s: string, i: nat, v: string, next: nat)
    requires v != [] && Quote !in v
    requires i + |v| + 2 <= |s| && s[i..i + |v| + 2] == [Quote] + v + [Quote]
    requires i + |v| + 2 < |s| ==> i + |v| + 3 < |s| && s[i + |v| + 2] == ' ' && s[i + |v| + 3] == Quote
    requires next == if i + |v| + 2 == |s| then |s| else i + |v| + 3
    ensures Captures(SourceFile, s, FindAll(SourceFile, s, i)) ==
      (if LooksLikeSource(v) then [v] else []) + Captures(SourceFile, s, FindAll(SourceFile, s, next))
  {
    if LooksLikeSource(v) {
      SourceStepMatched(s, i, v, next);
    } else {
      QuotedNonSourceSilent(s, i, v);
      FindAllSkips(SourceFile, s, i, next);
    }
  }

  /** `SourceStep` for an argument that looks like a source. */
  lemma SourceStepMatched(s: string, i: nat, v: string, next: nat)
    requires Quote !in v && LooksLikeSource(v)
    requires i + |v| + 2 <= |s| && s[i..i + |v| + 2] == [Quote] + v + [Quote]
    requires i + |v| + 2 < |s| ==> i + |v| + 3 < |s| && s[i + |v| + 2] == ' '
    requires next == if i + |v| + 2 == |s| then |s| else i + |v| + 3
    ensures Captures(SourceFile, s, FindAll(SourceFile, s, i)) ==
      [v] + Captures(SourceFile, s, FindAll(SourceFile, s, next))
  {
    var n := |v| + 2;
    var tail := FindAll(SourceFile, s, next);
    QuotedSourceMatches(s, i, v);
    if next > i + n {
      FindAllStep(SourceFile, s, i + n);
    }
    FindAllStep(SourceFile, s, i);
    CapturesCons(SourceFile, s, Span(i, i + n), tail);
    assert Capture(SourceFile, s, Span(i, i + n)) == v by {
      SliceOfSlice(s, i, i + n, 1, n - 1);
      assert ([Quote] + v + [Quote])[1..n - 1] == v;
    }
  }

  /** The layout of a command line read from `i`: the first argument
      quoted, then either the end of the line or a space and the command line
      of the others. */
  lemma CommandLineLayout(s: string, i: nat, args: seq<string>)
    requires |args| >= 1 && i <= |s| && s[i..] == CommandLine(args)
    ensures i + |QuoteArg(args[0])| <= |s|
    ensures s[i..i + |QuoteArg(args[0])|] == QuoteArg(args[0])
    ensures |args| == 1 ==> i + |QuoteArg(args[0])| == |s|
    ensures |args| >= 2 ==> i + |QuoteArg(args[0])| + 1 <= |s| && s[i + |QuoteArg(args[0])|] == ' '
    ensures |args| >= 2 ==> s[i + |QuoteArg(args[0])| + 1..] == CommandLine(args[1..])
  {
    var t := QuoteArg(args[0]);
    if |args| == 1 {
      assert s[i..] == t;
      assert s[i..i + |t|] == t;
    } else {
      CommandLineCons(args);
      SplitLineAt(s, i, t, CommandLine(args[1..]));
    }
  }

  /** `CommandLineLayout` for a first argument without quotes. */
  lemma CommandLineHead(s: string, i: nat, args: seq<string>)
    requires |args| >= 1 && i <= |s| && s[i..] == CommandLine(args)
    requires Quote !in args[0]
    ensures i + |args[0]| + 2 <= |s|
    ensures s[i..i + |args[0]| + 2] == [Quote] + args[0] + [Quote]
    ensures |args| == 1 ==> i + |args[0]| + 2 == |s|
    ensures |args| >= 2 ==> i + |args[0]| + 3 <= |s| && s[i + |args[0]| + 2] == ' '
    ensures |args| >= 2 ==> s[i + |args[0]| + 3..] == CommandLine(args[1..])
  {
    EscapeQuoteFree(args[0]);
    CommandLineLayout(s, i, args);
  }

  /** A command line of at least one argument starts with a quote. */
  lemma CommandLineStartsQuoted(args: seq<string>)
    requires |args| >= 1
    ensures |CommandLine(args)| >= 2 && CommandLine(args)[0] == Quote
  {
    if |args| >= 2 {
      CommandLineCons(args);
    }
  }

  /** On a line made of quoted, quote-free, non-empty arguments joined by
      single spaces, the source-file pattern captures exactly the arguments
      that look like C sources, in order. */
  lemma {:induction false} ScanSourceArgs(s: string, i: nat, args: seq<string>)
    requires i <= |s| && s[i..] == CommandLine(args)
    requires forall v <- args :: v != "" && Quote !in v
    ensures Captures(SourceFile, s, FindAll(SourceFile, s, i)) == SourceArgs(args)
    decreases |args|
  {
    if args == [] {
      assert |s[i..]| == 0;
    } else {
      var v := args[0];
      assert v in args;
      CommandLineHead(s, i, args);
      var n := |v| + 2;
      var here := if LooksLikeSource(v) then [v] else [];
      assert SourceArgs(args) == here + SourceArgs(args[1..]);
      if |args| == 1 {
        SourceStep(s, i, v, |s|);
        assert FindAll(SourceFile, s, |s|) == [];
      } else {
        var rest := args[1..];
        var next := i + n + 1;
        CommandLineStartsQuoted(rest);
        assert s[next] == s[next..][0];
        SourceStep(s, i, v, next);
        forall u | u in rest ensures u != "" && Quote !in u { assert u in args; }
        ScanSourceArgs(s, next, rest);
      }
    }
  }
}
