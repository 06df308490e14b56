/**
 The `posixpath` operations the scripts call: `join` of two paths, `abspath`
 (with the working directory passed in), `normpath`, `dirname` and `splitext`.
 */
module Paths {
  import opened Text

  const Sep: char := '/'

  /** A path that starts at the file-system root. */
  predicate IsAbsolute(p: string) {
    |p| > 0 && p[0] == Sep
  }

  /** `posixpath.join(a, b)`: an absolute `b` replaces `a`; otherwise `b` is
      appended to `a`, with a separator unless `a` is empty or already ends in one. */
  function PathJoin(a: string, b: string): (r: string)
    ensures IsAbsolute(b) ==> r == b
    ensures IsAbsolute(a) || IsAbsolute(b) ==> IsAbsolute(r)
    ensures !IsAbsolute(b) ==> StartsWith(r, a) && EndsWith(r, b) && |a| + |b| <= |r| <= |a| + 1 + |b|
    ensures !IsAbsolute(b) && (a == "" || a[|a| - 1] == Sep) ==> |r| == |a| + |b|
    ensures !IsAbsolute(b) && a != "" && a[|a| - 1] != Sep ==> |r| == |a| + 1 + |b|
    ensures !IsAbsolute(b) && |r| == |a| + 1 + |b| ==> r[|a|] == Sep
  {
    if StartsWith(b, [Sep]) then b
    else if a == "" || a[|a| - 1] == Sep then a + b
    else a + [Sep] + b
  }

  /** A component that a normalised path may contain. */
  predicate CleanComponent(c: string) {
    c != "" && c != "." && c != ".." && Sep !in c
  }

  /** How many leading separators `normpath` keeps: POSIX gives exactly two a
      meaning of their own, and one or three-or-more collapse to one. */
  function InitialSlashes(p: string): (n: nat)
    ensures n <= 2
    ensures n > 0 <==> IsAbsolute(p)
  {
    if !StartsWith(p, [Sep]) then 0
    else if StartsWith(p, [Sep, Sep]) && !StartsWith(p, [Sep, Sep, Sep]) then 2
    else 1
  }

  /** One step of `normpath`'s component loop: empty and `.` components are
      dropped, `..` removes the previous component when there is one to remove
      (at the root of an absolute path it is dropped), and anything else is kept. */
  function Push(acc: seq<string>, comp: string, rooted: bool): seq<string> {
    if comp == "" || comp == "." then acc
    else if comp != ".." || (!rooted && acc == []) || (acc != [] && acc[|acc| - 1] == "..") then acc + [comp]
    else if acc != [] then acc[..|acc| - 1]
    else acc
  }

  /** `normpath`'s loop over all components, left to right. */
  function Collapse(comps: seq<string>, rooted: bool, acc: seq<string>): seq<string>
    decreases |comps|
  {
    if comps == [] then acc
    else Collapse(comps[1..], rooted, Push(acc, comps[0], rooted))
  }

  /** The loop handles one more component by one more step. */
  lemma {:induction false} CollapseSnoc(comps: seq<string>, c: string, rooted: bool, acc: seq<string>)
    ensures Collapse(comps + [c], rooted, acc) == Push(Collapse(comps, rooted, acc), c, rooted)
    decreases |comps|
  {
    if comps == [] {
      assert [c][1..] == [];
    } else {
      assert (comps + [c])[1..] == comps[1..] + [c];
      CollapseSnoc(comps[1..], c, rooted, Push(acc, comps[0], rooted));
    }
  }

  /** A trailing `.` component changes nothing. */
  lemma CollapseDot(comps: seq<string>, rooted: bool, acc: seq<string>)
    ensures Collapse(comps + ["."], rooted, acc) == Collapse(comps, rooted, acc)
  {
    CollapseSnoc(comps, ".", rooted, acc);
  }

  /** In an absolute path, `..` after a clean component cancels it. */
  lemma CollapseParent(comps: seq<string>, c: string, acc: seq<string>)
    requires CleanComponent(c)
    ensures Collapse(comps + [c, ".."], true, acc) == Collapse(comps, true, acc)
  {
    var before := Collapse(comps, true, acc);
    assert comps + [c, ".."] == (comps + [c]) + [".."];
    CollapseSnoc(comps + [c], "..", true, acc);
    CollapseSnoc(comps, c, true, acc);
    assert Push(before, c, true) == before + [c];
    assert (before + [c])[..|before|] == before;
  }

  /** In an absolute path, `..` at the root is dropped. */
  lemma CollapseParentAtRoot(rest: seq<string>)
    ensures Collapse([".."] + rest, true, []) == Collapse(rest, true, [])
  {
    assert ([".."] + rest)[1..] == rest;
  }

  /** In a relative path, `..` with nothing before it is kept. */
  lemma CollapseParentLeading(rest: seq<string>)
    ensures Collapse([".."] + rest, false, []) == Collapse(rest, false, [".."])
  {
    assert ([".."] + rest)[1..] == rest;
    var comps := [".."] + rest;
    assert comps[0] == ".." && comps[1..] == rest;
    assert Collapse(comps, false, []) == Collapse(rest, false, Push([], "..", false));
    assert Push([], "..", false) == [".."];
  }

  /** The components `normpath` keeps. */
  function NormComponents(p: string): seq<string> {
    Collapse(Split(p, Sep), InitialSlashes(p) > 0, [])
  }

  /** `seq` of `n` separators. */
  function Slashes(n: nat): (r: string)
    ensures |r| == n && forall k :: 0 <= k < n ==> r[k] == Sep
  {
    seq(n, _ => Sep)
  }

  /** `posixpath.normpath`: resolves `.` and `..`, removes empty components
      and trailing separators, and keeps the leading separators `InitialSlashes`
      allows. An empty result is `.`. */
  function NormPath(p: string): string {
    if p == "" then "."
    else
      var r := Slashes(InitialSlashes(p)) + Join([Sep], NormComponents(p));
      if r == "" then "." else r
  }

  /** `posixpath.abspath`: a relative path is first joined onto the current
      working directory `cwd`, then normalised. */
  function AbsPath(p: string, cwd: string): string {
    NormPath(if IsAbsolute(p) then p else PathJoin(cwd, p))
  }

  /** With an absolute working directory, `abspath` always yields an absolute
      path in normal form; an absolute argument ignores the working directory. */
  lemma AbsPathIsNormal(p: string, cwd: string)
    requires IsAbsolute(p) || IsAbsolute(cwd)
    ensures IsAbsolute(AbsPath(p, cwd)) && IsNormal(AbsPath(p, cwd))
    ensures IsAbsolute(p) ==> AbsPath(p, cwd) == NormPath(p)
  {
    NormPathOfAbsolute(if IsAbsolute(p) then p else PathJoin(cwd, p));
  }

  /** An absolute path in normal form: its kept leading separators, then
      components none of which is empty, `.` or `..`. */
  predicate IsNormal(p: string) {
    var n := InitialSlashes(p);
    n > 0 && (p[n..] == "" || forall c <- Split(p[n..], Sep) :: CleanComponent(c))
  }

  /** Collapsing keeps an absolute path's components clean. */
  lemma {:induction false} CollapseClean(comps: seq<string>, acc: seq<string>)
    requires forall c <- comps :: Sep !in c
    requires forall c <- acc :: CleanComponent(c)
    ensures forall c <- Collapse(comps, true, acc) :: CleanComponent(c)
    decreases |comps|
  {
    if comps != [] {
      assert comps[0] in comps;
      var next := Push(acc, comps[0], true);
      forall c | c in next
        ensures CleanComponent(c)
      {
        if c !in acc {
          assert c == comps[0];
        }
      }
      CollapseClean(comps[1..], next);
    }
  }

  /** Clean components pass through the collapsing loop unchanged. */
  lemma {:induction false} CollapseOfClean(comps: seq<string>, acc: seq<string>)
    requires forall c <- comps :: CleanComponent(c)
    ensures Collapse(comps, true, acc) == acc + comps
    decreases |comps|
  {
    if comps != [] {
      assert comps[0] in comps;
      CollapseOfClean(comps[1..], acc + [comps[0]]);
      assert acc + [comps[0]] + comps[1..] == acc + comps;
    }
  }

  /** Normalising an absolute path yields an absolute path in normal form,
      made of the kept leading separators and clean components. */
  lemma NormPathOfAbsolute(p: string)
    requires IsAbsolute(p)
    ensures forall c <- NormComponents(p) :: CleanComponent(c)
    ensures NormPath(p) == Slashes(InitialSlashes(p)) + Join([Sep], NormComponents(p))
    ensures IsAbsolute(NormPath(p)) && IsNormal(NormPath(p))
  {
    var cs := NormComponents(p);
    CollapseClean(Split(p, Sep), []);
    var n := InitialSlashes(p);
    var body := Join([Sep], cs);
    var r := Slashes(n) + body;
    assert r[n..] == body;
    if cs != [] {
      assert cs[0] in cs;
      assert body[0] == cs[0][0];
      SplitJoin(cs, Sep);
    }
    InitialSlashesOf(n, body);
  }

  /** `n` separators (one or two) before a text that does not start with one
      are exactly the leading separators `normpath` keeps. */
  lemma InitialSlashesOf(n: nat, body: string)
    requires 1 <= n <= 2
    requires body == [] || body[0] != Sep
    ensures InitialSlashes(Slashes(n) + body) == n
  {
    var r := Slashes(n) + body;
    assert r[..1] == [Sep];
    if n == 2 {
      assert r[..2] == [Sep, Sep];
      if |r| >= 3 {
        assert r[2] == body[0];
        assert r[..3] != [Sep, Sep, Sep];
      }
    } else if |r| >= 2 {
      assert r[1] == body[0];
      assert r[..2] != [Sep, Sep];
    }
  }

  /** A path already in normal form is its own normal form. */
  lemma NormalIsFixpoint(p: string)
    requires IsNormal(p)
    ensures NormPath(p) == p
  {
    var n := InitialSlashes(p);
    var t := p[n..];
    assert p == Slashes(n) + t;
    var parts := Split(p, Sep);
    if n == 1 {
      assert p[1..] == t;
      assert parts == [""] + Split(t, Sep);
    } else {
      assert p[1..][1..] == t;
      assert p[1] == Sep;
      assert Split(p[1..], Sep) == [""] + Split(t, Sep);
      assert parts == [""] + ([""] + Split(t, Sep));
    }
    if t == "" {
      assert Split(t, Sep) == [""];
      assert Collapse([""], true, []) == [];
      assert Collapse([""] + [""], true, []) == [];
      assert NormComponents(p) == [];
    } else {
      var ts := Split(t, Sep);
      CollapseOfClean(ts, []);
      assert Collapse([""] + ts, true, []) == Collapse(ts, true, []);
      if n == 2 {
        assert Collapse([""] + ([""] + ts), true, []) == Collapse([""] + ts, true, []);
      }
      assert NormComponents(p) == ts;
      JoinSplit(t, Sep);
    }
  }

  /** `normpath` is idempotent on absolute paths. */
  lemma NormPathIdempotent(p: string)
    requires IsAbsolute(p)
    ensures NormPath(NormPath(p)) == NormPath(p)
  {
    NormPathOfAbsolute(p);
    NormalIsFixpoint(NormPath(p));
  }

  /** Every character of `s` is a separator. */
  predicate AllSeps(s: string) {
    forall k :: 0 <= k < |s| ==> s[k] == Sep
  }

  /** Python's `s.rstrip(c)` for one character. */
  function RStrip(s: string, c: char): (r: string)
    ensures StartsWith(s, r)
    ensures r == "" || r[|r| - 1] != c
    ensures forall k :: |r| <= k < |s| ==> s[k] == c
    decreases |s|
  {
    if s != [] && s[|s| - 1] == c then RStrip(s[..|s| - 1], c) else s
  }

  /** `posixpath.dirname`: everything up to the last separator, with the
      trailing separators removed unless nothing but separators is left. */
  function Dirname(p: string): string {
    var head := p[..RFind(p, Sep) + 1];
    if head != "" && !AllSeps(head) then RStrip(head, Sep) else head
  }

  /** What `Dirname` keeps: a prefix of `p`, empty exactly when `p` has no
      separator, ending in a non-separator unless it is all separators, and
      followed in `p` only by separators up to the last one, then by the
      separator-free final component. A head of separators only is kept whole. */
  lemma DirnameShape(p: string)
    ensures StartsWith(p, Dirname(p))
    ensures Sep in p <==> Dirname(p) != ""
    ensures var r := Dirname(p); AllSeps(r) || r[|r| - 1] != Sep
    ensures |Dirname(p)| <= RFind(p, Sep) + 1
    ensures AllSeps(p[|Dirname(p)|..RFind(p, Sep) + 1]) && Sep !in p[RFind(p, Sep) + 1..]
    ensures AllSeps(p[..RFind(p, Sep) + 1]) ==> Dirname(p) == p[..RFind(p, Sep) + 1]
  {
    var last := RFind(p, Sep);
    var head := p[..last + 1];
    LastSepSplits(p);
    if head != "" && !AllSeps(head) {
      DirnameStripped(p);
    }
  }

  /** The last separator splits `p` into a head, present exactly when `p` has a
      separator, and a separator-free final component. */
  lemma LastSepSplits(p: string)
    ensures Sep in p <==> RFind(p, Sep) >= 0
    ensures Sep !in p[RFind(p, Sep) + 1..]
  {
    var last := RFind(p, Sep);
    if last >= 0 {
      assert p[last] in p;
    }
    if Sep in p {
      var k :| 0 <= k < |p| && p[k] == Sep;
      assert k <= last;
    }
  }

  /** When the head up to the last separator holds something other than
      separators, `Dirname` strips the trailing separators and keeps the rest,
      which is non-empty. */
  lemma DirnameStripped(p: string)
    requires var head := p[..RFind(p, Sep) + 1]; head != "" && !AllSeps(head)
    ensures var r := Dirname(p); r != "" && r[|r| - 1] != Sep && StartsWith(p, r)
    ensures |Dirname(p)| <= RFind(p, Sep) + 1
    ensures AllSeps(p[|Dirname(p)|..RFind(p, Sep) + 1])
  {
    var last := RFind(p, Sep);
    var head := p[..last + 1];
    var r := RStrip(head, Sep);
    assert Dirname(p) == r;
    var k :| 0 <= k < |head| && head[k] != Sep;
    assert k < |r|;
    assert p[..|r|] == head[..|r|];
    forall j | |r| <= j < last + 1
      ensures p[j] == Sep
    {
      assert p[j] == head[j];
    }
  }

  /** The final component of `p` has a dot after some character other than a
      dot, so it carries an extension. Leading dots (`.bashrc`) do not count. */
  predicate HasExtension(p: string) {
    exists i, d :: 0 <= i < d < |p| && p[d] == '.' && p[i] != '.' && Sep !in p[i..]
  }

  /** `posixpath.splitext`: splits `p` into a root and an extension that runs
      from the last dot of the final component, provided that component has a
      character other than a dot before it; otherwise the extension is empty. */
  function SplitExt(p: string): (r: (string, string))
    ensures r.0 + r.1 == p
    ensures r.1 == "" || (r.1[0] == '.' && '.' !in r.1[1..] && Sep !in r.1)
    ensures r.1 != "" <==> HasExtension(p)
  {
    var sepIndex := RFind(p, Sep);
    var dotIndex := RFind(p, '.');
    SplitExtFindsExtension(p);
    if dotIndex > sepIndex && exists k :: sepIndex + 1 <= k < dotIndex && p[k] != '.' then
      (p[..dotIndex], p[dotIndex..])
    else
      (p, "")
  }

  /** The test `splitext` performs is exactly `HasExtension`. */
  lemma SplitExtFindsExtension(p: string)
    ensures HasExtension(p) <==>
      var sepIndex := RFind(p, Sep);
      var dotIndex := RFind(p, '.');
      dotIndex > sepIndex && exists k :: sepIndex + 1 <= k < dotIndex && p[k] != '.'
  {
    var sepIndex := RFind(p, Sep);
    var dotIndex := RFind(p, '.');
    if HasExtension(p) {
      var i, d :| 0 <= i < d < |p| && p[d] == '.' && p[i] != '.' && Sep !in p[i..];
      assert sepIndex + 1 <= i < dotIndex && p[i] != '.';
    }
    if dotIndex > sepIndex && exists k :: sepIndex + 1 <= k < dotIndex && p[k] != '.' {
      var k :| sepIndex + 1 <= k < dotIndex && p[k] != '.';
      assert Sep !in p[k..];
    }
  }
}
