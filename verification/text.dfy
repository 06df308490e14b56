/**
 The Python `str` operations the two scripts rely on, on strings as `seq<char>`:
 substring search (`sub in s`), `sep.join(xs)`, `s.split(c)`, `s.rfind(c)` and
 `s.replace(old, new)`.
 */
module Text {

  /** A slice of a slice is a slice of the original. */
  lemma SliceOfSlice(s: string, i: nat, e: nat, a: nat, b: nat)
    requires i <= e <= |s| && a <= b <= e - i
    ensures s[i..e][a..b] == s[i + a..i + b]
  {
    assert forall k :: 0 <= k < b - a ==> s[i..e][a..b][k] == s[i + a + k];
  }

  /** `prefix` occurs at the very start of `s`. */
  predicate StartsWith(s: string, prefix: string) {
    |prefix| <= |s| && s[..|prefix|] == prefix
  }

  /** `suffix` occurs at the very end of `s`. */
  predicate EndsWith(s: string, suffix: string) {
    |suffix| <= |s| && s[|s| - |suffix|..] == suffix
  }

  /** Python's `sub in s`: some position of `s` starts an occurrence of `sub`.
      As in Python, the empty string occurs in every string. */
  predicate Contains(s: string, sub: string)
    decreases |s|
  {
    StartsWith(s, sub) || (s != [] && Contains(s[1..], sub))
  }

  /** `sub` occurs in `s` starting at index `k`. */
  predicate OccursAt(s: string, sub: string, k: int) {
    0 <= k <= |s| - |sub| && s[k..k + |sub|] == sub
  }

  /** `Contains` agrees with the positional reading of substring search. */
  lemma {:induction false} ContainsAt(s: string, sub: string)
    ensures Contains(s, sub) <==> exists k :: OccursAt(s, sub, k)
    decreases |s|
  {
    if StartsWith(s, sub) {
      assert s[0..|sub|] == s[..|sub|];
      assert OccursAt(s, sub, 0);
    }
    if s != [] {
      ContainsAt(s[1..], sub);
      if Contains(s[1..], sub) {
        var k :| OccursAt(s[1..], sub, k);
        assert s[k + 1..k + 1 + |sub|] == s[1..][k..k + |sub|];
        assert OccursAt(s, sub, k + 1);
      }
      if exists k :: OccursAt(s, sub, k) {
        var k :| OccursAt(s, sub, k);
        if k > 0 {
          assert s[1..][k - 1..k - 1 + |sub|] == s[k..k + |sub|];
          assert OccursAt(s[1..], sub, k - 1);
        } else {
          assert s[..|sub|] == s[0..|sub|];
        }
      }
    } else if exists k :: OccursAt(s, sub, k) {
      var k :| OccursAt(s, sub, k);
      assert s[..|sub|] == s[k..k + |sub|];
    }
  }

  /** A non-empty occurrence needs at least as many characters, so a string
      containing a non-empty pattern is itself non-empty. */
  lemma {:induction false} ContainsNeedsRoom(s: string, sub: string)
    requires Contains(s, sub)
    ensures |sub| <= |s|
    decreases |s|
  {
    if !StartsWith(s, sub) {
      ContainsNeedsRoom(s[1..], sub);
    }
  }

  /** Python's `sep.join(xs)`: the elements in order, with `sep` between
      neighbours and nowhere else. */
  function Join(sep: string, xs: seq<string>): string
    decreases |xs|
  {
    if xs == [] then ""
    else if |xs| == 1 then xs[0]
    else xs[0] + sep + Join(sep, xs[1..])
  }

  /** Joining a non-empty list whose first element is non-empty gives a
      non-empty string; joining nothing gives the empty string. */
  lemma JoinEmpty(sep: string, xs: seq<string>)
    requires forall x <- xs :: x != ""
    ensures Join(sep, xs) == "" <==> xs == []
  {
    if xs != [] {
      assert xs[0] in xs;
    }
  }

  /** Python's `s.split(c)` for a one-character separator: the maximal
      separator-free pieces, always at least one. */
  function Split(s: string, c: char): (r: seq<string>)
    ensures |r| >= 1
    ensures forall x <- r :: c !in x
    decreases |s|
  {
    if s == [] then [""]
    else
      var rest := Split(s[1..], c);
      if s[0] == c then [""] + rest
      else [[s[0]] + rest[0]] + rest[1..]
  }

  /** Joining a list of two or more: the head, the separator, then the rest joined. */
  lemma JoinCons(sep: string, x: string, ys: seq<string>)
    requires ys != []
    ensures Join(sep, [x] + ys) == x + sep + Join(sep, ys)
  {
    assert ([x] + ys)[1..] == ys;
  }

  /** Joining the pieces of a split with the separator gives the string back. */
  lemma {:induction false} JoinSplit(s: string, c: char)
    ensures Join([c], Split(s, c)) == s
    decreases |s|
  {
    if s != [] {
      var rest := Split(s[1..], c);
      JoinSplit(s[1..], c);
      assert s == [s[0]] + s[1..];
      if s[0] == c {
        JoinCons([c], "", rest);
      } else if |rest| == 1 {
        assert Split(s, c) == [[s[0]] + rest[0]];
      } else {
        JoinSplitGlue(s[0], c, rest);
      }
    }
  }

  /** The step of `JoinSplit` where a non-separator is glued onto the first
      of several pieces. */
  lemma JoinSplitGlue(x: char, c: char, rest: seq<string>)
    requires |rest| >= 2
    ensures Join([c], [[x] + rest[0]] + rest[1..]) == [x] + Join([c], rest)
  {
    var head := [x] + rest[0];
    var tail := Join([c], rest[1..]);
    assert Join([c], [head] + rest[1..]) == head + [c] + tail by {
      JoinCons([c], head, rest[1..]);
    }
    assert Join([c], rest) == rest[0] + [c] + tail by {
      JoinCons([c], rest[0], rest[1..]);
      assert [rest[0]] + rest[1..] == rest;
    }
    AppendAssoc([x], rest[0], [c], tail);
  }

  /** Regrouping a concatenation of four strings. Kept as a lemma of its own:
      stated inline, the same fact is far more costly to prove among the
      facts of `JoinSplitGlue`. */
  lemma AppendAssoc(w: string, a: string, b: string, d: string)
    ensures w + a + b + d == w + (a + b + d)
  {
  }

  /** Splitting a join of separator-free pieces gives the pieces back. */
  lemma {:induction false} SplitJoin(xs: seq<string>, c: char)
    requires xs != []
    requires forall x <- xs :: c !in x
    ensures Split(Join([c], xs), c) == xs
    decreases |xs|
  {
    if |xs| == 1 {
      SplitFree(xs[0], c);
    } else {
      SplitJoin(xs[1..], c);
      SplitAround(xs[0], Join([c], xs[1..]), c);
      assert xs[0] in xs;
      assert xs == [xs[0]] + xs[1..];
    }
  }

  /** A string with no separator splits into itself alone. */
  lemma {:induction false} SplitFree(s: string, c: char)
    requires c !in s
    ensures Split(s, c) == [s]
    decreases |s|
  {
    if s != [] {
      SplitFree(s[1..], c);
      assert [s[0]] + s[1..] == s;
    }
  }

  /** A separator-free head followed by a separator splits off as one piece. */
  lemma {:induction false} SplitAround(head: string, tail: string, c: char)
    requires c !in head
    ensures Split(head + [c] + tail, c) == [head] + Split(tail, c)
    decreases |head|
  {
    var s := head + [c] + tail;
    if head == [] {
      assert s[0] == c && s[1..] == tail;
    } else {
      assert s[1..] == head[1..] + [c] + tail;
      SplitAround(head[1..], tail, c);
      assert [head[0]] + head[1..] == head;
    }
  }

  /** Python's `s.rfind(c)`: the index of the last `c`, or -1 if there is none. */
  function RFind(s: string, c: char): (r: int)
    ensures -1 <= r < |s|
    ensures r >= 0 ==> s[r] == c
    ensures forall k :: r < k < |s| ==> s[k] != c
    decreases |s|
  {
    if s == [] then -1
    else if s[|s| - 1] == c then |s| - 1
    else RFind(s[..|s| - 1], c)
  }

  /** Python's `s.replace(pat, rep)`: scanning left to right, each occurrence
      of `pat` that does not overlap an earlier replaced one becomes `rep`.
      Both callers replace a fixed non-empty pattern. */
  function ReplaceAll(s: string, pat: string, rep: string): string
    requires pat != []
    decreases |s|
  {
    if |s| < |pat| then s
    else if s[..|pat|] == pat then rep + ReplaceAll(s[|pat|..], pat, rep)
    else [s[0]] + ReplaceAll(s[1..], pat, rep)
  }

  /** A string without the pattern is left as it is. */
  lemma {:induction false} ReplaceAllAbsent(s: string, pat: string, rep: string)
    requires pat != []
    requires !Contains(s, pat)
    ensures ReplaceAll(s, pat, rep) == s
    decreases |s|
  {
    if |s| >= |pat| {
      assert !StartsWith(s, pat);
      ReplaceAllAbsent(s[1..], pat, rep);
      assert [s[0]] + s[1..] == s;
    }
  }

  /** The leftmost occurrence is replaced first and scanning resumes after it:
      if `a + pat` holds no earlier occurrence, the text before it is kept and
      the rest is rewritten on its own. Together with `ReplaceAllAbsent` this
      determines `ReplaceAll` completely. */
  lemma {:induction false} ReplaceAllLeftmost(a: string, pat: string, b: string, rep: string)
    requires pat != []
    requires !Contains(a + pat[..|pat| - 1], pat)
    ensures ReplaceAll(a + pat + b, pat, rep) == a + rep + ReplaceAll(b, pat, rep)
    decreases |a|
  {
    var s := a + pat + b;
    if a == [] {
      assert s == pat + b;
      assert s[..|pat|] == pat && s[|pat|..] == b;
    } else {
      var w := a + pat[..|pat| - 1];
      assert |w| >= |pat|;
      assert !StartsWith(w, pat);
      assert s[..|pat|] == w[..|pat|];
      assert w[1..] == a[1..] + pat[..|pat| - 1];
      assert !Contains(w[1..], pat);
      ReplaceAllLeftmost(a[1..], pat, b, rep);
      assert s[1..] == a[1..] + pat + b;
      assert ReplaceAll(s, pat, rep) == [a[0]] + ReplaceAll(s[1..], pat, rep);
      assert [a[0]] + a[1..] == a;
    }
  }

  /** A replacement no longer than the pattern never lengthens the string. */
  lemma {:induction false} ReplaceAllShrinks(s: string, pat: string, rep: string)
    requires pat != []
    requires |rep| <= |pat|
    ensures |ReplaceAll(s, pat, rep)| <= |s|
    decreases |s|
  {
    if |s| >= |pat| {
      if s[..|pat|] == pat {
        ReplaceAllShrinks(s[|pat|..], pat, rep);
      } else {
        ReplaceAllShrinks(s[1..], pat, rep);
      }
    }
  }
}
