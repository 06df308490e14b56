/**
 The scanning discipline of `re.findall`, independent of any one pattern:
 given, for every position of a text, where the match starting there ends
 (if one does), the scan takes the match at the leftmost position, resumes
 right after it, and passes over positions where nothing matches.
 */
module Scanning {
  import opened Wrappers

  /** A half-open range `[start, end)` of a text. */
  datatype Span = Span(start: nat, end: nat)

  /** A match table for a text of length `|m|`: `m[j]` is the end of the match
      starting at `j`, if any. Every match is non-empty and ends inside the
      text. */
  predicate ValidTable(m: seq<Option<nat>>) {
    forall j :: 0 <= j < |m| && m[j].Some? ==> j < m[j].value <= |m|
  }

  /** No match starts anywhere in `[lo, hi)`. */
  predicate Silent(m: seq<Option<nat>>, lo: nat, hi: nat)
    requires hi <= |m|
  {
    forall j :: lo <= j < hi ==> m[j].None?
  }

  /** The leftmost, non-overlapping scan from position `i`: the spans of the
      successive matches, each the match at its start, in left-to-right order. */
  function Scan(m: seq<Option<nat>>, i: nat): (r: seq<Span>)
    requires ValidTable(m) && i <= |m|
    ensures i == |m| ==> r == []
    ensures forall k :: 0 <= k < |r| ==>
      i <= r[k].start < r[k].end <= |m| && m[r[k].start] == Some(r[k].end)
    ensures forall k :: 0 <= k < |r| - 1 ==> r[k].end <= r[k + 1].start
    decreases |m| - i
  {
    if i == |m| then []
    else
      match m[i]
      case Some(e) => [Span(i, e)] + Scan(m, e)
      case None => Scan(m, i + 1)
  }

  /** No match starts before the first span of the scan (or anywhere, if the
      scan is empty). */
  lemma {:induction false} ScanFirstGap(m: seq<Option<nat>>, i: nat)
    requires ValidTable(m) && i <= |m|
    ensures var r := Scan(m, i); Silent(m, i, if r == [] then |m| else r[0].start)
    decreases |m| - i
  {
    if i < |m| && m[i].None? {
      ScanFirstGap(m, i + 1);
    }
  }

  /** No match starts after the last span of the scan. */
  lemma {:induction false} ScanLastGap(m: seq<Option<nat>>, i: nat)
    requires ValidTable(m) && i <= |m|
    ensures var r := Scan(m, i); r != [] ==> Silent(m, r[|r| - 1].end, |m|)
    decreases |m| - i
  {
    if i < |m| {
      match m[i]
      case Some(e) =>
        var rest := Scan(m, e);
        if rest == [] {
          ScanFirstGap(m, e);
        } else {
          ScanLastGap(m, e);
          assert Scan(m, i)[|Scan(m, i)| - 1] == rest[|rest| - 1];
        }
      case None =>
        ScanLastGap(m, i + 1);
    }
  }

  /** No match starts between two neighbouring spans of the scan. */
  lemma {:induction false} ScanInnerGaps(m: seq<Option<nat>>, i: nat)
    requires ValidTable(m) && i <= |m|
    ensures var r := Scan(m, i);
      forall k :: 0 <= k < |r| - 1 ==> Silent(m, r[k].end, r[k + 1].start)
    decreases |m| - i
  {
    if i < |m| {
      var r := Scan(m, i);
      match m[i]
      case Some(e) =>
        var rest := Scan(m, e);
        ScanInnerGaps(m, e);
        ScanFirstGap(m, e);
        forall k | 0 <= k < |r| - 1
          ensures Silent(m, r[k].end, r[k + 1].start)
        {
          if k > 0 {
            assert r[k] == rest[k - 1] && r[k + 1] == rest[k];
          }
        }
      case None =>
        ScanInnerGaps(m, i + 1);
        assert r == Scan(m, i + 1);
    }
  }

  /** Positions where no match starts are passed over. */
  lemma {:induction false} ScanSkips(m: seq<Option<nat>>, i: nat, j: nat)
    requires ValidTable(m) && i <= j <= |m|
    requires Silent(m, i, j)
    ensures Scan(m, i) == Scan(m, j)
    decreases j - i
  {
    if i < j {
      ScanSkips(m, i + 1, j);
    }
  }
}
