/**
 * The bracket-group scanner behind SimpleCommand's pattern
 * `(\[((?>[^\[\]]+)|(?-2))*])`: a group is a '[' followed by runs of
 * non-bracket characters and nested groups, closed by the matching ']'.
 * From a given '[' such a group, if there is one, ends where the bracket
 * depth first returns to zero, so the regex is modelled here by depth
 * counting. preg_match_all and preg_split with this pattern scan left to
 * right and take every group they meet whole.
 */
module Brackets {
  import opened Php

  /** The change of bracket depth caused by one character. */
  function Step(c: char): int
  {
    if c == '[' then 1 else if c == ']' then -1 else 0
  }

  /** Net bracket depth of s[a..b]: opening minus closing brackets. */
  function Net(s: string, a: nat, b: nat): int
    requires a <= b <= |s|
    decreases b - a
  {
    if a == b then 0 else Step(s[a]) + Net(s, a + 1, b)
  }

  /** Extending the range by one character on the right adds that character's step. */
  lemma {:induction false} NetSnoc(s: string, a: nat, b: nat)
    requires a <= b < |s|
    ensures Net(s, a, b + 1) == Net(s, a, b) + Step(s[b])
    decreases b - a
  {
    if a < b {
      NetSnoc(s, a + 1, b);
    }
  }

  /** Depth counting does not depend on what lies outside the range counted. */
  lemma {:induction false} NetSlice(s: string, lo: nat, hi: nat, a: nat, b: nat)
    requires lo <= hi <= |s| && a <= b <= hi - lo
    ensures Net(s[lo..hi], a, b) == Net(s, lo + a, lo + b)
    decreases b - a
  {
    if a < b {
      NetSlice(s, lo, hi, a + 1, b);
    }
  }

  /**
   * s[i..e] is a group: it opens with '[', its depth returns to zero at e
   * and at no point before.
   */
  predicate IsGroupSpan(s: string, i: nat, e: nat)
  {
    && i < e <= |s|
    && s[i] == '['
    && Net(s, i, e) == 0
    && forall m :: i < m < e ==> Net(s, i, m) > 0
  }

  /** A whole string that is one bracket group. */
  predicate IsGroup(g: string)
  {
    IsGroupSpan(g, 0, |g|)
  }

  /** Scanning from j at the given depth: the position just after the bracket that closes the group. */
  function CloseFrom(s: string, j: nat, depth: nat): (r: Option<nat>)
    requires j <= |s| && depth > 0
    ensures r.Some? ==>
      && j < r.value <= |s|
      && depth + Net(s, j, r.value) == 0
      && forall m :: j <= m < r.value ==> depth + Net(s, j, m) > 0
    ensures r.None? ==> forall m :: j <= m <= |s| ==> depth + Net(s, j, m) > 0
    decreases |s| - j
  {
    if j == |s| then None
    else if s[j] == ']' && depth == 1 then Some(j + 1)
    else CloseFrom(s, j + 1, depth + Step(s[j]))
  }

  /** The end of the group that starts at i, if position i starts one. */
  function GroupAt(s: string, i: nat): (r: Option<nat>)
    ensures r.Some? ==> i < r.value <= |s|
  {
    if i < |s| && s[i] == '[' then CloseFrom(s, i + 1, 1) else None
  }

  /** Depth counting finds exactly the group the pattern matches at i, and there is at most one. */
  lemma GroupAtSpec(s: string, i: nat, e: nat)
    ensures GroupAt(s, i) == Some(e) <==> IsGroupSpan(s, i, e)
  {
    if i < |s| && s[i] == '[' {
      var r := CloseFrom(s, i + 1, 1);
      if r.Some? {
        assert IsGroupSpan(s, i, r.value);
      }
      if IsGroupSpan(s, i, e) {
        assert Net(s, i, e) == 1 + Net(s, i + 1, e);
        assert r.Some?;
        assert Net(s, i, r.value) == 1 + Net(s, i + 1, r.value);
        assert r.value == e;
      }
    }
  }

  /** A group is at least "[]" long, opens with '[' and closes with ']'. */
  lemma GroupShape(s: string, i: nat, e: nat)
    requires IsGroupSpan(s, i, e)
    ensures i + 2 <= e && s[i] == '[' && s[e - 1] == ']'
  {
    assert Net(s, i, i + 1) == 1;
    NetSnoc(s, i, e - 1);
  }

  /** Cutting a group out of its string keeps it a group. */
  lemma GroupSlice(s: string, i: nat, e: nat)
    requires IsGroupSpan(s, i, e)
    ensures IsGroup(s[i..e])
  {
    var g := s[i..e];
    NetSlice(s, i, e, 0, |g|);
    forall m | 0 < m < |g| ensures Net(g, 0, m) > 0 {
      NetSlice(s, i, e, 0, m);
    }
  }

  /** A group inside a piece of a string is a group of the whole string. */
  lemma GroupLift(s: string, lo: nat, hi: nat, q: nat, e: nat)
    requires lo <= hi <= |s| && IsGroupSpan(s[lo..hi], q, e)
    ensures IsGroupSpan(s, lo + q, lo + e)
  {
    NetSlice(s, lo, hi, q, e);
    var a := lo + q;
    forall m | a < m < lo + e ensures Net(s, a, m) > 0 {
      NetSlice(s, lo, hi, q, m - lo);
    }
  }

  /** No group starts anywhere in t. */
  predicate NoGroupIn(t: string)
  {
    forall q :: 0 <= q < |t| ==> GroupAt(t, q).None?
  }

  /** What preg_split returns (the text around the groups) and what preg_match_all returns (the groups). */
  datatype Split = Split(segments: seq<string>, groups: seq<string>)

  /** segments[0] + groups[0] + segments[1] + ... + segments[|groups|]. */
  function Join(segments: seq<string>, groups: seq<string>): string
    requires |segments| == |groups| + 1
  {
    if |groups| == 0 then segments[0]
    else segments[0] + groups[0] + Join(segments[1..], groups[1..])
  }

  /**
   * The left-to-right scan of s from position i, where the current segment
   * began at start: a group is taken whole wherever one starts, otherwise
   * the character joins the current segment.
   */
  function Scan(s: string, start: nat, i: nat): (r: Split)
    requires start <= i <= |s|
    requires forall p :: start <= p < i ==> GroupAt(s, p).None?
    ensures |r.segments| == |r.groups| + 1
    ensures Join(r.segments, r.groups) == s[start..]
    ensures forall k :: 0 <= k < |r.groups| ==> IsGroup(r.groups[k])
    ensures forall k :: 0 <= k < |r.segments| ==> NoGroupIn(r.segments[k])
    decreases |s| - i
  {
    if i == |s| then
      SegmentHasNoGroup(s, start, i);
      assert s[start..] == s[start..i];
      Split([s[start..]], [])
    else
      match GroupAt(s, i)
      case Some(e) =>
        GroupAtSpec(s, i, e);
        GroupSlice(s, i, e);
        SegmentHasNoGroup(s, start, i);
        var rest := Scan(s, e, e);
        var r := Split([s[start..i]] + rest.segments, [s[i..e]] + rest.groups);
        assert r.segments[1..] == rest.segments && r.groups[1..] == rest.groups;
        assert s[start..] == s[start..i] + s[i..e] + s[e..];
        r
      case None => Scan(s, start, i + 1)
  }

  /** A stretch of s in which no group starts contains no group of its own. */
  lemma SegmentHasNoGroup(s: string, lo: nat, hi: nat)
    requires lo <= hi <= |s|
    requires forall p :: lo <= p < hi ==> GroupAt(s, p).None?
    ensures NoGroupIn(s[lo..hi])
  {
    forall q | 0 <= q < hi - lo ensures GroupAt(s[lo..hi], q).None? {
      if GroupAt(s[lo..hi], q).Some? {
        var e := GroupAt(s[lo..hi], q).value;
        GroupAtSpec(s[lo..hi], q, e);
        GroupLift(s, lo, hi, q, e);
        GroupAtSpec(s, lo + q, lo + e);
        assert false;
      }
    }
  }

  /** The scan passes over characters that cannot open a group. */
  lemma ScanSkip(s: string, start: nat, i: nat, j: nat)
    requires start <= i <= j <= |s|
    requires forall p :: start <= p < i ==> GroupAt(s, p).None?
    requires forall p :: i <= p < j ==> s[p] != '['
    ensures forall p :: start <= p < j ==> GroupAt(s, p).None?
    ensures Scan(s, start, i) == Scan(s, start, j)
  {
    forall p | i <= p < j
      ensures GroupAt(s, p).None?
    {
    }
    ScanPass(s, start, i, j);
  }

  /** Where a group starts, the scan closes the current segment and takes the group. */
  lemma ScanTake(s: string, start: nat, i: nat, e: nat)
    requires start <= i <= |s|
    requires forall p :: start <= p < i ==> GroupAt(s, p).None?
    requires GroupAt(s, i) == Some(e)
    ensures Scan(s, start, i) == Split([s[start..i]] + Scan(s, e, e).segments, [s[i..e]] + Scan(s, e, e).groups)
  {
  }

  /** At the end of the text the scan closes the last segment. */
  lemma ScanEnd(s: string, start: nat)
    requires start <= |s|
    requires forall p :: start <= p < |s| ==> GroupAt(s, p).None?
    ensures Scan(s, start, |s|) == Split([s[start..]], [])
  {
  }

  /** preg_split and preg_match_all of the group pattern over the whole string. */
  function SplitGroups(s: string): (r: Split)
    ensures |r.segments| == |r.groups| + 1
    ensures Join(r.segments, r.groups) == s
    ensures forall k :: 0 <= k < |r.groups| ==> IsGroup(r.groups[k])
    ensures forall k :: 0 <= k < |r.segments| ==> NoGroupIn(r.segments[k])
  {
    Scan(s, 0, 0)
  }

  /**
   * segments and groups read s from start on as the leftmost scan does: the
   * segment is the text up to the next place a group starts (no group starts
   * inside it), the group is the whole group starting there, and so on to
   * the end of s.
   */
  predicate LeftmostFrom(s: string, start: nat, segments: seq<string>, groups: seq<string>)
    decreases |groups|
  {
    && |segments| == |groups| + 1
    && start + |segments[0]| <= |s|
    && s[start..start + |segments[0]|] == segments[0]
    && (forall p :: start <= p < start + |segments[0]| ==> GroupAt(s, p).None?)
    && if groups == [] then start + |segments[0]| == |s|
       else
         var i := start + |segments[0]|;
         && GroupAt(s, i) == Some(i + |groups[0]|)
         && s[i..i + |groups[0]|] == groups[0]
         && LeftmostFrom(s, i + |groups[0]|, segments[1..], groups[1..])
  }

  /** r splits s at its leftmost groups. */
  predicate Leftmost(s: string, r: Split)
  {
    LeftmostFrom(s, 0, r.segments, r.groups)
  }

  /** The scan passes over every position at which no group starts. */
  lemma {:induction false} ScanPass(s: string, start: nat, i: nat, j: nat)
    requires start <= i <= j <= |s|
    requires forall p :: start <= p < j ==> GroupAt(s, p).None?
    ensures Scan(s, start, i) == Scan(s, start, j)
    decreases j - i
  {
    if i < j {
      ScanNoGroupStep(s, start, i);
      ScanPass(s, start, i + 1, j);
    }
  }

  /** Where no group starts, the scan moves on by one. */
  lemma ScanNoGroupStep(s: string, start: nat, i: nat)
    requires start <= i < |s|
    requires forall p :: start <= p <= i ==> GroupAt(s, p).None?
    ensures Scan(s, start, i) == Scan(s, start, i + 1)
  {
    assert GroupAt(s, i).None?;
  }

  /** A segment up to a group, the group, and a leftmost split after it make a leftmost split. */
  lemma LeftmostCons(s: string, start: nat, i: nat, e: nat, segments: seq<string>, groups: seq<string>)
    requires start <= i <= |s|
    requires forall p :: start <= p < i ==> GroupAt(s, p).None?
    requires GroupAt(s, i) == Some(e)
    requires LeftmostFrom(s, e, segments, groups)
    ensures LeftmostFrom(s, start, [s[start..i]] + segments, [s[i..e]] + groups)
  {
    var segs, gs := [s[start..i]] + segments, [s[i..e]] + groups;
    assert segs[1..] == segments && gs[1..] == groups;
  }

  /** A leftmost split with a group: its first segment runs to the group, and the rest is leftmost. */
  lemma LeftmostUncons(s: string, start: nat, segments: seq<string>, groups: seq<string>) returns (i: nat, e: nat)
    requires LeftmostFrom(s, start, segments, groups) && groups != []
    ensures start <= i <= |s| && GroupAt(s, i) == Some(e)
    ensures forall p :: start <= p < i ==> GroupAt(s, p).None?
    ensures LeftmostFrom(s, e, segments[1..], groups[1..])
    ensures segments == [s[start..i]] + segments[1..] && groups == [s[i..e]] + groups[1..]
  {
    i := start + |segments[0]|;
    e := i + |groups[0]|;
  }

  /** The scan's split is the leftmost one. */
  lemma {:induction false} ScanLeftmost(s: string, start: nat, i: nat)
    requires start <= i <= |s|
    requires forall p :: start <= p < i ==> GroupAt(s, p).None?
    ensures LeftmostFrom(s, start, Scan(s, start, i).segments, Scan(s, start, i).groups)
    decreases |s| - i
  {
    if i == |s| {
      ScanEnd(s, start);
    } else if GroupAt(s, i).Some? {
      var e := GroupAt(s, i).value;
      ScanTake(s, start, i, e);
      ScanLeftmost(s, e, e);
      LeftmostCons(s, start, i, e, Scan(s, e, e).segments, Scan(s, e, e).groups);
    } else {
      ScanPass(s, start, i, i + 1);
      ScanLeftmost(s, start, i + 1);
    }
  }

  /** A leftmost split of the rest of s is the scan's: there is only one. */
  lemma {:induction false} LeftmostIsScan(s: string, start: nat, segments: seq<string>, groups: seq<string>)
    requires start <= |s|
    requires LeftmostFrom(s, start, segments, groups)
    ensures Scan(s, start, start) == Split(segments, groups)
    decreases |groups|
  {
    if groups == [] {
      var i := start + |segments[0]|;
      ScanPass(s, start, start, i);
      ScanEnd(s, start);
      assert segments[0] == s[start..];
      assert segments == [segments[0]];
    } else {
      var i, e := LeftmostUncons(s, start, segments, groups);
      ScanPass(s, start, start, i);
      ScanTake(s, start, i, e);
      LeftmostIsScan(s, e, segments[1..], groups[1..]);
    }
  }

  /**
   * preg_split and preg_match_all take the groups leftmost first: SplitGroups
   * is a leftmost split of s, and the only one.
   */
  lemma SplitGroupsLeftmost(s: string, r: Split)
    ensures Leftmost(s, r) <==> r == SplitGroups(s)
  {
    ScanLeftmost(s, 0, 0);
    if Leftmost(s, r) {
      LeftmostIsScan(s, 0, r.segments, r.groups);
    }
  }

  /** The groups preg_match_all finds in s, left to right. */
  function Groups(s: string): seq<string>
  {
    SplitGroups(s).groups
  }

  /** The pieces preg_split leaves between the groups of s, empty ones included. */
  function Segments(s: string): seq<string>
  {
    SplitGroups(s).segments
  }
}
