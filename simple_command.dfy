/**
 * SimpleCommand: a command template such as "/order [order_id]" and the
 * matching of a typed command line against it. A template or a line is
 * cut by the bracket-group pattern into literal segments and groups; the
 * line pattern made of them is a sequence of literal pieces and group
 * pieces anchored at both ends, and each piece matches in at most one way.
 */
module SimpleCommand {
  import opened Php
  import opened Brackets

  /** explode(" ", $s, 2)[0]: the text before the first space. */
  function FirstToken(s: string): (r: string)
    ensures r <= s
    ensures ' ' !in r
    ensures |r| < |s| ==> s[|r|] == ' '
  {
    if |s| == 0 || s[0] == ' ' then "" else [s[0]] + FirstToken(s[1..])
  }

  /** A string that has a space keeps its first token when more text is appended. */
  lemma {:induction false} FirstTokenAppend(t: string, x: string)
    requires ' ' in t
    ensures FirstToken(t + x) == FirstToken(t)
  {
    if t[0] != ' ' {
      assert (t + x)[1..] == t[1..] + x;
      FirstTokenAppend(t[1..], x);
    }
  }

  /** Without a space the whole string is its first token. */
  lemma {:induction false} FirstTokenNoSpace(t: string)
    requires ' ' !in t
    ensures FirstToken(t) == t
  {
    if |t| > 0 {
      FirstTokenNoSpace(t[1..]);
    }
  }

  /** The first token of a word, a space and more text is the word. */
  lemma {:induction false} FirstTokenOf(w: string, rest: string)
    requires ' ' !in w
    ensures FirstToken(w + " " + rest) == w
  {
    if |w| > 0 {
      assert (w + " " + rest)[1..] == w[1..] + " " + rest;
      FirstTokenOf(w[1..], rest);
    } else {
      assert (w + " " + rest)[0] == ' ';
    }
  }

  /**
   * preg_replace("#(^\[|]$)#", "", $e): drops a '[' at the very start and a
   * ']' that `$` accepts after it, that is at the very end or just before a
   * final newline.
   */
  function RemoveBrackets(e: string): string
  {
    var head := if |e| > 0 && e[0] == '[' then 1 else 0;
    if |e| >= head + 1 && e[|e| - 1] == ']' then e[head..|e| - 1]
    else if |e| >= head + 2 && e[|e| - 2] == ']' && e[|e| - 1] == '\n' then e[head..|e| - 2] + "\n"
    else e[head..]
  }

  /** Bracketed text loses exactly its outer brackets. */
  lemma RemoveBracketsWrapped(x: string)
    ensures RemoveBrackets("[" + x + "]") == x
  {
    var e := "[" + x + "]";
    assert e[1..|e| - 1] == x;
  }

  /** Text with no bracket at either end, and no ']' before a final newline, is left alone. */
  lemma RemoveBracketsPlain(e: string)
    requires |e| > 0 ==> e[0] != '[' && e[|e| - 1] != ']'
    requires |e| >= 2 && e[|e| - 1] == '\n' ==> e[|e| - 2] != ']'
    ensures RemoveBrackets(e) == e
  {
  }

  /** A group loses its own opening and closing bracket and nothing else. */
  lemma RemoveBracketsOfGroup(g: string)
    requires IsGroup(g)
    ensures |g| >= 2 && RemoveBrackets(g) == g[1..|g| - 1]
  {
    GroupShape(g, 0, |g|);
  }

  /** array_map of RemoveBrackets. */
  function RemoveBracketsAll(arr: seq<string>): (r: seq<string>)
    ensures |r| == |arr|
    ensures forall i :: 0 <= i < |arr| ==> r[i] == RemoveBrackets(arr[i])
  {
    if |arr| == 0 then [] else [RemoveBrackets(arr[0])] + RemoveBracketsAll(arr[1..])
  }

  /** One piece of a line pattern: preg_quote'd literal text, or a copy of the group pattern. */
  datatype Piece = Literal(text: string) | Group

  /** The number of group pieces, which is the number of outer captures. */
  function GroupCount(p: seq<Piece>): nat
  {
    if |p| == 0 then 0 else (if p[0] == Group then 1 else 0) + GroupCount(p[1..])
  }

  /** What `$` (without the D modifier) accepts after the last piece: nothing, or a final newline. */
  predicate AtEnd(rest: string)
  {
    rest == "" || rest == "\n"
  }

  /** A successful match: what `$` left unmatched and the text of each outer group, left to right. */
  datatype Match = Match(leftover: string, groups: seq<string>)

  /**
   * The pattern p matched at the start of the remaining input r and
   * anchored at its end. A literal matches only itself and a group only the
   * group that starts there, so there is nothing to backtrack over and the
   * match is unique.
   */
  function MatchRest(p: seq<Piece>, r: string): (res: Option<Match>)
    ensures res.Some? ==> AtEnd(res.value.leftover) && |res.value.leftover| <= |r|
    ensures res.Some? ==> |res.value.groups| == GroupCount(p)
    decreases |p|
  {
    if |p| == 0 then
      if AtEnd(r) then Some(Match(r, [])) else None
    else
      match p[0]
      case Literal(t) =>
        if t <= r then MatchRest(p[1..], r[|t|..]) else None
      case Group =>
        match GroupAt(r, 0)
        case None => None
        case Some(e) =>
          match MatchRest(p[1..], r[e..])
          case None => None
          case Some(m) => Some(Match(m.leftover, [r[..e]] + m.groups))
  }

  /** Start of the longest run of non-bracket characters that ends t. */
  function TrailingRunStart(t: string): (k: nat)
    ensures k <= |t|
  {
    if |t| > 0 && Step(t[|t| - 1]) == 0 then TrailingRunStart(t[..|t| - 1]) else |t|
  }

  /** Scanning t[..j] backwards at the given depth: the index of the '[' that brings it to zero. */
  function OpenerBefore(t: string, j: nat, depth: nat): (k: nat)
    requires j <= |t| && depth > 0
    ensures k <= j
  {
    if j == 0 then 0
    else if t[j - 1] == '[' && depth == 1 then j - 1
    else OpenerBefore(t, j - 1, if t[j - 1] == '[' then depth - 1 else if t[j - 1] == ']' then depth + 1 else depth)
  }

  /**
   * The inner capture of a group copy: the last iteration of
   * `((?>[^\[\]]+)|(?-2))*`, a nested group or a run of plain text; unset
   * when the group is "[]".
   */
  function InnerCapture(g: string): Option<string>
  {
    if |g| < 3 then None
    else
      var content := g[1..|g| - 1];
      if content[|content| - 1] == ']' then Some(content[OpenerBefore(content, |content| - 1, 1)..])
      else Some(content[TrailingRunStart(content)..])
  }

  /** The inner capture as preg_match reports it between two outer ones: "" when unset. */
  function InnerText(g: string): string
  {
    if InnerCapture(g).Some? then InnerCapture(g).value else ""
  }

  /** The captures of the group copies, outer then inner; an unset inner capture reads as "" unless it is the last. */
  function Interleaved(groups: seq<string>): (r: seq<string>)
    ensures |groups| > 0 ==> |r| > 0 && r[0] == groups[0]
  {
    if |groups| == 0 then []
    else if |groups| == 1 && InnerCapture(groups[0]).None? then [groups[0]]
    else [groups[0], InnerText(groups[0])] + Interleaved(groups[1..])
  }

  /** preg_match's $matches: the whole match at index 0, then every capture group by number. */
  function CaptureList(s: string, m: Match): seq<string>
    requires |m.leftover| <= |s|
  {
    [s[..|s| - |m.leftover|]] + Interleaved(m.groups)
  }

  /** array_filter keeping the odd, non-zero keys: the outer group captures. */
  function OddKeys(raw: seq<string>): seq<string>
  {
    if |raw| < 2 then [] else [raw[1]] + OddKeys(raw[2..])
  }

  /** The captures of the first group copy in front of those of the rest. */
  lemma InterleavedFront(groups: seq<string>)
    requires |groups| > 0
    ensures |groups| == 1 && InnerCapture(groups[0]).None? ==> Interleaved(groups) == [groups[0]]
    ensures !(|groups| == 1 && InnerCapture(groups[0]).None?) ==>
      Interleaved(groups) == [groups[0], InnerText(groups[0])] + Interleaved(groups[1..])
  {
  }

  /** The filter keeps the second of the first two entries and goes on after them. */
  lemma OddKeysCons(a: string, b: string, t: seq<string>)
    ensures OddKeys([a, b] + t) == [b] + OddKeys(t)
  {
    assert ([a, b] + t)[2..] == t;
  }

  /** The filter keeps exactly the outer captures, so their count is always the group count. */
  lemma {:induction false} OddKeysOfCaptures(whole: string, groups: seq<string>)
    ensures OddKeys([whole] + Interleaved(groups)) == groups
    decreases |groups|
  {
    if |groups| > 0 {
      InterleavedFront(groups);
      var g := groups[0];
      if |groups| == 1 && InnerCapture(g).None? {
        assert [whole] + Interleaved(groups) == [whole, g] + [];
        OddKeysCons(whole, g, []);
      } else {
        var inner := InnerText(g);
        var rest := Interleaved(groups[1..]);
        assert [whole] + Interleaved(groups) == [whole, g] + ([inner] + rest);
        OddKeysCons(whole, g, [inner] + rest);
        OddKeysOfCaptures(inner, groups[1..]);
        assert [g] + groups[1..] == groups;
      }
    }
  }

  /** makeActionRegexp: the template itself, quoted, anchored at both ends. */
  function ActionPattern(raw: string): seq<Piece>
  {
    [Literal(raw)]
  }

  /** A segment of the split, or "" where the split has fewer segments. */
  function SegmentOr(segments: seq<string>, n: nat): string
  {
    if n < |segments| then segments[n] else ""
  }

  /** segments[0], then n times a group piece and the next segment. */
  function Pieces(segments: seq<string>, n: nat): (p: seq<Piece>)
    ensures |p| == 2 * n + 1 && p[0] == Literal(SegmentOr(segments, 0))
  {
    if n == 0 then [Literal(SegmentOr(segments, 0))]
    else Pieces(segments, n - 1) + [Group, Literal(SegmentOr(segments, n))]
  }

  /** Read from the front: the first segment, a group piece, then the pattern of the remaining segments. */
  lemma {:induction false} PiecesCons(x: string, t: seq<string>, n: nat)
    ensures Pieces([x] + t, n + 1) == [Literal(x), Group] + Pieces(t, n)
  {
    if n > 0 {
      PiecesCons(x, t, n - 1);
    }
  }

  /** The pattern has one outer capture per group piece, n of them. */
  lemma {:induction false} PiecesGroupCount(segments: seq<string>, n: nat)
    ensures GroupCount(Pieces(segments, n)) == n
  {
    if n > 0 {
      var tail := [Group, Literal(SegmentOr(segments, n))];
      PiecesGroupCount(segments, n - 1);
      GroupCountAppend(Pieces(segments, n - 1), tail);
      assert tail[0] == Group && tail[1..] == [Literal(SegmentOr(segments, n))];
      assert tail[1..][0] != Group && tail[1..][1..] == [];
      assert GroupCount(tail[1..]) == 0;
    }
  }

  lemma {:induction false} GroupCountAppend(a: seq<Piece>, b: seq<Piece>)
    ensures GroupCount(a + b) == GroupCount(a) + GroupCount(b)
  {
    if |a| > 0 {
      assert (a + b)[0] == a[0];
      assert (a + b)[1..] == a[1..] + b;
      GroupCountAppend(a[1..], b);
    } else {
      assert a + b == b;
    }
  }

  /** makeActionWithArgsRegexp($raw, $parts) with the missing segments read as "". */
  function ActionWithArgsPattern(raw: string, k: nat): seq<Piece>
  {
    Pieces(Segments(raw), k)
  }

  /**
   * makeActionWithArgsRegexp as written: ok is false where
   * `$exploded[$index + 1]` does not exist, for under strict types
   * preg_quote(null) throws a TypeError.
   */
  method MakeActionWithArgsPattern(raw: string, parts: seq<string>) returns (ok: bool, p: seq<Piece>)
    ensures ok <==> |parts| < |Segments(raw)|
    ensures ok ==> p == ActionWithArgsPattern(raw, |parts|)
  {
    var exploded := Segments(raw);
    p := [Literal(exploded[0])];
    var index := 0;
    while index < |parts|
      invariant 0 <= index <= |parts| && index < |exploded|
      invariant p == Pieces(exploded, index)
    {
      if index + 1 >= |exploded| {
        return false, p;
      }
      p := p + [Group, Literal(exploded[index + 1])];
      index := index + 1;
    }
    ok := true;
  }

  /** The pattern the template compiles to: its own segments around its own groups. */
  function TemplatePattern(template: string): seq<Piece>
  {
    Pieces(Segments(template), |Groups(template)|)
  }

  /** The placeholder names: the template's groups without their brackets. */
  function Names(template: string): seq<string>
  {
    RemoveBracketsAll(Groups(template))
  }

  /** The steps after the line pattern is built: match, keep the outer captures, check the count, combine. */
  function ArgsFrom(parts: seq<string>, pattern: seq<Piece>, line: string): Option<seq<(string, string)>>
  {
    match MatchRest(pattern, line)
    case None => None
    case Some(m) =>
      var kept := OddKeys(CaptureList(line, m));
      if |parts| != |kept| then None
      else Some(Combine(RemoveBracketsAll(parts), RemoveBracketsAll(kept)))
  }

  /** tryParseCommand's outcomes in the code as written. */
  datatype ParseOutcome = NoMatch | Parsed(args: seq<(string, string)>) | Fault

  /**
   * tryParseCommand as written: the pattern for a template with groups is
   * built from the segments of the command LINE, so the template's own text
   * beyond its first token is never compared, and a line with fewer groups
   * than the template faults.
   */
  function TryParseCommandAsWritten(template: string, line: string): ParseOutcome
  {
    if FirstToken(line) != FirstToken(template) then NoMatch
    else
      var parts := Groups(template);
      if |parts| > 0 && |parts| >= |Segments(line)| then Fault
      else
        var pattern := if |parts| > 0 then ActionWithArgsPattern(line, |parts|) else ActionPattern(template);
        match ArgsFrom(parts, pattern, line)
        case None => NoMatch
        case Some(args) => Parsed(args)
  }

  /**
   * tryParseCommand with the pattern built from the template, as the
   * parameter name $raw and the other branch indicate: None for false,
   * otherwise the arguments keyed by placeholder name.
   */
  function TryParseCommand(template: string, line: string): Option<seq<(string, string)>>
  {
    if FirstToken(line) != FirstToken(template) then None
    else
      var parts := Groups(template);
      var pattern := if |parts| > 0 then ActionWithArgsPattern(template, |parts|) else ActionPattern(template);
      ArgsFrom(parts, pattern, line)
  }

  /** Both branches of the corrected parser use the template's own pattern. */
  lemma CorrectedUsesTemplatePattern(template: string)
    ensures (if |Groups(template)| > 0 then ActionWithArgsPattern(template, |Groups(template)|)
             else ActionPattern(template)) == TemplatePattern(template)
  {
    var sp := SplitGroups(template);
    if |sp.groups| == 0 {
      assert Join(sp.segments, sp.groups) == sp.segments[0];
    }
  }

  /** A group at the front of a text is the group the scan finds there. */
  lemma GroupAtFront(g: string, z: string)
    requires IsGroup(g)
    ensures GroupAt(g + z, 0) == Some(|g|) && (g + z)[..|g|] == g && (g + z)[|g|..] == z
  {
    assert (g + z)[0..|g|] == g;
    GroupLift(g + z, 0, |g|, 0, |g|);
    GroupAtSpec(g + z, 0, |g|);
  }

  /** Matching a pattern that starts with a literal piece. */
  lemma MatchLiteralFirst(x: string, q: seq<Piece>, z: string)
    ensures MatchRest([Literal(x)] + q, x + z) == MatchRest(q, z)
  {
    assert ([Literal(x)] + q)[1..] == q;
    assert (x + z)[..|x|] == x && (x + z)[|x|..] == z;
  }

  /** A literal piece that the text does not start with fails the match. */
  lemma MatchLiteralMismatch(x: string, q: seq<Piece>, r: string)
    requires !(x <= r)
    ensures MatchRest([Literal(x)] + q, r).None?
  {
  }

  /** Matching a pattern that starts with a group piece where the text starts with a group. */
  lemma MatchGroupFirst(q: seq<Piece>, g: string, z: string)
    requires IsGroup(g)
    ensures MatchRest([Group] + q, g + z)
         == if MatchRest(q, z).Some? then Some(Match(MatchRest(q, z).value.leftover, [g] + MatchRest(q, z).value.groups)) else None
  {
    assert ([Group] + q)[1..] == q;
    GroupAtFront(g, z);
  }

  /** A pattern that starts with a group piece fails where no group starts. */
  lemma MatchGroupFirstNone(q: seq<Piece>, r: string)
    requires GroupAt(r, 0).None?
    ensures MatchRest([Group] + q, r).None?
  {
  }

  /** The pattern of segments with n + 1 groups: the first segment, a group piece, then the rest. */
  lemma PiecesFront(segments: seq<string>, n: nat)
    requires |segments| > 0
    ensures Pieces(segments, n + 1) == [Literal(segments[0])] + ([Group] + Pieces(segments[1..], n))
    ensures Pieces(segments, 0) == [Literal(segments[0])] + []
  {
    assert [segments[0]] + segments[1..] == segments;
    PiecesCons(segments[0], segments[1..], n);
  }

  /** Joining the segments and groups from the front. */
  lemma JoinFront(segments: seq<string>, groups: seq<string>, tail: string)
    requires |segments| == |groups| + 1 && |groups| > 0
    ensures Join(segments, groups) + tail == segments[0] + (groups[0] + (Join(segments[1..], groups[1..]) + tail))
  {
  }

  /** Every entry of the tail of a list of groups is a group. */
  lemma GroupsTail(groups: seq<string>)
    requires |groups| > 0
    requires forall k :: 0 <= k < |groups| ==> IsGroup(groups[k])
    ensures forall k :: 0 <= k < |groups| - 1 ==> IsGroup(groups[1..][k])
  {
    forall k | 0 <= k < |groups| - 1 ensures IsGroup(groups[1..][k]) {
      assert groups[1..][k] == groups[k + 1];
    }
  }

  /** One step of completeness: a first segment and a first group in front of a match. */
  lemma MatchCompleteStep(segments: seq<string>, groups: seq<string>, tail: string)
    requires |segments| == |groups| + 1 && |groups| > 0
    requires IsGroup(groups[0])
    requires MatchRest(Pieces(segments[1..], |groups| - 1), Join(segments[1..], groups[1..]) + tail)
          == Some(Match(tail, groups[1..]))
    ensures MatchRest(Pieces(segments, |groups|), Join(segments, groups) + tail) == Some(Match(tail, groups))
  {
    var x, g := segments[0], groups[0];
    var rest := Pieces(segments[1..], |groups| - 1);
    var z := Join(segments[1..], groups[1..]) + tail;
    PiecesFront(segments, |groups| - 1);
    JoinFront(segments, groups, tail);
    MatchLiteralFirst(x, [Group] + rest, g + z);
    MatchGroupFirst(rest, g, z);
    assert [g] + groups[1..] == groups;
  }

  /**
   * Completeness: the segments with any groups put between them, and at most
   * a final newline after, match the pattern, capturing exactly those groups.
   */
  lemma {:induction false} MatchComplete(segments: seq<string>, groups: seq<string>, tail: string)
    requires |segments| == |groups| + 1
    requires forall k :: 0 <= k < |groups| ==> IsGroup(groups[k])
    requires AtEnd(tail)
    ensures MatchRest(Pieces(segments, |groups|), Join(segments, groups) + tail) == Some(Match(tail, groups))
    decreases |groups|
  {
    if |groups| == 0 {
      PiecesFront(segments, 0);
      MatchLiteralFirst(segments[0], [], tail);
    } else {
      GroupsTail(groups);
      MatchComplete(segments[1..], groups[1..], tail);
      MatchCompleteStep(segments, groups, tail);
    }
  }

  /** One step of soundness: a match of n > 0 groups is the first segment, a group, and a match of the rest. */
  lemma MatchSoundFront(segments: seq<string>, n: nat, r: string) returns (g: string, z: string)
    requires |segments| == n + 1 && n > 0
    requires MatchRest(Pieces(segments, n), r).Some?
    ensures IsGroup(g) && r == segments[0] + (g + z)
    ensures MatchRest(Pieces(segments[1..], n - 1), z).Some?
    ensures MatchRest(Pieces(segments, n), r).value
         == Match(MatchRest(Pieces(segments[1..], n - 1), z).value.leftover,
                  [g] + MatchRest(Pieces(segments[1..], n - 1), z).value.groups)
  {
    var x := segments[0];
    PiecesFront(segments, n - 1);
    var rest := Pieces(segments[1..], n - 1);
    var p := Pieces(segments, n);
    assert p[1..] == [Group] + rest;
    assert x <= r;
    var r1 := r[|x|..];
    assert r == x + r1;
    MatchLiteralFirst(x, [Group] + rest, r1);
    var e := GroupAt(r1, 0).value;
    GroupAtSpec(r1, 0, e);
    GroupSlice(r1, 0, e);
    g := r1[..e];
    z := r1[e..];
    assert r1 == g + z;
    MatchGroupFirst(rest, g, z);
  }

  /** Soundness: whatever matches the pattern is the segments with the captured groups between them. */
  lemma {:induction false} MatchSound(segments: seq<string>, n: nat, r: string)
    requires |segments| == n + 1
    requires MatchRest(Pieces(segments, n), r).Some?
    ensures var m := MatchRest(Pieces(segments, n), r).value;
      && |m.groups| == n
      && (forall k :: 0 <= k < n ==> IsGroup(m.groups[k]))
      && r == Join(segments, m.groups) + m.leftover
    decreases n
  {
    var x := segments[0];
    var m := MatchRest(Pieces(segments, n), r).value;
    PiecesGroupCount(segments, n);
    if n == 0 {
      PiecesFront(segments, 0);
      assert Pieces(segments, 0)[1..] == [];
      assert r == x + r[|x|..];
    } else {
      var g, z := MatchSoundFront(segments, n, r);
      var m' := MatchRest(Pieces(segments[1..], n - 1), z).value;
      MatchSound(segments[1..], n - 1, z);
      assert m.groups == [g] + m'.groups;
      assert m.groups[1..] == m'.groups;
      JoinFront(segments, m.groups, m.leftover);
    }
  }

  /**
   * A pattern built from the segments of a decomposition, with no more group
   * pieces than it has groups, matches the joined text exactly when it has
   * as many group pieces as there are groups.
   */
  lemma {:induction false} MatchOwnSplit(segments: seq<string>, groups: seq<string>, n: nat)
    requires |segments| == |groups| + 1 && n <= |groups|
    requires forall k :: 0 <= k < |groups| ==> IsGroup(groups[k])
    ensures MatchRest(Pieces(segments, n), Join(segments, groups))
         == if n == |groups| then Some(Match("", groups)) else None
    decreases n
  {
    var x := segments[0];
    if n == |groups| {
      assert Join(segments, groups) + "" == Join(segments, groups);
      MatchComplete(segments, groups, "");
    } else {
      var g := groups[0];
      var z := Join(segments[1..], groups[1..]);
      JoinFront(segments, groups, "");
      assert Join(segments, groups) + "" == Join(segments, groups);
      assert z + "" == z;
      forall k | 0 <= k < |groups| - 1 ensures IsGroup(groups[1..][k]) {
        assert groups[1..][k] == groups[k + 1];
      }
      if n == 0 {
        PiecesFront(segments, 0);
        MatchLiteralFirst(x, [], g + z);
        GroupShape(g, 0, |g|);
        assert (g + z)[0] == '[';
      } else {
        MatchOwnSplit(segments[1..], groups[1..], n - 1);
        PiecesFront(segments, n - 1);
        MatchLiteralFirst(x, [Group] + Pieces(segments[1..], n - 1), g + z);
        MatchGroupFirst(Pieces(segments[1..], n - 1), g, z);
      }
    }
  }

  /** The count check of tryParseCommand never rejects: the filter keeps one capture per template group. */
  lemma CountCheckNeverFires(parts: seq<string>, pattern: seq<Piece>, line: string)
    requires GroupCount(pattern) == |parts|
    requires MatchRest(pattern, line).Some?
    ensures |OddKeys(CaptureList(line, MatchRest(pattern, line).value))| == |parts|
  {
    var m := MatchRest(pattern, line).value;
    OddKeysOfCaptures(line[..|line| - |m.leftover|], m.groups);
  }

  /** What ArgsFrom returns in terms of the captured groups. */
  lemma ArgsFromMatch(parts: seq<string>, pattern: seq<Piece>, line: string)
    requires GroupCount(pattern) == |parts|
    ensures ArgsFrom(parts, pattern, line).Some? <==> MatchRest(pattern, line).Some?
    ensures MatchRest(pattern, line).Some? ==>
      ArgsFrom(parts, pattern, line)
        == Some(Combine(RemoveBracketsAll(parts), RemoveBracketsAll(MatchRest(pattern, line).value.groups)))
  {
    if MatchRest(pattern, line).Some? {
      CountCheckNeverFires(parts, pattern, line);
      var m := MatchRest(pattern, line).value;
      OddKeysOfCaptures(line[..|line| - |m.leftover|], m.groups);
    }
  }

  /** With the prefix check passed, the corrected parser runs the template's pattern. */
  lemma TryParseUnfold(template: string, line: string)
    requires FirstToken(line) == FirstToken(template)
    ensures TryParseCommand(template, line) == ArgsFrom(Groups(template), TemplatePattern(template), line)
    ensures GroupCount(TemplatePattern(template)) == |Groups(template)|
  {
    CorrectedUsesTemplatePattern(template);
    PiecesGroupCount(Segments(template), |Groups(template)|);
  }

  /**
   * A template without placeholders accepts the template text itself, and
   * the template followed by a newline when its first token stops at a
   * space; the arguments are then empty.
   */
  lemma NoPlaceholders(template: string, line: string)
    requires |Groups(template)| == 0
    ensures TryParseCommand(template, line).Some?
      <==> line == template || (line == template + "\n" && ' ' in template)
    ensures TryParseCommand(template, line).Some? ==> TryParseCommand(template, line).value == []
  {
    var pattern := ActionPattern(template);
    assert GroupCount(pattern) == 0;
    ArgsFromMatch([], pattern, line);
    assert pattern[1..] == [];
    if line == template + "\n" {
      if ' ' in template {
        FirstTokenAppend(template, "\n");
      } else {
        FirstTokenNoSpace(template);
        FirstTokenNoSpace(template + "\n");
      }
    }
    if template <= line {
      assert line == template + line[|template|..];
    }
  }

  /**
   * Soundness of the corrected parser: an accepted line is the template's
   * segments with one group in each placeholder position (and at most a
   * final newline), and the arguments pair each name with its group's text.
   */
  lemma ParseSound(template: string, line: string)
    requires TryParseCommand(template, line).Some?
    ensures FirstToken(line) == FirstToken(template)
    ensures exists groups: seq<string> ::
      && |groups| == |Groups(template)|
      && (forall k :: 0 <= k < |groups| ==> IsGroup(groups[k]))
      && (line == Join(Segments(template), groups) || line == Join(Segments(template), groups) + "\n")
      && TryParseCommand(template, line).value == Combine(Names(template), RemoveBracketsAll(groups))
  {
    var parts := Groups(template);
    var pattern := TemplatePattern(template);
    TryParseUnfold(template, line);
    ArgsFromMatch(parts, pattern, line);
    MatchSound(Segments(template), |parts|, line);
    var m := MatchRest(pattern, line).value;
    var groups := m.groups;
    assert |groups| == |parts|;
    assert forall k :: 0 <= k < |groups| ==> IsGroup(groups[k]);
    assert line == Join(Segments(template), groups) + m.leftover;
    if m.leftover == "" {
      assert line == Join(Segments(template), groups);
    }
    assert TryParseCommand(template, line).value == Combine(Names(template), RemoveBracketsAll(groups));
  }

  /**
   * Completeness of the corrected parser: the template with any groups in
   * its placeholder positions, and optionally a final newline, is accepted
   * whenever the prefix check lets it through, binding each name to its
   * group's text.
   */
  lemma ParseComplete(template: string, groups: seq<string>, tail: string)
    requires |groups| == |Groups(template)|
    requires forall k :: 0 <= k < |groups| ==> IsGroup(groups[k])
    requires tail == "" || tail == "\n"
    requires FirstToken(Join(Segments(template), groups) + tail) == FirstToken(template)
    ensures TryParseCommand(template, Join(Segments(template), groups) + tail)
         == Some(Combine(Names(template), RemoveBracketsAll(groups)))
  {
    var line := Join(Segments(template), groups) + tail;
    TryParseUnfold(template, line);
    MatchComplete(Segments(template), groups, tail);
    ArgsFromMatch(Groups(template), TemplatePattern(template), line);
  }

  /** When a space comes before the first placeholder, the prefix check never rejects a line of the template's shape. */
  lemma PrefixCheckSafe(template: string, groups: seq<string>, tail: string)
    requires |groups| == |Groups(template)|
    requires ' ' in Segments(template)[0]
    ensures FirstToken(Join(Segments(template), groups) + tail) == FirstToken(template)
  {
    var segments := Segments(template);
    var own := Groups(template);
    var x := segments[0];
    var rest := if |groups| == 0 then "" else groups[0] + Join(segments[1..], groups[1..]);
    var ownRest := if |own| == 0 then "" else own[0] + Join(segments[1..], own[1..]);
    assert Join(segments, groups) == x + rest;
    assert Join(segments, own) == x + ownRest;
    FirstTokenAppend(x, ownRest);
    FirstTokenAppend(x, rest + tail);
    assert Join(segments, groups) + tail == x + (rest + tail);
  }

  /** The arguments are keyed by the placeholder names in template order, each name once. */
  lemma ParsedKeys(template: string, line: string)
    requires TryParseCommand(template, line).Some?
    ensures KeysOf(TryParseCommand(template, line).value) == Dedup(Names(template))
  {
    ParseSound(template, line);
    var groups: seq<string> :| && |groups| == |Groups(template)|
      && TryParseCommand(template, line).value == Combine(Names(template), RemoveBracketsAll(groups));
    CombineKeys(Names(template), RemoveBracketsAll(groups));
  }

  /**
   * As written, a template with placeholders faults exactly when the prefix
   * check passes and the line has fewer groups than the template.
   */
  lemma AsWrittenFaults(template: string, line: string)
    ensures TryParseCommandAsWritten(template, line) == Fault
      <==> FirstToken(line) == FirstToken(template) && |Groups(line)| < |Groups(template)|
  {
  }

  /**
   * As written, a template with placeholders accepts a line exactly when the
   * line has as many groups as the template, whatever the rest of the
   * template says, and binds the names to the line's groups.
   */
  lemma AsWrittenCounts(template: string, line: string)
    requires |Groups(template)| > 0 && FirstToken(line) == FirstToken(template)
    requires |Groups(line)| >= |Groups(template)|
    ensures TryParseCommandAsWritten(template, line).Parsed? <==> |Groups(line)| == |Groups(template)|
    ensures TryParseCommandAsWritten(template, line).Parsed? ==>
      TryParseCommandAsWritten(template, line).args == Combine(Names(template), RemoveBracketsAll(Groups(line)))
  {
    var k := |Groups(template)|;
    var pattern := ActionWithArgsPattern(line, k);
    MatchOwnSplit(Segments(line), Groups(line), k);
    PiecesGroupCount(Segments(line), k);
    ArgsFromMatch(Groups(template), pattern, line);
  }

  /** Without placeholders the code as written and the corrected parser agree. */
  lemma AsWrittenAgreesWithoutPlaceholders(template: string, line: string)
    requires |Groups(template)| == 0
    ensures TryParseCommandAsWritten(template, line)
         == match TryParseCommand(template, line) case None => NoMatch case Some(a) => Parsed(a)
  {
  }
}
