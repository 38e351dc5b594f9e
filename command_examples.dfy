/**
 * Worked command lines for SimpleCommand, chosen for this model: a single
 * argument, a nested argument, a missing argument and a changed literal;
 * the two ways the code as written departs from the template's meaning, and
 * what the corrected parser does instead.
 */
module CommandExamples {
  import opened Php
  import opened Brackets
  import opened SimpleCommand

  /** Over text without brackets the scan keeps its depth up to the next bracket, at e. */
  lemma {:induction false} CloseOverFlat(s: string, j: nat, depth: nat, e: nat)
    requires j <= e < |s| && depth > 0 && (s[e] == '[' || s[e] == ']')
    requires forall p :: j <= p < e ==> s[p] != '[' && s[p] != ']'
    ensures CloseFrom(s, j, depth)
         == if s[e] == ']' && depth == 1 then Some(e + 1) else CloseFrom(s, e + 1, depth + Step(s[e]))
    decreases e - j
  {
    if j < e {
      CloseOverFlat(s, j + 1, depth, e);
    }
  }

  /** A flat group "[" + inner + "]" between a prefix and a suffix without '[' splits the text around it. */
  lemma OneGroupSplit(pre: string, inner: string, suf: string)
    requires '[' !in pre && '[' !in inner && ']' !in inner && '[' !in suf
    ensures var s := pre + "[" + inner + "]" + suf;
      Segments(s) == [pre, suf] && Groups(s) == ["[" + inner + "]"]
  {
    var s := pre + "[" + inner + "]" + suf;
    var i, e := |pre|, |pre| + |inner| + 2;
    forall p | i + 1 <= p < e - 1 ensures s[p] != '[' && s[p] != ']' {
      assert s[p] == inner[p - i - 1];
    }
    assert s[e - 1] == ']';
    CloseOverFlat(s, i + 1, 1, e - 1);
    assert s[..i] == pre && s[e..] == suf;
    GroupsAfterPrefix(s, pre, e);
    assert s[i..e] == "[" + inner + "]";
  }

  /** Depth counting over "[" + flat + "[" + flat + "]]" laid out at i, k and e in s. */
  lemma NestedClose(s: string, i: nat, k: nat, e: nat)
    requires i < k && k + 3 <= e <= |s|
    requires s[k] == '[' && s[e - 2] == ']' && s[e - 1] == ']'
    requires forall p :: i + 1 <= p < k ==> s[p] != '[' && s[p] != ']'
    requires forall p :: k + 1 <= p < e - 2 ==> s[p] != '[' && s[p] != ']'
    ensures CloseFrom(s, i + 1, 1) == Some(e)
  {
    CloseOverFlat(s, k + 1, 2, e - 2);
    CloseOverFlat(s, i + 1, 1, k);
  }

  /** "[" + a + "[" + b + "]]" with flat a and b is one group. */
  lemma NestedIsGroup(a: string, b: string)
    requires '[' !in a && ']' !in a && '[' !in b && ']' !in b
    ensures IsGroup("[" + a + "[" + b + "]]")
  {
    var g := "[" + a + "[" + b + "]]";
    var k := 1 + |a|;
    var e := |g|;
    forall p | 1 <= p < k ensures g[p] != '[' && g[p] != ']' {
      assert g[p] == a[p - 1];
    }
    forall p | k + 1 <= p < e - 2 ensures g[p] != '[' && g[p] != ']' {
      assert g[p] == b[p - k - 1];
    }
    assert g[0] == '[' && g[k] == '[' && g[e - 2] == ']' && g[e - 1] == ']';
    NestedClose(g, 0, k, e);
    assert GroupAt(g, 0) == Some(e);
    GroupAtSpec(g, 0, e);
  }

  /** A group "[" + a + "[" + b + "]]" with flat a and b between a prefix and a suffix without '['. */
  lemma NestedGroupSplit(pre: string, a: string, b: string, suf: string)
    requires '[' !in pre && '[' !in a && ']' !in a && '[' !in b && ']' !in b && '[' !in suf
    ensures var s := pre + "[" + a + "[" + b + "]]" + suf;
      Segments(s) == [pre, suf] && Groups(s) == ["[" + a + "[" + b + "]]"]
  {
    var g := "[" + a + "[" + b + "]]";
    var s := pre + g + suf;
    var i := |pre|;
    var e := i + |g|;
    NestedIsGroup(a, b);
    assert s[i..e] == g;
    GroupLift(s, i, e, 0, |g|);
    GroupAtSpec(s, i, e);
    assert s[..i] == pre && s[e..] == suf;
    GroupsAfterPrefix(s, pre, e);
    assert pre + "[" + a + "[" + b + "]]" + suf == s;
  }

  /** When the first group of s starts right after pre and ends at e, the scan yields pre, the group and the rest. */
  lemma GroupsAfterPrefix(s: string, pre: string, e: nat)
    requires |pre| < e <= |s| && s[..|pre|] == pre && '[' !in pre && '[' !in s[e..]
    requires s[|pre|] == '[' && CloseFrom(s, |pre| + 1, 1) == Some(e)
    ensures Segments(s) == [pre, s[e..]] && Groups(s) == [s[|pre|..e]]
  {
    var i := |pre|;
    forall p | 0 <= p < i ensures s[p] != '[' {
      assert s[p] == pre[p];
    }
    forall p | e <= p < |s| ensures s[p] != '[' {
      assert s[p] == s[e..][p - e];
    }
    ScanSkip(s, 0, 0, i);
    assert GroupAt(s, i) == Some(e);
    ScanTake(s, 0, i, e);
    ScanSkip(s, e, e, |s|);
    ScanEnd(s, e);
    assert s[0..i] == pre;
  }

  /** A text without an opening bracket is one segment and no group. */
  lemma NoGroupSplit(s: string)
    requires '[' !in s
    ensures Segments(s) == [s] && Groups(s) == []
  {
    ScanSkip(s, 0, 0, |s|);
    ScanEnd(s, 0);
  }

  /** The corrected parser rejects a line whose text after the template's leading literal does not open a group. */
  lemma RejectedWithoutGroup(template: string, line: string, x: string, q: seq<Piece>, z: string)
    requires FirstToken(line) == FirstToken(template)
    requires TemplatePattern(template) == [Literal(x)] + ([Group] + q)
    requires line == x + z && GroupAt(z, 0).None?
    ensures TryParseCommand(template, line) == None
  {
    TryParseUnfold(template, line);
    MatchLiteralFirst(x, [Group] + q, z);
    MatchGroupFirstNone(q, z);
  }

  /** The corrected parser rejects a line that does not start with the template's leading literal. */
  lemma RejectedAtLiteral(template: string, line: string, x: string, q: seq<Piece>)
    requires FirstToken(line) == FirstToken(template)
    requires TemplatePattern(template) == [Literal(x)] + q
    requires !(x <= line)
    ensures TryParseCommand(template, line) == None
  {
    TryParseUnfold(template, line);
    MatchLiteralMismatch(x, q, line);
  }

  /** Combining a single name with a single value. */
  lemma CombineOne(n: string, v: string)
    ensures Combine(RemoveBracketsAll(["[" + n + "]"]), RemoveBracketsAll(["[" + v + "]"])) == [(n, v)]
  {
    RemoveBracketsWrapped(n);
    RemoveBracketsWrapped(v);
    assert RemoveBracketsAll(["[" + n + "]"]) == [n];
    assert RemoveBracketsAll(["[" + v + "]"]) == [v];
    assert [n][..0] == [] && [v][..0] == [];
  }

  /** As written, a one-placeholder template accepts any line with the same first token and one group. */
  lemma AsWrittenOneGroup(template: string, line: string, n: string, v: string)
    requires FirstToken(line) == FirstToken(template)
    requires Groups(template) == ["[" + n + "]"] && Groups(line) == ["[" + v + "]"]
    ensures TryParseCommandAsWritten(template, line) == Parsed([(n, v)])
  {
    AsWrittenCounts(template, line);
    CombineOne(n, v);
  }

  /** The pattern of a template with one placeholder after the literal x. */
  lemma OneGroupPattern(template: string, x: string)
    requires Segments(template) == [x, ""] && |Groups(template)| == 1
    ensures TemplatePattern(template) == [Literal(x)] + ([Group] + Pieces([""], 0))
  {
    PiecesFront([x, ""], 0);
    assert [x, ""][1..] == [""];
  }

  /** Two different words without spaces, each followed by a space, differ at some position k. */
  lemma WordsDiffer(w1: string, w2: string, r: string) returns (k: nat)
    requires ' ' !in w1 && ' ' !in w2 && w1 != w2
    ensures k < |w1 + " "| && k < |w2 + " " + r| && (w1 + " ")[k] != (w2 + " " + r)[k]
  {
    if |w1| < |w2| {
      k := |w1|;
      assert (w2 + " " + r)[k] == w2[k];
    } else if |w1| > |w2| {
      k := |w2|;
      assert (w1 + " ")[k] == w1[k];
    } else {
      assert exists j :: 0 <= j < |w1| && w1[j] != w2[j];
      var j :| 0 <= j < |w1| && w1[j] != w2[j];
      k := j;
      assert (w1 + " ")[k] == w1[k] && (w2 + " " + r)[k] == w2[k];
    }
  }

  /**
   * As written, only the first token and the number of groups are compared:
   * the template "/show order [id]" accepts "/show banana [5]", binding id to
   * 5. The corrected parser compares the template's literal text and
   * rejects such a line.
   */
  lemma LiteralIgnored(cmd: string, w1: string, w2: string, n: string, v: string)
    requires ' ' !in cmd && '[' !in cmd
    requires ' ' !in w1 && '[' !in w1 && ' ' !in w2 && '[' !in w2 && w1 != w2
    requires '[' !in n && ']' !in n && '[' !in v && ']' !in v
    ensures TryParseCommandAsWritten(cmd + " " + w1 + " [" + n + "]", cmd + " " + w2 + " [" + v + "]") == Parsed([(n, v)])
    ensures TryParseCommand(cmd + " " + w1 + " [" + n + "]", cmd + " " + w2 + " [" + v + "]") == None
  {
    var template, line := cmd + " " + w1 + " [" + n + "]", cmd + " " + w2 + " [" + v + "]";
    var x1 := cmd + " " + w1 + " ";
    WordThenGroup(cmd, w1, n);
    WordThenGroup(cmd, w2, v);
    AsWrittenOneGroup(template, line, n, v);
    OneGroupPattern(template, x1);
    LiteralsDiffer(cmd, w1, w2, v);
    RejectedAtLiteral(template, line, x1, [Group] + Pieces([""], 0));
  }

  /** The split and first token of cmd + " " + w + " [" + n + "]". */
  lemma WordThenGroup(cmd: string, w: string, n: string)
    requires ' ' !in cmd && '[' !in cmd && ' ' !in w && '[' !in w && '[' !in n && ']' !in n
    ensures var s := cmd + " " + w + " [" + n + "]";
      && Segments(s) == [cmd + " " + w + " ", ""] && Groups(s) == ["[" + n + "]"]
      && FirstToken(s) == cmd
  {
    var s, x := cmd + " " + w + " [" + n + "]", cmd + " " + w + " ";
    assert s == x + "[" + n + "]" + "";
    OneGroupSplit(x, n, "");
    assert s == cmd + " " + (w + " [" + n + "]");
    FirstTokenOf(cmd, w + " [" + n + "]");
  }

  /** The template's literal is not a prefix of the line when the middle words differ. */
  lemma LiteralsDiffer(cmd: string, w1: string, w2: string, v: string)
    requires ' ' !in w1 && ' ' !in w2 && w1 != w2
    ensures !(cmd + " " + w1 + " " <= cmd + " " + w2 + " [" + v + "]")
  {
    var c, x1, line := cmd + " ", cmd + " " + w1 + " ", cmd + " " + w2 + " [" + v + "]";
    var k := WordsDiffer(w1, w2, "[" + v + "]");
    assert x1 == c + (w1 + " ") && line == c + (w2 + " " + ("[" + v + "]"));
    assert x1[|c| + k] == (w1 + " ")[k] && line[|c| + k] == (w2 + " " + ("[" + v + "]"))[k];
  }

  /** "[" + v + "]" is a group when v holds no brackets. */
  lemma FlatIsGroup(v: string)
    requires '[' !in v && ']' !in v
    ensures IsGroup("[" + v + "]")
  {
    OneGroupSplit("", v, "");
    assert "" + "[" + v + "]" + "" == "[" + v + "]";
    assert Groups("[" + v + "]")[0] == "[" + v + "]";
  }

  /**
   * The code as written builds the pattern from the line's own segments,
   * so a line of "/order [id]" without the placeholder's brackets, such as
   * "/order 42", leaves `$exploded[1]` undefined and preg_quote(null)
   * faults. The corrected parser rejects the line.
   */
  lemma MissingPlaceholder(cmd: string, n: string, v: string)
    requires ' ' !in cmd && '[' !in cmd
    requires '[' !in n && ']' !in n && '[' !in v
    ensures TryParseCommandAsWritten(cmd + " [" + n + "]", cmd + " " + v) == Fault
    ensures TryParseCommand(cmd + " [" + n + "]", cmd + " " + v) == None
  {
    var template, line := cmd + " [" + n + "]", cmd + " " + v;
    var pre := cmd + " ";
    assert template == pre + "[" + n + "]" + "";
    OneGroupSplit(pre, n, "");
    assert template == cmd + " " + ("[" + n + "]");
    CommandToken(cmd, "[" + n + "]");
    CommandToken(cmd, v);
    assert '[' !in line;
    NoGroupSplit(line);
    AsWrittenFaults(template, line);
    OneGroupPattern(template, pre);
    RejectedWithoutGroup(template, line, pre, Pieces([""], 0), v);
  }

  /** The first token of cmd + " " + rest is cmd. */
  lemma CommandToken(cmd: string, rest: string)
    requires ' ' !in cmd
    ensures FirstToken(cmd + " " + rest) == cmd
  {
    FirstTokenOf(cmd, rest);
  }

  /**
   * "/order [id]" accepts "/order [42]", with or without a final newline,
   * binding id to 42; here the code as written agrees with the corrected
   * parser.
   */
  lemma OneArgument(cmd: string, n: string, v: string, tail: string)
    requires ' ' !in cmd && '[' !in cmd
    requires '[' !in n && ']' !in n && '[' !in v && ']' !in v
    requires tail == "" || tail == "\n"
    ensures TryParseCommand(cmd + " [" + n + "]", cmd + " [" + v + "]" + tail) == Some([(n, v)])
    ensures TryParseCommandAsWritten(cmd + " [" + n + "]", cmd + " [" + v + "]" + tail) == Parsed([(n, v)])
  {
    var template, line := cmd + " [" + n + "]", cmd + " [" + v + "]" + tail;
    var pre, g := cmd + " ", "[" + v + "]";
    assert template == pre + "[" + n + "]" + "" && line == pre + "[" + v + "]" + tail;
    OneGroupSplit(pre, n, "");
    OneGroupSplit(pre, v, tail);
    FlatIsGroup(v);
    assert Join([pre, ""], [g]) == pre + g + "";
    assert Join([pre, ""], [g]) + tail == line;
    assert pre[|cmd|] == ' ';
    PrefixCheckSafe(template, [g], tail);
    ParseComplete(template, [g], tail);
    CombineOne(n, v);
    AsWrittenOneGroup(template, line, n, v);
  }

  /**
   * A placeholder may hold a nested group: "/set [key[sub]]" accepts
   * "/set [foo[bar]]", binding "key[sub]" to "foo[bar]", in the code as
   * written and in the corrected parser.
   */
  lemma NestedArgument(cmd: string, a: string, b: string, c: string, d: string)
    requires ' ' !in cmd && '[' !in cmd
    requires '[' !in a && ']' !in a && '[' !in b && ']' !in b
    requires '[' !in c && ']' !in c && '[' !in d && ']' !in d
    ensures TryParseCommand(cmd + " [" + a + "[" + b + "]]", cmd + " [" + c + "[" + d + "]]")
         == Some([(a + "[" + b + "]", c + "[" + d + "]")])
    ensures TryParseCommandAsWritten(cmd + " [" + a + "[" + b + "]]", cmd + " [" + c + "[" + d + "]]")
         == Parsed([(a + "[" + b + "]", c + "[" + d + "]")])
  {
    var template, line := cmd + " [" + a + "[" + b + "]]", cmd + " [" + c + "[" + d + "]]";
    var pre, g := cmd + " ", "[" + c + "[" + d + "]]";
    var n, v := a + "[" + b + "]", c + "[" + d + "]";
    assert template == pre + "[" + a + "[" + b + "]]" + "" && line == pre + "[" + c + "[" + d + "]]" + "";
    NestedGroupSplit(pre, a, b, "");
    NestedGroupSplit(pre, c, d, "");
    assert "[" + a + "[" + b + "]]" == "[" + n + "]" && g == "[" + v + "]";
    NestedIsGroup(c, d);
    assert Join([pre, ""], [g]) == pre + g + "";
    assert Join([pre, ""], [g]) + "" == line;
    assert pre[|cmd|] == ' ';
    PrefixCheckSafe(template, [g], "");
    ParseComplete(template, [g], "");
    CombineOne(n, v);
    AsWrittenOneGroup(template, line, n, v);
  }

  /**
   * "/set [key[sub]]" against "/set foo[bar]", whose text before the
   * brackets is not bracketed: as written the line's only group "[bar]" is
   * bound to "key[sub]"; the corrected parser requires a group right after
   * "/set " and rejects the line. Neither binds "foo[bar]".
   */
  lemma UnbracketedNestedArgument(cmd: string, a: string, b: string, c: string, d: string)
    requires ' ' !in cmd && '[' !in cmd
    requires '[' !in a && ']' !in a && '[' !in b && ']' !in b
    requires |c| > 0 && '[' !in c && '[' !in d && ']' !in d
    ensures TryParseCommandAsWritten(cmd + " [" + a + "[" + b + "]]", cmd + " " + c + "[" + d + "]")
         == Parsed([(a + "[" + b + "]", d)])
    ensures TryParseCommand(cmd + " [" + a + "[" + b + "]]", cmd + " " + c + "[" + d + "]") == None
  {
    var template, line := cmd + " [" + a + "[" + b + "]]", cmd + " " + c + "[" + d + "]";
    var pre, z := cmd + " ", c + "[" + d + "]";
    NestedTemplate(cmd, a, b);
    UnbracketedLine(cmd, c, d);
    AsWrittenOneGroup(template, line, a + "[" + b + "]", d);
    OneGroupPattern(template, pre);
    RejectedWithoutGroup(template, line, pre, Pieces([""], 0), z);
  }

  /** The split of "/set [key[sub]]": the command and a space, then one nested group. */
  lemma NestedTemplate(cmd: string, a: string, b: string)
    requires ' ' !in cmd && '[' !in cmd
    requires '[' !in a && ']' !in a && '[' !in b && ']' !in b
    ensures var template := cmd + " [" + a + "[" + b + "]]";
      && FirstToken(template) == cmd
      && Segments(template) == [cmd + " ", ""]
      && Groups(template) == ["[" + (a + "[" + b + "]") + "]"]
  {
    var template := cmd + " [" + a + "[" + b + "]]";
    assert template == (cmd + " ") + "[" + a + "[" + b + "]]" + "";
    NestedGroupSplit(cmd + " ", a, b, "");
    assert "[" + a + "[" + b + "]]" == "[" + (a + "[" + b + "]") + "]";
    assert template == cmd + " " + ("[" + a + "[" + b + "]]");
    CommandToken(cmd, "[" + a + "[" + b + "]]");
  }

  /** The split of "/set foo[bar]": one flat group after text that does not open one. */
  lemma UnbracketedLine(cmd: string, c: string, d: string)
    requires ' ' !in cmd && '[' !in cmd
    requires |c| > 0 && '[' !in c && '[' !in d && ']' !in d
    ensures var line := cmd + " " + c + "[" + d + "]";
      && FirstToken(line) == cmd
      && Groups(line) == ["[" + d + "]"]
      && line == (cmd + " ") + (c + "[" + d + "]")
      && GroupAt(c + "[" + d + "]", 0).None?
  {
    var line := cmd + " " + c + "[" + d + "]";
    var z := c + "[" + d + "]";
    assert line == (cmd + " " + c) + "[" + d + "]" + "";
    OneGroupSplit(cmd + " " + c, d, "");
    assert line == cmd + " " + z;
    CommandToken(cmd, z);
    assert z[0] == c[0];
  }
}
