/**
 * The mention markup of preProcessMessageText: "@User-" followed by
 * decimal digits names a user; a listed user's mention becomes
 * ["@"|<id>|"<name>"]. preg_match_all with /(@User-\d+)/ finds mentions
 * left to right, each with its whole run of digits, without overlap.
 */
module Mentions {
  import opened Php

  const MENTION_PREFIX := "@User-"

  /** The mention text for a user id, as "@User-{$id}" interpolates it. */
  function MentionOf(id: int): string
  {
    MENTION_PREFIX + IntToString(id)
  }

  /** sprintf("[\"@\"|%s|\"%s\"]", id, name). */
  function Markup(id: int, name: string): string
  {
    "[\"@\"|" + IntToString(id) + "|\"" + name + "\"]"
  }

  /** The length of the mention at the front of r, or 0 when r does not start with one. */
  function MentionLength(r: string): (k: nat)
    ensures k <= |r|
    ensures k > 0 ==> k > |MENTION_PREFIX| && r[..|MENTION_PREFIX|] == MENTION_PREFIX
  {
    if MENTION_PREFIX <= r && DigitRun(r[|MENTION_PREFIX|..]) > 0 then |MENTION_PREFIX| + DigitRun(r[|MENTION_PREFIX|..]) else 0
  }

  /** A text as the pattern sees it: mentions, and single characters between them. */
  datatype Token = Char(c: char) | Mention(text: string)

  /** The left-to-right scan of preg_match_all: a mention where one starts, otherwise one character. */
  function Tokens(r: string): seq<Token>
    decreases |r|
  {
    if r == [] then []
    else
      var k := MentionLength(r);
      if k > 0 then [Mention(r[..k])] + Tokens(r[k..]) else [Char(r[0])] + Tokens(r[1..])
  }

  /** The text a token sequence spells. */
  function Spell(ts: seq<Token>): string
  {
    if ts == [] then [] else SpellOne(ts[0]) + Spell(ts[1..])
  }

  /** The mention texts among the tokens, in order. */
  function MentionTexts(ts: seq<Token>): seq<string>
  {
    if ts == [] then [] else (match ts[0] case Char(_) => [] case Mention(m) => [m]) + MentionTexts(ts[1..])
  }

  /** $matches[0]: the mentions of the text, left to right. */
  function Found(text: string): seq<string>
  {
    MentionTexts(Tokens(text))
  }

  /** What one token spells. */
  function SpellOne(t: Token): string
  {
    match t
    case Char(c) => [c]
    case Mention(m) => m
  }

  /** Spelling a token in front of others. */
  lemma SpellCons(t: Token, ts: seq<Token>)
    ensures Spell([t] + ts) == SpellOne(t) + Spell(ts)
  {
    assert ([t] + ts)[1..] == ts;
  }

  /** The first token of a non-empty text, the n characters it spells, and the tokens of the rest. */
  lemma TokensFront(r: string) returns (n: nat, head: Token)
    requires r != []
    ensures 0 < n <= |r| && Tokens(r) == [head] + Tokens(r[n..]) && SpellOne(head) == r[..n]
  {
    var k := MentionLength(r);
    n := if k > 0 then k else 1;
    head := if k > 0 then Mention(r[..k]) else Char(r[0]);
  }

  /** Scanning loses nothing: the tokens spell the text back. */
  lemma {:induction false} TokensSpell(r: string)
    ensures Spell(Tokens(r)) == r
    decreases |r|
  {
    if r != [] {
      var n, head := TokensFront(r);
      TokensSpell(r[n..]);
      SpellCons(head, Tokens(r[n..]));
      assert r == r[..n] + r[n..];
    }
  }

  /** Every mention found starts with "@User-" and continues with at least one digit, and nothing else. */
  lemma {:induction false} FoundAreMentions(r: string)
    ensures forall i :: 0 <= i < |Found(r)| ==>
      var m := Found(r)[i];
      |m| > |MENTION_PREFIX| && m[..|MENTION_PREFIX|] == MENTION_PREFIX
      && forall j :: |MENTION_PREFIX| <= j < |m| ==> IsDigit(m[j])
    decreases |r|
  {
    if r != [] {
      var k := MentionLength(r);
      var rest := if k > 0 then r[k..] else r[1..];
      FoundAreMentions(rest);
      if k > 0 {
        var m := r[..k];
        forall j | |MENTION_PREFIX| <= j < |m| ensures IsDigit(m[j]) {
          assert m[j] == r[|MENTION_PREFIX|..][j - |MENTION_PREFIX|];
        }
        assert Found(r) == [m] + Found(rest);
      } else {
        assert Found(r) == Found(rest);
      }
    }
  }

  // ---------------------------------------------------------------------
  // The rewrite as the source writes it: str_replace with arrays.
  // ---------------------------------------------------------------------

  /** str_replace($search, $replace, $subject) for one non-empty search string: leftmost, without overlap. */
  function ReplaceAll(subject: string, search: string, replace: string): (r: string)
    requires search != []
    decreases |subject|
  {
    if |subject| < |search| then subject
    else if search <= subject then replace + ReplaceAll(subject[|search|..], search, replace)
    else [subject[0]] + ReplaceAll(subject[1..], search, replace)
  }

  /**
   * str_replace with arrays of search and replacement strings: each pair is
   * applied in turn to the result of the previous ones, so a later search
   * sees the text already rewritten.
   */
  function ReplaceInTurn(subject: string, pairs: seq<(string, string)>): string
    requires forall i :: 0 <= i < |pairs| ==> pairs[i].0 != []
    decreases |pairs|
  {
    if pairs == [] then subject else ReplaceInTurn(ReplaceAll(subject, pairs[0].0, pairs[0].1), pairs[1..])
  }

  // ---------------------------------------------------------------------
  // The rewrite as intended: each mention found is rewritten on its own.
  // ---------------------------------------------------------------------

  /** The text of each token after rewriting: a listed mention becomes its markup, anything else stays. */
  function Resolve(ts: seq<Token>, info: seq<(string, string)>): string
  {
    if ts == [] then []
    else
      (match ts[0]
       case Char(c) => [c]
       case Mention(m) => match Lookup(info, m) case Some(x) => x case None => m)
      + Resolve(ts[1..], info)
  }

  /** Rewrites every mention found in the text that info lists, and nothing else. */
  function RewriteMentions(text: string, info: seq<(string, string)>): string
  {
    Resolve(Tokens(text), info)
  }

  /** Tokens whose mentions are not listed are spelled unchanged. */
  lemma {:induction false} ResolveUnlisted(ts: seq<Token>, info: seq<(string, string)>)
    requires forall i :: 0 <= i < |MentionTexts(ts)| ==> Lookup(info, MentionTexts(ts)[i]).None?
    ensures Resolve(ts, info) == Spell(ts)
  {
    if ts != [] {
      var front := MentionTexts([ts[0]]);
      assert MentionTexts(ts) == (match ts[0] case Char(_) => [] case Mention(m) => [m]) + MentionTexts(ts[1..]);
      forall i | 0 <= i < |MentionTexts(ts[1..])| ensures Lookup(info, MentionTexts(ts[1..])[i]).None? {
        var j := |MentionTexts(ts)| - |MentionTexts(ts[1..])| + i;
        assert MentionTexts(ts)[j] == MentionTexts(ts[1..])[i];
      }
      if ts[0].Mention? {
        assert MentionTexts(ts)[0] == ts[0].text;
      }
      ResolveUnlisted(ts[1..], info);
    }
  }

  /** A text none of whose mentions is listed comes back unchanged; in particular, one without mentions. */
  lemma RewriteUnlisted(text: string, info: seq<(string, string)>)
    requires forall i :: 0 <= i < |Found(text)| ==> Lookup(info, Found(text)[i]).None?
    ensures RewriteMentions(text, info) == text
  {
    assert Found(text) == MentionTexts(Tokens(text));
    ResolveUnlisted(Tokens(text), info);
    TokensSpell(text);
  }

  /** Rewriting distributes over the tokens: a token's rewrite does not depend on its neighbours. */
  lemma {:induction false} ResolveAppend(a: seq<Token>, b: seq<Token>, info: seq<(string, string)>)
    ensures Resolve(a + b, info) == Resolve(a, info) + Resolve(b, info)
  {
    if a != [] {
      assert (a + b)[0] == a[0] && (a + b)[1..] == a[1..] + b;
      ResolveAppend(a[1..], b, info);
    } else {
      assert a + b == b;
    }
  }

  // ---------------------------------------------------------------------
  // Where the two disagree.
  // ---------------------------------------------------------------------

  /** A non-empty run of decimal digits. */
  predicate Digits(d: string)
  {
    |d| > 0 && forall k :: 0 <= k < |d| ==> IsDigit(d[k])
  }

  /** Nowhere in s does an "@" stand before a "U", so no mention starts in s. */
  predicate NoMentionStart(s: string)
    decreases |s|
  {
    |s| < 2 || (!(s[0] == '@' && s[1] == 'U') && NoMentionStart(s[1..]))
  }

  /** Two texts in which no mention starts, joined where no "@" meets a "U", start none either. */
  lemma {:induction false} NoMentionJoin(a: string, b: string)
    requires NoMentionStart(a) && NoMentionStart(b)
    requires a == [] || b == [] || a[|a| - 1] != '@' || b[0] != 'U'
    ensures NoMentionStart(a + b)
    decreases |a|
  {
    if a == [] {
      assert a + b == b;
    } else {
      assert (a + b)[1..] == a[1..] + b;
      if |a| >= 2 {
        assert a[1..][|a[1..]| - 1] == a[|a| - 1];
      }
      NoMentionJoin(a[1..], b);
    }
  }

  /** A text without "@" starts no mention. */
  lemma {:induction false} NoAtNoMention(s: string)
    requires forall k :: 0 <= k < |s| ==> s[k] != '@'
    ensures NoMentionStart(s)
    decreases |s|
  {
    if |s| >= 2 {
      NoAtNoMention(s[1..]);
    }
  }

  /** A mention search string finds nothing in a text where no mention starts. */
  lemma {:induction false} ReplaceNoMention(subject: string, search: string, replace: string)
    requires |search| >= 2 && search[0] == '@' && search[1] == 'U'
    requires NoMentionStart(subject)
    ensures ReplaceAll(subject, search, replace) == subject
    decreases |subject|
  {
    if |subject| >= |search| {
      assert subject[0] != search[0] || subject[1] != search[1];
      ReplaceNoMention(subject[1..], search, replace);
      assert subject == [subject[0]] + subject[1..];
    }
  }

  /** A search string at the front of the subject is replaced there. */
  lemma ReplaceAtFront(search: string, rest: string, replace: string)
    requires search != []
    ensures ReplaceAll(search + rest, search, replace) == replace + ReplaceAll(rest, search, replace)
  {
    assert (search + rest)[|search|..] == rest;
  }

  /** A character that cannot start the search string is kept as it is. */
  lemma ReplacePastChar(c: char, rest: string, search: string, replace: string)
    requires search != [] && c != search[0]
    ensures ReplaceAll([c] + rest, search, replace) == [c] + ReplaceAll(rest, search, replace)
  {
    assert ([c] + rest)[1..] == rest;
    if |[c] + rest| < |search| {
      assert ReplaceAll(rest, search, replace) == rest;
    }
  }

  /** The digit run of d + r is d when d is all digits and r does not go on with one. */
  lemma DigitRunFront(d: string, r: string)
    requires Digits(d) && (r == [] || !IsDigit(r[0]))
    ensures DigitRun(d + r) == |d|
  {
    var s := d + r;
    forall k | 0 <= k < |d| ensures IsDigit(s[k]) {
      assert s[k] == d[k];
    }
    assert |d| < |s| ==> s[|d|] == r[0];
  }

  /** Where the text is a mention with exactly the digits d, the scan reads that mention. */
  lemma MentionAtFront(d: string, r: string)
    requires Digits(d) && (r == [] || !IsDigit(r[0]))
    ensures Tokens(MENTION_PREFIX + d + r) == [Mention(MENTION_PREFIX + d)] + Tokens(r)
  {
    var t := MENTION_PREFIX + d + r;
    var k := |MENTION_PREFIX| + |d|;
    assert t[..|MENTION_PREFIX|] == MENTION_PREFIX;
    assert t[|MENTION_PREFIX|..] == d + r;
    DigitRunFront(d, r);
    assert MentionLength(t) == k;
    assert t[..k] == MENTION_PREFIX + d;
    assert t[k..] == r;
  }

  /** A character other than "@" is a token of its own. */
  lemma CharAtFront(c: char, r: string)
    requires c != '@'
    ensures Tokens([c] + r) == [Char(c)] + Tokens(r)
  {
    assert ([c] + r)[0] == c;
    assert !(MENTION_PREFIX <= [c] + r);
    assert ([c] + r)[1..] == r;
  }

  /**
   * The intended rewrite of a mention followed by more text: the mention
   * becomes its entry, if info lists it, and the rest is rewritten on its own.
   */
  lemma RewriteMentionFront(d: string, r: string, info: seq<(string, string)>)
    requires Digits(d) && (r == [] || !IsDigit(r[0]))
    ensures RewriteMentions(MENTION_PREFIX + d + r, info) ==
      (match Lookup(info, MENTION_PREFIX + d) case Some(x) => x case None => MENTION_PREFIX + d)
      + RewriteMentions(r, info)
  {
    MentionAtFront(d, r);
    var ts := [Mention(MENTION_PREFIX + d)] + Tokens(r);
    assert ts[1..] == Tokens(r);
  }

  /** Digits start no mention. */
  lemma DigitsNoMention(e: string)
    requires Digits(e)
    ensures NoMentionStart(e)
  {
    NoAtNoMention(e);
  }

  /** Joining texts in which no mention starts, around a blank, starts no mention either. */
  lemma NoMentionAroundBlank(x: string, e: string)
    requires NoMentionStart(x) && Digits(e)
    ensures NoMentionStart(x + " " + x + e)
  {
    DigitsNoMention(e);
    NoMentionJoin(x, " ");
    NoMentionJoin(x + " ", x);
    NoMentionJoin(x + " " + x, e);
  }

  /** The first search, "@User-<d>", finds the front of both mentions. */
  lemma ShorterMentionReplaced(d: string, e: string, x: string)
    requires Digits(d) && Digits(e)
    ensures ReplaceAll(MENTION_PREFIX + d + (" " + (MENTION_PREFIX + d + e)), MENTION_PREFIX + d, x) == x + " " + x + e
  {
    var p := MENTION_PREFIX + d;
    ReplaceAtFront(p, " " + (p + e), x);
    ReplacePastChar(' ', p + e, p, x);
    ReplaceAtFront(p, e, x);
    DigitsNoMention(e);
    ReplaceNoMention(e, p, x);
    assert x + (" " + (x + e)) == x + " " + x + e;
  }

  /** The source's rewrite of "@User-<d> @User-<d><e>": the shorter mention's entry lands in both places. */
  lemma PrefixMentionsReplacedInTurn(d: string, e: string, x: string, y: string)
    requires Digits(d) && Digits(e) && NoMentionStart(x)
    ensures ReplaceInTurn(MENTION_PREFIX + d + " " + MENTION_PREFIX + d + e,
                          [(MENTION_PREFIX + d, x), (MENTION_PREFIX + d + e, y)]) == x + " " + x + e
  {
    var p := MENTION_PREFIX + d;
    var q := MENTION_PREFIX + d + e;
    var info := [(p, x), (q, y)];
    var once := x + " " + x + e;
    TwoMentionsText(d, e);
    ShorterMentionReplaced(d, e, x);
    NoMentionAroundBlank(x, e);
    ReplaceNoMention(once, q, y);
    assert info[0] == (p, x) && info[1..] == [(q, y)];
    assert ReplaceInTurn(once, [(q, y)]) == ReplaceInTurn(once, []);
  }

  /** Digits followed by digits are digits. */
  lemma DigitsJoin(d: string, e: string)
    requires Digits(d) && Digits(e)
    ensures Digits(d + e)
  {
    forall k | 0 <= k < |d + e| ensures IsDigit((d + e)[k]) {
      if k >= |d| {
        assert (d + e)[k] == e[k - |d|];
      }
    }
  }

  /** The scan of "@User-<d> @User-<d><e>": two mentions around a blank. */
  lemma PrefixMentionsTokens(d: string, e: string)
    requires Digits(d) && Digits(e)
    ensures Tokens(MENTION_PREFIX + d + " " + MENTION_PREFIX + d + e)
      == [Mention(MENTION_PREFIX + d), Char(' '), Mention(MENTION_PREFIX + d + e)]
  {
    var p := MENTION_PREFIX + d;
    var q := MENTION_PREFIX + d + e;
    var last := MENTION_PREFIX + (d + e);
    var r1 := " " + last;
    DigitsJoin(d, e);
    MentionAtFront(d + e, []);
    assert last + [] == last;
    assert Tokens(last) == [Mention(last)];
    CharAtFront(' ', last);
    assert Tokens(r1) == [Char(' '), Mention(last)];
    MentionAtFront(d, r1);
    assert Tokens(MENTION_PREFIX + d + r1) == [Mention(p)] + Tokens(r1);
    assert [Mention(p)] + [Char(' '), Mention(last)] == [Mention(p), Char(' '), Mention(last)];
    TwoMentionsText(d, e);
  }

  /** The text of two mentions, grouped the way the scan reads it. */
  lemma TwoMentionsText(d: string, e: string)
    ensures MENTION_PREFIX + d + " " + MENTION_PREFIX + d + e == MENTION_PREFIX + d + (" " + (MENTION_PREFIX + (d + e)))
    ensures MENTION_PREFIX + d + " " + MENTION_PREFIX + d + e == MENTION_PREFIX + d + (" " + (MENTION_PREFIX + d + e))
    ensures MENTION_PREFIX + d + e == MENTION_PREFIX + (d + e)
  {
  }

  /** The intended rewrite of the same text: each mention gets its own entry. */
  lemma PrefixMentionsRewritten(d: string, e: string, x: string, y: string)
    requires Digits(d) && Digits(e)
    ensures RewriteMentions(MENTION_PREFIX + d + " " + MENTION_PREFIX + d + e,
                            [(MENTION_PREFIX + d, x), (MENTION_PREFIX + d + e, y)]) == x + " " + y
  {
    var p := MENTION_PREFIX + d;
    var q := MENTION_PREFIX + d + e;
    var info := [(p, x), (q, y)];
    PrefixMentionsTokens(d, e);
    assert q != p by {
      assert |q| > |p|;
    }
    ResolveThree(p, q, x, y);
  }

  /** The rewrite of two distinct listed mentions around a blank. */
  lemma ResolveThree(p: string, q: string, x: string, y: string)
    requires p != q
    ensures Resolve([Mention(p), Char(' '), Mention(q)], [(p, x), (q, y)]) == x + " " + y
  {
    var info := [(p, x), (q, y)];
    var ts := [Mention(p), Char(' '), Mention(q)];
    assert Lookup(info, p) == Some(x);
    assert Lookup(info, q) == Some(y);
    assert ts[1..] == [Char(' '), Mention(q)] && ts[1..][1..] == [Mention(q)] && ts[1..][1..][1..] == [];
    assert Resolve(ts[1..][1..], info) == y + Resolve([], info);
    assert Resolve(ts[1..], info) == " " + y;
  }

  /**
   * "@User-1 @User-12", with usersInfo holding user 1's entry before user
   * 12's (the order of the user list): in turn, the entry for user 1
   * replaces the front of "@User-12" too, which leaves a stray "2" and
   * loses user 12's entry; the intended rewrite gives each mention its own.
   */
  lemma PrefixMentionsDisagree(nameOne: string, nameTwelve: string)
    requires NoMentionStart(nameOne)
    ensures
      var t := MentionOf(1) + " " + MentionOf(12);
      var info := [(MentionOf(1), Markup(1, nameOne)), (MentionOf(12), Markup(12, nameTwelve))];
      && ReplaceInTurn(t, info) == Markup(1, nameOne) + " " + Markup(1, nameOne) + "2"
      && RewriteMentions(t, info) == Markup(1, nameOne) + " " + Markup(12, nameTwelve)
      && ReplaceInTurn(t, info) != RewriteMentions(t, info)
  {
    var x := Markup(1, nameOne);
    var y := Markup(12, nameTwelve);
    assert IntToString(1) == "1" && IntToString(12) == "12";
    assert MentionOf(1) == MENTION_PREFIX + "1";
    assert MentionOf(12) == MENTION_PREFIX + "1" + "2";
    assert Digits("1") && Digits("2");
    assert MentionOf(1) + " " + MentionOf(12) == MENTION_PREFIX + "1" + " " + MENTION_PREFIX + "1" + "2";
    MarkupNoMentionStart(1, nameOne);
    PrefixMentionsReplacedInTurn("1", "2", x, y);
    PrefixMentionsRewritten("1", "2", x, y);
    var bad := x + " " + x + "2";
    var good := x + " " + y;
    assert bad[|bad| - 1] == '2' && good[|good| - 1] == ']';
  }

  /** The markup starts no mention of its own, as long as the name does not. */
  lemma MarkupNoMentionStart(id: int, name: string)
    requires NoMentionStart(name)
    ensures NoMentionStart(Markup(id, name))
  {
    var digits := IntToString(id);
    if id < 0 {
      assert digits == "-" + NatToString(-id);
    }
    NoAtNoMention(digits);
    NoMentionJoin("[\"@\"|", digits);
    NoMentionJoin("[\"@\"|" + digits, "|\"");
    NoMentionJoin("[\"@\"|" + digits + "|\"", name);
    NoMentionJoin("[\"@\"|" + digits + "|\"" + name, "\"]");
  }
}
