/**
 * Bot: webhook dispatch over the registered command handlers, the argument
 * guards in front of the API calls, the paged user search, the command
 * list merge and removal, the single answer slot, and the mention rewrite
 * a message text goes through before it is sent.
 */
module Bot {
  import opened Php
  import opened RequestErrors
  import opened BotApi
  import SimpleCommand
  import Mentions

  /** A webhook post: the text, and the sender and place fields as they arrive. */
  datatype WebhookPost = WebhookPost(text: string, userId: Value, messageId: Value, groupId: Value)

  /**
   * A registered command handler as serveWebhook sees it through
   * InterfaceCommandHandler::tryParseCommand: None for false, otherwise the
   * arguments.
   */
  type Parser = string -> Option<seq<(string, string)>>

  /** A SimpleCommand handler registered for a template. */
  function SimpleHandler(template: string): Parser
  {
    line => SimpleCommand.TryParseCommand(template, line)
  }

  /** The handler serveWebhook runs, by its position, and the command it runs it with. */
  datatype Dispatch = Dispatch(handler: nat, command: Command)

  /** Bot::assert: a BadRequestException with the message when the expression is false. */
  function Check(expression: bool, message: string): (r: Option<Error>)
    ensures r.None? <==> expression
    ensures r.Some? ==> r.value == BadRequest(message, 0)
  {
    if expression then None else Some(BadRequest(message, 0))
  }

  /** The two guards of getUsers and getGroups, in order. */
  function ListGuard(limit: int, offset: int): (r: Option<Error>)
    ensures r.None? <==> 0 < limit <= GET_USERS_MAX_LIMIT && 0 <= offset
    ensures !(0 < limit <= GET_USERS_MAX_LIMIT) ==> r == Some(BadRequest("passed incorrect limit", 0))
  {
    match Check(limit <= GET_USERS_MAX_LIMIT && limit > 0, "passed incorrect limit")
    case Some(e) => Some(e)
    case None => Check(offset >= 0, "passed incorrect offset")
  }

  /** new Command(...) from the post under strict types: user_id an int, message_id and group_id strings. */
  function CommandOf(post: WebhookPost, args: seq<(string, string)>): Result<Command, Error>
  {
    if post.userId.Int? && post.messageId.Str? && post.groupId.Str?
    then Success(Command(post.text, args, post.userId.i, post.messageId.s, post.groupId.s))
    else Failure(TypeFault)
  }

  /** The first user in the list with the id. */
  function FirstWithId(users: seq<User>, id: int): (r: Option<User>)
    ensures r.None? <==> forall j :: 0 <= j < |users| ==> users[j].userId != id
    ensures r.Some? ==>
      exists j :: 0 <= j < |users| && users[j] == r.value && r.value.userId == id && (forall k :: 0 <= k < j ==> users[k].userId != id)
  {
    if users == [] then None
    else if users[0].userId == id then Some(users[0])
    else
      var r := FirstWithId(users[1..], id);
      if r.Some? then
        var j :| 0 <= j < |users[1..]| && users[1..][j] == r.value && r.value.userId == id &&
          (forall k :: 0 <= k < j ==> users[1..][k].userId != id);
        assert users[j + 1] == r.value;
        r
      else
        r
  }

  /** The first listed user with the id is found, in the first part of a list if it has one, else in the rest. */
  lemma {:induction false} FirstWithIdAppend(a: seq<User>, b: seq<User>, id: int)
    ensures FirstWithId(a + b, id) == if FirstWithId(a, id).Some? then FirstWithId(a, id) else FirstWithId(b, id)
  {
    if a == [] {
      assert a + b == b;
    } else {
      assert (a + b)[0] == a[0] && (a + b)[1..] == a[1..] + b;
      FirstWithIdAppend(a[1..], b, id);
    }
  }

  /** UserNotFoundException's message. */
  function NotFoundMessage(id: int): string
  {
    "user " + IntToString(id) + " not found"
  }

  /** What a search ends in: the user found, or UserNotFound. */
  function Outcome(found: Option<User>, id: int): Result<User, Error>
  {
    match found
    case Some(u) => Success(u)
    case None => Failure(UserNotFound(NotFoundMessage(id)))
  }

  /** The list requests of n pages of 300, from the offset on. */
  function PageCalls(offset: nat, n: nat): (calls: seq<ApiCall>)
    ensures |calls| == n
    decreases n
  {
    if n == 0 then [] else [ListCall(GET_USERS_URL_METHOD, GET_USERS_MAX_LIMIT, offset)] + PageCalls(offset + GET_USERS_MAX_LIMIT, n - 1)
  }

  /** One more page request in front of the requests from the next offset on. */
  lemma PageCallsCons(offset: nat, rest: seq<ApiCall>)
    requires rest == PageCalls(offset + GET_USERS_MAX_LIMIT, |rest|)
    ensures [ListCall(GET_USERS_URL_METHOD, GET_USERS_MAX_LIMIT, offset)] + rest == PageCalls(offset, |rest| + 1)
  {
  }

  /** All a list holds from the offset on; [] past its end. */
  function From(list: seq<Value>, offset: nat): (rest: seq<Value>)
    ensures |rest| <= |list|
  {
    if offset <= |list| then list[offset..] else []
  }

  /** A page, then everything after it, is everything from the page's offset on; after a short page there is nothing. */
  lemma FromSplit(list: seq<Value>, offset: nat)
    ensures From(list, offset) == Page(list, GET_USERS_MAX_LIMIT, offset) + From(list, offset + GET_USERS_MAX_LIMIT)
    ensures |Page(list, GET_USERS_MAX_LIMIT, offset)| < GET_USERS_MAX_LIMIT ==> From(list, offset + GET_USERS_MAX_LIMIT) == []
  {
  }

  /**
   * getUser's search from an offset on: the page of 300 there is requested
   * and scanned for the id, and the search goes on only after a full page.
   * Returns the outcome and the list requests made.
   */
  function UserSearch(list: seq<Value>, id: int, offset: nat): (Result<User, Error>, seq<ApiCall>)
    decreases |list| - offset
  {
    var call := ListCall(GET_USERS_URL_METHOD, GET_USERS_MAX_LIMIT, offset);
    match MapAll(Page(list, GET_USERS_MAX_LIMIT, offset), UserOf)
    case Failure(e) => (Failure(e), [call])
    case Success(users) =>
      match FirstWithId(users, id)
      case Some(u) => (Success(u), [call])
      case None =>
        if |users| >= GET_USERS_MAX_LIMIT then
          var rest := UserSearch(list, id, offset + GET_USERS_MAX_LIMIT);
          (rest.0, [call] + rest.1)
        else (Outcome(None, id), [call])
  }

  /** What mapping the two parts of a list by UserOf makes of them, when the whole list maps. */
  lemma MapPrefix(a: seq<Value>, b: seq<Value>)
    requires MapAll(a + b, UserOf).Success?
    ensures MapAll(a, UserOf).Success? && MapAll(b, UserOf).Success?
    ensures MapAll(a + b, UserOf).value == MapAll(a, UserOf).value + MapAll(b, UserOf).value
  {
    MapAllPointwise(a + b, UserOf);
    MapAllPointwise(a, UserOf);
    MapAllPointwise(b, UserOf);
    forall i | 0 <= i < |a| ensures UserOf(a[i]).Success? {
      assert a[i] == (a + b)[i];
    }
    forall i | 0 <= i < |b| ensures UserOf(b[i]).Success? {
      assert b[i] == (a + b)[|a| + i];
    }
    MapAllAppend(a, b, UserOf);
  }

  /**
   * Paging finds what a plain scan of the list finds: over a list whose
   * records are all well formed, the search from an offset on returns the
   * first user with the id from that offset on, or UserNotFound.
   */
  lemma {:induction false} UserSearchFindsFirst(list: seq<Value>, id: int, offset: nat)
    requires MapAll(From(list, offset), UserOf).Success?
    ensures UserSearch(list, id, offset).0 == Outcome(FirstWithId(MapAll(From(list, offset), UserOf).value, id), id)
    decreases |list| - offset
  {
    var p := Page(list, GET_USERS_MAX_LIMIT, offset);
    var after := From(list, offset + GET_USERS_MAX_LIMIT);
    FromSplit(list, offset);
    MapPrefix(p, after);
    var users := MapAll(p, UserOf).value;
    var later := MapAll(after, UserOf).value;
    MapAllPointwise(p, UserOf);
    FirstWithIdAppend(users, later, id);
    if FirstWithId(users, id).None? && |users| >= GET_USERS_MAX_LIMIT {
      UserSearchFindsFirst(list, id, offset + GET_USERS_MAX_LIMIT);
    }
  }

  /** getUser over a list of well-formed records returns the first user with the id, or UserNotFound. */
  lemma GetUserFindsFirst(list: seq<Value>, id: int)
    requires MapAll(list, UserOf).Success?
    ensures UserSearch(list, id, 0).0 == Outcome(FirstWithId(MapAll(list, UserOf).value, id), id)
  {
    assert From(list, 0) == list;
    UserSearchFindsFirst(list, id, 0);
  }

  /** The search requests pages one after the other, 300 apart, from the offset on. */
  lemma {:induction false} UserSearchPages(list: seq<Value>, id: int, offset: nat)
    ensures |UserSearch(list, id, offset).1| > 0
    ensures UserSearch(list, id, offset).1 == PageCalls(offset, |UserSearch(list, id, offset).1|)
    decreases |list| - offset
  {
    var r := MapAll(Page(list, GET_USERS_MAX_LIMIT, offset), UserOf);
    if r.Success? && FirstWithId(r.value, id).None? && |r.value| >= GET_USERS_MAX_LIMIT {
      UserSearchPages(list, id, offset + GET_USERS_MAX_LIMIT);
    }
  }

  // ---------------------------------------------------------------------
  // Mentions: which listed users the mentions of a text name.
  // ---------------------------------------------------------------------

  /** The entry the foreach makes for one listed user: its markup, under its mention, if the text mentions it. */
  function Note(info: seq<(string, string)>, u: User, search: seq<string>): seq<(string, string)>
  {
    var key := Mentions.MentionOf(u.userId);
    if key in search then Put(info, key, Mentions.Markup(u.userId, u.userName)) else info
  }

  /** $usersInfo after the foreach over a page of users. */
  function Collect(info: seq<(string, string)>, users: seq<User>, search: seq<string>): seq<(string, string)>
  {
    if users == [] then info else Note(Collect(info, users[..|users| - 1], search), users[|users| - 1], search)
  }

  /** The foreach one user further. */
  lemma CollectSnoc(info: seq<(string, string)>, users: seq<User>, k: nat, search: seq<string>)
    requires k < |users|
    ensures Collect(info, users[..k + 1], search) == Note(Collect(info, users[..k], search), users[k], search)
  {
    assert users[..k + 1][..k] == users[..k];
  }

  /** Whether a listed user is mentioned by key. */
  predicate Mentioned(users: seq<User>, key: string)
  {
    exists j :: 0 <= j < |users| && Mentions.MentionOf(users[j].userId) == key
  }

  /** Whether v is the markup of a listed user that key mentions. */
  predicate MarkedBy(users: seq<User>, key: string, v: string)
  {
    exists j :: 0 <= j < |users| && Mentions.MentionOf(users[j].userId) == key && v == Mentions.Markup(users[j].userId, users[j].userName)
  }

  /** The entries of usersInfo name mentions searched for, each at most once. */
  predicate WellKeyed(info: seq<(string, string)>, search: seq<string>)
  {
    NoDuplicates(KeysOf(info)) && forall i :: 0 <= i < |info| ==> info[i].0 in search
  }

  /**
   * out completes info over the users: it is well keyed, every mention
   * searched for that a user is mentioned by has an entry, the entries of
   * info stay, and every new or changed entry is the markup of a user that
   * its mention names.
   */
  ghost predicate Resolves(out: seq<(string, string)>, info: seq<(string, string)>, users: seq<User>, search: seq<string>)
  {
    && WellKeyed(out, search)
    && (forall k :: k in search && Mentioned(users, k) ==> Lookup(out, k).Some?)
    && (forall k :: Lookup(info, k).Some? ==> Lookup(out, k).Some?)
    && (forall k :: Lookup(out, k).Some? && Lookup(out, k) != Lookup(info, k) ==> MarkedBy(users, k, Lookup(out, k).value))
  }

  /** Mentioned and MarkedBy over two lists one after the other. */
  lemma MentionsAppend(a: seq<User>, b: seq<User>)
    ensures forall k :: Mentioned(a + b, k) <==> Mentioned(a, k) || Mentioned(b, k)
    ensures forall k, v :: MarkedBy(a, k, v) ==> MarkedBy(a + b, k, v)
    ensures forall k, v :: MarkedBy(b, k, v) ==> MarkedBy(a + b, k, v)
  {
    forall k ensures Mentioned(a + b, k) <==> Mentioned(a, k) || Mentioned(b, k) {
      if Mentioned(a + b, k) {
        var j :| 0 <= j < |a + b| && Mentions.MentionOf((a + b)[j].userId) == k;
        if j < |a| {
          assert a[j] == (a + b)[j];
        } else {
          assert b[j - |a|] == (a + b)[j];
        }
      }
      if Mentioned(a, k) {
        var j :| 0 <= j < |a| && Mentions.MentionOf(a[j].userId) == k;
        assert (a + b)[j] == a[j];
      }
      if Mentioned(b, k) {
        var j :| 0 <= j < |b| && Mentions.MentionOf(b[j].userId) == k;
        assert (a + b)[|a| + j] == b[j];
      }
    }
    forall k, v | MarkedBy(a, k, v) ensures MarkedBy(a + b, k, v) {
      var j :| 0 <= j < |a| && Mentions.MentionOf(a[j].userId) == k && v == Mentions.Markup(a[j].userId, a[j].userName);
      assert (a + b)[j] == a[j];
    }
    forall k, v | MarkedBy(b, k, v) ensures MarkedBy(a + b, k, v) {
      var j :| 0 <= j < |b| && Mentions.MentionOf(b[j].userId) == k && v == Mentions.Markup(b[j].userId, b[j].userName);
      assert (a + b)[|a| + j] == b[j];
    }
  }

  /** Putting a searched-for key keeps the entries well keyed. */
  lemma PutKeepsWellKeyed(info: seq<(string, string)>, key: string, v: string, search: seq<string>)
    requires WellKeyed(info, search) && key in search
    ensures WellKeyed(Put(info, key, v), search)
  {
    var r := Put(info, key, v);
    var ks := KeysOf(r);
    if key !in KeysOf(info) {
      forall i, j | 0 <= i < j < |ks| ensures ks[i] != ks[j] {
        if j == |ks| - 1 {
          assert ks[i] == KeysOf(info)[i];
        }
      }
    }
    forall i | 0 <= i < |r| ensures r[i].0 in search {
      assert ks[i] == r[i].0;
      if i < |KeysOf(info)| && ks[i] != key {
        assert ks[i] == KeysOf(info)[i] == info[i].0;
      }
    }
  }

  /** One user's entry completes usersInfo over that user. */
  lemma NoteSpec(info: seq<(string, string)>, u: User, search: seq<string>)
    requires WellKeyed(info, search)
    ensures Resolves(Note(info, u, search), info, [u], search)
  {
    var key := Mentions.MentionOf(u.userId);
    var v := Mentions.Markup(u.userId, u.userName);
    assert [u][0] == u;
    assert forall k :: Mentioned([u], k) ==> k == key;
    if key in search {
      PutKeepsWellKeyed(info, key, v, search);
      assert MarkedBy([u], key, v);
    }
  }

  /** Collecting over a page completes usersInfo over the page's users. */
  lemma {:induction false} CollectSpec(info: seq<(string, string)>, users: seq<User>, search: seq<string>)
    requires WellKeyed(info, search)
    ensures Resolves(Collect(info, users, search), info, users, search)
  {
    if users == [] {
      assert forall k :: !Mentioned(users, k);
    } else {
      CollectSpec(info, users[..|users| - 1], search);
      CollectStep(info, users, search);
    }
  }

  /** The foreach's last user completes what the users before it left. */
  lemma CollectStep(info: seq<(string, string)>, users: seq<User>, search: seq<string>)
    requires users != [] && WellKeyed(info, search)
    requires Resolves(Collect(info, users[..|users| - 1], search), info, users[..|users| - 1], search)
    ensures Resolves(Collect(info, users, search), info, users, search)
  {
    var n := |users| - 1;
    SnocSplit(users);
    var before := Collect(info, users[..n], search);
    var out := Collect(info, users, search);
    assert out == Note(before, users[n], search);
    NoteSpec(before, users[n], search);
    ResolvesChain(out, before, info, users[..n], [users[n]], users, search);
  }

  /** Completing over a, then over b, completes over ab, which is a + b. */
  lemma ResolvesChain(out: seq<(string, string)>, next: seq<(string, string)>, info: seq<(string, string)>,
                      a: seq<User>, b: seq<User>, ab: seq<User>, search: seq<string>)
    requires ab == a + b
    requires Resolves(next, info, a, search) && Resolves(out, next, b, search)
    ensures Resolves(out, info, ab, search)
  {
    MentionsAppend(a, b);
    forall k | Lookup(out, k).Some? && Lookup(out, k) != Lookup(info, k)
      ensures MarkedBy(a + b, k, Lookup(out, k).value)
    {
      if Lookup(out, k) == Lookup(next, k) {
        assert MarkedBy(a, k, Lookup(next, k).value);
      }
    }
  }

  /** Once every mention searched for has an entry, the rest of the list has nothing to add. */
  lemma ResolvesAll(next: seq<(string, string)>, info: seq<(string, string)>, a: seq<User>, b: seq<User>, search: seq<string>)
    requires Resolves(next, info, a, search)
    requires forall k :: k in search ==> Lookup(next, k).Some?
    ensures Resolves(next, info, a + b, search)
  {
    MentionsAppend(a, b);
  }

  /** Distinct sequences, the first inside the second and as long, hold the same elements. */
  lemma SameLengthSubset(a: seq<string>, b: seq<string>)
    requires NoDuplicates(a) && NoDuplicates(b) && |a| == |b|
    requires forall i :: 0 <= i < |a| ==> a[i] in b
    ensures forall x :: x in b ==> x in a
  {
    DistinctCard(a);
    DistinctCard(b);
    var sa := set x | x in a;
    var sb := set x | x in b;
    assert sa <= sb;
    var d := sb - sa;
    assert sa + d == sb;
    assert sa * d == {};
    assert |sa + d| + |sa * d| == |sa| + |d|;
    assert |d| == 0;
    forall x | x in b ensures x in a {
      assert x in sb && x !in d;
    }
  }

  /** A sequence without repeats has as many distinct elements as entries. */
  lemma {:induction false} DistinctCard(a: seq<string>)
    requires NoDuplicates(a)
    ensures |set x | x in a| == |a|
  {
    if a != [] {
      var n := |a| - 1;
      var front := a[..n];
      forall i | 0 <= i < |front| ensures front[i] == a[i] && front[i] != a[n] { }
      assert NoDuplicates(front);
      DistinctCard(front);
      assert (set x | x in a) == (set x | x in front) + {a[n]};
      assert a[n] !in front;
    }
  }

  /**
   * preProcessMessageText's search from an offset on: the page of 300 there
   * is requested and collected; paging goes on while the page was full and
   * not every mention searched for has an entry. Returns usersInfo and the
   * list requests made.
   */
  function MentionSearch(list: seq<Value>, search: seq<string>, info: seq<(string, string)>, offset: nat)
    : (Result<seq<(string, string)>, Error>, seq<ApiCall>)
    decreases |list| - offset
  {
    var call := ListCall(GET_USERS_URL_METHOD, GET_USERS_MAX_LIMIT, offset);
    match MapAll(Page(list, GET_USERS_MAX_LIMIT, offset), UserOf)
    case Failure(e) => (Failure(e), [call])
    case Success(users) =>
      var next := Collect(info, users, search);
      if |users| >= GET_USERS_MAX_LIMIT && |search| != |next| then
        var rest := MentionSearch(list, search, next, offset + GET_USERS_MAX_LIMIT);
        (rest.0, [call] + rest.1)
      else (Success(next), [call])
  }

  /** One page of the search, when it is well formed: the search stops there, or goes on past it. */
  lemma MentionSearchStep(list: seq<Value>, search: seq<string>, info: seq<(string, string)>, offset: nat, users: seq<User>)
    requires MapAll(Page(list, GET_USERS_MAX_LIMIT, offset), UserOf) == Success(users)
    ensures var call := ListCall(GET_USERS_URL_METHOD, GET_USERS_MAX_LIMIT, offset);
      var next := Collect(info, users, search);
      if |users| >= GET_USERS_MAX_LIMIT && |search| != |next| then
        && offset + GET_USERS_MAX_LIMIT <= |list|
        && MentionSearch(list, search, info, offset).0 == MentionSearch(list, search, next, offset + GET_USERS_MAX_LIMIT).0
        && MentionSearch(list, search, info, offset).1 == [call] + MentionSearch(list, search, next, offset + GET_USERS_MAX_LIMIT).1
      else MentionSearch(list, search, info, offset) == (Success(next), [call])
  {
    MapAllPointwise(Page(list, GET_USERS_MAX_LIMIT, offset), UserOf);
  }

  /**
   * Over a list of well-formed records, the search from an offset on
   * completes usersInfo over every user from that offset on: it stops early
   * only once every mention searched for has an entry.
   */
  lemma {:induction false} MentionSearchSpec(list: seq<Value>, search: seq<string>, info: seq<(string, string)>, offset: nat)
    requires NoDuplicates(search) && WellKeyed(info, search)
    requires MapAll(From(list, offset), UserOf).Success?
    ensures MentionSearch(list, search, info, offset).0.Success?
    ensures Resolves(MentionSearch(list, search, info, offset).0.value, info, MapAll(From(list, offset), UserOf).value, search)
    decreases |list| - offset
  {
    var p := Page(list, GET_USERS_MAX_LIMIT, offset);
    var after := From(list, offset + GET_USERS_MAX_LIMIT);
    FromSplit(list, offset);
    MapPrefix(p, after);
    var users := MapAll(p, UserOf).value;
    var later := MapAll(after, UserOf).value;
    MapAllPointwise(p, UserOf);
    var next := Collect(info, users, search);
    CollectSpec(info, users, search);
    if |users| >= GET_USERS_MAX_LIMIT && |search| != |next| {
      MentionSearchSpec(list, search, next, offset + GET_USERS_MAX_LIMIT);
      ResolvesChain(MentionSearch(list, search, next, offset + GET_USERS_MAX_LIMIT).0.value, next, info, users, later, users + later, search);
    } else if |users| >= GET_USERS_MAX_LIMIT {
      SameLengthSubset(KeysOf(next), search);
      ResolvesAll(next, info, users, later, search);
    } else {
      assert users + later == users;
    }
  }

  /**
   * preProcessMessageText over a list of well-formed records: usersInfo has
   * an entry for every mention in the text that names a listed user, under
   * no other key, and each is the markup of a user its mention names.
   */
  lemma PreProcessResolves(list: seq<Value>, text: string)
    requires MapAll(list, UserOf).Success?
    ensures var search := Dedup(Mentions.Found(text));
      var s := MentionSearch(list, search, [], 0);
      && s.0.Success?
      && Resolves(s.0.value, [], MapAll(list, UserOf).value, search)
      && forall k :: Lookup(s.0.value, k).Some? ==> k in Mentions.Found(text)
  {
    var search := Dedup(Mentions.Found(text));
    DedupElements(Mentions.Found(text));
    assert From(list, 0) == list;
    assert WellKeyed([], search);
    MentionSearchSpec(list, search, [], 0);
    var out := MentionSearch(list, search, [], 0).0.value;
    forall k | Lookup(out, k).Some? ensures k in Mentions.Found(text) {
      var i :| 0 <= i < |out| && KeysOf(out)[i] == k;
    }
  }

  /**
   * The str_replace finding at the level of preProcessMessageText: with user
   * 1 listed before user 12, usersInfo for "@User-1 @User-12" holds user 1's
   * entry first, so replacing in turn leaves a stray "2" where the token-wise
   * rewrite gives each user its own markup.
   */
  lemma PrefixMentionsSearched(list: seq<Value>, one: User, twelve: User)
    requires MapAll(list, UserOf) == Success([one, twelve])
    requires one.userId == 1 && twelve.userId == 12 && Mentions.NoMentionStart(one.userName)
    ensures var t := Mentions.MentionOf(1) + " " + Mentions.MentionOf(12);
      var s := MentionSearch(list, Dedup(Mentions.Found(t)), [], 0);
      var x := Mentions.Markup(1, one.userName);
      var y := Mentions.Markup(12, twelve.userName);
      && s.0 == Success([(Mentions.MentionOf(1), x), (Mentions.MentionOf(12), y)])
      && Mentions.ReplaceInTurn(t, s.0.value) == x + " " + x + "2"
      && Mentions.RewriteMentions(t, s.0.value) == x + " " + y
  {
    var t := Mentions.MentionOf(1) + " " + Mentions.MentionOf(12);
    TwoMentionsFound();
    SearchTwoUsers(list, one, twelve);
    Mentions.PrefixMentionsDisagree(one.userName, twelve.userName);
  }

  /** "@User-1 @User-12" searches for its two mentions, in that order. */
  lemma TwoMentionsFound()
    ensures var m1, m12 := Mentions.MentionOf(1), Mentions.MentionOf(12);
      && m1 != m12
      && Dedup(Mentions.Found(m1 + " " + m12)) == [m1, m12]
  {
    var m1 := Mentions.MentionOf(1);
    var m12 := Mentions.MentionOf(12);
    OneTwelveSpelled();
    assert Mentions.Digits("1") && Mentions.Digits("2");
    assert m1 + " " + m12 == Mentions.MENTION_PREFIX + "1" + " " + Mentions.MENTION_PREFIX + "1" + "2";
    Mentions.PrefixMentionsTokens("1", "2");
    FoundOfTwo(m1 + " " + m12, m1, m12);
    assert |m1| < |m12|;
    DedupTwo(m1, m12);
  }

  /** The mention keys of users 1 and 12, spelled out. */
  lemma OneTwelveSpelled()
    ensures Mentions.MentionOf(1) == Mentions.MENTION_PREFIX + "1"
    ensures Mentions.MentionOf(12) == Mentions.MENTION_PREFIX + "1" + "2"
  {
    assert IntToString(1) == "1" && IntToString(12) == "12";
  }

  /** A text scanned into two mentions around a blank has those two mentions. */
  lemma FoundOfTwo(t: string, p: string, q: string)
    requires Mentions.Tokens(t) == [Mentions.Mention(p), Mentions.Char(' '), Mentions.Mention(q)]
    ensures Mentions.Found(t) == [p, q]
  {
    var ts := [Mentions.Mention(p), Mentions.Char(' '), Mentions.Mention(q)];
    assert ts[1..][1..][1..] == [];
    assert Mentions.MentionTexts(ts[1..][1..]) == [q];
    assert Mentions.MentionTexts(ts[1..]) == [q];
  }

  /** array_unique of two different elements keeps both. */
  lemma DedupTwo<T>(a: T, b: T)
    requires a != b
    ensures Dedup([a, b]) == [a, b]
  {
    assert [a, b][..1] == [a] && [a][..0] == [];
    assert Dedup([a]) == [a];
  }

  /** A list of two users, 1 and then 12, searched for both: one page, their entries in list order. */
  lemma SearchTwoUsers(list: seq<Value>, one: User, twelve: User)
    requires MapAll(list, UserOf) == Success([one, twelve])
    requires one.userId == 1 && twelve.userId == 12
    ensures var m1, m12 := Mentions.MentionOf(1), Mentions.MentionOf(12);
      MentionSearch(list, [m1, m12], [], 0).0
        == Success([(m1, Mentions.Markup(1, one.userName)), (m12, Mentions.Markup(12, twelve.userName))])
  {
    var search := [Mentions.MentionOf(1), Mentions.MentionOf(12)];
    TwoMentionsFound();
    MapAllPointwise(list, UserOf);
    assert Page(list, GET_USERS_MAX_LIMIT, 0) == list;
    MentionSearchStep(list, search, [], 0, [one, twelve]);
    CollectTwo(one, twelve, search);
  }

  /** Collecting two users with different keys, both searched for, gives their entries in list order. */
  lemma CollectTwo(one: User, twelve: User, search: seq<string>)
    requires Mentions.MentionOf(one.userId) in search && Mentions.MentionOf(twelve.userId) in search
    requires Mentions.MentionOf(one.userId) != Mentions.MentionOf(twelve.userId)
    ensures Collect([], [one, twelve], search)
         == [(Mentions.MentionOf(one.userId), Mentions.Markup(one.userId, one.userName)),
             (Mentions.MentionOf(twelve.userId), Mentions.Markup(twelve.userId, twelve.userName))]
  {
    var x := (Mentions.MentionOf(one.userId), Mentions.Markup(one.userId, one.userName));
    var y := (Mentions.MentionOf(twelve.userId), Mentions.Markup(twelve.userId, twelve.userName));
    assert [one, twelve][..1] == [one] && [one][..0] == [];
    assert Note([], one, search) == Put([], x.0, x.1) == [x];
    assert Collect([], [one], search) == [x];
    PutNewKey(x, y.0, y.1);
    assert Note([x], twelve, search) == [x, y];
  }

  /** A key new to a one-entry array is appended after that entry. */
  lemma PutNewKey<V>(e: (string, V), k: string, v: V)
    requires k != e.0
    ensures Put([e], k, v) == [e, (k, v)]
  {
    assert [e][..0] == [] && KeysOf([e][..0]) == [];
  }




  /** The search requests pages one after the other, 300 apart, from the offset on. */
  lemma {:induction false} MentionSearchPages(list: seq<Value>, search: seq<string>, info: seq<(string, string)>, offset: nat)
    ensures |MentionSearch(list, search, info, offset).1| > 0
    ensures MentionSearch(list, search, info, offset).1 == PageCalls(offset, |MentionSearch(list, search, info, offset).1|)
    decreases |list| - offset
  {
    var r := MapAll(Page(list, GET_USERS_MAX_LIMIT, offset), UserOf);
    PageCallsCons(offset, []);
    if r.Success? {
      MentionSearchStep(list, search, info, offset, r.value);
      var next := Collect(info, r.value, search);
      if |r.value| >= GET_USERS_MAX_LIMIT && |search| != |next| {
        MentionSearchPages(list, search, next, offset + GET_USERS_MAX_LIMIT);
        PageCallsCons(offset, MentionSearch(list, search, next, offset + GET_USERS_MAX_LIMIT).1);
      }
    }
  }

  /**
   * The Bot: its registered command handlers, in registration order, the
   * API it talks to, and the answer slot.
   */
  class Bot {
    const api: Api
    const handlers: seq<Parser>
    /** $answer: false until an answer is made. */
    var answer: Option<Answer>

    constructor (api: Api, handlers: seq<Parser>)
      ensures this.api == api && this.handlers == handlers && answer == None
    {
      this.api := api;
      this.handlers := handlers;
      answer := None;
    }

    /**
     * serveWebhook: the handlers are tried in order; the first whose parse
     * of the text succeeds, even with no arguments, is run with the Command
     * built from the post, and later ones are not tried. With no match it
     * is a BadCommandException.
     */
    method ServeWebhook(post: WebhookPost) returns (r: Result<Dispatch, Error>)
      ensures (forall j :: 0 <= j < |handlers| ==> handlers[j](post.text).None?) <==>
        r == Failure(BadCommand("got unknown command " + post.text))
      ensures r.Success? ==>
        var i := r.value.handler;
        && i < |handlers|
        && handlers[i](post.text).Some?
        && (forall j :: 0 <= j < i ==> handlers[j](post.text).None?)
        && CommandOf(post, handlers[i](post.text).value) == Success(r.value.command)
      ensures r.Failure? && !r.error.BadCommand? ==> r.error == TypeFault
    {
      var i := 0;
      while i < |handlers|
        invariant 0 <= i <= |handlers|
        invariant forall j :: 0 <= j < i ==> handlers[j](post.text).None?
      {
        var args := handlers[i](post.text);
        if args.Some? {
          var command := CommandOf(post, args.value);
          if command.Failure? {
            return Failure(command.error);
          }
          return Success(Dispatch(i, command.value));
        }
        i := i + 1;
      }
      return Failure(BadCommand("got unknown command " + post.text));
    }

    /** getUsers: the guards, then one list request, mapped to User records. */
    method GetUsers(limit: int, offset: int) returns (r: Result<seq<User>, Error>)
      modifies api
      ensures ListGuard(limit, offset).Some? ==> r == Failure(ListGuard(limit, offset).value) && api.log == old(api.log)
      ensures ListGuard(limit, offset).None? ==>
        && r == MapAll(Page(api.users, limit, offset), UserOf)
        && api.log == old(api.log) + [ListCall(GET_USERS_URL_METHOD, limit, offset)]
      ensures api.users == old(api.users) && api.groups == old(api.groups) && api.commands == old(api.commands)
    {
      var guard := ListGuard(limit, offset);
      if guard.Some? {
        return Failure(guard.value);
      }
      var page := api.ListUsers(limit, offset);
      r := MapAll(page, UserOf);
    }

    /** getGroups: the same guards (its limit is checked against the users maximum), then one list request. */
    method GetGroups(limit: int, offset: int) returns (r: Result<seq<Group>, Error>)
      modifies api
      ensures ListGuard(limit, offset).Some? ==> r == Failure(ListGuard(limit, offset).value) && api.log == old(api.log)
      ensures ListGuard(limit, offset).None? ==>
        && r == MapAll(Page(api.groups, limit, offset), GroupOf)
        && api.log == old(api.log) + [ListCall(GET_GROUPS_URL_METHOD, limit, offset)]
      ensures api.users == old(api.users) && api.groups == old(api.groups) && api.commands == old(api.commands)
    {
      var guard := ListGuard(limit, offset);
      if guard.Some? {
        return Failure(guard.value);
      }
      var page := api.ListGroups(limit, offset);
      r := MapAll(page, GroupOf);
    }

    /** getUser: a positive id, then the paged search of UserSearch. */
    method GetUser(userId: int) returns (r: Result<User, Error>)
      modifies api
      ensures userId <= 0 ==> r == Failure(BadRequest("passed empty user id", 0)) && api.log == old(api.log)
      ensures userId > 0 ==> r == UserSearch(api.users, userId, 0).0 && api.log == old(api.log) + UserSearch(api.users, userId, 0).1
      ensures api.users == old(api.users) && api.groups == old(api.groups) && api.commands == old(api.commands)
    {
      var guard := Check(userId > 0, "passed empty user id");
      if guard.Some? {
        return Failure(guard.value);
      }
      ghost var list := api.users;
      var page: nat := 0;
      while true
        invariant api.users == list && api.groups == old(api.groups) && api.commands == old(api.commands)
        invariant UserSearch(list, userId, GET_USERS_MAX_LIMIT * page).0 == UserSearch(list, userId, 0).0
        invariant old(api.log) + UserSearch(list, userId, 0).1 == api.log + UserSearch(list, userId, GET_USERS_MAX_LIMIT * page).1
        decreases |list| - GET_USERS_MAX_LIMIT * page
      {
        ghost var log := api.log;
        var offset: nat := GET_USERS_MAX_LIMIT * page;
        var users := GetUsers(GET_USERS_MAX_LIMIT, offset);
        ghost var call := ListCall(GET_USERS_URL_METHOD, GET_USERS_MAX_LIMIT, offset);
        assert api.log == log + [call];
        if users.Failure? {
          return Failure(users.error);
        }
        var found := FindInPage(users.value, userId);
        if found.Some? {
          return Success(found.value);
        }
        if |users.value| < GET_USERS_MAX_LIMIT {
          return Failure(UserNotFound(NotFoundMessage(userId)));
        }
        ghost var rest := UserSearch(list, userId, offset + GET_USERS_MAX_LIMIT);
        assert UserSearch(list, userId, offset).1 == [call] + rest.1;
        AppendAssoc(log, [call], rest.1);
        page := page + 1;
        assert GET_USERS_MAX_LIMIT * page == offset + GET_USERS_MAX_LIMIT;
      }
    }

    /** getUser's foreach over a page: the first user with the id. */
    static method FindInPage(users: seq<User>, userId: int) returns (found: Option<User>)
      ensures found == FirstWithId(users, userId)
    {
      var k := 0;
      while k < |users|
        invariant 0 <= k <= |users|
        invariant forall j :: 0 <= j < k ==> users[j].userId != userId
      {
        if users[k].userId == userId {
          FirstWithIdAt(users, userId, k);
          return Some(users[k]);
        }
        k := k + 1;
      }
      return None;
    }

    /**
     * preProcessMessageText: text without mentions goes out as it is with
     * no request; otherwise usersInfo is collected as MentionSearch says,
     * and the mentions are rewritten from it.
     */
    method PreProcessMessageText(text: string) returns (r: Result<string, Error>)
      modifies api
      ensures Mentions.Found(text) == [] ==> r == Success(text) && api.log == old(api.log)
      ensures Mentions.Found(text) != [] ==>
        var s := MentionSearch(old(api.users), Dedup(Mentions.Found(text)), [], 0);
        && r == (match s.0 case Success(info) => Success(Mentions.RewriteMentions(text, info)) case Failure(e) => Failure(e))
        && api.log == old(api.log) + s.1
      ensures api.users == old(api.users) && api.groups == old(api.groups) && api.commands == old(api.commands)
    {
      var found := Mentions.Found(text);
      if found == [] {
        return Success(text);
      }
      var info := SearchMentions(Dedup(found));
      if info.Failure? {
        return Failure(info.error);
      }
      return Success(Mentions.RewriteMentions(text, info.value));
    }

    /** preProcessMessageText's do-while: pages of users are collected into usersInfo. */
    method SearchMentions(search: seq<string>) returns (r: Result<seq<(string, string)>, Error>)
      modifies api
      ensures r == MentionSearch(old(api.users), search, [], 0).0
      ensures api.log == old(api.log) + MentionSearch(old(api.users), search, [], 0).1
      ensures api.users == old(api.users) && api.groups == old(api.groups) && api.commands == old(api.commands)
    {
      ghost var list := api.users;
      ghost var whole := MentionSearch(list, search, [], 0);
      var info: seq<(string, string)> := [];
      var page: nat := 0;
      while true
        invariant api.users == list && api.groups == old(api.groups) && api.commands == old(api.commands)
        invariant MentionSearch(list, search, info, GET_USERS_MAX_LIMIT * page).0 == whole.0
        invariant old(api.log) + whole.1 == api.log + MentionSearch(list, search, info, GET_USERS_MAX_LIMIT * page).1
        decreases |list| - GET_USERS_MAX_LIMIT * page
      {
        ghost var log := api.log;
        var offset: nat := GET_USERS_MAX_LIMIT * page;
        var users := GetUsers(GET_USERS_MAX_LIMIT, offset);
        ghost var call := ListCall(GET_USERS_URL_METHOD, GET_USERS_MAX_LIMIT, offset);
        assert api.log == log + [call];
        if users.Failure? {
          return Failure(users.error);
        }
        MentionSearchStep(list, search, info, offset, users.value);
        info := CollectPage(info, users.value, search);
        if !(|users.value| >= GET_USERS_MAX_LIMIT && |search| != |info|) {
          return Success(info);
        }
        ghost var rest := MentionSearch(list, search, info, offset + GET_USERS_MAX_LIMIT);
        AppendAssoc(log, [call], rest.1);
        page := page + 1;
        assert GET_USERS_MAX_LIMIT * page == offset + GET_USERS_MAX_LIMIT;
      }
    }

    /** preProcessMessageText's foreach over a page: each user the text mentions gets its entry. */
    static method CollectPage(info: seq<(string, string)>, users: seq<User>, search: seq<string>) returns (out: seq<(string, string)>)
      ensures out == Collect(info, users, search)
    {
      out := info;
      var k := 0;
      while k < |users|
        invariant 0 <= k <= |users|
        invariant out == Collect(info, users[..k], search)
      {
        CollectSnoc(info, users, k, search);
        var key := Mentions.MentionOf(users[k].userId);
        if key in search {
          out := Put(out, key, Mentions.Markup(users[k].userId, users[k].userName));
        }
        k := k + 1;
      }
      assert users[..k] == users;
    }

    /** The checks of addCommands' foreach: the first empty command fails. */
    static method CheckCommands(commands: seq<string>) returns (r: Option<Error>)
      ensures r.None? <==> "" !in commands
      ensures r.Some? ==> r.value == BadRequest("passed incorrect command ''", 0)
    {
      var i := 0;
      while i < |commands|
        invariant 0 <= i <= |commands|
        invariant "" !in commands[..i]
      {
        var check := Check(commands[i] != "", "passed incorrect command '" + commands[i] + "'");
        if check.Some? {
          assert commands[i] == "";
          return check;
        }
        assert commands[..i + 1] == commands[..i] + [commands[i]];
        i := i + 1;
      }
      assert commands[..i] == commands;
      return None;
    }

    /** addCommands: the existing list followed by the new commands, without repeats, is written back. */
    method AddCommands(commands: seq<string>) returns (r: Option<Error>)
      modifies api
      ensures |commands| == 0 ==> r == Some(BadRequest("no commands passed", 0))
      ensures |commands| > 0 && "" in commands ==> r == Some(BadRequest("passed incorrect command ''", 0))
      ensures r.Some? ==> api.log == old(api.log) && api.commands == old(api.commands)
      ensures r.None? <==> |commands| > 0 && "" !in commands
      ensures r.None? ==>
        var merged := Dedup(old(api.commands) + commands);
        && api.commands == merged
        && api.log == old(api.log) + [ApiCall(GET_COMMANDS_URL_METHOD, []), ApiCall(UPDATE_COMMANDS_URL_METHOD, [("command_list", Strings(merged))])]
      ensures api.users == old(api.users) && api.groups == old(api.groups)
    {
      r := Check(|commands| > 0, "no commands passed");
      if r.Some? {
        return;
      }
      r := CheckCommands(commands);
      if r.Some? {
        return;
      }
      var existing := api.CommandList();
      api.UpdateCommandList(Dedup(existing + commands));
    }

    /** removeCommand: the first occurrence of the command is dropped; an absent command makes no update. */
    method RemoveCommand(command: string) returns (r: Option<Error>)
      modifies api
      ensures command == "" ==> r == Some(BadRequest("passed incorrect command ''", 0)) && api.log == old(api.log) && api.commands == old(api.commands)
      ensures command != "" ==> r.None?
      ensures command != "" && command !in old(api.commands) ==>
        api.commands == old(api.commands) && api.log == old(api.log) + [ApiCall(GET_COMMANDS_URL_METHOD, [])]
      ensures command != "" && command in old(api.commands) ==>
        var rest := RemoveAt(old(api.commands), IndexOf(old(api.commands), command).value);
        && api.commands == rest
        && api.log == old(api.log) + [ApiCall(GET_COMMANDS_URL_METHOD, []), ApiCall(UPDATE_COMMANDS_URL_METHOD, [("command_list", Strings(rest))])]
      ensures api.users == old(api.users) && api.groups == old(api.groups)
    {
      r := Check(command != "", "passed incorrect command '" + command + "'");
      assert command == "" ==> "passed incorrect command '" + command + "'" == "passed incorrect command ''";
      if r.Some? {
        return;
      }
      var list := api.CommandList();
      var key := IndexOf(list, command);
      if key.None? {
        return;
      }
      api.UpdateCommandList(RemoveAt(list, key.value));
    }

    /** makeAnswer: the slot holds the new answer, whatever it held. */
    method MakeAnswer(action: string, post: seq<(string, Value)>)
      modifies this
      ensures answer == Some(Answer(action, post))
    {
      answer := Some(Answer(action, post));
    }

    /** answerToChatWithMessage. */
    method AnswerToChatWithMessage(message: string) returns (r: Option<Error>)
      modifies this
      ensures message == "" ==> r == Some(BadRequest("passed incorrect message text ''", 0)) && answer == old(answer)
      ensures message != "" ==> r.None? && answer == Some(Answer(SEND_CHAT_MESSAGE_ACTION, [("type", Str("text")), ("text", Str(message))]))
    {
      r := Check(message != "", "passed incorrect message text '" + message + "'");
      assert message == "" ==> "passed incorrect message text '" + message + "'" == "passed incorrect message text ''";
      if r.None? {
        MakeAnswer(SEND_CHAT_MESSAGE_ACTION, [("type", Str("text")), ("text", Str(message))]);
      }
    }

    /** answerToChatWithFile. */
    method AnswerToChatWithFile(fileId: string) returns (r: Option<Error>)
      modifies this
      ensures fileId == "" ==> r == Some(BadRequest("passed incorrect fileId ''", 0)) && answer == old(answer)
      ensures fileId != "" ==> r.None? && answer == Some(Answer(SEND_CHAT_MESSAGE_ACTION, [("type", Str("file")), ("file_id", Str(fileId))]))
    {
      r := Check(fileId != "", "passed incorrect fileId '" + fileId + "'");
      assert fileId == "" ==> "passed incorrect fileId '" + fileId + "'" == "passed incorrect fileId ''";
      if r.None? {
        MakeAnswer(SEND_CHAT_MESSAGE_ACTION, [("type", Str("file")), ("file_id", Str(fileId))]);
      }
    }

    /** answerToThreadWithMessage. */
    method AnswerToThreadWithMessage(message: string) returns (r: Option<Error>)
      modifies this
      ensures message == "" ==> r == Some(BadRequest("passed incorrect message text ''", 0)) && answer == old(answer)
      ensures message != "" ==> r.None? && answer == Some(Answer(SEND_THREAD_MESSAGE_ACTION, [("type", Str("text")), ("text", Str(message))]))
    {
      r := Check(message != "", "passed incorrect message text '" + message + "'");
      assert message == "" ==> "passed incorrect message text '" + message + "'" == "passed incorrect message text ''";
      if r.None? {
        MakeAnswer(SEND_THREAD_MESSAGE_ACTION, [("type", Str("text")), ("text", Str(message))]);
      }
    }

    /** answerToThreadWithFile. */
    method AnswerToThreadWithFile(fileId: string) returns (r: Option<Error>)
      modifies this
      ensures fileId == "" ==> r == Some(BadRequest("passed incorrect fileId ''", 0)) && answer == old(answer)
      ensures fileId != "" ==> r.None? && answer == Some(Answer(SEND_THREAD_MESSAGE_ACTION, [("type", Str("file")), ("file_id", Str(fileId))]))
    {
      r := Check(fileId != "", "passed incorrect fileId '" + fileId + "'");
      assert fileId == "" ==> "passed incorrect fileId '" + fileId + "'" == "passed incorrect fileId ''";
      if r.None? {
        MakeAnswer(SEND_THREAD_MESSAGE_ACTION, [("type", Str("file")), ("file_id", Str(fileId))]);
      }
    }

    /** answerToChatWithReaction. */
    method AnswerToChatWithReaction(reaction: string) returns (r: Option<Error>)
      modifies this
      ensures reaction == "" ==> r == Some(BadRequest("passed incorrect reaction ''", 0)) && answer == old(answer)
      ensures reaction != "" ==> r.None? && answer == Some(Answer(ADD_REACTION_ACTION, [("reaction", Str(reaction))]))
    {
      r := Check(reaction != "", "passed incorrect reaction '" + reaction + "'");
      assert reaction == "" ==> "passed incorrect reaction '" + reaction + "'" == "passed incorrect reaction ''";
      if r.None? {
        MakeAnswer(ADD_REACTION_ACTION, [("reaction", Str(reaction))]);
      }
    }

    /** syncAnswer: nothing goes out until an answer is made; then the answer in the slot does. */
    method SyncAnswer() returns (sent: Option<Answer>)
      ensures answer.None? ==> sent.None?
      ensures answer.Some? ==> sent == answer
    {
      if answer.None? {
        return None;
      }
      return answer;
    }
  }

  /** A user at position k with the id, none before it with the id, is the first one. */
  lemma {:induction false} FirstWithIdAt(users: seq<User>, id: int, k: nat)
    requires k < |users| && users[k].userId == id
    requires forall j :: 0 <= j < k ==> users[j].userId != id
    ensures FirstWithId(users, id) == Some(users[k])
  {
    if k > 0 {
      FirstWithIdAt(users[1..], id, k - 1);
    }
  }

  // ---------------------------------------------------------------------
  // The command list.
  // ---------------------------------------------------------------------

  /**
   * The list addCommands writes back has no repeats, holds exactly the
   * existing and the new commands, in order of first occurrence, and starts
   * with the existing list when that had no repeats.
   */
  lemma MergedCommands(existing: seq<string>, added: seq<string>)
    ensures NoDuplicates(Dedup(existing + added))
    ensures forall c :: c in Dedup(existing + added) <==> c in existing || c in added
    ensures InFirstOccurrenceOrder(existing + added, Dedup(existing + added))
    ensures NoDuplicates(existing) ==> |existing| <= |Dedup(existing + added)| && Dedup(existing + added)[..|existing|] == existing
  {
    DedupElements(existing + added);
    DedupOrder(existing + added);
    if NoDuplicates(existing) {
      DedupKeepsPrefix(existing, added);
      DedupOfDistinct(existing);
    }
  }

  /** array_unique of a + b starts with array_unique of a. */
  lemma {:induction false} DedupKeepsPrefix(a: seq<string>, b: seq<string>)
    ensures |Dedup(a)| <= |Dedup(a + b)| && Dedup(a + b)[..|Dedup(a)|] == Dedup(a)
  {
    if b == [] {
      assert a + b == a;
    } else {
      var n := |b| - 1;
      DedupKeepsPrefix(a, b[..n]);
      assert a + b == (a + b[..n]) + [b[n]];
      assert (a + b)[..|a + b| - 1] == a + b[..n];
    }
  }

  /** removeCommand drops one occurrence of the command, the first, and keeps the rest in order. */
  lemma RemovedCommand(list: seq<string>, command: string)
    requires command in list
    ensures var i := IndexOf(list, command).value;
      && RemoveAt(list, i) == list[..i] + list[i + 1..]
      && command !in list[..i]
      && multiset(RemoveAt(list, i)) + multiset{command} == multiset(list)
  {
    var i := IndexOf(list, command).value;
    var r := RemoveAt(list, i);
    assert r == list[..i] + list[i + 1..];
    assert list == list[..i] + [list[i]] + list[i + 1..];
  }
}
