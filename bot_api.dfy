/**
 * What Bot sees of the userbot API, and the records it builds from the
 * answers. Every Bot call goes out through callDefault (a Request to
 * UrlProvider.Apiv3(method) with the payload as message); the server side
 * is kept as an Api object holding the user, group and command lists, with
 * a ghost log of the calls made. The records are the Dto classes.
 */
module BotApi {
  import opened Php
  import opened RequestErrors

  const GET_USERS_MAX_LIMIT := 300
  const GET_GROUPS_MAX_LIMIT := 300

  const GET_USERS_URL_METHOD := "user/getList"
  const GET_GROUPS_URL_METHOD := "group/getList"
  const GET_COMMANDS_URL_METHOD := "command/getList"
  const UPDATE_COMMANDS_URL_METHOD := "command/update"

  const SEND_CHAT_MESSAGE_ACTION := "message_send"
  const SEND_THREAD_MESSAGE_ACTION := "thread_send"
  const ADD_REACTION_ACTION := "message_addreaction"

  /** Dto\User. */
  datatype User = User(userId: int, userName: string, avatarFileUrl: string)

  /** Dto\Group. */
  datatype Group = Group(id: string, name: string, avatarFileUrl: string)

  /** Dto\Command: the line, the parsed arguments and where the line came from. */
  datatype Command = Command(line: string, arguments: seq<(string, string)>, senderUserId: int, messageId: string, groupId: string)

  /** Dto\Answer: the action and the fields of a synchronous answer. */
  datatype Answer = Answer(action: string, post: seq<(string, Value)>)

  /** One callDefault: the API method and its payload. */
  datatype ApiCall = ApiCall(name: string, payload: seq<(string, Value)>)

  /** The payload of a paged list request. */
  function ListCall(name: string, limit: int, offset: int): ApiCall
  {
    ApiCall(name, [("limit", Int(limit)), ("offset", Int(offset))])
  }

  /** The entries of a list the server answers for limit and offset: at most limit of them, from offset on. */
  function Page<T>(list: seq<T>, limit: nat, offset: nat): (p: seq<T>)
    ensures |p| <= limit
    ensures offset + limit <= |list| ==> p == list[offset..offset + limit]
    ensures offset <= |list| < offset + limit ==> p == list[offset..]
    ensures |list| < offset ==> p == []
  {
    if |list| < offset then []
    else if offset + limit <= |list| then list[offset..offset + limit]
    else list[offset..]
  }

  /** A page shorter than the limit is the end of the list. */
  lemma ShortPageIsLast<T>(list: seq<T>, limit: nat, offset: nat)
    requires |Page(list, limit, offset)| < limit
    ensures |list| <= offset + limit
    ensures offset <= |list| ==> Page(list, limit, offset) == list[offset..]
  {
  }

  /** $element[$key] ?? $element[$fallback]. */
  function Coalesce(e: Value, key: string, fallback: string): Value
  {
    if IsSet(e, key) then Get(e, key) else Get(e, fallback)
  }

  /**
   * new User($element["user_id"], $element["user_name"], $element["avatar_file_url"])
   * under strict types: a record that is not an array, or a field missing
   * or of the wrong type, is a TypeError.
   */
  function UserOf(e: Value): Result<User, Error>
  {
    var id := Get(e, "user_id");
    var name := Get(e, "user_name");
    var avatar := Get(e, "avatar_file_url");
    if e.Dict? && id.Int? && name.Str? && avatar.Str? then Success(User(id.i, name.s, avatar.s)) else Failure(TypeFault)
  }

  /** The Group record, with id falling back to conversation_key and name to group_name. */
  function GroupOf(e: Value): Result<Group, Error>
  {
    var id := Coalesce(e, "group_id", "conversation_key");
    var name := Coalesce(e, "name", "group_name");
    var avatar := Get(e, "avatar_file_url");
    if e.Dict? && id.Str? && name.Str? && avatar.Str? then Success(Group(id.s, name.s, avatar.s)) else Failure(TypeFault)
  }

  /** array_map over a list: the first element that cannot be mapped aborts the whole map. */
  function MapAll<T>(es: seq<Value>, f: Value -> Result<T, Error>): Result<seq<T>, Error>
  {
    if es == [] then Success([])
    else
      match f(es[0])
      case Failure(err) => Failure(err)
      case Success(x) =>
        match MapAll(es[1..], f)
        case Failure(err) => Failure(err)
        case Success(xs) => Success([x] + xs)
  }

  /** array_map succeeds exactly when every element maps, and then maps them one for one, in order. */
  lemma {:induction false} MapAllPointwise<T>(es: seq<Value>, f: Value -> Result<T, Error>)
    ensures MapAll(es, f).Success? <==> forall i :: 0 <= i < |es| ==> f(es[i]).Success?
    ensures MapAll(es, f).Success? ==>
      |MapAll(es, f).value| == |es| && forall i :: 0 <= i < |es| ==> MapAll(es, f).value[i] == f(es[i]).value
    ensures MapAll(es, f).Failure? ==> exists i :: 0 <= i < |es| && f(es[i]) == Failure(MapAll(es, f).error)
  {
    if es != [] {
      MapAllPointwise(es[1..], f);
      if f(es[0]).Success? {
        if MapAll(es[1..], f).Failure? {
          var i :| 0 <= i < |es[1..]| && f(es[1..][i]) == Failure(MapAll(es[1..], f).error);
          assert f(es[i + 1]) == Failure(MapAll(es, f).error);
        } else {
          forall i | 0 <= i < |es| ensures f(es[i]).Success? {
            if i > 0 {
              assert es[i] == es[1..][i - 1];
            }
          }
        }
      } else {
        assert f(es[0]) == Failure(MapAll(es, f).error);
      }
    }
  }

  /** Mapping distributes over concatenation, so a list can be mapped page by page. */
  lemma {:induction false} MapAllAppend<T>(a: seq<Value>, b: seq<Value>, f: Value -> Result<T, Error>)
    requires MapAll(a, f).Success?
    ensures MapAll(a + b, f) == match MapAll(b, f)
      case Success(ys) => Success(MapAll(a, f).value + ys)
      case Failure(err) => Failure(err)
  {
    if a == [] {
      assert a + b == b;
      assert MapAll(a, f).value == [];
      if MapAll(b, f).Success? {
        assert [] + MapAll(b, f).value == MapAll(b, f).value;
      }
    } else {
      assert (a + b)[0] == a[0] && (a + b)[1..] == a[1..] + b;
      MapAllAppend(a[1..], b, f);
      match MapAll(b, f)
      case Success(ys) =>
        assert [f(a[0]).value] + (MapAll(a[1..], f).value + ys) == MapAll(a, f).value + ys;
      case Failure(_) =>
    }
  }

  /**
   * The userbot API as Bot uses it: list requests are answered from the
   * server's lists, and command/update replaces the command list.
   */
  class Api {
    /** The user records the server lists, in its order. */
    var users: seq<Value>
    /** The group records the server lists, in its order. */
    var groups: seq<Value>
    /** The commands registered for the webhook. */
    var commands: seq<string>
    ghost var log: seq<ApiCall>

    constructor (users: seq<Value>, groups: seq<Value>, commands: seq<string>)
      ensures this.users == users && this.groups == groups && this.commands == commands && log == []
    {
      this.users := users;
      this.groups := groups;
      this.commands := commands;
      log := [];
    }

    /** user/getList: response["user_list"]. */
    method ListUsers(limit: nat, offset: nat) returns (page: seq<Value>)
      modifies this
      ensures page == Page(users, limit, offset)
      ensures log == old(log) + [ListCall(GET_USERS_URL_METHOD, limit, offset)]
      ensures users == old(users) && groups == old(groups) && commands == old(commands)
    {
      page := Page(users, limit, offset);
      log := log + [ListCall(GET_USERS_URL_METHOD, limit, offset)];
    }

    /** group/getList: response["group_list"]. */
    method ListGroups(limit: nat, offset: nat) returns (page: seq<Value>)
      modifies this
      ensures page == Page(groups, limit, offset)
      ensures log == old(log) + [ListCall(GET_GROUPS_URL_METHOD, limit, offset)]
      ensures users == old(users) && groups == old(groups) && commands == old(commands)
    {
      page := Page(groups, limit, offset);
      log := log + [ListCall(GET_GROUPS_URL_METHOD, limit, offset)];
    }

    /** command/getList: response["command_list"]. */
    method CommandList() returns (list: seq<string>)
      modifies this
      ensures list == commands
      ensures log == old(log) + [ApiCall(GET_COMMANDS_URL_METHOD, [])]
      ensures users == old(users) && groups == old(groups) && commands == old(commands)
    {
      list := commands;
      log := log + [ApiCall(GET_COMMANDS_URL_METHOD, [])];
    }

    /** command/update with the given command_list. */
    method UpdateCommandList(list: seq<string>)
      modifies this
      ensures commands == list
      ensures log == old(log) + [ApiCall(UPDATE_COMMANDS_URL_METHOD, [("command_list", Strings(list))])]
      ensures users == old(users) && groups == old(groups)
    {
      commands := list;
      log := log + [ApiCall(UPDATE_COMMANDS_URL_METHOD, [("command_list", Strings(list))])];
    }
  }

  /** A list of strings as a payload value. */
  function Strings(list: seq<string>): (v: Value)
    ensures v.List? && |v.items| == |list| && forall i :: 0 <= i < |list| ==> v.items[i] == Str(list[i])
  {
    if list == [] then List([]) else List([Str(list[0])] + Strings(list[1..]).items)
  }
}
