# php_lib_userbot core, modelled in Dafny

This project models the logic of the Compass userbot library (getCompass/php_lib_userbot). It also proves what that logic promises. It covers five pieces:

- **The command template matcher, `SimpleCommand`.** A template such as `/order [id]` is split into literal segments and balanced, possibly nested, `[...]` groups. The first token of the line must equal the template's first token. The line is then matched against an anchored pattern of segments and groups. The result pairs each placeholder name with the text the line supplies for it, with one leading `[` and one trailing `]` removed from both. The recursive PCRE group pattern is modelled by exact depth counting (`Brackets`). The anchored match is modelled by a piece-by-piece matcher whose `$` also accepts a final newline.
- **The request life cycle, `Request`.** The builder methods set a sign bit, the address, the payload and an attached file. `send` has an empty-url guard. `exec` takes the signed path (bearer header, JSON-encoded payload) or the unsigned one (raw array). Then come the HTTP-200 check and the `{status, response}` envelope parser. Error codes are classified through the per-class `BOUND_CODES` tables (`RequestErrors`). An in-progress error is re-raised as an unexpected response. The HTTP client is the class `Transport.Client`, and what the network answers is a parameter of its `Post`.
- **Bot orchestration, `Bot`.** It covers:
  - first-match webhook dispatch over the registered handlers;
  - `assert` and the list guards;
  - the paged user search of `getUser`;
  - the merge of the command list without repeats, and the removal of a command's first occurrence;
  - the single answer slot and its `answerTo*` writers;
  - the `@User-<digits>` mention rewrite of `preProcessMessageText` (`Mentions`).

  The userbot API Bot talks to is the class `BotApi.Api`. It holds the server's user, group and command lists and a ghost log of the calls made.
- **The address builder, `UrlProvider.Apiv3`.** It covers slash trimming on the endpoint path, and the defaults that can be overridden on the other path.
- **PHP's runtime, `Php`.** Arrays are modelled as ordered key/value sequences (`Put`, `Lookup`), along with `array_combine`, `array_unique`, `array_search`, `unset`, the `(int)` cast and json values.

`CommandExamples` holds the model's own worked cases of the matcher, starting from the kind of template the `SimpleCommand` docblock shows (`/show order [order_id]`). These are a single argument, a nested argument, a missing argument and a changed literal, each stated for every command, name and value string of that shape.

Under `declare(strict_types=1)`, a record or value of the wrong type is a `TypeError`. Every such case is the error `TypeFault`: a malformed user or group record, a non-string server message, a non-array `response`, a missing template segment, and a post through a client whose header table was never set (`count(null)`). `Bot::assert` failures are `BadRequest(message, 0)`.

## Model

| member | source | states |
|---|---|---|
| Brackets.SplitGroups | src/Command/SimpleCommand.php:52-55 | preg_split and preg_match_all of the group pattern: segments and groups interleave back into the string, there is one more segment than groups, every group is balanced, and no segment contains a group; that the groups are the leftmost ones is SplitGroupsLeftmost |
| Brackets.SplitGroupsLeftmost | src/Command/SimpleCommand.php:52-55 | a split of s is the one preg_split and preg_match_all give exactly when it is leftmost: each segment runs up to the next place a group starts, with no group starting inside it, and each group is the whole group starting there |
| Brackets.ScanLeftmost | src/Command/SimpleCommand.php:52-55 | the left-to-right scan from any position produces a leftmost split of the rest of the text |
| Brackets.LeftmostIsScan | src/Command/SimpleCommand.php:52-55 | a leftmost split of the rest of the text is the scan's, so there is only one |
| Brackets.GroupAtSpec | src/Command/SimpleCommand.php:52 | the group scan from position i ends at e exactly when s[i..e] opens with '[' and e is where the bracket depth first returns to zero |
| Brackets.CloseFrom | src/Command/SimpleCommand.php:52 | the closing position found is the first at which the depth reaches zero; when none is found the depth stays positive to the end |
| SimpleCommand.TryParseCommand | src/Command/SimpleCommand.php:41-74 | tryParseCommand with the pattern built from the template (the corrected parser); its properties are ParseSound, ParseComplete, ParsedKeys, NoPlaceholders and CorrectedUsesTemplatePattern |
| SimpleCommand.TryParseCommandAsWritten | src/Command/SimpleCommand.php:41-74 | tryParseCommand as written, with the pattern built from the line, and the TypeError of a missing segment; its properties are AsWrittenFaults, AsWrittenCounts and AsWrittenAgreesWithoutPlaceholders |
| SimpleCommand.RemoveBrackets | src/Command/SimpleCommand.php:118-124 | removeBrackets: one leading '[' and one trailing ']' removed; its properties are RemoveBracketsWrapped, RemoveBracketsPlain and RemoveBracketsOfGroup |
| SimpleCommand.FirstToken | src/Command/SimpleCommand.php:43-44 | the first element of explode(" ", s, 2): a prefix of s with no space, followed in s by a space or by the end |
| SimpleCommand.FirstTokenNoSpace | src/Command/SimpleCommand.php:43-44 | a string with no space is its own first token |
| SimpleCommand.FirstTokenOf | src/Command/SimpleCommand.php:43-44 | the first token of `w + " " + rest` is w |
| SimpleCommand.PrefixCheckSafe | src/Command/SimpleCommand.php:43-49 | a line built from the template's own segments passes the prefix check whenever the first segment holds a space |
| SimpleCommand.RemoveBracketsOfGroup | src/Command/SimpleCommand.php:118-124 | removeBrackets of a balanced group removes exactly its outer brackets and keeps inner ones |
| SimpleCommand.RemoveBracketsWrapped | src/Command/SimpleCommand.php:118-124 | removeBrackets("[" + x + "]") is x, whatever x holds |
| SimpleCommand.RemoveBracketsPlain | src/Command/SimpleCommand.php:118-124 | text without a leading '[' and without a trailing ']' (before an optional final newline) is unchanged |
| SimpleCommand.RemoveBracketsAll | src/Command/SimpleCommand.php:118-124 | array_map keeps the length and applies removeBrackets to each element in place |
| SimpleCommand.MakeActionWithArgsPattern | src/Command/SimpleCommand.php:84-98 | the foreach succeeds exactly when every part has a following segment, and then returns the pattern of the leading segment followed by one group and the next segment per part |
| SimpleCommand.MatchRest | src/Command/SimpleCommand.php:60-62 | a successful anchored match ends at the end of the line or before a final newline, and captures one group per group piece |
| SimpleCommand.MatchSound | src/Command/SimpleCommand.php:84-98 | a line that matches the pattern of n groups is the segments interleaved with n balanced groups, followed by what `$` allows |
| SimpleCommand.MatchComplete | src/Command/SimpleCommand.php:84-98 | the segments interleaved with any balanced groups, followed by an allowed tail, match and capture exactly those groups |
| SimpleCommand.MatchOwnSplit | src/Command/SimpleCommand.php:84-98 | a string matches the pattern built from its own split with n groups exactly when n is its number of groups |
| SimpleCommand.OddKeysOfCaptures | src/Command/SimpleCommand.php:64-66 | the captures at odd keys 1, 3, 5, … are the outer group captures, one per group, in order |
| SimpleCommand.CountCheckNeverFires | src/Command/SimpleCommand.php:68-71 | after a match, the number of captures kept always equals the number of template groups, so the count check never returns false |
| SimpleCommand.ArgsFromMatch | src/Command/SimpleCommand.php:60-73 | the steps after the pattern succeed exactly when the line matches, and then combine the unbracketed names with the unbracketed captures |
| SimpleCommand.CorrectedUsesTemplatePattern | src/Command/SimpleCommand.php:55-57 | in the corrected parser, both branches use the pattern of the template's own segments and groups |
| SimpleCommand.NoPlaceholders | src/Command/SimpleCommand.php:55-73 | a template with no group matches only itself (or itself with a final newline, when the prefix check lets that through), and the result is the empty array, not false |
| SimpleCommand.ParseSound | src/Command/SimpleCommand.php:41-74 | a successful parse means the prefixes agree and the line is the template's segments around balanced groups, one per placeholder, and the result pairs the names with those groups unbracketed |
| SimpleCommand.ParseComplete | src/Command/SimpleCommand.php:41-74 | every line the template's segments around balanced groups spell, and that passes the prefix check, parses to the names paired with those groups |
| SimpleCommand.ParsedKeys | src/Command/SimpleCommand.php:73 | the keys of the result are the placeholder names without repeats, in first-occurrence order; a duplicated name takes the later value (see Php.CombineLookup) |
| SimpleCommand.AsWrittenFaults | src/Command/SimpleCommand.php:84-98 | as written, the parser raises a TypeError exactly when the prefixes agree and the line has fewer groups than the template |
| SimpleCommand.AsWrittenCounts | src/Command/SimpleCommand.php:55-73 | as written, with the prefixes agreeing and no fault, the line is accepted exactly when its group count equals the template's, and the result pairs the template's names with the line's own groups |
| SimpleCommand.AsWrittenAgreesWithoutPlaceholders | src/Command/SimpleCommand.php:55-57 | for a template with no group, the code as written and the corrected parser agree |
| CommandExamples.OneGroupSplit | src/Command/SimpleCommand.php:52-55 | a text with one flat group splits into the text before it, that group, and the text after it |
| CommandExamples.NestedGroupSplit | src/Command/SimpleCommand.php:52-55 | a nested group `[a[b]]` is found whole, as one group |
| CommandExamples.OneArgument | src/Command/SimpleCommand.php:41-74 | `cmd [name]` parses `cmd [value]` (with or without a final newline) to the single pair (name, value), both as written and corrected |
| CommandExamples.NestedArgument | src/Command/SimpleCommand.php:118-124 | `cmd [a[b]]` parses `cmd [c[d]]` to (`a[b]`, `c[d]`): inner brackets are kept |
| CommandExamples.UnbracketedNestedArgument | src/Command/SimpleCommand.php:84-98 | as written, `cmd [a[b]]` against `cmd c[d]` binds `a[b]` to d; the corrected parser rejects that line |
| CommandExamples.MissingPlaceholder | src/Command/SimpleCommand.php:94 | as written, `cmd [name]` against a line with no group raises a TypeError; the corrected parser returns false |
| CommandExamples.LiteralIgnored | src/Command/SimpleCommand.php:56 | as written, `cmd w1 [name]` accepts `cmd w2 [value]` for a different word w2; the corrected parser rejects it |
| CommandExamples.RejectedWithoutGroup | src/Command/SimpleCommand.php:60-62 | where the template has a group, a line with no group at that place does not match: the user must type the brackets |
| CommandExamples.RejectedAtLiteral | src/Command/SimpleCommand.php:60-62 | a line that does not start with the template's leading segment does not match |
| RequestErrors.BadRequestClaims | src/Exception/Request/BadRequestException.php:11 | BadRequestException::isMyCode holds exactly for the codes 1, 2, 3, 4 and 8 |
| RequestErrors.InProgressClaims | src/Exception/Request/RequestInProgressException.php:11 | RequestInProgressException::isMyCode holds exactly for code 7 |
| RequestErrors.AbstractClaimsNothing | src/Exception/Request/AbstractRequestException.php:12 | the base table is empty, so the base class claims no code |
| RequestErrors.TablesDisjoint | src/Exception/Request/BadRequestException.php:11 | no code is claimed by both tables |
| Request.SignMode | src/Action/Request.php:51-58 | withSign changes only the USE_UNSIGNED_PAYLOAD bit, and that bit is clear exactly when signing is asked for |
| Request.SignLastWins | src/Action/Request.php:51-58 | of two withSign calls the second decides the mode, so each is idempotent |
| Request.SignDecidesPath | src/Action/Request.php:144 | exec takes the unsigned path exactly after withSign(false) |
| Request.FreshRequestSigned | src/Action/Request.php:30 | the initial mode 0 takes the signed path |
| Request.ProcessSystemError | src/Action/Request.php:244-256 | a code in the bad-request table gives BadRequest, else a code in the in-progress table gives InProgress, else UnexpectedResponse, each with the server's message and code |
| Request.ParseCompassResponse | src/Action/Request.php:200-230 | success only for status "ok", and then the response field itself, which is an array; invalid JSON fails as UnexpectedResponse |
| Request.EnvelopeOrder | src/Action/Request.php:204-221 | a missing status, then a missing response, then a non-ok status without error_code each fail with their own UnexpectedResponse message, in that order |
| Request.EnvelopeParse | src/Action/Request.php:217-226 | a non-ok envelope with a code and a message is handed to processSystemError with that code and message |
| Request.NoMessageParse | src/Action/Request.php:223-226 | a non-ok envelope without a message is handed to processSystemError with "no error message" |
| Request.Request.constructor | src/Action/Request.php:24-42 | a new request has an empty url, an empty payload, no stored response and mode 0 |
| Request.Request.WithSign | src/Action/Request.php:51-58 | the mode is updated by SignMode; nothing else changes |
| Request.Request.WithAddress | src/Action/Request.php:67-71 | the url is overwritten; nothing else changes |
| Request.Request.WithMessage | src/Action/Request.php:81-85 | the whole payload is replaced, including a file entry set earlier; nothing else changes |
| Request.Request.WithFile | src/Action/Request.php:95-99 | the payload's "file" entry is set to the attached file, and the client switches to multipart |
| Request.Request.CheckResponseHttpCode | src/Action/Request.php:176-184 | no error for HTTP 200, otherwise UnexpectedResponse carrying the HTTP code |
| Request.Request.Exec | src/Action/Request.php:142-167 | the signed path sets the bearer Authorization header and posts the JSON-encoded payload; the unsigned path sets no header and posts the array, which is a TypeError when the client's header table was never set; otherwise the result is the HTTP check and then the envelope parse; the client's new header table, log, multipart flag (cleared once a post goes out) and HTTP code (that of a delivered response) are all stated |
| Request.Request.Send | src/Action/Request.php:113-129 | an empty url fails before the client is called; otherwise exec runs (a TypeError for an unsigned send through a client with no header table), an in-progress error is re-raised as UnexpectedResponse, and a success is stored in response and returned; the client's new header table, log, multipart flag and HTTP code are stated for both the empty and the non-empty url |
| Request.ExecResult | src/Action/Request.php:142-167 | what exec returns for posting with or without a set header table and a given network answer; Request.Request.Exec is proved to return it |
| Request.SendResult | src/Action/Request.php:113-129 | what send returns for a url, a header table set or not, and a network answer; Request.Request.Send is proved to return it, and SendSuccess, EmptyUrlFails, UnsetTableFails, NonOkIgnoresBody, ServerErrorClassification and DefaultMessage state its cases |
| Request.SendNeverInProgress | src/Action/Request.php:119-126 | an in-progress error never escapes send as itself |
| Request.EmptyUrlFails | src/Action/Request.php:115-117 | an empty url fails with the runtime error, whatever the network would answer |
| Request.NonOkIgnoresBody | src/Action/Request.php:154 | any HTTP code besides 200 fails with that code, and the body is not looked at |
| Request.SendSuccess | src/Action/Request.php:113-129 | send succeeds exactly for a non-empty url, a set header table and a delivered HTTP-200 JSON envelope with status "ok" and an array response, and returns that response |
| Request.UnsetTableFails | src/Action/Curl.php:100-104 | a send to a non-empty url through a client whose header table was never set is a TypeError, whatever the network would answer |
| Request.UploadToNode | src/Bot.php:458-463 | getFileUploadInfo's unsigned upload through a new client fails: with the runtime error for an empty node url, and as a TypeError for any other |
| Request.ServerErrorClassification | src/Action/Request.php:119-126 | a server error reaches the caller of send as BadRequest for codes 1, 2, 3, 4 and 8, and as UnexpectedResponse otherwise (code 7 included), with the server's code and message |
| Request.DefaultMessage | src/Action/Request.php:225 | a server error without a message reaches the caller with the message "no error message" |
| Transport.Client.constructor | src/Action/Curl.php:20-50 | a new client's header table is unset (null, not an empty table), with no multipart mode, HTTP code 0 and nothing sent |
| Transport.Client.SetHeaderValue | src/Action/Curl.php:75-78 | the header table becomes set (from empty when it was unset), and the header is set in it, replacing an earlier value of the same name in place |
| Transport.Client.AttachFileAt | src/Action/Curl.php:133-137 | the next post goes out as multipart, and the file handle is returned |
| Transport.Client.GetHttpCode | src/Action/Curl.php:144-147 | returns the code of the last delivered response |
| Transport.Client.Post | src/Action/Curl.php:91-182 | an unset header table is a TypeError (count of null) before anything else; an empty url then fails before sending; otherwise the body goes out by the multipart flag with the header table, the flag is cleared, and a delivered response sets the HTTP code and is returned |
| Transport.TransferError | src/Action/Curl.php:158-182 | a failed transfer is an UnexpectedResponse with code 0 |
| UrlProvider.Apiv3 | src/Action/UrlProvider.php:22-43 | the address apiv3 builds from a route, an endpoint or none, and the defined overrides; its properties are EndpointJoin, EndpointNormalizes, EmptyEndpoint, DefaultAddress and OverriddenAddress |
| UrlProvider.RTrimSlashes | src/Action/UrlProvider.php:26 | rtrim(s, "/"): the longest prefix of s that does not end with '/', with only slashes removed |
| UrlProvider.LTrimSlashes | src/Action/UrlProvider.php:26 | ltrim(s, "/"): the longest suffix of s that does not start with '/', with only slashes removed |
| UrlProvider.EndpointJoin | src/Action/UrlProvider.php:25-27 | with an endpoint, the address is the trimmed endpoint, "/api/v3/" and the trimmed route, and the trimming removes only slashes |
| UrlProvider.EndpointNormalizes | src/Action/UrlProvider.php:26 | extra trailing slashes on the endpoint and leading slashes on the route do not change the address, so no double slash appears |
| UrlProvider.EmptyEndpoint | src/Action/UrlProvider.php:25 | an empty endpoint still takes the endpoint branch |
| UrlProvider.DefaultAddress | src/Action/UrlProvider.php:29-42 | with no endpoint and no overrides, the address is "https://userbot.getcompass.com/api/v3/" followed by the untrimmed route |
| UrlProvider.OverriddenAddress | src/Action/UrlProvider.php:29-42 | the protocol and the host can be overridden each on their own, and the subdomain and path stay fixed |
| BotApi.UserOf | src/Bot.php:186-189 | the User record of one list element, a TypeError when a field is missing or of the wrong type; MapAllPointwise and GetUserFindsFirst state how it is used |
| BotApi.GroupOf | src/Bot.php:153-160 | the Group record of one list element, with group_id falling back to conversation_key and name to group_name, a TypeError otherwise; Bot.Bot.GetGroups returns it mapped over the page |
| BotApi.MapAllPointwise | src/Bot.php:186-189 | the array_map to records succeeds exactly when every element maps, and then maps the elements one for one, in order; a failure is the failure of some element |
| BotApi.MapAllAppend | src/Bot.php:186-189 | mapping distributes over concatenation, so a list can be mapped page by page |
| BotApi.Api.ListUsers | src/Bot.php:181-184 | user/getList answers the server's users from offset, at most limit of them, and logs the call |
| BotApi.Api.ListGroups | src/Bot.php:148-151 | group/getList answers the server's groups from offset, at most limit of them, and logs the call |
| BotApi.Api.CommandList | src/Bot.php:501 | command/getList answers the registered commands and logs the call |
| BotApi.Api.UpdateCommandList | src/Bot.php:503-505 | command/update replaces the registered commands and logs the call |
| Bot.Check | src/Bot.php:750-758 | assert raises BadRequest with its message exactly when the expression is false |
| Bot.ListGuard | src/Bot.php:178-179 | the guards pass exactly for 0 < limit <= 300 and offset >= 0, and a bad limit is reported first |
| Bot.Bot.constructor | src/Bot.php:54-58 | a new bot keeps its handlers in registration order and has no answer |
| Bot.CommandOf | src/Bot.php:77 | the Command built from the post and the parsed arguments, a TypeError when user_id, message_id or group_id has the wrong type; Bot.Bot.ServeWebhook returns it for the first matching handler |
| Bot.Bot.ServeWebhook | src/Bot.php:68-82 | the first handler whose parse succeeds, even with no arguments, is chosen with the Command built from the post, and no later one is tried; BadCommand exactly when no handler matches |
| Bot.Bot.GetUsers | src/Bot.php:176-190 | a failed guard means no request; otherwise one user/getList request, and its answer mapped to User records |
| Bot.Bot.GetGroups | src/Bot.php:143-161 | the same guards, checked against the users maximum; then one group/getList request, mapped to Group records with the id and name fallbacks |
| Bot.Bot.GetUser | src/Bot.php:204-222 | a non-positive id fails with no request; otherwise the result and the requests made are those of the paged search UserSearch |
| Bot.Bot.FindInPage | src/Bot.php:213-218 | the foreach returns the first user of the page with the id |
| Bot.GetUserFindsFirst | src/Bot.php:204-222 | over well-formed records, getUser returns the first listed user with the id, or UserNotFound when there is none |
| Bot.UserSearch | src/Bot.php:204-222 | getUser's paged search: result and requests; Bot.Bot.GetUser is proved to follow it, and UserSearchFindsFirst, UserSearchPages and GetUserFindsFirst state what it finds and asks for |
| Bot.UserSearchFindsFirst | src/Bot.php:209-219 | paging from any offset finds what a plain scan of the list from that offset finds |
| Bot.UserSearchPages | src/Bot.php:209-219 | the search requests pages of 300 at offsets 0, 300, 600, … one after the other |
| Bot.FirstWithId | src/Bot.php:213-218 | none exactly when no user has the id; otherwise a user with the id, with no earlier user having it |
| Bot.Bot.PreProcessMessageText | src/Bot.php:692-720 | a text without mentions is returned unchanged with no request; otherwise usersInfo is what the paged search MentionSearch collects, and the text is rewritten from it token by token by the corrected Mentions.RewriteMentions, not by the source's str_replace (see Findings) |
| Bot.Bot.SearchMentions | src/Bot.php:703-717 | the do-while collects exactly what MentionSearch describes and makes exactly its requests |
| Bot.Bot.CollectPage | src/Bot.php:706-716 | the foreach over a page adds each mentioned user's entry, as Collect describes |
| Bot.CollectSpec | src/Bot.php:706-716 | collecting over a page completes usersInfo over its users: every mention searched for that a user is mentioned by has the entry of such a user |
| Bot.MentionSearch | src/Bot.php:700-717 | preProcessMessageText's do-while: usersInfo and the requests; Bot.Bot.SearchMentions is proved to follow it, and MentionSearchStep, MentionSearchSpec, MentionSearchPages and PreProcessResolves state what it collects and asks for |
| Bot.Collect | src/Bot.php:706-716 | usersInfo after the foreach over one page; CollectSpec states what it holds |
| Bot.Note | src/Bot.php:708-715 | one user's entry, set only when the text mentions that user |
| Bot.MentionSearchStep | src/Bot.php:717 | the search goes on to the next page only after a full page, and only while not every mention has an entry |
| Bot.MentionSearchSpec | src/Bot.php:703-717 | over well-formed records the search always succeeds and completes usersInfo over every user from the offset on, stopping early only once every mention has an entry |
| Bot.PreProcessResolves | src/Bot.php:694-717 | usersInfo has an entry for every mention in the text that names a listed user, under no other key, each the markup of a user its mention names |
| Bot.MentionSearchPages | src/Bot.php:703-717 | the mention search requests pages of 300 one after the other from offset 0 |
| Bot.Bot.CheckCommands | src/Bot.php:496-498 | the foreach passes exactly when no command is empty |
| Bot.Bot.AddCommands | src/Bot.php:492-506 | no commands, or an empty one, fails with no request; otherwise the list read back with the new commands appended, without repeats, is written back |
| Bot.MergedCommands | src/Bot.php:504 | the list written back has no repeats, holds exactly the existing and the new commands in first-occurrence order, and starts with the existing list when that had no repeats |
| Bot.DedupKeepsPrefix | src/Bot.php:504 | array_unique of the merged list starts with array_unique of the existing list |
| Bot.Bot.RemoveCommand | src/Bot.php:518-535 | "" fails with no request; an absent command makes no update; otherwise the list without the command's first occurrence is written back |
| Bot.RemovedCommand | src/Bot.php:526-531 | removal drops only the first occurrence and keeps the rest in order, one copy fewer as a multiset |
| Bot.Bot.MakeAnswer | src/Bot.php:115-118 | the slot holds the new answer, whatever it held |
| Bot.Bot.AnswerToChatWithMessage | src/Bot.php:596-604 | an empty message fails and leaves the slot alone; otherwise the slot holds a message_send text answer |
| Bot.Bot.AnswerToChatWithFile | src/Bot.php:615-623 | an empty file id fails and leaves the slot alone; otherwise the slot holds a message_send file answer |
| Bot.Bot.AnswerToThreadWithMessage | src/Bot.php:634-642 | an empty message fails and leaves the slot alone; otherwise the slot holds a thread_send text answer |
| Bot.Bot.AnswerToThreadWithFile | src/Bot.php:653-661 | an empty file id fails and leaves the slot alone; otherwise the slot holds a thread_send file answer |
| Bot.Bot.AnswerToChatWithReaction | src/Bot.php:672-679 | an empty reaction fails and leaves the slot alone; otherwise the slot holds a message_addreaction answer |
| Bot.Bot.SyncAnswer | src/Bot.php:89-108 | nothing goes out while no answer is made; otherwise the answer in the slot does |
| Mentions.Tokens | src/Bot.php:695 | the left-to-right scan of the text into mentions and other characters; TokensSpell and FoundAreMentions state what it keeps |
| Mentions.Found | src/Bot.php:695 | $matches[0]: the mentions of the text, left to right; FoundAreMentions states their shape |
| Mentions.ReplaceAll | src/Bot.php:719 | str_replace of one search string, left to right without overlaps; ReplaceNoMention, ReplaceAtFront and ShorterMentionReplaced state its cases |
| Mentions.ReplaceInTurn | src/Bot.php:719 | str_replace with arrays as written: each pair replaced in turn over the whole text; PrefixMentionsDisagree and Bot.PrefixMentionsSearched show where it goes wrong |
| Mentions.RewriteMentions | src/Bot.php:719 | the corrected rewrite: each mention token replaced by its own entry; RewriteUnlisted, ResolveAppend and RewriteMentionFront state its properties |
| Mentions.TokensSpell | src/Bot.php:695 | the mention scan loses and adds nothing: its tokens spell the text back |
| Mentions.FoundAreMentions | src/Bot.php:695 | every match of /(@User-\d+)/ is "@User-" followed by one or more digits |
| Mentions.RewriteUnlisted | src/Bot.php:719 | a text whose mentions are all unlisted is left unchanged |
| Mentions.ResolveAppend | src/Bot.php:719 | the rewrite works token by token: rewriting a concatenation rewrites each part |
| Mentions.RewriteMentionFront | src/Bot.php:719 | a mention at the front becomes its markup when listed and stays as it is otherwise |
| Mentions.MarkupNoMentionStart | src/Bot.php:710-714 | the markup `["@"|id|"name"]` holds no mention when the name holds none |
| Mentions.PrefixMentionsDisagree | src/Bot.php:719 | for `@User-1 @User-12`, with user 1's entry before user 12's, str_replace as written corrupts the second mention, while the token-wise rewrite gives both markups |
| Bot.PrefixMentionsSearched | src/Bot.php:694-719 | for `@User-1 @User-12` and a user list holding user 1 and then user 12, the search collects user 1's entry first, and then str_replace leaves user 1's markup followed by "2" where the token-wise rewrite gives user 12's markup |
| Php.Put | src/Bot.php:710 | an array assignment sets the key (appended when new, in place when present) and leaves every other key alone |
| Php.CombineLookup | src/Command/SimpleCommand.php:73 | array_combine maps a key to the value at its last position |
| Php.CombineKeys | src/Command/SimpleCommand.php:73 | the keys of array_combine are the keys without repeats, in first-occurrence order |
| Php.DedupElements | src/Bot.php:504 | array_unique keeps every element once and adds none |
| Php.DedupOrder | src/Bot.php:504 | array_unique keeps first occurrences, in order |
| Php.DedupOfDistinct | src/Bot.php:504 | array_unique of a list without repeats is that list |
| Php.IndexOf | src/Bot.php:526 | array_search finds the first strictly equal position, or none exactly when the element is absent |
| Php.RemoveAt | src/Bot.php:531 | unset removes one element and keeps the others in order |
| Php.ToInt | src/Action/Request.php:224 | the (int) cast on 64-bit PHP; IntCastRoundTrip states it on decimal text in the int range, IntCastSaturates states the saturation beyond it |
| Php.StringToInt | src/Action/Request.php:224 | the (int) cast of a string always lands in [PHP_INT_MIN, PHP_INT_MAX] |
| Php.Saturate | src/Action/Request.php:224 | a value outside the 64-bit range becomes the bound on its side, and a value inside it is kept |
| Php.IntCastSaturates | src/Action/Request.php:224 | decimal text beyond the 64-bit range casts to PHP_INT_MAX or PHP_INT_MIN |
| Php.Combine | src/Command/SimpleCommand.php:73 | array_combine; CombineLookup and CombineKeys state its properties |
| Php.Dedup | src/Bot.php:504 | array_unique; DedupElements, DedupOrder and DedupOfDistinct state its properties |
| Php.IntCastRoundTrip | src/Action/Request.php:224 | the (int) cast gives back an integer in PHP's 64-bit range from its decimal text |

## Left out

- The webhook handler's `run` (a `call_user_func` of an arbitrary callable) is not modelled. `ServeWebhook` returns the position of the handler it would run and the Command it would run it with. A handler is the function its `tryParseCommand` computes (a `Bot.Parser`). `SimpleHandler` registers `SimpleCommand.TryParseCommand`.
- The PCRE engine itself is left out, including backtrack limits and `preg_*` returning false on error. Groups are found by depth counting, and the built pattern by the matcher of literal and group pieces.
- SimpleCommand.TryParseCommand: the rest of the model uses the corrected parser (see Findings). The code as written is kept in full as `SimpleCommand.TryParseCommandAsWritten`, with its own proved properties.
- The HTTP transport is left out: libcurl handles, timeouts, the user agent, header formatting, header-size parsing of the response and `CURLFile`. `Transport.Client` keeps the header table, the multipart flag, the HTTP code and the post. What the network answers is a parameter.
- `PayloadHandler::encode` and `json_encode` escaping are left out. The encoded text is kept symbolic as `JsonText(payload)`. `json_decode` is modelled by its result: a json value, or a decode failure.
- Php.ToInt: the `(int)` cast of an `error_code` is modelled for integers, booleans, null, arrays and decimal strings (leading blanks, a sign, digits). Decimal strings are saturated to the 64-bit range, as PHP does. Floats and exponent strings are left out, because the model has no floating point. `Value.Int` itself is unbounded: `json_decode` turns an integer beyond 64 bits into a float, which the model does not have, so `ToInt` returns such an `Int` unchanged.
- Bot's API calls go to `BotApi.Api`, which answers from its lists. Failed requests, missing response fields and `callDefault`'s address and payload wiring are not part of Bot's model. Those failures are modelled once, in `Request.Request.Send`.
- The message and file senders (`sendPrivateMessage`, `sendGroupMessage`, `sendMessageToMessageThread`, `sendFile*`), the reactions (`reactOnMessage`, `removeReactionFromMessage`), `getFileUploadInfo` (its second request is `Request.UploadToNode`), `getCommands`, `clearCommands`, `getWebhookVersion`, `setWebhookVersion` and `makeRequest` are not modelled. Each is an assert followed by one API call, or file I/O. Their shared parts (`Check`, `PreProcessMessageText`, the `Api` calls) are modelled.
- Bot.Bot.PreProcessMessageText: returns the corrected token-wise rewrite `Mentions.RewriteMentions`. The source's `str_replace` is `Mentions.ReplaceInTurn` over usersInfo in the order the user list has; the two differ when one listed mention is a prefix of a later one (see Findings).
- Bot.Bot.SyncAnswer: the headers, `http_response_code`, `echo json_encode` and the `(array)` cast of the answer are output and left out. The method states only what goes out.
- The array keys that `array_unique` and `unset` leave with gaps are lost: lists are modelled as sequences, so a written-back list is its values in order.
- A non-string `text` field of a webhook post is not modelled: the text is a string. The other fields are checked for their types when the Command is built.
- Late static binding of the class constants is modelled as the constants of the classes themselves, because no subclass overrides them in this code.
- src/Exception/Request/UnexpectedResponseException.php and src/Exception/Request/UserNotFoundException.php are not part of this model. Both are used only as error kinds (`UnexpectedResponse`, `UserNotFound`).
- A nested placeholder against an unbracketed argument is modelled as the code does it: `/set [key[sub]]` against `/set foo[bar]` binds `key[sub]` to `bar` (CommandExamples.UnbracketedNestedArgument).

## Findings

| source | as written | input that shows it | evidently intended | confidence | as-written member | corrected member |
|---|---|---|---|---|---|---|
| src/Command/SimpleCommand.php:56 | The argument pattern is built from the command line (`$command`), not from the template (`$this->rawCommand`, as the other branch and the parameter name `$raw` have it). Only the template's first token and group count are then compared. A line with fewer groups reads a missing segment, and `preg_quote(null)` is a TypeError under strict types. | Template `/show order [id]` with line `/show banana [5]` is accepted with id = 5 (CommandExamples.LiteralIgnored). Template `/show [id]` with line `/show 5` raises a TypeError instead of returning false (CommandExamples.MissingPlaceholder). | The pattern is built from the template, so its literal text must match and a line without the group is rejected | medium, not executed | SimpleCommand.TryParseCommandAsWritten | SimpleCommand.TryParseCommand |
| src/Bot.php:719 | `str_replace` with arrays applies each mention's replacement in turn over the whole text. A mention that is a prefix of another, such as `@User-1` in `@User-12`, rewrites the front of the longer one. | Text `@User-1 @User-12` with user 1 listed before user 12 becomes the markup of user 1, a space, the markup of user 1 again and "2" (Mentions.PrefixMentionsDisagree, Bot.PrefixMentionsSearched). The outcome of str_replace depends on the order of usersInfo, which is the order of the user list. | Each mention found by the pattern is replaced by its own user's markup | high, not executed | Mentions.ReplaceInTurn | Mentions.RewriteMentions |
