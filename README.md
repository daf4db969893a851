# Orders bot: command parser and order composer

A Dafny model of the order-forwarding logic of the Discord orders bot (`ordersbot.py`).

When a message arrives and its author is not the bot itself, `on_message` searches the text with `^!sendorder(\[[^\]]*])? (.+)`. The search is case-insensitive and multiline. The first match supplies two captures:
- an optional bracket group, which overrides the affiliation;
- the order body.

The bot then composes an embed:
- its title is `Order from <affiliation>`;
- the affiliation is the bracket group with every `[` and `]` removed, or the author's top role when no group was captured;
- its description is the stripped body.

The embed is sent with the message's attachments, each converted to a file, in their original order.

The project has five modules:
- `Wrappers`: the `Option` type.
- `Text`:
  - Python's `str.strip()`, over the full `str.isspace()` set;
  - `str.replace(c, "")` for one character;
  - a forward character search.
- `OrderCommand`: the regular expression, modelled two ways.
  - `MatchAt` is an operational model of the engine at one position. It includes the backtracking when no space follows a bracket group, and the greedy `(.+)`.
  - `PatternAt` is a declarative statement of the pattern.
  - The lemmas prove `MatchAt` sound and complete with respect to `PatternAt`. They also prove that `ParseOrder` returns exactly the first match, at the first line start where the pattern matches.
- `OrdersBot`:
  - messages and orders;
  - the self-message guard;
  - affiliation and title;
  - `files_from_attachments`, as a method with a loop, proved against the function `Converted`;
  - `OnMessage`, the whole decision.
- `Scenarios`: concrete messages and what the bot does with them, derived from the general lemmas.

Several Python regular-expression details are modelled explicitly:
- `^` matches at the start of the text and after every `\n`.
- `.` never matches `\n`.
- `[^\]]` does match `\n`, so an open bracket group may run over several lines.
- `re.IGNORECASE` folds the prefix letters' ASCII capitals onto them. It also matches U+017F LATIN SMALL LETTER LONG S against `s`.

## Model

| member | source | states |
|---|---|---|
| OrderCommand.PrefixWordLetters | ordersbot.py:71 | the prefix test compares the text with `!sendorder` position by position, letters case-insensitive |
| OrderCommand.BracketGroupAtSpec | ordersbot.py:33 | the captured group 1 is empty or `[`…`]` with no `]` inside, it is the text at that position, and it is empty exactly when no `[` there is closed later on |
| OrderCommand.RestOfLineSpec | ordersbot.py:33 | greedy `(.+)` takes a run of non-newline characters that ends at a newline or at the end of the text |
| OrderCommand.MatchAtSound | ordersbot.py:33-34 | what the engine model returns at a position is a match of the pattern, with the body running to the end of the line |
| OrderCommand.MatchAtComplete | ordersbot.py:33-34 | wherever the pattern matches, the engine model finds a match with the same group, and every possible body is a prefix of its body |
| OrderCommand.GreedyMatchIs | ordersbot.py:33-34 | a match whose body reaches the end of the line is exactly the one the engine returns |
| OrderCommand.NoMatchAt | ordersbot.py:33-34 | where the engine model finds nothing, no choice of captures matches the pattern |
| OrderCommand.FirstMatchFrom | ordersbot.py:34 | the scan over line starts returns a matching line start, and no earlier line start from its starting point matches |
| OrderCommand.ParseOrder | ordersbot.py:33-38 | a found order has a well-formed group and a non-empty body without newline |
| OrderCommand.ParseOrderNone | ordersbot.py:34-36 | no order is found if and only if the pattern matches at no line start of the text |
| OrderCommand.ParseOrderFirstMatch | ordersbot.py:34-38 | a found order is the first match: at a line start, body to the end of the line, no match at any earlier line start |
| OrderCommand.FirstMatchPosition | ordersbot.py:34-38 | the first match sits at the line start the scan returns |
| OrderCommand.FirstMatchParsed | ordersbot.py:34-38 | the first match is what the parser returns |
| OrderCommand.ParseOrderIsFirstMatch | ordersbot.py:34-38 | the parser returns `c` if and only if `c` is the first match in the text, on whatever line it is |
| OrderCommand.ParseOrderOneLine | ordersbot.py:33-34 | a one-line message holds an order exactly when its line matches at its start |
| OrderCommand.LaterLinesIgnored | ordersbot.py:34-38 | once the first line is an order, nothing after it changes the result |
| OrderCommand.CommandLine | ordersbot.py:33-38 | prefix (any case), optional group, one space, and a non-empty body with no newline parse to that group and body |
| OrderCommand.NoPatternWithoutBang | ordersbot.py:33 | a line that does not start with `!` holds no match |
| OrderCommand.CommandOnSecondLine | ordersbot.py:33-38 | a command line after a first line that does not start with `!` is found there, with its group and body |
| Text.Strip | ordersbot.py:39 | `strip()` returns no longer a string that neither starts nor ends with whitespace |
| Text.StripCharacterised | ordersbot.py:39 | `strip()` is the only cut of whitespace-only ends whose remaining part has no whitespace at either end |
| Text.StripKeepsTrimmed | ordersbot.py:39 | a string without whitespace at either end is left unchanged |
| Text.StripIdempotent | ordersbot.py:39 | stripping twice is stripping once |
| Text.StripAllSpace | ordersbot.py:39 | a body of blanks strips to the empty description |
| Text.StripFromSource | ordersbot.py:39 | stripping introduces no character, so the description holds no newline |
| Text.Without | ordersbot.py:49 | `replace(c, "")` leaves exactly the characters other than `c`, and is no longer than its input |
| Text.WithoutSingle | ordersbot.py:49 | on one character, `replace(c, "")` deletes it if it is `c` and keeps it otherwise |
| Text.WithoutAbsent | ordersbot.py:49 | deleting a character that does not occur changes nothing |
| Text.WithoutCounts | ordersbot.py:49 | `replace(c, "")` keeps every character other than `c` exactly as often as it occurs, and drops every `c` |
| Text.WithoutAppend | ordersbot.py:49 | deletion commutes with concatenation, so the order of the remaining characters is kept |
| Text.FindChar | ordersbot.py:33 | the search returns the first position at or after the start holding the character, or the length |
| Text.FindCharUnique | ordersbot.py:33 | the search result is the only position with those properties |
| OrdersBot.Affiliation | ordersbot.py:49 | no group gives the top role; a group gives a string with no `[` or `]` that holds exactly the group's other characters |
| OrdersBot.AffiliationOfGroup | ordersbot.py:49 | a group `[x]` gives `x` with its `[`s deleted, in order |
| OrdersBot.AffiliationOfPlainGroup | ordersbot.py:49 | a group `[x]` with no bracket inside gives exactly `x` |
| OrdersBot.AffiliationOfEmptyGroup | ordersbot.py:49 | `[]` is captured and truthy, so it gives the empty affiliation, not the top role |
| OrdersBot.AffiliationOfNestedBracket | ordersbot.py:49 | `[a[b]` gives `ab` |
| OrdersBot.Title | ordersbot.py:53 | the title is `Order from ` followed by exactly the affiliation |
| OrdersBot.TitleInjective | ordersbot.py:53 | different affiliations give different titles |
| OrdersBot.Converted | ordersbot.py:10-13 | the file list has as many entries as there are attachments |
| OrdersBot.KeepsOrder | ordersbot.py:10-13 | the i-th file is the conversion of the i-th attachment |
| OrdersBot.FilesFromAttachments | ordersbot.py:7-13 | the loop's result is the conversion of the attachments, one file per attachment, in order |
| OrdersBot.OnMessage | ordersbot.py:16-55 | the bot's own messages yield nothing. Otherwise there is an order exactly when the parser finds one. Its title comes from the affiliation of the group and top role, its description is the stripped body with no newline, and its files are the converted attachments |
| OrdersBot.OrderOfCommandLine | ordersbot.py:20-55 | a message from someone else that is one command line, its prefix in any case, becomes the order built from its group and body |
| Scenarios.RejectsGroupWithoutSpace | ordersbot.py:33-36 | `!sendorder[X]hi` is no order |
| Scenarios.RejectsBarePrefix | ordersbot.py:33-36 | `!sendorder` alone is no order |
| Scenarios.RejectsEmptyBody | ordersbot.py:33-36 | `!sendorder ` followed by a newline is no order, even with text on the next line |
| Scenarios.PrefixCaseInsensitive | ordersbot.py:33-34 | `!SendOrder`, `!SENDORDER` and the long-s spelling are all recognised |
| Scenarios.CrimsonGuardOrder | ordersbot.py:33-55 | `!sendorder[Crimson Guard] Attack the north gate` becomes "Order from Crimson Guard" with description "Attack the north gate" |
| Scenarios.CrimsonGuardParsed | ordersbot.py:33-38 | the captures of that message are `[Crimson Guard]` and `Attack the north gate` |
| Scenarios.CrimsonGuardAffiliation | ordersbot.py:49 | the group `[Crimson Guard]` gives the affiliation `Crimson Guard` |
| Scenarios.BracketAfterSpaceIsBody | ordersbot.py:33-53 | in `!sendorder [Blue] go` the bracket is part of the body and the top role is the affiliation |
| Scenarios.BlankBodyIsSent | ordersbot.py:33-55 | `!sendorder[Clan]` followed by blanks is sent as "Order from Clan" with an empty description |
| Scenarios.OpenGroupSpansLines | ordersbot.py:33-34 | a group left open runs over the following lines to the first `]`, swallowing a second command |
| Scenarios.OrderAfterChatter | ordersbot.py:33-38 | an order on the second line, after chatter, is found |
| Scenarios.FirstOfTwoOrders | ordersbot.py:34-38 | of two command lines only the first is used |

## Left out

- The Discord client, its event loop, `client.run` and the token: these are network plumbing.
- The `ORDERS_CHANNEL_ID` lookup, `int()` of it, `get_channel`, and the "Could not find channel" reply and warning (ordersbot.py:24-30): these are configuration and I/O.
  - The code does not return after that reply, so the later `order_channel.send` would fail on a missing channel.
  - An unset variable makes `int(None)` raise.
  - `logging` is only imported when the file runs as a script.
  - None of this is modelled: the model assumes the channel exists.
- The nickname lookup, the debug log, the embed author with its avatar, `order_channel.send` and `add_reaction` (ordersbot.py:42, 46, 58-64): these are foreign calls. `OnMessage` returns the embed and files that would be sent.
- `attachment.to_file()`: an asynchronous library call. It is the function parameter `toFile`, and only the order-preserving loop around it is modelled.
- The identity of `client.user` is the parameter `botUser`. A user is compared by a number.
- `message.author.top_role`: an arbitrary string parameter. A direct-message author has no top role, and the attribute error Python would raise there is not modelled.
- The log-file setup (ordersbot.py:66-68): I/O.
- `CMD_PREFIX` is fixed to `!sendorder` (ordersbot.py:71). Case folding is modelled only for the characters of that prefix; the rest of the pattern has no letters.
- Turn tracking and stored affiliation overrides: the repository's description mentions them, but the code modelled here has neither.
- The repository's description disagrees with the code in the places below. The model follows the code:
  - Several `!sendorder` lines in one message do not give several orders. Only the first match, `parsed[0]`, is used (`Scenarios.FirstOfTwoOrders`).
  - `!sendorder[Faction]` with no body is not forwarded as an empty order. The pattern needs a space and at least one more character on the line, so it is no order at all (`Scenarios.RejectsBarePrefix`, `Scenarios.RejectsEmptyBody`). Only a body of blanks gives an empty description (`Scenarios.BlankBodyIsSent`).
  - The description says the affiliation is never empty. The group `[]` is captured and truthy, so it gives the empty affiliation (`OrdersBot.AffiliationOfEmptyGroup`).
  - The description lets the bracket group follow the prefix with no space after it, so that `!sendorder[X]hi` would be affiliation `X` with body `hi`. The pattern needs a space after the group, so the code sends nothing (`Scenarios.RejectsGroupWithoutSpace`).
  - The description has the command start the message, spelled exactly as the prefix. The code matches at the start of any line, with the prefix's letters in any case (`Scenarios.OrderAfterChatter`, `Scenarios.PrefixCaseInsensitive`).
