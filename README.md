# quant-optik terminal, modelled in Dafny

quant-optik is a browser "terminal" for learning quantum optics. The user
types a command line and the terminal does three things with it:

- it echoes the line into a scrollback of output lines;
- it looks the first word up in a fixed table of eleven commands
  (`help`, `ask`, `explain`, `quiz`, `derive`, `papers`, `clear`, `login`,
  `logout`, `register`, `theme`);
- it appends what the command returns.

A login form next to the terminal keeps a plaintext registry of users in
browser storage. The `papers` command pulls paper titles out of the arXiv
search feed before asking a chat-completion API to summarise them.

This project models the following in Dafny and proves properties of them:

- **The dispatcher.** `Terminal.Terminal` is a class holding the
  scrollback as a `seq<OutputLine>`. Each output line is a text and a flag;
  the flag marks the echo and the error-styled lines.
  - `Submit` trims the input, splits it on single spaces, echoes it, looks
    the command up and appends at most one more line.
  - It is proved against the specification function `Terminal.Scrollback`.
    The lemmas beside it say what that function keeps, adds and removes.
- **The command table and its handlers** (module `Commands`).
  - The handlers are one function from the handler, the arguments and the
    outside world to what the handler returns or throws.
  - The `help` listing is proved to list each command once, in table
    order, in aligned columns.
  - Also proved: the `theme` whitelist, the argument guards and default
    topics of the AI-backed commands, and the fixed replies of the rest.
- **The user registry** (module `Credentials`). `Registry` is a class with
  the user map, the signed-in user and the stored copy of the map. Its
  methods `Login`, `Register` and `Logout` state their whole new state.
  The order of the registration checks is a pure function.
- **arXiv title extraction** (module `Assistant`).
  - A left-to-right scanner models the global pattern `<title>[^<]+`.
  - On top of it come the `slice(1, 6)`, the tag stripping and the join.
  - The scanner's match positions are proved to be leftmost, greedy,
    increasing and non-overlapping, with no match starting in a gap, and
    to be the only positions that meet those conditions.
  - The failure sentinel is proved to be returned whenever the request
    fails or the feed holds no match. The converse does not hold: a feed
    whose only picked title is `arXiv API Error` yields the same text, so
    a caller cannot tell it apart from a failure.
- **The JavaScript string operations** the code relies on (module `Text`):
  `trim`, `split` on one character, `join`, `padEnd`, and `replace` of a
  literal string.

The network and the page are parameters of the model:

- `Commands.Env` holds the chat-completion endpoint as a function from
  prompt and context to an answer or an error message.
- It holds the HTTP GET of the arXiv feed as a function from URL to an
  optional body.
- It records whether the `#login-modal` element is missing. Reading its
  `style` then throws, and that is the only way a handler can throw: the
  two network helpers catch everything. The two form buttons read it too:
  a successful login or registration hides the modal after updating the
  registry, so when it is missing the listener throws before printing its
  welcome or announcement.

Three behaviours of the code a reader might not expect:

- The echo is the *trimmed* input, not the raw input.
- A blank line is not a no-op: it echoes an empty line and then prints
  `Command not found: ` (see `Terminal.BlankInput`).
- Splitting is on the single character `' '`, so doubled spaces give empty
  tokens.

## Model

| member | source | states |
|---|---|---|
| Text.Trim | quant-optik.js:215 | the trimmed input is an infix of the input with only JavaScript whitespace before and after it, and it neither starts nor ends with whitespace |
| Text.TrimIdempotent | quant-optik.js:215 | trimming an already trimmed input changes nothing |
| Text.Split | quant-optik.js:218 | `split(' ')` yields at least one piece, and no piece contains the separator |
| Text.SplitCount | quant-optik.js:218 | `split(' ')` yields one more piece than there are separators |
| Text.Join | quant-optik.js:45 | `join(sep)`: the pieces in order with the separator between neighbours; `JoinSplit` and `SplitJoin` make it the inverse of `split` |
| Text.JoinSplit | quant-optik.js:218 | joining the split pieces with the separator gives back the string, so the command token and the arguments together are exactly the trimmed input |
| Text.SplitJoin | quant-optik.js:42-45 | splitting a join of separator-free pieces gives back the pieces (used to read the help text back line by line) |
| Text.PadEnd | quant-optik.js:44 | `padEnd` keeps the string as a prefix, pads with spaces only, and reaches the requested width unless the string is already longer |
| Text.ReplaceFirst | quant-optik.js:273 | `replace` with a literal pattern removes a leading occurrence and leaves a string without one unchanged |
| Assistant.QueryAI | quant-optik.js:29-33 | an answered request yields the answer's text; a failed one yields `AI Error: ` followed by the error message, and nothing is thrown |
| Assistant.RunEnd | quant-optik.js:273 | the greedy `[^<]+` run stops at the first `<` or at the end of the text |
| Assistant.ArxivUrl | quant-optik.js:271 | the URL is the fixed search base followed by the query, character for character and unescaped |
| Assistant.GreedyRunEnd | quant-optik.js:273 | a run free of `<` that stops at a `<` or at the end of the text stops where `RunEnd` says, so the greedy run is unique |
| Assistant.Spans | quant-optik.js:273 | the positions the global match visits: each a greedy match, no match starting before the first or in a gap between two, the search for the next beginning where the previous ended, and none after the last |
| Assistant.LeftmostGreedyOrdered | quant-optik.js:273 | the matches lie after the search start, in increasing order, each ending before the next begins |
| Assistant.SpansUnique | quant-optik.js:273 | any sequence of positions meeting the leftmost-greedy conditions is the one `Spans` computes |
| Assistant.MatchText | quant-optik.js:273 | the text at a greedy match position is `<title>` followed by a non-empty run free of `<` |
| Assistant.Scan | quant-optik.js:273 | every element the global match returns is `<title>` followed by a non-empty run free of `<` |
| Assistant.ScanAtSpans | quant-optik.js:273 | the k-th element the global match returns is the text of the feed at the k-th leftmost-greedy position, so nothing is invented |
| Assistant.ScanEmptyIff | quant-optik.js:273 | the match finds nothing exactly when `<title>` followed by a character other than `<` occurs nowhere in the feed |
| Assistant.StripTag | quant-optik.js:273 | removing the tag from a match leaves a non-empty title free of `<`, and tag plus title is the match |
| Assistant.PaperTitles | quant-optik.js:273 | no titles exactly when there is no match; otherwise the second to the sixth match (at most five) in order, each with its tag removed, non-empty and free of `<` |
| Assistant.FetchArxivPapers | quant-optik.js:269-277 | the request, the match, the `slice(1, 6)`, the tag removal and the newline join, with `arXiv API Error` for a failed request or a `null` match; its cases are stated by `FetchArxivPapersCases` |
| Assistant.FetchArxivPapersCases | quant-optik.js:269-277 | a failed request or a feed without a match gives `arXiv API Error`, exactly one match gives the empty string, otherwise the picked titles are joined by newlines |
| Assistant.NoTitleGivesSentinel | quant-optik.js:273-276 | a feed in which the pattern starts nowhere yields the sentinel |
| Commands.Find | quant-optik.js:220 | lookup fails exactly when no entry has the name; a found entry has that name and is in the table |
| Commands.Lookup | quant-optik.js:221 | `commands[command]` finds nothing exactly when no entry has the name; what it finds is an entry of the table with that name |
| Commands.TableNamesUnique | quant-optik.js:37-126 | the eleven command names are pairwise distinct |
| Commands.LookupFindsEveryEntry | quant-optik.js:220 | every entry of the table is found under its own name |
| Commands.LookupHandler | quant-optik.js:89-109 | a name reaches the `clear` handler exactly when it is `clear`, and the `logout` handler exactly when it is `logout` |
| Commands.MaxNameLength | quant-optik.js:41 | the result is at least every name's length and equal to the length of some name |
| Commands.HelpRowLayout | quant-optik.js:44 | a listing line has a two-space indent, the name, then spaces up to column width + 4, then the description |
| Commands.HelpText | quant-optik.js:40-45 | the `help` reply: the header, then the aligned rows joined by newlines; `HelpLines` and `HelpListing` state its layout |
| Commands.HelpListing | quant-optik.js:40-45 | the help text is the header `Available commands:` then one line per entry in table order; each line reads back as its entry's name and ends with the description at the same column |
| Commands.HelpListsEachOnce | quant-optik.js:40-45 | with unique names, no two listing lines show the same name |
| Commands.TableWellFormed | quant-optik.js:37-126 | the real table meets the listing's conditions (one-word names, no newlines) and its longest name has 8 characters |
| Commands.ThemeColor | quant-optik.js:120-121 | the colour is always one of green, amber and blue; it is the first argument when that is one of them, and green otherwise, a missing argument included |
| Commands.ThemeFallback | quant-optik.js:117-124 | `theme` never throws and replies `Theme set to ` with the chosen colour |
| Commands.Execute | quant-optik.js:37-126 | a handler throws exactly when it is `login` or `register` and the modal is missing, with that message; only `clear` wipes the screen and only `logout` ends the session; only `clear` and the AI-backed handlers can return the empty string |
| Commands.JoinedOr | quant-optik.js:65 | the `or` default of `quiz` and `papers`: the joined arguments, or the fallback when they join to the empty string |
| Commands.AiAnswer | quant-optik.js:47-85 | an AI-backed handler from `!args.length` and `args.join(' ')`: the guard text of `ask`, `explain` and `derive` when there are no arguments, otherwise the AI's answer to the handler's prompt and context |
| Commands.AskAi | quant-optik.js:47-85 | an AI-backed handler run on its argument list, through `AiAnswer` |
| Commands.Builtin | quant-optik.js:88-125 | the handlers that do not ask the AI: only `login` and `register` can throw, only `clear` wipes the screen, only `logout` ends the session, and only `clear` returns the empty string |
| Commands.AiOutcome | quant-optik.js:47-85 | an AI-backed handler never throws, has no side effect on the terminal, and reads its arguments only as `!args.length` and `args.join(' ')` |
| Commands.GuardsIgnoreTheWorld | quant-optik.js:48-76 | `ask`, `explain` and `derive` without arguments give their fixed guard strings, whatever the AI or the network would answer |
| Commands.FixedReplies | quant-optik.js:89-116 | `clear`, `login`, `logout` and `register` ignore their arguments and return their fixed strings, `clear` the empty one |
| Commands.DefaultTopics | quant-optik.js:63-86 | `quiz` and `papers` whose arguments join to nothing behave as if given `random quantum optics topic` and `quantum optics` |
| Commands.ArgumentsOnlyJoined | quant-optik.js:48-86 | the AI-backed handlers depend on non-empty arguments only through their space-joined text |
| Commands.PapersForwardsSentinel | quant-optik.js:82-85 | when the arXiv request fails, `papers` still asks the AI, with the sentinel as the list of papers |
| Credentials.Decide | quant-optik.js:255-265 | a known name is taken whatever the lengths; an unknown one is created exactly when the name has at least 3 and the password at least 6 characters |
| Credentials.Accepts | quant-optik.js:242 | `users[username]?.password === password`: the name is registered with exactly that password; an unknown name never matches |
| Credentials.RegisterThenLogin | quant-optik.js:242-262 | after a successful registration the new user logs in with that password, every other user logs in as before, and the name is taken for any further registration |
| Credentials.Registry.constructor | quant-optik.js:236 | the registry loads the stored map, or an empty one, with nobody signed in |
| Credentials.Registry.Login | quant-optik.js:238-249 | login succeeds exactly when the name is registered with exactly that password; success signs the user in, failure changes nothing |
| Credentials.Registry.Register | quant-optik.js:251-266 | the outcome is `Decide` on the old map; a creation adds exactly the new entry with empty preferences, stores the map and signs the user in; otherwise nothing changes |
| Credentials.Registry.Logout | quant-optik.js:105-107 | nobody is signed in afterwards; the map and the stored copy are unchanged |
| Terminal.Parse | quant-optik.js:215-218 | the input is the trimmed line, and the command token followed by the arguments is its split on single spaces |
| Terminal.ParseTokens | quant-optik.js:215-218 | the tokens joined by single spaces give back the trimmed input, no token holds a space, and the arguments are empty exactly when their join is |
| Terminal.BlankParse | quant-optik.js:215-218 | a blank line parses to the empty command with no arguments |
| Terminal.Reply | quant-optik.js:221-230 | the line after the echo: `Command not found: ` and the name, flagged, for an unknown name; `Error: ` and the message, flagged, for a throw; the returned text, unflagged, unless it is empty |
| Terminal.Scrollback | quant-optik.js:219-230 | the scrollback after one line: the old lines and the flagged echo of the trimmed input, both wiped when the handler is `clear`'s, then the reply |
| Terminal.EffectByName | quant-optik.js:89-109 | a line wipes the screen exactly when its command is `clear` and ends the session exactly when it is `logout` |
| Terminal.ReplyShape | quant-optik.js:220-230 | at most one line follows the echo, and it is flagged exactly when it reports an unknown command or an exception |
| Terminal.AppendOnly | quant-optik.js:219-230 | every line other than `clear` keeps the old scrollback unchanged, appends the flagged echo of the trimmed input, and then at most one more line |
| Terminal.ClearEmpties | quant-optik.js:89-95 | after `clear` the scrollback is empty, its own echo included |
| Terminal.LogoutReply | quant-optik.js:103-109 | `logout` appends the echo and `Logged out successfully`, unflagged |
| Terminal.UnknownCommand | quant-optik.js:228-230 | a name not in the table appends the echo and `Command not found: ` with the name, both flagged |
| Terminal.BlankInput | quant-optik.js:213-230 | a blank line appends an empty flagged echo and `Command not found: ` |
| Terminal.KnownCommand | quant-optik.js:220-227 | a known command keeps the echo unless it is `clear`, then appends `Error: ` with what the handler threw, flagged, or its text, unflagged, and nothing for an empty text |
| Terminal.LoginLine | quant-optik.js:242-248 | the login reply is flagged exactly when the credentials are rejected, and an unknown name always gets `Invalid credentials` |
| Terminal.RegisterLine | quant-optik.js:255-265 | the register reply is flagged exactly when no account was created |
| Terminal.LoginMessages | quant-optik.js:242-248 | matching credentials give `Welcome back, <name>!`, unflagged; any other gives `Invalid credentials`, flagged |
| Terminal.RegisterMessages | quant-optik.js:255-265 | a known name gives `Username taken`; an unknown name with fewer than 3 or a password with fewer than 6 characters gives `Username (3+) and password (6+) too short`, both flagged; otherwise `Account created for <name>!`, unflagged |
| Terminal.Terminal.constructor | quant-optik.js:235-236 | a fresh terminal has an empty scrollback over the loaded registry |
| Terminal.Terminal.Submit | quant-optik.js:213-232 | the new scrollback is `Scrollback` of the old one and the parsed line; `logout` signs the user out and nothing else touches the registry |
| Terminal.Terminal.Dispatch | quant-optik.js:219-231 | the echo, the lookup, the not-found line or the handler's reply, as `Scrollback` states |
| Terminal.Terminal.Run | quant-optik.js:221-227 | running a known handler: `clear` empties the lines first, then the thrown message or the non-empty text is appended; only `logout` signs the user out |
| Terminal.Terminal.SubmitLogin | quant-optik.js:238-249 | the login button signs the user in exactly when the credentials match and appends its reply line, except that a successful login with the modal missing throws before the welcome is printed |
| Terminal.Terminal.SubmitRegister | quant-optik.js:251-266 | the register button changes the registry only on a creation, by exactly the new entry, saved and signed in, and appends the reply for `Decide`'s outcome, except that a creation with the modal missing throws before the announcement is printed |

## Left out

- Network I/O: the chat-completion request and the arXiv `fetch` are oracle parameters. The request body, the system-prompt template, the model name and the sampling parameters (a floating-point temperature) are not modelled.
- Assistant.QueryAI: the endpoint is a pure function of prompt and context, so the model cannot express two identical requests getting different answers. An answer whose content is missing is modelled as the empty string, which prints nothing, as `undefined` does.
- Assistant.FetchArxivPapers: the query is placed into the URL unescaped, as in the code. A `match` result of `null` that makes `.slice` throw is modelled directly as the sentinel.
- The page: CSS injection, focus, `innerHTML` rendering, showing and hiding the login modal, the `--primary-color` update of `theme`, and scrolling. The only page fact kept is whether `#login-modal` is missing.
- The first, duplicate `keydown` listener and how it interacts with the second. That interaction is event scheduling.
- `addOutput` is not defined in the file. It is modelled as appending one line to the scrollback, with the flag `false` when omitted.
- Browser storage and JSON: the stored map is a field of the registry, set to the user map on every successful registration. Serialisation is not modelled.
- JavaScript property lookup: `commands[name]` and `users[name]` are modelled as plain membership. Names inherited from the object prototype (`toString`, `__proto__`, …) are not treated as present.
- Credentials.Decide: lengths are counted in Unicode characters, not in the UTF-16 code units `.length` counts. The two differ only for characters outside the Basic Multilingual Plane.
- `async`/`await`: each command's reply is appended before the next line is dispatched. The model does not express a later line overtaking a slow network command.
