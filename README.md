# Chat client controller, modelled in Dafny

This project models the browser-side controller of a small Socket.IO chat
application (`static/js/main.js`). The controller is a set of event handlers
that share a little state:

- the current user record (`nickname`, `isNicknameSet`);
- the nickname and message input fields;
- the children of the messages container (the rendered log);
- the class of the connection-status indicator;
- the events emitted on the socket.

The model has seven modules:

- `JsString` (`js_string.dfy`) covers ECMAScript `String.prototype.trim`
  (ECMA-262, section 22.1.3.32) over the WhiteSpace and LineTerminator code
  points. It also has the decimal rendering of an integral Number and its
  inverse.
- `Html` (`html.dfy`) covers `escapeHtml`: the text-node case of "escaping a
  string" in HTML fragment serialisation (HTML Living Standard, section 13.3).
  It also covers what `innerHTML =` makes of that markup when parsing it:
  - newline normalisation (section 13.2.3.5);
  - decoding of the character references (`Unescape`);
  - dropping of U+0000 in body content (section 13.2.6.4.7).
  It also covers the split of a class attribute into tokens on ASCII white
  space (WHATWG Infra Standard).
- `Render` (`render.dfy`) covers the payload of `displayMessage`, the node it
  builds and the user-count suffix.
- `MessageLog` (`message_log.dfy`) covers the 500-node bound on the log and
  the first-in first-out eviction it causes.
- `Connection` (`connection.dfy`) covers outbound events, inbound socket
  events and the reaction table of the `socket.on` handlers.
- `ChatClient` (`chat_view.dfy`) holds nickname resolution, message
  validation, the pure send step and the class `ChatView`. Its methods are
  the handlers, and they update the state in place.
- `Options` (`options.dfy`) is the optional-value type used for payload
  fields that may be missing.

Strings are sequences of `char`, one per UTF-16 code unit, as JavaScript's
`length` and `substring` count them. This holds for characters of the Basic
Multilingual Plane; "## Left out" says what changes for the others. Randomness and the clock are
parameters. `suffix` stands for the result of
`Math.random().toString(36).substr(2, 4)`: at most four base-36 digits.
`now` stands for the result of `toLocaleTimeString`: any string. Emitting
on the socket appends to `sent`.

Three facts about `displayMessage` shape the model:

- The timestamp of a chat node is inserted as markup, without escaping
  (main.js:64). The username, the message text and the status text are
  escaped. The user count is a number and is interpolated as its decimal
  text.
- After each append, exactly one node is removed when the log holds more
  than 500 (main.js:75-77).
- The bound is the literal 500 (main.js:75).

## Model

| member | source | states |
|---|---|---|
| `JsString.Trim` | static/js/main.js:103 | The trimmed string is a slice of the input. Only white space lies outside it, and it neither starts nor ends with white space. It is empty exactly when the input is all white space. |
| `JsString.TrimUnique` | static/js/main.js:130 | Any slice with only white space around it and none at its ends is `Trim`'s result. So the contract of `Trim` determines the result. |
| `JsString.TrimIdempotent` | static/js/main.js:130 | Trimming an already trimmed string changes nothing. |
| `JsString.IntToStringRoundTrip` | static/js/main.js:217 | The decimal text interpolated for a number is a well-formed integer literal that reads back as that number. |
| `Html.EscapeText` | static/js/main.js:95-99 | The serialised text never contains `<` or `>`, is at least as long as the input, and is empty only for empty input. |
| `Html.EscapeHtml` | static/js/main.js:95-99 | A missing or empty argument yields the empty string. The result never contains a tag delimiter. |
| `Html.UnescapeEscapeText` | static/js/main.js:95-99 | Reading back the escaped markup gives exactly the original string, so escaping loses nothing. |
| `Html.NormalizeEscapeText` | static/js/main.js:95-99 | Escaping neither creates nor splits a CR LF pair, so newline normalisation by the parser commutes with escaping. |
| `Html.ParsedEscapeText` | static/js/main.js:95-99 | Markup produced by escaping, once parsed back, shows the original string with its newlines normalised and its U+0000 dropped. Nothing else changes. |
| `Html.PlainTextShownVerbatim` | static/js/main.js:95-99 | A string with no CR and no U+0000 is shown exactly as it is. |
| `Html.ParsedEscapeHtml` | static/js/main.js:95-99 | An escaped field, once parsed, shows the field's string up to newline normalisation and dropped U+0000. It shows exactly the string when the string has neither, and nothing when the field is missing or empty. |
| `Render.UserCountText` | static/js/main.js:56 | The user-count suffix is present exactly when `user_count` is truthy (present and non-zero). Between its fixed opening and closing text, it shows that number. |
| `Render.RenderNode` | static/js/main.js:48-66 | A status node is made exactly when `isStatus` is set. It shows the escaped `msg`, and the count suffix is `UserCountText` of `user_count`. That suffix is non-empty only for a truthy count. A chat node shows the escaped username and message. It has a timestamp element exactly when `timestamp` is truthy, holding the timestamp verbatim. Every escaped field is free of tag delimiters. |
| `Render.RenderShowsPayloadText` | static/js/main.js:51-65 | Once `innerHTML` parses the node, a reader sees the payload's `msg`, `username` and `message`, changed only by newline normalisation and the dropping of U+0000. |
| `Render.PlainMessageShownAsSent` | static/js/main.js:61-63 | A chat text with no CR and no U+0000 is shown exactly as sent. |
| `Render.ScriptBodyIsInert` | static/js/main.js:61-65 | The body `<script>x</script>` is rendered with no tag delimiter and, once parsed, shows as that literal text. A timestamp `<b>` is inserted as markup. |
| `MessageLog.AppendBounded` | static/js/main.js:68-77 | The new node becomes the last child. At most one node is removed, and only the oldest. The survivors keep their order. A log under 500 loses nothing. A log of at most 500 stays at most 500. |
| `MessageLog.AppendAllKeepsNewest` | static/js/main.js:68-77 | Starting from a log within the bound, any run of displays leaves exactly the newest 500 of old log plus new nodes, in order (FIFO eviction). |
| `MessageLog.OverflowKeepsLast` | static/js/main.js:73-77 | After 500 or more further displays, no earlier node is left. The log is exactly the last 500 nodes displayed. |
| `Connection.StatusClassTokens` | static/js/main.js:36-40 | The indicator's class tokens are `connection-status` followed by the tokens of the status. For a status without white space, that is the status itself, or nothing when it is empty. |
| `Connection.KnownStatusClasses` | static/js/main.js:194-271 | For `''` the indicator has the single class `connection-status`. For `disconnected` and `connecting` it has `connection-status` plus that word. |
| `Connection.ReactTable` | static/js/main.js:192-275 | `connect` and `reconnect` set the status to `''` and are the only events that emit `get_users`. `disconnect`, `reconnect_failed` and `connect_error` set `disconnected`. `reconnect_attempt` sets `connecting`. `response`, `status`, `user_list` and `error` leave the status alone. Every event displays exactly one node, except `user_list` and a `response`, `status` or `error` whose argument is undefined or null; reading a field of that argument throws. `error` shows its `msg`, or the fixed fallback text when `msg` is falsy. |
| `Connection.AttemptNoticeShowsNumber` | static/js/main.js:213-219 | The reconnect-attempt notice contains the attempt number between its fixed texts, and that number reads back. |
| `ChatClient.CapNickname` | static/js/main.js:107 | The capped nickname is a prefix of the trimmed input and at most 20 long. It equals the input when that is at most 20 long and is exactly 20 long otherwise. |
| `ChatClient.ResolveNickname` | static/js/main.js:102-126 | The nickname is 1 to 20 long. It counts as set exactly when the trimmed field is non-empty, and is then that field cut to 20. Otherwise it is `user` plus the random suffix, at most 8 long, and not set. |
| `ChatClient.ValidateMessage` | static/js/main.js:129-141 | An all-white-space message is rejected as empty. One whose trimmed length exceeds 500 is rejected as too long. Anything else is accepted as the trimmed text, 1 to 500 long, with no white space at either end. |
| `ChatClient.Send` | static/js/main.js:129-163 | A rejected message leaves the nickname, the flag, the input and the emitted events untouched. An accepted one emits exactly one more event, carrying the trimmed text, the newly resolved nickname and the time. It resolves the nickname as `ResolveNickname` does and empties the input. |
| `ChatClient.SendKeepsEventsWellFormed` | static/js/main.js:144-158 | If every emitted `message` event has a trimmed text of 1 to 500 and a nickname of 1 to 20, that stays true after a send. |
| `ChatClient.ChatView.constructor` | static/js/main.js:29-33 | Initially the user record is empty and not set, the inputs and the log are empty, and nothing has been emitted. |
| `ChatClient.ChatView.EditNickname` | static/js/main.js:25 | The user's typing sets the nickname field's value. |
| `ChatClient.ChatView.EditMessage` | static/js/main.js:24 | The user's typing sets the message field's value. |
| `ChatClient.ChatView.UpdateConnectionStatus` | static/js/main.js:36-40 | A page with an indicator gets the class for the status. A page without one is unchanged. |
| `ChatClient.ChatView.DisplayMessage` | static/js/main.js:48-77 | The log becomes `AppendBounded` of the old log and the rendered node, and the bound of 500 is kept. |
| `ChatClient.ChatView.SetUserNickname` | static/js/main.js:102-126 | The user record becomes `ResolveNickname` of the nickname field. The return value is the stored nickname. |
| `ChatClient.ChatView.SendMessage` | static/js/main.js:129-163 | The nickname, flag, input and emitted events change exactly as `Send` prescribes, and the class invariant is kept. |
| `ChatClient.ChatView.OnMessageKeypress` | static/js/main.js:168-173 | Enter without Shift performs a send as `Send` prescribes. Any other key changes nothing. |
| `ChatClient.ChatView.OnNicknameKeypress` | static/js/main.js:176-182 | Enter commits the nickname as `ResolveNickname` prescribes. Any other key changes nothing. |
| `ChatClient.ChatView.OnNicknameBlur` | static/js/main.js:185-187 | Leaving the nickname field commits the nickname as `ResolveNickname` prescribes. |
| `ChatClient.ChatView.ApplyReaction` | static/js/main.js:192-275 | A reaction sets the indicator, displays its node and emits its event, each only when the reaction has one. Nothing else changes. |
| `ChatClient.ChatView.Handle` | static/js/main.js:192-275 | Each socket event changes the indicator, the log and the emitted events exactly as `React` describes. The log bound and the nickname bound are kept. |

## Left out

- Building the Socket.IO connection and its options (main.js:13-20) is left out, and so is the network itself. Emits are appended to `sent`, and received events are arguments of `Handle`. Which events the transport actually delivers, and when, is not modelled.
- The two 3-second `setTimeout` callbacks in `displayMessage` (main.js:79-91) only change CSS `display`. They hide the first `.message.status` and `.usersObjectNum` in the document, which need not be the node just added. They are timer-driven and are not modelled.
- The visibility-change refocus timer (main.js:288-295), focusing on load (main.js:283-285) and disconnecting on unload (main.js:278-280) are left out. They are page-lifecycle side effects.
- Focus, `alert`, input styling, the `title` attribute and scrolling (main.js:71, 114-115, 121-122, 134, 139, 162) are left out, as is console logging. They are UI side effects with no state to reason about. `Validation` records which of the rejection paths ran.
- `Math.random()` (main.js:118) and `toLocaleTimeString` (main.js:150-154) are parameters: `suffix`, at most four base-36 digits, and `now`, any string.
- `displayStatus` (main.js:41-45) is never called, and it reads an undefined variable. It is not modelled.
- The `window.chatAppInitialized` guard (main.js:4-8) makes the setup run once per page. The model's counterpart is constructing one `ChatView`.
- The template markup around the interpolated values is not recorded: layout white space, wrapper elements and their inline styles. A `Node` records only the interpolated parts and its kind (status or chat).
- `char` is a Unicode scalar value in Dafny, so one `char` is one UTF-16 code unit only for characters of the Basic Multilingual Plane. A character outside it (an emoji such as U+1F600) is one `char` in the model but two code units in JavaScript. A lone surrogate cannot be represented at all.
  - `ChatClient.ResolveNickname` and `ChatClient.CapNickname` count each such character once toward the 20-unit nickname limit (main.js:107), where the source counts it twice. Fifteen U+1F600 are kept whole in the model, while the source cuts them to ten.
  - The model cannot show `substring(0, 20)` splitting a surrogate pair.
  - `ChatClient.ValidateMessage` counts each such character once toward the 500-unit message limit (main.js:138). Three hundred U+1F600 are accepted in the model, while the source (600 code units) alerts and sends nothing.
  - The emoji outside that plane at the end of three notice texts (🎉, 🔄, 💚) count as one code unit instead of two.
- `JsString.IntToString`: agrees with JavaScript's Number-to-string conversion only for integers of magnitude at most 2^53. Above that, JavaScript prints the shortest digits that round-trip to the same double (`${2**64}` is `18446744073709552000`), while the model prints the exact integer. From 10^21 on, JavaScript uses exponent notation, which the model does not. `user_count` and the attempt number are modelled as integers, so non-integral, `NaN` and string values are not covered.
- Payload fields are modelled as optional strings. `escapeHtml` applied to a non-string truthy value (a number, say) is not covered.
- The `user_list` handler only logs its payload. It is modelled as an event with no effect.
- `app.py` (the Flask and Flask-SocketIO server) is not part of this model.
