# MiraAI chat client: conversation store, escaping, titles and reply text

The chat client in `script.js` keeps several conversations ("chats") in the
browser, sends the user's messages over a WebSocket to an assistant service
and shows the replies. Nearly all of the script is DOM and network glue.
This project models, in Dafny, the deterministic logic inside it:

- **The conversation store** (`ChatModel`, `ChatStore`, `Recency`): a map
  from chat id (the digit string `Date.now()` gives) to
  `{id, title, messages, created}` and an optional active chat id, with `startNewChat`, `loadChat`
  (selection only), `addMessage` (including the first-user-message title rule), the confirmed branch of
  `deleteChat`, the start-up selection of `initialize`, and the
  newest-first ordering those operations and the chat list use. Every
  operation is a pure transition; each keeps the invariant "the active id
  is absent or a key of the map, and every chat is stored under its own
  id", and each states what it leaves unchanged.
- **`escapeHtml`** (`HtmlEscape`): the five-step replace chain, shown equal to
  the per-character substitution `&`->`&amp;`, `<`->`&lt;`, `>`->`&gt;`,
  `"`->`&quot;`, `'`->`&#039;` and inverted by an entity decoder.
- **Title derivation** (`ChatTitle`): `text.replace(/<[^>]+>/g, '')`, its
  first 35 characters, and `...` when the text before stripping is longer
  than 35.
- **Sending** (`Send`): the `sendMessage` guard on the trimmed input and the
  connection, and the HTML (`escapeHtml` plus `<br>` for line feeds) that
  is stored for a typed message.
- **Reply extraction** (`ReplyText`): `candidates[0].content.parts[0].text`
  read by optional chaining over an abstract JSON value, with the `||`
  fallback, for the socket handler and for the image-upload handler.

A chat's title is the first 35 characters
of its first user message after every `<[^>]+>` span has been removed,
and `...` is appended when the message before removal is longer than 35
characters. A chat whose first message comes from the assistant keeps the
title it had while empty, "New Chat" for a chat just started.

## Model

| member | source | states |
|---|---|---|
| HtmlEscape.ReplaceChar | script.js:250-254 | a single-character global replace leaves a text without that character unchanged, and leaves none of that character behind when the replacement does not contain it |
| HtmlEscape.ReplaceKeepsAbsent | script.js:250-254 | a character that is in neither the text nor the replacement is not in the result |
| HtmlEscape.EscapeHtml | script.js:249-255 | the five replacements in the script's order; no contract of its own, its properties are the `EscapeHtml*` lemmas below |
| HtmlEscape.EscapeHtmlNoMarkup | script.js:249-255 | the escaped text contains no raw `<`, `>`, `"` or `'` |
| HtmlEscape.EscapeHtmlUnchanged | script.js:249-255 | a text without any of the five special characters is returned unchanged |
| HtmlEscape.EscapeHtmlIsPerCharacter | script.js:249-255 | because `&` is replaced first, the five-step chain equals the per-character entity substitution |
| HtmlEscape.EscapeRoundTrip | script.js:249-255 | decoding the five entities recovers the original text, so escaping loses nothing and distinct texts stay distinct |
| ChatTitle.StripTags | script.js:225 | removing `<[^>]+>` spans never lengthens the text and introduces no character that was not there |
| ChatTitle.StripTagsTagFree | script.js:225 | after the global replace no `<[^>]+>` match is left anywhere in the text |
| ChatTitle.StripTagsUnchangedIff | script.js:225 | stripping leaves a text unchanged exactly when the text holds no `<[^>]+>` match |
| ChatTitle.StripTagsIdempotent | script.js:225 | stripping a second time changes nothing |
| ChatTitle.Take | script.js:225 | `substring(0, n)` gives a prefix of the text of length min(n, length) |
| ChatTitle.DeriveTitle | script.js:225 | the title is at most 38 characters; for a text of at most 35 characters it is the stripped text; for a longer text it ends in `...` after a prefix of the stripped text of length min(35, stripped length) |
| ChatTitle.DeriveTitleTagFree | script.js:225 | a derived title carries no `<[^>]+>` markup |
| ChatTitle.EllipsisCountsMarkup | script.js:225 | the ellipsis is decided on the unstripped length: a text whose visible part fits in 35 characters still gets `...` when a leading tag makes it longer than 35 |
| Recency.InsertByRecency | script.js:206 | inserting a chat into a newest-first list keeps it newest-first and adds exactly one copy of that chat (as multisets, the result is the list plus the chat) |
| Recency.ChatsNewestFirst | script.js:206 | the listing has one entry per chat, each entry is the chat stored under its id, every chat appears, and creation times never increase along it |
| Recency.HeadIsNewest | script.js:192-194 | the first chat of a newest-first listing has the greatest creation time of all chats |
| ChatStore.StartNewChat | script.js:159-170 | a chat titled "New Chat" with no messages and the given creation time is stored under the new id and made active; every other chat is unchanged; the invariant is re-established |
| ChatStore.LoadChat | script.js:172-174 | an unknown id changes nothing; a known id becomes active; the chats are never changed; the invariant is kept |
| ChatStore.AddMessage | script.js:220-226 | exactly one `{role, text}` is appended to the active chat, or to a chat started first when none is active; the title changes only for a first message from the user, and then becomes the derived title; other chats are unchanged; the invariant is kept |
| ChatStore.AppendAll | script.js:220-223 | appending a sequence of messages keeps the invariant and the active chat |
| ChatStore.TitleFixedAfterFirstMessage | script.js:224-226 | once a chat holds a message, any further messages are appended to it in order and its title never changes |
| ChatStore.AppendAllAppends | script.js:222-223 | appending a sequence of messages to the active chat, empty or not, leaves its messages as the old ones followed by the new ones in order |
| ChatStore.AppendAllKeepsOthers | script.js:220-223 | appending messages to the active chat adds no chat and changes no other chat |
| ChatStore.AssistantFirstKeepsTitle | script.js:220-226 | when the chat a reply goes to has no messages yet (one `addMessage` starts itself, or an empty active chat), the reply and every later message leave its title as it was, "New Chat" for a chat started by `addMessage` |
| ChatStore.RepliedNewChatKeepsDefaultTitle | script.js:159-170 | a chat opened by `startNewChat` whose first message is a reply keeps the title "New Chat" whatever messages follow |
| ChatStore.DeleteChat | script.js:189-199 | only the given id is removed; deleting the active chat selects a chat of greatest creation time among those left, or none exactly when none are left; deleting another chat keeps the selection; the invariant is kept |
| ChatStore.Initialize | script.js:263-269 | at start-up a chat of greatest creation time is selected, or none exactly when there are no chats |
| Send.Trim | script.js:71 | the trimmed text is a contiguous piece of the input with only white space around it, starts and ends with a non-space, and is empty exactly when the input is all white space |
| Send.UserMessageHtml | script.js:73 | the HTML stored for a typed message contains no `"`, `'` or line feed |
| Send.BreakLines | script.js:73 | replacing line feeds by `<br>` leaves no line feed and introduces no quote |
| Send.SendMessage | script.js:70-75 | sending is ignored exactly when the input is blank, the connected flag is off or the socket is not open; otherwise the trimmed input goes on the socket and its HTML form is added as a user message |
| Send.StripUserMessageHtml | script.js:73 | the only markup a typed message gains is `<br>`, so stripping tags from its HTML gives the escaped text without line feeds |
| Send.FirstSentMessageTitle | script.js:71-73 | a first message typed with no chat active is sent, and titles the new chat with the first 35 characters of its escaped text (entities included, line feeds dropped), followed by `...` exactly when the stored HTML is longer than 35 characters |
| ReplyText.Field | script.js:22 | `?.key`: no contract of its own; it is read through TextPath and TextPathOfReply |
| ReplyText.First | script.js:22 | `?.[0]`: no contract of its own; it is read through TextPath and TextPathOfReply |
| ReplyText.TextOr | script.js:22 | the logical-or fallback: no contract of its own; its properties are TextOrTruthy, SocketReply and the `*OfReply` lemmas |
| ReplyText.TextPathOfReply | script.js:22 | the `candidates?.[0]?.content?.parts?.[0]?.text` path reads back the text of every reply whose first candidate's first part holds one, whatever other fields, candidates and parts it has |
| ReplyText.TextPath | script.js:22 | the `candidates[0].content.parts[0].text` path yields a value only for an object that has a `candidates` field |
| ReplyText.TextOrTruthy | script.js:22 | the logical-or fallback, when non-empty, makes the result truthy whatever the path yields |
| ReplyText.SocketReply | script.js:18-26 | the socket reply is always truthy; it is the malformed-response error when parsing failed or the payload is `null`, the text-path value when truthy, and "Could not parse response." when that value is missing or falsy |
| ReplyText.UploadReply | script.js:138-149 | no contract of its own; its properties are UploadReplyTruthy, UploadReplyOfReply and NullPayloadHandlersDiffer |
| ReplyText.UploadReplyTruthy | script.js:138-149 | the upload handler shows a truthy reply unless `aiResponse` failed to parse, when the raw value is shown as it is |
| ReplyText.UploadReplyOfReply | script.js:141-142 | for every reply carrying an image description, a non-empty one reaches the chat unchanged and an empty one becomes "No description found." |
| ReplyText.NullPayloadHandlersDiffer | script.js:142 | a `null` payload gives the upload fallback, because the path starts with `parsed?.`, while the socket handler (line 22, `data.candidates`) turns it into the malformed-response error |
| ReplyText.SocketReplyOfReply | script.js:20-23 | for every reply carrying a text, a non-empty text reaches the chat unchanged and an empty one becomes "Could not parse response." because the logical-or treats it as false |

## Left out

- WebSocket lifecycle and the 3-second reconnect loop (script.js:10-42): timer- and event-driven I/O. The connection is the parameter `Send.Connection` (the `isConnected` flag and the socket's ready state).
- The store updates of the socket handlers (script.js:18-33): the reply chosen by `ReplyText.SocketReply` is passed to `addMessage`, which is modelled; the store holds text, while `||` can hand on any truthy JSON value (a number, `true`, an object), which the script would store as that value.
- `sendBtn.disabled` and the loading element: user-interface state; the send guard does not consult the button.
- Rendering: `displayMessage`, `displayWelcomeScreen`, the HTML built by `updateChatList`, `scrollTop`, and `marked.parse` (an external markdown library).
- The image upload (script.js:96-136, 150-156): `fetch`, `FormData`, `URL.createObjectURL` and the preview HTML are browser and network calls; only the choice of reply text is modelled.
- `localStorage` and `JSON.stringify`/`JSON.parse` (script.js:6, 247): foreign serialisation; the store is in memory, so the persist-and-reload round trip is not stated.
- The `confirm()` dialog and `event.stopPropagation` in `deleteChat`: only the confirmed branch is modelled.
- `Date.now()` and ISO date strings: the new chat's id and creation time are parameters, and `created` is an integer.
- ChatStore.DeleteChat: ties in `created` are resolved to any chat of greatest creation time, not to the one the stable JavaScript sort would put first in key-insertion order.
- ChatStore.Initialize: the same tie rule as `DeleteChat`.
- ChatTitle.DeriveTitle: lengths count Unicode characters, whereas `length` and `substring` count UTF-16 code units, so texts with characters outside the Basic Multilingual Plane are not modelled exactly.
- `handleKeyPress`: keyboard event filtering, which only calls `sendMessage`.
