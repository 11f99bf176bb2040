# v0-clone core, modelled in Dafny

v0-clone is a Next.js front end for a hosted code-generation service. The user types a
request into a chat panel; a `POST /api/chat` endpoint forwards it to the provider's SDK
(creating a chat or continuing one) and reshapes the provider's reply into
`{id, demo, assistant, files}`; the page merges the returned files into its in-memory
file store; and a code explorer shows that store as a folder tree with a line-numbered
viewer.

This project models the deterministic logic of those four pieces and proves what they
promise:

- `Thinking` — removal of `<Thinking>…</Thinking>` reasoning spans from the reply, as a
  left-to-right scanner proved equal to a reference definition, with the regular
  expression's single-pass, case-sensitive, multi-line behaviour proved as lemmas.
- `ChatRoute` — `pickAssistant`, the files and demo mapping, and the `POST` handler's
  validation, create-or-continue choice and error mapping. The provider is a function
  value from the call made to "resolved with a reply (possibly null)" or "rejected".
- `FileTree` — the tree built from the flat path record (folders keyed by their joined
  segment prefix, children in first-insertion order), the expanded-folder set and its
  toggle, which rows are shown, and the viewer's fallback and line numbering.
- `Home` — the page's file store and selection, and `applyUpdates`.
- `Chat` — the chat panel's state (`message`, `currentChat`, `isLoading`, the
  transcript) and `handleSendMessage`, split where the request goes out into `Begin` and
  `Finish`; the two `await`s after that point (`fetch` and `res.json()`) are one step.
- `Protocol` — the panel's request and the endpoint's response joined up: requests the
  panel sends always pass validation, the create/continue choice follows the panel's
  current chat, and every endpoint failure becomes the one apology turn.
- `Js` — the JavaScript semantics the rest relies on: truthiness of optional strings
  (the empty string is falsy), `||`, `split`/`join`, `filter(Boolean)`, `trim`, and an
  object record with an explicit insertion-ordered key list (`Object.keys` order).

## Model

| member | source | states |
|---|---|---|
| Js.Or | src/app/api/chat/route.ts:8 | JavaScript `or` on optional strings: the left operand when truthy (present and non-empty), otherwise the right operand |
| Js.OrElse | src/app/api/chat/route.ts:14 | `or` with a fallback string: the string when truthy, otherwise the fallback |
| Js.Split | src/components/code-explorer.tsx:49 | `split` yields at least one piece and no piece contains the separator |
| Js.SplitCount | src/components/code-explorer.tsx:233 | `split` yields one more piece than the separator occurs |
| Js.JoinSplit | src/components/code-explorer.tsx:233 | joining the pieces of a split with the separator gives back the original string |
| Js.SplitJoin | src/components/code-explorer.tsx:55 | splitting a join of separator-free pieces gives back the pieces |
| Js.NonEmpty | src/components/code-explorer.tsx:49 | `filter(Boolean)` keeps exactly the non-empty pieces and never grows the list |
| Js.NonEmptyCounts | src/components/code-explorer.tsx:49 | `filter(Boolean)` keeps every non-empty piece as often as it occurs and drops every empty one |
| Js.NonEmptyAppend | src/components/code-explorer.tsx:49 | filtering distributes over concatenation, so the kept pieces stay in their original order |
| Js.NonEmptyOfNonEmpty | src/components/code-explorer.tsx:49 | filtering a list with no empty piece leaves it unchanged |
| Js.Trim | src/components/chat-panel.tsx:34-35 | `trim` returns a contiguous slice starting after the leading whitespace, empty iff the input is all whitespace, otherwise starting and ending with non-whitespace, and everything after it is whitespace |
| Js.Put | src/app/page.tsx:16 | `next[path] = content`: the entry is set, an existing key keeps its place in key order, a new key is appended, and keys stay listed once each |
| Thinking.FindFrom | src/app/api/chat/route.ts:10 | the first occurrence of a tag at or after an index, or none |
| Thinking.FindClose | src/app/api/chat/route.ts:10 | the scanner's search for the first closing tag after an opening tag equals `FindFrom` |
| Thinking.StripThinking | src/app/api/chat/route.ts:10 | the left-to-right scanner produces exactly the reference scrub `Strip` of its input |
| Thinking.StripNoLonger | src/app/api/chat/route.ts:10 | the scrubbed text is never longer than the input |
| Thinking.StripShrinksOnPair | src/app/api/chat/route.ts:10 | text holding an opening tag followed by a closing tag gets strictly shorter |
| Thinking.StripKeepsUnpaired | src/app/api/chat/route.ts:10 | text without a complete opening/closing pair is returned unchanged |
| Thinking.StripUnchangedIffUnpaired | src/app/api/chat/route.ts:10 | the text is unchanged if and only if it holds no complete pair |
| Thinking.StripKeepsPlainPrefix | src/app/api/chat/route.ts:10 | text before the first opening tag is copied verbatim |
| Thinking.StripDropsSpan | src/app/api/chat/route.ts:10 | a span from an opening tag to the first closing tag after it is deleted whole (non-greedy) |
| Thinking.StripSpan | src/app/api/chat/route.ts:16 | `a<Thinking>b</Thinking>c` becomes `a` followed by the scrub of `c` |
| Thinking.StripSkipsSpan | src/app/api/chat/route.ts:10 | a scan step on a complete span resumes right after its closing tag |
| Thinking.StripKeepsChar | src/app/api/chat/route.ts:10 | a scan step without a complete span keeps the current character |
| Thinking.FindFromShift | src/app/api/chat/route.ts:10 | searching a suffix finds the same occurrence as searching the whole text from the shifted index |
| Thinking.LowerCaseTagsKept | src/app/api/chat/route.ts:10 | tags are matched with case: `<thinking>x</thinking>` is left unchanged |
| Thinking.SpanCrossesLines | src/app/api/chat/route.ts:10 | a span containing line breaks is removed |
| Thinking.SinglePass | src/app/api/chat/route.ts:10 | text joined up by a removal is not rescanned, so the output can itself still hold a complete pair |
| Thinking.NoPairWithoutOpen | src/app/api/chat/route.ts:10 | text in which `<` is never followed by `T` holds no complete pair |
| ChatRoute.LastAssistant | src/app/api/chat/route.ts:6-7 | the index of the last assistant-role message: it is assistant-role and nothing after it is; none when no message is |
| ChatRoute.PickAssistant | src/app/api/chat/route.ts:4-18 | the reverse scan returns the scrubbed text of the last assistant-role message, else the scrubbed `latestMessage.content`, else `""` (`AssistantText`) |
| ChatRoute.AssistantFromLastAssistant | src/app/api/chat/route.ts:5-12 | whatever precedes the last assistant-role message, the reply is its scrubbed `content`, else `text`, else `""`, taking the first truthy one |
| ChatRoute.AssistantFallsBackToLatest | src/app/api/chat/route.ts:14-17 | with no assistant-role message the reply is the scrubbed latest content, and `""` when the reply or its latest message is missing |
| ChatRoute.AssistantNoLonger | src/app/api/chat/route.ts:10-11 | the reply is never longer than the text it was taken from |
| ChatRoute.ToUpdates | src/app/api/chat/route.ts:44-47 | the file list maps one-to-one and in order to `{path: name, content}` |
| ChatRoute.ResponseFiles | src/app/api/chat/route.ts:44-47 | the response files mirror `latestVersion.files` in length and order, and are empty when the reply, its version or its files are missing |
| ChatRoute.ResponseDemo | src/app/api/chat/route.ts:48 | `demoUrl` when truthy, else the chat's `demo` when truthy, else null; never an empty string |
| ChatRoute.CallFor | src/app/api/chat/route.ts:31-42 | a truthy `chatId` continues that chat, otherwise a chat is created; the message is passed through and the mode defaults to `"sync"` |
| ChatRoute.SystemNotForwarded | src/app/api/chat/route.ts:22 | the `system` field of the request has no effect on the provider call |
| ChatRoute.Post | src/app/api/chat/route.ts:20-58 | unparsable body gives the fixed 500; a falsy message gives the fixed 400 without calling the provider; otherwise `CallFor` is made; 200 iff the provider resolves to a non-null reply, with body exactly `{id, demo, assistant, files}`; every other outcome is the fixed 500 |
| FileTree.Segments | src/components/code-explorer.tsx:49 | the segments of a key are non-empty and free of `/` |
| FileTree.FindFolderFrom | src/components/code-explorer.tsx:37-39 | the first folder child with the given id at or after an index, or none |
| FileTree.FindFolder | src/components/code-explorer.tsx:37-39 | `find` of a folder child by id: the index of the first one, or none exists |
| FileTree.AddAt | src/components/code-explorer.tsx:36-56 | placing a file appends at most one node at this level and keeps every existing child in place with its kind, name and id |
| FileTree.AddAtExtends | src/components/code-explorer.tsx:37-56 | placing a file only appends: at every depth each existing child stays at its index with its kind, name and id |
| FileTree.BuildExtends | src/components/code-explorer.tsx:42-57 | the tree for the first keys is extended by the tree for all keys, so children keep first-insertion order at every depth, with no sorting |
| FileTree.BuildTree | src/components/code-explorer.tsx:48-58 | the key loop builds the tree `Build` of the record's keys in `Object.keys` order |
| FileTree.SegmentsOfJoin | src/components/code-explorer.tsx:55 | the segments of a folder id are the segments it was joined from |
| FileTree.NodeSegments | src/components/code-explorer.tsx:53-55 | in a well-formed tree a node's id splits to the enclosing folders' names followed by its own name |
| FileTree.AddAtWf | src/components/code-explorer.tsx:36-56 | placing a file keeps the tree well formed: one folder per id among siblings, folder ids the joined prefix, file ids the key |
| FileTree.BuildWf | src/components/code-explorer.tsx:34-59 | every built tree is well formed |
| FileTree.FileIdsAppend | src/components/code-explorer.tsx:42 | the files of a concatenated forest are the files of each part in order |
| FileTree.FileIdsUpdate | src/components/code-explorer.tsx:40 | replacing one node swaps its files for the new node's files |
| FileTree.AddAtFilesExisting | src/components/code-explorer.tsx:40 | descending into an existing folder adds the file exactly once |
| FileTree.AddAtFilesNew | src/components/code-explorer.tsx:41-42 | descending into a new folder adds the file exactly once |
| FileTree.AddAtFiles | src/components/code-explorer.tsx:45-56 | placing a key adds exactly that key as a file id |
| FileTree.Placed | src/components/code-explorer.tsx:49 | the keys kept are exactly the record keys with at least one non-empty segment, each as often as it occurs |
| FileTree.BuildFiles | src/components/code-explorer.tsx:34-59 | the tree's file ids are exactly the keys with a non-empty segment (as a multiset), so the file count equals their number |
| FileTree.BelowExtendsPrefix | src/components/code-explorer.tsx:55 | every node's id extends the segments of the folders enclosing it |
| FileTree.FolderIdPrefixesBelow | src/components/code-explorer.tsx:55 | a folder's id segments are a proper prefix of the id segments of every node beneath it |
| FileTree.NamesAreLastSegments | src/components/code-explorer.tsx:53-55 | every node's name is the last non-empty segment of its id |
| FileTree.Toggled | src/components/code-explorer.tsx:71-78 | toggling flips membership of exactly the given id |
| FileTree.ToggleTwice | src/components/code-explorer.tsx:71-78 | toggling the same id twice restores the set |
| FileTree.FirstPieceIsFirstSegment | src/components/code-explorer.tsx:65 | for a key not starting with `/`, the raw first piece is its first segment |
| FileTree.TopFolderInitiallyOpen | src/components/code-explorer.tsx:62-68 | the top-level folder of every nested key not starting with `/` starts expanded |
| FileTree.ShownNothingOpen | src/components/code-explorer.tsx:191-227 | with nothing expanded only the top-level rows show |
| FileTree.Shown | src/components/code-explorer.tsx:191-227 | every top-level node shows, and every node shown lies in the tree |
| FileTree.ShownTopClosed | src/components/code-explorer.tsx:191-227 | when no top-level folder is expanded only the top-level rows show |
| FileTree.ShownChildrenIffOpen | src/components/code-explorer.tsx:191-227 | a top-level folder's children show if and only if its id is in the expanded set |
| FileTree.ShownIffEnclosingOpen | src/components/code-explorer.tsx:191-227 | at every depth, a node of a well-formed tree shows if and only if it lies in the tree and every folder enclosing it is expanded (each enclosing folder's id being a joined prefix of the node's segments) |
| FileTree.ShownAllOpen | src/components/code-explorer.tsx:191-227 | with every folder expanded every node shows, each followed by its subtree |
| FileTree.Code | src/components/code-explorer.tsx:61 | the viewer shows the selected file's content, or `""` when the key is absent |
| FileTree.Lines | src/components/code-explorer.tsx:233 | the viewer's lines number one more than the newlines and join back to the code |
| FileTree.LineNumbers | src/components/code-explorer.tsx:237-240 | the gutter numbers each line, counting from 1 |
| FileTree.CodeExplorer.constructor | src/components/code-explorer.tsx:62-68 | the expanded set starts as the non-empty first pieces of the keys |
| FileTree.CodeExplorer.ToggleFolder | src/components/code-explorer.tsx:71-78 | the expanded set becomes the toggle of the old one |
| Home.ApplyAllKeys | src/app/page.tsx:15-16 | the keys afterwards are the old keys plus the update paths |
| Home.ApplyAllUntouched | src/app/page.tsx:15-16 | a path no update mentions keeps its presence and content |
| Home.ApplyAllLastWins | src/app/page.tsx:16 | each path holds the content of the last update carrying it |
| Home.ApplyAllKeepsOrder | src/app/page.tsx:15-16 | existing keys keep their order and new paths come after them |
| Home.ApplyAllValid | src/app/page.tsx:15-16 | the record keeps every key listed exactly once |
| Home.ApplyAllIdempotent | src/app/page.tsx:15-16 | applying the same updates twice gives the same record as once |
| Home.LastIndexOf | src/app/page.tsx:16 | the last update carrying a path |
| Home.InitialStateConsistent | src/app/page.tsx:10-11 | the seed lists each file once and the initial selection is one of its keys |
| Home.Page.constructor | src/app/page.tsx:10-11 | the page starts with the seed files and `lib/constants.ts` selected |
| Home.Page.ApplyUpdates | src/app/page.tsx:13-19 | a missing or empty list changes nothing; otherwise the files become the old record with every update applied in order, and the first update's path is selected |
| Chat.RequestFor | src/components/chat-panel.tsx:43 | the request carries the message and the current chat's id, and no id before the first reply |
| Chat.AppliedFiles | src/components/chat-panel.tsx:59-60 | the files are handed on exactly when the reply carries a non-empty list |
| Chat.ReplyTurns | src/components/chat-panel.tsx:53-73 | on failure exactly one apology turn; on data, the untrimmed reply first iff it is non-blank and the files acknowledgement last iff files came; at most two turns, all assistant |
| Chat.Accepts | src/components/chat-panel.tsx:34 | a send is accepted iff none is in flight and the input holds a non-whitespace character |
| Chat.NextChat | src/components/chat-panel.tsx:52 | the conversation is replaced by the reply's `{id, demo}` on data and kept on failure |
| Chat.ChatPanel.constructor | src/components/chat-panel.tsx:25-30 | the panel starts empty, idle and with no chat |
| Chat.ChatPanel.SetMessage | src/components/chat-panel.tsx:25 | typing replaces the input and nothing else |
| Chat.ChatPanel.Begin | src/components/chat-panel.tsx:32-44 | a blank input or a send in flight is ignored; otherwise the trimmed input becomes a user turn, the input is cleared, the panel is busy, and the request is built |
| Chat.ChatPanel.Finish | src/components/chat-panel.tsx:45-76 | the transcript gets `ReplyTurns`, the chat becomes `NextChat`, non-empty files are applied to the page, and the panel is idle on every path |
| Chat.ChatPanel.HandleSendMessage | src/components/chat-panel.tsx:32-77 | an accepted send appends the user turn and the reply turns (1 to 3 entries), applies non-empty reply files to the page and selects the first, and ends idle; a refused send changes nothing |
| Protocol.ToRequestBody | src/components/chat-panel.tsx:40-44 | the posted body carries the message and chat id and no other field |
| Protocol.ToFetchOutcome | src/components/chat-panel.tsx:45-52 | the panel receives data exactly for a 2xx status: a success body's fields, or all fields undefined for an error body; other statuses throw |
| Protocol.PanelRequestIsValid | src/app/api/chat/route.ts:23 | a request from the panel always has a truthy message |
| Protocol.PanelCallsProvider | src/app/api/chat/route.ts:31-42 | the first send creates a chat, a send with a truthy chat id continues it, both in `"sync"` mode |
| Protocol.FailuresBecomeApology | src/components/chat-panel.tsx:45 | the 400 and 500 responses both reach the transcript as the one apology |
| Protocol.SuccessReachesPanel | src/components/chat-panel.tsx:52-65 | after a 200 the panel holds the provider's chat id and demo, shows the scrubbed reply iff non-blank, and acknowledges files iff the latest version had some |
| Protocol.EndpointDecidesReply | src/app/api/chat/route.ts:30-57 | whether the panel sees data or the apology is decided by whether the provider resolves to a non-null reply |

## Left out

- The provider SDK (`v0.chats.create`, `v0.chats.sendMessage`), `NextRequest`/`NextResponse`, `fetch` and JSON parsing: foreign code and I/O. The provider is a function parameter of `ChatRoute.Post`; the client's fetch result is the `Chat.FetchOutcome` parameter.
- `async`/`await` and React's state scheduling: each state update is applied at once, and the two `await`s of a send (`fetch`, then `res.json()`) are taken as one step, `Finish`. Input typed while a request is in flight is not interleaved with it.
- JSX rendering, styling, icons, the scroll area, suggestions and the breadcrumb: presentation only.
- The search input and the copy, download and menu buttons of the explorer: they have no handlers.
- The general regular-expression engine: only the fixed literal tag pair is modelled, as a scanner.
- `Object.keys` puts integer-like keys first in numeric order; the model keeps plain insertion order.
- Values that are not strings (a numeric `content`, a `null` file entry in `latestVersion.files`, a file entry with a missing `name`) are outside the datatypes; such inputs throw or produce non-string output in the original and are not represented.
- A `messages` value that is not an array is not represented. A plain object, number or string without assistant-role entries makes the reverse loop find nothing and fall back to `latestMessage`, the same as an absent list; an array-like object with a `length` is not covered.
- Keys that clash with `Object.prototype` are not modelled: assigning `next["__proto__"]` in `applyUpdates` does not create an entry, and `files["toString"] ?? ""` in the viewer yields the inherited function; the model's record treats every key as an ordinary entry.
- FileTree.AddAt: the original walks a mutable `cur` pointer and pushes into shared `children` arrays in place; the model rebuilds the path on values. Aliasing of the node objects is therefore not modelled, only the resulting tree; that the pushes never reorder existing children, at any depth, is proved (`FileTree.AddAtExtends`, `FileTree.BuildExtends`).
- Strings are sequences of Unicode scalar values (`char`), not UTF-16 code units: lone surrogates cannot be represented and a character outside the Basic Multilingual Plane is one `char`, not two. The tags and the separators are ASCII, so the scanning, splitting and trimming results are the same.
- `postcss.config.mjs` is build configuration and is not part of this model.

Behaviour worth knowing that the model follows from the code:

- The tags are matched case-sensitively: `<thinking>` spans are kept (`Thinking.LowerCaseTagsKept`).
- A folder's id is the `/`-join of the key's non-empty segments, while a file's id is the key as written. For a key such as `/a/b.ts` the folder `a` is not a string prefix of the file id `/a/b.ts`; the prefix relation holds between segment lists (`FileTree.FolderIdPrefixesBelow`).
- The initial expanded set uses the raw first `/`-piece of each key, so a key starting with `/` (for example `/a/b.ts`) does not expand its top folder `a`; `FileTree.TopFolderInitiallyOpen` therefore requires the key not to start with `/`.
- A file and a folder may share an id (keys `a` and `a/b`); only folders are unique per id among siblings.
