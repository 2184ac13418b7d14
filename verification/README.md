# Nihongo AI tutor: chat rules in Dafny

This project models the logic of the chat components of a Japanese-tutoring
web application. A learner writes to a language model. The model answers with
a JSON feedback record: a `reply`, a list of `corrections` and a list of
`new_vocabulary`. The reply arrives as a stream.

The model covers:

- `parseJsonSafely` and `getMessageText` (`Text`, `Json`, `ChatUtils`). Code
  fences are stripped, the text is trimmed, the first-`{`-to-last-`}` slice is
  cut out and handed to `JSON.parse`. `JSON.parse` is a parameter
  `parse: string -> Option<Json>`, where `None` is the `SyntaxError` that the
  function turns into `null`, so `ParseJsonSafely` is total.
- The bubble's display text and feedback badges (`MessageBubble`, `JsonString`).
  - A complete reply shows its `reply` field.
  - A streaming reply shows the capture of `/"reply"\s*:\s*"([^"]*)/`. The
    capture is decoded as a JSON string body, as section 7 of RFC 8259
    describes, and hand-unescaped when decoding fails.
  - The regexes are written out as string functions. One whitespace predicate
    (`Text.IsSpace`) serves both `\s` and `.trim()`.
- The corrections sidebar and the feedback record (`SidebarFeedback`).
- The scenario data and the scenario panel's line highlighting (`Scenarios`,
  `ScenarioPanel`).
- The chat area (`ChatArea`): the loading state, the submit guard as a class
  `ChatForm`, and the feedback taken from the last assistant message.
- The practice page's selection state (`PracticePage`): a class with mode,
  scenario and role, and the remount key.
- The pure parts of the scenario endpoint (`ScenarioRoute`): error
  classification and assembly of the system prompt.
- The toast list (`Toast`): a class `ToastProvider` with the list and the id
  counter.

All source paths below are relative to the repository root.

## Model

| member | source | states |
|---|---|---|
| Text.TrimEmptyIff | src/components/chat/ChatArea.tsx:24 | `trim()` gives the empty string exactly when every character is whitespace |
| Text.TrimIsSlice | src/components/chat/utils.ts:6 | trimming yields a contiguous slice of the input |
| Text.TrimEnds | src/app/api/chat/scenario/route.ts:73 | a trimmed string is empty or starts and ends with a non-whitespace character |
| Text.TrimPadded | src/app/api/chat/scenario/route.ts:73 | trimming whitespace padding off a text with visible ends gives back that text |
| Text.ContainsAt | src/app/api/chat/scenario/route.ts:87 | `includes` holds exactly when the pattern occurs at some position |
| Json.LengthPositive | src/components/chat/MessageBubble.tsx:87 | `.length > 0` throws on a missing or null value; it is true exactly for a non-empty string or array |
| JsonString.StepAt | src/components/chat/MessageBubble.tsx:32 | one decoding step ends only on empty input and consumes between 1 and all of the remaining characters |
| JsonString.DecodeEscape | src/components/chat/MessageBubble.tsx:32 | decoding the JSON escaping of any text gives that text back (round trip) |
| JsonString.DecodeWithoutEscapes | src/components/chat/MessageBubble.tsx:32 | a body without backslashes decodes to itself when every character is at least U+0020, and fails otherwise |
| JsonString.DecodeRejectsControl | src/components/chat/MessageBubble.tsx:32-34 | a raw character below U+0020 anywhere makes decoding fail, so the fallback applies |
| JsonString.DecodeIffValid | src/components/chat/MessageBubble.tsx:31-34 | decoding succeeds exactly on bodies made of unescaped characters from U+0020 other than `"` and `\`, the short escapes and `\u` with four hex digits; otherwise the fallback applies |
| JsonString.ValidBodyAppend | src/components/chat/MessageBubble.tsx:32 | after a valid body, validity depends only on what follows |
| JsonString.DecodeRejectsUnfinishedEscape | src/components/chat/MessageBubble.tsx:32-34 | a decodable body followed by a cut-off escape (`\`, `\u` or `\u` with fewer than four digits) fails to decode |
| JsonString.DecodeUnitEscape | src/components/chat/MessageBubble.tsx:32 | `\u` with four hex digits below U+D800 decodes to that character, then the rest decodes as before |
| JsonString.DecodeHexCase | src/components/chat/MessageBubble.tsx:32 | hex digits are read in either case: `\u00e9` and `\u00E9` both give é |
| JsonString.DecodeSolidus | src/components/chat/MessageBubble.tsx:32 | `\/` decodes to `/` |
| JsonString.DecodeSurrogatePair | src/components/chat/MessageBubble.tsx:32 | a high and a low surrogate escape decode together to the code point the pair encodes: one character above U+FFFF whose UTF-16 encoding gives back both units |
| JsonString.DecodeNewlineBetween | src/components/chat/MessageBubble.tsx:32 | a `\n` escape between plain text decodes to a real line break |
| ChatUtils.TextOfAppend | src/components/chat/utils.ts:21-24 | the text of concatenated part lists is the concatenation of their texts |
| ChatUtils.PartsDecideText | src/components/chat/utils.ts:20-25 | with a `parts` array, non-text parts and the `content` field do not change the text |
| ChatUtils.MessageTextFallbacks | src/components/chat/utils.ts:16-34 | a missing message gives ""; without parts, a string `content` is returned as is, otherwise "" |
| ChatUtils.FenceAt | src/components/chat/utils.ts:6 | a fence is found exactly where three backticks start, and it never reaches past the text |
| ChatUtils.StripFencesNoBacktick | src/components/chat/utils.ts:6 | text without backticks has nothing stripped |
| ChatUtils.SanitizeNoBacktick | src/components/chat/utils.ts:6 | for text without backticks, sanitising is trimming |
| ChatUtils.StripFencesLeavesNoFence | src/components/chat/utils.ts:6 | no "```" survives the global replace |
| ChatUtils.StripWrappedJsonFence | src/components/chat/utils.ts:6 | "```json\n" and the closing fence are removed around a fenced object; the newline before the closing fence stays |
| ChatUtils.SanitizeFenced | src/components/chat/utils.ts:6 | a fenced object sanitises to exactly the object |
| ChatUtils.FirstIndex | src/components/chat/utils.ts:8 | the position found holds the character, and no earlier position does |
| ChatUtils.LastIndex | src/components/chat/utils.ts:8 | the position found holds the character, and no later position does |
| ChatUtils.BraceSpan | src/components/chat/utils.ts:8 | the match runs from the first `{` to the last `}` after it; no match means no `}` follows any `{` |
| ChatUtils.CandidateWhole | src/components/chat/utils.ts:8-10 | a text that is one braced object is parsed whole |
| ChatUtils.NoiseIgnored | src/components/chat/utils.ts:8-10 | noise before the first `{` and after the last `}` is ignored: only the braced slice is parsed |
| ChatUtils.FencedLikeBare | src/components/chat/utils.ts:3-14 | a fenced object and the bare object parse to the same result |
| ChatUtils.WholeTextParsedWithoutClosingBrace | src/components/chat/utils.ts:9 | without a closing brace the whole sanitised text is parsed |
| SidebarFeedback.CardsFor | src/components/chat/SidebarFeedback.tsx:52-61 | one card per correction, in list order, with original, corrected and explanation |
| SidebarFeedback.VocabCardsFor | src/components/chat/SidebarFeedback.tsx:73-82 | one card per vocabulary entry, in list order |
| SidebarFeedback.SidebarVocabulary | src/components/chat/SidebarFeedback.tsx:69-82 | with vocabulary, one card per entry in order: the headword is `kanji` when present and non-empty, else `kana`; the reading is `kana`; the meaning is kept |
| SidebarFeedback.SidebarSections | src/components/chat/SidebarFeedback.tsx:43-85 | null feedback shows only the placeholder; the banner replaces the cards exactly when there are no corrections; the vocabulary section appears exactly when there is vocabulary |
| MessageBubble.QuoteFreeRun | src/components/chat/MessageBubble.tsx:28 | `[^"]*` takes the longest prefix without a double quote |
| MessageBubble.ReplyCapture | src/components/chat/MessageBubble.tsx:28 | a capture never contains a double quote |
| MessageBubble.UserTextUnparsed | src/components/chat/MessageBubble.tsx:14-22 | a user message shows its raw text whatever `JSON.parse` does, and shows no badge |
| MessageBubble.CompleteReplyShown | src/components/chat/MessageBubble.tsx:22-24 | a parsed non-empty string `reply` is shown exactly |
| MessageBubble.PlainAssistantTextShown | src/components/chat/MessageBubble.tsx:18-25 | assistant text that is not JSON-shaped and has no truthy reply is shown unchanged |
| MessageBubble.CaptureNeedsKey | src/components/chat/MessageBubble.tsx:28 | a capture comes only from text containing `"reply"` |
| MessageBubble.CaptureSkipsPrefix | src/components/chat/MessageBubble.tsx:28 | a match cannot start in a prefix without double quotes |
| MessageBubble.MatchAfterKey | src/components/chat/MessageBubble.tsx:28 | at the key, whitespace around the colon is skipped and the capture runs to the next quote or the end |
| MessageBubble.CaptureAfterKey | src/components/chat/MessageBubble.tsx:28 | the capture is the quote-free value after the first key |
| MessageBubble.CaptureSkipsUnmatched | src/components/chat/MessageBubble.tsx:28 | a match cannot start inside a prefix at none of whose positions the key starts |
| MessageBubble.CaptureAfterFields | src/components/chat/MessageBubble.tsx:28 | after earlier fields that do not spell the key, the capture is the value after the key |
| MessageBubble.CaptureAfterPassed | src/components/chat/MessageBubble.tsx:28 | in the field order `{"passed": true, "reply": "…` the capture is the reply streamed so far |
| MessageBubble.CaptureAfterOpening | src/components/chat/MessageBubble.tsx:28 | after the opening `{"reply": "` the capture is the value received so far |
| MessageBubble.StreamingReplyShown | src/components/chat/MessageBubble.tsx:25-41 | an unparsed reply whose trimmed text opens with `{` or "```" shows the decoded capture, or the hand-unescaped capture, or "..." for an empty capture |
| MessageBubble.NoCaptureShowsPlaceholder | src/components/chat/MessageBubble.tsx:25-40 | JSON-shaped text where the regex finds no match shows "..." |
| MessageBubble.KeyWithoutStringNotMatched | src/components/chat/MessageBubble.tsx:28 | a key whose value does not open with a quote, such as `null` or `3`, gives no match |
| MessageBubble.KeyWithoutStringShowsPlaceholder | src/components/chat/MessageBubble.tsx:25-40 | while the key has no string value, the bubble shows "..." |
| MessageBubble.NullReplyShowsPlaceholder | src/components/chat/MessageBubble.tsx:38-40 | `{"reply": null` shows "..." |
| MessageBubble.NoKeyShowsPlaceholder | src/components/chat/MessageBubble.tsx:25-41 | JSON-shaped text without the key shows "..." |
| MessageBubble.FencedOpeningShown | src/components/chat/MessageBubble.tsx:25-41 | a reply streaming inside a "```json" fence shows the same text as the bare reply |
| MessageBubble.OpeningParsedWhole | src/components/chat/MessageBubble.tsx:22 | a streamed reply without `}` or backticks is handed to `JSON.parse` whole |
| MessageBubble.PartialPlainReplyShown | src/components/chat/MessageBubble.tsx:25-32 | a reply cut off mid-value that fails to parse shows the text received so far |
| MessageBubble.PartialEscapedReplyShown | src/components/chat/MessageBubble.tsx:28-32 | a `\n` escape in a streamed reply is shown as a line break |
| MessageBubble.ReplaceAllAbsent | src/components/chat/MessageBubble.tsx:35-37 | `replace` leaves text without the pattern unchanged |
| MessageBubble.ReplaceAllAvoids | src/components/chat/MessageBubble.tsx:35-37 | `replace` adds no character that is in neither the text nor the replacement |
| MessageBubble.EscapedQuoteRewriteInert | src/components/chat/MessageBubble.tsx:37 | on a capture, the `\"` rewrite never changes anything |
| MessageBubble.ManualUnescapeNewline | src/components/chat/MessageBubble.tsx:34-37 | the fallback turns a `\n` escape between backslash-free texts into a line break, also when a cut-off backslash follows |
| MessageBubble.ManualUnescapeTab | src/components/chat/MessageBubble.tsx:34-37 | the fallback turns a `\t` escape into a tab |
| MessageBubble.CutOffEscapeShown | src/components/chat/MessageBubble.tsx:28-37 | `{"reply": "a\nb\` does not decode, and the fallback shows `a`, a line break, `b` and the dangling backslash |
| MessageBubble.ManualUnescapeNoBackslash | src/components/chat/MessageBubble.tsx:34-37 | without backslashes the fallback keeps the capture |
| MessageBubble.GuardedBadges | src/components/chat/MessageBubble.tsx:85-104 | the corrections badge shows exactly for a truthy parse of an assistant message with non-empty corrections, the vocabulary badge exactly for one with a non-empty vocabulary list; both agree with the unguarded badges wherever those render |
| MessageBubble.BadgesMatchSidebar | src/components/chat/MessageBubble.tsx:85-104 | for a well-formed record the badges render, guarded or not, and agree with the sidebar's sections |
| MessageBubble.BadgesThrowWithoutLists | src/components/chat/MessageBubble.tsx:85-89 | `{"reply":"hi"}`, `42` and `{}` make the badge condition throw |
| MessageBubble.GuardedBadgesWithoutLists | src/components/chat/MessageBubble.tsx:85-104 | with the guard the same reply shows no badge |
| Scenarios.SpeakerName | src/data/scenarios.ts:2 | each part has a one-letter name, "A" exactly for A |
| Scenarios.WeekendPlanAlternates | src/data/scenarios.ts:20-34 | the weekend plan has 13 lines, starts with A and alternates speakers |
| Scenarios.ScenarioListShape | src/data/scenarios.ts:14-19 | the scenario list is non-empty; its first entry is "weekend-plan" with roles 友人A and 友人B |
| ScenarioPanel.IndicesFrom | src/components/chat/ScenarioPanel.tsx:21-24 | the role's line positions: valid, spoken by the role, strictly increasing, and all of them |
| ScenarioPanel.PanelLines | src/components/chat/ScenarioPanel.tsx:83-98 | one view per line with its speaker and text, dashed exactly for the partner's lines |
| ScenarioPanel.RoleChips | src/components/chat/ScenarioPanel.tsx:58-76 | two chips captioned "(A)" and "(B)"; exactly the learner's is selected |
| ScenarioPanel.ExactlyOneActive | src/components/chat/ScenarioPanel.tsx:86-110 | with the cursor in range exactly one line is active; it is the learner's and alone carries the hint |
| ScenarioPanel.NothingActiveOutOfRange | src/components/chat/ScenarioPanel.tsx:86-87 | out of range, no line is active or past and no hint shows |
| ScenarioPanel.PastIsBeforeActive | src/components/chat/ScenarioPanel.tsx:87 | a line is dimmed exactly when it comes before the active one |
| ScenarioPanel.HintIffActive | src/components/chat/ScenarioPanel.tsx:110 | the hint shows exactly on the active line |
| ScenarioPanel.ActiveIsCursorth | src/components/chat/ScenarioPanel.tsx:21-26 | the learner's lines before the active one are exactly the first `cursor` of them |
| ScenarioPanel.AdvanceMovesForward | src/components/chat/ScenarioPanel.tsx:21-26 | a larger in-range cursor gives a strictly later active line |
| ScenarioPanel.AlternatingIndices | src/components/chat/ScenarioPanel.tsx:21-24 | in an alternating dialogue a part's positions are every second one |
| ScenarioPanel.AlternatingTurns | src/components/chat/ScenarioPanel.tsx:21-24 | when A opens an alternating dialogue, A has the even positions and B the odd ones |
| ScenarioPanel.WeekendPlanTurns | src/data/scenarios.ts:20-34 | in the weekend plan A speaks seven lines and B six |
| ChatArea.SendEnabledIff | src/components/chat/ChatArea.tsx:95-101 | the send button is enabled exactly when nothing is loading and the input has a non-whitespace character |
| ChatArea.ChatForm.constructor | src/components/chat/ChatArea.tsx:16 | the input starts empty and nothing has been sent |
| ChatArea.ChatForm.Change | src/components/chat/ChatArea.tsx:94 | typing replaces the input and sends nothing |
| ChatArea.ChatForm.Submit | src/components/chat/ChatArea.tsx:22-27 | blank input sends nothing and stays; otherwise the untrimmed input is sent once and the box cleared |
| ChatArea.LastAssistant | src/components/chat/ChatArea.tsx:34 | the last assistant message, or none exactly when there is no assistant message |
| ChatArea.NoReplyNoFeedback | src/components/chat/ChatArea.tsx:34-40 | without an assistant message the feedback is null |
| ChatArea.UserMessageKeepsFeedback | src/components/chat/ChatArea.tsx:34-40 | a new user message leaves the feedback unchanged |
| ChatArea.NewReplyGivesFeedback | src/components/chat/ChatArea.tsx:34-40 | a new assistant message becomes the source of the feedback |
| PracticePage.ModeName | src/app/practice/page.tsx:9 | the two modes have distinct non-empty names |
| PracticePage.Find | src/app/practice/page.tsx:38 | `find` gives the first scenario with the id, or nothing exactly when none has it |
| PracticePage.KeyInjective | src/app/practice/page.tsx:80 | equal keys mean equal mode, scenario id and role |
| PracticePage.RoleSwitchRemounts | src/app/practice/page.tsx:80 | the key changes exactly when the role changes |
| PracticePage.FindInScenarioList | src/app/practice/page.tsx:38-39 | "weekend-plan" finds the weekend plan; any other id finds nothing |
| PracticePage.PracticePage.constructor | src/app/practice/page.tsx:12-14 | the page starts in free mode with the first scenario and role A |
| PracticePage.PracticePage.ChooseMode | src/app/practice/page.tsx:25 | the mode selector changes only the mode; in free mode the chat gets no scenario, in scenario mode the selected one |
| PracticePage.PracticePage.ChooseScenario | src/app/practice/page.tsx:37-39 | a known id selects that scenario, which the chat gets in scenario mode; an unknown id changes nothing |
| PracticePage.PracticePage.ChooseRole | src/app/practice/page.tsx:53-63 | the role buttons change only the role; the chat remounts exactly when the role differs |
| ScenarioRoute.RespondToErrorSpec | src/app/api/chat/scenario/route.ts:85-91 | status 429 with "RATE_LIMIT" exactly when the error text contains "429", "quota" or "RESOURCE_EXHAUSTED"; otherwise 500 with "SERVER_ERROR" |
| ScenarioRoute.MarkerAnywhere | src/app/api/chat/scenario/route.ts:86-87 | any text containing a marker is a rate limit, whether it came from an `Error` or not |
| ScenarioRoute.CapitalisedQuotaIsServerError | src/app/api/chat/scenario/route.ts:86-87 | the search is case-sensitive: "Quota exceeded" is a server error |
| ScenarioRoute.Section | src/app/api/chat/scenario/route.ts:34-38 | an optional section is empty exactly when its value is not given |
| ScenarioRoute.PromptIsBody | src/app/api/chat/scenario/route.ts:26-73 | trimming removes exactly the template's outer line breaks |
| ScenarioRoute.PromptHasNoOuterSpace | src/app/api/chat/scenario/route.ts:73 | the prompt is non-empty with no leading or trailing whitespace |
| ScenarioRoute.PromptNamesRole | src/app/api/chat/scenario/route.ts:32 | the prompt says "使用者扮演角色" followed by the given role, or by "A" when none is given |
| ScenarioRoute.PromptQuotesCurrentLine | src/app/api/chat/scenario/route.ts:34 | a given current line appears in 「」 under its header |
| ScenarioRoute.PromptQuotesPartnerLine | src/app/api/chat/scenario/route.ts:36 | a given partner line appears in 「」 under its header |
| ScenarioRoute.PromptIncludesContext | src/app/api/chat/scenario/route.ts:38 | a given scenario context appears under its header |
| ScenarioRoute.EmptySectionsLeaveBlankLines | src/app/api/chat/scenario/route.ts:34-38 | with no optional field only the blank separator lines remain |
| Toast.Without | src/components/ui/Toast.tsx:41 | the filter keeps exactly the toasts with another id |
| Toast.WithoutAppend | src/components/ui/Toast.tsx:41 | the filter distributes over concatenation, so the rest keep their order |
| Toast.WithoutAbsent | src/components/ui/Toast.tsx:41 | dismissing an absent id changes nothing |
| Toast.WithoutIdempotent | src/components/ui/Toast.tsx:35-41 | removing twice is removing once, so an expiry after a dismissal does nothing |
| Toast.WithoutRemovesOne | src/components/ui/Toast.tsx:40-42 | in an ascending list, removing a toast's id removes exactly that toast |
| Toast.WithoutAscending | src/components/ui/Toast.tsx:41 | removal keeps ids ascending |
| Toast.WithoutCommutes | src/components/ui/Toast.tsx:35-41 | a dismissal and an expiry give the same list in either order |
| Toast.FreshIdIsNew | src/components/ui/Toast.tsx:33-34 | the incremented counter is larger than every id in the list, so appending keeps ids unique and ascending |
| Toast.ToastProvider.constructor | src/components/ui/Toast.tsx:29-30 | the list starts empty and the counter at 0 |
| Toast.ToastProvider.ShowToast | src/components/ui/Toast.tsx:32-38 | the counter goes up by one and is the new id; exactly one toast is appended, defaults "error" and 6000 ms; the container shows |
| Toast.ToastProvider.Dismiss | src/components/ui/Toast.tsx:40-42 | the list becomes the filtered list; the counter is unchanged; ids stay positive and ascending |
| Toast.ToastProvider.Expire | src/components/ui/Toast.tsx:35-37 | expiry performs the same removal as `dismiss` |

## Left out

- Transport and language-model calls are not modelled: `useChat` with its transport, `streamText`, `convertToModelMessages` and the stream response. Messages and the stream status are inputs.
- `JSON.parse` of a whole document is the parameter `parse`. No JSON grammar is modelled. The `as T` casts validate nothing, so parsed values are general `Json`.
- Timers are not modelled. `ShowToast` returns the delay after which `Expire` is due, and `Expire` models the timer callback.
- JsonString.StepAt: a `\u` escape of a lone surrogate decodes to U+FFFD. JavaScript keeps the lone UTF-16 unit, which a Dafny `char` cannot hold.
- Json.LengthPositive: objects are taken to have no `length` member. A parsed object with its own `length` field is not modelled.
- ScenarioPanel.ExactlyOneActive: the cursor is an integer. Non-integer JavaScript numbers, for which `indices[c]` is `undefined`, are not modelled.
- ScenarioRoute.PromptNamesRole: request fields are strings or absent. Other JSON values a client might send are not modelled.
- SidebarFeedback.SidebarSections: the sidebar takes the declared `ParsedFeedback` type. Its unguarded `.length` reads (SidebarFeedback.tsx:49 and :69) throw on the same ill-shaped parses as the badges; that throwing path is not modelled for the sidebar.
- The `ChatArea.Status` value `"error"` is called `Failed`.
- Toast ids are unbounded integers. The 2^53 limit of JavaScript numbers is not modelled.
- src/app/api/chat/route.ts is not part of this model. It is I/O with a constant error response.
- Presentation is not modelled:
  - Markdown rendering.
  - The user bubble's per-part spans.
  - Class names, icons and drawer open/close state.
  - Scrolling to the newest message.
- Authentication pages and middleware are not modelled.
- There is no scenario turn advancement or context reset. The chat area never reads the `mode`, `scenario` and `userRole` it receives, so the model has none either.

## Findings

| source | as written | input that shows it | evidently intended | confidence | as-written member | corrected member |
|---|---|---|---|---|---|---|
| src/components/chat/MessageBubble.tsx:85-104 | `parsedJson.corrections.length` is read on any truthy parse, but the cast does not ensure the lists exist; SidebarFeedback.tsx:49 and :69 do the same with the parse ChatArea.tsx:38-40 hands over | an assistant message `{"reply":"hi"}`, `42` or `{}`: the `.length` read throws a `TypeError` inside the bubble's render, so the bubble renders nothing and the error goes to the nearest error boundary | treat a missing list as empty (`?.length`) and show no badge | medium, not executed | MessageBubble.BadgesThrowWithoutLists | MessageBubble.GuardedBadges |
