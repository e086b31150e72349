# Startup validator: a Dafny model

The application is a React client that helps a founder validate a startup
idea. It has four stages:

- a welcome screen offering two paths;
- an idea form that asks a hosted model for an initial analysis;
- a market explorer that asks the model for a tree of sub-markets and lets the
  user pick a leaf as the problem to tackle;
- a chat workspace. There the user talks to an "AI co-founder" and, after a
  few exchanges, can have a validation document generated.

A sign-in dialog sits between either path and the workspace.

This project models the logic of those stages and proves properties of it.

- **Router** (`app.dfy`) models `App.tsx`. Class `App` holds the stage, the
  sign-in flag and the two strings handed to the workspace. It has one method
  per handler. `RenderStage` maps each stage to its component. Two end-to-end
  methods carry an idea, or a selected leaf, through to the workspace's opening
  message.
- **Validator** (`validator.dfy`) models `components/ValidatorPath.tsx`:
  - the blank-idea guard;
  - routing the service result to the error or the analysis by its prefix;
  - the per-line formatting of the analysis.
- **Explorer** (`explorer.dfy`) models `components/ExplorerPath.tsx`:
  - the market filter;
  - the explorer's selection state (class `ExplorerPath`);
  - each outline node's expansion state (class `MarketNodeView`);
  - the leaf-to-opportunity conversion;
  - how the outline renders children.
- **Chat** (`workspace.dfy`) models `components/Workspace.tsx`:
  - the opening messages and the context prefix they strip;
  - the append-only chat history with its send guard;
  - the document gate and the document view;
  - the star-to-tag formatting.
- **GeminiService** (`gemini_service.dfy`) models the deterministic parts of
  `services/geminiService.ts`:
  - the role mapping of the chat history;
  - the `sender: text` serialisation;
  - the brace check on the market-tree response;
  - the fixed texts returned when a call throws.
- **StarMarkup** (`star_markup.dfy`) is a scanner for the non-greedy
  replacements of the form `/\*\*(.*?)\*\*/g`. Each pass is a delimiter plus an
  open and a close tag. For the reverse direction it defines `Restore`, which
  turns emitted tags back into the text they replaced. It is used to prove that
  formatting loses no text.
- **JsString** (`js_string.dfy`) models the JavaScript string operations the
  code relies on: `trim`, `startsWith`, `endsWith`, `includes`, `replace`
  with a string pattern, `toLowerCase`, `split`, `join`, and
  `replace(/\n/g, …)`. The code never calls `indexOf`. The model's `IndexOf`
  is a helper that finds a first occurrence, and `includes` and `replace` are
  defined through it.
- **Types** (`types.dfy`) mirrors `types.ts`. The string enum `MessageSender`
  keeps its values `'user'` and `'ai'`. A `Reply` stands for the outcome of a
  call into the hosted model: it either answered with a text or threw.

Each asynchronous handler is modelled as two sequential methods:

- `Begin…` runs up to the `await`;
- `Complete…` takes the awaited result as a parameter and runs the rest.

Some behaviours of the code are modelled as written:

- The workspace strips the first `Validating the idea: ` and then the first
  `Tackling the problem: ` from *anywhere* in its context. An idea that itself
  contains the second phrase loses it in the greeting. `Router.IdeaTopic`
  states the condition under which the greeting shows the quoted idea intact.
- The idea form treats any result starting with `There was an error` as an
  error, including a genuine analysis that happens to start that way.
- A document reply that is the empty string leaves the chat view on screen.
- The workspace receives `initialAnalysis` but never uses it, so the model
  passes only the context.

## Model

| member | source | states |
|---|---|---|
| Types.SenderValue | types.ts:28-31 | The sender's string value is `'user'` exactly for `User` and `'ai'` exactly for `AI`. |
| JsString.Trim | services/geminiService.ts:163 | The trimmed text is empty iff the text is all whitespace. When not empty, it starts and ends with a non-whitespace character. It is never longer than the input. |
| JsString.TrimAround | services/geminiService.ts:163 | Any whitespace before and after a word whose ends are not whitespace is exactly what `trim` drops. |
| JsString.TrimSpan | services/geminiService.ts:163 | `trim` keeps one contiguous segment of the text and drops only whitespace before and after it. |
| JsString.IsBlank | components/Workspace.tsx:35 | The `!x.trim()` guard: the text is blank when trimming leaves nothing. By Trim's contract, that holds iff the text is all whitespace. |
| JsString.StartsWith | components/ValidatorPath.tsx:25 | The text begins with the prefix. AnalysisFailureHasErrorPrefix and LooksLikeObject rely on it. |
| JsString.EndsWith | services/geminiService.ts:164 | The text ends with the suffix. LooksLikeObject and PaddedObjectAccepted rely on it. |
| JsString.IndexOf | components/Workspace.tsx:24 | A found index is the first occurrence at or after the start. "Not found" means the pattern occurs nowhere from the start on. |
| JsString.Includes | components/ExplorerPath.tsx:134 | The pattern occurs somewhere in the text. OccursIncludes and IndexOf's contract tie this to an occurrence at some index. |
| JsString.ReplaceFirst | components/Workspace.tsx:24 | Text without the pattern is unchanged. Otherwise the result is the text with its first occurrence of the pattern, wherever it lies, replaced, and nothing else changed. |
| JsString.ReplaceFirstAt | components/Workspace.tsx:24 | When the first occurrence of `p` in `a + p + b` is the one after `a`, replacing gives `a + rep + b`. |
| JsString.RemoveFirstThenAbsent | components/Workspace.tsx:24 | Of the two chained removals, the first removes exactly its first occurrence and the second changes nothing when the rest lacks its phrase. |
| JsString.AbsentThenRemoveFirst | components/Workspace.tsx:24 | Of the two chained removals, the first changes nothing when its phrase is absent and the second removes exactly its first occurrence. |
| JsString.ToLower | components/ExplorerPath.tsx:134 | Lower-casing keeps the length and maps every character through the letter mapping. |
| JsString.Split | components/ValidatorPath.tsx:34 | Splitting gives one more piece than there are separators, and no piece holds the separator. |
| JsString.Join | services/geminiService.ts:79 | The pieces are concatenated with the separator between neighbours. JoinSplit and SplitJoin show that it is the inverse of Split. |
| JsString.JoinSplit | components/ValidatorPath.tsx:34 | Joining the pieces of a split with the separator gives the text back. |
| JsString.SplitJoin | services/geminiService.ts:79 | Splitting a join of separator-free pieces gives the pieces back. |
| JsString.SplitPiecesOmit | components/ValidatorPath.tsx:34 | A character absent from a text is absent from every piece of its split. |
| JsString.ReplaceAllChar | components/Workspace.tsx:77 | Without the character the text is unchanged. The character does not survive a replacement that lacks it. The length grows by `|rep| - 1` per occurrence. |
| StarMarkup.FindClose | components/Workspace.tsx:59 | The lazy group closes at the first later delimiter that no line terminator precedes. If there is none, every later delimiter lies beyond a line terminator. |
| StarMarkup.MatchAt | components/Workspace.tsx:59 | A match starts with the delimiter and ends at the first later occurrence of it, with no occurrence of the delimiter and no line terminator in between. When there is no match, either the text does not start with the delimiter or every later delimiter lies past a line terminator. |
| StarMarkup.Rewrite | components/Workspace.tsx:59-60 | One global pass: scanning left to right, each matched span becomes open tag, group, close tag, and everything else is copied. Its behaviour is stated by RewriteSpan, RewriteIdentity, RewritePlainPrefix and RewriteRestores. |
| StarMarkup.RewriteSpan | components/Workspace.tsx:59 | A span `d x d` followed by `y` becomes the open tag, `x`, the close tag and the rewritten `y`. This holds when `x` holds no delimiter character and no line terminator. |
| StarMarkup.SpanAlone | components/Workspace.tsx:59-60 | A delimited span on its own becomes open tag, content, close tag. This holds when the content contains no delimiter character and no line terminator. |
| StarMarkup.RewriteIdentity | components/Workspace.tsx:59-60 | Text without the delimiter character is left unchanged by a pass. |
| StarMarkup.RewritePlainPrefix | components/Workspace.tsx:59-60 | Text before the first delimiter character is copied and the rest rewritten independently. |
| StarMarkup.RewriteRestores | components/Workspace.tsx:59-60 | A pass keeps every `<` at a known tag and loses no text. Turning its tags back into delimiters gives what the input restores to. |
| StarMarkup.MarkupRulesValid | components/Workspace.tsx:59-60 | The tags emitted by the chat, document and analysis formatting are well-formed and pairwise distinct. |
| StarMarkup.PassesFit | components/ValidatorPath.tsx:35 | The bold, italic and highlight passes each emit tags from the rule table, and no tag holds a `*`. |
| GeminiService.RoleOf | services/geminiService.ts:48 | `User` maps to `'user'`; every other sender maps to `'model'`. |
| GeminiService.ToContents | services/geminiService.ts:46-51 | The request history has one entry per message, in order. Each entry's role is its sender's role: `'user'` for the user, `'model'` for any other sender. Each entry holds the text as its single part. |
| GeminiService.ContentsRoundTrip | services/geminiService.ts:46-51 | The mapping loses nothing: senders and texts can be read back from the request history. |
| GeminiService.ContentsAppend | services/geminiService.ts:46-51 | Mapping a history with one more message gives the old request followed by one entry. |
| GeminiService.Line | services/geminiService.ts:79 | A line is the sender value, `": "` and the text, by length. |
| GeminiService.Lines | services/geminiService.ts:79 | There is one line per message, in order. |
| GeminiService.LineRoundTrip | services/geminiService.ts:79 | A line can be parsed back into its message. |
| GeminiService.ParseLinesRoundTrip | services/geminiService.ts:79 | The list of lines can be parsed back into the history. |
| GeminiService.Serialize | services/geminiService.ts:79 | The conversation text is the message lines joined with line breaks. Its meaning is stated by SerializeRoundTrip. |
| GeminiService.SerializeRoundTrip | services/geminiService.ts:79 | For single-line messages, `n` messages give `n - 1` separators. The text splits into exactly the message lines and parses back into the same history. |
| GeminiService.LooksLikeObject | services/geminiService.ts:163-164 | The trimmed response starts with `{` and ends with `}`. |
| GeminiService.LooksLikeObjectLength | services/geminiService.ts:163-164 | An accepted response holds at least the two braces. |
| GeminiService.MarketTreeResult | services/geminiService.ts:163-172 | A tree results iff the call answered, the trimmed text starts with `{` and ends with `}`, and parsing succeeded. Then it is the parsed tree; otherwise null. |
| GeminiService.PaddedObjectAccepted | services/geminiService.ts:163-164 | Any text between braces, with any whitespace or none around it, passes the check. This includes `{}` and objects spread over several lines. |
| GeminiService.AnalysisFailureHasErrorPrefix | services/geminiService.ts:39 | The analysis failure text begins with the prefix the idea form tests for. |
| GeminiService.InitialAnalysis | services/geminiService.ts:36-39 | A throwing call yields a text starting with `There was an error`. An answer is passed through. |
| GeminiService.ConversationReply | services/geminiService.ts:70-73 | A throwing call yields the fixed non-empty failure text. An answer is passed through. |
| GeminiService.ValidationDocument | services/geminiService.ts:102-105 | A throwing call yields the fixed non-empty failure text. An answer is passed through. |
| Explorer.IsLeaf | components/ExplorerPath.tsx:32 | A node is a leaf when it has no `children` or an empty `children` list. |
| Explorer.LeafIff | components/ExplorerPath.tsx:32 | A node is a leaf iff its `children` are missing or empty. |
| Explorer.IsSelected | components/ExplorerPath.tsx:33 | A node is selected when some node is selected and the names agree. |
| Explorer.Highlighted | components/ExplorerPath.tsx:46 | A row is highlighted when its node is selected and is a leaf. |
| Explorer.OpportunityFor | components/ExplorerPath.tsx:122-126 | The opportunity takes the node's name as title and has no existing solutions. Its details are the node's details when present and non-empty, otherwise the default sentence, so they are never empty. |
| Explorer.ChildViews | components/ExplorerPath.tsx:66-70 | Children render only when expanded. Then they appear in list order, one level deeper than their parent. |
| Explorer.InitialRows | components/ExplorerPath.tsx:31 | The first render's rows in display order: the node's own row, then its children's rows one level deeper when the node starts expanded. InitialRowsLevels bounds their levels. |
| Explorer.InitialRowsLevels | components/ExplorerPath.tsx:31 | The first render starts with the root's own row and shows nothing deeper than level 2, because levels 0 and 1 start expanded. |
| Explorer.Matches | components/ExplorerPath.tsx:134 | A market matches when its lower-cased name includes the lower-cased query. |
| Explorer.FilterMatching | components/ExplorerPath.tsx:133-135 | The filter keeps exactly the markets whose lower-cased name contains the lower-cased query, each as often as in the input. |
| Explorer.FilterMarkets | components/ExplorerPath.tsx:131-136 | A blank query shows every market; any other query shows the matching ones. |
| Explorer.FilterKeepsOrder | components/ExplorerPath.tsx:131-136 | The markets shown are a subsequence of the list, in original order. |
| Explorer.FilterMatchingSubsequence | components/ExplorerPath.tsx:133-135 | Filtering keeps the original order. |
| Explorer.SubsequenceRefl | components/ExplorerPath.tsx:132 | The unfiltered list is trivially in order. |
| Explorer.ExplorerPath.constructor | components/ExplorerPath.tsx:84-89 | Nothing is selected, loading or failed, and the query is empty. |
| Explorer.ExplorerPath.SetSearchQuery | components/ExplorerPath.tsx:162 | Typing changes only the query. |
| Explorer.ExplorerPath.FilteredMarkets | components/ExplorerPath.tsx:131-136 | The displayed markets are those of the filter for the current query: a subsequence of the list, all of them for a blank query, and otherwise exactly the matching ones with their multiplicities. |
| Explorer.ExplorerPath.BeginSelectMarket | components/ExplorerPath.tsx:91-98 | Choosing a market sets it and starts loading. It clears tree, error and selected node, and requests that market's tree. |
| Explorer.ExplorerPath.CompleteSelectMarket | components/ExplorerPath.tsx:99-104 | Completion sets either the tree or the fixed error text, never both, and ends loading. |
| Explorer.ExplorerPath.HandleBackToMarkets | components/ExplorerPath.tsx:107-112 | Going back clears market, tree, selection and query. It leaves the error and loading flags as they were. |
| Explorer.ExplorerPath.HandleNodeSelect | components/ExplorerPath.tsx:114-118 | A leaf becomes the selection. An inner node leaves the selection unchanged, so only leaves are ever selected. After a leaf is picked, exactly the leaves with its name are highlighted, because selection compares names. |
| Explorer.ExplorerPath.HandleTackleProblem | components/ExplorerPath.tsx:120-129 | Nothing is emitted without a selection. Otherwise the selected leaf's opportunity is emitted. |
| Explorer.MarketNodeView.constructor | components/ExplorerPath.tsx:31 | A node view starts expanded iff its level is below 2. |
| Explorer.MarketNodeView.Children | components/ExplorerPath.tsx:66-72 | An expanded view lists its children in order, one level deeper; a collapsed one lists none. |
| Explorer.MarketNodeView.IsHighlighted | components/ExplorerPath.tsx:46 | The row is highlighted for the explorer's current selection. |
| Explorer.MarketNodeView.HandleToggle | components/ExplorerPath.tsx:35-40 | A click flips expansion only on an inner node. It always passes the node to the explorer's selection handler, so a clicked leaf becomes selected and highlighted. |
| Chat.Topic | components/Workspace.tsx:24 | Stripping never lengthens the context. A context holding neither phrase is kept as is. Otherwise each removal is ReplaceFirst's removal of the first occurrence. |
| Chat.TopicOfValidating | components/Workspace.tsx:24 | A context starting with `Validating the idea: ` loses exactly that phrase, provided the rest does not hold the other phrase. |
| Chat.TopicOfTackling | components/Workspace.tsx:24 | A context starting with `Tackling the problem: ` loses exactly that phrase, provided the context does not hold the other phrase. |
| Chat.TopicOfValidatingWithin | components/Workspace.tsx:24 | `Validating the idea: ` is removed at its first occurrence even after other text, which stays, when the rest lacks the other phrase. |
| Chat.TopicOfTacklingWithin | components/Workspace.tsx:24 | `Tackling the problem: ` is removed at its first occurrence even after other text, which stays, when the context lacks the other phrase. |
| Chat.InitialMessages | components/Workspace.tsx:22-28 | There are exactly two AI messages. The first is the greeting, the stripped context and a closing `*`; the second is the fixed question. |
| Chat.FormatMessage | components/Workspace.tsx:57-62 | The bold pass runs first and the italic pass over its output. Its behaviour is stated by the lemmas below. |
| Chat.FormatMessageIdentity | components/Workspace.tsx:57-62 | Text without `*` is shown unchanged. |
| Chat.FormatMessageRestores | components/Workspace.tsx:57-62 | For a message without `<`, turning the emitted tags back into stars gives the message back, so both passes lose no text. |
| Chat.FormatBoldSpan | components/Workspace.tsx:57-62 | `**x**` with a star-free, single-line `x` becomes `<strong>x</strong>`, and the italic pass leaves it alone. |
| Chat.FormatItalicSpan | components/Workspace.tsx:57-62 | `*x*` with a star-free, single-line `x` becomes `<em>x</em>`; the bold pass leaves it alone. |
| Chat.DocumentHtml | components/Workspace.tsx:77 | The document view replaces every line break with `<br />` and then applies the chat formatting. Its meaning is stated by DocumentRestores. |
| Chat.DocumentRestores | components/Workspace.tsx:77 | For a document without `<`, restoring its HTML gives the document back, line breaks included. |
| Chat.BreaksRestore | components/Workspace.tsx:77 | For text without `<`, restoring the tags undoes the replacement of every line break by `<br />`. |
| Chat.Workspace.constructor | components/Workspace.tsx:14-28 | The workspace starts with the two opening messages and nothing else pending. |
| Chat.Workspace.SetUserInput | components/Workspace.tsx:131 | Typing changes only the input. |
| Chat.Workspace.BeginSendMessage | components/Workspace.tsx:34-43 | A message is sent iff the input is not blank and no reply is pending. Otherwise nothing changes. Sending appends the untrimmed input as the user's message, clears the input and starts loading. It returns the history with that message as the request. |
| Chat.Workspace.CompleteSendMessage | components/Workspace.tsx:43-47 | The reply, or the failure text, is appended as one AI message, and loading ends. |
| Chat.Workspace.Exchange | components/Workspace.tsx:34-48 | A sent exchange appends exactly the user's message with the untyped input and the AI message with the reply text, or the fixed failure text when the call throws. The input is then cleared and loading is off. A refused send leaves the history, the input and the loading flag as they were. The document fields never change. The opening messages and strict alternation are preserved. |
| Chat.Workspace.CanGenerateDocument | components/Workspace.tsx:119 | The document action is offered when the history holds more than four messages. |
| Chat.Workspace.ShowsDocument | components/Workspace.tsx:64 | The document view replaces the chat while a non-empty document is held. |
| Chat.Workspace.BeginGenerateDocument | components/Workspace.tsx:50-52 | Generation starts iff the history holds more than four messages (line 119) and no generation is running (line 122). It requests the current history. |
| Chat.Workspace.CompleteGenerateDocument | components/Workspace.tsx:52-54 | The returned document, or the failure text, is stored and generation ends. The document view shows iff the stored text is non-empty. |
| Chat.Workspace.BackToWorkspace | components/Workspace.tsx:68 | Clearing the document returns to the chat view and changes nothing else. |
| Validator.FormatAnalysis | components/ValidatorPath.tsx:33-37 | There is one paragraph per line: the number of line breaks plus one. |
| Validator.HighlightLines | components/ValidatorPath.tsx:34-35 | Each paragraph is its line with bold spans rewritten to the highlighted tag, in order. |
| Validator.HighlightBoldLine | components/ValidatorPath.tsx:35 | A single-line `**x**` becomes one paragraph `<strong class="text-blue-400">x</strong>`. |
| Validator.FormatAnalysisRestores | components/ValidatorPath.tsx:33-37 | For an analysis without `<`, restoring each paragraph and joining with line breaks gives the analysis back. |
| Validator.ValidatorPath.constructor | components/ValidatorPath.tsx:12-15 | The form starts empty, not loading, with no error. |
| Validator.ValidatorPath.SetIdea | components/ValidatorPath.tsx:53 | Typing changes only the idea. |
| Validator.ValidatorPath.BeginSubmit | components/ValidatorPath.tsx:17-23 | A blank idea sets `Please enter your idea.` and makes no request. Otherwise the error is cleared, loading starts, and the idea is requested. |
| Validator.ValidatorPath.CompleteSubmit | components/ValidatorPath.tsx:24-30 | A result starting with `There was an error` becomes the error and leaves the analysis unchanged; any other result becomes the analysis. Loading ends. A thrown call always lands in the error. |
| Validator.ValidatorPath.ShowsForm | components/ValidatorPath.tsx:46 | The form is shown iff the analysis is empty. |
| Validator.ValidatorPath.Proceed | components/ValidatorPath.tsx:75 | Proceeding hands over the idea and the analysis unchanged, and the analysis is non-empty. |
| Router.RenderStage | App.tsx:47-60 | Each stage renders its own component, and no two stages render the same one. |
| Router.IdeaContext | App.tsx:25 | The idea context is `Validating the idea: ` followed by the quoted idea. |
| Router.ProblemContext | App.tsx:31 | The problem context is `Tackling the problem: ` followed by the quoted title. |
| Router.IdeaTopic | App.tsx:25 | The workspace greeting for an idea context shows the quoted idea, unless that contains `Tackling the problem: `. |
| Router.ProblemTopic | App.tsx:31 | The workspace greeting for a problem context shows the quoted title, unless the context contains `Validating the idea: `. |
| Router.App.constructor | App.tsx:11-14 | The app starts at `Welcome`, with the dialog hidden and empty context and analysis. |
| Router.App.ShowsAuthModal | App.tsx:67 | The sign-in dialog is drawn iff its flag is set. |
| Router.App.HandleSelectPath | App.tsx:16-22 | `'validator'` goes to the idea form; any other path goes to the explorer. Nothing else changes. |
| Router.App.HandleIdeaReady | App.tsx:24-28 | The context becomes the idea template and the analysis the given text. The dialog shows and the stage stays. |
| Router.App.HandleProblemReady | App.tsx:30-34 | The context becomes the problem template and the analysis `Problem details: ` plus the details. The dialog shows and the stage stays. |
| Router.App.HandleAuthSuccess | App.tsx:36-39 | The dialog hides and the workspace opens. Context and analysis are kept. |
| Router.App.HandleGoHome | App.tsx:41-45 | The app returns to `Welcome` with context and analysis cleared. The dialog flag is untouched. |
| Router.App.MountWorkspace | App.tsx:55-56 | The workspace is created with the current context and starts from its opening messages. |
| Router.OpeningText | components/Workspace.tsx:24 | The first opening message is the greeting, the stripped context and `*`. |
| Router.IdeaJourney | App.tsx:50-56 | An accepted non-blank idea, carried through form, sign-in and workspace, opens the chat with a greeting that names the quoted idea. This holds when the quoted idea does not contain `Tackling the problem: `. |
| Router.ProblemJourney | App.tsx:50-56 | A leaf of the loaded tree, selected and carried through sign-in, ends in the workspace. The chat opens with a greeting naming the quoted leaf, and `Problem details: ` plus the leaf's details is handed over. This holds when the tackling context does not contain `Validating the idea: `. |

## Left out

- Calls into the hosted model are not modelled: `generateContent`, chat
  creation, `sendMessage`, the API-key check and client construction. What a
  call ends with is a `Reply` parameter.
- `JSON.parse` and the response schema are not modelled. The parsed tree is a
  parameter of `GeminiService.MarketTreeResult`.
- The prompt templates are not modelled beyond the fact that the idea or
  market name is what a request carries.
- React's asynchronous scheduling is not modelled. This includes overlapping
  requests and functional state updates. Each asynchronous handler is a
  sequential begin/complete pair, and the completing half requires the loading
  flag the first half set.
- `useEffect` timing is not modelled: `Chat.Workspace.constructor` gives the
  state once the opening-message effect has run. A change of `context` on a
  mounted workspace is not modelled.
- JSX rendering, CSS classes, icons, scrolling into view and the inserted HTML
  itself are not modelled. The formatting functions produce the HTML string.
- The welcome screen, the sign-in dialog's markup, the icons, the build
  configuration and the static market list are not modelled. The market list is
  a parameter of the filter.
- General regular expressions are not modelled. Only the non-greedy star
  patterns are implemented, as scanners in which the lazy group does not cross
  a line terminator, as `.` does not.
- JsString.ToLower: lower-cases the ASCII letters only, not the full Unicode
  case mapping of `toLowerCase`.
- Chat.FormatMessageRestores: proved only for messages without `<`. With a `<`
  in the text, an emitted tag and literal text could not be told apart.
- Chat.DocumentRestores: proved only for documents without `<`, for the same
  reason.
- Validator.FormatAnalysisRestores: proved only for analyses without `<`, for
  the same reason.
- Validator.ValidatorPath.BeginSubmit: requires the form not to be loading. The
  submit button is disabled while loading (components/ValidatorPath.tsx:62).
- Chat.Workspace.BeginGenerateDocument: offered only when the button is
  available. That means more than four messages, and not disabled by a running
  generation (components/Workspace.tsx:119-122).
- Router.RenderStage: the `default` branch of the switch is unreachable for a
  value of type `Stage`, so it has no counterpart.
- The `initialAnalysis` prop of the workspace is not modelled, because the
  component never reads it.
