# Markdown workspace core, modelled in Dafny

A model of the core of a browser markdown workspace: an editor, a live
preview and a file sidebar. It covers these parts:

- **Text** (`text.dfy`): ECMAScript `trim`, the `\s` class, the first word
  of a string, and lower-casing.
- **CodeLanguage** (`code_language.dfy`): the override of the markdown
  parser's code-block renderer. It picks a whitelisted language token from a
  fence's info string and sends `mermaid` blocks on untouched. Every other
  block goes to a named grammar or to auto-detection, and the result gets
  the `hljs language-X` class. The override appears twice in the workspace,
  in the rendering hook and in the older preview component. The two copies
  are identical, so it is modelled once.
- **DiagramPass** (`diagram_pass.dfy`): the pass that replaces each rendered
  `code.language-mermaid` element by a `mermaid-diagram` div. Both variants
  are modelled: the hook's, which starts all renders at once and lets them
  settle in any order, and the older component's, which renders them one by
  one.
- **RenderHook** (`render_hook.dfy`): the state of `useMarkdownRenderer`.
  Effect runs are numbered, and a cleaned-up (cancelled) run is one whose
  number is no longer current. Also here: `fallbackHtml` and the renderer
  that is created once.
- **MarkdownPreview** (`markdown_preview.dfy`): the older preview
  component. It renders on a 200 ms debounce, has no cancellation, and keeps
  its own drag state.
- **DeferredStorage** (`deferred_storage.dfy`): the write-batching storage
  in front of `localStorage`.
- **PointerResize** (`pointer_resize.dfy`): pane resizing driven by
  animation frames.
- **KeyboardShortcuts** (`keyboard_shortcuts.dfy`): the global key handler.
- **WorkspaceStore** (`workspace_store.dfy`): the persisted workspace store.
- **Sidebar** (`sidebar.dfy`): the sidebar's ordering, its guards and its
  rename field.

Third-party code appears only as function-typed parameters. These are the
markdown parser's whole pipeline, the highlighter's three calls and the
diagram renderer, and the model says only what the workspace does with
their results. `localStorage` is a map, and whether it accepts each write
is a parameter. Browser scheduling (timers, idle callbacks, animation
frames, promise settlement) becomes explicit events. Pixel arithmetic uses
`real`.

The "last input wins" guarantee holds for the rendering hook
(`RenderHook.LastInputWins`). The older preview component does not have it;
see Findings.

## Model

| member | source | states |
|---|---|---|
| Text.IsWhitespace | src/hooks/useMarkdownRenderer.ts:44 | the characters `\s` matches and `trim` removes |
| Text.WhitespaceIsEcmaSet | src/hooks/useMarkdownRenderer.ts:44 | that character set is exactly ECMAScript's WhiteSpace (tab, vertical tab, form feed, byte order mark and the Unicode space separators) plus its LineTerminator (line feed, carriage return, line and paragraph separators) |
| Text.Trim | src/hooks/useMarkdownRenderer.ts:141 | the trimmed text neither starts nor ends with whitespace |
| Text.TrimShape | src/hooks/useMarkdownRenderer.ts:141 | the trimmed text is a slice of the input, and everything cut away before and after it is whitespace |
| Text.TrimOfPadded | src/hooks/useMarkdownRenderer.ts:44 | trimming leading whitespace, a word that starts and ends with a non-whitespace character, and anything after it yields the word followed by a prefix of what came after |
| Text.TrimEmptyIff | src/hooks/useMarkdownRenderer.ts:141-143 | text trims to nothing exactly when it is all whitespace, which is the hook's blank-input test |
| Text.TrimOfTrimmed | src/hooks/useMarkdownRenderer.ts:141 | trimming text that has no whitespace at either end returns it unchanged, so trimming twice is trimming once |
| Text.FirstWord | src/hooks/useMarkdownRenderer.ts:44 | `split(/\s+/, 1)[0]` of trimmed text is the longest whitespace-free prefix, ending at whitespace or at the end |
| Text.FirstWordOfWords | src/hooks/useMarkdownRenderer.ts:44 | a word followed by whitespace and anything else splits to that word |
| Text.ToLower | src/hooks/useMarkdownRenderer.ts:44 | lower-casing keeps the length, maps each ASCII capital to its small letter, keeps every other character, and leaves no ASCII capital |
| CodeLanguage.IsSafeLang | src/hooks/useMarkdownRenderer.ts:45 | the whitelist `/^[0-9a-z+-]+$/i`: a non-empty string of ASCII digits, ASCII letters of either case, `+` and `-` |
| CodeLanguage.RawLanguage | src/hooks/useMarkdownRenderer.ts:43-44 | the raw language of an absent info string is empty; otherwise it is no longer than the info string, has no whitespace and no ASCII capital |
| CodeLanguage.LowerKeepsSafety | src/hooks/useMarkdownRenderer.ts:44-45 | ASCII lower-casing neither admits a token to the case-insensitive whitelist nor drops one from it, and a whitelisted token comes out lower-case |
| CodeLanguage.LanguageToken | src/hooks/useMarkdownRenderer.ts:42-46 | the token is empty exactly when the info string's first word fails the whitelist; otherwise it is that word lower-cased, over `[0-9a-z+-]` only |
| CodeLanguage.TokenOfInfo | src/hooks/useMarkdownRenderer.ts:43-46 | for any leading whitespace and any trailing words, the token is the first word lower-cased when it passes the whitelist, and empty otherwise |
| CodeLanguage.ClassNames | src/hooks/useMarkdownRenderer.ts:68-71 | the class list always starts with `hljs` and has `language-X` exactly when the detected language X passes the whitelist |
| CodeLanguage.ClassAttr | src/hooks/useMarkdownRenderer.ts:68-73 | the class attribute consists only of whitelist characters and spaces |
| CodeLanguage.ClassAttrRoundTrip | src/hooks/useMarkdownRenderer.ts:68-73 | the language read back from the attribute is the detected one exactly when it passes the whitelist; otherwise the attribute is plain `hljs` |
| CodeLanguage.RouteOf | src/hooks/useMarkdownRenderer.ts:48-62 | `mermaid` goes to the parser's own rendering; a non-empty token with a known grammar is highlighted with it; everything else is auto-detected |
| CodeLanguage.RenderCode | src/hooks/useMarkdownRenderer.ts:41-74 | a fallback hands back the block itself; a `mermaid` token always falls back; a detected language has no upper-case letter |
| CodeLanguage.DetectedLanguage | src/hooks/useMarkdownRenderer.ts:52-62 | the detected language is the token when its grammar is known; otherwise it is the auto-detected name lower-cased, or the token when auto-detection names none |
| CodeLanguage.FallbackIff | src/components/MarkdownPreview.tsx:74-91 | the renderer falls back to the parser's output exactly when the token is `mermaid` or the highlighting call the block was routed to threw |
| CodeLanguage.HighlightedHtml | src/hooks/useMarkdownRenderer.ts:73 | the emitted `<pre><code>` element (its layout is stated by HighlightedAttrClosed) |
| CodeLanguage.HighlightedAttrClosed | src/hooks/useMarkdownRenderer.ts:68-73 | the class value is exactly the built attribute and ends at the first quote after `class="`, so the highlighted markup can never reach into the attribute; the markup sits whole between the tags |
| CodeLanguage.ClassAttrSafeFor | src/hooks/useMarkdownRenderer.ts:68-73 | for any detected language without upper-case letters, the attribute is `hljs` or `hljs language-X` with X lower-case and whitelisted |
| CodeLanguage.ClassAttrIsSafe | src/components/MarkdownPreview.tsx:93-98 | whatever the info string and the highlighter return, the attribute is `hljs` or `hljs language-X` with X lower-case and whitelisted, so it never holds a quote or angle bracket |
| DiagramPass.Positions | src/hooks/useMarkdownRenderer.ts:83-85 | the collected elements are exactly the diagram blocks, in document order |
| DiagramPass.Resolve | src/hooks/useMarkdownRenderer.ts:88-111 | a block changes only into a diagram holding its own SVG, and does so exactly when it has a parent, its render succeeded, and (in the hook) its text is non-empty |
| DiagramPass.RangeIsCompletionOrder | src/hooks/useMarkdownRenderer.ts:87-88 | settling in index order is one of the possible completion orders |
| DiagramPass.SettleCharacterization | src/hooks/useMarkdownRenderer.ts:87-113 | after any set of distinct renders has settled, each settled block is resolved with its own ordinal and every other block is unchanged |
| DiagramPass.FullySettledUnique | src/hooks/useMarkdownRenderer.ts:87-115 | the fully settled document is determined by the input document and the renderer |
| DiagramPass.CompletionOrderSettlesAll | src/hooks/useMarkdownRenderer.ts:87-115 | once every render has settled, in whatever order, the document is fully settled |
| DiagramPass.SubstituteConcurrent | src/hooks/useMarkdownRenderer.ts:83-115 | the hook's pass yields the fully settled document |
| DiagramPass.CompletionOrderIrrelevant | src/hooks/useMarkdownRenderer.ts:87-113 | every completion order of the concurrent renders gives the same document |
| DiagramPass.ConcurrentChangesOnlyRenderedDiagrams | src/hooks/useMarkdownRenderer.ts:89-108 | the pass keeps the length, and changes a block only into the SVG its own render produced, when its text is non-empty and it has a parent |
| DiagramPass.SubstituteSequential | src/components/MarkdownPreview.tsx:118-140 | the older component's loop, one render at a time with failures skipped, also reaches the fully settled document |
| DiagramPass.VariantsAgreeOffEmptyText | src/components/MarkdownPreview.tsx:120-140 | the two variants differ only on diagram blocks with empty text |
| RenderHook.Committed | src/hooks/useMarkdownRenderer.ts:157-182 | a settled render commits its HTML, or the error paragraph when the pipeline threw |
| RenderHook.OnInput | src/hooks/useMarkdownRenderer.ts:140-155 | a new input starts a new run; blank input clears the HTML and rendering at once; other input keeps the old HTML, sets rendering and renders the trimmed text |
| RenderHook.OnSettled | src/hooks/useMarkdownRenderer.ts:161-182 | only the current run of a mounted hook commits, with rendering cleared; a cancelled run changes nothing visible |
| RenderHook.OnUnmount | src/hooks/useMarkdownRenderer.ts:187-189 | unmounting cancels the current run and leaves the state as it was |
| RenderHook.Initial | src/hooks/useMarkdownRenderer.ts:135-138 | the hook starts mounted, with empty HTML, not rendering, and no run in flight (its invariant is InitialConsistent) |
| RenderHook.InitialConsistent | src/hooks/useMarkdownRenderer.ts:135-138 | the initial state is consistent |
| RenderHook.InputConsistent | src/hooks/useMarkdownRenderer.ts:140-155 | a new input keeps the hook consistent |
| RenderHook.SettledConsistent | src/hooks/useMarkdownRenderer.ts:157-183 | a settling render, current or cancelled, keeps the hook consistent |
| RenderHook.StepConsistent | src/hooks/useMarkdownRenderer.ts:140-190 | every event keeps the hook consistent: rendering exactly while the current run is in flight, and otherwise showing the HTML of the current input |
| RenderHook.LastInputWins | src/hooks/useMarkdownRenderer.ts:140-190 | after any interleaving of inputs, completions, errors and clean-ups, a mounted hook that is not rendering shows the result for the latest input |
| RenderHook.StaleRenderDropped | src/hooks/useMarkdownRenderer.ts:161-163 | a render overtaken by a newer input commits nothing when it settles |
| RenderHook.FallbackHtml | src/hooks/useMarkdownRenderer.ts:192-195 | the preview is never blank: the HTML when there is some, the placeholder otherwise |
| RenderHook.GetRenderer | src/hooks/useMarkdownRenderer.ts:119-124 | a request creates the renderer only when none was created before, and otherwise returns the slot unchanged |
| RenderHook.RendererCreatedOnce | src/hooks/useMarkdownRenderer.ts:119-124 | any number of requests create the renderer exactly once, and all see the first creation's outcome, failure included |
| RenderHook.CreatedSlotStays | src/hooks/useMarkdownRenderer.ts:120-123 | once created, the renderer is never created again |
| MarkdownPreview.OnMarkdown | src/components/MarkdownPreview.tsx:151-152 | a change of markdown replaces the pending timer with one over the new value and leaves the shown HTML alone |
| MarkdownPreview.OnTimer | src/components/MarkdownPreview.tsx:105-114 | blank markdown empties the HTML without touching the rendering flag; otherwise a render of the untrimmed markdown starts and the flag is set |
| MarkdownPreview.OnSettled | src/components/MarkdownPreview.tsx:142-148 | any render that settles, current or not, writes its HTML or the error paragraph and clears the rendering flag |
| MarkdownPreview.DebounceRendersCurrent | src/components/MarkdownPreview.tsx:104-153 | after any sequence of events the armed timer holds the current markdown, so each render that starts is of the markdown current at that moment |
| MarkdownPreview.EditsCoalesce | src/components/MarkdownPreview.tsx:151-152 | two edits before the timer fires act as the second alone |
| MarkdownPreview.StaleRenderOverwrites | src/components/MarkdownPreview.tsx:104-153 | from any state, for any two non-blank edits: the older render's settling clears `isRendering` while the newer one is still running, and when the older render settles last its HTML stays on screen under the newer markdown |
| MarkdownPreview.PreviewContent | src/components/MarkdownPreview.tsx:214-219 | the shown content is the HTML, or the placeholder when the HTML is empty |
| MarkdownPreview.StartSplitResize | src/components/MarkdownPreview.tsx:198-204 | a split drag starts only in split view, and nothing changes otherwise |
| MarkdownPreview.StartPreviewResize | src/components/MarkdownPreview.tsx:206-212 | a preview drag starts only in preview view, and nothing changes otherwise |
| MarkdownPreview.OnViewMode | src/components/MarkdownPreview.tsx:52-54 | a change of view mode drops any drag |
| MarkdownPreview.ClearDrag | src/components/MarkdownPreview.tsx:183-185 | pointer up and pointer cancel drop the drag |
| MarkdownPreview.DragStepKeepsMode | src/components/MarkdownPreview.tsx:52-54 | a split drag only exists in split view and a preview drag only in preview view, whatever the event |
| MarkdownPreview.PointerMove | src/components/MarkdownPreview.tsx:156-181 | every move of a drag over a container of non-zero width commits, for the active drag, the horizontal position inside its range and the nearer bound outside it, with no threshold and without looking at the height |
| MarkdownPreview.PointerMoveMatchesHookProposal | src/components/MarkdownPreview.tsx:156-181 | each move commits exactly the ratio the hook's frame would propose for the same horizontal position on a desktop layout, for the same drag |
| PointerResize.Clamp | src/hooks/usePointerResize.ts:83 | the clamped value lies in the range, equals the input inside it and the nearer bound outside it |
| PointerResize.ClampIdempotent | src/hooks/usePointerResize.ts:89-92 | clamping twice is clamping once |
| PointerResize.StartSplitResize | src/hooks/usePointerResize.ts:121-127 | starting a split drag sets only the drag |
| PointerResize.StartPreviewResize | src/hooks/usePointerResize.ts:129-135 | starting a preview drag sets only the drag |
| PointerResize.CancelPendingFrame | src/hooks/usePointerResize.ts:42-47 | the pending frame is dropped and the drag is kept |
| PointerResize.CancelActiveResize | src/hooks/usePointerResize.ts:49-52 | the drag and the pending frame are both dropped, and the ratios are kept |
| PointerResize.SyncRatios | src/hooks/usePointerResize.ts:34-40 | the ratio refs follow the props |
| PointerResize.PointerMove | src/hooks/usePointerResize.ts:55-99 | without a drag or with a degenerate container nothing happens; otherwise the pending frame is replaced by one for this position and layout |
| PointerResize.Proposed | src/hooks/usePointerResize.ts:81-92 | the split ratio follows the vertical position on mobile and the horizontal one otherwise, and the preview ratio follows the horizontal one: the position itself inside the drag's range, the nearer bound outside it |
| PointerResize.FrameFires | src/hooks/usePointerResize.ts:75-98 | a frame with no drag commits nothing; a commit lies within its drag's range and updates only that ratio ref |
| PointerResize.CommitIff | src/hooks/usePointerResize.ts:81-97 | a frame commits exactly when the clamped ratio differs from the last committed one by more than 0.001, and it commits that ratio for the active drag |
| PointerResize.LatestMoveWins | src/hooks/usePointerResize.ts:73-75 | two moves before a frame fires act as the second alone |
| PointerResize.ReleasedDragCommitsNothing | src/hooks/usePointerResize.ts:76-79 | after pointer up, no pending frame and no later move commits anything |
| PointerResize.InitialRatiosInRange | src/store/useWorkspaceStore.ts:28-29 | the store's initial ratios lie inside the ranges the drags clamp to, so a frame proposing the current split ratio commits nothing |
| KeyboardShortcuts.IndexOf | src/hooks/useKeyboardShortcuts.ts:20-21 | every view mode has its place in the cycle |
| KeyboardShortcuts.NextMode | src/hooks/useKeyboardShortcuts.ts:21-23 | the next mode always differs from the current one |
| KeyboardShortcuts.CycleOrder | src/hooks/useKeyboardShortcuts.ts:20-23 | the cycle runs split, editor, preview, and three steps return to the start |
| KeyboardShortcuts.HandleKeyDown | src/hooks/useKeyboardShortcuts.ts:16-34 | the view mode changes exactly on Shift+Tab, to the next mode; full width toggles exactly on `f` or `F` in preview view with a toggle callback |
| KeyboardShortcuts.OtherKeysIgnored | src/hooks/useKeyboardShortcuts.ts:16-34 | every other key, Tab without Shift included, does nothing |
| KeyboardShortcuts.ThreePressesReturn | src/hooks/useKeyboardShortcuts.ts:17-25 | three Shift+Tab presses return to the starting mode, and one press always leaves it |
| WorkspaceStore.ViewModeNamesRoundTrip | src/store/useWorkspaceStore.ts:4 | each view mode has its own stored name, and a stored name parses back to its mode |
| WorkspaceStore.Initial | src/store/useWorkspaceStore.ts:26-31 | the store starts with empty markdown, split view, ratios 0.5 and 0.7, and both layout flags off |
| WorkspaceStore.Apply | src/store/useWorkspaceStore.ts:32-37 | each setter assigns its own field and leaves the other five alone |
| WorkspaceStore.Partialize | src/store/useWorkspaceStore.ts:45-50 | the persisted projection carries the markdown, the view mode and the two ratios unchanged |
| WorkspaceStore.InitialPersistedIgnoresLayout | src/store/useWorkspaceStore.ts:26-50 | the layout flags a fresh store is first given do not change what it persists, which starts with empty markdown in split view |
| WorkspaceStore.PartializeKeepsExactlyFour | src/store/useWorkspaceStore.ts:45-50 | two states persist alike exactly when their markdown, view mode and two ratios agree |
| WorkspaceStore.PersistedChangeIff | src/store/useWorkspaceStore.ts:32-50 | a setter leaves the persisted state unchanged exactly when it sets a layout flag or writes the value already there |
| DeferredStorage.FlushDelay | src/store/createDeferredStateStorage.ts:34 | the delay is the option, or 250 ms without it, and never negative |
| DeferredStorage.Create | src/store/createDeferredStateStorage.ts:26-39 | without a window the storage is the inert stub; otherwise it starts over the current storage with nothing pending, nothing waiting, no handle armed and the delay `FlushDelay` computes |
| DeferredStorage.GetItem | src/store/createDeferredStateStorage.ts:133-139 | a read returns the pending value first, then the stored one, and nothing when neither exists |
| DeferredStorage.Written | src/store/createDeferredStateStorage.ts:74-80 | after a flush, storage holds each accepted pending value; a refused write leaves the old value, or no key |
| DeferredStorage.Flush | src/store/createDeferredStateStorage.ts:65-84 | a flush cancels both handles, resolves every waiter, empties the pending writes, and leaves storage alone when nothing was pending |
| DeferredStorage.FlushIdempotent | src/store/createDeferredStateStorage.ts:65-84 | flushing twice is flushing once |
| DeferredStorage.FlushPreservesReads | src/store/createDeferredStateStorage.ts:65-84 | when storage accepts every write, a flush changes no key's reading |
| DeferredStorage.ScheduleFlush | src/store/createDeferredStateStorage.ts:86-112 | with nothing pending both handles are cleared; otherwise the timeout is armed, an armed handle is never replaced, and the idle callback is armed exactly where the browser has one |
| DeferredStorage.SetItem | src/store/createDeferredStateStorage.ts:140-146 | a write becomes pending for its key, leaves other keys and storage alone, adds one waiter and leaves a timeout armed |
| DeferredStorage.ReadYourWrite | src/store/createDeferredStateStorage.ts:133-146 | a read right after a write returns the written value, and every other key reads as before |
| DeferredStorage.LastWritePending | src/store/createDeferredStateStorage.ts:140-142 | two writes to one key before a flush leave one pending entry, with the later value |
| DeferredStorage.RemoveItem | src/store/createDeferredStateStorage.ts:147-151 | a removal deletes the key from both the pending writes and storage at once |
| DeferredStorage.RemovedStaysRemoved | src/store/createDeferredStateStorage.ts:147-151 | a removed key reads as absent, also after a flush |
| DeferredStorage.StepKeepsAbsent | src/store/createDeferredStateStorage.ts:65-151 | a key that is neither pending nor stored stays so through every event except a write of that key |
| DeferredStorage.RemovedUntilWritten | src/store/createDeferredStateStorage.ts:147-151 | after a removal, the key reads as absent along any sequence of events that does not write it again, flushes included |
| DeferredStorage.IdleFires | src/store/createDeferredStateStorage.ts:97-101 | an armed idle callback flushes, and an unarmed one does nothing |
| DeferredStorage.TimeoutFires | src/store/createDeferredStateStorage.ts:107-110 | an armed timeout flushes, and an unarmed one does nothing |
| DeferredStorage.StepKeepsFlushScheduled | src/store/createDeferredStateStorage.ts:86-151 | each event keeps a flush armed while anything is pending or waiting, and keeps the handles distinct and drawn from the counter |
| DeferredStorage.NoWriteLeftBehind | src/store/createDeferredStateStorage.ts:65-151 | along any sequence of writes, removals, idle callbacks, timeouts and page hides, no write or waiter is left without an armed flush |
| DeferredStorage.DeferredGet | src/store/createDeferredStateStorage.ts:26-31 | the stub reads nothing, and the browser storage reads through `getItem` |
| DeferredStorage.DeferredSet | src/store/createDeferredStateStorage.ts:26-31 | the stub ignores writes |
| DeferredStorage.DeferredRemove | src/store/createDeferredStateStorage.ts:26-31 | the stub ignores removals |
| Sidebar.InsertByRecent | src/components/workspace/Sidebar.tsx:28-30 | inserting into a newest-first list keeps it newest first and adds exactly that session |
| Sidebar.SortByRecent | src/components/workspace/Sidebar.tsx:27-30 | the sorted list is a permutation of the sessions, newest first |
| Sidebar.SortKeepsSorted | src/components/workspace/Sidebar.tsx:28-30 | a list already newest first is left exactly as it is |
| Sidebar.SortIdempotent | src/components/workspace/Sidebar.tsx:28-30 | sorting twice is sorting once |
| Sidebar.CloseOnMobile | src/components/workspace/Sidebar.tsx:41-43 | the sidebar closes exactly on the mobile layout |
| Sidebar.CreateClicked | src/components/workspace/Sidebar.tsx:39-44 | the create button always calls `addSession` first, and closes the sidebar exactly on mobile |
| Sidebar.SessionChosen | src/components/workspace/Sidebar.tsx:126-129 | choosing a session makes it current, and closes the sidebar exactly on mobile |
| Sidebar.RowKeyDown | src/components/workspace/Sidebar.tsx:130-135 | Enter on a row chooses it, and any other key does nothing |
| Sidebar.DeleteClicked | src/components/workspace/Sidebar.tsx:46-50 | deletion is refused exactly while at most one session exists |
| Sidebar.RenameStart | src/components/workspace/Sidebar.tsx:52-55 | a double click starts editing that session with its current name |
| Sidebar.EditNameChanged | src/components/workspace/Sidebar.tsx:117 | typing replaces the edited name and keeps the session being edited |
| Sidebar.RenameSave | src/components/workspace/Sidebar.tsx:57-62 | a save renames exactly when an id is being edited and the name is not blank, stores the name trimmed, and always ends editing |
| Sidebar.SavedNameIsTrimmed | src/components/workspace/Sidebar.tsx:58-59 | a stored name is never blank and has no surrounding whitespace |
| Sidebar.EditKeyDown | src/components/workspace/Sidebar.tsx:64-70 | Enter saves, Escape ends editing without saving, and other keys do nothing |
| Sidebar.EscapeDiscards | src/components/workspace/Sidebar.tsx:67-69 | whatever was typed, Escape renames nothing |
| Sidebar.RowOf | src/components/workspace/Sidebar.tsx:109-163 | the session being edited shows the input; the others show their name, the current-session highlight, and a delete button exactly when more than one session exists |
| Sidebar.Render | src/components/workspace/Sidebar.tsx:72-168 | a closed sidebar renders nothing; an open one renders one row per session, newest first |
| Sidebar.Perform | src/components/workspace/Sidebar.tsx:39-49 | creation adds the created session and touches no other id, deletion removes exactly that id, and no other command changes which sessions exist |
| Sidebar.CreateAddsSession | src/components/workspace/Sidebar.tsx:39-44 | with a fresh id, the create button adds exactly one session, the created one, on mobile and desktop alike |
| Sidebar.DeleteKeepsOneSession | src/components/workspace/Sidebar.tsx:46-50 | the delete button never removes the last session |

## Left out

- Third-party internals are not modelled: the markdown parser, the syntax highlighter, the diagram renderer and the HTML serialiser. Each is a function-typed parameter. The code renderer's `originalCode` output is the block itself (`Original`).
- Text.ToLower: lower-cases ASCII letters only, while `toLowerCase` also maps other scripts (the Kelvin sign becomes `k`, for instance). Because of this, CodeLanguage.LanguageToken can yield an empty token where the real function accepts a word that lower-cases into the whitelist.
- CodeLanguage.LowerKeepsSafety: holds for the model's ASCII lower-casing only. With `toLowerCase`, a word that fails the whitelist (one holding a Kelvin sign) can lower-case into it.
- DOM work is reduced to a sequence of top-level blocks: `innerHTML`, `querySelectorAll` on nested markup, and `replaceWith`. Whether an element has a replaceable parent is a flag on the block, and replacing that parent replaces only the block itself. This matches the `<pre><code>` pairs the parser emits for fences, but not raw HTML that the parser passes through.
- DiagramPass.ConcurrentChangesOnlyRenderedDiagrams: holds only for diagram elements that are alone in their parent, as fences are. For raw inline HTML such as `Intro <code class="language-mermaid">…</code> outro`, the pass replaces the whole enclosing paragraph, and the text around the element disappears. The block model cannot express this.
- DiagramPass.CompletionOrderIrrelevant: holds only when no two diagram elements share a parent. With two such elements in one raw-HTML paragraph, the first render to settle replaces the paragraph. The second `replaceWith` then acts on a detached node and changes nothing, so the output depends on which render settles first.
- The random part of the diagram ids (`crypto.randomUUID`, or `Math.random`) is not modelled. The renderer receives only the ordinal.
- React scheduling is reduced to explicit events: effects, `useDeferredValue` coalescing, batching of `setState`, and the equality short-cuts of the state updaters, which produce equal states anyway. An input event stands for a change of the deferred value.
- The pipeline is a deterministic function of its input. Repeated renders of one text give one result.
- Floating point is modelled as exact `real` arithmetic: the divisions and the 0.001 threshold test. NaN and infinite ratios are not modelled.
- Timers, idle callbacks and animation frames are events. Their timing, including the 250 ms delay and the 200 ms debounce, is not modelled.
- DeferredStorage assumes that `requestIdleCallback` and `cancelIdleCallback` are either both present or both absent. With only the first, a stale idle callback could still run after a flush.
- DeferredStorage.Create: a `flushDelayMs` of NaN is not modelled.
- DeferredStorage.GetItem: the model assumes storage can always be read. In the source the `localStorage.getItem` call for a key that is not pending sits outside any `try`. Where storage access throws (a `SecurityError` with storage blocked, for instance), the read throws, and the model does not say so.
- DeferredStorage.RemoveItem: the model assumes storage can always be written. In the source `localStorage.removeItem` sits outside any `try`, after the pending entry has been deleted. Where storage access throws, the removal drops the pending value, keeps the stored one and throws. The model, and RemovedStaysRemoved and RemovedUntilWritten with it, cover only the case where the call succeeds.
- DeferredStorage counts the waiting promises rather than holding them.
- Unload listeners: `beforeunload`, `pagehide` and `visibilitychange` to hidden all become one page-hidden event that flushes.
- Error logging through `console.error` is not modelled.
- Sidebar.SortByRecent: states ordering and permutation but not stability. Sessions with equal `updatedAt` keep their order in the model's insertion sort, as in JavaScript's stable sort, but no lemma states it.
- The session CRUD (`addSession`, `deleteSession`, `updateSession`, `setCurrentSessionId`, `setSidebarOpen`) is not in the workspace store as shown. The sidebar's handlers yield these calls as commands. A minimal map interprets creation, deletion, renaming, the current id and the open flag. The created session, its fresh id and timestamp included, is a parameter.
- Sidebar.Perform: whether `addSession` also makes the new session current is a matter of the store, which is not part of this model. The model leaves the current id alone on creation, and no contract states it either way.
- The focus and select calls when a rename starts are not modelled, and neither is any styling.
- zustand's persistence machinery is not modelled: JSON serialisation, hydration and merging. Only the `partialize` projection is modelled, and the store key is not.
- MarkdownPreview: the light-theme effect, the view-mode buttons and the unmount clean-up of the debounce timer are not modelled.
- The UI-only components and files outside the core are not modelled: the command palette, the editor and preview panes, the split view, the header, the auto dark mode, the layout and the social image.

## Findings

| source | as written | input that shows it | evidently intended | confidence | as-written member | corrected member |
|---|---|---|---|---|---|---|
| src/components/MarkdownPreview.tsx:104-153 | the debounced `processMarkdown` has no cancellation, so every render that settles writes its HTML and clears `isRendering` | type `x`, let the timer fire, type `y`, let the timer fire; the render of `y` settles, then the render of `x` | the preview shows the HTML of the latest markdown once rendering is over, as the hook guarantees | not executed | MarkdownPreview.StaleRenderOverwrites | RenderHook.LastInputWins |

In the trace above, the older component shows the HTML for `x` while the
markdown is `y`. Its `isRendering` also turns false when the first render
settles, even though a newer render is still in flight. The rendering hook
has neither problem: a cleaned-up run never commits
(`RenderHook.StaleRenderDropped`), and in every reachable state the HTML
shown at rest is the one for the latest input (`RenderHook.LastInputWins`).
