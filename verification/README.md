# Flash jump-to-label search: a Dafny model of the per-keystroke state machine

This project models the core of the "flash" search in an editor's Vim emulation.
The user starts a session (`f`, or `gB` for multi-select). Each key typed
then either narrows the search string or selects a labelled match. A
selected match moves the cursor, or in multi-select mode adds or removes its
position in a list of cursors.

Two source files are modelled:

- `Flash` in `src/actions/plugins/flash/flash.ts` is the session record. It
  becomes the class `FlashSession.Flash`, whose methods change exactly the
  fields the source changes. Each method's frame is a single field
  (``modifies this`searchString``), so the contract also says that nothing
  else changes. `createFlash` becomes `FlashSession.CreateFlash`.
- `src/actions/plugins/flash/flashAction.ts` has the commands. The per-key
  logic is written twice:
  - `FlashMachine` is a pure specification. Each handler is a function from
    the editor state before the key to the state after it. The lemmas in
    that module state what one keystroke does.
  - `FlashAction` holds the commands as imperative methods over the host
    state `FlashAction.VimState`, which holds the live `Flash` object. Each
    method is proved to leave exactly the state its `FlashMachine` function
    gives. `Exec`, `EscExec` and the two entry commands are also proved to
    keep the invariant `FlashMachine.Inv`.
- `CursorList` models the multi-select toggle: `findIndex`, then `push` or
  `splice(index, 1)`.
- `FlashTypes` has the shared vocabulary. Keys are strings: `"\n"` is Enter,
  `"<BS>"` and `"<S-BS>"` are backspace, and printable keys are
  one-character strings. Positions are integers. The marker cache is a map
  from search string to marker batch.

The marker and match helpers are `findMarkerByLabel`, `createSearchMatches`,
`createMarkerLabels`, `createMarkers`, `getPreMarkers`, `getMatchedMarkers`
and `getNextMatchMarker`. Their code (flashMarker.ts, flashMatch.ts) is not
part of this model. They are the fields of the `Helpers` datatype, each an
arbitrary function, so every property proved here holds whatever they
compute. The key predicates `isPressEnter`, `isBackSpace` and
`isTriggerLastSearch` are the predicates of the same names in
`FlashMachine`.

The code behaves as follows where a reader might expect otherwise:

- Repeat-last-search (Enter on an empty string) does not jump. It puts the
  previous string back as the search string, sets `firstSearchChat` to the
  whole string and runs one fresh scan. The user then picks a label.
- When there is no previous search, the prior mode is restored directly,
  not through `exitFlashMode`. So the multi-select flag, the cursor list and
  the cache are left as they were.
- Backspace that empties the string exits without recording the string as
  the previous search. Enter in single mode with no next-match marker does
  nothing.
- Label lookup comes before everything else except Enter, backspace
  included. A backspace key is treated as backspace only when no cached
  marker carries it as its label.
- Toggling a position twice gives back the original list only when the
  position was absent. When it was present, the second toggle moves it to
  the end of the list.

## Model

| member | source | states |
|---|---|---|
| FlashSession.Flash.constructor | src/actions/plugins/flash/flash.ts:7-13 | a new record has an empty search string and first character, no previous search, no prior mode, multi-select off and an empty cursor list |
| FlashSession.Flash.AppendSearchString | src/actions/plugins/flash/flash.ts:25-27 | the search string becomes the old one followed by the key, and no other field changes |
| FlashSession.Flash.DeleteSearchString | src/actions/plugins/flash/flash.ts:29-31 | a non-empty search string loses exactly its last character; an empty one stays empty; no other field changes |
| FlashSession.DropLast | src/actions/plugins/flash/flash.ts:30 | `slice(0, -1)`: empty for the empty string; otherwise one shorter, and adding back the last character gives the input |
| FlashSession.AppendThenDelete | src/actions/plugins/flash/flash.ts:25-31 | appending one character and then deleting gives back the original search string |
| FlashSession.Flash.RecordPreviousMode | src/actions/plugins/flash/flash.ts:33-35 | only the prior mode changes, to the given mode |
| FlashSession.Flash.RecordSearchString | src/actions/plugins/flash/flash.ts:40-42 | only the previous search string changes, to the current search string |
| FlashSession.CreateFlash | src/actions/plugins/flash/flash.ts:45-50 | a fresh record that carries over the previous search string, takes the current mode as prior mode, and keeps every other default |
| CursorList.FindIndex | src/actions/plugins/flash/flashAction.ts:218-220 | -1 exactly when the position is absent; otherwise an index holding it, with no earlier occurrence |
| CursorList.Toggle | src/actions/plugins/flash/flashAction.ts:216-229 | an absent position is added once at the end; for a present one, exactly one occurrence is removed and the list is one shorter |
| CursorList.ToggleRemovesAtIndex | src/actions/plugins/flash/flashAction.ts:226-227 | in a duplicate-free list, a present position is spliced out at its index and the rest keep their order |
| CursorList.ToggleMembership | src/actions/plugins/flash/flashAction.ts:216-229 | after a toggle, a position is in the list iff it was before, except that the toggled position flips |
| CursorList.ToggleKeepsNoDuplicates | src/actions/plugins/flash/flashAction.ts:216-229 | a toggle never introduces a duplicate |
| CursorList.ToggleTwiceAbsent | src/actions/plugins/flash/flashAction.ts:216-229 | toggling an absent position twice gives back the original list |
| CursorList.ToggleTwicePresent | src/actions/plugins/flash/flashAction.ts:216-229 | toggling a present position twice removes it and then appends it at the end |
| FlashMachine.IsPressEnter | src/actions/plugins/flash/flashAction.ts:130-132 | the key is Enter, the string `"\n"` |
| FlashMachine.IsBackSpace | src/actions/plugins/flash/flashAction.ts:239-241 | the key is `<BS>` or `<S-BS>` |
| FlashMachine.IsTriggerLastSearch | src/actions/plugins/flash/flashAction.ts:117-119 | the key is Enter and the search string is empty |
| FlashMachine.EntryStartsSession | src/actions/plugins/flash/flashAction.ts:45-74 | both entry commands enter search mode with the current mode as prior mode, keep the previous search, and start with an empty string and an empty list; multi-select is on only for `MutipleSelectCursor` |
| FlashMachine.EntryEstablishesInv | src/actions/plugins/flash/flashAction.ts:45-74 | both entry commands, enabled or not, leave a state satisfying the invariant |
| FlashMachine.ChangeCursorPositionOutcome | src/actions/plugins/flash/flashAction.ts:207-237 | the operator position is used while an operator is pending, otherwise the jump position. In multi-select mode the position is toggled, the host's cursors equal the list, nothing else changes, the list stays duplicate-free and an unselected position is added at the end. Otherwise the cursor moves there, the session exits and the search string is recorded |
| FlashMachine.ChangeCursorPositionTwice | src/actions/plugins/flash/flashAction.ts:216-231 | in multi-select mode, resolving the same unselected marker twice selects it and then restores the list |
| FlashMachine.EnterOnEmptyRepeatsLastSearch | src/actions/plugins/flash/flashAction.ts:117-128 | Enter with an empty string runs repeat-last-search. With no previous search it reports NoLastSearch and restores the prior mode, changing nothing else. Otherwise the previous string becomes the search string and the first character, a fresh scan runs, and a non-empty result is cached |
| FlashMachine.EnterInMultiSelectCommits | src/actions/plugins/flash/flashAction.ts:96-99 | Enter with a non-empty string in multi-select mode exits, records the string, and leaves the cursor and the host's cursors untouched |
| FlashMachine.EnterJumpsToNextMatch | src/actions/plugins/flash/flashAction.ts:134-143 | Enter with a non-empty string in single mode jumps to the next-match marker, exits and records the string; with no such marker nothing changes |
| FlashMachine.LabelWinsOverNarrowing | src/actions/plugins/flash/flashAction.ts:106-112 | a key (other than Enter) that labels a cached marker resolves that marker and is never appended to the search string |
| FlashMachine.BackspaceShortens | src/actions/plugins/flash/flashAction.ts:146-156 | backspace drops exactly one character. An emptied string exits without recording the search; otherwise only the search string changes |
| FlashMachine.FirstCharacterScans | src/actions/plugins/flash/flashAction.ts:158-184 | a key that makes the string one character long becomes the first character and runs a fresh scan. Zero matches leave the cache as it was; otherwise the markers are cached under the string |
| FlashMachine.LaterCharacterNarrows | src/actions/plugins/flash/flashAction.ts:186-192 | a later key reuses an existing cache entry for the new string unchanged. Otherwise it caches the markers narrowed from the previous string's, so the new string is always cached afterwards |
| FlashMachine.TypeThenBackspaceRestores | src/actions/plugins/flash/flashAction.ts:145-167 | typing one search character and then backspace gives back the whole session record, the mode and the cursors, and the next key looks up the same cached batch as before |
| FlashMachine.ExecPreservesInv | src/actions/plugins/flash/flashAction.ts:88-116 | every keystroke in search mode keeps the invariant: a known prior mode outside search mode, a duplicate-free cursor list, and an empty list unless multi-select is on |
| FlashMachine.Run | src/actions/plugins/flash/flashAction.ts:78-116 | keys are delivered one at a time while the search is in progress, each with the helpers as they stand when it arrives, and ignored once the session has ended; after any sequence of keys the invariant holds |
| FlashMachine.ExecReturnsToPriorMode | src/actions/plugins/flash/flashAction.ts:88-116 | one keystroke never changes the mode to return to, and leaves the editor either in search mode or in that mode |
| FlashMachine.RunReturnsToPriorMode | src/actions/plugins/flash/flashAction.ts:88-116 | after any sequence of keys, a session is still searching or back in the mode it was started from, whose record it never changes |
| FlashMachine.ExitLeavesSearchMode | src/actions/plugins/flash/flashAction.ts:253-258 | exit restores the prior mode (never search mode) and clears multi-select and the list. The emptied cache is the modelled effect of `clean()`, whose code is not part of this model. It keeps the search strings, cursor and host cursors |
| FlashAction.FlashCommandExec | src/actions/plugins/flash/flashAction.ts:45-50 | the host state becomes `FlashMachine.FlashCommand` of the old state (the pure specification of these lines, whose outcome `EntryStartsSession` states), with a fresh record, and the invariant holds |
| FlashAction.MutipleSelectCursorExec | src/actions/plugins/flash/flashAction.ts:67-74 | the host state becomes `FlashMachine.MutipleSelectCursor` of the old state (the pure specification of these lines, whose outcome `EntryStartsSession` states), with a fresh record, and the invariant holds |
| FlashAction.Exec | src/actions/plugins/flash/flashAction.ts:88-116 | the new host state and reported status are `FlashMachine.Exec` of the old state and the key, and the invariant is kept. `FlashMachine.Exec` is the pure specification of these lines; its cases are stated by `EnterOnEmptyRepeatsLastSearch`, `EnterInMultiSelectCommits`, `EnterJumpsToNextMatch`, `LabelWinsOverNarrowing`, `BackspaceShortens`, `FirstCharacterScans` and `LaterCharacterNarrows` |
| FlashAction.HandleLastSearch | src/actions/plugins/flash/flashAction.ts:121-128 | the new state and status are `FlashMachine.HandleLastSearch`, the pure specification of these lines, whose outcomes `EnterOnEmptyRepeatsLastSearch` states |
| FlashAction.HandleEnterJump | src/actions/plugins/flash/flashAction.ts:134-143 | the new state is `FlashMachine.HandleEnterJump`, the pure specification of these lines, whose outcomes `EnterJumpsToNextMatch` states |
| FlashAction.HandleSearch | src/actions/plugins/flash/flashAction.ts:145-167 | the new state is `FlashMachine.HandleSearch`, the pure specification of these lines, whose outcomes `BackspaceShortens`, `FirstCharacterScans` and `LaterCharacterNarrows` state |
| FlashAction.HandleFirstSearchString | src/actions/plugins/flash/flashAction.ts:176-184 | the new state is `FlashMachine.HandleFirstSearchString`, the pure specification of these lines (fresh scan, cached when non-empty, as `FirstCharacterScans` states), and the record is untouched |
| FlashAction.HandleAppendSearchString | src/actions/plugins/flash/flashAction.ts:186-198 | the new state is `FlashMachine.HandleAppendSearchString`, the pure specification of these lines (get-or-compute, as `LaterCharacterNarrows` states), and the record is untouched |
| FlashAction.HandleJump | src/actions/plugins/flash/flashAction.ts:200-205 | the new state is `FlashMachine.HandleJump`, the pure specification of these lines, whose outcome `LabelWinsOverNarrowing` states |
| FlashAction.ChangeCursorPosition | src/actions/plugins/flash/flashAction.ts:207-237 | the in-place push/splice of the list and the jump-and-exit give `FlashMachine.ChangeCursorPosition`, the pure specification of these lines, whose outcomes `ChangeCursorPositionOutcome` states |
| FlashAction.ExitFlashMode | src/actions/plugins/flash/flashAction.ts:253-258 | the new state is `FlashMachine.ExitFlashMode`, the pure specification of these lines, whose outcome `ExitLeavesSearchMode` states, on the same record object |
| FlashAction.EscExec | src/actions/plugins/flash/flashAction.ts:243-251 | Escape exits the session, leaving search mode and keeping the invariant |

## Left out

- Rendering is not modelled, because it only affects the view:
  - `showMarkers`, `hideNoMatchedMarkers`, `updateViewMarkers`,
    `updateNextMatchMarker`, `updateView`;
  - the label background colour set by `setMarkerLabelBackgroundColor`;
  - the view-only helper `deleteSearchString` at flashAction.ts:169-174;
  - `displayStatusBarText`.
- flashMarker.ts and flashMatch.ts are not part of this model. This leaves out:
  - match scanning, label allocation and alphabet exclusion;
  - how the next match is chosen;
  - the in-place range shifting by `updateMarkersRangeToForward` and
    `updateMarkersRangeToBackward`;
  - the in-place relabelling by `updateMarkerLabel`.

  Markers are values, so cached markers keep the positions and labels they
  were created with. Marker objects shared between cache entries are not
  modelled.
- The effect of `Flash.clean` (`cleanFlashMarkers`) is modelled as emptying
  the whole marker cache: the cache is meant to live only as long as the
  session. Evicting abandoned branches while a session is still running
  is not modelled.
- Errors are not thrown. `StatusBar.displayError` becomes the returned
  status `NoLastSearch`. Exceptions from the helpers are not modelled: that
  covers the `try`/`catch` and `Logger` at flashAction.ts:106-115, and the
  partly updated state an exception would leave.
- Host plumbing is reduced to inputs:
  - `async`/`await`, `@RegisterAction`, `doesActionApply` (including its
    `isMultiCursor` test), key-sequence matching and count prefixes are
    left out; a command receives an already-delivered key;
  - `configuration.flash.enable` is the `enabled` parameter;
  - `recordedState.operator` is the boolean `operatorPending`;
  - the document and the editor are folded into the helper functions.
- `Position` and `Cursor` are integers, and cursor equality is position
  equality. `vimState.cursors` receives a copy of the list, so the aliasing
  of the two arrays in the source is not modelled. Clearing the list on
  exit creates a new array in the source too, so the host's cursors are
  unchanged in both.
- `cursorStopPosition` and `cursors` are independent fields of the host
  state. The host's `VimState` is not part of this model, so any link
  between the stop position and the first cursor is not modelled; in
  multi-select mode the model changes only the cursor list.
- Strings are sequences of Unicode characters. `slice(0, -1)` on UTF-16
  code units, which can split a surrogate pair, is not modelled.
- `Mode` lists only the four modes the entry commands start from, plus the
  search mode.
