/**
 * The per-keystroke state machine of the flash search (`FlashSearchInProgressCommand`,
 * `exitFlashMode` and the two entry commands in flashAction.ts), written as
 * functions from the editor state before a key to the state after it. The
 * imperative commands in module FlashAction are proved to compute exactly
 * these functions; the lemmas below state what one keystroke does.
 */
module FlashMachine {
  import opened FlashTypes
  import opened FlashSession
  import opened CursorList

  /** The part of the host's editor state that the flash commands read or write. */
  datatype EditorState = EditorState(
    mode: Mode,
    flash: Session,
    cursorStopPosition: Position,
    cursors: seq<Position>,
    operatorPending: bool,
    cache: MarkerCache)

  /** The error a keystroke reports to the status bar, if any. */
  datatype Status = Done | NoLastSearch

  datatype StepResult = StepResult(state: EditorState, status: Status)

  predicate IsPressEnter(key: string) {
    key == "\n"
  }

  predicate IsBackSpace(key: string) {
    key == "<BS>" || key == "<S-BS>"
  }

  predicate IsTriggerLastSearch(key: string, s: EditorState) {
    IsPressEnter(key) && s.flash.searchString == ""
  }

  /** The session knows which mode to return to (the source asserts this with `previousMode!`). */
  predicate HasPriorMode(s: EditorState) {
    s.flash.previousMode.Some?
  }

  /**
   * What every reachable state keeps: while searching, the mode to return to
   * is a mode outside the search; the cursor list has no duplicates; and it is
   * empty unless multi-select is on.
   */
  predicate Inv(s: EditorState) {
    && (s.mode == FlashSearchInProgressMode ==>
          s.flash.previousMode.Some? && EntryMode(s.flash.previousMode.value))
    && NoDuplicates(s.flash.multipleSelectCursorList)
    && (!s.flash.multipleSelectCursor ==> s.flash.multipleSelectCursorList == [])
  }

  /** `exitFlashMode`: back to the prior mode, multi-select off and emptied; `clean()` is modelled as emptying the cache. */
  function ExitFlashMode(s: EditorState): EditorState
    requires HasPriorMode(s)
  {
    s.(mode := s.flash.previousMode.value,
       flash := s.flash.(multipleSelectCursor := false, multipleSelectCursorList := []),
       cache := map[])
  }

  function RecordSearchString(s: EditorState): EditorState {
    s.(flash := s.flash.(previousSearchString := s.flash.searchString))
  }

  /** Where a resolved marker puts the cursor: the operator position while an operator is pending. */
  function ResolvedPosition(s: EditorState, m: Marker): Position {
    if s.operatorPending then m.operatorPosition else m.jumpPosition
  }

  /** `changeCursorPosition`: toggle the position in multi-select mode, otherwise jump and exit. */
  function ChangeCursorPosition(s: EditorState, m: Marker): EditorState
    requires HasPriorMode(s)
  {
    var p := ResolvedPosition(s, m);
    if s.flash.multipleSelectCursor then
      var list := Toggle(s.flash.multipleSelectCursorList, p);
      s.(flash := s.flash.(multipleSelectCursorList := list), cursors := list)
    else
      RecordSearchString(ExitFlashMode(s.(cursorStopPosition := p)))
  }

  function HandleJump(s: EditorState, key: string, h: Helpers): EditorState
    requires HasPriorMode(s)
  {
    match h.findMarkerByLabel(GetCacheMarker(s.cache, s.flash.searchString), key)
    case Some(m) => ChangeCursorPosition(s, m)
    case None => s
  }

  function HandleEnterJump(s: EditorState, h: Helpers): EditorState
    requires HasPriorMode(s)
  {
    match h.getNextMatchMarker(s.cache, s.flash.searchString, s.cursorStopPosition)
    case Some(m) => ChangeCursorPosition(s, m)
    case None => s
  }

  /** A fresh scan for the whole search string; a non-empty result is cached under it. */
  function HandleFirstSearchString(s: EditorState, h: Helpers): EditorState {
    var matches := h.createSearchMatches(s.flash.searchString);
    if |matches| == 0 then s
    else
      var markers := h.createMarkers(matches, h.createMarkerLabels(matches));
      s.(cache := s.cache[s.flash.searchString := markers])
  }

  /** Get-or-compute: reuse the batch cached for the new string, or narrow the previous one. */
  function HandleAppendSearchString(s: EditorState, chat: string, h: Helpers): EditorState {
    var key := s.flash.searchString;
    var preMarkers := h.getPreMarkers(s.cache, key);
    if key in s.cache then s
    else s.(cache := s.cache[key := h.getMatchedMarkers(preMarkers, chat)])
  }

  function HandleSearch(s: EditorState, chat: string, h: Helpers, isLastSearch: bool): EditorState
    requires HasPriorMode(s)
  {
    if IsBackSpace(chat) then
      var t := s.(flash := s.flash.(searchString := DropLast(s.flash.searchString)));
      if |t.flash.searchString| == 0 then ExitFlashMode(t) else t
    else
      var t := s.(flash := s.flash.(searchString := s.flash.searchString + chat));
      if |t.flash.searchString| == 1 || isLastSearch then
        HandleFirstSearchString(t.(flash := t.flash.(firstSearchChat := chat)), h)
      else
        HandleAppendSearchString(t, chat, h)
  }

  function HandleLastSearch(s: EditorState, h: Helpers): StepResult
    requires HasPriorMode(s)
  {
    if |s.flash.previousSearchString| == 0 then
      StepResult(s.(mode := s.flash.previousMode.value), NoLastSearch)
    else
      StepResult(HandleSearch(s, s.flash.previousSearchString, h, true), Done)
  }

  /** `FlashSearchInProgressCommand.exec`: one key pressed while a search is in progress. */
  function Exec(s: EditorState, key: string, h: Helpers): StepResult
    requires HasPriorMode(s)
  {
    if IsTriggerLastSearch(key, s) then HandleLastSearch(s, h)
    else if IsPressEnter(key) then
      if s.flash.multipleSelectCursor then StepResult(RecordSearchString(ExitFlashMode(s)), Done)
      else StepResult(HandleEnterJump(s, h), Done)
    else if h.findMarkerByLabel(GetCacheMarker(s.cache, s.flash.searchString), key).Some? then
      StepResult(HandleJump(s, key, h), Done)
    else
      StepResult(HandleSearch(s, key, h, false), Done)
  }

  /** `FlashCommand.exec`: start a single-jump session. */
  function FlashCommand(s: EditorState, enabled: bool): EditorState {
    if !enabled then s
    else s.(flash := Created(s.flash.previousSearchString, s.mode), mode := FlashSearchInProgressMode)
  }

  /** `MutipleSelectCursor.exec`: start a session whose jumps toggle positions in a cursor list. */
  function MutipleSelectCursor(s: EditorState, enabled: bool): EditorState {
    if !enabled then s
    else
      var f := Created(s.flash.previousSearchString, s.mode);
      s.(flash := f.(multipleSelectCursor := true, multipleSelectCursorList := []),
         mode := FlashSearchInProgressMode)
  }

  // ---------------------------------------------------------------------------
  // What one keystroke does

  /** The session has ended: prior mode restored, multi-select cleared, markers discarded. */
  predicate Exited(s: EditorState, r: EditorState)
    requires HasPriorMode(s)
  {
    && r.mode == s.flash.previousMode.value
    && !r.flash.multipleSelectCursor
    && r.flash.multipleSelectCursorList == []
    && r.cache == map[]
  }

  /** Entering a session remembers the last search and the mode to return to, and nothing else. */
  lemma EntryStartsSession(s: EditorState, multiple: bool)
    requires Inv(s) && EntryMode(s.mode)
    ensures var r := if multiple then MutipleSelectCursor(s, true) else FlashCommand(s, true);
      && r.mode == FlashSearchInProgressMode
      && r.flash.previousMode == Some(s.mode)
      && r.flash.previousSearchString == s.flash.previousSearchString
      && r.flash.searchString == "" && r.flash.firstSearchChat == ""
      && r.flash.multipleSelectCursor == multiple
      && r.flash.multipleSelectCursorList == []
      && r.cache == s.cache && r.cursorStopPosition == s.cursorStopPosition
      && Inv(r)
  {
  }

  /** A resolved marker: in multi-select mode its position is toggled and mirrored to the host's cursors; otherwise the cursor moves there and the session exits, remembering the search. */
  lemma ChangeCursorPositionOutcome(s: EditorState, m: Marker)
    requires Inv(s) && HasPriorMode(s)
    ensures var r := ChangeCursorPosition(s, m);
      var p := if s.operatorPending then m.operatorPosition else m.jumpPosition;
      && r.flash.searchString == s.flash.searchString
      && (s.flash.multipleSelectCursor ==>
            && r.mode == s.mode && r.cursorStopPosition == s.cursorStopPosition
            && r == s.(flash := s.flash.(multipleSelectCursorList := r.flash.multipleSelectCursorList),
                       cursors := r.flash.multipleSelectCursorList)
            && NoDuplicates(r.flash.multipleSelectCursorList)
            && (forall q :: q in r.flash.multipleSelectCursorList <==>
                  (q in s.flash.multipleSelectCursorList) != (q == p))
            && (p !in s.flash.multipleSelectCursorList ==>
                  r.flash.multipleSelectCursorList == s.flash.multipleSelectCursorList + [p]))
      && (!s.flash.multipleSelectCursor ==>
            && r.cursorStopPosition == p
            && Exited(s, r)
            && r.flash.previousSearchString == s.flash.searchString)
  {
    if s.flash.multipleSelectCursor {
      ToggleMembership(s.flash.multipleSelectCursorList, ResolvedPosition(s, m));
      ToggleKeepsNoDuplicates(s.flash.multipleSelectCursorList, ResolvedPosition(s, m));
    }
  }

  /** In multi-select mode, resolving the same marker twice in a row from an unselected position leaves the list as it was. */
  lemma ChangeCursorPositionTwice(s: EditorState, m: Marker)
    requires HasPriorMode(s) && s.flash.multipleSelectCursor
    requires ResolvedPosition(s, m) !in s.flash.multipleSelectCursorList
    ensures ResolvedPosition(s, m) in ChangeCursorPosition(s, m).flash.multipleSelectCursorList
    ensures ChangeCursorPosition(ChangeCursorPosition(s, m), m).flash.multipleSelectCursorList
            == s.flash.multipleSelectCursorList
  {
    ToggleTwiceAbsent(s.flash.multipleSelectCursorList, ResolvedPosition(s, m));
  }

  /** Enter on an empty search string repeats the last search, or reports NoLastSearch and leaves search mode. */
  lemma EnterOnEmptyRepeatsLastSearch(s: EditorState, h: Helpers)
    requires HasPriorMode(s) && s.flash.searchString == ""
    ensures var r := Exec(s, "\n", h);
      var last := s.flash.previousSearchString;
      && (last == "" ==>
            r.status == NoLastSearch && r.state == s.(mode := s.flash.previousMode.value))
      && (last != "" && !IsBackSpace(last) ==>
            var matches := h.createSearchMatches(last);
            && r.status == Done
            && r.state.flash == s.flash.(searchString := last, firstSearchChat := last)
            && r.state.mode == s.mode
            && (|matches| == 0 ==> r.state.cache == s.cache)
            && (|matches| > 0 ==>
                  r.state.cache == s.cache[last := h.createMarkers(matches, h.createMarkerLabels(matches))]))
      && (IsBackSpace(last) ==>
            r.status == Done && r.state.flash.searchString == "" && Exited(s, r.state))
  {
  }

  /** Enter with a non-empty string in multi-select mode commits: the session exits and the cursors stay as selected. */
  lemma EnterInMultiSelectCommits(s: EditorState, h: Helpers)
    requires HasPriorMode(s) && s.flash.searchString != "" && s.flash.multipleSelectCursor
    ensures var r := Exec(s, "\n", h).state;
      && Exited(s, r)
      && r.cursorStopPosition == s.cursorStopPosition && r.cursors == s.cursors
      && r.flash.previousSearchString == s.flash.searchString
      && r.flash.searchString == s.flash.searchString
  {
  }

  /** Enter with a non-empty string in single mode jumps to the next-match marker if there is one, else does nothing. */
  lemma EnterJumpsToNextMatch(s: EditorState, h: Helpers)
    requires HasPriorMode(s) && s.flash.searchString != "" && !s.flash.multipleSelectCursor
    ensures var r := Exec(s, "\n", h);
      && r.status == Done
      && match h.getNextMatchMarker(s.cache, s.flash.searchString, s.cursorStopPosition)
         case None => r.state == s
         case Some(m) =>
           && r.state.cursorStopPosition == (if s.operatorPending then m.operatorPosition else m.jumpPosition)
           && Exited(s, r.state)
           && r.state.flash.previousSearchString == s.flash.searchString
  {
  }

  /** A key that is the label of a cached marker is a jump: it is never appended to the search string. */
  lemma LabelWinsOverNarrowing(s: EditorState, key: string, h: Helpers, m: Marker)
    requires HasPriorMode(s) && !IsPressEnter(key)
    requires h.findMarkerByLabel(GetCacheMarker(s.cache, s.flash.searchString), key) == Some(m)
    ensures var r := Exec(s, key, h);
      && r.status == Done
      && r.state == ChangeCursorPosition(s, m)
      && r.state.flash.searchString == s.flash.searchString
      && r.state.flash.firstSearchChat == s.flash.firstSearchChat
  {
  }

  /** Backspace drops one character; an emptied string ends the session without remembering it. */
  lemma BackspaceShortens(s: EditorState, key: string, h: Helpers)
    requires HasPriorMode(s) && IsBackSpace(key)
    requires h.findMarkerByLabel(GetCacheMarker(s.cache, s.flash.searchString), key).None?
    ensures var r := Exec(s, key, h);
      var shorter := DropLast(s.flash.searchString);
      && r.status == Done
      && r.state.flash.searchString == shorter
      && |shorter| == (if s.flash.searchString == "" then 0 else |s.flash.searchString| - 1)
      && (shorter == "" ==>
            && Exited(s, r.state)
            && r.state.flash.previousSearchString == s.flash.previousSearchString
            && r.state.cursorStopPosition == s.cursorStopPosition)
      && (shorter != "" ==> r.state == s.(flash := s.flash.(searchString := shorter)))
  {
  }

  /** A search character that makes the string one character long runs a fresh scan and caches a non-empty result. */
  lemma FirstCharacterScans(s: EditorState, key: string, h: Helpers)
    requires HasPriorMode(s) && !IsPressEnter(key) && !IsBackSpace(key)
    requires h.findMarkerByLabel(GetCacheMarker(s.cache, s.flash.searchString), key).None?
    requires |s.flash.searchString + key| == 1
    ensures var r := Exec(s, key, h).state;
      var t := s.flash.searchString + key;
      var matches := h.createSearchMatches(t);
      && r.flash == s.flash.(searchString := t, firstSearchChat := key)
      && r.mode == s.mode && r.cursorStopPosition == s.cursorStopPosition && r.cursors == s.cursors
      && (|matches| == 0 ==> r.cache == s.cache)
      && (|matches| > 0 ==> r.cache == s.cache[t := h.createMarkers(matches, h.createMarkerLabels(matches))])
  {
  }

  /** A later search character reuses the batch cached for the new string, or narrows the previous batch and caches it. */
  lemma LaterCharacterNarrows(s: EditorState, key: string, h: Helpers)
    requires HasPriorMode(s) && !IsPressEnter(key) && !IsBackSpace(key)
    requires h.findMarkerByLabel(GetCacheMarker(s.cache, s.flash.searchString), key).None?
    requires |s.flash.searchString + key| > 1
    ensures var r := Exec(s, key, h).state;
      var t := s.flash.searchString + key;
      && r.flash == s.flash.(searchString := t)
      && r.mode == s.mode && r.cursorStopPosition == s.cursorStopPosition && r.cursors == s.cursors
      && t in r.cache
      && (t in s.cache ==> r.cache == s.cache)
      && (t !in s.cache ==> r.cache == s.cache[t := h.getMatchedMarkers(h.getPreMarkers(s.cache, t), key)])
  {
  }

  /** Typing one search character and then backspace gives back the session record as it was. */
  lemma TypeThenBackspaceRestores(s: EditorState, c: char, bs: string, h: Helpers)
    requires Inv(s) && s.mode == FlashSearchInProgressMode
    requires s.flash.searchString != "" && c != '\n' && IsBackSpace(bs)
    requires h.findMarkerByLabel(GetCacheMarker(s.cache, s.flash.searchString), [c]).None?
    requires var t := Exec(s, [c], h).state;
      h.findMarkerByLabel(GetCacheMarker(t.cache, t.flash.searchString), bs).None?
    ensures var t := Exec(s, [c], h).state;
      && HasPriorMode(t)
      && var r := Exec(t, bs, h).state;
      && r.flash == s.flash
      && r.mode == FlashSearchInProgressMode
      && r.cursorStopPosition == s.cursorStopPosition && r.cursors == s.cursors
      && GetCacheMarker(r.cache, r.flash.searchString) == GetCacheMarker(s.cache, s.flash.searchString)
  {
    var t := Exec(s, [c], h).state;
    assert t.flash == s.flash.(searchString := s.flash.searchString + [c]);
    AppendThenDelete(s.flash.searchString, c);
  }

  /** Every keystroke in search mode keeps the invariant. */
  lemma ExecPreservesInv(s: EditorState, key: string, h: Helpers)
    requires Inv(s) && s.mode == FlashSearchInProgressMode
    ensures HasPriorMode(s) && Inv(Exec(s, key, h).state)
  {
    var r := Exec(s, key, h).state;
    if !IsPressEnter(key) && s.flash.multipleSelectCursor {
      match h.findMarkerByLabel(GetCacheMarker(s.cache, s.flash.searchString), key)
      case Some(m) =>
        ToggleKeepsNoDuplicates(s.flash.multipleSelectCursorList, ResolvedPosition(s, m));
      case None =>
    }
    if IsPressEnter(key) && s.flash.searchString != "" && s.flash.multipleSelectCursor {
      assert Exited(s, r);
    } else if IsPressEnter(key) && s.flash.searchString != "" {
      match h.getNextMatchMarker(s.cache, s.flash.searchString, s.cursorStopPosition)
      case Some(m) =>
        ToggleKeepsNoDuplicates(s.flash.multipleSelectCursorList, ResolvedPosition(s, m));
      case None =>
    }
  }

  /** Leaving search mode (Escape, a jump, a commit or an emptied string) keeps the invariant and really leaves it. */
  lemma ExitLeavesSearchMode(s: EditorState)
    requires Inv(s) && s.mode == FlashSearchInProgressMode
    ensures HasPriorMode(s)
    ensures var r := ExitFlashMode(s);
      && Inv(r) && r.mode != FlashSearchInProgressMode && Exited(s, r)
      && r.flash.searchString == s.flash.searchString
      && r.flash.previousSearchString == s.flash.previousSearchString
      && r.cursorStopPosition == s.cursorStopPosition && r.cursors == s.cursors
  {
  }

  /** One delivered key, with the helpers as they stand when it arrives. */
  datatype Keystroke = Keystroke(key: string, h: Helpers)

  /**
   * Keys delivered one at a time to `FlashSearchInProgressCommand`, which
   * applies only while the search is in progress: once a key ends the session
   * the remaining keys go to other commands and leave this state alone.
   * Whatever the keys, the invariant holds at the end.
   */
  function Run(s: EditorState, keys: seq<Keystroke>): (r: EditorState)
    requires Inv(s)
    ensures Inv(r)
    ensures s.mode != FlashSearchInProgressMode ==> r == s
    decreases |keys|
  {
    if keys == [] || s.mode != FlashSearchInProgressMode then s
    else
      ExecPreservesInv(s, keys[0].key, keys[0].h);
      Run(Exec(s, keys[0].key, keys[0].h).state, keys[1..])
  }

  /** One keystroke never changes the mode to return to, and leaves the editor in search mode or in that mode. */
  lemma ExecReturnsToPriorMode(s: EditorState, key: string, h: Helpers)
    requires HasPriorMode(s) && s.mode == FlashSearchInProgressMode
    ensures var r := Exec(s, key, h).state;
      && r.flash.previousMode == s.flash.previousMode
      && (r.mode == FlashSearchInProgressMode || r.mode == s.flash.previousMode.value)
  {
  }

  /**
   * However many keys arrive, a session only ever ends in the mode it was
   * started from: the editor is still searching, or back in the prior mode.
   */
  lemma {:induction false} RunReturnsToPriorMode(s: EditorState, keys: seq<Keystroke>)
    requires Inv(s) && s.mode == FlashSearchInProgressMode
    ensures var r := Run(s, keys);
      && r.flash.previousMode == s.flash.previousMode
      && (r.mode == FlashSearchInProgressMode || r.mode == s.flash.previousMode.value)
    decreases |keys|
  {
    if keys != [] {
      ExecPreservesInv(s, keys[0].key, keys[0].h);
      ExecReturnsToPriorMode(s, keys[0].key, keys[0].h);
      var t := Exec(s, keys[0].key, keys[0].h).state;
      if t.mode == FlashSearchInProgressMode {
        RunReturnsToPriorMode(t, keys[1..]);
      }
    }
  }

  /** Both entry commands establish the invariant. */
  lemma EntryEstablishesInv(s: EditorState, enabled: bool)
    requires Inv(s) && EntryMode(s.mode)
    ensures Inv(FlashCommand(s, enabled)) && Inv(MutipleSelectCursor(s, enabled))
  {
  }
}
