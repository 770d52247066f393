/**
 * The flash commands as they run (flashAction.ts): they update the live
 * `Flash` record and the host's editor state in place. Each command is proved
 * to leave exactly the state that the matching FlashMachine function gives.
 */
module FlashAction {
  import opened FlashTypes
  import opened FlashSession
  import opened CursorList
  import M = FlashMachine

  /** The host's editor state, as far as the flash commands use it. */
  class VimState {
    var currentMode: Mode
    var flash: Flash
    var cursorStopPosition: Position
    var cursors: seq<Position>
    /** Whether `recordedState.operator` is set. */
    var operatorPending: bool
    /** The marker cache, kept by the marker helpers between keystrokes. */
    var markerCache: MarkerCache

    function State(): M.EditorState
      reads this, flash
    {
      M.EditorState(currentMode, flash.Value(), cursorStopPosition, cursors, operatorPending, markerCache)
    }

    predicate Valid()
      reads this, flash
    {
      M.Inv(State())
    }

    /**
     * Allocates a host state outside any search, holding a `Flash` record with
     * its initial values. The host builds its own `VimState`, which is not part
     * of this model; this constructor only makes such a state available to the
     * commands, and the single cursor at `cursor` is one choice among many.
     */
    constructor (mode: Mode, cursor: Position)
      requires EntryMode(mode)
      ensures currentMode == mode && cursorStopPosition == cursor && cursors == [cursor]
      ensures !operatorPending && markerCache == map[]
      ensures fresh(flash) && flash.Value() == Fresh
      ensures Valid()
    {
      currentMode := mode;
      flash := new Flash();
      cursorStopPosition := cursor;
      cursors := [cursor];
      operatorPending := false;
      markerCache := map[];
    }
  }

  /** `FlashCommand.exec`. */
  method FlashCommandExec(vs: VimState, enabled: bool)
    requires vs.Valid() && EntryMode(vs.currentMode)
    modifies vs
    ensures enabled ==> fresh(vs.flash)
    ensures vs.State() == M.FlashCommand(old(vs.State()), enabled)
    ensures vs.Valid()
  {
    M.EntryEstablishesInv(vs.State(), enabled);
    if !enabled {
      return;
    }
    vs.flash := CreateFlash(vs.flash, vs.currentMode);
    vs.currentMode := FlashSearchInProgressMode;
  }

  /** `MutipleSelectCursor.exec`. */
  method MutipleSelectCursorExec(vs: VimState, enabled: bool)
    requires vs.Valid() && EntryMode(vs.currentMode)
    modifies vs
    ensures enabled ==> fresh(vs.flash)
    ensures vs.State() == M.MutipleSelectCursor(old(vs.State()), enabled)
    ensures vs.Valid()
  {
    M.EntryEstablishesInv(vs.State(), enabled);
    if !enabled {
      return;
    }
    vs.flash := CreateFlash(vs.flash, vs.currentMode);
    vs.flash.multipleSelectCursor := true;
    vs.flash.multipleSelectCursorList := [];
    vs.currentMode := FlashSearchInProgressMode;
  }

  /** `exitFlashMode`; `clean()` discards the session's markers, here the whole cache. */
  method ExitFlashMode(vs: VimState)
    requires M.HasPriorMode(vs.State())
    modifies vs, vs.flash
    ensures vs.flash == old(vs.flash)
    ensures vs.State() == M.ExitFlashMode(old(vs.State()))
  {
    vs.currentMode := vs.flash.previousMode.value;
    vs.flash.multipleSelectCursor := false;
    vs.flash.multipleSelectCursorList := [];
    vs.markerCache := map[];
  }

  /** `CommandEscFlashSearchInProgressMode.exec`: Escape (or Ctrl-C, Ctrl-[) abandons the search. */
  method EscExec(vs: VimState)
    requires vs.Valid() && vs.currentMode == FlashSearchInProgressMode
    modifies vs, vs.flash
    ensures vs.flash == old(vs.flash)
    ensures vs.State() == M.ExitFlashMode(old(vs.State()))
    ensures vs.Valid() && vs.currentMode != FlashSearchInProgressMode
  {
    M.ExitLeavesSearchMode(vs.State());
    ExitFlashMode(vs);
  }

  /** `FlashSearchInProgressCommand.exec`: one key while a search is in progress. */
  method Exec(vs: VimState, key: string, h: Helpers) returns (status: M.Status)
    requires vs.Valid() && vs.currentMode == FlashSearchInProgressMode
    modifies vs, vs.flash
    ensures vs.flash == old(vs.flash)
    ensures M.StepResult(vs.State(), status) == M.Exec(old(vs.State()), key, h)
    ensures vs.Valid()
  {
    M.ExecPreservesInv(vs.State(), key, h);
    status := M.Done;
    if M.IsTriggerLastSearch(key, vs.State()) {
      status := HandleLastSearch(vs, h);
      return;
    }
    if M.IsPressEnter(key) {
      if vs.flash.multipleSelectCursor {
        ExitFlashMode(vs);
        vs.flash.RecordSearchString();
      } else {
        HandleEnterJump(vs, h);
      }
      return;
    }
    var marker := h.findMarkerByLabel(GetCacheMarker(vs.markerCache, vs.flash.searchString), key);
    if marker.Some? {
      HandleJump(vs, key, h);
    } else {
      HandleSearch(vs, key, h, false);
    }
  }

  method HandleLastSearch(vs: VimState, h: Helpers) returns (status: M.Status)
    requires M.HasPriorMode(vs.State())
    modifies vs, vs.flash
    ensures vs.flash == old(vs.flash)
    ensures M.StepResult(vs.State(), status) == M.HandleLastSearch(old(vs.State()), h)
  {
    if |vs.flash.previousSearchString| == 0 {
      vs.currentMode := vs.flash.previousMode.value;
      return M.NoLastSearch;
    }
    HandleSearch(vs, vs.flash.previousSearchString, h, true);
    return M.Done;
  }

  method HandleEnterJump(vs: VimState, h: Helpers)
    requires M.HasPriorMode(vs.State())
    modifies vs, vs.flash
    ensures vs.flash == old(vs.flash)
    ensures vs.State() == M.HandleEnterJump(old(vs.State()), h)
  {
    var firstMarker := h.getNextMatchMarker(vs.markerCache, vs.flash.searchString, vs.cursorStopPosition);
    if firstMarker.Some? {
      ChangeCursorPosition(vs, firstMarker.value);
    }
  }

  method HandleSearch(vs: VimState, chat: string, h: Helpers, isLastSearch: bool)
    requires M.HasPriorMode(vs.State())
    modifies vs, vs.flash
    ensures vs.flash == old(vs.flash)
    ensures vs.State() == M.HandleSearch(old(vs.State()), chat, h, isLastSearch)
  {
    if M.IsBackSpace(chat) {
      vs.flash.DeleteSearchString();
      if |vs.flash.searchString| == 0 {
        ExitFlashMode(vs);
      }
      // Otherwise the cached markers of the shorter string are shown again (view only).
    } else {
      vs.flash.AppendSearchString(chat);
      if |vs.flash.searchString| == 1 || isLastSearch {
        vs.flash.firstSearchChat := chat;
        HandleFirstSearchString(vs, h);
      } else {
        HandleAppendSearchString(vs, chat, h);
      }
    }
  }

  method HandleFirstSearchString(vs: VimState, h: Helpers)
    modifies vs
    ensures vs.flash == old(vs.flash)
    ensures vs.State() == M.HandleFirstSearchString(old(vs.State()), h)
  {
    var matches := h.createSearchMatches(vs.flash.searchString);
    if |matches| == 0 {
      return;
    }
    var labels := h.createMarkerLabels(matches);
    var markers := h.createMarkers(matches, labels);
    vs.markerCache := vs.markerCache[vs.flash.searchString := markers];
  }

  method HandleAppendSearchString(vs: VimState, chat: string, h: Helpers)
    modifies vs
    ensures vs.flash == old(vs.flash)
    ensures vs.State() == M.HandleAppendSearchString(old(vs.State()), chat, h)
  {
    var preMarkers := h.getPreMarkers(vs.markerCache, vs.flash.searchString);
    var matchedMarkers := GetCacheMarker(vs.markerCache, vs.flash.searchString);
    if matchedMarkers.None? {
      var narrowed := h.getMatchedMarkers(preMarkers, chat);
      vs.markerCache := vs.markerCache[vs.flash.searchString := narrowed];
    }
  }

  method HandleJump(vs: VimState, key: string, h: Helpers)
    requires M.HasPriorMode(vs.State())
    modifies vs, vs.flash
    ensures vs.flash == old(vs.flash)
    ensures vs.State() == M.HandleJump(old(vs.State()), key, h)
  {
    var markerDecoration := h.findMarkerByLabel(GetCacheMarker(vs.markerCache, vs.flash.searchString), key);
    if markerDecoration.Some? {
      ChangeCursorPosition(vs, markerDecoration.value);
    }
  }

  method ChangeCursorPosition(vs: VimState, marker: Marker)
    requires M.HasPriorMode(vs.State())
    modifies vs, vs.flash
    ensures vs.flash == old(vs.flash)
    ensures vs.State() == M.ChangeCursorPosition(old(vs.State()), marker)
  {
    var cursorPosition := if vs.operatorPending then marker.operatorPosition else marker.jumpPosition;
    if vs.flash.multipleSelectCursor {
      var list := vs.flash.multipleSelectCursorList;
      var index := FindIndex(list, cursorPosition);
      if index == -1 {
        vs.flash.multipleSelectCursorList := list + [cursorPosition];
      } else {
        vs.flash.multipleSelectCursorList := list[..index] + list[index + 1..];
      }
      vs.cursors := vs.flash.multipleSelectCursorList;
    } else {
      vs.cursorStopPosition := cursorPosition;
      ExitFlashMode(vs);
      vs.flash.RecordSearchString();
    }
  }
}
