/**
 * The session record of one flash search (`Flash` in flash.ts): the search
 * string typed so far, the string remembered for repeat-last-search, the mode
 * to return to, and the multi-select state.
 */
module FlashSession {
  import opened FlashTypes

  /** The value held by a `Flash` object at one moment. */
  datatype Session = Session(
    searchString: string,
    previousMode: Option<Mode>,
    previousSearchString: string,
    firstSearchChat: string,
    multipleSelectCursor: bool,
    multipleSelectCursorList: seq<Position>)

  /** The field initialisers of `Flash`. */
  const Fresh: Session := Session("", None, "", "", false, [])

  /** What `createFlash` builds: a fresh record that remembers the last search and the current mode. */
  function Created(previousSearchString: string, mode: Mode): Session {
    Fresh.(previousSearchString := previousSearchString, previousMode := Some(mode))
  }

  /** JavaScript's `s.slice(0, -1)`: all but the last character; the empty string stays empty. */
  function DropLast(s: string): (r: string)
    ensures |s| == 0 ==> r == ""
    ensures |s| > 0 ==> |r| == |s| - 1 && r + [s[|s| - 1]] == s
  {
    if |s| == 0 then s else s[..|s| - 1]
  }

  /** Deleting right after appending one character gives the original string back. */
  lemma AppendThenDelete(s: string, c: char)
    ensures DropLast(s + [c]) == s
  {
    var r := DropLast(s + [c]);
    assert |r| == |s|;
    forall i | 0 <= i < |s| ensures r[i] == s[i] {
      assert (r + [c])[i] == (s + [c])[i];
    }
  }

  class Flash {
    var searchString: string
    var previousMode: Option<Mode>
    var previousSearchString: string
    var firstSearchChat: string
    var multipleSelectCursor: bool
    var multipleSelectCursorList: seq<Position>

    function Value(): Session
      reads this
    {
      Session(searchString, previousMode, previousSearchString, firstSearchChat,
              multipleSelectCursor, multipleSelectCursorList)
    }

    constructor ()
      ensures searchString == "" && firstSearchChat == "" && previousSearchString == ""
      ensures previousMode == None
      ensures !multipleSelectCursor && multipleSelectCursorList == []
      ensures Value() == Fresh
    {
      searchString := "";
      previousMode := None;
      previousSearchString := "";
      firstSearchChat := "";
      multipleSelectCursor := false;
      multipleSelectCursorList := [];
    }

    method AppendSearchString(chat: string)
      modifies this`searchString
      ensures searchString == old(searchString) + chat
    {
      searchString := searchString + chat;
    }

    method DeleteSearchString()
      modifies this`searchString
      ensures |old(searchString)| > 0 ==> searchString + [old(searchString)[|old(searchString)| - 1]] == old(searchString)
      ensures |old(searchString)| == 0 ==> searchString == ""
      ensures searchString == DropLast(old(searchString))
    {
      searchString := DropLast(searchString);
    }

    method RecordPreviousMode(mode: Mode)
      modifies this`previousMode
      ensures previousMode == Some(mode)
    {
      previousMode := Some(mode);
    }

    method RecordSearchString()
      modifies this`previousSearchString
      ensures previousSearchString == searchString
    {
      previousSearchString := searchString;
    }
  }

  /** `createFlash`: a new record carrying over the last search, with the current mode as the one to return to. */
  method CreateFlash(current: Flash, currentMode: Mode) returns (flash: Flash)
    ensures fresh(flash)
    ensures flash.previousSearchString == current.previousSearchString
    ensures flash.previousMode == Some(currentMode)
    ensures flash.searchString == "" && flash.firstSearchChat == ""
    ensures !flash.multipleSelectCursor && flash.multipleSelectCursorList == []
    ensures flash.Value() == Created(current.previousSearchString, currentMode)
  {
    flash := new Flash();
    flash.previousSearchString := current.previousSearchString;
    flash.previousMode := Some(currentMode);
  }
}
