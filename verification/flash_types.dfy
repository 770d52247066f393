/**
 * Shared vocabulary of the flash jump-to-label search: editor modes, text
 * positions, markers, the marker cache and the marker/match helpers whose
 * code is not part of this model (they are passed in as plain functions).
 */
module FlashTypes {

  datatype Option<T> = None | Some(value: T)

  /** The host modes the flash commands start from, plus the search mode itself. */
  datatype Mode = Normal | Visual | VisualLine | VisualBlock | FlashSearchInProgressMode

  /** Modes from which `FlashCommand` and `MutipleSelectCursor` may start a session. */
  predicate EntryMode(m: Mode) {
    m != FlashSearchInProgressMode
  }

  /** A document position; two cursors are equal exactly when their positions are. */
  type Position = int

  /** One literal occurrence found by the match scanner. */
  datatype Match = Match(start: Position, end: Position)

  /** One labelled occurrence: where a jump lands, and where a pending operator lands. */
  datatype Marker = Marker(labelText: string, jumpPosition: Position, operatorPosition: Position)

  /** Search string so far, mapped to the marker batch computed for exactly that string. */
  type MarkerCache = map<string, seq<Marker>>

  /** `getCacheMarker`: the batch cached under `key`, if any. */
  function GetCacheMarker(cache: MarkerCache, key: string): Option<seq<Marker>> {
    if key in cache then Some(cache[key]) else None
  }

  /**
   * The marker and match helpers the controller calls. Their code is not part
   * of this model, so each is an arbitrary function of the values it is given.
   * The visible document and the editor as they stand when a key arrives are
   * folded into the functions, so each keystroke receives its own `Helpers`.
   */
  datatype Helpers = Helpers(
    findMarkerByLabel: (Option<seq<Marker>>, string) -> Option<Marker>,
    createSearchMatches: string -> seq<Match>,
    createMarkerLabels: seq<Match> -> seq<string>,
    createMarkers: (seq<Match>, seq<string>) -> seq<Marker>,
    getPreMarkers: (MarkerCache, string) -> seq<Marker>,
    getMatchedMarkers: (seq<Marker>, string) -> seq<Marker>,
    getNextMatchMarker: (MarkerCache, string, Position) -> Option<Marker>)
}
