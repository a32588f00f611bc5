/**
 * The editor's undo/redo history: a list of clean HTML snapshots and the index
 * of the snapshot currently shown (amd/src/editor.js, fields `history` and
 * `historyIndex`, methods `saveHistory`, `handleUndo`, `handleRedo`).
 *
 * The value-level functions `Saved`, `Undone` and `Redone` say what one call
 * does to the pair (history, historyIndex); the class `History` performs the
 * same updates in place and is proved against them.
 */
module EditorHistory {
  import opened Wrappers

  /** The pair of fields the editor keeps for undo/redo. */
  datatype HistoryState = HistoryState(history: seq<string>, historyIndex: int)

  /** The index is -1 exactly while nothing has been saved, else it points into the list. */
  ghost predicate ValidState(h: HistoryState) {
    -1 <= h.historyIndex < |h.history| && (h.historyIndex == -1 <==> h.history == [])
  }

  /** No two neighbouring snapshots are equal. */
  ghost predicate NoAdjacentDuplicates(s: seq<string>) {
    forall k :: 0 < k < |s| ==> s[k - 1] != s[k]
  }

  /** The state before anything is saved (field initialisers, lines 64-65). */
  function Empty(): (h: HistoryState)
    ensures ValidState(h) && h.history == []
  {
    HistoryState([], -1)
  }

  /** Whether `saveHistory` stores `content`: nothing is stored yet, or it differs from the shown snapshot. */
  predicate Changes(h: HistoryState, content: string)
    requires ValidState(h)
  {
    h.historyIndex == -1 || content != h.history[h.historyIndex]
  }

  /**
   * `saveHistory` with the clean HTML `content`: drops the redo branch after
   * the current index, appends the snapshot and points at it; an unchanged
   * snapshot leaves everything as it was.
   */
  function Saved(h: HistoryState, content: string): (r: HistoryState)
    requires ValidState(h)
    ensures ValidState(r)
    ensures Changes(h, content) ==>
      r.history == h.history[..h.historyIndex + 1] + [content] && r.historyIndex == |r.history| - 1
    ensures !Changes(h, content) ==> r == h
    ensures r.history[r.historyIndex] == content
  {
    if Changes(h, content) then
      HistoryState(h.history[..h.historyIndex + 1] + [content], h.historyIndex + 1)
    else
      h
  }

  /** `handleUndo`: steps back only when an earlier snapshot exists. */
  function Undone(h: HistoryState): (r: HistoryState)
    requires ValidState(h)
    ensures ValidState(r) && r.history == h.history
    ensures r.historyIndex == if h.historyIndex > 0 then h.historyIndex - 1 else h.historyIndex
  {
    if h.historyIndex > 0 then HistoryState(h.history, h.historyIndex - 1) else h
  }

  /** `handleRedo`: steps forward only when a later snapshot exists. */
  function Redone(h: HistoryState): (r: HistoryState)
    requires ValidState(h)
    ensures ValidState(r) && r.history == h.history
    ensures r.historyIndex == if h.historyIndex < |h.history| - 1 then h.historyIndex + 1 else h.historyIndex
  {
    if h.historyIndex < |h.history| - 1 then HistoryState(h.history, h.historyIndex + 1) else h
  }

  /** What undo writes into the editor and the textarea: the snapshot stepped back to, if any. */
  function UndoShows(h: HistoryState): (r: Option<string>)
    requires ValidState(h)
    ensures r.Some? <==> h.historyIndex > 0
    ensures r.Some? ==> r.value == h.history[h.historyIndex - 1]
  {
    if h.historyIndex > 0 then Some(h.history[h.historyIndex - 1]) else None
  }

  /** What redo writes into the editor and the textarea: the snapshot stepped forward to, if any. */
  function RedoShows(h: HistoryState): (r: Option<string>)
    requires ValidState(h)
    ensures r.Some? <==> h.historyIndex < |h.history| - 1
    ensures r.Some? ==> r.value == h.history[h.historyIndex + 1]
  {
    if h.historyIndex < |h.history| - 1 then Some(h.history[h.historyIndex + 1]) else None
  }

  /** A successful undo followed by redo restores the same index, list and snapshot. */
  lemma UndoThenRedo(h: HistoryState)
    requires ValidState(h) && h.historyIndex > 0
    ensures Redone(Undone(h)) == h
    ensures RedoShows(Undone(h)) == Some(h.history[h.historyIndex])
  {
  }

  /** A successful redo followed by undo restores the same index, list and snapshot. */
  lemma RedoThenUndo(h: HistoryState)
    requires ValidState(h) && h.historyIndex < |h.history| - 1
    ensures Undone(Redone(h)) == h
    ensures UndoShows(Redone(h)) == Some(h.history[h.historyIndex])
  {
  }

  /**
   * After saving a changed snapshot on top of an earlier one, undo shows the
   * earlier snapshot, and redo then shows exactly the saved one again.
   */
  lemma SaveUndoRedo(h: HistoryState, content: string)
    requires ValidState(h) && h.historyIndex >= 0 && Changes(h, content)
    ensures UndoShows(Saved(h, content)) == Some(h.history[h.historyIndex])
    ensures RedoShows(Undone(Saved(h, content))) == Some(content)
    ensures Redone(Undone(Saved(h, content))) == Saved(h, content)
  {
    var s := Saved(h, content);
    assert s.history[s.historyIndex - 1] == h.history[h.historyIndex];
  }

  /** Saving the same content twice is the same as saving it once. */
  lemma SaveIdempotent(h: HistoryState, content: string)
    requires ValidState(h)
    ensures Saved(Saved(h, content), content) == Saved(h, content)
  {
  }

  /** Saving an unchanged snapshot never changes the history's length. */
  lemma SaveUnchangedKeepsLength(h: HistoryState, content: string)
    requires ValidState(h) && !Changes(h, content)
    ensures |Saved(h, content).history| == |h.history|
  {
  }

  /** Every snapshot up to the current index survives a save, in place. */
  lemma SaveKeepsUndoPast(h: HistoryState, content: string, k: int)
    requires ValidState(h) && 0 <= k <= h.historyIndex
    ensures Saved(h, content).history[k] == h.history[k]
  {
  }

  /** Consecutive equal snapshots are never both stored: saving keeps neighbours distinct. */
  lemma {:induction false} SaveKeepsNeighboursDistinct(h: HistoryState, content: string)
    requires ValidState(h) && NoAdjacentDuplicates(h.history)
    ensures NoAdjacentDuplicates(Saved(h, content).history)
  {
    if Changes(h, content) {
      var s := Saved(h, content).history;
      var n := h.historyIndex + 1;
      assert s[..n] == h.history[..n];
      forall k | 0 < k < |s|
        ensures s[k - 1] != s[k]
      {
        if k < n {
          assert s[k - 1] == h.history[k - 1] && s[k] == h.history[k];
        } else {
          assert k == n && s[k] == content && s[k - 1] == h.history[h.historyIndex];
        }
      }
    }
  }

  /**
   * The history of one editor. `saveHistory` is given the clean HTML of the
   * editor content (computed by the caller); `handleUndo` and `handleRedo`
   * return the snapshot the source writes into the editor content and the
   * textarea, or None when they do nothing.
   */
  class History {
    var history: seq<string>
    var historyIndex: int

    ghost predicate Valid()
      reads this
    {
      ValidState(State())
    }

    function State(): HistoryState
      reads this
    {
      HistoryState(history, historyIndex)
    }

    constructor ()
      ensures Valid() && State() == Empty()
    {
      history := [];
      historyIndex := -1;
    }

    method SaveHistory(content: string)
      requires Valid()
      modifies this
      ensures Valid() && State() == Saved(old(State()), content)
    {
      if historyIndex == -1 || content != history[historyIndex] {
        history := history[..historyIndex + 1];
        history := history + [content];
        historyIndex := historyIndex + 1;
      }
    }

    method HandleUndo() returns (shown: Option<string>)
      requires Valid()
      modifies this
      ensures Valid() && State() == Undone(old(State()))
      ensures shown == UndoShows(old(State()))
      ensures shown.Some? ==> shown.value == history[historyIndex]
    {
      shown := None;
      if historyIndex > 0 {
        historyIndex := historyIndex - 1;
        shown := Some(history[historyIndex]);
      }
    }

    method HandleRedo() returns (shown: Option<string>)
      requires Valid()
      modifies this
      ensures Valid() && State() == Redone(old(State()))
      ensures shown == RedoShows(old(State()))
      ensures shown.Some? ==> shown.value == history[historyIndex]
    {
      shown := None;
      if historyIndex < |history| - 1 {
        historyIndex := historyIndex + 1;
        shown := Some(history[historyIndex]);
      }
    }
  }
}
