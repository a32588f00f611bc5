/**
 * The editor object of amd/src/editor.js as a class: the content element's
 * children, the window selection, the textarea the clean HTML is copied into,
 * and the undo/redo history, changed in place by `setFormat`, the hot key and
 * toolbar handlers, the empty-text cleanup loop and undo/redo.
 *
 * Each method is proved against a function on values: `Classify` for the
 * classifier's loop, `Sweep` for the cleanup loop, `AfterFormat` (built on
 * `Format`) for `setFormat`, and `HotKey`/`ToolbarClick` for the handlers.
 */
module AmdEditor {
  import opened Wrappers
  import opened EditorHistory
  import opened Sanitiser
  import opened Inline
  import opened Selection
  import opened Formatting
  import opened Dispatch

  /** Everything a call can change: the content, the selection, the textarea and the history. */
  datatype EditorState = EditorState(doc: Doc, sel: Option<Range>, textarea: string, hist: HistoryState)

  ghost predicate ValidEditorState(s: EditorState) {
    ValidSelection(s.doc, s.sel) && ValidState(s.hist)
  }

  /**
   * `getCleanHTML()`: the content's `innerHTML` through the sanitiser `clean`,
   * which an editor fixes to `GetCleanHtml` with its regular-expression engine.
   */
  function CleanContent(clean: string -> string, doc: Doc): string {
    clean(InnerHtml(doc))
  }

  /**
   * The state after a call with outcome `o`: on a change, the new content and
   * selection, the textarea rewritten with the clean HTML when the branch
   * writes it, and the clean HTML saved to the history when the branch saves;
   * a throw leaves the state as it was. So does a nested insertion here,
   * although the source inserts the new mark inside the held one, moves the
   * caret into it and saves a snapshot: content with a mark inside a mark is
   * outside this model.
   */
  function Applied(clean: string -> string, s: EditorState, o: Outcome): (t: EditorState)
    requires ValidEditorState(s) && (o.Changed? ==> ValidSelection(o.doc, o.sel))
    ensures ValidEditorState(t)
  {
    match o
    case Changed(d, q, writes, saves) =>
      EditorState(d, q,
        if writes then CleanContent(clean, d) else s.textarea,
        if saves then Saved(s.hist, CleanContent(clean, d)) else s.hist)
    case _ => s
  }

  /** The state after `setFormat(tag)`. */
  function AfterFormat(clean: string -> string, s: EditorState, tag: Tag): (t: EditorState)
    requires ValidEditorState(s)
    ensures ValidEditorState(t)
  {
    Applied(clean, s, Format(s.doc, s.sel, tag))
  }

  /**
   * After a call that writes the textarea and saves, the textarea and the
   * snapshot the history now shows are both the clean HTML of the new content.
   */
  lemma FormatSyncsTextarea(clean: string -> string, s: EditorState, tag: Tag)
    requires ValidEditorState(s)
    requires Format(s.doc, s.sel, tag).Changed?
    requires Format(s.doc, s.sel, tag).writesTextarea && Format(s.doc, s.sel, tag).saves
    ensures var t := AfterFormat(clean, s, tag);
      t.textarea == t.hist.history[t.hist.historyIndex] == CleanContent(clean, t.doc)
  {
  }

  /**
   * A call that saves a changed snapshot can be undone: undo then shows the
   * snapshot that was current before the call, and redo the new one.
   */
  lemma FormatThenUndo(clean: string -> string, s: EditorState, tag: Tag)
    requires ValidEditorState(s) && s.hist.historyIndex >= 0
    requires Format(s.doc, s.sel, tag).Changed? && Format(s.doc, s.sel, tag).saves
    requires Changes(s.hist, CleanContent(clean, Format(s.doc, s.sel, tag).doc))
    ensures var t := AfterFormat(clean, s, tag);
      UndoShows(t.hist) == Some(s.hist.history[s.hist.historyIndex]) &&
      RedoShows(Undone(t.hist)) == Some(CleanContent(clean, t.doc))
  {
    SaveUndoRedo(s.hist, CleanContent(clean, Format(s.doc, s.sel, tag).doc));
  }

  /**
   * The state `init()` leaves (lines 153-158): the textarea's `value` parsed
   * into the content, no selection, the textarea untouched, and a history
   * holding the clean HTML of that content as its one, current snapshot.
   */
  function Initial(clean: string -> string, parse: string -> Doc, value: string): (s: EditorState)
    ensures ValidEditorState(s) && s.textarea == value && s.sel.None?
    ensures s.hist.history == [CleanContent(clean, s.doc)] && s.hist.historyIndex == 0
  {
    EditorState(parse(value), None, value, Saved(Empty(), CleanContent(clean, parse(value))))
  }

  /**
   * The first call after `init()` that saves a changed snapshot can be undone:
   * the history then holds the starting snapshot and the new one, and undo
   * shows the clean HTML of the content the editor started with.
   */
  lemma FirstFormatUndoes(clean: string -> string, parse: string -> Doc, value: string, sel: Option<Range>, tag: Tag)
    requires ValidSelection(parse(value), sel)
    requires var o := Format(parse(value), sel, tag);
      o.Changed? && o.saves && CleanContent(clean, o.doc) != CleanContent(clean, parse(value))
    ensures var t := AfterFormat(clean, Initial(clean, parse, value).(sel := sel), tag);
      t.hist.history == [CleanContent(clean, parse(value)), CleanContent(clean, t.doc)] &&
      UndoShows(t.hist) == Some(CleanContent(clean, parse(value))) &&
      Undone(t.hist).historyIndex == 0
  {
    var s := Initial(clean, parse, value).(sel := sel);
    FormatThenUndo(clean, s, tag);
  }

  /** `Format` at a caret. */
  lemma FormatOfCaret(doc: Doc, r: Range, tag: Tag)
    requires ValidRange(doc, r) && Collapsed(r)
    ensures var n := doc[r.start.node];
      var e := if n.Mark? then SplitMark(doc, r.start) else InsertMark(doc, r.start, tag);
      Format(doc, Some(r), tag) ==
        if n.Mark? && n.tag != tag then Nested
        else Changed(Sweep(e.doc), Some(SweepRange(e.doc, e.sel)), false, true)
  {
  }

  /** `Format` on a range the classifier throws on, inside a mark, or inside a clone. */
  lemma FormatOfInside(doc: Doc, r: Range, tag: Tag)
    requires ValidRange(doc, r) && !Collapsed(r)
    ensures Classify(doc, Some(r)) == ThrowsTypeError ==> Format(doc, Some(r), tag) == Threw
    ensures r.start.node == r.end.node && doc[r.start.node].Mark? ==>
      var e := Unformat(doc, r);
      Format(doc, Some(r), tag) == Changed(Sweep(e.doc), Some(SweepRange(e.doc, e.sel)), true, true)
    ensures Classify(doc, Some(r)).InsideClone? ==> Format(doc, Some(r), tag) == Changed(Sweep(doc), None, true, true)
  {
    ClassifyInsideMark(doc, r);
  }

  /** `Format` on a range outside any mark that merges into a neighbour. */
  lemma FormatOfMerged(doc: Doc, r: Range, tag: Tag, e: Edit)
    requires ValidRange(doc, r) && !Collapsed(r) && Classify(doc, Some(r)) == NotInside
    requires r.start.node == r.end.node ==> doc[r.start.node].Text?
    requires Wrap(doc, r, tag) == Merged(e)
    ensures Format(doc, Some(r), tag) == Changed(e.doc, Some(e.sel), true, false)
  {
  }

  /** `Format` on a range outside any mark that is wrapped in a new mark. */
  lemma FormatOfWrapped(doc: Doc, r: Range, tag: Tag, e: Edit)
    requires ValidRange(doc, r) && !Collapsed(r) && Classify(doc, Some(r)) == NotInside
    requires r.start.node == r.end.node ==> doc[r.start.node].Text?
    requires Wrap(doc, r, tag) == Wrapped(e)
    ensures var d := Sweep(e.doc);
      Format(doc, Some(r), tag) == Changed(Sweep(d), Some(SweepRange(d, SweepRange(e.doc, e.sel))), true, true)
  {
  }

  /** The sweep at index `i`: what it keeps of `doc[i..]`, one step at a time. */
  lemma SweepAt(doc: Doc, i: nat)
    requires i < |doc|
    ensures IsEmptyText(doc[i]) && i + 1 == |doc| ==> Sweep(doc[i..]) == []
    ensures IsEmptyText(doc[i]) && i + 1 < |doc| ==> Sweep(doc[i..]) == [doc[i + 1]] + Sweep(doc[i + 2..])
    ensures !IsEmptyText(doc[i]) ==> Sweep(doc[i..]) == [doc[i]] + Sweep(doc[i + 1..])
  {
    var t := doc[i..];
    assert t[0] == doc[i];
    if |t| > 1 {
      assert t[1] == doc[i + 1] && t[2..] == doc[i + 2..];
    }
    assert t[1..] == doc[i + 1..];
  }

  /**
   * One turn of the cleanup loop at index `i`: removing an empty text node
   * there (or keeping any other child) and moving on to `i + 1` keeps what
   * the sweep of the whole list yields.
   */
  lemma SweepStep(d: Doc, i: nat)
    requires i < |d|
    ensures var d' := if IsEmptyText(d[i]) then d[..i] + d[i + 1..] else d;
      (i + 1 <= |d'| ==> d[..i] + Sweep(d[i..]) == d'[..i + 1] + Sweep(d'[i + 1..])) &&
      (i + 1 == |d'| + 1 ==> d[..i] + Sweep(d[i..]) == d')
  {
    SweepAt(d, i);
    if IsEmptyText(d[i]) {
      var d' := d[..i] + d[i + 1..];
      if i + 1 < |d| {
        assert d'[..i + 1] == d[..i] + [d[i + 1]] && d'[i + 1..] == d[i + 2..];
      } else {
        assert d' == d[..i];
      }
    } else {
      assert d[..i + 1] == d[..i] + [d[i]];
    }
  }

  class Editor {
    var doc: Doc
    var sel: Option<Range>
    var textarea: string
    const store: History
    /** The sanitiser `getCleanHTML` applies to the content's `innerHTML`. */
    const clean: string -> string
    const mode: Mode
    /** The browser's HTML parser, used when a snapshot is written into `innerHTML`. */
    const parse: string -> Doc

    ghost predicate Valid()
      reads this, store
    {
      ValidSelection(doc, sel) && store.Valid()
    }

    function State(): EditorState
      reads this, store
    {
      EditorState(doc, sel, textarea, store.State())
    }

    /**
     * `constructor(settings)` and `init()` (lines 73-76, 153-158) over a
     * textarea holding `value`: the value is parsed into the content, and the
     * clean HTML of that content is saved as the first snapshot.
     */
    constructor (engine: Engine, mode: Mode, parse: string -> Doc, value: string)
      ensures Valid() && fresh(store)
      ensures forall html :: clean(html) == GetCleanHtml(engine, html)
      ensures this.mode == mode && this.parse == parse
      ensures State() == Initial(clean, parse, value)
    {
      doc := parse(value);
      sel := None;
      textarea := value;
      store := new History();
      clean := html => GetCleanHtml(engine, html);
      this.mode := mode;
      this.parse := parse;
      new;
      SaveHistory();
    }

    /**
     * `isSelectionInsideSubSup()` (lines 388-426): the loop over the pieces of
     * the cloned range keeps the first piece with text and gives up on a plain
     * text piece outside a mark or on a piece that differs from the first.
     */
    method IsSelectionInsideSubSup() returns (r: Inside)
      requires Valid()
      ensures r == Classify(doc, sel)
    {
      if sel.None? {
        return NotInside;
      }
      var range := sel.value;
      var tagName := ParentName(doc, range);
      if Collapsed(range) {
        if IsSupSubTag(tagName) {
          return InsideMark(range.start.node);
        }
        return NotInside;
      }
      r := ScanPieces(CloneContents(doc, range), tagName, range.start.node);
    }

    /**
     * The loop of `isSelectionInsideSubSup` over the pieces of the cloned
     * range (lines 403-420) and the test after it (lines 422-425).
     */
    static method ScanPieces(pieces: Doc, tagName: string, at: nat) returns (r: Inside)
      ensures r == ClassifyPieces(pieces, tagName, at)
    {
      var first: Option<Node> := None;
      var k := 0;
      while k < |pieces|
        invariant 0 <= k <= |pieces|
        invariant first.None? ==> forall q | 0 <= q < k :: pieces[q].text == ""
        invariant first.Some? ==>
          !AllEmpty(pieces) && FirstNonEmpty(pieces) < k && first.value == pieces[FirstNonEmpty(pieces)]
        invariant first.Some? ==> forall q | 0 <= q < k :: !Rejected(pieces[q], tagName, first.value)
      {
        var node := pieces[k];
        if node.text != "" {
          if !IsSupSubTag(NodeName(node)) && NodeName(node) == "#text" && !IsSupSubTag(tagName) {
            assert Rejected(node, tagName, pieces[FirstNonEmpty(pieces)]);
            return NotInside;
          }
          if first.None? {
            first := Some(node);
          }
          if first.value != node {
            assert Rejected(node, tagName, first.value);
            return NotInside;
          }
        }
        k := k + 1;
      }
      if first.None? {
        // `nodeNames.nodeName` of undefined
        return ThrowsTypeError;
      }
      if NodeName(first.value) == "#text" || IsSupSubTag(tagName) {
        return InsideMark(at);
      }
      return InsideClone(first.value);
    }

    /**
     * The cleanup `childNodes.forEach(el => { if empty text: el.remove() })`
     * (lines 651-655, 659-663). The node list is live: removing the child at
     * the current index moves its successor there, and the walk goes on at
     * the next index, so that successor is never visited.
     */
    method RemoveEmptyTexts()
      modifies this
      ensures doc == Sweep(old(doc))
      ensures sel == old(sel) && textarea == old(textarea)
    {
      doc := Swept(doc);
    }

    /** The loop of the cleanup on the list of children. */
    static method Swept(children: Doc) returns (d: Doc)
      ensures d == Sweep(children)
    {
      d := children;
      var i := 0;
      while i < |d|
        invariant i <= |d| + 1
        invariant i <= |d| ==> Sweep(children) == d[..i] + Sweep(d[i..])
        invariant i == |d| + 1 ==> Sweep(children) == d
        decreases |d| + 1 - i
      {
        SweepStep(d, i);
        if IsEmptyText(d[i]) {
          d := d[..i] + d[i + 1..];
        }
        i := i + 1;
      }
    }

    /** `saveHistory()` (lines 670-677): the clean HTML of the content, unless it is the snapshot shown. */
    method SaveHistory()
      requires Valid()
      modifies store
      ensures Valid() && store.State() == Saved(old(store.State()), CleanContent(clean, doc))
    {
      var content := CleanContent(clean, doc);
      store.SaveHistory(content);
    }

    /** The cleanup pass with the selection moved along, as a live range is. */
    method SweepSelected(r: Range)
      requires ValidRange(doc, r) && r.start.node == r.end.node && !IsEmptyText(doc[r.start.node])
      modifies this
      ensures doc == Sweep(old(doc)) && sel == Some(SweepRange(old(doc), r)) && textarea == old(textarea)
    {
      var before := doc;
      RemoveEmptyTexts();
      sel := Some(SweepRange(before, r));
    }

    /**
     * `setFormat(action)` (lines 512-665) for the action's tag; the outcome
     * says whether it threw or would nest a mark.
     */
    method SetFormat(tag: Tag) returns (o: Outcome)
      requires Valid()
      modifies this, store
      ensures Valid()
      ensures o == Format(old(doc), old(sel), tag)
      ensures State() == AfterFormat(clean, old(State()), tag)
    {
      if sel.None? {
        // `getRangeAt(0)` with no range
        return Threw;
      }
      var r := sel.value;
      var nodeEl := IsSelectionInsideSubSup();
      if Collapsed(r) {
        FormatOfCaret(doc, r, tag);
        o := FormatAtCaret(tag);
        return;
      }
      FormatOfInside(doc, r, tag);
      ClassifyInsideMark(doc, r);
      if nodeEl == ThrowsTypeError {
        return Threw;
      } else if nodeEl.InsideMark? {
        o := FormatInsideMark(tag);
      } else if nodeEl.InsideClone? {
        o := FormatInsideClone(tag);
      } else {
        ClassifyInsideMark(doc, sel.value);
        match Wrap(doc, sel.value, tag)
        case Merged(e) =>
          FormatOfMerged(doc, sel.value, tag, e);
          o := FormatMergedInto(e);
        case Wrapped(e) =>
          FormatOfWrapped(doc, sel.value, tag, e);
          o := FormatWrappedAround(e);
      }
    }

    /** The caret branch (lines 520-568), then the cleanup and `saveHistory()`. */
    method FormatAtCaret(tag: Tag) returns (o: Outcome)
      requires Valid() && sel.Some? && Collapsed(sel.value)
      modifies this, store
      ensures var r := old(sel).value; var n := old(doc)[r.start.node];
        var e := if n.Mark? then SplitMark(old(doc), r.start) else InsertMark(old(doc), r.start, tag);
        o == if n.Mark? && n.tag != tag then Nested
             else Changed(Sweep(e.doc), Some(SweepRange(e.doc, e.sel)), false, true)
      ensures Valid() && State() == Applied(clean, old(State()), o)
    {
      var r := sel.value;
      var n := doc[r.start.node];
      if n.Mark? && n.tag != tag {
        return Nested;
      }
      var e := if n.Mark? then SplitMark(doc, r.start) else InsertMark(doc, r.start, tag);
      doc := e.doc;
      SweepSelected(e.sel);
      SaveHistory();
      return Changed(doc, sel, false, true);
    }

    /** A range inside a mark (lines 569-606), then the cleanup and `saveHistory()`. */
    method FormatInsideMark(tag: Tag) returns (o: Outcome)
      requires Valid() && sel.Some? && !Collapsed(sel.value)
      requires sel.value.start.node == sel.value.end.node && doc[sel.value.start.node].Mark?
      modifies this, store
      ensures var e := Unformat(old(doc), old(sel).value);
        o == Changed(Sweep(e.doc), Some(SweepRange(e.doc, e.sel)), true, true)
      ensures Valid() && State() == Applied(clean, old(State()), o)
    {
      var e := Unformat(doc, sel.value);
      doc := e.doc;
      textarea := CleanContent(clean, doc);
      SweepKeepsContent(e.doc);
      SweepSelected(e.sel);
      SaveHistory();
      return Changed(doc, sel, true, true);
    }

    /** A range whose pieces are one mark: the edits land in the detached clone. */
    method FormatInsideClone(tag: Tag) returns (o: Outcome)
      requires Valid() && sel.Some? && !Collapsed(sel.value) && Classify(doc, sel).InsideClone?
      modifies this, store
      ensures o == Changed(Sweep(old(doc)), None, true, true)
      ensures Valid() && State() == Applied(clean, old(State()), o)
    {
      sel := None;
      textarea := CleanContent(clean, doc);
      SweepKeepsContent(doc);
      RemoveEmptyTexts();
      SaveHistory();
      return Changed(doc, sel, true, true);
    }

    /** A range outside any mark that joins a neighbouring mark (lines 619-639): the edit `e` of `Wrap`, with no cleanup and no save. */
    method FormatMergedInto(e: Edit) returns (o: Outcome)
      requires Valid() && ValidSelection(e.doc, Some(e.sel))
      modifies this
      ensures o == Changed(e.doc, Some(e.sel), true, false)
      ensures Valid() && State() == Applied(clean, old(State()), o)
    {
      doc := e.doc;
      sel := Some(e.sel);
      textarea := CleanContent(clean, doc);
      return Changed(doc, sel, true, false);
    }

    /** A range outside any mark wrapped in a new mark (lines 640-663): the edit `e` of `Wrap`, then cleanup, textarea, cleanup, save. */
    method FormatWrappedAround(e: Edit) returns (o: Outcome)
      requires Valid() && ValidRange(e.doc, e.sel) && e.sel.start.node == e.sel.end.node && !IsEmptyText(e.doc[e.sel.start.node])
      modifies this, store
      ensures var d := Sweep(e.doc);
        o == Changed(Sweep(d), Some(SweepRange(d, SweepRange(e.doc, e.sel))), true, true)
      ensures Valid() && State() == Applied(clean, old(State()), o)
    {
      doc := e.doc;
      SweepSelected(e.sel);
      textarea := CleanContent(clean, doc);
      SweepKeepsContent(doc);
      SweepSelected(sel.value);
      SaveHistory();
      return Changed(doc, sel, true, true);
    }

    /** The node the classifier returned: the mark holding the range, or the clone. */
    function HeldNode(nodeEl: Inside): (n: Node)
      requires Valid() && nodeEl == Classify(doc, sel) && (nodeEl.InsideMark? || nodeEl.InsideClone?)
      reads this, store
      ensures n.Mark? && HeldTag(doc, sel) == Some(n.tag)
    {
      ClassifyReturnsMark(doc, sel);
      if nodeEl.InsideMark? then doc[nodeEl.at] else nodeEl.node
    }

    /** `handleSupSubHotKey(action)` (lines 331-343). */
    method HandleSupSubHotKey(action: Tag) returns (c: Command)
      requires Valid()
      modifies this, store
      ensures Valid()
      ensures c == HotKey(old(doc), old(sel), mode, action)
      ensures State() == if c.Apply? then AfterFormat(clean, old(State()), c.action.tag) else old(State())
    {
      ghost var decided := HotKey(doc, sel, mode, action);
      var nodeEl := IsSelectionInsideSubSup();
      if nodeEl == ThrowsTypeError {
        return Throws;
      }
      ClassifyReturnsMark(doc, sel);
      if nodeEl.InsideMark? || nodeEl.InsideClone? {
        var held := HeldNode(nodeEl).tag;
        if TagName(held) != TagName(action) {
          var a := GetActions(if TagName(held) == "sup" then "sub" else "sup")[0];
          assert decided == Apply(a);
          var _ := SetFormat(a.tag);
          return Apply(a);
        }
        return NoOp;
      }
      if IsSupportSupSub(mode, action) {
        var a := GetActions(TagName(action))[0];
        assert decided == Apply(a);
        var _ := SetFormat(a.tag);
        return Apply(a);
      }
      return NoOp;
    }

    /** A toolbar button's click handler (lines 482-495); focus and blur are not modelled. */
    method ToolbarClick(action: Action) returns (c: Command)
      requires Valid()
      modifies this, store
      ensures Valid()
      ensures c == Dispatch.ToolbarClick(old(doc), old(sel), action)
      ensures State() == if c.Apply? then AfterFormat(clean, old(State()), action.tag) else old(State())
    {
      var collapsed := sel.None? || Collapsed(sel.value);
      var nodeEl := IsSelectionInsideSubSup();
      if nodeEl == ThrowsTypeError {
        return Throws;
      }
      ClassifyReturnsMark(doc, sel);
      if collapsed && (nodeEl.InsideMark? || nodeEl.InsideClone?) {
        var held := HeldNode(nodeEl).tag;
        if TagName(held) != TagName(action.tag) {
          return NoOp;
        }
      }
      var _ := SetFormat(action.tag);
      return Apply(action);
    }

    /**
     * `handleUndo()` (lines 307-313): on a step back, the snapshot is parsed
     * into the content and copied into the textarea. The old range pointed
     * into replaced children; the DOM moves it to the start of the content
     * element, a boundary this model has no position for, so the selection
     * becomes `None`. A format after this throws here, where the source
     * inserts a new mark at the start of the content.
     */
    method HandleUndo()
      requires Valid()
      modifies this, store
      ensures Valid() && store.State() == Undone(old(store.State()))
      ensures UndoShows(old(store.State())).None? ==> doc == old(doc) && sel == old(sel) && textarea == old(textarea)
      ensures UndoShows(old(store.State())).Some? ==>
        var shown := UndoShows(old(store.State())).value;
        doc == parse(shown) && sel == None && textarea == shown
    {
      var shown := store.HandleUndo();
      if shown.Some? {
        doc := parse(shown.value);
        sel := None;
        textarea := shown.value;
      }
    }

    /** `handleRedo()` (lines 318-324), the same a step forward. */
    method HandleRedo()
      requires Valid()
      modifies this, store
      ensures Valid() && store.State() == Redone(old(store.State()))
      ensures RedoShows(old(store.State())).None? ==> doc == old(doc) && sel == old(sel) && textarea == old(textarea)
      ensures RedoShows(old(store.State())).Some? ==>
        var shown := RedoShows(old(store.State())).value;
        doc == parse(shown) && sel == None && textarea == shown
    {
      var shown := store.HandleRedo();
      if shown.Some? {
        doc := parse(shown.value);
        sel := None;
        textarea := shown.value;
      }
    }
  }
}
