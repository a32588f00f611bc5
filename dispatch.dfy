/**
 * How the toolbar buttons and the superscript/subscript hot keys decide
 * whether to call `setFormat`, and with which action (amd/src/editor.js).
 */
module Dispatch {
  import opened Wrappers
  import opened Inline
  import opened Selection
  import opened Formatting

  /** A toolbar button's settings: its name, the tag it applies and its CSS class. */
  datatype Action = Action(name: string, tag: Tag, cssClass: string)

  /** `defaultActions.sup` and `defaultActions.sub`. */
  function DefaultAction(t: Tag): Action {
    match t
    case Sup => Action("superscript", Sup, "ousupsub_superscript_button_superscript")
    case Sub => Action("subscript", Sub, "ousupsub_subscript_button_subscript")
  }

  /** The editor's `type` setting: both marks, or only one. */
  datatype Mode = Both | Only(tag: Tag)

  function ModeName(m: Mode): string {
    match m
    case Both => "both"
    case Only(t) => TagName(t)
  }

  /** `getActions(type)`: the one default action named `type`, or both of them. */
  function GetActions(kind: string): (acts: seq<Action>)
    ensures kind == TagName(Sup) ==> acts == [DefaultAction(Sup)]
    ensures kind == TagName(Sub) ==> acts == [DefaultAction(Sub)]
    ensures kind != TagName(Sup) && kind != TagName(Sub) ==> acts == [DefaultAction(Sup), DefaultAction(Sub)]
  {
    if kind == "sup" then [DefaultAction(Sup)]
    else if kind == "sub" then [DefaultAction(Sub)]
    else [DefaultAction(Sup), DefaultAction(Sub)]
  }

  /** `isSupportSupSub(action)` */
  predicate IsSupportSupSub(mode: Mode, action: Tag) {
    ModeName(mode) == "both" || ModeName(mode) == TagName(action)
  }

  /** The action named by a tag is that tag's default action. */
  lemma GetActionsOfTag(t: Tag)
    ensures GetActions(TagName(t)) == [DefaultAction(t)]
    ensures DefaultAction(t).tag == t
  {
  }

  /** The toolbar shows a button for a tag exactly when the mode supports that tag's hot key. */
  lemma ButtonsMatchSupport(mode: Mode, t: Tag)
    ensures (exists k | 0 <= k < |GetActions(ModeName(mode))| :: GetActions(ModeName(mode))[k].tag == t) <==>
      IsSupportSupSub(mode, t)
  {
    var acts := GetActions(ModeName(mode));
    if IsSupportSupSub(mode, t) {
      if mode.Both? {
        assert acts[if t == Sup then 0 else 1].tag == t;
      } else {
        assert acts[0].tag == t;
      }
    }
  }

  /** What a key press or a click does. */
  datatype Command =
    | NoOp           // nothing is formatted
    | Throws         // the classifier's TypeError propagates
    | Apply(action: Action)  // `setFormat(action)`

  /** The tag of the node the classifier returns, when it returns one. */
  function HeldTag(doc: Doc, sel: Option<Range>): (t: Option<Tag>)
    requires ValidSelection(doc, sel)
    ensures t.Some? <==> Classify(doc, sel).InsideMark? || Classify(doc, sel).InsideClone?
  {
    ClassifyReturnsMark(doc, sel);
    match Classify(doc, sel)
    case InsideMark(at) => Some(doc[at].tag)
    case InsideClone(n) => Some(n.tag)
    case _ => None
  }

  /**
   * `handleSupSubHotKey(action)` (lines 331-343): inside a mark of the other
   * tag the other tag of that mark, which is the requested one, is applied
   * whatever the mode; inside a mark of the requested tag nothing happens;
   * outside every mark the requested tag is applied when the mode supports it.
   */
  function HotKey(doc: Doc, sel: Option<Range>, mode: Mode, action: Tag): Command
    requires ValidSelection(doc, sel)
  {
    if Classify(doc, sel) == ThrowsTypeError then Throws
    else match HeldTag(doc, sel)
      case Some(held) =>
        if TagName(held) != TagName(action) then
          Apply(GetActions(if TagName(held) == "sup" then "sub" else "sup")[0])
        else NoOp
      case None =>
        if IsSupportSupSub(mode, action) then Apply(GetActions(TagName(action))[0]) else NoOp
  }

  /**
   * The toolbar button's click handler (lines 482-495): with a collapsed
   * selection inside a mark of another tag the click does nothing; otherwise
   * it applies the button's action.
   */
  function ToolbarClick(doc: Doc, sel: Option<Range>, action: Action): Command
    requires ValidSelection(doc, sel)
  {
    var collapsed := sel.None? || Collapsed(sel.value);
    if Classify(doc, sel) == ThrowsTypeError then Throws
    else if collapsed && HeldTag(doc, sel).Some? && TagName(HeldTag(doc, sel).value) != TagName(action.tag) then NoOp
    else Apply(action)
  }

  /**
   * A hot key only ever applies the requested tag's default action. It does
   * so exactly when the selection is not in a mark of that tag and either is
   * in a mark of the other tag or the mode supports the tag.
   */
  lemma HotKeyApplies(doc: Doc, sel: Option<Range>, mode: Mode, action: Tag)
    requires ValidSelection(doc, sel)
    ensures HotKey(doc, sel, mode, action) == Throws <==> Classify(doc, sel) == ThrowsTypeError
    ensures HotKey(doc, sel, mode, action).Apply? ==> HotKey(doc, sel, mode, action).action == DefaultAction(action)
    ensures HotKey(doc, sel, mode, action).Apply? <==>
      Classify(doc, sel) != ThrowsTypeError &&
      (match HeldTag(doc, sel)
       case Some(held) => held != action
       case None => IsSupportSupSub(mode, action))
  {
    if HeldTag(doc, sel).Some? {
      var held := HeldTag(doc, sel).value;
      assert TagName(held) != TagName(action) <==> held != action;
    }
  }

  /**
   * The toolbar's guard does exactly what keeps `setFormat` from nesting a mark
   * in a mark of the other tag: a click does nothing precisely where the call
   * would nest, and otherwise applies the button's action.
   */
  lemma ToolbarNeverNests(doc: Doc, sel: Option<Range>, action: Action)
    requires ValidSelection(doc, sel)
    ensures ToolbarClick(doc, sel, action) == Throws <==> Classify(doc, sel) == ThrowsTypeError
    ensures ToolbarClick(doc, sel, action) == NoOp <==> Format(doc, sel, action.tag) == Nested
    ensures ToolbarClick(doc, sel, action).Apply? ==> ToolbarClick(doc, sel, action).action == action
  {
    FormatNests(doc, sel, action.tag);
    if sel.Some? && Collapsed(sel.value) {
      ClassifyCaret(doc, sel);
      var n := doc[sel.value.start.node];
      if n.Mark? {
        assert TagName(n.tag) != TagName(action.tag) <==> n.tag != action.tag;
      }
    } else if sel.Some? {
      assert ToolbarClick(doc, sel, action) != NoOp;
    }
  }

  /**
   * The hot key has no such guard: with the caret in a mark of the other tag
   * it applies the requested tag, and `setFormat` then nests the new mark.
   */
  lemma HotKeyNests(doc: Doc, r: Range, mode: Mode, action: Tag)
    requires ValidRange(doc, r) && Collapsed(r)
    requires doc[r.start.node].Mark? && doc[r.start.node].tag != action
    ensures HotKey(doc, Some(r), mode, action) == Apply(DefaultAction(action))
    ensures Format(doc, Some(r), action) == Nested
  {
    ClassifyCaret(doc, Some(r));
    HotKeyApplies(doc, Some(r), mode, action);
    FormatNests(doc, Some(r), action);
  }
}
