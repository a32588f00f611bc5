/**
 * The older YUI build of the editor
 * (yui/build/moodle-editor_ousupsub-editor/moodle-editor_ousupsub-editor-min.js):
 * its own rule table and filter loop, its `getCleanHTML`, the compare-and-set
 * of `updateOriginal`, and what `_applyTextCommand` decides to run for a key
 * press given the tag `getCursorTag` reports.
 */
module LegacyEditor {
  import opened Wrappers
  import opened TextRules
  import opened Sanitiser
  import Inline
  import Dispatch

  // ---------------------------------------------------------------------------
  // The sanitiser of the YUI build
  // ---------------------------------------------------------------------------

  /** The table of `_cleanHTML`, in order (34 rules). */
  function LegacyCleanRules(): seq<Rule> {
    [
      Pattern(EmptyParagraph, ""),
      Pattern(SupAttributes, "<sup>"),
      Pattern(SubAttributes, "<sub>"),
      Literal("&nbsp;", " "),
      Join("sup"),
      Join("sub"),
      Pattern(SpaceAfterSupOpen, "$1<sup>"),
      Pattern(SpaceAfterSubOpen, "$1<sub>"),
      Pattern(SpaceBeforeSupClose, "</sup>$1"),
      Pattern(SpaceBeforeSubClose, "</sub>$1"),
      Literal("<br>", ""),
      Pattern(StyleBlock, ""),
      Pattern(UnclosedComment, ""),
      Pattern(ScriptBlock, ""),
      Pattern(ForbiddenTags, ""),
      Pattern(FormattingTags, ""),
      Pattern(ElementsAbbrToBlockquote, ""),
      Pattern(ElementsButtonToData, ""),
      Pattern(ElementsDatalistToElement, ""),
      Pattern(ElementsEmToH5, ""),
      Pattern(ElementsH6ToLegend, ""),
      Pattern(ElementsMainToOptgroup, ""),
      Pattern(ElementsOptionToSamp, ""),
      Pattern(ElementsSectionToSummary, ""),
      Pattern(ElementsSvgToTrack, ""),
      Pattern(ElementsVarToVideo, ""),
      Pattern(DeprecatedAcronymToIsindex, ""),
      Pattern(DeprecatedListingToXmp, ""),
      Pattern(SiteJslNobr, ""),
      Pattern(SpanUnwrap, "$1"),
      Pattern(EmptySpan, ""),
      Pattern(SpanUnwrap, "$1"),
      Pattern(EmptySup, ""),
      Pattern(EmptySub, "")
    ]
  }

  /**
   * The table of the current build is the legacy table followed by two more
   * rules: the unwrap of `xmlns` elements and the removal of the placeholder.
   */
  lemma CleanRulesExtendLegacy()
    ensures CleanRules() == LegacyCleanRules() + [Pattern(XmlnsUnwrap, "$1"), Remove(Placeholder)]
  {
  }

  /** `_cleanHTML(content)`. */
  function LegacyCleanHtml(engine: Engine, content: string): string {
    Filter(engine, content, LegacyCleanRules())
  }

  /**
   * The current `cleanHTML` is the legacy one followed by the `xmlns` unwrap
   * and the removal of every placeholder character.
   */
  lemma CleanHtmlExtendsLegacy(engine: Engine, content: string)
    ensures CleanHtml(engine, content)
         == DeleteAll(engine(Source(XmlnsUnwrap), "$1", LegacyCleanHtml(engine, content)), Placeholder)
  {
    var w := engine(Source(XmlnsUnwrap), "$1", LegacyCleanHtml(engine, content));
    CleanHtmlIsFilter(engine, content);
    CleanFilterExtendsLegacy(engine, content);
    ApplyRemove(engine, Placeholder, w);
  }

  lemma ApplyRemove(engine: Engine, c: char, s: string)
    ensures Apply(engine, Remove(c), s) == DeleteAll(s, c)
  {
  }

  lemma CleanHtmlIsFilter(engine: Engine, content: string)
    ensures CleanHtml(engine, content) == Filter(engine, content, CleanRules())
  {
  }

  lemma CleanFilterExtendsLegacy(engine: Engine, content: string)
    ensures Filter(engine, content, CleanRules())
         == Apply(engine, Remove(Placeholder), Apply(engine, Pattern(XmlnsUnwrap, "$1"), Filter(engine, content, LegacyCleanRules())))
  {
    CleanRulesExtendLegacy();
    FilterTwoMore(engine, content, CleanRules(), LegacyCleanRules(), Pattern(XmlnsUnwrap, "$1"), Remove(Placeholder));
  }

  /** A table followed by two more rules: those two applied, in order, to what the table gives. */
  lemma FilterTwoMore(engine: Engine, content: string, rules: seq<Rule>, a: seq<Rule>, x: Rule, y: Rule)
    requires rules == a + [x, y]
    ensures Filter(engine, content, rules) == Apply(engine, y, Apply(engine, x, Filter(engine, content, a)))
  {
    FilterAppend(engine, content, a, [x, y]);
    var mid := Filter(engine, content, a);
    assert [x, y][1..] == [y];
    assert [y][1..] == [];
    calc {
      Filter(engine, mid, [x, y]);
      Filter(engine, Apply(engine, x, mid), [y]);
      Filter(engine, Apply(engine, y, Apply(engine, x, mid)), []);
    }
  }

  /**
   * `_filterContentWithRules(content, rules)`: an index loop replacing with
   * each rule in turn, each output feeding the next.
   */
  method LegacyFilterContentWithRules(engine: Engine, content: string, rules: seq<Rule>) returns (r: string)
    ensures r == Filter(engine, content, rules)
  {
    r := content;
    var n := 0;
    while n < |rules|
      invariant 0 <= n <= |rules|
      invariant r == Filter(engine, content, rules[..n])
    {
      FilterAppend(engine, content, rules[..n], [rules[n]]);
      assert rules[..n + 1] == rules[..n] + [rules[n]];
      r := Apply(engine, rules[n], r);
      n := n + 1;
    }
    assert rules[..n] == rules;
  }

  /** `n.indexOf(prefix) === 0`: a case-sensitive prefix test. */
  predicate HasPrefix(n: string, prefix: string) {
    |prefix| <= |n| && n[..|prefix|] == prefix
  }

  /**
   * The wrapper strip of `getCleanHTML`: when `n` starts with `prefix`,
   * `n.substr(|prefix|, |n| - (|prefix| + |suffix|))`, where a negative
   * length gives the empty string and a length past the end stops there.
   */
  function StripWrapper(n: string, prefix: string, suffix: string): (r: string)
    ensures |r| <= |n|
  {
    if HasPrefix(n, prefix) then
      var len := |n| - (|prefix| + |suffix|);
      var take := if len < 0 then 0 else len;
      n[|prefix|..|prefix| + take]
    else n
  }

  /** With the empty prefix and suffix the build uses, the strip leaves the markup as it is. */
  lemma StripEmptyWrapper(n: string)
    ensures StripWrapper(n, "", "") == n
  {
    assert n[..0] == "";
    assert n[0..|n|] == n;
  }

  /**
   * `getCleanHTML()` given the `innerHTML` of the content's clone (with the
   * generated ids and the control elements removed): the empty string and a
   * lone `<br>` clean to the empty string, anything else goes through the
   * wrapper strip and `_cleanHTML`.
   */
  function LegacyGetCleanHtml(engine: Engine, html: string): string {
    if html == "" || html == "<br>" then ""
    else LegacyCleanHtml(engine, StripWrapper(html, "", ""))
  }

  /** Only the two empty forms short-circuit; everything else is `_cleanHTML` of the markup itself. */
  lemma LegacyGetCleanHtmlCases(engine: Engine, html: string)
    ensures html == "" || html == "<br>" ==> LegacyGetCleanHtml(engine, html) == ""
    ensures html != "" && html != "<br>" ==> LegacyGetCleanHtml(engine, html) == LegacyCleanHtml(engine, html)
  {
    StripEmptyWrapper(html);
  }

  /** `_getEmptyContent()`: the empty string on every browser (both arms of its IE test are `""`). */
  function EmptyContent(): string {
    ""
  }

  // ---------------------------------------------------------------------------
  // The editor object: the textarea kept in step with the content
  // ---------------------------------------------------------------------------

  class Editor {
    /** The `innerHTML` that `getCleanHTML` reads from the clone of the content. */
    var html: string
    /** The value of the original textarea. */
    var textarea: string
    /** How many `change` events the editor has fired. */
    var changeEvents: nat
    /** `getCleanHTML` as a function of the markup: `LegacyGetCleanHtml` with the editor's regex engine. */
    const clean: string -> string

    constructor (engine: Engine, html: string, textarea: string)
      ensures forall h :: clean(h) == LegacyGetCleanHtml(engine, h)
      ensures this.html == html && this.textarea == textarea && changeEvents == 0
    {
      clean := h => LegacyGetCleanHtml(engine, h);
      this.html := html;
      this.textarea := textarea;
      changeEvents := 0;
    }

    /**
     * `updateOriginal()`: the textarea ends up holding the clean HTML of the
     * content; it is written, and a `change` event fired, only when its value
     * differed. `active` is `isActive()`, which only matters when the clean
     * HTML is empty and then swaps in the (equally empty) empty content.
     */
    method UpdateOriginal(active: bool)
      modifies this
      ensures textarea == clean(html) && html == old(html)
      ensures changeEvents == old(changeEvents) + (if old(textarea) == textarea then 0 else 1)
    {
      var current := textarea;
      var cleaned := clean(html);
      if cleaned == "" && active {
        cleaned := EmptyContent();
      }
      if current != cleaned {
        textarea := cleaned;
        changeEvents := changeEvents + 1;
      }
    }

    /** A second `updateOriginal()` with nothing edited in between fires no event and writes nothing. */
    method UpdateOriginalTwice(active: bool)
      modifies this
      ensures textarea == clean(html) && html == old(html)
      ensures changeEvents == old(changeEvents) + (if old(textarea) == textarea then 0 else 1)
    {
      UpdateOriginal(active);
      var events := changeEvents;
      UpdateOriginal(active);
      assert changeEvents == events;
    }
  }

  // ---------------------------------------------------------------------------
  // Key-triggered commands
  // ---------------------------------------------------------------------------

  /** The two commands the buttons run through `execCommand`. */
  datatype TextCommand = Superscript | Subscript

  function CommandName(c: TextCommand): string {
    match c
    case Superscript => "superscript"
    case Subscript => "subscript"
  }

  /** What `getCursorTag` returns: `"superscript"`, `"subscript"` or `"text"`. */
  datatype CursorTag = InSuperscript | InSubscript | InText

  /** `nodeName.toLowerCase()` on the ASCII letters. */
  function LowerCase(s: string): (r: string)
    ensures |r| == |s| && forall k | 0 <= k < |s| :: r[k] == Lower(s[k])
  {
    if s == [] then [] else [Lower(s[0])] + LowerCase(s[1..])
  }

  /**
   * `getCursorTag()` from the names of the selection's focus node and of its
   * parent: superscript if either is a `sup`, else subscript if either is a
   * `sub`, else text.
   */
  function GetCursorTag(focusName: string, parentName: string): CursorTag {
    if LowerCase(focusName) == "sup" || LowerCase(parentName) == "sup" then InSuperscript
    else if LowerCase(focusName) == "sub" || LowerCase(parentName) == "sub" then InSubscript
    else InText
  }

  /** The command whose tag the cursor is in, if any. */
  function CursorCommand(cursor: CursorTag): Option<TextCommand> {
    match cursor
    case InSuperscript => Some(Superscript)
    case InSubscript => Some(Subscript)
    case InText => None
  }

  /**
   * The decision at the head of `_applyTextCommand(command, byKey)`: `None`
   * when it returns without running anything, otherwise the command it goes
   * on to run. A key press in the cursor's own tag does nothing; in the other
   * tag it swaps the command for the cursor's tag.
   */
  function TextCommandToRun(command: TextCommand, byKey: bool, cursor: CursorTag): Option<TextCommand> {
    if !byKey then Some(command)
    else if (cursor == InSuperscript && command == Superscript) || (cursor == InSubscript && command == Subscript) then None
    else if cursor == InSuperscript && command == Subscript then Some(Superscript)
    else if cursor == InSubscript && command == Superscript then Some(Subscript)
    else Some(command)
  }

  /**
   * The tag reported for a focus node and its parent, by which of them is a
   * `sup` or a `sub`. This only lists the cases of `GetCursorTag`, as a
   * decision table.
   */
  lemma CursorTagCases(focusName: string, parentName: string)
    ensures GetCursorTag(focusName, parentName) == InSuperscript <==>
      LowerCase(focusName) == "sup" || LowerCase(parentName) == "sup"
    ensures GetCursorTag(focusName, parentName) == InSubscript <==>
      LowerCase(focusName) != "sup" && LowerCase(parentName) != "sup" &&
      (LowerCase(focusName) == "sub" || LowerCase(parentName) == "sub")
  {
  }

  /**
   * A button click runs its own command; a key press outside any mark runs
   * the key's command; a key press inside a mark runs nothing when the mark
   * has the key's tag and the mark's own command otherwise, so a key press
   * never runs the other tag's command inside a mark. This only lists the
   * cases of `TextCommandToRun`, as a decision table; `KeyInOtherMarkDiffers`
   * compares it with the ES module.
   */
  lemma TextCommandDecision(command: TextCommand, byKey: bool, cursor: CursorTag)
    ensures !byKey ==> TextCommandToRun(command, byKey, cursor) == Some(command)
    ensures byKey && cursor == InText ==> TextCommandToRun(command, byKey, cursor) == Some(command)
    ensures byKey && CursorCommand(cursor) == Some(command) ==> TextCommandToRun(command, byKey, cursor) == None
    ensures byKey && CursorCommand(cursor).Some? && CursorCommand(cursor) != Some(command) ==>
      TextCommandToRun(command, byKey, cursor) == CursorCommand(cursor)
  {
  }

  /** The command that formats with a tag of the current build. */
  function CommandOf(t: Inline.Tag): TextCommand {
    match t
    case Sup => Superscript
    case Sub => Subscript
  }

  /**
   * The two builds disagree on a key press with the caret in a mark of the
   * other tag: the current build applies the key's tag (and so nests a new
   * mark), the legacy build runs the mark's own command.
   */
  lemma KeyInOtherMarkDiffers(doc: Inline.Doc, r: Inline.Range, mode: Dispatch.Mode, key: Inline.Tag)
    requires Inline.ValidRange(doc, r) && Inline.Collapsed(r)
    requires doc[r.start.node].Mark? && doc[r.start.node].tag != key
    ensures Dispatch.HotKey(doc, Some(r), mode, key) == Dispatch.Apply(Dispatch.DefaultAction(key))
    ensures TextCommandToRun(CommandOf(key), true, GetCursorTag("#text", Inline.NodeName(doc[r.start.node])))
         == Some(CommandOf(doc[r.start.node].tag))
  {
    Dispatch.HotKeyNests(doc, r, mode, key);
    var m := doc[r.start.node];
    assert LowerCase("#text") != "sup" && LowerCase("#text") != "sub" by {
      assert LowerCase("#text")[0] == '#';
    }
    if m.tag == Inline.Sup {
      assert LowerCase("SUP") == "sup";
    } else {
      assert LowerCase("SUB") == "sub";
      assert LowerCase("SUB") != "sup";
    }
  }
}
