# ousupsub editor: a verified model of its formatting engine

The ousupsub editor is a small rich-text editor for Moodle. It lets a
student type text with superscript and subscript and nothing else. The
editor keeps an editable `div` whose children are plain text and `<sup>` or
`<sub>` marks. It also keeps an undo/redo history of cleaned snapshots, and a
hidden textarea that always holds the cleaned HTML of the content.

Two builds of the editor are modelled:

- `amd/src/editor.js`, the current ES module:
  - the selection classifier `isSelectionInsideSubSup`;
  - the four branches of `setFormat`, followed by the empty-text cleanup;
  - the history (`saveHistory`, `handleUndo`, `handleRedo`);
  - the rule-table sanitiser (`filterContentWithRules`, `cleanHTML`,
    `getCleanHTML`, `cleanPasteHTML`);
  - the hot-key and toolbar dispatch (`handleSupSubHotKey`, the toolbar
    click guard, `isSupportSupSub`, `getActions`).
- `yui/build/moodle-editor_ousupsub-editor/moodle-editor_ousupsub-editor-min.js`,
  the older YUI build:
  - its own rule table, filter loop and `getCleanHTML`;
  - the compare-and-set of `updateOriginal`;
  - the key decision of `_applyTextCommand` with `getCursorTag`;
  - the DOM normalisation of `_normaliseTextarea`: `_removeNodesByName`,
    `_removeSingleNodesByName`, `_splitParentNode`, `_mergeNodes`, the second
    loop of `_normaliseTagInTextarea` and one step of its first loop (both
    with the corrected unwrap of "## Findings"), and the DOM's `normalize()`.

The Dafny modules:

| module | file | what it holds |
|---|---|---|
| `Wrappers` | wrappers.dfy | `Option` |
| `TextRules` | textrules.dfy | the rules that need no regex engine: literal replacement (`&nbsp;`, `<br>`), the join of `</sup>` whitespace `<sup>`, and deletion of U+FEFF |
| `Sanitiser` | sanitiser.dfy | rule tables, `Filter`, `cleanHTML`, `getCleanHTML`, `cleanPasteHTML` |
| `EditorHistory` | history.dfy | the history as a value and as a class |
| `Inline` | inline.dfy | the content as a flat list of text nodes and marks; positions, ranges, `cloneContents`, `innerHTML`, and the live-list cleanup |
| `Selection` | selection.dfy | `isSelectionInsideSubSup` |
| `Formatting` | format.dfy | `setFormat` as a function of the content and the selection |
| `Dispatch` | dispatch.dfy | hot key, toolbar guard, modes, actions |
| `AmdEditor` | editor.dfy | the editor class: content, selection, textarea and history updated in place |
| `LegacyEditor` | legacy_editor.dfy | the YUI build's sanitiser, `updateOriginal`, and key decision |
| `LegacyTree` | legacy_tree.dfy | the YUI build's DOM normalisation, on trees |

Content model:

- The ES module's content is a sequence of nodes. A node is `Text(s)` or
  `Mark(tag, s)`, with `tag` being `Sup` or `Sub`; a mark holds exactly one
  text child.
- A position is a node index and an offset into that node's text.
- The selection is `None` when `rangeCount` is 0, or when the only range
  has a boundary on the content element itself (after undo and redo, see
  "## Left out"); otherwise it is one range.
- The YUI build's functions work on arbitrary element trees:
  `Elem(name, id, children) | Text(s)`.

Both builds hand regular-expression replacement to an `Engine` parameter,
`(pattern, replacement, input) -> output`. Rules without special characters
are modelled exactly:

- the `&nbsp;` and `<br>` literals;
- the `</sup>(\s*)+<sup>` join;
- the U+FEFF deletion.

The HTML parser behind `innerHTML =` is also a parameter (`parse`), and so is
the `getCleanHTML` serialiser.

Two behaviours of the code that a reader might not expect, and that the model
keeps:

- A hot key pressed with the caret inside the other kind of mark applies the
  key's own mark, not the held mark's type. In `handleSupSubHotKey` (amd/src/editor.js:331-343),
  `getActions(nodeName === 'sup' ? 'sub' : 'sup')` is the action opposite the
  held mark, which is the requested one. It does not switch to the held
  mark's type. `Dispatch.HotKeyNests` states that this nests.
- The YUI build's `_applyTextCommand` does the reverse: it runs the command of
  the mark the cursor is in (`LegacyEditor.KeyInOtherMarkDiffers`).

Some central definitions are plain functions with no contract of their own.
The lemmas about them state what they compute, and the rows below cite them:

- `Selection.Classify`: `isSelectionInsideSubSup`, amd/src/editor.js:388-426
  (`Selection.ClassifyCaret`, `ClassifyThrows`, `ClassifyInsideMark`,
  `ClassifyInsideClone`, `ClassifyReturnsMark`).
- `Dispatch.HotKey`: `handleSupSubHotKey`, amd/src/editor.js:331-343
  (`Dispatch.HotKeyApplies`, `Dispatch.HotKeyNests`).
- `Dispatch.ToolbarClick`: the toolbar click handler, amd/src/editor.js:482-495
  (`Dispatch.ToolbarNeverNests`).
- `LegacyTree.FirstPassStep`: one step of the first loop of
  `_normaliseTagInTextarea`, with the corrected unwrap, yui/build/moodle-editor_ousupsub-editor/moodle-editor_ousupsub-editor-min.js:3
  (`LegacyTree.FirstPassStepKeepsText`, `LegacyTree.SupInSpanUnwrapped`).
- `LegacyTree.MergePass`: the second loop of `_normaliseTagInTextarea`, same
  file, line 3 (`LegacyTree.MergePassLoop`, `MergePassKeepsText`,
  `MergePassLeavesNoRuns`).
- `LegacyTree.NormaliseTextarea`: `_normaliseTextarea`, same file, line 3
  (`LegacyTree.NormaliseTextareaSteps`, `NormaliseKeepsText`,
  `NormaliseClears`).
- `LegacyEditor.GetCursorTag`: `getCursorTag`, same file, line 3
  (`LegacyEditor.CursorTagCases`).
- `LegacyEditor.TextCommandToRun`: the decision of `_applyTextCommand`, same
  file, line 2 (`LegacyEditor.TextCommandDecision`,
  `LegacyEditor.KeyInOtherMarkDiffers`).

## Model

| member | source | states |
|---|---|---|
| TextRules.ReplaceAllWithoutMatch | amd/src/editor.js:778 | a literal rule leaves content with no case-insensitive occurrence of the literal exactly as it was |
| TextRules.ReplaceAllLeavesNoMatch | amd/src/editor.js:778 | after a global literal replacement whose replacement shares nothing with the literal, no case-insensitive occurrence of the literal is left anywhere |
| TextRules.SpaceRunIsMaximal | amd/src/editor.js:781-782 | `(\s*)+` consumes every leading whitespace character and stops at the first other character |
| TextRules.JoinMarksCollapses | amd/src/editor.js:781-782 | a closing mark, whitespace and the same opening mark collapse to the whitespace alone, and the join continues after them |
| TextRules.JoinWithin | amd/src/editor.js:781-782 | two marks separated by whitespace become one mark containing that whitespace, for example `<sup>12</sup> <sup>34</sup>` becomes `<sup>12 34</sup>` |
| TextRules.JoinMarksWithoutTags | amd/src/editor.js:781-782 | content without `<` is left unchanged by the join |
| TextRules.JoinMarksKeepsPrefix | amd/src/editor.js:781-782 | the join never alters text before the first `/` |
| TextRules.DeleteAll | amd/src/editor.js:842 | the result holds no occurrence of the character and is no longer than the input |
| TextRules.DeleteAllWithout | amd/src/editor.js:842 | content without the character is left unchanged |
| TextRules.DeleteAllAppend | amd/src/editor.js:842 | the deletion distributes over concatenation |
| Sanitiser.FilterContentWithRules | amd/src/editor.js:753-758 | the loop returns the content with the rules applied in table order, each to the previous output |
| Sanitiser.FilterAppend | amd/src/editor.js:753-758 | filtering with `a + b` is filtering with `b` the output of filtering with `a` |
| Sanitiser.FilterLast | amd/src/editor.js:753-758 | the last rule of a table is applied last, to the output of the others |
| Sanitiser.CleanRulesEnd | amd/src/editor.js:769-843 | the `cleanHTML` table has 36 rules and the last one deletes U+FEFF |
| Sanitiser.FilterEndsWithRemove | amd/src/editor.js:842 | a table ending with a character deletion leaves no such character, whatever the engine does |
| Sanitiser.CleanHtml | amd/src/editor.js:766-846 | no U+FEFF placeholder survives `cleanHTML` |
| Sanitiser.NbspRuleLeavesNone | amd/src/editor.js:778 | after the fourth rule no `&nbsp;`, in any letter case, is left |
| Sanitiser.GetCleanHtml | amd/src/editor.js:855-885 | the clean HTML written to the textarea never holds the placeholder |
| Sanitiser.CleanPasteHtml | amd/src/editor.js:685-733 | empty input gives `""`; input that is only whitespace after the first pass (the harsh table, then `cleanHTML`) is returned as it is; otherwise it is reparsed, the quote rules are applied and it is cleaned again; no placeholder is ever left |
| Sanitiser.BlankPasteIgnoresReparse | amd/src/editor.js:707-710 | when the first pass leaves only whitespace, the DOM reparse has no effect on the result |
| EditorHistory.Empty | amd/src/editor.js:63-65 | a new history is empty with index -1 and satisfies the history invariant |
| EditorHistory.Saved | amd/src/editor.js:670-677 | when the history is empty or the content differs from the current snapshot, the redo tail is dropped and the content becomes the last and current snapshot; otherwise nothing changes; either way the current snapshot is the content |
| EditorHistory.Undone | amd/src/editor.js:307-314 | the index steps back exactly when it is above 0; the snapshots are kept |
| EditorHistory.Redone | amd/src/editor.js:318-325 | the index steps forward exactly when it is below the last snapshot; the snapshots are kept |
| EditorHistory.UndoShows | amd/src/editor.js:307-314 | undo shows a snapshot exactly when the index is above 0, and it is the previous one |
| EditorHistory.RedoShows | amd/src/editor.js:318-325 | redo shows a snapshot exactly when a later one exists, and it is the next one |
| EditorHistory.UndoThenRedo | amd/src/editor.js:307-325 | redo after undo restores the state and shows the snapshot that was undone |
| EditorHistory.RedoThenUndo | amd/src/editor.js:307-325 | undo after redo restores the state and shows the snapshot that was redone |
| EditorHistory.SaveUndoRedo | amd/src/editor.js:670-677 | after a save that changes the history, undo shows the previous snapshot and redo brings back the saved content |
| EditorHistory.SaveIdempotent | amd/src/editor.js:670-677 | saving the same content twice is saving it once |
| EditorHistory.SaveUnchangedKeepsLength | amd/src/editor.js:672 | a save of the current snapshot does not grow the history |
| EditorHistory.SaveKeepsUndoPast | amd/src/editor.js:673-675 | a save keeps every snapshot up to the current index |
| EditorHistory.SaveKeepsNeighboursDistinct | amd/src/editor.js:672-675 | if no two adjacent snapshots were equal before a save, none are after it |
| EditorHistory.History.constructor | amd/src/editor.js:63-65 | the editor starts with an empty history |
| EditorHistory.History.SaveHistory | amd/src/editor.js:670-677 | the object's history becomes `Saved` of its old history, and stays valid |
| EditorHistory.History.HandleUndo | amd/src/editor.js:307-314 | the object's history becomes `Undone`; it returns the snapshot to show, which is the new current one |
| EditorHistory.History.HandleRedo | amd/src/editor.js:318-325 | the object's history becomes `Redone`; it returns the snapshot to show, which is the new current one |
| Inline.RangeStringIsSlice | amd/src/editor.js:580 | `range.toString()` is the slice of the content's text between the text offsets of the range's ends |
| Inline.CloneContents | amd/src/editor.js:403 | the pieces of `cloneContents()` carry exactly the range's text |
| Inline.SweepKeepsContent | amd/src/editor.js:659-664 | the cleanup keeps the non-empty nodes in order, the text and the `innerHTML` |
| Inline.SweepCompleteWithoutPairs | amd/src/editor.js:659-664 | when no two empty text nodes are adjacent, the cleanup removes every empty text node |
| Inline.SweepSkipsSecondEmpty | amd/src/editor.js:659-664 | iterating over the live child list skips the second of two adjacent empty text nodes |
| Inline.SweepPos | amd/src/editor.js:659-664 | a position in a kept node keeps its node and its text offset through the cleanup |
| Selection.NodeNameIsSupSub | amd/src/editor.js:434-436 | `isSupSubTag(nodeName)` holds exactly for marks |
| Selection.FirstNonEmpty | amd/src/editor.js:404-415 | the node the loop keeps is the first piece with text, and every piece before it is empty |
| Selection.ClassifyCaret | amd/src/editor.js:389-401 | with no range the result is `false`; for a caret it is the holding mark exactly when the caret is in a mark |
| Selection.ClassifyThrows | amd/src/editor.js:402-421 | a non-collapsed range throws at line 421 exactly when its text is empty |
| Selection.ClassifyInsideMark | amd/src/editor.js:394-425 | a non-collapsed range is reported inside a document mark exactly when it lies within one mark's text, and that mark is reported |
| Selection.ClassifyInsideClone | amd/src/editor.js:402-425 | a detached clone is returned exactly for a range across children whose non-empty pieces all equal one mark |
| Selection.ClassifyAllEmptyText | amd/src/editor.js:403-408 | every piece has empty text exactly when the range's text is empty |
| Selection.ClassifyReturnsMark | amd/src/editor.js:388-426 | whatever node the classifier returns is a mark |
| Formatting.StyledInsertAt | amd/src/editor.js:520-572 | the per-character marks after one character is inserted at a position: the characters before keep their mark and offset, the new one has the given mark, the ones after keep their mark one place further on |
| Formatting.RestyledAt | amd/src/editor.js:573-657 | the per-character marks after a range is given one mark: the characters inside the range's text offsets have that mark, every other character keeps its own |
| Formatting.MarkIfAny | amd/src/editor.js:534-548 | a half of a split mark is inserted only when it has text; the text is kept, and every character of it carries the mark's tag |
| Formatting.SplitMark | amd/src/editor.js:523-556 | splitting a mark at the caret puts the caret after the placeholder, in a text node of its own; the placeholder carries no mark and every other character keeps its mark |
| Formatting.InsertMark | amd/src/editor.js:557-572 | a caret outside a mark gets a new mark holding the placeholder, with the caret after it; the placeholder carries the requested tag and every other character keeps its mark |
| Formatting.Unformat | amd/src/editor.js:573-606 | the selected part of a mark becomes a plain text node, selected from its start to its end; the selected characters lose their mark and every other character keeps its own |
| Formatting.Wrap | amd/src/editor.js:607-657 | the selection ends up inside one mark of the requested tag and selects the same text; a plain wrap puts exactly the selected text in the mark |
| Formatting.WrapStyles | amd/src/editor.js:607-657 | when the characters keep their order (always across children, and within one text node when each absorbed neighbour is empty or touches the range), the selected characters get the requested tag and every other character keeps its mark; the text of an absorbed neighbour already had that tag |
| Formatting.SweepRange | amd/src/editor.js:659-664 | a selection in a kept node keeps its node, offsets and text offsets through the cleanup |
| Formatting.Format | amd/src/editor.js:512-665 | whenever `setFormat` changes the content, the selection it leaves is valid in the new content |
| Formatting.FormatThrows | amd/src/editor.js:514-521 | `setFormat` throws exactly when there is no range, or the range is not collapsed and has empty text |
| Formatting.FormatNests | amd/src/editor.js:520-572 | `setFormat` nests a mark exactly when the caret is in a mark of the other tag |
| Formatting.FormatCaret | amd/src/editor.js:520-572 | at a caret, the placeholder is inserted into the text at the caret and the caret follows it; the placeholder is plain when a mark of the tag was split and carries the tag otherwise, and every other character keeps its mark; the textarea is not written; the history is saved |
| Formatting.SplitMarkText | amd/src/editor.js:523-556 | splitting a mark inserts only the placeholder into the text, at the caret |
| Formatting.InsertMarkText | amd/src/editor.js:557-572 | inserting a new mark inserts only the placeholder into the text, at the caret |
| Formatting.UnformatText | amd/src/editor.js:573-606 | unformatting keeps the text and the selection's text offsets |
| Formatting.FormatUnformat | amd/src/editor.js:573-606 | a selection inside one mark becomes plain selected text with the same text and offsets, whichever button is used; exactly the selected characters lose their mark |
| Formatting.FormatClone | amd/src/editor.js:573-606 | when the classifier returns a clone, the edit lands in the detached fragment: the document keeps its text, its non-empty nodes and every character's mark, and the selection is lost |
| Formatting.WrapOneText | amd/src/editor.js:607-657 | wrapping inside one text node keeps the text and the selection's text offsets, whenever absorbed neighbours sit next to the selection |
| Formatting.WrapAcrossText | amd/src/editor.js:607-657 | wrapping a range across children keeps the text and the selection's text offsets |
| Formatting.WrapMerges | amd/src/editor.js:611-638 | the merge path is taken exactly when a neighbour of the edited text node is a mark of the requested tag; when it is not, text order is kept |
| Formatting.FormatWrapped | amd/src/editor.js:640-664 | an unformatted selection with no mergeable neighbour ends up as one selected mark holding exactly the selected text; text and offsets are kept; exactly the selected characters get the requested tag; the history is saved |
| Formatting.FormatMerged | amd/src/editor.js:611-638 | on the merge path the new mark holds the absorbed neighbours around the selected text, the selected text stays selected, and the history is not saved; when the order is kept, exactly the selected characters gain the requested tag |
| Formatting.MergeReorders | amd/src/editor.js:611-638 | the merge can move an absorbed mark's text past unselected text: `<sup>A</sup>xyz` with `y` selected becomes `x<sup>Ay</sup>z` |
| Formatting.FormatOfMerge | amd/src/editor.js:632-637 | on the merge path `setFormat` returns before the cleanup and the history save |
| Dispatch.GetActions | amd/src/editor.js:923-929 | `getActions("sup")` and `getActions("sub")` return the one default action of that name; any other type returns both default actions, `sup` first |
| Dispatch.GetActionsOfTag | amd/src/editor.js:923-929 | `getActions('sup')` and `getActions('sub')` give the one action of that tag |
| Dispatch.ButtonsMatchSupport | amd/src/editor.js:741-744 | the toolbar has a button for a tag exactly when the mode supports it |
| Dispatch.HeldTag | amd/src/editor.js:331-336 | there is a held tag exactly when the classifier returns a node |
| Dispatch.HotKeyApplies | amd/src/editor.js:331-343 | a hot key throws exactly when the classifier throws; it runs `setFormat` with its own tag exactly when the held mark is of the other tag, or when no mark is held and the mode supports the tag |
| Dispatch.ToolbarNeverNests | amd/src/editor.js:482-495 | a toolbar click does nothing exactly when `setFormat` would nest, and otherwise runs its own action |
| Dispatch.HotKeyNests | amd/src/editor.js:331-343 | a hot key at a caret inside the other mark runs `setFormat`, and that nests |
| AmdEditor.FormatSyncsTextarea | amd/src/editor.js:658-665 | after a format that writes the textarea and saves, the textarea, the current snapshot and the clean content are the same string |
| AmdEditor.FormatThenUndo | amd/src/editor.js:665-677 | after a format that changes the history, undo shows the snapshot from before the format and redo shows the formatted content |
| AmdEditor.FormatOfCaret | amd/src/editor.js:520-572 | at a caret, `setFormat` splits the mark or inserts a new one, then cleans up; the textarea is not written and the history is saved |
| AmdEditor.FormatOfInside | amd/src/editor.js:573-606 | inside a mark `setFormat` unformats, writes the textarea, cleans up and saves; a clone leaves the document swept and the selection lost |
| AmdEditor.FormatOfMerged | amd/src/editor.js:611-638 | on the merge path the outcome is the merged edit, with the textarea written and the history not saved |
| AmdEditor.FormatOfWrapped | amd/src/editor.js:640-664 | on the wrap path the outcome is the wrapped edit, cleaned up twice |
| AmdEditor.Initial | amd/src/editor.js:153-158 | the state after `init()`: the textarea's value parsed into the content, no selection, and a history holding exactly the clean HTML of that content, as current snapshot |
| AmdEditor.FirstFormatUndoes | amd/src/editor.js:153-158 | the first format that saves a changed snapshot can be undone, and undo shows the clean HTML of the starting content |
| AmdEditor.Editor.constructor | amd/src/editor.js:153-158 | the constructor runs `init()` (lines 73-76): the editor's state is `Initial` of the textarea's value; its cleaner is `getCleanHTML` |
| AmdEditor.Editor.IsSelectionInsideSubSup | amd/src/editor.js:388-426 | the method returns the classifier's verdict on the current content and selection |
| AmdEditor.Editor.ScanPieces | amd/src/editor.js:403-425 | the loop over the cloned pieces returns the classifier's verdict for those pieces |
| AmdEditor.Editor.RemoveEmptyTexts | amd/src/editor.js:659-664 | the content becomes its cleanup; selection and textarea are kept |
| AmdEditor.Editor.Swept | amd/src/editor.js:659-664 | the removal loop over the live child list returns the cleanup of the list |
| AmdEditor.Editor.SaveHistory | amd/src/editor.js:670-677 | the history becomes `Saved` of the clean HTML of the current content |
| AmdEditor.Editor.SweepSelected | amd/src/editor.js:651-656 | the content becomes its cleanup and the selection follows its node |
| AmdEditor.Editor.SetFormat | amd/src/editor.js:512-665 | the method returns `setFormat`'s outcome on the old content and selection, and the editor's state becomes the state that outcome describes; on `Nested` the state is kept (see "## Left out") |
| AmdEditor.Editor.FormatAtCaret | amd/src/editor.js:520-572 | at a caret the method splits or inserts a mark, and the state follows that outcome; a nested insertion keeps the state (see "## Left out") |
| AmdEditor.Editor.FormatInsideMark | amd/src/editor.js:573-606 | inside a mark the method unformats the selection, and the state follows that outcome |
| AmdEditor.Editor.FormatInsideClone | amd/src/editor.js:573-606 | with a cloned node the content is only cleaned up and the selection lost |
| AmdEditor.Editor.FormatMergedInto | amd/src/editor.js:611-638 | the merged edit is installed, the textarea written and the history left as it was |
| AmdEditor.Editor.FormatWrappedAround | amd/src/editor.js:640-664 | the wrapped edit is installed, cleaned up twice, the textarea written and the history saved |
| AmdEditor.Editor.HeldNode | amd/src/editor.js:333-336 | the node the classifier returned is a mark whose tag is the held tag |
| AmdEditor.Editor.HandleSupSubHotKey | amd/src/editor.js:331-343 | the method returns the dispatch decision for the hot key; the state changes only when it applies a format, and then as that format does, which keeps the state when the format nests (see "## Left out") |
| AmdEditor.Editor.ToolbarClick | amd/src/editor.js:482-495 | the method returns the dispatch decision for the click; the state changes only when it applies the button's format |
| AmdEditor.Editor.HandleUndo | amd/src/editor.js:307-314 | the history steps back; when there was an earlier snapshot, the content is parsed from it, the textarea holds it and the selection is `None`; otherwise nothing changes |
| AmdEditor.Editor.HandleRedo | amd/src/editor.js:318-325 | the history steps forward; when there was a later snapshot, the content is parsed from it, the textarea holds it and the selection is `None`; otherwise nothing changes |
| LegacyEditor.CleanRulesExtendLegacy | yui/build/moodle-editor_ousupsub-editor/moodle-editor_ousupsub-editor-min.js:2 | the ES module's `cleanHTML` table is the YUI table followed by the xmlns unwrap and the U+FEFF deletion |
| LegacyEditor.CleanHtmlExtendsLegacy | yui/build/moodle-editor_ousupsub-editor/moodle-editor_ousupsub-editor-min.js:2 | the ES module's `cleanHTML` is the YUI `_cleanHTML`, then the xmlns unwrap, then the U+FEFF deletion |
| LegacyEditor.LegacyFilterContentWithRules | yui/build/moodle-editor_ousupsub-editor/moodle-editor_ousupsub-editor-min.js:2 | the index loop applies the rules in table order, each to the previous output |
| LegacyEditor.StripWrapper | yui/build/moodle-editor_ousupsub-editor/moodle-editor_ousupsub-editor-min.js:2 | the wrapper strip of `getCleanHTML` never lengthens the markup |
| LegacyEditor.StripEmptyWrapper | yui/build/moodle-editor_ousupsub-editor/moodle-editor_ousupsub-editor-min.js:2 | with the empty prefix and suffix, the strip leaves the markup unchanged |
| LegacyEditor.LegacyGetCleanHtmlCases | yui/build/moodle-editor_ousupsub-editor/moodle-editor_ousupsub-editor-min.js:2 | `""` and a lone `<br>` clean to `""`; any other markup gives `_cleanHTML` of itself |
| LegacyEditor.Editor.constructor | yui/build/moodle-editor_ousupsub-editor/moodle-editor_ousupsub-editor-min.js:1 | the editor's cleaner is the YUI `getCleanHTML` |
| LegacyEditor.Editor.UpdateOriginal | yui/build/moodle-editor_ousupsub-editor/moodle-editor_ousupsub-editor-min.js:1 | the textarea ends up holding the clean HTML of the content; one `change` event fires exactly when that changed the textarea |
| LegacyEditor.Editor.UpdateOriginalTwice | yui/build/moodle-editor_ousupsub-editor/moodle-editor_ousupsub-editor-min.js:1 | a second `updateOriginal` with nothing edited in between writes nothing and fires no event |
| LegacyEditor.CursorTagCases | yui/build/moodle-editor_ousupsub-editor/moodle-editor_ousupsub-editor-min.js:3 | the cursor is `superscript` exactly when the focus node or its parent is a `sup`, in any case; it is `subscript` exactly when neither is a `sup` and one is a `sub` |
| LegacyEditor.TextCommandDecision | yui/build/moodle-editor_ousupsub-editor/moodle-editor_ousupsub-editor-min.js:2 | a button always runs its command; a key runs its command in plain text, does nothing inside the same mark, and runs the other mark's command inside the other mark |
| LegacyEditor.KeyInOtherMarkDiffers | yui/build/moodle-editor_ousupsub-editor/moodle-editor_ousupsub-editor-min.js:2 | at a caret inside the other mark, the ES module applies the key's own mark while the YUI build runs the command of the mark the caret is in |
| LegacyTree.RemoveNodesByNameLoop | yui/build/moodle-editor_ousupsub-editor/moodle-editor_ousupsub-editor-min.js:3 | the loop over the copied children computes `_removeNodesByName` as written |
| LegacyTree.RemoveStays | yui/build/moodle-editor_ousupsub-editor/moodle-editor_ousupsub-editor-min.js:3 | an element is removed exactly when it has the name and is not a rangy selection boundary; a kept element gets nothing inserted before it |
| LegacyTree.StayingMovesNothing | yui/build/moodle-editor_ousupsub-editor/moodle-editor_ousupsub-editor-min.js:3 | the children of a kept element are never moved out of it |
| LegacyTree.NestedUnwrapLosesText | yui/build/moodle-editor_ousupsub-editor/moodle-editor_ousupsub-editor-min.js:3 | unwrapping `b` in `<b><b>x</b></b>` leaves an empty `<b></b>`, and the text `x` is lost |
| LegacyTree.RemoveAgreesUnnested | yui/build/moodle-editor_ousupsub-editor/moodle-editor_ousupsub-editor-min.js:3 | with no element of the name directly inside another, the code as written and the corrected version agree |
| LegacyTree.RemoveKeepsTextUnnested | yui/build/moodle-editor_ousupsub-editor/moodle-editor_ousupsub-editor-min.js:3 | with no such nesting, the code as written keeps the text where the element stood |
| LegacyTree.RemoveNodesByNameFixedLoop | yui/build/moodle-editor_ousupsub-editor/moodle-editor_ousupsub-editor-min.js:3 | the corrected loop computes the corrected unwrap |
| LegacyTree.FixedKeepsText | yui/build/moodle-editor_ousupsub-editor/moodle-editor_ousupsub-editor-min.js:3 | the corrected unwrap keeps the text where the element stood, at any nesting |
| LegacyTree.FixedChildrenKeepText | yui/build/moodle-editor_ousupsub-editor/moodle-editor_ousupsub-editor-min.js:3 | the corrected unwrap of every child keeps the children's text |
| LegacyTree.FixedSettles | yui/build/moodle-editor_ousupsub-editor/moodle-editor_ousupsub-editor-min.js:3 | after the corrected unwrap, no element of the name that unwraps still has children, at any depth; selection boundaries and childless elements of the name may remain |
| LegacyTree.FixedChildrenSettle | yui/build/moodle-editor_ousupsub-editor/moodle-editor_ousupsub-editor-min.js:3 | the same for a list of children |
| LegacyTree.FixedLeavesSettled | yui/build/moodle-editor_ousupsub-editor/moodle-editor_ousupsub-editor-min.js:3 | an element already free of the name is left as it is, so the unwrap is idempotent |
| LegacyTree.FixedChildrenLeaveSettled | yui/build/moodle-editor_ousupsub-editor/moodle-editor_ousupsub-editor-min.js:3 | the same for a list of children |
| LegacyTree.RemoveSingleNodesByNameLoop | yui/build/moodle-editor_ousupsub-editor/moodle-editor_ousupsub-editor-min.js:3 | the loop over the copied children computes `_removeSingleNodesByName` |
| LegacyTree.SingleRemovesAll | yui/build/moodle-editor_ousupsub-editor/moodle-editor_ousupsub-editor-min.js:3 | no element of the name is left below the element, at any depth |
| LegacyTree.SingleChildrenFree | yui/build/moodle-editor_ousupsub-editor/moodle-editor_ousupsub-editor-min.js:3 | the same for a list of children |
| LegacyTree.SingleKeepsText | yui/build/moodle-editor_ousupsub-editor/moodle-editor_ousupsub-editor-min.js:3 | when no element of the name holds text, deleting them keeps the text |
| LegacyTree.SingleChildrenKeepText | yui/build/moodle-editor_ousupsub-editor/moodle-editor_ousupsub-editor-min.js:3 | the same for a list of children |
| LegacyTree.SingleLeavesFree | yui/build/moodle-editor_ousupsub-editor/moodle-editor_ousupsub-editor-min.js:3 | an element with no such descendant is left as it is |
| LegacyTree.SingleChildrenLeaveFree | yui/build/moodle-editor_ousupsub-editor/moodle-editor_ousupsub-editor-min.js:3 | the same for a list of children, so the deletion is idempotent |
| LegacyTree.MergeNodes | yui/build/moodle-editor_ousupsub-editor/moodle-editor_ousupsub-editor-min.js:3 | the target keeps its name and id and gains the merged element's children after its own, so the text is the two texts in order |
| LegacyTree.SplitParentNode | yui/build/moodle-editor_ousupsub-editor/moodle-editor_ousupsub-editor-min.js:3 | the nodes put in front of the parent carry all its text; what stays in the parent are empty elements of the name |
| LegacyTree.SplitInChildren | yui/build/moodle-editor_ousupsub-editor/moodle-editor_ousupsub-editor-min.js:3 | the same for every prefix of the copied child list |
| LegacyTree.SplitParentNodeLoop | yui/build/moodle-editor_ousupsub-editor/moodle-editor_ousupsub-editor-min.js:3 | the loop of `_splitParentNode` computes the split |
| LegacyTree.FirstPassStepKeepsText | yui/build/moodle-editor_ousupsub-editor/moodle-editor_ousupsub-editor-min.js:3 | each step of the first loop of `_normaliseTagInTextarea`, with the corrected unwrap, keeps the text where the parent stood, in all four cases |
| LegacyTree.OnlyTextChildUnwrapped | yui/build/moodle-editor_ousupsub-editor/moodle-editor_ousupsub-editor-min.js:3 | a mark of text inside an element of another name is replaced by its text |
| LegacyTree.SupInSpanUnwrapped | tests/fixtures/testcleanup.js:8 | `<span><sup>12</sup></span>` loses its `sup` in the first loop |
| LegacyTree.NormaliseKeepsSupInSpan | tests/fixtures/testcleanup.js:8 | the modelled normalisation, which leaves out the first loop, turns `<span><sup>12</sup></span>` into `<sup>12</sup>`: only the span is unwrapped |
| LegacyTree.MergePassLoop | yui/build/moodle-editor_ousupsub-editor/moodle-editor_ousupsub-editor-min.js:3 | the second loop of `_normaliseTagInTextarea` computes the merge pass |
| LegacyTree.MergePassKeepsText | yui/build/moodle-editor_ousupsub-editor/moodle-editor_ousupsub-editor-min.js:3 | merging runs of the tag keeps the text in order |
| LegacyTree.MergePassLeavesNoRuns | yui/build/moodle-editor_ousupsub-editor/moodle-editor_ousupsub-editor-min.js:3 | after the merge no element of the tag directly follows another, at any depth |
| LegacyTree.NormalizeKeepsText | yui/build/moodle-editor_ousupsub-editor/moodle-editor_ousupsub-editor-min.js:3 | `normalize()` keeps the text |
| LegacyTree.NormalizeIsNormal | yui/build/moodle-editor_ousupsub-editor/moodle-editor_ousupsub-editor-min.js:3 | after `normalize()` there is no empty text node and no two adjacent text nodes, at any depth |
| LegacyTree.NormalizeKeepsElements | yui/build/moodle-editor_ousupsub-editor/moodle-editor_ousupsub-editor-min.js:3 | `normalize()` brings back no unwrapped element and no deleted `br` |
| LegacyTree.NormaliseTextareaSteps | yui/build/moodle-editor_ousupsub-editor/moodle-editor_ousupsub-editor-min.js:3 | the steps of `_normaliseTextarea`, with a loop over the tag list, compute the normalisation |
| LegacyTree.UnwrapTagsKeepText | yui/build/moodle-editor_ousupsub-editor/moodle-editor_ousupsub-editor-min.js:3 | unwrapping `p`, `b`, `i`, `u`, `ul`, `ol` and `li` keeps the text |
| LegacyTree.NormaliseKeepsText | yui/build/moodle-editor_ousupsub-editor/moodle-editor_ousupsub-editor-min.js:3 | when no `br` holds text, the normalisation keeps the text |
| LegacyTree.FixedKeepsFree | yui/build/moodle-editor_ousupsub-editor/moodle-editor_ousupsub-editor-min.js:3 | an unwrap brings back no deleted `br` |
| LegacyTree.FixedChildrenKeepFree | yui/build/moodle-editor_ousupsub-editor/moodle-editor_ousupsub-editor-min.js:3 | the same for a list of children |
| LegacyTree.UnwrapTagsKeepFree | yui/build/moodle-editor_ousupsub-editor/moodle-editor_ousupsub-editor-min.js:3 | the unwrap of the tag list brings back no deleted `br` |
| LegacyTree.MergePassKeepsFree | yui/build/moodle-editor_ousupsub-editor/moodle-editor_ousupsub-editor-min.js:3 | the merge passes bring back no deleted `br` |
| LegacyTree.NormaliseClears | yui/build/moodle-editor_ousupsub-editor/moodle-editor_ousupsub-editor-min.js:3 | after the normalisation there is no `br`, no span with children other than a selection boundary, and the text nodes are normal |
| LegacyTree.AdjacentSupsMerge | tests/fixtures/testcleanup.js:9 | two adjacent `sup` elements of text become one `sup` holding both texts, as in `<sup>12</sup><sup>34</sup>` to `<sup>1234</sup>` |

## Left out

- Only the caret split is modelled for `innerText`. The halves of the split mark are written with `innerText` (amd/src/editor.js:535, 540), which turns line breaks into `<br>`. The model writes them as plain text.
- Formatting.Format: a caret inside the other kind of mark gives the outcome `Nested` with no content. The source inserts a new mark into the existing mark's text node. The flat content model, where a mark holds only text, cannot hold that result.
- AmdEditor.Editor.SetFormat: on the outcome `Nested` the editor's content, selection, textarea and history are kept, and so in `AmdEditor.Editor.FormatAtCaret` and `AmdEditor.Editor.HandleSupSubHotKey` (a hot key reaches this case, `Dispatch.HotKeyNests`). The source's caret branch (amd/src/editor.js:557-571) inserts the new mark inside the held one and moves the caret into it, then runs the cleanup and `saveHistory` (amd/src/editor.js:659-664), which saves a snapshot when the clean HTML changed. The model does not promise anything about that state, because a mark inside a mark cannot be represented.
- AmdEditor.Editor.HandleUndo and AmdEditor.Editor.HandleRedo set the selection to `None` on a step. In the source the keydown handler already holds a range (amd/src/editor.js:211), and `innerHTML =` (amd/src/editor.js:311, 322) leaves it collapsed at the start of the content element. `None` stands for that boundary, which the model has no position for. A format right after undo or redo therefore gives `Threw` in the model, while in the source `setFormat` inserts a new mark at the start of the content (amd/src/editor.js:557-571).
- LegacyTree.FirstPassStep unwraps with the corrected `LegacyTree.RemoveNodesByNameFixed`, so `LegacyTree.FirstPassStepKeepsText` holds of the corrected step. With `_removeNodesByName` as written, the step loses text when an element of the name sits directly inside another one, as in the outer `sup` of `<span><sup><sup>x</sup></sup></span>` (the effect of `LegacyTree.NestedUnwrapLosesText`).
- Range ends are modelled only inside text nodes. A range boundary on the content element itself, between two children, is not modelled, and neither is content nested below the top level.
- Formatting.FormatMerged: text and selection offsets are kept only under `KeepsOrder`. An absorbed neighbour that is not next to the selection moves past unselected text (`Formatting.MergeReorders`). That is the code's behaviour, and the model keeps it.
- The DOM's HTML parser behind `innerHTML =` is the `parse` parameter of the editor. Undo and redo state only that the content becomes `parse(snapshot)`.
- Regular expressions are the `Engine` parameter. Apart from the literal, join and U+FEFF rules, no rule's effect is proved.
- `getCleanHTML`'s clone and serialisation of the content element are a `clean` function held by each editor. In `AmdEditor.Editor` it is fixed to `GetCleanHtml` of the serialised content. In `LegacyEditor.Editor` it is fixed to `LegacyGetCleanHtml`.
- rangy, browser events and layout are left out:
  - rangy's `saveSelection`/`restoreSelection` around `_normaliseTextarea`; only the boundary spans it inserts are kept, by `IsBoundary`;
  - the node names `getCursorTag` reads from the rangy selection, which are parameters;
  - event wiring (keydown, paste, selection change, focus and blur), the key map, `setActiveButton`, and the toolbar and layout construction in `init`;
  - the clipboard read of `handlePaste`.
- `_applyTextCommand` (YUI build): only the decision of which command to run is modelled. The change `document.execCommand` makes is browser behaviour.
- LegacyTree.NormaliseTextarea: unwraps with the corrected `LegacyTree.FixedInChildren`, not the code as written (see "## Findings"); the two agree when no element of a name is directly inside another of that name (`LegacyTree.RemoveAgreesUnnested`).
- LegacyTree.NormaliseTextarea: omits the first loop of `_normaliseTagInTextarea`. That loop walks a snapshot from `querySelectorAll` while moving nodes: an element nested in another one of the same name and detached earlier has `parentNode` null, so `r.firstChild` throws. Only one step of that loop is modelled (`LegacyTree.FirstPassStep`, with `LegacyTree.FirstPassStepKeepsText`).
- LegacyTree.NormaliseTextarea: without that loop, a `sup` or `sub` whose parent is not the content element is not unwrapped. For the fixture `<span><sup>12</sup></span>` (tests/fixtures/testcleanup.js:8) the code gives `12` (`LegacyTree.SupInSpanUnwrapped` shows the step of the first loop that drops the `sup`, and the span is unwrapped later), while `LegacyTree.NormaliseTextarea` keeps `<sup>12</sup>` (`LegacyTree.NormaliseKeepsSupInSpan`). The fixture expects `<sup>12</sup>`; the model's result matches that expectation, not the code.
- The second fixture vector keeps its whitespace. `<sup>12</sup> <sup>34</sup>` keeps the whitespace text node between the two marks under `_normaliseTextarea`, so they are not merged there. The join rule of the sanitiser is what gives `<sup>12 34</sup>` (`TextRules.JoinWithin`). The fixture's driver is not part of this model.
- DOM nodes are values. Node identity, aliasing and the live `childNodes` list are reflected only where they change the result (the cleanup of empty text nodes, and the copied child lists).
- LegacyTree.NormaliseKeepsText assumes that no `br` element holds text, which HTML parsing guarantees.
- lib.php, the Behat steps and the fixture page are not part of this model.

## Findings

| source | as written | input that shows it | evidently intended | confidence | as-written member | corrected member |
|---|---|---|---|---|---|---|
| yui/build/moodle-editor_ousupsub-editor/moodle-editor_ousupsub-editor-min.js:3 | `_removeNodesByName` unwraps a child before moving the parent's copied children out. An inner element of the same name therefore puts its children into the outer element, which is then removed with them, and the emptied inner element is moved out in their place | `<b><b>x</b></b>`, unwrapped for `b` | both elements are unwrapped and `x` stays in the document | not executed | LegacyTree.NestedUnwrapLosesText | LegacyTree.RemoveNodesByNameFixed |
