/**
 * What `isSelectionInsideSubSup` (amd/src/editor.js) reports about the
 * selection: nothing, the mark holding it, a detached clone of a mark, or a
 * TypeError thrown when every piece of the selection has empty text.
 */
module Selection {
  import opened Wrappers
  import opened Inline

  /** `['SUB', 'SUP'].includes(tagName)` */
  predicate IsSupSubTag(name: string) {
    name == "SUB" || name == "SUP"
  }

  lemma NodeNameIsSupSub(n: Node)
    ensures IsSupSubTag(NodeName(n)) <==> n.Mark?
  {
  }

  /** The result of the classifier; `NotInside` is the source's `false`. */
  datatype Inside =
    | NotInside
    | InsideMark(at: nat)      // the mark `doc[at]` that holds the range's container
    | InsideClone(node: Node)  // a piece of `cloneContents()`, outside the document
    | ThrowsTypeError          // line 421 reads `nodeName` of undefined

  /**
   * `range.commonAncestorContainer.parentNode.nodeName`: within one text node
   * the container is that node and its parent the mark or the content element;
   * across children the container is the content element, inside a wrapper
   * element. Both the content element and its wrapper are `div`s.
   */
  function ParentName(doc: Doc, r: Range): string
    requires ValidRange(doc, r)
  {
    if r.start.node == r.end.node then
      (if doc[r.start.node].Mark? then NodeName(doc[r.start.node]) else "DIV")
    else "DIV"
  }

  predicate AllEmpty(pieces: Doc) {
    forall k | 0 <= k < |pieces| :: pieces[k].text == ""
  }

  /** The index of the first piece with text, which the loop keeps as `nodeNames`. */
  function FirstNonEmpty(pieces: Doc): (k: nat)
    requires !AllEmpty(pieces)
    ensures k < |pieces| && pieces[k].text != ""
    ensures forall q | 0 <= q < k :: pieces[q].text == ""
  {
    if pieces[0].text != "" then 0
    else
      assert !AllEmpty(pieces[1..]) by {
        var k :| 0 <= k < |pieces| && pieces[k].text != "";
        assert pieces[1..][k - 1] == pieces[k];
      }
      1 + FirstNonEmpty(pieces[1..])
  }

  /** The two tests in the loop that make the classifier return `false` for a piece. */
  predicate Rejected(n: Node, tagName: string, first: Node) {
    n.text != "" &&
    ((!IsSupSubTag(NodeName(n)) && NodeName(n) == "#text" && !IsSupSubTag(tagName)) || n != first)
  }

  /** `isSelectionInsideSubSup` as a function of the content and the selection. */
  function Classify(doc: Doc, sel: Option<Range>): Inside
    requires ValidSelection(doc, sel)
  {
    if sel.None? then NotInside
    else
      var r := sel.value;
      var tagName := ParentName(doc, r);
      if Collapsed(r) then
        (if IsSupSubTag(tagName) then InsideMark(r.start.node) else NotInside)
      else ClassifyPieces(CloneContents(doc, r), tagName, r.start.node)
  }

  /**
   * The classifier on a range that is not collapsed, given the pieces of its
   * clone, the name of its container's parent and the child it starts in.
   */
  function ClassifyPieces(pieces: Doc, tagName: string, at: nat): Inside {
    if AllEmpty(pieces) then ThrowsTypeError
    else
      var first := pieces[FirstNonEmpty(pieces)];
      if exists k | 0 <= k < |pieces| :: Rejected(pieces[k], tagName, first) then NotInside
      else if NodeName(first) == "#text" || IsSupSubTag(tagName) then InsideMark(at)
      else InsideClone(first)
  }

  lemma {:induction false} TextOfEmpty(pieces: Doc)
    ensures TextOf(pieces) == "" <==> AllEmpty(pieces)
    decreases |pieces|
  {
    if pieces != [] {
      TextOfEmpty(pieces[1..]);
      if AllEmpty(pieces) {
        assert AllEmpty(pieces[1..]) by {
          forall k | 0 <= k < |pieces[1..]| ensures pieces[1..][k].text == "" {
            assert pieces[1..][k] == pieces[k + 1];
          }
        }
      } else if pieces[0].text == "" {
        assert !AllEmpty(pieces[1..]) by {
          var k :| 0 <= k < |pieces| && pieces[k].text != "";
          assert pieces[1..][k - 1] == pieces[k];
        }
      }
    }
  }

  /** With no range the classifier says "not inside"; with a caret, "inside" exactly when the caret is in a mark. */
  lemma ClassifyCaret(doc: Doc, sel: Option<Range>)
    requires ValidSelection(doc, sel)
    requires sel.Some? ==> Collapsed(sel.value)
    ensures sel.None? ==> Classify(doc, sel) == NotInside
    ensures sel.Some? ==>
      (Classify(doc, sel) == InsideMark(sel.value.start.node) <==> doc[sel.value.start.node].Mark?)
    ensures sel.Some? && !doc[sel.value.start.node].Mark? ==> Classify(doc, sel) == NotInside
  {
  }

  /** A range throws exactly when its text is empty. */
  lemma ClassifyThrows(doc: Doc, r: Range)
    requires ValidRange(doc, r) && !Collapsed(r)
    ensures Classify(doc, Some(r)) == ThrowsTypeError <==> RangeString(doc, r) == ""
  {
    TextOfEmpty(CloneContents(doc, r));
  }

  /** A range is reported inside a mark exactly when it lies within that mark's text node. */
  lemma ClassifyInsideMark(doc: Doc, r: Range)
    requires ValidRange(doc, r) && !Collapsed(r)
    ensures Classify(doc, Some(r)).InsideMark? <==>
      r.start.node == r.end.node && doc[r.start.node].Mark?
    ensures Classify(doc, Some(r)).InsideMark? ==> Classify(doc, Some(r)).at == r.start.node
  {
    var pieces := CloneContents(doc, r);
    var tagName := ParentName(doc, r);
    if r.start.node == r.end.node && doc[r.start.node].Mark? {
      assert r.start.offset < r.end.offset;
      assert pieces[0].text != "";
      assert FirstNonEmpty(pieces) == 0;
      assert IsSupSubTag(tagName);
    } else if Classify(doc, Some(r)).InsideMark? {
      assert !IsSupSubTag(tagName);
      var first := pieces[FirstNonEmpty(pieces)];
      assert Rejected(first, tagName, first);
      assert false;
    }
  }

  /**
   * A clone is reported only for a range across children whose non-empty
   * pieces are all the same non-empty mark; every such range reports it.
   */
  lemma ClassifyInsideClone(doc: Doc, r: Range, n: Node)
    requires ValidRange(doc, r) && !Collapsed(r)
    ensures Classify(doc, Some(r)) == InsideClone(n) <==>
      r.start.node < r.end.node && n.Mark? && n.text != "" &&
      (exists k | 0 <= k < |CloneContents(doc, r)| :: CloneContents(doc, r)[k] == n) &&
      (forall k | 0 <= k < |CloneContents(doc, r)| ::
         CloneContents(doc, r)[k].text == "" || CloneContents(doc, r)[k] == n)
  {
    var pieces := CloneContents(doc, r);
    var tagName := ParentName(doc, r);
    ClassifyInsideMark(doc, r);
    if r.start.node < r.end.node && n.Mark? && n.text != "" &&
      (exists k | 0 <= k < |pieces| :: pieces[k] == n) &&
      (forall k | 0 <= k < |pieces| :: pieces[k].text == "" || pieces[k] == n)
    {
      assert !AllEmpty(pieces);
      var first := pieces[FirstNonEmpty(pieces)];
      assert first == n;
      assert !IsSupSubTag(tagName);
      forall k | 0 <= k < |pieces| ensures !Rejected(pieces[k], tagName, first) {
      }
    }
  }

  /** Whether the selection covers text, in the two forms the source tests it. */
  lemma ClassifyAllEmptyText(doc: Doc, r: Range)
    requires ValidRange(doc, r)
    ensures AllEmpty(CloneContents(doc, r)) <==> RangeString(doc, r) == ""
  {
    TextOfEmpty(CloneContents(doc, r));
  }

  /** Whatever node the classifier returns is a mark. */
  lemma ClassifyReturnsMark(doc: Doc, sel: Option<Range>)
    requires ValidSelection(doc, sel)
    ensures Classify(doc, sel).InsideMark? ==> Classify(doc, sel).at < |doc| && doc[Classify(doc, sel).at].Mark?
    ensures Classify(doc, sel).InsideClone? ==> Classify(doc, sel).node.Mark?
  {
    if sel.Some? && !Collapsed(sel.value) {
      ClassifyInsideMark(doc, sel.value);
      if Classify(doc, sel).InsideClone? {
        ClassifyInsideClone(doc, sel.value, Classify(doc, sel).node);
      }
    }
  }
}
