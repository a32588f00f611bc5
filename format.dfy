/**
 * `setFormat` (amd/src/editor.js, lines 512-665) as a function of the content,
 * the selection and the requested tag. Each branch is one function giving the
 * content right after its DOM changes and the range it selects; `Format`
 * combines them with the clean-up of empty text nodes and says whether the
 * textarea is written and whether a history entry is saved.
 */
module Formatting {
  import opened Wrappers
  import opened TextRules
  import opened Inline
  import opened Selection

  /** The content right after a branch's changes, and the range it selects. */
  datatype Edit = Edit(doc: Doc, sel: Range)

  /** A collapsed range at `p`. */
  function Caret(p: Pos): Range {
    Range(p, p)
  }

  /** The text node holding one zero-width no-break space. */
  function PlaceholderNode(): Node {
    Text([Placeholder])
  }

  /**
   * The formatting of `doc` with one character of formatting `f` inserted at
   * `p`: the characters before `p` and after it keep theirs.
   */
  function StyledInsert(doc: Doc, p: Pos, f: Option<Tag>): seq<Option<Tag>>
    requires ValidPos(doc, p)
  {
    var a := Offset(doc, p);
    Styles(doc)[..a] + [f] + Styles(doc)[a..]
  }

  /** `StyledInsert` character by character. */
  lemma StyledInsertAt(doc: Doc, p: Pos, f: Option<Tag>)
    requires ValidPos(doc, p)
    ensures var fs, a, was := StyledInsert(doc, p, f), Offset(doc, p), Styles(doc);
      |fs| == |was| + 1 && fs[a] == f &&
      (forall k | 0 <= k < a :: fs[k] == was[k]) &&
      (forall k | a <= k < |was| :: fs[k + 1] == was[k])
  {
  }

  /**
   * The formatting of `doc` with every character of `r` given formatting `f`
   * and every other character keeping its own.
   */
  function Restyled(doc: Doc, r: Range, f: Option<Tag>): seq<Option<Tag>>
    requires ValidRange(doc, r)
  {
    OffsetMonotonic(doc, r.start, r.end);
    var a, b := Offset(doc, r.start), Offset(doc, r.end);
    Styles(doc)[..a] + Fill(b - a, f) + Styles(doc)[b..]
  }

  /** `Restyled` character by character. */
  lemma RestyledAt(doc: Doc, r: Range, f: Option<Tag>)
    requires ValidRange(doc, r)
    ensures var fs := Restyled(doc, r, f);
      |fs| == |Styles(doc)| &&
      forall k | 0 <= k < |fs| :: fs[k] == if Offset(doc, r.start) <= k < Offset(doc, r.end) then f else Styles(doc)[k]
  {
  }

  /** A mark with text `s`, inserted only when `s` is not empty. */
  function MarkIfAny(t: Tag, s: string): (d: Doc)
    ensures TextOf(d) == s && Styles(d) == Fill(|s|, Some(t)) && |d| <= 1
  {
    if s != "" then
      assert TextOf([Mark(t, s)]) == s + TextOf([]);
      [Mark(t, s)]
    else []
  }

  /**
   * Caret inside a mark of the requested tag (lines 523-556): the mark is
   * replaced by its text before the caret (as a mark, when not empty), a
   * placeholder text node, and its text after the caret (likewise); the caret
   * goes after the placeholder character.
   */
  function SplitMark(doc: Doc, p: Pos): (e: Edit)
    requires ValidPos(doc, p) && doc[p.node].Mark?
    ensures ValidRange(e.doc, e.sel) && Collapsed(e.sel)
    ensures e.doc[e.sel.start.node] == PlaceholderNode() && e.sel.start.offset == 1
    ensures Styles(e.doc) == StyledInsert(doc, p, None)
  {
    var i, m := p.node, doc[p.node];
    var before := MarkIfAny(m.tag, m.text[..p.offset]);
    var after := MarkIfAny(m.tag, m.text[p.offset..]);
    var mid := before + [PlaceholderNode()] + after;
    assert Styles(mid) == Fill(p.offset, StyleOf(m)) + [None] + Fill(|m.text| - p.offset, StyleOf(m)) by {
      StylesSplice(before, [PlaceholderNode()], after);
    }
    InsertStyles(doc, p, mid, None);
    Edit(doc[..i] + mid + doc[i + 1..], Caret(Pos(i + |before|, 1)))
  }

  /**
   * Caret anywhere else (lines 557-572): `range.insertNode` splits the text
   * node at the caret and puts a new mark of the requested tag, holding one
   * placeholder, between the two halves; the caret goes after the placeholder.
   */
  function InsertMark(doc: Doc, p: Pos, tag: Tag): (e: Edit)
    requires ValidPos(doc, p) && doc[p.node].Text?
    ensures ValidRange(e.doc, e.sel) && Collapsed(e.sel)
    ensures e.doc[e.sel.start.node] == Mark(tag, [Placeholder]) && e.sel.start.offset == 1
    ensures Styles(e.doc) == StyledInsert(doc, p, Some(tag))
  {
    var i, s := p.node, doc[p.node].text;
    var mid := [Text(s[..p.offset]), Mark(tag, [Placeholder]), Text(s[p.offset..])];
    StylesThree(mid[0], mid[1], mid[2]);
    InsertStyles(doc, p, mid, Some(tag));
    Edit(doc[..i] + mid + doc[i + 1..], Caret(Pos(i + 1, 1)))
  }

  /**
   * A range inside one mark (lines 573-606): the mark is replaced by its text
   * before the range (as a mark of the mark's own tag, when not empty), the
   * selected text as a plain text node, and its text after the range; the new
   * text node is selected.
   */
  function Unformat(doc: Doc, r: Range): (e: Edit)
    requires ValidRange(doc, r) && r.start.node == r.end.node && doc[r.start.node].Mark?
    ensures ValidRange(e.doc, e.sel) && e.sel.start.node == e.sel.end.node
    ensures e.doc[e.sel.start.node] == Text(RangeString(doc, r))
    ensures e.sel.start.offset == 0 && e.sel.end.offset == |RangeString(doc, r)|
    ensures Styles(e.doc) == Restyled(doc, r, None)
  {
    var i, m := r.start.node, doc[r.start.node];
    var selected := m.text[r.start.offset..r.end.offset];
    var before := MarkIfAny(m.tag, m.text[..r.start.offset]);
    var after := MarkIfAny(m.tag, m.text[r.end.offset..]);
    assert Styles(before + [Text(selected)] + after) ==
      Fill(r.start.offset, StyleOf(m)) + Fill(r.end.offset - r.start.offset, None) + Fill(|m.text| - r.end.offset, StyleOf(m))
    by {
      StylesSplice(before, [Text(selected)], after);
    }
    RestyleStyles(doc, r, before + [Text(selected)] + after, None);
    Edit(doc[..i] + (before + [Text(selected)] + after) + doc[i + 1..],
      Range(Pos(i + |before|, 0), Pos(i + |before|, |selected|)))
  }

  /** The previous sibling of text node `i` is a mark of the requested tag. */
  predicate AbsorbsPrev(doc: Doc, i: nat, tag: Tag)
    requires i < |doc|
  {
    i > 0 && doc[i - 1].Mark? && doc[i - 1].tag == tag
  }

  /** The next sibling of text node `i` is a mark of the requested tag. */
  predicate AbsorbsNext(doc: Doc, i: nat, tag: Tag)
    requires i < |doc|
  {
    i + 1 < |doc| && doc[i + 1].Mark? && doc[i + 1].tag == tag
  }

  /** What the other-range branch does: merge into a neighbour and stop, or wrap the selection alone. */
  datatype Wrapping = Merged(edit: Edit) | Wrapped(edit: Edit)

  /**
   * Any other range (lines 607-657). The selection is deleted first. Within one
   * top-level text node the node is then split at the deletion point, and a
   * neighbouring mark of the requested tag is removed and its text taken into
   * the new mark: the previous one's before the selected text, the next one's
   * after it. If that added any text, the merged mark is inserted at the
   * deletion point and its selected part selected (`Merged`, which ends the
   * call). Otherwise, and always for a range across children (whose common
   * container is the content element, which has no siblings), a mark holding
   * exactly the selected text is inserted at the deletion point and its text
   * selected (`Wrapped`).
   */
  function Wrap(doc: Doc, r: Range, tag: Tag): (w: Wrapping)
    requires ValidRange(doc, r) && (r.start.node == r.end.node ==> doc[r.start.node].Text?)
    ensures ValidRange(w.edit.doc, w.edit.sel) && w.edit.sel.start.node == w.edit.sel.end.node
    ensures w.edit.doc[w.edit.sel.start.node].Mark? && w.edit.doc[w.edit.sel.start.node].tag == tag
    ensures RangeString(w.edit.doc, w.edit.sel) == RangeString(doc, r)
    ensures w.Wrapped? ==>
      w.edit.doc[w.edit.sel.start.node].text == RangeString(doc, r) && w.edit.sel.start.offset == 0
  {
    var i, j := r.start.node, r.end.node;
    var selected := RangeString(doc, r);
    if i == j then
      var s := doc[i].text;
      var prev := if AbsorbsPrev(doc, i, tag) then doc[i - 1].text else "";
      var next := if AbsorbsNext(doc, i, tag) then doc[i + 1].text else "";
      var lo := if AbsorbsPrev(doc, i, tag) then i - 1 else i;
      var hi := if AbsorbsNext(doc, i, tag) then i + 2 else i + 1;
      var content := prev + selected + next;
      if content != selected then
        assert content[|prev|..|prev| + |selected|] == selected;
        Merged(Edit(doc[..lo] + [Text(s[..r.start.offset]), Mark(tag, content), Text(s[r.end.offset..])] + doc[hi..],
          Range(Pos(lo + 1, |prev|), Pos(lo + 1, |prev| + |selected|))))
      else
        Wrapped(Edit(doc[..lo] + [Text(s[..r.start.offset]), Mark(tag, selected), Text(s[r.end.offset..])] + doc[hi..],
          Range(Pos(lo + 1, 0), Pos(lo + 1, |selected|))))
    else
      Wrapped(Edit(doc[..i] + [Cut(doc[i], 0, r.start.offset), Mark(tag, selected), Cut(doc[j], r.end.offset, |doc[j].text|)]
          + doc[j + 1..],
        Range(Pos(i + 1, 0), Pos(i + 1, |selected|))))
  }

  /** A range within one child the clean-up keeps, moved to that child's new index. */
  function SweepRange(doc: Doc, r: Range): (q: Range)
    requires ValidRange(doc, r) && r.start.node == r.end.node && !IsEmptyText(doc[r.start.node])
    ensures ValidRange(Sweep(doc), q) && q.start.node == q.end.node
    ensures Sweep(doc)[q.start.node] == doc[r.start.node]
    ensures q.start.offset == r.start.offset && q.end.offset == r.end.offset
    ensures Offset(Sweep(doc), q.start) == Offset(doc, r.start) && Offset(Sweep(doc), q.end) == Offset(doc, r.end)
  {
    Range(SweepPos(doc, r.start), SweepPos(doc, r.end))
  }

  /** The effect of one call. */
  datatype Outcome =
    | Threw    // `getRangeAt(0)` with no range, or the classifier's TypeError: nothing changes
    | Nested   // caret in a mark of the other tag: the new mark would nest inside it
    | Changed(doc: Doc, sel: Option<Range>, writesTextarea: bool, saves: bool)

  /**
   * `setFormat(action)` with `action.tag == tag`. `writesTextarea` says whether
   * the textarea receives the clean HTML; `saves` whether `saveHistory` runs.
   */
  function Format(doc: Doc, sel: Option<Range>, tag: Tag): (o: Outcome)
    requires ValidSelection(doc, sel)
    ensures o.Changed? ==> ValidSelection(o.doc, o.sel)
  {
    if sel.None? then Threw
    else
      var r := sel.value;
      if Collapsed(r) then
        var n := doc[r.start.node];
        if n.Mark? && n.tag == tag then
          var e := SplitMark(doc, r.start);
          Changed(Sweep(e.doc), Some(SweepRange(e.doc, e.sel)), false, true)
        else if n.Mark? then Nested
        else
          var e := InsertMark(doc, r.start, tag);
          Changed(Sweep(e.doc), Some(SweepRange(e.doc, e.sel)), false, true)
      else
        ClassifyInsideMark(doc, r);
        match Classify(doc, sel)
        case ThrowsTypeError => Threw
        case InsideMark(_) =>
          var e := Unformat(doc, r);
          Changed(Sweep(e.doc), Some(SweepRange(e.doc, e.sel)), true, true)
        case InsideClone(_) =>
          // The clone lives in a detached fragment: the edits and the new range
          // land there, and the selection is left without a range.
          Changed(Sweep(doc), None, true, true)
        case NotInside =>
          match Wrap(doc, r, tag)
          case Merged(e) => Changed(e.doc, Some(e.sel), true, false)
          case Wrapped(e) =>
            var d := Sweep(e.doc);
            Changed(Sweep(d), Some(SweepRange(d, SweepRange(e.doc, e.sel))), true, true)
  }

  // ---------------------------------------------------------------------------
  // Helpers: the text of a splice
  // ---------------------------------------------------------------------------

  /** Replacing children `lo..hi` by `mid`: the text, and the offset of a point inside `mid`. */
  lemma SpliceText(doc: Doc, lo: nat, hi: nat, mid: Doc, k: nat, off: nat)
    requires lo <= hi <= |doc| && k < |mid| && off <= |mid[k].text|
    ensures TextOf(doc[..lo] + mid + doc[hi..]) == TextOf(doc[..lo]) + TextOf(mid) + TextOf(doc[hi..])
    ensures ValidPos(doc[..lo] + mid + doc[hi..], Pos(lo + k, off))
    ensures Offset(doc[..lo] + mid + doc[hi..], Pos(lo + k, off)) == |TextOf(doc[..lo])| + |TextOf(mid[..k])| + off
  {
    var d := doc[..lo] + mid + doc[hi..];
    TextOfSplice(doc[..lo], mid, doc[hi..]);
    assert d[..lo + k] == doc[..lo] + mid[..k];
    TextOfAppend(doc[..lo], mid[..k]);
  }

  /**
   * Child `p.node` replaced by children whose formatting is its own with one
   * character of formatting `x` at `p.offset`.
   */
  lemma InsertStyles(doc: Doc, p: Pos, mid: Doc, x: Option<Tag>)
    requires ValidPos(doc, p)
    requires var n := doc[p.node];
      Styles(mid) == Fill(p.offset, StyleOf(n)) + [x] + Fill(|n.text| - p.offset, StyleOf(n))
    ensures Styles(doc[..p.node] + mid + doc[p.node + 1..]) == StyledInsert(doc, p, x)
  {
    var i := p.node;
    StylesSplice(doc[..i], mid, doc[i + 1..]);
    StylesAround(doc, i);
    FillInsert(Styles(doc[..i]), Styles(doc[i + 1..]), Styles(doc), Styles(mid), |doc[i].text|, p.offset, StyleOf(doc[i]), x,
      Offset(doc, p));
  }

  /**
   * Child `r.start.node`, which holds all of `r`, replaced by children whose
   * formatting is its own except `f` on the characters of `r`.
   */
  lemma RestyleStyles(doc: Doc, r: Range, mid: Doc, f: Option<Tag>)
    requires ValidRange(doc, r) && r.start.node == r.end.node
    requires var n, so, eo := doc[r.start.node], r.start.offset, r.end.offset;
      Styles(mid) == Fill(so, StyleOf(n)) + Fill(eo - so, f) + Fill(|n.text| - eo, StyleOf(n))
    ensures Styles(doc[..r.start.node] + mid + doc[r.start.node + 1..]) == Restyled(doc, r, f)
  {
    var i := r.start.node;
    StylesSplice(doc[..i], mid, doc[i + 1..]);
    StylesAround(doc, i);
    FillRestyle(Styles(doc[..i]), Styles(doc[i + 1..]), Styles(doc), Styles(mid), |doc[i].text|, r.start.offset, r.end.offset,
      StyleOf(doc[i]), f, Offset(doc, r.start), Offset(doc, r.end));
  }

  /**
   * One character `x` placed `o` characters into a run of `n` characters of
   * formatting `f`: inserted at `A` in the whole.
   */
  lemma FillInsert(l: seq<Option<Tag>>, z: seq<Option<Tag>>, fs: seq<Option<Tag>>, sm: seq<Option<Tag>>,
                   n: nat, o: nat, f: Option<Tag>, x: Option<Tag>, A: nat)
    requires o <= n && A == |l| + o
    requires fs == l + Fill(n, f) + z && sm == Fill(o, f) + [x] + Fill(n - o, f)
    ensures A <= |fs|
    ensures l + sm + z == fs[..A] + [x] + fs[A..]
  {
    FillSplit(n, o, f);
    assert fs[..A] == l + Fill(o, f);
    assert fs[A..] == Fill(n - o, f) + z;
  }

  /**
   * Characters `so..eo` of a run of `n` characters of formatting `g` given
   * formatting `f`: the characters from `A` to `B` of the whole.
   */
  lemma FillRestyle(l: seq<Option<Tag>>, z: seq<Option<Tag>>, fs: seq<Option<Tag>>, sm: seq<Option<Tag>>,
                    n: nat, so: nat, eo: nat, g: Option<Tag>, f: Option<Tag>, A: nat, B: nat)
    requires so <= eo <= n && A == |l| + so && B == |l| + eo
    requires fs == l + Fill(n, g) + z && sm == Fill(so, g) + Fill(eo - so, f) + Fill(n - eo, g)
    ensures A <= B <= |fs|
    ensures l + sm + z == fs[..A] + Fill(B - A, f) + fs[B..]
  {
    FillSplit(n, so, g);
    FillSplit(n, eo, g);
    assert fs[..A] == l + Fill(so, g);
    assert fs[B..] == Fill(n - eo, g) + z;
  }

  lemma InsertInto(a: string, s: string, z: string, o: nat, x: string)
    requires o <= |s|
    ensures a + (s[..o] + x + s[o..]) + z == (a + s + z)[..|a| + o] + x + (a + s + z)[|a| + o..]
  {
    assert (a + s + z)[..|a| + o] == a + s[..o];
    assert (a + s + z)[|a| + o..] == s[o..] + z;
  }

  // ---------------------------------------------------------------------------
  // Properties of setFormat
  // ---------------------------------------------------------------------------

  /** The call throws exactly when there is no range, or a range whose text is empty. */
  lemma FormatThrows(doc: Doc, sel: Option<Range>, tag: Tag)
    requires ValidSelection(doc, sel)
    ensures Format(doc, sel, tag) == Threw <==>
      sel.None? || (!Collapsed(sel.value) && RangeString(doc, sel.value) == "")
  {
    if sel.Some? && !Collapsed(sel.value) {
      ClassifyThrows(doc, sel.value);
      ClassifyInsideMark(doc, sel.value);
    }
  }

  /** The call would nest a mark exactly when the caret is in a mark of the other tag. */
  lemma FormatNests(doc: Doc, sel: Option<Range>, tag: Tag)
    requires ValidSelection(doc, sel)
    ensures Format(doc, sel, tag) == Nested <==>
      sel.Some? && Collapsed(sel.value) && doc[sel.value.start.node].Mark? && doc[sel.value.start.node].tag != tag
  {
    if sel.Some? && !Collapsed(sel.value) {
      ClassifyInsideMark(doc, sel.value);
    }
  }

  /**
   * With a caret, the only change to the text is one placeholder character
   * inserted at the caret, and the caret ends up just after it: in a plain
   * placeholder text node when the caret was in a mark of the requested tag
   * (the mark is split), in a new mark of the requested tag otherwise. The
   * textarea is not written; a history entry is saved.
   */
  lemma FormatCaret(doc: Doc, r: Range, tag: Tag)
    requires ValidRange(doc, r) && Collapsed(r)
    requires !(doc[r.start.node].Mark? && doc[r.start.node].tag != tag)
    ensures var o := Format(doc, Some(r), tag);
      var a := Offset(doc, r.start);
      o.Changed? && !o.writesTextarea && o.saves && o.sel.Some? &&
      ValidRange(o.doc, o.sel.value) && Collapsed(o.sel.value) &&
      TextOf(o.doc) == TextOf(doc)[..a] + [Placeholder] + TextOf(doc)[a..] &&
      Offset(o.doc, o.sel.value.start) == a + 1 &&
      o.doc[o.sel.value.start.node] == (if doc[r.start.node].Mark? then PlaceholderNode() else Mark(tag, [Placeholder]))
    ensures var o := Format(doc, Some(r), tag);
      o.Changed? && Styles(o.doc) == StyledInsert(doc, r.start, if doc[r.start.node].Mark? then None else Some(tag))
  {
    var e := if doc[r.start.node].Mark? then SplitMark(doc, r.start) else InsertMark(doc, r.start, tag);
    if doc[r.start.node].Mark? {
      SplitMarkText(doc, r.start);
    } else {
      InsertMarkText(doc, r.start, tag);
    }
    SweepKeepsContent(e.doc);
  }

  /** Splitting a mark at the caret inserts one placeholder character into the text, just before the new caret. */
  lemma SplitMarkText(doc: Doc, p: Pos)
    requires ValidPos(doc, p) && doc[p.node].Mark?
    ensures var e := SplitMark(doc, p);
      var a := Offset(doc, p);
      TextOf(e.doc) == TextOf(doc)[..a] + [Placeholder] + TextOf(doc)[a..] &&
      Offset(e.doc, e.sel.start) == a + 1
  {
    var n := doc[p.node];
    var before, after := MarkIfAny(n.tag, n.text[..p.offset]), MarkIfAny(n.tag, n.text[p.offset..]);
    PlaceholderBetween(doc, p, before, after);
    var e := SplitMark(doc, p);
    assert e.doc == doc[..p.node] + (before + [PlaceholderNode()] + after) + doc[p.node + 1..];
    assert e.sel.start == Pos(p.node + |before|, 1);
  }

  /** Replacing child `p.node` by its text before `p`, a placeholder node and its text after `p`. */
  lemma PlaceholderBetween(doc: Doc, p: Pos, before: Doc, after: Doc)
    requires ValidPos(doc, p)
    requires TextOf(before) == doc[p.node].text[..p.offset] && TextOf(after) == doc[p.node].text[p.offset..]
    ensures var d := doc[..p.node] + (before + [PlaceholderNode()] + after) + doc[p.node + 1..];
      var a := Offset(doc, p);
      TextOf(d) == TextOf(doc)[..a] + [Placeholder] + TextOf(doc)[a..] &&
      ValidPos(d, Pos(p.node + |before|, 1)) && Offset(d, Pos(p.node + |before|, 1)) == a + 1
  {
    var i, n := p.node, doc[p.node];
    var mid := before + [PlaceholderNode()] + after;
    assert TextOf(mid) == n.text[..p.offset] + [Placeholder] + n.text[p.offset..] by {
      TextOfSplice(before, [PlaceholderNode()], after);
      assert TextOf([PlaceholderNode()]) == [Placeholder] + TextOf([]);
    }
    assert mid[..|before|] == before;
    PlaceholderSplice(doc, i, mid, |before|, n.text, p.offset);
  }

  /** Child `i` replaced by children whose text is its own with one placeholder at `o`, the `k`th holding the caret after it. */
  lemma PlaceholderSplice(doc: Doc, i: nat, mid: Doc, k: nat, s: string, o: nat)
    requires i < |doc| && doc[i].text == s && o <= |s| && k < |mid| && 1 <= |mid[k].text|
    requires TextOf(mid) == s[..o] + [Placeholder] + s[o..] && TextOf(mid[..k]) == s[..o]
    ensures var d := doc[..i] + mid + doc[i + 1..];
      var a := |TextOf(doc[..i])| + o;
      a <= |TextOf(doc)| &&
      TextOf(d) == TextOf(doc)[..a] + [Placeholder] + TextOf(doc)[a..] &&
      ValidPos(d, Pos(i + k, 1)) && Offset(d, Pos(i + k, 1)) == a + 1
  {
    var l, z := TextOf(doc[..i]), TextOf(doc[i + 1..]);
    assert TextOf(doc) == l + s + z by {
      TextOfAround(doc, i);
    }
    SpliceText(doc, i, i + 1, mid, k, 1);
    InsertInto(l, s, z, o, [Placeholder]);
  }

  /** Inserting a placeholder mark adds one placeholder character to the text, just before the new caret. */
  lemma InsertMarkText(doc: Doc, p: Pos, tag: Tag)
    requires ValidPos(doc, p) && doc[p.node].Text?
    ensures var e := InsertMark(doc, p, tag);
      var a := Offset(doc, p);
      TextOf(e.doc) == TextOf(doc)[..a] + [Placeholder] + TextOf(doc)[a..] &&
      Offset(e.doc, e.sel.start) == a + 1
  {
    var i, n := p.node, doc[p.node];
    var mid := [Text(n.text[..p.offset]), Mark(tag, [Placeholder]), Text(n.text[p.offset..])];
    assert InsertMark(doc, p, tag) == Edit(doc[..i] + mid + doc[i + 1..], Caret(Pos(i + 1, 1)));
    InsertSplice(doc, i, mid, n.text, p.offset);
  }

  /** A node holding one placeholder between the two halves of child `i`'s text, split at `o`. */
  lemma InsertSplice(doc: Doc, i: nat, mid: Doc, s: string, o: nat)
    requires i < |doc| && doc[i].text == s && o <= |s|
    requires |mid| == 3 && mid[0].text == s[..o] && mid[1].text == [Placeholder] && mid[2].text == s[o..]
    ensures var d := doc[..i] + mid + doc[i + 1..];
      var a := |TextOf(doc[..i])| + o;
      a <= |TextOf(doc)| &&
      TextOf(d) == TextOf(doc)[..a] + [Placeholder] + TextOf(doc)[a..] &&
      ValidPos(d, Pos(i + 1, 1)) && Offset(d, Pos(i + 1, 1)) == a + 1
  {
    assert TextOf(mid) == s[..o] + [Placeholder] + s[o..] && TextOf(mid[..1]) == s[..o] by {
      TextOfThree(mid[0], mid[1], mid[2]);
      assert mid == [mid[0], mid[1], mid[2]];
      assert TextOf(mid[..1]) == mid[0].text + TextOf([]);
    }
    PlaceholderSplice(doc, i, mid, 1, s, o);
  }

  /** Replacing child `i` by children with the same text keeps the text; offsets inside them follow. */
  lemma SameTextSplice(doc: Doc, i: nat, mid: Doc, k: nat, off: nat)
    requires i < |doc| && TextOf(mid) == doc[i].text && k < |mid| && off <= |mid[k].text|
    ensures TextOf(doc[..i] + mid + doc[i + 1..]) == TextOf(doc)
    ensures ValidPos(doc[..i] + mid + doc[i + 1..], Pos(i + k, off))
    ensures Offset(doc[..i] + mid + doc[i + 1..], Pos(i + k, off)) == |TextOf(doc[..i])| + |TextOf(mid[..k])| + off
  {
    TextOfAround(doc, i);
    SpliceText(doc, i, i + 1, mid, k, off);
  }

  /** Unformatting keeps the text, and the new text node covers exactly the text the range covered. */
  lemma UnformatText(doc: Doc, r: Range)
    requires ValidRange(doc, r) && r.start.node == r.end.node && doc[r.start.node].Mark?
    ensures var e := Unformat(doc, r);
      TextOf(e.doc) == TextOf(doc) &&
      Offset(e.doc, e.sel.start) == Offset(doc, r.start) && Offset(e.doc, e.sel.end) == Offset(doc, r.end)
  {
    var i, n := r.start.node, doc[r.start.node];
    var so, eo := r.start.offset, r.end.offset;
    var before, after := MarkIfAny(n.tag, n.text[..so]), MarkIfAny(n.tag, n.text[eo..]);
    assert Unformat(doc, r) ==
      Edit(doc[..i] + (before + [Text(n.text[so..eo])] + after) + doc[i + 1..],
        Range(Pos(i + |before|, 0), Pos(i + |before|, eo - so)));
    UnformatSplice(doc, i, before, n.text, after, so, eo);
  }

  /** The text of a mark, split into what comes before, the selected text node and what comes after. */
  lemma UnformatSplice(doc: Doc, i: nat, before: Doc, s: string, after: Doc, so: nat, eo: nat)
    requires i < |doc| && doc[i].text == s && so <= eo <= |s|
    requires TextOf(before) == s[..so] && TextOf(after) == s[eo..]
    ensures var d := doc[..i] + (before + [Text(s[so..eo])] + after) + doc[i + 1..];
      TextOf(d) == TextOf(doc) &&
      ValidPos(d, Pos(i + |before|, 0)) && ValidPos(d, Pos(i + |before|, eo - so)) &&
      Offset(d, Pos(i + |before|, 0)) == |TextOf(doc[..i])| + so &&
      Offset(d, Pos(i + |before|, eo - so)) == |TextOf(doc[..i])| + eo
  {
    var mid := before + [Text(s[so..eo])] + after;
    assert TextOf(mid) == s by {
      TextOfSplice(before, [Text(s[so..eo])], after);
      assert TextOf([Text(s[so..eo])]) == s[so..eo] + TextOf([]);
      assert s == s[..so] + s[so..eo] + s[eo..];
    }
    assert mid[..|before|] == before;
    SameTextSplice(doc, i, mid, |before|, 0);
    SameTextSplice(doc, i, mid, |before|, eo - so);
  }

  /**
   * A range inside one mark: the selected text becomes a plain text node
   * between what is left of the mark (with the mark's own tag), whatever tag
   * was requested. The text is unchanged, the new selection covers the same
   * characters, the textarea is written and a history entry saved.
   */
  lemma FormatUnformat(doc: Doc, r: Range, tag: Tag)
    requires ValidRange(doc, r) && !Collapsed(r)
    requires r.start.node == r.end.node && doc[r.start.node].Mark?
    ensures var o := Format(doc, Some(r), tag);
      o.Changed? && o.writesTextarea && o.saves && o.sel.Some? &&
      ValidRange(o.doc, o.sel.value) && o.sel.value.start.node == o.sel.value.end.node &&
      o.doc[o.sel.value.start.node] == Text(RangeString(doc, r)) &&
      RangeString(o.doc, o.sel.value) == RangeString(doc, r) &&
      TextOf(o.doc) == TextOf(doc) &&
      Offset(o.doc, o.sel.value.start) == Offset(doc, r.start) &&
      Offset(o.doc, o.sel.value.end) == Offset(doc, r.end)
    ensures var o := Format(doc, Some(r), tag);
      o.Changed? && Styles(o.doc) == Restyled(doc, r, None)
    ensures Format(doc, Some(r), Sup) == Format(doc, Some(r), Sub)
  {
    ClassifyInsideMark(doc, r);
    var e := Unformat(doc, r);
    UnformatText(doc, r);
    SweepKeepsContent(e.doc);
  }

  /**
   * A range whose pieces are all the same mark, across children: the document
   * keeps every non-empty child and its text, the selection is left without a
   * range, and the textarea and history are updated.
   */
  lemma FormatClone(doc: Doc, r: Range, tag: Tag)
    requires ValidRange(doc, r) && !Collapsed(r) && Classify(doc, Some(r)).InsideClone?
    ensures var o := Format(doc, Some(r), tag);
      o.Changed? && o.writesTextarea && o.saves && o.sel.None? &&
      TextOf(o.doc) == TextOf(doc) && NonEmpty(o.doc) == NonEmpty(doc) && Styles(o.doc) == Styles(doc)
  {
    SweepKeepsContent(doc);
  }

  /**
   * The merge keeps the characters in order when each absorbed neighbour is
   * empty or touches the selection: an absorbed previous mark only when the
   * range starts at the start of its text node, an absorbed next mark only when
   * it ends at the end.
   */
  predicate KeepsOrder(doc: Doc, r: Range, tag: Tag)
    requires ValidRange(doc, r)
  {
    var i := r.start.node;
    r.start.node == r.end.node ==>
      (AbsorbsPrev(doc, i, tag) ==> r.start.offset == 0 || doc[i - 1].text == "") &&
      (AbsorbsNext(doc, i, tag) ==> r.end.offset == |doc[i].text| || doc[i + 1].text == "")
  }

  /** The text before a top-level text node, with or without an absorbed previous mark. */
  lemma TextBeforeAbsorbed(doc: Doc, i: nat)
    requires 0 < i < |doc|
    ensures TextOf(doc[..i]) == TextOf(doc[..i - 1]) + doc[i - 1].text
  {
    assert doc[..i] == doc[..i - 1] + [doc[i - 1]];
    TextOfAppend(doc[..i - 1], [doc[i - 1]]);
    assert TextOf([doc[i - 1]]) == doc[i - 1].text + TextOf([]);
  }

  /** Three children spliced in place of children `lo..hi`: the text, and offsets inside the middle one. */
  lemma ThreeSplice(doc: Doc, lo: nat, hi: nat, x: Node, y: Node, z: Node, off: nat)
    requires lo <= hi <= |doc| && off <= |y.text|
    ensures TextOf(doc[..lo] + [x, y, z] + doc[hi..]) == TextOf(doc[..lo]) + x.text + y.text + z.text + TextOf(doc[hi..])
    ensures ValidPos(doc[..lo] + [x, y, z] + doc[hi..], Pos(lo + 1, off))
    ensures Offset(doc[..lo] + [x, y, z] + doc[hi..], Pos(lo + 1, off)) == |TextOf(doc[..lo])| + |x.text| + off
  {
    TextOfThree(x, y, z);
    assert [x, y, z][..1] == [x];
    assert TextOf([x]) == x.text + TextOf([]);
    SpliceText(doc, lo, hi, [x, y, z], 1, off);
  }

  /** `ThreeSplice` at both ends of the middle node. */
  lemma ThreeSpliceEnds(doc: Doc, lo: nat, hi: nat, x: Node, y: Node, z: Node)
    requires lo <= hi <= |doc|
    ensures var d := doc[..lo] + [x, y, z] + doc[hi..];
      TextOf(d) == TextOf(doc[..lo]) + x.text + y.text + z.text + TextOf(doc[hi..]) &&
      ValidPos(d, Pos(lo + 1, 0)) && ValidPos(d, Pos(lo + 1, |y.text|)) &&
      Offset(d, Pos(lo + 1, 0)) == |TextOf(doc[..lo])| + |x.text| &&
      Offset(d, Pos(lo + 1, |y.text|)) == |TextOf(doc[..lo])| + |x.text| + |y.text|
  {
    ThreeSplice(doc, lo, hi, x, y, z, 0);
    ThreeSplice(doc, lo, hi, x, y, z, |y.text|);
  }

  /** Regrouping step for `Regroup`, which moves the split text node's pieces around the new mark. */
  lemma ConcatAssoc(a: string, b: string, c: string)
    ensures a + (b + c) == a + b + c
  {
  }

  lemma Regroup(l: string, x: string, p: string, m: string, n: string, z: string, rest: string,
                a: string, s: string, tail: string, so: nat, eo: nat)
    requires so <= eo <= |s|
    requires l + x + p == a + s[..so] && n + z + rest == s[eo..] + tail && m == s[so..eo]
    ensures l + x + (p + m + n) + z + rest == a + s + tail
  {
    var q := l + x + p + m;
    calc {
      l + x + (p + m + n) + z + rest;
    == { ConcatAssoc(l + x, p + m, n); ConcatAssoc(l + x, p, m); }
      q + n + z + rest;
    == { ConcatAssoc(q, n, z); ConcatAssoc(q, n + z, rest); }
      q + (n + z + rest);
    ==
      a + s[..so] + s[so..eo] + (s[eo..] + tail);
    == { ConcatAssoc(a + s[..so] + s[so..eo], s[eo..], tail); }
      a + s[..so] + s[so..eo] + s[eo..] + tail;
    == { ConcatAssoc(a, s[..so], s[so..eo]); ConcatAssoc(a, s[..so] + s[so..eo], s[eo..]);
         assert s == s[..so] + s[so..eo] + s[eo..]; }
      a + s + tail;
    }
  }

  /**
   * The edit of `Wrap` within one text node, written once for both outcomes
   * (merged or wrapped): the lemmas about its text and its styles start from
   * this shape.
   */
  lemma WrapOneShape(doc: Doc, r: Range, tag: Tag)
    requires ValidRange(doc, r) && r.start.node == r.end.node && doc[r.start.node].Text?
    ensures var i, s := r.start.node, doc[r.start.node].text;
      var ap, an := AbsorbsPrev(doc, i, tag), AbsorbsNext(doc, i, tag);
      var prev := if ap then doc[i - 1].text else "";
      var next := if an then doc[i + 1].text else "";
      var lo, hi := (if ap then i - 1 else i), (if an then i + 2 else i + 1);
      var e := Wrap(doc, r, tag).edit;
      e.doc == doc[..lo] + [Text(s[..r.start.offset]), Mark(tag, prev + s[r.start.offset..r.end.offset] + next),
        Text(s[r.end.offset..])] + doc[hi..] &&
      e.sel == Range(Pos(lo + 1, |prev|), Pos(lo + 1, |prev| + r.end.offset - r.start.offset))
  {
  }

  /**
   * Text node `i` split around `so..eo`, with a mark of `tag` in between that
   * also takes the text `prev` of an absorbed previous mark (child `i - 1`,
   * when `lo == i - 1`) and `next` of an absorbed next mark (child `i + 1`,
   * when `hi == i + 2`): the text is unchanged when each absorbed neighbour is
   * empty or touches the range, and the range's characters keep their offsets.
   */
  lemma OneTextEditText(doc: Doc, i: nat, so: nat, eo: nat, tag: Tag, lo: nat, hi: nat, prev: string, next: string)
    requires i < |doc| && so <= eo <= |doc[i].text|
    requires (lo == i && prev == "") || (lo + 1 == i && prev == doc[lo].text && (so == 0 || prev == ""))
    requires (hi == i + 1 && next == "") ||
             (hi == i + 2 && hi <= |doc| && next == doc[i + 1].text && (eo == |doc[i].text| || next == ""))
    ensures var s := doc[i].text;
      var d := doc[..lo] + [Text(s[..so]), Mark(tag, prev + s[so..eo] + next), Text(s[eo..])] + doc[hi..];
      TextOf(d) == TextOf(doc) &&
      ValidPos(d, Pos(lo + 1, |prev|)) && ValidPos(d, Pos(lo + 1, |prev| + eo - so)) &&
      Offset(d, Pos(lo + 1, |prev|)) == |TextOf(doc[..i])| + so &&
      Offset(d, Pos(lo + 1, |prev| + eo - so)) == |TextOf(doc[..i])| + eo
  {
    var s := doc[i].text;
    var y := Mark(tag, prev + s[so..eo] + next);
    var d := doc[..lo] + [Text(s[..so]), y, Text(s[eo..])] + doc[hi..];
    var l, rest, a, tail := TextOf(doc[..lo]), TextOf(doc[hi..]), TextOf(doc[..i]), TextOf(doc[i + 1..]);
    assert TextOf(d) == l + s[..so] + (prev + s[so..eo] + next) + s[eo..] + rest &&
      ValidPos(d, Pos(lo + 1, |prev|)) && ValidPos(d, Pos(lo + 1, |prev| + eo - so)) &&
      Offset(d, Pos(lo + 1, |prev|)) == |l| + so + |prev| &&
      Offset(d, Pos(lo + 1, |prev| + eo - so)) == |l| + so + |prev| + eo - so
    by {
      ThreeSplice(doc, lo, hi, Text(s[..so]), y, Text(s[eo..]), |prev|);
      ThreeSplice(doc, lo, hi, Text(s[..so]), y, Text(s[eo..]), |prev| + eo - so);
    }
    AbsorbedJoins(doc, i, so, eo, lo, hi, prev, next);
    assert TextOf(doc) == a + s + tail by {
      TextOfAround(doc, i);
    }
    Regroup(l, s[..so], prev, s[so..eo], next, s[eo..], rest, a, s, tail, so, eo);
    assert |l| + so + |prev| == |a| + so by {
      assert |l + s[..so] + prev| == |a + s[..so]|;
    }
  }

  /** The absorbed neighbours' text, moved into the mark, stays where it was. */
  lemma AbsorbedJoins(doc: Doc, i: nat, so: nat, eo: nat, lo: nat, hi: nat, prev: string, next: string)
    requires i < |doc| && so <= eo <= |doc[i].text|
    requires (lo == i && prev == "") || (lo + 1 == i && prev == doc[lo].text && (so == 0 || prev == ""))
    requires (hi == i + 1 && next == "") ||
             (hi == i + 2 && hi <= |doc| && next == doc[i + 1].text && (eo == |doc[i].text| || next == ""))
    ensures var s := doc[i].text;
      TextOf(doc[..lo]) + s[..so] + prev == TextOf(doc[..i]) + s[..so] &&
      next + s[eo..] + TextOf(doc[hi..]) == s[eo..] + TextOf(doc[i + 1..])
  {
    var s := doc[i].text;
    var l, rest, a, tail := TextOf(doc[..lo]), TextOf(doc[hi..]), TextOf(doc[..i]), TextOf(doc[i + 1..]);
    assert l + s[..so] + prev == a + s[..so] by {
      if lo + 1 == i {
        TextBeforeAbsorbed(doc, i);
        assert so == 0 ==> s[..so] == "";
      }
      JoinBefore(l, s[..so], prev, a);
    }
    assert next + s[eo..] + rest == s[eo..] + tail by {
      if hi == i + 2 {
        TextAfterAbsorbed(doc, i);
        assert eo == |s| ==> s[eo..] == "";
      }
      JoinAfter(next, s[eo..], rest, tail);
    }
  }

  /** An absorbed previous text `p` moved across `x` lands where it was when one of the two is empty. */
  lemma JoinBefore(l: string, x: string, p: string, a: string)
    requires (p == "" && l == a) || (a == l + p && (x == "" || p == ""))
    ensures l + x + p == a + x
  {
    if p == "" {
      assert l + x + p == l + x;
    } else {
      assert x == "";
      assert l + x + p == l + p && a + x == a;
    }
  }

  /** An absorbed next text `n` moved across `x` lands where it was when one of the two is empty. */
  lemma JoinAfter(n: string, x: string, rest: string, tail: string)
    requires (n == "" && rest == tail) || (tail == n + rest && (x == "" || n == ""))
    ensures n + x + rest == x + tail
  {
    if n == "" {
      assert n + x + rest == x + rest;
    } else {
      assert x == "";
      assert n + x + rest == n + rest && x + tail == tail;
    }
  }

  /** The text after a top-level text node, with or without an absorbed next mark. */
  lemma TextAfterAbsorbed(doc: Doc, i: nat)
    requires i + 2 <= |doc|
    ensures TextOf(doc[i + 1..]) == doc[i + 1].text + TextOf(doc[i + 2..])
  {
    var t := doc[i + 1..];
    assert t[0] == doc[i + 1] && t[1..] == doc[i + 2..];
  }

  /**
   * When the merge keeps the order, wrapping gives the characters of `r`
   * formatting `tag` and leaves every other character's formatting as it was.
   */
  lemma WrapStyles(doc: Doc, r: Range, tag: Tag)
    requires ValidRange(doc, r) && (r.start.node == r.end.node ==> doc[r.start.node].Text?)
    requires KeepsOrder(doc, r, tag)
    ensures Styles(Wrap(doc, r, tag).edit.doc) == Restyled(doc, r, Some(tag))
  {
    if r.start.node == r.end.node {
      WrapOneStyles(doc, r, tag);
    } else {
      AcrossStyles(doc, r, tag);
    }
  }

  /** `WrapStyles` for a range inside one text node. */
  lemma WrapOneStyles(doc: Doc, r: Range, tag: Tag)
    requires ValidRange(doc, r) && r.start.node == r.end.node && doc[r.start.node].Text?
    requires KeepsOrder(doc, r, tag)
    ensures Styles(Wrap(doc, r, tag).edit.doc) == Restyled(doc, r, Some(tag))
  {
    var i := r.start.node;
    var ap, an := AbsorbsPrev(doc, i, tag), AbsorbsNext(doc, i, tag);
    WrapOneShape(doc, r, tag);
    OneTextStyles(doc, r, tag, if ap then i - 1 else i, if an then i + 2 else i + 1,
      if ap then doc[i - 1].text else "", if an then doc[i + 1].text else "");
  }

  /**
   * Text node `r.start.node` split around `r`, with a mark of `tag` in between
   * that also takes the text `prev` of an absorbed previous mark (child
   * `lo`, when `lo + 1` is the text node) and `next` of an absorbed next mark
   * (child `hi - 1`, when `hi` is two past it): when each absorbed neighbour
   * is empty or touches the range, the characters of `r` become `tag` and
   * every other character keeps its formatting.
   */
  lemma OneTextStyles(doc: Doc, r: Range, tag: Tag, lo: nat, hi: nat, prev: string, next: string)
    requires ValidRange(doc, r) && r.start.node == r.end.node && doc[r.start.node].Text?
    requires var i := r.start.node;
      (lo == i && prev == "") || (lo + 1 == i && prev == doc[lo].text && StyleOf(doc[lo]) == Some(tag))
    requires var i := r.start.node;
      (hi == i + 1 && next == "") ||
      (hi == i + 2 && hi <= |doc| && next == doc[i + 1].text && StyleOf(doc[i + 1]) == Some(tag))
    ensures var i, so, eo := r.start.node, r.start.offset, r.end.offset;
      var s := doc[i].text;
      (so == 0 || prev == "") && (eo == |s| || next == "") ==>
        Styles(doc[..lo] + [Text(s[..so]), Mark(tag, prev + s[so..eo] + next), Text(s[eo..])] + doc[hi..]) ==
        Restyled(doc, r, Some(tag))
  {
    var i, so, eo := r.start.node, r.start.offset, r.end.offset;
    var s := doc[i].text;
    if (so == 0 || prev == "") && (eo == |s| || next == "") {
      var mid := s[so..eo];
      PlainWrapStyles(doc, r, tag);
      PrevAbsorbedStyles(doc, i, lo, s, so, eo, prev, tag);
      NextAbsorbedStyles(doc, i, lo, hi, s, so, eo, prev + mid, next, tag);
    }
  }

  /** Text node `r.start.node` split around `r` with a mark of `tag` holding exactly the characters of `r`. */
  lemma PlainWrapStyles(doc: Doc, r: Range, tag: Tag)
    requires ValidRange(doc, r) && r.start.node == r.end.node && doc[r.start.node].Text?
    ensures var i, so, eo := r.start.node, r.start.offset, r.end.offset;
      var s := doc[i].text;
      Styles(doc[..i] + [Text(s[..so]), Mark(tag, s[so..eo]), Text(s[eo..])] + doc[i + 1..]) == Restyled(doc, r, Some(tag))
  {
    var i, so, eo := r.start.node, r.start.offset, r.end.offset;
    var s := doc[i].text;
    StylesThree(Text(s[..so]), Mark(tag, s[so..eo]), Text(s[eo..]));
    RestyleStyles(doc, r, [Text(s[..so]), Mark(tag, s[so..eo]), Text(s[eo..])], Some(tag));
  }

  /** An absorbed previous mark (child `lo`, when `lo + 1 == i`) taken into the new mark leaves the formatting as it was. */
  lemma PrevAbsorbedStyles(doc: Doc, i: nat, lo: nat, s: string, so: nat, eo: nat, prev: string, tag: Tag)
    requires i < |doc| && so <= eo <= |s|
    requires (lo == i && prev == "") || (lo + 1 == i && prev == doc[lo].text && StyleOf(doc[lo]) == Some(tag))
    requires so == 0 || prev == ""
    ensures Styles(doc[..lo] + [Text(s[..so]), Mark(tag, prev + s[so..eo]), Text(s[eo..])] + doc[i + 1..]) ==
      Styles(doc[..i] + [Text(s[..so]), Mark(tag, s[so..eo]), Text(s[eo..])] + doc[i + 1..])
  {
    var x, mid, w, post := Text(s[..so]), s[so..eo], Text(s[eo..]), doc[i + 1..];
    if lo == i {
      assert prev + mid == mid;
    } else {
      assert doc[..i] == doc[..lo] + [doc[lo]];
      AbsorbPrevStyles(doc[..lo], doc[lo], x, mid, w, post, tag);
    }
  }

  /** An absorbed next mark (child `i + 1`, when `hi == i + 2`) taken into the new mark leaves the formatting as it was. */
  lemma NextAbsorbedStyles(doc: Doc, i: nat, lo: nat, hi: nat, s: string, so: nat, eo: nat, m: string, next: string, tag: Tag)
    requires lo <= i < |doc| && so <= eo <= |s|
    requires (hi == i + 1 && next == "") || (hi == i + 2 && hi <= |doc| && next == doc[i + 1].text && StyleOf(doc[i + 1]) == Some(tag))
    requires eo == |s| || next == ""
    ensures Styles(doc[..lo] + [Text(s[..so]), Mark(tag, m + next), Text(s[eo..])] + doc[hi..]) ==
      Styles(doc[..lo] + [Text(s[..so]), Mark(tag, m), Text(s[eo..])] + doc[i + 1..])
  {
    var pre, x, w := doc[..lo], Text(s[..so]), Text(s[eo..]);
    if hi == i + 1 {
      assert m + next == m;
    } else {
      assert doc[i + 1..] == [doc[i + 1]] + doc[hi..];
      AbsorbNextStyles(pre, x, m, w, doc[i + 1], doc[hi..], tag);
    }
  }

  /**
   * A mark `p` of `tag` before `x`, a mark of `tag` and `w`, taken into that
   * mark: when `x` or `p` has no text, the formatting is unchanged.
   */
  lemma AbsorbPrevStyles(pre: Doc, p: Node, x: Node, m: string, w: Node, post: Doc, tag: Tag)
    requires StyleOf(p) == Some(tag) && (x.text == "" || p.text == "")
    ensures Styles(pre + [p] + [x, Mark(tag, m), w] + post) == Styles(pre + [x, Mark(tag, p.text + m), w] + post)
  {
    StylesSpliceThree(pre + [p], x, Mark(tag, m), w, post);
    StylesSnoc(pre, p);
    StylesSpliceThree(pre, x, Mark(tag, p.text + m), w, post);
    AbsorbFill(Styles(pre), Styles(post), p, x, Mark(tag, m), w, Mark(tag, p.text + m));
  }

  /**
   * A mark `q` of `tag` after `x`, a mark of `tag` and `w`, taken into that
   * mark: when `w` or `q` has no text, the formatting is unchanged.
   */
  lemma AbsorbNextStyles(pre: Doc, x: Node, m: string, w: Node, q: Node, post: Doc, tag: Tag)
    requires StyleOf(q) == Some(tag) && (w.text == "" || q.text == "")
    ensures Styles(pre + [x, Mark(tag, m), w] + ([q] + post)) == Styles(pre + [x, Mark(tag, m + q.text), w] + post)
  {
    StylesSpliceThree(pre, x, Mark(tag, m), w, [q] + post);
    StylesCons(q, post);
    StylesSpliceThree(pre, x, Mark(tag, m + q.text), w, post);
    AbsorbNextFill(Styles(pre), Styles(post), x, Mark(tag, m), w, q, Mark(tag, m + q.text));
  }

  /**
   * The runs of `p`, `x`, `y` and `w`, against those of `x`, `y2` and `w`
   * where `y2` has the formatting of `p` and `y` and the length of both: equal
   * when `x` or `p` has no text.
   */
  lemma AbsorbFill(l: seq<Option<Tag>>, z: seq<Option<Tag>>, p: Node, x: Node, y: Node, w: Node, y2: Node)
    requires StyleOf(p) == StyleOf(y) == StyleOf(y2) && |y2.text| == |p.text| + |y.text|
    requires x.text == "" || p.text == ""
    ensures l + Fill(|p.text|, StyleOf(p)) + (Fill(|x.text|, StyleOf(x)) + Fill(|y.text|, StyleOf(y)) + Fill(|w.text|, StyleOf(w))) + z ==
      l + (Fill(|x.text|, StyleOf(x)) + Fill(|y2.text|, StyleOf(y2)) + Fill(|w.text|, StyleOf(w))) + z
  {
    if p.text == "" {
      assert Fill(|p.text|, StyleOf(p)) == [] && Fill(|y2.text|, StyleOf(y2)) == Fill(|y.text|, StyleOf(y));
    } else {
      FillSplit(|y2.text|, |p.text|, StyleOf(p));
      FrontRunJoins(l, z, Fill(|p.text|, StyleOf(p)), Fill(|x.text|, StyleOf(x)), Fill(|y.text|, StyleOf(y)), Fill(|w.text|, StyleOf(w)));
    }
  }

  /** A run moved past an empty run to join the next one. */
  lemma FrontRunJoins<T>(l: seq<T>, z: seq<T>, a: seq<T>, e: seq<T>, b: seq<T>, c: seq<T>)
    requires e == []
    ensures l + a + (e + b + c) + z == l + (e + (a + b) + c) + z
  {
  }

  /**
   * The runs of `x`, `y`, `w` and `q`, against those of `x`, `y2` and `w`
   * where `y2` has the formatting of `y` and `q` and the length of both: equal
   * when `w` or `q` has no text.
   */
  lemma AbsorbNextFill(l: seq<Option<Tag>>, z: seq<Option<Tag>>, x: Node, y: Node, w: Node, q: Node, y2: Node)
    requires StyleOf(q) == StyleOf(y) == StyleOf(y2) && |y2.text| == |y.text| + |q.text|
    requires w.text == "" || q.text == ""
    ensures l + (Fill(|x.text|, StyleOf(x)) + Fill(|y.text|, StyleOf(y)) + Fill(|w.text|, StyleOf(w))) + (Fill(|q.text|, StyleOf(q)) + z) ==
      l + (Fill(|x.text|, StyleOf(x)) + Fill(|y2.text|, StyleOf(y2)) + Fill(|w.text|, StyleOf(w))) + z
  {
    var t := StyleOf(q);
    var fx, fy, fw, fq := Fill(|x.text|, StyleOf(x)), Fill(|y.text|, t), Fill(|w.text|, StyleOf(w)), Fill(|q.text|, t);
    if q.text == "" {
      assert fq == [] && Fill(|y2.text|, t) == fy;
    } else {
      FillSplit(|y2.text|, |y.text|, t);
      assert fw == [];
      assert l + (fx + fy + fw) + (fq + z) == l + (fx + (fy + fq) + fw) + z;
    }
  }

  /**
   * A range across children wrapped in a new mark of `tag`: its characters
   * become `tag`, and every other character keeps its formatting, the cut
   * first and last children keeping their kind.
   */
  lemma AcrossStyles(doc: Doc, r: Range, tag: Tag)
    requires ValidRange(doc, r) && r.start.node < r.end.node
    ensures var i, j, so, eo := r.start.node, r.end.node, r.start.offset, r.end.offset;
      Styles(doc[..i] + [Cut(doc[i], 0, so), Mark(tag, RangeString(doc, r)), Cut(doc[j], eo, |doc[j].text|)] + doc[j + 1..]) ==
      Restyled(doc, r, Some(tag))
  {
    AcrossSpliceStyles(doc, r, tag);
    AcrossRestyled(doc, r, tag);
  }

  /** The formatting of the content with a range across children wrapped, part by part. */
  lemma AcrossSpliceStyles(doc: Doc, r: Range, tag: Tag)
    requires ValidRange(doc, r) && r.start.node < r.end.node
    ensures var i, j, so, eo := r.start.node, r.end.node, r.start.offset, r.end.offset;
      Styles(doc[..i] + [Cut(doc[i], 0, so), Mark(tag, RangeString(doc, r)), Cut(doc[j], eo, |doc[j].text|)] + doc[j + 1..]) ==
      Styles(doc[..i]) + (Fill(so, StyleOf(doc[i])) + Fill(|RangeString(doc, r)|, Some(tag)) + Fill(|doc[j].text| - eo, StyleOf(doc[j]))) +
      Styles(doc[j + 1..])
  {
    var i, j, so, eo := r.start.node, r.end.node, r.start.offset, r.end.offset;
    StylesSpliceThree(doc[..i], Cut(doc[i], 0, so), Mark(tag, RangeString(doc, r)), Cut(doc[j], eo, |doc[j].text|), doc[j + 1..]);
  }

  /** `Restyled` for a range across children, part by part. */
  lemma AcrossRestyled(doc: Doc, r: Range, tag: Tag)
    requires ValidRange(doc, r) && r.start.node < r.end.node
    ensures var i, j, so, eo := r.start.node, r.end.node, r.start.offset, r.end.offset;
      Restyled(doc, r, Some(tag)) ==
      Styles(doc[..i]) + (Fill(so, StyleOf(doc[i])) + Fill(|RangeString(doc, r)|, Some(tag)) + Fill(|doc[j].text| - eo, StyleOf(doc[j]))) +
      Styles(doc[j + 1..])
  {
    var i, j := r.start.node, r.end.node;
    StylesAroundTwo(doc, i, j);
    AcrossLengths(doc, r);
    AcrossRuns(Styles(doc[..i]), Styles(doc[i + 1..j]), Styles(doc[j + 1..]), Styles(doc), |doc[i].text|, StyleOf(doc[i]),
      |doc[j].text|, StyleOf(doc[j]), Some(tag), r.start.offset, r.end.offset, |RangeString(doc, r)|,
      Offset(doc, r.start), Offset(doc, r.end));
  }

  /** The offsets and length of a range across children, counted in the formatting before, between and after its ends. */
  lemma AcrossLengths(doc: Doc, r: Range)
    requires ValidRange(doc, r) && r.start.node < r.end.node
    ensures var i, j := r.start.node, r.end.node;
      Offset(doc, r.start) == |Styles(doc[..i])| + r.start.offset &&
      Offset(doc, r.end) == |Styles(doc[..i])| + |doc[i].text| + |Styles(doc[i + 1..j])| + r.end.offset &&
      |RangeString(doc, r)| == |doc[i].text| - r.start.offset + |Styles(doc[i + 1..j])| + r.end.offset
  {
    TextOfBetween(doc, r.start.node, r.end.node);
  }

  /**
   * A run of `na` characters of `fa`, the middle `m` and a run of `nb` of
   * `fb`, with the characters from `A` (`so` into the first run) to `B` (`eo`
   * into the last) given `t`.
   */
  lemma AcrossRuns(l: seq<Option<Tag>>, m: seq<Option<Tag>>, q: seq<Option<Tag>>, fs: seq<Option<Tag>>,
                   na: nat, fa: Option<Tag>, nb: nat, fb: Option<Tag>, t: Option<Tag>, so: nat, eo: nat, ny: nat, A: nat, B: nat)
    requires so <= na && eo <= nb && ny == na - so + |m| + eo
    requires A == |l| + so && B == |l| + na + |m| + eo
    requires fs == l + Fill(na, fa) + (m + Fill(nb, fb) + q)
    ensures A <= B <= |fs|
    ensures fs[..A] + Fill(B - A, t) + fs[B..] == l + (Fill(so, fa) + Fill(ny, t) + Fill(nb - eo, fb)) + q
  {
    FillSplit(na, so, fa);
    FillSplit(nb, eo, fb);
    assert fs[..A] == l + Fill(so, fa);
    assert fs[B..] == Fill(nb - eo, fb) + q;
  }

  /** Wrapping within one text node: the text is kept when the order is, and the new range covers the same characters. */
  lemma WrapOneText(doc: Doc, r: Range, tag: Tag)
    requires ValidRange(doc, r) && r.start.node == r.end.node && doc[r.start.node].Text?
    requires KeepsOrder(doc, r, tag)
    ensures var e := Wrap(doc, r, tag).edit;
      TextOf(e.doc) == TextOf(doc) &&
      Offset(e.doc, e.sel.start) == Offset(doc, r.start) && Offset(e.doc, e.sel.end) == Offset(doc, r.end)
  {
    var i := r.start.node;
    var ap, an := AbsorbsPrev(doc, i, tag), AbsorbsNext(doc, i, tag);
    WrapOneShape(doc, r, tag);
    OneTextEditText(doc, i, r.start.offset, r.end.offset, tag,
      if ap then i - 1 else i, if an then i + 2 else i + 1,
      if ap then doc[i - 1].text else "", if an then doc[i + 1].text else "");
  }

  /** Wrapping across children keeps the text, and the new range covers the same characters. */
  lemma WrapAcrossText(doc: Doc, r: Range, tag: Tag)
    requires ValidRange(doc, r) && r.start.node < r.end.node
    ensures var e := Wrap(doc, r, tag).edit;
      TextOf(e.doc) == TextOf(doc) &&
      Offset(e.doc, e.sel.start) == Offset(doc, r.start) && Offset(e.doc, e.sel.end) == Offset(doc, r.end)
  {
    var i, j := r.start.node, r.end.node;
    var selected := RangeString(doc, r);
    var x, y, z := Cut(doc[i], 0, r.start.offset), Mark(tag, selected), Cut(doc[j], r.end.offset, |doc[j].text|);
    assert Wrap(doc, r, tag).edit == Edit(doc[..i] + [x, y, z] + doc[j + 1..], Range(Pos(i + 1, 0), Pos(i + 1, |selected|)));
    AcrossEditText(doc, r, tag);
  }

  /** The edit of the other-range branch across children keeps the text and the range's offsets. */
  lemma AcrossEditText(doc: Doc, r: Range, tag: Tag)
    requires ValidRange(doc, r) && r.start.node < r.end.node
    ensures var i, j, so, eo := r.start.node, r.end.node, r.start.offset, r.end.offset;
      var selected := RangeString(doc, r);
      var d := doc[..i] + [Cut(doc[i], 0, so), Mark(tag, selected), Cut(doc[j], eo, |doc[j].text|)] + doc[j + 1..];
      TextOf(d) == TextOf(doc) &&
      ValidPos(d, Pos(i + 1, 0)) && ValidPos(d, Pos(i + 1, |selected|)) &&
      Offset(d, Pos(i + 1, 0)) == Offset(doc, r.start) && Offset(d, Pos(i + 1, |selected|)) == Offset(doc, r.end)
  {
    var i, j, so, eo := r.start.node, r.end.node, r.start.offset, r.end.offset;
    var x, y, z := Cut(doc[i], 0, so), Mark(tag, RangeString(doc, r)), Cut(doc[j], eo, |doc[j].text|);
    assert x.text == doc[i].text[..so] && z.text == doc[j].text[eo..];
    AcrossSplice(doc, i, j, x, y, z, so, eo);
  }

  /** Three nodes that replace `doc[i..j + 1]` and hold its text from `so` in `doc[i]` to `eo` in `doc[j]`. */
  lemma AcrossSplice(doc: Doc, i: nat, j: nat, x: Node, y: Node, z: Node, so: nat, eo: nat)
    requires i < j < |doc| && so <= |doc[i].text| && eo <= |doc[j].text|
    requires x.text == doc[i].text[..so] && z.text == doc[j].text[eo..]
    requires y.text == doc[i].text[so..] + TextOf(doc[i + 1..j]) + doc[j].text[..eo]
    ensures var d := doc[..i] + [x, y, z] + doc[j + 1..];
      TextOf(d) == TextOf(doc) &&
      ValidPos(d, Pos(i + 1, 0)) && ValidPos(d, Pos(i + 1, |y.text|)) &&
      Offset(d, Pos(i + 1, 0)) == |TextOf(doc[..i])| + so &&
      Offset(d, Pos(i + 1, |y.text|)) == |TextOf(doc[..j])| + eo
  {
    var d := doc[..i] + [x, y, z] + doc[j + 1..];
    var a, t, m, u, rest := TextOf(doc[..i]), doc[i].text, TextOf(doc[i + 1..j]), doc[j].text, TextOf(doc[j + 1..]);
    ThreeSpliceEnds(doc, i, j + 1, x, y, z);
    assert TextOf(doc) == a + t + (m + u + rest) && TextOf(doc[..j]) == a + t + m by {
      TextOfAround(doc, i);
      TextOfBetween(doc, i, j);
    }
    AcrossRegroup(a, t, m, u, rest, so, eo, x.text, y.text, z.text);
  }

  lemma AcrossRegroup(a: string, t: string, m: string, u: string, z: string, so: nat, eo: nat,
                      xs: string, ys: string, zs: string)
    requires so <= |t| && eo <= |u|
    requires xs == t[..so] && ys == t[so..] + m + u[..eo] && zs == u[eo..]
    ensures a + xs + ys + zs + z == a + t + (m + u + z)
    ensures |a| + |xs| == |a| + so && |a| + |xs| + |ys| == |a + t + m| + eo
  {
    assert t == t[..so] + t[so..] && u == u[..eo] + u[eo..];
  }

  // ---------------------------------------------------------------------------
  // Properties of the other-range branch
  // ---------------------------------------------------------------------------

  /** Within one text node, a neighbouring mark of the requested tag that has text. */
  predicate MergesInto(doc: Doc, r: Range, tag: Tag)
    requires ValidRange(doc, r)
  {
    var i := r.start.node;
    r.start.node == r.end.node &&
    ((AbsorbsPrev(doc, i, tag) && doc[i - 1].text != "") || (AbsorbsNext(doc, i, tag) && doc[i + 1].text != ""))
  }

  /** The branch merges exactly when a neighbouring mark of the requested tag has text to give. */
  lemma WrapMerges(doc: Doc, r: Range, tag: Tag)
    requires ValidRange(doc, r) && (r.start.node == r.end.node ==> doc[r.start.node].Text?)
    ensures Wrap(doc, r, tag).Merged? <==> MergesInto(doc, r, tag)
    ensures !MergesInto(doc, r, tag) ==> KeepsOrder(doc, r, tag)
  {
    var i := r.start.node;
    if i == r.end.node {
      var prev := if AbsorbsPrev(doc, i, tag) then doc[i - 1].text else "";
      var next := if AbsorbsNext(doc, i, tag) then doc[i + 1].text else "";
      var selected := RangeString(doc, r);
      assert |prev + selected + next| == |prev| + |selected| + |next|;
    }
  }

  /**
   * A range outside every mark that merges with no neighbour: the selected text
   * becomes the whole text of a new mark of the requested tag, which is
   * selected; the text and the offsets of the selection are unchanged, and the
   * textarea and history are updated.
   */
  lemma FormatWrapped(doc: Doc, r: Range, tag: Tag)
    requires ValidRange(doc, r) && !Collapsed(r) && Classify(doc, Some(r)) == NotInside
    requires !MergesInto(doc, r, tag)
    ensures var o := Format(doc, Some(r), tag);
      o.Changed? && o.writesTextarea && o.saves && o.sel.Some? &&
      ValidRange(o.doc, o.sel.value) && o.sel.value.start.node == o.sel.value.end.node &&
      o.doc[o.sel.value.start.node] == Mark(tag, RangeString(doc, r)) &&
      o.sel.value.start.offset == 0 && o.sel.value.end.offset == |RangeString(doc, r)| &&
      TextOf(o.doc) == TextOf(doc) &&
      Offset(o.doc, o.sel.value.start) == Offset(doc, r.start) &&
      Offset(o.doc, o.sel.value.end) == Offset(doc, r.end)
    ensures var o := Format(doc, Some(r), tag);
      o.Changed? && Styles(o.doc) == Restyled(doc, r, Some(tag))
  {
    ClassifyInsideMark(doc, r);
    WrapMerges(doc, r, tag);
    WrapStyles(doc, r, tag);
    var e := Wrap(doc, r, tag).edit;
    if r.start.node == r.end.node {
      WrapOneText(doc, r, tag);
    } else {
      WrapAcrossText(doc, r, tag);
    }
    SweepKeepsContent(e.doc);
    SweepKeepsContent(Sweep(e.doc));
  }

  /**
   * A range outside every mark next to a mark of the requested tag with text:
   * that mark's text joins the selected text in a new mark, the selected part
   * of it is selected, the textarea is written and no history entry is saved.
   * When the absorbed text was adjacent to the selection the text and the
   * offsets are unchanged.
   */
  lemma FormatMerged(doc: Doc, r: Range, tag: Tag)
    requires ValidRange(doc, r) && !Collapsed(r) && Classify(doc, Some(r)) == NotInside
    requires MergesInto(doc, r, tag)
    ensures var o := Format(doc, Some(r), tag);
      var i := r.start.node;
      var prev := if AbsorbsPrev(doc, i, tag) then doc[i - 1].text else "";
      var next := if AbsorbsNext(doc, i, tag) then doc[i + 1].text else "";
      o.Changed? && o.writesTextarea && !o.saves && o.sel.Some? &&
      ValidRange(o.doc, o.sel.value) && o.sel.value.start.node == o.sel.value.end.node &&
      o.doc[o.sel.value.start.node] == Mark(tag, prev + RangeString(doc, r) + next) &&
      o.sel.value.start.offset == |prev| &&
      RangeString(o.doc, o.sel.value) == RangeString(doc, r) &&
      (KeepsOrder(doc, r, tag) ==>
        TextOf(o.doc) == TextOf(doc) &&
        Offset(o.doc, o.sel.value.start) == Offset(doc, r.start) &&
        Offset(o.doc, o.sel.value.end) == Offset(doc, r.end))
    ensures var o := Format(doc, Some(r), tag);
      o.Changed? && (KeepsOrder(doc, r, tag) ==> Styles(o.doc) == Restyled(doc, r, Some(tag)))
  {
    ClassifyInsideMark(doc, r);
    WrapMerges(doc, r, tag);
    FormatOfMerge(doc, r, tag);
    WrapOneShape(doc, r, tag);
    if KeepsOrder(doc, r, tag) {
      WrapOneText(doc, r, tag);
      WrapOneStyles(doc, r, tag);
    }
  }

  /**
   * The merge does not always keep the order of the text: a mark "A" before
   * the text "xyz" with "y" selected gives "x", then the mark "Ay", then "z".
   */
  lemma MergeReorders()
    ensures var doc := [Mark(Sup, "A"), Text("xyz")];
      var r := Range(Pos(1, 1), Pos(1, 2));
      ValidRange(doc, r) && !Collapsed(r) && Classify(doc, Some(r)) == NotInside &&
      Format(doc, Some(r), Sup) == Changed([Text("x"), Mark(Sup, "Ay"), Text("z")], Some(Range(Pos(1, 1), Pos(1, 2))), true, false) &&
      TextOf([Text("x"), Mark(Sup, "Ay"), Text("z")]) != TextOf(doc)
  {
    var doc := [Mark(Sup, "A"), Text("xyz")];
    var r := Range(Pos(1, 1), Pos(1, 2));
    MergeExample();
    FormatOfMerge(doc, r, Sup);
    assert TextOf(doc) == "Axyz" by {
      assert TextOf(doc) == "A" + TextOf([Text("xyz")]);
      assert TextOf([Text("xyz")]) == "xyz" + TextOf([]);
    }
    var out := [Text("x"), Mark(Sup, "Ay"), Text("z")];
    TextOfThree(out[0], out[1], out[2]);
    assert TextOf(out)[0] == 'x';
  }

  /** The example's classification and merge. */
  lemma MergeExample()
    ensures var doc := [Mark(Sup, "A"), Text("xyz")];
      var r := Range(Pos(1, 1), Pos(1, 2));
      ValidRange(doc, r) && !Collapsed(r) && Classify(doc, Some(r)) == NotInside &&
      Wrap(doc, r, Sup) == Merged(Edit([Text("x"), Mark(Sup, "Ay"), Text("z")], Range(Pos(1, 1), Pos(1, 2))))
  {
    MergeExampleOutside();
    MergeExampleWrap();
  }

  /** First half of `MergeExample`: the range selects "y" and lies outside every mark. */
  lemma MergeExampleOutside()
    ensures var doc := [Mark(Sup, "A"), Text("xyz")];
      var r := Range(Pos(1, 1), Pos(1, 2));
      ValidRange(doc, r) && !Collapsed(r) && Classify(doc, Some(r)) == NotInside
  {
    var doc := [Mark(Sup, "A"), Text("xyz")];
    var r := Range(Pos(1, 1), Pos(1, 2));
    assert "xyz"[1..2] == "y";
    assert CloneContents(doc, r) == [Text("y")];
    assert Rejected(Text("y"), ParentName(doc, r), Text("y"));
  }

  /** Second half of `MergeExample`: the mark "A" absorbs the selected "y". */
  lemma MergeExampleWrap()
    ensures var doc := [Mark(Sup, "A"), Text("xyz")];
      var r := Range(Pos(1, 1), Pos(1, 2));
      ValidRange(doc, r) &&
      Wrap(doc, r, Sup) == Merged(Edit([Text("x"), Mark(Sup, "Ay"), Text("z")], Range(Pos(1, 1), Pos(1, 2))))
  {
    var doc := [Mark(Sup, "A"), Text("xyz")];
    var r := Range(Pos(1, 1), Pos(1, 2));
    assert RangeString(doc, r) == "y";
    assert AbsorbsPrev(doc, 1, Sup) && !AbsorbsNext(doc, 1, Sup);
    assert doc[..0] == [] && doc[2..] == [];
    assert "xyz"[..1] == "x" && "xyz"[2..] == "z" && "A" + "y" + "" == "Ay";
  }

  /** A merge is the outcome of the call as it stands: no sweep, no history entry. */
  lemma FormatOfMerge(doc: Doc, r: Range, tag: Tag)
    requires ValidRange(doc, r) && !Collapsed(r) && Classify(doc, Some(r)) == NotInside
    requires r.start.node == r.end.node ==> doc[r.start.node].Text?
    requires Wrap(doc, r, tag).Merged?
    ensures Format(doc, Some(r), tag) == Changed(Wrap(doc, r, tag).edit.doc, Some(Wrap(doc, r, tag).edit.sel), true, false)
  {
  }
}
