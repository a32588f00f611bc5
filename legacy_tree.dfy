/**
 * The tree normalisation of the YUI build
 * (yui/build/moodle-editor_ousupsub-editor/moodle-editor_ousupsub-editor-min.js, line 3):
 * the helpers that unwrap, delete, split and merge elements of the editable
 * content, and `_normaliseTextarea`, which runs them in turn.
 *
 * The content is a tree of values. Every helper of the source walks a copy of
 * a node's child list and moves nodes with `insertBefore`/`appendChild`; here
 * each helper is a function giving the resulting children, with a method that
 * walks the copied child list in a loop and is proved to compute it.
 */
module LegacyTree {

  /**
   * A DOM node: an element with its lower-cased `nodeName`, its `id` and its
   * children, or a text node.
   */
  datatype Tree = Elem(name: string, id: string, children: seq<Tree>) | Text(s: string)

  /** `textContent`: the text of every text node below, in document order. */
  function TextContent(n: Tree): string
    decreases n
  {
    match n
    case Text(s) => s
    case Elem(_, _, cs) => TextOfAll(cs)
  }

  function TextOfAll(ns: seq<Tree>): string
    decreases ns
  {
    if ns == [] then "" else TextContent(ns[0]) + TextOfAll(ns[1..])
  }

  lemma {:induction false} TextOfAllAppend(a: seq<Tree>, b: seq<Tree>)
    ensures TextOfAll(a + b) == TextOfAll(a) + TextOfAll(b)
    decreases |a|
  {
    if a == [] {
      assert a + b == b;
    } else {
      TextOfAllAppend(a[1..], b);
      assert (a + b)[1..] == a[1..] + b;
    }
  }

  lemma TextOfOne(n: Tree)
    ensures TextOfAll([n]) == TextContent(n)
  {
    assert [n][1..] == [];
  }

  /** `childNodes.length` is not zero. */
  predicate HasChildren(n: Tree) {
    n.Elem? && |n.children| > 0
  }

  /** `nodeName.toLowerCase() === t`: text nodes are named `#text`, never one of the tags. */
  predicate Named(n: Tree, t: string) {
    n.Elem? && n.name == t
  }

  /** `s.indexOf(sub) > -1`, case-sensitive. */
  predicate Contains(s: string, sub: string)
    decreases |s|
  {
    (|sub| <= |s| && s[..|sub|] == sub) || (s != [] && Contains(s[1..], sub))
  }

  /** The markers rangy leaves in the content while a selection is saved. */
  predicate IsBoundary(n: Tree) {
    n.Elem? && n.name == "span" && Contains(n.id, "selectionBoundary_")
  }

  /** The test at the head of `_removeNodesByName(e, t)`: `e` is named `t` and is not a boundary marker. */
  predicate Unwraps(n: Tree, t: string) {
    Named(n, t) && !IsBoundary(n)
  }

  // ---------------------------------------------------------------------------
  // _removeNodesByName, as written
  // ---------------------------------------------------------------------------

  /**
   * What a call on a node `e` does, seen from `e`'s parent: `node` is `e`
   * afterwards, `before` the nodes inserted in front of `e`, in order, and
   * `removed` whether `e` was then taken out of its parent.
   */
  datatype Removal = Removal(node: Tree, before: seq<Tree>, removed: bool)

  /** The children of `e`'s parent where `e` was. */
  function Replacement(u: Removal): seq<Tree> {
    u.before + (if u.removed then [] else [u.node])
  }

  /** What the loop over `e`'s copied children leaves in `e` and moves in front of `e`. */
  datatype Moves = Moves(kept: seq<Tree>, moved: seq<Tree>)

  /**
   * `_removeNodesByName(e, t)`: every child with children is first processed
   * itself; when `e` unwraps, each child is then moved in front of `e`, and
   * `e` is removed at the end. A child's own call puts that child's children
   * in front of it, inside `e`; they were not in the copied list, so when `e`
   * unwraps they stay in `e` and leave the document with it.
   */
  function RemoveNodesByName(e: Tree, t: string): (u: Removal)
    decreases e, 1
  {
    match e
    case Text(_) => Removal(e, [], false)
    case Elem(name, id, cs) =>
      var r := Unwraps(e, t);
      var res := RemoveInChildren(cs, t, r);
      Removal(Elem(name, id, res.kept), res.moved, r)
  }

  /** The loop of `_removeNodesByName` over the first `|cs|` copied children; `r` is whether `e` unwraps. */
  function RemoveInChildren(cs: seq<Tree>, t: string, r: bool): Moves
    decreases cs, 0
  {
    if cs == [] then Moves([], [])
    else
      var prev := RemoveInChildren(cs[..|cs| - 1], t, r);
      var n := cs[|cs| - 1];
      var u := if HasChildren(n) then RemoveNodesByName(n, t) else Removal(n, [], false);
      if r then Moves(prev.kept + u.before, prev.moved + [u.node])
      else Moves(prev.kept + Replacement(u), prev.moved)
  }

  /** The loop of `_removeNodesByName`, over a copy of the child list. */
  method RemoveNodesByNameLoop(e: Tree, t: string) returns (u: Removal)
    ensures u == RemoveNodesByName(e, t)
    decreases e
  {
    if e.Text? {
      return Removal(e, [], false);
    }
    var r := Unwraps(e, t);
    var copy := e.children;
    var kept: seq<Tree> := [];
    var moved: seq<Tree> := [];
    for o := 0 to |copy|
      invariant Moves(kept, moved) == RemoveInChildren(copy[..o], t, r)
    {
      var n := copy[o];
      var v := Removal(n, [], false);
      if HasChildren(n) {
        v := RemoveNodesByNameLoop(n, t);
      }
      if r {
        kept := kept + v.before;
        moved := moved + [v.node];
      } else {
        kept := kept + Replacement(v);
      }
      assert copy[..o + 1][..o] == copy[..o];
    }
    assert copy[..|copy|] == copy;
    u := Removal(Elem(e.name, e.id, kept), moved, r);
  }

  /** An element that does not unwrap stays where it is and nothing is put in front of it. */
  lemma RemoveStays(e: Tree, t: string)
    ensures RemoveNodesByName(e, t).removed <==> Unwraps(e, t)
    ensures !Unwraps(e, t) ==> RemoveNodesByName(e, t).before == []
  {
    if e.Elem? {
      StayingMovesNothing(e.children, t);
    }
  }

  lemma {:induction false} StayingMovesNothing(cs: seq<Tree>, t: string)
    ensures RemoveInChildren(cs, t, false).moved == []
    decreases |cs|
  {
    if cs != [] {
      StayingMovesNothing(cs[..|cs| - 1], t);
    }
  }

  /** No element that unwraps has a child that unwraps too, at any depth. */
  predicate NoNesting(n: Tree, t: string)
    decreases n
  {
    n.Elem? ==>
      (forall k | 0 <= k < |n.children| :: NoNesting(n.children[k], t)) &&
      (Unwraps(n, t) ==> forall k | 0 <= k < |n.children| :: !Unwraps(n.children[k], t))
  }

  /**
   * An element named `t` directly inside another loses its text: the inner
   * one's children are put into the outer one, which is then removed, and
   * the inner one comes back empty in front of it.
   */
  lemma NestedUnwrapLosesText()
    ensures RemoveNodesByName(Elem("b", "", [Elem("b", "", [Text("x")])]), "b")
         == Removal(Elem("b", "", [Text("x")]), [Elem("b", "", [])], true)
    ensures TextContent(Elem("b", "", [Elem("b", "", [Text("x")])])) == "x"
    ensures TextOfAll(Replacement(RemoveNodesByName(Elem("b", "", [Elem("b", "", [Text("x")])]), "b"))) == ""
  {
    var inner := Elem("b", "", [Text("x")]);
    assert [inner][..0] == [];
    assert [Text("x")][..0] == [];
    assert RemoveInChildren([Text("x")], "b", true) == Moves([], [Text("x")]);
    assert RemoveNodesByName(inner, "b") == Removal(Elem("b", "", []), [Text("x")], true);
    assert RemoveInChildren([inner], "b", true) == Moves([Text("x")], [Elem("b", "", [])]);
    TextOfOne(Text("x"));
    TextOfOne(Elem("b", "", []));
  }

  /** Without nesting, the code as written does what the corrected version does. */
  lemma {:induction false} RemoveAgreesUnnested(e: Tree, t: string)
    requires NoNesting(e, t)
    ensures RemoveNodesByName(e, t) == RemoveNodesByNameFixed(e, t)
    decreases e, 1
  {
    if e.Elem? {
      AgreesInChildren(e.children, t, Unwraps(e, t));
    }
  }

  lemma {:induction false} AgreesInChildren(cs: seq<Tree>, t: string, r: bool)
    requires forall k | 0 <= k < |cs| :: NoNesting(cs[k], t)
    requires r ==> forall k | 0 <= k < |cs| :: !Unwraps(cs[k], t)
    ensures r ==> RemoveInChildren(cs, t, r) == Moves([], FixedInChildren(cs, t))
    ensures !r ==> RemoveInChildren(cs, t, r) == Moves(FixedInChildren(cs, t), [])
    decreases cs, 0
  {
    if cs != [] {
      var init := cs[..|cs| - 1];
      var n := cs[|cs| - 1];
      AgreesInChildren(init, t, r);
      if HasChildren(n) {
        RemoveAgreesUnnested(n, t);
      }
    }
  }

  /** Without nesting, the text is kept. */
  lemma RemoveKeepsTextUnnested(e: Tree, t: string)
    requires NoNesting(e, t)
    ensures TextOfAll(Replacement(RemoveNodesByName(e, t))) == TextContent(e)
  {
    RemoveAgreesUnnested(e, t);
    FixedKeepsText(e, t);
  }

  // ---------------------------------------------------------------------------
  // _removeNodesByName, corrected
  // ---------------------------------------------------------------------------

  /**
   * The corrected `_removeNodesByName(e, t)`: every child with children is
   * processed first, and when `e` unwraps, everything `e` then holds (the
   * processed children and whatever their own calls put in front of them)
   * moves in front of `e` before `e` is removed.
   */
  function RemoveNodesByNameFixed(e: Tree, t: string): (u: Removal)
    decreases e, 1
  {
    match e
    case Text(_) => Removal(e, [], false)
    case Elem(name, id, cs) =>
      var done := FixedInChildren(cs, t);
      if Unwraps(e, t) then Removal(Elem(name, id, []), done, true)
      else Removal(Elem(name, id, done), [], false)
  }

  /** What the children of `e` are once each of them is processed. */
  function FixedInChildren(cs: seq<Tree>, t: string): seq<Tree>
    decreases cs, 0
  {
    if cs == [] then []
    else
      var n := cs[|cs| - 1];
      FixedInChildren(cs[..|cs| - 1], t) + (if HasChildren(n) then Replacement(RemoveNodesByNameFixed(n, t)) else [n])
  }

  /** The corrected loop: the same walk over the copied children, then every child of `e` moved out. */
  method RemoveNodesByNameFixedLoop(e: Tree, t: string) returns (u: Removal)
    ensures u == RemoveNodesByNameFixed(e, t)
    decreases e
  {
    if e.Text? {
      return Removal(e, [], false);
    }
    var copy := e.children;
    var done: seq<Tree> := [];
    for o := 0 to |copy|
      invariant done == FixedInChildren(copy[..o], t)
    {
      var n := copy[o];
      if HasChildren(n) {
        var v := RemoveNodesByNameFixedLoop(n, t);
        done := done + Replacement(v);
      } else {
        done := done + [n];
      }
      assert copy[..o + 1][..o] == copy[..o];
    }
    assert copy[..|copy|] == copy;
    if Unwraps(e, t) {
      u := Removal(Elem(e.name, e.id, []), done, true);
    } else {
      u := Removal(Elem(e.name, e.id, done), [], false);
    }
  }

  /** No element left that unwraps and has children, at any depth. */
  predicate Settled(n: Tree, t: string)
    decreases n
  {
    !(Unwraps(n, t) && HasChildren(n)) &&
    (n.Elem? ==> forall k | 0 <= k < |n.children| :: Settled(n.children[k], t))
  }

  predicate AllSettled(ns: seq<Tree>, t: string) {
    forall k | 0 <= k < |ns| :: Settled(ns[k], t)
  }

  /** The corrected call keeps the text of `e`, in order. */
  lemma {:induction false} FixedKeepsText(e: Tree, t: string)
    ensures TextOfAll(Replacement(RemoveNodesByNameFixed(e, t))) == TextContent(e)
    decreases e, 1
  {
    if e.Elem? {
      var done := FixedInChildren(e.children, t);
      FixedChildrenKeepText(e.children, t);
      if Unwraps(e, t) {
        assert Replacement(RemoveNodesByNameFixed(e, t)) == done;
      } else {
        assert Replacement(RemoveNodesByNameFixed(e, t)) == [Elem(e.name, e.id, done)];
        TextOfOne(Elem(e.name, e.id, done));
      }
    } else {
      TextOfOne(e);
    }
  }

  lemma {:induction false} FixedChildrenKeepText(cs: seq<Tree>, t: string)
    ensures TextOfAll(FixedInChildren(cs, t)) == TextOfAll(cs)
    decreases cs, 0
  {
    if cs != [] {
      var init := cs[..|cs| - 1];
      var n := cs[|cs| - 1];
      FixedChildrenKeepText(init, t);
      var piece := if HasChildren(n) then Replacement(RemoveNodesByNameFixed(n, t)) else [n];
      if HasChildren(n) {
        FixedKeepsText(n, t);
      } else {
        TextOfOne(n);
      }
      TextOfAllAppend(FixedInChildren(init, t), piece);
      TextOfAllAppend(init, [n]);
      TextOfOne(n);
      assert init + [n] == cs;
    }
  }

  /** After the corrected call no element that unwraps keeps children, at any depth. */
  lemma {:induction false} FixedSettles(e: Tree, t: string)
    ensures AllSettled(Replacement(RemoveNodesByNameFixed(e, t)), t)
    decreases e, 1
  {
    if e.Elem? {
      FixedChildrenSettle(e.children, t);
    }
  }

  lemma {:induction false} FixedChildrenSettle(cs: seq<Tree>, t: string)
    ensures AllSettled(FixedInChildren(cs, t), t)
    decreases cs, 0
  {
    if cs != [] {
      var n := cs[|cs| - 1];
      FixedChildrenSettle(cs[..|cs| - 1], t);
      if HasChildren(n) {
        FixedSettles(n, t);
      } else {
        assert Settled(n, t);
      }
    }
  }

  /** On a settled element that does not unwrap, the corrected call changes nothing. */
  lemma {:induction false} FixedLeavesSettled(e: Tree, t: string)
    requires Settled(e, t) && !Unwraps(e, t)
    ensures RemoveNodesByNameFixed(e, t) == Removal(e, [], false)
    decreases e, 1
  {
    if e.Elem? {
      FixedChildrenLeaveSettled(e.children, t);
    }
  }

  lemma {:induction false} FixedChildrenLeaveSettled(cs: seq<Tree>, t: string)
    requires AllSettled(cs, t)
    ensures FixedInChildren(cs, t) == cs
    decreases cs, 0
  {
    if cs != [] {
      var n := cs[|cs| - 1];
      FixedChildrenLeaveSettled(cs[..|cs| - 1], t);
      if HasChildren(n) {
        FixedLeavesSettled(n, t);
      }
      assert cs[..|cs| - 1] + [n] == cs;
    }
  }

  // ---------------------------------------------------------------------------
  // _removeSingleNodesByName
  // ---------------------------------------------------------------------------

  /**
   * `_removeSingleNodesByName(e, t)`: each copied child with children is
   * processed first, then every child named `t` is removed with everything
   * below it.
   */
  function RemoveSingleNodesByName(e: Tree, t: string): Tree
    decreases e, 1
  {
    match e
    case Text(_) => e
    case Elem(name, id, cs) => Elem(name, id, SingleInChildren(cs, t))
  }

  function SingleInChildren(cs: seq<Tree>, t: string): seq<Tree>
    decreases cs, 0
  {
    if cs == [] then []
    else
      var n := cs[|cs| - 1];
      var done := if HasChildren(n) then RemoveSingleNodesByName(n, t) else n;
      SingleInChildren(cs[..|cs| - 1], t) + (if Named(done, t) then [] else [done])
  }

  method RemoveSingleNodesByNameLoop(e: Tree, t: string) returns (r: Tree)
    ensures r == RemoveSingleNodesByName(e, t)
    decreases e
  {
    if e.Text? {
      return e;
    }
    var copy := e.children;
    var kids: seq<Tree> := [];
    for i := 0 to |copy|
      invariant kids == SingleInChildren(copy[..i], t)
    {
      var n := copy[i];
      if HasChildren(n) {
        n := RemoveSingleNodesByNameLoop(n, t);
      }
      if !Named(n, t) {
        kids := kids + [n];
      }
      assert copy[..i + 1][..i] == copy[..i];
    }
    assert copy[..|copy|] == copy;
    r := Elem(e.name, e.id, kids);
  }

  /** No element named `t` at any depth. */
  predicate Free(n: Tree, t: string)
    decreases n
  {
    !Named(n, t) && (n.Elem? ==> forall k | 0 <= k < |n.children| :: Free(n.children[k], t))
  }

  predicate AllFree(ns: seq<Tree>, t: string) {
    forall k | 0 <= k < |ns| :: Free(ns[k], t)
  }

  /** Every element named `t` has no text (a `br` never has any). */
  predicate Textless(n: Tree, t: string)
    decreases n
  {
    (Named(n, t) ==> TextContent(n) == "") &&
    (n.Elem? ==> forall k | 0 <= k < |n.children| :: Textless(n.children[k], t))
  }

  predicate AllTextless(ns: seq<Tree>, t: string) {
    forall k | 0 <= k < |ns| :: Textless(ns[k], t)
  }

  /** Nothing named `t` is left below `e`. */
  lemma {:induction false} SingleRemovesAll(e: Tree, t: string)
    ensures e.Elem? ==> AllFree(RemoveSingleNodesByName(e, t).children, t)
    decreases e, 1
  {
    if e.Elem? {
      SingleChildrenFree(e.children, t);
    }
  }

  lemma {:induction false} SingleChildrenFree(cs: seq<Tree>, t: string)
    ensures AllFree(SingleInChildren(cs, t), t)
    decreases cs, 0
  {
    if cs != [] {
      var n := cs[|cs| - 1];
      SingleChildrenFree(cs[..|cs| - 1], t);
      if HasChildren(n) {
        SingleRemovesAll(n, t);
      }
    }
  }

  /** When what is named `t` has no text, the text below `e` is kept. */
  lemma {:induction false} SingleKeepsText(e: Tree, t: string)
    requires Textless(e, t)
    ensures TextContent(RemoveSingleNodesByName(e, t)) == TextContent(e)
    decreases e, 1
  {
    if e.Elem? {
      SingleChildrenKeepText(e.children, t);
    }
  }

  lemma {:induction false} SingleChildrenKeepText(cs: seq<Tree>, t: string)
    requires AllTextless(cs, t)
    ensures TextOfAll(SingleInChildren(cs, t)) == TextOfAll(cs)
    decreases cs, 0
  {
    if cs != [] {
      var init := cs[..|cs| - 1];
      var n := cs[|cs| - 1];
      SingleChildrenKeepText(init, t);
      var done := if HasChildren(n) then RemoveSingleNodesByName(n, t) else n;
      var piece := if Named(done, t) then [] else [done];
      assert TextOfAll(piece) == TextContent(n) by {
        assert Textless(n, t);
        if HasChildren(n) {
          SingleKeepsText(n, t);
        }
        TextOfOne(done);
      }
      assert SingleInChildren(cs, t) == SingleInChildren(init, t) + piece;
      TextOfAllAppend(SingleInChildren(init, t), piece);
      TextOfAllAppend(init, [n]);
      TextOfOne(n);
      assert init + [n] == cs;
    }
  }

  /** Where nothing is named `t`, nothing changes. */
  lemma {:induction false} SingleLeavesFree(e: Tree, t: string)
    requires e.Elem? ==> AllFree(e.children, t)
    ensures RemoveSingleNodesByName(e, t) == e
    decreases e, 1
  {
    if e.Elem? {
      SingleChildrenLeaveFree(e.children, t);
    }
  }

  lemma {:induction false} SingleChildrenLeaveFree(cs: seq<Tree>, t: string)
    requires AllFree(cs, t)
    ensures SingleInChildren(cs, t) == cs
    decreases cs, 0
  {
    if cs != [] {
      var n := cs[|cs| - 1];
      SingleChildrenLeaveFree(cs[..|cs| - 1], t);
      if HasChildren(n) {
        SingleLeavesFree(n, t);
      }
      assert cs[..|cs| - 1] + [n] == cs;
    }
  }

  // ---------------------------------------------------------------------------
  // _mergeNodes and _splitParentNode
  // ---------------------------------------------------------------------------

  /**
   * `_mergeNodes(e, into)`: each child of `e` is appended to `into`, in
   * order, and `e` is removed; this is what `into` becomes.
   */
  method MergeNodes(e: Tree, into: Tree) returns (r: Tree)
    requires e.Elem? && into.Elem?
    ensures r.Elem? && r.name == into.name && r.id == into.id
    ensures r.children == into.children + e.children
    ensures TextContent(r) == TextContent(into) + TextContent(e)
  {
    var copy := e.children;
    var kids := into.children;
    for i := 0 to |copy|
      invariant kids == into.children + copy[..i]
    {
      kids := kids + [copy[i]];
      assert copy[..i + 1] == copy[..i] + [copy[i]];
    }
    assert copy[..|copy|] == copy;
    r := Elem(into.name, into.id, kids);
    TextOfAllAppend(into.children, e.children);
  }

  /**
   * `_splitParentNode(e, t)`, from `e`'s parent: `moved` is what is inserted
   * in front of `e` (the children of each child named `t`, and every other
   * child wrapped in a new element named `t`), `kept` what `e` still holds
   * (its children named `t`, emptied).
   */
  function SplitParentNode(e: Tree, t: string): (s: Moves)
    requires e.Elem?
    ensures TextOfAll(s.moved) == TextContent(e)
    ensures TextOfAll(s.kept) == ""
    ensures forall k | 0 <= k < |s.kept| :: Named(s.kept[k], t) && s.kept[k].children == []
  {
    SplitInChildren(e.children, t)
  }

  function SplitInChildren(cs: seq<Tree>, t: string): (s: Moves)
    ensures TextOfAll(s.moved) == TextOfAll(cs)
    ensures TextOfAll(s.kept) == ""
    ensures forall k | 0 <= k < |s.kept| :: Named(s.kept[k], t) && s.kept[k].children == []
    decreases |cs|
  {
    if cs == [] then Moves([], [])
    else
      var init := cs[..|cs| - 1];
      var n := cs[|cs| - 1];
      var prev := SplitInChildren(init, t);
      var piece := if Named(n, t) then n.children else [Elem(t, "", [n])];
      var shell := if Named(n, t) then [Elem(n.name, n.id, [])] else [];
      assert TextOfAll(piece) == TextContent(n) by {
        if !Named(n, t) {
          TextOfOne(Elem(t, "", [n]));
          TextOfOne(n);
        }
      }
      assert TextOfAll(shell) == "" by {
        if Named(n, t) {
          TextOfOne(Elem(n.name, n.id, []));
        }
      }
      TextOfAllAppend(prev.moved, piece);
      TextOfAllAppend(prev.kept, shell);
      TextOfAllAppend(init, [n]);
      TextOfOne(n);
      assert init + [n] == cs;
      Moves(prev.kept + shell, prev.moved + piece)
  }

  /** The loop of `_splitParentNode` over the copied children of `e`. */
  method SplitParentNodeLoop(e: Tree, t: string) returns (s: Moves)
    requires e.Elem?
    ensures s == SplitParentNode(e, t)
  {
    var copy := e.children;
    var shells: seq<Tree> := [];
    var inserted: seq<Tree> := [];
    for i := 0 to |copy|
      invariant Moves(shells, inserted) == SplitInChildren(copy[..i], t)
    {
      var n := copy[i];
      if Named(n, t) {
        inserted := inserted + n.children;
        shells := shells + [Elem(n.name, n.id, [])];
      } else {
        inserted := inserted + [Elem(t, "", [n])];
      }
      assert copy[..i + 1][..i] == copy[..i];
    }
    assert copy[..|copy|] == copy;
    s := Moves(shells, inserted);
  }

  // ---------------------------------------------------------------------------
  // _normaliseTagInTextarea(t): one step of the first loop
  // ---------------------------------------------------------------------------

  /** What the first loop does with an element named `t`, by where it sits. */
  datatype FirstPassCase =
    | AtTop         // its parent is the content element: skipped
    | OnlyChild     // the only child of a parent named `t`
    | SplitParent   // one of several children of a parent named `t`
    | InOtherParent // inside an element of another name

  function FirstPassCaseOf(atTop: bool, p: Tree, t: string): FirstPassCase
    requires p.Elem?
  {
    if atTop then AtTop
    else if |p.children| == 1 && Named(p, t) then OnlyChild
    else if Named(p, t) then SplitParent
    else InOtherParent
  }

  /**
   * One step of the first loop of `_normaliseTagInTextarea(t)` for the child
   * `k` (named `t`) of `p`; `atTop` says whether `p` is the content element.
   * The result is what stands where `p` stood. The element itself is always
   * unwrapped, and so is `p` when it is named `t`; when `p` has other
   * children too, it is first split, so that each of them ends up in its own
   * element named `t` in front of `p`. The unwrapping is the corrected
   * `RemoveNodesByNameFixed`, not `_removeNodesByName` as written, which
   * loses the text of an element named `t` directly inside another one.
   */
  function FirstPassStep(atTop: bool, p: Tree, k: nat, t: string): (r: seq<Tree>)
    requires p.Elem? && k < |p.children| && Named(p.children[k], t)
  {
    var node := p.children[k];
    match FirstPassCaseOf(atTop, p, t)
    case AtTop => [p]
    case OnlyChild =>
      Replacement(RemoveNodesByNameFixed(Elem(p.name, p.id, Replacement(RemoveNodesByNameFixed(node, t))), t))
    case SplitParent =>
      // After the split `p` holds only emptied children named `t`; the
      // element's own shell is then removed, and `p` unwrapped.
      var shell := Elem(node.name, node.id, []);
      var left := SplitInChildren(p.children[..k], t).kept;
      var right := SplitInChildren(p.children[k + 1..], t).kept;
      var remains := Elem(p.name, p.id, left + Replacement(RemoveNodesByNameFixed(shell, t)) + right);
      SplitParentNode(p, t).moved + Replacement(RemoveNodesByNameFixed(remains, t))
    case InOtherParent =>
      [Elem(p.name, p.id, p.children[..k] + Replacement(RemoveNodesByNameFixed(node, t)) + p.children[k + 1..])]
  }

  /** Each step of the first loop keeps the text where it was. */
  lemma FirstPassStepKeepsText(atTop: bool, p: Tree, k: nat, t: string)
    requires p.Elem? && k < |p.children| && Named(p.children[k], t)
    ensures TextOfAll(FirstPassStep(atTop, p, k, t)) == TextContent(p)
  {
    var node := p.children[k];
    match FirstPassCaseOf(atTop, p, t)
    case AtTop =>
      TextOfOne(p);
    case OnlyChild =>
      OnlyChildKeepsText(p, t);
    case SplitParent =>
      SplitStepKeepsText(p, k, t);
    case InOtherParent =>
      var done := Replacement(RemoveNodesByNameFixed(node, t));
      FixedKeepsText(node, t);
      SpliceKeepsText(p.children, k, done);
      TextOfOne(Elem(p.name, p.id, p.children[..k] + done + p.children[k + 1..]));
  }

  lemma OnlyChildKeepsText(p: Tree, t: string)
    requires p.Elem? && |p.children| == 1
    ensures TextOfAll(Replacement(RemoveNodesByNameFixed(
      Elem(p.name, p.id, Replacement(RemoveNodesByNameFixed(p.children[0], t))), t))) == TextContent(p)
  {
    var node := p.children[0];
    FixedKeepsText(node, t);
    FixedKeepsText(Elem(p.name, p.id, Replacement(RemoveNodesByNameFixed(node, t))), t);
    assert p.children == [node];
    TextOfOne(node);
  }

  lemma SplitStepKeepsText(p: Tree, k: nat, t: string)
    requires p.Elem? && k < |p.children| && Named(p.children[k], t)
    ensures
      var node := p.children[k];
      var shell := Elem(node.name, node.id, []);
      var left := SplitInChildren(p.children[..k], t).kept;
      var right := SplitInChildren(p.children[k + 1..], t).kept;
      var remains := Elem(p.name, p.id, left + Replacement(RemoveNodesByNameFixed(shell, t)) + right);
      TextOfAll(SplitParentNode(p, t).moved + Replacement(RemoveNodesByNameFixed(remains, t))) == TextContent(p)
  {
    var node := p.children[k];
    var shell := Elem(node.name, node.id, []);
    var left := SplitInChildren(p.children[..k], t).kept;
    var right := SplitInChildren(p.children[k + 1..], t).kept;
    var middle := Replacement(RemoveNodesByNameFixed(shell, t));
    FixedKeepsText(shell, t);
    assert TextContent(shell) == "";
    var remains := Elem(p.name, p.id, left + middle + right);
    TextOfAllAppend(left + middle, right);
    TextOfAllAppend(left, middle);
    FixedKeepsText(remains, t);
    TextOfAllAppend(SplitParentNode(p, t).moved, Replacement(RemoveNodesByNameFixed(remains, t)));
  }

  /** Putting pieces with the same text in place of one child keeps the text of the list. */
  lemma SpliceKeepsText(cs: seq<Tree>, k: nat, done: seq<Tree>)
    requires k < |cs| && TextOfAll(done) == TextContent(cs[k])
    ensures TextOfAll(cs[..k] + done + cs[k + 1..]) == TextOfAll(cs)
  {
    TextOfAllAppend(cs[..k] + done, cs[k + 1..]);
    TextOfAllAppend(cs[..k], done);
    TextOfAllAppend(cs[..k] + [cs[k]], cs[k + 1..]);
    TextOfAllAppend(cs[..k], [cs[k]]);
    TextOfOne(cs[k]);
    assert cs[..k] + [cs[k]] + cs[k + 1..] == cs;
  }

  /** A `sup` inside a `span` is unwrapped by the first loop, leaving its text in the `span`. */
  lemma SupInSpanUnwrapped(id: string, x: string)
    ensures FirstPassStep(false, Elem("span", id, [Elem("sup", "", [Text(x)])]), 0, "sup")
         == [Elem("span", id, [Text(x)])]
  {
    OnlyTextChildUnwrapped("span", id, Elem("sup", "", [Text(x)]), "sup");
  }

  /**
   * Without the first loop of `_normaliseTagInTextarea`, the normalisation
   * keeps a `sup` whose parent is an ordinary span: only the span is
   * unwrapped, where the first loop would leave the bare text.
   */
  lemma NormaliseKeepsSupInSpan(x: string)
    requires x != ""
    ensures var sup := Elem("sup", "", [Text(x)]);
      NormaliseTextarea([Elem("span", "", [sup])]) == [sup]
  {
    var sup := Elem("sup", "", [Text(x)]);
    var span := Elem("span", "", [sup]);
    assert SingleInChildren([Text(x)], "br") == [Text(x)];
    assert SingleInChildren([sup], "br") == [sup];
    assert SingleInChildren([span], "br") == [span];
    forall k | 0 <= k < |UnwrappedTags|
      ensures AllSettled([span], UnwrappedTags[k])
    {
      SpanOfSupSettled(x, UnwrappedTags[k]);
    }
    UnwrapTagsLeaveSettled([span], UnwrappedTags);
    SpanOfSupUnmerged(x, "sup");
    SpanOfSupUnmerged(x, "sub");
    assert !IsBoundary(span) by {
      assert !Contains("", "selectionBoundary_");
    }
    SpanOfSupSettled(x, "span");
    FixedChildrenLeaveSettled([sup], "span");
    assert FixedInChildren([span], "span") == [sup];
    assert NormalizeAll([Text(x)]) == [Text(x)];
    assert NormalizeAll([sup]) == [sup];
  }

  /** The span of the example, and its `sup`, are settled for any other name. */
  lemma SpanOfSupSettled(x: string, t: string)
    requires t != "sup"
    ensures AllSettled([Elem("sup", "", [Text(x)])], t)
    ensures t != "span" ==> AllSettled([Elem("span", "", [Elem("sup", "", [Text(x)])])], t)
  {
    assert Settled(Text(x), t);
    assert Settled(Elem("sup", "", [Text(x)]), t);
  }

  /** The merge passes find no run in the span of the example. */
  lemma SpanOfSupUnmerged(x: string, t: string)
    requires t != "span"
    ensures MergePass([], [Elem("span", "", [Elem("sup", "", [Text(x)])])], t) == [Elem("span", "", [Elem("sup", "", [Text(x)])])]
  {
    MergePassOne(Text(x), t);
    MergePassOne(Elem("sup", "", [Text(x)]), t);
    MergePassOne(Elem("span", "", [Elem("sup", "", [Text(x)])]), t);
  }

  /** The merge pass over a single node only visits its children. */
  lemma MergePassOne(n: Tree, t: string)
    ensures MergePass([], [n], t) == [if n.Elem? then Elem(n.name, n.id, MergePass([], n.children, t)) else n]
  {
    assert [n][1..] == [];
  }

  /** Unwrapping names no element is settled for changes nothing. */
  lemma {:induction false} UnwrapTagsLeaveSettled(cs: seq<Tree>, tags: seq<string>)
    requires forall k | 0 <= k < |tags| :: AllSettled(cs, tags[k])
    ensures UnwrapTags(cs, tags) == cs
    decreases |tags|
  {
    if tags != [] {
      UnwrapTagsLeaveSettled(cs, tags[..|tags| - 1]);
      FixedChildrenLeaveSettled(cs, tags[|tags| - 1]);
    }
  }

  /** An element named `t` holding only text, alone in a parent of another name, leaves its text in the parent. */
  lemma OnlyTextChildUnwrapped(name: string, id: string, n: Tree, t: string)
    requires name != t && Unwraps(n, t)
    requires forall j | 0 <= j < |n.children| :: n.children[j].Text?
    ensures FirstPassStep(false, Elem(name, id, [n]), 0, t) == [Elem(name, id, n.children)]
  {
    var p := Elem(name, id, [n]);
    forall j | 0 <= j < |n.children| ensures Settled(n.children[j], t) {
    }
    FixedChildrenLeaveSettled(n.children, t);
    assert Replacement(RemoveNodesByNameFixed(n, t)) == n.children;
    assert FirstPassCaseOf(false, p, t) == InOtherParent;
    assert p.children[..0] == [] && p.children[1..] == [];
    assert p.children[..0] + n.children + p.children[1..] == n.children;
  }

  // ---------------------------------------------------------------------------
  // _normaliseTagInTextarea(t): the second loop
  // ---------------------------------------------------------------------------

  /**
   * The second loop of `_normaliseTagInTextarea(t)`, in document order: `acc`
   * holds the siblings already visited, `rest` those still to come. An
   * element named `t` whose previous sibling is named `t` too is merged into
   * it (`_mergeNodes`), and its children then follow that sibling's children,
   * to be visited in turn; any other element has its own children visited.
   */
  function MergePass(acc: seq<Tree>, rest: seq<Tree>, t: string): seq<Tree>
    decreases rest
  {
    if rest == [] then acc
    else
      var n := rest[0];
      if Named(n, t) && acc != [] && Named(acc[|acc| - 1], t) then
        var p := acc[|acc| - 1];
        MergePass(acc[..|acc| - 1] + [Elem(p.name, p.id, MergePass(p.children, n.children, t))], rest[1..], t)
      else
        var visited := if n.Elem? then Elem(n.name, n.id, MergePass([], n.children, t)) else n;
        MergePass(acc + [visited], rest[1..], t)
  }

  /** The second loop over the content's children, visiting the descendants of each in turn. */
  method MergePassLoop(acc: seq<Tree>, rest: seq<Tree>, t: string) returns (r: seq<Tree>)
    ensures r == MergePass(acc, rest, t)
    decreases rest
  {
    var out := acc;
    for i := 0 to |rest|
      invariant MergePass(out, rest[i..], t) == MergePass(acc, rest, t)
    {
      var n := rest[i];
      assert rest[i..][0] == n && rest[i..][1..] == rest[i + 1..];
      if Named(n, t) && out != [] && Named(out[|out| - 1], t) {
        var p := out[|out| - 1];
        var merged := MergePassLoop(p.children, n.children, t);
        out := out[..|out| - 1] + [Elem(p.name, p.id, merged)];
      } else if n.Elem? {
        var inner := MergePassLoop([], n.children, t);
        out := out + [Elem(n.name, n.id, inner)];
      } else {
        out := out + [n];
      }
    }
    assert rest[|rest|..] == [];
    r := out;
  }

  /** No two adjacent siblings are both named `t`, at any depth. */
  predicate NoRuns(s: seq<Tree>, t: string)
    decreases s
  {
    (forall k | 1 <= k < |s| :: !(Named(s[k - 1], t) && Named(s[k], t))) &&
    (forall k | 0 <= k < |s| :: s[k].Elem? ==> NoRuns(s[k].children, t))
  }

  /** The merge pass keeps the text, in order. */
  lemma {:induction false} MergePassKeepsText(acc: seq<Tree>, rest: seq<Tree>, t: string)
    ensures TextOfAll(MergePass(acc, rest, t)) == TextOfAll(acc) + TextOfAll(rest)
    decreases rest
  {
    if rest != [] {
      var n := rest[0];
      assert TextOfAll(rest) == TextContent(n) + TextOfAll(rest[1..]);
      if Named(n, t) && acc != [] && Named(acc[|acc| - 1], t) {
        var p := acc[|acc| - 1];
        var init := acc[..|acc| - 1];
        var merged := Elem(p.name, p.id, MergePass(p.children, n.children, t));
        assert MergePass(acc, rest, t) == MergePass(init + [merged], rest[1..], t);
        MergePassKeepsText(p.children, n.children, t);
        assert TextContent(merged) == TextContent(p) + TextContent(n);
        MergePassKeepsText(init + [merged], rest[1..], t);
        MergeLastText(acc, merged);
      } else {
        var visited := if n.Elem? then Elem(n.name, n.id, MergePass([], n.children, t)) else n;
        assert MergePass(acc, rest, t) == MergePass(acc + [visited], rest[1..], t);
        if n.Elem? {
          MergePassKeepsText([], n.children, t);
        }
        assert TextContent(visited) == TextContent(n);
        MergePassKeepsText(acc + [visited], rest[1..], t);
        TextOfAllAppend(acc, [visited]);
        TextOfOne(visited);
      }
    }
  }

  lemma MergeLastText(acc: seq<Tree>, merged: Tree)
    requires acc != []
    ensures TextOfAll(acc[..|acc| - 1] + [merged]) == TextOfAll(acc[..|acc| - 1]) + TextContent(merged)
    ensures TextOfAll(acc) == TextOfAll(acc[..|acc| - 1]) + TextContent(acc[|acc| - 1])
  {
    var init := acc[..|acc| - 1];
    TextOfAllAppend(init, [merged]);
    TextOfOne(merged);
    TextOfAllAppend(init, [acc[|acc| - 1]]);
    TextOfOne(acc[|acc| - 1]);
    assert init + [acc[|acc| - 1]] == acc;
  }

  lemma NoRunsSnoc(s: seq<Tree>, x: Tree, t: string)
    requires NoRuns(s, t)
    requires x.Elem? ==> NoRuns(x.children, t)
    requires !(s != [] && Named(s[|s| - 1], t) && Named(x, t))
    ensures NoRuns(s + [x], t)
  {
    var s' := s + [x];
    forall k | 0 <= k < |s'| && s'[k].Elem? ensures NoRuns(s'[k].children, t) {
      if k < |s| {
        assert s'[k] == s[k];
      }
    }
  }

  lemma NoRunsReplaceLast(s: seq<Tree>, x: Tree, t: string)
    requires NoRuns(s, t) && s != []
    requires x.Elem? && Named(s[|s| - 1], t) && Named(x, t) && NoRuns(x.children, t)
    ensures NoRuns(s[..|s| - 1] + [x], t)
  {
    var s' := s[..|s| - 1] + [x];
    forall k | 0 <= k < |s'| && s'[k].Elem? ensures NoRuns(s'[k].children, t) {
      if k < |s| - 1 {
        assert s'[k] == s[k];
      }
    }
    forall k | 1 <= k < |s'| ensures !(Named(s'[k - 1], t) && Named(s'[k], t)) {
      assert Named(s'[k], t) == Named(s[k], t);
      assert s'[k - 1] == s[k - 1];
    }
  }

  /** After the merge pass no two adjacent siblings are both named `t`, at any depth. */
  lemma {:induction false} MergePassLeavesNoRuns(acc: seq<Tree>, rest: seq<Tree>, t: string)
    requires NoRuns(acc, t)
    ensures NoRuns(MergePass(acc, rest, t), t)
    decreases rest
  {
    if rest != [] {
      var n := rest[0];
      if Named(n, t) && acc != [] && Named(acc[|acc| - 1], t) {
        var p := acc[|acc| - 1];
        assert NoRuns(p.children, t);
        MergePassLeavesNoRuns(p.children, n.children, t);
        var merged := Elem(p.name, p.id, MergePass(p.children, n.children, t));
        NoRunsReplaceLast(acc, merged, t);
        MergePassLeavesNoRuns(acc[..|acc| - 1] + [merged], rest[1..], t);
      } else {
        var visited := if n.Elem? then Elem(n.name, n.id, MergePass([], n.children, t)) else n;
        if n.Elem? {
          MergePassLeavesNoRuns([], n.children, t);
        }
        NoRunsSnoc(acc, visited, t);
        MergePassLeavesNoRuns(acc + [visited], rest[1..], t);
      }
    }
  }

  // ---------------------------------------------------------------------------
  // normalize() and _normaliseTextarea
  // ---------------------------------------------------------------------------

  /**
   * The DOM's `normalize()` on a child list: empty text nodes are dropped and
   * adjacent text nodes joined, at every depth.
   */
  function NormalizeAll(cs: seq<Tree>): seq<Tree>
    decreases cs
  {
    if cs == [] then []
    else
      var prev := NormalizeAll(cs[..|cs| - 1]);
      var n := cs[|cs| - 1];
      match n
      case Text(s) =>
        if s == "" then prev
        else if prev != [] && prev[|prev| - 1].Text? then prev[..|prev| - 1] + [Text(prev[|prev| - 1].s + s)]
        else prev + [n]
      case Elem(name, id, ch) => prev + [Elem(name, id, NormalizeAll(ch))]
  }

  /** No empty text node and no two adjacent text nodes, at any depth. */
  predicate Normal(cs: seq<Tree>)
    decreases cs
  {
    (forall k | 0 <= k < |cs| :: cs[k].Text? ==> cs[k].s != "") &&
    (forall k | 1 <= k < |cs| :: !(cs[k - 1].Text? && cs[k].Text?)) &&
    (forall k | 0 <= k < |cs| :: cs[k].Elem? ==> Normal(cs[k].children))
  }

  lemma {:induction false} NormalizeKeepsText(cs: seq<Tree>)
    ensures TextOfAll(NormalizeAll(cs)) == TextOfAll(cs)
    decreases cs
  {
    if cs != [] {
      var init := cs[..|cs| - 1];
      var n := cs[|cs| - 1];
      var prev := NormalizeAll(init);
      NormalizeKeepsText(init);
      SnocText(init, n);
      assert init + [n] == cs;
      match n
      case Text(s) =>
        if s == "" {
        } else if prev != [] && prev[|prev| - 1].Text? {
          JoinText(prev, s);
        } else {
          SnocText(prev, n);
        }
      case Elem(name, id, ch) =>
        NormalizeKeepsText(ch);
        SnocText(prev, Elem(name, id, NormalizeAll(ch)));
    }
  }

  lemma SnocText(s: seq<Tree>, x: Tree)
    ensures TextOfAll(s + [x]) == TextOfAll(s) + TextContent(x)
  {
    TextOfAllAppend(s, [x]);
    TextOfOne(x);
  }

  lemma JoinText(prev: seq<Tree>, s: string)
    requires prev != [] && prev[|prev| - 1].Text?
    ensures TextOfAll(prev[..|prev| - 1] + [Text(prev[|prev| - 1].s + s)]) == TextOfAll(prev) + s
  {
    var init := prev[..|prev| - 1];
    var last := prev[|prev| - 1].s;
    assert prev == init + [Text(last)];
    AppendToLastText(init, last, s);
  }

  lemma AppendToLastText(init: seq<Tree>, a: string, s: string)
    ensures TextOfAll(init + [Text(a + s)]) == TextOfAll(init + [Text(a)]) + s
  {
    SnocText(init, Text(a + s));
    SnocText(init, Text(a));
  }

  lemma {:induction false} NormalizeIsNormal(cs: seq<Tree>)
    ensures Normal(NormalizeAll(cs))
    decreases cs
  {
    if cs != [] {
      var init := cs[..|cs| - 1];
      var n := cs[|cs| - 1];
      var prev := NormalizeAll(init);
      NormalizeIsNormal(init);
      match n
      case Text(s) =>
        if s == "" {
        } else if prev != [] && prev[|prev| - 1].Text? {
          NormalJoin(prev, s);
        } else {
          NormalSnoc(prev, n);
        }
      case Elem(name, id, ch) =>
        NormalizeIsNormal(ch);
        NormalSnoc(prev, Elem(name, id, NormalizeAll(ch)));
    }
  }

  lemma NormalSnoc(prev: seq<Tree>, x: Tree)
    requires Normal(prev)
    requires x.Text? ==> x.s != "" && (prev == [] || !prev[|prev| - 1].Text?)
    requires x.Elem? ==> Normal(x.children)
    ensures Normal(prev + [x])
  {
    var r := prev + [x];
    assert forall k | 0 <= k < |r| - 1 :: r[k] == prev[k];
  }

  lemma NormalJoin(prev: seq<Tree>, s: string)
    requires Normal(prev) && prev != [] && prev[|prev| - 1].Text? && s != ""
    ensures Normal(prev[..|prev| - 1] + [Text(prev[|prev| - 1].s + s)])
  {
    var r := prev[..|prev| - 1] + [Text(prev[|prev| - 1].s + s)];
    assert forall k | 0 <= k < |r| - 1 :: r[k] == prev[k];
  }

  /** `normalize()` touches only text nodes: what was settled or free of `t` stays so. */
  lemma {:induction false} NormalizeKeepsElements(cs: seq<Tree>, t: string)
    ensures AllSettled(cs, t) ==> AllSettled(NormalizeAll(cs), t)
    ensures AllFree(cs, t) ==> AllFree(NormalizeAll(cs), t)
    decreases cs
  {
    if cs != [] {
      var init := cs[..|cs| - 1];
      var n := cs[|cs| - 1];
      var prev := NormalizeAll(init);
      NormalizeKeepsElements(init, t);
      assert AllSettled(cs, t) ==> AllSettled(init, t);
      assert AllFree(cs, t) ==> AllFree(init, t);
      match n
      case Text(s) =>
        if s == "" {
        } else if prev != [] && prev[|prev| - 1].Text? {
          var r := prev[..|prev| - 1] + [Text(prev[|prev| - 1].s + s)];
          assert forall k | 0 <= k < |r| - 1 :: r[k] == prev[k];
        } else {
        }
      case Elem(name, id, ch) =>
        NormalizeKeepsElements(ch, t);
        var e := Elem(name, id, NormalizeAll(ch));
        assert Settled(n, t) ==> Settled(e, t) by {
          if Settled(n, t) && Unwraps(n, t) {
            assert ch == [];
          }
        }
    }
  }

  /** The tags whose elements `_normaliseTextarea` unwraps before it normalises `sup` and `sub`. */
  const UnwrappedTags: seq<string> := ["p", "b", "i", "u", "ul", "ol", "li"]

  /** The content's children after the corrected unwrap of each tag of `tags` in turn. */
  function UnwrapTags(cs: seq<Tree>, tags: seq<string>): seq<Tree>
    decreases |tags|
  {
    if tags == [] then cs
    else FixedInChildren(UnwrapTags(cs, tags[..|tags| - 1]), tags[|tags| - 1])
  }

  /**
   * `_normaliseTextarea()` on the children of the content element (which is
   * never named after one of the tags): `br` elements deleted, `p`, `b`,
   * `i`, `u`, `ul`, `ol` and `li` unwrapped, runs of `sup` and then of `sub`
   * merged, `span` unwrapped, then `normalize()`.
   */
  function NormaliseTextarea(cs: seq<Tree>): seq<Tree> {
    var noBreaks := SingleInChildren(cs, "br");
    var unwrapped := UnwrapTags(noBreaks, UnwrappedTags);
    var sups := MergePass([], unwrapped, "sup");
    var subs := MergePass([], sups, "sub");
    NormalizeAll(FixedInChildren(subs, "span"))
  }

  method NormaliseTextareaSteps(cs: seq<Tree>) returns (r: seq<Tree>)
    ensures r == NormaliseTextarea(cs)
  {
    var root := RemoveSingleNodesByNameLoop(Elem("div", "", cs), "br");
    var kids := root.children;
    var n := UnwrappedTags;
    for i := 0 to |n|
      invariant kids == UnwrapTags(root.children, n[..i])
    {
      var u := RemoveNodesByNameFixedLoop(Elem("div", "", kids), n[i]);
      ContentStays(kids, n[i]);
      kids := u.node.children;
      assert n[..i + 1][..i] == n[..i];
    }
    assert n[..|n|] == n;
    kids := MergePassLoop([], kids, "sup");
    kids := MergePassLoop([], kids, "sub");
    var u := RemoveNodesByNameFixedLoop(Elem("div", "", kids), "span");
    ContentStays(kids, "span");
    r := NormalizeAll(u.node.children);
  }

  /** The content element (a `div`) is never unwrapped: its children are processed in place. */
  lemma ContentStays(cs: seq<Tree>, t: string)
    requires t in UnwrappedTags || t == "span"
    ensures RemoveNodesByNameFixed(Elem("div", "", cs), t).node.children == FixedInChildren(cs, t)
  {
    assert t != "div";
  }

  lemma {:induction false} UnwrapTagsKeepText(cs: seq<Tree>, tags: seq<string>)
    ensures TextOfAll(UnwrapTags(cs, tags)) == TextOfAll(cs)
    decreases |tags|
  {
    if tags != [] {
      UnwrapTagsKeepText(cs, tags[..|tags| - 1]);
      FixedChildrenKeepText(UnwrapTags(cs, tags[..|tags| - 1]), tags[|tags| - 1]);
    }
  }

  /** With `br` elements empty (as they always are), normalising keeps the text, in order. */
  lemma NormaliseKeepsText(cs: seq<Tree>)
    requires AllTextless(cs, "br")
    ensures TextOfAll(NormaliseTextarea(cs)) == TextOfAll(cs)
  {
    var noBreaks := SingleInChildren(cs, "br");
    SingleChildrenKeepText(cs, "br");
    var unwrapped := UnwrapTags(noBreaks, UnwrappedTags);
    UnwrapTagsKeepText(noBreaks, UnwrappedTags);
    var sups := MergePass([], unwrapped, "sup");
    MergePassKeepsText([], unwrapped, "sup");
    var subs := MergePass([], sups, "sub");
    MergePassKeepsText([], sups, "sub");
    FixedChildrenKeepText(subs, "span");
    NormalizeKeepsText(FixedInChildren(subs, "span"));
  }

  /** The corrected unwrap of any tag keeps a tree free of `t` free of it. */
  lemma {:induction false} FixedKeepsFree(e: Tree, u: string, t: string)
    requires Free(e, t)
    ensures AllFree(Replacement(RemoveNodesByNameFixed(e, u)), t)
    decreases e, 1
  {
    if e.Elem? {
      FixedChildrenKeepFree(e.children, u, t);
    }
  }

  lemma {:induction false} FixedChildrenKeepFree(cs: seq<Tree>, u: string, t: string)
    requires AllFree(cs, t)
    ensures AllFree(FixedInChildren(cs, u), t)
    decreases cs, 0
  {
    if cs != [] {
      var n := cs[|cs| - 1];
      FixedChildrenKeepFree(cs[..|cs| - 1], u, t);
      if HasChildren(n) {
        FixedKeepsFree(n, u, t);
      }
    }
  }

  lemma {:induction false} UnwrapTagsKeepFree(cs: seq<Tree>, tags: seq<string>, t: string)
    requires AllFree(cs, t)
    ensures AllFree(UnwrapTags(cs, tags), t)
    decreases |tags|
  {
    if tags != [] {
      UnwrapTagsKeepFree(cs, tags[..|tags| - 1], t);
      FixedChildrenKeepFree(UnwrapTags(cs, tags[..|tags| - 1]), tags[|tags| - 1], t);
    }
  }

  /** Merging renames nothing: what was free of `t` stays so. */
  lemma {:induction false} MergePassKeepsFree(acc: seq<Tree>, rest: seq<Tree>, u: string, t: string)
    requires AllFree(acc, t) && AllFree(rest, t)
    ensures AllFree(MergePass(acc, rest, u), t)
    decreases rest
  {
    if rest != [] {
      var n := rest[0];
      assert Free(n, t);
      assert AllFree(rest[1..], t);
      if Named(n, u) && acc != [] && Named(acc[|acc| - 1], u) {
        var p := acc[|acc| - 1];
        MergePassKeepsFree(p.children, n.children, u, t);
        var merged := Elem(p.name, p.id, MergePass(p.children, n.children, u));
        assert Free(merged, t);
        var acc' := acc[..|acc| - 1] + [merged];
        assert AllFree(acc', t) by {
          assert forall k | 0 <= k < |acc'| - 1 :: acc'[k] == acc[k];
        }
        MergePassKeepsFree(acc', rest[1..], u, t);
      } else {
        var visited := if n.Elem? then Elem(n.name, n.id, MergePass([], n.children, u)) else n;
        if n.Elem? {
          MergePassKeepsFree([], n.children, u, t);
        }
        assert Free(visited, t);
        MergePassKeepsFree(acc + [visited], rest[1..], u, t);
      }
    }
  }

  /**
   * After normalising, no `br` is left at any depth, no `span` other than a
   * selection marker keeps children, and the text nodes are normal.
   */
  lemma NormaliseClears(cs: seq<Tree>)
    ensures AllFree(NormaliseTextarea(cs), "br")
    ensures AllSettled(NormaliseTextarea(cs), "span")
    ensures Normal(NormaliseTextarea(cs))
  {
    var noBreaks := SingleInChildren(cs, "br");
    SingleChildrenFree(cs, "br");
    var unwrapped := UnwrapTags(noBreaks, UnwrappedTags);
    UnwrapTagsKeepFree(noBreaks, UnwrappedTags, "br");
    var sups := MergePass([], unwrapped, "sup");
    MergePassKeepsFree([], unwrapped, "sup", "br");
    var subs := MergePass([], sups, "sub");
    MergePassKeepsFree([], sups, "sub", "br");
    var spans := FixedInChildren(subs, "span");
    FixedChildrenKeepFree(subs, "span", "br");
    FixedChildrenSettle(subs, "span");
    NormalizeKeepsElements(spans, "br");
    NormalizeKeepsElements(spans, "span");
    NormalizeIsNormal(spans);
  }

  /** Two adjacent `sup` elements holding text become one, holding the text of both. */
  lemma AdjacentSupsMerge(id1: string, id2: string, x: string, y: string)
    requires x != "" && y != ""
    ensures NormaliseTextarea([Elem("sup", id1, [Text(x)]), Elem("sup", id2, [Text(y)])])
         == [Elem("sup", id1, [Text(x + y)])]
  {
    var cs := [Elem("sup", id1, [Text(x)]), Elem("sup", id2, [Text(y)])];
    var m := Elem("sup", id1, [Text(x), Text(y)]);
    SupsOfTextLeftAlone(cs);
    SupRunMerges(id1, id2, x, y);
    MergedSupStays(id1, x, y);
    NormaliseFrom(cs, cs, cs, [m], [m], [m]);
    TextsJoin(x, y);
    assert [m][..0] == [];
  }

  /** `NormaliseTextarea` given the value of each of its steps. */
  lemma NormaliseFrom(cs: seq<Tree>, noBreaks: seq<Tree>, unwrapped: seq<Tree>, sups: seq<Tree>, subs: seq<Tree>, spans: seq<Tree>)
    requires SingleInChildren(cs, "br") == noBreaks
    requires UnwrapTags(noBreaks, UnwrappedTags) == unwrapped
    requires MergePass([], unwrapped, "sup") == sups
    requires MergePass([], sups, "sub") == subs
    requires FixedInChildren(subs, "span") == spans
    ensures NormaliseTextarea(cs) == NormalizeAll(spans)
  {
  }

  lemma TextsJoin(x: string, y: string)
    requires x != "" && y != ""
    ensures NormalizeAll([Text(x), Text(y)]) == [Text(x + y)]
  {
    var cs := [Text(x), Text(y)];
    assert cs[..1] == [Text(x)];
    assert [Text(x)][..0] == [];
    assert NormalizeAll([Text(x)]) == [Text(x)];
  }

  lemma SupRunMerges(id1: string, id2: string, x: string, y: string)
    ensures MergePass([], [Elem("sup", id1, [Text(x)]), Elem("sup", id2, [Text(y)])], "sup")
         == [Elem("sup", id1, [Text(x), Text(y)])]
  {
    var a := Elem("sup", id1, [Text(x)]);
    var b := Elem("sup", id2, [Text(y)]);
    assert [a, b][1..] == [b];
    assert MergePass([], [Text(x)], "sup") == [Text(x)];
    assert MergePass([], [a, b], "sup") == MergePass([a], [b], "sup");
    assert MergePass([Text(x)], [Text(y)], "sup") == [Text(x), Text(y)];
  }

  lemma MergedSupStays(id: string, x: string, y: string)
    ensures MergePass([], [Elem("sup", id, [Text(x), Text(y)])], "sub") == [Elem("sup", id, [Text(x), Text(y)])]
    ensures FixedInChildren([Elem("sup", id, [Text(x), Text(y)])], "span") == [Elem("sup", id, [Text(x), Text(y)])]
  {
    var m := Elem("sup", id, [Text(x), Text(y)]);
    assert [Text(x), Text(y)][1..] == [Text(y)];
    var ts: seq<Tree> := [Text(x), Text(y)];
    var none: seq<Tree> := [];
    assert none + [Text(x)] == [Text(x)] && [Text(x)] + [Text(y)] == ts;
    assert MergePass(none, ts, "sub") == MergePass(none + [Text(x)], ts[1..], "sub");
    assert MergePass([Text(x)], [Text(y)], "sub") == MergePass([Text(x)] + [Text(y)], [Text(y)][1..], "sub");
    assert Settled(m, "span");
    FixedChildrenLeaveSettled([m], "span");
  }

  /** `sup` elements holding only text. */
  predicate SupsOfText(cs: seq<Tree>) {
    forall k | 0 <= k < |cs| :: cs[k].Elem? && cs[k].name == "sup" && forall j | 0 <= j < |cs[k].children| :: cs[k].children[j].Text?
  }

  /** `sup` elements holding only text have no `br` and nothing of the listed tags to unwrap. */
  lemma SupsOfTextLeftAlone(cs: seq<Tree>)
    requires SupsOfText(cs)
    ensures SingleInChildren(cs, "br") == cs
    ensures UnwrapTags(cs, UnwrappedTags) == cs
  {
    assert SingleInChildren(cs, "br") == cs by {
      forall k | 0 <= k < |cs| ensures Free(cs[k], "br") {
        assert !Named(cs[k], "br");
      }
      SingleChildrenLeaveFree(cs, "br");
    }
    assert UnwrapTags(cs, UnwrappedTags) == cs by {
      UnwrapsNothing(cs, UnwrappedTags);
    }
  }

  /** Content made of `sup` elements holding text has nothing to unwrap for the listed tags. */
  lemma {:induction false} UnwrapsNothing(cs: seq<Tree>, tags: seq<string>)
    requires SupsOfText(cs)
    requires forall j | 0 <= j < |tags| :: tags[j] != "sup"
    ensures UnwrapTags(cs, tags) == cs
    decreases |tags|
  {
    if tags != [] {
      UnwrapsNothing(cs, tags[..|tags| - 1]);
      var t := tags[|tags| - 1];
      forall k | 0 <= k < |cs| ensures Settled(cs[k], t) {
        assert !Unwraps(cs[k], t);
      }
      FixedChildrenLeaveSettled(cs, t);
    }
  }
}
