/**
 * The content of the AMD editor as the formatting code sees it: the children
 * of the content element, each a text node or a `sup`/`sub` element holding a
 * single text node, plus the DOM operations on it that `setFormat` and
 * `isSelectionInsideSubSup` rely on (amd/src/editor.js): boundary points,
 * `range.toString()`, `range.cloneContents()`, `innerHTML` and the loop that
 * removes empty text nodes.
 */
module Inline {
  import opened Wrappers
  import opened TextRules

  datatype Tag = Sup | Sub

  /** The element name of a tag, as an action's `tag` spells it. */
  function TagName(t: Tag): string {
    match t
    case Sup => "sup"
    case Sub => "sub"
  }

  /** A child of the editor content. */
  datatype Node = Text(text: string) | Mark(tag: Tag, text: string)

  type Doc = seq<Node>

  /** The DOM `nodeName` of a child. */
  function NodeName(n: Node): string {
    match n
    case Text(_) => "#text"
    case Mark(Sup, _) => "SUP"
    case Mark(Sub, _) => "SUB"
  }

  /** The `textContent` of a sequence of children. */
  function TextOf(doc: Doc): string {
    if doc == [] then "" else doc[0].text + TextOf(doc[1..])
  }

  lemma {:induction false} TextOfAppend(a: Doc, b: Doc)
    ensures TextOf(a + b) == TextOf(a) + TextOf(b)
    decreases |a|
  {
    if a == [] {
      assert a + b == b;
    } else {
      assert (a + b)[0] == a[0] && (a + b)[1..] == a[1..] + b;
      TextOfAppend(a[1..], b);
    }
  }

  /** The text of a splice: what comes before, the replacement children, what comes after. */
  lemma TextOfSplice(a: Doc, b: Doc, c: Doc)
    ensures TextOf(a + b + c) == TextOf(a) + TextOf(b) + TextOf(c)
  {
    TextOfAppend(a + b, c);
    TextOfAppend(a, b);
  }

  lemma TextOfThree(x: Node, y: Node, z: Node)
    ensures TextOf([x, y, z]) == x.text + y.text + z.text
  {
    assert [x, y, z][1..] == [y, z] && [y, z][1..] == [z] && [z][1..] == [];
    assert TextOf([z]) == z.text + TextOf([]);
    assert TextOf([y, z]) == y.text + TextOf([z]);
  }

  /** The text of the content around child `n`. */
  lemma TextOfAround(doc: Doc, n: nat)
    requires n < |doc|
    ensures TextOf(doc) == TextOf(doc[..n]) + doc[n].text + TextOf(doc[n + 1..])
  {
    var a, c := doc[..n], doc[n..];
    assert doc == a + c;
    TextOfAppend(a, c);
    assert c[0] == doc[n] && c[1..] == doc[n + 1..];
  }

  // ---------------------------------------------------------------------------
  // Formatting of each character
  // ---------------------------------------------------------------------------

  /** The formatting a child gives its characters: none for a text node, its tag for a mark. */
  function StyleOf(n: Node): Option<Tag> {
    if n.Mark? then Some(n.tag) else None
  }

  /** `k` characters, all with formatting `f`. */
  function Fill(k: nat, f: Option<Tag>): (fs: seq<Option<Tag>>)
    ensures |fs| == k && forall c | 0 <= c < k :: fs[c] == f
  {
    seq(k, _ => f)
  }

  /**
   * The formatting of every character of the content, in text order: the tag
   * of the mark holding it, or none. With `TextOf` it says which characters
   * are superscript, subscript or plain.
   */
  function Styles(doc: Doc): (fs: seq<Option<Tag>>)
    ensures |fs| == |TextOf(doc)|
  {
    if doc == [] then [] else Fill(|doc[0].text|, StyleOf(doc[0])) + Styles(doc[1..])
  }

  lemma {:induction false} StylesAppend(a: Doc, b: Doc)
    ensures Styles(a + b) == Styles(a) + Styles(b)
    decreases |a|
  {
    if a == [] {
      assert a + b == b;
    } else {
      assert (a + b)[0] == a[0] && (a + b)[1..] == a[1..] + b;
      StylesAppend(a[1..], b);
    }
  }

  /** The formatting of a splice: what comes before, the replacement children, what comes after. */
  lemma StylesSplice(a: Doc, b: Doc, c: Doc)
    ensures Styles(a + b + c) == Styles(a) + Styles(b) + Styles(c)
  {
    StylesAppend(a + b, c);
    StylesAppend(a, b);
  }

  /** The formatting of the content around child `n`. */
  lemma StylesAround(doc: Doc, n: nat)
    requires n < |doc|
    ensures Styles(doc) == Styles(doc[..n]) + Fill(|doc[n].text|, StyleOf(doc[n])) + Styles(doc[n + 1..])
  {
    var a, c := doc[..n], doc[n..];
    assert doc == a + c;
    StylesAppend(a, c);
    assert c[0] == doc[n] && c[1..] == doc[n + 1..];
  }

  lemma StylesThree(x: Node, y: Node, z: Node)
    ensures Styles([x, y, z]) == Fill(|x.text|, StyleOf(x)) + Fill(|y.text|, StyleOf(y)) + Fill(|z.text|, StyleOf(z))
  {
    assert [x, y, z][1..] == [y, z] && [y, z][1..] == [z] && [z][1..] == [];
    assert Styles([z]) == Fill(|z.text|, StyleOf(z)) + Styles([]);
    assert Styles([y, z]) == Fill(|y.text|, StyleOf(y)) + Styles([z]);
  }

  /** Three children spliced between `pre` and `post`: the formatting of each part in order. */
  lemma StylesSpliceThree(pre: Doc, x: Node, y: Node, z: Node, post: Doc)
    ensures Styles(pre + [x, y, z] + post) ==
      Styles(pre) + (Fill(|x.text|, StyleOf(x)) + Fill(|y.text|, StyleOf(y)) + Fill(|z.text|, StyleOf(z))) + Styles(post)
  {
    StylesSplice(pre, [x, y, z], post);
    StylesThree(x, y, z);
  }

  /** The formatting of the content around children `i` and `j`. */
  lemma StylesAroundTwo(doc: Doc, i: nat, j: nat)
    requires i < j < |doc|
    ensures Styles(doc) == Styles(doc[..i]) + Fill(|doc[i].text|, StyleOf(doc[i])) +
      (Styles(doc[i + 1..j]) + Fill(|doc[j].text|, StyleOf(doc[j])) + Styles(doc[j + 1..]))
  {
    StylesAround(doc, i);
    var rest := doc[i + 1..];
    StylesAround(rest, j - i - 1);
    assert rest[..j - i - 1] == doc[i + 1..j] && rest[j - i - 1] == doc[j] && rest[j - i..] == doc[j + 1..];
  }

  /** One child appended to `pre`. */
  lemma StylesSnoc(pre: Doc, x: Node)
    ensures Styles(pre + [x]) == Styles(pre) + Fill(|x.text|, StyleOf(x))
  {
    StylesAppend(pre, [x]);
    assert Styles([x]) == Fill(|x.text|, StyleOf(x)) + Styles([]);
  }

  /** One child put before `post`. */
  lemma StylesCons(x: Node, post: Doc)
    ensures Styles([x] + post) == Fill(|x.text|, StyleOf(x)) + Styles(post)
  {
    assert ([x] + post)[1..] == post;
  }

  /** `Fill` splits at any point. */
  lemma FillSplit(n: nat, o: nat, f: Option<Tag>)
    requires o <= n
    ensures Fill(n, f) == Fill(o, f) + Fill(n - o, f)
  {
  }

  /** A DOM boundary point in the text of child `node`, `offset` characters in. */
  datatype Pos = Pos(node: nat, offset: nat)

  /** A DOM range; the selection holds at most one. */
  datatype Range = Range(start: Pos, end: Pos)

  predicate ValidPos(doc: Doc, p: Pos) {
    p.node < |doc| && p.offset <= |doc[p.node].text|
  }

  /** Boundary-point order within the content. */
  predicate Before(p: Pos, q: Pos) {
    p.node < q.node || (p.node == q.node && p.offset <= q.offset)
  }

  predicate ValidRange(doc: Doc, r: Range) {
    ValidPos(doc, r.start) && ValidPos(doc, r.end) && Before(r.start, r.end)
  }

  /** The window's selection: no range, or one valid range. */
  predicate ValidSelection(doc: Doc, sel: Option<Range>) {
    sel.Some? ==> ValidRange(doc, sel.value)
  }

  predicate Collapsed(r: Range) {
    r.start == r.end
  }

  /** The position of a boundary point in the text of the whole content. */
  function Offset(doc: Doc, p: Pos): (k: nat)
    requires ValidPos(doc, p)
    ensures k <= |TextOf(doc)|
  {
    TextOfAround(doc, p.node);
    |TextOf(doc[..p.node])| + p.offset
  }

  /** Later boundary points lie further on in the text. */
  lemma OffsetMonotonic(doc: Doc, p: Pos, q: Pos)
    requires ValidPos(doc, p) && ValidPos(doc, q) && Before(p, q)
    ensures Offset(doc, p) <= Offset(doc, q)
  {
    if p.node < q.node {
      TextOfAround(doc, p.node);
      assert doc[..q.node] == doc[..p.node] + ([doc[p.node]] + doc[p.node + 1..q.node]);
      TextOfAppend(doc[..p.node], [doc[p.node]] + doc[p.node + 1..q.node]);
      assert ([doc[p.node]] + doc[p.node + 1..q.node])[1..] == doc[p.node + 1..q.node];
    }
  }

  /** `range.toString()`: the text between the two boundary points. */
  function RangeString(doc: Doc, r: Range): string
    requires ValidRange(doc, r)
  {
    var i, j := r.start.node, r.end.node;
    if i == j then doc[i].text[r.start.offset..r.end.offset]
    else doc[i].text[r.start.offset..] + TextOf(doc[i + 1..j]) + doc[j].text[..r.end.offset]
  }

  /** The range's string is the slice of the content's text between its two offsets. */
  lemma RangeStringIsSlice(doc: Doc, r: Range)
    requires ValidRange(doc, r)
    ensures Offset(doc, r.start) <= Offset(doc, r.end)
    ensures RangeString(doc, r) == TextOf(doc)[Offset(doc, r.start)..Offset(doc, r.end)]
  {
    OffsetMonotonic(doc, r.start, r.end);
    var i, j, so, eo := r.start.node, r.end.node, r.start.offset, r.end.offset;
    var a, s := TextOf(doc[..i]), doc[i].text;
    assert Offset(doc, r.start) == |a| + so;
    if i == j {
      var z := TextOf(doc[i + 1..]);
      assert TextOf(doc) == a + s + z by {
        TextOfAround(doc, i);
      }
      SliceOfMiddle(a, s, z, so, eo);
    } else {
      var m, u, z := TextOf(doc[i + 1..j]), doc[j].text, TextOf(doc[j + 1..]);
      assert TextOf(doc) == a + s + (m + u + z) && Offset(doc, r.end) == |a + s + m| + eo by {
        TextOfAround(doc, i);
        TextOfBetween(doc, i, j);
      }
      SliceAcross(a, s, m, u, z, so, eo);
    }
  }

  /** The text up to child `j` and after child `i`, split at the other child. */
  lemma TextOfBetween(doc: Doc, i: nat, j: nat)
    requires i < j < |doc|
    ensures TextOf(doc[..j]) == TextOf(doc[..i]) + doc[i].text + TextOf(doc[i + 1..j])
    ensures TextOf(doc[i + 1..]) == TextOf(doc[i + 1..j]) + doc[j].text + TextOf(doc[j + 1..])
  {
    var mid := doc[i + 1..j];
    var tail := doc[j..];
    assert doc[i + 1..] == mid + tail;
    TextOfAppend(mid, tail);
    assert tail[0] == doc[j] && tail[1..] == doc[j + 1..];
    var head := doc[i..j];
    assert doc[..j] == doc[..i] + head;
    TextOfAppend(doc[..i], head);
    assert head[0] == doc[i] && head[1..] == mid;
  }

  lemma SliceOfMiddle(a: string, s: string, z: string, from: nat, to: nat)
    requires from <= to <= |s|
    ensures (a + s + z)[|a| + from..|a| + to] == s[from..to]
  {
  }

  lemma SliceAcross(a: string, s: string, m: string, u: string, z: string, from: nat, to: nat)
    requires from <= |s| && to <= |u|
    ensures (a + s + (m + u + z))[|a| + from..|a + s + m| + to] == s[from..] + m + u[..to]
  {
    var t := a + s + (m + u + z);
    var w := s[from..] + m + u[..to];
    assert |t[|a| + from..|a + s + m| + to]| == |w|;
    forall k | 0 <= k < |w|
      ensures t[|a| + from + k] == w[k]
    {
      if k < |s| - from {
      } else if k < |s| - from + |m| {
      } else {
      }
    }
  }

  /** A child with its text cut to `text[from..to]`, keeping its kind. */
  function Cut(n: Node, from: nat, to: nat): Node
    requires from <= to <= |n.text|
  {
    match n
    case Text(s) => Text(s[from..to])
    case Mark(t, s) => Mark(t, s[from..to])
  }

  /**
   * `range.cloneContents().childNodes`. Within one text node the clone is a
   * bare text node even when that text lies inside a mark; across children the
   * partially selected first and last children are cloned with their kind and
   * the part of their text inside the range, the children between them whole.
   */
  function CloneContents(doc: Doc, r: Range): (pieces: Doc)
    requires ValidRange(doc, r)
    ensures TextOf(pieces) == RangeString(doc, r)
  {
    var i, j := r.start.node, r.end.node;
    if i == j then
      var p := [Text(doc[i].text[r.start.offset..r.end.offset])];
      assert TextOf(p) == p[0].text + TextOf([]);
      p
    else
      var first := Cut(doc[i], r.start.offset, |doc[i].text|);
      var last := Cut(doc[j], 0, r.end.offset);
      var mid := doc[i + 1..j];
      TextOfAppend([first] + mid, [last]);
      TextOfAppend([first], mid);
      assert TextOf([last]) == last.text + TextOf([]);
      assert TextOf([first]) == first.text + TextOf([]);
      [first] + mid + [last]
  }

  // ---------------------------------------------------------------------------
  // Serialisation (`innerHTML`)
  // ---------------------------------------------------------------------------

  /** HTML text escaping of the fragment serialisation algorithm (text content, not attributes). */
  function Escape(s: string): (r: string)
    ensures forall k | 0 <= k < |r| :: r[k] != '<' && r[k] != '>'
  {
    if s == [] then []
    else
      (if s[0] == '&' then "&amp;"
       else if s[0] == '\U{00A0}' then "&nbsp;"
       else if s[0] == '<' then "&lt;"
       else if s[0] == '>' then "&gt;"
       else [s[0]]) + Escape(s[1..])
  }

  function Serialize(n: Node): string {
    match n
    case Text(s) => Escape(s)
    case Mark(t, s) => "<" + TagName(t) + ">" + Escape(s) + "</" + TagName(t) + ">"
  }

  /** `innerHTML` of the content element. */
  function InnerHtml(doc: Doc): string {
    if doc == [] then "" else Serialize(doc[0]) + InnerHtml(doc[1..])
  }

  lemma {:induction false} InnerHtmlAppend(a: Doc, b: Doc)
    ensures InnerHtml(a + b) == InnerHtml(a) + InnerHtml(b)
    decreases |a|
  {
    if a == [] {
      assert a + b == b;
    } else {
      assert (a + b)[0] == a[0] && (a + b)[1..] == a[1..] + b;
      InnerHtmlAppend(a[1..], b);
    }
  }

  // ---------------------------------------------------------------------------
  // Removing empty text nodes
  // ---------------------------------------------------------------------------

  /** A text node with no text: what the cleanup loop of `setFormat` removes. */
  predicate IsEmptyText(n: Node) {
    n == Text("")
  }

  /**
   * `childNodes.forEach(el => { if empty text: el.remove() })` over the live
   * child list: removing the child at the current index moves its successor
   * into that index, which the iteration has already passed, so the child
   * right after each removed one is never looked at.
   */
  function Sweep(doc: Doc): Doc {
    if doc == [] then []
    else if IsEmptyText(doc[0]) then (if |doc| == 1 then [] else [doc[1]] + Sweep(doc[2..]))
    else [doc[0]] + Sweep(doc[1..])
  }

  /** The children other than empty text nodes, in order. */
  function NonEmpty(doc: Doc): Doc {
    if doc == [] then []
    else if IsEmptyText(doc[0]) then NonEmpty(doc[1..])
    else [doc[0]] + NonEmpty(doc[1..])
  }

  /** Sweeping removes nothing but empty text nodes: every other child survives, in order. */
  lemma {:induction false} SweepKeepsContent(doc: Doc)
    ensures NonEmpty(Sweep(doc)) == NonEmpty(doc)
    ensures TextOf(Sweep(doc)) == TextOf(doc)
    ensures InnerHtml(Sweep(doc)) == InnerHtml(doc)
    ensures Styles(Sweep(doc)) == Styles(doc)
    decreases |doc|
  {
    if doc == [] {
    } else if IsEmptyText(doc[0]) {
      if |doc| > 1 {
        SweepKeepsContent(doc[2..]);
        assert doc[1..][1..] == doc[2..];
        var s := [doc[1]] + Sweep(doc[2..]);
        assert s[0] == doc[1] && s[1..] == Sweep(doc[2..]);
        assert Escape("") == "";
      }
    } else {
      SweepKeepsContent(doc[1..]);
      var s := [doc[0]] + Sweep(doc[1..]);
      assert s[0] == doc[0] && s[1..] == Sweep(doc[1..]);
    }
  }

  /** Without two empty text nodes in a row, one sweep removes every empty text node. */
  lemma {:induction false} SweepCompleteWithoutPairs(doc: Doc)
    requires forall k | 0 < k < |doc| :: !(IsEmptyText(doc[k - 1]) && IsEmptyText(doc[k]))
    ensures Sweep(doc) == NonEmpty(doc)
    decreases |doc|
  {
    if doc == [] {
    } else if IsEmptyText(doc[0]) {
      if |doc| > 1 {
        assert !IsEmptyText(doc[1]) by {
          assert !(IsEmptyText(doc[0]) && IsEmptyText(doc[1]));
        }
        var rest := doc[2..];
        forall k | 0 < k < |rest|
          ensures !(IsEmptyText(rest[k - 1]) && IsEmptyText(rest[k]))
        {
          assert rest[k - 1] == doc[k + 1] && rest[k] == doc[k + 2];
        }
        SweepCompleteWithoutPairs(rest);
        assert doc[1..][0] == doc[1] && doc[1..][1..] == rest;
      }
    } else {
      var rest := doc[1..];
      forall k | 0 < k < |rest|
        ensures !(IsEmptyText(rest[k - 1]) && IsEmptyText(rest[k]))
      {
        assert rest[k - 1] == doc[k] && rest[k] == doc[k + 1];
      }
      SweepCompleteWithoutPairs(rest);
    }
  }

  /** Two empty text nodes in a row: the sweep leaves the second one behind. */
  lemma SweepSkipsSecondEmpty()
    ensures Sweep([Text(""), Text("")]) == [Text("")]
  {
  }

  /**
   * Where a child that is not an empty text node ends up after the sweep: the
   * same child, with the same text before it.
   */
  function SweepIndex(doc: Doc, i: nat): (k: nat)
    requires i < |doc| && !IsEmptyText(doc[i])
    ensures k < |Sweep(doc)| && Sweep(doc)[k] == doc[i]
    ensures TextOf(Sweep(doc)[..k]) == TextOf(doc[..i])
    decreases i
  {
    if IsEmptyText(doc[0]) then
      if i == 1 then
        assert TextOf(doc[..1]) == doc[0].text + TextOf([]);
        0
      else
        var k' := SweepIndex(doc[2..], i - 2);
        SweepIndexStep(doc, 2, i, k');
        k' + 1
    else if i == 0 then 0
    else
      var k' := SweepIndex(doc[1..], i - 1);
      SweepIndexStep(doc, 1, i, k');
      k' + 1
  }

  /** One step of `SweepIndex`: the sweep keeps `doc[c - 1]` first and drops `doc[..c - 1]`, which is empty. */
  lemma SweepIndexStep(doc: Doc, c: nat, i: nat, k: nat)
    requires 1 <= c <= 2 && c <= i < |doc|
    requires c == 2 ==> IsEmptyText(doc[0])
    requires c == 1 ==> !IsEmptyText(doc[0])
    requires k < |Sweep(doc[c..])| && Sweep(doc[c..])[k] == doc[c..][i - c]
    requires TextOf(Sweep(doc[c..])[..k]) == TextOf(doc[c..][..i - c])
    ensures k + 1 < |Sweep(doc)| && Sweep(doc)[k + 1] == doc[i]
    ensures TextOf(Sweep(doc)[..k + 1]) == TextOf(doc[..i])
  {
    assert Sweep(doc) == [doc[c - 1]] + Sweep(doc[c..]);
    ConsStep(Sweep(doc), doc[c - 1], Sweep(doc[c..]), k);
    PrefixStep(doc, c, i);
    assert TextOf(doc[..c]) == doc[c - 1].text by {
      assert TextOf(doc[c - 1..c]) == doc[c - 1].text + TextOf([]);
      if c == 2 {
        assert doc[..c][1..] == doc[c - 1..c];
      }
    }
  }

  lemma ConsStep(s: Doc, h: Node, tail: Doc, k: nat)
    requires s == [h] + tail && k < |tail|
    ensures k + 1 < |s| && s[k + 1] == tail[k]
    ensures TextOf(s[..k + 1]) == h.text + TextOf(tail[..k])
  {
    assert s[..k + 1][1..] == tail[..k];
  }

  lemma PrefixStep(doc: Doc, c: nat, i: nat)
    requires c <= i <= |doc|
    ensures TextOf(doc[..i]) == TextOf(doc[..c]) + TextOf(doc[c..][..i - c])
  {
    assert doc[..i] == doc[..c] + doc[c..][..i - c];
    TextOfAppend(doc[..c], doc[c..][..i - c]);
  }

  /** A boundary point in a child the sweep keeps, moved to that child's new index. */
  function SweepPos(doc: Doc, p: Pos): (q: Pos)
    requires ValidPos(doc, p) && !IsEmptyText(doc[p.node])
    ensures ValidPos(Sweep(doc), q) && Sweep(doc)[q.node] == doc[p.node]
    ensures Offset(Sweep(doc), q) == Offset(doc, p)
  {
    Pos(SweepIndex(doc, p.node), p.offset)
  }
}
