/**
 * The HTML sanitiser of the editor (amd/src/editor.js): rule tables applied
 * one after the other by `filterContentWithRules`, the standard table of
 * `cleanHTML`, the empty-content check of `getCleanHTML` and the two-pass
 * `cleanPasteHTML`.
 *
 * Regular-expression replacement is a parameter: an `Engine` maps a pattern,
 * a replacement and an input to `input.replace(/pattern/gi, replacement)`.
 * The rules whose effect can be written without a regex engine (literal
 * replacements, the join of adjacent marks and the removal of the placeholder
 * character) are modelled exactly, by the functions of `TextRules`.
 */
module Sanitiser {
  import opened TextRules

  /** `input.replace(/pattern/gi, replacement)` as performed by the browser. */
  type Engine = (string, string, string) -> string

  /** The patterns of the rule tables that need a regular-expression engine, named by what they match. */
  datatype Regex =
    | EmptyParagraph
    | SupAttributes
    | SubAttributes
    | SpaceAfterSupOpen
    | SpaceAfterSubOpen
    | SpaceBeforeSupClose
    | SpaceBeforeSubClose
    | StyleBlock
    | UnclosedComment
    | ScriptBlock
    | ForbiddenTags
    | FormattingTags
    | ElementsAbbrToBlockquote
    | ElementsButtonToData
    | ElementsDatalistToElement
    | ElementsEmToH5
    | ElementsH6ToLegend
    | ElementsMainToOptgroup
    | ElementsOptionToSamp
    | ElementsSectionToSummary
    | ElementsSvgToTrack
    | ElementsVarToVideo
    | DeprecatedAcronymToIsindex
    | DeprecatedListingToXmp
    | SiteJslNobr
    | SpanUnwrap
    | EmptySpan
    | EmptySup
    | EmptySub
    | XmlnsUnwrap
    | HtmlTrailer
    | ConditionalComment
    | FragmentMarker
    | XmlBlock
    | XmlDeclarationBlock
    | NamespacedTag
    | MsoStyle
    | MsoClass
    | AppleClass
    | OleLinkAnchor

  /** The pattern text of each regex, as the tables write it (the flags are always `gi`). */
  function Source(regex: Regex): string {
    match regex
    case EmptyParagraph => @"<p[^>]*>(&nbsp;|\s)*<\/p>"
    case SupAttributes => @"<sup[^>]*(&nbsp;|\s)*>"
    case SubAttributes => @"<sub[^>]*(&nbsp;|\s)*>"
    case SpaceAfterSupOpen => @"<sup>(\s*)+"
    case SpaceAfterSubOpen => @"<sub>(\s*)+"
    case SpaceBeforeSupClose => @"(\s*)+<\/sup>"
    case SpaceBeforeSubClose => @"(\s*)+<\/sub>"
    case StyleBlock => @"<style[^>]*>[\s\S]*?<\/style>"
    case UnclosedComment => @"<!--(?![\s\S]*?-->)"
    case ScriptBlock => @"<script[^>]*>[\s\S]*?<\/script>"
    case ForbiddenTags => @"<\/?(?:br|title|meta|style|std|font|html|body|link|a|ul|li|ol)[^>]*?>"
    case FormattingTags => @"<\/?(?:b|i|u|ul|ol|li|img)[^>]*?>"
    case ElementsAbbrToBlockquote => @"<\/?(?:abbr|address|area|article|aside|audio|base|bdi|bdo|blockquote)[^>]*?>"
    case ElementsButtonToData => @"<\/?(?:button|canvas|caption|cite|code|col|colgroup|content|data)[^>]*?>"
    case ElementsDatalistToElement => @"<\/?(?:datalist|dd|decorator|del|details|dialog|dfn|div|dl|dt|element)[^>]*?>"
    case ElementsEmToH5 => @"<\/?(?:em|embed|fieldset|figcaption|figure|footer|form|h1|h2|h3|h4|h5)[^>]*?>"
    case ElementsH6ToLegend => @"<\/?(?:h6|header|hgroup|hr|iframe|input|ins|kbd|keygen|label|legend)[^>]*?>"
    case ElementsMainToOptgroup => @"<\/?(?:main|map|mark|menu|menuitem|meter|nav|noscript|object|optgroup)[^>]*?>"
    case ElementsOptionToSamp => @"<\/?(?:option|output|p|param|pre|progress|q|rp|rt|rtc|ruby|samp)[^>]*?>"
    case ElementsSectionToSummary => @"<\/?(?:section|select|script|shadow|small|source|std|strong|summary)[^>]*?>"
    case ElementsSvgToTrack => @"<\/?(?:svg|table|tbody|td|template|textarea|time|tfoot|th|thead|tr|track)[^>]*?>"
    case ElementsVarToVideo => @"<\/?(?:var|wbr|video)[^>]*?>"
    case DeprecatedAcronymToIsindex => @"<\/?(?:acronym|applet|basefont|big|blink|center|dir|frame|frameset|isindex)[^>]*?>"
    case DeprecatedListingToXmp => @"<\/?(?:listing|noembed|plaintext|spacer|strike|tt|xmp)[^>]*?>"
    case SiteJslNobr => @"<\/?(?:jsl|nobr)[^>]*?>"
    case SpanUnwrap => @"<span(?![^>]*?rangySelectionBoundary[^>]*?)[^>]*>[\s\S]*?([\s\S]*?)<\/span>"
    case EmptySpan => @"<span(?![^>]*?rangySelectionBoundary[^>]*?)[^>]*>(&nbsp;|\s)*<\/span>"
    case EmptySup => @"<sup[^>]*>(&nbsp;|\s)*<\/sup>"
    case EmptySub => @"<sub[^>]*>(&nbsp;|\s)*<\/sub>"
    case XmlnsUnwrap => @"<xmlns.*?>(.*?)<\/xmlns.*?>"
    case HtmlTrailer => @"<\s*\/html\s*>([\s\S]+)$"
    case ConditionalComment => @"<!--\[if[\s\S]*?endif\]-->"
    case FragmentMarker => @"<!--(Start|End)Fragment-->"
    case XmlBlock => @"<xml[^>]*>[\s\S]*?<\/xml>"
    case XmlDeclarationBlock => @"<\?xml[^>]*>[\s\S]*?<\\\?xml>"
    case NamespacedTag => @"<\/?\w+:[^>]*>"
    case MsoStyle => @"(<[^>]*?style\s*?=\s*?""[^>""]*?)(?:[\s]*MSO[-:][^>;""]*;?)+"
    case MsoClass => @"(<[^>]*?class\s*?=\s*?""[^>""]*?)(?:[\s]*MSO[_a-zA-Z0-9-]*)+"
    case AppleClass => @"(<[^>]*?class\s*?=\s*?""[^>""]*?)(?:[\s]*Apple-[_a-zA-Z0-9-]*)+"
    case OleLinkAnchor => @"<a [^>]*?name\s*?=\s*?""OLE_LINK\d*?""[^>]*?>\s*?<\/a>"
  }

  /** One `{regex, replace}` entry of a rule table; every pattern carries the flags `gi`. */
  datatype Rule =
    | Pattern(regex: Regex, replace: string)    // handed to the regex engine
    | Literal(text: string, replace: string)    // a pattern without special characters
    | Join(tag: string)                         // `/<\/tag>(\s*)+<tag>/gi` with replacement `$1`
    | Remove(c: char)                           // a single uncased character replaced by ""

  /** `content.replace(rule.regex, rule.replace)`. */
  function Apply(engine: Engine, rule: Rule, content: string): string {
    match rule
    case Pattern(regex, replace) => engine(Source(regex), replace, content)
    case Literal(text, replace) => ReplaceAll(content, text, replace)
    case Join(tag) => JoinTag(content, tag)
    case Remove(c) => DeleteAll(content, c)
  }

  /** The rules applied in table order, each to the output of the one before. */
  function Filter(engine: Engine, content: string, rules: seq<Rule>): string
    decreases |rules|
  {
    if rules == [] then content else Filter(engine, Apply(engine, rules[0], content), rules[1..])
  }

  /** Filtering with two tables in a row is filtering with their concatenation. */
  lemma {:induction false} FilterAppend(engine: Engine, content: string, a: seq<Rule>, b: seq<Rule>)
    ensures Filter(engine, content, a + b) == Filter(engine, Filter(engine, content, a), b)
    decreases |a|
  {
    if a == [] {
      assert a + b == b;
    } else {
      assert (a + b)[0] == a[0] && (a + b)[1..] == a[1..] + b;
      FilterAppend(engine, Apply(engine, a[0], content), a[1..], b);
    }
  }

  /** The last rule of a table has the last word. */
  lemma FilterLast(engine: Engine, content: string, rules: seq<Rule>)
    requires rules != []
    ensures Filter(engine, content, rules)
         == Apply(engine, rules[|rules| - 1], Filter(engine, content, rules[..|rules| - 1]))
  {
    var n := |rules| - 1;
    assert rules == rules[..n] + [rules[n]];
    FilterAppend(engine, content, rules[..n], [rules[n]]);
  }

  /** `filterContentWithRules`: replaces with each rule of the table in turn. */
  method FilterContentWithRules(engine: Engine, content: string, rules: seq<Rule>) returns (r: string)
    ensures r == Filter(engine, content, rules)
  {
    r := content;
    for k := 0 to |rules|
      invariant Filter(engine, r, rules[k..]) == Filter(engine, content, rules)
    {
      assert rules[k..][0] == rules[k] && rules[k..][1..] == rules[k + 1..];
      r := Apply(engine, rules[k], r);
    }
  }

  /** The table of `cleanHTML`, in order (36 rules). */
  function CleanRules(): seq<Rule> {
    [
      Pattern(EmptyParagraph, ""),
      Pattern(SupAttributes, "<sup>"),
      Pattern(SubAttributes, "<sub>"),
      Literal("&nbsp;", " "),
      Join("sup"),
      Join("sub"),
      Pattern(SpaceAfterSupOpen, "$1<sup>"),
      Pattern(SpaceAfterSubOpen, "$1<sub>"),
      Pattern(SpaceBeforeSupClose, "</sup>$1"),
      Pattern(SpaceBeforeSubClose, "</sub>$1"),
      Literal("<br>", ""),
      Pattern(StyleBlock, ""),
      Pattern(UnclosedComment, ""),
      Pattern(ScriptBlock, ""),
      Pattern(ForbiddenTags, ""),
      Pattern(FormattingTags, ""),
      Pattern(ElementsAbbrToBlockquote, ""),
      Pattern(ElementsButtonToData, ""),
      Pattern(ElementsDatalistToElement, ""),
      Pattern(ElementsEmToH5, ""),
      Pattern(ElementsH6ToLegend, ""),
      Pattern(ElementsMainToOptgroup, ""),
      Pattern(ElementsOptionToSamp, ""),
      Pattern(ElementsSectionToSummary, ""),
      Pattern(ElementsSvgToTrack, ""),
      Pattern(ElementsVarToVideo, ""),
      Pattern(DeprecatedAcronymToIsindex, ""),
      Pattern(DeprecatedListingToXmp, ""),
      Pattern(SiteJslNobr, ""),
      Pattern(SpanUnwrap, "$1"),
      Pattern(EmptySpan, ""),
      Pattern(SpanUnwrap, "$1"),
      Pattern(EmptySup, ""),
      Pattern(EmptySub, ""),
      Pattern(XmlnsUnwrap, "$1"),
      Remove(Placeholder)
    ]
  }

  /**
   * `cleanHTML`: the standard table applied to `content`. Whatever the regex
   * engine does, the last rule removes every placeholder character, so clean
   * HTML never carries the zero-width no-break space the editor uses to keep
   * an empty mark open.
   */
  function CleanHtml(engine: Engine, content: string): (r: string)
    ensures forall k | 0 <= k < |r| :: r[k] != Placeholder
  {
    CleanRulesEnd();
    FilterEndsWithRemove(engine, content, CleanRules(), Placeholder);
    Filter(engine, content, CleanRules())
  }

  /** A table whose last rule removes `c` leaves no `c` behind. */
  lemma FilterEndsWithRemove(engine: Engine, content: string, rules: seq<Rule>, c: char)
    requires rules != [] && rules[|rules| - 1] == Remove(c)
    ensures forall k | 0 <= k < |Filter(engine, content, rules)| :: Filter(engine, content, rules)[k] != c
  {
    FilterLast(engine, content, rules);
  }

  lemma CleanRulesEnd()
    ensures |CleanRules()| == 36 && CleanRules()[35] == Remove(Placeholder)
  {
  }

  /** Editor markup that `getCleanHTML` treats as empty. */
  function EmptyContents(): seq<string> {
    [
      "<p></p>",
      "<p><br></p>",
      "<br>",
      @"<p dir=""rtl"" style=""text-align: right;""></p>",
      @"<p dir=""rtl"" style=""text-align: right;""><br></p>",
      @"<p dir=""ltr"" style=""text-align: left;""></p>",
      @"<p dir=""ltr"" style=""text-align: left;""><br></p>",
      "<p>&nbsp;</p>",
      "<p><br>&nbsp;</p>",
      @"<p dir=""rtl"" style=""text-align: right;"">&nbsp;</p>",
      @"<p dir=""rtl"" style=""text-align: right;""><br>&nbsp;</p>",
      @"<p dir=""ltr"" style=""text-align: left;"">&nbsp;</p>",
      @"<p dir=""ltr"" style=""text-align: left;""><br>&nbsp;</p>"
    ]
  }

  /**
   * `getCleanHTML` given the serialised editor content `html`: markup that
   * only looks empty yields the empty string, anything else the clean HTML;
   * either way the result holds no placeholder character.
   */
  function GetCleanHtml(engine: Engine, html: string): (r: string)
    ensures forall k | 0 <= k < |r| :: r[k] != Placeholder
  {
    if html in EmptyContents() then "" else CleanHtml(engine, html)
  }

  /** The first, harsher table of `cleanPasteHTML` (6 rules). */
  function PasteRules(): seq<Rule> {
    [
      Pattern(HtmlTrailer, ""),
      Pattern(ConditionalComment, ""),
      Pattern(FragmentMarker, ""),
      Pattern(XmlBlock, ""),
      Pattern(XmlDeclarationBlock, ""),
      Pattern(NamespacedTag, "")
    ]
  }

  /** The table of `cleanPasteHTML` applied after the content went through the DOM (4 rules). */
  function PasteQuoteRules(): seq<Rule> {
    [
      Pattern(MsoStyle, "$1"),
      Pattern(MsoClass, "$1"),
      Pattern(AppleClass, "$1"),
      Pattern(OleLinkAnchor, "")
    ]
  }

  /** The first pass of `cleanPasteHTML`: the harsh table, then the standard one. */
  function PasteFirstPass(engine: Engine, content: string): string {
    CleanHtml(engine, Filter(engine, content, PasteRules()))
  }

  /**
   * `cleanPasteHTML`. `reparse` is the browser's round trip through a detached
   * element (`holder.innerHTML = content; content = holder.innerHTML`). Empty
   * input gives the empty string; a first pass that leaves only whitespace is
   * returned as it is, without the round trip; otherwise the round-tripped
   * markup goes through the quote-aware table and the standard table again.
   * No placeholder character survives in any case.
   */
  function CleanPasteHtml(engine: Engine, reparse: string -> string, content: string): (r: string)
    ensures content == "" ==> r == ""
    ensures content != "" && !HasNonSpace(PasteFirstPass(engine, content)) ==>
      r == PasteFirstPass(engine, content)
    ensures content != "" && HasNonSpace(PasteFirstPass(engine, content)) ==>
      r == CleanHtml(engine, Filter(engine, reparse(PasteFirstPass(engine, content)), PasteQuoteRules()))
    ensures forall k | 0 <= k < |r| :: r[k] != Placeholder
  {
    if content == "" then ""
    else
      var first := PasteFirstPass(engine, content);
      if |first| == 0 || !HasNonSpace(first) then first
      else CleanHtml(engine, Filter(engine, reparse(first), PasteQuoteRules()))
  }

  /** Pasted content that cleans down to whitespace never reaches the DOM round trip. */
  lemma BlankPasteIgnoresReparse(engine: Engine, p1: string -> string, p2: string -> string, content: string)
    requires !HasNonSpace(PasteFirstPass(engine, content))
    ensures CleanPasteHtml(engine, p1, content) == CleanPasteHtml(engine, p2, content)
  {
  }

  /** The rule for `&nbsp;` leaves none behind: it has no character in common with its replacement. */
  lemma NbspRuleLeavesNone(engine: Engine, content: string)
    ensures !Occurs("&nbsp;", Apply(engine, CleanRules()[3], content))
  {
    assert CleanRules()[3] == Literal("&nbsp;", " ");
    ReplaceAllLeavesNoMatch(content, "&nbsp;", " ");
  }
}
