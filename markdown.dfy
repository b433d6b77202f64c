/** The "Copy as Markdown" export of the documentation page: the recursive
    `processNode` that renders a DOM tree tag by tag, and `convertToMarkdown`,
    which renders the open section and tidies the result. */
module Markdown {
  import opened Wrappers
  import opened JsStrings
  import opened Dom
  import opened MarkdownText

  /** The tags `processNode` gives a rendering of their own. */
  const RenderedTags: set<string> :=
    {"h1", "h2", "h3", "h4", "p", "strong", "code", "pre", "ul", "li", "a", "div"}

  /** The cases of the `switch (tag)` in `processNode`. */
  datatype TagCase = H1 | H2 | H3 | H4 | Para | Strong | Code | Pre | List | Item | Link | Div | Default

  function CaseOf(tag: string): (c: TagCase)
    ensures c == Default <==> tag !in RenderedTags
  {
    if tag == "h1" then H1
    else if tag == "h2" then H2
    else if tag == "h3" then H3
    else if tag == "h4" then H4
    else if tag == "p" then Para
    else if tag == "strong" then Strong
    else if tag == "code" then Code
    else if tag == "pre" then Pre
    else if tag == "ul" then List
    else if tag == "li" then Item
    else if tag == "a" then Link
    else if tag == "div" then Div
    else Default
  }

  /** `processNode(node)`. `parent` is the lower-cased tag of the node's
      parent element, or `None` when it has none; a node's children are
      rendered with its own tag as their parent's. */
  function ProcessNode(n: Node, parent: Option<string>): string
    decreases Size(n), 1
  {
    match n
    case Text(d) => d
    case Other => ""
    case Element(tagName, _, href, cs) =>
      var tag := Lower(tagName);
      var children := ProcessChildren(cs, tag);
      match CaseOf(tag)
      case H1 => "# " + children + "\n\n"
      case H2 => "## " + children + "\n\n"
      case H3 => "### " + children + "\n\n"
      case H4 => "#### " + children + "\n\n"
      case Para => children + "\n\n"
      case Strong => "**" + children + "**"
      case Code => if parent == Some("pre") then children else "`" + children + "`"
      case Pre => "```" + PreLanguage(n) + "\n" + PreCode(n) + "\n```\n\n"
      case List => children + "\n"
      case Item => "- " + children + "\n"
      case Link => "[" + children + "](" + href.GetOr("") + ")"
      case Div => ProcessDiv(n, children)
      case Default => children
  }

  /** The `div` case: a code block renders as its first `pre`, an alert as a
      quote line, any other `div` as its rendered children. */
  function ProcessDiv(n: Node, children: string): string
    requires n.Element?
    decreases Size(n), 0
  {
    if HasClass(n, "docs-code-block") then
      match QuerySelector(n, "pre")
      case Some(pre) => ProcessNode(pre.node, Some(pre.parentTag))
      case None => children
    else if HasClass(n, "docs-alert") then "> " + Trim(children) + "\n\n"
    else children
  }

  /** `Array.from(el.childNodes).map(processNode).join('')` for the children
      `cs` of an element with tag `parentTag`. */
  function ProcessChildren(cs: seq<Node>, parentTag: string): string
    decreases SizeAll(cs), 2
  {
    if cs == [] then "" else ProcessNode(cs[0], Some(parentTag)) + ProcessChildren(cs[1..], parentTag)
  }

  /** Rendering the children is rendering each child with the same parent
      tag and joining the results in order. */
  lemma {:induction false} ProcessChildrenAppend(a: seq<Node>, b: seq<Node>, parentTag: string)
    ensures ProcessChildren(a + b, parentTag) == ProcessChildren(a, parentTag) + ProcessChildren(b, parentTag)
  {
    if a == [] {
      assert a + b == b;
    } else {
      assert (a + b)[1..] == a[1..] + b;
      ProcessChildrenAppend(a[1..], b, parentTag);
    }
  }

  /** The fence language of a `pre`: the `language-` capture of the class of
      its first `code` descendant, or empty. */
  function PreLanguage(pre: Node): (lang: string)
    ensures AllWordChars(lang)
    ensures QuerySelector(pre, "code").None? ==> lang == ""
  {
    match QuerySelector(pre, "code")
    case Some(code) => MatchLanguage(code.node.className).GetOr("")
    case None => ""
  }

  /** The fenced text of a `pre`: the text of its first `code` descendant,
      or the `pre`'s own text when that is empty. */
  function PreCode(pre: Node): (code: string)
    ensures code == "" ==> TextContent(pre) == ""
  {
    match QuerySelector(pre, "code")
    case Some(c) => if TextContent(c.node) != "" then TextContent(c.node) else TextContent(pre)
    case None => TextContent(pre)
  }

  /** `convertToMarkdown(root)`: render, squeeze runs of three or more line
      feeds to two, trim. The result never holds three line feeds in a row
      and neither starts nor ends with whitespace. */
  function ConvertToMarkdown(root: Node, rootParent: Option<string>): (md: string)
    ensures NoTripleNewline(md)
    ensures md == [] || (!IsWhitespace(md[0]) && !IsWhitespace(md[|md| - 1]))
  {
    var collapsed := CollapseNewlines(ProcessNode(root, rootParent));
    TrimKeepsNoTriple(collapsed);
    Trim(collapsed)
  }

  // ---------------------------------------------------------------------
  // What each kind of node renders as

  /** Text renders verbatim; comments and the like render as nothing. */
  lemma TextAndOtherNodes(d: string, parent: Option<string>)
    ensures ProcessNode(Text(d), parent) == d
    ensures ProcessNode(Other, parent) == ""
  {
  }

  function HeadingTag(level: nat): string
    requires 1 <= level <= 4
  {
    "h" + [('0' as int + level) as char]
  }

  /** `hN` renders as N hash marks, a space, its children and a blank line. */
  lemma Heading(n: Node, parent: Option<string>, level: nat)
    requires n.Element? && 1 <= level <= 4 && Tag(n) == HeadingTag(level)
    ensures ProcessNode(n, parent) == Repeat('#', level) + " " + ProcessChildren(n.children, Tag(n)) + "\n\n"
  {
    if level == 1 {
      assert HeadingTag(1) == "h1";
      assert Repeat('#', 1) == "#";
    } else if level == 2 {
      assert HeadingTag(2) == "h2";
      assert Repeat('#', 2) == "##";
    } else if level == 3 {
      assert HeadingTag(3) == "h3";
      assert Repeat('#', 3) == "###";
    } else {
      assert HeadingTag(4) == "h4";
      assert Repeat('#', 4) == "####";
    }
  }

  /** A paragraph is its children followed by a blank line. */
  lemma Paragraph(n: Node, parent: Option<string>)
    requires n.Element? && Tag(n) == "p"
    ensures ProcessNode(n, parent) == ProcessChildren(n.children, "p") + "\n\n"
  {
  }

  /** `strong` is wrapped in double asterisks, a list item is a dash line, a
      list adds a line feed, a link uses its `href` or the empty string. */
  lemma InlineAndLists(n: Node, parent: Option<string>)
    requires n.Element?
    ensures Tag(n) == "strong" ==> ProcessNode(n, parent) == "**" + ProcessChildren(n.children, "strong") + "**"
    ensures Tag(n) == "li" ==> ProcessNode(n, parent) == "- " + ProcessChildren(n.children, "li") + "\n"
    ensures Tag(n) == "ul" ==> ProcessNode(n, parent) == ProcessChildren(n.children, "ul") + "\n"
    ensures Tag(n) == "a" ==>
              ProcessNode(n, parent) ==
              "[" + ProcessChildren(n.children, "a") + "](" + (if n.href.Some? then n.href.value else "") + ")"
  {
  }

  /** `code` directly inside `pre` is left bare; any other `code` is wrapped
      in single backticks. */
  lemma InlineCode(n: Node, parent: Option<string>)
    requires n.Element? && Tag(n) == "code"
    ensures parent == Some("pre") ==> ProcessNode(n, parent) == ProcessChildren(n.children, "code")
    ensures parent != Some("pre") ==> ProcessNode(n, parent) == "`" + ProcessChildren(n.children, "code") + "`"
  {
  }

  /** A `pre` is a fenced block: the language of its first `code`
      descendant's class, then that descendant's text (the `pre`'s own text
      when it is empty). The rendering of its children is not used. */
  lemma PreBlock(n: Node, parent: Option<string>)
    requires n.Element? && Tag(n) == "pre"
    ensures var code := QuerySelector(n, "code");
            var lang := if code.Some? && MatchLanguage(code.value.node.className).Some?
                        then MatchLanguage(code.value.node.className).value else "";
            var text := if code.Some? && TextContent(code.value.node) != ""
                        then TextContent(code.value.node) else TextContent(n);
            ProcessNode(n, parent) == "```" + lang + "\n" + text + "\n```\n\n"
  {
  }

  /** A `div.docs-code-block` renders as its first `pre` descendant, or as
      its children when it has none, whatever other classes it carries. */
  lemma CodeBlockDiv(n: Node, parent: Option<string>)
    requires n.Element? && Tag(n) == "div" && HasClass(n, "docs-code-block")
    ensures var pre := QuerySelector(n, "pre");
            ProcessNode(n, parent) ==
            if pre.Some? then ProcessNode(pre.value.node, Some(pre.value.parentTag))
            else ProcessChildren(n.children, "div")
  {
    DivCase(n, parent);
  }

  /** A `div.docs-alert` (that is not also a code block) is a quote line of
      its trimmed children. */
  lemma AlertDiv(n: Node, parent: Option<string>)
    requires n.Element? && Tag(n) == "div" && !HasClass(n, "docs-code-block") && HasClass(n, "docs-alert")
    ensures ProcessNode(n, parent) == "> " + Trim(ProcessChildren(n.children, "div")) + "\n\n"
  {
    DivCase(n, parent);
  }

  lemma DivCase(n: Node, parent: Option<string>)
    requires n.Element? && Tag(n) == "div"
    ensures ProcessNode(n, parent) == ProcessDiv(n, ProcessChildren(n.children, "div"))
  {
    assert CaseOf(Tag(n)) == Div;
  }

  /** An element whose tag has no rendering of its own, or a `div` without
      either class, renders as its children, in order. */
  predicate IsTransparent(n: Node)
    requires n.Element?
  {
    && (Tag(n) !in RenderedTags
        || (Tag(n) == "div" && !HasClass(n, "docs-code-block") && !HasClass(n, "docs-alert")))
  }

  lemma Transparent(n: Node, parent: Option<string>)
    requires n.Element? && IsTransparent(n)
    ensures ProcessNode(n, parent) == ProcessChildren(n.children, Tag(n))
  {
  }

  /** A tree of text and transparent elements only. */
  predicate Plain(n: Node)
    decreases Size(n), 1
  {
    match n
    case Element(_, _, _, cs) => IsTransparent(n) && PlainAll(cs)
    case _ => true
  }

  predicate PlainAll(cs: seq<Node>)
    decreases SizeAll(cs), 2
  {
    cs == [] || (Plain(cs[0]) && PlainAll(cs[1..]))
  }

  /** A plain tree renders as its text content: markup without a rendering
      of its own adds nothing and drops nothing. */
  lemma {:induction false} PlainRendersAsText(n: Node, parent: Option<string>)
    requires Plain(n)
    ensures ProcessNode(n, parent) == TextContent(n)
    decreases Size(n), 1
  {
    if n.Element? {
      PlainChildrenRenderAsText(n.children, Tag(n));
    }
  }

  lemma {:induction false} PlainChildrenRenderAsText(cs: seq<Node>, parentTag: string)
    requires PlainAll(cs)
    ensures ProcessChildren(cs, parentTag) == TextContentAll(cs)
    decreases SizeAll(cs), 2
  {
    if cs != [] {
      PlainRendersAsText(cs[0], Some(parentTag));
      PlainChildrenRenderAsText(cs[1..], parentTag);
    }
  }

  /** The export of a plain tree is its tidied text content. */
  lemma PlainExport(n: Node, parent: Option<string>)
    requires Plain(n)
    ensures ConvertToMarkdown(n, parent) == Trim(CollapseNewlines(TextContent(n)))
  {
    PlainRendersAsText(n, parent);
  }

  // ---------------------------------------------------------------------
  // The code blocks of the page

  /** The tree the page's `CodeBlock` component puts in the DOM: a
      `div.docs-code-block` holding a header (the caption and the copy button)
      and a `pre` whose only child is the `code` element. `body` is whatever
      the `code` element holds once the highlighter has run. */
  function CodeBlockDom(language: string, caption: string, buttonText: string, body: seq<Node>): Node {
    var cls := LanguagePrefix + language;
    Element("DIV", "docs-code-block", None, [
      Element("DIV", "docs-code-header", None, [
        Element("SPAN", "", None, [Text(caption)]),
        Element("DIV", "code-actions", None, [
          Element("BUTTON", "code-action-btn", None, [Text(buttonText)])])]),
      Element("PRE", cls, None, [Element("CODE", cls, None, body)])])
  }

  /** The string the component's own "copy as Markdown" handler builds for
      one block. */
  function CopyBlockMarkdown(code: string, language: string): string {
    "```" + language + "\n" + code + "\n```"
  }

  lemma LowerTagNames()
    ensures Lower("DIV") == "div" && Lower("PRE") == "pre" && Lower("CODE") == "code"
    ensures Lower("SPAN") == "span" && Lower("BUTTON") == "button"
  {
  }

  /** The `pre` of a code block, with the block as its parent. */
  lemma CodeBlockFindsPre(language: string, caption: string, buttonText: string, body: seq<Node>)
    ensures var n := CodeBlockDom(language, caption, buttonText, body);
            QuerySelector(n, "pre") == Some(Found(n.children[1], "div"))
  {
    var n := CodeBlockDom(language, caption, buttonText, body);
    var header := n.children[0];
    LowerTagNames();
    assert FindIn(header.children[1].children, "div", "pre").None?;
    assert FindIn(header.children, "div", "pre").None?;
    assert FindIn(n.children, "div", "pre") == Some(Found(n.children[1], "div"));
  }

  /** The `pre` of a code block renders as the block's fence. */
  lemma CodeBlockPre(language: string, body: seq<Node>, parent: Option<string>)
    requires AllWordChars(language)
    ensures var cls := LanguagePrefix + language;
            ProcessNode(Element("PRE", cls, None, [Element("CODE", cls, None, body)]), parent) ==
            CopyBlockMarkdown(TextContentAll(body), language) + "\n\n"
  {
    var cls := LanguagePrefix + language;
    var code := Element("CODE", cls, None, body);
    var pre := Element("PRE", cls, None, [code]);
    LowerTagNames();
    assert QuerySelector(pre, "code") == Some(Found(code, "pre"));
    if language == "" {
      assert cls == LanguagePrefix;
      LanguageOfBareClass();
    } else {
      LanguageOfClass(language);
    }
    assert PreLanguage(pre) == language;
    assert TextContentAll([code]) == TextContent(code) + TextContentAll([]);
    assert TextContent(pre) == TextContent(code);
    assert PreCode(pre) == TextContentAll(body);
    assert CaseOf("pre") == Pre;
  }

  /** A code block exports as a fence with its language and its code text,
      the same string the block's own copy handler builds, followed by a
      blank line: the header is dropped and highlighting markup is ignored. */
  lemma CodeBlockExport(language: string, caption: string, buttonText: string, body: seq<Node>,
                        parent: Option<string>)
    requires AllWordChars(language)
    ensures ProcessNode(CodeBlockDom(language, caption, buttonText, body), parent) ==
            CopyBlockMarkdown(TextContentAll(body), language) + "\n\n"
  {
    var n := CodeBlockDom(language, caption, buttonText, body);
    CodeBlockIsCodeBlockDiv(language, caption, buttonText, body);
    CodeBlockDiv(n, parent);
    CodeBlockFindsPre(language, caption, buttonText, body);
    CodeBlockPre(language, body, Some("div"));
  }

  lemma CodeBlockIsCodeBlockDiv(language: string, caption: string, buttonText: string, body: seq<Node>)
    ensures var n := CodeBlockDom(language, caption, buttonText, body);
            Tag(n) == "div" && HasClass(n, "docs-code-block")
  {
    assert Lower("DIV") == "div";
    assert IsClassToken("docs-code-block");
    assert JoinClasses(["docs-code-block"]) == "docs-code-block";
    ClassTokensOfJoined(["docs-code-block"]);
  }
}
