# Documentation page: Markdown export and section search

The documentation page of the ZOON canvas app (`apps/canvas/src/pages/DocsPage.tsx`)
holds two small pieces of logic:

- **"Copy as Markdown"** (`convertToMarkdown` and its inner `processNode`). It walks the
  DOM subtree of the open section and renders each node by tag: headings, paragraphs,
  `strong`, inline `code`, fenced `pre` blocks with a language from a `language-X` class,
  lists, links, and two special `div` classes. It then squeezes runs of three or more line
  feeds to two and trims the result.
- **The sidebar search.** A blank query shows every section. Any other query shows the
  sections whose lower-cased title or search text contains the lower-cased query, in table
  order.

The model is pure, as the source is:

| module | file | what it holds |
|---|---|---|
| `Wrappers` | `wrappers.dfy` | `Option` |
| `JsStrings` | `js_strings.dfy` | ECMAScript `trim`, `toLowerCase` and `includes` |
| `Dom` | `dom.dfy` | the node tree, `textContent`, `classList`, `querySelector` |
| `MarkdownText` | `markdown_text.dfy` | `/language-(\w+)/` and `replace(/\n{3,}/g, '\n\n')` |
| `Markdown` | `markdown.dfy` | `processNode`, `convertToMarkdown`, and the DOM the page's `CodeBlock` builds |
| `DocsSearch` | `docs_search.dfy` | the sections table and the search rule |

A DOM node is a closed datatype with three cases:

- `Text(data)`;
- `Element(tagName, className, href, children)`;
- `Other`, for comments and other nodes that are neither text nor element.

`processNode` reads `el.parentElement?.tagName`. The model passes that tag down as an
`Option<string>`: each element renders its children with its own lower-cased tag as their
parent tag. `querySelector` returns the found node together with its parent's tag, so the
code-block `div` can render the `pre` it finds with the `pre`'s real parent.

`querySelector` is modelled as a depth-first search, `FindIn`. It is proved equal to an
independent reference: the first tagged entry of the document-order (pre-order) listing of
the subtree.

## Model

| member | source | states |
|---|---|---|
| JsStrings.TrimStart | apps/canvas/src/pages/DocsPage.tsx:109 | the result is a suffix of the input that does not start with whitespace, and everything removed is whitespace |
| JsStrings.TrimEnd | apps/canvas/src/pages/DocsPage.tsx:109 | the result is a prefix of the input that does not end with whitespace, and everything removed is whitespace |
| JsStrings.IsWhitespace | apps/canvas/src/pages/DocsPage.tsx:115 | the characters `trim()` removes here and at lines 109, 129 and 141: the ECMAScript WhiteSpace and LineTerminator code points |
| JsStrings.Trim | apps/canvas/src/pages/DocsPage.tsx:115 | `trim()`: the result is a slice of the input with only whitespace on either side, and it neither starts nor ends with whitespace; it is empty exactly when the input is all whitespace |
| JsStrings.LowerChar | apps/canvas/src/pages/DocsPage.tsx:82 | upper-case ASCII letters map to their lower-case letter; every other character is unchanged |
| JsStrings.Lower | apps/canvas/src/pages/DocsPage.tsx:133 | `toLowerCase()`: same length, lower-cased character by character, and no upper-case ASCII letter is left |
| JsStrings.LowerKeepsBlank | apps/canvas/src/pages/DocsPage.tsx:129-133 | a string is all whitespace exactly when its lower-cased form is |
| JsStrings.IncludesIff | apps/canvas/src/pages/DocsPage.tsx:135-136 | `s.includes(t)` holds exactly when `t` occurs in `s` at some index |
| JsStrings.Includes | apps/canvas/src/pages/DocsPage.tsx:135-136 | `s.includes(t)`: `t` is a prefix of some suffix of `s`; IncludesIff ties it to an occurrence index |
| Dom.IsAsciiSpace | apps/canvas/src/pages/DocsPage.tsx:105-109 | the separators `classList` splits the `class` attribute on: space, tab, line feed, form feed and carriage return |
| Dom.TokenPrefix | apps/canvas/src/pages/DocsPage.tsx:105 | the longest prefix free of ASCII whitespace |
| Dom.ClassTokens | apps/canvas/src/pages/DocsPage.tsx:105-109 | the whitespace-separated tokens of the `class` attribute, in order and with repeats kept: non-empty, each included in the attribute, none holding ASCII whitespace |
| Dom.ClassTokensAreRuns | apps/canvas/src/pages/DocsPage.tsx:105-109 | the list holds exactly the maximal runs of characters other than ASCII whitespace of the attribute, wherever they stand and however they are separated |
| Dom.TokenBetweenSeparators | apps/canvas/src/pages/DocsPage.tsx:105-109 | a token with ASCII whitespace or an end of the attribute on each side is in the class list (a leading space, a tab, a doubled space) |
| Dom.HasClass | apps/canvas/src/pages/DocsPage.tsx:105-109 | `classList.contains(c)` holds exactly when `c` is a maximal whitespace-free run of the attribute |
| Dom.ClassTokensOfJoined | apps/canvas/src/pages/DocsPage.tsx:60 | splitting a space-joined list of class tokens gives back exactly those tokens, in order |
| Dom.FindIn | apps/canvas/src/pages/DocsPage.tsx:96 | a found node has the requested tag and is an entry of the forest's document-order listing; no result means no entry of that listing has the tag |
| Dom.QuerySelector | apps/canvas/src/pages/DocsPage.tsx:106 | `querySelector(tag)` on an element returns an entry, with that tag, of the document-order listing of its descendants (never the element itself), and returns nothing exactly when no descendant has the tag |
| Dom.FirstTagged | apps/canvas/src/pages/DocsPage.tsx:96 | returns the entry at an index that has the tag with no earlier entry having it; no result means no entry has the tag |
| Dom.FindInIsFirstInDocumentOrder | apps/canvas/src/pages/DocsPage.tsx:96 | the search returns exactly the first element with the tag in document order, with its parent's tag |
| Dom.TextContentInDocumentOrder | apps/canvas/src/pages/DocsPage.tsx:98 | `textContent` is the data of every descendant text node, concatenated in document order |
| Dom.Tag | apps/canvas/src/pages/DocsPage.tsx:82 | `tagName.toLowerCase()`: character by character the `LowerChar` of the tag name, so no upper-case ASCII letter remains and every other character is kept |
| Dom.TextContent | apps/canvas/src/pages/DocsPage.tsx:78-98 | `textContent`: a text node's data, nothing for other non-elements, an element's children's text; TextContentInDocumentOrder relates it to the document-order listing |
| Dom.TextContentAll | apps/canvas/src/pages/DocsPage.tsx:98 | the text of a forest; TextContentAllAppend and TextContentInDocumentOrder state what it is |
| Dom.TextContentAllAppend | apps/canvas/src/pages/DocsPage.tsx:98 | the text of a concatenated forest is the concatenation of the parts' text |
| Dom.Preorder | apps/canvas/src/pages/DocsPage.tsx:96 | the document-order listing of a forest has one entry per node |
| MarkdownText.IsWordChar | apps/canvas/src/pages/DocsPage.tsx:97 | the regular-expression class `\w`: ASCII letters, digits and `_` |
| MarkdownText.WordRun | apps/canvas/src/pages/DocsPage.tsx:97 | the greedy `\w*` run: the longest prefix made of word characters (empty before a non-word character); MatchLanguage only takes it after a word character, which makes it the `\w+` capture |
| MarkdownText.MatchLanguage | apps/canvas/src/pages/DocsPage.tsx:97 | a capture of `/language-(\w+)/` is a non-empty run of word characters |
| MarkdownText.MatchLanguageNoneIff | apps/canvas/src/pages/DocsPage.tsx:97 | the match fails exactly when no index holds `language-` followed by a word character |
| MarkdownText.MatchLanguageIsLeftmost | apps/canvas/src/pages/DocsPage.tsx:97 | a successful match captures the whole word run after `language-` at the leftmost index where the pattern matches |
| MarkdownText.LanguageOfClass | apps/canvas/src/pages/DocsPage.tsx:69-70 | the class `language-X`, with `X` a non-empty word, yields `X` |
| MarkdownText.LanguageOfBareClass | apps/canvas/src/pages/DocsPage.tsx:97 | the class `language-` with nothing after it does not match |
| MarkdownText.NoTripleNewlineIsNotIncludes | apps/canvas/src/pages/DocsPage.tsx:115 | "no three line feeds in a row" is `!s.includes('\n\n\n')` |
| MarkdownText.NewlineRun | apps/canvas/src/pages/DocsPage.tsx:115 | the number of leading line feeds: all of them are line feeds, and the next character is not |
| MarkdownText.CollapseNewlines | apps/canvas/src/pages/DocsPage.tsx:115 | `replace(/\n{3,}/g, '\n\n')` leaves no three line feeds in a row and keeps the first character; CollapseRunBetween fixes what each run becomes |
| MarkdownText.CollapseOfRun | apps/canvas/src/pages/DocsPage.tsx:115 | a run of `k` line feeds on its own becomes exactly two line feeds when `k >= 3` and is kept when `k < 3` |
| MarkdownText.CollapseAppend | apps/canvas/src/pages/DocsPage.tsx:115 | the replacement acts on each side of a boundary that no run of line feeds crosses, independently |
| MarkdownText.CollapseRunBetween | apps/canvas/src/pages/DocsPage.tsx:115 | a maximal run of `k` line feeds between two pieces becomes exactly `"\n\n"` when `k >= 3` and is kept when `k` is 1 or 2, each piece being replaced on its own |
| MarkdownText.CollapseIsIdentityIff | apps/canvas/src/pages/DocsPage.tsx:115 | the replacement changes a string exactly when it holds three line feeds in a row |
| MarkdownText.CollapseIdempotent | apps/canvas/src/pages/DocsPage.tsx:115 | replacing twice equals replacing once |
| MarkdownText.CollapseKeepsText | apps/canvas/src/pages/DocsPage.tsx:115 | the replacement touches only line feeds: all other characters survive, in order |
| MarkdownText.TrimKeepsNoTriple | apps/canvas/src/pages/DocsPage.tsx:115 | trimming a string without three line feeds in a row keeps it so |
| Markdown.CaseOf | apps/canvas/src/pages/DocsPage.tsx:85-111 | the `default` branch is taken exactly for the tags without a case of their own |
| Markdown.ProcessNode | apps/canvas/src/pages/DocsPage.tsx:77-113 | `processNode`: the switch on the lower-cased tag, with the parent's tag for the `code` case; the per-tag lemmas below state each case, PlainRendersAsText and CodeBlockExport relate it to independent definitions |
| Markdown.ProcessChildren | apps/canvas/src/pages/DocsPage.tsx:83 | `Array.from(el.childNodes).map(processNode).join('')` with the element's tag as each child's parent tag |
| Markdown.ProcessChildrenAppend | apps/canvas/src/pages/DocsPage.tsx:83 | rendering a concatenated list of children is concatenating the renderings, in order |
| Markdown.ProcessDiv | apps/canvas/src/pages/DocsPage.tsx:104-110 | the `div` case: code block first, then alert, then the children; CodeBlockDiv, AlertDiv and Transparent state it |
| Markdown.CodeBlockDom | apps/canvas/src/pages/DocsPage.tsx:59-72 | the DOM the `CodeBlock` component renders, element for element, with upper-case tag names as the DOM reports them |
| Markdown.CopyBlockMarkdown | apps/canvas/src/pages/DocsPage.tsx:53 | the fence `handleCopyMarkdown` writes to the clipboard |
| Markdown.PreLanguage | apps/canvas/src/pages/DocsPage.tsx:96-97 | the fence language is made of word characters, and is empty when the `pre` holds no `code` |
| Markdown.PreCode | apps/canvas/src/pages/DocsPage.tsx:98 | the fenced text is empty only when the `pre`'s whole text is empty |
| Markdown.ConvertToMarkdown | apps/canvas/src/pages/DocsPage.tsx:115 | the export never holds three line feeds in a row and neither starts nor ends with whitespace |
| Markdown.TextAndOtherNodes | apps/canvas/src/pages/DocsPage.tsx:78-79 | a text node renders as its data; a node that is neither text nor element renders as the empty string |
| Markdown.Heading | apps/canvas/src/pages/DocsPage.tsx:86-89 | `hN` (N = 1..4) renders as N `#`, one space, its rendered children and a blank line |
| Markdown.Paragraph | apps/canvas/src/pages/DocsPage.tsx:90 | `p` renders as its children followed by a blank line |
| Markdown.InlineAndLists | apps/canvas/src/pages/DocsPage.tsx:91-103 | `strong` renders as `**children**`, `li` as a dash line, `ul` as its children plus a line feed, and `a` as `[children](href)` with an empty target when `href` is missing |
| Markdown.InlineCode | apps/canvas/src/pages/DocsPage.tsx:92-94 | `code` whose parent is `pre` renders its children bare; any other `code` wraps them in backticks |
| Markdown.PreBlock | apps/canvas/src/pages/DocsPage.tsx:95-100 | `pre` renders as a fence with the language of its first `code` descendant's class and that descendant's text, or the `pre`'s own text when that is empty; its rendered children are not used |
| Markdown.CodeBlockDiv | apps/canvas/src/pages/DocsPage.tsx:104-108 | `div.docs-code-block` renders as its first `pre` descendant (with that `pre`'s parent), or as its children when it has none, whatever other classes it has |
| Markdown.AlertDiv | apps/canvas/src/pages/DocsPage.tsx:109 | `div.docs-alert`, when not a code block, renders as `> `, its trimmed children and a blank line |
| Markdown.Transparent | apps/canvas/src/pages/DocsPage.tsx:104-111 | unknown tags, and a `div` with neither class, render as their children in order |
| Markdown.PlainRendersAsText | apps/canvas/src/pages/DocsPage.tsx:77-83 | a tree of text and transparent elements renders as its `textContent` |
| Markdown.PlainChildrenRenderAsText | apps/canvas/src/pages/DocsPage.tsx:83 | the children of such a tree, rendered and joined, give their text, in order |
| Markdown.PlainExport | apps/canvas/src/pages/DocsPage.tsx:115 | the export of such a tree is its text with runs of line feeds squeezed, then trimmed |
| Markdown.CodeBlockFindsPre | apps/canvas/src/pages/DocsPage.tsx:59-72 | in the DOM a `CodeBlock` builds, `querySelector('pre')` finds the block's `pre`, with the block's `div` as its parent |
| Markdown.CodeBlockPre | apps/canvas/src/pages/DocsPage.tsx:69-70 | for a language made of word characters, as every language the page passes is (bash, go, json, python, rust, toml, typescript), that `pre` renders as the fence of its language and the code's text |
| Markdown.CodeBlockIsCodeBlockDiv | apps/canvas/src/pages/DocsPage.tsx:60 | the block's outer element is a `div` whose class list holds `docs-code-block` |
| Markdown.CodeBlockExport | apps/canvas/src/pages/DocsPage.tsx:53-72 | for a language made of word characters, as every language the page passes is (bash, go, json, python, rust, toml, typescript), a code block exports as the fence that the component's `handleCopyMarkdown` builds, here built from the `code` element's text (its `code` prop once rendered), plus a blank line; the header and highlighting markup are dropped |
| DocsSearch.Sections | apps/canvas/src/pages/DocsPage.tsx:23-34 | the page's ten sections, in sidebar order, with their ids, titles, icons and search words |
| DocsSearch.SectionIdsDistinct | apps/canvas/src/pages/DocsPage.tsx:23-34 | the table has ten entries and no two share an id, which keys each sidebar entry at line 169 |
| DocsSearch.FilterSections | apps/canvas/src/pages/DocsPage.tsx:134-137 | every kept section is in the table and matches, and every matching section is kept |
| DocsSearch.FilterAppend | apps/canvas/src/pages/DocsPage.tsx:134-137 | filtering a concatenation is concatenating the filtered parts |
| DocsSearch.FilterSingle | apps/canvas/src/pages/DocsPage.tsx:134-137 | one section is kept exactly when it matches |
| DocsSearch.FilterIsSubsequence | apps/canvas/src/pages/DocsPage.tsx:134-137 | the results keep the table's relative order |
| DocsSearch.FilterIdempotent | apps/canvas/src/pages/DocsPage.tsx:134-137 | filtering the results again changes nothing |
| DocsSearch.Matches | apps/canvas/src/pages/DocsPage.tsx:134-137 | a section matches exactly when the query occurs in its lower-cased title or in its lower-cased search text |
| DocsSearch.SearchResults | apps/canvas/src/pages/DocsPage.tsx:128-139 | the effect stores nothing for an all-whitespace query and otherwise the matches of the lower-cased (untrimmed) query |
| DocsSearch.FilteredSections | apps/canvas/src/pages/DocsPage.tsx:141-143 | an all-whitespace query shows every section in order, and any other query shows exactly the matches of its lower-cased form |
| DocsSearch.SearchIgnoresCase | apps/canvas/src/pages/DocsPage.tsx:133 | two queries that lower-case alike show the same sections |
| DocsSearch.BlankQueryExample | apps/canvas/src/pages/DocsPage.tsx:23-34 | on the page's table, a query of spaces and tabs lists all ten sections |
| DocsSearch.TitleQueryExample | apps/canvas/src/pages/DocsPage.tsx:29 | on the page's table, the query `RUST` finds the Rust section |

## Left out

- The ZOON codec (`encode`, `decode`, schema inference): `packages/zoon-core/src/index.ts` is not part of this model.
- React plumbing: the hooks, the JSX of the section components, `Prism` highlighting, `navigator.clipboard` and the `setTimeout` resets. Highlighting appears only as the arbitrary `body` nodes of a code block.
- Effect timing: the model gives the settled value of `filteredSections`, with `searchResults` recomputed from the current query. It does not model the render between a query change and its effect.
- `handleCopyMarkdown` (lines 52-57) is defined in `CodeBlock` but attached to no button; only `handleCopy` is, at line 64. The model keeps the string it would build, `CopyBlockMarkdown`, as the reference that CodeBlockExport compares the page export against.
- Markdown.CodeBlockPre: stated only for languages made of word characters. For another language, such as `c++`, the pattern of line 97 captures only the leading word characters (`c`).
- Markdown.CodeBlockExport: stated only for languages made of word characters, for the same reason: for `c++` the export's fence opens with `c`, while line 53 builds one with `c++`.
- The result-count line of the sidebar (lines 157-160): it is display text.
- `JsStrings.Lower`: lower-cases only ASCII letters. Full Unicode case mapping, such as `'İ'` becoming two code points, is not modelled.
- Dom.ClassTokens: keeps a repeated token once per occurrence, whereas `classList` is an ordered set that drops repeats. The page only calls `classList.contains` (lines 105 and 109), which is the same on both, as `Dom.ClassTokensAreRuns` shows.
- A JavaScript string is modelled as a sequence of code points, not of UTF-16 code units.
- DOM details outside the tree: namespaces, CDATA sections and attributes other than `class` and `href`. `querySelector` compares lower-cased tag names.
- The parent of the exported root is a parameter, `rootParent`, since only the caller knows it.
- `apps/canvas/src/App.tsx` holds routing markup only.

The source's pattern `/language-(\w+)/` does not necessarily use the first `language-` in a
class. When the first `language-` is not followed by a word character, the search goes on to
the next one. The model does the same (`MarkdownText.MatchLanguageIsLeftmost` names the index).
