/** The part of the browser DOM that the Markdown export reads: a tree of
    text nodes and elements, the `textContent` of a node, the `classList` of
    an element and `querySelector` with a single tag-name selector. */
module Dom {
  import opened Wrappers
  import opened JsStrings

  /** A DOM node. `Other` stands for every node that is neither a text node
      nor an element (comments, processing instructions). An element keeps
      its tag name as the DOM reports it, its `class` attribute, its `href`
      attribute if it has one, and its child nodes in document order. */
  datatype Node =
    | Text(data: string)
    | Element(tagName: string, className: string, href: Option<string>, children: seq<Node>)
    | Other

  /** The number of nodes in a tree; it decreases from a node to any of its
      descendants. */
  function Size(n: Node): (k: nat)
    ensures k >= 1
  {
    match n
    case Element(_, _, _, cs) => 1 + SizeAll(cs)
    case _ => 1
  }

  function SizeAll(cs: seq<Node>): nat {
    if cs == [] then 0 else Size(cs[0]) + SizeAll(cs[1..])
  }

  /** The children of the first node of `cs` weigh less than `cs`. */
  lemma HeadChildrenSmaller(cs: seq<Node>)
    requires cs != [] && cs[0].Element?
    ensures SizeAll(cs[0].children) < SizeAll(cs)
  {
    assert Size(cs[0]) == 1 + SizeAll(cs[0].children);
  }

  /** `tagName.toLowerCase()`. The first and last ensures fix the result; the
      middle two spell out what follows from `LowerChar`, so that callers
      need not unfold it. */
  function Tag(n: Node): (t: string)
    requires n.Element?
    ensures |t| == |n.tagName|
    ensures forall i :: 0 <= i < |t| ==> !('A' <= t[i] <= 'Z')
    ensures forall i :: 0 <= i < |t| && !('A' <= n.tagName[i] <= 'Z') ==> t[i] == n.tagName[i]
    ensures forall i :: 0 <= i < |t| ==> t[i] == LowerChar(n.tagName[i])
  {
    Lower(n.tagName)
  }

  /** `textContent`: the data of every descendant text node, in document
      order; comments and the like contribute nothing. */
  function TextContent(n: Node): string
    decreases Size(n), 1
  {
    match n
    case Text(d) => d
    case Other => ""
    case Element(_, _, _, cs) => TextContentAll(cs)
  }

  function TextContentAll(cs: seq<Node>): string
    decreases SizeAll(cs), 2
  {
    if cs == [] then "" else TextContent(cs[0]) + TextContentAll(cs[1..])
  }

  /** The text of a forest is the text of its parts, in order. */
  lemma {:induction false} TextContentAllAppend(a: seq<Node>, b: seq<Node>)
    ensures TextContentAll(a + b) == TextContentAll(a) + TextContentAll(b)
  {
    if a == [] {
      assert a + b == b;
    } else {
      assert (a + b)[1..] == a[1..] + b;
      TextContentAllAppend(a[1..], b);
    }
  }

  // ---------------------------------------------------------------------
  // classList

  /** The ASCII whitespace that separates the tokens of a `class` attribute. */
  predicate IsAsciiSpace(c: char) {
    c == ' ' || c == '\t' || c == '\n' || c == '\U{000C}' || c == '\r'
  }

  /** The longest prefix of `s` free of ASCII whitespace. */
  function TokenPrefix(s: string): (w: string)
    ensures w <= s
    ensures forall i :: 0 <= i < |w| ==> !IsAsciiSpace(w[i])
    ensures |w| == |s| || IsAsciiSpace(s[|w|])
  {
    if s == [] || IsAsciiSpace(s[0]) then [] else [s[0]] + TokenPrefix(s[1..])
  }

  /** The whitespace-separated tokens of a `class` attribute, in order and
      with repeats kept (`classList` itself drops repeats, which changes
      nothing for `contains`). */
  function ClassTokens(s: string): (ws: seq<string>)
    ensures forall k :: 0 <= k < |ws| ==> ws[k] != [] && Includes(s, ws[k])
    ensures forall k, i :: 0 <= k < |ws| && 0 <= i < |ws[k]| ==> !IsAsciiSpace(ws[k][i])
    decreases |s|
  {
    if s == [] then []
    else if IsAsciiSpace(s[0]) then
      ClassTokens(s[1..])
    else
      var w := TokenPrefix(s);
      var ws := ClassTokens(s[|w|..]);
      IncludesTail(s, |w|, ws);
      [w] + ws
  }

  /** Everything included in a suffix of `s` is included in `s`. */
  lemma {:induction false} IncludesTail(s: string, j: nat, ws: seq<string>)
    requires j <= |s|
    requires forall k :: 0 <= k < |ws| ==> Includes(s[j..], ws[k])
    ensures forall k :: 0 <= k < |ws| ==> Includes(s, ws[k])
  {
    forall k | 0 <= k < |ws| ensures Includes(s, ws[k]) {
      IncludesIff(s[j..], ws[k]);
      var i :| OccursAt(s[j..], ws[k], i);
      assert s[j + i..j + i + |ws[k]|] == s[j..][i..i + |ws[k]|];
      assert OccursAt(s, ws[k], j + i);
      IncludesIff(s, ws[k]);
    }
  }

  /** `w` is a token of the attribute `s` starting at index `i`: a maximal
      run of characters other than ASCII whitespace. */
  ghost predicate IsTokenAt(s: string, w: string, i: int) {
    && w != [] && 0 <= i && i + |w| <= |s| && s[i..i + |w|] == w
    && (forall m :: 0 <= m < |w| ==> !IsAsciiSpace(w[m]))
    && (i == 0 || IsAsciiSpace(s[i - 1]))
    && (i + |w| == |s| || IsAsciiSpace(s[i + |w|]))
  }

  /** TokenPrefix is the unique length of a leading run free of ASCII
      whitespace. */
  lemma TokenPrefixIs(s: string, k: nat)
    requires k <= |s| && (forall j :: 0 <= j < k ==> !IsAsciiSpace(s[j]))
    requires k == |s| || IsAsciiSpace(s[k])
    ensures |TokenPrefix(s)| == k
  {
  }

  /** Tokens at or after index `d`, just past a space, are the tokens of the
      suffix from `d`. */
  lemma TokenShift(s: string, d: nat, w: string, i: int)
    requires 0 < d <= |s| && IsAsciiSpace(s[d - 1]) && d <= i
    ensures IsTokenAt(s, w, i) <==> IsTokenAt(s[d..], w, i - d)
  {
    if i + |w| <= |s| {
      assert s[d..][i - d..i - d + |w|] == s[i..i + |w|];
      if i > d {
        assert s[d..][i - d - 1] == s[i - 1];
      }
      if i + |w| < |s| {
        assert s[d..][i - d + |w|] == s[i + |w|];
      }
    }
  }

  /** The token at index 0 of an attribute that starts with a token
      character is its TokenPrefix. */
  lemma TokenAtStart(s: string, w: string)
    requires s != [] && !IsAsciiSpace(s[0])
    ensures IsTokenAt(s, w, 0) <==> w == TokenPrefix(s)
  {
    var w0 := TokenPrefix(s);
    if IsTokenAt(s, w, 0) {
      assert forall j :: 0 <= j < |w| ==> s[j] == w[j];
      TokenPrefixIs(s, |w|);
      assert w == s[..|w|];
    }
    if w == w0 {
      assert s[0..|w0|] == w0;
    }
  }

  /** `w` is a token of the attribute `s`. */
  ghost predicate IsToken(s: string, w: string) {
    exists i :: IsTokenAt(s, w, i)
  }

  /** The tokens, and so the set `classList` holds, are exactly the maximal
      runs of characters other than ASCII whitespace of the attribute,
      wherever they stand and however many spaces, tabs or line breaks
      separate them. */
  lemma {:induction false} ClassTokensAreRuns(s: string)
    ensures forall w :: w in ClassTokens(s) <==> IsToken(s, w)
    decreases |s|
  {
    if s == [] {
    } else if IsAsciiSpace(s[0]) {
      ClassTokensAreRuns(s[1..]);
      forall w ensures w in ClassTokens(s) <==> IsToken(s, w) {
        TokensAfterSpace(s, w);
      }
    } else {
      var d := |TokenPrefix(s)|;
      if d < |s| {
        var t := s[d + 1..];
        assert s[d..][1..] == t;
        ClassTokensAreRuns(t);
        forall w ensures w in ClassTokens(s) <==> IsToken(s, w) {
          TokensAfterPrefix(s, w, t);
        }
      } else {
        forall w ensures w in ClassTokens(s) <==> IsToken(s, w) {
          TokensOfWholePrefix(s, w);
        }
      }
    }
  }

  lemma TokensAfterSpace(s: string, w: string)
    requires s != [] && IsAsciiSpace(s[0])
    requires w in ClassTokens(s[1..]) <==> IsToken(s[1..], w)
    ensures w in ClassTokens(s) <==> IsToken(s, w)
  {
    if IsToken(s, w) {
      var i :| IsTokenAt(s, w, i);
      assert w[0] == s[i];
      TokenShift(s, 1, w, i);
    }
    if IsToken(s[1..], w) {
      var i :| IsTokenAt(s[1..], w, i);
      TokenShift(s, 1, w, i + 1);
    }
  }

  /** An attribute that is one token has only that token. */
  lemma TokensOfWholePrefix(s: string, w: string)
    requires s != [] && !IsAsciiSpace(s[0]) && |TokenPrefix(s)| == |s|
    ensures w in ClassTokens(s) <==> IsToken(s, w)
  {
    var w0 := TokenPrefix(s);
    TokenAtStart(s, w);
    assert s[|w0|..] == [];
    assert ClassTokens(s) == [w0];
    assert forall j :: 0 <= j < |s| ==> s[j] == w0[j];
  }

  /** An attribute that starts with a token and goes on after a space. */
  lemma TokensAfterPrefix(s: string, w: string, t: string)
    requires s != [] && !IsAsciiSpace(s[0]) && |TokenPrefix(s)| < |s|
    requires t == s[|TokenPrefix(s)| + 1..]
    requires ClassTokens(s[|TokenPrefix(s)|..]) == ClassTokens(t)
    requires w in ClassTokens(t) <==> IsToken(t, w)
    ensures w in ClassTokens(s) <==> IsToken(s, w)
  {
    ClassTokensOfPrefix(s);
    TokenAtStart(s, w);
    if IsToken(s, w) {
      TokenOfPrefixed(s, w, t);
    }
    if IsToken(t, w) {
      var i :| IsTokenAt(t, w, i);
      TokenShift(s, |TokenPrefix(s)| + 1, w, i + |TokenPrefix(s)| + 1);
    }
  }

  /** A token of `s` other than its first is a token of `t`. */
  lemma TokenOfPrefixed(s: string, w: string, t: string)
    requires s != [] && !IsAsciiSpace(s[0]) && |TokenPrefix(s)| < |s|
    requires t == s[|TokenPrefix(s)| + 1..]
    requires IsToken(s, w)
    ensures w == TokenPrefix(s) || IsToken(t, w)
  {
    var i :| IsTokenAt(s, w, i);
    TokenAtStart(s, w);
    if i != 0 {
      TokenPastPrefix(s, w, i);
      TokenShift(s, |TokenPrefix(s)| + 1, w, i);
    }
  }

  lemma ClassTokensOfPrefix(s: string)
    requires s != [] && !IsAsciiSpace(s[0])
    ensures ClassTokens(s) == [TokenPrefix(s)] + ClassTokens(s[|TokenPrefix(s)|..])
  {
  }

  /** A token other than the first starts past the first token and the
      space after it. */
  lemma TokenPastPrefix(s: string, w: string, i: int)
    requires s != [] && !IsAsciiSpace(s[0]) && IsTokenAt(s, w, i) && i != 0
    ensures i > |TokenPrefix(s)|
  {
    var w0 := TokenPrefix(s);
    assert IsAsciiSpace(s[i - 1]) && !IsAsciiSpace(s[i]) by {
      assert s[i] == w[0];
    }
    assert forall j :: 0 <= j < |w0| ==> s[j] == w0[j];
  }

  /** `classList.contains(c)`: `c` is one of the attribute's tokens. */
  predicate HasClass(n: Node, c: string)
    requires n.Element?
    ensures HasClass(n, c) <==> IsToken(n.className, c)
  {
    ClassTokensAreRuns(n.className);
    c in ClassTokens(n.className)
  }

  /** A token stands in the class list whatever ASCII whitespace (or none,
      at either end) surrounds it in the attribute, so the class is found
      after a leading space, a tab or a doubled space alike. */
  lemma TokenBetweenSeparators(a: string, w: string, b: string)
    requires IsClassToken(w)
    requires a == [] || IsAsciiSpace(a[|a| - 1])
    requires b == [] || IsAsciiSpace(b[0])
    ensures w in ClassTokens(a + w + b)
  {
    var s := a + w + b;
    assert s[|a|..|a| + |w|] == w;
    assert IsTokenAt(s, w, |a|);
    ClassTokensAreRuns(s);
  }

  /** Tokens joined by single spaces, as a `className` is written. */
  function JoinClasses(ws: seq<string>): string {
    if ws == [] then "" else if |ws| == 1 then ws[0] else ws[0] + " " + JoinClasses(ws[1..])
  }

  ghost predicate IsClassToken(w: string) {
    w != [] && forall i :: 0 <= i < |w| ==> !IsAsciiSpace(w[i])
  }

  /** Splitting a `className` written as space-separated tokens gives back
      exactly those tokens, in order. */
  lemma {:induction false} ClassTokensOfJoined(ws: seq<string>)
    requires forall k :: 0 <= k < |ws| ==> IsClassToken(ws[k])
    ensures ClassTokens(JoinClasses(ws)) == ws
  {
    if ws == [] {
    } else {
      var w := ws[0];
      var rest := if |ws| == 1 then "" else " " + JoinClasses(ws[1..]);
      var s := w + rest;
      assert JoinClasses(ws) == s;
      TokenPrefixOf(w, rest);
      assert s[|w|..] == rest;
      if |ws| == 1 {
        assert ClassTokens(rest) == [];
      } else {
        ClassTokensOfJoined(ws[1..]);
        assert rest[1..] == JoinClasses(ws[1..]);
        assert ClassTokens(rest) == ClassTokens(rest[1..]);
      }
    }
  }

  lemma {:induction false} TokenPrefixOf(w: string, rest: string)
    requires IsClassToken(w)
    requires rest == [] || IsAsciiSpace(rest[0])
    ensures TokenPrefix(w + rest) == w
  {
    var s := w + rest;
    if |w| == 1 {
      assert s[1..] == rest;
      assert TokenPrefix(rest) == [];
    } else {
      assert s[1..] == w[1..] + rest;
      TokenPrefixOf(w[1..], rest);
    }
  }

  // ---------------------------------------------------------------------
  // querySelector

  /** A node reached while searching, together with the lower-cased tag of
      its parent element (`parentElement.tagName.toLowerCase()`). */
  datatype Found = Found(node: Node, parentTag: string)

  /** `true` when `f` is an element whose lower-cased tag is `tag`. */
  predicate IsTagged(f: Found, tag: string) {
    f.node.Element? && Tag(f.node) == tag
  }

  /** Depth-first search of the forest `cs`, children of an element whose
      tag is `parentTag`, for the first element with tag `tag`. */
  function FindIn(cs: seq<Node>, parentTag: string, tag: string): (r: Option<Found>)
    ensures r.Some? ==> IsTagged(r.value, tag) && r.value in Preorder(cs, parentTag)
    ensures r.Some? ==> Size(r.value.node) <= SizeAll(cs)
    ensures r.None? ==> forall f :: f in Preorder(cs, parentTag) ==> !IsTagged(f, tag)
    decreases SizeAll(cs)
  {
    if cs == [] then None
    else
      var c := cs[0];
      if c.Element? && Tag(c) == tag then Some(Found(c, parentTag))
      else
        var inner := if c.Element? then HeadChildrenSmaller(cs); FindIn(c.children, Tag(c), tag) else None;
        if inner.Some? then inner else FindIn(cs[1..], parentTag, tag)
  }

  /** `n.querySelector(tag)`: the first descendant of `n` (never `n`
      itself) whose tag is `tag`, with its parent's tag. */
  function QuerySelector(n: Node, tag: string): (r: Option<Found>)
    ensures r.Some? ==> n.Element? && IsTagged(r.value, tag) && r.value in Preorder(n.children, Tag(n))
    ensures r.Some? ==> Size(r.value.node) < Size(n)
    ensures r.None? && n.Element? ==> forall f :: f in Preorder(n.children, Tag(n)) ==> !IsTagged(f, tag)
  {
    match n
    case Element(t, _, _, cs) => FindIn(cs, Lower(t), tag)
    case _ => None
  }

  /** Every descendant of the forest `cs` in document (pre-)order. */
  function Preorder(cs: seq<Node>, parentTag: string): (fs: seq<Found>)
    ensures |fs| == SizeAll(cs)
    decreases SizeAll(cs)
  {
    if cs == [] then []
    else
      var c := cs[0];
      var below := if c.Element? then HeadChildrenSmaller(cs); Preorder(c.children, Tag(c)) else [];
      [Found(c, parentTag)] + below + Preorder(cs[1..], parentTag)
  }

  /** Entry `j` of `fs` has tag `tag` and no earlier entry has. */
  ghost predicate FirstTaggedAt(fs: seq<Found>, tag: string, j: int) {
    0 <= j < |fs| && IsTagged(fs[j], tag) && forall k :: 0 <= k < j ==> !IsTagged(fs[k], tag)
  }

  /** The first entry of `fs` with tag `tag`. */
  function FirstTagged(fs: seq<Found>, tag: string): (r: Option<Found>)
    ensures r.Some? ==> exists j :: FirstTaggedAt(fs, tag, j) && fs[j] == r.value
    ensures r.None? ==> forall f :: f in fs ==> !IsTagged(f, tag)
  {
    if fs == [] then None
    else if IsTagged(fs[0], tag) then Some(fs[0])
    else FirstTagged(fs[1..], tag)
  }

  lemma {:induction false} FirstTaggedAppend(a: seq<Found>, b: seq<Found>, tag: string)
    ensures FirstTagged(a + b, tag) ==
            if FirstTagged(a, tag).Some? then FirstTagged(a, tag) else FirstTagged(b, tag)
  {
    if a == [] {
      assert a + b == b;
    } else {
      assert (a + b)[1..] == a[1..] + b;
      FirstTaggedAppend(a[1..], b, tag);
    }
  }

  /** The search FindIn returns exactly the first matching element in
      document order, which is what `querySelector` promises. */
  lemma {:induction false} FindInIsFirstInDocumentOrder(cs: seq<Node>, parentTag: string, tag: string)
    ensures FindIn(cs, parentTag, tag) == FirstTagged(Preorder(cs, parentTag), tag)
    decreases SizeAll(cs)
  {
    if cs != [] {
      var c := cs[0];
      var below := if c.Element? then Preorder(c.children, Tag(c)) else [];
      var rest := Preorder(cs[1..], parentTag);
      assert Preorder(cs, parentTag) == [Found(c, parentTag)] + (below + rest);
      FirstTaggedAppend([Found(c, parentTag)], below + rest, tag);
      FirstTaggedAppend(below, rest, tag);
      if c.Element? {
        HeadChildrenSmaller(cs);
        FindInIsFirstInDocumentOrder(c.children, Tag(c), tag);
      }
      FindInIsFirstInDocumentOrder(cs[1..], parentTag, tag);
    }
  }

  /** The data of the text nodes among `fs`, in order. */
  function TextOf(fs: seq<Found>): string {
    if fs == [] then ""
    else (if fs[0].node.Text? then fs[0].node.data else "") + TextOf(fs[1..])
  }

  lemma {:induction false} TextOfAppend(a: seq<Found>, b: seq<Found>)
    ensures TextOf(a + b) == TextOf(a) + TextOf(b)
  {
    if a == [] {
      assert a + b == b;
    } else {
      assert (a + b)[1..] == a[1..] + b;
      TextOfAppend(a[1..], b);
    }
  }

  /** `textContent` is the concatenation of the descendant text nodes in
      document order. */
  lemma {:induction false} TextContentInDocumentOrder(cs: seq<Node>, parentTag: string)
    ensures TextContentAll(cs) == TextOf(Preorder(cs, parentTag))
    decreases SizeAll(cs)
  {
    if cs != [] {
      var c := cs[0];
      var below := if c.Element? then Preorder(c.children, Tag(c)) else [];
      var rest := Preorder(cs[1..], parentTag);
      assert Preorder(cs, parentTag) == [Found(c, parentTag)] + (below + rest);
      TextOfAppend([Found(c, parentTag)], below + rest);
      TextOfAppend(below, rest);
      if c.Element? {
        HeadChildrenSmaller(cs);
        TextContentInDocumentOrder(c.children, Tag(c));
      }
      TextContentInDocumentOrder(cs[1..], parentTag);
    }
  }
}
