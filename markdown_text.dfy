/** The two regular expressions of the Markdown export, written out as
    functions on strings: the language match `/language-(\w+)/` applied to a
    `code` element's class, and the post-pass `replace(/\n{3,}/g, '\n\n')`. */
module MarkdownText {
  import opened Wrappers
  import opened JsStrings

  // ---------------------------------------------------------------------
  // /language-(\w+)/

  /** The regular-expression class `\w`. */
  predicate IsWordChar(c: char) {
    ('A' <= c <= 'Z') || ('a' <= c <= 'z') || ('0' <= c <= '9') || c == '_'
  }

  ghost predicate AllWordChars(s: string) {
    forall i :: 0 <= i < |s| ==> IsWordChar(s[i])
  }

  /** The greedy `\w*` at the start of `s`. */
  function WordRun(s: string): (w: string)
    ensures w <= s && AllWordChars(w)
    ensures |w| == |s| || !IsWordChar(s[|w|])
  {
    if s == [] || !IsWordChar(s[0]) then [] else [s[0]] + WordRun(s[1..])
  }

  const LanguagePrefix: string := "language-"

  /** The regular expression can match at index `i` of `s`: `language-`
      stands there and a word character follows it. */
  ghost predicate LanguageAt(s: string, i: int) {
    && 0 <= i && i + |LanguagePrefix| < |s|
    && s[i..i + |LanguagePrefix|] == LanguagePrefix
    && IsWordChar(s[i + |LanguagePrefix|])
  }

  /** `s.match(/language-(\w+)/)?.[1]`: the search tries each start index
      from the left, and the capture is the longest word-character run after
      `language-` at the first index where the whole pattern matches. */
  function MatchLanguage(s: string): (r: Option<string>)
    ensures r.Some? ==> r.value != [] && AllWordChars(r.value)
    decreases |s|
  {
    if |s| <= |LanguagePrefix| then None
    else if LanguagePrefix <= s && IsWordChar(s[|LanguagePrefix|]) then
      Some(WordRun(s[|LanguagePrefix|..]))
    else MatchLanguage(s[1..])
  }

  /** Dropping the first character shifts every match index down by one. */
  lemma LanguageAtShift(s: string, i: int)
    requires s != [] && 1 <= i
    ensures LanguageAt(s, i) <==> LanguageAt(s[1..], i - 1)
  {
    var n := |LanguagePrefix|;
    if i + n < |s| {
      assert s[1..][i - 1..i - 1 + n] == s[i..i + n];
      assert s[1..][i - 1 + n] == s[i + n];
    }
  }

  /** The first case of the search: the pattern matches at index 0. */
  lemma LanguageAtZero(s: string)
    ensures LanguageAt(s, 0) <==> |s| > |LanguagePrefix| && LanguagePrefix <= s && IsWordChar(s[|LanguagePrefix|])
  {
    var n := |LanguagePrefix|;
    if |s| > n {
      assert s[0..n] == s[..n];
    }
  }

  /** MatchLanguage fails exactly when the pattern matches nowhere. */
  lemma {:induction false} MatchLanguageNoneIff(s: string)
    ensures MatchLanguage(s).None? <==> forall i :: !LanguageAt(s, i)
    decreases |s|
  {
    LanguageAtZero(s);
    if |s| > |LanguagePrefix| && !LanguageAt(s, 0) {
      MatchLanguageNoneIff(s[1..]);
      forall i | 1 <= i ensures LanguageAt(s, i) <==> LanguageAt(s[1..], i - 1) {
        LanguageAtShift(s, i);
      }
      if !MatchLanguage(s).None? {
        var i :| LanguageAt(s[1..], i);
        assert LanguageAt(s, i + 1);
      }
    }
  }

  /** `i` is the leftmost index where the pattern matches. */
  ghost predicate FirstLanguageAt(s: string, i: int) {
    LanguageAt(s, i) && forall j :: 0 <= j < i ==> !LanguageAt(s, j)
  }

  /** When MatchLanguage succeeds, its capture is the word run after
      `language-` at the leftmost index where the pattern matches. */
  lemma {:induction false} MatchLanguageIsLeftmost(s: string)
    requires MatchLanguage(s).Some?
    ensures exists i :: FirstLanguageAt(s, i)
                        && MatchLanguage(s).value == WordRun(s[i + |LanguagePrefix|..])
    decreases |s|
  {
    LanguageAtZero(s);
    if LanguageAt(s, 0) {
      assert FirstLanguageAt(s, 0);
    } else {
      MatchLanguageIsLeftmost(s[1..]);
      var i :| FirstLanguageAt(s[1..], i)
               && MatchLanguage(s[1..]).value == WordRun(s[1..][i + |LanguagePrefix|..]);
      FirstLanguageShift(s, i);
    }
  }

  /** A leftmost match in the tail of `s` is, one index further, the
      leftmost match in `s` when `s` has none at index 0. */
  lemma FirstLanguageShift(s: string, i: int)
    requires s != [] && !LanguageAt(s, 0) && FirstLanguageAt(s[1..], i)
    ensures FirstLanguageAt(s, i + 1)
    ensures s[1..][i + |LanguagePrefix|..] == s[i + 1 + |LanguagePrefix|..]
  {
    LanguageAtShift(s, i + 1);
    forall j | 1 <= j < i + 1 ensures !LanguageAt(s, j) {
      LanguageAtShift(s, j);
    }
  }

  /** A class written `language-X`, with `X` a non-empty word, yields `X`. */
  lemma LanguageOfClass(lang: string)
    requires lang != [] && AllWordChars(lang)
    ensures MatchLanguage(LanguagePrefix + lang) == Some(lang)
  {
    var s := LanguagePrefix + lang;
    assert LanguagePrefix <= s;
    assert s[|LanguagePrefix|..] == lang;
    WordRunOfWord(lang);
  }

  /** `language-` with nothing after it does not match at all. */
  lemma LanguageOfBareClass()
    ensures MatchLanguage(LanguagePrefix).None?
  {
  }

  lemma {:induction false} WordRunOfWord(w: string)
    requires AllWordChars(w)
    ensures WordRun(w) == w
  {
    if w != [] {
      WordRunOfWord(w[1..]);
    }
  }

  // ---------------------------------------------------------------------
  // replace(/\n{3,}/g, '\n\n')

  /** Three line feeds start at index `i` of `s`. */
  ghost predicate TripleAt(s: string, i: int) {
    0 <= i && i + 2 < |s| && s[i] == '\n' && s[i + 1] == '\n' && s[i + 2] == '\n'
  }

  ghost predicate NoTripleNewline(s: string) {
    forall i :: !TripleAt(s, i)
  }

  /** NoTripleNewline is `!s.includes('\n\n\n')`. */
  lemma NoTripleNewlineIsNotIncludes(s: string)
    ensures NoTripleNewline(s) <==> !Includes(s, "\n\n\n")
  {
    IncludesIff(s, "\n\n\n");
    forall i ensures TripleAt(s, i) <==> OccursAt(s, "\n\n\n", i) {
      if 0 <= i && i + 3 <= |s| {
        assert TripleAt(s, i) ==> s[i..i + 3] == "\n\n\n";
        assert s[i..i + 3] == "\n\n\n" ==> s[i] == s[i..i + 3][0] && s[i + 1] == s[i..i + 3][1] && s[i + 2] == s[i..i + 3][2];
      }
    }
  }

  /** The number of line feeds `s` starts with. */
  function NewlineRun(s: string): (k: nat)
    ensures k <= |s|
    ensures forall j :: 0 <= j < k ==> s[j] == '\n'
    ensures k == |s| || s[k] != '\n'
  {
    if s == [] || s[0] != '\n' then 0 else 1 + NewlineRun(s[1..])
  }

  /** `replace(/\n{3,}/g, '\n\n')`: every maximal run of three or more line
      feeds becomes exactly two; everything else is copied. */
  function CollapseNewlines(s: string): (r: string)
    ensures NoTripleNewline(r)
    ensures |s| > 0 ==> |r| > 0 && r[0] == s[0]
    decreases |s|
  {
    if s == [] then []
    else if s[0] != '\n' then
      var rest := CollapseNewlines(s[1..]);
      NoTripleAfterChar(s[0], rest);
      [s[0]] + rest
    else
      var k := NewlineRun(s);
      var run := if k >= 3 then "\n\n" else s[..k];
      var rest := CollapseNewlines(s[k..]);
      NoTripleAfterRun(run, rest);
      run + rest
  }

  lemma NoTripleAfterChar(c: char, rest: string)
    requires c != '\n' && NoTripleNewline(rest)
    ensures NoTripleNewline([c] + rest)
  {
    var s := [c] + rest;
    forall i ensures !TripleAt(s, i) {
      if i >= 1 { assert !TripleAt(rest, i - 1); }
    }
  }

  lemma NoTripleAfterRun(run: string, rest: string)
    requires 1 <= |run| <= 2 && forall j :: 0 <= j < |run| ==> run[j] == '\n'
    requires (rest == [] || rest[0] != '\n') && NoTripleNewline(rest)
    ensures NoTripleNewline(run + rest)
  {
    var s := run + rest;
    forall i ensures !TripleAt(s, i) {
      if i >= |run| { assert !TripleAt(rest, i - |run|); }
    }
  }

  /** The post-pass changes a string exactly when it holds three line feeds
      in a row. */
  lemma {:induction false} CollapseIsIdentityIff(s: string)
    ensures CollapseNewlines(s) == s <==> NoTripleNewline(s)
    decreases |s|
  {
    if NoTripleNewline(s) && s != [] {
      if s[0] != '\n' {
        NoTripleSuffix(s, 1);
        CollapseIsIdentityIff(s[1..]);
        assert s == [s[0]] + s[1..];
      } else {
        var k := NewlineRun(s);
        assert !TripleAt(s, 0);
        NoTripleSuffix(s, k);
        CollapseIsIdentityIff(s[k..]);
        assert s == s[..k] + s[k..];
      }
    }
  }

  lemma NoTripleSuffix(s: string, k: nat)
    requires k <= |s| && NoTripleNewline(s)
    ensures NoTripleNewline(s[k..])
  {
    forall i ensures !TripleAt(s[k..], i) {
      assert !TripleAt(s, i + k);
    }
  }

  /** Collapsing twice is collapsing once. */
  lemma CollapseIdempotent(s: string)
    ensures CollapseNewlines(CollapseNewlines(s)) == CollapseNewlines(s)
  {
    CollapseIsIdentityIff(CollapseNewlines(s));
  }

  /** `k` copies of `c`. */
  function Repeat(c: char, k: nat): (r: string)
    ensures |r| == k && forall i :: 0 <= i < k ==> r[i] == c
  {
    seq(k, _ => c)
  }

  /** NewlineRun is the unique count of leading line feeds. */
  lemma NewlineRunIs(s: string, k: nat)
    requires k <= |s| && (forall j :: 0 <= j < k ==> s[j] == '\n') && (k == |s| || s[k] != '\n')
    ensures NewlineRun(s) == k
  {
  }

  /** A run of `k` line feeds on its own: kept when it has one or two, two
      line feeds when it has three or more. */
  lemma CollapseOfRun(k: nat)
    ensures CollapseNewlines(Repeat('\n', k)) == if k >= 3 then "\n\n" else Repeat('\n', k)
  {
    var s := Repeat('\n', k);
    if k > 0 {
      NewlineRunIs(s, k);
      assert s[k..] == [];
      assert s[..k] == s;
    }
  }

  /** The replacement works on each side of a boundary that no run of line
      feeds crosses. */
  lemma {:induction false} CollapseAppend(x: string, y: string)
    requires x == [] || y == [] || x[|x| - 1] != '\n' || y[0] != '\n'
    ensures CollapseNewlines(x + y) == CollapseNewlines(x) + CollapseNewlines(y)
    decreases |x|
  {
    if x == [] {
      assert x + y == y;
    } else if x[0] != '\n' {
      assert (x + y)[1..] == x[1..] + y;
      CollapseAppend(x[1..], y);
    } else {
      var k := NewlineRun(x);
      if k < |x| {
        var z := x[k..];
        assert z[|z| - 1] == x[|x| - 1];
        CollapseAppend(z, y);
      }
      CollapseAppendRun(x, y);
    }
  }

  /** The step of CollapseAppend for an `x` that starts with a line feed:
      its leading run is the leading run of `x + y`. */
  lemma CollapseAppendRun(x: string, y: string)
    requires x != [] && x[0] == '\n'
    requires x[|x| - 1] != '\n' || y == [] || y[0] != '\n'
    requires NewlineRun(x) < |x| ==>
               CollapseNewlines(x[NewlineRun(x)..] + y) == CollapseNewlines(x[NewlineRun(x)..]) + CollapseNewlines(y)
    ensures CollapseNewlines(x + y) == CollapseNewlines(x) + CollapseNewlines(y)
  {
    var k := NewlineRun(x);
    LeadingRunOfAppend(x, y);
    CollapseLeadingRun(x + y);
    CollapseLeadingRun(x);
    var run := if k >= 3 then "\n\n" else x[..k];
    var cx := CollapseNewlines(x[k..]);
    var cy := CollapseNewlines(y);
    if k == |x| {
      CollapseAfterWholeRun(x, y);
    }
    AppendAssoc(run, cx, cy);
  }

  /** One step of the replacement at a leading run of line feeds. */
  lemma CollapseLeadingRun(s: string)
    requires s != [] && s[0] == '\n'
    ensures CollapseNewlines(s) ==
            (if NewlineRun(s) >= 3 then "\n\n" else s[..NewlineRun(s)]) + CollapseNewlines(s[NewlineRun(s)..])
  {
  }

  lemma CollapseAfterWholeRun(x: string, y: string)
    requires NewlineRun(x) == |x|
    ensures CollapseNewlines(x[NewlineRun(x)..] + y) == CollapseNewlines(x[NewlineRun(x)..]) + CollapseNewlines(y)
  {
    assert x[|x|..] == [];
    assert x[|x|..] + y == y;
    assert [] + CollapseNewlines(y) == CollapseNewlines(y);
  }

  lemma AppendAssoc(a: string, b: string, c: string)
    ensures (a + b) + c == a + (b + c)
  {
  }

  /** The leading run of `x + y` is that of `x` when no run crosses the
      boundary. */
  lemma LeadingRunOfAppend(x: string, y: string)
    requires x != [] && x[0] == '\n'
    requires x[|x| - 1] != '\n' || y == [] || y[0] != '\n'
    ensures NewlineRun(x + y) == NewlineRun(x)
    ensures (x + y)[..NewlineRun(x)] == x[..NewlineRun(x)]
    ensures (x + y)[NewlineRun(x)..] == x[NewlineRun(x)..] + y
    ensures NewlineRun(x) == |x| ==> x[NewlineRun(x)..] == []
  {
    var s := x + y;
    var k := NewlineRun(x);
    NewlineRunIs(s, k);
    assert s[k..] == x[k..] + y;
  }

  /** `replace(/\n{3,}/g, '\n\n')` on a run of `k` line feeds between two
      pieces that do not touch it with line feeds of their own: a run of
      three or more becomes exactly two line feeds, a shorter run is kept,
      and each piece is replaced on its own. */
  lemma CollapseRunBetween(a: string, k: nat, b: string)
    requires a == [] || a[|a| - 1] != '\n'
    requires b == [] || b[0] != '\n'
    ensures CollapseNewlines(a + Repeat('\n', k) + b) ==
            CollapseNewlines(a) + (if k >= 3 then "\n\n" else Repeat('\n', k)) + CollapseNewlines(b)
  {
    var run := Repeat('\n', k);
    AppendAssoc(a, run, b);
    CollapseAppend(run, b);
    CollapseAppend(a, run + b);
    CollapseOfRun(k);
    AppendAssoc(CollapseNewlines(a), CollapseNewlines(run), CollapseNewlines(b));
  }

  /** `s` without its line feeds. */
  function DropNewlines(s: string): (r: string)
    ensures forall i :: 0 <= i < |r| ==> r[i] != '\n'
  {
    if s == [] then [] else (if s[0] == '\n' then [] else [s[0]]) + DropNewlines(s[1..])
  }

  lemma {:induction false} DropNewlinesAppend(a: string, b: string)
    ensures DropNewlines(a + b) == DropNewlines(a) + DropNewlines(b)
  {
    if a == [] {
      assert a + b == b;
    } else {
      assert (a + b)[1..] == a[1..] + b;
      DropNewlinesAppend(a[1..], b);
    }
  }

  lemma {:induction false} DropNewlinesOfRun(run: string)
    requires forall j :: 0 <= j < |run| ==> run[j] == '\n'
    ensures DropNewlines(run) == []
  {
    if run != [] {
      DropNewlinesOfRun(run[1..]);
    }
  }

  /** The post-pass touches nothing but line feeds: every other character
      survives, in order. */
  lemma {:induction false} CollapseKeepsText(s: string)
    ensures DropNewlines(CollapseNewlines(s)) == DropNewlines(s)
    decreases |s|
  {
    if s != [] {
      if s[0] != '\n' {
        CollapseKeepsText(s[1..]);
        DropNewlinesAppend([s[0]], CollapseNewlines(s[1..]));
      } else {
        var k := NewlineRun(s);
        var run := if k >= 3 then "\n\n" else s[..k];
        CollapseKeepsText(s[k..]);
        DropNewlinesAppend(run, CollapseNewlines(s[k..]));
        DropNewlinesOfRun(run);
        assert s == s[..k] + s[k..];
        DropNewlinesAppend(s[..k], s[k..]);
        DropNewlinesOfRun(s[..k]);
      }
    }
  }

  /** A slice of a string without three line feeds in a row has none. */
  lemma NoTripleSlice(s: string, i: nat, j: nat)
    requires i <= j <= |s| && NoTripleNewline(s)
    ensures NoTripleNewline(s[i..j])
  {
    forall k ensures !TripleAt(s[i..j], k) {
      assert !TripleAt(s, i + k);
    }
  }

  /** Trimming keeps the absence of three line feeds in a row. */
  lemma TrimKeepsNoTriple(s: string)
    requires NoTripleNewline(s)
    ensures NoTripleNewline(Trim(s))
  {
    var r := Trim(s);
    var i :| TrimSplit(s, r, i);
    NoTripleInSplit(s, r, i);
  }

  lemma NoTripleInSplit(s: string, r: string, i: int)
    requires TrimSplit(s, r, i) && NoTripleNewline(s)
    ensures NoTripleNewline(r)
  {
    NoTripleSlice(s, i, i + |r|);
  }
}
