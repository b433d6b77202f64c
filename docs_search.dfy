/** The sidebar search of the documentation page: the table of sections and
    the rule that picks the sections shown for a search query. */
module DocsSearch {
  import opened JsStrings

  /** The section identifiers. */
  datatype DocSection =
    | GettingStarted | Installation | TypeScript | Python | Go | Rust | Cli | Api | Examples | Comparison

  /** One entry of the table: its id, title, icon and the extra words the
      search looks at. */
  datatype DocContent = DocContent(id: DocSection, title: string, icon: string, searchText: string)

  /** The page's table of sections, in sidebar order. */
  const Sections: seq<DocContent> := [
    DocContent(GettingStarted, "Getting Started", "\U{1F680}",
      "intro overview features llm tokens reduction json compatible auto-increment enum detection multi-language typescript python go rust"),
    DocContent(Installation, "Installation", "\U{1F4E6}",
      "install npm pip cargo go get bun yarn uv setup dependencies package"),
    DocContent(TypeScript, "TypeScript / JavaScript", "\U{1F7E6}",
      "typescript javascript ts js node bun deno browser encode decode Zoon class schema zonSchema encodeWithSchema"),
    DocContent(Python, "Python", "\U{1F40D}",
      "python pip uv encode decode pandas dataframe zoon-format ZoonError exception"),
    DocContent(Go, "Go", "\U{1F535}",
      "golang go marshal unmarshal struct json tag encoder decoder newencoder newdecoder io reader writer"),
    DocContent(Rust, "Rust", "\U{1F980}",
      "rust cargo serde serialize deserialize crate zoon-format ZoonError result error handling"),
    DocContent(Cli, "CLI", "\U{2328}\U{FE0F}",
      "command line interface terminal pipe stdin stdout stats statistics encode decode output file"),
    DocContent(Api, "API Reference", "\U{1F4DA}",
      "api reference encode decode options schema inferEnums enumThreshold type markers string integer boolean null auto-increment"),
    DocContent(Examples, "Examples", "\U{1F4A1}",
      "examples tabular inline format arrays objects nested null handling configuration"),
    DocContent(Comparison, "Format Comparison", "\U{1F4CA}",
      "comparison benchmark json toon zon csv tokens accuracy savings performance")
  ]

  /** The table has ten entries and no two share an id, so the id can key
      each sidebar entry. */
  lemma SectionIdsDistinct()
    ensures |Sections| == 10
    ensures forall i, j :: 0 <= i < j < |Sections| ==> Sections[i].id != Sections[j].id
  {
  }

  /** The filter's test: the lower-cased title or search text contains the
      (already lower-cased) query. */
  predicate Matches(s: DocContent, query: string)
    ensures Matches(s, query) <==>
              (exists i :: OccursAt(Lower(s.title), query, i)) || (exists i :: OccursAt(Lower(s.searchText), query, i))
  {
    IncludesIff(Lower(s.title), query);
    IncludesIff(Lower(s.searchText), query);
    Includes(Lower(s.title), query) || Includes(Lower(s.searchText), query)
  }

  /** `sections.filter(s => ...)`: the matching sections, in table order. */
  function FilterSections(secs: seq<DocContent>, query: string): (r: seq<DocContent>)
    ensures |r| <= |secs|
    ensures forall x :: x in r ==> x in secs && Matches(x, query)
    ensures forall i :: 0 <= i < |secs| && Matches(secs[i], query) ==> secs[i] in r
  {
    if secs == [] then []
    else (if Matches(secs[0], query) then [secs[0]] else []) + FilterSections(secs[1..], query)
  }

  /** The value the search effect stores: nothing for a blank query,
      otherwise the sections matching the lower-cased (untrimmed) query. */
  function SearchResults(secs: seq<DocContent>, searchQuery: string): (r: seq<DocContent>)
    ensures AllWhitespace(searchQuery) ==> r == []
    ensures !AllWhitespace(searchQuery) ==> r == FilterSections(secs, Lower(searchQuery))
  {
    if Trim(searchQuery) == "" then [] else FilterSections(secs, Lower(searchQuery))
  }

  /** `filteredSections`: every section for a blank query, the search
      results otherwise. */
  function FilteredSections(secs: seq<DocContent>, searchQuery: string): (r: seq<DocContent>)
    ensures AllWhitespace(searchQuery) ==> r == secs
    ensures !AllWhitespace(searchQuery) ==> r == FilterSections(secs, Lower(searchQuery))
  {
    if Trim(searchQuery) == "" then secs else SearchResults(secs, searchQuery)
  }

  // ---------------------------------------------------------------------
  // Properties of the filter

  /** The filter distributes over concatenation: together with its effect on
      one section this fixes it as "keep the matching sections, in order". */
  lemma {:induction false} FilterAppend(a: seq<DocContent>, b: seq<DocContent>, query: string)
    ensures FilterSections(a + b, query) == FilterSections(a, query) + FilterSections(b, query)
  {
    if a == [] {
      assert a + b == b;
    } else {
      assert (a + b)[1..] == a[1..] + b;
      FilterAppend(a[1..], b, query);
    }
  }

  lemma FilterSingle(x: DocContent, query: string)
    ensures FilterSections([x], query) == if Matches(x, query) then [x] else []
  {
  }

  /** `r` can be obtained from `s` by deleting entries. */
  ghost predicate IsSubsequence(r: seq<DocContent>, s: seq<DocContent>)
    decreases |s|
  {
    if r == [] then true
    else if s == [] then false
    else if r[0] == s[0] then IsSubsequence(r[1..], s[1..])
    else IsSubsequence(r, s[1..])
  }

  lemma {:induction false} SubsequenceOfTail(r: seq<DocContent>, s: seq<DocContent>)
    requires s != [] && IsSubsequence(r, s[1..])
    ensures IsSubsequence(r, s)
    decreases |r| + |s|
  {
    if r != [] && r[0] == s[0] {
      SubsequenceDropHead(r, s[1..]);
    }
  }

  lemma {:induction false} SubsequenceDropHead(r: seq<DocContent>, s: seq<DocContent>)
    requires r != [] && IsSubsequence(r, s)
    ensures IsSubsequence(r[1..], s)
    decreases |r| + |s|
  {
    if r[1..] != [] {
      if r[0] == s[0] {
        SubsequenceOfTail(r[1..], s);
      } else {
        SubsequenceDropHead(r, s[1..]);
        SubsequenceOfTail(r[1..], s);
      }
    }
  }

  /** The results keep the table's relative order. */
  lemma {:induction false} FilterIsSubsequence(secs: seq<DocContent>, query: string)
    ensures IsSubsequence(FilterSections(secs, query), secs)
  {
    if secs != [] {
      var rest := FilterSections(secs[1..], query);
      FilterIsSubsequence(secs[1..], query);
      if Matches(secs[0], query) {
        assert FilterSections(secs, query) == [secs[0]] + rest;
        assert ([secs[0]] + rest)[1..] == rest;
      } else {
        assert FilterSections(secs, query) == rest;
        if rest != [] {
          SubsequenceOfTail(rest, secs);
        }
      }
    }
  }

  /** Filtering the results again changes nothing. */
  lemma {:induction false} FilterIdempotent(secs: seq<DocContent>, query: string)
    ensures FilterSections(FilterSections(secs, query), query) == FilterSections(secs, query)
  {
    if secs != [] {
      var head := if Matches(secs[0], query) then [secs[0]] else [];
      FilterAppend(head, FilterSections(secs[1..], query), query);
      FilterIdempotent(secs[1..], query);
    }
  }

  // ---------------------------------------------------------------------
  // Properties of the search as the sidebar shows it

  /** The search ignores the case of ASCII letters in the query. */
  lemma SearchIgnoresCase(secs: seq<DocContent>, q1: string, q2: string)
    requires Lower(q1) == Lower(q2)
    ensures FilteredSections(secs, q1) == FilteredSections(secs, q2)
  {
    LowerKeepsBlank(q1);
    LowerKeepsBlank(q2);
  }

  /** On the page's own table a blank query lists all ten sections. */
  lemma BlankQueryExample()
    ensures FilteredSections(Sections, " \t") == Sections
  {
    assert TrimStart(" \t") == "";
  }

  /** "RUST" finds the Rust section by its title. */
  lemma TitleQueryExample()
    ensures Sections[5] in FilteredSections(Sections, "RUST")
  {
    assert Lower("RUST") == "rust";
    assert TrimStart("RUST") == "RUST";
    assert Lower(Sections[5].title) == "rust";
    assert Matches(Sections[5], "rust");
  }
}
