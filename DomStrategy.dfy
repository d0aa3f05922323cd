/**
 * `DomXmlSearchStrategy`: a `foreach` over `GetElementsByTagName(main)` that
 * skips (`continue`) a record failing the attribute or keyword test and
 * otherwise appends its line. `XmlElement.GetAttribute` returns the empty
 * string, not null, for a missing attribute, so this strategy prints an
 * empty id, year or author name where the LINQ strategy prints a default,
 * and with an empty filter value it accepts records lacking the attribute.
 */
module DomStrategy {
  import opened Wrappers
  import opened Text
  import opened Seqs
  import opened Xml
  import opened Queries
  import Linq = LinqStrategy

  const Name: string := "DOM API"

  /** `XmlElement.GetAttribute(name)`: the value, or `""` when absent. */
  function GetAttributeOrEmpty(n: Node, name: string): (r: string)
    ensures GetAttribute(Attrs(n), name).Some? ==> r == GetAttribute(Attrs(n), name).value
    ensures GetAttribute(Attrs(n), name).None? ==> r == ""
  {
    GetAttribute(Attrs(n), name).GetOr("")
  }

  /** `el["author"]?.GetAttribute("fullName")`: null without an author element, `""` without the attribute. */
  function AuthorName(n: Node): Option<string>
  {
    match FirstChild(Children(n), "author")
    case None => None
    case Some(a) => Some(GetAttributeOrEmpty(a, "fullName"))
  }

  /** The attribute test: `GetAttribute(name)` equals the value ordinally. */
  predicate PassesAttribute(q: SearchQuery, n: Node)
  {
    AttributeFilterActive(q) ==> GetAttributeOrEmpty(n, q.attributeName.value) == q.attributeValue.value
  }

  /** The keyword test over the title, the annotation and the author's name, each `""` when missing. */
  predicate PassesKeyword(q: SearchQuery, n: Node)
  {
    KeywordActive(q) ==>
      var kw := SearchKeyword(q);
      || ContainsIgnoreCase(ChildText(n, "title").GetOr(""), kw)
      || ContainsIgnoreCase(ChildText(n, "annotation").GetOr(""), kw)
      || ContainsIgnoreCase(AuthorName(n).GetOr(""), kw)
  }

  /** The two tests of the loop body; a record failing either is skipped. */
  predicate Keeps(q: SearchQuery, n: Node)
  {
    PassesAttribute(q, n) && PassesKeyword(q, n)
  }

  function KeepStage(q: SearchQuery): Node -> bool
  {
    n => Keeps(q, n)
  }

  function FormatRecord(n: Node): string
  {
    Linq.FormatLine(
      GetAttributeOrEmpty(n, "id"),
      GetAttributeOrEmpty(n, "year"),
      AuthorName(n).GetOr("(no author)"),
      ChildText(n, "title").GetOr("(no title)"))
  }

  /** What the loop computes for a list of candidates: the lines of the kept records, in order. */
  function Pipeline(q: SearchQuery, candidates: seq<Node>): seq<string>
  {
    if candidates == [] then []
    else
      var last := candidates[|candidates| - 1];
      Pipeline(q, candidates[..|candidates| - 1]) + (if Keeps(q, last) then [FormatRecord(last)] else [])
  }

  /** One more candidate adds its line when it is kept, and nothing otherwise. */
  lemma PipelineSnoc(q: SearchQuery, candidates: seq<Node>, n: Node)
    ensures Pipeline(q, candidates + [n]) == Pipeline(q, candidates) + (if Keeps(q, n) then [FormatRecord(n)] else [])
  {
    assert (candidates + [n])[..|candidates|] == candidates;
  }

  /** The loop is a `Where` followed by a `Select`. */
  lemma {:induction false} PipelineIsSelection(q: SearchQuery, candidates: seq<Node>)
    ensures Pipeline(q, candidates) == Map(FormatRecord, Filter(KeepStage(q), candidates))
  {
    if candidates != [] {
      var init, last := candidates[..|candidates| - 1], candidates[|candidates| - 1];
      PipelineIsSelection(q, init);
      MapConcat(FormatRecord, Filter(KeepStage(q), init), if Keeps(q, last) then [last] else []);
    }
  }

  /** `SearchAsync` on the loaded document `doc`: the loop over `GetElementsByTagName(main)`. */
  method Search(doc: Node, q: SearchQuery) returns (res: seq<string>)
    ensures res == Pipeline(q, ElementsNamed(doc, q.mainNodeName))
  {
    res := SearchRecords(q, ElementsNamed(doc, q.mainNodeName));
  }

  /** The `foreach` of `SearchAsync` over the record list `list`. */
  method SearchRecords(q: SearchQuery, list: seq<Node>) returns (res: seq<string>)
    ensures res == Pipeline(q, list)
  {
    res := [];
    for k := 0 to |list|
      invariant res == Pipeline(q, list[..k])
    {
      var el := list[k];
      assert list[..k + 1] == list[..k] + [el];
      PipelineSnoc(q, list[..k], el);
      if AttributeFilterActive(q) {
        var val := GetAttributeOrEmpty(el, q.attributeName.value);
        if val != q.attributeValue.value {
          assert !PassesAttribute(q, el);
          continue;
        }
      }
      if KeywordActive(q) {
        var kw := SearchKeyword(q);
        var title := ChildText(el, "title").GetOr("");
        var annotation := ChildText(el, "annotation").GetOr("");
        var author := AuthorName(el).GetOr("");
        var ok := ContainsIgnoreCase(title, kw) || ContainsIgnoreCase(annotation, kw) || ContainsIgnoreCase(author, kw);
        if !ok {
          assert !PassesKeyword(q, el);
          continue;
        }
      }
      var id := GetAttributeOrEmpty(el, "id");
      var year := GetAttributeOrEmpty(el, "year");
      var authorName := AuthorName(el).GetOr("(no author)");
      var titleText := ChildText(el, "title").GetOr("(no title)");
      assert PassesAttribute(q, el) && PassesKeyword(q, el);
      res := res + [Linq.FormatLine(id, year, authorName, titleText)];
    }
    assert list[..|list|] == list;
  }

  /** With neither filter active every record yields exactly one line, in order. */
  lemma NoFilterKeepsAll(q: SearchQuery, candidates: seq<Node>)
    requires !AttributeFilterActive(q) && !KeywordActive(q)
    ensures Pipeline(q, candidates) == Map(FormatRecord, candidates)
  {
    PipelineIsSelection(q, candidates);
    FilterAllPass(KeepStage(q), candidates);
  }

  /** At most one line per candidate record. */
  lemma AtMostOneLinePerRecord(q: SearchQuery, candidates: seq<Node>)
    ensures |Pipeline(q, candidates)| <= |candidates|
  {
    PipelineIsSelection(q, candidates);
  }

  /** The record is well-populated: `id`, `year`, and a `fullName` on its first `author` child if it has one. */
  predicate Complete(n: Node)
  {
    && GetAttribute(Attrs(n), "id").Some?
    && GetAttribute(Attrs(n), "year").Some?
    && (FirstChild(Children(n), "author").Some? ==>
          GetAttribute(FirstChild(Children(n), "author").value.attrs, "fullName").Some?)
  }

  /** Reading a missing text as `""` does not change whether a non-empty keyword occurs in it. */
  lemma EmptyDefaultContains(s: Option<string>, kw: string)
    requires kw != []
    ensures ContainsIgnoreCase(s.GetOr(""), kw) == OptionContainsIgnoreCase(s, kw)
  {
    if s.None? {
      EmptyContainsNothing(kw);
    }
  }

  /** The author name read here and by LINQ contain the same non-empty keywords. */
  lemma AuthorNameContains(n: Node, kw: string)
    requires kw != []
    ensures ContainsIgnoreCase(AuthorName(n).GetOr(""), kw) == OptionContainsIgnoreCase(Linq.AuthorName(n), kw)
  {
    match FirstChild(Children(n), "author")
    case None =>
      EmptyContainsNothing(kw);
    case Some(a) =>
      EmptyDefaultContains(GetAttribute(a.attrs, "fullName"), kw);
  }

  /** The attribute test agrees with the LINQ one whenever the filter value is non-empty. */
  lemma PassesAttributeAgreesWithLinq(q: SearchQuery, n: Node)
    requires AttributeFilterActive(q) ==> q.attributeValue.value != ""
    ensures PassesAttribute(q, n) == (AttributeFilterActive(q) ==> GetAttribute(Attrs(n), q.attributeName.value) == q.attributeValue)
  {
  }

  /** The keyword test agrees with the LINQ one. */
  lemma PassesKeywordAgreesWithLinq(q: SearchQuery, n: Node)
    ensures PassesKeyword(q, n) == (KeywordActive(q) ==> Linq.KeywordMatches(SearchKeyword(q), n))
  {
    if KeywordActive(q) {
      var kw := SearchKeyword(q);
      EmptyDefaultContains(ChildText(n, "title"), kw);
      EmptyDefaultContains(ChildText(n, "annotation"), kw);
      AuthorNameContains(n, kw);
    }
  }

  /** On one record, the DOM tests agree with the LINQ filters whenever the filter value is non-empty. */
  lemma KeepsAgreesWithLinq(q: SearchQuery, n: Node)
    requires AttributeFilterActive(q) ==> q.attributeValue.value != ""
    ensures Keeps(q, n) == Linq.Selected(q, n)
  {
    PassesAttributeAgreesWithLinq(q, n);
    PassesKeywordAgreesWithLinq(q, n);
  }

  /**
   * The DOM and LINQ strategies print the same lines when every record is
   * complete and an active attribute filter has a non-empty value (which the
   * query built by the view model guarantees).
   */
  lemma AgreesWithLinq(q: SearchQuery, candidates: seq<Node>)
    requires AttributeFilterActive(q) ==> q.attributeValue.value != ""
    requires forall i :: 0 <= i < |candidates| ==> Complete(candidates[i])
    ensures Pipeline(q, candidates) == Linq.Pipeline(q, candidates)
  {
    forall i | 0 <= i < |candidates| ensures KeepStage(q)(candidates[i]) == Linq.SelectedStage(q)(candidates[i]) {
      KeepsAgreesWithLinq(q, candidates[i]);
    }
    FilterCongruent(KeepStage(q), Linq.SelectedStage(q), candidates);
    var kept := Filter(KeepStage(q), candidates);
    forall k | 0 <= k < |kept| ensures FormatRecord(kept[k]) == Linq.FormatRecord(kept[k]) {
      assert kept[k] in candidates;
    }
    MapCongruent(FormatRecord, Linq.FormatRecord, kept);
    Linq.PipelineIsSelection(q, candidates);
    PipelineIsSelection(q, candidates);
  }

  /** With an empty filter value, a record lacking the attribute is kept here but dropped by the LINQ strategy. */
  lemma EmptyValueAcceptsMissingAttribute(q: SearchQuery, n: Node)
    requires AttributeFilterActive(q) && q.attributeValue.value == "" && !KeywordActive(q)
    requires GetAttribute(Attrs(n), q.attributeName.value).None?
    ensures Keeps(q, n) && !Linq.Selected(q, n)
  {
  }
}
