/**
 * `LinqXmlSearchStrategy`: `Descendants(main)`, then a `Where` for the
 * attribute filter, a `Where` for the keyword filter, and a `Select` that
 * formats each surviving record. Absent values are null: a missing
 * attribute never equals the filter value, a missing field never matches the
 * keyword, and the line shows `-`, `(no author)` or `(no title)`.
 */
module LinqStrategy {
  import opened Wrappers
  import opened Text
  import opened Seqs
  import opened Xml
  import opened Queries

  const Name: string := "LINQ to XML"

  /** The result line shared by the strategies: `"{id} | {year} | {author} — {title}"`. */
  function FormatLine(id: string, year: string, author: string, title: string): string
  {
    id + " | " + year + " | " + author + " \U{2014} " + title
  }

  /** `(string?)n.Element("author")?.Attribute("fullName")`. */
  function AuthorName(n: Node): Option<string>
  {
    match FirstChild(Children(n), "author")
    case None => None
    case Some(a) => GetAttribute(a.attrs, "fullName")
  }

  /** The first `Where`: `(string?)n.Attribute(name) == value`, compared ordinally. */
  function AttributeStage(name: string, value: string): Node -> bool
  {
    n => GetAttribute(Attrs(n), name) == Some(value)
  }

  /** The second `Where`: the keyword occurs, ignoring case, in the title, the annotation or the author's name. */
  predicate KeywordMatches(kw: string, n: Node)
  {
    || OptionContainsIgnoreCase(ChildText(n, "title"), kw)
    || OptionContainsIgnoreCase(ChildText(n, "annotation"), kw)
    || OptionContainsIgnoreCase(AuthorName(n), kw)
  }

  function KeywordStage(kw: string): Node -> bool
  {
    n => KeywordMatches(kw, n)
  }

  /** The `Select` projection. */
  function FormatRecord(n: Node): string
  {
    FormatLine(
      GetAttribute(Attrs(n), "id").GetOr("-"),
      GetAttribute(Attrs(n), "year").GetOr("-"),
      AuthorName(n).GetOr("(no author)"),
      ChildText(n, "title").GetOr("(no title)"))
  }

  /** The attribute stage as the query configures it: applied only when the filter is active. */
  function ByAttribute(q: SearchQuery, nodes: seq<Node>): seq<Node>
  {
    if AttributeFilterActive(q) then Filter(AttributeStage(q.attributeName.value, q.attributeValue.value), nodes)
    else nodes
  }

  /** The keyword stage as the query configures it. */
  function ByKeyword(q: SearchQuery, nodes: seq<Node>): seq<Node>
  {
    if KeywordActive(q) then Filter(KeywordStage(SearchKeyword(q)), nodes) else nodes
  }

  /** The pipeline applied to a list of candidate records. */
  function Pipeline(q: SearchQuery, candidates: seq<Node>): seq<string>
  {
    Map(FormatRecord, ByKeyword(q, ByAttribute(q, candidates)))
  }

  /**
   * `SearchAsync` on the loaded document `doc`: one line per record called
   * `q.mainNodeName` that passes every active filter, in document order.
   */
  function Search(doc: Node, q: SearchQuery): (r: seq<string>)
    ensures r == Map(FormatRecord, Filter(SelectedStage(q), ElementsNamed(doc, q.mainNodeName)))
  {
    PipelineIsSelection(q, ElementsNamed(doc, q.mainNodeName));
    Pipeline(q, ElementsNamed(doc, q.mainNodeName))
  }

  /** A record passes the query's active filters. */
  predicate Selected(q: SearchQuery, n: Node)
  {
    && (AttributeFilterActive(q) ==> GetAttribute(Attrs(n), q.attributeName.value) == q.attributeValue)
    && (KeywordActive(q) ==> KeywordMatches(SearchKeyword(q), n))
  }

  /** The two `Where` stages commute: filtering by keyword first gives the same lines. */
  lemma StagesCommute(q: SearchQuery, candidates: seq<Node>)
    ensures Pipeline(q, candidates) == Map(FormatRecord, ByAttribute(q, ByKeyword(q, candidates)))
  {
    if AttributeFilterActive(q) && KeywordActive(q) {
      FilterCommutes(AttributeStage(q.attributeName.value, q.attributeValue.value),
                     KeywordStage(SearchKeyword(q)), candidates);
    }
  }

  /**
   * The result is the formatted list of exactly the selected candidates, in
   * candidate order: the pipeline works record by record.
   */
  lemma {:induction false} PipelineByRecord(q: SearchQuery, candidates: seq<Node>)
    ensures Pipeline(q, candidates) == if candidates == [] then [] else
      Pipeline(q, candidates[..|candidates| - 1])
      + (if Selected(q, candidates[|candidates| - 1]) then [FormatRecord(candidates[|candidates| - 1])] else [])
  {
    if candidates != [] {
      var init, last := candidates[..|candidates| - 1], candidates[|candidates| - 1];
      assert candidates == init + [last];
      PipelineConcat(q, init, [last]);
      PipelineSingle(q, last);
    }
  }

  /** A single candidate gives its line exactly when it is selected. */
  lemma PipelineSingle(q: SearchQuery, n: Node)
    ensures Pipeline(q, [n]) == if Selected(q, n) then [FormatRecord(n)] else []
  {
    var passA := !AttributeFilterActive(q) || GetAttribute(Attrs(n), q.attributeName.value) == q.attributeValue;
    assert ByAttribute(q, [n]) == if passA then [n] else [] by {
      if AttributeFilterActive(q) {
        FilterSingle(AttributeStage(q.attributeName.value, q.attributeValue.value), n);
      }
    }
    if passA {
      assert ByKeyword(q, [n]) == if Selected(q, n) then [n] else [] by {
        if KeywordActive(q) {
          FilterSingle(KeywordStage(SearchKeyword(q)), n);
        }
      }
    } else {
      assert ByKeyword(q, []) == [];
    }
  }

  /** Candidates split anywhere give the concatenation of the two results: document order is kept. */
  lemma PipelineConcat(q: SearchQuery, a: seq<Node>, b: seq<Node>)
    ensures Pipeline(q, a + b) == Pipeline(q, a) + Pipeline(q, b)
  {
    if AttributeFilterActive(q) {
      FilterConcat(AttributeStage(q.attributeName.value, q.attributeValue.value), a, b);
    }
    if KeywordActive(q) {
      FilterConcat(KeywordStage(SearchKeyword(q)), ByAttribute(q, a), ByAttribute(q, b));
    }
    MapConcat(FormatRecord, ByKeyword(q, ByAttribute(q, a)), ByKeyword(q, ByAttribute(q, b)));
  }

  function SelectedStage(q: SearchQuery): Node -> bool
  {
    n => Selected(q, n)
  }

  /** The two stages together are one filter by `Selected`. */
  lemma {:induction false} PipelineIsSelection(q: SearchQuery, candidates: seq<Node>)
    ensures Pipeline(q, candidates) == Map(FormatRecord, Filter(SelectedStage(q), candidates))
  {
    PipelineByRecord(q, candidates);
    if candidates != [] {
      var init, last := candidates[..|candidates| - 1], candidates[|candidates| - 1];
      PipelineIsSelection(q, init);
      MapConcat(FormatRecord, Filter(SelectedStage(q), init), if Selected(q, last) then [last] else []);
    }
  }

  /** A line is produced iff it is the formatting of some selected record. */
  lemma PipelineMembership(q: SearchQuery, candidates: seq<Node>, line: string)
    ensures line in Pipeline(q, candidates) <==>
      exists i :: 0 <= i < |candidates| && Selected(q, candidates[i]) && FormatRecord(candidates[i]) == line
  {
    PipelineIsSelection(q, candidates);
    MapFilterMembership(FormatRecord, SelectedStage(q), candidates, line);
  }

  /** With neither filter active every record yields exactly one line, in order. */
  lemma NoFilterKeepsAll(q: SearchQuery, candidates: seq<Node>)
    requires !AttributeFilterActive(q) && !KeywordActive(q)
    ensures |Pipeline(q, candidates)| == |candidates|
    ensures forall i :: 0 <= i < |candidates| ==> Pipeline(q, candidates)[i] == FormatRecord(candidates[i])
  {
  }

  /** At most one line per candidate. */
  lemma AtMostOneLinePerRecord(q: SearchQuery, candidates: seq<Node>)
    ensures |Pipeline(q, candidates)| <= |candidates|
  {
  }
}
