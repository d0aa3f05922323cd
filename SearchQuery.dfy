/**
 * The `SearchQuery` record and the activation rules every strategy applies to it.
 * As a datatype it is an immutable value whose equality is component-wise,
 * and whose destructors return exactly the constructor's arguments.
 */
module Queries {
  import opened Wrappers
  import opened Text

  /** `record SearchQuery(string MainNodeName, string? AttributeName, string? AttributeValue, string? Keyword)`. */
  datatype SearchQuery = SearchQuery(
    mainNodeName: string,
    attributeName: Option<string>,
    attributeValue: Option<string>,
    keyword: Option<string>)

  /** Record equality: two queries are equal exactly when all four components are. */
  lemma QueryEquality(a: SearchQuery, b: SearchQuery)
    ensures a == b <==>
      a.mainNodeName == b.mainNodeName && a.attributeName == b.attributeName
      && a.attributeValue == b.attributeValue && a.keyword == b.keyword
  {
  }

  /** Each accessor returns the corresponding constructor argument. */
  lemma QueryAccessors(main: string, name: Option<string>, value: Option<string>, keyword: Option<string>)
    ensures var q := SearchQuery(main, name, value, keyword);
      q.mainNodeName == main && q.attributeName == name && q.attributeValue == value && q.keyword == keyword
  {
  }

  /**
   * What `SearchAsync` ends in: the result lines, or the exception the SAX
   * strategy's `ReadElementContentAsString` raises on a field with child elements.
   */
  datatype SearchResult = Lines(lines: seq<string>) | ContentError

  /** The attribute filter is applied only for a non-blank name paired with a non-null value. */
  predicate AttributeFilterActive(q: SearchQuery)
  {
    !IsNullOrWhiteSpace(q.attributeName) && q.attributeValue.Some?
  }

  /** The keyword filter is applied only for a non-blank keyword. */
  predicate KeywordActive(q: SearchQuery)
  {
    !IsNullOrWhiteSpace(q.keyword)
  }

  /** `query.Keyword.Trim()`: never empty, and without whitespace at either end. */
  function SearchKeyword(q: SearchQuery): (kw: string)
    requires KeywordActive(q)
    ensures kw != []
    ensures !IsWhiteSpace(kw[0]) && !IsWhiteSpace(kw[|kw| - 1])
  {
    Trim(q.keyword.value)
  }
}
