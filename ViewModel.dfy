/**
 * The query form of `MainViewModel`: the selected attribute and value and
 * the keyword, the `SearchQuery` built from them, and the XPath-like
 * preview kept in step with them. The record name is fixed to `book`.
 */
module ViewModel {
  import opened Wrappers
  import opened Text
  import opened Seqs
  import opened Ordering
  import opened Xml
  import opened Queries
  import Metadata
  import Dom = DomStrategy
  import Linq = LinqStrategy

  /** `string.IsNullOrWhiteSpace(s) ? null : s`. */
  function NullIfBlank(s: Option<string>): (r: Option<string>)
    ensures r.None? <==> IsNullOrWhiteSpace(s)
    ensures r.Some? ==> r == s && r.value != []
  {
    if IsNullOrWhiteSpace(s) then None else s
  }

  /** `string.IsNullOrWhiteSpace(keyword) ? null : keyword.Trim()`: a present keyword is non-empty and trimmed. */
  function NormalizeKeyword(keyword: string): (r: Option<string>)
    ensures r.None? <==> AllWhiteSpace(keyword)
    ensures r.Some? ==> r.value == Trim(keyword)
    ensures r.Some? ==> r.value != [] && Trim(r.value) == r.value
  {
    if AllWhiteSpace(keyword) then None else TrimIdempotent(keyword); Some(Trim(keyword))
  }

  /** The attribute condition of the preview, `[@a='v']`. */
  function AttributePart(attribute: string, value: string): string
  {
    "[@" + attribute + "='" + value + "']"
  }

  /** The fields the keyword condition names: title, annotation and the author's full name. */
  const SearchedFields: string := "title|annotation|author/@fullName"

  /** The keyword condition of the preview. */
  function KeywordPart(keyword: string): string
  {
    "[contains(" + SearchedFields + ", '" + keyword + "')]"
  }

  /** An attribute condition opens with `[@` and closes with `']`. */
  lemma AttributePartShape(attribute: string, value: string)
    ensures var r := AttributePart(attribute, value);
      |r| >= 4 && r[..2] == "[@" && r[|r| - 2..] == "']"
  {
    var r := AttributePart(attribute, value);
    assert r[0] == '[' && r[1] == '@' && r[|r| - 2] == '\'' && r[|r| - 1] == ']';
  }

  /** A keyword condition opens with `[c` and closes with `)]`. */
  lemma KeywordPartShape(keyword: string)
    ensures var r := KeywordPart(keyword);
      |r| >= 4 && r[..2] == "[c" && r[|r| - 2..] == ")]"
  {
    var r := KeywordPart(keyword);
    assert r[0] == '[' && r[1] == 'c' && r[|r| - 2] == ')' && r[|r| - 1] == ']';
  }

  /** The attribute condition when both attribute and value are chosen, else nothing. */
  function AttributeSection(attribute: Option<string>, value: Option<string>): (r: string)
    ensures r == "" <==> IsNullOrWhiteSpace(attribute) || IsNullOrWhiteSpace(value)
    ensures r != "" ==> r == AttributePart(attribute.value, value.value)
    ensures r != "" ==> |r| >= 4 && r[..2] == "[@" && r[|r| - 2..] == "']"
  {
    if !IsNullOrWhiteSpace(attribute) && !IsNullOrWhiteSpace(value) then
      AttributePartShape(attribute.value, value.value);
      AttributePart(attribute.value, value.value)
    else ""
  }

  /** The keyword condition, holding the trimmed keyword, when a keyword is typed, else nothing. */
  function KeywordSection(keyword: string): (r: string)
    ensures r == "" <==> AllWhiteSpace(keyword)
    ensures r != "" ==> r == KeywordPart(Trim(keyword))
    ensures r != "" ==> |r| >= 4 && r[..2] == "[c" && r[|r| - 2..] == ")]"
  {
    if !AllWhiteSpace(keyword) then
      KeywordPartShape(Trim(keyword));
      KeywordPart(Trim(keyword))
    else ""
  }

  /**
   * The preview of a form: the record path, then the attribute condition,
   * then the keyword condition.
   */
  function Preview(mainNodeName: string, attribute: Option<string>, value: Option<string>, keyword: string): string
  {
    "//" + mainNodeName + AttributeSection(attribute, value) + KeywordSection(keyword)
  }

  class MainViewModel {
    const MainNodeName: string
    var selectedAttribute: Option<string>
    var selectedAttributeValue: Option<string>
    var keyword: string
    var queryPreview: string
    /** The document behind the chosen XML path; `None` while no file is chosen. */
    var document: Option<Node>
    var availableAttributes: seq<string>
    var availableAttributeValues: seq<string>

    /** The preview shows the form as it stands. */
    ghost predicate Valid()
      reads this
    {
      queryPreview == Preview(MainNodeName, selectedAttribute, selectedAttributeValue, keyword)
    }

    /** The form starts empty, for records called `book`; setting `Keyword` draws the first preview. */
    constructor()
      ensures MainNodeName == "book" && document.None?
      ensures availableAttributes == [] && availableAttributeValues == []
      ensures selectedAttribute.None? && selectedAttributeValue.None? && keyword == ""
      ensures Valid() && queryPreview == "//book"
    {
      MainNodeName := "book";
      selectedAttribute := None;
      selectedAttributeValue := None;
      keyword := "";
      queryPreview := "";
      document := None;
      availableAttributes := [];
      availableAttributeValues := [];
      new;
      UpdateQueryPreview();
    }

    /**
     * `BuildQuery`: blank choices become null and the keyword is trimmed, so
     * a present keyword is non-empty and trimmed, and an active attribute
     * filter has a non-empty value.
     */
    function BuildQuery(): (q: SearchQuery)
      reads this
      ensures q.mainNodeName == MainNodeName
      ensures q.attributeName.None? <==> IsNullOrWhiteSpace(selectedAttribute)
      ensures q.attributeName.Some? ==> q.attributeName == selectedAttribute
      ensures q.attributeValue.None? <==> IsNullOrWhiteSpace(selectedAttributeValue)
      ensures q.attributeValue.Some? ==> q.attributeValue == selectedAttributeValue
      ensures q.keyword.None? <==> AllWhiteSpace(keyword)
      ensures q.keyword.Some? ==> q.keyword.value == Trim(keyword)
      ensures q.keyword.Some? ==> q.keyword.value != [] && Trim(q.keyword.value) == q.keyword.value
      ensures AttributeFilterActive(q) ==> q.attributeValue.value != []
    {
      SearchQuery(MainNodeName, NullIfBlank(selectedAttribute), NullIfBlank(selectedAttributeValue), NormalizeKeyword(keyword))
    }

    /** `UpdateQueryPreview`: collects the parts in a list and joins them. */
    method UpdateQueryPreview()
      modifies this`queryPreview
      ensures Valid()
    {
      var parts := ["//" + MainNodeName];
      ghost var shown := "//" + MainNodeName;
      if !IsNullOrWhiteSpace(selectedAttribute) && !IsNullOrWhiteSpace(selectedAttributeValue) {
        var part := AttributePart(selectedAttribute.value, selectedAttributeValue.value);
        JoinSnoc(parts, part);
        parts := parts + [part];
        shown := shown + part;
      } else {
        assert shown + "" == shown;
      }
      assert Join(parts) == shown;
      if !IsNullOrWhiteSpace(Some(keyword)) {
        var part := KeywordPart(Trim(keyword));
        JoinSnoc(parts, part);
        parts := parts + [part];
        shown := shown + part;
      } else {
        assert shown + "" == shown;
      }
      assert Join(parts) == shown;
      queryPreview := Join(parts);
    }

    /** The `Keyword` setter. */
    method SetKeyword(value: string)
      modifies this`keyword, this`queryPreview
      ensures keyword == value && Valid()
    {
      keyword := value;
      UpdateQueryPreview();
    }

    /**
     * The `SelectedAttribute` setter: the value list is reloaded for the new
     * attribute before the preview is redrawn. The metadata service answers
     * at once, so the reload is complete when the setter returns.
     */
    method SetSelectedAttribute(value: Option<string>, leq: (string, string) -> bool)
      requires IsTotalOrder(leq)
      modifies this`selectedAttribute, this`selectedAttributeValue, this`availableAttributeValues, this`queryPreview
      ensures selectedAttribute == value && Valid()
      ensures document.None? ==>
        (selectedAttributeValue == old(selectedAttributeValue) && availableAttributeValues == old(availableAttributeValues))
      ensures document.Some? ==>
        (availableAttributeValues, selectedAttributeValue) == ReloadValues(document.value, MainNodeName, selectedAttribute, leq)
    {
      selectedAttribute := value;
      LoadAttributeValues(leq);
      ghost var reloaded := (availableAttributeValues, selectedAttributeValue);
      UpdateQueryPreview();
      assert (availableAttributeValues, selectedAttributeValue) == reloaded;
    }

    /**
     * `LoadAttributeValuesAsync`: with no document nothing changes; otherwise
     * the value list and the chosen value become those `ReloadValues` gives
     * for the selected attribute. The preview is left to the caller, the
     * `SelectedAttribute` setter, which redraws it next.
     */
    method LoadAttributeValues(leq: (string, string) -> bool)
      requires IsTotalOrder(leq)
      modifies this`selectedAttributeValue, this`availableAttributeValues
      ensures document.None? ==> (selectedAttributeValue == old(selectedAttributeValue)
        && availableAttributeValues == old(availableAttributeValues))
      ensures document.Some? ==>
        (availableAttributeValues, selectedAttributeValue) == ReloadValues(document.value, MainNodeName, selectedAttribute, leq)
    {
      if document.Some? {
        var r := ReloadValues(document.value, MainNodeName, selectedAttribute, leq);
        availableAttributeValues := r.0;
        selectedAttributeValue := r.1;
      }
    }

    /**
     * `LoadAttributesAsync`: with no document nothing changes; otherwise the
     * attribute list is refilled with the attributes used on the records,
     * sorted and each once, and the first of them is selected, which reloads
     * the value list.
     */
    method LoadAttributes(leq: (string, string) -> bool)
      requires IsTotalOrder(leq)
      modifies this`availableAttributes, this`selectedAttribute, this`selectedAttributeValue,
        this`availableAttributeValues, this`queryPreview
      ensures document.None? ==> (availableAttributes == old(availableAttributes)
        && selectedAttribute == old(selectedAttribute) && selectedAttributeValue == old(selectedAttributeValue)
        && availableAttributeValues == old(availableAttributeValues) && queryPreview == old(queryPreview))
      ensures document.Some? ==> Sorted(leq, availableAttributes) && Distinct(availableAttributes)
      ensures document.Some? ==> forall a :: a in availableAttributes <==>
        Metadata.UsedAmong(ElementsNamed(document.value, MainNodeName), |ElementsNamed(document.value, MainNodeName)|, a)
      ensures document.Some? ==> selectedAttribute == FirstOrNone(availableAttributes)
      ensures document.Some? ==>
        (availableAttributeValues, selectedAttributeValue) == ReloadValues(document.value, MainNodeName, selectedAttribute, leq)
      ensures document.Some? ==> Valid()
    {
      if document.Some? {
        availableAttributes := Metadata.GetAttributes(document.value, MainNodeName, leq);
        SetSelectedAttribute(FirstOrNone(availableAttributes), leq);
      }
    }

    /**
     * The end of `SelectXmlAsync`, once the picked file is copied: the
     * document is taken and the attribute list loaded for it.
     */
    method SelectDocument(doc: Node, leq: (string, string) -> bool)
      requires IsTotalOrder(leq)
      modifies this`document, this`availableAttributes, this`selectedAttribute, this`selectedAttributeValue,
        this`availableAttributeValues, this`queryPreview
      ensures document == Some(doc)
      ensures Sorted(leq, availableAttributes) && Distinct(availableAttributes)
      ensures forall a :: a in availableAttributes <==>
        Metadata.UsedAmong(ElementsNamed(doc, MainNodeName), |ElementsNamed(doc, MainNodeName)|, a)
      ensures selectedAttribute == FirstOrNone(availableAttributes)
      ensures (availableAttributeValues, selectedAttributeValue) == ReloadValues(doc, MainNodeName, selectedAttribute, leq)
      ensures Valid()
    {
      document := Some(doc);
      LoadAttributes(leq);
    }

    /** The `SelectedAttributeValue` setter. */
    method SetSelectedAttributeValue(value: Option<string>)
      modifies this`selectedAttributeValue, this`queryPreview
      ensures selectedAttributeValue == value && Valid()
    {
      selectedAttributeValue := value;
      UpdateQueryPreview();
    }
  }

  /**
   * The preview describes the query the search runs: its path names the
   * query's records, the attribute condition appears exactly when the
   * attribute filter is active, and the keyword condition, after it, exactly
   * when the keyword filter is active, holding the keyword searched for.
   */
  lemma PreviewDescribesQuery(mainNodeName: string, attribute: Option<string>, value: Option<string>, keyword: string,
                              q: SearchQuery)
    requires q == SearchQuery(mainNodeName, NullIfBlank(attribute), NullIfBlank(value), NormalizeKeyword(keyword))
    ensures Preview(mainNodeName, attribute, value, keyword)
      == "//" + q.mainNodeName
         + (if AttributeFilterActive(q) then AttributePart(q.attributeName.value, q.attributeValue.value) else "")
         + (if KeywordActive(q) then KeywordPart(SearchKeyword(q)) else "")
  {
    TrimIdempotent(keyword);
  }

  /** Text appended after a path leaves the path at the front. */
  lemma PathKept(path: string, a: string, k: string)
    ensures var p := path + a + k;
      |p| >= |path| && p[..|path|] == path
  {
    var p := path + a + k;
    assert p == path + (a + k);
  }

  /** The preview starts with the record path. */
  lemma PreviewStartsWithPath(mainNodeName: string, attribute: Option<string>, value: Option<string>, keyword: string)
    ensures var p := Preview(mainNodeName, attribute, value, keyword);
      |p| >= |mainNodeName| + 2 && p[..|mainNodeName| + 2] == "//" + mainNodeName
  {
    PathKept("//" + mainNodeName, AttributeSection(attribute, value), KeywordSection(keyword));
  }

  /** After a six-character path, a string of optional sections opens with `[@` exactly when the first section is there. */
  lemma OpensWithFirstSection(path: string, a: string, k: string)
    requires |path| == 6
    requires a != "" ==> |a| >= 2 && a[..2] == "[@"
    requires k != "" ==> |k| >= 2 && k[..2] == "[c"
    ensures var p := path + a + k;
      |p| >= 8 && p[6..8] == "[@" <==> a != ""
  {
    var p := path + a + k;
    if a != "" {
      assert p[6..8] == a[..2];
    } else if k != "" {
      assert p[6..8] == k[..2];
    }
  }

  /** A string of optional sections ends in `)]` exactly when the last one is there. */
  lemma EndsWithLastSection(path: string, a: string, k: string)
    requires a != "" ==> |a| >= 2 && a[|a| - 2..] == "']"
    requires k != "" ==> |k| >= 2 && k[|k| - 2..] == ")]"
    requires path == "" || path[|path| - 1] != ']'
    ensures var p := path + a + k;
      |p| >= 2 && p[|p| - 2..] == ")]" <==> k != ""
  {
    var p := path + a + k;
    if k != "" {
      assert p[|p| - 2..] == k[|k| - 2..];
    } else if a != "" {
      assert p == path + a;
      assert p[|p| - 2..] == a[|a| - 2..];
    } else {
      assert p == path;
    }
  }

  /** For `book` records, the text after the path opens with `[@` exactly when attribute and value are both chosen. */
  lemma AttributeConditionShown(attribute: Option<string>, value: Option<string>, keyword: string)
    ensures var p := Preview("book", attribute, value, keyword);
      |p| >= 8 && p[6..8] == "[@" <==> !IsNullOrWhiteSpace(attribute) && !IsNullOrWhiteSpace(value)
  {
    OpensWithFirstSection("//" + "book", AttributeSection(attribute, value), KeywordSection(keyword));
  }

  /** For `book` records, the preview ends in `)]` exactly when a keyword is typed. */
  lemma KeywordConditionShown(attribute: Option<string>, value: Option<string>, keyword: string)
    ensures var p := Preview("book", attribute, value, keyword);
      |p| >= 2 && p[|p| - 2..] == ")]" <==> !AllWhiteSpace(keyword)
  {
    EndsWithLastSection("//" + "book", AttributeSection(attribute, value), KeywordSection(keyword));
  }

  /**
   * The value list and the chosen value after a reload: nothing for a blank
   * attribute, otherwise the values the attribute takes on the records, with
   * the first of them chosen.
   */
  function ReloadValues(doc: Node, mainNodeName: string, attribute: Option<string>, leq: (string, string) -> bool)
    : (seq<string>, Option<string>)
    requires IsTotalOrder(leq)
  {
    if IsNullOrWhiteSpace(attribute) then ([], None)
    else
      var values := Metadata.GetAttributeValues(doc, mainNodeName, attribute.value, leq);
      (values, FirstOrNone(values))
  }

  /**
   * A value chosen by a reload is one of the listed values, and some record
   * carries the selected attribute with that value.
   */
  lemma ReloadChoosesTakenValue(doc: Node, mainNodeName: string, attribute: Option<string>, leq: (string, string) -> bool)
    requires IsTotalOrder(leq)
    ensures var (values, chosen) := ReloadValues(doc, mainNodeName, attribute, leq);
      chosen.Some? ==>
        !IsNullOrWhiteSpace(attribute) && chosen.value in values && !AllWhiteSpace(chosen.value)
        && Metadata.TakesValue(ElementsNamed(doc, mainNodeName), attribute.value, chosen.value)
  {
  }

  /**
   * A value chosen by a reload finds records: searching with the attribute
   * and that value alone returns at least one line in the tree strategies.
   */
  lemma ReloadedValueFindsRecords(doc: Node, mainNodeName: string, attribute: Option<string>, leq: (string, string) -> bool)
    requires IsTotalOrder(leq)
    ensures var (values, chosen) := ReloadValues(doc, mainNodeName, attribute, leq);
      chosen.Some? ==>
        Linq.Search(doc, SearchQuery(mainNodeName, attribute, chosen, None)) != []
        && Dom.Pipeline(SearchQuery(mainNodeName, attribute, chosen, None), ElementsNamed(doc, mainNodeName)) != []
  {
    var (values, chosen) := ReloadValues(doc, mainNodeName, attribute, leq);
    if chosen.Some? {
      ReloadChoosesTakenValue(doc, mainNodeName, attribute, leq);
      PickedValueFindsRecords(doc, mainNodeName, attribute.value, chosen.value, leq);
    }
  }

  /** `FirstOrDefault()` on a list of strings. */
  function FirstOrNone(s: seq<string>): (r: Option<string>)
    ensures r.None? <==> s == []
    ensures r.Some? ==> r.value == s[0]
  {
    if s == [] then None else Some(s[0])
  }

  /** A candidate list in which some record takes value `v` for `attribute` gives a line in both tree strategies. */
  lemma ValueFindsRecords(mainNodeName: string, candidates: seq<Node>, attribute: string, v: string)
    requires !AllWhiteSpace(attribute)
    requires Metadata.TakesValue(candidates, attribute, v)
    ensures Linq.Pipeline(SearchQuery(mainNodeName, Some(attribute), Some(v), None), candidates) != []
    ensures Dom.Pipeline(SearchQuery(mainNodeName, Some(attribute), Some(v), None), candidates) != []
  {
    var q := SearchQuery(mainNodeName, Some(attribute), Some(v), None);
    var i :| 0 <= i < |candidates| && GetAttribute(Attrs(candidates[i]), attribute) == Some(v);
    assert Linq.Selected(q, candidates[i]);
    Linq.PipelineMembership(q, candidates, Linq.FormatRecord(candidates[i]));
    assert Dom.Keeps(q, candidates[i]);
    Dom.PipelineIsSelection(q, candidates);
    assert candidates[i] in Filter(Dom.KeepStage(q), candidates);
  }

  /**
   * A value offered in the value picker finds records: searching for it
   * alone with the attribute it was listed for returns at least one line,
   * in the DOM and LINQ strategies alike.
   */
  lemma PickedValueFindsRecords(doc: Node, mainNodeName: string, attribute: string, v: string,
                                leq: (string, string) -> bool)
    requires IsTotalOrder(leq)
    requires !AllWhiteSpace(attribute)
    requires v in Metadata.GetAttributeValues(doc, mainNodeName, attribute, leq)
    ensures Linq.Search(doc, SearchQuery(mainNodeName, Some(attribute), Some(v), None)) != []
    ensures Dom.Pipeline(SearchQuery(mainNodeName, Some(attribute), Some(v), None), ElementsNamed(doc, mainNodeName)) != []
  {
    ValueFindsRecords(mainNodeName, ElementsNamed(doc, mainNodeName), attribute, v);
  }
}
