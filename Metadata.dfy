/**
 * `XmlMetadataService`: the attribute names used on the records, and the
 * values one attribute takes on them, each listed once and sorted. These
 * feed the attribute and value pickers of the query form.
 */
module Metadata {
  import opened Wrappers
  import opened Text
  import opened Seqs
  import opened Ordering
  import opened Xml

  /** One of the first `k` attributes of `attrs` is called `a`. */
  predicate NamedAmong(attrs: seq<Attribute>, k: int, a: string)
    requires k <= |attrs|
  {
    exists j :: 0 <= j < k && attrs[j].name == a
  }

  /** One of the first `i` nodes has an attribute called `a`. */
  predicate UsedAmong(nodes: seq<Node>, i: int, a: string)
    requires i <= |nodes|
  {
    exists j :: 0 <= j < i && NamedAmong(Attrs(nodes[j]), |Attrs(nodes[j])|, a)
  }

  /**
   * `GetAttributesAsync`: the names of the attributes found on the records
   * called `mainNodeName`, each once, sorted by `leq`. `attrs` is the
   * `HashSet`; the order it is filled in does not show in the result.
   */
  method GetAttributes(doc: Node, mainNodeName: string, leq: (string, string) -> bool) returns (result: seq<string>)
    requires IsTotalOrder(leq)
    ensures Sorted(leq, result) && Distinct(result)
    ensures forall a :: a in result <==>
      UsedAmong(ElementsNamed(doc, mainNodeName), |ElementsNamed(doc, mainNodeName)|, a)
  {
    var nodes := ElementsNamed(doc, mainNodeName);
    var attrs: seq<string> := [];
    for i := 0 to |nodes|
      invariant Distinct(attrs)
      invariant forall a :: a in attrs <==> UsedAmong(nodes, i, a)
    {
      var list := Attrs(nodes[i]);
      for k := 0 to |list|
        invariant Distinct(attrs)
        invariant forall a :: a in attrs <==> UsedAmong(nodes, i, a) || NamedAmong(list, k, a)
      {
        if list[k].name !in attrs {
          attrs := attrs + [list[k].name];
        }
      }
    }
    result := Sort(leq, attrs);
    SortSameElements(leq, attrs);
    DistinctPermutation(attrs, result);
  }

  /** `(string?)n.Attribute(attributeName)` for each record, the `Select` step. */
  function AttributeValue(attributeName: string): Node -> Option<string>
  {
    n => GetAttribute(Attrs(n), attributeName)
  }

  /** The `Where` step: the values that are neither null nor blank, in order. */
  function NonBlank(values: seq<Option<string>>): (r: seq<string>)
    ensures forall v :: v in r <==> Some(v) in values && !AllWhiteSpace(v)
  {
    if values == [] then []
    else
      var init, last := values[..|values| - 1], values[|values| - 1];
      assert values == init + [last];
      NonBlank(init) + if IsNullOrWhiteSpace(last) then [] else [last.value]
  }

  /** Some node of `nodes` has `attributeName` set to `v`. */
  predicate TakesValue(nodes: seq<Node>, attributeName: string, v: string)
  {
    exists i :: 0 <= i < |nodes| && GetAttribute(Attrs(nodes[i]), attributeName) == Some(v)
  }

  /** The `Select` step yields exactly the values the records take. */
  lemma SelectedValues(nodes: seq<Node>, attributeName: string)
    ensures forall v :: Some(v) in Map(AttributeValue(attributeName), nodes) <==> TakesValue(nodes, attributeName, v)
  {
    var values := Map(AttributeValue(attributeName), nodes);
    forall v ensures Some(v) in values <==> TakesValue(nodes, attributeName, v) {
      if Some(v) in values {
        var i :| 0 <= i < |values| && values[i] == Some(v);
        assert GetAttribute(Attrs(nodes[i]), attributeName) == Some(v);
      }
      if TakesValue(nodes, attributeName, v) {
        var i :| 0 <= i < |nodes| && GetAttribute(Attrs(nodes[i]), attributeName) == Some(v);
        assert values[i] == Some(v);
      }
    }
  }

  /**
   * `GetAttributeValuesAsync`: the non-blank values of `attributeName` on
   * the records, each once, sorted by `leq`.
   */
  function GetAttributeValues(doc: Node, mainNodeName: string, attributeName: string,
                              leq: (string, string) -> bool): (r: seq<string>)
    requires IsTotalOrder(leq)
    ensures Sorted(leq, r) && Distinct(r)
    ensures forall v :: v in r <==> !AllWhiteSpace(v) && TakesValue(ElementsNamed(doc, mainNodeName), attributeName, v)
  {
    var nodes := ElementsNamed(doc, mainNodeName);
    var values := Map(AttributeValue(attributeName), nodes);
    var distinct := Dedup(NonBlank(values));
    var r := Sort(leq, distinct);
    SortSameElements(leq, distinct);
    DistinctPermutation(distinct, r);
    SelectedValues(nodes, attributeName);
    r
  }

  /** Without records, the value picker is empty. */
  lemma NoRecordsNoValues(doc: Node, mainNodeName: string, attributeName: string, leq: (string, string) -> bool)
    requires IsTotalOrder(leq)
    requires ElementsNamed(doc, mainNodeName) == []
    ensures GetAttributeValues(doc, mainNodeName, attributeName, leq) == []
  {
    var r := GetAttributeValues(doc, mainNodeName, attributeName, leq);
    assert forall v :: v !in r;
  }
}
