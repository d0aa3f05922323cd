/**
 * `StrategyFactory` and the strategies registered with it. The interface
 * `IXmlSearchStrategy` is the datatype `Strategy`, one constructor per
 * implementation, with its `Name` and `SearchAsync` dispatched on it.
 */
module Registry {
  import opened Wrappers
  import opened Seqs
  import opened Ordering
  import opened Xml
  import opened Queries
  import Sax = SaxStrategy
  import Dom = DomStrategy
  import Linq = LinqStrategy

  datatype Strategy = SaxReader | DomDocument | LinqToXml

  /** `IXmlSearchStrategy.Name`. */
  function Name(s: Strategy): string
  {
    match s
    case SaxReader => Sax.Name
    case DomDocument => Dom.Name
    case LinqToXml => Linq.Name
  }

  /** No two strategies share a name, so a name picks out one strategy. */
  lemma NamesDistinct(s: Strategy, t: Strategy)
    ensures Name(s) == Name(t) <==> s == t
  {
    if s != t {
      assert Name(s)[0] != Name(t)[0];
    }
  }

  /**
   * `IXmlSearchStrategy.SearchAsync` on the loaded document. Only the SAX
   * strategy can end in the reader's content error.
   */
  method Search(s: Strategy, doc: Node, q: SearchQuery) returns (r: SearchResult)
    ensures s.SaxReader? ==> r == Sax.Scan(q, Tokens(doc))
    ensures s.DomDocument? ==> r == Lines(Dom.Pipeline(q, ElementsNamed(doc, q.mainNodeName)))
    ensures s.LinqToXml? ==> r == Lines(Linq.Search(doc, q))
  {
    match s
    case SaxReader =>
      r := Sax.Search(Tokens(doc), q);
    case DomDocument =>
      var lines := Dom.Search(doc, q);
      r := Lines(lines);
    case LinqToXml =>
      r := Lines(Linq.Search(doc, q));
  }

  /** The first strategy in `strategies` called `name`, or none (where `First` throws). */
  function FirstNamed(strategies: seq<Strategy>, name: string): (r: Option<Strategy>)
    ensures r.None? <==> forall i :: 0 <= i < |strategies| ==> Name(strategies[i]) != name
    ensures r.Some? ==> exists i :: 0 <= i < |strategies| && strategies[i] == r.value && Name(r.value) == name
                                   && forall j :: 0 <= j < i ==> Name(strategies[j]) != name
  {
    if strategies == [] then None
    else if Name(strategies[0]) == name then Some(strategies[0])
    else
      var r := FirstNamed(strategies[1..], name);
      assert r.Some? ==> exists i :: 1 <= i < |strategies| && strategies[i] == r.value && Name(r.value) == name
                                     && forall j :: 0 <= j < i ==> Name(strategies[j]) != name by {
        if r.Some? {
          var i :| 0 <= i < |strategies[1..]| && strategies[1..][i] == r.value && Name(r.value) == name
                   && forall j :: 0 <= j < i ==> Name(strategies[1..][j]) != name;
          assert strategies[i + 1] == r.value;
          forall j | 0 <= j < i + 1 ensures Name(strategies[j]) != name {
            if j > 0 {
              assert strategies[j] == strategies[1..][j - 1];
            }
          }
        }
      }
      r
  }

  class StrategyFactory {
    /** The registered strategies, in registration order. */
    const strategies: seq<Strategy>

    constructor(strategies: seq<Strategy>)
      ensures this.strategies == strategies
    {
      this.strategies := strategies;
    }

    /** `GetStrategyNames`: the registered names, sorted by `leq`, one per registration. */
    function GetStrategyNames(leq: (string, string) -> bool): (r: seq<string>)
      requires IsTotalOrder(leq)
      ensures Sorted(leq, r)
      ensures multiset(r) == multiset(Map(Name, strategies))
      ensures forall n :: n in r <==> exists i :: 0 <= i < |strategies| && Name(strategies[i]) == n
    {
      var names := Map(Name, strategies);
      SortSameElements(leq, names);
      Sort(leq, names)
    }

    /** `GetByName`: the registered strategy called `name`, or none when `First` would throw. */
    function GetByName(name: string): (r: Option<Strategy>)
      ensures r.None? <==> forall i :: 0 <= i < |strategies| ==> Name(strategies[i]) != name
      ensures r.Some? ==> exists i :: 0 <= i < |strategies| && strategies[i] == r.value && Name(r.value) == name
                                     && forall j :: 0 <= j < i ==> Name(strategies[j]) != name
    {
      FirstNamed(strategies, name)
    }
  }

  /** Every name the factory lists resolves, to a strategy of that name. */
  lemma ListedNamesResolve(f: StrategyFactory, leq: (string, string) -> bool, name: string)
    requires IsTotalOrder(leq)
    requires name in f.GetStrategyNames(leq)
    ensures f.GetByName(name).Some? && Name(f.GetByName(name).value) == name
  {
  }

  /** The strategies the application registers, in registration order. */
  const AppStrategies: seq<Strategy> := [SaxReader, DomDocument, LinqToXml]

  /** The application's names in ordinal order. */
  lemma AppNamesOrdered()
    ensures Sorted(OrdinalLessOrEqual, [Dom.Name, Linq.Name, Sax.Name])
  {
    assert OrdinalLessOrEqual(Dom.Name, Linq.Name);
    assert OrdinalLessOrEqual(Linq.Name, Sax.Name);
    assert OrdinalLessOrEqual(Dom.Name, Sax.Name);
  }

  lemma AppNames()
    ensures Map(Name, AppStrategies) == [Sax.Name, Dom.Name, Linq.Name]
  {
  }

  /** Any sorted, duplicate-free arrangement of the registered names is the factory's listing. */
  lemma ListingIsUnique(f: StrategyFactory, leq: (string, string) -> bool, expected: seq<string>)
    requires IsTotalOrder(leq)
    requires Sorted(leq, expected) && Distinct(expected)
    requires multiset(expected) == multiset(Map(Name, f.strategies))
    ensures f.GetStrategyNames(leq) == expected
  {
    var names := f.GetStrategyNames(leq);
    DistinctPermutation(expected, names);
    forall x ensures x in names <==> x in expected {
      assert x in names <==> x in multiset(names);
      assert x in expected <==> x in multiset(expected);
    }
    SortedSetUnique(leq, names, expected);
  }

  /** The application's names, listed in ordinal order, are pairwise different. */
  lemma AppNamesDistinct()
    ensures Distinct([Dom.Name, Linq.Name, Sax.Name])
  {
    NamesDistinct(SaxReader, DomDocument);
    NamesDistinct(SaxReader, LinqToXml);
    NamesDistinct(DomDocument, LinqToXml);
  }

  /** The ordinal listing holds the registered names, each once. */
  lemma AppNamesRearranged()
    ensures multiset([Dom.Name, Linq.Name, Sax.Name]) == multiset(Map(Name, AppStrategies))
  {
    AppNames();
    assert [Sax.Name, Dom.Name, Linq.Name] == [Sax.Name] + [Dom.Name, Linq.Name];
    assert [Dom.Name, Linq.Name, Sax.Name] == [Dom.Name, Linq.Name] + [Sax.Name];
  }

  /** With the application's registrations the picker lists the DOM, LINQ and SAX strategies, in that order. */
  lemma AppStrategyNames(f: StrategyFactory)
    requires f.strategies == AppStrategies
    ensures IsTotalOrder(OrdinalLessOrEqual)
    ensures f.GetStrategyNames(OrdinalLessOrEqual) == [Dom.Name, Linq.Name, Sax.Name]
  {
    OrdinalIsTotalOrder();
    AppNamesOrdered();
    AppNamesDistinct();
    AppNamesRearranged();
    ListingIsUnique(f, OrdinalLessOrEqual, [Dom.Name, Linq.Name, Sax.Name]);
  }
}
