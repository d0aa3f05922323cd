/**
 * The parsed XML document. The strategies read it through three views:
 * the element tree (`XmlDocument`, `XDocument`), the preorder list of
 * elements with a given name (`GetElementsByTagName`, `Descendants`), and the
 * token stream an `XmlReader` produces. The tree is the document as loaded:
 * comments and whitespace-only text between elements are not in it, as
 * `XmlDocument.Load` and `XDocument.Load` drop them by default and the
 * reader is created with `IgnoreComments` and `IgnoreWhitespace`. Names are
 * unprefixed local names.
 */
module Xml {
  import opened Wrappers

  datatype Attribute = Attribute(name: string, value: string)

  /** An element with its attributes and child nodes, or a text node. */
  datatype Node =
    | Element(name: string, attrs: seq<Attribute>, children: seq<Node>)
    | Text(text: string)

  /** What `XmlReader.Read` stops on: an element start (`IsEmptyElement` for `<x/>`), text, or an end tag. */
  datatype Token =
    | StartTag(name: string, attrs: seq<Attribute>, isEmpty: bool)
    | TextToken(text: string)
    | EndTag(name: string)

  function Attrs(n: Node): seq<Attribute>
  {
    if n.Element? then n.attrs else []
  }

  function Children(n: Node): seq<Node>
  {
    if n.Element? then n.children else []
  }

  /**
   * The value of the attribute `name`, or null when the element has none
   * (`XmlReader.GetAttribute`, `XElement.Attribute`). A well-formed element
   * has at most one attribute of each name; the first one is taken.
   */
  function GetAttribute(attrs: seq<Attribute>, name: string): (r: Option<string>)
    ensures r.None? <==> forall i :: 0 <= i < |attrs| ==> attrs[i].name != name
    ensures r.Some? ==> exists i :: 0 <= i < |attrs| && attrs[i] == Attribute(name, r.value)
  {
    if attrs == [] then None
    else if attrs[0].name == name then Some(attrs[0].value)
    else
      var r := GetAttribute(attrs[1..], name);
      assert r.Some? ==> attrs[1..][0..] == attrs[1..];
      r
  }

  /** `n` is an element called `name`. */
  predicate IsElementNamed(n: Node, name: string)
  {
    n.Element? && n.name == name
  }

  /** The first child element called `name` (`XmlNode["name"]`, `XElement.Element("name")`), or null. */
  function FirstChild(children: seq<Node>, name: string): (r: Option<Node>)
    ensures r.None? <==> forall i :: 0 <= i < |children| ==> !IsElementNamed(children[i], name)
    ensures r.Some? ==> IsElementNamed(r.value, name)
    ensures r.Some? ==> exists i :: (0 <= i < |children| && children[i] == r.value
      && forall j :: 0 <= j < i ==> !IsElementNamed(children[j], name))
  {
    if children == [] then None
    else if IsElementNamed(children[0], name) then Some(children[0])
    else
      var r := FirstChild(children[1..], name);
      if r.None? then r
      else
        var i :| 0 <= i < |children[1..]| && children[1..][i] == r.value
          && forall j :: 0 <= j < i ==> !IsElementNamed(children[1..][j], name);
        assert children[i + 1] == r.value;
        assert forall j :: 0 <= j < i + 1 ==> !IsElementNamed(children[j], name) by {
          forall j | 0 <= j < i + 1 ensures !IsElementNamed(children[j], name) {
            if j > 0 { assert children[j] == children[1..][j - 1]; }
          }
        }
        r
  }

  /**
   * The text of the first child element called `child`, or null when there
   * is none (`el[child]?.InnerText`, `(string?)n.Element(child)`).
   */
  function ChildText(n: Node, child: string): (r: Option<string>)
    ensures r.None? <==> FirstChild(Children(n), child).None?
    ensures r.Some? ==> r.value == InnerText(FirstChild(Children(n), child).value)
  {
    match FirstChild(Children(n), child)
    case None => None
    case Some(c) => Some(InnerText(c))
  }

  /** The concatenated text of all descendant text nodes (`XmlNode.InnerText`, `(string)XElement`). */
  function InnerText(n: Node): string
    decreases n
  {
    match n
    case Text(s) => s
    case Element(_, _, cs) => InnerTextOf(cs)
  }

  function InnerTextOf(cs: seq<Node>): string
    decreases cs
  {
    if cs == [] then "" else InnerText(cs[0]) + InnerTextOf(cs[1..])
  }

  /** Every element called `name` in `n`, `n` itself included, in document (preorder) order. */
  function ElementsNamed(n: Node, name: string): (r: seq<Node>)
    ensures forall i :: 0 <= i < |r| ==> r[i].Element? && r[i].name == name
    decreases n
  {
    match n
    case Text(_) => []
    case Element(m, _, cs) => (if m == name then [n] else []) + ElementsNamedOf(cs, name)
  }

  function ElementsNamedOf(cs: seq<Node>, name: string): (r: seq<Node>)
    ensures forall i :: 0 <= i < |r| ==> r[i].Element? && r[i].name == name
    decreases cs
  {
    if cs == [] then [] else ElementsNamed(cs[0], name) + ElementsNamedOf(cs[1..], name)
  }

  /**
   * The reader's tokens for `n`. An element without children is read as a
   * self-closing tag: one `StartTag` with `isEmpty` and no `EndTag`.
   */
  function Tokens(n: Node): (r: seq<Token>)
    ensures r != []
    ensures n.Text? ==> r == [TextToken(n.text)]
    ensures n.Element? ==> r[0] == StartTag(n.name, n.attrs, n.children == [])
    ensures n.Element? && n.children != [] ==> |r| >= 2 && r[|r| - 1] == EndTag(n.name)
    decreases n
  {
    match n
    case Text(s) => [TextToken(s)]
    case Element(m, a, cs) =>
      if cs == [] then [StartTag(m, a, true)]
      else [StartTag(m, a, false)] + TokensOf(cs) + [EndTag(m)]
  }

  function TokensOf(cs: seq<Node>): seq<Token>
    decreases cs
  {
    if cs == [] then [] else Tokens(cs[0]) + TokensOf(cs[1..])
  }

  /** How many start tags called `name` the stream holds. */
  function StartTagCount(toks: seq<Token>, name: string): nat
  {
    if toks == [] then 0
    else (if toks[0].StartTag? && toks[0].name == name then 1 else 0) + StartTagCount(toks[1..], name)
  }

  lemma {:induction false} StartTagCountConcat(a: seq<Token>, b: seq<Token>, name: string)
    ensures StartTagCount(a + b, name) == StartTagCount(a, name) + StartTagCount(b, name)
  {
    if a == [] {
      assert a + b == b;
    } else {
      assert (a + b)[1..] == a[1..] + b;
      StartTagCountConcat(a[1..], b, name);
    }
  }

  /**
   * The element list misses nothing: it holds one entry for each start tag
   * called `name` the reader meets in the same subtree.
   */
  lemma {:induction false} ElementsNamedCountsStartTags(n: Node, name: string)
    ensures |ElementsNamed(n, name)| == StartTagCount(Tokens(n), name)
    decreases n
  {
    match n
    case Text(_) =>
    case Element(m, a, cs) =>
      ElementsNamedOfCountsStartTags(cs, name);
      if cs != [] {
        StartTagCountConcat([StartTag(m, a, false)] + TokensOf(cs), [EndTag(m)], name);
        StartTagCountConcat([StartTag(m, a, false)], TokensOf(cs), name);
      }
  }

  lemma {:induction false} ElementsNamedOfCountsStartTags(cs: seq<Node>, name: string)
    ensures |ElementsNamedOf(cs, name)| == StartTagCount(TokensOf(cs), name)
    decreases cs
  {
    if cs != [] {
      ElementsNamedCountsStartTags(cs[0], name);
      ElementsNamedOfCountsStartTags(cs[1..], name);
      StartTagCountConcat(Tokens(cs[0]), TokensOf(cs[1..]), name);
    }
  }
}
