/**
 * `SaxXmlSearchStrategy`: one forward pass over the reader's tokens with a
 * small state machine in the locals `inTarget`, `rejectedByAttr` and the
 * five captured fields. `Run` is the pass as a function, one `Step` per
 * token the loop examines; the method `Search` is the loop itself.
 *
 * `ReadElementContentAsString` (used for `title` and `annotation`) reads
 * through the element's end tag and leaves the reader on the following
 * node; the loop's `ReadAsync` then moves past that node before examining
 * anything, so the token right after `</title>` or `</annotation>` is never
 * looked at. It throws for an element with child elements (`ContentError`).
 */
module SaxStrategy {
  import opened Wrappers
  import opened Text
  import opened Xml
  import opened Queries
  import Linq = LinqStrategy

  const Name: string := "SAX API (XmlReader)"

  /** The scanner's locals. */
  datatype ScanState = ScanState(
    inTarget: bool,
    rejectedByAttr: bool,
    curId: Option<string>,
    curYear: Option<string>,
    curTitle: Option<string>,
    curAnnotation: Option<string>,
    curAuthor: Option<string>)

  /** The state `Reset()` leaves: outside any record, nothing captured. */
  const Cleared: ScanState := ScanState(false, false, None, None, None, None, None)

  predicate IsRecordStart(q: SearchQuery, t: Token)
  {
    t.StartTag? && t.name == q.mainNodeName
  }

  predicate IsRecordEnd(q: SearchQuery, t: Token)
  {
    t.EndTag? && t.name == q.mainNodeName
  }

  /**
   * `ReadElementContentAsString` on the start tag at `i`: the element's text
   * and the position of the node the reader is left on, or `None` when a
   * child element (or the end of input) comes before the end tag.
   */
  function ReadElementContent(toks: seq<Token>, i: nat): (r: Option<(string, nat)>)
    requires i < |toks| && toks[i].StartTag?
    ensures r.Some? ==> i < r.value.1 <= |toks|
  {
    if toks[i].isEmpty then Some(("", i + 1)) else ReadText(toks, i + 1, "")
  }

  function ReadText(toks: seq<Token>, j: nat, acc: string): (r: Option<(string, nat)>)
    requires j <= |toks|
    ensures r.Some? ==> j < r.value.1 <= |toks|
    decreases |toks| - j
  {
    if j == |toks| then None
    else match toks[j]
      case TextToken(s) => ReadText(toks, j + 1, acc + s)
      case EndTag(_) => Some((acc, j + 1))
      case StartTag(_, _, _) => None
  }

  /** Every child is a text node. */
  predicate AllText(cs: seq<Node>)
  {
    forall k :: 0 <= k < |cs| ==> cs[k].Text?
  }

  /**
   * On an element whose children are all text, the reader's content read
   * returns the element's text and leaves the reader just past the element.
   */
  lemma ReadsTextElement(toks: seq<Token>, i: nat, e: Node)
    requires e.Element? && AllText(e.children)
    requires i + |Tokens(e)| <= |toks| && toks[i..i + |Tokens(e)|] == Tokens(e)
    ensures ReadElementContent(toks, i) == Some((InnerText(e), i + |Tokens(e)|))
  {
    assert toks[i] == Tokens(e)[0];
    if e.children != [] {
      var run := TokensOf(e.children);
      assert Tokens(e) == [StartTag(e.name, e.attrs, false)] + run + [EndTag(e.name)];
      assert toks[i + 1..i + 1 + |run|] == run by {
        forall k | 0 <= k < |run| ensures toks[i + 1 + k] == run[k] {
          assert toks[i + 1 + k] == Tokens(e)[1 + k];
        }
      }
      assert toks[i + 1 + |run|] == Tokens(e)[1 + |run|];
      ReadsTextRun(toks, i + 1, "", e.children);
      assert "" + InnerTextOf(e.children) == InnerText(e);
    }
  }

  /** Reading a run of text tokens up to an end tag collects their texts, in order. */
  lemma {:induction false} ReadsTextRun(toks: seq<Token>, j: nat, acc: string, cs: seq<Node>)
    requires AllText(cs)
    requires j + |TokensOf(cs)| < |toks| && toks[j..j + |TokensOf(cs)|] == TokensOf(cs)
    requires toks[j + |TokensOf(cs)|].EndTag?
    ensures ReadText(toks, j, acc) == Some((acc + InnerTextOf(cs), j + |TokensOf(cs)| + 1))
    decreases cs
  {
    if cs == [] {
      assert acc + InnerTextOf(cs) == acc;
    } else {
      var t := cs[0].text;
      var rest := TokensOf(cs[1..]);
      assert TokensOf(cs) == [TextToken(t)] + rest;
      assert toks[j] == TokensOf(cs)[0];
      assert toks[j + 1..j + 1 + |rest|] == rest by {
        forall k | 0 <= k < |rest| ensures toks[j + 1 + k] == rest[k] {
          assert toks[j + 1 + k] == TokensOf(cs)[1 + k];
        }
      }
      assert AllText(cs[1..]) by {
        forall k | 0 <= k < |cs[1..]| ensures cs[1..][k].Text? { assert cs[1..][k] == cs[k + 1]; }
      }
      ReadsTextRun(toks, j + 1, acc + t, cs[1..]);
      assert acc + t + InnerTextOf(cs[1..]) == acc + InnerTextOf(cs);
    }
  }

  /**
   * On an element with a child element, the content read fails: the
   * reader meets the child's start tag before the element's end tag.
   */
  lemma ElementChildRejected(toks: seq<Token>, i: nat, e: Node)
    requires e.Element? && !AllText(e.children)
    requires i + |Tokens(e)| <= |toks| && toks[i..i + |Tokens(e)|] == Tokens(e)
    ensures ReadElementContent(toks, i).None?
  {
    var run := TokensOf(e.children);
    assert Tokens(e) == [StartTag(e.name, e.attrs, false)] + run + [EndTag(e.name)];
    assert toks[i] == Tokens(e)[0];
    assert toks[i + 1..i + 1 + |run|] == run by {
      forall k | 0 <= k < |run| ensures toks[i + 1 + k] == run[k] {
        assert toks[i + 1 + k] == Tokens(e)[1 + k];
      }
    }
    StopsAtChildElement(toks, i + 1, "", e.children);
  }

  /** A run of tokens for children that include an element makes the text read fail. */
  lemma {:induction false} StopsAtChildElement(toks: seq<Token>, j: nat, acc: string, cs: seq<Node>)
    requires !AllText(cs)
    requires j + |TokensOf(cs)| <= |toks| && toks[j..j + |TokensOf(cs)|] == TokensOf(cs)
    ensures ReadText(toks, j, acc).None?
    decreases cs
  {
    var first := Tokens(cs[0]);
    var rest := TokensOf(cs[1..]);
    assert TokensOf(cs) == first + rest;
    assert toks[j] == TokensOf(cs)[0] == first[0];
    if cs[0].Text? {
      assert toks[j + 1..j + 1 + |rest|] == rest by {
        forall k | 0 <= k < |rest| ensures toks[j + 1 + k] == rest[k] {
          assert toks[j + 1 + k] == TokensOf(cs)[1 + k];
        }
      }
      assert !AllText(cs[1..]) by {
        var k :| 0 <= k < |cs| && !cs[k].Text?;
        assert cs[1..][k - 1] == cs[k];
      }
      StopsAtChildElement(toks, j + 1, acc + cs[0].text, cs[1..]);
    }
  }

  /** The keyword test at a record's end: a null field never matches. */
  predicate KeywordMatches(kw: string, st: ScanState)
  {
    || OptionContainsIgnoreCase(st.curTitle, kw)
    || OptionContainsIgnoreCase(st.curAnnotation, kw)
    || OptionContainsIgnoreCase(st.curAuthor, kw)
  }

  /** The line for the captured record. */
  function LineOf(st: ScanState): string
  {
    Linq.FormatLine(st.curId.GetOr("-"), st.curYear.GetOr("-"),
                    st.curAuthor.GetOr("(no author)"), st.curTitle.GetOr("(no title)"))
  }

  /** The record-start branch: reset, enter the record, capture `id` and `year`, apply the attribute filter. */
  function Enter(q: SearchQuery, attrs: seq<Attribute>): (st: ScanState)
    ensures st.inTarget && st.curTitle.None? && st.curAnnotation.None? && st.curAuthor.None?
    ensures st.curId == GetAttribute(attrs, "id") && st.curYear == GetAttribute(attrs, "year")
    ensures st.rejectedByAttr <==>
      AttributeFilterActive(q) && GetAttribute(attrs, q.attributeName.value) != q.attributeValue
  {
    var rejected := AttributeFilterActive(q) && GetAttribute(attrs, q.attributeName.value) != q.attributeValue;
    ScanState(true, rejected, GetAttribute(attrs, "id"), GetAttribute(attrs, "year"), None, None, None)
  }

  /** The loop's next `ReadAsync` after the reader was left on node `after`: `n` stands for end of input. */
  function ReadPast(after: nat, n: nat): nat
  {
    if after < n then after + 1 else n
  }

  datatype StepResult = Next(state: ScanState, next: nat, line: Option<string>) | Failed

  /** One iteration of the loop body on the token at `i`. */
  function Step(q: SearchQuery, toks: seq<Token>, i: nat, st: ScanState): (r: StepResult)
    requires i < |toks|
    ensures r.Next? ==> i < r.next <= |toks|
  {
    var t := toks[i];
    var s := if IsRecordStart(q, t) then Enter(q, t.attrs) else st;
    if !s.inTarget then Next(s, i + 1, None)
    else if s.rejectedByAttr then Next(if IsRecordEnd(q, t) then Cleared else s, i + 1, None)
    else if t.StartTag? && t.name == "author" then
      Next(s.(curAuthor := GetAttribute(t.attrs, "fullName")), i + 1, None)
    else if t.StartTag? && t.name == "title" then
      match ReadElementContent(toks, i)
      case None => Failed
      case Some((text, after)) => Next(s.(curTitle := Some(text)), ReadPast(after, |toks|), None)
    else if t.StartTag? && t.name == "annotation" then
      match ReadElementContent(toks, i)
      case None => Failed
      case Some((text, after)) => Next(s.(curAnnotation := Some(text)), ReadPast(after, |toks|), None)
    else if IsRecordEnd(q, t) then
      if KeywordActive(q) && !KeywordMatches(SearchKeyword(q), s) then Next(Cleared, i + 1, None)
      else Next(Cleared, i + 1, Some(LineOf(s)))
    else Next(s, i + 1, None)
  }

  /** The rest of the pass from token `i` in state `st`, with `acc` already found. */
  function Run(q: SearchQuery, toks: seq<Token>, i: nat, st: ScanState, acc: seq<string>): SearchResult
    requires i <= |toks|
    decreases |toks| - i
  {
    if i == |toks| then Lines(acc)
    else match Step(q, toks, i, st)
      case Failed => ContentError
      case Next(s, next, line) => Run(q, toks, next, s, acc + (if line.Some? then [line.value] else []))
  }

  /** The whole pass. */
  function Scan(q: SearchQuery, toks: seq<Token>): SearchResult
  {
    Run(q, toks, 0, Cleared, [])
  }

  /** `SearchAsync` over the reader's tokens; `st` holds the seven locals and `st := Cleared` is `Reset()`. */
  method Search(toks: seq<Token>, q: SearchQuery) returns (r: SearchResult)
    ensures r == Scan(q, toks)
  {
    var results: seq<string> := [];
    var st := Cleared;
    var pos: int := -1;  // the reader starts before the first node
    while pos + 1 < |toks|  // ReadAsync: advance, and stop at end of input
      invariant -1 <= pos <= |toks|
      invariant Run(q, toks, if pos < |toks| then pos + 1 else |toks|, st, results) == Scan(q, toks)
      decreases |toks| - pos
    {
      pos := pos + 1;
      var t := toks[pos];
      ghost var step := Step(q, toks, pos, st);
      assert Run(q, toks, pos, st, results)
        == if step.Failed? then ContentError
           else Run(q, toks, step.next, step.state, results + if step.line.Some? then [step.line.value] else []);
      assert results + [] == results;
      if t.StartTag? && t.name == q.mainNodeName {
        st := Cleared;
        st := st.(inTarget := true, curId := GetAttribute(t.attrs, "id"), curYear := GetAttribute(t.attrs, "year"));
        if AttributeFilterActive(q) {
          var attrVal := GetAttribute(t.attrs, q.attributeName.value);
          if attrVal != q.attributeValue {
            st := st.(rejectedByAttr := true);
          }
        }
      }
      if !st.inTarget {
        continue;
      }
      if st.rejectedByAttr {
        if t.EndTag? && t.name == q.mainNodeName {
          st := Cleared;
        }
        continue;
      }
      if t.StartTag? && t.name == "author" {
        st := st.(curAuthor := GetAttribute(t.attrs, "fullName"));
      } else if t.StartTag? && t.name == "title" {
        var content := ReadElementContent(toks, pos);
        if content.None? {
          assert step == Failed;
          return ContentError;
        }
        st := st.(curTitle := Some(content.value.0));
        pos := content.value.1;
      } else if t.StartTag? && t.name == "annotation" {
        var content := ReadElementContent(toks, pos);
        if content.None? {
          assert step == Failed;
          return ContentError;
        }
        st := st.(curAnnotation := Some(content.value.0));
        pos := content.value.1;
      } else if t.EndTag? && t.name == q.mainNodeName {
        if KeywordActive(q) {
          var kw := SearchKeyword(q);
          var ok := OptionContainsIgnoreCase(st.curTitle, kw)
                 || OptionContainsIgnoreCase(st.curAnnotation, kw)
                 || OptionContainsIgnoreCase(st.curAuthor, kw);
          if !ok {
            st := Cleared;
            continue;
          }
        }
        results := results + [Linq.FormatLine(st.curId.GetOr("-"), st.curYear.GetOr("-"),
                                              st.curAuthor.GetOr("(no author)"), st.curTitle.GetOr("(no title)"))];
        st := Cleared;
      }
    }
    return Lines(results);
  }

  /**
   * A line is produced only at a record end tag, and the scan then leaves
   * the record; the only failure is reading a `title` or `annotation`.
   */
  lemma StepShape(q: SearchQuery, toks: seq<Token>, i: nat, st: ScanState)
    requires i < |toks|
    ensures var r := Step(q, toks, i, st);
      && (r.Next? && r.line.Some? ==> IsRecordEnd(q, toks[i]) && r.next == i + 1 && r.state == Cleared)
      && (r.Failed? ==> toks[i].StartTag? && (toks[i].name == "title" || toks[i].name == "annotation"))
  {
  }

  /**
   * At a record's end inside a record that passed the attribute filter, the
   * record's line is printed exactly when the keyword filter is off or one of
   * the captured title, annotation or author name contains the keyword; the
   * locals are reset either way.
   */
  lemma RecordEndStep(q: SearchQuery, toks: seq<Token>, i: nat, st: ScanState)
    requires i < |toks| && IsRecordEnd(q, toks[i])
    requires st.inTarget && !st.rejectedByAttr
    ensures var r := Step(q, toks, i, st);
      && r.Next? && r.state == Cleared && r.next == i + 1
      && (r.line.Some? <==> !KeywordActive(q) || KeywordMatches(SearchKeyword(q), st))
      && (r.line.Some? ==> r.line.value == LineOf(st))
  {
  }

  /** The number of record end tags in `s`. */
  function RecordEnds(q: SearchQuery, s: seq<Token>): nat
  {
    if s == [] then 0 else (if IsRecordEnd(q, s[0]) then 1 else 0) + RecordEnds(q, s[1..])
  }

  lemma {:induction false} RecordEndsConcat(q: SearchQuery, a: seq<Token>, b: seq<Token>)
    ensures RecordEnds(q, a + b) == RecordEnds(q, a) + RecordEnds(q, b)
  {
    if a == [] {
      assert a + b == b;
    } else {
      assert (a + b)[1..] == a[1..] + b;
      RecordEndsConcat(q, a[1..], b);
    }
  }

  lemma {:induction false} RecordEndsSuffix(q: SearchQuery, toks: seq<Token>, i: nat, j: nat)
    requires i <= j <= |toks|
    ensures RecordEnds(q, toks[j..]) <= RecordEnds(q, toks[i..])
    decreases j - i
  {
    if i < j {
      assert toks[i..][1..] == toks[i + 1..];
      RecordEndsSuffix(q, toks, i + 1, j);
    }
  }

  /**
   * Lines found so far are never dropped or reordered, and each further line
   * is produced at a record end tag: at most one per end tag still ahead.
   */
  lemma {:induction false} RunAppends(q: SearchQuery, toks: seq<Token>, i: nat, st: ScanState, acc: seq<string>)
    requires i <= |toks|
    ensures Run(q, toks, i, st, acc).Lines? ==>
      var ls := Run(q, toks, i, st, acc).lines;
      acc <= ls && |ls| <= |acc| + RecordEnds(q, toks[i..])
    decreases |toks| - i
  {
    if i < |toks| {
      assert toks[i..][1..] == toks[i + 1..];
      match Step(q, toks, i, st)
      case Failed =>
      case Next(s, next, line) =>
        var acc' := acc + if line.Some? then [line.value] else [];
        StepShape(q, toks, i, st);
        RunAppends(q, toks, next, s, acc');
        RecordEndsSuffix(q, toks, i + 1, next);
    }
  }

  /** At most one line per record end tag in the input. */
  lemma ScanBound(q: SearchQuery, toks: seq<Token>)
    ensures Scan(q, toks).Lines? ==> |Scan(q, toks).lines| <= RecordEnds(q, toks)
  {
    RunAppends(q, toks, 0, Cleared, []);
    assert toks[0..] == toks;
  }

  lemma {:induction false} RecordEndsPerElement(q: SearchQuery, n: Node)
    ensures RecordEnds(q, Tokens(n)) <= |ElementsNamed(n, q.mainNodeName)|
    decreases n
  {
    match n
    case Text(_) =>
    case Element(m, a, cs) =>
      if cs != [] {
        RecordEndsConcat(q, [StartTag(m, a, false)], TokensOf(cs));
        RecordEndsConcat(q, [StartTag(m, a, false)] + TokensOf(cs), [EndTag(m)]);
        RecordEndsPerElements(q, cs);
      }
  }

  lemma {:induction false} RecordEndsPerElements(q: SearchQuery, cs: seq<Node>)
    ensures RecordEnds(q, TokensOf(cs)) <= |ElementsNamedOf(cs, q.mainNodeName)|
    decreases cs
  {
    if cs != [] {
      RecordEndsConcat(q, Tokens(cs[0]), TokensOf(cs[1..]));
      RecordEndsPerElement(q, cs[0]);
      RecordEndsPerElements(q, cs[1..]);
    }
  }

  /** Over a whole document, at most one line per element with the record name. */
  lemma AtMostOneLinePerRecord(q: SearchQuery, doc: Node)
    ensures Scan(q, Tokens(doc)).Lines? ==>
      |Scan(q, Tokens(doc)).lines| <= |ElementsNamed(doc, q.mainNodeName)|
  {
    ScanBound(q, Tokens(doc));
    RecordEndsPerElement(q, doc);
  }

  /** Outside a record, every token up to the next record start is passed over. */
  lemma {:induction false} IdleUntilRecord(q: SearchQuery, toks: seq<Token>, i: nat, j: nat, st: ScanState, acc: seq<string>)
    requires i <= j <= |toks|
    requires !st.inTarget
    requires forall k :: i <= k < j ==> !IsRecordStart(q, toks[k])
    ensures Run(q, toks, i, st, acc) == Run(q, toks, j, st, acc)
    decreases j - i
  {
    if i < j {
      assert acc + [] == acc;
      IdleUntilRecord(q, toks, i + 1, j, st, acc);
    }
  }

  /** Input without a record start yields no lines and no error. */
  lemma NoRecordsNoLines(q: SearchQuery, toks: seq<Token>)
    requires forall k :: 0 <= k < |toks| ==> !IsRecordStart(q, toks[k])
    ensures Scan(q, toks) == Lines([])
  {
    IdleUntilRecord(q, toks, 0, |toks|, Cleared, []);
  }

  /**
   * A record the attribute filter rejected is passed over up to its end tag:
   * nothing in it is captured, and a `title` with child elements inside it
   * raises no error.
   */
  lemma {:induction false} RejectedRecordSkipped(q: SearchQuery, toks: seq<Token>, i: nat, j: nat, st: ScanState, acc: seq<string>)
    requires i <= j < |toks|
    requires st.inTarget && st.rejectedByAttr
    requires forall k :: i <= k < j ==> !IsRecordStart(q, toks[k]) && !IsRecordEnd(q, toks[k])
    requires IsRecordEnd(q, toks[j])
    ensures Run(q, toks, i, st, acc) == Run(q, toks, j + 1, Cleared, acc)
    decreases j - i
  {
    assert acc + [] == acc;
    if i < j {
      RejectedRecordSkipped(q, toks, i + 1, j, st, acc);
    }
  }

  /** The `fullName` of the last `author` start tag in `toks[i..j]`, or `cur` when there is none. */
  function LastAuthor(toks: seq<Token>, i: nat, j: nat, cur: Option<string>): Option<string>
    requires i <= j <= |toks|
    decreases j - i
  {
    if i == j then cur
    else if toks[j - 1].StartTag? && toks[j - 1].name == "author" then GetAttribute(toks[j - 1].attrs, "fullName")
    else LastAuthor(toks, i, j - 1, cur)
  }

  /**
   * Inside an accepted record, a stretch without record tags, `title` or
   * `annotation` only updates the author: a later `author` overwrites an
   * earlier one, at any depth.
   */
  lemma {:induction false} RecordBody(q: SearchQuery, toks: seq<Token>, i: nat, j: nat, st: ScanState, acc: seq<string>)
    requires i <= j <= |toks|
    requires st.inTarget && !st.rejectedByAttr
    requires forall k :: i <= k < j ==> !IsRecordStart(q, toks[k]) && !IsRecordEnd(q, toks[k])
    requires forall k :: i <= k < j ==> !(toks[k].StartTag? && (toks[k].name == "title" || toks[k].name == "annotation"))
    ensures Run(q, toks, i, st, acc) == Run(q, toks, j, st.(curAuthor := LastAuthor(toks, i, j, st.curAuthor)), acc)
    decreases j - i
  {
    if i < j {
      assert acc + [] == acc;
      var t := toks[i];
      var st' := if t.StartTag? && t.name == "author" then st.(curAuthor := GetAttribute(t.attrs, "fullName")) else st;
      assert Run(q, toks, i, st, acc) == Run(q, toks, i + 1, st', acc);
      RecordBody(q, toks, i + 1, j, st', acc);
      LastAuthorSplit(toks, i, j, st.curAuthor);
    }
  }

  /** Peeling the first token off the stretch `LastAuthor` looks at. */
  lemma {:induction false} LastAuthorSplit(toks: seq<Token>, i: nat, j: nat, cur: Option<string>)
    requires i < j <= |toks|
    ensures LastAuthor(toks, i, j, cur) == LastAuthor(toks, i + 1, j,
      if toks[i].StartTag? && toks[i].name == "author" then GetAttribute(toks[i].attrs, "fullName") else cur)
    decreases j - i
  {
    if i + 1 < j {
      LastAuthorSplit(toks, i, j - 1, cur);
    }
  }
}
