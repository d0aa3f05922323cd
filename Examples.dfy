/**
 * Two one-record catalogues on which the strategies disagree. In the first
 * the record's last child is its `title`, so the SAX scanner's `ReadAsync`
 * after reading the title passes over `</book>` and the record is never
 * emitted. In the second the `author` comes right after the `title`, so the
 * scanner never sees the author and a keyword found only in the author's
 * name finds nothing. The LINQ strategy returns the record's line in both.
 */
module Examples {
  import opened Wrappers
  import opened Xml
  import opened Queries
  import opened Text
  import Sax = SaxStrategy
  import Dom = DomStrategy
  import Linq = LinqStrategy

  const BookAttrs: seq<Attribute> := [Attribute("id", "bk101"), Attribute("year", "1950")]
  const Author: Node := Element("author", [Attribute("fullName", "Isaac Asimov")], [])
  const Title: Node := Element("title", [], [Text("I, Robot")])
  const Book: Node := Element("book", BookAttrs, [Author, Title])
  const IRobot: Node := Element("catalog", [], [Book])

  /** The query with no filter. */
  const Everything := SearchQuery("book", None, None, None)

  const IRobotTokens: seq<Token> := [StartTag("catalog", [], false), StartTag("book", BookAttrs, false),
                 StartTag("author", [Attribute("fullName", "Isaac Asimov")], true),
                 StartTag("title", [], false), TextToken("I, Robot"), EndTag("title"),
                 EndTag("book"), EndTag("catalog")]

  lemma IRobotTokenStream()
    ensures Tokens(IRobot) == IRobotTokens
  {
    var ta := Tokens(Author);
    assert ta == [StartTag("author", [Attribute("fullName", "Isaac Asimov")], true)];
    var tt := Tokens(Title);
    assert TokensOf([Text("I, Robot")]) == [TextToken("I, Robot")] by {
      assert [Text("I, Robot")][1..] == [];
    }
    assert tt == [StartTag("title", [], false), TextToken("I, Robot"), EndTag("title")];
    assert TokensOf([Title]) == tt by {
      assert [Title][1..] == [];
    }
    assert TokensOf([Author, Title]) == ta + tt by {
      assert [Author, Title][1..] == [Title];
    }
    assert TokensOf([Book]) == Tokens(Book) by {
      assert [Book][1..] == [];
    }
    assert Tokens(Book) == [StartTag("book", BookAttrs, false)] + ta + tt + [EndTag("book")];
  }

  lemma ReadIRobotTitle()
    ensures Sax.ReadElementContent(IRobotTokens, 3) == Some(("I, Robot", 6))
  {
    assert Sax.ReadText(IRobotTokens, 5, "I, Robot") == Some(("I, Robot", 6));
    assert Sax.ReadText(IRobotTokens, 4, "") == Sax.ReadText(IRobotTokens, 5, "" + "I, Robot");
    assert "" + "I, Robot" == "I, Robot";
  }

  lemma SaxLosesRecordEndingInTitle()
    ensures Sax.Scan(Everything, Tokens(IRobot)) == Lines([])
  {
    IRobotTokenStream();
    ReadIRobotTitle();
    var q, toks := Everything, IRobotTokens;
    var none: seq<string> := [];
    assert none + [] == none;
    var entered := Sax.Enter(q, BookAttrs);
    var withAuthor := entered.(curAuthor := Some("Isaac Asimov"));
    var withTitle := withAuthor.(curTitle := Some("I, Robot"));
    assert Sax.Step(q, toks, 0, Sax.Cleared) == Sax.Next(Sax.Cleared, 1, None);
    assert Sax.Step(q, toks, 1, Sax.Cleared) == Sax.Next(entered, 2, None);
    assert Sax.Step(q, toks, 2, entered) == Sax.Next(withAuthor, 3, None);
    assert Sax.Step(q, toks, 3, withAuthor) == Sax.Next(withTitle, 7, None);
    assert Sax.Step(q, toks, 7, withTitle) == Sax.Next(withTitle, 8, None);
    calc {
      Sax.Run(q, toks, 0, Sax.Cleared, none);
      Sax.Run(q, toks, 1, Sax.Cleared, none);
      Sax.Run(q, toks, 2, entered, none);
      Sax.Run(q, toks, 3, withAuthor, none);
      Sax.Run(q, toks, 7, withTitle, none);
      Sax.Run(q, toks, 8, withTitle, none);
    }
  }

  lemma IRobotBooks()
    ensures ElementsNamed(IRobot, "book") == [Book]
  {
    assert ElementsNamed(Author, "book") == [] && ElementsNamed(Title, "book") == [];
    assert ElementsNamedOf([Title], "book") == [] by {
      assert [Title][1..] == [];
    }
    assert ElementsNamedOf([Author, Title], "book") == [] by {
      assert [Author, Title][1..] == [Title];
    }
    assert ElementsNamed(Book, "book") == [Book];
    assert ElementsNamedOf([Book], "book") == [Book] by {
      assert [Book][1..] == [];
    }
  }

  lemma IRobotLine()
    ensures Linq.FormatRecord(Book) == Linq.FormatLine("bk101", "1950", "Isaac Asimov", "I, Robot")
  {
    assert FirstChild([Author, Title], "title") == Some(Title) by {
      assert [Author, Title][1..] == [Title];
    }
    assert InnerText(Title) == "I, Robot" by {
      assert [Text("I, Robot")][1..] == [];
    }
    assert GetAttribute(BookAttrs, "year") == Some("1950") by {
      assert BookAttrs[1..] == [Attribute("year", "1950")];
    }
  }

  lemma IRobotDomLine()
    ensures Dom.FormatRecord(Book) == Linq.FormatLine("bk101", "1950", "Isaac Asimov", "I, Robot")
  {
    assert FirstChild([Author, Title], "title") == Some(Title) by {
      assert [Author, Title][1..] == [Title];
    }
    assert InnerText(Title) == "I, Robot" by {
      assert [Text("I, Robot")][1..] == [];
    }
    assert GetAttribute(BookAttrs, "year") == Some("1950") by {
      assert BookAttrs[1..] == [Attribute("year", "1950")];
    }
  }

  lemma TreeStrategiesKeepRecordEndingInTitle()
    ensures Linq.Search(IRobot, Everything) == [Linq.FormatLine("bk101", "1950", "Isaac Asimov", "I, Robot")]
    ensures Dom.Pipeline(Everything, ElementsNamed(IRobot, "book")) == Linq.Search(IRobot, Everything)
  {
    IRobotBooks();
    IRobotLine();
    Linq.NoFilterKeepsAll(Everything, [Book]);
    IRobotDomLine();
    Dom.NoFilterKeepsAll(Everything, [Book]);
  }

  const FoundationAttrs: seq<Attribute> := [Attribute("id", "2"), Attribute("year", "1965")]
  const FoundationTitle: Node := Element("title", [], [Text("Foundation")])
  const Foundation: Node := Element("book", FoundationAttrs, [FoundationTitle, Author])
  const FoundationCatalog: Node := Element("catalog", [], [Foundation])

  /** The query for the keyword `asimov`, with no attribute filter. */
  const ByAsimov := SearchQuery("book", None, None, Some("asimov"))

  const FoundationTokens: seq<Token> := [StartTag("catalog", [], false), StartTag("book", FoundationAttrs, false),
                 StartTag("title", [], false), TextToken("Foundation"), EndTag("title"),
                 StartTag("author", [Attribute("fullName", "Isaac Asimov")], true),
                 EndTag("book"), EndTag("catalog")]

  lemma FoundationTokenStream()
    ensures Tokens(FoundationCatalog) == FoundationTokens
  {
    var ta := Tokens(Author);
    assert ta == [StartTag("author", [Attribute("fullName", "Isaac Asimov")], true)];
    var tt := Tokens(FoundationTitle);
    assert TokensOf([Text("Foundation")]) == [TextToken("Foundation")] by {
      assert [Text("Foundation")][1..] == [];
    }
    assert tt == [StartTag("title", [], false), TextToken("Foundation"), EndTag("title")];
    assert TokensOf([Author]) == ta by {
      assert [Author][1..] == [];
    }
    assert TokensOf([FoundationTitle, Author]) == tt + ta by {
      assert [FoundationTitle, Author][1..] == [Author];
    }
    assert TokensOf([Foundation]) == Tokens(Foundation) by {
      assert [Foundation][1..] == [];
    }
    assert Tokens(Foundation) == [StartTag("book", FoundationAttrs, false)] + tt + ta + [EndTag("book")];
  }

  /** The keyword is searched for as typed: `asimov` has no whitespace to trim. */
  lemma AsimovKeyword()
    ensures KeywordActive(ByAsimov) && SearchKeyword(ByAsimov) == "asimov"
  {
    var kw := "asimov";
    assert !IsWhiteSpace(kw[0]) && !IsWhiteSpace(kw[|kw| - 1]);
    assert TrimStart(kw) == kw;
    assert TrimEnd(kw) == kw;
  }

  lemma ReadFoundationTitle()
    ensures Sax.ReadElementContent(FoundationTokens, 2) == Some(("Foundation", 5))
  {
    assert Sax.ReadText(FoundationTokens, 4, "Foundation") == Some(("Foundation", 5));
    assert Sax.ReadText(FoundationTokens, 3, "") == Sax.ReadText(FoundationTokens, 4, "" + "Foundation");
    assert "" + "Foundation" == "Foundation";
  }

  /** `Foundation` has no `s` in any case, so it does not contain `asimov`. */
  lemma TitleLacksAsimov()
    ensures !ContainsIgnoreCase("Foundation", "asimov")
  {
    MissingCharNotContained("Foundation", "asimov", 1);
  }

  /** `Isaac Asimov` contains `asimov`, ignoring case, at offset 6. */
  lemma AuthorHasAsimov()
    ensures ContainsIgnoreCase("Isaac Asimov", "asimov")
  {
    var s := "Isaac Asimov";
    assert s[6..12] == "Asimov";
    assert MatchesAt(s, "asimov", 6);
  }

  /** The scanner enters the Foundation record; the attribute filter is off. */
  lemma AsimovEntersRecord()
    ensures Sax.Step(ByAsimov, FoundationTokens, 0, Sax.Cleared) == Sax.Next(Sax.Cleared, 1, None)
    ensures Sax.Step(ByAsimov, FoundationTokens, 1, Sax.Cleared) == Sax.Next(Sax.Enter(ByAsimov, FoundationAttrs), 2, None)
  {
  }

  /** The scanner reads the title and steps over the `author` start tag behind it. */
  lemma AsimovReadsTitle()
    ensures var entered := Sax.Enter(ByAsimov, FoundationAttrs);
      Sax.Step(ByAsimov, FoundationTokens, 2, entered) == Sax.Next(entered.(curTitle := Some("Foundation")), 6, None)
  {
    ReadFoundationTitle();
  }

  /** A record that has only the title `Foundation` does not match `asimov`. */
  lemma TitleOnlyMissesAsimov(st: Sax.ScanState)
    requires st.curTitle == Some("Foundation") && st.curAnnotation.None? && st.curAuthor.None?
    ensures !Sax.KeywordMatches("asimov", st)
  {
    TitleLacksAsimov();
  }

  /** At `</book>` the title alone does not contain the keyword, so no line is produced. */
  lemma AsimovEndsRecord()
    ensures var withTitle := Sax.Enter(ByAsimov, FoundationAttrs).(curTitle := Some("Foundation"));
      Sax.Step(ByAsimov, FoundationTokens, 6, withTitle) == Sax.Next(Sax.Cleared, 7, None)
  {
    AsimovKeyword();
    TitleOnlyMissesAsimov(Sax.Enter(ByAsimov, FoundationAttrs).(curTitle := Some("Foundation")));
  }

  /** The catalogue's end tag changes nothing outside a record. */
  lemma AsimovLeavesCatalog()
    ensures Sax.Step(ByAsimov, FoundationTokens, 7, Sax.Cleared) == Sax.Next(Sax.Cleared, 8, None)
  {
  }

  /** The scanner skips the `author` tag that follows `</title>`, so the keyword finds nothing. */
  lemma SaxMissesAuthorAfterTitle()
    ensures Sax.Scan(ByAsimov, Tokens(FoundationCatalog)) == Lines([])
  {
    FoundationTokenStream();
    AsimovEntersRecord();
    AsimovReadsTitle();
    AsimovEndsRecord();
    AsimovLeavesCatalog();
    var q, toks := ByAsimov, FoundationTokens;
    var none: seq<string> := [];
    assert none + [] == none;
    var entered := Sax.Enter(q, FoundationAttrs);
    var withTitle := entered.(curTitle := Some("Foundation"));
    calc {
      Sax.Run(q, toks, 0, Sax.Cleared, none);
      Sax.Run(q, toks, 1, Sax.Cleared, none);
      Sax.Run(q, toks, 2, entered, none);
      Sax.Run(q, toks, 6, withTitle, none);
      Sax.Run(q, toks, 7, Sax.Cleared, none);
      Sax.Run(q, toks, 8, Sax.Cleared, none);
    }
  }

  lemma FoundationBooks()
    ensures ElementsNamed(FoundationCatalog, "book") == [Foundation]
  {
    assert ElementsNamed(Author, "book") == [] && ElementsNamed(FoundationTitle, "book") == [];
    assert ElementsNamedOf([Author], "book") == [] by {
      assert [Author][1..] == [];
    }
    assert ElementsNamedOf([FoundationTitle, Author], "book") == [] by {
      assert [FoundationTitle, Author][1..] == [Author];
    }
    assert ElementsNamed(Foundation, "book") == [Foundation];
    assert ElementsNamedOf([Foundation], "book") == [Foundation] by {
      assert [Foundation][1..] == [];
    }
  }

  /** The record's author element carries the name. */
  lemma FoundationAuthorName()
    ensures Linq.AuthorName(Foundation) == Some("Isaac Asimov")
  {
    assert FirstChild([FoundationTitle, Author], "author") == Some(Author) by {
      assert [FoundationTitle, Author][1..] == [Author];
    }
  }

  /** The keyword `asimov` selects the record through its author's name. */
  lemma FoundationSelected()
    ensures Linq.Selected(ByAsimov, Foundation)
  {
    AsimovKeyword();
    FoundationAuthorName();
    AuthorHasAsimov();
  }

  /** The record's line. */
  lemma FoundationLine()
    ensures Linq.FormatRecord(Foundation) == Linq.FormatLine("2", "1965", "Isaac Asimov", "Foundation")
  {
    FoundationAuthorName();
    assert InnerText(FoundationTitle) == "Foundation" by {
      assert [Text("Foundation")][1..] == [];
    }
    assert GetAttribute(FoundationAttrs, "year") == Some("1965") by {
      assert FoundationAttrs[1..] == [Attribute("year", "1965")];
    }
  }

  /** The LINQ strategy reads the author from the tree and returns the record's line. */
  lemma LinqFindsAuthorAfterTitle()
    ensures Linq.Search(FoundationCatalog, ByAsimov) == [Linq.FormatLine("2", "1965", "Isaac Asimov", "Foundation")]
  {
    FoundationBooks();
    FoundationSelected();
    FoundationLine();
    Linq.PipelineSingle(ByAsimov, Foundation);
  }
}
