# XML library query engine

A model of the query core of a .NET MAUI application that searches an XML
catalogue of books. The user picks a strategy, optionally an attribute and
one of its values, and optionally a keyword. The application builds a
`SearchQuery`, shows an XPath-like preview of it, and runs the chosen
strategy. Each strategy returns one line `id | year | author — title` per
matching record.

- `Xml` (XmlModel.dfy): the parsed document as a tree of elements,
  attributes and text. It also gives the token stream an `XmlReader` with
  `IgnoreComments` and `IgnoreWhitespace` delivers for that tree, and the
  child lookups `Element(name)` and `el[name]` both strategies share.
- `Queries` (SearchQuery.dfy): the `SearchQuery` record. It also holds the
  two tests every strategy shares: when the attribute filter is active and
  when the keyword filter is active. The searched keyword is the trimmed
  keyword. `SearchResult` is what a search hands back: its lines, or
  `ContentError`, the exception the SAX strategy's
  `ReadElementContentAsString` raises on a `title` or `annotation` that
  contains a child element.
- `LinqStrategy`: `Descendants(main)`, then an attribute `Where`, then a
  keyword `Where`, then a `Select` to one line per record. The lemmas show
  that the two filters commute. They also show that the pipeline selects
  each record on its own.
- `DomStrategy`: the `foreach` over `GetElementsByTagName(main)`, written
  as a loop and proved against a specification function. `GetAttribute`
  yields `""` for a missing attribute. So this strategy prints empty fields
  where LINQ prints `-` or `(no author)`, and it accepts a missing attribute
  when the filter value is `""`. The model proves that it agrees with LINQ
  on records that have all their fields, given a non-empty filter value.
- `SaxStrategy`: the `XmlReader` loop, written as a loop and proved against
  `Run`, the pass stated as a function over tokens. This is the code as
  written. `ReadElementContentAsString` leaves the reader on the node after
  `</title>` or `</annotation>`, and the loop's `ReadAsync` then steps over
  that node. The model keeps this behaviour. `Examples` exhibits two
  catalogues where SAX therefore differs from LINQ:
  - a record whose last child is its title is never emitted;
  - an author element right after the title is never read.
- `Metadata`: `GetAttributesAsync` (nested loops into a set, then sorted)
  and `GetAttributeValuesAsync` (select, drop blanks, distinct, sort).
- `Registry`: `StrategyFactory` over the three registered strategies. It
  gives the sorted name list and the lookup by name.
- `ViewModel`: `MainViewModel`'s query form. This is `BuildQuery`, the
  preview string kept in step by every setter, the fixed record name
  `book`, and the loads that follow choosing a file or an attribute: the
  attribute list, the selected attribute, its value list and the chosen
  value.
- `Ordering`, `Seqs`, `Text`, `Wrappers`: insertion sort and distinctness,
  filter and map, and the .NET string primitives (`IsWhiteSpace`, `Trim`,
  ordinal case-insensitive `Contains`).

## Model

| member | source | states |
|---|---|---|
| Xml.GetAttribute | Strategies/LinqXmlSearchStrategy.cs:16 | `(string?)n.Attribute(name)`: null exactly when no attribute has that name; otherwise the value of an attribute with that name |
| Xml.FirstChild | Strategies/LinqXmlSearchStrategy.cs:22-24 | `n.Element(name)`: null exactly when no child element has that name; otherwise the first child element with that name, no earlier child being one |
| Xml.ChildText | Strategies/LinqXmlSearchStrategy.cs:22-23 | `(string?)n.Element(child)` and `el[child]?.InnerText`: null exactly when there is no such child, otherwise the text of the first one (a definition; its contract spells out the lookup, and Xml.FirstChild states which child that is) |
| Xml.InnerText | Strategies/DomXmlSearchStrategy.cs:32 | `InnerText` and the string value of an element: its text nodes joined in document order (a definition; SaxStrategy.ReadsTextElement ties it to the reader) |
| Xml.Tokens | Strategies/SaxXmlSearchStrategy.cs:15-20 | the reader's node sequence for a subtree: a text node is one text token; an element opens with its start tag, flagged empty exactly when it has no children, and otherwise closes with its end tag |
| Xml.ElementsNamed | Strategies/LinqXmlSearchStrategy.cs:13 | `Descendants(name)`: every element returned carries that name |
| Xml.ElementsNamedCountsStartTags | Strategies/LinqXmlSearchStrategy.cs:13 | `Descendants(name)` misses nothing: it has one entry per start tag called `name` that the reader meets in the same document |
| Xml.ElementsNamedOfCountsStartTags | Strategies/DomXmlSearchStrategy.cs:15 | the same count for a list of sibling nodes |
| Xml.StartTagCountConcat | Strategies/SaxXmlSearchStrategy.cs:38 | start tags called `name` in two token runs add up |
| Queries.QueryEquality | Models/SearchQuery.cs:3-8 | the record's value equality: two queries are equal exactly when their four fields are |
| Queries.QueryAccessors | Models/SearchQuery.cs:3-8 | each property returns the constructor argument it was given |
| Queries.AttributeFilterActive | Strategies/LinqXmlSearchStrategy.cs:15 | the guard all three strategies share (also DomXmlSearchStrategy.cs:22, SaxXmlSearchStrategy.cs:46): an attribute name that is not blank and a value that is not null (a definition; used by every strategy's filter) |
| Queries.KeywordActive | Strategies/LinqXmlSearchStrategy.cs:18 | the keyword guard all three strategies share (also DomXmlSearchStrategy.cs:28, SaxXmlSearchStrategy.cs:78): a keyword that is not blank (a definition; Queries.SearchKeyword states what it guarantees) |
| Queries.SearchKeyword | Strategies/LinqXmlSearchStrategy.cs:18-20 | the keyword searched for, `Keyword.Trim()` of a keyword that is not blank, is non-empty and starts and ends with non-whitespace |
| Text.IsWhiteSpace | ViewModels/MainViewModel.cs:286 | `char.IsWhiteSpace`: the Unicode separators, the control characters U+0009 to U+000D, U+0085 and U+00A0 (a definition; no contract) |
| Text.TrimStart | ViewModels/MainViewModel.cs:286 | the result is a suffix of the input, everything dropped is whitespace, and it does not start with whitespace |
| Text.TrimEnd | ViewModels/MainViewModel.cs:286 | the result is a prefix of the input, everything dropped is whitespace, and it does not end with whitespace |
| Text.Trim | ViewModels/MainViewModel.cs:286 | `string.Trim()` is a slice of its input with only whitespace before and after it; it is empty exactly for whitespace-only input and otherwise starts and ends with non-whitespace |
| Text.TrimEndOf | ViewModels/MainViewModel.cs:286 | the second half of `Trim`, with the same three promises, given what the first half leaves |
| Text.TrimSlice | ViewModels/MainViewModel.cs:286 | removing leading then trailing whitespace leaves a slice framed by whitespace, empty exactly for whitespace-only input |
| Text.TrimmedUnchanged | ViewModels/MainViewModel.cs:286 | a string that is empty or has non-whitespace at both ends is its own trim |
| Text.WhiteSpaceFramedSlice | ViewModels/MainViewModel.cs:286 | such a string has no other slice framed by whitespace, so the trim is unique |
| Text.TrimIdempotent | ViewModels/MainViewModel.cs:286 | trimming an already trimmed keyword changes nothing |
| Text.Fold | Strategies/LinqXmlSearchStrategy.cs:22 | the case folding `OrdinalIgnoreCase` applies: a lower-case ASCII letter maps to its capital, every other character to itself (a definition; its contract spells out the two cases, and Text.FoldEqual states what it identifies) |
| Text.FoldIdempotent | Strategies/LinqXmlSearchStrategy.cs:22 | folding twice is folding once |
| Text.FoldEqual | Strategies/LinqXmlSearchStrategy.cs:22 | two characters compare equal under the fold exactly when they are equal or are the lower and upper case of one ASCII letter |
| Text.ContainsIgnoreCase | Strategies/LinqXmlSearchStrategy.cs:22 | `s.Contains(kw, OrdinalIgnoreCase)`: some offset of `s` matches `kw` character by character after folding (a definition; its properties are the next rows) |
| Text.EmptyContainsNothing | Strategies/DomXmlSearchStrategy.cs:32-39 | the empty string contains no non-empty keyword |
| Text.ContainsIgnoresCase | Strategies/LinqXmlSearchStrategy.cs:22 | `Contains(kw, OrdinalIgnoreCase)` gives the same answer when the text is case-folded first |
| Text.MissingCharNotContained | Strategies/LinqXmlSearchStrategy.cs:22 | a keyword with a character absent from the text in every case is not contained in it |
| LinqStrategy.Search | Strategies/LinqXmlSearchStrategy.cs:10-38 | `SearchAsync` returns the formatted line of each record called `main` that passes every active filter, in document order |
| LinqStrategy.Pipeline | Strategies/LinqXmlSearchStrategy.cs:13-35 | the two `Where` stages and the `Select` over a candidate list (a definition; the lemmas below state its properties) |
| LinqStrategy.KeywordMatches | Strategies/LinqXmlSearchStrategy.cs:21-25 | the keyword `Where`: the title, the annotation or the author's `fullName` contains the keyword, a missing one never (a definition; compared with DOM by DomStrategy.PassesKeywordAgreesWithLinq) |
| LinqStrategy.AuthorName | Strategies/LinqXmlSearchStrategy.cs:24 | `(string?)n.Element("author")?.Attribute("fullName")`, also line 32: null without an author element or without the attribute (a definition; DomStrategy.AuthorNameContains compares it with DOM) |
| LinqStrategy.FormatRecord | Strategies/LinqXmlSearchStrategy.cs:28-35 | the `Select`: id, year, author and title, with `-`, `-`, `(no author)`, `(no title)` for missing ones (a definition; checked on concrete records in Examples) |
| LinqStrategy.StagesCommute | Strategies/LinqXmlSearchStrategy.cs:15-26 | applying the keyword `Where` before the attribute `Where` gives the same lines |
| LinqStrategy.PipelineByRecord | Strategies/LinqXmlSearchStrategy.cs:13-35 | the result is the first records' lines followed by the last record's line, exactly when that record passes both active filters |
| LinqStrategy.PipelineSingle | Strategies/LinqXmlSearchStrategy.cs:15-35 | a single record gives its formatted line exactly when it passes both active filters, and nothing otherwise |
| LinqStrategy.PipelineConcat | Strategies/LinqXmlSearchStrategy.cs:15-35 | the lines for two candidate lists, one after the other, are the lines for their concatenation |
| LinqStrategy.PipelineIsSelection | Strategies/LinqXmlSearchStrategy.cs:15-35 | the two `Where` stages equal one filter by the conjunction of the active conditions, followed by the `Select` |
| LinqStrategy.PipelineMembership | Strategies/LinqXmlSearchStrategy.cs:15-35 | a line is in the result exactly when some candidate passes both active filters and formats to it |
| LinqStrategy.NoFilterKeepsAll | Strategies/LinqXmlSearchStrategy.cs:28-35 | with neither filter active, every record gives its line, in document order |
| LinqStrategy.AtMostOneLinePerRecord | Strategies/LinqXmlSearchStrategy.cs:28-35 | there are never more lines than candidate records |
| DomStrategy.GetAttributeOrEmpty | Strategies/DomXmlSearchStrategy.cs:24 | `XmlElement.GetAttribute` is the attribute's value when it is present, and `""` when it is absent (a definition; its contract spells out the two cases) |
| DomStrategy.AuthorName | Strategies/DomXmlSearchStrategy.cs:34 | `el["author"]?.GetAttribute("fullName")`: null without an author element, `""` without the attribute (a definition; DomStrategy.AuthorNameContains compares it with LINQ) |
| DomStrategy.PassesAttribute | Strategies/DomXmlSearchStrategy.cs:22-26 | when the attribute filter is active, the attribute read with `""` for a missing one equals the value ordinally (a definition; DomStrategy.PassesAttributeAgreesWithLinq compares it with LINQ) |
| DomStrategy.PassesKeyword | Strategies/DomXmlSearchStrategy.cs:28-41 | when the keyword filter is active, the title, the annotation or the author's name, each `""` when missing, contains the trimmed keyword ignoring case (a definition; DomStrategy.PassesKeywordAgreesWithLinq compares it with LINQ) |
| DomStrategy.Keeps | Strategies/DomXmlSearchStrategy.cs:20-42 | the two tests of the loop body, each applied only when its filter is active (a definition; compared with LINQ by DomStrategy.KeepsAgreesWithLinq) |
| DomStrategy.FormatRecord | Strategies/DomXmlSearchStrategy.cs:44-49 | the appended line, with `""` for a missing id or year (a definition; compared with LINQ by DomStrategy.AgreesWithLinq) |
| DomStrategy.Pipeline | Strategies/DomXmlSearchStrategy.cs:16-50 | what the loop computes, one candidate at a time (a definition; DomStrategy.SearchRecords proves the loop against it) |
| DomStrategy.PipelineSnoc | Strategies/DomXmlSearchStrategy.cs:18-50 | one more iteration appends the record's line exactly when it passes both tests |
| DomStrategy.PipelineIsSelection | Strategies/DomXmlSearchStrategy.cs:18-50 | the loop's result is the filter by both tests followed by formatting |
| DomStrategy.Search | Strategies/DomXmlSearchStrategy.cs:10-53 | the lines the loop appends are those the specification gives for the elements named `main` |
| DomStrategy.SearchRecords | Strategies/DomXmlSearchStrategy.cs:16-50 | the `foreach` with its two `continue`s appends exactly the lines of the records passing both tests, in order |
| DomStrategy.NoFilterKeepsAll | Strategies/DomXmlSearchStrategy.cs:44-49 | with neither filter active, every record gives its line, in order |
| DomStrategy.AtMostOneLinePerRecord | Strategies/DomXmlSearchStrategy.cs:18-49 | at most one line per candidate |
| DomStrategy.EmptyDefaultContains | Strategies/DomXmlSearchStrategy.cs:32-39 | for a non-empty keyword, testing `?? ""` gives the same answer as LINQ's null-safe `?.Contains(...) == true` |
| DomStrategy.AuthorNameContains | Strategies/DomXmlSearchStrategy.cs:34 | the author test agrees with LINQ's `Element("author")?.Attribute("fullName")` test |
| DomStrategy.PassesAttributeAgreesWithLinq | Strategies/DomXmlSearchStrategy.cs:22-26 | given a non-empty filter value, the attribute test equals LINQ's null-aware comparison |
| DomStrategy.PassesKeywordAgreesWithLinq | Strategies/DomXmlSearchStrategy.cs:28-42 | the keyword test equals LINQ's keyword `Where` |
| DomStrategy.KeepsAgreesWithLinq | Strategies/DomXmlSearchStrategy.cs:22-42 | given a non-empty filter value, DOM keeps a record exactly when LINQ selects it |
| DomStrategy.AgreesWithLinq | Strategies/DomXmlSearchStrategy.cs:18-49 | on records with an id, a year and (if they have an author element) a `fullName`, DOM and LINQ give the same lines |
| DomStrategy.EmptyValueAcceptsMissingAttribute | Strategies/DomXmlSearchStrategy.cs:24-25 | with filter value `""`, DOM keeps a record lacking the attribute and LINQ drops it |
| SaxStrategy.ReadElementContent | Strategies/SaxXmlSearchStrategy.cs:70 | `ReadElementContentAsString` leaves the reader strictly after the start tag, inside the input, when it succeeds |
| SaxStrategy.ReadsTextElement | Strategies/SaxXmlSearchStrategy.cs:70 | on an element whose children are all text, the read returns the element's text and leaves the reader on the node right after the element |
| SaxStrategy.ReadsTextRun | Strategies/SaxXmlSearchStrategy.cs:70 | a run of text tokens closed by an end tag is read as the texts one after another, stopping just past the end tag |
| SaxStrategy.ElementChildRejected | Strategies/SaxXmlSearchStrategy.cs:70 | on an element with a child element, the read fails |
| SaxStrategy.StopsAtChildElement | Strategies/SaxXmlSearchStrategy.cs:70 | the text read fails on a run of children that includes an element |
| SaxStrategy.LineOf | Strategies/SaxXmlSearchStrategy.cs:93 | the line for the captured fields, with `-`, `-`, `(no author)`, `(no title)` for null ones (a definition; it is LINQ's line format) |
| SaxStrategy.Run | Strategies/SaxXmlSearchStrategy.cs:34-96 | the loop from the reader at a given node and state, as a function (a definition; SaxStrategy.Search proves the loop against it and SaxStrategy.RunAppends states its shape) |
| SaxStrategy.Scan | Strategies/SaxXmlSearchStrategy.cs:22-98 | the whole pass from the cleared state (a definition; its properties are SaxStrategy.ScanBound, NoRecordsNoLines and AtMostOneLinePerRecord) |
| SaxStrategy.Enter | Strategies/SaxXmlSearchStrategy.cs:38-52 | a record start resets the state, enters the record, captures `id` and `year`, and rejects the record exactly when the attribute filter is active and the attribute differs |
| SaxStrategy.KeywordMatches | Strategies/SaxXmlSearchStrategy.cs:81-84 | the keyword test at a record end: the captured title, annotation or author contains the keyword, a null one never (a definition; SaxStrategy.RecordEndStep states its effect) |
| SaxStrategy.Step | Strategies/SaxXmlSearchStrategy.cs:36-95 | one iteration, from the token the reader is on, always moves the reader forward |
| SaxStrategy.Search | Strategies/SaxXmlSearchStrategy.cs:10-99 | the loop's outcome is the pass `Scan` over the reader's tokens |
| SaxStrategy.StepShape | Strategies/SaxXmlSearchStrategy.cs:64-95 | a line is produced only at the record's end tag, which resets the state; only a `title` or `annotation` read can fail |
| SaxStrategy.RecordEndStep | Strategies/SaxXmlSearchStrategy.cs:76-95 | at the end tag of an accepted record, a line is added exactly when no keyword is active or the captured title, annotation or author contains it, and the line is formed from the captured fields |
| SaxStrategy.RecordEndsConcat | Strategies/SaxXmlSearchStrategy.cs:76 | record end tags in two token runs add up |
| SaxStrategy.RecordEndsSuffix | Strategies/SaxXmlSearchStrategy.cs:34 | a later suffix of the stream holds no more record ends |
| SaxStrategy.RunAppends | Strategies/SaxXmlSearchStrategy.cs:93 | the pass only appends to the results, at most one line per record end tag remaining |
| SaxStrategy.ScanBound | Strategies/SaxXmlSearchStrategy.cs:76-95 | the whole pass returns at most as many lines as there are record end tags |
| SaxStrategy.RecordEndsPerElement | Strategies/SaxXmlSearchStrategy.cs:76 | an element's tokens hold at most one record end tag per record element inside it |
| SaxStrategy.RecordEndsPerElements | Strategies/SaxXmlSearchStrategy.cs:76 | the same for a list of sibling nodes |
| SaxStrategy.AtMostOneLinePerRecord | Strategies/SaxXmlSearchStrategy.cs:76-95 | on a document's tokens, SAX returns at most one line per record element |
| SaxStrategy.IdleUntilRecord | Strategies/SaxXmlSearchStrategy.cs:54 | outside a record, tokens are skipped until the next record start |
| SaxStrategy.NoRecordsNoLines | Strategies/SaxXmlSearchStrategy.cs:38-54 | a stream with no record start gives no lines |
| SaxStrategy.RejectedRecordSkipped | Strategies/SaxXmlSearchStrategy.cs:56-62 | a rejected record is skipped up to and including its end tag, leaving the state reset and the results unchanged |
| SaxStrategy.RecordBody | Strategies/SaxXmlSearchStrategy.cs:64-67 | inside an accepted record without title or annotation, the tokens only update the author, to the last author tag's `fullName` |
| SaxStrategy.LastAuthorSplit | Strategies/SaxXmlSearchStrategy.cs:64-67 | the last author captured over a run is found by taking its tokens one at a time |
| Metadata.GetAttributes | Services/XmlMetadataService.cs:13-27 | the result is sorted, has no duplicates, and holds exactly the attribute names used by some record named `main` |
| Metadata.AttributeValue | Services/XmlMetadataService.cs:35 | the `Select` step: `(string?)n.Attribute(attributeName)` of a record (a definition; Metadata.SelectedValues states what the projection yields) |
| Metadata.NonBlank | Services/XmlMetadataService.cs:36 | `Where(!IsNullOrWhiteSpace)` keeps exactly the present values that are not blank |
| Metadata.SelectedValues | Services/XmlMetadataService.cs:35 | the projected values are exactly the values some record takes for the attribute |
| Metadata.GetAttributeValues | Services/XmlMetadataService.cs:29-42 | the result is sorted, has no duplicates, and holds exactly the non-blank values some record takes for the attribute |
| Metadata.NoRecordsNoValues | Services/XmlMetadataService.cs:32-39 | with no record named `main`, the value list is empty |
| Ordering.Dedup | Services/XmlMetadataService.cs:37 | `Distinct` gives a list without duplicates with the same members, never longer |
| Ordering.Sort | Services/XmlMetadataService.cs:38 | `OrderBy(x => x)` gives a sorted permutation of its input |
| Ordering.SortSameElements | Services/XmlMetadataService.cs:25 | sorting keeps the length and the members |
| Ordering.DistinctPermutation | Services/XmlMetadataService.cs:25 | a permutation of a list without duplicates has none |
| Ordering.SortedSetUnique | Services/StrategyFactory.cs:21 | two sorted lists without duplicates that have the same members are equal |
| Ordering.OrdinalLessOrEqual | Services/StrategyFactory.cs:21 | ordinal string comparison, character by character with a proper prefix first; one total order that can stand for the comparer `OrderBy(x => x)` uses (a definition; Ordering.OrdinalIsTotalOrder states its properties) |
| Ordering.OrdinalIsTotalOrder | Services/StrategyFactory.cs:21 | ordinal string comparison is a total order |
| Registry.Name | Strategies/IXmlSearchStrategy.cs:7 | each strategy's `Name` property: "SAX API (XmlReader)", "DOM API", "LINQ to XML" (a definition; Registry.NamesDistinct states that it tells them apart) |
| Registry.NamesDistinct | Strategies/IXmlSearchStrategy.cs:7 | the three strategy names differ, so a name identifies one strategy |
| Registry.Search | Strategies/IXmlSearchStrategy.cs:8 | `SearchAsync` runs the SAX pass on the document's tokens, the DOM loop on its elements, or the LINQ query on its tree |
| Registry.FirstNamed | Services/StrategyFactory.cs:24 | `First(s => s.Name == name)`: no result exactly when no strategy has that name; otherwise the first strategy that has it |
| Registry.StrategyFactory.constructor | Services/StrategyFactory.cs:15-18 | the factory keeps the strategies in the order given |
| Registry.StrategyFactory.GetStrategyNames | Services/StrategyFactory.cs:20-21 | the names are sorted, are a permutation of the strategies' names, and list exactly the strategies' names |
| Registry.StrategyFactory.GetByName | Services/StrategyFactory.cs:23-24 | the first registered strategy with that name, or none exactly when no strategy has it |
| Registry.ListedNamesResolve | Services/StrategyFactory.cs:20-24 | every listed name resolves to a strategy with that name |
| Registry.ListingIsUnique | Services/StrategyFactory.cs:20-21 | the listing is the only sorted, duplicate-free arrangement of the names |
| Registry.AppNames | MauiProgram.cs:32-34 | the strategies are registered SAX, DOM, LINQ, in that order |
| Registry.AppStrategyNames | MauiProgram.cs:32-34 | for the registered strategies, the ordinal listing is DOM, LINQ, SAX |
| ViewModel.NullIfBlank | ViewModels/MainViewModel.cs:284-285 | a choice is dropped exactly when it is null or blank, and is otherwise kept unchanged and non-empty (a definition; its contract spells out the expression) |
| ViewModel.NormalizeKeyword | ViewModels/MainViewModel.cs:286 | the keyword is dropped exactly when it is blank, and is otherwise `Trim()` of the keyword, non-empty and trimmed |
| ViewModel.AttributeSection | ViewModels/MainViewModel.cs:295-296 | the attribute condition is present exactly when both the attribute and the value are chosen, and then reads `[@attr='value']` |
| ViewModel.KeywordSection | ViewModels/MainViewModel.cs:298-299 | the keyword condition is present exactly when the keyword is not blank, and then holds the trimmed keyword |
| ViewModel.MainViewModel.constructor | ViewModels/MainViewModel.cs:35-40 | the form starts for `book` records, with nothing chosen and an empty keyword; the preview is `//book` |
| ViewModel.MainViewModel.BuildQuery | ViewModels/MainViewModel.cs:281-287 | the query names the form's records; blank choices become null and kept ones are unchanged; the keyword is null when blank and otherwise `Keyword.Trim()`, non-empty and trimmed; an active attribute filter has a non-empty value |
| ViewModel.MainViewModel.UpdateQueryPreview | ViewModels/MainViewModel.cs:289-302 | the preview is recomputed from the current form and nothing else changes |
| ViewModel.MainViewModel.SetKeyword | ViewModels/MainViewModel.cs:70-75 | setting `Keyword` stores it and redraws the preview |
| ViewModel.MainViewModel.SetSelectedAttribute | ViewModels/MainViewModel.cs:93-104 | setting `SelectedAttribute` stores it, reloads the value list and the chosen value (unchanged without a document), and redraws the preview |
| ViewModel.MainViewModel.LoadAttributeValues | ViewModels/MainViewModel.cs:253-279 | without a document nothing changes; for a blank attribute the value list empties and the value becomes null; otherwise the list is `GetAttributeValuesAsync`'s and its first value is chosen |
| ViewModel.MainViewModel.LoadAttributes | ViewModels/MainViewModel.cs:232-251 | without a document nothing changes; otherwise the attribute list holds exactly the attributes used on the records, sorted and once each, its first entry is selected, the value list is reloaded for it, and the preview is redrawn |
| ViewModel.MainViewModel.SelectDocument | ViewModels/MainViewModel.cs:188-192 | choosing an XML file loads its attribute list, sorted, once each and holding exactly the attributes used on the records, selects its first attribute, and loads that attribute's values |
| ViewModel.ReloadValues | ViewModels/MainViewModel.cs:253-279 | the value list and chosen value after `LoadAttributeValuesAsync`: empty and null for a blank attribute, otherwise `GetAttributeValuesAsync`'s list and its first entry (a definition; ViewModel.ReloadChoosesTakenValue and ReloadedValueFindsRecords state its properties) |
| ViewModel.ReloadChoosesTakenValue | ViewModels/MainViewModel.cs:270-273 | a value chosen by the reload is in the value list, is not blank, and is taken by some record for the selected attribute |
| ViewModel.ReloadedValueFindsRecords | ViewModels/MainViewModel.cs:270-273 | searching with the selected attribute and the value the reload chose returns at least one line in LINQ and in DOM |
| ViewModel.FirstOrNone | ViewModels/MainViewModel.cs:273 | `FirstOrDefault()`: null exactly for an empty list, otherwise its first entry (a definition; its contract spells out the expression) |
| ViewModel.MainViewModel.SetSelectedAttributeValue | ViewModels/MainViewModel.cs:113-118 | setting `SelectedAttributeValue` stores it and redraws the preview |
| ViewModel.Preview | ViewModels/MainViewModel.cs:289-302 | the preview text: `//` and the record name, then the attribute condition, then the keyword condition (a definition; its properties are the next rows) |
| ViewModel.PreviewDescribesQuery | ViewModels/MainViewModel.cs:281-302 | the preview shows the query `BuildQuery` makes: its record path, the attribute condition exactly when that filter is active, and the keyword condition, with the keyword searched for, exactly when that filter is active |
| ViewModel.PreviewStartsWithPath | ViewModels/MainViewModel.cs:293 | the preview starts with `//` and the record name |
| ViewModel.AttributeConditionShown | ViewModels/MainViewModel.cs:295-296 | for `book`, the preview continues with `[@` exactly when both attribute and value are chosen |
| ViewModel.KeywordConditionShown | ViewModels/MainViewModel.cs:298-299 | the preview ends in `)]` exactly when a keyword is typed |
| ViewModel.ValueFindsRecords | Services/XmlMetadataService.cs:34-39 | filtering by a value that some record takes finds at least one line, in LINQ and in DOM |
| ViewModel.PickedValueFindsRecords | Services/XmlMetadataService.cs:29-42 | any value `GetAttributeValuesAsync` offers for an attribute, searched for alone with that attribute, finds at least one line in LINQ and in DOM |
| Examples.SaxLosesRecordEndingInTitle | Strategies/SaxXmlSearchStrategy.cs:68-71 | a catalogue whose only book ends with its title gives no SAX line |
| Examples.TreeStrategiesKeepRecordEndingInTitle | Strategies/LinqXmlSearchStrategy.cs:13-35 | on that catalogue, LINQ and DOM both give the book's line |
| Examples.SaxMissesAuthorAfterTitle | Strategies/SaxXmlSearchStrategy.cs:64-71 | when the author element comes right after the title, a keyword found only in the author's name gives no SAX line |
| Examples.LinqFindsAuthorAfterTitle | Strategies/LinqXmlSearchStrategy.cs:18-35 | on that catalogue, LINQ gives the book's line |

## Left out

- Loading the file (`File.OpenRead`, `XmlDocument.Load`, `XDocument.Load`) and XML parsing are not modelled. A strategy receives the parsed tree, and SAX receives that tree's tokens. A malformed document, and the exception it raises, are not represented.
- Namespaces, comments, processing instructions and CDATA are not modelled. Element and attribute names are plain local names.
- An element written `<x></x>` cannot be represented: a childless element is always tokenised as self-closing `<x/>`. Whitespace-only text between elements is assumed dropped, as `IgnoreWhitespace` drops it.
- `async`, `Task`, the `CancellationToken` and `ThrowIfCancellationRequested` (SaxXmlSearchStrategy.cs:36) are left out. All operations are synchronous and cannot be cancelled.
- `ReadElementContentAsString` throws for a `title` or `annotation` containing a child element. It is modelled as the outcome `ContentError`, not as a .NET exception.
- `IXmlSearchStrategy` is a datatype with one constructor per implementation, not an interface. Only the three registered strategies can be looked up.
- Registry.FirstNamed: `First` throws `InvalidOperationException` when no strategy has the name; the model returns `None` instead.
- `OrderBy(x => x)` compares strings with the current culture. The model takes the comparison as a parameter `leq` assumed to be a total order, and proves the ordinal instance is one. A culture comparison that is not antisymmetric is not covered.
- `OrdinalIgnoreCase` is modelled as folding ASCII letters only. Case mappings beyond ASCII are not modelled.
- `GetAttributesAsync`'s `HashSet` is modelled as a list that keeps insertion order and skips duplicates. Only its members matter, because the result is sorted.
- `XsltTransformService`, `App.xaml.cs` and the dependency-injection container are not part of this model. The only registration modelled is the order of the three strategies (MauiProgram.cs:32-34).
- The user interface is not modelled: property-change notifications, commands, `CanExecute`, the file pickers and copying the picked file, the `Output` text, the alerts, `Clear`, `SelectXslAsync` and `TransformAsync`. `SearchAsync` (MainViewModel.cs:304-329) is not modelled as one operation: its parts are `BuildQuery`, `StrategyFactory.GetByName` and `Registry.Search`.
- `GetRealPath` and `File.Exists` are not modelled. The loaded XML file is the field `document`, `None` while no file is chosen.
- ViewModel.MainViewModel.LoadAttributeValues: sets the chosen value directly instead of through the `SelectedAttributeValue` setter, so it does not redraw the preview itself. Its only caller, the `SelectedAttribute` setter, redraws it next, so the state after the setter is the same.
- The cancellation of an earlier metadata load (`_cts`) and the alert shown when a load throws are not modelled; both metadata calls answer at once (`Task.FromResult`), so each load completes before the setter that started it returns.
- `StringComparer.Ordinal` compares UTF-16 code units; the model compares characters, which are Unicode scalar values. The two orders differ only for characters outside the Basic Multilingual Plane.
- ViewModel.AttributeConditionShown: states where the condition starts (`[@` at offset 6 after `//book`), not that the rendered condition occurs as a substring of the preview.
- ViewModel.KeywordConditionShown: states that the preview ends in `)]`, not that the rendered condition occurs as a substring of the preview. The full text of both conditions is stated by ViewModel.PreviewDescribesQuery.
