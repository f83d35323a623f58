/**
 * The rows `csvWriter` (src/main.cpp) writes for parsed pages: for each
 * page with a non-empty title, one `LINK` row per outbound link, in link
 * order, and one node row tagged `REDIRECT` or `PAGE`. Pages with an empty
 * title produce nothing. These functions specify the two files' contents;
 * the loop that writes them is `Pipeline.CsvWriter`.
 */
module Rows {
  import opened Wrappers
  import opened Seqs

  /** A parsed page: title, display title, outbound link targets (duplicates kept) and redirect flag. */
  datatype Page = Page(title: string, titleCaps: string, links: seq<string>, redirect: bool)

  /** The header lines written before any row. */
  const NodesHeader: string := "pageName:ID,title,:LABEL\n"
  const LinksHeader: string := ":START_ID,:END_ID,:TYPE\n"

  /** One CSV data row: a link from a title to a target, or a page's node. */
  datatype CsvRow = LinkLine(source: string, target: string) | NodeLine(title: string, titleCaps: string, redirect: bool)

  function Quoted(s: string): string
  {
    "\"" + s + "\""
  }

  function Label(redirect: bool): string
  {
    if redirect then "REDIRECT" else "PAGE"
  }

  /**
   * The text of a row: `"title","target",LINK` or
   * `"title","titleCaps",REDIRECT` / `...,PAGE`, then a line break.
   */
  function Text(r: CsvRow): string
  {
    match r
    case LinkLine(source, target) => Quoted(source) + ("," + (Quoted(target) + ",LINK\n"))
    case NodeLine(title, titleCaps, redirect) => Quoted(title) + ("," + (Quoted(titleCaps) + ("," + (Label(redirect) + "\n"))))
  }

  /** The text of consecutive rows. */
  function Lines(rows: seq<CsvRow>): string
  {
    ConcatMap(Text, rows)
  }

  /** The text of joined rows is the joined texts. */
  lemma LinesAppend(a: seq<CsvRow>, b: seq<CsvRow>)
    ensures Lines(a + b) == Lines(a) + Lines(b)
  {
    ConcatMapAppend(Text, a, b);
  }

  /** One more row adds its text at the end. */
  lemma LinesSnoc(rows: seq<CsvRow>, r: CsvRow)
    ensures Lines(rows + [r]) == Lines(rows) + Text(r)
  {
    assert (rows + [r])[..|rows|] == rows;
  }

  /** The node row of a page. */
  function NodeRow(p: Page): CsvRow
  {
    NodeLine(p.title, p.titleCaps, p.redirect)
  }

  /** The link rows of one page: one per link target, in link order. */
  function PageLinkRows(title: string, links: seq<string>): (rows: seq<CsvRow>)
    ensures |rows| == |links|
  {
    if links == [] then []
    else PageLinkRows(title, links[..|links| - 1]) + [LinkLine(title, links[|links| - 1])]
  }

  /** Row `i` of a page's link rows is the row for its link `i`. */
  lemma {:induction false} PageLinkRowsShape(title: string, links: seq<string>)
    ensures forall i :: 0 <= i < |links| ==> PageLinkRows(title, links)[i] == LinkLine(title, links[i])
  {
    if links != [] {
      var init := links[..|links| - 1];
      PageLinkRowsShape(title, init);
      assert forall i :: 0 <= i < |init| ==> links[i] == init[i];
    }
  }

  /** The node rows written for `pages`, in page order. */
  function NodeRows(pages: seq<Page>): seq<CsvRow>
  {
    if pages == [] then []
    else
      var p := pages[|pages| - 1];
      NodeRows(pages[..|pages| - 1]) + (if p.title == [] then [] else [NodeRow(p)])
  }

  /** The link rows written for `pages`, in page order. */
  function LinkRows(pages: seq<Page>): seq<CsvRow>
  {
    if pages == [] then []
    else
      var p := pages[|pages| - 1];
      LinkRows(pages[..|pages| - 1]) + (if p.title == [] then [] else PageLinkRows(p.title, p.links))
  }

  /** The pages that get rows: those with a non-empty title, in order. */
  function Titled(pages: seq<Page>): (kept: seq<Page>)
    ensures |kept| <= |pages|
  {
    if pages == [] then []
    else
      var p := pages[|pages| - 1];
      Titled(pages[..|pages| - 1]) + (if p.title == [] then [] else [p])
  }

  /** The number of links over `pages`. */
  function LinkCount(pages: seq<Page>): nat
  {
    if pages == [] then 0 else LinkCount(pages[..|pages| - 1]) + |pages[|pages| - 1].links|
  }

  /** Exactly one node row per page with a title, in page order. */
  lemma {:induction false} NodeRowsOfTitled(pages: seq<Page>)
    ensures |NodeRows(pages)| == |Titled(pages)|
    ensures forall i :: 0 <= i < |Titled(pages)| ==> NodeRows(pages)[i] == NodeRow(Titled(pages)[i])
  {
    if pages != [] {
      NodeRowsOfTitled(pages[..|pages| - 1]);
    }
  }

  /** Exactly one link row per link of a page with a title. */
  lemma {:induction false} LinkRowsCount(pages: seq<Page>)
    ensures |LinkRows(pages)| == LinkCount(Titled(pages))
  {
    if pages != [] {
      var init := pages[..|pages| - 1];
      var p := pages[|pages| - 1];
      LinkRowsCount(init);
      var t := Titled(pages);
      if p.title != [] {
        assert t == Titled(init) + [p];
        assert t[..|t| - 1] == Titled(init) && t[|t| - 1] == p;
        assert |LinkRows(pages)| == |LinkRows(init)| + |p.links|;
      } else {
        assert t == Titled(init);
        assert LinkRows(pages) == LinkRows(init);
      }
    }
  }

  /** Node rows of consecutive page lists are the rows of each, one after the other. */
  lemma {:induction false} NodeRowsAppend(a: seq<Page>, b: seq<Page>)
    ensures NodeRows(a + b) == NodeRows(a) + NodeRows(b)
    decreases |b|
  {
    if b == [] {
      assert a + b == a;
    } else {
      var init := b[..|b| - 1];
      assert (a + b)[..|a + b| - 1] == a + init;
      NodeRowsAppend(a, init);
    }
  }

  /** Link rows of consecutive page lists are the rows of each, one after the other. */
  lemma {:induction false} LinkRowsAppend(a: seq<Page>, b: seq<Page>)
    ensures LinkRows(a + b) == LinkRows(a) + LinkRows(b)
    decreases |b|
  {
    if b == [] {
      assert a + b == a;
    } else {
      var init := b[..|b| - 1];
      assert (a + b)[..|a + b| - 1] == a + init;
      LinkRowsAppend(a, init);
    }
  }

  lemma RowsAppend(a: seq<Page>, b: seq<Page>)
    ensures NodeRows(a + b) == NodeRows(a) + NodeRows(b)
    ensures LinkRows(a + b) == LinkRows(a) + LinkRows(b)
  {
    NodeRowsAppend(a, b);
    LinkRowsAppend(a, b);
  }

  /** A page with an empty title adds no row anywhere in the input. */
  lemma EmptyTitleDropped(a: seq<Page>, p: Page, b: seq<Page>)
    requires p.title == []
    ensures NodeRows(a + [p] + b) == NodeRows(a + b)
    ensures LinkRows(a + [p] + b) == LinkRows(a + b)
  {
    assert (a + [p])[..|a|] == a;
    assert NodeRows(a + [p]) == NodeRows(a);
    assert LinkRows(a + [p]) == LinkRows(a);
    NodeRowsAppend(a + [p], b);
    NodeRowsAppend(a, b);
    LinkRowsAppend(a + [p], b);
    LinkRowsAppend(a, b);
  }

  /** A page with a title adds its link rows and then one node row. */
  lemma TitledPageRows(a: seq<Page>, p: Page)
    requires p.title != []
    ensures NodeRows(a + [p]) == NodeRows(a) + [NodeRow(p)]
    ensures LinkRows(a + [p]) == LinkRows(a) + PageLinkRows(p.title, p.links)
  {
    assert (a + [p])[..|a|] == a;
  }

  /**
   * Rows do not depend on the order in which batches arrive: any reordering
   * of the batches (as the worker threads may deliver them) writes the same
   * rows, possibly in another order.
   */
  lemma BatchOrderIrrelevant(a: seq<seq<Page>>, b: seq<seq<Page>>)
    requires multiset(a) == multiset(b)
    ensures multiset(NodeRows(Flatten(a))) == multiset(NodeRows(Flatten(b)))
    ensures multiset(LinkRows(Flatten(a))) == multiset(LinkRows(Flatten(b)))
  {
    forall x: seq<Page>, y: seq<Page>
      ensures NodeRows(x + y) == NodeRows(x) + NodeRows(y)
      ensures LinkRows(x + y) == LinkRows(x) + LinkRows(y)
    {
      RowsAppend(x, y);
    }
    AdditiveReorder(NodeRows, a, b);
    AdditiveReorder(LinkRows, a, b);
  }

  /** The three fields of a row read back from CSV text. */
  datatype Row = Row(first: string, second: string, tag: string)

  /** Length of the prefix of `s` before the first `c`. */
  function Until(s: string, c: char): (k: nat)
    ensures k <= |s|
    ensures forall i :: 0 <= i < k ==> s[i] != c
    ensures k < |s| ==> s[k] == c
  {
    if s == [] || s[0] == c then 0 else 1 + Until(s[1..], c)
  }

  /** A field between double quotes, and what follows the closing quote. */
  function ReadQuoted(s: string): Option<(string, string)>
  {
    if s == [] || s[0] != '"' then None
    else
      var k := Until(s[1..], '"');
      if k == |s| - 1 then None else Some((s[1..k + 1], s[k + 2..]))
  }

  /**
   * Reads one row: two quoted fields and an unquoted tag, separated by
   * commas and ended by a line break, as the writer lays them out.
   */
  function ReadRow(s: string): Option<Row>
  {
    match ReadQuoted(s)
    case None => None
    case Some((first, r1)) =>
      if r1 == [] || r1[0] != ',' then None
      else match ReadQuoted(r1[1..])
        case None => None
        case Some((second, r2)) =>
          if |r2| < 2 || r2[0] != ',' || r2[|r2| - 1] != '\n' then None
          else Some(Row(first, second, r2[1..|r2| - 1]))
  }

  /** A quote-free field is read back, and reading goes on right after its closing quote. */
  lemma ReadQuotedField(field: string, rest: string)
    requires '"' !in field
    ensures ReadQuoted(Quoted(field) + rest) == Some((field, rest))
  {
    var s := Quoted(field) + rest;
    assert s[1..] == field + ("\"" + rest);
    assert Until(s[1..], '"') == |field| by {
      var t := s[1..];
      assert t[|field|] == '"';
      assert forall i :: 0 <= i < |field| ==> t[i] == field[i];
    }
    assert s[1..|field| + 1] == field;
    assert s[|field| + 2..] == rest;
  }

  /** Two quote-free quoted fields and a comma-led, line-ended rest are read back as a row. */
  lemma ReadRowOf(first: string, second: string, end: string)
    requires '"' !in first && '"' !in second
    requires |end| >= 2 && end[0] == ',' && end[|end| - 1] == '\n'
    ensures ReadRow(Quoted(first) + ("," + (Quoted(second) + end))) == Some(Row(first, second, end[1..|end| - 1]))
  {
    var r1 := "," + (Quoted(second) + end);
    ReadQuotedField(first, r1);
    assert r1[1..] == Quoted(second) + end;
    ReadQuotedField(second, end);
  }

  /** A link row of quote-free titles is read back as its two titles and `LINK`. */
  lemma LinkRowRoundTrip(title: string, target: string)
    requires '"' !in title && '"' !in target
    ensures ReadRow(Text(LinkLine(title, target))) == Some(Row(title, target, "LINK"))
  {
    var end := "," + ("LINK" + "\n");
    assert end == ",LINK\n";
    assert |end| >= 2 && end[0] == ',' && end[|end| - 1] == '\n' && end[1..|end| - 1] == "LINK";
    ReadRowOf(title, target, end);
  }

  /** A node row of quote-free titles is read back as title, display title and tag. */
  lemma NodeRowRoundTrip(p: Page)
    requires '"' !in p.title && '"' !in p.titleCaps
    ensures ReadRow(Text(NodeRow(p))) == Some(Row(p.title, p.titleCaps, Label(p.redirect)))
  {
    var end := "," + (Label(p.redirect) + "\n");
    assert |end| >= 2 && end[0] == ',' && end[|end| - 1] == '\n' && end[1..|end| - 1] == Label(p.redirect);
    ReadRowOf(p.title, p.titleCaps, end);
  }

  /**
   * Titles are written without escaping, so a title holding `","` makes two
   * different links write the same text.
   */
  lemma QuoteInTitleCollides()
    ensures LinkLine("a\",\"b", "c") != LinkLine("a", "b\",\"c")
    ensures Text(LinkLine("a\",\"b", "c")) == Text(LinkLine("a", "b\",\"c"))
  {
  }

  /**
   * Three pages, two ordinary ones with two and no links and a redirect
   * without links, give three node rows (two PAGE, one REDIRECT) and two
   * link rows, both from the first title.
   */
  lemma ThreePagesExample()
    ensures var pages := [Page("A", "a", ["B", "C"], false), Page("B", "b", [], false), Page("R", "r", [], true)];
      && NodeRows(pages) == [NodeLine("A", "a", false), NodeLine("B", "b", false), NodeLine("R", "r", true)]
      && LinkRows(pages) == [LinkLine("A", "B"), LinkLine("A", "C")]
  {
    var pages := [Page("A", "a", ["B", "C"], false), Page("B", "b", [], false), Page("R", "r", [], true)];
    assert pages[..2] == [Page("A", "a", ["B", "C"], false), Page("B", "b", [], false)];
    assert pages[..2][..1] == [Page("A", "a", ["B", "C"], false)];
    assert ["B", "C"][..1] == ["B"];
  }
}
