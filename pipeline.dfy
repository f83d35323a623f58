/**
 * The loader's driver (src/main.cpp): a reader cuts the dump's pages into
 * chunks and queues them, workers parse each chunk into a batch of pages,
 * and a writer turns the batches into the nodes and links CSV files.
 *
 * The threads are run one after another in the order their hand-offs
 * allow: the reader fills the input queue and it is finished, one worker
 * drains it into the output queue and that is finished, then the writer
 * drains the output queue. `Rows.BatchOrderIrrelevant` covers the other
 * batch orders a pool of workers can produce.
 */
module Pipeline {
  import opened Wrappers
  import opened Seqs
  import opened Queue
  import opened Telemetry
  import opened Chunking
  import opened Rows

  /** The batch the parser yields for each chunk, in chunk order. */
  function ParseEach(parse: string -> seq<Page>, chunks: seq<string>): (batches: seq<seq<Page>>)
    ensures |batches| == |chunks|
    ensures forall k :: 0 <= k < |chunks| ==> batches[k] == parse(chunks[k])
  {
    if chunks == [] then []
    else ParseEach(parse, chunks[..|chunks| - 1]) + [parse(chunks[|chunks| - 1])]
  }

  /** The pages of one more reader event are those of the events before it and its own. */
  lemma PageXmlsStep(events: seq<Event>, i: nat)
    requires i < |events|
    ensures events[i].name == "page" ==> PageXmls(events[..i + 1]) == PageXmls(events[..i]) + [events[i].outerXml]
    ensures events[i].name != "page" ==> PageXmls(events[..i + 1]) == PageXmls(events[..i])
  {
    assert events[..i + 1][..i] == events[..i];
    assert PageXmls(events[..i]) + [] == PageXmls(events[..i]);
  }

  /**
   * The reader's locals between two events: the chunks it has queued, the
   * text of the open chunk and the number of pages in it.
   */
  datatype ReaderLocals = ReaderLocals(queued: seq<string>, output: string, pageCount: nat)

  /** The locals before the first event. */
  const ReaderStart: ReaderLocals := ReaderLocals([], "<mediawiki>", 0)

  /**
   * One reader event on values: a `page` node's XML joins the open chunk;
   * when that makes 400 pages the chunk is closed and queued and a new one
   * opens with a line break. Other nodes change nothing.
   */
  function ReadEvent(r: ReaderLocals, event: Event): ReaderLocals
  {
    if event.name != "page" then r
    else if r.pageCount + 1 >= PagesPerQueueItem then
      ReaderLocals(r.queued + [r.output + event.outerXml + Closing], "<mediawiki>\n", 0)
    else ReaderLocals(r.queued, r.output + event.outerXml, r.pageCount + 1)
  }

  /** The locals after `events`, read in order. */
  function ReadEvents(events: seq<Event>): ReaderLocals
  {
    if events == [] then ReaderStart
    else ReadEvent(ReadEvents(events[..|events| - 1]), events[|events| - 1])
  }

  /** What is queued in all once the last event is read: a non-empty open chunk is closed and queued too. */
  function Flushed(r: ReaderLocals): seq<string>
  {
    if r.pageCount > 0 then r.queued + [r.output + Closing] else r.queued
  }

  /**
   * The reader's chunking state after reading `pages`: `groups` are the
   * pages of the chunks already queued, 400 each, and `current` those of the
   * open chunk, whose text so far is `output`.
   */
  ghost predicate ReaderState(pages: seq<string>, groups: seq<seq<string>>, current: seq<string>, output: string)
  {
    && Flatten(groups) + current == pages
    && (forall k :: 0 <= k < |groups| ==> |groups[k]| == PagesPerQueueItem)
    && |current| < PagesPerQueueItem
    && output == Opening(|groups|) + Flatten(current)
  }

  /** Reading one more page that leaves the open chunk short of 400: the page joins it. */
  lemma AddPageToChunk(pages: seq<string>, groups: seq<seq<string>>, current: seq<string>, output: string, pageXml: string)
    requires ReaderState(pages, groups, current, output)
    requires |current| + 1 < PagesPerQueueItem
    ensures ReaderState(pages + [pageXml], groups, current + [pageXml], output + pageXml)
  {
    var opening, body := Opening(|groups|), Flatten(current);
    assert Flatten(current + [pageXml]) == body + pageXml by {
      FlattenSnoc(current, pageXml);
    }
    assert output + pageXml == opening + (body + pageXml);
    assert Flatten(groups) + (current + [pageXml]) == pages + [pageXml];
  }

  /**
   * Reading the 400th page of the open chunk: the chunk closes and is
   * queued as the next chunk text, and a new chunk opens with a line break.
   */
  lemma AddPageClosesChunk(pages: seq<string>, groups: seq<seq<string>>, current: seq<string>, output: string, pageXml: string)
    requires ReaderState(pages, groups, current, output)
    requires |current| + 1 == PagesPerQueueItem
    ensures ReaderState(pages + [pageXml], groups + [current + [pageXml]], [], "<mediawiki>\n")
    ensures ChunkTexts(groups + [current + [pageXml]]) == ChunkTexts(groups) + [output + pageXml + Closing]
  {
    var grown := current + [pageXml];
    assert Flatten(groups + [grown]) + [] == pages + [pageXml] by {
      FlattenSnoc(current, pageXml);
      FlattenSnoc(groups, grown);
    }
    ChunkTextsSnoc(groups, grown);
    ChunkTextSnoc(|groups|, current, pageXml);
    var none: seq<string> := [];
    assert Flatten(none) == [];
  }

  /**
   * After any events the reader's locals are a chunking state of the pages
   * read: the queued chunks are those of the full groups, the open chunk
   * holds the rest.
   */
  lemma {:induction false} ReadEventsState(events: seq<Event>) returns (groups: seq<seq<string>>, current: seq<string>)
    ensures ReaderState(PageXmls(events), groups, current, ReadEvents(events).output)
    ensures ReadEvents(events).queued == ChunkTexts(groups)
    ensures ReadEvents(events).pageCount == |current|
  {
    if events == [] {
      groups, current := [], [];
      assert Flatten(groups) + current == [];
    } else {
      var n := |events| - 1;
      var r := ReadEvents(events[..n]);
      var pages := PageXmls(events[..n]);
      groups, current := ReadEventsState(events[..n]);
      var event := events[n];
      assert ReadEvents(events) == ReadEvent(r, event) && (event.name == "page" ==> PageXmls(events) == pages + [event.outerXml])
        && (event.name != "page" ==> PageXmls(events) == pages) by {
        assert events[..n + 1] == events;
        PageXmlsStep(events, n);
      }
      if event.name == "page" {
        if |current| + 1 == PagesPerQueueItem {
          AddPageClosesChunk(pages, groups, current, r.output, event.outerXml);
          groups, current := groups + [current + [event.outerXml]], [];
        } else {
          AddPageToChunk(pages, groups, current, r.output, event.outerXml);
          current := current + [event.outerXml];
        }
      }
    }
  }

  /**
   * The reader queues exactly the chunks of the dump: every page in reader
   * order, 400 to a chunk with a partial last one, each wrapped in the
   * `<mediawiki>` element.
   */
  lemma ReaderQueuesChunks(events: seq<Event>)
    ensures Flushed(ReadEvents(events)) == Chunks(events)
  {
    var groups, current := ReadEventsState(events);
    BatchOfGroups(groups, current, PagesPerQueueItem);
    if current != [] {
      ChunkTextsSnoc(groups, current);
    } else {
      assert groups + [] == groups;
    }
  }

  /** The locals after one more event are those of `ReadEvent`. */
  lemma ReadEventsStep(events: seq<Event>, i: nat)
    requires i < |events|
    ensures ReadEvents(events[..i + 1]) == ReadEvent(ReadEvents(events[..i]), events[i])
  {
    assert events[..i + 1][..i] == events[..i];
  }

  /**
   * The length in bytes of `s` encoded as UTF-8, which is what
   * `std::string::size` counts for the text the XML reader returns: one
   * byte below U+0080, two below U+0800, three below U+10000, four above.
   */
  function Utf8Size(s: string): (n: nat)
    ensures |s| <= n <= 4 * |s|
  {
    if s == [] then 0
    else
      var c := s[|s| - 1] as int;
      Utf8Size(s[..|s| - 1]) + (if c < 0x80 then 1 else if c < 0x800 then 2 else if c < 0x1_0000 then 3 else 4)
  }

  /** On ASCII text bytes and characters coincide; any other character takes more than one byte. */
  lemma {:induction false} Utf8SizeAscii(s: string)
    ensures Utf8Size(s) == |s| <==> forall i :: 0 <= i < |s| ==> s[i] as int < 0x80
  {
    if s != [] {
      var init := s[..|s| - 1];
      Utf8SizeAscii(init);
      assert forall i :: 0 <= i < |init| ==> init[i] == s[i];
    }
  }

  /** The share of the file read, as a percentage, lies in [0, 100] exactly when no more than the file size has been read. */
  lemma ShareInRange(totalContentSize: nat, fileSize: nat)
    requires fileSize > 0
    ensures var share := (totalContentSize as real / fileSize as real) * 100.0;
      totalContentSize <= fileSize <==> 0.0 <= share <= 100.0
  {
    var size := fileSize as real;
    var q := totalContentSize as real / size;
    assert q * size == totalContentSize as real;
  }

  /**
   * The tracker's part of reading one page: count it, then report the
   * share of the file read so far. With a zero file size that share is not
   * a finite number between 0 and 100, so the tracker ignores it and the
   * call is not modelled.
   */
  method ReportPage(progress: Progress, now: int, totalContentSize: nat, fileSize: nat)
    requires progress.Valid()
    modifies progress
    ensures progress.Valid()
    ensures progress.processedPageCount == old(progress.processedPageCount) + 1
    ensures fileSize > 0 && totalContentSize <= fileSize ==>
      progress.fileProgressPercentage == (totalContentSize as real / fileSize as real) * 100.0
    ensures fileSize == 0 || totalContentSize > fileSize ==>
      progress.fileProgressPercentage == old(progress.fileProgressPercentage)
    ensures progress.runOutputThread == old(progress.runOutputThread) && progress.startTime == old(progress.startTime)
  {
    progress.Increment(now);
    if fileSize > 0 {
      ShareInRange(totalContentSize, fileSize);
      progress.SetFileProgress((totalContentSize as real / fileSize as real) * 100.0);
    }
  }

  /**
   * The chunking part of one pass of `xmlReader`'s loop: a page's outer XML
   * joins the current chunk, and the chunk is closed and queued once it
   * holds 400 pages; other nodes change nothing.
   */
  method ReadNode(qIn: TSQueue<string>, ghost base: seq<string>, ghost r: ReaderLocals,
                  output: string, pageCount: nat, event: Event)
    returns (output': string, pageCount': nat)
    requires qIn.items == base + r.queued && output == r.output && pageCount == r.pageCount
    modifies qIn
    ensures qIn.items == base + ReadEvent(r, event).queued
    ensures output' == ReadEvent(r, event).output && pageCount' == ReadEvent(r, event).pageCount
    ensures qIn.finished == old(qIn.finished)
  {
    output', pageCount' := output, pageCount;
    if event.name == "page" {
      output' := output' + event.outerXml;
      pageCount' := pageCount' + 1;
      if pageCount' >= PagesPerQueueItem {
        output' := output' + Closing;
        qIn.Push(output');
        output' := "<mediawiki>\n";
        pageCount' := 0;
      }
    }
  }

  /** The end of `xmlReader`'s reading: an open chunk holding any pages is closed and queued. */
  method FlushChunk(qIn: TSQueue<string>, ghost base: seq<string>, ghost r: ReaderLocals, output: string, pageCount: nat)
    requires qIn.items == base + r.queued && output == r.output && pageCount == r.pageCount
    modifies qIn
    ensures qIn.items == base + Flushed(r)
    ensures qIn.finished == old(qIn.finished)
  {
    if pageCount > 0 {
      qIn.Push(output + Closing);
    }
  }

  /**
   * `xmlReader`: every `page` node's outer XML goes into the current chunk;
   * a chunk is queued as soon as it holds 400 pages, and a partial last
   * chunk at the end of the dump. When a tracker is given, each page counts
   * once and the file share read so far is reported, and at the end the
   * share is set to 100%. `clock(i)` is the time, in milliseconds, read
   * while handling event `i`; `fileSize` is the dump's size in bytes, 0 when
   * it could not be opened.
   */
  method XmlReader(qIn: TSQueue<string>, events: seq<Event>, fileSize: nat, clock: nat -> int, progress: Progress?)
    requires progress != null ==> progress.Valid()
    modifies qIn, progress
    ensures qIn.items == old(qIn.items) + Chunks(events)
    ensures qIn.finished == old(qIn.finished)
    ensures progress != null ==>
      && progress.Valid()
      && progress.processedPageCount == old(progress.processedPageCount) + |PageXmls(events)|
      && progress.fileProgressPercentage == 100.0
      && progress.runOutputThread == old(progress.runOutputThread)
      && progress.startTime == old(progress.startTime)
  {
    var pageCount := 0;
    var output := "<mediawiki>";
    var totalContentSize: nat := 0;
    ghost var locals := ReaderStart;
    for i := 0 to |events|
      invariant locals == ReadEvents(events[..i])
      invariant qIn.items == old(qIn.items) + locals.queued
      invariant output == locals.output && pageCount == locals.pageCount
      invariant qIn.finished == old(qIn.finished)
      invariant progress != null ==>
        && progress.Valid()
        && progress.processedPageCount == old(progress.processedPageCount) + |PageXmls(events[..i])|
        && progress.runOutputThread == old(progress.runOutputThread)
        && progress.startTime == old(progress.startTime)
    {
      var event := events[i];
      assert |PageXmls(events[..i + 1])| == |PageXmls(events[..i])| + (if event.name == "page" then 1 else 0) by {
        PageXmlsStep(events, i);
      }
      // The report touches only the tracker and the chunk step only the
      // queue and the locals, so reporting first changes nothing.
      if event.name == "page" {
        totalContentSize := totalContentSize + Utf8Size(event.outerXml);
        if progress != null {
          ReportPage(progress, clock(i), totalContentSize, fileSize);
        }
      }
      output, pageCount := ReadNode(qIn, old(qIn.items), locals, output, pageCount, event);
      ReadEventsStep(events, i);
      locals := ReadEvent(locals, event);
    }
    assert events[..|events|] == events;
    FlushChunk(qIn, old(qIn.items), locals, output, pageCount);
    ReaderQueuesChunks(events);
    if progress != null {
      progress.SetFileProgress(100.0);
    }
  }

  /**
   * `pageProcessor`: while the reader may still add chunks or chunks
   * remain, pop a chunk, parse it and push its batch of pages; stop at end
   * of stream. Blocking for a chunk is the precondition: either the input
   * is finished, or the loop only runs while chunks remain.
   */
  method PageProcessor(qIn: TSQueue<string>, qOut: TSQueue<seq<Page>>, keepAlive: bool, parse: string -> seq<Page>)
    requires qIn.finished || !keepAlive
    modifies qIn, qOut
    ensures qIn.items == [] && qIn.finished == old(qIn.finished)
    ensures qOut.items == old(qOut.items) + ParseEach(parse, old(qIn.items))
    ensures qOut.finished == old(qOut.finished)
  {
    ghost var n := 0;
    while true
      invariant n <= |old(qIn.items)| && qIn.items == old(qIn.items)[n..]
      invariant qOut.items == old(qOut.items) + ParseEach(parse, old(qIn.items)[..n])
      invariant qIn.finished == old(qIn.finished) && qOut.finished == old(qOut.finished)
      decreases |qIn.items|
    {
      var empty := qIn.Empty();
      if !keepAlive && empty {
        assert old(qIn.items)[..n] == old(qIn.items);
        break;
      }
      var ok, chunk := qIn.Pop("");
      if !ok {
        assert old(qIn.items)[..n] == old(qIn.items);
        break;
      }
      var batch := parse(chunk);
      assert ParseEach(parse, old(qIn.items)[..n + 1]) == ParseEach(parse, old(qIn.items)[..n]) + [batch] by {
        assert old(qIn.items)[..n + 1][..n] == old(qIn.items)[..n];
      }
      qOut.Push(batch);
      n := n + 1;
    }
  }

  /** The link rows of one page, built up as `linkStr` is. */
  method LinkBlock(title: string, links: seq<string>) returns (linkStr: string)
    ensures linkStr == Lines(PageLinkRows(title, links))
  {
    linkStr := [];
    for k := 0 to |links|
      invariant linkStr == Lines(PageLinkRows(title, links[..k]))
    {
      assert links[..k + 1][..k] == links[..k];
      linkStr := linkStr + Text(LinkLine(title, links[k]));
    }
    assert links[..|links|] == links;
  }

  /** One more page of a batch adds its node row and link rows, or nothing when it has no title. */
  lemma PageRowsStep(pages: seq<Page>, j: nat)
    requires j < |pages|
    ensures pages[j].title == [] ==>
      NodeRows(pages[..j + 1]) == NodeRows(pages[..j]) && LinkRows(pages[..j + 1]) == LinkRows(pages[..j])
    ensures pages[j].title != [] ==>
      && Lines(NodeRows(pages[..j + 1])) == Lines(NodeRows(pages[..j])) + Text(NodeRow(pages[j]))
      && Lines(LinkRows(pages[..j + 1])) == Lines(LinkRows(pages[..j])) + Lines(PageLinkRows(pages[j].title, pages[j].links))
  {
    assert pages[..j + 1] == pages[..j] + [pages[j]];
    if pages[j].title != [] {
      TitledPageRows(pages[..j], pages[j]);
      LinesSnoc(NodeRows(pages[..j]), NodeRow(pages[j]));
      LinesAppend(LinkRows(pages[..j]), PageLinkRows(pages[j].title, pages[j].links));
    }
  }

  /**
   * What `csvWriter` writes for one batch: pages without a title are
   * skipped; otherwise the page's link rows go to the links file and its
   * node row to the nodes file.
   */
  method WriteBatch(pages: seq<Page>) returns (nodeText: string, linkText: string)
    ensures nodeText == Lines(NodeRows(pages))
    ensures linkText == Lines(LinkRows(pages))
  {
    nodeText, linkText := [], [];
    for j := 0 to |pages|
      invariant nodeText == Lines(NodeRows(pages[..j]))
      invariant linkText == Lines(LinkRows(pages[..j]))
    {
      var page := pages[j];
      PageRowsStep(pages, j);
      if |page.title| == 0 {
        continue;
      }
      var linkStr := LinkBlock(page.title, page.links);
      linkText := linkText + linkStr;
      nodeText := nodeText + Text(NodeRow(page));
    }
    assert pages[..|pages|] == pages;
  }

  /** The node rows of each batch, as text, batch after batch. */
  function BatchNodeTexts(batches: seq<seq<Page>>): string
  {
    if batches == [] then []
    else BatchNodeTexts(batches[..|batches| - 1]) + Lines(NodeRows(batches[|batches| - 1]))
  }

  /** The link rows of each batch, as text, batch after batch. */
  function BatchLinkTexts(batches: seq<seq<Page>>): string
  {
    if batches == [] then []
    else BatchLinkTexts(batches[..|batches| - 1]) + Lines(LinkRows(batches[|batches| - 1]))
  }

  /** Writing batch after batch gives the node rows of all their pages taken together. */
  lemma {:induction false} BatchNodeTextsFlatten(batches: seq<seq<Page>>)
    ensures BatchNodeTexts(batches) == Lines(NodeRows(Flatten(batches)))
  {
    if batches != [] {
      var init, pages := batches[..|batches| - 1], batches[|batches| - 1];
      assert batches == init + [pages];
      calc {
        BatchNodeTexts(batches);
        BatchNodeTexts(init) + Lines(NodeRows(pages));
      == { BatchNodeTextsFlatten(init); }
        Lines(NodeRows(Flatten(init))) + Lines(NodeRows(pages));
      == { LinesAppend(NodeRows(Flatten(init)), NodeRows(pages)); }
        Lines(NodeRows(Flatten(init)) + NodeRows(pages));
      == { RowsAppend(Flatten(init), pages); }
        Lines(NodeRows(Flatten(init) + pages));
      == { FlattenSnoc(init, pages); }
        Lines(NodeRows(Flatten(batches)));
      }
    }
  }

  /** Writing batch after batch gives the link rows of all their pages taken together. */
  lemma {:induction false} BatchLinkTextsFlatten(batches: seq<seq<Page>>)
    ensures BatchLinkTexts(batches) == Lines(LinkRows(Flatten(batches)))
  {
    if batches != [] {
      var init, pages := batches[..|batches| - 1], batches[|batches| - 1];
      assert batches == init + [pages];
      calc {
        BatchLinkTexts(batches);
        BatchLinkTexts(init) + Lines(LinkRows(pages));
      == { BatchLinkTextsFlatten(init); }
        Lines(LinkRows(Flatten(init))) + Lines(LinkRows(pages));
      == { LinesAppend(LinkRows(Flatten(init)), LinkRows(pages)); }
        Lines(LinkRows(Flatten(init)) + LinkRows(pages));
      == { RowsAppend(Flatten(init), pages); }
        Lines(LinkRows(Flatten(init) + pages));
      == { FlattenSnoc(init, pages); }
        Lines(LinkRows(Flatten(batches)));
      }
    }
  }

  /** One pass of the `csvWriter` loop: the popped batch's rows go after those already written. */
  method WriteNextBatch(ghost taken: seq<seq<Page>>, nodeText: string, linkText: string, pages: seq<Page>)
    returns (nodeText': string, linkText': string)
    requires nodeText == BatchNodeTexts(taken) && linkText == BatchLinkTexts(taken)
    ensures nodeText' == BatchNodeTexts(taken + [pages]) && linkText' == BatchLinkTexts(taken + [pages])
  {
    var nodes, links := WriteBatch(pages);
    assert (taken + [pages])[..|taken|] == taken;
    nodeText', linkText' := nodeText + nodes, linkText + links;
  }

  /**
   * `csvWriter`: pops batches until end of stream and writes each one's
   * rows after the earlier ones. The two results are what is appended to
   * the nodes and links files after their headers.
   */
  method CsvWriter(qIn: TSQueue<seq<Page>>, keepAlive: bool) returns (nodeText: string, linkText: string)
    requires qIn.finished || !keepAlive
    modifies qIn
    ensures qIn.items == [] && qIn.finished == old(qIn.finished)
    ensures nodeText == Lines(NodeRows(Flatten(old(qIn.items))))
    ensures linkText == Lines(LinkRows(Flatten(old(qIn.items))))
  {
    nodeText, linkText := [], [];
    ghost var taken: seq<seq<Page>> := [];
    while true
      invariant taken + qIn.items == old(qIn.items)
      invariant nodeText == BatchNodeTexts(taken)
      invariant linkText == BatchLinkTexts(taken)
      invariant qIn.finished == old(qIn.finished)
      decreases |qIn.items|
    {
      var empty := qIn.Empty();
      if !keepAlive && empty {
        assert taken + [] == taken;
        break;
      }
      ghost var before := qIn.items;
      var ok, pages := qIn.Pop([]);
      if !ok {
        assert taken + [] == taken;
        break;
      }
      assert (taken + [pages]) + qIn.items == taken + before by {
        assert before == [pages] + qIn.items;
      }
      nodeText, linkText := WriteNextBatch(taken, nodeText, linkText, pages);
      taken := taken + [pages];
    }
    assert taken == old(qIn.items);
    BatchNodeTextsFlatten(taken);
    BatchLinkTextsFlatten(taken);
  }

  /** The nodes file the loader leaves for a dump: the header, then the node rows of every parsed batch. */
  function NodesCsv(events: seq<Event>, parse: string -> seq<Page>): string
  {
    NodesHeader + Lines(NodeRows(Flatten(ParseEach(parse, Chunks(events)))))
  }

  /** The links file the loader leaves for a dump: the header, then the link rows of every parsed batch. */
  function LinksCsv(events: seq<Event>, parse: string -> seq<Page>): string
  {
    LinksHeader + Lines(LinkRows(Flatten(ParseEach(parse, Chunks(events)))))
  }

  /**
   * What `parseFileParallel` does once the reader is done: mark the input
   * finished, let the worker turn every chunk into a batch, then mark the
   * output finished and let the writer write every batch. The results are
   * the rows written after the two headers.
   */
  method FinishStages(qIn: TSQueue<string>, parse: string -> seq<Page>) returns (nodes: string, links: string)
    modifies qIn
    ensures qIn.items == [] && qIn.finished
    ensures nodes == Lines(NodeRows(Flatten(ParseEach(parse, old(qIn.items)))))
    ensures links == Lines(LinkRows(Flatten(ParseEach(parse, old(qIn.items)))))
  {
    var qOut := new TSQueue<seq<Page>>();
    ghost var batches := ParseEach(parse, qIn.items);
    var processKeepAlive := false;
    qIn.SetFinished();
    PageProcessor(qIn, qOut, processKeepAlive, parse);
    assert qOut.items == batches by {
      assert [] + batches == batches;
    }
    var writerKeepAlive := false;
    qOut.SetFinished();
    nodes, links := CsvWriter(qOut, writerKeepAlive);
  }

  /**
   * `parseFileParallel`: both files start afresh with their header; the
   * reader, the worker and the writer run; the tracker then reports
   * completion, having counted every page and reached 100% of the file.
   */
  method ParseFileParallel(events: seq<Event>, fileSize: nat, clock: nat -> int, parse: string -> seq<Page>, startMs: int)
    returns (nodesFile: string, linksFile: string, progress: Progress)
    ensures nodesFile == NodesCsv(events, parse)
    ensures linksFile == LinksCsv(events, parse)
    ensures fresh(progress) && progress.Valid()
    ensures progress.processedPageCount == |PageXmls(events)| && progress.fileProgressPercentage == 100.0
    ensures !progress.runOutputThread && progress.startTime == startMs
  {
    var qIn := new TSQueue<string>();
    progress := new Progress(startMs);
    nodesFile, linksFile := NodesHeader, LinksHeader;

    ghost var chunks := Chunks(events);
    XmlReader(qIn, events, fileSize, clock, progress);
    assert qIn.items == chunks by {
      assert [] + chunks == chunks;
    }

    var nodes, links := FinishStages(qIn, parse);
    nodesFile, linksFile := nodesFile + nodes, linksFile + links;

    progress.Finish();
  }

  /** What the loader finds at a path: the reader's node events and the file size in bytes. */
  datatype Dump = Dump(events: seq<Event>, size: nat)

  const MissingPathMessage: string := "Exception caught: No Wikipedia XML dump file provided\n"

  /**
   * `main`: without a path argument (`args` includes the program name) it
   * reports the missing dump on the error stream and exits with failure,
   * writing no files; otherwise it loads the dump at `args[1]` and exits
   * with success.
   */
  method Run(args: seq<string>, open: string -> Dump, clock: nat -> int, parse: string -> seq<Page>, startMs: int)
    returns (exitCode: int, stderr: string, files: Option<(string, string)>)
    ensures exitCode == 0 || exitCode == 1
    ensures exitCode == 1 <==> |args| <= 1
    ensures |args| <= 1 ==> stderr == MissingPathMessage && files == None
    ensures |args| > 1 ==>
      && stderr == []
      && files == Some((NodesCsv(open(args[1]).events, parse), LinksCsv(open(args[1]).events, parse)))
  {
    if |args| <= 1 {
      return 1, MissingPathMessage, None;
    }
    var filepath := args[1];
    var dump := open(filepath);
    var nodesFile, linksFile, _ := ParseFileParallel(dump.events, dump.size, clock, parse, startMs);
    return 0, [], Some((nodesFile, linksFile));
  }
}
