/**
 * What `xmlReader` (src/main.cpp) sends to the workers: the outer XML of
 * every `page` node, in reader order, grouped 400 to a chunk, each chunk
 * wrapped in a `<mediawiki>` element. These functions specify the result;
 * the loop that produces it is `Pipeline.XmlReader`.
 */
module Chunking {
  import opened Seqs

  /** `pagesPerQueueItem`. */
  const PagesPerQueueItem: nat := 400

  /** One node delivered by the XML text reader: its name and its outer XML. */
  datatype Event = Event(name: string, outerXml: string)

  /** The outer XML of the `page` nodes among `events`, in reader order. */
  function PageXmls(events: seq<Event>): (pages: seq<string>)
    ensures |pages| <= |events|
  {
    if events == [] then []
    else
      var last := events[|events| - 1];
      PageXmls(events[..|events| - 1]) + (if last.name == "page" then [last.outerXml] else [])
  }

  /**
   * `xs` cut into groups of `n`, front first; only the last group may be
   * shorter, and no group is empty.
   */
  function Batch<T>(xs: seq<T>, n: nat): (groups: seq<seq<T>>)
    requires n > 0
    ensures Flatten(groups) == xs
    ensures forall i :: 0 <= i < |groups| ==> 0 < |groups[i]| <= n
    ensures forall i :: 0 <= i < |groups| - 1 ==> |groups[i]| == n
    decreases |xs|
  {
    if xs == [] then []
    else if |xs| <= n then [xs]
    else [xs[..n]] + Batch(xs[n..], n)
  }

  /**
   * Full groups of `n` followed by 0 to `n` further items are cut back into
   * exactly those groups, plus the further items as a last group when
   * there are any.
   */
  lemma {:induction false} BatchOfGroups<T>(groups: seq<seq<T>>, rest: seq<T>, n: nat)
    requires n > 0 && |rest| <= n
    requires forall k :: 0 <= k < |groups| ==> |groups[k]| == n
    ensures Batch(Flatten(groups) + rest, n) == groups + (if rest == [] then [] else [rest])
    decreases |groups|
  {
    if groups == [] {
      assert Flatten(groups) + rest == rest;
    } else {
      var tail := groups[1..];
      var xs := Flatten(groups) + rest;
      assert xs == groups[0] + (Flatten(tail) + rest);
      BatchOfGroups(tail, rest, n);
      if |xs| == n {
        assert Flatten(tail) + rest == [];
        assert tail == [];
      } else {
        assert xs[..n] == groups[0];
        assert xs[n..] == Flatten(tail) + rest;
      }
    }
  }

  /** The opening text of chunk number `index`: only the first has no line break. */
  function Opening(index: nat): string
  {
    if index == 0 then "<mediawiki>" else "<mediawiki>\n"
  }

  const Closing: string := "\n</mediawiki>"

  /** Chunk number `index` holding the page fragments `pages`. */
  function ChunkText(index: nat, pages: seq<string>): string
  {
    Opening(index) + Flatten(pages) + Closing
  }

  /** The chunk texts of consecutive page groups, numbered from 0. */
  function ChunkTexts(groups: seq<seq<string>>): (texts: seq<string>)
    ensures |texts| == |groups|
  {
    if groups == [] then []
    else ChunkTexts(groups[..|groups| - 1]) + [ChunkText(|groups| - 1, groups[|groups| - 1])]
  }

  /** A chunk with one more page: that page's text comes right before the closing. */
  lemma ChunkTextSnoc(index: nat, pages: seq<string>, page: string)
    ensures ChunkText(index, pages + [page]) == Opening(index) + Flatten(pages) + page + Closing
  {
    FlattenSnoc(pages, page);
    var opening, body := Opening(index), Flatten(pages);
    assert opening + (body + page) + Closing == opening + body + page + Closing;
  }

  /** One more group adds its chunk, numbered after the earlier ones. */
  lemma ChunkTextsSnoc(groups: seq<seq<string>>, g: seq<string>)
    ensures ChunkTexts(groups + [g]) == ChunkTexts(groups) + [ChunkText(|groups|, g)]
  {
    assert (groups + [g])[..|groups|] == groups;
  }

  /** Every chunk `xmlReader` pushes, in push order. */
  function Chunks(events: seq<Event>): seq<string>
  {
    ChunkTexts(Batch(PageXmls(events), PagesPerQueueItem))
  }

  /** What lies between the opening of chunk number `index` and the closing. */
  function Unwrap(index: nat, text: string): (body: string)
    requires |Opening(index)| + |Closing| <= |text|
  {
    text[|Opening(index)|..|text| - |Closing|]
  }

  /** Each chunk text is its pages between the opening and the closing. */
  lemma {:induction false} ChunkTextsShape(groups: seq<seq<string>>)
    ensures forall k :: 0 <= k < |groups| ==> ChunkTexts(groups)[k] == ChunkText(k, groups[k])
  {
    if groups != [] {
      var init := groups[..|groups| - 1];
      ChunkTextsShape(init);
      assert forall k :: 0 <= k < |init| ==> groups[k] == init[k];
    }
  }

  /** Unwrapping a chunk gives back exactly the concatenated page fragments it was built from. */
  lemma UnwrapChunkText(index: nat, pages: seq<string>)
    ensures |Opening(index)| + |Closing| <= |ChunkText(index, pages)|
    ensures Unwrap(index, ChunkText(index, pages)) == Flatten(pages)
  {
    var text := ChunkText(index, pages);
    assert text[|Opening(index)|..|text| - |Closing|] == Flatten(pages);
  }

  /**
   * Conservation and exact sizes: the chunks are one per group of pages;
   * the groups concatenate to every page fragment in reader order; every
   * chunk but the last holds exactly 400 fragments and the last between 1
   * and 400; and each chunk is its fragments wrapped in the opening and
   * closing texts, the first chunk alone opening without a line break.
   */
  lemma ChunksConservePages(events: seq<Event>)
    ensures var groups := Batch(PageXmls(events), PagesPerQueueItem);
      && |Chunks(events)| == |groups|
      && Flatten(groups) == PageXmls(events)
      && (forall k :: 0 <= k < |groups| - 1 ==> |groups[k]| == PagesPerQueueItem)
      && (forall k :: 0 <= k < |groups| ==> 0 < |groups[k]| <= PagesPerQueueItem)
      && (forall k :: 0 <= k < |groups| ==> Chunks(events)[k] == Opening(k) + Flatten(groups[k]) + Closing)
  {
    ChunkTextsShape(Batch(PageXmls(events), PagesPerQueueItem));
  }

  /** No chunk at all without a page; otherwise the number of chunks is the page count rounded up to 400s. */
  lemma ChunkCount(events: seq<Event>)
    ensures |Chunks(events)| == (|PageXmls(events)| + PagesPerQueueItem - 1) / PagesPerQueueItem
  {
    BatchCount(PageXmls(events));
  }

  lemma {:induction false} BatchCount<T>(xs: seq<T>)
    ensures |Batch(xs, PagesPerQueueItem)| == (|xs| + PagesPerQueueItem - 1) / PagesPerQueueItem
    decreases |xs|
  {
    if |xs| > PagesPerQueueItem {
      BatchCount(xs[PagesPerQueueItem..]);
    }
  }
}
