/** The analyzer's `network` command without its threads and files: the
    arithmetic that cuts the compressed dump into one byte range per
    worker, what a worker sends for the pages of its range, and the text
    formats the two writer threads produce. */
module Network {
  import opened Wrappers
  import opened Sequences
  import opened XmlEvents
  import WikiXmlDump
  import NetworkGenerator
  import WikiText

  /** The two panics of the boundary computation. */
  datatype PartitionError = DivisionByZero | IndexOutOfBounds

  /** `start_positions.len() / number_of_threads + 1`. */
  function BlockSize(count: nat, threads: nat): nat
    requires threads > 0
  {
    count / threads + 1
  }

  /** The boundary computation succeeds: there is a thread, and the last
      interior boundary, `(threads - 1) * block_size`, indexes the start
      positions. */
  predicate Partitionable(startPositions: seq<nat>, threads: nat)
  {
    threads > 0 && (threads == 1 || (threads - 1) * BlockSize(|startPositions|, threads) < |startPositions|)
  }

  lemma MulMonotone(a: nat, b: nat, c: nat)
    requires a <= b
    ensures a * c <= b * c
  {
  }

  lemma StrideInRange(startPositions: seq<nat>, threads: nat, k: nat)
    requires Partitionable(startPositions, threads) && 0 < k < threads
    ensures k * BlockSize(|startPositions|, threads) < |startPositions|
  {
    MulMonotone(k, threads - 1, BlockSize(|startPositions|, threads));
  }

  /** Boundary `k` of the byte ranges: 0 first, one past the file size
      last, and in between the start position `k * block_size` of the
      index. */
  function Boundary(startPositions: seq<nat>, threads: nat, fileSize: nat, k: nat): nat
    requires Partitionable(startPositions, threads) && k <= threads
  {
    if k == 0 then 0
    else if k == threads then fileSize + 1
    else
      StrideInRange(startPositions, threads, k);
      startPositions[k * BlockSize(|startPositions|, threads)]
  }

  /** The boundary vector: `threads + 1` boundaries. */
  function BlockBoundaries(startPositions: seq<nat>, threads: nat, fileSize: nat): (blocks: seq<nat>)
    requires Partitionable(startPositions, threads)
    ensures |blocks| == threads + 1 && blocks[0] == 0 && blocks[threads] == fileSize + 1
    ensures forall k :: 0 <= k <= threads ==> blocks[k] == Boundary(startPositions, threads, fileSize, k)
  {
    seq(threads + 1, k requires 0 <= k <= threads => Boundary(startPositions, threads, fileSize, k))
  }

  /** Lines 10-23 of `network`: the boundary vector built by `push`. It
      fails exactly where the source divides by zero or indexes past the
      start positions. */
  method Blocks(startPositions: seq<nat>, threads: nat, fileSize: nat) returns (r: Result<seq<nat>, PartitionError>)
    ensures r.Failure? <==> !Partitionable(startPositions, threads)
    ensures r == Failure(DivisionByZero) <==> threads == 0
    ensures r.Success? ==> r.value == BlockBoundaries(startPositions, threads, fileSize)
  {
    if threads == 0 {
      return Failure(DivisionByZero);
    }
    var blockSize := |startPositions| / threads + 1;
    var blocks := [0];
    for threadNumber := 1 to threads
      invariant |blocks| == threadNumber && blocks[0] == 0
      invariant forall k :: 0 < k < threadNumber ==>
        k * blockSize < |startPositions| && blocks[k] == startPositions[k * blockSize]
    {
      var startIndex := threadNumber * blockSize;
      if startIndex >= |startPositions| {
        BlocksPastEnd(startPositions, threads, threadNumber);
        return Failure(IndexOutOfBounds);
      }
      blocks := blocks + [startPositions[startIndex]];
    }
    blocks := blocks + [fileSize + 1];
    BlocksComplete(startPositions, threads, fileSize, blocks);
    r := Success(blocks);
  }

  /** An interior start index past the index: the source panics. */
  lemma BlocksPastEnd(startPositions: seq<nat>, threads: nat, threadNumber: nat)
    requires 0 < threadNumber < threads
    requires threadNumber * BlockSize(|startPositions|, threads) >= |startPositions|
    ensures !Partitionable(startPositions, threads)
  {
    MulMonotone(threadNumber, threads - 1, BlockSize(|startPositions|, threads));
  }

  /** Every interior start index was in range: the vector is the boundary
      vector. */
  lemma BlocksComplete(startPositions: seq<nat>, threads: nat, fileSize: nat, blocks: seq<nat>)
    requires threads > 0 && |blocks| == threads + 1 && blocks[0] == 0 && blocks[threads] == fileSize + 1
    requires forall k :: 0 < k < threads ==>
      k * BlockSize(|startPositions|, threads) < |startPositions| &&
      blocks[k] == startPositions[k * BlockSize(|startPositions|, threads)]
    ensures Partitionable(startPositions, threads)
    ensures blocks == BlockBoundaries(startPositions, threads, fileSize)
  {
    if threads > 1 {
      assert (threads - 1) * BlockSize(|startPositions|, threads) < |startPositions|;
    }
    var expected := BlockBoundaries(startPositions, threads, fileSize);
    forall k | 0 <= k <= threads
      ensures blocks[k] == expected[k]
    {
      assert expected[k] == Boundary(startPositions, threads, fileSize, k);
    }
  }

  /** An index of more than `threads * threads` blocks always partitions. */
  lemma LargeIndexPartitions(startPositions: seq<nat>, threads: nat)
    requires threads > 0 && |startPositions| >= threads * threads
    ensures Partitionable(startPositions, threads)
  {
    var n := |startPositions|;
    var q := n / threads;
    assert q * threads <= n < q * threads + threads;
    if q < threads {
      MulMonotone(q + 1, threads, threads);
      assert false;
    }
    assert (threads - 1) * (q + 1) == threads * q - q + threads - 1;
  }

  /** With four threads, an index of eight blocks makes the source index
      past the end: the block size is three and the last interior
      boundary would be start position nine. */
  lemma EightBlocksPanic(startPositions: seq<nat>)
    requires |startPositions| == 8
    ensures !Partitionable(startPositions, 4)
  {
  }

  predicate NonDecreasing(s: seq<nat>)
  {
    forall i, j :: 0 <= i <= j < |s| ==> s[i] <= s[j]
  }

  /** Sorted start positions inside the file give boundaries that never
      decrease. */
  lemma BoundariesNonDecreasing(startPositions: seq<nat>, threads: nat, fileSize: nat)
    requires Partitionable(startPositions, threads) && NonDecreasing(startPositions)
    requires forall i :: 0 <= i < |startPositions| ==> startPositions[i] <= fileSize + 1
    ensures NonDecreasing(BlockBoundaries(startPositions, threads, fileSize))
  {
    var blocks := BlockBoundaries(startPositions, threads, fileSize);
    var size := BlockSize(|startPositions|, threads);
    forall i, j | 0 <= i <= j < |blocks|
      ensures blocks[i] <= blocks[j]
    {
      if 0 < i && j < threads {
        MulMonotone(i, j, size);
        StrideInRange(startPositions, threads, j);
      }
    }
  }

  /** Lines 31-32 and 73: thread `t` reads from `blocks[t]` and takes
      `blocks[t + 1] - blocks[t]` bytes, an unsigned subtraction that
      underflows (a panic) when the boundaries decrease. */
  function ByteCount(blocks: seq<nat>, t: nat): (n: Option<nat>)
    requires t + 1 < |blocks|
    ensures n.None? <==> blocks[t + 1] < blocks[t]
    ensures n.Some? ==> blocks[t] + n.value == blocks[t + 1]
  {
    if blocks[t + 1] < blocks[t] then None else Some(blocks[t + 1] - blocks[t])
  }

  /** Thread `t`'s range holds byte offset `o`. */
  predicate Owns(blocks: seq<nat>, t: nat, o: nat)
  {
    t + 1 < |blocks| && blocks[t] <= o < blocks[t + 1]
  }

  /** With boundaries that never decrease, each byte offset between the
      first and the last boundary is read by exactly one thread. */
  lemma {:induction false} OffsetOwnedByOneThread(blocks: seq<nat>, o: nat)
    requires NonDecreasing(blocks) && |blocks| >= 2 && blocks[0] <= o < blocks[|blocks| - 1]
    ensures exists t :: Owns(blocks, t, o)
    ensures forall t1, t2 :: Owns(blocks, t1, o) && Owns(blocks, t2, o) ==> t1 == t2
    decreases |blocks|
  {
    if o >= blocks[|blocks| - 2] {
      assert Owns(blocks, |blocks| - 2, o);
    } else {
      var front := blocks[..|blocks| - 1];
      OffsetOwnedByOneThread(front, o);
      var t :| Owns(front, t, o);
      assert Owns(blocks, t, o);
    }
  }

  /** What a worker sends on the adjacency channel. */
  datatype NodeRecord = NodeRecord(node: string, links: seq<string>)

  /** What a worker sends on the redirect channel. */
  datatype RedirectLine = RedirectLine(node: string, target: string)

  /** The node records of the pages, in order, up to the first scan
      panic. */
  function NodeRecords(pages: seq<WikiXmlDump.WikiPage>): seq<NodeRecord>
  {
    if pages == [] then []
    else
      match NetworkGenerator.RouteOf(pages[0])
      case ScanPanic => []
      case Adjacency(node, links) => [NodeRecord(node, links)] + NodeRecords(pages[1..])
      case _ => NodeRecords(pages[1..])
  }

  /** The redirect records of the pages, in order, up to the first scan
      panic. */
  function RedirectLines(pages: seq<WikiXmlDump.WikiPage>): seq<RedirectLine>
  {
    if pages == [] then []
    else
      match NetworkGenerator.RouteOf(pages[0])
      case ScanPanic => []
      case RedirectRecord(node, target) => [RedirectLine(node, target)] + RedirectLines(pages[1..])
      case _ => RedirectLines(pages[1..])
  }

  /** Some page makes the link scanner panic. */
  predicate Panics(pages: seq<WikiXmlDump.WikiPage>)
  {
    exists i :: 0 <= i < |pages| && NetworkGenerator.RouteOf(pages[i]).ScanPanic?
  }

  /** Lines 81-101 of `process_partial_dump`: every page of the range is
      routed as `process_page` routes it, but sent as a message instead of
      inserted. A scan panic ends the worker; what it sent stays sent. */
  method ProcessPartialDump(events: seq<Event>) returns (nodes: seq<NodeRecord>, redirects: seq<RedirectLine>, panicked: bool)
    ensures nodes == NodeRecords(WikiXmlDump.Pages(events, 0))
    ensures redirects == RedirectLines(WikiXmlDump.Pages(events, 0))
    ensures panicked == Panics(WikiXmlDump.Pages(events, 0))
  {
    var xmlDump := new WikiXmlDump.WikiXmlDump(events);
    nodes, redirects, panicked := [], [], false;
    while true
      invariant xmlDump.Valid() && xmlDump.events == events
      invariant NodeRecords(WikiXmlDump.Pages(events, 0)) == nodes + NodeRecords(WikiXmlDump.Pages(events, xmlDump.pos))
      invariant RedirectLines(WikiXmlDump.Pages(events, 0)) == redirects + RedirectLines(WikiXmlDump.Pages(events, xmlDump.pos))
      invariant Panics(WikiXmlDump.Pages(events, 0)) == Panics(WikiXmlDump.Pages(events, xmlDump.pos))
      decreases |events| - xmlDump.pos
    {
      ghost var pos := xmlDump.pos;
      var page := xmlDump.Next();
      if page.None? {
        assert WikiXmlDump.Pages(events, pos) == [];
        break;
      }
      NetworkGenerator.PagesStep(events, pos);
      ghost var rest := WikiXmlDump.Pages(events, xmlDump.pos);
      RecordsStep(page.value, rest);
      var route := RoutePage(page.value);
      match route
      case ScanPanic =>
        panicked := true;
        return;
      case Adjacency(node, links) =>
        nodes := nodes + [NodeRecord(node, links)];
      case RedirectRecord(node, target) =>
        redirects := redirects + [RedirectLine(node, target)];
      case Ignored =>
    }
    assert nodes + [] == nodes && redirects + [] == redirects;
  }

  /** The routing code repeated in the worker's loop body. */
  method RoutePage(page: WikiXmlDump.WikiPage) returns (route: NetworkGenerator.Route)
    ensures route == NetworkGenerator.RouteOf(page)
  {
    if page.namespaceId != 0 {
      return NetworkGenerator.Ignored;
    }
    var links := WikiText.ParseText(page);
    if links.None? {
      return NetworkGenerator.Ignored;
    }
    if links.value.Failure? {
      return NetworkGenerator.ScanPanic;
    }
    var tokens := links.value.value;
    if !WikiText.IsRedirect(tokens) {
      return NetworkGenerator.Adjacency(page.title, NetworkGenerator.CanonicalLinks(WikiText.LinkedArticles(tokens)));
    }
    var redirect := WikiText.RedirectsTo(tokens);
    var target := if redirect.Some? then NetworkGenerator.CanonicalizeLink(redirect.value) else None;
    if target.Some? {
      return NetworkGenerator.RedirectRecord(page.title, target.value);
    }
    return NetworkGenerator.Ignored;
  }

  lemma RecordsStep(page: WikiXmlDump.WikiPage, rest: seq<WikiXmlDump.WikiPage>)
    ensures var route := NetworkGenerator.RouteOf(page);
      && (route.ScanPanic? ==> NodeRecords([page] + rest) == [] && RedirectLines([page] + rest) == [] && Panics([page] + rest))
      && (!route.ScanPanic? ==> Panics([page] + rest) == Panics(rest))
      && (route.Adjacency? ==> NodeRecords([page] + rest) == [NodeRecord(route.node, route.links)] + NodeRecords(rest))
      && (!route.Adjacency? && !route.ScanPanic? ==> NodeRecords([page] + rest) == NodeRecords(rest))
      && (route.RedirectRecord? ==> RedirectLines([page] + rest) == [RedirectLine(route.node, route.target)] + RedirectLines(rest))
      && (!route.RedirectRecord? && !route.ScanPanic? ==> RedirectLines([page] + rest) == RedirectLines(rest))
  {
    var pages := [page] + rest;
    assert pages[0] == page && pages[1..] == rest;
    if !NetworkGenerator.RouteOf(page).ScanPanic? {
      assert forall i :: 0 < i < |pages| ==> pages[i] == rest[i - 1];
      assert forall i :: 0 <= i < |rest| ==> rest[i] == pages[i + 1];
    } else {
      assert NetworkGenerator.RouteOf(pages[0]).ScanPanic?;
    }
  }

  /** The receiver threads insert the messages of each channel in arrival
      order. */
  function InsertNodes(network: NetworkGenerator.Network, records: seq<NodeRecord>): NetworkGenerator.Network
    decreases |records|
  {
    if records == [] then network
    else InsertNodes(network[records[0].node := records[0].links], records[1..])
  }

  function InsertRedirects(redirects: NetworkGenerator.Redirects, lines: seq<RedirectLine>): NetworkGenerator.Redirects
    decreases |lines|
  {
    if lines == [] then redirects
    else InsertRedirects(redirects[lines[0].node := lines[0].target], lines[1..])
  }

  /** Splitting the pages' routes over two channels loses nothing: when
      no page panics, inserting each channel's messages in order gives the
      maps that `process_page` builds page by page. */
  lemma {:induction false} ChannelsAgreeWithProcessPage(pages: seq<WikiXmlDump.WikiPage>, g: NetworkGenerator.Graph)
    requires !Panics(pages)
    ensures NetworkGenerator.Collect(pages, g) ==
      Success(NetworkGenerator.Graph(InsertNodes(g.network, NodeRecords(pages)), InsertRedirects(g.redirects, RedirectLines(pages))))
    decreases |pages|
  {
    if pages != [] {
      var route := NetworkGenerator.RouteOf(pages[0]);
      assert !route.ScanPanic? by {
        assert !(0 <= 0 < |pages| && NetworkGenerator.RouteOf(pages[0]).ScanPanic?);
      }
      assert !Panics(pages[1..]) by {
        forall i | 0 <= i < |pages[1..]|
          ensures !NetworkGenerator.RouteOf(pages[1..][i]).ScanPanic?
        {
          assert pages[1..][i] == pages[i + 1];
        }
      }
      ChannelsAgreeWithProcessPage(pages[1..], NetworkGenerator.Insert(g, route));
    }
  }

  /** The separator `save_network` and `save_redirects` write between
      fields. */
  const Separator: string := "; "

  /** The targets of one record, each preceded by the separator. */
  function JoinedTargets(targets: seq<string>): string
  {
    if targets == [] then [] else JoinedTargets(targets[..|targets| - 1]) + Separator + targets[|targets| - 1]
  }

  /** One line of the network file. */
  function NetworkLine(record: NodeRecord): string
  {
    record.node + JoinedTargets(record.links) + "\n"
  }

  /** The network file: one line per record, in the order received. */
  function NetworkText(records: seq<NodeRecord>): string
  {
    if records == [] then [] else NetworkText(records[..|records| - 1]) + NetworkLine(records[|records| - 1])
  }

  /** `save_network`: the node, then separator and target for every
      target, then a newline. Failing writes are not modelled. */
  method SaveNetwork(records: seq<NodeRecord>) returns (written: string)
    ensures written == NetworkText(records)
  {
    written := [];
    for i := 0 to |records|
      invariant written == NetworkText(records[..i])
    {
      var record := records[i];
      written := written + record.node;
      ghost var lineStart := written;
      for j := 0 to |record.links|
        invariant written == lineStart + JoinedTargets(record.links[..j])
      {
        assert record.links[..j + 1][..j] == record.links[..j];
        written := written + Separator + record.links[j];
      }
      assert record.links[..|record.links|] == record.links;
      written := written + "\n";
      assert records[..i + 1][..i] == records[..i];
    }
    assert records[..|records|] == records;
  }

  /** A node without links is written as its title and a newline. */
  lemma NodeWithoutLinksLine(node: string)
    ensures NetworkLine(NodeRecord(node, [])) == node + "\n"
  {
  }

  /** Titles without newlines give one line per record. */
  lemma {:induction false} NetworkTextLines(records: seq<NodeRecord>)
    requires forall i :: 0 <= i < |records| ==> '\n' !in records[i].node && forall t :: t in records[i].links ==> '\n' !in t
    ensures Occurrences(NetworkText(records), '\n') == |records|
    decreases |records|
  {
    if records != [] {
      var last := records[|records| - 1];
      NetworkTextLines(records[..|records| - 1]);
      NoNewlineInTargets(last.links);
      OccurrencesAbsent(last.node, '\n');
      OccurrencesAppend(last.node, JoinedTargets(last.links), '\n');
      OccurrencesAppend(last.node + JoinedTargets(last.links), "\n", '\n');
      OccurrencesAppend(NetworkText(records[..|records| - 1]), NetworkLine(last), '\n');
    }
  }

  lemma {:induction false} NoNewlineInTargets(targets: seq<string>)
    requires forall t :: t in targets ==> '\n' !in t
    ensures Occurrences(JoinedTargets(targets), '\n') == 0
    decreases |targets|
  {
    if targets != [] {
      var front := targets[..|targets| - 1];
      assert forall t :: t in front ==> t in targets;
      NoNewlineInTargets(front);
      assert targets[|targets| - 1] in targets;
      OccurrencesAbsent(targets[|targets| - 1], '\n');
      OccurrencesAppend(JoinedTargets(front), Separator, '\n');
      OccurrencesAppend(JoinedTargets(front) + Separator, targets[|targets| - 1], '\n');
    }
  }

  /** Titles without `;` give exactly one separator per target. */
  lemma {:induction false} SeparatorPerTarget(targets: seq<string>)
    requires forall t :: t in targets ==> ';' !in t
    ensures Occurrences(JoinedTargets(targets), ';') == |targets|
    decreases |targets|
  {
    if targets != [] {
      var front := targets[..|targets| - 1];
      assert forall t :: t in front ==> t in targets;
      SeparatorPerTarget(front);
      assert targets[|targets| - 1] in targets;
      OccurrencesAbsent(targets[|targets| - 1], ';');
      OccurrencesAppend(JoinedTargets(front), Separator, ';');
      OccurrencesAppend(JoinedTargets(front) + Separator, targets[|targets| - 1], ';');
    }
  }

  /** One line of the redirect file. */
  function RedirectText(lines: seq<RedirectLine>): string
  {
    if lines == [] then []
    else
      var last := lines[|lines| - 1];
      RedirectText(lines[..|lines| - 1]) + last.node + Separator + last.target + "\n"
  }

  /** `save_redirects`: title, separator, target and newline per message.
      Failing writes are not modelled. */
  method SaveRedirects(lines: seq<RedirectLine>) returns (written: string)
    ensures written == RedirectText(lines)
  {
    written := [];
    for i := 0 to |lines|
      invariant written == RedirectText(lines[..i])
    {
      var line := lines[i];
      written := written + line.node;
      written := written + Separator;
      written := written + line.target;
      written := written + "\n";
      assert lines[..i + 1][..i] == lines[..i];
    }
    assert lines[..|lines|] == lines;
  }

  /** Every line of the redirect file holds one title, one separator and
      one target: with titles free of `;` and newlines, the file has one
      newline and one `;` per message. */
  lemma {:induction false} RedirectTextCounts(lines: seq<RedirectLine>)
    requires forall i :: 0 <= i < |lines| ==>
      '\n' !in lines[i].node && '\n' !in lines[i].target && ';' !in lines[i].node && ';' !in lines[i].target
    ensures Occurrences(RedirectText(lines), '\n') == |lines|
    ensures Occurrences(RedirectText(lines), ';') == |lines|
    decreases |lines|
  {
    if lines != [] {
      var last := lines[|lines| - 1];
      var front := lines[..|lines| - 1];
      RedirectTextCounts(front);
      var pre := RedirectText(front);
      assert RedirectText(lines) == pre + last.node + Separator + last.target + "\n";
      OccurrencesAbsent(last.node, '\n');
      OccurrencesAbsent(last.target, '\n');
      OccurrencesAbsent(last.node, ';');
      OccurrencesAbsent(last.target, ';');
      OccurrencesAppend(pre, last.node, '\n');
      OccurrencesAppend(pre + last.node, Separator, '\n');
      OccurrencesAppend(pre + last.node + Separator, last.target, '\n');
      OccurrencesAppend(pre + last.node + Separator + last.target, "\n", '\n');
      OccurrencesAppend(pre, last.node, ';');
      OccurrencesAppend(pre + last.node, Separator, ';');
      OccurrencesAppend(pre + last.node + Separator, last.target, ';');
      OccurrencesAppend(pre + last.node + Separator + last.target, "\n", ';');
    }
  }
}
