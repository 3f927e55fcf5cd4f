/** Assembly of the link graph from the pages of the dump: each page of the
    main namespace becomes either a node with its canonical links or a
    redirect, and the finished graph has its redirects resolved and its
    links to missing pages removed. */
module NetworkGenerator {
  import opened Wrappers
  import opened Sequences
  import opened WikiText
  import WikiXmlDump
  import XmlEvents

  /** Node title to the titles it links to, in order of appearance. */
  type Network = map<string, seq<string>>

  /** Redirect page title to its target. */
  type Redirects = map<string, string>

  predicate IsAsciiLower(c: char)
  {
    'a' <= c <= 'z'
  }

  /** `char::to_ascii_uppercase`: `a`..`z` become `A`..`Z`, every other
      character is kept. */
  function AsciiUpper(c: char): (u: char)
    ensures !IsAsciiLower(u)
    ensures !IsAsciiLower(c) ==> u == c
  {
    if IsAsciiLower(c) then (c as int - 32) as char else c
  }

  /** `canonicalize_link`: nothing for the empty string; otherwise the same
      string with its first character upper-cased (ASCII letters only). */
  function CanonicalizeLink(link: string): (r: Option<string>)
    ensures r.None? <==> link == []
    ensures r.Some? ==> |r.value| == |link| && r.value[1..] == link[1..]
    ensures r.Some? ==> r.value[0] == AsciiUpper(link[0]) && !IsAsciiLower(r.value[0])
  {
    if link == [] then None else Some([AsciiUpper(link[0])] + link[1..])
  }

  /** Canonicalizing a canonical title changes nothing. */
  lemma CanonicalizeLinkIdempotent(link: string)
    requires link != []
    ensures CanonicalizeLink(CanonicalizeLink(link).value) == CanonicalizeLink(link)
  {
    var c := CanonicalizeLink(link).value;
    assert c == [c[0]] + c[1..];
  }

  /** The `filter_map(canonicalize_link)` over the linked articles: empty
      targets are dropped, the others canonicalized, order kept. */
  function CanonicalLinks(links: seq<string>): (cs: seq<string>)
    ensures |cs| <= |links|
    ensures forall i :: 0 <= i < |cs| ==> cs[i] != []
  {
    if links == [] then []
    else
      match CanonicalizeLink(links[0])
      case Some(c) => [c] + CanonicalLinks(links[1..])
      case None => CanonicalLinks(links[1..])
  }

  /** One target gives its canonical form, or nothing when it is empty. */
  lemma CanonicalLinksSingle(link: string)
    ensures CanonicalLinks([link]) == if link == [] then [] else [CanonicalizeLink(link).value]
  {
    assert [link][1..] == [];
  }

  /** The canonical links of two lists of targets are those of each, in
      order: together with `CanonicalLinksSingle`, the result is the
      canonical forms of the non-empty targets, in their order. */
  lemma {:induction false} CanonicalLinksAppend(a: seq<string>, b: seq<string>)
    ensures CanonicalLinks(a + b) == CanonicalLinks(a) + CanonicalLinks(b)
    decreases |a|
  {
    if a != [] {
      assert (a + b)[0] == a[0];
      assert (a + b)[1..] == a[1..] + b;
      CanonicalLinksAppend(a[1..], b);
    } else {
      assert a + b == b;
    }
  }

  /** A title is among the canonical links exactly when it canonicalizes
      some original target. */
  lemma {:induction false} CanonicalLinksMembers(links: seq<string>, x: string)
    ensures x in CanonicalLinks(links) <==> exists l :: l in links && CanonicalizeLink(l) == Some(x)
    decreases |links|
  {
    if links != [] {
      CanonicalLinksMembers(links[1..], x);
      assert links == [links[0]] + links[1..];
      assert forall l :: l in links <==> l == links[0] || l in links[1..];
    }
  }

  /** Without empty targets nothing is dropped: position by position, the
      canonical links are the canonicalized targets. */
  lemma {:induction false} CanonicalLinksKeepPositions(links: seq<string>)
    requires forall i :: 0 <= i < |links| ==> links[i] != []
    ensures |CanonicalLinks(links)| == |links|
    ensures forall i :: 0 <= i < |links| ==> Some(CanonicalLinks(links)[i]) == CanonicalizeLink(links[i])
    decreases |links|
  {
    if links != [] {
      assert forall i :: 0 <= i < |links[1..]| ==> links[1..][i] == links[i + 1];
      CanonicalLinksKeepPositions(links[1..]);
    }
  }

  /** What one page contributes to the graph. `ScanPanic` stands for the
      panic of the link scanner, which ends the whole program. */
  datatype Route = Ignored | Adjacency(node: string, links: seq<string>) | RedirectRecord(node: string, target: string) | ScanPanic

  /** The routing of a page whose text scanned to `tokens`. */
  function RouteTokens(title: string, tokens: seq<LinkOrRedirect>): (r: Route)
    ensures r.Adjacency? <==> !IsRedirect(tokens)
    ensures r.Adjacency? ==> r.node == title && r.links == CanonicalLinks(LinkedArticles(tokens))
    ensures r.RedirectRecord? <==> IsRedirect(tokens) && RedirectsTo(tokens).value != []
    ensures r.RedirectRecord? ==> r.node == title && Some(r.target) == CanonicalizeLink(RedirectsTo(tokens).value)
    ensures !r.ScanPanic?
  {
    if !IsRedirect(tokens) then Adjacency(title, CanonicalLinks(LinkedArticles(tokens)))
    else
      match CanonicalizeLink(RedirectsTo(tokens).value)
      case Some(target) => RedirectRecord(title, target)
      case None => Ignored
  }

  /** The routing of `process_page`: only pages of namespace 0 with a text
      count; the scan decides between node and redirect. */
  function RouteOf(page: WikiXmlDump.WikiPage): (r: Route)
    ensures page.namespaceId != 0 || page.text.None? ==> r == Ignored
    ensures r.ScanPanic? <==> page.namespaceId == 0 && page.text.Some? && ScanFrom(page.text.value, 0).Failure?
    ensures r.Adjacency? ==> r.node == page.title
    ensures r.RedirectRecord? ==> r.node == page.title && r.target != []
  {
    if page.namespaceId != 0 || page.text.None? then Ignored
    else
      match ScanFrom(page.text.value, 0)
      case Failure(_) => ScanPanic
      case Success(tokens) => RouteTokens(page.title, tokens)
  }

  /** A node lists a title exactly when one of the page's links
      canonicalizes to it. */
  lemma AdjacencyMembers(title: string, tokens: seq<LinkOrRedirect>, x: string)
    requires RouteTokens(title, tokens).Adjacency?
    ensures x in RouteTokens(title, tokens).links <==> exists l :: Link(l) in tokens && CanonicalizeLink(l) == Some(x)
  {
    CanonicalLinksMembers(LinkedArticles(tokens), x);
    forall l
      ensures l in LinkedArticles(tokens) <==> Link(l) in tokens
    {
      LinkedArticlesMembers(tokens, l);
    }
  }

  /** A redirect page records the canonical target of its first redirect,
      whatever redirects follow it. */
  lemma RedirectRecordIsFirst(title: string, tokens: seq<LinkOrRedirect>, k: nat)
    requires k < |tokens| && tokens[k].IsRedirect() && tokens[k].target != []
    requires forall j :: 0 <= j < k ==> !tokens[j].IsRedirect()
    ensures RouteTokens(title, tokens) == RedirectRecord(title, CanonicalizeLink(tokens[k].target).value)
  {
    RedirectsToFirst(tokens, k);
  }

  /** The two maps `process_page` fills. */
  datatype Graph = Graph(network: Network, redirects: Redirects)

  /** The maps after one routed page: a node overwrites the entry of its
      title in `network`, a redirect that of its title in `redirects`. */
  function Insert(g: Graph, route: Route): (h: Graph)
    ensures route.Adjacency? ==> h.network.Keys == g.network.Keys + {route.node} && h.redirects == g.redirects
    ensures route.RedirectRecord? ==> h.redirects.Keys == g.redirects.Keys + {route.node} && h.network == g.network
    ensures !route.Adjacency? && !route.RedirectRecord? ==> h == g
  {
    match route
    case Adjacency(node, links) => Graph(g.network[node := links], g.redirects)
    case RedirectRecord(node, target) => Graph(g.network, g.redirects[node := target])
    case _ => g
  }

  /** `process_page`: the maps are the source's `&mut` arguments. */
  method ProcessPage(g: Graph, page: WikiXmlDump.WikiPage) returns (r: Result<Graph, ScanError>)
    ensures r.Failure? <==> RouteOf(page).ScanPanic?
    ensures RouteOf(page).Ignored? ==> r == Success(g)
    ensures RouteOf(page).Adjacency? ==>
      r == Success(Graph(g.network[page.title := RouteOf(page).links], g.redirects))
    ensures RouteOf(page).RedirectRecord? ==>
      r == Success(Graph(g.network, g.redirects[page.title := RouteOf(page).target]))
    ensures r.Success? ==> r.value == Insert(g, RouteOf(page))
  {
    if page.namespaceId != 0 {
      return Success(g);
    }
    var links := ParseText(page);
    if links.None? {
      return Success(g);
    }
    match links.value
    case Failure(e) =>
      return Failure(e);
    case Success(tokens) =>
      if !IsRedirect(tokens) {
        return Success(Graph(g.network[page.title := CanonicalLinks(LinkedArticles(tokens))], g.redirects));
      }
      var redirect := RedirectsTo(tokens);
      var target := if redirect.Some? then CanonicalizeLink(redirect.value) else None;
      if target.Some? {
        return Success(Graph(g.network, g.redirects[page.title := target.value]));
      }
      return Success(g);
  }

  /** The maps after the pages, processed in order; the first page whose
      scan panics ends everything. */
  function Collect(pages: seq<WikiXmlDump.WikiPage>, g: Graph): Result<Graph, ScanError>
  {
    if pages == [] then Success(g)
    else if RouteOf(pages[0]).ScanPanic? then Failure(RedirectPastEnd)
    else Collect(pages[1..], Insert(g, RouteOf(pages[0])))
  }

  /** The nodes after processing are the nodes before and the titles of
      the pages routed as nodes. */
  lemma {:induction false} CollectNodes(pages: seq<WikiXmlDump.WikiPage>, g: Graph, title: string)
    requires Collect(pages, g).Success?
    ensures title in Collect(pages, g).value.network <==>
      title in g.network || exists i :: 0 <= i < |pages| && RouteOf(pages[i]).Adjacency? && pages[i].title == title
    decreases |pages|
  {
    if pages != [] {
      CollectNodes(pages[1..], Insert(g, RouteOf(pages[0])), title);
      assert forall i :: 1 <= i < |pages| ==> pages[i] == pages[1..][i - 1];
      assert forall i :: 0 <= i < |pages| - 1 ==> pages[1..][i] == pages[i + 1];
    }
  }

  /** A later page with the same title replaces the entry of an earlier one:
      the maps end as if only the last page of each title were processed
      last, so the entry of the last page routed as a node is kept when no
      later page is. */
  lemma {:induction false} CollectLastNodeWins(pages: seq<WikiXmlDump.WikiPage>, g: Graph, k: nat)
    requires Collect(pages, g).Success?
    requires k < |pages| && RouteOf(pages[k]).Adjacency?
    requires forall j :: k < j < |pages| ==> !(RouteOf(pages[j]).Adjacency? && pages[j].title == pages[k].title)
    ensures pages[k].title in Collect(pages, g).value.network
    ensures Collect(pages, g).value.network[pages[k].title] == RouteOf(pages[k]).links
    decreases |pages|
  {
    var h := Insert(g, RouteOf(pages[0]));
    if k == 0 {
      KeepsNode(pages[1..], h, pages[0].title);
    } else {
      assert forall j :: k - 1 < j < |pages| - 1 ==> pages[1..][j] == pages[j + 1];
      CollectLastNodeWins(pages[1..], h, k - 1);
    }
  }

  /** Pages that are not nodes of `title` leave its entry alone. */
  lemma {:induction false} KeepsNode(pages: seq<WikiXmlDump.WikiPage>, g: Graph, title: string)
    requires Collect(pages, g).Success? && title in g.network
    requires forall j :: 0 <= j < |pages| ==> !(RouteOf(pages[j]).Adjacency? && pages[j].title == title)
    ensures title in Collect(pages, g).value.network
    ensures Collect(pages, g).value.network[title] == g.network[title]
    decreases |pages|
  {
    if pages != [] {
      assert forall j :: 0 <= j < |pages| - 1 ==> pages[1..][j] == pages[j + 1];
      KeepsNode(pages[1..], Insert(g, RouteOf(pages[0])), title);
    }
  }

  /** One hop along the redirects: a title that is not a redirect stays. */
  function Hop(redirects: Redirects, t: string): string
  {
    if t in redirects then redirects[t] else t
  }

  /** The title reached after `n` hops from `t`. */
  function Chase(redirects: Redirects, t: string, n: nat): string
  {
    if n == 0 then t else Hop(redirects, Chase(redirects, t, n - 1))
  }

  /** Where `close_redirects` stops following a chain: a title that is
      not a redirect or that redirects to itself. */
  predicate Settled(redirects: Redirects, t: string)
  {
    t !in redirects || redirects[t] == t
  }

  /** Following the redirects from `t` reaches a settled title. */
  ghost predicate Reaches(redirects: Redirects, t: string)
  {
    exists n: nat :: Settled(redirects, Chase(redirects, t, n))
  }

  /** Every chain settles: the condition under which `close_redirects`
      terminates (a cycle of two or more titles makes it loop forever). */
  ghost predicate ChainsSettle(redirects: Redirects)
  {
    forall link :: link in redirects ==> Reaches(redirects, redirects[link])
  }

  lemma {:induction false} SettledStays(redirects: Redirects, t: string, n: nat, m: nat)
    requires n <= m && Settled(redirects, Chase(redirects, t, n))
    ensures Chase(redirects, t, m) == Chase(redirects, t, n)
    decreases m
  {
    if m > n {
      SettledStays(redirects, t, n, m - 1);
    }
  }

  /** The settled title a chain reaches. */
  ghost function Terminal(redirects: Redirects, t: string): (u: string)
    requires Reaches(redirects, t)
    ensures Settled(redirects, u)
  {
    var n: nat :| Settled(redirects, Chase(redirects, t, n));
    Chase(redirects, t, n)
  }

  /** Every settled title on the chain is the same one: whichever number
      of hops reaches a settled title, it is `Terminal`. */
  lemma TerminalIsEverySettledPoint(redirects: Redirects, t: string, n: nat)
    requires Settled(redirects, Chase(redirects, t, n))
    ensures Reaches(redirects, t) && Terminal(redirects, t) == Chase(redirects, t, n)
  {
    var m: nat :| Settled(redirects, Chase(redirects, t, m)) && Terminal(redirects, t) == Chase(redirects, t, m);
    if n <= m {
      SettledStays(redirects, t, n, m);
    } else {
      SettledStays(redirects, t, m, n);
    }
  }

  /** The map `close_redirects` builds: every redirect to the end of its
      chain. */
  ghost function Close(redirects: Redirects): (closed: Redirects)
    requires ChainsSettle(redirects)
    ensures closed.Keys == redirects.Keys
    ensures forall link :: link in closed ==> Settled(redirects, closed[link])
  {
    map link | link in redirects :: Terminal(redirects, redirects[link])
  }

  /** `close_redirects`: for every redirect, follow the chain from its
      target until a title is not a redirect or redirects to itself. */
  method CloseRedirects(redirects: Redirects) returns (resolved: Redirects)
    requires ChainsSettle(redirects)
    ensures resolved == Close(redirects)
  {
    resolved := map[];
    var remaining := redirects.Keys;
    while remaining != {}
      invariant remaining <= redirects.Keys
      invariant resolved.Keys == redirects.Keys - remaining
      invariant forall link :: link in resolved ==> resolved[link] == Terminal(redirects, redirects[link])
      decreases |remaining|
    {
      var link :| link in remaining;
      var target := redirects[link];
      ghost var hops: nat := 0;
      ghost var bound: nat :| Settled(redirects, Chase(redirects, redirects[link], bound));
      while target in redirects
        invariant target == Chase(redirects, redirects[link], hops)
        invariant hops <= bound
        decreases bound - hops
      {
        var newTarget := redirects[target];
        if newTarget == target {
          break;
        }
        if hops == bound {
          assert false;
        }
        hops := hops + 1;
        target := newTarget;
      }
      TerminalIsEverySettledPoint(redirects, redirects[link], hops);
      resolved := resolved[link := target];
      remaining := remaining - {link};
    }
  }

  /** Two pages redirecting to each other: the chain never settles, so
      `close_redirects` does not terminate on this map. */
  lemma TwoCycleNeverSettles(n: nat)
    ensures !Settled(map["A" := "B", "B" := "A"], Chase(map["A" := "B", "B" := "A"], "B", n))
  {
    AlternatingChase(n);
  }

  lemma {:induction false} AlternatingChase(n: nat)
    ensures Chase(map["A" := "B", "B" := "A"], "B", n) == if n % 2 == 0 then "B" else "A"
  {
    if n > 0 {
      AlternatingChase(n - 1);
    }
  }

  /** A page that redirects to itself stops the chain at once. */
  lemma SelfRedirectSettles()
    ensures ChainsSettle(map["A" := "A"])
    ensures Close(map["A" := "A"]) == map["A" := "A"]
  {
    var r := map["A" := "A"];
    assert Settled(r, Chase(r, r["A"], 0));
    TerminalIsEverySettledPoint(r, "A", 0);
  }

  /** A link after one lookup in the closed redirects. */
  function Lookup(redirects: Redirects, link: string): string
  {
    if link in redirects then redirects[link] else link
  }

  /** The links of one node after `resolve_redirects`. */
  function ResolveLinks(redirects: Redirects, links: seq<string>): (out: seq<string>)
    ensures |out| == |links|
    ensures forall i :: 0 <= i < |links| ==> out[i] == Lookup(redirects, links[i])
  {
    if links == [] then [] else [Lookup(redirects, links[0])] + ResolveLinks(redirects, links[1..])
  }

  /** The network after `resolve_redirects`: same nodes, same lengths. */
  function Resolved(network: Network, redirects: Redirects): (out: Network)
    ensures out.Keys == network.Keys
    ensures forall node :: node in out ==> out[node] == ResolveLinks(redirects, network[node])
  {
    map node | node in network :: ResolveLinks(redirects, network[node])
  }

  /** The inner loop of `resolve_redirects`: each link of one node that
      is a redirect is overwritten, in place, by its target. */
  method ResolveLinksInPlace(links: seq<string>, redirects: Redirects) returns (out: seq<string>)
    ensures out == ResolveLinks(redirects, links)
  {
    out := links;
    var i := 0;
    while i < |out|
      invariant i <= |out| == |links|
      invariant forall j :: 0 <= j < i ==> out[j] == Lookup(redirects, links[j])
      invariant forall j :: i <= j < |out| ==> out[j] == links[j]
      decreases |out| - i
    {
      if out[i] in redirects {
        out := out[i := redirects[out[i]]];
      }
      i := i + 1;
    }
  }

  /** `resolve_redirects`: the links of every node, resolved in place. */
  method ResolveRedirects(network: Network, redirects: Redirects) returns (out: Network)
    ensures out == Resolved(network, redirects)
  {
    out := network;
    var remaining := network.Keys;
    while remaining != {}
      invariant remaining <= network.Keys && out.Keys == network.Keys
      invariant forall node :: node in remaining ==> out[node] == network[node]
      invariant forall node :: node in out && node !in remaining ==> out[node] == ResolveLinks(redirects, network[node])
      decreases |remaining|
    {
      var node :| node in remaining;
      var links := ResolveLinksInPlace(out[node], redirects);
      out := out[node := links];
      remaining := remaining - {node};
    }
    ghost var expected := Resolved(network, redirects);
    assert forall node :: node in out ==> out[node] == expected[node];
  }

  /** After lookup in the closed map, no link is the start of a chain that
      goes anywhere else. */
  lemma ResolvedLinksSettle(network: Network, redirects: Redirects, node: string, i: nat)
    requires ChainsSettle(redirects) && node in network && i < |network[node]|
    ensures Settled(redirects, Resolved(network, Close(redirects))[node][i])
  {
  }

  /** The links of a node that are themselves nodes, order kept. */
  function KeepNodes(links: seq<string>, nodes: set<string>): (kept: seq<string>)
    ensures forall x :: x in kept <==> x in links && x in nodes
    ensures forall x :: multiset(kept)[x] == if x in nodes then multiset(links)[x] else 0
  {
    if links == [] then []
    else
      assert links == [links[0]] + links[1..];
      if links[0] in nodes then [links[0]] + KeepNodes(links[1..], nodes)
      else KeepNodes(links[1..], nodes)
  }

  lemma {:induction false} KeepNodesSubsequence(links: seq<string>, nodes: set<string>)
    ensures Subsequence(KeepNodes(links, nodes), links)
    decreases |links|
  {
    if links != [] {
      KeepNodesSubsequence(links[1..], nodes);
    }
  }

  /** `remove_dangling_links`: every node keeps, in order, the links that
      are nodes. */
  function RemoveDanglingLinks(network: Network): (out: Network)
    ensures out.Keys == network.Keys
    ensures forall node, x :: node in out && x in out[node] ==> x in network[node] && x in out
    ensures forall node, x :: node in out ==>
      multiset(out[node])[x] == if x in network then multiset(network[node])[x] else 0
  {
    map node | node in network :: KeepNodes(network[node], network.Keys)
  }

  /** No link is lost that points at a node: every occurrence of it
      remains. */
  lemma RemoveDanglingKeepsNodeLinks(network: Network, node: string, x: string)
    requires node in network && x in network[node] && x in network
    ensures x in RemoveDanglingLinks(network)[node]
    ensures multiset(RemoveDanglingLinks(network)[node])[x] == multiset(network[node])[x]
  {
  }

  lemma RemoveDanglingLinksOrder(network: Network, node: string)
    requires node in network
    ensures Subsequence(RemoveDanglingLinks(network)[node], network[node])
  {
    KeepNodesSubsequence(network[node], network.Keys);
  }

  /** `remove_redirects`. */
  method RemoveRedirects(network: Network, redirects: Redirects) returns (out: Network)
    requires ChainsSettle(redirects)
    ensures out == RemoveDanglingLinks(Resolved(network, Close(redirects)))
    ensures out.Keys == network.Keys
  {
    var closed := CloseRedirects(redirects);
    var resolved := ResolveRedirects(network, closed);
    out := RemoveDanglingLinks(resolved);
  }

  /** One page of the iteration: a complete page is followed by the pages
      after it. */
  lemma PagesStep(events: seq<XmlEvents.Event>, pos: nat)
    requires pos <= |events| && WikiXmlDump.PageOf(XmlEvents.Window(events, pos)).Some?
    ensures XmlEvents.Resume(events, pos) > pos
    ensures WikiXmlDump.Pages(events, pos) ==
      [WikiXmlDump.PageOf(XmlEvents.Window(events, pos)).value] + WikiXmlDump.Pages(events, XmlEvents.Resume(events, pos))
  {
    assert XmlEvents.Window(events, pos) != [];
  }

  lemma CollectStep(pages: seq<WikiXmlDump.WikiPage>, g: Graph)
    requires pages != []
    ensures RouteOf(pages[0]).ScanPanic? ==> Collect(pages, g) == Failure(RedirectPastEnd)
    ensures !RouteOf(pages[0]).ScanPanic? ==> Collect(pages, g) == Collect(pages[1..], Insert(g, RouteOf(pages[0])))
  {
  }

  /** The graph of the sequential `generate_network`, or the scan panic. */
  ghost function Generated(pages: seq<WikiXmlDump.WikiPage>): Result<Network, ScanError>
    requires Collect(pages, Graph(map[], map[])).Success? ==>
      ChainsSettle(Collect(pages, Graph(map[], map[])).value.redirects)
  {
    match Collect(pages, Graph(map[], map[]))
    case Failure(e) => Failure(e)
    case Success(g) => Success(RemoveDanglingLinks(Resolved(g.network, Close(g.redirects))))
  }

  /** `generate_network`: process the pages the dump reader yields, in
      order, then resolve the redirects. */
  method GenerateNetwork(events: seq<XmlEvents.Event>) returns (r: Result<Network, ScanError>)
    requires var c := Collect(WikiXmlDump.Pages(events, 0), Graph(map[], map[]));
      c.Success? ==> ChainsSettle(c.value.redirects)
    ensures r == Generated(WikiXmlDump.Pages(events, 0))
  {
    var pages := new WikiXmlDump.WikiXmlDump(events);
    var g := Graph(map[], map[]);
    while true
      invariant pages.Valid() && pages.events == events
      invariant Collect(WikiXmlDump.Pages(events, 0), Graph(map[], map[])) == Collect(WikiXmlDump.Pages(events, pages.pos), g)
      decreases |events| - pages.pos
    {
      ghost var pos := pages.pos;
      var page := pages.Next();
      if page.None? {
        assert WikiXmlDump.Pages(events, pos) == [];
        break;
      }
      PagesStep(events, pos);
      var rest := WikiXmlDump.Pages(events, pages.pos);
      assert ([page.value] + rest)[1..] == rest;
      var processed := ProcessPage(g, page.value);
      CollectStep([page.value] + rest, g);
      assert WikiXmlDump.Pages(events, pos) == [page.value] + rest;
      if processed.Failure? {
        assert Collect([page.value] + rest, g) == Failure(RedirectPastEnd);
        assert Collect(WikiXmlDump.Pages(events, 0), Graph(map[], map[])) == Failure(RedirectPastEnd);
        assert Generated(WikiXmlDump.Pages(events, 0)) == Failure(RedirectPastEnd);
        assert processed.error == RedirectPastEnd;
        return Failure(processed.error);
      }
      g := processed.value;
    }
    var network := RemoveRedirects(g.network, g.redirects);
    r := Success(network);
  }

  /** Every link of the generated graph is itself a node. */
  lemma GeneratedLinksAreNodes(g: Graph, node: string, x: string)
    requires ChainsSettle(g.redirects)
    requires node in RemoveDanglingLinks(Resolved(g.network, Close(g.redirects)))
    requires x in RemoveDanglingLinks(Resolved(g.network, Close(g.redirects)))[node]
    ensures x in RemoveDanglingLinks(Resolved(g.network, Close(g.redirects)))
  {
  }
}
