/** The `generate_network` of the first version of the program: every page
    the title/text reader yields becomes a node whose links are the targets
    the worklist collector finds in the parsed page text. The markup parser
    itself is a parameter of the model. */
module PageNetwork {
  import opened Wrappers
  import opened XmlEvents
  import opened MarkupLinks
  import WikiPages

  type Network = map<string, seq<string>>

  /** The node tree a markup parser makes of a page text. */
  type Parser = string -> seq<Node>

  /** `linked_articles`: parse the text, then collect the link targets. */
  method LinkedArticles(parse: Parser, page: WikiPages.WikiPage) returns (links: seq<string>)
    ensures links == Targets(parse(page.text))
  {
    links := FilterLinks(parse(page.text));
  }

  /** The map after inserting the pages in order: a later page with the same
      title overwrites the earlier entry. */
  function Adjacency(parse: Parser, pages: seq<WikiPages.WikiPage>): Network
  {
    if pages == [] then map[]
    else
      var last := pages[|pages| - 1];
      Adjacency(parse, pages[..|pages| - 1])[last.title := Targets(parse(last.text))]
  }

  /** The titles of a page sequence. */
  function Titles(pages: seq<WikiPages.WikiPage>): set<string>
  {
    set p | p in pages :: p.title
  }

  /** `generate_network`: one insert per page the reader yields. */
  method GenerateNetwork(parse: Parser, events: seq<Event>) returns (adjacency: Network)
    ensures adjacency == Adjacency(parse, WikiPages.Pages(events, 0))
    ensures WikiPages.Pages(events, 0) == [] ==> adjacency == map[]
  {
    var pages := new WikiPages.WikiPages(events);
    adjacency := map[];
    ghost var done: seq<WikiPages.WikiPage> := [];
    while true
      invariant pages.Valid() && pages.events == events
      invariant WikiPages.Pages(events, 0) == done + WikiPages.Pages(events, pages.pos)
      invariant adjacency == Adjacency(parse, done)
      decreases |events| - pages.pos
    {
      ghost var pos := pages.pos;
      var page := pages.Next();
      if page.None? {
        assert WikiPages.Pages(events, pos) == [];
        assert done + [] == done;
        break;
      }
      PagesStep(events, pos, done);
      var links := LinkedArticles(parse, page.value);
      adjacency := adjacency[page.value.title := links];
      AdjacencyStep(parse, done, page.value);
      done := done + [page.value];
    }
  }

  lemma AdjacencyStep(parse: Parser, done: seq<WikiPages.WikiPage>, page: WikiPages.WikiPage)
    ensures Adjacency(parse, done + [page]) == Adjacency(parse, done)[page.title := Targets(parse(page.text))]
  {
    assert (done + [page])[..|done|] == done;
  }

  /** A page read extends the pages already inserted by the one just read. */
  lemma PagesStep(events: seq<Event>, pos: nat, done: seq<WikiPages.WikiPage>)
    requires pos <= |events| && WikiPages.PageOf(Window(events, pos)).Some?
    ensures Resume(events, pos) > pos
    ensures done + WikiPages.Pages(events, pos) ==
      (done + [WikiPages.PageOf(Window(events, pos)).value]) + WikiPages.Pages(events, Resume(events, pos))
  {
    assert Window(events, pos) != [];
  }

  /** The nodes are exactly the titles of the pages: targets that are no
      page's title are not nodes. */
  lemma {:induction false} AdjacencyKeys(parse: Parser, pages: seq<WikiPages.WikiPage>)
    ensures Adjacency(parse, pages).Keys == Titles(pages)
  {
    if pages != [] {
      var init := pages[..|pages| - 1];
      AdjacencyKeys(parse, init);
      assert pages == init + [pages[|pages| - 1]];
      assert Titles(pages) == Titles(init) + {pages[|pages| - 1].title};
    }
  }

  /** A title's links are those of the last page with that title, exactly as
      collected: no redirect resolution and no dangling-link removal. */
  lemma {:induction false} LastPageWins(parse: Parser, pages: seq<WikiPages.WikiPage>, i: nat)
    requires i < |pages|
    requires forall j :: i < j < |pages| ==> pages[j].title != pages[i].title
    ensures pages[i].title in Adjacency(parse, pages)
    ensures Adjacency(parse, pages)[pages[i].title] == Targets(parse(pages[i].text))
  {
    if i < |pages| - 1 {
      var init := pages[..|pages| - 1];
      assert init[i] == pages[i];
      LastPageWins(parse, init, i);
    }
  }

  /** A link to a title that no page has stays in the map. */
  lemma DanglingLinkKept(parse: Parser, page: WikiPages.WikiPage)
    requires page.title == "A" && parse(page.text) == [Link("B", [])]
    ensures Adjacency(parse, [page]) == map["A" := ["B"]]
  {
    var q := [Link("B", [])];
    assert q[1..] + Children(q[0]) == [];
    assert Targets(q) == ["B"];
  }
}
