/** The link collector of the first version of the program: a first-in
    first-out worklist over the node tree of a parsed page that gathers the
    targets of links and redirects. The parser itself is foreign; its output
    is the `Node` tree below, restricted to the kinds the collector
    distinguishes. */
module MarkupLinks {

  /** The node kinds the collector matches. Every other kind is `Other`,
      whose children the collector never visits; the text of a link is kept
      to show that it is not visited either. */
  datatype Node =
    | Category(ordinal: seq<Node>)
    | DefinitionList(items: seq<ListItem>)
    | Heading(nodes: seq<Node>)
    | Image(text: seq<Node>)
    | Link(target: string, text: seq<Node>)
    | OrderedList(items: seq<ListItem>)
    | Preformatted(nodes: seq<Node>)
    | Redirect(target: string)
    | Table(attributes: seq<Node>, rows: seq<TableRow>)
    | Tag(nodes: seq<Node>)
    | UnorderedList(items: seq<ListItem>)
    | Other(children: seq<Node>)

  /** An item of a definition, ordered or unordered list. */
  datatype ListItem = ListItem(nodes: seq<Node>)

  datatype TableRow = TableRow(attributes: seq<Node>, cells: seq<TableCell>)

  datatype TableCell = TableCell(content: seq<Node>)

  /** Number of nodes in a tree, counting everything the tree holds. */
  function Size(n: Node): (size: nat)
    ensures size >= 1
  {
    match n
    case Category(ordinal) => 1 + ListSize(ordinal)
    case DefinitionList(items) => 1 + ItemsSize(items)
    case Heading(nodes) => 1 + ListSize(nodes)
    case Image(text) => 1 + ListSize(text)
    case Link(_, text) => 1 + ListSize(text)
    case OrderedList(items) => 1 + ItemsSize(items)
    case Preformatted(nodes) => 1 + ListSize(nodes)
    case Redirect(_) => 1
    case Table(attributes, rows) => 1 + ListSize(attributes) + RowsSize(rows)
    case Tag(nodes) => 1 + ListSize(nodes)
    case UnorderedList(items) => 1 + ItemsSize(items)
    case Other(children) => 1 + ListSize(children)
  }

  function ListSize(s: seq<Node>): nat
  {
    if s == [] then 0 else ListSize(s[..|s| - 1]) + Size(s[|s| - 1])
  }

  function ItemsSize(items: seq<ListItem>): nat
  {
    if items == [] then 0 else ItemsSize(items[..|items| - 1]) + ListSize(items[|items| - 1].nodes)
  }

  function RowsSize(rows: seq<TableRow>): nat
  {
    if rows == [] then 0
    else RowsSize(rows[..|rows| - 1]) + ListSize(rows[|rows| - 1].attributes) + CellsSize(rows[|rows| - 1].cells)
  }

  function CellsSize(cells: seq<TableCell>): nat
  {
    if cells == [] then 0 else CellsSize(cells[..|cells| - 1]) + ListSize(cells[|cells| - 1].content)
  }

  lemma {:induction false} ListSizeAppend(a: seq<Node>, b: seq<Node>)
    ensures ListSize(a + b) == ListSize(a) + ListSize(b)
    decreases |b|
  {
    if b == [] {
      assert a + b == a;
    } else {
      assert (a + b)[..|a + b| - 1] == a + b[..|b| - 1];
      ListSizeAppend(a, b[..|b| - 1]);
    }
  }

  /** The nodes of the items, in order. */
  function ItemNodes(items: seq<ListItem>): seq<Node>
  {
    if items == [] then [] else ItemNodes(items[..|items| - 1]) + items[|items| - 1].nodes
  }

  /** The contents of the cells, in order. */
  function CellNodes(cells: seq<TableCell>): seq<Node>
  {
    if cells == [] then [] else CellNodes(cells[..|cells| - 1]) + cells[|cells| - 1].content
  }

  /** Row by row: the row's attributes, then the contents of its cells. */
  function RowNodes(rows: seq<TableRow>): seq<Node>
  {
    if rows == [] then []
    else RowNodes(rows[..|rows| - 1]) + rows[|rows| - 1].attributes + CellNodes(rows[|rows| - 1].cells)
  }

  /** The nodes the collector appends to the worklist for `n`. */
  function Children(n: Node): seq<Node>
  {
    match n
    case Category(ordinal) => ordinal
    case DefinitionList(items) => ItemNodes(items)
    case Heading(nodes) => nodes
    case Image(text) => text
    case OrderedList(items) => ItemNodes(items)
    case Preformatted(nodes) => nodes
    case Table(attributes, rows) => attributes + RowNodes(rows)
    case Tag(nodes) => nodes
    case UnorderedList(items) => ItemNodes(items)
    case _ => []
  }

  /** The target `n` contributes itself: links and redirects alike. */
  function Own(n: Node): seq<string>
  {
    match n
    case Link(target, _) => [target]
    case Redirect(target) => [target]
    case _ => []
  }

  lemma {:induction false} ItemNodesSize(items: seq<ListItem>)
    ensures ListSize(ItemNodes(items)) == ItemsSize(items)
    decreases |items|
  {
    if items != [] {
      ItemNodesSize(items[..|items| - 1]);
      ListSizeAppend(ItemNodes(items[..|items| - 1]), items[|items| - 1].nodes);
    }
  }

  lemma {:induction false} CellNodesSize(cells: seq<TableCell>)
    ensures ListSize(CellNodes(cells)) == CellsSize(cells)
    decreases |cells|
  {
    if cells != [] {
      CellNodesSize(cells[..|cells| - 1]);
      ListSizeAppend(CellNodes(cells[..|cells| - 1]), cells[|cells| - 1].content);
    }
  }

  lemma {:induction false} RowNodesSize(rows: seq<TableRow>)
    ensures ListSize(RowNodes(rows)) == RowsSize(rows)
    decreases |rows|
  {
    if rows != [] {
      var last := rows[|rows| - 1];
      RowNodesSize(rows[..|rows| - 1]);
      CellNodesSize(last.cells);
      ListSizeAppend(RowNodes(rows[..|rows| - 1]), last.attributes);
      ListSizeAppend(RowNodes(rows[..|rows| - 1]) + last.attributes, CellNodes(last.cells));
    }
  }

  /** Expanding a node replaces it by strictly fewer nodes: the reason the
      worklist empties. */
  lemma ChildrenSmaller(n: Node)
    ensures ListSize(Children(n)) < Size(n)
  {
    match n
    case DefinitionList(items) => ItemNodesSize(items);
    case OrderedList(items) => ItemNodesSize(items);
    case UnorderedList(items) => ItemNodesSize(items);
    case Table(attributes, rows) =>
      RowNodesSize(rows);
      ListSizeAppend(attributes, RowNodes(rows));
    case _ =>
  }

  /** Popping the front node and appending its children shrinks the
      worklist. */
  lemma QueueShrinks(queue: seq<Node>)
    requires queue != []
    ensures ListSize(queue[1..] + Children(queue[0])) < ListSize(queue)
  {
    ListSizeAppend([queue[0]], queue[1..]);
    assert [queue[0]] + queue[1..] == queue;
    assert [queue[0]][..0] == [];
    ListSizeAppend(queue[1..], Children(queue[0]));
    ChildrenSmaller(queue[0]);
  }

  /** The targets the collector gathers from a worklist: the front node's
      own target, then those of the worklist with the front node replaced
      by its children at the back. */
  function Targets(queue: seq<Node>): seq<string>
    decreases ListSize(queue)
  {
    if queue == [] then []
    else
      QueueShrinks(queue);
      Own(queue[0]) + Targets(queue[1..] + Children(queue[0]))
  }

  /** The worklist appends of one list node: the items' nodes in order. */
  method AppendItems(queue: seq<Node>, items: seq<ListItem>) returns (out: seq<Node>)
    ensures out == queue + ItemNodes(items)
  {
    out := queue;
    for i := 0 to |items|
      invariant out == queue + ItemNodes(items[..i])
    {
      assert items[..i + 1][..i] == items[..i];
      out := out + items[i].nodes;
    }
    assert items[..|items|] == items;
  }

  /** The worklist appends of one table: each row's attributes, then its
      cells' contents. */
  method AppendRows(queue: seq<Node>, rows: seq<TableRow>) returns (out: seq<Node>)
    ensures out == queue + RowNodes(rows)
  {
    out := queue;
    for i := 0 to |rows|
      invariant out == queue + RowNodes(rows[..i])
    {
      assert rows[..i + 1][..i] == rows[..i];
      var row := rows[i];
      out := out + row.attributes;
      ghost var rowStart := out;
      for j := 0 to |row.cells|
        invariant out == rowStart + CellNodes(row.cells[..j])
      {
        assert row.cells[..j + 1][..j] == row.cells[..j];
        out := out + row.cells[j].content;
      }
      assert row.cells[..|row.cells|] == row.cells;
    }
    assert rows[..|rows|] == rows;
  }

  /** One pass of the collector's loop body on a popped node: a link or
      redirect contributes its target, a container appends its children at
      the back of the worklist. */
  method Expand(node: Node, rest: seq<Node>, found: seq<string>) returns (queue: seq<Node>, links: seq<string>)
    ensures queue == rest + Children(node) && links == found + Own(node)
  {
    queue, links := rest, found;
    match node {
      case Category(ordinal) =>
        queue := queue + ordinal;
      case DefinitionList(items) =>
        queue := AppendItems(queue, items);
      case Heading(headingNodes) =>
        queue := queue + headingNodes;
      case Image(text) =>
        queue := queue + text;
      case Link(target, _) =>
        links := links + [target];
      case OrderedList(items) =>
        queue := AppendItems(queue, items);
      case Preformatted(preNodes) =>
        queue := queue + preNodes;
      case Redirect(target) =>
        links := links + [target];
      case Table(attributes, rows) =>
        queue := queue + attributes;
        queue := AppendRows(queue, rows);
      case Tag(tagNodes) =>
        queue := queue + tagNodes;
      case UnorderedList(items) =>
        queue := AppendItems(queue, items);
      case Other(_) =>
    }
    ExpansionStep(node, rest, queue, found, links);
  }

  /** `filter_links` (both versions: one returns owned strings, the other
      borrows them from the tree): breadth first over a worklist that starts
      as the parsed nodes. */
  method FilterLinks(nodes: seq<Node>) returns (links: seq<string>)
    ensures links == Targets(nodes)
  {
    var queue := nodes;
    links := [];
    while queue != []
      invariant Targets(nodes) == links + Targets(queue)
      decreases ListSize(queue)
    {
      TargetsStep(queue);
      var node := queue[0];
      queue, links := Expand(node, queue[1..], links);
    }
    assert links + [] == links;
  }

  lemma TargetsStep(queue: seq<Node>)
    requires queue != []
    ensures Targets(queue) == Own(queue[0]) + Targets(queue[1..] + Children(queue[0]))
    ensures ListSize(queue[1..] + Children(queue[0])) < ListSize(queue)
  {
    QueueShrinks(queue);
  }

  /** What one pass of the loop body does to the worklist and the targets,
      case by case. */
  lemma ExpansionStep(node: Node, rest: seq<Node>, queue: seq<Node>, found: seq<string>, links: seq<string>)
    requires node.Category? ==> queue == rest + node.ordinal && links == found
    requires node.DefinitionList? || node.OrderedList? || node.UnorderedList? ==>
      queue == rest + ItemNodes(node.items) && links == found
    requires node.Heading? || node.Preformatted? || node.Tag? ==> queue == rest + node.nodes && links == found
    requires node.Image? ==> queue == rest + node.text && links == found
    requires node.Link? || node.Redirect? ==> queue == rest && links == found + [node.target]
    requires node.Table? ==> queue == rest + node.attributes + RowNodes(node.rows) && links == found
    requires node.Other? ==> queue == rest && links == found
    ensures queue == rest + Children(node) && links == found + Own(node)
  {
    if node.Table? {
      assert rest + node.attributes + RowNodes(node.rows) == rest + (node.attributes + RowNodes(node.rows));
    }
    if !node.Link? && !node.Redirect? {
      assert found + [] == found;
      if !node.Table? && !node.Category? && !node.Heading? && !node.Preformatted? && !node.Tag? && !node.Image?
        && !node.DefinitionList? && !node.OrderedList? && !node.UnorderedList? {
        assert rest + [] == rest;
      }
    }
  }

  /** The own targets of the worklist's nodes, front to back. */
  function OwnTargets(queue: seq<Node>): seq<string>
  {
    if queue == [] then [] else Own(queue[0]) + OwnTargets(queue[1..])
  }

  /** The children of the worklist's nodes, front to back: the next level. */
  function NextLevel(queue: seq<Node>): seq<Node>
  {
    if queue == [] then [] else Children(queue[0]) + NextLevel(queue[1..])
  }

  lemma {:induction false} TargetsAppend(queue: seq<Node>, later: seq<Node>)
    ensures Targets(queue + later) == OwnTargets(queue) + Targets(later + NextLevel(queue))
    decreases |queue|
  {
    if queue == [] {
      assert queue + later == later;
      assert later + [] == later;
    } else {
      var q := queue + later;
      assert q[0] == queue[0];
      assert q[1..] + Children(queue[0]) == queue[1..] + (later + Children(queue[0]));
      TargetsAppend(queue[1..], later + Children(queue[0]));
      assert later + Children(queue[0]) + NextLevel(queue[1..]) == later + NextLevel(queue);
    }
  }

  /** Breadth first: the targets of the nodes of the worklist come first,
      in order, and only then those of the next level. */
  lemma BreadthFirst(queue: seq<Node>)
    ensures Targets(queue) == OwnTargets(queue) + Targets(NextLevel(queue))
  {
    TargetsAppend(queue, []);
    assert queue + [] == queue;
    assert [] + NextLevel(queue) == NextLevel(queue);
  }

  /** Targets contributed by a tree: its own and those of the nodes its
      expansion reaches. */
  function TreeTargetCount(n: Node): nat
    decreases Size(n), 0
  {
    ChildrenSmaller(n);
    |Own(n)| + ListTargetCount(Children(n))
  }

  function ListTargetCount(s: seq<Node>): nat
    decreases ListSize(s), 1
  {
    if s == [] then 0
    else
      ListTargetCount(s[..|s| - 1]) + TreeTargetCount(s[|s| - 1])
  }

  lemma {:induction false} ListTargetCountAppend(a: seq<Node>, b: seq<Node>)
    ensures ListTargetCount(a + b) == ListTargetCount(a) + ListTargetCount(b)
    decreases |b|
  {
    if b == [] {
      assert a + b == a;
    } else {
      assert (a + b)[..|a + b| - 1] == a + b[..|b| - 1];
      ListTargetCountAppend(a, b[..|b| - 1]);
    }
  }

  /** One target per link or redirect node the traversal reaches. */
  lemma {:induction false} TargetsCount(queue: seq<Node>)
    ensures |Targets(queue)| == ListTargetCount(queue)
    decreases ListSize(queue)
  {
    if queue != [] {
      QueueShrinks(queue);
      TargetsCount(queue[1..] + Children(queue[0]));
      ListTargetCountAppend(queue[1..], Children(queue[0]));
      ListTargetCountAppend([queue[0]], queue[1..]);
      assert [queue[0]] + queue[1..] == queue;
      assert [queue[0]][..0] == [];
    }
  }

  /** A link nested in a heading is collected after a link that follows
      the heading: the order is by level, not by position in the text. */
  lemma LevelOrderExample()
    ensures Targets([Heading([Link("B", [])]), Link("A", [])]) == ["A", "B"]
  {
    var q := [Heading([Link("B", [])]), Link("A", [])];
    assert q[1..] + Children(q[0]) == [Link("A", []), Link("B", [])];
    var r := [Link("A", []), Link("B", [])];
    assert r[1..] + Children(r[0]) == [Link("B", [])];
    var u := [Link("B", [])];
    assert u[1..] + Children(u[0]) == [];
  }

  /** Links inside a link's text or inside a kind the collector does not
      match are never reached. */
  lemma UnvisitedChildrenExample()
    ensures Targets([Link("A", [Link("B", [])]), Other([Link("C", [])])]) == ["A"]
  {
    var q := [Link("A", [Link("B", [])]), Other([Link("C", [])])];
    assert q[1..] + Children(q[0]) == [Other([Link("C", [])])];
    var r := [Other([Link("C", [])])];
    assert r[1..] + Children(r[0]) == [];
  }
}
