/** The request assembler: the raw read buffer is cut into lines at CR and LF
    and the non-empty lines are chained, in buffer order, into a singly
    linked list with a head and a tail pointer. */
module Inflight {
  import opened Outcome
  import opened CStrings

  /** The characters the buffer is cut at. */
  const LineBreaks: set<char> := {'\r', '\n'}

  /** One `http_lines_t`: a line and the index of its successor node. */
  datatype Node = Node(content: string, next: Option<nat>)

  /** An `http_inflight_t`. The heap that holds the nodes is the arena
      `nodes`, indexed in allocation order; `head` and `tail` point into it. */
  datatype Inflight = Inflight(nodes: seq<Node>, head: Option<nat>, tail: Option<nat>)

  /** Every link points to a later allocation, so following links ends. */
  predicate Forward(nodes: seq<Node>) {
    forall i :: 0 <= i < |nodes| && nodes[i].next.Some? ==> i < nodes[i].next.value < |nodes|
  }

  /** The contents of the chain that starts at node `i`, in link order. */
  function ChainLines(nodes: seq<Node>, i: nat): seq<string>
    requires Forward(nodes) && i < |nodes|
    decreases |nodes| - i
  {
    [nodes[i].content] + match nodes[i].next { case None => [] case Some(j) => ChainLines(nodes, j) }
  }

  /** The last node of the chain that starts at node `i`. */
  function ChainEnd(nodes: seq<Node>, i: nat): (e: nat)
    requires Forward(nodes) && i < |nodes|
    ensures i <= e < |nodes| && nodes[e].next.None?
    decreases |nodes| - i
  {
    match nodes[i].next
    case None => i
    case Some(j) => ChainEnd(nodes, j)
  }

  /** The list is well formed: no tail without a head; a head without a
      tail is the only node; otherwise the tail is the last node reachable
      from the head. */
  predicate Valid(inf: Inflight) {
    && Forward(inf.nodes)
    && (inf.head.None? ==> inf.tail.None?)
    && (inf.head.Some? ==>
          && inf.head.value < |inf.nodes|
          && (inf.tail.None? ==> inf.nodes[inf.head.value].next.None?)
          && (inf.tail.Some? ==> inf.tail.value == ChainEnd(inf.nodes, inf.head.value)))
  }

  /** The lines of the list, from the head along the links. */
  function Lines(inf: Inflight): seq<string>
    requires Valid(inf)
  {
    if inf.head.None? then [] else ChainLines(inf.nodes, inf.head.value)
  }

  /** The last node of a non-empty list. */
  function LastNode(inf: Inflight): nat
    requires Valid(inf) && inf.head.Some?
  {
    ChainEnd(inf.nodes, inf.head.value)
  }

  /** The empty list `http_inflight_new` starts from. */
  const Empty: Inflight := Inflight([], None, None)

  /** Allocating a node leaves every existing chain as it was. */
  lemma {:induction false} ArenaGrowth(nodes: seq<Node>, n: Node, i: nat)
    requires Forward(nodes) && n.next.None? && i < |nodes|
    ensures Forward(nodes + [n])
    ensures ChainLines(nodes + [n], i) == ChainLines(nodes, i)
    ensures ChainEnd(nodes + [n], i) == ChainEnd(nodes, i)
    decreases |nodes| - i
  {
    var grown := nodes + [n];
    assert grown[i] == nodes[i];
    match nodes[i].next
    case None =>
    case Some(j) => ArenaGrowth(nodes, n, j);
  }

  /** `http_lines_new`: allocate an unlinked node holding `line`. The list
      itself is unchanged; the new node comes after every node in it. */
  function NewLine(inf: Inflight, line: string): (r: (Inflight, nat))
    requires Valid(inf)
    ensures Valid(r.0) && Lines(r.0) == Lines(inf)
    ensures r.0.head == inf.head && r.0.tail == inf.tail
    ensures r.1 == |inf.nodes| < |r.0.nodes| && r.0.nodes[r.1] == Node(line, None)
    ensures inf.head.Some? ==> LastNode(r.0) == LastNode(inf)
  {
    var node := Node(line, None);
    if inf.head.None? then
      (Inflight(inf.nodes + [node], inf.head, inf.tail), |inf.nodes|)
    else
      ArenaGrowth(inf.nodes, node, inf.head.value);
      (Inflight(inf.nodes + [node], inf.head, inf.tail), |inf.nodes|)
  }

  /** Linking node `id` after the end of the chain at `i` extends that
      chain by exactly that node. */
  lemma {:induction false} LinkAfterEnd(nodes: seq<Node>, i: nat, id: nat)
    requires Forward(nodes) && i < |nodes|
    requires ChainEnd(nodes, i) < id < |nodes| && nodes[id].next.None?
    ensures var t := ChainEnd(nodes, i);
            var linked := nodes[t := nodes[t].(next := Some(id))];
            && Forward(linked)
            && ChainLines(linked, i) == ChainLines(nodes, i) + [nodes[id].content]
            && ChainEnd(linked, i) == id
    decreases |nodes| - i
  {
    var t := ChainEnd(nodes, i);
    var linked := nodes[t := nodes[t].(next := Some(id))];
    assert linked[id] == nodes[id];
    assert ChainLines(linked, id) == [nodes[id].content];
    match nodes[i].next
    case None =>
    case Some(j) =>
      LinkAfterEnd(nodes, j, id);
      assert linked[i] == nodes[i];
  }

  /** `http_inflight_append`: link node `id` at the end of the list. The
      source reaches the last node through `tail`, or through `head` while
      the list holds one node and `tail` is still NULL. */
  function Append(inf: Inflight, id: nat): (r: Inflight)
    requires Valid(inf) && id < |inf.nodes| && inf.nodes[id].next.None?
    requires inf.head.Some? ==> LastNode(inf) < id
    ensures Valid(r) && r.head.Some?
    ensures Lines(r) == Lines(inf) + [inf.nodes[id].content]
    ensures inf.head.Some? ==> r.head == inf.head
    ensures LastNode(r) == id
  {
    if inf.head.Some? then
      var head := inf.head.value;
      LinkAfterEnd(inf.nodes, head, id);
      if inf.tail.Some? then
        var tail := inf.tail.value;
        Inflight(inf.nodes[tail := inf.nodes[tail].(next := Some(id))], inf.head, Some(id))
      else
        Inflight(inf.nodes[head := inf.nodes[head].(next := Some(id))], inf.head, Some(id))
    else
      Inflight(inf.nodes, Some(id), inf.tail)
  }

  /** One round of the loop body of `http_inflight_new`: allocate a node
      for `line` and append it when the line is non-empty. */
  function AddLine(inf: Inflight, line: string): (r: Inflight)
    requires Valid(inf)
    ensures Valid(r)
    ensures Lines(r) == Lines(inf) + (if line == [] then [] else [line])
    ensures inf.head.Some? ==> r.head == inf.head
  {
    var (grown, id) := NewLine(inf, line);
    if |line| > 0 then Append(grown, id) else grown
  }

  /** The loop of `http_inflight_new` over the lines `strtok_r` hands
      out, each of which is non-empty. */
  function Assemble(lines: seq<string>, inf: Inflight): (r: Inflight)
    requires Valid(inf)
    requires forall k :: 0 <= k < |lines| ==> lines[k] != []
    ensures Valid(r)
    ensures Lines(r) == Lines(inf) + lines
    ensures inf.head.Some? ==> r.head == inf.head
    ensures r.head.Some? <==> inf.head.Some? || lines != []
    decreases |lines|
  {
    if lines == [] then
      assert Lines(inf) + lines == Lines(inf);
      inf
    else
      var linked := AddLine(inf, lines[0]);
      assert Lines(inf) + lines == Lines(linked) + lines[1..] by {
        assert Lines(linked) == Lines(inf) + [lines[0]];
      }
      assert forall k :: 0 <= k < |lines[1..]| ==> lines[1..][k] != [] by {
        assert forall k :: 0 <= k < |lines[1..]| ==> lines[1..][k] == lines[k + 1];
      }
      Assemble(lines[1..], linked)
  }

  /** `http_inflight_new`: the list holds exactly the maximal non-empty
      CR/LF-free segments of the buffer, in buffer order. */
  function InflightNew(buf: string): (r: Inflight)
    ensures Valid(r)
    ensures Lines(r) == Segments(buf, LineBreaks)
    ensures r.head.Some? <==> Segments(buf, LineBreaks) != []
  {
    SplitIsSegments(buf, LineBreaks);
    Assemble(Split(buf, LineBreaks), Empty)
  }
}
