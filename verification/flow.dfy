/** The graph state behind the flow page and its `addNode` transition, taken up
    to the graph handed to the layout step (the appended node and edge lists). */
module FlowPage {
  import opened Text
  import opened Ids

  datatype Position = Position(x: int, y: int)

  /** The payload of an image-grid node: the prompt and the requested size. */
  datatype NodeData = NodeData(prompt: string, width: nat, height: nat)

  datatype Node = Node(id: string, kind: string, position: Position, data: NodeData)

  datatype Edge = Edge(id: string, source: string, target: string)

  /** Everything `addNode` reads or writes: the id counter (`nodeIdRef`), the
      node and edge lists, and the text of the prompt input. */
  datatype State = State(counter: nat, nodes: seq<Node>, edges: seq<Edge>, prompt: string)

  const NodeKind: string := "imageGrid"
  const DefaultSize: nat := 512
  const Origin: Position := Position(0, 0)

  /** The page as first rendered: counter 0, no nodes, no edges, empty prompt. */
  const Initial: State := State(0, [], [], "")

  /** The node created for counter value `serial` and trimmed prompt `text`. */
  function NewNode(serial: nat, text: string): (n: Node)
    ensures n.id == NodeId(serial) && ParseNodeId(n.id) == Some(serial)
    ensures n.kind == NodeKind && n.position == Origin
    ensures n.data.prompt == text && n.data.width == DefaultSize && n.data.height == DefaultSize
  {
    ParseNodeIdOfNodeId(serial);
    Node(NodeId(serial), NodeKind, Origin, NodeData(text, DefaultSize, DefaultSize))
  }

  /** The id of the last node, if there is one. */
  function LastNodeId(nodes: seq<Node>): (r: Option<string>)
    ensures r.Some? <==> |nodes| > 0
    ensures r.Some? ==> r.value == nodes[|nodes| - 1].id
  {
    if |nodes| > 0 then Some(nodes[|nodes| - 1].id) else None
  }

  /** The edge linking the previously last node to the new one. None when
      there is no previous node, and also when its id is the empty string,
      which the page's truthiness test treats like a missing node. */
  function ChainEdge(last: Option<string>, target: string): (e: Option<Edge>)
    ensures e.Some? <==> last.Some? && last.value != ""
    ensures e.Some? ==> e.value.source == last.value && e.value.target == target
    ensures e.Some? ==> e.value.id == EdgeId(e.value.source, e.value.target)
  {
    match last
    case Some(source) =>
      if source != "" then Some(Edge(EdgeId(source, target), source, target)) else None
    case None => None
  }

  /** The `addNode` callback. A prompt that is blank after trimming changes
      nothing. Otherwise the counter is advanced, a node with the new id is
      appended, the previously last node is chained to it, and the prompt
      input is cleared. */
  function AddNode(s: State): (r: State)
    ensures IsBlank(s.prompt) ==> r == s
    ensures !IsBlank(s.prompt) ==> r.counter == s.counter + 1 && r.prompt == ""
    ensures !IsBlank(s.prompt) ==>
      && |r.nodes| == |s.nodes| + 1
      && r.nodes[..|s.nodes|] == s.nodes
      && r.nodes[|s.nodes|].id == NodeId(r.counter)
      && r.nodes[|s.nodes|].kind == NodeKind
      && r.nodes[|s.nodes|].position == Origin
      && r.nodes[|s.nodes|].data == NodeData(Trim(s.prompt), DefaultSize, DefaultSize)
    ensures !IsBlank(s.prompt) && |s.nodes| == 0 ==> r.edges == s.edges
    ensures !IsBlank(s.prompt) && |s.nodes| > 0 && s.nodes[|s.nodes| - 1].id == "" ==> r.edges == s.edges
    ensures !IsBlank(s.prompt) && |s.nodes| > 0 && s.nodes[|s.nodes| - 1].id != "" ==>
      && |r.edges| == |s.edges| + 1
      && r.edges[..|s.edges|] == s.edges
      && r.edges[|s.edges|].source == s.nodes[|s.nodes| - 1].id
      && r.edges[|s.edges|].target == r.nodes[|s.nodes|].id
      && r.edges[|s.edges|].id == EdgeId(r.edges[|s.edges|].source, r.edges[|s.edges|].target)
  {
    var text := Trim(s.prompt);
    if text == "" then
      s
    else
      var serial := s.counter + 1;
      var node := NewNode(serial, text);
      var edge := ChainEdge(LastNodeId(s.nodes), node.id);
      var edges := if edge.Some? then s.edges + [edge.value] else s.edges;
      State(serial, s.nodes + [node], edges, "")
  }

  /** The counter value a node id was made from (0 for an id that does not
      parse; generated ids start at 1). */
  function Serial(id: string): nat {
    match ParseNodeId(id)
    case Some(k) => k
    case None => 0
  }

  /** `id` is a node id the counter has already handed out. */
  predicate Issued(id: string, counter: nat) {
    ParseNodeId(id).Some? && 1 <= ParseNodeId(id).value <= counter
  }

  /** An edge between issued ids that points forward in creation order and
      carries the id derived from its endpoints. */
  predicate ChainShaped(e: Edge, counter: nat) {
    && Issued(e.source, counter)
    && Issued(e.target, counter)
    && Serial(e.source) < Serial(e.target)
    && e.id == EdgeId(e.source, e.target)
  }

  /** Every node id has been issued, and node ids increase along the list. */
  predicate NodesWf(nodes: seq<Node>, counter: nat) {
    && (forall i :: 0 <= i < |nodes| ==> Issued(nodes[i].id, counter))
    && (forall i, j :: 0 <= i < j < |nodes| ==> Serial(nodes[i].id) < Serial(nodes[j].id))
  }

  /** Every edge is chain-shaped, and edge targets increase along the list. */
  predicate EdgesWf(edges: seq<Edge>, counter: nat) {
    && (forall i :: 0 <= i < |edges| ==> ChainShaped(edges[i], counter))
    && (forall i, j :: 0 <= i < j < |edges| ==> Serial(edges[i].target) < Serial(edges[j].target))
  }

  /** The invariant `addNode` keeps. */
  predicate Wf(s: State) {
    NodesWf(s.nodes, s.counter) && EdgesWf(s.edges, s.counter)
  }

  /** In a well-formed state no two nodes share an id and no two edges share
      an id. */
  lemma WfIdsUnique(s: State)
    requires Wf(s)
    ensures forall i, j :: 0 <= i < j < |s.nodes| ==> s.nodes[i].id != s.nodes[j].id
    ensures forall i, j :: 0 <= i < j < |s.edges| ==> s.edges[i].id != s.edges[j].id
  {
    forall i, j | 0 <= i < j < |s.edges|
      ensures s.edges[i].id != s.edges[j].id
    {
      var e, f := s.edges[i], s.edges[j];
      if e.id == f.id {
        NodeIdOfParseNodeId(e.source, Serial(e.source));
        NodeIdOfParseNodeId(e.target, Serial(e.target));
        NodeIdOfParseNodeId(f.source, Serial(f.source));
        NodeIdOfParseNodeId(f.target, Serial(f.target));
        EdgeIdInjective(Serial(e.source), Serial(e.target), Serial(f.source), Serial(f.target));
        assert false;
      }
    }
  }

  /** Appending a node with the next counter value keeps the node part of
      the invariant. */
  lemma AppendNodeKeepsNodesWf(nodes: seq<Node>, counter: nat, node: Node)
    requires NodesWf(nodes, counter)
    requires ParseNodeId(node.id) == Some(counter + 1)
    ensures NodesWf(nodes + [node], counter + 1)
  {
  }

  /** Appending a chain-shaped edge to the next counter value keeps the edge
      part of the invariant. */
  lemma AppendEdgeKeepsEdgesWf(edges: seq<Edge>, counter: nat, edge: Edge)
    requires EdgesWf(edges, counter)
    requires ChainShaped(edge, counter + 1) && Serial(edge.target) == counter + 1
    ensures EdgesWf(edges + [edge], counter + 1)
  {
  }

  /** Raising the counter keeps the invariant: issued ids stay issued. */
  lemma RaiseCounterKeepsWf(nodes: seq<Node>, edges: seq<Edge>, counter: nat)
    requires NodesWf(nodes, counter) && EdgesWf(edges, counter)
    ensures NodesWf(nodes, counter + 1) && EdgesWf(edges, counter + 1)
  {
  }

  /** `addNode` keeps the node part of the invariant. */
  lemma AddNodeKeepsNodesWf(s: State)
    requires NodesWf(s.nodes, s.counter)
    requires !IsBlank(s.prompt)
    ensures NodesWf(AddNode(s).nodes, AddNode(s).counter)
  {
    var r := AddNode(s);
    var n := |s.nodes|;
    assert r.nodes == s.nodes + [r.nodes[n]];
    ParseNodeIdOfNodeId(r.counter);
    AppendNodeKeepsNodesWf(s.nodes, s.counter, r.nodes[n]);
  }

  /** `addNode` keeps the edge part of the invariant. */
  lemma AddNodeKeepsEdgesWf(s: State)
    requires Wf(s)
    requires !IsBlank(s.prompt)
    ensures EdgesWf(AddNode(s).edges, AddNode(s).counter)
  {
    var r := AddNode(s);
    if r.edges == s.edges {
      RaiseCounterKeepsWf(s.nodes, s.edges, s.counter);
    } else {
      var e := r.edges[|s.edges|];
      assert r.edges == s.edges + [e];
      assert Issued(e.source, s.counter);
      ParseNodeIdOfNodeId(r.counter);
      AppendEdgeKeepsEdgesWf(s.edges, s.counter, e);
    }
  }

  /** `addNode` keeps the invariant. */
  lemma AddNodeKeepsWf(s: State)
    requires Wf(s)
    ensures Wf(AddNode(s))
  {
    if !IsBlank(s.prompt) {
      AddNodeKeepsNodesWf(s);
      AddNodeKeepsEdgesWf(s);
    }
  }

  /** The id a successful `addNode` hands out names no existing node, and
      since issued ids are never empty, a non-empty graph always gets its
      chain edge. Only the node list is assumed well formed, so this holds
      whatever edges were added by hand. */
  lemma AddNodeIdFresh(s: State)
    requires NodesWf(s.nodes, s.counter)
    requires !IsBlank(s.prompt)
    ensures forall i :: 0 <= i < |s.nodes| ==> s.nodes[i].id != NodeId(s.counter + 1)
    ensures |s.nodes| > 0 ==> |AddNode(s).edges| == |s.edges| + 1
  {
    ParseNodeIdOfNodeId(s.counter + 1);
    if |s.nodes| > 0 {
      assert Issued(s.nodes[|s.nodes| - 1].id, s.counter);
    }
  }

  /** In a fully well-formed state the new id is fresh for edges too: it is
      no endpoint of an existing edge, and the chain edge it adds (when there
      was a node before) has an id no existing edge has. */
  lemma AddNodeFresh(s: State)
    requires Wf(s)
    requires !IsBlank(s.prompt)
    ensures forall i :: 0 <= i < |s.nodes| ==> s.nodes[i].id != NodeId(s.counter + 1)
    ensures forall i :: 0 <= i < |s.edges| ==>
      s.edges[i].source != NodeId(s.counter + 1) && s.edges[i].target != NodeId(s.counter + 1)
    ensures |s.nodes| > 0 ==> |AddNode(s).edges| == |s.edges| + 1
    ensures |s.nodes| > 0 ==> forall i :: 0 <= i < |s.edges| ==>
      s.edges[i].id != AddNode(s).edges[|s.edges|].id
  {
    AddNodeIdFresh(s);
    ParseNodeIdOfNodeId(s.counter + 1);
    if |s.nodes| > 0 {
      var last := s.nodes[|s.nodes| - 1].id;
      assert Issued(last, s.counter);
      var r := AddNode(s);
      forall i | 0 <= i < |s.edges|
        ensures s.edges[i].id != r.edges[|s.edges|].id
      {
        var e := s.edges[i];
        assert r.edges[|s.edges|].id == EdgeId(last, NodeId(s.counter + 1));
        if e.id == r.edges[|s.edges|].id {
          NodeIdOfParseNodeId(e.source, Serial(e.source));
          NodeIdOfParseNodeId(e.target, Serial(e.target));
          NodeIdOfParseNodeId(last, Serial(last));
          EdgeIdInjective(Serial(e.source), Serial(e.target), Serial(last), s.counter + 1);
          assert false;
        }
      }
    }
  }

  /** Typing `text` into the prompt input (its change handler stores the text)
      and then submitting it. A blank entry is left in the input; a
      successful one clears it. */
  function Submit(s: State, text: string): (r: State)
    ensures r.prompt == if IsBlank(text) then text else ""
    ensures r.counter == if IsBlank(text) then s.counter else s.counter + 1
  {
    AddNode(s.(prompt := text))
  }

  /** Submitting each text of `texts` in turn, with no other change between. */
  function Run(s: State, texts: seq<string>): (r: State)
    ensures r.counter >= s.counter && |r.nodes| == |s.nodes| + (r.counter - s.counter)
  {
    if |texts| == 0 then s else Submit(Run(s, texts[..|texts| - 1]), texts[|texts| - 1])
  }

  /** The texts that produce nodes, trimmed, in submission order. */
  function Kept(texts: seq<string>): seq<string>
  {
    if |texts| == 0 then []
    else
      var last := texts[|texts| - 1];
      Kept(texts[..|texts| - 1]) + (if IsBlank(last) then [] else [Trim(last)])
  }

  /** The counter grows by one per text that was not blank. */
  lemma {:induction false} RunCounter(s: State, texts: seq<string>)
    ensures Run(s, texts).counter == s.counter + |Kept(texts)|
  {
    if |texts| > 0 {
      RunCounter(s, texts[..|texts| - 1]);
    }
  }

  /** The nodes created for `prompts` when the counter stands at `counter`:
      the k-th gets counter value `counter + k + 1`. */
  function NewNodes(counter: nat, prompts: seq<string>): (nodes: seq<Node>)
    ensures |nodes| == |prompts|
  {
    seq(|prompts|, k requires 0 <= k < |prompts| => NewNode(counter + k + 1, prompts[k]))
  }

  lemma NewNodesSnoc(counter: nat, prompts: seq<string>, text: string)
    ensures NewNodes(counter, prompts + [text]) ==
      NewNodes(counter, prompts) + [NewNode(counter + |prompts| + 1, text)]
  {
  }

  lemma AppendNewNode(base: seq<Node>, counter: nat, prompts: seq<string>, text: string)
    ensures base + NewNodes(counter, prompts) + [NewNode(counter + |prompts| + 1, text)] ==
      base + NewNodes(counter, prompts + [text])
  {
    NewNodesSnoc(counter, prompts, text);
  }

  /** A blank submission leaves the node list alone. */
  lemma SubmitBlankNodes(s: State, text: string)
    requires IsBlank(text)
    ensures Submit(s, text).nodes == s.nodes
  {
  }

  /** A submission that is not blank appends the node for the trimmed text
      and the next counter value. */
  lemma SubmitNodes(s: State, text: string)
    requires !IsBlank(text)
    ensures Submit(s, text).nodes == s.nodes + [NewNode(s.counter + 1, Trim(text))]
  {
    var r := Submit(s, text);
    assert r.nodes == r.nodes[..|s.nodes|] + [r.nodes[|s.nodes|]];
  }

  /** One submission on top of `m`, whose nodes are those of `s` followed by
      the nodes for `q`: the nodes for the text, if kept, follow them. */
  lemma SubmitExtendsNewNodes(s: State, m: State, q: seq<string>, text: string)
    requires m.nodes == s.nodes + NewNodes(s.counter, q) && m.counter == s.counter + |q|
    ensures Submit(m, text).nodes ==
      s.nodes + NewNodes(s.counter, q + if IsBlank(text) then [] else [Trim(text)])
  {
    if IsBlank(text) {
      assert q + [] == q;
      SubmitBlankNodes(m, text);
    } else {
      SubmitNodes(m, text);
      AppendNewNode(s.nodes, s.counter, q, Trim(text));
    }
  }

  /** Submissions only append to the node list, one node per kept text,
      numbered on from the counter: the k-th new node is `node-<counter+k>`
      holding the k-th kept text, so no counter value is handed out twice. */
  lemma {:induction false} RunNodes(s: State, texts: seq<string>)
    ensures Run(s, texts).nodes == s.nodes + NewNodes(s.counter, Kept(texts))
  {
    if |texts| > 0 {
      var init, text := texts[..|texts| - 1], texts[|texts| - 1];
      RunNodes(s, init);
      RunCounter(s, init);
      SubmitExtendsNewNodes(s, Run(s, init), Kept(init), text);
    }
  }

  /** One submission keeps node ids issued and increasing. */
  lemma SubmitKeepsNodesWf(s: State, text: string)
    requires NodesWf(s.nodes, s.counter)
    ensures NodesWf(Submit(s, text).nodes, Submit(s, text).counter)
  {
    if IsBlank(text) {
      SubmitBlankNodes(s, text);
    } else {
      AddNodeKeepsNodesWf(s.(prompt := text));
    }
  }

  /** Submissions keep node ids issued and increasing, whatever edges were
      added by hand. */
  lemma {:induction false} RunKeepsNodesWf(s: State, texts: seq<string>)
    requires NodesWf(s.nodes, s.counter)
    ensures NodesWf(Run(s, texts).nodes, Run(s, texts).counter)
  {
    if |texts| > 0 {
      var init := texts[..|texts| - 1];
      RunKeepsNodesWf(s, init);
      SubmitKeepsNodesWf(Run(s, init), texts[|texts| - 1]);
    }
  }

  /** Any sequence of submissions keeps the invariant. */
  lemma {:induction false} RunKeepsWf(s: State, texts: seq<string>)
    requires Wf(s)
    ensures Wf(Run(s, texts))
  {
    if |texts| > 0 {
      var mid := Run(s, texts[..|texts| - 1]);
      RunKeepsWf(s, texts[..|texts| - 1]);
      assert Wf(mid.(prompt := texts[|texts| - 1]));
      AddNodeKeepsWf(mid.(prompt := texts[|texts| - 1]));
    }
  }
}
