/** What repeated submissions build from a fresh page: a simple chain of
    nodes `node-1 .. node-N` with edges `node-i -> node-(i+1)`. */
module Chain {
  import opened Text
  import Decimal
  import opened Ids
  import opened FlowPage

  /** The edge from the node with counter value `a` to the one with `b`. */
  function Link(a: nat, b: nat): Edge {
    Edge(EdgeId(NodeId(a), NodeId(b)), NodeId(a), NodeId(b))
  }

  /** Reference edges: node i is linked to node i + 1, and nothing else. */
  function ChainEdges(n: nat): (edges: seq<Edge>)
    ensures |edges| == if n == 0 then 0 else n - 1
  {
    seq(if n == 0 then 0 else n - 1, i requires 0 <= i => Link(i + 1, i + 2))
  }

  /** `s` holds exactly the chain over `prompts`: one node per prompt,
      numbered from 1 in order, each linked to the next, and the counter at
      the number of nodes. */
  predicate IsChain(s: State, prompts: seq<string>) {
    && s.counter == |prompts|
    && s.nodes == NewNodes(0, prompts)
    && s.edges == ChainEdges(|prompts|)
  }

  /** What a chain looks like node by node and edge by edge. */
  lemma ChainShape(s: State, prompts: seq<string>)
    requires IsChain(s, prompts)
    ensures |s.nodes| == |prompts|
    ensures |s.edges| == if |prompts| == 0 then 0 else |prompts| - 1
    ensures forall i :: 0 <= i < |prompts| ==>
      s.nodes[i].id == NodeId(i + 1) && s.nodes[i].data.prompt == prompts[i]
    ensures forall i :: 0 <= i < |s.edges| ==>
      && s.edges[i].source == NodeId(i + 1)
      && s.edges[i].target == NodeId(i + 2)
      && s.edges[i].id == EdgeId(NodeId(i + 1), NodeId(i + 2))
  {
    forall i | 0 <= i < |s.edges|
      ensures s.edges[i] == Link(i + 1, i + 2)
    {
    }
  }

  /** Submitting a text that is not blank to a chain over `q` appends the
      node for the trimmed text. */
  lemma ChainExtendsNodes(s: State, q: seq<string>, text: string)
    requires s.counter == |q| && s.nodes == NewNodes(0, q)
    requires !IsBlank(text)
    ensures Submit(s, text).nodes == NewNodes(0, q + [Trim(text)])
  {
    SubmitNodes(s, text);
    NewNodesSnoc(0, q, Trim(text));
  }

  /** Submitting a text that is not blank to a chain over `q` appends the
      link from the old last node to the new one, if there was a node. */
  lemma ChainExtendsEdges(s: State, q: seq<string>, text: string)
    requires IsChain(s, q)
    requires !IsBlank(text)
    ensures Submit(s, text).edges == ChainEdges(|q| + 1)
  {
    var r := Submit(s, text);
    var n := |q|;
    if n > 0 {
      assert s.nodes[n - 1].id == NodeId(n);
      assert r.edges == s.edges + [Link(n, n + 1)];
      forall i | 0 <= i < n
        ensures r.edges[i] == ChainEdges(n + 1)[i]
      {
        if i < n - 1 {
          assert r.edges[i] == s.edges[i];
        }
      }
    }
  }

  /** Submitting a text that is not blank to a chain over `q` extends the
      chain by one node holding the trimmed text. */
  lemma ChainExtends(s: State, q: seq<string>, text: string)
    requires IsChain(s, q)
    requires !IsBlank(text)
    ensures IsChain(Submit(s, text), q + [Trim(text)])
  {
    ChainExtendsNodes(s, q, text);
    ChainExtendsEdges(s, q, text);
  }

  /** Starting from the initial page, any sequence of submissions yields
      exactly the chain over the prompts that were not blank, trimmed, in
      submission order. */
  lemma {:induction false} RunFromInitial(texts: seq<string>)
    ensures IsChain(Run(Initial, texts), Kept(texts))
  {
    if |texts| > 0 {
      var init, text := texts[..|texts| - 1], texts[|texts| - 1];
      RunFromInitial(init);
      if !IsBlank(text) {
        ChainExtends(Run(Initial, init), Kept(init), text);
      }
    }
  }

  /** With no blank text, every text is kept, trimmed, in order. */
  lemma {:induction false} KeptAllTrimmed(texts: seq<string>)
    requires forall i :: 0 <= i < |texts| ==> !IsBlank(texts[i])
    ensures Kept(texts) == seq(|texts|, i requires 0 <= i < |texts| => Trim(texts[i]))
  {
    if |texts| > 0 {
      var init := texts[..|texts| - 1];
      KeptAllTrimmed(init);
      assert Kept(texts) == Kept(init) + [Trim(texts[|texts| - 1])];
    }
  }

  /** When no text is blank, N submissions give N nodes and N - 1 edges:
      node i holds the i-th prompt, trimmed, under id `node-<i>`, and edge i
      runs from `node-<i>` to `node-<i+1>`. */
  lemma ChainOfNonBlank(texts: seq<string>)
    requires forall i :: 0 <= i < |texts| ==> !IsBlank(texts[i])
    ensures IsChain(Run(Initial, texts), seq(|texts|, i requires 0 <= i < |texts| => Trim(texts[i])))
  {
    KeptAllTrimmed(texts);
    RunFromInitial(texts);
  }

  /** The ids a run from the initial page creates are pairwise distinct, and
      so are its edge ids. */
  lemma RunFromInitialIdsUnique(texts: seq<string>)
    ensures forall i, j :: 0 <= i < j < |Run(Initial, texts).nodes| ==>
      Run(Initial, texts).nodes[i].id != Run(Initial, texts).nodes[j].id
    ensures forall i, j :: 0 <= i < j < |Run(Initial, texts).edges| ==>
      Run(Initial, texts).edges[i].id != Run(Initial, texts).edges[j].id
  {
    assert Wf(Initial);
    RunKeepsWf(Initial, texts);
    WfIdsUnique(Run(Initial, texts));
  }

  /** A chain over two prompts: two nodes, and one edge `e-node-1-node-2`. */
  lemma ChainOfTwo(s: State, a: string, b: string)
    requires IsChain(s, [a, b])
    ensures s.nodes == [NewNode(1, a), NewNode(2, b)]
    ensures s.edges == [Edge("e-node-1-node-2", "node-1", "node-2")]
  {
    assert Decimal.Format(1) == "1" && Decimal.Format(2) == "2";
    assert NodeId(1) == "node-1" && NodeId(2) == "node-2";
    assert EdgeId("node-1", "node-2") == "e-" + "node-1" + "-" + "node-2" == "e-node-1-node-2";
    assert ChainEdges(2) == [Link(1, 2)];
  }

  /** Two prompts that are not blank ("a cat", then "wearing a hat", say)
      give two nodes and one edge, `e-node-1-node-2`, from the first to the
      second. */
  lemma TwoPromptScenario(first: string, second: string)
    requires !IsBlank(first) && !IsBlank(second)
    ensures Run(Initial, [first, second]).nodes ==
      [NewNode(1, Trim(first)), NewNode(2, Trim(second))]
    ensures Run(Initial, [first, second]).edges ==
      [Edge("e-node-1-node-2", "node-1", "node-2")]
  {
    var texts := [first, second];
    KeptAllTrimmed(texts);
    assert Kept(texts) == [Trim(first), Trim(second)];
    RunFromInitial(texts);
    ChainOfTwo(Run(Initial, texts), Trim(first), Trim(second));
  }

  /** Submitting only blank prompts ("" and "   ", say) leaves the page empty
      and the counter at 0. */
  lemma {:induction false} BlankPromptScenario(texts: seq<string>)
    requires forall i :: 0 <= i < |texts| ==> IsBlank(texts[i])
    ensures Run(Initial, texts).nodes == []
    ensures Run(Initial, texts).edges == []
    ensures Run(Initial, texts).counter == 0
  {
    if |texts| > 0 {
      BlankPromptScenario(texts[..|texts| - 1]);
    }
  }
}
