# Flow page graph construction, modelled in Dafny

The flow page of the image generator lets a user build a graph of
"generation request" nodes by typing prompts. Each submitted prompt becomes
an `imageGrid` node, and each new node is chained to the node that was last
before it. This project models the page's `addNode` callback as a pure
transition on an explicit state. The state is the id counter (`nodeIdRef`),
the node list, the edge list and the text of the prompt input. The model
covers the graph up to the point where it is handed to the layout step
(`nextNodes` / `nextEdges`).

Modules:

- `Text` (text.dfy): JavaScript `String.prototype.trim`, using the exact
  ECMAScript WhiteSpace and LineTerminator code points, and the blank-prompt
  guard.
- `Decimal` (decimal.dfy): the decimal text a template literal gives a
  non-negative integer, its reader, and both round trips.
- `Ids` (ids.dfy): node ids `node-<n>` with a parser that inverts them, edge
  ids `e-<source>-<target>`, and proofs that both are injective on generated
  ids.
- `FlowPage` (flow.dfy): the node, edge and state records and `AddNode`.
  It also holds the well-formedness invariant `Wf` (every id was issued by the
  counter, node ids increase along the list, every edge points forward and
  carries its derived id), its preservation, id freshness, and repeated
  submission (`Submit`, `Run`).
- `Chain` (chain.dfy): a reference definition of the chain `node-1 .. node-N`
  with edges `node-i -> node-(i+1)`, and the proof that submissions from the
  initial page build exactly that chain.

Two behaviours of the code are kept as written:

- The edge is guarded by the truthiness of the previous node's id. A previous
  node whose id is the empty string therefore gets no edge. `AddNodeIdFresh`
  shows this cannot happen while node ids are well formed, so a non-empty
  graph always gets its chain edge.
- A blank prompt returns before anything is set. So the blank text stays in
  the input (`Submit` states this). Only a successful add clears it.

## Model

| member | source | states |
|---|---|---|
| `Text.IsWhitespace` | apps/web/src/pages/FlowPage.tsx:37 | the characters `trim` removes are exactly the ECMAScript WhiteSpace and LineTerminator code points |
| `Text.LeadingWhitespace` | apps/web/src/pages/FlowPage.tsx:37 | the count of leading characters `trim` drops: all of them are whitespace, and the character after them is not |
| `Text.TrailingWhitespace` | apps/web/src/pages/FlowPage.tsx:37 | the count of trailing characters `trim` drops: all of them are whitespace, and the character before them is not |
| `Text.Trim` | apps/web/src/pages/FlowPage.tsx:46 | the trimmed prompt is a contiguous infix of the input; everything removed before and after it is whitespace; it neither starts nor ends with whitespace |
| `Text.IsBlank` | apps/web/src/pages/FlowPage.tsx:37 | the guard `!prompt.trim()` fires exactly when trimming leaves the empty string, that is when the prompt is all whitespace |
| `Text.TrimIdempotent` | apps/web/src/pages/FlowPage.tsx:46 | trimming an already trimmed prompt changes nothing |
| `Decimal.Format` | apps/web/src/pages/FlowPage.tsx:39 | the counter is printed in canonical decimal: non-empty, digits only, no leading zero |
| `Decimal.ValueOfFormat` | apps/web/src/pages/FlowPage.tsx:39 | reading back the printed counter gives the counter |
| `Decimal.FormatValueOf` | apps/web/src/pages/FlowPage.tsx:39 | every canonical digit string is the printed form of the number it denotes |
| `Decimal.FormatInjective` | apps/web/src/pages/FlowPage.tsx:39 | distinct counter values print differently, and equal ones the same |
| `Ids.NodeId` | apps/web/src/pages/FlowPage.tsx:39 | a node id is `node-` followed by the canonical decimal counter value |
| `Ids.ParseNodeIdOfNodeId` | apps/web/src/pages/FlowPage.tsx:39 | parsing a generated id `node-<n>` recovers `n` |
| `Ids.NodeIdOfParseNodeId` | apps/web/src/pages/FlowPage.tsx:39 | any id that parses to `n` is exactly `node-<n>` |
| `Ids.NodeIdInjective` | apps/web/src/pages/FlowPage.tsx:39 | two counter values give the same node id iff they are equal |
| `Ids.EdgeId` | apps/web/src/pages/FlowPage.tsx:50 | an edge id starts with `e-` and is three characters longer than its two endpoint ids together |
| `Ids.EdgeIdLayout` | apps/web/src/pages/FlowPage.tsx:50 | an edge id is `e-`, then the source id, then `-`, then the target id |
| `Ids.EdgeIdInjective` | apps/web/src/pages/FlowPage.tsx:50 | an edge id `e-<src>-<tgt>` between generated ids determines both endpoints, although node ids themselves contain `-` |
| `FlowPage.Initial` | apps/web/src/pages/FlowPage.tsx:26-29 | the page starts with counter 0, no nodes, no edges and an empty prompt |
| `FlowPage.NewNode` | apps/web/src/pages/FlowPage.tsx:42-47 | the new node has id `node-<n>` (which parses back to n), type `imageGrid`, position (0,0), the given prompt and size 512 x 512 |
| `FlowPage.LastNodeId` | apps/web/src/pages/FlowPage.tsx:40 | there is a previous id exactly when the node list is non-empty, and then it is the last node's id |
| `FlowPage.ChainEdge` | apps/web/src/pages/FlowPage.tsx:49-51 | an edge is built exactly when a previous id exists and is truthy (non-empty); it runs from that id to the new id and has id `e-<source>-<target>` |
| `FlowPage.AddNode` | apps/web/src/pages/FlowPage.tsx:36-64 | blank prompt: the whole state is unchanged. Otherwise: counter + 1; the node list grows by one, old nodes unchanged and in order, the new last node is `node-<counter>` with the trimmed prompt, `imageGrid`, (0,0), 512 x 512; no edge when there was no node (or the last id is empty); else exactly one edge appended, old edges unchanged, from the previously last node to the new one, with id `e-<src>-<tgt>`; the prompt is cleared |
| `FlowPage.WfIdsUnique` | apps/web/src/pages/FlowPage.tsx:39-54 | in a well-formed state no two nodes share an id and no two edges share an id |
| `FlowPage.AppendNodeKeepsNodesWf` | apps/web/src/pages/FlowPage.tsx:53 | appending the node for the next counter value keeps node ids issued and increasing |
| `FlowPage.AppendEdgeKeepsEdgesWf` | apps/web/src/pages/FlowPage.tsx:54 | appending a forward edge to the next counter value keeps edges well formed with increasing targets |
| `FlowPage.AddNodeKeepsNodesWf` | apps/web/src/pages/FlowPage.tsx:39-53 | `addNode` keeps every node id issued and node ids increasing along the list |
| `FlowPage.AddNodeKeepsEdgesWf` | apps/web/src/pages/FlowPage.tsx:40-54 | `addNode` keeps every edge forward-pointing, between issued ids, carrying its derived id, with increasing targets |
| `FlowPage.AddNodeKeepsWf` | apps/web/src/pages/FlowPage.tsx:36-54 | `addNode` preserves the well-formedness invariant |
| `FlowPage.AddNodeIdFresh` | apps/web/src/pages/FlowPage.tsx:39-54 | when only the node list is well formed (whatever edges were added by hand), the new id names no existing node and a non-empty graph always gets exactly one new edge |
| `FlowPage.AddNodeFresh` | apps/web/src/pages/FlowPage.tsx:39-50 | in a well-formed state the new id names no existing node and no existing edge endpoint; a non-empty graph always gets exactly one new edge; that edge's id differs from every existing edge id |
| `FlowPage.Submit` | apps/web/src/pages/FlowPage.tsx:36-63 | typing a text and submitting it: a blank text stays in the input and leaves the counter alone; any other text advances the counter by one and clears the input |
| `FlowPage.SubmitBlankNodes` | apps/web/src/pages/FlowPage.tsx:37 | a blank submission leaves the node list alone |
| `FlowPage.SubmitNodes` | apps/web/src/pages/FlowPage.tsx:39-53 | a non-blank submission appends exactly the node for the next counter value holding the trimmed text |
| `FlowPage.Run` | apps/web/src/pages/FlowPage.tsx:36-64 | over any sequence of submissions the counter never decreases, and the node list grows by exactly as much as the counter |
| `FlowPage.RunCounter` | apps/web/src/pages/FlowPage.tsx:29-39 | over any sequence of submissions the counter grows by exactly one per non-blank text |
| `FlowPage.NewNodes` | apps/web/src/pages/FlowPage.tsx:39-47 | the nodes created for a list of prompts from a given counter value, one per prompt |
| `FlowPage.SubmitExtendsNewNodes` | apps/web/src/pages/FlowPage.tsx:37-53 | one more submission extends the created nodes by the node for that text, if it is not blank |
| `FlowPage.RunNodes` | apps/web/src/pages/FlowPage.tsx:39-53 | from any state, submissions keep the old nodes and append, in order, one node per non-blank text holding it trimmed, numbered `counter+1`, `counter+2`, ..., so no counter value is handed out twice |
| `FlowPage.SubmitKeepsNodesWf` | apps/web/src/pages/FlowPage.tsx:37-53 | one submission keeps node ids issued and increasing |
| `FlowPage.RunKeepsNodesWf` | apps/web/src/pages/FlowPage.tsx:36-53 | any sequence of submissions keeps node ids issued and increasing, whatever edges were added by hand |
| `FlowPage.RunKeepsWf` | apps/web/src/pages/FlowPage.tsx:36-64 | any sequence of submissions from a well-formed state keeps the invariant |
| `Chain.ChainShape` | apps/web/src/pages/FlowPage.tsx:39-54 | a chain over N prompts has N nodes `node-1..node-N` holding the prompts in order, and N - 1 edges `node-i -> node-(i+1)` with ids `e-node-i-node-(i+1)` |
| `Chain.ChainExtendsNodes` | apps/web/src/pages/FlowPage.tsx:39-53 | a non-blank submission to a chain appends the node `node-<N+1>` holding the trimmed text |
| `Chain.ChainExtendsEdges` | apps/web/src/pages/FlowPage.tsx:40-54 | a non-blank submission to a chain of N >= 1 nodes appends the link `node-N -> node-(N+1)`, and none to an empty one |
| `Chain.ChainExtends` | apps/web/src/pages/FlowPage.tsx:36-54 | submitting a non-blank text to a chain gives the chain extended by the trimmed text |
| `Chain.RunFromInitial` | apps/web/src/pages/FlowPage.tsx:26-64 | from the initial page (counter 0, empty graph), any submissions give exactly the chain over the non-blank texts, trimmed, in submission order |
| `Chain.KeptAllTrimmed` | apps/web/src/pages/FlowPage.tsx:37-46 | when no text is blank, every text yields a node, holding the text trimmed, in order |
| `Chain.ChainOfNonBlank` | apps/web/src/pages/FlowPage.tsx:36-64 | N non-blank submissions from the initial page give the chain of N nodes and N - 1 edges over the trimmed texts |
| `Chain.RunFromInitialIdsUnique` | apps/web/src/pages/FlowPage.tsx:29-50 | every node id and every edge id created from the initial page is distinct from every other |
| `Chain.ChainOfTwo` | apps/web/src/pages/FlowPage.tsx:39-50 | a two-prompt chain is `node-1`, `node-2` and the single edge `e-node-1-node-2` |
| `Chain.TwoPromptScenario` | apps/web/src/pages/FlowPage.tsx:36-64 | two non-blank prompts (e.g. "a cat", "wearing a hat") give two nodes and one edge from `node-1` to `node-2` |
| `Chain.BlankPromptScenario` | apps/web/src/pages/FlowPage.tsx:37 | only blank prompts (e.g. "" and "   ") leave the page with no nodes, no edges and counter 0 |

## Left out

- Layout (`getLayoutedElements`, lines 56-59): its source file is not part of this model. The model's state after `AddNode` is the graph passed to it (`nextNodes`, `nextEdges`). Positions stay at (0,0) and layout is assumed to leave ids, order and edges alone.
- Manual connections (`onConnect`, lines 31-34): a thin wrapper over the flow library's `addEdge`, whose code is not part of this model. So no rules about self-loops, duplicate edges or endpoint checks are modelled.
- The library-driven `onNodesChange` / `onEdgesChange` handlers (drags, deletions) and the React hook containers: the state is explicit instead. No deletion operation is modelled, because its behaviour is in the library.
- Manual connections can add any edge, so after one the edge half of `Wf` (`EdgesWf`) may no longer hold, and `AddNodeFresh`, `AddNodeKeepsWf` and `RunKeepsWf` then say nothing. The node half (`NodesWf`) does not mention edges: `AddNodeIdFresh`, `AddNodeKeepsNodesWf` and `RunKeepsNodesWf` still apply, so the new node id stays fresh and a non-empty graph still gets its chain edge.
- Rendering, styling, animation, routing, the Enter-key handler (lines 66-71) and the button's disabled state (line 113): user-interface only. `Submit` stands for "type a text, then trigger `addNode`".
- FlowPage.RunCounter: the counter is an unbounded `nat`. JavaScript numbers lose integer precision above 2^53, so beyond that bound the source could print a repeated id. This model does not represent that.
- Snapshot publication and manual-edge validation (invalid endpoints, self-loops, duplicate edges) are not done by the page's code, and the layout module is not part of this model, so none of them is modelled.
- The chain edge is guarded by the truthiness of the previous id (line 49), not by the node list being non-empty. The model follows the code; `FlowPage.AddNodeIdFresh` shows the two agree whenever node ids are well formed.
