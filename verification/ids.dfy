/** Node and edge identifiers of the flow page: a node id is `node-<n>` for a
    counter value `n`, and an edge id is `e-<source>-<target>`. */
module Ids {
  import Decimal

  datatype Option<T> = None | Some(value: T)

  const NodePrefix: string := "node-"

  /** The id the counter value `serial` is turned into. */
  function NodeId(serial: nat): (id: string)
    ensures |id| > |NodePrefix| && id[..|NodePrefix|] == NodePrefix
    ensures Decimal.IsCanonical(id[|NodePrefix|..])
  {
    NodePrefix + Decimal.Format(serial)
  }

  /** Recovers the counter value from a node id, or None if the text is not
      of the form `node-<n>` with `n` written canonically. */
  function ParseNodeId(id: string): (r: Option<nat>)
    ensures r.Some? ==> |id| > |NodePrefix| && Decimal.IsCanonical(id[|NodePrefix|..])
  {
    if |id| > |NodePrefix| && id[..|NodePrefix|] == NodePrefix && Decimal.IsCanonical(id[|NodePrefix|..]) then
      Some(Decimal.ValueOf(id[|NodePrefix|..]))
    else
      None
  }

  /** Parsing a generated id recovers the counter value it was made from. */
  lemma ParseNodeIdOfNodeId(serial: nat)
    ensures ParseNodeId(NodeId(serial)) == Some(serial)
  {
    var id := NodeId(serial);
    assert id[|NodePrefix|..] == Decimal.Format(serial);
    Decimal.ValueOfFormat(serial);
  }

  /** Every id that parses is exactly the id generated from its value. */
  lemma NodeIdOfParseNodeId(id: string, serial: nat)
    requires ParseNodeId(id) == Some(serial)
    ensures NodeId(serial) == id
  {
    var digits := id[|NodePrefix|..];
    Decimal.FormatValueOf(digits);
    assert id == id[..|NodePrefix|] + digits;
  }

  /** Two counter values give the same node id only if they are equal. */
  lemma NodeIdInjective(a: nat, b: nat)
    ensures NodeId(a) == NodeId(b) <==> a == b
  {
    if NodeId(a) == NodeId(b) {
      ParseNodeIdOfNodeId(a);
      ParseNodeIdOfNodeId(b);
    }
  }

  /** The id of the edge from `source` to `target`: `e-`, the source id, `-`,
      then the target id (`EdgeIdLayout` locates the parts). */
  function EdgeId(source: string, target: string): (id: string)
    ensures |id| == |source| + |target| + 3 && id[..2] == "e-"
  {
    "e-" + source + "-" + target
  }

  /** Where the parts of an edge id sit. */
  lemma EdgeIdLayout(source: string, target: string)
    ensures EdgeId(source, target)[2..2 + |source|] == source
    ensures EdgeId(source, target)[2 + |source|] == '-'
    ensures EdgeId(source, target)[3 + |source|..] == target
  {
  }

  /** Edge ids between generated node ids are unambiguous: the edge id
      determines both counter values, even though node ids contain '-'. */
  lemma {:induction false} EdgeIdInjective(a: nat, b: nat, c: nat, d: nat)
    requires EdgeId(NodeId(a), NodeId(b)) == EdgeId(NodeId(c), NodeId(d))
    ensures a == c && b == d
  {
    var x := EdgeId(NodeId(a), NodeId(b));
    EdgeIdLayout(NodeId(a), NodeId(b));
    EdgeIdLayout(NodeId(c), NodeId(d));
    // The '-' after the source id falls on a digit of the other source id
    // unless both have the same length.
    assert NodeId(a) == x[2..2 + |NodeId(a)|] == NodeId(c);
    assert NodeId(b) == x[3 + |NodeId(a)|..] == NodeId(d);
    NodeIdInjective(a, c);
    NodeIdInjective(b, d);
  }
}
