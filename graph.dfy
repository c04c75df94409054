/** The viewer's graph assembly: one pass over the records that emits a node
    per distinct KEP number (the first record with that number wins) and an
    edge for every citation in the citation map, in record order and then in
    citation order. */
module Graph {
  import opened Wrappers
  import opened Records

  // ---------------------------------------------------------------------------
  // Nodes and edges

  /** The tooltip `<div>`: the text of each of its six paragraphs. */
  datatype Tooltip = Tooltip(
    name: string,
    sig: string,
    number: string,
    milestone: string,
    stage: string,
    authors: string)

  /** A vis-network node; `caption` is its `label` property. */
  datatype Node = Node(id: string, caption: string, group: string, title: Tooltip)

  datatype Edge = Edge(from: string, to: string)

  /** The node id of a KEP number: the template `KEP-${n}`. */
  function NodeId(n: string): string {
    "KEP-" + n
  }

  lemma NodeIdInjective(a: string, b: string)
    requires NodeId(a) == NodeId(b)
    ensures a == b
  {
    assert a == NodeId(a)[4..];
    assert b == NodeId(b)[4..];
  }

  /** An array of strings in string context: its elements joined by commas. */
  function Join(xs: seq<string>): string
    decreases |xs|
  {
    if |xs| == 0 then "" else if |xs| == 1 then xs[0] else xs[0] + "," + Join(xs[1..])
  }

  /** The tooltip of a record. */
  function MakeTooltip(kep: Kep, n: string): Tooltip {
    Tooltip(
      "Name: " + kep.title,
      "SIG: " + kep.owningSig,
      "KEP Number: " + n,
      "Latest milestone: " + kep.latestMilestone,
      "Stage: " + kep.stage,
      "Authors: " + Join(kep.authors))
  }

  /** The node pushed for a record with a number. */
  function MakeNode(kep: Kep): Node
    requires kep.kepNumber.Some?
  {
    Node(NodeId(kep.kepNumber.value), kep.name, kep.owningSig, MakeTooltip(kep, kep.kepNumber.value))
  }

  /** `kepJson[n]`, with a missing key read as no citations. */
  function Lookup(kepJson: map<string, seq<string>>, n: string): seq<string> {
    if n in kepJson then kepJson[n] else []
  }

  /** The edges the inner `forEach` pushes for a record numbered `n`. */
  function EdgesFor(n: string, cites: seq<string>): (es: seq<Edge>)
    ensures |es| == |cites|
    ensures forall j :: 0 <= j < |cites| ==> es[j].from == NodeId(n) && es[j].to == NodeId(cites[j])
  {
    seq(|cites|, j requires 0 <= j < |cites| => Edge(NodeId(n), NodeId(cites[j])))
  }

  /** The ids of a node list. */
  function Ids(nodes: seq<Node>): set<string> {
    set k | 0 <= k < |nodes| :: nodes[k].id
  }

  // ---------------------------------------------------------------------------
  // The specification of one pass

  /** The nodes after the records `recs` have been visited in order. */
  function GraphNodes(recs: seq<Kep>): seq<Node>
    decreases |recs|
  {
    if recs == [] then []
    else
      var prev := GraphNodes(recs[..|recs| - 1]);
      var kep := recs[|recs| - 1];
      if kep.kepNumber.Some? && NodeId(kep.kepNumber.value) !in Ids(prev) then prev + [MakeNode(kep)]
      else prev
  }

  /** The edges after the records `recs` have been visited in order. */
  function GraphEdges(recs: seq<Kep>, kepJson: map<string, seq<string>>): seq<Edge>
    decreases |recs|
  {
    if recs == [] then []
    else
      var prev := GraphEdges(recs[..|recs| - 1], kepJson);
      var kep := recs[|recs| - 1];
      if kep.kepNumber.Some? then prev + EdgesFor(kep.kepNumber.value, Lookup(kepJson, kep.kepNumber.value))
      else prev
  }

  /** The assembly loop of the viewer's graph effect. `nodeIds` is the `Set`
      of ids already emitted; `nodes` and `edges` are the arrays handed to
      the network. */
  method BuildGraph(kepData: seq<Kep>, kepJson: map<string, seq<string>>) returns (nodes: seq<Node>, edges: seq<Edge>)
    ensures nodes == GraphNodes(kepData)
    ensures edges == GraphEdges(kepData, kepJson)
    ensures UniqueIds(nodes)
  {
    nodes := [];
    edges := [];
    var nodeIds: set<string> := {};
    var i := 0;
    while i < |kepData|
      invariant i <= |kepData|
      invariant nodes == GraphNodes(kepData[..i])
      invariant edges == GraphEdges(kepData[..i], kepJson)
      invariant nodeIds == Ids(nodes)
    {
      var element := kepData[i];
      assert kepData[..i + 1][..i] == kepData[..i];
      if element.kepNumber.Some? {
        var n := element.kepNumber.value;
        var nodeId := "KEP-" + n;
        if nodeId !in nodeIds {
          IdsSnoc(nodes, MakeNode(element));
          nodes := nodes + [MakeNode(element)];
          nodeIds := nodeIds + {nodeId};
        }
        if n in kepJson {
          edges := PushCitations(edges, n, kepJson[n]);
        }
      }
      i := i + 1;
    }
    assert kepData[..i] == kepData;
    NodesUnique(kepData);
  }

  /** The inner `forEach`: one edge from `nodeId` per citation, in order. */
  method PushCitations(edges: seq<Edge>, n: string, cites: seq<string>) returns (edges': seq<Edge>)
    ensures edges' == edges + EdgesFor(n, cites)
  {
    edges' := edges;
    for j := 0 to |cites|
      invariant edges' == edges + EdgesFor(n, cites[..j])
    {
      assert EdgesFor(n, cites[..j + 1]) == EdgesFor(n, cites[..j]) + [Edge(NodeId(n), NodeId(cites[j]))];
      edges' := edges' + [Edge("KEP-" + n, "KEP-" + cites[j])];
    }
    assert cites[..|cites|] == cites;
  }

  lemma IdsSnoc(nodes: seq<Node>, node: Node)
    ensures Ids(nodes + [node]) == Ids(nodes) + {node.id}
  {
    var nodes' := nodes + [node];
    forall id | id in Ids(nodes') ensures id in Ids(nodes) + {node.id} {
      var k :| 0 <= k < |nodes'| && nodes'[k].id == id;
      if k < |nodes| {
        assert nodes[k].id == id;
      }
    }
    forall id | id in Ids(nodes) ensures id in Ids(nodes') {
      var k :| 0 <= k < |nodes| && nodes[k].id == id;
      assert nodes'[k].id == id;
    }
    assert nodes'[|nodes|].id == node.id;
  }

  // ---------------------------------------------------------------------------
  // Properties of the nodes

  /** No two nodes share an id. */
  ghost predicate UniqueIds(nodes: seq<Node>) {
    forall k, l :: 0 <= k < l < |nodes| ==> nodes[k].id != nodes[l].id
  }

  /** The node list never repeats an id, whatever duplicates the records hold. */
  lemma {:induction false} NodesUnique(recs: seq<Kep>)
    ensures UniqueIds(GraphNodes(recs))
    decreases |recs|
  {
    if recs != [] {
      var prev := GraphNodes(recs[..|recs| - 1]);
      NodesUnique(recs[..|recs| - 1]);
      var kep := recs[|recs| - 1];
      if kep.kepNumber.Some? && NodeId(kep.kepNumber.value) !in Ids(prev) {
        var nodes := prev + [MakeNode(kep)];
        forall k, l | 0 <= k < l < |nodes| ensures nodes[k].id != nodes[l].id {
          if l == |prev| {
            assert nodes[k].id == prev[k].id;
            assert prev[k].id in Ids(prev);
          } else {
            assert nodes[k] == prev[k] && nodes[l] == prev[l];
          }
        }
      }
    }
  }

  /** Record `i` is the first one with its (defined) number. */
  ghost predicate IsFirst(recs: seq<Kep>, i: int)
    requires 0 <= i < |recs|
  {
    recs[i].kepNumber.Some? && forall j :: 0 <= j < i ==> recs[j].kepNumber != recs[i].kepNumber
  }

  /** The indices of the records that emit a node: those that are the first
      with their number, in increasing order. */
  ghost function FirstIndices(recs: seq<Kep>): seq<int>
    decreases |recs|
  {
    if recs == [] then []
    else FirstIndices(recs[..|recs| - 1]) + (if IsFirst(recs, |recs| - 1) then [|recs| - 1] else [])
  }

  /** `FirstIndices` holds exactly the first occurrences, in strictly
      increasing order. */
  lemma {:induction false} FirstIndicesExact(recs: seq<Kep>)
    ensures forall k :: 0 <= k < |FirstIndices(recs)| ==>
              0 <= FirstIndices(recs)[k] < |recs| && IsFirst(recs, FirstIndices(recs)[k])
    ensures forall k, l :: 0 <= k < l < |FirstIndices(recs)| ==> FirstIndices(recs)[k] < FirstIndices(recs)[l]
    ensures forall i :: 0 <= i < |recs| && IsFirst(recs, i) ==> i in FirstIndices(recs)
    decreases |recs|
  {
    if recs != [] {
      var init := recs[..|recs| - 1];
      FirstIndicesExact(init);
      forall i | 0 <= i < |init| ensures IsFirst(init, i) == IsFirst(recs, i) {
        assert forall j :: 0 <= j <= i ==> init[j] == recs[j];
      }
    }
  }

  /** The nodes are the records that are first with their number, in record
      order, each turned into its node: id `KEP-<n>`, the record's name as
      label, its SIG as group and its tooltip. */
  lemma {:induction false} NodesAreFirstRecords(recs: seq<Kep>)
    ensures |GraphNodes(recs)| == |FirstIndices(recs)|
    ensures forall k :: 0 <= k < |GraphNodes(recs)| ==>
              0 <= FirstIndices(recs)[k] < |recs| && recs[FirstIndices(recs)[k]].kepNumber.Some? &&
              GraphNodes(recs)[k] == MakeNode(recs[FirstIndices(recs)[k]])
    decreases |recs|
  {
    if recs != [] {
      var init := recs[..|recs| - 1];
      var kep := recs[|recs| - 1];
      NodesAreFirstRecords(init);
      FirstIndicesExact(init);
      forall i | 0 <= i < |init| ensures IsFirst(init, i) == IsFirst(recs, i) {
        assert forall j :: 0 <= j <= i ==> init[j] == recs[j];
      }
      var prev := GraphNodes(init);
      if kep.kepNumber.Some? {
        var n := kep.kepNumber.value;
        NodeIdsExact(init, NodeId(n));
        if NodeId(n) in Ids(prev) {
          var i :| 0 <= i < |init| && init[i].kepNumber.Some? && NodeId(init[i].kepNumber.value) == NodeId(n);
          NodeIdInjective(init[i].kepNumber.value, n);
          assert recs[i].kepNumber == kep.kepNumber;
          assert !IsFirst(recs, |recs| - 1);
        } else {
          forall j | 0 <= j < |recs| - 1 ensures recs[j].kepNumber != kep.kepNumber {
            assert init[j] == recs[j];
            assert !(init[j].kepNumber.Some? && NodeId(init[j].kepNumber.value) == NodeId(n));
          }
          assert IsFirst(recs, |recs| - 1);
        }
      }
    }
  }

  /** An id is a node id exactly when some record has a number with that id. */
  lemma {:induction false} NodeIdsExact(recs: seq<Kep>, id: string)
    ensures id in Ids(GraphNodes(recs)) <==>
              exists i :: 0 <= i < |recs| && recs[i].kepNumber.Some? && NodeId(recs[i].kepNumber.value) == id
    decreases |recs|
  {
    if recs != [] {
      var init := recs[..|recs| - 1];
      var kep := recs[|recs| - 1];
      var prev := GraphNodes(init);
      NodeIdsExact(init, id);
      if kep.kepNumber.Some? && NodeId(kep.kepNumber.value) !in Ids(prev) {
        IdsSnoc(prev, MakeNode(kep));
      }
      if id in Ids(prev) {
        var i :| 0 <= i < |init| && init[i].kepNumber.Some? && NodeId(init[i].kepNumber.value) == id;
        assert recs[i] == init[i];
      }
      if i :| 0 <= i < |recs| && recs[i].kepNumber.Some? && NodeId(recs[i].kepNumber.value) == id {
        if i < |init| {
          assert init[i] == recs[i];
        }
      }
    }
  }

  // ---------------------------------------------------------------------------
  // Properties of the edges

  /** The total number of citations of the records that have a number,
      repeats included. */
  function CitationCount(recs: seq<Kep>, kepJson: map<string, seq<string>>): nat
    decreases |recs|
  {
    if recs == [] then 0
    else
      var kep := recs[|recs| - 1];
      CitationCount(recs[..|recs| - 1], kepJson) + (if kep.kepNumber.Some? then |Lookup(kepJson, kep.kepNumber.value)| else 0)
  }

  /** Every processed record contributes all of its citations: duplicates
      re-emit theirs, so the edge count is the sum of the entry sizes. */
  lemma {:induction false} EdgeCount(recs: seq<Kep>, kepJson: map<string, seq<string>>)
    ensures |GraphEdges(recs, kepJson)| == CitationCount(recs, kepJson)
    decreases |recs|
  {
    if recs != [] {
      EdgeCount(recs[..|recs| - 1], kepJson);
    }
  }

  /** Edge `e` is one that record `i` emits: its number's id to the id of
      one of its citations. */
  ghost predicate EmittedBy(recs: seq<Kep>, kepJson: map<string, seq<string>>, i: int, e: Edge)
    requires 0 <= i < |recs|
  {
    && recs[i].kepNumber.Some?
    && e.from == NodeId(recs[i].kepNumber.value)
    && e.to in EdgeTargets(Lookup(kepJson, recs[i].kepNumber.value))
  }

  /** The ids of a citation list. */
  function EdgeTargets(cites: seq<string>): set<string> {
    set j | 0 <= j < |cites| :: NodeId(cites[j])
  }

  /** An edge appears exactly when some record with a number has a citation
      whose id is its target. A record whose number is not a key of the map,
      or whose entry is empty, emits none; a target need not be a node. */
  lemma {:induction false} EdgeMembers(recs: seq<Kep>, kepJson: map<string, seq<string>>, e: Edge)
    ensures e in GraphEdges(recs, kepJson) <==> exists i :: 0 <= i < |recs| && EmittedBy(recs, kepJson, i, e)
    decreases |recs|
  {
    if recs != [] {
      var init := recs[..|recs| - 1];
      var kep := recs[|recs| - 1];
      EdgeMembers(init, kepJson, e);
      forall i | 0 <= i < |init| ensures EmittedBy(init, kepJson, i, e) == EmittedBy(recs, kepJson, i, e) {
        assert init[i] == recs[i];
      }
      if kep.kepNumber.Some? {
        var n := kep.kepNumber.value;
        var cites := Lookup(kepJson, n);
        var es := EdgesFor(n, cites);
        if e in es {
          var j :| 0 <= j < |es| && es[j] == e;
          assert NodeId(cites[j]) in EdgeTargets(cites);
          assert EmittedBy(recs, kepJson, |recs| - 1, e);
        }
        if EmittedBy(recs, kepJson, |recs| - 1, e) {
          var j :| 0 <= j < |cites| && NodeId(cites[j]) == e.to;
          assert es[j] == e;
        }
      }
    }
  }

  /** Every edge starts at a node: the record that emits it has already
      emitted, or found, the node for its number. */
  lemma EdgeSourcesAreNodes(recs: seq<Kep>, kepJson: map<string, seq<string>>, e: Edge)
    requires e in GraphEdges(recs, kepJson)
    ensures e.from in Ids(GraphNodes(recs))
  {
    EdgeMembers(recs, kepJson, e);
    NodeIdsExact(recs, e.from);
  }

  /** The records with a number, in order. */
  function Defined(recs: seq<Kep>): (ds: seq<Kep>)
    ensures forall kep :: kep in ds ==> kep.kepNumber.Some?
    decreases |recs|
  {
    if recs == [] then []
    else
      var kep := recs[|recs| - 1];
      Defined(recs[..|recs| - 1]) + (if kep.kepNumber.Some? then [kep] else [])
  }

  /** Records without a number contribute neither nodes nor edges: dropping
      them changes nothing. */
  lemma {:induction false} UndefinedContributeNothing(recs: seq<Kep>, kepJson: map<string, seq<string>>)
    ensures GraphNodes(Defined(recs)) == GraphNodes(recs)
    ensures GraphEdges(Defined(recs), kepJson) == GraphEdges(recs, kepJson)
    decreases |recs|
  {
    if recs != [] {
      var init := recs[..|recs| - 1];
      var kep := recs[|recs| - 1];
      UndefinedContributeNothing(init, kepJson);
      if kep.kepNumber.Some? {
        var ds := Defined(init) + [kep];
        assert Defined(recs) == ds;
        assert ds[..|ds| - 1] == Defined(init) && ds[|ds| - 1] == kep;
        assert GraphNodes(ds) == GraphNodes(recs);
        assert GraphEdges(ds, kepJson) == GraphEdges(recs, kepJson);
      } else {
        assert Defined(recs) == Defined(init);
      }
    }
  }

  // ---------------------------------------------------------------------------
  // Two small graphs

  /** A citation of a KEP that has no record still yields an edge; its
      target is not a node. */
  lemma DanglingEdgeKept()
    ensures var one := Kep(Some("1"), "one", "sig-a", "One", "alpha", "v1.0", ["a"], None);
            GraphEdges([one], map["1" := ["2"]]) == [Edge("KEP-1", "KEP-2")] &&
            "KEP-2" !in Ids(GraphNodes([one]))
  {
    var one := Kep(Some("1"), "one", "sig-a", "One", "alpha", "v1.0", ["a"], None);
    var json := map["1" := ["2"]];
    assert [one][..0] == [];
    assert Lookup(json, "1") == ["2"];
    OneEdge("1", "2");
    assert NodeId("1") == "KEP-1" && NodeId("2") == "KEP-2";
    assert EdgesFor("1", ["2"]) == [Edge("KEP-1", "KEP-2")];
    assert GraphEdges([one], json) == [] + EdgesFor("1", ["2"]);
    assert GraphNodes([one]) == [MakeNode(one)];
    assert Ids([MakeNode(one)]) == {"KEP-1"} by {
      IdsSnoc([], MakeNode(one));
      assert Ids([]) == {};
      assert [] + [MakeNode(one)] == [MakeNode(one)];
    }
  }

  /** Two records with the same number give one node (the first record's)
      and both records' edges. */
  lemma DuplicateRecordReEmitsEdges()
    ensures var a := Kep(Some("1"), "first", "sig-a", "A", "alpha", "v1.0", [], None);
            var b := Kep(Some("1"), "second", "sig-b", "B", "beta", "v1.1", [], None);
            GraphNodes([a, b]) == [MakeNode(a)] &&
            GraphEdges([a, b], map["1" := ["2"]]) == [Edge("KEP-1", "KEP-2"), Edge("KEP-1", "KEP-2")]
  {
    var a := Kep(Some("1"), "first", "sig-a", "A", "alpha", "v1.0", [], None);
    var b := Kep(Some("1"), "second", "sig-b", "B", "beta", "v1.1", [], None);
    assert [a, b][..1] == [a];
    assert [a][..0] == [];
    assert GraphNodes([a]) == [MakeNode(a)];
    assert "KEP-1" in Ids([MakeNode(a)]) by {
      assert [MakeNode(a)][0].id == "KEP-1";
    }
    var json := map["1" := ["2"]];
    assert Lookup(json, "1") == ["2"];
    OneEdge("1", "2");
    assert NodeId("1") == "KEP-1" && NodeId("2") == "KEP-2";
    assert EdgesFor("1", ["2"]) == [Edge("KEP-1", "KEP-2")];
    assert GraphEdges([a], json) == [] + [Edge("KEP-1", "KEP-2")];
    assert GraphEdges([a, b], json) == GraphEdges([a], json) + EdgesFor("1", Lookup(json, "1"));
    assert [Edge("KEP-1", "KEP-2")] + [Edge("KEP-1", "KEP-2")] == [Edge("KEP-1", "KEP-2"), Edge("KEP-1", "KEP-2")];
  }

  lemma OneEdge(n: string, c: string)
    ensures EdgesFor(n, [c]) == [Edge(NodeId(n), NodeId(c))]
  {
    var es := EdgesFor(n, [c]);
    assert |es| == 1 && es[0] == Edge(NodeId(n), NodeId(c));
  }
}
