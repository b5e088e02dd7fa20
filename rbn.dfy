// The simulation engine of the RBN component: the node records, the truth
// table, the network construction and one generation step with its history.
//
// Each call of Math.random is replaced by the next element of a draw list
// that the caller supplies: bits for node values and table outputs, indices
// in [0, numberOfNodes) for connection choices.

module Rbn {
  import opened Patterns
  import opened TruthTables
  import opened Network

  /**
   * One node record of the network. The records are reachable only through
   * the component's node list, so a record updated in place is modelled as
   * the list holding the updated value at the same position.
   */
  datatype RbnNode = RbnNode(index: nat, value: Bit, connections: seq<int>, connectionPattern: string)

  function Indices(ns: seq<RbnNode>): seq<nat>
  {
    seq(|ns|, i requires 0 <= i < |ns| => ns[i].index)
  }

  function Values(ns: seq<RbnNode>): seq<Bit>
  {
    seq(|ns|, i requires 0 <= i < |ns| => ns[i].value)
  }

  function Connections(ns: seq<RbnNode>): seq<seq<int>>
  {
    seq(|ns|, i requires 0 <= i < |ns| => ns[i].connections)
  }

  function ConnectionPatterns(ns: seq<RbnNode>): seq<string>
  {
    seq(|ns|, i requires 0 <= i < |ns| => ns[i].connectionPattern)
  }

  /** Node i sits at position i, so `node !== mainNode` is a comparison of indices. */
  predicate Indexed(ns: seq<RbnNode>)
  {
    forall i :: 0 <= i < |ns| ==> ns[i].index == i
  }

  /** The network is indexed and every connection names a node of it. */
  predicate WellFormed(ns: seq<RbnNode>)
  {
    Indexed(ns) && WellWired(|ns|, Connections(ns))
  }

  /** The lists agree everywhere except perhaps in the connections of their nodes. */
  predicate OnlyConnectionsDiffer(ns: seq<RbnNode>, ms: seq<RbnNode>)
  {
    |ns| == |ms| && forall t :: 0 <= t < |ns| ==> ns[t] == ms[t].(connections := ns[t].connections)
  }

  lemma OnlyConnectionsDifferKeeps(ns: seq<RbnNode>, ms: seq<RbnNode>)
    requires OnlyConnectionsDiffer(ns, ms)
    ensures Indices(ns) == Indices(ms) && Values(ns) == Values(ms)
    ensures ConnectionPatterns(ns) == ConnectionPatterns(ms)
  {
    assert forall t :: 0 <= t < |ns| ==> ns[t].index == ms[t].index && ns[t].value == ms[t].value;
  }

  /** Two lists with the same indices and connections are well formed together. */
  lemma SameShape(ns: seq<RbnNode>, ms: seq<RbnNode>)
    requires Indices(ns) == Indices(ms) && Connections(ns) == Connections(ms)
    requires WellFormed(ms)
    ensures WellFormed(ns)
  {
    forall i | 0 <= i < |ns| ensures ns[i].index == i {
      assert Indices(ns)[i] == Indices(ms)[i];
    }
  }

  class RbnComponent {
    var controlsActive: bool
    var numberOfNodesCalculated: int
    var numberOfNodes: nat
    var numberOfConnectionNodes: nat
    var truthTable: seq<Entry>
    var nodes: seq<RbnNode>
    var truthTableDisplay: seq<Entry>
    var showTruthTable: bool
    var buttonTruthTableTitle: string
    var resultNodes: seq<seq<string>>

    constructor ()
      ensures controlsActive && numberOfNodesCalculated == 0
      ensures numberOfNodes == 100 && numberOfConnectionNodes == 5
      ensures truthTable == [] && nodes == [] && resultNodes == []
      ensures truthTableDisplay == [] && !showTruthTable && buttonTruthTableTitle == "Show truth table"
    {
      controlsActive := true;
      numberOfNodesCalculated := 0;
      numberOfNodes := 100;
      numberOfConnectionNodes := 5;
      truthTable := [];
      nodes := [];
      truthTableDisplay := [];
      showTruthTable := false;
      buttonTruthTableTitle := "Show truth table";
      resultNodes := [];
    }

    // -------------------------------------------------------------------------
    // Truth table

    /** ngOnInit: build the table for the configured connection count. */
    method NgOnInit(bits: seq<Bit>)
      requires |bits| >= |BitPatterns(numberOfConnectionNodes)|
      modifies this`truthTable
      ensures truthTable == BuildTable(numberOfConnectionNodes, bits)
    {
      GenerateTruthTable(numberOfConnectionNodes, bits);
    }

    /** changeConnectionNodes: rebuild the table after the connection count changed. */
    method ChangeConnectionNodes(bits: seq<Bit>)
      requires |bits| >= |BitPatterns(numberOfConnectionNodes)|
      modifies this`truthTable
      ensures truthTable == BuildTable(numberOfConnectionNodes, bits)
    {
      GenerateTruthTable(numberOfConnectionNodes, bits);
    }

    /** Clear the table, then give every pattern, in list order, the next drawn bit. */
    method GenerateTruthTable(numberOfConnections: nat, bits: seq<Bit>)
      requires |bits| >= |BitPatterns(numberOfConnections)|
      modifies this`truthTable
      ensures truthTable == BuildTable(numberOfConnections, bits)
    {
      truthTable := [];
      var bitPatterns := GenerateBitPattern(numberOfConnections);
      BitPatternsDistinct(numberOfConnections);
      for j := 0 to |bitPatterns|
        invariant |truthTable| == j
        invariant forall t :: 0 <= t < j ==> truthTable[t] == Entry(bitPatterns[t], bits[t])
      {
        assert bitPatterns[j] !in Keys(truthTable) by {
          forall t | 0 <= t < j ensures Keys(truthTable)[t] != bitPatterns[j] {
            assert Keys(truthTable)[t] == bitPatterns[t];
          }
        }
        SetNewKey(truthTable, bitPatterns[j], bits[j]);
        truthTable := Set(truthTable, bitPatterns[j], bits[j]);
      }
    }

    /** Start from the four 2-bit patterns and double the list until the width is reached. */
    method GenerateBitPattern(numberOfConnections: nat) returns (basePattern: seq<string>)
      ensures basePattern == BitPatterns(numberOfConnections)
    {
      basePattern := ["00", "01", "10", "11"];
      BitPatternsBase(2);
      var index := 2;
      while index < numberOfConnections
        invariant 2 <= index && (index <= numberOfConnections || index == 2)
        invariant basePattern == Numerals(index)
      {
        var newPattern: seq<string> := [];
        for j := 0 to |basePattern|
          invariant newPattern == Doubled(basePattern[..j])
        {
          assert basePattern[..j + 1][..j] == basePattern[..j];
          newPattern := newPattern + [basePattern[j] + "0"];
          newPattern := newPattern + [basePattern[j] + "1"];
        }
        assert basePattern[..|basePattern|] == basePattern;
        DoubledNumerals(index);
        basePattern := newPattern;
        index := index + 1;
      }
    }

    // -------------------------------------------------------------------------
    // Network construction

    /** Push nodes 0 .. n-1, each with the next drawn value and no connections yet. */
    method InitMainNodes(numberOfNodesToGenerate: nat, bits: seq<Bit>)
      requires |bits| >= numberOfNodesToGenerate
      modifies this`nodes
      ensures |nodes| == |old(nodes)| + numberOfNodesToGenerate
      ensures nodes[..|old(nodes)|] == old(nodes)
      ensures forall i :: 0 <= i < numberOfNodesToGenerate ==> nodes[|old(nodes)| + i] == RbnNode(i, bits[i], [], "")
    {
      ghost var n0 := |nodes|;
      for index := 0 to numberOfNodesToGenerate
        invariant |nodes| == n0 + index
        invariant nodes[..n0] == old(nodes)
        invariant forall i :: 0 <= i < index ==> nodes[n0 + i] == RbnNode(i, bits[i], [], "")
      {
        nodes := nodes + [RbnNode(index, bits[index], [], "")];
      }
    }

    /**
     * Give every node, in order, the connections drawn for it; each node uses
     * the draws the previous ones left. `complete` tells whether the draws
     * sufficed for every node to get its full count.
     */
    method InitAssignConnectionNodes(draws: seq<int>) returns (complete: bool)
      requires Indexed(nodes) && |nodes| == numberOfNodes && IndicesBelow(numberOfNodes, draws)
      modifies this`nodes
      ensures WellFormed(nodes)
      ensures Connections(nodes) == Wire(numberOfNodes, numberOfConnectionNodes, draws)
      ensures complete <==> FullyWired(numberOfConnectionNodes, Connections(nodes))
      ensures OnlyConnectionsDiffer(nodes, old(nodes))
    {
      var rest := draws;
      ghost var done: seq<seq<int>> := [];
      for i := 0 to |nodes|
        invariant OnlyConnectionsDiffer(nodes, old(nodes))
        invariant IndicesBelow(numberOfNodes, rest)
        invariant (done, rest) == WireFirst(numberOfConnectionNodes, i, draws)
        invariant |done| == i && forall t :: 0 <= t < i ==> nodes[t].connections == done[t]
      {
        var mainNode := nodes[i];
        var conns, used := GenerateConnectionNodes(mainNode, rest);
        nodes := nodes[i := mainNode.(connections := conns)];
        done := done + [conns];
        RestBelow(numberOfNodes, rest, used);
        rest := rest[used..];
      }
      assert Connections(nodes) == done;
      assert Indexed(nodes);
      WireWellWired(numberOfNodes, numberOfConnectionNodes, draws);
      complete := FullyWired(numberOfConnectionNodes, Connections(nodes));
    }

    /**
     * Draw indices until the node has numberOfConnectionNodes inputs: a draw
     * naming the node itself is skipped, and so is one that `find` reports as
     * already present, but only when the found element is truthy (not 0).
     * The loop also stops when the draws run out.
     */
    method GenerateConnectionNodes(mainNode: RbnNode, draws: seq<int>) returns (connectionNodes: seq<int>, used: nat)
      requires Indexed(nodes) && mainNode in nodes
      requires |nodes| == numberOfNodes && IndicesBelow(numberOfNodes, draws)
      ensures (connectionNodes, used) == Sample(mainNode.index, numberOfConnectionNodes, [], draws)
    {
      var k := numberOfConnectionNodes;
      ghost var self := mainNode.index;
      ghost var goal := Sample(self, k, [], draws);
      assert nodes[self] == mainNode;
      var findConnectionNodes := true;
      connectionNodes := [];
      used := 0;
      while findConnectionNodes
        invariant used <= |draws|
        invariant Sample(self, k, connectionNodes, draws[used..]).0 == goal.0
        invariant used + Sample(self, k, connectionNodes, draws[used..]).1 == goal.1
        invariant !findConnectionNodes ==> |connectionNodes| >= k || used == |draws|
        decreases |draws| - used, if findConnectionNodes then 1 else 0
      {
        if |connectionNodes| < k {
          if used == |draws| {
            // the draws are exhausted; the source would go on drawing
            findConnectionNodes := false;
          } else {
            assert draws[used..][1..] == draws[used + 1..];
            var index := draws[used];
            used := used + 1;
            var node := nodes[index];
            if node != mainNode {
              var result := Find(connectionNodes, node.index);
              if !Truthy(result) {
                connectionNodes := connectionNodes + [node.index];
              }
            }
          }
        } else {
          findConnectionNodes := false;
        }
      }
    }

    // -------------------------------------------------------------------------
    // One generation

    /** The pattern of a connection list: the connected nodes' current values, in order. */
    method GenerateConnectionNodePattern(connectionNodes: seq<int>) returns (pattern: string)
      requires Wired(|nodes|, connectionNodes)
      ensures pattern == Pattern(Values(nodes), connectionNodes)
    {
      pattern := "";
      for j := 0 to |connectionNodes|
        invariant pattern == Pattern(Values(nodes), connectionNodes[..j])
      {
        var node := nodes[connectionNodes[j]];
        assert connectionNodes[..j + 1][..j] == connectionNodes[..j];
        pattern := pattern + [BitChar(node.value)];
      }
      assert connectionNodes[..|connectionNodes|] == connectionNodes;
    }

    /** First phase: cache every node's pattern, all computed from the values before the step. */
    method SetConnectionNodePattern()
      requires WellFormed(nodes)
      modifies this`nodes
      ensures Indices(nodes) == Indices(old(nodes)) && Values(nodes) == Values(old(nodes))
      ensures Connections(nodes) == Connections(old(nodes))
      ensures ConnectionPatterns(nodes) == AllPatterns(Values(nodes), Connections(nodes))
    {
      ghost var pats := AllPatterns(Values(nodes), Connections(nodes));
      for i := 0 to |nodes|
        invariant |nodes| == |old(nodes)|
        invariant forall t :: 0 <= t < |nodes| ==>
          nodes[t].index == old(nodes)[t].index && nodes[t].value == old(nodes)[t].value &&
          nodes[t].connections == old(nodes)[t].connections
        invariant forall t :: 0 <= t < i ==> nodes[t].connectionPattern == pats[t]
      {
        assert Values(nodes) == Values(old(nodes));
        var node := nodes[i];
        assert Connections(old(nodes))[i] == node.connections;
        var pattern := GenerateConnectionNodePattern(node.connections);
        nodes := nodes[i := node.(connectionPattern := pattern)];
      }
    }

    /** Second phase: each node becomes 1 when the table maps its cached pattern to 0, else 0. */
    method SetMainNodesValuesFromConnectionNodes()
      modifies this`nodes
      ensures Indices(nodes) == Indices(old(nodes)) && Connections(nodes) == Connections(old(nodes))
      ensures ConnectionPatterns(nodes) == ConnectionPatterns(old(nodes))
      ensures Values(nodes) == RuleAll(truthTable, ConnectionPatterns(nodes))
    {
      for i := 0 to |nodes|
        invariant |nodes| == |old(nodes)|
        invariant forall t :: 0 <= t < |nodes| ==>
          nodes[t].index == old(nodes)[t].index && nodes[t].connections == old(nodes)[t].connections &&
          nodes[t].connectionPattern == old(nodes)[t].connectionPattern
        invariant forall t :: 0 <= t < i ==> nodes[t].value == Rule(truthTable, nodes[t].connectionPattern)
      {
        var node := nodes[i];
        var patternValue := Get(truthTable, node.connectionPattern);
        nodes := nodes[i := node.(value := if patternValue == Some(0) then 1 else 0)];
      }
    }

    /** The current values as the strings `toString()` gives, in node order. */
    method NodeValueStrings() returns (arr: seq<string>)
      ensures arr == Snapshot(Values(nodes))
    {
      arr := [];
      for i := 0 to |nodes|
        invariant |arr| == i
        invariant forall t :: 0 <= t < i ==> arr[t] == [BitChar(nodes[t].value)]
      {
        arr := arr + [[BitChar(nodes[i].value)]];
      }
    }

    /**
     * runApplication without drawing and rescheduling: one generation, its
     * snapshot appended to the history, and the count of computed node values.
     */
    method RunApplication()
      requires WellFormed(nodes)
      modifies this`controlsActive, this`resultNodes, this`numberOfNodesCalculated, this`nodes
      ensures Indices(nodes) == Indices(old(nodes)) && Connections(nodes) == Connections(old(nodes))
      ensures WellFormed(nodes)
      ensures Values(nodes) == NextValues(Values(old(nodes)), Connections(nodes), truthTable)
      ensures ConnectionPatterns(nodes) == AllPatterns(Values(old(nodes)), Connections(nodes))
      ensures resultNodes == old(resultNodes) + [Snapshot(Values(nodes))]
      ensures numberOfNodesCalculated == NodesCalculated(|resultNodes|, numberOfNodes)
      ensures !controlsActive
    {
      controlsActive := false;
      ghost var before := Values(nodes);
      SetConnectionNodePattern();
      SetMainNodesValuesFromConnectionNodes();
      TwoPhase(before, Connections(nodes), truthTable);
      SameShape(nodes, old(nodes));

      var arr := NodeValueStrings();
      resultNodes := resultNodes + [arr];
      numberOfNodesCalculated := |resultNodes| * numberOfNodes;
      NodesCalculatedProduct(|resultNodes|, numberOfNodes);
    }

    /**
     * runCalculations without the canvas: empty the nodes and the history,
     * create the nodes, wire them, and compute the first generation. When the
     * draws do not suffice to wire every node, no generation is computed.
     */
    method RunCalculations(bits: seq<Bit>, draws: seq<int>) returns (complete: bool)
      requires |bits| >= numberOfNodes && IndicesBelow(numberOfNodes, draws)
      modifies this`nodes, this`resultNodes, this`controlsActive, this`numberOfNodesCalculated
      ensures WellFormed(nodes) && |nodes| == numberOfNodes
      ensures Connections(nodes) == Wire(numberOfNodes, numberOfConnectionNodes, draws)
      ensures complete <==> FullyWired(numberOfConnectionNodes, Connections(nodes))
      ensures Values(nodes) ==
        if complete then NextValues(bits[..numberOfNodes], Connections(nodes), truthTable) else bits[..numberOfNodes]
      ensures ConnectionPatterns(nodes) ==
        if complete then AllPatterns(bits[..numberOfNodes], Connections(nodes)) else seq(numberOfNodes, i => "")
      ensures resultNodes == if complete then [Snapshot(Values(nodes))] else []
      ensures numberOfNodesCalculated == if complete then numberOfNodes else old(numberOfNodesCalculated)
      ensures controlsActive == if complete then false else old(controlsActive)
    {
      nodes := [];
      resultNodes := [];
      InitMainNodes(numberOfNodes, bits);
      assert forall i :: 0 <= i < |nodes| ==> nodes[i] == RbnNode(i, bits[i], [], "") by {
        forall i | 0 <= i < |nodes| ensures nodes[i] == RbnNode(i, bits[i], [], "") {
          assert nodes[0 + i] == RbnNode(i, bits[i], [], "");
        }
      }
      assert Values(nodes) == bits[..numberOfNodes];
      assert ConnectionPatterns(nodes) == seq(numberOfNodes, i => "");
      ghost var created := nodes;
      complete := InitAssignConnectionNodes(draws);
      OnlyConnectionsDifferKeeps(nodes, created);
      if complete {
        RunApplication();
      }
    }

    /** Stop the run: only the controls come back; nodes and history stay as they are. */
    method CancelAnimation()
      modifies this`controlsActive
      ensures controlsActive
    {
      controlsActive := true;
    }

    /** Toggle the table view; when shown, it lists the table's entries in insertion order. */
    method DisplayTruthTable()
      modifies this`truthTableDisplay, this`showTruthTable, this`buttonTruthTableTitle
      ensures showTruthTable == !old(showTruthTable)
      ensures truthTableDisplay == if showTruthTable then truthTable else []
      ensures buttonTruthTableTitle == if showTruthTable then "Hide truth table" else "Show truth table"
    {
      truthTableDisplay := [];
      if showTruthTable {
        showTruthTable := false;
        buttonTruthTableTitle := "Show truth table";
      } else {
        showTruthTable := true;
        for i := 0 to |truthTable|
          invariant showTruthTable
          invariant truthTableDisplay == truthTable[..i]
        {
          truthTableDisplay := truthTableDisplay + [Entry(truthTable[i].pattern, truthTable[i].value)];
        }
        buttonTruthTableTitle := "Hide truth table";
      }
    }
  }
}
