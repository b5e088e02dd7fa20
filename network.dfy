// The network as values: how connection lists are drawn, how a node's input
// pattern is formed, and the rule that gives a generation's next values.

module Network {
  import opened Patterns
  import opened TruthTables

  // ---------------------------------------------------------------------------
  // Connection lists

  /** Array.prototype.find with the test `element === x`: the first such element, or undefined. */
  function Find(xs: seq<int>, x: int): (r: Option<int>)
    ensures r.Some? <==> x in xs
    ensures r.Some? ==> r.value == x
  {
    if xs == [] then None
    else if xs[0] == x then Some(xs[0])
    else Find(xs[1..], x)
  }

  /** JavaScript truthiness of a number or undefined: undefined and 0 are falsy. */
  predicate Truthy(r: Option<int>)
  {
    r.Some? && r.value != 0
  }

  /** A drawn index joins the list when it is not the node itself and `find` gives a falsy result. */
  predicate Accepts(self: int, acc: seq<int>, d: int)
  {
    d != self && !Truthy(Find(acc, d))
  }

  /**
   * The rejection-sampling loop of generateConnectionNodes over a finite list
   * of drawn indices: it stops once the list holds k entries or the draws run
   * out, and also says how many draws it consumed.
   */
  function Sample(self: int, k: nat, acc: seq<int>, draws: seq<int>): (r: (seq<int>, nat))
    ensures r.1 <= |draws|
    decreases |draws|
  {
    if |acc| >= k || draws == [] then (acc, 0)
    else
      var acc' := if Accepts(self, acc, draws[0]) then acc + [draws[0]] else acc;
      var rest := Sample(self, k, acc', draws[1..]);
      (rest.0, rest.1 + 1)
  }

  /**
   * The shape every connection list has: indices of nodes of the network,
   * never the node itself, and no index twice unless that index is 0.
   */
  predicate ConnectionList(n: nat, self: int, conns: seq<int>)
  {
    (forall i :: 0 <= i < |conns| ==> 0 <= conns[i] < n && conns[i] != self) &&
    (forall i, j :: 0 <= i < j < |conns| && conns[i] == conns[j] ==> conns[i] == 0)
  }

  predicate IndicesBelow(n: nat, draws: seq<int>)
  {
    forall i :: 0 <= i < |draws| ==> 0 <= draws[i] < n
  }

  /**
   * Sampling keeps the shape, extends the accumulated list, never exceeds k
   * entries, and ends short of k only when every draw has been used.
   */
  lemma {:induction false} SampleShape(n: nat, self: int, k: nat, acc: seq<int>, draws: seq<int>)
    requires IndicesBelow(n, draws)
    requires ConnectionList(n, self, acc) && |acc| <= k
    ensures ConnectionList(n, self, Sample(self, k, acc, draws).0)
    ensures acc <= Sample(self, k, acc, draws).0
    ensures |Sample(self, k, acc, draws).0| <= k
    ensures |Sample(self, k, acc, draws).0| < k ==> Sample(self, k, acc, draws).1 == |draws|
    decreases |draws|
  {
    if |acc| < k && draws != [] {
      var d := draws[0];
      var acc' := if Accepts(self, acc, d) then acc + [d] else acc;
      if Accepts(self, acc, d) {
        assert d !in acc || d == 0;
        forall i, j | 0 <= i < j < |acc'| && acc'[i] == acc'[j]
          ensures acc'[i] == 0
        {
          if j == |acc| { assert acc'[i] == acc[i]; }
        }
      }
      assert IndicesBelow(n, draws[1..]) by {
        forall i | 0 <= i < |draws[1..]| ensures 0 <= draws[1..][i] < n {
          assert draws[1..][i] == draws[i + 1];
        }
      }
      SampleShape(n, self, k, acc', draws[1..]);
    }
  }

  /**
   * The lists drawn for nodes 0 .. count-1, in node order, each from the draws
   * the previous nodes left, together with the draws left after them.
   */
  function WireFirst(k: nat, count: nat, draws: seq<int>): (r: (seq<seq<int>>, seq<int>))
  {
    if count == 0 then ([], draws)
    else
      var prev := WireFirst(k, count - 1, draws);
      var s := Sample(count - 1, k, [], prev.1);
      (prev.0 + [s.0], prev.1[s.1..])
  }

  /** The connection lists of a whole network of n nodes. */
  function Wire(n: nat, k: nat, draws: seq<int>): seq<seq<int>>
  {
    WireFirst(k, n, draws).0
  }

  /** Dropping the draws a node used leaves draws that are still node indices. */
  lemma RestBelow(n: nat, draws: seq<int>, used: nat)
    requires IndicesBelow(n, draws) && used <= |draws|
    ensures IndicesBelow(n, draws[used..])
  {
    forall t | 0 <= t < |draws[used..]| ensures 0 <= draws[used..][t] < n {
      assert draws[used..][t] == draws[used + t];
    }
  }

  /**
   * Wiring the first count nodes of an n-node network gives one list per node,
   * each of connection-list shape and at most k long, and leaves node indices.
   */
  lemma {:induction false} WireShape(n: nat, k: nat, count: nat, draws: seq<int>)
    requires IndicesBelow(n, draws) && count <= n
    ensures |WireFirst(k, count, draws).0| == count && IndicesBelow(n, WireFirst(k, count, draws).1)
    ensures forall i :: 0 <= i < count ==>
      ConnectionList(n, i, WireFirst(k, count, draws).0[i]) && |WireFirst(k, count, draws).0[i]| <= k
  {
    if count > 0 {
      WireShape(n, k, count - 1, draws);
      var prev := WireFirst(k, count - 1, draws);
      SampleShape(n, count - 1, k, [], prev.1);
      RestBelow(n, prev.1, Sample(count - 1, k, [], prev.1).1);
    }
  }

  /** Every connection of the wired network names a node of it. */
  lemma WireWellWired(n: nat, k: nat, draws: seq<int>)
    requires IndicesBelow(n, draws)
    ensures WellWired(n, Wire(n, k, draws))
  {
    WireShape(n, k, n, draws);
    var ws := Wire(n, k, draws);
    forall i | 0 <= i < n ensures Wired(n, ws[i]) {
      assert ConnectionList(n, i, ws[i]);
    }
  }

  /** Index 0 can be taken twice: `find` returns the element 0, which is falsy. */
  lemma ZeroCanRepeat()
    ensures Sample(2, 2, [], [0, 0]) == ([0, 0], 2)
  {
    assert Accepts(2, [], 0) && Accepts(2, [0], 0);
    assert [] + [0] == [0] && [0] + [0] == [0, 0] && [0][1..] == [] && [0, 0][1..] == [0];
    assert Sample(2, 2, [0, 0], []) == ([0, 0], 0);
    assert Sample(2, 2, [0], [0]) == ([0, 0], 1);
  }

  /** Any other index already in the list is drawn in vain. */
  lemma NonZeroDoesNotRepeat()
    ensures Sample(0, 2, [], [1, 1, 2]) == ([1, 2], 3)
  {
    assert Accepts(0, [], 1) && !Accepts(0, [1], 1) && Accepts(0, [1], 2);
    assert [1, 1, 2][1..] == [1, 2] && [1, 2][1..] == [2] && [2][1..] == [];
    assert [] + [1] == [1] && [1] + [2] == [1, 2];
    assert Sample(0, 2, [1, 2], []) == ([1, 2], 0);
    assert Sample(0, 2, [1], [2]) == ([1, 2], 1);
    assert Sample(0, 2, [1], [1, 2]) == ([1, 2], 2);
  }

  // ---------------------------------------------------------------------------
  // Input patterns and the update rule

  predicate Wired(n: nat, conns: seq<int>)
  {
    forall i :: 0 <= i < |conns| ==> 0 <= conns[i] < n
  }

  /** The input pattern of a node: its inputs' current values, in connection order. */
  function Pattern(vals: seq<Bit>, conns: seq<int>): string
    requires Wired(|vals|, conns)
  {
    if conns == [] then ""
    else Pattern(vals, conns[..|conns| - 1]) + [BitChar(vals[conns[|conns| - 1]])]
  }

  lemma {:induction false} PatternAt(vals: seq<Bit>, conns: seq<int>)
    requires Wired(|vals|, conns)
    ensures |Pattern(vals, conns)| == |conns| && IsBinary(Pattern(vals, conns))
    ensures forall i :: 0 <= i < |conns| ==> Pattern(vals, conns)[i] == BitChar(vals[conns[i]])
  {
    if conns != [] {
      var init := conns[..|conns| - 1];
      PatternAt(vals, init);
      assert forall i :: 0 <= i < |init| ==> init[i] == conns[i];
    }
  }

  /** The new value of a node: 1 when the table maps its pattern to 0, and 0 otherwise (also when absent). */
  function Rule(table: seq<Entry>, pattern: string): Bit
  {
    if Get(table, pattern) == Some(0) then 1 else 0
  }

  /** Every node got its full count of connections. */
  predicate FullyWired(k: nat, conns: seq<seq<int>>)
  {
    forall i :: 0 <= i < |conns| ==> |conns[i]| == k
  }

  predicate WellWired(n: nat, conns: seq<seq<int>>)
  {
    |conns| == n && forall i :: 0 <= i < n ==> Wired(n, conns[i])
  }

  /** First phase: every node's pattern, all read from the same values. */
  function AllPatterns(vals: seq<Bit>, conns: seq<seq<int>>): (ps: seq<string>)
    requires WellWired(|vals|, conns)
  {
    seq(|vals|, i requires 0 <= i < |vals| => Pattern(vals, conns[i]))
  }

  /** The next generation: node i takes the rule's value for its pattern over the previous values. */
  function NextValues(vals: seq<Bit>, conns: seq<seq<int>>, table: seq<Entry>): (next: seq<Bit>)
    requires WellWired(|vals|, conns)
  {
    seq(|vals|, i requires 0 <= i < |vals| => Rule(table, Pattern(vals, conns[i])))
  }

  /** Second phase: every node's new value from its cached pattern. */
  function RuleAll(table: seq<Entry>, pats: seq<string>): (next: seq<Bit>)
  {
    seq(|pats|, i requires 0 <= i < |pats| => Rule(table, pats[i]))
  }

  /** Caching all patterns first and then applying the rule gives the next generation. */
  lemma TwoPhase(vals: seq<Bit>, conns: seq<seq<int>>, table: seq<Entry>)
    requires WellWired(|vals|, conns)
    ensures RuleAll(table, AllPatterns(vals, conns)) == NextValues(vals, conns, table)
  {
  }

  /**
   * On a table built for connection count k, the rule inverts the bit drawn
   * for the pattern when the node has Width(k) inputs; with any other number
   * of inputs the pattern is never found and the node becomes 0.
   */
  lemma RuleOnBuiltTable(k: nat, bits: seq<Bit>, vals: seq<Bit>, conns: seq<int>)
    requires |bits| >= |BitPatterns(k)| && Wired(|vals|, conns)
    ensures |conns| == Width(k) ==>
      Value(Pattern(vals, conns)) < |bits| &&
      Rule(BuildTable(k, bits), Pattern(vals, conns)) == 1 - bits[Value(Pattern(vals, conns))]
    ensures |conns| != Width(k) ==> Rule(BuildTable(k, bits), Pattern(vals, conns)) == 0
  {
    PatternAt(vals, conns);
    BuildTableGet(k, bits, Pattern(vals, conns));
  }

  /** Second phase written node by node in a given order, each from the cached patterns. */
  function WriteInOrder(cur: seq<Bit>, pats: seq<string>, table: seq<Entry>, order: seq<int>): (r: seq<Bit>)
    requires |pats| == |cur| && Wired(|cur|, order)
    ensures |r| == |cur|
    decreases |order|
  {
    if order == [] then cur
    else WriteInOrder(cur[order[0] := Rule(table, pats[order[0]])], pats, table, order[1..])
  }

  lemma {:induction false} WriteInOrderAt(cur: seq<Bit>, pats: seq<string>, table: seq<Entry>, order: seq<int>, i: nat)
    requires |pats| == |cur| && Wired(|cur|, order) && i < |cur|
    ensures WriteInOrder(cur, pats, table, order)[i] == if i in order then Rule(table, pats[i]) else cur[i]
    decreases |order|
  {
    if order != [] {
      var cur' := cur[order[0] := Rule(table, pats[order[0]])];
      assert Wired(|cur'|, order[1..]) by {
        forall j | 0 <= j < |order[1..]| ensures 0 <= order[1..][j] < |cur'| {
          assert order[1..][j] == order[j + 1];
        }
      }
      WriteInOrderAt(cur', pats, table, order[1..], i);
      assert i in order <==> i == order[0] || i in order[1..];
    }
  }

  /**
   * Two-phase update is order independent: once every pattern is cached from
   * the previous values, writing the nodes in any order that visits each of
   * them gives the same next generation.
   */
  lemma OrderIndependent(vals: seq<Bit>, conns: seq<seq<int>>, table: seq<Entry>, order: seq<int>)
    requires WellWired(|vals|, conns) && Wired(|vals|, order)
    requires forall i :: 0 <= i < |vals| ==> i in order
    ensures WriteInOrder(vals, AllPatterns(vals, conns), table, order) == NextValues(vals, conns, table)
  {
    var r := WriteInOrder(vals, AllPatterns(vals, conns), table, order);
    forall i | 0 <= i < |vals| ensures r[i] == NextValues(vals, conns, table)[i] {
      WriteInOrderAt(vals, AllPatterns(vals, conns), table, order, i);
    }
  }

  // ---------------------------------------------------------------------------
  // Snapshots

  /** A history row: every node's value as the string `toString()` gives. */
  function Snapshot(vals: seq<Bit>): seq<string>
  {
    seq(|vals|, i requires 0 <= i < |vals| => [BitChar(vals[i])])
  }

  /** How a row is read back: "0" is a 0 node, anything else a 1 node. */
  function ReadSnapshot(row: seq<string>): seq<Bit>
  {
    seq(|row|, i requires 0 <= i < |row| => if row[i] == "0" then 0 else 1)
  }

  lemma SnapshotRoundTrip(vals: seq<Bit>)
    ensures ReadSnapshot(Snapshot(vals)) == vals
    ensures forall i :: 0 <= i < |vals| ==> Snapshot(vals)[i] == "0" || Snapshot(vals)[i] == "1"
  {
  }

  /** The count of computed node values after a number of recorded generations of n nodes each. */
  function NodesCalculated(generations: nat, n: nat): nat
  {
    if generations == 0 then 0 else NodesCalculated(generations - 1, n) + n
  }

  /** The count is the product `resultNodes.length * numberOfNodes`. */
  lemma {:induction false} NodesCalculatedProduct(generations: nat, n: nat)
    ensures NodesCalculated(generations, n) == generations * n
  {
    if generations > 0 {
      NodesCalculatedProduct(generations - 1, n);
    }
  }
}
