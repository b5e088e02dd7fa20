# Random Boolean Network engine

This project models the simulation engine of `RbnComponent`, an Angular component that runs a Random Boolean Network (RBN), and proves properties of that model. A network has N nodes. Each holds a bit and reads k other nodes. One truth table, shared by all nodes, maps every k-bit input pattern to a stored bit. At each generation, every node first caches the pattern of its inputs' current values. Then every node takes the inverse of the bit the table stores for that pattern. Each generation's values are appended to a history as a row of `"0"`/`"1"` strings.

The model has four modules:

- `Patterns` (`patterns.dfy`): the pattern list that `generateBitPattern` builds. It is the list of all binary numerals of width `max(k, 2)`, in increasing order. The module proves its count, width, order and uniqueness, and the base case for k ≤ 2.
- `TruthTables` (`truth_table.dfy`): the JavaScript `Map<string, number>` as an insertion-ordered list of entries, with `get` and `set`. A built table's keys are exactly the pattern list.
- `Network` (`network.dfy`): the network as values.
  - How connection lists are drawn, including the `Array.find` quirk.
  - How a node's input pattern is formed, and the update rule.
  - The two-phase step, which is order independent, and the history rows.
- `Rbn` (`rbn.dfy`): the component itself. It is a class whose fields are the component's fields, and its methods follow the source's methods loop for loop. Every method is proved against the functions of `Network` and `Patterns`.

Each call of `Math.random` becomes the next element of a draw list that the caller passes in:

- bits (`Bit`, 0 or 1) for node values and table outputs;
- integers in `[0, numberOfNodes)` for connection choices.

The model follows the code where its prose description differs from it:

- A node can read node 0 more than once. `connectionNodes.find(...)` returns the element it found, and a found 0 is falsy, so the draw is kept. Every other index appears at most once. `Network.ZeroCanRepeat` and `Network.NonZeroDoesNotRepeat` show both cases.
- For k < 2 the table still has the four 2-bit patterns, while each node has k inputs. No node's pattern is then in the table, and `get` returns `undefined`, which is not `0`. The rule then gives 0, and it does not fail. `Network.RuleOnBuiltTable` states this case.

## Model

| member | source | states |
|---|---|---|
| Patterns.ValueOfBin | src/app/components/rbn/rbn.component.ts:57-72 | reading back the width-w numeral of any v < 2^w gives v |
| Patterns.BinOfValue | src/app/components/rbn/rbn.component.ts:57-72 | every binary string is the numeral of its own value, and that value is below 2^width |
| Patterns.BinOrdered | src/app/components/rbn/rbn.component.ts:57-72 | numerals of smaller numbers come strictly earlier in lexicographic order over '0' < '1' |
| Patterns.BitPatternsShape | src/app/components/rbn/rbn.component.ts:57-72 | the list has 2^max(k,2) entries; each has width max(k,2), is over {0,1}, and entry i has value i |
| Patterns.BitPatternsDistinct | src/app/components/rbn/rbn.component.ts:57-72 | no pattern occurs twice in the list |
| Patterns.BitPatternsComplete | src/app/components/rbn/rbn.component.ts:57-72 | a string is in the list exactly when it is binary and has width max(k,2) |
| Patterns.BitPatternsSorted | src/app/components/rbn/rbn.component.ts:57-72 | the list is strictly increasing in lexicographic order |
| Patterns.BitPatternsBase | src/app/components/rbn/rbn.component.ts:58-60 | for k ≤ 2 the loop never runs, and the list is "00", "01", "10", "11" |
| Patterns.BinExtend | src/app/components/rbn/rbn.component.ts:63-66 | appending '0' or '1' to the numeral of i gives the numeral of 2i or 2i+1, one digit wider |
| Patterns.DoubledAt | src/app/components/rbn/rbn.component.ts:61-66 | one doubling pass doubles the length and puts item+"0", then item+"1", at positions 2i and 2i+1 |
| Patterns.DoubledNumerals | src/app/components/rbn/rbn.component.ts:60-69 | doubling the width-w numerals gives exactly the width-(w+1) numerals, in order |
| TruthTables.Get | src/app/components/rbn/rbn.component.ts:148 | `get` gives undefined exactly when the key is not among the table's keys |
| TruthTables.GetSet | src/app/components/rbn/rbn.component.ts:52 | after `set`, `get` returns the new value for that key and the old result for every other key |
| TruthTables.SetNewKey | src/app/components/rbn/rbn.component.ts:52 | setting an absent key appends one entry at the end of the insertion order |
| TruthTables.GetAt | src/app/components/rbn/rbn.component.ts:148 | with unique keys, `get` finds the value stored at any position |
| TruthTables.BuildTableKeys | src/app/components/rbn/rbn.component.ts:46-54 | the built table's keys are exactly the pattern list, in its order, with no stale and no repeated keys |
| TruthTables.BuildTableGet | src/app/components/rbn/rbn.component.ts:46-54 | a lookup finds the bit drawn for a binary string of width max(k,2), the one drawn at the string's value; every other string is absent |
| Network.Find | src/app/components/rbn/rbn.component.ts:102-104 | `find` gives a result exactly when the index is in the list, and that result is the index itself |
| Network.Sample | src/app/components/rbn/rbn.component.ts:94-116 | the sampling loop consumes no more draws than it is given |
| Network.SampleShape | src/app/components/rbn/rbn.component.ts:94-116 | a drawn list extends the start list, is at most k long, holds in-range indices and never the node itself, repeats only index 0, and is short only when every draw was used |
| Network.ZeroCanRepeat | src/app/components/rbn/rbn.component.ts:101-108 | drawing 0 twice for node 2 with k = 2 gives the list [0, 0], because the found 0 is falsy |
| Network.NonZeroDoesNotRepeat | src/app/components/rbn/rbn.component.ts:101-108 | for node 0, drawing 1, 1, 2 with k = 2 gives [1, 2], because the second 1 is rejected |
| Network.WireShape | src/app/components/rbn/rbn.component.ts:87-91 | wiring the first `count` nodes gives one list per node, each of connection-list shape for that node and at most k long, and leaves in-range draws |
| Network.WireWellWired | src/app/components/rbn/rbn.component.ts:87-91 | the wired network has one list per node, and every connection names a node |
| Network.PatternAt | src/app/components/rbn/rbn.component.ts:136-144 | a pattern is binary, has one character per connection, and character i is the value of node conns[i] |
| Network.TwoPhase | src/app/components/rbn/rbn.component.ts:128-151 | caching all patterns from the old values and then applying the rule to each gives the next generation |
| Network.RuleOnBuiltTable | src/app/components/rbn/rbn.component.ts:146-151 | on a built table, a node with max(k,2) inputs gets the inverse of the bit drawn for its pattern; with any other input count the pattern is missing and the node gets 0 |
| Network.WriteInOrderAt | src/app/components/rbn/rbn.component.ts:146-151 | writing nodes in a given order sets exactly the visited nodes to the rule's value of their cached pattern |
| Network.OrderIndependent | src/app/components/rbn/rbn.component.ts:128-151 | once patterns are cached, writing the nodes in any order that visits each of them gives the same generation |
| Network.SnapshotRoundTrip | src/app/components/rbn/rbn.component.ts:201-205 | a history row holds "0" or "1" per node, and reading it back gives the node values |
| Network.NodesCalculatedProduct | src/app/components/rbn/rbn.component.ts:208 | the count of computed values after g recorded generations of n nodes is g * n |
| Rbn.OnlyConnectionsDifferKeeps | src/app/components/rbn/rbn.component.ts:88-90 | replacing only the connections keeps each node's index, value and cached pattern |
| Rbn.SameShape | src/app/components/rbn/rbn.component.ts:196-199 | a node list with the same indices and connections as a well-formed one is well formed |
| Rbn.RbnComponent.constructor | src/app/components/rbn/rbn.component.ts:15-31 | the start state: controls active, nothing calculated, 100 nodes, 5 connections, empty table, nodes and history, table hidden |
| Rbn.RbnComponent.NgOnInit | src/app/components/rbn/rbn.component.ts:41-43 | the table becomes the one built for the configured connection count |
| Rbn.RbnComponent.GenerateTruthTable | src/app/components/rbn/rbn.component.ts:46-54 | the table is cleared, and then pattern i of the list maps to draw i, in list order |
| Rbn.RbnComponent.GenerateBitPattern | src/app/components/rbn/rbn.component.ts:57-72 | the doubling loop returns the numerals of width max(k,2), in increasing order |
| Rbn.RbnComponent.InitMainNodes | src/app/components/rbn/rbn.component.ts:75-84 | exactly n nodes are appended: node i has index i, the i-th drawn value, no connections and an empty pattern; earlier nodes are kept |
| Rbn.RbnComponent.InitAssignConnectionNodes | src/app/components/rbn/rbn.component.ts:87-91 | each node, in order, gets the list drawn for it from the draws left by the previous nodes; nothing else in a node changes; the result says whether every list is full |
| Rbn.RbnComponent.GenerateConnectionNodes | src/app/components/rbn/rbn.component.ts:94-116 | the loop returns the list of the sampling function for this node, and the number of draws it used |
| Rbn.RbnComponent.GenerateConnectionNodePattern | src/app/components/rbn/rbn.component.ts:136-144 | the returned string is the input pattern of the connection list over the current values |
| Rbn.RbnComponent.SetConnectionNodePattern | src/app/components/rbn/rbn.component.ts:128-134 | every node caches its pattern over the values before the pass; values, indices and connections are unchanged |
| Rbn.RbnComponent.SetMainNodesValuesFromConnectionNodes | src/app/components/rbn/rbn.component.ts:146-151 | every node becomes 1 when the table maps its cached pattern to 0, and 0 otherwise; nothing else changes |
| Rbn.RbnComponent.ChangeConnectionNodes | src/app/components/rbn/rbn.component.ts:153-155 | the table is rebuilt for the current connection count |
| Rbn.RbnComponent.NodeValueStrings | src/app/components/rbn/rbn.component.ts:201-205 | the row holds each node's value as a one-character string, in node order |
| Rbn.RbnComponent.RunApplication | src/app/components/rbn/rbn.component.ts:196-208 | one synchronous generation: the controls lock, the values become the next generation, exactly one row is appended to the history, and the count is rows * nodes |
| Rbn.RbnComponent.RunCalculations | src/app/components/rbn/rbn.component.ts:215-222 | nodes and history are cleared, the nodes are created from the draws and wired, and when wiring completed one generation is computed and recorded as the only history row |
| Rbn.RbnComponent.CancelAnimation | src/app/components/rbn/rbn.component.ts:225-228 | only the controls become active again; the nodes, history and count are unchanged |
| Rbn.RbnComponent.DisplayTruthTable | src/app/components/rbn/rbn.component.ts:231-245 | the view flag flips; when shown, the display lists the table's entries in insertion order and the title says hide; when hidden, it is empty and the title says show |

## Left out

- The node record type comes from `src/app/models/rbnNode`, which is not part of this model. Its shape is taken from the literal that `initMainNodes` pushes.
- Node records are values held in the `nodes` list. The source updates node objects in place, and the model replaces the list element at the same position. The records are reachable only through that list, so no aliasing is lost. `node !== mainNode` becomes a comparison of records, which amounts to comparing indices, because node i sits at position i.
- `Math.random`, `Math.round` and `Math.floor` are replaced by draw lists. The model does not state anything about the distribution of the draws.
- Rbn.RbnComponent.GenerateConnectionNodes: the source loop draws until the list is full, and it never ends when k ≥ N. With a finite draw list, the model's loop also stops when the draws run out and returns a short list. `InitAssignConnectionNodes` then reports that wiring is incomplete.
- Rbn.RbnComponent.RunCalculations: when wiring is incomplete, it computes no generation. The source never reaches that state, because its draws are unbounded.
- Rbn.RbnComponent.RunApplication: `requestAnimationFrame` rescheduling is left out. The model computes one generation per call, and repeated calls give the animation's later frames. `displayNodeValues` and the canvas are left out as well.
- `cancelAnimationFrame`, `animationId` and the asynchronous frame loop are left out. As a result, the model has no concurrency between the frames and user actions.
- Rendering is left out, because it only draws pixels: `changeCanvasSize`, `displayNodeValues`, `changeOrientation`, `changeDotSize`, `drawSize`, `orientation`, `startDrawingAt`, the canvas context, and the HTML template.
- The option lists `numberOfNodesSelect`, `numberOfConnectionNodesSelect`, `orientationSelect` and `dotSizeSelect` are left out, and so are `numberOfNodeRuns` and `orientationValue`/`dotSizeValue`. None of them affects the engine.
- `numberOfNodes` and `numberOfConnectionNodes` are natural numbers. The select inputs offer nothing else, so negative or fractional counts are not modelled.
- `truthTableDisplay` rows reuse the table's entry type, because a `TruthTableDisplay` row has the same two fields.
- The Angular module, the routing module and the spec file are not part of this model.
