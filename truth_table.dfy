// The truth table: a JavaScript Map<string, number> from bit patterns to
// output bits. A Map remembers insertion order (forEach visits entries in that
// order), so it is modelled as a list of entries with unique keys.

module TruthTables {
  import opened Patterns

  datatype Option<T> = None | Some(value: T)

  /** One (pattern, value) association; also the shape of a TruthTableDisplay row. */
  datatype Entry = Entry(pattern: string, value: Bit)

  function Keys(table: seq<Entry>): (ks: seq<string>)
    ensures |ks| == |table|
    ensures forall i :: 0 <= i < |table| ==> ks[i] == table[i].pattern
  {
    if table == [] then [] else [table[0].pattern] + Keys(table[1..])
  }

  predicate DistinctKeys(table: seq<Entry>)
  {
    forall i, j :: 0 <= i < j < |table| ==> table[i].pattern != table[j].pattern
  }

  /** Map.get: the value stored under key, or None (undefined). */
  function Get(table: seq<Entry>, key: string): (r: Option<Bit>)
    ensures r.None? <==> key !in Keys(table)
  {
    if table == [] then None
    else if table[0].pattern == key then Some(table[0].value)
    else Get(table[1..], key)
  }

  /** Map.set: overwrite the value of an existing key in place, or append a new entry. */
  function Set(table: seq<Entry>, key: string, value: Bit): (r: seq<Entry>)
  {
    if table == [] then [Entry(key, value)]
    else if table[0].pattern == key then [Entry(key, value)] + table[1..]
    else [table[0]] + Set(table[1..], key, value)
  }

  /** The table that generateTruthTable builds: the i-th pattern gets the i-th drawn bit. */
  function BuildTable(numberOfConnections: nat, bits: seq<Bit>): seq<Entry>
    requires |bits| >= |BitPatterns(numberOfConnections)|
  {
    var ps := BitPatterns(numberOfConnections);
    seq(|ps|, i requires 0 <= i < |ps| => Entry(ps[i], bits[i]))
  }

  // ---------------------------------------------------------------------------
  // Map semantics of Get and Set

  /** After set, get returns the new value for that key and the old one for every other key. */
  lemma {:induction false} GetSet(table: seq<Entry>, key: string, value: Bit, other: string)
    ensures Get(Set(table, key, value), key) == Some(value)
    ensures other != key ==> Get(Set(table, key, value), other) == Get(table, other)
  {
    if table != [] && table[0].pattern != key {
      GetSet(table[1..], key, value, other);
    }
  }

  /** Setting a key that is not yet present appends it at the end of the order. */
  lemma {:induction false} SetNewKey(table: seq<Entry>, key: string, value: Bit)
    requires key !in Keys(table)
    ensures Set(table, key, value) == table + [Entry(key, value)]
  {
    if table != [] {
      assert Keys(table) == [table[0].pattern] + Keys(table[1..]);
      SetNewKey(table[1..], key, value);
      assert table == [table[0]] + table[1..];
    }
  }

  /** With unique keys, get finds the value stored at any position. */
  lemma {:induction false} GetAt(table: seq<Entry>, i: nat)
    requires DistinctKeys(table) && i < |table|
    ensures Get(table, table[i].pattern) == Some(table[i].value)
  {
    if i > 0 {
      assert DistinctKeys(table[1..]) by {
        forall a, b | 0 <= a < b < |table[1..]|
          ensures table[1..][a].pattern != table[1..][b].pattern
        {
          assert table[1..][a] == table[a + 1] && table[1..][b] == table[b + 1];
        }
      }
      GetAt(table[1..], i - 1);
    }
  }

  // ---------------------------------------------------------------------------
  // What the built table is

  /** The keys are exactly the pattern list, in its order, and unique. */
  lemma BuildTableKeys(k: nat, bits: seq<Bit>)
    requires |bits| >= |BitPatterns(k)|
    ensures Keys(BuildTable(k, bits)) == BitPatterns(k)
    ensures DistinctKeys(BuildTable(k, bits))
  {
    BitPatternsDistinct(k);
  }

  /**
   * Looking a string up in the built table finds the bit drawn for it exactly
   * when it is a binary string of the table's width; any other string is absent.
   */
  lemma BuildTableGet(k: nat, bits: seq<Bit>, s: string)
    requires |bits| >= |BitPatterns(k)|
    ensures IsBinary(s) && |s| == Width(k) ==> Value(s) < |bits| && Get(BuildTable(k, bits), s) == Some(bits[Value(s)])
    ensures !(IsBinary(s) && |s| == Width(k)) ==> Get(BuildTable(k, bits), s) == None
  {
    var t := BuildTable(k, bits);
    BuildTableKeys(k, bits);
    BitPatternsComplete(k, s);
    BitPatternsShape(k);
    if IsBinary(s) && |s| == Width(k) {
      BinOfValue(s);
      ValueOfBin(Value(s), Width(k));
      GetAt(t, Value(s));
    }
  }
}
