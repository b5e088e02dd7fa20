// Bit patterns of the Random Boolean Network: the keys of the truth table.
//
// A pattern is a string over {'0','1'}; the pattern list that the component
// enumerates for a connection count k is the list of all width-max(k,2)
// binary numerals in increasing order.

module Patterns {

  /** A node value or a truth-table output: the result of Math.round(Math.random()). */
  type Bit = b: int | 0 <= b <= 1

  function Pow2(n: nat): (p: nat)
    ensures p >= 1
  {
    if n == 0 then 1 else 2 * Pow2(n - 1)
  }

  /** The character that `toString()` gives for a bit. */
  function BitChar(b: Bit): char
  {
    if b == 0 then '0' else '1'
  }

  predicate IsBinary(s: string)
  {
    forall i :: 0 <= i < |s| ==> s[i] == '0' || s[i] == '1'
  }

  /** The width-w binary numeral of v, most significant bit first (v is taken modulo 2^w). */
  function Bin(v: nat, w: nat): (s: string)
    ensures |s| == w && IsBinary(s)
  {
    if w == 0 then "" else Bin(v / 2, w - 1) + [if v % 2 == 0 then '0' else '1']
  }

  /** The number a binary string denotes, reading its last character as the least significant bit. */
  function Value(s: string): nat
  {
    if s == [] then 0 else 2 * Value(s[..|s| - 1]) + (if s[|s| - 1] == '1' then 1 else 0)
  }

  /** Lexicographic order on two strings of equal length over '0' < '1'. */
  predicate LexLess(s: string, t: string)
  {
    |s| == |t| &&
    exists p :: 0 <= p < |s| && s[..p] == t[..p] && s[p] == '0' && t[p] == '1'
  }

  /** The width of the patterns built for a connection count: the list starts at width 2. */
  function Width(numberOfConnections: nat): nat
  {
    if numberOfConnections < 2 then 2 else numberOfConnections
  }

  /** All width-w numerals in increasing order: the i-th entry is the numeral of i. */
  function Numerals(w: nat): seq<string>
  {
    seq(Pow2(w), i requires 0 <= i => Bin(i, w))
  }

  /** The list that generateBitPattern returns, as a value. */
  function BitPatterns(numberOfConnections: nat): seq<string>
  {
    Numerals(Width(numberOfConnections))
  }

  /** One pass of the doubling loop: every entry, in order, followed by '0' and then by '1'. */
  function Doubled(s: seq<string>): seq<string>
  {
    if s == [] then [] else Doubled(s[..|s| - 1]) + [s[|s| - 1] + "0", s[|s| - 1] + "1"]
  }

  // ---------------------------------------------------------------------------
  // Bin and Value are inverse to each other

  lemma {:induction false} ValueOfBin(v: nat, w: nat)
    requires v < Pow2(w)
    ensures Value(Bin(v, w)) == v
  {
    if w > 0 {
      var s := Bin(v, w);
      assert s[..|s| - 1] == Bin(v / 2, w - 1);
      ValueOfBin(v / 2, w - 1);
    }
  }

  lemma {:induction false} BinOfValue(s: string)
    requires IsBinary(s)
    ensures Value(s) < Pow2(|s|)
    ensures Bin(Value(s), |s|) == s
  {
    if s != [] {
      var init := s[..|s| - 1];
      assert IsBinary(init) by {
        forall i | 0 <= i < |init| ensures init[i] == '0' || init[i] == '1' {
          assert init[i] == s[i];
        }
      }
      BinOfValue(init);
      var b := if s[|s| - 1] == '1' then 1 else 0;
      var v := 2 * Value(init) + b;
      assert v / 2 == Value(init) && v % 2 == b;
      assert Bin(v, |s|) == Bin(Value(init), |init|) + [if b == 0 then '0' else '1'];
      assert s == init + [s[|s| - 1]];
    }
  }

  /** Numerals of smaller numbers come first in lexicographic order. */
  lemma {:induction false} BinOrdered(i: nat, j: nat, w: nat)
    requires i < j < Pow2(w)
    ensures LexLess(Bin(i, w), Bin(j, w))
  {
    var s, t := Bin(i, w), Bin(j, w);
    assert w > 0;
    var s', t' := Bin(i / 2, w - 1), Bin(j / 2, w - 1);
    assert s == s' + [if i % 2 == 0 then '0' else '1'];
    assert t == t' + [if j % 2 == 0 then '0' else '1'];
    if i / 2 == j / 2 {
      assert i % 2 == 0 && j % 2 == 1;
      assert s[..w - 1] == s' == t' == t[..w - 1];
      assert s[w - 1] == '0' && t[w - 1] == '1';
    } else {
      BinOrdered(i / 2, j / 2, w - 1);
      var p :| 0 <= p < |s'| && s'[..p] == t'[..p] && s'[p] == '0' && t'[p] == '1';
      assert s[..p] == s'[..p] && t[..p] == t'[..p];
      assert s[p] == s'[p] && t[p] == t'[p];
    }
  }

  // ---------------------------------------------------------------------------
  // What the pattern list is

  /** The list has 2^w entries of width w over {0,1}, the i-th of value i. */
  lemma BitPatternsShape(k: nat)
    ensures |BitPatterns(k)| == Pow2(Width(k))
    ensures forall i :: 0 <= i < |BitPatterns(k)| ==>
      |BitPatterns(k)[i]| == Width(k) && IsBinary(BitPatterns(k)[i]) && Value(BitPatterns(k)[i]) == i
  {
    forall i | 0 <= i < |BitPatterns(k)|
      ensures Value(BitPatterns(k)[i]) == i
    {
      ValueOfBin(i, Width(k));
    }
  }

  /** No pattern occurs twice. */
  lemma BitPatternsDistinct(k: nat)
    ensures forall i, j :: 0 <= i < j < |BitPatterns(k)| ==> BitPatterns(k)[i] != BitPatterns(k)[j]
  {
    BitPatternsShape(k);
  }

  /** Every binary string of the right width is in the list, and nothing else is. */
  lemma BitPatternsComplete(k: nat, s: string)
    ensures s in BitPatterns(k) <==> IsBinary(s) && |s| == Width(k)
  {
    BitPatternsShape(k);
    if IsBinary(s) && |s| == Width(k) {
      BinOfValue(s);
      assert BitPatterns(k)[Value(s)] == s;
    }
  }

  /** The list is in increasing lexicographic order. */
  lemma BitPatternsSorted(k: nat)
    ensures forall i, j :: 0 <= i < j < |BitPatterns(k)| ==> LexLess(BitPatterns(k)[i], BitPatterns(k)[j])
  {
    forall i, j | 0 <= i < j < |BitPatterns(k)|
      ensures LexLess(BitPatterns(k)[i], BitPatterns(k)[j])
    {
      BinOrdered(i, j, Width(k));
    }
  }

  /** For a connection count of at most two the list is the four base patterns. */
  lemma BitPatternsBase(k: nat)
    requires k <= 2
    ensures BitPatterns(k) == ["00", "01", "10", "11"]
  {
    assert Width(k) == 2 && Pow2(2) == 4;
    assert Bin(0, 2) == "00" && Bin(1, 2) == "01" && Bin(2, 2) == "10" && Bin(3, 2) == "11";
  }

  /** Doubling step: extending the i-th numeral by '0' and '1' gives the numerals 2i and 2i+1. */
  lemma BinExtend(i: nat, w: nat)
    ensures Bin(2 * i, w + 1) == Bin(i, w) + "0"
    ensures Bin(2 * i + 1, w + 1) == Bin(i, w) + "1"
  {
    assert (2 * i) / 2 == i && (2 * i + 1) / 2 == i;
  }

  /** Entry i of the list gives entries 2i and 2i+1 of the doubled list. */
  lemma {:induction false} DoubledAt(s: seq<string>)
    ensures |Doubled(s)| == 2 * |s|
    ensures forall i :: 0 <= i < |s| ==> Doubled(s)[2 * i] == s[i] + "0" && Doubled(s)[2 * i + 1] == s[i] + "1"
  {
    if s != [] {
      DoubledAt(s[..|s| - 1]);
    }
  }

  /** Doubling the width-w numerals gives the width-(w+1) numerals. */
  lemma DoubledNumerals(w: nat)
    ensures Doubled(Numerals(w)) == Numerals(w + 1)
  {
    var s, d := Numerals(w), Doubled(Numerals(w));
    DoubledAt(s);
    forall t | 0 <= t < |d| ensures d[t] == Numerals(w + 1)[t] {
      var i := t / 2;
      BinExtend(i, w);
      if t % 2 == 0 {
        assert t == 2 * i;
      } else {
        assert t == 2 * i + 1;
      }
    }
  }
}
