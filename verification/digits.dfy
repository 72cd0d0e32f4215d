/**
 * The digit codec of popup.js: the 62-symbol alphabet `0-9`, `A-Z`, `a-z`,
 * `getVal` (the index of a symbol, -1 when absent) and `getChar` (the symbol
 * of a value, '?' outside [0, 62)).
 */
module Digits {

  /** popup.js `CHARS`, written as its three runs (the same 62-character string). */
  const Alphabet: string := "0123456789" + "ABCDEFGHIJKLMNOPQRSTUVWXYZ" + "abcdefghijklmnopqrstuvwxyz"

  /** The number of symbols, and so the largest magnitude a base may have. */
  const Radix: int := 62

  /** The symbol for value `v` as the three ASCII runs of the alphabet give it. */
  function SymbolOf(v: int): char
    requires 0 <= v < Radix
  {
    if v < 10 then ('0' as int + v) as char
    else if v < 36 then ('A' as int + (v - 10)) as char
    else ('a' as int + (v - 36)) as char
  }

  /** The alphabet literal is the three ASCII runs, in increasing character order. */
  lemma AlphabetShape()
    ensures |Alphabet| == Radix
    ensures forall v :: 0 <= v < Radix ==> Alphabet[v] == SymbolOf(v)
    ensures forall i, j :: 0 <= i < j < Radix ==> Alphabet[i] < Alphabet[j]
  {
  }

  /** `String.prototype.indexOf` for one character: the first position of `c`, or -1. */
  function IndexOf(s: string, c: char): (r: int)
    ensures -1 <= r < |s|
    ensures r == -1 <==> c !in s
    ensures r >= 0 ==> s[r] == c && c !in s[..r]
  {
    if |s| == 0 then -1
    else if s[0] == c then 0
    else
      var k := IndexOf(s[1..], c);
      assert s[1..][..if k < 0 then 0 else k] == s[1..if k < 0 then 1 else k + 1];
      if k == -1 then -1 else k + 1
  }

  /**
   * `CHARS.indexOf(c)`. Kept as its own function so that proofs about digit
   * strings see only this contract and not the search over the 62 symbols.
   */
  function AlphabetIndexOf(c: char): (v: int)
    ensures -1 <= v < Radix
    ensures v == -1 <==> c !in Alphabet
    ensures v >= 0 ==> Alphabet[v] == c && c !in Alphabet[..v]
  {
    IndexOf(Alphabet, c)
  }

  /** popup.js `getVal`: the value of a symbol, -1 for a character outside the alphabet. */
  function GetVal(c: char): (v: int)
    ensures -1 <= v < Radix
    ensures v == -1 <==> c !in Alphabet
    ensures v >= 0 ==> Alphabet[v] == c
  {
    AlphabetIndexOf(c)
  }

  /** popup.js `getChar`. */
  function GetChar(v: int): (c: char)
    ensures 0 <= v < Radix ==> c in Alphabet && c == SymbolOf(v)
    ensures !(0 <= v < Radix) ==> c == '?'
  {
    AlphabetShape();
    if v < 0 || v >= Radix then '?' else Alphabet[v]
  }

  /** Every digit value survives a trip through its symbol. */
  lemma ValueRoundTrip(v: int)
    requires 0 <= v < Radix
    ensures GetVal(GetChar(v)) == v
  {
    AlphabetShape();
    var k := GetVal(GetChar(v));
    assert Alphabet[v] !in Alphabet[..k];
  }

  /** Every alphabet symbol survives a trip through its value. */
  lemma SymbolRoundTrip(c: char)
    requires c in Alphabet
    ensures 0 <= GetVal(c) < Radix
    ensures GetChar(GetVal(c)) == c
  {
  }

  /** '?' is not a symbol, so `getChar` output outside the range never decodes. */
  lemma UnknownIsNotSymbol()
    ensures GetVal('?') == -1
  {
    AlphabetShape();
  }

  /**
   * The symbols of a digit vector, one per digit: the loop at popup.js:311-313.
   * A digit in range becomes its symbol; anything else becomes '?'.
   */
  function Render(d: seq<int>): (s: string)
    ensures |s| == |d|
    ensures forall k :: 0 <= k < |d| ==> (0 <= d[k] < Radix ==> s[k] in Alphabet && s[k] == SymbolOf(d[k]))
    ensures forall k :: 0 <= k < |d| ==> (!(0 <= d[k] < Radix) ==> s[k] == '?')
  {
    seq(|d|, k requires 0 <= k < |d| => GetChar(d[k]))
  }

  /** The digit values of a string, one per character (-1 for a foreign symbol). */
  function Decode(s: string): (d: seq<int>)
    ensures |d| == |s|
  {
    seq(|s|, k requires 0 <= k < |s| => GetVal(s[k]))
  }

  /** Rendering digits below 62 and decoding the result gives the digits back. */
  lemma DecodeRender(d: seq<int>)
    requires forall k :: 0 <= k < |d| ==> 0 <= d[k] < Radix
    ensures Decode(Render(d)) == d
  {
    forall k | 0 <= k < |d|
      ensures Decode(Render(d))[k] == d[k]
    {
      ValueRoundTrip(d[k]);
    }
  }

  /** Decoding a string of alphabet symbols and rendering the values gives the string back. */
  lemma RenderDecode(s: string)
    requires forall k :: 0 <= k < |s| ==> s[k] in Alphabet
    ensures Render(Decode(s)) == s
  {
  }
}
