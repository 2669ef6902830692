/** The element that the Huffman table builder sorts: a 16-bit key, which is a symbol's count and
    later its code length, and the symbol. */
module SymFreqs {
  type Word16 = x: int | 0 <= x < 65536

  datatype SymFreq = SymFreq(key: Word16, sym: Word16)

  function Keys(s: seq<SymFreq>): (k: seq<nat>)
    ensures |k| == |s|
  {
    seq(|s|, i requires 0 <= i < |s| => s[i].key)
  }

  function Syms(s: seq<SymFreq>): (k: seq<nat>)
    ensures |k| == |s|
  {
    seq(|s|, i requires 0 <= i < |s| => s[i].sym)
  }
}
