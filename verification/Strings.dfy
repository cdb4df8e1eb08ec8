/** The length of a zero-terminated string, eight bytes at a time. */
module Strings {

  const WORD_SIZE := 8

  /** The 64-bit magic numbers, put together from their 32-bit halves. */
  const HIGH_MAGIC: bv64 := ((0x80808080 << 16) << 16) | 0x80808080
  const LOW_MAGIC: bv64 := ((0x01010101 << 16) << 16) | 0x01010101

  /** The test on a whole word. */
  predicate Flagged(w: bv64) {
    (w - LOW_MAGIC) & !w & HIGH_MAGIC != 0
  }

  /** The test tells exactly the words with a zero byte. */
  lemma FlaggedMeansZeroByte(w: bv64)
    ensures Flagged(w) <==>
            || w & 0xFF == 0 || (w >> 8) & 0xFF == 0 || (w >> 16) & 0xFF == 0 || (w >> 24) & 0xFF == 0
            || (w >> 32) & 0xFF == 0 || (w >> 40) & 0xFF == 0 || (w >> 48) & 0xFF == 0 || (w >> 56) & 0xFF == 0
  {
  }

  /** Eight bytes as a little-endian word. */
  function Join(b0: bv8, b1: bv8, b2: bv8, b3: bv8, b4: bv8, b5: bv8, b6: bv8, b7: bv8): bv64 {
    (b0 as bv64) | (b1 as bv64 << 8) | (b2 as bv64 << 16) | (b3 as bv64 << 24)
    | (b4 as bv64 << 32) | (b5 as bv64 << 40) | (b6 as bv64 << 48) | (b7 as bv64 << 56)
  }

  lemma JoinFlagged(b0: bv8, b1: bv8, b2: bv8, b3: bv8, b4: bv8, b5: bv8, b6: bv8, b7: bv8)
    ensures Flagged(Join(b0, b1, b2, b3, b4, b5, b6, b7))
            <==> b0 == 0 || b1 == 0 || b2 == 0 || b3 == 0 || b4 == 0 || b5 == 0 || b6 == 0 || b7 == 0
  {
  }

  function Word(b: seq<bv8>): bv64
    requires |b| == WORD_SIZE
  {
    Join(b[0], b[1], b[2], b[3], b[4], b[5], b[6], b[7])
  }

  ghost predicate HasZero(b: seq<bv8>) {
    exists i :: 0 <= i < |b| && b[i] == 0
  }

  lemma WordFlagged(b: seq<bv8>)
    requires |b| == WORD_SIZE
    ensures Flagged(Word(b)) <==> HasZero(b)
  {
    hide Flagged, Join;
    JoinFlagged(b[0], b[1], b[2], b[3], b[4], b[5], b[6], b[7]);
  }

  /** The length of the string at `str`: how many bytes lie before the first zero byte. */
  ghost predicate Length(memory: seq<bv8>, str: nat, n: nat) {
    str + n < |memory| && memory[str + n] == 0 && forall i :: str <= i < str + n ==> memory[i] != 0
  }

  /** Byte by byte. */
  function Scan(memory: seq<bv8>, str: nat): (n: nat)
    requires exists i :: str <= i < |memory| && memory[i] == 0
    ensures Length(memory, str, n)
    decreases |memory| - str
  {
    if memory[str] == 0 then 0
    else
      assert forall i :: str <= i < |memory| && memory[i] == 0 ==> str + 1 <= i;
      1 + Scan(memory, str + 1)
  }

  /** `memory` is a stretch of whole words; its first byte lies at a word boundary. */
  method Strlen(memory: array<bv8>, str: nat) returns (n: nat)
    requires memory.Length % WORD_SIZE == 0
    requires exists i :: str <= i < memory.Length && memory[i] == 0
    ensures n == Scan(memory[..], str)
  {
    hide Flagged, Word, Scan;
    ghost var m, end := memory[..], str + Scan(memory[..], str);
    var charPtr := str;
    while charPtr % WORD_SIZE != 0
      invariant str <= charPtr <= end
      decreases end - charPtr
    {
      if memory[charPtr] == 0 {
        return charPtr - str;
      }
      charPtr := charPtr + 1;
    }
    var longPtr := charPtr;
    while true
      invariant str <= longPtr <= end && longPtr % WORD_SIZE == 0
      decreases end - longPtr
    {
      var longWords := Word(memory[longPtr..longPtr + WORD_SIZE]);
      WordFlagged(m[longPtr..longPtr + WORD_SIZE]);
      ZeroInWord(m, str, end - str, longPtr);
      longPtr := longPtr + WORD_SIZE;
      if Flagged(longWords) {
        var prevLongPtr := longPtr - WORD_SIZE;
        var p := prevLongPtr;
        while p < prevLongPtr + WORD_SIZE
          invariant prevLongPtr <= p <= end
        {
          if memory[p] == 0 {
            return p - str;
          }
          p := p + 1;
        }
      }
    }
  }

  /** A word that begins inside the string or at its end has a zero byte exactly if the string ends in it, provided
      that the word begins no earlier than the string. */
  lemma ZeroInWord(m: seq<bv8>, str: nat, n: nat, w: nat)
    requires Length(m, str, n) && str <= w <= str + n && w + WORD_SIZE <= |m|
    ensures str + n < w + WORD_SIZE ==> HasZero(m[w..w + WORD_SIZE])
    ensures str + n >= w + WORD_SIZE ==> !HasZero(m[w..w + WORD_SIZE])
  {
    if str + n < w + WORD_SIZE {
      assert m[w..w + WORD_SIZE][str + n - w] == 0;
    }
  }
}
