/**
  The separator tables of the tokenizer: a set of bytes packed into four 64-bit
  words, byte `c` being bit `c & 0x3F` of word `c / 64`. The tokenizer keeps three
  of them (field ends, subfield ends, walk-subfield ends).
 */
module ByteCodes {
  /** Converting a byte value to 8 bits and back loses nothing (split by the top two bits). */
  lemma CodeValue(n: int)
    requires 0 <= n < 256
    ensures (n as bv8) as int == n
  {
    if n < 64 {
      assert (n as bv8) as int == n;
    } else if n < 128 {
      assert (n as bv8) as int == n;
    } else if n < 192 {
      assert (n as bv8) as int == n;
    } else {
      assert (n as bv8) as int == n;
    }
  }
}

module Separators {
  import opened GfaBytes
  import opened ByteCodes

  /** The byte as the unsigned 8-bit value the source reads through `unsigned char`. */
  function Code(c: Byte): bv8 {
    c as int as bv8
  }

  /** Distinct bytes have distinct codes. */
  lemma CodeInjective(c: Byte, d: Byte)
    ensures Code(c) == Code(d) ==> c == d
  {
    CodeValue(c as int);
    CodeValue(d as int);
  }

  /** The word holding byte `c`: `c / 64`, that is the top two bits of its code. */
  function WordIndex(c: Byte): (r: nat)
    ensures r < 4
  {
    (Code(c) >> 6) as int
  }

  /** The position of byte `c` inside its word, `c & 0x3F`. */
  function BitIndex(c: Byte): (r: bv8)
    ensures r < 64
  {
    Code(c) & 0x3F
  }

  /** A word index and a bit position together determine the byte. */
  lemma IndexesDetermineByte(c: Byte, d: Byte)
    requires WordIndex(c) == WordIndex(d) && BitIndex(c) == BitIndex(d)
    ensures c == d
  {
    CodeInjective(c, d);
    assert Code(c) >> 6 == Code(d) >> 6;
  }

  /** The single bit that stands for byte `c` inside its word, `size_t(1) << (c & 0x3F)`. */
  function BitOf(c: Byte): bv64 {
    (1 as bv64) << BitIndex(c)
  }

  /** Is byte `c` in the table given by its four words? */
  predicate InWords(words: seq<bv64>, c: Byte)
    requires |words| == 4
  {
    words[WordIndex(c)] & BitOf(c) != 0
  }

  /** The words after OR-ing in the bit of `c`. */
  function WithBit(words: seq<bv64>, c: Byte): (r: seq<bv64>)
    requires |words| == 4
    ensures |r| == 4
  {
    words[WordIndex(c) := words[WordIndex(c)] | BitOf(c)]
  }

  lemma BitsOfOneWord(x: bv64, a: bv8, b: bv8)
    requires a < 64 && b < 64
    ensures ((x | ((1 as bv64) << a)) & ((1 as bv64) << b) != 0) <==> ((x & ((1 as bv64) << b) != 0) || a == b)
  {
  }

  /** Setting the bit of `c` adds `c` and changes the membership of no other byte. */
  lemma WithBitAddsExactly(words: seq<bv64>, c: Byte, d: Byte)
    requires |words| == 4
    ensures InWords(WithBit(words, c), d) <==> InWords(words, d) || d == c
  {
    if WordIndex(d) == WordIndex(c) {
      BitsOfOneWord(words[WordIndex(c)], BitIndex(c), BitIndex(d));
      if BitIndex(c) == BitIndex(d) {
        IndexesDetermineByte(c, d);
      }
    }
  }

  /** One separator table (`size_t field_end[4]` and its siblings). */
  class SeparatorMask {
    const words: array<bv64>
    /** The bytes the table holds. */
    ghost var Members: set<Byte>

    ghost predicate Valid()
      reads this, words
    {
      && words.Length == 4
      && forall c: Byte {:trigger InWords(words[..], c)} :: InWords(words[..], c) <==> c in Members
    }

    /** Four zero words: the table holds no byte. */
    constructor ()
      ensures Valid() && fresh(words)
      ensures Members == {}
    {
      words := new bv64[4](_ => 0);
      Members := {};
      new;
      forall c: Byte ensures !InWords(words[..], c) {
        assert words[..][WordIndex(c)] == 0;
      }
    }

    /** `add_field_end` and its siblings: OR the bit of `c` into its word. */
    method Add(c: Byte)
      requires Valid()
      modifies this, words
      ensures Valid()
      ensures Members == old(Members) + {c}
    {
      ghost var before := words[..];
      words[WordIndex(c)] := words[WordIndex(c)] | BitOf(c);
      assert words[..] == WithBit(before, c);
      Members := Members + {c};
      forall d: Byte ensures InWords(words[..], d) <==> d in Members {
        WithBitAddsExactly(before, c, d);
      }
    }

    /** `is_field_end` and its siblings: test the bit of `c`. */
    method Contains(c: Byte) returns (b: bool)
      requires Valid()
      ensures b <==> c in Members
    {
      b := words[WordIndex(c)] & BitOf(c) != 0;
      assert b == InWords(words[..], c);
    }
  }
}
