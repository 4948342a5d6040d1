/**
  Bytes of a memory-mapped GFA file, the byte classes the tokenizer separates on,
  and the decimal numbers the converters read (`stoul_unsafe`) and write
  (`std::to_string`, the line writer's integer output).
 */
module GfaBytes {

  /** One byte of the mapped file, kept as a character below 256 so that literals stay readable. */
  type Byte = c: char | c as int < 256 witness '\0'

  /** A byte string: the mapped file, a field, a segment name, an emitted line. */
  type Text = seq<Byte>

  /** 2^64: the range of `size_t`, `std::uint64_t` and `gbwt::size_type`. */
  const WORD: nat := 0x1_0000_0000_0000_0000

  /** Field separators: tab and newline. */
  predicate IsFieldSeparator(c: Byte) {
    c == '\t' || c == '\n'
  }

  /** Separators that end a comma-separated path subfield. */
  predicate IsSubfieldSeparator(c: Byte) {
    c == '\t' || c == '\n' || c == ','
  }

  /** The orientation glyphs that open a walk subfield. */
  predicate IsWalkGlyph(c: Byte) {
    c == '<' || c == '>'
  }

  /** Separators that end a walk subfield: the field separators and the orientation glyphs. */
  predicate IsWalkSubfieldSeparator(c: Byte) {
    c == '\t' || c == '\n' || IsWalkGlyph(c)
  }

  /** No byte of `s` separates fields or subfields of any kind. */
  predicate SeparatorFree(s: Text) {
    forall i :: 0 <= i < |s| ==> !IsWalkSubfieldSeparator(s[i]) && s[i] != ','
  }

  // ---------------------------------------------------------------------------
  // Decimal numbers

  predicate IsDigit(c: Byte) {
    '0' <= c <= '9'
  }

  predicate AllDigits(s: Text) {
    forall i :: 0 <= i < |s| ==> IsDigit(s[i])
  }

  /** The mathematical value of a digit string (0 for the empty string). */
  function Value(s: Text): nat
    requires AllDigits(s)
  {
    if s == [] then 0
    else 10 * Value(s[..|s| - 1]) + (s[|s| - 1] as int - '0' as int)
  }

  /** The digit byte for 0 <= d < 10. */
  function DigitByte(d: nat): (c: Byte)
    requires d < 10
    ensures IsDigit(c) && c as int - '0' as int == d
  {
    ('0' as int + d) as char
  }

  /** The shortest decimal spelling of `n`, as `std::to_string` writes it. */
  function Decimal(n: nat): (s: Text)
    ensures 1 <= |s| && AllDigits(s)
    ensures |s| > 1 ==> s[0] != '0'
    ensures Value(s) == n
  {
    if n < 10 then [DigitByte(n)]
    else
      var s := Decimal(n / 10) + [DigitByte(n % 10)];
      assert s[..|s| - 1] == Decimal(n / 10);
      s
  }

  /**
    The value of a byte read as a plain `char`, which is a signed 8-bit type on
    x86-64: bytes from 0x80 on are negative.
   */
  function CharCode(c: Byte): (r: int)
    ensures -128 <= r < 128 && r % 256 == c as int % 256
    ensures c as int < 128 ==> r == c as int
  {
    if c as int < 128 then c as int else c as int - 256
  }

  /**
    What the loop of `stoul_unsafe` accumulates: `result = 10 * result + (c - '0')`
    with `c` a signed `char`, the sum converted to 64-bit unsigned arithmetic.
   */
  function Accumulated(s: Text): (r: nat)
    ensures r < WORD
  {
    if s == [] then 0
    else (10 * Accumulated(s[..|s| - 1]) + (CharCode(s[|s| - 1]) - '0' as int)) % WORD
  }

  /** `stoul_unsafe`: parse a nonnegative integer, assuming the string is a valid one. */
  method StoulUnsafe(s: Text) returns (result: nat)
    ensures result == Accumulated(s)
    ensures AllDigits(s) ==> result == Value(s) % WORD
  {
    result := 0;
    for i := 0 to |s|
      invariant result == Accumulated(s[..i])
    {
      assert s[..i + 1][..i] == s[..i];
      result := (10 * result + (CharCode(s[i]) - '0' as int)) % WORD;
    }
    assert s[..|s|] == s;
    if AllDigits(s) {
      AccumulatedDigits(s);
    }
  }

  lemma ModShift(a: int, q: int)
    ensures (a + q * WORD) % WORD == a % WORD
  {
  }

  /** On a digit string the wrapping accumulation is the value reduced modulo 2^64. */
  lemma {:induction false} AccumulatedDigits(s: Text)
    requires AllDigits(s)
    ensures Accumulated(s) == Value(s) % WORD
  {
    if s != [] {
      var p := s[..|s| - 1];
      var d := s[|s| - 1] as int - '0' as int;
      assert CharCode(s[|s| - 1]) - '0' as int == d;
      assert AllDigits(p);
      AccumulatedDigits(p);
      var v := Value(p);
      var q := v / WORD;
      assert v == q * WORD + v % WORD;
      calc {
        Accumulated(s);
        (10 * (v % WORD) + d) % WORD;
        { ModShift(10 * (v % WORD) + d, 10 * q); }
        (10 * (v % WORD) + d + 10 * q * WORD) % WORD;
        { assert 10 * (v % WORD) + 10 * q * WORD == 10 * v; }
        (10 * v + d) % WORD;
        Value(s) % WORD;
      }
    }
  }

  /** A byte from 0x80 on subtracts: `"1\xC3"` accumulates `10 + (0xC3 - 256 - '0')`, which wraps to 2^64 - 99. */
  lemma HighByteIsNegative()
    ensures Accumulated(['1', 0xC3 as char]) == WORD - 99
  {
    assert ['1', 0xC3 as char][..1] == ['1'];
    assert ['1'][..0] == [];
  }

  /** Reading back a written number: `stoul_unsafe(std::to_string(n)) == n` for every 64-bit `n`. */
  lemma DecimalRoundTrip(n: nat)
    requires n < WORD
    ensures Accumulated(Decimal(n)) == n
  {
    AccumulatedDigits(Decimal(n));
  }
}
