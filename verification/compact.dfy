/** encoders::write_compact: the length prefix of a video frame, a
    little-endian base-128 number of one to three bytes.  The first two
    bytes carry seven bits each and a continuation bit; the third byte, when
    present, carries eight bits and no continuation bit, so lengths up to
    2^22 - 1 survive the round trip. */
module Compact {
  import opened Outcome
  import Wire

  /** The range of a C++ `int`, the type of the argument. */
  const IntMin: int := -0x8000_0000
  const IntMax: int := 0x7FFF_FFFF

  /** The largest length that fits in three compact bytes, plus one. */
  const CompactLimit: int := 0x40_0000

  /** Bit 7 of a byte: more bytes follow. */
  const More: int := 0x80

  /** `value & 0x7F` on a two's-complement int: the Euclidean remainder
      keeps the low seven bits for negative values too. */
  function Low7(v: int): (b: Wire.Byte)
    ensures b < More
    ensures 0 <= v < More ==> b == v
  {
    v % More
  }

  /** write_compact.  `b | 0x80` is written as an addition because `b` is
      below 0x80. */
  function WriteCompact(v: int): (r: seq<Wire.Byte>)
    requires IntMin <= v <= IntMax
    ensures 1 <= |r| <= 3
    ensures |r| == 1 <==> v <= 0x7F
    ensures |r| == 2 <==> 0x80 <= v <= 0x3FFF
    ensures 0 <= v <= 0x7F ==> r == [v]
    ensures v < 0 ==> r == [Low7(v)]
    ensures forall i :: 0 <= i < |r| - 1 ==> r[i] >= More
    ensures |r| <= 2 ==> r[|r| - 1] < More
    ensures |r| == 3 ==> r[2] == (v / 0x4000) % 0x100
  {
    if v <= 0x7F then [Low7(v)]
    else if v <= 0x3FFF then [Low7(v) + More, Low7(v / 0x80)]
    else [Low7(v) + More, Low7(v / 0x80) + More, (v / 0x4000) % 0x100]
  }

  /** A decoded length and the number of bytes it took. */
  datatype Decoded = Decoded(value: nat, used: nat)

  /** The reader on the other end: a byte below 0x80 ends the number, the
      third byte is taken whole.  `None` when the input ends too early. */
  function ReadCompact(s: seq<Wire.Byte>): (r: Option<Decoded>)
    ensures r.None? <==> |s| == 0 || (s[0] >= More && (|s| == 1 || (s[1] >= More && |s| == 2)))
    ensures r.Some? ==> 1 <= r.value.used <= 3 && r.value.used <= |s|
    ensures r.Some? ==> r.value.value < CompactLimit
    ensures r.Some? && r.value.used < 3 ==> s[r.value.used - 1] < More
    ensures r.Some? ==> forall i :: 0 <= i < r.value.used - 1 ==> s[i] >= More
  {
    if |s| == 0 then None
    else if s[0] < More then Some(Decoded(s[0], 1))
    else if |s| == 1 then None
    else if s[1] < More then Some(Decoded(s[0] as int - More + s[1] as int * 0x80, 2))
    else if |s| == 2 then None
    else Some(Decoded(s[0] as int - More + (s[1] as int - More) * 0x80 + s[2] as int * 0x4000, 3))
  }

  /** How a non-negative value splits into its three digits. */
  lemma Digits(v: int)
    requires 0 <= v
    ensures v == Low7(v) + Low7(v / 0x80) * 0x80 + (v / 0x4000) * 0x4000
    ensures v < 0x4000 ==> v == Low7(v) + (v / 0x80) * 0x80 && v / 0x80 < 0x80
  {
    var q := v / 0x80;
    assert v == Low7(v) + q * 0x80;
    assert q == Low7(q) + (q / 0x80) * 0x80;
    assert q / 0x80 == v / 0x4000;
  }

  /** Every length below 2^22 is read back, whatever follows it. */
  lemma RoundTrip(v: int, rest: seq<Wire.Byte>)
    requires 0 <= v < CompactLimit
    ensures ReadCompact(WriteCompact(v) + rest) == Some(Decoded(v, |WriteCompact(v)|))
  {
    Digits(v);
    var w := WriteCompact(v);
    assert (w + rest)[..|w|] == w;
    if v >= 0x4000 {
      assert (v / 0x4000) % 0x100 == v / 0x4000;
    }
  }

  /** Adding whole multiples of 0x80 changes the quotient and not the
      remainder. */
  lemma Shift(a: int, q: int)
    ensures (q * 0x80 + a) / 0x80 == q + a / 0x80
    ensures (q * 0x80 + a) % 0x80 == a % 0x80
  {
  }

  /** The three digits of a value and of its remainder modulo 2^22 agree. */
  lemma HighBitsDropped(v: int)
    requires 0 <= v
    ensures Low7(v) == Low7(v % CompactLimit)
    ensures Low7(v / 0x80) == Low7((v % CompactLimit) / 0x80)
    ensures (v / 0x4000) % 0x100 == (v % CompactLimit) / 0x4000
  {
    var u := v % CompactLimit;
    var q := v / CompactLimit;
    assert v == (q * 0x8000) * 0x80 + u;
    Shift(u, q * 0x8000);
    assert v / 0x80 == (q * 0x100) * 0x80 + u / 0x80;
    Shift(u / 0x80, q * 0x100);
    Digits(v);
    Digits(u);
    assert v / 0x4000 == (v / 0x80) / 0x80;
    assert u / 0x4000 == (u / 0x80) / 0x80;
  }

  /** Longer lengths lose their high bits: the reader sees the length
      modulo 2^22. */
  lemma Truncates(v: int, rest: seq<Wire.Byte>)
    requires CompactLimit <= v <= IntMax
    ensures ReadCompact(WriteCompact(v) + rest) == Some(Decoded(v % CompactLimit, 3))
  {
    HighBitsDropped(v);
    Digits(v % CompactLimit);
    var w := WriteCompact(v);
    assert (w + rest)[..3] == w;
  }

  /** The converse: a shortest encoding that the reader accepts is exactly
      what write_compact produces for the value read. */
  lemma ReadThenWrite(s: seq<Wire.Byte>)
    requires ReadCompact(s).Some?
    requires ReadCompact(s).value.used == |WriteCompact(ReadCompact(s).value.value)|
    ensures WriteCompact(ReadCompact(s).value.value) == s[..ReadCompact(s).value.used]
  {
    var d := ReadCompact(s).value;
    var v := d.value;
    if d.used == 2 {
      var a := s[0] as int - More;
      Shift(a, s[1]);
      assert v / 0x80 == s[1] && Low7(v) == a;
    } else if d.used == 3 {
      var a := s[0] as int - More;
      var b := s[1] as int - More;
      Shift(a, b + s[2] * 0x80);
      assert v / 0x80 == s[2] * 0x80 + b && Low7(v) == a;
      Shift(b, s[2]);
      assert (v / 0x80) / 0x80 == s[2];
      Digits(v);
      assert v / 0x4000 == (v / 0x80) / 0x80;
    }
  }
}
