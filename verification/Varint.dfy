/**
 QUIC variable-length integers (section 16 of RFC 9000).

 The source's shifts and masks act on disjoint bit fields, so they are written as
 the multiplication, addition, division and remainder they are.
 */
module Varint {
  import opened Common

  const MAX: nat := 0x3FFF_FFFF_FFFF_FFFF

  function EncodedLen(value: nat): (len: nat)
    ensures len in {1, 2, 4, 8}
  {
    if value < 0x40 then 1
    else if value < 0x4000 then 2
    else if value < 0x4000_0000 then 4
    else 8
  }

  /** 256 to the power `n`. */
  function Pow256(n: nat): (p: nat)
    ensures p > 0
  {
    if n == 0 then 1 else 256 * Pow256(n - 1)
  }

  /** The integer a big-endian byte string denotes. */
  function BigEndian(s: Bytes): (value: nat)
    ensures value < Pow256(|s|)
  {
    if s == [] then 0 else BigEndian(s[..|s| - 1]) * 256 + s[|s| - 1]
  }

  /** The `n` low-order bytes of `value`, most significant first. */
  function ToBigEndian(value: nat, n: nat): (s: Bytes)
    ensures |s| == n
  {
    if n == 0 then [] else ToBigEndian(value / 256, n - 1) + [value % 256]
  }

  lemma {:induction false} BigEndianRoundTrip(value: nat, n: nat)
    requires value < Pow256(n)
    ensures BigEndian(ToBigEndian(value, n)) == value
  {
    if n > 0 {
      BigEndianRoundTrip(value / 256, n - 1);
      assert ToBigEndian(value, n)[..n - 1] == ToBigEndian(value / 256, n - 1);
    }
  }

  lemma {:induction false} ToBigEndianRoundTrip(s: Bytes)
    ensures ToBigEndian(BigEndian(s), |s|) == s
  {
    if s != [] {
      ToBigEndianRoundTrip(s[..|s| - 1]);
      assert s == s[..|s| - 1] + [s[|s| - 1]];
    }
  }

  lemma ShiftByOneByte(high: nat, scale: nat, low: nat, next: nat)
    ensures (high * scale + low) * 256 + next == high * (256 * scale) + (low * 256 + next)
  {
  }

  lemma {:induction false} BigEndianConcat(a: Bytes, b: Bytes)
    ensures BigEndian(a + b) == BigEndian(a) * Pow256(|b|) + BigEndian(b)
  {
    if b == [] {
      assert a + b == a;
    } else {
      var b' := b[..|b| - 1];
      BigEndianConcat(a, b');
      assert (a + b)[..|a + b| - 1] == a + b';
      ShiftByOneByte(BigEndian(a), Pow256(|b'|), BigEndian(b'), b[|b| - 1]);
    }
  }

  /** The two tag bits of an encoding of `len` bytes, in place above the value. */
  function Tag(len: nat): nat
    requires len in {1, 2, 4, 8}
  {
    if len == 1 then 0
    else if len == 2 then 0x4000
    else if len == 4 then 0x8000_0000
    else 0xC000_0000_0000_0000
  }

  /** The encoder; `Err` carries the value that does not fit in 62 bits. */
  function Encode(value: nat): (r: Result<Bytes, nat>)
    ensures r.Ok? <==> value <= MAX
    ensures r.Ok? ==> |r.value| == EncodedLen(value)
  {
    if value > MAX then Err(value)
    else
      var len := EncodedLen(value);
      Ok(ToBigEndian(value + Tag(len), len))
  }

  datatype Decoded = UnexpectedEnd | Value(value: nat, len: nat)

  /** 1, 2, 4 or 8: the length the first byte announces. */
  function AnnouncedLen(first: byte): (len: nat)
    ensures len in {1, 2, 4, 8}
  {
    if first < 64 then 1 else if first < 128 then 2 else if first < 192 then 4 else 8
  }

  /** What an announced, complete encoding denotes: its bytes big-endian, tag bits off. */
  function Decode(input: Bytes): (d: Decoded)
    ensures d.Value? ==> input != [] && d.len == AnnouncedLen(input[0]) && d.len <= |input|
    ensures d.UnexpectedEnd? <==> (input == [] || |input| < AnnouncedLen(input[0]))
  {
    if input == [] || |input| < AnnouncedLen(input[0]) then UnexpectedEnd
    else
      var len := AnnouncedLen(input[0]);
      Value(BigEndian([input[0] % 64] + input[1..len]), len)
  }

  lemma BigEndianSnoc(s: Bytes, b: byte)
    ensures BigEndian(s + [b]) == BigEndian(s) * 256 + b
    ensures BigEndian([]) == 0
  {
    assert (s + [b])[..|s|] == s;
  }

  /** The decoder's loop. */
  method DecodeSlice(input: Bytes) returns (d: Decoded)
    ensures d == Decode(input)
  {
    hide BigEndian;
    if input == [] {
      return UnexpectedEnd;
    }
    var first := input[0];
    var len := AnnouncedLen(first);
    if |input| < len {
      return UnexpectedEnd;
    }
    var value: nat := first % 64;
    var i := 1;
    assert [first % 64] + input[1..1] == [] + [first % 64];
    BigEndianSnoc([], first % 64);
    while i < len
      invariant 1 <= i <= len
      invariant value == BigEndian([first % 64] + input[1..i])
    {
      assert [first % 64] + input[1..i + 1] == [first % 64] + input[1..i] + [input[i]];
      BigEndianSnoc([first % 64] + input[1..i], input[i]);
      value := value * 256 + input[i];
      i := i + 1;
    }
    return Value(value, len);
  }

  /** A byte with `n` bytes below it. */
  function Placed(b: byte, n: nat): nat {
    b * Pow256(n)
  }

  lemma BigEndianUnroll(s: Bytes)
    requires |s| in {1, 2, 4, 8}
    ensures BigEndian(s) == Placed(s[0], |s| - 1) + BigEndian(s[1..])
  {
    BigEndianConcat([s[0]], s[1..]);
    assert [s[0]] + s[1..] == s;
    assert BigEndian([s[0]]) == s[0] by { assert [s[0]][..0] == []; }
  }

  lemma PowersOf256()
    ensures Pow256(0) == 1 && Pow256(1) == 0x100 && Pow256(3) == 0x100_0000
    ensures Pow256(2) == 0x1_0000 && Pow256(4) == 0x1_0000_0000
    ensures Pow256(7) == 0x100_0000_0000_0000 && Pow256(8) == 0x1_0000_0000_0000_0000
  {
    assert Pow256(2) == 256 * Pow256(1);
    assert Pow256(4) == 256 * Pow256(3) == 256 * (256 * Pow256(2));
    assert Pow256(8) == 256 * Pow256(7) == 256 * (256 * Pow256(6)) == 256 * (256 * (256 * (Pow256(5))));
    assert Pow256(5) == 256 * Pow256(4);
  }

  /** Clearing the two top bits of the first byte subtracts the tag. */
  lemma UntagValue(s: Bytes)
    requires |s| in {1, 2, 4, 8} && AnnouncedLen(s[0]) == |s|
    ensures BigEndian([s[0] % 64] + s[1..]) == BigEndian(s) - Tag(|s|) <= MAX
    ensures EncodedLen(BigEndian([s[0] % 64] + s[1..])) <= |s|
  {
    var first, tail, n := s[0], s[1..], |s|;
    BigEndianUnroll(s);
    assert BigEndian([first % 64] + tail) == Placed(first % 64, n - 1) + BigEndian(tail) by {
      var t := [first % 64] + tail;
      BigEndianUnroll(t);
      assert t[1..] == tail;
    }
    UntagArithmetic(first, n, BigEndian(tail));
  }

  lemma UntagArithmetic(first: byte, len: nat, tail: nat)
    requires len in {1, 2, 4, 8} && AnnouncedLen(first) == len && tail < Pow256(len - 1)
    ensures Placed(first % 64, len - 1) + tail == Placed(first, len - 1) + tail - Tag(len) <= MAX
    ensures EncodedLen(Placed(first % 64, len - 1) + tail) <= len
  {
    PowersOf256();
  }

  /** The spelling of a value in `len` bytes, wider than need be if that is so asked. */
  function Wide(value: nat, len: nat): (s: Bytes)
    requires len in {1, 2, 4, 8}
    ensures |s| == len
  {
    ToBigEndian(value + Tag(len), len)
  }

  lemma WideIsAnnounced(value: nat, len: nat)
    requires len in {1, 2, 4, 8} && value <= MAX && EncodedLen(value) <= len
    ensures AnnouncedLen(Wide(value, len)[0]) == len
    ensures BigEndian(Wide(value, len)) == value + Tag(len)
  {
    hide BigEndian, AnnouncedLen, EncodedLen, Tag, Placed, Pow256;
    var s := Wide(value, len);
    WideFits(value, len);
    BigEndianRoundTrip(value + Tag(len), len);
    BigEndianUnroll(s);
    FirstByteAnnounces(s[0], len, BigEndian(s[1..]), value);
  }

  lemma WideFits(value: nat, len: nat)
    requires len in {1, 2, 4, 8} && value <= MAX && EncodedLen(value) <= len
    ensures value + Tag(len) < Pow256(len)
  {
    PowersOf256();
  }

  lemma FirstByteAnnounces(first: byte, len: nat, tail: nat, value: nat)
    requires len in {1, 2, 4, 8} && value <= MAX && EncodedLen(value) <= len && tail < Pow256(len - 1)
    requires Placed(first, len - 1) + tail == value + Tag(len)
    ensures AnnouncedLen(first) == len
  {
    PowersOf256();
  }

  /** Every spelling of a value decodes to it, whatever follows. */
  lemma WideRoundTrip(value: nat, len: nat, rest: Bytes)
    requires len in {1, 2, 4, 8} && value <= MAX && EncodedLen(value) <= len
    ensures Decode(Wide(value, len) + rest) == Value(value, len)
  {
    hide Wide, BigEndian, AnnouncedLen, EncodedLen;
    var s := Wide(value, len);
    WideIsAnnounced(value, len);
    UntagValue(s);
    assert (s + rest)[1..len] == s[1..] && (s + rest)[0] == s[0];
  }

  lemma TooShort(input: Bytes)
    requires input != [] && |input| < AnnouncedLen(input[0])
    ensures Decode(input).UnexpectedEnd?
  {
  }

  /** Decoding undoes encoding, whatever follows, and consumes exactly the encoding. */
  lemma RoundTrip(value: nat, rest: Bytes)
    requires value <= MAX
    ensures Decode(Encode(value).value + rest) == Value(value, EncodedLen(value))
  {
    WideRoundTrip(value, EncodedLen(value), rest);
  }

  /** The length is the shortest of 1, 2, 4 and 8 bytes that leaves room for two tag bits. */
  lemma ShortestLength(value: nat, len: nat)
    requires value <= MAX && len in {1, 2, 4, 8}
    ensures len < EncodedLen(value) <==> value >= Pow256(len) / 4
  {
    PowersOf256();
  }

  /** The examples of appendix A.1 of RFC 9000. */
  lemma Rfc9000Examples()
    ensures Decode([0xC2, 0x19, 0x7C, 0x5E, 0xFF, 0x14, 0xE8, 0x8C]) == Value(151288809941952652, 8)
    ensures Decode([0x9D, 0x7F, 0x3E, 0x7D]) == Value(494878333, 4)
    ensures Decode([0x7B, 0xBD]) == Value(15293, 2)
    ensures Decode([0x25]) == Value(37, 1) && Decode([0x40, 0x25]) == Value(37, 2)
  {
    hide BigEndian;
    ValueOfEight(0x02, 0x19, 0x7C, 0x5E, 0xFF, 0x14, 0xE8, 0x8C);
    ValueOfFour(0x1D, 0x7F, 0x3E, 0x7D);
    ValueOfTwo(0x3B, 0xBD);
    ValueOfTwo(0x00, 0x25);
    var eight: Bytes, four: Bytes := [0xC2, 0x19, 0x7C, 0x5E, 0xFF, 0x14, 0xE8, 0x8C], [0x9D, 0x7F, 0x3E, 0x7D];
    var two: Bytes, wide: Bytes, one: Bytes := [0x7B, 0xBD], [0x40, 0x25], [0x25];
    assert [eight[0] % 64] + eight[1..8] == [0x02, 0x19, 0x7C, 0x5E, 0xFF, 0x14, 0xE8, 0x8C];
    assert [four[0] % 64] + four[1..4] == [0x1D, 0x7F, 0x3E, 0x7D];
    assert [two[0] % 64] + two[1..2] == [0x3B, 0xBD];
    assert [wide[0] % 64] + wide[1..2] == [0x00, 0x25];
    assert [one[0] % 64] + one[1..1] == [] + [0x25];
    BigEndianSnoc([], 0x25);
  }

  /** And back, in the shortest form. */
  lemma Rfc9000Encodings()
    ensures Encode(494878333) == Ok([0x9D, 0x7F, 0x3E, 0x7D]) && Encode(37) == Ok([0x25])
  {
    hide BigEndian, ToBigEndian;
    ValueOfFour(0x9D, 0x7F, 0x3E, 0x7D);
    ToBigEndianRoundTrip([0x9D, 0x7F, 0x3E, 0x7D]);
    BigEndianSnoc([], 0x25);
    ToBigEndianRoundTrip([0x25]);
    assert [0x25] == [] + [0x25];
  }

  lemma ValueOfTwo(a: byte, b: byte)
    ensures BigEndian([a, b]) == a * 0x100 + b
  {
    BigEndianSnoc([], a);
    BigEndianSnoc([a], b);
    assert [a, b] == [a] + [b] && [a] == [] + [a];
  }

  lemma ValueOfFour(a: byte, b: byte, c: byte, d: byte)
    ensures BigEndian([a, b, c, d]) == ((a * 0x100 + b) * 0x100 + c) * 0x100 + d
  {
    ValueOfTwo(a, b);
    BigEndianSnoc([a, b], c);
    BigEndianSnoc([a, b, c], d);
    assert [a, b, c] == [a, b] + [c] && [a, b, c, d] == [a, b, c] + [d];
  }

  lemma ValueOfEight(a: byte, b: byte, c: byte, d: byte, e: byte, f: byte, g: byte, h: byte)
    ensures BigEndian([a, b, c, d, e, f, g, h]) ==
            ((((((a * 0x100 + b) * 0x100 + c) * 0x100 + d) * 0x100 + e) * 0x100 + f) * 0x100 + g) * 0x100 + h
  {
    ValueOfFour(a, b, c, d);
    BigEndianSnoc([a, b, c, d], e);
    BigEndianSnoc([a, b, c, d, e], f);
    BigEndianSnoc([a, b, c, d, e, f], g);
    BigEndianSnoc([a, b, c, d, e, f, g], h);
    assert [a, b, c, d, e] == [a, b, c, d] + [e];
    assert [a, b, c, d, e, f] == [a, b, c, d, e] + [f];
    assert [a, b, c, d, e, f, g] == [a, b, c, d, e, f] + [g];
    assert [a, b, c, d, e, f, g, h] == [a, b, c, d, e, f, g] + [h];
  }

  /** Every decoded value fits in 62 bits, so it can be encoded again; the shortest
      form is never longer than the form that was read. */
  lemma DecodedValuesFit(input: Bytes)
    requires Decode(input).Value?
    ensures Decode(input).value <= MAX
    ensures EncodedLen(Decode(input).value) <= Decode(input).len
  {
    var s := input[..AnnouncedLen(input[0])];
    UntagValue(s);
    assert [s[0] % 64] + s[1..] == [input[0] % 64] + input[1..|s|];
  }

  /** More input never changes what was decoded. */
  lemma DecodeExtends(input: Bytes, more: Bytes)
    requires Decode(input).Value?
    ensures Decode(input + more) == Decode(input)
  {
    var len := AnnouncedLen(input[0]);
    assert (input + more)[1..len] == input[1..len];
  }
}
