/**
 IP addresses as octets, and the two ways the source compares them under a prefix
 length: byte by byte with a mask, and as one machine word with a mask.
 */
module Addresses {
  import opened Common
  import opened Varint

  type Octets4 = s: Bytes | |s| == 4 witness [0, 0, 0, 0]
  type Octets16 = s: Bytes | |s| == 16 witness [0, 0, 0, 0, 0, 0, 0, 0, 0, 0, 0, 0, 0, 0, 0, 0]

  datatype IpAddr = V4(v4: Octets4) | V6(v6: Octets16)

  function Octets(a: IpAddr): (s: Bytes)
    ensures |s| == if a.V4? then 4 else 16
  {
    if a.V4? then a.v4 else a.v6
  }

  function AddressBits(a: IpAddr): nat {
    if a.V4? then 32 else 128
  }

  // ---------------------------------------------------------------------------
  // Machine words
  // ---------------------------------------------------------------------------

  function Pow2(n: nat): (p: nat)
    ensures p > 0
  {
    if n == 0 then 1 else 2 * Pow2(n - 1)
  }

  /** Bitwise and. */
  function BitAnd(x: nat, y: nat): nat {
    if x == 0 || y == 0 then 0
    else 2 * BitAnd(x / 2, y / 2) + (if x % 2 == 1 && y % 2 == 1 then 1 else 0)
  }

  /** A left shift of a word of `width` bits: what passes the top is lost. */
  function ShiftLeft(x: nat, k: nat, width: nat): nat {
    (x * Pow2(k)) % Pow2(width)
  }

  /** The mask with the top `len` of `width` bits set, as the source computes it. */
  function PrefixMask(len: nat, width: nat): nat
    requires len <= width
  {
    if len == 0 then 0 else ShiftLeft(Pow2(width) - 1, width - len, width)
  }

  lemma Pow2Unrolls(n: nat)
    requires n > 0
    ensures Pow2(n) == 2 * Pow2(n - 1)
  {
  }

  /** A right shift. */
  function ShiftRight(x: nat, k: nat): nat {
    if k == 0 then x else ShiftRight(x / 2, k - 1)
  }

  lemma MulOrder(a: int, b: int, d: int)
    requires a < b && d > 0
    ensures a * d + d <= b * d
    decreases b - a
  {
    assert (a + 1) * d == a * d + d;
    if a + 1 < b {
      MulOrder(a + 1, b, d);
    }
  }

  /** Quotient and remainder are unique. */
  lemma Unique(q: nat, r: nat, q': nat, r': nat, d: nat)
    requires q * d + r == q' * d + r' && r < d && r' < d
    ensures q == q' && r == r'
  {
    if q > q' {
      MulOrder(q', q, d);
    } else if q' > q {
      MulOrder(q, q', d);
    }
  }

  lemma Doubled(q: nat, p: nat)
    ensures q * (2 * p) == 2 * (q * p)
  {
  }

  lemma HalfOfSum(p: nat, x: nat)
    ensures (2 * p + x) / 2 == p + x / 2
  {
  }

  /** Adding a multiple of the shifted-out weight passes through the shift. */
  lemma {:induction false} ShiftRightOfSum(h: nat, x: nat, k: nat)
    ensures ShiftRight(h * Pow2(k) + x, k) == h + ShiftRight(x, k)
  {
    hide Pow2, ShiftRight;
    if k == 0 {
      NoShift(h + x);
      NoShift(x);
    } else {
      Pow2Unrolls(k);
      ShiftRightUnrolls(h * Pow2(k) + x, k);
      ShiftRightUnrolls(x, k);
      Doubled(h, Pow2(k - 1));
      HalfOfSum(h * Pow2(k - 1), x);
      ShiftRightOfSum(h, x / 2, k - 1);
    }
  }

  lemma NoShift(x: nat)
    ensures ShiftRight(x, 0) == x && Pow2(0) == 1
  {
  }

  lemma {:induction false} ShiftRightBound(x: nat, a: nat, k: nat)
    requires x < Pow2(a + k)
    ensures ShiftRight(x, k) < Pow2(a)
    decreases k
  {
    if k > 0 {
      ShiftRightBound(x / 2, a, k - 1);
    }
  }

  lemma {:induction false} ShiftRightTwice(x: nat, a: nat, b: nat)
    ensures ShiftRight(x, a + b) == ShiftRight(ShiftRight(x, a), b)
  {
    if a > 0 {
      ShiftRightTwice(x / 2, a - 1, b);
    }
  }

  /** What a shift leaves behind is less than the weight shifted out. */
  lemma {:induction false} ShiftRightSplits(x: nat, k: nat)
    ensures ShiftRight(x, k) * Pow2(k) <= x < ShiftRight(x, k) * Pow2(k) + Pow2(k)
  {
    if k > 0 {
      ShiftRightSplits(x / 2, k - 1);
      var q := ShiftRight(x, k);
      Doubled(q, Pow2(k - 1));
    }
  }

  /** Shifting right is dividing by a power of two. */
  lemma ShiftRightIsDivision(x: nat, k: nat)
    ensures ShiftRight(x, k) == x / Pow2(k)
  {
    ShiftRightSplits(x, k);
    DivisionIs(x, Pow2(k), ShiftRight(x, k));
  }

  lemma DivisionIs(x: int, d: int, q: int)
    requires d > 0 && q * d <= x < q * d + d
    ensures x / d == q
  {
    var q' := x / d;
    assert q' * d <= x < q' * d + d;
    if q' > q {
      MulOrder(q, q', d);
    } else if q' < q {
      MulOrder(q', q, d);
    }
  }

  lemma {:induction false} Pow2Add(a: nat, b: nat)
    ensures Pow2(a + b) == Pow2(a) * Pow2(b)
  {
    if a > 0 {
      Pow2Add(a - 1, b);
    }
  }

  lemma {:induction false} Pow2Mono(a: nat, b: nat)
    requires a <= b
    ensures Pow2(a) <= Pow2(b)
    decreases b
  {
    if a < b {
      Pow2Mono(a, b - 1);
    }
  }

  lemma {:induction false} Pow256IsPow2(n: nat)
    ensures Pow256(n) == Pow2(8 * n)
  {
    if n > 0 {
      Pow256IsPow2(n - 1);
      Pow2Add(8, 8 * (n - 1));
      assert Pow2(8) == 256;
    }
  }

  lemma BorrowOne(p: nat, k: nat)
    requires 0 < k <= p
    ensures (p - 1) * k == (k - 1) * p + (p - k)
  {
  }

  lemma PrefixMaskIs(len: nat, width: nat)
    requires len <= width
    ensures Pow2(width - len) <= Pow2(width)
    ensures PrefixMask(len, width) == Pow2(width) - Pow2(width - len)
  {
    var p, k := Pow2(width), Pow2(width - len);
    Pow2Mono(width - len, width);
    if len > 0 {
      BorrowOne(p, k);
      ModIs((p - 1) * k, p, k - 1, p - k);
    }
  }

  lemma {:induction false} AndWithOnes(x: nat, width: nat)
    requires x < Pow2(width)
    ensures BitAnd(x, Pow2(width) - 1) == x
  {
    if x > 0 {
      AndWithOnes(x / 2, width - 1);
    }
  }

  lemma ModIs(x: nat, d: nat, q: nat, r: nat)
    requires d > 0 && x == q * d + r && r < d
    ensures x % d == r
  {
    DivisionIs(x, d, q);
  }

  /** Masking keeps the high bits and clears the rest. */
  lemma {:induction false} AndWithHighMask(x: nat, width: nat, k: nat)
    requires x < Pow2(width) && k <= width
    ensures Pow2(k) <= Pow2(width)
    ensures BitAnd(x, Pow2(width) - Pow2(k)) == ShiftRight(x, k) * Pow2(k)
    decreases k
  {
    hide BitAnd;
    Pow2Mono(k, width);
    if k == 0 {
      AndWithOnes(x, width);
    } else {
      hide Pow2, ShiftRight;
      Pow2Unrolls(width);
      Pow2Unrolls(k);
      ShiftRightUnrolls(x, k);
      AndWithHighMask(x / 2, width - 1, k - 1);
      AndWithEven(x, Pow2(width - 1) - Pow2(k - 1));
      var q := ShiftRight(x / 2, k - 1);
      Doubled(q, Pow2(k - 1));
    }
  }

  lemma ShiftRightUnrolls(x: nat, k: nat)
    requires k > 0
    ensures ShiftRight(x, k) == ShiftRight(x / 2, k - 1)
  {
  }

  lemma {:induction false} AndWithEven(x: nat, half: nat)
    ensures BitAnd(x, 2 * half) == 2 * BitAnd(x / 2, half)
  {
  }

  // ---------------------------------------------------------------------------
  // One word: `masked`
  // ---------------------------------------------------------------------------

  function MaskedOctets(s: Bytes, len: nat): (r: Bytes)
    requires len <= 8 * |s|
    ensures |r| == |s|
  {
    ToBigEndian(BitAnd(BigEndian(s), PrefixMask(len, 8 * |s|)), |s|)
  }

  function Masked(a: IpAddr, len: nat): IpAddr
    requires len <= AddressBits(a)
  {
    if a.V4? then V4(MaskedOctets(a.v4, len)) else V6(MaskedOctets(a.v6, len))
  }

  /** The number whose equality both comparisons are about: the address without its host bits. */
  function Network(s: Bytes, len: nat): nat
    requires len <= 8 * |s|
  {
    ShiftRight(BigEndian(s), 8 * |s| - len)
  }

  lemma MaskedIsNetwork(s: Bytes, len: nat)
    requires len <= 8 * |s|
    ensures BigEndian(MaskedOctets(s, len)) == Network(s, len) * Pow2(8 * |s| - len)
  {
    var x, w, k := BigEndian(s), 8 * |s|, 8 * |s| - len;
    Pow256IsPow2(|s|);
    PrefixMaskIs(len, w);
    AndWithHighMask(x, w, k);
    ShiftRightSplits(x, k);
    BigEndianRoundTrip(ShiftRight(x, k) * Pow2(k), |s|);
  }

  lemma SameNetworkSameMasked(a: Bytes, b: Bytes, len: nat)
    requires |a| == |b| && len <= 8 * |a|
    ensures MaskedOctets(a, len) == MaskedOctets(b, len) <==> Network(a, len) == Network(b, len)
  {
    hide MaskedOctets, Network;
    MaskedIsNetwork(a, len);
    MaskedIsNetwork(b, len);
    var p := Pow2(8 * |a| - len);
    if MaskedOctets(a, len) == MaskedOctets(b, len) {
      CancelFactor(Network(a, len), Network(b, len), p);
    }
    if Network(a, len) == Network(b, len) {
      ToBigEndianRoundTrip(MaskedOctets(a, len));
      ToBigEndianRoundTrip(MaskedOctets(b, len));
    }
  }

  lemma CancelFactor(x: nat, y: nat, p: nat)
    requires p > 0 && x * p == y * p
    ensures x == y
  {
    Unique(x, 0, y, 0, p);
  }

  // ---------------------------------------------------------------------------
  // Byte by byte: `bits_match`
  // ---------------------------------------------------------------------------

  predicate BitsMatch(net: Bytes, got: Bytes, len: nat)
    requires |net| == |got| && len <= 8 * |net|
  {
    var whole := len / 8;
    if net[..whole] != got[..whole] then false
    else
      var remainder := len % 8;
      if remainder == 0 then true
      else
        var mask := ShiftLeft(0xFF, 8 - remainder, 8);
        BitAnd(net[whole], mask) == BitAnd(got[whole], mask)
  }

  lemma EqualNumbersEqualBytes(a: Bytes, b: Bytes)
    requires |a| == |b|
    ensures BigEndian(a) == BigEndian(b) <==> a == b
  {
    ToBigEndianRoundTrip(a);
    ToBigEndianRoundTrip(b);
  }

  /** Shifting out whole bytes drops them. */
  lemma DropLowBytes(s: Bytes, n: nat)
    requires n <= |s|
    ensures ShiftRight(BigEndian(s), 8 * (|s| - n)) == BigEndian(s[..n])
  {
    hide BigEndian, ShiftRight, Pow2, Pow256;
    var k := 8 * (|s| - n);
    assert s == s[..n] + s[n..];
    BigEndianConcat(s[..n], s[n..]);
    Pow256IsPow2(|s| - n);
    ShiftRightOfSum(BigEndian(s[..n]), BigEndian(s[n..]), k);
    ShiftRightBound(BigEndian(s[n..]), 0, k);
    Pow2Zero();
  }

  lemma Pow2Zero()
    ensures Pow2(0) == 1
  {
  }

  /** The network number in terms of the whole bytes and the bits of the next one. */
  lemma NetworkByBytes(s: Bytes, len: nat)
    requires len <= 8 * |s|
    ensures var whole, r := len / 8, len % 8;
            Network(s, len) ==
              if r == 0 then BigEndian(s[..whole])
              else BigEndian(s[..whole]) * Pow2(r) + ShiftRight(s[whole], 8 - r)
  {
    var whole, r := len / 8, len % 8;
    if r == 0 {
      DropLowBytes(s, whole);
    } else {
      DropLowBytes(s, whole + 1);
      ShiftRightTwice(BigEndian(s), 8 * (|s| - whole - 1), 8 - r);
      assert s[..whole + 1][..whole] == s[..whole];
      PartialByte(BigEndian(s[..whole]), s[whole], r);
    }
  }

  lemma PartialByte(high: nat, b: byte, r: nat)
    requires 0 < r < 8
    ensures ShiftRight(high * 256 + b, 8 - r) == high * Pow2(r) + ShiftRight(b, 8 - r)
    ensures ShiftRight(b, 8 - r) < Pow2(r)
  {
    Pow2Add(r, 8 - r);
    assert Pow2(8) == 256;
    assert high * 256 == (high * Pow2(r)) * Pow2(8 - r);
    ShiftRightOfSum(high * Pow2(r), b, 8 - r);
    ShiftRightBound(b, r, 8 - r);
  }

  lemma MaskedByte(b: byte, r: nat)
    requires 0 < r < 8
    ensures BitAnd(b, ShiftLeft(0xFF, 8 - r, 8)) == ShiftRight(b, 8 - r) * Pow2(8 - r)
  {
    hide BitAnd, ShiftRight;
    assert Pow2(8) == 256;
    PrefixMaskIs(r, 8);
    AndWithHighMask(b, 8, 8 - r);
  }

  /** The byte-and-mask test decides whether the two addresses have the same network number. */
  lemma BitsMatchIsSameNetwork(net: Bytes, got: Bytes, len: nat)
    requires |net| == |got| && len <= 8 * |net|
    ensures BitsMatch(net, got, len) <==> Network(net, len) == Network(got, len)
  {
    hide Network, BigEndian, BitAnd, ShiftLeft, ShiftRight, Pow2;
    var whole, r := len / 8, len % 8;
    NetworkByBytes(net, len);
    NetworkByBytes(got, len);
    EqualNumbersEqualBytes(net[..whole], got[..whole]);
    if r != 0 {
      var b, c := net[whole], got[whole];
      var x, y := ShiftRight(b, 8 - r), ShiftRight(c, 8 - r);
      MaskedByte(b, r);
      MaskedByte(c, r);
      PartialByte(0, b, r);
      PartialByte(0, c, r);
      if Network(net, len) == Network(got, len) {
        Unique(BigEndian(net[..whole]), x, BigEndian(got[..whole]), y, Pow2(r));
      }
      if x * Pow2(8 - r) == y * Pow2(8 - r) {
        CancelFactor(x, y, Pow2(8 - r));
      }
    }
  }

  predicate CidrContains(addr: IpAddr, len: nat, candidate: IpAddr)
    requires len <= AddressBits(addr)
  {
    addr.V4? == candidate.V4? && BitsMatch(Octets(addr), Octets(candidate), len)
  }

  /** For both families and every legal length, a block contains an address exactly when
      the two agree as integers once the host bits are divided away, and exactly when the
      word-sized mask makes them equal. */
  lemma CidrAgreesWithArithmetic(addr: IpAddr, len: nat, candidate: IpAddr)
    requires len <= AddressBits(addr)
    ensures addr.V4? == candidate.V4? ==>
              var k := Pow2(AddressBits(addr) - len);
              CidrContains(addr, len, candidate) <==>
              BigEndian(Octets(addr)) / k == BigEndian(Octets(candidate)) / k
    ensures CidrContains(addr, len, candidate) <==>
              len <= AddressBits(candidate) && Masked(addr, len) == Masked(candidate, len)
  {
    hide BitsMatch, MaskedOctets, BigEndian, Pow2, ShiftRight;
    if addr.V4? == candidate.V4? {
      BitsMatchIsSameNetwork(Octets(addr), Octets(candidate), len);
      SameNetworkSameMasked(Octets(addr), Octets(candidate), len);
      ShiftRightIsDivision(BigEndian(Octets(addr)), AddressBits(addr) - len);
      ShiftRightIsDivision(BigEndian(Octets(candidate)), AddressBits(addr) - len);
    }
  }

  /** Masking keeps an address exactly when its number is a multiple of the block's size. */
  lemma MaskedKeepsExactly(a: IpAddr, len: nat)
    requires len <= AddressBits(a)
    ensures Masked(a, len) == a <==> BigEndian(Octets(a)) % Pow2(AddressBits(a) - len) == 0
  {
    hide MaskedOctets, BigEndian, Pow2, ShiftRight;
    var s, k := Octets(a), AddressBits(a) - len;
    MaskedIsNetwork(s, len);
    ShiftRightIsDivision(BigEndian(s), k);
    WholeMultiple(BigEndian(s), Pow2(k));
    ToBigEndianRoundTrip(s);
    ToBigEndianRoundTrip(MaskedOctets(s, len));
  }

  lemma WholeMultiple(x: nat, d: nat)
    requires d > 0
    ensures x / d * d == x <==> x % d == 0
  {
  }

  // ---------------------------------------------------------------------------
  // Order
  // ---------------------------------------------------------------------------

  /** Lexicographic order on octets. */
  predicate LexLess(a: Bytes, b: Bytes)
    requires |a| == |b|
  {
    a != [] && (a[0] < b[0] || (a[0] == b[0] && LexLess(a[1..], b[1..])))
  }

  /** It is the numeric order. */
  lemma {:induction false} LexIsNumeric(a: Bytes, b: Bytes)
    requires |a| == |b|
    ensures LexLess(a, b) <==> BigEndian(a) < BigEndian(b)
    decreases |a|
  {
    if a != [] {
      hide BigEndian, Pow256;
      LexIsNumeric(a[1..], b[1..]);
      FirstByteDominates(a);
      FirstByteDominates(b);
      var p, x, y := Pow256(|a| - 1), BigEndian(a[1..]), BigEndian(b[1..]);
      if a[0] < b[0] {
        Dominates(a[0], b[0], x, y, p);
      } else if b[0] < a[0] {
        Dominates(b[0], a[0], y, x, p);
      }
    }
  }

  lemma Dominates(a: nat, b: nat, x: nat, y: nat, p: nat)
    requires a < b && x < p
    ensures a * p + x < b * p + y
  {
    assert a * p + p == (a + 1) * p <= b * p;
  }

  lemma FirstByteDominates(a: Bytes)
    requires a != []
    ensures BigEndian(a) == a[0] * Pow256(|a| - 1) + BigEndian(a[1..])
  {
    var one := [a[0]];
    assert a == one + a[1..];
    BigEndianConcat(one, a[1..]);
    assert one[..0] == [];
    assert BigEndian(one) == a[0];
  }
}
