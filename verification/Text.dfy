/** Byte-string operations the source takes from its standard library. */
module Text {
  import opened Common

  /** The index of the first `b`, or the length if there is none. */
  function Find(s: Bytes, b: byte): (i: nat)
    ensures i <= |s|
    ensures forall k :: 0 <= k < i ==> s[k] != b
    ensures i < |s| ==> s[i] == b
  {
    if s == [] || s[0] == b then 0 else 1 + Find(s[1..], b)
  }

  lemma {:induction false} FindIs(s: Bytes, b: byte, i: nat)
    requires i <= |s| && (forall k :: 0 <= k < i ==> s[k] != b) && (i < |s| ==> s[i] == b)
    ensures Find(s, b) == i
  {
    if s != [] && s[0] != b {
      assert i > 0;
      FindIs(s[1..], b, i - 1);
    }
  }

  /** `b` does not occur in `s`. */
  predicate Lacks(s: Bytes, b: byte) {
    forall i :: 0 <= i < |s| ==> s[i] != b
  }

  /** The maximal pieces between separators; always at least one. */
  function Split(s: Bytes, sep: byte): (r: seq<Bytes>)
    ensures r != []
    decreases |s|
  {
    var i := Find(s, sep);
    if i == |s| then [s] else [s[..i]] + Split(s[i + 1..], sep)
  }

  function Join(pieces: seq<Bytes>, sep: byte): Bytes {
    if pieces == [] then []
    else if |pieces| == 1 then pieces[0]
    else pieces[0] + [sep] + Join(pieces[1..], sep)
  }

  lemma {:induction false} JoinSplit(s: Bytes, sep: byte)
    ensures Join(Split(s, sep), sep) == s
    decreases |s|
  {
    hide Find;
    var i := Find(s, sep);
    if i < |s| {
      JoinSplit(s[i + 1..], sep);
      assert Split(s, sep)[1..] == Split(s[i + 1..], sep);
      assert s == s[..i] + [sep] + s[i + 1..];
    }
  }

  lemma {:induction false} SplitPiecesLackSeparator(s: Bytes, sep: byte)
    ensures forall i :: 0 <= i < |Split(s, sep)| ==> Lacks(Split(s, sep)[i], sep)
    decreases |s|
  {
    var i := Find(s, sep);
    if i < |s| {
      SplitPiecesLackSeparator(s[i + 1..], sep);
    }
  }

  lemma {:induction false} SplitJoin(pieces: seq<Bytes>, sep: byte)
    requires pieces != [] && forall i :: 0 <= i < |pieces| ==> Lacks(pieces[i], sep)
    ensures Split(Join(pieces, sep), sep) == pieces
  {
    var s := Join(pieces, sep);
    assert Lacks(pieces[0], sep);
    if |pieces| == 1 {
      FindIs(s, sep, |s|);
    } else {
      var first, rest := pieces[0], Join(pieces[1..], sep);
      assert s == first + [sep] + rest;
      assert forall k :: 0 <= k < |first| ==> s[k] == first[k];
      FindIs(s, sep, |first|);
      assert s[|first| + 1..] == rest && s[..|first|] == first;
      SplitJoin(pieces[1..], sep);
      assert pieces == [first] + pieces[1..];
    }
  }

  // ---------------------------------------------------------------------------
  // UTF-8
  // ---------------------------------------------------------------------------

  predicate Continues(b: byte) { 0x80 <= b <= 0xBF }

  /** The length of the well-formed UTF-8 sequence at the head of `s`, or 0. */
  function Utf8Len(s: Bytes): (n: nat)
    requires s != []
    ensures n <= |s|
  {
    var b := s[0];
    if b < 0x80 then 1
    else if 0xC2 <= b <= 0xDF && |s| >= 2 && Continues(s[1]) then 2
    else if 0xE0 <= b <= 0xEF && |s| >= 3 && Continues(s[1]) && Continues(s[2])
            && (b == 0xE0 ==> s[1] >= 0xA0) && (b == 0xED ==> s[1] <= 0x9F) then 3
    else if 0xF0 <= b <= 0xF4 && |s| >= 4 && Continues(s[1]) && Continues(s[2]) && Continues(s[3])
            && (b == 0xF0 ==> s[1] >= 0x90) && (b == 0xF4 ==> s[1] <= 0x8F) then 4
    else 0
  }

  predicate IsUtf8(s: Bytes)
    decreases |s|
  {
    s == [] || (Utf8Len(s) > 0 && IsUtf8(s[Utf8Len(s)..]))
  }

  /** A Unicode scalar value: a code point that is not a surrogate. */
  predicate IsScalar(cp: nat) {
    cp < 0xD800 || 0xE000 <= cp <= 0x10FFFF
  }

  /** Its UTF-8 form (section 3 of RFC 3629). */
  function EncodeScalar(cp: nat): (s: Bytes)
    requires IsScalar(cp)
    ensures 1 <= |s| <= 4
  {
    if cp < 0x80 then [cp]
    else if cp < 0x800 then [0xC0 + cp / 0x40, 0x80 + cp % 0x40]
    else if cp < 0x10000 then [0xE0 + cp / 0x1000, 0x80 + cp / 0x40 % 0x40, 0x80 + cp % 0x40]
    else [0xF0 + cp / 0x40000, 0x80 + cp / 0x1000 % 0x40, 0x80 + cp / 0x40 % 0x40, 0x80 + cp % 0x40]
  }

  /** The form of every scalar is recognised, whatever follows. */
  lemma ScalarIsRecognised(cp: nat, rest: Bytes)
    requires IsScalar(cp)
    ensures Utf8Len(EncodeScalar(cp) + rest) == |EncodeScalar(cp)|
  {
    hide EncodeScalar;
    var e := EncodeScalar(cp);
    ScalarBytes(cp);
    assert forall i :: 0 <= i < |e| ==> (e + rest)[i] == e[i];
  }

  /** The bytes such a form can have. */
  lemma ScalarBytes(cp: nat)
    requires IsScalar(cp)
    ensures var e := EncodeScalar(cp);
            && (forall i :: 0 < i < |e| ==> Continues(e[i]))
            && (|e| == 1 ==> e[0] < 0x80)
            && (|e| == 2 ==> 0xC2 <= e[0] <= 0xDF)
            && (|e| == 3 ==> 0xE0 <= e[0] <= 0xEF && (e[0] == 0xE0 ==> e[1] >= 0xA0) && (e[0] == 0xED ==> e[1] <= 0x9F))
            && (|e| == 4 ==> 0xF0 <= e[0] <= 0xF4 && (e[0] == 0xF0 ==> e[1] >= 0x90) && (e[0] == 0xF4 ==> e[1] <= 0x8F))
  {
  }

  /** And nothing else is. */
  lemma RecognisedIsScalar(s: Bytes) returns (cp: nat)
    requires s != [] && Utf8Len(s) > 0
    ensures IsScalar(cp) && s[..Utf8Len(s)] == EncodeScalar(cp)
  {
    hide EncodeScalar;
    var n := Utf8Len(s);
    if n == 1 {
      cp := OneByte(s[0]);
    } else if n == 2 {
      cp := TwoBytes(s[0], s[1]);
    } else if n == 3 {
      cp := ThreeBytes(s[0], s[1], s[2]);
    } else {
      cp := FourBytes(s[0], s[1], s[2], s[3]);
    }
  }

  lemma OneByte(a: byte) returns (cp: nat)
    requires a < 0x80
    ensures IsScalar(cp) && EncodeScalar(cp) == [a]
  {
    cp := a;
  }

  lemma TwoBytes(a: byte, b: byte) returns (cp: nat)
    requires 0xC2 <= a <= 0xDF && Continues(b)
    ensures IsScalar(cp) && EncodeScalar(cp) == [a, b]
  {
    var high: int, low: int := a - 0xC0, b - 0x80;
    cp := high * 0x40 + low;
  }

  lemma ThreeBytes(a: byte, b: byte, c: byte) returns (cp: nat)
    requires 0xE0 <= a <= 0xEF && Continues(b) && Continues(c) && (a == 0xE0 ==> b >= 0xA0) && (a == 0xED ==> b <= 0x9F)
    ensures IsScalar(cp) && EncodeScalar(cp) == [a, b, c]
  {
    var high: int, middle: int, low: int := a - 0xE0, b - 0x80, c - 0x80;
    cp := high * 0x1000 + middle * 0x40 + low;
    assert cp / 0x40 == high * 0x40 + middle;
  }

  lemma FourBytes(a: byte, b: byte, c: byte, d: byte) returns (cp: nat)
    requires 0xF0 <= a <= 0xF4 && Continues(b) && Continues(c) && Continues(d)
    requires (a == 0xF0 ==> b >= 0x90) && (a == 0xF4 ==> b <= 0x8F)
    ensures IsScalar(cp) && EncodeScalar(cp) == [a, b, c, d]
  {
    var top: int, high: int, middle: int, low: int := a - 0xF0, b - 0x80, c - 0x80, d - 0x80;
    cp := top * 0x40000 + high * 0x1000 + middle * 0x40 + low;
    assert cp / 0x40 == top * 0x1000 + high * 0x40 + middle;
    assert cp / 0x1000 == top * 0x40 + high;
  }

  lemma {:induction false} AsciiIsUtf8(s: Bytes)
    requires forall i :: 0 <= i < |s| ==> s[i] < 0x80
    ensures IsUtf8(s)
  {
    if s != [] {
      AsciiIsUtf8(s[1..]);
    }
  }
}
