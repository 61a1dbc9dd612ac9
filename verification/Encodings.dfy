/** Percent-encoded text: when it is the encoding of a string, and how encodings cut. */
module Encodings {
  import opened Common
  import opened Text
  import opened Template

  // ---------------------------------------------------------------------------
  // Text that a value could expand to
  // ---------------------------------------------------------------------------

  /** Text that is itself the expansion of some string. */
  predicate IsEncoding(text: Bytes) {
    PctDecode(text).Some? && PctEncode(PctDecode(text).value) == text
  }

  /** How many escapes of a text the encoder would have written differently. */
  function Irregular(s: Bytes): nat
    decreases |s|
  {
    if s == [] then 0
    else if s[0] != PERCENT then Irregular(s[1..])
    else if |s| < 3 || HexByte(s[1], s[2]).None? then 0
    else (if EncodeByte(HexByte(s[1], s[2]).value) == s[..3] then 0 else 1) + Irregular(s[3..])
  }

  lemma {:induction false} EscapesConcat(a: Bytes, b: Bytes)
    requires Unescape(a).Some?
    ensures Unescape(a + b) == Onto(Unescape(a).value, Unescape(b))
    ensures Irregular(a + b) == Irregular(a) + Irregular(b)
    decreases |a|
  {
    hide HexByte, EncodeByte;
    var s := a + b;
    if a == [] {
      assert s == b;
      assert Unescape(b).Some? ==> [] + Unescape(b).value == Unescape(b).value;
    } else if a[0] != PERCENT {
      assert s[1..] == a[1..] + b && s[0] == a[0];
      EscapesConcat(a[1..], b);
      OntoOnto([a[0]], Unescape(a[1..]).value, Unescape(b));
    } else {
      assert s[3..] == a[3..] + b && s[..3] == a[..3] && s[1] == a[1] && s[2] == a[2];
      EscapesConcat(a[3..], b);
      OntoOnto([HexByte(a[1], a[2]).value], Unescape(a[3..]).value, Unescape(b));
    }
  }

  lemma IrregularEncodedByte(b: byte, rest: Bytes)
    ensures Irregular(EncodeByte(b) + rest) == Irregular(rest)
  {
    hide HexByte, UpperHex;
    var s := EncodeByte(b) + rest;
    Cut(EncodeByte(b), rest);
    if IsUnreserved(b) {
      assert s[0] == b && s[1..] == rest;
    } else {
      HexDigitsRead(b);
      assert s[0] == PERCENT && s[1] == UpperHex(b / 16) && s[2] == UpperHex(b % 16) && s[3..] == rest;
    }
  }

  lemma {:induction false} EncodedIsRegular(value: Bytes)
    ensures Irregular(PctEncode(value)) == 0
  {
    if value != [] {
      EncodedIsRegular(value[1..]);
      IrregularEncodedByte(value[0], PctEncode(value[1..]));
    }
  }

  lemma {:induction false} RegularIsEncoded(s: Bytes)
    requires AllSafe(s) && Unescape(s).Some? && Irregular(s) == 0
    ensures PctEncode(Unescape(s).value) == s
    decreases |s|
  {
    hide HexByte;
    if s != [] {
      var n := if s[0] == PERCENT then 3 else 1;
      RegularIsEncoded(s[n..]);
      assert s == s[..n] + s[n..];
      var r := Unescape(s).value;
      assert r[1..] == Unescape(s[n..]).value;
      assert EncodeByte(r[0]) == s[..n];
    }
  }

  /** An encoding is what decodes and is regular. */
  lemma EncodingIs(s: Bytes)
    requires AllSafe(s)
    ensures IsEncoding(s) <==> Unescape(s).Some? && IsUtf8(Unescape(s).value) && Irregular(s) == 0
  {
    hide Unescape, Irregular, PctEncode, IsUtf8, AllSafe;
    if IsEncoding(s) {
      EncodedIsRegular(PctDecode(s).value);
    } else if Unescape(s).Some? && Irregular(s) == 0 {
      RegularIsEncoded(s);
    }
  }

  lemma NothingIsEncoding()
    ensures IsEncoding([])
  {
  }

  /** A literal without escapes between safe bytes is such a text. */
  lemma PlainIsEncoding(text: Bytes)
    requires AllSafe(text) && Lacks(text, PERCENT)
    ensures IsEncoding(text)
  {
    UnreservedIsVerbatim(text);
  }

  lemma EncodingIsSafe(text: Bytes)
    requires IsEncoding(text)
    ensures AllSafe(text)
  {
    EncodedIsSafe(PctDecode(text).value);
  }

  lemma {:induction false} UnescapeShortens(s: Bytes)
    requires Unescape(s).Some?
    ensures |Unescape(s).value| <= |s|
    ensures !Lacks(s, PERCENT) ==> |Unescape(s).value| < |s|
    decreases |s|
  {
    hide HexByte;
    if s != [] {
      if s[0] == PERCENT {
        UnescapeShortens(s[3..]);
      } else {
        UnescapeShortens(s[1..]);
        if !Lacks(s, PERCENT) {
          var i :| 0 <= i < |s| && s[i] == PERCENT;
          assert s[1..][i - 1] == PERCENT;
        }
      }
    }
  }

  // ---------------------------------------------------------------------------
  // UTF-8 at a boundary
  // ---------------------------------------------------------------------------

  lemma Utf8LenExtends(a: Bytes, b: Bytes)
    requires a != [] && Utf8Len(a) > 0
    ensures Utf8Len(a + b) == Utf8Len(a) && (a + b)[Utf8Len(a)..] == a[Utf8Len(a)..] + b
  {
    assert forall k :: 0 <= k < |a| ==> (a + b)[k] == a[k];
  }

  /** What follows a string is a string exactly when the whole is. */
  lemma {:induction false} Utf8After(a: Bytes, b: Bytes)
    requires IsUtf8(a)
    ensures IsUtf8(a + b) <==> IsUtf8(b)
    decreases |a|
  {
    hide Utf8Len;
    if a == [] {
      assert a + b == b;
    } else {
      Utf8LenExtends(a, b);
      Utf8After(a[Utf8Len(a)..], b);
    }
  }

  lemma Utf8LenBefore(a: Bytes, b: Bytes)
    requires a != [] && b != [] && !Continues(b[0]) && Utf8Len(a + b) > 0
    ensures Utf8Len(a) == Utf8Len(a + b)
  {
    var s := a + b;
    assert forall k :: 0 <= k < |a| ==> s[k] == a[k];
    assert s[|a|] == b[0];
  }

  /** A string can be cut before any byte that starts a character. */
  lemma {:induction false} Utf8Before(a: Bytes, b: Bytes)
    requires IsUtf8(a + b) && b != [] && !Continues(b[0])
    ensures IsUtf8(a)
    decreases |a|
  {
    hide Utf8Len;
    if a != [] {
      Utf8LenBefore(a, b);
      Utf8LenExtends(a, b);
      Utf8Before(a[Utf8Len(a)..], b);
    }
  }

  lemma Utf8Starts(s: Bytes)
    requires IsUtf8(s) && s != []
    ensures !Continues(s[0])
  {
  }

  // ---------------------------------------------------------------------------
  // Encodings at a boundary
  // ---------------------------------------------------------------------------

  lemma SafeParts(a: Bytes, b: Bytes)
    ensures AllSafe(a + b) <==> AllSafe(a) && AllSafe(b)
  {
    var s := a + b;
    assert forall k :: 0 <= k < |a| ==> s[k] == a[k];
    assert forall k :: 0 <= k < |b| ==> s[|a| + k] == b[k];
  }

  /** What follows an encoding is an encoding exactly when the whole is. */
  lemma EncodingAfter(a: Bytes, b: Bytes)
    requires IsEncoding(a) && AllSafe(a) && AllSafe(b)
    ensures IsEncoding(a + b) <==> IsEncoding(b)
  {
    hide Unescape, Irregular, PctEncode, IsUtf8, AllSafe, IsEncoding;
    SafeParts(a, b);
    EncodingIs(a);
    EncodingIs(b);
    EncodingIs(a + b);
    EscapesConcat(a, b);
    if Unescape(b).Some? {
      Utf8After(Unescape(a).value, Unescape(b).value);
    }
  }

  /** Two texts that agree where both go on, and decode, start with the same byte. */
  lemma SameFirstByte(a: Bytes, b: Bytes)
    requires a != [] && b != [] && (a <= b || b <= a)
    requires Unescape(a).Some? && Unescape(b).Some?
    ensures Unescape(a).value != [] && Unescape(b).value != [] && Unescape(a).value[0] == Unescape(b).value[0]
  {
    hide HexByte;
    var m := if |a| <= |b| then |a| else |b|;
    assert forall k :: 0 <= k < m ==> a[k] == b[k];
  }

  /** A literal that is no encoding does not become one by what follows it: nothing that
      reaches past its end is an encoding either. */
  lemma StuckInside(literal: Bytes, value: Bytes, w: Bytes)
    requires AllSafe(literal) && Unescape(literal).Some? && !IsEncoding(literal)
    requires value != [] && AllSafe(value) && IsEncoding(value)
    requires w != [] && AllSafe(w) && (w <= value || value <= w)
    ensures !IsEncoding(literal + w)
  {
    hide Unescape, Irregular, PctEncode, IsUtf8, AllSafe, IsEncoding;
    SafeParts(literal, w);
    EncodingIs(literal);
    EncodingIs(value);
    EncodingIs(literal + w);
    EscapesConcat(literal, w);
    if IsEncoding(literal + w) {
      SameFirstByte(value, w);
      Utf8Starts(Unescape(value).value);
      Utf8Before(Unescape(literal).value, Unescape(w).value);
    }
  }

  /** The longest encoding a text that is none starts with. */
  lemma {:induction false} LongestEncoding(s: Bytes, n: nat) returns (m: nat)
    requires n <= |s|
    ensures m <= n && IsEncoding(s[..m])
    ensures forall k :: m < k <= n ==> !IsEncoding(s[..k])
  {
    hide IsEncoding;
    if IsEncoding(s[..n]) {
      m := n;
    } else {
      if n == 0 {
        assert s[..0] == [];
        NothingIsEncoding();
      }
      m := LongestEncoding(s, n - 1);
    }
  }

  /** Two values around one literal that is no encoding: the text fixes where it is. */
  lemma LiteralIsPinned(literal: Bytes, x: Bytes, a: Bytes, y: Bytes, b: Bytes)
    requires AllSafe(literal) && Unescape(literal).Some? && !IsEncoding(literal)
    requires IsEncoding(x) && IsEncoding(y) && AllSafe(x) && AllSafe(y)
    requires StartsWithValue(a) && x + (literal + a) == y + (literal + b)
    ensures |x| >= |y|
  {
    hide IsEncoding, AllSafe, StartsWithValue, Unescape;
    if |x| < |y| {
      var z := y[|x|..];
      assert x + (literal + a) == y + (literal + b);
      assert y == x + z by {
        assert (x + (literal + a))[..|x|] == x;
        assert (y + (literal + b))[..|x|] == y[..|x|];
      }
      SafeParts(x, z);
      EncodingAfter(x, z);
      Associative(x, z, literal + b);
      SameHead(x, literal + a, x, z + (literal + b));
      Overtaken(literal, a, z, b);
    }
  }

  /** `s` begins with the non-empty expansion of a value. */
  ghost predicate StartsWithValue(s: Bytes) {
    exists n :: 0 < n <= |s| && AllSafe(s[..n]) && IsEncoding(s[..n])
  }

  lemma ReachesPast(literal: Bytes, a: Bytes, n: nat)
    requires AllSafe(literal) && Unescape(literal).Some? && !IsEncoding(literal) && StartsWithValue(a)
    requires |literal| <= n <= |literal + a| && AllSafe((literal + a)[..n])
    ensures !IsEncoding((literal + a)[..n])
  {
    hide IsEncoding, AllSafe, Unescape;
    var w := a[..n - |literal|];
    assert (literal + a)[..n] == literal + w;
    if w == [] {
      assert literal + w == literal;
    } else {
      var k :| 0 < k <= |a| && AllSafe(a[..k]) && IsEncoding(a[..k]);
      SafeParts(literal, w);
      assert if k <= |w| then a[..k] <= w else w <= a[..k];
      StuckInside(literal, a[..k], w);
    }
  }

  /** No encoding reaches further into a literal and the value after it than into the literal. */
  lemma NoneIsLonger(literal: Bytes, a: Bytes, m: nat, n: nat)
    requires AllSafe(literal) && Unescape(literal).Some? && !IsEncoding(literal) && StartsWithValue(a)
    requires m < n <= |literal + a| && AllSafe((literal + a)[..n])
    requires forall k :: m < k <= |literal| ==> !IsEncoding(literal[..k])
    ensures !IsEncoding((literal + a)[..n])
  {
    hide IsEncoding, AllSafe, StartsWithValue, Unescape;
    if n <= |literal| {
      assert (literal + a)[..n] == literal[..n];
    } else {
      ReachesPast(literal, a, n);
    }
  }

  lemma Overtaken(literal: Bytes, a: Bytes, z: Bytes, b: Bytes)
    requires AllSafe(literal) && Unescape(literal).Some? && !IsEncoding(literal) && StartsWithValue(a)
    requires z != [] && AllSafe(z) && IsEncoding(z)
    ensures literal + a != z + (literal + b)
  {
    hide IsEncoding, AllSafe, StartsWithValue, Unescape;
    var m := LongestEncoding(literal, |literal|);
    var head, n := literal[..m], |z| + m;
    assert literal == head + literal[m..];
    SafeParts(head, literal[m..]);
    SafeParts(z, head);
    EncodingAfter(z, head);
    assert (z + (literal + b))[..n] == z + head;
    if n <= |literal + a| && (literal + a)[..n] == z + head {
      NoneIsLonger(literal, a, m, n);
    }
  }

  lemma SameHead(a: Bytes, restA: Bytes, b: Bytes, restB: Bytes)
    requires a + restA == b + restB && |a| == |b|
    ensures a == b && restA == restB
  {
    Cut(a, restA);
    Cut(b, restB);
  }
}
