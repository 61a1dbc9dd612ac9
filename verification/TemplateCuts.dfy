/** Ways to cut a path into one piece a part, and when there is only one. */
module TemplateCuts {
  import opened Common
  import opened Text
  import opened Template
  import opened TemplateMatch
  import opened Encodings

  // ---------------------------------------------------------------------------
  // Cuts of a path
  // ---------------------------------------------------------------------------

  /** What a piece of a split looks like from outside, before a query is read. */
  ghost predicate Shaped(p: Part, piece: Bytes) {
    match p
    case Literal(text) => piece == text
    case Simple(_) => piece != [] && AllSafe(piece) && PctDecode(piece).Some?
    case Query(_) => piece != [] && piece[0] == QUESTION
    case QueryContinuation(_) => piece != [] && piece[0] == AMPERSAND
  }

  ghost predicate IsCut(parts: seq<Part>, pieces: seq<Bytes>, input: Bytes) {
    && |pieces| == |parts|
    && Flatten(pieces) == input
    && forall i :: 0 <= i < |parts| ==> Shaped(parts[i], pieces[i])
  }

  /** Every variable's piece is the expansion of some value. */
  ghost predicate Expanded(parts: seq<Part>, pieces: seq<Bytes>)
    requires |pieces| == |parts|
  {
    forall i :: 0 <= i < |parts| && parts[i].Simple? ==> IsEncoding(pieces[i])
  }

  lemma CutUncons(parts: seq<Part>, pieces: seq<Bytes>, input: Bytes)
    requires parts != [] && IsCut(parts, pieces, input)
    ensures |pieces| == |parts| && Shaped(parts[0], pieces[0]) && input == pieces[0] + Flatten(pieces[1..])
    ensures IsCut(parts[1..], pieces[1..], Flatten(pieces[1..]))
  {
    hide Shaped;
  }

  lemma SplitIsCut(parts: seq<Part>, pieces: seq<Bytes>, input: Bytes)
    requires IsSplit(parts, pieces, input)
    ensures IsCut(parts, pieces, input)
  {
    hide QueryValues, PctDecode, Flatten;
    forall i | 0 <= i < |parts|
      ensures Shaped(parts[i], pieces[i])
    {
      assert Fits(parts[i], pieces[i]);
    }
  }

  lemma NothingCut(pieces: seq<Bytes>, input: Bytes)
    requires IsCut([], pieces, input)
    ensures input == [] && pieces == [] && SafeSpan(input) == 0
  {
  }

  // ---------------------------------------------------------------------------
  // The safe run at the head of a path
  // ---------------------------------------------------------------------------

  /** A literal with a byte that no expanded value contains. */
  predicate Divides(p: Part) {
    p.Literal? && !AllSafe(p.text)
  }

  /** No variable comes before the first dividing literal. */
  ghost predicate Shielded(parts: seq<Part>) {
    parts == [] || IsQuery(parts[0]) || (parts[0].Literal? && (Divides(parts[0]) || Shielded(parts[1..])))
  }

  /** A literal that is no encoding, then a variable. */
  ghost predicate Guarded(parts: seq<Part>) {
    && |parts| >= 2 && parts[0].Literal? && parts[1].Simple?
    && AllSafe(parts[0].text) && Unescape(parts[0].text).Some? && !IsEncoding(parts[0].text)
  }

  /** After every variable, something that tells where it ends. */
  ghost predicate Clear(parts: seq<Part>) {
    parts == [] || (Clear(parts[1..]) && (parts[0].Simple? ==> Shielded(parts[1..]) || Guarded(parts[1..])))
  }

  ghost function Run(input: Bytes): Bytes {
    input[..SafeSpan(input)]
  }

  lemma {:induction false} RunOfSafe(safe: Bytes, rest: Bytes)
    requires AllSafe(safe)
    ensures Run(safe + rest) == safe + Run(rest)
    ensures SafeSpan(safe + rest) == |safe| + SafeSpan(rest)
  {
    if safe == [] {
      assert safe + rest == rest && [] + Run(rest) == Run(rest);
    } else {
      var s := safe + rest;
      assert s[1..] == safe[1..] + rest && s[0] == safe[0];
      RunOfSafe(safe[1..], rest);
      assert Run(s) == [s[0]] + Run(s[1..]);
      assert [safe[0]] + safe[1..] == safe;
    }
  }

  lemma {:induction false} SpanOfDividing(text: Bytes, rest: Bytes)
    requires !AllSafe(text)
    ensures SafeSpan(text + rest) == SafeSpan(text)
  {
    assert text != [];
    assert (text + rest)[1..] == text[1..] + rest && (text + rest)[0] == text[0];
    if IsExpansionSafe(text[0]) {
      assert !AllSafe(text[1..]) by {
        var i :| 0 <= i < |text| && !IsExpansionSafe(text[i]);
        assert text[1..][i - 1] == text[i];
      }
      SpanOfDividing(text[1..], rest);
    }
  }

  lemma RunOfDividing(text: Bytes, rest: Bytes)
    requires !AllSafe(text)
    ensures Run(text + rest) == Run(text)
  {
    SpanOfDividing(text, rest);
  }

  lemma StartsUnsafe(input: Bytes)
    requires input != [] && (input[0] == QUESTION || input[0] == AMPERSAND)
    ensures SafeSpan(input) == 0
  {
  }

  /** What the literals at the head contribute before a byte that is not safe. */
  ghost function Lead(parts: seq<Part>): Bytes {
    if parts == [] || !parts[0].Literal? then []
    else if Divides(parts[0]) then Run(parts[0].text)
    else parts[0].text + Lead(parts[1..])
  }

  /** The safe run of a shielded rest is a text the template fixes. */
  lemma {:induction false} LeadIsTheRun(parts: seq<Part>, pieces: seq<Bytes>, input: Bytes)
    requires Shielded(parts) && IsCut(parts, pieces, input)
    ensures Run(input) == Lead(parts)
    decreases |parts|
  {
    hide SafeSpan, AllSafe, IsCut, PctDecode;
    if parts == [] {
      NothingCut(pieces, input);
    } else {
      CutUncons(parts, pieces, input);
      var rest := Flatten(pieces[1..]);
      if IsQuery(parts[0]) {
        StartsUnsafe(input);
      } else if Divides(parts[0]) {
        RunOfDividing(parts[0].text, rest);
      } else {
        RunOfSafe(parts[0].text, rest);
        LeadIsTheRun(parts[1..], pieces[1..], rest);
      }
    }
  }

  // ---------------------------------------------------------------------------
  // Counting irregular escapes: a variable cannot swallow a literal's
  // ---------------------------------------------------------------------------

  /** The irregular escapes in the safe run that starts with a variable. */
  ghost function Oddity(parts: seq<Part>, pieces: seq<Bytes>): nat
    requires Clear(parts) && parts != [] && parts[0].Simple? && |pieces| == |parts|
    decreases |parts|
  {
    Irregular(pieces[0]) +
    if Shielded(parts[1..]) then Irregular(Lead(parts[1..]))
    else
      assert Clear(parts[1..]);
      Irregular(parts[1].text) + Oddity(parts[1..][1..], pieces[1..][1..])
  }

  lemma {:induction false} OddityIsOfTheRun(parts: seq<Part>, pieces: seq<Bytes>, input: Bytes)
    requires Clear(parts) && parts != [] && parts[0].Simple? && IsCut(parts, pieces, input)
    ensures |pieces| == |parts| && Irregular(Run(input)) == Oddity(parts, pieces)
    decreases |parts|
  {
    hide IsCut, Run, Irregular, Unescape, AllSafe, IsUtf8;
    CutUncons(parts, pieces, input);
    var rest := Flatten(pieces[1..]);
    RunOfSafe(pieces[0], rest);
    EscapesConcat(pieces[0], Run(rest));
    if Shielded(parts[1..]) {
      LeadIsTheRun(parts[1..], pieces[1..], rest);
    } else {
      CutUncons(parts[1..], pieces[1..], rest);
      var literal, after := parts[1].text, Flatten(pieces[1..][1..]);
      RunOfSafe(literal, after);
      EscapesConcat(literal, Run(after));
      OddityIsOfTheRun(parts[1..][1..], pieces[1..][1..], after);
    }
  }

  /** The part of that count the template's literals account for. */
  ghost function Floor(parts: seq<Part>): nat
    requires Clear(parts) && parts != [] && parts[0].Simple?
    decreases |parts|
  {
    if Shielded(parts[1..]) then Irregular(Lead(parts[1..]))
    else
      assert Clear(parts[1..]);
      Irregular(parts[1].text) + Floor(parts[1..][1..])
  }

  lemma {:induction false} OddityIsAtLeast(parts: seq<Part>, pieces: seq<Bytes>)
    requires Clear(parts) && parts != [] && parts[0].Simple? && |pieces| == |parts|
    ensures Oddity(parts, pieces) >= Irregular(pieces[0]) + Floor(parts)
    ensures !Shielded(parts[1..]) ==>
              Oddity(parts, pieces) >= Irregular(pieces[0]) + Irregular(pieces[2]) + Floor(parts)
    decreases |parts|
  {
    hide Irregular;
    if !Shielded(parts[1..]) {
      assert pieces[1..][1..][0] == pieces[2];
      OddityIsAtLeast(parts[1..][1..], pieces[1..][1..]);
    }
  }

  lemma EncodingIsRegular(s: Bytes)
    requires IsEncoding(s)
    ensures Irregular(s) == 0
  {
    EncodedIsRegular(PctDecode(s).value);
  }

  lemma {:induction false} OddityOfExpanded(parts: seq<Part>, pieces: seq<Bytes>)
    requires Clear(parts) && parts != [] && parts[0].Simple? && |pieces| == |parts| && Expanded(parts, pieces)
    ensures Oddity(parts, pieces) == Floor(parts)
    decreases |parts|
  {
    hide Irregular, IsEncoding;
    EncodingIsRegular(pieces[0]);
    if !Shielded(parts[1..]) {
      var tail, rest := parts[1..][1..], pieces[1..][1..];
      assert forall i :: 0 <= i < |tail| ==> tail[i] == parts[i + 2] && rest[i] == pieces[i + 2];
      OddityOfExpanded(tail, rest);
    }
  }

  /** Pieces cut out of an expansion are regular too, so they are expansions of values. */
  lemma CutOfExpansion(parts: seq<Part>, a: seq<Bytes>, b: seq<Bytes>, input: Bytes)
    requires Clear(parts) && parts != [] && parts[0].Simple?
    requires IsCut(parts, a, input) && IsCut(parts, b, input) && Expanded(parts, a)
    ensures IsEncoding(b[0])
    ensures !Shielded(parts[1..]) ==> IsEncoding(b[2])
  {
    hide Irregular, Unescape, AllSafe, IsUtf8, IsEncoding, Run, Oddity, Floor;
    OddityIsOfTheRun(parts, a, input);
    OddityIsOfTheRun(parts, b, input);
    OddityOfExpanded(parts, a);
    OddityIsAtLeast(parts, b);
    assert Shaped(parts[0], b[0]);
    EncodingIs(b[0]);
    if !Shielded(parts[1..]) {
      assert Shaped(parts[2], b[2]);
      EncodingIs(b[2]);
    }
  }

  // ---------------------------------------------------------------------------
  // A clear template has one way to cut an expansion
  // ---------------------------------------------------------------------------

  lemma ValueAhead(parts: seq<Part>, pieces: seq<Bytes>, input: Bytes)
    requires parts != [] && parts[0].Simple? && IsCut(parts, pieces, input) && IsEncoding(pieces[0])
    ensures StartsWithValue(input)
  {
    hide IsCut, IsEncoding, AllSafe, PctDecode;
    CutUncons(parts, pieces, input);
    Cut(pieces[0], Flatten(pieces[1..]));
  }

  lemma SameFirstPiece(parts: seq<Part>, a: seq<Bytes>, b: seq<Bytes>, input: Bytes)
    requires Clear(parts) && parts != [] && parts[0].Simple?
    requires IsCut(parts, a, input) && IsCut(parts, b, input) && Expanded(parts, a)
    ensures |a| == |b| == |parts| && |a[0]| == |b[0]|
  {
    hide IsCut, IsEncoding, AllSafe, SafeSpan, PctDecode, Unescape, StartsWithValue;
    CutUncons(parts, a, input);
    CutUncons(parts, b, input);
    var restA, restB := Flatten(a[1..]), Flatten(b[1..]);
    if Shielded(parts[1..]) {
      RunOfSafe(a[0], restA);
      RunOfSafe(b[0], restB);
      LeadIsTheRun(parts[1..], a[1..], restA);
      LeadIsTheRun(parts[1..], b[1..], restB);
    } else {
      CutOfExpansion(parts, a, b, input);
      CutUncons(parts[1..], a[1..], restA);
      CutUncons(parts[1..], b[1..], restB);
      var afterA, afterB := Flatten(a[1..][1..]), Flatten(b[1..][1..]);
      ValueAhead(parts[1..][1..], a[1..][1..], afterA);
      ValueAhead(parts[1..][1..], b[1..][1..], afterB);
      var literal := parts[1].text;
      LiteralIsPinned(literal, a[0], afterA, b[0], afterB);
      LiteralIsPinned(literal, b[0], afterB, a[0], afterA);
    }
  }

  lemma LastPart(parts: seq<Part>)
    requires parts != [] && QueryOnlyLast(parts)
    ensures QueryOnlyLast(parts[1..])
    ensures IsQuery(parts[0]) ==> parts[1..] == []
  {
  }

  /** The only way to cut an expansion is the way it was put together. */
  lemma {:induction false} CutsAreUnique(parts: seq<Part>, a: seq<Bytes>, b: seq<Bytes>, input: Bytes)
    requires Clear(parts) && QueryOnlyLast(parts)
    requires IsCut(parts, a, input) && IsCut(parts, b, input) && Expanded(parts, a)
    ensures a == b
    decreases |parts|
  {
    hide SafeSpan, AllSafe, IsCut, QueryOnlyLast, IsEncoding, PctDecode;
    if parts == [] {
      NothingCut(a, input);
      NothingCut(b, input);
    } else {
      CutUncons(parts, a, input);
      CutUncons(parts, b, input);
      LastPart(parts);
      var restA, restB := Flatten(a[1..]), Flatten(b[1..]);
      if parts[0].Simple? {
        SameFirstPiece(parts, a, b, input);
      } else if IsQuery(parts[0]) {
        NothingCut(a[1..], restA);
        NothingCut(b[1..], restB);
      }
      SameHead(a[0], restA, b[0], restB);
      CutsAreUnique(parts[1..], a[1..], b[1..], restA);
      assert a == [a[0]] + a[1..] && b == [b[0]] + b[1..];
    }
  }
}
