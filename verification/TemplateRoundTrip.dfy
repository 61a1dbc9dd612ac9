/**
 When matching undoes expansion: exactly for which templates every set of values comes
 back from the path it expands to.
 */
module TemplateRoundTrip {
  import opened Common
  import opened Text
  import opened Template
  import opened TemplateMatch
  import opened Encodings
  import opened TemplateQueries
  import opened TemplateCuts

  /** Matching the expansion of `values` gives exactly the template's values back. */
  ghost predicate RoundTrips(values: Values, parts: seq<Part>) {
    && ExpandPath(values, parts).Ok?
    && MatchResult(parts, ExpandPath(values, parts).value) == Some(Restrict(values, Variables(parts)))
  }

  lemma SuppliesParts(values: Values, parts: seq<Part>)
    requires parts != [] && Supplies(values, Variables(parts))
    ensures Supplies(values, VariablesOf(parts[0])) && Supplies(values, Variables(parts[1..]))
  {
    hide IsUtf8, VariablesOf;
    assert Variables(parts) == VariablesOf(parts[0]) + Variables(parts[1..]);
  }

  // ---------------------------------------------------------------------------
  // The pieces of an expansion
  // ---------------------------------------------------------------------------

  ghost function PieceOf(values: Values, p: Part): Bytes {
    var r := ExpandPart(values, p);
    if r.Ok? then r.value else []
  }

  /** What each part expands to. */
  ghost function Pieces(values: Values, parts: seq<Part>): (r: seq<Bytes>)
    ensures |r| == |parts|
  {
    if parts == [] then [] else [PieceOf(values, parts[0])] + Pieces(values, parts[1..])
  }

  lemma PartExpands(values: Values, p: Part)
    requires Supplies(values, VariablesOf(p))
    ensures ExpandPart(values, p) == Ok(PieceOf(values, p))
  {
    if IsQuery(p) {
      NamesExpand(values, p.names, SeparatorOf(p));
    } else if p.Simple? {
      assert VariablesOf(p)[0] == p.name;
    }
  }

  /** An expansion is its pieces, one after the other. */
  lemma {:induction false} ExpandsToPieces(values: Values, parts: seq<Part>)
    requires Supplies(values, Variables(parts))
    ensures ExpandPath(values, parts) == Ok(Flatten(Pieces(values, parts)))
  {
    hide ExpandPart, PieceOf;
    if parts != [] {
      SuppliesParts(values, parts);
      PartExpands(values, parts[0]);
      ExpandsToPieces(values, parts[1..]);
      assert Pieces(values, parts)[1..] == Pieces(values, parts[1..]);
    }
  }

  // ---------------------------------------------------------------------------
  // Clear templates with findable names round-trip
  // ---------------------------------------------------------------------------

  /** The names of a query are there and are text. */
  ghost predicate Named(p: Part) {
    VariablesOf(p) != [] || p.Literal?
  }

  ghost predicate AllNamed(parts: seq<Part>) {
    AllText(Variables(parts)) && forall i :: 0 <= i < |parts| ==> Named(parts[i])
  }

  lemma AllTextParts(parts: seq<Part>)
    requires parts != [] && AllText(Variables(parts))
    ensures AllText(VariablesOf(parts[0])) && AllText(Variables(parts[1..]))
  {
    hide IsUtf8, VariablesOf;
    var a, b, all := VariablesOf(parts[0]), Variables(parts[1..]), Variables(parts);
    assert all == a + b;
    forall k | 0 <= k < |a| ensures IsUtf8(a[k]) { assert a[k] == all[k]; }
    forall k | 0 <= k < |b| ensures IsUtf8(b[k]) { assert b[k] == all[|a| + k]; }
  }

  lemma PieceFits(values: Values, p: Part)
    requires Supplies(values, VariablesOf(p)) && Named(p) && AllText(VariablesOf(p))
    requires IsQuery(p) ==> AllFindable(p.names)
    ensures Fits(p, PieceOf(values, p))
    ensures Binds(p, PieceOf(values, p)) == Restrict(values, VariablesOf(p))
  {
    hide ExpandNames, QueryValues, PctDecode, PctEncode, IsUtf8, Findable;
    if IsQuery(p) {
      QueryRoundTrip(values, p.names, SeparatorOf(p));
    } else if p.Simple? {
      assert VariablesOf(p)[0] == p.name;
      EncodedIsSafe(values[p.name]);
      PctRoundTrip(values[p.name]);
    }
  }

  lemma {:induction false} PiecesSplit(values: Values, parts: seq<Part>)
    requires Supplies(values, Variables(parts)) && AllNamed(parts) && FindableNames(parts)
    ensures IsSplit(parts, Pieces(values, parts), Flatten(Pieces(values, parts)))
    ensures Bindings(parts, Pieces(values, parts)) == Restrict(values, Variables(parts))
  {
    hide Fits, Binds, PieceOf, Findable, Named, IsUtf8;
    if parts == [] {
      assert Restrict(values, []) == map[];
    } else {
      SuppliesParts(values, parts);
      AllTextParts(parts);
      PieceFits(values, parts[0]);
      PiecesSplit(values, parts[1..]);
      SplitCons(parts, PieceOf(values, parts[0]), Pieces(values, parts[1..]), Flatten(Pieces(values, parts[1..])));
      assert Pieces(values, parts)[1..] == Pieces(values, parts[1..]);
      RestrictedVariables(values, parts);
    }
  }

  /** The values of a template are those of its first part and those of the rest. */
  lemma RestrictedVariables(values: Values, parts: seq<Part>)
    requires parts != []
    ensures Restrict(values, VariablesOf(parts[0])) + Restrict(values, Variables(parts[1..]))
         == Restrict(values, Variables(parts))
  {
    assert Variables(parts) == VariablesOf(parts[0]) + Variables(parts[1..]);
  }

  lemma {:induction false} PieceAt(values: Values, parts: seq<Part>, i: nat)
    requires i < |parts|
    ensures Pieces(values, parts)[i] == PieceOf(values, parts[i])
  {
    hide PieceOf;
    if i > 0 {
      PieceAt(values, parts[1..], i - 1);
    }
  }

  lemma {:induction false} SuppliesAt(values: Values, parts: seq<Part>, i: nat)
    requires i < |parts| && Supplies(values, Variables(parts)) && AllText(Variables(parts))
    ensures Supplies(values, VariablesOf(parts[i])) && AllText(VariablesOf(parts[i]))
  {
    hide IsUtf8, VariablesOf;
    SuppliesParts(values, parts);
    AllTextParts(parts);
    if i > 0 {
      SuppliesAt(values, parts[1..], i - 1);
    }
  }

  lemma PieceIsShaped(values: Values, p: Part)
    requires Supplies(values, VariablesOf(p)) && Named(p)
    ensures Shaped(p, PieceOf(values, p))
    ensures p.Simple? ==> IsEncoding(PieceOf(values, p))
  {
    hide ExpandNames, PctEncode, PctDecode, IsUtf8;
    if IsQuery(p) {
      NamesExpand(values, p.names, SeparatorOf(p));
    } else if p.Simple? {
      assert VariablesOf(p)[0] == p.name;
      EncodedIsSafe(values[p.name]);
      PctRoundTrip(values[p.name]);
    }
  }

  lemma PiecesAreACut(values: Values, parts: seq<Part>)
    requires Supplies(values, Variables(parts)) && AllNamed(parts)
    ensures IsCut(parts, Pieces(values, parts), Flatten(Pieces(values, parts)))
    ensures Expanded(parts, Pieces(values, parts))
  {
    hide PieceOf, Named, Shaped, IsUtf8, Supplies, AllText, Pieces, IsEncoding;
    forall i | 0 <= i < |parts|
      ensures Shaped(parts[i], Pieces(values, parts)[i])
      ensures parts[i].Simple? ==> IsEncoding(Pieces(values, parts)[i])
    {
      PieceAt(values, parts, i);
      SuppliesAt(values, parts, i);
      PieceIsShaped(values, parts[i]);
    }
  }

  /** In a clear template the search, if it succeeds at all, finds the pieces the path was
      put together from. */
  lemma FindsThePieces(values: Values, parts: seq<Part>)
    requires QueryOnlyLast(parts) && Clear(parts) && AllNamed(parts) && Supplies(values, Variables(parts))
    ensures ExpandPath(values, parts) == Ok(Flatten(Pieces(values, parts)))
    ensures var input := Flatten(Pieces(values, parts));
            Search(parts, input).Some? ==> Search(parts, input).value == Pieces(values, parts)
  {
    hide Search, IsSplit, IsCut, Pieces, ExpandPath, Clear, QueryOnlyLast, AllNamed, Supplies, IsEncoding;
    var pieces := Pieces(values, parts);
    var input := Flatten(pieces);
    ExpandsToPieces(values, parts);
    if Search(parts, input).Some? {
      SearchIsSound(parts, input);
      SplitIsCut(parts, Search(parts, input).value, input);
      PiecesAreACut(values, parts);
      CutsAreUnique(parts, pieces, Search(parts, input).value, input);
    }
  }

  /** A clear template whose names can be found gives all values back. */
  lemma PartsRoundTrip(values: Values, parts: seq<Part>)
    requires QueryOnlyLast(parts) && Clear(parts) && AllNamed(parts) && FindableNames(parts)
    requires Supplies(values, Variables(parts))
    ensures RoundTrips(values, parts)
  {
    hide Search, IsSplit, Pieces, ExpandPath, Clear, QueryOnlyLast, FindableNames, AllNamed, Supplies;
    var pieces := Pieces(values, parts);
    FindsThePieces(values, parts);
    PiecesSplit(values, parts);
    SearchIsComplete(parts, pieces, Flatten(pieces));
  }

  // ---------------------------------------------------------------------------
  // Names that are not findable
  // ---------------------------------------------------------------------------

  /** One query name with `=`, `&` or `%` in it, and a clear template never gives its
      values back, whatever they are. */
  lemma UnfindableNeverRoundTrips(values: Values, parts: seq<Part>)
    requires QueryOnlyLast(parts) && Clear(parts) && AllNamed(parts) && !FindableNames(parts)
    requires Supplies(values, Variables(parts))
    ensures !RoundTrips(values, parts)
  {
    hide Search, Pieces, ExpandPath, ExpandNames, Clear, QueryOnlyLast, Supplies, Findable, QueryValues, AllText;
    var pieces := Pieces(values, parts);
    var input := Flatten(pieces);
    FindsThePieces(values, parts);
    if Search(parts, input).Some? {
      SearchIsSound(parts, input);
      var i :| 0 <= i < |parts| && IsQuery(parts[i]) && !AllFindable(parts[i].names);
      assert Fits(parts[i], pieces[i]);
      PieceAt(values, parts, i);
      SuppliesAt(values, parts, i);
      QueryRoundTripsExactlyWhen(values, parts[i].names, SeparatorOf(parts[i]));
    }
  }

  // ---------------------------------------------------------------------------
  // Variables that run into each other
  // ---------------------------------------------------------------------------

  /** Between the variable at `k` and the next there is nothing, or a literal that a value
      could expand to as well. */
  ghost predicate Blurred(parts: seq<Part>, k: int) {
    && 0 <= k < |parts| && parts[k].Simple?
    && ((k + 1 < |parts| && parts[k + 1].Simple?)
        || (k + 2 < |parts| && parts[k + 1].Literal? && IsEncoding(parts[k + 1].text) && parts[k + 2].Simple?))
  }

  lemma {:induction false} PiecesConcat(values: Values, a: seq<Part>, b: seq<Part>)
    ensures Pieces(values, a + b) == Pieces(values, a) + Pieces(values, b)
  {
    hide PieceOf;
    if a == [] {
      assert a + b == b;
    } else {
      assert (a + b)[1..] == a[1..] + b;
      PiecesConcat(values, a[1..], b);
    }
  }

  lemma {:induction false} FlattenConcat(a: seq<Bytes>, b: seq<Bytes>)
    ensures Flatten(a + b) == Flatten(a) + Flatten(b)
  {
    if a == [] {
      assert a + b == b;
    } else {
      assert (a + b)[1..] == a[1..] + b;
      FlattenConcat(a[1..], b);
      Associative(a[0], Flatten(a[1..]), Flatten(b));
    }
  }

  lemma {:induction false} PiecesAgree(v: Values, w: Values, parts: seq<Part>)
    requires Supplies(v, Variables(parts)) && Supplies(w, Variables(parts))
    requires forall name :: name in Variables(parts) ==> v[name] == w[name]
    ensures Pieces(v, parts) == Pieces(w, parts)
  {
    hide IsUtf8;
    if parts != [] {
      SuppliesParts(v, parts);
      SuppliesParts(w, parts);
      assert Variables(parts) == VariablesOf(parts[0]) + Variables(parts[1..]);
      PiecesAgree(v, w, parts[1..]);
      PieceAgrees(v, w, parts[0]);
    }
  }

  lemma PieceAgrees(v: Values, w: Values, p: Part)
    requires Supplies(v, VariablesOf(p)) && Supplies(w, VariablesOf(p))
    requires forall name :: name in VariablesOf(p) ==> v[name] == w[name]
    ensures PieceOf(v, p) == PieceOf(w, p)
  {
    if IsQuery(p) {
      NamesAgree(v, w, p.names, SeparatorOf(p));
    } else if p.Simple? {
      assert VariablesOf(p)[0] == p.name;
    }
  }

  lemma {:induction false} NamesAgree(v: Values, w: Values, names: seq<Bytes>, separator: byte)
    requires Supplies(v, names) && Supplies(w, names) && forall name :: name in names ==> v[name] == w[name]
    ensures ExpandNames(v, names, separator) == ExpandNames(w, names, separator)
    decreases |names|
  {
    hide IsUtf8, PctEncode;
    if names != [] {
      NamesAgree(v, w, names[1..], AMPERSAND);
    }
  }

  lemma GapString(gap: Bytes) returns (u: Bytes)
    requires IsEncoding(gap)
    ensures PctEncode(u) == gap && IsUtf8(u)
  {
    u := PctDecode(gap).value;
  }

  /** Around a blurred gap, a literal's worth of text can go to either side. */
  lemma SameText(gap: Bytes, u: Bytes)
    requires PctEncode(u) == gap && IsUtf8(u)
    ensures var x: Bytes, y: Bytes, z: Bytes := [120], [121], [122];
            && IsUtf8(x) && IsUtf8(y + u + z) && IsUtf8(x + u + y) && IsUtf8(z)
            && PctEncode(x) + gap + PctEncode(y + u + z) == PctEncode(x + u + y) + gap + PctEncode(z)
  {
    hide PctEncode, PctDecode, IsUtf8;
    var x: Bytes, y: Bytes, z: Bytes := [120], [121], [122];
    AsciiIsUtf8(x);
    AsciiIsUtf8(y);
    AsciiIsUtf8(z);
    Utf8After(y, u);
    Utf8After(y + u, z);
    Utf8After(x, u);
    Utf8After(x + u, y);
    UnreservedIsVerbatim(x);
    UnreservedIsVerbatim(y);
    UnreservedIsVerbatim(z);
    EncodeConcat(y + u, z);
    EncodeConcat(y, u);
    EncodeConcat(x + u, y);
    EncodeConcat(x, u);
    assert x + gap + (y + gap + z) == x + gap + y + gap + z;
  }

  lemma DistinctMiddle(p: seq<Bytes>, a: Bytes, b: Bytes, q: seq<Bytes>)
    requires Distinct(p + [a, b] + q)
    ensures a != b && a !in p && b !in p && a !in q && b !in q
  {
    var all := p + [a, b] + q;
    assert all[|p|] == a && all[|p| + 1] == b;
    assert forall k :: 0 <= k < |p| ==> all[k] == p[k];
    assert forall k :: 0 <= k < |q| ==> all[|p| + 2 + k] == q[k];
  }

  /** Two variables and the gap between them. */
  ghost predicate IsPair(mid: seq<Part>, a: Bytes, gap: Bytes, b: Bytes) {
    || (gap == [] && mid == [Simple(a), Simple(b)])
    || mid == [Simple(a), Literal(gap), Simple(b)]
  }

  lemma PairNames(mid: seq<Part>, a: Bytes, gap: Bytes, b: Bytes)
    requires IsPair(mid, a, gap, b)
    ensures Variables(mid) == [a, b]
  {
    var last := [Simple(b)];
    assert last[1..] == [] && Variables([]) == [];
    assert Variables(last) == [b];
    if mid[1].Simple? {
      assert mid[1..] == last;
    } else {
      assert mid[1..][1..] == last && mid[1..][0] == Literal(gap);
      assert Variables(mid[1..]) == [b];
    }
  }

  lemma PairExpands(v: Values, mid: seq<Part>, a: Bytes, gap: Bytes, b: Bytes)
    requires IsPair(mid, a, gap, b) && Supplies(v, [a, b])
    ensures Flatten(Pieces(v, mid)) == PctEncode(v[a]) + gap + PctEncode(v[b])
  {
    hide PctEncode, IsUtf8;
    assert [a, b][0] == a && [a, b][1] == b;
    var last := [Simple(b)];
    assert last[1..] == [] && Pieces(v, []) == [];
    assert Flatten(Pieces(v, last)) == PctEncode(v[b]) + Flatten<byte>([]);
    if mid[1].Simple? {
      assert mid[1..] == last;
    } else {
      assert mid[1..][1..] == last;
    }
  }

  /** Some value for every name, and these two for `a` and `b`. */
  ghost function Assign(names: seq<Bytes>, a: Bytes, va: Bytes, b: Bytes, vb: Bytes): Values {
    (map name | name in names :: [120])[a := va][b := vb]
  }

  lemma AssignSupplies(names: seq<Bytes>, a: Bytes, va: Bytes, b: Bytes, vb: Bytes)
    requires a != b && va != [] && vb != [] && IsUtf8(va) && IsUtf8(vb)
    ensures var v := Assign(names, a, va, b, vb);
            && Supplies(v, names) && Supplies(v, [a, b]) && v[a] == va && v[b] == vb
            && forall name :: name in names && name != a && name != b ==> v[name] == [120]
  {
    var x: Bytes := [120];
    AsciiIsUtf8(x);
  }

  lemma SuppliesSome(v: Values, names: seq<Bytes>, some: seq<Bytes>)
    requires Supplies(v, names) && forall name :: name in some ==> name in names
    ensures Supplies(v, some)
  {
  }

  /** Values that send the gap's text to one side of a blurred gap or to the other expand
      to the same path. */
  lemma BlurredIsAmbiguous(pre: seq<Part>, mid: seq<Part>, post: seq<Part>, a: Bytes, gap: Bytes, b: Bytes)
    returns (v: Values, w: Values)
    requires IsPair(mid, a, gap, b) && IsEncoding(gap) && Distinct(Variables(pre + mid + post))
    ensures var parts := pre + mid + post;
            && Supplies(v, Variables(parts)) && Supplies(w, Variables(parts))
            && ExpandPath(v, parts) == ExpandPath(w, parts)
            && a in Variables(parts) && v[a] != w[a]
  {
    hide PctEncode, PctDecode, IsUtf8, IsEncoding, ExpandPath, Pieces, Distinct, Assign, Variables, IsPair;
    var u := GapString(gap);
    var x: Bytes, y: Bytes, z: Bytes := [120], [121], [122];
    SameText(gap, u);
    var names, before, after := Variables(pre + mid + post), Variables(pre), Variables(post);
    PairNames(mid, a, gap, b);
    VariablesConcat(pre + mid, post);
    VariablesConcat(pre, mid);
    assert names == before + [a, b] + after;
    DistinctMiddle(before, a, b, after);
    assert names[|before|] == a;
    v, w := Assign(names, a, x, b, y + u + z), Assign(names, a, x + u + y, b, z);
    AssignSupplies(names, a, x, b, y + u + z);
    AssignSupplies(names, a, x + u + y, b, z);
    PairExpands(v, mid, a, gap, b);
    PairExpands(w, mid, a, gap, b);
    AgreeOutside(v, w, names, before, pre);
    AgreeOutside(v, w, names, after, post);
    ExpandsInThree(v, pre, mid, post);
    ExpandsInThree(w, pre, mid, post);
  }

  lemma AgreeOutside(v: Values, w: Values, names: seq<Bytes>, some: seq<Bytes>, parts: seq<Part>)
    requires Supplies(v, names) && Supplies(w, names) && some == Variables(parts)
    requires forall name :: name in some ==> name in names && v[name] == w[name]
    ensures Pieces(v, parts) == Pieces(w, parts)
  {
    hide Supplies, Pieces;
    SuppliesSome(v, names, some);
    SuppliesSome(w, names, some);
    PiecesAgree(v, w, parts);
  }

  lemma ExpandsInThree(v: Values, pre: seq<Part>, mid: seq<Part>, post: seq<Part>)
    requires Supplies(v, Variables(pre + mid + post))
    ensures ExpandPath(v, pre + mid + post) ==
            Ok(Flatten(Pieces(v, pre)) + Flatten(Pieces(v, mid)) + Flatten(Pieces(v, post)))
  {
    hide Pieces, ExpandPath, Supplies;
    ExpandsToPieces(v, pre + mid + post);
    PiecesConcat(v, pre + mid, post);
    PiecesConcat(v, pre, mid);
    FlattenConcat(Pieces(v, pre + mid), Pieces(v, post));
    FlattenConcat(Pieces(v, pre), Pieces(v, mid));
  }

  /** A blurred gap is the middle of the template. */
  lemma BlurredSplits(parts: seq<Part>, k: int)
    returns (pre: seq<Part>, mid: seq<Part>, post: seq<Part>, gap: Bytes, b: Bytes)
    requires Blurred(parts, k)
    ensures parts == pre + mid + post && IsPair(mid, parts[k].name, gap, b) && IsEncoding(gap)
  {
    hide IsEncoding;
    NothingIsEncoding();
    var next := parts[k + 1];
    var j := if next.Simple? then k + 1 else k + 2;
    pre, mid, post := parts[..k], parts[k..j + 1], parts[j + 1..];
    gap, b := if next.Simple? then [] else next.text, parts[j].name;
  }

  /** A template with a blurred gap loses some values. */
  lemma BlurredLosesValues(parts: seq<Part>, k: int) returns (lost: Values)
    requires Blurred(parts, k) && Distinct(Variables(parts))
    ensures Supplies(lost, Variables(parts)) && !RoundTrips(lost, parts)
  {
    hide IsEncoding, ExpandPath, Distinct, MatchResult, Supplies, Restrict, IsPair;
    var pre, mid, post, gap, b := BlurredSplits(parts, k);
    var a, names := parts[k].name, Variables(parts);
    var v, w := BlurredIsAmbiguous(pre, mid, post, a, gap, b);
    RestrictedAt(v, names, a);
    RestrictedAt(w, names, a);
    lost := if RoundTrips(v, parts) then w else v;
  }

  lemma RestrictedAt(v: Values, names: seq<Bytes>, name: Bytes)
    requires Supplies(v, names) && name in names
    ensures name in v && name in Restrict(v, names) && Restrict(v, names)[name] == v[name]
  {
  }

  // ---------------------------------------------------------------------------
  // Parsed templates
  // ---------------------------------------------------------------------------

  ghost predicate Alternates(parts: seq<Part>) {
    forall i :: 0 <= i < |parts| - 1 ==> !(parts[i].Literal? && parts[i + 1].Literal?)
  }

  lemma {:induction false} ScanAlternates(rest: Bytes)
    requires Scan(rest).Ok?
    ensures Alternates(Scan(rest).value)
    decreases |rest|
  {
    hide Scan, Find;
    var open := Find(rest, OPEN);
    if open == |rest| {
      ScanEnds(rest);
    } else {
      ScanUnrolls(rest, open);
      var after := rest[open + 1..];
      var close := Find(after, CLOSE);
      ScanAlternates(after[close + 1..]);
      var part := ParseExpression(after[..close]).value;
      AlternatesAfter(LiteralPart(rest[..open]), part, Scan(after[close + 1..]).value);
    }
  }

  lemma AlternatesAfter(literal: seq<Part>, part: Part, tail: seq<Part>)
    requires |literal| <= 1 && !part.Literal? && Alternates(tail)
    ensures Alternates(literal + [part] + tail)
  {
    var all := literal + [part] + tail;
    forall i | 0 <= i < |all| - 1
      ensures !(all[i].Literal? && all[i + 1].Literal?)
    {
      if i > |literal| {
        assert all[i] == tail[i - |literal| - 1] && all[i + 1] == tail[i - |literal|];
      }
    }
  }

  lemma ScanStartsWithSlash(rest: Bytes)
    requires Scan(rest).Ok? && rest != [] && rest[0] == SLASH
    ensures Scan(rest).value != [] && Divides(Scan(rest).value[0])
  {
    hide Scan, Find;
    var open := Find(rest, OPEN);
    if open == |rest| {
      ScanEnds(rest);
    } else {
      ScanUnrolls(rest, open);
      assert rest[..open][0] == SLASH;
    }
  }

  predicate Visible(s: Bytes) {
    forall i :: 0 <= i < |s| ==> 0x21 <= s[i] <= 0x7E
  }

  lemma VisibleParts(a: Bytes, b: Bytes)
    requires Visible(a + b)
    ensures Visible(a) && Visible(b)
  {
    var s := a + b;
    assert forall k :: 0 <= k < |a| ==> s[k] == a[k];
    assert forall k :: 0 <= k < |b| ==> s[|a| + k] == b[k];
  }

  lemma {:induction false} VisibleJoin(names: seq<Bytes>, sep: byte, k: nat)
    requires Visible(Join(names, sep)) && k < |names|
    ensures Visible(names[k])
  {
    hide Visible;
    if |names| > 1 {
      VisibleParts(names[0] + [sep], Join(names[1..], sep));
      VisibleParts(names[0], [sep]);
      if k > 0 {
        VisibleJoin(names[1..], sep, k - 1);
      }
    }
  }

  lemma VisibleNames(p: Part, k: nat)
    requires Visible(RenderPart(p)) && k < |VariablesOf(p)|
    ensures Visible(VariablesOf(p)[k])
  {
    hide Visible;
    if p.Simple? {
      VisibleParts([OPEN] + p.name, [CLOSE]);
      VisibleParts([OPEN], p.name);
    } else {
      var operator := if p.Query? then QUESTION else AMPERSAND;
      VisibleParts([OPEN, operator] + Join(p.names, COMMA), [CLOSE]);
      VisibleParts([OPEN, operator], Join(p.names, COMMA));
      VisibleJoin(p.names, COMMA, k);
    }
  }

  lemma {:induction false} VisibleVariables(parts: seq<Part>)
    requires Visible(Render(parts))
    ensures AllText(Variables(parts))
  {
    hide Visible, RenderPart, IsUtf8;
    if parts != [] {
      VisibleParts(RenderPart(parts[0]), Render(parts[1..]));
      VisibleVariables(parts[1..]);
      var names := VariablesOf(parts[0]);
      forall k | 0 <= k < |names|
        ensures IsUtf8(names[k])
      {
        VisibleNames(parts[0], k);
        VisibleIsText(names[k]);
      }
    }
  }

  lemma VisibleIsText(s: Bytes)
    requires Visible(s)
    ensures IsUtf8(s)
  {
    AsciiIsUtf8(s);
  }

  /** What is known of every parsed template. */
  ghost predicate IsParsed(parts: seq<Part>) {
    && QueryOnlyLast(parts) && Distinct(Variables(parts)) && AllNamed(parts)
    && Alternates(parts) && parts != [] && Divides(parts[0])
  }

  lemma ParsedTemplate(template: Bytes)
    requires Parse(template).Ok?
    ensures IsParsed(Parse(template).value.parts)
  {
    hide FindScheme, Find, Scan, Variables, FirstDuplicate, Lacks, Render, WellFormedPart, Distinct, QueryOnlyLast,
         AllText;
    ParseIsFaithful(template);
    var t := Parse(template).value;
    var colon := FindScheme(template);
    var rest := template[colon + 3..];
    var path := rest[Find(rest, SLASH)..];
    assert path[0] == SLASH && Scan(path) == Ok(t.parts);
    ScanStartsWithSlash(path);
    ScanAlternates(path);
    ScanIsFaithful(path);
    assert Visible(path);
    VisibleVariables(t.parts);
    forall i | 0 <= i < |t.parts|
      ensures Named(t.parts[i])
    {
      assert WellFormedPart(t.parts[i]);
      WellFormedIsNamed(t.parts[i]);
    }
  }

  lemma WellFormedIsNamed(p: Part)
    requires WellFormedPart(p)
    ensures Named(p)
  {
  }

  // ---------------------------------------------------------------------------
  // The exact condition
  // ---------------------------------------------------------------------------

  predicate IsGap(parts: seq<Part>, k: nat)
    requires k < |parts| - 2
  {
    parts[k].Simple? && parts[k + 1].Literal? && parts[k + 2].Simple?
  }

  /** In a literal made of safe bytes between two variables, every `%` starts an escape. */
  ghost predicate WellEscaped(parts: seq<Part>) {
    forall k :: 0 <= k < |parts| - 2 && IsGap(parts, k) && AllSafe(parts[k + 1].text) ==>
      Unescape(parts[k + 1].text).Some?
  }

  lemma {:induction false} ClearFrom(parts: seq<Part>, i: nat)
    requires QueryOnlyLast(parts) && Alternates(parts) && WellEscaped(parts) && i <= |parts|
    requires forall k :: !Blurred(parts, k)
    ensures Clear(parts[i..])
    decreases |parts| - i
  {
    hide IsEncoding, Unescape, AllSafe;
    if i < |parts| {
      ClearFrom(parts, i + 1);
      var here := parts[i..];
      assert here[1..] == parts[i + 1..];
      if parts[i].Simple? {
        ClearAfter(parts, i);
      }
    }
  }

  lemma ClearAfter(parts: seq<Part>, i: nat)
    requires QueryOnlyLast(parts) && Alternates(parts) && WellEscaped(parts)
    requires i < |parts| && parts[i].Simple? && !Blurred(parts, i)
    ensures Shielded(parts[i + 1..]) || Guarded(parts[i + 1..])
  {
    hide IsEncoding, Unescape, AllSafe;
    var rest := parts[i + 1..];
    if i + 2 < |parts| && parts[i + 1].Literal? && !Divides(parts[i + 1]) {
      assert rest[1..] == parts[i + 2..];
      assert rest[0] == parts[i + 1] && rest[1] == parts[i + 2];
      assert !parts[i + 2].Literal?;
      assert parts[i + 2].Simple? ==> IsGap(parts, i);
    } else if i + 1 < |parts| {
      assert rest[0] == parts[i + 1];
      assert i + 2 == |parts| ==> rest[1..] == [];
    }
  }

  ghost predicate AlwaysRoundTrips(parts: seq<Part>) {
    forall values :: Supplies(values, Variables(parts)) ==> RoundTrips(values, parts)
  }

  lemma SomeValues(names: seq<Bytes>) returns (values: Values)
    ensures Supplies(values, names)
  {
    var x: Bytes := [120];
    AsciiIsUtf8(x);
    values := map name | name in names :: x;
  }

  /** A parsed template gives all values back exactly when nothing is blurred and every
      query name can be found: between two variables there is a literal that no value
      could expand to, and no query name has `=`, `&` or `%` in it. */
  lemma RoundTripsExactlyWhen(template: Bytes)
    requires Parse(template).Ok? && WellEscaped(Parse(template).value.parts)
    ensures var parts := Parse(template).value.parts;
            AlwaysRoundTrips(parts) <==> (forall k :: !Blurred(parts, k)) && FindableNames(parts)
  {
    hide Parse, QueryOnlyLast, AllNamed, Alternates, WellEscaped, Blurred, FindableNames, Supplies, RoundTrips, Clear,
         Distinct;
    var parts := Parse(template).value.parts;
    ParsedTemplate(template);
    if k :| Blurred(parts, k) {
      var lost := BlurredLosesValues(parts, k);
    } else {
      ClearFrom(parts, 0);
      assert parts[0..] == parts;
      if FindableNames(parts) {
        forall values | Supplies(values, Variables(parts))
          ensures RoundTrips(values, parts)
        {
          PartsRoundTrip(values, parts);
        }
      } else {
        var values := SomeValues(Variables(parts));
        UnfindableNeverRoundTrips(values, parts);
      }
    }
  }

  // ---------------------------------------------------------------------------
  // Literals without escapes
  // ---------------------------------------------------------------------------

  /** Between any two variables lies a byte that no expanded value contains. */
  ghost predicate Separated(parts: seq<Part>) {
    forall i, j :: 0 <= i < j < |parts| && parts[i].Simple? && parts[j].Simple? ==>
      exists m :: i < m < j && Divides(parts[m])
  }

  /** Separation is clear, whatever the escapes in the literals. */
  lemma SeparatedIsNotBlurred(parts: seq<Part>)
    requires Separated(parts)
    ensures WellEscaped(parts) && forall k :: !Blurred(parts, k)
  {
    hide IsEncoding, AllSafe, Unescape;
    forall k | 0 <= k < |parts| - 2 && parts[k].Simple? && parts[k + 2].Simple?
      ensures Divides(parts[k + 1])
    {
      var m :| k < m < k + 2 && Divides(parts[m]);
    }
    forall k ensures !Blurred(parts, k) {
      if Blurred(parts, k) {
        if parts[k + 1].Literal? {
          EncodingIsSafe(parts[k + 1].text);
        }
      }
    }
  }

  lemma UnblurredIsSeparated(parts: seq<Part>)
    requires QueryOnlyLast(parts) && Alternates(parts) && forall k :: !Blurred(parts, k)
    requires forall k :: 0 <= k < |parts| && parts[k].Literal? ==> Lacks(parts[k].text, PERCENT)
    ensures Separated(parts)
  {
    hide IsEncoding, AllSafe, Lacks;
    forall i, j | 0 <= i < j < |parts| && parts[i].Simple? && parts[j].Simple?
      ensures exists m :: i < m < j && Divides(parts[m])
    {
      assert !Blurred(parts, i);
      assert parts[i + 1].Literal?;
      assert !parts[i + 2].Literal? && parts[i + 2].Simple?;
      if AllSafe(parts[i + 1].text) {
        PlainIsEncoding(parts[i + 1].text);
      }
      assert Divides(parts[i + 1]);
    }
  }

  /** For templates whose literals have no escapes: exactly when between any two variables
      lies a byte outside the expansion-safe set, and the query names can be found. */
  lemma UnescapedRoundTripsExactlyWhen(template: Bytes)
    requires Parse(template).Ok?
    requires var parts := Parse(template).value.parts;
             forall k :: 0 <= k < |parts| && parts[k].Literal? ==> Lacks(parts[k].text, PERCENT)
    ensures var parts := Parse(template).value.parts;
            AlwaysRoundTrips(parts) <==> Separated(parts) && FindableNames(parts)
  {
    hide Parse, FindableNames, AlwaysRoundTrips, Separated, Blurred, AllNamed, Distinct;
    var parts := Parse(template).value.parts;
    ParsedTemplate(template);
    UnescapedIsWellEscaped(parts);
    RoundTripsExactlyWhen(template);
    if Separated(parts) {
      SeparatedIsNotBlurred(parts);
    } else if forall k :: !Blurred(parts, k) {
      UnblurredIsSeparated(parts);
    }
  }

  lemma UnescapedIsWellEscaped(parts: seq<Part>)
    requires forall k :: 0 <= k < |parts| && parts[k].Literal? ==> Lacks(parts[k].text, PERCENT)
    ensures WellEscaped(parts)
  {
    hide Lacks, Unescape, AllSafe;
    forall k | 0 <= k < |parts| && parts[k].Literal?
      ensures Unescape(parts[k].text).Some?
    {
      UnescapeVerbatim(parts[k].text);
    }
  }

  /** A separated template whose names can be found gives all values back, whatever the
      escapes in its literals. */
  lemma SeparatedRoundTrips(template: Bytes, values: Values)
    requires Parse(template).Ok?
    requires var parts := Parse(template).value.parts;
             Separated(parts) && FindableNames(parts) && Supplies(values, Variables(parts))
    ensures RoundTrips(values, Parse(template).value.parts)
  {
    hide Parse, FindableNames, Separated, Blurred, RoundTrips, Supplies;
    SeparatedIsNotBlurred(Parse(template).value.parts);
    RoundTripsExactlyWhen(template);
  }

  // ---------------------------------------------------------------------------
  // A path segment
  // ---------------------------------------------------------------------------

  ghost predicate AllPlain(s: Bytes) {
    forall i :: 0 <= i < |s| ==> IsPlainCode(s[i])
  }

  lemma {:induction false} PlainIsVerbatim(s: Bytes)
    requires AllPlain(s)
    ensures PctEncode(s) == s && IsUtf8(s)
  {
    if s != [] {
      PlainIsVerbatim(s[1..]);
      EncodesByCode(s[0]);
      EncodeConcat([s[0]], s[1..]);
      assert s == [s[0]] + s[1..];
    }
    AsciiIsUtf8(s);
  }

  /** A variable between slashes: plain text, an IPv4 address say, stands in the path as it
      is, and the path gives it back. */
  lemma PlainSegment(name: Bytes, s: Bytes)
    requires s != [] && AllPlain(s) && IsUtf8(name)
    ensures var values: Values := map[name := s];
            var parts := [Literal([0x2F]), Simple(name), Literal([0x2F])];
            && ExpandPath(values, parts) == Ok([0x2F] + s + [0x2F])
            && MatchResult(parts, [0x2F] + s + [0x2F]) == Some(values)
  {
    hide PctEncode, MatchResult, ExpandPath, IsUtf8, Variables, Clear, Pieces, IsPlainCode;
    var values: Values := map[name := s];
    var parts := [Literal([0x2F]), Simple(name), Literal([0x2F])];
    PlainIsVerbatim(s);
    SegmentIsClear(name);
    assert Supplies(values, [name]);
    PartsRoundTrip(values, parts);
    ExpandsToPieces(values, parts);
    PieceAt(values, parts, 0);
    PieceAt(values, parts, 1);
    PieceAt(values, parts, 2);
    assert Pieces(values, parts) == [[0x2F], s, [0x2F]];
    SegmentText(Pieces(values, parts), s);
    assert Restrict(values, [name]) == values;
  }

  lemma SegmentIsClear(name: Bytes)
    ensures var parts := [Literal([0x2F]), Simple(name), Literal([0x2F])];
            Variables(parts) == [name] && Clear(parts)
  {
    var slash := Literal([0x2F]);
    var parts, middle, last := [slash, Simple(name), slash], [Simple(name), slash], [slash];
    assert parts[1..] == middle && middle[1..] == last && last[1..] == [];
    assert Variables(last) == [] by { assert Variables([]) == []; }
    assert Variables(middle) == [name];
    assert slash.text[0] == 0x2F;
    assert Divides(slash);
    assert Shielded(last) && Clear([]) && Clear(last);
    assert Clear(middle);
  }

  lemma SegmentText(pieces: seq<Bytes>, s: Bytes)
    requires pieces == [[0x2F], s, [0x2F]]
    ensures Flatten(pieces) == [0x2F] + s + [0x2F]
  {
    var one := [[0x2F]];
    assert pieces[1..] == [s, [0x2F]] && pieces[1..][1..] == one && one[1..] == [];
    assert Flatten(one) == [0x2F] + Flatten<byte>([]) == [0x2F];
    assert Flatten(pieces[1..]) == s + [0x2F];
  }

  // ---------------------------------------------------------------------------
  // An input that is lost
  // ---------------------------------------------------------------------------

  /** `h://h/{a}{b}` */
  const ADJACENT: Bytes := [104, 58, 47, 47, 104, 47, 123, 97, 125, 123, 98, 125]

  lemma AdjacentScans()
    ensures Scan([47, 123, 97, 125, 123, 98, 125]) == Ok([Literal([47]), Simple([97]), Simple([98])])
  {
    hide Find, ParseExpression, LiteralPart, Scan;
    var path: Bytes, second: Bytes, none: Bytes := [47, 123, 97, 125, 123, 98, 125], [123, 98, 125], [];
    FindIs(path, OPEN, 1);
    FindIs(second, OPEN, 0);
    FindIs(none, OPEN, 0);
    assert path[2..] == [97, 125, 123, 98, 125] && second[1..] == [98, 125];
    FindIs(path[2..], CLOSE, 1);
    FindIs(second[1..], CLOSE, 1);
    assert path[2..][..1] == [97] && path[2..][2..] == second;
    assert second[1..][..1] == [98] && second[1..][2..] == none;
    OneLetterName(97);
    OneLetterName(98);
    ScanEnds(none);
    ScanUnrolls(second, 0);
    ScanUnrolls(path, 1);
    assert path[..1] == [47] && second[..0] == [];
    LiteralParts();
    assert Scan(none) == Ok([]);
    assert LiteralPart(second[..0]) + [Simple([98])] + [] == [Simple([98])];
    assert Scan(second) == Ok([Simple([98])]);
    assert LiteralPart(path[..1]) + [Simple([97])] + [Simple([98])] == [Literal([47]), Simple([97]), Simple([98])];
  }

  lemma LiteralParts()
    ensures LiteralPart([]) == [] && LiteralPart([47]) == [Literal([47])]
  {
  }

  lemma OneLetterName(b: byte)
    requires 97 <= b <= 122
    ensures ParseExpression([b]) == Ok(Simple([b]))
  {
    var s: Bytes := [b];
    FindIs(s, COMMA, 1);
    assert s[1..] == [];
    assert FirstModifier(s) == None;
    assert [s][1..] == [];
  }

  lemma AdjacentParses()
    ensures Parse(ADJACENT).Ok? && Parse(ADJACENT).value.parts == [Literal([47]), Simple([97]), Simple([98])]
  {
    hide Find, Scan, FindScheme, Variables, FirstDuplicate, RenderPart, IsUtf8;
    var rest: Bytes, path: Bytes := [104, 47, 123, 97, 125, 123, 98, 125], [47, 123, 97, 125, 123, 98, 125];
    AdjacentScans();
    SchemeAfterOne();
    assert ADJACENT[4..] == rest;
    FindIs(rest, SLASH, 1);
    assert rest[1..] == path;
    var parts := [Literal([47]), Simple([97]), Simple([98])];
    assert parts[1..] == [Simple([97]), Simple([98])];
    PairNames(parts[1..], [97], [], [98]);
    VariablesAfterLiteral(parts);
    assert [] + Variables(parts) == Variables(parts);
  }

  lemma VariablesAfterLiteral(parts: seq<Part>)
    requires parts != [] && parts[0].Literal?
    ensures Variables(parts) == Variables(parts[1..])
  {
  }

  lemma SchemeAfterOne()
    ensures FindScheme(ADJACENT) == 1
  {
    var tail: Bytes := ADJACENT[1..];
    assert tail[..3] == [58, 47, 47];
    assert FindScheme(tail) == 0;
    assert ADJACENT[..3][0] == 104;
  }

  /** On that template x and yz are lost: they expand to `/xyz`, and the greediest split of
      that gives xy and z. */
  lemma AdjacentVariablesDoNotRoundTrip()
    ensures Parse(ADJACENT).Ok?
    ensures var values: Values := map[[97] := [120], [98] := [121, 122]];
            var parts := Parse(ADJACENT).value.parts;
            Supplies(values, Variables(parts)) && ExpandPath(values, parts) == Ok([47, 120, 121, 122])
            && !RoundTrips(values, parts)
  {
    hide Parse, Search, MatchResult, PctEncode, PctDecode, ExpandPath, Supplies;
    AdjacentParses();
    var a: Bytes, b: Bytes, xyz: Bytes := [97], [98], [120, 121, 122];
    var tail := [Simple(a), Simple(b)];
    var parts := [Literal([47])] + tail;
    assert parts == Parse(ADJACENT).value.parts;
    AdjacentExpands(a, b);
    GreediestOfThree(a, b, xyz);
    AfterALiteral([47], tail, xyz);
    assert [47] + xyz == [47, 120, 121, 122];
  }

  lemma AdjacentExpands(a: Bytes, b: Bytes)
    requires a != b
    ensures var values: Values := map[a := [120], b := [121, 122]];
            var parts := [Literal([47])] + [Simple(a), Simple(b)];
            && Supplies(values, Variables(parts)) && ExpandPath(values, parts) == Ok([47, 120, 121, 122])
            && a in Restrict(values, Variables(parts)) && Restrict(values, Variables(parts))[a] == [120]
  {
    hide PctEncode, PctDecode, ExpandPath;
    var x: Bytes, yz: Bytes, xyz: Bytes := [120], [121, 122], [120, 121, 122];
    var values: Values := map[a := x, b := yz];
    var tail := [Simple(a), Simple(b)];
    var parts := [Literal([47])] + tail;
    assert parts[1..] == tail;
    PairNames(tail, a, [], b);
    VariablesAfterLiteral(parts);
    UnreservedIsVerbatim(x);
    UnreservedIsVerbatim(yz);
    assert Supplies(values, [a, b]);
    PairExpands(values, tail, a, [], b);
    assert x + [] + yz == xyz;
    assert Flatten(Pieces(values, parts)) == [47] + xyz == [47, 120, 121, 122];
    ExpandsToPieces(values, parts);
    assert [a, b][0] == a;
    RestrictedAt(values, [a, b], a);
  }

  lemma AfterALiteral(text: Bytes, tail: seq<Part>, input: Bytes)
    ensures MatchResult([Literal(text)] + tail, text + input) == MatchResult(tail, input)
  {
    hide Shrink, QueryValues;
    var parts := [Literal(text)] + tail;
    Cut(text, input);
    assert parts[1..] == tail;
    if Search(tail, input).Some? {
      MatchResultCons(parts, text + input, text);
      assert map[] + MatchResult(tail, input).value == MatchResult(tail, input).value;
    }
  }

  lemma GreediestOfThree(a: Bytes, b: Bytes, path: Bytes)
    requires a != b && |path| == 3 && AllUnreserved(path)
    ensures var r := MatchResult([Simple(a), Simple(b)], path);
            r.Some? && a in r.value && r.value[a] == path[..2]
  {
    hide PctDecode, Search;
    var parts := [Simple(a), Simple(b)];
    var pieces := [path[..2], path[2..]];
    UnreservedIsVerbatim(path[..2]);
    UnreservedIsVerbatim(path[2..]);
    FlattenTwo(pieces);
    assert path[..2] + path[2..] == path;
    assert IsSplit(parts, pieces, path);
    SearchIsComplete(parts, pieces, path);
    SearchIsSound(parts, path);
    var found := Search(parts, path).value;
    FlattenTwo(found);
    assert Fits(parts[1], found[1]);
    assert |found[0]| == 2 && found[0] == path[..2];
    BindingsCoverTheVariables(parts[1..], found[1..]);
    assert parts[1..][1..] == [] && Variables(parts[1..]) == [b] + Variables([]);
    assert a !in Bindings(parts[1..], found[1..]);
    assert MatchResult(parts, path).value == Binds(parts[0], found[0]) + Bindings(parts[1..], found[1..]);
  }

  lemma FlattenTwo(pieces: seq<Bytes>)
    requires |pieces| == 2
    ensures Flatten(pieces) == pieces[0] + pieces[1]
  {
    var one := pieces[1..];
    assert one == [pieces[1]] && one[1..] == [];
    assert Flatten(one) == pieces[1] + Flatten(one[1..]);
  }
}
