/**
 URI Templates (RFC 6570 as profiled by section 2 of RFC 9298): parsing, expansion,
 and the matcher that runs a template backwards. Strings are their UTF-8 bytes.
 */
module Template {
  import opened Common
  import opened Text

  const PERCENT: byte := 37
  const AMPERSAND: byte := 38
  const PLUS: byte := 43
  const COMMA: byte := 44
  const SLASH: byte := 47
  const EQUALS: byte := 61
  const QUESTION: byte := 63
  const OPEN: byte := 123
  const CLOSE: byte := 125

  datatype Part =
    | Literal(text: Bytes)
    | Simple(name: Bytes)
    | Query(names: seq<Bytes>)
    | QueryContinuation(names: seq<Bytes>)

  type Values = map<Bytes, Bytes>

  predicate IsQuery(p: Part) {
    p.Query? || p.QueryContinuation?
  }

  function VariablesOf(p: Part): seq<Bytes> {
    match p
    case Literal(_) => []
    case Simple(name) => [name]
    case Query(names) => names
    case QueryContinuation(names) => names
  }

  /** Every variable of the template, in order. */
  function Variables(parts: seq<Part>): seq<Bytes> {
    if parts == [] then [] else VariablesOf(parts[0]) + Variables(parts[1..])
  }

  ghost predicate Distinct<T(!new)>(s: seq<T>) {
    forall i, j :: 0 <= i < j < |s| ==> s[i] != s[j]
  }

  // ---------------------------------------------------------------------------
  // Percent-encoding
  // ---------------------------------------------------------------------------

  predicate IsAlphanumeric(b: byte) {
    48 <= b <= 57 || 65 <= b <= 90 || 97 <= b <= 122
  }

  /** `-`, `.`, `_`, `~` and the alphanumerics. */
  predicate IsUnreserved(b: byte) {
    IsAlphanumeric(b) || b == 45 || b == 46 || b == 95 || b == 126
  }

  predicate IsExpansionSafe(b: byte) {
    IsUnreserved(b) || b == PERCENT
  }

  predicate AllSafe(s: Bytes) {
    forall i :: 0 <= i < |s| ==> IsExpansionSafe(s[i])
  }

  predicate AllUnreserved(s: Bytes) {
    forall i :: 0 <= i < |s| ==> IsUnreserved(s[i])
  }

  function UpperHex(n: nat): (d: byte)
    requires n < 16
  {
    if n < 10 then 48 + n else 55 + n
  }

  function HexValue(b: byte): (n: Option<nat>)
    ensures n.Some? ==> n.value < 16
  {
    if 48 <= b <= 57 then Some(b - 48)
    else if 65 <= b <= 70 then Some(b - 55)
    else if 97 <= b <= 102 then Some(b - 87)
    else None
  }

  /** The integer parser the source uses on the two bytes after `%`: it also takes a
      leading plus sign. */
  function HexByte(hi: byte, lo: byte): (n: Option<byte>) {
    if HexValue(lo).None? then None
    else if hi == PLUS then Some(HexValue(lo).value)
    else if HexValue(hi).None? then None
    else Some(16 * HexValue(hi).value + HexValue(lo).value)
  }

  function EncodeByte(b: byte): (s: Bytes)
    ensures s != [] && AllSafe(s)
  {
    if IsUnreserved(b) then [b] else [PERCENT, UpperHex(b / 16), UpperHex(b % 16)]
  }

  function PctEncode(value: Bytes): Bytes {
    if value == [] then [] else EncodeByte(value[0]) + PctEncode(value[1..])
  }

  method PctEncodeLoop(value: Bytes) returns (out: Bytes)
    ensures out == PctEncode(value)
  {
    out := [];
    var i := 0;
    assert value[0..] == value;
    while i < |value|
      invariant i <= |value| && PctEncode(value) == out + PctEncode(value[i..])
    {
      assert value[i..][1..] == value[i + 1..];
      out := out + EncodeByte(value[i]);
      i := i + 1;
    }
  }

  /** The bytes the escapes stand for, before the UTF-8 check. */
  function Unescape(s: Bytes): (r: Option<Bytes>)
    ensures r.Some? && s != [] ==> r.value != []
    decreases |s|
  {
    if s == [] then Some([])
    else if s[0] != PERCENT then
      Onto([s[0]], Unescape(s[1..]))
    else if |s| < 3 || HexByte(s[1], s[2]).None? then None
    else Onto([HexByte(s[1], s[2]).value], Unescape(s[3..]))
  }

  /** The same outcome with `out` in front. */
  function Onto(out: Bytes, r: Option<Bytes>): Option<Bytes> {
    if r.None? then None else Some(out + r.value)
  }

  lemma OntoOnto(a: Bytes, b: Bytes, r: Option<Bytes>)
    ensures Onto(a, Onto(b, r)) == Onto(a + b, r)
  {
    assert r.Some? ==> a + (b + r.value) == (a + b) + r.value;
  }

  function PctDecode(s: Bytes): (r: Option<Bytes>)
    ensures r.Some? && s != [] ==> r.value != []
    ensures r.Some? ==> IsUtf8(r.value)
  {
    var raw := Unescape(s);
    if raw.Some? && IsUtf8(raw.value) then raw else None
  }

  method PctDecodeLoop(value: Bytes) returns (r: Option<Bytes>)
    ensures r == PctDecode(value)
  {
    var out: Bytes := [];
    var i := 0;
    assert value[0..] == value;
    assert Unescape(value).Some? ==> [] + Unescape(value).value == Unescape(value).value;
    while i < |value|
      invariant i <= |value|
      invariant Unescape(value) == Onto(out, Unescape(value[i..]))
    {
      ghost var here := value[i..];
      if value[i] == PERCENT {
        if i + 3 > |value| {
          return None;
        }
        assert here[1] == value[i + 1] && here[2] == value[i + 2] && here[3..] == value[i + 3..];
        var b := HexByte(value[i + 1], value[i + 2]);
        if b.None? {
          return None;
        }
        OntoOnto(out, [b.value], Unescape(value[i + 3..]));
        out := out + [b.value];
        i := i + 3;
      } else {
        assert here[1..] == value[i + 1..];
        OntoOnto(out, [value[i]], Unescape(value[i + 1..]));
        out := out + [value[i]];
        i := i + 1;
      }
    }
    assert out + [] == out;
    if !IsUtf8(out) {
      return None;
    }
    return Some(out);
  }

  lemma {:induction false} EncodedIsSafe(value: Bytes)
    ensures AllSafe(PctEncode(value))
    ensures value != [] ==> PctEncode(value) != []
  {
    if value != [] {
      EncodedIsSafe(value[1..]);
    }
  }

  lemma HexDigitsRead(b: byte)
    ensures HexByte(UpperHex(b / 16), UpperHex(b % 16)) == Some(b)
  {
  }

  lemma UnescapeEncodedByte(b: byte, rest: Bytes)
    requires Unescape(rest).Some?
    ensures Unescape(EncodeByte(b) + rest) == Some([b] + Unescape(rest).value)
  {
    hide HexByte, UpperHex;
    var s := EncodeByte(b) + rest;
    Cut(EncodeByte(b), rest);
    if IsUnreserved(b) {
      assert s[0] == b && s[1..] == rest;
    } else {
      assert s[0] == PERCENT && s[3..] == rest;
      HexDigitsRead(b);
    }
  }

  lemma {:induction false} UnescapeUndoesEncode(value: Bytes)
    ensures Unescape(PctEncode(value)) == Some(value)
  {
    if value != [] {
      UnescapeUndoesEncode(value[1..]);
      UnescapeEncodedByte(value[0], PctEncode(value[1..]));
      assert value == [value[0]] + value[1..];
    }
  }

  /** Decoding undoes encoding on every string. */
  lemma PctRoundTrip(value: Bytes)
    requires IsUtf8(value)
    ensures PctDecode(PctEncode(value)) == Some(value)
  {
    UnescapeUndoesEncode(value);
  }

  lemma {:induction false} UnreservedEncodesVerbatim(s: Bytes)
    requires AllUnreserved(s)
    ensures PctEncode(s) == s
  {
    if s != [] {
      UnreservedEncodesVerbatim(s[1..]);
      assert s == [s[0]] + s[1..];
    }
  }

  /** Text made of unreserved characters is its own encoding. */
  lemma UnreservedIsVerbatim(s: Bytes)
    requires AllUnreserved(s)
    ensures PctEncode(s) == s && PctDecode(s) == Some(s)
  {
    hide Unescape, PctEncode;
    UnreservedEncodesVerbatim(s);
    AsciiIsUtf8(s);
    PctRoundTrip(s);
  }

  // ---------------------------------------------------------------------------
  // The same by ASCII code
  // ---------------------------------------------------------------------------

  /** A letter, a digit, `-`, `.`, `_` or `~`. */
  predicate IsPlainCode(b: byte) {
    || 0x41 <= b <= 0x5A || 0x61 <= b <= 0x7A || 0x30 <= b <= 0x39
    || b == 0x2D || b == 0x2E || b == 0x5F || b == 0x7E
  }

  /** A plain byte is written as it is; any other as `%` and its two upper-case hex digits. */
  lemma EncodesByCode(b: byte)
    ensures PctEncode([b]) ==
            if IsPlainCode(b) then [b]
            else [0x25, "0123456789ABCDEF"[b / 16] as int, "0123456789ABCDEF"[b % 16] as int]
  {
    assert [b][1..] == [] && EncodeByte(b) + [] == EncodeByte(b);
    UpperHexText(b / 16);
    UpperHexText(b % 16);
  }

  lemma UpperHexText(n: nat)
    requires n < 16
    ensures UpperHex(n) == "0123456789ABCDEF"[n] as int
  {
  }

  /** A string is written byte by byte. */
  lemma {:induction false} EncodeConcat(a: Bytes, b: Bytes)
    ensures PctEncode(a + b) == PctEncode(a) + PctEncode(b)
  {
    if a == [] {
      assert a + b == b;
    } else {
      assert (a + b)[1..] == a[1..] + b;
      EncodeConcat(a[1..], b);
    }
  }

  /** What a variable in a path can match: plain bytes and `%`. */
  lemma SafeByCode(b: byte)
    ensures IsExpansionSafe(b) <==> IsPlainCode(b) || b == 0x25
  {
  }

  /** The value of a hex digit of either case. */
  function HexCode(b: byte): Option<nat> {
    if 0x30 <= b <= 0x39 then Some(b - 0x30)
    else if 0x41 <= b <= 0x46 then Some(b - 0x41 + 10)
    else if 0x61 <= b <= 0x66 then Some(b - 0x61 + 10)
    else None
  }

  /** What an escape stands for: two hex digits of either case, or a plus sign and one; any
      other escape, and a `%` with fewer than two bytes after it, is an error. */
  lemma EscapeByCode(hi: byte, lo: byte)
    ensures Unescape([0x25, hi, lo]) ==
            if HexCode(lo).None? || (HexCode(hi).None? && hi != 0x2B) then None
            else if hi == 0x2B then Some([HexCode(lo).value])
            else Some([16 * HexCode(hi).value + HexCode(lo).value])
    ensures Unescape([0x25]) == None && Unescape([0x25, hi]) == None
  {
    var s: Bytes := [0x25, hi, lo];
    assert s[3..] == [] && Unescape([]) == Some([]);
    assert HexByte(hi, lo).Some? ==> [HexByte(hi, lo).value] + [] == [HexByte(hi, lo).value];
  }

  lemma {:induction false} UnescapeVerbatim(s: Bytes)
    requires Lacks(s, PERCENT)
    ensures Unescape(s) == Some(s)
  {
    if s != [] {
      UnescapeVerbatim(s[1..]);
      assert s == [s[0]] + s[1..];
    }
  }

  // ---------------------------------------------------------------------------
  // Parsing
  // ---------------------------------------------------------------------------

  datatype Error =
    | NotAbsolute
    | EmptyComponent
    | IllegalCharacter
    | UnsupportedOperator(operator: byte)
    | UnsupportedModifier(modifier: byte)
    | UnterminatedExpression
    | EmptyExpression
    | VariableOutsidePathOrQuery
    | DuplicateVariable(name: Bytes)
    | QueryExpressionMustBeLast
    | UndefinedVariable(name: Bytes)
    | EmptyValue(name: Bytes)

  /** `+ # . / ; = , ! @ |` */
  predicate IsForbiddenOperator(b: byte) {
    b in {43, 35, 46, 47, 59, 61, 44, 33, 64, 124}
  }

  /** `*` and `:`, the level 4 modifiers. */
  predicate IsModifier(b: byte) {
    b == 42 || b == 58
  }

  /** The first modifier of a name, if it has one. */
  function FirstModifier(name: Bytes): (m: Option<byte>)
    ensures m.Some? ==> IsModifier(m.value)
  {
    if name == [] then None else if IsModifier(name[0]) then Some(name[0]) else FirstModifier(name[1..])
  }

  function CheckNames(names: seq<Bytes>): (e: Option<Error>)
    ensures e.None? <==> forall i :: 0 <= i < |names| ==> names[i] != [] && FirstModifier(names[i]).None?
  {
    if names == [] then None
    else if names[0] == [] then Some(EmptyExpression)
    else if FirstModifier(names[0]).Some? then Some(UnsupportedModifier(FirstModifier(names[0]).value))
    else CheckNames(names[1..])
  }

  function ParseExpression(expression: Bytes): Result<Part, Error> {
    if expression == [] then Err(EmptyExpression)
    else
      var first := expression[0];
      if IsForbiddenOperator(first) then Err(UnsupportedOperator(first))
      else
        var isQuery := first == QUESTION || first == AMPERSAND;
        var names := Split(if isQuery then expression[1..] else expression, COMMA);
        var bad := CheckNames(names);
        if bad.Some? then Err(bad.value)
        else if first == QUESTION then Ok(Query(names))
        else if first == AMPERSAND then Ok(QueryContinuation(names))
        else if |names| != 1 then Err(UnsupportedOperator(COMMA))
        else Ok(Simple(names[0]))
  }

  function LiteralPart(text: Bytes): seq<Part> {
    if text == [] then [] else [Literal(text)]
  }

  /** Literals and expressions, left to right. */
  function Scan(rest: Bytes): Result<seq<Part>, Error>
    decreases |rest|
  {
    var open := Find(rest, OPEN);
    if open == |rest| then Ok(LiteralPart(rest))
    else
      var after := rest[open + 1..];
      var close := Find(after, CLOSE);
      if close == |after| then Err(UnterminatedExpression)
      else
        var part := ParseExpression(after[..close]);
        if part.Err? then Err(part.error)
        else
          Behind(LiteralPart(rest[..open]) + [part.value], Scan(after[close + 1..]))
  }

  /** A query expression can only be the last part. */
  predicate QueryOnlyLast(parts: seq<Part>) {
    forall i :: 0 <= i < |parts| - 1 ==> !IsQuery(parts[i])
  }

  function ParseParts(input: Bytes): Result<seq<Part>, Error> {
    var parts := Scan(input);
    if parts.Err? then parts
    else if !QueryOnlyLast(parts.value) then Err(QueryExpressionMustBeLast)
    else parts
  }

  /** The same outcome with `parts` in front. */
  function Behind(parts: seq<Part>, r: Result<seq<Part>, Error>): Result<seq<Part>, Error> {
    if r.Err? then r else Ok(parts + r.value)
  }

  lemma ScanUnrolls(rest: Bytes, open: nat)
    requires open == Find(rest, OPEN) < |rest|
    ensures var after := rest[open + 1..];
            var close := Find(after, CLOSE);
            Scan(rest) ==
            if close == |after| then Err(UnterminatedExpression)
            else
              var part := ParseExpression(after[..close]);
              if part.Err? then Err(part.error)
              else Behind(LiteralPart(rest[..open]) + [part.value], Scan(after[close + 1..]))
  {
    hide ParseExpression, LiteralPart, Behind, Find;
  }

  lemma ScanEnds(rest: Bytes)
    requires Find(rest, OPEN) == |rest|
    ensures Scan(rest) == Ok(LiteralPart(rest))
  {
  }

  lemma BehindBehind(a: seq<Part>, b: seq<Part>, r: Result<seq<Part>, Error>)
    ensures Behind(a, Behind(b, r)) == Behind(a + b, r)
  {
    assert r.Ok? ==> a + (b + r.value) == (a + b) + r.value;
  }

  method CheckQueryOnlyLast(parts: seq<Part>) returns (ok: bool)
    ensures ok == QueryOnlyLast(parts)
  {
    var i := 0;
    while i < |parts|
      invariant i <= |parts| && forall k :: 0 <= k < i && k < |parts| - 1 ==> !IsQuery(parts[k])
    {
      if IsQuery(parts[i]) {
        return i + 1 == |parts|;
      }
      i := i + 1;
    }
    return true;
  }

  /** The scanning loop. */
  method ParsePartsLoop(input: Bytes) returns (r: Result<seq<Part>, Error>)
    ensures r == ParseParts(input)
  {
    hide ParseExpression, LiteralPart, QueryOnlyLast, Scan;
    var parts := [];
    var rest := input;
    var open := Find(rest, OPEN);
    assert Scan(input).Ok? ==> [] + Scan(input).value == Scan(input).value;
    while open < |rest|
      invariant open == Find(rest, OPEN)
      invariant Scan(input) == Behind(parts, Scan(rest))
      decreases |rest|
    {
      ScanUnrolls(rest, open);
      var after := rest[open + 1..];
      var close := Find(after, CLOSE);
      if close == |after| {
        return Err(UnterminatedExpression);
      }
      var part := ParseExpression(after[..close]);
      if part.Err? {
        return Err(part.error);
      }
      var found := LiteralPart(rest[..open]) + [part.value];
      BehindBehind(parts, found, Scan(after[close + 1..]));
      parts := parts + found;
      rest := after[close + 1..];
      open := Find(rest, OPEN);
    }
    ScanEnds(rest);
    parts := parts + LiteralPart(rest);
    var ok := CheckQueryOnlyLast(parts);
    if !ok {
      return Err(QueryExpressionMustBeLast);
    }
    return Ok(parts);
  }

  datatype UriTemplate = UriTemplate(scheme: Bytes, authority: Bytes, parts: seq<Part>, raw: Bytes)

  /** The first name that occurs twice, in the order the parser meets it. */
  function FirstDuplicate(seen: seq<Bytes>, names: seq<Bytes>): (d: Option<Bytes>)
    requires Distinct(seen)
    ensures d.None? <==> Distinct(seen + names)
    decreases |names|
  {
    if names == [] then
      assert seen + names == seen;
      None
    else if names[0] in seen then
      var i :| 0 <= i < |seen| && seen[i] == names[0];
      assert (seen + names)[i] == (seen + names)[|seen|];
      Some(names[0])
    else
      assert seen + names == (seen + [names[0]]) + names[1..];
      FirstDuplicate(seen + [names[0]], names[1..])
  }

  lemma SliceOfTail(s: Bytes, i: nat, j: nat)
    requires s != [] && i <= j < |s|
    ensures s[1..][i..j] == s[i + 1..j + 1]
  {
  }

  /** The index of `://`, or the length if it does not occur. */
  function FindScheme(s: Bytes): (i: nat)
    ensures i <= |s|
    ensures i < |s| ==> i + 3 <= |s| && s[i..i + 3] == [58, 47, 47]
  {
    if |s| < 3 then |s|
    else if s[..3] == [58, 47, 47] then 0
    else
      var i := FindScheme(s[1..]);
      if i < |s[1..]| then
        SliceOfTail(s, i, i + 3);
        i + 1
      else i + 1
  }

  function Parse(template: Bytes): Result<UriTemplate, Error> {
    if exists i :: 0 <= i < |template| && !(0x21 <= template[i] <= 0x7E) then Err(IllegalCharacter)
    else
      var colon := FindScheme(template);
      if colon == |template| then Err(NotAbsolute)
      else if colon == 0 then Err(EmptyComponent)
      else
        var scheme, rest := template[..colon], template[colon + 3..];
        var slash := Find(rest, SLASH);
        if slash == |rest| || slash == 0 then Err(EmptyComponent)
        else if !Lacks(scheme, OPEN) || !Lacks(rest[..slash], OPEN) then Err(VariableOutsidePathOrQuery)
        else
          var parts := ParseParts(rest[slash..]);
          if parts.Err? then Err(parts.error)
          else
            var duplicate := FirstDuplicate([], Variables(parts.value));
            if duplicate.Some? then Err(DuplicateVariable(duplicate.value))
            else Ok(UriTemplate(scheme, rest[..slash], parts.value, template))
  }

  /** What every parsed template's parts satisfy. */
  ghost predicate WellFormed(parts: seq<Part>) {
    && QueryOnlyLast(parts)
    && Distinct(Variables(parts))
    && AllWellFormed(parts)
  }

  /** No empty literal, no empty variable list, no empty name. */
  ghost predicate WellFormedPart(p: Part) {
    && (p.Literal? ==> p.text != [] && Lacks(p.text, OPEN))
    && (!p.Literal? ==> VariablesOf(p) != [])
    && (forall i :: 0 <= i < |VariablesOf(p)| ==> VariablesOf(p)[i] != [] && Lacks(VariablesOf(p)[i], COMMA))
  }

  function RenderPart(p: Part): Bytes {
    match p
    case Literal(text) => text
    case Simple(name) => [OPEN] + name + [CLOSE]
    case Query(names) => [OPEN, QUESTION] + Join(names, COMMA) + [CLOSE]
    case QueryContinuation(names) => [OPEN, AMPERSAND] + Join(names, COMMA) + [CLOSE]
  }

  /** The template's own syntax. */
  function Render(parts: seq<Part>): Bytes {
    if parts == [] then [] else RenderPart(parts[0]) + Render(parts[1..])
  }

  lemma {:induction false} RenderConcat(a: seq<Part>, b: seq<Part>)
    ensures Render(a + b) == Render(a) + Render(b)
  {
    hide RenderPart;
    if a == [] {
      assert a + b == b;
    } else {
      RenderConcat(a[1..], b);
      assert (a + b)[1..] == a[1..] + b && (a + b)[0] == a[0];
      assert RenderPart(a[0]) + (Render(a[1..]) + Render(b)) == (RenderPart(a[0]) + Render(a[1..])) + Render(b);
    }
  }

  lemma {:induction false} VariablesConcat(a: seq<Part>, b: seq<Part>)
    ensures Variables(a + b) == Variables(a) + Variables(b)
  {
    hide VariablesOf;
    if a == [] {
      assert a + b == b;
    } else {
      VariablesConcat(a[1..], b);
      assert (a + b)[1..] == a[1..] + b && (a + b)[0] == a[0];
      var v := VariablesOf(a[0]);
      assert v + (Variables(a[1..]) + Variables(b)) == (v + Variables(a[1..])) + Variables(b);
    }
  }

  lemma ExpressionParsesFaithfully(expression: Bytes)
    requires ParseExpression(expression).Ok?
    ensures RenderPart(ParseExpression(expression).value) == [OPEN] + expression + [CLOSE]
    ensures WellFormedPart(ParseExpression(expression).value)
  {
    hide Split, Join, CheckNames, FirstModifier, Lacks;
    var first := expression[0];
    var body := if first == QUESTION || first == AMPERSAND then expression[1..] else expression;
    JoinSplit(body, COMMA);
    SplitPiecesLackSeparator(body, COMMA);
    assert expression == [first] + expression[1..];
    var p := ParseExpression(expression).value;
    if p.Simple? {
      JoinOfOne(p.name, COMMA);
      assert Split(body, COMMA) == [p.name];
    } else {
      assert [OPEN] + ([first] + body) + [CLOSE] == [OPEN, first] + body + [CLOSE];
    }
  }

  lemma JoinOfOne(s: Bytes, sep: byte)
    ensures Join([s], sep) == s
  {
  }

  ghost predicate AllWellFormed(parts: seq<Part>) {
    forall i :: 0 <= i < |parts| ==> WellFormedPart(parts[i])
  }

  lemma LiteralIsFaithful(text: Bytes)
    requires Lacks(text, OPEN)
    ensures Render(LiteralPart(text)) == text && AllWellFormed(LiteralPart(text))
  {
    var one := [Literal(text)];
    assert one[1..] == [];
  }

  /** One expression between a literal and the rest of the input. */
  lemma ScanStep(literal: Bytes, part: Part, tail: seq<Part>)
    requires Lacks(literal, OPEN) && WellFormedPart(part) && AllWellFormed(tail)
    ensures AllWellFormed(LiteralPart(literal) + [part] + tail)
    ensures Render(LiteralPart(literal) + [part] + tail) == literal + RenderPart(part) + Render(tail)
  {
    hide WellFormedPart, RenderPart, LiteralPart;
    LiteralIsFaithful(literal);
    var one := [part];
    RenderConcat(LiteralPart(literal), one);
    RenderConcat(LiteralPart(literal) + one, tail);
    assert one[1..] == [];
  }

  lemma ExpressionSplits(rest: Bytes, open: nat, close: nat)
    requires open < |rest| && rest[open] == OPEN
    requires var after := rest[open + 1..]; close < |after| && after[close] == CLOSE
    ensures var after := rest[open + 1..];
            rest == rest[..open] + ([OPEN] + after[..close] + [CLOSE]) + after[close + 1..]
  {
    var after := rest[open + 1..];
    assert after == after[..close] + [CLOSE] + after[close + 1..];
    assert rest == rest[..open] + ([OPEN] + after);
  }

  lemma {:induction false} ScanIsFaithful(rest: Bytes)
    requires Scan(rest).Ok?
    ensures Render(Scan(rest).value) == rest && AllWellFormed(Scan(rest).value)
    decreases |rest|
  {
    hide ParseExpression, RenderPart, WellFormedPart, LiteralPart, Scan, Render, Find;
    var open := Find(rest, OPEN);
    if open == |rest| {
      ScanEnds(rest);
      LiteralIsFaithful(rest);
    } else {
      ScanUnrolls(rest, open);
      var after := rest[open + 1..];
      var close := Find(after, CLOSE);
      var part := ParseExpression(after[..close]).value;
      ScanIsFaithful(after[close + 1..]);
      ExpressionParsesFaithfully(after[..close]);
      ScanStep(rest[..open], part, Scan(after[close + 1..]).value);
      ExpressionSplits(rest, open, close);
    }
  }

  lemma SchemeSplits(template: Bytes)
    requires FindScheme(template) < |template|
    ensures var colon := FindScheme(template);
            template == template[..colon] + [58, 47, 47] + template[colon + 3..]
  {
    hide FindScheme;
    var colon := FindScheme(template);
    CutTwice(template, colon, colon + 3);
  }

  /** Parsing loses nothing: writing the parsed template out gives the input back, and
      what was accepted meets every structural rule. */
  lemma ParseIsFaithful(template: Bytes)
    requires Parse(template).Ok?
    ensures var t := Parse(template).value;
            && WellFormed(t.parts)
            && t.scheme + [58, 47, 47] + t.authority + Render(t.parts) == template
  {
    hide FindScheme, Find, Scan, Render, Variables, FirstDuplicate, WellFormedPart, Lacks;
    var t := Parse(template).value;
    var colon := FindScheme(template);
    SchemeSplits(template);
    var rest := template[colon + 3..];
    var slash := Find(rest, SLASH);
    ScanIsFaithful(rest[slash..]);
    assert [] + Variables(t.parts) == Variables(t.parts);
    assert rest == rest[..slash] + rest[slash..];
    Associative(template[..colon] + [58, 47, 47], rest[..slash], rest[slash..]);
  }
}
