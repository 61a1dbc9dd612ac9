/**
 The template grammar from the other side: every template that can be written parses to
 just what was written. Characters are given by ASCII code.
 */
module TemplateSyntax {
  import opened Common
  import opened Text
  import opened Template

  // ---------------------------------------------------------------------------
  // Expressions
  // ---------------------------------------------------------------------------

  /** Not empty, and no comma, closing brace, star or colon. */
  predicate IsName(n: Bytes) {
    n != [] && forall i :: 0 <= i < |n| ==> n[i] != 0x2C && n[i] != 0x7D && n[i] != 0x2A && n[i] != 0x3A
  }

  /** `+ # . / ; = , ! @ |`, the operators a template must not use. */
  predicate IsRefused(b: byte) {
    || b == 0x2B || b == 0x23 || b == 0x2E || b == 0x2F || b == 0x3B
    || b == 0x3D || b == 0x2C || b == 0x21 || b == 0x40 || b == 0x7C
  }

  /** What stands between the braces. */
  function Inner(p: Part): Bytes
    requires !p.Literal?
  {
    match p
    case Simple(name) => name
    case Query(names) => [0x3F] + Join(names, 0x2C)
    case QueryContinuation(names) => [0x26] + Join(names, 0x2C)
  }

  function Spelled(p: Part): Bytes {
    if p.Literal? then p.text else [0x7B] + Inner(p) + [0x7D]
  }

  function SpelledAll(parts: seq<Part>): Bytes {
    if parts == [] then [] else Spelled(parts[0]) + SpelledAll(parts[1..])
  }

  /** A literal is not empty and has no opening brace; a variable does not start with an
      operator; a query names at least one variable. */
  ghost predicate IsWritable(p: Part) {
    match p
    case Literal(text) => text != [] && forall i :: 0 <= i < |text| ==> text[i] != 0x7B
    case Simple(name) => IsName(name) && !IsRefused(name[0]) && name[0] != 0x3F && name[0] != 0x26
    case Query(names) => names != [] && forall i :: 0 <= i < |names| ==> IsName(names[i])
    case QueryContinuation(names) => names != [] && forall i :: 0 <= i < |names| ==> IsName(names[i])
  }

  lemma {:induction false} NoModifier(n: Bytes)
    ensures FirstModifier(n).None? <==> forall i :: 0 <= i < |n| ==> n[i] != 0x2A && n[i] != 0x3A
  {
    if n != [] {
      NoModifier(n[1..]);
      assert n == [n[0]] + n[1..];
    }
  }

  lemma NamesPass(names: seq<Bytes>)
    requires forall i :: 0 <= i < |names| ==> IsName(names[i])
    ensures CheckNames(names).None?
  {
    forall i | 0 <= i < |names|
      ensures names[i] != [] && FirstModifier(names[i]).None?
    {
      NoModifier(names[i]);
    }
  }

  lemma NamesSplit(names: seq<Bytes>)
    requires names != [] && forall i :: 0 <= i < |names| ==> IsName(names[i])
    ensures Split(Join(names, 0x2C), 0x2C) == names
  {
    hide Split, Join;
    forall i | 0 <= i < |names| ensures Lacks(names[i], 0x2C) {
      assert IsName(names[i]);
    }
    SplitJoin(names, 0x2C);
  }

  /** Every expression that can be written parses to itself. */
  lemma ExpressionParses(p: Part)
    requires !p.Literal? && IsWritable(p)
    ensures ParseExpression(Inner(p)) == Ok(p)
  {
    hide Split, Join, CheckNames, IsName;
    var names := VariablesOf(p);
    NamesPass(names);
    NamesSplit(names);
    if p.Simple? {
      OneName(p.name);
      NameStarts(p.name);
    } else {
      assert Inner(p)[1..] == Join(names, 0x2C);
    }
  }

  lemma OneName(n: Bytes)
    ensures Join([n], 0x2C) == n
  {
  }

  lemma NameStarts(n: Bytes)
    requires IsName(n)
    ensures n != []
  {
  }

  /** What is refused between the braces, and why. */
  lemma RefusedExpressions(first: byte, rest: Bytes, a: Bytes, b: Bytes)
    requires IsName(a) && IsName(b)
    ensures ParseExpression([]) == Err(EmptyExpression)
    ensures ParseExpression([0x3F]) == Err(EmptyExpression) && ParseExpression([0x26]) == Err(EmptyExpression)
    ensures IsRefused(first) ==> ParseExpression([first] + rest) == Err(UnsupportedOperator(first))
    ensures !IsRefused(a[0]) && a[0] != 0x3F && a[0] != 0x26 ==>
              ParseExpression(a + [0x2C] + b) == Err(UnsupportedOperator(0x2C))
  {
    hide Split, Join, CheckNames;
    EmptyNameIsRefused();
    assert [0x3F][1..] == [] && [0x26][1..] == [];
    var two := [a, b];
    NamesPass(two);
    NamesSplit(two);
    assert Join(two, 0x2C) == a + [0x2C] + b by { TwoJoined(a, b); }
    assert (a + [0x2C] + b)[0] == a[0];
  }

  lemma EmptyNameIsRefused()
    ensures Split([], 0x2C) == [[]] && CheckNames([[]]) == Some(EmptyExpression)
  {
  }

  lemma TwoJoined(a: Bytes, b: Bytes)
    ensures Join([a, b], 0x2C) == a + [0x2C] + b
  {
    assert [a, b][1..] == [b];
  }

  /** A star or a colon in a name, the first of them named. */
  lemma ModifierIsRefused(name: Bytes, rest: Bytes, modifier: byte)
    requires modifier == 0x2A || modifier == 0x3A
    requires IsName(name) && forall i :: 0 <= i < |rest| ==> rest[i] != 0x2C
    ensures ParseExpression([0x3F] + (name + [modifier] + rest)) == Err(UnsupportedModifier(modifier))
  {
    hide Split, FirstModifier;
    var whole := name + [modifier] + rest;
    assert forall i :: 0 <= i < |whole| ==>
        whole[i] == if i < |name| then name[i] else if i == |name| then modifier else rest[i - |name| - 1];
    assert Lacks(whole, 0x2C);
    OnePiece(whole);
    FirstOf(name, modifier, rest);
    assert ([0x3F] + whole)[1..] == whole;
  }

  lemma OnePiece(s: Bytes)
    requires Lacks(s, 0x2C)
    ensures Split(s, 0x2C) == [s]
  {
    FindIs(s, 0x2C, |s|);
  }

  lemma {:induction false} FirstOf(name: Bytes, modifier: byte, rest: Bytes)
    requires modifier == 0x2A || modifier == 0x3A
    requires forall i :: 0 <= i < |name| ==> name[i] != 0x2A && name[i] != 0x3A
    ensures FirstModifier(name + [modifier] + rest) == Some(modifier)
  {
    var s := name + [modifier] + rest;
    if name != [] {
      assert s[1..] == name[1..] + [modifier] + rest;
      FirstOf(name[1..], modifier, rest);
    }
  }

  // ---------------------------------------------------------------------------
  // Parts
  // ---------------------------------------------------------------------------

  ghost predicate AllWritable(parts: seq<Part>) {
    && (forall i :: 0 <= i < |parts| ==> IsWritable(parts[i]))
    && (forall i :: 0 <= i < |parts| - 1 ==> !(parts[i].Literal? && parts[i + 1].Literal?))
  }

  lemma InnerHasNoBrace(p: Part)
    requires !p.Literal? && IsWritable(p)
    ensures Lacks(Inner(p), 0x7D)
  {
    if p.Simple? {
      assert IsName(p.name);
    } else {
      JoinLacks(p.names);
    }
  }

  lemma {:induction false} JoinLacks(names: seq<Bytes>)
    requires forall i :: 0 <= i < |names| ==> IsName(names[i])
    ensures Lacks(Join(names, 0x2C), 0x7D)
  {
    if names != [] {
      assert IsName(names[0]);
      JoinLacks(names[1..]);
    }
  }

  /** A literal, perhaps empty, and an expression in front of more text. */
  lemma ScanOfExpression(text: Bytes, p: Part, rest: Bytes)
    requires !p.Literal? && IsWritable(p) && Lacks(text, 0x7B)
    ensures Scan(text + ([0x7B] + Inner(p) + [0x7D]) + rest) == Behind(LiteralPart(text) + [p], Scan(rest))
  {
    hide Scan, ParseExpression, Behind, LiteralPart, Inner, IsWritable;
    var inner := Inner(p);
    var all := text + ([0x7B] + inner + [0x7D]) + rest;
    InnerHasNoBrace(p);
    ExpressionParses(p);
    assert forall k :: 0 <= k < |text| ==> all[k] == text[k];
    assert all[|text|] == 0x7B;
    FindIs(all, 0x7B, |text|);
    var after := all[|text| + 1..];
    assert after == inner + ([0x7D] + rest);
    assert forall k :: 0 <= k < |inner| ==> after[k] == inner[k];
    FindIs(after, 0x7D, |inner|);
    Cut(inner, [0x7D] + rest);
    assert after[|inner| + 1..] == rest;
    assert all[..|text|] == text;
    ScanUnrolls(all, |text|);
  }

  /** Writing parts out and scanning them gives the parts back. */
  lemma {:induction false} ScanOfSpelled(parts: seq<Part>)
    requires AllWritable(parts)
    ensures Scan(SpelledAll(parts)) == Ok(parts)
    decreases |parts|
  {
    hide Scan, IsWritable, Inner;
    if parts == [] {
      ScanOfNothing();
    } else if parts[0].Literal? && |parts| == 1 {
      LastLiteral(parts);
    } else if parts[0].Literal? {
      ScanOfSpelled(parts[2..]);
      LiteralThenExpression(parts);
    } else {
      var p, rest := parts[0], parts[1..];
      ScanOfSpelled(rest);
      NoLiteral();
      ScanOfExpression([], p, SpelledAll(rest));
      assert [] + Spelled(p) + SpelledAll(rest) == SpelledAll(parts);
      assert LiteralPart([]) + [p] + rest == parts;
    }
  }

  lemma LastLiteral(parts: seq<Part>)
    requires |parts| == 1 && parts[0].Literal? && IsWritable(parts[0])
    ensures Scan(SpelledAll(parts)) == Ok(parts)
  {
    hide Scan, IsWritable;
    var text := parts[0].text;
    LiteralHasNoBrace(parts[0]);
    assert parts[1..] == [] && text + [] == text;
    FindIs(text, 0x7B, |text|);
    ScanEnds(text);
    assert parts == [Literal(text)];
  }

  lemma LiteralThenExpression(parts: seq<Part>)
    requires |parts| >= 2 && parts[0].Literal? && !parts[1].Literal? && IsWritable(parts[0]) && IsWritable(parts[1])
    requires Scan(SpelledAll(parts[2..])) == Ok(parts[2..])
    ensures Scan(SpelledAll(parts)) == Ok(parts)
  {
    hide Scan, IsWritable, Inner;
    var text, p, rest := parts[0].text, parts[1], parts[2..];
    LiteralHasNoBrace(parts[0]);
    assert parts[1..][1..] == rest && parts[1..][0] == p;
    ScanOfExpression(text, p, SpelledAll(rest));
    Associative(text, Spelled(p), SpelledAll(rest));
    assert LiteralPart(text) + [p] + rest == parts;
  }

  lemma NoLiteral()
    ensures LiteralPart([]) == []
  {
  }

  lemma ScanOfNothing()
    ensures Scan([]) == Ok([])
  {
  }

  lemma LiteralHasNoBrace(p: Part)
    requires p.Literal? && IsWritable(p)
    ensures p.text != [] && Lacks(p.text, 0x7B)
  {
  }

  // ---------------------------------------------------------------------------
  // Templates
  // ---------------------------------------------------------------------------

  /** Bytes from `!` to `~`. */
  predicate IsVisible(s: Bytes) {
    forall i :: 0 <= i < |s| ==> 0x21 <= s[i] <= 0x7E
  }

  /** `scheme://authority` and the path, written out. */
  function TemplateText(scheme: Bytes, authority: Bytes, parts: seq<Part>): Bytes {
    scheme + ([0x3A, 0x2F, 0x2F] + (authority + SpelledAll(parts)))
  }

  lemma {:induction false} SchemeIsFound(scheme: Bytes, rest: Bytes)
    requires Lacks(scheme, 0x3A)
    ensures FindScheme(scheme + ([0x3A, 0x2F, 0x2F] + rest)) == |scheme|
  {
    var s := scheme + ([0x3A, 0x2F, 0x2F] + rest);
    if scheme == [] {
      assert s == [0x3A, 0x2F, 0x2F] + rest && s[..3] == [0x3A, 0x2F, 0x2F];
    } else {
      assert s[..3][0] == scheme[0];
      assert s[1..] == scheme[1..] + ([0x3A, 0x2F, 0x2F] + rest);
      SchemeIsFound(scheme[1..], rest);
    }
  }

  /** Where the parser cuts: at `://`, and at the first slash behind it. */
  lemma Dissects(scheme: Bytes, authority: Bytes, path: Bytes)
    requires Lacks(scheme, 0x3A) && Lacks(authority, 0x2F) && path != [] && path[0] == 0x2F
    ensures var text, rest := scheme + ([0x3A, 0x2F, 0x2F] + (authority + path)), authority + path;
            && FindScheme(text) == |scheme| && text[..|scheme|] == scheme && text[|scheme| + 3..] == rest
            && Find(rest, 0x2F) == |authority| && rest[..|authority|] == authority && rest[|authority|..] == path
  {
    hide FindScheme, Find;
    var rest := authority + path;
    var text := scheme + ([0x3A, 0x2F, 0x2F] + rest);
    SchemeIsFound(scheme, rest);
    Cut(scheme, [0x3A, 0x2F, 0x2F] + rest);
    assert text[|scheme| + 3..] == rest;
    assert forall k :: 0 <= k < |authority| ==> rest[k] == authority[k];
    FindIs(rest, 0x2F, |authority|);
    Cut(authority, path);
  }

  /** Every template that is written well parses to what was written. */
  lemma WrittenTemplateParses(scheme: Bytes, authority: Bytes, parts: seq<Part>)
    requires IsVisible(TemplateText(scheme, authority, parts))
    requires scheme != [] && Lacks(scheme, 0x3A) && Lacks(scheme, 0x7B)
    requires authority != [] && Lacks(authority, 0x2F) && Lacks(authority, 0x7B)
    requires AllWritable(parts) && parts != [] && parts[0].Literal? && parts[0].text[0] == 0x2F
    requires QueryOnlyLast(parts) && Distinct(Variables(parts))
    ensures var text := TemplateText(scheme, authority, parts);
            Parse(text) == Ok(UriTemplate(scheme, authority, parts, text))
  {
    hide Scan, FindScheme, Find, Spelled, SpelledAll, AllWritable, Distinct, QueryOnlyLast, Variables, FirstDuplicate;
    var text, path := TemplateText(scheme, authority, parts), SpelledAll(parts);
    PathStarts(parts);
    Dissects(scheme, authority, path);
    ScanOfSpelled(parts);
    assert [] + Variables(parts) == Variables(parts);
  }

  lemma PathStarts(parts: seq<Part>)
    requires AllWritable(parts) && parts != [] && parts[0].Literal? && parts[0].text[0] == 0x2F
    ensures SpelledAll(parts) != [] && SpelledAll(parts)[0] == 0x2F
  {
    assert IsWritable(parts[0]);
  }

  /** What keeps a text from being a template: a byte that is not visible, no `://`, nothing
      before it, no path, no authority, or a brace before the path. */
  lemma RefusedTemplates(text: Bytes, scheme: Bytes, authority: Bytes, path: Bytes)
    requires Lacks(scheme, 0x3A) && Lacks(authority, 0x2F)
    ensures !IsVisible(text) <==> Parse(text) == Err(IllegalCharacter)
    ensures IsVisible(text) && Lacks(text, 0x3A) ==> Parse(text) == Err(NotAbsolute)
    ensures var whole := scheme + ([0x3A, 0x2F, 0x2F] + (authority + path));
            IsVisible(whole) ==>
              && (scheme == [] ==> Parse(whole) == Err(EmptyComponent))
              && (scheme != [] && path == [] ==> Parse(whole) == Err(EmptyComponent))
              && (scheme != [] && path != [] && path[0] == 0x2F ==>
                    if authority == [] then Parse(whole) == Err(EmptyComponent)
                    else
                      !Lacks(scheme, 0x7B) || !Lacks(authority, 0x7B) ==>
                        Parse(whole) == Err(VariableOutsidePathOrQuery))
  {
    hide Scan, FindScheme, Find, ParseParts, FirstDuplicate, Variables;
    if IsVisible(text) {
      NotIllegal(text);
      if Lacks(text, 0x3A) {
        NoScheme(text);
      }
    }
    var rest := authority + path;
    var whole := scheme + ([0x3A, 0x2F, 0x2F] + rest);
    SchemeIsFound(scheme, rest);
    Cut(scheme, [0x3A, 0x2F, 0x2F] + rest);
    assert whole[|scheme| + 3..] == rest;
    assert forall k :: 0 <= k < |authority| ==> rest[k] == authority[k];
    if path == [] {
      assert rest == authority;
      FindIs(rest, 0x2F, |rest|);
    } else if path[0] == 0x2F {
      FindIs(rest, 0x2F, |authority|);
      Cut(authority, path);
    }
  }

  lemma NotIllegal(text: Bytes)
    requires IsVisible(text)
    ensures Parse(text) != Err(IllegalCharacter)
  {
    hide Scan, FindScheme, Find, FirstDuplicate, Variables;
    var rest := if FindScheme(text) < |text| then text[FindScheme(text) + 3..] else [];
    ScanIsNotIllegal(if Find(rest, SLASH) <= |rest| then rest[Find(rest, SLASH)..] else []);
  }

  lemma {:induction false} ScanIsNotIllegal(rest: Bytes)
    ensures Scan(rest) != Err(IllegalCharacter)
    decreases |rest|
  {
    hide Scan, Find;
    var open := Find(rest, OPEN);
    if open == |rest| {
      ScanEnds(rest);
    } else {
      ScanUnrolls(rest, open);
      var after := rest[open + 1..];
      var close := Find(after, CLOSE);
      if close < |after| {
        ScanIsNotIllegal(after[close + 1..]);
        ExpressionIsNotIllegal(after[..close]);
      }
    }
  }

  lemma ExpressionIsNotIllegal(e: Bytes)
    ensures ParseExpression(e) != Err(IllegalCharacter)
  {
    hide Split;
    NamesAreNotIllegal(Split(if e != [] && (e[0] == QUESTION || e[0] == AMPERSAND) then e[1..] else e, COMMA));
  }

  lemma {:induction false} NamesAreNotIllegal(names: seq<Bytes>)
    ensures CheckNames(names) != Some(IllegalCharacter)
  {
    if names != [] {
      NamesAreNotIllegal(names[1..]);
    }
  }

  lemma {:induction false} NoScheme(text: Bytes)
    requires Lacks(text, 0x3A)
    ensures FindScheme(text) == |text|
  {
    if |text| >= 3 {
      assert text[..3][0] == text[0] != 0x3A;
      NoScheme(text[1..]);
    }
  }

  /** A variable used twice and a query that is not last are refused. */
  lemma RefusedParts(scheme: Bytes, authority: Bytes, parts: seq<Part>)
    requires IsVisible(TemplateText(scheme, authority, parts))
    requires scheme != [] && Lacks(scheme, 0x3A) && Lacks(scheme, 0x7B)
    requires authority != [] && Lacks(authority, 0x2F) && Lacks(authority, 0x7B)
    requires AllWritable(parts) && parts != [] && parts[0].Literal? && parts[0].text[0] == 0x2F
    ensures var r := Parse(TemplateText(scheme, authority, parts));
            && (!QueryOnlyLast(parts) ==> r == Err(QueryExpressionMustBeLast))
            && (QueryOnlyLast(parts) && !Distinct(Variables(parts)) ==> r.Err? && r.error.DuplicateVariable?)
  {
    hide Scan, FindScheme, Find, Spelled, SpelledAll, AllWritable, Distinct, QueryOnlyLast, Variables, FirstDuplicate;
    var text, path := TemplateText(scheme, authority, parts), SpelledAll(parts);
    PathStarts(parts);
    Dissects(scheme, authority, path);
    ScanOfSpelled(parts);
    assert [] + Variables(parts) == Variables(parts);
  }
}
