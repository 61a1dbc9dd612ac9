/**
 Expanding a template and recovering the values from a path.

 The matcher is a backtracking search. Its specification is a split: a way to cut the
 path into one piece per part, each piece fitting its part.
 */
module TemplateMatch {
  import opened Common
  import opened Text
  import opened Template

  // ---------------------------------------------------------------------------
  // Expansion
  // ---------------------------------------------------------------------------

  function Lookup(values: Values, name: Bytes): Result<Bytes, Error> {
    if name !in values then Err(UndefinedVariable(name))
    else if values[name] == [] then Err(EmptyValue(name))
    else Ok(values[name])
  }

  function Concat(out: Bytes, r: Result<Bytes, Error>): Result<Bytes, Error> {
    if r.Err? then r else Ok(out + r.value)
  }

  function ExpandNames(values: Values, names: seq<Bytes>, separator: byte): Result<Bytes, Error>
    decreases |names|
  {
    if names == [] then Ok([])
    else
      var value := Lookup(values, names[0]);
      if value.Err? then value
      else
        Concat([separator] + names[0] + [EQUALS] + PctEncode(value.value),
               ExpandNames(values, names[1..], AMPERSAND))
  }

  function ExpandPart(values: Values, p: Part): Result<Bytes, Error> {
    match p
    case Literal(text) => Ok(text)
    case Simple(name) =>
      var value := Lookup(values, name);
      if value.Err? then value else Ok(PctEncode(value.value))
    case Query(names) => ExpandNames(values, names, QUESTION)
    case QueryContinuation(names) => ExpandNames(values, names, AMPERSAND)
  }

  function ExpandPath(values: Values, parts: seq<Part>): Result<Bytes, Error> {
    if parts == [] then Ok([])
    else
      var first := ExpandPart(values, parts[0]);
      if first.Err? then first else Concat(first.value, ExpandPath(values, parts[1..]))
  }

  /** The text of each kind of part, by ASCII code: `?a=v&b=w`, `&a=v&b=w`, an encoded value,
      the literal itself. */
  lemma PartTexts(values: Values, a: Bytes, b: Bytes, text: Bytes)
    requires a in values && values[a] != [] && b in values && values[b] != []
    ensures var pairs := a + [0x3D] + PctEncode(values[a]) + [0x26] + b + [0x3D] + PctEncode(values[b]);
            && ExpandPart(values, Query([a, b])) == Ok([0x3F] + pairs)
            && ExpandPart(values, QueryContinuation([a, b])) == Ok([0x26] + pairs)
    ensures ExpandPart(values, Simple(a)) == Ok(PctEncode(values[a]))
    ensures ExpandPart(values, Literal(text)) == Ok(text)
  {
    hide PctEncode;
    var last := [b];
    assert [a, b][1..] == last && last[1..] == [];
    var tail := [0x26] + b + [0x3D] + PctEncode(values[b]);
    assert ExpandNames(values, [], AMPERSAND) == Ok([]);
    assert ExpandNames(values, last, AMPERSAND) == Ok(tail) by { assert tail + [] == tail; }
    var head := a + [0x3D] + PctEncode(values[a]);
    assert [0x3F] + a + [0x3D] + PctEncode(values[a]) + tail
        == [0x3F] + (head + [0x26] + b + [0x3D] + PctEncode(values[b]));
    assert [0x26] + a + [0x3D] + PctEncode(values[a]) + tail
        == [0x26] + (head + [0x26] + b + [0x3D] + PctEncode(values[b]));
  }

  /** A variable without a value, or with an empty one, is an error that names it. */
  lemma MissingValues(values: Values, name: Bytes)
    ensures name !in values ==> ExpandPart(values, Simple(name)) == Err(UndefinedVariable(name))
    ensures name in values && values[name] == [] ==> ExpandPart(values, Simple(name)) == Err(EmptyValue(name))
    ensures name !in values ==> ExpandPart(values, Query([name])) == Err(UndefinedVariable(name))
    ensures name in values && values[name] == [] ==> ExpandPart(values, Query([name])) == Err(EmptyValue(name))
  {
  }

  lemma ConcatConcat(a: Bytes, b: Bytes, r: Result<Bytes, Error>)
    ensures Concat(a, Concat(b, r)) == Concat(a + b, r)
  {
    assert r.Ok? ==> a + (b + r.value) == (a + b) + r.value;
  }

  /** The expansion loop. */
  method ExpandPathLoop(values: Values, parts: seq<Part>) returns (r: Result<Bytes, Error>)
    ensures r == ExpandPath(values, parts)
  {
    hide ExpandPart;
    var out: Bytes := [];
    var i := 0;
    assert parts[0..] == parts;
    assert ExpandPath(values, parts).Ok? ==> [] + ExpandPath(values, parts).value == ExpandPath(values, parts).value;
    while i < |parts|
      invariant i <= |parts| && ExpandPath(values, parts) == Concat(out, ExpandPath(values, parts[i..]))
    {
      assert parts[i..][0] == parts[i] && parts[i..][1..] == parts[i + 1..];
      var piece := ExpandPart(values, parts[i]);
      if piece.Err? {
        return piece;
      }
      ConcatConcat(out, piece.value, ExpandPath(values, parts[i + 1..]));
      out := out + piece.value;
      i := i + 1;
    }
    assert out + [] == out;
    return Ok(out);
  }

  // ---------------------------------------------------------------------------
  // Query strings
  // ---------------------------------------------------------------------------

  /** The decoded `key=value` pairs, the last one winning; `None` if one does not decode.
      Text without an equals sign is ignored. */
  function FoundIn(pairs: seq<Bytes>): (found: Option<Values>) {
    if pairs == [] then Some(map[]) else WithPair(FoundIn(pairs[..|pairs| - 1]), Last(pairs))
  }

  function WithPair(before: Option<Values>, pair: Bytes): Option<Values> {
    var i := Find(pair, EQUALS);
    if before.None? || i == |pair| then before
    else
      var key, value := PctDecode(pair[..i]), PctDecode(pair[i + 1..]);
      if key.None? || value.None? then None else Some(before.value[key.value := value.value])
  }

  ghost function NameSet(names: seq<Bytes>): set<Bytes> {
    set name | name in names
  }

  /** The part of `values` that is about `names`. */
  function Restrict(values: Values, names: seq<Bytes>): Values {
    map name | name in names && name in values :: values[name]
  }

  /** The values of `names` in a query string, if every one is there and non-empty. */
  function QueryValues(names: seq<Bytes>, query: Bytes): (r: Option<Values>)
    ensures r.Some? ==> r.value.Keys == NameSet(names)
    ensures r.Some? ==> forall name :: name in r.value ==> r.value[name] != []
  {
    var found := FoundIn(Split(query, AMPERSAND));
    if found.Some? && forall name :: name in names ==> name in found.value && found.value[name] != [] then
      Some(Restrict(found.value, names))
    else None
  }

  function SeparatorOf(p: Part): byte
    requires IsQuery(p)
  {
    if p.Query? then QUESTION else AMPERSAND
  }

  /** The pair has an equals sign (0x3D), its key reads as `key` and its value as `value`. */
  ghost predicate Reads(pair: Bytes, key: Bytes, value: Bytes) {
    exists i :: 0 <= i < |pair| && pair[i] == 0x3D && (forall k :: 0 <= k < i ==> pair[k] != 0x3D)
             && PctDecode(pair[..i]) == Some(key) && PctDecode(pair[i + 1..]) == Some(value)
  }

  /** The pair has no equals sign, or both its halves decode. */
  ghost predicate IsReadable(pair: Bytes) {
    (forall k :: 0 <= k < |pair| ==> pair[k] != 0x3D) || exists key, value :: Reads(pair, key, value)
  }

  lemma PairReads(before: Values, pair: Bytes)
    ensures WithPair(Some(before), pair).Some? <==> IsReadable(pair)
    ensures forall key, value :: Reads(pair, key, value) ==> WithPair(Some(before), pair) == Some(before[key := value])
    ensures (forall key, value :: !Reads(pair, key, value)) && IsReadable(pair) ==>
              WithPair(Some(before), pair) == Some(before)
  {
    hide PctDecode;
    forall key, value | Reads(pair, key, value)
      ensures WithPair(Some(before), pair) == Some(before[key := value])
    {
      var i :| 0 <= i < |pair| && pair[i] == 0x3D && (forall k :: 0 <= k < i ==> pair[k] != 0x3D)
            && PctDecode(pair[..i]) == Some(key) && PctDecode(pair[i + 1..]) == Some(value);
      FindIs(pair, EQUALS, i);
    }
    var i := Find(pair, EQUALS);
    if i < |pair| && PctDecode(pair[..i]).Some? && PctDecode(pair[i + 1..]).Some? {
      assert Reads(pair, PctDecode(pair[..i]).value, PctDecode(pair[i + 1..]).value);
    }
  }

  lemma ReadsOneWay(pair: Bytes, k: Bytes, v: Bytes, k': Bytes, v': Bytes)
    requires Reads(pair, k, v) && Reads(pair, k', v')
    ensures k == k' && v == v'
  {
    hide PctDecode;
    var i :| 0 <= i < |pair| && pair[i] == 0x3D && (forall j :: 0 <= j < i ==> pair[j] != 0x3D)
          && PctDecode(pair[..i]) == Some(k) && PctDecode(pair[i + 1..]) == Some(v);
    var i' :| 0 <= i' < |pair| && pair[i'] == 0x3D && (forall j :: 0 <= j < i' ==> pair[j] != 0x3D)
           && PctDecode(pair[..i']) == Some(k') && PctDecode(pair[i' + 1..]) == Some(v');
    assert i == i';
  }

  /** A query is read when every pair is readable; a key then has the value of the last pair
      that names it, and text without an equals sign counts for nothing. */
  lemma {:induction false} QueryReads(pairs: seq<Bytes>, key: Bytes, value: Bytes)
    ensures FoundIn(pairs).Some? <==> forall i :: 0 <= i < |pairs| ==> IsReadable(pairs[i])
    ensures FoundIn(pairs).Some? ==>
              (key in FoundIn(pairs).value && FoundIn(pairs).value[key] == value <==> IsLast(pairs, key, value))
  {
    hide WithPair, IsReadable, Reads, IsLast;
    if pairs == [] {
      NothingIsLast(key, value);
    } else {
      var front, pair := pairs[..|pairs| - 1], Last(pairs);
      assert pairs == front + [pair];
      QueryReads(front, key, value);
      if FoundIn(front).Some? {
        var before := FoundIn(front).value;
        PairReads(before, pair);
        LastOfOneMore(front, pair, key, value);
        if k, v :| Reads(pair, k, v) {
          forall other | Reads(pair, key, other) ensures k == key && v == other {
            ReadsOneWay(pair, k, v, key, other);
          }
        }
      } else {
        NoneStaysNone(pair);
      }
    }
  }

  lemma NothingIsLast(key: Bytes, value: Bytes)
    ensures !IsLast([], key, value)
  {
  }

  /** The last pair that names `name` gives it a value that is not empty. */
  ghost predicate HasValue(pairs: seq<Bytes>, name: Bytes) {
    exists value :: value != [] && IsLast(pairs, name, value)
  }

  /** A query, cut at `&` (0x26), gives its names' values exactly when every pair is readable
      and every name has a last, non-empty value; other keys do not matter. */
  lemma QueryValuesAre(names: seq<Bytes>, query: Bytes)
    ensures var pairs := Split(query, 0x26);
            QueryValues(names, query).Some? <==>
              && (forall i :: 0 <= i < |pairs| ==> IsReadable(pairs[i]))
              && (forall name :: name in names ==> HasValue(pairs, name))
    ensures QueryValues(names, query).Some? ==>
              forall name :: name in names ==> IsLast(Split(query, 0x26), name, QueryValues(names, query).value[name])
  {
    hide Split, FoundIn, IsReadable, IsLast;
    var pairs := Split(query, 0x26);
    QueryReads(pairs, [], []);
    if FoundIn(pairs).Some? {
      var found := FoundIn(pairs).value;
      forall name | name in names
        ensures (name in found && found[name] != []) <==> HasValue(pairs, name)
        ensures name in found ==> IsLast(pairs, name, found[name])
      {
        if name in found {
          QueryReads(pairs, name, found[name]);
          assert found[name] != [] ==> HasValue(pairs, name);
        }
        forall value | IsLast(pairs, name, value) ensures name in found && found[name] == value {
          QueryReads(pairs, name, value);
        }
      }
    }
  }

  lemma NoneStaysNone(pair: Bytes)
    ensures WithPair(None, pair) == None
  {
  }

  ghost predicate IsLast(pairs: seq<Bytes>, key: Bytes, value: Bytes) {
    exists i :: 0 <= i < |pairs| && Reads(pairs[i], key, value)
             && forall j, other :: i < j < |pairs| ==> !Reads(pairs[j], key, other)
  }

  lemma LastOfOneMore(front: seq<Bytes>, pair: Bytes, key: Bytes, value: Bytes)
    ensures IsLast(front + [pair], key, value) <==>
            Reads(pair, key, value) || ((forall other :: !Reads(pair, key, other)) && IsLast(front, key, value))
  {
    hide Reads;
    var all := front + [pair];
    assert all[|front|] == pair && forall k :: 0 <= k < |front| ==> all[k] == front[k];
    if Reads(pair, key, value) {
      assert Reads(all[|front|], key, value);
    }
    if (forall other :: !Reads(pair, key, other)) && IsLast(front, key, value) {
      var i :| 0 <= i < |front| && Reads(front[i], key, value)
            && forall j, other :: i < j < |front| ==> !Reads(front[j], key, other);
      assert Reads(all[i], key, value);
    }
    if IsLast(all, key, value) && !Reads(pair, key, value) {
      var i :| 0 <= i < |all| && Reads(all[i], key, value)
            && forall j, other :: i < j < |all| ==> !Reads(all[j], key, other);
      assert Reads(front[i], key, value);
      assert forall other :: !Reads(all[|front|], key, other);
    }
  }

  // ---------------------------------------------------------------------------
  // Splits: what it means for a path to match
  // ---------------------------------------------------------------------------

  /** `piece` is something the part can stand for. */
  ghost predicate Fits(p: Part, piece: Bytes) {
    match p
    case Literal(text) => piece == text
    case Simple(_) => piece != [] && AllSafe(piece) && PctDecode(piece).Some?
    case Query(names) => piece != [] && piece[0] == QUESTION && QueryValues(names, piece[1..]).Some?
    case QueryContinuation(names) => piece != [] && piece[0] == AMPERSAND && QueryValues(names, piece[1..]).Some?
  }

  ghost predicate IsSplit(parts: seq<Part>, pieces: seq<Bytes>, input: Bytes) {
    && |pieces| == |parts|
    && Flatten(pieces) == input
    && forall i :: 0 <= i < |parts| ==> Fits(parts[i], pieces[i])
  }

  /** What a fitting piece binds. */
  ghost function Binds(p: Part, piece: Bytes): (m: Values)
    requires Fits(p, piece)
  {
    match p
    case Literal(_) => map[]
    case Simple(name) => map[name := PctDecode(piece).value]
    case Query(names) => QueryValues(names, piece[1..]).value
    case QueryContinuation(names) => QueryValues(names, piece[1..]).value
  }

  ghost function Bindings(parts: seq<Part>, pieces: seq<Bytes>): Values
    requires |pieces| == |parts| && forall i :: 0 <= i < |parts| ==> Fits(parts[i], pieces[i])
  {
    if parts == [] then map[] else Binds(parts[0], pieces[0]) + Bindings(parts[1..], pieces[1..])
  }

  ghost function VariableSet(parts: seq<Part>): set<Bytes> {
    NameSet(Variables(parts))
  }

  /** A match binds exactly the template's variables, each to something non-empty. */
  lemma {:induction false} BindingsCoverTheVariables(parts: seq<Part>, pieces: seq<Bytes>)
    requires |pieces| == |parts| && forall i :: 0 <= i < |parts| ==> Fits(parts[i], pieces[i])
    ensures Bindings(parts, pieces).Keys == VariableSet(parts)
    ensures forall name :: name in Bindings(parts, pieces) ==> Bindings(parts, pieces)[name] != []
  {
    hide QueryValues, PctDecode;
    if parts != [] {
      BindingsCoverTheVariables(parts[1..], pieces[1..]);
      assert Fits(parts[0], pieces[0]);
      assert Binds(parts[0], pieces[0]).Keys == NameSet(VariablesOf(parts[0]));
    }
  }

  // ---------------------------------------------------------------------------
  // The search
  // ---------------------------------------------------------------------------

  /** The length of the run of expansion-safe bytes at the head of the input. */
  function SafeSpan(input: Bytes): (n: nat)
    ensures n <= |input| && AllSafe(input[..n])
    ensures n < |input| ==> !IsExpansionSafe(input[n])
  {
    if input == [] || !IsExpansionSafe(input[0]) then 0
    else
      var n := 1 + SafeSpan(input[1..]);
      assert forall i :: 0 < i < n ==> input[..n][i] == input[1..][..n - 1][i - 1];
      n
  }

  function Cons(piece: Bytes, rest: Option<seq<Bytes>>): Option<seq<Bytes>> {
    if rest.None? then None else Some([piece] + rest.value)
  }

  /** The split the backtracking search finds: longest runs first, shrinking. */
  function Search(parts: seq<Part>, input: Bytes): Option<seq<Bytes>>
    decreases |parts|, 1, 0
  {
    if parts == [] then
      if input == [] then Some([]) else None
    else
      var part := parts[0];
      if part.Literal? then
        if part.text <= input then Cons(part.text, Search(parts[1..], input[|part.text|..])) else None
      else if part.Simple? then Shrink(parts, input, SafeSpan(input))
      else if input == [] || input[0] != SeparatorOf(part) || QueryValues(part.names, input[1..]).None? then None
      else if parts[1..] != [] then None
      else Some([input])
  }

  /** Try the first `len` bytes for the leading variable, then fewer. */
  function Shrink(parts: seq<Part>, input: Bytes, len: nat): Option<seq<Bytes>>
    requires parts != [] && len <= |input|
    decreases |parts|, 0, len
  {
    if len == 0 then None
    else if PctDecode(input[..len]).Some? && Search(parts[1..], input[len..]).Some? then
      Cons(input[..len], Search(parts[1..], input[len..]))
    else Shrink(parts, input, len - 1)
  }

  lemma {:induction false} ShrinkFinds(parts: seq<Part>, input: Bytes, len: nat)
    requires parts != [] && len <= |input|
    ensures var r := Shrink(parts, input, len);
            if r.None? then
              forall k :: 1 <= k <= len ==> PctDecode(input[..k]).None? || Search(parts[1..], input[k..]).None?
            else
              exists k :: && 1 <= k <= len && PctDecode(input[..k]).Some?
                          && Search(parts[1..], input[k..]).Some?
                          && r == Cons(input[..k], Search(parts[1..], input[k..]))
                          && forall j :: k < j <= len ==>
                               PctDecode(input[..j]).None? || Search(parts[1..], input[j..]).None?
    decreases len
  {
    hide PctDecode, Search;
    if len > 0 {
      if PctDecode(input[..len]).Some? && Search(parts[1..], input[len..]).Some? {
        assert Shrink(parts, input, len) == Cons(input[..len], Search(parts[1..], input[len..]));
      } else {
        ShrinkFinds(parts, input, len - 1);
      }
    }
  }

  lemma SplitCons(parts: seq<Part>, piece: Bytes, pieces: seq<Bytes>, input: Bytes)
    requires parts != [] && Fits(parts[0], piece) && IsSplit(parts[1..], pieces, input)
    ensures IsSplit(parts, [piece] + pieces, piece + input)
  {
    hide Fits;
    var whole := [piece] + pieces;
    assert whole[1..] == pieces;
    forall i | 0 <= i < |parts|
      ensures Fits(parts[i], whole[i])
    {
      if i > 0 { assert Fits(parts[1..][i - 1], pieces[i - 1]); }
    }
  }

  lemma SplitUncons(parts: seq<Part>, pieces: seq<Bytes>, input: Bytes)
    requires parts != [] && IsSplit(parts, pieces, input)
    ensures pieces[0] <= input && Fits(parts[0], pieces[0])
    ensures IsSplit(parts[1..], pieces[1..], input[|pieces[0]|..])
  {
    hide Fits;
    assert input == pieces[0] + Flatten(pieces[1..]);
    assert input[|pieces[0]|..] == Flatten(pieces[1..]);
  }

  lemma SplitFrom(parts: seq<Part>, k: nat, tail: seq<Bytes>, input: Bytes)
    requires parts != [] && k <= |input| && Fits(parts[0], input[..k]) && IsSplit(parts[1..], tail, input[k..])
    ensures IsSplit(parts, [input[..k]] + tail, input)
  {
    hide Fits, IsSplit;
    SplitCons(parts, input[..k], tail, input[k..]);
    assert input[..k] + input[k..] == input;
  }

  lemma SafePrefix(input: Bytes, k: nat)
    requires k <= SafeSpan(input)
    ensures AllSafe(input[..k])
  {
    assert forall i :: 0 <= i < k ==> input[..k][i] == input[..SafeSpan(input)][i];
  }

  /** Where the search cuts off the leading part. */
  lemma SearchCut(parts: seq<Part>, input: Bytes) returns (k: nat)
    requires parts != [] && Search(parts, input).Some? && !IsQuery(parts[0])
    ensures k <= |input| && Fits(parts[0], input[..k]) && Search(parts[1..], input[k..]).Some?
    ensures Search(parts, input) == Cons(input[..k], Search(parts[1..], input[k..]))
  {
    hide QueryValues, PctDecode, Shrink, SafeSpan, AllSafe;
    if parts[0].Literal? {
      k := |parts[0].text|;
    } else {
      ShrinkFinds(parts, input, SafeSpan(input));
      k :| 1 <= k <= SafeSpan(input) && PctDecode(input[..k]).Some? && Search(parts[1..], input[k..]).Some?
           && Shrink(parts, input, SafeSpan(input)) == Cons(input[..k], Search(parts[1..], input[k..]));
      SafePrefix(input, k);
    }
  }

  lemma QuerySplit(parts: seq<Part>, input: Bytes)
    requires parts != [] && Search(parts, input).Some? && IsQuery(parts[0])
    ensures IsSplit(parts, Search(parts, input).value, input)
  {
    hide QueryValues, Shrink;
    assert [input][1..] == [] && Flatten<byte>([]) == [];
    assert Flatten([input]) == input;
  }

  /** What the search finds is a split of the path. */
  lemma {:induction false} SearchIsSound(parts: seq<Part>, input: Bytes)
    requires Search(parts, input).Some?
    ensures IsSplit(parts, Search(parts, input).value, input)
    decreases |parts|
  {
    hide Search, IsSplit, Fits;
    if parts == [] {
      EmptySplit(input);
    } else if IsQuery(parts[0]) {
      QuerySplit(parts, input);
    } else {
      var k := SearchCut(parts, input);
      SearchIsSound(parts[1..], input[k..]);
      SplitFrom(parts, k, Search(parts[1..], input[k..]).value, input);
    }
  }

  lemma EmptySplit(input: Bytes)
    requires Search([], input).Some?
    ensures IsSplit([], Search([], input).value, input)
  {
  }

  /** Longer at the first place the two splits differ. */
  ghost predicate Greedier(a: seq<Bytes>, b: seq<Bytes>)
    decreases |a|
  {
    a == [] || b == [] || |a[0]| > |b[0]| || (|a[0]| == |b[0]| && Greedier(a[1..], b[1..]))
  }

  lemma {:induction false} SpanCoversSafePrefix(input: Bytes, piece: Bytes)
    requires piece <= input && AllSafe(piece)
    ensures |piece| <= SafeSpan(input)
  {
    if piece != [] {
      assert input[0] == piece[0];
      SpanCoversSafePrefix(input[1..], piece[1..]);
    }
  }

  /** If the path has any split at all, the search finds one, and no split of the path
      is greedier than the one found. Only a query in last place can be matched. */
  lemma {:induction false} SearchIsComplete(parts: seq<Part>, pieces: seq<Bytes>, input: Bytes)
    requires IsSplit(parts, pieces, input) && QueryOnlyLast(parts)
    ensures Search(parts, input).Some?
    ensures Greedier(Search(parts, input).value, pieces)
    decreases |parts|
  {
    hide QueryValues, PctDecode, Shrink;
    if parts != [] {
      var part := parts[0];
      SplitUncons(parts, pieces, input);
      var rest := input[|pieces[0]|..];
      if part.Literal? {
        SearchIsComplete(parts[1..], pieces[1..], rest);
      } else if part.Simple? {
        SearchIsComplete(parts[1..], pieces[1..], rest);
        ShrinkFinds(parts, input, SafeSpan(input));
        SpanCoversSafePrefix(input, pieces[0]);
        assert input[..|pieces[0]|] == pieces[0];
        var k :| 1 <= k <= SafeSpan(input) && Search(parts[1..], input[k..]).Some?
                 && Shrink(parts, input, SafeSpan(input)) == Cons(input[..k], Search(parts[1..], input[k..]))
                 && forall j :: k < j <= SafeSpan(input) ==>
                      PctDecode(input[..j]).None? || Search(parts[1..], input[j..]).None?;
        assert |pieces[0]| <= k;
        assert k == |pieces[0]| ==> input[k..] == rest;
      } else {
        assert |parts| == 1;
        assert pieces[1..] == [] && rest == [];
        assert input[..|pieces[0]|] == pieces[0] == input;
      }
    }
  }

  /** For every template, ambiguous ones included: the search succeeds exactly when the
      path can be split, and then the bound values come from the greediest split. */
  lemma MatchesExactlyWhenSplittable(parts: seq<Part>, input: Bytes)
    requires QueryOnlyLast(parts)
    ensures Search(parts, input).Some? <==> exists pieces :: IsSplit(parts, pieces, input)
  {
    if Search(parts, input).Some? {
      SearchIsSound(parts, input);
    }
    forall pieces | IsSplit(parts, pieces, input)
      ensures Search(parts, input).Some?
    {
      SearchIsComplete(parts, pieces, input);
    }
  }

  /** What matching a path yields. */
  ghost function MatchResult(parts: seq<Part>, input: Bytes): (r: Option<Values>)
    ensures r.Some? <==> Search(parts, input).Some?
    ensures r.Some? ==> r.value.Keys == VariableSet(parts)
    ensures r.Some? ==> forall name :: name in r.value ==> r.value[name] != []
  {
    if Search(parts, input).None? then None
    else
      SearchIsSound(parts, input);
      BindingsCoverTheVariables(parts, Search(parts, input).value);
      Some(Bindings(parts, Search(parts, input).value))
  }

  // ---------------------------------------------------------------------------
  // The matcher: one shared map, changed in place
  // ---------------------------------------------------------------------------

  ghost predicate SameOutside(a: Values, b: Values, keys: set<Bytes>) {
    forall k :: k !in keys ==> (k in a <==> k in b) && (k in a ==> a[k] == b[k])
  }

  lemma DistinctParts(a: seq<Bytes>, b: seq<Bytes>)
    requires Distinct(a + b)
    ensures Distinct(b) && forall name :: name in a ==> name !in b
  {
    var all := a + b;
    assert forall i :: 0 <= i < |a| ==> all[i] == a[i];
    assert forall i :: 0 <= i < |b| ==> all[|a| + i] == b[i];
  }

  lemma DistinctTail(parts: seq<Part>)
    requires parts != [] && Distinct(Variables(parts))
    ensures Distinct(Variables(parts[1..]))
    ensures forall name :: name in VariablesOf(parts[0]) ==> name !in VariableSet(parts[1..])
    ensures VariableSet(parts) == NameSet(VariablesOf(parts[0])) + VariableSet(parts[1..])
  {
    hide Distinct, VariablesOf;
    DistinctParts(VariablesOf(parts[0]), Variables(parts[1..]));
  }

  /** The pair loop of a query: stops at the first pair that does not decode. */
  method CollectPairs(query: Bytes) returns (found: Option<Values>)
    ensures found == FoundIn(Split(query, AMPERSAND))
  {
    hide PctDecode, Find, Split;
    var pairs := Split(query, AMPERSAND);
    var values: Values := map[];
    var i := 0;
    while i < |pairs|
      invariant i <= |pairs| && FoundIn(pairs[..i]) == Some(values)
    {
      assert pairs[..i + 1][..i] == pairs[..i] && Last(pairs[..i + 1]) == pairs[i];
      var pair := pairs[i];
      var eq := Find(pair, EQUALS);
      if eq < |pair| {
        var key := PctDecodeLoop(pair[..eq]);
        var value := PctDecodeLoop(pair[eq + 1..]);
        if key.None? || value.None? {
          FailureIsFinal(pairs, i + 1);
          return None;
        }
        values := values[key.value := value.value];
      }
      i := i + 1;
    }
    assert pairs[..i] == pairs;
    return Some(values);
  }

  lemma {:induction false} FailureIsFinal(pairs: seq<Bytes>, n: nat)
    requires n <= |pairs| && FoundIn(pairs[..n]).None?
    ensures FoundIn(pairs).None?
    decreases |pairs|
  {
    hide PctDecode, Find;
    if n == |pairs| {
      assert pairs[..n] == pairs;
    } else {
      assert pairs[..|pairs| - 1][..n] == pairs[..n];
      FailureIsFinal(pairs[..|pairs| - 1], n);
    }
  }

  class Matcher {
    var values: Values

    constructor ()
      ensures values == map[]
    {
      values := map[];
    }

    /** The backtracking search. Only the template's own variables are ever touched;
        on success each holds its value in the split that was found, whatever earlier,
        failed attempts left behind. */
    method MatchParts(parts: seq<Part>, input: Bytes) returns (ok: bool)
      requires Distinct(Variables(parts))
      modifies this
      ensures ok <==> Search(parts, input).Some?
      ensures SameOutside(values, old(values), VariableSet(parts))
      ensures ok ==> forall name :: name in VariableSet(parts) ==>
                name in values && values[name] == MatchResult(parts, input).value[name]
      decreases |parts|, 1
    {
      hide QueryValues, PctDecode, Shrink, Bindings;
      if parts == [] {
        return input == [];
      }
      DistinctTail(parts);
      var part, tail := parts[0], parts[1..];
      if part.Literal? {
        if !(part.text <= input) {
          return false;
        }
        var rest := input[|part.text|..];
        ok := MatchParts(tail, rest);
        if ok {
          MatchResultCons(parts, input, part.text);
        }
      } else if part.Simple? {
        ok := MatchSimple(parts, input);
      } else {
        ok := MatchQuery(parts, input);
      }
    }

    method MatchSimple(parts: seq<Part>, input: Bytes) returns (ok: bool)
      requires parts != [] && parts[0].Simple? && Distinct(Variables(parts))
      modifies this
      ensures ok <==> Search(parts, input).Some?
      ensures SameOutside(values, old(values), VariableSet(parts))
      ensures ok ==> forall name :: name in VariableSet(parts) ==>
                name in values && values[name] == MatchResult(parts, input).value[name]
      decreases |parts|, 0
    {
      hide PctDecode, Search, Variables, MatchResult, SafeSpan, AllSafe, Shrink, Distinct;
      DistinctTail(parts);
      SearchOfSimple(parts, input);
      var name := parts[0].name;
      var len: nat := SafeSpan(input);
      while len >= 1
        invariant len <= SafeSpan(input)
        invariant Shrink(parts, input, len) == Search(parts, input)
        invariant SameOutside(values, old(values), VariableSet(parts))
      {
        ShrinkUnrolls(parts, input, len);
        var decoded := PctDecodeLoop(input[..len]);
        if decoded.Some? {
          values := values[name := decoded.value];
          ok := MatchParts(parts[1..], input[len..]);
          if ok {
            MatchResultOfSimple(parts, input, len);
            return;
          }
          values := values - {name};
        }
        len := len - 1;
      }
      ShrinkOfNothing(parts, input);
      return false;
    }

    method MatchQuery(parts: seq<Part>, input: Bytes) returns (ok: bool)
      requires parts != [] && IsQuery(parts[0])
      modifies this
      ensures ok <==> Search(parts, input).Some?
      ensures SameOutside(values, old(values), VariableSet(parts))
      ensures ok ==> forall name :: name in VariableSet(parts) ==>
                name in values && values[name] == MatchResult(parts, input).value[name]
    {
      hide PctDecode, Split, FoundIn, MatchResult;
      var names := parts[0].names;
      if input == [] || input[0] != SeparatorOf(parts[0]) {
        return false;
      }
      var found := CollectPairs(input[1..]);
      if found.None? {
        return false;
      }
      ok := BindNames(names, found.value);
      assert Variables(parts) == names + Variables(parts[1..]);
      if !ok || parts[1..] != [] {
        return false;
      }
      MatchResultOfQuery(parts, input);
    }

    /** The loop over a query's names: insert each found value, give up at a missing one. */
    method BindNames(names: seq<Bytes>, found: Values) returns (ok: bool)
      modifies this
      ensures ok <==> forall name :: name in names ==> name in found && found[name] != []
      ensures SameOutside(values, old(values), NameSet(names))
      ensures ok ==> forall name :: name in names ==> name in values && values[name] == found[name]
    {
      var i := 0;
      while i < |names|
        invariant i <= |names| && SameOutside(values, old(values), NameSet(names))
        invariant forall name :: name in names[..i] ==>
          name in found && found[name] != [] && name in values && values[name] == found[name]
      {
        assert names[..i + 1] == names[..i] + [names[i]];
        if names[i] !in found || found[names[i]] == [] {
          return false;
        }
        values := values[names[i] := found[names[i]]];
        i := i + 1;
      }
      assert names[..i] == names;
      return true;
    }
  }

  lemma ShrinkUnrolls(parts: seq<Part>, input: Bytes, len: nat)
    requires parts != [] && 0 < len <= |input|
    ensures Shrink(parts, input, len) ==
            if PctDecode(input[..len]).Some? && Search(parts[1..], input[len..]).Some? then
              Cons(input[..len], Search(parts[1..], input[len..]))
            else Shrink(parts, input, len - 1)
  {
    hide PctDecode, Search;
  }

  lemma ShrinkOfNothing(parts: seq<Part>, input: Bytes)
    requires parts != []
    ensures Shrink(parts, input, 0).None?
  {
  }

  lemma SearchOfSimple(parts: seq<Part>, input: Bytes)
    requires parts != [] && parts[0].Simple?
    ensures Search(parts, input) == Shrink(parts, input, SafeSpan(input))
  {
  }

  lemma MatchResultCons(parts: seq<Part>, input: Bytes, piece: Bytes)
    requires parts != [] && piece <= input && Fits(parts[0], piece)
    requires Search(parts[1..], input[|piece|..]).Some?
    requires Search(parts, input) == Cons(piece, Search(parts[1..], input[|piece|..]))
    ensures MatchResult(parts, input) == Some(Binds(parts[0], piece) + MatchResult(parts[1..], input[|piece|..]).value)
  {
    hide Search, Fits, Binds;
    var pieces := Search(parts, input).value;
    assert pieces[1..] == Search(parts[1..], input[|piece|..]).value;
  }

  lemma MatchResultOfSimple(parts: seq<Part>, input: Bytes, len: nat)
    requires parts != [] && parts[0].Simple? && 1 <= len <= SafeSpan(input)
    requires PctDecode(input[..len]).Some? && Search(parts[1..], input[len..]).Some?
    requires Search(parts, input) == Cons(input[..len], Search(parts[1..], input[len..]))
    ensures MatchResult(parts, input) ==
            Some(map[parts[0].name := PctDecode(input[..len]).value] + MatchResult(parts[1..], input[len..]).value)
  {
    hide PctDecode, Search, MatchResult;
    var span := input[..SafeSpan(input)];
    assert forall i :: 0 <= i < len ==> input[..len][i] == span[i];
    MatchResultCons(parts, input, input[..len]);
  }

  lemma MatchResultOfQuery(parts: seq<Part>, input: Bytes)
    requires |parts| == 1 && IsQuery(parts[0]) && Search(parts, input).Some?
    ensures MatchResult(parts, input).value == QueryValues(parts[0].names, input[1..]).value
  {
    hide QueryValues;
    var pieces := Search(parts, input).value;
    assert pieces == [input] && pieces[1..] == [] && parts[1..] == [];
    SearchIsSound(parts, input);
    assert Bindings(parts[1..], pieces[1..]) == map[];
    assert Bindings(parts, pieces) == Binds(parts[0], pieces[0]) + map[];
  }

  /** Match a path against a template, starting from an empty map. */
  method MatchPath(t: UriTemplate, path: Bytes) returns (r: Option<Values>)
    requires Distinct(Variables(t.parts))
    ensures r == MatchResult(t.parts, path)
  {
    var matcher := new Matcher();
    var ok := matcher.MatchParts(t.parts, path);
    if !ok {
      return None;
    }
    r := Some(matcher.values);
    ghost var expected := MatchResult(t.parts, path).value;
    assert matcher.values.Keys == expected.Keys;
    assert matcher.values == expected;
  }
}
