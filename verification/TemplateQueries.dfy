/** Query expressions: which names a query string gives back, and which it never does. */
module TemplateQueries {
  import opened Common
  import opened Text
  import opened Template
  import opened TemplateMatch
  import opened Encodings

  /** Every variable has a non-empty string. */
  ghost predicate Supplies(values: Values, names: seq<Bytes>) {
    forall name :: name in names ==> name in values && values[name] != [] && IsUtf8(values[name])
  }

  lemma {:induction false} NamesExpand(values: Values, names: seq<Bytes>, separator: byte)
    requires Supplies(values, names)
    ensures ExpandNames(values, names, separator).Ok?
    ensures names != [] ==> var s := ExpandNames(values, names, separator).value; s != [] && s[0] == separator
    decreases |names|
  {
    if names != [] {
      NamesExpand(values, names[1..], AMPERSAND);
    }
  }

  // ---------------------------------------------------------------------------
  // Names that survive the trip
  // ---------------------------------------------------------------------------

  /** No `=`, no `&` and no `%`. */
  predicate Findable(name: Bytes) {
    Lacks(name, EQUALS) && Lacks(name, AMPERSAND) && Lacks(name, PERCENT)
  }

  ghost predicate FindableNames(parts: seq<Part>) {
    forall i :: 0 <= i < |parts| && IsQuery(parts[i]) ==>
      forall k :: 0 <= k < |parts[i].names| ==> Findable(parts[i].names[k])
  }

  ghost predicate AllFindable(names: seq<Bytes>) {
    forall k :: 0 <= k < |names| ==> Findable(names[k])
  }

  ghost predicate AllText(names: seq<Bytes>) {
    forall k :: 0 <= k < |names| ==> IsUtf8(names[k])
  }

  function PairOf(values: Values, name: Bytes): Bytes
    requires name in values
  {
    name + ([EQUALS] + PctEncode(values[name]))
  }

  ghost function Pairs(values: Values, names: seq<Bytes>): (r: seq<Bytes>)
    requires Supplies(values, names)
    ensures |r| == |names|
  {
    seq(|names|, i requires 0 <= i < |names| => PairOf(values, names[i]))
  }

  lemma {:induction false} ExpandNamesIsJoin(values: Values, names: seq<Bytes>, separator: byte)
    requires Supplies(values, names) && names != []
    ensures ExpandNames(values, names, separator) == Ok([separator] + Join(Pairs(values, names), AMPERSAND))
    decreases |names|
  {
    hide PctEncode;
    var pairs := Pairs(values, names);
    var first := [separator] + names[0] + [EQUALS] + PctEncode(values[names[0]]);
    assert first == [separator] + pairs[0];
    if |names| == 1 {
      assert names[1..] == [];
      assert ExpandNames(values, names[1..], AMPERSAND) == Ok([]);
      assert first + [] == first;
    } else {
      ExpandNamesIsJoin(values, names[1..], AMPERSAND);
      assert pairs[1..] == Pairs(values, names[1..]);
      var rest := Join(pairs[1..], AMPERSAND);
      assert first + ([AMPERSAND] + rest) == [separator] + (pairs[0] + [AMPERSAND] + rest);
    }
  }

  lemma PairParses(values: Values, name: Bytes)
    requires name in values && IsUtf8(values[name]) && Findable(name) && IsUtf8(name)
    ensures Lacks(PairOf(values, name), AMPERSAND)
    ensures forall before :: WithPair(Some(before), PairOf(values, name)) == Some(before[name := values[name]])
  {
    hide PctEncode, Unescape, Find, IsUtf8;
    var pair, enc := PairOf(values, name), PctEncode(values[name]);
    EncodedIsSafe(values[name]);
    FindIs(pair, EQUALS, |name|);
    assert pair[..|name|] == name && pair[|name| + 1..] == enc;
    UnescapeVerbatim(name);
    PctRoundTrip(values[name]);
    forall k | 0 <= k < |pair|
      ensures pair[k] != AMPERSAND
    {
      assert pair[k] == if k < |name| then name[k] else if k == |name| then EQUALS else enc[k - |name| - 1];
    }
  }

  lemma FoundInOneMore(pairs: seq<Bytes>, pair: Bytes)
    ensures FoundIn(pairs + [pair]) == WithPair(FoundIn(pairs), pair)
  {
    hide WithPair;
    var all := pairs + [pair];
    assert all[..|all| - 1] == pairs && Last(all) == pair;
  }

  lemma RestrictOneMore(values: Values, names: seq<Bytes>, name: Bytes)
    requires name in values
    ensures Restrict(values, names + [name]) == Restrict(values, names)[name := values[name]]
  {
  }

  lemma {:induction false} FoundInPairs(values: Values, names: seq<Bytes>)
    requires Supplies(values, names) && AllFindable(names) && AllText(names)
    ensures FoundIn(Pairs(values, names)) == Some(Restrict(values, names))
  {
    hide FoundIn, WithPair, PairOf, Findable, IsUtf8, Restrict;
    if names == [] {
      NothingFound(values);
    } else {
      var before, last := names[..|names| - 1], Last(names);
      FoundInPairs(values, before);
      PairParses(values, last);
      assert names == before + [last];
      assert Pairs(values, names) == Pairs(values, before) + [PairOf(values, last)];
      FoundInOneMore(Pairs(values, before), PairOf(values, last));
      RestrictOneMore(values, before, last);
    }
  }

  lemma NothingFound(values: Values)
    ensures FoundIn([]) == Some(Restrict(values, []))
  {
    assert Restrict(values, []) == map[];
  }

  /** A query expression gives its values back. */
  lemma QueryRoundTrip(values: Values, names: seq<Bytes>, separator: byte)
    requires Supplies(values, names) && AllFindable(names) && AllText(names) && names != []
    ensures ExpandNames(values, names, separator).Ok?
    ensures var s := ExpandNames(values, names, separator).value;
            s != [] && s[0] == separator
            && QueryValues(names, s[1..]) == Some(Restrict(values, names))
  {
    hide ExpandNames, Join, Split, FoundIn, PairOf, Findable, IsUtf8;
    ExpandNamesIsJoin(values, names, separator);
    var s, pairs := ExpandNames(values, names, separator).value, Pairs(values, names);
    assert s[1..] == Join(pairs, AMPERSAND);
    forall i | 0 <= i < |pairs|
      ensures Lacks(pairs[i], AMPERSAND)
    {
      PairParses(values, names[i]);
    }
    SplitJoin(pairs, AMPERSAND);
    FoundInPairs(values, names);
    var found := Restrict(values, names);
    forall name | name in names
      ensures name in found && found[name] != []
    {
    }
    assert Restrict(found, names) == found;
  }

  // ---------------------------------------------------------------------------
  // Names that do not
  // ---------------------------------------------------------------------------

  /** The text before the equals sign of a pair. */
  function RawKey(pair: Bytes): Bytes {
    pair[..Find(pair, EQUALS)]
  }

  /** Every byte of `key` is one of `name`, and it is no longer. */
  predicate Within(key: Bytes, name: Bytes) {
    |key| <= |name| && forall i :: 0 <= i < |key| ==> key[i] in name
  }

  lemma {:induction false} FoundKeys(pairs: seq<Bytes>, key: Bytes) returns (j: nat)
    requires FoundIn(pairs).Some? && key in FoundIn(pairs).value
    ensures j < |pairs| && PctDecode(RawKey(pairs[j])) == Some(key) && Find(pairs[j], EQUALS) < |pairs[j]|
  {
    hide PctDecode, Find;
    var before, pair := pairs[..|pairs| - 1], Last(pairs);
    if Find(pair, EQUALS) < |pair| && PctDecode(RawKey(pair)) == Some(key) {
      j := |pairs| - 1;
    } else {
      j := FoundKeys(before, key);
    }
  }

  lemma {:induction false} SplitAtSeparator(a: Bytes, b: Bytes, sep: byte)
    ensures Split(a + [sep] + b, sep) == Split(a, sep) + Split(b, sep)
    decreases |a|
  {
    hide Find;
    var s, i := a + [sep] + b, Find(a, sep);
    assert forall k :: 0 <= k < |a| ==> s[k] == a[k];
    FindIs(s, sep, i);
    if i == |a| {
      assert s[..i] == a && s[i + 1..] == b;
    } else {
      assert s[..i] == a[..i] && s[i + 1..] == a[i + 1..] + [sep] + b;
      SplitAtSeparator(a[i + 1..], b, sep);
    }
  }

  /** The key of a pair without separators lies before the tail's equals sign. */
  lemma KeyBefore(name: Bytes, tail: Bytes)
    requires tail == [] || tail[0] == EQUALS
    ensures Within(RawKey(name + tail), name)
  {
    hide Find;
    var s := name + tail;
    assert tail != [] ==> s[|name|] == EQUALS;
    assert Find(s, EQUALS) <= |name|;
    forall k | 0 <= k < |RawKey(s)|
      ensures RawKey(s)[k] in name
    {
      assert RawKey(s)[k] == name[k];
    }
  }

  lemma WithinPart(key: Bytes, name: Bytes, i: nat, j: nat)
    requires i <= j <= |name| && Within(key, name[i..j])
    ensures Within(key, name)
  {
  }

  lemma {:induction false} KeysOfPair(name: Bytes, tail: Bytes, j: nat)
    requires tail != [] && tail[0] == EQUALS && Lacks(tail, AMPERSAND)
    requires j < |Split(name + tail, AMPERSAND)|
    ensures Within(RawKey(Split(name + tail, AMPERSAND)[j]), name)
    decreases |name|
  {
    hide Find, Within, RawKey;
    var s, i := name + tail, Find(name, AMPERSAND);
    assert forall k :: 0 <= k < |s| ==> s[k] == if k < |name| then name[k] else tail[k - |name|];
    if i == |name| {
      FindIs(s, AMPERSAND, |s|);
      KeyBefore(name, tail);
    } else {
      FindIs(s, AMPERSAND, i);
      assert s[..i] == name[..i] + [] == name[0..i] && s[i + 1..] == name[i + 1..] + tail;
      if j == 0 {
        KeyBefore(name[0..i], []);
        WithinPart(RawKey(name[0..i]), name, 0, i);
      } else {
        KeysOfPair(name[i + 1..], tail, j - 1);
        assert name[i + 1..] == name[i + 1..|name|];
        WithinPart(RawKey(Split(s, AMPERSAND)[j]), name, i + 1, |name|);
      }
    }
  }

  /** Every key a query's expansion can yield comes from within one of its names. */
  lemma {:induction false} KeysOfJoin(values: Values, names: seq<Bytes>, j: nat) returns (n: nat)
    requires Supplies(values, names) && names != []
    requires j < |Split(Join(Pairs(values, names), AMPERSAND), AMPERSAND)|
    ensures n < |names| && Within(RawKey(Split(Join(Pairs(values, names), AMPERSAND), AMPERSAND)[j]), names[n])
    decreases |names|
  {
    hide Within, RawKey, Split, PctEncode;
    var pairs, tail := Pairs(values, names), [EQUALS] + PctEncode(values[names[0]]);
    EncodedIsSafe(values[names[0]]);
    assert pairs[0] == names[0] + tail && Lacks(tail, AMPERSAND);
    if |names| == 1 {
      KeysOfPair(names[0], tail, j);
      n := 0;
    } else {
      var rest := Join(pairs[1..], AMPERSAND);
      assert pairs[1..] == Pairs(values, names[1..]);
      SplitAtSeparator(pairs[0], rest, AMPERSAND);
      var first := |Split(pairs[0], AMPERSAND)|;
      if j < first {
        KeysOfPair(names[0], tail, j);
        n := 0;
      } else {
        var k := KeysOfJoin(values, names[1..], j - first);
        n := k + 1;
      }
    }
  }

  /** A name that cannot be found: the longest with an escape in it, or else any with a
      separator in it. */
  lemma {:induction false} LongestEscaped(names: seq<Bytes>) returns (n: nat)
    requires exists k :: 0 <= k < |names| && !Lacks(names[k], PERCENT)
    ensures n < |names| && !Lacks(names[n], PERCENT)
    ensures forall k :: 0 <= k < |names| && !Lacks(names[k], PERCENT) ==> |names[k]| <= |names[n]|
  {
    hide Lacks;
    var front, last := names[..|names| - 1], |names| - 1;
    if k :| 0 <= k < |front| && !Lacks(front[k], PERCENT) {
      n := LongestEscaped(front);
      if !Lacks(names[last], PERCENT) && |names[last]| > |names[n]| {
        n := last;
      }
    } else {
      assert forall k :: 0 <= k < |front| ==> names[k] == front[k];
      n := last;
    }
  }

  /** Whatever decodes to a name with one of the three bytes in it is not a key of its query. */
  lemma KeyIsNot(key: Bytes, name: Bytes, longest: Bytes)
    requires Within(key, name) && Lacks(key, EQUALS) && Lacks(key, AMPERSAND)
    requires !Lacks(name, PERCENT) ==> |name| <= |longest| && !Lacks(longest, PERCENT)
    requires !Findable(longest)
    ensures PctDecode(key) != Some(longest)
  {
    if Lacks(key, PERCENT) {
      UnescapeVerbatim(key);
    } else {
      var i :| 0 <= i < |key| && key[i] == PERCENT;
      assert key[i] in name;
      if Unescape(key).Some? {
        UnescapeShortens(key);
      }
    }
  }

  lemma {:induction false} UnfindableIsNotFound(values: Values, names: seq<Bytes>, bad: nat)
    requires Supplies(values, names) && bad < |names| && !Findable(names[bad])
    ensures QueryValues(names, Join(Pairs(values, names), AMPERSAND)).None?
  {
    hide PctDecode, FoundIn, Join, Within, Findable, IsUtf8, Split, PairOf;
    var n := bad;
    if k :| 0 <= k < |names| && !Lacks(names[k], PERCENT) {
      n := LongestEscaped(names);
      EscapedIsUnfindable(names[n]);
    }
    var query := Join(Pairs(values, names), AMPERSAND);
    var pairs := Split(query, AMPERSAND);
    if FoundIn(pairs).Some? && names[n] in FoundIn(pairs).value {
      var j := FoundKeys(pairs, names[n]);
      var m := KeysOfJoin(values, names, j);
      SplitPiecesLackSeparator(query, AMPERSAND);
      assert Lacks(pairs[j], AMPERSAND);
      KeyIsNot(RawKey(pairs[j]), names[m], names[n]);
    }
  }

  lemma EscapedIsUnfindable(name: Bytes)
    requires !Lacks(name, PERCENT)
    ensures !Findable(name)
  {
  }

  /** A query finds its values again exactly when its names have none of the three bytes. */
  lemma QueryRoundTripsExactlyWhen(values: Values, names: seq<Bytes>, separator: byte)
    requires Supplies(values, names) && AllText(names) && names != []
    ensures ExpandNames(values, names, separator).Ok?
    ensures QueryValues(names, ExpandNames(values, names, separator).value[1..]) ==
            if AllFindable(names) then Some(Restrict(values, names)) else None
  {
    hide QueryValues, Join, Pairs, Findable;
    ExpandNamesIsJoin(values, names, separator);
    var s := ExpandNames(values, names, separator).value;
    assert s[1..] == Join(Pairs(values, names), AMPERSAND);
    if AllFindable(names) {
      QueryRoundTrip(values, names, separator);
    } else {
      var bad :| 0 <= bad < |names| && !Findable(names[bad]);
      UnfindableIsNotFound(values, names, bad);
    }
  }
}
