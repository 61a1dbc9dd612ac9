/**
 Drafting a policy from what a workload was seen to reach, so that the draft allows that
 and, up to how applications are compared, nothing else.
 */
module Learn {
  import opened Common
  import opened Chars
  import D = Destination
  import opened PolicyEngine

  datatype Observation = Observation(application: string, transport: Option<Transport>, destination: string, count: nat)

  // ---------------------------------------------------------------------------
  // Sorted collections
  // ---------------------------------------------------------------------------

  ghost predicate TotalOrder<T(!new)>(leq: (T, T) -> bool) {
    && (forall a, b :: leq(a, b) || leq(b, a))
    && (forall a, b :: leq(a, b) && leq(b, a) ==> a == b)
    && (forall a, b, c :: leq(a, b) && leq(b, c) ==> leq(a, c))
  }

  lemma Total<T(!new)>(leq: (T, T) -> bool, a: T, b: T)
    requires TotalOrder(leq)
    ensures leq(a, b) || leq(b, a)
  {
  }

  lemma Transitive<T(!new)>(leq: (T, T) -> bool, a: T, b: T, c: T)
    requires TotalOrder(leq) && leq(a, b) && leq(b, c)
    ensures leq(a, c)
  {
  }

  ghost predicate IsLeast<T>(s: set<T>, leq: (T, T) -> bool, m: T) {
    m in s && forall x :: x in s ==> leq(m, x)
  }

  lemma {:induction false} LeastExists<T(!new)>(s: set<T>, leq: (T, T) -> bool) returns (least: T)
    requires s != {} && TotalOrder(leq)
    ensures IsLeast(s, leq, least)
  {
    hide TotalOrder;
    var x :| x in s;
    if s == {x} {
      Total(leq, x, x);
      least := x;
    } else {
      var m := LeastExists(s - {x}, leq);
      Total(leq, m, x);
      Total(leq, x, x);
      least := if leq(m, x) then m else x;
      forall y | y in s ensures leq(least, y) {
        if y != x {
          assert y in s - {x};
          Transitive(leq, least, m, y);
        }
      }
    }
  }

  lemma SomeLeast<T(!new)>(s: set<T>, leq: (T, T) -> bool)
    requires s != {} && TotalOrder(leq)
    ensures exists m :: m in s && forall x :: x in s ==> leq(m, x)
  {
    var m := LeastExists(s, leq);
  }

  function Least<T(==, !new)>(s: set<T>, leq: (T, T) -> bool): (m: T)
    requires s != {} && TotalOrder(leq)
    ensures m in s && forall x :: x in s ==> leq(m, x)
  {
    SomeLeast(s, leq);
    var m :| m in s && forall x :: x in s ==> leq(m, x);
    m
  }

  lemma InFront<T>(s: set<T>, m: T, rest: seq<T>)
    requires m in s && forall x :: x in s - {m} <==> x in rest
    ensures forall x :: x in s <==> x in [m] + rest
  {
  }

  /** The elements of a set in order, as an ordered set or map iterates over them. */
  function Sorted<T(==, !new)>(s: set<T>, leq: (T, T) -> bool): (r: seq<T>)
    requires TotalOrder(leq)
    ensures |r| == |s| && forall x :: x in s <==> x in r
    ensures forall i, j :: 0 <= i < j < |r| ==> leq(r[i], r[j]) && r[i] != r[j]
  {
    if s == {} then []
    else
      var m := Least(s, leq);
      var rest := Sorted(s - {m}, leq);
      InFront(s, m, rest);
      [m] + rest
  }

  /** Lexicographic order by code point. */
  predicate StringLeq(a: string, b: string) {
    a == [] || (b != [] && (a[0] < b[0] || (a[0] == b[0] && StringLeq(a[1..], b[1..]))))
  }

  lemma {:induction false} StringLeqTotal(a: string, b: string)
    ensures StringLeq(a, b) || StringLeq(b, a)
    ensures StringLeq(a, b) && StringLeq(b, a) ==> a == b
  {
    if a != [] && b != [] {
      StringLeqTotal(a[1..], b[1..]);
      assert a == [a[0]] + a[1..] && b == [b[0]] + b[1..];
    }
  }

  lemma {:induction false} StringLeqTransitive(a: string, b: string, c: string)
    requires StringLeq(a, b) && StringLeq(b, c)
    ensures StringLeq(a, c)
  {
    if a != [] && a[0] == b[0] && b[0] == c[0] {
      StringLeqTransitive(a[1..], b[1..], c[1..]);
    }
  }

  lemma StringOrder()
    ensures TotalOrder(StringLeq)
  {
    forall a, b ensures (StringLeq(a, b) || StringLeq(b, a)) && (StringLeq(a, b) && StringLeq(b, a) ==> a == b) {
      StringLeqTotal(a, b);
    }
    forall a, b, c | StringLeq(a, b) && StringLeq(b, c) ensures StringLeq(a, c) {
      StringLeqTransitive(a, b, c);
    }
  }

  type Key = (string, TransportPattern)

  function Rank(t: TransportPattern): nat {
    if t.AnyTransport? then 0 else if t.OnlyTcp? then 1 else 2
  }

  predicate KeyLeq(a: Key, b: Key) {
    if a.0 == b.0 then Rank(a.1) <= Rank(b.1) else StringLeq(a.0, b.0)
  }

  lemma KeyOrder()
    ensures TotalOrder(KeyLeq)
  {
    hide StringLeq;
    StringOrder();
  }

  // ---------------------------------------------------------------------------
  // What was seen
  // ---------------------------------------------------------------------------

  function PatternOf(t: Option<Transport>): TransportPattern {
    if t.None? then AnyTransport else if t.value.Tcp? then OnlyTcp else OnlyUdp
  }

  function KeyOf(o: Observation): Key {
    (o.application, PatternOf(o.transport))
  }

  predicate Usable(ip: D.IpText, o: Observation) {
    D.Parse(ip, o.destination).Ok?
  }

  function Normalised(ip: D.IpText, o: Observation): string
    requires Usable(ip, o)
  {
    D.Print(ip, D.Parse(ip, o.destination).value)
  }

  /** The text of a destination some usable observation under this key reached. */
  predicate WasSeen(ip: D.IpText, os: seq<Observation>, key: Key, text: string) {
    exists i :: 0 <= i < |os| && Usable(ip, os[i]) && KeyOf(os[i]) == key && Normalised(ip, os[i]) == text
  }

  /** The grouping the loop builds: for each key seen, exactly the texts seen under it. */
  ghost predicate Groups(ip: D.IpText, os: seq<Observation>, byKey: map<Key, set<string>>) {
    && (forall key :: key in byKey ==> byKey[key] != {})
    && (forall key, text :: (key in byKey && text in byKey[key]) <==> WasSeen(ip, os, key, text))
  }

  function SkippedOf(ip: D.IpText, os: seq<Observation>): seq<(Observation, D.Error)> {
    if os == [] then []
    else
      var front, o := os[..|os| - 1], os[|os| - 1];
      var parsed := D.Parse(ip, o.destination);
      SkippedOf(ip, front) + (if parsed.Err? then [(o, parsed.error)] else [])
  }

  /** Skipped are exactly the observations that do not parse, with their errors, in order. */
  lemma {:induction false} SkippedAre(ip: D.IpText, os: seq<Observation>, o: Observation, e: D.Error)
    ensures (o, e) in SkippedOf(ip, os) <==> o in os && D.Parse(ip, o.destination) == Err(e)
  {
    hide D.Parse;
    if os != [] {
      var front := os[..|os| - 1];
      SkippedAre(ip, front, o, e);
      assert os == front + [os[|os| - 1]];
    }
  }

  lemma {:induction false} SkippedConcat(ip: D.IpText, a: seq<Observation>, b: seq<Observation>)
    ensures SkippedOf(ip, a + b) == SkippedOf(ip, a) + SkippedOf(ip, b)
  {
    hide D.Parse;
    if b == [] {
      assert a + b == a;
    } else {
      var front := b[..|b| - 1];
      assert (a + b)[..|a + b| - 1] == a + front && (a + b)[|a + b| - 1] == b[|b| - 1];
      SkippedConcat(ip, a, front);
    }
  }

  function Grouped(byKey: map<Key, set<string>>, key: Key, text: string): map<Key, set<string>> {
    byKey[key := (if key in byKey then byKey[key] else {}) + {text}]
  }

  lemma SeenSnoc(ip: D.IpText, os: seq<Observation>, o: Observation, key: Key, text: string)
    ensures WasSeen(ip, os + [o], key, text) <==>
            WasSeen(ip, os, key, text) || (Usable(ip, o) && KeyOf(o) == key && Normalised(ip, o) == text)
  {
    hide Usable, KeyOf, Normalised;
    var all := os + [o];
    assert all[|os|] == o;
    assert forall i :: 0 <= i < |os| ==> all[i] == os[i];
  }

  lemma GroupsSnoc(ip: D.IpText, os: seq<Observation>, o: Observation, byKey: map<Key, set<string>>)
    requires Groups(ip, os, byKey)
    ensures Groups(ip, os + [o],
                   if Usable(ip, o) then Grouped(byKey, KeyOf(o), Normalised(ip, o)) else byKey)
  {
    hide Usable, KeyOf, Normalised, WasSeen;
    var after := if Usable(ip, o) then Grouped(byKey, KeyOf(o), Normalised(ip, o)) else byKey;
    forall key, text
      ensures (key in after && text in after[key]) <==> WasSeen(ip, os + [o], key, text)
    {
      SeenSnoc(ip, os, o, key, text);
    }
  }

  lemma GroupHolds(ip: D.IpText, os: seq<Observation>, byKey: map<Key, set<string>>, key: Key, text: string)
    requires Groups(ip, os, byKey)
    ensures (key in byKey && text in byKey[key]) <==> WasSeen(ip, os, key, text)
    ensures key in byKey ==> byKey[key] != {}
  {
  }

  ghost predicate SawNoMore(ip: D.IpText, xs: seq<Observation>, ys: seq<Observation>) {
    forall key, text :: WasSeen(ip, xs, key, text) ==> WasSeen(ip, ys, key, text)
  }

  lemma KeyIsKept(ip: D.IpText, xs: seq<Observation>, ys: seq<Observation>,
                  a: map<Key, set<string>>, b: map<Key, set<string>>, key: Key)
    requires Groups(ip, xs, a) && Groups(ip, ys, b) && SawNoMore(ip, xs, ys) && key in a
    ensures key in b && a[key] <= b[key]
  {
    hide Groups, WasSeen;
    var some := GroupText(ip, xs, a, key);
    GroupHolds(ip, xs, a, key, some);
    GroupHolds(ip, ys, b, key, some);
    forall text | text in a[key] ensures text in b[key] {
      GroupHolds(ip, xs, a, key, text);
      GroupHolds(ip, ys, b, key, text);
    }
  }

  lemma GroupText(ip: D.IpText, os: seq<Observation>, byKey: map<Key, set<string>>, key: Key) returns (text: string)
    requires Groups(ip, os, byKey) && key in byKey
    ensures text in byKey[key]
  {
    text :| text in byKey[key];
  }

  /** Order, repetition and counts do not matter: the groups, and with them the draft,
      depend only on what was seen. */
  lemma SameSightingsSameGroups(ip: D.IpText, xs: seq<Observation>, ys: seq<Observation>,
                                a: map<Key, set<string>>, b: map<Key, set<string>>)
    requires Groups(ip, xs, a) && Groups(ip, ys, b) && SawNoMore(ip, xs, ys) && SawNoMore(ip, ys, xs)
    ensures a == b
  {
    hide Groups, SawNoMore;
    forall key | key in a ensures key in b && a[key] == b[key] {
      KeyIsKept(ip, xs, ys, a, b, key);
      KeyIsKept(ip, ys, xs, b, a, key);
    }
    forall key | key in b ensures key in a {
      KeyIsKept(ip, ys, xs, b, a, key);
    }
  }

  // ---------------------------------------------------------------------------
  // The draft
  // ---------------------------------------------------------------------------

  function AppOf(application: string): AppPattern {
    if application == "" || application == "*" then AnyApp else App(application)
  }

  function RuleId(key: Key): string {
    (if key.0 == "" then "any" else key.0)
    + (if key.1.AnyTransport? then "" else if key.1.OnlyTcp? then "-tcp" else "-udp")
    + "-observed"
  }

  /** Texts that came from printing a parsed destination. */
  ghost predicate IsPrinted(ip: D.IpText, text: string) {
    exists input :: D.Parse(ip, input).Ok? && D.Print(ip, D.Parse(ip, input).value) == text
  }

  lemma PrintedReparses(ip: D.IpText, text: string)
    requires D.Faithful(ip) && IsPrinted(ip, text)
    ensures D.ParseSpec(ip, text).Ok?
  {
    var input :| D.Parse(ip, input).Ok? && D.Print(ip, D.Parse(ip, input).value) == text;
    D.ParsedIsCanonical(ip, input);
    D.PrintedDestinationIsItsOwnPattern(ip, D.Parse(ip, input).value);
  }

  ghost predicate AllPrinted(ip: D.IpText, texts: set<string>) {
    forall text :: text in texts ==> IsPrinted(ip, text)
  }

  /** Each text parsed back as a pattern. The source would stop the program on a text
      that does not parse; for texts that were printed that never happens. */
  function SpecsOf(ip: D.IpText, texts: seq<string>): (specs: seq<D.DestinationSpec>)
    requires D.Faithful(ip) && forall i :: 0 <= i < |texts| ==> IsPrinted(ip, texts[i])
    ensures |specs| == |texts|
    ensures forall i :: 0 <= i < |texts| ==> D.ParseSpec(ip, texts[i]) == Ok(specs[i])
  {
    if texts == [] then []
    else
      PrintedReparses(ip, texts[0]);
      [D.ParseSpec(ip, texts[0]).value] + SpecsOf(ip, texts[1..])
  }

  function RuleFor(ip: D.IpText, key: Key, texts: set<string>): Rule
    requires D.Faithful(ip) && AllPrinted(ip, texts)
  {
    StringOrder();
    Rule(Some(RuleId(key)), AppOf(key.0), key.1, Allowing, SpecsOf(ip, Sorted(texts, StringLeq)))
  }

  /** The match that names everything an identity carries. */
  function MatchFromIdentity(id: WorkloadIdentity): MatchSpec {
    var branch := Branch(id);
    MatchSpec(id.organization, id.repository, id.workflow,
              if branch.Some? then None else id.gitRef, branch,
              id.environment, id.actor, id.kind)
  }

  const NO_TERMS := Terms(None, None, None, None, None, None, None, None, None)

  ghost predicate MapPrinted(ip: D.IpText, byKey: map<Key, set<string>>) {
    forall key :: key in byKey ==> AllPrinted(ip, byKey[key])
  }

  lemma SeenIsPrinted(ip: D.IpText, os: seq<Observation>, byKey: map<Key, set<string>>)
    requires Groups(ip, os, byKey)
    ensures MapPrinted(ip, byKey)
  {
    forall key, text | key in byKey && text in byKey[key] ensures IsPrinted(ip, text) {
      assert WasSeen(ip, os, key, text);
    }
  }

  function RulesOf(ip: D.IpText, byKey: map<Key, set<string>>): (rules: seq<Rule>)
    requires D.Faithful(ip) && MapPrinted(ip, byKey)
    ensures |rules| == |byKey|
  {
    KeyOrder();
    var keys := Sorted(byKey.Keys, KeyLeq);
    seq(|keys|, i requires 0 <= i < |keys| => assert keys[i] in byKey; RuleFor(ip, keys[i], byKey[keys[i]]))
  }

  function Draft(ip: D.IpText, name: string, identity: WorkloadIdentity, byKey: map<Key, set<string>>): Policy
    requires D.Faithful(ip) && MapPrinted(ip, byKey)
  {
    Policy(name, MatchFromIdentity(identity), NO_TERMS, RulesOf(ip, byKey), false)
  }

  /** The grouping loop: a map of sets that grows, and a list of what could not be read. */
  method GroupObservations(ip: D.IpText, observations: seq<Observation>)
    returns (byKey: map<Key, set<string>>, skipped: seq<(Observation, D.Error)>)
    ensures Groups(ip, observations, byKey) && skipped == SkippedOf(ip, observations)
  {
    hide Usable, KeyOf, Normalised, WasSeen, Groups, Grouped, D.Parse, D.Print;
    skipped := [];
    byKey := map[];
    NothingSeen(ip);
    for n := 0 to |observations|
      invariant Groups(ip, observations[..n], byKey)
      invariant skipped == SkippedOf(ip, observations[..n])
    {
      var o := observations[n];
      assert observations[..n + 1] == observations[..n] + [o];
      assert observations[..n + 1][..n] == observations[..n];
      GroupsSnoc(ip, observations[..n], o, byKey);
      UsableIs(ip, o);
      var parsed := D.Parse(ip, o.destination);
      if parsed.Ok? {
        byKey := Grouped(byKey, KeyOf(o), D.Print(ip, parsed.value));
      } else {
        skipped := skipped + [(o, parsed.error)];
      }
    }
    assert observations[..|observations|] == observations;
  }

  /** Group the observations, then write one rule a group. */
  method SuggestPolicy(ip: D.IpText, name: string, identity: WorkloadIdentity, observations: seq<Observation>)
    returns (policy: Policy, skipped: seq<(Observation, D.Error)>)
    requires D.Faithful(ip)
    ensures exists byKey :: Groups(ip, observations, byKey) && MapPrinted(ip, byKey)
                         && policy == Draft(ip, name, identity, byKey)
    ensures forall ctx :: Evaluate(policy, ctx).Allow? <==>
              exists i :: 0 <= i < |observations| && Witnesses(ip, observations[i], ctx)
    ensures Accepts(policy.matching, identity)
    ensures policy.name == name && !policy.baseline
    ensures policy.terms == Terms(None, None, None, None, None, None, None, None, None)
    ensures skipped == SkippedOf(ip, observations)
  {
    hide Groups, RulesOf, MapPrinted, MatchFromIdentity, Accepts, Evaluate, Witnesses, SkippedOf, D.Faithful;
    var byKey;
    byKey, skipped := GroupObservations(ip, observations);
    SeenIsPrinted(ip, observations, byKey);
    var rules := WriteRules(ip, byKey);
    policy := Policy(name, MatchFromIdentity(identity), NO_TERMS, rules, false);
    assert policy == Draft(ip, name, identity, byKey);
    MatchAcceptsTheObserved(identity);
    forall ctx ensures Evaluate(policy, ctx).Allow? <==>
                exists i :: 0 <= i < |observations| && Witnesses(ip, observations[i], ctx)
    {
      DraftIsExact(ip, name, identity, observations, byKey, ctx);
    }
  }

  lemma NothingSeen(ip: D.IpText)
    ensures Groups(ip, [], map[])
  {
  }

  lemma UsableIs(ip: D.IpText, o: Observation)
    ensures Usable(ip, o) <==> D.Parse(ip, o.destination).Ok?
    ensures Usable(ip, o) ==> Normalised(ip, o) == D.Print(ip, D.Parse(ip, o.destination).value)
  {
  }

  method WriteRules(ip: D.IpText, byKey: map<Key, set<string>>) returns (rules: seq<Rule>)
    requires D.Faithful(ip) && MapPrinted(ip, byKey)
    ensures rules == RulesOf(ip, byKey)
  {
    hide D.Faithful, RuleFor, KeyLeq;
    KeyOrder();
    var keys := Sorted(byKey.Keys, KeyLeq);
    rules := [];
    for i := 0 to |keys|
      invariant |rules| == i
      invariant forall k :: 0 <= k < i ==> keys[k] in byKey && rules[k] == RuleFor(ip, keys[k], byKey[keys[k]])
    {
      assert keys[i] in byKey.Keys;
      rules := rules + [RuleFor(ip, keys[i], byKey[keys[i]])];
    }
  }

  /** The rule ids: the application, or `any`, the transport if the rule has one, and
      `observed`. */
  lemma RuleIds(application: string)
    ensures RuleId(("", AnyTransport)) == "any-observed"
    ensures RuleId(("", OnlyTcp)) == "any-tcp-observed" && RuleId(("", OnlyUdp)) == "any-udp-observed"
    ensures application != "" ==>
              && RuleId((application, AnyTransport)) == application + "-observed"
              && RuleId((application, OnlyTcp)) == application + "-tcp-observed"
              && RuleId((application, OnlyUdp)) == application + "-udp-observed"
  {
    assert application + "" == application;
    assert "-tcp" + "-observed" == "-tcp-observed" && "-udp" + "-observed" == "-udp-observed";
    assert application + "-tcp" + "-observed" == application + ("-tcp" + "-observed");
    assert application + "-udp" + "-observed" == application + ("-udp" + "-observed");
    assert "any" + "" + "-observed" == "any-observed";
    assert "any" + "-tcp" + "-observed" == "any-tcp-observed" && "any" + "-udp" + "-observed" == "any-udp-observed";
  }

  /** The two agree on `k` characters, and then `a` ends first or has the smaller one. */
  ghost predicate ComesFirstAt(a: string, b: string, k: int) {
    && 0 <= k <= |a| && k < |b|
    && (forall i :: 0 <= i < k ==> a[i] == b[i])
    && (k == |a| || a[k] < b[k])
  }

  /** Dictionary order. */
  ghost predicate Before(a: string, b: string) {
    exists k :: ComesFirstAt(a, b, k)
  }

  lemma BeforeUnrolls(a: string, b: string)
    requires a != [] && b != []
    ensures Before(a, b) <==> a[0] < b[0] || (a[0] == b[0] && Before(a[1..], b[1..]))
  {
    if k :| ComesFirstAt(a, b, k) {
      if k > 0 {
        assert ComesFirstAt(a[1..], b[1..], k - 1);
      }
    }
    if a[0] < b[0] {
      assert ComesFirstAt(a, b, 0);
    }
    if k :| a[0] == b[0] && ComesFirstAt(a[1..], b[1..], k) {
      assert forall i :: 0 < i <= k ==> a[i] == a[1..][i - 1] && b[i] == b[1..][i - 1];
      assert ComesFirstAt(a, b, k + 1);
    }
  }

  lemma {:induction false} StringLeqIsDictionaryOrder(a: string, b: string)
    ensures StringLeq(a, b) <==> a == b || Before(a, b)
    decreases |a|
  {
    hide Before;
    if a == [] {
      EmptyComesFirst(b);
    } else if b == [] {
      NothingBeforeEmpty(a);
    } else {
      StringLeqIsDictionaryOrder(a[1..], b[1..]);
      BeforeUnrolls(a, b);
      assert a == [a[0]] + a[1..] && b == [b[0]] + b[1..];
    }
  }

  lemma EmptyComesFirst(b: string)
    ensures b != [] ==> Before([], b)
  {
    if b != [] { assert ComesFirstAt([], b, 0); }
  }

  lemma NothingBeforeEmpty(a: string)
    ensures !Before(a, [])
  {
  }

  /** The draft's rules come in the order of their applications, and for one application any
      transport before TCP before UDP. */
  lemma DraftIsInOrder(ip: D.IpText, byKey: map<Key, set<string>>, i: nat, j: nat) returns (a: Key, b: Key)
    requires D.Faithful(ip) && MapPrinted(ip, byKey) && i < j < |RulesOf(ip, byKey)|
    ensures a in byKey && RulesOf(ip, byKey)[i] == RuleFor(ip, a, byKey[a])
    ensures b in byKey && RulesOf(ip, byKey)[j] == RuleFor(ip, b, byKey[b])
    ensures || Before(a.0, b.0)
            || (a.0 == b.0 && a.1.AnyTransport? && !b.1.AnyTransport?)
            || (a.0 == b.0 && a.1.OnlyTcp? && b.1.OnlyUdp?)
  {
    hide D.Faithful, RuleFor, StringLeq, Before;
    KeyOrder();
    var keys := Sorted(byKey.Keys, KeyLeq);
    a, b := keys[i], keys[j];
    assert a in byKey.Keys && b in byKey.Keys && KeyLeq(a, b) && a != b;
    StringLeqIsDictionaryOrder(a.0, b.0);
  }

  /** Each rule lists its destinations in order. */
  lemma DestinationsAreInOrder(ip: D.IpText, key: Key, texts: set<string>, i: nat, j: nat)
    returns (a: string, b: string)
    requires D.Faithful(ip) && AllPrinted(ip, texts) && i < j < |RuleFor(ip, key, texts).destinations|
    ensures |RuleFor(ip, key, texts).destinations| == |texts|
    ensures a in texts && D.ParseSpec(ip, a) == Ok(RuleFor(ip, key, texts).destinations[i])
    ensures b in texts && D.ParseSpec(ip, b) == Ok(RuleFor(ip, key, texts).destinations[j])
    ensures Before(a, b)
  {
    hide D.Faithful, StringLeq, Before, D.ParseSpec;
    StringOrder();
    var sorted := Sorted(texts, StringLeq);
    a, b := sorted[i], sorted[j];
    assert a in sorted && b in sorted;
    StringLeqIsDictionaryOrder(a, b);
  }

  // ---------------------------------------------------------------------------
  // The draft allows exactly what was observed
  // ---------------------------------------------------------------------------

  /** Observation `i` is a usable sighting of just this request. */
  ghost predicate Witnesses(ip: D.IpText, o: Observation, ctx: Request) {
    && D.Parse(ip, o.destination) == Ok(ctx.destination)
    && (o.transport.None? || o.transport.value == ctx.transport)
    && (o.application == "" || o.application == "*" || EqIgnoreCase(o.application, ctx.application))
  }

  lemma RuleForSpeaks(ip: D.IpText, key: Key, texts: set<string>, ctx: Request)
    requires D.Faithful(ip) && AllPrinted(ip, texts)
    ensures Speaks(RuleFor(ip, key, texts), ctx) <==>
            && AppMatches(AppOf(key.0), ctx.application) && TransportMatches(key.1, ctx.transport)
            && exists text :: text in texts && D.ParseSpec(ip, text).Ok?
                           && D.Matches(D.ParseSpec(ip, text).value, ctx.destination)
  {
    hide D.ParseSpec, D.Matches, AppMatches, TransportMatches, D.Faithful, IsPrinted;
  }

  /** The text seen matches a destination exactly when it is that destination's own sighting. */
  lemma SightingMatches(ip: D.IpText, o: Observation, d: D.Destination)
    requires D.Faithful(ip) && Usable(ip, o)
    ensures D.ParseSpec(ip, Normalised(ip, o)).Ok?
    ensures D.Matches(D.ParseSpec(ip, Normalised(ip, o)).value, d) <==> D.Parse(ip, o.destination) == Ok(d)
  {
    hide D.Parse, D.ParseSpec, D.Matches, D.Print, D.Faithful;
    D.ParsedIsCanonical(ip, o.destination);
    D.PrintedDestinationIsItsOwnPattern(ip, D.Parse(ip, o.destination).value);
  }

  lemma KeyCovers(o: Observation, ctx: Request)
    ensures (AppMatches(AppOf(KeyOf(o).0), ctx.application) && TransportMatches(KeyOf(o).1, ctx.transport)) <==>
            && (o.transport.None? || o.transport.value == ctx.transport)
            && (o.application == "" || o.application == "*" || EqIgnoreCase(o.application, ctx.application))
  {
  }

  /** Every rule of the draft is the rule of one of its keys. */
  lemma RuleHasKey(ip: D.IpText, byKey: map<Key, set<string>>, i: nat) returns (key: Key)
    requires D.Faithful(ip) && MapPrinted(ip, byKey) && i < |RulesOf(ip, byKey)|
    ensures key in byKey && RulesOf(ip, byKey)[i] == RuleFor(ip, key, byKey[key])
  {
    hide D.Faithful, RuleFor, KeyLeq;
    KeyOrder();
    key := Sorted(byKey.Keys, KeyLeq)[i];
    assert key in byKey.Keys;
  }

  /** Every key of the draft has its rule. */
  lemma KeyHasRule(ip: D.IpText, byKey: map<Key, set<string>>, key: Key) returns (i: nat)
    requires D.Faithful(ip) && MapPrinted(ip, byKey) && key in byKey
    ensures i < |RulesOf(ip, byKey)| && RulesOf(ip, byKey)[i] == RuleFor(ip, key, byKey[key])
  {
    hide D.Faithful, RuleFor, KeyLeq;
    KeyOrder();
    assert key in byKey.Keys;
    i :| 0 <= i < |Sorted(byKey.Keys, KeyLeq)| && Sorted(byKey.Keys, KeyLeq)[i] == key;
  }

  /** A rule of the draft speaks only about requests somebody witnessed. */
  lemma SpokenIsWitnessed(ip: D.IpText, os: seq<Observation>, byKey: map<Key, set<string>>, key: Key, ctx: Request)
    requires D.Faithful(ip) && Groups(ip, os, byKey) && key in byKey && AllPrinted(ip, byKey[key])
    requires Speaks(RuleFor(ip, key, byKey[key]), ctx)
    ensures exists i :: 0 <= i < |os| && Witnesses(ip, os[i], ctx)
  {
    hide D.Faithful, RuleFor, Groups, Speaks, AllPrinted, D.ParseSpec, D.Matches, Usable, Normalised, KeyOf,
         AppMatches, TransportMatches, AppOf;
    RuleForSpeaks(ip, key, byKey[key], ctx);
    var text :| text in byKey[key] && D.ParseSpec(ip, text).Ok?
             && D.Matches(D.ParseSpec(ip, text).value, ctx.destination);
    GroupHolds(ip, os, byKey, key, text);
    var i :| 0 <= i < |os| && Usable(ip, os[i]) && KeyOf(os[i]) == key && Normalised(ip, os[i]) == text;
    SightingMatches(ip, os[i], ctx.destination);
    KeyCovers(os[i], ctx);
    assert Witnesses(ip, os[i], ctx);
  }

  /** What was witnessed, the rule of its key speaks about. */
  lemma WitnessedIsSpoken(ip: D.IpText, os: seq<Observation>, byKey: map<Key, set<string>>, i: nat, ctx: Request)
    requires D.Faithful(ip) && Groups(ip, os, byKey) && i < |os| && Witnesses(ip, os[i], ctx)
    ensures MapPrinted(ip, byKey)
    ensures var key := KeyOf(os[i]); key in byKey && Speaks(RuleFor(ip, key, byKey[key]), ctx)
  {
    hide D.Faithful, RuleFor, Groups, Speaks, AllPrinted, D.ParseSpec, D.Matches, Normalised, KeyOf, AppMatches,
         TransportMatches, AppOf;
    SeenIsPrinted(ip, os, byKey);
    var o := os[i];
    var key, text := KeyOf(o), Normalised(ip, o);
    assert WasSeen(ip, os, key, text);
    GroupHolds(ip, os, byKey, key, text);
    SightingMatches(ip, o, ctx.destination);
    KeyCovers(o, ctx);
    RuleForSpeaks(ip, key, byKey[key], ctx);
  }

  /** The draft allows a request exactly when some usable observation has that
      destination, a transport that covers it, and the same application ignoring case,
      an empty one or a star standing for every application. */
  lemma DraftIsExact(ip: D.IpText, name: string, identity: WorkloadIdentity, os: seq<Observation>,
                     byKey: map<Key, set<string>>, ctx: Request)
    requires D.Faithful(ip) && Groups(ip, os, byKey) && MapPrinted(ip, byKey)
    ensures Evaluate(Draft(ip, name, identity, byKey), ctx).Allow? <==>
            exists i :: 0 <= i < |os| && Witnesses(ip, os[i], ctx)
  {
    hide D.Faithful, RuleFor, Groups, Speaks, Evaluate, RulesOf, Witnesses, MapPrinted, MatchFromIdentity;
    var p := Draft(ip, name, identity, byKey);
    if Evaluate(p, ctx).Allow? {
      AllowedIsWitnessed(ip, p, os, byKey, ctx);
    }
    if i :| 0 <= i < |os| && Witnesses(ip, os[i], ctx) {
      WitnessedIsAllowed(ip, p, os, byKey, i, ctx);
    }
  }

  lemma AllowedIsWitnessed(ip: D.IpText, p: Policy, os: seq<Observation>, byKey: map<Key, set<string>>, ctx: Request)
    requires D.Faithful(ip) && Groups(ip, os, byKey) && MapPrinted(ip, byKey)
    requires p.rules == RulesOf(ip, byKey) && Evaluate(p, ctx).Allow?
    ensures exists i :: 0 <= i < |os| && Witnesses(ip, os[i], ctx)
  {
    hide D.Faithful, RuleFor, Groups, Speaks, Evaluate, RulesOf, Witnesses;
    FirstToSpeakDecides(p, ctx);
    var i :| IsFirstToSpeak(p, ctx, i) && p.rules[i].action.Allowing?;
    var key := RuleHasKey(ip, byKey, i);
    SpokenIsWitnessed(ip, os, byKey, key, ctx);
  }

  lemma WitnessedIsAllowed(ip: D.IpText, p: Policy, os: seq<Observation>, byKey: map<Key, set<string>>, i: nat,
                           ctx: Request)
    requires D.Faithful(ip) && Groups(ip, os, byKey) && MapPrinted(ip, byKey)
    requires p.rules == RulesOf(ip, byKey) && i < |os| && Witnesses(ip, os[i], ctx)
    ensures Evaluate(p, ctx).Allow?
  {
    hide D.Faithful, RuleFor, Groups, Speaks, Evaluate, RulesOf, Witnesses;
    WitnessedIsSpoken(ip, os, byKey, i, ctx);
    var r := KeyHasRule(ip, byKey, KeyOf(os[i]));
    assert Speaks(p.rules[r], ctx);
    DraftOnlyAllows(ip, byKey);
    AllAllowing(p, ctx);
  }

  lemma DraftOnlyAllows(ip: D.IpText, byKey: map<Key, set<string>>)
    requires D.Faithful(ip) && MapPrinted(ip, byKey)
    ensures forall i :: 0 <= i < |RulesOf(ip, byKey)| ==> RulesOf(ip, byKey)[i].action.Allowing?
  {
  }

  /** Where every rule allows, one that speaks is enough. */
  lemma AllAllowing(p: Policy, ctx: Request)
    requires forall i :: 0 <= i < |p.rules| ==> p.rules[i].action.Allowing?
    requires exists i :: 0 <= i < |p.rules| && Speaks(p.rules[i], ctx)
    ensures Evaluate(p, ctx).Allow?
  {
    hide Evaluate, Speaks;
    FirstToSpeakDecides(p, ctx);
    if forall k :: !IsFirstToSpeak(p, ctx, k) {
      var i :| 0 <= i < |p.rules| && Speaks(p.rules[i], ctx);
      SilentUpTo(p, ctx, i);
    }
  }

  /** The host `a` on port 1, as text. */
  lemma NamedHostParses(ip: D.IpText)
    requires D.Faithful(ip)
    ensures D.Parse(ip, "a:1") == Ok(D.Destination(D.Name("a"), 1))
  {
    var text := "a:1";
    TrimOfUntrimmed(text);
    LastIndexOfIs(text, ':', 1);
    assert text[..1] == "a" && text[2..] == "1";
    assert D.SplitHostPort(text) == Some(("a", "1"));
    assert "1"[..0] == "" && DigitsValue("1") == 1;
    assert ip.read("a").None? by {
      assert Lacks("a", ':') && !D.IsV4Char("a"[0]);
    }
    assert Lower("a") == "a";
  }

  /** More than was seen: one sighting of that host, by an unnamed application, and the draft
      allows every application to reach it, `curl` among them, which no observation names. */
  lemma UnnamedApplicationAllowsAll(ip: D.IpText, name: string, identity: WorkloadIdentity, byKey: map<Key,
                                    set<string>>,
                                    transport: Transport)
    requires D.Faithful(ip) && MapPrinted(ip, byKey)
    requires Groups(ip, [Observation("", None, "a:1", 1)], byKey)
    ensures var ctx := Request(identity, "curl", transport, D.Destination(D.Name("a"), 1), None);
            Evaluate(Draft(ip, name, identity, byKey), ctx).Allow?
  {
    hide D.Parse, Evaluate, RulesOf, Groups, MapPrinted;
    NamedHostParses(ip);
    var os := [Observation("", None, "a:1", 1)];
    var ctx := Request(identity, "curl", transport, D.Destination(D.Name("a"), 1), None);
    assert Witnesses(ip, os[0], ctx);
    DraftIsExact(ip, name, identity, os, byKey, ctx);
  }

  // ---------------------------------------------------------------------------
  // Whom the draft governs
  // ---------------------------------------------------------------------------

  /** The draft's match accepts exactly the identities that agree with the observed one on
      every field it carries: organisation and repository ignoring case (a repository
      observed without an owner also by short name), the ref whole, although a branch ref
      is written as a branch name. */
  lemma MatchAcceptsExactly(id: WorkloadIdentity, other: WorkloadIdentity)
    ensures Accepts(MatchFromIdentity(id), other) <==>
            && (id.organization.Some? ==> SameIgnoringCase(id.organization.value, other.organization))
            && (id.repository.Some? ==> RepositoryMatches(id.repository.value, other.repository))
            && (id.workflow.Some? ==> other.workflow == id.workflow)
            && (id.gitRef.Some? ==> other.gitRef == id.gitRef)
            && (id.environment.Some? ==> other.environment == id.environment)
            && (id.actor.Some? ==> other.actor == id.actor)
            && (id.kind.Some? ==> other.kind == id.kind)
  {
    if Branch(id).Some? && Branch(other) == Branch(id) {
      var a, b, n := id.gitRef.value, other.gitRef.value, |BRANCH_PREFIX|;
      assert a == a[..n] + a[n..] && b == b[..n] + b[n..];
      assert a[..n] == BRANCH_PREFIX == b[..n];
    }
  }

  lemma MatchAcceptsTheObserved(id: WorkloadIdentity)
    ensures Accepts(MatchFromIdentity(id), id)
  {
    MatchAcceptsExactly(id, id);
  }

  /** As a set of its own, the draft decides for the observed workload by the
      observations alone, and refuses every workload its match does not accept. */
  lemma DraftAsASet(ip: D.IpText, name: string, identity: WorkloadIdentity, os: seq<Observation>,
                    byKey: map<Key, set<string>>, ctx: Request)
    requires D.Faithful(ip) && Groups(ip, os, byKey) && MapPrinted(ip, byKey) && ctx.pin.None?
    ensures EvaluateSet([Draft(ip, name, identity, byKey)], ctx).Allow? <==>
            && Accepts(MatchFromIdentity(identity), ctx.workload)
            && exists i :: 0 <= i < |os| && Witnesses(ip, os[i], ctx)
  {
    hide D.Faithful, Groups, Evaluate, RulesOf, Witnesses, Accepts, MatchFromIdentity, Objection;
    var p := Draft(ip, name, identity, byKey);
    DraftIsExact(ip, name, identity, os, byKey, ctx);
    LoneCandidate(p, ctx.workload);
    LoneObjection(p, ctx);
  }

  lemma LoneCandidate(p: Policy, id: WorkloadIdentity)
    requires !p.baseline
    ensures Select([p], id) == if Accepts(p.matching, id) then Some(p) else None
  {
    assert [p][1..] == [];
    assert Candidates([], id) == [];
    assert Candidates([p], id) == if Accepts(p.matching, id) then [p] else [];
  }

  lemma LoneObjection(p: Policy, ctx: Request)
    requires !p.baseline
    ensures Objection([p], ctx).None?
  {
    ObjectionOfOne(p, ctx);
  }
}
