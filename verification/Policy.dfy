/**
 The policy engine: which policy governs a workload, what its rules say about a request,
 and what baselines and a pinned policy name take away from that.
 */
module PolicyEngine {
  import opened Common
  import opened Chars
  import opened Destination

  // ---------------------------------------------------------------------------
  // Who is asking
  // ---------------------------------------------------------------------------

  datatype WorkloadKind = Developer | Ci | Agent

  datatype WorkloadIdentity = WorkloadIdentity(
    organization: Option<string>,
    repository: Option<string>,
    workflow: Option<string>,
    gitRef: Option<string>,
    environment: Option<string>,
    actor: Option<string>,
    kind: Option<WorkloadKind>)

  const BRANCH_PREFIX := "refs/heads/"

  /** The branch name, when the ref is a branch. */
  function Branch(id: WorkloadIdentity): Option<string> {
    if id.gitRef.Some? && BRANCH_PREFIX <= id.gitRef.value then Some(id.gitRef.value[|BRANCH_PREFIX|..])
    else None
  }

  /** The part of a repository name after its last slash. */
  function ShortName(repository: string): (name: string)
    ensures Lacks(name, '/') && EndsWith(repository, name)
  {
    var slash := LastIndexOf(repository, '/');
    if slash < |repository| then repository[slash + 1..] else repository
  }

  datatype MatchSpec = MatchSpec(
    organization: Option<string>,
    repository: Option<string>,
    workflow: Option<string>,
    gitRef: Option<string>,
    branch: Option<string>,
    environment: Option<string>,
    actor: Option<string>,
    kind: Option<WorkloadKind>)

  predicate UnsetOrEqual<T(==)>(want: Option<T>, got: Option<T>) {
    want.None? || want == got
  }

  predicate SameIgnoringCase(want: string, got: Option<string>) {
    got.Some? && EqIgnoreCase(got.value, want)
  }

  predicate RepositoryMatches(want: string, got: Option<string>) {
    got.Some? && (EqIgnoreCase(got.value, want) || EqIgnoreCase(ShortName(got.value), want))
  }

  predicate Accepts(m: MatchSpec, id: WorkloadIdentity) {
    && (m.organization.Some? ==> SameIgnoringCase(m.organization.value, id.organization))
    && (m.repository.Some? ==> RepositoryMatches(m.repository.value, id.repository))
    && UnsetOrEqual(m.workflow, id.workflow)
    && UnsetOrEqual(m.gitRef, id.gitRef)
    && UnsetOrEqual(m.branch, Branch(id))
    && UnsetOrEqual(m.environment, id.environment)
    && UnsetOrEqual(m.actor, id.actor)
    && UnsetOrEqual(m.kind, id.kind)
  }

  /** A repository written with an owner is matched by that owner's repository alone; one
      written without is matched by every repository of that name. */
  lemma RepositoryRule(want: string, got: string)
    ensures !Lacks(want, '/') ==> (RepositoryMatches(want, Some(got)) <==> Lower(got) == Lower(want))
    ensures Lacks(want, '/') ==> (RepositoryMatches(want, Some(got)) <==> Lower(ShortName(got)) == Lower(want))
    ensures !RepositoryMatches(want, None)
  {
    var short := ShortName(got);
    if !Lacks(want, '/') {
      var i :| 0 <= i < |want| && want[i] == '/';
      assert Lower(want)[i] == '/';
      assert forall k :: 0 <= k < |short| ==> Lower(short)[k] == LowerChar(short[k]) != '/';
    } else if Lower(got) == Lower(want) {
      forall i | 0 <= i < |got| ensures got[i] != '/' {
        assert Lower(got)[i] == LowerChar(want[i]);
      }
      assert short == got;
    }
  }

  /** A match accepts an identity when every field it sets is present and equal, the
      organisation and the repository up to letter case; a branch is the ref
      `refs/heads/` with the branch behind it. */
  lemma AcceptsRule(m: MatchSpec, id: WorkloadIdentity)
    ensures Accepts(m, id) <==>
            && (m.organization.Some? ==>
                  id.organization.Some? && Lower(id.organization.value) == Lower(m.organization.value))
            && (m.repository.Some? ==> RepositoryMatches(m.repository.value, id.repository))
            && (m.workflow.Some? ==> id.workflow == m.workflow)
            && (m.gitRef.Some? ==> id.gitRef == m.gitRef)
            && (m.branch.Some? ==> id.gitRef == Some("refs/heads/" + m.branch.value))
            && (m.environment.Some? ==> id.environment == m.environment)
            && (m.actor.Some? ==> id.actor == m.actor)
            && (m.kind.Some? ==> id.kind == m.kind)
  {
    if m.branch.Some? {
      BranchRule(id, m.branch.value);
    }
  }

  lemma BranchRule(id: WorkloadIdentity, branch: string)
    ensures Branch(id) == Some(branch) <==> id.gitRef == Some("refs/heads/" + branch)
  {
    var whole := "refs/heads/" + branch;
    assert BRANCH_PREFIX <= whole && whole[|BRANCH_PREFIX|..] == branch;
    if Branch(id).Some? {
      var r := id.gitRef.value;
      assert r[..|BRANCH_PREFIX|] == BRANCH_PREFIX;
      assert r == r[..|BRANCH_PREFIX|] + r[|BRANCH_PREFIX|..];
    }
  }

  function Count<T>(o: Option<T>): nat {
    if o.Some? then 1 else 0
  }

  /** How many fields a match constrains. */
  function Specificity(m: MatchSpec): nat {
    Count(m.organization) + Count(m.repository) + Count(m.workflow) + Count(m.gitRef)
    + Count(m.branch) + Count(m.environment) + Count(m.actor) + Count(m.kind)
  }

  const UNCONSTRAINED := MatchSpec(None, None, None, None, None, None, None, None)

  /** Specificity counts the fields that are set, each for one. */
  lemma EachFieldCountsOnce(m: MatchSpec, text: string, kind: WorkloadKind)
    ensures Specificity(UNCONSTRAINED) == 0
    ensures m.organization.None? ==> Specificity(m.(organization := Some(text))) == Specificity(m) + 1
    ensures m.repository.None? ==> Specificity(m.(repository := Some(text))) == Specificity(m) + 1
    ensures m.workflow.None? ==> Specificity(m.(workflow := Some(text))) == Specificity(m) + 1
    ensures m.gitRef.None? ==> Specificity(m.(gitRef := Some(text))) == Specificity(m) + 1
    ensures m.branch.None? ==> Specificity(m.(branch := Some(text))) == Specificity(m) + 1
    ensures m.environment.None? ==> Specificity(m.(environment := Some(text))) == Specificity(m) + 1
    ensures m.actor.None? ==> Specificity(m.(actor := Some(text))) == Specificity(m) + 1
    ensures m.kind.None? ==> Specificity(m.(kind := Some(kind))) == Specificity(m) + 1
  {
  }

  // ---------------------------------------------------------------------------
  // Rules and policies
  // ---------------------------------------------------------------------------

  datatype Transport = Tcp | Udp

  datatype TransportPattern = AnyTransport | OnlyTcp | OnlyUdp

  predicate TransportMatches(p: TransportPattern, t: Transport) {
    p.AnyTransport? || (p.OnlyTcp? && t.Tcp?) || (p.OnlyUdp? && t.Udp?)
  }

  datatype AppPattern = AnyApp | App(name: string)

  predicate AppMatches(p: AppPattern, application: string) {
    p.AnyApp? || EqIgnoreCase(p.name, application)
  }

  datatype Action = Allowing | Denying

  datatype Rule = Rule(
    id: Option<string>,
    application: AppPattern,
    transport: TransportPattern,
    action: Action,
    destinations: seq<DestinationSpec>)

  /** The terms an allowed request runs under. */
  datatype Terms = Terms(
    maxDuration: Option<nat>,
    egressRegion: Option<string>,
    egressPool: Option<string>,
    bandwidth: Option<nat>,
    totalBytes: Option<nat>,
    connections: Option<nat>,
    destinations: Option<nat>,
    connectionRate: Option<(nat, nat)>,
    packetRate: Option<nat>)

  datatype Policy = Policy(name: string, matching: MatchSpec, terms: Terms, rules: seq<Rule>, baseline: bool)

  datatype Request = Request(
    workload: WorkloadIdentity,
    application: string,
    transport: Transport,
    destination: Destination,
    pin: Option<string>)

  datatype DenyReason =
    | NoPolicyMatch
    | NoMatchingAllowRule
    | ExplicitDeny(rule: string)
    | PolicyMismatch(requested: string, selected: Option<string>)
    | Baseline(policy: string, rule: string)

  datatype Decision =
    | Allow(allowedBy: string, rule: string, terms: Terms)
    | Deny(consulted: Option<string>, reason: DenyReason)

  predicate Covers(r: Rule, application: string, transport: Transport) {
    AppMatches(r.application, application) && TransportMatches(r.transport, transport)
  }

  /** The rule says something about this request. */
  predicate Speaks(r: Rule, ctx: Request) {
    Covers(r, ctx.application, ctx.transport)
    && exists i :: 0 <= i < |r.destinations| && Matches(r.destinations[i], ctx.destination)
  }

  /** A rule speaks about a request when its application is a star or the same name up to
      letter case, its transport is any or the same, and one of its patterns matches. */
  lemma SpeaksRule(r: Rule, ctx: Request)
    ensures Speaks(r, ctx) <==>
            && (r.application == AnyApp || Lower(r.application.name) == Lower(ctx.application))
            && (r.transport == AnyTransport || r.transport == (if ctx.transport == Tcp then OnlyTcp else OnlyUdp))
            && exists spec :: spec in r.destinations && Matches(spec, ctx.destination)
  {
  }

  /** A rule is called by its id, or by its place. */
  lemma RuleLabelText(r: Rule, index: nat)
    ensures RuleLabel(r, index) == if r.id.None? then "rule #" + PrintNat(index) else r.id.value
    ensures DigitsValue(PrintNat(index)) == index
  {
    DigitsRoundTrip(index);
  }

  function RuleLabel(r: Rule, index: nat): string {
    if r.id.Some? then r.id.value else "rule #" + PrintNat(index)
  }

  // ---------------------------------------------------------------------------
  // Evaluation, as the engine scans
  // ---------------------------------------------------------------------------

  /** One policy's verdict, scanning from rule `from` on. */
  function EvaluateFrom(p: Policy, ctx: Request, from: nat): Decision
    requires from <= |p.rules|
    decreases |p.rules| - from
  {
    if from == |p.rules| then Deny(Some(p.name), NoMatchingAllowRule)
    else
      var r := p.rules[from];
      if !Speaks(r, ctx) then EvaluateFrom(p, ctx, from + 1)
      else if r.action.Allowing? then Allow(p.name, RuleLabel(r, from), p.terms)
      else Deny(Some(p.name), ExplicitDeny(RuleLabel(r, from)))
  }

  function Evaluate(p: Policy, ctx: Request): Decision {
    EvaluateFrom(p, ctx, 0)
  }

  predicate IsCandidate(p: Policy, id: WorkloadIdentity) {
    !p.baseline && Accepts(p.matching, id)
  }

  function Candidates(ps: seq<Policy>, id: WorkloadIdentity): seq<Policy> {
    if ps == [] then []
    else if IsCandidate(ps[0], id) then [ps[0]] + Candidates(ps[1..], id)
    else Candidates(ps[1..], id)
  }

  /** The order candidates are compared by: specificity, then the smaller index. */
  predicate KeyAtMost(cs: seq<Policy>, i: nat, j: nat)
    requires i < |cs| && j < |cs|
  {
    var a, b := Specificity(cs[i].matching), Specificity(cs[j].matching);
    a < b || (a == b && i >= j)
  }

  /** The index of the greatest key among the first `n` candidates, scanning as an
      iterator's maximum does: a later element replaces an earlier one of no greater key. */
  function MaxByKey(cs: seq<Policy>, n: nat): (k: nat)
    requires 0 < n <= |cs|
    ensures k < n
  {
    if n == 1 then 0
    else
      var k := MaxByKey(cs, n - 1);
      if KeyAtMost(cs, k, n - 1) then n - 1 else k
  }

  function Select(ps: seq<Policy>, id: WorkloadIdentity): Option<Policy> {
    var cs := Candidates(ps, id);
    if cs == [] then None else Some(cs[MaxByKey(cs, |cs|)])
  }

  /** A baseline's first denying rule that speaks, from `from` on. */
  function GuardFrom(p: Policy, ctx: Request, from: nat): Option<nat>
    requires from <= |p.rules|
    decreases |p.rules| - from
  {
    if from == |p.rules| then None
    else if p.rules[from].action.Denying? && Speaks(p.rules[from], ctx) then Some(from)
    else GuardFrom(p, ctx, from + 1)
  }

  predicate Guards(p: Policy, id: WorkloadIdentity) {
    p.baseline && Accepts(p.matching, id)
  }

  /** The first objection any matching baseline raises. */
  function Objection(ps: seq<Policy>, ctx: Request): Option<Decision> {
    if ps == [] then None
    else
      var p := ps[0];
      var hit := if Guards(p, ctx.workload) then GuardFrom(p, ctx, 0) else None;
      if hit.Some? && hit.value < |p.rules| then
        Some(Deny(Some(p.name), Baseline(p.name, RuleLabel(p.rules[hit.value], hit.value))))
      else Objection(ps[1..], ctx)
  }

  function WithBaseline(ps: seq<Policy>, decision: Decision, ctx: Request): Decision {
    if decision.Deny? then decision
    else
      var objection := Objection(ps, ctx);
      if objection.Some? then objection.value else decision
  }

  function EvaluateSet(ps: seq<Policy>, ctx: Request): Decision {
    var selected := Select(ps, ctx.workload);
    var selectedName := if selected.Some? then Some(selected.value.name) else None;
    if ctx.pin.Some? && selectedName != ctx.pin then
      Deny(selectedName, PolicyMismatch(ctx.pin.value, selectedName))
    else if selected.Some? then WithBaseline(ps, Evaluate(selected.value, ctx), ctx)
    else Deny(None, NoPolicyMatch)
  }

  /** The first policy of that name. */
  function Get(ps: seq<Policy>, name: string): Option<Policy> {
    if ps == [] then None else if ps[0].name == name then Some(ps[0]) else Get(ps[1..], name)
  }

  function EvaluateNamed(ps: seq<Policy>, name: string, ctx: Request): Option<Decision> {
    var p := Get(ps, name);
    if p.None? then None else Some(WithBaseline(ps, Evaluate(p.value, ctx), ctx))
  }

  // ---------------------------------------------------------------------------
  // The same, said without scanning
  // ---------------------------------------------------------------------------

  /** Rule `i` is the first that speaks. */
  ghost predicate IsFirstToSpeak(p: Policy, ctx: Request, i: int) {
    0 <= i < |p.rules| && Speaks(p.rules[i], ctx) && forall j :: 0 <= j < i ==> !Speaks(p.rules[j], ctx)
  }

  /** Policy `k` is the earliest of the most specific that accept the identity. */
  ghost predicate IsSelected(ps: seq<Policy>, id: WorkloadIdentity, k: int) {
    && 0 <= k < |ps| && IsCandidate(ps[k], id)
    && (forall j :: 0 <= j < k && IsCandidate(ps[j], id)
          ==> Specificity(ps[j].matching) < Specificity(ps[k].matching))
    && (forall j :: k < j < |ps| && IsCandidate(ps[j], id)
          ==> Specificity(ps[j].matching) <= Specificity(ps[k].matching))
  }

  ghost predicate Objects(p: Policy, ctx: Request) {
    Guards(p, ctx.workload)
    && exists i :: 0 <= i < |p.rules| && p.rules[i].action.Denying? && Speaks(p.rules[i], ctx)
  }

  /** Some matching baseline has a denying rule that speaks. */
  ghost predicate Blocked(ps: seq<Policy>, ctx: Request) {
    exists k :: 0 <= k < |ps| && Objects(ps[k], ctx)
  }

  ghost predicate PinAdmits(ctx: Request, name: string) {
    ctx.pin.None? || ctx.pin.value == name
  }

  // ---------------------------------------------------------------------------
  // One policy
  // ---------------------------------------------------------------------------

  lemma {:induction false} EvaluateFromIs(p: Policy, ctx: Request, from: nat)
    requires from <= |p.rules| && forall j :: 0 <= j < from ==> !Speaks(p.rules[j], ctx)
    ensures forall i :: IsFirstToSpeak(p, ctx, i) ==>
              EvaluateFrom(p, ctx, from) ==
              if p.rules[i].action.Allowing? then Allow(p.name, RuleLabel(p.rules[i], i), p.terms)
              else Deny(Some(p.name), ExplicitDeny(RuleLabel(p.rules[i], i)))
    ensures EvaluateFrom(p, ctx, from) != Deny(Some(p.name), NoMatchingAllowRule) ==>
              exists i :: IsFirstToSpeak(p, ctx, i)
    decreases |p.rules| - from
  {
    if from < |p.rules| {
      if Speaks(p.rules[from], ctx) {
        assert IsFirstToSpeak(p, ctx, from);
      } else {
        EvaluateFromIs(p, ctx, from + 1);
      }
    }
  }

  /** The first rule that speaks decides, and nothing else does. */
  lemma FirstToSpeakDecides(p: Policy, ctx: Request)
    ensures Evaluate(p, ctx).Allow? <==>
            exists i :: IsFirstToSpeak(p, ctx, i) && p.rules[i].action.Allowing?
    ensures forall i :: IsFirstToSpeak(p, ctx, i) ==>
              Evaluate(p, ctx) ==
              if p.rules[i].action.Allowing? then Allow(p.name, RuleLabel(p.rules[i], i), p.terms)
              else Deny(Some(p.name), ExplicitDeny(RuleLabel(p.rules[i], i)))
    ensures (forall i :: 0 <= i < |p.rules| ==> !Speaks(p.rules[i], ctx))
              <==> Evaluate(p, ctx) == Deny(Some(p.name), NoMatchingAllowRule)
  {
    EvaluateFromIs(p, ctx, 0);
    if Evaluate(p, ctx) != Deny(Some(p.name), NoMatchingAllowRule) {
      var i :| IsFirstToSpeak(p, ctx, i);
      assert Speaks(p.rules[i], ctx);
    } else {
      forall i | 0 <= i < |p.rules| ensures !Speaks(p.rules[i], ctx) {
        SilentUpTo(p, ctx, i);
      }
    }
  }

  lemma {:induction false} SilentUpTo(p: Policy, ctx: Request, i: nat)
    requires i < |p.rules| && forall k :: !IsFirstToSpeak(p, ctx, k)
    ensures forall j :: 0 <= j <= i ==> !Speaks(p.rules[j], ctx)
  {
    if i > 0 {
      SilentUpTo(p, ctx, i - 1);
    }
    assert !IsFirstToSpeak(p, ctx, i);
  }

  // ---------------------------------------------------------------------------
  // Selection
  // ---------------------------------------------------------------------------

  lemma {:induction false} CandidatesConcat(a: seq<Policy>, b: seq<Policy>, id: WorkloadIdentity)
    ensures Candidates(a + b, id) == Candidates(a, id) + Candidates(b, id)
  {
    if a == [] {
      assert a + b == b;
    } else {
      assert (a + b)[1..] == a[1..] + b;
      CandidatesConcat(a[1..], b, id);
    }
  }

  lemma {:induction false} MaxOfPrefix(cs: seq<Policy>, more: seq<Policy>, n: nat)
    requires 0 < n <= |cs|
    ensures MaxByKey(cs + more, n) == MaxByKey(cs, n)
  {
    if n > 1 {
      MaxOfPrefix(cs, more, n - 1);
    }
  }

  /** Selection as a running comparison: a later policy wins only by being more specific. */
  lemma SelectSnoc(ps: seq<Policy>, q: Policy, id: WorkloadIdentity)
    ensures Select(ps + [q], id) ==
            var s := Select(ps, id);
            if IsCandidate(q, id) && (s.None? || Specificity(s.value.matching) < Specificity(q.matching))
            then Some(q) else s
  {
    CandidatesConcat(ps, [q], id);
    var cs := Candidates(ps, id);
    assert Candidates([], id) == [];
    if IsCandidate(q, id) {
      assert Candidates([q], id) == [q];
      assert Candidates(ps + [q], id) == cs + [q];
      if cs != [] {
        MaxOfPrefix(cs, [q], |cs|);
      }
    } else {
      assert Candidates([q], id) == [];
      assert Candidates(ps + [q], id) == cs;
    }
  }

  lemma NothingToSelect(id: WorkloadIdentity)
    ensures Select([], id).None?
  {
  }

  lemma {:induction false} SelectFinds(ps: seq<Policy>, id: WorkloadIdentity)
    ensures Select(ps, id).None? ==> forall k :: 0 <= k < |ps| ==> !IsCandidate(ps[k], id)
    ensures Select(ps, id).Some? ==> exists k :: IsSelected(ps, id, k) && ps[k] == Select(ps, id).value
  {
    hide Select, IsCandidate, Specificity;
    if ps == [] {
      NothingToSelect(id);
    } else {
      var front, q := ps[..|ps| - 1], ps[|ps| - 1];
      assert ps == front + [q];
      SelectFinds(front, id);
      SelectSnoc(front, q, id);
      if Select(front, id).Some? {
        var k :| IsSelected(front, id, k) && front[k] == Select(front, id).value;
        var displaced := IsCandidate(q, id) && Specificity(ps[k].matching) < Specificity(q.matching);
        if Select(ps, id) == Select(front, id) && !displaced {
          assert IsSelected(ps, id, k);
        } else {
          assert IsSelected(ps, id, |ps| - 1);
        }
      } else if IsCandidate(q, id) {
        assert IsSelected(ps, id, |ps| - 1);
      }
    }
  }

  /** Selection picks the earliest of the most specific policies that accept the
      identity, and no policy exactly when none accepts it. */
  lemma SelectsTheEarliestMostSpecific(ps: seq<Policy>, id: WorkloadIdentity)
    ensures Select(ps, id).None? <==> forall k :: 0 <= k < |ps| ==> !IsCandidate(ps[k], id)
    ensures forall k :: IsSelected(ps, id, k) ==> Select(ps, id) == Some(ps[k])
    ensures Select(ps, id).Some? ==> exists k :: IsSelected(ps, id, k)
  {
    SelectFinds(ps, id);
    if Select(ps, id).Some? {
      var k :| IsSelected(ps, id, k) && ps[k] == Select(ps, id).value;
      forall j | IsSelected(ps, id, j) ensures j == k {
      }
    }
  }

  // ---------------------------------------------------------------------------
  // Baselines
  // ---------------------------------------------------------------------------

  lemma {:induction false} GuardFromIs(p: Policy, ctx: Request, from: nat)
    requires from <= |p.rules|
    ensures GuardFrom(p, ctx, from).None? <==>
            forall i :: from <= i < |p.rules| ==> !(p.rules[i].action.Denying? && Speaks(p.rules[i], ctx))
    ensures GuardFrom(p, ctx, from).Some? ==>
              var i := GuardFrom(p, ctx, from).value;
              && from <= i < |p.rules| && p.rules[i].action.Denying? && Speaks(p.rules[i], ctx)
              && forall j :: from <= j < i ==> !(p.rules[j].action.Denying? && Speaks(p.rules[j], ctx))
    decreases |p.rules| - from
  {
    if from < |p.rules| {
      GuardFromIs(p, ctx, from + 1);
    }
  }

  lemma ObjectionOfOne(p: Policy, ctx: Request)
    ensures Objection([p], ctx).Some? <==> Objects(p, ctx)
    ensures forall ps :: Objection([p] + ps, ctx) == if Objects(p, ctx) then Objection([p], ctx) else Objection(ps, ctx)
  {
    GuardFromIs(p, ctx, 0);
    assert [p][1..] == [];
    forall ps ensures Objection([p] + ps, ctx) == if Objects(p, ctx) then Objection([p], ctx) else Objection(ps, ctx) {
      assert ([p] + ps)[1..] == ps;
    }
  }

  lemma {:induction false} ObjectionConcat(a: seq<Policy>, b: seq<Policy>, ctx: Request)
    ensures Objection(a + b, ctx) == if Objection(a, ctx).Some? then Objection(a, ctx) else Objection(b, ctx)
  {
    if a == [] {
      assert a + b == b;
    } else {
      assert (a + b)[1..] == a[1..] + b;
      ObjectionConcat(a[1..], b, ctx);
    }
  }

  lemma {:induction false} ObjectionIsBlocked(ps: seq<Policy>, ctx: Request)
    ensures Objection(ps, ctx).Some? <==> Blocked(ps, ctx)
    ensures Objection(ps, ctx).Some? ==> Objection(ps, ctx).value.Deny? && Objection(ps, ctx).value.reason.Baseline?
  {
    if ps != [] {
      assert ps == [ps[0]] + ps[1..];
      ObjectionOfOne(ps[0], ctx);
      ObjectionIsBlocked(ps[1..], ctx);
      if Objects(ps[0], ctx) {
        assert Blocked(ps, ctx);
      } else if Blocked(ps, ctx) {
        var k :| 0 <= k < |ps| && Objects(ps[k], ctx);
        assert ps[1..][k - 1] == ps[k];
        assert Blocked(ps[1..], ctx);
      } else {
        assert forall k :: 0 <= k < |ps| - 1 ==> ps[1..][k] == ps[k + 1];
      }
    }
  }

  /** Rule `i` of policy `k` is the first deny that speaks, in the first baseline to object. */
  ghost predicate IsFirstObjection(ps: seq<Policy>, ctx: Request, k: int, i: int) {
    && 0 <= k < |ps| && Objects(ps[k], ctx)
    && (forall j :: 0 <= j < k ==> !Objects(ps[j], ctx))
    && 0 <= i < |ps[k].rules| && ps[k].rules[i].action.Denying? && Speaks(ps[k].rules[i], ctx)
    && (forall j :: 0 <= j < i ==> !(ps[k].rules[j].action.Denying? && Speaks(ps[k].rules[j], ctx)))
  }

  /** A baseline's refusal quotes the first baseline that objects and its first rule that does. */
  lemma {:induction false} ObjectionQuotesTheFirst(ps: seq<Policy>, ctx: Request)
    requires Objection(ps, ctx).Some?
    ensures exists k, i ::
              && IsFirstObjection(ps, ctx, k, i)
              && Objection(ps, ctx).value ==
                 Deny(Some(ps[k].name), Baseline(ps[k].name, RuleLabel(ps[k].rules[i], i)))
  {
    GuardFromIs(ps[0], ctx, 0);
    if Objects(ps[0], ctx) {
      assert IsFirstObjection(ps, ctx, 0, GuardFrom(ps[0], ctx, 0).value);
    } else {
      ObjectionQuotesTheFirst(ps[1..], ctx);
      var k, i :|
        && IsFirstObjection(ps[1..], ctx, k, i)
        && Objection(ps[1..], ctx).value ==
           Deny(Some(ps[1..][k].name), Baseline(ps[1..][k].name, RuleLabel(ps[1..][k].rules[i], i)));
      assert ps[k + 1] == ps[1..][k];
      assert IsFirstObjection(ps, ctx, k + 1, i) by {
        assert forall j :: 0 < j <= k ==> ps[j] == ps[1..][j - 1];
      }
    }
  }

  // ---------------------------------------------------------------------------
  // The whole set
  // ---------------------------------------------------------------------------

  /** The selected policy's first speaking rule allows, and the pin admits its name. */
  ghost predicate Granted(ps: seq<Policy>, ctx: Request, k: int, i: int) {
    && IsSelected(ps, ctx.workload, k) && PinAdmits(ctx, ps[k].name)
    && IsFirstToSpeak(ps[k], ctx, i) && ps[k].rules[i].action.Allowing?
  }

  /** A request is allowed exactly when the earliest most specific matching policy has an
      allow rule as the first that speaks, the pin names that policy, and no matching
      baseline denies; the decision then quotes that policy, rule and terms. */
  lemma AllowedExactlyWhen(ps: seq<Policy>, ctx: Request)
    ensures EvaluateSet(ps, ctx).Allow? <==> (exists k, i :: Granted(ps, ctx, k, i)) && !Blocked(ps, ctx)
    ensures forall k, i :: Granted(ps, ctx, k, i) && !Blocked(ps, ctx) ==>
              EvaluateSet(ps, ctx) == Allow(ps[k].name, RuleLabel(ps[k].rules[i], i), ps[k].terms)
  {
    hide IsSelected, IsFirstToSpeak, Blocked, Select, Objection, Evaluate, RuleLabel;
    var id := ctx.workload;
    SelectsTheEarliestMostSpecific(ps, id);
    ObjectionIsBlocked(ps, ctx);
    forall k, i | Granted(ps, ctx, k, i) && !Blocked(ps, ctx)
      ensures EvaluateSet(ps, ctx).Allow?
    {
      GrantedDecides(ps, ctx, k, i);
    }
    forall k, i | Granted(ps, ctx, k, i) && !Blocked(ps, ctx)
      ensures 0 <= k < |ps| && 0 <= i < |ps[k].rules|
           && EvaluateSet(ps, ctx) == Allow(ps[k].name, RuleLabel(ps[k].rules[i], i), ps[k].terms)
    {
      GrantedDecides(ps, ctx, k, i);
    }
    if EvaluateSet(ps, ctx).Allow? {
      var k :| IsSelected(ps, id, k);
      SelectedIndex(ps, id, k);
      FirstToSpeakDecides(ps[k], ctx);
      var i :| IsFirstToSpeak(ps[k], ctx, i) && ps[k].rules[i].action.Allowing?;
      assert Granted(ps, ctx, k, i);
    }
  }

  lemma GrantedDecides(ps: seq<Policy>, ctx: Request, k: int, i: int)
    requires Granted(ps, ctx, k, i)
    ensures 0 <= k < |ps| && 0 <= i < |ps[k].rules|
    ensures EvaluateSet(ps, ctx) == WithBaseline(ps, Allow(ps[k].name, RuleLabel(ps[k].rules[i], i), ps[k].terms), ctx)
  {
    hide IsSelected, IsFirstToSpeak, Select, Objection, Evaluate, RuleLabel;
    SelectedIndex(ps, ctx.workload, k);
    SelectsTheEarliestMostSpecific(ps, ctx.workload);
    FirstIndex(ps[k], ctx, i);
    FirstToSpeakDecides(ps[k], ctx);
  }

  lemma SelectedIndex(ps: seq<Policy>, id: WorkloadIdentity, k: int)
    requires IsSelected(ps, id, k)
    ensures 0 <= k < |ps|
  {
  }

  lemma FirstIndex(p: Policy, ctx: Request, i: int)
    requires IsFirstToSpeak(p, ctx, i)
    ensures 0 <= i < |p.rules|
  {
  }

  /** Why a request was refused, for each reason the engine reports. */
  lemma RefusedBecause(ps: seq<Policy>, ctx: Request)
    requires EvaluateSet(ps, ctx).Deny?
    ensures var s, d := Select(ps, ctx.workload), EvaluateSet(ps, ctx);
            && (d.reason.PolicyMismatch? <==> ctx.pin.Some? && (s.None? || s.value.name != ctx.pin.value))
            && (d.reason.PolicyMismatch? ==>
                  var name := if s.Some? then Some(s.value.name) else None;
                  d == Deny(name, PolicyMismatch(ctx.pin.value, name)))
            && (d.reason.NoPolicyMatch? <==> ctx.pin.None? && s.None?)
            && (d.reason.NoPolicyMatch? ==> d == Deny(None, NoPolicyMatch))
            && (d.reason.NoMatchingAllowRule? <==>
                s.Some? && PinAdmits(ctx, s.value.name)
                && forall i :: 0 <= i < |s.value.rules| ==> !Speaks(s.value.rules[i], ctx))
            && (d.reason.ExplicitDeny? <==>
                s.Some? && PinAdmits(ctx, s.value.name)
                && exists i :: IsFirstToSpeak(s.value, ctx, i) && s.value.rules[i].action.Denying?)
            && (d.reason.Baseline? <==>
                && s.Some? && PinAdmits(ctx, s.value.name) && Blocked(ps, ctx)
                && exists i :: IsFirstToSpeak(s.value, ctx, i) && s.value.rules[i].action.Allowing?)
  {
    hide IsSelected, IsFirstToSpeak, Blocked, Select, Objection, Evaluate, RuleLabel;
    var s := Select(ps, ctx.workload);
    ObjectionIsBlocked(ps, ctx);
    if s.Some? {
      FirstToSpeakDecides(s.value, ctx);
      forall i | IsFirstToSpeak(s.value, ctx, i) ensures 0 <= i < |s.value.rules| {
        FirstIndex(s.value, ctx, i);
      }
      OneReason(s.value, ctx);
    }
  }

  /** Which of the three verdicts one policy gives. */
  lemma OneReason(p: Policy, ctx: Request)
    ensures Evaluate(p, ctx).Deny? ==>
              (Evaluate(p, ctx).reason.ExplicitDeny? <==>
               exists i :: IsFirstToSpeak(p, ctx, i) && p.rules[i].action.Denying?)
    ensures Evaluate(p, ctx).Deny? ==>
              (Evaluate(p, ctx).reason.ExplicitDeny? || Evaluate(p, ctx) == Deny(Some(p.name), NoMatchingAllowRule))
  {
    EvaluateFromIs(p, ctx, 0);
  }

  // ---------------------------------------------------------------------------
  // Policy sets only narrow
  // ---------------------------------------------------------------------------

  lemma SelectIgnores(a: seq<Policy>, q: Policy, b: seq<Policy>, id: WorkloadIdentity)
    requires !IsCandidate(q, id)
    ensures Select(a + [q] + b, id) == Select(a + b, id)
  {
    CandidatesConcat(a + [q], b, id);
    CandidatesConcat(a, [q], id);
    CandidatesConcat(a, b, id);
    assert [q][1..] == [];
    assert Candidates([q], id) == [];
    assert Candidates(a + [q], id) == Candidates(a, id);
  }

  lemma ObjectionsWith(a: seq<Policy>, q: Policy, b: seq<Policy>, ctx: Request)
    ensures Objection(a + [q] + b, ctx).None? ==> Objection(a + b, ctx).None?
    ensures !Objects(q, ctx) ==> Objection(a + [q] + b, ctx) == Objection(a + b, ctx)
  {
    ObjectionConcat(a + [q], b, ctx);
    ObjectionConcat(a, [q], ctx);
    ObjectionConcat(a, b, ctx);
    ObjectionOfOne(q, ctx);
  }

  /** A baseline inserted anywhere only takes away: what is still allowed was allowed
      before, by the same policy and rule and under the same terms. */
  lemma BaselineNeverGrants(a: seq<Policy>, q: Policy, b: seq<Policy>, ctx: Request)
    requires q.baseline
    ensures EvaluateSet(a + [q] + b, ctx).Allow? ==> EvaluateSet(a + b, ctx) == EvaluateSet(a + [q] + b, ctx)
    ensures EvaluateSet(a + [q] + b, ctx).Allow? <==> EvaluateSet(a + b, ctx).Allow? && !Objects(q, ctx)
  {
    hide Select, Objection, Evaluate, Objects;
    SelectIgnores(a, q, b, ctx.workload);
    ObjectionsWith(a, q, b, ctx);
    InsertedObjection(a, q, b, ctx);
  }

  lemma InsertedObjection(a: seq<Policy>, q: Policy, b: seq<Policy>, ctx: Request)
    ensures Objection(a + [q] + b, ctx).None? <==> Objection(a + b, ctx).None? && !Objects(q, ctx)
    ensures Objection(a + [q] + b, ctx).Some? ==> Objection(a + [q] + b, ctx).value.Deny?
    ensures Objection(a + b, ctx).Some? ==> Objection(a + b, ctx).value.Deny?
  {
    ObjectionConcat(a + [q], b, ctx);
    ObjectionConcat(a, [q], ctx);
    ObjectionConcat(a, b, ctx);
    ObjectionOfOne(q, ctx);
    ObjectionIsBlocked(a + [q] + b, ctx);
    ObjectionIsBlocked(a + b, ctx);
  }

  /** A pin only takes away, and a pin on the selected policy changes nothing. */
  lemma PinNeverGrants(ps: seq<Policy>, ctx: Request, pin: string)
    requires ctx.pin.None?
    ensures EvaluateSet(ps, ctx.(pin := Some(pin))).Allow? <==>
            EvaluateSet(ps, ctx).Allow? && Select(ps, ctx.workload).value.name == pin
    ensures EvaluateSet(ps, ctx.(pin := Some(pin))).Allow? ==>
              EvaluateSet(ps, ctx.(pin := Some(pin))) == EvaluateSet(ps, ctx)
  {
    var pinned := ctx.(pin := Some(pin));
    if Select(ps, ctx.workload).Some? {
      PinIsNotRead(Select(ps, ctx.workload).value, ctx, pinned, 0);
    }
    ObjectionIgnoresPin(ps, ctx, pinned);
    ObjectionIsBlocked(ps, ctx);
  }

  lemma SpeaksIgnoresPin(r: Rule, x: Request, y: Request)
    requires x == y.(pin := x.pin)
    ensures Speaks(r, x) == Speaks(r, y)
  {
  }

  lemma {:induction false} PinIsNotRead(p: Policy, x: Request, y: Request, from: nat)
    requires x == y.(pin := x.pin) && from <= |p.rules|
    ensures EvaluateFrom(p, x, from) == EvaluateFrom(p, y, from)
    ensures GuardFrom(p, x, from) == GuardFrom(p, y, from)
    decreases |p.rules| - from
  {
    if from < |p.rules| {
      SpeaksIgnoresPin(p.rules[from], x, y);
      PinIsNotRead(p, x, y, from + 1);
    }
  }

  lemma {:induction false} ObjectionIgnoresPin(ps: seq<Policy>, x: Request, y: Request)
    requires x == y.(pin := x.pin)
    ensures Objection(ps, x) == Objection(ps, y)
  {
    if ps != [] {
      PinIsNotRead(ps[0], x, y, 0);
      ObjectionIgnoresPin(ps[1..], x, y);
    }
  }

  /** A policy that does not accept the identity, baseline or not, is invisible to it. */
  lemma NonMatchingPolicyIsInvisible(a: seq<Policy>, q: Policy, b: seq<Policy>, ctx: Request)
    requires !Accepts(q.matching, ctx.workload)
    ensures EvaluateSet(a + [q] + b, ctx) == EvaluateSet(a + b, ctx)
  {
    SelectIgnores(a, q, b, ctx.workload);
    ObjectionsWith(a, q, b, ctx);
  }

  /** An ordinary policy changes nothing either while another remains selected. */
  lemma UnselectedPolicyIsInvisible(a: seq<Policy>, q: Policy, b: seq<Policy>, ctx: Request)
    requires !q.baseline && Select(a + [q] + b, ctx.workload) == Select(a + b, ctx.workload)
    ensures EvaluateSet(a + [q] + b, ctx) == EvaluateSet(a + b, ctx)
  {
    ObjectionsWith(a, q, b, ctx);
  }

  /** Appending an ordinary policy displaces the selected one exactly by being strictly
      more specific (or by being the first that matches at all). */
  lemma AppendedPolicyMustBeMoreSpecific(ps: seq<Policy>, q: Policy, ctx: Request)
    requires !q.baseline && Select(ps, ctx.workload).Some?
    requires Specificity(q.matching) <= Specificity(Select(ps, ctx.workload).value.matching)
    ensures EvaluateSet(ps + [q], ctx) == EvaluateSet(ps, ctx)
  {
    SelectSnoc(ps, q, ctx.workload);
    assert ps + [q] + [] == ps + [q] && ps + [] == ps;
    UnselectedPolicyIsInvisible(ps, q, [], ctx);
  }

  // ---------------------------------------------------------------------------
  // Checking by name
  // ---------------------------------------------------------------------------

  ghost predicate UniqueNames(ps: seq<Policy>) {
    forall i, j :: 0 <= i < j < |ps| ==> ps[i].name != ps[j].name
  }

  lemma {:induction false} GetByName(ps: seq<Policy>, k: nat)
    requires UniqueNames(ps) && k < |ps|
    ensures Get(ps, ps[k].name) == Some(ps[k])
  {
    if k > 0 {
      assert ps[1..][k - 1] == ps[k];
      assert UniqueNames(ps[1..]);
      GetByName(ps[1..], k - 1);
    }
  }

  lemma {:induction false} GetIsTheFirst(ps: seq<Policy>, name: string)
    ensures Get(ps, name).None? <==> forall k :: 0 <= k < |ps| ==> ps[k].name != name
    ensures forall k :: 0 <= k < |ps| && ps[k].name == name && (forall j :: 0 <= j < k ==> ps[j].name != name) ==>
              Get(ps, name) == Some(ps[k])
  {
    if ps != [] {
      GetIsTheFirst(ps[1..], name);
      assert forall k :: 0 < k < |ps| ==> ps[1..][k - 1] == ps[k];
    }
  }

  /** A check by name judges by the first policy of that name, whoever asks, and lets the
      baselines object; there is no answer exactly when no policy has the name. */
  lemma NamedCheckIs(ps: seq<Policy>, name: string, ctx: Request, k: nat)
    ensures EvaluateNamed(ps, name, ctx).None? <==> forall i :: 0 <= i < |ps| ==> ps[i].name != name
    ensures k < |ps| && ps[k].name == name && (forall j :: 0 <= j < k ==> ps[j].name != name) ==>
              && EvaluateNamed(ps, name, ctx).Some?
              && (EvaluateNamed(ps, name, ctx).value.Allow? <==> Evaluate(ps[k], ctx).Allow? && !Blocked(ps, ctx))
              && (Evaluate(ps[k], ctx).Deny? || !Blocked(ps, ctx) ==>
                    EvaluateNamed(ps, name, ctx).value == Evaluate(ps[k], ctx))
  {
    hide Evaluate, Objection, Blocked, Get;
    GetIsTheFirst(ps, name);
    ObjectionIsBlocked(ps, ctx);
  }

  /** Where names are unique, as loading a directory of policies ensures, checking a request against the
      selected policy by name gives the very decision the set gives. */
  lemma NamedCheckAgrees(ps: seq<Policy>, ctx: Request)
    requires UniqueNames(ps) && Select(ps, ctx.workload).Some?
    requires PinAdmits(ctx, Select(ps, ctx.workload).value.name)
    ensures EvaluateNamed(ps, Select(ps, ctx.workload).value.name, ctx) == Some(EvaluateSet(ps, ctx))
  {
    SelectFinds(ps, ctx.workload);
    var k :| IsSelected(ps, ctx.workload, k) && ps[k] == Select(ps, ctx.workload).value;
    GetByName(ps, k);
  }
}
