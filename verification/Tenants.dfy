/**
 The platform gateway's tenant table: how a tenant list becomes a key map and a
 table, and what concurrent applies and credential checks can see of the two-step swap.
 */
module Tenants {
  import opened Common
  import opened Chars

  type Key = string
  type Org = string

  /** A signing key as received: its keys, if the algorithm is Ed25519 and they decode. */
  datatype SigningKey = SigningKey(ed25519: bool, decoded: Option<set<Key>>)

  datatype Tenant = Tenant(orgId: Org, slug: string, signingKey: SigningKey)

  type TenantList = seq<Tenant>

  type KeyMap = map<Org, set<Key>>
  type Table = map<Org, Tenant>

  /** Only the tenant's own keys, or none at all. */
  function VerifierFor(t: Tenant): set<Key> {
    if t.signingKey.ed25519 && t.signingKey.decoded.Some? then t.signingKey.decoded.value else {}
  }

  // ---------------------------------------------------------------------------
  // De-duplication
  // ---------------------------------------------------------------------------

  predicate Clashes(kept: TenantList, t: Tenant) {
    exists i :: 0 <= i < |kept| && (kept[i].orgId == t.orgId || kept[i].slug == t.slug)
  }

  ghost predicate Unambiguous(kept: TenantList) {
    forall i, j :: 0 <= i < j < |kept| ==> kept[i].orgId != kept[j].orgId && kept[i].slug != kept[j].slug
  }

  /** The entries that survive: the first for an organisation or a slug wins. */
  function Dedup(tenants: TenantList): (kept: TenantList)
    ensures Unambiguous(kept)
    ensures forall i :: 0 <= i < |kept| ==> kept[i] in tenants && !Blank(kept[i].orgId)
  {
    if tenants == [] then []
    else
      var before, t := Dedup(tenants[..|tenants| - 1]), Last(tenants);
      if Blank(t.orgId) || Clashes(before, t) then before else before + [t]
  }

  /** The two sets hold the organisations and slugs of the kept entries. */
  ghost predicate Names(kept: TenantList, orgs: set<Org>, slugs: set<string>) {
    && (forall org :: org in orgs <==> exists k :: 0 <= k < |kept| && kept[k].orgId == org)
    && (forall slug :: slug in slugs <==> exists k :: 0 <= k < |kept| && kept[k].slug == slug)
  }

  lemma NothingKept()
    ensures Dedup([]) == [] && Names([], {}, {})
  {
  }

  lemma DedupUnrolls(tenants: TenantList, i: nat)
    requires i < |tenants|
    ensures var before, t := Dedup(tenants[..i]), tenants[i];
            Dedup(tenants[..i + 1]) == if Blank(t.orgId) || Clashes(before, t) then before else before + [t]
  {
    hide Clashes, Blank;
    assert tenants[..i + 1][..i] == tenants[..i] && Last(tenants[..i + 1]) == tenants[i];
  }

  lemma ClashIsNamed(kept: TenantList, orgs: set<Org>, slugs: set<string>, t: Tenant)
    requires Names(kept, orgs, slugs)
    ensures Clashes(kept, t) <==> t.orgId in orgs || t.slug in slugs
  {
  }

  lemma NamesOneMore(kept: TenantList, orgs: set<Org>, slugs: set<string>, t: Tenant)
    requires Names(kept, orgs, slugs)
    ensures Names(kept + [t], orgs + {t.orgId}, slugs + {t.slug})
  {
    var all := kept + [t];
    assert all[|kept|] == t && forall k :: 0 <= k < |kept| ==> all[k] == kept[k];
    forall org ensures org in orgs + {t.orgId} <==> exists k :: 0 <= k < |all| && all[k].orgId == org {
      if k :| 0 <= k < |kept| && kept[k].orgId == org { assert all[k].orgId == org; }
    }
    forall slug ensures slug in slugs + {t.slug} <==> exists k :: 0 <= k < |all| && all[k].slug == slug {
      if k :| 0 <= k < |kept| && kept[k].slug == slug { assert all[k].slug == slug; }
    }
  }

  /** The loop, with its two sets of names already taken. */
  method DedupLoop(tenants: TenantList) returns (kept: TenantList)
    ensures kept == Dedup(tenants)
  {
    hide Dedup, Names, Clashes, Blank;
    var orgs: set<Org>, slugs: set<string> := {}, {};
    kept := [];
    NothingKept();
    var i := 0;
    while i < |tenants|
      invariant i <= |tenants| && kept == Dedup(tenants[..i])
      invariant Names(kept, orgs, slugs)
    {
      var t := tenants[i];
      DedupUnrolls(tenants, i);
      ClashIsNamed(kept, orgs, slugs, t);
      if !Blank(t.orgId) && t.orgId !in orgs && t.slug !in slugs {
        NamesOneMore(kept, orgs, slugs, t);
        orgs := orgs + {t.orgId};
        slugs := slugs + {t.slug};
        kept := kept + [t];
      }
      i := i + 1;
    }
    assert tenants[..i] == tenants;
  }

  /** Nothing is dropped without reason: an entry is missing only if its organisation is
      blank or an entry kept before it has its organisation or its slug. */
  lemma {:induction false} DroppedForAReason(tenants: TenantList, i: nat)
    requires i < |tenants|
    ensures tenants[i] in Dedup(tenants) || Blank(tenants[i].orgId) || Clashes(Dedup(tenants[..i]), tenants[i])
    decreases |tenants|
  {
    var before := tenants[..|tenants| - 1];
    if i == |tenants| - 1 {
      assert tenants[..i] == before;
    } else {
      DroppedForAReason(before, i);
      assert before[..i] == tenants[..i];
    }
  }

  // ---------------------------------------------------------------------------
  // What a list becomes
  // ---------------------------------------------------------------------------

  function TableFrom(kept: TenantList): Table {
    if kept == [] then map[] else TableFrom(kept[..|kept| - 1])[Last(kept).orgId := Last(kept)]
  }

  function KeysFrom(kept: TenantList): KeyMap {
    if kept == [] then map[] else KeysFrom(kept[..|kept| - 1])[Last(kept).orgId := VerifierFor(Last(kept))]
  }

  function TableOf(list: TenantList): Table { TableFrom(Dedup(list)) }

  function KeysOf(list: TenantList): KeyMap { KeysFrom(Dedup(list)) }

  lemma {:induction false} KeysFollowTheTable(kept: TenantList)
    ensures KeysFrom(kept).Keys == TableFrom(kept).Keys
    ensures forall org :: org in TableFrom(kept) ==>
              TableFrom(kept)[org] in kept && TableFrom(kept)[org].orgId == org
              && KeysFrom(kept)[org] == VerifierFor(TableFrom(kept)[org])
  {
    if kept != [] {
      KeysFollowTheTable(kept[..|kept| - 1]);
    }
  }

  /** The key map and the table of one list describe the same tenants, each with its own keys. */
  lemma OneListOneView(list: TenantList)
    ensures KeysOf(list).Keys == TableOf(list).Keys
    ensures forall org :: org in TableOf(list) ==>
              TableOf(list)[org] in list && TableOf(list)[org].orgId == org
              && KeysOf(list)[org] == VerifierFor(TableOf(list)[org])
  {
    KeysFollowTheTable(Dedup(list));
  }

  // ---------------------------------------------------------------------------
  // Applies and verifications, interleaved
  // ---------------------------------------------------------------------------

  /** A presented credential: the organisation it claims, the key its signature checks
      with, and whether everything else about it (expiry, form) is in order. */
  datatype Token = Token(org: Option<Org>, signer: Option<Key>, inOrder: bool)

  /** The credential's signature checks with a key the tenant's Ed25519 key text decodes to. */
  ghost predicate SignedBy(t: Tenant, token: Token) {
    && t.signingKey.ed25519 && t.signingKey.decoded.Some?
    && token.signer.Some? && token.signer.value in t.signingKey.decoded.value
  }

  /** Verification with one organisation's keys, for that organisation. */
  predicate Verifies(keys: set<Key>, token: Token, org: Org) {
    token.inOrder && token.org == Some(org) && token.signer.Some? && token.signer.value in keys
  }

  datatype Thread =
    | Idle
    | Applying(list: TenantList)        // built the new maps, waiting for the lock
    | Locked(list: TenantList)          // holds the lock, nothing swapped
    | KeysSwapped(list: TenantList)     // holds the lock, keys swapped, table not yet
    | Stored(list: TenantList)          // holds the lock, both swapped
    | Verifying(token: Token)           // about to take a snapshot of the table
    | Resolved(token: Token, tenant: Tenant, stores: nat)  // the snapshot held the tenant

  /** A credential that was let in: `swaps` and `stores` say how many key swaps and
      table stores had happened when it read the keys and the table. */
  datatype Accepted = Accepted(token: Token, org: Org, swaps: nat, stores: nat)

  datatype Shared = Shared(
    keys: KeyMap,
    table: Table,
    holder: Option<nat>,
    threads: map<nat, Thread>,
    // history
    swaps: seq<TenantList>,
    stores: seq<TenantList>,
    accepted: seq<Accepted>)

  datatype Action =
    | BeginApply(list: TenantList)
    | TakeLock
    | SwapKeys
    | StoreTable
    | Unlock
    | BeginVerify(token: Token)
    | ReadTable
    | ReadKeys

  const INITIAL: Shared := Shared(map[], map[], None, map[], [], [], [])

  function At(s: Shared, t: nat): Thread {
    if t in s.threads then s.threads[t] else Idle
  }

  function Goes(s: Shared, t: nat, thread: Thread): Shared {
    s.(threads := s.threads[t := thread])
  }

  predicate Enabled(s: Shared, t: nat, a: Action) {
    match a
    case BeginApply(_) => At(s, t).Idle?
    case TakeLock => At(s, t).Applying? && s.holder.None?
    case SwapKeys => At(s, t).Locked?
    case StoreTable => At(s, t).KeysSwapped?
    case Unlock => At(s, t).Stored?
    case BeginVerify(_) => At(s, t).Idle?
    case ReadTable => At(s, t).Verifying?
    case ReadKeys => At(s, t).Resolved?
  }

  function Apply(s: Shared, t: nat, a: Action): Shared
    requires Enabled(s, t, a)
  {
    var here := At(s, t);
    match a
    case BeginApply(list) => Goes(s, t, Applying(list))
    case TakeLock => Goes(s, t, Locked(here.list)).(holder := Some(t))
    case SwapKeys => Goes(s, t, KeysSwapped(here.list)).(keys := KeysOf(here.list), swaps := s.swaps + [here.list])
    case StoreTable => Goes(s, t, Stored(here.list)).(table := TableOf(here.list), stores := s.stores + [here.list])
    case Unlock => Goes(s, t, Idle).(holder := None)
    case BeginVerify(token) => Goes(s, t, Verifying(token))
    case ReadTable =>
      if here.token.org.Some? && here.token.org.value in s.table then
        Goes(s, t, Resolved(here.token, s.table[here.token.org.value], |s.stores|))
      else Goes(s, t, Idle)
    case ReadKeys =>
      var org := here.tenant.orgId;
      if org in s.keys && Verifies(s.keys[org], here.token, org) then
        Goes(s, t, Idle).(accepted := s.accepted + [Accepted(here.token, org, |s.swaps|, here.stores)])
      else Goes(s, t, Idle)
  }

  /** The state after the steps, each by some thread; `None` if one was not possible. */
  function Run(steps: seq<(nat, Action)>): Option<Shared> {
    if steps == [] then Some(INITIAL)
    else
      var before, (t, a) := Run(steps[..|steps| - 1]), Last(steps);
      if before.Some? && Enabled(before.value, t, a) then Some(Apply(before.value, t, a)) else None
  }

  /** The keys of the last swap, or none before the first. */
  function CurrentKeys(swaps: seq<TenantList>): KeyMap {
    if swaps == [] then map[] else KeysOf(Last(swaps))
  }

  function CurrentTable(stores: seq<TenantList>): Table {
    if stores == [] then map[] else TableOf(Last(stores))
  }

  predicate Holds(thread: Thread) {
    thread.Locked? || thread.KeysSwapped? || thread.Stored?
  }

  /** The key swaps run at most one list ahead of the table stores, and only inside the lock. */
  ghost predicate InStep(s: Shared) {
    if s.holder.None? then s.swaps == s.stores
    else
      var holder := At(s, s.holder.value);
      Holds(holder) && s.swaps == if holder.KeysSwapped? then s.stores + [holder.list] else s.stores
  }

  /** An accepted credential was signed with a key that the latest key swap before its
      key read gave to the organisation it claims, which a stored table held. */
  ghost predicate Legitimate(s: Shared, a: Accepted) {
    && 0 < a.swaps <= |s.swaps|
    && a.token.inOrder && a.token.org == Some(a.org) && a.token.signer.Some?
    && a.org in KeysOf(s.swaps[a.swaps - 1]) && a.token.signer.value in KeysOf(s.swaps[a.swaps - 1])[a.org]
    && 0 < a.stores <= |s.stores| && a.org in TableOf(s.stores[a.stores - 1])
  }

  ghost predicate ResolvedFromATable(s: Shared, thread: Thread) {
    thread.Resolved? ==>
      && 0 < thread.stores <= |s.stores|
      && thread.token.org == Some(thread.tenant.orgId)
      && thread.tenant.orgId in TableOf(s.stores[thread.stores - 1])
  }

  ghost predicate Inv(s: Shared) {
    && s.keys == CurrentKeys(s.swaps)
    && s.table == CurrentTable(s.stores)
    && InStep(s)
    && (forall t :: t in s.threads && Holds(s.threads[t]) ==> s.holder == Some(t))
    && (forall t :: t in s.threads ==> ResolvedFromATable(s, s.threads[t]))
    && (forall i :: 0 <= i < |s.accepted| ==> Legitimate(s, s.accepted[i]))
  }

  lemma HistoryOnlyGrows(s: Shared, t: nat, a: Action)
    requires Enabled(s, t, a)
    ensures s.swaps <= Apply(s, t, a).swaps && s.stores <= Apply(s, t, a).stores
    ensures s.accepted <= Apply(s, t, a).accepted
  {
    hide KeysOf, TableOf;
  }

  lemma LegitimateStays(s: Shared, s': Shared)
    requires s.swaps <= s'.swaps && s.stores <= s'.stores
    ensures forall a :: Legitimate(s, a) ==> Legitimate(s', a)
    ensures forall thread :: ResolvedFromATable(s, thread) ==> ResolvedFromATable(s', thread)
  {
    hide KeysOf, TableOf;
  }

  lemma StepKeepsTheMaps(s: Shared, t: nat, a: Action)
    requires Inv(s) && Enabled(s, t, a)
    ensures var s' := Apply(s, t, a);
            s'.keys == CurrentKeys(s'.swaps) && s'.table == CurrentTable(s'.stores)
  {
    hide KeysOf, TableOf, Legitimate, ResolvedFromATable, Verifies, InStep;
  }

  lemma StepKeepsInStep(s: Shared, t: nat, a: Action)
    requires Inv(s) && Enabled(s, t, a)
    ensures InStep(Apply(s, t, a))
  {
    hide KeysOf, TableOf, Legitimate, ResolvedFromATable, Verifies, CurrentKeys, CurrentTable;
    var s' := Apply(s, t, a);
    assert Holds(At(s, t)) ==> s.holder == Some(t);
    if s.holder.Some? && s.holder.value != t {
      assert At(s', s.holder.value) == At(s, s.holder.value);
      assert s'.swaps == s.swaps && s'.stores == s.stores && s'.holder == s.holder;
    } else if Holds(At(s, t)) {
      assert At(s', t) == s'.threads[t];
    }
  }

  lemma StepKeepsTheLock(s: Shared, t: nat, a: Action)
    requires Inv(s) && Enabled(s, t, a)
    ensures var s' := Apply(s, t, a);
            forall u :: u in s'.threads && Holds(s'.threads[u]) ==> s'.holder == Some(u)
  {
    hide KeysOf, TableOf, Legitimate, ResolvedFromATable, Verifies;
    var s' := Apply(s, t, a);
    forall u | u in s'.threads && Holds(s'.threads[u])
      ensures s'.holder == Some(u)
    {
      if u != t { assert s'.threads[u] == s.threads[u]; }
    }
  }

  lemma StepKeepsTheThreads(s: Shared, t: nat, a: Action)
    requires Inv(s) && Enabled(s, t, a)
    ensures var s' := Apply(s, t, a);
            forall u :: u in s'.threads ==> ResolvedFromATable(s', s'.threads[u])
  {
    hide KeysOf, TableOf, Legitimate, Verifies, InStep;
    var s' := Apply(s, t, a);
    HistoryOnlyGrows(s, t, a);
    LegitimateStays(s, s');
    if s.stores != [] { TableNamesItsTenants(Last(s.stores)); }
    forall u | u in s'.threads
      ensures ResolvedFromATable(s', s'.threads[u])
    {
      if u != t { assert s'.threads[u] == s.threads[u]; }
    }
  }

  lemma StepKeepsTheAccepted(s: Shared, t: nat, a: Action)
    requires Inv(s) && Enabled(s, t, a)
    ensures var s' := Apply(s, t, a);
            forall i :: 0 <= i < |s'.accepted| ==> Legitimate(s', s'.accepted[i])
  {
    hide KeysOf, TableOf, InStep;
    HistoryOnlyGrows(s, t, a);
    LegitimateStays(s, Apply(s, t, a));
    assert t in s.threads ==> ResolvedFromATable(s, s.threads[t]);
  }

  lemma StepKeepsInv(s: Shared, t: nat, a: Action)
    requires Inv(s) && Enabled(s, t, a)
    ensures Inv(Apply(s, t, a))
  {
    hide Apply, Enabled, KeysOf, TableOf, InStep, Legitimate, ResolvedFromATable;
    StepKeepsTheMaps(s, t, a);
    StepKeepsInStep(s, t, a);
    StepKeepsTheLock(s, t, a);
    StepKeepsTheThreads(s, t, a);
    StepKeepsTheAccepted(s, t, a);
  }

  lemma TableNamesItsTenants(list: TenantList)
    ensures forall org :: org in TableOf(list) ==> TableOf(list)[org].orgId == org
  {
    OneListOneView(list);
  }

  lemma {:induction false} RunKeepsInv(steps: seq<(nat, Action)>)
    requires Run(steps).Some?
    ensures Inv(Run(steps).value)
  {
    hide KeysOf, TableOf;
    if steps != [] {
      RunKeepsInv(steps[..|steps| - 1]);
      var (t, a) := Last(steps);
      StepKeepsInv(Run(steps[..|steps| - 1]).value, t, a);
    }
  }

  /** Whenever no apply holds the lock, the key map and the table come from the same
      list, for every interleaving; so they hold the same organisations. */
  lemma SwapLooksAtomic(steps: seq<(nat, Action)>)
    requires Run(steps).Some? && Run(steps).value.holder.None?
    ensures var s := Run(steps).value;
            && s.swaps == s.stores
            && s.keys == CurrentKeys(s.swaps) && s.table == CurrentTable(s.swaps)
            && s.keys.Keys == s.table.Keys
  {
    RunKeepsInv(steps);
    var s := Run(steps).value;
    if s.swaps != [] { OneListOneView(Last(s.swaps)); }
  }

  /** In between, at most the keys are one list ahead. */
  lemma KeysAreAtMostOneListAhead(steps: seq<(nat, Action)>)
    requires Run(steps).Some?
    ensures var s := Run(steps).value;
            s.swaps == s.stores || (|s.swaps| == |s.stores| + 1 && s.swaps[..|s.stores|] == s.stores && s.holder.Some?)
  {
    hide KeysOf, TableOf;
    RunKeepsInv(steps);
  }

  lemma AcceptedIsLegitimate(s: Shared, i: nat)
    requires Inv(s) && i < |s.accepted|
    ensures Legitimate(s, s.accepted[i])
  {
    hide KeysOf, TableOf, CurrentKeys, CurrentTable, InStep;
  }

  /** Every credential let in was signed with a key that an applied list gave to the very
      organisation it claims, and that list was the latest when the keys were read. */
  lemma OnlyOwnKeysAreTrusted(steps: seq<(nat, Action)>, i: nat)
    requires Run(steps).Some? && i < |Run(steps).value.accepted|
    ensures Legitimate(Run(steps).value, Run(steps).value.accepted[i])
    ensures var s, a := Run(steps).value, Run(steps).value.accepted[i];
            && a.token.inOrder && a.token.org == Some(a.org)
            && exists t :: t in s.swaps[a.swaps - 1] && t.orgId == a.org && SignedBy(t, a.token)
  {
    hide Inv, KeysOf, TableOf, Run;
    RunKeepsInv(steps);
    var s, a := Run(steps).value, Run(steps).value.accepted[i];
    AcceptedIsLegitimate(s, i);
    var list := s.swaps[a.swaps - 1];
    OneListOneView(list);
    var t := TableOf(list)[a.org];
    assert t in list && SignedBy(t, a.token);
  }

  /** A dropped organisation is shut out from the key swap on: while every later swap
      leaves it out, nothing that reads the keys after that swap gets in as it, even
      against a table that still resolves it. */
  lemma DroppedMeansRefused(steps: seq<(nat, Action)>, org: Org, from: nat, i: nat)
    requires Run(steps).Some? && i < |Run(steps).value.accepted|
    requires var swaps := Run(steps).value.swaps;
             forall k :: from <= k < |swaps| ==> org !in KeysOf(swaps[k])
    requires Run(steps).value.accepted[i].org == org
    ensures Run(steps).value.accepted[i].swaps <= from
  {
    hide KeysOf, TableOf, Inv, Run;
    RunKeepsInv(steps);
    AcceptedIsLegitimate(Run(steps).value, i);
  }

  // ---------------------------------------------------------------------------
  // The object
  // ---------------------------------------------------------------------------

  /** The live tenants. `list` is the list last applied. */
  class PlatformTenants {
    var table: Table
    var keys: KeyMap
    ghost var list: TenantList

    ghost predicate Valid()
      reads this
    {
      keys == KeysOf(list) && table == TableOf(list)
    }

    constructor ()
      ensures Valid() && list == []
    {
      table, keys, list := map[], map[], [];
    }

    /** Replace the tenants: build both maps, then keys first, table second. */
    method Apply(tenants: TenantList)
      modifies this
      ensures Valid() && list == tenants && keys.Keys == table.Keys
    {
      hide Dedup, VerifierFor, KeysFrom, TableFrom;
      NoMaps();
      var kept := DedupLoop(tenants);
      var newKeys: KeyMap, newTable: Table := map[], map[];
      var i := 0;
      while i < |kept|
        invariant i <= |kept| && newKeys == KeysFrom(kept[..i]) && newTable == TableFrom(kept[..i])
      {
        MapsUnroll(kept, i);
        newKeys := newKeys[kept[i].orgId := VerifierFor(kept[i])];
        newTable := newTable[kept[i].orgId := kept[i]];
        i := i + 1;
      }
      assert kept[..i] == kept;
      OneListOneView(tenants);
      keys := newKeys;
      table := newTable;
      list := tenants;
    }

    /** A credential gets in exactly when the tenant it claims survived in the list and
        signed it with one of its own keys. */
    method VerifyNow(token: Token) returns (r: Option<Org>)
      requires Valid()
      ensures r.Some? ==> r == token.org
      ensures r.Some? <==>
              token.inOrder && exists t :: t in Dedup(list) && token.org == Some(t.orgId) && SignedBy(t, token)
    {
      TableHoldsTheKept(Dedup(list));
      OneListOneView(list);
      if token.org.None? || token.org.value !in table {
        return None;
      }
      var org := table[token.org.value].orgId;
      if org !in keys || !Verifies(keys[org], token, org) {
        return None;
      }
      assert table[org] in Dedup(list) && SignedBy(table[org], token);
      return Some(org);
    }
  }

  lemma NoMaps()
    ensures KeysFrom([]) == map[] && TableFrom([]) == map[]
  {
  }

  lemma MapsUnroll(kept: TenantList, i: nat)
    requires i < |kept|
    ensures KeysFrom(kept[..i + 1]) == KeysFrom(kept[..i])[kept[i].orgId := VerifierFor(kept[i])]
    ensures TableFrom(kept[..i + 1]) == TableFrom(kept[..i])[kept[i].orgId := kept[i]]
  {
    hide VerifierFor;
    assert kept[..i + 1][..i] == kept[..i] && Last(kept[..i + 1]) == kept[i];
  }

  /** The table of unambiguous tenants resolves each of them, and nothing else. */
  lemma {:induction false} TableHoldsTheKept(kept: TenantList)
    requires Unambiguous(kept)
    ensures forall t :: t in kept ==> t.orgId in TableFrom(kept) && TableFrom(kept)[t.orgId] == t
    ensures forall org :: org in TableFrom(kept) ==> TableFrom(kept)[org] in kept
  {
    if kept != [] {
      TableHoldsTheKept(kept[..|kept| - 1]);
      assert kept == kept[..|kept| - 1] + [Last(kept)];
    }
  }
}
