/**
 The pull-based release agent: what one pass writes to disk, and what stays true
 over every sequence of passes when a pass may be cut short after any write.

 Everything the agent remembers is on disk, so its state is the disk. A pass is
 the list of disk states it goes through, one per atomic write; a crash (or an
 exception raised by a secret sync or a service restart) leaves one of them.
 */
module ReleaseAgent {
  import opened Common

  type Version = string

  /** A release directory. `Damaged` is what an interrupted recursive removal leaves. */
  datatype Dir = Whole | Damaged

  datatype Disk = Disk(
    current: Option<Version>,      // what the `current` symlink names
    releases: map<Version, Dir>,   // the directories under releases/
    previous: Option<string>,      // the one-line state file `previous-<role>`
    verified: Option<string>,      // the one-line state file `verified-<role>`
    bad: set<Version>)             // the versions listed in `bad-<role>`

  /** What the world answers during one pass. */
  datatype World = World(
    channel: Option<string>,   // the stripped channel pointer, if one is promoted
    artifact: bool,            // both objects exist and the SHA-256 matches
    healthy: bool,             // the outcome of waiting for the health probe
    listing: seq<Version>,     // the order in which pruning sees the directories
    newest: set<Version>,      // the KEEP_RELEASES most recently modified of them
    survives: map<Version, Dir>)  // what pruning fails to remove, and what it leaves of it

  /** The value of the `previous` file that stands for "there was none". */
  const NO_PREVIOUS: string := "none"

  predicate IsVersionStart(c: char) {
    'A' <= c <= 'Z' || 'a' <= c <= 'z' || '0' <= c <= '9'
  }

  predicate IsVersionChar(c: char) {
    IsVersionStart(c) || c == '.' || c == '_' || c == '-'
  }

  predicate ValidVersion(v: string) {
    1 <= |v| <= 64 && IsVersionStart(v[0]) && forall i :: 1 <= i < |v| ==> IsVersionChar(v[i])
  }

  // ---------------------------------------------------------------------------
  // The writes of one pass
  // ---------------------------------------------------------------------------

  /** A recursive removal: the directory loses files first, its name last. */
  function RemoveWrites(d: Disk, v: Version): seq<Disk> {
    if v in d.releases then
      [d.(releases := d.releases[v := Damaged]), d.(releases := d.releases - {v})]
    else
      []
  }

  /** The state after the listed writes, starting from `d`. */
  function Final(d: Disk, writes: seq<Disk>): Disk {
    if writes == [] then d else Last(writes)
  }

  function InstallWrites(d: Disk, v: Version): seq<Disk> {
    var removal := RemoveWrites(d, v);
    var cleared := Final(d, removal);
    removal + [cleared.(releases := cleared.releases[v := Whole])]
  }

  function Keepers(d: Disk, newest: set<Version>): set<Version> {
    if d.current.Some? && d.current.value != "" then newest + {d.current.value} else newest
  }

  /** What a removal that gave up leaves of a directory. */
  function Leftover(before: Dir, left: Dir): Dir {
    if left.Damaged? then Damaged else before
  }

  /** Pruning one directory; errors are ignored, so it may survive, whole or not. */
  function PruneOne(d: Disk, v: Version, survives: map<Version, Dir>): seq<Disk> {
    if v in d.releases && v in survives then
      [d.(releases := d.releases[v := Leftover(d.releases[v], survives[v])])]
    else RemoveWrites(d, v)
  }

  function PruneWrites(d: Disk, listing: seq<Version>, keepers: set<Version>, survives: map<Version, Dir>): seq<Disk>
    decreases |listing|
  {
    if listing == [] then []
    else if listing[0] in keepers then PruneWrites(d, listing[1..], keepers, survives)
    else
      var removal := PruneOne(d, listing[0], survives);
      removal + PruneWrites(Final(d, removal), listing[1..], keepers, survives)
  }

  /** Whether an unhealthy `v` has a release to go back to. */
  predicate CanRollBack(d: Disk, v: Version) {
    d.previous.Some? && d.previous.value != "" && d.previous.value != NO_PREVIOUS
    && d.previous.value != v && d.previous.value in d.releases
  }

  function VerifyWrites(d: Disk, v: Version, w: World): seq<Disk> {
    if w.healthy then
      var trusted := d.(verified := Some(v));
      var cleared := trusted.(bad := trusted.bad - {v});
      [trusted, cleared] + PruneWrites(cleared, w.listing, Keepers(cleared, w.newest), w.survives)
    else
      var marked := d.(bad := d.bad + {v});
      if CanRollBack(marked, v) then
        var back := marked.(current := marked.previous);
        [marked, back, back.(verified := marked.previous)]
      else
        [marked]
  }

  /** Whether this pass downloads and installs the channel's version. */
  predicate Installs(d: Disk, w: World) {
    && w.channel.Some? && ValidVersion(w.channel.value)
    && d.current != w.channel && w.channel.value !in d.bad && w.artifact
  }

  /** The disk just after the symlink swap of an installing pass. */
  function Swapped(d: Disk, v: Version): Disk {
    var installed := Last(InstallWrites(d, v));
    var was := if d.current.Some? && d.current.value != "" then d.current.value else NO_PREVIOUS;
    installed.(previous := Some(was), current := Some(v))
  }

  function SwapWrites(d: Disk, v: Version): seq<Disk> {
    var installed := Last(InstallWrites(d, v));
    var swapped := Swapped(d, v);
    InstallWrites(d, v) + [installed.(previous := swapped.previous), swapped]
  }

  function DeployWrites(d: Disk, w: World): seq<Disk> {
    if w.channel.None? || !ValidVersion(w.channel.value) then []
    else if w.channel == d.current then
      if d.verified != d.current then VerifyWrites(d, w.channel.value, w) else []
    else if !Installs(d, w) then []
    else
      var v := w.channel.value;
      SwapWrites(d, v) + VerifyWrites(Swapped(d, v), v, w)
  }

  /** The disk after the first `cut` writes of a pass; all of them if `cut` is larger. */
  function Cut(d: Disk, w: World, cut: nat): Disk {
    var writes := DeployWrites(d, w);
    if cut == 0 then d else if cut <= |writes| then writes[cut - 1] else Final(d, writes)
  }

  function Uninterrupted(d: Disk, w: World): Disk {
    Final(d, DeployWrites(d, w))
  }

  /** A life of the machine: passes, each run up to some write. */
  type Script = seq<(World, nat)>

  function Run(d: Disk, script: Script): Disk
    decreases |script|
  {
    if script == [] then d else Run(Cut(d, script[0].0, script[0].1), script[1..])
  }

  // ---------------------------------------------------------------------------
  // An induction principle over the writes of a pass
  // ---------------------------------------------------------------------------

  /** `b` differs from `a` by one removal step that spares the live release. */
  ghost predicate SparesCurrent(a: Disk, b: Disk) {
    && b == a.(releases := b.releases)
    && b.releases.Keys <= a.releases.Keys
    && (forall v :: v in b.releases && b.releases[v] == Whole ==> a.releases[v] == Whole)
    && (a.current.Some? && a.current.value in a.releases && a.current.value != "" ==>
          a.current.value in b.releases && b.releases[a.current.value] == a.releases[a.current.value])
  }

  lemma {:induction false} PruneSpares(d: Disk, listing: seq<Version>, keepers: set<Version>, survives: map<Version,
                                       Dir>)
    requires d.current.Some? && d.current.value != "" ==> d.current.value in keepers
    ensures forall i :: 0 <= i < |PruneWrites(d, listing, keepers, survives)| ==>
              SparesCurrent(d, PruneWrites(d, listing, keepers, survives)[i])
    decreases |listing|
  {
    if listing != [] {
      if listing[0] in keepers {
        PruneSpares(d, listing[1..], keepers, survives);
      } else {
        var removal := PruneOne(d, listing[0], survives);
        PruneSpares(Final(d, removal), listing[1..], keepers, survives);
      }
    }
  }

  /** What pruning the listed directories leaves: the keepers and the unlisted as they
      were, and of the rest what could not be removed. */
  function Pruned(releases: map<Version, Dir>, listing: seq<Version>, keepers: set<Version>, survives: map<Version,
                  Dir>)
    : map<Version, Dir>
  {
    map v | v in releases && (v in keepers || v !in listing || v in survives) ::
      if v in keepers || v !in listing then releases[v] else Leftover(releases[v], survives[v])
  }

  lemma {:induction false} PruneKeepsExactlyTheKeepers(
    d: Disk, listing: seq<Version>, keepers: set<Version>, survives: map<Version, Dir>)
    ensures Final(d, PruneWrites(d, listing, keepers, survives)) ==
            d.(releases := Pruned(d.releases, listing, keepers, survives))
    decreases |listing|
  {
    hide PruneOne;
    if listing == [] {
      assert Pruned(d.releases, listing, keepers, survives) == d.releases;
    } else {
      var v, tail := listing[0], listing[1..];
      if v in keepers {
        PruneKeepsExactlyTheKeepers(d, tail, keepers, survives);
      } else {
        var removal := PruneOne(d, v, survives);
        PruneOneLeaves(d, v, survives);
        PruneKeepsExactlyTheKeepers(Final(d, removal), tail, keepers, survives);
        FinalConcat(d, removal, PruneWrites(Final(d, removal), tail, keepers, survives));
      }
      PrunedUnrolls(d.releases, listing, keepers, survives);
    }
  }

  /** Directory by directory: a keeper and an unlisted one stay as they were; of the others,
      one that could be removed is gone, and one that could not is damaged or untouched. */
  lemma PrunedOneByOne(releases: map<Version, Dir>, listing: seq<Version>, keepers: set<Version>,
                       survives: map<Version, Dir>, v: Version)
    requires v in releases
    ensures var after := Pruned(releases, listing, keepers, survives);
            if v in keepers || v !in listing then v in after && after[v] == releases[v]
            else if v !in survives then v !in after
            else v in after && (after[v] == Whole <==> releases[v] == Whole && survives[v] == Whole)
  {
  }

  /** The directories after pruning one. */
  function Without(releases: map<Version, Dir>, v: Version, survives: map<Version, Dir>): map<Version, Dir> {
    if v in releases && v in survives then releases[v := Leftover(releases[v], survives[v])] else releases - {v}
  }

  lemma PruneOneLeaves(d: Disk, v: Version, survives: map<Version, Dir>)
    ensures Final(d, PruneOne(d, v, survives)) == d.(releases := Without(d.releases, v, survives))
  {
    assert v !in d.releases ==> d.releases - {v} == d.releases;
  }

  lemma PrunedUnrolls(releases: map<Version, Dir>, listing: seq<Version>, keepers: set<Version>,
                      survives: map<Version, Dir>)
    requires listing != []
    ensures Pruned(releases, listing, keepers, survives) ==
            Pruned(if listing[0] in keepers then releases else Without(releases, listing[0], survives),
                   listing[1..], keepers, survives)
  {
    assert forall v :: v in listing <==> v == listing[0] || v in listing[1..];
  }

  lemma FinalConcat(d: Disk, a: seq<Disk>, b: seq<Disk>)
    ensures Final(d, a + b) == Final(Final(d, a), b)
  {
  }

  // ---------------------------------------------------------------------------
  // `current` always names a directory
  // ---------------------------------------------------------------------------

  ghost predicate CurrentExists(d: Disk) {
    d.current.Some? ==> d.current.value != "" && d.current.value in d.releases
  }

  lemma CutIsSomeWrite(d: Disk, w: World, cut: nat)
    ensures Cut(d, w, cut) == d || exists i :: 0 <= i < |DeployWrites(d, w)| && Cut(d, w, cut) == DeployWrites(d, w)[i]
  {
    var writes := DeployWrites(d, w);
    if 0 < cut <= |writes| {
      assert writes[cut - 1] == Cut(d, w, cut);
    }
  }

  lemma VerifyKeepsCurrent(d: Disk, v: Version, w: World, i: nat)
    requires CurrentExists(d) && i < |VerifyWrites(d, v, w)|
    ensures CurrentExists(VerifyWrites(d, v, w)[i])
  {
    if w.healthy && i >= 2 {
      var cleared := d.(verified := Some(v), bad := d.bad - {v});
      PruneSpares(cleared, w.listing, Keepers(cleared, w.newest), w.survives);
      assert SparesCurrent(cleared, VerifyWrites(d, v, w)[i]);
    }
  }

  lemma DeployKeepsCurrent(d: Disk, w: World, i: nat)
    requires CurrentExists(d) && i < |DeployWrites(d, w)|
    ensures CurrentExists(DeployWrites(d, w)[i])
  {
    var v := w.channel.value;
    if w.channel == d.current {
      VerifyKeepsCurrent(d, v, w, i);
    } else if i >= |SwapWrites(d, v)| {
      VerifyKeepsCurrent(Swapped(d, v), v, w, i - |SwapWrites(d, v)|);
    }
  }

  /** Whatever the channel, the probes and the crash points, the symlink never dangles. */
  lemma {:induction false} CurrentNeverDangles(d: Disk, script: Script)
    requires CurrentExists(d)
    ensures CurrentExists(Run(d, script))
    decreases |script|
  {
    if script != [] {
      var (w, cut) := script[0];
      CutIsSomeWrite(d, w, cut);
      var next := Cut(d, w, cut);
      if next != d {
        var i :| 0 <= i < |DeployWrites(d, w)| && next == DeployWrites(d, w)[i];
        DeployKeepsCurrent(d, w, i);
      }
      CurrentNeverDangles(next, script[1..]);
    }
  }

  // ---------------------------------------------------------------------------
  // A rolled-back release never returns
  // ---------------------------------------------------------------------------

  /** `v` is remembered as bad, is not live, and is nobody's rollback target. */
  ghost predicate RolledBack(d: Disk, v: Version) {
    v in d.bad && d.current != Some(v) && (d.previous == Some(v) ==> v == NO_PREVIOUS)
  }

  /** Nothing new was installed under the name `v`. */
  ghost predicate NotReinstalled(a: Disk, b: Disk, v: Version) {
    && (v in b.releases ==> v in a.releases)
    && (v in b.releases && b.releases[v] == Whole ==> a.releases[v] == Whole)
  }

  lemma VerifyKeepsRolledBack(d: Disk, u: Version, w: World, i: nat, v: Version)
    requires RolledBack(d, v) && u != v && i < |VerifyWrites(d, u, w)|
    ensures RolledBack(VerifyWrites(d, u, w)[i], v)
    ensures NotReinstalled(d, VerifyWrites(d, u, w)[i], v)
  {
    if w.healthy && i >= 2 {
      var cleared := d.(verified := Some(u), bad := d.bad - {u});
      PruneSpares(cleared, w.listing, Keepers(cleared, w.newest), w.survives);
      assert SparesCurrent(cleared, VerifyWrites(d, u, w)[i]);
    }
  }

  lemma DeployKeepsRolledBack(d: Disk, w: World, i: nat, v: Version)
    requires RolledBack(d, v) && i < |DeployWrites(d, w)|
    ensures RolledBack(DeployWrites(d, w)[i], v)
    ensures NotReinstalled(d, DeployWrites(d, w)[i], v)
  {
    var u := w.channel.value;
    if w.channel == d.current {
      VerifyKeepsRolledBack(d, u, w, i, v);
    } else if i >= |SwapWrites(d, u)| {
      VerifyKeepsRolledBack(Swapped(d, u), u, w, i - |SwapWrites(d, u)|, v);
    }
  }

  lemma {:induction false} RolledBackForever(d: Disk, script: Script, v: Version)
    requires RolledBack(d, v)
    ensures RolledBack(Run(d, script), v)
    ensures NotReinstalled(d, Run(d, script), v)
    decreases |script|
  {
    if script != [] {
      var (w, cut) := script[0];
      CutIsSomeWrite(d, w, cut);
      var next := Cut(d, w, cut);
      if next != d {
        var i :| 0 <= i < |DeployWrites(d, w)| && next == DeployWrites(d, w)[i];
        DeployKeepsRolledBack(d, w, i, v);
      }
      RolledBackForever(next, script[1..], v);
    }
  }

  lemma VerifyRollsBack(d: Disk, v: Version, w: World, i: nat)
    requires d.current == Some(v) && i < |VerifyWrites(d, v, w)|
    ensures VerifyWrites(d, v, w)[i].current != Some(v) ==> RolledBack(VerifyWrites(d, v, w)[i], v)
  {
    if w.healthy && i >= 2 {
      var cleared := d.(verified := Some(v), bad := d.bad - {v});
      PruneSpares(cleared, w.listing, Keepers(cleared, w.newest), w.survives);
      assert SparesCurrent(cleared, VerifyWrites(d, v, w)[i]);
    }
  }

  /** The only way a pass takes `current` off the channel's own version is a rollback. */
  lemma LeavingTheChannelIsARollback(d: Disk, w: World, i: nat, j: nat)
    requires i < j < |DeployWrites(d, w)|
    requires DeployWrites(d, w)[i].current == w.channel
    requires DeployWrites(d, w)[j].current != w.channel
    ensures RolledBack(DeployWrites(d, w)[j], w.channel.value)
  {
    var v := w.channel.value;
    if w.channel == d.current {
      VerifyRollsBack(d, v, w, j);
    } else if j >= |SwapWrites(d, v)| {
      VerifyRollsBack(Swapped(d, v), v, w, j - |SwapWrites(d, v)|);
    }
  }

  /** Once a pass has rolled `v` back, no later life of the machine makes it live or installs it. */
  lemma RolledBackReleaseNeverReturns(d: Disk, w: World, i: nat, j: nat, later: Script)
    requires i < j < |DeployWrites(d, w)|
    requires DeployWrites(d, w)[i].current == w.channel
    requires DeployWrites(d, w)[j].current != w.channel
    ensures var after := Run(DeployWrites(d, w)[j], later);
            after.current != w.channel && w.channel.value in after.bad
            && NotReinstalled(DeployWrites(d, w)[j], after, w.channel.value)
  {
    LeavingTheChannelIsARollback(d, w, i, j);
    RolledBackForever(DeployWrites(d, w)[j], later, w.channel.value);
  }

  // ---------------------------------------------------------------------------
  // What an uninterrupted installing pass ends with
  // ---------------------------------------------------------------------------

  /** The replaced release is one the `previous` file can name. */
  predicate Replaceable(d: Disk) {
    d.current.Some? && d.current.value != NO_PREVIOUS
  }

  lemma VerifyOutcome(d: Disk, v: Version, w: World)
    requires d.current == Some(v) && v != ""
    ensures var after := Final(d, VerifyWrites(d, v, w));
            after == d.(current := if !w.healthy && CanRollBack(d, v) then d.previous else Some(v),
                        verified := if w.healthy then Some(v) else if CanRollBack(d, v) then d.previous else d.verified,
                        bad := if w.healthy then d.bad - {v} else d.bad + {v},
                        releases := if w.healthy then Pruned(d.releases, w.listing, w.newest + {v}, w.survives)
                                    else d.releases)
  {
    if w.healthy {
      var cleared := d.(verified := Some(v), bad := d.bad - {v});
      PruneKeepsExactlyTheKeepers(cleared, w.listing, Keepers(cleared, w.newest), w.survives);
      var writes := PruneWrites(cleared, w.listing, Keepers(cleared, w.newest), w.survives);
      assert Final(d, VerifyWrites(d, v, w)) == Final(cleared, writes);
    }
  }

  /** A healthy release stays, trusted and not bad. An unhealthy one gives way to
      exactly the release it replaced, unless there was none or the replaced one is
      spelled like the sentinel, and then it stays, marked bad. There is no third outcome. */
  lemma InstallOutcome(d: Disk, w: World)
    requires CurrentExists(d) && Installs(d, w)
    ensures var v, after := w.channel.value, Uninterrupted(d, w);
            if w.healthy then
              after.current == Some(v) && after.verified == Some(v) && after.bad == d.bad
            else
              && after.current == (if Replaceable(d) then d.current else Some(v))
              && (Replaceable(d) ==> after.verified == d.current)
              && after.bad == d.bad + {v}
    ensures Uninterrupted(d, w).previous ==
            if d.current.Some? then d.current else Some(NO_PREVIOUS)
  {
    var v := w.channel.value;
    VerifyOutcome(Swapped(d, v), v, w);
    assert Uninterrupted(d, w) == Final(Swapped(d, v), VerifyWrites(Swapped(d, v), v, w));
    assert CanRollBack(Swapped(d, v), v) <==> Replaceable(d);
  }

  /** A healthy pass leaves the newest releases and the installed one as they were. */
  lemma HealthyPassKeepsTheNewest(d: Disk, w: World, v: Version)
    requires w.healthy && Installs(d, w) && v in w.newest && v in d.releases && v != w.channel.value
    ensures v in Uninterrupted(d, w).releases && Uninterrupted(d, w).releases[v] == d.releases[v]
    ensures w.channel.value in Uninterrupted(d, w).releases
    ensures Uninterrupted(d, w).releases[w.channel.value] == Whole
  {
    hide VerifyWrites, SwapWrites;
    var u := w.channel.value;
    VerifyOutcome(Swapped(d, u), u, w);
    SwapEnds(d, u);
    FinalConcat(d, SwapWrites(d, u), VerifyWrites(Swapped(d, u), u, w));
  }

  // ---------------------------------------------------------------------------
  // What a pass installs
  // ---------------------------------------------------------------------------

  /** A version: 1 to 64 letters, digits and, but not in front, dots, underscores and hyphens,
      by ASCII code. So it is one path component, and neither hidden nor blank. */
  lemma VersionRule(v: string)
    ensures ValidVersion(v) <==>
            && 0 < |v| < 65
            && forall i :: 0 <= i < |v| ==>
                 var code := v[i] as int;
                 || 0x30 <= code <= 0x39 || 0x41 <= code <= 0x5A || 0x61 <= code <= 0x7A
                 || (i > 0 && (code == 0x2D || code == 0x2E || code == 0x5F))
  {
  }

  /** Without a channel value, with one that is no version, or with objects that are missing
      or do not match their checksum, a pass writes nothing. */
  lemma RefusesWhatItCannotTrust(d: Disk, w: World)
    ensures w.channel.None? || !ValidVersion(w.channel.value) ==> DeployWrites(d, w) == []
    ensures w.channel != d.current && !w.artifact ==> DeployWrites(d, w) == []
    ensures w.channel.Some? && w.channel != d.current && w.channel.value in d.bad ==> DeployWrites(d, w) == []
  {
  }

  /** A version that can be trusted and is neither live nor bad goes live, whole. */
  lemma InstallsWhatItCanTrust(d: Disk, w: World)
    requires w.channel.Some? && ValidVersion(w.channel.value) && w.artifact
    requires d.current != w.channel && w.channel.value !in d.bad
    ensures var v := w.channel.value;
            exists i :: && 0 <= i < |DeployWrites(d, w)| && DeployWrites(d, w)[i].current == Some(v)
                        && v in DeployWrites(d, w)[i].releases && DeployWrites(d, w)[i].releases[v] == Whole
  {
    hide VerifyWrites;
    var v := w.channel.value;
    var n := |SwapWrites(d, v)|;
    assert DeployWrites(d, w)[n - 1] == Swapped(d, v);
  }

  /** A pass that would be allowed to install `v`. */
  ghost predicate Vouches(w: World, before: Disk, v: Version) {
    w.channel == Some(v) && w.artifact && ValidVersion(v) && v !in before.bad
  }

  lemma PassCreates(d: Disk, w: World, i: nat, v: Version)
    requires i < |DeployWrites(d, w)| && v in DeployWrites(d, w)[i].releases && v !in d.releases
    ensures Vouches(w, d, v)
  {
    var u := w.channel.value;
    if w.channel == d.current {
      VerifyCreatesNothing(d, u, w, i, v);
    } else if i >= |SwapWrites(d, u)| {
      VerifyCreatesNothing(Swapped(d, u), u, w, i - |SwapWrites(d, u)|, v);
    }
  }

  lemma VerifyCreatesNothing(d: Disk, u: Version, w: World, i: nat, v: Version)
    requires i < |VerifyWrites(d, u, w)| && v in VerifyWrites(d, u, w)[i].releases
    ensures v in d.releases
  {
    if w.healthy && i >= 2 {
      var cleared := d.(verified := Some(u), bad := d.bad - {u});
      PruneSpares(cleared, w.listing, Keepers(cleared, w.newest), w.survives);
      assert SparesCurrent(cleared, VerifyWrites(d, u, w)[i]);
    }
  }

  /** Over every life of the machine: a release directory that was not there before was
      installed by some pass whose channel named it, with an artifact that matched, when it
      was not bad. */
  lemma {:induction false} OnlyVouchedReleasesAppear(d: Disk, script: Script, v: Version) returns (i: nat)
    requires v in Run(d, script).releases && v !in d.releases
    ensures i < |script| && Vouches(script[i].0, Run(d, script[..i]), v)
    decreases |script|
  {
    hide Vouches, DeployWrites;
    var (w, cut) := script[0];
    var next := Cut(d, w, cut);
    if v in next.releases {
      CutIsSomeWrite(d, w, cut);
      var k :| 0 <= k < |DeployWrites(d, w)| && next == DeployWrites(d, w)[k];
      PassCreates(d, w, k, v);
      i := 0;
      assert script[..0] == [];
    } else {
      var j := OnlyVouchedReleasesAppear(next, script[1..], v);
      i := j + 1;
      assert script[..i][1..] == script[1..][..j] && script[..i][0] == script[0];
    }
  }

  // ---------------------------------------------------------------------------
  // Running again after an interruption
  // ---------------------------------------------------------------------------

  /** The disk a cut of an installing pass leaves, in terms of the three files that
      decide the next pass. */
  lemma CutOfInstall(d: Disk, w: World, cut: nat)
    requires CurrentExists(d) && Installs(d, w)
    ensures var v, x, n := w.channel.value, Cut(d, w, cut), |SwapWrites(d, w.channel.value)|;
            && CurrentExists(x)
            && (cut < n ==> x.current == d.current && x.bad == d.bad && x.verified == d.verified)
            && (cut == n ==> x == Swapped(d, v))
            && (cut == n + 1 && !w.healthy ==> x == Swapped(d, v).(bad := d.bad + {v}))
            && (cut > n && w.healthy ==> x.current == Some(v) && x.verified == Some(v))
            && (cut > n + 1 && !w.healthy ==>
                  v in x.bad && (if Replaceable(d) then x.current == d.current
                                 else x == Swapped(d, v).(bad := d.bad + {v})))
  {
    hide CurrentExists, VerifyWrites, CanRollBack, Swapped, SwapWrites, Cut, DeployWrites;
    CutKeepsCurrent(d, w, cut);
    RollsBackToTheReplaced(d, w);
    CutOfSwap(d, w, cut);
    var v, n := w.channel.value, |SwapWrites(d, w.channel.value)|;
    if cut > n {
      var swapped := Swapped(d, v);
      var k := CutAfterSwap(d, w, cut);
      VerifyLength(swapped, v, w);
      CutOfVerify(swapped, v, w, k);
    }
  }

  lemma CutOfSwap(d: Disk, w: World, cut: nat)
    requires Installs(d, w)
    ensures var v, x, n := w.channel.value, Cut(d, w, cut), |SwapWrites(d, w.channel.value)|;
            && (cut < n ==> x.current == d.current && x.bad == d.bad && x.verified == d.verified)
            && (cut == n ==> x == Swapped(d, v))
            && Swapped(d, v).bad == d.bad && Swapped(d, v).current == Some(v)
  {
    hide VerifyWrites;
  }

  lemma CutAfterSwap(d: Disk, w: World, cut: nat) returns (k: nat)
    requires Installs(d, w) && cut > |SwapWrites(d, w.channel.value)|
    ensures var v, n := w.channel.value, |SwapWrites(d, w.channel.value)|;
            var verify := VerifyWrites(Swapped(d, v), v, w);
            && k < |verify| && Cut(d, w, cut) == verify[k]
            && k == if cut - 1 - n < |verify| then cut - 1 - n else |verify| - 1
  {
    hide VerifyWrites, SwapWrites, Swapped;
    var v := w.channel.value;
    var verify := VerifyWrites(Swapped(d, v), v, w);
    var i := cut - 1 - |SwapWrites(d, v)|;
    VerifyLength(Swapped(d, v), v, w);
    k := if i < |verify| then i else |verify| - 1;
  }

  lemma VerifyLength(d: Disk, v: Version, w: World)
    ensures |VerifyWrites(d, v, w)| > 0
    ensures !w.healthy ==> |VerifyWrites(d, v, w)| == if CanRollBack(d, v) then 3 else 1
  {
  }

  lemma CutKeepsCurrent(d: Disk, w: World, cut: nat)
    requires CurrentExists(d)
    ensures CurrentExists(Cut(d, w, cut))
  {
    hide CurrentExists, DeployWrites;
    CutIsSomeWrite(d, w, cut);
    if Cut(d, w, cut) != d {
      var i :| 0 <= i < |DeployWrites(d, w)| && Cut(d, w, cut) == DeployWrites(d, w)[i];
      DeployKeepsCurrent(d, w, i);
    }
  }

  lemma RollsBackToTheReplaced(d: Disk, w: World)
    requires CurrentExists(d) && Installs(d, w)
    ensures var swapped := Swapped(d, w.channel.value);
            && (CanRollBack(swapped, w.channel.value) <==> Replaceable(d))
            && (Replaceable(d) ==> swapped.previous == d.current)
  {
  }

  /** The disk after each write of a health check. */
  lemma CutOfVerify(d: Disk, v: Version, w: World, k: nat)
    requires d.current == Some(v) && v != "" && k < |VerifyWrites(d, v, w)|
    ensures var x := VerifyWrites(d, v, w)[k];
            && (w.healthy ==> x.current == Some(v) && x.verified == Some(v))
            && (!w.healthy && k == 0 ==> x == d.(bad := d.bad + {v}))
            && (!w.healthy && k > 0 ==> v in x.bad && CanRollBack(d, v) && x.current == d.previous)
  {
    if w.healthy && k >= 2 {
      var cleared := d.(verified := Some(v), bad := d.bad - {v});
      PruneSpares(cleared, w.listing, Keepers(cleared, w.newest), w.survives);
      assert SparesCurrent(cleared, VerifyWrites(d, v, w)[k]);
    }
  }

  /** The next pass, with the same channel, artifact and health, as `w`. */
  ghost predicate SameAnswers(w: World, again: World) {
    again.channel == w.channel && again.artifact == w.artifact && again.healthy == w.healthy
  }

  /** Cutting an installing pass anywhere and running it again reaches the same live
      release as never having been cut, when the `verified` file does not already
      name the version being installed. */
  lemma RerunConverges(d: Disk, w: World, cut: nat, again: World)
    requires CurrentExists(d) && Installs(d, w) && SameAnswers(w, again)
    requires w.healthy || d.verified != w.channel || !Replaceable(d)
    ensures Uninterrupted(Cut(d, w, cut), again).current == Uninterrupted(d, w).current
  {
    var v := w.channel.value;
    var x := Cut(d, w, cut);
    CutOfInstall(d, w, cut);
    InstallOutcome(d, w);
    if x.current == d.current {
      if v !in x.bad { InstallOutcome(x, again); }
    } else {
      if x.verified != x.current {
        VerifyOutcome(x, v, again);
        assert CanRollBack(Swapped(d, v), v) <==> Replaceable(d);
      }
    }
  }

  /** A stale `verified` file breaks this: a pass cut right after the swap is then
      taken as trusted, and the unhealthy release stays live unchecked. */
  lemma StaleVerifiedSkipsTheHealthCheck(d: Disk, w: World, again: World)
    requires CurrentExists(d) && Installs(d, w) && SameAnswers(w, again)
    requires !w.healthy && d.verified == w.channel && Replaceable(d)
    ensures var x := Cut(d, w, |SwapWrites(d, w.channel.value)|);
            Uninterrupted(x, again) == x && x.current == w.channel
            && Uninterrupted(d, w).current == d.current != w.channel
  {
    CutOfInstall(d, w, |SwapWrites(d, w.channel.value)|);
    InstallOutcome(d, w);
  }

  /** Cut anywhere and run again, the pass reaches the release it would have reached. */
  ghost predicate ConvergesFromEveryCut(d: Disk, w: World) {
    forall cut: nat, again | SameAnswers(w, again) ::
      Uninterrupted(Cut(d, w, cut), again).current == Uninterrupted(d, w).current
  }

  /** The exact condition under which an interrupted install is safe to run again. */
  lemma RerunConvergesExactlyWhen(d: Disk, w: World)
    requires CurrentExists(d) && Installs(d, w)
    ensures ConvergesFromEveryCut(d, w) <==> (w.healthy || d.verified != w.channel || !Replaceable(d))
  {
    if w.healthy || d.verified != w.channel || !Replaceable(d) {
      forall cut: nat, again | SameAnswers(w, again)
        ensures Uninterrupted(Cut(d, w, cut), again).current == Uninterrupted(d, w).current
      {
        RerunConverges(d, w, cut, again);
      }
    } else {
      StaleVerifiedSkipsTheHealthCheck(d, w, w);
      var n: nat := |SwapWrites(d, w.channel.value)|;
      assert SameAnswers(w, w);
      assert Uninterrupted(Cut(d, w, n), w).current != Uninterrupted(d, w).current;
    }
  }

  /** The same as the operator sees it, who does not know the health beforehand: a rerun is
      safe whatever the health turns out to be exactly when `verified` does not name the
      version already or there is nothing to roll back to. */
  lemma RerunConvergesWhateverTheHealth(d: Disk, w: World)
    requires CurrentExists(d) && Installs(d, w)
    ensures (forall healthy :: ConvergesFromEveryCut(d, w.(healthy := healthy)))
       <==> (d.verified != w.channel || !Replaceable(d))
  {
    hide Uninterrupted, Cut, CurrentExists;
    forall healthy
      ensures ConvergesFromEveryCut(d, w.(healthy := healthy)) <==>
              (healthy || d.verified != w.channel || !Replaceable(d))
    {
      RerunConvergesExactlyWhen(d, w.(healthy := healthy));
    }
    assert ConvergesFromEveryCut(d, w.(healthy := false)) <==> (d.verified != w.channel || !Replaceable(d));
  }

  /** Such a disk is reachable from an empty machine: install a, install b and lose
      power before its health check, then move the channel back to a. */
  lemma StaleVerifiedIsReachable()
    ensures exists script: Script, w: World ::
              var d := Run(Disk(None, map[], None, None, {}), script);
              CurrentExists(d) && Installs(d, w) && !w.healthy && d.verified == w.channel && Replaceable(d)
  {
    var empty := Disk(None, map[], None, None, {});
    var toA := World(Some("a"), true, true, [], {}, map[]);
    var toB := World(Some("b"), true, true, [], {}, map[]);
    var script: Script := [(toA, 5), (toB, 3)];
    var one := Disk(Some("a"), map["a" := Whole], Some("none"), Some("a"), {});
    assert DeployWrites(empty, toA) == SwapWrites(empty, "a") + VerifyWrites(Swapped(empty, "a"), "a", toA);
    assert Cut(empty, toA, 5) == one;
    var two := Disk(Some("b"), map["a" := Whole, "b" := Whole], Some("a"), Some("a"), {});
    assert Cut(one, toB, 3) == two;
    assert script[1..] == [(toB, 3)];
    assert Run(two, []) == two;
    assert Run(one, [(toB, 3)]) == two by { assert [(toB, 3)][1..] == []; }
    assert Run(empty, script) == two;
    var back := World(Some("a"), true, false, [], {}, map[]);
    assert Installs(two, back);
  }

  // ---------------------------------------------------------------------------
  // The agent itself, write by write
  // ---------------------------------------------------------------------------

  /** The agent's files. `history` records the disk after every write. */
  class Agent {
    var current: Option<Version>
    var releases: map<Version, Dir>
    var previous: Option<string>
    var verified: Option<string>
    var bad: set<Version>
    ghost var history: seq<Disk>

    function OnDisk(): Disk
      reads this
    {
      Disk(current, releases, previous, verified, bad)
    }

    constructor (d: Disk)
      ensures OnDisk() == d && history == []
    {
      current, releases, previous, verified, bad := d.current, d.releases, d.previous, d.verified, d.bad;
      history := [];
    }

    method AddBad(v: Version)
      modifies this
      ensures OnDisk() == old(OnDisk()).(bad := old(bad) + {v})
      ensures history == old(history) + [OnDisk()]
    {
      bad := bad + {v};
      history := history + [OnDisk()];
    }

    method ClearBad(v: Version)
      modifies this
      ensures OnDisk() == old(OnDisk()).(bad := old(bad) - {v})
      ensures history == old(history) + [OnDisk()]
    {
      bad := bad - {v};
      history := history + [OnDisk()];
    }

    method WritePrevious(value: string)
      modifies this
      ensures OnDisk() == old(OnDisk()).(previous := Some(value))
      ensures history == old(history) + [OnDisk()]
    {
      previous := Some(value);
      history := history + [OnDisk()];
    }

    method WriteVerified(value: string)
      modifies this
      ensures OnDisk() == old(OnDisk()).(verified := Some(value))
      ensures history == old(history) + [OnDisk()]
    {
      verified := Some(value);
      history := history + [OnDisk()];
    }

    method PointCurrentAt(v: Version)
      modifies this
      ensures OnDisk() == old(OnDisk()).(current := Some(v))
      ensures history == old(history) + [OnDisk()]
    {
      current := Some(v);
      history := history + [OnDisk()];
    }

    method RemoveTree(v: Version)
      modifies this
      ensures history == old(history) + RemoveWrites(old(OnDisk()), v)
      ensures OnDisk() == Final(old(OnDisk()), RemoveWrites(old(OnDisk()), v))
    {
      if v in releases {
        ghost var d := OnDisk();
        releases := releases[v := Damaged];
        history := history + [OnDisk()];
        releases := releases - {v};
        history := history + [OnDisk()];
        assert OnDisk() == d.(releases := d.releases - {v});
      }
    }

    method InstallRelease(v: Version)
      modifies this
      ensures history == old(history) + InstallWrites(old(OnDisk()), v)
      ensures OnDisk() == Last(InstallWrites(old(OnDisk()), v))
    {
      RemoveTree(v);
      releases := releases[v := Whole];
      history := history + [OnDisk()];
    }

    /** Removal with errors ignored. */
    method RemoveIfPossible(v: Version, survives: map<Version, Dir>)
      modifies this
      ensures history == old(history) + PruneOne(old(OnDisk()), v, survives)
      ensures OnDisk() == Final(old(OnDisk()), PruneOne(old(OnDisk()), v, survives))
    {
      if v in releases && v in survives {
        releases := releases[v := Leftover(releases[v], survives[v])];
        history := history + [OnDisk()];
      } else {
        RemoveTree(v);
      }
    }

    method Prune(listing: seq<Version>, newest: set<Version>, survives: map<Version, Dir>)
      modifies this
      ensures var writes := PruneWrites(old(OnDisk()), listing, Keepers(old(OnDisk()), newest), survives);
              history == old(history) + writes && OnDisk() == Final(old(OnDisk()), writes)
    {
      hide PruneWrites, PruneOne, Final;
      var keepers := newest;
      if current.Some? && current.value != "" {
        keepers := keepers + {current.value};
      }
      var i := 0;
      ghost var d, done := OnDisk(), [];
      NoWrites(d);
      assert listing[0..] == listing;
      while i < |listing|
        invariant i <= |listing|
        invariant history == old(history) + done && OnDisk() == Final(d, done)
        invariant PruneWrites(d, listing, keepers, survives) ==
                  done + PruneWrites(OnDisk(), listing[i..], keepers, survives)
      {
        PruneUnrolls(OnDisk(), listing, i, keepers, survives);
        if listing[i] !in keepers {
          ghost var removal := PruneOne(OnDisk(), listing[i], survives);
          ghost var rest := PruneWrites(Final(OnDisk(), removal), listing[i + 1..], keepers, survives);
          FinalConcat(d, done, removal);
          Associative(done, removal, rest);
          Associative(old(history), done, removal);
          RemoveIfPossible(listing[i], survives);
          done := done + removal;
        }
        i := i + 1;
      }
      assert listing[i..] == [] && done + [] == done;
      NothingToPrune(OnDisk(), keepers, survives);
    }

    method VerifyInstalled(v: Version, w: World) returns (exit: int)
      modifies this
      ensures history == old(history) + VerifyWrites(old(OnDisk()), v, w)
      ensures OnDisk() == Final(old(OnDisk()), VerifyWrites(old(OnDisk()), v, w))
      ensures exit == if w.healthy then 0 else 1
    {
      if w.healthy {
        WriteVerified(v);
        ClearBad(v);
        Prune(w.listing, w.newest, w.survives);
        return 0;
      }
      AddBad(v);
      if previous.Some? && previous.value != "" && previous.value != NO_PREVIOUS
         && previous.value != v && previous.value in releases
      {
        var back := previous.value;
        PointCurrentAt(back);
        WriteVerified(back);
      }
      return 1;
    }

    /** The installing half of a pass. */
    method InstallAndVerify(v: Version, w: World) returns (exit: int)
      modifies this
      ensures history == old(history) + (SwapWrites(old(OnDisk()), v) + VerifyWrites(Swapped(old(OnDisk()), v), v, w))
      ensures OnDisk() == Final(Swapped(old(OnDisk()), v), VerifyWrites(Swapped(old(OnDisk()), v), v, w))
      ensures exit == if w.healthy then 0 else 1
    {
      hide VerifyWrites, InstallWrites, Final;
      ghost var d, before := OnDisk(), history;
      var was := current;
      InstallRelease(v);
      WritePrevious(if was.Some? && was.value != "" then was.value else NO_PREVIOUS);
      PointCurrentAt(v);
      assert OnDisk() == Swapped(d, v) && history == before + SwapWrites(d, v);
      Associative(before, SwapWrites(d, v), VerifyWrites(Swapped(d, v), v, w));
      exit := VerifyInstalled(v, w);
    }

    /** One pass: it writes exactly `DeployWrites`, in that order. */
    method Deploy(w: World) returns (exit: int)
      modifies this
      ensures history == old(history) + DeployWrites(old(OnDisk()), w)
      ensures OnDisk() == Uninterrupted(old(OnDisk()), w)
      ensures exit == 0 && w.channel.Some? && ValidVersion(w.channel.value) ==>
                (OnDisk().current == w.channel && OnDisk().verified == w.channel) || w.channel.value in old(bad)
      ensures exit == if w.channel.None? then 0
                      else if !ValidVersion(w.channel.value) then 1
                      else if w.channel == old(current) then (if old(verified) == w.channel || w.healthy then 0 else 1)
                      else if w.channel.value in old(bad) then 0
                      else if w.artifact && w.healthy then 0 else 1
      ensures w.channel != old(current) && !w.artifact ==> OnDisk() == old(OnDisk()) && history == old(history)
    {
      hide VerifyWrites, SwapWrites, Swapped;
      ghost var d := OnDisk();
      if w.channel.None? {
        return 0;
      }
      var v := w.channel.value;
      if !ValidVersion(v) {
        return 1;
      }
      if Some(v) == current {
        if verified != current {
          VerifyOutcome(d, v, w);
          exit := VerifyInstalled(v, w);
          return;
        }
        return 0;
      }
      if v in bad {
        return 0;
      }
      if !w.artifact {
        return 1;
      }
      SwapEnds(d, v);
      VerifyOutcome(Swapped(d, v), v, w);
      FinalConcat(d, SwapWrites(d, v), VerifyWrites(Swapped(d, v), v, w));
      exit := InstallAndVerify(v, w);
    }
  }

  lemma NoWrites(d: Disk)
    ensures Final(d, []) == d
  {
  }

  lemma NothingToPrune(d: Disk, keepers: set<Version>, survives: map<Version, Dir>)
    ensures PruneWrites(d, [], keepers, survives) == []
  {
  }

  lemma PruneUnrolls(d: Disk, listing: seq<Version>, i: nat, keepers: set<Version>, survives: map<Version, Dir>)
    requires i < |listing|
    ensures var removal := PruneOne(d, listing[i], survives);
            PruneWrites(d, listing[i..], keepers, survives) ==
            if listing[i] in keepers then PruneWrites(d, listing[i + 1..], keepers, survives)
            else removal + PruneWrites(Final(d, removal), listing[i + 1..], keepers, survives)
  {
    hide PruneOne, Final;
    assert listing[i..][1..] == listing[i + 1..];
  }

  lemma SwapEnds(d: Disk, v: Version)
    ensures Final(d, SwapWrites(d, v)) == Swapped(d, v) && Swapped(d, v).current == Some(v)
  {
  }
}
