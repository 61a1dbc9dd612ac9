/**
 Shipping the audit trail: a gateway that records events into a bounded channel, a
 shipper that chains and posts them, a network that loses, delays and repeats
 requests, and a control plane that appends a batch when it links to its head.

 The system is a state machine; a run is any sequence of its steps, restarts of the
 gateway included. Log entries carry two tags that only the model sees: which
 process sent them (`epoch`) and which event of that process they hold (`position`).
 */
module AuditShipping {
  import opened Common
  import opened AuditChain

  const AUDIT_BUFFER := 4096
  const BATCH_MAX := 256
  const MAX_PENDING := 10_000

  datatype Config = Config(digest: Digest, mode: Mode)

  // ---------------------------------------------------------------------------
  // The shipper's own variables
  // ---------------------------------------------------------------------------

  type NextSeq = n: int | 1 <= n witness 1

  /** The variables of the shipping loop; `backoff` is in seconds. */
  datatype Shipper = Shipper(pending: seq<AuditEvent>, nextSeq: NextSeq, prevHash: Bytes, backoff: nat)

  function Base(g: Shipper): Head {
    Head(g.nextSeq - 1, g.prevHash)
  }

  function Admit(mode: Mode, pending: seq<AuditEvent>, e: AuditEvent): seq<AuditEvent> {
    if Ships(mode, e) then pending + [e] else pending
  }

  function BatchSize(g: Shipper): (n: nat)
    ensures n <= |g.pending| && n <= BATCH_MAX
  {
    if |g.pending| < BATCH_MAX then |g.pending| else BATCH_MAX
  }

  function NextBatch(c: Config, g: Shipper): Chained {
    Chain(c.digest, c.mode, g.pending[..BatchSize(g)], Base(g))
  }

  /** An accepted batch moves the chain on and leaves `pending`. */
  function Acknowledge(c: Config, g: Shipper): Shipper {
    var next := NextBatch(c, g);
    g.(nextSeq := g.nextSeq + |next.batch|, prevHash := next.tail.hash,
       pending := g.pending[BatchSize(g)..], backoff := 1)
  }

  function RebaseOn(g: Shipper, head: Head): Shipper {
    g.(nextSeq := head.seqNo + 1, prevHash := head.hash)
  }

  function BackOff(g: Shipper): Shipper {
    g.(backoff := if 2 * g.backoff < 60 then 2 * g.backoff else 60)
  }

  /** The drop-oldest branch. */
  function DropOverflow(pending: seq<AuditEvent>): seq<AuditEvent> {
    if |pending| > MAX_PENDING then pending[|pending| - MAX_PENDING..] else pending
  }

  /** Where a starting shipper takes up the chain: the control plane's head, else the
      local record, else genesis. */
  function ResumeFrom(fetched: Option<Head>, tail: Option<Head>): Head {
    if fetched.Some? then fetched.value else if tail.Some? then tail.value else Genesis()
  }

  // ---------------------------------------------------------------------------
  // The system
  // ---------------------------------------------------------------------------

  /** A request on the wire: `batch` is what is sent, the rest are tags. */
  datatype Packet = Packet(id: nat, epoch: nat, lo: nat, base: Head, events: seq<AuditEvent>, batch: seq<Wire>)

  datatype Entry = Entry(wire: Wire, epoch: nat, position: nat)

  datatype Phase =
    | Resuming(answer: Option<Head>)
    | Polling
    | Filling
    | Shipping(packet: Packet, accepted: bool)
    | Rebasing(answer: Option<Head>)
    | Sleeping
    | Draining
    | Stopped

  datatype System = System(
    // the gateway process
    epoch: nat,
    phase: Phase,
    g: Shipper,
    channel: seq<AuditEvent>,
    closed: bool,
    // what this process has seen: every event handed to `record`, with whether the
    // channel took it; every event the shipper received; every event acknowledged
    recorded: seq<(AuditEvent, bool)>,
    taken: seq<AuditEvent>,
    acked: seq<AuditEvent>,
    // outlives the process
    tail: Option<Head>,
    sent: nat,
    net: set<Packet>,
    log: seq<Entry>)

  /** What became of writing the chain tail. */
  datatype Persist = Written | Kept | Torn

  /** What the chain file then reads as: a torn one does not parse. */
  function AfterPersist(persist: Persist, head: Head, before: Option<Head>): Option<Head> {
    match persist
    case Written => Some(head)
    case Kept => before
    case Torn => None
  }

  datatype Action =
    | Record(event: AuditEvent)
    | Close
    | Restart
    | AnswerHead
    | Resume(online: bool)
    | Receive
    | StartFill
    | Take
    | FillDone
    | Deliver(packet: Packet, accept: bool)
    | ReplyOk(persist: Persist)
    | ReplyError(conflict: bool)
    | Rebase
    | RebaseFailed
    | Wake
    | DrainDone
    | Stop

  function Wires(log: seq<Entry>): (r: seq<Wire>)
    ensures |r| == |log|
  {
    seq(|log|, i requires 0 <= i < |log| => log[i].wire)
  }

  function LogHead(c: Config, log: seq<Entry>): (h: Head)
    ensures h.seqNo == |log|
  {
    HeadOf(c.digest, JsonsOf(Wires(log)))
  }

  function Entries(p: Packet): (r: seq<Entry>)
    ensures |r| == |p.batch|
  {
    seq(|p.batch|, i requires 0 <= i < |p.batch| => Entry(p.batch[i], p.epoch, p.lo + i))
  }

  function NewPacket(c: Config, s: System): Packet {
    Packet(s.sent, s.epoch, |s.acked|, Base(s.g), s.g.pending[..BatchSize(s.g)], NextBatch(c, s.g).batch)
  }

  predicate CanTake(s: System) {
    s.channel != [] &&
    ((s.phase.Filling? && |s.g.pending| < BATCH_MAX) || (s.phase.Draining? && |s.g.pending| < MAX_PENDING))
  }

  predicate Enabled(c: Config, s: System, a: Action) {
    match a
    case Record(_) => !s.closed
    case Close => true
    case Restart => true
    case AnswerHead => s.phase.Resuming? || s.phase.Rebasing?
    case Resume(online) => s.phase.Resuming? && (online ==> s.phase.answer.Some?)
    case Receive => s.phase.Polling? && s.g.pending == [] && s.channel != []
    case StartFill => s.phase.Polling? && s.g.pending != []
    case Take => CanTake(s)
    case FillDone => s.phase.Filling? && !CanTake(s)
    case Deliver(p, accept) =>
      // A platform control plane may refuse a linking batch that names a stranger.
      && p in s.net
      && (accept ==> Links(c.digest, LogHead(c, s.log), p.batch))
      && (c.mode.SingleOrg? && Links(c.digest, LogHead(c, s.log), p.batch) ==> accept)
    case ReplyOk(_) => s.phase.Shipping? && s.phase.accepted
    case ReplyError(_) => s.phase.Shipping?
    case Rebase => s.phase.Rebasing? && s.phase.answer.Some?
    case RebaseFailed => s.phase.Rebasing?
    case Wake => s.phase.Sleeping?
    case DrainDone => s.phase.Draining? && !CanTake(s)
    case Stop => s.phase.Polling? && s.g.pending == [] && s.channel == [] && s.closed
  }

  function TakeOne(c: Config, s: System): System
    requires s.channel != []
  {
    s.(g := s.g.(pending := Admit(c.mode, s.g.pending, s.channel[0])),
       channel := s.channel[1..], taken := s.taken + [s.channel[0]])
  }

  const FRESH_SHIPPER: Shipper := Shipper([], 1, GenesisHash(), 1)

  function Apply(c: Config, s: System, a: Action): System
    requires Enabled(c, s, a)
  {
    match a
    case Record(e) =>
      if |s.channel| < AUDIT_BUFFER then s.(channel := s.channel + [e], recorded := s.recorded + [(e, true)])
      else s.(recorded := s.recorded + [(e, false)])
    case Close => s.(closed := true)
    case Restart =>
      s.(epoch := s.epoch + 1, phase := Resuming(None), g := FRESH_SHIPPER, channel := [], closed := false,
         recorded := [], taken := [], acked := [])
    case AnswerHead =>
      var head := Some(LogHead(c, s.log));
      s.(phase := if s.phase.Resuming? then Resuming(head) else Rebasing(head))
    case Resume(online) =>
      var head := ResumeFrom(if online then s.phase.answer else None, s.tail);
      s.(phase := Polling, g := RebaseOn(s.g, head))
    case Receive =>
      var next := TakeOne(c, s);
      next.(phase := if next.g.pending == [] then Polling else Filling)
    case StartFill => s.(phase := Filling)
    case Take => TakeOne(c, s)
    case FillDone =>
      var p := NewPacket(c, s);
      if p.batch == [] then s.(g := s.g.(pending := s.g.pending[BatchSize(s.g)..]), phase := Polling)
      else s.(phase := Shipping(p, false), net := s.net + {p}, sent := s.sent + 1)
    case Deliver(p, accept) =>
      if !accept then s
      else
        s.(log := s.log + Entries(p),
           phase := if s.phase.Shipping? && s.phase.packet == p then Shipping(p, true) else s.phase)
    case ReplyOk(persist) =>
      var g := Acknowledge(c, s.g);
      s.(phase := Polling, g := g, acked := s.acked + s.g.pending[..BatchSize(s.g)],
         tail := AfterPersist(persist, Base(g), s.tail))
    case ReplyError(conflict) => s.(phase := if conflict then Rebasing(None) else Sleeping)
    case Rebase => s.(phase := Polling, g := RebaseOn(s.g, s.phase.answer.value))
    case RebaseFailed => s.(phase := Sleeping)
    case Wake => s.(phase := Draining, g := BackOff(s.g))
    case DrainDone => s.(phase := Polling, g := s.g.(pending := DropOverflow(s.g.pending)))
    case Stop => s.(phase := Stopped)
  }

  const INITIAL: System :=
    System(0, Resuming(None), FRESH_SHIPPER, [], false, [], [], [], None, 0, {}, [])

  /** The state after the actions, or `None` if one of them is not possible there. */
  function Run(c: Config, actions: seq<Action>): Option<System> {
    if actions == [] then Some(INITIAL)
    else
      var before := Run(c, actions[..|actions| - 1]);
      if before.Some? && Enabled(c, before.value, Last(actions)) then Some(Apply(c, before.value, Last(actions)))
      else None
  }

  // ---------------------------------------------------------------------------
  // The invariant
  // ---------------------------------------------------------------------------

  /** The events of this process that are filed, in the order they were received. */
  function Admitted(s: System): seq<AuditEvent> {
    s.acked + s.g.pending
  }

  function QueuedOf(recorded: seq<(AuditEvent, bool)>): seq<AuditEvent> {
    if recorded == [] then []
    else QueuedOf(recorded[..|recorded| - 1]) + (if Last(recorded).1 then [Last(recorded).0] else [])
  }

  /** Every recorded event was refused, is queued, was rejected, is pending, or is
      acknowledged; order is kept; nothing exceeds its bound. */
  ghost predicate Conserved(c: Config, s: System) {
    && QueuedOf(s.recorded) == s.taken + s.channel
    && Shipped(c.mode, s.taken) == s.acked + s.g.pending
    && |s.channel| <= AUDIT_BUFFER
    && |s.g.pending| <= MAX_PENDING
    && 1 <= s.g.backoff <= 60
  }

  /** `head` is, or once was, the head of the log. */
  ghost predicate PastHead(c: Config, log: seq<Entry>, head: Head) {
    head.seqNo <= |log| && head == LogHead(c, log[..head.seqNo])
  }

  ghost predicate OptPastHead(c: Config, log: seq<Entry>, head: Option<Head>) {
    head.Some? ==> PastHead(c, log, head.value)
  }

  ghost predicate HonestPacket(c: Config, s: System, p: Packet) {
    && p.events != []
    && (forall e :: e in p.events ==> Ships(c.mode, e))
    && p.batch == Chain(c.digest, c.mode, p.events, p.base).batch
    && PastHead(c, s.log, p.base)
    && p.epoch <= s.epoch
    && (p.epoch == s.epoch ==>
          p.lo <= |s.acked| && p.lo + |p.events| <= |Admitted(s)| && p.events == Admitted(s)[p.lo..p.lo + |p.events|])
  }

  ghost predicate HonestEntry(c: Config, s: System, e: Entry) {
    && e.epoch <= s.epoch
    && (e.epoch == s.epoch ==>
          && e.position < |Admitted(s)|
          && e.wire.json == Admitted(s)[e.position].json
          && (c.mode.Platform? ==> e.wire.orgId == Admitted(s)[e.position].orgId))
  }

  /** The positions of this process's entries, in log order. */
  function Positions(log: seq<Entry>, epoch: nat): seq<nat> {
    if log == [] then []
    else Positions(log[..|log| - 1], epoch) + (if Last(log).epoch == epoch then [Last(log).position] else [])
  }

  /** A sequence without its repetitions: each value where it first occurs. */
  function FirstOccurrences(s: seq<nat>): seq<nat> {
    if s == [] then []
    else
      var before := FirstOccurrences(s[..|s| - 1]);
      if Last(s) in before then before else before + [Last(s)]
  }

  function Upto(n: nat): seq<nat> {
    seq(n, i => i)
  }

  /** How many distinct events of this process the log holds. */
  function Covered(s: System): nat {
    |FirstOccurrences(Positions(s.log, s.epoch))|
  }

  /** The log holds this process's events without a gap, first occurrences in order,
      and at least every acknowledged one. */
  ghost predicate InOrder(s: System) {
    && FirstOccurrences(Positions(s.log, s.epoch)) == Upto(Covered(s))
    && |s.acked| <= Covered(s) <= |Admitted(s)|
  }

  ghost predicate PhaseOk(c: Config, s: System) {
    && (s.phase.Resuming? || s.phase.Rebasing? ==> OptPastHead(c, s.log, s.phase.answer))
    && (s.phase.Resuming? ==> s.g.pending == [] && s.acked == [])
    && (s.phase.Filling? || s.phase.Shipping? ==> s.g.pending != [])
    && (s.phase.Shipping? ==>
          && s.phase.packet in s.net
          && s.phase.packet.epoch == s.epoch
          && s.phase.packet.lo == |s.acked|
          && s.phase.packet.base == Base(s.g)
          && s.phase.packet.events == s.g.pending[..BatchSize(s.g)]
          && (s.phase.accepted ==>
                PastHead(c, s.log, NextBatch(c, s.g).tail) && |s.acked| + BatchSize(s.g) <= Covered(s)))
  }

  ghost predicate Inv(c: Config, s: System) {
    && Conserved(c, s)
    && Links(c.digest, Genesis(), Wires(s.log))
    && PastHead(c, s.log, Base(s.g))
    && OptPastHead(c, s.log, s.tail)
    && (forall p :: p in s.net ==> HonestPacket(c, s, p))
    && (forall i :: 0 <= i < |s.log| ==> HonestEntry(c, s, s.log[i]))
    && InOrder(s)
    && PhaseOk(c, s)
  }

  // ---------------------------------------------------------------------------
  // Facts about prefixes, positions and first occurrences
  // ---------------------------------------------------------------------------

  lemma PastHeadStays(c: Config, log: seq<Entry>, more: seq<Entry>, head: Head)
    requires PastHead(c, log, head)
    ensures PastHead(c, log + more, head)
  {
    assert (log + more)[..head.seqNo] == log[..head.seqNo];
  }

  lemma LogHeadIsPast(c: Config, log: seq<Entry>)
    ensures PastHead(c, log, LogHead(c, log))
  {
    assert log[..|log|] == log;
  }

  lemma GenesisIsPast(c: Config, log: seq<Entry>)
    ensures PastHead(c, log, Genesis())
  {
    assert JsonsOf(Wires(log[..0])) == [];
  }

  lemma {:induction false} PositionsConcat(a: seq<Entry>, b: seq<Entry>, epoch: nat)
    ensures Positions(a + b, epoch) == Positions(a, epoch) + Positions(b, epoch)
  {
    if b == [] {
      assert a + b == a;
    } else {
      var b' := b[..|b| - 1];
      PositionsConcat(a, b', epoch);
      assert (a + b)[..|a + b| - 1] == a + b' && Last(a + b) == Last(b);
    }
  }

  function Interval(lo: nat, n: nat): (r: seq<nat>)
    ensures |r| == n
  {
    seq(n, i => lo + i)
  }

  lemma {:induction false} PositionsOfRun(log: seq<Entry>, epoch: nat, lo: nat)
    requires forall i :: 0 <= i < |log| ==> log[i].epoch == epoch && log[i].position == lo + i
    ensures Positions(log, epoch) == Interval(lo, |log|)
  {
    if log != [] {
      PositionsOfRun(log[..|log| - 1], epoch, lo);
      assert Interval(lo, |log|) == Interval(lo, |log| - 1) + [lo + |log| - 1];
    }
  }

  lemma {:induction false} PositionsOfOthers(log: seq<Entry>, epoch: nat)
    requires forall i :: 0 <= i < |log| ==> log[i].epoch != epoch
    ensures Positions(log, epoch) == []
  {
    if log != [] {
      PositionsOfOthers(log[..|log| - 1], epoch);
    }
  }

  lemma FirstOccurrencesOfOneMore(s: seq<nat>, n: nat, x: nat)
    requires FirstOccurrences(s) == Upto(n) && x <= n
    ensures FirstOccurrences(s + [x]) == Upto(if x == n then n + 1 else n)
  {
    var whole := s + [x];
    assert whole[..|whole| - 1] == s && Last(whole) == x;
    if x < n {
      assert Upto(n)[x] == x;
    } else {
      assert Upto(n) + [n] == Upto(n + 1);
    }
  }

  /** Appending a run that starts no later than the first gap keeps first occurrences gap-free. */
  lemma {:induction false} FirstOccurrencesOfRun(s: seq<nat>, n: nat, lo: nat, count: nat)
    requires FirstOccurrences(s) == Upto(n) && lo <= n
    ensures FirstOccurrences(s + Interval(lo, count)) == Upto(if lo + count > n then lo + count else n)
  {
    hide FirstOccurrences, Upto;
    if count == 0 {
      assert s + Interval(lo, count) == s;
    } else {
      FirstOccurrencesOfRun(s, n, lo, count - 1);
      var m := if lo + count - 1 > n then lo + count - 1 else n;
      FirstOccurrencesOfOneMore(s + Interval(lo, count - 1), m, lo + count - 1);
      assert s + Interval(lo, count) == s + Interval(lo, count - 1) + [lo + count - 1];
    }
  }

  // ---------------------------------------------------------------------------
  // Each action keeps the invariant
  // ---------------------------------------------------------------------------

  /** What is known of packets and entries survives when this process only gains events. */
  lemma KnownStaysKnown(c: Config, s: System, t: System)
    requires t.log == s.log && t.epoch == s.epoch && t.net == s.net
    requires |s.acked| <= |t.acked| && Admitted(s) <= Admitted(t)
    requires forall p :: p in s.net ==> HonestPacket(c, s, p)
    requires forall i :: 0 <= i < |s.log| ==> HonestEntry(c, s, s.log[i])
    ensures forall p :: p in t.net ==> HonestPacket(c, t, p)
    ensures forall i :: 0 <= i < |t.log| ==> HonestEntry(c, t, t.log[i])
  {
    forall p | p in t.net
      ensures HonestPacket(c, t, p)
    {
      assert HonestPacket(c, s, p);
      if p.epoch == t.epoch {
        assert Admitted(t)[p.lo..p.lo + |p.events|] == Admitted(s)[p.lo..p.lo + |p.events|];
      }
    }
    forall i | 0 <= i < |t.log|
      ensures HonestEntry(c, t, t.log[i])
    {
      assert HonestEntry(c, s, s.log[i]);
    }
  }

  lemma RecordKeepsInv(c: Config, s: System, e: AuditEvent)
    requires Inv(c, s) && Enabled(c, s, Record(e))
    ensures Inv(c, Apply(c, s, Record(e)))
  {
    hide Chain, Links, FirstOccurrences, Positions;
    var t := Apply(c, s, Record(e));
    KnownStaysKnown(c, s, t);
    assert t.recorded[..|t.recorded| - 1] == s.recorded;
  }

  lemma TakeKeepsConserved(c: Config, s: System)
    requires Conserved(c, s) && s.channel != [] && |s.g.pending| < MAX_PENDING
    ensures Conserved(c, TakeOne(c, s))
    ensures Admitted(s) <= Admitted(TakeOne(c, s))
  {
    var t := TakeOne(c, s);
    var e := s.channel[0];
    assert s.taken + s.channel == t.taken + t.channel;
    ShippedConcat(c.mode, s.taken, [e]);
    assert Shipped(c.mode, [e]) == if Ships(c.mode, e) then [e] else [];
    assert Ships(c.mode, e) ==> (s.acked + s.g.pending) + [e] == s.acked + t.g.pending;
  }

  lemma TakeKeepsInv(c: Config, s: System, a: Action)
    requires Inv(c, s) && Enabled(c, s, a) && (a.Take? || a.Receive?)
    ensures Inv(c, Apply(c, s, a))
  {
    hide Chain, Links, FirstOccurrences, Positions;
    TakeKeepsConserved(c, s);
    KnownStaysKnown(c, s, Apply(c, s, a));
  }

  /** Every pending event is one that ships, so a batch takes exactly what it chains. */
  lemma PendingAllShips(c: Config, s: System)
    requires Conserved(c, s)
    ensures forall e :: e in s.g.pending ==> Ships(c.mode, e)
    ensures |NextBatch(c, s.g).batch| == BatchSize(s.g)
  {
    ShippedAllShip(c.mode, s.taken);
    forall e | e in s.g.pending
      ensures Ships(c.mode, e)
    {
      assert e in s.acked + s.g.pending;
    }
    var front := s.g.pending[..BatchSize(s.g)];
    ShippedAllShip(c.mode, front);
    SkippingLeavesNoTrace(c.digest, c.mode, front, Base(s.g));
  }

  lemma FillDoneKeepsInv(c: Config, s: System)
    requires Inv(c, s) && Enabled(c, s, FillDone)
    ensures Apply(c, s, FillDone).phase.Shipping?
    ensures Inv(c, Apply(c, s, FillDone))
  {
    hide Chain, Links, FirstOccurrences, Positions, HeadOf, LogHead;
    PendingAllShips(c, s);
    var t := Apply(c, s, FillDone);
    var p := NewPacket(c, s);
    forall q | q in t.net
      ensures HonestPacket(c, t, q)
    {
      if q != p {
        assert HonestPacket(c, s, q);
      } else {
        SliceBehind(s.acked, s.g.pending, BatchSize(s.g));
      }
    }
    forall i | 0 <= i < |t.log|
      ensures HonestEntry(c, t, t.log[i])
    {
      assert HonestEntry(c, s, s.log[i]);
    }
  }

  lemma SliceBehind(a: seq<AuditEvent>, b: seq<AuditEvent>, n: nat)
    requires n <= |b|
    ensures (a + b)[|a|..|a| + n] == b[..n]
  {
  }

  /** A packet's batch has one wire event per event, each carrying it. */
  lemma PacketCarries(c: Config, p: Packet, i: nat)
    requires p.batch == Chain(c.digest, c.mode, p.events, p.base).batch
    requires forall e :: e in p.events ==> Ships(c.mode, e)
    requires i < |p.events|
    ensures |p.batch| == |p.events|
    ensures p.batch[i].seqNo == p.base.seqNo + 1 + i && p.batch[i].json == p.events[i].json
    ensures c.mode.Platform? ==> p.batch[i].orgId == p.events[i].orgId
  {
    BatchCarriesItsEvents(c.digest, c.mode, p.events, p.base, i);
  }

  /** A batch in flight is accepted exactly when the log has not moved since the batch
      was based on it: everything else is answered with a conflict. */
  lemma AcceptedExactlyWhenTheLogHasNotMoved(c: Config, s: System, p: Packet)
    requires Inv(c, s) && p in s.net
    ensures Links(c.digest, LogHead(c, s.log), p.batch) <==> |s.log| == p.base.seqNo
  {
    hide Chain;
    assert HonestPacket(c, s, p);
    PacketCarries(c, p, 0);
    if |s.log| == p.base.seqNo {
      assert s.log[..|s.log|] == s.log;
      ChainLinks(c.digest, c.mode, p.events, p.base);
    }
  }

  lemma AppendKeepsTheChain(c: Config, s: System, p: Packet)
    requires Links(c.digest, Genesis(), Wires(s.log))
    requires Links(c.digest, LogHead(c, s.log), p.batch)
    ensures Links(c.digest, Genesis(), Wires(s.log + Entries(p)))
  {
    hide AdvanceAll, Links;
    assert Wires(s.log + Entries(p)) == Wires(s.log) + p.batch;
    LinksConcat(c.digest, Genesis(), Wires(s.log), p.batch);
  }

  lemma JsonsAfter(log: seq<Entry>, p: Packet)
    ensures JsonsOf(Wires(log + Entries(p))) == JsonsOf(Wires(log)) + JsonsOf(p.batch)
  {
  }

  /** After the append, the head is the tail the shipper computed. */
  lemma AppendReachesTheTail(c: Config, s: System, p: Packet)
    requires HonestPacket(c, s, p) && |s.log| == p.base.seqNo
    ensures LogHead(c, s.log + Entries(p)) == Chain(c.digest, c.mode, p.events, p.base).tail
  {
    hide Chain, AdvanceAll;
    assert s.log[..|s.log|] == s.log;
    ChainTailIsTheNewHead(c.digest, c.mode, p.events, p.base);
    JsonsAfter(s.log, p);
    AdvanceAllConcat(c.digest, Genesis(), JsonsOf(Wires(s.log)), JsonsOf(p.batch));
  }

  lemma AppendKeepsOrder(c: Config, s: System, p: Packet)
    requires InOrder(s) && HonestPacket(c, s, p) && |p.batch| == |p.events|
    ensures InOrder(s.(log := s.log + Entries(p)))
    ensures Covered(s) <= Covered(s.(log := s.log + Entries(p)))
    ensures p.epoch == s.epoch ==> p.lo + |p.events| <= Covered(s.(log := s.log + Entries(p)))
  {
    hide Chain, FirstOccurrences, Positions, PastHead;
    var added := Entries(p);
    PositionsConcat(s.log, added, s.epoch);
    if p.epoch == s.epoch {
      PositionsOfRun(added, s.epoch, p.lo);
      FirstOccurrencesOfRun(Positions(s.log, s.epoch), Covered(s), p.lo, |added|);
    } else {
      PositionsOfOthers(added, s.epoch);
      assert Positions(s.log, s.epoch) + [] == Positions(s.log, s.epoch);
    }
  }

  lemma DeliverKeepsInv(c: Config, s: System, p: Packet, accept: bool)
    requires Inv(c, s) && Enabled(c, s, Deliver(p, accept))
    ensures Inv(c, Apply(c, s, Deliver(p, accept)))
  {
    hide Chain, Links, FirstOccurrences, Positions, AdvanceAll;
    if accept {
      assert HonestPacket(c, s, p);
      AcceptedExactlyWhenTheLogHasNotMoved(c, s, p);
      AppendKeepsTheChain(c, s, p);
      AppendReachesTheTail(c, s, p);
      PacketCarries(c, p, 0);
      AppendKeepsOrder(c, s, p);
      AppendKeepsHonesty(c, s, p);
      AppendKeepsPhase(c, s, p);
    }
  }

  lemma AppendKeepsHonesty(c: Config, s: System, p: Packet)
    requires Inv(c, s) && p in s.net
    ensures var t := s.(log := s.log + Entries(p));
            && PastHead(c, t.log, Base(t.g)) && OptPastHead(c, t.log, t.tail)
            && (forall q :: q in t.net ==> HonestPacket(c, t, q))
            && (forall i :: 0 <= i < |t.log| ==> HonestEntry(c, t, t.log[i]))
  {
    hide Chain, Links, FirstOccurrences, Positions, HeadOf;
    var t := s.(log := s.log + Entries(p));
    PastHeadStays(c, s.log, Entries(p), Base(s.g));
    if s.tail.Some? { PastHeadStays(c, s.log, Entries(p), s.tail.value); }
    forall q | q in t.net
      ensures HonestPacket(c, t, q)
    {
      assert HonestPacket(c, s, q);
      PastHeadStays(c, s.log, Entries(p), q.base);
    }
    forall i | 0 <= i < |t.log|
      ensures HonestEntry(c, t, t.log[i])
    {
      if i < |s.log| {
        assert HonestEntry(c, s, s.log[i]);
      } else {
        assert HonestPacket(c, s, p);
        PacketCarries(c, p, 0);
        PacketCarries(c, p, i - |s.log|);
        assert p.epoch == s.epoch ==> p.events[i - |s.log|] == Admitted(s)[p.lo + (i - |s.log|)];
      }
    }
  }

  lemma AppendKeepsPhase(c: Config, s: System, p: Packet)
    requires Inv(c, s) && p in s.net
    requires Covered(s) <= Covered(s.(log := s.log + Entries(p)))
    requires p.epoch == s.epoch ==> p.lo + |p.events| <= Covered(s.(log := s.log + Entries(p)))
    requires LogHead(c, s.log + Entries(p)) == Chain(c.digest, c.mode, p.events, p.base).tail
    requires Enabled(c, s, Deliver(p, true))
    ensures PhaseOk(c, Apply(c, s, Deliver(p, true)))
  {
    hide Chain, Links, FirstOccurrences, Positions, HeadOf;
    var log := s.log + Entries(p);
    LogHeadIsPast(c, log);
    if (s.phase.Resuming? || s.phase.Rebasing?) && s.phase.answer.Some? {
      PastHeadStays(c, s.log, Entries(p), s.phase.answer.value);
    }
    if s.phase.Shipping? && s.phase.accepted {
      PastHeadStays(c, s.log, Entries(p), NextBatch(c, s.g).tail);
    }
  }

  lemma ReplyOkKeepsInv(c: Config, s: System, persist: Persist)
    requires Inv(c, s) && Enabled(c, s, ReplyOk(persist))
    ensures Inv(c, Apply(c, s, ReplyOk(persist)))
  {
    hide Chain, Links, FirstOccurrences, Positions, HeadOf, LogHead;
    PendingAllShips(c, s);
    var t := Apply(c, s, ReplyOk(persist));
    assert Base(t.g) == NextBatch(c, s.g).tail;
    assert s.g.pending == s.g.pending[..BatchSize(s.g)] + s.g.pending[BatchSize(s.g)..];
    assert Admitted(t) == Admitted(s);
    KnownStaysKnown(c, s, t);
  }

  lemma RestartKeepsInv(c: Config, s: System)
    requires Inv(c, s)
    ensures Inv(c, Apply(c, s, Restart))
  {
    hide Chain, Links, HeadOf, HonestEntry, HonestPacket, PastHead, Positions;
    GenesisIsPast(c, s.log);
    RestartKeepsHonesty(c, s);
    PositionsOfOthers(s.log, s.epoch + 1);
    assert Upto(0) == [];
  }

  /** What earlier processes left in the log and on the network stays honest. */
  lemma RestartKeepsHonesty(c: Config, s: System)
    requires Inv(c, s)
    ensures var t := Apply(c, s, Restart);
            && (forall p :: p in s.net ==> HonestPacket(c, t, p))
            && (forall i :: 0 <= i < |s.log| ==> HonestEntry(c, t, s.log[i]) && s.log[i].epoch != t.epoch)
  {
    hide Chain, Links, HeadOf, PastHead, Positions, InOrder, PhaseOk, Conserved;
    forall p | p in s.net
      ensures HonestPacket(c, Apply(c, s, Restart), p)
    {
      assert HonestPacket(c, s, p);
    }
    forall i | 0 <= i < |s.log|
      ensures HonestEntry(c, Apply(c, s, Restart), s.log[i]) && s.log[i].epoch != s.epoch + 1
    {
      assert HonestEntry(c, s, s.log[i]);
    }
  }

  lemma HeadActionKeepsInv(c: Config, s: System, a: Action)
    requires Inv(c, s) && Enabled(c, s, a) && (a.AnswerHead? || a.Resume? || a.Rebase?)
    ensures Inv(c, Apply(c, s, a))
  {
    GenesisIsPast(c, s.log);
    LogHeadIsPast(c, s.log);
    hide Chain, Links, FirstOccurrences, Positions, HeadOf, LogHead;
    var t := Apply(c, s, a);
    assert Admitted(t) == Admitted(s);
    KnownStaysKnown(c, s, t);
  }

  lemma LocalActionKeepsInv(c: Config, s: System, a: Action)
    requires Inv(c, s) && Enabled(c, s, a)
    requires a.Close? || a.StartFill? || a.ReplyError? || a.RebaseFailed? || a.Wake? || a.DrainDone? || a.Stop?
    ensures Inv(c, Apply(c, s, a))
  {
    hide Chain, Links, FirstOccurrences, Positions, HeadOf, LogHead, InOrder, HonestPacket, HonestEntry, NextBatch,
         Conserved, AfterPersist;
    var t := Apply(c, s, a);
    assert PhaseOk(c, t);
    ConservedBounds(c, s);
    OnlyThePhaseMoved(c, s, t);
  }

  lemma ConservedBounds(c: Config, s: System)
    requires Conserved(c, s)
    ensures |s.g.pending| <= MAX_PENDING && 1 <= s.g.backoff <= 60
  {
  }

  /** A step that moves nothing but the phase, the back-off and the channel's end. */
  lemma OnlyThePhaseMoved(c: Config, s: System, t: System)
    requires Inv(c, s) && PhaseOk(c, t) && 1 <= t.g.backoff <= 60
    requires t == s.(phase := t.phase, closed := t.closed, g := s.g.(backoff := t.g.backoff))
    ensures Inv(c, t)
  {
    hide Chain, Links, FirstOccurrences, Positions, HeadOf, LogHead, PhaseOk;
    assert Admitted(t) == Admitted(s);
    KnownStaysKnown(c, s, t);
  }

  lemma StepKeepsInv(c: Config, s: System, a: Action)
    requires Inv(c, s) && Enabled(c, s, a)
    ensures Inv(c, Apply(c, s, a))
  {
    hide Inv, Apply, Enabled;
    match a {
      case Record(e) => RecordKeepsInv(c, s, e);
      case Restart => RestartKeepsInv(c, s);
      case Receive => TakeKeepsInv(c, s, a);
      case Take => TakeKeepsInv(c, s, a);
      case FillDone => FillDoneKeepsInv(c, s);
      case Deliver(p, accept) => DeliverKeepsInv(c, s, p, accept);
      case ReplyOk(persist) => ReplyOkKeepsInv(c, s, persist);
      case AnswerHead => HeadActionKeepsInv(c, s, a);
      case Resume(_) => HeadActionKeepsInv(c, s, a);
      case Rebase => HeadActionKeepsInv(c, s, a);
      case Close => LocalActionKeepsInv(c, s, a);
      case StartFill => LocalActionKeepsInv(c, s, a);
      case ReplyError(_) => LocalActionKeepsInv(c, s, a);
      case RebaseFailed => LocalActionKeepsInv(c, s, a);
      case Wake => LocalActionKeepsInv(c, s, a);
      case DrainDone => LocalActionKeepsInv(c, s, a);
      case Stop => LocalActionKeepsInv(c, s, a);
    }
  }

  lemma InitialInv(c: Config)
    ensures Inv(c, INITIAL)
  {
    GenesisIsPast(c, []);
    assert Upto(0) == [];
  }

  lemma {:induction false} RunKeepsInv(c: Config, actions: seq<Action>)
    requires Run(c, actions).Some?
    ensures Inv(c, Run(c, actions).value)
  {
    if actions == [] {
      InitialInv(c);
    } else {
      hide Inv, Apply, Enabled;
      var before := actions[..|actions| - 1];
      RunKeepsInv(c, before);
      StepKeepsInv(c, Run(c, before).value, Last(actions));
    }
  }

  // ---------------------------------------------------------------------------
  // What holds in every run
  // ---------------------------------------------------------------------------

  /** At least once, in order. The events this shipper received and files are its
      acknowledged ones followed by `pending`. In the control plane's log, the first
      occurrences of this process's entries are exactly the first `n` of them, for some
      `n` that covers every acknowledged event, and each entry holds its event's text. */
  lemma AtLeastOnceInOrder(c: Config, actions: seq<Action>)
    requires Run(c, actions).Some?
    ensures var s := Run(c, actions).value;
            && Shipped(c.mode, s.taken) == s.acked + s.g.pending
            && InOrder(s)
            && forall i :: 0 <= i < |s.log| ==> HonestEntry(c, s, s.log[i])
  {
    RunKeepsInv(c, actions);
  }

  /** The log is one unbroken hash chain from genesis, whatever restarts, repeats,
      delays and stale resumptions led to it; and the shipper never works from a
      head the log did not once have. */
  lemma LogIsAlwaysOneChain(c: Config, actions: seq<Action>)
    requires Run(c, actions).Some?
    ensures var s := Run(c, actions).value;
            Links(c.digest, Genesis(), Wires(s.log)) && PastHead(c, s.log, Base(s.g))
  {
    RunKeepsInv(c, actions);
  }

  function Refused(recorded: seq<(AuditEvent, bool)>): nat {
    if recorded == [] then 0 else Refused(recorded[..|recorded| - 1]) + (if Last(recorded).1 then 0 else 1)
  }

  function Rejected(mode: Mode, taken: seq<AuditEvent>): nat {
    if taken == [] then 0 else (if Ships(mode, taken[0]) then 0 else 1) + Rejected(mode, taken[1..])
  }

  lemma {:induction false} QueuedOrRefused(recorded: seq<(AuditEvent, bool)>)
    ensures |recorded| == |QueuedOf(recorded)| + Refused(recorded)
  {
    if recorded != [] {
      QueuedOrRefused(recorded[..|recorded| - 1]);
    }
  }

  lemma {:induction false} ShippedOrRejected(mode: Mode, taken: seq<AuditEvent>)
    ensures |taken| == |Shipped(mode, taken)| + Rejected(mode, taken)
    ensures mode.SingleOrg? ==> Rejected(mode, taken) == 0
  {
    if taken != [] {
      ShippedOrRejected(mode, taken[1..]);
    }
  }

  /** Every event handed to `record` is in exactly one place, in order: refused by a
      full channel, still queued, rejected for naming no organisation, pending, or
      acknowledged. The backlog cap is never exceeded, so nothing is ever dropped. */
  lemma Conservation(c: Config, actions: seq<Action>)
    requires Run(c, actions).Some?
    ensures var s := Run(c, actions).value;
            && QueuedOf(s.recorded) == s.taken + s.channel
            && Shipped(c.mode, s.taken) == s.acked + s.g.pending
            && |s.recorded| == Refused(s.recorded) + |s.channel| + Rejected(c.mode, s.taken) + |s.g.pending| + |s.acked|
            && |s.channel| <= 4096 && |s.g.pending| <= 10_000
            && DropOverflow(s.g.pending) == s.g.pending
            && (c.mode.SingleOrg? ==> Rejected(c.mode, s.taken) == 0)
  {
    RunKeepsInv(c, actions);
    var s := Run(c, actions).value;
    QueuedOrRefused(s.recorded);
    ShippedOrRejected(c.mode, s.taken);
  }

  lemma StepOnlyGrows(c: Config, s: System, a: Action)
    requires Enabled(c, s, a)
    ensures s.log <= Apply(c, s, a).log && s.net <= Apply(c, s, a).net
  {
    hide Chain, Links;
  }

  /** The log and the network only grow. */
  lemma {:induction false} LogOnlyGrows(c: Config, before: seq<Action>, later: seq<Action>)
    requires Run(c, before + later).Some?
    ensures Run(c, before).Some?
    ensures Run(c, before).value.log <= Run(c, before + later).value.log
    ensures Run(c, before).value.net <= Run(c, before + later).value.net
    decreases |later|
  {
    hide Apply, Enabled;
    if later == [] {
      assert before + later == before;
    } else {
      var shorter := later[..|later| - 1];
      assert (before + later)[..|before + later| - 1] == before + shorter;
      LogOnlyGrows(c, before, shorter);
      StepOnlyGrows(c, Run(c, before + shorter).value, Last(before + later));
    }
  }

  /** However often the network repeats a request, it enters the log at most once. */
  lemma AcceptedAtMostOnce(c: Config, before: seq<Action>, p: Packet, later: seq<Action>)
    requires Run(c, before + [Deliver(p, true)] + later).Some?
    ensures var s := Run(c, before + [Deliver(p, true)] + later).value;
            !Enabled(c, s, Deliver(p, true))
  {
    hide Chain, Links, FirstOccurrences, Positions, LogHead;
    var upto := before + [Deliver(p, true)];
    LogOnlyGrows(c, upto, later);
    LogOnlyGrows(c, before, [Deliver(p, true)]);
    assert upto[..|upto| - 1] == before;
    var s, t := Run(c, before).value, Run(c, upto + later).value;
    RunKeepsInv(c, before);
    RunKeepsInv(c, upto + later);
    assert HonestPacket(c, s, p);
    AcceptedExactlyWhenTheLogHasNotMoved(c, s, p);
    AcceptedExactlyWhenTheLogHasNotMoved(c, t, p);
    PacketCarries(c, p, 0);
  }

  /** Re-basing unblocks: a batch built on a head just fetched may be accepted by a control
      plane whose log has not moved since, and a single-organisation one cannot refuse it. */
  lemma RebasedBatchIsAccepted(c: Config, s: System)
    requires Inv(c, s) && s.phase.Filling? && !CanTake(s)
    requires Base(s.g) == LogHead(c, s.log)
    ensures var t := Apply(c, s, FillDone);
            && t.phase.Shipping? && Enabled(c, t, Deliver(t.phase.packet, true))
            && (c.mode.SingleOrg? ==> !Enabled(c, t, Deliver(t.phase.packet, false)))
  {
    hide Chain, Links, FirstOccurrences, Positions, LogHead;
    FillDoneKeepsInv(c, s);
    var t := Apply(c, s, FillDone);
    AcceptedExactlyWhenTheLogHasNotMoved(c, t, t.phase.packet);
  }

  /** The shipper takes what waits in the channel up to a batch of 256 before it ships, and
      up to a backlog of 10,000 after a failure. */
  lemma TakesUpToTheLimit(c: Config, s: System)
    ensures Enabled(c, s, Take) <==>
            && s.channel != []
            && ((s.phase.Filling? && |s.g.pending| < 256) || (s.phase.Draining? && |s.g.pending| < 10_000))
    ensures Enabled(c, s, FillDone) <==> s.phase.Filling? && (s.channel == [] || |s.g.pending| >= 256)
    ensures Enabled(c, s, DrainDone) <==> s.phase.Draining? && (s.channel == [] || |s.g.pending| >= 10_000)
  {
  }

  /** A request is accepted only if its entries follow on the log's head one by one; one that
      does may be refused by a platform control plane alone. */
  lemma ControlPlaneRule(c: Config, s: System, p: Packet)
    ensures Enabled(c, s, Deliver(p, true)) <==>
            p in s.net && forall i :: 0 <= i < |p.batch| ==> Follows(c.digest, LogHead(c, s.log), p.batch, i)
    ensures Enabled(c, s, Deliver(p, false)) <==>
            p in s.net && (c.mode.Platform? || !Enabled(c, s, Deliver(p, true)))
  {
    hide Links, LogHead, Follows;
    LinksEntryByEntry(c.digest, LogHead(c, s.log), p.batch);
  }

  /** A shipper stops when its channel is closed and it has nothing left, and then every
      event that was queued and files has been acknowledged. */
  lemma StopsWithNothingLeft(c: Config, s: System)
    requires Inv(c, s) && s.phase.Polling?
    ensures Enabled(c, s, Stop) <==> s.closed && s.channel == [] && s.g.pending == []
    ensures Enabled(c, s, Stop) ==> Shipped(c.mode, QueuedOf(s.recorded)) == s.acked
  {
    hide Shipped, QueuedOf, InOrder, PhaseOk, HonestPacket, HonestEntry, PastHead, Links;
    if Enabled(c, s, Stop) {
      assert s.taken + [] == s.taken && s.acked + [] == s.acked;
    }
  }

  // ---------------------------------------------------------------------------
  // Where a shipper takes up the chain
  // ---------------------------------------------------------------------------

  /** With the control plane's answer a starting shipper works from the log's head, whatever
      its chain file says. Without it, from the chain file, or from number 0 and 64 zeros. */
  lemma ResumesWhereItShould(c: Config, s: System)
    requires s.phase.Resuming?
    ensures var asked := Apply(c, s, AnswerHead);
            && Enabled(c, asked, Resume(true))
            && Apply(c, asked, Resume(true)).phase.Polling?
            && Apply(c, asked, Resume(true)).log == s.log
            && Base(Apply(c, asked, Resume(true)).g) == LogHead(c, s.log)
    ensures var base := Base(Apply(c, s, Resume(false)).g);
            if s.tail.Some? then base == s.tail.value
            else base.seqNo == 0 && |base.hash| == 64 && forall i :: 0 <= i < 64 ==> base.hash[i] == '0' as int
  {
    hide LogHead;
  }

  /** After a conflict a shipper that is answered works from the log's head and keeps what
      is pending. */
  lemma RebasesWhereItShould(c: Config, s: System)
    requires s.phase.Rebasing?
    ensures var asked := Apply(c, s, AnswerHead);
            && Enabled(c, asked, Rebase)
            && Apply(c, asked, Rebase).phase.Polling?
            && Base(Apply(c, asked, Rebase).g) == LogHead(c, s.log)
            && Apply(c, asked, Rebase) == s.(phase := Polling, g := Apply(c, asked, Rebase).g)
            && Apply(c, asked, Rebase).g.pending == s.g.pending
  {
    hide LogHead;
  }

  /** Steps that only gather events. */
  predicate Gathers(a: Action) {
    a.Record? || a.Close? || a.Receive? || a.StartFill? || a.Take?
  }

  lemma GatheringKeepsTheBase(c: Config, s: System, a: Action)
    requires Enabled(c, s, a) && Gathers(a)
    ensures Base(Apply(c, s, a).g) == Base(s.g) && Apply(c, s, a).log == s.log
  {
    hide LogHead, Chain, Links;
  }

  lemma {:induction false} GatheringRunKeepsTheBase(c: Config, before: seq<Action>, gathering: seq<Action>)
    requires Run(c, before + gathering).Some? && forall i :: 0 <= i < |gathering| ==> Gathers(gathering[i])
    ensures Run(c, before).Some?
    ensures Base(Run(c, before + gathering).value.g) == Base(Run(c, before).value.g)
    ensures Run(c, before + gathering).value.log == Run(c, before).value.log
    decreases |gathering|
  {
    hide Apply, Enabled, Base, Gathers;
    if gathering == [] {
      assert before + gathering == before;
    } else {
      var shorter := gathering[..|gathering| - 1];
      assert (before + gathering)[..|before + gathering| - 1] == before + shorter;
      assert Gathers(Last(gathering)) && Last(before + gathering) == Last(gathering);
      GatheringRunKeepsTheBase(c, before, shorter);
      GatheringKeepsTheBase(c, Run(c, before + shorter).value, Last(gathering));
    }
  }

  /** So the first batch after an answered start can be accepted while the log stands still,
      and a single-organisation control plane cannot refuse it. */
  lemma FirstBatchAfterAnAnswer(c: Config, before: seq<Action>, gathering: seq<Action>)
    requires Run(c, before).Some? && Run(c, before).value.phase.Resuming?
    requires forall i :: 0 <= i < |gathering| ==> Gathers(gathering[i])
    requires Run(c, before + [AnswerHead] + [Resume(true)] + gathering).Some?
    requires var s := Run(c, before + [AnswerHead] + [Resume(true)] + gathering).value;
             s.phase.Filling? && !CanTake(s)
    ensures var s := Run(c, before + [AnswerHead] + [Resume(true)] + gathering).value;
            var t := Apply(c, s, FillDone);
            && t.phase.Shipping? && Enabled(c, t, Deliver(t.phase.packet, true))
            && (c.mode.SingleOrg? ==> !Enabled(c, t, Deliver(t.phase.packet, false)))
  {
    hide Apply, Enabled, LogHead, Base, Inv;
    var answered := before + [AnswerHead];
    var resumed := answered + [Resume(true)];
    GatheringRunKeepsTheBase(c, resumed, gathering);
    assert resumed[..|resumed| - 1] == answered && answered[..|answered| - 1] == before;
    ResumesWhereItShould(c, Run(c, before).value);
    RunKeepsInv(c, resumed + gathering);
    RebasedBatchIsAccepted(c, Run(c, resumed + gathering).value);
  }

  /** The pause after `n` failures in a row: 1, 2, 4, 8, 16, 32, then 60 seconds. */
  function BackOffs(g: Shipper, n: nat): Shipper {
    if n == 0 then g else BackOff(BackOffs(g, n - 1))
  }

  lemma {:induction false} PauseAfterFailures(g: Shipper, n: nat)
    requires g.backoff == 1
    ensures BackOffs(g, n) == g.(backoff := if n < 6 then [1, 2, 4, 8, 16, 32][n] else 60)
  {
    if n > 0 {
      PauseAfterFailures(g, n - 1);
    }
  }

  // ---------------------------------------------------------------------------
  // The loop itself
  // ---------------------------------------------------------------------------

  /** Receiving without waiting until `pending` holds `limit` events or the channel is empty. */
  function DrainTo(mode: Mode, pending: seq<AuditEvent>, rx: seq<AuditEvent>, limit: nat)
    : (r: (seq<AuditEvent>, seq<AuditEvent>))
    ensures |r.1| <= |rx|
    decreases |rx|
  {
    if |pending| >= limit || rx == [] then (pending, rx)
    else DrainTo(mode, Admit(mode, pending, rx[0]), rx[1..], limit)
  }

  function Takes(c: Config, s: System, n: nat): System
    requires n <= |s.channel|
    decreases n
  {
    if n == 0 then s else Takes(c, TakeOne(c, s), n - 1)
  }

  /** The receiving loop is the machine's `Take`, repeated until it is not enabled. */
  lemma {:induction false} DrainingIsTaking(c: Config, s: System, limit: nat)
    ensures var (pending, rx) := DrainTo(c.mode, s.g.pending, s.channel, limit);
            var t := Takes(c, s, |s.channel| - |rx|);
            t.g.pending == pending && t.channel == rx && (|pending| >= limit || rx == [])
    decreases |s.channel|
  {
    if |s.g.pending| < limit && s.channel != [] {
      DrainingIsTaking(c, TakeOne(c, s), limit);
    }
  }

  /** The shipping loop's variables, its channel and its chain file. */
  class AuditShipper {
    const c: Config
    var rx: seq<AuditEvent>
    var pending: seq<AuditEvent>
    var nextSeq: NextSeq
    var prevHash: Bytes
    var backoff: nat
    var tail: Option<Head>

    function State(): Shipper
      reads this
    {
      Shipper(pending, nextSeq, prevHash, backoff)
    }

    /** Resume from a fetched head, the chain file, or genesis. */
    constructor (c: Config, fetched: Option<Head>, tail: Option<Head>)
      ensures this.c == c && rx == [] && this.tail == tail && pending == [] && backoff == 1
      ensures fetched.Some? ==> nextSeq == fetched.value.seqNo + 1 && prevHash == fetched.value.hash
      ensures fetched.None? && tail.Some? ==> nextSeq == tail.value.seqNo + 1 && prevHash == tail.value.hash
      ensures fetched.None? && tail.None? ==>
                nextSeq == 1 && |prevHash| == 64 && forall i :: 0 <= i < 64 ==> prevHash[i] == '0' as int
      ensures State() == RebaseOn(FRESH_SHIPPER, ResumeFrom(fetched, tail))
    {
      var head := ResumeFrom(fetched, tail);
      this.c := c;
      this.tail := tail;
      rx, pending := [], [];
      nextSeq, prevHash, backoff := head.seqNo + 1, head.hash, 1;
    }

    /** The sink's half: never blocks, refuses when the channel is full. */
    method Record(e: AuditEvent) returns (queued: bool)
      requires |rx| <= AUDIT_BUFFER
      modifies this`rx
      ensures |rx| <= AUDIT_BUFFER && queued == (|old(rx)| < 4096)
      ensures rx == if queued then old(rx) + [e] else old(rx)
    {
      queued := |rx| < AUDIT_BUFFER;
      if queued {
        rx := rx + [e];
      }
    }

    method FillTo(limit: nat)
      modifies this`rx, this`pending
      ensures (pending, rx) == DrainTo(c.mode, old(pending), old(rx), limit)
    {
      while |pending| < limit && rx != []
        invariant DrainTo(c.mode, pending, rx, limit) == DrainTo(c.mode, old(pending), old(rx), limit)
        decreases |rx|
      {
        if Ships(c.mode, rx[0]) {
          pending := pending + [rx[0]];
        }
        rx := rx[1..];
      }
    }

    method PrepareBatch() returns (batch: seq<Wire>, tailHash: Bytes, taken: nat)
      ensures taken == if |pending| < 256 then |pending| else 256
      ensures taken == BatchSize(State())
      ensures batch == NextBatch(c, State()).batch && tailHash == NextBatch(c, State()).tail.hash
    {
      taken := BatchSize(State());
      batch, tailHash := ChainWith(c.digest, c.mode, pending[..taken], nextSeq, prevHash);
    }

    method OnAccepted(batch: seq<Wire>, tailHash: Bytes, taken: nat, persist: Persist)
      requires taken == BatchSize(State())
      requires batch == NextBatch(c, State()).batch && tailHash == NextBatch(c, State()).tail.hash
      modifies this
      ensures State() == Acknowledge(c, old(State())) && rx == old(rx)
      ensures nextSeq == old(nextSeq) + |batch| && prevHash == tailHash
      ensures pending == old(pending)[taken..] && backoff == 1
      ensures tail == AfterPersist(persist, Base(State()), old(tail))
    {
      nextSeq := nextSeq + |batch|;
      prevHash := tailHash;
      tail := AfterPersist(persist, Head(nextSeq - 1, prevHash), tail);
      pending := pending[taken..];
      backoff := 1;
    }

    method OnConflict(head: Head)
      modifies this
      ensures State() == RebaseOn(old(State()), head) && rx == old(rx) && tail == old(tail)
      ensures nextSeq == head.seqNo + 1 && prevHash == head.hash
      ensures pending == old(pending) && backoff == old(backoff)
    {
      nextSeq := head.seqNo + 1;
      prevHash := head.hash;
    }

    /** After a failure: wait, take what arrived meanwhile, and never drop anything. */
    method OnFailure()
      requires |pending| <= MAX_PENDING
      modifies this
      ensures |pending| <= 10_000 && tail == old(tail)
      ensures backoff == (if old(backoff) < 30 then 2 * old(backoff) else 60)
      ensures (pending, rx) == DrainTo(c.mode, old(pending), old(rx), MAX_PENDING)
      ensures State() == BackOff(old(State())).(pending := pending)
    {
      backoff := if 2 * backoff < 60 then 2 * backoff else 60;
      FillTo(MAX_PENDING);
      DrainToIsBounded(c.mode, old(pending), old(rx), MAX_PENDING);
      pending := DropOverflow(pending);
    }
  }

  lemma {:induction false} DrainToIsBounded(mode: Mode, pending: seq<AuditEvent>, rx: seq<AuditEvent>, limit: nat)
    requires |pending| <= limit
    ensures |DrainTo(mode, pending, rx, limit).0| <= limit
    decreases |rx|
  {
    if |pending| < limit && rx != [] {
      DrainToIsBounded(mode, Admit(mode, pending, rx[0]), rx[1..], limit);
    }
  }
}
