/**
 When the control plane's log holds an event twice. Delivery is at least once; this says
 exactly which runs make it more than once.
 */
module AuditRepeats {
  import opened Common
  import opened AuditChain
  import opened AuditShipping

  ghost predicate Repeats(s: seq<nat>) {
    exists i, j :: 0 <= i < j < |s| && s[i] == s[j]
  }

  /** The step appends a batch of the running process to the log. */
  predicate Accepts(s: System, a: Action) {
    a.Deliver? && a.accept && a.packet.epoch == s.epoch
  }

  /** The running process has had a batch accepted since its last acknowledgement. */
  ghost predicate Open(c: Config, actions: seq<Action>)
    requires Run(c, actions).Some?
  {
    actions != [] &&
    var before, a := actions[..|actions| - 1], Last(actions);
    Accepts(Run(c, before).value, a) || (!a.ReplyOk? && !a.Restart? && Open(c, before))
  }

  /** It has had two batches accepted with no acknowledgement between them. */
  ghost predicate Doubled(c: Config, actions: seq<Action>)
    requires Run(c, actions).Some?
  {
    actions != [] &&
    var before, a := actions[..|actions| - 1], Last(actions);
    !a.Restart? && (Doubled(c, before) || (Accepts(Run(c, before).value, a) && Open(c, before)))
  }

  ghost predicate Answering(s: System) {
    s.phase.Shipping? && s.phase.accepted
  }

  /** The log holds the running process's events once each: the acknowledged ones, and those
      of the batch that is accepted and not acknowledged, if there is one. */
  ghost predicate Once(s: System, open: bool) {
    var m := |Positions(s.log, s.epoch)|;
    && Positions(s.log, s.epoch) == Upto(m)
    && (if open then m > |s.acked| else m == |s.acked| && !Answering(s))
    && (Answering(s) ==> m == |s.acked| + BatchSize(s.g))
  }

  /** Requests that hold acknowledged events are out of date. */
  ghost predicate Outdated(s: System) {
    forall p :: p in s.net && p.epoch == s.epoch && (p.lo < |s.acked| || Answering(s)) ==> p.base.seqNo < |s.log|
  }

  lemma DeliverOutdates(c: Config, s: System, p: Packet)
    requires Inv(c, s) && Enabled(c, s, Deliver(p, true))
    ensures Outdated(Apply(c, s, Deliver(p, true)))
  {
    hide Chain, Links, FirstOccurrences, Positions, HeadOf, InOrder, PhaseOk, Conserved;
    var t := Apply(c, s, Deliver(p, true));
    assert HonestPacket(c, s, p);
    PacketCarries(c, p, 0);
    forall q | q in t.net
      ensures q.base.seqNo < |t.log|
    {
      assert HonestPacket(c, s, q);
    }
  }

  lemma StepKeepsOutdated(c: Config, s: System, a: Action)
    requires Inv(c, s) && Enabled(c, s, a) && Outdated(s)
    ensures Outdated(Apply(c, s, a))
  {
    hide Chain, Links, FirstOccurrences, Positions, HeadOf, LogHead, InOrder, Conserved, NextBatch, AfterPersist;
    if a.Deliver? {
      if a.accept {
        DeliverOutdates(c, s, a.packet);
      }
    } else if a.Restart? {
      forall p | p in s.net
        ensures p.epoch <= s.epoch
      {
        assert HonestPacket(c, s, p);
      }
    }
  }

  lemma UptoThenInterval(m: nat, n: nat)
    ensures Upto(m) + Interval(m, n) == Upto(m + n)
  {
  }

  lemma PositionsAfter(c: Config, s: System, p: Packet)
    requires HonestPacket(c, s, p)
    ensures |p.batch| == |p.events| > 0
    ensures Positions(s.log + Entries(p), s.epoch) ==
            Positions(s.log, s.epoch) + if p.epoch == s.epoch then Interval(p.lo, |p.events|) else []
  {
    hide Chain;
    PacketCarries(c, p, 0);
    PositionsConcat(s.log, Entries(p), s.epoch);
    if p.epoch == s.epoch {
      PositionsOfRun(Entries(p), s.epoch, p.lo);
    } else {
      PositionsOfOthers(Entries(p), s.epoch);
    }
  }

  /** The first batch accepted after an acknowledgement starts right behind it. */
  lemma FirstAcceptIsNew(c: Config, s: System, p: Packet)
    requires Inv(c, s) && Outdated(s) && Enabled(c, s, Deliver(p, true)) && p.epoch == s.epoch
    ensures p.lo == |s.acked| && HonestPacket(c, s, p)
    ensures s.phase.Shipping? && s.phase.packet == p ==> |p.events| == BatchSize(s.g)
  {
    hide Chain, Links, FirstOccurrences, Positions, HeadOf, LogHead, InOrder, Conserved, NextBatch, PastHead;
    AcceptedExactlyWhenTheLogHasNotMoved(c, s, p);
    assert HonestPacket(c, s, p);
  }

  lemma DeliverOnce(c: Config, s: System, p: Packet, open: bool)
    requires Inv(c, s) && Outdated(s) && Enabled(c, s, Deliver(p, true)) && Once(s, open)
    requires p.epoch == s.epoch ==> !open
    ensures Once(Apply(c, s, Deliver(p, true)), open || p.epoch == s.epoch)
  {
    hide Chain, Links, FirstOccurrences, Positions, HeadOf, LogHead, NextBatch, PastHead, HonestPacket, Upto, Interval;
    Honest(c, s, p);
    PositionsAfter(c, s, p);
    if p.epoch == s.epoch {
      FirstAcceptIsNew(c, s, p);
      UptoThenInterval(|s.acked|, |p.events|);
    } else {
      if s.phase.Shipping? { OwnPacket(c, s); }
      assert Positions(s.log, s.epoch) + [] == Positions(s.log, s.epoch);
    }
  }

  lemma Honest(c: Config, s: System, p: Packet)
    requires Inv(c, s) && p in s.net
    ensures HonestPacket(c, s, p)
  {
  }

  lemma OwnPacket(c: Config, s: System)
    requires Inv(c, s) && s.phase.Shipping?
    ensures s.phase.packet.epoch == s.epoch
  {
  }

  lemma RestartOnce(c: Config, s: System)
    requires Inv(c, s)
    ensures Once(Apply(c, s, Restart), false)
  {
    hide Chain, Links, FirstOccurrences, Positions, HeadOf, LogHead, PastHead, HonestPacket, HonestEntry, InOrder,
         PhaseOk, Conserved;
    RestartKeepsHonesty(c, s);
    PositionsOfOthers(s.log, s.epoch + 1);
    assert Upto(0) == [];
  }

  lemma OtherStepOnce(c: Config, s: System, a: Action, open: bool)
    requires Enabled(c, s, a) && Once(s, open)
    requires !a.Restart? && !(a.Deliver? && a.accept)
    ensures Once(Apply(c, s, a), open && !a.ReplyOk?)
  {
    hide Chain, Links, Positions, LogHead, Upto, NextBatch, AfterPersist, NewPacket, Admit, DropOverflow, ResumeFrom;
  }

  lemma StepOnce(c: Config, s: System, a: Action, open: bool)
    requires Inv(c, s) && Outdated(s) && Enabled(c, s, a) && Once(s, open) && !(open && Accepts(s, a))
    ensures Once(Apply(c, s, a), Accepts(s, a) || (!a.ReplyOk? && !a.Restart? && open))
  {
    hide Inv, Outdated, Enabled, Apply, Once;
    if a.Restart? {
      RestartOnce(c, s);
    } else if a.Deliver? && a.accept {
      DeliverOnce(c, s, a.packet, open);
    } else {
      OtherStepOnce(c, s, a, open);
    }
  }

  lemma {:induction false} RunOnce(c: Config, actions: seq<Action>)
    requires Run(c, actions).Some?
    ensures Inv(c, Run(c, actions).value) && Outdated(Run(c, actions).value)
    ensures !Doubled(c, actions) ==> Once(Run(c, actions).value, Open(c, actions))
    decreases |actions|
  {
    hide Inv, Outdated, Enabled, Apply, Once;
    RunKeepsInv(c, actions);
    if actions == [] {
      InitialOnce();
    } else {
      var before, a := actions[..|actions| - 1], Last(actions);
      RunOnce(c, before);
      var s := Run(c, before).value;
      StepKeepsOutdated(c, s, a);
      if a.Restart? {
        RestartOnce(c, s);
      } else if !Doubled(c, actions) {
        StepOnce(c, s, a, Open(c, before));
      }
    }
  }

  lemma InitialOnce()
    ensures Outdated(INITIAL) && Once(INITIAL, false)
  {
    assert Upto(0) == [];
  }

  lemma RepeatsStay(a: seq<nat>, b: seq<nat>)
    requires Repeats(a)
    ensures Repeats(a + b)
  {
    var i, j :| 0 <= i < j < |a| && a[i] == a[j];
    assert (a + b)[i] == (a + b)[j];
  }

  lemma PositionsOnlyGrow(c: Config, s: System, a: Action)
    requires Inv(c, s) && Enabled(c, s, a) && !a.Restart? && Repeats(Positions(s.log, s.epoch))
    ensures var t := Apply(c, s, a); Repeats(Positions(t.log, t.epoch))
  {
    hide Inv, Chain, Links, FirstOccurrences, Positions, HeadOf, LogHead, HonestPacket, Repeats, NextBatch,
         AfterPersist;
    if a.Deliver? && a.accept {
      Honest(c, s, a.packet);
      PositionsAfter(c, s, a.packet);
      var added := if a.packet.epoch == s.epoch then Interval(a.packet.lo, |a.packet.events|) else [];
      RepeatsStay(Positions(s.log, s.epoch), added);
    }
  }

  /** A batch accepted while another is unacknowledged starts with an event the log holds. */
  lemma SecondAcceptRepeats(c: Config, s: System, p: Packet)
    requires Inv(c, s) && Enabled(c, s, Deliver(p, true)) && Once(s, true) && p.epoch == s.epoch
    ensures Repeats(Positions(Apply(c, s, Deliver(p, true)).log, s.epoch))
  {
    hide Chain, Links, FirstOccurrences, Positions, HeadOf, LogHead, PastHead, InOrder, PhaseOk, Conserved;
    assert HonestPacket(c, s, p);
    PositionsAfter(c, s, p);
    var held := Positions(s.log, s.epoch);
    var all := held + Interval(p.lo, |p.events|);
    assert all[p.lo] == p.lo == all[|held|];
  }

  /** The log repeats an event of the running process exactly when two of its batches were
      accepted with no acknowledgement between them: a reply was lost, or a request the
      shipper had given up on arrived late. */
  lemma {:induction false} RepeatsExactlyWhenDoubled(c: Config, actions: seq<Action>)
    requires Run(c, actions).Some?
    ensures var s := Run(c, actions).value;
            Repeats(Positions(s.log, s.epoch)) <==> Doubled(c, actions)
    decreases |actions|
  {
    hide Inv, Outdated, Enabled, Apply, Once, Repeats, Positions;
    RunOnce(c, actions);
    if !Doubled(c, actions) {
      OnceDoesNotRepeat(Run(c, actions).value, Open(c, actions));
    } else {
      var before, a := actions[..|actions| - 1], Last(actions);
      var s := Run(c, before).value;
      RunOnce(c, before);
      RepeatsExactlyWhenDoubled(c, before);
      if Doubled(c, before) {
        PositionsOnlyGrow(c, s, a);
      } else {
        SecondAcceptRepeats(c, s, a.packet);
        SameEpoch(c, s, a);
      }
    }
  }

  lemma SameEpoch(c: Config, s: System, a: Action)
    requires Enabled(c, s, a) && !a.Restart?
    ensures Apply(c, s, a).epoch == s.epoch
  {
    hide Chain, Links, LogHead, NextBatch, AfterPersist;
  }

  lemma OnceDoesNotRepeat(s: System, open: bool)
    requires Once(s, open)
    ensures !Repeats(Positions(s.log, s.epoch))
  {
  }

  // ---------------------------------------------------------------------------
  // A run that repeats
  // ---------------------------------------------------------------------------

  lemma RunStep(c: Config, actions: seq<Action>, a: Action)
    requires Run(c, actions).Some? && Enabled(c, Run(c, actions).value, a)
    ensures Run(c, actions + [a]) == Some(Apply(c, Run(c, actions).value, a))
  {
    hide Enabled, Apply;
    assert (actions + [a])[..|actions|] == actions && Last(actions + [a]) == a;
  }

  /** The state of a process with one event pending. */
  ghost function Pending(phase: Phase, e: AuditEvent, head: Head, backoff: nat, sent: nat, net: set<Packet>,
                         log: seq<Entry>)
    : System
  {
    System(0, phase, Shipper([e], head.seqNo + 1, head.hash, backoff), [], false, [(e, true)], [e], [],
           None, sent, net, log)
  }

  /** The request such a process sends. */
  ghost function Request(c: Config, e: AuditEvent, head: Head, sent: nat): Packet {
    Packet(sent, 0, 0, head, [e], Chain(c.digest, c.mode, [e], head).batch)
  }

  lemma RequestCarriesOne(c: Config, e: AuditEvent, head: Head, sent: nat)
    requires c.mode.SingleOrg?
    ensures |Request(c, e, head, sent).batch| == 1
    ensures Links(c.digest, head, Request(c, e, head, sent).batch)
    ensures Positions(Entries(Request(c, e, head, sent)), 0) == [0]
  {
    hide Chain, Links;
    ChainLinks(c.digest, c.mode, [e], head);
    BatchCarriesItsEvents(c.digest, c.mode, [e], head, 0);
    PositionsOfRun(Entries(Request(c, e, head, sent)), 0, 0);
  }

  /** From polling with one event pending to a request on the wire. */
  lemma Sends(c: Config, actions: seq<Action>, e: AuditEvent, head: Head, backoff: nat, sent: nat, net: set<Packet>,
              log: seq<Entry>)
    requires c.mode.SingleOrg? && Run(c, actions) == Some(Pending(Polling, e, head, backoff, sent, net, log))
    ensures var p := Request(c, e, head, sent);
            Run(c, actions + [StartFill] + [FillDone]) ==
            Some(Pending(Shipping(p, false), e, head, backoff, sent + 1, net + {p}, log))
  {
    hide Chain, Links, Run, LogHead;
    RunStep(c, actions, StartFill);
    RequestCarriesOne(c, e, head, sent);
    assert [e][..1] == [e];
    RunStep(c, actions + [StartFill], FillDone);
  }

  /** A new process receives one event. */
  lemma Starts(c: Config, e: AuditEvent) returns (actions: seq<Action>)
    requires c.mode.SingleOrg?
    ensures Run(c, actions) == Some(Pending(Filling, e, Genesis(), 1, 0, {}, []))
  {
    hide Chain, Links, LogHead, GenesisHash;
    RunStep(c, [], Resume(false));
    RunStep(c, [] + [Resume(false)], Record(e));
    assert [] + [(e, true)] == [(e, true)] && [] + [e] == [e] && [e][1..] == [];
    RunStep(c, [] + [Resume(false)] + [Record(e)], Receive);
    actions := [] + [Resume(false)] + [Record(e)] + [Receive];
  }

  /** The first request goes out. */
  lemma FirstRequest(c: Config, e: AuditEvent) returns (actions: seq<Action>)
    requires c.mode.SingleOrg?
    ensures var first := Request(c, e, Genesis(), 0);
            Run(c, actions) == Some(Pending(Shipping(first, false), e, Genesis(), 1, 1, {first}, []))
  {
    hide Chain, Links, LogHead, GenesisHash, Run, Positions;
    var first := Request(c, e, Genesis(), 0);
    actions := Starts(c, e);
    RequestCarriesOne(c, e, Genesis(), 0);
    assert [e][..1] == [e];
    var none: set<Packet> := {};
    assert none + {first} == {first};
    actions := Do(c, actions, FillDone);
  }

  /** It is accepted, and its reply lost. */
  lemma ReplyIsLost(c: Config, e: AuditEvent) returns (actions: seq<Action>)
    requires c.mode.SingleOrg?
    ensures var first := Request(c, e, Genesis(), 0);
            Run(c, actions) == Some(Pending(Polling, e, Genesis(), 2, 1, {first}, Entries(first)))
  {
    hide Chain, Links, LogHead, GenesisHash, Run, Positions, Request, Entries;
    var first := Request(c, e, Genesis(), 0);
    actions := FirstRequest(c, e);
    RequestCarriesOne(c, e, Genesis(), 0);
    EmptyLog(c);
    actions := Do(c, actions, Deliver(first, true));
    assert [] + Entries(first) == Entries(first);
    assert Run(c, actions) == Some(Pending(Shipping(first, true), e, Genesis(), 1, 1, {first}, Entries(first)));
    actions := Do(c, actions, ReplyError(false));
    actions := Do(c, actions, Wake);
    actions := Do(c, actions, DrainDone);
  }

  /** The retry is refused for its old base, and the shipper re-bases. */
  lemma Rebases(c: Config, actions: seq<Action>, e: AuditEvent, p: Packet, log: seq<Entry>) returns (next: seq<Action>)
    requires Run(c, actions) ==
             Some(Pending(Shipping(p, false), e, Genesis(), 2, 2, {Request(c, e, Genesis(), 0), p}, log))
    ensures Run(c, next) == Some(Pending(Polling, e, LogHead(c, log), 2, 2, {Request(c, e, Genesis(), 0), p}, log))
  {
    hide Chain, Links, LogHead, GenesisHash, Run, Positions;
    next := Do(c, actions, ReplyError(true));
    next := Do(c, next, AnswerHead);
    next := Do(c, next, Rebase);
  }

  /** A run that files an event twice: the reply to the first request is lost, the retry is
      refused, and the re-based shipper sends the event again. */
  lemma RepeatIsPossible(c: Config, e: AuditEvent) returns (actions: seq<Action>)
    requires c.mode.SingleOrg?
    ensures Run(c, actions).Some?
    ensures var s := Run(c, actions).value; Positions(s.log, s.epoch) == [0, 0]
  {
    hide Chain, Links, LogHead, GenesisHash, Run, Positions;
    var first, retry := Request(c, e, Genesis(), 0), Request(c, e, Genesis(), 1);
    var log := Entries(first);
    actions := ReplyIsLost(c, e);
    Sends(c, actions, e, Genesis(), 2, 1, {first}, log);
    actions := actions + [StartFill] + [FillDone];
    assert {first} + {retry} == {first, retry};
    actions := Rebases(c, actions, e, retry, log);
    var head := LogHead(c, log);
    var again := Request(c, e, head, 2);
    Sends(c, actions, e, head, 2, 2, {first, retry}, log);
    actions := actions + [StartFill] + [FillDone];
    RequestCarriesOne(c, e, Genesis(), 0);
    RequestCarriesOne(c, e, head, 2);
    actions := Do(c, actions, Deliver(again, true));
    PositionsConcat(log, Entries(again), 0);
  }

  lemma EmptyLog(c: Config)
    ensures LogHead(c, []) == Genesis()
  {
    assert JsonsOf(Wires([])) == [];
  }

  lemma Do(c: Config, actions: seq<Action>, a: Action) returns (next: seq<Action>)
    requires Run(c, actions).Some? && Enabled(c, Run(c, actions).value, a)
    ensures Run(c, next) == Some(Apply(c, Run(c, actions).value, a))
  {
    next := actions + [a];
    RunStep(c, actions, a);
  }
}
