/**
 The audit hash chain a gateway keeps and the control plane checks.

 SHA-256 is a parameter: any function from byte strings to byte strings. What
 depends on its strength is stated as the collision an adversary would have to hold.
 */
module AuditChain {
  import opened Common
  import Varint

  type Digest = Bytes -> Bytes

  const DIGEST_LEN := 32

  ghost predicate FixedWidth(digest: Digest) {
    forall x: Bytes :: |digest(x)| == DIGEST_LEN
  }

  /** An audit event: the organisation it names, if any, and its JSON text. */
  datatype AuditEvent = AuditEvent(orgId: Option<string>, json: Bytes)

  /** One event of a ship batch. `orgId` is present on a platform gateway only. */
  datatype Wire = Wire(orgId: Option<string>, seqNo: nat, prevHash: Bytes, json: Bytes)

  datatype Head = Head(seqNo: nat, hash: Bytes)

  /** Whether the gateway serves one organisation or many. */
  datatype Mode = SingleOrg | Platform

  // ---------------------------------------------------------------------------
  // One link
  // ---------------------------------------------------------------------------

  function HexDigit(n: nat): (c: byte)
    requires n < 16
  {
    if n < 10 then 48 + n else 87 + n
  }

  function Hex(s: Bytes): (text: Bytes)
    ensures |text| == 2 * |s|
  {
    if s == [] then [] else Hex(s[..|s| - 1]) + [HexDigit(s[|s| - 1] / 16), HexDigit(s[|s| - 1] % 16)]
  }

  lemma {:induction false} HexIsInjective(a: Bytes, b: Bytes)
    requires Hex(a) == Hex(b)
    ensures a == b
  {
    assert |a| == |b|;
    if a != [] {
      var n := |a| - 1;
      assert Hex(a)[..2 * n] == Hex(a[..n]) && Hex(b)[..2 * n] == Hex(b[..n]);
      HexIsInjective(a[..n], b[..n]);
      assert Hex(a)[2 * n] == HexDigit(a[n] / 16) && Hex(b)[2 * n] == HexDigit(b[n] / 16);
      assert Hex(a)[2 * n + 1] == HexDigit(a[n] % 16) && Hex(b)[2 * n + 1] == HexDigit(b[n] % 16);
      assert a[n] == b[n];
      assert a == a[..n] + [a[n]] && b == b[..n] + [b[n]];
    }
  }

  /** What is hashed: the sequence number in eight bytes, the previous hash, the JSON. */
  function Preimage(seqNo: nat, prevHash: Bytes, json: Bytes): Bytes {
    Varint.ToBigEndian(seqNo, 8) + prevHash + json
  }

  /** The bytes hashed, by position: eight that hold the number (below 2^64, as the source's
      is), then the previous hash, then the JSON. */
  lemma PreimageLayout(seqNo: nat, prevHash: Bytes, json: Bytes)
    requires seqNo < 0x1_0000_0000_0000_0000
    ensures var p := Preimage(seqNo, prevHash, json);
            && |p| == 8 + |prevHash| + |json|
            && Varint.BigEndian(p[..8]) == seqNo
            && p[8..8 + |prevHash|] == prevHash && p[8 + |prevHash|..] == json
  {
    hide Varint.BigEndian, Varint.ToBigEndian, Varint.Pow256;
    Varint.PowersOf256();
    Varint.BigEndianRoundTrip(seqNo, 8);
    var p := Preimage(seqNo, prevHash, json);
    assert p[..8] == Varint.ToBigEndian(seqNo, 8);
  }

  /** The hash text, digit by digit: byte `i` of the digest is digits `2i` and `2i + 1`, each
      one of 0-9 and a-f. */
  lemma {:induction false} HexDigits(s: Bytes, i: nat)
    requires i < |s|
    ensures var digits := "0123456789abcdef";
            && Hex(s)[2 * i] == digits[s[i] / 16] as int && Hex(s)[2 * i + 1] == digits[s[i] % 16] as int
  {
    if i < |s| - 1 {
      HexDigits(s[..|s| - 1], i);
    } else {
      DigitText(s[i] / 16);
      DigitText(s[i] % 16);
    }
  }

  lemma DigitText(n: nat)
    requires n < 16
    ensures HexDigit(n) == "0123456789abcdef"[n] as int
  {
  }

  /** Before the first event: number 0 and 64 zeros. */
  lemma GenesisIs()
    ensures Genesis().seqNo == 0 && |Genesis().hash| == 64
    ensures forall i :: 0 <= i < 64 ==> Genesis().hash[i] == '0' as int
  {
  }

  function AuditHash(digest: Digest, seqNo: nat, prevHash: Bytes, json: Bytes): Bytes {
    Hex(digest(Preimage(seqNo, prevHash, json)))
  }

  /** The hashing loop: two hex digits per digest byte. */
  method ComputeAuditHash(digest: Digest, seqNo: nat, prevHash: Bytes, json: Bytes) returns (hex: Bytes)
    ensures hex == AuditHash(digest, seqNo, prevHash, json)
  {
    var bytes := digest(Preimage(seqNo, prevHash, json));
    hex := [];
    var i := 0;
    while i < |bytes|
      invariant i <= |bytes| && hex == Hex(bytes[..i])
    {
      assert bytes[..i + 1][..i] == bytes[..i];
      hex := hex + [HexDigit(bytes[i] / 16), HexDigit(bytes[i] % 16)];
      i := i + 1;
    }
    assert bytes[..i] == bytes;
  }

  /** 64 hex zeros: the hash before the first event. */
  function GenesisHash(): (h: Bytes)
    ensures |h| == 64
  {
    seq(64, _ => 48)
  }

  function Genesis(): Head {
    Head(0, GenesisHash())
  }

  /** The head after one more event. */
  function Advance(digest: Digest, head: Head, json: Bytes): Head {
    Head(head.seqNo + 1, AuditHash(digest, head.seqNo + 1, head.hash, json))
  }

  // ---------------------------------------------------------------------------
  // A batch
  // ---------------------------------------------------------------------------

  /** Whether a shipper of this mode files the event at all. */
  predicate Ships(mode: Mode, e: AuditEvent) {
    mode.SingleOrg? || e.orgId.Some?
  }

  /** The wire event, or `None` to skip the event. */
  function Make(mode: Mode, e: AuditEvent, seqNo: nat, prevHash: Bytes): (w: Option<Wire>)
    ensures w.Some? <==> Ships(mode, e)
  {
    if !Ships(mode, e) then None
    else Some(Wire(if mode.Platform? then e.orgId else None, seqNo, prevHash, e.json))
  }

  datatype Chained = Chained(batch: seq<Wire>, tail: Head)

  /** Each shipped event takes the next number and the previous hash; a skipped one takes nothing. */
  function Chain(digest: Digest, mode: Mode, events: seq<AuditEvent>, head: Head): (c: Chained)
    ensures c.tail.seqNo == head.seqNo + |c.batch|
  {
    if events == [] then Chained([], head)
    else
      var e := events[0];
      if !Ships(mode, e) then Chain(digest, mode, events[1..], head)
      else
        var rest := Chain(digest, mode, events[1..], Advance(digest, head, e.json));
        Chained([Make(mode, e, head.seqNo + 1, head.hash).value] + rest.batch, rest.tail)
  }

  /** The chaining loop both shippers share. */
  method ChainWith(digest: Digest, mode: Mode, events: seq<AuditEvent>, firstSeq: nat, prevHash: Bytes)
    returns (batch: seq<Wire>, tailHash: Bytes)
    requires firstSeq > 0
    ensures var c := Chain(digest, mode, events, Head(firstSeq - 1, prevHash));
            batch == c.batch && tailHash == c.tail.hash
  {
    hide AuditHash, Chain, Make;
    batch := [];
    var hash := prevHash;
    var seqNo := firstSeq;
    var i := 0;
    ghost var whole := Chain(digest, mode, events, Head(firstSeq - 1, prevHash));
    assert events[0..] == events;
    while i < |events|
      invariant i <= |events| && seqNo == firstSeq + |batch|
      invariant var rest := Chain(digest, mode, events[i..], Head(seqNo - 1, hash));
                whole.batch == batch + rest.batch && whole.tail == rest.tail
    {
      assert events[i..][0] == events[i] && events[i..][1..] == events[i + 1..];
      ChainUnrolls(digest, mode, events[i..], Head(seqNo - 1, hash));
      var link := ComputeAuditHash(digest, seqNo, hash, events[i].json);
      var item := Make(mode, events[i], seqNo, hash);
      if item.Some? {
        batch := batch + [item.value];
        hash := link;
        seqNo := seqNo + 1;
      }
      i := i + 1;
    }
    ChainOfNothing(digest, mode, Head(seqNo - 1, hash));
    assert events[i..] == [];
    tailHash := hash;
  }

  /** Only the events that are filed. */
  function Shipped(mode: Mode, events: seq<AuditEvent>): seq<AuditEvent> {
    if events == [] then []
    else (if Ships(mode, events[0]) then [events[0]] else []) + Shipped(mode, events[1..])
  }

  lemma {:induction false} ShippedConcat(mode: Mode, a: seq<AuditEvent>, b: seq<AuditEvent>)
    ensures Shipped(mode, a + b) == Shipped(mode, a) + Shipped(mode, b)
  {
    if a == [] {
      assert a + b == b;
    } else {
      ShippedConcat(mode, a[1..], b);
      assert (a + b)[1..] == a[1..] + b && (a + b)[0] == a[0];
      var head := if Ships(mode, a[0]) then [a[0]] else [];
      assert head + (Shipped(mode, a[1..]) + Shipped(mode, b)) == (head + Shipped(mode, a[1..])) + Shipped(mode, b);
    }
  }

  lemma {:induction false} ShippedAllShip(mode: Mode, events: seq<AuditEvent>)
    ensures forall e :: e in Shipped(mode, events) ==> Ships(mode, e)
    ensures (forall e :: e in events ==> Ships(mode, e)) ==> Shipped(mode, events) == events
  {
    if events != [] {
      ShippedAllShip(mode, events[1..]);
      assert events == [events[0]] + events[1..];
    }
  }

  /** A single-organisation shipper files every event; a platform one, in order, those that
      name an organisation. */
  lemma {:induction false} FiledEvents(events: seq<AuditEvent>, e: AuditEvent)
    ensures Shipped(SingleOrg, events) == events
    ensures e in Shipped(Platform, events) <==> e in events && e.orgId != None
  {
    if events != [] {
      FiledEvents(events[1..], e);
      assert events == [events[0]] + events[1..];
    }
  }

  // ---------------------------------------------------------------------------
  // The chain laws
  // ---------------------------------------------------------------------------

  /** The same chain with wire events before it. */
  function After(batch: seq<Wire>, c: Chained): Chained {
    Chained(batch + c.batch, c.tail)
  }

  lemma ChainUnrolls(digest: Digest, mode: Mode, events: seq<AuditEvent>, head: Head)
    requires events != []
    ensures Chain(digest, mode, events, head) ==
            if Ships(mode, events[0]) then
              After([Make(mode, events[0], head.seqNo + 1, head.hash).value],
                    Chain(digest, mode, events[1..], Advance(digest, head, events[0].json)))
            else
              Chain(digest, mode, events[1..], head)
  {
    hide AuditHash, Advance, Make, Ships;
  }

  lemma ChainOfNothing(digest: Digest, mode: Mode, head: Head)
    ensures Chain(digest, mode, [], head) == Chained([], head)
  {
  }

  /** Chaining in two batches, the second from the first one's tail, is chaining once. */
  lemma {:induction false} ChainConcat(digest: Digest, mode: Mode, a: seq<AuditEvent>, b: seq<AuditEvent>, head: Head)
    ensures var first := Chain(digest, mode, a, head);
            Chain(digest, mode, a + b, head) == After(first.batch, Chain(digest, mode, b, first.tail))
    decreases |a|
  {
    hide Chain, Advance, Make, Ships;
    if a == [] {
      assert a + b == b;
      ChainOfNothing(digest, mode, head);
      assert Chain(digest, mode, b, head).batch == [] + Chain(digest, mode, b, head).batch;
    } else {
      assert (a + b)[1..] == a[1..] + b && (a + b)[0] == a[0];
      ChainUnrolls(digest, mode, a, head);
      ChainUnrolls(digest, mode, a + b, head);
      if Ships(mode, a[0]) {
        var next := Advance(digest, head, a[0].json);
        ChainConcat(digest, mode, a[1..], b, next);
        var w := [Make(mode, a[0], head.seqNo + 1, head.hash).value];
        var rest := Chain(digest, mode, a[1..], next);
        var second := Chain(digest, mode, b, rest.tail).batch;
        assert w + (rest.batch + second) == (w + rest.batch) + second;
      } else {
        ChainConcat(digest, mode, a[1..], b, head);
      }
    }
  }

  /** Ship the batches one after the other. */
  function ChainBatches(digest: Digest, mode: Mode, batches: seq<seq<AuditEvent>>, head: Head): Chained {
    if batches == [] then Chained([], head)
    else
      var before := ChainBatches(digest, mode, batches[..|batches| - 1], head);
      After(before.batch, Chain(digest, mode, Last(batches), before.tail))
  }

  /** How the events are cut into batches does not show in the chain. */
  lemma {:induction false} BatchingDoesNotMatter(digest: Digest, mode: Mode, batches: seq<seq<AuditEvent>>, head: Head)
    ensures ChainBatches(digest, mode, batches, head) == Chain(digest, mode, Flatten(batches), head)
  {
    if batches != [] {
      var before := batches[..|batches| - 1];
      BatchingDoesNotMatter(digest, mode, before, head);
      ChainConcat(digest, mode, Flatten(before), Last(batches), head);
      FlattenAppend(before, Last(batches));
      assert batches == before + [Last(batches)];
    }
  }

  /** Skipped events leave no trace: not a gap, not a different hash. */
  lemma {:induction false} SkippingLeavesNoTrace(digest: Digest, mode: Mode, events: seq<AuditEvent>, head: Head)
    ensures Chain(digest, mode, events, head) == Chain(digest, mode, Shipped(mode, events), head)
    ensures |Chain(digest, mode, events, head).batch| == |Shipped(mode, events)|
    decreases |events|
  {
    if events != [] {
      if Ships(mode, events[0]) {
        SkippingLeavesNoTrace(digest, mode, events[1..], Advance(digest, head, events[0].json));
        var kept := Shipped(mode, events);
        assert kept[1..] == Shipped(mode, events[1..]);
      } else {
        SkippingLeavesNoTrace(digest, mode, events[1..], head);
        assert Shipped(mode, events) == Shipped(mode, events[1..]);
      }
    }
  }

  /** Numbers run on from the head without a gap, and entry `i` carries event `i`. */
  lemma {:induction false} BatchCarriesItsEvents(digest: Digest, mode: Mode, events: seq<AuditEvent>, head: Head,
                                                 i: nat)
    requires forall e :: e in events ==> Ships(mode, e)
    requires i < |events|
    ensures |Chain(digest, mode, events, head).batch| == |events|
    ensures var w := Chain(digest, mode, events, head).batch[i];
            w.seqNo == head.seqNo + 1 + i && w.json == events[i].json
            && (mode.Platform? ==> w.orgId == events[i].orgId)
    decreases |events|
  {
    ShippedAllShip(mode, events);
    SkippingLeavesNoTrace(digest, mode, events, head);
    assert Ships(mode, events[0]);
    if i > 0 {
      BatchCarriesItsEvents(digest, mode, events[1..], Advance(digest, head, events[0].json), i - 1);
    }
  }

  // ---------------------------------------------------------------------------
  // What the control plane checks
  // ---------------------------------------------------------------------------

  /** The batch continues the chain whose head is `head`, link by link. */
  predicate Links(digest: Digest, head: Head, batch: seq<Wire>)
    decreases |batch|
  {
    batch == [] ||
    (&& batch[0].seqNo == head.seqNo + 1
     && batch[0].prevHash == head.hash
     && Links(digest, Advance(digest, head, batch[0].json), batch[1..]))
  }

  /** The hash a wire event leaves behind. */
  function HashOf(digest: Digest, w: Wire): Bytes {
    AuditHash(digest, w.seqNo, w.prevHash, w.json)
  }

  /** Entry `i` has the number after its predecessor's and carries its hash; the first
      follows the head. */
  ghost predicate Follows(digest: Digest, head: Head, batch: seq<Wire>, i: int)
    requires 0 <= i < |batch|
  {
    && batch[i].seqNo == head.seqNo + 1 + i
    && batch[i].prevHash == if i == 0 then head.hash else HashOf(digest, batch[i - 1])
  }

  /** A batch links exactly when every entry follows the one before it. */
  lemma {:induction false} LinksEntryByEntry(digest: Digest, head: Head, batch: seq<Wire>)
    ensures Links(digest, head, batch) <==> forall i :: 0 <= i < |batch| ==> Follows(digest, head, batch, i)
    decreases |batch|
  {
    hide AuditHash;
    if batch != [] {
      if Follows(digest, head, batch, 0) {
        var next, tail := Advance(digest, head, batch[0].json), batch[1..];
        LinksEntryByEntry(digest, next, tail);
        forall i | 0 < i < |batch|
          ensures Follows(digest, head, batch, i) <==> Follows(digest, next, tail, i - 1)
        {
          assert tail[i - 1] == batch[i];
        }
        if Links(digest, next, tail) {
          forall i | 0 <= i < |batch| ensures Follows(digest, head, batch, i) {
            if i > 0 { assert Follows(digest, next, tail, i - 1); }
          }
        } else {
          var k :| 0 <= k < |tail| && !Follows(digest, next, tail, k);
          assert !Follows(digest, head, batch, k + 1);
        }
      }
    }
  }

  /** A batch built from a head always links to that head. */
  lemma {:induction false} ChainLinks(digest: Digest, mode: Mode, events: seq<AuditEvent>, head: Head)
    ensures Links(digest, head, Chain(digest, mode, events, head).batch)
    decreases |events|
  {
    if events != [] {
      if Ships(mode, events[0]) {
        var next := Advance(digest, head, events[0].json);
        ChainLinks(digest, mode, events[1..], next);
        assert Chain(digest, mode, events, head).batch[1..] == Chain(digest, mode, events[1..], next).batch;
      } else {
        ChainLinks(digest, mode, events[1..], head);
      }
    }
  }

  /** The head after these JSON texts, from `head`. */
  function AdvanceAll(digest: Digest, head: Head, jsons: seq<Bytes>): (h: Head)
    ensures h.seqNo == head.seqNo + |jsons|
  {
    if jsons == [] then head
    else Advance(digest, AdvanceAll(digest, head, jsons[..|jsons| - 1]), Last(jsons))
  }

  lemma {:induction false} AdvanceAllConcat(digest: Digest, head: Head, a: seq<Bytes>, b: seq<Bytes>)
    ensures AdvanceAll(digest, head, a + b) == AdvanceAll(digest, AdvanceAll(digest, head, a), b)
  {
    if b == [] {
      assert a + b == a;
    } else {
      var b' := b[..|b| - 1];
      AdvanceAllConcat(digest, head, a, b');
      assert (a + b)[..|a + b| - 1] == a + b' && Last(a + b) == Last(b);
    }
  }

  lemma AdvanceOnce(digest: Digest, head: Head, json: Bytes)
    ensures AdvanceAll(digest, head, [json]) == Advance(digest, head, json)
  {
    var one := [json];
    assert one[..0] == [];
  }

  function JsonsOf(batch: seq<Wire>): (r: seq<Bytes>)
    ensures |r| == |batch|
  {
    seq(|batch|, i requires 0 <= i < |batch| => batch[i].json)
  }

  /** Checking a concatenation is checking its parts, the second from where the first ends. */
  lemma {:induction false} LinksConcat(digest: Digest, head: Head, a: seq<Wire>, b: seq<Wire>)
    ensures Links(digest, head, a + b) <==>
            Links(digest, head, a) && Links(digest, AdvanceAll(digest, head, JsonsOf(a)), b)
    decreases |a|
  {
    hide Advance;
    if a == [] {
      assert a + b == b;
    } else {
      var next := Advance(digest, head, a[0].json);
      LinksConcat(digest, next, a[1..], b);
      assert (a + b)[1..] == a[1..] + b && (a + b)[0] == a[0];
      assert JsonsOf(a) == [a[0].json] + JsonsOf(a[1..]);
      AdvanceAllConcat(digest, head, [a[0].json], JsonsOf(a[1..]));
      AdvanceOnce(digest, head, a[0].json);
    }
  }

  /** The tail a shipper computes is the head the control plane reaches. */
  lemma {:induction false} ChainTailIsTheNewHead(digest: Digest, mode: Mode, events: seq<AuditEvent>, head: Head)
    ensures var c := Chain(digest, mode, events, head);
            c.tail == AdvanceAll(digest, head, JsonsOf(c.batch))
    decreases |events|
  {
    hide Advance;
    if events != [] {
      if Ships(mode, events[0]) {
        var json := events[0].json;
        var next := Advance(digest, head, json);
        ChainTailIsTheNewHead(digest, mode, events[1..], next);
        var rest := Chain(digest, mode, events[1..], next).batch;
        assert JsonsOf(Chain(digest, mode, events, head).batch) == [json] + JsonsOf(rest);
        AdvanceAllConcat(digest, head, [json], JsonsOf(rest));
        AdvanceOnce(digest, head, json);
      } else {
        ChainTailIsTheNewHead(digest, mode, events[1..], head);
      }
    }
  }

  // ---------------------------------------------------------------------------
  // Two chains with one head
  // ---------------------------------------------------------------------------

  /** The head of the chain of these JSON texts, from genesis. */
  function HeadOf(digest: Digest, jsons: seq<Bytes>): (h: Head)
    ensures h.seqNo == |jsons|
  {
    AdvanceAll(digest, Genesis(), jsons)
  }

  lemma HashWidth(digest: Digest, jsons: seq<Bytes>)
    requires FixedWidth(digest)
    ensures |HeadOf(digest, jsons).hash| == 64
  {
  }

  /** Two histories with equal heads are the same history, or they exhibit two
      different byte strings with the same digest. No assumption on the digest but
      its width: the fixed widths of number and hash make the preimage unambiguous. */
  lemma {:induction false} EqualHeadsMeanEqualHistories(digest: Digest, a: seq<Bytes>, b: seq<Bytes>)
    returns (x: Bytes, y: Bytes)
    requires FixedWidth(digest)
    requires HeadOf(digest, a) == HeadOf(digest, b)
    ensures a == b || (x != y && digest(x) == digest(y))
    decreases |a|
  {
    x, y := [], [];
    assert |a| == HeadOf(digest, a).seqNo == |b|;
    if a != [] {
      var n := |a| - 1;
      var ha, hb := HeadOf(digest, a[..n]), HeadOf(digest, b[..n]);
      x := Preimage(n + 1, ha.hash, a[n]);
      y := Preimage(n + 1, hb.hash, b[n]);
      HexIsInjective(digest(x), digest(y));
      if x == y {
        HashWidth(digest, a[..n]);
        HashWidth(digest, b[..n]);
        assert ha.hash == x[8..72] == y[8..72] == hb.hash;
        assert a[n] == x[72..] == y[72..] == b[n];
        x, y := EqualHeadsMeanEqualHistories(digest, a[..n], b[..n]);
        assert a == a[..n] + [a[n]] && b == b[..n] + [b[n]];
      }
    }
  }
}
