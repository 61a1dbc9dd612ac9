/**
 The control capsules of IP proxying (section 4.7 of RFC 9484): address assignment,
 address request and route advertisement, their wire form, and the ordering rule on routes.
 */
module ConnectIp {
  import opened Common
  import opened Addresses
  import opened CapsuleProtocol
  import Varint

  const ADDRESS_ASSIGN := 1
  const ADDRESS_REQUEST := 2
  const ROUTE_ADVERTISEMENT := 3

  datatype Error =
    | Malformed
    | BadIpVersion(version: byte)
    | PrefixTooLong
    | PrefixHostBitsSet
    | RangeReversed
    | RangeFamilyMismatch
    | EmptyAddressRequest
    | ZeroRequestId
    | RoutesOutOfOrder

  datatype IpPrefix = IpPrefix(addr: IpAddr, len: byte)

  /** One entry of an ADDRESS_ASSIGN or ADDRESS_REQUEST capsule. */
  datatype AddressEntry = AddressEntry(requestId: nat, prefix: IpPrefix)

  datatype IpAddressRange = IpAddressRange(start: IpAddr, end: IpAddr, protocol: byte)

  datatype IpCapsule =
    | AddressAssign(addresses: seq<AddressEntry>)
    | AddressRequest(addresses: seq<AddressEntry>)
    | RouteAdvertisement(ranges: seq<IpAddressRange>)

  // ---------------------------------------------------------------------------
  // Constructors
  // ---------------------------------------------------------------------------

  function NewPrefix(addr: IpAddr, len: byte): Result<IpPrefix, Error> {
    if len > AddressBits(addr) then Err(PrefixTooLong)
    else if Masked(addr, len) != addr then Err(PrefixHostBitsSet)
    else Ok(IpPrefix(addr, len))
  }

  /** The source's order on addresses: IPv4 before IPv6, then by octets. */
  predicate Below(a: IpAddr, b: IpAddr) {
    if a.V4? && b.V4? then LexLess(a.v4, b.v4)
    else if a.V6? && b.V6? then LexLess(a.v6, b.v6)
    else a.V4?
  }

  function NewRange(start: IpAddr, end: IpAddr, protocol: byte): Result<IpAddressRange, Error> {
    if start.V4? != end.V4? then Err(RangeFamilyMismatch)
    else if Below(end, start) then Err(RangeReversed)
    else Ok(IpAddressRange(start, end, protocol))
  }

  predicate ValidPrefix(p: IpPrefix) {
    NewPrefix(p.addr, p.len).Ok?
  }

  predicate ValidRange(r: IpAddressRange) {
    NewRange(r.start, r.end, r.protocol).Ok?
  }

  function Version(a: IpAddr): byte {
    if a.V4? then 4 else 6
  }

  // ---------------------------------------------------------------------------
  // Route ordering
  // ---------------------------------------------------------------------------

  predicate Ordered(a: IpAddressRange, b: IpAddressRange) {
    var va, vb := Version(a.start), Version(b.start);
    va < vb || (va == vb && (a.protocol < b.protocol || (a.protocol == b.protocol && Below(a.end, b.start))))
  }

  /** The check: every adjacent pair. */
  predicate AdjacentOrdered(ranges: seq<IpAddressRange>) {
    forall i :: 0 <= i < |ranges| - 1 ==> Ordered(ranges[i], ranges[i + 1])
  }

  method CheckRouteOrdering(ranges: seq<IpAddressRange>) returns (ok: bool)
    ensures ok == AdjacentOrdered(ranges)
  {
    var i := 0;
    while i + 1 < |ranges|
      invariant 0 <= i <= |ranges| && forall k :: 0 <= k < i && k < |ranges| - 1 ==> Ordered(ranges[k], ranges[k + 1])
    {
      if !Ordered(ranges[i], ranges[i + 1]) {
        return false;
      }
      i := i + 1;
    }
    return true;
  }

  function Number(a: IpAddr): nat {
    Varint.BigEndian(Octets(a))
  }

  lemma BelowIsNumeric(a: IpAddr, b: IpAddr)
    requires a.V4? == b.V4?
    ensures Below(a, b) <==> Number(a) < Number(b)
  {
    LexIsNumeric(Octets(a), Octets(b));
  }

  lemma OrderedIsTransitive(a: IpAddressRange, b: IpAddressRange, c: IpAddressRange)
    requires ValidRange(a) && ValidRange(b) && ValidRange(c)
    requires Ordered(a, b) && Ordered(b, c)
    ensures Ordered(a, c)
  {
    hide LexLess, Varint.BigEndian;
    if Version(a.start) == Version(c.start) && a.protocol == c.protocol {
      BelowIsNumeric(a.end, b.start);
      BelowIsNumeric(b.end, b.start);
      BelowIsNumeric(b.end, c.start);
      BelowIsNumeric(a.end, c.start);
    }
  }

  lemma {:induction false} OrderedAcross(ranges: seq<IpAddressRange>, i: nat, j: nat)
    requires AdjacentOrdered(ranges) && i < j < |ranges|
    requires forall k :: 0 <= k < |ranges| ==> ValidRange(ranges[k])
    ensures Ordered(ranges[i], ranges[j])
    decreases j - i
  {
    hide Ordered, ValidRange;
    if i + 1 < j {
      OrderedAcross(ranges, i, j - 1);
      assert Ordered(ranges[j - 1], ranges[j - 1 + 1]);
      OrderedIsTransitive(ranges[i], ranges[j - 1], ranges[j]);
    }
  }

  /** The order section 4.7.3 of RFC 9484 asks for, on numbers: by IP version, then by
      protocol number, then by address without overlap. */
  predicate Precedes(a: IpAddressRange, b: IpAddressRange) {
    var va, vb := if a.start.V4? then 4 else 6, if b.start.V4? then 4 else 6;
    || va < vb
    || (va == vb && a.protocol < b.protocol)
    || (va == vb && a.protocol == b.protocol && Number(a.end) < Number(b.start))
  }

  lemma OrderedIsPrecedes(a: IpAddressRange, b: IpAddressRange)
    requires ValidRange(a) && ValidRange(b)
    ensures Ordered(a, b) <==> Precedes(a, b)
  {
    hide LexLess, Varint.BigEndian;
    if a.start.V4? == b.start.V4? {
      BelowIsNumeric(a.end, b.start);
    }
  }

  /** The adjacent check accepts exactly the lists in which every range precedes every
      later one. */
  lemma AcceptsExactlyTheSorted(ranges: seq<IpAddressRange>)
    requires forall k :: 0 <= k < |ranges| ==> ValidRange(ranges[k])
    ensures AdjacentOrdered(ranges) <==> forall i, j :: 0 <= i < j < |ranges| ==> Precedes(ranges[i], ranges[j])
  {
    hide Ordered, ValidRange, Precedes;
    forall i, j | 0 <= i < j < |ranges|
      ensures AdjacentOrdered(ranges) ==> Precedes(ranges[i], ranges[j])
      ensures Ordered(ranges[i], ranges[j]) <==> Precedes(ranges[i], ranges[j])
    {
      OrderedIsPrecedes(ranges[i], ranges[j]);
      if AdjacentOrdered(ranges) {
        OrderedAcross(ranges, i, j);
      }
    }
  }

  /** What makes a range: one family, and a start no greater than the end. */
  lemma NewRangeOutcome(start: IpAddr, end: IpAddr, protocol: byte)
    ensures NewRange(start, end, protocol) ==
            if start.V4? != end.V4? then Err(RangeFamilyMismatch)
            else if Number(start) > Number(end) then Err(RangeReversed)
            else Ok(IpAddressRange(start, end, protocol))
  {
    hide LexLess, Varint.BigEndian;
    if start.V4? == end.V4? {
      BelowIsNumeric(end, start);
    }
  }

  /** What makes a prefix: a length the family has, and an address divisible by the size of
      the block. */
  lemma NewPrefixOutcome(addr: IpAddr, len: byte)
    ensures var bits := if addr.V4? then 32 else 128;
            NewPrefix(addr, len) ==
            if len > bits then Err(PrefixTooLong)
            else if Number(addr) % Pow2(bits - len) != 0 then Err(PrefixHostBitsSet)
            else Ok(IpPrefix(addr, len))
  {
    hide Varint.BigEndian, Pow2;
    if len <= AddressBits(addr) {
      MaskedKeepsExactly(addr, len);
    }
  }

  ghost predicate Covers(r: IpAddressRange, a: IpAddr) {
    r.start.V4? == a.V4? && Number(r.start) <= Number(a) <= Number(r.end)
  }

  /** The adjacent check is the check of every pair, and it makes the list a partition:
      no address is covered twice within one version and protocol number. */
  lemma AdjacentOrderIsGlobalDisjointness(ranges: seq<IpAddressRange>)
    requires forall k :: 0 <= k < |ranges| ==> ValidRange(ranges[k])
    ensures AdjacentOrdered(ranges) <==> forall i, j :: 0 <= i < j < |ranges| ==> Ordered(ranges[i], ranges[j])
    ensures AdjacentOrdered(ranges) ==>
              forall i, j, a :: 0 <= i < j < |ranges| && ranges[i].protocol == ranges[j].protocol ==>
                !(Covers(ranges[i], a) && Covers(ranges[j], a))
  {
    hide LexLess, Varint.BigEndian;
    if AdjacentOrdered(ranges) {
      forall i, j | 0 <= i < j < |ranges|
        ensures Ordered(ranges[i], ranges[j])
      {
        OrderedAcross(ranges, i, j);
      }
      forall i, j, a | 0 <= i < j < |ranges| && ranges[i].protocol == ranges[j].protocol
        ensures !(Covers(ranges[i], a) && Covers(ranges[j], a))
      {
        assert ValidRange(ranges[i]) && ValidRange(ranges[j]);
        if ranges[i].start.V4? == ranges[j].start.V4? {
          BelowIsNumeric(ranges[i].end, ranges[j].start);
        }
      }
    }
  }

  // ---------------------------------------------------------------------------
  // Encoding
  // ---------------------------------------------------------------------------

  function EncodePrefix(p: IpPrefix): Bytes {
    [Version(p.addr)] + Octets(p.addr) + [p.len]
  }

  function EncodeEntry(e: AddressEntry): Bytes
    requires e.requestId <= Varint.MAX
  {
    Varint.Encode(e.requestId).value + EncodePrefix(e.prefix)
  }

  function EncodeRange(r: IpAddressRange): Bytes {
    [Version(r.start)] + Octets(r.start) + Octets(r.end) + [r.protocol]
  }

  predicate EncodableIds(addresses: seq<AddressEntry>) {
    forall i :: 0 <= i < |addresses| ==> addresses[i].requestId <= Varint.MAX
  }

  function EncodeEntries(addresses: seq<AddressEntry>): Bytes
    requires EncodableIds(addresses)
  {
    if addresses == [] then [] else EncodeEntry(addresses[0]) + EncodeEntries(addresses[1..])
  }

  function EncodeRanges(ranges: seq<IpAddressRange>): Bytes {
    if ranges == [] then [] else EncodeRange(ranges[0]) + EncodeRanges(ranges[1..])
  }

  function FirstBadId(addresses: seq<AddressEntry>): Error {
    if addresses == [] then Malformed
    else if addresses[0].requestId == 0 then ZeroRequestId
    else if addresses[0].requestId > Varint.MAX then Malformed
    else FirstBadId(addresses[1..])
  }

  predicate NonZeroIds(addresses: seq<AddressEntry>) {
    forall i :: 0 <= i < |addresses| ==> addresses[i].requestId != 0
  }

  function ToCapsule(ip: IpCapsule): Result<Capsule, Error> {
    match ip
    case AddressAssign(addresses) =>
      if !EncodableIds(addresses) then Err(Malformed) else Ok(Capsule(ADDRESS_ASSIGN, EncodeEntries(addresses)))
    case AddressRequest(addresses) =>
      if addresses == [] then Err(EmptyAddressRequest)
      else if !EncodableIds(addresses) || !NonZeroIds(addresses) then Err(FirstBadId(addresses))
      else Ok(Capsule(ADDRESS_REQUEST, EncodeEntries(addresses)))
    case RouteAdvertisement(ranges) =>
      if !AdjacentOrdered(ranges) then Err(RoutesOutOfOrder) else Ok(Capsule(ROUTE_ADVERTISEMENT, EncodeRanges(ranges)))
  }

  lemma {:induction false} EntriesSnoc(front: seq<AddressEntry>, e: AddressEntry)
    requires EncodableIds(front + [e]) && EncodableIds(front) && e.requestId <= Varint.MAX
    ensures EncodeEntries(front + [e]) == EncodeEntries(front) + EncodeEntry(e)
  {
    hide EncodeEntry;
    if front == [] {
      assert [e][1..] == [] && EncodeEntries([]) == [];
    } else {
      assert (front + [e])[1..] == front[1..] + [e];
      EntriesSnoc(front[1..], e);
    }
  }

  lemma {:induction false} RangesSnoc(front: seq<IpAddressRange>, r: IpAddressRange)
    ensures EncodeRanges(front + [r]) == EncodeRanges(front) + EncodeRange(r)
  {
    hide EncodeRange;
    if front == [] {
      assert [r][1..] == [] && EncodeRanges([]) == [];
    } else {
      assert (front + [r])[1..] == front[1..] + [r];
      RangesSnoc(front[1..], r);
    }
  }

  lemma {:induction false} FirstBadIdAt(addresses: seq<AddressEntry>, i: nat)
    requires i < |addresses| && forall k :: 0 <= k < i ==> 0 < addresses[k].requestId <= Varint.MAX
    requires addresses[i].requestId == 0 || addresses[i].requestId > Varint.MAX
    ensures FirstBadId(addresses) == if addresses[i].requestId == 0 then ZeroRequestId else Malformed
  {
    if i > 0 {
      FirstBadIdAt(addresses[1..], i - 1);
    }
  }

  /** The encoder's address loop: a growing buffer, stopping at the first bad identifier. */
  method AppendEntries(addresses: seq<AddressEntry>, request: bool) returns (r: Result<Bytes, Error>)
    ensures r == if EncodableIds(addresses) && (request ==> NonZeroIds(addresses)) then Ok(EncodeEntries(addresses))
                 else Err(if request then FirstBadId(addresses) else Malformed)
  {
    hide EncodeEntry;
    var value: Bytes := [];
    for i := 0 to |addresses|
      invariant EncodableIds(addresses[..i]) && (request ==> NonZeroIds(addresses[..i]))
      invariant value == EncodeEntries(addresses[..i])
    {
      var e := addresses[i];
      assert forall k :: 0 <= k < i ==> addresses[..i][k] == addresses[k];
      if request && e.requestId == 0 {
        FirstBadIdAt(addresses, i);
        return Err(ZeroRequestId);
      }
      if e.requestId > Varint.MAX {
        if request {
          FirstBadIdAt(addresses, i);
        }
        return Err(Malformed);
      }
      assert addresses[..i + 1] == addresses[..i] + [e];
      EntriesSnoc(addresses[..i], e);
      value := value + EncodeEntry(e);
    }
    assert addresses[..|addresses|] == addresses;
    return Ok(value);
  }

  method EncodeIpCapsule(ip: IpCapsule) returns (r: Result<Capsule, Error>)
    ensures r == ToCapsule(ip)
  {
    hide EncodeEntries, EncodeRange, Ordered;
    match ip
    case AddressAssign(addresses) =>
      var value := AppendEntries(addresses, false);
      r := if value.Err? then Err(value.error) else Ok(Capsule(ADDRESS_ASSIGN, value.value));
    case AddressRequest(addresses) =>
      if addresses == [] {
        return Err(EmptyAddressRequest);
      }
      var value := AppendEntries(addresses, true);
      r := if value.Err? then Err(value.error) else Ok(Capsule(ADDRESS_REQUEST, value.value));
    case RouteAdvertisement(ranges) =>
      var ordered := CheckRouteOrdering(ranges);
      if !ordered {
        return Err(RoutesOutOfOrder);
      }
      var value: Bytes := [];
      for i := 0 to |ranges|
        invariant value == EncodeRanges(ranges[..i])
      {
        assert ranges[..i + 1] == ranges[..i] + [ranges[i]];
        RangesSnoc(ranges[..i], ranges[i]);
        value := value + EncodeRange(ranges[i]);
      }
      assert ranges[..|ranges|] == ranges;
      r := Ok(Capsule(ROUTE_ADVERTISEMENT, value));
  }

  // ---------------------------------------------------------------------------
  // Decoding
  // ---------------------------------------------------------------------------

  /** A decoded value and the bytes after it. */
  datatype Parsed<T> = Parsed(value: T, rest: Bytes)

  function ParseAddress(input: Bytes, version: byte): (r: Result<Parsed<IpAddr>, Error>)
    ensures r.Ok? ==> |r.value.rest| < |input|
  {
    if version == 4 then
      if |input| < 4 then Err(Malformed) else Ok(Parsed(V4(input[..4]), input[4..]))
    else if version == 6 then
      if |input| < 16 then Err(Malformed) else Ok(Parsed(V6(input[..16]), input[16..]))
    else Err(BadIpVersion(version))
  }

  function ParsePrefix(input: Bytes): (r: Result<Parsed<IpPrefix>, Error>)
    ensures r.Ok? ==> |r.value.rest| < |input| && ValidPrefix(r.value.value)
  {
    if input == [] then Err(Malformed)
    else
      var addr := ParseAddress(input[1..], input[0]);
      if addr.Err? then Err(addr.error)
      else if addr.value.rest == [] then Err(Malformed)
      else
        var prefix := NewPrefix(addr.value.value, addr.value.rest[0]);
        if prefix.Err? then Err(prefix.error) else Ok(Parsed(prefix.value, addr.value.rest[1..]))
  }

  function ParseEntry(input: Bytes, request: bool): (r: Result<Parsed<AddressEntry>, Error>)
    ensures r.Ok? ==> |r.value.rest| < |input|
  {
    var id := Varint.Decode(input);
    if id.UnexpectedEnd? then Err(Malformed)
    else if request && id.value == 0 then Err(ZeroRequestId)
    else
      var prefix := ParsePrefix(input[id.len..]);
      if prefix.Err? then Err(prefix.error)
      else Ok(Parsed(AddressEntry(id.value, prefix.value.value), prefix.value.rest))
  }

  function ParseRange(input: Bytes): (r: Result<Parsed<IpAddressRange>, Error>)
    ensures r.Ok? ==> |r.value.rest| < |input| && ValidRange(r.value.value)
  {
    if input == [] then Err(Malformed)
    else
      var start := ParseAddress(input[1..], input[0]);
      if start.Err? then Err(start.error)
      else
        var end := ParseAddress(start.value.rest, input[0]);
        if end.Err? then Err(end.error)
        else if end.value.rest == [] then Err(Malformed)
        else
          var range := NewRange(start.value.value, end.value.value, end.value.rest[0]);
          if range.Err? then Err(range.error) else Ok(Parsed(range.value, end.value.rest[1..]))
  }

  function Put<T>(before: seq<T>, r: Result<seq<T>, Error>): Result<seq<T>, Error> {
    if r.Err? then r else Ok(before + r.value)
  }

  lemma PutPut<T>(a: seq<T>, b: seq<T>, r: Result<seq<T>, Error>)
    ensures Put(a, Put(b, r)) == Put(a + b, r)
  {
    assert r.Ok? ==> a + (b + r.value) == (a + b) + r.value;
  }

  function ParseEntries(input: Bytes, request: bool): Result<seq<AddressEntry>, Error>
    decreases |input|
  {
    if input == [] then Ok([])
    else
      var entry := ParseEntry(input, request);
      if entry.Err? then Err(entry.error) else Put([entry.value.value], ParseEntries(entry.value.rest, request))
  }

  function ParseRanges(input: Bytes): Result<seq<IpAddressRange>, Error>
    decreases |input|
  {
    if input == [] then Ok([])
    else
      var range := ParseRange(input);
      if range.Err? then Err(range.error) else Put([range.value.value], ParseRanges(range.value.rest))
  }

  /** `Ok(None)` is a capsule type this protocol does not define. */
  function FromCapsule(c: Capsule): Result<Option<IpCapsule>, Error> {
    if c.kind == ADDRESS_ASSIGN then
      var r := ParseEntries(c.value, false);
      if r.Err? then Err(r.error) else Ok(Some(AddressAssign(r.value)))
    else if c.kind == ADDRESS_REQUEST then
      var r := ParseEntries(c.value, true);
      if r.Err? then Err(r.error)
      else if r.value == [] then Err(EmptyAddressRequest)
      else Ok(Some(AddressRequest(r.value)))
    else if c.kind == ROUTE_ADVERTISEMENT then
      var r := ParseRanges(c.value);
      if r.Err? then Err(r.error)
      else if !AdjacentOrdered(r.value) then Err(RoutesOutOfOrder)
      else Ok(Some(RouteAdvertisement(r.value)))
    else Ok(None)
  }

  /** The decoder's address loop: an input cursor and a growing list. */
  method DecodeEntries(value: Bytes, request: bool) returns (r: Result<seq<AddressEntry>, Error>)
    ensures r == ParseEntries(value, request)
  {
    hide ParseEntry;
    var input := value;
    var addresses: seq<AddressEntry> := [];
    ghost var all := ParseEntries(value, request);
    assert all.Ok? ==> [] + all.value == all.value;
    while input != []
      invariant ParseEntries(value, request) == Put(addresses, ParseEntries(input, request))
      decreases |input|
    {
      var entry := ParseEntry(input, request);
      if entry.Err? {
        return Err(entry.error);
      }
      PutPut(addresses, [entry.value.value], ParseEntries(entry.value.rest, request));
      addresses := addresses + [entry.value.value];
      input := entry.value.rest;
    }
    assert addresses + [] == addresses;
    return Ok(addresses);
  }

  /** The decoder's route loop. */
  method DecodeRanges(value: Bytes) returns (r: Result<seq<IpAddressRange>, Error>)
    ensures r == ParseRanges(value)
  {
    hide ParseRange;
    var input := value;
    var ranges: seq<IpAddressRange> := [];
    assert ParseRanges(value).Ok? ==> [] + ParseRanges(value).value == ParseRanges(value).value;
    while input != []
      invariant ParseRanges(value) == Put(ranges, ParseRanges(input))
      decreases |input|
    {
      var range := ParseRange(input);
      if range.Err? {
        return Err(range.error);
      }
      PutPut(ranges, [range.value.value], ParseRanges(range.value.rest));
      ranges := ranges + [range.value.value];
      input := range.value.rest;
    }
    assert ranges + [] == ranges;
    return Ok(ranges);
  }

  method DecodeIpCapsule(c: Capsule) returns (r: Result<Option<IpCapsule>, Error>)
    ensures r == FromCapsule(c)
  {
    hide ParseEntries, ParseRanges, AdjacentOrdered;
    if c.kind == ADDRESS_ASSIGN || c.kind == ADDRESS_REQUEST {
      var addresses := DecodeEntries(c.value, c.kind == ADDRESS_REQUEST);
      if addresses.Err? {
        return Err(addresses.error);
      }
      if c.kind == ADDRESS_ASSIGN {
        return Ok(Some(AddressAssign(addresses.value)));
      }
      if addresses.value == [] {
        return Err(EmptyAddressRequest);
      }
      return Ok(Some(AddressRequest(addresses.value)));
    }
    if c.kind != ROUTE_ADVERTISEMENT {
      return Ok(None);
    }
    var ranges := DecodeRanges(c.value);
    if ranges.Err? {
      return Err(ranges.error);
    }
    var ordered := CheckRouteOrdering(ranges.value);
    return if ordered then Ok(Some(RouteAdvertisement(ranges.value))) else Err(RoutesOutOfOrder);
  }

  // ---------------------------------------------------------------------------
  // Round trips
  // ---------------------------------------------------------------------------

  ghost predicate ValidEntries(addresses: seq<AddressEntry>) {
    EncodableIds(addresses) && forall i :: 0 <= i < |addresses| ==> ValidPrefix(addresses[i].prefix)
  }

  /** A capsule value the protocol allows. */
  ghost predicate Valid(ip: IpCapsule) {
    if ip.RouteAdvertisement? then
      AdjacentOrdered(ip.ranges) && forall i :: 0 <= i < |ip.ranges| ==> ValidRange(ip.ranges[i])
    else
      && ValidEntries(ip.addresses)
      && (ip.AddressRequest? ==> ip.addresses != [] && NonZeroIds(ip.addresses))
  }

  lemma AddressParses(a: IpAddr, rest: Bytes)
    ensures ParseAddress(Octets(a) + rest, Version(a)) == Ok(Parsed(a, rest))
  {
    var s, n := Octets(a) + rest, |Octets(a)|;
    assert s[..n] == Octets(a) && s[n..] == rest;
  }

  lemma PrefixParses(p: IpPrefix, rest: Bytes)
    requires ValidPrefix(p)
    ensures ParsePrefix(EncodePrefix(p) + rest) == Ok(Parsed(p, rest))
  {
    hide NewPrefix, ParseAddress;
    assert NewPrefix(p.addr, p.len) == Ok(p) by { NewPrefixKeeps(p); }
    var s := EncodePrefix(p) + rest;
    assert s[1..] == Octets(p.addr) + ([p.len] + rest);
    AddressParses(p.addr, [p.len] + rest);
    assert ([p.len] + rest)[1..] == rest;
  }

  lemma NewPrefixKeeps(p: IpPrefix)
    requires ValidPrefix(p)
    ensures NewPrefix(p.addr, p.len) == Ok(p)
  {
  }

  lemma EntryParses(e: AddressEntry, request: bool, rest: Bytes)
    requires e.requestId <= Varint.MAX && ValidPrefix(e.prefix) && (request ==> e.requestId != 0)
    ensures ParseEntry(EncodeEntry(e) + rest, request) == Ok(Parsed(e, rest))
  {
    hide ParsePrefix, EncodePrefix, Varint.Decode, Varint.Encode, ValidPrefix;
    var id, prefix := Varint.Encode(e.requestId).value, EncodePrefix(e.prefix);
    Associative(id, prefix, rest);
    Varint.RoundTrip(e.requestId, prefix + rest);
    Cut(id, prefix + rest);
    PrefixParses(e.prefix, rest);
  }

  lemma RangeParses(r: IpAddressRange, rest: Bytes)
    requires ValidRange(r)
    ensures ParseRange(EncodeRange(r) + rest) == Ok(Parsed(r, rest))
  {
    hide Below, ParseAddress;
    var s := EncodeRange(r) + rest;
    var after := Octets(r.end) + ([r.protocol] + rest);
    assert s[1..] == Octets(r.start) + after;
    AddressParses(r.start, after);
    AddressParses(r.end, [r.protocol] + rest);
    assert ([r.protocol] + rest)[1..] == rest;
  }

  lemma {:induction false} EntriesParse(addresses: seq<AddressEntry>, request: bool)
    requires ValidEntries(addresses) && (request ==> NonZeroIds(addresses))
    ensures ParseEntries(EncodeEntries(addresses), request) == Ok(addresses)
  {
    hide ParseEntry, EncodeEntry, ValidPrefix;
    if addresses != [] {
      EntryParses(addresses[0], request, EncodeEntries(addresses[1..]));
      EntriesParse(addresses[1..], request);
      assert [addresses[0]] + addresses[1..] == addresses;
    }
  }

  lemma {:induction false} RangesParse(ranges: seq<IpAddressRange>)
    requires forall i :: 0 <= i < |ranges| ==> ValidRange(ranges[i])
    ensures ParseRanges(EncodeRanges(ranges)) == Ok(ranges)
  {
    hide ParseRange, EncodeRange, ValidRange;
    if ranges != [] {
      RangeParses(ranges[0], EncodeRanges(ranges[1..]));
      RangesParse(ranges[1..]);
      assert [ranges[0]] + ranges[1..] == ranges;
    }
  }

  /** Every valid control capsule encodes, and decoding gives it back with nothing left. */
  lemma RoundTrip(ip: IpCapsule)
    requires Valid(ip)
    ensures ToCapsule(ip).Ok? && FromCapsule(ToCapsule(ip).value) == Ok(Some(ip))
  {
    hide EncodeEntries, EncodeRanges, ParseEntries, ParseRanges, ValidPrefix, ValidRange, Ordered;
    if ip.RouteAdvertisement? {
      RangesParse(ip.ranges);
    } else {
      EntriesParse(ip.addresses, ip.AddressRequest?);
    }
  }

  lemma ParsedEntryIsValid(input: Bytes, request: bool)
    requires ParseEntry(input, request).Ok?
    ensures var e := ParseEntry(input, request).value.value;
            e.requestId <= Varint.MAX && ValidPrefix(e.prefix) && (request ==> e.requestId != 0)
  {
    hide ParsePrefix, ValidPrefix;
    Varint.DecodedValuesFit(input);
  }

  lemma {:induction false} ParsedEntriesAreValid(input: Bytes, request: bool)
    requires ParseEntries(input, request).Ok?
    ensures ValidEntries(ParseEntries(input, request).value)
    ensures request ==> NonZeroIds(ParseEntries(input, request).value)
    decreases |input|
  {
    hide ParseEntry, ValidPrefix;
    if input != [] {
      ParsedEntryIsValid(input, request);
      ParsedEntriesAreValid(ParseEntry(input, request).value.rest, request);
    }
  }

  lemma {:induction false} ParsedRangesAreValid(input: Bytes)
    requires ParseRanges(input).Ok?
    ensures forall i :: 0 <= i < |ParseRanges(input).value| ==> ValidRange(ParseRanges(input).value[i])
    decreases |input|
  {
    hide ParseRange, ValidRange;
    if input != [] {
      ParsedRangesAreValid(ParseRange(input).value.rest);
    }
  }

  /** Whatever the decoder accepts, non-minimal varints included, is valid, encodes
      again, and decodes to the same value. */
  lemma DecodedReencodes(c: Capsule)
    requires FromCapsule(c).Ok? && FromCapsule(c).value.Some?
    ensures var ip := FromCapsule(c).value.value;
            Valid(ip) && ToCapsule(ip).Ok? && FromCapsule(ToCapsule(ip).value) == FromCapsule(c)
  {
    hide ParseEntries, ParseRanges, ValidPrefix, ValidRange, Ordered, ToCapsule;
    var ip := FromCapsule(c).value.value;
    if ip.RouteAdvertisement? {
      ParsedRangesAreValid(c.value);
    } else {
      ParsedEntriesAreValid(c.value, ip.AddressRequest?);
    }
    RoundTrip(ip);
  }

  /** Validity is exactly what a round trip needs. */
  lemma RoundTripsExactlyWhenValid(ip: IpCapsule)
    ensures Valid(ip) <==> ToCapsule(ip).Ok? && FromCapsule(ToCapsule(ip).value) == Ok(Some(ip))
  {
    hide Valid, ToCapsule, FromCapsule;
    if Valid(ip) {
      RoundTrip(ip);
    } else if ToCapsule(ip).Ok? && FromCapsule(ToCapsule(ip).value) == Ok(Some(ip)) {
      DecodedReencodes(ToCapsule(ip).value);
    }
  }

  /** Every list of valid ranges in that order is a route advertisement that encodes, as
      capsule 3, and comes back. */
  lemma SortedRoutesEncode(ranges: seq<IpAddressRange>)
    requires forall k :: 0 <= k < |ranges| ==>
               ranges[k].start.V4? == ranges[k].end.V4? && Number(ranges[k].start) <= Number(ranges[k].end)
    requires forall i, j :: 0 <= i < j < |ranges| ==> Precedes(ranges[i], ranges[j])
    ensures var c := ToCapsule(RouteAdvertisement(ranges));
            c.Ok? && c.value.kind == 3 && FromCapsule(c.value) == Ok(Some(RouteAdvertisement(ranges)))
  {
    hide Precedes, FromCapsule, NewRange, Number;
    forall k | 0 <= k < |ranges| ensures ValidRange(ranges[k]) {
      NewRangeOutcome(ranges[k].start, ranges[k].end, ranges[k].protocol);
    }
    AcceptsExactlyTheSorted(ranges);
    RoundTrip(RouteAdvertisement(ranges));
  }

  /** What the encoder refuses, and why. */
  lemma RefusedCapsules(e: AddressEntry, rest: seq<AddressEntry>, ranges: seq<IpAddressRange>)
    ensures ToCapsule(AddressRequest([])) == Err(EmptyAddressRequest)
    ensures e.requestId == 0 ==> ToCapsule(AddressRequest([e] + rest)) == Err(ZeroRequestId)
    ensures e.requestId > 0x3FFF_FFFF_FFFF_FFFF ==>
              ToCapsule(AddressRequest([e] + rest)) == Err(Malformed) == ToCapsule(AddressAssign([e] + rest))
    ensures !AdjacentOrdered(ranges) ==> ToCapsule(RouteAdvertisement(ranges)) == Err(RoutesOutOfOrder)
  {
    hide EncodeEntries, EncodeRanges, AdjacentOrdered;
    assert ([e] + rest)[0] == e;
  }

  /** What the decoder refuses, and why: an unknown IP version, an empty or zero request,
      an end in the middle of an address. */
  lemma RefusedInput(version: byte, rest: Bytes, id: nat)
    requires version != 4 && version != 6 && 0 < id <= Varint.MAX
    ensures FromCapsule(Capsule(2, [])) == Err(EmptyAddressRequest)
    ensures FromCapsule(Capsule(3, [version] + rest)) == Err(BadIpVersion(version))
    ensures FromCapsule(Capsule(2, Varint.Encode(id).value + ([version] + rest))) == Err(BadIpVersion(version))
    ensures FromCapsule(Capsule(2, Varint.Encode(0).value + rest)) == Err(ZeroRequestId)
    ensures |rest| < 4 ==> FromCapsule(Capsule(3, [4] + rest)) == Err(Malformed)
    ensures |rest| < 16 ==> FromCapsule(Capsule(3, [6] + rest)) == Err(Malformed)
  {
    hide Varint.Decode, Varint.Encode;
    Varint.RoundTrip(id, [version] + rest);
    Varint.RoundTrip(0, rest);
    Cut(Varint.Encode(id).value, [version] + rest);
    assert ([version] + rest)[1..] == rest && ([4] + rest)[1..] == rest && ([6] + rest)[1..] == rest;
  }

  /** The numbers on the wire (section 4.7 of RFC 9484), both ways. */
  lemma WireNumbers(ip: IpCapsule, c: Capsule)
    ensures ToCapsule(ip).Ok? ==>
              ToCapsule(ip).value.kind == if ip.AddressAssign? then 1 else if ip.AddressRequest? then 2 else 3
    ensures FromCapsule(c) == Ok(None) <==> c.kind != 1 && c.kind != 2 && c.kind != 3
  {
    hide EncodeEntries, EncodeRanges, ParseEntries, ParseRanges, AdjacentOrdered;
  }

  /** An accepted route advertisement covers no address twice under one protocol. */
  lemma AcceptedRoutesAreDisjoint(c: Capsule, i: nat, j: nat, a: IpAddr)
    requires FromCapsule(c).Ok? && FromCapsule(c).value.Some? && FromCapsule(c).value.value.RouteAdvertisement?
    requires var ranges := FromCapsule(c).value.value.ranges;
             i < j < |ranges| && ranges[i].protocol == ranges[j].protocol
    ensures var ranges := FromCapsule(c).value.value.ranges;
            !(Covers(ranges[i], a) && Covers(ranges[j], a))
  {
    DecodedReencodes(c);
    AdjacentOrderIsGlobalDisjointness(FromCapsule(c).value.value.ranges);
  }
}
