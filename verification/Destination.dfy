/**
 Where a workload wants to go: concrete destinations, the patterns a policy is written
 with, and the text forms of both. Reading and printing IP literals is the standard
 library's business and comes in as a parameter.
 */
module Destination {
  import opened Common
  import opened Chars
  import opened Addresses
  import opened Varint

  /** The standard library's address parser and printer. */
  datatype IpText = IpText(read: string -> Option<IpAddr>, show: IpAddr -> string)

  predicate IsV4Char(c: char) { IsDigit(c) || c == '.' }

  predicate IsV6Char(c: char) { IsDigit(c) || 'a' <= c <= 'f' || c == ':' || c == '.' }

  /** What is taken from the standard library: printing then parsing is the identity,
      printed literals use the characters of their family, and text without a colon
      parses as an address only if it is made of digits and dots. */
  ghost predicate Faithful(ip: IpText) {
    && (forall a {:trigger ip.show(a)} :: ip.read(ip.show(a)) == Some(a))
    && (forall a {:trigger ip.show(a)} :: ip.show(a) != [] && All(ip.show(a), if a.V4? then IsV4Char else IsV6Char))
    && (forall s {:trigger ip.read(s)} :: ip.read(s).Some? && Lacks(s, ':') ==> All(s, IsV4Char))
  }

  /** Address text such as these assumptions describe: the number in decimal, behind a colon
      for IPv6. */
  function ShowNumber(a: IpAddr): string {
    if a.V4? then PrintNat(BigEndian(a.v4)) else ":" + PrintNat(BigEndian(a.v6))
  }

  /** Exactly the decimal text of a number of at most `len` bytes. */
  function ReadNumber(s: string, len: nat): Option<Bytes> {
    var n := ParseUnsigned(s, Pow256(len) - 1);
    if n.Some? && PrintNat(n.value) == s then Some(ToBigEndian(n.value, len)) else None
  }

  function ReadAddress(s: string): Option<IpAddr> {
    if s != [] && s[0] == ':' then
      var v6 := ReadNumber(s[1..], 16);
      if v6.Some? then Some(V6(v6.value)) else None
    else
      var v4 := ReadNumber(s, 4);
      if v4.Some? then Some(V4(v4.value)) else None
  }

  lemma ReadNumberOfPrinted(octets: Bytes)
    ensures ReadNumber(PrintNat(BigEndian(octets)), |octets|) == Some(octets)
  {
    hide PrintNat, ParseUnsigned, Pow256, ToBigEndian, BigEndian;
    ParsePrinted(BigEndian(octets), Pow256(|octets|) - 1);
    ToBigEndianRoundTrip(octets);
  }

  /** The assumptions can be met. */
  lemma SomeTextIsFaithful()
    ensures Faithful(IpText(ReadAddress, ShowNumber))
  {
    hide PrintNat, ReadNumber, BigEndian;
    var ip := IpText(ReadAddress, ShowNumber);
    forall a
      ensures ip.read(ip.show(a)) == Some(a) && ip.show(a) != []
      ensures All(ip.show(a), if a.V4? then IsV4Char else IsV6Char)
    {
      ShownReads(a);
      assert ip.show(a) == ShowNumber(a) && ip.read(ShowNumber(a)) == ReadAddress(ShowNumber(a));
    }
    forall s | ip.read(s).Some? && Lacks(s, ':')
      ensures All(s, IsV4Char)
    {
      ReadIsDigits(s, 4);
    }
  }

  lemma ShownReads(a: IpAddr)
    ensures ReadAddress(ShowNumber(a)) == Some(a) && ShowNumber(a) != []
    ensures All(ShowNumber(a), if a.V4? then IsV4Char else IsV6Char)
  {
    hide PrintNat, ReadNumber, BigEndian;
    if a.V4? {
      ReadNumberOfPrinted(a.v4);
      assert IsDigit(ShowNumber(a)[0]);
    } else {
      ReadNumberOfPrinted(a.v6);
      assert ShowNumber(a)[1..] == PrintNat(BigEndian(a.v6));
    }
  }

  lemma ReadIsDigits(s: string, len: nat)
    requires ReadNumber(s, len).Some?
    ensures All(s, IsDigit)
  {
  }

  datatype Error = Empty | MissingPort | Malformed | BadPort | BadPrefix

  datatype Host = Name(name: string) | Ip(addr: IpAddr)

  datatype Destination = Destination(host: Host, port: nat)

  datatype HostPattern =
    | AnyHost
    | Exact(name: string)
    | Suffix(suffix: string)
    | ExactIp(addr: IpAddr)
    | Cidr(addr: IpAddr, len: nat)

  datatype PortPattern = AnyPort | ExactPort(port: nat) | Range(lo: nat, hi: nat)

  datatype DestinationSpec = DestinationSpec(host: HostPattern, port: PortPattern, raw: string)

  // ---------------------------------------------------------------------------
  // Parsing
  // ---------------------------------------------------------------------------

  function SplitHostPort(text: string): Option<(string, string)> {
    if text != [] && text[0] == '[' then
      var rest := text[1..];
      var close := IndexOf(rest, ']');
      if close == |rest| then None
      else
        var after := rest[close + 1..];
        if after == [] || after[0] != ':' then None else Some((rest[..close], after[1..]))
    else
      var colon := LastIndexOf(text, ':');
      if colon == |text| || !Lacks(text[..colon], ':') then None
      else Some((text[..colon], text[colon + 1..]))
  }

  predicate IsNameChar(c: char) {
    IsAlphanumeric(c) || c == '-' || c == '.' || c == '_'
  }

  function ParseHostLiteral(ip: IpText, host: string): Result<Host, Error> {
    if host == [] then Err(Malformed)
    else
      var unbracketed :=
        if |host| >= 2 && host[0] == '[' && host[|host| - 1] == ']' then host[1..|host| - 1] else host;
      var addr := ip.read(unbracketed);
      if addr.Some? then Ok(Ip(addr.value))
      else if !All(unbracketed, IsNameChar) then Err(Malformed)
      else Ok(Name(Lower(unbracketed)))
  }

  function ParsePort(s: string): Option<nat> {
    var port := ParseUnsigned(s, 65535);
    if port.Some? && port.value != 0 then port else None
  }

  function Parse(ip: IpText, input: string): Result<Destination, Error> {
    var text := Trim(input);
    if text == [] then Err(Empty)
    else
      var parts := SplitHostPort(text);
      if parts.None? then Err(MissingPort)
      else
        var port := ParsePort(parts.value.1);
        if port.None? then Err(BadPort)
        else
          var host := ParseHostLiteral(ip, parts.value.0);
          if host.Err? then Err(host.error) else Ok(Destination(host.value, port.value))
  }

  function Print(ip: IpText, d: Destination): string {
    (if d.host.Name? then d.host.name
     else if d.host.addr.V4? then ip.show(d.host.addr)
     else "[" + ip.show(d.host.addr) + "]")
    + ":" + PrintNat(d.port)
  }

  function ParsePortPattern(s: string): Result<PortPattern, Error> {
    if s == "*" then Ok(AnyPort)
    else
      var dash := IndexOf(s, '-');
      if dash < |s| then
        var lo, hi := ParseUnsigned(s[..dash], 65535), ParseUnsigned(s[dash + 1..], 65535);
        if lo.None? || hi.None? || lo.value == 0 || hi.value == 0 || lo.value > hi.value then Err(BadPort)
        else Ok(Range(lo.value, hi.value))
      else
        var port := ParsePort(s);
        if port.None? then Err(BadPort) else Ok(ExactPort(port.value))
  }

  function ParseHostPattern(ip: IpText, host: string): Result<HostPattern, Error> {
    if host == "*" then Ok(AnyHost)
    else if "*." <= host then
      var suffix := host[2..];
      if suffix == [] || !Lacks(suffix, '*') then Err(Malformed) else Ok(Suffix("." + Lower(suffix)))
    else
      var addr := ip.read(host);
      if addr.Some? then Ok(ExactIp(addr.value))
      else
        var literal := ParseHostLiteral(ip, host);
        if literal.Err? then Err(literal.error)
        else if literal.value.Name? then Ok(Exact(literal.value.name))
        else Ok(ExactIp(literal.value.addr))
  }

  function ParseSpec(ip: IpText, input: string): Result<DestinationSpec, Error> {
    var text := Trim(input);
    if text == [] then Err(Empty)
    else if text == "*" then Ok(DestinationSpec(AnyHost, AnyPort, text))
    else
      var slash := IndexOf(text, '/');
      if slash < |text| then
        var addr, len := ip.read(text[..slash]), ParseUnsigned(text[slash + 1..], 65535);
        if addr.None? || len.None? then Err(Malformed)
        else if len.value > AddressBits(addr.value) then Err(BadPrefix)
        else Ok(DestinationSpec(Cidr(addr.value, len.value), AnyPort, text))
      else
        var parts := SplitHostPort(text);
        var port := if parts.None? then Ok(AnyPort) else ParsePortPattern(parts.value.1);
        if port.Err? then Err(port.error)
        else
          var host := ParseHostPattern(ip, if parts.None? then text else parts.value.0);
          if host.Err? then Err(host.error) else Ok(DestinationSpec(host.value, port.value, text))
  }

  // ---------------------------------------------------------------------------
  // Matching
  // ---------------------------------------------------------------------------

  predicate PortMatches(p: PortPattern, port: nat) {
    match p
    case AnyPort => true
    case ExactPort(q) => q == port
    case Range(lo, hi) => lo <= port <= hi
  }

  predicate EndsWith(s: string, suffix: string) {
    |suffix| <= |s| && s[|s| - |suffix|..] == suffix
  }

  predicate HostMatches(p: HostPattern, host: Host) {
    match p
    case AnyHost => true
    case Exact(name) => host.Name? && host.name == name
    case Suffix(suffix) => host.Name? && EndsWith(host.name, suffix)
    case ExactIp(addr) => host.Ip? && host.addr == addr
    case Cidr(addr, len) => host.Ip? && len <= AddressBits(addr) && CidrContains(addr, len, host.addr)
  }

  predicate Matches(spec: DestinationSpec, d: Destination) {
    PortMatches(spec.port, d.port) && HostMatches(spec.host, d.host)
  }

  // ---------------------------------------------------------------------------
  // A printed destination reads back as the pattern for exactly itself
  // ---------------------------------------------------------------------------

  predicate IsStoredNameChar(c: char) {
    IsNameChar(c) && !('A' <= c <= 'Z')
  }

  /** What every parsed destination satisfies. */
  ghost predicate Canonical(ip: IpText, d: Destination) {
    && 1 <= d.port <= 65535
    && (d.host.Name? ==> d.host.name != [] && All(d.host.name, IsStoredNameChar) && ip.read(d.host.name).None?)
  }

  lemma SplitHostShape(text: string)
    requires SplitHostPort(text).Some?
    ensures var host := SplitHostPort(text).value.0;
            !(|host| >= 2 && host[0] == '[' && host[|host| - 1] == ']')
  {
    if text[0] == '[' {
      var rest := text[1..];
      var close := IndexOf(rest, ']');
      var host := rest[..close];
      assert forall k :: 0 <= k < |host| ==> host[k] == rest[k] != ']';
    }
  }

  lemma LoweredNameIsNoAddress(ip: IpText, s: string)
    requires Faithful(ip) && All(s, IsNameChar) && ip.read(s).None?
    ensures ip.read(Lower(s)).None?
  {
    var t := Lower(s);
    assert Lacks(t, ':');
    if ip.read(t).Some? {
      assert All(t, IsV4Char);
      assert forall i :: 0 <= i < |s| ==> t[i] == s[i];
      assert t == s;
    }
  }

  lemma ParsedIsCanonical(ip: IpText, input: string)
    requires Faithful(ip) && Parse(ip, input).Ok?
    ensures Canonical(ip, Parse(ip, input).value)
  {
    var d, text := Parse(ip, input).value, Trim(input);
    var host := SplitHostPort(text).value.0;
    SplitHostShape(text);
    if d.host.Name? {
      LoweredNameIsNoAddress(ip, host);
      assert forall i :: 0 <= i < |host| ==> IsStoredNameChar(Lower(host)[i]);
    }
  }

  /** The host text of a printed destination, as the pattern parser sees it. */
  function HostText(ip: IpText, d: Destination): string {
    if d.host.Name? then d.host.name else ip.show(d.host.addr)
  }

  /** Characters that never start or break a printed destination. */
  predicate IsPlain(c: char) {
    IsNameChar(c) || c == ':'
  }

  lemma HostTextIsPlain(ip: IpText, d: Destination)
    requires Faithful(ip) && Canonical(ip, d)
    ensures HostText(ip, d) != [] && All(HostText(ip, d), IsPlain)
    ensures d.host.Name? || d.host.addr.V4? ==> Lacks(HostText(ip, d), ':')
  {
    var s := HostText(ip, d);
    if d.host.Ip? {
      assert All(s, if d.host.addr.V4? then IsV4Char else IsV6Char);
    }
  }

  lemma PrintedSplits(ip: IpText, d: Destination)
    requires Faithful(ip) && Canonical(ip, d)
    ensures SplitHostPort(Print(ip, d)) == Some((HostText(ip, d), PrintNat(d.port)))
  {
    hide PrintNat, Faithful, Canonical, SplitHostPort;
    HostTextIsPlain(ip, d);
    var host, port := HostText(ip, d), PrintNat(d.port);
    assert Lacks(port, ':');
    if d.host.Ip? && d.host.addr.V6? {
      BracketedSplits(host, port);
    } else {
      assert IsPlain(host[0]);
      UnbracketedSplits(host, port);
    }
  }

  lemma BracketedSplits(host: string, port: string)
    requires All(host, IsPlain)
    ensures SplitHostPort("[" + host + "]" + ":" + port) == Some((host, port))
  {
    var text := "[" + host + "]" + ":" + port;
    var rest := text[1..];
    assert rest == host + "]" + ":" + port;
    IndexOfIs(rest, ']', |host|);
    assert rest[..|host|] == host && rest[|host| + 1..] == ":" + port;
    assert (":" + port)[1..] == port;
  }

  lemma UnbracketedSplits(host: string, port: string)
    requires host != [] && host[0] != '[' && Lacks(host, ':') && Lacks(port, ':')
    ensures SplitHostPort(host + ":" + port) == Some((host, port))
  {
    var text := host + ":" + port;
    assert text[0] == host[0] != '[';
    LastIndexOfIs(text, ':', |host|);
    assert text[..|host|] == host && text[|host| + 1..] == port;
  }

  lemma PrintedIsPlainText(ip: IpText, d: Destination)
    requires Faithful(ip) && Canonical(ip, d)
    ensures var text := Print(ip, d);
            text != [] && Trim(text) == text && Lacks(text, '/') && text != "*"
  {
    hide PrintNat, Faithful, Canonical;
    HostTextIsPlain(ip, d);
    var host, port, text := HostText(ip, d), PrintNat(d.port), Print(ip, d);
    var front := if d.host.Ip? && d.host.addr.V6? then "[" + host + "]" else host;
    assert text == front + ":" + port;
    assert text[|text| - 1] == port[|port| - 1];
    assert text[0] == front[0];
    TrimOfUntrimmed(text);
    assert text[|front|] == ':';
  }

  lemma HostTextReparses(ip: IpText, d: Destination)
    requires Faithful(ip) && Canonical(ip, d)
    ensures ParseHostPattern(ip, HostText(ip, d)) ==
            Ok(if d.host.Name? then Exact(d.host.name) else ExactIp(d.host.addr))
  {
    HostTextIsPlain(ip, d);
    var s := HostText(ip, d);
    assert IsPlain(s[0]);
    assert s[0] != '*' && s[0] != '[';
    if d.host.Name? {
      assert forall i :: 0 <= i < |s| ==> IsStoredNameChar(s[i]);
      assert Lower(s) == s;
    }
  }

  lemma PortReparses(port: nat)
    requires 1 <= port <= 65535
    ensures ParsePortPattern(PrintNat(port)) == Ok(ExactPort(port))
  {
    hide PrintNat;
    var s := PrintNat(port);
    assert IsDigit(s[0]);
    ParsePrinted(port, 65535);
    IndexOfIs(s, '-', |s|);
  }

  /** Printing a parsed destination and reading it as a pattern never fails, and the
      pattern matches that destination and no other. */
  lemma PrintedDestinationIsItsOwnPattern(ip: IpText, d: Destination)
    requires Faithful(ip) && Canonical(ip, d)
    ensures ParseSpec(ip, Print(ip, d)).Ok?
    ensures forall other :: Matches(ParseSpec(ip, Print(ip, d)).value, other) <==> other == d
  {
    hide Faithful, Canonical, Print, PrintNat, SplitHostPort, ParsePortPattern, ParseHostPattern, Trim;
    var text := Print(ip, d);
    PrintedIsPlainText(ip, d);
    PrintedSplits(ip, d);
    PortReparses(d.port) by { CanonicalPort(ip, d); }
    HostTextReparses(ip, d);
    IndexOfIs(text, '/', |text|);
  }

  lemma CanonicalPort(ip: IpText, d: Destination)
    requires Canonical(ip, d)
    ensures 1 <= d.port <= 65535
  {
  }
}
