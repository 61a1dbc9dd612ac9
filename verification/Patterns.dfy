/**
 What the text of a destination and of a destination pattern means, said of the text and of
 the destinations, not of the parser.
 */
module Patterns {
  import opened Common
  import opened Chars
  import opened Addresses
  import opened Destination

  // ---------------------------------------------------------------------------
  // Characters, by code
  // ---------------------------------------------------------------------------

  /** A letter, a digit, `-`, `.` or `_`. */
  predicate IsNameCode(c: char) {
    var n := c as int;
    || 0x41 <= n <= 0x5A || 0x61 <= n <= 0x7A || 0x30 <= n <= 0x39
    || n == 0x2D || n == 0x2E || n == 0x5F
  }

  ghost predicate IsLegalName(s: string) {
    s != [] && forall i :: 0 <= i < |s| ==> IsNameCode(s[i])
  }

  /** Lower case touches the 26 capital letters and nothing else. */
  lemma LowerByCode(s: string, i: nat)
    requires i < |s|
    ensures |Lower(s)| == |s|
    ensures Lower(s)[i] as int == if 0x41 <= s[i] as int <= 0x5A then s[i] as int + 0x20 else s[i] as int
  {
  }

  /** A host that is no address is a name, stored in lower case, if its characters allow, and
      otherwise an error. */
  lemma HostIsName(ip: IpText, s: string)
    requires s != [] && s[0] != '[' && ip.read(s).None?
    ensures ParseHostLiteral(ip, s) == if IsLegalName(s) then Ok(Name(Lower(s))) else Err(Malformed)
  {
  }

  // ---------------------------------------------------------------------------
  // Ports
  // ---------------------------------------------------------------------------

  /** A port as a pattern spells it. */
  datatype PortForm = One(port: nat) | Span(lo: nat, hi: nat) | EveryPort

  function PortText(t: PortForm): string {
    match t
    case One(port) => PrintNat(port)
    case Span(lo, hi) => PrintNat(lo) + "-" + PrintNat(hi)
    case EveryPort => "*"
  }

  /** Ports run from 1 to 65535, and a range is not empty. */
  predicate IsPortForm(t: PortForm) {
    match t
    case One(port) => 1 <= port <= 65535
    case Span(lo, hi) => 1 <= lo <= hi <= 65535
    case EveryPort => true
  }

  predicate PortAllows(t: PortForm, port: nat) {
    match t
    case One(p) => port == p
    case Span(lo, hi) => lo <= port <= hi
    case EveryPort => true
  }

  lemma PrintedNumberReads(n: nat)
    ensures ParseUnsigned(PrintNat(n), 65535) == if n <= 65535 then Some(n) else None
  {
    DigitsRoundTrip(n);
    assert IsDigit(PrintNat(n)[0]);
  }

  lemma PortTextReads(t: PortForm)
    ensures ParsePortPattern(PortText(t)).Ok? <==> IsPortForm(t)
    ensures ParsePortPattern(PortText(t)).Err? ==> ParsePortPattern(PortText(t)).error == BadPort
    ensures IsPortForm(t) ==>
              forall port :: PortMatches(ParsePortPattern(PortText(t)).value, port) <==> PortAllows(t, port)
  {
    hide PrintNat, ParseUnsigned;
    match t
    case One(port) =>
      var s := PrintNat(port);
      assert IsDigit(s[0]);
      IndexOfIs(s, '-', |s|);
      PrintedNumberReads(port);
    case Span(lo, hi) =>
      var a, b := PrintNat(lo), PrintNat(hi);
      var s := a + "-" + b;
      assert IsDigit(a[0]) && s[0] == a[0];
      assert forall k :: 0 <= k < |a| ==> s[k] == a[k];
      IndexOfIs(s, '-', |a|);
      assert s[..|a|] == a && s[|a| + 1..] == b;
      PrintedNumberReads(lo);
      PrintedNumberReads(hi);
    case EveryPort =>
  }

  // ---------------------------------------------------------------------------
  // Hosts
  // ---------------------------------------------------------------------------

  /** A host as a pattern spells it: `*.domain`, a name, or `*`. */
  datatype HostForm = Under(domain: string) | Just(name: string) | EveryHost

  function HostSpelled(h: HostForm): string {
    match h
    case Under(domain) => "*." + domain
    case Just(name) => name
    case EveryHost => "*"
  }

  ghost predicate IsHostForm(ip: IpText, h: HostForm) {
    match h
    case Under(domain) => IsLegalName(domain)
    case Just(name) => IsLegalName(name) && ip.read(name).None?
    case EveryHost => true
  }

  /** Under a domain is any name with a dot before the domain: not the domain itself, and
      not a longer word that ends in it. */
  ghost predicate HostAllows(h: HostForm, host: Host) {
    match h
    case Under(domain) => host.Name? && exists x :: host.name == x + "." + Lower(domain)
    case Just(name) => host == Name(Lower(name))
    case EveryHost => true
  }

  lemma EndsWithIs(s: string, suffix: string)
    ensures EndsWith(s, suffix) <==> exists x :: s == x + suffix
  {
    if EndsWith(s, suffix) {
      assert s == s[..|s| - |suffix|] + suffix;
    }
    forall x | s == x + suffix ensures EndsWith(s, suffix) {
      assert s[|x|..] == suffix;
    }
  }

  lemma HostTextReads(ip: IpText, h: HostForm, host: Host)
    requires IsHostForm(ip, h)
    ensures ParseHostPattern(ip, HostSpelled(h)).Ok?
    ensures HostMatches(ParseHostPattern(ip, HostSpelled(h)).value, host) <==> HostAllows(h, host)
  {
    match h
    case Under(domain) =>
      var s := "*." + domain;
      assert s[2..] == domain && "*." <= s;
      assert forall i :: 0 <= i < |domain| ==> IsNameCode(domain[i]);
      if host.Name? {
        EndsWithIs(host.name, "." + Lower(domain));
        DotBefore(host.name, Lower(domain));
      }
    case Just(name) =>
      assert IsNameCode(name[0]);
      HostIsName(ip, name);
    case EveryHost =>
  }

  /** A wildcard takes any suffix that is not empty and has no star of its own, and matches
      the names that have a dot and then that suffix at their end. */
  lemma WildcardRule(ip: IpText, suffix: string, host: Host)
    ensures var p := ParseHostPattern(ip, "*." + suffix);
            if suffix == [] || '*' in suffix then p == Err(Malformed)
            else
              && p.Ok?
              && (HostMatches(p.value, host) <==> host.Name? && exists x :: host.name == x + ("." + Lower(suffix)))
  {
    var s := "*." + suffix;
    assert s[2..] == suffix && "*." <= s && |s| >= 2;
    if host.Name? {
      EndsWithIs(host.name, "." + Lower(suffix));
    }
  }

  lemma DotBefore(name: string, domain: string)
    ensures (exists x :: name == x + ("." + domain)) <==> (exists x :: name == x + "." + domain)
  {
    forall x ensures x + ("." + domain) == x + "." + domain {
    }
    if x :| name == x + ("." + domain) {
      assert name == x + "." + domain;
    }
    if x :| name == x + "." + domain {
      assert name == x + ("." + domain);
    }
  }

  // ---------------------------------------------------------------------------
  // Patterns
  // ---------------------------------------------------------------------------

  /** Text without brackets, slashes or blanks at its ends. */
  predicate IsBare(s: string) {
    s != [] && s[0] != '[' && !IsWhitespace(s[0]) && !IsWhitespace(s[|s| - 1]) && Lacks(s, '/') && Lacks(s, ':')
  }

  lemma SpecWithPort(ip: IpText, h: string, t: string)
    requires IsBare(h) && IsBare(t) && ParsePortPattern(t).Ok? && ParseHostPattern(ip, h).Ok?
    ensures ParseSpec(ip, h + ":" + t) ==
            Ok(DestinationSpec(ParseHostPattern(ip, h).value, ParsePortPattern(t).value, h + ":" + t))
  {
    hide ParsePortPattern, ParseHostPattern, SplitHostPort, IsWhitespace;
    var text := h + ":" + t;
    assert text[0] == h[0] && text[|text| - 1] == t[|t| - 1] && text[|h|] == ':';
    TrimOfUntrimmed(text);
    assert forall k :: 0 <= k < |text| ==>
        text[k] == if k < |h| then h[k] else if k == |h| then ':' else t[k - |h| - 1];
    IndexOfIs(text, '/', |text|);
    UnbracketedSplits(h, t);
  }

  lemma SpecWithoutPort(ip: IpText, h: string)
    requires IsBare(h) && h != "*" && ParseHostPattern(ip, h).Ok?
    ensures ParseSpec(ip, h) == Ok(DestinationSpec(ParseHostPattern(ip, h).value, AnyPort, h))
  {
    hide ParseHostPattern, IsWhitespace;
    TrimOfUntrimmed(h);
    IndexOfIs(h, '/', |h|);
    assert LastIndexOf(h, ':') == |h|;
  }

  lemma HostIsBare(ip: IpText, h: HostForm)
    requires IsHostForm(ip, h)
    ensures IsBare(HostSpelled(h))
    ensures HostSpelled(h) == "*" ==> h.EveryHost?
  {
    var s := HostSpelled(h);
    if h.Under? {
      assert forall i :: 2 <= i < |s| ==> s[i] == h.domain[i - 2] && IsNameCode(s[i]);
      assert |s| > 2;
    } else if h.Just? {
      assert forall i :: 0 <= i < |s| ==> IsNameCode(s[i]);
    }
  }

  lemma PortIsBare(t: PortForm)
    ensures IsBare(PortText(t))
  {
    hide PrintNat;
    var s := PortText(t);
    if t.One? {
      assert forall i :: 0 <= i < |s| ==> IsDigit(s[i]);
    } else if t.Span? {
      var a, b := PrintNat(t.lo), PrintNat(t.hi);
      assert forall k :: 0 <= k < |s| ==> s[k] == if k < |a| then a[k] else if k == |a| then '-' else b[k - |a| - 1];
      assert forall k :: 0 <= k < |s| ==> IsDigit(s[k]) || s[k] == '-';
    }
  }

  /** A pattern of a host and a port, or of a host alone, matches exactly the destinations
      whose host and port it allows. */
  lemma PatternMeans(ip: IpText, h: HostForm, t: Option<PortForm>, d: Destination)
    requires IsHostForm(ip, h) && (t.Some? ==> IsPortForm(t.value))
    ensures var text := if t.Some? then HostSpelled(h) + ":" + PortText(t.value) else HostSpelled(h);
            && ParseSpec(ip, text).Ok?
            && (Matches(ParseSpec(ip, text).value, d) <==>
                HostAllows(h, d.host) && (t.Some? ==> PortAllows(t.value, d.port)))
  {
    hide IsBare, ParsePortPattern, ParseHostPattern, HostMatches, PortMatches, PortText, HostAllows, PortAllows;
    HostIsBare(ip, h);
    HostTextReads(ip, h, d.host);
    if t.Some? {
      PortIsBare(t.value);
      PortTextReads(t.value);
      SpecWithPort(ip, HostSpelled(h), PortText(t.value));
    } else if HostSpelled(h) == "*" {
      StarMeans(ip, h, d);
    } else {
      SpecWithoutPort(ip, HostSpelled(h));
      EveryPortMatches(d.port);
    }
  }

  lemma EveryPortMatches(port: nat)
    ensures PortMatches(AnyPort, port)
  {
  }

  lemma StarMeans(ip: IpText, h: HostForm, d: Destination)
    requires h.EveryHost?
    ensures ParseSpec(ip, "*").Ok? && Matches(ParseSpec(ip, "*").value, d) && HostAllows(h, d.host)
  {
    TrimOfUntrimmed("*");
  }

  /** A port out of range, or an empty range of ports, is refused. */
  lemma BadPortsAreRefused(ip: IpText, h: HostForm, t: PortForm)
    requires IsHostForm(ip, h) && !IsPortForm(t)
    ensures ParseSpec(ip, HostSpelled(h) + ":" + PortText(t)) == Err(BadPort)
  {
    hide ParsePortPattern, ParseHostPattern, SplitHostPort, PortText, IsWhitespace;
    HostIsBare(ip, h);
    PortIsBare(t);
    PortTextReads(t);
    var a, b := HostSpelled(h), PortText(t);
    var text := a + ":" + b;
    assert text[0] == a[0] && text[|text| - 1] == b[|b| - 1] && text[|a|] == ':';
    TrimOfUntrimmed(text);
    assert forall k :: 0 <= k < |text| ==>
        text[k] == if k < |a| then a[k] else if k == |a| then ':' else b[k - |a| - 1];
    IndexOfIs(text, '/', |text|);
    UnbracketedSplits(a, b);
  }

  // ---------------------------------------------------------------------------
  // Address blocks
  // ---------------------------------------------------------------------------

  /** An address and a prefix length match exactly the addresses of that family with the
      same quotient by the size of the block, on every port; too long a length is refused. */
  lemma BlockMeans(ip: IpText, a: IpAddr, len: nat, d: Destination)
    requires Faithful(ip) && len <= 65535
    ensures var text, bits := ip.show(a) + "/" + PrintNat(len), if a.V4? then 32 else 128;
            if len > bits then ParseSpec(ip, text) == Err(BadPrefix)
            else
              && ParseSpec(ip, text).Ok?
              && (Matches(ParseSpec(ip, text).value, d) <==>
                  && d.host.Ip? && d.host.addr.V4? == a.V4?
                  && var size := Pow2(bits - len);
                     Varint.BigEndian(Octets(d.host.addr)) / size == Varint.BigEndian(Octets(a)) / size)
  {
    hide PrintNat, Varint.BigEndian, Pow2, CidrContains, ParseSpec, Faithful;
    BlockReads(ip, a, len);
    if len <= AddressBits(a) && d.host.Ip? {
      CidrAgreesWithArithmetic(a, len, d.host.addr);
      CidrNeedsTheFamily(a, len, d.host.addr);
    }
  }

  lemma BlockReads(ip: IpText, a: IpAddr, len: nat)
    requires Faithful(ip) && len <= 65535
    ensures var text := ip.show(a) + "/" + PrintNat(len);
            ParseSpec(ip, text) ==
            if len > AddressBits(a) then Err(BadPrefix) else Ok(DestinationSpec(Cidr(a, len), AnyPort, text))
  {
    hide PrintNat, ParseUnsigned, ParseSpec, IsWhitespace;
    var host, number := ip.show(a), PrintNat(len);
    ShownAddress(ip, a);
    assert IsDigit(number[|number| - 1]);
    DigitIsNoBlank(number[|number| - 1]);
    PrintedNumberReads(len);
    SlashReads(ip, host, number, a, len);
  }

  lemma ShownAddress(ip: IpText, a: IpAddr)
    requires Faithful(ip)
    ensures var s := ip.show(a);
            s != [] && ip.read(s) == Some(a) && !IsWhitespace(s[0]) && s[0] != '*' && Lacks(s, '/') && Lacks(s, ']')
  {
    hide IsWhitespace;
    var s := ip.show(a);
    assert All(s, if a.V4? then IsV4Char else IsV6Char);
    AddressChars(s, a.V4?);
  }

  lemma SlashReads(ip: IpText, host: string, number: string, a: IpAddr, len: nat)
    requires host != [] && ip.read(host) == Some(a) && !IsWhitespace(host[0]) && Lacks(host, '/')
    requires number != [] && !IsWhitespace(number[|number| - 1]) && ParseUnsigned(number, 65535) == Some(len)
    ensures ParseSpec(ip, host + "/" + number) ==
            if len > AddressBits(a) then Err(BadPrefix)
            else Ok(DestinationSpec(Cidr(a, len), AnyPort, host + "/" + number))
  {
    hide ParseUnsigned, SplitHostPort, IsWhitespace;
    var text := host + "/" + number;
    assert text[0] == host[0] && text[|text| - 1] == number[|number| - 1] && text[|host|] == '/';
    TrimOfUntrimmed(text);
    assert forall k :: 0 <= k < |host| ==> text[k] == host[k];
    IndexOfIs(text, '/', |host|);
    assert text[..|host|] == host && text[|host| + 1..] == number;
  }

  lemma DigitIsNoBlank(c: char)
    requires IsDigit(c)
    ensures !IsWhitespace(c)
  {
  }

  lemma CidrNeedsTheFamily(a: IpAddr, len: nat, b: IpAddr)
    requires len <= AddressBits(a)
    ensures CidrContains(a, len, b) ==> a.V4? == b.V4?
  {
  }

  lemma AddressChars(s: string, v4: bool)
    requires s != [] && All(s, if v4 then IsV4Char else IsV6Char)
    ensures !IsWhitespace(s[0]) && s[0] != '*' && Lacks(s, '/') && Lacks(s, ']')
  {
    assert if v4 then IsV4Char(s[0]) else IsV6Char(s[0]);
  }

  // ---------------------------------------------------------------------------
  // Single addresses
  // ---------------------------------------------------------------------------

  /** Brackets around a host are dropped; nothing between them makes an empty name. */
  lemma BracketsAreDropped(ip: IpText, s: string)
    ensures ParseHostLiteral(ip, "[" + s + "]") ==
            if ip.read(s).Some? then Ok(Ip(ip.read(s).value))
            else if forall i :: 0 <= i < |s| ==> IsNameCode(s[i]) then Ok(Name(Lower(s)))
            else Err(Malformed)
    ensures ParseHostLiteral(ip, "[") == if ip.read("[").Some? then Ok(Ip(ip.read("[").value)) else Err(Malformed)
  {
    var host := "[" + s + "]";
    assert host[1..|host| - 1] == s;
    assert !IsNameChar("["[0]);
  }

  /** An address, IPv6 in brackets, with a port or on every port. */
  lemma AddressPatternMeans(ip: IpText, a: IpAddr, t: PortForm, d: Destination)
    requires Faithful(ip) && IsPortForm(t) && (a.V6? ==> ip.read("[" + ip.show(a) + "]").None?)
    ensures var host := if a.V4? then ip.show(a) else "[" + ip.show(a) + "]";
            && ParseSpec(ip, host).Ok?
            && (Matches(ParseSpec(ip, host).value, d) <==> d.host == Ip(a))
            && ParseSpec(ip, host + ":" + PortText(t)).Ok?
            && (Matches(ParseSpec(ip, host + ":" + PortText(t)).value, d) <==> d.host == Ip(a) && PortAllows(t, d.port))
  {
    hide ParsePortPattern, PortText, IsWhitespace, PortMatches, Faithful, ParseSpec, ParseHostPattern, IsBare;
    ShownAddress(ip, a);
    PortTextReads(t);
    PortIsBare(t);
    AddressReads(ip, ip.show(a), a);
    EveryPortMatches(d.port);
    if a.V4? {
      ShownV4IsBare(ip, a);
      SpecWithPort(ip, ip.show(a), PortText(t));
      SpecWithoutPort(ip, ip.show(a));
    } else {
      BracketedSpec(ip, ip.show(a), a, PortText(t));
    }
  }

  lemma AddressReads(ip: IpText, s: string, a: IpAddr)
    requires ip.read(s) == Some(a) && s != [] && s[0] != '*'
    ensures ParseHostPattern(ip, s) == Ok(ExactIp(a))
  {
  }

  lemma ShownV4IsBare(ip: IpText, a: IpAddr)
    requires Faithful(ip) && a.V4?
    ensures IsBare(ip.show(a)) && ip.show(a) != "*"
  {
    var s := ip.show(a);
    assert All(s, IsV4Char);
    assert IsV4Char(s[0]) && IsV4Char(s[|s| - 1]);
  }

  lemma BracketedSpec(ip: IpText, s: string, a: IpAddr, t: string)
    requires s != [] && ip.read(s) == Some(a) && s[0] != '*' && Lacks(s, '/') && Lacks(s, ']')
    requires ip.read("[" + s + "]").None? && IsBare(t) && ParsePortPattern(t).Ok?
    ensures ParseSpec(ip, "[" + s + "]") == Ok(DestinationSpec(ExactIp(a), AnyPort, "[" + s + "]"))
    ensures ParseSpec(ip, "[" + s + "]" + ":" + t) ==
            Ok(DestinationSpec(ExactIp(a), ParsePortPattern(t).value, "[" + s + "]" + ":" + t))
  {
    hide ParseSpec;
    BracketedAlone(ip, s, a);
    BracketedWithPort(ip, s, a, t);
  }

  lemma BracketedAlone(ip: IpText, s: string, a: IpAddr)
    requires s != [] && ip.read(s) == Some(a) && Lacks(s, '/') && Lacks(s, ']') && ip.read("[" + s + "]").None?
    ensures ParseSpec(ip, "[" + s + "]") == Ok(DestinationSpec(ExactIp(a), AnyPort, "[" + s + "]"))
  {
    hide ParsePortPattern, IsWhitespace, ParseHostPattern;
    BracketIsNoBlank();
    BracketedReads(ip, s, a);
    var host := "[" + s + "]";
    assert host[0] == '[' && host[|host| - 1] == ']';
    TrimOfUntrimmed(host);
    IndexOfIs(host, '/', |host|);
    assert host[1..] == s + "]";
    IndexOfIs(s + "]", ']', |s|);
    assert (s + "]")[|s| + 1..] == [];
  }

  lemma BracketedWithPort(ip: IpText, s: string, a: IpAddr, t: string)
    requires s != [] && ip.read(s) == Some(a) && s[0] != '*' && Lacks(s, '/') && Lacks(s, ']')
    requires IsBare(t) && ParsePortPattern(t).Ok?
    ensures ParseSpec(ip, "[" + s + "]" + ":" + t) ==
            Ok(DestinationSpec(ExactIp(a), ParsePortPattern(t).value, "[" + s + "]" + ":" + t))
  {
    hide ParsePortPattern, IsWhitespace, ParseHostPattern, SplitHostPort;
    BracketIsNoBlank();
    AddressReads(ip, s, a);
    var host := "[" + s + "]";
    var text := host + ":" + t;
    assert text[0] == '[' && text[|text| - 1] == t[|t| - 1] && text[|host|] == ':';
    TrimOfUntrimmed(text);
    assert forall k :: 0 <= k < |text| ==>
        text[k] == if k < |host| then host[k] else if k == |host| then ':' else t[k - |host| - 1];
    assert forall k :: 0 < k < |host| - 1 ==> host[k] == s[k - 1];
    IndexOfIs(text, '/', |text|);
    AnyBracketedSplits(s, t);
  }

  lemma AnyBracketedSplits(s: string, t: string)
    requires Lacks(s, ']')
    ensures SplitHostPort("[" + s + "]" + ":" + t) == Some((s, t))
  {
    var text := "[" + s + "]" + ":" + t;
    var rest := text[1..];
    assert rest == s + "]" + ":" + t;
    IndexOfIs(rest, ']', |s|);
    assert rest[..|s|] == s && rest[|s| + 1..] == ":" + t;
    assert (":" + t)[1..] == t;
  }

  lemma BracketIsNoBlank()
    ensures !IsWhitespace('[') && !IsWhitespace(']')
  {
  }

  lemma BracketedReads(ip: IpText, s: string, a: IpAddr)
    requires ip.read(s) == Some(a) && ip.read("[" + s + "]").None?
    ensures ParseHostPattern(ip, "[" + s + "]") == Ok(ExactIp(a))
  {
    var host := "[" + s + "]";
    assert host[0] == '[' && host[1..|host| - 1] == s;
  }

  // ---------------------------------------------------------------------------
  // Destinations
  // ---------------------------------------------------------------------------

  /** A printed destination reads back as itself. */
  lemma PrintedDestinationReadsBack(ip: IpText, d: Destination)
    requires Faithful(ip) && Canonical(ip, d)
    ensures Parse(ip, Print(ip, d)) == Ok(d)
  {
    hide Faithful, PrintNat, SplitHostPort, Print, Trim, ParseUnsigned, ParseHostLiteral;
    PrintedIsPlainText(ip, d);
    PrintedSplits(ip, d);
    PrintedNumberReads(d.port);
    HostTextIsLiteral(ip, d);
  }

  lemma HostTextIsLiteral(ip: IpText, d: Destination)
    requires Faithful(ip) && Canonical(ip, d)
    ensures ParseHostLiteral(ip, HostText(ip, d)) == Ok(d.host)
  {
    HostTextIsPlain(ip, d);
    var s := HostText(ip, d);
    assert IsPlain(s[0]);
    if d.host.Name? {
      assert forall i :: 0 <= i < |s| ==> IsStoredNameChar(s[i]);
      assert Lower(s) == s;
    }
  }

  /** A legal name and a port read as that name in lower case and that port; blanks around
      them do not matter, and a port out of range is refused. */
  lemma NameAndPortRead(ip: IpText, s: string, port: nat)
    requires IsLegalName(s) && ip.read(s).None?
    ensures Parse(ip, " " + (s + ":" + PrintNat(port)) + " ") ==
            if 1 <= port <= 65535 then Ok(Destination(Name(Lower(s)), port)) else Err(BadPort)
  {
    hide PrintNat, SplitHostPort, ParseUnsigned, ParseHostLiteral;
    var digits := PrintNat(port);
    var text := s + ":" + digits;
    assert forall i :: 0 <= i < |s| ==> IsNameCode(s[i]);
    assert IsNameCode(s[0]) && IsDigit(digits[|digits| - 1]);
    assert text[0] == s[0] && text[|text| - 1] == digits[|digits| - 1];
    TrimIs(" ", text, " ");
    UnbracketedSplits(s, digits);
    PrintedNumberReads(port);
    HostIsName(ip, s);
  }

  /** Without a port there is no destination: a bare name, a bare IPv6 address. */
  lemma NoPortNoDestination(ip: IpText, s: string)
    requires s != [] && s[0] != '[' && !IsWhitespace(s[0]) && !IsWhitespace(s[|s| - 1])
    requires Lacks(s, ':') || exists i, j :: 0 <= i < j < |s| && s[i] == ':' && s[j] == ':'
    ensures Parse(ip, s) == Err(MissingPort)
  {
    TrimOfUntrimmed(s);
    if i, j :| 0 <= i < j < |s| && s[i] == ':' && s[j] == ':' {
      var last := LastIndexOf(s, ':');
      assert i < last;
      assert s[..last][i] == ':';
    } else {
      assert LastIndexOf(s, ':') == |s|;
    }
  }
}
