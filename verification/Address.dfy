/** The texts an address is written in: what a user or a discovery gives, the
    URL made of it, and the host and port the pin check reads back. */
module Address {
  import opened Sequences
  import opened Wrappers

  // ----- characters and pieces -----

  predicate IsDigit(c: char) {
    '0' <= c <= '9'
  }

  predicate AllDigits(s: string) {
    forall i | 0 <= i < |s| :: IsDigit(s[i])
  }

  function Count(s: string, c: char): nat {
    if |s| == 0 then 0 else (if s[0] == c then 1 else 0) + Count(s[1..], c)
  }

  /** Where c occurs last in s, |s| if nowhere. */
  function LastIndex(s: string, c: char): (r: nat)
    ensures r <= |s| && (r < |s| ==> s[r] == c)
    ensures r < |s| ==> forall i | r < i < |s| :: s[i] != c
    ensures r == |s| ==> c !in s
  {
    var n := |s| - 1;
    if |s| == 0 then 0
    else if s[n] == c then n
    else
      assert s == s[..n] + [s[n]];
      var r := LastIndex(s[..n], c);
      if r == n then |s| else r
  }

  // ----- numbers -----

  function DigitChar(d: int): char
    requires 0 <= d < 10
  {
    ('0' as int + d) as char
  }

  function Decimal(n: nat): (s: string)
    ensures |s| > 0 && AllDigits(s)
  {
    if n < 10 then [DigitChar(n)] else Decimal(n / 10) + [DigitChar(n % 10)]
  }

  function Value(s: string): nat
    requires AllDigits(s)
  {
    if |s| == 0 then 0
    else 10 * Value(s[..|s| - 1]) + (s[|s| - 1] as int - '0' as int)
  }

  lemma {:induction false} ValueOfDecimal(n: nat)
    ensures Value(Decimal(n)) == n
  {
    if n >= 10 {
      ValueOfDecimal(n / 10);
      assert Decimal(n)[..|Decimal(n)| - 1] == Decimal(n / 10);
    }
  }

  /** A decimal number without superfluous zeros is its own print. */
  lemma {:induction false} DecimalOfValue(s: string)
    requires |s| > 0 && AllDigits(s) && (|s| > 1 ==> s[0] != '0')
    ensures Decimal(Value(s)) == s
    ensures |s| > 1 ==> Value(s) >= 10
  {
    var n := |s| - 1;
    assert s == s[..n] + [s[n]];
    var d := s[n] as int - '0' as int;
    assert DigitChar(d) == s[n];
    if n == 0 {
      assert s[..n] == [];
      assert Value(s[..n]) == 0;
    } else {
      DecimalOfValue(s[..n]);
      assert Value(s[..n]) >= 1 by {
        if n == 1 {
          assert s[..n] == [s[0]];
          assert s[..n][..0] == [];
        }
      }
      assert Value(s) / 10 == Value(s[..n]) && Value(s) % 10 == d;
    }
  }

  const MAX_PORT := 65535

  /** Reading a port: decimal digits after an optional plus sign. */
  function ParsePort(s: string): Option<nat> {
    var digits := if |s| > 0 && s[0] == '+' then s[1..] else s;
    if |digits| > 0 && AllDigits(digits) && Value(digits) <= MAX_PORT then Some(Value(digits)) else None
  }

  lemma ParsePortOfDecimal(port: nat)
    requires port <= MAX_PORT
    ensures ParsePort(Decimal(port)) == Some(port)
  {
    ValueOfDecimal(port);
    assert IsDigit(Decimal(port)[0]);
  }

  // ----- socket addresses -----

  predicate IsOctet(s: string) {
    1 <= |s| <= 3 && AllDigits(s) && (|s| > 1 ==> s[0] != '0') && Value(s) <= 255
  }

  function Split(s: string, c: char): (parts: seq<string>)
    ensures |parts| >= 1
    decreases |s|
  {
    var i := FirstIndex(s, c);
    if i == |s| then [s] else [s[..i]] + Split(s[i + 1..], c)
  }

  function Join(parts: seq<string>, c: char): string {
    if |parts| == 0 then "" else if |parts| == 1 then parts[0] else parts[0] + [c] + Join(parts[1..], c)
  }

  predicate IsIpv4(s: string) {
    var parts := Split(s, '.');
    |parts| == 4 && forall i | 0 <= i < 4 :: IsOctet(parts[i])
  }

  /** The print of the address an IPv4 text stands for. */
  function PrintIpv4(s: string): string
    requires IsIpv4(s)
  {
    var parts := Split(s, '.');
    Join(seq(4, i requires 0 <= i < 4 => Decimal(Value(parts[i]))), '.')
  }

  /** How the platform reads IPv6 text, bare or inside the brackets of a socket
      address: the address printed back, or nothing. */
  datatype Platform = Platform(readBare: string -> Option<string>, readBracketed: string -> Option<string>)

  datatype SocketAddr = V4(ip: string, port: nat) | V6(ip: string, port: nat)

  /** The port part of a socket address: a colon and digits. */
  function SocketPort(s: string): Option<nat> {
    if |s| > 1 && s[0] == ':' && AllDigits(s[1..]) && Value(s[1..]) <= MAX_PORT then Some(Value(s[1..])) else None
  }

  function ParseSocketAddr(platform: Platform, s: string): Option<SocketAddr> {
    var colon := FirstIndex(s, ':');
    if IsIpv4(s[..colon]) && SocketPort(s[colon..]).Some? then
      Some(V4(PrintIpv4(s[..colon]), SocketPort(s[colon..]).value))
    else
      var close := FirstIndex(s, ']');
      if |s| > 0 && s[0] == '[' && close < |s| && SocketPort(s[close + 1..]).Some? then
        match platform.readBracketed(s[1..close])
        case Some(ip) => Some(V6(ip, SocketPort(s[close + 1..]).value))
        case None => None
      else None
  }

  lemma SocketPortOfDecimal(port: nat)
    requires port <= MAX_PORT
    ensures SocketPort(":" + Decimal(port)) == Some(port)
  {
    var s := ":" + Decimal(port);
    assert s[1..] == Decimal(port);
    ValueOfDecimal(port);
  }

  // ----- making a URL -----

  const HTTP := "http://"
  const HTTPS := "https://"

  predicate HasScheme(s: string) {
    HTTP <= s || HTTPS <= s
  }

  function TrimEnd(s: string, c: char): (r: string)
    ensures r <= s && (|r| > 0 ==> r[|r| - 1] != c)
    ensures forall i | |r| <= i < |s| :: s[i] == c
  {
    if |s| > 0 && s[|s| - 1] == c then TrimEnd(s[..|s| - 1], c) else s
  }

  function TrimStart(s: string, c: char): (r: string)
    ensures |r| <= |s| && r == s[|s| - |r|..] && (|r| > 0 ==> r[0] != c)
    ensures forall i | 0 <= i < |s| - |r| :: s[i] == c
  {
    if |s| > 0 && s[0] == c then TrimStart(s[1..], c) else s
  }

  function Bracketed(host: string, port: string): string {
    HTTPS + "[" + host + "]:" + port
  }

  /** What follows the last colon is made of digits only (perhaps of none). */
  predicate EndsLikePort(s: string) {
    LastIndex(s, ':') < |s| && AllDigits(s[LastIndex(s, ':') + 1..])
  }

  function SocketUrl(socket: SocketAddr): string {
    match socket
    case V6(ip, port) => Bracketed(ip, Decimal(port))
    case V4(ip, port) => HTTPS + ip + ":" + Decimal(port)
  }

  /** A text that is an IPv6 address by itself, printed as ip. */
  function BareUrl(target: string, ip: string): string {
    var cut := LastIndex(target, ':');
    if Count(target, ':') > 2 && EndsLikePort(target) then Bracketed(target[..cut], target[cut + 1..])
    else HTTPS + "[" + ip + "]"
  }

  function GenericUrl(target: string): string {
    if EndsLikePort(target) then
      var cut := LastIndex(target, ':');
      var host, port := target[..cut], target[cut + 1..];
      if ':' in host && !("[" <= host) then Bracketed(host, port) else HTTPS + host + ":" + port
    else HTTPS + TrimEnd(target, '/')
  }

  function ResolveUrl(platform: Platform, target: string): string {
    if HasScheme(target) then TrimEnd(target, '/')
    else
      match ParseSocketAddr(platform, target)
      case Some(socket) => SocketUrl(socket)
      case None =>
        match platform.readBare(target)
        case Some(ip) => BareUrl(target, ip)
        case None => GenericUrl(target)
  }

  // ----- reading it back -----

  datatype UrlError = NotHttps | BadBrackets | BadPort

  /** Where "]:" occurs first in s, |s| if nowhere. */
  function CloseColon(s: string): (r: nat)
    ensures r <= |s| && (r < |s| ==> r + 1 < |s| && s[r] == ']' && s[r + 1] == ':')
    ensures forall i | 0 <= i < r && i + 1 < |s| :: !(s[i] == ']' && s[i + 1] == ':')
  {
    if |s| < 2 then |s| else if s[0] == ']' && s[1] == ':' then 0 else 1 + CloseColon(s[1..])
  }

  function WithPort(host: string, port: string): Result<(string, nat), UrlError> {
    match ParsePort(port) case Some(p) => Ok((host, p)) case None => Err(BadPort)
  }

  /** What follows an opening bracket. */
  function ReadInBrackets(inner: string): Result<(string, nat), UrlError> {
    var close := CloseColon(inner);
    if close < |inner| then WithPort("[" + inner[..close] + "]", inner[close + 2..])
    else if |inner| > 0 && inner[|inner| - 1] == ']' then WithPort("[" + inner[..|inner| - 1] + "]", "443")
    else Err(BadBrackets)
  }

  function ReadHostPort(rest: string): Result<(string, nat), UrlError> {
    if "[" <= rest then ReadInBrackets(rest[1..])
    else
      var colon := FirstIndex(rest, ':');
      if colon < |rest| then WithPort(rest[..colon], rest[colon + 1..]) else WithPort(rest, "443")
  }

  function ParseHostPort(url: string): Result<(string, nat), UrlError> {
    if !(HTTPS <= url) then Err(NotHttps) else ReadHostPort(url[|HTTPS|..])
  }

  /** The host as it is looked up. */
  function ResolutionHost(host: string): string {
    TrimEnd(TrimStart(host, '['), ']')
  }

  predicate NotBracketed(address: string) {
    !("[" <= address) && ']' !in address
  }

  /** IPv6 text always has two colons or more and never a bracket (section 2.2
      of RFC 4291). */
  ghost predicate ReadsIpv6(platform: Platform) {
    forall text :: platform.readBare(text).Some? ==> Count(text, ':') >= 2 && '[' !in text
  }

  // ----- lemmas about pieces -----

  lemma {:induction false} CountConcat(s: string, t: string, c: char)
    ensures Count(s + t, c) == Count(s, c) + Count(t, c)
  {
    if |s| == 0 {
      assert s + t == t;
    } else {
      assert (s + t)[1..] == s[1..] + t;
      CountConcat(s[1..], t, c);
    }
  }

  lemma {:induction false} CountZero(s: string, c: char)
    ensures Count(s, c) == 0 <==> c !in s
  {
    if |s| > 0 {
      CountZero(s[1..], c);
      assert s == [s[0]] + s[1..];
    }
  }

  lemma JoinFirst(first: string, rest: seq<string>, c: char)
    requires |rest| > 0
    ensures Join([first] + rest, c) == first + [c] + Join(rest, c)
  {
    assert ([first] + rest)[1..] == rest;
  }

  lemma CutAt(s: string, i: nat)
    requires i < |s|
    ensures s == s[..i] + [s[i]] + s[i + 1..]
  {
  }

  lemma {:induction false} JoinSplit(s: string, c: char)
    ensures Join(Split(s, c), c) == s
    decreases |s|
  {
    var i := FirstIndex(s, c);
    if i < |s| {
      var parts := Split(s[i + 1..], c);
      JoinSplit(s[i + 1..], c);
      CutAt(s, i);
      JoinFirst(s[..i], parts, c);
      assert Split(s, c) == [s[..i]] + parts;
    } else {
      assert Split(s, c) == [s];
    }
  }

  /** An IPv4 text is its own print. */
  lemma PrintIpv4IsText(s: string)
    requires IsIpv4(s)
    ensures PrintIpv4(s) == s
  {
    var parts := Split(s, '.');
    JoinSplit(s, '.');
    forall i | 0 <= i < 4 ensures Decimal(Value(parts[i])) == parts[i] {
      DecimalOfValue(parts[i]);
    }
    assert seq(4, i requires 0 <= i < 4 => Decimal(Value(parts[i]))) == parts;
  }

  /** The colon before the port is the last one. */
  lemma LastColon(address: string, port: string)
    requires AllDigits(port)
    ensures var target := address + ":" + port;
            && LastIndex(target, ':') == |address|
            && EndsLikePort(target)
            && target[..|address|] == address && target[|address| + 1..] == port
  {
    var target := address + ":" + port;
    assert target[|address|] == ':';
    assert forall i | |address| < i < |target| :: target[i] == port[i - |address| - 1] && IsDigit(target[i]);
    assert target[|address| + 1..] == port;
    assert ':' in target;
  }

  /** Skipping the URL prefix. */
  lemma AfterHttps(rest: string)
    ensures HTTPS <= HTTPS + rest && (HTTPS + rest)[|HTTPS|..] == rest
  {
  }

  lemma CloseColonAt(host: string, port: string)
    requires ']' !in host
    ensures var inner := host + "]:" + port;
            CloseColon(inner) == |host| && inner[..|host|] == host && inner[|host| + 2..] == port
  {
    var inner := host + "]:" + port;
    assert inner[|host|] == ']' && inner[|host| + 1] == ':';
    assert forall i | 0 <= i < |host| :: inner[i] == host[i];
    assert inner[..|host|] == host && inner[|host| + 2..] == port;
  }

  lemma BracketsComeOff(host: string)
    requires NotBracketed(host)
    ensures ResolutionHost("[" + host + "]") == host
  {
    var closed := host + "]";
    assert TrimStart("[" + host + "]", '[') == closed by {
      assert ("[" + host + "]")[1..] == closed;
      assert closed[0] != '[';
    }
    assert TrimEnd(closed, ']') == host by {
      assert closed[..|host|] == host;
      assert |host| > 0 ==> host[|host| - 1] != ']';
    }
  }

  lemma ReadBracketed(address: string, port: nat)
    requires NotBracketed(address) && port <= MAX_PORT
    ensures var r := ParseHostPort(Bracketed(address, Decimal(port)));
            r.Ok? && ResolutionHost(r.value.0) == address && r.value.1 == port
  {
    var p := Decimal(port);
    var inner := address + "]:" + p;
    var rest := "[" + inner;
    assert HTTPS + rest == Bracketed(address, p);
    AfterHttps(rest);
    assert rest[1..] == inner;
    CloseColonAt(address, p);
    ParsePortOfDecimal(port);
    BracketsComeOff(address);
  }

  // ----- main results -----

  /** A text with two colons or more is no socket address unless bracketed. */
  lemma ManyColonsNoSocket(platform: Platform, s: string)
    requires Count(s, ':') >= 2 && !("[" <= s)
    ensures ParseSocketAddr(platform, s).None?
  {
    var colon := FirstIndex(s, ':');
    CountZero(s[..colon], ':');
    assert s == s[..colon] + s[colon..];
    CountConcat(s[..colon], s[colon..], ':');
    if SocketPort(s[colon..]).Some? {
      var tail := s[colon..];
      CountZero(tail[1..], ':');
    }
  }

  lemma ColonsBeforePort(address: string, port: string)
    requires AllDigits(port)
    ensures Count(address + ":" + port, ':') == Count(address, ':') + 1
  {
    CountZero(port, ':');
    CountConcat(address, ":" + port, ':');
    CountConcat(":", port, ':');
    assert address + (":" + port) == address + ":" + port;
  }

  /** A text that is no socket address is read as a bare address or as plain text. */
  lemma ResolvesWithoutSocket(platform: Platform, target: string)
    requires !HasScheme(target) && ParseSocketAddr(platform, target).None?
    ensures ResolveUrl(platform, target) ==
            match platform.readBare(target) case Some(ip) => BareUrl(target, ip) case None => GenericUrl(target)
  {
  }

  lemma GenericBrackets(address: string, port: string)
    requires ':' in address && NotBracketed(address) && AllDigits(port)
    ensures GenericUrl(address + ":" + port) == Bracketed(address, port)
  {
    LastColon(address, port);
  }

  lemma BareBracketsIff(ip: string, address: string, port: nat)
    requires ':' in address && NotBracketed(address) && port <= MAX_PORT
    ensures BareUrl(address + ":" + Decimal(port), ip) == Bracketed(address, Decimal(port)) <==>
            Count(address, ':') >= 2
  {
    var p := Decimal(port);
    LastColon(address, p);
    ColonsBeforePort(address, p);
    EndsDiffer(ip, address, p);
  }

  /** For an unbracketed address with colons, `address:port` becomes
      `https://[address]:port`, whichever way the text is read, exactly when the
      address has two colons or the whole is no IPv6 address by itself. */
  lemma {:induction false} ResolveIpv6WithPort(platform: Platform, address: string, port: nat)
    requires ':' in address && NotBracketed(address) && port <= MAX_PORT
    requires !HasScheme(address + ":" + Decimal(port))
    ensures var target := address + ":" + Decimal(port);
            ResolveUrl(platform, target) == Bracketed(address, Decimal(port))
            <==> Count(address, ':') >= 2 || platform.readBare(target).None?
  {
    var target := address + ":" + Decimal(port);
    CountZero(address, ':');
    ColonsBeforePort(address, Decimal(port));
    ManyColonsNoSocket(platform, target);
    ResolvesWithoutSocket(platform, target);
    match platform.readBare(target) {
      case Some(ip) => BareBracketsIff(ip, address, port);
      case None => GenericBrackets(address, Decimal(port));
    }
  }

  lemma EndsDiffer(bare: string, host: string, port: string)
    requires AllDigits(port)
    ensures HTTPS + "[" + bare + "]" != Bracketed(host, port)
  {
    var u, v := HTTPS + "[" + bare + "]", Bracketed(host, port);
    assert u[|u| - 1] == ']';
    assert v[|v| - 1] == if |port| > 0 then port[|port| - 1] else ':';
  }

  /** Address round trip for addresses with at least two colons: the URL made of
      `address:port` reads back as that address and port. */
  lemma {:induction false} Ipv6RoundTrip(platform: Platform, address: string, port: nat)
    requires Count(address, ':') >= 2 && NotBracketed(address) && port <= MAX_PORT
    requires !HasScheme(address + ":" + Decimal(port))
    ensures var r := ParseHostPort(ResolveUrl(platform, address + ":" + Decimal(port)));
            r.Ok? && ResolutionHost(r.value.0) == address && r.value.1 == port
  {
    CountZero(address, ':');
    ResolveIpv6WithPort(platform, address, port);
    ReadBracketed(address, port);
  }

  lemma Ipv4StartsWithDigit(s: string)
    requires IsIpv4(s)
    ensures |s| > 0 && IsDigit(s[0])
  {
    var first := Split(s, '.')[0];
    assert IsOctet(first);
    assert first <= s;
  }

  lemma BracketedSocket(platform: Platform, address: string, port: nat)
    requires ']' !in address && port <= MAX_PORT
    ensures ParseSocketAddr(platform, "[" + address + "]:" + Decimal(port)) ==
            match platform.readBracketed(address) case Some(ip) => Some(V6(ip, port)) case None => None
  {
    var p := Decimal(port);
    var target := "[" + address + "]:" + p;
    var colon := FirstIndex(target, ':');
    if IsIpv4(target[..colon]) {
      Ipv4StartsWithDigit(target[..colon]);
    }
    var close := |address| + 1;
    assert target[close] == ']' && forall i | 0 < i < close :: target[i] == address[i - 1];
    assert FirstIndex(target, ']') == close;
    assert target[1..close] == address && target[close + 1..] == ":" + p;
    SocketPortOfDecimal(port);
  }

  lemma BracketedGeneric(address: string, port: string)
    requires AllDigits(port)
    ensures GenericUrl("[" + address + "]:" + port) == Bracketed(address, port)
    ensures !HasScheme("[" + address + "]:" + port)
  {
    var host := "[" + address + "]";
    var target := "[" + address + "]:" + port;
    assert target == host + ":" + port;
    LastColon(host, port);
    assert "[" <= host;
    assert HTTPS + host + ":" + port == Bracketed(address, port);
    assert target[0] == '[' && HTTP[0] == 'h' && HTTPS[0] == 'h';
  }

  /** A bracketed address keeps its brackets and port; one that is IPv6 text is
      printed as the platform prints it. */
  lemma {:induction false} ResolveBracketed(platform: Platform, address: string, port: nat)
    requires ']' !in address && port <= MAX_PORT && ReadsIpv6(platform)
    ensures ResolveUrl(platform, "[" + address + "]:" + Decimal(port)) ==
            Bracketed(match platform.readBracketed(address) case Some(ip) => ip case None => address, Decimal(port))
  {
    var target := "[" + address + "]:" + Decimal(port);
    BracketedSocket(platform, address, port);
    BracketedGeneric(address, Decimal(port));
    assert target[0] == '[';
    assert platform.readBare(target).None?;
  }

  predicate PlainHost(host: string) {
    ':' !in host && '/' !in host && '[' !in host && ']' !in host
  }

  lemma PlainHostPieces(host: string, port: string)
    requires PlainHost(host) && AllDigits(port)
    ensures var target := host + ":" + port;
            && FirstIndex(target, ':') == |host| && target[..|host|] == host && target[|host|..] == ":" + port
            && !("[" <= target) && !HasScheme(target)
  {
    var target := host + ":" + port;
    OneColon(host, port);
    assert target[..|host|] == host && target[|host|..] == ":" + port;
    NoSlashNoScheme(target);
  }

  /** Read as a socket address, a plain host with a port is an IPv4 address. */
  lemma PlainHostSocket(platform: Platform, host: string, port: nat)
    requires PlainHost(host) && port <= MAX_PORT
    ensures ParseSocketAddr(platform, host + ":" + Decimal(port)) == if IsIpv4(host) then Some(V4(host, port)) else None
  {
    PlainHostPieces(host, Decimal(port));
    SocketPortOfDecimal(port);
    if IsIpv4(host) {
      PrintIpv4IsText(host);
    }
  }

  /** Read as a plain text, it keeps its host and port. */
  lemma PlainHostGeneric(host: string, port: string)
    requires PlainHost(host) && AllDigits(port)
    ensures GenericUrl(host + ":" + port) == HTTPS + (host + ":" + port)
  {
    LastColon(host, port);
    assert HTTPS + host + ":" + port == HTTPS + (host + ":" + port);
  }

  lemma ResolvesAsSocket(platform: Platform, target: string, socket: SocketAddr)
    requires !HasScheme(target) && ParseSocketAddr(platform, target) == Some(socket)
    ensures ResolveUrl(platform, target) == SocketUrl(socket)
  {
  }

  lemma ResolvesAsText(platform: Platform, target: string)
    requires !HasScheme(target) && ParseSocketAddr(platform, target).None? && platform.readBare(target).None?
    ensures ResolveUrl(platform, target) == GenericUrl(target)
  {
  }

  lemma PlainHostIsNotBare(platform: Platform, host: string, port: string)
    requires PlainHost(host) && AllDigits(port) && ReadsIpv6(platform)
    ensures platform.readBare(host + ":" + port).None?
  {
    OneColon(host, port);
  }

  lemma ResolvePlainV4(platform: Platform, host: string, port: nat)
    requires PlainHost(host) && port <= MAX_PORT && IsIpv4(host)
    ensures ResolveUrl(platform, host + ":" + Decimal(port)) == SocketUrl(V4(host, port))
  {
    PlainHostPieces(host, Decimal(port));
    PlainHostSocket(platform, host, port);
    ResolvesAsSocket(platform, host + ":" + Decimal(port), V4(host, port));
  }

  lemma ResolvePlainName(platform: Platform, host: string, port: nat)
    requires PlainHost(host) && port <= MAX_PORT && ReadsIpv6(platform) && !IsIpv4(host)
    ensures ResolveUrl(platform, host + ":" + Decimal(port)) == GenericUrl(host + ":" + Decimal(port))
  {
    PlainHostPieces(host, Decimal(port));
    PlainHostSocket(platform, host, port);
    PlainHostIsNotBare(platform, host, Decimal(port));
    ResolvesAsText(platform, host + ":" + Decimal(port));
  }

  lemma UrlOfV4(host: string, port: nat)
    ensures SocketUrl(V4(host, port)) == HTTPS + (host + ":" + Decimal(port))
  {
    assert HTTPS + host + ":" + Decimal(port) == HTTPS + (host + ":" + Decimal(port));
  }

  lemma ResolvePlainHost(platform: Platform, host: string, port: nat)
    requires PlainHost(host) && port <= MAX_PORT && ReadsIpv6(platform)
    ensures ResolveUrl(platform, host + ":" + Decimal(port)) == HTTPS + (host + ":" + Decimal(port))
  {
    if IsIpv4(host) {
      ResolvePlainV4(platform, host, port);
      UrlOfV4(host, port);
    } else {
      ResolvePlainName(platform, host, port);
      PlainHostGeneric(host, Decimal(port));
    }
  }

  lemma {:induction false} OneColon(host: string, port: string)
    requires ':' !in host && AllDigits(port)
    ensures FirstIndex(host + ":" + port, ':') == |host|
    ensures Count(host + ":" + port, ':') == 1
  {
    var target := host + ":" + port;
    assert target[|host|] == ':' && forall i | 0 <= i < |host| :: target[i] == host[i];
    CountZero(host, ':');
    CountZero(port, ':');
    CountConcat(host + ":", port, ':');
    CountConcat(host, ":", ':');
  }

  lemma NoSlashNoScheme(s: string)
    requires '/' !in s
    ensures !HasScheme(s)
  {
    assert HTTP[5] == '/' && HTTPS[6] == '/';
  }

  lemma ParsePlainHost(host: string, port: nat)
    requires PlainHost(host) && port <= MAX_PORT
    ensures ParseHostPort(HTTPS + (host + ":" + Decimal(port))) == Ok((host, port))
  {
    var p := Decimal(port);
    var target := host + ":" + p;
    AfterHttps(target);
    OneColon(host, p);
    assert !("[" <= target);
    assert target[..|host|] == host && target[|host| + 1..] == p;
    ParsePortOfDecimal(port);
  }

  /** Address round trip for host names and IPv4 addresses. */
  lemma HostRoundTrip(platform: Platform, host: string, port: nat)
    requires PlainHost(host) && port <= MAX_PORT && ReadsIpv6(platform)
    ensures var r := ParseHostPort(ResolveUrl(platform, host + ":" + Decimal(port)));
            r.Ok? && ResolutionHost(r.value.0) == host && r.value.1 == port
  {
    var url := ResolveUrl(platform, host + ":" + Decimal(port));
    assert ParseHostPort(url) == Ok((host, port)) by {
      ResolvePlainHost(platform, host, port);
      ParsePlainHost(host, port);
    }
    PlainIsNotTrimmed(host);
  }

  lemma PlainIsNotTrimmed(host: string)
    requires PlainHost(host)
    ensures ResolutionHost(host) == host
  {
  }

  /** A bare IPv6 address becomes `https://[address]` exactly when its last group
      cannot pass for a port. */
  lemma BareIpv6(platform: Platform, address: string)
    requires ReadsIpv6(platform) && platform.readBare(address).Some?
    requires !("[" <= address) && !HasScheme(address)
    ensures ResolveUrl(platform, address) == HTTPS + "[" + platform.readBare(address).value + "]"
            <==> !(Count(address, ':') > 2 && EndsLikePort(address))
  {
    ManyColonsNoSocket(platform, address);
    if Count(address, ':') > 2 && EndsLikePort(address) {
      var cut := LastIndex(address, ':');
      EndsDiffer(platform.readBare(address).value, address[..cut], address[cut + 1..]);
    }
  }

  /** What then happens: the last group is taken for the port. */
  lemma LastGroupTakenForPort(platform: Platform, groups: string, last: string)
    requires ReadsIpv6(platform) && platform.readBare(groups + ":" + last).Some?
    requires !("[" <= groups) && !HasScheme(groups + ":" + last)
    requires Count(groups, ':') >= 2 && AllDigits(last)
    ensures ResolveUrl(platform, groups + ":" + last) == Bracketed(groups, last)
  {
    var address := groups + ":" + last;
    LastColon(groups, last);
    CountConcat(groups, ":" + last, ':');
    CountConcat(":", last, ':');
    assert groups + (":" + last) == address;
    ManyColonsNoSocket(platform, address);
  }

  const EXAMPLE_GROUPS := "2001:db8:"

  lemma ExampleGroups()
    ensures Count(EXAMPLE_GROUPS, ':') >= 2 && '/' !in EXAMPLE_GROUPS && !("[" <= EXAMPLE_GROUPS)
  {
  }

  /** For instance for the documentation address 2001:db8::1. */
  lemma BareIpv6Mistaken(platform: Platform)
    requires ReadsIpv6(platform) && platform.readBare(EXAMPLE_GROUPS + ":" + "1").Some?
    ensures ResolveUrl(platform, EXAMPLE_GROUPS + ":" + "1") == Bracketed(EXAMPLE_GROUPS, "1")
  {
    ExampleGroups();
    NoSlashNoScheme(EXAMPLE_GROUPS + ":" + "1");
    LastGroupTakenForPort(platform, EXAMPLE_GROUPS, "1");
  }
}
