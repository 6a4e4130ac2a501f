/** Which texts are ports and IPv4 addresses, what becomes of targets without a port
    or with a scheme, and which URLs the pin check can read. */
module AddressReading {
  import opened Address
  import opened Sequences
  import opened Wrappers

  // ----- numbers -----

  function Zeros(n: nat): (r: string)
    ensures |r| == n && AllDigits(r)
  {
    seq(n, _ => '0')
  }

  lemma ValueSkipsZero(s: string)
    requires AllDigits(s) && |s| > 0 && s[0] == '0'
    ensures Value(s) == Value(s[1..])
  {
    ValueSkips(s);
  }

  lemma {:induction false} ValueSkips(s: string)
    requires AllDigits(s) && |s| > 0 && s[0] == '0'
    ensures Value(s) == Value(s[1..])
  {
    var n := |s| - 1;
    if n == 0 {
      assert s[..n] == "" && s[1..] == "";
    } else {
      ValueSkips(s[..n]);
      assert s[..n][1..] == s[1..][..n - 1] && s[1..][n - 1] == s[n];
    }
  }

  /** A text of digits is a number's print after some zeros. */
  lemma {:induction false} DigitsArePrint(s: string) returns (zeros: nat)
    requires |s| > 0 && AllDigits(s)
    ensures s == Zeros(zeros) + Decimal(Value(s))
  {
    if |s| == 1 || s[0] != '0' {
      DecimalOfValue(s);
      zeros := 0;
      assert Zeros(0) + Decimal(Value(s)) == Decimal(Value(s));
    } else {
      ValueSkipsZero(s);
      var z := DigitsArePrint(s[1..]);
      zeros := z + 1;
      assert s == [s[0]] + s[1..];
      assert Zeros(zeros) == ['0'] + Zeros(z);
    }
  }

  lemma {:induction false} ValueOfPadded(zeros: nat, n: nat)
    ensures AllDigits(Zeros(zeros) + Decimal(n)) && Value(Zeros(zeros) + Decimal(n)) == n
  {
    var s := Zeros(zeros) + Decimal(n);
    if zeros == 0 {
      assert s == Decimal(n);
      ValueOfDecimal(n);
    } else {
      assert s[1..] == Zeros(zeros - 1) + Decimal(n);
      ValueOfPadded(zeros - 1, n);
      ValueSkipsZero(s);
    }
  }

  /** The texts of a port: its print, perhaps after a plus sign and zeros. */
  ghost predicate WritesPort(s: string, port: nat) {
    exists zeros: nat :: s == Zeros(zeros) + Decimal(port) || s == "+" + (Zeros(zeros) + Decimal(port))
  }

  lemma ReadPortIsWritten(s: string)
    requires ParsePort(s).Some?
    ensures WritesPort(s, ParsePort(s).value)
  {
    var digits := if |s| > 0 && s[0] == '+' then s[1..] else s;
    var zeros := DigitsArePrint(digits);
    assert |s| > 0 && s[0] == '+' ==> s == "+" + digits;
  }

  lemma WrittenPortReads(s: string, port: nat)
    requires port <= 65535 && WritesPort(s, port)
    ensures ParsePort(s) == Some(port)
  {
    var zeros: nat :| s == Zeros(zeros) + Decimal(port) || s == "+" + (Zeros(zeros) + Decimal(port));
    ValueOfPadded(zeros, port);
    var padded := Zeros(zeros) + Decimal(port);
    if s == padded {
      assert IsDigit(s[0]);
    } else {
      assert s[0] == '+' && s[1..] == padded;
    }
  }

  /** A text reads as a port exactly if it is one of these. */
  lemma PortTexts(s: string, port: nat)
    ensures ParsePort(s) == Some(port) <==> port <= 65535 && WritesPort(s, port)
  {
    if ParsePort(s) == Some(port) {
      ReadPortIsWritten(s);
    } else if port <= 65535 && WritesPort(s, port) {
      WrittenPortReads(s, port);
    }
  }

  /** The port of a socket address is one without plus sign, after a colon. */
  lemma SocketPortTexts(t: string)
    ensures SocketPort(":" + t) == if "+" <= t then None else ParsePort(t)
    ensures forall s: string | SocketPort(s).Some? :: ":" <= s
  {
    assert (":" + t)[1..] == t;
    if "+" <= t {
      assert !IsDigit(t[0]);
    }
  }

  // ----- IPv4 -----

  /** An octet is the print of a number up to 255. */
  lemma OctetIff(s: string)
    ensures IsOctet(s) <==> exists n: nat :: n <= 255 && s == Decimal(n)
  {
    if IsOctet(s) {
      DecimalOfValue(s);
      assert s == Decimal(Value(s));
    }
    if n: nat :| n <= 255 && s == Decimal(n) {
      ValueOfDecimal(n);
      DecimalHasNoZero(n);
      ShortDecimal(n);
    }
  }

  lemma {:induction false} DecimalHasNoZero(n: nat)
    ensures n > 0 ==> Decimal(n)[0] != '0'
    ensures |Decimal(n)| > 1 ==> Decimal(n)[0] != '0'
  {
    if n >= 10 {
      DecimalHasNoZero(n / 10);
      assert Decimal(n)[0] == Decimal(n / 10)[0];
    }
  }

  lemma ShortDecimal(n: nat)
    requires n <= 255
    ensures |Decimal(n)| <= 3
  {
    if n >= 10 {
      assert Decimal(n) == Decimal(n / 10) + [DigitChar(n % 10)];
      if n / 10 >= 10 {
        assert Decimal(n / 10) == Decimal(n / 10 / 10) + [DigitChar(n / 10 % 10)];
        assert n / 10 / 10 < 10;
      }
    }
  }

  function Quad(a: nat, b: nat, c: nat, d: nat): string {
    Decimal(a) + "." + Decimal(b) + "." + Decimal(c) + "." + Decimal(d)
  }

  lemma SplitFirst(first: string, rest: string, c: char)
    requires c !in first
    ensures Split(first + [c] + rest, c) == [first] + Split(rest, c)
  {
    var s := first + [c] + rest;
    assert s[|first|] == c && forall i | 0 <= i < |first| :: s[i] == first[i];
    assert FirstIndex(s, c) == |first|;
    assert s[..|first|] == first && s[|first| + 1..] == rest;
  }

  lemma SplitNone(s: string, c: char)
    requires c !in s
    ensures Split(s, c) == [s]
  {
    assert FirstIndex(s, c) == |s|;
  }

  lemma NoDotInDecimal(n: nat)
    ensures '.' !in Decimal(n)
  {
  }

  lemma {:induction false} SplitJoin(parts: seq<string>, c: char)
    requires |parts| > 0 && forall i | 0 <= i < |parts| :: c !in parts[i]
    ensures Split(Join(parts, c), c) == parts
  {
    if |parts| == 1 {
      SplitNone(parts[0], c);
    } else {
      assert parts == [parts[0]] + parts[1..];
      SplitFirst(parts[0], Join(parts[1..], c), c);
      SplitJoin(parts[1..], c);
    }
  }

  lemma JoinFour(parts: seq<string>, c: char)
    requires |parts| == 4
    ensures Join(parts, c) == parts[0] + [c] + parts[1] + [c] + parts[2] + [c] + parts[3]
  {
    assert parts == [parts[0]] + ([parts[1]] + ([parts[2]] + [parts[3]]));
    JoinFirst(parts[2], [parts[3]], c);
    JoinFirst(parts[1], [parts[2]] + [parts[3]], c);
    JoinFirst(parts[0], [parts[1]] + ([parts[2]] + [parts[3]]), c);
  }

  lemma SplitQuad(a: nat, b: nat, c: nat, d: nat)
    ensures Split(Quad(a, b, c, d), '.') == [Decimal(a), Decimal(b), Decimal(c), Decimal(d)]
  {
    var parts := [Decimal(a), Decimal(b), Decimal(c), Decimal(d)];
    NoDotInDecimal(a);
    NoDotInDecimal(b);
    NoDotInDecimal(c);
    NoDotInDecimal(d);
    JoinFour(parts, '.');
    SplitJoin(parts, '.');
  }

  /** IPv4 texts are exactly the prints of four numbers up to 255. */
  lemma Ipv4Iff(s: string)
    ensures IsIpv4(s) <==>
            exists a: nat, b: nat, c: nat, d: nat ::
              a <= 255 && b <= 255 && c <= 255 && d <= 255 && s == Quad(a, b, c, d)
  {
    var parts := Split(s, '.');
    if IsIpv4(s) {
      JoinSplit(s, '.');
      JoinFour(parts, '.');
      OctetIff(parts[0]);
      OctetIff(parts[1]);
      OctetIff(parts[2]);
      OctetIff(parts[3]);
      var a: nat :| a <= 255 && parts[0] == Decimal(a);
      var b: nat :| b <= 255 && parts[1] == Decimal(b);
      var c: nat :| c <= 255 && parts[2] == Decimal(c);
      var d: nat :| d <= 255 && parts[3] == Decimal(d);
      assert s == Quad(a, b, c, d);
    }
    if a: nat, b: nat, c: nat, d: nat :| a <= 255 && b <= 255 && c <= 255 && d <= 255 && s == Quad(a, b, c, d) {
      SplitQuad(a, b, c, d);
      OctetIff(Decimal(a));
      OctetIff(Decimal(b));
      OctetIff(Decimal(c));
      OctetIff(Decimal(d));
    }
  }

  lemma PaddedV4(platform: Platform, host: string, zeros: nat, port: nat)
    requires PlainHost(host) && port <= MAX_PORT && IsIpv4(host)
    ensures ParseSocketAddr(platform, host + ":" + (Zeros(zeros) + Decimal(port))) == Some(V4(host, port))
  {
    var text := Zeros(zeros) + Decimal(port);
    ValueOfPadded(zeros, port);
    PlainHostPieces(host, text);
    assert (":" + text)[1..] == text;
    PrintIpv4IsText(host);
  }

  lemma PaddedName(platform: Platform, host: string, port: string)
    requires PlainHost(host) && AllDigits(port) && !IsIpv4(host)
    ensures ParseSocketAddr(platform, host + ":" + port).None?
  {
    PlainHostPieces(host, port);
  }

  /** The port of an IPv4 address is printed without its zeros. */
  lemma ResolvePaddedV4(platform: Platform, host: string, zeros: nat, port: nat)
    requires PlainHost(host) && port <= MAX_PORT && IsIpv4(host)
    ensures ResolveUrl(platform, host + ":" + (Zeros(zeros) + Decimal(port))) == HTTPS + (host + ":" + Decimal(port))
  {
    PaddedV4(platform, host, zeros, port);
    NoSlashNoScheme(host + ":" + (Zeros(zeros) + Decimal(port)));
    ResolvesAsSocket(platform, host + ":" + (Zeros(zeros) + Decimal(port)), V4(host, port));
    UrlOfV4(host, port);
  }

  /** That of a host name is kept as it was written, even if it is no port. */
  lemma ResolveAnyPort(platform: Platform, host: string, port: string)
    requires PlainHost(host) && AllDigits(port) && ReadsIpv6(platform) && !IsIpv4(host)
    ensures ResolveUrl(platform, host + ":" + port) == HTTPS + (host + ":" + port)
  {
    PaddedName(platform, host, port);
    PlainHostIsNotBare(platform, host, port);
    NoSlashNoScheme(host + ":" + port);
    ResolvesAsText(platform, host + ":" + port);
    PlainHostGeneric(host, port);
  }

  // ----- targets without a port, and with a scheme -----

  predicate AllSlashes(s: string) {
    forall i | 0 <= i < |s| :: s[i] == '/'
  }

  /** A target with a scheme is kept but for the slashes at its end. */
  lemma ResolveScheme(platform: Platform, url: string, slashes: string)
    requires "http://" <= url || "https://" <= url
    requires AllSlashes(slashes) && url[|url| - 1] != '/'
    ensures ResolveUrl(platform, url + slashes) == url
  {
    assert url <= url + slashes;
    assert HTTP <= url + slashes || HTTPS <= url + slashes;
    TrimSlashes(url, slashes);
  }

  lemma TrimSlashes(s: string, slashes: string)
    requires AllSlashes(slashes) && (|s| > 0 ==> s[|s| - 1] != '/')
    ensures TrimEnd(s + slashes, '/') == s
  {
    var whole := s + slashes;
    assert forall i | |s| <= i < |whole| :: whole[i] == slashes[i - |s|];
    assert |s| > 0 ==> whole[|s| - 1] == s[|s| - 1];
    assert whole[..|s|] == s;
  }

  lemma WithoutColonNoSocket(platform: Platform, s: string)
    requires ':' !in s
    ensures ParseSocketAddr(platform, s).None? && !EndsLikePort(s) && !HasScheme(s)
  {
    assert FirstIndex(s, ':') == |s| && LastIndex(s, ':') == |s|;
    assert s[|s|..] == "";
    assert HTTP[4] == ':' && HTTPS[5] == ':';
    var close := FirstIndex(s, ']');
    assert close < |s| ==> ':' !in s[close + 1..];
  }

  /** A host without a port, slashes after it or not, is asked on port 443. */
  lemma HostWithoutPort(platform: Platform, host: string, slashes: string)
    requires PlainHost(host) && AllSlashes(slashes) && ReadsIpv6(platform)
    ensures ResolveUrl(platform, host + slashes) == HTTPS + host
    ensures ParseHostPort(HTTPS + host) == Ok((host, 443))
  {
    var target := host + slashes;
    assert ':' !in target;
    WithoutColonNoSocket(platform, target);
    CountZero(target, ':');
    ResolvesAsText(platform, target);
    if |host| > 0 {
      assert host[|host| - 1] in host;
    }
    TrimSlashes(host, slashes);
    AfterHttps(host);
    assert !("[" <= host);
    assert FirstIndex(host, ':') == |host|;
    DefaultPort();
  }

  lemma DefaultPort()
    ensures ParsePort("443") == Some(443)
  {
    assert Decimal(4) == "4";
    assert Decimal(44) == "44";
    assert Decimal(443) == "443";
    ParsePortOfDecimal(443);
  }

  /** Slashes after a port go, too, and the port with them is read as text. */
  lemma HostPortSlashes(platform: Platform, host: string, port: string, slashes: string)
    requires PlainHost(host) && AllDigits(port) && AllSlashes(slashes) && |slashes| > 0 && ReadsIpv6(platform)
    requires !HasScheme(host + ":" + port + slashes)
    ensures ResolveUrl(platform, host + ":" + port + slashes) == HTTPS + (host + ":" + port)
  {
    var target := host + ":" + port + slashes;
    SlashedIsNoSocket(platform, host, port + slashes);
    assert host + ":" + (port + slashes) == target;
    ResolvesAsText(platform, target);
    SlashedEnds(host + ":" + port, slashes);
    assert |port| > 0 ==> IsDigit(port[|port| - 1]);
    TrimSlashes(host + ":" + port, slashes);
  }

  lemma SlashedEnds(s: string, slashes: string)
    requires AllSlashes(slashes) && |slashes| > 0
    ensures !EndsLikePort(s + slashes)
  {
    var target := s + slashes;
    assert target[|target| - 1] == '/';
    var i := LastIndex(target, ':');
    if i < |target| {
      assert target[i + 1..][|target| - i - 2] == '/';
    }
  }

  lemma SlashedIsNoSocket(platform: Platform, host: string, text: string)
    requires PlainHost(host) && |text| > 0 && text[|text| - 1] == '/' && ':' !in text && ReadsIpv6(platform)
    ensures ParseSocketAddr(platform, host + ":" + text).None? && platform.readBare(host + ":" + text).None?
  {
    var target := host + ":" + text;
    assert target[|host|] == ':' && forall i | 0 <= i < |host| :: target[i] == host[i];
    assert FirstIndex(target, ':') == |host|;
    assert target[|host|..][1..] == text;
    assert !IsDigit(text[|text| - 1]);
    if |host| > 0 {
      assert target[0] == host[0] && host[0] in host;
    }
    CountZero(host, ':');
    CountZero(text, ':');
    CountConcat(host + ":", text, ':');
    CountConcat(host, ":", ':');
  }

  lemma ReadsInner(inner: string)
    ensures ParseHostPort(HTTPS + ("[" + inner)) == ReadInBrackets(inner)
  {
    AfterHttps("[" + inner);
    assert ("[" + inner)[1..] == inner;
  }

  lemma ClosesAtTheEnd(ip: string)
    requires ']' !in ip
    ensures CloseColon(ip + "]") == |ip| + 1
  {
    var inner := ip + "]";
    assert forall i | 0 <= i < |ip| :: inner[i] == ip[i];
  }

  lemma InBracketsWithoutPort(ip: string)
    requires ']' !in ip
    ensures ReadInBrackets(ip + "]") == Ok(("[" + ip + "]", 443))
  {
    var inner := ip + "]";
    ClosesAtTheEnd(ip);
    assert inner[..|inner| - 1] == ip;
    SaysDefaultPort("[" + ip + "]");
  }

  /** A bare IPv6 address not taken apart is asked on port 443, too. */
  lemma BareIpv6ReadsBack(ip: string)
    requires NotBracketed(ip)
    ensures ParseHostPort(HTTPS + "[" + ip + "]") == Ok(("[" + ip + "]", 443))
    ensures ResolutionHost("[" + ip + "]") == ip
  {
    assert HTTPS + "[" + ip + "]" == HTTPS + ("[" + (ip + "]"));
    ReadsInner(ip + "]");
    InBracketsWithoutPort(ip);
    BracketsComeOff(ip);
  }

  /** There is nothing to resolve but slashes, perhaps after a scheme. */
  predicate Nothing(target: string) {
    || AllSlashes(target)
    || ("http://" <= target && AllSlashes(target[7..]))
    || ("https://" <= target && AllSlashes(target[8..]))
  }

  predicate Proper(url: string) {
    HasScheme(url) && |url| > 0 && url[|url| - 1] != '/'
  }

  lemma ResolvedAgain(platform: Platform, url: string)
    requires Proper(url)
    ensures ResolveUrl(platform, url) == url
  {
    assert url + "" == url;
    ResolveScheme(platform, url, "");
  }

  lemma TrimmedScheme(target: string)
    requires HasScheme(target) && !Nothing(target)
    ensures Proper(TrimEnd(target, '/'))
  {
    var r := TrimEnd(target, '/');
    var n := if HTTP <= target then 7 else 8;
    assert exists i | n <= i < |target| :: target[i] != '/' by {
      var rest := target[n..];
      assert !AllSlashes(rest);
      var i :| 0 <= i < |rest| && rest[i] != '/';
      assert target[n + i] != '/';
    }
    assert |r| > n;
    assert r == target[..|r|];
    if HTTP <= target {
      assert target[..7] == HTTP && r[..7] == HTTP;
    } else {
      assert target[..8] == HTTPS && r[..8] == HTTPS;
    }
  }

  lemma ResolvedIsProper(platform: Platform, target: string)
    requires !Nothing(target)
    ensures Proper(ResolveUrl(platform, target))
  {
    if HasScheme(target) {
      TrimmedScheme(target);
    } else if ParseSocketAddr(platform, target).Some? {
      ResolvesAsSocket(platform, target, ParseSocketAddr(platform, target).value);
      SocketUrlIsProper(ParseSocketAddr(platform, target).value);
    } else {
      ResolvesWithoutSocket(platform, target);
      match platform.readBare(target) {
        case Some(ip) => BareUrlIsProper(target, ip);
        case None => GenericUrlIsProper(target);
      }
    }
  }

  lemma NothingTrims(target: string)
    requires Nothing(target) && HasScheme(target)
    ensures TrimEnd(target, '/') == "http:" || TrimEnd(target, '/') == "https:"
  {
    if HTTP <= target {
      assert target == "http:" + ("//" + target[7..]);
      TrimSlashes("http:", "//" + target[7..]);
    } else {
      assert target == "https:" + ("//" + target[8..]);
      TrimSlashes("https:", "//" + target[8..]);
    }
  }

  lemma SchemeAlone(platform: Platform, scheme: string)
    requires (scheme == "http" || scheme == "https") && ReadsIpv6(platform)
    ensures ResolveUrl(platform, scheme + ":") == HTTPS + (scheme + ":")
  {
    assert scheme + ":" == scheme + ":" + "";
    if IsIpv4(scheme) {
      Ipv4StartsWithDigit(scheme);
    }
    ResolveAnyPort(platform, scheme, "");
  }

  lemma SlashesAlone(platform: Platform, slashes: string)
    requires AllSlashes(slashes) && ReadsIpv6(platform)
    ensures ResolveUrl(platform, slashes) == HTTPS
  {
    assert "" + slashes == slashes && HTTPS + "" == HTTPS;
    HostWithoutPort(platform, "", slashes);
  }

  lemma EmptySchemeResolvesOn(platform: Platform, target: string)
    requires Nothing(target) && HasScheme(target) && ReadsIpv6(platform)
    ensures ResolveUrl(platform, ResolveUrl(platform, target)) != ResolveUrl(platform, target)
  {
    NothingTrims(target);
    var scheme := if TrimEnd(target, '/') == "http:" then "http" else "https";
    SchemeAlone(platform, scheme);
    assert ResolveUrl(platform, target) == scheme + ":";
    assert |HTTPS + (scheme + ":")| == 8 + |scheme + ":"|;
  }

  lemma SlashesResolveOn(platform: Platform, target: string)
    requires AllSlashes(target) && ReadsIpv6(platform)
    ensures ResolveUrl(platform, ResolveUrl(platform, target)) != ResolveUrl(platform, target)
  {
    SlashesAlone(platform, target);
    NothingTrims(HTTPS);
  }

  lemma NothingResolvesOn(platform: Platform, target: string)
    requires Nothing(target) && ReadsIpv6(platform)
    ensures ResolveUrl(platform, ResolveUrl(platform, target)) != ResolveUrl(platform, target)
  {
    if HasScheme(target) {
      EmptySchemeResolvesOn(platform, target);
    } else {
      SlashesResolveOn(platform, target);
    }
  }

  /** Resolving a URL again changes nothing exactly if there was something to
      resolve. */
  lemma ResolveTwiceIff(platform: Platform, target: string)
    requires ReadsIpv6(platform)
    ensures ResolveUrl(platform, ResolveUrl(platform, target)) == ResolveUrl(platform, target) <==> !Nothing(target)
  {
    if Nothing(target) {
      NothingResolvesOn(platform, target);
    } else {
      ResolvedIsProper(platform, target);
      ResolvedAgain(platform, ResolveUrl(platform, target));
    }
  }

  lemma SocketUrlIsProper(socket: SocketAddr)
    ensures Proper(SocketUrl(socket))
  {
    var url, p := SocketUrl(socket), Decimal(socket.port);
    assert url[|url| - 1] == p[|p| - 1] && IsDigit(p[|p| - 1]);
    assert url[..8] == HTTPS;
  }

  lemma BareUrlIsProper(target: string, ip: string)
    ensures Proper(BareUrl(target, ip))
  {
    var url := BareUrl(target, ip);
    assert url[..8] == HTTPS;
    if Count(target, ':') > 2 && EndsLikePort(target) {
      PortEnds(target);
    }
  }

  lemma PortEnds(target: string)
    requires EndsLikePort(target)
    ensures var port := target[LastIndex(target, ':') + 1..]; |port| > 0 ==> port[|port| - 1] != '/'
  {
    var port := target[LastIndex(target, ':') + 1..];
    assert |port| > 0 ==> IsDigit(port[|port| - 1]);
  }

  lemma TrimmedIsProper(target: string)
    requires !AllSlashes(target)
    ensures Proper(HTTPS + TrimEnd(target, '/'))
  {
    var i :| 0 <= i < |target| && target[i] != '/';
    assert |TrimEnd(target, '/')| > i;
  }

  lemma GenericUrlIsProper(target: string)
    requires !AllSlashes(target)
    ensures Proper(GenericUrl(target))
  {
    if EndsLikePort(target) {
      PortEnds(target);
      assert GenericUrl(target)[..8] == HTTPS;
    } else {
      TrimmedIsProper(target);
    }
  }

  // ----- which URLs can be read -----

  /** Only `https` URLs are read, and the error says so exactly for the others. */
  lemma OnlyHttpsIsRead(url: string)
    ensures ParseHostPort(url) == Err(NotHttps) <==> !("https://" <= url)
  {
  }

  /** The URL says that host and port: the port after a colon, or 443 by leaving it
      out. */
  ghost predicate Says(url: string, host: string, port: nat) {
    || (url == "https://" + host && port == 443)
    || exists text :: url == "https://" + (host + ":" + text) && ParsePort(text) == Some(port)
  }

  lemma SaysPort(url: string, host: string, text: string)
    requires url == "https://" + (host + ":" + text) && WithPort(host, text).Ok?
    ensures WithPort(host, text).value.0 == host && Says(url, host, WithPort(host, text).value.1)
  {
  }

  lemma SaysDefaultPort(host: string)
    ensures WithPort(host, "443") == Ok((host, 443)) && Says("https://" + host, host, 443)
  {
    DefaultPort();
  }

  lemma InnerAsHost(inner: string, close: nat)
    requires close + 1 < |inner| && inner[close] == ']' && inner[close + 1] == ':'
    ensures "[" + inner == ("[" + inner[..close] + "]") + ":" + inner[close + 2..]
  {
    assert inner == inner[..close] + "]:" + inner[close + 2..];
  }

  lemma InnerIsHost(inner: string)
    requires |inner| > 0 && inner[|inner| - 1] == ']'
    ensures "[" + inner == "[" + inner[..|inner| - 1] + "]"
  {
    assert inner == inner[..|inner| - 1] + "]";
  }

  lemma ReadBracketsMeans(inner: string)
    requires ReadInBrackets(inner).Ok?
    ensures var (host, port) := ReadInBrackets(inner).value;
            Says(HTTPS + ("[" + inner), host, port) && "[" <= host && |host| >= 2 && host[|host| - 1] == ']'
  {
    var close := CloseColon(inner);
    if close < |inner| {
      InnerAsHost(inner, close);
      SaysPort(HTTPS + ("[" + inner), "[" + inner[..close] + "]", inner[close + 2..]);
    } else {
      InnerIsHost(inner);
      SaysDefaultPort("[" + inner[..|inner| - 1] + "]");
    }
  }

  lemma RestAsHost(rest: string, colon: nat)
    requires colon < |rest| && rest[colon] == ':'
    ensures rest == rest[..colon] + ":" + rest[colon + 1..]
  {
  }

  lemma ReadPlainMeans(rest: string)
    requires !("[" <= rest) && ReadHostPort(rest).Ok?
    ensures var (host, port) := ReadHostPort(rest).value;
            Says(HTTPS + rest, host, port) && !("[" <= host) && ':' !in host
  {
    var colon := FirstIndex(rest, ':');
    if colon < |rest| {
      RestAsHost(rest, colon);
      SaysPort(HTTPS + rest, rest[..colon], rest[colon + 1..]);
      assert colon > 0 ==> rest[..colon][0] == rest[0];
    } else {
      SaysDefaultPort(rest);
    }
  }

  /** What is read is what the URL says: a host, in brackets or without colon, and
      the port after it, 443 if there is none. */
  lemma ReadMeans(url: string)
    requires ParseHostPort(url).Ok?
    ensures var (host, port) := ParseHostPort(url).value;
            && Says(url, host, port)
            && if "[" <= host then |host| >= 2 && host[|host| - 1] == ']' else ':' !in host
  {
    var rest := url[|HTTPS|..];
    assert url == HTTPS + rest;
    if "[" <= rest {
      assert rest == "[" + rest[1..];
      ReadBracketsMeans(rest[1..]);
    } else {
      ReadPlainMeans(rest);
    }
  }

  /** An `https` URL that opens a bracket is refused exactly if no bracket closes it
      before a colon or at the end; anything else that is refused has no port. */
  lemma BadBracketsIff(rest: string)
    ensures ParseHostPort("https://" + rest) == Err(BadBrackets) <==>
            && "[" <= rest
            && !(exists i | 1 <= i < |rest| - 1 :: rest[i] == ']' && rest[i + 1] == ':')
            && rest[|rest| - 1] != ']'
  {
    AfterHttps(rest);
    if "[" <= rest {
      var inner := rest[1..];
      var close := CloseColon(inner);
      if close < |inner| {
        assert rest[close + 1] == ']' && rest[close + 1 + 1] == ':';
      } else {
        forall i | 1 <= i < |rest| - 1 ensures !(rest[i] == ']' && rest[i + 1] == ':') {
          assert inner[i - 1] == rest[i] && inner[i - 1 + 1] == rest[i + 1];
        }
      }
    }
  }
}
