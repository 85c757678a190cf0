/** Registry URLs: parsing and normalising, API URLs, and redirects that stay at the configured origin. */
module RegistryUrl {
  import opened Bytes
  import opened Wrappers
  import opened Decimal

  datatype Url = Url(scheme: bytes, host: bytes, port: nat, basePath: bytes, normalized: bytes)

  datatype UrlError =
    | Empty | Fragment | NoScheme | UnsupportedScheme | EmptyHost | Credentials | BadBracket | BadAuthority
    | UnbracketedIpv6 | BadPort | PlainHttp | Query | CrossOrigin

  const HASH: Byte := 0x23
  const SLASH: Byte := 0x2F
  const COLON: Byte := 0x3A
  const QUESTION: Byte := 0x3F
  const AT: Byte := 0x40
  const OPEN: Byte := 0x5B
  const CLOSE: Byte := 0x5D
  const AMPERSAND: Byte := 0x26
  const PERCENT: Byte := 0x25

  const MARK := [COLON, SLASH, SLASH]
  const HTTP := Ascii("http")
  const HTTPS := Ascii("https")
  const LOCALHOST := Ascii("localhost")
  const LOOPBACK := Ascii("127.0.0.1")
  const LOOPBACK6 := Ascii("[::1]")

  function LowerByte(c: Byte): Byte {
    if 0x41 <= c <= 0x5A then c - 0x41 + 0x61 else c
  }

  function Lower(s: bytes): (r: bytes)
    ensures |r| == |s| && forall i | 0 <= i < |s| :: r[i] == LowerByte(s[i])
  {
    if s == [] then [] else [LowerByte(s[0])] + Lower(s[1..])
  }

  /** The first position of a slash or a question mark, or the length. */
  function AuthorityLength(s: bytes): (n: nat)
    ensures n <= |s| && (n < |s| ==> s[n] == SLASH || s[n] == QUESTION)
    ensures forall i | 0 <= i < n :: s[i] != SLASH && s[i] != QUESTION
  {
    if s == [] || s[0] == SLASH || s[0] == QUESTION then 0 else 1 + AuthorityLength(s[1..])
  }

  /** The first position of "://". */
  function MarkIndex(s: bytes): (r: Option<nat>)
    ensures r.Some? ==> r.value + 3 <= |s| && s[r.value..r.value + 3] == MARK
  {
    if |s| < 3 then None
    else if s[..3] == MARK then Some(0)
    else
      match MarkIndex(s[1..])
      case None => None
      case Some(n) => assert s[1..][n..n + 3] == s[n + 1..n + 4]; Some(n + 1)
  }

  function StripSlashes(p: bytes): (r: bytes)
    ensures r <= p
  {
    if |p| > 1 && p[|p| - 1] == SLASH then StripSlashes(p[..|p| - 1]) else p
  }

  function DefaultPort(scheme: bytes): nat { if scheme == HTTPS then 443 else 80 }

  function OriginText(scheme: bytes, host: bytes, port: nat): bytes {
    scheme + MARK + host + (if port == DefaultPort(scheme) then [] else [COLON] + ToDecimal(port))
  }

  predicate LocalHost(host: bytes) { host == LOCALHOST || host == LOOPBACK || host == LOOPBACK6 }

  /** The host and the port text of an authority; no port text at all is None. */
  function SplitAuthority(a: bytes): Outcome<(bytes, Option<bytes>), UrlError>
    requires a != []
  {
    if a[0] == OPEN then
      var close := IndexOf(a, CLOSE);
      if close == |a| then Err(BadBracket)
      else if close + 1 == |a| then Ok((Lower(a), None))
      else if a[close + 1] != COLON then Err(BadAuthority)
      else Ok((Lower(a[..close + 1]), Some(a[close + 2..])))
    else
      var colon := IndexOf(a, COLON);
      if colon == |a| then Ok((Lower(a), None))
      else if COLON in a[colon + 1..] then Err(UnbracketedIpv6)
      else Ok((Lower(a[..colon]), Some(a[colon + 1..])))
  }

  function PortOf(text: Option<bytes>, scheme: bytes): Outcome<nat, UrlError> {
    if text.None? then Ok(DefaultPort(scheme))
    else if IsNumeral(text.value) && 1 <= FromDecimal(text.value) <= 65535 then Ok(FromDecimal(text.value))
    else Err(BadPort)
  }

  /** parse_registry_url */
  function UrlOf(text: bytes): Outcome<Url, UrlError> {
    if text == [] then Err(Empty)
    else if HASH in text then Err(Fragment)
    else
      match MarkIndex(text)
      case None => Err(NoScheme)
      case Some(mark) => AfterScheme(Lower(text[..mark]), text[mark + 3..])
  }

  function AfterScheme(scheme: bytes, rest: bytes): Outcome<Url, UrlError> {
    if scheme != HTTP && scheme != HTTPS then Err(UnsupportedScheme)
    else
      var n := AuthorityLength(rest);
      var authority, path := rest[..n], rest[n..];
      if authority == [] then Err(EmptyHost)
      else if AT in authority then Err(Credentials)
      else
        match SplitAuthority(authority)
        case Err(e) => Err(e)
        case Ok((host, portText)) =>
          if host == [] then Err(EmptyHost)
          else
            match PortOf(portText, scheme)
            case Err(e) => Err(e)
            case Ok(port) =>
              if scheme == HTTP && !LocalHost(host) then Err(PlainHttp)
              else if QUESTION in path then Err(Query)
              else Ok(Url(scheme, host, port, StripSlashes(path), OriginText(scheme, host, port) + StripSlashes(path)))
  }

  function SameOrigin(a: Url, b: Url): bool { a.scheme == b.scheme && a.host == b.host && a.port == b.port }

  // What a parsed URL looks like.

  predicate HostOk(host: bytes) {
    && host != [] && Lower(host) == host
    && SLASH !in host && QUESTION !in host && HASH !in host && AT !in host
    && (if host[0] == OPEN then IndexOf(host, CLOSE) == |host| - 1 else COLON !in host)
  }

  predicate OriginOk(scheme: bytes, host: bytes, port: nat) {
    && (scheme == HTTP || scheme == HTTPS) && HostOk(host) && 1 <= port <= 65535
    && (scheme == HTTP ==> LocalHost(host))
  }

  predicate PathStart(p: bytes) { p == [] || p[0] == SLASH }

  lemma LowerTwice(s: bytes)
    ensures Lower(Lower(s)) == Lower(s)
  {}

  lemma LowerKeeps(s: bytes, c: Byte)
    requires !(0x41 <= c <= 0x5A) && !(0x61 <= c <= 0x7A)
    ensures c in Lower(s) <==> c in s
    ensures IndexOf(Lower(s), c) == IndexOf(s, c)
  {
    var l := Lower(s);
    forall i | 0 <= i < |s| ensures l[i] == c <==> s[i] == c {}
    if c in s {
      var i :| 0 <= i < |s| && s[i] == c;
      assert l[i] == c;
    }
  }

  lemma SplitHostOk(a: bytes)
    requires a != [] && SplitAuthority(a).Ok? && SplitAuthority(a).value.0 != []
    requires SLASH !in a && QUESTION !in a && HASH !in a && AT !in a
    ensures HostOk(SplitAuthority(a).value.0)
  {
    var cut := if a[0] == OPEN then IndexOf(a, CLOSE) + 1 else IndexOf(a, COLON);
    var raw := a[..cut];
    assert a[..|a|] == a;
    assert SplitAuthority(a).value.0 == Lower(raw);
    LowerTwice(raw);
    LowerKeeps(raw, SLASH);
    LowerKeeps(raw, QUESTION);
    LowerKeeps(raw, HASH);
    LowerKeeps(raw, AT);
    LowerKeeps(raw, COLON);
    LowerKeeps(raw, CLOSE);
    LowerKeeps(raw, OPEN);
    assert raw[0] == a[0];
    assert Lower(raw)[0] == OPEN <==> raw[0] == OPEN;
  }

  lemma ParsedUrl(text: bytes)
    requires UrlOf(text).Ok?
    ensures var u := UrlOf(text).value;
            && OriginOk(u.scheme, u.host, u.port) && u.normalized == OriginText(u.scheme, u.host, u.port) + u.basePath
            && PathStart(u.basePath) && HASH !in u.basePath && QUESTION !in u.basePath && StripSlashes(u.basePath) == u.basePath
  {
    var mark := MarkIndex(text).value;
    assert HASH !in text[mark + 3..];
    ParsedAfterScheme(Lower(text[..mark]), text[mark + 3..]);
  }

  lemma ParsedAfterScheme(scheme: bytes, rest: bytes)
    requires AfterScheme(scheme, rest).Ok? && HASH !in rest
    ensures var u := AfterScheme(scheme, rest).value;
            && OriginOk(u.scheme, u.host, u.port) && u.normalized == OriginText(u.scheme, u.host, u.port) + u.basePath
            && PathStart(u.basePath) && HASH !in u.basePath && QUESTION !in u.basePath && StripSlashes(u.basePath) == u.basePath
  {
    var n := AuthorityLength(rest);
    SplitHostOk(rest[..n]);
    PathFacts(rest, n);
  }

  lemma PathFacts(rest: bytes, n: nat)
    requires n == AuthorityLength(rest) && HASH !in rest && QUESTION !in rest[n..]
    ensures var p := StripSlashes(rest[n..]); PathStart(p) && HASH !in p && QUESTION !in p && StripSlashes(p) == p
  {
    StripTwice(rest[n..]);
  }

  lemma {:induction false} StripTwice(p: bytes)
    ensures StripSlashes(StripSlashes(p)) == StripSlashes(p)
    ensures PathStart(p) ==> PathStart(StripSlashes(p))
    ensures forall c | c in StripSlashes(p) :: c in p
  {
    if |p| > 1 && p[|p| - 1] == SLASH { StripTwice(p[..|p| - 1]); }
  }

  // Parsing an origin with a path behind it.

  lemma MarkAfterScheme(scheme: bytes, rest: bytes)
    requires scheme == HTTP || scheme == HTTPS
    ensures MarkIndex(scheme + MARK + rest) == Some(|scheme|)
  {
    MarkAt(scheme, rest);
  }

  lemma {:induction false} MarkAt(before: bytes, rest: bytes)
    requires COLON !in before
    ensures MarkIndex(before + MARK + rest) == Some(|before|)
  {
    var s := before + MARK + rest;
    if before == [] {
      assert s[..3] == MARK;
    } else {
      assert s[0] == before[0] && s[..3][0] == s[0];
      assert s[1..] == before[1..] + MARK + rest;
      MarkAt(before[1..], rest);
    }
  }

  lemma {:induction false} AuthorityEnds(a: bytes, p: bytes)
    requires SLASH !in a && QUESTION !in a && (p == [] || p[0] == SLASH || p[0] == QUESTION)
    ensures AuthorityLength(a + p) == |a|
  {
    if a == [] {
      assert a + p == p;
    } else {
      assert (a + p)[1..] == a[1..] + p;
      AuthorityEnds(a[1..], p);
    }
  }

  function PortText(scheme: bytes, port: nat): bytes {
    if port == DefaultPort(scheme) then [] else [COLON] + ToDecimal(port)
  }

  lemma SplitOrigin(host: bytes, portText: bytes)
    requires HostOk(host) && (portText == [] || (portText[0] == COLON && IsNumeral(portText[1..])))
    ensures SplitAuthority(host + portText) == Ok((host, if portText == [] then None else Some(portText[1..])))
  {
    var a := host + portText;
    assert a[0] == host[0];
    if host[0] == OPEN {
      IndexOfPrefix(host, portText, CLOSE);
      var close := IndexOf(a, CLOSE);
      if portText != [] {
        assert a[..close + 1] == host && a[close + 2..] == portText[1..];
      } else {
        assert a == host;
      }
    } else {
      IndexOfBeyond(host, portText, COLON);
      var colon := IndexOf(a, COLON);
      if portText != [] {
        assert a[..colon] == host && a[colon + 1..] == portText[1..];
      } else {
        assert a == host;
      }
    }
  }

  lemma DigitsAreSafe(port: nat)
    ensures var d := ToDecimal(port); SLASH !in d && QUESTION !in d && HASH !in d && AT !in d
  {}

  /** A well-formed origin followed by a path parses back to that origin, with trailing slashes stripped. */
  lemma ParseOrigin(scheme: bytes, host: bytes, port: nat, p: bytes)
    requires OriginOk(scheme, host, port) && PathStart(p) && HASH !in p && QUESTION !in p
    ensures UrlOf(OriginText(scheme, host, port) + p) ==
            Ok(Url(scheme, host, port, StripSlashes(p), OriginText(scheme, host, port) + StripSlashes(p)))
  {
    var after := host + PortText(scheme, port) + p;
    OriginAndPath(scheme, host, port, p);
    NoFragment(scheme, host, port, p);
    MarkAfterScheme(scheme, after);
    SplitsAtMark(scheme, after);
    SchemeIsLower(scheme);
    AfterOrigin(scheme, host, port, p);
  }

  lemma OriginAndPath(scheme: bytes, host: bytes, port: nat, p: bytes)
    ensures OriginText(scheme, host, port) + p == scheme + MARK + (host + PortText(scheme, port) + p)
  {
    assert OriginText(scheme, host, port) == scheme + MARK + host + PortText(scheme, port);
  }

  lemma SplitsAtMark(scheme: bytes, rest: bytes)
    ensures var text := scheme + MARK + rest; text[..|scheme|] == scheme && text[|scheme| + 3..] == rest
  {
    assert |scheme + MARK| == |scheme| + 3;
  }

  lemma NoFragment(scheme: bytes, host: bytes, port: nat, p: bytes)
    requires OriginOk(scheme, host, port) && HASH !in p
    ensures HASH !in scheme + MARK + (host + PortText(scheme, port) + p)
  {
    DigitsAreSafe(port);
    assert HASH !in PortText(scheme, port);
    assert HASH !in HTTP && HASH !in HTTPS;
    assert HASH !in scheme;
  }

  lemma SchemeIsLower(scheme: bytes)
    requires scheme == HTTP || scheme == HTTPS
    ensures Lower(scheme) == scheme
  {
    AlreadyLower(scheme);
  }

  lemma AlreadyLower(s: bytes)
    requires forall i | 0 <= i < |s| :: !(0x41 <= s[i] <= 0x5A)
    ensures Lower(s) == s
  {}

  lemma PortParses(scheme: bytes, port: nat)
    requires 1 <= port <= 65535
    ensures var text := PortText(scheme, port);
            && (text == [] || (text[0] == COLON && IsNumeral(text[1..])))
            && PortOf(if text == [] then None else Some(text[1..]), scheme) == Ok(port)
  {
    DecimalInverse(port);
    var text := PortText(scheme, port);
    if text != [] { assert text[1..] == ToDecimal(port); }
  }

  lemma SafeAuthority(scheme: bytes, host: bytes, port: nat)
    requires HostOk(host)
    ensures var a := host + PortText(scheme, port); a != [] && SLASH !in a && QUESTION !in a && AT !in a
  {
    DigitsAreSafe(port);
  }

  lemma AfterOrigin(scheme: bytes, host: bytes, port: nat, p: bytes)
    requires OriginOk(scheme, host, port) && PathStart(p) && QUESTION !in p
    ensures AfterScheme(scheme, host + PortText(scheme, port) + p) ==
            Ok(Url(scheme, host, port, StripSlashes(p), OriginText(scheme, host, port) + StripSlashes(p)))
  {
    var portText := PortText(scheme, port);
    var authority := host + portText;
    SafeAuthority(scheme, host, port);
    AuthorityEnds(authority, p);
    assert (authority + p)[..|authority|] == authority && (authority + p)[|authority|..] == p;
    SplitOrigin(host, portText);
    PortParses(scheme, port);
  }

  /** Normalising is idempotent: the normalized text parses to the same URL. */
  lemma NormalizeIdempotent(text: bytes)
    requires UrlOf(text).Ok?
    ensures UrlOf(UrlOf(text).value.normalized) == UrlOf(text)
  {
    ParsedUrl(text);
    var u := UrlOf(text).value;
    ParseOrigin(u.scheme, u.host, u.port, u.basePath);
  }

  // What a registry URL is, said without the parser.

  const LOCAL_HOSTS := [Ascii("localhost"), Ascii("127.0.0.1"), Ascii("[::1]")]

  /** Capitals become small letters and every other byte stays. */
  lemma LowerExactly(c: Byte)
    ensures c in CAPITALS ==> LowerByte(c) == SMALLS[IndexOf(CAPITALS, c)]
    ensures c !in CAPITALS ==> LowerByte(c) == c
  {
    CharactersExactly(c);
    if c in CAPITALS {
      CapitalAt(c - 0x41);
      var n := IndexOf(CAPITALS, c);
      CapitalAt(n);
      SmallAt(n);
    }
  }

  /** Stripping leaves what stands before the run of slashes at the end, and one slash of a path of slashes alone. */
  lemma {:induction false} StripExactly(p: bytes)
    ensures var r := StripSlashes(p);
            && r <= p && (forall i | |r| <= i < |p| :: p[i] == 0x2F)
            && (r == [] <==> p == []) && (|r| > 1 ==> r[|r| - 1] != 0x2F)
  {
    if |p| > 1 && p[|p| - 1] == SLASH { StripExactly(p[..|p| - 1]); }
  }

  /** The parts of a URL as written: a host in brackets may hold colons, and a port is a number of sixteen bits. */
  datatype Written = Written(scheme: bytes, host: bytes, port: Option<bytes>, path: bytes)

  function Text(w: Written): bytes {
    w.scheme + MARK + (w.host + PortPart(w.port) + w.path)
  }

  function PortPart(port: Option<bytes>): bytes { if port.None? then [] else [COLON] + port.value }

  lemma SeparatorsExactly()
    ensures MARK == Ascii("://") && [COLON] == Ascii(":")
  {}

  predicate WrittenHost(host: bytes) {
    && host != [] && 0x2F !in host && 0x3F !in host && 0x40 !in host
    && (if host[0] == 0x5B then IndexOf(host, 0x5D) == |host| - 1 else 0x3A !in host)
  }

  predicate WrittenUrl(w: Written) {
    && Lower(w.scheme) in {Ascii("http"), Ascii("https")} && WrittenHost(w.host)
    && (w.port.Some? ==> IsNumeral(w.port.value) && 1 <= FromDecimal(w.port.value) <= 65535)
    && (Lower(w.scheme) == Ascii("http") ==> Lower(w.host) in LOCAL_HOSTS)
    && (w.path == [] || w.path[0] == 0x2F) && 0x3F !in w.path && 0x23 !in Text(w)
  }

  function WrittenPort(w: Written): nat
    requires WrittenUrl(w)
  {
    if w.port.Some? then FromDecimal(w.port.value) else if Lower(w.scheme) == Ascii("http") then 80 else 443
  }

  predicate UrlOfWritten(u: Url, w: Written)
    requires WrittenUrl(w)
  {
    && u.scheme == Lower(w.scheme) && u.host == Lower(w.host) && u.port == WrittenPort(w)
    && u.basePath == StripSlashes(w.path) && u.normalized == OriginText(u.scheme, u.host, u.port) + u.basePath
  }

  /** The origin names its port exactly when it is not that of its scheme. */
  lemma OriginExactly(host: bytes, port: nat)
    ensures OriginText(Ascii("http"), host, port) ==
            Ascii("http://") + host + (if port == 80 then [] else Ascii(":") + ToDecimal(port))
    ensures OriginText(Ascii("https"), host, port) ==
            Ascii("https://") + host + (if port == 443 then [] else Ascii(":") + ToDecimal(port))
  {
    SchemesDiffer();
    assert HTTP + MARK == Ascii("http://") && HTTPS + MARK == Ascii("https://") && [COLON] == Ascii(":");
  }

  lemma SchemesDiffer()
    ensures Ascii("http") != Ascii("https")
  {
    assert |Ascii("http")| != |Ascii("https")|;
  }

  predicate Marked(s: bytes, i: int) { 0 <= i && i + 3 <= |s| && s[i] == 0x3A && s[i + 1] == 0x2F && s[i + 2] == 0x2F }

  lemma MarkedIs(s: bytes)
    requires |s| >= 3
    ensures Marked(s, 0) <==> s[..3] == MARK
  {
    if Marked(s, 0) { assert s[..3] == MARK; }
    if s[..3] == MARK { assert s[..3][0] == s[0] && s[..3][1] == s[1] && s[..3][2] == s[2]; }
  }

  lemma MarkedShift(s: bytes, i: int)
    requires s != [] && 0 < i
    ensures Marked(s, i) <==> Marked(s[1..], i - 1)
  {}

  /** The mark found is the first one. */
  lemma {:induction false} FirstMark(s: bytes)
    ensures MarkIndex(s).Some? ==> Marked(s, MarkIndex(s).value) && forall i | i < MarkIndex(s).value :: !Marked(s, i)
    ensures MarkIndex(s).None? ==> forall i :: !Marked(s, i)
  {
    if |s| >= 3 {
      MarkedIs(s);
      if s[..3] != MARK {
        FirstMark(s[1..]);
        forall i | 0 < i ensures Marked(s, i) <==> Marked(s[1..], i - 1) { MarkedShift(s, i); }
      }
    }
  }

  lemma LocalExactly(host: bytes)
    ensures LocalHost(host) <==> host in LOCAL_HOSTS
  {
    if host in LOCAL_HOSTS {
      var i: nat :| i < 3 && LOCAL_HOSTS[i] == host;
      assert i == 0 || i == 1 || i == 2;
    }
    assert LOCAL_HOSTS[0] == LOCALHOST && LOCAL_HOSTS[1] == LOOPBACK && LOCAL_HOSTS[2] == LOOPBACK6;
  }

  lemma BracketedWritten(host: bytes, port: Option<bytes>)
    requires host != [] && host[0] == OPEN && IndexOf(host, CLOSE) == |host| - 1
    ensures SplitAuthority(host + PortPart(port)) == Ok((Lower(host), port))
  {
    if port.None? {
      assert host + PortPart(port) == host;
      BracketAlone(host);
    } else {
      BracketedPort(host, port.value);
    }
  }

  lemma BracketedPort(host: bytes, port: bytes)
    requires host != [] && host[0] == OPEN && IndexOf(host, CLOSE) == |host| - 1
    ensures SplitAuthority(host + PortPart(Some(port))) == Ok((Lower(host), Some(port)))
  {
    IndexOfPrefix(host, PortPart(Some(port)), CLOSE);
    PortBehind(host, port);
    BracketThenPort(host + PortPart(Some(port)), |host|);
  }

  lemma BracketAlone(a: bytes)
    requires a != [] && a[0] == OPEN && IndexOf(a, CLOSE) == |a| - 1
    ensures SplitAuthority(a) == Ok((Lower(a), None))
  {}

  lemma BracketThenPort(a: bytes, n: nat)
    requires n < |a| && a[0] == OPEN && IndexOf(a, CLOSE) + 1 == n && a[n] == COLON
    ensures SplitAuthority(a) == Ok((Lower(a[..n]), Some(a[n + 1..])))
  {}

  lemma PortBehind(host: bytes, port: bytes)
    requires host != []
    ensures var a := host + PortPart(Some(port)); |a| > |host| && a[..|host|] == host && a[0] == host[0] && a[|host|] == COLON && a[|host| + 1..] == port
  {
    Behind(host, COLON, port);
  }

  lemma Behind(a: bytes, c: Byte, b: bytes)
    ensures var s := a + ([c] + b); s[..|a|] == a && s[|a|] == c && s[|a| + 1..] == b
  {}

  lemma SplitWritten(host: bytes, port: Option<bytes>)
    requires WrittenHost(host) && (port.Some? ==> COLON !in port.value)
    ensures SplitAuthority(host + PortPart(port)) == Ok((Lower(host), port))
  {
    if host[0] == OPEN {
      BracketedWritten(host, port);
    } else {
      var a := host + PortPart(port);
      assert a[0] == host[0];
      IndexOfBeyond(host, PortPart(port), COLON);
      if port.Some? { assert a[..|host|] == host && a[|host| + 1..] == port.value; } else { assert a == host; }
    }
  }

  lemma SafeWritten(w: Written)
    requires WrittenUrl(w)
    ensures var a := w.host + PortPart(w.port); a != [] && SLASH !in a && QUESTION !in a && AT !in a
    ensures w.port.Some? ==> COLON !in w.port.value
  {}

  lemma NoColonInScheme(scheme: bytes)
    requires Lower(scheme) in {Ascii("http"), Ascii("https")}
    ensures COLON !in scheme
  {
    LowerKeeps(scheme, COLON);
    PlainScheme(Lower(scheme));
  }

  lemma PlainScheme(scheme: bytes)
    requires scheme == HTTP || scheme == HTTPS
    ensures COLON !in scheme
  {}

  /** Every text of that form is accepted as the URL it spells. */
  lemma UrlComplete(w: Written)
    requires WrittenUrl(w)
    ensures UrlOf(Text(w)).Ok? && UrlOfWritten(UrlOf(Text(w)).value, w)
  {
    var authority := w.host + PortPart(w.port);
    NoColonInScheme(w.scheme);
    MarkAt(w.scheme, authority + w.path);
    SplitsAtMark(w.scheme, authority + w.path);
    WrittenAfterScheme(w);
  }

  lemma WrittenAfterScheme(w: Written)
    requires WrittenUrl(w)
    ensures var r := AfterScheme(Lower(w.scheme), w.host + PortPart(w.port) + w.path); r.Ok? && UrlOfWritten(r.value, w)
  {
    var authority := w.host + PortPart(w.port);
    SafeWritten(w);
    AuthorityEnds(authority, w.path);
    assert (authority + w.path)[..|authority|] == authority && (authority + w.path)[|authority|..] == w.path;
    SplitWritten(w.host, w.port);
    LocalExactly(Lower(w.host));
    SchemesDiffer();
  }

  lemma AuthorityParts(a: bytes) returns (host: bytes, port: Option<bytes>)
    requires a != [] && SplitAuthority(a).Ok? && SplitAuthority(a).value.0 != []
    requires SLASH !in a && QUESTION !in a && AT !in a
    ensures a == host + PortPart(port) && WrittenHost(host) && SplitAuthority(a) == Ok((Lower(host), port))
  {
    var cut := if a[0] == OPEN then IndexOf(a, CLOSE) + 1 else IndexOf(a, COLON);
    host, port := a[..cut], SplitAuthority(a).value.1;
    assert a[..|a|] == a;
    assert host != [] by { assert Lower(host) == SplitAuthority(a).value.0; }
    HostWritten(a, cut);
    if port.Some? { Rejoined(a, cut); }
  }

  lemma HostWritten(a: bytes, cut: nat)
    requires 0 < cut <= |a| && cut == (if a[0] == OPEN then IndexOf(a, CLOSE) + 1 else IndexOf(a, COLON))
    requires SLASH !in a && QUESTION !in a && AT !in a
    ensures WrittenHost(a[..cut])
  {
    IndexWithin(a, a[..cut], CLOSE);
  }

  lemma Rejoined(a: bytes, cut: nat)
    requires cut < |a|
    ensures a == a[..cut] + ([a[cut]] + a[cut + 1..])
  {}

  lemma IndexWithin(a: bytes, host: bytes, c: Byte)
    requires host <= a
    ensures IndexOf(a, c) < |host| ==> IndexOf(host, c) == IndexOf(a, c)
  {
    assert IndexOf(a, c) < |host| ==> host[IndexOf(a, c)] == a[IndexOf(a, c)];
  }

  /** Every accepted text has that form. */
  lemma UrlSound(text: bytes) returns (w: Written)
    requires UrlOf(text).Ok?
    ensures Text(w) == text && WrittenUrl(w)
  {
    var mark := MarkIndex(text).value;
    var rest := text[mark + 3..];
    var host, port := RestParts(Lower(text[..mark]), rest);
    w := Written(text[..mark], host, port, rest[AuthorityLength(rest)..]);
    WholeText(text, mark, AuthorityLength(rest));
    RestSound(Lower(text[..mark]), rest, w);
  }

  lemma RestParts(scheme: bytes, rest: bytes) returns (host: bytes, port: Option<bytes>)
    requires AfterScheme(scheme, rest).Ok?
    ensures rest[..AuthorityLength(rest)] == host + PortPart(port) && rest[..AuthorityLength(rest)] != []
    ensures WrittenHost(host) && SplitAuthority(rest[..AuthorityLength(rest)]) == Ok((Lower(host), port))
  {
    host, port := AuthorityParts(rest[..AuthorityLength(rest)]);
  }

  lemma RestSound(scheme: bytes, rest: bytes, w: Written)
    requires AfterScheme(scheme, rest).Ok? && HASH !in Text(w) && Lower(w.scheme) == scheme && w.path == rest[AuthorityLength(rest)..]
    requires WrittenHost(w.host) && rest[..AuthorityLength(rest)] != []
    requires SplitAuthority(rest[..AuthorityLength(rest)]) == Ok((Lower(w.host), w.port))
    ensures WrittenUrl(w)
  {
    LocalExactly(Lower(w.host));
    SchemesDiffer();
  }

  lemma WholeText(text: bytes, mark: nat, n: nat)
    requires mark + 3 + n <= |text| && text[mark..mark + 3] == MARK
    ensures text == text[..mark] + MARK + (text[mark + 3..][..n] + text[mark + 3..][n..])
  {
    assert text[mark + 3..][..n] + text[mark + 3..][n..] == text[mark + 3..];
    assert text[..mark] + text[mark..mark + 3] == text[..mark + 3];
  }

  /** Exactly the texts of that form are accepted, each as the URL it spells. */
  lemma UrlExactly(text: bytes)
    ensures UrlOf(text).Ok? <==> exists w: Written :: Text(w) == text && WrittenUrl(w)
    ensures forall w: Written | Text(w) == text && WrittenUrl(w) :: UrlOf(text).Ok? && UrlOfWritten(UrlOf(text).value, w)
  {
    if UrlOf(text).Ok? { var w := UrlSound(text); }
    forall w: Written | Text(w) == text && WrittenUrl(w) ensures UrlOf(text).Ok? && UrlOfWritten(UrlOf(text).value, w) {
      UrlComplete(w);
    }
  }

  /** The first three refusals, in their order. */
  lemma RefusedFirst(text: bytes)
    ensures text == [] ==> UrlOf(text) == Err(Empty)
    ensures 0x23 in text ==> UrlOf(text) == Err(Fragment)
    ensures text != [] && 0x23 !in text && (forall i :: !Marked(text, i)) ==> UrlOf(text) == Err(NoScheme)
  {
    FirstMark(text);
  }

  /** URLs with well-formed origins have the same origin exactly when their normalized origins are the same text. */
  lemma SameOriginExactly(a: Url, b: Url)
    requires OriginOk(a.scheme, a.host, a.port) && OriginOk(b.scheme, b.host, b.port)
    ensures SameOrigin(a, b) <==> OriginText(a.scheme, a.host, a.port) == OriginText(b.scheme, b.host, b.port)
  {
    ParseOrigin(a.scheme, a.host, a.port, []);
    ParseOrigin(b.scheme, b.host, b.port, []);
    assert OriginText(a.scheme, a.host, a.port) + [] == OriginText(a.scheme, a.host, a.port);
    assert OriginText(b.scheme, b.host, b.port) + [] == OriginText(b.scheme, b.host, b.port);
  }
}
