/** The URLs a collection requests: percent-encoding, API URLs, redirects, and the in-place URL parser. */
module RegistryRequests {
  import opened Bytes
  import opened Wrappers
  import opened Decimal
  import opened RegistryUrl

  const API := Ascii("/v0.1/servers")
  const SINCE_KEY := Ascii("updated_since=")
  const CURSOR_KEY := Ascii("cursor=")

  // Percent-encoding.

  predicate Unreserved(c: Byte) {
    || 0x61 <= c <= 0x7A || 0x41 <= c <= 0x5A || 0x30 <= c <= 0x39
    || c == 0x2D || c == 0x2E || c == 0x5F || c == 0x7E
  }

  function UpperHex(v: nat): (c: Byte)
    requires v < 16
  {
    if v < 10 then 0x30 + v else 0x41 + v - 10
  }

  function HexValue(c: Byte): Option<nat> {
    if 0x30 <= c <= 0x39 then Some(c - 0x30) else if 0x41 <= c <= 0x46 then Some(c - 0x41 + 10) else None
  }

  function High(c: Byte): (v: nat) ensures v < 16 { c / 16 }
  function Low(c: Byte): (v: nat) ensures v < 16 { c % 16 }

  function EncodeByte(c: Byte): bytes {
    if Unreserved(c) then [c] else [PERCENT, UpperHex(High(c)), UpperHex(Low(c))]
  }

  function PercentEncode(s: bytes): bytes {
    if s == [] then [] else EncodeByte(s[0]) + PercentEncode(s[1..])
  }

  /** Reading percent-encoded text (section 2.1 of RFC 3986): only unreserved characters stand for themselves. */
  function PercentDecode(t: bytes): Option<bytes> {
    if t == [] then Some([])
    else if Unreserved(t[0]) then
      match PercentDecode(t[1..])
      case None => None
      case Some(rest) => Some([t[0]] + rest)
    else if t[0] == PERCENT && |t| >= 3 && HexValue(t[1]).Some? && HexValue(t[2]).Some? then
      match PercentDecode(t[3..])
      case None => None
      case Some(rest) => Some([Joined(HexValue(t[1]).value, HexValue(t[2]).value)] + rest)
    else None
  }

  function Joined(high: nat, low: nat): Byte { (16 * high + low) % 256 }

  const UPPER_HEX := Ascii("0123456789ABCDEF")

  lemma UpperHexAt(v: nat)
    requires v < 16
    ensures UPPER_HEX[v] == UpperHex(v)
  {}

  lemma UnreservedExactly(c: Byte)
    ensures Unreserved(c) <==> c in SMALLS || c in CAPITALS || c in DIGITS || c in Ascii("-._~")
  {
    CharactersExactly(c);
    var marks := Ascii("-._~");
    assert marks[0] == 0x2D && marks[1] == 0x2E && marks[2] == 0x5F && marks[3] == 0x7E;
  }

  /** The digits of percent-encoding are the sixteen with capital letters, each read as its place among them. */
  lemma HexValueExactly(c: Byte)
    ensures HexValue(c) == if c in UPPER_HEX then Some(IndexOf(UPPER_HEX, c)) else None
  {
    forall v: nat | v < 16 ensures UPPER_HEX[v] == UpperHex(v) { UpperHexAt(v); }
    if HexValue(c).Some? {
      assert UPPER_HEX[HexValue(c).value] == c;
      assert IndexOf(UPPER_HEX, c) < 16;
    }
  }

  /** Section 2.1 of RFC 3986: an unreserved character stands for itself, any other octet is "%" and two capital digits. */
  lemma EncodedExactly(c: Byte)
    ensures PercentEncode([c]) ==
            if c in SMALLS || c in CAPITALS || c in DIGITS || c in Ascii("-._~") then [c]
            else Ascii("%") + [UPPER_HEX[c / 16], UPPER_HEX[c % 16]]
  {
    UnreservedExactly(c);
    UpperHexAt(c / 16);
    UpperHexAt(c % 16);
    assert [c][1..] == [] && PercentEncode([c]) == EncodeByte(c) + PercentEncode([]);
  }

  lemma HexInverse(c: Byte)
    ensures HexValue(UpperHex(High(c))) == Some(High(c)) && HexValue(UpperHex(Low(c))) == Some(Low(c))
    ensures Joined(High(c), Low(c)) == c
    ensures forall v | 0 <= v < 16 :: Unreserved(UpperHex(v))
  {}

  lemma {:induction false} PercentInverse(s: bytes)
    ensures PercentDecode(PercentEncode(s)) == Some(s)
  {
    if s != [] {
      PercentInverse(s[1..]);
      HexInverse(s[0]);
      var t := PercentEncode(s);
      assert t[|EncodeByte(s[0])|..] == PercentEncode(s[1..]);
      assert s == [s[0]] + s[1..];
    }
  }

  /** Encoded text has nothing but unreserved characters and percent signs, so no separator of a URL. */
  lemma {:induction false} PercentSafe(s: bytes)
    ensures forall i | 0 <= i < |PercentEncode(s)| :: Unreserved(PercentEncode(s)[i]) || PercentEncode(s)[i] == PERCENT
    ensures AMPERSAND !in PercentEncode(s) && QUESTION !in PercentEncode(s) && HASH !in PercentEncode(s) && SLASH !in PercentEncode(s)
  {
    if s != [] {
      HexInverse(s[0]);
      PercentSafe(s[1..]);
    }
  }

  lemma {:induction false} PercentAppend(s: bytes, c: Byte)
    ensures PercentEncode(s + [c]) == PercentEncode(s) + EncodeByte(c)
  {
    if s == [] {
      assert s + [c] == [c];
      assert PercentEncode([c]) == EncodeByte(c) + PercentEncode([]);
    } else {
      assert (s + [c])[1..] == s[1..] + [c];
      PercentAppend(s[1..], c);
    }
  }

  method EncodePercent(value: bytes) returns (result: bytes)
    ensures result == PercentEncode(value)
  {
    result := [];
    for i := 0 to |value|
      invariant result == PercentEncode(value[..i])
    {
      var c := value[i];
      assert value[..i + 1] == value[..i] + [c];
      PercentAppend(value[..i], c);
      if Unreserved(c) {
        result := result + [c];
      } else {
        result := result + [PERCENT];
        result := result + [UpperHex(High(c))];
        result := result + [UpperHex(Low(c))];
      }
    }
    assert value[..|value|] == value;
  }

  // API URLs.

  function Field(separator: Byte, key: bytes, value: Option<bytes>): bytes {
    if value.None? then [] else [separator] + (key + PercentEncode(value.value))
  }

  function Query(cursor: Option<bytes>, since: Option<bytes>): bytes {
    Field(QUESTION, SINCE_KEY, since) + Field(if since.None? then QUESTION else AMPERSAND, CURSOR_KEY, cursor)
  }

  /** registry_api_url */
  function ApiUrl(base: Url, cursor: Option<bytes>, since: Option<bytes>): bytes {
    base.normalized + API + Query(cursor, since)
  }

  lemma Regroup(a: bytes, b: bytes, c: bytes)
    ensures a + b + c == a + (b + c)
  {}

  method MakeApiUrl(base: Url, cursor: Option<bytes>, since: Option<bytes>) returns (result: bytes)
    ensures result == ApiUrl(base, cursor, since)
  {
    result := base.normalized;
    result := result + API;
    var separator := QUESTION;
    if since.Some? {
      var encoded := EncodePercent(since.value);
      result := result + [separator];
      result := result + (SINCE_KEY + encoded);
      separator := AMPERSAND;
    }
    assert result == base.normalized + API + Field(QUESTION, SINCE_KEY, since);
    if cursor.Some? {
      var encoded := EncodePercent(cursor.value);
      result := result + [separator];
      result := result + (CURSOR_KEY + encoded);
    }
    Regroup(base.normalized + API, Field(QUESTION, SINCE_KEY, since), Field(separator, CURSOR_KEY, cursor));
  }

  /** The path behind the base URL, then the update time, then the cursor, each percent-encoded. */
  lemma ApiUrlExactly(base: Url, cursor: bytes, since: bytes)
    ensures var path := base.normalized + Ascii("/v0.1/servers");
            && ApiUrl(base, None, None) == path
            && ApiUrl(base, Some(cursor), None) == path + Ascii("?cursor=") + PercentEncode(cursor)
            && ApiUrl(base, None, Some(since)) == path + Ascii("?updated_since=") + PercentEncode(since)
            && ApiUrl(base, Some(cursor), Some(since)) ==
               path + Ascii("?updated_since=") + PercentEncode(since) + Ascii("&cursor=") + PercentEncode(cursor)
  {
    var path := base.normalized + API;
    FieldNames();
    FieldExactly(path, QUESTION, CURSOR_KEY, cursor);
    FieldExactly(path, QUESTION, SINCE_KEY, since);
    FieldExactly(path + Field(QUESTION, SINCE_KEY, Some(since)), AMPERSAND, CURSOR_KEY, cursor);
    Regroup(path, Field(QUESTION, SINCE_KEY, Some(since)), Field(AMPERSAND, CURSOR_KEY, Some(cursor)));
    assert path + [] + [] == path;
    assert Query(Some(cursor), None) == Field(QUESTION, CURSOR_KEY, Some(cursor));
    assert Query(None, Some(since)) == Field(QUESTION, SINCE_KEY, Some(since));
    assert Query(None, None) == [];
  }

  lemma FieldNames()
    ensures API == Ascii("/v0.1/servers")
    ensures [QUESTION] + CURSOR_KEY == Ascii("?cursor=") && [AMPERSAND] + CURSOR_KEY == Ascii("&cursor=")
    ensures [QUESTION] + SINCE_KEY == Ascii("?updated_since=")
  {}

  lemma FieldExactly(before: bytes, separator: Byte, key: bytes, value: bytes)
    ensures before + Field(separator, key, Some(value)) == before + ([separator] + key) + PercentEncode(value)
  {}

  /** What a server reads back from a query: the cursor and the update time. */
  function ReadQuery(q: bytes): (Option<bytes>, Option<bytes>) {
    if q == [] then (None, None)
    else if CURSOR_KEY <= q[1..] then (PercentDecode(q[1..][|CURSOR_KEY|..]), None)
    else if SINCE_KEY <= q[1..] then ReadSince(q[1..][|SINCE_KEY|..])
    else (None, None)
  }

  function ReadSince(t: bytes): (Option<bytes>, Option<bytes>) {
    var n := IndexOf(t, AMPERSAND);
    var since := PercentDecode(t[..n]);
    if n < |t| && CURSOR_KEY <= t[n + 1..] then (PercentDecode(t[n + 1..][|CURSOR_KEY|..]), since) else (None, since)
  }

  lemma ReadSinceInverse(s: bytes, cursor: Option<bytes>)
    ensures ReadSince(PercentEncode(s) + Field(AMPERSAND, CURSOR_KEY, cursor)) ==
            (cursor, Some(s))
  {
    var e := PercentEncode(s);
    var tail := Field(AMPERSAND, CURSOR_KEY, cursor);
    var t := e + tail;
    PercentInverse(s);
    PercentSafe(s);
    IndexOfBeyond(e, tail, AMPERSAND);
    assert IndexOf(t, AMPERSAND) == |e| && t[..|e|] == e;
    if cursor.Some? {
      PercentInverse(cursor.value);
      assert t[|e| + 1..] == CURSOR_KEY + PercentEncode(cursor.value);
    }
  }

  lemma QueryInverse(cursor: Option<bytes>, since: Option<bytes>)
    ensures ReadQuery(Query(cursor, since)) == (cursor, since)
  {
    if since.Some? {
      SinceInverse(cursor, since.value);
    } else if cursor.Some? {
      CursorInverse(cursor.value);
    }
  }

  lemma CursorInverse(cursor: bytes)
    ensures ReadQuery(Query(Some(cursor), None)) == (Some(cursor), None)
  {
    var q := Query(Some(cursor), None);
    assert q[1..] == CURSOR_KEY + PercentEncode(cursor);
    PercentInverse(cursor);
  }

  lemma SinceInverse(cursor: Option<bytes>, since: bytes)
    ensures ReadQuery(Query(cursor, Some(since))) == (cursor, Some(since))
  {
    var q := Query(cursor, Some(since));
    var t := PercentEncode(since) + Field(AMPERSAND, CURSOR_KEY, cursor);
    Regroup(SINCE_KEY, PercentEncode(since), Field(AMPERSAND, CURSOR_KEY, cursor));
    assert q[1..] == SINCE_KEY + t;
    ReadSinceInverse(since, cursor);
    KeysDiffer(t);
    SinceTail(t);
  }

  lemma SinceTail(t: bytes)
    ensures (SINCE_KEY + t)[|SINCE_KEY|..] == t
  {}

  lemma KeysDiffer(t: bytes)
    ensures SINCE_KEY <= SINCE_KEY + t && !(CURSOR_KEY <= SINCE_KEY + t)
  {
    assert SINCE_KEY[0] != CURSOR_KEY[0];
    assert (SINCE_KEY + t)[0] == SINCE_KEY[0];
  }

  /** Different cursors or update times never share a URL. */
  lemma ApiUrlInjective(base: Url, c1: Option<bytes>, s1: Option<bytes>, c2: Option<bytes>, s2: Option<bytes>)
    ensures ApiUrl(base, c1, s1) == ApiUrl(base, c2, s2) <==> c1 == c2 && s1 == s2
  {
    var prefix := base.normalized + API;
    assert ApiUrl(base, c1, s1)[|prefix|..] == Query(c1, s1);
    assert ApiUrl(base, c2, s2)[|prefix|..] == Query(c2, s2);
    QueryInverse(c1, s1);
    QueryInverse(c2, s2);
  }

  // Requests and redirects.

  /** The URL of a request: what stands before the query. */
  function Target(request: bytes): Outcome<Url, UrlError> { UrlOf(request[..IndexOf(request, QUESTION)]) }

  predicate AtOrigin(origin: Url, request: bytes) {
    Target(request).Ok? && SameOrigin(origin, Target(request).value)
  }

  function AfterLastSlash(p: bytes): (n: nat)
    ensures n <= |p|
  {
    if p == [] then 0 else if p[|p| - 1] == SLASH then |p| else AfterLastSlash(p[..|p| - 1])
  }

  predicate Absolute(location: bytes) { HTTP + MARK <= location || HTTPS + MARK <= location }

  function RedirectPath(current: Url, location: bytes): (p: bytes)
    ensures p != [] && p[0] == SLASH
  {
    var path :=
      if location != [] && location[0] == SLASH then location
      else current.basePath[..AfterLastSlash(current.basePath)] + location;
    if path == [] || path[0] != SLASH then [SLASH] + path else path
  }

  /** resolve_redirect */
  function Resolve(origin: Url, current: bytes, location: bytes): Outcome<bytes, UrlError> {
    if Absolute(location) then
      if HASH in location then Err(Fragment)
      else
        match Target(location)
        case Err(e) => Err(e)
        case Ok(target) => if SameOrigin(origin, target) then Ok(location) else Err(CrossOrigin)
    else
      match Target(current)
      case Err(e) => Err(e)
      case Ok(url) =>
        match UrlOf(OriginText(origin.scheme, origin.host, origin.port) + RedirectPath(url, location))
        case Err(e) => Err(e)
        case Ok(next) => Ok(next.normalized)
  }

  // What resolving gives.

  /** The first n octets of the path reach up to its last slash. */
  lemma {:induction false} AfterLastSlashExactly(p: bytes)
    ensures var n := AfterLastSlash(p); (n > 0 ==> p[n - 1] == 0x2F) && forall i | n <= i < |p| :: p[i] != 0x2F
  {
    if p != [] && p[|p| - 1] != SLASH { AfterLastSlashExactly(p[..|p| - 1]); }
  }

  lemma AbsoluteExactly(location: bytes)
    ensures Absolute(location) <==> Ascii("http://") <= location || Ascii("https://") <= location
  {
    assert HTTP + MARK == Ascii("http://") && HTTPS + MARK == Ascii("https://");
  }

  /** A path from the root is taken as it is; another stands in the directory of the current path. */
  lemma RedirectPathExactly(u: Url, location: bytes, directory: bytes, file: bytes)
    requires u.basePath == directory + file && 0x2F !in file && (directory == [] || (directory[0] == directory[|directory| - 1] == 0x2F))
    ensures RedirectPath(u, location) ==
            if location != [] && location[0] == 0x2F then location
            else if directory == [] then Ascii("/") + location
            else directory + location
  {
    AfterLastSlashExactly(u.basePath);
    DirectoryOf(directory, file, AfterLastSlash(u.basePath));
    assert Ascii("/") == [SLASH];
  }

  lemma DirectoryOf(directory: bytes, file: bytes, n: nat)
    requires n <= |directory + file| && (n > 0 ==> (directory + file)[n - 1] == SLASH)
    requires forall i | n <= i < |directory + file| :: (directory + file)[i] != SLASH
    requires SLASH !in file && (directory == [] || directory[|directory| - 1] == SLASH)
    ensures n == |directory| && (directory + file)[..n] == directory
  {
    var p := directory + file;
    forall i: nat | i < |file| ensures p[|directory| + i] == file[i] {}
    assert directory != [] ==> p[|directory| - 1] == directory[|directory| - 1];
  }

  /** An absolute location is answered as it stands, exactly when it has no fragment and is at the origin. */
  lemma AbsoluteResolved(origin: Url, current: bytes, location: bytes)
    requires Absolute(location)
    ensures Resolve(origin, current, location).Ok? <==> 0x23 !in location && AtOrigin(origin, location)
    ensures Resolve(origin, current, location).Ok? ==> Resolve(origin, current, location).value == location
  {}

  /** A relative location is answered as its path behind the origin, without slashes at the end. */
  lemma RelativeResolved(origin: Url, current: bytes, location: bytes)
    requires OriginOk(origin.scheme, origin.host, origin.port) && AtOrigin(origin, current)
    requires !Absolute(location) && HASH !in location && QUESTION !in location
    ensures Resolve(origin, current, location) ==
            Ok(OriginText(origin.scheme, origin.host, origin.port) + StripSlashes(RedirectPath(Target(current).value, location)))
  {
    var url := Target(current).value;
    ParsedUrl(current[..IndexOf(current, QUESTION)]);
    PathMarks(url, location);
    ParseOrigin(origin.scheme, origin.host, origin.port, RedirectPath(url, location));
  }

  /** The requests of one page fetch: the API URL, then each redirect resolved against the request before it. */
  ghost predicate RedirectChain(origin: Url, first: bytes, locations: seq<bytes>, requests: seq<bytes>) {
    && |requests| == |locations| + 1 && requests[0] == first
    && forall i | 0 <= i < |locations| :: Resolve(origin, requests[i], locations[i]) == Ok(requests[i + 1])
  }

  lemma BeforeQuery(p: bytes, query: bytes)
    requires QUESTION !in p && (query == [] || query[0] == QUESTION)
    ensures (p + query)[..IndexOf(p + query, QUESTION)] == p
  {
    IndexOfBeyond(p, query, QUESTION);
  }

  lemma SchemeHasNoQuery(scheme: bytes)
    requires scheme == HTTP || scheme == HTTPS
    ensures QUESTION !in scheme && QUESTION !in MARK
  {
    assert QUESTION !in HTTP && QUESTION !in HTTPS;
  }

  /** What parse_registry_url returns: see RegistryUrl.ParsedUrl. */
  predicate Parsed(u: Url) {
    && OriginOk(u.scheme, u.host, u.port) && u.normalized == OriginText(u.scheme, u.host, u.port) + u.basePath
    && PathStart(u.basePath) && HASH !in u.basePath && QUESTION !in u.basePath
  }

  lemma OriginHasNoQuery(scheme: bytes, host: bytes, port: nat)
    requires OriginOk(scheme, host, port)
    ensures QUESTION !in OriginText(scheme, host, port)
  {
    DigitsAreSafe(port);
    SchemeHasNoQuery(scheme);
    MarkInTail(scheme, MARK);
    MarkInTail(scheme + MARK, host);
    MarkInTail(scheme + MARK + host, PortText(scheme, port));
    MarkInTail([COLON], ToDecimal(port));
  }

  lemma ApiPath(u: Url)
    requires PathStart(u.basePath) && HASH !in u.basePath && QUESTION !in u.basePath
    ensures PathStart(u.basePath + API) && HASH !in u.basePath + API && QUESTION !in u.basePath + API
  {}

  lemma ApiUrlAtOrigin(u: Url, cursor: Option<bytes>, since: Option<bytes>)
    requires Parsed(u)
    ensures AtOrigin(u, ApiUrl(u, cursor, since))
  {
    var before := u.normalized + API;
    ApiPath(u);
    OriginHasNoQuery(u.scheme, u.host, u.port);
    Regroup(OriginText(u.scheme, u.host, u.port), u.basePath, API);
    MarkInTail(OriginText(u.scheme, u.host, u.port), u.basePath + API);
    BeforeQuery(before, Query(cursor, since));
    ParseOrigin(u.scheme, u.host, u.port, u.basePath + API);
  }

  /** A resolved redirect is at the origin; a relative one is refused exactly when its path has a fragment or a query. */
  lemma ResolveAtOrigin(origin: Url, current: bytes, location: bytes)
    requires OriginOk(origin.scheme, origin.host, origin.port)
    requires AtOrigin(origin, current)
    ensures Resolve(origin, current, location).Ok? ==> AtOrigin(origin, Resolve(origin, current, location).value)
    ensures !Absolute(location) ==>
              (Resolve(origin, current, location).Ok? <==> HASH !in location && QUESTION !in location)
  {
    if Absolute(location) { AbsoluteAtOrigin(origin, current, location); } else { RelativeAtOrigin(origin, current, location); }
  }

  lemma AbsoluteAtOrigin(origin: Url, current: bytes, location: bytes)
    requires AtOrigin(origin, current) && Absolute(location)
    ensures Resolve(origin, current, location).Ok? ==> AtOrigin(origin, Resolve(origin, current, location).value)
  {}

  lemma RelativeAtOrigin(origin: Url, current: bytes, location: bytes)
    requires OriginOk(origin.scheme, origin.host, origin.port)
    requires AtOrigin(origin, current) && !Absolute(location)
    ensures Resolve(origin, current, location).Ok? ==> AtOrigin(origin, Resolve(origin, current, location).value)
    ensures Resolve(origin, current, location).Ok? <==> HASH !in location && QUESTION !in location
  {
    var url := Target(current).value;
    ParsedUrl(current[..IndexOf(current, QUESTION)]);
    var path := RedirectPath(url, location);
    PathMarks(url, location);
    if HASH in location || QUESTION in location {
      RefusedPath(origin, path);
    } else {
      ParseOrigin(origin.scheme, origin.host, origin.port, path);
      StripTwice(path);
      AtNormalized(origin, StripSlashes(path));
    }
  }

  lemma PathMarks(url: Url, location: bytes)
    requires HASH !in url.basePath && QUESTION !in url.basePath
    ensures HASH in RedirectPath(url, location) <==> HASH in location
    ensures QUESTION in RedirectPath(url, location) <==> QUESTION in location
  {
    var kept := url.basePath[..AfterLastSlash(url.basePath)];
    assert HASH !in kept && QUESTION !in kept;
    MarkInTail(kept, location);
    MarkInTail([SLASH], location);
    MarkInTail([SLASH], kept + location);
  }

  lemma MarkInTail(a: bytes, b: bytes)
    ensures HASH in a + b <==> HASH in a || HASH in b
    ensures QUESTION in a + b <==> QUESTION in a || QUESTION in b
  {}

  lemma AtNormalized(origin: Url, p: bytes)
    requires OriginOk(origin.scheme, origin.host, origin.port)
    requires PathStart(p) && HASH !in p && QUESTION !in p
    ensures AtOrigin(origin, OriginText(origin.scheme, origin.host, origin.port) + p)
  {
    var o := OriginText(origin.scheme, origin.host, origin.port);
    OriginHasNoQuery(origin.scheme, origin.host, origin.port);
    BeforeQuery(o + p, []);
    assert o + p + [] == o + p;
    ParseOrigin(origin.scheme, origin.host, origin.port, p);
  }

  lemma RefusedPath(origin: Url, p: bytes)
    requires OriginOk(origin.scheme, origin.host, origin.port) && p != [] && p[0] == SLASH
    requires HASH in p || QUESTION in p
    ensures UrlOf(OriginText(origin.scheme, origin.host, origin.port) + p).Err?
  {
    var o := OriginText(origin.scheme, origin.host, origin.port);
    if HASH in p {
      MarkInTail(o, p);
      assert UrlOf(o + p).Err?;
    } else {
      OriginAndPath(origin.scheme, origin.host, origin.port, p);
      QueryAfterOrigin(origin.scheme, origin.host, origin.port, p);
    }
  }

  lemma QueryAfterOrigin(scheme: bytes, host: bytes, port: nat, p: bytes)
    requires OriginOk(scheme, host, port) && p != [] && p[0] == SLASH && QUESTION in p
    ensures UrlOf(scheme + MARK + (host + PortText(scheme, port) + p)).Err?
  {
    var after := host + PortText(scheme, port) + p;
    MarkAfterScheme(scheme, after);
    SplitsAtMark(scheme, after);
    SafeAuthority(scheme, host, port);
    AuthorityEnds(host + PortText(scheme, port), p);
    QueryRefused(Lower(scheme), host + PortText(scheme, port), p);
  }

  lemma QueryRefused(scheme: bytes, authority: bytes, p: bytes)
    requires QUESTION in p && AuthorityLength(authority + p) == |authority|
    ensures AfterScheme(scheme, authority + p).Err?
  {
    assert (authority + p)[|authority|..] == p;
  }

  ghost predicate Steps(resolve: (bytes, bytes) -> Outcome<bytes, UrlError>, locations: seq<bytes>, requests: seq<bytes>) {
    |requests| == |locations| + 1 && forall i | 0 <= i < |locations| :: resolve(requests[i], locations[i]) == Ok(requests[i + 1])
  }

  lemma {:induction false} ChainKeeps(at: bytes -> bool, resolve: (bytes, bytes) -> Outcome<bytes, UrlError>, locations: seq<bytes>, requests: seq<bytes>, k: nat)
    requires Steps(resolve, locations, requests) && k < |requests| && at(requests[0])
    requires forall c, l | at(c) && resolve(c, l).Ok? :: at(resolve(c, l).value)
    ensures at(requests[k])
  {
    if k > 0 {
      ChainKeeps(at, resolve, locations, requests, k - 1);
      assert resolve(requests[k - 1], locations[k - 1]) == Ok(requests[k - 1 + 1]);
    }
  }

  /** Every URL requested along any chain of redirects parses to the configured origin. */
  lemma ChainAtOrigin(text: bytes, cursor: Option<bytes>, since: Option<bytes>, locations: seq<bytes>, requests: seq<bytes>)
    requires UrlOf(text).Ok?
    requires RedirectChain(UrlOf(text).value, ApiUrl(UrlOf(text).value, cursor, since), locations, requests)
    ensures forall request | request in requests :: AtOrigin(UrlOf(text).value, request)
  {
    var u := UrlOf(text).value;
    assert Parsed(u) by { ParsedUrl(text); }
    ApiUrlAtOrigin(u, cursor, since);
    var at := request => AtOrigin(u, request);
    var resolve := (current, location) => Resolve(u, current, location);
    forall c, l | at(c) && resolve(c, l).Ok? ensures at(resolve(c, l).value) { ResolveAtOrigin(u, c, l); }
    forall request | request in requests ensures at(request) {
      var k: nat :| k < |requests| && requests[k] == request;
      ChainKeeps(at, resolve, locations, requests, k);
    }
  }

  // The parser as the program runs it, with its two loops.

  method LowerAscii(input: bytes) returns (result: bytes)
    ensures result == Lower(input)
  {
    result := input;
    for i := 0 to |result|
      invariant |result| == |input|
      invariant forall k | 0 <= k < i :: result[k] == LowerByte(input[k])
      invariant forall k | i <= k < |input| :: result[k] == input[k]
    {
      if 0x41 <= result[i] <= 0x5A { result := result[i := result[i] - 0x41 + 0x61]; }
    }
  }

  method DropTrailingSlashes(path: bytes) returns (result: bytes)
    ensures result == StripSlashes(path)
  {
    result := path;
    while |result| > 1 && result[|result| - 1] == SLASH
      invariant StripSlashes(result) == StripSlashes(path)
      decreases |result|
    {
      result := result[..|result| - 1];
    }
  }

  method ParseAuthority(authority: bytes) returns (r: Outcome<(bytes, Option<bytes>), UrlError>)
    requires authority != []
    ensures r == SplitAuthority(authority)
  {
    if authority[0] == OPEN {
      var close := IndexOf(authority, CLOSE);
      if close == |authority| { return Err(BadBracket); }
      var host := LowerAscii(authority[..close + 1]);
      if close + 1 < |authority| {
        if authority[close + 1] != COLON { return Err(BadAuthority); }
        return Ok((host, Some(authority[close + 2..])));
      }
      assert authority[..close + 1] == authority;
      return Ok((host, None));
    }
    var colon := IndexOf(authority, COLON);
    if colon == |authority| {
      var host := LowerAscii(authority);
      return Ok((host, None));
    }
    if COLON in authority[colon + 1..] { return Err(UnbracketedIpv6); }
    var host := LowerAscii(authority[..colon]);
    return Ok((host, Some(authority[colon + 1..])));
  }

  method ParseRegistryUrl(text: bytes) returns (r: Outcome<Url, UrlError>)
    ensures r == UrlOf(text)
  {
    if text == [] { return Err(Empty); }
    if HASH in text { return Err(Fragment); }
    var mark := MarkIndex(text);
    if mark.None? { return Err(NoScheme); }
    var scheme := LowerAscii(text[..mark.value]);
    if scheme != HTTP && scheme != HTTPS { return Err(UnsupportedScheme); }
    var rest := text[mark.value + 3..];
    var end := AuthorityLength(rest);
    if end == 0 { return Err(EmptyHost); }
    var authority := rest[..end];
    if AT in authority { return Err(Credentials); }
    var split := ParseAuthority(authority);
    if split.Err? { return Err(split.error); }
    var host := split.value.0;
    if host == [] { return Err(EmptyHost); }
    var port := PortOf(split.value.1, scheme);
    if port.Err? { return Err(port.error); }
    if scheme == HTTP && !LocalHost(host) { return Err(PlainHttp); }
    if QUESTION in rest[end..] { return Err(RegistryUrl.UrlError.Query); }
    var path := DropTrailingSlashes(rest[end..]);
    var normalized := scheme + MARK + host;
    if port.value != DefaultPort(scheme) { normalized := normalized + ([COLON] + ToDecimal(port.value)); }
    assert normalized == OriginText(scheme, host, port.value);
    return Ok(Url(scheme, host, port.value, path, normalized + path));
  }
}
