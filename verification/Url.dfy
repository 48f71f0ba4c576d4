/**
  HTTP URLs: parsing, printing and normalisation. `None` stands for the single
  error kind InvalidUrl; recognition of IPv6 text is a parameter.
 */
module Url {
  import opened Text
  import opened Numerals
  import opened Percent
  import opened DotSegments

  datatype Scheme = Http | Https

  datatype HttpUrl = HttpUrl(
    scheme: Scheme, userinfo: Option<string>, host: string, port: Option<nat>,
    path: string, query: Option<string>, fragment: Option<string>)

  /** What is assumed of the IPv6 recogniser: its addresses contain a colon, and letter case does not matter. */
  ghost predicate IsIpRecognizer(ip: string -> bool) {
    forall h: string :: ip(h) ==> ':' in h && ip(Lower(h))
  }

  predicate IsForbidden(c: char) {
    c <= ' ' || c == '\U{7F}' || c == '\\'
  }

  predicate NoForbidden(s: string) {
    forall i :: 0 <= i < |s| ==> !IsForbidden(s[i])
  }

  predicate IsSubDelim(c: char) {
    c in "!$&'()*+,;="
  }

  predicate ValidUserinfo(s: string) {
    forall i :: 0 <= i < |s| ==> IsUnreserved(s[i]) || IsSubDelim(s[i]) || s[i] == ':' || s[i] == '@' || s[i] == '%'
  }

  predicate ValidRegName(s: string) {
    s != "" && forall i :: 0 <= i < |s| ==>
      'a' <= s[i] <= 'z' || 'A' <= s[i] <= 'Z' || '0' <= s[i] <= '9' || s[i] == '.' || s[i] == '-' || s[i] == '_'
  }

  function Lower(s: string): (r: string)
    ensures |r| == |s|
    ensures forall i :: 0 <= i < |s| ==> r[i] == AsciiLower(s[i])
  {
    if s == "" then "" else [AsciiLower(s[0])] + Lower(s[1..])
  }

  // -------------------------------------------------------------------------- searching

  predicate SeparatorAt(s: string, i: nat) {
    i + 3 <= |s| && s[i] == ':' && s[i + 1] == '/' && s[i + 2] == '/'
  }

  /** The position of the first `://`, or `|s|`. */
  function FindSeparator(s: string): (i: nat)
    ensures i <= |s|
    ensures i < |s| ==> SeparatorAt(s, i)
    ensures forall j :: 0 <= j < i ==> !SeparatorAt(s, j)
  {
    if s == "" then 0
    else if SeparatorAt(s, 0) then 0
    else
      var k := FindSeparator(s[1..]);
      assert k < |s| - 1 ==> SeparatorAt(s[1..], k);
      assert forall j :: 0 < j < k + 1 ==> SeparatorAt(s, j) ==> SeparatorAt(s[1..], j - 1);
      k + 1
  }

  predicate StartsTarget(c: char) {
    c == '/' || c == '?' || c == '#'
  }

  /** The length of the authority at the start of `s`. */
  function AuthorityLength(s: string): (i: nat)
    ensures i <= |s|
    ensures i < |s| ==> StartsTarget(s[i])
    ensures forall j :: 0 <= j < i ==> !StartsTarget(s[j])
  {
    if s == "" || StartsTarget(s[0]) then 0 else 1 + AuthorityLength(s[1..])
  }

  /** The position of the last `c` in `s`, or `|s|`. */
  function LastIndexOf(s: string, c: char): (i: nat)
    ensures i <= |s|
    ensures i < |s| ==> s[i] == c && c !in s[i + 1..]
    ensures i == |s| ==> c !in s
  {
    if c !in s then |s|
    else if s[|s| - 1] == c then |s| - 1
    else
      var front := s[..|s| - 1];
      assert s == front + [s[|s| - 1]];
      var i := LastIndexOf(front, c);
      assert s[i + 1..] == front[i + 1..] + [s[|s| - 1]];
      i
  }

  // ---------------------------------------------------------------------------- parsing

  function ParsePort(s: string): Option<nat> {
    if s != "" && AllDigits(s, 10) && 1 <= Value(s, 10) <= 65535 then Some(Value(s, 10)) else None
  }

  datatype HostPort = HostPort(host: string, port: Option<nat>)

  function WithPort(host: string, suffix: string): Option<HostPort> {
    if suffix == "" then Some(HostPort(host, None))
    else if suffix[0] != ':' then None
    else
      match ParsePort(suffix[1..])
      case None => None
      case Some(p) => Some(HostPort(host, Some(p)))
  }

  function ParseHostPort(s: string, ip: string -> bool): Option<HostPort> {
    if s == "" then None
    else if s[0] == '[' then
      var closing := IndexOf(s, ']');
      if closing == |s| || closing == 1 || !ip(s[1..closing]) then None
      else WithPort(s[1..closing], s[closing + 1..])
    else if '[' in s || ']' in s then None
    else
      var colon := IndexOf(s, ':');
      if colon < |s| && ':' in s[colon + 1..] then None
      else if !ValidRegName(s[..colon]) then None
      else WithPort(s[..colon], s[colon..])
  }

  datatype Authority = Authority(userinfo: Option<string>, hostPort: HostPort)

  function ParseAuthority(s: string, ip: string -> bool): Option<Authority> {
    if s == "" then None
    else
      var at := LastIndexOf(s, '@');
      if at == |s| then
        match ParseHostPort(s, ip)
        case None => None
        case Some(h) => Some(Authority(None, h))
      else if !ValidUserinfo(s[..at]) || !ValidPercent(s[..at]) then None
      else
        match ParseHostPort(s[at + 1..], ip)
        case None => None
        case Some(h) => Some(Authority(Some(s[..at]), h))
  }

  datatype Target = Target(path: string, query: Option<string>, fragment: Option<string>)

  function SplitTarget(rest: string): Target {
    var hash := IndexOf(rest, '#');
    var fragment := if hash < |rest| then Some(rest[hash + 1..]) else None;
    var message := rest[..hash];
    var mark := IndexOf(message, '?');
    var query := if mark < |message| then Some(message[mark + 1..]) else None;
    Target(if mark == 0 then "/" else message[..mark], query, fragment)
  }

  predicate ValidPart(part: Option<string>) {
    part.Some? ==> ValidPercent(part.value)
  }

  function ParseScheme(s: string): Option<Scheme> {
    if EqualsIgnoreCase(s, "http") then Some(Http)
    else if EqualsIgnoreCase(s, "https") then Some(Https)
    else None
  }

  function Parse(value: string, ip: string -> bool): Option<HttpUrl> {
    var sep := FindSeparator(value);
    if value == "" || !NoForbidden(value) || sep == |value| then None
    else
      var after := value[sep + 3..];
      var n := AuthorityLength(after);
      var target := SplitTarget(after[n..]);
      match (ParseScheme(value[..sep]), ParseAuthority(after[..n], ip))
      case (Some(scheme), Some(a)) =>
        if ValidPercent(target.path) && ValidPart(target.query) && ValidPart(target.fragment)
        then Some(HttpUrl(scheme, a.userinfo, a.hostPort.host, a.hostPort.port, target.path, target.query, target.fragment))
        else None
      case _ => None
  }

  // --------------------------------------------------------------------------- printing

  function SchemeName(s: Scheme): string {
    if s == Http then "http" else "https"
  }

  function PrintHost(host: string): string {
    if ':' in host then "[" + host + "]" else host
  }

  function PrintPort(port: Option<nat>): string {
    if port.Some? then ":" + Print(port.value, 10) else ""
  }

  function PrintAuthority(u: HttpUrl): string {
    (if u.userinfo.Some? then u.userinfo.value + "@" else "") + (PrintHost(u.host) + PrintPort(u.port))
  }

  function PrintTarget(u: HttpUrl): string {
    u.path + (if u.query.Some? then "?" + u.query.value else "")
           + (if u.fragment.Some? then "#" + u.fragment.value else "")
  }

  function ToString(u: HttpUrl): string {
    SchemeName(u.scheme) + "://" + (PrintAuthority(u) + PrintTarget(u))
  }

  // ---------------------------------------------------------------- what parsing returns

  /** No byte of a host could be taken for a delimiter of the authority. */
  predicate HostBytes(host: string) {
    forall i :: 0 <= i < |host| ==> !StartsTarget(host[i]) && host[i] != '@' && host[i] != ']' && !IsForbidden(host[i])
  }

  predicate ValidHost(host: string, ip: string -> bool) {
    HostBytes(host) && (ValidRegName(host) || (host != "" && ':' in host && ip(host)))
  }

  /** Exactly the URLs that parsing can return. */
  predicate WellFormed(u: HttpUrl, ip: string -> bool) {
    && (u.userinfo.Some? ==> ValidUserinfo(u.userinfo.value) && ValidPercent(u.userinfo.value))
    && ValidHost(u.host, ip)
    && (u.port.Some? ==> 1 <= u.port.value <= 65535)
    && u.path != "" && u.path[0] == '/' && '?' !in u.path && '#' !in u.path && NoForbidden(u.path) && ValidPercent(u.path)
    && (u.query.Some? ==> '#' !in u.query.value && NoForbidden(u.query.value) && ValidPercent(u.query.value))
    && (u.fragment.Some? ==> NoForbidden(u.fragment.value) && ValidPercent(u.fragment.value))
  }

  predicate NoTargetBytes(s: string) {
    forall i :: 0 <= i < |s| ==> !StartsTarget(s[i])
  }

  lemma WithPortHost(host: string, suffix: string)
    ensures WithPort(host, suffix).Some? ==>
              WithPort(host, suffix).value.host == host
              && var p := WithPort(host, suffix).value.port;
                 p.Some? ==> 1 <= p.value <= 65535
  {
  }

  lemma ParsedHostPort(s: string, ip: string -> bool)
    requires IsIpRecognizer(ip) && NoForbidden(s) && '@' !in s && NoTargetBytes(s)
    requires ParseHostPort(s, ip).Some?
    ensures var h := ParseHostPort(s, ip).value;
            ValidHost(h.host, ip) && (h.port.Some? ==> 1 <= h.port.value <= 65535)
  {
    hide WithPort;
    if s[0] == '[' {
      var closing := IndexOf(s, ']');
      var host := s[1..closing];
      WithPortHost(host, s[closing + 1..]);
      assert ip(host) && ':' in host;
      forall i | 0 <= i < |host|
        ensures !StartsTarget(host[i]) && host[i] != '@' && host[i] != ']' && !IsForbidden(host[i])
      {
        assert host[i] == s[i + 1] && s[i + 1] == s[..closing][i + 1];
      }
    } else {
      var colon := IndexOf(s, ':');
      WithPortHost(s[..colon], s[colon..]);
    }
  }

  /** Every parse result is well formed. */
  lemma ParsedAuthority(s: string, ip: string -> bool)
    requires IsIpRecognizer(ip) && NoForbidden(s) && NoTargetBytes(s) && ParseAuthority(s, ip).Some?
    ensures var a := ParseAuthority(s, ip).value;
            && (a.userinfo.Some? ==> ValidUserinfo(a.userinfo.value) && ValidPercent(a.userinfo.value))
            && ValidHost(a.hostPort.host, ip) && (a.hostPort.port.Some? ==> 1 <= a.hostPort.port.value <= 65535)
  {
    hide ParseHostPort, ValidHost, ValidUserinfo, ValidPercent, IsForbidden;
    var at := LastIndexOf(s, '@');
    if at == |s| {
      ParsedHostPort(s, ip);
    } else {
      ParsedHostPort(s[at + 1..], ip);
    }
  }

  lemma ParsedTarget(rest: string)
    requires NoForbidden(rest) && (rest == "" || StartsTarget(rest[0]))
    ensures var t := SplitTarget(rest);
            && t.path != "" && t.path[0] == '/' && '?' !in t.path && '#' !in t.path && NoForbidden(t.path)
            && (t.query.Some? ==> '#' !in t.query.value && NoForbidden(t.query.value))
            && (t.fragment.Some? ==> NoForbidden(t.fragment.value))
  {
    hide IsForbidden;
    assert !IsForbidden('/') by { SlashAllowed(); }
    var hash := IndexOf(rest, '#');
    var message := rest[..hash];
    var mark := IndexOf(message, '?');
    if mark > 0 {
      assert message[..mark][0] == rest[0];
    }
  }

  lemma SlashAllowed()
    ensures !IsForbidden('/')
  {
  }

  lemma ParsedWellFormed(value: string, ip: string -> bool)
    requires IsIpRecognizer(ip) && Parse(value, ip).Some?
    ensures WellFormed(Parse(value, ip).value, ip)
  {
    hide ParseAuthority, SplitTarget, ParseScheme, ValidHost, ValidUserinfo, ValidPercent, IsForbidden, StartsTarget;
    var sep := FindSeparator(value);
    var after := value[sep + 3..];
    var n := AuthorityLength(after);
    ParsedAuthority(after[..n], ip);
    ParsedTarget(after[n..]);
  }

  // ------------------------------------------------------------------------- round trip

  lemma ParsePrintedPort(host: string, port: Option<nat>)
    requires port.Some? ==> 1 <= port.value <= 65535
    ensures WithPort(host, PrintPort(port)) == Some(HostPort(host, port))
  {
    if port.Some? {
      PrintThenValue(port.value, 10);
      assert PrintPort(port)[1..] == Print(port.value, 10);
    }
  }

  predicate PortBytes(s: string) {
    forall i :: 0 <= i < |s| ==> s[i] == ':' || '0' <= s[i] <= '9'
  }

  lemma PrintedPortBytes(port: Option<nat>)
    ensures PortBytes(PrintPort(port))
    ensures port.Some? ==> PrintPort(port)[0] == ':' && ':' !in PrintPort(port)[1..]
  {
    if port.Some? {
      PrintThenValue(port.value, 10);
      var digits := Print(port.value, 10);
      assert forall i :: 0 <= i < |digits| ==> DigitOf(digits[i], 10) >= 0;
      assert PrintPort(port)[1..] == digits;
    }
  }

  lemma ParsePrintedHostPort(host: string, port: Option<nat>, ip: string -> bool)
    requires ValidHost(host, ip) && (port.Some? ==> 1 <= port.value <= 65535)
    ensures ParseHostPort(PrintHost(host) + PrintPort(port), ip) == Some(HostPort(host, port))
  {
    hide WithPort, PrintPort, StartsTarget, IsForbidden, ValidRegName, ParseHostPort;
    ParsePrintedPort(host, port);
    PrintedPortBytes(port);
    PrintedPortEmpty(port);
    if ':' in host {
      RegNameHasNoColon(host);
      BracketedHost(host, PrintPort(port), ip);
    } else {
      RegNameBytes(host);
      PlainHost(host, PrintPort(port), ip);
    }
  }

  lemma BracketedHost(host: string, port: string, ip: string -> bool)
    requires ip(host) && host != "" && ']' !in host
    ensures ParseHostPort("[" + host + "]" + port, ip) == WithPort(host, port)
  {
    hide WithPort, ValidRegName;
    var s := "[" + host + "]" + port;
    assert s[..|host| + 1] == "[" + host;
    IndexOfIs(s, ']', |host| + 1);
    assert s[1..|host| + 1] == host && s[|host| + 2..] == port;
  }

  lemma PlainHost(host: string, port: string, ip: string -> bool)
    requires ValidRegName(host) && host != "" && ':' !in host && '[' !in host + port && ']' !in host + port
    requires port == "" || (port[0] == ':' && ':' !in port[1..])
    ensures ParseHostPort(host + port, ip) == WithPort(host, port)
  {
    hide WithPort, ValidRegName;
    var s := host + port;
    assert s[..|host|] == host && s[|host|..] == port;
    IndexOfIs(s, ':', |host|);
    assert s[0] == host[0];
    if port != "" {
      assert s[|host| + 1..] == port[1..];
    }
  }

  lemma PrintedPortEmpty(port: Option<nat>)
    ensures PrintPort(port) == "" <==> port.None?
  {
  }

  lemma RegNameBytes(host: string)
    ensures ValidRegName(host) ==> host != "" && '[' !in host && ']' !in host
  {
  }

  lemma RegNameHasNoColon(host: string)
    ensures ValidRegName(host) ==> ':' !in host
  {
  }

  lemma ParsePrintedAuthority(u: HttpUrl, ip: string -> bool)
    requires WellFormed(u, ip)
    ensures ParseAuthority(PrintAuthority(u), ip) == Some(Authority(u.userinfo, HostPort(u.host, u.port)))
    ensures NoTargetBytes(PrintAuthority(u)) && NoForbidden(PrintAuthority(u))
  {
    hide ParseHostPort, ParseAuthority, ValidPercent, ValidHost, ValidUserinfo, NoForbidden, NoTargetBytes, PrintHost, PrintPort;
    var h := PrintHost(u.host) + PrintPort(u.port);
    ParsePrintedHostPort(u.host, u.port, ip);
    HostPortBytes(u.host, u.port, ip);
    if u.userinfo.Some? {
      UserinfoBytes(u.userinfo.value);
      WithUserinfo(u.userinfo.value, h, ip);
    } else {
      assert PrintAuthority(u) == h;
      WithoutUserinfo(h, ip);
    }
  }

  lemma WithUserinfo(user: string, h: string, ip: string -> bool)
    requires ValidUserinfo(user) && ValidPercent(user) && '@' !in h
    requires ParseHostPort(h, ip).Some?
    ensures ParseAuthority(user + "@" + h, ip) == Some(Authority(Some(user), ParseHostPort(h, ip).value))
    ensures NoTargetBytes(user) && NoTargetBytes(h) ==> NoTargetBytes(user + "@" + h)
    ensures NoForbidden(user) && NoForbidden(h) ==> NoForbidden(user + "@" + h)
  {
    hide ParseHostPort, ValidPercent, ValidUserinfo, IsForbidden, StartsTarget;
    AtAllowed();
    var s, i := user + "@" + h, |user|;
    assert s[i] == '@' && s[i + 1..] == h && s[..i] == user;
    LastIndexIs(s, '@', i);
  }

  lemma WithoutUserinfo(h: string, ip: string -> bool)
    requires '@' !in h && h != "" && ParseHostPort(h, ip).Some?
    ensures ParseAuthority(h, ip) == Some(Authority(None, ParseHostPort(h, ip).value))
  {
    hide ParseHostPort;
  }

  lemma HostPortBytes(host: string, port: Option<nat>, ip: string -> bool)
    requires ValidHost(host, ip)
    ensures var h := PrintHost(host) + PrintPort(port);
            '@' !in h && NoTargetBytes(h) && NoForbidden(h) && h != ""
  {
    hide PrintPort;
    PrintedPortBytes(port);
    assert NoTargetBytes(PrintPort(port)) && NoForbidden(PrintPort(port));
  }

  lemma AtAllowed()
    ensures !StartsTarget('@') && !IsForbidden('@')
  {
  }

  lemma UserinfoBytes(s: string)
    requires ValidUserinfo(s)
    ensures NoTargetBytes(s) && NoForbidden(s)
  {
  }

  lemma LastIndexIs(s: string, c: char, i: nat)
    requires i < |s| && s[i] == c && c !in s[i + 1..]
    ensures LastIndexOf(s, c) == i
  {
  }

  lemma ParsePrintedTarget(u: HttpUrl, ip: string -> bool)
    requires WellFormed(u, ip)
    ensures SplitTarget(PrintTarget(u)) == Target(u.path, u.query, u.fragment)
    ensures PrintTarget(u) != "" && PrintTarget(u)[0] == '/' && NoForbidden(PrintTarget(u))
  {
    hide ValidPercent, ValidHost, ValidUserinfo;
    var s := PrintTarget(u);
    var message := u.path + (if u.query.Some? then "?" + u.query.value else "");
    assert s == message + (if u.fragment.Some? then "#" + u.fragment.value else "");
    assert '#' !in message;
    assert s[..|message|] == message;
    IndexOfIs(s, '#', |message|);
    assert message[..|u.path|] == u.path;
    IndexOfIs(message, '?', |u.path|);
    if u.query.Some? {
      assert message[|u.path| + 1..] == u.query.value;
    }
    if u.fragment.Some? {
      assert s[|message| + 1..] == u.fragment.value;
    }
  }

  lemma AuthorityLengthIs(s: string, n: nat)
    requires n < |s| && StartsTarget(s[n]) && NoTargetBytes(s[..n])
    ensures AuthorityLength(s) == n
  {
  }

  lemma SeparatorIs(scheme: Scheme, rest: string)
    ensures var s := SchemeName(scheme) + "://" + rest;
            && FindSeparator(s) == |SchemeName(scheme)| && s[|SchemeName(scheme)| + 3..] == rest
            && s[..|SchemeName(scheme)|] == SchemeName(scheme)
    ensures ParseScheme(SchemeName(scheme)) == Some(scheme) && NoForbidden(SchemeName(scheme) + "://")
  {
    var name := SchemeName(scheme);
    var s := name + "://" + rest;
    assert forall j :: 0 <= j < |name| ==> s[j] == name[j] && name[j] != ':';
    assert SeparatorAt(s, |name|);
  }

  /** Every well-formed URL is read back from its text, component by component. */
  lemma ParsePrinted(u: HttpUrl, ip: string -> bool)
    requires WellFormed(u, ip)
    ensures Parse(ToString(u), ip) == Some(u)
  {
    hide ParseAuthority, SplitTarget, ParseScheme, PrintAuthority, PrintTarget, ValidHost, ValidUserinfo,
         ValidPercent, IsForbidden, SchemeName;
    var a, t := PrintAuthority(u), PrintTarget(u);
    ParsePrintedAuthority(u, ip);
    ParsePrintedTarget(u, ip);
    SeparatorIs(u.scheme, a + t);
    var s := ToString(u);
    assert (a + t)[..|a|] == a && (a + t)[|a|..] == t;
    AuthorityLengthIs(a + t, |a|);
    assert s == SchemeName(u.scheme) + "://" + (a + t);
    assert NoForbidden(s);
  }

  /** Printing and parsing again changes no component of a parsed URL. */
  lemma ParseToStringParse(value: string, ip: string -> bool)
    requires IsIpRecognizer(ip) && Parse(value, ip).Some?
    ensures var u := Parse(value, ip).value;
            Parse(ToString(u), ip) == Some(u)
  {
    hide Parse, WellFormed, ToString;
    ParsedWellFormed(value, ip);
    ParsePrinted(Parse(value, ip).value, ip);
  }

  // ---------------------------------------------------------------------- normalisation

  function DefaultPort(s: Scheme): nat {
    if s == Http then 80 else 443
  }

  function NormalizePart(part: Option<string>): Option<string>
    requires ValidPart(part)
  {
    if part.Some? then Some(Normalize(part.value)) else None
  }

  /** Section 6.2.2 of RFC 3986, with the default port left out. */
  function NormalizeUrl(u: HttpUrl): HttpUrl
    requires ValidPart(u.userinfo) && ValidPercent(u.path) && ValidPart(u.query) && ValidPart(u.fragment)
  {
    HttpUrl(u.scheme, NormalizePart(u.userinfo), Lower(u.host),
            if u.port == Some(DefaultPort(u.scheme)) then None else u.port,
            RemoveDots(Normalize(u.path)), NormalizePart(u.query), NormalizePart(u.fragment))
  }

  lemma LowerIdempotent(s: string)
    ensures Lower(Lower(s)) == Lower(s)
  {
  }

  /** Normalising twice is normalising once, and the path comes out absolute and without dot segments. */
  lemma NormalizeIdempotent(u: HttpUrl)
    requires ValidPart(u.userinfo) && ValidPercent(u.path) && ValidPart(u.query) && ValidPart(u.fragment)
    ensures var n := NormalizeUrl(u);
            && IsClean(n.path)
            && ValidPart(n.userinfo) && ValidPercent(n.path) && ValidPart(n.query) && ValidPart(n.fragment)
            && NormalizeUrl(n) == n
  {
    hide Normalize, ValidPercent, RemoveDots, IsClean;
    PartIdempotent(u.userinfo);
    PartIdempotent(u.query);
    PartIdempotent(u.fragment);
    LowerIdempotent(u.host);
    NormalizeLaws(u.path);
    RemoveDotsClean(Normalize(u.path));
    RemoveDotsNormal(Normalize(u.path));
    RemoveDotsIdempotent(Normalize(u.path));
  }

  lemma PartIdempotent(part: Option<string>)
    requires ValidPart(part)
    ensures ValidPart(NormalizePart(part)) && NormalizePart(NormalizePart(part)) == NormalizePart(part)
  {
    if part.Some? {
      NormalizeLaws(part.value);
    }
  }

  /** The normalised form is itself a URL that parsing can return, so it survives printing too. */
  lemma NormalizedWellFormed(u: HttpUrl, ip: string -> bool)
    requires IsIpRecognizer(ip) && WellFormed(u, ip)
    ensures WellFormed(NormalizeUrl(u), ip)
  {
    hide Normalize, ValidPercent, RemoveDots, IsClean, ValidUserinfo, ValidHost, IsForbidden;
    var n := NormalizeUrl(u);
    NormalizeIdempotent(u);
    LowerHost(u.host, ip);
    RemoveDotsClean(Normalize(u.path));
    CleanStart(n.path);
    NormalizedPath(u.path);
    if u.userinfo.Some? { NormalizedUserinfo(u.userinfo.value); }
    if u.query.Some? { NormalizedText(u.query.value); }
    if u.fragment.Some? { NormalizedText(u.fragment.value); }
  }

  lemma CleanStart(path: string)
    requires IsClean(path)
    ensures path != "" && path[0] == '/'
  {
  }

  lemma LowerHost(host: string, ip: string -> bool)
    requires IsIpRecognizer(ip) && ValidHost(host, ip)
    ensures ValidHost(Lower(host), ip)
  {
    if ':' in host {
      var i :| 0 <= i < |host| && host[i] == ':';
      assert Lower(host)[i] == ':';
    }
  }

  lemma NormalizedUserinfo(s: string)
    requires ValidUserinfo(s) && ValidPercent(s)
    ensures ValidUserinfo(Normalize(s))
  {
    hide Normalize, ValidPercent;
    var n := Normalize(s);
    forall i | 0 <= i < |n|
      ensures IsUnreserved(n[i]) || IsSubDelim(n[i]) || n[i] == ':' || n[i] == '@' || n[i] == '%'
    {
      NormalizeBytes(s, n[i]);
    }
  }

  /** Normalisation brings in no delimiter and no forbidden byte. */
  lemma NormalizedText(s: string)
    requires ValidPercent(s) && NoForbidden(s)
    ensures NoForbidden(Normalize(s))
    ensures '#' !in s ==> '#' !in Normalize(s)
    ensures '?' !in s ==> '?' !in Normalize(s)
  {
    hide Normalize, ValidPercent;
    var n := Normalize(s);
    forall i | 0 <= i < |n|
      ensures !IsForbidden(n[i]) && (n[i] == '#' ==> '#' in s) && (n[i] == '?' ==> '?' in s)
    {
      NormalizeBytes(s, n[i]);
    }
  }

  lemma NormalizedPath(path: string)
    requires ValidPercent(path) && NoForbidden(path) && '?' !in path && '#' !in path
    ensures var p := RemoveDots(Normalize(path));
            NoForbidden(p) && '?' !in p && '#' !in p
  {
    hide Normalize, ValidPercent, RemoveDots;
    NormalizedText(path);
    var n := Normalize(path);
    var p := RemoveDots(n);
    forall i | 0 <= i < |p|
      ensures !IsForbidden(p[i]) && p[i] != '?' && p[i] != '#'
    {
      RemoveDotsBytes(n, p[i]);
    }
  }

  // ------------------------------------------------------------------- query parameters

  datatype QueryParam = QueryParam(key: string, value: string)

  function ParseParam(segment: string): Option<QueryParam> {
    var equals := IndexOf(segment, '=');
    var key := Decode(segment[..equals]);
    var value := if equals < |segment| then Decode(segment[equals + 1..]) else Some("");
    if key.Some? && value.Some? then Some(QueryParam(key.value, value.value)) else None
  }

  function QueryParams(query: string): Option<seq<QueryParam>>
    decreases |query|
  {
    if query == "" then Some([])
    else
      var amp := IndexOf(query, '&');
      var rest := QueryParams(if amp < |query| then query[amp + 1..] else "");
      if amp == 0 then rest
      else
        var param := ParseParam(query[..amp]);
        if param.Some? && rest.Some? then Some([param.value] + rest.value) else None
  }

  lemma ParamDefined(segment: string)
    requires ValidPercent(segment)
    ensures ParseParam(segment).Some?
  {
    hide ValidPercent, Decode;
    var equals := IndexOf(segment, '=');
    DecodeDefined(segment[..equals]);
    if equals < |segment| {
      assert segment == segment[..equals] + ['='] + segment[equals + 1..];
      SplitValid(segment[..equals], '=', segment[equals + 1..]);
      DecodeDefined(segment[equals + 1..]);
    } else {
      assert segment[..equals] == segment;
    }
  }

  /** Splitting a well-formed query never cuts an escape. */
  lemma {:induction false} QueryParamsDefined(query: string)
    requires ValidPercent(query)
    ensures QueryParams(query).Some?
    decreases |query|
  {
    hide ValidPercent, ParseParam;
    if query != "" {
      var amp := IndexOf(query, '&');
      if amp < |query| {
        assert query == query[..amp] + ['&'] + query[amp + 1..];
        SplitValid(query[..amp], '&', query[amp + 1..]);
        QueryParamsDefined(query[amp + 1..]);
      } else {
        assert query[..amp] == query;
      }
      ParamDefined(query[..amp]);
    }
  }

  /** The query of a parsed URL always splits into decodable parameters. */
  lemma ParsedQueryDefined(value: string, ip: string -> bool)
    requires IsIpRecognizer(ip) && Parse(value, ip).Some? && Parse(value, ip).value.query.Some?
    ensures QueryParams(Parse(value, ip).value.query.value).Some?
  {
    hide Parse, QueryParams;
    ParsedWellFormed(value, ip);
    QueryParamsDefined(Parse(value, ip).value.query.value);
  }

  /** Normalisation does not bring in a separator, so it does not move the separators either. */
  lemma SeparatorStays(a: string, sep: char)
    requires ValidPercent(a) && sep !in a && !IsUnreserved(sep) && sep != '%'
    ensures sep !in Normalize(a)
  {
    hide Normalize, ValidPercent;
    if sep in Normalize(a) {
      NormalizeBytes(a, sep);
    }
  }

  lemma {:induction false} NormalizeEmpty(s: string)
    requires ValidPercent(s)
    ensures Normalize(s) == "" <==> s == ""
  {
  }

  lemma ParamNormalized(segment: string)
    requires ValidPercent(segment)
    ensures ParseParam(Normalize(segment)) == ParseParam(segment)
  {
    hide Normalize, ValidPercent, Decode, IsUnreserved;
    assert !IsUnreserved('=') by { SeparatorsReserved(); }
    var equals := IndexOf(segment, '=');
    var n := Normalize(segment);
    if equals < |segment| {
      var a, b := segment[..equals], segment[equals + 1..];
      assert segment == a + ['='] + b;
      SplitValid(a, '=', b);
      SplitNormalize(a, '=', b);
      NormalizeLaws(a);
      NormalizeLaws(b);
      SeparatorStays(a, '=');
      assert n[..|Normalize(a)|] == Normalize(a) && n[|Normalize(a)| + 1..] == Normalize(b);
      IndexOfIs(n, '=', |Normalize(a)|);
    } else {
      assert segment[..equals] == segment;
      NormalizeLaws(segment);
      SeparatorStays(segment, '=');
      IndexOfIs(n, '=', |n|);
      assert n[..|n|] == n;
    }
  }

  lemma SeparatorsReserved()
    ensures !IsUnreserved('=') && !IsUnreserved('&')
  {
  }

  /** A normalised query means the same list of parameters. */
  lemma {:induction false} QueryParamsNormalized(query: string)
    requires ValidPercent(query)
    ensures QueryParams(Normalize(query)) == QueryParams(query)
    decreases |query|
  {
    hide Normalize, ValidPercent, ParseParam, IsUnreserved;
    SeparatorsReserved();
    NormalizeEmpty(query);
    var n := Normalize(query);
    if query != "" {
      var amp := IndexOf(query, '&');
      var a := query[..amp];
      if amp < |query| {
        var b := query[amp + 1..];
        assert query == a + ['&'] + b;
        SplitValid(a, '&', b);
        SplitNormalize(a, '&', b);
        SeparatorStays(a, '&');
        assert n[..|Normalize(a)|] == Normalize(a) && n[|Normalize(a)| + 1..] == Normalize(b);
        IndexOfIs(n, '&', |Normalize(a)|);
        QueryParamsNormalized(b);
      } else {
        assert a == query;
        SeparatorStays(a, '&');
        IndexOfIs(n, '&', |n|);
        assert n[..|n|] == n;
      }
      NormalizeEmpty(a);
      ParamNormalized(a);
    }
  }

  // --------------------------------------------------------------------- scanning forms

  method ParseParamText(segment: string) returns (r: Option<QueryParam>)
    ensures r == ParseParam(segment)
  {
    hide Decode;
    var equals := IndexOf(segment, '=');
    var key := PercentDecode(segment[..equals]);
    if key.None? {
      return None;
    }
    if equals == |segment| {
      return Some(QueryParam(key.value, ""));
    }
    var value := PercentDecode(segment[equals + 1..]);
    if value.None? {
      return None;
    }
    r := Some(QueryParam(key.value, value.value));
  }

  function After(done: seq<QueryParam>, rest: Option<seq<QueryParam>>): Option<seq<QueryParam>> {
    if rest.Some? then Some(done + rest.value) else None
  }

  method ParseQueryParams(query: string) returns (r: Option<seq<QueryParam>>)
    ensures r == QueryParams(query)
  {
    hide ParseParam, QueryParams, IndexOf, After;
    var params: seq<QueryParam> := [];
    var start := 0;
    ghost var whole := QueryParams(query);
    assert query[0..] == query;
    AfterNothing(whole);
    while start < |query|
      invariant start <= |query| && whole == After(params, QueryParams(query[start..]))
    {
      ghost var rest := query[start..];
      var amp := IndexOf(query[start..], '&');
      var segment := query[start..start + amp];
      QueryParamsAt(query, start, amp);
      start := if amp < |query| - start then start + amp + 1 else |query|;
      if segment == "" {
        continue;
      }
      var param := ParseParamText(segment);
      if param.None? {
        AfterFailure(params);
        return None;
      }
      AfterTwice(params, param.value, QueryParams(query[start..]));
      params := params + [param.value];
    }
    assert query[start..] == "";
    QueryParamsEmpty();
    AfterEmpty(params);
    r := Some(params);
  }

  lemma AfterNothing(rest: Option<seq<QueryParam>>)
    ensures After([], rest) == rest
  {
    if rest.Some? {
      assert [] + rest.value == rest.value;
    }
  }

  lemma AfterFailure(done: seq<QueryParam>)
    ensures After(done, None) == None
  {
  }

  lemma AfterEmpty(done: seq<QueryParam>)
    ensures After(done, Some([])) == Some(done)
  {
    assert done + [] == done;
  }

  lemma QueryParamsEmpty()
    ensures QueryParams("") == Some([])
  {
  }

  /** One segment of the query, from the middle of the text. */
  lemma QueryParamsAt(query: string, start: nat, amp: nat)
    requires start < |query| && amp == IndexOf(query[start..], '&')
    ensures var segment := query[start..start + amp];
            var next := if amp < |query| - start then start + amp + 1 else |query|;
            && (segment == "" ==> QueryParams(query[start..]) == QueryParams(query[next..]))
            && (segment != "" ==> match ParseParam(segment)
                                  case None => QueryParams(query[start..]) == None
                                  case Some(p) => QueryParams(query[start..]) == After([p], QueryParams(query[next..])))
  {
    hide ParseParam, IndexOf;
    var rest := query[start..];
    assert rest[..amp] == query[start..start + amp];
    assert query[|query|..] == "";
    if amp < |rest| {
      assert rest[amp + 1..] == query[start + amp + 1..];
    }
  }

  lemma AfterTwice(done: seq<QueryParam>, p: QueryParam, rest: Option<seq<QueryParam>>)
    ensures After(done, After([p], rest)) == After(done + [p], rest)
  {
    if rest.Some? {
      assert done + [p] + rest.value == done + ([p] + rest.value);
    }
  }

  /** The digit loop that stops as soon as the number leaves the port range. */
  method ParsePortText(s: string) returns (r: Option<nat>)
    ensures r == ParsePort(s)
  {
    if s == "" {
      return None;
    }
    var port := 0;
    for i := 0 to |s|
      invariant AllDigits(s[..i], 10) && Value(s[..i], 10) == port <= 65535
    {
      if s[i] < '0' || s[i] > '9' {
        return None;
      }
      assert s[..i + 1][..i] == s[..i];
      port := port * 10 + (s[i] as int - '0' as int);
      if port > 65535 {
        ValueMonotone(s, i + 1, 10);
        return None;
      }
    }
    assert s[..|s|] == s;
    r := if port == 0 then None else Some(port);
  }

  method AsciiLowercase(s: string) returns (r: string)
    ensures r == Lower(s)
  {
    r := "";
    for i := 0 to |s|
      invariant |r| == i && forall j :: 0 <= j < i ==> r[j] == AsciiLower(s[j])
    {
      r := r + [AsciiLower(s[i])];
    }
  }

  method NormalizeOptional(part: Option<string>) returns (r: Option<string>)
    requires ValidPart(part)
    ensures r == NormalizePart(part)
  {
    if part.None? {
      return None;
    }
    var n := NormalizePercent(part.value);
    r := Some(n);
  }

  method Normalized(u: HttpUrl) returns (n: HttpUrl)
    requires ValidPart(u.userinfo) && ValidPercent(u.path) && ValidPart(u.query) && ValidPart(u.fragment)
    ensures n == NormalizeUrl(u)
  {
    var userinfo := NormalizeOptional(u.userinfo);
    var host := AsciiLowercase(u.host);
    var port := u.port;
    if port.Some? && port.value == DefaultPort(u.scheme) {
      port := None;
    }
    var decoded := NormalizePercent(u.path);
    var path := RemoveDotSegments(decoded);
    var query := NormalizeOptional(u.query);
    var fragment := NormalizeOptional(u.fragment);
    n := HttpUrl(u.scheme, userinfo, host, port, path, query, fragment);
  }
}
