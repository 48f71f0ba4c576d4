/**
  The texts that are HTTP URLs, described by their components, and the proof that
  parsing accepts exactly these; and what normalisation does to each component.
 */
module UrlGrammar {
  import opened Text
  import opened Numerals
  import opened Percent
  import opened PercentGrammar
  import opened DotSegments
  import opened Url

  /** A scheme in any letter case. */
  predicate SpellsScheme(text: string, scheme: Scheme) {
    EqualsIgnoreCase(text, match scheme case Http => "http" case Https => "https")
  }

  /** Nothing, or a colon and a decimal number from 1 to 65535. */
  predicate SpellsPort(text: string, port: Option<nat>) {
    match port
    case None => text == ""
    case Some(p) => |text| > 1 && text[0] == ':' && AllDigits(text[1..], 10) && Value(text[1..], 10) == p && 1 <= p <= 65535
  }

  /** The host, in brackets when it is an IPv6 address, and the port. */
  function HostText(host: string, port: string): string {
    (if ':' in host then "[" + host + "]" else host) + port
  }

  function AuthorityText(userinfo: Option<string>, host: string, port: string): string {
    (if userinfo.Some? then userinfo.value + "@" else "") + HostText(host, port)
  }

  function TargetText(path: string, query: Option<string>, fragment: Option<string>): string {
    path + (if query.Some? then "?" + query.value else "") + (if fragment.Some? then "#" + fragment.value else "")
  }

  /** `value` is the URL `u`, its scheme, port and path spelled as given. */
  predicate SpellsUrl(value: string, u: HttpUrl, ip: string -> bool, scheme: string, port: string, path: string) {
    && WellFormed(u, ip) && SpellsScheme(scheme, u.scheme) && SpellsPort(port, u.port)
    && (path == u.path || (path == "" && u.path == "/"))
    && value == scheme + "://" + (AuthorityText(u.userinfo, u.host, port) + TargetText(path, u.query, u.fragment))
  }

  // --------------------------------------------------------------------------- ports

  lemma PortIff(host: string, text: string, port: Option<nat>)
    ensures WithPort(host, text) == Some(HostPort(host, port)) <==> SpellsPort(text, port)
  {
    hide Value, AllDigits;
  }

  lemma PortBytesOf(text: string, port: Option<nat>)
    requires SpellsPort(text, port)
    ensures PortBytes(text) && (text == "" || (text[0] == ':' && ':' !in text[1..]))
  {
    if port.Some? {
      forall i | 0 <= i < |text|
        ensures i == 0 || ('0' <= text[i] <= '9')
      {
        if i > 0 {
          assert DigitOf(text[1..][i - 1], 10) >= 0;
        }
      }
    }
  }

  // ----------------------------------------------------------------- texts are accepted

  lemma HostForth(host: string, text: string, port: Option<nat>, ip: string -> bool)
    requires ValidHost(host, ip) && SpellsPort(text, port)
    ensures ParseHostPort(HostText(host, text), ip) == Some(HostPort(host, port))
    ensures var h := HostText(host, text); '@' !in h && NoTargetBytes(h) && NoForbidden(h) && h != ""
  {
    hide WithPort, ParseHostPort, SpellsPort, ValidRegName;
    PortIff(host, text, port);
    PortBytesOf(text, port);
    if ':' in host {
      RegNameHasNoColon(host);
      BracketedHost(host, text, ip);
    } else {
      RegNameBytes(host);
      PlainHost(host, text, ip);
    }
  }

  lemma AuthorityForth(u: HttpUrl, text: string, ip: string -> bool)
    requires WellFormed(u, ip) && SpellsPort(text, u.port)
    ensures var a := AuthorityText(u.userinfo, u.host, text);
            && ParseAuthority(a, ip) == Some(Authority(u.userinfo, HostPort(u.host, u.port)))
            && NoTargetBytes(a) && NoForbidden(a)
  {
    hide ParseHostPort, ParseAuthority, ValidPercent, ValidHost, ValidUserinfo, NoForbidden, NoTargetBytes, HostText, SpellsPort;
    var h := HostText(u.host, text);
    HostForth(u.host, text, u.port, ip);
    if u.userinfo.Some? {
      UserinfoBytes(u.userinfo.value);
      WithUserinfo(u.userinfo.value, h, ip);
    } else {
      assert AuthorityText(u.userinfo, u.host, text) == h;
      WithoutUserinfo(h, ip);
    }
  }

  lemma TargetForth(u: HttpUrl, path: string, ip: string -> bool)
    requires WellFormed(u, ip) && (path == u.path || (path == "" && u.path == "/"))
    ensures var t := TargetText(path, u.query, u.fragment);
            && SplitTarget(t) == Target(u.path, u.query, u.fragment)
            && (t == "" || StartsTarget(t[0])) && NoForbidden(t)
  {
    hide SplitTarget, ValidPercent, ValidHost, ValidUserinfo;
    TargetSplits(u, path, ip);
  }

  lemma TargetSplits(u: HttpUrl, path: string, ip: string -> bool)
    requires WellFormed(u, ip) && (path == u.path || (path == "" && u.path == "/"))
    ensures SplitTarget(TargetText(path, u.query, u.fragment)) == Target(u.path, u.query, u.fragment)
  {
    hide ValidPercent, ValidHost, ValidUserinfo, NoForbidden;
    var s := TargetText(path, u.query, u.fragment);
    var message := path + (if u.query.Some? then "?" + u.query.value else "");
    assert s == message + (if u.fragment.Some? then "#" + u.fragment.value else "");
    assert '#' !in message;
    assert s[..|message|] == message;
    IndexOfIs(s, '#', |message|);
    assert message[..|path|] == path;
    IndexOfIs(message, '?', |path|);
    if u.query.Some? {
      assert message[|path| + 1..] == u.query.value;
    }
    if u.fragment.Some? {
      assert s[|message| + 1..] == u.fragment.value;
    }
  }

  lemma SchemeForth(text: string, scheme: Scheme, rest: string)
    requires SpellsScheme(text, scheme)
    ensures var s := text + "://" + rest;
            && FindSeparator(s) == |text| && s[|text| + 3..] == rest && s[..|text|] == text
    ensures ParseScheme(text) == Some(scheme) && NoForbidden(text + "://")
  {
    var s := text + "://" + rest;
    SchemeBytes(text, scheme);
    assert forall j :: 0 <= j < |text| ==> s[j] == text[j];
    assert SeparatorAt(s, |text|);
  }

  lemma SchemeBytes(text: string, scheme: Scheme)
    requires SpellsScheme(text, scheme)
    ensures forall i :: 0 <= i < |text| ==> text[i] != ':' && !IsForbidden(text[i])
    ensures ParseScheme(text) == Some(scheme)
  {
    forall i | 0 <= i < |text|
      ensures text[i] != ':' && !IsForbidden(text[i])
    {
      assert 'a' <= AsciiLower(text[i]) <= 'z';
    }
  }

  lemma AuthorityEnds(a: string, t: string)
    requires NoTargetBytes(a) && (t == "" || StartsTarget(t[0]))
    ensures AuthorityLength(a + t) == |a| && (a + t)[..|a|] == a && (a + t)[|a|..] == t
  {
    var s := a + t;
    assert s[..|a|] == a;
    if t == "" {
      assert s == a;
    } else {
      AuthorityLengthIs(s, |a|);
    }
  }

  lemma UrlForth(value: string, u: HttpUrl, ip: string -> bool, scheme: string, port: string, path: string)
    requires SpellsUrl(value, u, ip, scheme, port, path)
    ensures Parse(value, ip) == Some(u)
  {
    hide ParseAuthority, SplitTarget, ParseScheme, AuthorityText, TargetText, ValidHost, ValidUserinfo,
         ValidPercent, IsForbidden, SpellsScheme, SpellsPort, StartsTarget;
    var a, t := AuthorityText(u.userinfo, u.host, port), TargetText(path, u.query, u.fragment);
    AuthorityForth(u, port, ip);
    TargetForth(u, path, ip);
    SchemeForth(scheme, u.scheme, a + t);
    AuthorityEnds(a, t);
    assert NoForbidden(value);
  }

  // ------------------------------------------------------- what is accepted is a URL text

  lemma HostBack(s: string, ip: string -> bool) returns (port: string)
    requires IsIpRecognizer(ip) && ParseHostPort(s, ip).Some?
    ensures var h := ParseHostPort(s, ip).value; SpellsPort(port, h.port) && s == HostText(h.host, port)
  {
    hide WithPort, SpellsPort, ValidRegName;
    if s[0] == '[' {
      var closing := IndexOf(s, ']');
      port := s[closing + 1..];
      WithPortHost(s[1..closing], port);
      assert s == "[" + s[1..closing] + "]" + port;
    } else {
      var colon := IndexOf(s, ':');
      port := s[colon..];
      WithPortHost(s[..colon], port);
      assert s == s[..colon] + port;
    }
    var h := ParseHostPort(s, ip).value;
    PortIff(h.host, port, h.port);
  }

  lemma AuthorityBack(s: string, ip: string -> bool) returns (port: string)
    requires IsIpRecognizer(ip) && ParseAuthority(s, ip).Some?
    ensures var a := ParseAuthority(s, ip).value;
            SpellsPort(port, a.hostPort.port) && s == AuthorityText(a.userinfo, a.hostPort.host, port)
  {
    hide ParseHostPort, SpellsPort, HostText, ValidPercent, ValidUserinfo, IsIpRecognizer;
    var at := LastIndexOf(s, '@');
    if at == |s| {
      port := HostBack(s, ip);
    } else {
      port := HostBack(s[at + 1..], ip);
      assert s == s[..at] + "@" + s[at + 1..];
    }
  }

  lemma TargetBack(s: string) returns (path: string)
    ensures var t := SplitTarget(s);
            (path == t.path || (path == "" && t.path == "/")) && s == TargetText(path, t.query, t.fragment)
  {
    hide IndexOf, TargetText, Tail, SplitTarget;
    var hash := IndexOf(s, '#');
    var message := s[..hash];
    var mark := IndexOf(message, '?');
    path := message[..mark];
    SplitTargetIs(s);
    var query := Tail(message, mark);
    var fragment := Tail(s, hash);
    CutAt(message, mark, '?');
    CutAt(s, hash, '#');
    TargetTextOf(path, query, fragment);
  }

  lemma SplitTargetIs(s: string)
    ensures var hash := IndexOf(s, '#');
            var message := s[..hash];
            var mark := IndexOf(message, '?');
            SplitTarget(s) == Target(if mark == 0 then "/" else message[..mark], Tail(message, mark), Tail(s, hash))
  {
    hide IndexOf;
  }

  /** What stands behind position `i`, if that is inside the text. */
  function Tail(s: string, i: nat): Option<string> {
    if i < |s| then Some(s[i + 1..]) else None
  }

  lemma TargetTextOf(path: string, query: Option<string>, fragment: Option<string>)
    ensures TargetText(path, query, fragment) ==
            path + (if query.Some? then ['?'] + query.value else "") + (if fragment.Some? then ['#'] + fragment.value else "")
  {
  }

  lemma CutAt(s: string, i: nat, c: char)
    requires i <= |s| && (i < |s| ==> s[i] == c)
    ensures s == s[..i] + if i < |s| then [c] + s[i + 1..] else ""
    ensures s == s[..i] + if Tail(s, i).Some? then [c] + Tail(s, i).value else ""
  {
  }

  lemma SchemeBack(text: string, scheme: Scheme)
    requires ParseScheme(text) == Some(scheme)
    ensures SpellsScheme(text, scheme)
  {
  }

  /** Where parsing cuts the text. */
  lemma Cuts(value: string, u: HttpUrl, ip: string -> bool) returns (scheme: string, a: string, t: string)
    requires Parse(value, ip) == Some(u)
    ensures value == scheme + "://" + (a + t) && ParseScheme(scheme) == Some(u.scheme)
    ensures ParseAuthority(a, ip) == Some(Authority(u.userinfo, HostPort(u.host, u.port)))
    ensures SplitTarget(t) == Target(u.path, u.query, u.fragment)
  {
    hide ParseAuthority, SplitTarget, ParseScheme, ValidPercent, ValidPart, NoForbidden, StartsTarget, FindSeparator, AuthorityLength;
    var sep := FindSeparator(value);
    var after := value[sep + 3..];
    var n := AuthorityLength(after);
    scheme, a, t := value[..sep], after[..n], after[n..];
    CutText(value, sep);
    assert after == a + t;
  }

  lemma CutText(value: string, sep: nat)
    requires SeparatorAt(value, sep)
    ensures value == value[..sep] + "://" + value[sep + 3..]
  {
  }

  /** Parsing accepts exactly the URL texts, each with the components it spells. */
  lemma UrlIff(value: string, u: HttpUrl, ip: string -> bool)
    requires IsIpRecognizer(ip)
    ensures Parse(value, ip) == Some(u) <==> exists scheme, port, path :: SpellsUrl(value, u, ip, scheme, port, path)
  {
    hide Parse, AuthorityText, TargetText, WellFormed, IsIpRecognizer, SpellsScheme, SpellsPort;
    if scheme, port, path :| SpellsUrl(value, u, ip, scheme, port, path) {
      UrlForth(value, u, ip, scheme, port, path);
    }
    if Parse(value, ip) == Some(u) {
      ParsedWellFormed(value, ip);
      var scheme, a, t := Cuts(value, u, ip);
      SchemeBack(scheme, u.scheme);
      var port := AuthorityBack(a, ip);
      var path := TargetBack(t);
      assert SpellsUrl(value, u, ip, scheme, port, path);
    }
  }

  // --------------------------------------------------------------------- normalisation

  /** `r` is `s` with every piece normalised. */
  ghost predicate IsNormalOf(s: string, r: string) {
    exists pieces, value :: Concat(pieces) == s && Spells(pieces, value) && r == NormalText(pieces, value)
  }

  ghost function NormalText(pieces: seq<string>, value: string): string
    requires Spells(pieces, value)
  {
    Concat(seq(|pieces|, i requires 0 <= i < |pieces| => NormalPiece(pieces[i], value[i])))
  }

  ghost predicate IsNormalPart(part: Option<string>, r: Option<string>) {
    (part.Some? <==> r.Some?) && (part.Some? ==> IsNormalOf(part.value, r.value))
  }

  lemma NormalizeIsNormal(s: string)
    requires ValidPercent(s)
    ensures IsNormalOf(s, Normalize(s))
  {
    hide Normalize, Concat, Spells, NormalPiece;
    DecodeDefined(s);
    var pieces := DecodeBack(s);
    NormalizeIs(pieces, Decode(s).value);
    assert Normalize(s) == NormalText(pieces, Decode(s).value);
  }

  lemma PartIsNormal(part: Option<string>)
    requires ValidPart(part)
    ensures IsNormalPart(part, NormalizePart(part))
  {
    hide IsNormalOf;
    if part.Some? {
      NormalizeIsNormal(part.value);
    }
  }

  /**
    Component by component: the host in small letters, the default port left out, the
    escapes normalised, and the dot segments of the path removed by any function that
    obeys the laws of doing so.
   */
  lemma NormalizedComponents(u: HttpUrl, remove: string -> string)
    requires ValidPart(u.userinfo) && ValidPercent(u.path) && ValidPart(u.query) && ValidPart(u.fragment) && Laws(remove)
    ensures var n := NormalizeUrl(u);
            && n.scheme == u.scheme
            && EqualsIgnoreCase(n.host, u.host) && (forall i :: 0 <= i < |n.host| ==> !('A' <= n.host[i] <= 'Z'))
            && n.port == (if (u.scheme == Http && u.port == Some(80)) || (u.scheme == Https && u.port == Some(443)) then None else u.port)
            && IsNormalPart(u.userinfo, n.userinfo) && IsNormalPart(u.query, n.query) && IsNormalPart(u.fragment, n.fragment)
            && exists path :: IsNormalOf(u.path, path) && n.path == remove(path)
  {
    hide Normalize, ValidPercent, RemoveDots, Laws, IsNormalOf;
    PartIsNormal(u.userinfo);
    PartIsNormal(u.query);
    PartIsNormal(u.fragment);
    NormalizeIsNormal(u.path);
    OnlyRemoval(remove, Normalize(u.path));
  }

  // ------------------------------------------------------------------- query parameters

  /** The segment is the key, or key and value around its first equals sign, both coded. */
  ghost predicate MeansParam(segment: string, p: QueryParam) {
    || ('=' !in segment && Decode(segment) == Some(p.key) && p.value == "")
    || exists k, v :: '=' !in k && segment == k + "=" + v && Decode(k) == Some(p.key) && Decode(v) == Some(p.value)
  }

  /** The segments with an ampersand between any two. */
  function Ampersands(segments: seq<string>): string {
    if segments == [] then "" else if |segments| == 1 then segments[0] else segments[0] + "&" + Ampersands(segments[1..])
  }

  function Filled(segments: seq<string>): seq<string> {
    if segments == [] then [] else (if segments[0] == "" then [] else [segments[0]]) + Filled(segments[1..])
  }

  predicate NoAmpersand(segments: seq<string>) {
    segments != [] && forall i :: 0 <= i < |segments| ==> '&' !in segments[i]
  }

  ghost predicate MeanParams(segments: seq<string>, ps: seq<QueryParam>) {
    |segments| == |ps| && forall i :: 0 <= i < |ps| ==> MeansParam(segments[i], ps[i])
  }

  lemma ParamIff(segment: string, p: QueryParam)
    ensures ParseParam(segment) == Some(p) <==> MeansParam(segment, p)
  {
    hide ParseParam, MeansParam;
    if MeansParam(segment, p) {
      ParamForth(segment, p);
    }
    if ParseParam(segment) == Some(p) {
      ParamBack(segment, p);
    }
  }

  lemma ParamForth(segment: string, p: QueryParam)
    requires MeansParam(segment, p)
    ensures ParseParam(segment) == Some(p)
  {
    hide Decode;
    if '=' !in segment && Decode(segment) == Some(p.key) && p.value == "" {
      IndexOfIs(segment, '=', |segment|);
      assert segment[..|segment|] == segment;
    } else {
      var k, v :| '=' !in k && segment == k + "=" + v && Decode(k) == Some(p.key) && Decode(v) == Some(p.value);
      assert segment[..|k|] == k && segment[|k|] == '=' && segment[|k| + 1..] == v;
      IndexOfIs(segment, '=', |k|);
    }
  }

  lemma ParamBack(segment: string, p: QueryParam)
    requires ParseParam(segment) == Some(p)
    ensures MeansParam(segment, p)
  {
    hide Decode, IndexOf;
    var equals := IndexOf(segment, '=');
    CutAt(segment, equals, '=');
    if equals == |segment| {
      assert segment[..equals] == segment;
    } else {
      var k, v := segment[..equals], segment[equals + 1..];
      assert segment == k + "=" + v;
    }
  }

  lemma QueryStep(first: string, rest: string, more: bool)
    requires '&' !in first && (more || rest == "")
    ensures QueryParams(first + (if more then "&" + rest else "")) ==
            if first == "" then QueryParams(rest)
            else var param := ParseParam(first);
                 if param.Some? && QueryParams(rest).Some? then Some([param.value] + QueryParams(rest).value) else None
  {
    hide ParseParam;
    var query := first + (if more then "&" + rest else "");
    assert query[..|first|] == first;
    IndexOfIs(query, '&', |first|);
    if more {
      assert query[|first| + 1..] == rest;
    }
  }

  lemma QueryUnfold(segments: seq<string>)
    requires NoAmpersand(segments)
    ensures var query := Ampersands(segments);
            var rest := if |segments| == 1 then Some([]) else QueryParams(Ampersands(segments[1..]));
            QueryParams(query) ==
              if segments[0] == "" then rest
              else var param := ParseParam(segments[0]);
                   if param.Some? && rest.Some? then Some([param.value] + rest.value) else None
  {
    hide ParseParam, QueryParams;
    var first := segments[0];
    QueryNothing();
    if |segments| == 1 {
      QueryStep(first, "", false);
      assert first + "" == first;
    } else {
      QueryStep(first, Ampersands(segments[1..]), true);
      assert first + ("&" + Ampersands(segments[1..])) == Ampersands(segments);
    }
  }

  lemma QueryNothing()
    ensures QueryParams("") == Some([])
  {
  }

  lemma {:induction false} QueryForth(segments: seq<string>, ps: seq<QueryParam>)
    requires NoAmpersand(segments)
    ensures QueryParams(Ampersands(segments)) == Some(ps) <==> MeanParams(Filled(segments), ps)
    decreases |segments|
  {
    hide ParseParam, QueryParams, MeansParam, Ampersands;
    QueryUnfold(segments);
    var rest := segments[1..];
    var first := segments[0];
    var more := if rest == [] then Some([]) else QueryParams(Ampersands(rest));
    forall qs
      ensures more == Some(qs) <==> MeanParams(Filled(rest), qs)
    {
      if rest != [] {
        QueryForth(rest, qs);
      }
    }
    if first == "" {
      assert Filled(segments) == Filled(rest);
    } else {
      assert Filled(segments) == [first] + Filled(rest);
      if ps != [] {
        ParamIff(first, ps[0]);
        assert ps == [ps[0]] + ps[1..];
        ConsMeans(first, Filled(rest), ps);
        if ParseParam(first).Some? && more.Some? && QueryParams(Ampersands(segments)) == Some(ps) {
          assert ps[0] == ParseParam(first).value && ps[1..] == more.value;
        }
      }
    }
  }

  lemma ConsMeans(first: string, rest: seq<string>, ps: seq<QueryParam>)
    requires ps != []
    ensures MeanParams([first] + rest, ps) <==> MeansParam(first, ps[0]) && MeanParams(rest, ps[1..])
  {
    hide MeansParam;
    var all := [first] + rest;
    if MeanParams(all, ps) {
      forall i | 0 <= i < |ps[1..]|
        ensures MeansParam(rest[i], ps[1..][i])
      {
        assert all[i + 1] == rest[i] && ps[i + 1] == ps[1..][i];
      }
      assert all[0] == first;
    }
    if MeansParam(first, ps[0]) && MeanParams(rest, ps[1..]) {
      forall i | 0 <= i < |ps|
        ensures MeansParam(all[i], ps[i])
      {
        if i > 0 {
          assert all[i] == rest[i - 1] && ps[i] == ps[1..][i - 1];
        }
      }
    }
  }

  lemma {:induction false} SegmentsBack(query: string) returns (segments: seq<string>)
    ensures NoAmpersand(segments) && Ampersands(segments) == query
    decreases |query|
  {
    var amp := IndexOf(query, '&');
    if amp == |query| {
      assert query[..amp] == query;
      segments := [query];
    } else {
      var more := SegmentsBack(query[amp + 1..]);
      segments := [query[..amp]] + more;
      assert segments[1..] == more;
      assert query == query[..amp] + "&" + query[amp + 1..];
    }
  }

  /** The parameters of a query are those of its non-empty segments, in order. */
  lemma QueryIff(query: string, ps: seq<QueryParam>)
    ensures QueryParams(query) == Some(ps) <==>
              exists segments :: NoAmpersand(segments) && Ampersands(segments) == query && MeanParams(Filled(segments), ps)
  {
    hide QueryParams, NoAmpersand, Ampersands, MeanParams, Filled;
    if segments :| NoAmpersand(segments) && Ampersands(segments) == query && MeanParams(Filled(segments), ps) {
      QueryForth(segments, ps);
    }
    if QueryParams(query) == Some(ps) {
      var segments := SegmentsBack(query);
      QueryForth(segments, ps);
    }
  }
}
