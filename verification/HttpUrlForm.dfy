/**
 URLs put together from their parts: every one of the form the parser takes is
 parsed, and its fields are exactly where the parts were put.
 */
module HttpUrlForm {
  import opened Serial
  import opened HttpUrl

  // ---------- the parts of a URL ----------

  /** A name or IPv4 address, or an IPv6 address in brackets with or without a zone. */
  datatype HostPart = Name(name: seq<byte>) | V6Addr(addr: seq<byte>, zone: Option<seq<byte>>)

  datatype Authority = Authority(user: Option<seq<byte>>, host: HostPart, port: Option<seq<byte>>)

  datatype Parts = Parts(schema: seq<byte>, auth: Option<Authority>, path: seq<byte>, query: Option<seq<byte>>,
                         fragment: Option<seq<byte>>)

  const SLASHES: seq<byte> := [58, 47, 47]

  /** An optional part behind its delimiter. */
  function Behind(c: byte, part: Option<seq<byte>>): seq<byte> {
    if part.Some? then [c] + part.value else []
  }

  function UserText(a: Authority): seq<byte> {
    if a.user.Some? then a.user.value + [64] else []
  }

  function HostText(h: HostPart): seq<byte> {
    match h
    case Name(name) => name
    case V6Addr(addr, zone) => [91] + (addr + Behind(37, zone)) + [93]
  }

  function AuthText(a: Authority): seq<byte> {
    UserText(a) + HostText(a.host) + Behind(58, a.port)
  }

  function TailText(p: Parts): seq<byte> {
    p.path + Behind(63, p.query) + Behind(35, p.fragment)
  }

  function FrontText(p: Parts): seq<byte> {
    if p.schema == [] then [] else p.schema + SLASHES
  }

  function UrlText(p: Parts): seq<byte> {
    FrontText(p) + (if p.auth.Some? then AuthText(p.auth.value) else []) + TailText(p)
  }

  // ---------- what is well formed ----------

  predicate IsV6Char(c: byte) {
    IsHex(c) || c == 58 || c == 46
  }

  predicate IsQueryChar(c: byte) {
    IsUrlChar(c) || c == 63
  }

  predicate IsFragmentChar(c: byte) {
    IsUrlChar(c) || c == 63 || c == 35
  }

  ghost predicate All(s: seq<byte>, ok: byte -> bool) {
    forall i :: 0 <= i < |s| ==> ok(s[i])
  }

  ghost predicate HostOk(h: HostPart) {
    match h
    case Name(name) => name != [] && All(name, IsHostChar)
    case V6Addr(addr, zone) =>
      && addr != [] && All(addr, IsV6Char)
      && (zone.Some? ==> zone.value != [] && All(zone.value, IsZoneChar))
  }

  ghost predicate AuthOk(a: Authority) {
    && (a.user.Some? ==> All(a.user.value, IsUserInfoChar))
    && HostOk(a.host)
    && (a.port.Some? ==> a.port.value != [] && All(a.port.value, IsNum) && Decimal(a.port.value) <= 0xffff)
  }

  ghost predicate TailOk(p: Parts) {
    && All(p.path, IsUrlChar)
    && (p.query.Some? ==> All(p.query.value, IsQueryChar))
    && (p.fragment.Some? ==>
          && All(p.fragment.value, IsFragmentChar)
          && (p.fragment.value != [] ==> p.fragment.value[0] != 35))
  }

  /**
   A whole URL, a path, or for CONNECT a host with its port. Behind the host a
   fragment needs a path or a query in between.
   */
  ghost predicate WellFormed(p: Parts, connect: bool) {
    && TailOk(p) && AllAlpha(p.schema)
    && match p.auth
       case None =>
         !connect && p.schema == [] && p.path != [] && p.path[0] in {47, 42}
       case Some(a) =>
         && AuthOk(a)
         && if connect then
              p.schema == [] && TailText(p) == [] && a.port.Some? && UserText(a) in {[], [64]}
            else
              && p.schema != [] && (p.path != [] ==> p.path[0] == 47)
              && (p.fragment.Some? ==> p.path != [] || p.query.Some?)
  }

  // ---------- where the parts are ----------

  /** A part that is not empty is a field. */
  function With(fields: map<Uf, Range>, f: Uf, off: nat, part: seq<byte>): map<Uf, Range> {
    if part == [] then fields else fields[f := Range(off, |part|)]
  }

  function Given(part: Option<seq<byte>>): seq<byte> {
    if part.Some? then part.value else []
  }

  /** The field of a host: for an IPv6 address what is between the brackets. */
  function HostRange(h: HostPart, i: nat): Range {
    match h
    case Name(name) => Range(i, |name|)
    case V6Addr(addr, zone) => Range(i + 1, |addr + Behind(37, zone)|)
  }

  function AuthFields(a: Authority, i: nat, fields: map<Uf, Range>): map<Uf, Range> {
    var j := i + |UserText(a)|;
    With(With(fields, UserInfo, i, Given(a.user))[Host := HostRange(a.host, j)],
         Port, j + |HostText(a.host)| + 1, Given(a.port))
  }

  function TailFields(p: Parts, i: nat, fields: map<Uf, Range>): map<Uf, Range> {
    var j := i + |p.path|;
    With(With(With(fields, Path, i, p.path), Query, j + 1, Given(p.query)),
         Fragment, j + |Behind(63, p.query)| + 1, Given(p.fragment))
  }

  function FrontFields(p: Parts): map<Uf, Range> {
    With(map[], Schema, 0, p.schema)
  }

  function UrlFields(p: Parts): map<Uf, Range> {
    var i := |FrontText(p)|;
    match p.auth
    case None => TailFields(p, i, FrontFields(p))
    case Some(a) => AuthFields(a, i, TailFields(p, i + |AuthText(a)|, FrontFields(p)))
  }

  // ---------- the first automaton on a part ----------

  function MarkAll(sc: Scan, i: nat, s: seq<byte>): Scan {
    if s == [] then sc else Mark(MarkAll(sc, i, s[..|s| - 1]), i + |s| - 1, s[|s| - 1])
  }

  lemma {:induction false} MarkAppend(sc: Scan, i: nat, s: seq<byte>, t: seq<byte>)
    ensures MarkAll(sc, i, s + t) == MarkAll(MarkAll(sc, i, s), i + |s|, t)
  {
    hide Mark;
    if t == [] {
      assert s + t == s;
    } else {
      var init := t[..|t| - 1];
      MarkAppend(sc, i, s, init);
      assert (s + t)[..|s + t| - 1] == s + init;
    }
  }

  lemma MarkOne(sc: Scan, i: nat, c: byte)
    ensures MarkAll(sc, i, [c]) == Mark(sc, i, c)
  {
    hide Mark;
    assert [c][..0] == [] && MarkAll(sc, i, []) == sc;
  }

  lemma {:induction false} ScanIs(buf: seq<byte>, n: nat, connect: bool)
    requires n <= |buf|
    ensures ScanTo(buf, n, connect) == MarkAll(Begin(connect), 0, buf[..n])
  {
    hide Mark;
    if n > 0 {
      ScanIs(buf, n - 1, connect);
      assert buf[..n][..n - 1] == buf[..n - 1];
    }
  }

  /** Characters that lead to a state and stay in it are one field. */
  lemma {:induction false} FieldRun(sc: Scan, i: nat, s: seq<byte>, st: St, f: Uf)
    requires s != [] && UrlChar(sc.s, s[0]) == st && forall j :: 0 < j < |s| ==> UrlChar(st, s[j]) == st
    requires Field(st) == Some(f) && st != ServerWithAt && sc.last != Some(f)
    ensures MarkAll(sc, i, s) == Scan(st, sc.fields[f := Range(i, |s|)], Some(f), sc.at)
  {
    hide UrlChar;
    var init, c := s[..|s| - 1], s[|s| - 1];
    if init == [] {
      assert s == [c];
      MarkOne(sc, i, c);
    } else {
      FieldRun(sc, i, init, st, f);
    }
  }

  ghost predicate ServerText(s: seq<byte>) {
    && (forall j :: 0 <= j < |s| ==> IsUserInfoChar(s[j]) || s[j] in {64, 91, 93})
    && (forall j :: 0 < j < |s| && s[j] == 64 ==> s[j - 1] != 64)
  }

  /** User information, host and port together are the host field at first. */
  lemma {:induction false} ServerRun(sc: Scan, i: nat, s: seq<byte>)
    requires s != [] && sc.s == ServerStart && ServerText(s) && sc.last != Some(Host) && !sc.at
    ensures MarkAll(sc, i, s) ==
            Scan(if s[|s| - 1] == 64 then ServerWithAt else Server, sc.fields[Host := Range(i, |s|)], Some(Host), 64 in s)
  {
    hide IsUserInfoChar, UrlChar, Mark, ServerText;
    var init, c := s[..|s| - 1], s[|s| - 1];
    ServerInit(s);
    if init == [] {
      MarkOne(sc, i, c);
      ServerMark(sc, i, c);
    } else {
      ServerRun(sc, i, init);
      ServerMark(MarkAll(sc, i, init), i + |init|, c);
    }
  }

  lemma ServerInit(s: seq<byte>)
    requires s != [] && ServerText(s)
    ensures var init, c := s[..|s| - 1], s[|s| - 1];
            && ServerText(init) && s == init + [c] && (64 in s <==> 64 in init || c == 64)
            && (IsUserInfoChar(c) || c in {64, 91, 93}) && (c == 64 && init != [] ==> init[|init| - 1] != 64)
  {
    hide IsUserInfoChar;
  }

  lemma ServerMark(sc: Scan, i: nat, c: byte)
    requires IsUserInfoChar(c) || c in {64, 91, 93}
    requires sc.s == ServerStart || sc.s == Server || (sc.s == ServerWithAt && c != 64)
    ensures var st := if c == 64 then ServerWithAt else Server;
            Mark(sc, i, c) ==
              Scan(st, if sc.last == Some(Host) && Host in sc.fields
                       then sc.fields[Host := Range(sc.fields[Host].off, sc.fields[Host].len + 1)]
                       else sc.fields[Host := Range(i, 1)],
                   Some(Host), sc.at || c == 64)
  {
    hide IsUserInfoChar, UrlChar;
    ServerStep(c);
  }

  lemma ServerStep(c: byte)
    requires IsUserInfoChar(c) || c in {64, 91, 93}
    ensures var st := if c == 64 then ServerWithAt else Server;
            UrlChar(ServerStart, c) == st && UrlChar(Server, c) == st && (c != 64 ==> UrlChar(ServerWithAt, c) == st)
  {
  }

  // ---------- front, authority and tail ----------

  lemma FrontRun(p: Parts)
    requires AllAlpha(p.schema) && p.schema != []
    ensures MarkAll(Begin(false), 0, FrontText(p)) == Scan(ServerStart, FrontFields(p), Some(Schema), false)
  {
    var b, n := Begin(false), |p.schema|;
    forall j | 0 <= j < n
      ensures UrlChar(SpacesBeforeUrl, p.schema[j]) == UrlChar(InSchema, p.schema[j]) == InSchema
    {
      Letter(p.schema[j]);
    }
    hide UrlChar, MarkAll;
    FieldRun(b, 0, p.schema, InSchema, Schema);
    var sc := MarkAll(b, 0, p.schema);
    MarkAppend(b, 0, p.schema, SLASHES);
    SlashesRun(sc, n);
  }

  lemma Letter(c: byte)
    requires IsAlpha(c)
    ensures UrlChar(SpacesBeforeUrl, c) == UrlChar(InSchema, c) == InSchema
  {
  }

  lemma SlashesRun(sc: Scan, n: nat)
    requires sc.s == InSchema
    ensures MarkAll(sc, n, SLASHES) == sc.(s := ServerStart)
  {
    assert Mark(sc, n, 58) == sc.(s := SchemaSlash);
    assert Mark(sc.(s := SchemaSlash), n + 1, 47) == sc.(s := SchemaSlashSlash);
    assert Mark(sc.(s := SchemaSlashSlash), n + 2, 47) == sc.(s := ServerStart);
    assert SLASHES == [58] + ([47] + [47]);
    hide *;
    MarkAppend(sc, n, [58], [47] + [47]);
    MarkAppend(MarkAll(sc, n, [58]), n + 1, [47], [47]);
    MarkOne(sc, n, 58);
    MarkOne(MarkAll(sc, n, [58]), n + 1, 47);
    MarkOne(MarkAll(MarkAll(sc, n, [58]), n + 1, [47]), n + 2, 47);
  }

  /** A part behind its delimiter, or nothing. */
  lemma BehindRun(sc: Scan, i: nat, c: byte, part: Option<seq<byte>>, start: St, st: St, f: Uf)
    requires part.Some? ==> UrlChar(sc.s, c) == start && Field(start) == None
    requires part.Some? && part.value != [] ==>
               UrlChar(start, part.value[0]) == st && forall j :: 0 < j < |part.value| ==> UrlChar(st, part.value[j]) == st
    requires Field(st) == Some(f) && st != ServerWithAt && sc.last != Some(f)
    ensures var sc' := MarkAll(sc, i, Behind(c, part));
            && sc'.fields == With(sc.fields, f, i + 1, Given(part)) && sc'.at == sc.at
            && sc'.last == (if Given(part) == [] then sc.last else Some(f))
            && sc'.s == (if part.None? then sc.s else if part.value == [] then start else st)
  {
    hide UrlChar;
    if part.Some? {
      MarkAppend(sc, i, [c], part.value);
      MarkOne(sc, i, c);
      var at := Mark(sc, i, c);
      if part.value != [] {
        FieldRun(at, i + 1, part.value, st, f);
      }
    }
  }

  lemma PathRun(sc: Scan, i: nat, path: seq<byte>)
    requires All(path, IsUrlChar) && (sc.last == None || sc.last == Some(Host))
    requires path != [] ==> UrlChar(sc.s, path[0]) == InPath
    ensures var sc' := MarkAll(sc, i, path);
            && sc'.fields == With(sc.fields, Path, i, path) && sc'.at == sc.at
            && sc'.last in {None, Some(Host), Some(Path)} && sc'.s == (if path == [] then sc.s else InPath)
  {
    if path != [] {
      forall j | 0 < j < |path|
        ensures UrlChar(InPath, path[j]) == InPath
      {
        UrlCharStays(path[j]);
      }
      hide UrlChar;
      FieldRun(sc, i, path, InPath, Path);
    }
  }

  /** The characters of a part keep the automaton in it. */
  lemma UrlCharStays(c: byte)
    ensures IsUrlChar(c) ==> UrlChar(InPath, c) == InPath
    ensures IsQueryChar(c) ==> UrlChar(QueryStart, c) == InQuery && UrlChar(InQuery, c) == InQuery
    ensures IsFragmentChar(c) ==> UrlChar(InFragment, c) == InFragment && (c != 35 ==> UrlChar(FragmentStart, c) == InFragment)
  {
  }

  lemma TailRun(sc: Scan, i: nat, p: Parts)
    requires TailOk(p) && (sc.last == None || sc.last == Some(Host))
    requires p.path != [] ==> UrlChar(sc.s, p.path[0]) == InPath
    requires p.path == [] ==> sc.s == Server && (p.fragment.Some? ==> p.query.Some?)
    ensures var sc' := MarkAll(sc, i, TailText(p));
            sc'.s != Dead && sc'.fields == TailFields(p, i, sc.fields) && sc'.at == sc.at
  {
    hide UrlChar, MarkAll, Mark, All, Behind, With;
    var q, f := Behind(63, p.query), Behind(35, p.fragment);
    var j := i + |p.path|;
    MarkAppend(sc, i, p.path + q, f);
    MarkAppend(sc, i, p.path, q);
    PathRun(sc, i, p.path);
    var sc1 := MarkAll(sc, i, p.path);
    QueryRun(sc1, j, p.query);
    FragmentRun(MarkAll(sc1, j, q), j + |q|, p.fragment);
  }

  lemma QueryRun(sc: Scan, i: nat, query: Option<seq<byte>>)
    requires sc.s in {Server, InPath} && (query.Some? ==> All(query.value, IsQueryChar)) && sc.last != Some(Query)
    ensures var sc' := MarkAll(sc, i, Behind(63, query));
            && sc'.fields == With(sc.fields, Query, i + 1, Given(query)) && sc'.at == sc.at
            && sc'.last in {sc.last, Some(Query)}
            && (if query.Some? then sc'.s in {QueryStart, InQuery} else sc'.s == sc.s)
  {
    assert UrlChar(InPath, 63) == UrlChar(Server, 63) == QueryStart;
    if query.Some? {
      forall j | 0 <= j < |query.value|
        ensures UrlChar(QueryStart, query.value[j]) == UrlChar(InQuery, query.value[j]) == InQuery
      {
        UrlCharStays(query.value[j]);
      }
    }
    hide UrlChar, MarkAll;
    BehindRun(sc, i, 63, query, QueryStart, InQuery, Query);
  }

  lemma FragmentRun(sc: Scan, i: nat, fragment: Option<seq<byte>>)
    requires fragment.Some? ==>
               && sc.s in {InPath, QueryStart, InQuery} && All(fragment.value, IsFragmentChar)
               && (fragment.value != [] ==> fragment.value[0] != 35)
    requires sc.s != Dead && sc.last != Some(Fragment)
    ensures var sc' := MarkAll(sc, i, Behind(35, fragment));
            sc'.fields == With(sc.fields, Fragment, i + 1, Given(fragment)) && sc'.at == sc.at && sc'.s != Dead
  {
    assert UrlChar(InPath, 35) == UrlChar(QueryStart, 35) == UrlChar(InQuery, 35) == FragmentStart;
    if fragment.Some? {
      forall j | 0 <= j < |fragment.value|
        ensures UrlChar(InFragment, fragment.value[j]) == InFragment
        ensures j == 0 ==> UrlChar(FragmentStart, fragment.value[j]) == InFragment
      {
        UrlCharStays(fragment.value[j]);
      }
    }
    hide UrlChar, MarkAll;
    BehindRun(sc, i, 35, fragment, FragmentStart, InFragment, Fragment);
  }

  // ---------- the second automaton on a part ----------

  function HostAll(h: HostScan, i: nat, s: seq<byte>): HostScan {
    if s == [] then h else HostMark(HostAll(h, i, s[..|s| - 1]), i + |s| - 1, s[|s| - 1])
  }

  lemma {:induction false} HostAppend(h: HostScan, i: nat, s: seq<byte>, t: seq<byte>)
    ensures HostAll(h, i, s + t) == HostAll(HostAll(h, i, s), i + |s|, t)
  {
    hide HostMark;
    if t == [] {
      assert s + t == s;
    } else {
      var init := t[..|t| - 1];
      HostAppend(h, i, s, init);
      assert (s + t)[..|s + t| - 1] == s + init;
    }
  }

  lemma HostOne(h: HostScan, i: nat, c: byte)
    ensures HostAll(h, i, [c]) == HostMark(h, i, c)
  {
    hide HostMark;
    assert [c][..0] == [] && HostAll(h, i, []) == h;
  }

  lemma {:induction false} HostToIs(buf: seq<byte>, from: nat, n: nat, h: HostScan)
    requires from <= n <= |buf|
    ensures HostTo(buf, from, n, h) == HostAll(h, from, buf[from..n])
    decreases n
  {
    hide HostMark;
    if n > from {
      HostToIs(buf, from, n - 1, h);
      assert buf[from..n][..n - 1 - from] == buf[from..n - 1];
    }
  }

  /** Characters that lead to one of these states and stay in it are one field. */
  lemma {:induction false} HostRun(h: HostScan, i: nat, s: seq<byte>, st: HostSt, f: Uf)
    requires s != [] && HostChar(h.s, s[0]) == st != h.s && forall j :: 0 < j < |s| ==> HostChar(st, s[j]) == st
    requires (st, f) in {(InHost, Host), (V6, Host), (InPort, Port), (InUserInfo, UserInfo)}
    ensures HostAll(h, i, s) == HostScan(st, h.fields[f := Range(i, |s|)])
  {
    hide HostChar;
    var init, c := s[..|s| - 1], s[|s| - 1];
    if init == [] {
      assert s == [c];
      HostOne(h, i, c);
    } else {
      HostRun(h, i, init, st, f);
    }
  }

  /** A zone makes the host field longer. */
  lemma {:induction false} ZoneRun(h: HostScan, i: nat, s: seq<byte>)
    requires s != [] && h.s == V6 && Host in h.fields && s[0] == 37 && All(s[1..], IsZoneChar)
    ensures HostAll(h, i, s) ==
            HostScan(if |s| == 1 then ZoneStart else Zone,
                     h.fields[Host := Range(h.fields[Host].off, h.fields[Host].len + |s|)])
  {
    var init, c := s[..|s| - 1], s[|s| - 1];
    if init == [] {
      assert s == [c];
      HostOne(h, i, c);
    } else {
      assert init[1..] == s[1..][..|s| - 2];
      assert c == s[1..][|s| - 2];
      ZoneRun(h, i, init);
    }
  }

  lemma UserRun(h: HostScan, i: nat, a: Authority)
    requires AuthOk(a) && h.s == (if a.user.Some? then UserInfoStart else HostStart)
    ensures HostAll(h, i, UserText(a)) == HostScan(HostStart, With(h.fields, UserInfo, i, Given(a.user)))
  {
    hide HostAll, HostMark, HostChar, IsUserInfoChar, HostOk;
    if a.user.Some? {
      var u := a.user.value;
      HostAppend(h, i, u, [64]);
      if u == [] {
        HostNone(h, i);
      } else {
        forall j | 0 <= j < |u|
          ensures HostChar(UserInfoStart, u[j]) == HostChar(InUserInfo, u[j]) == InUserInfo
        {
          UserCharStays(u[j]);
        }
        HostRun(h, i, u, InUserInfo, UserInfo);
      }
      HostOne(HostAll(h, i, u), i + |u|, 64);
      AtMark(HostAll(h, i, u), i + |u|);
    } else {
      HostNone(h, i);
    }
  }

  lemma UserCharStays(c: byte)
    requires IsUserInfoChar(c)
    ensures HostChar(UserInfoStart, c) == HostChar(InUserInfo, c) == InUserInfo
  {
  }

  lemma AtMark(h: HostScan, i: nat)
    requires h.s in {UserInfoStart, InUserInfo}
    ensures HostMark(h, i, 64) == HostScan(HostStart, h.fields)
  {
  }

  lemma HostPartRun(h: HostScan, i: nat, p: HostPart)
    requires HostOk(p) && h.s == HostStart
    ensures HostAll(h, i, HostText(p)) ==
            HostScan(if p.Name? then InHost else V6End, h.fields[Host := HostRange(p, i)])
  {
    match p
    case Name(name) =>
      hide HostAll, HostMark;
      HostRun(h, i, name, InHost, Host);
    case V6Addr(addr, zone) =>
      V6Run(h, i, addr, zone);
  }

  lemma V6Run(h: HostScan, i: nat, addr: seq<byte>, zone: Option<seq<byte>>)
    requires HostOk(V6Addr(addr, zone)) && h.s == HostStart
    ensures HostAll(h, i, HostText(V6Addr(addr, zone))) ==
            HostScan(V6End, h.fields[Host := Range(i + 1, |addr + Behind(37, zone)|)])
  {
    hide HostAll, HostMark, HostOk;
    var z, h1 := Behind(37, zone), HostScan(V6Start, h.fields);
    var n := i + 1 + |addr + z|;
    HostAppend(h, i, [91] + (addr + z), [93]);
    HostAppend(h, i, [91], addr + z);
    HostOne(h, i, 91);
    BracketMark(h, i, 91);
    InnerRun(h1, i + 1, addr, zone);
    HostOne(HostAll(h1, i + 1, addr + z), n, 93);
    BracketMark(HostAll(h1, i + 1, addr + z), n, 93);
  }

  lemma BracketMark(h: HostScan, i: nat, c: byte)
    ensures h.s == HostStart && c == 91 ==> HostMark(h, i, c) == HostScan(V6Start, h.fields)
    ensures h.s in {V6, Zone} && c == 93 ==> HostMark(h, i, c) == HostScan(V6End, h.fields)
  {
  }

  /** What is between the brackets. */
  lemma InnerRun(h: HostScan, i: nat, addr: seq<byte>, zone: Option<seq<byte>>)
    requires HostOk(V6Addr(addr, zone)) && h.s == V6Start
    ensures HostAll(h, i, addr + Behind(37, zone)) ==
            HostScan(if zone.Some? then Zone else V6, h.fields[Host := Range(i, |addr + Behind(37, zone)|)])
  {
    hide HostAll, HostMark, HostChar, IsV6Char, IsZoneChar;
    var z := Behind(37, zone);
    HostAppend(h, i, addr, z);
    V6CharsRun(h, i, addr);
    if zone.Some? {
      assert z[1..] == zone.value;
      ZoneRun(HostAll(h, i, addr), i + |addr|, z);
    } else {
      assert addr + z == addr;
      assert HostAll(HostAll(h, i, addr), i + |addr|, []) == HostAll(h, i, addr) by {
        HostNone(HostAll(h, i, addr), i + |addr|);
      }
    }
  }

  lemma HostNone(h: HostScan, i: nat)
    ensures HostAll(h, i, []) == h
  {
  }

  lemma V6CharsRun(h: HostScan, i: nat, addr: seq<byte>)
    requires h.s == V6Start && addr != [] && All(addr, IsV6Char)
    ensures HostAll(h, i, addr) == HostScan(V6, h.fields[Host := Range(i, |addr|)])
  {
    hide HostAll, HostMark;
    forall j | 0 <= j < |addr|
      ensures HostChar(V6Start, addr[j]) == HostChar(V6, addr[j]) == V6
    {
    }
    hide HostChar, IsV6Char;
    HostRun(h, i, addr, V6, Host);
  }

  lemma PortRun(h: HostScan, i: nat, port: Option<seq<byte>>)
    requires h.s in {InHost, V6End} && (port.Some? ==> port.value != [] && All(port.value, IsNum))
    ensures HostAll(h, i, Behind(58, port)) ==
            HostScan(if port.Some? then InPort else h.s, With(h.fields, Port, i + 1, Given(port)))
  {
    if port.Some? {
      HostAppend(h, i, [58], port.value);
      HostOne(h, i, 58);
      HostRun(HostMark(h, i, 58), i + 1, port.value, InPort, Port);
    }
  }

  lemma AuthRun(h: HostScan, i: nat, a: Authority)
    requires AuthOk(a) && h.s == (if a.user.Some? then UserInfoStart else HostStart)
    ensures var h' := HostAll(h, i, AuthText(a)); HostComplete(h'.s) && h'.fields == AuthFields(a, i, h.fields)
  {
    hide HostAll, HostMark, AuthOk;
    var u, t, b := UserText(a), HostText(a.host), Behind(58, a.port);
    HostAppend(h, i, u + t, b);
    HostAppend(h, i, u, t);
    AuthParts(a);
    UserRun(h, i, a);
    HostPartRun(HostAll(h, i, u), i + |u|, a.host);
    PortRun(HostAll(h, i, u + t), i + |u + t|, a.port);
  }

  lemma AuthParts(a: Authority)
    requires AuthOk(a)
    ensures HostOk(a.host) && (a.port.Some? ==> a.port.value != [] && All(a.port.value, IsNum))
  {
  }

  // ---------- the theorem ----------

  /** The text of an authority passes the first automaton, which sees its @. */
  lemma AuthIsServer(a: Authority)
    requires AuthOk(a)
    ensures ServerText(AuthText(a)) && AuthText(a) != [] && AuthText(a)[|AuthText(a)| - 1] != 64
    ensures 64 in AuthText(a) <==> a.user.Some?
  {
    hide IsUserInfoChar, HostOk;
    var u, t, b := UserText(a), HostText(a.host), Behind(58, a.port);
    HostIsServer(a.host);
    PortIsServer(a.port);
    if a.user.Some? {
      UserIsServer(a.user.value);
    }
    hide *;
    TextJoins(u, t, b);
    assert AuthText(a) == u + t + b by {
      AuthTextIs(a);
    }
  }

  lemma AuthTextIs(a: Authority)
    ensures AuthText(a) == UserText(a) + HostText(a.host) + Behind(58, a.port)
  {
    hide UserText, HostText, Behind;
  }

  /** Text without an @ that the first automaton takes as part of the host. */
  ghost predicate Plain(s: seq<byte>) {
    forall j :: 0 <= j < |s| ==> (IsUserInfoChar(s[j]) || s[j] in {91, 93}) && s[j] != 64
  }

  lemma HostIsServer(h: HostPart)
    requires HostOk(h)
    ensures Plain(HostText(h)) && HostText(h) != []
  {
  }

  lemma PortIsServer(port: Option<seq<byte>>)
    requires port.Some? ==> All(port.value, IsNum)
    ensures Plain(Behind(58, port))
  {
  }

  lemma UserIsServer(u: seq<byte>)
    requires All(u, IsUserInfoChar)
    ensures Plain(u)
  {
  }

  lemma TextJoins(u: seq<byte>, t: seq<byte>, b: seq<byte>)
    requires Plain(t) && t != [] && Plain(b)
    requires u == [] || (Plain(u[..|u| - 1]) && u[|u| - 1] == 64)
    ensures var s := u + t + b; ServerText(s) && s != [] && s[|s| - 1] != 64 && (64 in s <==> u != [])
  {
    hide IsUserInfoChar;
    var s := u + t + b;
    assert u != [] ==> s[|u| - 1] == 64;
    assert forall j :: 0 <= j < |s| && j >= |u| ==> s[j] == (t + b)[j - |u|] && s[j] != 64;
    assert forall j :: 0 <= j < |u| - 1 ==> s[j] == u[..|u| - 1][j];
  }

  /** The first loop on a URL with a host: the host field is the whole authority. */
  lemma ScanWhole(p: Parts, a: Authority, connect: bool)
    requires WellFormed(p, connect) && p.auth == Some(a)
    ensures var buf, i, n := UrlText(p), |FrontText(p)|, |AuthText(a)|;
            var sc := ScanTo(buf, |buf|, connect);
            && sc.s != Dead && sc.at == a.user.Some?
            && sc.fields == TailFields(p, i + n, FrontFields(p)[Host := Range(i, n)])
  {
    hide MarkAll, UrlChar, AuthOk, ServerText, AuthText, TailText, TailFields;
    var buf, front, auth, b := UrlText(p), FrontText(p), AuthText(a), Begin(connect);
    ScanIs(buf, |buf|, connect);
    assert buf[..|buf|] == buf == front + auth + TailText(p);
    MarkAppend(b, 0, front + auth, TailText(p));
    MarkAppend(b, 0, front, auth);
    if connect {
      MarkNone(b, 0);
      NoTail(p);
    } else {
      FrontRun(p);
      SlashPath();
    }
    AuthIsServer(a);
    ServerRun(MarkAll(b, 0, front), |front|, auth);
    TailRun(MarkAll(b, 0, front + auth), |front + auth|, p);
  }

  lemma MarkNone(sc: Scan, i: nat)
    ensures MarkAll(sc, i, []) == sc
  {
  }

  lemma NoTail(p: Parts)
    requires TailText(p) == []
    ensures p.path == [] && p.query == None && p.fragment == None
  {
    assert |TailText(p)| == |p.path| + |Behind(63, p.query)| + |Behind(35, p.fragment)|;
  }

  lemma SlashPath()
    ensures UrlChar(Server, 47) == UrlChar(SpacesBeforeUrl, 47) == UrlChar(SpacesBeforeUrl, 42) == InPath
  {
  }

  /** The other fields do not depend on where the host was. */
  lemma WithoutHost(p: Parts, i: nat, fields: map<Uf, Range>, r: Range)
    requires Host !in fields
    ensures TailFields(p, i, fields[Host := r]) - {Host} == TailFields(p, i, fields)
    ensures TailFields(p, i, fields[Host := r]).Keys == TailFields(p, i, fields).Keys + {Host}
    ensures TailFields(p, i, fields[Host := r])[Host] == r
  {
  }

  /** The port field is where the digits are. */
  lemma PortSlice(p: Parts, a: Authority)
    requires p.auth == Some(a) && a.port.Some?
    ensures var r := Range(|FrontText(p)| + |UserText(a)| + |HostText(a.host)| + 1, |a.port.value|);
            r.End() <= |UrlText(p)| && Slice(UrlText(p), r) == a.port.value
  {
    hide FrontText, UserText, HostText, TailText;
    var u, h, t := UserText(a), HostText(a.host), TailText(p);
    var before := FrontText(p) + u + h + [58];
    assert UrlText(p) == before + (a.port.value + t);
    assert (before + (a.port.value + t))[|before|..|before| + |a.port.value|] == a.port.value;
  }

  /** The second loop on a URL with a host. */
  lemma SplitWhole(p: Parts, a: Authority, connect: bool)
    requires WellFormed(p, connect) && p.auth == Some(a)
    ensures UrlText(p) != []
    ensures var sc := ScanTo(UrlText(p), |UrlText(p)|, connect);
            && sc.s != Dead && Host in sc.fields && sc.fields[Host].End() <= |UrlText(p)|
            && HostComplete(SplitHost(UrlText(p), sc).s) && SplitHost(UrlText(p), sc).fields == UrlFields(p)
  {
    hide ScanTo, HostTo, HostAll, AuthOk, AuthText, TailText, TailFields, AuthFields, FrontText;
    var buf, i, n := UrlText(p), |FrontText(p)|, |AuthText(a)|;
    var sc := ScanTo(buf, |buf|, connect);
    ScanWhole(p, a, connect);
    WithoutHost(p, i + n, FrontFields(p), Range(i, n));
    var h := HostScan(if sc.at then UserInfoStart else HostStart, sc.fields - {Host});
    assert buf[i..i + n] == AuthText(a);
    AuthIsServer(a);
    HostToIs(buf, i, i + n, h);
    AuthRun(h, i, a);
  }

  /** Which fields a URL with a host has. */
  lemma FieldsGiven(p: Parts, a: Authority, connect: bool)
    requires WellFormed(p, connect) && p.auth == Some(a)
    ensures Port in UrlFields(p) <==> a.port.Some?
    ensures a.port.Some? ==>
              UrlFields(p)[Port] == Range(|FrontText(p)| + |UserText(a)| + |HostText(a.host)| + 1, |a.port.value|)
    ensures connect ==> UrlFields(p).Keys == {Host, Port}
  {
    hide HostText, FrontText, HostOk, IsUrlChar, HostRange, TailOk;
    if connect {
      NoTail(p);
      assert FrontFields(p) == map[];
    }
    hide TailText, AllAlpha;
  }

  /**
   Every URL put together from well-formed parts is parsed, with exactly the parts as
   its fields, and the value of the port.
   */
  lemma UrlComplete(p: Parts, connect: bool)
    requires WellFormed(p, connect)
    ensures ParseUrl(UrlText(p), connect) ==
            Some(Url(UrlFields(p), if p.auth.Some? && p.auth.value.port.Some? then Decimal(p.auth.value.port.value) else 0))
  {
    hide ScanTo, SplitHost, ParseUrl, UrlFields, UrlText, FrontText, UserText, HostText, Decimal, Slice, TailOk, TailText;
    match p.auth
    case None => PathComplete(p);
    case Some(a) =>
      SplitWhole(p, a, connect);
      FieldsGiven(p, a, connect);
      if a.port.Some? {
        PortSlice(p, a);
      }
      ParseSplit(UrlText(p), connect, UrlFields(p), a.port);
  }

  /** The outcome when both loops have succeeded. */
  lemma ParseSplit(buf: seq<byte>, connect: bool, fields: map<Uf, Range>, port: Option<seq<byte>>)
    requires buf != []
    requires var sc := ScanTo(buf, |buf|, connect);
             && sc.s != Dead && Host in sc.fields
             && HostComplete(SplitHost(buf, sc).s) && SplitHost(buf, sc).fields == fields
    requires connect ==> fields.Keys == {Host, Port}
    requires Port in fields <==> port.Some?
    requires port.Some? ==>
               fields[Port].End() <= |buf| && Slice(buf, fields[Port]) == port.value && Decimal(port.value) <= 0xffff
    ensures ParseUrl(buf, connect) == Some(Url(fields, if port.Some? then Decimal(port.value) else 0))
  {
    hide ScanTo, SplitHost, Decimal, Slice;
  }

  lemma PathComplete(p: Parts)
    requires WellFormed(p, false) && p.auth == None
    ensures ParseUrl(UrlText(p), false) == Some(Url(UrlFields(p), 0))
  {
    hide ScanTo, UrlChar, MarkAll, SplitHost;
    var buf, b := UrlText(p), Begin(false);
    assert [] + [] + TailText(p) == TailText(p);
    ScanIs(buf, |buf|, false);
    assert buf[..|buf|] == buf;
    SlashPath();
    TailRun(b, 0, p);
  }

  /** A fragment directly behind the host, which RFC 3986 allows, is refused. */
  lemma FragmentBehindHost(p: Parts, a: Authority, f: seq<byte>)
    requires p == Parts(p.schema, Some(a), [], None, Some(f)) && p.schema != [] && AllAlpha(p.schema) && AuthOk(a)
    ensures ParseUrl(UrlText(p), false) == None
  {
    hide MarkAll, UrlChar, AuthOk, ServerText, AuthText, FrontText;
    var buf, front, auth, b := UrlText(p), FrontText(p), AuthText(a), Begin(false);
    var n := |front + auth|;
    assert buf == front + auth + ([35] + f);
    assert buf[..n + 1] == front + auth + [35] && buf[..n] == front + auth && buf[n] == 35;
    MarkAppend(b, 0, front, auth);
    FrontRun(p);
    AuthIsServer(a);
    ServerRun(MarkAll(b, 0, front), |front|, auth);
    ScanIs(buf, n, false);
    assert UrlChar(Server, 35) == Dead by {
      NoFragment();
    }
    assert ScanTo(buf, n + 1, false) == Mark(ScanTo(buf, n, false), n, 35);
    DeadStays(buf, n + 1, |buf|, false);
  }

  lemma NoFragment()
    ensures UrlChar(Server, 35) == Dead
  {
  }
}
