/**
 http_parser_parse_url: an automaton over the characters marks the fields, a
 second one splits the host part into user information, host and port.
 */
module HttpUrl {
  import opened Serial

  const SIZE_LIMIT: int := 0xffff

  datatype Uf = Schema | Host | Port | Path | Query | Fragment | UserInfo

  datatype Range = Range(off: nat, len: nat) {
    function End(): nat {
      off + len
    }
  }

  datatype Option<T> = None | Some(value: T)

  // ---------- character classes ----------

  predicate IsAlpha(c: byte) {
    65 <= c <= 90 || 97 <= c <= 122
  }

  predicate IsNum(c: byte) {
    48 <= c <= 57
  }

  predicate IsHex(c: byte) {
    IsNum(c) || 65 <= c <= 70 || 97 <= c <= 102
  }

  predicate IsUserInfoChar(c: byte) {
    IsAlpha(c) || IsNum(c) || c as char in "-_.!~*'()%;:&=+$,"
  }

  predicate IsHostChar(c: byte) {
    IsAlpha(c) || IsNum(c) || c as char in ".-"
  }

  predicate IsZoneChar(c: byte) {
    IsAlpha(c) || IsNum(c) || c as char in "%.-_~"
  }

  /** The strict table of characters of a path, query or fragment: printable, but not # or ?. */
  predicate IsUrlChar(c: byte) {
    33 <= c <= 126 && c != 35 && c != 63
  }

  // ---------- the first automaton ----------

  datatype St = Dead | SpacesBeforeUrl | InSchema | SchemaSlash | SchemaSlashSlash | ServerStart | Server | ServerWithAt
              | InPath | QueryStart | InQuery | FragmentStart | InFragment

  /** parse_url_char. */
  function UrlChar(s: St, c: byte): St {
    var ch := c as char;
    if ch in " \r\n\t" || c == 12 then Dead
    else
      match s
      case SpacesBeforeUrl => if ch == '/' || ch == '*' then InPath else if IsAlpha(c) then InSchema else Dead
      case InSchema => if IsAlpha(c) then InSchema else if ch == ':' then SchemaSlash else Dead
      case SchemaSlash => if ch == '/' then SchemaSlashSlash else Dead
      case SchemaSlashSlash => if ch == '/' then ServerStart else Dead
      case ServerWithAt => if ch == '@' then Dead else ServerChar(c)
      case ServerStart => ServerChar(c)
      case Server => ServerChar(c)
      case InPath => if IsUrlChar(c) then InPath else if ch == '?' then QueryStart else if ch == '#' then FragmentStart else Dead
      case QueryStart => QueryChar(c)
      case InQuery => QueryChar(c)
      case FragmentStart => if IsUrlChar(c) || ch == '?' then InFragment else if ch == '#' then FragmentStart else Dead
      case InFragment => if IsUrlChar(c) || ch == '?' || ch == '#' then InFragment else Dead
      case Dead => Dead
  }

  function ServerChar(c: byte): St {
    var ch := c as char;
    if ch == '/' then InPath
    else if ch == '?' then QueryStart
    else if ch == '@' then ServerWithAt
    else if IsUserInfoChar(c) || ch == '[' || ch == ']' then Server
    else Dead
  }

  function QueryChar(c: byte): St {
    if IsUrlChar(c) || c as char == '?' then InQuery else if c as char == '#' then FragmentStart else Dead
  }

  /** The field a state belongs to; the others are delimiters. */
  function Field(s: St): Option<Uf> {
    match s
    case InSchema => Some(Schema)
    case Server => Some(Host)
    case ServerWithAt => Some(Host)
    case InPath => Some(Path)
    case InQuery => Some(Query)
    case InFragment => Some(Fragment)
    case _ => None
  }

  /** The first loop: the state, the fields so far, the field last touched, and whether an @ has been seen. */
  datatype Scan = Scan(s: St, fields: map<Uf, Range>, last: Option<Uf>, at: bool)

  function Mark(sc: Scan, i: nat, c: byte): Scan {
    var s := UrlChar(sc.s, c);
    match Field(s)
    case None => sc.(s := s)
    case Some(f) =>
      Scan(s,
           if sc.last == Some(f) && f in sc.fields then sc.fields[f := Range(sc.fields[f].off, sc.fields[f].len + 1)]
           else sc.fields[f := Range(i, 1)],
           Some(f), sc.at || s == ServerWithAt)
  }

  function Begin(connect: bool): Scan {
    Scan(if connect then ServerStart else SpacesBeforeUrl, map[], None, false)
  }

  function ScanTo(buf: seq<byte>, n: nat, connect: bool): (sc: Scan)
    requires n <= |buf|
    ensures forall f :: f in sc.fields ==> sc.fields[f].End() <= n
  {
    if n == 0 then Begin(connect) else Mark(ScanTo(buf, n - 1, connect), n - 1, buf[n - 1])
  }

  // ---------- the second automaton ----------

  datatype HostSt = HostDead | UserInfoStart | InUserInfo | HostStart | V6Start | InHost | V6 | V6End
                  | ZoneStart | Zone | PortStart | InPort

  /** http_parse_host_char. */
  function HostChar(s: HostSt, c: byte): HostSt {
    var ch := c as char;
    match s
    case InUserInfo => if ch == '@' then HostStart else if IsUserInfoChar(c) then InUserInfo else HostDead
    case UserInfoStart => if ch == '@' then HostStart else if IsUserInfoChar(c) then InUserInfo else HostDead
    case HostStart => if ch == '[' then V6Start else if IsHostChar(c) then InHost else HostDead
    case InHost => if IsHostChar(c) then InHost else if ch == ':' then PortStart else HostDead
    case V6End => if ch == ':' then PortStart else HostDead
    case V6 => if ch == ']' then V6End else if IsHex(c) || ch == ':' || ch == '.' then V6 else if ch == '%' then ZoneStart else HostDead
    case V6Start => if IsHex(c) || ch == ':' || ch == '.' then V6 else HostDead
    case Zone => if ch == ']' then V6End else if IsZoneChar(c) then Zone else HostDead
    case ZoneStart => if IsZoneChar(c) then Zone else HostDead
    case InPort => if IsNum(c) then InPort else HostDead
    case PortStart => if IsNum(c) then InPort else HostDead
    case HostDead => HostDead
  }

  /** The second loop: the state and the fields. */
  datatype HostScan = HostScan(s: HostSt, fields: map<Uf, Range>)

  function Grow(fields: map<Uf, Range>, f: Uf, fresh': bool, i: nat): map<Uf, Range> {
    if fresh' || f !in fields then fields[f := Range(i, 1)]
    else fields[f := Range(fields[f].off, fields[f].len + 1)]
  }

  function HostMark(h: HostScan, i: nat, c: byte): HostScan {
    var s := HostChar(h.s, c);
    match s
    case InHost => HostScan(s, Grow(h.fields, Host, h.s != InHost, i))
    case V6 => HostScan(s, Grow(h.fields, Host, h.s != V6, i))
    case ZoneStart => HostScan(s, Grow(h.fields, Host, false, i))
    case Zone => HostScan(s, Grow(h.fields, Host, false, i))
    case InPort => HostScan(s, Grow(h.fields, Port, h.s != InPort, i))
    case InUserInfo => HostScan(s, Grow(h.fields, UserInfo, h.s != InUserInfo, i))
    case _ => HostScan(s, h.fields)
  }

  function HostTo(buf: seq<byte>, from: nat, n: nat, h: HostScan): HostScan
    requires from <= n <= |buf|
    decreases n - from
  {
    if n == from then h else HostMark(HostTo(buf, from, n - 1, h), n - 1, buf[n - 1])
  }

  predicate HostComplete(s: HostSt) {
    s == InHost || s == V6End || s == InPort
  }

  function Decimal(digits: seq<byte>): (v: int) {
    if digits == [] then 0 else Decimal(digits[..|digits| - 1]) * 10 + digits[|digits| - 1] as int - 48
  }

  datatype Url = Url(fields: map<Uf, Range>, port: int)

  function SplitHost(buf: seq<byte>, sc: Scan): (h: HostScan)
    requires Host in sc.fields && sc.fields[Host].End() <= |buf|
  {
    var r := sc.fields[Host];
    HostTo(buf, r.off, r.End(), HostScan(if sc.at then UserInfoStart else HostStart, sc.fields - {Host}))
  }

  /** http_parser_parse_url: the fields and the port, or None where it returns 1. */
  function ParseUrl(buf: seq<byte>, connect: bool): Option<Url> {
    var sc := ScanTo(buf, |buf|, connect);
    if buf == [] || sc.s == Dead || (Schema in sc.fields && Host !in sc.fields) then None
    else if Host !in sc.fields then (if connect then None else Some(Url(sc.fields, 0)))
    else
      var h := SplitHost(buf, sc);
      if !HostComplete(h.s) || (connect && h.fields.Keys != {Host, Port}) then None
      else if Port !in h.fields then Some(Url(h.fields, 0))
      else if h.fields[Port].End() > |buf| || Decimal(Slice(buf, h.fields[Port])) > 0xffff then None
      else Some(Url(h.fields, Decimal(Slice(buf, h.fields[Port]))))
  }

  function Slice(buf: seq<byte>, r: Range): seq<byte>
    requires r.End() <= |buf|
  {
    buf[r.off..r.End()]
  }

  // ---------- what the first loop has found ----------

  function Rank(f: Uf): nat {
    match f
    case Schema => 0
    case UserInfo => 1
    case Host => 2
    case Port => 3
    case Path => 4
    case Query => 5
    case Fragment => 6
  }

  /** The last field that can be set in a state. */
  ghost function Reach(s: St): int {
    match s
    case SpacesBeforeUrl => -1
    case InSchema => Rank(Schema)
    case SchemaSlash => Rank(Schema)
    case SchemaSlashSlash => Rank(Schema)
    case ServerStart => Rank(Schema)
    case Server => Rank(Host)
    case ServerWithAt => Rank(Host)
    case InPath => Rank(Path)
    case QueryStart => Rank(Path)
    case InQuery => Rank(Query)
    case FragmentStart => Rank(Query)
    case InFragment => Rank(Fragment)
    case Dead => 7
  }

  ghost predicate Ordered(fields: map<Uf, Range>, n: nat) {
    && (forall f :: f in fields ==> 0 < fields[f].len && fields[f].End() <= n)
    && (forall f, g :: f in fields && g in fields && Rank(f) < Rank(g) ==> fields[f].End() <= fields[g].off)
  }

  ghost predicate AllAlpha(s: seq<byte>) {
    forall i :: 0 <= i < |s| ==> IsAlpha(s[i])
  }

  /** "://" at position i. */
  ghost predicate SlashesAt(buf: seq<byte>, i: int) {
    Before(buf, i + 1, 58) && Before(buf, i + 2, 47) && Before(buf, i + 3, 47)
  }

  ghost predicate Before(buf: seq<byte>, i: int, c: byte) {
    0 < i <= |buf| && buf[i - 1] == c
  }

  /** The fields the first loop can set, one by one. */
  datatype View = View(schema: Option<Range>, host: Option<Range>, path: Option<Range>, query: Option<Range>,
                       fragment: Option<Range>)

  ghost function Get(fields: map<Uf, Range>, f: Uf): Option<Range> {
    if f in fields then Some(fields[f]) else None
  }

  ghost function ViewOf(fields: map<Uf, Range>): View {
    View(Get(fields, Schema), Get(fields, Host), Get(fields, Path), Get(fields, Query), Get(fields, Fragment))
  }

  /** The first loop after n characters: the fields in order, and the last of them. */
  ghost predicate Tidy(n: nat, sc: Scan) {
    && Ordered(sc.fields, n) && UserInfo !in sc.fields && Port !in sc.fields
    && (forall f :: f in sc.fields ==> Rank(f) <= Reach(sc.s))
    && (sc.last == None ==> sc.fields == map[])
    && (sc.last.Some? ==> sc.last.value in sc.fields && forall f :: f in sc.fields ==> Rank(f) <= Rank(sc.last.value))
    && (Field(sc.s).Some? ==> sc.last == Field(sc.s) && sc.fields[sc.last.value].End() == n)
  }

  /** And what is between them. */
  ghost predicate Around(buf: seq<byte>, n: nat, s: St, v: View, connect: bool)
    requires n <= |buf|
  {
    Between(buf, n, v, connect) && Here(buf, n, s, v, connect)
  }

  ghost predicate Between(buf: seq<byte>, n: nat, v: View, connect: bool) {
    && (v.schema.Some? ==> !connect && SchemaOk(buf, n, v.schema.value))
    && (v.query.Some? ==> Before(buf, v.query.value.off, 63))
    && (v.fragment.Some? ==> Before(buf, v.fragment.value.off, 35))
    && (v.host.Some? ==>
          if v.schema.Some? then v.host.value.off == v.schema.value.End() + 3 && SlashesAt(buf, v.schema.value.End())
          else v.host.value.off == 0)
    && (v.path.Some? && v.host.Some? ==> v.path.value.off == v.host.value.End())
  }

  /** The delimiters just passed, by state. */
  ghost predicate Here(buf: seq<byte>, n: nat, s: St, v: View, connect: bool) {
    match s
    case SpacesBeforeUrl => n == 0 && !connect
    case SchemaSlash => v.schema.Some? && v.schema.value.End() == n - 1 && Before(buf, n, 58)
    case SchemaSlashSlash =>
      v.schema.Some? && v.schema.value.End() == n - 2 && Before(buf, n - 1, 58) && Before(buf, n, 47)
    case ServerStart =>
      if v.schema.Some? then v.schema.value.End() + 3 == n && SlashesAt(buf, v.schema.value.End()) else n == 0
    case QueryStart => Before(buf, n, 63)
    case FragmentStart => Before(buf, n, 35)
    case _ => true
  }

  ghost predicate SchemaOk(buf: seq<byte>, n: nat, r: Range) {
    r.off == 0 && r.End() <= n <= |buf| && AllAlpha(buf[..r.End()])
  }

  ghost predicate Scanned(buf: seq<byte>, n: nat, sc: Scan, connect: bool)
    requires n <= |buf|
  {
    sc.s != Dead ==> Tidy(n, sc) && Around(buf, n, sc.s, ViewOf(sc.fields), connect)
  }

  /** Which states lead to which. */
  ghost predicate Follows(s: St, c: byte, s': St) {
    match s'
    case Dead => true
    case SpacesBeforeUrl => false
    case InSchema => s in {SpacesBeforeUrl, InSchema} && IsAlpha(c)
    case SchemaSlash => s == InSchema && c == 58
    case SchemaSlashSlash => s == SchemaSlash && c == 47
    case ServerStart => s == SchemaSlashSlash && c == 47
    case Server => s in {ServerStart, Server, ServerWithAt}
    case ServerWithAt => s in {ServerStart, Server}
    case InPath => s in {SpacesBeforeUrl, ServerStart, Server, ServerWithAt, InPath}
    case QueryStart => s in {ServerStart, Server, ServerWithAt, InPath} && c == 63
    case InQuery => s in {QueryStart, InQuery}
    case FragmentStart => s in {InPath, QueryStart, InQuery, FragmentStart} && c == 35
    case InFragment => s in {FragmentStart, InFragment}
  }

  lemma UrlCharFollows(s: St, c: byte)
    ensures Follows(s, c, UrlChar(s, c)) || (s == ServerWithAt && UrlChar(s, c) == Dead)
  {
    hide IsAlpha, IsUrlChar, IsUserInfoChar;
  }

  lemma ExtendOrdered(fields: map<Uf, Range>, n: nat, f: Uf)
    requires Ordered(fields, n) && f in fields && fields[f].End() == n
    requires forall g :: g in fields ==> Rank(g) <= Rank(f)
    ensures Ordered(fields[f := Range(fields[f].off, fields[f].len + 1)], n + 1)
  {
    hide Rank;
    assert forall g :: g in fields && Rank(f) < Rank(g) ==> Rank(g) <= Rank(f);
  }

  lemma NewOrdered(fields: map<Uf, Range>, n: nat, f: Uf)
    requires Ordered(fields, n) && forall g :: g in fields ==> Rank(g) < Rank(f)
    ensures Ordered(fields[f := Range(n, 1)], n + 1)
  {
    hide Rank;
  }

  lemma ExtendTidy(buf: seq<byte>, n: nat, sc: Scan, connect: bool)
    requires n < |buf| && Scanned(buf, n, sc, connect) && sc.s != Dead
    requires var s' := UrlChar(sc.s, buf[n]); Field(s').Some? && sc.last == Field(s')
    ensures Tidy(n + 1, Mark(sc, n, buf[n]))
  {
    UrlCharFollows(sc.s, buf[n]);
    LastIsHere(buf, n, sc, connect);
    hide UrlChar, Ordered, Around, IsAlpha, ViewOf, Follows;
    ExtendOrdered(sc.fields, n, sc.last.value);
  }

  lemma ExtendKeeps(buf: seq<byte>, n: nat, sc: Scan, connect: bool)
    requires n < |buf| && Scanned(buf, n, sc, connect) && sc.s != Dead
    requires var s' := UrlChar(sc.s, buf[n]); Field(s').Some? && sc.last == Field(s')
    ensures Scanned(buf, n + 1, Mark(sc, n, buf[n]), connect)
  {
    UrlCharFollows(sc.s, buf[n]);
    LastIsHere(buf, n, sc, connect);
    ExtendTidy(buf, n, sc, connect);
    TidyNow(n, sc);
    MarkSeen(sc, n, buf[n]);
    hide UrlChar, Tidy, Around, IsAlpha, Mark, Follows, Field, ViewOf, Seen;
    var f := sc.last.value;
    ExtendAround(buf, n, sc.s, UrlChar(sc.s, buf[n]), ViewOf(sc.fields), f, sc.fields[f], connect);
  }

  /** The fields after another character of field f, or its first. */
  ghost function Seen(v: View, f: Uf, r: Range): View {
    match f
    case Schema => v.(schema := Some(r))
    case Host => v.(host := Some(r))
    case Path => v.(path := Some(r))
    case Query => v.(query := Some(r))
    case Fragment => v.(fragment := Some(r))
    case _ => v
  }

  lemma MarkSeen(sc: Scan, n: nat, c: byte)
    requires Field(UrlChar(sc.s, c)).Some?
    ensures var sc', f := Mark(sc, n, c), Field(UrlChar(sc.s, c)).value;
            && sc'.s == UrlChar(sc.s, c)
            && ViewOf(sc'.fields) == Seen(ViewOf(sc.fields), f,
                 if sc.last == Some(f) && f in sc.fields then Range(sc.fields[f].off, sc.fields[f].len + 1) else Range(n, 1))
  {
    hide UrlChar;
  }

  lemma ExtendAround(buf: seq<byte>, n: nat, s: St, s': St, v: View, f: Uf, r: Range, connect: bool)
    requires n < |buf| && Around(buf, n, s, v, connect) && Follows(s, buf[n], s') && s != Dead
    requires Field(s) == Field(s') == Some(f) && Seen(v, f, r) == v && r.End() == n
    requires (s == InSchema ==> v.host.None?) && (s in {Server, ServerWithAt} ==> v.path.None?)
    ensures Around(buf, n + 1, s', Seen(v, f, Range(r.off, r.len + 1)), connect)
  {
    hide IsAlpha, Before, SlashesAt, SchemaOk;
    SchemaMore(buf, n, if v.schema.Some? then v.schema.value else Range(0, 0));
  }

  lemma NewAround(buf: seq<byte>, n: nat, s: St, s': St, v: View, f: Uf, connect: bool)
    requires n < |buf| && Around(buf, n, s, v, connect) && Follows(s, buf[n], s') && s != Dead
    requires Field(s') == Some(f) && Field(s) != Some(f) && Field(s) in {None, Some(Host)}
    requires (s in {SpacesBeforeUrl, ServerStart} ==> v.host.None?) && (s == SpacesBeforeUrl ==> v == View(None, None, None, None, None))
    requires s in {ServerStart, Server, ServerWithAt} ==> v.path.None?
    requires s in {Server, ServerWithAt} ==> v.host.Some? && v.host.value.End() == n
    ensures Around(buf, n + 1, s', Seen(v, f, Range(n, 1)), connect)
  {
    hide IsAlpha, Before, SlashesAt, SchemaOk;
    SchemaMore(buf, n, if v.schema.Some? then v.schema.value else Range(0, 0));
  }

  lemma DelimiterAround(buf: seq<byte>, n: nat, s: St, s': St, v: View, connect: bool)
    requires n < |buf| && Around(buf, n, s, v, connect) && Follows(s, buf[n], s') && s != Dead && Field(s') == None
    requires s == InSchema ==> v.schema.Some? && v.schema.value.End() == n
    ensures s' != Dead ==> Around(buf, n + 1, s', v, connect)
  {
    hide Between, Here, Follows;
    BetweenStays(buf, n, v, connect);
    if s' != Dead {
      HereStep(buf, n, s, s', v, connect);
    }
  }

  lemma BetweenStays(buf: seq<byte>, n: nat, v: View, connect: bool)
    requires n < |buf| && Between(buf, n, v, connect)
    ensures Between(buf, n + 1, v, connect)
  {
    hide SchemaOk, Before, SlashesAt;
    SchemaMore(buf, n, if v.schema.Some? then v.schema.value else Range(0, 0));
  }

  lemma HereStep(buf: seq<byte>, n: nat, s: St, s': St, v: View, connect: bool)
    requires n < |buf| && Here(buf, n, s, v, connect) && Follows(s, buf[n], s') && s != Dead && s' != Dead
    requires Field(s') == None && (s == InSchema ==> v.schema.Some? && v.schema.value.End() == n)
    ensures Here(buf, n + 1, s', v, connect)
  {
    hide IsAlpha;
  }

  lemma SchemaMore(buf: seq<byte>, n: nat, r: Range)
    requires n < |buf|
    ensures SchemaOk(buf, n, r) ==> SchemaOk(buf, n + 1, r)
    ensures SchemaOk(buf, n, r) && r.End() == n && IsAlpha(buf[n]) ==> SchemaOk(buf, n + 1, Range(r.off, r.len + 1))
    ensures n == 0 && IsAlpha(buf[n]) ==> SchemaOk(buf, n + 1, Range(n, 1))
  {
    assert buf[..n + 1] == buf[..n] + [buf[n]];
  }

  /** What the order of the fields says of them one by one. */
  lemma TidyNow(n: nat, sc: Scan)
    requires Tidy(n, sc)
    ensures var v := ViewOf(sc.fields);
            && (sc.s in {InSchema, SpacesBeforeUrl, ServerStart, SchemaSlash, SchemaSlashSlash} ==> v.host.None? && v.path.None?)
            && (sc.s in {Server, ServerWithAt} ==> v.path.None? && v.host.Some? && v.host.value.End() == n)
            && (sc.s == SpacesBeforeUrl ==> v == View(None, None, None, None, None))
            && (sc.s == InSchema ==> v.schema.Some? && v.schema.value.End() == n)
            && (Field(sc.s).Some? ==>
                  && sc.last == Field(sc.s) && sc.last.value in sc.fields && sc.fields[sc.last.value].End() == n
                  && Seen(v, sc.last.value, sc.fields[sc.last.value]) == v)
  {
  }

  /** The field being extended is the one that ends here. */
  lemma LastIsHere(buf: seq<byte>, n: nat, sc: Scan, connect: bool)
    requires n < |buf| && Scanned(buf, n, sc, connect) && sc.s != Dead
    requires var s' := UrlChar(sc.s, buf[n]); Field(s').Some? && sc.last == Field(s')
    ensures Field(sc.s) == sc.last && sc.fields[sc.last.value].End() == n
  {
    UrlCharFollows(sc.s, buf[n]);
    hide UrlChar, IsAlpha, Ordered, Around;
  }

  lemma NewTidy(buf: seq<byte>, n: nat, sc: Scan, connect: bool)
    requires n < |buf| && Scanned(buf, n, sc, connect) && sc.s != Dead
    requires var s' := UrlChar(sc.s, buf[n]); Field(s').Some? && sc.last != Field(s')
    ensures Tidy(n + 1, Mark(sc, n, buf[n]))
  {
    UrlCharFollows(sc.s, buf[n]);
    AllBefore(buf, n, sc, connect);
    hide UrlChar, IsAlpha, Ordered, Around, ViewOf, Follows;
    NewOrdered(sc.fields, n, Field(UrlChar(sc.s, buf[n])).value);
  }

  lemma NewKeeps(buf: seq<byte>, n: nat, sc: Scan, connect: bool)
    requires n < |buf| && Scanned(buf, n, sc, connect) && sc.s != Dead
    requires var s' := UrlChar(sc.s, buf[n]); Field(s').Some? && sc.last != Field(s')
    ensures Scanned(buf, n + 1, Mark(sc, n, buf[n]), connect)
  {
    UrlCharFollows(sc.s, buf[n]);
    NewTidy(buf, n, sc, connect);
    TidyNow(n, sc);
    MarkSeen(sc, n, buf[n]);
    hide UrlChar, Tidy, Around, IsAlpha, Mark, ViewOf, Seen;
    NewAround(buf, n, sc.s, UrlChar(sc.s, buf[n]), ViewOf(sc.fields), Field(UrlChar(sc.s, buf[n])).value, connect);
  }

  /** A field begun has not been set before, nor has any later one. */
  lemma AllBefore(buf: seq<byte>, n: nat, sc: Scan, connect: bool)
    requires n < |buf| && Scanned(buf, n, sc, connect) && sc.s != Dead
    requires var s' := UrlChar(sc.s, buf[n]); Field(s').Some? && sc.last != Field(s')
    ensures forall g :: g in sc.fields ==> Rank(g) < Rank(Field(UrlChar(sc.s, buf[n])).value)
  {
    UrlCharFollows(sc.s, buf[n]);
    hide UrlChar, IsAlpha, Ordered, Around;
  }

  lemma DelimiterTidy(buf: seq<byte>, n: nat, sc: Scan, connect: bool)
    requires n < |buf| && Scanned(buf, n, sc, connect) && sc.s != Dead
    requires Field(UrlChar(sc.s, buf[n])).None?
    ensures Tidy(n + 1, Mark(sc, n, buf[n]))
  {
    UrlCharFollows(sc.s, buf[n]);
    ReachGrows(sc.s, buf[n], UrlChar(sc.s, buf[n]));
    hide UrlChar, IsAlpha, Around, ViewOf, Follows, Reach, Rank;
  }

  lemma ReachGrows(s: St, c: byte, s': St)
    requires Follows(s, c, s')
    ensures Reach(s) <= Reach(s')
  {
  }

  lemma DelimiterKeeps(buf: seq<byte>, n: nat, sc: Scan, connect: bool)
    requires n < |buf| && Scanned(buf, n, sc, connect) && sc.s != Dead
    requires Field(UrlChar(sc.s, buf[n])).None?
    ensures Scanned(buf, n + 1, Mark(sc, n, buf[n]), connect)
  {
    UrlCharFollows(sc.s, buf[n]);
    DelimiterTidy(buf, n, sc, connect);
    TidyNow(n, sc);
    hide UrlChar, IsAlpha, Around, Tidy, ViewOf;
    DelimiterAround(buf, n, sc.s, UrlChar(sc.s, buf[n]), ViewOf(sc.fields), connect);
  }

  lemma MarkKeeps(buf: seq<byte>, n: nat, sc: Scan, connect: bool)
    requires n < |buf| && Scanned(buf, n, sc, connect)
    ensures Scanned(buf, n + 1, Mark(sc, n, buf[n]), connect)
  {
    hide Scanned, UrlChar, Field, Mark;
    var s' := UrlChar(sc.s, buf[n]);
    if sc.s == Dead {
      DeadKeeps(buf, n, sc, connect);
    } else if Field(s').None? {
      DelimiterKeeps(buf, n, sc, connect);
    } else if sc.last == Field(s') {
      ExtendKeeps(buf, n, sc, connect);
    } else {
      NewKeeps(buf, n, sc, connect);
    }
  }

  lemma DeadKeeps(buf: seq<byte>, n: nat, sc: Scan, connect: bool)
    requires n < |buf| && sc.s == Dead
    ensures Scanned(buf, n + 1, Mark(sc, n, buf[n]), connect)
  {
  }

  lemma {:induction false} ScanToKeeps(buf: seq<byte>, n: nat, connect: bool)
    requires n <= |buf|
    ensures Scanned(buf, n, ScanTo(buf, n, connect), connect)
  {
    hide Mark, Scanned;
    if n == 0 {
      BeginScanned(buf, connect);
    } else {
      ScanToKeeps(buf, n - 1, connect);
      MarkKeeps(buf, n - 1, ScanTo(buf, n - 1, connect), connect);
    }
  }

  lemma BeginScanned(buf: seq<byte>, connect: bool)
    ensures Scanned(buf, 0, Begin(connect), connect)
  {
  }

  // ---------- what the second loop has found ----------

  datatype Split = Split(user: Option<Range>, host: Option<Range>, port: Option<Range>)

  ghost function SplitOf(fields: map<Uf, Range>): Split {
    Split(Get(fields, UserInfo), Get(fields, Host), Get(fields, Port))
  }

  ghost predicate Spans(r: Option<Range>, from: nat, n: nat) {
    r.Some? ==> 0 < r.value.len && from <= r.value.off && r.value.End() <= n
  }

  ghost predicate Digits(s: seq<byte>) {
    forall i :: 0 <= i < |s| ==> IsNum(s[i])
  }

  ghost predicate PortOk(buf: seq<byte>, r: Range) {
    r.End() <= |buf| && Before(buf, r.off, 58) && Digits(Slice(buf, r))
  }

  /** The parts of the host text [from, n) are in order, with their delimiters. */
  ghost predicate Parts(buf: seq<byte>, from: nat, n: nat, v: Split) {
    && Spans(v.user, from, n) && Spans(v.host, from, n) && Spans(v.port, from, n)
    && (v.user.Some? && v.host.Some? ==> v.user.value.End() < v.host.value.off)
    && (v.host.Some? && v.user.Some? ==> Before(buf, v.user.value.End() + 1, 64))
    && (v.port.Some? ==> v.host.Some? && v.host.value.End() < v.port.value.off && PortOk(buf, v.port.value))
  }

  /** Where the second loop is, by state. */
  ghost predicate At(buf: seq<byte>, from: nat, n: nat, s: HostSt, v: Split) {
    match s
    case HostDead => true
    case UserInfoStart => n == from && v == Split(None, None, None)
    case InUserInfo => v.host.None? && v.port.None? && v.user.Some? && v.user.value.End() == n
    case HostStart => v.host.None? && v.port.None? && (v.user.Some? ==> v.user.value.End() + 1 == n && Before(buf, n, 64))
    case V6Start =>
      v.host.None? && v.port.None? && (v.user.Some? ==> v.user.value.End() < n && Before(buf, v.user.value.End() + 1, 64))
    case V6End => v.port.None? && v.host.Some? && v.host.value.End() < n
    case PortStart => v.port.None? && v.host.Some? && v.host.value.End() < n && Before(buf, n, 58)
    case InPort => v.host.Some? && v.port.Some? && v.port.value.End() == n
    case _ => v.port.None? && v.host.Some? && v.host.value.End() == n
  }

  ghost predicate HostScanned(buf: seq<byte>, from: nat, n: nat, h: HostScan) {
    h.s != HostDead ==> Parts(buf, from, n, SplitOf(h.fields)) && At(buf, from, n, h.s, SplitOf(h.fields))
  }

  ghost predicate HostFollows(s: HostSt, c: byte, s': HostSt) {
    match s'
    case HostDead => true
    case UserInfoStart => false
    case InUserInfo => s in {UserInfoStart, InUserInfo}
    case HostStart => s in {UserInfoStart, InUserInfo} && c == 64
    case V6Start => s == HostStart
    case InHost => s in {HostStart, InHost}
    case V6 => s in {V6Start, V6}
    case V6End => s in {V6, Zone}
    case ZoneStart => s == V6
    case Zone => s in {ZoneStart, Zone}
    case PortStart => s in {InHost, V6End} && c == 58
    case InPort => s in {PortStart, InPort} && IsNum(c)
  }

  lemma HostCharFollows(s: HostSt, c: byte)
    ensures HostFollows(s, c, HostChar(s, c)) || (s == HostDead && HostChar(s, c) == HostDead)
  {
    hide IsHostChar, IsUserInfoChar, IsZoneChar, IsHex, IsNum;
  }

  /** The parts after a character that ends in state s'. */
  ghost function Grown(v: Split, s: HostSt, s': HostSt, n: nat): Split {
    match s'
    case InUserInfo => v.(user := Longer(v.user, s == s', n))
    case InHost => v.(host := Longer(v.host, s == s', n))
    case V6 => v.(host := Longer(v.host, s == s', n))
    case ZoneStart => v.(host := Longer(v.host, true, n))
    case Zone => v.(host := Longer(v.host, true, n))
    case InPort => v.(port := Longer(v.port, s == s', n))
    case _ => v
  }

  ghost function Longer(r: Option<Range>, more: bool, n: nat): Option<Range> {
    if more && r.Some? then Some(Range(r.value.off, r.value.len + 1)) else Some(Range(n, 1))
  }

  lemma HostMarkGrown(h: HostScan, n: nat, c: byte)
    ensures var h' := HostMark(h, n, c);
            && h'.s == HostChar(h.s, c) && SplitOf(h'.fields) == Grown(SplitOf(h.fields), h.s, h'.s, n)
            && forall f :: f !in {UserInfo, Host, Port} ==> Get(h'.fields, f) == Get(h.fields, f)
  {
    hide HostChar;
  }

  lemma GrownParts(buf: seq<byte>, from: nat, n: nat, s: HostSt, s': HostSt, v: Split)
    requires from <= n < |buf| && Parts(buf, from, n, v) && At(buf, from, n, s, v)
    requires HostFollows(s, buf[n], s') && s != HostDead && s' != HostDead
    ensures Parts(buf, from, n + 1, Grown(v, s, s', n))
  {
    hide PortOk, IsNum, Before;
    if s' == InPort {
      PortMore(buf, n, if v.port.Some? then v.port.value else Range(0, 0));
    }
  }

  lemma PortMore(buf: seq<byte>, n: nat, r: Range)
    requires n < |buf| && IsNum(buf[n])
    ensures PortOk(buf, r) && r.End() == n ==> PortOk(buf, Range(r.off, r.len + 1))
    ensures Before(buf, n, 58) ==> PortOk(buf, Range(n, 1))
  {
    var s := Range(r.off, r.len + 1);
    assert r.End() == n ==> Slice(buf, s) == Slice(buf, r) + [buf[n]];
  }

  lemma {:induction false} HostToKeeps(buf: seq<byte>, from: nat, n: nat, h: HostScan)
    requires from <= n <= |buf| && HostScanned(buf, from, from, h)
    ensures var h' := HostTo(buf, from, n, h);
            HostScanned(buf, from, n, h') && forall f :: f !in {UserInfo, Host, Port} ==> Get(h'.fields, f) == Get(h.fields, f)
    decreases n - from
  {
    hide HostScanned, HostMark, Get;
    if n > from {
      HostToKeeps(buf, from, n - 1, h);
      var g := HostTo(buf, from, n - 1, h);
      HostMarkKeeps(buf, from, n - 1, g);
      HostMarkGrown(g, n - 1, buf[n - 1]);
    }
  }

  lemma HostMarkKeeps(buf: seq<byte>, from: nat, n: nat, h: HostScan)
    requires from <= n < |buf| && HostScanned(buf, from, n, h)
    ensures HostScanned(buf, from, n + 1, HostMark(h, n, buf[n]))
  {
    HostCharFollows(h.s, buf[n]);
    HostMarkGrown(h, n, buf[n]);
    hide HostChar, HostMark, Parts, At, HostFollows, Grown, SplitOf, Get;
    var s' := HostChar(h.s, buf[n]);
    if h.s != HostDead && s' != HostDead {
      GrownParts(buf, from, n, h.s, s', SplitOf(h.fields));
    }
  }

  // ---------- the theorem ----------

  lemma SplitHostFound(buf: seq<byte>, connect: bool)
    requires var sc := ScanTo(buf, |buf|, connect); Host in sc.fields && sc.s != Dead
    ensures var sc := ScanTo(buf, |buf|, connect);
            var r, h := sc.fields[Host], SplitHost(buf, sc);
            && HostScanned(buf, r.off, r.End(), h)
            && forall f :: f !in {UserInfo, Host, Port} ==> Get(h.fields, f) == Get(sc.fields, f)
  {
    hide ScanTo, HostTo, HostMark, Ordered, Around, Reach, Rank;
    var sc := ScanTo(buf, |buf|, connect);
    ScanToKeeps(buf, |buf|, connect);
    var r := sc.fields[Host];
    HostToKeeps(buf, r.off, r.End(), HostScan(if sc.at then UserInfoStart else HostStart, sc.fields - {Host}));
  }

  /**
   When parsing succeeds: every field set is a non-empty range of the buffer; the
   fields are disjoint and in the order schema, user information, host, port,
   path, query, fragment; a schema consists of letters at the start, is followed by
   "://" and has a host; user information is followed by @, a port preceded by a
   colon, a query by a question mark, a fragment by #; the port is the decimal
   value of its digits, at most 65535; and CONNECT gives a host and port only.
   */
  lemma UrlSound(buf: seq<byte>, connect: bool)
    requires ParseUrl(buf, connect).Some?
    ensures var u := ParseUrl(buf, connect).value;
            && Ordered(u.fields, |buf|) && Surrounded(buf, u.fields)
            && (if Port in u.fields then u.port == Decimal(Slice(buf, u.fields[Port])) && 0 <= u.port <= 0xffff else u.port == 0)
            && (connect ==> u.fields.Keys == {Host, Port})
  {
    hide ScanTo, Scanned, HostTo, HostScanned, Decimal;
    var u, sc := ParseUrl(buf, connect).value, ScanTo(buf, |buf|, connect);
    ScanToKeeps(buf, |buf|, connect);
    if Host in sc.fields {
      SplitHostFound(buf, connect);
      Combine(buf, sc, SplitHost(buf, sc), connect);
      if Port in u.fields {
        DecimalNatural(Slice(buf, u.fields[Port]));
      }
    } else {
      NoHost(buf, sc, connect);
    }
  }

  ghost predicate Surrounded(buf: seq<byte>, fields: map<Uf, Range>) {
    && (Schema in fields ==> Host in fields && SchemaOk(buf, |buf|, fields[Schema]) && SlashesAt(buf, fields[Schema].End()))
    && (UserInfo in fields ==> Host in fields && Before(buf, fields[UserInfo].End() + 1, 64))
    && (Port in fields ==> Host in fields && PortOk(buf, fields[Port]))
    && (Query in fields ==> Before(buf, fields[Query].off, 63))
    && (Fragment in fields ==> Before(buf, fields[Fragment].off, 35))
  }

  lemma {:induction false} DecimalNatural(s: seq<byte>)
    requires Digits(s)
    ensures Decimal(s) >= 0
  {
    if s != [] {
      DecimalNatural(s[..|s| - 1]);
    }
  }

  lemma NoHost(buf: seq<byte>, sc: Scan, connect: bool)
    requires Scanned(buf, |buf|, sc, connect) && sc.s != Dead && Host !in sc.fields && Schema !in sc.fields
    ensures Ordered(sc.fields, |buf|) && Surrounded(buf, sc.fields)
  {
    hide Ordered, Before, SlashesAt;
  }

  lemma Combine(buf: seq<byte>, sc: Scan, h: HostScan, connect: bool)
    requires Scanned(buf, |buf|, sc, connect) && sc.s != Dead && Host in sc.fields && HostComplete(h.s)
    requires HostScanned(buf, sc.fields[Host].off, sc.fields[Host].End(), h)
    requires forall f :: f !in {UserInfo, Host, Port} ==> Get(h.fields, f) == Get(sc.fields, f)
    ensures Ordered(h.fields, |buf|) && Surrounded(buf, h.fields) && Host in h.fields
  {
    var r := sc.fields[Host];
    assert Parts(buf, r.off, r.End(), SplitOf(h.fields)) && At(buf, r.off, r.End(), h.s, SplitOf(h.fields));
    CombineOrder(buf, sc, h);
    hide Ordered, Before, SlashesAt, PortOk, SchemaOk, Reach;
    assert Get(h.fields, Schema) == Get(sc.fields, Schema) && Get(h.fields, Path) == Get(sc.fields, Path);
    assert Get(h.fields, Query) == Get(sc.fields, Query) && Get(h.fields, Fragment) == Get(sc.fields, Fragment);
  }

  lemma CombineOrder(buf: seq<byte>, sc: Scan, h: HostScan)
    requires Ordered(sc.fields, |buf|) && Host in sc.fields && Port !in sc.fields && UserInfo !in sc.fields
    requires Parts(buf, sc.fields[Host].off, sc.fields[Host].End(), SplitOf(h.fields)) && Host in h.fields
    requires forall f :: f !in {UserInfo, Host, Port} ==> Get(h.fields, f) == Get(sc.fields, f)
    ensures Ordered(h.fields, |buf|)
  {
    hide Before, PortOk;
    var r := sc.fields[Host];
    forall f | f in h.fields
      ensures 0 < h.fields[f].len && h.fields[f].End() <= |buf|
      ensures f in {UserInfo, Host, Port} ==> r.off <= h.fields[f].off && h.fields[f].End() <= r.End()
      ensures f !in {UserInfo, Host, Port} ==> f in sc.fields && h.fields[f] == sc.fields[f]
    {
      assert f !in {UserInfo, Host, Port} ==> Get(h.fields, f) == Get(sc.fields, f);
    }
    forall f, g | f in h.fields && g in h.fields && Rank(f) < Rank(g)
      ensures h.fields[f].End() <= h.fields[g].off
    {
      PairOrder(sc, h, f, g);
    }
  }

  lemma PairOrder(sc: Scan, h: HostScan, f: Uf, g: Uf)
    requires Host in sc.fields && f in h.fields && g in h.fields && Rank(f) < Rank(g) && Host in h.fields
    requires forall a, b :: a in sc.fields && b in sc.fields && Rank(a) < Rank(b) ==> sc.fields[a].End() <= sc.fields[b].off
    requires forall a :: a in h.fields && a !in {UserInfo, Host, Port} ==> a in sc.fields && h.fields[a] == sc.fields[a]
    requires forall a :: a in h.fields && a in {UserInfo, Host, Port} ==>
               sc.fields[Host].off <= h.fields[a].off && h.fields[a].End() <= sc.fields[Host].End()
    requires UserInfo in h.fields ==> h.fields[UserInfo].End() <= h.fields[Host].off
    requires Port in h.fields ==> h.fields[Host].End() <= h.fields[Port].off
    ensures h.fields[f].End() <= h.fields[g].off
  {
    var inner := {UserInfo, Host, Port};
    if f in inner && g !in inner {
      assert sc.fields[Host].End() <= sc.fields[g].off;
    } else if f !in inner && g in inner {
      assert sc.fields[f].End() <= sc.fields[Host].off;
    }
  }

  // ---------- the parser ----------

  lemma {:induction false} DeadStays(buf: seq<byte>, m: nat, n: nat, connect: bool)
    requires m <= n <= |buf| && ScanTo(buf, m, connect).s == Dead
    ensures ScanTo(buf, n, connect).s == Dead
    decreases n - m
  {
    hide UrlChar;
    if n > m {
      DeadStays(buf, m, n - 1, connect);
      DeadChar(buf[n - 1]);
    }
  }

  lemma DeadChar(c: byte)
    ensures UrlChar(Dead, c) == Dead
  {
  }

  lemma {:induction false} HostDeadStays(buf: seq<byte>, from: nat, m: nat, n: nat, h: HostScan)
    requires from <= m <= n <= |buf| && HostTo(buf, from, m, h).s == HostDead
    ensures HostTo(buf, from, n, h).s == HostDead
    decreases n - m
  {
    if n > m {
      HostDeadStays(buf, from, m, n - 1, h);
    }
  }

  /** A conversion to uint16_t. */
  function U16(x: nat): nat {
    x % 0x1_0000
  }

  /** struct http_parser_url; a field is in the map when its bit is set. */
  class HttpParserUrl {
    var port: int
    var fields: map<Uf, Range>

    constructor ()
      ensures port == 0 && fields == map[]
    {
      port, fields := 0, map[];
    }

    /** Start a field at p, or add a character to it. */
    method Touch(f: Uf, start: bool, p: nat)
      requires (start || f in fields) && p < SIZE_LIMIT && (f in fields ==> fields[f].len < SIZE_LIMIT)
      modifies `fields
      ensures fields == old(fields)[f := if start then Range(p, 1) else Range(old(fields)[f].off, old(fields)[f].len + 1)]
    {
      if start {
        fields := fields[f := Range(U16(p), 0)];
      }
      fields := fields[f := Range(fields[f].off, U16(fields[f].len + 1))];
    }

    /** http_parser_parse_url. */
    method Parse(buf: seq<byte>, connect: bool) returns (rc: int)
      requires |buf| <= SIZE_LIMIT
      modifies this
      ensures rc == 0 <==> ParseUrl(buf, connect).Some?
      ensures rc == 0 ==> Url(fields, port) == ParseUrl(buf, connect).value
    {
      hide UrlChar, Mark, ScanTo, HostTo, Decimal, Scanned, HostScanned, Ordered, Surrounded, SplitHost, HostComplete, Get;
      if |buf| == 0 {
        return 1;
      }
      var ok, foundAt := FindFields(buf, connect);
      if !ok {
        return 1;
      }
      ghost var sc := ScanTo(buf, |buf|, connect);
      ScanToKeeps(buf, |buf|, connect);
      NoInner(buf, sc, connect);
      if Schema in fields && Host !in fields {
        return 1;
      }
      if Host in fields {
        SplitHostFound(buf, connect);
        rc := ParseHost(buf, foundAt, sc);
        if rc != 0 {
          return 1;
        }
        Combine(buf, sc, SplitHost(buf, sc), connect);
        PortBound(buf, fields);
      }
      if connect && fields.Keys != {Host, Port} {
        return 1;
      }
      if Port in fields {
        rc := ParsePort(buf);
        return;
      }
      rc := 0;
    }

    /** The first loop, up to a character that no field can have there. */
    method FindFields(buf: seq<byte>, connect: bool) returns (ok: bool, foundAt: bool)
      requires 0 < |buf| <= SIZE_LIMIT
      modifies this
      ensures ok <==> ScanTo(buf, |buf|, connect).s != Dead
      ensures ok ==> fields == ScanTo(buf, |buf|, connect).fields && foundAt == ScanTo(buf, |buf|, connect).at && port == 0
    {
      hide UrlChar, Mark, ScanTo, Scanned;
      port, fields := 0, map[];
      var s, oldUf := if connect then ServerStart else SpacesBeforeUrl, None;
      foundAt := false;
      ghost var sc := Begin(connect);
      BeginIs(buf, connect);
      var p := 0;
      while p < |buf|
        invariant 0 <= p <= |buf| && sc == ScanTo(buf, p, connect)
        invariant sc == Scan(s, fields, oldUf, foundAt) && s != Dead && port == 0
      {
        ScanToKeeps(buf, p, connect);
        MarkIs(buf, p, connect);
        LenBound(buf, p, sc, connect);
        s := UrlChar(s, buf[p]);
        if s == Dead {
          DeadStays(buf, p + 1, |buf|, connect);
          return false, foundAt;
        }
        if s == ServerWithAt {
          foundAt := true;
        }
        var uf := Field(s);
        if uf.Some? {
          Touch(uf.value, uf != oldUf, p);
          oldUf := uf;
        }
        sc := Mark(sc, p, buf[p]);
        p := p + 1;
      }
      ok := true;
    }

    /** The decimal value of the port, unless it is too large. */
    method ParsePort(buf: seq<byte>) returns (rc: int)
      requires Port in fields && PortOk(buf, fields[Port])
      modifies `port
      ensures rc == 0 <==> Decimal(Slice(buf, fields[Port])) <= 0xffff
      ensures rc == 0 ==> port == Decimal(Slice(buf, fields[Port]))
    {
      var off, len := fields[Port].off, fields[Port].len;
      ghost var digits := Slice(buf, fields[Port]);
      var v, p := 0, off;
      while p < off + len
        invariant off <= p <= off + len && v == Decimal(digits[..p - off]) && 0 <= v <= 0xffff
      {
        assert digits[..p + 1 - off][..p - off] == digits[..p - off] && digits[p - off] == buf[p];
        v := v * 10;
        v := v + buf[p] as int - 48;
        p := p + 1;
        if v > 0xffff {
          DecimalGrows(digits, p - off);
          return 1;
        }
      }
      assert digits[..p - off] == digits;
      port := v % 0x1_0000;
      rc := 0;
    }

    /** http_parse_host: splits the range of the host field, which the first loop has set. */
    method ParseHost(buf: seq<byte>, foundAt: bool, ghost sc: Scan) returns (rc: int)
      requires |buf| <= SIZE_LIMIT && fields == sc.fields && foundAt == sc.at
      requires Host in fields && fields[Host].End() <= |buf| && Port !in fields && UserInfo !in fields
      modifies `fields
      ensures rc == 0 <==> HostComplete(SplitHost(buf, sc).s)
      ensures rc == 0 ==> fields == SplitHost(buf, sc).fields
    {
      hide HostChar, HostMark, Behind;
      var from, buflen := fields[Host].off, fields[Host].off + fields[Host].len;
      var s := if foundAt then UserInfoStart else HostStart;
      ghost var h0 := HostScan(s, fields - {Host});
      fields := fields[Host := Range(fields[Host].off, 0)];
      BehindAtFirst(h0, fields);
      ghost var h := h0;
      var p := from;
      while p < buflen
        invariant from <= p <= buflen
        invariant h == HostTo(buf, from, p, h0) && h.s == s != HostDead
        invariant Behind(h, fields, p - from)
      {
        var newS := HostChar(s, buf[p]);
        if newS == HostDead {
          HostMarkGrown(h, p, buf[p]);
          HostDeadStays(buf, from, p + 1, buflen, h0);
          return 1;
        }
        HostMarkGrown(h, p, buf[p]);
        TouchHost(s, newS, p, p - from, h, buf[p]);
        h := HostMark(h, p, buf[p]);
        s := newS;
        p := p + 1;
      }
      BehindAtLast(h, fields, p - from);
      if s != InHost && s != V6End && s != InPort {
        return 1;
      }
      rc := 0;
    }

    /** The switch of the second loop. */
    method TouchHost(s: HostSt, newS: HostSt, p: nat, ghost n: int, ghost h: HostScan, ghost c: byte)
      requires h.s == s && newS == HostChar(s, c) && newS != HostDead && 0 <= n <= p < SIZE_LIMIT && Behind(h, fields, n)
      modifies `fields
      ensures Behind(HostMark(h, p, c), fields, n + 1)
    {
      HostCharFollows(s, c);
      hide HostChar;
      assert UserInfo in fields ==> UserInfo in h.fields && h.fields[UserInfo] == fields[UserInfo];
      assert Port in fields ==> Port in h.fields && h.fields[Port] == fields[Port];
      match newS {
        case InHost => Touch(Host, s != InHost, p);
        case V6 => Touch(Host, s != V6, p);
        case ZoneStart => Touch(Host, false, p);
        case Zone => Touch(Host, false, p);
        case InPort => Touch(Port, s != InPort, p);
        case InUserInfo => Touch(UserInfo, s != InUserInfo, p);
        case _ =>
      }
    }
  }

  lemma BeginIs(buf: seq<byte>, connect: bool)
    ensures ScanTo(buf, 0, connect) == Begin(connect)
  {
  }

  lemma MarkIs(buf: seq<byte>, n: nat, connect: bool)
    requires n < |buf|
    ensures var sc, c := ScanTo(buf, n, connect), buf[n];
            && ScanTo(buf, n + 1, connect) == Mark(sc, n, c) && Mark(sc, n, c).s == UrlChar(sc.s, c)
            && match Field(UrlChar(sc.s, c))
               case None => Mark(sc, n, c) == sc.(s := UrlChar(sc.s, c))
               case Some(f) =>
                 && Mark(sc, n, c).last == Some(f) && Mark(sc, n, c).at == (sc.at || UrlChar(sc.s, c) == ServerWithAt)
                 && (sc.last == Some(f) && f in sc.fields ==>
                       Mark(sc, n, c).fields == sc.fields[f := Range(sc.fields[f].off, sc.fields[f].len + 1)])
                 && (sc.last != Some(f) ==> Mark(sc, n, c).fields == sc.fields[f := Range(n, 1)])
  {
  }

  lemma LenBound(buf: seq<byte>, n: nat, sc: Scan, connect: bool)
    requires n <= |buf| && Scanned(buf, n, sc, connect) && sc.s != Dead
    ensures forall f :: f in sc.fields ==> sc.fields[f].len <= n
    ensures sc.last.Some? ==> sc.last.value in sc.fields
  {
    hide Around;
  }

  lemma NoInner(buf: seq<byte>, sc: Scan, connect: bool)
    requires Scanned(buf, |buf|, sc, connect) && sc.s != Dead
    ensures Port !in sc.fields && UserInfo !in sc.fields && forall f :: f in sc.fields ==> sc.fields[f].End() <= |buf|
  {
    hide Around;
  }

  lemma PortBound(buf: seq<byte>, fields: map<Uf, Range>)
    requires Surrounded(buf, fields)
    ensures Port in fields ==> fields[Port].End() <= |buf| && PortOk(buf, fields[Port])
  {
  }

  lemma {:induction false} DecimalGrows(digits: seq<byte>, n: nat)
    requires n <= |digits| && Digits(digits) && Decimal(digits[..n]) > 0xffff
    ensures Decimal(digits) > 0xffff
    decreases |digits|
  {
    if n < |digits| {
      var init := digits[..|digits| - 1];
      assert init[..n] == digits[..n];
      DecimalGrows(init, n);
    } else {
      assert digits[..n] == digits;
    }
  }

  lemma BehindAtFirst(h: HostScan, fields: map<Uf, Range>)
    requires h.s in {UserInfoStart, HostStart} && Host in fields && fields[Host].len == 0 && h.fields == fields - {Host}
    requires Port !in fields && UserInfo !in fields
    ensures Behind(h, fields, 0)
  {
  }

  lemma BehindAtLast(h: HostScan, fields: map<Uf, Range>, n: int)
    requires Behind(h, fields, n)
    ensures HostComplete(h.s) ==> fields == h.fields
  {
  }

  /** The map the program has, while the host's own length may still be 0, and the map of the second loop's model. */
  ghost predicate Behind(h: HostScan, fields: map<Uf, Range>, n: int) {
    && Host in fields
    && (Host !in h.fields ==> fields[Host].len == 0 && h.fields == fields - {Host})
    && (Host in h.fields ==> h.fields == fields)
    && (h.s in {InHost, V6, ZoneStart, Zone, V6End, PortStart, InPort} ==> Host in h.fields)
    && (h.s == InPort ==> Port in h.fields) && (h.s == InUserInfo ==> UserInfo in h.fields)
    && (forall f :: f in {UserInfo, Host, Port} && f in h.fields ==> h.fields[f].len <= n)
  }
}
