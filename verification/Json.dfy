/**
 The JSON writer and reader. Text is a C string: no NUL inside, and the NUL at its
 end is what a cursor past the last character sees. An object's members are in the
 order of their keys, which is the order the program's map has.
 */
module Json {
  datatype J = JNull | JBool(b: bool) | JInt(i: int) | JFloat(text: string) | JStr(s: string)
             | JArr(items: seq<J>) | JObj(members: seq<Member>)

  datatype Member = Member(key: string, value: J)

  const NUL: char := '\0'

  // ---------- the writer ----------

  function Tabs(n: nat): string {
    if n == 0 then "" else "\t" + Tabs(n - 1)
  }

  /** std::to_string of a non-negative int. */
  function Digits(n: nat): (s: string)
    ensures s != []
  {
    if n < 10 then [Digit(n)] else Digits(n / 10) + [Digit(n % 10)]
  }

  function Digit(d: nat): char
    requires d < 10
  {
    '0' + d as char
  }

  function IntText(i: int): (s: string)
    ensures s != []
  {
    if i < 0 then "-" + Digits(-i) else Digits(i)
  }

  function Line(layout: bool): string {
    if layout then "\n" else ""
  }

  function Indent(layout: bool, depth: nat): string {
    if layout then Tabs(depth) else ""
  }

  function Text(v: J, layout: bool, depth: nat): string
    decreases v
  {
    match v
    case JNull => "null"
    case JBool(b) => if b then "true" else "false"
    case JInt(i) => IntText(i)
    case JFloat(t) => t
    case JStr(s) => "\"" + s + "\""
    case JArr(items) => "[" + Line(layout) + ItemsText(items, layout, depth) + Indent(layout, depth) + "]"
    case JObj(members) => "{" + Line(layout) + MembersText(members, layout, depth) + Indent(layout, depth) + "}"
  }

  function ItemsText(items: seq<J>, layout: bool, depth: nat): string
    decreases items
  {
    if items == [] then ""
    else Indent(layout, depth + 1) + Text(items[0], layout, depth + 1) + (if |items| > 1 then "," else "") + Line(layout)
         + ItemsText(items[1..], layout, depth)
  }

  function MembersText(members: seq<Member>, layout: bool, depth: nat): string
    decreases members
  {
    if members == [] then ""
    else Indent(layout, depth + 1) + ("\"" + members[0].key + "\":") + Text(members[0].value, layout, depth + 1)
         + (if |members| > 1 then "," else "") + Line(layout) + MembersText(members[1..], layout, depth)
  }

  // ---------- the reader ----------

  /** A value, a null pointer, or the exception of std::stoi. */
  datatype Out = Value(v: J) | Fail | Threw

  /** The outcome, and the text from the cursor on. */
  datatype Read = Read(out: Out, rest: string)

  /** The character at the start of the text, NUL at its end. */
  function Head(s: string): char {
    if s == [] then NUL else s[0]
  }

  function Skip(s: string): (r: string)
    ensures |r| <= |s|
    ensures r != [] ==> r[0] > ' '
  {
    if s != [] && s[0] <= ' ' then Skip(s[1..]) else s
  }

  /** How far the first quote is, or the end. */
  function ToQuote(s: string): (n: nat)
    ensures n <= |s|
    ensures n < |s| ==> s[n] == '"'
  {
    if s == [] || s[0] == '"' then 0 else 1 + ToQuote(s[1..])
  }

  datatype Quoted = Quoted(ok: bool, s: string, rest: string)

  /** readStr: a string must not be empty. */
  function ReadStr(s: string): (q: Quoted)
    ensures q.ok ==> |q.rest| < |s|
    ensures |q.rest| <= |s|
  {
    if Head(s) != '"' then Quoted(false, "", s)
    else
      var body, n := s[1..], ToQuote(s[1..]);
      if 0 < n < |body| then Quoted(true, body[..n], body[n + 1..]) else Quoted(false, "", body[n..])
  }

  predicate IsDigit(c: char) {
    '0' <= c <= '9'
  }

  /** The scan over digits and points: whether a second point ended it, whether there was one, and how many digits. */
  datatype Scan = Scan(bad: bool, isFloat: bool, digits: nat, rest: string)

  function ScanNumber(s: string, isFloat: bool, digits: nat): (n: Scan)
    ensures |n.rest| <= |s| && n.digits >= digits
    ensures n.digits > digits ==> |n.rest| < |s|
  {
    if Head(s) == '.' then
      if isFloat then Scan(true, isFloat, digits, s) else ScanNumber(s[1..], true, digits)
    else if IsDigit(Head(s)) then ScanNumber(s[1..], isFloat, digits + 1)
    else Scan(false, isFloat, digits, s)
  }

  function Decimal(s: string): int {
    if s == [] then 0 else Decimal(s[..|s| - 1]) * 10 + (s[|s| - 1] as int - '0' as int)
  }

  /** std::stoi of an optional minus and digits. */
  function Stoi(s: string): int {
    if Head(s) == '-' then -Decimal(s[1..]) else Decimal(s)
  }

  predicate Int32(i: int) {
    -0x8000_0000 <= i < 0x8000_0000
  }

  /** readBase. */
  function ReadBase(s: string): (r: Read)
    ensures r.out.Value? ==> |r.rest| < |s|
    ensures |r.rest| <= |s|
  {
    if "null" <= s then Read(Value(JNull), s[4..])
    else if "false" <= s then Read(Value(JBool(false)), s[5..])
    else if "true" <= s then Read(Value(JBool(true)), s[4..])
    else
      var n := ScanNumber(if Head(s) == '-' then s[1..] else s, false, 0);
      if n.bad then Read(Fail, n.rest)
      else if n.digits > 0 then
        var text := s[..|s| - |n.rest|];
        if n.isFloat then Read(Value(JFloat(text)), n.rest)
        else if Int32(Stoi(text)) then Read(Value(JInt(Stoi(text))), n.rest)
        else Read(Threw, n.rest)
      else
        var q := ReadStr(n.rest);
        Read(if q.ok then Value(JStr(q.s)) else Fail, q.rest)
  }

  /** The order of std::string. */
  predicate Less(a: string, b: string) {
    b != [] && (a == [] || a[0] < b[0] || (a[0] == b[0] && Less(a[1..], b[1..])))
  }

  /** The map with one more entry, or with one replaced. */
  function Put(ms: seq<Member>, k: string, v: J): seq<Member> {
    if ms == [] then [Member(k, v)]
    else if k == ms[0].key then [Member(k, v)] + ms[1..]
    else if Less(k, ms[0].key) then [Member(k, v)] + ms
    else [ms[0]] + Put(ms[1..], k, v)
  }

  /** reader: every value read has taken some of the text. */
  function ReadValue(s: string): (r: Read)
    ensures r.out.Value? ==> |r.rest| < |s|
    ensures |r.rest| <= |s|
    decreases |s|, 0
  {
    var t := Skip(s);
    if Head(t) == '[' then ReadArray(t[1..])
    else if Head(t) == '{' then ReadObj(t[1..])
    else ReadBase(t)
  }

  /** readArray, after its bracket. */
  function ReadArray(s: string): (r: Read)
    ensures |r.rest| <= |s|
    decreases |s|, 2
  {
    if s == [] then Read(Fail, s)
    else if s[0] == ']' then Read(Value(JArr([])), s[1..])
    else ReadItems(s, [])
  }

  /** From the point where another element is read. */
  function ReadItems(s: string, items: seq<J>): (r: Read)
    ensures |r.rest| <= |s|
    decreases |s|, 1
  {
    var e := ReadValue(s);
    if !e.out.Value? then e
    else
      var q, items := Skip(e.rest), items + [e.out.v];
      if Head(q) == ',' then ReadItems(q[1..], items)
      else if Head(q) == ']' then Read(Value(JArr(items)), q[1..])
      else if q == [] then Read(Fail, q)
      else ReadItems(q, items)
  }

  /** readObj, after its brace. */
  function ReadObj(s: string): (r: Read)
    ensures |r.rest| <= |s|
    decreases |s|, 2
  {
    if s == [] then Read(Fail, s)
    else if s[0] == '}' then Read(Value(JObj([])), s[1..])
    else ReadMembers(s, [])
  }

  function ReadMembers(s: string, members: seq<Member>): (r: Read)
    ensures |r.rest| <= |s|
    decreases |s|, 1
  {
    var k := ReadStr(Skip(s));
    if !k.ok then Read(Fail, k.rest)
    else if Head(k.rest) != ':' then Read(Fail, k.rest)
    else
      var e := ReadValue(k.rest[1..]);
      if !e.out.Value? then e
      else
        var q, members := Skip(e.rest), Put(members, k.s, e.out.v);
        if Head(q) == ',' then ReadMembers(q[1..], members)
        else if Head(q) == '}' then Read(Value(JObj(members)), q[1..])
        else if q == [] then Read(Fail, q)
        else ReadMembers(q, members)
  }

  /** parser: the value, when nothing but blanks follows it. */
  function Parse(s: string): Out {
    var r := ReadValue(s);
    if r.out.Value? && Skip(r.rest) != [] then Fail else r.out
  }

  // ---------- what can be stored and read back ----------

  ghost predicate Clean(s: string) {
    Quotable(s) && NUL !in s
  }

  ghost predicate Quotable(s: string) {
    s != [] && '"' !in s
  }

  /** What the program's types hold, floats excepted: 32-bit integers, C strings, keys in the order of the map. */
  ghost predicate Tree(v: J)
    decreases v
  {
    match v
    case JInt(i) => Int32(i)
    case JFloat(_) => false
    case JStr(s) => NUL !in s
    case JArr(items) => AllTrees(items)
    case JObj(members) => MembersTrees(members)
    case _ => true
  }

  ghost predicate AllTrees(items: seq<J>)
    decreases items
  {
    items == [] || (Tree(items[0]) && AllTrees(items[1..]))
  }

  ghost predicate MembersTrees(ms: seq<Member>)
    decreases ms
  {
    ms == [] || (NUL !in ms[0].key && Tree(ms[0].value) && MembersTrees(ms[1..])
                 && forall m :: m in ms[1..] ==> Less(ms[0].key, m.key))
  }

  /** No string and no key is empty or has a quote in it. */
  ghost predicate Tidy(v: J)
    decreases v
  {
    match v
    case JStr(s) => Quotable(s)
    case JArr(items) => AllTidy(items)
    case JObj(members) => MembersTidy(members)
    case _ => true
  }

  ghost predicate AllTidy(items: seq<J>)
    decreases items
  {
    items == [] || (Tidy(items[0]) && AllTidy(items[1..]))
  }

  ghost predicate MembersTidy(ms: seq<Member>)
    decreases ms
  {
    ms == [] || (Quotable(ms[0].key) && Tidy(ms[0].value) && MembersTidy(ms[1..]))
  }

  /** Trees that writer and reader agree on. */
  ghost predicate Storable(v: J) {
    Tree(v) && Tidy(v)
  }

  ghost predicate AllStorable(items: seq<J>) {
    AllTrees(items) && AllTidy(items)
  }

  ghost predicate MembersStorable(ms: seq<Member>) {
    MembersTrees(ms) && MembersTidy(ms)
  }

  /** No container is empty. */
  ghost predicate Dense(v: J)
    decreases v
  {
    match v
    case JArr(items) => items != [] && AllDense(items)
    case JObj(members) => members != [] && MembersDense(members)
    case _ => true
  }

  ghost predicate AllDense(items: seq<J>)
    decreases items
  {
    items == [] || (Dense(items[0]) && AllDense(items[1..]))
  }

  ghost predicate MembersDense(ms: seq<Member>)
    decreases ms
  {
    ms == [] || (Dense(ms[0].value) && MembersDense(ms[1..]))
  }

  ghost predicate Blank(ws: string) {
    forall i :: 0 <= i < |ws| ==> ws[i] <= ' '
  }

  /** A number ends where this begins. */
  ghost predicate Stops(post: string) {
    Head(post) != '.' && !IsDigit(Head(post))
  }

  // ---------- numbers ----------

  ghost predicate AllDigits(s: string) {
    forall i :: 0 <= i < |s| ==> IsDigit(s[i])
  }

  lemma DigitIs(d: nat)
    requires d < 10
    ensures IsDigit(Digit(d)) && Digit(d) as int - '0' as int == d
  {
  }

  lemma {:induction false} DigitsDecimal(n: nat)
    ensures AllDigits(Digits(n)) && Decimal(Digits(n)) == n
  {
    hide Digit, IsDigit;
    if n < 10 {
      DigitIs(n);
      assert Digits(n)[..0] == [];
    } else {
      DigitsDecimal(n / 10);
      DigitIs(n % 10);
      assert Digits(n)[..|Digits(n)| - 1] == Digits(n / 10);
    }
  }

  lemma {:induction false} ScanDigits(ds: string, post: string, digits: nat)
    requires AllDigits(ds) && Stops(post)
    ensures ScanNumber(ds + post, false, digits) == Scan(false, false, digits + |ds|, post)
    decreases |ds|
  {
    if ds == [] {
      assert ds + post == post;
    } else {
      assert (ds + post)[1..] == ds[1..] + post;
      ScanDigits(ds[1..], post, digits + 1);
    }
  }

  lemma IntReads(i: int, post: string)
    requires Int32(i) && Stops(post)
    ensures ReadBase(IntText(i) + post) == Read(Value(JInt(i)), post)
    ensures IntText(i)[0] > ' ' && IntText(i)[0] !in {'[', '{'}
  {
    hide Digits, Decimal, ScanNumber, ReadStr;
    var n := if i < 0 then -i else i;
    var ds, s := Digits(n), IntText(i) + post;
    DigitsDecimal(n);
    ScanDigits(ds, post, 0);
    SignOff(ds, post);
    assert s[0] == '-' || IsDigit(s[0]);
    assert Stoi(IntText(i)) == i;
    NotWord(s);
    hide IntText, Stoi;
  }

  lemma SignOff(ds: string, post: string)
    ensures ("-" + ds + post)[1..] == ds + post && ("-" + ds)[1..] == ds
    ensures ("-" + ds + post)[..|"-" + ds|] == "-" + ds && (ds + post)[..|ds|] == ds
  {
  }

  lemma NotWord(s: string)
    requires s != [] && s[0] !in "nft"
    ensures !("null" <= s) && !("false" <= s) && !("true" <= s)
  {
  }

  // ---------- strings ----------

  lemma {:induction false} ToQuoteFinds(s: string, post: string)
    requires '"' !in s
    ensures ToQuote(s + ("\"" + post)) == |s|
    decreases |s|
  {
    if s == [] {
      assert s + ("\"" + post) == "\"" + post;
    } else {
      assert (s + ("\"" + post))[1..] == s[1..] + ("\"" + post);
      ToQuoteFinds(s[1..], post);
    }
  }

  lemma StrReads(s: string, post: string)
    requires Clean(s)
    ensures ReadStr("\"" + s + "\"" + post) == Quoted(true, s, post)
  {
    var t := "\"" + s + "\"" + post;
    var body := s + ("\"" + post);
    assert t[1..] == body;
    ToQuoteFinds(s, post);
    assert body[..|s|] == s && body[|s| + 1..] == post;
  }

  lemma StrValueReads(s: string, post: string)
    requires Clean(s)
    ensures ReadBase("\"" + s + "\"" + post) == Read(Value(JStr(s)), post)
  {
    hide ReadStr;
    StrReads(s, post);
    var t := "\"" + s + "\"" + post;
    assert t[0] == '"';
    assert !("null" <= t) && !("false" <= t) && !("true" <= t);
    assert ScanNumber(t, false, 0) == Scan(false, false, 0, t);
  }

  lemma {:induction false} SkipBlank(ws: string, t: string)
    requires Blank(ws) && t != [] && t[0] > ' '
    ensures Skip(ws + t) == t
    decreases |ws|
  {
    if ws == [] {
      assert ws + t == t;
    } else {
      assert (ws + t)[1..] == ws[1..] + t;
      SkipBlank(ws[1..], t);
    }
  }

  lemma {:induction false} IndentBlank(layout: bool, depth: nat)
    ensures Blank(Indent(layout, depth)) && Blank(Line(layout))
  {
    if layout && depth > 0 {
      IndentBlank(layout, depth - 1);
    }
  }

  // ---------- the order of keys ----------

  lemma {:induction false} LessOrder(a: string, b: string)
    requires Less(a, b)
    ensures a != b && !Less(b, a)
    decreases |a|
  {
    if a != [] && a[0] == b[0] {
      LessOrder(a[1..], b[1..]);
    }
  }

  /** A key after all the others goes to the end. */
  lemma {:induction false} PutLast(ms: seq<Member>, k: string, v: J)
    requires forall m :: m in ms ==> Less(m.key, k)
    ensures Put(ms, k, v) == ms + [Member(k, v)]
    decreases |ms|
  {
    if ms != [] {
      LessOrder(ms[0].key, k);
      PutLast(ms[1..], k, v);
    }
  }

  // ---------- round trip ----------

  /** What follows the last element of a container. */
  function Close(layout: bool, depth: nat, c: char, post: string): string {
    Indent(layout, depth) + ([c] + post)
  }

  lemma CloseSkips(layout: bool, depth: nat, c: char, post: string)
    requires c in {']', '}'}
    ensures Skip(Line(layout) + Close(layout, depth, c, post)) == [c] + post
    ensures Stops(Line(layout) + Close(layout, depth, c, post))
  {
    IndentBlank(layout, depth);
    var ws := Line(layout) + Indent(layout, depth);
    assert Line(layout) + Close(layout, depth, c, post) == ws + ([c] + post);
    SkipBlank(ws, [c] + post);
    if ws == [] {
      assert ws + ([c] + post) == [c] + post;
    } else {
      assert ws[0] <= ' ';
    }
  }

  /** The text of a value starts with something that is not a blank. */
  lemma TextStarts(v: J, layout: bool, depth: nat)
    requires Storable(v)
    ensures Text(v, layout, depth) != [] && Text(v, layout, depth)[0] > ' '
  {
    if v.JInt? {
      DigitsDecimal(if v.i < 0 then -v.i else v.i);
    }
  }

  /**
   Writing a tree and reading the text gives the tree back and stops right after
   the text: for the compact form always, for the indented form when no container
   in the tree is empty.
   */
  lemma {:induction false} ReadsBack(v: J, layout: bool, depth: nat, ws: string, post: string)
    requires Storable(v) && (layout ==> Dense(v)) && Blank(ws) && Stops(post)
    ensures ReadValue(ws + Text(v, layout, depth) + post) == Read(Value(v), post)
    decreases v
  {
    hide ReadBase, Text, ItemsText, MembersText, ReadItems, ReadMembers, Skip, Close, Line;
    var t := Text(v, layout, depth) + post;
    TextStarts(v, layout, depth);
    assert ws + Text(v, layout, depth) + post == ws + t;
    SkipBlank(ws, t);
    IndentBlank(layout, depth);
    match v
    case JArr(items) =>
      ArrayParts(items, layout, depth, post);
      if items != [] {
        ItemsBack(items, layout, depth, Line(layout), [], post);
        assert [] + items == items;
      }
    case JObj(members) =>
      ObjectParts(members, layout, depth, post);
      if members != [] {
        MembersBack(members, layout, depth, Line(layout), [], post);
        assert [] + members == members;
      }
    case _ => LeafReads(v, layout, depth, post);
  }

  lemma LeafReads(v: J, layout: bool, depth: nat, post: string)
    requires Storable(v) && !v.JArr? && !v.JObj? && Stops(post)
    ensures var t := Text(v, layout, depth) + post; ReadBase(t) == Read(Value(v), post) && t[0] !in {'[', '{'}
  {
    hide ReadBase, IntText;
    match v
    case JNull => WordReads("null", v, post);
    case JBool(b) => WordReads(if b then "true" else "false", v, post);
    case JInt(i) => IntReads(i, post);
    case JStr(s) => StrValueReads(s, post);
  }

  lemma Bracket(a: string, l: string, m: string, i: string, b: string, post: string)
    requires |a| == 1
    ensures (a + l + m + i + b + post)[0] == a[0] && (a + l + m + i + b + post)[1..] == l + m + (i + (b + post))
  {
  }

  lemma ArrayParts(items: seq<J>, layout: bool, depth: nat, post: string)
    requires AllStorable(items) && (layout ==> items != [])
    ensures var t := Text(JArr(items), layout, depth) + post;
            && t[0] == '['
            && (items == [] ==> t[1..] == "]" + post)
            && (items != [] ==> t[1..] == Line(layout) + ItemsText(items, layout, depth) + Close(layout, depth, ']', post)
                                && t[1..] != [] && t[1] != ']')
  {
    var l, m, i := Line(layout), ItemsText(items, layout, depth), Indent(layout, depth);
    Bracket("[", l, m, i, "]", post);
    if items != [] {
      ItemsStart(items, layout, depth);
    } else {
      EmptyText(layout, depth);
      assert l + m + (i + ("]" + post)) == "]" + post;
    }
    hide ItemsText, Line, Indent;
  }

  lemma ObjectParts(members: seq<Member>, layout: bool, depth: nat, post: string)
    requires layout ==> members != []
    ensures var t := Text(JObj(members), layout, depth) + post;
            && t[0] == '{'
            && (members == [] ==> t[1..] == "}" + post)
            && (members != [] ==> t[1..] == Line(layout) + MembersText(members, layout, depth) + Close(layout, depth, '}', post)
                                  && t[1..] != [] && t[1] != '}')
  {
    var l, m, i := Line(layout), MembersText(members, layout, depth), Indent(layout, depth);
    Bracket("{", l, m, i, "}", post);
    if members != [] {
      MembersStart(members, layout, depth);
    } else {
      EmptyText(layout, depth);
      assert l + m + (i + ("}" + post)) == "}" + post;
    }
    hide MembersText, Line, Indent;
  }

  lemma WordReads(w: string, v: J, post: string)
    requires (w == "null" && v == JNull) || (w == "true" && v == JBool(true)) || (w == "false" && v == JBool(false))
    ensures ReadBase(w + post) == Read(Value(v), post)
  {
    var s := w + post;
    assert w <= s && s[|w|..] == post && s[0] == w[0];
    assert w == "false" ==> !("null" <= s);
    assert w == "true" ==> !("null" <= s) && !("false" <= s);
  }

  lemma EmptyText(layout: bool, depth: nat)
    ensures ItemsText([], layout, depth) == "" && MembersText([], layout, depth) == ""
  {
  }

  lemma ItemsStart(items: seq<J>, layout: bool, depth: nat)
    requires items != [] && AllStorable(items)
    ensures var s := Line(layout) + ItemsText(items, layout, depth); s != [] && s[0] != ']'
  {
    TextStarts(items[0], layout, depth + 1);
    FirstNotClosing(items[0], layout, depth + 1);
    IndentBlank(layout, depth + 1);
  }

  lemma FirstNotClosing(v: J, layout: bool, depth: nat)
    requires Storable(v)
    ensures Text(v, layout, depth)[0] != ']'
  {
    TextStarts(v, layout, depth);
    if v.JInt? {
      DigitsDecimal(if v.i < 0 then -v.i else v.i);
    }
  }

  lemma MembersStart(members: seq<Member>, layout: bool, depth: nat)
    requires members != []
    ensures var s := Line(layout) + MembersText(members, layout, depth); s != [] && s[0] != '}'
  {
    IndentBlank(layout, depth + 1);
  }

  /** What follows the first element of a container. */
  function AfterItem(tail: seq<J>, layout: bool, depth: nat, close: string): string {
    if tail == [] then Line(layout) + close else "," + (Line(layout) + ItemsText(tail, layout, depth) + close)
  }

  function AfterMember(tail: seq<Member>, layout: bool, depth: nat, close: string): string {
    if tail == [] then Line(layout) + close else "," + (Line(layout) + MembersText(tail, layout, depth) + close)
  }

  lemma Regroup(ws: string, i: string, t: string, c: string, l: string, rest: string, close: string)
    ensures ws + (i + t + c + l + rest) + close == ws + i + t + (c + (l + rest + close))
  {
  }

  lemma RegroupKey(ws: string, i: string, key: string, t: string, c: string, l: string, rest: string, close: string)
    ensures ws + (i + ("\"" + key + "\":") + t + c + l + rest) + close ==
            ws + i + ("\"" + key + "\"" + (":" + (t + (c + (l + rest + close)))))
  {
    var k := "\"" + key + "\":";
    Regroup(ws, i, k + t, c, l, rest, close);
    assert i + k + t == i + (k + t);
    var x := t + (c + (l + rest + close));
    assert k == "\"" + key + "\"" + ":";
    assert k + x == "\"" + key + "\"" + (":" + x);
    assert ws + i + (k + t) + (c + (l + rest + close)) == ws + i + (k + x);
  }

  lemma ItemsParts(items: seq<J>, layout: bool, depth: nat, ws: string, close: string)
    requires items != []
    ensures ws + ItemsText(items, layout, depth) + close ==
            ws + Indent(layout, depth + 1) + Text(items[0], layout, depth + 1) + AfterItem(items[1..], layout, depth, close)
  {
    hide Text, Indent, Line;
    var i, t, tail := Indent(layout, depth + 1), Text(items[0], layout, depth + 1), items[1..];
    var c, l, rest := if tail != [] then "," else "", Line(layout), ItemsText(tail, layout, depth);
    Regroup(ws, i, t, c, l, rest, close);
    if tail == [] {
      assert l + "" + close == l + close && "" + (l + close) == l + close;
    }
  }

  lemma MembersParts(members: seq<Member>, layout: bool, depth: nat, ws: string, close: string)
    requires members != []
    ensures ws + MembersText(members, layout, depth) + close ==
            ws + Indent(layout, depth + 1)
            + ("\"" + members[0].key + "\"" + (":" + (Text(members[0].value, layout, depth + 1)
                                                      + AfterMember(members[1..], layout, depth, close))))
  {
    hide Text, Indent, Line;
    var i, t, tail := Indent(layout, depth + 1), Text(members[0].value, layout, depth + 1), members[1..];
    var c, l, rest := if tail != [] then "," else "", Line(layout), MembersText(tail, layout, depth);
    RegroupKey(ws, i, members[0].key, t, c, l, rest, close);
    if tail == [] {
      assert l + "" + close == l + close && "" + (l + close) == l + close;
    }
  }

  lemma {:induction false} ItemsBack(items: seq<J>, layout: bool, depth: nat, ws: string, before: seq<J>, post: string)
    requires items != [] && AllStorable(items) && (layout ==> AllDense(items)) && Blank(ws) && Stops(post)
    ensures ReadItems(ws + ItemsText(items, layout, depth) + Close(layout, depth, ']', post), before) ==
            Read(Value(JArr(before + items)), post)
    decreases items
  {
    hide ReadValue, Text, Skip, Less, Close, Tree, Tidy, Dense, ItemsText, Stops, Line, Indent;
    var close, tail := Close(layout, depth, ']', post), items[1..];
    var after, ws' := AfterItem(tail, layout, depth, close), ws + Indent(layout, depth + 1);
    IndentBlank(layout, depth + 1);
    CloseSkips(layout, depth, ']', post);
    ItemsParts(items, layout, depth, ws, close);
    CommaSkips(after);
    ReadsBack(items[0], layout, depth + 1, ws', after);
    if tail == [] {
      assert items == [items[0]];
    } else {
      IndentBlank(layout, depth);
      ItemsBack(tail, layout, depth, Line(layout), before + [items[0]], post);
      assert before + [items[0]] + tail == before + items;
    }
  }

  lemma CommaSkips(s: string)
    ensures s != [] && s[0] == ',' ==> Skip(s) == s && Stops(s)
  {
  }

  lemma {:induction false} MembersBack(members: seq<Member>, layout: bool, depth: nat, ws: string, before: seq<Member>,
                                       post: string)
    requires members != [] && MembersStorable(members) && (layout ==> MembersDense(members)) && Blank(ws) && Stops(post)
    requires forall a, b :: a in before && b in members ==> Less(a.key, b.key)
    ensures ReadMembers(ws + MembersText(members, layout, depth) + Close(layout, depth, '}', post), before) ==
            Read(Value(JObj(before + members)), post)
    decreases members
  {
    hide ReadValue, Text, Skip, Less, Close, Tree, Tidy, Dense, MembersText, Stops, Line, Indent, ReadStr, Put, Quotable;
    var close, tail, m := Close(layout, depth, '}', post), members[1..], members[0];
    var after, ws' := AfterMember(tail, layout, depth, close), ws + Indent(layout, depth + 1);
    var value := Text(m.value, layout, depth + 1) + after;
    IndentBlank(layout, depth + 1);
    CloseSkips(layout, depth, '}', post);
    MembersParts(members, layout, depth, ws, close);
    MemberReads(m.key, ws', value);
    assert (":" + value)[1..] == value && "" + Text(m.value, layout, depth + 1) + after == value;
    CommaSkips(after);
    ReadsBack(m.value, layout, depth + 1, "", after);
    PutLast(before, m.key, m.value);
    assert Member(m.key, m.value) == m;
    if tail == [] {
      assert members == [m];
    } else {
      IndentBlank(layout, depth);
      MembersBack(tail, layout, depth, Line(layout), before + [m], post);
      assert before + [m] + tail == before + members;
    }
  }

  lemma MemberReads(k: string, ws: string, after: string)
    requires Clean(k) && Blank(ws)
    ensures ReadStr(Skip(ws + ("\"" + k + "\"" + (":" + after)))) == Quoted(true, k, ":" + after)
  {
    hide ReadStr, Skip;
    SkipBlank(ws, "\"" + k + "\"" + (":" + after));
    StrReads(k, ":" + after);
  }

  // ---------- the indented form of empty containers ----------

  /** A closing bracket is not a value. */
  lemma ClosingFails(c: char, post: string)
    requires c in {']', '}'}
    ensures ReadBase([c] + post).out == Fail && ReadStr([c] + post).ok == false
  {
    var s := [c] + post;
    assert s[0] == c;
    assert !("null" <= s) && !("false" <= s) && !("true" <= s);
    assert ScanNumber(s, false, 0) == Scan(false, false, 0, s);
  }

  lemma EmptyContainerFails(v: J, depth: nat, post: string)
    requires v == JArr([]) || v == JObj([])
    ensures ReadValue(Text(v, true, depth) + post).out == Fail
  {
    hide ReadBase, ReadStr;
    var a, b := if v.JArr? then "[" else "{", if v.JArr? then ']' else '}';
    var i := Indent(true, depth);
    EmptyText(true, depth);
    Bracket(a, "\n", "", i, [b], post);
    var s := "\n" + "" + (i + ([b] + post));
    assert Text(v, true, depth) == a + "\n" + "" + i + [b];
    IndentBlank(true, depth);
    assert s == ("\n" + i) + ([b] + post);
    SkipBlank("\n" + i, [b] + post);
    ClosingFails(b, post);
    assert s[0] == '\n';
    var t := Text(v, true, depth) + post;
    assert t[0] == a[0] && t[1..] == s;
    assert "" + t == t;
    SkipBlank("", t);
    hide Skip, Text;
    if v.JArr? {
      assert ReadValue(s).out == Fail;
      assert ReadItems(s, []).out == Fail;
      assert ReadArray(s).out == Fail;
    } else {
      assert ReadMembers(s, []).out == Fail;
      assert ReadObj(s).out == Fail;
    }
  }

  /** With an empty container anywhere in it, the indented text of a tree is not read. */
  lemma {:induction false} EmptyFails(v: J, depth: nat, ws: string, post: string)
    requires Storable(v) && !Dense(v) && Blank(ws) && Stops(post)
    ensures ReadValue(ws + Text(v, true, depth) + post).out == Fail
    decreases v
  {
    hide ReadBase, Text, ItemsText, MembersText, ReadItems, ReadMembers, Skip, Close, Line;
    var t := Text(v, true, depth) + post;
    TextStarts(v, true, depth);
    assert ws + Text(v, true, depth) + post == ws + t;
    SkipBlank(ws, t);
    SkipBlank("", t);
    assert "" + t == t;
    IndentBlank(true, depth);
    if v == JArr([]) || v == JObj([]) {
      EmptyContainerFails(v, depth, post);
    } else if v.JArr? {
      ArrayParts(v.items, true, depth, post);
      ItemsFail(v.items, depth, Line(true), [], post);
    } else {
      ObjectParts(v.members, true, depth, post);
      MembersFail(v.members, depth, Line(true), [], post);
    }
  }

  lemma {:induction false} ItemsFail(items: seq<J>, depth: nat, ws: string, before: seq<J>, post: string)
    requires AllStorable(items) && !AllDense(items) && Blank(ws) && Stops(post)
    ensures ReadItems(ws + ItemsText(items, true, depth) + Close(true, depth, ']', post), before).out == Fail
    decreases items
  {
    hide ReadValue, Text, Skip, Less, Close, Tree, Tidy, Dense, ItemsText, Stops, Line, Indent;
    var close, tail := Close(true, depth, ']', post), items[1..];
    var after, ws' := AfterItem(tail, true, depth, close), ws + Indent(true, depth + 1);
    IndentBlank(true, depth + 1);
    CloseSkips(true, depth, ']', post);
    ItemsParts(items, true, depth, ws, close);
    CommaSkips(after);
    if !Dense(items[0]) {
      EmptyFails(items[0], depth + 1, ws', after);
    } else {
      ReadsBack(items[0], true, depth + 1, ws', after);
      IndentBlank(true, depth);
      ItemsFail(tail, depth, Line(true), before + [items[0]], post);
    }
  }

  lemma {:induction false} MembersFail(members: seq<Member>, depth: nat, ws: string, before: seq<Member>, post: string)
    requires MembersStorable(members) && !MembersDense(members) && Blank(ws) && Stops(post)
    ensures ReadMembers(ws + MembersText(members, true, depth) + Close(true, depth, '}', post), before).out == Fail
    decreases members
  {
    hide ReadValue, Text, Skip, Less, Close, Tree, Tidy, Dense, MembersText, Stops, Line, Indent, ReadStr, Put, Quotable;
    var close, tail, m := Close(true, depth, '}', post), members[1..], members[0];
    var after, ws' := AfterMember(tail, true, depth, close), ws + Indent(true, depth + 1);
    var value := Text(m.value, true, depth + 1) + after;
    IndentBlank(true, depth + 1);
    CloseSkips(true, depth, '}', post);
    MembersParts(members, true, depth, ws, close);
    MemberReads(m.key, ws', value);
    assert (":" + value)[1..] == value && "" + Text(m.value, true, depth + 1) + after == value;
    CommaSkips(after);
    if !Dense(m.value) {
      EmptyFails(m.value, depth + 1, "", after);
    } else {
      ReadsBack(m.value, true, depth + 1, "", after);
      IndentBlank(true, depth);
      MembersFail(tail, depth, Line(true), Put(before, m.key, m.value), post);
    }
  }

  // ---------- what reading can give ----------

  lemma ReadStrTidy(s: string)
    ensures ReadStr(s).ok ==> Quotable(ReadStr(s).s)
  {
    if s != [] {
      BeforeQuote(s[1..]);
    }
  }

  lemma {:induction false} BeforeQuote(s: string)
    ensures '"' !in s[..ToQuote(s)]
  {
    if s != [] && s[0] != '"' {
      BeforeQuote(s[1..]);
      assert s[..ToQuote(s)] == [s[0]] + s[1..][..ToQuote(s[1..])];
    }
  }

  lemma {:induction false} PutTidy(ms: seq<Member>, k: string, v: J)
    requires MembersTidy(ms) && Quotable(k) && Tidy(v)
    ensures MembersTidy(Put(ms, k, v))
    decreases |ms|
  {
    hide Less, Tidy;
    if ms != [] {
      PutTidy(ms[1..], k, v);
    }
  }

  lemma {:induction false} ItemsTidy(items: seq<J>, v: J)
    requires AllTidy(items) && Tidy(v)
    ensures AllTidy(items + [v])
    decreases |items|
  {
    hide Tidy;
    if items == [] {
      assert items + [v] == [v];
    } else {
      ItemsTidy(items[1..], v);
      assert (items + [v])[1..] == items[1..] + [v];
    }
  }

  lemma ReadBaseTidy(s: string)
    ensures ReadBase(s).out.Value? ==> Tidy(ReadBase(s).out.v)
  {
    ReadStrTidy(ScanNumber(if Head(s) == '-' then s[1..] else s, false, 0).rest);
    hide ReadStr, ScanNumber, Stoi;
  }

  /** Whatever the text, no value read has an empty string or key in it, or one with a quote. */
  lemma {:induction false} ReadTidy(s: string)
    ensures ReadValue(s).out.Value? ==> Tidy(ReadValue(s).out.v)
    decreases |s|, 0
  {
    hide ReadBase, ReadItems, ReadMembers, Skip;
    var t := Skip(s);
    ReadBaseTidy(t);
    if t != [] {
      ReadItemsTidy(t[1..], []);
      ReadMembersTidy(t[1..], []);
    }
  }

  lemma {:induction false} ReadItemsTidy(s: string, items: seq<J>)
    requires AllTidy(items)
    ensures ReadItems(s, items).out.Value? ==> Tidy(ReadItems(s, items).out.v)
    decreases |s|, 1
  {
    hide ReadValue, Skip;
    ReadTidy(s);
    var e := ReadValue(s);
    if e.out.Value? {
      var q := Skip(e.rest);
      ItemsTidy(items, e.out.v);
      if q != [] {
        ReadItemsTidy(if q[0] == ',' then q[1..] else q, items + [e.out.v]);
      }
    }
  }

  lemma {:induction false} ReadMembersTidy(s: string, members: seq<Member>)
    requires MembersTidy(members)
    ensures ReadMembers(s, members).out.Value? ==> Tidy(ReadMembers(s, members).out.v)
    decreases |s|, 1
  {
    hide ReadValue, Skip, ReadStr, Put, Quotable;
    var k := ReadStr(Skip(s));
    ReadStrTidy(Skip(s));
    if k.ok && k.rest != [] {
      ReadTidy(k.rest[1..]);
      var e := ReadValue(k.rest[1..]);
      if e.out.Value? {
        var q := Skip(e.rest);
        PutTidy(members, k.s, e.out.v);
        if q != [] {
          ReadMembersTidy(if q[0] == ',' then q[1..] else q, Put(members, k.s, e.out.v));
        }
      }
    }
  }

  /**
   parser(write(t)) is t: in the compact form exactly for the trees whose strings and
   keys are not empty and have no quote in them, and in the indented form exactly for
   those of them without an empty container; what is wrong only with empty containers
   is refused.
   */
  lemma RoundTrip(v: J)
    requires Tree(v)
    ensures Parse(Text(v, false, 0)) == Value(v) <==> Tidy(v)
    ensures Parse(Text(v, true, 0)) == Value(v) <==> Tidy(v) && Dense(v)
    ensures Tidy(v) && !Dense(v) ==> Parse(Text(v, true, 0)) == Fail
  {
    hide ReadValue, Text, Dense, Tree, Tidy;
    assert "" + Text(v, false, 0) + "" == Text(v, false, 0) && "" + Text(v, true, 0) + "" == Text(v, true, 0);
    ReadTidy(Text(v, false, 0));
    ReadTidy(Text(v, true, 0));
    if Tidy(v) {
      ReadsBack(v, false, 0, "", "");
      if Dense(v) {
        ReadsBack(v, true, 0, "", "");
      } else {
        EmptyFails(v, 0, "", "");
      }
    }
  }

  // ---------- the program ----------

  class StringBuf {
    var s: string

    constructor ()
      ensures s == ""
    {
      s := "";
    }

    method Append(t: string)
      modifies this
      ensures s == old(s) + t
    {
      s := s + t;
    }
  }

  method WriteDepth(str: StringBuf, depth: nat)
    modifies str
    ensures str.s == old(str.s) + Tabs(depth)
  {
    var i := 0;
    assert str.s + Tabs(0) == str.s;
    while i < depth
      invariant 0 <= i <= depth && str.s == old(str.s) + Tabs(i)
    {
      TabsMore(i);
      str.Append("\t");
      i := i + 1;
    }
  }

  lemma {:induction false} TabsMore(n: nat)
    ensures Tabs(n + 1) == Tabs(n) + "\t"
  {
    if n > 0 {
      TabsMore(n - 1);
    }
  }

  /** write of a value, an array or an object. */
  method Write(v: J, str: StringBuf, layout: bool, depth: nat)
    modifies str
    ensures str.s == old(str.s) + Text(v, layout, depth)
    decreases v
  {
    match v
    case JNull => str.Append("null");
    case JBool(b) =>
      if b {
        str.Append("true");
      } else {
        str.Append("false");
      }
    case JInt(i) => str.Append(IntText(i));
    case JFloat(t) => str.Append(t);
    case JStr(s) => str.Append("\"" + s + "\"");
    case JArr(items) => WriteArray(items, str, layout, depth);
    case JObj(members) => WriteObj(members, str, layout, depth);
  }

  method WriteArray(items: seq<J>, str: StringBuf, layout: bool, depth: nat)
    modifies str
    ensures str.s == old(str.s) + Text(JArr(items), layout, depth)
    decreases items, 1
  {
    hide ItemsText, Tabs, ItemText;
    ghost var before := str.s;
    str.Append("[");
    if layout {
      str.Append("\n");
    }
    ghost var begun := str.s;
    var n := 0;
    assert items[0..] == items && begun + "" == begun;
    ghost var done := "";
    while n < |items|
      invariant 0 <= n <= |items|
      invariant str.s == begun + done
      invariant done + ItemsText(items[n..], layout, depth) == ItemsText(items, layout, depth)
    {
      ItemFirst(items, n, layout, depth);
      WriteItem(items, n, str, layout, depth);
      done := done + ItemText(items, n, layout, depth);
      n := n + 1;
    }
    NoItems(layout, depth);
    assert items[n..] == [] && done == ItemsText(items, layout, depth);
    Closed(before, "[", layout, depth, done, "]");
    if layout {
      WriteDepth(str, depth);
    }
    str.Append("]");
  }

  lemma Closed(before: string, a: string, layout: bool, depth: nat, items: string, b: string)
    ensures before + a + Line(layout) + items + Indent(layout, depth) + b ==
            before + (a + Line(layout) + items + Indent(layout, depth) + b)
    ensures !layout ==> before + a == before + a + Line(layout)
    ensures !layout ==> before + a + Line(layout) + items == before + a + Line(layout) + items + Indent(layout, depth)
  {
    Regrouped(before, a, Line(layout), items, Indent(layout, depth), b);
    if !layout {
      assert Line(layout) == "" && Indent(layout, depth) == "";
      NothingMore(before + a);
      NothingMore(before + a + Line(layout) + items);
    }
    hide *;
  }

  lemma Regrouped(s: string, a: string, b: string, c: string, d: string, e: string)
    ensures s + a + b + c + d + e == s + (a + b + c + d + e)
  {
  }

  lemma NothingMore(s: string)
    ensures s + "" == s
  {
  }

  method WriteItem(items: seq<J>, n: nat, str: StringBuf, layout: bool, depth: nat)
    requires n < |items|
    modifies str
    ensures str.s == old(str.s) + ItemText(items, n, layout, depth)
    decreases items, 0
  {
    hide Text, Tabs;
    if layout {
      WriteDepth(str, depth + 1);
    }
    Write(items[n], str, layout, depth + 1);
    if n + 1 < |items| {
      str.Append(",");
    }
    if layout {
      str.Append("\n");
    }
  }

  /** One element with its indentation, comma and line end. */
  ghost function ItemText(items: seq<J>, n: nat, layout: bool, depth: nat): string
    requires n < |items|
  {
    Indent(layout, depth + 1) + Text(items[n], layout, depth + 1) + (if n + 1 < |items| then "," else "") + Line(layout)
  }

  lemma ItemFirst(items: seq<J>, n: nat, layout: bool, depth: nat)
    requires n < |items|
    ensures ItemsText(items[n..], layout, depth) == ItemText(items, n, layout, depth) + ItemsText(items[n + 1..], layout, depth)
  {
    hide Text, Indent, Line;
    assert items[n..][1..] == items[n + 1..];
  }

  lemma NoItems(layout: bool, depth: nat)
    ensures ItemsText([], layout, depth) == "" && MembersText([], layout, depth) == ""
  {
  }

  method WriteObj(members: seq<Member>, str: StringBuf, layout: bool, depth: nat)
    modifies str
    ensures str.s == old(str.s) + Text(JObj(members), layout, depth)
    decreases members, 1
  {
    hide MembersText, Tabs, MemberText;
    ghost var before := str.s;
    str.Append("{");
    if layout {
      str.Append("\n");
    }
    ghost var begun := str.s;
    var n := 0;
    assert members[0..] == members && begun + "" == begun;
    ghost var done := "";
    while n < |members|
      invariant 0 <= n <= |members|
      invariant str.s == begun + done
      invariant done + MembersText(members[n..], layout, depth) == MembersText(members, layout, depth)
    {
      MemberFirst(members, n, layout, depth);
      WriteMember(members, n, str, layout, depth);
      done := done + MemberText(members, n, layout, depth);
      n := n + 1;
    }
    NoItems(layout, depth);
    assert members[n..] == [] && done == MembersText(members, layout, depth);
    Closed(before, "{", layout, depth, done, "}");
    if layout {
      WriteDepth(str, depth);
    }
    str.Append("}");
  }

  method WriteMember(members: seq<Member>, n: nat, str: StringBuf, layout: bool, depth: nat)
    requires n < |members|
    modifies str
    ensures str.s == old(str.s) + MemberText(members, n, layout, depth)
    decreases members, 0
  {
    hide Text, Tabs;
    if layout {
      WriteDepth(str, depth + 1);
    }
    str.Append("\"" + members[n].key + "\":");
    Write(members[n].value, str, layout, depth + 1);
    if n + 1 < |members| {
      str.Append(",");
    }
    if layout {
      str.Append("\n");
    }
  }

  ghost function MemberText(members: seq<Member>, n: nat, layout: bool, depth: nat): string
    requires n < |members|
  {
    Indent(layout, depth + 1) + ("\"" + members[n].key + "\":") + Text(members[n].value, layout, depth + 1)
    + (if n + 1 < |members| then "," else "") + Line(layout)
  }

  lemma MemberFirst(members: seq<Member>, n: nat, layout: bool, depth: nat)
    requires n < |members|
    ensures MembersText(members[n..], layout, depth) ==
            MemberText(members, n, layout, depth) + MembersText(members[n + 1..], layout, depth)
  {
    hide Text, Indent, Line;
    assert members[n..][1..] == members[n + 1..];
  }

  /** The text and the cursor that the reading functions share. */
  class JsonBuff {
    const text: string
    var p: nat

    ghost predicate Valid()
      reads this
    {
      p <= |text| && NUL !in text
    }

    /** What is left from the cursor on. */
    ghost function Left(): string
      requires p <= |text|
      reads this
    {
      text[p..]
    }

    constructor (text: string)
      requires NUL !in text
      ensures Valid() && Left() == text
    {
      this.text := text;
      p := 0;
    }

    method Curr() returns (c: char)
      requires Valid()
      ensures c == Head(Left()) && (c == NUL <==> Left() == "")
    {
      c := if p < |text| then text[p] else NUL;
    }

    method Go(len: nat)
      requires Valid() && len <= |Left()|
      modifies `p
      ensures Valid() && Left() == old(Left())[len..] && p == old(p) + len
    {
      p := p + len;
    }

    method SkipBlanks() returns (c: char)
      requires Valid()
      modifies `p
      ensures Valid() && Left() == Skip(old(Left())) && p >= old(p)
      ensures c == Head(Left()) && (c == NUL <==> Left() == "")
    {
      while p < |text| && text[p] <= ' '
        invariant Valid() && p >= old(p) && Skip(Left()) == Skip(old(Left()))
      {
        assert Left()[1..] == text[p + 1..];
        p := p + 1;
      }
      c := Curr();
    }

    /** strncmp of a word with what is left. */
    method StartsWith(w: string) returns (r: bool)
      requires Valid()
      ensures r <==> w <= Left()
    {
      r := |w| <= |text| - p && text[p..p + |w|] == w;
    }

    /** readStr. */
    method TakeStr() returns (ok: bool, s: string)
      requires Valid()
      modifies `p
      ensures Valid() && p >= old(p) && Quoted(ok, s, Left()) == ReadStr(old(Left()))
    {
      hide ToQuote;
      ok, s := false, "";
      ghost var all := Left();
      var c := Curr();
      if c != '"' {
        return;
      }
      Go(1);
      var ps := p;
      ghost var body := Left();
      assert body == all[1..];
      c := Curr();
      while c != '"' && c != NUL
        invariant Valid() && ps <= p && c == Head(Left()) && (c == NUL <==> Left() == "")
        invariant Left() == body[p - ps..] && ToQuote(body) == p - ps + ToQuote(Left())
        decreases |text| - p
      {
        QuoteStep(Left());
        Go(1);
        c := Curr();
      }
      QuoteStep(Left());
      if ps != p && c == '"' {
        s := text[ps..p];
        assert s == body[..p - ps];
        Go(1);
        ok := true;
      }
    }

    /** The loop over digits and points: false when there is a second point. */
    method TakeNumber() returns (ok: bool, isFloat: bool, digits: nat)
      requires Valid()
      modifies `p
      ensures Valid() && p >= old(p) && Scan(!ok, isFloat, digits, Left()) == ScanNumber(old(Left()), false, 0)
    {
      ok, isFloat, digits := true, false, 0;
      var c := Curr();
      while c == '.' || IsDigit(c)
        invariant Valid() && p >= old(p) && ok && c == Head(Left()) && (c == NUL <==> Left() == "")
        invariant ScanNumber(Left(), isFloat, digits) == ScanNumber(old(Left()), false, 0)
        decreases |text| - p
      {
        assert Left()[1..] == text[p + 1..];
        if c == '.' {
          if isFloat {
            ok := false;
            return;
          }
          isFloat := true;
        } else {
          digits := digits + 1;
        }
        Go(1);
        c := Curr();
      }
    }

    /** readBase. */
    method TakeBase() returns (out: Out)
      requires Valid()
      modifies `p
      ensures Valid() && p >= old(p) && Read(out, Left()) == ReadBase(old(Left()))
    {
      hide ScanNumber, ReadStr, Stoi;
      ghost var s := Left();
      var word := StartsWith("null");
      if word {
        Go(4);
        return Value(JNull);
      }
      word := StartsWith("false");
      if word {
        Go(5);
        return Value(JBool(false));
      }
      word := StartsWith("true");
      if word {
        Go(4);
        return Value(JBool(true));
      }
      var pnum := p;
      var c := Curr();
      if c == '-' {
        Go(1);
      }
      var ok, isFloat, digits := TakeNumber();
      if !ok {
        return Fail;
      }
      if digits > 0 {
        var num := text[pnum..p];
        assert num == s[..|s| - |Left()|];
        if isFloat {
          out := Value(JFloat(num));
        } else if Int32(Stoi(num)) {
          out := Value(JInt(Stoi(num)));
        } else {
          out := Threw;
        }
        return;
      }
      var str;
      ok, str := TakeStr();
      out := if ok then Value(JStr(str)) else Fail;
    }

    /** readArray, after the bracket. */
    method TakeArray() returns (out: Out)
      requires Valid()
      modifies `p
      ensures Valid() && p >= old(p) && Read(out, Left()) == ReadArray(old(Left()))
      decreases |text| - p, 1
    {
      hide ReadValue, Skip;
      var objs: seq<J> := [];
      var c := Curr();
      while c != ']' && c != NUL
        invariant Valid() && p >= old(p) && c == Head(Left()) && (c == NUL <==> Left() == "")
        invariant ReadArray(old(Left())) == if c == ']' then Read(Value(JArr(objs)), Left()[1..])
                                            else if Left() == "" then Read(Fail, "") else ReadItems(Left(), objs)
        decreases |text| - p
      {
        ghost var start := p;
        var more := true;
        while more
          invariant Valid() && p >= start && (!more ==> p > start) && (!more ==> c == Head(Left()) && (c == NUL <==> Left() == ""))
          invariant ReadArray(old(Left())) ==
                    if more then ReadItems(Left(), objs)
                    else if c == ']' then Read(Value(JArr(objs)), Left()[1..])
                    else if Left() == "" then Read(Fail, "") else ReadItems(Left(), objs)
          decreases |text| - p, more
        {
          out := Take();
          if !out.Value? {
            return;
          }
          objs := objs + [out.v];
          c := SkipBlanks();
          if c == ',' {
            Go(1);
          } else {
            more := false;
          }
        }
      }
      if c != ']' {
        return Fail;
      }
      Go(1);
      out := Value(JArr(objs));
    }

    /** readObj, after the brace. */
    method TakeObj() returns (out: Out)
      requires Valid()
      modifies `p
      ensures Valid() && p >= old(p) && Read(out, Left()) == ReadObj(old(Left()))
      decreases |text| - p, 1
    {
      hide ReadValue, ReadStr, Skip, Put;
      var objs: seq<Member> := [];
      var c := Curr();
      while c != '}' && c != NUL
        invariant Valid() && p >= old(p) && c == Head(Left()) && (c == NUL <==> Left() == "")
        invariant ReadObj(old(Left())) == if c == '}' then Read(Value(JObj(objs)), Left()[1..])
                                          else if Left() == "" then Read(Fail, "") else ReadMembers(Left(), objs)
        decreases |text| - p
      {
        ghost var start := p;
        var more := true;
        while more
          invariant Valid() && p >= start && (!more ==> p > start)
          invariant !more ==> c == Head(Left()) && (c == NUL <==> Left() == "")
          invariant ReadObj(old(Left())) ==
                    if more then ReadMembers(Left(), objs)
                    else if c == '}' then Read(Value(JObj(objs)), Left()[1..])
                    else if Left() == "" then Read(Fail, "") else ReadMembers(Left(), objs)
          decreases |text| - p, more
        {
          c := SkipBlanks();
          if c != '"' {
            NoQuote(Left());
            return Fail;
          }
          var ok, key := TakeStr();
          if !ok {
            return Fail;
          }
          c := Curr();
          if c != ':' {
            return Fail;
          }
          Go(1);
          out := Take();
          if !out.Value? {
            return;
          }
          objs := Put(objs, key, out.v);
          c := SkipBlanks();
          if c == ',' {
            Go(1);
          } else {
            more := false;
          }
        }
      }
      if c != '}' {
        return Fail;
      }
      Go(1);
      out := Value(JObj(objs));
    }

    /** reader. */
    method Take() returns (out: Out)
      requires Valid()
      modifies `p
      ensures Valid() && p >= old(p) && Read(out, Left()) == ReadValue(old(Left()))
      decreases |text| - p, 0
    {
      hide ReadArray, ReadObj, ReadBase;
      var c := SkipBlanks();
      if c == '[' {
        Go(1);
        out := TakeArray();
      } else if c == '{' {
        Go(1);
        out := TakeObj();
      } else {
        out := TakeBase();
      }
    }

    /** parser: a value and nothing but blanks after it. */
    method Parser() returns (out: Out)
      requires Valid()
      modifies `p
      ensures Valid() && out == Parse(old(Left()))
    {
      hide ReadValue, Skip;
      out := Take();
      if out.Threw? {
        return;
      }
      var c := SkipBlanks();
      if out.Value? && c != NUL {
        out := Fail;
      }
    }
  }

  lemma NoQuote(s: string)
    requires Head(s) != '"'
    ensures ReadStr(s) == Quoted(false, "", s)
  {
  }

  lemma QuoteStep(s: string)
    ensures s != [] && s[0] != '"' ==> ToQuote(s) == 1 + ToQuote(s[1..])
    ensures s == [] || s[0] == '"' ==> ToQuote(s) == 0
  {
  }
}
