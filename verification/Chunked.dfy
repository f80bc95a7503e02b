/**
 The chunked message body: the states of http_parser_execute from the first chunk
 size to the end of the message, and the wire form of section 4.1 of RFC 7230.
 Callbacks succeed; a trailer field, or the next message, is where the model stops.
 */
module Chunked {
  import opened Serial

  const CR: byte := 13
  const LF: byte := 10
  const MAX_HEADER_SIZE: int := 80 * 1024
  const ULLONG_MAX: int := 0xffff_ffff_ffff_ffff

  datatype St = SizeStart | Size | Parameters | SizeAlmostDone | Data | DataAlmostDone | DataDone
              | TrailerStart | HeadersAlmostDone | TrailerField | Complete

  datatype Errno = OK | InvalidChunkSize | InvalidContentLength | Strict | HeaderOverflow | InvalidEofState

  /** The parser's fields, the body delivered so far, and how often each notification has been made. */
  datatype Parser = Parser(st: St, length: int, nread: int, errno: Errno, body: seq<byte>,
                           headers: nat, chunks: nat, messages: nat)

  const START := Parser(SizeStart, ULLONG_MAX, 0, OK, [], 0, 0, 0)

  /** The table lists 128 entries of 256, so a byte above 127 has the value 0. */
  function Unhex(ch: byte): (v: int)
    ensures -1 <= v < 16
  {
    if 48 <= ch <= 57 then ch - 48
    else if 65 <= ch <= 70 then ch - 55
    else if 97 <= ch <= 102 then ch - 87
    else if ch >= 128 then 0
    else -1
  }

  predicate Stopped(p: Parser) {
    p.errno != OK || p.st == Complete || p.st == TrailerField
  }

  /** PARSING_HEADER. */
  predicate Counted(st: St) {
    st in {SizeStart, Size, Parameters, SizeAlmostDone, TrailerStart, HeadersAlmostDone}
  }

  function Digit(p: Parser, v: int): Parser
    requires 0 <= v < 16
  {
    if (ULLONG_MAX - 16) / 16 < p.length then p.(errno := InvalidContentLength)
    else p.(length := (p.length * 16 + v) % (ULLONG_MAX + 1))
  }

  /** One byte. */
  function Step(p: Parser, ch: byte): Parser {
    if Stopped(p) then p
    else
      var p := if Counted(p.st) then p.(nread := p.nread + 1) else p;
      if Counted(p.st) && p.nread > MAX_HEADER_SIZE then p.(errno := HeaderOverflow) else Transition(p, ch)
  }

  function Transition(p: Parser, ch: byte): Parser {
    match p.st
    case SizeStart =>
      if Unhex(ch) == -1 then p.(errno := InvalidChunkSize) else p.(st := Size, length := Unhex(ch))
    case Size =>
      if ch == CR then p.(st := SizeAlmostDone)
      else if Unhex(ch) != -1 then Digit(p, Unhex(ch))
      else if ch == 59 || ch == 32 then p.(st := Parameters)
      else p.(errno := InvalidChunkSize)
    case Parameters => if ch == CR then p.(st := SizeAlmostDone) else p
    case SizeAlmostDone =>
      if ch != LF then p.(errno := Strict)
      else p.(nread := 0, st := if p.length == 0 then TrailerStart else Data, headers := p.headers + 1)
    case Data =>
      p.(body := p.body + [ch], length := p.length - 1, st := if p.length == 1 then DataAlmostDone else Data)
    case DataAlmostDone => if ch != CR then p.(errno := Strict) else p.(st := DataDone)
    case DataDone =>
      if ch != LF then p.(errno := Strict) else p.(nread := 0, st := SizeStart, chunks := p.chunks + 1)
    case TrailerStart =>
      if ch == CR then p.(st := HeadersAlmostDone)
      else if ch == LF then Finished(p)
      else p.(st := TrailerField)
    case HeadersAlmostDone => if ch != LF then p.(errno := Strict) else Finished(p)
    case _ => p
  }

  function Finished(p: Parser): Parser {
    p.(st := Complete, chunks := p.chunks + 1, messages := p.messages + 1)
  }

  function Feed(p: Parser, s: seq<byte>): Parser {
    if s == [] then p else Step(Feed(p, s[..|s| - 1]), s[|s| - 1])
  }

  lemma FeedMore(p: Parser, s: seq<byte>, ch: byte)
    ensures Feed(p, s + [ch]) == Step(Feed(p, s), ch)
  {
    assert (s + [ch])[..|s|] == s;
  }

  /** Cutting the input anywhere makes no difference. */
  lemma {:induction false} FeedAppend(p: Parser, s: seq<byte>, t: seq<byte>)
    ensures Feed(p, s + t) == Feed(Feed(p, s), t)
  {
    if t == [] {
      assert s + t == s;
    } else {
      var init := t[..|t| - 1];
      FeedAppend(p, s, init);
      assert s + t == s + init + [t[|t| - 1]];
      FeedMore(p, s + init, t[|t| - 1]);
    }
  }

  // ---------- one call ----------

  /**
   http_parser_execute on one buffer. A parser in error takes nothing. An empty buffer
   says that the input has ended: nothing when the message is complete, and an error
   before. Bytes behind the message are not looked at here.
   */
  function Call(p: Parser, b: seq<byte>): Parser {
    if p.errno != OK then p
    else if b != [] then Feed(p, b)
    else if p.st == Complete then p
    else p.(errno := InvalidEofState)
  }

  predicate Ended(p: Parser) {
    p.errno != OK || p.st == Complete
  }

  /** Two calls in the place of one make no difference exactly when neither is made with nothing before the end. */
  lemma CutAnywhere(p: Parser, s: seq<byte>, t: seq<byte>)
    ensures Call(p, s + t) == Call(Call(p, s), t) <==>
              Ended(p) || (s == [] && t == []) || (s != [] && (t != [] || Ended(Feed(p, s))))
  {
    hide Step;
    FeedAppend(p, s, t);
    assert [] + t == t && s + [] == s;
    FeedErrno(p, t);
    FeedErrno(Feed(p, s), t);
    if Stopped(p) {
      StaysStopped(p, s);
      StaysStopped(p, t);
      StaysStopped(p, s + t);
    }
    if Stopped(Feed(p, s)) {
      StaysStopped(Feed(p, s), t);
    }
  }

  /** No byte gives the error of an empty buffer. */
  lemma {:induction false} FeedErrno(p: Parser, s: seq<byte>)
    ensures Feed(p, s).errno == InvalidEofState <==> p.errno == InvalidEofState
  {
    if s != [] {
      FeedErrno(p, s[..|s| - 1]);
      StepErrno(Feed(p, s[..|s| - 1]), s[|s| - 1]);
    }
  }

  lemma StepErrno(p: Parser, ch: byte)
    ensures Step(p, ch).errno == InvalidEofState <==> p.errno == InvalidEofState
  {
  }

  // ---------- what every byte keeps ----------

  /** The source's assertions, and the bounds of its counters. */
  ghost predicate Ok(p: Parser) {
    && 0 <= p.length <= ULLONG_MAX && 0 <= p.nread <= MAX_HEADER_SIZE + 1
    && (p.st == SizeStart && p.errno == OK ==> p.nread == 0)
    && (p.st == Data ==> 0 < p.length < ULLONG_MAX)
    && (p.st != SizeStart ==> p.length <= ULLONG_MAX - 16)
    && (p.st == DataAlmostDone ==> p.length == 0)
    && (p.errno == OK ==> p.nread <= MAX_HEADER_SIZE)
    && p.messages == (if p.st == Complete then 1 else 0)
  }

  /** No input whatever makes an assertion of the source fail, wraps the length or brings it to the sentinel. */
  lemma StepKeeps(p: Parser, ch: byte)
    requires Ok(p)
    ensures Ok(Step(p, ch))
    ensures p.errno == OK && p.st == SizeStart ==> p.nread + 1 == 1
    ensures p.errno == OK && p.st == Size && Step(p, ch).errno == OK && ch != CR && Unhex(ch) != -1 ==>
              Step(p, ch).length == p.length * 16 + Unhex(ch)
  {
    if p.st in {SizeStart, Size} {
      SizeKeeps(p, ch);
    } else {
      LaterKeeps(p, ch);
    }
    hide Step;
  }

  lemma SizeKeeps(p: Parser, ch: byte)
    requires Ok(p) && p.st in {SizeStart, Size}
    ensures Ok(Step(p, ch))
    ensures p.errno == OK && p.st == Size && Step(p, ch).errno == OK && ch != CR && Unhex(ch) != -1 ==>
              Step(p, ch).length == p.length * 16 + Unhex(ch)
  {
  }

  lemma LaterKeeps(p: Parser, ch: byte)
    requires Ok(p) && p.st !in {SizeStart, Size}
    ensures Ok(Step(p, ch))
  {
  }

  lemma {:induction false} FeedKeeps(p: Parser, s: seq<byte>)
    requires Ok(p)
    ensures Ok(Feed(p, s))
  {
    hide Ok, Step;
    if s != [] {
      FeedKeeps(p, s[..|s| - 1]);
      StepKeeps(Feed(p, s[..|s| - 1]), s[|s| - 1]);
    }
  }

  /** A stopped parser takes nothing more. */
  lemma {:induction false} StaysStopped(p: Parser, s: seq<byte>)
    requires Stopped(p)
    ensures Feed(p, s) == p
  {
    if s != [] {
      StaysStopped(p, s[..|s| - 1]);
    }
  }

  /** Bytes of a chunk's data, taken together. */
  lemma {:induction false} FeedData(p: Parser, s: seq<byte>)
    requires p.errno == OK && p.st == Data && 0 < |s| <= p.length
    ensures Feed(p, s) == p.(body := p.body + s, length := p.length - |s|,
                             st := if |s| == p.length then DataAlmostDone else Data)
  {
    var init, ch := s[..|s| - 1], s[|s| - 1];
    assert s == init + [ch];
    if init == [] {
      assert Feed(p, []) == p;
    } else {
      FeedData(p, init);
      assert p.body + s == p.body + init + [ch];
    }
  }

  // ---------- the wire form ----------

  /** A chunk as RFC 7230 section 4.1 writes it: hexadecimal size, optional extensions, data. */
  datatype Chunk = Chunk(digits: seq<byte>, ext: seq<byte>, data: seq<byte>)

  predicate Hex(ch: byte) {
    ch < 128 && Unhex(ch) != -1
  }

  function Value(digits: seq<byte>): (v: int) {
    if digits == [] then 0 else Value(digits[..|digits| - 1]) * 16 + Unhex(digits[|digits| - 1])
  }

  ghost predicate LineOk(c: Chunk) {
    && c.digits != [] && (forall i :: 0 <= i < |c.digits| ==> Hex(c.digits[i]))
    && (c.ext != [] ==> c.ext[0] in {59, 32}) && CR !in c.ext
    && |c.digits| + |c.ext| + 2 <= MAX_HEADER_SIZE
    && Value(c.digits) == |c.data| <= ULLONG_MAX - 16
  }

  ghost predicate ChunkOk(c: Chunk) {
    LineOk(c) && c.data != []
  }

  function Line(c: Chunk): seq<byte> {
    c.digits + c.ext + [CR, LF]
  }

  function Encode(c: Chunk): seq<byte> {
    Line(c) + (c.data + [CR, LF])
  }

  /** The chunks, the last one (of size zero), and an empty trailer. */
  function EncodeBody(chunks: seq<Chunk>, last: Chunk): seq<byte> {
    if chunks == [] then Line(last) + [CR, LF] else Encode(chunks[0]) + EncodeBody(chunks[1..], last)
  }

  /** All of it but the last byte. */
  function Front(chunks: seq<Chunk>, last: Chunk): seq<byte> {
    if chunks == [] then Line(last) + [CR] else Encode(chunks[0]) + Front(chunks[1..], last)
  }

  lemma {:induction false} FrontThenLast(chunks: seq<Chunk>, last: Chunk)
    ensures EncodeBody(chunks, last) == Front(chunks, last) + [LF]
  {
    hide Line, Encode;
    if chunks == [] {
      assert Line(last) + [CR, LF] == Line(last) + [CR] + [LF];
    } else {
      FrontThenLast(chunks[1..], last);
    }
  }

  function Payload(chunks: seq<Chunk>): seq<byte> {
    if chunks == [] then [] else chunks[0].data + Payload(chunks[1..])
  }

  lemma {:induction false} ValueNatural(digits: seq<byte>)
    requires forall i :: 0 <= i < |digits| ==> Hex(digits[i])
    ensures Value(digits) >= 0
  {
    if digits != [] {
      ValueNatural(digits[..|digits| - 1]);
    }
  }

  /** A size is accepted exactly when it is at most 2^64 - 17, however many zeros it starts with; then it is read exactly. */
  lemma {:induction false} SizeExact(p: Parser, digits: seq<byte>)
    requires p.errno == OK && p.st == SizeStart && p.nread == 0
    requires digits != [] && |digits| <= MAX_HEADER_SIZE && forall i :: 0 <= i < |digits| ==> Hex(digits[i])
    ensures Feed(p, digits).errno == OK <==> Value(digits) <= ULLONG_MAX - 16
    ensures Value(digits) <= ULLONG_MAX - 16 ==>
              Feed(p, digits) == p.(st := Size, length := Value(digits), nread := |digits|)
    ensures Feed(p, digits).errno in {OK, InvalidContentLength}
    decreases |digits|
  {
    hide Step;
    var init, ch := digits[..|digits| - 1], digits[|digits| - 1];
    ValueNatural(init);
    if init == [] {
      assert digits == [ch] && Feed(p, []) == p && Value([]) == 0;
      FirstDigit(p, ch);
    } else {
      SizeExact(p, init);
      NextDigit(Feed(p, init), ch);
    }
  }

  lemma FirstDigit(p: Parser, ch: byte)
    requires p.errno == OK && p.st == SizeStart && p.nread == 0 && Hex(ch)
    ensures Step(p, ch) == p.(st := Size, length := Unhex(ch), nread := 1)
  {
  }

  lemma NextDigit(p: Parser, ch: byte)
    requires Hex(ch)
    ensures p.errno != OK ==> Step(p, ch) == p
    ensures p.errno == OK && p.st == Size && 0 <= p.nread < MAX_HEADER_SIZE && 0 <= p.length <= ULLONG_MAX ==>
              var v := p.length * 16 + Unhex(ch);
              && (Step(p, ch).errno == if v <= ULLONG_MAX - 16 then OK else InvalidContentLength)
              && (v <= ULLONG_MAX - 16 ==> Step(p, ch) == p.(length := v, nread := p.nread + 1))
  {
  }

  lemma {:induction false} FeedExt(p: Parser, ext: seq<byte>)
    requires p.errno == OK && p.st == Size && 0 <= p.nread && p.nread + |ext| <= MAX_HEADER_SIZE
    requires ext != [] && ext[0] in {59, 32} && CR !in ext
    ensures Feed(p, ext) == p.(st := Parameters, nread := p.nread + |ext|)
    decreases |ext|
  {
    var init := ext[..|ext| - 1];
    if init == [] {
      assert ext == [ext[0]] && Feed(p, []) == p;
    } else {
      FeedExt(p, init);
    }
  }

  lemma FeedEnd(p: Parser, a: byte, b: byte)
    ensures Feed(p, [a, b]) == Step(Step(p, a), b)
  {
    FeedMore(p, [a], b);
    FeedMore(p, [], a);
    assert [a] + [b] == [a, b] && [] + [a] == [a];
  }

  /** The size line of a chunk. */
  lemma FeedLine(p: Parser, c: Chunk)
    requires p.errno == OK && p.st == SizeStart && p.nread == 0 && LineOk(c)
    ensures Feed(p, Line(c)) == p.(st := if c.data == [] then TrailerStart else Data, length := |c.data|,
                                   headers := p.headers + 1)
  {
    hide Feed, Step;
    SizeExact(p, c.digits);
    var q := Feed(p, c.digits);
    FeedAppend(p, c.digits, c.ext);
    if c.ext != [] {
      FeedExt(q, c.ext);
    } else {
      assert c.digits + c.ext == c.digits;
    }
    FeedAppend(p, c.digits + c.ext, [CR, LF]);
    FeedEnd(Feed(p, c.digits + c.ext), CR, LF);
    LineEnd(Feed(p, c.digits + c.ext));
  }

  lemma LineEnd(p: Parser)
    requires p.errno == OK && p.st in {Size, Parameters} && 0 <= p.nread && p.nread + 2 <= MAX_HEADER_SIZE
    ensures Step(Step(p, CR), LF) == p.(nread := 0, st := if p.length == 0 then TrailerStart else Data,
                                        headers := p.headers + 1)
  {
  }

  lemma FeedChunk(p: Parser, c: Chunk)
    requires p.errno == OK && p.st == SizeStart && p.nread == 0 && ChunkOk(c)
    ensures Feed(p, Encode(c)) == p.(body := p.body + c.data, length := 0, headers := p.headers + 1, chunks := p.chunks + 1)
  {
    hide Feed, Line;
    FeedLine(p, c);
    var q := Feed(p, Line(c));
    FeedAppend(p, Line(c), c.data + [CR, LF]);
    FeedAppend(q, c.data, [CR, LF]);
    FeedData(q, c.data);
    FeedEnd(Feed(q, c.data), CR, LF);
  }

  /** Before the last byte everything has been delivered, and the message is not complete yet. */
  lemma {:induction false} FrontReads(p: Parser, chunks: seq<Chunk>, last: Chunk)
    requires p.errno == OK && p.st == SizeStart && p.nread == 0
    requires (forall i :: 0 <= i < |chunks| ==> ChunkOk(chunks[i])) && LineOk(last) && last.data == []
    ensures Feed(p, Front(chunks, last)) ==
            p.(st := HeadersAlmostDone, length := 0, nread := 1, body := p.body + Payload(chunks),
               headers := p.headers + |chunks| + 1, chunks := p.chunks + |chunks|)
    decreases |chunks|
  {
    hide Feed, Line, Encode;
    if chunks == [] {
      FeedLine(p, last);
      FeedAppend(p, Line(last), [CR]);
      FeedMore(Feed(p, Line(last)), [], CR);
      FeedNone(Feed(p, Line(last)));
      assert [] + [CR] == [CR] && p.body + [] == p.body;
    } else {
      FeedChunk(p, chunks[0]);
      var q := Feed(p, Encode(chunks[0]));
      FeedAppend(p, Encode(chunks[0]), Front(chunks[1..], last));
      FrontReads(q, chunks[1..], last);
      assert p.body + chunks[0].data + Payload(chunks[1..]) == p.body + (chunks[0].data + Payload(chunks[1..]));
    }
  }

  /**
   A body in chunks, with extensions or not, is read back: the data delivered is
   the payload, each chunk is announced and completed once, and the message is
   completed once, at the last byte.
   */
  lemma BodyReadsBack(p: Parser, chunks: seq<Chunk>, last: Chunk)
    requires p.errno == OK && p.st == SizeStart && p.nread == 0
    requires (forall i :: 0 <= i < |chunks| ==> ChunkOk(chunks[i])) && LineOk(last) && last.data == []
    ensures Feed(p, EncodeBody(chunks, last)) ==
            p.(st := Complete, length := 0, nread := 2, body := p.body + Payload(chunks),
               headers := p.headers + |chunks| + 1, chunks := p.chunks + |chunks| + 1, messages := p.messages + 1)
  {
    hide Feed;
    FrontReads(p, chunks, last);
    FrontThenLast(chunks, last);
    FeedMore(p, Front(chunks, last), LF);
  }

  /** A part of a body that lacks its end leaves the message incomplete. */
  lemma PartIncomplete(chunks: seq<Chunk>, last: Chunk, s: seq<byte>, t: seq<byte>)
    requires s + t == EncodeBody(chunks, last) && t != []
    requires (forall i :: 0 <= i < |chunks| ==> ChunkOk(chunks[i])) && LineOk(last) && last.data == []
    ensures Feed(START, s).st != Complete
  {
    hide Feed, EncodeBody, Front, LineOk, ChunkOk, Payload;
    FrontReads(START, chunks, last);
    FrontThenLast(chunks, last);
    var t' := t[..|t| - 1];
    LastCut(s, t, Front(chunks, last), LF);
    FeedAppend(START, s, t');
    if Feed(START, s).st == Complete {
      StaysStopped(Feed(START, s), t');
    }
  }

  lemma LastCut(s: seq<byte>, t: seq<byte>, u: seq<byte>, ch: byte)
    requires s + t == u + [ch] && t != []
    ensures s + t[..|t| - 1] == u
  {
    assert (s + t)[..|u|] == s + t[..|t| - 1];
  }

  // ---------- the parser ----------

  ghost function Joined(calls: seq<seq<byte>>): seq<byte> {
    if calls == [] then [] else Joined(calls[..|calls| - 1]) + calls[|calls| - 1]
  }

  class HttpParser {
    var state: St
    var contentLength: int
    var nread: int
    var errno: Errno
    /** The calls of on_body, and the counts of the notifications. */
    var bodies: seq<seq<byte>>
    var headers: nat
    var chunks: nat
    var messages: nat

    ghost function Model(): Parser
      reads this
    {
      Parser(state, contentLength, nread, errno, Joined(bodies), headers, chunks, messages)
    }

    constructor ()
      ensures Ok(Model()) && Model() == START
    {
      state, contentLength, nread, errno := SizeStart, ULLONG_MAX, 0, OK;
      bodies, headers, chunks, messages := [], 0, 0, 0;
    }

    /** Deliver the body bytes between the mark and p, if the mark is set. */
    method CallbackBody(data: array<byte>, mark: int, p: nat)
      requires mark <= p <= data.Length
      modifies `bodies
      ensures Joined(bodies) == Joined(old(bodies)) + if mark >= 0 then data[mark..p] else []
    {
      if mark >= 0 {
        bodies := bodies + [data[mark..p]];
      } else {
        assert Joined(bodies) + [] == Joined(bodies);
      }
    }

    /** One byte in a state other than a chunk's data. */
    method ExecuteByte(ch: byte)
      requires !Stopped(Model()) && state != Data
      modifies `state, `contentLength, `nread, `errno, `headers, `chunks, `messages
      ensures Model() == Step(old(Model()), ch)
    {
      hide Joined;
      if Counted(state) {
        nread := nread + 1;
        if nread > MAX_HEADER_SIZE {
          errno := HeaderOverflow;
          return;
        }
      }
      match state {
        case SizeStart =>
          if Unhex(ch) == -1 {
            errno := InvalidChunkSize;
            return;
          }
          contentLength := Unhex(ch);
          state := Size;
        case Size =>
          if ch == CR {
            state := SizeAlmostDone;
            return;
          }
          if Unhex(ch) == -1 {
            if ch == 59 || ch == 32 {
              state := Parameters;
              return;
            }
            errno := InvalidChunkSize;
            return;
          }
          var t := (contentLength * 16 + Unhex(ch)) % (ULLONG_MAX + 1);
          if (ULLONG_MAX - 16) / 16 < contentLength {
            errno := InvalidContentLength;
            return;
          }
          contentLength := t;
        case Parameters =>
          if ch == CR {
            state := SizeAlmostDone;
          }
        case SizeAlmostDone =>
          if ch != LF {
            errno := Strict;
            return;
          }
          nread := 0;
          if contentLength == 0 {
            state := TrailerStart;
          } else {
            state := Data;
          }
          headers := headers + 1;
        case DataAlmostDone =>
          if ch != CR {
            errno := Strict;
            return;
          }
          state := DataDone;
        case DataDone =>
          if ch != LF {
            errno := Strict;
            return;
          }
          nread := 0;
          state := SizeStart;
          chunks := chunks + 1;
        case TrailerStart =>
          if ch == CR {
            state := HeadersAlmostDone;
          } else if ch == LF {
            Finish();
          } else {
            state := TrailerField;
          }
        case HeadersAlmostDone =>
          if ch != LF {
            errno := Strict;
            return;
          }
          Finish();
      }
    }

    /** s_headers_almost_done after a last chunk, and s_message_done. */
    method Finish()
      modifies `state, `chunks, `messages
      ensures Model() == Finished(old(Model()))
    {
      chunks := chunks + 1;
      messages := messages + 1;
      state := Complete;
    }

    /**
     http_parser_execute on one buffer. Without an error every body byte of the
     buffer has been delivered by the time it returns; with one, some at the end may
     not have been, and the position returned is that of the byte refused. What
     comes behind the message, or a field of the trailer, is for other states.
     */
    method Execute(data: array<byte>, len: nat) returns (parsed: nat)
      requires Ok(Model()) && len <= data.Length
      requires len > 0 && errno == OK ==> state != Complete && state != TrailerField
      modifies this
      ensures Ok(Model()) && Executed(old(Model()), data[..len], Model())
      ensures old(errno) != OK ==> parsed == 0
      ensures old(errno) == OK && len == 0 ==> parsed == if old(state) == Complete then 0 else 1
      ensures old(errno) == OK && len > 0 ==>
                && parsed <= len && (!Stopped(Model()) ==> parsed == len)
                && (errno != OK ==>
                      && parsed < len && Feed(old(Model()), data[..parsed]).errno == OK
                      && Feed(old(Model()), data[..parsed + 1]).errno == errno)
    {
      if errno != OK {
        return 0;
      }
      if len == 0 {
        if state == Complete {
          return 0;
        }
        errno := InvalidEofState;
        return 1;
      }
      parsed := ExecuteBytes(data, len);
    }

    /** The loop of http_parser_execute. */
    method ExecuteBytes(data: array<byte>, len: nat) returns (parsed: nat)
      requires Ok(Model()) && 0 < len <= data.Length && !Stopped(Model())
      modifies this
      ensures Ok(Model())
      ensures var q := Feed(old(Model()), data[..len]);
              && Model() == q.(body := Joined(bodies))
              && (q.errno == OK ==> Joined(bodies) == q.body)
              && old(Joined(bodies)) <= Joined(bodies) <= q.body
      ensures parsed <= len && (!Stopped(Model()) ==> parsed == len)
      ensures errno != OK ==>
                && parsed < len && Feed(old(Model()), data[..parsed]).errno == OK
                && Feed(old(Model()), data[..parsed + 1]).errno == errno
    {
      hide Joined, Feed, Ok, Step;
      ghost var m, q := Model(), Model();
      var p, mark: int := 0, -1;
      FeedNone(m);
      assert data[..0] == [];
      while p < len && errno == OK && state != Complete && state != TrailerField
        invariant 0 <= p <= len && Marked(data, p, mark, q)
        invariant q == Feed(m, data[..p]) && Ok(q)
        invariant m.body <= Joined(bodies)
        invariant errno != OK ==> 0 < p && Feed(m, data[..p - 1]).errno == OK
        decreases len - p
      {
        ghost var from := p;
        if state == Data {
          p, mark := TakeData(data, p, len, mark, q);
        } else {
          p, mark := TakeByte(data, p, mark, q);
        }
        FeedAppend(m, data[..from], data[from..p]);
        assert data[..from] + data[from..p] == data[..p];
        FeedKeeps(q, data[from..p]);
        q := Feed(q, data[from..p]);
      }
      FeedAppend(m, data[..p], data[p..len]);
      assert data[..p] + data[p..len] == data[..len];
      if p < len {
        StaysStopped(q, data[p..len]);
      } else {
        assert data[p..len] == [];
        FeedNone(q);
      }
      if errno == OK {
        CallbackBody(data, mark, p);
        parsed := p;
      } else {
        parsed := p - 1;
      }
      SameButBody(q, Model());
    }

    /** The parser after the bytes before p, whose effect is q: body bytes from the mark on are not delivered yet. */
    ghost predicate Marked(data: array<byte>, p: nat, mark: int, q: Parser)
      reads this, data
    {
      && -1 <= mark <= p <= data.Length && (mark >= 0 ==> state in {Data, DataAlmostDone})
      && Model() == q.(body := Joined(bodies)) && Joined(bodies) <= q.body
      && (errno == OK ==> q.body == Joined(bodies) + if mark >= 0 then data[mark..p] else [])
    }

    /** Chunk data: as much of it as the buffer has. */
    method TakeData(data: array<byte>, p: nat, len: nat, mark: int, ghost q: Parser) returns (p': nat, mark': int)
      requires Marked(data, p, mark, q) && Ok(q) && p < len <= data.Length && errno == OK && state == Data
      modifies `state, `contentLength
      ensures p < p' <= len && Marked(data, p', mark', Feed(q, data[p..p'])) && errno == OK
    {
      hide Joined, Feed, Ok, Step;
      var toRead := if contentLength < len - p then contentLength else len - p;
      DataBounds(q);
      ghost var part := data[p..p + toRead];
      FeedData(q, part);
      mark' := if mark < 0 then p else mark;
      contentLength := contentLength - toRead;
      if contentLength == 0 {
        state := DataAlmostDone;
      }
      p' := p + toRead;
      MarkMore(data, Joined(bodies), mark, p, p');
    }

    lemma MarkMore(data: array<byte>, told: seq<byte>, mark: int, p: nat, p': nat)
      requires -1 <= mark <= p <= p' <= data.Length
      ensures told + (if mark >= 0 then data[mark..p] else []) + data[p..p'] ==
              told + data[if mark < 0 then p else mark..p']
    {
      if mark >= 0 {
        ghost var s := data[..];
        assert s[mark..p'] == s[mark..p] + s[p..p'];
        assert told + (s[mark..p] + s[p..p']) == told + s[mark..p] + s[p..p'];
      } else {
        assert told + [] == told;
      }
    }

    /** Any other byte; the one after a chunk's data first has the data delivered. */
    method TakeByte(data: array<byte>, p: nat, mark: int, ghost q: Parser) returns (p': nat, mark': int)
      requires Marked(data, p, mark, q) && Ok(q) && p < data.Length && !Stopped(Model()) && state != Data
      modifies `state, `contentLength, `nread, `errno, `bodies, `headers, `chunks, `messages
      ensures p' == p + 1 && Marked(data, p', mark', Feed(q, data[p..p']))
      ensures old(Joined(bodies)) <= Joined(bodies)
    {
      hide Joined, Feed, Ok, Step;
      var ch := data[p];
      FeedNone(q);
      FeedMore(q, [], ch);
      assert [] + [ch] == data[p..p + 1];
      mark' := mark;
      if state == DataAlmostDone && ch == CR {
        CallbackBody(data, mark, p);
        mark' := -1;
      }
      OtherByte(q, Joined(bodies), ch);
      ExecuteByte(ch);
      p' := p + 1;
    }
  }

  lemma FeedNone(p: Parser)
    ensures Feed(p, []) == p
  {
  }

  lemma DataBounds(q: Parser)
    requires Ok(q) && q.st == Data
    ensures 0 < q.length
  {
  }

  /** Outside a chunk's data a byte does not look at the body, nor add to it. */
  lemma OtherByte(q: Parser, body: seq<byte>, ch: byte)
    requires q.st != Data
    ensures Step(q, ch).body == q.body
    ensures Step(q.(body := body), ch) == Step(q, ch).(body := body)
    ensures q.errno == OK && q.st == DataAlmostDone && ch == CR ==> Step(q, ch).st == DataDone
    ensures q.errno == OK && q.st == DataAlmostDone && ch != CR ==> Step(q, ch).errno != OK && Step(q, ch).st == DataAlmostDone
  {
  }

  lemma SameButBody(q: Parser, q': Parser)
    requires Ok(q) && q' == q.(body := q'.body)
    ensures Ok(q')
  {
  }

  lemma {:induction false} FeedGrows(p: Parser, s: seq<byte>)
    ensures p.body <= Feed(p, s).body && (p.errno != OK ==> Feed(p, s).errno == p.errno)
  {
    if s != [] {
      FeedGrows(p, s[..|s| - 1]);
    }
  }

  // ---------- runs of calls ----------

  /**
   What one call may make of p: what Call says, except that body bytes of a buffer
   with an error in it may not have been delivered.
   */
  ghost predicate Executed(p: Parser, b: seq<byte>, p': Parser) {
    var q := Call(p, b);
    p' == q.(body := p'.body) && p.body <= p'.body <= q.body && (q.errno == OK ==> p'.body == q.body)
  }

  /** The states of a parser between the calls made with the buffers. */
  ghost predicate Run(trace: seq<Parser>, buffers: seq<seq<byte>>) {
    && |trace| == |buffers| + 1 && trace[0] == START
    && forall i :: 0 <= i < |buffers| ==> Executed(trace[i], buffers[i], trace[i + 1])
  }

  /** No call is made with nothing while bytes are still to come. */
  ghost predicate NoneEarly(buffers: seq<seq<byte>>) {
    forall i :: 0 <= i < |buffers| && buffers[i] == [] ==> Joined(buffers[..i]) == Joined(buffers)
  }

  /** Calls none of which is refused have the effect of their bytes. */
  lemma {:induction false} RunFeeds(trace: seq<Parser>, buffers: seq<seq<byte>>, n: nat)
    requires Run(trace, buffers) && n <= |buffers|
    requires Feed(START, Joined(buffers)).errno == OK
    requires forall i :: 0 <= i < n && buffers[i] == [] ==> Feed(START, Joined(buffers[..i])).st == Complete
    ensures trace[n] == Feed(START, Joined(buffers[..n])) && trace[n].errno == OK
  {
    hide Feed, Joined;
    JoinedSplit(buffers, n);
    FeedAppend(START, Joined(buffers[..n]), Joined(buffers[n..]));
    FeedGrows(Feed(START, Joined(buffers[..n])), Joined(buffers[n..]));
    if n == 0 {
      JoinedNone();
      FeedNone(START);
      assert buffers[..0] == [];
    } else {
      RunFeeds(trace, buffers, n - 1);
      JoinedLast(buffers, n);
      FeedAppend(START, Joined(buffers[..n - 1]), buffers[n - 1]);
      FeedNone(trace[n - 1]);
      assert Executed(trace[n - 1], buffers[n - 1], trace[n]);
    }
  }

  lemma RunStep(trace: seq<Parser>, buffers: seq<seq<byte>>, i: nat)
    requires Run(trace, buffers) && i < |buffers|
    ensures |trace| == |buffers| + 1 && Executed(trace[i], buffers[i], trace[i + 1])
  {
  }

  /** Once a call has failed nothing changes any more. */
  lemma {:induction false} RunFailed(trace: seq<Parser>, buffers: seq<seq<byte>>, i: nat, n: nat)
    requires Run(trace, buffers) && i <= n <= |buffers| && trace[i].errno != OK
    ensures trace[n] == trace[i]
  {
    if i < n {
      RunFailed(trace, buffers, i, n - 1);
      assert Executed(trace[n - 1], buffers[n - 1], trace[n]);
    }
  }

  /**
   The bytes of a body split over calls in any way: the payload is delivered and the
   message completed, once, exactly when no call is made with nothing before the last
   byte has come. Such a call ends it: what has been delivered by then stays.
   */
  lemma AnySplit(trace: seq<Parser>, buffers: seq<seq<byte>>, chunks: seq<Chunk>, last: Chunk)
    requires Run(trace, buffers) && Joined(buffers) == EncodeBody(chunks, last)
    requires (forall i :: 0 <= i < |chunks| ==> ChunkOk(chunks[i])) && LineOk(last) && last.data == []
    ensures var q := trace[|buffers|];
            if NoneEarly(buffers) then
              && q.st == Complete && q.errno == OK && q.body == Payload(chunks)
              && q.messages == 1 && q.headers == q.chunks == |chunks| + 1
            else
              && q.st != Complete && q.errno == InvalidEofState && q.body <= Payload(chunks) && q.messages == 0
  {
    hide Feed, Joined, Step, EncodeBody, Payload, LineOk, ChunkOk, Run;
    BodyReadsBack(START, chunks, last);
    if NoneEarly(buffers) {
      RunFeeds(trace, buffers, |buffers|);
      assert buffers[..|buffers|] == buffers;
    } else {
      var i :| 0 <= i < |buffers| && buffers[i] == [] && Joined(buffers[..i]) != Joined(buffers);
      var k := FirstEarly(buffers, i);
      EarlyEnds(trace, buffers, k, chunks, last);
    }
  }

  /** The first call with nothing, bytes being still to come. */
  lemma EarlyEnds(trace: seq<Parser>, buffers: seq<seq<byte>>, k: nat, chunks: seq<Chunk>, last: Chunk)
    requires Run(trace, buffers) && Joined(buffers) == EncodeBody(chunks, last)
    requires (forall i :: 0 <= i < |chunks| ==> ChunkOk(chunks[i])) && LineOk(last) && last.data == []
    requires k < |buffers| && buffers[k] == [] && Joined(buffers[..k]) != Joined(buffers)
    requires forall j :: 0 <= j < k && buffers[j] == [] ==> Joined(buffers[..j]) == Joined(buffers)
    ensures |trace| == |buffers| + 1
    ensures var q := trace[|buffers|];
            q.st != Complete && q.errno == InvalidEofState && q.body <= Payload(chunks) && q.messages == 0
  {
    hide Feed, Joined, Step, EncodeBody, Payload, LineOk, ChunkOk, Run;
    BodyReadsBack(START, chunks, last);
    RunFeeds(trace, buffers, k);
    EndsLast(buffers, k, chunks, last);
    RunStep(trace, buffers, k);
    RunFailed(trace, buffers, k + 1, |buffers|);
  }

  lemma {:induction false} FirstEarly(buffers: seq<seq<byte>>, i: nat) returns (k: nat)
    requires i < |buffers| && buffers[i] == [] && Joined(buffers[..i]) != Joined(buffers)
    ensures k <= i && buffers[k] == [] && Joined(buffers[..k]) != Joined(buffers)
    ensures forall j :: 0 <= j < k && buffers[j] == [] ==> Joined(buffers[..j]) == Joined(buffers)
  {
    if j :| 0 <= j < i && buffers[j] == [] && Joined(buffers[..j]) != Joined(buffers) {
      k := FirstEarly(buffers, j);
    } else {
      k := i;
    }
  }

  /** The message is not complete before its last byte, and what has been delivered is part of the payload. */
  lemma EndsLast(buffers: seq<seq<byte>>, n: nat, chunks: seq<Chunk>, last: Chunk)
    requires n <= |buffers| && Joined(buffers[..n]) != Joined(buffers) == EncodeBody(chunks, last)
    requires (forall i :: 0 <= i < |chunks| ==> ChunkOk(chunks[i])) && LineOk(last) && last.data == []
    ensures var q := Feed(START, Joined(buffers[..n])); q.st != Complete && q.body <= Payload(chunks) && q.messages == 0
  {
    hide Feed, Joined, Step, LineOk, ChunkOk, EncodeBody, Payload;
    JoinedSplit(buffers, n);
    var s, t := Joined(buffers[..n]), Joined(buffers[n..]);
    assert s + [] == s;
    BodyReadsBack(START, chunks, last);
    FeedAppend(START, s, t);
    FeedGrows(Feed(START, s), t);
    FeedKeeps(START, s);
    PartIncomplete(chunks, last, s, t);
  }

  lemma JoinedNone()
    ensures Joined([]) == []
  {
  }

  lemma JoinedLast(buffers: seq<seq<byte>>, n: nat)
    requires 0 < n <= |buffers|
    ensures Joined(buffers[..n]) == Joined(buffers[..n - 1]) + buffers[n - 1]
  {
    assert buffers[..n][..n - 1] == buffers[..n - 1];
  }

  /** The failing input at its smallest: a call with nothing, and then the whole body. */
  lemma EmptyFirst(trace: seq<Parser>, chunks: seq<Chunk>, last: Chunk)
    requires Run(trace, [[], EncodeBody(chunks, last)])
    ensures trace[2] == START.(errno := InvalidEofState)
  {
    hide Feed, EncodeBody;
    assert Executed(trace[0], [], trace[1]) && Executed(trace[1], EncodeBody(chunks, last), trace[2]);
  }

  lemma {:induction false} JoinedSplit(buffers: seq<seq<byte>>, n: nat)
    requires n <= |buffers|
    ensures Joined(buffers) == Joined(buffers[..n]) + Joined(buffers[n..])
  {
    if n == |buffers| {
      assert buffers[..n] == buffers && buffers[n..] == [];
    } else {
      var init := buffers[..|buffers| - 1];
      JoinedSplit(init, n);
      assert init[..n] == buffers[..n] && buffers[n..][..|buffers| - n - 1] == init[n..];
    }
  }
}
