/**
 Scheduling: ikcp_check may be believed. Nothing happens in ikcp_update before the
 time it returns, and the flush timer is always a bounded time ahead.
 */
module KcpSchedule {
  import opened Serial
  import opened KcpWire
  import opened KcpModel
  import opened KcpInvariant

  /** How many milliseconds ahead of now the flush timer is. */
  ghost function FlushIn(c: Ctl, now: u32): int {
    Itimediff(c.tsFlush, now)
  }

  lemma Opposite(a: u32, b: u32)
    requires Itimediff(a, b) != -HALF
    ensures Itimediff(b, a) == -Itimediff(a, b)
  {
  }

  lemma Ahead(now: u32, x: int, other: u32)
    requires -HALF <= x - Itimediff(other, now) < HALF
    ensures Itimediff(Wrap(now + x), other) == x - Itimediff(other, now)
  {
    hide Wrap, Signed;
    var d := Itimediff(other, now);
    var turns := DiffTurns(other, now);
    WrapOfWrap(now + x, 0 - other);
    assert now + x - other == x - d + turns * WORD;
    WholeTurns(x - d, turns);
    SignedSmall(x - d);
  }

  lemma DiffTurns(a: u32, b: u32) returns (turns: int)
    ensures Itimediff(a, b) == a - b + turns * WORD
  {
    turns := if a - b >= HALF then -1 else if a - b < -HALF then 1 else 0;
    SignedSmall(a - b + turns * WORD);
    WholeTurns(a - b, turns);
  }

  /** After every update, flushing or not, the next flush is 1 to 10000 milliseconds ahead. */
  lemma FlushTimerAhead(ar: Arith, k: Kcb, now: u32)
    requires CtlOk(k.ctl) && 0 < k.Mss() < WORD && 0 <= k.snd.wnd
    ensures var k' := Update(ar, k, now).0;
            k'.ctl.current == now && k'.ctl.updated && 1 <= FlushIn(k'.ctl, now) <= 10000
  {
    hide Tick;
    TickAhead(k.ctl, now);
    FlushKeepsTimer(ar, k.(ctl := Tick(k.ctl, now).0));
  }

  /** A flush does not touch the flush timer. */
  lemma FlushKeepsTimer(ar: Arith, k: Kcb)
    requires 0 < k.Mss() < WORD && 0 <= k.snd.wnd
    ensures var c := Flush(ar, k).0.ctl;
            c.current == k.ctl.current && c.updated == k.ctl.updated && c.tsFlush == k.ctl.tsFlush
  {
    hide Admit, Transmit, AfterFlush, StampOf, SendWindow, AckPkts, ProbePkts, Wrap;
    assert ProbeTimer(k.ctl).current == k.ctl.current && ProbeTimer(k.ctl).tsFlush == k.ctl.tsFlush;
    hide ProbeTimer;
  }

  lemma TickAhead(c: Ctl, now: u32)
    requires CtlOk(c)
    ensures var c' := Tick(c, now).0;
            c'.current == now && c'.updated && 1 <= FlushIn(c', now) <= 10000
  {
    var (c', due) := Tick(c, now);
    var flush := if c.updated then c.tsFlush else now;
    var slap := Itimediff(now, flush);
    var start := if slap >= 10000 || slap < -10000 then now else flush;
    if !due {
      Opposite(now, flush);
    } else {
      TimerFrom(start, now, c.interval);
    }
  }

  /** Restarting a timer that went off at `start`. */
  lemma TimerFrom(start: u32, now: u32, interval: u32)
    requires 0 <= Itimediff(now, start) < 10000 && 10 <= interval <= 5000
    ensures var next := Wrap(start + interval);
            var t := if Itimediff(now, next) >= 0 then Wrap(now + interval) else next;
            1 <= Itimediff(t, now) <= interval
  {
    var slap := Itimediff(now, start);
    Opposite(now, start);
    Ahead(start, interval, now);
    Ahead(now, interval, now);
    var next := Wrap(start + interval);
    assert Itimediff(next, now) == interval - slap;
    if interval != slap {
      Opposite(next, now);
    }
  }

  /** Nothing in snd_buf is due within the time NextResend returns. */
  lemma {:induction false} NextResendIsNext(buf: seq<SndSeg>, now: u32, least: int)
    requires least >= 0
    ensures 0 <= NextResend(buf, now, least) <= least
    ensures forall i :: 0 <= i < |buf| && NextResend(buf, now, least) > 0 ==>
              NextResend(buf, now, least) <= Itimediff(buf[i].resendts, now)
  {
    if buf != [] {
      var diff := Itimediff(buf[0].resendts, now);
      if diff > 0 {
        NextResendIsNext(buf[1..], now, Min(diff, least));
      }
    }
  }

  /** How long ikcp_check says nothing needs doing. */
  ghost function CheckedFor(k: Kcb, now: u32): u32 {
    Wrap(Check(k, now) - now)
  }

  /** The time left is the least of the three: next resend, next flush, one interval. */
  lemma CheckedForIs(k: Kcb, now: u32)
    requires k.ctl.updated && CtlOk(k.ctl)
    ensures var slap := Itimediff(now, k.ctl.tsFlush);
            CheckedFor(k, now) ==
            if -10000 <= slap < 0 then
              Min(Min(NextResend(k.snd.buf, now, 0x7fff_ffff), -slap), k.ctl.interval)
            else 0
  {
    hide NextResend, Itimediff, Wrap;
    var slap := Itimediff(now, k.ctl.tsFlush);
    assert Wrap(now - now) == 0 by { WrapWord(0); }
    if -10000 <= slap < 0 {
      Opposite(now, k.ctl.tsFlush);
      NextResendIsNext(k.snd.buf, now, 0x7fff_ffff);
      var m := Min(Min(NextResend(k.snd.buf, now, 0x7fff_ffff), -slap), k.ctl.interval);
      assert Check(k, now) == Wrap(now + m);
      WrapOfWrap(now + m, 0 - now);
      assert now + m + (0 - now) == m && Wrap(now + m) - now == Wrap(now + m) + (0 - now);
      WrapWord(m);
    }
  }

  lemma WrapWord(x: u32)
    ensures Wrap(x) == x
  {
  }

  lemma CheckedForBounds(k: Kcb, now: u32)
    requires k.ctl.updated && CtlOk(k.ctl)
    ensures CheckedFor(k, now) <= k.ctl.interval
    ensures CheckedFor(k, now) > 0 ==>
              && CheckedFor(k, now) <= FlushIn(k.ctl, now) <= 10000
              && forall i :: 0 <= i < |k.snd.buf| ==> CheckedFor(k, now) <= Itimediff(k.snd.buf[i].resendts, now)
  {
    hide CheckedFor, Signed, Wrap;
    CheckedForIs(k, now);
    NextResendIsNext(k.snd.buf, now, 0x7fff_ffff);
    if Itimediff(now, k.ctl.tsFlush) != -HALF {
      Opposite(now, k.ctl.tsFlush);
    }
  }

  /**
   Calling ikcp_update at any time from now up to, but excluding, the time that
   ikcp_check(now) returns, only records the time: it flushes nothing, moves no
   timer, and no segment is due to be resent.
   */
  lemma CheckLosesNothing(k: Kcb, now: u32, x: int)
    requires k.ctl.updated && CtlOk(k.ctl) && 0 < k.Mss() < WORD && 0 <= k.snd.wnd
    requires 0 <= x < CheckedFor(k, now)
    ensures Update(Unbounded, k, Wrap(now + x)) == (k.(ctl := k.ctl.(current := Wrap(now + x))), [])
    ensures Update(Wrap32, k, Wrap(now + x)) == (k.(ctl := k.ctl.(current := Wrap(now + x))), [])
    ensures forall i :: 0 <= i < |k.snd.buf| ==> Itimediff(Wrap(now + x), k.snd.buf[i].resendts) < 0
  {
    hide Flush, Check, NextResend;
    CheckedForBounds(k, now);
    Ahead(now, x, k.ctl.tsFlush);
    forall i | 0 <= i < |k.snd.buf|
      ensures Itimediff(Wrap(now + x), k.snd.buf[i].resendts) < 0
    {
      Ahead(now, x, k.snd.buf[i].resendts);
    }
  }
}
