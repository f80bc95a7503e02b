/**
 The lightweight semaphore: a counter changed by compare-and-swap in front of an
 operating-system semaphore. Any number of threads interleave atomic steps; waits
 may time out, the system semaphore's wait may fail, and a weak compare-and-swap
 may fail for no reason. tryWait and wait are tryWaitMany and waitMany for one.
 */
module LightSemaphore {
  const INT_LIMIT: int := 0x8000_0000

  /** What follows tryWaitMany: return, wait when it got nothing, or return with the permit already had. */
  datatype Then = Direct | Wait | Extra

  datatype Pc =
    | Idle
    | TryLoad(want: nat, max: nat, k: Then)
    | TryCas(want: nat, max: nat, seen: int, k: Then)
    | Spin(want: nat, left: nat)
    | SpinCas(want: nat, left: nat, seen: int)
    | Sleep(want: nat)                    // counted as waiting, in the system semaphore's wait
    | Recheck(want: nat)                  // timed out, still counted
    | TryOs(want: nat)
    | Restore(want: nat, seen: int)
    | Post(left: nat)                     // signal, with this many system posts to make
  {
    function Weight(w: Kind): nat {
      match w
      case Waiting => if Sleep? || Recheck? || TryOs? || Restore? then 1 else 0
      case Holding => if (TryLoad? || TryCas?) && k == Extra then 1 else 0
      case Posting => if Post? then left else 0
    }
  }

  datatype Kind = Waiting | Holding | Posting

  /** A call that has returned: how many permits it asked for and got. */
  datatype Result = Result(want: nat, got: nat)

  /** `log` and `signalled` record what callers have been given and have put in; no step reads them. */
  datatype State = State(initial: nat, spins: nat, count: int, os: nat, pcs: seq<Pc>, log: seq<Result>, signalled: nat)

  datatype Action = TryWaitMany(t: nat, max: nat) | WaitMany(t: nat, max: nat) | Signal(t: nat, n: nat)
                  | Go(t: nat) | Fail(t: nat)

  predicate Enabled(s: State, a: Action) {
    && a.t < |s.pcs|
    && match a
       case Go(t) => s.pcs[t] != Idle && (s.pcs[t].Sleep? ==> s.os > 0)
       case Fail(t) => s.pcs[t].Sleep? || s.pcs[t].TryCas?
       case _ => s.pcs[a.t] == Idle
  }

  function Min(a: int, b: int): int {
    if a < b then a else b
  }

  /** The conversion of a count to int. */
  function ToInt(x: nat): int {
    var y := x % (2 * INT_LIMIT);
    if y >= INT_LIMIT then y - 2 * INT_LIMIT else y
  }

  function Return(s: State, t: nat, want: nat, got: nat): State
    requires t < |s.pcs|
  {
    s.(pcs := s.pcs[t := Idle], log := s.log + [Result(want, got)])
  }

  /** tryWaitMany has got `got` permits. */
  function Tried(s: State, t: nat, want: nat, got: nat, k: Then): State
    requires t < |s.pcs|
  {
    match k
    case Direct => Return(s, t, want, got)
    case Wait => if got == 0 && want > 0 then s.(pcs := s.pcs[t := Spin(want, s.spins)]) else Return(s, t, want, got)
    case Extra => Return(s, t, want, 1 + got)
  }

  /** One permit taken from the slow path; go for the rest. */
  function GotOne(s: State, t: nat, want: nat): State
    requires t < |s.pcs|
  {
    if want > 1 then s.(pcs := s.pcs[t := TryLoad(want, want - 1, Extra)]) else Return(s, t, want, 1)
  }

  function Step(s: State, a: Action): State
    requires Enabled(s, a)
  {
    match a
    case TryWaitMany(t, max) => s.(pcs := s.pcs[t := TryLoad(max, max, Direct)])
    case WaitMany(t, max) => s.(pcs := s.pcs[t := TryLoad(max, max, Wait)])
    case Signal(t, n) =>
      var toRelease := Min(-s.count, n);
      s.(count := s.count + n, signalled := s.signalled + n,
         pcs := s.pcs[t := if toRelease > 0 && ToInt(toRelease) > 0 then Post(ToInt(toRelease)) else Idle])
    case Fail(t) =>
      if s.pcs[t].Sleep? then s.(pcs := s.pcs[t := Recheck(s.pcs[t].want)]) else s
    case Go(t) => Go1(s, t)
  }

  function Go1(s: State, t: nat): State
    requires t < |s.pcs| && (s.pcs[t].Sleep? ==> s.os > 0)
  {
    match s.pcs[t]
    case Idle => s
    case TryLoad(want, max, k) =>
      if s.count > 0 then s.(pcs := s.pcs[t := TryCas(want, max, s.count, k)]) else Tried(s, t, want, 0, k)
    case TryCas(want, max, seen, k) =>
      if s.count == seen then Tried(s.(count := seen - Min(seen, max)), t, want, Max0(Min(seen, max)), k)
      else if s.count > 0 then s.(pcs := s.pcs[t := TryCas(want, max, s.count, k)])
      else Tried(s, t, want, 0, k)
    case Spin(want, left) =>
      if left > 0 then
        s.(pcs := s.pcs[t := if s.count > 0 then SpinCas(want, left - 1, s.count) else Spin(want, left - 1)])
      else if s.count > 0 then GotOne(s.(count := s.count - 1), t, want)
      else s.(count := s.count - 1, pcs := s.pcs[t := Sleep(want)])
    case SpinCas(want, left, seen) =>
      if s.count == seen then Return(s.(count := seen - Min(seen, want)), t, want, Max0(Min(seen, want)))
      else s.(pcs := s.pcs[t := Spin(want, left)])
    case Sleep(want) => GotOne(s.(os := s.os - 1), t, want)
    case Recheck(want) => s.(pcs := s.pcs[t := if s.count >= 0 then TryOs(want) else Restore(want, s.count)])
    case TryOs(want) =>
      if s.os > 0 then GotOne(s.(os := s.os - 1), t, want) else s.(pcs := s.pcs[t := Recheck(want)])
    case Restore(want, seen) =>
      if s.count == seen then Return(s.(count := seen + 1), t, want, 0) else s.(pcs := s.pcs[t := Recheck(want)])
    case Post(left) =>
      s.(os := s.os + 1, pcs := s.pcs[t := if left > 1 then Post(left - 1) else Idle])
  }

  function Max0(x: int): nat {
    if x < 0 then 0 else x
  }

  // ---------- sums ----------

  ghost function Sum(pcs: seq<Pc>, w: Kind): (n: nat) {
    if pcs == [] then 0 else Sum(pcs[..|pcs| - 1], w) + pcs[|pcs| - 1].Weight(w)
  }

  lemma {:induction false} SumUpdate(pcs: seq<Pc>, t: nat, pc: Pc, w: Kind)
    requires t < |pcs|
    ensures Sum(pcs[t := pc], w) == Sum(pcs, w) - pcs[t].Weight(w) + pc.Weight(w)
    decreases |pcs|
  {
    var init := pcs[..|pcs| - 1];
    if t < |init| {
      SumUpdate(init, t, pc, w);
      assert pcs[t := pc][..|pcs| - 1] == init[t := pc];
    } else {
      assert pcs[t := pc][..|pcs| - 1] == init;
    }
  }

  lemma {:induction false} WaitersFew(pcs: seq<Pc>)
    ensures Sum(pcs, Waiting) <= |pcs|
  {
    if pcs != [] {
      WaitersFew(pcs[..|pcs| - 1]);
    }
  }

  ghost function Given(log: seq<Result>): (n: nat) {
    if log == [] then 0 else Given(log[..|log| - 1]) + log[|log| - 1].got
  }

  // ---------- the invariant ----------

  ghost predicate Conserved(s: State) {
    s.initial + s.signalled
    == Given(s.log) + Sum(s.pcs, Holding) + Max0(s.count) + s.os + Sum(s.pcs, Posting)
  }

  ghost predicate WaitersCounted(s: State) {
    Sum(s.pcs, Waiting) == Max0(-s.count) + s.os + Sum(s.pcs, Posting)
  }

  ghost predicate PcOk(pc: Pc) {
    match pc
    case TryLoad(want, max, k) => if k == Extra then max + 1 == want else max == want
    case TryCas(want, max, seen, k) => seen > 0 && if k == Extra then max + 1 == want else max == want
    case Spin(want, _) => want > 0
    case SpinCas(want, _, seen) => want > 0 && seen > 0
    case Restore(want, seen) => want > 0 && seen < 0
    case Sleep(want) => want > 0
    case Recheck(want) => want > 0
    case TryOs(want) => want > 0
    case Post(left) => left > 0
    case Idle => true
  }

  ghost predicate Inv(s: State) {
    && |s.pcs| < INT_LIMIT
    && Conserved(s) && WaitersCounted(s)
    && (forall t :: 0 <= t < |s.pcs| ==> PcOk(s.pcs[t]))
    && (forall i :: 0 <= i < |s.log| ==> s.log[i].got <= s.log[i].want)
  }

  lemma Sums(s: State, s': State, t: nat)
    requires t < |s.pcs| == |s'.pcs| && s'.pcs == s.pcs[t := s'.pcs[t]]
    ensures forall w :: Sum(s'.pcs, w) == Sum(s.pcs, w) - s.pcs[t].Weight(w) + s'.pcs[t].Weight(w)
  {
    forall w
      ensures Sum(s'.pcs, w) == Sum(s.pcs, w) - s.pcs[t].Weight(w) + s'.pcs[t].Weight(w)
    {
      SumUpdate(s.pcs, t, s'.pcs[t], w);
    }
  }

  lemma Logged(s: State)
    ensures forall want, got :: Given(s.log + [Result(want, got)]) == Given(s.log) + got
  {
    forall want, got
      ensures Given(s.log + [Result(want, got)]) == Given(s.log) + got
    {
    }
  }

  lemma SignalKeeps(s: State, t: nat, n: nat)
    requires Inv(s) && Enabled(s, Signal(t, n))
    ensures Inv(Step(s, Signal(t, n)))
  {
    hide Sum, Given, ToInt;
    var s' := Step(s, Signal(t, n));
    WaitersFew(s.pcs);
    ToIntSmall(Max0(Min(-s.count, n)));
    Sums(s, s', t);
  }

  lemma ToIntSmall(x: nat)
    ensures ToInt(x) == x <==> x < INT_LIMIT
  {
  }

  lemma FastKeeps(s: State, t: nat)
    requires Inv(s) && Enabled(s, Go(t)) && (s.pcs[t].TryLoad? || s.pcs[t].TryCas?)
    ensures Inv(Step(s, Go(t)))
  {
    hide Sum, Given;
    var s' := Step(s, Go(t));
    assert PcOk(s.pcs[t]);
    Sums(s, s', t);
    Logged(s);
  }

  lemma SpinKeeps(s: State, t: nat)
    requires Inv(s) && Enabled(s, Go(t)) && (s.pcs[t].Spin? || s.pcs[t].SpinCas?)
    ensures Inv(Step(s, Go(t)))
  {
    hide Sum, Given;
    var s' := Step(s, Go(t));
    assert PcOk(s.pcs[t]);
    Sums(s, s', t);
    Logged(s);
  }

  lemma SlowKeeps(s: State, t: nat)
    requires Inv(s) && Enabled(s, Go(t)) && (s.pcs[t].Weight(Waiting) == 1 || s.pcs[t].Post?)
    ensures Inv(Step(s, Go(t)))
  {
    hide Sum, Given;
    var s' := Step(s, Go(t));
    assert PcOk(s.pcs[t]);
    Sums(s, s', t);
    Logged(s);
  }

  lemma CallKeeps(s: State, a: Action)
    requires Inv(s) && Enabled(s, a) && (a.TryWaitMany? || a.WaitMany? || a.Fail?)
    ensures Inv(Step(s, a))
  {
    hide Sum, Given;
    var s' := Step(s, a);
    assert PcOk(s.pcs[a.t]);
    assert s.pcs == s.pcs[a.t := s.pcs[a.t]];
    Sums(s, s', a.t);
  }

  lemma StepKeeps(s: State, a: Action)
    requires Inv(s) && Enabled(s, a)
    ensures Inv(Step(s, a))
  {
    hide Inv, Step;
    match a
    case Signal(t, n) => SignalKeeps(s, t, n);
    case Go(t) =>
      match s.pcs[t] {
        case TryLoad(_, _, _) => FastKeeps(s, t);
        case TryCas(_, _, _, _) => FastKeeps(s, t);
        case Spin(_, _) => SpinKeeps(s, t);
        case SpinCas(_, _, _) => SpinKeeps(s, t);
        case _ => SlowKeeps(s, t);
      }
    case _ => CallKeeps(s, a);
  }

  // ---------- whole runs ----------

  ghost predicate Start(s: State) {
    && s == State(s.initial, s.spins, s.initial, 0, s.pcs, [], 0) && |s.pcs| < INT_LIMIT
    && forall t :: 0 <= t < |s.pcs| ==> s.pcs[t] == Idle
  }

  ghost predicate Execution(trace: seq<State>, acts: seq<Action>) {
    && |trace| == |acts| + 1 && Start(trace[0])
    && forall i :: 0 <= i < |acts| ==> Enabled(trace[i], acts[i]) && trace[i + 1] == Step(trace[i], acts[i])
  }

  lemma {:induction false} IdleSum(pcs: seq<Pc>, w: Kind)
    requires forall t :: 0 <= t < |pcs| ==> pcs[t] == Idle
    ensures Sum(pcs, w) == 0
  {
    if pcs != [] {
      IdleSum(pcs[..|pcs| - 1], w);
    }
  }

  lemma {:induction false} ExecutionInv(trace: seq<State>, acts: seq<Action>, i: nat)
    requires Execution(trace, acts) && i < |trace|
    ensures Inv(trace[i])
    decreases i
  {
    if i == 0 {
      forall w ensures Sum(trace[0].pcs, w) == 0 {
        IdleSum(trace[0].pcs, w);
      }
    } else {
      hide Inv, Step, Start;
      ExecutionInv(trace, acts, i - 1);
      StepKeeps(trace[i - 1], acts[i - 1]);
    }
  }

  /**
   No permit is invented or lost: at every moment what was put in is what callers
   have been given, plus what threads hold on their way out, plus the free count,
   plus the system semaphore's value, plus the posts still to be made. And no call
   is given more than it asked for.
   */
  lemma PermitsConserved(trace: seq<State>, acts: seq<Action>, i: nat)
    requires Execution(trace, acts) && i < |trace|
    ensures Conserved(trace[i])
    ensures Given(trace[i].log) <= trace[i].initial + trace[i].signalled
    ensures forall r :: r in trace[i].log ==> r.got <= r.want
  {
    hide Step, Start, PcOk;
    ExecutionInv(trace, acts, i);
  }

  /**
   No wakeup is lost: the waiting threads are as many as the negative count, the
   system permits and the posts to come; so when the count is not negative, each
   thread asleep has a system permit there or on its way.
   */
  lemma WakeupsConserved(trace: seq<State>, acts: seq<Action>, i: nat)
    requires Execution(trace, acts) && i < |trace|
    ensures var s := trace[i];
            && WaitersCounted(s)
            && (s.count >= 0 ==> s.os + Sum(s.pcs, Posting) == Sum(s.pcs, Waiting))
            && (s.count > 0 && Sum(s.pcs, Posting) == 0 && s.os == 0 ==>
                  forall t :: 0 <= t < |s.pcs| ==> !s.pcs[t].Sleep?)
  {
    hide Step, Start, PcOk;
    ExecutionInv(trace, acts, i);
    forall t | 0 <= t < |trace[i].pcs|
      ensures trace[i].pcs[t].Sleep? ==> Sum(trace[i].pcs, Waiting) > 0
    {
      SumUpdate(trace[i].pcs, t, Idle, Waiting);
    }
  }

  /** signal's conversion of the number of posts to int is exact with fewer than 2^31 threads. */
  lemma PostsFit(trace: seq<State>, acts: seq<Action>, i: nat, n: nat)
    requires Execution(trace, acts) && i < |trace|
    ensures var k := Min(-trace[i].count, n); k > 0 ==> ToInt(k) == k
  {
    hide Step, Start, PcOk;
    hide ToInt;
    ExecutionInv(trace, acts, i);
    WaitersFew(trace[i].pcs);
    ToIntSmall(Max0(Min(-trace[i].count, n)));
  }

  /** With every call returned, the count alone is what was put in less what was given. */
  lemma QuietSemaphore(trace: seq<State>, acts: seq<Action>, i: nat)
    requires Execution(trace, acts) && i < |trace|
    requires forall t :: 0 <= t < |trace[i].pcs| ==> trace[i].pcs[t] == Idle
    ensures var s := trace[i];
            s.os == 0 && s.count == s.initial + s.signalled - Given(s.log) && s.count >= 0
  {
    hide Step, Start, PcOk;
    ExecutionInv(trace, acts, i);
    IdleSum(trace[i].pcs, Waiting);
    IdleSum(trace[i].pcs, Holding);
    IdleSum(trace[i].pcs, Posting);
  }
}
