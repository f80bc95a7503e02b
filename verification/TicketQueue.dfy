/**
 Dequeuing from one producer's queue: consumers draw tickets from an optimistic
 counter, give back the ones that turn out to have been too many, and claim
 indices from headIndex. One producer and any number of consumers interleave
 atomic steps in any order. The single-element form is the bulk form for one.
 Indices are unwrapped.
 */
module TicketQueue {
  const BLOCK_SIZE: nat := 32

  /** Where a consumer is: the shared access it makes next, and its local variables. */
  datatype Pc =
    | Idle
    | LoadOvercommit(max: nat, tail: nat)
    | LoadOptimistic(max: nat, tail: nat, overcommit: nat)
    | Draw(desired: nat, overcommit: nat)
    | Recheck(desired: nat, overcommit: nat, mine: nat)
    | GiveBack(actual: nat, back: nat, mine: nat)
    | Claim(actual: nat)
    | Taking(from: nat, at: nat, end: nat)     // moving out [at, end), not yet marked empty since `from`
  {
    /** Tickets drawn and not yet decided, or decided and not yet used to claim. */
    function Weight(claims: bool): nat {
      match this
      case Recheck(d, _, _) => if claims then 0 else d
      case GiveBack(a, b, _) => if claims then a else b
      case Claim(a) => if claims then a else 0
      case _ => 0
    }
  }

  /**
   The counters, the elements constructed so far (those below tail are published),
   what consumers have moved out, the count of emptied elements per block, and the
   blocks found empty and released, in order.
   */
  datatype State<T> = State(tail: nat, head: nat, optimistic: nat, overcommit: nat, slots: seq<T>,
                            pcs: seq<Pc>, got: map<nat, T>, counts: map<nat, nat>, freed: seq<nat>)
  {
    function Emptied(b: nat): nat {
      if b in counts then counts[b] else 0
    }
  }

  datatype Action<T> = Construct(x: T) | Publish | Dequeue(t: nat, max: nat) | Go(t: nat)

  predicate Enabled<T>(s: State<T>, a: Action<T>) {
    match a
    case Dequeue(t, max) => t < |s.pcs| && s.pcs[t] == Idle && max > 0
    case Go(t) => t < |s.pcs| && s.pcs[t] != Idle
    case _ => true
  }

  function Min(a: int, b: int): int {
    if a < b then a else b
  }

  function Step<T>(s: State<T>, a: Action<T>): State<T>
    requires Enabled(s, a)
  {
    match a
    case Construct(x) => s.(slots := s.slots + [x])
    case Publish => s.(tail := |s.slots|)
    case Dequeue(t, max) => s.(pcs := s.pcs[t := LoadOvercommit(max, s.tail)])
    case Go(t) => Go1(s, t)
  }

  function Go1<T>(s: State<T>, t: nat): State<T>
    requires t < |s.pcs|
  {
    match s.pcs[t]
    case Idle => s
    case LoadOvercommit(max, tail) => s.(pcs := s.pcs[t := LoadOptimistic(max, tail, s.overcommit)])
    case LoadOptimistic(max, tail, over) =>
      var desired := tail - (s.optimistic - over);
      s.(pcs := s.pcs[t := if desired > 0 then Draw(Min(desired, max), over) else Idle])
    case Draw(desired, over) =>
      s.(optimistic := s.optimistic + desired, pcs := s.pcs[t := Recheck(desired, over, s.optimistic)])
    case Recheck(desired, over, mine) =>
      var actual := Min(desired, s.tail - (mine - over));
      s.(pcs := s.pcs[t := if actual <= 0 then GiveBack(0, desired, mine)
                           else if actual < desired then GiveBack(actual, desired - actual, mine)
                           else Claim(actual)])
    case GiveBack(actual, back, _) =>
      s.(overcommit := s.overcommit + back, pcs := s.pcs[t := if actual > 0 then Claim(actual) else Idle])
    case Claim(actual) =>
      s.(head := s.head + actual, pcs := s.pcs[t := Taking(s.head, s.head, s.head + actual)])
    case Taking(from, at, end) =>
      if from < at && (at >= end || at % BLOCK_SIZE == 0) then MarkEmpty(s, t, from, at, end)
      else MoveOut(s, t, from, at, end)
  }

  /** Move one element to the caller and destroy it; nothing when it was never constructed (ClaimsBelowTail: never so). */
  function MoveOut<T>(s: State<T>, t: nat, from: nat, at: nat, end: nat): State<T>
    requires t < |s.pcs|
  {
    if at < |s.slots| then s.(got := s.got[at := s.slots[at]], pcs := s.pcs[t := Taking(from, at + 1, end)]) else s
  }

  /** set_many_empty on the elements of one block; the block is released by whoever completes its count. */
  function MarkEmpty<T>(s: State<T>, t: nat, from: nat, at: nat, end: nat): State<T>
    requires t < |s.pcs| && from < at
  {
    var b := from / BLOCK_SIZE;
    var n := s.Emptied(b) + (at - from);
    s.(counts := s.counts[b := n], freed := if n == BLOCK_SIZE then s.freed + [b] else s.freed,
       pcs := s.pcs[t := if at >= end then Idle else Taking(at, at, end)])
  }

  ghost function Sum(pcs: seq<Pc>, claims: bool): (n: nat) {
    if pcs == [] then 0 else Sum(pcs[..|pcs| - 1], claims) + pcs[|pcs| - 1].Weight(claims)
  }

  lemma {:induction false} SumUpdate(pcs: seq<Pc>, t: nat, pc: Pc, claims: bool)
    requires t < |pcs|
    ensures Sum(pcs[t := pc], claims) == Sum(pcs, claims) - pcs[t].Weight(claims) + pc.Weight(claims)
    decreases |pcs|
  {
    var init := pcs[..|pcs| - 1];
    if t < |init| {
      SumUpdate(init, t, pc, claims);
      assert pcs[t := pc][..|pcs| - 1] == init[t := pc];
    } else {
      assert pcs[t := pc][..|pcs| - 1] == init;
    }
  }

  lemma {:induction false} SumAtLeast(pcs: seq<Pc>, t: nat, claims: bool)
    requires t < |pcs|
    ensures Sum(pcs, claims) >= pcs[t].Weight(claims)
  {
    SumUpdate(pcs, t, Idle, claims);
  }

  // ---------- tickets and indices, one by one ----------

  /** What has become of each ticket drawn: undecided, good for a claim, or given back. */
  datatype Fate = Drawn(t: nat) | Passed | Failed

  /** What has become of each index claimed. */
  datatype Cell = Claimed(t: nat) | Moved(t: nat) | Empty

  datatype Aux = Aux(fates: seq<Fate>, cells: seq<Cell>)

  ghost function Below(fates: seq<Fate>, f: Fate, m: int): set<int> {
    set k | 0 <= k < |fates| && k < m && fates[k] == f
  }

  ghost function EmptyIn(cells: seq<Cell>, b: nat): set<int> {
    set k | 0 <= k < |cells| && b * BLOCK_SIZE <= k < b * BLOCK_SIZE + BLOCK_SIZE && cells[k] == Empty
  }

  ghost function Range(lo: int, hi: int): (r: set<int>)
    requires lo <= hi
    ensures forall k :: k in r <==> lo <= k < hi
    ensures |r| == hi - lo
    decreases hi - lo
  {
    if lo == hi then {} else Range(lo, hi - 1) + {hi - 1}
  }

  lemma {:induction false} SubsetSize(a: set<int>, b: set<int>)
    requires a <= b
    ensures |a| <= |b|
  {
    assert b == a + (b - a);
  }

  ghost predicate TicketsOk<T>(s: State<T>, g: Aux) {
    && |g.fates| == s.optimistic
    && |Below(g.fates, Passed, s.optimistic)| == s.head + Sum(s.pcs, true)
    && |Below(g.fates, Failed, s.optimistic)| == s.overcommit
    && s.optimistic == s.head + s.overcommit + Sum(s.pcs, false) + Sum(s.pcs, true)
    && Bounded(g.fates, s.tail)
  }

  /** However many tickets up to a passed one have not failed, tail is no less. */
  ghost predicate Bounded(fates: seq<Fate>, tail: nat) {
    forall m :: 0 <= m < |fates| && fates[m] == Passed ==> m + 1 - |Below(fates, Failed, m)| <= tail
  }

  ghost predicate CellsOk<T>(s: State<T>, g: Aux) {
    && |g.cells| == s.head <= s.tail <= |s.slots|
    && (forall k :: 0 <= k < |g.cells| ==> CellOk(s, g, k))
    && (forall k :: k in s.got ==> k < |g.cells|)
    && (forall b: nat :: s.Emptied(b) == |EmptyIn(g.cells, b)|)
    && (forall b :: b in s.freed <==> s.Emptied(b) == BLOCK_SIZE)
    && (forall i, j :: 0 <= i < j < |s.freed| ==> s.freed[i] != s.freed[j])
  }

  ghost predicate CellOk<T>(s: State<T>, g: Aux, k: nat)
    requires k < |g.cells| <= |s.slots|
  {
    && (k in s.got <==> !g.cells[k].Claimed?)
    && (k in s.got ==> s.got[k] == s.slots[k])
    && match g.cells[k]
       case Claimed(t) => t < |s.pcs| && s.pcs[t].Taking? && s.pcs[t].at <= k < s.pcs[t].end
       case Moved(t) => t < |s.pcs| && s.pcs[t].Taking? && s.pcs[t].from <= k < s.pcs[t].at
       case Empty => true
  }

  ghost predicate ThreadOk<T>(s: State<T>, g: Aux, t: nat)
    requires t < |s.pcs|
  {
    match s.pcs[t]
    case Idle => true
    case LoadOvercommit(max, _) => max > 0
    case LoadOptimistic(max, _, over) => max > 0 && over <= s.overcommit
    case Draw(d, over) => d > 0 && over <= s.overcommit
    case Recheck(d, over, mine) =>
      && d > 0 && mine + d <= |g.fates| && over <= |Below(g.fates, Failed, mine)|
      && (forall k :: mine <= k < mine + d ==> g.fates[k] == Drawn(t))
    case GiveBack(a, b, mine) =>
      b > 0 && mine + a + b <= |g.fates| && (forall k :: mine + a <= k < mine + a + b ==> g.fates[k] == Drawn(t))
    case Claim(a) => a > 0
    case Taking(from, at, end) =>
      && from <= at <= end <= |g.cells| && from < end && (from < at ==> (at - 1) / BLOCK_SIZE == from / BLOCK_SIZE)
      && (forall k :: from <= k < at ==> g.cells[k] == Moved(t))
      && (forall k :: at <= k < end ==> g.cells[k] == Claimed(t))
  }

  ghost predicate Inv<T>(s: State<T>, g: Aux) {
    && TicketsOk(s, g) && CellsOk(s, g)
    && (forall t :: 0 <= t < |s.pcs| ==> ThreadOk(s, g, t))
  }

  /** At most tail tickets have ever passed the check. */
  lemma PassedBound<T>(s: State<T>, g: Aux)
    requires TicketsOk(s, g)
    ensures s.head + Sum(s.pcs, true) <= s.tail
  {
    var p := Below(g.fates, Passed, s.optimistic);
    if x :| x in p {
      var m := Largest(p, x);
      var f := Below(g.fates, Failed, m);
      assert p !! f && p + f <= Range(0, m + 1);
      SubsetSize(p + f, Range(0, m + 1));
    }
  }

  lemma {:induction false} Largest(p: set<int>, x: int) returns (m: int)
    requires x in p
    ensures m in p && forall k :: k in p ==> k <= m
    decreases p
  {
    m := x;
    var rest := p - {x};
    assert forall k :: k in p ==> k == x || k in rest;
    if y :| y in rest {
      var m' := Largest(rest, y);
      m := if m' > m then m' else m;
    }
  }

  // ---------- preservation ----------

  ghost function Fill<V>(q: seq<V>, lo: nat, hi: nat, v: V): (r: seq<V>)
    ensures |r| == |q| && forall k :: 0 <= k < |q| ==> r[k] == if lo <= k < hi then v else q[k]
  {
    seq(|q|, k requires 0 <= k < |q| => if lo <= k < hi then v else q[k])
  }

  ghost function Track<T>(s: State<T>, g: Aux, a: Action<T>): Aux
    requires Enabled(s, a) && Inv(s, g)
  {
    if !a.Go? then g else
    match s.pcs[a.t]
    case Draw(d, _) => g.(fates := g.fates + seq(d, _ => Drawn(a.t)))
    case Recheck(d, over, mine) =>
      g.(fates := Fill(g.fates, mine, mine + Max0(Min(d, s.tail - (mine - over))), Passed))
    case GiveBack(actual, back, mine) => g.(fates := Fill(g.fates, mine + actual, mine + actual + back, Failed))
    case Claim(actual) => g.(cells := g.cells + seq(actual, _ => Claimed(a.t)))
    case Taking(from, at, end) =>
      if from < at && (at >= end || at % BLOCK_SIZE == 0) then g.(cells := Fill(g.cells, from, at, Empty))
      else assert ThreadOk(s, g, a.t); g.(cells := g.cells[at := Moved(a.t)])
    case _ => g
  }

  ghost function Max0(x: int): nat {
    if x < 0 then 0 else x
  }

  /** The steps of thread t leave the tickets and cells of others alone, and a failed ticket stays failed. */
  ghost predicate Apart<T>(s: State<T>, g: Aux, s': State<T>, g': Aux, t: nat) {
    && |s'.pcs| == |s.pcs| && s.overcommit <= s'.overcommit
    && |g.fates| <= |g'.fates| && |g.cells| <= |g'.cells|
    && (forall u :: 0 <= u < |s.pcs| && u != t ==> s'.pcs[u] == s.pcs[u])
    && (forall k :: 0 <= k < |g.fates| && g.fates[k] != g'.fates[k] ==> g.fates[k] == Drawn(t))
    && (forall k :: 0 <= k < |g.cells| && g.cells[k] != g'.cells[k] ==> g.cells[k] in {Claimed(t), Moved(t)})
  }

  lemma FailedGrow(f: seq<Fate>, f': seq<Fate>, m: int, t: nat)
    requires |f| <= |f'| && forall k :: 0 <= k < |f| && f[k] != f'[k] ==> f[k] == Drawn(t)
    ensures |Below(f, Failed, m)| <= |Below(f', Failed, m)|
  {
    SubsetSize(Below(f, Failed, m), Below(f', Failed, m));
  }

  lemma OtherThread<T>(s: State<T>, g: Aux, s': State<T>, g': Aux, t: nat, u: nat)
    requires Apart(s, g, s', g', t) && u < |s.pcs| && u != t && ThreadOk(s, g, u)
    ensures ThreadOk(s', g', u)
  {
    if s.pcs[u].Recheck? {
      FailedGrow(g.fates, g'.fates, s.pcs[u].mine, t);
    }
  }

  lemma OtherThreads<T>(s: State<T>, g: Aux, s': State<T>, g': Aux, t: nat)
    requires Apart(s, g, s', g', t) && (forall u :: 0 <= u < |s.pcs| ==> ThreadOk(s, g, u))
    ensures |s'.pcs| == |s.pcs|
    ensures forall u :: 0 <= u < |s.pcs| && u != t ==> ThreadOk(s', g', u)
  {
    hide ThreadOk;
    forall u | 0 <= u < |s.pcs| && u != t
      ensures ThreadOk(s', g', u)
    {
      OtherThread(s, g, s', g', t, u);
    }
  }

  /** A step that leaves the cells alone. */
  lemma CellsKept<T>(s: State<T>, g: Aux, s': State<T>, g': Aux, t: nat)
    requires CellsOk(s, g) && g'.cells == g.cells && t < |s.pcs| == |s'.pcs| && !s.pcs[t].Taking?
    requires s' == s.(optimistic := s'.optimistic, overcommit := s'.overcommit, pcs := s.pcs[t := s'.pcs[t]])
    ensures CellsOk(s', g')
  {
    forall k | 0 <= k < |g.cells|
      ensures CellOk(s', g', k)
    {
      assert CellOk(s, g, k);
    }
    assert forall b: nat :: s'.Emptied(b) == s.Emptied(b);
  }

  ghost predicate DrawnBy(f: seq<Fate>, lo: nat, hi: nat, t: nat) {
    lo <= hi <= |f| && forall k :: lo <= k < hi ==> f[k] == Drawn(t)
  }

  lemma Settled(f: seq<Fate>, lo: nat, hi: nat, t: nat, v: Fate, w: Fate)
    requires DrawnBy(f, lo, hi, t) && !v.Drawn? && !w.Drawn? && w != v
    ensures var f' := Fill(f, lo, hi, v);
            && |Below(f', v, |f|)| == |Below(f, v, |f|)| + (hi - lo)
            && |Below(f', w, |f|)| == |Below(f, w, |f|)|
  {
    var f' := Fill(f, lo, hi, v);
    var before, r := Below(f, v, |f|), Range(lo, hi);
    assert before * r == {};
    assert Below(f', v, |f|) == before + r;
    assert Below(f', w, |f|) == Below(f, w, |f|);
  }

  lemma PassBounded(f: seq<Fate>, lo: nat, hi: nat, t: nat, tail: nat)
    requires DrawnBy(f, lo, hi, t) && Bounded(f, tail) && hi - |Below(f, Failed, lo)| <= tail
    ensures Bounded(Fill(f, lo, hi, Passed), tail)
  {
    var f' := Fill(f, lo, hi, Passed);
    forall m | 0 <= m < |f'| && f'[m] == Passed
      ensures m + 1 - |Below(f', Failed, m)| <= tail
    {
      assert Below(f', Failed, m) == Below(f, Failed, m);
      if lo <= m < hi {
        SubsetSize(Below(f, Failed, lo), Below(f, Failed, m));
      }
    }
  }

  lemma FailBounded(f: seq<Fate>, lo: nat, hi: nat, t: nat, tail: nat)
    requires DrawnBy(f, lo, hi, t) && Bounded(f, tail)
    ensures Bounded(Fill(f, lo, hi, Failed), tail)
  {
    var f' := Fill(f, lo, hi, Failed);
    forall m | 0 <= m < |f'| && f'[m] == Passed
      ensures m + 1 - |Below(f', Failed, m)| <= tail
    {
      FailedGrow(f, f', m, t);
    }
  }

  lemma DrawFates(f: seq<Fate>, d: nat, t: nat, tail: nat)
    requires Bounded(f, tail)
    ensures var f' := f + seq(d, _ => Drawn(t));
            && |Below(f', Passed, |f'|)| == |Below(f, Passed, |f|)|
            && |Below(f', Failed, |f'|)| == |Below(f', Failed, |f|)| == |Below(f, Failed, |f|)|
            && Bounded(f', tail)
  {
    var f' := f + seq(d, _ => Drawn(t));
    assert Below(f', Passed, |f'|) == Below(f, Passed, |f|);
    assert Below(f', Failed, |f'|) == Below(f, Failed, |f|) == Below(f', Failed, |f|);
    forall m | 0 <= m < |f'| && f'[m] == Passed
      ensures m + 1 - |Below(f', Failed, m)| <= tail
    {
      assert Below(f', Failed, m) == Below(f, Failed, m);
    }
  }

  lemma LoadKeeps<T>(s: State<T>, g: Aux, t: nat)
    requires Inv(s, g) && Enabled(s, Go(t)) && (s.pcs[t].LoadOvercommit? || s.pcs[t].LoadOptimistic?)
    ensures Inv(Step(s, Go(t)), Track(s, g, Go(t)))
  {
    hide Below, CellsOk;
    var s' := Step(s, Go(t));
    assert ThreadOk(s, g, t);
    SumUpdate(s.pcs, t, s'.pcs[t], true);
    SumUpdate(s.pcs, t, s'.pcs[t], false);
    OtherThreads(s, g, s', g, t);
    CellsKept(s, g, s', g, t);
  }

  lemma DrawKeeps<T>(s: State<T>, g: Aux, t: nat)
    requires Inv(s, g) && Enabled(s, Go(t)) && s.pcs[t].Draw?
    ensures Inv(Step(s, Go(t)), Track(s, g, Go(t)))
  {
    hide CellsOk, Below, Bounded;
    var s', g' := Step(s, Go(t)), Track(s, g, Go(t));
    assert ThreadOk(s, g, t);
    SumUpdate(s.pcs, t, s'.pcs[t], true);
    SumUpdate(s.pcs, t, s'.pcs[t], false);
    OtherThreads(s, g, s', g', t);
    CellsKept(s, g, s', g', t);
    DrawFates(g.fates, s.pcs[t].desired, t, s.tail);
  }

  lemma RecheckKeeps<T>(s: State<T>, g: Aux, t: nat)
    requires Inv(s, g) && Enabled(s, Go(t)) && s.pcs[t].Recheck?
    ensures Inv(Step(s, Go(t)), Track(s, g, Go(t)))
  {
    hide CellsOk, Below, Bounded;
    var s', g' := Step(s, Go(t)), Track(s, g, Go(t));
    var pc := s.pcs[t];
    var hi := pc.mine + Max0(Min(pc.desired, s.tail - (pc.mine - pc.overcommit)));
    assert ThreadOk(s, g, t);
    SumUpdate(s.pcs, t, s'.pcs[t], true);
    SumUpdate(s.pcs, t, s'.pcs[t], false);
    OtherThreads(s, g, s', g', t);
    CellsKept(s, g, s', g', t);
    Settled(g.fates, pc.mine, hi, t, Passed, Failed);
    if hi > pc.mine {
      PassBounded(g.fates, pc.mine, hi, t, s.tail);
    } else {
      assert g'.fates == g.fates;
    }
  }

  lemma GiveBackKeeps<T>(s: State<T>, g: Aux, t: nat)
    requires Inv(s, g) && Enabled(s, Go(t)) && s.pcs[t].GiveBack?
    ensures Inv(Step(s, Go(t)), Track(s, g, Go(t)))
  {
    hide CellsOk, Below, Bounded;
    var s', g' := Step(s, Go(t)), Track(s, g, Go(t));
    var lo, hi := s.pcs[t].mine + s.pcs[t].actual, s.pcs[t].mine + s.pcs[t].actual + s.pcs[t].back;
    assert ThreadOk(s, g, t);
    SumUpdate(s.pcs, t, s'.pcs[t], true);
    SumUpdate(s.pcs, t, s'.pcs[t], false);
    OtherThreads(s, g, s', g', t);
    CellsKept(s, g, s', g', t);
    Settled(g.fates, lo, hi, t, Failed, Passed);
    FailBounded(g.fates, lo, hi, t, s.tail);
  }

  lemma ClaimKeeps<T>(s: State<T>, g: Aux, t: nat)
    requires Inv(s, g) && Enabled(s, Go(t)) && s.pcs[t].Claim?
    ensures Inv(Step(s, Go(t)), Track(s, g, Go(t)))
  {
    hide Below, Bounded;
    var s', g' := Step(s, Go(t)), Track(s, g, Go(t));
    assert ThreadOk(s, g, t);
    PassedBound(s, g);
    SumAtLeast(s.pcs, t, true);
    SumUpdate(s.pcs, t, s'.pcs[t], true);
    SumUpdate(s.pcs, t, s'.pcs[t], false);
    OtherThreads(s, g, s', g', t);
    assert TicketsOk(s', g') && ThreadOk(s', g', t);
    forall k | 0 <= k < |g'.cells|
      ensures CellOk(s', g', k)
    {
      assert k < |g.cells| ==> CellOk(s, g, k);
    }
    forall b: nat
      ensures EmptyIn(g'.cells, b) == EmptyIn(g.cells, b) && s'.Emptied(b) == s.Emptied(b)
    {
    }
  }

  lemma MoveOutKeeps<T>(s: State<T>, g: Aux, t: nat)
    requires Inv(s, g) && Enabled(s, Go(t)) && s.pcs[t].Taking?
    requires var pc := s.pcs[t]; !(pc.from < pc.at && (pc.at >= pc.end || pc.at % BLOCK_SIZE == 0))
    ensures Inv(Step(s, Go(t)), Track(s, g, Go(t)))
    ensures s.pcs[t].at < s.head <= s.tail <= |s.slots| && s.pcs[t].at !in s.got
  {
    hide Below, Bounded, CellsOk;
    var s', g', pc := Step(s, Go(t)), Track(s, g, Go(t)), s.pcs[t];
    assert ThreadOk(s, g, t);
    MoveOutCells(s, g, t);
    SumUpdate(s.pcs, t, s'.pcs[t], true);
    SumUpdate(s.pcs, t, s'.pcs[t], false);
    OtherThreads(s, g, s', g', t);
    assert ThreadOk(s', g', t);
  }

  lemma MoveOutCells<T>(s: State<T>, g: Aux, t: nat)
    requires CellsOk(s, g) && t < |s.pcs| && s.pcs[t].Taking? && ThreadOk(s, g, t) && s.pcs[t].at < s.pcs[t].end
    ensures var pc := s.pcs[t];
            && pc.at < s.head == |g.cells| <= s.tail <= |s.slots| && pc.at !in s.got
            && CellsOk(MoveOut(s, t, pc.from, pc.at, pc.end), g.(cells := g.cells[pc.at := Moved(t)]))
  {
    var pc := s.pcs[t];
    assert CellOk(s, g, pc.at);
    var s', g' := MoveOut(s, t, pc.from, pc.at, pc.end), g.(cells := g.cells[pc.at := Moved(t)]);
    forall k | 0 <= k < |g'.cells|
      ensures CellOk(s', g', k)
    {
      assert CellOk(s, g, k);
    }
    forall b: nat
      ensures EmptyIn(g'.cells, b) == EmptyIn(g.cells, b) && s'.Emptied(b) == s.Emptied(b)
    {
    }
  }

  /** A block has BLOCK_SIZE indices, so its count cannot pass that. */
  lemma EmptyInSize(cells: seq<Cell>, b: nat)
    ensures |EmptyIn(cells, b)| <= BLOCK_SIZE
  {
    var r := Range(b * BLOCK_SIZE, b * BLOCK_SIZE + BLOCK_SIZE);
    SubsetSize(EmptyIn(cells, b), r);
  }

  lemma EmptyInThis(cells: seq<Cell>, from: nat, at: nat, t: nat, b: nat)
    requires b * BLOCK_SIZE <= from < at <= b * BLOCK_SIZE + BLOCK_SIZE && at <= |cells|
    requires forall k :: from <= k < at ==> cells[k] == Moved(t)
    ensures |EmptyIn(Fill(cells, from, at, Empty), b)| == |EmptyIn(cells, b)| + (at - from)
  {
    var before, r := EmptyIn(cells, b), Range(from, at);
    assert before * r == {};
    assert EmptyIn(Fill(cells, from, at, Empty), b) == before + r;
  }

  lemma EmptyInAfter(cells: seq<Cell>, from: nat, at: nat, t: nat, b: nat)
    requires from < at <= |cells| && (at - 1) / BLOCK_SIZE == from / BLOCK_SIZE
    requires forall k :: from <= k < at ==> cells[k] == Moved(t)
    ensures var cells' := Fill(cells, from, at, Empty);
            |EmptyIn(cells', b)| == |EmptyIn(cells, b)| + if b == from / BLOCK_SIZE then at - from else 0
  {
    var c := from / BLOCK_SIZE;
    assert c * BLOCK_SIZE <= from < at <= c * BLOCK_SIZE + BLOCK_SIZE;
    if b == c {
      EmptyInThis(cells, from, at, t, b);
    } else {
      assert EmptyIn(Fill(cells, from, at, Empty), b) == EmptyIn(cells, b);
    }
  }

  lemma MarkKeeps<T>(s: State<T>, g: Aux, t: nat)
    requires Inv(s, g) && Enabled(s, Go(t)) && s.pcs[t].Taking?
    requires var pc := s.pcs[t]; pc.from < pc.at && (pc.at >= pc.end || pc.at % BLOCK_SIZE == 0)
    ensures Inv(Step(s, Go(t)), Track(s, g, Go(t)))
  {
    hide Below, Bounded, EmptyIn;
    var s', g', pc := Step(s, Go(t)), Track(s, g, Go(t)), s.pcs[t];
    assert ThreadOk(s, g, t);
    SumUpdate(s.pcs, t, s'.pcs[t], true);
    SumUpdate(s.pcs, t, s'.pcs[t], false);
    OtherThreads(s, g, s', g', t);
    assert TicketsOk(s', g') && ThreadOk(s', g', t);
    MarkCells(s, g, t);
    hide CellsOk, ThreadOk, TicketsOk;
  }

  lemma MarkCells<T>(s: State<T>, g: Aux, t: nat)
    requires CellsOk(s, g) && t < |s.pcs| && s.pcs[t].Taking? && ThreadOk(s, g, t)
    requires s.pcs[t].from < s.pcs[t].at
    ensures var pc := s.pcs[t];
            CellsOk(MarkEmpty(s, t, pc.from, pc.at, pc.end), g.(cells := Fill(g.cells, pc.from, pc.at, Empty)))
  {
    hide EmptyIn;
    var pc := s.pcs[t];
    var s', g' := MarkEmpty(s, t, pc.from, pc.at, pc.end), g.(cells := Fill(g.cells, pc.from, pc.at, Empty));
    forall k | 0 <= k < |g'.cells|
      ensures CellOk(s', g', k)
    {
      assert CellOk(s, g, k);
    }
    forall b: nat
      ensures s'.Emptied(b) == |EmptyIn(g'.cells, b)|
    {
      EmptyInAfter(g.cells, pc.from, pc.at, t, b);
    }
    var b := pc.from / BLOCK_SIZE;
    EmptyInAfter(g.cells, pc.from, pc.at, t, b);
    EmptyInSize(g'.cells, b);
  }

  lemma CallKeeps<T>(s: State<T>, g: Aux, a: Action<T>)
    requires Inv(s, g) && Enabled(s, a) && !a.Go?
    ensures Inv(Step(s, a), g)
  {
    hide Below, EmptyIn;
    var s' := Step(s, a);
    if a.Dequeue? {
      SumUpdate(s.pcs, a.t, s'.pcs[a.t], true);
      SumUpdate(s.pcs, a.t, s'.pcs[a.t], false);
      OtherThreads(s, g, s', g, a.t);
    } else {
      OtherThreads(s, g, s', g, |s.pcs|);
    }
    forall k | 0 <= k < |g.cells|
      ensures CellOk(s', g, k)
    {
      assert CellOk(s, g, k);
    }
    assert forall b: nat :: s'.Emptied(b) == s.Emptied(b);
  }

  lemma StepKeeps<T>(s: State<T>, g: Aux, a: Action<T>)
    requires Inv(s, g) && Enabled(s, a)
    ensures Inv(Step(s, a), Track(s, g, a))
  {
    hide Inv, Step, Track;
    if !a.Go? {
      CallKeeps(s, g, a);
      assert Track(s, g, a) == g by { CallTracks(s, g, a); }
    } else {
      var t := a.t;
      match s.pcs[t] {
        case LoadOvercommit(_, _) => LoadKeeps(s, g, t);
        case LoadOptimistic(_, _, _) => LoadKeeps(s, g, t);
        case Draw(_, _) => DrawKeeps(s, g, t);
        case Recheck(_, _, _) => RecheckKeeps(s, g, t);
        case GiveBack(_, _, _) => GiveBackKeeps(s, g, t);
        case Claim(_) => ClaimKeeps(s, g, t);
        case Taking(from, at, end) =>
          if from < at && (at >= end || at % BLOCK_SIZE == 0) {
            MarkKeeps(s, g, t);
          } else {
            MoveOutKeeps(s, g, t);
          }
      }
    }
  }

  lemma CallTracks<T>(s: State<T>, g: Aux, a: Action<T>)
    requires Inv(s, g) && Enabled(s, a) && !a.Go?
    ensures Track(s, g, a) == g
  {
    hide Inv;
  }

  // ---------- whole runs ----------

  ghost predicate Start<T>(s: State<T>) {
    && s == State(0, 0, 0, 0, [], s.pcs, map[], map[], [])
    && forall t :: 0 <= t < |s.pcs| ==> s.pcs[t] == Idle
  }

  ghost predicate Execution<T>(trace: seq<State<T>>, acts: seq<Action<T>>) {
    && |trace| == |acts| + 1 && Start(trace[0])
    && forall i :: 0 <= i < |acts| ==> Enabled(trace[i], acts[i]) && trace[i + 1] == Step(trace[i], acts[i])
  }

  lemma {:induction false} IdleSum(pcs: seq<Pc>, claims: bool)
    requires forall t :: 0 <= t < |pcs| ==> pcs[t] == Idle
    ensures Sum(pcs, claims) == 0
  {
    if pcs != [] {
      IdleSum(pcs[..|pcs| - 1], claims);
    }
  }

  lemma NothingYet(b: nat)
    ensures EmptyIn([], b) == {} && Below([], Passed, 0) == {} && Below([], Failed, 0) == {}
  {
  }

  lemma StartInv<T>(s: State<T>)
    requires Start(s)
    ensures Inv(s, Aux([], []))
  {
    hide EmptyIn, Below;
    IdleSum(s.pcs, true);
    IdleSum(s.pcs, false);
    forall b: nat
      ensures s.Emptied(b) == |EmptyIn([], b)|
    {
      NothingYet(b);
    }
    NothingYet(0);
  }

  lemma {:induction false} ExecutionInv<T>(trace: seq<State<T>>, acts: seq<Action<T>>, i: nat) returns (g: Aux)
    requires Execution(trace, acts) && i < |trace|
    ensures Inv(trace[i], g)
    decreases i
  {
    hide Inv, Step, Start;
    if i == 0 {
      StartInv(trace[0]);
      g := Aux([], []);
    } else {
      g := ExecutionInv(trace, acts, i - 1);
      StepKeeps(trace[i - 1], g, acts[i - 1]);
      g := Track(trace[i - 1], g, acts[i - 1]);
    }
  }

  /** At every moment: optimistic count = head + overcommit + tickets in hand, and all claims together stay below tail. */
  lemma TicketsBalance<T>(trace: seq<State<T>>, acts: seq<Action<T>>, i: nat)
    requires Execution(trace, acts) && i < |trace|
    ensures var s := trace[i];
            && s.optimistic == s.head + s.overcommit + Sum(s.pcs, false) + Sum(s.pcs, true)
            && s.head + Sum(s.pcs, true) <= s.tail <= |s.slots|
  {
    hide ThreadOk, Bounded;
    var g := ExecutionInv(trace, acts, i);
    PassedBound(trace[i], g);
  }

  /** Every index that headIndex.fetch_add hands out is of a published element, whatever the other consumers do. */
  lemma ClaimsBelowTail<T>(trace: seq<State<T>>, acts: seq<Action<T>>, i: nat, t: nat)
    requires Execution(trace, acts) && i < |acts| && acts[i] == Go(t) && trace[i].pcs[t].Claim?
    ensures var s, s' := trace[i], trace[i + 1];
            && s'.pcs[t] == Taking(s.head, s.head, s'.head) && s.head < s'.head <= s'.tail <= |s'.slots|
  {
    hide Bounded, TicketsOk, CellsOk;
    var g := ExecutionInv(trace, acts, i);
    assert ThreadOk(trace[i], g, t);
    SumAtLeast(trace[i].pcs, t, true);
    TicketsBalance(trace, acts, i);
  }

  /** Two consumers at work never have an index in common: each is claimed once. */
  lemma ClaimsDisjoint<T>(trace: seq<State<T>>, acts: seq<Action<T>>, i: nat, t: nat, u: nat)
    requires Execution(trace, acts) && i < |trace| && t < |trace[i].pcs| && u < |trace[i].pcs| && t != u
    requires trace[i].pcs[t].Taking? && trace[i].pcs[u].Taking?
    ensures trace[i].pcs[t].end <= trace[i].pcs[u].from || trace[i].pcs[u].end <= trace[i].pcs[t].from
  {
    hide TicketsOk, CellsOk;
    var g := ExecutionInv(trace, acts, i);
    var a, b := trace[i].pcs[t], trace[i].pcs[u];
    assert ThreadOk(trace[i], g, t) && ThreadOk(trace[i], g, u);
    var k := if a.from >= b.from then a.from else b.from;
    assert a.from <= k < a.end ==> g.cells[k] in {Claimed(t), Moved(t)};
    assert b.from <= k < b.end ==> g.cells[k] in {Claimed(u), Moved(u)};
  }

  /** Moving an element out finds it constructed and published, and nobody has moved it out before. */
  lemma MovedOnce<T>(trace: seq<State<T>>, acts: seq<Action<T>>, i: nat, t: nat)
    requires Execution(trace, acts) && i < |acts| && acts[i] == Go(t) && trace[i].pcs[t].Taking?
    requires var pc := trace[i].pcs[t]; !(pc.from < pc.at && (pc.at >= pc.end || pc.at % BLOCK_SIZE == 0))
    ensures var s, s', at := trace[i], trace[i + 1], trace[i].pcs[t].at;
            at < s.tail <= |s.slots| && at !in s.got && s'.got == s.got[at := s.slots[at]]
  {
    hide TicketsOk;
    var g := ExecutionInv(trace, acts, i);
    MoveOutKeeps(trace[i], g, t);
  }

  /** Index k has been moved out, and no consumer holds it any more. */
  ghost predicate Done<T>(s: State<T>, k: int) {
    k in s.got && forall t :: 0 <= t < |s.pcs| && s.pcs[t].Taking? ==> !(s.pcs[t].from <= k < s.pcs[t].end)
  }

  lemma EmptyDone<T>(s: State<T>, g: Aux, k: nat)
    requires Inv(s, g) && k < |g.cells| && g.cells[k] == Empty
    ensures Done(s, k)
  {
    hide TicketsOk;
    assert CellOk(s, g, k);
    forall t | 0 <= t < |s.pcs| && s.pcs[t].Taking?
      ensures !(s.pcs[t].from <= k < s.pcs[t].end)
    {
      assert ThreadOk(s, g, t);
    }
  }

  /**
   A block is released exactly once, when the last of its elements has been moved
   out, and its count never passes BLOCK_SIZE.
   */
  lemma BlocksFreedOnce<T>(trace: seq<State<T>>, acts: seq<Action<T>>, i: nat, b: nat)
    requires Execution(trace, acts) && i < |trace|
    ensures var s := trace[i];
            && s.Emptied(b) <= BLOCK_SIZE
            && (forall j, k :: 0 <= j < k < |s.freed| ==> s.freed[j] != s.freed[k])
            && (b in s.freed <==> s.Emptied(b) == BLOCK_SIZE)
            && (b in s.freed ==> forall k :: b * BLOCK_SIZE <= k < b * BLOCK_SIZE + BLOCK_SIZE ==> Done(s, k))
  {
    hide TicketsOk, ThreadOk, CellOk, Done;
    var g := ExecutionInv(trace, acts, i);
    var s := trace[i];
    EmptyInSize(g.cells, b);
    if b in s.freed {
      var r := Range(b * BLOCK_SIZE, b * BLOCK_SIZE + BLOCK_SIZE);
      FullSubset(EmptyIn(g.cells, b), r);
      forall k | b * BLOCK_SIZE <= k < b * BLOCK_SIZE + BLOCK_SIZE
        ensures Done(s, k)
      {
        assert k in r;
        EmptyDone(s, g, k);
      }
    }
  }

  lemma FullSubset(a: set<int>, r: set<int>)
    requires a <= r && |a| == |r|
    ensures a == r
  {
    assert r == a + (r - a);
    assert |r - a| == 0;
  }

  /**
   With no consumer inside, the elements delivered are exactly those below head,
   each with its own value, and the optimistic count is exact; so a consumer
   starting now sees the queue's true length.
   */
  lemma QuietQueue<T>(trace: seq<State<T>>, acts: seq<Action<T>>, i: nat)
    requires Execution(trace, acts) && i < |trace|
    requires forall t :: 0 <= t < |trace[i].pcs| ==> trace[i].pcs[t] == Idle
    ensures var s := trace[i];
            && s.optimistic - s.overcommit == s.head <= s.tail <= |s.slots|
            && (forall k :: k in s.got <==> 0 <= k < s.head)
            && (forall k :: 0 <= k < s.head ==> s.got[k] == s.slots[k])
  {
    hide TicketsOk;
    var g := ExecutionInv(trace, acts, i);
    var s := trace[i];
    TicketsBalance(trace, acts, i);
    IdleSum(s.pcs, true);
    IdleSum(s.pcs, false);
    forall k | 0 <= k < s.head
      ensures k in s.got && s.got[k] == s.slots[k]
    {
      assert CellOk(s, g, k);
    }
  }
}
