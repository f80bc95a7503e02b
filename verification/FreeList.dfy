/**
 The reference-counted free list: a stack of nodes changed by compare-and-swap,
 by any number of threads. A run interleaves atomic steps, one memory access
 each, in any order. Nodes are numbered; NIL is the null pointer.
 */
module FreeList {
  const NIL: int := -1
  const SHOULD: int := 0x8000_0000
  const WORD: int := 0x1_0000_0000

  /** What follows add_knowing_refcount_is_zero: the caller add returns, the caller try_get goes on with `head`. */
  datatype After = Return | Retry(head: int)

  /** Where a thread is: the memory access it makes next, and its local variables. */
  datatype Pc =
    | Idle
    | LoadHead                              // try_get: load the head
    | LoadRefs(h: int)                      // test for null, load the count
    | RaiseRefs(h: int, refs: int)          // compare-and-swap the count up by one
    | LoadNext(h: int)
    | SwingHead(h: int, next: int)          // compare-and-swap the head
    | Won(h: int)                           // subtract two and return h
    | Lost(h: int, seen: int)               // subtract one
    | LinkLoad(node: int, k: After)         // add_knowing_refcount_is_zero: load the head
    | LinkNext(node: int, head: int, k: After)
    | LinkRefs(node: int, head: int, k: After)
    | LinkHead(node: int, head: int, k: After)
    | LinkUndo(node: int, head: int, k: After)
  {
    /** The node this thread holds a reference to. */
    function Ref(): int {
      match this
      case LoadNext(h) => h
      case SwingHead(h, _) => h
      case Won(h) => h
      case Lost(h, _) => h
      case _ => NIL
    }

    /** The node this thread is linking into the list. */
    function Linking(): int {
      match this
      case LinkLoad(n, _) => n
      case LinkNext(n, _, _) => n
      case LinkRefs(n, _, _) => n
      case LinkHead(n, _, _) => n
      case LinkUndo(n, _, _) => n
      case _ => NIL
    }

    /** Linking, with the count not yet back above zero. */
    predicate Alone() {
      LinkLoad? || LinkNext? || LinkRefs?
    }
  }

  /** Shared memory, the threads, and the nodes that callers have in hand. */
  datatype State = State(head: int, refs: seq<int>, next: seq<int>, pcs: seq<Pc>, held: set<int>) {
    predicate Shaped() {
      && |refs| == |next| && |pcs| < SHOULD - 1
      && (forall n :: n in held ==> Node(n))
    }

    predicate Node(n: int) {
      0 <= n < |refs| && |refs| == |next|
    }

    predicate Ptr(p: int) {
      p == NIL || Node(p)
    }
  }

  datatype Action = Add(t: nat, node: int) | TryGet(t: nat) | Go(t: nat)

  predicate Enabled(s: State, a: Action) {
    && a.t < |s.pcs|
    && (a.Go? <==> s.pcs[a.t] != Idle)
    && (a.Add? ==> a.node in s.held)
  }

  function FetchAdd(x: int, d: int): int {
    (x + d) % WORD
  }

  function Resume(k: After): Pc {
    match k
    case Return => Idle
    case Retry(h) => LoadRefs(h)
  }

  function Step(s: State, a: Action): State
    requires s.Shaped() && Enabled(s, a) && Safe(s, a)
  {
    match a
    case Add(t, n) =>
      s.(refs := s.refs[n := FetchAdd(s.refs[n], SHOULD)], held := s.held - {n},
         pcs := s.pcs[t := if s.refs[n] == 0 then LinkLoad(n, Return) else Idle])
    case TryGet(t) => s.(pcs := s.pcs[t := LoadHead])
    case Go(t) => Go1(s, t)
  }

  /** The addresses the next access of a thread uses are those of nodes. */
  predicate Safe(s: State, a: Action) {
    a.Go? && a.t < |s.pcs| ==>
      var pc := s.pcs[a.t];
      && (pc.Ref() != NIL ==> s.Node(pc.Ref()))
      && (pc.Linking() != NIL ==> s.Node(pc.Linking()))
      && (pc.LoadRefs? ==> s.Ptr(pc.h)) && (pc.RaiseRefs? ==> s.Node(pc.h))
      && (pc.LoadNext? || pc.SwingHead? || pc.Won? || pc.Lost? ==> s.Node(pc.Ref()))
      && (pc.LinkLoad? || pc.LinkNext? || pc.LinkRefs? || pc.LinkHead? || pc.LinkUndo? ==> s.Node(pc.Linking()))
  }

  function Go1(s: State, t: nat): State
    requires t < |s.pcs| && |s.refs| == |s.next| && Safe(s, Go(t))
  {
    match s.pcs[t]
    case Idle => s
    case LoadHead => s.(pcs := s.pcs[t := LoadRefs(s.head)])
    case LoadRefs(h) => s.(pcs := s.pcs[t := if h == NIL then Idle else RaiseRefs(h, s.refs[h])])
    case RaiseRefs(h, r) =>
      if r % SHOULD == 0 || s.refs[h] != r then s.(pcs := s.pcs[t := LoadHead])
      else s.(refs := s.refs[h := FetchAdd(r, 1)], pcs := s.pcs[t := LoadNext(h)])
    case LoadNext(h) => s.(pcs := s.pcs[t := SwingHead(h, s.next[h])])
    case SwingHead(h, next) =>
      if s.head == h then s.(head := next, pcs := s.pcs[t := Won(h)])
      else s.(pcs := s.pcs[t := Lost(h, s.head)])
    case Won(h) =>
      s.(refs := s.refs[h := FetchAdd(s.refs[h], -2)], held := s.held + {h}, pcs := s.pcs[t := Idle])
    case Lost(h, seen) =>
      s.(refs := s.refs[h := FetchAdd(s.refs[h], -1)],
         pcs := s.pcs[t := if s.refs[h] == SHOULD + 1 then LinkLoad(h, Retry(seen)) else LoadRefs(seen)])
    case LinkLoad(n, k) => s.(pcs := s.pcs[t := LinkNext(n, s.head, k)])
    case LinkNext(n, h, k) => s.(next := s.next[n := h], pcs := s.pcs[t := LinkRefs(n, h, k)])
    case LinkRefs(n, h, k) => s.(refs := s.refs[n := 1], pcs := s.pcs[t := LinkHead(n, h, k)])
    case LinkHead(n, h, k) =>
      if s.head == h then s.(head := n, pcs := s.pcs[t := Resume(k)])
      else s.(pcs := s.pcs[t := LinkUndo(n, s.head, k)])
    case LinkUndo(n, h, k) =>
      s.(refs := s.refs[n := FetchAdd(s.refs[n], SHOULD - 1)],
         pcs := s.pcs[t := if s.refs[n] == 1 then LinkNext(n, h, k) else Resume(k)])
  }

  // ---------- counting references ----------

  ghost function Count(pcs: seq<Pc>, n: int): (c: nat)
    ensures c <= |pcs|
  {
    if pcs == [] then 0 else Count(pcs[..|pcs| - 1], n) + if pcs[|pcs| - 1].Ref() == n then 1 else 0
  }

  lemma {:induction false} CountUpdate(pcs: seq<Pc>, t: nat, pc: Pc, n: int)
    requires t < |pcs|
    ensures Count(pcs[t := pc], n) ==
            Count(pcs, n) - (if pcs[t].Ref() == n then 1 else 0) + (if pc.Ref() == n then 1 else 0)
    decreases |pcs|
  {
    var init := pcs[..|pcs| - 1];
    if t < |init| {
      CountUpdate(init, t, pc, n);
      assert pcs[t := pc][..|pcs| - 1] == init[t := pc];
    } else {
      assert pcs[t := pc][..|pcs| - 1] == init;
    }
  }

  /** Somebody is counted exactly when the count is not zero. */
  lemma {:induction false} Counted(pcs: seq<Pc>, n: int)
    ensures Count(pcs, n) > 0 <==> exists t :: 0 <= t < |pcs| && pcs[t].Ref() == n
  {
    if pcs != [] {
      var init := pcs[..|pcs| - 1];
      Counted(init, n);
      assert pcs[|pcs| - 1].Ref() == n ==> Count(pcs, n) > 0;
      if t :| 0 <= t < |init| && init[t].Ref() == n {
        assert pcs[t].Ref() == n;
      }
      if t :| 0 <= t < |pcs| && pcs[t].Ref() == n {
        assert t < |init| ==> init[t].Ref() == n;
      }
    }
  }

  // ---------- the invariant ----------

  /** What a node is at a moment; the proof keeps it beside the program's state, which never reads it. */
  datatype Status = Held | Listed | Leaving(t: nat) | Pending | Joining(t: nat)

  datatype Aux = Aux(chain: seq<int>, status: seq<Status>)

  ghost predicate Chained(head: int, next: seq<int>, chain: seq<int>) {
    && head == (if chain == [] then NIL else chain[0])
    && (forall i :: 0 <= i < |chain| ==> 0 <= chain[i] < |next|)
    && (forall i :: 0 <= i < |chain| ==> next[chain[i]] == Follower(chain, i))
    && (forall i, j :: 0 <= i < j < |chain| ==> chain[i] != chain[j])
  }

  ghost function Follower(chain: seq<int>, i: nat): int {
    if i + 1 < |chain| then chain[i + 1] else NIL
  }

  ghost predicate NodeOk(s: State, g: Aux, n: int)
    requires s.Node(n) && |g.status| == |s.refs|
  {
    && (n in s.held <==> g.status[n] == Held)
    && (n in g.chain <==> g.status[n] == Listed)
    && match g.status[n]
       case Held => s.refs[n] == Count(s.pcs, n)
       case Listed => s.refs[n] == 1 + Count(s.pcs, n)
       case Leaving(t) => t < |s.pcs| && s.pcs[t] == Won(n) && s.refs[n] == 1 + Count(s.pcs, n)
       case Pending => Count(s.pcs, n) >= 1 && s.refs[n] == SHOULD + Count(s.pcs, n)
       case Joining(t) =>
         && t < |s.pcs| && s.pcs[t].Linking() == n
         && if s.pcs[t].Alone() then Count(s.pcs, n) == 0 && s.refs[n] == SHOULD
            else s.refs[n] == 1 + Count(s.pcs, n)
  }

  ghost predicate ThreadOk(s: State, g: Aux, t: nat)
    requires t < |s.pcs| && |g.status| == |s.refs| == |s.next|
  {
    var pc := s.pcs[t];
    && Safe(s, Go(t))
    && (pc.SwingHead? ==> s.next[pc.h] == pc.next && s.Ptr(pc.next))
    && (pc.Won? ==> g.status[pc.h] == Leaving(t))
    && (pc.Lost? ==> s.Ptr(pc.seen))
    && (pc.Linking() != NIL ==> g.status[pc.Linking()] == Joining(t) && (pc.k.Retry? ==> s.Ptr(pc.k.head)))
    && (pc.LinkNext? || pc.LinkRefs? || pc.LinkHead? || pc.LinkUndo? ==> s.Ptr(pc.head))
    && (pc.LinkRefs? || pc.LinkHead? ==> s.next[pc.node] == pc.head)
  }

  ghost predicate Inv(s: State, g: Aux) {
    && s.Shaped() && |g.status| == |s.refs|
    && (forall n :: s.Node(n) ==> s.Ptr(s.next[n]))
    && Chained(s.head, s.next, g.chain)
    && (forall n :: s.Node(n) ==> NodeOk(s, g, n))
    && (forall t :: 0 <= t < |s.pcs| ==> ThreadOk(s, g, t))
  }

  /** How a step changes what nodes are. */
  ghost function Track(s: State, g: Aux, a: Action): Aux
    requires s.Shaped() && Enabled(s, a) && Safe(s, a) && |g.status| == |s.refs|
  {
    match a
    case Add(t, n) => g.(status := g.status[n := if s.refs[n] == 0 then Joining(t) else Pending])
    case TryGet(_) => g
    case Go(t) =>
      match s.pcs[t]
      case SwingHead(h, _) =>
        if s.head == h && g.chain != [] then Aux(g.chain[1..], g.status[h := Leaving(t)]) else g
      case Won(h) => g.(status := g.status[h := Held])
      case Lost(h, _) => if s.refs[h] == SHOULD + 1 then g.(status := g.status[h := Joining(t)]) else g
      case LinkHead(n, h, _) => if s.head == h then Aux([n] + g.chain, g.status[n := Listed]) else g
      case LinkUndo(n, _, _) => if s.refs[n] == 1 then g else g.(status := g.status[n := Pending])
      case _ => g
  }

  // ---------- preservation ----------

  ghost predicate About(pc: Pc, n: int) {
    pc.Ref() in {NIL, n} && pc.Linking() in {NIL, n}
  }

  /** A step of thread t that concerns node n only (no node when n is NIL). */
  ghost predicate Local(s: State, g: Aux, s': State, g': Aux, t: nat, n: int) {
    && |s'.refs| == |s.refs| == |s'.next| == |s.next| == |g.status| == |g'.status|
    && t < |s.pcs| == |s'.pcs| && s'.pcs == s.pcs[t := s'.pcs[t]]
    && About(s.pcs[t], n) && About(s'.pcs[t], n)
    && (forall m :: s.Node(m) && m != n ==>
          && s'.refs[m] == s.refs[m] && s'.next[m] == s.next[m] && g'.status[m] == g.status[m]
          && (m in s'.held <==> m in s.held) && (m in g'.chain <==> m in g.chain))
    && (forall m :: m in s'.held ==> s.Node(m))
    && (s.Node(n) ==>
          && (s'.next[n] == s.next[n] || (Count(s.pcs, n) == 0 && g.status[n] == Joining(t) && s.Ptr(s'.next[n])))
          && (g'.status[n] == g.status[n] || Frees(g.status[n], t)))
  }

  /** No thread but t relies on this status. */
  ghost predicate Frees(st: Status, t: nat) {
    match st
    case Leaving(u) => u == t
    case Joining(u) => u == t
    case _ => true
  }

  lemma OtherThreads(s: State, g: Aux, s': State, g': Aux, t: nat, n: int, u: nat)
    requires Inv(s, g) && Local(s, g, s', g', t, n) && u < |s.pcs| && u != t
    ensures ThreadOk(s', g', u)
  {
    assert ThreadOk(s, g, u);
    assert s'.pcs[u] == s.pcs[u];
    Counted(s.pcs, n);
  }

  lemma OtherNodes(s: State, g: Aux, s': State, g': Aux, t: nat, n: int, m: int)
    requires Inv(s, g) && Local(s, g, s', g', t, n) && s.Node(m) && m != n
    ensures NodeOk(s', g', m)
  {
    assert NodeOk(s, g, m);
    CountUpdate(s.pcs, t, s'.pcs[t], m);
  }

  /** It is enough to look at the thread that moved and the node it touched. */
  lemma LocalKeeps(s: State, g: Aux, s': State, g': Aux, t: nat, n: int)
    requires Inv(s, g) && Local(s, g, s', g', t, n)
    requires Chained(s'.head, s'.next, g'.chain)
    requires s.Node(n) ==> NodeOk(s', g', n)
    requires ThreadOk(s', g', t)
    ensures Inv(s', g')
  {
    forall u | 0 <= u < |s'.pcs|
      ensures ThreadOk(s', g', u)
    {
      if u != t {
        OtherThreads(s, g, s', g', t, n, u);
      }
    }
    forall m | s'.Node(m)
      ensures NodeOk(s', g', m)
    {
      if m != n {
        OtherNodes(s, g, s', g', t, n, m);
      }
    }
    hide NodeOk, ThreadOk, Chained;
  }

  lemma HeadIsNode(s: State, g: Aux)
    requires Inv(s, g)
    ensures s.Ptr(s.head)
    ensures g.chain != [] ==> s.head == g.chain[0] && s.head in g.chain
  {
  }

  lemma AddKeeps(s: State, g: Aux, t: nat, n: int)
    requires Inv(s, g) && Enabled(s, Add(t, n))
    ensures Inv(Step(s, Add(t, n)), Track(s, g, Add(t, n)))
  {
    hide Chained;
    var s', g' := Step(s, Add(t, n)), Track(s, g, Add(t, n));
    assert NodeOk(s, g, n) && ThreadOk(s, g, t);
    CountUpdate(s.pcs, t, s'.pcs[t], n);
    LocalKeeps(s, g, s', g', t, n);
  }

  lemma CallKeeps(s: State, g: Aux, t: nat)
    requires Inv(s, g) && Enabled(s, TryGet(t))
    ensures Inv(Step(s, TryGet(t)), Track(s, g, TryGet(t)))
  {
    hide Chained;
    var s' := Step(s, TryGet(t));
    assert ThreadOk(s, g, t);
    LocalKeeps(s, g, s', g, t, NIL);
  }

  lemma LookKeeps(s: State, g: Aux, t: nat)
    requires Inv(s, g) && Enabled(s, Go(t))
    requires var pc := s.pcs[t]; pc.LoadHead? || pc.LoadRefs?
    ensures Safe(s, Go(t)) && Inv(Step(s, Go(t)), Track(s, g, Go(t)))
  {
    hide Chained;
    HeadIsNode(s, g);
    assert ThreadOk(s, g, t);
    var s', pc := Step(s, Go(t)), s.pcs[t];
    LocalKeeps(s, g, s', g, t, NIL);
  }

  lemma RaiseKeeps(s: State, g: Aux, t: nat)
    requires Inv(s, g) && Enabled(s, Go(t)) && s.pcs[t].RaiseRefs?
    ensures Safe(s, Go(t)) && Inv(Step(s, Go(t)), Track(s, g, Go(t)))
  {
    hide Chained;
    assert ThreadOk(s, g, t);
    var s', h := Step(s, Go(t)), s.pcs[t].h;
    CountUpdate(s.pcs, t, s'.pcs[t], h);
    assert NodeOk(s, g, h);
    LocalKeeps(s, g, s', g, t, h);
  }

  lemma LoadNextKeeps(s: State, g: Aux, t: nat)
    requires Inv(s, g) && Enabled(s, Go(t)) && s.pcs[t].LoadNext?
    ensures Safe(s, Go(t)) && Inv(Step(s, Go(t)), Track(s, g, Go(t)))
  {
    hide Chained;
    assert ThreadOk(s, g, t);
    var s', h := Step(s, Go(t)), s.pcs[t].h;
    CountUpdate(s.pcs, t, s'.pcs[t], h);
    assert NodeOk(s, g, h);
    LocalKeeps(s, g, s', g, t, h);
  }

  lemma ChainPop(head: int, next: seq<int>, chain: seq<int>)
    requires Chained(head, next, chain) && head != NIL
    ensures 0 <= head < |next| && chain != [] && chain[0] == head && Chained(next[head], next, chain[1..])
    ensures forall m :: m in chain <==> m == head || m in chain[1..]
    ensures head !in chain[1..]
  {
    var rest := chain[1..];
    assert chain == [head] + rest;
    assert forall i :: 0 <= i < |rest| ==> rest[i] == chain[i + 1] && rest[i] != chain[0];
    assert next[chain[0]] == Follower(chain, 0);
    forall i | 0 <= i < |rest|
      ensures next[rest[i]] == Follower(rest, i)
    {
      assert next[chain[i + 1]] == Follower(chain, i + 1);
    }
  }

  lemma ChainPush(head: int, next: seq<int>, chain: seq<int>, n: int)
    requires Chained(head, next, chain) && n !in chain && 0 <= n < |next| && next[n] == head
    ensures Chained(n, next, [n] + chain)
    ensures forall m :: m in [n] + chain <==> m == n || m in chain
  {
    var c := [n] + chain;
    assert forall i :: 0 < i < |c| ==> c[i] == chain[i - 1] && c[i] != n;
    forall i | 0 <= i < |c|
      ensures next[c[i]] == Follower(c, i)
    {
      assert i > 0 ==> next[chain[i - 1]] == Follower(chain, i - 1);
    }
  }

  lemma ChainStore(head: int, next: seq<int>, chain: seq<int>, n: int, p: int)
    requires Chained(head, next, chain) && n !in chain && 0 <= n < |next|
    ensures Chained(head, next[n := p], chain)
  {
  }

  lemma SwingKeeps(s: State, g: Aux, t: nat)
    requires Inv(s, g) && Enabled(s, Go(t)) && s.pcs[t].SwingHead?
    ensures Safe(s, Go(t)) && Inv(Step(s, Go(t)), Track(s, g, Go(t)))
  {
    hide Chained;
    HeadIsNode(s, g);
    assert ThreadOk(s, g, t);
    var s', g', h := Step(s, Go(t)), Track(s, g, Go(t)), s.pcs[t].h;
    CountUpdate(s.pcs, t, s'.pcs[t], h);
    assert NodeOk(s, g, h);
    if s.head == h {
      ChainPop(s.head, s.next, g.chain);
      assert h in g.chain;
    }
    LocalKeeps(s, g, s', g', t, h);
  }

  lemma WonKeeps(s: State, g: Aux, t: nat)
    requires Inv(s, g) && Enabled(s, Go(t)) && s.pcs[t].Won?
    ensures Safe(s, Go(t)) && Inv(Step(s, Go(t)), Track(s, g, Go(t)))
  {
    hide Chained;
    assert ThreadOk(s, g, t);
    var s', g', h := Step(s, Go(t)), Track(s, g, Go(t)), s.pcs[t].h;
    CountUpdate(s.pcs, t, s'.pcs[t], h);
    Counted(s.pcs, h);
    assert s.pcs[t].Ref() == h;
    assert NodeOk(s, g, h);
    LocalKeeps(s, g, s', g', t, h);
  }

  lemma LostKeeps(s: State, g: Aux, t: nat)
    requires Inv(s, g) && Enabled(s, Go(t)) && s.pcs[t].Lost?
    ensures Safe(s, Go(t)) && Inv(Step(s, Go(t)), Track(s, g, Go(t)))
  {
    hide Chained;
    assert ThreadOk(s, g, t);
    var s', g', h := Step(s, Go(t)), Track(s, g, Go(t)), s.pcs[t].h;
    CountUpdate(s.pcs, t, s'.pcs[t], h);
    Counted(s.pcs, h);
    assert s.pcs[t].Ref() == h;
    assert NodeOk(s, g, h);
    LocalKeeps(s, g, s', g', t, h);
  }

  lemma LinkStoreKeeps(s: State, g: Aux, t: nat)
    requires Inv(s, g) && Enabled(s, Go(t)) && s.pcs[t].Alone()
    ensures Safe(s, Go(t)) && Inv(Step(s, Go(t)), Track(s, g, Go(t)))
  {
    hide Chained;
    HeadIsNode(s, g);
    assert ThreadOk(s, g, t);
    var s', n := Step(s, Go(t)), s.pcs[t].Linking();
    CountUpdate(s.pcs, t, s'.pcs[t], n);
    assert NodeOk(s, g, n);
    if s.pcs[t].LinkNext? {
      ChainStore(s.head, s.next, g.chain, n, s.pcs[t].head);
    }
    LocalKeeps(s, g, s', g, t, n);
  }

  lemma LinkHeadKeeps(s: State, g: Aux, t: nat)
    requires Inv(s, g) && Enabled(s, Go(t)) && s.pcs[t].LinkHead?
    ensures Safe(s, Go(t)) && Inv(Step(s, Go(t)), Track(s, g, Go(t)))
  {
    hide Chained;
    HeadIsNode(s, g);
    assert ThreadOk(s, g, t);
    var s', g', n := Step(s, Go(t)), Track(s, g, Go(t)), s.pcs[t].node;
    CountUpdate(s.pcs, t, s'.pcs[t], n);
    assert NodeOk(s, g, n);
    if s.head == s.pcs[t].head {
      ChainPush(s.head, s.next, g.chain, n);
    }
    LocalKeeps(s, g, s', g', t, n);
  }

  lemma LinkUndoKeeps(s: State, g: Aux, t: nat)
    requires Inv(s, g) && Enabled(s, Go(t)) && s.pcs[t].LinkUndo?
    ensures Safe(s, Go(t)) && Inv(Step(s, Go(t)), Track(s, g, Go(t)))
  {
    hide Chained;
    assert ThreadOk(s, g, t);
    var s', g', n := Step(s, Go(t)), Track(s, g, Go(t)), s.pcs[t].node;
    CountUpdate(s.pcs, t, s'.pcs[t], n);
    assert NodeOk(s, g, n);
    LocalKeeps(s, g, s', g', t, n);
  }

  lemma StepKeeps(s: State, g: Aux, a: Action)
    requires Inv(s, g) && Enabled(s, a)
    ensures Safe(s, a) && Inv(Step(s, a), Track(s, g, a))
  {
    hide Inv, Step, Track;
    match a
    case Add(t, n) => AddKeeps(s, g, t, n);
    case TryGet(t) => CallKeeps(s, g, t);
    case Go(t) =>
      match s.pcs[t] {
        case LoadHead => LookKeeps(s, g, t);
        case LoadRefs(_) => LookKeeps(s, g, t);
        case RaiseRefs(_, _) => RaiseKeeps(s, g, t);
        case LoadNext(_) => LoadNextKeeps(s, g, t);
        case SwingHead(_, _) => SwingKeeps(s, g, t);
        case Won(_) => WonKeeps(s, g, t);
        case Lost(_, _) => LostKeeps(s, g, t);
        case LinkLoad(_, _) => LinkStoreKeeps(s, g, t);
        case LinkNext(_, _, _) => LinkStoreKeeps(s, g, t);
        case LinkRefs(_, _, _) => LinkStoreKeeps(s, g, t);
        case LinkHead(_, _, _) => LinkHeadKeeps(s, g, t);
        case LinkUndo(_, _, _) => LinkUndoKeeps(s, g, t);
      }
  }

  // ---------- whole runs ----------

  /** One step of a run. An access through a bad pointer would be undefined; AccessesSafe shows there is none. */
  function Take(s: State, a: Action): State {
    if s.Shaped() && Enabled(s, a) && Safe(s, a) then Step(s, a) else s
  }

  ghost predicate Start(s: State) {
    && s.Shaped() && s.head == NIL
    && (forall n :: s.Node(n) ==> s.refs[n] == 0 && s.next[n] == NIL && n in s.held)
    && (forall t :: 0 <= t < |s.pcs| ==> s.pcs[t] == Idle)
  }

  /** A run from the start: any number of threads below 2^31 - 1, any schedule, any calls of add on nodes held. */
  ghost predicate Execution(trace: seq<State>, acts: seq<Action>) {
    && |trace| == |acts| + 1 && Start(trace[0])
    && forall i :: 0 <= i < |acts| ==> Enabled(trace[i], acts[i]) && trace[i + 1] == Take(trace[i], acts[i])
  }

  lemma {:induction false} IdleCount(pcs: seq<Pc>, n: int)
    requires forall t :: 0 <= t < |pcs| ==> pcs[t] == Idle
    requires n != NIL
    ensures Count(pcs, n) == 0
  {
    Counted(pcs, n);
  }

  lemma {:induction false} ExecutionInv(trace: seq<State>, acts: seq<Action>, i: nat) returns (g: Aux)
    requires Execution(trace, acts) && i < |trace|
    ensures Inv(trace[i], g)
    decreases i
  {
    if i == 0 {
      var s := trace[0];
      g := Aux([], seq(|s.refs|, _ => Held));
      forall n | s.Node(n) ensures Count(s.pcs, n) == 0 {
        IdleCount(s.pcs, n);
      }
    } else {
      hide Inv, Step, Start;
      g := ExecutionInv(trace, acts, i - 1);
      var s, a := trace[i - 1], acts[i - 1];
      StepKeeps(s, g, a);
      InvShaped(s, g);
      g := Track(s, g, a);
    }
  }

  lemma InvShaped(s: State, g: Aux)
    requires Inv(s, g)
    ensures s.Shaped() && |g.status| == |s.refs|
  {
  }

  /** Every step of every run reads and writes through pointers to nodes only. */
  lemma AccessesSafe(trace: seq<State>, acts: seq<Action>, i: nat)
    requires Execution(trace, acts) && i < |acts|
    ensures trace[i].Shaped() && Safe(trace[i], acts[i]) && trace[i + 1] == Step(trace[i], acts[i])
  {
    hide Inv, Step, Start;
    var g := ExecutionInv(trace, acts, i);
    StepKeeps(trace[i], g, acts[i]);
    InvShaped(trace[i], g);
  }

  /**
   At every moment the head leads through distinct nodes to null, no node a caller
   has is among them, and every other node is being returned, or has a thread that
   is linking it, or has the should-be-on-list bit and a thread whose reference
   keeps it so: no node added is lost.
   */
  lemma ListSound(trace: seq<State>, acts: seq<Action>, i: nat) returns (chain: seq<int>)
    requires Execution(trace, acts) && i < |trace|
    ensures var s := trace[i];
            && Chained(s.head, s.next, chain)
            && (forall n :: n in chain ==> n !in s.held)
            && (forall n :: s.Node(n) && n !in chain && n !in s.held ==> Responsible(s, n))
  {
    var g := ExecutionInv(trace, acts, i);
    var s := trace[i];
    chain := g.chain;
    forall n | s.Node(n)
      ensures n in chain ==> n !in s.held
      ensures n !in chain && n !in s.held ==> Responsible(s, n)
    {
      assert NodeOk(s, g, n);
      Counted(s.pcs, n);
    }
  }

  ghost predicate Responsible(s: State, n: int)
    requires s.Node(n)
  {
    exists t :: 0 <= t < |s.pcs| &&
      (s.pcs[t] == Won(n) || s.pcs[t].Linking() == n || (s.pcs[t].Ref() == n && s.refs[n] > SHOULD))
  }

  /**
   A thread whose swing of the head has succeeded owns its node alone: the
   assertion in try_get holds (the bit is clear), nobody has the node or is
   returning or linking it, it is off the list, and its count is exact.
   */
  lemma WinnerOwns(trace: seq<State>, acts: seq<Action>, i: nat, t: nat) returns (chain: seq<int>)
    requires Execution(trace, acts) && i < |trace| && t < |trace[i].pcs| && trace[i].pcs[t].Won?
    ensures var s, h := trace[i], trace[i].pcs[t].h;
            && s.Node(h) && 2 <= s.refs[h] < SHOULD && h !in s.held
            && Chained(s.head, s.next, chain) && h !in chain
            && forall u :: 0 <= u < |s.pcs| && u != t ==> s.pcs[u] != Won(h) && s.pcs[u].Linking() != h
  {
    var g := ExecutionInv(trace, acts, i);
    var s, h := trace[i], trace[i].pcs[t].h;
    chain := g.chain;
    assert ThreadOk(s, g, t) && NodeOk(s, g, h);
    Counted(s.pcs, h);
    assert s.pcs[t].Ref() == h;
    forall u | 0 <= u < |s.pcs| && u != t
      ensures s.pcs[u] != Won(h) && s.pcs[u].Linking() != h
    {
      assert ThreadOk(s, g, u);
    }
  }

  /**
   No stale successor: when the swing succeeds, the value written to the head is
   the successor of the node taken, however often that node has left the list and
   come back since its next pointer was read.
   */
  lemma SwingSound(trace: seq<State>, acts: seq<Action>, i: nat, t: nat) returns (chain: seq<int>)
    requires Execution(trace, acts) && i < |acts| && acts[i] == Go(t)
    requires t < |trace[i].pcs| && trace[i].pcs[t].SwingHead? && trace[i].head == trace[i].pcs[t].h
    ensures chain != [] && Chained(trace[i].head, trace[i].next, chain)
    ensures trace[i + 1].head == trace[i].next[chain[0]]
    ensures trace[i + 1].next == trace[i].next && Chained(trace[i + 1].head, trace[i + 1].next, chain[1..])
  {
    var g := ExecutionInv(trace, acts, i);
    AccessesSafe(trace, acts, i);
    chain := g.chain;
    var s := trace[i];
    assert ThreadOk(s, g, t);
    hide Chained;
    ChainPop(s.head, s.next, chain);
  }

  /** When no thread is inside the list, every node is on it or with a caller, and the counts say which. */
  lemma QuietList(trace: seq<State>, acts: seq<Action>, i: nat) returns (chain: seq<int>)
    requires Execution(trace, acts) && i < |trace|
    requires forall t :: 0 <= t < |trace[i].pcs| ==> trace[i].pcs[t] == Idle
    ensures var s := trace[i];
            && Chained(s.head, s.next, chain)
            && forall n :: s.Node(n) ==>
                 if n in s.held then n !in chain && s.refs[n] == 0 else n in chain && s.refs[n] == 1
  {
    var g := ExecutionInv(trace, acts, i);
    var s := trace[i];
    chain := g.chain;
    forall n | s.Node(n)
      ensures if n in s.held then n !in chain && s.refs[n] == 0 else n in chain && s.refs[n] == 1
    {
      assert NodeOk(s, g, n);
      IdleCount(s.pcs, n);
    }
  }

  /** Step i of a run is the return of node n by a try_get. */
  ghost predicate Returns(trace: seq<State>, acts: seq<Action>, i: nat, n: int)
    requires |trace| == |acts| + 1 && i < |acts|
  {
    acts[i].Go? && acts[i].t < |trace[i].pcs| && trace[i].pcs[acts[i].t] == Won(n)
  }

  /** A node returned twice has been added in between: no two owners at once, over any run. */
  lemma {:induction false} ReturnsAlternate(trace: seq<State>, acts: seq<Action>, i: nat, j: nat, n: int)
    requires Execution(trace, acts) && i < j < |acts|
    requires Returns(trace, acts, i, n) && Returns(trace, acts, j, n)
    ensures exists k :: i < k < j && acts[k].Add? && acts[k].node == n
  {
    hide Start;
    AccessesSafe(trace, acts, i);
    assert n in trace[i + 1].held;
    var k := i + 1;
    while k < j && !(acts[k].Add? && acts[k].node == n)
      invariant i < k <= j && n in trace[k].held
    {
      AccessesSafe(trace, acts, k);
      k := k + 1;
    }
    if k == j {
      var chain := WinnerOwns(trace, acts, j, acts[j].t);
    }
  }
}
