/** Condition variables (threads/synch.c): one lock, several conditions, and every interleaving of the steps of
    cond_wait with signals and broadcasts. */
module MonitorState {
  import opened Basics

  type Tid = nat

  /** Enqueued: cond_wait before its lock_release. Released: after it, up to the end of its sema_down.
      Woken: before its lock_acquire. */
  datatype Pc = Outside | Inside | Enqueued(c: nat) | Released(c: nat) | Woken

  /** queues: the waiters of each condition; semas: the private semaphore of each thread's wait. */
  datatype State = State(pcs: map<Tid, Pc>, queues: seq<seq<Tid>>, semas: map<Tid, nat>, holder: Option<Tid>)

  predicate WaitsOn(pc: Pc, c: nat) { pc == Enqueued(c) || pc == Released(c) }

  predicate Holds(pc: Pc) { pc.Inside? || pc.Enqueued? }

  /** Threads inside, and only they, hold the lock, so there is at most one. A thread that waits is on the list with its
      semaphore down, or off it with its semaphore up. */
  ghost predicate ThreadOk(st: State, t: Tid)
    requires t in st.pcs
  {
    && t in st.semas && (Holds(st.pcs[t]) <==> st.holder == Some(t))
    && match st.pcs[t]
       case Enqueued(c) => c < |st.queues| && t in st.queues[c] && st.semas[t] == 0
       case Released(c) => c < |st.queues| && st.semas[t] == if t in st.queues[c] then 0 else 1
       case _ => st.semas[t] == 0
  }

  ghost predicate QueueOk(st: State, c: nat)
    requires c < |st.queues|
  {
    Distinct(st.queues[c]) && forall t :: t in st.queues[c] ==> t in st.pcs && WaitsOn(st.pcs[t], c)
  }

  ghost predicate Inv(st: State) {
    && (forall t | t in st.pcs :: ThreadOk(st, t)) && (forall c: nat | c < |st.queues| :: QueueOk(st, c))
    && (st.holder.Some? ==> st.holder.value in st.pcs)
  }

  /** cond_signal. */
  function Signalled(st: State, c: nat): State
    requires c < |st.queues| && (st.queues[c] != [] ==> st.queues[c][0] in st.semas)
  {
    if st.queues[c] == [] then st else
      var t := st.queues[c][0];
      st.(queues := st.queues[c := st.queues[c][1..]], semas := st.semas[t := st.semas[t] + 1])
  }

  /** cond_broadcast: everyone on the list. */
  ghost function Broadcast(st: State, c: nat): State
    requires c < |st.queues|
  {
    st.(queues := st.queues[c := []],
        semas := map t | t in st.semas :: if t in st.queues[c] then st.semas[t] + 1 else st.semas[t])
  }

  datatype Op =
    | Enter(t: Tid)
    | Leave(t: Tid)
    | Wait(t: Tid, c: nat)
    | Release(t: Tid)
    | Down(t: Tid)
    | Reacquire(t: Tid)
    | SignalOp(t: Tid, c: nat)
    | BroadcastOp(t: Tid, c: nat)

  /** The thread is at that step, and it does not block there. A sema_down of 0 is a step that changes nothing. */
  predicate LegalStep(st: State, op: Op) {
    op.t in st.pcs && op.t in st.semas && match op
      case Enter(t) => st.pcs[t] == Outside && st.holder.None?
      case Leave(t) => st.pcs[t] == Inside
      case Wait(t, c) => st.pcs[t] == Inside && c < |st.queues|
      case Release(t) => st.pcs[t].Enqueued?
      case Down(t) => st.pcs[t].Released?
      case Reacquire(t) => st.pcs[t] == Woken && st.holder.None?
      case SignalOp(t, c) => st.pcs[t] == Inside && c < |st.queues|
      case BroadcastOp(t, c) => c < |st.queues| && (st.pcs[t] == Inside || st.queues[c] == [])
  }

  function At(st: State, t: Tid, pc: Pc): State { st.(pcs := st.pcs[t := pc]) }

  ghost predicate Next(st: State, op: Op, n: State) {
    LegalStep(st, op) && match op
      case Enter(t) => n == At(st, t, Inside).(holder := Some(t))
      case Leave(t) => n == At(st, t, Outside).(holder := None)
      case Wait(t, c) => n == At(st, t, Enqueued(c)).(queues := st.queues[c := st.queues[c] + [t]])
      case Release(t) => n == At(st, t, Released(st.pcs[t].c)).(holder := None)
      case Down(t) => n == if st.semas[t] == 0 then st else At(st, t, Woken).(semas := st.semas[t := st.semas[t] - 1])
      case Reacquire(t) => n == At(st, t, Inside).(holder := Some(t))
      case SignalOp(_, c) => (st.queues[c] != [] ==> st.queues[c][0] in st.semas) && n == Signalled(st, c)
      case BroadcastOp(_, c) => n == Broadcast(st, c)
  }

  lemma SignalKeeps(st: State, c: nat)
    requires Inv(st) && c < |st.queues| && st.holder.Some?
    requires st.holder.value in st.pcs && st.pcs[st.holder.value] == Inside
    ensures st.queues[c] != [] ==> st.queues[c][0] in st.semas
    ensures Inv(Signalled(st, c)) && Signalled(st, c).pcs == st.pcs && Signalled(st, c).holder == st.holder
  {
    assert QueueOk(st, c);
    if st.queues[c] != [] {
      var t, q := st.queues[c][0], st.queues[c][1..];
      assert ThreadOk(st, t) && t in st.pcs && WaitsOn(st.pcs[t], c);
      var n := Signalled(st, c);
      assert forall u :: u in st.queues[c] <==> u == t || u in q;
      assert t !in q;
      forall u | u in n.pcs
        ensures ThreadOk(n, u)
      {
        assert ThreadOk(st, u);
      }
      forall d: nat | d < |n.queues|
        ensures QueueOk(n, d)
      {
        assert QueueOk(st, d);
      }
    }
  }

  /** One thread goes on, without a change of the lists. */
  lemma MoveKeeps(st: State, t: Tid, n: State)
    requires Inv(st) && t in st.pcs && t in n.pcs && n.pcs == st.pcs[t := n.pcs[t]] && n.queues == st.queues
    requires t in n.semas && n.semas == st.semas[t := n.semas[t]] && ThreadOk(n, t)
    requires forall u :: u != t ==> (n.holder == Some(u) <==> st.holder == Some(u))
    requires forall c: nat :: c < |st.queues| && t in st.queues[c] ==> WaitsOn(n.pcs[t], c)
    ensures Inv(n)
  {
    forall u | u in n.pcs
      ensures ThreadOk(n, u)
    {
      assert u != t ==> ThreadOk(st, u);
    }
    forall d: nat | d < |n.queues|
      ensures QueueOk(n, d)
    {
      assert QueueOk(st, d);
    }
    assert n.holder.Some? ==> n.holder.value in n.pcs;
  }

  /** A thread is at most on the list of the condition it waits on. */
  lemma OnlyItsList(st: State, t: Tid)
    requires Inv(st) && t in st.pcs
    ensures forall c: nat :: c < |st.queues| && t in st.queues[c] ==> WaitsOn(st.pcs[t], c)
  {
    forall c: nat | c < |st.queues| && t in st.queues[c]
      ensures WaitsOn(st.pcs[t], c)
    {
      assert QueueOk(st, c);
    }
  }

  lemma StepKeeps(st: State, op: Op, n: State)
    requires Inv(st) && Next(st, op, n)
    ensures Inv(n)
  {
    var t := op.t;
    assert ThreadOk(st, t);
    OnlyItsList(st, t);
    hide Inv;
    match op {
      case SignalOp(_, c) => SignalKeeps(st, c);
      case BroadcastOp(_, c) => BroadcastKeeps(st, t, c);
      case Wait(_, c) => WaitKeeps(st, t, c);
      case Down(_) =>
        if st.semas[t] > 0 {
          MoveKeeps(st, t, n);
        }
      case _ =>
        assert st.semas == st.semas[t := st.semas[t]];
        MoveKeeps(st, t, n);
    }
  }

  lemma WaitKeeps(st: State, t: Tid, c: nat)
    requires Inv(st) && t in st.pcs && st.pcs[t] == Inside && c < |st.queues|
    ensures Inv(At(st, t, Enqueued(c)).(queues := st.queues[c := st.queues[c] + [t]]))
  {
    var n := At(st, t, Enqueued(c)).(queues := st.queues[c := st.queues[c] + [t]]);
    forall d: nat | d < |n.queues|
      ensures QueueOk(n, d) && (d < |st.queues| ==> t !in st.queues[d])
    {
      assert QueueOk(st, d);
      assert t !in st.queues[d];
    }
    forall u | u in n.pcs
      ensures ThreadOk(n, u)
    {
      assert ThreadOk(st, u);
    }
  }

  lemma BroadcastKeeps(st: State, t: Tid, c: nat)
    requires Inv(st) && t in st.pcs && c < |st.queues| && (st.pcs[t] == Inside || st.queues[c] == [])
    ensures Inv(Broadcast(st, c))
  {
    var n := Broadcast(st, c);
    assert QueueOk(st, c) && ThreadOk(st, t);
    forall u | u in n.pcs
      ensures ThreadOk(n, u)
    {
      assert ThreadOk(st, u);
    }
    forall d: nat | d < |n.queues|
      ensures QueueOk(n, d)
    {
      assert QueueOk(st, d);
    }
  }

  // ----- Whole runs -----

  ghost predicate IsTrace(states: seq<State>, ops: seq<Op>) {
    && 0 < |states| <= |ops| + 1
    && (forall i :: 0 <= i < |states| ==> Inv(states[i]))
    && (forall i :: 0 <= i < |states| - 1 ==> Next(states[i], ops[i], states[i + 1]))
  }

  /** The step takes t off the list of its condition. */
  predicate Wakes(st: State, op: Op, t: Tid) {
    match op
    case SignalOp(_, c) => c < |st.queues| && st.queues[c] != [] && st.queues[c][0] == t
    case BroadcastOp(_, c) => c < |st.queues| && t in st.queues[c]
    case _ => false
  }

  /** While t waits, its semaphore goes up exactly at the step that wakes it. */
  lemma StepWakes(st: State, op: Op, n: State, t: Tid, c: nat)
    requires Inv(st) && Inv(n) && Next(st, op, n)
    requires t in st.pcs && WaitsOn(st.pcs[t], c) && t in n.pcs && WaitsOn(n.pcs[t], c)
    ensures t in st.semas && t in n.semas && n.semas[t] == st.semas[t] + if Wakes(st, op, t) then 1 else 0
    ensures Wakes(st, op, t) ==> st.semas[t] == 0
  {
    assert ThreadOk(st, t) && ThreadOk(n, t);
    if op.SignalOp? || op.BroadcastOp? {
      assert QueueOk(st, op.c);
    }
  }

  ghost predicate WaitsFrom(states: seq<State>, t: Tid, c: nat, i: nat, k: nat)
    requires k < |states|
  {
    forall m :: i < m <= k ==> t in states[m].pcs && WaitsOn(states[m].pcs[t], c)
  }

  ghost predicate WokenBetween(states: seq<State>, ops: seq<Op>, t: Tid, i: nat, k: nat)
    requires k < |states| <= |ops| + 1
  {
    exists j :: i < j < k && Wakes(states[j], ops[j], t)
  }

  /** No signal is lost and none is made up: t, which called cond_wait at step i and has not come back, gets past
      its sema_down if and only if it was signalled since, whether or not it had already blocked. */
  lemma {:induction false} PassesIffSignalled(states: seq<State>, ops: seq<Op>, t: Tid, c: nat, i: nat, k: nat)
    requires IsTrace(states, ops) && i < k < |states| && ops[i] == Wait(t, c) && WaitsFrom(states, t, c, i, k)
    ensures t in states[k].semas && states[k].semas[t] == if WokenBetween(states, ops, t, i, k) then 1 else 0
  {
    hide *;
    TraceStep(states, ops, k - 1);
    Waiting(states, t, c, i, k);
    WokenNext(states, ops, t, i, k);
    if k == i + 1 {
      StartsDown(states[i], states[k], t, c);
    } else {
      PassesIffSignalled(states, ops, t, c, i, k - 1);
      StepWakes(states[k - 1], ops[k - 1], states[k], t, c);
    }
  }

  lemma TraceStep(states: seq<State>, ops: seq<Op>, i: nat)
    requires IsTrace(states, ops) && i + 1 < |states|
    ensures |states| <= |ops| + 1 && Inv(states[i]) && Inv(states[i + 1]) && Next(states[i], ops[i], states[i + 1])
  {
  }

  lemma Waiting(states: seq<State>, t: Tid, c: nat, i: nat, k: nat)
    requires i < k < |states| && WaitsFrom(states, t, c, i, k)
    ensures t in states[k].pcs && WaitsOn(states[k].pcs[t], c) && WaitsFrom(states, t, c, i, k - 1)
    ensures i < k - 1 ==> t in states[k - 1].pcs && WaitsOn(states[k - 1].pcs[t], c)
  {
  }

  lemma WokenNext(states: seq<State>, ops: seq<Op>, t: Tid, i: nat, k: nat)
    requires i < k < |states| <= |ops| + 1
    ensures WokenBetween(states, ops, t, i, k) <==>
      WokenBetween(states, ops, t, i, k - 1) || (i < k - 1 && Wakes(states[k - 1], ops[k - 1], t))
    ensures i == k - 1 ==> !WokenBetween(states, ops, t, i, k)
  {
  }

  lemma StartsDown(st: State, n: State, t: Tid, c: nat)
    requires Inv(n) && Next(st, Wait(t, c), n)
    ensures t in n.semas && n.semas[t] == 0
  {
    assert ThreadOk(n, t);
  }

  /** Thread t is in cond_wait. */
  ghost predicate InWait(st: State, t: Tid, c: nat) {
    t in st.pcs && (st.pcs[t] == Enqueued(c) || st.pcs[t] == Released(c) || st.pcs[t] == Woken)
  }

  ghost predicate Back(st: State, t: Tid) { t in st.pcs && st.pcs[t] == Inside && st.holder == Some(t) }

  /** cond_wait goes from the list to the release of the lock, to the sema_down that its signal lets it pass, to the
      lock_acquire with which it is back, holding the lock. */
  lemma StepInWait(st: State, op: Op, n: State, t: Tid, c: nat)
    requires Inv(st) && Next(st, op, n) && InWait(st, t, c)
    ensures WaitsOn(st.pcs[t], c) ==> InWait(n, t, c)
    ensures WaitsOn(st.pcs[t], c) ==> (n.pcs[t] == Woken <==> op == Down(t) && t in st.semas && st.semas[t] > 0)
    ensures st.pcs[t] == Woken ==> if op == Reacquire(t) then Back(n, t) else t in n.pcs && n.pcs[t] == Woken
  {
    hide Inv;
  }

  /** cond_wait returns only after a signal, and with the lock held. */
  lemma {:induction false} WaitReturnsHolding(states: seq<State>, ops: seq<Op>, t: Tid, c: nat, i: nat, k: nat)
    requires IsTrace(states, ops) && i < k < |states| && ops[i] == Wait(t, c)
    requires forall m :: i < m < k ==> InWait(states[m], t, c)
    ensures InWait(states[k], t, c) || Back(states[k], t)
    ensures InWait(states[k], t, c) && WaitsOn(states[k].pcs[t], c) ==> WaitsFrom(states, t, c, i, k)
    ensures (InWait(states[k], t, c) && WaitsOn(states[k].pcs[t], c)) || WokenBetween(states, ops, t, i, k)
  {
    hide IsTrace, Inv, Next, WokenBetween, Wakes;
    TraceStep(states, ops, k - 1);
    if k == i + 1 {
      Enqueues(states[i], states[k], t, c);
    } else {
      WaitReturnsHolding(states, ops, t, c, i, k - 1);
      WokenNext(states, ops, t, i, k);
      StepInWait(states[k - 1], ops[k - 1], states[k], t, c);
      if WaitsOn(states[k - 1].pcs[t], c) {
        PassesIffSignalled(states, ops, t, c, i, k - 1);
      }
    }
  }

  lemma Enqueues(st: State, n: State, t: Tid, c: nat)
    requires Next(st, Wait(t, c), n)
    ensures t in n.pcs && n.pcs[t] == Enqueued(c)
  {
  }

  /** t is ahead of u on a list. */
  ghost predicate Ahead(q: seq<Tid>, t: Tid, u: Tid) {
    exists a, b :: 0 <= a < b < |q| && q[a] == t && q[b] == u
  }

  /** Either t is still ahead of u, or t has been signalled. */
  ghost predicate Order(st: State, c: nat, t: Tid, u: Tid) {
    c < |st.queues| && t in st.semas && (st.semas[t] > 0 || Ahead(st.queues[c], t, u))
  }

  lemma StepOrder(st: State, op: Op, n: State, c: nat, t: Tid, u: Tid)
    requires Inv(st) && Inv(n) && Next(st, op, n) && Order(st, c, t, u) && t != u
    requires t in st.pcs && WaitsOn(st.pcs[t], c) && t in n.pcs && WaitsOn(n.pcs[t], c)
    ensures Order(n, c, t, u)
  {
    StepWakes(st, op, n, t, c);
    if st.semas[t] == 0 && !Wakes(st, op, t) {
      var q := st.queues[c];
      var a, b :| 0 <= a < b < |q| && q[a] == t && q[b] == u;
      if op.SignalOp? && op.c == c {
        assert a > 0;
        assert n.queues[c][a - 1] == t && n.queues[c][b - 1] == u;
      } else if op.Wait? && op.c == c {
        assert n.queues[c][a] == t && n.queues[c][b] == u;
      } else {
        assert n.queues[c] == q;
      }
    }
  }

  /** First come, first signalled, whatever the priorities: while t and u wait on c, t ahead of u, u is not signalled
      unless t has been. */
  lemma {:induction false} Fifo(states: seq<State>, ops: seq<Op>, c: nat, t: Tid, u: Tid, i: nat, k: nat)
    requires IsTrace(states, ops) && i <= k < |states| && t != u
    requires c < |states[i].queues| && Ahead(states[i].queues[c], t, u)
    requires forall m :: i <= m <= k ==>
      t in states[m].pcs && WaitsOn(states[m].pcs[t], c) && u in states[m].pcs && WaitsOn(states[m].pcs[u], c)
    ensures Order(states[k], c, t, u) && u in states[k].semas
    ensures states[k].semas[u] > 0 ==> states[k].semas[t] > 0
  {
    assert Inv(states[k]) && ThreadOk(states[k], t) && ThreadOk(states[k], u);
    if i == k {
      var q := states[k].queues[c];
      var a, b :| 0 <= a < b < |q| && q[a] == t && q[b] == u;
      assert t in q && u in q;
    } else {
      hide Next, Wakes;
      Fifo(states, ops, c, t, u, i, k - 1);
      StepOrder(states[k - 1], ops[k - 1], states[k], c, t, u);
    }
  }
}

module Monitors {
  import opened Basics
  import opened MonitorState

  class Monitor {
    var pcs: map<Tid, Pc>
    var queues: seq<seq<Tid>>
    var semas: map<Tid, nat>
    var holder: Option<Tid>

    function St(): State
      reads this
    {
      State(pcs, queues, semas, holder)
    }

    ghost predicate Valid()
      reads this
    {
      Inv(St())
    }

    /** A lock and conditions nobody uses yet. */
    constructor (threads: set<Tid>, conditions: nat)
      ensures Valid() && pcs.Keys == threads && |queues| == conditions && holder == None
      ensures forall t | t in threads :: pcs[t] == Outside
    {
      pcs := map t | t in threads :: Outside;
      queues := seq(conditions, _ => []);
      semas := map t | t in threads :: 0;
      holder := None;
    }

    /** cond_signal. */
    method Signal(c: nat)
      requires Valid() && c < |queues| && holder.Some? && holder.value in pcs && pcs[holder.value] == Inside
      modifies this`queues, this`semas
      ensures Valid() && (old(queues)[c] != [] ==> old(queues)[c][0] in old(semas)) && St() == Signalled(old(St()), c)
    {
      SignalKeeps(St(), c);
      hide Inv;
      if queues[c] != [] {
        var t := queues[c][0];
        queues := queues[c := queues[c][1..]];
        semas := semas[t := semas[t] + 1];
      }
    }

    /** cond_broadcast: signalling until the list is empty signals everyone on it once. */
    method SignalAll(c: nat)
      requires Valid() && c < |queues|
      requires queues[c] == [] || (holder.Some? && holder.value in pcs && pcs[holder.value] == Inside)
      modifies this`queues, this`semas
      ensures Valid() && St() == Broadcast(old(St()), c)
    {
      ghost var q, i := queues[c], 0;
      assert QueueOk(St(), c) && q[0..] == q;
      hide Inv;
      while queues[c] != []
        invariant Valid() && |queues| == |old(queues)| && queues == old(queues)[c := queues[c]]
        invariant SentTo(q, old(semas), i, queues[c], semas)
        decreases |queues[c]|
      {
        SignalKeeps(St(), c);
        SendNext(q, old(semas), i, queues[c], semas);
        Signal(c);
        i := i + 1;
      }
      assert q[..i] == q;
    }

    static lemma SendNext(q: seq<Tid>, s: map<Tid, nat>, i: nat, rest: seq<Tid>, semas: map<Tid, nat>)
      requires SentTo(q, s, i, rest, semas) && rest != [] && rest[0] in semas
      ensures SentTo(q, s, i + 1, rest[1..], semas[rest[0] := semas[rest[0]] + 1])
    {
      var t := rest[0];
      assert q[i] == t && q[..i + 1] == q[..i] + [t];
      assert t !in q[..i];
    }

    /** The first i of q have been signalled. */
    static ghost predicate SentTo(q: seq<Tid>, s: map<Tid, nat>, i: nat, rest: seq<Tid>, semas: map<Tid, nat>) {
      && i <= |q| && Distinct(q) && rest == q[i..] && semas.Keys == s.Keys
      && forall t | t in s :: semas[t] == if t in q[..i] then s[t] + 1 else s[t]
    }

    method Step(op: Op)
      requires Valid() && LegalStep(St(), op)
      modifies this
      ensures Valid() && Next(old(St()), op, St())
    {
      ghost var st := St();
      assert ThreadOk(st, op.t);
      hide Inv;
      match op {
        case Enter(t) =>
          pcs, holder := pcs[t := Inside], Some(t);
        case Leave(t) =>
          pcs, holder := pcs[t := Outside], None;
        case Wait(t, c) =>
          pcs, queues := pcs[t := Enqueued(c)], queues[c := queues[c] + [t]];
        case Release(t) =>
          pcs, holder := pcs[t := Released(pcs[t].c)], None;
        case Down(t) =>
          if semas[t] > 0 {
            pcs, semas := pcs[t := Woken], semas[t := semas[t] - 1];
          }
        case Reacquire(t) =>
          pcs, holder := pcs[t := Inside], Some(t);
        case SignalOp(t, c) =>
          Signal(c);
        case BroadcastOp(t, c) =>
          SignalAll(c);
      }
      StepKeeps(st, op, St());
    }

    /** Every interleaving, up to a step its thread is not at. */
    method Run(ops: seq<Op>) returns (done: nat, ghost states: seq<State>)
      requires Valid()
      modifies this
      ensures Valid() && done <= |ops| && |states| == done + 1 && states[0] == old(St()) && states[done] == St()
      ensures IsTrace(states, ops)
      ensures done < |ops| ==> !LegalStep(St(), ops[done])
    {
      hide Inv, Next, LegalStep;
      done, states := 0, [St()];
      while done < |ops| && LegalStep(St(), ops[done])
        invariant done <= |ops| && |states| == done + 1 && states[0] == old(St()) && states[done] == St()
        invariant Valid() && IsTrace(states, ops)
      {
        Step(ops[done]);
        states := states + [St()];
        done := done + 1;
      }
    }
  }
}
