/** Threads, their queues and semaphores, between the kernel's interrupts-off sections. */
module ThreadState {
  import opened Basics

  type Tid = nat

  datatype Status = Running | Ready | Blocked

  /** How far a thread is through a lock: past sema_down, recorded as holder, or about to sema_up. */
  datatype Phase = Got | Held | Leaving

  /** waiting: the semaphore whose sema_down loop the thread is in. */
  datatype Thread = Thread(status: Status, priority: int, wake: int, waiting: Option<nat>, locks: map<nat, Phase>)

  /** The thread is not in the middle of another sema_down. */
  predicate MayDown(th: Thread, s: nat) { th.waiting.None? || th.waiting == Some(s) }

  datatype Sema = Sema(value: nat, waiters: seq<Tid>)

  datatype Queue = ReadyQ | SleepQ | WaitQ(sema: nat) | NoQ

  /** holder: the lock holders, for the semaphores that are locks. nextTid: the tid of the next thread. */
  datatype State = State(threads: map<Tid, Thread>, idle: Tid, ready: seq<Tid>, sleeping: seq<Tid>, semas: seq<Sema>,
                         holder: map<nat, Option<Tid>>, nextTid: Tid)

  // ----- Ordered queues -----

  /** Queues are kept in ascending key: priority downward, or wake-up tick upward. */
  function Key(threads: map<Tid, Thread>, q: Queue, t: Tid): int {
    if t !in threads then 0 else if q == SleepQ then threads[t].wake else -threads[t].priority
  }

  ghost predicate Ordered(threads: map<Tid, Thread>, q: Queue, s: seq<Tid>) {
    forall i, j :: 0 <= i < j < |s| ==> Key(threads, q, s[i]) <= Key(threads, q, s[j])
  }

  /** list_insert_ordered: t goes before the first element it is less than, so after its equals. */
  function Inserted(threads: map<Tid, Thread>, q: Queue, s: seq<Tid>, t: Tid): seq<Tid> {
    if s == [] || Key(threads, q, t) < Key(threads, q, s[0]) then [t] + s
    else [s[0]] + Inserted(threads, q, s[1..], t)
  }

  lemma {:induction false} InsertedFacts(threads: map<Tid, Thread>, q: Queue, s: seq<Tid>, t: Tid)
    requires Distinct(s) && Ordered(threads, q, s) && t !in s
    ensures Distinct(Inserted(threads, q, s, t)) && Ordered(threads, q, Inserted(threads, q, s, t))
    ensures forall u :: u in Inserted(threads, q, s, t) <==> u in s || u == t
  {
    if !(s == [] || Key(threads, q, t) < Key(threads, q, s[0])) {
      var r := s[1..];
      assert forall i :: 0 <= i < |r| ==> r[i] == s[i + 1];
      InsertedFacts(threads, q, r, t);
      var n := Inserted(threads, q, r, t);
      assert s[0] !in n;
      forall j | 0 <= j < |n|
        ensures Key(threads, q, s[0]) <= Key(threads, q, n[j])
      {
        assert n[j] in n;
        if n[j] != t {
          var i :| 0 <= i < |r| && r[i] == n[j];
        }
      }
    }
  }

  /** s without its first element. */
  lemma PoppedFacts(threads: map<Tid, Thread>, q: Queue, s: seq<Tid>)
    requires Distinct(s) && Ordered(threads, q, s) && s != []
    ensures Distinct(s[1..]) && Ordered(threads, q, s[1..])
    ensures forall u :: u in s[1..] <==> u in s && u != s[0]
    ensures forall u :: u in s ==> Key(threads, q, s[0]) <= Key(threads, q, u)
  {
    assert s == [s[0]] + s[1..];
  }

  // ----- Queues and threads -----

  /** The one queue a thread belongs on. */
  function QueueOf(st: State, t: Tid): Queue {
    if t !in st.threads || t == st.idle then NoQ
    else match st.threads[t].status
      case Running => NoQ
      case Ready => ReadyQ
      case Blocked => if st.threads[t].waiting.Some? then WaitQ(st.threads[t].waiting.value) else SleepQ
  }

  function List(st: State, q: Queue): seq<Tid> {
    match q
    case ReadyQ => st.ready
    case SleepQ => st.sleeping
    case WaitQ(s) => if s < |st.semas| then st.semas[s].waiters else []
    case NoQ => []
  }

  ghost predicate QueueOk(st: State, q: Queue) {
    && Distinct(List(st, q)) && Ordered(st.threads, q, List(st, q))
    && forall t :: t in List(st, q) <==> QueueOf(st, t) == q && q != NoQ
  }

  /** Every queue is ordered and holds exactly the threads whose state puts them there. */
  ghost predicate Queued(st: State) {
    && st.idle in st.threads && st.threads[st.idle].waiting.None?
    && forall q :: QueueOk(st, q)
  }

  /** Only thread t changes, moving from its old queue to its new one. */
  ghost predicate Moves(st: State, n: State, t: Tid) {
    && n.idle == st.idle && |n.semas| == |st.semas|
    && (forall u | u != t :: u in n.threads <==> u in st.threads)
    && (forall u | u != t && u in st.threads && u in n.threads :: n.threads[u] == st.threads[u])
    && forall q :: ListMoves(st, n, t, q)
  }

  ghost predicate ListMoves(st: State, n: State, t: Tid, q: Queue) {
    var l := List(st, q);
    if QueueOf(st, t) == QueueOf(n, t) || (q != QueueOf(st, t) && q != QueueOf(n, t)) then List(n, q) == l
    else if q == NoQ then true
    else if q == QueueOf(st, t) then l != [] && l[0] == t && List(n, q) == l[1..]
    else List(n, q) == Inserted(n.threads, q, l, t)
  }

  lemma MoveKeeps(st: State, n: State, t: Tid)
    requires Queued(st) && Moves(st, n, t)
    requires QueueOf(st, t) == QueueOf(n, t) ==> QueueOf(n, t) == NoQ
    requires n.idle in n.threads && n.threads[n.idle].waiting.None?
    requires QueueOf(n, t).WaitQ? ==> QueueOf(n, t).sema < |n.semas|
    ensures Queued(n)
  {
    forall q
      ensures QueueOk(n, q)
    {
      assert QueueOk(st, q) && ListMoves(st, n, t, q);
      MoveOne(st, n, t, q);
    }
  }

  lemma MoveOne(st: State, n: State, t: Tid, q: Queue)
    requires QueueOk(st, q) && Moves(st, n, t) && ListMoves(st, n, t, q)
    requires QueueOf(st, t) == QueueOf(n, t) ==> QueueOf(n, t) == NoQ
    requires QueueOf(n, t).WaitQ? ==> QueueOf(n, t).sema < |n.semas|
    ensures QueueOk(n, q)
  {
    var l := List(st, q);
    SameElsewhere(st, n, t, q);
    assert List(n, NoQ) == [];
    assert t in l <==> QueueOf(st, t) == q && q != NoQ;
    hide Moves, QueueOf, List, Ordered, Distinct, Inserted, Key;
    if q != NoQ && q == QueueOf(st, t) {
      PoppedFacts(st.threads, q, l);
      SameKeys(st.threads, n.threads, q, l[1..]);
    } else {
      SameKeys(st.threads, n.threads, q, l);
      if q != NoQ && q == QueueOf(n, t) {
        InsertedFacts(n.threads, q, l, t);
      }
    }
  }

  /** A running thread changes, but not its status: no queue is touched. */
  lemma QuietMoves(st: State, n: State, t: Tid)
    requires Queued(st) && t in st.threads && t in n.threads && n.threads == st.threads[t := n.threads[t]]
    requires n.idle == st.idle && n.ready == st.ready && n.sleeping == st.sleeping && |n.semas| == |st.semas|
    requires forall s :: 0 <= s < |st.semas| ==> n.semas[s].waiters == st.semas[s].waiters
    requires st.threads[t].status == Running == n.threads[t].status
    requires n.threads[t].waiting.None? || n.threads[t].waiting == st.threads[t].waiting
    ensures Queued(n)
  {
    hide QueueOk;
    assert Moves(st, n, t);
    MoveKeeps(st, n, t);
  }

  lemma SameElsewhere(st: State, n: State, t: Tid, q: Queue)
    requires Moves(st, n, t)
    ensures forall u | u != t :: QueueOf(n, u) == QueueOf(st, u) && Key(n.threads, q, u) == Key(st.threads, q, u)
  {
  }

  lemma SameKeys(a: map<Tid, Thread>, b: map<Tid, Thread>, q: Queue, s: seq<Tid>)
    requires Ordered(a, q, s) && forall t | t in s :: Key(b, q, t) == Key(a, q, t)
    ensures Ordered(b, q, s)
  {
  }

  // ----- Semaphores and locks -----

  /** Threads that sema_up has unblocked but that have not tested the value again. */
  ghost function Woken(st: State, s: nat): set<Tid> {
    set t | t in st.threads && st.threads[t].waiting == Some(s) && st.threads[t].status != Blocked
  }

  /** No lost wakeup: while threads wait, at least value of the woken ones are still on their way. */
  ghost predicate NoLost(st: State) {
    forall s :: 0 <= s < |st.semas| && st.semas[s].waiters != [] ==> |Woken(st, s)| >= st.semas[s].value
  }

  /** Thread t is between lock s's acquire and release. */
  ghost predicate Inside(st: State, s: nat, t: Tid) {
    t in st.threads && s in st.threads[t].locks
  }

  ghost predicate LockOk(st: State, s: nat)
    requires s in st.holder
  {
    && s < |st.semas| && st.semas[s].value <= 1
    && (forall t, u :: Inside(st, s, t) && Inside(st, s, u) ==> t == u && st.semas[s].value == 0)
    && (forall t :: Inside(st, s, t) && st.threads[t].locks[s] == Held ==> st.holder[s] == Some(t))
    && (forall t | t in st.threads && st.holder[s] == Some(t) :: Inside(st, s, t) && st.threads[t].locks[s] == Held)
  }

  ghost predicate LocksOk(st: State) {
    && (forall s | s in st.holder :: LockOk(st, s))
    && (forall s, t :: Inside(st, s, t) ==> s in st.holder)
  }

  /** Exactly the current thread runs; without one, the kernel is between two threads. */
  ghost predicate Runs(st: State, cur: Option<Tid>) {
    && (cur.Some? ==> cur.value in st.threads)
    && forall t | t in st.threads :: st.threads[t].status == Running <==> cur == Some(t)
  }

  /** Tids are never used twice. */
  ghost predicate Tids(st: State) {
    && (forall t | t in st.threads :: t < st.nextTid)
    && (forall s | s in st.holder && st.holder[s].Some? :: st.holder[s].value < st.nextTid)
  }

  ghost predicate Inv(st: State, cur: Option<Tid>) {
    Queued(st) && NoLost(st) && LocksOk(st) && Runs(st, cur) && Tids(st)
  }

  // ----- Steps -----

  /** next_thread_to_run. */
  function NextThread(st: State): Tid { if st.ready == [] then st.idle else st.ready[0] }

  /** schedule and thread_schedule_tail. */
  function Dispatched(st: State): State
    requires NextThread(st) in st.threads
  {
    var t := NextThread(st);
    st.(threads := st.threads[t := st.threads[t].(status := Running)],
        ready := if st.ready == [] then [] else st.ready[1..])
  }

  /** n is st after a thread switch, to thread t. */
  ghost predicate Switched(st: State, n: State, t: Tid) {
    t == NextThread(st) && t in st.threads && n == Dispatched(st)
  }

  /** The scheduler picks a ready thread of highest priority, or the idle thread if none is ready. */
  lemma DispatchPicks(st: State)
    requires Queued(st)
    ensures NextThread(st) in st.threads
    ensures NextThread(st) == st.idle <==> forall t | t in st.threads && t != st.idle :: st.threads[t].status != Ready
    ensures forall t | t in st.threads && t != st.idle && st.threads[t].status == Ready ::
      st.threads[NextThread(st)].priority >= st.threads[t].priority
  {
    assert QueueOk(st, ReadyQ);
    if st.ready != [] {
      PoppedFacts(st.threads, ReadyQ, st.ready);
      assert QueueOf(st, st.ready[0]) == ReadyQ;
    }
    assert forall t | t in st.threads && QueueOf(st, t) == ReadyQ :: t in st.ready;
  }

  lemma DispatchKeeps(st: State)
    requires Inv(st, None)
    ensures NextThread(st) in st.threads && Inv(Dispatched(st), Some(NextThread(st)))
  {
    DispatchPicks(st);
    var t := NextThread(st);
    var n := Dispatched(st);
    assert QueueOk(st, ReadyQ);
    assert st.ready != [] ==> t in st.ready;
    hide QueueOk, LockOk, NoLost;
    assert Moves(st, n, t);
    hide Moves, Tids;
    MoveKeeps(st, n, t);
    SameTids(st, n);
    SameWoken(st, n);
    SameLocks(st, n);
  }

  lemma SameWoken(st: State, n: State)
    requires NoLost(st) && n.threads.Keys == st.threads.Keys && n.semas == st.semas
    requires forall t | t in st.threads ::
      && n.threads[t].waiting == st.threads[t].waiting
      && (st.threads[t].waiting.Some? ==> (n.threads[t].status == Blocked <==> st.threads[t].status == Blocked))
    ensures NoLost(n)
  {
    forall s
      ensures Woken(n, s) == Woken(st, s)
    {
    }
  }

  lemma SameTids(st: State, n: State)
    requires Tids(st) && n.nextTid == st.nextTid && n.threads.Keys <= st.threads.Keys && n.holder.Keys <= st.holder.Keys
    requires forall s | s in n.holder ::
      n.holder[s] == st.holder[s] || n.holder[s].None? || n.holder[s].value in st.threads
    ensures Tids(n)
  {
  }

  lemma SameLocks(st: State, n: State)
    requires LocksOk(st) && n.holder == st.holder && |n.semas| == |st.semas|
    requires forall s | s in st.holder && s < |st.semas| :: n.semas[s].value == st.semas[s].value
    requires forall t | t in n.threads ::
      if t in st.threads then n.threads[t].locks == st.threads[t].locks else n.threads[t].locks == map[]
    requires forall t | t in st.threads :: t in n.threads
    requires forall t, s | t in n.threads && t !in st.threads && s in st.holder :: st.holder[s] != Some(t)
    ensures LocksOk(n)
  {
    assert forall s, t :: Inside(n, s, t) <==> Inside(st, s, t);
    forall s | s in n.holder
      ensures LockOk(n, s)
    {
      assert LockOk(st, s);
    }
  }

  function SetThread(st: State, t: Tid, th: Thread): State { st.(threads := st.threads[t := th]) }

  function SetWaiters(st: State, s: nat, w: seq<Tid>): State
    requires s < |st.semas|
  {
    st.(semas := st.semas[s := st.semas[s].(waiters := w)])
  }

  /** The first half of thread_yield: the current thread is ready again, and the idle thread is on no list. */
  function Yielded(st: State, t: Tid): State
    requires t in st.threads
  {
    var n := SetThread(st, t, st.threads[t].(status := Ready));
    if t == st.idle then n else n.(ready := Inserted(n.threads, ReadyQ, st.ready, t))
  }

  lemma YieldKeeps(st: State, t: Tid)
    requires Inv(st, Some(t))
    ensures Inv(Yielded(st, t), None)
  {
    var n := Yielded(st, t);
    hide QueueOk, LockOk, NoLost, Inserted;
    assert Moves(st, n, t);
    hide Moves, Tids;
    MoveKeeps(st, n, t);
    SameTids(st, n);
    SameWoken(st, n);
    SameLocks(st, n);
  }

  /** The blocking turn of sema_down's loop, with the value zero. */
  function BlockedOn(st: State, t: Tid, s: nat): State
    requires t in st.threads && s < |st.semas|
  {
    var n := SetThread(st, t, st.threads[t].(status := Blocked, waiting := Some(s)));
    SetWaiters(n, s, Inserted(n.threads, WaitQ(s), st.semas[s].waiters, t))
  }

  lemma BlockKeeps(st: State, t: Tid, s: nat)
    requires Inv(st, Some(t)) && t != st.idle && s < |st.semas| && st.semas[s].value == 0
    requires MayDown(st.threads[t], s)
    ensures Inv(BlockedOn(st, t, s), None)
  {
    var n := BlockedOn(st, t, s);
    hide QueueOk, LockOk, Inserted;
    assert Moves(st, n, t);
    hide Moves, NoLost, Tids;
    MoveKeeps(st, n, t);
    SameTids(st, n);
    BlockedWoken(st, n, t, s);
    SameLocks(st, n);
  }

  lemma BlockedWoken(st: State, n: State, t: Tid, s: nat)
    requires NoLost(st) && t in st.threads && s < |st.semas| && st.semas[s].value == 0
    requires MayDown(st.threads[t], s)
    requires n.threads == SetThread(st, t, st.threads[t].(status := Blocked, waiting := Some(s))).threads
    requires |n.semas| == |st.semas| && n.semas[s].value == 0
    requires forall r :: 0 <= r < |st.semas| && r != s ==> n.semas[r] == st.semas[r]
    ensures NoLost(n)
  {
    forall r: nat | r != s
      ensures Woken(n, r) == Woken(st, r)
    {
    }
  }

  /** sema_down's decrement; for a lock, its user is then inside. */
  function Downed(st: State, t: Tid, s: nat): State
    requires t in st.threads && s < |st.semas| && st.semas[s].value > 0
  {
    var locks := if s in st.holder then st.threads[t].locks[s := Got] else st.threads[t].locks;
    var n := SetThread(st, t, st.threads[t].(waiting := None, locks := locks));
    n.(semas := st.semas[s := st.semas[s].(value := st.semas[s].value - 1)])
  }

  lemma DownKeeps(st: State, t: Tid, s: nat)
    requires Inv(st, Some(t)) && s < |st.semas| && st.semas[s].value > 0
    requires MayDown(st.threads[t], s)
    ensures Inv(Downed(st, t, s), Some(t))
  {
    var n := Downed(st, t, s);
    hide QueueOk, LockOk, NoLost;
    hide LocksOk, Tids;
    QuietMoves(st, n, t);
    SameTids(st, n);
    DownedWoken(st, n, t, s);
    DownedLocks(st, n, t, s);
  }

  lemma DownedWoken(st: State, n: State, t: Tid, s: nat)
    requires NoLost(st) && t in st.threads && s < |st.semas| && st.semas[s].value > 0
    requires MayDown(st.threads[t], s)
    requires n == Downed(st, t, s)
    ensures NoLost(n)
  {
    forall r: nat | r != s
      ensures Woken(n, r) == Woken(st, r)
    {
    }
    assert Woken(n, s) == Woken(st, s) - {t};
  }

  lemma DownedLocks(st: State, n: State, t: Tid, s: nat)
    requires LocksOk(st) && t in st.threads && s < |st.semas| && st.semas[s].value > 0
    requires n == Downed(st, t, s)
    ensures LocksOk(n)
  {
    assert forall r, u :: Inside(n, r, u) <==> Inside(st, r, u) || (r == s && u == t && s in st.holder);
    forall r | r in n.holder
      ensures LockOk(n, r)
    {
      assert LockOk(st, r);
      assert r == s ==> forall u :: !Inside(st, s, u);
    }
  }

  /** thread_unblock of the first thread of a wait queue or the sleeping list. */
  function Unblocked(st: State, q: Queue): State
    requires List(st, q) != [] && List(st, q)[0] in st.threads && (q == SleepQ || q.WaitQ?)
  {
    var l := List(st, q);
    var n := SetThread(st, l[0], st.threads[l[0]].(status := Ready));
    var m := if q == SleepQ then n.(sleeping := l[1..]) else SetWaiters(n, q.sema, l[1..]);
    m.(ready := Inserted(n.threads, ReadyQ, st.ready, l[0]))
  }

  lemma UnblockQueued(st: State, q: Queue)
    requires Queued(st) && List(st, q) != [] && (q == SleepQ || q.WaitQ?)
    ensures List(st, q)[0] in st.threads && st.threads[List(st, q)[0]].status == Blocked && List(st, q)[0] != st.idle
    ensures QueueOf(st, List(st, q)[0]) == q
    ensures Queued(Unblocked(st, q))
  {
    var t := List(st, q)[0];
    assert QueueOk(st, q);
    assert t in List(st, q);
    hide QueueOk, Inserted;
    var n := Unblocked(st, q);
    assert Moves(st, n, t);
    hide Moves;
    MoveKeeps(st, n, t);
  }

  /** thread_wake_up's step on the sleeper with the earliest tick. */
  lemma WakeKeeps(st: State, cur: Option<Tid>)
    requires Inv(st, cur) && st.sleeping != []
    ensures st.sleeping[0] in st.threads && Inv(Unblocked(st, SleepQ), cur)
    ensures forall t | t in st.sleeping :: t in st.threads && st.threads[st.sleeping[0]].wake <= st.threads[t].wake
  {
    assert QueueOk(st, SleepQ);
    PoppedFacts(st.threads, SleepQ, st.sleeping);
    hide QueueOk, LockOk, NoLost, Inserted;
    UnblockQueued(st, SleepQ);
    SameWoken(st, Unblocked(st, SleepQ));
    SameLocks(st, Unblocked(st, SleepQ));
  }

  /** sema_up. */
  function Upped(st: State, s: nat): State
    requires s < |st.semas| && (st.semas[s].waiters != [] ==> st.semas[s].waiters[0] in st.threads)
  {
    var n := if st.semas[s].waiters == [] then st else Unblocked(st, WaitQ(s));
    n.(semas := n.semas[s := n.semas[s].(value := n.semas[s].value + 1)])
  }

  /** sema_up wakes a waiter of highest priority. */
  lemma UpPicks(st: State, s: nat)
    requires Queued(st) && s < |st.semas|
    ensures forall t | t in st.semas[s].waiters ::
      && t in st.threads && st.threads[t].status == Blocked && st.threads[t].waiting == Some(s)
      && st.semas[s].waiters[0] in st.threads && st.threads[st.semas[s].waiters[0]].priority >= st.threads[t].priority
  {
    assert QueueOk(st, WaitQ(s));
    var w := st.semas[s].waiters;
    assert w == List(st, WaitQ(s));
    if w != [] {
      PoppedFacts(st.threads, WaitQ(s), w);
      assert w[0] in w;
    }
    forall t | t in w
      ensures QueueOf(st, t) == WaitQ(s)
    {
    }
  }

  /** sema_up on a plain semaphore, or on a lock that nobody is inside any more. */
  lemma UpKeeps(st: State, cur: Option<Tid>, s: nat)
    requires Inv(st, cur) && s < |st.semas|
    requires s in st.holder ==> st.semas[s].value == 0 && forall t :: !Inside(st, s, t)
    ensures st.semas[s].waiters != [] ==> st.semas[s].waiters[0] in st.threads
    ensures Inv(Upped(st, s), cur)
  {
    UpPicks(st, s);
    assert st.semas[s].waiters != [] ==> st.semas[s].waiters[0] in st.semas[s].waiters;
    hide Queued, LocksOk, NoLost, Inserted;
    UppedQueued(st, s);
    UppedWoken(st, s);
    UppedLocks(st, s);
  }

  lemma UppedQueued(st: State, s: nat)
    requires Queued(st) && s < |st.semas| && (st.semas[s].waiters != [] ==> st.semas[s].waiters[0] in st.threads)
    ensures Queued(Upped(st, s))
  {
    if st.semas[s].waiters != [] {
      UnblockQueued(st, WaitQ(s));
    }
    var n := if st.semas[s].waiters == [] then st else Unblocked(st, WaitQ(s));
    var m := Upped(st, s);
    forall q
      ensures QueueOk(m, q)
    {
      assert QueueOk(n, q) && List(m, q) == List(n, q);
    }
  }

  lemma UppedWoken(st: State, s: nat)
    requires NoLost(st) && s < |st.semas|
    requires st.semas[s].waiters != [] ==>
      && var t := st.semas[s].waiters[0];
         t in st.threads && st.threads[t].status == Blocked && st.threads[t].waiting == Some(s)
    ensures NoLost(Upped(st, s))
  {
    var n, w := Upped(st, s), st.semas[s].waiters;
    if w != [] {
      assert Woken(n, s) == Woken(st, s) + {w[0]} && w[0] !in Woken(st, s);
    }
    forall r: nat | r != s
      ensures Woken(n, r) == Woken(st, r)
    {
    }
  }

  lemma UppedLocks(st: State, s: nat)
    requires LocksOk(st) && s < |st.semas| && (st.semas[s].waiters != [] ==> st.semas[s].waiters[0] in st.threads)
    requires s in st.holder ==> st.semas[s].value == 0 && forall t :: !Inside(st, s, t)
    ensures LocksOk(Upped(st, s))
  {
    var n := Upped(st, s);
    assert forall r, u :: Inside(n, r, u) <==> Inside(st, r, u);
    forall r | r in n.holder
      ensures LockOk(n, r)
    {
      assert LockOk(st, r);
    }
  }

  /** A semaphore's waiters or a sleeper's list never hold the same thread as another queue. */
  lemma OneQueue(st: State, t: Tid, p: Queue, q: Queue)
    requires Queued(st) && t in List(st, p) && t in List(st, q)
    ensures p == q
  {
    assert QueueOk(st, p) && QueueOk(st, q);
  }

  /** thread_sleep, before it schedules. */
  function Slept(st: State, t: Tid, tick: int): State
    requires t in st.threads
  {
    var n := SetThread(st, t, st.threads[t].(status := Blocked, wake := tick));
    n.(sleeping := Inserted(n.threads, SleepQ, st.sleeping, t))
  }

  lemma SleepKeeps(st: State, t: Tid, tick: int)
    requires Inv(st, Some(t)) && t != st.idle && st.threads[t].waiting.None?
    ensures Inv(Slept(st, t, tick), None)
  {
    var n := Slept(st, t, tick);
    hide QueueOk, LockOk, NoLost, Inserted;
    assert Moves(st, n, t);
    hide Moves, Tids;
    MoveKeeps(st, n, t);
    SameTids(st, n);
    SameWoken(st, n);
    SameLocks(st, n);
  }

  /** thread_create's new thread, ready to run. */
  function Created(st: State, priority: int): State {
    var t := st.nextTid;
    var n := SetThread(st, t, Thread(Ready, priority, 0, None, map[]));
    n.(ready := Inserted(n.threads, ReadyQ, st.ready, t), nextTid := t + 1)
  }

  lemma CreateKeeps(st: State, cur: Option<Tid>, priority: int)
    requires Inv(st, cur)
    ensures st.nextTid !in st.threads && Inv(Created(st, priority), cur)
  {
    var t, n := st.nextTid, Created(st, priority);
    hide QueueOk, LockOk, Inserted;
    assert Moves(st, n, t);
    hide Moves;
    MoveKeeps(st, n, t);
    forall s
      ensures Woken(n, s) == Woken(st, s)
    {
    }
    SameLocks(st, n);
  }

  /** The end of thread_exit. A lock the thread is inside of stays taken. */
  function Exited(st: State, t: Tid): State { st.(threads := st.threads - {t}) }

  lemma ExitKeeps(st: State, t: Tid)
    requires Inv(st, Some(t)) && t != st.idle && st.threads[t].waiting.None?
    ensures Inv(Exited(st, t), None)
  {
    var n := Exited(st, t);
    hide QueueOk, LockOk, LocksOk;
    assert Moves(st, n, t);
    hide Moves, Tids;
    MoveKeeps(st, n, t);
    SameTids(st, n);
    forall s
      ensures Woken(n, s) == Woken(st, s)
    {
    }
    ExitedLocks(st, t);
  }

  lemma ExitedLocks(st: State, t: Tid)
    requires LocksOk(st)
    ensures LocksOk(Exited(st, t))
  {
    var n := Exited(st, t);
    assert forall s, u :: Inside(n, s, u) <==> Inside(st, s, u) && u != t;
    forall s | s in n.holder
      ensures LockOk(n, s)
    {
      assert LockOk(st, s);
    }
  }

  /** The idle thread blocks itself, on no list. */
  function IdleBlocked(st: State): State
    requires st.idle in st.threads
  {
    SetThread(st, st.idle, st.threads[st.idle].(status := Blocked))
  }

  lemma IdleBlockKeeps(st: State)
    requires Inv(st, Some(st.idle))
    ensures Inv(IdleBlocked(st), None)
  {
    var n := IdleBlocked(st);
    hide QueueOk, LockOk, NoLost;
    assert Moves(st, n, st.idle);
    hide Moves, Tids;
    MoveKeeps(st, n, st.idle);
    SameTids(st, n);
    SameWoken(st, n);
    SameLocks(st, n);
  }

  /** thread_set_priority, before it yields. */
  function Reprioritized(st: State, t: Tid, priority: int): State
    requires t in st.threads
  {
    SetThread(st, t, st.threads[t].(priority := priority))
  }

  lemma SetPriorityKeeps(st: State, t: Tid, priority: int)
    requires Inv(st, Some(t))
    ensures Inv(Reprioritized(st, t, priority), Some(t))
  {
    var n := Reprioritized(st, t, priority);
    hide QueueOk, LockOk, NoLost;
    hide LocksOk, Tids;
    QuietMoves(st, n, t);
    SameTids(st, n);
    SameWoken(st, n);
    SameLocks(st, n);
  }

  // ----- What the invariant means -----

  /** Every queue holds exactly its threads, the ready list and the wait queues from high priority to low and the
      sleepers from early to late; no thread is on two; no wakeup is lost; a lock has at most one user. */
  ghost predicate Safe(st: State) {
    && Queued(st) && (forall t, p, q :: t in List(st, p) && t in List(st, q) ==> p == q)
    && (forall t :: t in st.ready <==> t in st.threads && t != st.idle && st.threads[t].status == Ready)
    && (forall s :: 0 <= s < |st.semas| && st.semas[s].waiters != [] ==> |Woken(st, s)| >= st.semas[s].value)
    && (forall s, t, u :: s in st.holder && Inside(st, s, t) && Inside(st, s, u) ==> t == u)
  }

  lemma InvIsSafe(st: State, cur: Option<Tid>)
    requires Inv(st, cur)
    ensures Safe(st) && (cur.Some? ==> cur.value in st.threads)
  {
    forall t, p, q | t in List(st, p) && t in List(st, q)
      ensures p == q
    {
      OneQueue(st, t, p, q);
    }
    assert QueueOk(st, ReadyQ);
    forall s, t, u | s in st.holder && Inside(st, s, t) && Inside(st, s, u)
      ensures t == u
    {
      assert LockOk(st, s);
    }
  }

  // ----- Waking sleepers -----

  /** Some sleepers whose tick has come are ready; nobody else changed. */
  ghost predicate Waking(st: State, n: State, now: int) {
    && n.threads.Keys == st.threads.Keys && (forall t | t in n.sleeping :: t in st.sleeping)
    && forall t | t in st.threads ::
         if t in st.sleeping && t !in n.sleeping
         then st.threads[t].wake <= now && n.threads[t] == st.threads[t].(status := Ready)
         else n.threads[t] == st.threads[t]
  }

  /** Exactly the sleepers whose tick has come are ready. */
  ghost predicate Woke(st: State, n: State, now: int) {
    && n.threads.Keys == st.threads.Keys
    && (forall t | t in st.threads && t in st.sleeping :: t in n.sleeping <==> st.threads[t].wake > now)
    && (forall t | t in n.sleeping :: t in st.sleeping)
    && forall t | t in st.threads ::
         var th := st.threads[t];
         n.threads[t] == if t in st.sleeping && th.wake <= now then th.(status := Ready) else th
  }

  /** thread_wake_up: the sleepers at the front whose tick has come join the ready list, one by one. */
  ghost function AllWoken(st: State, now: int): State
    decreases |st.sleeping|
  {
    if st.sleeping == [] || st.sleeping[0] !in st.threads || st.threads[st.sleeping[0]].wake > now then st
    else AllWoken(Unblocked(st, SleepQ), now)
  }

  lemma {:induction false} WokenElsewhere(st: State, now: int)
    ensures var n := AllWoken(st, now);
      n.idle == st.idle && n.semas == st.semas && n.holder == st.holder && n.nextTid == st.nextTid
    decreases |st.sleeping|
  {
    if !(st.sleeping == [] || st.sleeping[0] !in st.threads || st.threads[st.sleeping[0]].wake > now) {
      hide Inserted;
      WokenElsewhere(Unblocked(st, SleepQ), now);
    }
  }

  lemma WakeStep(st: State, n: State, now: int)
    requires Waking(st, n, now) && n.sleeping != [] && n.sleeping[0] in n.threads
    requires n.threads[n.sleeping[0]].wake <= now
    requires Distinct(n.sleeping)
    ensures Waking(st, Unblocked(n, SleepQ), now)
  {
    var t, m := n.sleeping[0], Unblocked(n, SleepQ);
    assert n.sleeping == [t] + m.sleeping;
    assert t in st.sleeping && t !in m.sleeping;
    assert m.threads == n.threads[t := n.threads[t].(status := Ready)];
    hide Inserted, Unblocked;
  }

  lemma WakeEnds(st: State, n: State, now: int)
    requires Waking(st, n, now) && forall t | t in n.sleeping :: t in n.threads && n.threads[t].wake > now
    ensures Woke(st, n, now)
  {
  }

  lemma StillQueued(st: State, cur: Option<Tid>)
    requires Inv(st, cur)
    ensures Queued(st) && Distinct(st.sleeping) && st.sleeping == List(st, SleepQ)
  {
    assert QueueOk(st, SleepQ);
  }

  lemma ReadyKnown(st: State, cur: Option<Tid>)
    requires Inv(st, cur)
    ensures forall t | t in st.ready :: t in st.threads
    ensures Distinct(st.ready)
  {
    assert QueueOk(st, ReadyQ);
  }

  // ----- Aging -----

  const PRI_MAX := 63

  function Older(th: Thread): Thread { th.(priority := if th.priority + 1 > PRI_MAX then PRI_MAX else th.priority + 1) }

  /** thread_aging: every ready thread gains priority, up to the maximum. */
  function Aged(st: State): State {
    st.(threads := map t | t in st.threads :: if t in st.ready then Older(st.threads[t]) else st.threads[t])
  }

  /** Aging is monotone in priority, so the ready list stays in order; other queues hold no ready thread. */
  lemma AgeKeeps(st: State, cur: Option<Tid>)
    requires Inv(st, cur)
    ensures Inv(Aged(st), cur)
  {
    var n := Aged(st);
    forall q
      ensures QueueOk(n, q)
    {
      AgeOne(st, q);
    }
    hide QueueOk, LockOk, NoLost;
    SameWoken(st, n);
    SameLocks(st, n);
  }

  lemma AgeOne(st: State, q: Queue)
    requires QueueOk(st, q) && QueueOk(st, ReadyQ)
    ensures QueueOk(Aged(st), q)
  {
    var n, l := Aged(st), List(st, q);
    assert forall t :: QueueOf(n, t) == QueueOf(st, t);
    if q != ReadyQ {
      assert forall t | t in l :: t in st.threads && t !in st.ready && n.threads[t] == st.threads[t];
      SameKeys(st.threads, n.threads, q, l);
    } else {
      forall i, j | 0 <= i < j < |l|
        ensures Key(n.threads, q, l[i]) <= Key(n.threads, q, l[j])
      {
        assert l[i] in l && l[j] in l && QueueOf(st, l[i]) == q && QueueOf(st, l[j]) == q;
        assert Key(st.threads, q, l[i]) <= Key(st.threads, q, l[j]);
      }
    }
  }

  // ----- Locks -----

  /** The last step of lock_acquire, and the first of lock_release. */
  function SetHolder(st: State, t: Tid, s: nat, h: Option<Tid>, phase: Phase): State
    requires t in st.threads
  {
    SetThread(st, t, st.threads[t].(locks := st.threads[t].locks[s := phase])).(holder := st.holder[s := h])
  }

  lemma HoldKeeps(st: State, t: Tid, s: nat, h: Option<Tid>, phase: Phase)
    requires Inv(st, Some(t)) && s in st.threads[t].locks
    requires (phase == Held && h == Some(t)) || (phase == Leaving && h.None?)
    ensures s in st.holder && Inv(SetHolder(st, t, s, h, phase), Some(t))
  {
    hide Queued, NoLost, LocksOk, Tids;
    var n := SetHolder(st, t, s, h, phase);
    HoldLocks(st, n, t, s, h, phase);
    QuietMoves(st, n, t);
    SameTids(st, n);
    SameWoken(st, n);
  }

  lemma HoldLocks(st: State, n: State, t: Tid, s: nat, h: Option<Tid>, phase: Phase)
    requires LocksOk(st) && Inside(st, s, t) && n == SetHolder(st, t, s, h, phase)
    requires (phase == Held && h == Some(t)) || (phase == Leaving && h.None?)
    ensures s in st.holder && LocksOk(n)
  {
    assert forall r, u :: Inside(n, r, u) <==> Inside(st, r, u);
    forall r | r in n.holder
      ensures LockOk(n, r)
    {
      assert LockOk(st, r);
      assert r == s ==> forall u :: Inside(n, s, u) ==> u == t;
    }
  }

  /** The thread leaving lock s is no longer inside it; its sema_up follows in the same section. */
  function Left(st: State, t: Tid, s: nat): State
    requires t in st.threads
  {
    SetThread(st, t, st.threads[t].(locks := st.threads[t].locks - {s}))
  }

  lemma LeaveKeeps(st: State, t: Tid, s: nat)
    requires Inv(st, Some(t)) && s in st.threads[t].locks && st.threads[t].locks[s] == Leaving
    ensures Inv(Left(st, t, s), Some(t)) && s in st.holder && s < |st.semas|
    ensures st.semas[s].value == 0 && forall u :: !Inside(Left(st, t, s), s, u)
  {
    hide Queued, NoLost, LocksOk, Tids;
    var n := Left(st, t, s);
    LeftLocks(st, t, s);
    QuietMoves(st, n, t);
    SameTids(st, n);
    SameWoken(st, n);
  }

  lemma LeftLocks(st: State, t: Tid, s: nat)
    requires LocksOk(st) && Inside(st, s, t) && st.threads[t].locks[s] == Leaving
    ensures LocksOk(Left(st, t, s)) && s in st.holder && s < |st.semas|
    ensures st.semas[s].value == 0 && forall u :: !Inside(Left(st, t, s), s, u)
  {
    var n := Left(st, t, s);
    assert LockOk(st, s);
    assert forall r, u :: Inside(n, r, u) <==> Inside(st, r, u) && !(r == s && u == t);
    forall r | r in n.holder
      ensures LockOk(n, r)
    {
      assert LockOk(st, r);
    }
  }
}

/** The kernel's thread and semaphore operations, one method per interrupts-off section. */
module Threads {
  import opened Basics
  import opened ThreadState

  /** What the running thread, or an interrupt, does next. */
  datatype Op = Yield | Down(sema: nat) | TryDown(sema: nat) | Up(sema: nat) | Create(priority: int) | Exit
              | Sleep(tick: int) | WakeUp(now: int) | Age | SetPriority(priority: int) | IdleBlock
              | Hold(lock: nat) | Unhold(lock: nat) | Leave(lock: nat)

  lemma {:induction false} InsertedAt(threads: map<Tid, Thread>, q: Queue, s: seq<Tid>, t: Tid, i: nat)
    requires i <= |s| && (i < |s| ==> Key(threads, q, t) < Key(threads, q, s[i]))
    requires forall j :: 0 <= j < i ==> Key(threads, q, s[j]) <= Key(threads, q, t)
    ensures Inserted(threads, q, s, t) == s[..i] + [t] + s[i..]
  {
    hide Key;
    if i > 0 {
      var r := s[1..];
      assert forall j {:trigger r[j]} :: 0 <= j < |r| ==> r[j] == s[j + 1];
      InsertedAt(threads, q, r, t, i - 1);
      FrontAgain(s, t, i);
    }
  }

  lemma FrontAgain(s: seq<Tid>, t: Tid, i: nat)
    requires 0 < i <= |s|
    ensures [s[0]] + (s[1..][..i - 1] + [t] + s[1..][i - 1..]) == s[..i] + [t] + s[i..]
  {
    assert s[1..][..i - 1] == s[1..i] && s[1..][i - 1..] == s[i..];
    assert s[..i] == [s[0]] + s[1..i];
  }

  class Kernel {
    var threads: map<Tid, Thread>
    var current: Tid
    const idle: Tid
    var ready: seq<Tid>
    var sleeping: seq<Tid>
    var semas: seq<Sema>
    var holder: map<nat, Option<Tid>>
    var nextTid: Tid

    function St(): State
      reads this
    {
      State(threads, idle, ready, sleeping, semas, holder, nextTid)
    }

    ghost predicate Valid()
      reads this
    {
      Inv(St(), Some(current))
    }

    /** thread_init and thread_start: the main thread runs, the idle thread is blocked. Locks are semaphores
        that start at one. */
    constructor (priority: int, values: seq<nat>, locks: set<nat>)
      requires forall s | s in locks :: s < |values| && values[s] == 1
      ensures Valid() && current == 1 && idle == 2 && threads.Keys == {1, 2} && holder.Keys == locks
      ensures |semas| == |values| && forall s :: 0 <= s < |semas| ==> semas[s] == Sema(values[s], [])
    {
      threads := map[1 := Thread(Running, priority, 0, None, map[]), 2 := Thread(Blocked, 0, 0, None, map[])];
      current, idle, nextTid := 1, 2, 3;
      ready, sleeping := [], [];
      semas := seq(|values|, i requires 0 <= i < |values| => Sema(values[i], []));
      holder := map s | s in locks :: None;
    }

    /** list_insert_ordered's search. */
    method InsertOrdered(q: Queue, s: seq<Tid>, t: Tid) returns (r: seq<Tid>)
      ensures r == Inserted(threads, q, s, t)
    {
      var i := 0;
      while i < |s| && !(Key(threads, q, t) < Key(threads, q, s[i]))
        invariant i <= |s| && forall j :: 0 <= j < i ==> Key(threads, q, s[j]) <= Key(threads, q, t)
      {
        i := i + 1;
      }
      InsertedAt(threads, q, s, t, i);
      r := s[..i] + [t] + s[i..];
    }

    /** schedule. */
    method Schedule()
      requires Inv(St(), None)
      modifies this`threads, this`current, this`ready
      ensures Inv(St(), Some(current)) && Switched(old(St()), St(), current)
    {
      hide Inv;
      DispatchKeeps(St());
      current := if ready == [] then idle else ready[0];
      if ready != [] {
        ready := ready[1..];
      }
      threads := threads[current := threads[current].(status := Running)];
    }

    /** thread_yield, by the running thread or on return from the timer interrupt. */
    method YieldThread()
      requires Valid()
      modifies this`threads, this`current, this`ready
      ensures Valid() && Switched(Yielded(old(St()), old(current)), St(), current)
    {
      ghost var st := St();
      assert current in threads;
      hide Inv, Inserted;
      YieldKeeps(st, current);
      threads := threads[current := threads[current].(status := Ready)];
      if current != idle {
        ready := InsertOrdered(ReadyQ, ready, current);
      }
      assert St() == Yielded(st, current);
      Schedule();
    }

    /** One turn of sema_down's loop. A thread that is woken takes its next turn on the same semaphore. */
    method SemaDown(s: nat) returns (done: bool)
      requires Valid() && current != idle && s < |semas| && MayDown(threads[current], s)
      modifies this`threads, this`current, this`ready, this`semas
      ensures Valid() && (done <==> old(semas)[s].value > 0)
      ensures done ==> St() == Downed(old(St()), old(current), s) && current == old(current)
      ensures !done ==> Switched(BlockedOn(old(St()), old(current), s), St(), current)
    {
      ghost var st := St();
      assert current in threads;
      hide Inv, Inserted;
      if semas[s].value == 0 {
        BlockKeeps(st, current, s);
        threads := threads[current := threads[current].(status := Blocked, waiting := Some(s))];
        var w := InsertOrdered(WaitQ(s), semas[s].waiters, current);
        semas := semas[s := semas[s].(waiters := w)];
        assert St() == BlockedOn(st, current, s);
        Schedule();
        return false;
      }
      done := TakeOne(s);
    }

    method TakeOne(s: nat) returns (done: bool)
      requires Valid() && s < |semas| && semas[s].value > 0 && MayDown(threads[current], s)
      modifies this`threads, this`semas
      ensures Valid() && done && St() == Downed(old(St()), current, s)
    {
      ghost var st := St();
      assert current in threads;
      hide Inv;
      DownKeeps(st, current, s);
      var th := threads[current];
      var locks := if s in holder then th.locks[s := Got] else th.locks;
      threads := threads[current := th.(waiting := None, locks := locks)];
      semas := semas[s := semas[s].(value := semas[s].value - 1)];
      assert St() == Downed(st, current, s);
      done := true;
    }

    /** sema_try_down. */
    method SemaTryDown(s: nat) returns (success: bool)
      requires Valid() && s < |semas| && threads[current].waiting.None?
      modifies this`threads, this`semas
      ensures Valid() && (success <==> old(semas)[s].value > 0)
      ensures St() == if success then Downed(old(St()), current, s) else old(St())
    {
      if semas[s].value > 0 {
        success := TakeOne(s);
      } else {
        success := false;
      }
    }

    /** thread_unblock of the first thread on queue q. */
    method Unblock(q: Queue)
      requires Queued(St()) && List(St(), q) != [] && (q == SleepQ || q.WaitQ?)
      modifies this`threads, this`ready, this`sleeping, this`semas
      ensures List(old(St()), q)[0] in old(threads) && St() == Unblocked(old(St()), q)
    {
      ghost var st := St();
      UnblockQueued(st, q);
      hide Queued, Inserted;
      var l := if q == SleepQ then sleeping else semas[q.sema].waiters;
      var t := l[0];
      if q == SleepQ {
        sleeping := l[1..];
      } else {
        semas := semas[q.sema := semas[q.sema].(waiters := l[1..])];
      }
      threads := threads[t := threads[t].(status := Ready)];
      ready := InsertOrdered(ReadyQ, ready, t);
    }

    /** sema_up, without the yield that may follow it. */
    method SemaUp(s: nat)
      requires Valid() && s < |semas|
      requires s in holder ==> semas[s].value == 0 && forall t :: !Inside(St(), s, t)
      modifies this`threads, this`ready, this`sleeping, this`semas
      ensures Valid() && CanUp(old(St()), s) && St() == Upped(old(St()), s)
    {
      ghost var st := St();
      assert Queued(st);
      hide Inv, Queued, Inserted;
      UpKeeps(st, Some(current), s);
      if semas[s].waiters != [] {
        Unblock(WaitQ(s));
      }
      semas := semas[s := semas[s].(value := semas[s].value + 1)];
      assert St() == Upped(st, s);
    }

    /** thread_create, without the yield that follows it. */
    method CreateThread(priority: int)
      requires Valid()
      modifies this`threads, this`ready, this`nextTid
      ensures Valid() && St() == Created(old(St()), priority)
      ensures threads == old(threads)[old(nextTid) := Thread(Ready, priority, 0, None, map[])]
    {
      ghost var st := St();
      hide Inv, Inserted;
      CreateKeeps(st, Some(current), priority);
      var t := nextTid;
      nextTid := t + 1;
      threads := threads[t := Thread(Ready, priority, 0, None, map[])];
      ready := InsertOrdered(ReadyQ, ready, t);
      assert St() == Created(st, priority);
    }

    /** The end of thread_exit. */
    method ExitThread()
      requires Valid() && current != idle && threads[current].waiting.None?
      modifies this`threads, this`current, this`ready
      ensures Valid() && Switched(Exited(old(St()), old(current)), St(), current)
    {
      hide Inv;
      ExitKeeps(St(), current);
      threads := threads - {current};
      assert St() == Exited(old(St()), current);
      Schedule();
    }

    /** The idle thread's thread_block. */
    method BlockIdle()
      requires Valid() && current == idle
      modifies this`threads, this`current, this`ready
      ensures Valid() && idle in old(threads) && Switched(IdleBlocked(old(St())), St(), current)
    {
      ghost var st := St();
      assert current in threads;
      hide Inv;
      IdleBlockKeeps(st);
      threads := threads[idle := threads[idle].(status := Blocked)];
      assert St() == IdleBlocked(st);
      Schedule();
    }

    /** thread_sleep. */
    method SleepUntil(tick: int)
      requires Valid() && current != idle && threads[current].waiting.None?
      modifies this`threads, this`current, this`ready, this`sleeping
      ensures Valid() && Switched(Slept(old(St()), old(current), tick), St(), current)
      ensures old(current) in sleeping && old(current) in threads && threads[old(current)].wake == tick
    {
      ghost var st := St();
      assert current in threads;
      hide Inv, Inserted;
      SleepKeeps(st, current, tick);
      threads := threads[current := threads[current].(status := Blocked, wake := tick)];
      sleeping := InsertOrdered(SleepQ, sleeping, current);
      assert St() == Slept(st, current, tick);
      SleeperQueued(St(), None, current);
      Schedule();
      SleeperQueued(St(), Some(current), old(current));
    }

    /** A blocked thread that is in no sema_down is on the sleeping list. */
    static lemma SleeperQueued(st: State, cur: Option<Tid>, t: Tid)
      requires Inv(st, cur) && t in st.threads && t != st.idle
      ensures t in st.sleeping <==> st.threads[t].status == Blocked && st.threads[t].waiting.None?
      ensures t in st.ready <==> st.threads[t].status == Ready
    {
      assert QueueOk(st, SleepQ) && QueueOk(st, ReadyQ);
    }

    /** thread_wake_up: exactly the sleepers whose tick has come are unblocked. */
    method WakeSleepers(now: int)
      requires Valid()
      modifies this`threads, this`ready, this`sleeping, this`semas
      ensures Valid() && St() == AllWoken(old(St()), now) && Woke(old(St()), St(), now)
    {
      hide Inv, Inserted;
      while sleeping != []
        invariant Valid() && Waking(old(St()), St(), now) && AllWoken(St(), now) == AllWoken(old(St()), now)
        decreases |sleeping|
      {
        ghost var st := St();
        WakeKeeps(st, Some(current));
        if now < threads[sleeping[0]].wake {
          WakeEnds(old(St()), st, now);
          return;
        }
        StillQueued(st, Some(current));
        WakeStep(old(St()), st, now);
        Unblock(SleepQ);
      }
    }

    /** thread_set_priority, without the yield that follows it. */
    method ChangePriority(priority: int)
      requires Valid()
      modifies this`threads
      ensures Valid() && current in old(threads) && St() == Reprioritized(old(St()), current, priority)
    {
      ghost var st := St();
      assert current in threads;
      hide Inv;
      SetPriorityKeeps(st, current, priority);
      threads := threads[current := threads[current].(priority := priority)];
      assert St() == Reprioritized(st, current, priority);
    }

    /** thread_aging on an aging tick. */
    method AgeThreads()
      requires Valid()
      modifies this`threads
      ensures Valid() && St() == Aged(old(St())) && threads.Keys == old(threads).Keys
      ensures forall t | t in threads && t !in ready :: threads[t].priority == old(threads)[t].priority
      ensures forall t | t in threads && t in ready && old(threads)[t].priority < 63 ::
        threads[t].priority == old(threads)[t].priority + 1
      ensures forall t | t in threads && t in ready && old(threads)[t].priority >= 63 :: threads[t].priority == 63
    {
      ghost var st := St();
      ReadyKnown(st, Some(current));
      AgeKeeps(st, Some(current));
      hide Inv;
      var i := 0;
      while i < |ready|
        invariant i <= |ready|
        invariant threads == map t | t in st.threads :: if t in ready[..i] then Older(st.threads[t]) else st.threads[t]
      {
        var t := ready[i];
        assert t in ready;
        assert ready[..i + 1] == ready[..i] + [t];
        threads := threads[t := Older(threads[t])];
        i := i + 1;
      }
      assert ready[..i] == ready;
      assert St() == Aged(st);
    }

    /** The last step of lock_acquire: the thread that got the semaphore becomes the holder. */
    method HoldLock(s: nat)
      requires Valid() && s in threads[current].locks && threads[current].locks[s] == Got
      modifies this`threads, this`holder
      ensures Valid() && current in old(threads) && St() == SetHolder(old(St()), current, s, Some(current), Held)
    {
      SetLock(s, Some(current), Held);
    }

    /** The first step of lock_release, which only the holder may take. */
    method UnholdLock(s: nat)
      requires Valid() && s in holder && holder[s] == Some(current)
      modifies this`threads, this`holder
      ensures Valid() && current in old(threads) && St() == SetHolder(old(St()), current, s, None, Leaving)
    {
      assert LockOk(St(), s) && Inside(St(), s, current);
      SetLock(s, None, Leaving);
    }

    method SetLock(s: nat, h: Option<Tid>, phase: Phase)
      requires Valid() && s in threads[current].locks
      requires (phase == Held && h == Some(current)) || (phase == Leaving && h.None?)
      modifies this`threads, this`holder
      ensures Valid() && current in old(threads) && St() == SetHolder(old(St()), current, s, h, phase)
    {
      ghost var st := St();
      assert current in threads;
      hide Inv;
      HoldKeeps(st, current, s, h, phase);
      threads := threads[current := threads[current].(locks := threads[current].locks[s := phase])];
      holder := holder[s := h];
      assert St() == SetHolder(st, current, s, h, phase);
    }

    /** The sema_up of lock_release. */
    method LeaveLock(s: nat)
      requires Valid() && s in threads[current].locks && threads[current].locks[s] == Leaving
      modifies this`threads, this`ready, this`sleeping, this`semas
      ensures Valid() && |semas| == |old(semas)| && s < |semas| && semas[s].value == 1 && current in old(threads)
      ensures CanUp(Left(old(St()), current, s), s) && St() == Upped(Left(old(St()), current, s), s)
    {
      ghost var st := St();
      assert current in threads;
      hide Inv;
      LeaveKeeps(st, current, s);
      threads := threads[current := threads[current].(locks := threads[current].locks - {s})];
      assert St() == Left(st, current, s);
      SemaUp(s);
    }

    method Step(op: Op)
      requires Valid() && LegalStep(Config(St(), current), op)
      modifies this`threads, this`current, this`ready, this`sleeping, this`semas, this`holder, this`nextTid
      ensures Valid() && Next(old(Config(St(), current)), op, Config(St(), current))
    {
      hide Inv, Switched, Woke, Yielded, BlockedOn, Downed, Upped, Created, Exited, Slept, Aged, SetHolder, Left;
      match op {
        case Yield => YieldThread();
        case Down(s) => var _ := SemaDown(s);
        case TryDown(s) => var _ := SemaTryDown(s);
        case Up(s) => SemaUp(s);
        case Create(priority) => CreateThread(priority);
        case Exit => ExitThread();
        case Sleep(tick) => SleepUntil(tick);
        case WakeUp(now) => WakeSleepers(now);
        case Age => AgeThreads();
        case SetPriority(priority) => ChangePriority(priority);
        case IdleBlock => BlockIdle();
        case Hold(s) => HoldLock(s);
        case Unhold(s) => UnholdLock(s);
        case Leave(s) => LeaveLock(s);
      }
    }

    /** Every interleaving of legal steps: each state follows from the one before by its step, and is safe. */
    method Run(ops: seq<Op>) returns (done: nat, ghost states: seq<Config>)
      requires Valid()
      modifies this`threads, this`current, this`ready, this`sleeping, this`semas, this`holder, this`nextTid
      ensures done <= |ops| && |states| == done + 1
      ensures states[0] == old(Config(St(), current)) && states[done] == Config(St(), current)
      ensures IsTrace(states, ops) && Valid()
      ensures done < |ops| ==> !LegalStep(Config(St(), current), ops[done])
    {
      hide Inv, Next, LegalStep, Safe;
      done, states := 0, [Config(St(), current)];
      InvIsSafe(St(), Some(current));
      while done < |ops| && LegalStep(Config(St(), current), ops[done])
        invariant done <= |ops| && |states| == done + 1
        invariant states[0] == old(Config(St(), current)) && states[done] == Config(St(), current)
        invariant IsTrace(states, ops) && Valid()
      {
        Step(ops[done]);
        InvIsSafe(St(), Some(current));
        states := states + [Config(St(), current)];
        done := done + 1;
      }
    }
  }

  // ----- Runs -----

  /** The kernel and its running thread. */
  datatype Config = Config(st: State, cur: Tid)

  /** What the running thread may do: nothing but test again while it is in sema_down; release only what it
      holds. The idle thread never waits. */
  predicate LegalStep(a: Config, op: Op) {
    a.cur in a.st.threads &&
    var th := a.st.threads[a.cur];
    match op
    case Yield => th.waiting.None?
    case Down(s) => s < |a.st.semas| && a.cur != a.st.idle && MayDown(th, s)
    case TryDown(s) => s < |a.st.semas| && th.waiting.None?
    case Up(s) => s < |a.st.semas| && s !in a.st.holder && th.waiting.None?
    case Create(_) => th.waiting.None?
    case Exit => a.cur != a.st.idle && th.waiting.None?
    case Sleep(_) => a.cur != a.st.idle && th.waiting.None?
    case WakeUp(_) => true
    case Age => true
    case SetPriority(_) => th.waiting.None?
    case IdleBlock => a.cur == a.st.idle
    case Hold(s) => s in th.locks && th.locks[s] == Got
    case Unhold(s) => s in a.st.holder && a.st.holder[s] == Some(a.cur)
    case Leave(s) => s in th.locks && th.locks[s] == Leaving
  }

  ghost predicate CanUp(st: State, s: nat) {
    s < |st.semas| && (st.semas[s].waiters != [] ==> st.semas[s].waiters[0] in st.threads)
  }

  /** What one step does to the kernel and which thread it leaves running. */
  ghost predicate Next(a: Config, op: Op, b: Config) {
    LegalStep(a, op) && match op
      case Yield => Switched(Yielded(a.st, a.cur), b.st, b.cur)
      case Down(s) =>
        if a.st.semas[s].value > 0 then b == Config(Downed(a.st, a.cur, s), a.cur)
        else Switched(BlockedOn(a.st, a.cur, s), b.st, b.cur)
      case TryDown(s) => b == if a.st.semas[s].value > 0 then Config(Downed(a.st, a.cur, s), a.cur) else a
      case Up(s) => CanUp(a.st, s) && b == Config(Upped(a.st, s), a.cur)
      case Create(priority) => b == Config(Created(a.st, priority), a.cur)
      case Exit => Switched(Exited(a.st, a.cur), b.st, b.cur)
      case Sleep(tick) => Switched(Slept(a.st, a.cur, tick), b.st, b.cur)
      case WakeUp(now) => b == Config(AllWoken(a.st, now), a.cur) && Woke(a.st, b.st, now)
      case Age => b == Config(Aged(a.st), a.cur)
      case SetPriority(priority) => b == Config(Reprioritized(a.st, a.cur, priority), a.cur)
      case IdleBlock => a.st.idle in a.st.threads && Switched(IdleBlocked(a.st), b.st, b.cur)
      case Hold(s) => b == Config(SetHolder(a.st, a.cur, s, Some(a.cur), Held), a.cur)
      case Unhold(s) => b == Config(SetHolder(a.st, a.cur, s, None, Leaving), a.cur)
      case Leave(s) => CanUp(Left(a.st, a.cur, s), s) && b == Config(Upped(Left(a.st, a.cur, s), s), a.cur)
  }

  /** states are the ones passed through by the first |states| - 1 steps, each consistent and safe. */
  ghost predicate IsTrace(states: seq<Config>, ops: seq<Op>) {
    && 0 < |states| <= |ops| + 1
    && (forall i :: 0 <= i < |states| ==> Inv(states[i].st, Some(states[i].cur)) && Safe(states[i].st))
    && (forall i :: 0 <= i < |states| - 1 ==> Next(states[i], ops[i], states[i + 1]))
  }

  // ----- What each step does, in its own words -----

  /** The step unblocks thread t. */
  predicate Wakes(a: Config, op: Op, t: Tid) {
    match op
    case WakeUp(now) => t in a.st.sleeping && t in a.st.threads && a.st.threads[t].wake <= now
    case Up(s) => s < |a.st.semas| && a.st.semas[s].waiters != [] && t == a.st.semas[s].waiters[0]
    case Leave(s) => s < |a.st.semas| && a.st.semas[s].waiters != [] && t == a.st.semas[s].waiters[0]
    case _ => false
  }

  /** The step blocks the running thread. */
  predicate Blocks(a: Config, op: Op) {
    match op
    case Sleep(_) => true
    case IdleBlock => true
    case Down(s) => s < |a.st.semas| && a.st.semas[s].value == 0
    case _ => false
  }

  /** A new thread gets the next tid, its priority and nothing else; only an exit takes a thread away. */
  lemma StepThreads(a: Config, op: Op, b: Config, t: Tid)
    requires Next(a, op, b)
    ensures t in b.st.threads <==> (t in a.st.threads && !(op.Exit? && t == a.cur)) || (op.Create? && t == a.st.nextTid)
    ensures op.Create? && t == a.st.nextTid ==> b.st.threads[t] == Thread(Ready, op.priority, 0, None, map[])
    ensures b.st.idle == a.st.idle && b.st.nextTid == if op.Create? then a.st.nextTid + 1 else a.st.nextTid
  {
    if op.WakeUp? {
      WokenElsewhere(a.st, op.now);
    }
    hide Inserted, AllWoken;
  }

  /** A thread's priority changes only when it sets it, or by one up to 63 when the ready threads age; its wake-up tick
      only when it sleeps. */
  lemma StepPriority(a: Config, op: Op, b: Config, t: Tid)
    requires Next(a, op, b) && t in a.st.threads && t in b.st.threads && a.st.nextTid != t
    ensures b.st.threads[t].priority ==
      var p := a.st.threads[t].priority;
      if op.SetPriority? && t == a.cur then op.priority
      else if op.Age? && t in a.st.ready then (if p < 63 then p + 1 else 63)
      else p
    ensures b.st.threads[t].wake == if op.Sleep? && t == a.cur then op.tick else a.st.threads[t].wake
  {
    hide Inserted, AllWoken;
  }

  /** A thread waits for a semaphore from the turn of sema_down that finds it zero to the one that finds it up. */
  lemma StepWaiting(a: Config, op: Op, b: Config, t: Tid)
    requires Next(a, op, b) && t in a.st.threads && t in b.st.threads && a.st.nextTid != t
    ensures b.st.threads[t].waiting ==
      if t == a.cur && op.Down? then (if a.st.semas[op.sema].value > 0 then None else Some(op.sema))
      else a.st.threads[t].waiting
  {
    hide Inserted, AllWoken;
  }

  /** A thread's part in a lock changes only by its own steps. */
  lemma StepLocks(a: Config, op: Op, b: Config, t: Tid)
    requires Next(a, op, b) && t in a.st.threads && t in b.st.threads && a.st.nextTid != t
    ensures b.st.threads[t].locks ==
      var locks := a.st.threads[t].locks;
      if t != a.cur then locks
      else match op
        case Down(s) => if a.st.semas[s].value > 0 && s in a.st.holder then locks[s := Got] else locks
        case TryDown(s) => if a.st.semas[s].value > 0 && s in a.st.holder then locks[s := Got] else locks
        case Hold(s) => locks[s := Held]
        case Unhold(s) => locks[s := Leaving]
        case Leave(s) => locks - {s}
        case _ => locks
    ensures b.st.holder ==
      match op
      case Hold(s) => a.st.holder[s := Some(a.cur)]
      case Unhold(s) => a.st.holder[s := None]
      case _ => a.st.holder
  {
    if op.WakeUp? {
      WokenElsewhere(a.st, op.now);
    }
    hide Inserted, AllWoken;
  }

  /** After a switch the running thread is a ready one of highest priority, or the idle thread if none is ready. */
  lemma SwitchRuns(st: State, n: State, t: Tid)
    requires Queued(st) && Switched(st, n, t)
    ensures t in st.threads && (t == st.idle || st.threads[t].status == Ready) && n.threads.Keys == st.threads.Keys
    ensures forall u | u in st.threads ::
      n.threads[u] == if u == t then st.threads[u].(status := Running) else st.threads[u]
    ensures forall u | u in n.threads && u != st.idle && n.threads[u].status == Ready ::
      t != st.idle && n.threads[t].priority >= n.threads[u].priority
  {
    DispatchPicks(st);
    assert QueueOk(st, ReadyQ);
    assert st.ready != [] ==> st.ready[0] in st.ready;
    hide Queued, QueueOk;
  }

  /** The step gives the processor to another thread, if it is the better one. */
  predicate Switches(a: Config, op: Op) { Blocks(a, op) || op.Yield? || op.Exit? }

  /** The state from which a switching step switches. */
  lemma BeforeSwitch(a: Config, op: Op, b: Config) returns (m: State)
    requires Next(a, op, b) && Inv(a.st, Some(a.cur)) && Switches(a, op)
    ensures Queued(m) && Switched(m, b.st, b.cur) && m.idle == a.st.idle && m.threads.Keys <= a.st.threads.Keys
    ensures forall t | t in m.threads && t != a.cur :: m.threads[t] == a.st.threads[t]
    ensures a.cur in m.threads && m.threads[a.cur].status == Ready ==> op.Yield?
    ensures a.cur == m.idle ==> op.Yield? || op.IdleBlock?
  {
    hide Inv, Inserted;
    match op {
      case Yield =>
        m := Yielded(a.st, a.cur);
        YieldKeeps(a.st, a.cur);
      case Exit =>
        m := Exited(a.st, a.cur);
        ExitKeeps(a.st, a.cur);
      case Sleep(tick) =>
        m := Slept(a.st, a.cur, tick);
        SleepKeeps(a.st, a.cur, tick);
      case IdleBlock =>
        m := IdleBlocked(a.st);
        IdleBlockKeeps(a.st);
      case Down(s) =>
        m := BlockedOn(a.st, a.cur, s);
        BlockKeeps(a.st, a.cur, s);
    }
    InvQueued(m, None);
  }

  lemma InvQueued(st: State, cur: Option<Tid>)
    requires Inv(st, cur)
    ensures Queued(st)
  {
  }

  /** The running thread changes only when it blocks, yields or exits; then no ready thread has a higher priority than
      the one that runs next. */
  lemma StepRuns(a: Config, op: Op, b: Config)
    requires Next(a, op, b) && Inv(a.st, Some(a.cur))
    ensures !Switches(a, op) ==> b.cur == a.cur
    ensures b.cur == a.cur ==> !(op.Exit? || op.Sleep? || (op.Down? && Blocks(a, op)))
    ensures b.cur != a.cur ==> b.cur in a.st.threads && (b.cur == a.st.idle || a.st.threads[b.cur].status == Ready)
    ensures Switches(a, op) ==> b.cur in b.st.threads && forall t | t in b.st.threads && t != a.st.idle &&
      b.st.threads[t].status == Ready :: b.cur != a.st.idle && b.st.threads[b.cur].priority >= b.st.threads[t].priority
  {
    if Switches(a, op) {
      var m := BeforeSwitch(a, op, b);
      hide Inv, Next, Queued, Switched;
      SwitchRuns(m, b.st, b.cur);
    }
  }

  /** A thread that yields makes way for a ready one of its own priority. */
  lemma YieldMakesWay(a: Config, b: Config, t: Tid)
    requires Next(a, Yield, b) && Inv(a.st, Some(a.cur)) && a.cur != a.st.idle
    requires t in a.st.ready && t in a.st.threads && a.st.threads[t].priority >= a.st.threads[a.cur].priority
    ensures b.cur != a.cur && b.cur in a.st.ready
  {
    var m := Yielded(a.st, a.cur);
    assert QueueOk(a.st, ReadyQ);
    PoppedFacts(a.st.threads, ReadyQ, a.st.ready);
    assert Key(a.st.threads, ReadyQ, a.st.ready[0]) <= Key(a.st.threads, ReadyQ, t);
    assert a.st.ready[0] in a.st.ready;
    hide Queued, QueueOk, Distinct, Ordered;
    assert m.ready[0] == a.st.ready[0];
  }

  /** Besides the thread that runs next, a thread is blocked if and only if the step blocks it, or it was blocked and
      the step does not wake it. */
  lemma StepStatus(a: Config, op: Op, b: Config, t: Tid)
    requires Next(a, op, b) && Inv(a.st, Some(a.cur)) && Inv(b.st, Some(b.cur))
    requires t in a.st.threads && t in b.st.threads
    ensures b.st.threads[t].status == Running <==> t == b.cur
    ensures t != b.cur ==> (b.st.threads[t].status == Blocked <==> BlockedAfter(a, op, t))
  {
    assert t != a.st.nextTid && (a.st.threads[t].status == Running <==> t == a.cur);
    hide Inv, Blocks, Wakes, BlockedAfter;
    if !Switches(a, op) {
      StayStatus(a, op, b, t);
    } else if t != b.cur {
      SwitchStatus(a, op, b, t);
    }
  }

  ghost predicate BlockedAfter(a: Config, op: Op, t: Tid)
    requires t in a.st.threads
  {
    (t == a.cur && Blocks(a, op)) || (a.st.threads[t].status == Blocked && !Wakes(a, op, t))
  }

  lemma SwitchStatus(a: Config, op: Op, b: Config, t: Tid)
    requires Next(a, op, b) && Switches(a, op) && t in a.st.threads && t in b.st.threads && t != b.cur
    requires a.st.threads[t].status == Running <==> t == a.cur
    ensures b.st.threads[t].status == Blocked <==> BlockedAfter(a, op, t)
  {
    hide Inserted, AllWoken;
  }

  lemma StayStatus(a: Config, op: Op, b: Config, t: Tid)
    requires Next(a, op, b) && !Switches(a, op) && t in a.st.threads && t in b.st.threads && t != a.st.nextTid
    requires a.st.threads[t].status == Running <==> t == a.cur
    ensures b.st.threads[t].status == Blocked <==> BlockedAfter(a, op, t)
  {
    hide Inserted, AllWoken;
  }

  predicate IsUp(op: Op, s: nat) { op == Up(s) || op == Leave(s) }

  /** A down of s, by sema_down or sema_try_down, that completes. */
  predicate IsDown(a: Config, op: Op, s: nat) {
    (op == Down(s) || op == TryDown(s)) && s < |a.st.semas| && a.st.semas[s].value > 0
  }

  function Ups(ops: seq<Op>, s: nat, k: nat): nat
    requires k <= |ops|
  {
    if k == 0 then 0 else Ups(ops, s, k - 1) + (if IsUp(ops[k - 1], s) then 1 else 0)
  }

  ghost function Downs(states: seq<Config>, ops: seq<Op>, s: nat, k: nat): nat
    requires k < |states| <= |ops| + 1
  {
    if k == 0 then 0 else Downs(states, ops, s, k - 1) + (if IsDown(states[k - 1], ops[k - 1], s) then 1 else 0)
  }

  /** One step changes a semaphore's value by its up or its completed down. */
  lemma StepCounts(a: Config, op: Op, b: Config, s: nat)
    requires Next(a, op, b) && s < |a.st.semas|
    ensures |b.st.semas| == |a.st.semas|
    ensures b.st.semas[s].value + (if IsDown(a, op, s) then 1 else 0) ==
            a.st.semas[s].value + (if IsUp(op, s) then 1 else 0)
  {
    if op.WakeUp? {
      WokenElsewhere(a.st, op.now);
    }
    hide Inserted, Woke;
  }

  /** Along every run, a semaphore's value is its first value plus the ups minus the completed downs. */
  lemma {:induction false} TraceCounts(states: seq<Config>, ops: seq<Op>, s: nat, k: nat)
    requires IsTrace(states, ops) && k < |states| <= |ops| + 1 && s < |states[0].st.semas|
    ensures |states[k].st.semas| == |states[0].st.semas|
    ensures states[k].st.semas[s].value + Downs(states, ops, s, k) == states[0].st.semas[s].value + Ups(ops, s, k)
  {
    hide Next, IsTrace, IsDown, IsUp;
    if k > 0 {
      TraceCounts(states, ops, s, k - 1);
      TraceStep(states, ops, k - 1);
      StepCounts(states[k - 1], ops[k - 1], states[k], s);
    }
  }

  lemma TraceStep(states: seq<Config>, ops: seq<Op>, i: nat)
    requires IsTrace(states, ops) && i < |states| - 1
    ensures Next(states[i], ops[i], states[i + 1])
  {
  }

  // ----- Sleeping -----

  lemma TraceInv(states: seq<Config>, ops: seq<Op>, i: nat)
    requires IsTrace(states, ops) && i < |states|
    ensures Inv(states[i].st, Some(states[i].cur))
  {
  }

  /** Thread t sleeps until tick. */
  ghost predicate Asleep(st: State, t: Tid, tick: int) {
    && t in st.threads && t != st.idle && st.threads[t].status == Blocked && st.threads[t].waiting.None?
    && st.threads[t].wake == tick
  }

  /** A sleeper stays asleep until thread_wake_up comes with its tick or a later one, and then is ready. */
  lemma StepSleeper(a: Config, op: Op, b: Config, t: Tid, tick: int)
    requires Next(a, op, b) && Inv(a.st, Some(a.cur)) && Inv(b.st, Some(b.cur)) && Asleep(a.st, t, tick)
    ensures op.WakeUp? && op.now >= tick ==> t in b.st.ready && t !in b.st.sleeping
    ensures !(op.WakeUp? && op.now >= tick) ==> Asleep(b.st, t, tick)
  {
    assert t != a.cur && t < a.st.nextTid && Queued(a.st);
    hide Inv, Next, Queued, BlockedAfter;
    StepThreads(a, op, b, t);
    StepPriority(a, op, b, t);
    StepWaiting(a, op, b, t);
    StepRuns(a, op, b);
    StepStatus(a, op, b, t);
    Kernel.SleeperQueued(a.st, Some(a.cur), t);
    Kernel.SleeperQueued(b.st, Some(b.cur), t);
    WakesSleeper(a, op, t);
  }

  /** Of the threads that sleep only thread_wake_up wakes any, those whose tick has come. */
  lemma WakesSleeper(a: Config, op: Op, t: Tid)
    requires Queued(a.st) && t in a.st.sleeping && t in a.st.threads && a.st.threads[t].waiting.None?
    requires t != a.cur && a.st.threads[t].status == Blocked
    ensures BlockedAfter(a, op, t) <==> !(op.WakeUp? && op.now >= a.st.threads[t].wake)
  {
    match op {
      case Up(s) =>
        if s < |a.st.semas| {
          UpPicks(a.st, s);
        }
      case Leave(s) =>
        if s < |a.st.semas| {
          UpPicks(a.st, s);
        }
      case _ =>
    }
  }

  /** Over any run a thread that calls thread_sleep is on the sleeping list until the first thread_wake_up with its tick
      or a later one, which makes it ready. */
  lemma {:induction false} SleepsUntil(states: seq<Config>, ops: seq<Op>, i: nat, j: nat)
    requires IsTrace(states, ops) && i < j < |states| && ops[i].Sleep?
    requires forall m :: i < m < j ==> !(ops[m].WakeUp? && ops[m].now >= ops[i].tick)
    ensures Asleep(states[j].st, states[i].cur, ops[i].tick) && states[i].cur in states[j].st.sleeping
    ensures j + 1 < |states| && ops[j].WakeUp? && ops[j].now >= ops[i].tick ==>
      states[i].cur in states[j + 1].st.ready && states[i].cur !in states[j + 1].st.sleeping
  {
    hide *;
    TraceLength(states, ops);
    var t, tick := states[i].cur, ops[i].tick;
    TraceInv(states, ops, j - 1);
    TraceInv(states, ops, j);
    TraceStep(states, ops, j - 1);
    if j == i + 1 {
      FallsAsleep(states[i], tick, states[j]);
    } else {
      SleepsUntil(states, ops, i, j - 1);
      StepSleeper(states[j - 1], ops[j - 1], states[j], t, tick);
    }
    AsleepQueued(states[j], t, tick);
    if j + 1 < |states| {
      TraceInv(states, ops, j + 1);
      TraceStep(states, ops, j);
      StepSleeper(states[j], ops[j], states[j + 1], t, tick);
    }
  }

  lemma TraceLength(states: seq<Config>, ops: seq<Op>)
    requires IsTrace(states, ops)
    ensures |states| <= |ops| + 1
  {
  }

  lemma AsleepQueued(a: Config, t: Tid, tick: int)
    requires Inv(a.st, Some(a.cur)) && Asleep(a.st, t, tick)
    ensures t in a.st.sleeping
  {
    hide Inv;
    Kernel.SleeperQueued(a.st, Some(a.cur), t);
  }

  lemma FallsAsleep(a: Config, tick: int, b: Config)
    requires Next(a, Sleep(tick), b) && Inv(a.st, Some(a.cur)) && Inv(b.st, Some(b.cur))
    ensures Asleep(b.st, a.cur, tick)
  {
    assert a.cur in a.st.threads && a.cur < a.st.nextTid && a.cur != a.st.idle && a.st.threads[a.cur].waiting.None?;
    hide Inv, Next;
    StepThreads(a, Sleep(tick), b, a.cur);
    StepPriority(a, Sleep(tick), b, a.cur);
    StepWaiting(a, Sleep(tick), b, a.cur);
    StepRuns(a, Sleep(tick), b);
    StepStatus(a, Sleep(tick), b, a.cur);
  }
}
