/** Creating, exiting and waiting for processes, as the interleaved steps of their threads. */
module ExitState {
  import opened Basics

  type Tid = nat

  /** Where a thread is. Loading: before its sema_load is upped. Execing(c): in syscall_exec, at
      sema_down (c's sema_load). Waiting(c): in process_wait, at sema_down (c's sema_wait). Removed(c): past
      it, c off the child list. Read(c, v): has v, about to up c's sema_elim. ExitLoop: in thread_exit's
      loop. Upping(c): there, c off the list, about to up its sema_elim. Told: has upped its own sema_wait,
      at sema_down (its sema_elim). */
  datatype Pc = Loading | User | Execing(child: Tid)
              | Waiting(child: Tid) | Removed(child: Tid) | Read(child: Tid, value: int)
              | ExitLoop | Upping(child: Tid) | Told

  /** parent is only used to state properties. */
  datatype Proc = Proc(pc: Pc, status: int, isLoaded: bool, children: seq<Tid>, wait: nat, elim: nat, load: nat,
                       parent: Tid)

  /** procs: threads not yet freed. exitCode: what each thread that started to exit exits with. elimUps: how
      often each sema_elim has been upped. waited: completed waits, as parent and child. */
  datatype State = State(procs: map<Tid, Proc>, nextTid: Tid, exitCode: map<Tid, int>, elimUps: map<Tid, nat>,
                         waited: set<(Tid, Tid)>)

  predicate Exiting(pc: Pc) { pc == ExitLoop || pc.Upping? || pc == Told }

  /** c has not been freed and nobody has let it go. */
  ghost predicate Kept(st: State, p: Tid, c: Tid) {
    c in st.procs && c in st.elimUps && st.procs[c].parent == p && st.elimUps[c] == 0 && c != p
  }

  /** c is off p's list and p is about to let it go. */
  ghost predicate Claims(st: State, p: Tid, c: Tid) {
    p in st.procs && match st.procs[p].pc
      case Removed(d) => c == d
      case Read(d, _) => c == d
      case Upping(d) => c == d
      case _ => false
  }

  ghost predicate ChildrenOk(st: State, p: Tid)
    requires p in st.procs
  {
    && Distinct(st.procs[p].children)
    && forall c | c in st.procs[p].children :: Kept(st, p, c) && (p, c) !in st.waited
  }

  /** What p's position says about the child it names. */
  ghost predicate PcOk(st: State, p: Tid)
    requires p in st.procs
  {
    match st.procs[p].pc
    case Execing(c) => c in st.procs[p].children
    case Waiting(c) => c in st.procs[p].children
    case Removed(c) => Gone(st, p, c) && st.procs[c].pc == Told && st.procs[c].wait == 0
    case Read(c, v) => Gone(st, p, c) && st.procs[c].pc == Told && st.procs[c].wait == 0 && st.procs[c].status == v
    case Upping(c) => Gone(st, p, c)
    case _ => true
  }

  /** c is off p's list but not let go. */
  ghost predicate Gone(st: State, p: Tid, c: Tid)
    requires p in st.procs
  {
    Kept(st, p, c) && c !in st.procs[p].children && (p, c) !in st.waited
  }

  /** A thread's own semaphores and exit code. */
  ghost predicate SelfOk(st: State, t: Tid)
    requires t in st.procs
  {
    var p := st.procs[t];
    && t < st.nextTid && t in st.elimUps && p.elim == st.elimUps[t] <= 1
    && p.wait <= 1 && (p.wait == 1 ==> p.pc == Told) && (p.pc == Told ==> p.children == [])
    && (Exiting(p.pc) <==> t in st.exitCode)
    && p.status == (if Exiting(p.pc) then st.exitCode[t] else 0)
  }

  ghost predicate ProcOk(st: State, t: Tid)
    requires t in st.procs
  {
    SelfOk(st, t) && ChildrenOk(st, t) && PcOk(st, t)
  }

  ghost predicate Inv(st: State) {
    && (forall t | t in st.procs :: ProcOk(st, t))
    && (forall t | t in st.elimUps :: t < st.nextTid && st.elimUps[t] <= 1)
    && (forall t | t in st.exitCode :: t < st.nextTid)
    && (forall w | w in st.waited :: w.0 < st.nextTid && w.1 < st.nextTid)
  }

  // ----- Steps -----

  function Set(st: State, t: Tid, p: Proc): State { st.(procs := st.procs[t := p]) }

  /** Steps that change nothing about a thread that its parent or children rely on. */
  lemma LocalStep(st: State, t: Tid, p: Proc)
    requires Inv(st) && t in st.procs
    requires p.children == st.procs[t].children && p.elim == st.procs[t].elim && p.parent == st.procs[t].parent
    requires p.wait == st.procs[t].wait && p.status == st.procs[t].status && Exiting(p.pc) == Exiting(st.procs[t].pc)
    requires (p.pc == Told) == (st.procs[t].pc == Told)
    requires PcOk(Set(st, t, p), t)
    ensures Inv(Set(st, t, p))
  {
    var n := Set(st, t, p);
    forall u | u in n.procs
      ensures ProcOk(n, u)
    {
      assert ProcOk(st, u);
    }
  }

  /** A thread whose position names no child it does not have on its list. */
  lemma PcStep(st: State, t: Tid, pc: Pc)
    requires Inv(st) && t in st.procs && !Exiting(pc) && !Exiting(st.procs[t].pc)
    requires pc == User || ((pc.Execing? || pc.Waiting?) && pc.child in st.procs[t].children)
    ensures Inv(Set(st, t, st.procs[t].(pc := pc)))
  {
    assert PcOk(Set(st, t, st.procs[t].(pc := pc)), t);
    LocalStep(st, t, st.procs[t].(pc := pc));
  }

  /** syscall_exec past its sema_down on the child's sema_load. */
  function LoadDowned(st: State, p: Tid, c: Tid): State
    requires p in st.procs && c in st.procs && st.procs[c].load > 0 && p != c
  {
    Set(Set(st, c, st.procs[c].(load := st.procs[c].load - 1)), p, st.procs[p].(pc := User))
  }

  lemma LoadDownKeeps(st: State, p: Tid, c: Tid)
    requires Inv(st) && p in st.procs && c in st.procs && st.procs[c].load > 0 && p != c && st.procs[p].pc.Execing?
    ensures Inv(LoadDowned(st, p, c))
  {
    var ch := st.procs[c].(load := st.procs[c].load - 1);
    var n := Set(st, c, ch);
    assert ProcOk(st, c);
    assert PcOk(n, c);
    hide Inv;
    LocalStep(st, c, ch);
    PcStep(n, p, User);
  }

  lemma ExecingChild(st: State, p: Tid)
    requires Inv(st) && p in st.procs && st.procs[p].pc.Execing?
    ensures st.procs[p].pc.child in st.procs && st.procs[p].pc.child != p
  {
    assert ProcOk(st, p);
    ListedIsKept(st, p, st.procs[p].pc.child);
  }

  /** The child a thread's position names has not been freed. */
  lemma NamedChild(st: State, t: Tid)
    requires Inv(st) && t in st.procs
    ensures var pc := st.procs[t].pc;
      pc.Execing? || pc.Waiting? || pc.Removed? || pc.Read? || pc.Upping? ==> Kept(st, t, pc.child)
  {
    assert ProcOk(st, t);
  }

  /** A child on its parent's list has not been freed. */
  lemma ListedIsKept(st: State, p: Tid, c: Tid)
    requires Inv(st) && p in st.procs && c in st.procs[p].children
    ensures Kept(st, p, c) && c != p && (p, c) !in st.waited
  {
    assert ProcOk(st, p);
  }

  /** thread_create. */
  function Created(st: State, p: Tid, pc: Pc): State
    requires p in st.procs
  {
    var c := st.nextTid;
    var par := st.procs[p];
    st.(procs := st.procs[p := par.(children := par.children + [c])][c := Proc(pc, 0, false, [], 0, 0, 0, p)],
        nextTid := c + 1, elimUps := st.elimUps[c := 0])
  }

  lemma CreateKeeps(st: State, p: Tid, pc: Pc)
    requires Inv(st) && p in st.procs && st.procs[p].pc == User && pc in {Loading, User}
    ensures st.nextTid !in st.procs && Inv(Created(st, p, pc))
  {
    var c, n := st.nextTid, Created(st, p, pc);
    assert ProcOk(st, p);
    assert c !in st.procs;
    assert forall w | w in st.waited :: w != (p, c);
    forall u | u in st.procs
      ensures ProcOk(n, u)
    {
      assert ProcOk(st, u);
      CreateOne(st, p, pc, u);
    }
    assert ProcOk(n, c);
  }

  lemma CreateOne(st: State, p: Tid, pc: Pc, u: Tid)
    requires p in st.procs && u in st.procs && ProcOk(st, u) && st.nextTid !in st.procs && (p, st.nextTid) !in st.waited
    requires st.procs[p].pc == User
    ensures ProcOk(Created(st, p, pc), u)
  {
    var c, n := st.nextTid, Created(st, p, pc);
    assert forall d | Kept(st, u, d) :: Kept(n, u, d);
    assert c !in st.procs[u].children by {
      assert forall d | d in st.procs[u].children :: Kept(st, u, d);
    }
    Appended(st.procs[u].children, c);
    hide Distinct;
  }

  /** The start of thread_exit, after syscall_exit stored a status, if it is how the thread exits. */
  function ExitStarted(st: State, t: Tid, status: Option<int>): State
    requires t in st.procs
  {
    var v := if status.Some? then status.value else st.procs[t].status;
    Set(st, t, st.procs[t].(pc := ExitLoop, status := v)).(exitCode := st.exitCode[t := v])
  }

  lemma StartExitKeeps(st: State, t: Tid, status: Option<int>)
    requires Inv(st) && t in st.procs && st.procs[t].pc == User
    ensures Inv(ExitStarted(st, t, status))
  {
    var n := ExitStarted(st, t, status);
    forall u | u in n.procs
      ensures ProcOk(n, u)
    {
      assert ProcOk(st, u);
    }
  }

  /** thread_exit takes its next child off the list, or, with none left, ups its own sema_wait. */
  function ExitStepped(st: State, t: Tid): State
    requires t in st.procs
  {
    var p := st.procs[t];
    if p.children == [] then Set(st, t, p.(pc := Told, wait := p.wait + 1))
    else Set(st, t, p.(pc := Upping(p.children[0]), children := p.children[1..]))
  }

  lemma ExitStepKeeps(st: State, t: Tid)
    requires Inv(st) && t in st.procs && st.procs[t].pc == ExitLoop
    ensures Inv(ExitStepped(st, t))
  {
    var n, l := ExitStepped(st, t), st.procs[t].children;
    assert ProcOk(st, t);
    if l != [] {
      Popped(l);
      assert Kept(st, t, l[0]);
    }
    hide Distinct;
    forall u | u in n.procs
      ensures ProcOk(n, u)
    {
      assert ProcOk(st, u);
      assert forall d | Kept(st, u, d) :: Kept(n, u, d);
    }
  }

  /** The parent ups c's sema_elim, and moves on to pc. */
  function LetGo(st: State, p: Tid, c: Tid, pc: Pc, waited: set<(Tid, Tid)>): State
    requires p in st.procs && c in st.procs && c in st.elimUps && p != c
  {
    var ch := st.procs[c];
    st.(procs := st.procs[p := st.procs[p].(pc := pc)][c := ch.(elim := ch.elim + 1)],
        elimUps := st.elimUps[c := st.elimUps[c] + 1], waited := waited)
  }

  lemma LetGoKeeps(st: State, p: Tid, c: Tid, pc: Pc, waited: set<(Tid, Tid)>)
    requires Inv(st) && p in st.procs && c in st.procs && Claims(st, p, c)
    requires (pc == ExitLoop && st.procs[p].pc.Upping? && waited == st.waited)
          || (pc == User && st.procs[p].pc.Read? && waited == st.waited + {(p, c)})
    ensures Gone(st, p, c) && Inv(LetGo(st, p, c, pc, waited))
  {
    assert ProcOk(st, p) && ProcOk(st, c);
    var n := LetGo(st, p, c, pc, waited);
    hide Distinct;
    forall u | u in n.procs
      ensures ProcOk(n, u)
    {
      assert ProcOk(st, u);
      forall d | Kept(st, u, d) && (d != c || u != p)
        ensures Kept(n, u, d)
      {
      }
    }
  }

  /** A thread that has been let go is freed. */
  function Freed(st: State, t: Tid): State { st.(procs := st.procs - {t}) }

  lemma FreeKeeps(st: State, t: Tid)
    requires Inv(st) && t in st.procs && st.procs[t].pc == Told && st.procs[t].elim > 0
    ensures Inv(Freed(st, t))
    ensures forall p, c | p in st.procs && c in st.procs[p].children :: c != t
    ensures forall p | p in st.procs :: !Claims(st, p, t)
  {
    var n := Freed(st, t);
    assert ProcOk(st, t);
    forall u | u in st.procs
      ensures t !in st.procs[u].children && !Claims(st, u, t)
      ensures u != t ==> ProcOk(n, u)
    {
      assert ProcOk(st, u);
      assert forall d | Kept(st, u, d) :: d != t && Kept(n, u, d);
    }
  }

  /** process_wait past its sema_down, with the child off the list. */
  function WaitDowned(st: State, p: Tid, c: Tid): State
    requires p in st.procs && c in st.procs && st.procs[c].wait > 0 && p != c
  {
    var ch := st.procs[c];
    st.(procs := st.procs[p := st.procs[p].(pc := Removed(c), children := Without(st.procs[p].children, c))]
                         [c := ch.(wait := ch.wait - 1)])
  }

  lemma WaitDownKeeps(st: State, p: Tid, c: Tid)
    requires Inv(st) && p in st.procs && st.procs[p].pc == Waiting(c) && c in st.procs && st.procs[c].wait > 0
    ensures p != c && Inv(WaitDowned(st, p, c))
  {
    assert ProcOk(st, p) && ProcOk(st, c);
    assert Kept(st, p, c);
    WithoutFacts(st.procs[p].children, c);
    var n := WaitDowned(st, p, c);
    hide Without;
    forall u | u in n.procs
      ensures ProcOk(n, u)
    {
      assert ProcOk(st, u);
      assert forall d | Kept(st, u, d) :: Kept(n, u, d);
    }
  }

  /** process_wait reads the child's exit status. */
  lemma ReadKeeps(st: State, p: Tid, c: Tid)
    requires Inv(st) && p in st.procs && st.procs[p].pc == Removed(c)
    ensures c in st.procs && c in st.exitCode && st.procs[c].status == st.exitCode[c]
    ensures Inv(Set(st, p, st.procs[p].(pc := Read(c, st.procs[c].status))))
  {
    assert ProcOk(st, p);
    assert ProcOk(st, c);
    var n := Set(st, p, st.procs[p].(pc := Read(c, st.procs[c].status)));
    assert PcOk(n, p);
    LocalStep(st, p, n.procs[p]);
  }

  // ----- What the invariant means -----

  /** Children on a list are not freed, have one parent and have not been waited for; each sema_elim is
      upped at most once; a parent that has read a status read what the child exited with. */
  ghost predicate Safe(st: State) {
    && (forall p, c :: p in st.procs && c in st.procs[p].children ==> c in st.procs && (p, c) !in st.waited)
    && (forall p, q, c ::
          p in st.procs && q in st.procs && c in st.procs[p].children && c in st.procs[q].children ==> p == q)
    && (forall t :: t in st.elimUps ==> st.elimUps[t] <= 1)
    && (forall p :: p in st.procs && st.procs[p].pc.Read? ==>
          var c := st.procs[p].pc.child; c in st.procs && c in st.exitCode && st.procs[p].pc.value == st.exitCode[c])
  }

  lemma InvIsSafe(st: State)
    requires Inv(st)
    ensures Safe(st)
  {
    forall p, c | p in st.procs && c in st.procs[p].children
      ensures Kept(st, p, c) && (p, c) !in st.waited
    {
      ListedIsKept(st, p, c);
    }
    forall p | p in st.procs && st.procs[p].pc.Read?
      ensures var c := st.procs[p].pc.child; c in st.procs && c in st.exitCode && st.procs[p].pc.value == st.exitCode[c]
    {
      assert ProcOk(st, p);
      assert ProcOk(st, st.procs[p].pc.child);
    }
  }
}

/** The steps, on the threads' shared state. Every access to another thread's structure is to one that has
    not been freed. */
module ExitWait {
  import opened Basics
  import opened ExitState

  /** Why a thread exits: its own call of exit, a system call with a bad argument, an exception, a failed load, or
      the end of a kernel thread's function. */
  datatype Cause = Call(status: int) | BadArgument | Exception(vec: nat) | LoadFailed | Returned

  const PAGE_FAULT: nat := 14

  /** The exceptions a process can be ended by: those whose handler is kill, and a page fault not served. */
  predicate Handled(vec: nat) { vec in {0, 1, 3, 4, 5, 6, 7, 11, 12, 13, 16, 19} || vec == PAGE_FAULT }

  /** The status given to syscall_exit; None for a bare thread_exit, which is what kill and a failed load end in. */
  function Status(cause: Cause): Option<int> {
    match cause
    case Call(v) => Some(v)
    case BadArgument => Some(-1)
    case Exception(vec) => if vec == PAGE_FAULT then Some(-1) else None
    case LoadFailed => None
    case Returned => None
  }

  /** What a thread that exits for this cause leaves: the value it gave to exit; -1 for a bad argument to a system call
      or a page fault; and otherwise 0, which the field has from the start. */
  predicate IsCode(cause: Cause, v: int) {
    match cause
    case Call(status) => v == status
    case BadArgument => v == -1
    case Exception(vec) => v == if vec == 14 then -1 else 0
    case LoadFailed => v == 0
    case Returned => v == 0
  }

  datatype Op = Create(t: Tid, process: bool) | Loaded(t: Tid, success: bool)
              | BeginExec(t: Tid, c: Tid) | FinishExec(t: Tid)
              | StartExit(t: Tid, cause: Cause) | ExitStep(t: Tid) | UpChild(t: Tid) | Die(t: Tid)
              | BeginWait(t: Tid, c: Tid) | WaitDown(t: Tid) | ReadStatus(t: Tid) | FinishWait(t: Tid)

  /** What sema_down (sema_load) and is_loaded give. */
  function LoadResult(c: Proc): Option<bool> { if c.load == 0 then None else Some(c.isLoaded) }

  class Processes {
    var procs: map<Tid, Proc>
    var nextTid: Tid
    ghost var exitCode: map<Tid, int>
    ghost var elimUps: map<Tid, nat>
    ghost var waited: set<(Tid, Tid)>

    ghost function St(): State
      reads this
    {
      State(procs, nextTid, exitCode, elimUps, waited)
    }

    ghost predicate Valid()
      reads this
    {
      Inv(St())
    }

    /** The initial thread, with tid 1. */
    constructor ()
      ensures Valid() && St() == Start()
    {
      procs := map[1 := Proc(User, 0, true, [], 0, 0, 0, 0)];
      nextTid := 2;
      exitCode, elimUps, waited := map[], map[1 := 0], {};
    }

    /** thread_create by p, of a process or of a kernel thread. */
    method Create(p: Tid, process: bool) returns (c: Tid)
      requires Valid() && p in procs && procs[p].pc == User
      modifies this
      ensures Valid() && c !in old(procs) && c == old(nextTid)
      ensures St() == Created(old(St()), p, if process then Loading else User)
    {
      ghost var st := St();
      var pc := if process then Loading else User;
      hide Inv;
      CreateKeeps(st, p, pc);
      c := nextTid;
      nextTid := nextTid + 1;
      procs := procs[p := procs[p].(children := procs[p].children + [c])];
      procs := procs[c := Proc(pc, 0, false, [], 0, 0, 0, p)];
      elimUps := elimUps[c := 0];
      assert St() == Created(st, p, pc);
    }

    /** start_process reports whether loading worked. */
    method Loaded(t: Tid, success: bool)
      requires Valid() && t in procs && procs[t].pc == Loading
      modifies this
      ensures Valid()
      ensures St() == Set(old(St()), t, old(procs)[t].(pc := User, isLoaded := success, load := old(procs)[t].load + 1))
    {
      hide Inv;
      LocalStep(St(), t, procs[t].(pc := User, isLoaded := success, load := procs[t].load + 1));
      procs := procs[t := procs[t].(pc := User, isLoaded := success, load := procs[t].load + 1)];
    }

    /** thread_get_child: the child with the given tid, if it is on the list. */
    method GetChild(t: Tid, tid: Tid) returns (r: Option<Tid>)
      requires Valid() && t in procs
      ensures r == if tid in procs[t].children then Some(tid) else None
    {
      var l, i := procs[t].children, 0;
      assert ProcOk(St(), t);
      while i < |l|
        invariant i <= |l| && tid !in l[..i]
      {
        assert l[i] in l && Kept(St(), t, l[i]) && l[i] in procs;
        if l[i] == tid {
          return Some(tid);
        }
        i := i + 1;
      }
      r := None;
    }

    /** syscall_exec, once it has created child c. */
    method BeginExec(p: Tid, c: Tid)
      requires Valid() && p in procs && procs[p].pc == User && c in procs[p].children
      modifies this`procs
      ensures Valid() && St() == Set(old(St()), p, old(procs)[p].(pc := Execing(c)))
    {
      hide Inv;
      PcStep(St(), p, Execing(c));
      procs := procs[p := procs[p].(pc := Execing(c))];
    }

    /** sema_down on the child's sema_load, then its is_loaded; None while it has to wait. */
    method FinishExec(p: Tid) returns (r: Option<bool>)
      requires Valid() && p in procs && procs[p].pc.Execing?
      modifies this`procs
      ensures Valid() && procs.Keys == old(procs).Keys
      ensures old(procs)[p].pc.child in old(procs)
      ensures r == LoadResult(old(procs)[old(procs)[p].pc.child])
      ensures r.None? ==> procs == old(procs)
      ensures r.Some? ==> p != old(procs)[p].pc.child && St() == LoadDowned(old(St()), p, old(procs)[p].pc.child)
    {
      var c := procs[p].pc.child;
      ExecingChild(St(), p);
      hide Inv;
      if procs[c].load == 0 {
        return None;
      }
      ghost var st := St();
      LoadDownKeeps(st, p, c);
      procs := procs[c := procs[c].(load := procs[c].load - 1)];
      procs := procs[p := procs[p].(pc := User)];
      assert St() == LoadDowned(st, p, c);
      r := Some(procs[c].isLoaded);
    }

    /** syscall_exit with a status, or a bare thread_exit, which counts as status 0. */
    method StartExit(t: Tid, cause: Cause)
      requires Valid() && t in procs && procs[t].pc == User
      modifies this`procs, this`exitCode
      ensures Valid() && St() == ExitStarted(old(St()), t, Status(cause)) && exitCode[t] == CodeOf(cause)
      ensures procs.Keys == old(procs).Keys && procs[t].pc == ExitLoop && IsCode(cause, procs[t].status)
    {
      var status := Status(cause);
      ghost var st := St();
      assert ProcOk(st, t);
      hide Inv;
      StartExitKeeps(st, t, status);
      var v := if status.Some? then status.value else procs[t].status;
      procs := procs[t := procs[t].(pc := ExitLoop, status := v)];
      exitCode := exitCode[t := v];
      assert St() == ExitStarted(st, t, status);
    }

    /** One turn of thread_exit's loop, up to the sema_up, or what follows the loop. */
    method ExitStep(t: Tid)
      requires Valid() && t in procs && procs[t].pc == ExitLoop
      modifies this`procs
      ensures Valid() && St() == ExitStepped(old(St()), t)
    {
      ghost var st := St();
      hide Inv;
      ExitStepKeeps(st, t);
      var p := procs[t];
      if p.children == [] {
        procs := procs[t := p.(pc := Told, wait := p.wait + 1)];
      } else {
        procs := procs[t := p.(pc := Upping(p.children[0]), children := p.children[1..])];
      }
      assert St() == ExitStepped(st, t);
    }

    /** thread_exit's sema_up on a child's sema_elim. */
    method UpChild(t: Tid)
      requires Valid() && t in procs && procs[t].pc.Upping?
      modifies this`procs, this`elimUps
      ensures Valid() && procs.Keys == old(procs).Keys && procs[t].pc == ExitLoop
      ensures var c := old(procs)[t].pc.child;
        && c in old(elimUps) && old(elimUps)[c] == 0 && c in old(procs) && c != t
        && St() == LetGo(old(St()), t, c, ExitLoop, waited)
    {
      ghost var st := St();
      var c := procs[t].pc.child;
      assert ProcOk(st, t);
      hide Inv, ProcOk;
      LetGoKeeps(st, t, c, ExitLoop, waited);
      procs := procs[t := procs[t].(pc := ExitLoop)];
      procs := procs[c := procs[c].(elim := procs[c].elim + 1)];
      elimUps := elimUps[c := elimUps[c] + 1];
      assert St() == LetGo(st, t, c, ExitLoop, waited);
    }

    /** thread_exit past sema_down (sema_elim): the structure is freed. Nobody still refers to it. */
    method Die(t: Tid) returns (dead: bool)
      requires Valid() && t in procs && procs[t].pc == Told
      modifies this`procs
      ensures Valid() && (dead <==> old(procs)[t].elim > 0)
      ensures procs == if dead then old(procs) - {t} else old(procs)
      ensures dead ==> forall p | p in procs :: t !in procs[p].children && !Claims(St(), p, t)
    {
      ghost var st := St();
      hide Inv;
      if procs[t].elim == 0 {
        return false;
      }
      FreeKeeps(st, t);
      procs := procs - {t};
      assert St() == Freed(st, t);
      dead := true;
    }

    /** process_wait up to its sema_down: -1 at once unless tid is on the child list. */
    method BeginWait(p: Tid, tid: Tid) returns (r: Option<int>)
      requires Valid() && p in procs && procs[p].pc == User
      modifies this`procs
      ensures Valid() && (r.Some? <==> tid !in old(procs)[p].children)
      ensures r.Some? ==> r.value == -1 && procs == old(procs)
      ensures (p, tid) in waited ==> r == Some(-1)
      ensures r.None? ==> St() == Set(old(St()), p, old(procs)[p].(pc := Waiting(tid)))
    {
      var c := GetChild(p, tid);
      hide Inv;
      if c.None? {
        return Some(-1);
      }
      ListedIsKept(St(), p, tid);
      PcStep(St(), p, Waiting(tid));
      procs := procs[p := procs[p].(pc := Waiting(tid))];
      r := None;
    }

    /** process_wait's sema_down and list_remove; false while it has to wait. */
    method WaitDown(p: Tid) returns (done: bool)
      requires Valid() && p in procs && procs[p].pc.Waiting?
      modifies this`procs
      ensures Valid() && var c := old(procs)[p].pc.child; c in old(procs) && (done <==> old(procs)[c].wait > 0)
      ensures !done ==> procs == old(procs)
      ensures done ==> p != old(procs)[p].pc.child && St() == WaitDowned(old(St()), p, old(procs)[p].pc.child)
    {
      ghost var st := St();
      var c := procs[p].pc.child;
      assert ProcOk(st, p);
      hide Inv, ProcOk, Without;
      ListedIsKept(st, p, c);
      if procs[c].wait == 0 {
        return false;
      }
      WaitDownKeeps(st, p, c);
      procs := procs[p := procs[p].(pc := Removed(c), children := Without(procs[p].children, c))];
      procs := procs[c := procs[c].(wait := procs[c].wait - 1)];
      assert St() == WaitDowned(st, p, c);
      done := true;
    }

    /** process_wait reads exit_status: the child has stored it and has not been freed. */
    method ReadStatus(p: Tid)
      requires Valid() && p in procs && procs[p].pc.Removed?
      modifies this`procs
      ensures Valid() && var c := old(procs)[p].pc.child;
        && c in old(procs) && c in exitCode && old(procs)[c].status == exitCode[c]
        && St() == Set(old(St()), p, old(procs)[p].(pc := Read(c, exitCode[c])))
    {
      var c := procs[p].pc.child;
      hide Inv;
      ReadKeeps(St(), p, c);
      procs := procs[p := procs[p].(pc := Read(c, procs[c].status))];
    }

    /** process_wait lets the child go and returns what it exited with. */
    method FinishWait(p: Tid) returns (v: int)
      requires Valid() && p in procs && procs[p].pc.Read?
      modifies this`procs, this`elimUps, this`waited
      ensures Valid() && var c := old(procs)[p].pc.child;
        && c in exitCode && v == exitCode[c] && waited == old(waited) + {(p, c)} && (p, c) !in old(waited)
        && c in old(elimUps) && old(elimUps)[c] == 0 && c in old(procs) && c != p
        && St() == LetGo(old(St()), p, c, User, waited)
    {
      ghost var st := St();
      var c := procs[p].pc.child;
      assert ProcOk(st, p);
      assert ProcOk(st, c);
      hide Inv, ProcOk;
      v := procs[p].pc.value;
      LetGoKeeps(st, p, c, User, waited + {(p, c)});
      procs := procs[p := procs[p].(pc := User)];
      procs := procs[c := procs[c].(elim := procs[c].elim + 1)];
      elimUps := elimUps[c := elimUps[c] + 1];
      waited := waited + {(p, c)};
      assert St() == LetGo(st, p, c, User, waited);
    }

    method Step(op: Op) returns (answer: Option<int>)
      requires Valid() && LegalStep(procs, op)
      modifies this
      ensures Valid() && Next(old(St()), op, answer, St())
    {
      NamedChild(St(), op.t);
      hide Inv, Created, ExitStarted, ExitStepped, LetGo, WaitDowned, LoadDowned, Set, Freed;
      answer := None;
      match op {
        case Create(t, process) => var _ := Create(t, process);
        case Loaded(t, success) => Loaded(t, success);
        case BeginExec(t, c) => BeginExec(t, c);
        case FinishExec(t) =>
          var c: int := procs[t].pc.child;
          var r := FinishExec(t);
          answer := if r.None? then None else if r.value then Some(c) else Some(-1);
        case StartExit(t, cause) => StartExit(t, cause);
        case ExitStep(t) => ExitStep(t);
        case UpChild(t) => UpChild(t);
        case Die(t) => var _ := Die(t);
        case BeginWait(t, c) => answer := BeginWait(t, c);
        case WaitDown(t) => var _ := WaitDown(t);
        case ReadStatus(t) => ReadStatus(t);
        case FinishWait(t) =>
          var v := FinishWait(t);
          answer := Some(v);
      }
    }

    /** Every interleaving, up to a step no thread is at: each state follows from the one before by its step
        and its answer, and is safe. */
    method Run(ops: seq<Op>) returns (done: nat, answers: seq<Option<int>>, ghost states: seq<State>)
      requires Valid()
      modifies this
      ensures done <= |ops| && |answers| == done && |states| == done + 1
      ensures states[0] == old(St()) && states[done] == St()
      ensures IsTrace(states, ops, answers)
      ensures done < |ops| ==> !LegalStep(procs, ops[done])
    {
      hide Inv, Next, LegalStep, Safe;
      done, answers, states := 0, [], [St()];
      InvIsSafe(St());
      while done < |ops| && LegalStep(procs, ops[done])
        invariant done <= |ops| && |answers| == done && |states| == done + 1
        invariant states[0] == old(St()) && states[done] == St()
        invariant Valid() && IsTrace(states, ops, answers)
      {
        var answer := Step(ops[done]);
        InvIsSafe(St());
        answers, states := answers + [answer], states + [St()];
        done := done + 1;
      }
    }
  }

  // ----- Runs -----

  /** The initial thread, with tid 1. */
  ghost function Start(): State {
    State(map[1 := Proc(User, 0, true, [], 0, 0, 0, 0)], 2, map[], map[1 := 0], {})
  }

  /** The thread is at the point the step starts from. */
  predicate LegalStep(procs: map<Tid, Proc>, op: Op) {
    op.t in procs && match op
      case Create(t, _) => procs[t].pc == User
      case Loaded(t, _) => procs[t].pc == Loading
      case BeginExec(t, c) => procs[t].pc == User && c in procs[t].children
      case FinishExec(t) => procs[t].pc.Execing?
      case StartExit(t, cause) =>
        && procs[t].pc == User && (cause.LoadFailed? ==> !procs[t].isLoaded)
        && (cause.Exception? ==> Handled(cause.vec))
      case ExitStep(t) => procs[t].pc == ExitLoop
      case UpChild(t) => procs[t].pc.Upping?
      case Die(t) => procs[t].pc == Told
      case BeginWait(t, _) => procs[t].pc == User
      case WaitDown(t) => procs[t].pc.Waiting?
      case ReadStatus(t) => procs[t].pc.Removed?
      case FinishWait(t) => procs[t].pc.Read?
  }

  /** What one step of thread t does with child c, which it finds not freed. */
  ghost predicate ChildStep(a: State, t: Tid, c: Tid) { c in a.procs && c in a.elimUps && c != t }

  /** What a step does, and what it returns to its process. */
  ghost predicate Next(a: State, op: Op, answer: Option<int>, b: State) {
    LegalStep(a.procs, op) && match op
      case Create(t, process) => answer.None? && b == Created(a, t, if process then Loading else User)
      case Loaded(t, success) =>
        answer.None? && b == Set(a, t, a.procs[t].(pc := User, isLoaded := success, load := a.procs[t].load + 1))
      case BeginExec(t, c) => answer.None? && b == Set(a, t, a.procs[t].(pc := Execing(c)))
      case FinishExec(t) =>
        var c := a.procs[t].pc.child;
        ChildStep(a, t, c) &&
        if a.procs[c].load == 0 then answer.None? && b == a
        else answer == Some(if a.procs[c].isLoaded then c else -1) && b == LoadDowned(a, t, c)
      case StartExit(t, cause) => answer.None? && b == ExitStarted(a, t, Status(cause))
      case ExitStep(t) => answer.None? && b == ExitStepped(a, t)
      case UpChild(t) =>
        var c := a.procs[t].pc.child;
        answer.None? && ChildStep(a, t, c) && b == LetGo(a, t, c, ExitLoop, a.waited)
      case Die(t) => answer.None? && b == if a.procs[t].elim > 0 then Freed(a, t) else a
      case BeginWait(t, c) =>
        if c !in a.procs[t].children then answer == Some(-1) && b == a
        else answer.None? && b == Set(a, t, a.procs[t].(pc := Waiting(c)))
      case WaitDown(t) =>
        var c := a.procs[t].pc.child;
        answer.None? && ChildStep(a, t, c) && b == if a.procs[c].wait > 0 then WaitDowned(a, t, c) else a
      case ReadStatus(t) =>
        var c := a.procs[t].pc.child;
        answer.None? && ChildStep(a, t, c) && b == Set(a, t, a.procs[t].(pc := Read(c, a.procs[c].status)))
      case FinishWait(t) =>
        var c := a.procs[t].pc.child;
        answer == Some(a.procs[t].pc.value) && ChildStep(a, t, c) && b == LetGo(a, t, c, User, a.waited + {(t, c)})
  }

  /** states are the ones passed through by the first |states| - 1 steps, each safe. */
  ghost predicate IsTrace(states: seq<State>, ops: seq<Op>, answers: seq<Option<int>>) {
    && 0 < |states| <= |ops| + 1 && |answers| == |states| - 1
    && (forall i :: 0 <= i < |states| ==> Inv(states[i]) && Safe(states[i]))
    && (forall i :: 0 <= i < |answers| ==> Next(states[i], ops[i], answers[i], states[i + 1]))
  }

  // ----- What each step does, in its own words -----

  /** A thread is there from its creation, with the next tid, until it dies, which it does only once it was let go. */
  lemma StepThreads(a: State, op: Op, answer: Option<int>, b: State, c: Tid)
    requires Inv(a) && Next(a, op, answer, b)
    ensures c in b.procs <==> (c in a.procs && !(op == Die(c) && a.procs[c].elim > 0)) || (op.Create? && c == a.nextTid)
    ensures b.nextTid == if op.Create? then a.nextTid + 1 else a.nextTid
    ensures a.nextTid !in a.procs
    ensures op.Create? ==> IsNewThread(b.procs[a.nextTid], op)
  {
    assert a.nextTid in a.procs ==> ProcOk(a, a.nextTid);
    hide Inv, Without;
  }

  /** A new thread has no children, its semaphores are zero, and a process has to load first. */
  ghost predicate IsNewThread(p: Proc, op: Op)
    requires op.Create?
  {
    && p.parent == op.t && p.children == [] && p.wait == p.elim == p.load == 0 && p.status == 0
    && (op.process <==> p.pc == Loading) && (!op.process <==> p.pc == User)
  }

  /** sema_wait is upped by its thread when it has let all its children go, and downed by the wait for it; sema_elim by
      the parent that waited or exits; sema_load when the thread has loaded or failed to, and downed by the exec. */
  lemma StepSemas(a: State, op: Op, answer: Option<int>, b: State, c: Tid)
    requires Next(a, op, answer, b) && c in a.procs && c in b.procs && a.nextTid !in a.procs
    ensures b.procs[c].wait ==
      if op == ExitStep(c) && a.procs[c].children == [] then a.procs[c].wait + 1
      else if op.WaitDown? && a.procs[op.t].pc == Waiting(c) && a.procs[c].wait > 0 then a.procs[c].wait - 1
      else a.procs[c].wait
    ensures b.procs[c].elim ==
      if (op.UpChild? || op.FinishWait?) && a.procs[op.t].pc.child == c then a.procs[c].elim + 1 else a.procs[c].elim
    ensures b.procs[c].load ==
      if op.Loaded? && op.t == c then a.procs[c].load + 1
      else if op.FinishExec? && a.procs[op.t].pc == Execing(c) && a.procs[c].load > 0 then a.procs[c].load - 1
      else a.procs[c].load
    ensures b.procs[c].isLoaded == if op.Loaded? && op.t == c then op.success else a.procs[c].isLoaded
  {
    hide Without;
  }

  /** A child is on its parent's list from its creation until the parent's wait for it ends or the parent exits. */
  lemma StepChildren(a: State, op: Op, answer: Option<int>, b: State, p: Tid, c: Tid)
    requires Inv(a) && Next(a, op, answer, b) && p in a.procs && p in b.procs
    ensures op == ExitStep(p) && a.procs[p].children != [] ==> b.procs[p].children == a.procs[p].children[1..]
    ensures !(op == ExitStep(p) && a.procs[p].children != []) ==>
      (c in b.procs[p].children <==>
       (c in a.procs[p].children && !(op == WaitDown(p) && a.procs[p].pc == Waiting(c) && a.procs[c].wait > 0))
       || (op.Create? && op.t == p && c == a.nextTid))
  {
    assert ProcOk(a, p) && (a.nextTid in a.procs ==> ProcOk(a, a.nextTid));
    if op == WaitDown(p) {
      WithoutFacts(a.procs[p].children, a.procs[p].pc.child);
    }
    hide Inv, Without, ProcOk, Distinct;
  }

  /** The exit code of a thread that starts to exit this way. */
  function CodeOf(cause: Cause): int { if Status(cause).Some? then Status(cause).value else 0 }

  /** Thread c starts to exit with this code. */
  predicate ExitsWith(op: Op, c: Tid, code: int) { op.StartExit? && op.t == c && CodeOf(op.cause) == code }

  lemma StepCodes(a: State, op: Op, answer: Option<int>, b: State, c: Tid)
    requires Inv(a) && Next(a, op, answer, b)
    ensures c in a.exitCode ==> c in b.exitCode && b.exitCode[c] == a.exitCode[c]
    ensures c in a.exitCode ==> !(op.StartExit? && op.t == c)
    ensures c in b.exitCode ==> c in a.exitCode || ExitsWith(op, c, b.exitCode[c])
    ensures op.StartExit? && op.t == c ==> ExitsWith(op, c, CodeOf(op.cause)) && c in b.exitCode
    ensures op.StartExit? && op.t == c ==> b.exitCode[c] == CodeOf(op.cause)
  {
    if op.StartExit? {
      assert ProcOk(a, op.t);
    }
  }

  /** On every run from the start, a thread's exit code is v if and only if it started to exit with v. */
  lemma {:induction false} CodesFromExits(states: seq<State>, ops: seq<Op>, answers: seq<Option<int>>, k: nat, c: Tid,
                                          v: int)
    requires IsTrace(states, ops, answers) && states[0] == Start() && k < |states|
    ensures c in states[k].exitCode && states[k].exitCode[c] == v <==> exists j :: 0 <= j < k && ExitsWith(ops[j], c, v)
  {
    hide Inv, Next, Safe;
    if k > 0 {
      CodesFromExits(states, ops, answers, k - 1, c, v);
      assert Next(states[k - 1], ops[k - 1], answers[k - 1], states[k]);
      StepCodes(states[k - 1], ops[k - 1], answers[k - 1], states[k], c);
    }
  }

  /** The causes that end in syscall_exit (-1). */
  predicate MinusOne(cause: Cause) { cause == Call(-1) || cause == BadArgument || cause == Exception(PAGE_FAULT) }

  /** Among the first k steps, thread c exits from such a cause. */
  ghost predicate ExitedMinusOne(ops: seq<Op>, k: nat, c: Tid)
    requires k <= |ops|
  {
    exists j :: 0 <= j < k && ops[j].StartExit? && ops[j].t == c && MinusOne(ops[j].cause)
  }

  /** What process_wait returns, on every run from the start: -1 at once if and only if the tid is not on the
      child list, and otherwise -1 if and only if the child called exit with -1, gave a system call a bad argument, or
      was ended by a page fault. */
  lemma WaitReturns(states: seq<State>, ops: seq<Op>, answers: seq<Option<int>>, k: nat)
    requires IsTrace(states, ops, answers) && states[0] == Start() && k < |answers|
    ensures ops[k].t in states[k].procs
    ensures ops[k].BeginWait? ==> (answers[k] == Some(-1) <==> ops[k].c !in states[k].procs[ops[k].t].children)
    ensures ops[k].FinishWait? ==> states[k].procs[ops[k].t].pc.Read? && answers[k].Some?
    ensures ops[k].FinishWait? ==>
      (answers[k] == Some(-1) <==> ExitedMinusOne(ops, k, states[k].procs[ops[k].t].pc.child))
  {
    var a, op := states[k], ops[k];
    assert Next(a, op, answers[k], states[k + 1]) && Safe(a);
    hide ExitedMinusOne, ExitsWith, Inv;
    if op.FinishWait? {
      var c := a.procs[op.t].pc.child;
      CodesFromExits(states, ops, answers, k, c, -1);
      MinusOneExits(ops, k, c);
    }
  }

  lemma MinusOneExits(ops: seq<Op>, k: nat, c: Tid)
    requires k <= |ops|
    ensures ExitedMinusOne(ops, k, c) <==> exists j :: 0 <= j < k && ExitsWith(ops[j], c, -1)
  {
    assert forall j :: 0 <= j < k ==>
      (ExitsWith(ops[j], c, -1) <==> ops[j].StartExit? && ops[j].t == c && MinusOne(ops[j].cause));
  }

  /** A wait for a child that exited from a given cause returns the code of that cause. */
  lemma WaitGivesCode(states: seq<State>, ops: seq<Op>, answers: seq<Option<int>>, j: nat, k: nat)
    requires IsTrace(states, ops, answers) && states[0] == Start() && j < k < |answers|
    requires ops[k].FinishWait? && ops[k].t in states[k].procs && states[k].procs[ops[k].t].pc.Read?
    requires ops[j].StartExit? && ops[j].t == states[k].procs[ops[k].t].pc.child
    ensures answers[k] == Some(CodeOf(ops[j].cause))
  {
    var a, op := states[k], ops[k];
    assert Next(a, op, answers[k], states[k + 1]) && Safe(a);
    assert ExitsWith(ops[j], a.procs[op.t].pc.child, CodeOf(ops[j].cause));
    CodesFromExits(states, ops, answers, k, a.procs[op.t].pc.child, CodeOf(ops[j].cause));
  }

  /** What a wait returns, by how the child exited: the value it gave to exit, whatever it was; -1 if it gave a system
      call a bad argument or was ended by a page fault; 0 if it was ended by another exception, could not be loaded, or
      was a kernel thread whose function returned. */
  lemma WaitValue(states: seq<State>, ops: seq<Op>, answers: seq<Option<int>>, j: nat, k: nat)
    requires IsTrace(states, ops, answers) && states[0] == Start() && j < k < |answers|
    requires ops[k].FinishWait? && ops[k].t in states[k].procs && states[k].procs[ops[k].t].pc.Read?
    requires ops[j].StartExit? && ops[j].t == states[k].procs[ops[k].t].pc.child
    ensures var cause := ops[j].cause;
      && (cause.Call? ==> answers[k] == Some(cause.status))
      && (cause.BadArgument? ==> answers[k] == Some(-1))
      && (cause.Returned? || cause.LoadFailed? ==> answers[k] == Some(0))
      && (cause.Exception? ==> answers[k] == Some(if cause.vec == 14 then -1 else 0))
  {
    hide IsTrace;
    WaitGivesCode(states, ops, answers, j, k);
  }

  /** The comment on process_wait promises -1 for a child killed by an exception. That is what a wait for one returns if
      and only if the exception was a page fault; otherwise, as for a failed load, it returns 0. */
  lemma KilledReturns(states: seq<State>, ops: seq<Op>, answers: seq<Option<int>>, j: nat, k: nat)
    requires IsTrace(states, ops, answers) && states[0] == Start() && j < k < |answers|
    requires ops[k].FinishWait? && ops[k].t in states[k].procs && states[k].procs[ops[k].t].pc.Read?
    requires ops[j].StartExit? && ops[j].t == states[k].procs[ops[k].t].pc.child
    requires ops[j].cause.Exception? || ops[j].cause.LoadFailed?
    ensures answers[k] == Some(-1) <==> ops[j].cause == Exception(PAGE_FAULT)
    ensures answers[k] == Some(0) <==> ops[j].cause != Exception(PAGE_FAULT)
  {
    WaitGivesCode(states, ops, answers, j, k);
  }

  // ----- exec, and waiting for one's children -----

  /** On every run from the start, a thread whose sema_load is up has reported, and is_loaded is what it reported. */
  lemma {:induction false} LoadedFrom(states: seq<State>, ops: seq<Op>, answers: seq<Option<int>>, k: nat, c: Tid)
    requires IsTrace(states, ops, answers) && states[0] == Start() && k < |states|
    requires c in states[k].procs && states[k].procs[c].load > 0
    ensures exists j :: 0 <= j < k && ops[j] == Loaded(c, states[k].procs[c].isLoaded)
  {
    hide IsTrace, Inv, Safe, Next;
    TraceLength(states, ops, answers);
    if k > 0 {
      var a, op, b := states[k - 1], ops[k - 1], states[k];
      TraceStep(states, ops, answers, k - 1);
      StepThreads(a, op, answers[k - 1], b, c);
      if c in a.procs {
        StepSemas(a, op, answers[k - 1], b, c);
        if op != Loaded(c, b.procs[c].isLoaded) {
          LoadedFrom(states, ops, answers, k - 1, c);
        }
      }
    }
  }

  /** syscall_exec returns only once the child has reported, and then the child's tid if it was loaded and -1 if not. */
  lemma ExecReturns(states: seq<State>, ops: seq<Op>, answers: seq<Option<int>>, k: nat)
    requires IsTrace(states, ops, answers) && states[0] == Start() && k < |answers| && ops[k].FinishExec?
    requires answers[k].Some?
    ensures ops[k].t in states[k].procs && states[k].procs[ops[k].t].pc.Execing?
    ensures var c := states[k].procs[ops[k].t].pc.child;
      exists j, success :: 0 <= j < k && ops[j] == Loaded(c, success) && answers[k] == Some(if success then c else -1)
  {
    TraceStep(states, ops, answers, k);
    hide IsTrace, Inv, Safe;
    LoadedFrom(states, ops, answers, k, states[k].procs[ops[k].t].pc.child);
  }

  /** On every run, a thread created by p can be waited for by p until p has waited for it or exits: the wait does not
      return -1 at once. */
  lemma {:induction false} ListedUntilWaited(states: seq<State>, ops: seq<Op>, answers: seq<Option<int>>, i: nat,
                                             k: nat)
    requires IsTrace(states, ops, answers) && i < k < |states| && ops[i].Create?
    requires forall m :: i < m < k ==> ops[m] != ExitStep(ops[i].t) && ops[m] != WaitDown(ops[i].t)
    ensures ops[i].t in states[k].procs && states[i].nextTid in states[k].procs[ops[i].t].children
    ensures k < |answers| && ops[k] == BeginWait(ops[i].t, states[i].nextTid) ==> answers[k].None?
  {
    hide IsTrace, Inv, Safe;
    TraceLength(states, ops, answers);
    var p, c := ops[i].t, states[i].nextTid;
    var a, op, b := states[k - 1], ops[k - 1], states[k];
    TraceStep(states, ops, answers, k - 1);
    if k < |answers| {
      TraceStep(states, ops, answers, k);
    }
    if k > i + 1 {
      ListedUntilWaited(states, ops, answers, i, k - 1);
      Alive(a, op, answers[k - 1], b, p);
    } else {
      StepThreads(a, op, answers[k - 1], b, p);
    }
    StepChildren(a, op, answers[k - 1], b, p, c);
  }

  /** A thread with a child on its list does not die. */
  lemma Alive(a: State, op: Op, answer: Option<int>, b: State, p: Tid)
    requires Inv(a) && Next(a, op, answer, b) && p in a.procs && a.procs[p].children != []
    ensures p in b.procs
  {
    assert ProcOk(a, p);
    hide Inv, Next;
    StepThreads(a, op, answer, b, p);
  }

  lemma TraceLength(states: seq<State>, ops: seq<Op>, answers: seq<Option<int>>)
    requires IsTrace(states, ops, answers)
    ensures |states| == |answers| + 1 <= |ops| + 1
  {
  }

  /** A second wait for the same child returns -1 at once. */
  lemma {:induction false} WaitedOnce(states: seq<State>, ops: seq<Op>, answers: seq<Option<int>>, i: nat, k: nat)
    requires IsTrace(states, ops, answers) && i < k < |states| && ops[i].FinishWait?
    requires ops[i].t in states[i].procs && states[i].procs[ops[i].t].pc.Read?
    ensures (ops[i].t, states[i].procs[ops[i].t].pc.child) in states[k].waited
    ensures k < |answers| && ops[k] == BeginWait(ops[i].t, states[i].procs[ops[i].t].pc.child) ==>
      answers[k] == Some(-1)
  {
    hide IsTrace, Inv, Safe;
    TraceLength(states, ops, answers);
    TraceStep(states, ops, answers, k - 1);
    var w := (ops[i].t, states[i].procs[ops[i].t].pc.child);
    if k > i + 1 {
      WaitedOnce(states, ops, answers, i, k - 1);
    }
    StepWaited(states[k - 1], ops[k - 1], answers[k - 1], states[k], w);
    if k < |answers| && ops[k] == BeginWait(w.0, w.1) {
      TraceStep(states, ops, answers, k);
      assert w.0 in states[k].procs;
      SafeWaited(states[k], w.0, w.1);
    }
  }

  lemma SafeWaited(st: State, p: Tid, c: Tid)
    requires Safe(st) && p in st.procs && (p, c) in st.waited
    ensures c !in st.procs[p].children
  {
  }

  /** Completed waits are remembered. */
  lemma StepWaited(a: State, op: Op, answer: Option<int>, b: State, w: (Tid, Tid))
    requires Next(a, op, answer, b)
    ensures w in b.waited <==> w in a.waited || (op == FinishWait(w.0) && a.procs[w.0].pc.child == w.1)
  {
    hide Without;
  }

  lemma TraceStep(states: seq<State>, ops: seq<Op>, answers: seq<Option<int>>, i: nat)
    requires IsTrace(states, ops, answers) && i < |answers|
    ensures |states| == |answers| + 1 <= |ops| + 1 && Inv(states[i]) && Safe(states[i])
    ensures Inv(states[i + 1]) && Safe(states[i + 1]) && Next(states[i], ops[i], answers[i], states[i + 1])
  {
  }

  /** Processes 1 and 2, as far as they matter to such a run. */
  ghost function Pair(pc: Pc, children: seq<Tid>, child: Proc, codes: map<Tid, int>, ups: nat,
                      waited: set<(Tid, Tid)>): State
  {
    State(map[1 := Proc(pc, 0, true, children, 0, 0, 0, 0), 2 := child], 3, codes, map[1 := 0, 2 := ups], waited)
  }

  lemma PairCreated()
    ensures Created(Start(), 1, Loading) == Pair(User, [2], Proc(Loading, 0, false, [], 0, 0, 0, 1), map[], 0, {})
  {
    assert [] + [2] == [2];
  }

  lemma PairExits()
    ensures var a := Pair(User, [2], Proc(User, 0, true, [], 0, 0, 1, 1), map[], 0, {});
      && ExitStarted(a, 2, None) == Pair(User, [2], Proc(ExitLoop, 0, true, [], 0, 0, 1, 1), map[2 := 0], 0, {})
      && ExitStepped(ExitStarted(a, 2, None), 2) ==
         Pair(User, [2], Proc(Told, 0, true, [], 1, 0, 1, 1), map[2 := 0], 0, {})
  {
  }

  lemma PairWaits()
    ensures WaitDowned(Pair(Waiting(2), [2], Proc(Told, 0, true, [], 1, 0, 1, 1), map[2 := 0], 0, {}), 1, 2) ==
      Pair(Removed(2), [], Proc(Told, 0, true, [], 0, 0, 1, 1), map[2 := 0], 0, {})
  {
    assert Without([2], 2) == [];
  }

  lemma PairSet(pc: Pc, pc': Pc, children: seq<Tid>, p: Proc, p': Proc, codes: map<Tid, int>, ups: nat,
                waited: set<(Tid, Tid)>)
    ensures var a := Pair(pc, children, p, codes, ups, waited);
      Set(a, 1, a.procs[1].(pc := pc')) == Pair(pc', children, p, codes, ups, waited)
    ensures Set(Pair(pc, children, p, codes, ups, waited), 2, p') == Pair(pc, children, p', codes, ups, waited)
  {
  }

  /** Such a run: process 2 is created, loaded and divides by zero, and process 1 waits for it. */
  method KilledChild() returns (v: int)
    ensures v == 0
  {
    PairCreated();
    PairExits();
    PairWaits();
    var ps := new Processes();
    var told := Proc(Told, 0, true, [], 1, 0, 1, 1);
    assert Status(Exception(0)) == None;
    hide Inv, Created, ExitStarted, ExitStepped, WaitDowned, Set, Status, CodeOf;
    var c := ps.Create(1, true);
    var loading, loaded := Proc(Loading, 0, false, [], 0, 0, 0, 1), Proc(User, 0, true, [], 0, 0, 1, 1);
    PairSet(User, User, [2], loading, loaded, map[], 0, {});
    ps.Loaded(2, true);
    ps.StartExit(2, Exception(0));
    ps.ExitStep(2);
    PairSet(User, Waiting(2), [2], told, told, map[2 := 0], 0, {});
    var r := ps.BeginWait(1, 2);
    var done := ps.WaitDown(1);
    PairSet(Removed(2), Read(2, 0), [], told.(wait := 0), told, map[2 := 0], 0, {});
    ps.ReadStatus(1);
    v := ps.FinishWait(1);
  }
}
