/** The handles on one open inode: who denies writes to it, and what that keeps (filesys/file.c, filesys/inode.c). */
module DenyWrite {
  import opened Basics
  import opened InodeIO

  /** handles: the deny_write flag of every open file on the inode; data: the bytes of the file. */
  datatype State = State(handles: map<nat, bool>, openCnt: int, denyCnt: int, data: seq<byte>)

  ghost function Denying(handles: map<nat, bool>): set<nat> { set h | h in handles && handles[h] }

  /** Both counts are exact. */
  ghost predicate Inv(st: State) {
    st.openCnt == |st.handles| && st.denyCnt == |Denying(st.handles)|
  }

  /** What the source asserts: deny_write_cnt never exceeds open_cnt; and it is positive exactly while some handle
      denies. */
  lemma CountsExact(st: State)
    requires Inv(st)
    ensures 0 <= st.denyCnt <= st.openCnt
    ensures st.denyCnt > 0 <==> exists h :: h in st.handles && st.handles[h]
  {
    var d := Denying(st.handles);
    assert d <= st.handles.Keys;
    SubsetSize(d, st.handles.Keys);
    if st.denyCnt > 0 {
      var h :| h in d;
    }
    if h :| h in st.handles && st.handles[h] {
      assert h in d;
    }
  }

  lemma {:induction false} SubsetSize(a: set<nat>, b: set<nat>)
    requires a <= b
    ensures |a| <= |b|
  {
    if a != {} {
      var x :| x in a;
      SubsetSize(a - {x}, b - {x});
    }
  }

  datatype Op =
    | Open(h: nat)
    | Deny(h: nat)
    | Allow(h: nat)
    | Close(h: nat)
    | Write(h: nat, buffer: seq<byte>, size: int, offset: nat, bounceOk: bool)

  predicate LegalStep(st: State, op: Op) {
    match op
    case Open(h) => h !in st.handles
    case Write(h, buffer, size, _, _) => h in st.handles && size <= |buffer|
    case _ => op.h in st.handles
  }

  function Denied(st: State, h: nat): State
    requires h in st.handles
  {
    if st.handles[h] then st else st.(handles := st.handles[h := true], denyCnt := st.denyCnt + 1)
  }

  function Allowed(st: State, h: nat): State
    requires h in st.handles
  {
    if st.handles[h] then st.(handles := st.handles[h := false], denyCnt := st.denyCnt - 1) else st
  }

  /** n.data is st.data with the first `written` bytes of the buffer stored at offset. */
  ghost predicate SliceStored(was: seq<byte>, now: seq<byte>, buffer: seq<byte>, offset: nat, written: nat) {
    && |now| == |was| && written <= |buffer| && (written > 0 ==> offset + written <= |was|)
    && forall i :: 0 <= i < |was| ==> now[i] == if offset <= i < offset + written then buffer[i - offset] else was[i]
  }

  ghost predicate Next(st: State, op: Op, written: nat, n: State) {
    LegalStep(st, op) && match op
      case Open(h) => n == st.(handles := st.handles[h := false], openCnt := st.openCnt + 1)
      case Deny(h) => n == Denied(st, h)
      case Allow(h) => n == Allowed(st, h)
      case Close(h) => n == Allowed(st, h).(handles := st.handles - {h}, openCnt := st.openCnt - 1)
      case Write(h, buffer, size, offset, bounceOk) =>
        && n == st.(data := n.data) && SliceStored(st.data, n.data, buffer, offset, written)
        && written <= Clip(|st.data|, size, offset) && (st.denyCnt > 0 ==> written == 0)
        && (st.denyCnt == 0 && bounceOk ==> written == Clip(|st.data|, size, offset))
  }

  lemma DenyKeeps(st: State, h: nat)
    requires Inv(st) && h in st.handles
    ensures Inv(Denied(st, h))
  {
    if !st.handles[h] {
      var n := Denied(st, h);
      assert Denying(n.handles) == Denying(st.handles) + {h};
      assert n.handles.Keys == st.handles.Keys;
    }
  }

  lemma AllowKeeps(st: State, h: nat)
    requires Inv(st) && h in st.handles
    ensures Inv(Allowed(st, h)) && (st.handles[h] ==> st.denyCnt > 0)
  {
    if st.handles[h] {
      var n := Allowed(st, h);
      assert h in Denying(st.handles) && Denying(n.handles) == Denying(st.handles) - {h};
      assert n.handles.Keys == st.handles.Keys;
    }
  }

  lemma CloseKeeps(st: State, h: nat)
    requires Inv(st) && h in st.handles && !st.handles[h]
    ensures Inv(st.(handles := st.handles - {h}, openCnt := st.openCnt - 1))
  {
    var n := st.handles - {h};
    assert Denying(n) == Denying(st.handles);
    assert n.Keys == st.handles.Keys - {h};
  }

  lemma OpenKeeps(st: State, h: nat)
    requires Inv(st) && h !in st.handles
    ensures Inv(st.(handles := st.handles[h := false], openCnt := st.openCnt + 1))
  {
    var n := st.handles[h := false];
    assert Denying(n) == Denying(st.handles);
    assert n.Keys == st.handles.Keys + {h};
  }

  // ----- Whole runs -----

  ghost predicate IsTrace(states: seq<State>, ops: seq<Op>, results: seq<nat>) {
    && 0 < |states| == |results| + 1 <= |ops| + 1
    && (forall i :: 0 <= i < |states| ==> Inv(states[i]))
    && (forall i :: 0 <= i < |results| ==> Next(states[i], ops[i], results[i], states[i + 1]))
  }

  /** While a handle denies writes, whatever is opened, closed, allowed and written through any handle, the file
      does not change: what running an executable relies on. */
  lemma {:induction false} DeniedIsUnchanged(states: seq<State>, ops: seq<Op>, results: seq<nat>, h: nat, i: nat,
                                             k: nat)
    requires IsTrace(states, ops, results) && i <= k < |states|
    requires forall m :: i <= m <= k ==> h in states[m].handles && states[m].handles[h]
    ensures states[k].data == states[i].data
  {
    if i < k {
      DeniedIsUnchanged(states, ops, results, h, i, k - 1);
      TraceStep(states, ops, results, k - 1);
      hide IsTrace, Inv, Next;
      DeniedStep(states[k - 1], ops[k - 1], results[k - 1], states[k], h);
    }
  }

  /** A handle is there from its open to its close, and denies from its deny to its allow. */
  lemma StepFlags(st: State, op: Op, written: nat, n: State, h: nat)
    requires Next(st, op, written, n)
    ensures h in n.handles <==> (h in st.handles && op != Close(h)) || op == Open(h)
    ensures op == Open(h) ==> h !in st.handles
    ensures op == Deny(h) || op == Allow(h) || op == Close(h) ==> h in st.handles
    ensures h in n.handles ==>
      (n.handles[h] <==> op == Deny(h) || (h in st.handles && st.handles[h] && op != Allow(h) && op != Open(h)))
  {
    hide SliceStored;
  }

  /** The handle neither allows writes again nor is closed. */
  ghost predicate KeepsDenying(ops: seq<Op>, h: nat, i: nat, k: nat)
    requires k <= |ops|
  {
    forall m :: i < m < k ==> ops[m] != Allow(h) && ops[m] != Close(h)
  }

  /** From a file_deny_write through handle h until h allows writes or is closed, the file does not change. */
  lemma {:induction false} DeniesUntilAllowed(states: seq<State>, ops: seq<Op>, results: seq<nat>, h: nat, i: nat,
                                              k: nat)
    requires IsTrace(states, ops, results) && i < k < |states| && ops[i] == Deny(h) && KeepsDenying(ops, h, i, k)
    ensures h in states[k].handles && states[k].handles[h] && states[k].data == states[i].data
  {
    hide IsTrace, Inv, Next;
    TraceStep(states, ops, results, k - 1);
    StepFlags(states[k - 1], ops[k - 1], results[k - 1], states[k], h);
    if k > i + 1 {
      DeniesUntilAllowed(states, ops, results, h, i, k - 1);
      DeniedStep(states[k - 1], ops[k - 1], results[k - 1], states[k], h);
    } else {
      DenyKeepsData(states[i], h, results[i], states[k]);
    }
  }

  lemma TraceStep(states: seq<State>, ops: seq<Op>, results: seq<nat>, i: nat)
    requires IsTrace(states, ops, results) && i + 1 < |states|
    ensures |states| == |results| + 1 <= |ops| + 1 && Inv(states[i])
    ensures Next(states[i], ops[i], results[i], states[i + 1])
  {
  }

  lemma DeniedStep(st: State, op: Op, written: nat, n: State, h: nat)
    requires Inv(st) && Next(st, op, written, n) && h in st.handles && st.handles[h]
    ensures n.data == st.data
  {
    CountsExact(st);
    hide Inv;
    assert st.denyCnt > 0;
  }

  lemma DenyKeepsData(st: State, h: nat, written: nat, n: State)
    requires Next(st, Deny(h), written, n)
    ensures n.data == st.data
  {
  }

  /** With memory, a write inside the file goes through if and only if no handle denies. */
  lemma WritesIffAllowed(st: State, op: Op, written: nat, n: State)
    requires Inv(st) && op.Write? && op.bounceOk && Next(st, op, written, n) && Clip(|st.data|, op.size, op.offset) > 0
    ensures written == Clip(|st.data|, op.size, op.offset) <==> !exists h :: h in st.handles && st.handles[h]
  {
    CountsExact(st);
  }

  class SharedInode {
    const dev: Block
    const start: nat
    const length: nat
    var handles: map<nat, bool>
    var openCnt: int
    var denyCnt: int

    ghost predicate Placed()
      reads dev
    {
      OnDevice(dev.sectors, Inode(start, length, 0))
    }

    ghost function St(): State
      requires Placed()
      reads this, dev
    {
      State(handles, openCnt, denyCnt, Data(dev.sectors, Inode(start, length, 0)))
    }

    ghost predicate Valid()
      reads this, dev
    {
      Placed() && Inv(St())
    }

    constructor (dev: Block, start: nat, length: nat)
      requires OnDevice(dev.sectors, Inode(start, length, 0))
      ensures Valid() && handles == map[] && this.dev == dev
    {
      this.dev, this.start, this.length := dev, start, length;
      handles, openCnt, denyCnt := map[], 0, 0;
    }

    /** file_deny_write, with the assertion of inode_deny_write. */
    method DenyWrite(h: nat)
      requires Valid() && h in handles
      modifies this`handles, this`denyCnt
      ensures Valid() && St() == Denied(old(St()), h)
    {
      DenyKeeps(St(), h);
      hide Inv;
      if !handles[h] {
        handles := handles[h := true];
        denyCnt := denyCnt + 1;
        CountsExact(St());
        assert denyCnt <= openCnt;
      }
    }

    /** file_allow_write, with the assertions of inode_allow_write. */
    method AllowWrite(h: nat)
      requires Valid() && h in handles
      modifies this`handles, this`denyCnt
      ensures Valid() && St() == Allowed(old(St()), h)
    {
      AllowKeeps(St(), h);
      CountsExact(St());
      hide Inv;
      if handles[h] {
        handles := handles[h := false];
        assert denyCnt > 0 && denyCnt <= openCnt;
        denyCnt := denyCnt - 1;
      }
    }

    /** file_close: a handle that denies writes stops doing so first. */
    method CloseFile(h: nat)
      requires Valid() && h in handles
      modifies this`handles, this`openCnt, this`denyCnt
      ensures Valid() && St() == Allowed(old(St()), h).(handles := old(handles) - {h}, openCnt := old(openCnt) - 1)
    {
      hide Inv;
      AllowWrite(h);
      CloseKeeps(St(), h);
      handles := handles - {h};
      openCnt := openCnt - 1;
    }

    /** file_write_at through any handle. */
    method WriteFile(h: nat, buffer: seq<byte>, size: int, offset: nat, bounceOk: bool) returns (written: nat)
      requires Valid() && h in handles && size <= |buffer|
      modifies dev
      ensures Valid() && Next(old(St()), Write(h, buffer, size, offset, bounceOk), written, St())
    {
      CountsExact(St());
      hide Inv;
      var inode := Inode(start, length, denyCnt);
      ghost var was := dev.sectors;
      written := WriteAt(dev, inode, buffer, size, offset, bounceOk);
      WrittenSlice(was, dev.sectors, Inode(start, length, 0), buffer, size, offset, written);
      SameCounts(old(St()), St());
    }

    static lemma SameCounts(a: State, b: State)
      requires Inv(a) && b == a.(data := b.data)
      ensures Inv(b)
    {
    }

    method Step(op: Op) returns (written: nat)
      requires Valid() && LegalStep(St(), op)
      modifies this`handles, this`openCnt, this`denyCnt, dev
      ensures Valid() && Next(old(St()), op, written, St())
    {
      hide Inv;
      written := 0;
      match op {
        case Open(h) =>
          OpenKeeps(St(), h);
          handles, openCnt := handles[h := false], openCnt + 1;
        case Deny(h) =>
          DenyWrite(h);
        case Allow(h) =>
          AllowWrite(h);
        case Close(h) =>
          CloseFile(h);
        case Write(h, buffer, size, offset, bounceOk) =>
          written := WriteFile(h, buffer, size, offset, bounceOk);
      }
    }

    /** Every sequence of calls, up to one on a handle that is not open. */
    method Run(ops: seq<Op>) returns (done: nat, results: seq<nat>, ghost states: seq<State>)
      requires Valid()
      modifies this`handles, this`openCnt, this`denyCnt, dev
      ensures Valid() && done <= |ops| && |states| == done + 1 && states[0] == old(St()) && states[done] == St()
      ensures IsTrace(states, ops, results)
      ensures done < |ops| ==> !LegalStep(St(), ops[done])
    {
      hide Inv, Next;
      done, results, states := 0, [], [St()];
      while done < |ops| && Legal(ops[done])
        invariant Valid() && done <= |ops| && |results| == done && |states| == done + 1
        invariant states[0] == old(St()) && states[done] == St() && IsTrace(states, ops, results)
      {
        var w := Step(ops[done]);
        results := results + [w];
        states := states + [St()];
        done := done + 1;
      }
    }

    predicate Legal(op: Op)
      requires Placed()
      reads this, dev
      ensures Legal(op) <==> LegalStep(St(), op)
    {
      match op
      case Open(h) => h !in handles
      case Write(h, buffer, size, _, _) => h in handles && size <= |buffer|
      case _ => op.h in handles
    }
  }

  /** What inode_write_at stores, as a change of the file's bytes. */
  lemma WrittenSlice(was: seq<Sector>, now: seq<Sector>, inode: Inode, buffer: seq<byte>, size: int, offset: nat,
                     written: nat)
    requires OnDevice(was, inode) && written <= |buffer| && written <= Clip(inode.length, size, offset)
    requires Stored(was, now, Address(inode, offset), buffer[..written])
    ensures OnDevice(now, inode) && SliceStored(Data(was, inode), Data(now, inode), buffer, offset, written)
  {
    forall i | 0 <= i < inode.length
      ensures Data(now, inode)[i] == if offset <= i < offset + written then buffer[i - offset] else Data(was, inode)[i]
    {
      assert Data(now, inode)[i] == At(now, Address(inode, i)) && Data(was, inode)[i] == At(was, Address(inode, i));
    }
  }
}
