// Threads that stand in code while it is hooked or unhooked: which of them go on where they were.
module SuspendedThreads {
  import opened HookIdentity
  import opened JumpEncoding
  import opened Prologue
  import opened Seqs
  import opened Transaction
  import opened X86Relocation

  // ---------- The ends of the moved instructions ----------

  // Where instruction i begins, or where the last one ends.
  function Begin(es: seq<End>, i: nat): End
    requires i <= |es|
  {
    if i == 0 then End(0, 0) else es[i - 1]
  }

  // They follow each other, and all but the last end within the bytes of the jump.
  ghost predicate Follow(es: seq<End>, first: End) {
    && (forall i :: 0 <= i < |es| ==> first.target < es[i].target && first.trampoline < es[i].trampoline)
    && (forall i, j :: 0 <= i < j < |es| ==> es[i].target < es[j].target && es[i].trampoline < es[j].trampoline)
    && (forall i :: 0 <= i < |es| - 1 ==> es[i].target < SIZE_OF_JMP)
  }

  // The ends es of the instructions that m moves, from first on.
  ghost predicate EndsOfMoved(es: seq<End>, m: Moved, first: End, count: nat) {
    && Follow(es, first) && |es| == m.count - count
    && (if es == [] then m.taken == first.target && m.bytes == []
        else es[|es| - 1] == End(m.taken, first.trampoline + |m.bytes|))
  }

  lemma FollowsOne(e: End, es: seq<End>, m: Moved, first: End, count: nat, bytes: seq<Byte>)
    requires EndsOfMoved(es, m, e, count + 1) && first.target < e.target && first.trampoline < e.trampoline
    requires e.trampoline == first.trampoline + |bytes| && (es != [] ==> e.target < SIZE_OF_JMP)
    ensures EndsOfMoved([e] + es, m.(bytes := bytes + m.bytes), first, count)
  {
    var all := [e] + es;
    forall i, j | 0 <= i < j < |all| ensures all[i].target < all[j].target && all[i].trampoline < all[j].trampoline {
      if i > 0 {
        assert all[i] == es[i - 1] && all[j] == es[j - 1];
      }
    }
  }

  lemma NoneFollow(e: End, count: nat)
    ensures EndsOfMoved([], Moved(count, e.target, []), e, count)
  {
  }

  lemma {:induction false} EndsFollow(t: Table, code: seq<Byte>, taken: nat, count: nat, delta: int, moved: nat)
    requires taken <= |code| && count < ALIGN_COUNT && MoveFrom(t, code, taken, count, delta).Some?
    ensures EndsOfMoved(EndsFrom(t, code, taken, count, delta, moved), MoveFrom(t, code, taken, count, delta).value,
                        End(taken, moved), count)
    ensures EndsFrom(t, code, taken, count, delta, moved) != [] <==> taken < SIZE_OF_JMP
    decreases |code| - taken
  {
    hide CopyInstruction, EndsFunction, EndsOfMoved;
    if taken >= SIZE_OF_JMP {
      NoneFollow(End(taken, moved), count);
    } else {
      EndsTurn(t, code, taken, count, delta, moved);
      MoveTurn(t, code, taken, count, delta);
      var c := CopyInstruction(t, code[taken..], delta).value;
      var e, d := End(taken + c.length, moved + |c.bytes|), delta + |c.bytes| - c.length;
      if count + 1 >= ALIGN_COUNT || EndsFunction(code[taken..]) {
        NoneFollow(e, count + 1);
        FollowsOne(e, [], Moved(count + 1, e.target, []), End(taken, moved), count, c.bytes);
      } else {
        EndsFollow(t, code, e.target, count + 1, d, e.trampoline);
        FollowsOne(e, EndsFrom(t, code, e.target, count + 1, d, e.trampoline), MoveFrom(t, code, e.target, count + 1, d).value,
          End(taken, moved), count, c.bytes);
      }
    }
  }

  // ---------- The tables ----------

  lemma {:induction false} FromTargetIs(b: seq<Align>, ob: nat, i: nat)
    requires i <= |b| && (forall k :: 0 <= k < i ==> b[k].obTarget != ob) && (i < |b| ==> b[i].obTarget == ob)
    ensures FromTarget(b, ob) == if i < |b| then b[i].obTrampoline else 0
  {
    if i > 0 {
      FromTargetIs(b[1..], ob, i - 1);
    }
  }

  lemma {:induction false} FromTrampolineIs(b: seq<Align>, ob: nat, i: nat)
    requires i <= |b| && (forall k :: 0 <= k < i ==> b[k].obTrampoline != ob) && (i < |b| ==> b[i].obTrampoline == ob)
    ensures FromTrampoline(b, ob) == if i < |b| then b[i].obTarget else 0
  {
    if i > 0 {
      FromTrampolineIs(b[1..], ob, i - 1);
    }
  }

  // Ends that an attach notes in its table.
  ghost predicate Noted(es: seq<End>) {
    && Follow(es, End(0, 0)) && es != [] && |es| <= ALIGN_COUNT
    && es[|es| - 1].target <= CODE_SIZE - SIZE_OF_JMP && es[|es| - 1].trampoline <= CODE_SIZE
  }

  // Three bits hold where all instructions but the last one end, five bits where any copy does.
  lemma NotedIs(es: seq<End>)
    requires Noted(es)
    ensures var b := AlignTable(es);
      && |b| == ALIGN_COUNT
      && (forall i :: 0 <= i < |es| - 1 ==> b[i].obTarget == es[i].target && 0 < es[i].target)
      && b[|es| - 1].obTarget == es[|es| - 1].target % 8
      && (forall i :: 0 <= i < |es| ==> b[i].obTrampoline == es[i].trampoline && 0 < es[i].trampoline)
      && (forall i :: |es| <= i < ALIGN_COUNT ==> b[i] == NO_ALIGN)
  {
    forall i | 0 <= i < |es| ensures 0 < es[i].trampoline < 32 {
      assert i < |es| - 1 ==> es[i].trampoline < es[|es| - 1].trampoline;
    }
  }

  // The place of an instruction's beginning is found exactly, but for the first instruction when the
  // end of the last one is noted as 0 in its three bits.
  lemma AttachFinds(es: seq<End>, i: nat)
    requires Noted(es) && i < |es|
    ensures FromTarget(AlignTable(es), Begin(es, i).target) == Begin(es, i).trampoline
       <==> !(i == 0 && es[|es| - 1].target % 8 == 0)
  {
    hide AlignTable, FromTarget;
    NotedIs(es);
    var b := AlignTable(es);
    if i > 0 {
      FromTargetIs(b, es[i - 1].target, i - 1);
    } else {
      FromTargetIs(b, 0, if es[|es| - 1].target % 8 == 0 then |es| - 1 else |es|);
    }
  }

  // Two instructions of four bytes are enough: a thread in front of them is sent behind them.
  lemma EightBytesAreSkipped()
    ensures Noted([End(4, 4), End(8, 8)]) && FromTarget(AlignTable([End(4, 4), End(8, 8)]), 0) == 8
  {
    FromTargetIs(AlignTable([End(4, 4), End(8, 8)]), 0, 1);
  }

  // The way back is found exactly, but for the place behind the last instruction when more bytes
  // were taken than three bits hold.
  lemma DetachFindsPlace(es: seq<End>, i: nat)
    requires Noted(es) && i <= |es|
    ensures FromTrampoline(AlignTable(es), Begin(es, i).trampoline) == Begin(es, i).target
       <==> !(i == |es| && es[|es| - 1].target >= 8)
  {
    hide AlignTable, FromTrampoline;
    NotedIs(es);
    var b := AlignTable(es);
    if i > 0 {
      FromTrampolineIs(b, es[i - 1].trampoline, i - 1);
    } else {
      FromTrampolineIs(b, 0, |es|);
    }
  }

  // ---------- One thread and a whole commit ----------

  lemma EndsNoted(s: State, t: Table, h: Hook)
    requires Attachable(s, t, h)
    ensures Noted(EndsOf(s, t, h))
    ensures var es, p := EndsOf(s, t, h), PreparedFor(s, t, h);
      p.Prepared? && es[|es| - 1].target == p.moved.taken <= p.taken && es[|es| - 1].trampoline == |p.moved.bytes|
  {
    hide MoveFrom, EndsFrom;
    var window := Read(s.code, h.target, WINDOW);
    PreparedMoved(t, window, h.target, h.slot);
    EndsFollow(t, window, 0, 0, h.slot - h.target, 0);
  }

  // What the trampolines hold of the hooks in the list.
  ghost predicate Holds(s0: State, t: Table, hs: seq<Hook>, slots: map<int, Trampoline>)
    requires forall i :: 0 <= i < |hs| ==> Attachable(s0, t, hs[i])
  {
    forall i :: 0 <= i < |hs| ==>
      && hs[i].slot in slots && slots[hs[i].slot].cbRestore == Taken(s0, t, hs[i])
      && slots[hs[i].slot].align == AlignTable(EndsOf(s0, t, hs[i]))
  }

  lemma OpsLive(s0: State, t: Table, hs: seq<Hook>, slots: map<int, Trampoline>, idx: seq<int>, adds: bool)
    requires (forall i :: 0 <= i < |hs| ==> Attachable(s0, t, hs[i])) && Holds(s0, t, hs, slots) && Indices(idx, |hs|)
    ensures forall o <- Ops(hs, idx, adds) :: o.trampoline in slots
  {
    hide Attachable, Taken;
  }

  // Of adds with disjoint prologues only the one that the thread stands in redirects it.
  lemma {:induction false} RedirectsAdd(s0: State, t: Table, hs: seq<Hook>, slots: map<int, Trampoline>, idx: seq<int>, i: int, pc: int)
    requires Apart(s0, t, hs) && Holds(s0, t, hs, slots) && Indices(idx, |hs|) && i in idx
    requires 0 <= i < |hs| && Within(pc, hs[i].target, Taken(s0, t, hs[i]))
    ensures forall o <- Ops(hs, idx, true) :: o.trampoline in slots
    ensures Redirect(slots, Ops(hs, idx, true), pc)
         == hs[i].slot + FromTarget(AlignTable(EndsOf(s0, t, hs[i])), pc - hs[i].target)
    decreases |idx|
  {
    hide Apart, Attachable, Taken, FromTarget, AlignTable, EndsOf;
    AllAttachable(s0, t, hs);
    OpsLive(s0, t, hs, slots, idx, true);
    OpsTail(hs, idx, true);
    if idx[0] != i {
      BytesDiffer(s0, t, hs, i);
      assert !Within(pc, hs[idx[0]].target, Taken(s0, t, hs[idx[0]]));
      RedirectsAdd(s0, t, hs, slots, idx[1..], i, pc);
    }
  }

  // Trampolines are as far apart as they are long.
  ghost predicate Spaced(hs: seq<Hook>) {
    forall i, j :: 0 <= i < |hs| && 0 <= j < |hs| && i != j ==> hs[i].slot + 96 <= hs[j].slot || hs[j].slot + 96 <= hs[i].slot
  }

  lemma {:induction false} RedirectsRemove(s0: State, t: Table, hs: seq<Hook>, slots: map<int, Trampoline>, idx: seq<int>, i: int, pc: int)
    requires Apart(s0, t, hs) && Holds(s0, t, hs, slots) && Indices(idx, |hs|) && i in idx
    requires 0 <= i < |hs| && Within(pc, hs[i].slot, CODE_SIZE) && Spaced(hs)
    ensures forall o <- Ops(hs, idx, false) :: o.trampoline in slots
    ensures Redirect(slots, Ops(hs, idx, false), pc)
         == hs[i].target + FromTrampoline(AlignTable(EndsOf(s0, t, hs[i])), pc - hs[i].slot)
    decreases |idx|
  {
    hide Apart, Attachable, Taken, FromTrampoline, AlignTable, EndsOf;
    AllAttachable(s0, t, hs);
    OpsLive(s0, t, hs, slots, idx, false);
    OpsTail(hs, idx, false);
    if idx[0] != i {
      RedirectsRemove(s0, t, hs, slots, idx[1..], i, pc);
    }
  }

  // A thread that was about to jump from the entry of a trampoline to the detour.
  lemma {:induction false} RedirectsEntered(s0: State, t: Table, hs: seq<Hook>, slots: map<int, Trampoline>, idx: seq<int>, i: int)
    requires Apart(s0, t, hs) && Holds(s0, t, hs, slots) && Indices(idx, |hs|) && i in idx && 0 <= i < |hs| && Spaced(hs)
    ensures forall o <- Ops(hs, idx, false) :: o.trampoline in slots
    ensures Redirect(slots, Ops(hs, idx, false), hs[i].slot + 88) == hs[i].target
    decreases |idx|
  {
    hide Apart, Attachable, Taken, FromTrampoline, AlignTable, EndsOf;
    AllAttachable(s0, t, hs);
    OpsLive(s0, t, hs, slots, idx, false);
    OpsTail(hs, idx, false);
    if idx[0] != i {
      RedirectsEntered(s0, t, hs, slots, idx[1..], i);
    }
  }

  // Neither at a copy nor at an entry.
  ghost predicate OutOfTrampolines(hs: seq<Hook>, pc: int) {
    forall i :: 0 <= i < |hs| ==> !Within(pc, hs[i].slot, 30) && pc != hs[i].slot + 88
  }

  ghost predicate OutOfPrologues(s0: State, t: Table, hs: seq<Hook>, pc: int)
    requires forall i :: 0 <= i < |hs| ==> Attachable(s0, t, hs[i])
  {
    forall i :: 0 <= i < |hs| ==> !Within(pc, hs[i].target, Taken(s0, t, hs[i]))
  }

  lemma {:induction false} RedirectsNone(s0: State, t: Table, hs: seq<Hook>, slots: map<int, Trampoline>, idx: seq<int>, adds: bool,
                                         pc: int)
    requires (forall i :: 0 <= i < |hs| ==> Attachable(s0, t, hs[i])) && Holds(s0, t, hs, slots) && Indices(idx, |hs|)
    requires if adds then OutOfPrologues(s0, t, hs, pc) else OutOfTrampolines(hs, pc)
    ensures forall o <- Ops(hs, idx, adds) :: o.trampoline in slots
    ensures Redirect(slots, Ops(hs, idx, adds), pc) == pc
    decreases |idx|
  {
    hide Attachable, Taken, FromTrampoline, FromTarget, AlignTable, EndsOf;
    OpsLive(s0, t, hs, slots, idx, adds);
    if idx != [] {
      OpsTail(hs, idx, adds);
      RedirectsNone(s0, t, hs, slots, idx[1..], adds, pc);
    }
  }

  lemma StageHolds(s0: State, t: Table, hs: seq<Hook>, base: Memory, s: State, on: set<int>, armed: set<int>, have: set<int>)
    requires Apart(s0, t, hs) && Stage(s0, t, hs, base, s, on, armed, have) && have == Upto(|hs|)
    ensures (forall i :: 0 <= i < |hs| ==> Attachable(s0, t, hs[i])) && Holds(s0, t, hs, s.slots)
  {
    hide CodeStage, PointerStage, Apart, Attachable;
    AllAttachable(s0, t, hs);
    forall i | 0 <= i < |hs|
      ensures hs[i].slot in s.slots && s.slots[hs[i].slot].cbRestore == Taken(s0, t, hs[i])
      ensures s.slots[hs[i].slot].align == AlignTable(EndsOf(s0, t, hs[i]))
    {
      assert i in have;
    }
  }

  // ---------- Where threads go on ----------

  // The commit of the attaches, as a list of adds.
  lemma AttachesEnd(s0: State, t: Table, thread: int, hs: seq<Hook>) returns (idx: seq<int>)
    requires Ready(s0, t, thread, hs)
    ensures var s := AttachEach(s0, t, thread, hs, |hs|); var (last, os) := CommitAll(s, s.pending);
      && Apart(s0, t, hs) && (forall i :: 0 <= i < |hs| ==> Attachable(s0, t, hs[i])) && Holds(s0, t, hs, last.slots)
      && Indices(idx, |hs|) && os == Ops(hs, idx, true) && forall i :: 0 <= i < |hs| ==> i in idx
  {
    hide Stage, Apart, SlotsOk, OperationOk, CommitOne, CommitAll, Ops, Latest, InOrder, Attachable, Holds;
    var n, s := |hs|, AttachEach(s0, t, thread, hs, |hs|);
    var all := Upto(n);
    idx := Latest(InOrder(n), n);
    AttachesSucceed(s0, t, thread, hs, n);
    InOrderAll(n);
    LatestAll(hs, InOrder(n));
    AddsCommit(s0, t, hs, s0.code, s, {}, {}, all, idx);
    assert {} + all == all;
    StageHolds(s0, t, hs, s0.code, CommitAll(s, s.pending).0, all, all, all);
    forall i | 0 <= i < |hs| ensures i in idx {
      assert i in all && i in Elements(idx);
    }
  }

  // A thread that stands at an instruction of a function, while this and other functions are hooked,
  // goes on at the copy of that instruction. The exception is a thread at the very beginning of a
  // function whose moved instructions take 8, 16 or 24 bytes: it goes on behind them.
  lemma AttachMovesThreads(s0: State, t: Table, thread: int, hs: seq<Hook>, i: nat, k: nat)
    requires Ready(s0, t, thread, hs) && i < |hs| && Attachable(s0, t, hs[i]) && k < |EndsOf(s0, t, hs[i])|
    ensures var s := AttachEach(s0, t, thread, hs, |hs|); var (last, os) := CommitAll(s, s.pending);
      var es, at := EndsOf(s0, t, hs[i]), Begin(EndsOf(s0, t, hs[i]), k);
      && (forall o <- os :: o.trampoline in last.slots) && es != []
      && (Redirect(last.slots, os, hs[i].target + at.target) == hs[i].slot + at.trampoline
          <==> !(k == 0 && es[|es| - 1].target % 8 == 0))
  {
    hide Apart, CommitAll, Ops, AttachEach, Attachable, Redirect, AlignTable, FromTarget, Noted, EndsOf, Taken, Holds;
    var s := AttachEach(s0, t, thread, hs, |hs|);
    var idx := AttachesEnd(s0, t, thread, hs);
    EndsNoted(s0, t, hs[i]);
    BeginsWithin(s0, t, hs[i], k);
    AttachFinds(EndsOf(s0, t, hs[i]), k);
    RedirectsAdd(s0, t, hs, CommitAll(s, s.pending).0.slots, idx, i, hs[i].target + Begin(EndsOf(s0, t, hs[i]), k).target);
  }

  // A thread that stands in none of the prologues stays where it is.
  lemma AttachLeavesOthers(s0: State, t: Table, thread: int, hs: seq<Hook>, pc: int)
    requires Ready(s0, t, thread, hs)
    requires (forall i :: 0 <= i < |hs| ==> Attachable(s0, t, hs[i])) && OutOfPrologues(s0, t, hs, pc)
    ensures var s := AttachEach(s0, t, thread, hs, |hs|); var (last, os) := CommitAll(s, s.pending);
      (forall o <- os :: o.trampoline in last.slots) && Redirect(last.slots, os, pc) == pc
  {
    hide Apart, CommitAll, Ops, AttachEach, Attachable, Redirect, Holds, OutOfPrologues;
    var s := AttachEach(s0, t, thread, hs, |hs|);
    var idx := AttachesEnd(s0, t, thread, hs);
    RedirectsNone(s0, t, hs, CommitAll(s, s.pending).0.slots, idx, true, pc);
  }

  lemma BeginsWithin(s0: State, t: Table, h: Hook, k: nat)
    requires Attachable(s0, t, h) && k < |EndsOf(s0, t, h)|
    ensures Within(h.target + Begin(EndsOf(s0, t, h), k).target, h.target, Taken(s0, t, h))
    ensures Noted(EndsOf(s0, t, h))
  {
    hide EndsOf, Prepare;
    EndsNoted(s0, t, h);
  }

  // Hooks that are attached, and the order in which all of them are to be taken off.
  ghost predicate TakesAllOff(s0: State, t: Table, s1: State, hs: seq<Hook>, order: seq<int>) {
    && Apart(s0, t, hs) && Hooked(s0, t, hs, s1) && Spaced(hs)
    && Indices(order, |hs|) && Distinct(order) && Elements(order) == Upto(|hs|)
  }

  lemma DetachesEnd(s0: State, t: Table, s1: State, thread: int, hs: seq<Hook>, order: seq<int>) returns (idx: seq<int>)
    requires TakesAllOff(s0, t, s1, hs, order)
    ensures Valid(s1) && Indices(order, |hs|)
    ensures var s := DetachEach(s1, thread, hs, order, |order|); var (last, os) := CommitAll(s, s.pending);
      && (forall i :: 0 <= i < |hs| ==> Attachable(s0, t, hs[i])) && Holds(s0, t, hs, last.slots)
      && Indices(idx, |hs|) && os == Ops(hs, idx, false) && forall i :: 0 <= i < |hs| ==> i in idx
  {
    hide Stage, Apart, SlotsOk, OperationOk, CommitOne, CommitAll, Ops, Latest, Attachable, SpoiltUpTo, AllKept, Spoilt, Holds;
    AllAttachable(s0, t, hs);
    var s, all, base := DetachEach(s1, thread, hs, order, |order|), Upto(|hs|), Spoilt(s0, t, hs, |hs|);
    idx := Latest(order, |order|);
    SpoiltIs(s0, t, hs, |hs|);
    DetachesSucceed(s0, t, s1, thread, hs, order, |order|);
    LatestAll(hs, order);
    StageOnly(s0, t, hs, s0.code, s1, s, all, all, all);
    Rebase(s0, t, hs, base, s, all);
    RemovesCommit(s0, t, hs, base, s, all, all, all, idx);
    StageHolds(s0, t, hs, base, CommitAll(s, s.pending).0, all - all, all, all);
    forall i | 0 <= i < |hs| ensures i in idx {
      assert i in all && i in Elements(idx);
    }
  }

  // A thread that stands at a copy goes back to the original when the hooks are taken off. The
  // exception is a thread that stands at the jump behind the copies, when they were taken from 8 or
  // more bytes.
  lemma DetachMovesThreads(s0: State, t: Table, s1: State, thread: int, hs: seq<Hook>, order: seq<int>, i: nat, k: nat)
    requires TakesAllOff(s0, t, s1, hs, order)
    requires i < |hs| && Attachable(s0, t, hs[i]) && k <= |EndsOf(s0, t, hs[i])|
    requires Begin(EndsOf(s0, t, hs[i]), k).trampoline < CODE_SIZE
    ensures var s := DetachEach(s1, thread, hs, order, |order|); var (last, os) := CommitAll(s, s.pending);
      var es, at := EndsOf(s0, t, hs[i]), Begin(EndsOf(s0, t, hs[i]), k);
      && (forall o <- os :: o.trampoline in last.slots) && es != []
      && (Redirect(last.slots, os, hs[i].slot + at.trampoline) == hs[i].target + at.target
          <==> !(k == |es| && es[|es| - 1].target >= 8))
  {
    hide Apart, Hooked, SlotsOk, OperationOk, CommitAll, Ops, DetachEach, Attachable, Redirect, AlignTable, FromTrampoline,
      Noted, EndsOf, Taken, Holds;
    var idx := DetachesEnd(s0, t, s1, thread, hs, order);
    var s := DetachEach(s1, thread, hs, order, |order|);
    EndsNoted(s0, t, hs[i]);
    NotedBegins(EndsOf(s0, t, hs[i]));
    DetachFindsPlace(EndsOf(s0, t, hs[i]), k);
    RedirectsRemove(s0, t, hs, CommitAll(s, s.pending).0.slots, idx, i, hs[i].slot + Begin(EndsOf(s0, t, hs[i]), k).trampoline);
  }

  // A thread that has come to the entry of a trampoline, and has not yet jumped to the detour, goes back to
  // the beginning of the function; one that stands at no copy and no entry stays where it is.
  lemma DetachMovesEntered(s0: State, t: Table, s1: State, thread: int, hs: seq<Hook>, order: seq<int>, pc: int)
    requires TakesAllOff(s0, t, s1, hs, order)
    ensures var s := DetachEach(s1, thread, hs, order, |order|); var (last, os) := CommitAll(s, s.pending);
      && (forall o <- os :: o.trampoline in last.slots)
      && (forall i :: 0 <= i < |hs| && pc == hs[i].slot + 88 ==> Redirect(last.slots, os, pc) == hs[i].target)
      && (OutOfTrampolines(hs, pc) ==> Redirect(last.slots, os, pc) == pc)
  {
    hide Apart, Hooked, SlotsOk, OperationOk, CommitAll, Ops, DetachEach, Attachable, Redirect, Holds, OutOfTrampolines;
    var idx := DetachesEnd(s0, t, s1, thread, hs, order);
    var s := DetachEach(s1, thread, hs, order, |order|);
    var (last, os) := CommitAll(s, s.pending);
    OpsLive(s0, t, hs, last.slots, idx, false);
    forall i | 0 <= i < |hs| && pc == hs[i].slot + 88 ensures Redirect(last.slots, os, pc) == hs[i].target {
      RedirectsEntered(s0, t, hs, last.slots, idx, i);
    }
    if OutOfTrampolines(hs, pc) {
      RedirectsNone(s0, t, hs, last.slots, idx, false, pc);
    }
  }

  lemma NotedBegins(es: seq<End>)
    requires Noted(es)
    ensures es != []
  {
  }

  // ---------- And what they do there ----------

  // The copies from one place on, at this address, do what the originals do from there on.
  ghost predicate Resumes<S>(t: Table, code: seq<Byte>, target: int, bytes: seq<Byte>, rest: seq<Byte>, here: int, moved: nat,
                             at: End, count: nat, exec: (Meaning, S) -> Flow<S>, s: S)
  {
    && at.target <= |code| && moved <= at.trampoline <= moved + |bytes|
    && Run(t, (bytes + rest)[at.trampoline - moved..], here + (at.trampoline - moved), count, exec, s)
       == Moving(Run(t, code[at.target..], target + at.target, count, exec, s), here + |bytes|)
  }

  lemma ResumesBehind<S>(t: Table, code: seq<Byte>, target: int, first: seq<Byte>, bytes: seq<Byte>, rest: seq<Byte>, here: int,
                         moved: nat, at: End, count: nat, exec: (Meaning, S) -> Flow<S>, s: S)
    requires Resumes(t, code, target, bytes, rest, here + |first|, moved + |first|, at, count, exec, s)
    ensures Resumes(t, code, target, first + bytes, rest, here, moved, at, count, exec, s)
  {
    hide Run, Moving;
    var n := at.trampoline - moved - |first|;
    Assoc(first, bytes, rest);
    DropPast(first, bytes + rest, n);
    assert ((first + bytes) + rest)[at.trampoline - moved..] == (bytes + rest)[n..];
  }

  lemma ResumesAtEnd<S>(t: Table, code: seq<Byte>, target: int, bytes: seq<Byte>, rest: seq<Byte>, here: int, moved: nat, at: End,
                        exec: (Meaning, S) -> Flow<S>, s: S)
    requires at.target <= |code| && at.trampoline == moved + |bytes|
    ensures Resumes(t, code, target, bytes, rest, here, moved, at, 0, exec, s)
  {
    NothingRuns(t, (bytes + rest)[|bytes|..], here + |bytes|, code[at.target..], target + at.target, exec, s);
  }

  lemma ResumesAtStart<S>(t: Table, code: seq<Byte>, taken: nat, count: nat, target: int, delta: int, moved: nat,
                          rest: seq<Byte>, exec: (Meaning, S) -> Flow<S>, s: S)
    requires KnowsJumps(t) && taken <= |code| && count < ALIGN_COUNT
    requires MoveFrom(t, code, taken, count, delta).Some? && AllInReach(t, code, taken, count, target, delta)
    ensures var m := MoveFrom(t, code, taken, count, delta).value;
      && count <= m.count
      && Resumes(t, code, target, m.bytes, rest, target + taken + delta, moved, End(taken, moved), m.count - count, exec, s)
  {
    hide MoveFrom, AllInReach, KnowsJumps, Run, Moving;
    var m := MoveFrom(t, code, taken, count, delta).value;
    MovedRuns(t, code, taken, count, target, delta, rest, exec, s);
    assert (m.bytes + rest)[0..] == m.bytes + rest;
  }

  // From the beginning of any instruction on, the copies do what the originals do.
  lemma {:induction false} ResumesFrom<S>(t: Table, code: seq<Byte>, taken: nat, count: nat, target: int, delta: int, moved: nat,
                                          rest: seq<Byte>, k: nat, exec: (Meaning, S) -> Flow<S>, s: S)
    requires KnowsJumps(t) && taken <= |code| && count < ALIGN_COUNT
    requires MoveFrom(t, code, taken, count, delta).Some? && AllInReach(t, code, taken, count, target, delta)
    requires k <= |EndsFrom(t, code, taken, count, delta, moved)|
    ensures var m, es := MoveFrom(t, code, taken, count, delta).value, EndsFrom(t, code, taken, count, delta, moved);
      var at := if k == 0 then End(taken, moved) else es[k - 1];
      && count + k <= m.count
      && Resumes(t, code, target, m.bytes, rest, target + taken + delta, moved, at, m.count - count - k, exec, s)
    decreases k
  {
    hide CopyInstruction, EndsFunction, KnowsJumps, MoveFrom, EndsFrom, AllInReach, Resumes;
    if k == 0 {
      ResumesAtStart(t, code, taken, count, target, delta, moved, rest, exec, s);
    } else {
      EndsFollow(t, code, taken, count, delta, moved);
      EndsTurn(t, code, taken, count, delta, moved);
      MoveTurn(t, code, taken, count, delta);
      var here, c := target + taken + delta, CopyInstruction(t, code[taken..], delta).value;
      var e, more := End(taken + c.length, moved + |c.bytes|), delta + |c.bytes| - c.length;
      if count + 1 >= ALIGN_COUNT || EndsFunction(code[taken..]) {
        ResumesAtEnd(t, code, target, c.bytes + [], rest, here, moved, e, exec, s);
      } else {
        ReachGoesOn(t, code, taken, count, target, delta);
        ResumesFrom(t, code, e.target, count + 1, target, more, e.trampoline, rest, k - 1, exec, s);
        var tail, es := MoveFrom(t, code, e.target, count + 1, more).value, EndsFrom(t, code, e.target, count + 1, more, e.trampoline);
        var at := if k == 1 then e else es[k - 2];
        ResumesBehind(t, code, target, c.bytes, tail.bytes, rest, here, moved, at, tail.count - count - k, exec, s);
      }
    }
  }

  lemma ReachGoesOn(t: Table, code: seq<Byte>, taken: nat, count: nat, target: int, delta: int)
    requires taken <= |code| && count + 1 < ALIGN_COUNT && taken < SIZE_OF_JMP && AllInReach(t, code, taken, count, target, delta)
    requires CopyInstruction(t, code[taken..], delta).Some? && !EndsFunction(code[taken..])
    ensures var c := CopyInstruction(t, code[taken..], delta).value;
      AllInReach(t, code, taken + c.length, count + 1, target, delta + |c.bytes| - c.length)
  {
    hide CopyInstruction, EndsFunction, FirstInReach;
  }

  lemma NothingRuns<S>(t: Table, b: seq<Byte>, at: int, code: seq<Byte>, from: int, exec: (Meaning, S) -> Flow<S>, s: S)
    ensures Run(t, b, at, 0, exec, s) == Moving(Run(t, code, from, 0, exec, s), at)
  {
  }

  lemma DropPast<T>(a: seq<T>, b: seq<T>, n: nat)
    requires n <= |b|
    ensures (a + b)[|a| + n..] == b[n..]
  {
  }

  // A thread that was moved to a copy executes what it would have executed, and comes to the jump
  // to the rest of the function.
  lemma MovedThreadGoesOn<S>(s0: State, t: Table, h: Hook, k: nat, exec: (Meaning, S) -> Flow<S>, s: S)
    requires Attachable(s0, t, h) && KnowsJumps(t) && k <= |EndsOf(s0, t, h)|
    requires AllInReach(t, Read(s0.code, h.target, WINDOW), 0, 0, h.target, h.slot - h.target)
    ensures var p, at := PreparedFor(s0, t, h), Begin(EndsOf(s0, t, h), k);
      && p.Prepared? && at.target <= WINDOW && at.trampoline <= |p.moved.bytes| <= HEAD_SIZE && k <= p.moved.count
      && Run(t, Record(s0, t, h).head[at.trampoline..], h.slot + at.trampoline, p.moved.count - k, exec, s)
         == Moving(Run(t, Read(s0.code, h.target, WINDOW)[at.target..], h.target + at.target, p.moved.count - k, exec, s),
                   h.slot + |p.moved.bytes|)
  {
    hide Run, Moving, MoveFrom, EndsFrom, AllInReach, KnowsJumps, Head, Prepare;
    var p, window := PreparedFor(s0, t, h), Read(s0.code, h.target, WINDOW);
    PreparedMoved(t, window, h.target, h.slot);
    HeadRuns(p.moved, window[..p.taken], h.slot);
    var b := Head(p.moved.bytes, window[..p.taken], h.slot);
    var rest := JmpIndirect(h.slot + |p.moved.bytes|, h.slot + REMAIN_OFFSET) + b[|p.moved.bytes| + 6..];
    Assoc(p.moved.bytes, JmpIndirect(h.slot + |p.moved.bytes|, h.slot + REMAIN_OFFSET), b[|p.moved.bytes| + 6..]);
    ResumesFrom(t, window, 0, 0, h.target, h.slot - h.target, 0, rest, k, exec, s);
  }
}
